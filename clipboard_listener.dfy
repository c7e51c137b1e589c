/**
 * Model of the appended-text tracker in src/content/clipboard-listener.js.
 *
 * The listener remembers one string, `lastValue`, the last value it saw in a
 * focused textarea.  A focus-in on a textarea re-seeds it and attaches the
 * mutation observer; each observed mutation while a textarea is active
 * reports the part of the new value past the old value's length (when the
 * value grew) and then remembers the new value.  The DOM lookups become event
 * arguments and `chrome.runtime.sendMessage` becomes appending to `sent`.
 */
module ClipboardListener {
  import opened Wrappers

  /**
   * What the listener keeps between events: the closed-over `lastValue`, and
   * whether the mutation observer has been attached (the callback cannot run
   * before the first focus-in on a textarea calls `observe`).
   */
  datatype ListenerState = ListenerState(lastValue: string, observing: bool)

  /** The state right after `trackClipboardChanges()` runs. */
  const Initial: ListenerState := ListenerState("", false)

  /**
   * The two events the listener reacts to, each carrying what the handler
   * reads from `document.activeElement`: whether it is a `TEXTAREA`, and its
   * current value.
   */
  datatype Event =
    | FocusIn(isTextarea: bool, value: string)
    | Mutation(isTextarea: bool, value: string)

  /**
   * The text one mutation reports: when the new value is strictly longer than
   * the remembered one, its tail past the remembered length.  Only the two
   * lengths decide; the remembered value's content is never compared.
   */
  function AddedText(lastValue: string, newValue: string): (r: Option<string>)
    ensures r.Some? <==> |newValue| > |lastValue|
    ensures r.Some? ==> r.value != [] && |lastValue| + |r.value| == |newValue|
                        && newValue == newValue[..|lastValue|] + r.value
  {
    if |newValue| > |lastValue| then Some(newValue[|lastValue|..]) else None
  }

  /** The result of handling one event: the next state and the message sent, if any. */
  datatype Outcome = Outcome(next: ListenerState, message: Option<string>)

  /** One event handler run (the `focusin` listener or the observer callback). */
  function Step(s: ListenerState, e: Event): (r: Outcome)
    ensures r.message.Some? ==> e.Mutation? && e.isTextarea && s.observing
    ensures r.next.observing <==> s.observing || (e.FocusIn? && e.isTextarea)
    ensures e.isTextarea && (e.FocusIn? || s.observing) ==> r.next.lastValue == e.value
    ensures !(e.isTextarea && (e.FocusIn? || s.observing)) ==> r == Outcome(s, None)
  {
    match e
    case FocusIn(isTextarea, value) =>
      if isTextarea then Outcome(ListenerState(value, true), None) else Outcome(s, None)
    case Mutation(isTextarea, value) =>
      if s.observing && isTextarea then
        Outcome(ListenerState(value, s.observing), AddedText(s.lastValue, value))
      else Outcome(s, None)
  }

  /** The messages an optional message contributes to the sent sequence. */
  function Messages(m: Option<string>): (r: seq<string>)
    ensures |r| <= 1
  {
    if m.Some? then [m.value] else []
  }

  /** The state after a sequence of events, and every message sent on the way, in order. */
  datatype Trace = Trace(final: ListenerState, sent: seq<string>)

  /** Runs the handlers over `events`, one after another, from state `s`. */
  function Run(s: ListenerState, events: seq<Event>): (r: Trace)
    ensures |r.sent| <= |events|
    decreases |events|
  {
    if events == [] then Trace(s, [])
    else
      var o := Step(s, events[0]);
      var t := Run(o.next, events[1..]);
      Trace(t.final, Messages(o.message) + t.sent)
  }

  /** All the strings of `ss`, joined in order. */
  function Concat(ss: seq<string>): (r: string)
    decreases |ss|
  {
    if ss == [] then "" else ss[0] + Concat(ss[1..])
  }

  // ---------------------------------------------------------------------------
  // One event

  /**
   * A mutation sends a message exactly when the observer is attached, a
   * textarea is active and its value grew; the message is the non-empty tail
   * past the old length.  With a textarea active the new value is remembered
   * whether or not anything was sent.
   */
  lemma MutationStep(s: ListenerState, isTextarea: bool, v: string)
    ensures Step(s, Mutation(isTextarea, v)).message.Some?
            <==> s.observing && isTextarea && |v| > |s.lastValue|
    ensures Step(s, Mutation(isTextarea, v)).message.Some? ==>
              var m := Step(s, Mutation(isTextarea, v)).message.value;
              m == v[|s.lastValue|..] && m != [] && |m| == |v| - |s.lastValue|
    ensures s.observing && isTextarea ==> Step(s, Mutation(isTextarea, v)).next.lastValue == v
  {
  }

  /** When no textarea is active, neither handler changes the state or sends anything. */
  lemma NonTextareaIgnored(s: ListenerState, e: Event)
    requires !e.isTextarea
    ensures Step(s, e) == Outcome(s, None)
  {
  }

  /** A focus-in on a textarea sends nothing and remembers the textarea's current value. */
  lemma FocusInStep(s: ListenerState, v: string)
    ensures Step(s, FocusIn(true, v)) == Outcome(ListenerState(v, true), None)
  {
  }

  /** When the remembered value is a prefix of the new one, it and the message rebuild the new value. */
  lemma PrefixRebuilt(lastValue: string, newValue: string)
    requires lastValue <= newValue && |newValue| > |lastValue|
    ensures lastValue + AddedText(lastValue, newValue).value == newValue
  {
  }

  /** The message depends only on the remembered value's length, not on its content. */
  lemma OnlyLengthMatters(last1: string, last2: string, newValue: string)
    requires |last1| == |last2|
    ensures AddedText(last1, newValue) == AddedText(last2, newValue)
  {
  }

  /**
   * The message is a positional tail, not a diff: typing `s` in front of
   * `cat` reports `t`, and the remembered value plus the message is not the
   * new value.
   */
  lemma InsertionReportsTail()
    ensures AddedText("cat", "scat") == Some("t")
    ensures "cat" + AddedText("cat", "scat").value != "scat"
  {
    assert "scat"[3..] == "t";
    assert ("cat" + "t")[0] != "scat"[0];
  }

  /** Whitespace in the tail is sent as it is: nothing is trimmed. */
  lemma WhitespaceTailSent()
    ensures AddedText("a", "a \n") == Some(" \n")
  {
  }

  /** A focus-in on a textarea followed by a mutation that leaves its value unchanged sends nothing. */
  lemma FocusThenSameValueSilent(s: ListenerState, v: string)
    ensures Run(s, [FocusIn(true, v), Mutation(true, v)]) == Trace(ListenerState(v, true), [])
  {
    var evs := [FocusIn(true, v), Mutation(true, v)];
    assert evs[1..] == [Mutation(true, v)];
    assert evs[1..][1..] == [];
    var o1 := Step(s, evs[0]);
    assert o1 == Outcome(ListenerState(v, true), None);
    var o2 := Step(o1.next, evs[1]);
    assert o2 == Outcome(ListenerState(v, true), None);
    assert Run(o1.next, evs[1..]) == Trace(o2.next, []);
  }

  /** Two consecutive mutations reporting the same textarea value send at most one message. */
  lemma RepeatedValueSentOnce(s: ListenerState, v: string)
    ensures |Run(s, [Mutation(true, v), Mutation(true, v)]).sent| <= 1
    ensures Run(s, [Mutation(true, v), Mutation(true, v)]).final.lastValue
            == if s.observing then v else s.lastValue
  {
    var evs := [Mutation(true, v), Mutation(true, v)];
    assert evs[1..] == [Mutation(true, v)];
    assert evs[1..][1..] == [];
    var o1 := Step(s, evs[0]);
    var o2 := Step(o1.next, evs[1]);
    if s.observing {
      assert o1.next == ListenerState(v, true);
      assert o2 == Outcome(ListenerState(v, true), None);
    } else {
      assert o1 == Outcome(s, None) && o2 == Outcome(s, None);
    }
    assert Run(o1.next, evs[1..]) == Trace(o2.next, Messages(o2.message));
  }

  // ---------------------------------------------------------------------------
  // Sequences of events

  /**
   * The observer is attached after a sequence of events exactly when it was
   * attached before or one of the events is a focus-in on a textarea; it is
   * never detached.
   */
  lemma {:induction false} ObserverAttached(s: ListenerState, events: seq<Event>)
    ensures Run(s, events).final.observing
            <==> s.observing || exists k :: 0 <= k < |events| && events[k].FocusIn? && events[k].isTextarea
    decreases |events|
  {
    if events != [] {
      ObserverAttached(Step(s, events[0]).next, events[1..]);
      assert forall k :: 1 <= k < |events| ==> events[k] == events[1..][k - 1];
    }
  }

  /** Every message ever sent is non-empty. */
  lemma {:induction false} SentNonEmpty(s: ListenerState, events: seq<Event>)
    ensures forall k :: 0 <= k < |Run(s, events).sent| ==> Run(s, events).sent[k] != ""
    decreases |events|
  {
    if events != [] {
      var o := Step(s, events[0]);
      SentNonEmpty(o.next, events[1..]);
      if o.message.Some? {
        assert o.message.value != "" by {
          match events[0]
          case FocusIn(_, _) =>
          case Mutation(t, v) => MutationStep(s, t, v);
        }
      }
    }
  }

  /** Each value of `values` extends the one before it, the first extending `start`. */
  predicate Grows(start: string, values: seq<string>)
    decreases |values|
  {
    values == [] || (start <= values[0] && Grows(values[0], values[1..]))
  }

  /** Mutations with a textarea active, reporting the values of `values` in order. */
  function Typing(values: seq<string>): (r: seq<Event>)
    ensures |r| == |values|
    decreases |values|
  {
    if values == [] then [] else [Mutation(true, values[0])] + Typing(values[1..])
  }

  /** Running a non-empty sequence is one step followed by running the rest. */
  lemma RunFirst(s: ListenerState, e: Event, rest: seq<Event>)
    ensures Run(s, [e] + rest)
            == Trace(Run(Step(s, e).next, rest).final, Messages(Step(s, e).message) + Run(Step(s, e).next, rest).sent)
  {
    assert ([e] + rest)[1..] == rest;
  }

  /** The text an optional message contributes: its messages, joined. */
  function MessageText(m: Option<string>): (r: string)
    ensures r == Concat(Messages(m))
  {
    if m.Some? then m.value else ""
  }

  /**
   * When one step's message completes `lastValue` to `v`, the step's message
   * followed by later ones completes `lastValue` to `v` followed by the later ones.
   */
  lemma ConcatAfterStep(lastValue: string, v: string, m: Option<string>, rest: seq<string>)
    requires lastValue + MessageText(m) == v
    ensures lastValue + Concat(Messages(m) + rest) == v + Concat(rest)
  {
    if m.Some? {
      assert (Messages(m) + rest)[1..] == rest;
      assert lastValue + (m.value + Concat(rest)) == (lastValue + m.value) + Concat(rest);
    } else {
      assert Messages(m) + rest == rest;
    }
  }

  /** One mutation whose value extends the remembered one: remembered value plus message is the new value. */
  lemma GrowingStep(s: ListenerState, v: string)
    requires s.observing && s.lastValue <= v
    ensures Step(s, Mutation(true, v)).next == ListenerState(v, true)
    ensures s.lastValue + MessageText(Step(s, Mutation(true, v)).message) == v
  {
  }

  /**
   * Append-only typing is reported in full: when every observed value extends
   * the previous one, the remembered value at the start followed by all the
   * messages is exactly the final value, which is the last one observed.
   */
  lemma {:induction false} AppendOnlyTyping(s: ListenerState, values: seq<string>)
    requires s.observing && Grows(s.lastValue, values)
    ensures Run(s, Typing(values)).final.lastValue
            == if values == [] then s.lastValue else values[|values| - 1]
    ensures s.lastValue + Concat(Run(s, Typing(values)).sent) == Run(s, Typing(values)).final.lastValue
    decreases |values|
  {
    if values != [] {
      var v, rest := values[0], values[1..];
      var o := Step(s, Mutation(true, v));
      GrowingStep(s, v);
      assert o.next.lastValue == v && Grows(v, rest);
      AppendOnlyTyping(o.next, rest);
      var t := Run(o.next, Typing(rest));
      assert Typing(values) == [Mutation(true, v)] + Typing(rest);
      RunFirst(s, Mutation(true, v), Typing(rest));
      assert Run(s, Typing(values)) == Trace(t.final, Messages(o.message) + t.sent);
      ConcatAfterStep(s.lastValue, v, o.message, t.sent);
      assert rest != [] ==> rest[|rest| - 1] == values[|values| - 1];
    }
  }

  // ---------------------------------------------------------------------------
  // The listener object

  /**
   * The listener as the page runs it: the closed-over `lastValue`, whether the
   * observer is attached, and the messages sent so far.
   */
  class TextareaTracker {
    var lastValue: string
    var observing: bool
    var sent: seq<string>

    /** The abstract state the handlers work on. */
    function State(): ListenerState
      reads this
    {
      ListenerState(lastValue, observing)
    }

    /** `trackClipboardChanges()`: nothing remembered, no observer attached, nothing sent. */
    constructor ()
      ensures State() == Initial && sent == []
    {
      lastValue := "";
      observing := false;
      sent := [];
    }

    /** The `focusin` listener. */
    method OnFocusIn(isTextarea: bool, value: string)
      modifies this
      ensures State() == Step(old(State()), FocusIn(isTextarea, value)).next
      ensures sent == old(sent)
      ensures isTextarea ==> lastValue == value && observing
      ensures !isTextarea ==> lastValue == old(lastValue) && observing == old(observing)
    {
      if isTextarea {
        lastValue := value;
        observing := true;
      }
    }

    /** The mutation observer's callback. */
    method OnMutation(isTextarea: bool, newValue: string)
      modifies this
      ensures State() == Step(old(State()), Mutation(isTextarea, newValue)).next
      ensures sent == old(sent) + Messages(Step(old(State()), Mutation(isTextarea, newValue)).message)
      ensures old(observing) && isTextarea ==> lastValue == newValue
      ensures !(old(observing) && isTextarea) ==> lastValue == old(lastValue)
      ensures |sent| > |old(sent)| <==> old(observing) && isTextarea && |newValue| > |old(lastValue)|
      ensures |sent| > |old(sent)| ==> sent == old(sent) + [newValue[|old(lastValue)|..]]
    {
      if observing && isTextarea {
        if |newValue| > |lastValue| {
          var addedText := newValue[|lastValue|..];
          sent := sent + [addedText];
        }
        lastValue := newValue;
      }
    }
  }
}
