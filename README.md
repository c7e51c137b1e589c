# Clipboard history extension: classifier and appended-text tracker

This project models, in Dafny, the two self-contained pieces of a browser
extension that records text the user copies or types:

- **The text classifier** `categorize(text)` (`src/lib/classifier.js`). It
  holds a table of four regular expressions keyed `code`, `link`, `email`,
  `image`, tests them in that order, and returns the key of the first that
  matches, or `text` when none does. Module `Classifier` (`classifier.dfy`)
  models each expression twice: as a ghost predicate that states what the
  expression means ("some span of the text matches it", with every position
  of the span named), and as an executable left-to-right scan. A lemma proves
  the two agree on every input. `\S` is the complement of the ECMAScript `\s`
  set (`IsWhitespace`), and the `i` flag is ASCII lower-casing, which is
  exact for these letters because ECMAScript's case-insensitive matching
  without the `u` flag never maps a non-ASCII character onto an ASCII one.
  `categorize` is a pure function of its argument: none of the expressions
  carries the `g` flag, so `test` keeps no state between calls, and the model
  is a Dafny function.
- **The appended-text tracker** (`src/content/clipboard-listener.js`). The
  listener remembers one string, `lastValue`. A focus-in on a `TEXTAREA`
  re-seeds it with the textarea's value and attaches a mutation observer.
  Each observed mutation while a `TEXTAREA` is active sends the part of the
  new value past `lastValue`'s length, when the value grew, and then
  remembers the new value. Module `ClipboardListener`
  (`clipboard_listener.dfy`) gives the pure step function `Step` over a
  `ListenerState`, its fold `Run` over event sequences, and the class
  `TextareaTracker`, whose fields the two handlers update in place and whose
  methods are proved against `Step`. The DOM lookups of
  `document.activeElement` become event arguments (is it a textarea, and
  its value). `chrome.runtime.sendMessage` becomes appending to `sent`.

The tracker's rule compares lengths only. It never checks that `lastValue`
is a prefix of the new value, so the text it sends is a positional tail, not
a diff: `InsertionReportsTail` shows that typing `s` in front of `cat`
sends `t`. Nothing trims what is sent, so a whitespace-only tail is sent
as it is (`WhitespaceTailSent`).

## Model

| member | source | states |
|---|---|---|
| `Classifier.Key` | src/lib/classifier.js:3-12 | the key is `text` exactly for the default category |
| `Classifier.KeyInjective` | src/lib/classifier.js:3-12 | distinct categories have distinct keys, so the returned string determines the category |
| `Classifier.IsWhitespace` | src/lib/classifier.js:5-6 | the `\s` set contains space, tab, line feed, carriage return, vertical tab and form feed, and no printable ASCII character |
| `Classifier.OccursFrom` | src/lib/classifier.js:4 | the scan is true exactly when the literal occurs at the start index or later |
| `Classifier.Contains` | src/lib/classifier.js:4 | a literal alternative matches exactly when it occurs somewhere in the text, with no word boundary |
| `Classifier.IsCode` | src/lib/classifier.js:4 | the code test holds only for texts of at least five characters, the length of the shortest keyword `class` |
| `Classifier.SubstringKeywordsAreCode` | src/lib/classifier.js:4 | `classic` and `important` are classified `code`, since keywords match inside words |
| `Classifier.LinkMatch` | src/lib/classifier.js:5 | a span matching `https?://\S+` has a scheme of at least seven characters followed by a non-whitespace character |
| `Classifier.LinkSpec` | src/lib/classifier.js:5 | the link pattern's meaning (some span matches) holds only for texts of at least eight characters |
| `Classifier.LinkFrom` | src/lib/classifier.js:5 | the scan is true exactly when a scheme followed by a non-whitespace character starts at the index or later |
| `Classifier.LinkSpecAtStart` | src/lib/classifier.js:5 | a span matching `https?://\S+` exists exactly when a scheme directly followed by a non-whitespace character exists |
| `Classifier.HasLink` | src/lib/classifier.js:5 | the executable link test agrees with the regular expression's span semantics on every input |
| `Classifier.BareSchemeIsNotLink` | src/lib/classifier.js:5 | the literal `see https://`, whose only scheme has nothing after it, does not match the link pattern |
| `Classifier.EmailMatch` | src/lib/classifier.js:6 | a span matching `\S+@\S+\.\S+` has a non-whitespace character before its `@`, one between `@` and `.`, and one after the `.` |
| `Classifier.EmailSpec` | src/lib/classifier.js:6 | the email pattern's meaning (some span matches) holds only for texts of at least five characters |
| `Classifier.DotFrom` | src/lib/classifier.js:6 | the scan is true exactly when a `.` closing an email match lies in the non-whitespace run after the `@` |
| `Classifier.EmailFrom` | src/lib/classifier.js:6 | the scan is true exactly when a shortest email match has its `@` at the index or later |
| `Classifier.EmailSpecShortest` | src/lib/classifier.js:6 | a span matching `\S+@\S+\.\S+` exists exactly when a shortest one does (one character before `@`, one after `.`) |
| `Classifier.HasEmail` | src/lib/classifier.js:6 | the executable email test agrees with the regular expression's span semantics on every input |
| `Classifier.EmailNeedsBothSides` | src/lib/classifier.js:6 | `a@b.` and `@b.c` do not match the email pattern |
| `Classifier.LowerAscii` | src/lib/classifier.js:7 | each upper-case ASCII letter maps to its own lower-case letter (code point plus 32) and every other character is unchanged |
| `Classifier.FoldsOntoLetter` | src/lib/classifier.js:7 | a character folds onto a lower-case letter exactly when it is that letter or its upper-case form, as the `i` flag compares |
| `Classifier.ExtensionIgnoresCase` | src/lib/classifier.js:7 | matching one extension gives the same answer for a text and its lower-case form |
| `Classifier.ImageIgnoresCase` | src/lib/classifier.js:7 | the image pattern gives the same answer for a text and its lower-case form |
| `Classifier.EndsWithExtension` | src/lib/classifier.js:7 | the extension is shorter than the text, and a match ends the text with the extension's last letter, in either case |
| `Classifier.IsImage` | src/lib/classifier.js:7 | the image test holds only for texts of at least four characters ending in `g`, `f` or `p` (either case), so nothing may follow the extension |
| `Classifier.UpperCaseImage` | src/lib/classifier.js:7 | `photo.PNG` is classified `image` |
| `Classifier.TrailingSpaceIsNotImage` | src/lib/classifier.js:7 | `photo.png ` with a trailing space is classified `text` |
| `Classifier.Test` | src/lib/classifier.js:10-11 | `pattern.test` for the link and email entries is exactly their regular expressions' span meaning |
| `Classifier.FirstMatch` | src/lib/classifier.js:10-11 | `find` returns the first category in table order whose pattern matches, and nothing exactly when none matches |
| `Classifier.Categorize` | src/lib/classifier.js:2-12 | over the table `[Code, Link, Email, Image]` (the `Object.entries` order, `PatternOrder`), the result is `Text` exactly when every test fails, and otherwise a category whose test succeeds |
| `Classifier.CategorizePriority` | src/lib/classifier.js:2-12 | each category is returned exactly when its pattern matches and no earlier one does; `text` exactly when none matches |
| `Classifier.CategorizeKey` | src/lib/classifier.js:10-12 | the returned key is always one of `code`, `link`, `email`, `image`, `text` |
| `Classifier.EmptyIsText` | src/lib/classifier.js:10-12 | the empty string is classified `text` |
| `Classifier.LinkBeforeImage` | src/lib/classifier.js:3-10 | `https://x.com/a.png` is classified `link`, not `image` |
| `Classifier.EmailBeforeImage` | src/lib/classifier.js:3-10 | `a@b.png` is classified `email`, not `image` |
| `ClipboardListener.AddedText` | src/content/clipboard-listener.js:8-9 | a message exists exactly when the new value is longer; it is non-empty, the new value minus its first `|lastValue|` characters |
| `ClipboardListener.Step` | src/content/clipboard-listener.js:4-29 | one handler run on a `ListenerState` (`lastValue` and whether the observer is attached): only a textarea mutation while observing sends; the observer is attached by a textarea focus-in and never detached; a textarea event the handler acts on remembers its value; any other event changes nothing |
| `ClipboardListener.MutationStep` | src/content/clipboard-listener.js:5-15 | a mutation sends exactly when observing, a textarea is active and the value grew; the message is the tail; the new value is remembered either way |
| `ClipboardListener.NonTextareaIgnored` | src/content/clipboard-listener.js:6-21 | with no textarea active neither handler changes the state or sends anything |
| `ClipboardListener.FocusInStep` | src/content/clipboard-listener.js:19-28 | a focus-in on a textarea sends nothing, remembers its value and attaches the observer |
| `ClipboardListener.PrefixRebuilt` | src/content/clipboard-listener.js:8-9 | when the remembered value is a prefix of the new one, it followed by the message is the new value |
| `ClipboardListener.OnlyLengthMatters` | src/content/clipboard-listener.js:8-9 | two remembered values of equal length give the same message |
| `ClipboardListener.InsertionReportsTail` | src/content/clipboard-listener.js:8-9 | for the literal `cat` → `scat` (an `s` inserted in front) the message is `t`, and `cat` plus the message differs from `scat` |
| `ClipboardListener.WhitespaceTailSent` | src/content/clipboard-listener.js:9-13 | a whitespace-only tail is sent untrimmed |
| `ClipboardListener.FocusThenSameValueSilent` | src/content/clipboard-listener.js:8-22 | a focus-in on a textarea followed by a mutation with the same value sends nothing |
| `ClipboardListener.RepeatedValueSentOnce` | src/content/clipboard-listener.js:8-15 | two consecutive mutations with the same value send at most one message |
| `ClipboardListener.Run` | src/content/clipboard-listener.js:4-29 | handling a sequence of events one after another sends at most one message per event |
| `ClipboardListener.ObserverAttached` | src/content/clipboard-listener.js:19-28 | after a sequence of events the observer is attached exactly when it was before or some event is a focus-in on a textarea |
| `ClipboardListener.SentNonEmpty` | src/content/clipboard-listener.js:8-13 | over any event sequence no sent message is empty |
| `ClipboardListener.AppendOnlyTyping` | src/content/clipboard-listener.js:4-16 | when each value extends the previous, the starting value plus all messages is the final remembered value, the last one observed |
| `ClipboardListener.TextareaTracker.constructor` | src/content/clipboard-listener.js:1-2 | the listener starts with an empty `lastValue`, no observer and nothing sent |
| `ClipboardListener.TextareaTracker.OnFocusIn` | src/content/clipboard-listener.js:19-28 | the new state is the focus-in step of the old one; on a textarea `lastValue` becomes its value, otherwise nothing changes |
| `ClipboardListener.TextareaTracker.OnMutation` | src/content/clipboard-listener.js:4-17 | the new state and sent messages are the mutation step's; a message `newValue[|lastValue|..]` is appended exactly when the value grew |

## Left out

- Text is a sequence of Unicode scalar values; JavaScript strings and their `length` count UTF-16 code units, so texts outside the Basic Multilingual Plane have different lengths and tails in the source.
- `categorize` called with a non-string: `test` converts its argument to a string first; the model takes strings only.
- The MutationObserver registration options (`childList`, `subtree`, `characterData`), which DOM changes trigger the callback, and `observe` being called again on later focus-ins: the model receives each callback run as a `Mutation` event and keeps only whether the observer was ever attached.
- `chrome.runtime.sendMessage` delivery, its response, and the message envelope `{type: 'CLIPBOARD_CHANGE', data}`: a sent message is the `data` string appended to `sent`.
- The background service worker, the IndexedDB wrapper, the popup and the build configuration are not part of this model: they are browser-API wiring with no logic of their own to state. The retry with back-off, debounce, minimum-interval gate, recency-window duplicate check, thirty-day retention sweep and auto-save toggle do not appear in the two modelled files; a trimming or repeated-value gate does not either, so the tracker sends whitespace-only tails and no duplicate check is modelled.
