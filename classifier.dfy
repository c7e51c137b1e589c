/**
 * Model of the text classifier `categorize` in src/lib/classifier.js.
 *
 * The source keeps a table of four regular expressions keyed by category name
 * and returns the key of the first one (in table order) whose `test` succeeds,
 * or `'text'` when none does.  Each regular expression is modelled twice:
 *  - a ghost predicate that states the regular expression's meaning directly,
 *    as "there is a span of the text that the expression matches", and
 *  - an executable scan that decides it,
 * with a lemma proving that the two agree on every input.
 */
module Classifier {
  import opened Wrappers

  /** The categories `categorize` can return. */
  datatype Category = Code | Link | Email | Image | Text

  /** The string key the source returns for each category. */
  function Key(c: Category): (r: string)
    ensures r == "text" <==> c == Text
  {
    match c
    case Code => "code"
    case Link => "link"
    case Email => "email"
    case Image => "image"
    case Text => "text"
  }

  /** Distinct categories have distinct keys, so the returned key determines the category. */
  lemma KeyInjective(c: Category, d: Category)
    ensures Key(c) == Key(d) <==> c == d
  {
  }

  // ---------------------------------------------------------------------------
  // Characters

  /**
   * The characters matched by `\s` in an ECMAScript regular expression: the
   * WhiteSpace code points (tab, vertical tab, form feed, space, no-break space,
   * the byte order mark and every other space separator) and the four line
   * terminators.  `\S` matches exactly the characters outside this set.
   */
  predicate IsWhitespace(c: char)
    ensures c in {' ', '\t', '\n', '\r', '\U{000B}', '\U{000C}'} ==> IsWhitespace(c)
    ensures '!' <= c <= '~' ==> !IsWhitespace(c)
  {
    c == '\t' || c == '\n' || c == '\U{000B}' || c == '\U{000C}' || c == '\r' || c == ' '
    || c == '\U{00A0}' || c == '\U{1680}' || ('\U{2000}' <= c <= '\U{200A}')
    || c == '\U{2028}' || c == '\U{2029}' || c == '\U{202F}' || c == '\U{205F}'
    || c == '\U{3000}' || c == '\U{FEFF}'
  }

  /** Every character of `text[lo..hi]` is matched by `\S`. */
  predicate AllNonWhitespace(text: string, lo: nat, hi: nat)
    requires lo <= hi <= |text|
  {
    forall k :: lo <= k < hi ==> !IsWhitespace(text[k])
  }

  /**
   * ASCII lower-casing.  Under the `i` flag without `u`, ECMAScript compares
   * characters by their upper-case forms but never maps a non-ASCII character
   * onto an ASCII one, so for the ASCII letters of the image extensions this
   * folding is exact.
   */
  function LowerAscii(c: char): (r: char)
    ensures 'A' <= c <= 'Z' ==> r as int == c as int + 32
    ensures !('A' <= c <= 'Z') ==> r == c
  {
    if 'A' <= c <= 'Z' then (c as int + 32) as char else c
  }

  /**
   * Case-insensitive comparison against a lower-case pattern letter `x`: a
   * character matches exactly when it is `x` or the upper-case form of `x`.
   */
  lemma FoldsOntoLetter(c: char, x: char)
    requires 'a' <= x <= 'z'
    ensures LowerAscii(c) == x <==> c == x || c as int == x as int - 32
  {
  }

  // ---------------------------------------------------------------------------
  // Substring search

  /** `pat` occurs in `text` starting at index `i`. */
  predicate OccursAt(text: string, pat: string, i: nat)
  {
    i + |pat| <= |text| && text[i..i + |pat|] == pat
  }

  /** Whether `pat` occurs in `text` at index `i` or later. */
  function OccursFrom(text: string, pat: string, i: nat): (r: bool)
    requires i <= |text|
    ensures r <==> exists j: nat :: i <= j <= |text| && OccursAt(text, pat, j)
    decreases |text| - i
  {
    if OccursAt(text, pat, i) then true
    else if i == |text| then false
    else OccursFrom(text, pat, i + 1)
  }

  /** Whether `pat` occurs anywhere in `text` (an unanchored regular expression made of literal characters). */
  function Contains(text: string, pat: string): (r: bool)
    ensures r <==> exists j: nat :: j <= |text| && OccursAt(text, pat, j)
  {
    OccursFrom(text, pat, 0)
  }

  /** An occurrence of a non-empty pattern starts with the pattern's first character. */
  lemma OccurrenceStartsWith(text: string, pat: string, i: nat)
    requires pat != []
    ensures OccursAt(text, pat, i) ==> text[i] == pat[0]
  {
  }

  /** A pattern one of whose characters is absent from `text` does not occur in it. */
  lemma AbsentCharacter(text: string, pat: string, k: nat)
    requires k < |pat| && pat[k] !in text
    ensures !Contains(text, pat)
  {
  }

  // ---------------------------------------------------------------------------
  // code: /(function|class|import|console\.log)/

  /** The alternatives of the `code` pattern, which are plain substrings (no word boundaries). */
  predicate IsCode(text: string)
    ensures IsCode(text) ==> |text| >= 5
  {
    Contains(text, "function") || Contains(text, "class")
    || Contains(text, "import") || Contains(text, "console.log")
  }

  // ---------------------------------------------------------------------------
  // link: /https?:\/\/\S+/

  /**
   * A match of `https?:\/\/\S+` that occupies `text[i..e]`, with the scheme
   * (`http://` or `https://`) ending at index `s`.
   */
  ghost predicate LinkMatch(text: string, i: nat, s: nat, e: nat)
    ensures LinkMatch(text, i, s, e) ==> i + 7 <= s < e <= |text| && !IsWhitespace(text[s])
  {
    ((OccursAt(text, "http://", i) && s == i + 7) || (OccursAt(text, "https://", i) && s == i + 8))
    && s < e <= |text| && AllNonWhitespace(text, s, e)
  }

  /** The meaning of `test` for the link pattern: some span of the text matches. */
  ghost predicate LinkSpec(text: string)
    ensures LinkSpec(text) ==> |text| >= 8
  {
    exists i: nat, s: nat, e: nat :: LinkMatch(text, i, s, e)
  }

  /** A scheme starts at index `i` and is directly followed by a non-whitespace character. */
  predicate LinkAt(text: string, i: nat)
  {
    (OccursAt(text, "http://", i) && i + 7 < |text| && !IsWhitespace(text[i + 7]))
    || (OccursAt(text, "https://", i) && i + 8 < |text| && !IsWhitespace(text[i + 8]))
  }

  /** Scans for a link start at index `i` or later. */
  function LinkFrom(text: string, i: nat): (r: bool)
    requires i <= |text|
    ensures r <==> exists j: nat :: i <= j < |text| && LinkAt(text, j)
    decreases |text| - i
  {
    if i == |text| then false
    else if LinkAt(text, i) then true
    else LinkFrom(text, i + 1)
  }

  /** `\S+` needs only its first character: a match exists iff a link start exists. */
  lemma LinkSpecAtStart(text: string)
    ensures LinkSpec(text) <==> exists j: nat :: 0 <= j < |text| && LinkAt(text, j)
  {
    if LinkSpec(text) {
      var i: nat, s: nat, e: nat :| LinkMatch(text, i, s, e);
      assert !IsWhitespace(text[s]);
      assert LinkAt(text, i);
    }
    if j: nat :| 0 <= j < |text| && LinkAt(text, j) {
      if OccursAt(text, "http://", j) && j + 7 < |text| && !IsWhitespace(text[j + 7]) {
        assert LinkMatch(text, j, j + 7, j + 8);
      } else {
        assert LinkMatch(text, j, j + 8, j + 9);
      }
    }
  }

  /** `/https?:\/\/\S+/.test(text)`. */
  function HasLink(text: string): (r: bool)
    ensures r <==> LinkSpec(text)
  {
    LinkSpecAtStart(text);
    LinkFrom(text, 0)
  }

  /** Every link match contains the `:` of its scheme. */
  lemma LinkNeedsColon(text: string)
    requires LinkSpec(text)
    ensures ':' in text
  {
    var i: nat, s: nat, e: nat :| LinkMatch(text, i, s, e);
    if OccursAt(text, "http://", i) {
      assert text[i..i + 7][4] == text[i + 4];
    } else {
      assert text[i..i + 8][5] == text[i + 5];
    }
  }

  // ---------------------------------------------------------------------------
  // email: /\S+@\S+\.\S+/

  /**
   * A match of `\S+@\S+\.\S+` that occupies `text[i..e]`, with its `@` at
   * index `a` and the `.` that the expression names at index `d`.
   */
  ghost predicate EmailMatch(text: string, i: nat, a: nat, d: nat, e: nat)
    ensures EmailMatch(text, i, a, d, e) ==>
              0 < a && a + 1 < d && d + 1 < |text|
              && !IsWhitespace(text[a - 1]) && !IsWhitespace(text[a + 1]) && !IsWhitespace(text[d + 1])
  {
    i < a && a + 1 < d && d + 1 < e <= |text|
    && text[a] == '@' && text[d] == '.'
    && AllNonWhitespace(text, i, a) && AllNonWhitespace(text, a + 1, d) && AllNonWhitespace(text, d + 1, e)
  }

  /** The meaning of `test` for the email pattern: some span of the text matches. */
  ghost predicate EmailSpec(text: string)
    ensures EmailSpec(text) ==> |text| >= 5
  {
    exists i: nat, a: nat, d: nat, e: nat :: EmailMatch(text, i, a, d, e)
  }

  /**
   * A `.` at index `d` closes an email match whose `@` is at index `a`: at
   * least one non-whitespace character lies between them, all of them are
   * non-whitespace, and a non-whitespace character follows the `.`.
   */
  predicate DotAt(text: string, a: nat, d: nat)
  {
    a + 1 < d && d + 1 < |text| && text[d] == '.' && !IsWhitespace(text[d + 1])
    && AllNonWhitespace(text, a + 1, d)
  }

  /**
   * The shortest form of an email match: one non-whitespace character before
   * the `@` at `a`, and a `.` at `d` that closes the match.
   */
  predicate EmailAt(text: string, a: nat, d: nat)
  {
    0 < a < |text| && text[a] == '@' && !IsWhitespace(text[a - 1]) && DotAt(text, a, d)
  }

  /**
   * Scans the non-whitespace run after the `@` at index `a`, from index `d`,
   * for a `.` that closes an email match.
   */
  function DotFrom(text: string, a: nat, d: nat): (r: bool)
    requires a + 1 <= d <= |text| && AllNonWhitespace(text, a + 1, d)
    ensures r <==> exists d': nat :: d <= d' && DotAt(text, a, d')
    decreases |text| - d
  {
    if d + 1 >= |text| then false
    else if IsWhitespace(text[d]) then
      assert forall d': nat :: d < d' && DotAt(text, a, d') ==> !IsWhitespace(text[d]);
      false
    else if DotAt(text, a, d) then true
    else DotFrom(text, a, d + 1)
  }

  /** Scans for an email match whose `@` is at index `a` or later. */
  function EmailFrom(text: string, a: nat): (r: bool)
    requires a <= |text|
    ensures r <==> exists a': nat, d: nat :: a <= a' && EmailAt(text, a', d)
    decreases |text| - a
  {
    if a == |text| then false
    else if 0 < a && text[a] == '@' && !IsWhitespace(text[a - 1]) && DotFrom(text, a, a + 1) then
      assert forall d: nat :: DotAt(text, a, d) ==> EmailAt(text, a, d);
      true
    else EmailFrom(text, a + 1)
  }

  /** Each `\S+` can shrink to one character (the middle one up to the `.`): a match exists iff a shortest one does. */
  lemma EmailSpecShortest(text: string)
    ensures EmailSpec(text) <==> exists a: nat, d: nat :: EmailAt(text, a, d)
  {
    if EmailSpec(text) {
      var i: nat, a: nat, d: nat, e: nat :| EmailMatch(text, i, a, d, e);
      assert !IsWhitespace(text[a - 1]) && !IsWhitespace(text[d + 1]);
      assert EmailAt(text, a, d);
    }
    if a: nat, d: nat :| EmailAt(text, a, d) {
      assert EmailMatch(text, a - 1, a, d, d + 2);
    }
  }

  /** `/\S+@\S+\.\S+/.test(text)`. */
  function HasEmail(text: string): (r: bool)
    ensures r <==> EmailSpec(text)
  {
    EmailSpecShortest(text);
    EmailFrom(text, 0)
  }

  /** Every email match contains an `@`. */
  lemma EmailNeedsAt(text: string)
    requires EmailSpec(text)
    ensures '@' in text
  {
    var i: nat, a: nat, d: nat, e: nat :| EmailMatch(text, i, a, d, e);
  }

  // ---------------------------------------------------------------------------
  // image: /\.(png|jpg|jpeg|gif|webp)$/i

  /**
   * `text` ends with a `.` followed by `ext`, letters compared without regard
   * to ASCII case.  Without the `m` flag `$` matches only at the end of the
   * input, so nothing may follow the extension.
   */
  predicate EndsWithExtension(text: string, ext: string)
    ensures EndsWithExtension(text, ext) ==>
              |ext| < |text| && (ext != [] ==> LowerAscii(text[|text| - 1]) == ext[|ext| - 1])
  {
    |ext| < |text| && text[|text| - |ext| - 1] == '.'
    && forall k :: 0 <= k < |ext| ==> LowerAscii(text[|text| - |ext| + k]) == ext[k]
  }

  /** `/\.(png|jpg|jpeg|gif|webp)$/i.test(text)`. */
  predicate IsImage(text: string)
    ensures IsImage(text) ==> |text| >= 4 && LowerAscii(text[|text| - 1]) in {'g', 'f', 'p'}
  {
    EndsWithExtension(text, "png") || EndsWithExtension(text, "jpg") || EndsWithExtension(text, "jpeg")
    || EndsWithExtension(text, "gif") || EndsWithExtension(text, "webp")
  }

  /** The ASCII lower-case form of a whole string. */
  function Lower(text: string): (r: string)
    ensures |r| == |text| && forall k :: 0 <= k < |text| ==> r[k] == LowerAscii(text[k])
  {
    seq(|text|, k requires 0 <= k < |text| => LowerAscii(text[k]))
  }

  /** Matching one extension ignores case: a text matches iff its lower-case form does. */
  lemma ExtensionIgnoresCase(text: string, ext: string)
    ensures EndsWithExtension(text, ext) <==> EndsWithExtension(Lower(text), ext)
  {
  }

  /** The image pattern ignores case: a text matches iff its lower-case form does. */
  lemma ImageIgnoresCase(text: string)
    ensures IsImage(text) <==> IsImage(Lower(text))
  {
    ExtensionIgnoresCase(text, "png");
    ExtensionIgnoresCase(text, "jpg");
    ExtensionIgnoresCase(text, "jpeg");
    ExtensionIgnoresCase(text, "gif");
    ExtensionIgnoresCase(text, "webp");
  }

  // ---------------------------------------------------------------------------
  // categorize

  /** The keys of the pattern table, in the order `Object.entries` enumerates them. */
  const PatternOrder: seq<Category> := [Code, Link, Email, Image]

  /** `pattern.test(text)` for the pattern stored under category `c`. */
  predicate Test(c: Category, text: string)
    requires c != Text
    ensures c == Link ==> (Test(c, text) <==> LinkSpec(text))
    ensures c == Email ==> (Test(c, text) <==> EmailSpec(text))
  {
    match c
    case Code => IsCode(text)
    case Link => HasLink(text)
    case Email => HasEmail(text)
    case Image => IsImage(text)
  }

  /** `Array.prototype.find` over the table: the first category in `order` whose pattern matches. */
  function FirstMatch(order: seq<Category>, text: string): (r: Option<Category>)
    requires Text !in order
    ensures r.None? <==> forall k :: 0 <= k < |order| ==> !Test(order[k], text)
    ensures r.Some? ==> exists k :: 0 <= k < |order| && order[k] == r.value && Test(order[k], text)
                                    && forall j :: 0 <= j < k ==> !Test(order[j], text)
  {
    if order == [] then None
    else if Test(order[0], text) then Some(order[0])
    else
      var r := FirstMatch(order[1..], text);
      assert forall k :: 1 <= k < |order| ==> order[k] == order[1..][k - 1];
      r
  }

  /** `categorize(text)`: the first matching pattern's category, or `Text` when none matches. */
  function Categorize(text: string): (r: Category)
    ensures r == Text <==> forall k :: 0 <= k < |PatternOrder| ==> !Test(PatternOrder[k], text)
    ensures r != Text ==> Test(r, text)
  {
    match FirstMatch(PatternOrder, text)
    case Some(c) => c
    case None => Text
  }

  /** The string `categorize` returns. */
  function CategorizeKey(text: string): (r: string)
    ensures r in {"code", "link", "email", "image", "text"}
  {
    Key(Categorize(text))
  }

  /**
   * First match wins, in table order: each category is returned exactly when
   * its own pattern matches and no earlier pattern does, and `Text` exactly
   * when no pattern matches.
   */
  lemma CategorizePriority(text: string)
    ensures Categorize(text) == Code <==> IsCode(text)
    ensures Categorize(text) == Link <==> !IsCode(text) && LinkSpec(text)
    ensures Categorize(text) == Email <==> !IsCode(text) && !LinkSpec(text) && EmailSpec(text)
    ensures Categorize(text) == Image
            <==> !IsCode(text) && !LinkSpec(text) && !EmailSpec(text) && IsImage(text)
    ensures Categorize(text) == Text
            <==> !IsCode(text) && !LinkSpec(text) && !EmailSpec(text) && !IsImage(text)
  {
    var r := FirstMatch(PatternOrder, text);
    assert PatternOrder[0] == Code && PatternOrder[1] == Link;
    assert PatternOrder[2] == Email && PatternOrder[3] == Image;
    if r.Some? {
      var k :| 0 <= k < |PatternOrder| && PatternOrder[k] == r.value && Test(PatternOrder[k], text)
               && forall j :: 0 <= j < k ==> !Test(PatternOrder[j], text);
      assert k == 0 || !Test(Code, text);
      assert k <= 1 || !Test(Link, text);
      assert k <= 2 || !Test(Email, text);
    }
  }

  /** The empty string matches no pattern and is `text`. */
  lemma EmptyIsText()
    ensures CategorizeKey("") == "text"
  {
  }

  /** The code keywords are matched as plain substrings, with no word boundary. */
  lemma SubstringKeywordsAreCode(t: string, u: string)
    requires t == "classic" && u == "important"
    ensures CategorizeKey(t) == "code" && CategorizeKey(u) == "code"
  {
    assert OccursAt(t, "class", 0);
    assert OccursAt(u, "import", 0);
    CategorizePriority(t);
    CategorizePriority(u);
  }

  /** A link that ends in an image extension is still a link: `link` comes first. */
  lemma LinkBeforeImage(t: string)
    requires t == "https://x.com/a.png"
    ensures CategorizeKey(t) == "link"
  {
    AbsentCharacter(t, "function", 0);
    AbsentCharacter(t, "class", 1);
    AbsentCharacter(t, "import", 0);
    AbsentCharacter(t, "console.log", 5);
    assert LinkMatch(t, 0, 8, 9);
    CategorizePriority(t);
  }

  /** An address whose domain ends in an image extension is an email: `email` comes first. */
  lemma EmailBeforeImage(t: string)
    requires t == "a@b.png"
    ensures CategorizeKey(t) == "email"
  {
    AbsentCharacter(t, "function", 0);
    AbsentCharacter(t, "class", 0);
    AbsentCharacter(t, "import", 0);
    AbsentCharacter(t, "console.log", 0);
    if LinkSpec(t) { LinkNeedsColon(t); }
    assert EmailMatch(t, 0, 1, 3, 5);
    CategorizePriority(t);
  }

  /** The image extension is compared without regard to case. */
  lemma UpperCaseImage(t: string)
    requires t == "photo.PNG"
    ensures CategorizeKey(t) == "image"
  {
    AbsentCharacter(t, "function", 0);
    AbsentCharacter(t, "class", 0);
    AbsentCharacter(t, "import", 0);
    AbsentCharacter(t, "console.log", 0);
    if LinkSpec(t) { LinkNeedsColon(t); }
    if EmailSpec(t) { EmailNeedsAt(t); }
    assert EndsWithExtension(t, "png");
    CategorizePriority(t);
  }

  /** The image extension must end the text: a trailing space defeats it. */
  lemma TrailingSpaceIsNotImage(t: string)
    requires t == "photo.png "
    ensures CategorizeKey(t) == "text"
  {
    AbsentCharacter(t, "function", 0);
    AbsentCharacter(t, "class", 0);
    AbsentCharacter(t, "import", 0);
    AbsentCharacter(t, "console.log", 0);
    if LinkSpec(t) { LinkNeedsColon(t); }
    if EmailSpec(t) { EmailNeedsAt(t); }
    CategorizePriority(t);
  }

  /** An email match needs a character before the `@` and one after the `.`. */
  lemma EmailNeedsBothSides()
    ensures !EmailSpec("a@b.")
    ensures !EmailSpec("@b.c")
  {
  }

  /** A bare scheme with nothing after it is not a link. */
  lemma BareSchemeIsNotLink()
    ensures !LinkSpec("see https://")
  {
    var t := "see https://";
    LinkSpecAtStart(t);
    forall j: nat | j < |t|
      ensures OccursAt(t, "http://", j) ==> t[j] == 'h'
      ensures OccursAt(t, "https://", j) ==> t[j] == 'h'
    {
      OccurrenceStartsWith(t, "http://", j);
      OccurrenceStartsWith(t, "https://", j);
    }
    assert forall j :: 0 <= j < |t| && t[j] == 'h' ==> j == 4;
    assert t[4..11][4] != ':';
  
  }
}
