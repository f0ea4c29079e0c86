/**
  The sanitizer of TMXconverter.py: before a TMX file is parsed, every
  occurrence of each of 32 literal numeric character references is deleted
  from its text, one reference spelling after another.
 */
module Sanitizer {
  import opened Strings

  /** Python's `s.replace(p, "")`: scan from the left and delete every
      non-overlapping occurrence of `p`; an empty `p` leaves `s` as it is. */
  function RemoveAll(s: string, p: string): string
    decreases |s|
  {
    if p == [] || |s| < |p| then s
    else if s[..|p|] == p then RemoveAll(s[|p|..], p)
    else [s[0]] + RemoveAll(s[1..], p)
  }

  /** How many occurrences of `p` one `RemoveAll(s, p)` deletes; for a
      non-empty `p` this is Python's `s.count(p)`. */
  function Removed(s: string, p: string): nat
    decreases |s|
  {
    if p == [] || |s| < |p| then 0
    else if s[..|p|] == p then 1 + Removed(s[|p|..], p)
    else Removed(s[1..], p)
  }

  /** One pass shrinks the text by the pattern's length per deleted
      occurrence, so it never grows the text. */
  lemma {:induction false} RemoveAllLength(s: string, p: string)
    ensures |RemoveAll(s, p)| == |s| - |p| * Removed(s, p)
    ensures |RemoveAll(s, p)| <= |s|
    decreases |s|
  {
    if p == [] || |s| < |p| {
    } else if s[..|p|] == p {
      RemoveAllLength(s[|p|..], p);
      calc {
        |RemoveAll(s, p)|;
        |s| - |p| - |p| * Removed(s[|p|..], p);
        |s| - |p| * (1 + Removed(s[|p|..], p));
      }
    } else {
      RemoveAllLength(s[1..], p);
    }
  }

  lemma {:induction false} ContainedShrinks(s: string, p: string)
    requires p != [] && Contains(s, p)
    ensures |RemoveAll(s, p)| < |s|
    decreases |s|
  {
    var i :| 0 <= i <= |s| - |p| && OccursAt(s, p, i);
    if s[..|p|] == p {
      RemoveAllLength(s[|p|..], p);
    } else {
      assert i > 0;
      assert s[1..][i - 1..i - 1 + |p|] == s[i..i + |p|];
      assert OccursAt(s[1..], p, i - 1);
      ContainedShrinks(s[1..], p);
    }
  }

  lemma {:induction false} AbsentIsKept(s: string, p: string)
    requires !Contains(s, p)
    ensures RemoveAll(s, p) == s
    decreases |s|
  {
    if p != [] && |s| >= |p| {
      assert !OccursAt(s, p, 0);
      forall i | 0 <= i <= |s[1..]| - |p| && OccursAt(s[1..], p, i)
        ensures false
      {
        assert s[i + 1..i + 1 + |p|] == s[1..][i..i + |p|];
        assert OccursAt(s, p, i + 1);
      }
      AbsentIsKept(s[1..], p);
      assert [s[0]] + s[1..] == s;
    }
  }

  /** One pass changes the text exactly when the (non-empty) pattern occurs
      in it. */
  lemma {:induction false} RemoveAllUnchanged(s: string, p: string)
    ensures RemoveAll(s, p) == s <==> (p == [] || !Contains(s, p))
    ensures RemoveAll(s, p) != s ==> |RemoveAll(s, p)| < |s|
  {
    if p != [] && Contains(s, p) {
      ContainedShrinks(s, p);
    } else if p != [] {
      AbsentIsKept(s, p);
    }
  }

  /** What one pass keeps is a subsequence of its input: the characters
      outside deleted occurrences, in their original order. */
  lemma {:induction false} RemoveAllSubsequence(s: string, p: string)
    ensures IsSubsequence(RemoveAll(s, p), s)
    decreases |s|
  {
    if p == [] || |s| < |p| {
      SubsequenceReflexive(s);
    } else if s[..|p|] == p {
      RemoveAllSubsequence(s[|p|..], p);
      SubsequenceOfSuffix(RemoveAll(s[|p|..], p), s, |p|);
    } else {
      var rest := RemoveAll(s[1..], p);
      RemoveAllSubsequence(s[1..], p);
      assert ([s[0]] + rest)[1..] == rest;
    }
  }

  /** The replace loop of `find_and_replace` and `preprocess_tmx_file`:
      one `RemoveAll` pass per pattern, in list order. */
  function RemoveEach(s: string, patterns: seq<string>): string
    decreases |patterns|
  {
    if patterns == [] then s
    else RemoveAll(RemoveEach(s, patterns[..|patterns| - 1]), patterns[|patterns| - 1])
  }

  /** No (non-empty) pattern of the list occurs in `s`. */
  predicate NoneOccur(s: string, patterns: seq<string>)
  {
    forall k :: 0 <= k < |patterns| ==> patterns[k] == [] || !Contains(s, patterns[k])
  }

  /** The passes together keep a subsequence of the input, hence never
      lengthen it. */
  lemma {:induction false} RemoveEachSubsequence(s: string, patterns: seq<string>)
    ensures IsSubsequence(RemoveEach(s, patterns), s)
    ensures |RemoveEach(s, patterns)| <= |s|
    decreases |patterns|
  {
    if patterns == [] {
      SubsequenceReflexive(s);
    } else {
      var before := RemoveEach(s, patterns[..|patterns| - 1]);
      RemoveEachSubsequence(s, patterns[..|patterns| - 1]);
      RemoveAllSubsequence(before, patterns[|patterns| - 1]);
      SubsequenceTransitive(RemoveEach(s, patterns), before, s);
    }
    SubsequenceLength(RemoveEach(s, patterns), s);
  }

  /** The passes either leave the text alone or strictly shorten it. */
  lemma {:induction false} RemoveEachShortens(s: string, patterns: seq<string>)
    ensures RemoveEach(s, patterns) == s || |RemoveEach(s, patterns)| < |s|
    decreases |patterns|
  {
    if patterns != [] {
      var before := RemoveEach(s, patterns[..|patterns| - 1]);
      RemoveEachShortens(s, patterns[..|patterns| - 1]);
      RemoveAllUnchanged(before, patterns[|patterns| - 1]);
    }
  }

  /** The text comes out unchanged exactly when none of the patterns occurs
      in it. */
  lemma {:induction false} RemoveEachUnchanged(s: string, patterns: seq<string>)
    ensures RemoveEach(s, patterns) == s <==> NoneOccur(s, patterns)
    decreases |patterns|
  {
    if patterns != [] {
      var init := patterns[..|patterns| - 1];
      var last := patterns[|patterns| - 1];
      var before := RemoveEach(s, init);
      RemoveEachUnchanged(s, init);
      assert NoneOccur(s, patterns) <==> NoneOccur(s, init) && (last == [] || !Contains(s, last)) by {
        assert forall k :: 0 <= k < |init| ==> init[k] == patterns[k];
      }
      if before == s {
        RemoveAllUnchanged(s, last);
      } else {
        RemoveEachShortens(s, init);
        RemoveAllLength(before, last);
      }
    }
  }

  /** Running the passes in two batches is running them all. */
  lemma {:induction false} RemoveEachConcat(s: string, first: seq<string>, second: seq<string>)
    ensures RemoveEach(s, first + second) == RemoveEach(RemoveEach(s, first), second)
    decreases |second|
  {
    if second == [] {
      assert first + second == first;
    } else {
      var init := second[..|second| - 1];
      assert (first + second)[..|first + second| - 1] == first + init;
      RemoveEachConcat(s, first, init);
    }
  }

  /** `find_and_replace(text, chars_to_replace)`. */
  method FindAndReplace(text: string, charsToReplace: seq<string>) returns (r: string)
    ensures r == RemoveEach(text, charsToReplace)
    ensures IsSubsequence(r, text) && |r| <= |text|
    ensures r == text <==> NoneOccur(text, charsToReplace)
  {
    r := text;
    for i := 0 to |charsToReplace|
      invariant r == RemoveEach(text, charsToReplace[..i])
    {
      assert charsToReplace[..i + 1][..i] == charsToReplace[..i];
      r := RemoveAll(r, charsToReplace[i]);
    }
    assert charsToReplace[..|charsToReplace|] == charsToReplace;
    RemoveEachSubsequence(text, charsToReplace);
    RemoveEachUnchanged(text, charsToReplace);
  }

  /** The list `chars_to_replace` of `parse_tmx_file`: the references
      `&#x0;` to `&#x1F;`, upper-case hexadecimal, no leading zeros. */
  const CONTROL_CHAR_REFS: seq<string> := [
    "&#x0;", "&#x1;", "&#x2;", "&#x3;", "&#x4;", "&#x5;", "&#x6;", "&#x7;",
    "&#x8;", "&#x9;", "&#xA;", "&#xB;", "&#xC;", "&#xD;", "&#xE;", "&#xF;",
    "&#x10;", "&#x11;", "&#x12;", "&#x13;", "&#x14;", "&#x15;", "&#x16;", "&#x17;",
    "&#x18;", "&#x19;", "&#x1A;", "&#x1B;", "&#x1C;", "&#x1D;", "&#x1E;", "&#x1F;"
  ]

  /** What `parse_tmx_file` does to the file's text before parsing it. */
  function Sanitize(s: string): string
  {
    RemoveEach(s, CONTROL_CHAR_REFS)
  }

  const UPPER_HEX_DIGITS := "0123456789ABCDEF"

  /** An upper-case hexadecimal digit as the references spell it. */
  function HexDigit(d: nat): char
    requires d < 16
  {
    UPPER_HEX_DIGITS[d]
  }

  /** Upper-case hexadecimal numeral without leading zeros. */
  function UpperHex(n: nat): string
    decreases n
  {
    if n < 16 then [HexDigit(n)] else UpperHex(n / 16) + [HexDigit(n % 16)]
  }

  /** The hexadecimal character reference to code point `n`, in the
      spelling of section 4.1 of the XML 1.0 recommendation
      (`'&#x' [0-9a-fA-F]+ ';'`), upper case and without leading zeros. */
  function CharRef(n: nat): string
  {
    "&#x" + UpperHex(n) + ";"
  }

  lemma {:induction false} UpperHexDigits(n: nat)
    ensures |UpperHex(n)| >= 1
    ensures forall k :: 0 <= k < |UpperHex(n)| ==> UpperHex(n)[k] in UPPER_HEX_DIGITS
    decreases n
  {
    assert forall d :: 0 <= d < 16 ==> HexDigit(d) in UPPER_HEX_DIGITS;
    if n >= 16 {
      UpperHexDigits(n / 16);
    }
  }

  lemma OccursAtChar(s: string, p: string, i: int, k: int)
    requires OccursAt(s, p, i) && 0 <= k < |p|
    ensures s[i + k] == p[k]
  {
    assert s[i..i + |p|][k] == p[k];
  }

  /** Where a reference occurs, `&#x` occurs, followed by a digit. */
  lemma CharRefOccurrence(s: string, n: nat, i: int)
    requires OccursAt(s, CharRef(n), i)
    ensures OccursAt(s, "&#x", i) && i + 3 < |s| && s[i + 3] in UPPER_HEX_DIGITS
  {
    var p := CharRef(n);
    assert s[i..i + 3] == p[..3];
    assert s[i + 3] == p[3] == UpperHex(n)[0];
    UpperHexDigits(n);
  }

  /** The `Char` production of section 2.2 of XML 1.0: the code points a
      document may contain. */
  predicate IsXmlChar(n: nat)
  {
    n == 0x9 || n == 0xA || n == 0xD || 0x20 <= n <= 0xD7FF
    || 0xE000 <= n <= 0xFFFD || 0x10000 <= n <= 0x10FFFF
  }

  lemma ControlCharRefsQuarter0(n: nat)
    requires n < 8
    ensures CONTROL_CHAR_REFS[n] == CharRef(n)
  {
    match n
      case 0 =>
      case 1 =>
      case 2 =>
      case 3 =>
      case 4 =>
      case 5 =>
      case 6 =>
      case 7 =>
  }

  lemma ControlCharRefsQuarter1(n: nat)
    requires 8 <= n < 16
    ensures CONTROL_CHAR_REFS[n] == CharRef(n)
  {
    match n
      case 8 =>
      case 9 =>
      case 10 =>
      case 11 =>
      case 12 =>
      case 13 =>
      case 14 =>
      case 15 =>
  }

  lemma ControlCharRefsQuarter2(n: nat)
    requires 16 <= n < 24
    ensures CONTROL_CHAR_REFS[n] == CharRef(n)
  {
    match n
      case 16 =>
      case 17 =>
      case 18 =>
      case 19 =>
      case 20 =>
      case 21 =>
      case 22 =>
      case 23 =>
  }

  lemma ControlCharRefsQuarter3(n: nat)
    requires 24 <= n < 32
    ensures CONTROL_CHAR_REFS[n] == CharRef(n)
  {
    match n
      case 24 =>
      case 25 =>
      case 26 =>
      case 27 =>
      case 28 =>
      case 29 =>
      case 30 =>
      case 31 =>
  }

  /** The list is the references to the 32 C0 control code points, in
      code-point order. */
  lemma ControlCharRefsSpelling()
    ensures |CONTROL_CHAR_REFS| == 32
    ensures forall n :: 0 <= n < 32 ==> CONTROL_CHAR_REFS[n] == CharRef(n)
  {
    forall n | 0 <= n < 32
      ensures CONTROL_CHAR_REFS[n] == CharRef(n)
    {
      if n < 8 {
        ControlCharRefsQuarter0(n);
      } else if n < 16 {
        ControlCharRefsQuarter1(n);
      } else if n < 24 {
        ControlCharRefsQuarter2(n);
      } else {
        ControlCharRefsQuarter3(n);
      }
    }
  }

  /** Every C0 code point that XML 1.0 forbids has its reference on the list;
      the list also holds the references to tab, line feed and carriage
      return, which XML 1.0 allows. */
  lemma ControlCharRefsCoverForbidden()
    ensures forall n :: 0 <= n < 0x20 && !IsXmlChar(n) ==> CharRef(n) in CONTROL_CHAR_REFS
    ensures forall n :: 0 <= n < |CONTROL_CHAR_REFS| ==> (IsXmlChar(n) <==> n in {0x9, 0xA, 0xD})
  {
    ControlCharRefsSpelling();
    forall n | 0 <= n < 0x20 && !IsXmlChar(n)
      ensures CharRef(n) in CONTROL_CHAR_REFS
    {
      assert CONTROL_CHAR_REFS[n] == CharRef(n);
    }
  }

  /** Only the listed upper-case spellings are deleted: a text in which no
      `&#x` is followed by a digit or an upper-case letter `A`-`F` (so
      `&#xa;` or `&#10;`) passes the sanitizer unchanged. */
  lemma {:induction false} OtherSpellingsSurvive(s: string)
    requires forall i :: OccursAt(s, "&#x", i) && i + 3 < |s| ==> s[i + 3] !in UPPER_HEX_DIGITS
    ensures Sanitize(s) == s
  {
    ControlCharRefsSpelling();
    forall k | 0 <= k < |CONTROL_CHAR_REFS|
      ensures !Contains(s, CONTROL_CHAR_REFS[k])
    {
      forall i | OccursAt(s, CONTROL_CHAR_REFS[k], i)
        ensures false
      {
        CharRefOccurrence(s, k, i);
      }
    }
    RemoveEachUnchanged(s, CONTROL_CHAR_REFS);
  }

  lemma LowerCaseAndDecimalSurvive()
    ensures Sanitize("&#xa;") == "&#xa;"
    ensures Sanitize("&#10;") == "&#10;"
  {
    OtherSpellingsSurvive("&#xa;");
    forall i | OccursAt("&#10;", "&#x", i)
      ensures false
    {
      OccursAtChar("&#10;", "&#x", i, 2);
      assert false;
    }
    OtherSpellingsSurvive("&#10;");
  }

  /** A pattern at least as long as the text occurs in it only as the whole
      text. */
  lemma LongPatternOccurrence(t: string, p: string)
    requires |p| >= |t|
    ensures Contains(t, p) ==> p == t
  {
    if Contains(t, p) {
      var i :| 0 <= i <= |t| - |p| && OccursAt(t, p, i);
      assert t[0..|t|] == t;
    }
  }

  /** `&#x1;` is the reference to code point 1 only. */
  lemma CharRefOfOne(n: nat)
    requires CharRef(n) == CharRef(1)
    ensures n == 1
  {
    assert CharRef(1) == "&#x1;";
    UpperHexDigits(n);
    UpperHexDigits(n / 16);
    assert CharRef(n)[3] == HexDigit(n);
  }

  /** The passes of a list of patterns that are all longer than the text or
      different from it leave the text unchanged. */
  lemma {:induction false} ShortTextSurvives(t: string, patterns: seq<string>)
    requires forall k :: 0 <= k < |patterns| ==> |patterns[k]| >= |t| && patterns[k] != t
    ensures RemoveEach(t, patterns) == t
  {
    forall k | 0 <= k < |patterns|
      ensures !Contains(t, patterns[k])
    {
      LongPatternOccurrence(t, patterns[k]);
    }
    RemoveEachUnchanged(t, patterns);
  }

  /** The sanitizer as its first two passes followed by the other thirty,
      none of which touches `&#x1;` or the empty text. */
  lemma SanitizeFirstTwo(s: string)
    ensures Sanitize(s) == RemoveEach(RemoveAll(RemoveAll(s, CharRef(0)), CharRef(1)), CONTROL_CHAR_REFS[2..])
    ensures RemoveEach(CharRef(1), CONTROL_CHAR_REFS[2..]) == CharRef(1)
    ensures RemoveEach("", CONTROL_CHAR_REFS[2..]) == ""
  {
    ControlCharRefsSpelling();
    var first := CONTROL_CHAR_REFS[..2];
    var rest := CONTROL_CHAR_REFS[2..];
    assert first + rest == CONTROL_CHAR_REFS;
    RemoveEachConcat(s, first, rest);
    assert first[..1] == [CharRef(0)];
    assert [CharRef(0)][..0] == [];
    forall k | 0 <= k < |rest|
      ensures |rest[k]| >= 5 && rest[k] != CharRef(1)
    {
      assert rest[k] == CharRef(k + 2);
      UpperHexDigits(k + 2);
      if rest[k] == CharRef(1) {
        CharRefOfOne(k + 2);
      }
    }
    ShortTextSurvives(CharRef(1), rest);
    ShortTextSurvives("", rest);
  }

  /** A pass copies a prefix at none of whose positions the pattern
      starts. */
  lemma {:induction false} RemoveAllSkips(x: string, y: string, p: string)
    requires p != []
    requires forall i :: 0 <= i < |x| ==> !OccursAt(x + y, p, i)
    ensures RemoveAll(x + y, p) == x + RemoveAll(y, p)
    decreases |x|
  {
    if x != [] {
      var s := x + y;
      assert !OccursAt(s, p, 0);
      assert s[1..] == x[1..] + y;
      forall i | 0 <= i < |x[1..]| && OccursAt(x[1..] + y, p, i)
        ensures false
      {
        assert s[i + 1..i + 1 + |p|] == (x[1..] + y)[i..i + |p|];
        assert OccursAt(s, p, i + 1);
      }
      RemoveAllSkips(x[1..], y, p);
      assert [x[0]] + x[1..] == x;
    } else {
      assert x + y == y;
    }
  }

  /** A pass deletes an occurrence at the front. */
  lemma RemoveAllFront(p: string, y: string)
    requires p != []
    ensures RemoveAll(p + y, p) == RemoveAll(y, p)
  {
    assert (p + y)[..|p|] == p && (p + y)[|p|..] == y;
  }

  /** The `&#x1;` pass on `&#x&#x1;1;`: the characters around the deleted
      reference spell `&#x1;` again. */
  lemma DeletionJoinsReference()
    ensures RemoveAll("&#x&#x1;1;", CharRef(1)) == CharRef(1)
  {
    var p := CharRef(1);
    assert HexDigit(1) == '1';
    assert p == "&#x1;";
    var x, y := "&#x", p + "1;";
    var s := x + y;
    assert s == "&#x&#x1;1;";
    forall i | 0 <= i < |x| && OccursAt(s, p, i)
      ensures false
    {
      if i == 0 {
        OccursAtChar(s, p, i, 3);
      } else {
        OccursAtChar(s, p, i, 0);
      }
    }
    RemoveAllSkips(x, y, p);
    RemoveAllFront(p, "1;");
    assert RemoveAll("1;", p) == "1;";
  }

  /** `&#x0;` does not occur in the example texts. */
  lemma NoZeroReference(s: string)
    requires '0' !in s
    ensures RemoveAll(s, CharRef(0)) == s
  {
    var p0 := CharRef(0);
    assert p0[3] == '0';
    forall i | OccursAt(s, p0, i)
      ensures false
    {
      OccursAtChar(s, p0, i, 3);
    }
    AbsentIsKept(s, p0);
  }

  /** One run on `&#x&#x1;1;` leaves `&#x1;`. */
  lemma SanitizeJoined()
    ensures Sanitize("&#x&#x1;1;") == CharRef(1)
  {
    NoZeroReference("&#x&#x1;1;");
    DeletionJoinsReference();
    SanitizeFirstTwo("&#x&#x1;1;");
  }

  /** One run on `&#x1;` deletes it. */
  lemma SanitizeReference()
    ensures Sanitize(CharRef(1)) == ""
  {
    var p1 := CharRef(1);
    assert p1 == "&#x1;";
    NoZeroReference(p1);
    assert RemoveAll(p1, p1) == "" by {
      assert p1[5..] == "";
    }
    SanitizeFirstTwo(p1);
  }

  /** The sanitizer is not idempotent: deleting `&#x1;` from `&#x&#x1;1;`
      joins its two sides into a fresh `&#x1;`, which a second run deletes.
      So the output of one run may still hold a listed reference. */
  lemma SanitizeNotIdempotent()
    ensures Sanitize("&#x&#x1;1;") == "&#x1;"
    ensures Sanitize("&#x1;") == ""
  {
    SanitizeJoined();
    SanitizeReference();
    assert CharRef(1) == "&#x1;";
  }
}
