/**
 * `toKebab`: the camelCase to kebab-case conversion used to derive
 * custom element tag names. It runs three passes: a global replacement
 * that puts '-' in front of every match of `(?<!^|-)(\p{Lu}|\d+)`,
 * lower-casing, and removal of every character that may not appear in
 * a custom element name. The model covers ASCII input, where `\p{Lu}`
 * is 'A'..'Z' and lower-casing maps 'A'..'Z' to 'a'..'z'.
 */
module Kebab {
  import opened Js

  predicate IsAscii(s: string) {
    forall i :: 0 <= i < |s| ==> s[i] as int < 0x80
  }

  predicate IsUpper(c: char) { 'A' <= c <= 'Z' }

  predicate IsDigit(c: char) { '0' <= c <= '9' }

  /** The lookbehind `(?<!^|-)`: not at the start and not right after '-'. */
  predicate AfterWordChar(s: string, p: nat)
    requires p <= |s|
  {
    p > 0 && s[p - 1] != '-'
  }

  /** Length of the longest run of digits starting at `p` (what `\d+` matches). */
  function DigitRun(s: string, p: nat): (n: nat)
    requires p <= |s|
    ensures p + n <= |s|
    ensures forall k :: p <= k < p + n ==> IsDigit(s[k])
    ensures p + n == |s| || !IsDigit(s[p + n])
    decreases |s| - p
  {
    if p < |s| && IsDigit(s[p]) then 1 + DigitRun(s, p + 1) else 0
  }

  /**
   * `str.replace(camels, '-$1')` from position `p` on: the scan tries a
   * match at each position; a match is replaced by '-' and itself and the
   * scan resumes after it, otherwise one character is copied.
   */
  function InsertDashes(s: string, p: nat): string
    requires p <= |s|
    decreases |s| - p
  {
    if p == |s| then []
    else if AfterWordChar(s, p) && IsUpper(s[p]) then ['-', s[p]] + InsertDashes(s, p + 1)
    else if AfterWordChar(s, p) && IsDigit(s[p]) then
      var n := DigitRun(s, p);
      ['-'] + s[p..p + n] + InsertDashes(s, p + n)
    else [s[p]] + InsertDashes(s, p + 1)
  }

  function LowerChar(c: char): char {
    if IsUpper(c) then (c as int - 'A' as int + 'a' as int) as char else c
  }

  /** `toLowerCase` on ASCII. */
  function ToLower(s: string): string {
    seq(|s|, i requires 0 <= i < |s| => LowerChar(s[i]))
  }

  /** Characters outside the negated class `illegalTagChars`. */
  predicate IsTagChar(c: char) {
    var n := c as int;
    c == '.' || c == '-' || c == '_' || IsDigit(c) || ('a' <= c <= 'z')
    || (0xC0 <= n <= 0xD6) || (0xD8 <= n <= 0xF6) || (0xF8 <= n <= 0x37D)
    || (0x37F <= n <= 0x1FFF) || (0x200C <= n <= 0x200D) || (0x203F <= n <= 0x2040)
    || (0x2070 <= n <= 0x218F) || (0x2C00 <= n <= 0x2FEF) || (0x3001 <= n <= 0xD7FF)
    || (0xF900 <= n <= 0xFDCF) || (0xFDF0 <= n <= 0xFFFD) || (0x1_0000 <= n <= 0xE_FFFF)
  }

  /** `replace(illegalTagChars, '')`: drop every character that is not a tag character. */
  function RemoveIllegal(s: string): (r: string)
    ensures forall i :: 0 <= i < |r| ==> IsTagChar(r[i])
    ensures |r| <= |s|
  {
    if |s| == 0 then []
    else (if IsTagChar(s[0]) then [s[0]] else []) + RemoveIllegal(s[1..])
  }

  /** `toKebab(str)`. */
  function ToKebab(s: string): string
    requires IsAscii(s)
  {
    RemoveIllegal(ToLower(InsertDashes(s, 0)))
  }

  // ---------------------------------------------------------------------------
  // Where the dashes go, position by position.

  /**
   * Position `p` starts a match of the global replacement. An upper-case
   * letter does when the lookbehind holds. A maximal digit run is matched
   * whole from its first digit when the lookbehind holds there; otherwise
   * its first digit is copied and the match starts at its second digit,
   * where the lookbehind (a digit is not '-') always holds.
   */
  predicate MatchStart(s: string, p: nat)
    requires p < |s|
  {
    (IsUpper(s[p]) && AfterWordChar(s, p))
    || (IsDigit(s[p]) && AfterWordChar(s, p) && !IsDigit(s[p - 1]))
    || (IsDigit(s[p]) && p > 0 && IsDigit(s[p - 1]) && (p == 1 || s[p - 2] == '-'))
  }

  /** The replacement's output described per position: '-' before each match start. */
  function Dashed(s: string, p: nat): string
    requires p <= |s|
    decreases |s| - p
  {
    if p == |s| then []
    else (if MatchStart(s, p) then ['-'] else []) + [s[p]] + Dashed(s, p + 1)
  }

  /** Without match starts in `[q, e)`, `Dashed` copies that stretch unchanged. */
  lemma {:induction false} DashedCopies(s: string, q: nat, e: nat)
    requires q <= e <= |s|
    requires forall k :: q <= k < e ==> !MatchStart(s, k)
    ensures Dashed(s, q) == s[q..e] + Dashed(s, e)
    decreases e - q
  {
    if q < e {
      assert !MatchStart(s, q);
      assert Dashed(s, q) == [s[q]] + Dashed(s, q + 1);
      DashedCopies(s, q + 1, e);
      assert s[q..e] == [s[q]] + s[q + 1..e];
    }
  }

  /**
   * A position the scan can resume at: it is not inside a digit run,
   * unless the run's first digit was the one copied just before.
   */
  predicate ScanPosition(s: string, p: nat)
    requires p <= |s|
  {
    p == 0 || p == |s| || !IsDigit(s[p]) || !IsDigit(s[p - 1]) || p == 1 || s[p - 2] == '-'
  }

  /** The left-to-right scan inserts '-' exactly before the match starts. */
  lemma {:induction false} InsertDashesIsDashed(s: string, p: nat)
    requires p <= |s| && ScanPosition(s, p)
    ensures InsertDashes(s, p) == Dashed(s, p)
    decreases |s| - p, 1
  {
    if p < |s| {
      if AfterWordChar(s, p) && IsUpper(s[p]) {
        ScanUpper(s, p);
      } else if AfterWordChar(s, p) && IsDigit(s[p]) {
        ScanDigits(s, p);
      } else {
        ScanCopy(s, p);
      }
    }
  }

  /** The scan at an upper-case letter that follows a word character. */
  lemma {:induction false} ScanUpper(s: string, p: nat)
    requires p < |s| && AfterWordChar(s, p) && IsUpper(s[p])
    ensures InsertDashes(s, p) == Dashed(s, p)
    decreases |s| - p, 0
  {
    calc {
      InsertDashes(s, p);
      ['-', s[p]] + InsertDashes(s, p + 1);
    == { InsertDashesIsDashed(s, p + 1); }
      ['-', s[p]] + Dashed(s, p + 1);
    == { assert MatchStart(s, p); assert ['-', s[p]] == ['-'] + [s[p]]; }
      Dashed(s, p);
    }
  }

  /** The scan at a digit run that follows a word character. */
  lemma {:induction false} ScanDigits(s: string, p: nat)
    requires p < |s| && ScanPosition(s, p) && AfterWordChar(s, p) && IsDigit(s[p])
    ensures InsertDashes(s, p) == Dashed(s, p)
    decreases |s| - p, 0
  {
    var n := DigitRun(s, p);
    InsertDashesAtDigits(s, p);
    DigitRunEnds(s, p);
    InsertDashesIsDashed(s, p + n);
    DashedDigitRun(s, p);
  }

  /** What the scan does at a digit run that follows a word character. */
  lemma InsertDashesAtDigits(s: string, p: nat)
    requires p < |s| && AfterWordChar(s, p) && IsDigit(s[p])
    ensures InsertDashes(s, p) == ['-'] + s[p..p + DigitRun(s, p)] + InsertDashes(s, p + DigitRun(s, p))
  {
  }

  /** The scan resumes after a digit run at a position where it may resume. */
  lemma DigitRunEnds(s: string, p: nat)
    requires p < |s| && IsDigit(s[p])
    ensures ScanPosition(s, p + DigitRun(s, p))
  {
  }

  /** The scan where no match starts: the character is copied. */
  lemma {:induction false} ScanCopy(s: string, p: nat)
    requires p < |s| && ScanPosition(s, p)
    requires !(AfterWordChar(s, p) && (IsUpper(s[p]) || IsDigit(s[p])))
    ensures InsertDashes(s, p) == Dashed(s, p)
    decreases |s| - p, 0
  {
    assert ScanPosition(s, p + 1);
    calc {
      InsertDashes(s, p);
      [s[p]] + InsertDashes(s, p + 1);
    == { InsertDashesIsDashed(s, p + 1); }
      [s[p]] + Dashed(s, p + 1);
    == { assert !MatchStart(s, p); }
      Dashed(s, p);
    }
  }

  /** A digit run matched whole: one '-' before it and none inside it. */
  lemma DashedDigitRun(s: string, p: nat)
    requires p < |s| && ScanPosition(s, p) && AfterWordChar(s, p) && IsDigit(s[p])
    ensures Dashed(s, p) == ['-'] + s[p..p + DigitRun(s, p)] + Dashed(s, p + DigitRun(s, p))
  {
    var n := DigitRun(s, p);
    assert n >= 1;
    DigitRunInside(s, p);
    calc {
      Dashed(s, p);
    == { assert MatchStart(s, p); }
      ['-'] + [s[p]] + Dashed(s, p + 1);
    == { DashedCopies(s, p + 1, p + n); }
      ['-'] + [s[p]] + (s[p + 1..p + n] + Dashed(s, p + n));
    ==
      ['-'] + ([s[p]] + s[p + 1..p + n]) + Dashed(s, p + n);
    == { assert [s[p]] + s[p + 1..p + n] == s[p..p + n]; }
      ['-'] + s[p..p + n] + Dashed(s, p + n);
    }
  }

  /** Inside a digit run matched whole from its first digit, no match starts. */
  lemma DigitRunInside(s: string, p: nat)
    requires p < |s| && AfterWordChar(s, p) && IsDigit(s[p])
    ensures forall k :: p + 1 <= k < p + DigitRun(s, p) ==> !MatchStart(s, k)
  {
    var n := DigitRun(s, p);
    forall k | p + 1 <= k < p + n
      ensures !MatchStart(s, k)
    {
      assert IsDigit(s[k - 1]) && k >= 2 && s[k - 2] != '-';
    }
  }

  predicate IsDash(c: char) { c == '-' }

  /**
   * The replacement only inserts: dropping every '-' from its output gives
   * the input with every '-' dropped, in order, and the output is never
   * shorter than the input.
   */
  lemma {:induction false} InsertDashesKeepsText(s: string, p: nat)
    requires p <= |s|
    ensures Kept(InsertDashes(s, p), IsDash) == Kept(s[p..], IsDash)
    ensures |InsertDashes(s, p)| >= |s| - p
    decreases |s| - p
  {
    if p < |s| {
      var next, marked := ScanStep(s, p);
      var rest := InsertDashes(s, next);
      InsertDashesKeepsText(s, next);
      if marked {
        KeptAfterDash(s[p..next], rest);
      } else {
        KeptSplit(s[p..next], rest);
      }
      assert s[p..] == s[p..next] + s[next..];
      KeptSplit(s[p..next], s[next..]);
    }
  }

  /** One step of the scan: the stretch it consumes, and whether a '-' goes before it. */
  lemma ScanStep(s: string, p: nat) returns (next: nat, marked: bool)
    requires p < |s|
    ensures p < next <= |s|
    ensures marked ==> InsertDashes(s, p) == ['-'] + s[p..next] + InsertDashes(s, next)
    ensures !marked ==> InsertDashes(s, p) == s[p..next] + InsertDashes(s, next)
  {
    if AfterWordChar(s, p) && IsUpper(s[p]) {
      next, marked := p + 1, true;
      assert InsertDashes(s, p) == ['-', s[p]] + InsertDashes(s, next);
      assert ['-', s[p]] == ['-'] + s[p..next];
    } else if AfterWordChar(s, p) && IsDigit(s[p]) {
      next, marked := p + DigitRun(s, p), true;
      InsertDashesAtDigits(s, p);
    } else {
      next, marked := p + 1, false;
      assert InsertDashes(s, p) == [s[p]] + InsertDashes(s, next);
      assert [s[p]] == s[p..next];
    }
  }

  lemma KeptSplit(a: string, b: string)
    ensures Kept(a + b, IsDash) == Kept(a, IsDash) + Kept(b, IsDash)
  {
    KeptAppend(a, b, IsDash);
  }

  /** A leading '-' is dropped by `Kept`. */
  lemma KeptAfterDash(head: string, rest: string)
    ensures Kept(['-'] + head + rest, IsDash) == Kept(head, IsDash) + Kept(rest, IsDash)
  {
    var y := head + rest;
    var d := ['-'] + y;
    assert ['-'] + head + rest == d;
    assert d[0] == '-' && d[1..] == y;
    assert Kept(d, IsDash) == KeptUnit('-', IsDash) + Kept(y, IsDash);
    KeptAppend(head, rest, IsDash);
  }

  /** `str.replace(camels, '-$1')` puts '-' exactly before the match starts. */
  lemma InsertDashesCharacterised(s: string)
    ensures InsertDashes(s, 0) == Dashed(s, 0)
  {
    InsertDashesIsDashed(s, 0);
  }

  /** A digit run that follows a character other than '-' or a digit gets one '-' in front. */
  lemma DigitRunAfterWord(s: string, p: nat, e: nat)
    requires 0 < p < e <= |s| && s[p - 1] != '-' && !IsDigit(s[p - 1])
    requires forall k :: p <= k < e ==> IsDigit(s[k])
    ensures MatchStart(s, p)
    ensures forall k :: p < k < e ==> !MatchStart(s, k)
  {
  }

  /**
   * A digit run at the start or right after '-' is not matched at its first
   * digit; the match starts at its second digit instead.
   */
  lemma DigitRunAtBoundary(s: string, p: nat, e: nat)
    requires p + 1 < e <= |s| && (p == 0 || s[p - 1] == '-')
    requires forall k :: p <= k < e ==> IsDigit(s[k])
    ensures !MatchStart(s, p) && MatchStart(s, p + 1)
    ensures forall k :: p + 1 < k < e ==> !MatchStart(s, k)
  {
  }

  /** A digit run at the start is split after its first digit. */
  lemma KebabLeadingDigits()
    ensures ToKebab("12a") == "1-2a"
  {
    var s := "12a";
    InsertDashesCharacterised(s);
    assert !MatchStart(s, 0) && MatchStart(s, 1) && !MatchStart(s, 2);
    assert Dashed(s, 2) == "a";
    assert Dashed(s, 1) == "-2a";
    assert Dashed(s, 0) == "1-2a";
    assert ToLower("1-2a") == "1-2a";
    RemoveIllegalKeepsTagChars("1-2a");
  }

  /** A camel-case hump becomes a dash and a lower-case letter. */
  lemma KebabCamelCase()
    ensures ToKebab("fooBar") == "foo-bar"
  {
    FooBarDashed();
    assert ToLower("foo-Bar") == "foo-bar";
    RemoveIllegalKeepsTagChars("foo-bar");
  }

  /** The hump of "fooBar" starts a match. */
  lemma FooBarHump()
    ensures Dashed("fooBar", 3) == "-Bar"
  {
    var s := "fooBar";
    assert !MatchStart(s, 5) && !MatchStart(s, 4) && MatchStart(s, 3);
    assert Dashed(s, 5) == "r";
    assert Dashed(s, 4) == "ar";
  }

  /** The dash goes before the hump and nowhere else. */
  lemma FooBarDashed()
    ensures InsertDashes("fooBar", 0) == "foo-Bar"
  {
    var s := "fooBar";
    InsertDashesCharacterised(s);
    FooBarHump();
    assert Dashed(s, 0) == "foo-Bar" by {
      assert !MatchStart(s, 2) && !MatchStart(s, 1) && !MatchStart(s, 0);
      assert Dashed(s, 2) == "o-Bar";
      assert Dashed(s, 1) == "oo-Bar";
    }
  }

  // ---------------------------------------------------------------------------
  // Properties of the whole transform.

  /** `RemoveIllegal` keeps the kept characters in order and only those. */
  lemma {:induction false} RemoveIllegalFrom(s: string)
    ensures forall i :: 0 <= i < |RemoveIllegal(s)| ==> RemoveIllegal(s)[i] in s
    decreases |s|
  {
    if |s| > 0 {
      RemoveIllegalFrom(s[1..]);
      var r := RemoveIllegal(s);
      forall i | 0 <= i < |r|
        ensures r[i] in s
      {
        if !(IsTagChar(s[0]) && i == 0) {
          var j := if IsTagChar(s[0]) then i - 1 else i;
          assert r[i] == RemoveIllegal(s[1..])[j];
          assert r[i] in s[1..];
        }
      }
    }
  }

  /** The result has no upper-case letter and consists of tag characters only. */
  lemma KebabOutput(s: string)
    requires IsAscii(s)
    ensures forall i :: 0 <= i < |ToKebab(s)| ==> !IsUpper(ToKebab(s)[i]) && IsTagChar(ToKebab(s)[i])
  {
    var lowered := ToLower(InsertDashes(s, 0));
    assert forall c :: c in lowered ==> !IsUpper(c);
    RemoveIllegalFrom(lowered);
  }

  lemma {:induction false} RemoveIllegalKeepsTagChars(s: string)
    requires forall i :: 0 <= i < |s| ==> IsTagChar(s[i])
    ensures RemoveIllegal(s) == s
    decreases |s|
  {
    if |s| > 0 {
      RemoveIllegalKeepsTagChars(s[1..]);
    }
  }

  lemma {:induction false} InsertDashesNoMatch(s: string, p: nat)
    requires p <= |s|
    requires forall i :: p <= i < |s| ==> !IsUpper(s[i]) && !IsDigit(s[i])
    ensures InsertDashes(s, p) == s[p..]
    decreases |s| - p
  {
    if p < |s| {
      InsertDashesNoMatch(s, p + 1);
    }
  }

  /** A string of lower-case letters, '-', '_' and '.' is returned unchanged. */
  lemma KebabKeepsLowerCase(s: string)
    requires forall i :: 0 <= i < |s| ==> ('a' <= s[i] <= 'z') || s[i] in "-_."
    ensures IsAscii(s) && ToKebab(s) == s
  {
    InsertDashesNoMatch(s, 0);
    assert ToLower(s) == s;
    RemoveIllegalKeepsTagChars(s);
  }
}
