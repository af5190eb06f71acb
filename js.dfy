/**
 * JavaScript string values and the few built-in string and number
 * operations the LED pipeline relies on, following ECMA-262 (2023
 * edition). A JavaScript string is a sequence of UTF-16 code units.
 */
module Js {
  import opened Wrappers
  import opened Bits

  /** One UTF-16 code unit. */
  type CodeUnit = c: int | 0 <= c < 0x1_0000

  /** A JavaScript string value. */
  type JSString = seq<CodeUnit>

  /** A string literal of the source, as code units. */
  function Units(s: string): (u: JSString)
    requires forall i :: 0 <= i < |s| ==> s[i] as int < 0x1_0000
    ensures |u| == |s| && forall i :: 0 <= i < |s| ==> u[i] == s[i] as int
  {
    seq(|s|, i requires 0 <= i < |s| => s[i] as int)
  }

  /** Different literals are different strings. */
  lemma UnitsInjective(s: string, t: string)
    requires forall i :: 0 <= i < |s| ==> s[i] as int < 0x1_0000
    requires forall i :: 0 <= i < |t| ==> t[i] as int < 0x1_0000
    ensures Units(s) == Units(t) ==> s == t
  {
    if Units(s) == Units(t) {
      assert forall i :: 0 <= i < |s| ==> s[i] == t[i] by {
        forall i | 0 <= i < |s|
          ensures s[i] == t[i]
        {
          assert Units(s)[i] == Units(t)[i];
        }
      }
    }
  }

  /** `ToString(undefined)`: a missing token reaches `parseInt` as the string "undefined". */
  function Arg(token: Option<JSString>): JSString {
    match token
    case Some(t) => t
    case None => Units("undefined")
  }

  // ---------------------------------------------------------------------------
  // Character classes (sections 12.2 and 12.3, and 22.2.2.9 for `\s`).

  /** WhiteSpace or LineTerminator: the `\s` class, and what `parseInt` trims. */
  predicate IsWhiteSpace(c: CodeUnit) {
    c == 0x09 || c == 0x0B || c == 0x0C || c == 0x20 || c == 0xA0 || c == 0xFEFF
    || c == 0x1680 || (0x2000 <= c <= 0x200A) || c == 0x202F || c == 0x205F || c == 0x3000
    || c == 0x0A || c == 0x0D || c == 0x2028 || c == 0x2029
  }

  /** The class `[\r\n]`. */
  predicate IsLineBreak(c: CodeUnit) {
    c == 0x0A || c == 0x0D
  }

  // ---------------------------------------------------------------------------
  // String.prototype.split with a separator that matches non-empty runs
  // (section 22.1.3.23 with 22.2.6.14): the string is cut at every maximal
  // run of separator units; the runs themselves are dropped, and a run at
  // either end leaves an empty piece there. The separator class is given as
  // a predicate: `IsLineBreak` for `/[\r\n]+/`, `IsWhiteSpace` for `/\s+/`.

  /** The index of the first separator at or after `k`, or `|s|`. */
  function NextSep<T>(s: seq<T>, isSep: T -> bool, k: nat): (i: nat)
    requires k <= |s|
    ensures k <= i <= |s|
    ensures i < |s| ==> isSep(s[i])
    ensures forall j :: k <= j < i ==> !isSep(s[j])
    decreases |s| - k
  {
    if k == |s| || isSep(s[k]) then k else NextSep(s, isSep, k + 1)
  }

  /** The end of the separator run that starts at or before `k`. */
  function RunEnd<T>(s: seq<T>, isSep: T -> bool, k: nat): (e: nat)
    requires k <= |s|
    ensures k <= e <= |s|
    ensures e < |s| ==> !isSep(s[e])
    ensures forall j :: k <= j < e ==> isSep(s[j])
    decreases |s| - k
  {
    if k < |s| && isSep(s[k]) then RunEnd(s, isSep, k + 1) else k
  }

  function Split<T>(s: seq<T>, isSep: T -> bool): (parts: seq<seq<T>>)
    ensures |parts| >= 1
    decreases |s|
  {
    var i := NextSep(s, isSep, 0);
    if i == |s| then [s]
    else [s[..i]] + Split(s[RunEnd(s, isSep, i)..], isSep)
  }

  /** The units of `s` that are not separators, in order. */
  function Kept<T>(s: seq<T>, isSep: T -> bool): seq<T> {
    if |s| == 0 then [] else KeptUnit(s[0], isSep) + Kept(s[1..], isSep)
  }

  function KeptUnit<T>(c: T, isSep: T -> bool): seq<T> {
    if isSep(c) then [] else [c]
  }

  function Concat<T>(parts: seq<seq<T>>): seq<T> {
    if |parts| == 0 then [] else parts[0] + Concat(parts[1..])
  }

  lemma {:induction false} KeptAppend<T>(a: seq<T>, b: seq<T>, isSep: T -> bool)
    ensures Kept(a + b, isSep) == Kept(a, isSep) + Kept(b, isSep)
    decreases |a|
  {
    if |a| == 0 {
      assert a + b == b;
    } else {
      var h := KeptUnit(a[0], isSep);
      calc {
        Kept(a + b, isSep);
      == { assert (a + b)[0] == a[0]; assert (a + b)[1..] == a[1..] + b; }
        h + Kept(a[1..] + b, isSep);
      == { KeptAppend(a[1..], b, isSep); }
        h + (Kept(a[1..], isSep) + Kept(b, isSep));
      == 
        (h + Kept(a[1..], isSep)) + Kept(b, isSep);
      }
    }
  }

  lemma {:induction false} KeptNone<T>(s: seq<T>, isSep: T -> bool)
    requires forall j :: 0 <= j < |s| ==> !isSep(s[j])
    ensures Kept(s, isSep) == s
    decreases |s|
  {
    if |s| > 0 {
      KeptNone(s[1..], isSep);
    }
  }

  lemma {:induction false} KeptAll<T>(s: seq<T>, isSep: T -> bool)
    requires forall j :: 0 <= j < |s| ==> isSep(s[j])
    ensures Kept(s, isSep) == []
    decreases |s|
  {
    if |s| > 0 {
      KeptAll(s[1..], isSep);
    }
  }

  /** No piece of a split contains a separator. */
  lemma {:induction false} SplitPiecesClean<T>(s: seq<T>, isSep: T -> bool)
    ensures forall p, j :: p in Split(s, isSep) && 0 <= j < |p| ==> !isSep(p[j])
    decreases |s|
  {
    var i := NextSep(s, isSep, 0);
    if i < |s| {
      var rest := s[RunEnd(s, isSep, i)..];
      SplitPiecesClean(rest, isSep);
      assert Split(s, isSep) == [s[..i]] + Split(rest, isSep);
    }
  }

  /** The pieces of a split, put back together, are the string without its separators. */
  lemma {:induction false} SplitPiecesKept<T>(s: seq<T>, isSep: T -> bool)
    ensures Concat(Split(s, isSep)) == Kept(s, isSep)
    decreases |s|
  {
    var i := NextSep(s, isSep, 0);
    if i == |s| {
      KeptNone(s, isSep);
      assert Concat([s]) == s + Concat([]);
    } else {
      var e := RunEnd(s, isSep, i);
      var rest := s[e..];
      var parts := Split(s, isSep);
      calc {
        Concat(parts);
      == { assert parts == [s[..i]] + Split(rest, isSep); assert parts[1..] == Split(rest, isSep); }
        s[..i] + Concat(Split(rest, isSep));
      == { SplitPiecesKept(rest, isSep); }
        s[..i] + Kept(rest, isSep);
      == { assert s == s[..i] + s[i..e] + rest; KeptSkipsRun(s[..i], s[i..e], rest, isSep); }
        Kept(s, isSep);
      }
    }
  }

  /** A clean prefix, then a run of separators: only the prefix is kept before the rest. */
  lemma KeptSkipsRun<T>(clean: seq<T>, run: seq<T>, rest: seq<T>, isSep: T -> bool)
    requires forall j :: 0 <= j < |clean| ==> !isSep(clean[j])
    requires forall j :: 0 <= j < |run| ==> isSep(run[j])
    ensures Kept(clean + run + rest, isSep) == clean + Kept(rest, isSep)
  {
    KeptNone(clean, isSep);
    KeptAll(run, isSep);
    KeptAppend(clean + run, rest, isSep);
    KeptAppend(clean, run, isSep);
    assert clean + [] == clean;
  }

  /** Words joined by a single separator unit. */
  function Join<T>(words: seq<seq<T>>, c: T): seq<T>
    requires |words| >= 1
  {
    if |words| == 1 then words[0] else words[0] + [c] + Join(words[1..], c)
  }

  /** Without separators up to `m`, the first separator at or after `k` is at `m` (or there is none). */
  lemma {:induction false} NextSepAt<T>(s: seq<T>, isSep: T -> bool, k: nat, m: nat)
    requires k <= m <= |s|
    requires forall j :: k <= j < m ==> !isSep(s[j])
    requires m < |s| ==> isSep(s[m])
    ensures NextSep(s, isSep, k) == m
    decreases m - k
  {
    if k < m {
      NextSepAt(s, isSep, k + 1, m);
    }
  }

  /**
   * Splitting undoes joining: non-empty words without separator units,
   * joined by one separator unit, split back into the same words.
   */
  lemma {:induction false} SplitJoin<T>(words: seq<seq<T>>, c: T, isSep: T -> bool)
    requires |words| >= 1 && isSep(c)
    requires forall k :: 0 <= k < |words| ==> |words[k]| > 0
    requires forall k, j :: 0 <= k < |words| && 0 <= j < |words[k]| ==> !isSep(words[k][j])
    ensures Split(Join(words, c), isSep) == words
    decreases |words|
  {
    var w := words[0];
    if |words| == 1 {
      NextSepAt(w, isSep, 0, |w|);
    } else {
      var rest := Join(words[1..], c);
      var s := w + [c] + rest;
      assert rest[0] == words[1][0] by { JoinHead(words[1..], c); }
      NextSepAt(s, isSep, 0, |w|);
      assert RunEnd(s, isSep, |w|) == |w| + 1;
      assert s[..|w|] == w && s[|w| + 1..] == rest;
      SplitJoin(words[1..], c, isSep);
      assert Split(s, isSep) == [w] + words[1..];
    }
  }

  lemma JoinHead<T>(words: seq<seq<T>>, c: T)
    requires |words| >= 1 && |words[0]| > 0
    ensures |Join(words, c)| > 0 && Join(words, c)[0] == words[0][0]
  {
  }

  // ---------------------------------------------------------------------------
  // parseInt (section 19.2.5) for the two radices the source uses: none,
  // which reads a "0x" prefix as hexadecimal and decimal otherwise, and 16.

  datatype Radix = Auto | Hex

  /** The value of an ASCII digit or letter (letters count from 10), or 36 for anything else. */
  function DigitValue(c: int): (d: nat)
    ensures d <= 36
  {
    if 0x30 <= c <= 0x39 then c - 0x30
    else if 0x61 <= c <= 0x7A then c - 0x61 + 10
    else if 0x41 <= c <= 0x5A then c - 0x41 + 10
    else 36
  }

  /** The number of leading units of `s` that are digits below `base`. */
  function DigitCount(s: JSString, base: nat): (n: nat)
    ensures n <= |s|
    ensures forall j :: 0 <= j < n ==> DigitValue(s[j]) < base
    ensures n < |s| ==> DigitValue(s[n]) >= base
  {
    if |s| == 0 || DigitValue(s[0]) >= base then 0 else 1 + DigitCount(s[1..], base)
  }

  /** The value of a digit string, most significant digit first. */
  function DigitsValue(z: JSString, base: nat): nat {
    if |z| == 0 then 0 else DigitsValue(z[..|z| - 1], base) * base + DigitValue(z[|z| - 1])
  }

  /** Leading white space removed. */
  function TrimStart(s: JSString): (t: JSString)
    ensures |t| > 0 ==> !IsWhiteSpace(t[0])
  {
    if |s| > 0 && IsWhiteSpace(s[0]) then TrimStart(s[1..]) else s
  }

  /** `s` starts with "0x" or "0X". */
  predicate HexPrefixed(s: JSString) {
    |s| >= 2 && s[0] == 0x30 && (s[1] == 0x78 || s[1] == 0x58)
  }

  /** The longest run of digits below `base` at the start of `v`, as a number; NaN when there is none. */
  function LeadingDigits(v: JSString, base: nat): (r: Option<int>)
    ensures r.Some? ==> r.value >= 0
  {
    var n := DigitCount(v, base);
    if n == 0 then None else Some(DigitsValue(v[..n], base))
  }

  /** The unsigned part of `parseInt`: an optional "0x" prefix selects base 16, then the longest run of digits. */
  function ParseUnsigned(u: JSString, radix: Radix): (r: Option<int>)
    ensures r.Some? ==> r.value >= 0
  {
    if HexPrefixed(u) then LeadingDigits(u[2..], 16)
    else if radix == Hex then LeadingDigits(u, 16)
    else LeadingDigits(u, 10)
  }

  /** The sign applied to a parsed magnitude; NaN stays NaN. */
  function Negated(x: Option<int>): (r: Option<int>)
    ensures r.None? <==> x.None?
    ensures x.Some? ==> r.value == -x.value
  {
    match x
    case None => None
    case Some(n) => Some(-n)
  }

  /**
   * `parseInt(s)` or `parseInt(s, 16)`; `None` is NaN. Negative zero is
   * not distinguished from zero.
   */
  function ParseInt(s: JSString, radix: Radix): Option<int> {
    var t := TrimStart(s);
    if |t| > 0 && t[0] == 0x2D then Negated(ParseUnsigned(t[1..], radix))
    else if |t| > 0 && t[0] == 0x2B then ParseUnsigned(t[1..], radix)
    else ParseUnsigned(t, radix)
  }

  /** `x | 0` for `x` the result of `parseInt`: NaN becomes 0, the rest wraps to 32 bits. */
  function OrZero(x: Option<int>): (r: int)
    ensures IsInt32(r)
    ensures x.None? ==> r == 0
    ensures x.Some? && IsInt32(x.value) ==> r == x.value
  {
    match x
    case None => 0
    case Some(v) => ToInt32(v)
  }

  /** `parseInt(undefined)` is NaN. */
  lemma UndefinedIsNaN(radix: Radix)
    ensures ParseInt(Arg(None), radix) == None
  {
    var s := Arg(None);
    assert s[0] == 0x75;
    assert TrimStart(s) == s;
    assert DigitValue(0x75) == 30;
  }

  // ---------------------------------------------------------------------------
  // Number::toString for integers (section 6.1.6.1.20).

  /** The decimal digits of a natural number. */
  function Decimal(n: nat): (s: JSString)
    ensures |s| >= 1 && forall j :: 0 <= j < |s| ==> 0x30 <= s[j] <= 0x39
  {
    if n < 10 then [0x30 + n] else Decimal(n / 10) + [0x30 + n % 10]
  }

  /** The string an integer converts to: a minus sign before the digits of a negative one. */
  function IntString(n: int): (s: JSString)
    ensures |s| >= 1
    ensures forall j :: 0 <= j < |s| ==> s[j] == 0x2D || 0x30 <= s[j] <= 0x39
  {
    if n < 0 then [0x2D] + Decimal(-n) else Decimal(n)
  }

  lemma {:induction false} DecimalValue(n: nat)
    ensures DigitsValue(Decimal(n), 10) == n
    ensures DigitCount(Decimal(n), 10) == |Decimal(n)|
    decreases n
  {
    var s := Decimal(n);
    DigitsAllCount(s, 10);
    if n >= 10 {
      DecimalValue(n / 10);
      assert s[..|s| - 1] == Decimal(n / 10);
    }
  }

  lemma {:induction false} DigitsAllCount(s: JSString, base: nat)
    requires base <= 10 && forall j :: 0 <= j < |s| ==> 0x30 <= s[j] <= 0x30 + base - 1
    ensures DigitCount(s, base) == |s|
    decreases |s|
  {
    if |s| > 0 {
      DigitsAllCount(s[1..], base);
    }
  }

  /** A run of decimal digits reads as its value. */
  lemma ParseDecimalDigits(d: JSString)
    requires |d| >= 1 && forall j :: 0 <= j < |d| ==> 0x30 <= d[j] <= 0x39
    ensures ParseUnsigned(d, Auto) == Some(DigitsValue(d, 10))
  {
    DigitsAllCount(d, 10);
    assert !HexPrefixed(d);
    assert d[..|d|] == d;
  }

  /** `parseInt` on digits alone. */
  lemma ParsePositive(d: JSString)
    requires |d| >= 1 && forall j :: 0 <= j < |d| ==> 0x30 <= d[j] <= 0x39
    ensures ParseInt(d, Auto) == Some(DigitsValue(d, 10))
  {
    ParseDecimalDigits(d);
    assert TrimStart(d) == d;
  }

  /** `parseInt` on a minus sign followed by digits. */
  lemma ParseNegative(d: JSString)
    requires |d| >= 1 && forall j :: 0 <= j < |d| ==> 0x30 <= d[j] <= 0x39
    ensures ParseInt([0x2D] + d, Auto) == Some(0 - DigitsValue(d, 10) as int)
  {
    ParseMinus(d, Auto);
    NegatedDigits(d);
  }

  lemma NegatedDigits(d: JSString)
    requires |d| >= 1 && forall j :: 0 <= j < |d| ==> 0x30 <= d[j] <= 0x39
    ensures Negated(ParseUnsigned(d, Auto)) == Some(0 - DigitsValue(d, 10) as int)
  {
    ParseDecimalDigits(d);
  }

  /** A leading minus sign negates what follows it. */
  lemma ParseMinus(d: JSString, radix: Radix)
    ensures ParseInt([0x2D] + d, radix) == Negated(ParseUnsigned(d, radix))
  {
    var s: JSString := [0x2D] + d;
    assert !IsWhiteSpace(s[0]);
    assert TrimStart(s) == s;
    assert s[1..] == d;
  }

  /** `parseInt(String(n))` gives `n` back for every integer `n`. */
  lemma ParseIntString(n: int)
    ensures ParseInt(IntString(n), Auto) == Some(n)
  {
    if n < 0 {
      var m: nat := -n;
      DecimalValue(m);
      ParseNegative(Decimal(m));
      assert IntString(n) == [0x2D] + Decimal(m);
    } else {
      DecimalValue(n);
      ParsePositive(Decimal(n));
      assert IntString(n) == Decimal(n);
    }
  }

  /** A hexadecimal row such as "F8" is read by `parseInt(row, 16)` as its value. */
  lemma ParseHexDigits(s: JSString)
    requires |s| > 0 && !HexPrefixed(s)
    requires forall j :: 0 <= j < |s| ==> DigitValue(s[j]) < 16
    ensures ParseInt(s, Hex) == Some(DigitsValue(s, 16))
  {
    HexAllCount(s);
    assert s[..|s|] == s;
    assert !IsWhiteSpace(s[0]) && s[0] != 0x2D && s[0] != 0x2B;
    assert TrimStart(s) == s;
  }

  lemma {:induction false} HexAllCount(s: JSString)
    requires forall j :: 0 <= j < |s| ==> DigitValue(s[j]) < 16
    ensures DigitCount(s, 16) == |s|
    decreases |s|
  {
    if |s| > 0 {
      HexAllCount(s[1..]);
    }
  }
}
