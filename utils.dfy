/**
 * UTF-16 code point decoding and the 32-bit next-power-of-two routine
 * of the pipeline's utility module.
 */
module Utils {
  import opened Bits
  import opened Js

  // ---------------------------------------------------------------------------
  // UTF-16 (RFC 2781 section 2.2: decoding; section 2.1: encoding).

  predicate IsHighSurrogate(c: int) { 0xD800 <= c < 0xDC00 }

  predicate IsLowSurrogate(c: int) { 0xDC00 <= c < 0xE000 }

  /** `0x10000 + ((hi - 0xD800) << 10) + (lo - 0xDC00)`; the shifted value is below 2^20, so `<< 10` is a multiplication. */
  function CombineSurrogates(hi: int, lo: int): int {
    0x10000 + (hi - 0xD800) * 0x400 + (lo - 0xDC00)
  }

  /**
   * The code points of a string, read left to right: a high surrogate
   * immediately followed by a low surrogate is one code point, every
   * other unit (an unpaired surrogate too) stands for itself.
   */
  function CodePoints(s: JSString): (cps: seq<int>)
    ensures forall k :: 0 <= k < |cps| ==> 0 <= cps[k] <= 0x10FFFF
    ensures |cps| <= |s|
    decreases |s|
  {
    if |s| == 0 then []
    else if |s| >= 2 && IsHighSurrogate(s[0]) && IsLowSurrogate(s[1]) then
      [CombineSurrogates(s[0], s[1])] + CodePoints(s[2..])
    else [s[0] as int] + CodePoints(s[1..])
  }

  /** Decoding the suffix of `s` at a surrogate pair: one code point for both units. */
  lemma PairAt(s: JSString, i: nat)
    requires i + 1 < |s| && IsHighSurrogate(s[i]) && IsLowSurrogate(s[i + 1])
    ensures CodePoints(s[i..]) == [CombineSurrogates(s[i], s[i + 1])] + CodePoints(s[i + 2..])
  {
    assert s[i..][2..] == s[i + 2..];
  }

  /** Decoding the suffix of `s` at any other unit: the unit itself. */
  lemma SingleAt(s: JSString, i: nat)
    requires i < |s| && !(i + 1 < |s| && IsHighSurrogate(s[i]) && IsLowSurrogate(s[i + 1]))
    ensures CodePoints(s[i..]) == [s[i] as int] + CodePoints(s[i + 1..])
  {
    assert s[i..][1..] == s[i + 1..];
  }

  /** `getCodePoints(str)`. */
  method GetCodePoints(str: JSString) returns (chars: seq<int>)
    ensures chars == CodePoints(str)
  {
    chars := [];
    var i := 0;
    while i < |str|
      invariant 0 <= i <= |str|
      invariant chars + CodePoints(str[i..]) == CodePoints(str)
    {
      var c1: int := str[i];
      if c1 >= 0xD800 && c1 < 0xDC00 && i + 1 < |str| {
        var c2: int := str[i + 1];
        if c2 >= 0xDC00 && c2 < 0xE000 {
          var cp := 0x10000 + (c1 - 0xD800) * 0x400 + (c2 - 0xDC00);
          PairAt(str, i);
          assert cp == CombineSurrogates(c1, c2);
          assert chars + [cp] + CodePoints(str[i + 2..]) == chars + ([cp] + CodePoints(str[i + 2..]));
          chars := chars + [cp];
          i := i + 2;
          continue;
        }
      }
      SingleAt(str, i);
      assert chars + [c1] + CodePoints(str[i + 1..]) == chars + ([c1] + CodePoints(str[i + 1..]));
      chars := chars + [c1];
      i := i + 1;
    }
    assert str[i..] == [];
  }

  /** Number of positions holding a high surrogate directly followed by a low one. */
  function PairCount(s: JSString): nat
    decreases |s|
  {
    if |s| < 2 then 0
    else (if IsHighSurrogate(s[0]) && IsLowSurrogate(s[1]) then 1 else 0) + PairCount(s[1..])
  }

  /** Decoding consumes both units of every surrogate pair and nothing else. */
  lemma {:induction false} CodePointsLength(s: JSString)
    ensures |CodePoints(s)| + PairCount(s) == |s|
    decreases |s|
  {
    if |s| >= 2 && IsHighSurrogate(s[0]) && IsLowSurrogate(s[1]) {
      CodePointsLength(s[2..]);
      assert s[1..][1..] == s[2..];
      assert PairCount(s[1..]) == PairCount(s[2..]);
    } else if |s| > 0 {
      CodePointsLength(s[1..]);
    }
  }

  /** UTF-16 encoding of one code point (RFC 2781 section 2.1). */
  function EncodeCodePoint(c: int): (u: JSString)
    requires 0 <= c <= 0x10FFFF
    ensures 1 <= |u| <= 2
  {
    if c < 0x1_0000 then [c]
    else [0xD800 + (c - 0x1_0000) / 0x400, 0xDC00 + (c - 0x1_0000) % 0x400]
  }

  function ToUtf16(cps: seq<int>): JSString
    requires forall k :: 0 <= k < |cps| ==> 0 <= cps[k] <= 0x10FFFF
  {
    if |cps| == 0 then [] else EncodeCodePoint(cps[0]) + ToUtf16(cps[1..])
  }

  lemma SplitPair(hi: int, lo: int)
    requires IsHighSurrogate(hi) && IsLowSurrogate(lo)
    ensures EncodeCodePoint(CombineSurrogates(hi, lo)) == [hi, lo]
  {
    var c := CombineSurrogates(hi, lo);
    DivUnique(c - 0x1_0000, 0x400, hi - 0xD800, lo - 0xDC00);
  }

  /** Re-encoding the decoded code points gives back the original code units. */
  lemma {:induction false} CodePointsRoundTrip(s: JSString)
    ensures ToUtf16(CodePoints(s)) == s
    decreases |s|
  {
    if |s| >= 2 && IsHighSurrogate(s[0]) && IsLowSurrogate(s[1]) {
      CodePointsRoundTrip(s[2..]);
      SplitPair(s[0], s[1]);
      var cps := CodePoints(s);
      assert cps[1..] == CodePoints(s[2..]);
      assert s == [s[0], s[1]] + s[2..];
    } else if |s| > 0 {
      CodePointsRoundTrip(s[1..]);
      var cps := CodePoints(s);
      assert cps[1..] == CodePoints(s[1..]);
      assert s == [s[0]] + s[1..];
    }
  }

  /** Decoding a scalar value's encoding followed by more units reads that value first. */
  lemma DecodeEncoded(c: int, rest: JSString)
    requires 0 <= c <= 0x10FFFF && !(0xD800 <= c < 0xE000)
    ensures CodePoints(EncodeCodePoint(c) + rest) == [c] + CodePoints(rest)
  {
    var s := EncodeCodePoint(c) + rest;
    if c < 0x1_0000 {
      assert s[1..] == rest;
    } else {
      var q, r := (c - 0x1_0000) / 0x400, (c - 0x1_0000) % 0x400;
      assert c == CombineSurrogates(0xD800 + q, 0xDC00 + r);
      assert s[2..] == rest;
    }
  }

  /** Decoding the UTF-16 encoding of scalar values gives them back. */
  lemma {:induction false} EncodeDecode(cps: seq<int>)
    requires forall k :: 0 <= k < |cps| ==> 0 <= cps[k] <= 0x10FFFF && !(0xD800 <= cps[k] < 0xE000)
    ensures CodePoints(ToUtf16(cps)) == cps
    decreases |cps|
  {
    if |cps| > 0 {
      calc {
        CodePoints(ToUtf16(cps));
        CodePoints(EncodeCodePoint(cps[0]) + ToUtf16(cps[1..]));
      == { DecodeEncoded(cps[0], ToUtf16(cps[1..])); }
        [cps[0]] + CodePoints(ToUtf16(cps[1..]));
      == { EncodeDecode(cps[1..]); }
        [cps[0]] + cps[1..];
        cps;
      }
    }
  }

  // ---------------------------------------------------------------------------
  // nextPowerOf2.

  /** `n` is 1, 2, 4, 8, ... */
  predicate IsPowerOfTwo(n: int)
    decreases if n > 0 then n else 0
  {
    n >= 1 && (n == 1 || (n % 2 == 0 && IsPowerOfTwo(n / 2)))
  }

  /**
   * The value `nextPowerOf2` computes: the 32-bit two's complement value
   * of `v - 1` with every bit below its highest set bit also set, plus one.
   * A negative `v - 1` smears to -1, so the result is 0.
   */
  function NextPowerOf2Spec(v: int): (r: int)
    ensures r >= 0
    ensures r == 0 <==> ToInt32(v - 1) < 0
  {
    var x := ToInt32(v - 1);
    if x < 0 then 0 else Pow2(BitLength(x))
  }

  /** One `v |= v >> s` step. */
  function SmearStep(v: int, s: nat): int {
    Or32(v, ShiftRight(v, s))
  }

  lemma Pow2Mono(a: nat, b: nat)
    requires a <= b
    ensures Pow2(a) <= Pow2(b)
  {
    if a < b {
      Pow2Mono(a, b - 1);
    }
  }

  lemma DivLeSelf(w: int, p: int)
    requires w >= 0 && p >= 1
    ensures 0 <= w / p <= w
  {
    var q := w / p;
    if q > 0 {
      MulAtLeast(q, p);
      assert w == p * q + w % p;
    }
  }

  lemma ToInt32Id(y: int)
    requires IsInt32(y)
    ensures ToInt32(y) == y
  {
  }

  lemma ShiftRightInt32(y: int, t: nat)
    requires IsInt32(y) && t < 32
    ensures ShiftRight(y, t) == y / Pow2(t)
  {
    ToInt32Id(y);
    assert t % 32 == t;
  }

  lemma Or32Int32(a: int, b: int)
    requires IsInt32(a) && IsInt32(b)
    ensures Or32(a, b) == BitOr(a, b)
  {
    ToInt32Id(a);
    ToInt32Id(b);
  }

  lemma SmearStepInt32(y: int, t: nat, z: int)
    requires IsInt32(y) && IsInt32(z) && t < 32
    requires z == y / Pow2(t)
    ensures SmearStep(y, t) == BitOr(y, z)
  {
    ShiftRightInt32(y, t);
    Or32Int32(y, z);
  }

  lemma SmearStepNat(y: nat, t: nat, z: nat)
    requires y <= MAX_INT32 && t < 32
    requires z == y / Pow2(t)
    ensures z <= y
    ensures SmearStep(y, t) == OrNat(y, z)
  {
    DivLeSelf(y, Pow2(t));
    SmearStepInt32(y, t, z);
  }

  lemma SmearStepNeg(y: int, t: nat, w: nat, wp: nat)
    requires MIN_INT32 <= y < 0 && t < 32
    requires w == -1 - y && wp == w / Pow2(t)
    ensures wp <= w
    ensures SmearStep(y, t) == -1 - AndNat(w, wp)
  {
    var p := Pow2(t);
    ComplementDiv(y, p);
    DivLeSelf(w, p);
    SmearStepInt32(y, t, -1 - wp);
  }

  /** `y` lies below bit `L`, and its `n` bits just below bit `L` are all set. */
  ghost predicate TopRun(y: int, L: nat, n: nat) {
    0 <= y < Pow2(L) && forall i: nat :: i < L && L <= i + n ==> TestBit(y, i)
  }

  /** A step on a non-negative value doubles the run of set bits below bit `L`. */
  lemma SmearNonNegative(y: int, L: nat, t: nat)
    requires 1 <= t <= 16 && L <= 31
    requires TopRun(y, L, t)
    ensures TopRun(SmearStep(y, t), L, 2 * t)
  {
    Pow2Mono(L, 31);
    Pow2Of31();
    var p := Pow2(t);
    DivLeSelf(y, p);
    var z: nat := y / p;
    SmearStepNat(y, t, z);
    OrNatBound(y, z, L);
    forall i: nat | i < L && L <= i + 2 * t
      ensures TestBit(OrNat(y, z), i)
    {
      OrNatBit(y, z, i);
      if i + t < L {
        TestBitShift(y, t, i);
      }
    }
  }

  /** A step on a negative value shifts the complement's bits right by `t`. */
  lemma SmearNegative(y: int, w0: nat, T: nat, t: nat)
    requires 1 <= t <= 16
    requires MIN_INT32 <= y < 0 && -1 - y <= w0 / Pow2(T)
    ensures MIN_INT32 <= SmearStep(y, t) < 0
    ensures -1 - SmearStep(y, t) <= w0 / Pow2(T + t)
  {
    var p := Pow2(t);
    var w: nat := -1 - y;
    DivLeSelf(w, p);
    var wp: nat := w / p;
    SmearStepNeg(y, t, w, wp);
    AndNatBound(w, w / p);
    DivMono(w, w0 / Pow2(T), p);
    DivPow2(w0, T, t);
  }

  /** The first five steps set every bit below the highest set bit of a non-negative value. */
  lemma SmearFiveNonNegative(y: int)
    requires 0 <= y <= MAX_INT32
    ensures SmearStep(SmearStep(SmearStep(SmearStep(SmearStep(y, 1), 2), 4), 8), 16) == Pow2(BitLength(y)) - 1
  {
    var L := BitLength(y);
    assert L <= 31 && TopRun(y, L, 1) by {
      Pow2Of31();
      BitLengthMono(y, 31);
      BitLengthBounds(y);
      forall i: nat | i < L && L <= i + 1
        ensures TestBit(y, i)
      {
        assert i == L - 1;
      }
    }
    var y1 := SmearStep(y, 1);
    assert TopRun(y1, L, 2) by { SmearNonNegative(y, L, 1); }
    var y2 := SmearStep(y1, 2);
    assert TopRun(y2, L, 4) by { SmearNonNegative(y1, L, 2); }
    var y4 := SmearStep(y2, 4);
    assert TopRun(y4, L, 8) by { SmearNonNegative(y2, L, 4); }
    var y8 := SmearStep(y4, 8);
    assert TopRun(y8, L, 16) by { SmearNonNegative(y4, L, 8); }
    var y16 := SmearStep(y8, 16);
    assert TopRun(y16, L, 32) by { SmearNonNegative(y8, L, 16); }
    AllOnes(y16, L);
  }

  /** The first five steps turn a negative 32-bit value into -1. */
  lemma SmearFiveNegative(y: int)
    requires MIN_INT32 <= y < 0
    ensures SmearStep(SmearStep(SmearStep(SmearStep(SmearStep(y, 1), 2), 4), 8), 16) == -1
  {
    var w0: nat := -1 - y;
    assert Pow2(0) == 1;
    SmearNegative(y, w0, 0, 1);
    var y1 := SmearStep(y, 1);
    SmearNegative(y1, w0, 1, 2);
    var y2 := SmearStep(y1, 2);
    SmearNegative(y2, w0, 3, 4);
    var y4 := SmearStep(y2, 4);
    SmearNegative(y4, w0, 7, 8);
    var y8 := SmearStep(y4, 8);
    SmearNegative(y8, w0, 15, 16);
    Pow2Of31();
    assert w0 / Pow2(31) == 0;
  }

  /** `v |= v >> 32` changes nothing: the shift count is taken modulo 32. */
  lemma SmearLast(y: int)
    requires y == -1 || 0 <= y <= MAX_INT32
    ensures SmearStep(y, 32) == y
  {
    assert Pow2(0) == 1;
    ShiftRightInt32(y, 0);
    assert ShiftRight(y, 32) == ShiftRight(y, 0);
    Or32Int32(y, y);
    if y >= 0 {
      OrNatSelf(y);
    }
  }

  /** The six steps of `nextPowerOf2` followed by the final `+ 1`. */
  lemma SmearAll(v: int)
    ensures SmearStep(SmearStep(SmearStep(SmearStep(SmearStep(SmearStep(v, 1), 2), 4), 8), 16), 32) + 1
      == NextPowerOf2Spec(v + 1)
  {
    var y := ToInt32(v);
    assert SmearStep(v, 1) == SmearStep(y, 1) by {
      ToInt32Id(y);
    }
    if y < 0 {
      SmearFiveNegative(y);
      SmearLast(-1);
    } else {
      SmearFiveNonNegative(y);
      Pow2Of31();
      BitLengthMono(y, 31);
      Pow2Mono(BitLength(y), 31);
      SmearLast(Pow2(BitLength(y)) - 1);
    }
  }

  /** `nextPowerOf2(v)` for an integral `v`. */
  method NextPowerOf2(v0: int) returns (r: int)
    ensures r == NextPowerOf2Spec(v0)
  {
    var v := v0 - 1;
    SmearAll(v);
    v := Or32(v, ShiftRight(v, 1));
    v := Or32(v, ShiftRight(v, 2));
    v := Or32(v, ShiftRight(v, 4));
    v := Or32(v, ShiftRight(v, 8));
    v := Or32(v, ShiftRight(v, 16));
    v := Or32(v, ShiftRight(v, 32));
    r := v + 1;
  }

  lemma {:induction false} Pow2IsPowerOfTwo(k: nat)
    ensures IsPowerOfTwo(Pow2(k))
  {
    if k > 0 {
      Pow2IsPowerOfTwo(k - 1);
      assert Pow2(k) / 2 == Pow2(k - 1);
    }
  }

  /** A power of two above 2^(L-1) is at least 2^L. */
  lemma {:induction false} PowerOfTwoAbove(p: int, L: nat)
    requires IsPowerOfTwo(p) && L > 0 && p > Pow2(L - 1)
    ensures p >= Pow2(L)
    decreases L
  {
    if L > 1 {
      assert p != 1;
      assert p / 2 > Pow2(L - 2);
      PowerOfTwoAbove(p / 2, L - 1);
    }
  }

  /** For 1 <= v <= 2^31, `nextPowerOf2(v)` is the least power of two that is at least `v`. */
  lemma NextPowerOf2Least(v: int)
    requires 1 <= v <= 0x8000_0000
    ensures IsPowerOfTwo(NextPowerOf2Spec(v))
    ensures v <= NextPowerOf2Spec(v)
    ensures forall p :: IsPowerOfTwo(p) && v <= p ==> NextPowerOf2Spec(v) <= p
  {
    var x := v - 1;
    ToInt32Id(x);
    var L := BitLength(x);
    BitLengthBounds(x);
    Pow2IsPowerOfTwo(L);
    forall p | IsPowerOfTwo(p) && v <= p
      ensures Pow2(L) <= p
    {
      if L > 0 {
        PowerOfTwoAbove(p, L);
      }
    }
  }

  /** Powers of two up to 2^31 are fixed points. */
  lemma NextPowerOf2Fixed(k: nat)
    requires k <= 31
    ensures NextPowerOf2Spec(Pow2(k)) == Pow2(k)
  {
    Pow2Mono(k, 31);
    Pow2Of31();
    Pow2IsPowerOfTwo(k);
    NextPowerOf2Least(Pow2(k));
  }

  /** Zero, negative inputs and inputs whose predecessor wraps to a negative 32-bit value give 0. */
  lemma NextPowerOf2Zero(v: int)
    requires MIN_INT32 < v <= 0 || 0x8000_0000 < v <= 0x1_0000_0000
    ensures NextPowerOf2Spec(v) == 0
  {
  }
}
