/**
 * The page's own use of the font and the regions: `drawText`, which lays
 * a line of text out glyph by glyph on a region and records how wide it
 * came out, and the loop that turns a QR code into a bitmap for a region.
 */
module Marquee {
  import opened Wrappers
  import opened Js
  import opened BdfFormat
  import opened LedCommon
  import opened DisplayRegion
  import BdfFont
  import Utils

  /** A region handle with the `maxWidth` the page attaches to it. */
  class TextRegion {
    const region: LedDisplayRegion
    var maxWidth: Option<int>

    constructor (region: LedDisplayRegion)
      ensures this.region == region && maxWidth == None
    {
      this.region := region;
      maxWidth := None;
    }
  }

  // ---------------------------------------------------------------------------
  // Layout.

  /**
   * `glyphs[code || 0] ?? meta.properties?.defaultChar ?? glyphs[0]`, kept
   * only when it has a bounding box. A defined `defaultChar` is a number,
   * never a glyph, so it ends the chain with nothing to draw.
   */
  function GlyphFor(entries: map<GlyphKey, Glyph>, meta: Meta, u: CodeUnit): (g: Option<Glyph>)
    ensures g.Some? ==> g.value.boundingBox.Some?
  {
    var chosen :=
      if CodeKey(u) in entries then Some(entries[CodeKey(u)])
      else if meta.properties.Some? && meta.properties.value.defaultChar.Some? then None
      else if CodeKey(0) in entries then Some(entries[CodeKey(0)])
      else None;
    if chosen.Some? && chosen.value.boundingBox.Some? then chosen else None
  }

  /** How far a glyph moves the pen: its bounding-box width, or nothing when none is drawn. */
  function WidthOf(g: Option<Glyph>): int
    requires g.Some? ==> g.value.boundingBox.Some?
  {
    if g.Some? then g.value.boundingBox.value.width else 0
  }

  /** The `draw` a glyph makes with the pen at (`x`, `y0`): at its bounding-box offset, two rows lower, additively. */
  function DrawOf(g: Option<Glyph>, id: int, x: int, y0: int): seq<Message>
    requires g.Some? ==> g.value.boundingBox.Some?
  {
    if g.None? then []
    else
      var box := g.value.boundingBox.value;
      [DrawMessage(id, g.value.bitmap, Some(x + box.x), Some(y0 + box.y + 2), Some(true))]
  }

  /** The sum of the bounding-box widths of the glyphs drawn for the first `n` code units. */
  function Widths(s: JSString, n: nat, entries: map<GlyphKey, Glyph>, meta: Meta): int
    requires n <= |s|
  {
    if n == 0 then 0 else Widths(s, n - 1, entries, meta) + WidthOf(GlyphFor(entries, meta, s[n - 1]))
  }

  /** The `draw` messages for the first `n` code units, the pen starting at (`x0`, `y0`). */
  function Draws(s: JSString, n: nat, entries: map<GlyphKey, Glyph>, meta: Meta, id: int, x0: int, y0: int): seq<Message>
    requires n <= |s|
  {
    if n == 0 then []
    else Draws(s, n - 1, entries, meta, id, x0, y0) + DrawOf(GlyphFor(entries, meta, s[n - 1]), id, x0 + Widths(s, n - 1, entries, meta), y0)
  }

  /**
   * The code units `drawText` lays out: the code points of the text after
   * the bidirectional reordering, back in UTF-16; None where
   * `String.fromCodePoint` throws a RangeError (ECMA-262, section 22.1.2.2).
   */
  function LaidOut(text: JSString, bidi: seq<int> -> seq<int>): (units: Option<JSString>)
  {
    var cps := bidi(Utils.CodePoints(text));
    if forall k :: 0 <= k < |cps| ==> 0 <= cps[k] <= 0x10FFFF then Some(Utils.ToUtf16(cps)) else None
  }

  /**
   * `drawText(region, text, offsetX, offsetY)`, with the bidirectional
   * resolution and reordering given as `bidi`: one additive `draw` per
   * drawable glyph, then `maxWidth` is the distance the pen moved. Returns
   * `true` where the source throws, before anything is drawn.
   */
  method DrawText(target: TextRegion, font: BdfFont.BDF, text: JSString, offsetX: int, offsetY: int, bidi: seq<int> -> seq<int>)
    returns (thrown: bool)
    modifies target, target.region.worker
    ensures thrown <==> LaidOut(text, bidi).None?
    ensures thrown ==> target.maxWidth == old(target.maxWidth) && target.region.worker.log == old(target.region.worker.log)
    ensures !thrown ==>
      var units := LaidOut(text, bidi).value;
      && target.maxWidth == Some(Widths(units, |units|, font.glyphs.entries, font.meta))
      && target.region.worker.log == old(target.region.worker.log)
           + Draws(units, |units|, font.glyphs.entries, font.meta, target.region.regionId, offsetX, offsetY)
  {
    var codePoints := Utils.GetCodePoints(text);
    var reordered := bidi(codePoints);
    if !(forall k :: 0 <= k < |reordered| ==> 0 <= reordered[k] <= 0x10FFFF) {
      return true;
    }
    var units := Utils.ToUtf16(reordered);
    var width := LayOut(target.region, units, font.glyphs.entries, font.meta, offsetX, offsetY);
    target.maxWidth := Some(width);
    return false;
  }

  /** The loop of `drawText`: draws the glyph of each code unit in turn and returns how far the pen moved. */
  method LayOut(region: LedDisplayRegion, units: JSString, entries: map<GlyphKey, Glyph>, meta: Meta, x0: int, y0: int)
    returns (width: int)
    modifies region.worker
    ensures width == Widths(units, |units|, entries, meta)
    ensures region.worker.log == old(region.worker.log) + Draws(units, |units|, entries, meta, region.regionId, x0, y0)
  {
    ghost var start := region.worker.log;
    var x := x0;
    var i := 0;
    while i < |units|
      invariant 0 <= i <= |units|
      invariant x == x0 + Widths(units, i, entries, meta)
      invariant region.worker.log == start + Draws(units, i, entries, meta, region.regionId, x0, y0)
    {
      var glyph := GlyphFor(entries, meta, units[i]);
      LayoutStep(units, i, entries, meta, region.regionId, x0, y0);
      ghost var drawn := Draws(units, i, entries, meta, region.regionId, x0, y0);
      ghost var d := DrawOf(glyph, region.regionId, x, y0);
      assert Draws(units, i + 1, entries, meta, region.regionId, x0, y0) == drawn + d;
      Place(region, glyph, x, y0);
      assert region.worker.log == start + drawn + d;
      assert start + drawn + d == start + (drawn + d);
      x := x + WidthOf(glyph);
      i := i + 1;
    }
    width := x - x0;
  }

  /** Draws one glyph, if there is one, at its bounding-box offset from the pen at (`x`, `y0`). */
  method Place(region: LedDisplayRegion, glyph: Option<Glyph>, x: int, y0: int)
    requires glyph.Some? ==> glyph.value.boundingBox.Some?
    modifies region.worker
    ensures region.worker.log == old(region.worker.log) + DrawOf(glyph, region.regionId, x, y0)
  {
    if glyph.Some? {
      var box := glyph.value.boundingBox.value;
      region.Draw(glyph.value.bitmap, Some(x + box.x), Some(y0 + box.y + 2), Some(true));
    }
  }

  /** One more code unit: its glyph is drawn where the pen stands and moves the pen by its width. */
  lemma LayoutStep(s: JSString, i: nat, entries: map<GlyphKey, Glyph>, meta: Meta, id: int, x0: int, y0: int)
    requires i < |s|
    ensures var g := GlyphFor(entries, meta, s[i]);
      && Widths(s, i + 1, entries, meta) == Widths(s, i, entries, meta) + WidthOf(g)
      && Draws(s, i + 1, entries, meta, id, x0, y0) == Draws(s, i, entries, meta, id, x0, y0) + DrawOf(g, id, x0 + Widths(s, i, entries, meta), y0)
  {
  }

  /** Every message of a layout is an additive `draw` on the region, at most one per code unit. */
  lemma {:induction false} DrawsAreAdditive(s: JSString, n: nat, entries: map<GlyphKey, Glyph>, meta: Meta, id: int, x0: int, y0: int)
    requires n <= |s|
    ensures var ms := Draws(s, n, entries, meta, id, x0, y0);
      && |ms| <= n
      && forall k :: 0 <= k < |ms| ==> ms[k].PushData? && ms[k].regionId == id && ms[k].additive == Some(true)
  {
    if n > 0 {
      DrawsAreAdditive(s, n - 1, entries, meta, id, x0, y0);
    }
  }

  /**
   * A missing glyph falls back to glyph 0 only when the font has no
   * DEFAULT_CHAR; with one, nothing is drawn for it.
   */
  lemma DefaultCharQuirk(entries: map<GlyphKey, Glyph>, meta: Meta, u: CodeUnit)
    requires CodeKey(u) !in entries
    ensures meta.properties.Some? && meta.properties.value.defaultChar.Some? ==> GlyphFor(entries, meta, u).None?
    ensures (meta.properties.None? || meta.properties.value.defaultChar.None?) ==>
      GlyphFor(entries, meta, u) == if CodeKey(0) in entries && entries[CodeKey(0)].boundingBox.Some? then Some(entries[CodeKey(0)]) else None
  {
  }

  /** The layout of the first `n` code units depends on those code units only. */
  lemma {:induction false} LayoutOfPrefix(s: JSString, t: JSString, n: nat, entries: map<GlyphKey, Glyph>, meta: Meta, id: int, x0: int, y0: int)
    requires n <= |s| && n <= |t| && s[..n] == t[..n]
    ensures Widths(s, n, entries, meta) == Widths(t, n, entries, meta)
    ensures Draws(s, n, entries, meta, id, x0, y0) == Draws(t, n, entries, meta, id, x0, y0)
  {
    if n > 0 {
      assert s[..n - 1] == s[..n][..n - 1];
      assert t[..n - 1] == t[..n][..n - 1];
      assert s[n - 1] == s[..n][n - 1];
      LayoutOfPrefix(s, t, n - 1, entries, meta, id, x0, y0);
    }
  }

  /** The pen moves by the widths of two parts laid out one after the other. */
  lemma {:induction false} WidthsAppend(a: JSString, b: JSString, k: nat, entries: map<GlyphKey, Glyph>, meta: Meta)
    requires k <= |b|
    ensures Widths(a + b, |a| + k, entries, meta) == Widths(a, |a|, entries, meta) + Widths(b, k, entries, meta)
  {
    if k == 0 {
      assert (a + b)[..|a|] == a[..|a|];
      LayoutOfPrefix(a + b, a, |a|, entries, meta, 0, 0, 0);
    } else {
      WidthsAppend(a, b, k - 1, entries, meta);
      assert (a + b)[|a| + k - 1] == b[k - 1];
    }
  }

  /**
   * Laying out two parts one after the other is laying out the second
   * with the pen where the first left it.
   */
  lemma {:induction false} DrawsAppend(a: JSString, b: JSString, k: nat, entries: map<GlyphKey, Glyph>, meta: Meta, id: int, x0: int, y0: int)
    requires k <= |b|
    ensures Draws(a + b, |a| + k, entries, meta, id, x0, y0)
      == Draws(a, |a|, entries, meta, id, x0, y0) + Draws(b, k, entries, meta, id, x0 + Widths(a, |a|, entries, meta), y0)
  {
    if k == 0 {
      assert (a + b)[..|a|] == a[..|a|];
      LayoutOfPrefix(a + b, a, |a|, entries, meta, id, x0, y0);
    } else {
      DrawsAppend(a, b, k - 1, entries, meta, id, x0, y0);
      WidthsAppend(a, b, k - 1, entries, meta);
      DrawsAppendStep(a, b, k, entries, meta, id, x0, y0);
    }
  }

  /** The step of `DrawsAppend`: one more code unit of the second part is the same glyph at the same place. */
  lemma DrawsAppendStep(a: JSString, b: JSString, k: nat, entries: map<GlyphKey, Glyph>, meta: Meta, id: int, x0: int, y0: int)
    requires 0 < k <= |b|
    requires Widths(a + b, |a| + k - 1, entries, meta) == Widths(a, |a|, entries, meta) + Widths(b, k - 1, entries, meta)
    requires Draws(a + b, |a| + k - 1, entries, meta, id, x0, y0)
      == Draws(a, |a|, entries, meta, id, x0, y0) + Draws(b, k - 1, entries, meta, id, x0 + Widths(a, |a|, entries, meta), y0)
    ensures Draws(a + b, |a| + k, entries, meta, id, x0, y0)
      == Draws(a, |a|, entries, meta, id, x0, y0) + Draws(b, k, entries, meta, id, x0 + Widths(a, |a|, entries, meta), y0)
  {
    var head := Draws(a, |a|, entries, meta, id, x0, y0);
    var x1 := x0 + Widths(a, |a|, entries, meta);
    var tail := Draws(b, k - 1, entries, meta, id, x1, y0);
    var g := GlyphFor(entries, meta, b[k - 1]);
    var d := DrawOf(g, id, x1 + Widths(b, k - 1, entries, meta), y0);
    assert (a + b)[|a| + k - 1] == b[k - 1];
    LayoutStep(a + b, |a| + k - 1, entries, meta, id, x0, y0);
    assert Draws(a + b, |a| + k, entries, meta, id, x0, y0) == head + tail + d;
    LayoutStep(b, k - 1, entries, meta, id, x1, y0);
    AppendAssociative(head, tail, d);
  }

  /** Concatenation of message logs regroups freely. */
  lemma AppendAssociative<T>(a: seq<T>, b: seq<T>, c: seq<T>)
    ensures a + b + c == a + (b + c)
  {
  }

  /**
   * Without reordering, the layout runs over the text's own code units:
   * a character outside the Basic Multilingual Plane is looked up as its
   * two surrogates, not as one code point.
   */
  lemma UnreorderedLaysOutUnits(text: JSString, bidi: seq<int> -> seq<int>)
    requires forall cps :: bidi(cps) == cps
    ensures LaidOut(text, bidi) == Some(text)
  {
    Utils.CodePointsRoundTrip(text);
  }

  // ---------------------------------------------------------------------------
  // The QR code.

  /**
   * The bitmap of a QR code of `size` modules a side, transposed: row `y`
   * holds the modules whose second coordinate is `y`. Each row starts
   * empty, as `data[y] || (data[y] = [])` always finds no row there.
   */
  method QrBitmap(size: int, getModule: (int, int) -> bool) returns (data: seq<seq<bool>>)
    ensures |data| == if size > 0 then size else 0
    ensures forall y :: 0 <= y < |data| ==> |data[y]| == |data|
    ensures forall y, x :: 0 <= y < |data| && 0 <= x < |data[y]| ==> data[y][x] == getModule(x, y)
  {
    data := [];
    var y := 0;
    while y < size
      invariant 0 <= y && (y <= size || y == 0) && |data| == y
      invariant forall r :: 0 <= r < y ==> |data[r]| == size
      invariant forall r, x :: 0 <= r < y && 0 <= x < |data[r]| ==> data[r][x] == getModule(x, r)
    {
      var row := [];
      var x := 0;
      while x < size
        invariant 0 <= x <= size && |row| == x
        invariant forall c :: 0 <= c < x ==> row[c] == getModule(c, y)
      {
        row := row + [getModule(x, y)];
        x := x + 1;
      }
      data := data + [row];
      y := y + 1;
    }
  }
}
