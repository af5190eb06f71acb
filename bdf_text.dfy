/**
 * What `writeText` draws, as functions over values: the glyph bitmap it
 * fills, cell by cell in the order of its loops, the width it advances
 * and the repeats it runs. A TypeError stops the drawing where it
 * happens; the cells drawn before it stay drawn.
 */
module BdfText {
  import opened Wrappers
  import opened Js
  import opened BdfFormat

  // ---------------------------------------------------------------------------
  // Values.

  /** A JavaScript number that is an integer or NaN; NaN absorbs every sum. */
  datatype Number = Num(value: int) | NaN {
    function Plus(other: Number): (r: Number)
      ensures r.Num? <==> Num? && other.Num?
      ensures r.Num? ==> r.value == value + other.value
    {
      if Num? && other.Num? then Num(value + other.value) else NaN
    }
  }

  /** A property name on a row array: an integer index, or "NaN". */
  datatype Column = Col(index: int) | NaNCol

  function ColumnOf(n: Number): (c: Column)
    ensures n.Num? ==> c == Col(n.value)
    ensures n.NaN? ==> c == NaNCol
  {
    if n.Num? then Col(n.value) else NaNCol
  }

  /** A row array: the cells ever assigned, each `true` or `false`. */
  type Row = map<Column, bool>

  /** The value of a glyph bitmap object: `width`, `height` and the rows under integer keys. */
  datatype Canvas = Canvas(width: Number, height: int, rows: map<int, Row>)

  /** The canvas after some drawing, and whether a TypeError stopped it. */
  datatype Painted = Painted(canvas: Canvas, thrown: bool)

  /** Rows 0 to `points` - 1, each an empty array. */
  function EmptyRows(points: int): (m: map<int, Row>)
    ensures forall r :: r in m <==> 0 <= r < points
    ensures forall r :: r in m ==> m[r] == map[]
    decreases if points > 0 then points else 0
  {
    if points <= 0 then map[] else EmptyRows(points - 1)[points - 1 := map[]]
  }

  /** `{ width: 0, height: points }` with `points` empty rows. */
  function FreshCanvas(points: int): (c: Canvas)
    ensures c.width == Num(0) && c.height == points
    ensures forall r :: r in c.rows <==> 0 <= r < points
    ensures forall r :: r in c.rows ==> c.rows[r] == map[]
  {
    Canvas(Num(0), points, EmptyRows(points))
  }

  /** Whether the cell is lit: an unassigned cell reads as undefined, which is falsy. */
  predicate Lit(c: Canvas, r: int, col: Column) {
    r in c.rows && col in c.rows[r] && c.rows[r][col]
  }

  // ---------------------------------------------------------------------------
  // The drawing.

  /**
   * `_bitmap[row][column] = _bitmap[row][column] || bit`: a row the
   * bitmap does not have (a NaN row among them) is undefined, and reading
   * a cell of it is a TypeError.
   */
  function PaintCell(c: Canvas, row: Number, col: Column, bit: bool): (p: Painted)
    ensures p.canvas.width == c.width && p.canvas.height == c.height && p.canvas.rows.Keys == c.rows.Keys
    ensures p.thrown <==> row.NaN? || row.value !in c.rows
    ensures p.thrown ==> p.canvas == c
    ensures !p.thrown ==> Lit(p.canvas, row.value, col) == (Lit(c, row.value, col) || bit)
  {
    if row.NaN? || row.value !in c.rows then Painted(c, true)
    else
      var r := c.rows[row.value];
      Painted(c.(rows := c.rows[row.value := r[col := (col in r && r[col]) || bit]]), false)
  }

  /** Drawing one cell leaves every other cell as it was. */
  lemma PaintCellOthers(c: Canvas, row: Number, col: Column, bit: bool)
    requires !PaintCell(c, row, col, bit).thrown
    ensures forall r, k :: (r != row.value || k != col) ==> Lit(PaintCell(c, row, col, bit).canvas, r, k) == Lit(c, r, k)
  {
  }

  /** The row of the bitmap that glyph row `y` lands on: NaN when FONT_DESCENT is missing. */
  function TargetRow(box: BoundingBox, fontDescent: Option<int>, y: int): (n: Number)
    ensures fontDescent.Some? ==> n == Num(y + box.y + fontDescent.value)
  {
    if fontDescent.Some? then Num(y + box.y + fontDescent.value) else NaN
  }

  /** The column of the bitmap that glyph column `x` lands on, past the width drawn so far. */
  function TargetColumn(box: BoundingBox, width: Number, x: int): (col: Column)
    ensures width.Num? ==> col == Col(x + box.x + width.value)
  {
    ColumnOf(Num(x + box.x).Plus(width))
  }

  /**
   * The cells of glyph `g` from row `y`, column `x` on, in the order of
   * the two inner loops. A glyph without BBX is a TypeError at its first
   * cell.
   */
  function PaintFrom(c: Canvas, g: Glyph, fontDescent: Option<int>, y: nat, x: nat): (p: Painted)
    decreases |g.bitmap| - y, if y < |g.bitmap| then |g.bitmap[y]| - x else 0
  {
    if y >= |g.bitmap| then Painted(c, false)
    else if x >= |g.bitmap[y]| then PaintFrom(c, g, fontDescent, y + 1, 0)
    else if g.boundingBox.None? then Painted(c, true)
    else
      var box := g.boundingBox.value;
      var p := PaintCell(c, TargetRow(box, fontDescent, y), TargetColumn(box, c.width, x), g.bitmap[y][x]);
      if p.thrown then p else PaintFrom(p.canvas, g, fontDescent, y, x + 1)
  }

  /** `glyphData.deviceWidthX + kerningBias`: NaN when DWIDTH is missing. */
  function Advance(g: Glyph, kerning: int): (n: Number)
    ensures g.deviceWidthX.Some? ==> n == Num(g.deviceWidthX.value + kerning)
  {
    if g.deviceWidthX.Some? then Num(g.deviceWidthX.value + kerning) else NaN
  }

  /**
   * One pass over the text from code unit `i` on: a code unit without a
   * glyph is skipped and does not advance; a glyph is drawn, then the
   * width grows by its advance.
   */
  function PassFrom(c: Canvas, text: JSString, i: nat, glyphs: map<GlyphKey, Glyph>, fontDescent: Option<int>, kerning: int): (p: Painted)
    decreases |text| - i
  {
    if i >= |text| then Painted(c, false)
    else if CodeKey(text[i]) !in glyphs then PassFrom(c, text, i + 1, glyphs, fontDescent, kerning)
    else
      var g := glyphs[CodeKey(text[i])];
      var p := PaintFrom(c, g, fontDescent, 0, 0);
      if p.thrown then p
      else PassFrom(p.canvas.(width := p.canvas.width.Plus(Advance(g, kerning))), text, i + 1, glyphs, fontDescent, kerning)
  }

  /** The passes and the `textRepeat` left in the options: one pass, then one more per positive repeat. */
  datatype Repeated = Repeated(painted: Painted, textRepeat: int)

  function Passes(c: Canvas, text: JSString, glyphs: map<GlyphKey, Glyph>, fontDescent: Option<int>, kerning: int, repeat: int): (r: Repeated)
    decreases if repeat > 0 then repeat else 0
  {
    var p := PassFrom(c, text, 0, glyphs, fontDescent, kerning);
    if p.thrown || repeat <= 0 then Repeated(p, repeat)
    else Passes(p.canvas, text, glyphs, fontDescent, kerning, repeat - 1)
  }

  /** `if (!x) x = 0`: an undefined or zero option reads as 0. */
  function ZeroIfUnset(x: Option<int>): (r: int)
    ensures x.Some? ==> r == x.value
    ensures x.None? ==> r == 0
  {
    if x.Some? then x.value else 0
  }

  /**
   * The whole of `writeText`: the options after it (both normalised,
   * `textRepeat` counted down), the canvas it drew on (None when it
   * threw before creating one), and whether it threw.
   */
  datatype Written = Written(canvas: Option<Canvas>, thrown: bool, textRepeat: int, kerningBias: int)

  function WriteSpec(meta: Meta, glyphs: map<GlyphKey, Glyph>, text: JSString, textRepeat: Option<int>, kerningBias: Option<int>, start: Option<Canvas>): (w: Written)
    ensures w.kerningBias == ZeroIfUnset(kerningBias)
    ensures (meta.size.None? || meta.properties.None?) ==> w == Written(start, true, ZeroIfUnset(textRepeat), ZeroIfUnset(kerningBias))
  {
    var repeat, kerning := ZeroIfUnset(textRepeat), ZeroIfUnset(kerningBias);
    if meta.size.None? || meta.properties.None? then Written(start, true, repeat, kerning)
    else
      var c := if start.Some? then start.value else FreshCanvas(meta.size.value.points);
      var r := Passes(c, text, glyphs, meta.properties.value.fontDescent, kerning, repeat);
      Written(Some(r.painted.canvas), r.painted.thrown, r.textRepeat, kerning)
  }

  // ---------------------------------------------------------------------------
  // What the drawing does.

  /** `b` has the rows and the height of `a`, and every cell lit in `a` is lit in `b`. */
  ghost predicate Covers(a: Canvas, b: Canvas) {
    a.height == b.height && a.rows.Keys == b.rows.Keys &&
    forall r, k :: Lit(a, r, k) ==> Lit(b, r, k)
  }

  /** Cell (`yy`, `xx`) of the glyph comes at or after cell (`y`, `x`) in the loops' order. */
  predicate After(g: Glyph, y: int, x: int, yy: int, xx: int) {
    0 <= yy < |g.bitmap| && 0 <= xx < |g.bitmap[yy]| && (yy > y || (yy == y && xx >= x))
  }

  /** Glyph row `yy` has a cell at or after cell (`y`, `x`). */
  predicate Reaches(g: Glyph, y: int, x: int, yy: int) {
    0 <= yy < |g.bitmap| && |g.bitmap[yy]| > 0 && (yy > y || (yy == y && x < |g.bitmap[y]|))
  }

  /** Past the end of row `y`, the rows left are those left from the start of the next one. */
  lemma ReachesNextRow(g: Glyph, y: nat, x: nat)
    requires y < |g.bitmap| && x >= |g.bitmap[y]|
    ensures var next := y + 1; forall yy :: Reaches(g, y, x, yy) <==> Reaches(g, next, 0, yy)
  {
  }

  /** Past cell (`y`, `x`), the rows left are those left from the next cell, and row `y`. */
  lemma ReachesNextCell(g: Glyph, y: nat, x: nat)
    requires y < |g.bitmap| && x < |g.bitmap[y]|
    ensures var nx := x + 1; forall yy :: Reaches(g, y, x, yy) <==> Reaches(g, y, nx, yy) || yy == y
  {
  }

  /** Past the end of row `y`, the cells left are those left from the start of the next row. */
  lemma AfterNextRow(g: Glyph, y: nat, x: nat)
    requires y < |g.bitmap| && x >= |g.bitmap[y]|
    ensures var next := y + 1; forall yy, xx :: After(g, y, x, yy, xx) <==> After(g, next, 0, yy, xx)
  {
  }

  /** The cells left at cell (`y`, `x`) are that cell and those left at the next one. */
  lemma AfterNextCell(g: Glyph, y: nat, x: nat)
    requires y < |g.bitmap| && x < |g.bitmap[y]|
    ensures var nx := x + 1; forall yy, xx :: After(g, y, x, yy, xx) <==> After(g, y, nx, yy, xx) || (yy == y && xx == x)
  {
  }

  /** Drawing a glyph changes no row, no height and no width, and clears no lit cell. */
  lemma {:induction false} PaintFromCovers(c: Canvas, g: Glyph, fontDescent: Option<int>, y: nat, x: nat)
    ensures Covers(c, PaintFrom(c, g, fontDescent, y, x).canvas)
    ensures PaintFrom(c, g, fontDescent, y, x).canvas.width == c.width
    decreases |g.bitmap| - y, if y < |g.bitmap| then |g.bitmap[y]| - x else 0
  {
    if y >= |g.bitmap| {
    } else if x >= |g.bitmap[y]| {
      PaintFromCovers(c, g, fontDescent, y + 1, 0);
    } else if g.boundingBox.Some? {
      var box := g.boundingBox.value;
      var row, col := TargetRow(box, fontDescent, y), TargetColumn(box, c.width, x);
      var p := PaintCell(c, row, col, g.bitmap[y][x]);
      if !p.thrown {
        PaintCellOthers(c, row, col, g.bitmap[y][x]);
        PaintFromCovers(p.canvas, g, fontDescent, y, x + 1);
      }
    }
  }

  lemma PaintFromKeepsLit(c: Canvas, g: Glyph, fontDescent: Option<int>, y: nat, x: nat, r: int, k: Column)
    requires Lit(c, r, k)
    ensures Lit(PaintFrom(c, g, fontDescent, y, x).canvas, r, k)
  {
    PaintFromCovers(c, g, fontDescent, y, x);
  }

  /**
   * Without BBX or without FONT_DESCENT, a glyph throws exactly when it
   * has a cell left to draw, and draws nothing.
   */
  lemma {:induction false} PaintFromUndrawable(c: Canvas, g: Glyph, fontDescent: Option<int>, y: nat, x: nat)
    requires g.boundingBox.None? || fontDescent.None?
    ensures PaintFrom(c, g, fontDescent, y, x).canvas == c
    ensures PaintFrom(c, g, fontDescent, y, x).thrown <==> exists yy :: Reaches(g, y, x, yy)
    decreases |g.bitmap| - y, if y < |g.bitmap| then |g.bitmap[y]| - x else 0
  {
    if y >= |g.bitmap| {
    } else if x >= |g.bitmap[y]| {
      var next := y + 1;
      PaintFromUndrawable(c, g, fontDescent, next, 0);
      ReachesNextRow(g, y, x);
    } else {
      assert Reaches(g, y, x, y);
    }
  }

  /**
   * With BBX and FONT_DESCENT, a glyph throws exactly when one of its
   * rows left to draw lands on a row the bitmap does not have.
   */
  lemma {:induction false} PaintFromThrows(c: Canvas, g: Glyph, fontDescent: Option<int>, y: nat, x: nat)
    requires g.boundingBox.Some? && fontDescent.Some?
    ensures PaintFrom(c, g, fontDescent, y, x).thrown <==>
      exists yy :: Reaches(g, y, x, yy) && yy + g.boundingBox.value.y + fontDescent.value !in c.rows
    decreases |g.bitmap| - y, if y < |g.bitmap| then |g.bitmap[y]| - x else 0
  {
    var box := g.boundingBox.value;
    if y >= |g.bitmap| {
    } else if x >= |g.bitmap[y]| {
      var next := y + 1;
      PaintFromThrows(c, g, fontDescent, next, 0);
      ReachesNextRow(g, y, x);
    } else {
      var p := PaintCell(c, TargetRow(box, fontDescent, y), TargetColumn(box, c.width, x), g.bitmap[y][x]);
      if p.thrown {
        assert Reaches(g, y, x, y);
      } else {
        var nx := x + 1;
        PaintFromThrows(p.canvas, g, fontDescent, y, nx);
        ReachesNextCell(g, y, x);
      }
    }
  }

  /**
   * Every cell of glyph `g` at or after (`y`, `x`) that its bitmap lights
   * is lit in `d`, `y + bbx.y + fontDescent` rows down and
   * `x + bbx.x + width` columns across.
   */
  ghost predicate DrawnFrom(d: Canvas, g: Glyph, box: BoundingBox, fontDescent: int, width: int, y: int, x: int) {
    forall yy, xx :: After(g, y, x, yy, xx) && g.bitmap[yy][xx] ==>
      Lit(d, yy + box.y + fontDescent, Col(xx + box.x + width))
  }

  lemma DrawnNextRow(d: Canvas, g: Glyph, box: BoundingBox, fontDescent: int, width: int, y: nat, x: nat)
    requires y < |g.bitmap| && x >= |g.bitmap[y]|
    requires DrawnFrom(d, g, box, fontDescent, width, y + 1, 0)
    ensures DrawnFrom(d, g, box, fontDescent, width, y, x)
  {
    AfterNextRow(g, y, x);
  }

  lemma DrawnNextCell(d: Canvas, g: Glyph, box: BoundingBox, fontDescent: int, width: int, y: nat, x: nat)
    requires y < |g.bitmap| && x < |g.bitmap[y]|
    requires g.bitmap[y][x] ==> Lit(d, y + box.y + fontDescent, Col(x + box.x + width))
    requires DrawnFrom(d, g, box, fontDescent, width, y, x + 1)
    ensures DrawnFrom(d, g, box, fontDescent, width, y, x)
  {
    AfterNextCell(g, y, x);
  }

  /** A glyph drawn without a TypeError lights every cell its bitmap lights. */
  lemma {:induction false} PaintFromDraws(c: Canvas, g: Glyph, fontDescent: Option<int>, y: nat, x: nat)
    requires g.boundingBox.Some? && fontDescent.Some? && c.width.Num?
    requires !PaintFrom(c, g, fontDescent, y, x).thrown
    ensures DrawnFrom(PaintFrom(c, g, fontDescent, y, x).canvas, g, g.boundingBox.value, fontDescent.value, c.width.value, y, x)
    decreases |g.bitmap| - y, if y < |g.bitmap| then |g.bitmap[y]| - x else 0
  {
    var box := g.boundingBox.value;
    if y >= |g.bitmap| {
    } else if x >= |g.bitmap[y]| {
      PaintFromDraws(c, g, fontDescent, y + 1, 0);
      DrawnNextRow(PaintFrom(c, g, fontDescent, y, x).canvas, g, box, fontDescent.value, c.width.value, y, x);
    } else {
      var row, col := TargetRow(box, fontDescent, y), TargetColumn(box, c.width, x);
      var r, k := y + box.y + fontDescent.value, Col(x + box.x + c.width.value);
      assert row == Num(r) && col == k;
      var p := PaintCell(c, row, col, g.bitmap[y][x]);
      assert p.canvas.width == c.width;
      var q := PaintFrom(p.canvas, g, fontDescent, y, x + 1);
      assert q == PaintFrom(c, g, fontDescent, y, x);
      PaintFromDraws(p.canvas, g, fontDescent, y, x + 1);
      if g.bitmap[y][x] {
        PaintFromKeepsLit(p.canvas, g, fontDescent, y, x + 1, r, k);
      }
      DrawnNextCell(q.canvas, g, box, fontDescent.value, c.width.value, y, x);
    }
  }

  /**
   * A cell a glyph lights that was not lit before is one its bitmap
   * lights, moved by the bounding box, FONT_DESCENT and the width so far.
   */
  lemma {:induction false} PaintFromOnlyGlyph(c: Canvas, g: Glyph, fontDescent: Option<int>, y: nat, x: nat, r: int, k: Column)
    requires g.boundingBox.Some?
    requires Lit(PaintFrom(c, g, fontDescent, y, x).canvas, r, k) && !Lit(c, r, k)
    ensures exists yy, xx :: (After(g, y, x, yy, xx) && g.bitmap[yy][xx] &&
      TargetRow(g.boundingBox.value, fontDescent, yy) == Num(r) && TargetColumn(g.boundingBox.value, c.width, xx) == k)
    decreases |g.bitmap| - y, if y < |g.bitmap| then |g.bitmap[y]| - x else 0
  {
    var box := g.boundingBox.value;
    if y >= |g.bitmap| {
    } else if x >= |g.bitmap[y]| {
      var next := y + 1;
      PaintFromOnlyGlyph(c, g, fontDescent, next, 0, r, k);
      AfterNextRow(g, y, x);
    } else {
      var row, col := TargetRow(box, fontDescent, y), TargetColumn(box, c.width, x);
      var p := PaintCell(c, row, col, g.bitmap[y][x]);
      if !p.thrown {
        if Lit(p.canvas, r, k) {
          PaintCellOthers(c, row, col, g.bitmap[y][x]);
          assert After(g, y, x, y, x);
        } else {
          var nx := x + 1;
          PaintFromOnlyGlyph(p.canvas, g, fontDescent, y, nx, r, k);
          AfterNextCell(g, y, x);
        }
      }
    }
  }

  // ---------------------------------------------------------------------------
  // What a pass and the repeats do.

  /** The advances of the glyphs the text has from code unit `i` on, summed. */
  function TextAdvance(text: JSString, i: nat, glyphs: map<GlyphKey, Glyph>, kerning: int): (n: Number)
    decreases |text| - i
  {
    if i >= |text| then Num(0)
    else if CodeKey(text[i]) !in glyphs then TextAdvance(text, i + 1, glyphs, kerning)
    else Advance(glyphs[CodeKey(text[i])], kerning).Plus(TextAdvance(text, i + 1, glyphs, kerning))
  }

  /** `n` copies of `a`, summed. */
  function Times(a: Number, n: nat): (r: Number)
    ensures r.Num? <==> a.Num? || n == 0
  {
    if n == 0 then Num(0) else a.Plus(Times(a, n - 1))
  }

  /** A pass clears no lit cell and keeps the rows and the height. */
  lemma {:induction false} PassFromCovers(c: Canvas, text: JSString, i: nat, glyphs: map<GlyphKey, Glyph>, fontDescent: Option<int>, kerning: int)
    ensures Covers(c, PassFrom(c, text, i, glyphs, fontDescent, kerning).canvas)
    decreases |text| - i
  {
    if i < |text| {
      if CodeKey(text[i]) !in glyphs {
        PassFromCovers(c, text, i + 1, glyphs, fontDescent, kerning);
      } else {
        var g := glyphs[CodeKey(text[i])];
        var p := PaintFrom(c, g, fontDescent, 0, 0);
        PaintFromCovers(c, g, fontDescent, 0, 0);
        if !p.thrown {
          var d := p.canvas.(width := p.canvas.width.Plus(Advance(g, kerning)));
          PassFromCovers(d, text, i + 1, glyphs, fontDescent, kerning);
          CoversTransitive(c, d, PassFrom(d, text, i + 1, glyphs, fontDescent, kerning).canvas);
        }
      }
    }
  }

  lemma CoversTransitive(a: Canvas, b: Canvas, c: Canvas)
    requires Covers(a, b) && Covers(b, c)
    ensures Covers(a, c)
  {
  }

  /** A pass that does not throw advances the width by the sum of its glyphs' advances. */
  lemma {:induction false} PassFromWidth(c: Canvas, text: JSString, i: nat, glyphs: map<GlyphKey, Glyph>, fontDescent: Option<int>, kerning: int)
    requires !PassFrom(c, text, i, glyphs, fontDescent, kerning).thrown
    ensures PassFrom(c, text, i, glyphs, fontDescent, kerning).canvas.width == c.width.Plus(TextAdvance(text, i, glyphs, kerning))
    decreases |text| - i
  {
    if i < |text| {
      if CodeKey(text[i]) !in glyphs {
        PassFromWidth(c, text, i + 1, glyphs, fontDescent, kerning);
      } else {
        var g := glyphs[CodeKey(text[i])];
        var p := PaintFrom(c, g, fontDescent, 0, 0);
        PaintFromCovers(c, g, fontDescent, 0, 0);
        var d := p.canvas.(width := p.canvas.width.Plus(Advance(g, kerning)));
        PassFromWidth(d, text, i + 1, glyphs, fontDescent, kerning);
      }
    }
  }

  /** A text none of whose code units from `i` on has a glyph draws nothing and does not advance. */
  lemma {:induction false} PassFromSkips(c: Canvas, text: JSString, i: nat, glyphs: map<GlyphKey, Glyph>, fontDescent: Option<int>, kerning: int)
    requires forall j :: i <= j < |text| ==> CodeKey(text[j]) !in glyphs
    ensures PassFrom(c, text, i, glyphs, fontDescent, kerning) == Painted(c, false)
    decreases |text| - i
  {
    if i < |text| {
      PassFromSkips(c, text, i + 1, glyphs, fontDescent, kerning);
    }
  }

  /** The repeats clear no lit cell and keep the rows and the height. */
  lemma {:induction false} PassesCovers(c: Canvas, text: JSString, glyphs: map<GlyphKey, Glyph>, fontDescent: Option<int>, kerning: int, repeat: int)
    ensures Covers(c, Passes(c, text, glyphs, fontDescent, kerning, repeat).painted.canvas)
    decreases if repeat > 0 then repeat else 0
  {
    var p := PassFrom(c, text, 0, glyphs, fontDescent, kerning);
    PassFromCovers(c, text, 0, glyphs, fontDescent, kerning);
    if !p.thrown && repeat > 0 {
      PassesCovers(p.canvas, text, glyphs, fontDescent, kerning, repeat - 1);
      CoversTransitive(c, p.canvas, Passes(p.canvas, text, glyphs, fontDescent, kerning, repeat - 1).painted.canvas);
    }
  }

  /** The number of passes: one, and one more per positive repeat. */
  function PassCount(repeat: int): (n: nat)
    ensures n >= 1
  {
    if repeat > 0 then repeat + 1 else 1
  }

  /** Repeats that do not throw count `textRepeat` down to 0; a negative one is left as it is. */
  lemma {:induction false} PassesRepeatLeft(c: Canvas, text: JSString, glyphs: map<GlyphKey, Glyph>, fontDescent: Option<int>, kerning: int, repeat: int)
    requires !Passes(c, text, glyphs, fontDescent, kerning, repeat).painted.thrown
    ensures Passes(c, text, glyphs, fontDescent, kerning, repeat).textRepeat == if repeat > 0 then 0 else repeat
    decreases if repeat > 0 then repeat else 0
  {
    if repeat > 0 {
      var p := PassFrom(c, text, 0, glyphs, fontDescent, kerning);
      if !p.thrown {
        PassesRepeatLeft(p.canvas, text, glyphs, fontDescent, kerning, repeat - 1);
      }
    }
  }

  lemma PlusAssociative(a: Number, b: Number, c: Number)
    ensures a.Plus(b).Plus(c) == a.Plus(b.Plus(c))
  {
  }

  /**
   * Repeats that do not throw advance the width by `PassCount(repeat)`
   * times the text's advance.
   */
  lemma {:induction false} PassesWidth(c: Canvas, text: JSString, glyphs: map<GlyphKey, Glyph>, fontDescent: Option<int>, kerning: int, repeat: int)
    requires !Passes(c, text, glyphs, fontDescent, kerning, repeat).painted.thrown
    ensures Passes(c, text, glyphs, fontDescent, kerning, repeat).painted.canvas.width ==
      c.width.Plus(Times(TextAdvance(text, 0, glyphs, kerning), PassCount(repeat)))
    decreases if repeat > 0 then repeat else 0
  {
    var p := PassFrom(c, text, 0, glyphs, fontDescent, kerning);
    var a := TextAdvance(text, 0, glyphs, kerning);
    PassFromWidth(c, text, 0, glyphs, fontDescent, kerning);
    if repeat > 0 {
      PassesWidth(p.canvas, text, glyphs, fontDescent, kerning, repeat - 1);
      assert Times(a, PassCount(repeat)) == a.Plus(Times(a, PassCount(repeat - 1)));
      PlusAssociative(c.width, a, Times(a, PassCount(repeat - 1)));
    } else {
      assert Times(a, 1) == a.Plus(Num(0));
    }
  }

  /**
   * `writeText` without a bitmap of its caller's, when it does not throw,
   * returns a bitmap `points` high with exactly the rows 0 to points - 1,
   * and leaves `textRepeat` at 0 or below.
   */
  lemma WriteFreshRows(meta: Meta, glyphs: map<GlyphKey, Glyph>, text: JSString, textRepeat: Option<int>, kerningBias: Option<int>)
    requires !WriteSpec(meta, glyphs, text, textRepeat, kerningBias, None).thrown
    ensures meta.size.Some? && meta.properties.Some?
    ensures var w := WriteSpec(meta, glyphs, text, textRepeat, kerningBias, None);
      w.canvas.Some? && w.canvas.value.height == meta.size.value.points &&
      (forall r :: r in w.canvas.value.rows <==> 0 <= r < meta.size.value.points) &&
      w.textRepeat <= 0
  {
    var c := FreshCanvas(meta.size.value.points);
    var fd, k := meta.properties.value.fontDescent, ZeroIfUnset(kerningBias);
    var r := Passes(c, text, glyphs, fd, k, ZeroIfUnset(textRepeat));
    assert WriteSpec(meta, glyphs, text, textRepeat, kerningBias, None) == Written(Some(r.painted.canvas), r.painted.thrown, r.textRepeat, k);
    PassesCovers(c, text, glyphs, fd, k, ZeroIfUnset(textRepeat));
    PassesRepeatLeft(c, text, glyphs, fd, k, ZeroIfUnset(textRepeat));
  }
}
