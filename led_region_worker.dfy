/**
 * The worker-side raster buffer of one region: a sparse grid of lit and
 * unlit cells that `draw`, `clear` and `fill` write in place, and that
 * `getData` reads through the region's rectangle and scroll offset.
 *
 * The buffer is a JavaScript array of row arrays. Writing a row or a
 * column with a negative index creates a plain property that the array
 * length does not count. The model keeps every written cell in one map
 * keyed by (row, column), and the length of the outer array as
 * `rowCount`; a missing cell and a cell holding `false` both read as unlit.
 */
module LedRegionWorker {

  /** A buffer position: (row, column). */
  type Cell = (int, int)

  /** Whether a buffer position holds a truthy value. */
  predicate Lit(cells: map<Cell, bool>, k: Cell) {
    k in cells && cells[k]
  }

  /** The state of one region. */
  datatype RegionView = RegionView(
    regionId: int,
    width: int, height: int,
    originX: int, originY: int,
    offsetX: int, offsetY: int,
    cells: map<Cell, bool>,
    rowCount: nat)
  {
    /** `getData(x, y)`, read as a truth value: display cell (x, y) through this region. */
    predicate DataAt(x: int, y: int) {
      if x < originX || x >= originX + width || y < originY || y >= originY + height then false
      else Lit(cells, (y + offsetY - originY, x + offsetX - originX))
    }

    /** Every cell at a non-negative row lies within the array length. */
    predicate WellFormed() {
      forall k :: k in cells && k.0 >= 0 ==> k.0 < rowCount
    }
  }

  /** A region just created for `regionId`: zero geometry and `data = [[]]`. */
  function FreshRegion(regionId: int): RegionView {
    RegionView(regionId, 0, 0, 0, 0, 0, 0, map[], 1)
  }

  // ---------------------------------------------------------------------------
  // draw

  /** Whether buffer position `k` receives a value from `src` drawn at (ox, oy). */
  predicate InSource(src: seq<seq<bool>>, ox: int, oy: int, k: Cell) {
    0 <= k.0 - oy < |src| && 0 <= k.1 - ox < |src[k.0 - oy]|
  }

  /** The buffer positions `src` drawn at (ox, oy) covers. */
  function Footprint(src: seq<seq<bool>>, ox: int, oy: int): set<Cell> {
    set r, c | oy <= r < oy + |src| && ox <= c < ox + |src[r - oy]| :: (r, c)
  }

  lemma FootprintIff(src: seq<seq<bool>>, ox: int, oy: int, k: Cell)
    ensures k in Footprint(src, ox, oy) <==> InSource(src, ox, oy, k)
  {
    if InSource(src, ox, oy, k) {
      assert (k.0, k.1) == k;
    }
  }

  /** The cells after drawing: covered cells get `src || (additive && old)`, others keep their value. */
  function DrawnCells(cells: map<Cell, bool>, src: seq<seq<bool>>, ox: int, oy: int, additive: bool): map<Cell, bool> {
    map k | k in cells.Keys + Footprint(src, ox, oy) ::
      if InSource(src, ox, oy, k) then src[k.0 - oy][k.1 - ox] || (additive && Lit(cells, k))
      else cells[k]
  }

  /** The array length after drawing `rows` rows at row offset `oy`: the last row is created if missing. */
  function DrawnRowCount(rowCount: nat, rows: nat, oy: int): nat {
    if rows > 0 && oy + rows > rowCount then oy + rows else rowCount
  }

  function Drawn(v: RegionView, src: seq<seq<bool>>, ox: int, oy: int, additive: bool): RegionView {
    v.(cells := DrawnCells(v.cells, src, ox, oy, additive), rowCount := DrawnRowCount(v.rowCount, |src|, oy))
  }

  /** The cells after the inner loop of `draw` wrote entries 0 .. n-1 of `row` into buffer row `r`. */
  function WriteRow(cells: map<Cell, bool>, row: seq<bool>, r: int, ox: int, n: nat, additive: bool): map<Cell, bool>
    requires n <= |row|
  {
    if n == 0 then cells
    else
      var m := WriteRow(cells, row, r, ox, n - 1, additive);
      var k := (r, n - 1 + ox);
      m[k := row[n - 1] || (additive && Lit(m, k))]
  }

  /** The cells after the outer loop of `draw` wrote source rows 0 .. n-1. */
  function WriteRows(cells: map<Cell, bool>, src: seq<seq<bool>>, ox: int, oy: int, n: nat, additive: bool): map<Cell, bool>
    requires n <= |src|
  {
    if n == 0 then cells
    else WriteRow(WriteRows(cells, src, ox, oy, n - 1, additive), src[n - 1], n - 1 + oy, ox, |src[n - 1]|, additive)
  }

  lemma {:induction false} WriteRowAt(cells: map<Cell, bool>, row: seq<bool>, r: int, ox: int, n: nat, additive: bool, k: Cell)
    requires n <= |row|
    ensures var m := WriteRow(cells, row, r, ox, n, additive);
      var hit := k.0 == r && 0 <= k.1 - ox < n;
      (k in m <==> k in cells || hit)
      && (hit ==> m[k] == (row[k.1 - ox] || (additive && Lit(cells, k))))
      && (!hit && k in cells ==> m[k] == cells[k])
  {
    if n > 0 {
      WriteRowAt(cells, row, r, ox, n - 1, additive, k);
    }
  }

  lemma {:induction false} WriteRowsAt(cells: map<Cell, bool>, src: seq<seq<bool>>, ox: int, oy: int, n: nat, additive: bool, k: Cell)
    requires n <= |src|
    ensures var m := WriteRows(cells, src, ox, oy, n, additive);
      var hit := 0 <= k.0 - oy < n && 0 <= k.1 - ox < |src[k.0 - oy]|;
      (k in m <==> k in cells || hit)
      && (hit ==> m[k] == (src[k.0 - oy][k.1 - ox] || (additive && Lit(cells, k))))
      && (!hit && k in cells ==> m[k] == cells[k])
  {
    if n > 0 {
      var m := WriteRows(cells, src, ox, oy, n - 1, additive);
      WriteRowsAt(cells, src, ox, oy, n - 1, additive, k);
      WriteRowAt(m, src[n - 1], n - 1 + oy, ox, |src[n - 1]|, additive, k);
    }
  }

  /**
   * Writing the source row by row, entry by entry, gives the cells
   * `DrawnCells` describes all at once: no buffer position is written twice.
   */
  lemma WriteRowsIsDrawn(cells: map<Cell, bool>, src: seq<seq<bool>>, ox: int, oy: int, additive: bool)
    ensures WriteRows(cells, src, ox, oy, |src|, additive) == DrawnCells(cells, src, ox, oy, additive)
  {
    var m, d := WriteRows(cells, src, ox, oy, |src|, additive), DrawnCells(cells, src, ox, oy, additive);
    forall k: Cell
      ensures k in m <==> k in d
      ensures k in m ==> m[k] == d[k]
    {
      WriteRowsAt(cells, src, ox, oy, |src|, additive, k);
      FootprintIff(src, ox, oy, k);
    }
  }

  // ---------------------------------------------------------------------------
  // clear

  /** The cells after emptying rows 0 .. n-1: their non-negative columns are gone. */
  function ClearedCells(cells: map<Cell, bool>, n: int): map<Cell, bool> {
    map k | k in cells && !(0 <= k.0 < n && k.1 >= 0) :: cells[k]
  }

  function Cleared(v: RegionView): RegionView {
    v.(cells := ClearedCells(v.cells, v.rowCount))
  }

  // ---------------------------------------------------------------------------
  // fill

  /** Whether buffer position `k` lies in rows 0 .. h-1, columns 0 .. w-1. */
  predicate InFillRect(w: int, h: int, k: Cell) {
    0 <= k.0 < h && 0 <= k.1 < w
  }

  /** The cells after setting columns 0 .. n-1 of row `r` to `true`, in order. */
  function LightRow(cells: map<Cell, bool>, r: int, n: int): map<Cell, bool>
    decreases if n > 0 then n else 0
  {
    if n <= 0 then cells else LightRow(cells, r, n - 1)[(r, n - 1) := true]
  }

  /** The cells after lighting rows 0 .. h-1, each over columns 0 .. w-1, in order. */
  function LightRect(cells: map<Cell, bool>, w: int, h: int): map<Cell, bool>
    decreases if h > 0 then h else 0
  {
    if h <= 0 then cells else LightRow(LightRect(cells, w, h - 1), h - 1, w)
  }

  function Filled(v: RegionView): RegionView {
    v.(cells := LightRect(v.cells, v.width, v.height),
       rowCount := if v.height > v.rowCount then v.height else v.rowCount)
  }

  lemma {:induction false} LightRowAt(cells: map<Cell, bool>, r: int, n: int, k: Cell)
    ensures k in LightRow(cells, r, n) <==> k in cells || (k.0 == r && 0 <= k.1 < n)
    ensures Lit(LightRow(cells, r, n), k) <==> Lit(cells, k) || (k.0 == r && 0 <= k.1 < n)
    decreases if n > 0 then n else 0
  {
    if n > 0 {
      LightRowAt(cells, r, n - 1, k);
    }
  }

  /** Lighting the rectangle lights exactly its positions and keeps every other cell. */
  lemma {:induction false} LightRectAt(cells: map<Cell, bool>, w: int, h: int, k: Cell)
    ensures k in LightRect(cells, w, h) <==> k in cells || InFillRect(w, h, k)
    ensures Lit(LightRect(cells, w, h), k) <==> Lit(cells, k) || InFillRect(w, h, k)
    decreases if h > 0 then h else 0
  {
    if h > 0 {
      LightRectAt(cells, w, h - 1, k);
      LightRowAt(LightRect(cells, w, h - 1), h - 1, w, k);
    }
  }

  // ---------------------------------------------------------------------------
  // What the operations mean for `getData`.

  /** A fresh region shows nothing anywhere. */
  lemma FreshRegionDark(regionId: int, x: int, y: int)
    ensures !FreshRegion(regionId).DataAt(x, y)
  {
  }

  /** The buffer position display cell (x, y) reads. */
  function LocalCell(v: RegionView, x: int, y: int): Cell {
    (y + v.offsetY - v.originY, x + v.offsetX - v.originX)
  }

  predicate InRect(v: RegionView, x: int, y: int) {
    v.originX <= x < v.originX + v.width && v.originY <= y < v.originY + v.height
  }

  lemma {:induction false} DrawnCellsAt(cells: map<Cell, bool>, src: seq<seq<bool>>, ox: int, oy: int, additive: bool, k: Cell)
    ensures Lit(DrawnCells(cells, src, ox, oy, additive), k)
      == if InSource(src, ox, oy, k) then src[k.0 - oy][k.1 - ox] || (additive && Lit(cells, k)) else Lit(cells, k)
  {
    FootprintIff(src, ox, oy, k);
  }

  /**
   * After `draw`, a display cell inside the rectangle shows the drawn value
   * (or-ed with the old one when additive) where the source covers its
   * buffer position, and what it showed before everywhere else.
   */
  lemma DrawnDataAt(v: RegionView, src: seq<seq<bool>>, ox: int, oy: int, additive: bool, x: int, y: int)
    ensures var k := LocalCell(v, x, y);
      Drawn(v, src, ox, oy, additive).DataAt(x, y)
        == if InRect(v, x, y) && InSource(src, ox, oy, k)
           then src[k.0 - oy][k.1 - ox] || (additive && v.DataAt(x, y))
           else v.DataAt(x, y)
  {
    DrawnCellsAt(v.cells, src, ox, oy, additive, LocalCell(v, x, y));
  }

  /** An additive draw never turns a lit cell off. */
  lemma AdditiveKeepsLit(v: RegionView, src: seq<seq<bool>>, ox: int, oy: int, x: int, y: int)
    requires v.DataAt(x, y)
    ensures Drawn(v, src, ox, oy, true).DataAt(x, y)
  {
    DrawnDataAt(v, src, ox, oy, true, x, y);
  }

  /** A non-additive draw shows exactly the source where it covers the buffer. */
  lemma OpaqueDrawShowsSource(v: RegionView, src: seq<seq<bool>>, x: int, y: int)
    requires InRect(v, x, y)
    requires InSource(src, v.offsetX, v.offsetY, LocalCell(v, x, y))
    ensures Drawn(v, src, v.offsetX, v.offsetY, false).DataAt(x, y)
      == src[y - v.originY][x - v.originX]
  {
    DrawnDataAt(v, src, v.offsetX, v.offsetY, false, x, y);
  }

  lemma {:induction false} DrawnWellFormed(v: RegionView, src: seq<seq<bool>>, ox: int, oy: int, additive: bool)
    requires v.WellFormed()
    ensures Drawn(v, src, ox, oy, additive).WellFormed()
  {
    var w := Drawn(v, src, ox, oy, additive);
    forall k | k in w.cells && k.0 >= 0
      ensures k.0 < w.rowCount
    {
      FootprintIff(src, ox, oy, k);
    }
  }

  /** After `clear`, a well-formed region shows only cells at a negative buffer row or column. */
  lemma ClearedDataAt(v: RegionView, x: int, y: int)
    requires v.WellFormed()
    ensures var k := LocalCell(v, x, y);
      Cleared(v).DataAt(x, y) <==> v.DataAt(x, y) && (k.0 < 0 || k.1 < 0)
  {
  }

  lemma ClearedWellFormed(v: RegionView)
    requires v.WellFormed()
    ensures Cleared(v).WellFormed() && Cleared(v).rowCount == v.rowCount
  {
  }

  /** After `fill`, every display cell whose buffer position is inside the rectangle is lit. */
  lemma FilledDataAt(v: RegionView, x: int, y: int)
    ensures Filled(v).DataAt(x, y)
      <==> InRect(v, x, y) && (InFillRect(v.width, v.height, LocalCell(v, x, y)) || Lit(v.cells, LocalCell(v, x, y)))
  {
    LightRectAt(v.cells, v.width, v.height, LocalCell(v, x, y));
  }

  lemma {:induction false} FilledWellFormed(v: RegionView)
    requires v.WellFormed()
    ensures Filled(v).WellFormed()
  {
    var w := Filled(v);
    forall k | k in w.cells && k.0 >= 0
      ensures k.0 < w.rowCount
    {
      LightRectAt(v.cells, v.width, v.height, k);
    }
  }

  /**
   * `clear()` then `fill()` on an unscrolled region lights exactly its
   * rectangle.
   */
  lemma ClearThenFill(v: RegionView, x: int, y: int)
    requires v.WellFormed() && v.offsetX == 0 && v.offsetY == 0
    ensures Filled(Cleared(v)).DataAt(x, y) <==> InRect(v, x, y)
  {
    var k := LocalCell(v, x, y);
    FilledDataAt(Cleared(v), x, y);
  }

  // ---------------------------------------------------------------------------
  // The buffer object.

  class RegionWorker {
    const regionId: int
    var width: int
    var height: int
    var originX: int
    var originY: int
    var offsetX: int
    var offsetY: int
    var cells: map<Cell, bool>
    var rowCount: nat

    function View(): RegionView
      reads this
    {
      RegionView(regionId, width, height, originX, originY, offsetX, offsetY, cells, rowCount)
    }

    /** The fields no buffer operation writes. */
    function Geometry(): (int, int, int, int, int, int)
      reads this
    {
      (width, height, originX, originY, offsetX, offsetY)
    }

    constructor(regionId: int)
      ensures View() == FreshRegion(regionId)
    {
      this.regionId := regionId;
      width, height, originX, originY, offsetX, offsetY := 0, 0, 0, 0, 0, 0;
      cells := map[];
      rowCount := 1;
    }

    /** The compositor's writes to the six geometry fields; the buffer is untouched. */
    method SetGeometry(originX: int, originY: int, width: int, height: int, offsetX: int, offsetY: int)
      modifies this
      ensures View() == old(View()).(originX := originX, originY := originY, width := width, height := height,
                                     offsetX := offsetX, offsetY := offsetY)
    {
      this.originX, this.originY := originX, originY;
      this.width, this.height := width, height;
      this.offsetX, this.offsetY := offsetX, offsetY;
    }

    /** `draw(data, offsetX, offsetY, additive)` with integral offsets. */
    method Draw(data: seq<seq<bool>>, offsetX: int, offsetY: int, additive: bool)
      modifies this
      ensures View() == Drawn(old(View()), data, offsetX, offsetY, additive)
    {
      ghost var c0, r0 := cells, rowCount;
      var y := 0;
      while y < |data|
        invariant 0 <= y <= |data|
        invariant Geometry() == old(Geometry())
        invariant cells == WriteRows(c0, data, offsetX, offsetY, y, additive)
        invariant rowCount == DrawnRowCount(r0, y, offsetY)
      {
        var sy := data[y];
        if y + offsetY >= rowCount {
          rowCount := y + offsetY + 1;
        }
        ghost var before := cells;
        var x := 0;
        while x < |sy|
          invariant 0 <= x <= |sy|
          invariant Geometry() == old(Geometry()) && rowCount == DrawnRowCount(r0, y + 1, offsetY)
          invariant cells == WriteRow(before, sy, y + offsetY, offsetX, x, additive)
        {
          var k := (y + offsetY, x + offsetX);
          cells := cells[k := sy[x] || (additive && Lit(cells, k))];
          x := x + 1;
        }
        y := y + 1;
      }
      WriteRowsIsDrawn(c0, data, offsetX, offsetY, additive);
    }

    /** `clear()`: every row below the array length is emptied. */
    method Clear()
      modifies this
      ensures View() == Cleared(old(View()))
    {
      ghost var c0 := cells;
      var y := 0;
      var l := rowCount;
      while y < l
        invariant 0 <= y <= l && l == rowCount
        invariant Geometry() == old(Geometry()) && rowCount == old(rowCount)
        invariant cells == ClearedCells(c0, y)
      {
        // An existing row gets `length = 0` and a hole gets a new empty
        // row; either way the row keeps no cell at a non-negative column.
        cells := map k | k in cells && !(k.0 == y && k.1 >= 0) :: cells[k];
        y := y + 1;
      }
    }

    /** `fill()`: rows 0 .. height-1, columns 0 .. width-1 become lit. */
    method Fill()
      modifies this
      ensures View() == Filled(old(View()))
    {
      ghost var c0, r0 := cells, rowCount;
      var i := 0;
      while i < height
        invariant 0 <= i <= (if height > 0 then height else 0)
        invariant Geometry() == old(Geometry())
        invariant cells == LightRect(c0, width, i)
        invariant rowCount == if i > r0 then i else r0
      {
        if i >= rowCount {
          rowCount := i + 1;
        }
        var j := 0;
        ghost var before := cells;
        while j < width
          invariant 0 <= j <= (if width > 0 then width else 0)
          invariant Geometry() == old(Geometry()) && rowCount == (if i + 1 > r0 then i + 1 else r0)
          invariant cells == LightRow(before, i, j)
        {
          cells := cells[(i, j) := true];
          j := j + 1;
        }
        i := i + 1;
      }
    }
  }
}
