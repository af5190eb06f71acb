/**
 * The font object of the BDF reader: its global information and its glyph
 * table, filled in place by `load` and read back by `toString`. `load`
 * walks the lines of the file once, the way `BdfFormat.Run` states it.
 */
module BdfFont {
  import opened Wrappers
  import opened Bits
  import opened Js
  import opened BdfFormat
  import opened BdfText
  import Utils

  // ---------------------------------------------------------------------------
  // Decoding bitmap lines.

  /** `bitmap[k] = row` on a JavaScript array that has at least `k` rows. */
  function SetRow(bitmap: seq<seq<bool>>, k: nat, row: seq<bool>): (r: seq<seq<bool>>)
    requires k <= |bitmap|
    ensures |r| == if k < |bitmap| then |bitmap| else k + 1
    ensures r[k] == row && forall j :: 0 <= j < |r| && j != k ==> r[j] == bitmap[j]
  {
    if k < |bitmap| then bitmap[k := row] else bitmap + [row]
  }

  /** Replacing the rows one by one is replacing them all at once. */
  lemma OverlaySnoc(bitmap: seq<seq<bool>>, rows: seq<seq<bool>>, row: seq<bool>)
    ensures |rows| <= |Overlay(bitmap, rows)|
    ensures Overlay(bitmap, rows + [row]) == SetRow(Overlay(bitmap, rows), |rows|, row)
  {
    var a := Overlay(bitmap, rows + [row]);
    var b := SetRow(Overlay(bitmap, rows), |rows|, row);
    assert |a| == |b|;
    forall j | 0 <= j < |a|
      ensures a[j] == b[j]
    {
      if j < |rows| {
        assert a[j] == (rows + [row])[j] == rows[j];
      }
    }
  }

  lemma HexRowsSnoc(lines: Lines, i: nat, n: nat)
    ensures HexRows(lines, i, n + 1) == HexRows(lines, i, n) + [ParseInt(Arg(LineAt(lines, i + 1 + n)), Hex)]
  {
  }

  lemma DecodeRowsSnoc(bytes: seq<Option<int>>, byte: Option<int>, hint: nat)
    ensures DecodeRows(bytes + [byte], hint) == DecodeRows(bytes, hint) + [RowBits(byte, hint)]
  {
  }

  /**
   * One bitmap line spread over `hint + 1` entries: entry `hint - bit` is
   * bit `bit` of the byte.
   */
  method DecodeRow(byte: Option<int>, hint: nat) returns (row: seq<bool>)
    ensures row == RowBits(byte, hint)
  {
    var a := new bool[hint + 1];
    for bit := 0 to hint + 1
      invariant forall j :: hint - bit < j <= hint ==> a[j] == (byte.Some? && AndShiftedOne(byte.value, hint - j))
    {
      a[hint - bit] := byte.Some? && AndShiftedOne(byte.value, bit);
    }
    row := a[..];
  }

  /**
   * The BITMAP section of glyph `g`: the `n` lines after line `i`, each
   * pushed as a byte and decoded into the row of the same number.
   */
  method ReadGlyphBitmap(lines: Lines, i: nat, g: Glyph, n: nat) returns (h: Glyph)
    requires g.boundingBox.Some?
    ensures h == ReadBitmap(lines, i, g, n)
  {
    var hint := Utils.NextPowerOf2(g.boundingBox.value.width);
    var bytes := g.bytes;
    var bitmap := g.bitmap;
    for row := 0 to n
      invariant bytes == g.bytes + HexRows(lines, i, row)
      invariant bitmap == Overlay(g.bitmap, DecodeRows(HexRows(lines, i, row), hint))
    {
      var byte := ParseInt(Arg(LineAt(lines, i + 1 + row)), Hex);
      var decoded := DecodeRow(byte, hint);
      HexRowsSnoc(lines, i, row);
      DecodeRowsSnoc(HexRows(lines, i, row), byte, hint);
      OverlaySnoc(g.bitmap, DecodeRows(HexRows(lines, i, row), hint), decoded);
      bytes := bytes + [byte];
      bitmap := SetRow(bitmap, row, decoded);
    }
    h := g.(bytes := bytes, bitmap := bitmap);
  }

  // ---------------------------------------------------------------------------
  // The order in which `for (const glyph in this.glyphs)` visits the keys
  // (ECMA-262, section 10.1.11.1 OrdinaryOwnPropertyKeys): array indices
  // ascending, then the other keys in the order they were first stored.

  /** A key whose property name is an array index: a code in [0, 2^32 - 1). */
  predicate IsIndexKey(k: GlyphKey) {
    k.CodeKey? && 0 <= k.code < 0xFFFF_FFFF
  }

  /** The keys that are array indices, in the order they were stored. */
  function IndexKeys(order: seq<GlyphKey>): (keys: seq<GlyphKey>)
    ensures forall j :: 0 <= j < |keys| ==> IsIndexKey(keys[j])
  {
    if |order| == 0 then []
    else if IsIndexKey(order[0]) then [order[0]] + IndexKeys(order[1..])
    else IndexKeys(order[1..])
  }

  /** The other keys (negative codes, the undefined code), in the order they were stored. */
  function OtherKeys(order: seq<GlyphKey>): (keys: seq<GlyphKey>)
    ensures forall j :: 0 <= j < |keys| ==> !IsIndexKey(keys[j])
  {
    if |order| == 0 then []
    else if IsIndexKey(order[0]) then OtherKeys(order[1..])
    else [order[0]] + OtherKeys(order[1..])
  }

  predicate AllCodes(keys: seq<GlyphKey>) {
    forall j :: 0 <= j < |keys| ==> keys[j].CodeKey?
  }

  predicate Ascending(keys: seq<GlyphKey>)
    requires AllCodes(keys)
  {
    forall j, k :: 0 <= j < k < |keys| ==> keys[j].code <= keys[k].code
  }

  /** `key` put before the first key with a code at least its own. */
  function Insert(key: GlyphKey, keys: seq<GlyphKey>): (r: seq<GlyphKey>)
    requires key.CodeKey? && AllCodes(keys)
    ensures |r| == |keys| + 1
    ensures AllCodes(r) && multiset(r) == multiset(keys) + multiset{key}
  {
    if |keys| == 0 || key.code <= keys[0].code then [key] + keys
    else
      assert keys == [keys[0]] + keys[1..];
      [keys[0]] + Insert(key, keys[1..])
  }

  /** Insertion sort by code. */
  function SortByCode(keys: seq<GlyphKey>): (r: seq<GlyphKey>)
    requires AllCodes(keys)
    ensures |r| == |keys|
    ensures AllCodes(r) && multiset(r) == multiset(keys)
  {
    if |keys| == 0 then []
    else
      assert keys == [keys[0]] + keys[1..];
      Insert(keys[0], SortByCode(keys[1..]))
  }

  lemma {:induction false} InsertAscending(key: GlyphKey, keys: seq<GlyphKey>)
    requires key.CodeKey? && AllCodes(keys) && Ascending(keys)
    ensures Ascending(Insert(key, keys))
    ensures |Insert(key, keys)| > 0 && Insert(key, keys)[0].code == if |keys| > 0 && keys[0].code < key.code then keys[0].code else key.code
    decreases |keys|
  {
    if |keys| > 0 && keys[0].code < key.code {
      InsertAscending(key, keys[1..]);
      var tail := Insert(key, keys[1..]);
      forall k | 0 <= k < |tail|
        ensures keys[0].code <= tail[k].code
      {
        assert tail[k] in multiset(keys[1..]) + multiset{key};
        if tail[k] in multiset(keys[1..]) {
          var m :| 0 <= m < |keys[1..]| && keys[1..][m] == tail[k];
          assert keys[1 + m] == tail[k];
        }
      }
    }
  }

  lemma {:induction false} SortAscending(keys: seq<GlyphKey>)
    requires AllCodes(keys)
    ensures Ascending(SortByCode(keys))
    decreases |keys|
  {
    if |keys| > 0 {
      SortAscending(keys[1..]);
      InsertAscending(keys[0], SortByCode(keys[1..]));
    }
  }

  /** The order of a `for ... in` loop over the glyph table. */
  function EnumerationOrder(t: GlyphTable): (keys: seq<GlyphKey>)
  {
    SortByCode(IndexKeys(t.order)) + OtherKeys(t.order)
  }

  lemma {:induction false} SplitKeys(order: seq<GlyphKey>)
    ensures multiset(IndexKeys(order)) + multiset(OtherKeys(order)) == multiset(order)
    decreases |order|
  {
    if |order| > 0 {
      SplitKeys(order[1..]);
      assert order == [order[0]] + order[1..];
    }
  }

  /**
   * The loop visits every stored key exactly once: the array indices first,
   * ascending, then every other key.
   */
  lemma EnumerationVisitsAll(t: GlyphTable)
    ensures multiset(EnumerationOrder(t)) == multiset(t.order)
    ensures var n := |IndexKeys(t.order)|;
      && AllCodes(EnumerationOrder(t)[..n]) && Ascending(EnumerationOrder(t)[..n])
      && (forall j :: 0 <= j < |EnumerationOrder(t)| ==> (j < n <==> IsIndexKey(EnumerationOrder(t)[j])))
  {
    SplitKeys(t.order);
    SortAscending(IndexKeys(t.order));
    var sorted := SortByCode(IndexKeys(t.order));
    var e := EnumerationOrder(t);
    assert e[..|sorted|] == sorted;
    forall j | 0 <= j < |sorted|
      ensures IsIndexKey(sorted[j])
    {
      assert sorted[j] in multiset(IndexKeys(t.order));
    }
  }

  /** `String.fromCharCode(parseInt(key))`: the code as a code unit; "undefined" reads as NaN, which gives 0. */
  function KeyUnit(k: GlyphKey): (u: CodeUnit)
    ensures k.CodeKey? && 0 <= k.code < 0x1_0000 ==> u == k.code
    ensures k.UndefinedKey? ==> u == 0
  {
    match k
    case CodeKey(c) => ToUint16(c)
    case UndefinedKey => 0
  }

  /** The text `toString` builds from keys visited in this order. */
  function Spelled(keys: seq<GlyphKey>): (text: JSString)
    ensures |text| == |keys|
    ensures forall j :: 0 <= j < |keys| ==> text[j] == KeyUnit(keys[j])
  {
    seq(|keys|, j requires 0 <= j < |keys| => KeyUnit(keys[j]))
  }

  /**
   * `toString` spells one code unit per stored glyph, and every glyph
   * whose code is a code unit is spelled by that code unit.
   */
  lemma SpelledAllGlyphs(t: GlyphTable)
    requires t.Valid()
    ensures |Spelled(EnumerationOrder(t))| == |t.order|
    ensures forall k :: k in t.entries && k.CodeKey? && 0 <= k.code < 0x1_0000 ==> k.code in Spelled(EnumerationOrder(t))
  {
    var e := EnumerationOrder(t);
    EnumerationVisitsAll(t);
    assert |e| == |multiset(e)| == |multiset(t.order)| == |t.order|;
    forall k | k in t.entries && k.CodeKey? && 0 <= k.code < 0x1_0000
      ensures k.code in Spelled(e)
    {
      assert k in multiset(t.order);
      var j :| 0 <= j < |e| && e[j] == k;
      assert Spelled(e)[j] == k.code;
    }
  }

  // ---------------------------------------------------------------------------
  // The objects `writeText` works on.

  /** The options of `writeText`; it normalises both and counts `textRepeat` down in place. */
  class WriteTextOptions {
    var textRepeat: Option<int>
    var kerningBias: Option<int>

    constructor (textRepeat: Option<int>, kerningBias: Option<int>)
      ensures this.textRepeat == textRepeat && this.kerningBias == kerningBias
    {
      this.textRepeat := textRepeat;
      this.kerningBias := kerningBias;
    }
  }

  /** `options.textRepeat`, undefined when no options are given. */
  function RepeatOf(options: WriteTextOptions?): Option<int>
    reads options
  {
    if options == null then None else options.textRepeat
  }

  /** `options.kerningBias`, undefined when no options are given. */
  function KerningOf(options: WriteTextOptions?): Option<int>
    reads options
  {
    if options == null then None else options.kerningBias
  }

  /** The bitmap `writeText` draws on: a width, a height and the rows it has, under integer keys. */
  class GlyphBitmap {
    var width: Number
    var height: int
    var rows: map<int, Row>

    function Value(): Canvas
      reads this
    {
      Canvas(width, height, rows)
    }

    /** `{ width: 0, height: points }`, then an empty array for each row from 0 to points - 1. */
    constructor (points: int)
      ensures Value() == FreshCanvas(points)
    {
      width, height, rows := Num(0), points, map[];
      new;
      var row := 0;
      while row < points
        invariant 0 <= row && (row <= points || row == 0)
        invariant width == Num(0) && height == points && rows == EmptyRows(row)
      {
        rows := rows[row := map[]];
        row := row + 1;
      }
      assert rows == EmptyRows(points);
    }
  }

  /** The bitmap as a value, or None when there is no bitmap. */
  function CanvasOf(bitmap: GlyphBitmap?): Option<Canvas>
    reads bitmap
  {
    if bitmap == null then None else Some(bitmap.Value())
  }

  /**
   * The two inner loops of `writeText`: every cell of glyph `g`, row by
   * row, OR-ed into the bitmap; `true` when a TypeError stops them.
   */
  method DrawGlyph(target: GlyphBitmap, g: Glyph, fontDescent: Option<int>) returns (thrown: bool)
    modifies target
    ensures Painted(target.Value(), thrown) == PaintFrom(old(target.Value()), g, fontDescent, 0, 0)
  {
    var y := 0;
    while y < |g.bitmap|
      invariant 0 <= y <= |g.bitmap|
      invariant PaintFrom(target.Value(), g, fontDescent, y, 0) == PaintFrom(old(target.Value()), g, fontDescent, 0, 0)
    {
      var x := 0;
      while x < |g.bitmap[y]|
        invariant 0 <= x <= |g.bitmap[y]|
        invariant PaintFrom(target.Value(), g, fontDescent, y, x) == PaintFrom(old(target.Value()), g, fontDescent, 0, 0)
      {
        if g.boundingBox.None? {
          return true;
        }
        var row := TargetRow(g.boundingBox.value, fontDescent, y);
        var column := TargetColumn(g.boundingBox.value, target.width, x);
        if row.NaN? || row.value !in target.rows {
          return true;
        }
        var cells := target.rows[row.value];
        target.rows := target.rows[row.value := cells[column := (column in cells && cells[column]) || g.bitmap[y][x]]];
        x := x + 1;
      }
      y := y + 1;
    }
    return false;
  }

  /**
   * The outer loop of `writeText`, one pass over the text: a code unit
   * without a glyph is skipped, a glyph is drawn and the width advanced;
   * `true` when a TypeError stops it.
   */
  method DrawPass(target: GlyphBitmap, text: JSString, glyphs: map<GlyphKey, Glyph>, fontDescent: Option<int>, kerning: int)
    returns (thrown: bool)
    modifies target
    ensures Painted(target.Value(), thrown) == PassFrom(old(target.Value()), text, 0, glyphs, fontDescent, kerning)
  {
    var i := 0;
    while i < |text|
      invariant 0 <= i <= |text|
      invariant PassFrom(target.Value(), text, i, glyphs, fontDescent, kerning)
        == PassFrom(old(target.Value()), text, 0, glyphs, fontDescent, kerning)
    {
      var key := CodeKey(text[i]);
      if key in glyphs {
        var g := glyphs[key];
        thrown := DrawGlyph(target, g, fontDescent);
        if thrown {
          return;
        }
        target.width := target.width.Plus(Advance(g, kerning));
      }
      i := i + 1;
    }
    return false;
  }

  // ---------------------------------------------------------------------------
  // The font object.

  class BDF {
    /** Empty until a `load` completes its loop. */
    var meta: Meta
    var glyphs: GlyphTable

    ghost predicate Valid()
      reads this
    {
      glyphs.Valid()
    }

    constructor ()
      ensures meta == NoMeta && glyphs == NoGlyphs && Valid()
    {
      meta := NoMeta;
      glyphs := NoGlyphs;
    }

    /**
     * `toString()`: one code unit per stored glyph, in the order a
     * `for ... in` loop visits the table.
     */
    method ToString() returns (text: JSString)
      ensures text == Spelled(EnumerationOrder(glyphs))
    {
      var keys := EnumerationOrder(glyphs);
      text := [];
      for j := 0 to |keys|
        invariant |text| == j
        invariant forall k :: 0 <= k < j ==> text[k] == KeyUnit(keys[k])
      {
        text := text + [KeyUnit(keys[j])];
      }
    }

    /**
     * One pass of the reader's loop on line `i`, on the loop's local state
     * `st`: the index of the next line and the new local state, or None for
     * a TypeError. ENDCHAR stores the glyph in the table in place.
     */
    method ReadFontLine(lines: Lines, i: nat, st: Reader) returns (r: Option<(nat, Reader)>)
      requires i < |lines|
      modifies this
      ensures meta == old(meta)
      ensures r.None? ==> Step(lines, i, st, old(glyphs)) == Abort && glyphs == old(glyphs)
      ensures r.Some? ==> Step(lines, i, st, old(glyphs)) == Next(r.value.0, r.value.1, glyphs)
    {
      var tokens := Fields(lines[i]);
      var d := DirectiveOf(tokens[0]);
      if d == Bitmap {
        r := ReadBitmapLine(lines, i, st);
      } else if d == EndChar {
        if st.current.None? {
          return None;
        }
        var g := st.current.value;
        glyphs := glyphs.Store(KeyOf(g.code), g);
        return Some((i + 1, Reader(Pop(st.depth), None, st.meta)));
      } else {
        var next := ReadLine(d, tokens, st);
        if next.None? {
          return None;
        }
        return Some((i + 1, next.value));
      }
    }

    /** A BITMAP line: the next `size` lines are the rows of the current glyph. */
    method ReadBitmapLine(lines: Lines, i: nat, st: Reader) returns (r: Option<(nat, Reader)>)
      requires i < |lines| && DirectiveOf(Fields(lines[i])[0]) == Bitmap
      ensures r.None? ==> Step(lines, i, st, glyphs) == Abort
      ensures r.Some? ==> Step(lines, i, st, glyphs) == Next(r.value.0, r.value.1, glyphs)
    {
      if st.meta.size.None? {
        return None;
      }
      var n := st.meta.size.value.points;
      if n <= 0 {
        return Some((i + 1, st));
      }
      if st.current.None? || st.current.value.boundingBox.None? {
        return None;
      }
      var g := ReadGlyphBitmap(lines, i, st.current.value, n);
      return Some((i + 1 + n, st.(current := Some(g))));
    }

    /**
     * `load(data)`: glyphs are stored in place as their ENDCHAR is read;
     * the global information replaces the old one once every line has
     * been read, and the balance check comes after that.
     */
    method Load(data: JSString) returns (error: Option<LoadError>)
      requires Valid()
      modifies this
      ensures Loaded(error, meta, glyphs) == LoadSpec(data, old(meta), old(glyphs))
      ensures Valid()
    {
      LoadValid(data, old(meta), old(glyphs));
      if |data| == 0 {
        return Some(NotAFont);
      }
      var lines := FontLines(data);
      var st := Reader(0, None, NoMeta);
      var i := 0;
      while i < |lines|
        invariant meta == old(meta)
        invariant Run(lines, 0, Reader(0, None, NoMeta), old(glyphs)) == Run(lines, i, st, glyphs)
        decreases |lines| - i
      {
        ghost var table := glyphs;
        var r := ReadFontLine(lines, i, st);
        if r.None? {
          RunAbort(lines, i, st, table);
          return Some(TypeError);
        }
        RunNext(lines, i, st, table, r.value.0, r.value.1, glyphs);
        i, st := r.value.0, r.value.1;
      }
      meta := st.meta;
      if st.depth > 0 {
        return Some(Unbalanced);
      }
      return None;
    }

    /**
     * `writeText(text, options, bitmap)`: draws the text on the bitmap, or
     * on a new one `points` high, once and then once more per positive
     * `textRepeat`, counting the caller's `textRepeat` down. Returns null
     * where the source throws a TypeError; the cells drawn before it stay
     * in the caller's bitmap.
     */
    method WriteText(text: JSString, options: WriteTextOptions?, bitmap: GlyphBitmap?) returns (result: GlyphBitmap?)
      modifies options, bitmap
      ensures var w := WriteSpec(meta, glyphs.entries, text, old(RepeatOf(options)), old(KerningOf(options)), old(CanvasOf(bitmap)));
        && (result == null <==> w.thrown)
        && (result != null ==> Some(result.Value()) == w.canvas)
        && (bitmap != null ==> Some(bitmap.Value()) == w.canvas)
        && (options != null ==> options.textRepeat == Some(w.textRepeat) && options.kerningBias == Some(w.kerningBias))
      ensures result != null ==> if bitmap == null then fresh(result) else result == bitmap
    {
      var opts := options;
      if opts == null {
        opts := new WriteTextOptions(None, None);
      }
      if opts.textRepeat.None? || opts.textRepeat.value == 0 {
        opts.textRepeat := Some(0);
      }
      if opts.kerningBias.None? || opts.kerningBias.value == 0 {
        opts.kerningBias := Some(0);
      }
      if meta.size.None? || meta.properties.None? {
        return null;
      }
      var target := bitmap;
      if target == null {
        target := new GlyphBitmap(meta.size.value.points);
      }
      result := WriteTextOn(text, opts, target);
    }

    /**
     * The rest of `writeText` once its options are normalised and its
     * bitmap exists: one pass, then, while `textRepeat` is positive, the
     * call on the same bitmap with `textRepeat` one less. Normalising the
     * options again and reading the global information again, as that
     * call does, changes nothing and cannot fail.
     */
    method WriteTextOn(text: JSString, opts: WriteTextOptions, target: GlyphBitmap) returns (result: GlyphBitmap?)
      requires opts.textRepeat.Some? && opts.kerningBias.Some?
      requires meta.size.Some? && meta.properties.Some?
      modifies opts, target
      ensures var r := Passes(old(target.Value()), text, glyphs.entries, meta.properties.value.fontDescent,
                              old(opts.kerningBias.value), old(opts.textRepeat.value));
        && target.Value() == r.painted.canvas
        && (result == null <==> r.painted.thrown)
        && (result != null ==> result == target)
        && opts.textRepeat == Some(r.textRepeat) && opts.kerningBias == old(opts.kerningBias)
      decreases if opts.textRepeat.value > 0 then opts.textRepeat.value else 0
    {
      var textRepeat, kerningBias := opts.textRepeat.value, opts.kerningBias.value;
      var thrown := DrawPass(target, text, glyphs.entries, meta.properties.value.fontDescent, kerningBias);
      if thrown {
        return null;
      }
      if textRepeat > 0 {
        opts.textRepeat := Some(textRepeat - 1);
        result := WriteTextOn(text, opts, target);
        return;
      }
      return target;
    }
  }
}
