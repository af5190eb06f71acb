/**
 * The font records the BDF reader builds and the reader itself, stated as
 * functions over the lines of the file: one step per line, the way the
 * reader's loop walks them. The directives are those of the Glyph Bitmap
 * Distribution Format (Adobe Technical Note #5005, section 3.1 "Global
 * Font Information" and section 3.2 "Individual Glyph Information"); the
 * reader departs from the format where noted below.
 */
module BdfFormat {
  import opened Wrappers
  import opened Bits
  import opened Js
  import Utils

  // ---------------------------------------------------------------------------
  // Font records.

  /** A whitespace-separated field of a line; `None` is a field past the end (undefined). */
  type Token = Option<JSString>

  datatype Size = Size(points: int, resolutionX: int, resolutionY: int)

  datatype BoundingBox = BoundingBox(width: int, height: int, x: int, y: int)

  datatype Properties = Properties(fontDescent: Option<int>, fontAscent: Option<int>, defaultChar: Option<int>)

  /** Global font information; `totalChars` keeps the CHARS field as written. */
  datatype Meta = Meta(
    version: Token,
    name: Token,
    size: Option<Size>,
    boundingBox: Option<BoundingBox>,
    properties: Option<Properties>,
    totalChars: Token)

  const NoMeta := Meta(None, None, None, None, None, None)

  /**
   * One glyph. `bytes` holds the value of each bitmap line (`None` for a
   * line that is not hexadecimal, NaN); `bitmap` holds one row per line.
   */
  datatype Glyph = Glyph(
    name: Token,
    code: Option<int>,
    character: Option<CodeUnit>,
    scalableWidthX: Option<int>,
    scalableWidthY: Option<int>,
    deviceWidthX: Option<int>,
    deviceWidthY: Option<int>,
    boundingBox: Option<BoundingBox>,
    bytes: seq<Option<int>>,
    bitmap: seq<seq<bool>>)

  /** A glyph as STARTCHAR opens it: a name and nothing else. */
  function NewGlyph(name: Token): (g: Glyph)
    ensures g.name == name && g.code.None? && g.boundingBox.None? && g.deviceWidthX.None?
    ensures g.bytes == [] && g.bitmap == []
  {
    Glyph(name, None, None, None, None, None, None, None, [], [])
  }

  /**
   * The property name a glyph is stored under: the string of its code, or
   * "undefined" for a glyph without ENCODING. Distinct codes give distinct
   * names, and no code gives "undefined".
   */
  datatype GlyphKey = CodeKey(code: int) | UndefinedKey

  function KeyOf(code: Option<int>): (k: GlyphKey)
    ensures k.CodeKey? <==> code.Some?
    ensures code.Some? ==> k.code == code.value
  {
    match code
    case None => UndefinedKey
    case Some(c) => CodeKey(c)
  }

  /** The glyph table: its entries and the order in which their names were first added. */
  datatype GlyphTable = GlyphTable(entries: map<GlyphKey, Glyph>, order: seq<GlyphKey>) {
    ghost predicate Valid() {
      (forall i, j :: 0 <= i < j < |order| ==> order[i] != order[j])
      && (forall k :: k in entries <==> k in order)
    }

    /** `glyphs[key] = g`: a new name goes to the end of the order, an existing one keeps its place. */
    function Store(k: GlyphKey, g: Glyph): (t: GlyphTable)
      ensures t.entries == entries[k := g]
      ensures k in entries ==> t.order == order
      ensures k !in entries ==> t.order == order + [k]
    {
      GlyphTable(entries[k := g], if k in entries then order else order + [k])
    }
  }

  const NoGlyphs := GlyphTable(map[], [])

  lemma StoreValid(t: GlyphTable, k: GlyphKey, g: Glyph)
    requires t.Valid()
    ensures t.Store(k, g).Valid()
  {
    var s := t.Store(k, g);
    if k !in t.entries {
      forall i, j | 0 <= i < j < |s.order|
        ensures s.order[i] != s.order[j]
      {
        if j == |t.order| {
          assert s.order[i] == t.order[i];
        }
      }
    }
  }

  // ---------------------------------------------------------------------------
  // Lines and fields.

  type Lines = seq<JSString>

  /** `data.split(/[\r\n]+/g)`. */
  function FontLines(data: JSString): (lines: Lines)
    ensures |lines| >= 1
  {
    Split(data, IsLineBreak)
  }

  /** `line.split(/\s+/)`. */
  function Fields(line: JSString): (tokens: seq<JSString>)
    ensures |tokens| >= 1
  {
    Split(line, IsWhiteSpace)
  }

  /** `tokens[k]`, undefined past the end. */
  function Tok(tokens: seq<JSString>, k: nat): (t: Token)
    ensures t.Some? <==> k < |tokens|
  {
    if k < |tokens| then Some(tokens[k]) else None
  }

  /** `parseInt(tokens[k]) | 0`: a field that is absent or not a number gives 0. */
  function Int(tokens: seq<JSString>, k: nat): (v: int)
    ensures IsInt32(v)
  {
    OrZero(ParseInt(Arg(Tok(tokens, k)), Auto))
  }

  /** The directives the reader acts on; every other first field is `Other`. */
  datatype Directive =
    | StartFont | Font | SizeLine | FontBoundingBox | StartProperties
    | FontDescent | FontAscent | DefaultChar | EndProperties | Chars
    | StartChar | Encoding | SWidth | DWidth | Bbx | Bitmap | EndChar | EndFont
    | Other

  function Keyword(d: Directive): (s: string)
    ensures forall j :: 0 <= j < |s| ==> 'A' <= s[j] <= '_'
  {
    match d
    case StartFont => "STARTFONT"
    case Font => "FONT"
    case SizeLine => "SIZE"
    case FontBoundingBox => "FONTBOUNDINGBOX"
    case StartProperties => "STARTPROPERTIES"
    case FontDescent => "FONT_DESCENT"
    case FontAscent => "FONT_ASCENT"
    case DefaultChar => "DEFAULT_CHAR"
    case EndProperties => "ENDPROPERTIES"
    case Chars => "CHARS"
    case StartChar => "STARTCHAR"
    case Encoding => "ENCODING"
    case SWidth => "SWIDTH"
    case DWidth => "DWIDTH"
    case Bbx => "BBX"
    case Bitmap => "BITMAP"
    case EndChar => "ENDCHAR"
    case EndFont => "ENDFONT"
    case Other => ""
  }

  /** The keyword as code units; every keyword is upper-case ASCII. */
  function KeywordUnits(d: Directive): (u: JSString)
    ensures |u| == |Keyword(d)|
    ensures forall j :: 0 <= j < |u| ==> 0x41 <= u[j] <= 0x5F
  {
    Units(Keyword(d))
  }

  /** The `switch` on the first field of a line. */
  function DirectiveOf(decl: JSString): (d: Directive)
    ensures d != Other ==> decl == KeywordUnits(d)
  {
    if decl == KeywordUnits(StartFont) then StartFont
    else if decl == KeywordUnits(Font) then Font
    else if decl == KeywordUnits(SizeLine) then SizeLine
    else if decl == KeywordUnits(FontBoundingBox) then FontBoundingBox
    else if decl == KeywordUnits(StartProperties) then StartProperties
    else if decl == KeywordUnits(FontDescent) then FontDescent
    else if decl == KeywordUnits(FontAscent) then FontAscent
    else if decl == KeywordUnits(DefaultChar) then DefaultChar
    else if decl == KeywordUnits(EndProperties) then EndProperties
    else if decl == KeywordUnits(Chars) then Chars
    else if decl == KeywordUnits(StartChar) then StartChar
    else if decl == KeywordUnits(Encoding) then Encoding
    else if decl == KeywordUnits(SWidth) then SWidth
    else if decl == KeywordUnits(DWidth) then DWidth
    else if decl == KeywordUnits(Bbx) then Bbx
    else if decl == KeywordUnits(Bitmap) then Bitmap
    else if decl == KeywordUnits(EndChar) then EndChar
    else if decl == KeywordUnits(EndFont) then EndFont
    else Other
  }

  // ---------------------------------------------------------------------------
  // Bitmap lines. The reader takes SIZE-points lines after BITMAP, not the
  // BBX height the format prescribes, and spreads each line's bits over
  // nextPowerOf2(BBX width) + 1 entries, the lowest bit last.

  /** `fontLines[k]`, undefined past the end. */
  function LineAt(lines: Lines, k: nat): Token {
    if k < |lines| then Some(lines[k]) else None
  }

  /** `parseInt(fontLines[i + 1 + r], 16)` for the `n` lines after line `i`. */
  function HexRows(lines: Lines, i: nat, n: nat): (bytes: seq<Option<int>>)
    ensures |bytes| == n
  {
    seq(n, r requires 0 <= r < n => ParseInt(Arg(LineAt(lines, i + 1 + r)), Hex))
  }

  /** Entry `hint - b` is `!!(byte & (1 << b))`; NaN lights nothing. */
  function RowBits(byte: Option<int>, hint: nat): (row: seq<bool>)
    ensures |row| == hint + 1
    ensures forall j :: 0 <= j <= hint ==> (row[j] <==> byte.Some? && AndShiftedOne(byte.value, hint - j))
  {
    seq(hint + 1, j requires 0 <= j <= hint => byte.Some? && AndShiftedOne(byte.value, hint - j))
  }

  function DecodeRows(bytes: seq<Option<int>>, hint: nat): (rows: seq<seq<bool>>)
    ensures |rows| == |bytes|
    ensures forall r :: 0 <= r < |bytes| ==> rows[r] == RowBits(bytes[r], hint)
  {
    seq(|bytes|, r requires 0 <= r < |bytes| => RowBits(bytes[r], hint))
  }

  /** Rows `0 .. |rows|` replaced, rows past them kept: `bitmap[row] = ...` on a JavaScript array. */
  function Overlay(bitmap: seq<seq<bool>>, rows: seq<seq<bool>>): (r: seq<seq<bool>>)
    ensures |r| == if |bitmap| < |rows| then |rows| else |bitmap|
    ensures forall k :: 0 <= k < |rows| ==> r[k] == rows[k]
    ensures forall k :: |rows| <= k < |bitmap| ==> r[k] == bitmap[k]
  {
    var n := if |bitmap| < |rows| then |rows| else |bitmap|;
    seq(n, k requires 0 <= k < n => if k < |rows| then rows[k] else bitmap[k])
  }

  /** The glyph after the BITMAP section: `n` more bytes and its first `n` rows decoded from them. */
  function ReadBitmap(lines: Lines, i: nat, g: Glyph, n: nat): (h: Glyph)
    requires g.boundingBox.Some?
  {
    var bytes := HexRows(lines, i, n);
    var hint := Utils.NextPowerOf2Spec(g.boundingBox.value.width);
    g.(bytes := g.bytes + bytes, bitmap := Overlay(g.bitmap, DecodeRows(bytes, hint)))
  }

  // ---------------------------------------------------------------------------
  // The reader, one line at a time.

  /**
   * What the reader's loop carries from line to line: the depth of the
   * declaration stack (only its length is ever read), the glyph being
   * read and the global information so far.
   */
  datatype Reader = Reader(depth: nat, current: Option<Glyph>, meta: Meta)

  /** The result of one line: a TypeError, or the index of the next line and the new state. */
  datatype StepResult =
    | Abort
    | Next(next: nat, reader: Reader, table: GlyphTable)

  /** `declarationStack.pop()`: popping an empty stack leaves it empty. */
  function Pop(depth: nat): (d: nat)
    ensures d == if depth == 0 then 0 else depth - 1
  {
    if depth == 0 then 0 else depth - 1
  }

  /**
   * What a line other than BITMAP and ENDCHAR does to the reader, by its
   * directive and fields. None is the TypeError of a directive that needs
   * the property block or the current glyph and finds it missing.
   */
  function ReadLine(d: Directive, tokens: seq<JSString>, st: Reader): (r: Option<Reader>)
    requires d != Bitmap && d != EndChar
    ensures r.Some? ==> r.value.depth == DepthAfter(d, st.depth)
    ensures r.None? <==>
      || (d in {FontDescent, FontAscent, DefaultChar} && st.meta.properties.None?)
      || (d in {Encoding, SWidth, DWidth, Bbx} && st.current.None?)
    ensures d == Other ==> r == Some(st)
  {
    var meta := st.meta;
    match d
    case StartFont => Some(Reader(st.depth + 1, st.current, meta.(version := Tok(tokens, 1))))
    case Font => Some(st.(meta := meta.(name := Tok(tokens, 1))))
    case SizeLine => Some(st.(meta := meta.(size := Some(Size(Int(tokens, 1), Int(tokens, 2), Int(tokens, 3))))))
    case FontBoundingBox =>
      Some(st.(meta := meta.(boundingBox := Some(BoundingBox(Int(tokens, 1), Int(tokens, 2), Int(tokens, 3), Int(tokens, 4))))))
    case StartProperties => Some(Reader(st.depth + 1, st.current, meta.(properties := Some(Properties(None, None, None)))))
    case FontDescent =>
      if meta.properties.None? then None
      else Some(st.(meta := meta.(properties := Some(meta.properties.value.(fontDescent := Some(Int(tokens, 1)))))))
    case FontAscent =>
      if meta.properties.None? then None
      else Some(st.(meta := meta.(properties := Some(meta.properties.value.(fontAscent := Some(Int(tokens, 1)))))))
    case DefaultChar =>
      if meta.properties.None? then None
      else Some(st.(meta := meta.(properties := Some(meta.properties.value.(defaultChar := Some(Int(tokens, 1)))))))
    case EndProperties => Some(st.(depth := Pop(st.depth)))
    case Chars => Some(st.(meta := meta.(totalChars := Tok(tokens, 1))))
    case StartChar => Some(Reader(st.depth + 1, Some(NewGlyph(Tok(tokens, 1))), meta))
    case Encoding =>
      if st.current.None? then None
      else
        var code := Int(tokens, 1);
        Some(st.(current := Some(st.current.value.(code := Some(code), character := Some(ToUint16(code))))))
    case SWidth =>
      if st.current.None? then None
      else Some(st.(current := Some(st.current.value.(scalableWidthX := Some(Int(tokens, 1)), scalableWidthY := Some(Int(tokens, 2))))))
    case DWidth =>
      if st.current.None? then None
      else Some(st.(current := Some(st.current.value.(deviceWidthX := Some(Int(tokens, 1)), deviceWidthY := Some(Int(tokens, 2))))))
    case Bbx =>
      if st.current.None? then None
      else Some(st.(current := Some(st.current.value.(boundingBox := Some(BoundingBox(Int(tokens, 1), Int(tokens, 2), Int(tokens, 3), Int(tokens, 4)))))))
    case EndFont => Some(st.(depth := Pop(st.depth)))
    case Other => Some(st)
  }

  /**
   * One iteration of the reader's loop on line `i`. BITMAP reads the
   * following lines as well and stops the reader when SIZE, the current
   * glyph or its BBX is missing; ENDCHAR stores the current glyph.
   */
  function Step(lines: Lines, i: nat, st: Reader, table: GlyphTable): (r: StepResult)
    requires i < |lines|
    ensures r.Next? ==> r.next > i
  {
    var tokens := Fields(lines[i]);
    var d := DirectiveOf(tokens[0]);
    if d == Bitmap then
      if st.meta.size.None? then Abort
      else if st.meta.size.value.points <= 0 then Next(i + 1, st, table)
      else if st.current.None? || st.current.value.boundingBox.None? then Abort
      else
        var n := st.meta.size.value.points;
        Next(i + 1 + n, st.(current := Some(ReadBitmap(lines, i, st.current.value, n))), table)
    else if d == EndChar then
      if st.current.None? then Abort
      else
        var g := st.current.value;
        Next(i + 1, Reader(Pop(st.depth), None, st.meta), table.Store(KeyOf(g.code), g))
    else
      match ReadLine(d, tokens, st)
      case None => Abort
      case Some(st') => Next(i + 1, st', table)
  }

  datatype Outcome =
    | Aborted(table: GlyphTable)
    | Finished(reader: Reader, table: GlyphTable)

  /** The reader's loop from line `i` on. */
  function Run(lines: Lines, i: nat, st: Reader, table: GlyphTable): (o: Outcome)
    decreases |lines| - i
  {
    if i >= |lines| then Finished(st, table)
    else match Step(lines, i, st, table)
      case Abort => Aborted(table)
      case Next(j, st', t') => Run(lines, j, st', t')
  }

  datatype LoadError =
    | NotAFont      // "Couldn't understand this font": empty input
    | TypeError     // a directive found its section or field missing
    | Unbalanced    // "Couldn't correctly parse font": sections left open

  /** The outcome of `load`: the error it throws, if any, and the font's new global information and glyphs. */
  datatype Loaded = Loaded(error: Option<LoadError>, meta: Meta, table: GlyphTable)

  /**
   * `load(data)` on a font with information `meta` and glyphs `table`.
   * Glyphs are stored as their ENDCHAR is read, so those stored before a
   * TypeError remain; the global information is replaced only when the
   * loop completes, and before the balance check.
   */
  function LoadSpec(data: JSString, meta: Meta, table: GlyphTable): (r: Loaded)
    ensures |data| == 0 ==> r == Loaded(Some(NotAFont), meta, table)
  {
    if |data| == 0 then Loaded(Some(NotAFont), meta, table)
    else match Run(FontLines(data), 0, Reader(0, None, NoMeta), table)
      case Aborted(t) => Loaded(Some(TypeError), meta, t)
      case Finished(st, t) => Loaded(if st.depth > 0 then Some(Unbalanced) else None, st.meta, t)
  }

  // ---------------------------------------------------------------------------
  // Properties of one step.

  /** The declaration stack's depth after a directive: the names on it are never read. */
  function DepthAfter(d: Directive, depth: nat): (r: nat)
    ensures d in {StartFont, StartProperties, StartChar} ==> r == depth + 1
    ensures d in {EndProperties, EndChar, EndFont} && depth > 0 ==> r == depth - 1
    ensures d !in {StartFont, StartProperties, StartChar, EndProperties, EndChar, EndFont} ==> r == depth
  {
    match d
    case StartFont | StartProperties | StartChar => depth + 1
    case EndProperties | EndChar | EndFont => Pop(depth)
    case _ => depth
  }

  /** A line whose first field is no directive changes nothing. */
  lemma StepOther(lines: Lines, i: nat, st: Reader, table: GlyphTable)
    requires i < |lines| && DirectiveOf(Fields(lines[i])[0]) == Other
    ensures Step(lines, i, st, table) == Next(i + 1, st, table)
  {
  }

  /** Only directives that need the property block, the current glyph, SIZE or BBX can stop the reader. */
  lemma StepAborts(lines: Lines, i: nat, st: Reader, table: GlyphTable)
    requires i < |lines| && Step(lines, i, st, table).Abort?
    ensures DirectiveOf(Fields(lines[i])[0]) in {FontDescent, FontAscent, DefaultChar, Encoding, SWidth, DWidth, Bbx, Bitmap, EndChar}
  {
  }

  /** A step that moves on goes to the next line unless it read a bitmap, and changes the depth by its directive alone. */
  lemma StepDepth(lines: Lines, i: nat, st: Reader, table: GlyphTable)
    requires i < |lines| && Step(lines, i, st, table).Next?
    ensures var d := DirectiveOf(Fields(lines[i])[0]);
      var r := Step(lines, i, st, table);
      && (d != Bitmap ==> r.next == i + 1)
      && r.reader.depth == DepthAfter(d, st.depth)
  {
    var tokens := Fields(lines[i]);
    var d := DirectiveOf(tokens[0]);
    if d != Bitmap && d != EndChar {
      var r := ReadLine(d, tokens, st);
      assert r.Some? && Step(lines, i, st, table) == Next(i + 1, r.value, table);
    }
  }

  /** ENDCHAR stores the glyph being read under its code and closes it. */
  lemma EndCharStores(lines: Lines, i: nat, st: Reader, table: GlyphTable)
    requires i < |lines| && DirectiveOf(Fields(lines[i])[0]) == EndChar
    ensures st.current.None? ==> Step(lines, i, st, table) == Abort
    ensures st.current.Some? ==> Step(lines, i, st, table) == Next(i + 1, Reader(Pop(st.depth), None, st.meta), table.Store(KeyOf(st.current.value.code), st.current.value))
  {
  }

  /** Storing twice under one name is storing the second glyph once: a later glyph with the same code replaces the earlier one in place. */
  lemma StoreTwice(t: GlyphTable, k: GlyphKey, g1: Glyph, g2: Glyph)
    ensures t.Store(k, g1).Store(k, g2) == t.Store(k, g2)
  {
    assert t.entries[k := g1][k := g2] == t.entries[k := g2];
  }

  /** Only ENDCHAR touches the glyph table. */
  lemma StepTable(lines: Lines, i: nat, st: Reader, table: GlyphTable)
    requires i < |lines| && Step(lines, i, st, table).Next?
    ensures var r := Step(lines, i, st, table);
      if DirectiveOf(Fields(lines[i])[0]) == EndChar
      then st.current.Some? && r.table == table.Store(KeyOf(st.current.value.code), st.current.value)
      else r.table == table
  {
    var d := DirectiveOf(Fields(lines[i])[0]);
    if d != Bitmap && d != EndChar {
      assert ReadLine(d, Fields(lines[i]), st).Some?;
    }
  }

  lemma StepValid(lines: Lines, i: nat, st: Reader, table: GlyphTable)
    requires i < |lines| && table.Valid()
    ensures Step(lines, i, st, table).Next? ==> Step(lines, i, st, table).table.Valid()
    ensures Step(lines, i, st, table).Next? ==> table.entries.Keys <= Step(lines, i, st, table).table.entries.Keys
  {
    if Step(lines, i, st, table).Next? {
      StepTable(lines, i, st, table);
    }
    if st.current.Some? {
      StoreValid(table, KeyOf(st.current.value.code), st.current.value);
    }
  }

  /** The reader keeps the glyph table well formed and never removes a glyph, whether it finishes or stops. */
  lemma {:induction false} RunValid(lines: Lines, i: nat, st: Reader, table: GlyphTable)
    requires table.Valid()
    ensures Run(lines, i, st, table).table.Valid()
    ensures table.entries.Keys <= Run(lines, i, st, table).table.entries.Keys
    decreases |lines| - i
  {
    if i < |lines| {
      StepValid(lines, i, st, table);
      match Step(lines, i, st, table)
      case Abort =>
      case Next(j, st', t') => RunValid(lines, j, st', t');
    }
  }

  /** `load` keeps the glyph table well formed and keeps every glyph it had. */
  lemma LoadValid(data: JSString, meta: Meta, table: GlyphTable)
    requires table.Valid()
    ensures LoadSpec(data, meta, table).table.Valid()
    ensures table.entries.Keys <= LoadSpec(data, meta, table).table.entries.Keys
  {
    if |data| > 0 {
      RunValid(FontLines(data), 0, Reader(0, None, NoMeta), table);
    }
  }

  /** A stopped reader leaves the global information as it was; a finished one replaces it, even when the sections do not balance. */
  lemma LoadMeta(data: JSString, meta: Meta, table: GlyphTable)
    requires |data| > 0
    ensures var r := LoadSpec(data, meta, table);
      var o := Run(FontLines(data), 0, Reader(0, None, NoMeta), table);
      && (r.error == Some(TypeError) <==> o.Aborted?)
      && (r.error == Some(TypeError) ==> r.meta == meta)
      && (r.error == Some(Unbalanced) <==> o.Finished? && o.reader.depth > 0)
      && (o.Finished? ==> r.meta == o.reader.meta)
  {
  }

  // ---------------------------------------------------------------------------
  // Reading the lines a font writer produces.

  /** Two keywords differ in length or in one of their first six letters. */
  lemma KeywordStringsDiffer(a: Directive, b: Directive)
    requires a != b && a != Other && b != Other
    ensures Keyword(a) != Keyword(b)
  {
  }

  /** Two keywords are never the same units. */
  lemma KeywordsDiffer(a: Directive, b: Directive)
    requires a != b && a != Other && b != Other
    ensures KeywordUnits(a) != KeywordUnits(b)
  {
    KeywordStringsDiffer(a, b);
    UnitsInjective(Keyword(a), Keyword(b));
  }

  /** Each keyword selects its own directive: no keyword shadows another in the `switch`. */
  lemma DirectiveOfKeyword(d: Directive)
    requires d != Other
    ensures DirectiveOf(KeywordUnits(d)) == d
  {
    var e := DirectiveOf(KeywordUnits(d));
    if e == Other {
      OtherIsNoKeyword(KeywordUnits(d), d);
    } else if e != d {
      KeywordsDiffer(e, d);
    }
  }

  /** A first field the `switch` does not select is none of the keywords. */
  lemma OtherIsNoKeyword(decl: JSString, d: Directive)
    requires DirectiveOf(decl) == Other && d != Other
    ensures decl != KeywordUnits(d)
  {
    match d
    case StartFont =>
    case Font =>
    case SizeLine =>
    case FontBoundingBox =>
    case StartProperties =>
    case FontDescent =>
    case FontAscent =>
    case DefaultChar =>
    case EndProperties =>
    case Chars =>
    case StartChar =>
    case Encoding =>
    case SWidth =>
    case DWidth =>
    case Bbx =>
    case Bitmap =>
    case EndChar =>
    case EndFont =>
  }

  /** The fields of a BBX line. */
  function BbxWords(box: BoundingBox): (words: seq<JSString>)
    ensures |words| == 5
  {
    [KeywordUnits(Bbx), IntString(box.width), IntString(box.height), IntString(box.x), IntString(box.y)]
  }

  /** A BBX line as a font file writes it: the keyword and four decimal integers, one space apart. */
  function BbxLine(box: BoundingBox): (line: JSString)
    ensures |line| > 0
  {
    JoinHead(BbxWords(box), 0x20);
    Join(BbxWords(box), 0x20)
  }

  lemma BbxFields(box: BoundingBox)
    ensures Fields(BbxLine(box)) == BbxWords(box)
  {
    var words := BbxWords(box);
    assert KeywordUnits(Bbx) == [0x42, 0x42, 0x58];
    forall k, j | 0 <= k < |words| && 0 <= j < |words[k]|
      ensures !IsWhiteSpace(words[k][j])
    {
    }
    assert IsWhiteSpace(0x20);
    SplitJoin(words, 0x20, IsWhiteSpace);
  }

  /** BBX on a glyph being read sets its box from the four fields after the keyword. */
  lemma StepBbx(lines: Lines, i: nat, st: Reader, table: GlyphTable)
    requires i < |lines| && DirectiveOf(Fields(lines[i])[0]) == Bbx && st.current.Some?
    ensures var t := Fields(lines[i]);
      Step(lines, i, st, table) == Next(i + 1, st.(current := Some(st.current.value.(boundingBox := Some(BoundingBox(Int(t, 1), Int(t, 2), Int(t, 3), Int(t, 4)))))), table)
  {
  }

  /** Reading a written BBX line gives back the bounding box it was written from, on the glyph being read and nowhere else. */
  lemma BbxRoundTrip(lines: Lines, i: nat, st: Reader, table: GlyphTable, box: BoundingBox)
    requires i < |lines| && lines[i] == BbxLine(box) && st.current.Some?
    requires IsInt32(box.width) && IsInt32(box.height) && IsInt32(box.x) && IsInt32(box.y)
    ensures Step(lines, i, st, table) == Next(i + 1, st.(current := Some(st.current.value.(boundingBox := Some(box)))), table)
  {
    var tokens := Fields(lines[i]);
    assert tokens == BbxWords(box) by { BbxFields(box); }
    assert DirectiveOf(tokens[0]) == Bbx by { DirectiveOfKeyword(Bbx); }
    assert Int(tokens, 1) == box.width by { ParseIntString(box.width); }
    assert Int(tokens, 2) == box.height by { ParseIntString(box.height); }
    assert Int(tokens, 3) == box.x by { ParseIntString(box.x); }
    assert Int(tokens, 4) == box.y by { ParseIntString(box.y); }
    StepBbx(lines, i, st, table);
  }

  /** BITMAP with a positive point size, on a glyph with a box, reads the glyph's bitmap from the next lines. */
  lemma StepBitmap(lines: Lines, i: nat, st: Reader, table: GlyphTable)
    requires i < |lines| && DirectiveOf(Fields(lines[i])[0]) == Bitmap
    requires st.meta.size.Some? && st.meta.size.value.points > 0
    requires st.current.Some? && st.current.value.boundingBox.Some?
    ensures var n := st.meta.size.value.points;
      Step(lines, i, st, table) == Next(i + 1 + n, st.(current := Some(ReadBitmap(lines, i, st.current.value, n))), table)
  {
  }

  /**
   * Reading a bitmap adds `n` bytes to the glyph and replaces its first
   * `n` rows with their decoded bits; every other part of the glyph is
   * unchanged.
   */
  lemma ReadBitmapShape(lines: Lines, i: nat, g: Glyph, n: nat)
    requires g.boundingBox.Some?
    ensures var h := ReadBitmap(lines, i, g, n);
      var hint := Utils.NextPowerOf2Spec(g.boundingBox.value.width);
      && h.(bytes := g.bytes, bitmap := g.bitmap) == g
      && h.bytes == g.bytes + HexRows(lines, i, n)
      && |h.bitmap| == (if |g.bitmap| < n then n else |g.bitmap|)
      && (forall k :: n <= k < |g.bitmap| ==> h.bitmap[k] == g.bitmap[k])
      && (forall k :: 0 <= k < n ==> |h.bitmap[k]| == hint + 1)
      && (forall k, j :: 0 <= k < n && 0 <= j <= hint ==>
            (h.bitmap[k][j] <==> h.bytes[|g.bytes| + k].Some? && AndShiftedOne(h.bytes[|g.bytes| + k].value, hint - j)))
  {
    var h := ReadBitmap(lines, i, g, n);
    var bytes := HexRows(lines, i, n);
    var hint := Utils.NextPowerOf2Spec(g.boundingBox.value.width);
    forall k | 0 <= k < n
      ensures h.bytes[|g.bytes| + k] == bytes[k] && h.bitmap[k] == RowBits(bytes[k], hint)
    {
    }
  }

  /** A row of at most `hint` bits leaves entry 0 (bit `hint`) blank: glyphs are drawn one column right of their box. */
  lemma FirstColumnBlank(byte: int, hint: nat)
    requires 0 <= byte < Pow2(hint) && hint < 32
    ensures !RowBits(Some(byte), hint)[0]
  {
    assert IsInt32(byte) by {
      if hint < 31 {
        Pow2Add(hint, 31 - hint);
        MulAtLeast(Pow2(hint), Pow2(31 - hint));
      }
      Pow2Of31();
    }
    assert ToInt32(byte) == byte;
    assert hint % 32 == hint;
    DivUnique(byte, Pow2(hint), 0, byte);
  }

  lemma NextPowerOf2Of5()
    ensures Utils.NextPowerOf2Spec(5) == 8
  {
    assert ToInt32(4) == 4;
    assert BitLength(1) == 1;
    assert BitLength(4) == 3;
  }

  lemma ParseF8()
    ensures ParseInt([0x46, 0x38], Hex) == Some(0xF8)
  {
    ParseHexDigits([0x46, 0x38]);
    assert [0x46, 0x38][..1] == [0x46];
    assert DigitsValue([0x46], 16) == 15;
  }

  /** The five-pixel row "F8": nine entries, a blank one, five lit, three blank. */
  lemma RowF8()
    ensures RowBits(ParseInt([0x46, 0x38], Hex), Utils.NextPowerOf2Spec(5))
      == [false, true, true, true, true, true, false, false, false]
  {
    calc {
      RowBits(ParseInt([0x46, 0x38], Hex), Utils.NextPowerOf2Spec(5));
      { NextPowerOf2Of5(); ParseF8(); }
      RowBits(Some(0xF8), 8);
      { RowBitsF8(); }
      [false, true, true, true, true, true, false, false, false];
    }
  }

  lemma RowBitsF8()
    ensures RowBits(Some(0xF8), 8) == [false, true, true, true, true, true, false, false, false]
  {
    var row := RowBits(Some(0xF8), 8);
    assert ToInt32(0xF8) == 0xF8;
    assert Pow2(0) == 1 && Pow2(1) == 2 && Pow2(2) == 4 && Pow2(3) == 8 && Pow2(4) == 16;
    assert Pow2(5) == 32 && Pow2(6) == 64 && Pow2(7) == 128 && Pow2(8) == 256;
    assert !row[0] by { assert 0xF8 / 256 == 0; }
    assert row[1] by { assert 0xF8 / 128 == 1; }
    assert row[2] by { assert 0xF8 / 64 == 3; }
    assert row[3] by { assert 0xF8 / 32 == 7; }
    assert row[4] by { assert 0xF8 / 16 == 15; }
    assert row[5] by { assert 0xF8 / 8 == 31; }
    assert !row[6] by { assert 0xF8 / 4 == 62; }
    assert !row[7] by { assert 0xF8 / 2 == 124; }
    assert !row[8] by { assert 0xF8 / 1 == 0xF8; }
  }

  /** A bitmap line that is not hexadecimal lights nothing. */
  lemma NotHexRowBlank(hint: nat)
    ensures forall j :: 0 <= j <= hint ==> !RowBits(None, hint)[j]
  {
  }

  // ---------------------------------------------------------------------------
  // Whole files.

  /** A file written as lines joined by "\n" is read back as those lines. */
  lemma FontLinesJoin(lines: Lines)
    requires |lines| >= 1 && forall k :: 0 <= k < |lines| ==> |lines[k]| > 0
    requires forall k, j :: 0 <= k < |lines| && 0 <= j < |lines[k]| ==> !IsLineBreak(lines[k][j])
    ensures FontLines(Join(lines, 0x0A)) == lines
  {
    SplitJoin(lines, 0x0A, IsLineBreak);
  }

  /** A token that is one field of its own: non-empty, no white space. */
  predicate IsField(v: JSString) {
    |v| > 0 && forall j :: 0 <= j < |v| ==> !IsWhiteSpace(v[j])
  }

  lemma KeywordIsField(d: Directive)
    requires d != Other
    ensures IsField(KeywordUnits(d))
  {
  }

  /** The line "STARTFONT <version>". */
  function StartFontLine(version: JSString): (line: JSString)
    requires IsField(version)
  {
    Join([KeywordUnits(StartFont), version], 0x20)
  }

  lemma StartFontFields(version: JSString)
    requires IsField(version)
    ensures Fields(StartFontLine(version)) == [KeywordUnits(StartFont), version]
    ensures forall j :: 0 <= j < |StartFontLine(version)| ==> !IsLineBreak(StartFontLine(version)[j])
  {
    KeywordIsField(StartFont);
    SplitJoin([KeywordUnits(StartFont), version], 0x20, IsWhiteSpace);
  }

  lemma EndFontFields()
    ensures Fields(KeywordUnits(EndFont)) == [KeywordUnits(EndFont)]
    ensures forall j :: 0 <= j < |KeywordUnits(EndFont)| ==> !IsLineBreak(KeywordUnits(EndFont)[j])
  {
    KeywordIsField(EndFont);
    SplitJoin([KeywordUnits(EndFont)], 0x20, IsWhiteSpace);
  }

  /** STARTFONT opens a section and records the version. */
  lemma StepStartFont(lines: Lines, i: nat, st: Reader, table: GlyphTable, version: JSString)
    requires IsField(version) && i < |lines| && lines[i] == StartFontLine(version)
    ensures Step(lines, i, st, table) == Next(i + 1, Reader(st.depth + 1, st.current, st.meta.(version := Some(version))), table)
  {
    StartFontFields(version);
    DirectiveOfKeyword(StartFont);
  }

  /** ENDFONT closes a section. */
  lemma StepEndFont(lines: Lines, i: nat, st: Reader, table: GlyphTable)
    requires i < |lines| && lines[i] == KeywordUnits(EndFont)
    ensures Step(lines, i, st, table) == Next(i + 1, st.(depth := Pop(st.depth)), table)
  {
    EndFontFields();
    DirectiveOfKeyword(EndFont);
  }

  /** A step that moves on leaves the rest of the run to the next line. */
  lemma RunNext(lines: Lines, i: nat, st: Reader, table: GlyphTable, j: nat, st': Reader, t': GlyphTable)
    requires i < |lines| && Step(lines, i, st, table) == Next(j, st', t')
    ensures Run(lines, i, st, table) == Run(lines, j, st', t')
  {
  }

  /** A step that stops the reader stops the run with the table as it is. */
  lemma RunAbort(lines: Lines, i: nat, st: Reader, table: GlyphTable)
    requires i < |lines| && Step(lines, i, st, table) == Abort
    ensures Run(lines, i, st, table) == Aborted(table)
  {
  }

  /** The reader on "STARTFONT v", "ENDFONT": the version recorded, the section closed. */
  lemma BalancedRun(lines: Lines, version: JSString, table: GlyphTable)
    requires IsField(version) && |lines| == 2
    requires lines[0] == StartFontLine(version) && lines[1] == KeywordUnits(EndFont)
    ensures Run(lines, 0, Reader(0, None, NoMeta), table) == Finished(Reader(0, None, NoMeta.(version := Some(version))), table)
  {
    var st1 := Reader(1, None, NoMeta.(version := Some(version)));
    calc {
      Run(lines, 0, Reader(0, None, NoMeta), table);
      { StepStartFont(lines, 0, Reader(0, None, NoMeta), table, version);
        RunNext(lines, 0, Reader(0, None, NoMeta), table, 1, st1, table); }
      Run(lines, 1, st1, table);
      { StepEndFont(lines, 1, st1, table);
        RunNext(lines, 1, st1, table, 2, st1.(depth := 0), table); }
      Run(lines, 2, st1.(depth := 0), table);
    }
  }

  /** "STARTFONT v" then "ENDFONT" loads without error: the version is all the font says. */
  lemma BalancedFont(version: JSString, meta: Meta, table: GlyphTable)
    requires IsField(version)
    ensures LoadSpec(Join([StartFontLine(version), KeywordUnits(EndFont)], 0x0A), meta, table)
      == Loaded(None, NoMeta.(version := Some(version)), table)
  {
    var lines := [StartFontLine(version), KeywordUnits(EndFont)];
    assert FontLines(Join(lines, 0x0A)) == lines by {
      StartFontFields(version);
      EndFontFields();
      FontLinesJoin(lines);
    }
    BalancedRun(lines, version, table);
  }

  /** The reader on "STARTFONT v" alone: the version recorded, the section left open. */
  lemma UnbalancedRun(lines: Lines, version: JSString, table: GlyphTable)
    requires IsField(version) && lines == [StartFontLine(version)]
    ensures Run(lines, 0, Reader(0, None, NoMeta), table) == Finished(Reader(1, None, NoMeta.(version := Some(version))), table)
  {
    var st1 := Reader(1, None, NoMeta.(version := Some(version)));
    StepStartFont(lines, 0, Reader(0, None, NoMeta), table, version);
    RunNext(lines, 0, Reader(0, None, NoMeta), table, 1, st1, table);
  }

  /** "STARTFONT v" alone leaves a section open: the version is stored, then the load fails. */
  lemma UnbalancedFont(version: JSString, meta: Meta, table: GlyphTable)
    requires IsField(version)
    ensures LoadSpec(StartFontLine(version), meta, table)
      == Loaded(Some(Unbalanced), NoMeta.(version := Some(version)), table)
  {
    var lines := [StartFontLine(version)];
    assert FontLines(StartFontLine(version)) == lines by {
      StartFontFields(version);
      FontLinesJoin(lines);
      assert Join(lines, 0x0A) == StartFontLine(version);
    }
    UnbalancedRun(lines, version, table);
  }
}
