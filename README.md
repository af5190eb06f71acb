# plurk-anonymous-led: the LED raster pipeline, modelled in Dafny

The page draws on a simulated dot-matrix LED sign. The main thread holds a
`<led-display>` element (`LedDisplay`) and any number of region handles
(`LedDisplayRegion`). These never touch pixels: every setter and every
`draw`, `clear` and `fill` posts a message to a worker. The worker keeps one
raster buffer per region (`LedDisplayRegionWorker`), a two-dimensional
array of booleans shown through a rectangular window of the display. While
the page is visible, an animation-frame loop composites all regions onto
the display grid: a cell is lit when any region lights it. Text reaches the
regions through a BDF bitmap font (`BDF.load`, `writeText`, `toString`) and
the page's `drawText`; QR codes through a transposing loop. Two string
utilities complete the core: `getCodePoints` (UTF-16 to code points) and
`nextPowerOf2` (32-bit bit smearing). `toKebab` derives custom-element names.

Modules, one concept each:

- `Wrappers`, `Bits`, `Js`: Option/Result values; ECMAScript integer
  conversions (ToInt32, ToUint16, `|`, `>>`, `&`) on unbounded integers;
  strings as UTF-16 code-unit sequences, `String.prototype.split` on a
  separator class, `parseInt` (ECMA-262, section 19.2.5).
- `Utils`, `Kebab`: `getCodePoints`, `nextPowerOf2` and `toKebab`.
- `LedCommon`: the message protocol between the page and the worker, and
  `Channel`, the worker's message port as an append-only log.
- `RegionGeometry`: how a negative or missing origin or extent is resolved
  against the display size.
- `LedRegionWorker`: the region raster buffer (class `RegionWorker`) and its
  value-level specification (`RegionView`, `Drawn`, `Cleared`, `Filled`,
  `DataAt`).
- `Compositor`: the worker (class `LedWorker`), its value-level
  specification (`WorkerView`, `Dispatched`, `Run`) and the composite grid.
- `WorkerScope`: the worker's message listener, which owns at most one
  `LedWorker`.
- `DisplayRegion`, `Display`: the main-thread handles (`LedDisplayRegion`,
  `LedDisplay`), specified by the messages they post. The display also
  carries the invariant that replaying its log through the worker's
  specification gives a worker whose configuration matches the display's
  settings.
- `BdfFormat`: a value-level reading of the BDF format (Adobe Glyph Bitmap
  Distribution Format Specification, Technical Note #5005), as this parser
  reads it, line by line.
- `BdfText`: a value-level specification of `writeText`.
- `BdfFont`: the `BDF` class and the imperative `load`, `writeText` and
  `toString`, each proved against the value-level specification.
- `Marquee`: the page's `drawText` and the QR transposition.

## Model

| member | source | states |
|---|---|---|
| LedCommon.TagNames | src/led/led.common.ts:1-8 | a wire name parses back to exactly the message type that carries it, so no two types share a name |
| LedCommon.TypeOf | src/led/led.common.ts:19-60 | a message has a type exactly when it is one of the protocol's shapes |
| LedCommon.Channel.Post | src/led/index.ts:24-27 | posting appends the message to the port's log and changes nothing else |
| LedRegionWorker.RegionWorker.constructor | src/led/led-region.worker.ts:1-10 | a new buffer has a zero window at the origin and a single empty row |
| LedRegionWorker.RegionWorker.SetGeometry | src/led/led.worker.ts:82-109 | assigning the six geometry fields changes them and keeps the raster |
| LedRegionWorker.RegionWorker.Draw | src/led/led-region.worker.ts:12-22 | the buffer after `draw` is `Drawn` of the buffer before: each source cell is written at its offset, ORed with the old cell when additive; other cells and rows keep their values |
| LedRegionWorker.RegionWorker.Clear | src/led/led-region.worker.ts:24-30 | every row of the array is emptied; only cells at negative indices survive |
| LedRegionWorker.RegionWorker.Fill | src/led/led-region.worker.ts:32-38 | every cell of the width-by-height rectangle from the array's origin is lit; cells outside keep their values |
| LedRegionWorker.WriteRowsIsDrawn | src/led/led-region.worker.ts:15-21 | writing the rows one after another gives the same raster as the simultaneous description `DrawnCells` |
| LedRegionWorker.FreshRegionDark | src/led/led-region.worker.ts:1-10 | a new buffer shows nothing anywhere |
| LedRegionWorker.DrawnDataAt | src/led/led-region.worker.ts:12-22 | after a draw, a display cell in the window and under the source shows the source bit, ORed with what it showed when additive; every other display cell is unchanged |
| LedRegionWorker.AdditiveKeepsLit | src/led/led-region.worker.ts:20 | an additive draw never turns a lit display cell off |
| LedRegionWorker.OpaqueDrawShowsSource | src/led/led-region.worker.ts:20 | a non-additive draw at the region's own offset shows the source bit at the corresponding display cell, whatever was there |
| LedRegionWorker.DrawnWellFormed | src/led/led-region.worker.ts:17-18 | a draw keeps every stored non-negative row index below the array length, extending the length for rows it creates |
| LedRegionWorker.ClearedDataAt | src/led/led-region.worker.ts:24-30 | after clearing, a display cell is lit exactly when it was lit before and maps to a negative row or column index |
| LedRegionWorker.ClearedWellFormed | src/led/led-region.worker.ts:24-30 | clearing keeps the array length and its well-formedness |
| LedRegionWorker.FilledDataAt | src/led/led-region.worker.ts:32-38 | after filling, a display cell is lit exactly when it is in the window and either maps into the filled rectangle or was lit |
| LedRegionWorker.FilledWellFormed | src/led/led-region.worker.ts:32-38 | filling keeps every stored row index below the new array length |
| LedRegionWorker.ClearThenFill | src/led/led-region.worker.ts:24-46 | with zero offsets, `clear` then `fill` lights exactly the region's window |
| RegionGeometry.ResolvedInside | src/led/led.worker.ts:112-127 | a missing origin, or one within a display length either side of 0, lands on the display; a missing or non-positive extent then ends inside the display, and a missing one is never empty |
| RegionGeometry.ResolveAgain | src/led/led.worker.ts:112-127 | resolving an already non-negative origin or positive extent again keeps it; a zero extent becomes the rest of the display |
| Compositor.NewWorker | src/led/led.worker.ts:37-52 | the worker created by the first `transfer-canvas` has a valid (empty) region table |
| Compositor.CompositeAt | src/led/led.worker.ts:175-186 | the composite is the display's height by its width, and a cell is lit exactly when some region's `getData` lights it |
| Compositor.LitInOrder | src/led/led.worker.ts:178-182 | scanning the regions in insertion order finds a lighting region exactly when one exists |
| Compositor.Painted | src/led/led.worker.ts:168-188 | an unfocused `update` does nothing; a focused one paints the composite as one more frame and schedules one more animation frame |
| Compositor.Regeometried | src/led/led.worker.ts:81-109 | updating an existing region's geometry keeps its raster and its id |
| Compositor.RegionUpdateFields | src/led/led.worker.ts:81-109 | each geometry field the message leaves out is kept; offsets are taken as given; a given origin is resolved against the display; a given extent is resolved against the region's origin after the update, its current origin when the message carries none |
| Compositor.CreatedRegion | src/led/led.worker.ts:110-139 | a region created by `updateRegion` has the message's id and an empty raster |
| Compositor.OriginUpdate | src/led/led.worker.ts:82-99 | an existing region resolves a given origin, and a given width, exactly as a new region would |
| Compositor.RegionUpdateEffect | src/led/led.worker.ts:79-140 | after `updateRegion` the id is registered; an existing region keeps its raster and its place in the order, and a new one is appended to the order with an empty raster; no other region changes |
| Compositor.Dispatched | src/led/led.worker.ts:7-35 | after a message there is a worker exactly when there was one before or the message transfers a canvas |
| Compositor.RunHasWorker | src/led/led.worker.ts:7-35 | after a log there is a worker exactly when there was one before or some message in the log transfers a canvas |
| Compositor.RunSnoc | src/led/led.worker.ts:7-35 | replaying a log extended by one message is dispatching that message after the replayed log |
| Compositor.KeepsConfig | src/led/led.worker.ts:7-35 | once a worker exists, every message keeps it, never unregisters a region, and only `update-canvas` changes the configuration |
| Compositor.RegionUpdatedValid | src/led/led.worker.ts:79-140 | `updateRegion` keeps the region table valid: ids match keys, the order lists each key once, every raster is well formed |
| Compositor.PushedValid | src/led/led.worker.ts:142-146 | `push` keeps the region table valid |
| Compositor.ClearedInValid | src/led/led.worker.ts:148-153 | `clear` keeps the region table valid |
| Compositor.FilledInValid | src/led/led.worker.ts:155-159 | `fill` keeps the region table valid |
| Compositor.DispatchKeepsValid | src/led/led.worker.ts:7-35 | every message handled by the listener keeps a valid worker valid |
| Compositor.InitSyncsCanvas | src/led/led.worker.ts:54-77 | after `init` the worker is triggered, the canvas size is the unscaled size times the scale, and the regions and focus are untouched |
| Compositor.InitPaintsOnce | src/led/led.worker.ts:73-76 | `init` paints a frame only the first time and only when focused |
| Compositor.InitOverwritesPresent | src/led/led.worker.ts:55-68 | for each of the seven settings (unscaled width and height, scale, colour, dim colour, background colour, padding), a value the message carries replaces the worker's and a missing one keeps it |
| Compositor.NoOps | src/led/led.worker.ts:7-35 | a second `transfer-canvas`, an unknown message, a `push` or `fill` for an unregistered region, a `clear` of an unregistered region and a focus change to the current state all leave the worker as it was |
| Compositor.DroppedBeforeTransfer | src/led/led.worker.ts:11-31 | messages before the first `transfer-canvas` have no effect: no worker exists |
| Compositor.FirstTransferWins | src/led/led.worker.ts:10-13 | the first `transfer-canvas` creates the worker; everything before it is dropped and every later transfer is ignored |
| Compositor.ClearScope | src/led/led.worker.ts:148-153 | `clear` with an id clears only that region; without one it clears every region |
| Compositor.UnfocusedPaintsNothing | src/led/led.worker.ts:168-169 | while unfocused, no message other than a focus change paints a frame or schedules one |
| Compositor.FocusGate | src/led/led.worker.ts:161-169 | regaining focus paints one frame and schedules the loop again; losing focus paints nothing, and the next scheduled frame then ends the loop |
| Compositor.AllClearedIn | src/led/led.worker.ts:151-152 | clearing every region one by one gives the table `clear` without an id specifies |
| Compositor.LedWorker.constructor | src/led/led.worker.ts:37-52 | the new worker's state is `NewWorker` of the canvas |
| Compositor.LedWorker.CellFilled | src/led/led.worker.ts:177-182 | the scan over the regions reports exactly whether the composite lights the cell |
| Compositor.LedWorker.Compose | src/led/led.worker.ts:175-186 | the nested loops produce exactly the composite grid |
| Compositor.LedWorker.Update | src/led/led.worker.ts:168-188 | `update` changes the worker as `Painted` specifies |
| Compositor.LedWorker.Init | src/led/led.worker.ts:54-77 | `init` changes the worker as `Initialised` specifies and keeps it valid |
| Compositor.LedWorker.Configure | src/led/led.worker.ts:55-72 | the settings and canvas-size part of `init` |
| Compositor.LedWorker.UpdateRegion | src/led/led.worker.ts:79-140 | `updateRegion` changes the worker as `RegionUpdated` specifies; a created buffer is fresh |
| Compositor.LedWorker.Reshape | src/led/led.worker.ts:81-109 | the existing-region branch resolves the geometry in place |
| Compositor.LedWorker.AddRegion | src/led/led.worker.ts:110-139 | the new-region branch registers a fresh buffer at the end of the order |
| Compositor.LedWorker.Push | src/led/led.worker.ts:142-146 | `push` draws into the addressed region, or does nothing for an unregistered id |
| Compositor.LedWorker.Clear | src/led/led.worker.ts:148-153 | `clear` changes the worker as `ClearedIn` specifies |
| Compositor.LedWorker.ClearAll | src/led/led.worker.ts:151-152 | the loop clears every registered region |
| Compositor.LedWorker.Fill | src/led/led.worker.ts:155-159 | `fill` fills the addressed region, or does nothing for an unregistered id |
| Compositor.LedWorker.UpdateFocus | src/led/led.worker.ts:161-165 | `updateFocus` changes the worker as `Refocused` specifies |
| Compositor.LedWorker.AnimationFrame | src/led/led.worker.ts:187 | a scheduled frame runs `update` once |
| WorkerScope.Scope.constructor | src/led/led.worker.ts:5 | the listener starts with no worker |
| WorkerScope.Scope.OnMessage | src/led/led.worker.ts:7-35 | the listener changes its worker exactly as `Dispatched` specifies for the message |
| DisplayRegion.RegionCounter.constructor | src/led/led-region.ts:12 | ids are handed out from 0 |
| DisplayRegion.LedDisplayRegion.constructor | src/led/led-region.ts:83-98 | a handle takes the next id, bumps the counter, keeps its geometry with zero offsets and announces itself with one message |
| DisplayRegion.LedDisplayRegion.SetWidth | src/led/led-region.ts:23-31 | the setter changes the width and posts just the new width |
| DisplayRegion.LedDisplayRegion.SetHeight | src/led/led-region.ts:33-41 | the setter changes the height and posts just the new height |
| DisplayRegion.LedDisplayRegion.SetOriginX | src/led/led-region.ts:43-51 | the setter changes originX and posts just the new originX |
| DisplayRegion.LedDisplayRegion.SetOriginY | src/led/led-region.ts:53-61 | the setter changes originY and posts just the new originY |
| DisplayRegion.LedDisplayRegion.SetOffsetX | src/led/led-region.ts:63-71 | the setter changes offsetX and posts just the new offsetX |
| DisplayRegion.LedDisplayRegion.SetOffsetY | src/led/led-region.ts:73-81 | the setter changes offsetY and posts just the new offsetY |
| DisplayRegion.LedDisplayRegion.Draw | src/led/led-region.ts:100-106 | `draw` posts one push message for this region |
| DisplayRegion.LedDisplayRegion.Clear | src/led/led-region.ts:108-113 | `clear` posts one clear message naming this region |
| DisplayRegion.LedDisplayRegion.Fill | src/led/led-region.ts:115-120 | `fill` posts one fill message naming this region |
| Display.ResolvedShape | src/led/index.ts:112-130 | without options a region covers the whole display; a new handle never has offsets |
| Display.WorkerKeepsResolvedShape | src/led/index.ts:112-130 | where the handle resolves to a non-negative origin and positive extents, the worker's new buffer gets exactly the handle's geometry |
| Display.WorkerResolvesTwice | src/led/led.worker.ts:120-123 | the handle and the worker both resolve a non-positive width, so a width of -100 on an 88-cell display is -12 in the handle and 76 in the worker |
| Display.OpeningLog | src/led/index.ts:91-107 | after the transfer and the settings message, the worker exists, is focused and has the display's settings |
| Display.PostKeepsSync | src/led/index.ts:136-148 | a message other than `update-canvas` keeps the worker's configuration and its registered regions |
| Display.UpdateKeepsSync | src/led/index.ts:20-89 | an `update-canvas` message moves the worker's configuration to the one it describes and keeps the registered regions |
| Display.LedDisplay.SettingsMessage | src/led/index.ts:98-107 | the opening settings message turns the worker's defaults into the display's current settings |
| Display.LedDisplay.constructor | src/led/index.ts:91-110 | the display posts the transfer, then its settings, then a focus message when the page is hidden; the worker it describes is in sync and focused exactly when the page is visible |
| Display.LedDisplay.SetUnscaledWidth | src/led/index.ts:20-28 | the setter records the value, posts just the unscaled width and keeps the worker in sync |
| Display.LedDisplay.SetUnscaledHeight | src/led/index.ts:30-38 | the setter records the value, posts just the unscaled height and keeps the worker in sync |
| Display.LedDisplay.SetScale | src/led/index.ts:40-48 | the setter records the value, posts just the scale and keeps the worker in sync |
| Display.LedDisplay.SetPadding | src/led/index.ts:50-58 | the setter records the value, posts just the padding and keeps the worker in sync |
| Display.LedDisplay.SetColor | src/led/index.ts:60-69 | the setter records the value and posts the lit colour together with the dim colour derived from it, keeping the worker in sync |
| Display.LedDisplay.SetDimColor | src/led/index.ts:71-79 | the setter records the value, posts just the dim colour and keeps the worker in sync |
| Display.LedDisplay.SetBackgroundColor | src/led/index.ts:81-89 | the setter records the value, posts just the background colour and keeps the worker in sync |
| Display.LedDisplay.CreateRegion | src/led/index.ts:112-134 | a fresh handle with the next id and the resolved geometry is appended to the display's regions and announced to the worker, which then has it registered |
| Display.LedDisplay.Clear | src/led/index.ts:136-140 | `clear` posts one clear message without an id |
| Display.LedDisplay.HandleVisibilityChange | src/led/index.ts:142-148 | the handler posts the page's visibility, after which the worker is focused exactly when the page is visible |
| Utils.CodePoints | src/utils/index.ts:7-22 | every code point is in the Unicode range, and there are never more code points than code units |
| Utils.GetCodePoints | src/utils/index.ts:7-22 | the loop returns exactly `CodePoints` of the string |
| Utils.CodePointsLength | src/utils/index.ts:11-19 | the code points plus the surrogate pairs combined count the code units |
| Utils.CodePointsRoundTrip | src/utils/index.ts:7-22 | re-encoding the code points in UTF-16 (RFC 2781) gives back the original string, lone surrogates included |
| Utils.EncodeDecode | src/utils/index.ts:7-22 | decoding the UTF-16 encoding of scalar values gives back the scalar values |
| Utils.NextPowerOf2Spec | src/utils/index.ts:24-33 | the result is never negative, and it is 0 exactly when `v - 1` is negative as a 32-bit integer |
| Utils.NextPowerOf2 | src/utils/index.ts:24-33 | the straight-line bit smearing computes `NextPowerOf2Spec` for every number |
| Utils.SmearAll | src/utils/index.ts:25-32 | the six or-shift steps on `v`, plus one, give the least power of two above `v` as `NextPowerOf2Spec` of `v + 1` defines it |
| Utils.NextPowerOf2Least | src/utils/index.ts:24-33 | for 1 to 2^31 the result is the least power of two at or above the input |
| Utils.NextPowerOf2Fixed | src/utils/index.ts:24-33 | a power of two up to 2^31 is its own result |
| Utils.NextPowerOf2Zero | src/utils/index.ts:24-33 | inputs that are not positive, and inputs above 2^31 that wrap negative, give 0 |
| Kebab.InsertDashesCharacterised | src/utils/kebab.ts:3 | the left-to-right global replacement puts '-' in front of exactly the positions where a match of the camel pattern starts |
| Kebab.InsertDashesKeepsText | src/utils/kebab.ts:3-7 | the replacement only inserts '-': with every '-' removed, output and input are the same text, and the output is never shorter |
| Kebab.RemoveIllegal | src/utils/kebab.ts:4-9 | every character left is allowed in a custom element name, and the result is never longer than the input |
| Kebab.KebabOutput | src/utils/kebab.ts:6-9 | the result has no upper-case letter and only characters allowed in a custom element name |
| Kebab.KebabKeepsLowerCase | src/utils/kebab.ts:6-9 | a name already in lower-case letters, '-', '_' and '.' comes back unchanged |
| Kebab.KebabCamelCase | src/utils/kebab.ts:6-9 | `toKebab("fooBar")` is "foo-bar" |
| Kebab.KebabLeadingDigits | src/utils/kebab.ts:3 | a leading digit run is split after its first digit: `toKebab("12a")` is "1-2a" |
| Kebab.RemoveIllegalFrom | src/utils/kebab.ts:9 | the removal pass only drops characters, never invents one |
| Kebab.RemoveIllegalKeepsTagChars | src/utils/kebab.ts:4 | a string of allowed characters passes the removal unchanged |
| Js.SplitJoin | src/third-parties/bdf.ts:75 | splitting on a separator class gives back the non-empty separator-free pieces that were joined |
| Js.SplitPiecesKept | src/third-parties/bdf.ts:75 | the pieces of a split, concatenated, are the input without its separators |
| Js.ParseIntString | src/third-parties/bdf.ts:94 | `parseInt` reads back the decimal text of any integer |
| Js.ParseHexDigits | src/third-parties/bdf.ts:156 | `parseInt(s, 16)` on hex digits is their value |
| Js.UndefinedIsNaN | src/third-parties/bdf.ts:94 | a missing field reads as "undefined", which parses to NaN |
| Js.OrZero | src/third-parties/bdf.ts:94 | `parseInt(..) \| 0` is 0 for NaN and the value itself for a 32-bit integer |
| BdfFormat.StoreValid | src/third-parties/bdf.ts:165 | storing a glyph keeps the table's key order duplicate-free and in step with its keys |
| BdfFormat.StoreTwice | src/third-parties/bdf.ts:165 | a later glyph with the same code replaces the earlier one and keeps its place |
| BdfFormat.FontLinesJoin | src/third-parties/bdf.ts:75 | non-empty lines joined with line feeds split back into the same lines |
| BdfFormat.DirectiveOfKeyword | src/third-parties/bdf.ts:84-170 | each keyword selects its own directive |
| BdfFormat.KeywordsDiffer | src/third-parties/bdf.ts:84-170 | no two directives share a keyword |
| BdfFormat.DirectiveOf | src/third-parties/bdf.ts:84 | a line is read as a directive only when its first field is exactly that keyword |
| BdfFormat.ReadLine | src/third-parties/bdf.ts:85-153 | a directive other than BITMAP and ENDCHAR throws exactly when it writes into properties that were never started or into a glyph that was never started; otherwise it moves the declaration depth as its keyword says, and an unknown line changes nothing |
| BdfFormat.Step | src/third-parties/bdf.ts:80-172 | every line that does not throw moves the reader forward |
| BdfFormat.StepDepth | src/third-parties/bdf.ts:86-169 | STARTFONT, STARTPROPERTIES and STARTCHAR push a declaration; ENDPROPERTIES, ENDCHAR and ENDFONT pop one; other lines keep the stack, and only BITMAP reads further lines |
| BdfFormat.StepAborts | src/third-parties/bdf.ts:111-167 | only property, glyph-field, BITMAP and ENDCHAR lines can throw |
| BdfFormat.StepOther | src/third-parties/bdf.ts:84-171 | a line with an unknown keyword is skipped |
| BdfFormat.EndCharStores | src/third-parties/bdf.ts:163-167 | ENDCHAR stores the current glyph under its code and closes it, and throws when no glyph is open |
| BdfFormat.StepTable | src/third-parties/bdf.ts:163-167 | only ENDCHAR changes the glyph table |
| BdfFormat.StepBbx | src/third-parties/bdf.ts:146-153 | BBX sets the current glyph's box from fields 1 to 4 as width, height, x, y |
| BdfFormat.BbxRoundTrip | src/third-parties/bdf.ts:146-153 | a BBX line written from a box of 32-bit integers is read back as that box |
| BdfFormat.StepBitmap | src/third-parties/bdf.ts:154-162 | BITMAP reads the next `points` lines into the current glyph and continues after them |
| BdfFormat.ReadBitmapShape | src/third-parties/bdf.ts:155-161 | the bitmap keeps the glyph's other fields, appends one parsed byte per row, and makes each row `nextPowerOf2(width) + 1` bits long, most significant bit first |
| BdfFormat.FirstColumnBlank | src/third-parties/bdf.ts:159-160 | a row's first bit tests bit `hint`, so it is never set for a byte below 2^hint |
| BdfFormat.RowF8 | src/third-parties/bdf.ts:155-160 | the row "F8" of a glyph five pixels wide decodes to the nine bits 011111000 |
| BdfFormat.NotHexRowBlank | src/third-parties/bdf.ts:156-160 | a row that is not hexadecimal decodes to no lit bits |
| BdfFormat.StepValid | src/third-parties/bdf.ts:80-172 | each line keeps the glyph table valid and never removes a glyph |
| BdfFormat.RunValid | src/third-parties/bdf.ts:80-172 | the whole loop keeps the glyph table valid and never removes a glyph |
| BdfFormat.LoadSpec | src/third-parties/bdf.ts:71-73 | empty data throws before anything changes |
| BdfFormat.LoadValid | src/third-parties/bdf.ts:71-177 | `load` keeps the glyph table valid and keeps every glyph loaded before |
| BdfFormat.LoadMeta | src/third-parties/bdf.ts:71-177 | a throw inside the loop keeps the old metadata; otherwise the new metadata replaces it, and the unbalanced-declaration error is raised exactly when the stack is left non-empty |
| BdfFormat.BalancedFont | src/third-parties/bdf.ts:71-177 | "STARTFONT v" and "ENDFONT" load without error, and the metadata records only the version |
| BdfFormat.UnbalancedFont | src/third-parties/bdf.ts:174-176 | "STARTFONT v" alone raises the unbalanced-declaration error, after the metadata is replaced |
| BdfText.FreshCanvas | src/third-parties/bdf.ts:186-190 | a fresh bitmap has width 0, the font's point size as height, and one empty row for each row below that |
| BdfText.PaintCell | src/third-parties/bdf.ts:201-203 | writing into a missing row throws and changes nothing; otherwise the cell is ORed with the bit |
| BdfText.PaintCellOthers | src/third-parties/bdf.ts:203 | a cell write changes no other cell |
| BdfText.PaintFromCovers | src/third-parties/bdf.ts:199-205 | drawing a glyph never clears a cell, adds no row and keeps the width |
| BdfText.PaintFromKeepsLit | src/third-parties/bdf.ts:203 | a lit cell stays lit while a glyph is drawn |
| BdfText.PaintFromUndrawable | src/third-parties/bdf.ts:199-205 | a glyph without a box, or a font without a descent, changes nothing, and throws exactly when it has a non-empty bitmap row to draw |
| BdfText.PaintFromThrows | src/third-parties/bdf.ts:199-205 | drawing throws exactly when some remaining non-empty glyph row lands on a row the bitmap lacks |
| BdfText.PaintFromDraws | src/third-parties/bdf.ts:199-205 | when drawing does not throw, every set glyph bit is lit at its target cell |
| BdfText.PaintFromOnlyGlyph | src/third-parties/bdf.ts:199-205 | every cell drawing lights is the target of a set glyph bit |
| BdfText.PassFromCovers | src/third-parties/bdf.ts:192-207 | a pass over the text never clears a cell or adds a row |
| BdfText.PassFromWidth | src/third-parties/bdf.ts:192-207 | a pass that does not throw widens the bitmap by the text's total advance |
| BdfText.PassFromSkips | src/third-parties/bdf.ts:193-198 | characters without glyphs are skipped without touching the bitmap |
| BdfText.PassesCovers | src/third-parties/bdf.ts:209-212 | repeating never clears a cell |
| BdfText.PassesRepeatLeft | src/third-parties/bdf.ts:209-212 | after the repetitions the counter in the options is 0, or the non-positive value it started with |
| BdfText.PassesWidth | src/third-parties/bdf.ts:179-215 | the final width is the starting width plus the text's advance times the number of passes, `textRepeat + 1` |
| BdfText.WriteSpec | src/third-parties/bdf.ts:179-185 | the kerning bias is 0 when unset, and a font without size or properties throws before drawing |
| BdfText.WriteFreshRows | src/third-parties/bdf.ts:179-215 | when `writeText` makes its own bitmap and does not throw, the bitmap's height and rows are the font's point size and the repeat counter ends at or below 0 |
| BdfFont.DecodeRow | src/third-parties/bdf.ts:159-160 | the bit loop produces exactly `RowBits` of the byte |
| BdfFont.ReadGlyphBitmap | src/third-parties/bdf.ts:155-161 | the row loop produces exactly the glyph `ReadBitmap` specifies |
| BdfFont.SortAscending | src/third-parties/bdf.ts:66 | the integer keys come out in ascending order |
| BdfFont.EnumerationVisitsAll | src/third-parties/bdf.ts:66-67 | `for..in` visits every key once: first the array-index keys in ascending order, then the others in insertion order |
| BdfFont.SpelledAllGlyphs | src/third-parties/bdf.ts:64-69 | `toString` has one character per glyph and contains every glyph code in the 16-bit range |
| BdfFont.BDF.constructor | src/third-parties/bdf.ts:58-62 | a new font has empty metadata and no glyphs |
| BdfFont.BDF.ToString | src/third-parties/bdf.ts:64-69 | the loop spells the glyph keys in enumeration order |
| BdfFont.BDF.ReadFontLine | src/third-parties/bdf.ts:81-171 | one iteration of the loop does what `Step` specifies: it throws, or it continues at the next line with the new reader and glyph table |
| BdfFont.BDF.ReadBitmapLine | src/third-parties/bdf.ts:154-162 | the BITMAP branch does what `Step` specifies |
| BdfFont.BDF.Load | src/third-parties/bdf.ts:71-177 | `load` leaves the font, and reports the error, as `LoadSpec` specifies, and keeps the glyph table valid |
| BdfFont.GlyphBitmap.constructor | src/third-parties/bdf.ts:186-190 | a new bitmap is the fresh canvas of the point size |
| BdfFont.WriteTextOptions.constructor | src/third-parties/bdf.ts:53-56 | the options record the given repeat count and kerning bias |
| BdfFont.DrawGlyph | src/third-parties/bdf.ts:199-205 | the nested loops draw a glyph as `PaintFrom` specifies, including where a row write throws |
| BdfFont.DrawPass | src/third-parties/bdf.ts:192-207 | the character loop performs one pass as `PassFrom` specifies |
| BdfFont.BDF.WriteText | src/third-parties/bdf.ts:179-215 | `writeText` returns nothing exactly when it throws; otherwise it returns the caller's bitmap, or a fresh one, holding what `WriteSpec` specifies; the options are normalised in place and the repeat counter left as specified |
| BdfFont.BDF.WriteTextOn | src/third-parties/bdf.ts:192-212 | the passes after normalisation, counting the repeat down in the options |
| Marquee.TextRegion.constructor | src/index.tsx:199 | a region handle starts without a recorded text width |
| Marquee.GlyphFor | src/index.tsx:204-205 | only a glyph with a bounding box is drawn |
| Marquee.DefaultCharQuirk | src/index.tsx:204 | a missing character falls back to glyph 0 only when the font declares no DEFAULT_CHAR; a declared default is a number, never a glyph, so nothing is drawn |
| Marquee.DrawText | src/index.tsx:199-212 | `drawText` throws, drawing nothing, exactly when the reordered code points are not valid; otherwise it posts one additive draw per drawable glyph and records as the width the distance the pen moved |
| Marquee.LayOut | src/index.tsx:203-211 | the loop's draws and the pen's travel are the `Draws` and `Widths` of the laid-out code units |
| Marquee.Place | src/index.tsx:205-206 | a glyph is drawn at its box offset, two rows lower, additively |
| Marquee.DrawsAreAdditive | src/index.tsx:205-206 | every message `drawText` posts is an additive push to its own region, at most one per code unit |
| Marquee.DrawsAppend | src/index.tsx:203-210 | laying out a concatenation lays out the first part, then the second part starting where the pen stopped |
| Marquee.WidthsAppend | src/index.tsx:207 | the width of a concatenation is the sum of the widths |
| Marquee.LayoutOfPrefix | src/index.tsx:203-210 | the layout of a prefix depends only on that prefix |
| Marquee.UnreorderedLaysOutUnits | src/index.tsx:201-202 | without reordering, `drawText` lays out the text's own code units |
| Marquee.QrBitmap | src/index.tsx:144-149 | the QR bitmap is square with the code's side, and row y column x holds module (x, y) |

## Left out

- Colours and canvas drawing: the colour strings are carried but not interpreted; `fillRect`, `fillStyle`, the cell size `scale - padding` and the half-padding offset are not modelled. A painted frame is recorded as the composite grid.
- The colour library that derives the dim colour (`darken(0.8).fade(0.5)`) is a parameter `shade` of the display.
- Message transport: `postMessage` is an append-only log on the main thread, and the worker's behaviour is the replay of that log (`Run`). Concurrency and transfer of the offscreen canvas are not modelled; the canvas is a handle with a width and a height.
- `requestAnimationFrame` timing: the loop is modelled by a count of scheduled frames, each of which runs `update` once when it fires.
- `Math.round` on offsets and fractional numbers: offsets, sizes and coordinates are integers, on which `Math.round` is the identity.
- `draw`'s `offsetX || 0`: a NaN offset is not modelled; a missing one is 0.
- Console warnings and errors are not modelled; only the control flow around them is.
- `parseInt` beyond 2^53: values are exact integers, without floating-point rounding. `| 0` is modelled exactly.
- `CHARS` keeps its token as text; `+data[1]` (ToNumber) is not modelled.
- The declaration stack of `load` is a depth counter, since only its length is read.
- The thrown `Error` objects of `load` are the two values of `LoadError`, and a `TypeError` from reading a property of a missing object is an error value (`load`) or a null result (`writeText`).
- Object property order for `for..in` is modelled for the key kinds `load` stores: codes in the array-index range 0 to 2^32 - 2, visited first in ascending order, then every other key (a negative ENCODING code or one of 2^32 - 1 or more, or "undefined" for a glyph without one) in insertion order; string keys of other forms never occur.
- `String.fromCharCode` in `toString` and `ENCODING` truncates to 16 bits; the `char` field is kept as that code unit.
- The bidirectional algorithm (`resolveUBidi`, `reorderUBidi`) is a function parameter of `drawText`, as are the QR encoder's `getModule` and size.
- `drawText`'s default offsets are passed explicitly, and the QR draw's centring offsets are not modelled.
- `WriteTextOn` takes options already normalised and so does not repeat the normalisation `writeText` performs on each recursive call; after the first call it is the identity.
- `createRegion` mutating its `options` argument (`options.worker` and the resolved fields) is not visible to the caller in the model; the handle receives the resolved values.
- The `data` field of `LedDisplayRegion` is kept but never read, as in the source.
- `led.common.ts` declares no `focus` tag or `Focus` type although the worker and the display use one; the model adds a `Focus` message without a wire name.
- Attribute reflection (`@ObserveAttribute`, the custom element registry) and the rest of the page's UI are not modelled.
- `Kebab.ToKebab`: restricted to ASCII input, where `\p{Lu}` is 'A' to 'Z' and `toLowerCase` changes only those letters; the Unicode case tables are not modelled.
- `Utils.NextPowerOf2Least`: the least-power-of-two property is stated for inputs from 1 to 2^31; other inputs are covered by `NextPowerOf2Zero` and `NextPowerOf2Spec`.
