/**
 * The compositor worker: the display configuration, the insertion-ordered
 * table of region buffers, the focus gate and the per-frame decision of
 * which display cells are lit. Painting is reduced to that decision: every
 * frame the worker paints is recorded as its grid of lit (true) and dim
 * (false) cells, and every requested animation frame as one pending
 * callback.
 */
module Compositor {
  import opened Wrappers
  import opened LedCommon
  import opened RegionGeometry
  import opened LedRegionWorker

  /** A painted frame: row `y`, column `x` is lit or dim. */
  type Grid = seq<seq<bool>>

  datatype Config = Config(
    unscaledWidth: int, unscaledHeight: int, scale: int,
    color: string, dimColor: string, backgroundColor: string,
    padding: int)

  /** The configuration a new worker starts with; the dim colour starts equal to the lit one. */
  const DEFAULT_CONFIG: Config :=
    Config(88, 31, 4, "rgba(255, 128, 0, 0.75)", "rgba(255, 128, 0, 0.75)", "rgba(0, 0, 0, 0.25)", 1)

  datatype WorkerView = WorkerView(
    config: Config,
    canvasWidth: int, canvasHeight: int,
    regions: map<int, RegionView>,
    order: seq<int>,
    triggered: bool,
    isFocus: bool,
    frames: seq<Grid>,
    pendingFrames: nat)

  /** `order` lists every region id exactly once: the iteration order of the `Map`. */
  predicate OrderOk(regions: map<int, RegionView>, order: seq<int>) {
    (forall i :: 0 <= i < |order| ==> order[i] in regions)
    && (forall id :: id in regions ==> id in order)
    && (forall i, j :: 0 <= i < j < |order| ==> order[i] != order[j])
  }

  /** The invariant of the region table: ids match their keys, buffers are well formed, `order` lists the ids. */
  predicate TableValid(regions: map<int, RegionView>, order: seq<int>) {
    OrderOk(regions, order)
    && (forall id :: id in regions ==> regions[id].regionId == id && regions[id].WellFormed())
  }

  /** The invariant of the worker's state. */
  predicate ViewValid(v: WorkerView) {
    TableValid(v.regions, v.order)
  }

  /** A worker just created around a transferred canvas. */
  function NewWorker(canvas: CanvasHandle): (v: WorkerView)
    ensures ViewValid(v)
  {
    WorkerView(DEFAULT_CONFIG, canvas.width, canvas.height, map[], [], false, true, [], 0)
  }

  // ---------------------------------------------------------------------------
  // The frame.

  /** Display cell (x, y) is lit when some region shows it. */
  predicate CellLit(regions: map<int, RegionView>, x: int, y: int) {
    exists id :: id in regions && regions[id].DataAt(x, y)
  }

  /** Cells 0 .. n-1 of display row `y`. */
  function RowCells(regions: map<int, RegionView>, y: int, n: nat): (row: seq<bool>)
    ensures |row| == n
  {
    if n == 0 then [] else RowCells(regions, y, n - 1) + [CellLit(regions, n - 1, y)]
  }

  /** Display rows 0 .. n-1, each `w` cells wide. */
  function Rows(regions: map<int, RegionView>, w: nat, n: nat): (g: Grid)
    ensures |g| == n
  {
    if n == 0 then [] else Rows(regions, w, n - 1) + [RowCells(regions, n - 1, w)]
  }

  function Clamp(n: int): nat {
    if n > 0 then n else 0
  }

  /** The frame `update` paints for the current state. */
  function Composite(v: WorkerView): Grid {
    Rows(v.regions, Clamp(v.config.unscaledWidth), Clamp(v.config.unscaledHeight))
  }

  lemma {:induction false} RowCellsAt(regions: map<int, RegionView>, y: int, n: nat, x: nat)
    requires x < n
    ensures RowCells(regions, y, n)[x] == CellLit(regions, x, y)
  {
    if x < n - 1 {
      RowCellsAt(regions, y, n - 1, x);
    }
  }

  lemma {:induction false} RowsAt(regions: map<int, RegionView>, w: nat, n: nat, y: nat)
    requires y < n
    ensures Rows(regions, w, n)[y] == RowCells(regions, y, w)
  {
    if y < n - 1 {
      RowsAt(regions, w, n - 1, y);
    }
  }

  /**
   * The painted frame has one row per display row and one entry per
   * display column, and an entry is lit exactly when some region's
   * `getData` is true there, whatever the order of the regions.
   */
  lemma CompositeAt(v: WorkerView, x: nat, y: nat)
    requires x < v.config.unscaledWidth && y < v.config.unscaledHeight
    ensures |Composite(v)| == v.config.unscaledHeight
    ensures |Composite(v)[y]| == v.config.unscaledWidth
    ensures Composite(v)[y][x] <==> exists id :: id in v.regions && v.regions[id].DataAt(x, y)
  {
    RowsAt(v.regions, Clamp(v.config.unscaledWidth), Clamp(v.config.unscaledHeight), y);
    RowCellsAt(v.regions, y, Clamp(v.config.unscaledWidth), x);
  }

  /**
   * `update`: nothing while unfocused; otherwise one frame is painted and
   * the next animation frame is requested.
   */
  function Painted(v: WorkerView): (w: WorkerView)
    ensures !v.isFocus ==> w == v
    ensures v.isFocus ==> (|w.frames| == |v.frames| + 1 && w.frames[|v.frames|] == Composite(v)
      && w.pendingFrames == v.pendingFrames + 1)
  {
    if !v.isFocus then v
    else v.(frames := v.frames + [Composite(v)], pendingFrames := v.pendingFrames + 1)
  }

  // ---------------------------------------------------------------------------
  // The operations, on values.

  /** The configuration after `init(options)`: the fields present in the message replace the old ones. */
  function Reconfigured(c: Config, o: Message): Config
    requires o.UpdateCanvas?
  {
    Config(
      o.unscaledWidth.GetOr(c.unscaledWidth),
      o.unscaledHeight.GetOr(c.unscaledHeight),
      o.scale.GetOr(c.scale),
      o.color.GetOr(c.color),
      o.dimColor.GetOr(c.dimColor),
      o.backgroundColor.GetOr(c.backgroundColor),
      o.padding.GetOr(c.padding))
  }

  /** The canvas extent in pixels for `cells` display cells at `scale` pixels each. */
  function Pixels(cells: int, scale: int): int {
    cells * scale
  }

  /** `init(options)` up to the first `update`: configuration and canvas size. */
  function Configured(v: WorkerView, o: Message): WorkerView
    requires o.UpdateCanvas?
  {
    var c := Reconfigured(v.config, o);
    var cw := if o.unscaledWidth.Some? || o.scale.Some? || !v.triggered then Pixels(c.unscaledWidth, c.scale) else v.canvasWidth;
    var ch := if o.unscaledHeight.Some? || o.scale.Some? || !v.triggered then Pixels(c.unscaledHeight, c.scale) else v.canvasHeight;
    v.(config := c, canvasWidth := cw, canvasHeight := ch)
  }

  /** `init(options)`: the first call also marks the worker triggered and runs `update`. */
  function Initialised(v: WorkerView, o: Message): WorkerView
    requires o.UpdateCanvas?
  {
    var w := Configured(v, o);
    if v.triggered then w else Painted(w.(triggered := true))
  }

  /** `updateRegion(options)` on an existing region: only the fields present change. */
  function Regeometried(r: RegionView, o: Message, c: Config): (r': RegionView)
    requires o.UpdateRegion?
    ensures r'.cells == r.cells && r'.rowCount == r.rowCount && r'.regionId == r.regionId
  {
    var ox := if o.originX.Some? then ResolveOrigin(o.originX, c.unscaledWidth) else r.originX;
    var oy := if o.originY.Some? then ResolveOrigin(o.originY, c.unscaledHeight) else r.originY;
    r.(originX := ox, originY := oy,
       width := if o.width.Some? then ResolveExtent(o.width, c.unscaledWidth, ox) else r.width,
       height := if o.height.Some? then ResolveExtent(o.height, c.unscaledHeight, oy) else r.height,
       offsetX := o.offsetX.GetOr(r.offsetX),
       offsetY := o.offsetY.GetOr(r.offsetY))
  }

  /** `updateRegion(options)` for an id not seen before: a fresh buffer with resolved geometry. */
  function CreatedRegion(o: Message, c: Config): (r: RegionView)
    requires o.UpdateRegion?
    ensures r.regionId == o.regionId && r.cells == map[] && r.rowCount == 1
  {
    var ox := ResolveOrigin(o.originX, c.unscaledWidth);
    var oy := ResolveOrigin(o.originY, c.unscaledHeight);
    FreshRegion(o.regionId).(
      originX := ox, originY := oy,
      width := ResolveExtent(o.width, c.unscaledWidth, ox),
      height := ResolveExtent(o.height, c.unscaledHeight, oy),
      offsetX := o.offsetX.GetOr(0),
      offsetY := o.offsetY.GetOr(0))
  }

  function RegionUpdated(v: WorkerView, o: Message): WorkerView
    requires o.UpdateRegion?
  {
    if o.regionId in v.regions then
      v.(regions := v.regions[o.regionId := Regeometried(v.regions[o.regionId], o, v.config)])
    else
      v.(regions := v.regions[o.regionId := CreatedRegion(o, v.config)], order := v.order + [o.regionId])
  }

  /** `push(data)`: the region draws; an unknown id changes nothing. */
  function PushedTo(v: WorkerView, o: Message): WorkerView
    requires o.PushData?
  {
    if o.regionId !in v.regions then v
    else
      var r := v.regions[o.regionId];
      v.(regions := v.regions[o.regionId :=
        Drawn(r, o.data, o.offsetX.GetOr(0), o.offsetY.GetOr(0), o.additive.GetOr(false))])
  }

  /** `clear(data)`: one region when an id is given (none if unknown), otherwise all. */
  function ClearedIn(v: WorkerView, id: Option<int>): WorkerView {
    match id
    case Some(i) => if i in v.regions then v.(regions := v.regions[i := Cleared(v.regions[i])]) else v
    case None => v.(regions := map k | k in v.regions :: Cleared(v.regions[k]))
  }

  /** `fill(data)`: the region fills; an unknown id changes nothing. */
  function FilledIn(v: WorkerView, id: int): WorkerView {
    if id in v.regions then v.(regions := v.regions[id := Filled(v.regions[id])]) else v
  }

  /** `updateFocus(data)`. */
  function Refocused(v: WorkerView, state: bool): WorkerView {
    if v.isFocus == state then v
    else if state then Painted(v.(isFocus := true))
    else v.(isFocus := false)
  }

  /** A requested animation frame fires: it calls `update`. */
  function FrameFired(v: WorkerView): WorkerView
    requires v.pendingFrames > 0
  {
    Painted(v.(pendingFrames := v.pendingFrames - 1))
  }

  // ---------------------------------------------------------------------------
  // Message dispatch.

  /** The worker global: absent until a canvas has been transferred. */
  function Dispatched(s: Option<WorkerView>, m: Message): (r: Option<WorkerView>)
    ensures r.Some? <==> s.Some? || m.TransferCanvas?
  {
    match m
    case TransferCanvas(c) => if s.None? then Some(NewWorker(c)) else s
    case UpdateCanvas(_, _, _, _, _, _, _) => if s.None? then s else Some(Initialised(s.value, m))
    case UpdateRegion(_, _, _, _, _, _, _) => if s.None? then s else Some(RegionUpdated(s.value, m))
    case PushData(_, _, _, _, _) => if s.None? then s else Some(PushedTo(s.value, m))
    case Clear(id) => if s.None? then s else Some(ClearedIn(s.value, id))
    case Fill(id) => if s.None? then s else Some(FilledIn(s.value, id))
    case Focus(state) => if s.None? then s else Some(Refocused(s.value, state))
    case Unknown(_) => s
  }

  /** A message log applied in order. */
  function Run(s: Option<WorkerView>, log: seq<Message>): Option<WorkerView>
    decreases |log|
  {
    if log == [] then s else Run(Dispatched(s, log[0]), log[1..])
  }

  /** Running a log one message longer dispatches that message last. */
  lemma {:induction false} RunSnoc(s: Option<WorkerView>, log: seq<Message>, m: Message)
    ensures Run(s, log + [m]) == Dispatched(Run(s, log), m)
    decreases |log|
  {
    if log == [] {
      assert ([] + [m])[1..] == [];
    } else {
      assert (log + [m])[0] == log[0];
      assert (log + [m])[1..] == log[1..] + [m];
      RunSnoc(Dispatched(s, log[0]), log[1..], m);
    }
  }

  /** Replaying a log yields a worker exactly when one existed or the log transfers a canvas. */
  lemma {:induction false} RunHasWorker(s: Option<WorkerView>, log: seq<Message>)
    ensures Run(s, log).Some? <==> s.Some? || exists i :: 0 <= i < |log| && log[i].TransferCanvas?
    decreases |log|
  {
    if log != [] {
      RunHasWorker(Dispatched(s, log[0]), log[1..]);
      if exists i :: 0 <= i < |log[1..]| && log[1..][i].TransferCanvas? {
        var i :| 0 <= i < |log[1..]| && log[1..][i].TransferCanvas?;
        assert log[i + 1].TransferCanvas?;
      }
      if exists i :: 0 <= i < |log| && log[i].TransferCanvas? {
        var i :| 0 <= i < |log| && log[i].TransferCanvas?;
        if i > 0 {
          assert log[1..][i - 1].TransferCanvas?;
        }
      }
    }
  }

  /**
   * Only an `UpdateCanvas` message changes the configuration once a worker
   * exists, and no message removes a region.
   */
  lemma KeepsConfig(v: WorkerView, m: Message)
    ensures var t := Dispatched(Some(v), m);
      t.Some? && v.regions.Keys <= t.value.regions.Keys
      && (!m.UpdateCanvas? ==> t.value.config == v.config)
  {
  }

  // ---------------------------------------------------------------------------
  // Properties.

  lemma RegionUpdatedValid(v: WorkerView, o: Message)
    requires o.UpdateRegion? && ViewValid(v)
    ensures ViewValid(RegionUpdated(v, o))
  {
    var w := RegionUpdated(v, o);
    if o.regionId !in v.regions {
      forall i | 0 <= i < |w.order|
        ensures w.order[i] in w.regions
      {
        if i < |v.order| {
          assert w.order[i] == v.order[i];
        }
      }
    }
  }

  lemma PushedValid(v: WorkerView, o: Message)
    requires o.PushData? && ViewValid(v)
    ensures ViewValid(PushedTo(v, o))
  {
    if o.regionId in v.regions {
      DrawnWellFormed(v.regions[o.regionId], o.data, o.offsetX.GetOr(0), o.offsetY.GetOr(0), o.additive.GetOr(false));
    }
  }

  /** Clearing every region one by one is `clear()` on the whole table. */
  lemma AllClearedIn(v: WorkerView, views: map<int, RegionView>)
    requires views.Keys == v.regions.Keys
    requires forall k :: k in views ==> views[k] == Cleared(v.regions[k])
    ensures v.(regions := views) == ClearedIn(v, None)
  {
    var m := map k | k in v.regions :: Cleared(v.regions[k]);
    assert views.Keys == m.Keys;
    forall k | k in views
      ensures views[k] == m[k]
    {
    }
    assert views == m;
  }

  lemma ClearedInValid(v: WorkerView, id: Option<int>)
    requires ViewValid(v)
    ensures ViewValid(ClearedIn(v, id))
  {
    forall k | k in v.regions
      ensures Cleared(v.regions[k]).WellFormed()
    {
      ClearedWellFormed(v.regions[k]);
    }
  }

  lemma FilledInValid(v: WorkerView, id: int)
    requires ViewValid(v)
    ensures ViewValid(FilledIn(v, id))
  {
    if id in v.regions {
      FilledWellFormed(v.regions[id]);
    }
  }

  /** Every message keeps the worker's invariant. */
  lemma DispatchKeepsValid(s: Option<WorkerView>, m: Message)
    requires s.Some? ==> ViewValid(s.value)
    ensures var t := Dispatched(s, m); t.Some? ==> ViewValid(t.value)
  {
    if s.Some? {
      match m {
        case UpdateRegion(_, _, _, _, _, _, _) => RegionUpdatedValid(s.value, m);
        case PushData(_, _, _, _, _) => PushedValid(s.value, m);
        case Clear(id) => ClearedInValid(s.value, id);
        case Fill(id) => FilledInValid(s.value, id);
        case _ =>
      }
    }
  }

  /** The canvas size follows the configuration once the first `init` has run. */
  predicate CanvasSynced(v: WorkerView) {
    v.triggered ==>
      v.canvasWidth == Pixels(v.config.unscaledWidth, v.config.scale)
      && v.canvasHeight == Pixels(v.config.unscaledHeight, v.config.scale)
  }

  lemma InitSyncsCanvas(v: WorkerView, o: Message)
    requires o.UpdateCanvas? && CanvasSynced(v)
    ensures var w := Initialised(v, o);
      w.triggered && CanvasSynced(w)
      && w.regions == v.regions && w.order == v.order && w.isFocus == v.isFocus
  {
  }

  /** `init` paints exactly once, on its first call, and only when focused. */
  lemma InitPaintsOnce(v: WorkerView, o: Message)
    requires o.UpdateCanvas?
    ensures var w := Initialised(v, o);
      |w.frames| == |v.frames| + (if !v.triggered && v.isFocus then 1 else 0)
  {
  }

  /** `init` overwrites exactly the configuration fields the message carries. */
  lemma InitOverwritesPresent(v: WorkerView, o: Message)
    requires o.UpdateCanvas?
    ensures var c := Initialised(v, o).config;
      (o.unscaledWidth.Some? ==> c.unscaledWidth == o.unscaledWidth.value)
      && (o.unscaledWidth.None? ==> c.unscaledWidth == v.config.unscaledWidth)
      && (o.scale.Some? ==> c.scale == o.scale.value)
      && (o.scale.None? ==> c.scale == v.config.scale)
      && (o.color.Some? ==> c.color == o.color.value)
      && (o.color.None? ==> c.color == v.config.color)
    ensures var c := Initialised(v, o).config;
      (o.unscaledHeight.Some? ==> c.unscaledHeight == o.unscaledHeight.value)
      && (o.unscaledHeight.None? ==> c.unscaledHeight == v.config.unscaledHeight)
      && (o.dimColor.Some? ==> c.dimColor == o.dimColor.value)
      && (o.dimColor.None? ==> c.dimColor == v.config.dimColor)
      && (o.backgroundColor.Some? ==> c.backgroundColor == o.backgroundColor.value)
      && (o.backgroundColor.None? ==> c.backgroundColor == v.config.backgroundColor)
      && (o.padding.Some? ==> c.padding == o.padding.value)
      && (o.padding.None? ==> c.padding == v.config.padding)
  {
  }

  /**
   * Updating a known region changes its geometry only; a new id gets an
   * empty buffer and is appended to the iteration order; no other region
   * changes.
   */
  lemma RegionUpdateEffect(v: WorkerView, o: Message, other: int)
    requires o.UpdateRegion? && other != o.regionId
    ensures var w := RegionUpdated(v, o);
      o.regionId in w.regions
      && (other in w.regions <==> other in v.regions)
      && (other in v.regions ==> w.regions[other] == v.regions[other])
      && (o.regionId in v.regions ==>
            w.regions[o.regionId].cells == v.regions[o.regionId].cells && w.order == v.order)
      && (o.regionId !in v.regions ==>
            w.regions[o.regionId].cells == map[] && w.order == v.order + [o.regionId])
  {
  }

  /**
   * `updateRegion` on a known region: every geometry field the message
   * leaves out is kept, offsets are taken as given, a given origin is
   * resolved against the display, and a given extent is resolved against
   * the origin the region has after the update (its current one when the
   * message carries no origin).
   */
  lemma RegionUpdateFields(r: RegionView, o: Message, c: Config)
    requires o.UpdateRegion?
    ensures var r' := Regeometried(r, o, c);
      (o.originX.None? ==> r'.originX == r.originX)
      && (o.originY.None? ==> r'.originY == r.originY)
      && (o.width.None? ==> r'.width == r.width)
      && (o.height.None? ==> r'.height == r.height)
      && (o.offsetX.None? ==> r'.offsetX == r.offsetX)
      && (o.offsetY.None? ==> r'.offsetY == r.offsetY)
    ensures var r' := Regeometried(r, o, c);
      (o.offsetX.Some? ==> r'.offsetX == o.offsetX.value)
      && (o.offsetY.Some? ==> r'.offsetY == o.offsetY.value)
      && (o.originX.Some? ==> r'.originX == ResolveOrigin(o.originX, c.unscaledWidth))
      && (o.originY.Some? ==> r'.originY == ResolveOrigin(o.originY, c.unscaledHeight))
    ensures var r' := Regeometried(r, o, c);
      (o.width.Some? ==> r'.width == ResolveExtent(o.width, c.unscaledWidth, r'.originX))
      && (o.height.Some? ==> r'.height == ResolveExtent(o.height, c.unscaledHeight, r'.originY))
      && (o.width.Some? && o.originX.None? ==> r'.width == ResolveExtent(o.width, c.unscaledWidth, r.originX))
      && (o.height.Some? && o.originY.None? ==> r'.height == ResolveExtent(o.height, c.unscaledHeight, r.originY))
  {
  }

  /** An update that carries only an origin resolves it like region creation does. */
  lemma OriginUpdate(r: RegionView, o: Message, c: Config)
    requires o.UpdateRegion? && o.originX.Some?
    ensures Regeometried(r, o, c).originX == CreatedRegion(o, c).originX
    ensures o.width.Some? ==> Regeometried(r, o, c).width == CreatedRegion(o, c).width
  {
  }

  /**
   * Messages that name an unknown region, a repeated canvas transfer,
   * a focus message that repeats the current state and an unknown tag
   * leave the worker unchanged.
   */
  lemma NoOps(v: WorkerView, m: Message)
    requires || m.TransferCanvas?
             || m.Unknown?
             || (m.PushData? && m.regionId !in v.regions)
             || (m.Fill? && m.regionId !in v.regions)
             || (m.Clear? && m.clearId.Some? && m.clearId.value !in v.regions)
             || (m.Focus? && m.state == v.isFocus)
    ensures Dispatched(Some(v), m) == Some(v)
  {
  }

  /** Every message other than a canvas transfer is dropped while there is no worker. */
  lemma {:induction false} DroppedBeforeTransfer(log: seq<Message>)
    requires forall i :: 0 <= i < |log| ==> !log[i].TransferCanvas?
    ensures Run(None, log) == None
    decreases |log|
  {
    if log != [] {
      DroppedBeforeTransfer(log[1..]);
    }
  }

  /** Only the first canvas transfer creates the worker; the messages before it are lost. */
  lemma {:induction false} FirstTransferWins(pre: seq<Message>, c: CanvasHandle, post: seq<Message>)
    requires forall i :: 0 <= i < |pre| ==> !pre[i].TransferCanvas?
    ensures Run(None, pre + [TransferCanvas(c)] + post) == Run(Some(NewWorker(c)), post)
    decreases |pre|
  {
    if pre == [] {
      assert [TransferCanvas(c)] + post == [TransferCanvas(c)] + post;
      assert ([TransferCanvas(c)] + post)[1..] == post;
    } else {
      assert (pre + [TransferCanvas(c)] + post)[1..] == pre[1..] + [TransferCanvas(c)] + post;
      FirstTransferWins(pre[1..], c, post);
    }
  }

  /**
   * Clearing one region leaves all others unchanged; clearing without an
   * id clears each region as if it were cleared alone.
   */
  lemma ClearScope(v: WorkerView, id: Option<int>, k: int)
    requires k in v.regions
    ensures var w := ClearedIn(v, id);
      k in w.regions
      && w.regions[k] == (if id.None? || id.value == k then Cleared(v.regions[k]) else v.regions[k])
  {
  }

  /** While unfocused, no message other than a focus change paints. */
  lemma UnfocusedPaintsNothing(v: WorkerView, m: Message)
    requires !v.isFocus && !m.Focus?
    ensures var t := Dispatched(Some(v), m);
      t.Some? && t.value.frames == v.frames && t.value.pendingFrames == v.pendingFrames && !t.value.isFocus
  {
  }

  /**
   * Regaining focus paints one frame at once and requests the next one;
   * losing it paints nothing, and the frame then still pending paints
   * nothing and requests no other.
   */
  lemma FocusGate(v: WorkerView)
    ensures !v.isFocus ==> (|Refocused(v, true).frames| == |v.frames| + 1
      && Refocused(v, true).pendingFrames == v.pendingFrames + 1)
    ensures v.isFocus ==> Refocused(v, false).frames == v.frames
    ensures v.isFocus && v.pendingFrames > 0 ==>
      (var w := FrameFired(Refocused(v, false));
       w.frames == v.frames && w.pendingFrames == v.pendingFrames - 1)
  {
  }

  // ---------------------------------------------------------------------------
  // The worker object.

  /** `lit` says, for each id in `order`, whether that region shows cell (x, y): some does iff one in `order` does. */
  lemma LitInOrder(regions: map<int, RegionView>, order: seq<int>, x: int, y: int)
    requires OrderOk(regions, order)
    ensures CellLit(regions, x, y) <==> exists i :: 0 <= i < |order| && regions[order[i]].DataAt(x, y)
  {
    if CellLit(regions, x, y) {
      var id :| id in regions && regions[id].DataAt(x, y);
      var i :| 0 <= i < |order| && order[i] == id;
      assert regions[order[i]].DataAt(x, y);
    }
    if exists i :: 0 <= i < |order| && regions[order[i]].DataAt(x, y) {
      var i :| 0 <= i < |order| && regions[order[i]].DataAt(x, y);
      assert order[i] in regions;
    }
  }

  class LedWorker {
    /** `unscaledWidth`, `unscaledHeight`, `scale`, `color`, `dimColor`, `backgroundColor` and `padding`. */
    var config: Config
    var canvasWidth: int
    var canvasHeight: int
    var regions: map<int, RegionWorker>
    var order: seq<int>
    var triggered: bool
    var isFocus: bool
    var frames: seq<Grid>
    var pendingFrames: nat

    function RegionViews(): map<int, RegionView>
      reads this`regions, regions.Values
    {
      map id | id in regions :: regions[id].View()
    }

    function View(): WorkerView
      reads this, regions.Values
    {
      WorkerView(config, canvasWidth, canvasHeight, RegionViews(), order, triggered, isFocus, frames, pendingFrames)
    }

    /** The table holds each region under its own id, so distinct ids are distinct buffers. */
    ghost predicate Valid()
      reads this`regions, this`order, regions.Values
    {
      (forall id :: id in regions ==> regions[id].regionId == id)
      && TableValid(RegionViews(), order)
    }

    constructor(canvas: CanvasHandle)
      ensures Valid() && View() == NewWorker(canvas)
    {
      var color := "rgba(255, 128, 0, 0.75)";
      config := Config(88, 31, 4, color, color, "rgba(0, 0, 0, 0.25)", 1);
      canvasWidth, canvasHeight := canvas.width, canvas.height;
      regions, order := map[], [];
      triggered, isFocus := false, true;
      frames, pendingFrames := [], 0;
    }

    /** Whether any region, taken in creation order, lights display cell (`x`, `y`). */
    method CellFilled(x: int, y: int) returns (fill: bool)
      requires Valid()
      ensures fill == CellLit(RegionViews(), x, y)
    {
      ghost var views := RegionViews();
      fill := false;
      var i := 0;
      while i < |order|
        invariant 0 <= i <= |order|
        invariant !fill ==> forall j :: 0 <= j < i ==> !views[order[j]].DataAt(x, y)
        invariant fill ==> CellLit(views, x, y)
      {
        if regions[order[i]].View().DataAt(x, y) {
          fill := true;
          break;
        }
        i := i + 1;
      }
      LitInOrder(views, order, x, y);
    }

    /** The lit/dim decision of `update` for the current state. */
    method Compose() returns (grid: Grid)
      requires Valid()
      ensures grid == Composite(View())
    {
      var views := RegionViews();
      grid := [];
      var y := 0;
      while y < config.unscaledHeight
        invariant 0 <= y <= Clamp(config.unscaledHeight)
        invariant grid == Rows(views, Clamp(config.unscaledWidth), y)
      {
        var row := [];
        var x := 0;
        while x < config.unscaledWidth
          invariant 0 <= x <= Clamp(config.unscaledWidth)
          invariant row == RowCells(views, y, x)
        {
          var fill := CellFilled(x, y);
          row := row + [fill];
          x := x + 1;
        }
        grid := grid + [row];
        y := y + 1;
      }
    }

    /** `update()`. */
    method Update()
      requires Valid()
      modifies this
      ensures Valid() && View() == Painted(old(View()))
    {
      if !isFocus {
        return;
      }
      var grid := Compose();
      frames := frames + [grid];
      pendingFrames := pendingFrames + 1;
    }

    /** `init(options)`. */
    method Init(options: Message)
      requires options.UpdateCanvas? && Valid()
      modifies this
      ensures Valid() && View() == Initialised(old(View()), options)
    {
      Configure(options);
      if !triggered {
        triggered := true;
        Update();
      }
    }

    /** The part of `init(options)` before the first `update`: configuration and canvas size. */
    method Configure(options: Message)
      requires options.UpdateCanvas? && Valid()
      modifies this
      ensures Valid() && View() == Configured(old(View()), options)
    {
      // Each field is overwritten only when the message carries it; the
      // canvas is resized when the width, height or scale changed, and on
      // the first call.
      var c := config;
      config := Config(
        options.unscaledWidth.GetOr(c.unscaledWidth),
        options.unscaledHeight.GetOr(c.unscaledHeight),
        options.scale.GetOr(c.scale),
        options.color.GetOr(c.color),
        options.dimColor.GetOr(c.dimColor),
        options.backgroundColor.GetOr(c.backgroundColor),
        options.padding.GetOr(c.padding));
      if options.unscaledWidth.Some? || options.scale.Some? || !triggered {
        canvasWidth := Pixels(config.unscaledWidth, config.scale);
      }
      if options.unscaledHeight.Some? || options.scale.Some? || !triggered {
        canvasHeight := Pixels(config.unscaledHeight, config.scale);
      }
      TableUnchanged();
    }

    /** Writes that touch neither the table nor a buffer leave the table's views as they were. */
    twostate lemma TableUnchanged()
      requires old(regions) == regions && unchanged(regions.Values)
      ensures RegionViews() == old(RegionViews())
    {
    }

    /** `updateRegion(options)`. */
    method UpdateRegion(options: Message)
      requires options.UpdateRegion? && Valid()
      modifies this, regions.Values
      ensures Valid() && View() == RegionUpdated(old(View()), options)
      ensures fresh(regions.Values - old(regions.Values))
    {
      if options.regionId in regions {
        Reshape(options);
      } else {
        AddRegion(options);
      }
    }

    /** `updateRegion(options)` for a known id: only the fields the message carries change. */
    method Reshape(options: Message)
      requires options.UpdateRegion? && Valid() && options.regionId in regions
      modifies regions.Values
      ensures Valid() && View() == RegionUpdated(old(View()), options)
    {
      ghost var v0 := View();
      var id := options.regionId;
      var region := regions[id];
      // The origin goes first, so that a non-positive extent in the same
      // message resolves against the new origin: `Regeometried` computes
      // the fields in that order.
      var g := Regeometried(region.View(), options, config);
      region.SetGeometry(g.originX, g.originY, g.width, g.height, g.offsetX, g.offsetY);
      assert region.View() == g;
      OthersUnchanged(v0, id);
      RegionUpdatedValid(v0, options);
    }

    /** `updateRegion(options)` for a new id: a buffer with resolved geometry joins the table. */
    method AddRegion(options: Message)
      requires options.UpdateRegion? && Valid() && options.regionId !in regions
      modifies this
      ensures Valid() && View() == RegionUpdated(old(View()), options)
      ensures fresh(regions.Values - old(regions.Values))
    {
      ghost var v0 := View();
      var id := options.regionId;
      var region := new RegionWorker(id);
      var originX := ResolveOrigin(options.originX, config.unscaledWidth);
      var originY := ResolveOrigin(options.originY, config.unscaledHeight);
      region.SetGeometry(originX, originY,
        ResolveExtent(options.width, config.unscaledWidth, originX),
        ResolveExtent(options.height, config.unscaledHeight, originY),
        options.offsetX.GetOr(0), options.offsetY.GetOr(0));
      regions := regions[id := region];
      order := order + [id];
      assert RegionViews() == v0.regions[id := CreatedRegion(options, v0.config)];
      RegionUpdatedValid(v0, options);
    }

    /** After one region changed, the table's views differ from `v0`'s in that entry only. */
    lemma OthersUnchanged(v0: WorkerView, id: int)
      requires id in regions && regions.Keys == v0.regions.Keys
      requires forall k :: k in regions && k != id ==> regions[k].View() == v0.regions[k]
      ensures RegionViews() == v0.regions[id := regions[id].View()]
    {
      var m := v0.regions[id := regions[id].View()];
      forall k | k in regions
        ensures RegionViews()[k] == m[k]
      {
      }
      assert RegionViews().Keys == m.Keys;
    }

    /** `push(data)`. */
    method Push(options: Message)
      requires options.PushData? && Valid()
      modifies regions.Values
      ensures Valid() && View() == PushedTo(old(View()), options)
    {
      ghost var v0 := View();
      var id := options.regionId;
      if id !in regions {
        return;
      }
      regions[id].Draw(options.data, options.offsetX.GetOr(0), options.offsetY.GetOr(0), options.additive.GetOr(false));
      OthersUnchanged(v0, id);
      PushedValid(v0, options);
    }

    /** `clear(data)`. */
    method Clear(clearId: Option<int>)
      requires Valid()
      modifies regions.Values
      ensures Valid() && View() == ClearedIn(old(View()), clearId)
    {
      if clearId.Some? {
        ghost var v0 := View();
        var id := clearId.value;
        if id in regions {
          regions[id].Clear();
          OthersUnchanged(v0, id);
        }
        ClearedInValid(v0, clearId);
      } else {
        ClearAll();
      }
    }

    /** `clear()` with no region: every region is cleared, in creation order. */
    method ClearAll()
      requires Valid()
      modifies regions.Values
      ensures Valid() && View() == ClearedIn(old(View()), None)
    {
      ghost var v0 := View();
      var i := 0;
      while i < |order|
        invariant 0 <= i <= |order|
        invariant forall k :: k in regions ==>
          regions[k].View() == (if k in order[..i] then Cleared(v0.regions[k]) else v0.regions[k])
      {
        var id := order[i];
        regions[id].Clear();
        assert order[..i + 1] == order[..i] + [id];
        i := i + 1;
      }
      assert order[..|order|] == order;
      AllClearedIn(v0, RegionViews());
      ClearedInValid(v0, None);
    }

    /** `fill(data)`. */
    method Fill(id: int)
      requires Valid()
      modifies regions.Values
      ensures Valid() && View() == FilledIn(old(View()), id)
    {
      ghost var v0 := View();
      if id !in regions {
        return;
      }
      regions[id].Fill();
      OthersUnchanged(v0, id);
      FilledInValid(v0, id);
    }

    /** `updateFocus(data)`. */
    method UpdateFocus(state: bool)
      requires Valid()
      modifies this
      ensures Valid() && View() == Refocused(old(View()), state)
    {
      if isFocus == state {
        return;
      }
      isFocus := state;
      if state {
        Update();
      }
    }

    /** A requested animation frame fires and runs `update`. */
    method AnimationFrame()
      requires Valid() && pendingFrames > 0
      modifies this
      ensures Valid() && View() == FrameFired(old(View()))
    {
      pendingFrames := pendingFrames - 1;
      Update();
    }
  }
}
