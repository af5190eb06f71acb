/**
 * The `<led-display>` element on the page side. It keeps the attribute
 * values it was given, reports defaults for the missing ones, and forwards
 * every change to its worker as an `UpdateCanvas` message. The worker's
 * state is never read back; what the element believes and what the worker
 * holds agree because the element's messages, replayed by the worker,
 * rebuild exactly the element's view of the configuration.
 */
module Display {
  import opened Wrappers
  import opened LedCommon
  import opened RegionGeometry
  import opened Compositor
  import opened DisplayRegion

  const DEFAULT_COLOR: string := "rgba(255, 128, 0, 0.75)"
  const DEFAULT_BACKGROUND: string := "rgba(0, 0, 0, 0.25)"

  /** The attribute values set so far; `None` is a value never set. */
  datatype Attributes = Attributes(
    unscaledWidth: Option<int>, unscaledHeight: Option<int>, scale: Option<int>,
    color: Option<string>, dimColor: Option<string>, backgroundColor: Option<string>,
    padding: Option<int>)

  const UNSET: Attributes := Attributes(None, None, None, None, None, None, None)

  /** JavaScript `s || fallback` on an optional string: an absent or empty string gives `fallback`. */
  function OrElse(s: Option<string>, fallback: string): (r: string)
    ensures s.Some? && s.value != "" ==> r == s.value
    ensures (s.None? || s.value == "") ==> r == fallback
  {
    if s.Some? && s.value != "" then s.value else fallback
  }

  /** The rectangle `createRegion` asks for; `None` stands for a missing property. */
  datatype RegionRequest = RegionRequest(width: Option<int>, height: Option<int>, originX: Option<int>, originY: Option<int>)

  /**
   * The geometry `createRegion` resolves against the display size, with
   * the same rules the worker applies; a missing options object is an
   * empty one.
   */
  function ResolvedShape(options: Option<RegionRequest>, dimW: int, dimH: int): (g: Geometry)
    ensures g.offsetX == 0 && g.offsetY == 0
    ensures options.None? ==> g == Geometry(dimW, dimH, 0, 0, 0, 0)
  {
    var o := options.GetOr(RegionRequest(None, None, None, None));
    var ox := ResolveOrigin(o.originX, dimW);
    var oy := ResolveOrigin(o.originY, dimH);
    Geometry(ResolveExtent(o.width, dimW, ox), ResolveExtent(o.height, dimH, oy), ox, oy, 0, 0)
  }

  /**
   * The worker resolves the rectangle a new handle announces once more.
   * Where the handle's resolved origin is non-negative and its extents
   * positive, the worker's buffer gets exactly the handle's geometry.
   */
  lemma WorkerKeepsResolvedShape(options: Option<RegionRequest>, c: Config, id: int)
    requires var g := ResolvedShape(options, c.unscaledWidth, c.unscaledHeight);
      g.originX >= 0 && g.originY >= 0 && g.width > 0 && g.height > 0
    ensures var g := ResolvedShape(options, c.unscaledWidth, c.unscaledHeight);
      var r := CreatedRegion(CreationMessage(id, g), c);
      && r.regionId == id
      && r.originX == g.originX && r.originY == g.originY
      && r.width == g.width && r.height == g.height
      && r.offsetX == g.offsetX && r.offsetY == g.offsetY
  {
    var g := ResolvedShape(options, c.unscaledWidth, c.unscaledHeight);
    ResolveAgain(g.originX, g.width, c.unscaledWidth);
    ResolveAgain(g.originY, g.height, c.unscaledHeight);
  }

  /**
   * Out of range the two sides disagree: a width of -100 on an 88-cell
   * display resolves to -12 in the handle, and the worker, seeing a
   * non-positive width, resolves it again to 76.
   */
  lemma WorkerResolvesTwice()
    ensures var g := ResolvedShape(Some(RegionRequest(Some(-100), None, None, None)), 88, 31);
      g.width == -12 && CreatedRegion(CreationMessage(0, g), DEFAULT_CONFIG).width == 76
  {
  }

  /**
   * The worker's state rebuilt from `log` exists, holds the configuration
   * `cfg` and knows every region id in `ids`.
   */
  predicate LogSynced(log: seq<Message>, cfg: Config, ids: set<int>) {
    var s := Run(None, log);
    s.Some? && s.value.config == cfg && ids <= s.value.regions.Keys
  }

  /** The canvas handed over, then every setting: the worker runs with those settings, focused, with no regions. */
  lemma OpeningLog(canvas: CanvasHandle, m: Message, cfg: Config)
    requires m.UpdateCanvas? && Reconfigured(DEFAULT_CONFIG, m) == cfg
    ensures LogSynced([TransferCanvas(canvas), m], cfg, {})
    ensures Run(None, [TransferCanvas(canvas), m]).value.isFocus
  {
    RunSnoc(None, [], TransferCanvas(canvas));
    RunSnoc(None, [TransferCanvas(canvas)], m);
  }

  /** A message that is not an `UpdateCanvas` keeps a synchronised log synchronised. */
  lemma PostKeepsSync(log: seq<Message>, cfg: Config, ids: set<int>, m: Message)
    requires LogSynced(log, cfg, ids) && !m.UpdateCanvas?
    ensures LogSynced(log + [m], cfg, ids)
  {
    RunSnoc(None, log, m);
    KeepsConfig(Run(None, log).value, m);
  }

  /** An `UpdateCanvas` message carrying the new configuration's changed fields keeps the log synchronised. */
  lemma UpdateKeepsSync(log: seq<Message>, cfg: Config, ids: set<int>, m: Message, cfg': Config)
    requires LogSynced(log, cfg, ids) && m.UpdateCanvas? && Reconfigured(cfg, m) == cfg'
    ensures LogSynced(log + [m], cfg', ids)
  {
    RunSnoc(None, log, m);
  }

  class LedDisplay {
    /** The channel to this element's own worker. */
    const worker: Channel
    /** `color(c).darken(0.8).fade(0.5).string()`, from the colour library. */
    const shade: string -> string
    var attrs: Attributes
    var regions: seq<LedDisplayRegion>

    function UnscaledWidth(): int reads this { attrs.unscaledWidth.GetOr(88) }
    function UnscaledHeight(): int reads this { attrs.unscaledHeight.GetOr(31) }
    function Scale(): int reads this { attrs.scale.GetOr(4) }
    function Padding(): int reads this { attrs.padding.GetOr(1) }
    function Color(): string reads this { OrElse(attrs.color, DEFAULT_COLOR) }
    /** An unset dim colour is derived from the current lit colour. */
    function DimColor(): string reads this { OrElse(attrs.dimColor, shade(Color())) }
    function BackgroundColor(): string reads this { OrElse(attrs.backgroundColor, DEFAULT_BACKGROUND) }

    /** The configuration the getters report, in the worker's terms. */
    function Settings(): Config
      reads this
    {
      Config(UnscaledWidth(), UnscaledHeight(), Scale(), Color(), DimColor(), BackgroundColor(), Padding())
    }

    /** The `UpdateCanvas` message that carries every setting. */
    function SettingsMessage(): (m: Message)
      reads this
      ensures m.UpdateCanvas? && Reconfigured(DEFAULT_CONFIG, m) == Settings()
    {
      UpdateCanvas(Some(UnscaledWidth()), Some(UnscaledHeight()), Some(Scale()),
        Some(Color()), Some(DimColor()), Some(BackgroundColor()), Some(Padding()))
    }

    function RegionIds(): set<int>
      reads this
    {
      set r | r in regions :: r.regionId
    }

    /**
     * The worker rebuilt from everything posted so far holds the getters'
     * configuration and knows every region created here; every region
     * handle talks to this element's worker.
     */
    ghost predicate Synced()
      reads this, worker
    {
      LogSynced(worker.log, Settings(), RegionIds())
      && forall r :: r in regions ==> r.worker == worker
    }

    /**
     * Transfers the canvas, sends every setting, and reports the page as
     * hidden when it already is.
     */
    constructor(canvas: CanvasHandle, hidden: bool, shade: string -> string)
      ensures fresh(worker) && this.shade == shade
      ensures attrs == UNSET && regions == []
      ensures worker.log == [TransferCanvas(canvas), SettingsMessage()] + (if hidden then [Focus(false)] else [])
      ensures Synced()
      ensures Run(None, worker.log).value.isFocus == !hidden
    {
      worker := new Channel();
      this.shade := shade;
      attrs := UNSET;
      regions := [];
      new;
      worker.Post(TransferCanvas(canvas));
      worker.Post(SettingsMessage());
      assert worker.log == [TransferCanvas(canvas), SettingsMessage()];
      OpeningLog(canvas, SettingsMessage(), Settings());
      if hidden {
        HandleVisibilityChange(hidden);
      }
    }

    method SetUnscaledWidth(value: int)
      requires Synced()
      modifies this, worker
      ensures attrs == old(attrs).(unscaledWidth := Some(value)) && regions == old(regions)
      ensures worker.log == old(worker.log) + [UpdateCanvas(Some(value), None, None, None, None, None, None)]
      ensures Synced()
    {
      ghost var cfg := Settings();
      attrs := attrs.(unscaledWidth := Some(value));
      var m := UpdateCanvas(Some(UnscaledWidth()), None, None, None, None, None, None);
      UpdateKeepsSync(worker.log, cfg, RegionIds(), m, Settings());
      worker.Post(m);
    }

    method SetUnscaledHeight(value: int)
      requires Synced()
      modifies this, worker
      ensures attrs == old(attrs).(unscaledHeight := Some(value)) && regions == old(regions)
      ensures worker.log == old(worker.log) + [UpdateCanvas(None, Some(value), None, None, None, None, None)]
      ensures Synced()
    {
      ghost var cfg := Settings();
      attrs := attrs.(unscaledHeight := Some(value));
      var m := UpdateCanvas(None, Some(UnscaledHeight()), None, None, None, None, None);
      UpdateKeepsSync(worker.log, cfg, RegionIds(), m, Settings());
      worker.Post(m);
    }

    method SetScale(value: int)
      requires Synced()
      modifies this, worker
      ensures attrs == old(attrs).(scale := Some(value)) && regions == old(regions)
      ensures worker.log == old(worker.log) + [UpdateCanvas(None, None, Some(value), None, None, None, None)]
      ensures Synced()
    {
      ghost var cfg := Settings();
      attrs := attrs.(scale := Some(value));
      var m := UpdateCanvas(None, None, Some(Scale()), None, None, None, None);
      UpdateKeepsSync(worker.log, cfg, RegionIds(), m, Settings());
      worker.Post(m);
    }

    method SetPadding(value: int)
      requires Synced()
      modifies this, worker
      ensures attrs == old(attrs).(padding := Some(value)) && regions == old(regions)
      ensures worker.log == old(worker.log) + [UpdateCanvas(None, None, None, None, None, None, Some(value))]
      ensures Synced()
    {
      ghost var cfg := Settings();
      attrs := attrs.(padding := Some(value));
      var m := UpdateCanvas(None, None, None, None, None, None, Some(Padding()));
      UpdateKeepsSync(worker.log, cfg, RegionIds(), m, Settings());
      worker.Post(m);
    }

    /** Setting the lit colour also sends the dim colour, which may be derived from it. */
    method SetColor(value: string)
      requires Synced()
      modifies this, worker
      ensures attrs == old(attrs).(color := Some(value)) && regions == old(regions)
      ensures worker.log == old(worker.log) + [UpdateCanvas(None, None, None, Some(Color()), Some(DimColor()), None, None)]
      ensures Synced()
    {
      ghost var cfg := Settings();
      attrs := attrs.(color := Some(value));
      var m := UpdateCanvas(None, None, None, Some(Color()), Some(DimColor()), None, None);
      UpdateKeepsSync(worker.log, cfg, RegionIds(), m, Settings());
      worker.Post(m);
    }

    method SetDimColor(value: string)
      requires Synced()
      modifies this, worker
      ensures attrs == old(attrs).(dimColor := Some(value)) && regions == old(regions)
      ensures worker.log == old(worker.log) + [UpdateCanvas(None, None, None, None, Some(DimColor()), None, None)]
      ensures Synced()
    {
      ghost var cfg := Settings();
      attrs := attrs.(dimColor := Some(value));
      var m := UpdateCanvas(None, None, None, None, Some(DimColor()), None, None);
      UpdateKeepsSync(worker.log, cfg, RegionIds(), m, Settings());
      worker.Post(m);
    }

    method SetBackgroundColor(value: string)
      requires Synced()
      modifies this, worker
      ensures attrs == old(attrs).(backgroundColor := Some(value)) && regions == old(regions)
      ensures worker.log == old(worker.log) + [UpdateCanvas(None, None, None, None, None, Some(BackgroundColor()), None)]
      ensures Synced()
    {
      ghost var cfg := Settings();
      attrs := attrs.(backgroundColor := Some(value));
      var m := UpdateCanvas(None, None, None, None, None, Some(BackgroundColor()), None);
      UpdateKeepsSync(worker.log, cfg, RegionIds(), m, Settings());
      worker.Post(m);
    }

    /**
     * `createRegion(options)`: resolves the rectangle against the display
     * size, creates a handle (which announces itself to the worker) and
     * keeps it.
     */
    method CreateRegion(counter: RegionCounter, options: Option<RegionRequest>) returns (region: LedDisplayRegion)
      requires Synced()
      modifies this, counter, worker
      ensures fresh(region) && regions == old(regions) + [region] && attrs == old(attrs)
      ensures region.worker == worker
      ensures region.regionId == old(counter.next) && counter.next == old(counter.next) + 1
      ensures region.Shape() == ResolvedShape(options, UnscaledWidth(), UnscaledHeight())
      ensures worker.log == old(worker.log) + [CreationMessage(region.regionId, region.Shape())]
      ensures Synced()
    {
      var o := if options.Some? then options.value else RegionRequest(None, None, None, None);
      var originX := ResolveOrigin(o.originX, UnscaledWidth());
      var originY := ResolveOrigin(o.originY, UnscaledHeight());
      var width := ResolveExtent(o.width, UnscaledWidth(), originX);
      var height := ResolveExtent(o.height, UnscaledHeight(), originY);
      ghost var log := worker.log;
      ghost var cfg := Settings();
      ghost var ids := RegionIds();
      region := new LedDisplayRegion(counter, worker, width, height, originX, originY);
      regions := regions + [region];
      ghost var m := CreationMessage(region.regionId, region.Shape());
      PostKeepsSync(log, cfg, ids, m);
      RunSnoc(None, log, m);
      assert RegionIds() == ids + {region.regionId};
    }

    /** `clear()`: every region of the worker is cleared. */
    method Clear()
      requires Synced()
      modifies worker
      ensures worker.log == old(worker.log) + [LedCommon.Clear(None)]
      ensures Synced()
    {
      PostKeepsSync(worker.log, Settings(), RegionIds(), LedCommon.Clear(None));
      worker.Post(LedCommon.Clear(None));
    }

    /** The page's visibility changed: the worker paints only while the page is visible. */
    method HandleVisibilityChange(hidden: bool)
      requires Synced()
      modifies worker
      ensures worker.log == old(worker.log) + [Focus(!hidden)]
      ensures Synced() && Run(None, worker.log).value.isFocus == !hidden
    {
      PostKeepsSync(worker.log, Settings(), RegionIds(), Focus(!hidden));
      RunSnoc(None, worker.log, Focus(!hidden));
      worker.Post(Focus(!hidden));
    }
  }
}
