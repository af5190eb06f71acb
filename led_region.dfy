/**
 * The page-side handle of one region. It remembers the geometry the page
 * last asked for and turns every change, every drawing and every clear or
 * fill into one message to the worker; it never receives anything back.
 */
module DisplayRegion {
  import opened Wrappers
  import opened LedCommon

  /** The class-wide counter that hands out region ids, shared by every display on the page. */
  class RegionCounter {
    var next: int

    constructor()
      ensures next == 0
    {
      next := 0;
    }
  }

  /** The geometry a region handle holds. */
  datatype Geometry = Geometry(width: int, height: int, originX: int, originY: int, offsetX: int, offsetY: int)

  /** The message a handle posts when it is created: its id and its four resolved extents. */
  function CreationMessage(id: int, g: Geometry): (m: Message)
    ensures m.UpdateRegion? && m.regionId == id
    ensures m.width == Some(g.width) && m.height == Some(g.height)
    ensures m.originX == Some(g.originX) && m.originY == Some(g.originY)
    ensures m.offsetX.None? && m.offsetY.None?
  {
    UpdateRegion(id, Some(g.width), Some(g.height), Some(g.originX), Some(g.originY), None, None)
  }

  /** The message a `draw` call posts: absent offsets are sent as 0, `additive` as given. */
  function DrawMessage(id: int, data: seq<seq<bool>>, offsetX: Option<int>, offsetY: Option<int>, additive: Option<bool>): (m: Message)
    ensures m.PushData? && m.regionId == id && m.data == data && m.additive == additive
    ensures m.offsetX.Some? && m.offsetY.Some?
    ensures offsetX.Some? ==> m.offsetX == offsetX
    ensures offsetY.Some? ==> m.offsetY == offsetY
    ensures offsetX.None? ==> m.offsetX == Some(0)
    ensures offsetY.None? ==> m.offsetY == Some(0)
  {
    PushData(id, data, Some(offsetX.GetOr(0)), Some(offsetY.GetOr(0)), additive)
  }

  class LedDisplayRegion {
    const regionId: int
    const worker: Channel
    var width: int
    var height: int
    var originX: int
    var originY: int
    var offsetX: int
    var offsetY: int
    /** Declared and initialised as one empty row; nothing reads or writes it afterwards. */
    var data: seq<seq<bool>>

    function Shape(): Geometry
      reads this
    {
      Geometry(width, height, originX, originY, offsetX, offsetY)
    }

    /**
     * Takes the next id from the counter, keeps the requested geometry with
     * zero offsets and announces the region to the worker.
     */
    constructor(counter: RegionCounter, worker: Channel, width: int, height: int, originX: int, originY: int)
      modifies counter, worker
      ensures regionId == old(counter.next) && counter.next == old(counter.next) + 1
      ensures this.worker == worker
      ensures Shape() == Geometry(width, height, originX, originY, 0, 0)
      ensures data == [[]]
      ensures worker.log == old(worker.log) + [CreationMessage(regionId, Shape())]
    {
      regionId := counter.next;
      this.worker := worker;
      this.width, this.height := width, height;
      this.originX, this.originY := originX, originY;
      offsetX, offsetY := 0, 0;
      data := [[]];
      new;
      counter.next := counter.next + 1;
      worker.Post(UpdateRegion(regionId, Some(width), Some(height), Some(originX), Some(originY), None, None));
    }

    method SetWidth(value: int)
      modifies this, worker
      ensures Shape() == old(Shape()).(width := value) && data == old(data)
      ensures worker.log == old(worker.log) + [UpdateRegion(regionId, Some(value), None, None, None, None, None)]
    {
      width := value;
      worker.Post(UpdateRegion(regionId, Some(width), None, None, None, None, None));
    }

    method SetHeight(value: int)
      modifies this, worker
      ensures Shape() == old(Shape()).(height := value) && data == old(data)
      ensures worker.log == old(worker.log) + [UpdateRegion(regionId, None, Some(value), None, None, None, None)]
    {
      height := value;
      worker.Post(UpdateRegion(regionId, None, Some(height), None, None, None, None));
    }

    method SetOriginX(value: int)
      modifies this, worker
      ensures Shape() == old(Shape()).(originX := value) && data == old(data)
      ensures worker.log == old(worker.log) + [UpdateRegion(regionId, None, None, Some(value), None, None, None)]
    {
      originX := value;
      worker.Post(UpdateRegion(regionId, None, None, Some(originX), None, None, None));
    }

    method SetOriginY(value: int)
      modifies this, worker
      ensures Shape() == old(Shape()).(originY := value) && data == old(data)
      ensures worker.log == old(worker.log) + [UpdateRegion(regionId, None, None, None, Some(value), None, None)]
    {
      originY := value;
      worker.Post(UpdateRegion(regionId, None, None, None, Some(originY), None, None));
    }

    method SetOffsetX(value: int)
      modifies this, worker
      ensures Shape() == old(Shape()).(offsetX := value) && data == old(data)
      ensures worker.log == old(worker.log) + [UpdateRegion(regionId, None, None, None, None, Some(value), None)]
    {
      offsetX := value;
      worker.Post(UpdateRegion(regionId, None, None, None, None, Some(offsetX), None));
    }

    method SetOffsetY(value: int)
      modifies this, worker
      ensures Shape() == old(Shape()).(offsetY := value) && data == old(data)
      ensures worker.log == old(worker.log) + [UpdateRegion(regionId, None, None, None, None, None, Some(value))]
    {
      offsetY := value;
      worker.Post(UpdateRegion(regionId, None, None, None, None, None, Some(offsetY)));
    }

    /** `draw(data, offsetX = 0, offsetY = 0, additive?)`: the bitmap goes to the worker unchanged. */
    method Draw(data: seq<seq<bool>>, offsetX: Option<int>, offsetY: Option<int>, additive: Option<bool>)
      modifies worker
      ensures worker.log == old(worker.log) + [DrawMessage(regionId, data, offsetX, offsetY, additive)]
    {
      var ox := if offsetX.Some? then offsetX.value else 0;
      var oy := if offsetY.Some? then offsetY.value else 0;
      worker.Post(PushData(regionId, data, Some(ox), Some(oy), additive));
    }

    /** `clear()`: only this region is cleared. */
    method Clear()
      modifies worker
      ensures worker.log == old(worker.log) + [LedCommon.Clear(Some(regionId))]
    {
      worker.Post(LedCommon.Clear(Some(regionId)));
    }

    /** `fill()`. */
    method Fill()
      modifies worker
      ensures worker.log == old(worker.log) + [LedCommon.Fill(regionId)]
    {
      worker.Post(LedCommon.Fill(regionId));
    }
  }
}
