/**
 * The messages the display element sends to its rendering worker, and
 * the ordered channel that carries them.
 */
module LedCommon {
  import opened Wrappers

  /**
   * The `type` tag of a message. The enumeration declares the first six
   * tags only; the worker and the display element also use a focus tag,
   * which the model adds as `focus`.
   */
  datatype DataType = transferCanvas | push | updateCanvas | updateRegion | clear | fill | focus

  /** The string value of a tag; the focus tag has no declared value. */
  function TagName(t: DataType): Option<string> {
    match t
    case transferCanvas => Some("transfer-canvas")
    case push => Some("push")
    case updateCanvas => Some("update-canvas")
    case updateRegion => Some("update-region")
    case clear => Some("clear")
    case fill => Some("fill")
    case focus => None
  }

  /** The tag a string value names, if any. */
  function ParseTag(name: string): Option<DataType> {
    if name == "transfer-canvas" then Some(transferCanvas)
    else if name == "push" then Some(push)
    else if name == "update-canvas" then Some(updateCanvas)
    else if name == "update-region" then Some(updateRegion)
    else if name == "clear" then Some(clear)
    else if name == "fill" then Some(fill)
    else None
  }

  /** Tag names and tags correspond one to one. */
  lemma TagNames(t: DataType, name: string)
    ensures TagName(t) == Some(name) <==> ParseTag(name) == Some(t)
  {
  }

  /** The transferred drawing surface, known by its pixel size only. */
  datatype CanvasHandle = CanvasHandle(width: int, height: int)

  /**
   * A message. Every field the interfaces mark optional is an `Option`;
   * a message whose tag is none of the known ones is `Unknown`.
   */
  datatype Message =
    | TransferCanvas(canvas: CanvasHandle)
    | UpdateCanvas(unscaledWidth: Option<int>, unscaledHeight: Option<int>, scale: Option<int>,
                   color: Option<string>, dimColor: Option<string>, backgroundColor: Option<string>,
                   padding: Option<int>)
    | UpdateRegion(regionId: int, width: Option<int>, height: Option<int>,
                   originX: Option<int>, originY: Option<int>,
                   offsetX: Option<int>, offsetY: Option<int>)
    | PushData(regionId: int, data: seq<seq<bool>>,
               offsetX: Option<int>, offsetY: Option<int>, additive: Option<bool>)
    | Clear(clearId: Option<int>)
    | Fill(regionId: int)
    | Focus(state: bool)
    | Unknown(tag: string)

  /** The `type` field of a known message. */
  function TypeOf(m: Message): (t: Option<DataType>)
    ensures t.None? <==> m.Unknown?
  {
    match m
    case TransferCanvas(_) => Some(transferCanvas)
    case UpdateCanvas(_, _, _, _, _, _, _) => Some(updateCanvas)
    case UpdateRegion(_, _, _, _, _, _, _) => Some(updateRegion)
    case PushData(_, _, _, _, _) => Some(push)
    case Clear(_) => Some(clear)
    case Fill(_) => Some(fill)
    case Focus(_) => Some(focus)
    case Unknown(_) => None
  }

  /**
   * The worker side of the connection as seen from the page: every
   * `postMessage` appends to an ordered log.
   */
  class Channel {
    var log: seq<Message>

    constructor()
      ensures log == []
    {
      log := [];
    }

    method Post(m: Message)
      modifies this
      ensures log == old(log) + [m]
    {
      log := log + [m];
    }
  }
}
