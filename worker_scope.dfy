/**
 * The compositor worker's global scope: the `ledWorker` variable, absent
 * until a canvas arrives, and the message listener that routes each
 * message to the worker's operation for its tag.
 */
module WorkerScope {
  import opened Wrappers
  import opened LedCommon
  import opened Compositor

  class Scope {
    var ledWorker: LedWorker?

    /** The worker's state as a value, or `None` before the first canvas transfer. */
    function State(): Option<WorkerView>
      reads this, ledWorker, if ledWorker == null then {} else ledWorker.regions.Values
    {
      if ledWorker == null then None else Some(ledWorker.View())
    }

    ghost predicate Valid()
      reads this, ledWorker, if ledWorker == null then {} else ledWorker.regions.Values
    {
      ledWorker != null ==> ledWorker.Valid()
    }

    constructor()
      ensures Valid() && State() == None
    {
      ledWorker := null;
    }

    /** The `message` listener: one message, routed by its tag. */
    method OnMessage(m: Message)
      requires Valid()
      modifies this, ledWorker, if ledWorker == null then {} else ledWorker.regions.Values
      ensures Valid() && State() == Dispatched(old(State()), m)
    {
      if m.TransferCanvas? {
        if ledWorker == null {
          ledWorker := new LedWorker(m.canvas);
        }
        return;
      }
      if ledWorker == null {
        return;
      }
      var w := ledWorker;
      match m {
        case UpdateCanvas(_, _, _, _, _, _, _) => w.Init(m);
        case UpdateRegion(_, _, _, _, _, _, _) => w.UpdateRegion(m);
        case PushData(_, _, _, _, _) => w.Push(m);
        case Clear(id) => w.Clear(id);
        case Fill(id) => w.Fill(id);
        case Focus(state) => w.UpdateFocus(state);
        case Unknown(_) =>
      }
    }
  }
}
