/** The event that travels from a checker through its real and service to the load balancer
    (internal/types/xevent/xevent.go). */
module XEvent {
  import opened Keys
  import opened Common
  import opened RegistrySpec

  /** Enabled status and weight of a real. */
  datatype Status = Status(enable: bool, weight: int) {
    /** What the load balancer can tell apart: a disabled real has no weight. */
    function View(): (v: Status)
      ensures v.enable == enable
      ensures v.weight == if enable then weight else 0
    {
      if enable then this else Status(false, 0)
    }
  }

  const OFF := Status(false, 0)

  datatype EventType = Enable | Disable | Shutdown

  /** The content of an event, without the keys of its real and service. */
  datatype Signal = Signal(typ: EventType, next: Status, init: Status)

  /** Coalesces a pending signal with a newer one for the same real. */
  function Coalesce(pending: Signal, newer: Signal): Merged<Signal> {
    if newer.next == pending.init then Drop else Keep(pending.(next := newer.next))
  }

  class Event {
    var typ: EventType
    var serviceKey: Option<Service>
    var realKey: Option<Real>
    var next: Status
    var init: Status

    /** A fresh event, as a checker creates it. */
    constructor (typ: EventType, weight: int)
      ensures Content() == Signal(typ, Status(false, weight), OFF)
      ensures serviceKey == None && realKey == None
    {
      this.typ := typ;
      this.serviceKey, this.realKey := None, None;
      this.next := Status(false, weight);
      this.init := OFF;
    }

    ghost function Content(): Signal
      reads this
    {
      Signal(typ, next, init)
    }

    /** Merges a newer event into this pending one; `remove` asks to drop the pair. */
    method Merge(newer: Event) returns (remove: bool)
      modifies this
      ensures remove == (old(newer.next) == old(init))
      ensures Content() == old(Content()).(next := if remove then old(next) else old(newer.next))
      ensures remove == Coalesce(old(Content()), old(newer.Content())).Drop?
      ensures remove ==> Content() == old(Content())
      ensures !remove ==> Content() == Coalesce(old(Content()), old(newer.Content())).value
      ensures serviceKey == old(serviceKey) && realKey == old(realKey)
    {
      if newer.next == init {
        return true;
      }
      next := newer.next;
      return false;
    }
  }
}
