/** What the balancer and the announcer have done, in order: a record for specifications only. */
module History {
  import Keys

  datatype Act =
    | Stored(key: Keys.Balancer)                                // an event was stored for the balancer
    | Registered(service: Keys.Service, status: bool)           // a service status was stored for the announcer
    | Taken                                                     // all pending service statuses were taken out
    | EnableCalled(key: Keys.Balancer, weight: int, ok: bool)   // the load balancer was called
    | DisableCalled(key: Keys.Balancer, ok: bool)
    | Announced(service: Keys.Service, status: bool)            // a service status was passed on to its prefix

  class Log {
    ghost var acts: seq<Act>

    constructor ()
      ensures acts == []
    {
      acts := [];
    }

    ghost method Add(act: Act)
      modifies this
      ensures acts == old(acts) + [act]
    {
      acts := acts + [act];
    }
  }
}
