/** The state machine of a real server (internal/core/real/handler.go, real.go). */
module Real {
  import opened Common
  import opened XEvent
  import Keys
  import Weights

  datatype Config = Config(weight: int, inhibitOnFailure: bool)

  datatype State = State(alive: bool, weight: int, transitions: nat, dynWeight: bool, inhibited: bool) {
    function Status(): XEvent.Status {
      if inhibited then XEvent.Status(true, 0) else XEvent.Status(alive, weight)
    }

    /** An inhibited real is not alive; every handler keeps this. */
    predicate Consistent() {
      !(alive && inhibited)
    }
  }

  const FRESH := State(false, 0, 0, false, false)

  /** The weight a successful check gives the real. */
  function OfferedWeight(cfg: Config, s: State, offered: int): int {
    if !s.dynWeight then cfg.weight
    else if offered != Weights.OMITTED then offered
    else s.weight
  }

  /** Whether an event of this type makes the real report to its service. */
  predicate Reports(cfg: Config, s: State, typ: EventType, offered: int) {
    match typ
    case Enable => !s.alive || s.weight != OfferedWeight(cfg, s, offered)
    case Disable => s.alive || (cfg.inhibitOnFailure && !s.inhibited)
    case Shutdown => s.alive || cfg.inhibitOnFailure
  }

  /** Decision table: the state of a consistent real after an event. */
  function After(cfg: Config, s: State, typ: EventType, offered: int): State {
    if !Reports(cfg, s, typ, offered) then s
    else match typ
      case Enable => State(true, OfferedWeight(cfg, s, offered), s.transitions + (if s.alive then 0 else 1), s.dynWeight, false)
      case Disable => s.(alive := false, inhibited := cfg.inhibitOnFailure, transitions := s.transitions + 1)
      case Shutdown => s.(alive := false, inhibited := false, transitions := s.transitions + 1)
  }

  /** Decision table: what a consistent real reports on an event. */
  function Report(cfg: Config, s: State, typ: EventType, incoming: Status): Signal {
    match typ
    case Enable => Signal(Enable, Status(true, OfferedWeight(cfg, s, incoming.weight)), s.Status())
    case Disable => if cfg.inhibitOnFailure then Signal(Enable, Status(true, 0), s.Status()) else Signal(Disable, incoming, s.Status())
    case Shutdown => Signal(Shutdown, incoming, s.Status())
  }

  /** The state after successful checks that offered these weights. */
  function AfterChecks(cfg: Config, s: State, offers: seq<int>): State {
    if offers == [] then s
    else
      var n := |offers| - 1;
      After(cfg, AfterChecks(cfg, s, offers[..n]), Enable, offers[n])
  }

  /** The last weight offered, if any was. */
  function LastOffer(offers: seq<int>): Option<int> {
    if offers == [] then None
    else if offers[|offers| - 1] != Weights.OMITTED then Some(offers[|offers| - 1])
    else LastOffer(offers[..|offers| - 1])
  }

  /** Whatever checks a real passes, it is alive and has its configured weight, or, when its weight is
      dynamic, the last one that was offered, else the one it had; and passing the last check again would
      report nothing. */
  lemma {:induction false} WeightIsLastOffer(cfg: Config, s: State, offers: seq<int>)
    requires offers != []
    ensures var s' := AfterChecks(cfg, s, offers);
            && s'.alive && s'.dynWeight == s.dynWeight
            && s'.weight == (if !s.dynWeight then cfg.weight else if LastOffer(offers).Some? then LastOffer(offers).value else s.weight)
            && !Reports(cfg, s', Enable, offers[|offers| - 1])
  {
    var n := |offers| - 1;
    if n > 0 {
      WeightIsLastOffer(cfg, s, offers[..n]);
    }
  }

  class Real {
    const key: Keys.Real
    var config: Config
    var state: State

    constructor (key: Keys.Real, config: Config)
      ensures this.key == key && this.config == config && state == FRESH == State(false, 0, 0, false, false)
    {
      this.key, this.config, this.state := key, config, FRESH;
    }

    /** Handles a checker's event under the state lock. `reported` tells whether the rewritten event
        goes on to the service once the lock is released. */
    method HandleEvent(event: Event) returns (reported: bool)
      requires state.Consistent()
      modifies this`state, event
      ensures state.Consistent()
      ensures state == After(config, old(state), old(event.typ), old(event.next).weight)
      ensures reported == Reports(config, old(state), old(event.typ), old(event.next).weight)
      ensures event.realKey == Some(key) && event.serviceKey == old(event.serviceKey)
      ensures reported ==> event.Content() == Report(config, old(state), old(event.typ), old(event.next))
      // A passed check brings the real up, with the configured weight unless it is dynamic.
      ensures old(event.typ) == Enable ==>
                && state.alive && !state.inhibited && state.dynWeight == old(state.dynWeight)
                && (!state.dynWeight ==> state.weight == config.weight)
                && (state.dynWeight ==> state.weight == if old(event.next.weight) != -1 then old(event.next.weight) else old(state.weight))
                && (reported <==> !old(state.alive) || state.weight != old(state.weight))
                && (reported ==> event.typ == Enable && event.next == Status(true, state.weight))
      // A failed one brings it down, or keeps it enabled with weight zero.
      ensures old(event.typ) == Disable ==>
                && !state.alive && state.weight == old(state.weight) && state.dynWeight == old(state.dynWeight)
                && state.inhibited == (old(state.inhibited) || config.inhibitOnFailure)
                && (reported <==> old(state.alive) || (config.inhibitOnFailure && !old(state.inhibited)))
                && (reported && config.inhibitOnFailure ==> event.typ == Enable && event.next == Status(true, 0))
                && (reported && !config.inhibitOnFailure ==> event.typ == Disable && event.next == old(event.next))
      // A shutdown ends inhibition too, unless the real is down and not configured to be inhibited.
      ensures old(event.typ) == Shutdown ==>
                && !state.alive && state.weight == old(state.weight) && state.dynWeight == old(state.dynWeight)
                && state.inhibited == (old(state.inhibited) && !config.inhibitOnFailure)
                && (reported <==> old(state.alive) || config.inhibitOnFailure)
                && (reported ==> event.typ == Shutdown && event.next == old(event.next))
      // Every report starts from the old status, and every change of the real's status is a transition.
      ensures reported ==> event.init == if old(state.inhibited) then Status(true, 0) else Status(old(state.alive), old(state.weight))
      ensures state.transitions == old(state.transitions) + if reported && !(state.alive && old(state.alive)) then 1 else 0
    {
      event.realKey := Some(key);
      var drop := false;
      match event.typ {
        case Enable => drop := ProcessSucceed(event);
        case Disable => drop := ProcessFail(event);
        case Shutdown => drop := ProcessFail(event);
      }
      reported := !drop;
    }

    method ProcessSucceed(event: Event) returns (drop: bool)
      requires state.Consistent() && event.typ == Enable
      modifies this`state, event`next, event`init
      ensures state == After(config, old(state), Enable, old(event.next).weight)
      ensures drop == !Reports(config, old(state), Enable, old(event.next).weight)
      ensures !drop ==> event.Content() == Report(config, old(state), Enable, old(event.next))
    {
      var initStatus := state.Status();
      if state.inhibited {
        initStatus := Status(true, 0);
      }
      var newWeight := HandleDynamicWeight(event.next.weight);
      var weightChanged := UpdateWeight(newWeight);
      var statusChanged := EnableReal();
      if !statusChanged && !weightChanged {
        return true;
      }
      event.next := state.Status();
      event.init := initStatus;
      return false;
    }

    method ProcessFail(event: Event) returns (drop: bool)
      requires state.Consistent() && event.typ != Enable
      modifies this`state, event`typ, event`next, event`init
      ensures state == After(config, old(state), old(event.typ), old(event.next).weight)
      ensures drop == !Reports(config, old(state), old(event.typ), old(event.next).weight)
      ensures !drop ==> event.Content() == Report(config, old(state), old(event.typ), old(event.next))
    {
      var initStatus := state.Status();
      var statusChanged := DisableReal(event.typ);
      if !statusChanged {
        return true;
      }
      if state.inhibited {
        event.typ := Enable;
        event.next := Status(true, 0);
      }
      event.init := initStatus;
      return false;
    }

    method HandleDynamicWeight(weightFromChecker: int) returns (weight: int)
      ensures weight == OfferedWeight(config, state, weightFromChecker)
      ensures !state.dynWeight ==> weight == config.weight
      ensures state.dynWeight && weightFromChecker != Weights.OMITTED ==> weight == weightFromChecker
      ensures state.dynWeight && weightFromChecker == Weights.OMITTED ==> weight == state.weight
    {
      if !state.dynWeight {
        return config.weight;
      } else if weightFromChecker != Weights.OMITTED {
        return weightFromChecker;
      } else {
        return state.weight;
      }
    }

    method EnableReal() returns (changed: bool)
      modifies this`state
      ensures changed == !old(state.alive)
      ensures state == if changed then old(state).(alive := true, inhibited := false, transitions := old(state).transitions + 1) else old(state)
    {
      if state.alive {
        return false;
      }
      state := state.(alive := true, inhibited := false);
      state := state.(transitions := state.transitions + 1);
      return true;
    }

    method DisableReal(eventType: EventType) returns (changed: bool)
      requires state.Consistent() && eventType != Enable
      modifies this`state
      ensures changed == Reports(config, old(state), eventType, 0)
      ensures state == After(config, old(state), eventType, 0)
    {
      if !state.alive && !config.inhibitOnFailure {
        return false;
      }
      var isShutdown := eventType == Shutdown;
      if !state.alive && state.inhibited && !isShutdown {
        return false;
      }
      if config.inhibitOnFailure {
        state := state.(inhibited := true);
      }
      if isShutdown {
        state := state.(inhibited := false);
      }
      state := state.(alive := false, transitions := state.transitions + 1);
      return true;
    }

    method UpdateWeight(weight: int) returns (changed: bool)
      modifies this`state
      ensures changed == (old(state.weight) != weight)
      ensures state == old(state).(weight := weight)
    {
      if state.weight == weight {
        return false;
      }
      state := state.(weight := weight);
      return true;
    }
  }
}
