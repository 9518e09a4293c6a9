/** The state machine of a service: totals kept by deltas and a quorum with hysteresis
    (internal/core/service/handler.go). */
module Service {
  import opened Common
  import opened RegistrySpec
  import opened XEvent
  import Announcer
  import History
  import Balancer
  import Keys

  datatype Config = Config(quorum: int, hysteresis: int, announceGroup: string)

  datatype State = State(alive: bool, weight: int, realsAlive: int, transitions: nat)

  const FRESH := State(false, 0, 0, 0)

  /** How an event changes the service's total weight. */
  function WeightDelta(e: Signal): int {
    if e.typ != Enable then -e.init.weight
    else if e.init.enable then e.next.weight - e.init.weight
    else e.next.weight
  }

  /** How an event changes the number of enabled reals. */
  function CountDelta(e: Signal): int {
    if e.typ != Enable then -1 else if e.init.enable then 0 else 1
  }

  function Counted(s: State, e: Signal): State {
    s.(weight := s.weight + WeightDelta(e), realsAlive := s.realsAlive + CountDelta(e))
  }

  datatype Quorum = Hold | Up | Down

  function QuorumState(cfg: Config, weight: int): Quorum {
    if weight >= cfg.quorum + cfg.hysteresis then Up
    else if weight < cfg.quorum - cfg.hysteresis || weight == 0 then Down
    else Hold
  }

  /** The state after the announce has been brought in line with the quorum. */
  function Settled(cfg: Config, s: State): State {
    var alive := match QuorumState(cfg, s.weight) case Up => true case Down => false case Hold => s.alive;
    s.(alive := alive, transitions := s.transitions + if alive == s.alive then 0 else 1)
  }

  /** At or above the upper threshold a service is up, below the lower one or at zero it is down, and in between it
      stays as it was; every change is a transition, and nothing else changes. */
  lemma SettledByTheThresholds(cfg: Config, s: State)
    ensures Settled(cfg, s) == s.(alive := Settled(cfg, s).alive, transitions := Settled(cfg, s).transitions)
    ensures Settled(cfg, s).alive == (s.weight >= cfg.quorum + cfg.hysteresis
                                      || (s.alive && s.weight >= cfg.quorum - cfg.hysteresis && s.weight != 0))
    ensures Settled(cfg, s).transitions == s.transitions + if Settled(cfg, s).alive != s.alive then 1 else 0
  {
  }

  class Service {
    const key: Keys.Service
    const balancer: Balancer.Balancer
    const announcer: Announcer.Announcer
    var config: Config
    var state: State

    constructor (key: Keys.Service, config: Config, balancer: Balancer.Balancer, announcer: Announcer.Announcer)
      ensures this.key == key && this.config == config && state == FRESH == State(false, 0, 0, 0)
      ensures this.balancer == balancer && this.announcer == announcer
    {
      this.key, this.config, this.balancer, this.announcer := key, config, balancer, announcer;
      state := FRESH;
    }

    /** Handles an event reported by one of the service's reals. */
    method HandleEvent(event: Event)
      requires balancer.events.Valid() && event !in balancer.events.Repr && event.realKey.Some?
      requires balancer.events.log == announcer.log
      modifies this`state, event`serviceKey, balancer.events, balancer.events.Repr, announcer.serviceEvents, announcer.log
      ensures state == Settled(config, Counted(old(state), old(event.Content())))
      ensures state.weight == old(state.weight) - old(if event.typ != Enable || event.init.enable then event.init.weight else 0)
                                                + old(if event.typ == Enable then event.next.weight else 0)
      ensures state.realsAlive == old(state.realsAlive) + old(if event.typ != Enable then -1 else if event.init.enable then 0 else 1)
      ensures state.alive == (state.weight >= config.quorum + config.hysteresis
                              || (old(state.alive) && state.weight >= config.quorum - config.hysteresis && state.weight != 0))
      ensures balancer.events.Valid() && balancer.events.Repr == old(balancer.events.Repr) + {event}
      ensures balancer.events.View() ==
                Stored(old(balancer.events.View()), Keys.Balancer(key, event.realKey.value), old(event.Content()), Coalesce)
      ensures announcer.serviceEvents.events ==
                if state.alive != old(state.alive) && config.announceGroup != ""
                then Stored(old(announcer.serviceEvents.events), key, state.alive, Cancel)
                else old(announcer.serviceEvents.events)
      // The event is stored for the balancer before a changed verdict is registered.
      ensures announcer.log.acts == old(announcer.log.acts) + [History.Stored(Keys.Balancer(key, event.realKey.value))]
                + if state.alive != old(state.alive) && config.announceGroup != "" then [History.Registered(key, state.alive)] else []
    {
      ProcessEvent(event);
      assert balancer.events.View() == old(balancer.events.View());
      balancer.HandleEvent(event);
      ProcessAnnounce();
    }

    method ProcessEvent(event: Event)
      modifies this`state, event`serviceKey
      ensures state == Counted(old(state), event.Content())
      ensures event.serviceKey == Some(key)
    {
      event.serviceKey := Some(key);
      match event.typ {
        case Enable => ProcessSucceed(event);
        case Disable => ProcessFailure(event);
        case Shutdown => ProcessFailure(event);
      }
    }

    method ProcessSucceed(event: Event)
      requires event.typ == Enable
      modifies this`state
      ensures state == Counted(old(state), event.Content())
    {
      var delta := event.next.weight - event.init.weight;
      if !event.init.enable {
        delta := event.next.weight;
        state := state.(realsAlive := state.realsAlive + 1);
      }
      state := state.(weight := state.weight + delta);
    }

    method ProcessFailure(event: Event)
      requires event.typ != Enable
      modifies this`state
      ensures state == Counted(old(state), event.Content())
    {
      state := state.(weight := state.weight - event.init.weight);
      state := state.(realsAlive := state.realsAlive - 1);
    }

    method ProcessAnnounce()
      modifies this`state, announcer.serviceEvents, announcer.log
      ensures state == Settled(config, old(state))
      ensures state.alive == (state.weight >= config.quorum + config.hysteresis
                              || (old(state.alive) && state.weight >= config.quorum - config.hysteresis && state.weight != 0))
      ensures announcer.serviceEvents.events ==
                if state.alive != old(state.alive) && config.announceGroup != ""
                then Stored(old(announcer.serviceEvents.events), key, state.alive, Cancel)
                else old(announcer.serviceEvents.events)
      ensures announcer.log.acts == old(announcer.log.acts)
                + if state.alive != old(state.alive) && config.announceGroup != "" then [History.Registered(key, state.alive)] else []
    {
      var announceChanged := UpdateAnnounce();
      if announceChanged && config.announceGroup != "" {
        announcer.RegisterServiceEvent(key, state.alive);
      }
    }

    method UpdateAnnounce() returns (changed: bool)
      modifies this`state
      ensures state == Settled(config, old(state)) && changed == (state.alive != old(state.alive))
      ensures state == old(state).(alive := state.alive, transitions := old(state.transitions) + if changed then 1 else 0)
      ensures state.alive == (state.weight >= config.quorum + config.hysteresis
                              || (old(state.alive) && state.weight >= config.quorum - config.hysteresis && state.weight != 0))
    {
      match QuorumState(config, state.weight) {
        case Up => changed := EnableService();
        case Down => changed := DisableService();
        case Hold => changed := false;
      }
    }

    method EnableService() returns (changed: bool)
      modifies this`state
      ensures changed == !old(state.alive)
      ensures state == if changed then old(state).(alive := true, transitions := old(state).transitions + 1) else old(state)
    {
      if state.alive {
        return false;
      }
      state := state.(alive := true);
      state := state.(transitions := state.transitions + 1);
      return true;
    }

    method DisableService() returns (changed: bool)
      modifies this`state
      ensures changed == old(state.alive)
      ensures state == if changed then old(state).(alive := false, transitions := old(state).transitions + 1) else old(state)
    {
      if !state.alive {
        return false;
      }
      state := state.(alive := false);
      state := state.(transitions := state.transitions + 1);
      return true;
    }
  }
}
