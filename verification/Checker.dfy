/** The state machine of a health checker (internal/core/checker/handler.go). */
module Checker {
  import opened Common
  import opened XEvent
  import Weights

  datatype Config = Config(dynamicWeight: bool, dynamicWeightCoeff: nat, retries: int)

  datatype State = State(weight: int, alive: bool, failedAttempts: nat, manualChanged: bool)

  datatype Metadata = Metadata(alive: bool, weight: int, force: bool)

  /** A check's outcome, as the handler tells outcomes apart. */
  datatype Check = Passed(weight: int, force: bool) | Failed | Stopped

  function Outcome(md: Metadata, isShutdown: bool): Check {
    if md.alive then Passed(md.weight, md.force) else if isShutdown then Stopped else Failed
  }

  /** The checker's weight after a successful check. */
  function NextWeight(cfg: Config, s: State, measured: int): int {
    if cfg.dynamicWeight then Weights.Recalculate(measured, s.weight, cfg.dynamicWeightCoeff) else s.weight
  }

  predicate Emits(cfg: Config, s: State, check: Check) {
    match check
    case Passed(w, force) => !s.alive || NextWeight(cfg, s, w) != s.weight || force
    case Failed => s.failedAttempts + 1 > cfg.retries
    case Stopped => true
  }

  function After(cfg: Config, s: State, check: Check): State {
    match check
    case Passed(w, _) =>
      State(NextWeight(cfg, s, w), true, if s.alive then s.failedAttempts else 0, s.manualChanged && !Emits(cfg, s, check))
    case Failed => s.(failedAttempts := s.failedAttempts + 1, alive := s.alive && !Emits(cfg, s, check))
    case Stopped => s
  }

  function Reweighed(s: State, weight: int): State {
    s.(weight := weight, manualChanged := true)
  }

  function EmittedType(check: Check): EventType {
    match check
    case Passed(_, _) => Enable
    case Failed => Disable
    case Stopped => Shutdown
  }

  function EmittedWeight(cfg: Config, s: State, check: Check): int {
    if check.Passed? then After(cfg, s, check).weight else Weights.OMITTED
  }

  /** The event content a check raises; the real and the service fill in the rest. */
  function Raised(cfg: Config, s: State, check: Check): Signal {
    Signal(EmittedType(check), Status(false, EmittedWeight(cfg, s, check)), OFF)
  }

  class Checker {
    const config: Config
    var state: State

    constructor (config: Config, weight: int)
      ensures this.config == config && state == State(weight, false, 0, false)
    {
      this.config, state := config, State(weight, false, 0, false);
    }

    method ProcessCheck(md: Metadata, isShutdown: bool) returns (event: Event?)
      modifies this
      ensures var check := Outcome(md, isShutdown);
              && state == After(config, old(state), check)
              && (event != null <==> Emits(config, old(state), check))
              && (event != null ==> fresh(event))
              && (event != null ==> event.Content() == Raised(config, old(state), check))
      // A failed check counts, and is reported whenever the retries are exceeded, also by a checker that is down.
      ensures !md.alive && !isShutdown ==>
                && state == old(state).(failedAttempts := old(state.failedAttempts) + 1, alive := state.alive)
                && state.alive == (old(state.alive) && old(state.failedAttempts) < config.retries)
                && (event != null <==> old(state.failedAttempts) >= config.retries)
                && (event != null ==> event.Content() == Signal(Disable, Status(false, -1), Status(false, 0)))
      // A passed check is reported when the checker comes up, changes a dynamic weight, or is forced to.
      ensures md.alive ==>
                && state.alive && state.failedAttempts == (if old(state.alive) then old(state.failedAttempts) else 0)
                && (!config.dynamicWeight ==> state.weight == old(state.weight))
                && (config.dynamicWeight ==>
                      state.weight == Weights.Recalculate(md.weight, old(state.weight), config.dynamicWeightCoeff))
                && state.manualChanged == (old(state.manualChanged) && event == null)
                && (event != null <==> !old(state.alive) || state.weight != old(state.weight) || md.force)
                && (event != null ==> event.Content() == Signal(Enable, Status(false, state.weight), Status(false, 0)))
      // A shutdown is always reported, and changes nothing.
      ensures !md.alive && isShutdown ==>
                && state == old(state) && event != null
                && event.Content() == Signal(Shutdown, Status(false, -1), Status(false, 0))
    {
      if md.alive {
        event := ProcessSucceed(md);
      } else {
        event := ProcessFail(isShutdown);
      }
    }

    method ProcessSucceed(md: Metadata) returns (event: Event?)
      modifies this
      ensures var check := Passed(md.weight, md.force);
              && state == After(config, old(state), check)
              && (event != null <==> Emits(config, old(state), check))
              && (event != null ==> fresh(event))
              && (event != null ==> event.Content() == Raised(config, old(state), check))
    {
      var statusChanged := EnableChecker();
      var newWeight := Weights.Recalculate(md.weight, state.weight, config.dynamicWeightCoeff);
      var weightChanged := UpdateWeight(newWeight);
      if !statusChanged && !weightChanged && !md.force {
        return null;
      }
      state := state.(manualChanged := false);
      event := new Event(Enable, state.weight);
    }

    method ProcessFail(isShutdown: bool) returns (event: Event?)
      modifies this
      ensures var check := if isShutdown then Stopped else Failed;
              && state == After(config, old(state), check)
              && (event != null <==> Emits(config, old(state), check))
              && (event != null ==> fresh(event))
              && (event != null ==> event.Content() == Raised(config, old(state), check))
      ensures event != null <==> isShutdown || old(state.failedAttempts) >= config.retries
    {
      var statusChanged := DisableChecker(isShutdown);
      if !statusChanged {
        return null;
      }
      event := new Event(if isShutdown then Shutdown else Disable, Weights.OMITTED);
    }

    method EnableChecker() returns (changed: bool)
      modifies this
      ensures changed == !old(state.alive)
      ensures state == if changed then old(state).(alive := true, failedAttempts := 0) else old(state)
    {
      if state.alive {
        return false;
      }
      state := state.(alive := true, failedAttempts := 0);
      return true;
    }

    method DisableChecker(isShutdown: bool) returns (changed: bool)
      modifies this
      ensures var check := if isShutdown then Stopped else Failed;
              changed == Emits(config, old(state), check) && state == After(config, old(state), check)
      ensures changed == (isShutdown || old(state.failedAttempts) >= config.retries)
      ensures state.alive == (old(state.alive) && (isShutdown || !changed))
    {
      if isShutdown {
        return true;
      }
      var exceeded := FailedAttempt();
      if !exceeded {
        return false;
      }
      state := state.(alive := false);
      return true;
    }

    method FailedAttempt() returns (exceeded: bool)
      modifies this
      ensures state == old(state).(failedAttempts := old(state).failedAttempts + 1)
      ensures exceeded == (state.failedAttempts > config.retries)
    {
      state := state.(failedAttempts := state.failedAttempts + 1);
      return state.failedAttempts > config.retries;
    }

    /** The weight was configured anew: the next check is forced to report it. */
    method Reconfigure(weight: int)
      modifies this
      ensures state == Reweighed(old(state), weight)
    {
      state := state.(weight := weight);
      state := state.(manualChanged := true);
    }

    method UpdateWeight(weight: int) returns (changed: bool)
      modifies this
      ensures changed == (config.dynamicWeight && old(state).weight != weight)
      ensures state == if config.dynamicWeight then old(state).(weight := weight) else old(state)
    {
      if !config.dynamicWeight {
        return false;
      }
      if state.weight == weight {
        return false;
      }
      state := state.(weight := weight);
      return true;
    }
  }
}
