/** The whole chain from a real's checks to the load balancer and the announcer, as a state machine
    whose steps interleave freely. A real reports under its own lock; the service counts a reported
    event under another, and the registries store under theirs. The announce decision that follows,
    after an event as after a reload, takes no lock: reading the weight, judging it, looking at the
    present verdict, switching it, and registering it are steps of their own
    (internal/core/real/handler.go, internal/core/service/handler.go, internal/core/service/service.go,
    internal/balancer/balancer.go). */
module Pipeline {
  import opened Common
  import opened RegistrySpec
  import opened XEvent
  import Real
  import Service
  import Weights

  /** How far a handler has come: its event reported by the real, counted by the service, stored for
      the balancer; then the announce decision, with what it has read and judged so far. */
  datatype Stage =
    | Reported
    | Counted
    | Deciding
    | Weighed(weight: int)
    | Judged(up: bool)
    | Looked(up: bool)
    | Switched
    | Registering(status: bool)

  /** A handler under way: one of a real's event, or a reload about to bring the announce in line. */
  datatype Flight =
    | Flight(slot: nat, signal: Signal, stage: Stage)
    | Reload(stage: Stage)

  /** A real under its key. Once removed it may come back as a fresh one. */
  datatype Slot = Slot(present: bool, config: Real.Config, state: Real.State)

  /** The balancer's update cycle: statuses taken out, then events processed, then statuses announced.
      `stamp` counts the events stored when the status was registered. */
  datatype Updater = Idle | Taken(status: Option<bool>, stamp: nat) | Processed(status: Option<bool>, stamp: nat)

  datatype System = System(
    slots: seq<Slot>,             // the reals of one service
    flights: seq<Flight>,         // handlers under way, oldest first
    config: Service.Config,
    service: Service.State,
    pending: map<nat, Signal>,    // the balancer's registry
    enabled: map<nat, int>,       // what the load balancer holds
    status: Option<bool>,         // the service's pending status event
    stamp: nat,
    updater: Updater,
    listed: bool,                 // whether the announcer knows the service
    announced: bool,              // the status the announcer has for it
    stores: nat,                  // history: events stored so far; each store has the next number
    untried: set<(nat, nat)>      // history: slot and number of stores neither offered to the load balancer nor cancelled
  )

  datatype Step =
    | Check(slot: nat, typ: EventType, weight: int)
    | Count(i: nat)
    | Queue(i: nat)
    | Decide(i: nat)
    | Take
    | Process(refused: set<nat>)
    | Deliver
    | Configure(slot: nat, config: Real.Config)
    | SetDynamic(slot: nat, dynWeight: bool)
    | Add(config: Real.Config)
    | Remove(slot: nat)
    | Restore(slot: nat, config: Real.Config)
    | Load(serviceConfig: Service.Config)
    | List(known: bool)

  predicate IsPresent(s: System, slot: nat) {
    slot < |s.slots| && s.slots[slot].present
  }

  predicate Possible(s: System, step: Step) {
    match step
    case Check(slot, _, _) => IsPresent(s, slot)
    case Count(i) => i < |s.flights| && s.flights[i].Flight? && s.flights[i].stage.Reported?
    case Queue(i) => i < |s.flights| && s.flights[i].Flight? && s.flights[i].stage.Counted?
    case Decide(i) => i < |s.flights| && !s.flights[i].stage.Reported? && !s.flights[i].stage.Counted?
    case Take => s.updater.Idle?
    case Process(_) => s.updater.Taken?
    case Deliver => s.updater.Processed?
    case Configure(slot, _) => IsPresent(s, slot)
    case SetDynamic(slot, _) => IsPresent(s, slot)
    case Add(_) => true
    // A real goes once its checkers have stopped and its events are handled.
    case Remove(slot) => IsPresent(s, slot) && !s.slots[slot].state.alive && forall f <- s.flights :: f.Flight? ==> f.slot != slot
    case Restore(slot, _) => slot < |s.slots| && !s.slots[slot].present
    // Reloads of one service exclude each other.
    case Load(_) => forall f <- s.flights :: !f.Reload?
    case List(_) => true
  }

  /** What a checker's event says before the real rewrites it. */
  function Incoming(typ: EventType, weight: int): Status {
    Status(false, if typ == Enable then weight else Weights.OMITTED)
  }

  /** A real changes its state and may report. */
  function Checked(s: System, slot: nat, typ: EventType, weight: int): System
    requires slot < |s.slots|
  {
    var Slot(present, config, state) := s.slots[slot];
    var incoming := Incoming(typ, weight);
    s.(slots := s.slots[slot := Slot(present, config, Real.After(config, state, typ, incoming.weight))],
       flights := if Real.Reports(config, state, typ, incoming.weight)
                  then s.flights + [Flight(slot, Real.Report(config, state, typ, incoming), Reported)] else s.flights)
  }

  /** A handler moves on, or ends. */
  function Moved(flights: seq<Flight>, i: nat, stage: Option<Stage>): seq<Flight>
    requires i < |flights|
  {
    match stage
    case None => RemoveAt(flights, i)
    case Some(next) => flights[i := flights[i].(stage := next)]
  }

  function Queued(s: System, i: nat): System
    requires i < |s.flights| && s.flights[i].Flight?
  {
    var f := s.flights[i];
    var pending := Stored(s.pending, f.slot, f.signal, Coalesce);
    s.(
      flights := Moved(s.flights, i, Some(Deciding)),
      pending := pending,
      stores := s.stores + 1,
      untried := if f.slot in pending then s.untried + {(f.slot, s.stores)} else set t | t in s.untried && t.0 != f.slot)
  }

  /** Where an announce decision goes next. It ends early when the quorum holds, when the service has
      the verdict already, and when it has no announce group. */
  function NextStage(s: System, stage: Stage): Option<Stage>
    requires !stage.Reported? && !stage.Counted?
  {
    match stage
    case Deciding => Some(Weighed(s.service.weight))
    case Weighed(w) =>
      (match Service.QuorumState(s.config, w)
       case Hold => None
       case Up => Some(Judged(true))
       case Down => Some(Judged(false)))
    case Judged(up) => if s.service.alive == up then None else Some(Looked(up))
    case Looked(_) => Some(Switched)
    case Switched => if s.config.announceGroup == "" then None else Some(Registering(s.service.alive))
    case Registering(_) => None
  }

  function Decided(s: System, i: nat): System
    requires i < |s.flights| && !s.flights[i].stage.Reported? && !s.flights[i].stage.Counted?
  {
    var stage := s.flights[i].stage;
    var s' := s.(flights := Moved(s.flights, i, NextStage(s, stage)));
    match stage
    case Looked(up) => s'.(service := s.service.(alive := up, transitions := s.service.transitions + 1))
    case Registering(status) => s'.(status := MergeInto(s.status, status, Cancel), stamp := s.stores)
    case _ => s'
  }

  /** What the load balancer holds after taking the pending events it does not refuse. */
  function Served(s: System, refused: set<nat>): map<nat, int> {
    map r | r in s.enabled.Keys + s.pending.Keys && (r in refused || r !in s.pending ==> r in s.enabled)
            && (r in s.pending && r !in refused ==> s.pending[r].next.enable)
          :: if r in s.pending && r !in refused then s.pending[r].next.weight else s.enabled[r]
  }

  function Processing(s: System, refused: set<nat>): System
    requires s.updater.Taken?
  {
    s.(pending := map r | r in s.pending && r in refused :: s.pending[r],
       enabled := Served(s, refused),
       updater := Processed(s.updater.status, s.updater.stamp),
       untried := {})
  }

  function Apply(s: System, step: Step): System
    requires Possible(s, step)
  {
    match step
    case Check(slot, typ, weight) => Checked(s, slot, typ, weight)
    case Count(i) =>
      s.(flights := Moved(s.flights, i, Some(Counted)), service := Service.Counted(s.service, s.flights[i].signal))
    case Queue(i) => Queued(s, i)
    case Decide(i) => Decided(s, i)
    case Take => s.(status := None, updater := Updater.Taken(s.status, s.stamp))
    case Process(refused) => Processing(s, refused)
    // A status of a service the announcer does not know is refused.
    case Deliver =>
      s.(announced := if s.updater.status.Some? && s.listed then s.updater.status.value else s.announced, updater := Idle)
    case Configure(slot, config) => s.(slots := s.slots[slot := s.slots[slot].(config := config)])
    case SetDynamic(slot, dynWeight) =>
      s.(slots := s.slots[slot := s.slots[slot].(state := s.slots[slot].state.(dynWeight := dynWeight))])
    case Add(config) => s.(slots := s.slots + [Slot(true, config, Real.FRESH)])
    case Remove(slot) => s.(slots := s.slots[slot := Slot(false, s.slots[slot].config, Real.FRESH)])
    case Restore(slot, config) => s.(slots := s.slots[slot := Slot(true, config, Real.FRESH)])
    case Load(config) => s.(config := config, flights := s.flights + [Reload(Deciding)])
    // A service the announcer did not know starts disabled, and one it forgets loses its status.
    case List(known) => s.(listed := known, announced := s.announced && s.listed && known)
  }

  /** A service starts without reals, about to decide; the announcer knows it if it has a group. */
  function Start(config: Service.Config): System {
    System([], [Reload(Deciding)], config, Service.FRESH, map[], map[], None, 0, Idle, config.announceGroup != "", false, 0, {})
  }

  predicate IsRun(config: Service.Config, steps: seq<Step>)
    decreases |steps|, 0
  {
    steps == [] || (
      var n := |steps| - 1;
      IsRun(config, steps[..n]) && Possible(Run(config, steps[..n]), steps[n]))
  }

  function Run(config: Service.Config, steps: seq<Step>): System
    requires IsRun(config, steps)
    decreases |steps|, 1
  {
    if steps == [] then Start(config)
    else
      var n := |steps| - 1;
      Apply(Run(config, steps[..n]), steps[n])
  }

  /** A run continued by one step. */
  lemma Extend(config: Service.Config, steps: seq<Step>, s: System, step: Step) returns (steps': seq<Step>, s': System)
    requires IsRun(config, steps) && s == Run(config, steps) && Possible(s, step)
    ensures steps' == steps + [step] && IsRun(config, steps') && s' == Run(config, steps') == Apply(s, step)
  {
    hide Apply, Possible;
    steps', s' := steps + [step], Apply(s, step);
    assert steps'[..|steps|] == steps;
  }
}
