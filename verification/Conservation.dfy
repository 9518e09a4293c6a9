/** The service's totals and the sums over its reals, in every run of the pipeline. */
module Conservation {
  import opened Common
  import opened XEvent
  import opened Pipeline
  import Real
  import Service

  /** What a real contributes to its service: its weight and its place among the enabled ones. */
  function WeightOf(slot: Slot): int {
    if slot.present then slot.state.Status().View().weight else 0
  }

  function CountOf(slot: Slot): int {
    if slot.present && slot.state.Status().enable then 1 else 0
  }

  /** What an event will still change when the service counts it. */
  function WeightAhead(f: Flight): int {
    if f.Flight? && f.stage.Reported? then Service.WeightDelta(f.signal) else 0
  }

  function CountAhead(f: Flight): int {
    if f.Flight? && f.stage.Reported? then Service.CountDelta(f.signal) else 0
  }

  ghost function TotalWeight(s: System): int {
    Sum(s.slots, WeightOf)
  }

  ghost function TotalCount(s: System): int {
    Sum(s.slots, CountOf)
  }

  /** The weight the service ends up with once the events in flight have been counted. */
  ghost function ServiceWeight(s: System): int {
    s.service.weight + Sum(s.flights, WeightAhead)
  }

  ghost function ServiceCount(s: System): int {
    s.service.realsAlive + Sum(s.flights, CountAhead)
  }

  /** The real is shut down while its service does not count it, but reports a disappearance anyway. */
  predicate OverReports(s: System, step: Step)
    requires Possible(s, step)
  {
    step.Check? && step.typ == Shutdown &&
    var slot := s.slots[step.slot];
    slot.config.inhibitOnFailure && !slot.state.alive && !slot.state.inhibited
  }

  /** A stopped real is removed while its service still counts it with weight zero. */
  predicate Leaks(s: System, step: Step)
    requires Possible(s, step)
  {
    step.Remove? && s.slots[step.slot].state.inhibited
  }

  /** How far a step moves the service's totals away from the sums over its reals. */
  function WeightDrift(s: System, step: Step): int
    requires Possible(s, step)
  {
    if OverReports(s, step) then -s.slots[step.slot].state.weight else 0
  }

  function CountDrift(s: System, step: Step): int
    requires Possible(s, step)
  {
    if OverReports(s, step) then -1 else if Leaks(s, step) then 1 else 0
  }

  predicate AllConsistent(s: System) {
    forall slot <- s.slots :: slot.state.Consistent()
  }

  /** A real's event says exactly how its contribution changes, unless the real over-reports. */
  lemma ReportMatchesChange(config: Real.Config, state: Real.State, typ: EventType, weight: int)
    requires state.Consistent()
    ensures var incoming := Incoming(typ, weight);
            var state' := Real.After(config, state, typ, incoming.weight);
            var reports := Real.Reports(config, state, typ, incoming.weight);
            var report := Flight(0, Real.Report(config, state, typ, incoming), Reported);
            var over := typ == Shutdown && config.inhibitOnFailure && !state.alive && !state.inhibited;
            && state'.Consistent()
            && (if reports then WeightAhead(report) else 0)
               == WeightOf(Slot(true, config, state')) - WeightOf(Slot(true, config, state)) - (if over then state.weight else 0)
            && (if reports then CountAhead(report) else 0)
               == CountOf(Slot(true, config, state')) - CountOf(Slot(true, config, state)) - (if over then 1 else 0)
  {
  }

  /** The step keeps the difference between totals and sums, up to its drift. */
  ghost predicate Conserves(s: System, step: Step, s': System)
    requires Possible(s, step)
  {
    && AllConsistent(s')
    && ServiceWeight(s') - TotalWeight(s') == ServiceWeight(s) - TotalWeight(s) + WeightDrift(s, step)
    && ServiceCount(s') - TotalCount(s') == ServiceCount(s) - TotalCount(s) + CountDrift(s, step)
  }

  lemma StepConserves(s: System, step: Step)
    requires Possible(s, step) && AllConsistent(s)
    ensures Conserves(s, step, Apply(s, step))
  {
    hide Apply, Conserves, Possible;
    match step
    case Check(slot, typ, weight) => CheckConserves(s, slot, typ, weight);
    case Count(i) => CountConserves(s, i);
    case Queue(i) => QueueConserves(s, i);
    case Decide(i) => DecideConserves(s, i);
    case Configure(_, _) => SlotConserves(s, step);
    case SetDynamic(_, _) => SlotConserves(s, step);
    case Remove(_) => SlotConserves(s, step);
    case Restore(_, _) => SlotConserves(s, step);
    case Add(config) => AddConserves(s, config);
    case Load(config) => LoadConserves(s, config);
    case _ => SameSums(s, step);
  }

  lemma SameSums(s: System, step: Step)
    requires Possible(s, step) && AllConsistent(s) && (step.Process? || step.Take? || step.Deliver? || step.List?)
    ensures Conserves(s, step, Apply(s, step))
  {
    hide Possible, Served, Sum;
  }

  lemma QueueConserves(s: System, i: nat)
    requires Possible(s, Queue(i)) && AllConsistent(s)
    ensures Conserves(s, Queue(i), Apply(s, Queue(i)))
  {
    hide Conserves, AllConsistent, Moved;
    LaterFlight(s, Queue(i), Queued(s, i), i, Some(Deciding));
  }

  lemma DecideConserves(s: System, i: nat)
    requires Possible(s, Decide(i)) && AllConsistent(s)
    ensures Conserves(s, Decide(i), Apply(s, Decide(i)))
  {
    hide Conserves, AllConsistent, Moved;
    var next := NextStage(s, s.flights[i].stage);
    assert next != Some(Reported);
    hide NextStage;
    LaterFlight(s, Decide(i), Decided(s, i), i, next);
  }

  lemma SlotConserves(s: System, step: Step)
    requires Possible(s, step) && AllConsistent(s) && (step.Configure? || step.SetDynamic? || step.Remove? || step.Restore?)
    ensures Conserves(s, step, Apply(s, step))
  {
    hide Conserves, Sum;
    SlotChanges(s, step, step.slot, Apply(s, step).slots[step.slot]);
  }

  lemma LoadConserves(s: System, config: Service.Config)
    requires Possible(s, Load(config)) && AllConsistent(s)
    ensures Conserves(s, Load(config), Apply(s, Load(config)))
  {
    hide Possible, Sum;
    SumAppend(s.flights, Reload(Deciding), WeightAhead);
    SumAppend(s.flights, Reload(Deciding), CountAhead);
  }

  /** A handler that has counted its event no longer affects the totals. */
  lemma LaterFlight(s: System, step: Step, s': System, i: nat, next: Option<Stage>)
    requires Possible(s, step) && AllConsistent(s) && (step == Queue(i) || step == Decide(i))
    requires s'.slots == s.slots && s'.service.weight == s.service.weight && s'.service.realsAlive == s.service.realsAlive
    requires s'.flights == Moved(s.flights, i, next) && next != Some(Reported)
    ensures Conserves(s, step, s')
  {
    hide Sum, RemoveAt;
    if next == None {
      SumRemoveAt(s.flights, i, WeightAhead);
      SumRemoveAt(s.flights, i, CountAhead);
    } else {
      SumUpdate(s.flights, i, s.flights[i].(stage := next.value), WeightAhead);
      SumUpdate(s.flights, i, s.flights[i].(stage := next.value), CountAhead);
    }
  }

  lemma CountConserves(s: System, i: nat)
    requires Possible(s, Count(i)) && AllConsistent(s)
    ensures Conserves(s, Count(i), Apply(s, Count(i)))
  {
    hide Sum;
    var f := s.flights[i].(stage := Counted);
    SumUpdate(s.flights, i, f, WeightAhead);
    SumUpdate(s.flights, i, f, CountAhead);
  }

  lemma SlotChanges(s: System, step: Step, slot: nat, x: Slot)
    requires Possible(s, step) && AllConsistent(s) && x.state.Consistent() && slot < |s.slots|
    requires WeightOf(x) == WeightOf(s.slots[slot]) - WeightDrift(s, step) && CountOf(x) == CountOf(s.slots[slot]) - CountDrift(s, step)
    ensures Conserves(s, step, s.(slots := s.slots[slot := x]))
  {
    hide Sum, WeightOf, CountOf, WeightDrift, CountDrift;
    SumUpdate(s.slots, slot, x, WeightOf);
    SumUpdate(s.slots, slot, x, CountOf);
  }

  lemma AddConserves(s: System, config: Real.Config)
    requires AllConsistent(s)
    ensures Conserves(s, Add(config), Apply(s, Add(config)))
  {
    hide Sum;
    SumAppend(s.slots, Slot(true, config, Real.FRESH), WeightOf);
    SumAppend(s.slots, Slot(true, config, Real.FRESH), CountOf);
  }

  lemma CheckConserves(s: System, slot: nat, typ: EventType, weight: int)
    requires Possible(s, Check(slot, typ, weight)) && AllConsistent(s)
    ensures Conserves(s, Check(slot, typ, weight), Apply(s, Check(slot, typ, weight)))
  {
    var Slot(_, config, state) := s.slots[slot];
    var incoming := Incoming(typ, weight);
    var x := Slot(true, config, Real.After(config, state, typ, incoming.weight));
    var f := Flight(slot, Real.Report(config, state, typ, incoming), Reported);
    assert s.slots[slot].state.Consistent();
    ReportMatchesChange(config, state, typ, weight);
    assert WeightAhead(f) == WeightAhead(f.(slot := 0)) && CountAhead(f) == CountAhead(f.(slot := 0));
    hide Sum, Real.After, Real.Report, Real.Reports, WeightOf, CountOf, WeightAhead, CountAhead;
    SumUpdate(s.slots, slot, x, WeightOf);
    SumUpdate(s.slots, slot, x, CountOf);
    SumAppend(s.flights, f, WeightAhead);
    SumAppend(s.flights, f, CountAhead);
  }

  /** The drift accumulated over a run. */
  function WeightDrifted(config: Service.Config, steps: seq<Step>): int
    requires IsRun(config, steps)
  {
    if steps == [] then 0
    else
      var n := |steps| - 1;
      WeightDrifted(config, steps[..n]) + WeightDrift(Run(config, steps[..n]), steps[n])
  }

  function CountDrifted(config: Service.Config, steps: seq<Step>): int
    requires IsRun(config, steps)
  {
    if steps == [] then 0
    else
      var n := |steps| - 1;
      CountDrifted(config, steps[..n]) + CountDrift(Run(config, steps[..n]), steps[n])
  }

  /** In every reachable state, for every interleaving and every order of delivery, the service's
      totals plus what is in flight are the sums over its reals plus exactly the accumulated drift. */
  lemma {:induction false} TotalsFollowTheReals(config: Service.Config, steps: seq<Step>)
    requires IsRun(config, steps)
    ensures var s := Run(config, steps);
            && AllConsistent(s)
            && ServiceWeight(s) == TotalWeight(s) + WeightDrifted(config, steps)
            && ServiceCount(s) == TotalCount(s) + CountDrifted(config, steps)
  {
    if steps != [] {
      var n := |steps| - 1;
      TotalsFollowTheReals(config, steps[..n]);
      StepConserves(Run(config, steps[..n]), steps[n]);
    }
  }

  /** No step of the run over-reports or leaks. */
  predicate NoDrift(config: Service.Config, steps: seq<Step>)
    requires IsRun(config, steps)
  {
    steps == [] || (
      var n := |steps| - 1;
      var s := Run(config, steps[..n]);
      NoDrift(config, steps[..n]) && !OverReports(s, steps[n]) && !Leaks(s, steps[n]))
  }

  /** The count agrees after every step of the run. */
  ghost predicate CountAgreesThroughout(config: Service.Config, steps: seq<Step>)
    requires IsRun(config, steps)
  {
    var s := Run(config, steps);
    ServiceCount(s) == TotalCount(s) && (steps == [] || CountAgreesThroughout(config, steps[..|steps| - 1]))
  }

  lemma {:induction false} NoDriftNoDifference(config: Service.Config, steps: seq<Step>)
    requires IsRun(config, steps) && NoDrift(config, steps)
    ensures WeightDrifted(config, steps) == 0 == CountDrifted(config, steps)
  {
    if steps != [] {
      NoDriftNoDifference(config, steps[..|steps| - 1]);
    }
  }

  /** The number of enabled reals is right throughout a run exactly when no step over-reports or
      leaks, and then the weight is right as well. */
  lemma {:induction false} ConservedExactlyWhen(config: Service.Config, steps: seq<Step>)
    requires IsRun(config, steps)
    ensures CountAgreesThroughout(config, steps) <==> NoDrift(config, steps)
    ensures NoDrift(config, steps) ==> ServiceWeight(Run(config, steps)) == TotalWeight(Run(config, steps))
  {
    TotalsFollowTheReals(config, steps);
    if NoDrift(config, steps) {
      NoDriftNoDifference(config, steps);
    }
    if steps != [] {
      ConservedExactlyWhen(config, steps[..|steps| - 1]);
      TotalsFollowTheReals(config, steps[..|steps| - 1]);
    }
  }

  /** A shutdown leaves a real disabled, so that it can be removed without a leak, unless it is
      inhibited and no longer configured to be. */
  lemma ShutdownDisables(config: Real.Config, state: Real.State)
    requires state.Consistent()
    ensures Real.After(config, state, Shutdown, Incoming(Shutdown, 0).weight).Status().enable
            <==> state.inhibited && !config.inhibitOnFailure
  {
  }
}
