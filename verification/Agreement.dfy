/** Coalescing loses nothing: the balancer's registry and the load balancer together always hold what
    the reals have reported, when the events of each real are stored in order. */
module Agreement {
  import opened Common
  import opened RegistrySpec
  import opened XEvent
  import opened Pipeline
  import opened Conservation
  import Real
  import Service
  import Weights

  /** What the load balancer holds for a real. */
  function Held(s: System, r: nat): Status {
    if r in s.enabled then Status(true, s.enabled[r]) else OFF
  }

  /** What the load balancer holds for a real once the pending event has reached it. */
  function Told(s: System, r: nat): Status {
    if r in s.pending then s.pending[r].next.View() else Held(s, r)
  }

  /** What a real's state says now; a removed real is off. */
  function Present(s: System, r: nat): Status
    requires r < |s.slots|
  {
    if s.slots[r].present then s.slots[r].state.Status().View() else OFF
  }

  /** An event of this real that has not been stored yet. */
  predicate Ahead(f: Flight, r: nat) {
    f.Flight? && f.slot == r && (f.stage.Reported? || f.stage.Counted?)
  }

  /** The real's events that have not been stored yet lead, one after the other, from one status to another. */
  predicate Linked(flights: seq<Flight>, r: nat, from: Status, end: Status) {
    if flights == [] then from == end
    else if Ahead(flights[0], r)
    then flights[0].signal.init.View() == from && Linked(flights[1..], r, flights[0].signal.next.View(), end)
    else Linked(flights[1..], r, from, end)
  }

  /** The event is the oldest of its real's that has not been stored. */
  predicate Oldest(flights: seq<Flight>, i: nat)
    requires i < |flights| && flights[i].Flight?
  {
    forall f <- flights[..i] :: !Ahead(f, flights[i].slot)
  }

  /** The registry's pending event starts from what the load balancer holds, and the events still in
      flight lead from there to the real's present status. */
  predicate Agrees(s: System, r: nat)
    requires r < |s.slots|
  {
    && (r in s.pending ==> s.pending[r].init.View() == Held(s, r))
    && Linked(s.flights, r, Told(s, r), Present(s, r))
  }

  /** Nothing is known of a real that does not exist yet. */
  predicate Unknown(s: System, r: nat) {
    r !in s.pending && r !in s.enabled && forall f <- s.flights :: !Ahead(f, r)
  }

  ghost predicate AllAgree(s: System) {
    forall r: nat :: if r < |s.slots| then Agrees(s, r) else Unknown(s, r)
  }

  lemma {:induction false} LinkedAppend(flights: seq<Flight>, f: Flight, r: nat, from: Status, mid: Status)
    requires Linked(flights, r, from, mid)
    ensures !Ahead(f, r) ==> Linked(flights + [f], r, from, mid)
    ensures Ahead(f, r) && f.signal.init.View() == mid ==> Linked(flights + [f], r, from, f.signal.next.View())
  {
    if flights == [] {
      assert [f][1..] == [];
    } else {
      assert (flights + [f])[1..] == flights[1..] + [f];
      LinkedAppend(flights[1..], f, r, if Ahead(flights[0], r) then flights[0].signal.next.View() else from, mid);
    }
  }

  /** A chain to a given end starts at one status only. */
  lemma {:induction false} LinkedStartsOnce(flights: seq<Flight>, r: nat, a: Status, b: Status, end: Status)
    requires Linked(flights, r, a, end) && Linked(flights, r, b, end)
    ensures a == b
  {
    if flights != [] && !Ahead(flights[0], r) {
      LinkedStartsOnce(flights[1..], r, a, b, end);
    }
  }

  /** Storing the oldest event of a real moves the start of the real's chain behind it. Storing another
      one leaves a chain exactly when the event changed nothing, and then the start stays. */
  lemma {:induction false} LinkedStore(flights: seq<Flight>, i: nat, r: nat, from: Status, end: Status, start: Status)
    requires i < |flights| && flights[i].Flight? && flights[i].stage.Counted? && flights[i].slot == r
    requires Linked(flights, r, from, end)
    ensures var f := flights[i];
            Linked(flights[i := f.(stage := Deciding)], r, start, end)
            <==> if Oldest(flights, i) then start == f.signal.next.View()
                 else start == from && f.signal.init.View() == f.signal.next.View()
    ensures Oldest(flights, i) ==> flights[i].signal.init.View() == from
  {
    var f := flights[i];
    var flights' := flights[i := f.(stage := Deciding)];
    if i == 0 {
      assert flights'[1..] == flights[1..];
      if Linked(flights[1..], r, start, end) {
        LinkedStartsOnce(flights[1..], r, start, f.signal.next.View(), end);
      }
    } else {
      assert flights'[1..] == flights[1..][i - 1 := f.(stage := Deciding)];
      OldestBehind(flights, i);
      if Ahead(flights[0], r) {
        var next := flights[0].signal.next.View();
        LinkedStore(flights[1..], i - 1, r, next, end, next);
      } else {
        LinkedStore(flights[1..], i - 1, r, from, end, start);
      }
    }
  }

  lemma OldestBehind(flights: seq<Flight>, i: nat)
    requires 0 < i < |flights| && flights[i].Flight?
    ensures Oldest(flights, i) <==> !Ahead(flights[0], flights[i].slot) && Oldest(flights[1..], i - 1)
  {
    hide Ahead;
    assert flights[..i] == [flights[0]] + flights[1..][..i - 1];
  }

  /** A handler that moves on or ends, with nothing of the real's ahead before and after or all the
      same ahead as before, leaves the chain alone. */
  lemma {:induction false} LinkedMove(flights: seq<Flight>, i: nat, next: Option<Stage>, r: nat, from: Status, end: Status)
    requires i < |flights|
    requires Ahead(flights[i], r) <==> next.Some? && Ahead(flights[i].(stage := next.value), r)
    ensures Linked(Moved(flights, i, next), r, from, end) <==> Linked(flights, r, from, end)
  {
    var flights' := Moved(flights, i, next);
    if i == 0 {
      assert flights'[if next.Some? then 1 else 0..] == flights[1..];
    } else {
      assert flights'[1..] == Moved(flights[1..], i - 1, next);
      LinkedMove(flights[1..], i - 1, next, r, if Ahead(flights[0], r) then flights[0].signal.next.View() else from, end);
    }
  }

  /** A chain none of whose events is unstored leads nowhere. */
  lemma {:induction false} LinkedIdle(flights: seq<Flight>, r: nat, from: Status, end: Status)
    requires forall f <- flights :: !Ahead(f, r)
    ensures Linked(flights, r, from, end) <==> from == end
  {
    if flights != [] {
      LinkedIdle(flights[1..], r, from, end);
    }
  }

  /** What a real reports starts from its old status and ends at its new one; a silent real keeps its status. */
  lemma ReportLinks(config: Real.Config, state: Real.State, typ: EventType, weight: int)
    requires state.Consistent()
    ensures var incoming := Incoming(typ, weight);
            var state' := Real.After(config, state, typ, incoming.weight);
            var report := Real.Report(config, state, typ, incoming);
            if Real.Reports(config, state, typ, incoming.weight)
            then report.init.View() == state.Status().View() && report.next.View() == state'.Status().View()
            else state'.Status().View() == state.Status().View()
  {
  }

  /** The step stores no event before an older one of the same real, unless the event tells only what
      the load balancer is being told already. */
  predicate InOrder(s: System, step: Step)
    requires Possible(s, step)
  {
    step.Queue? ==>
      var f := s.flights[step.i];
      Oldest(s.flights, step.i) || f.signal.init.View() == f.signal.next.View() == Told(s, f.slot)
  }

  lemma CheckAgrees(s: System, slot: nat, typ: EventType, weight: int, r: nat)
    requires Possible(s, Check(slot, typ, weight)) && AllConsistent(s) && r < |s.slots| && Agrees(s, r)
    ensures Agrees(Apply(s, Check(slot, typ, weight)), r)
  {
    var Slot(_, config, state) := s.slots[slot];
    var incoming := Incoming(typ, weight);
    assert s.slots[slot].state.Consistent();
    ReportLinks(config, state, typ, weight);
    var f := Flight(slot, Real.Report(config, state, typ, incoming), Reported);
    hide Real.After, Real.Report, Real.Reports, Linked;
    LinkedAppend(s.flights, f, r, Told(s, r), Present(s, r));
  }

  /** Storing an event keeps its real's agreement exactly when it is in order. */
  lemma QueueAgreesExactlyWhen(s: System, i: nat)
    requires Possible(s, Queue(i)) && s.flights[i].slot < |s.slots| && Agrees(s, s.flights[i].slot)
    ensures Agrees(Apply(s, Queue(i)), s.flights[i].slot) <==> InOrder(s, Queue(i))
  {
    var f := s.flights[i];
    var s' := Queued(s, i);
    assert Told(s', f.slot) == f.signal.next.View();
    hide Linked, Oldest;
    LinkedStore(s.flights, i, f.slot, Told(s, f.slot), Present(s, f.slot), f.signal.next.View());
  }

  lemma OthersAgree(s: System, i: nat, r: nat)
    requires Possible(s, Queue(i)) && r < |s.slots| && Agrees(s, r) && s.flights[i].slot != r
    ensures Agrees(Apply(s, Queue(i)), r)
  {
    hide Linked;
    LinkedMove(s.flights, i, Some(Deciding), r, Told(s, r), Present(s, r));
  }

  /** Removing a stopped real keeps the agreement exactly when nothing leaks. */
  lemma RemoveAgreesExactlyWhen(s: System, slot: nat)
    requires Possible(s, Remove(slot)) && AllConsistent(s) && Agrees(s, slot)
    ensures Agrees(Apply(s, Remove(slot)), slot) <==> !Leaks(s, Remove(slot))
  {
    var s' := Apply(s, Remove(slot));
    assert s.slots[slot].state.Consistent();
    assert forall f <- s.flights :: !Ahead(f, slot);
    hide Linked;
    LinkedIdle(s.flights, slot, Told(s, slot), Present(s, slot));
    LinkedIdle(s.flights, slot, Told(s', slot), Present(s', slot));
  }

  lemma ProcessAgrees(s: System, refused: set<nat>, r: nat)
    requires Possible(s, Process(refused)) && r < |s.slots| && Agrees(s, r)
    ensures Agrees(Apply(s, Process(refused)), r)
  {
    hide Linked;
    assert Told(Processing(s, refused), r) == Told(s, r);
  }

  lemma CountAgrees(s: System, i: nat, r: nat)
    requires Possible(s, Count(i)) && r < |s.slots| && Agrees(s, r)
    ensures Agrees(Apply(s, Count(i)), r)
  {
    hide Linked, Moved;
    LinkedMove(s.flights, i, Some(Counted), r, Told(s, r), Present(s, r));
  }

  lemma DecideAgrees(s: System, i: nat, r: nat)
    requires Possible(s, Decide(i)) && r < |s.slots| && Agrees(s, r)
    ensures Agrees(Apply(s, Decide(i)), r)
  {
    hide Linked, Moved;
    var next := NextStage(s, s.flights[i].stage);
    NeverBack(s, s.flights[i].stage);
    hide NextStage;
    LinkedMove(s.flights, i, next, r, Told(s, r), Present(s, r));
  }

  /** A decision under way stays one. */
  lemma NeverBack(s: System, stage: Stage)
    requires !stage.Reported? && !stage.Counted?
    ensures var next := NextStage(s, stage);
            next.Some? ==> !next.value.Reported? && !next.value.Counted?
  {
  }

  lemma LoadAgrees(s: System, config: Service.Config, r: nat)
    requires Possible(s, Load(config)) && r < |s.slots| && Agrees(s, r)
    ensures Agrees(Apply(s, Load(config)), r)
  {
    hide Linked, Possible;
    LinkedAppend(s.flights, Reload(Deciding), r, Told(s, r), Present(s, r));
  }

  /** Steps that change neither the events in flight nor what the load balancer is told of this real. */
  lemma SlotAgrees(s: System, step: Step, r: nat)
    requires Possible(s, step) && r < |s.slots| && Agrees(s, r)
    requires step.Take? || step.Deliver? || step.Configure? || step.SetDynamic? || step.Add? || step.Restore? || step.List?
          || (step.Remove? && step.slot != r)
    ensures r < |Apply(s, step).slots| && Agrees(Apply(s, step), r)
  {
    hide Linked;
  }

  /** The step keeps the real's agreement. */
  predicate Keeps(s: System, step: Step, r: nat)
    requires Possible(s, step) && r < |s.slots|
  {
    r < |Apply(s, step).slots| && Agrees(Apply(s, step), r)
  }

  /** A step that neither stores out of order nor leaks keeps the agreement of every real. */
  lemma StepAgrees(s: System, step: Step, r: nat)
    requires Possible(s, step) && InOrder(s, step) && !Leaks(s, step) && AllConsistent(s)
    requires r < |s.slots| && Agrees(s, r)
    ensures Keeps(s, step, r)
  {
    hide Apply, Agrees, InOrder, AllConsistent;
    SlotsKept(s, step);
    match step
    case Check(slot, typ, weight) => CheckAgrees(s, slot, typ, weight, r);
    case Queue(i) =>
      if s.flights[i].slot == r {
        QueueAgreesExactlyWhen(s, i);
      } else {
        OthersAgree(s, i, r);
      }
    case Remove(slot) =>
      if slot == r {
        RemoveAgreesExactlyWhen(s, slot);
      } else {
        SlotAgrees(s, step, r);
      }
    case Process(refused) => ProcessAgrees(s, refused, r);
    case Count(i) => CountAgrees(s, i, r);
    case Decide(i) => DecideAgrees(s, i, r);
    case Load(config) => LoadAgrees(s, config, r);
    case _ => SlotAgrees(s, step, r);
  }

  lemma StepKeepsUnknown(s: System, step: Step, r: nat)
    requires Possible(s, step) && r >= |s.slots| && Unknown(s, r)
    ensures Unknown(Apply(s, step), r)
  {
    hide Apply, Unknown;
    match step
    case Check(slot, typ, weight) => CheckKeepsUnknown(s, slot, typ, weight, r);
    case Queue(i) => HandlerKeepsUnknown(s, step, i, Some(Deciding), r);
    case Count(i) => HandlerKeepsUnknown(s, step, i, Some(Counted), r);
    case Decide(i) => HandlerKeepsUnknown(s, step, i, NextStage(s, s.flights[i].stage), r);
    case _ => OtherKeepsUnknown(s, step, r);
  }

  lemma CheckKeepsUnknown(s: System, slot: nat, typ: EventType, weight: int, r: nat)
    requires Possible(s, Check(slot, typ, weight)) && r >= |s.slots| && Unknown(s, r)
    ensures Unknown(Apply(s, Check(slot, typ, weight)), r)
  {
    hide Real.After, Real.Report, Real.Reports;
  }

  lemma HandlerKeepsUnknown(s: System, step: Step, i: nat, next: Option<Stage>, r: nat)
    requires Possible(s, step) && r >= |s.slots| && Unknown(s, r)
    requires (step == Queue(i) && next == Some(Deciding)) || (step == Count(i) && next == Some(Counted))
          || (step == Decide(i) && next == NextStage(s, s.flights[i].stage))
    ensures Unknown(Apply(s, step), r)
  {
    var f, s' := s.flights[i], Apply(s, step);
    assert s'.flights == Moved(s.flights, i, next);
    assert !Ahead(f, r);
    assert next.Some? ==> !Ahead(f.(stage := next.value), r);
    hide NextStage, Ahead, Apply;
    assert forall g <- s'.flights :: g in s.flights || (next.Some? && g == f.(stage := next.value));
    OthersUntouched(s, step, r);
  }

  lemma OthersUntouched(s: System, step: Step, r: nat)
    requires Possible(s, step) && (step.Count? || step.Decide? || (step.Queue? && s.flights[step.i].slot != r))
    ensures Lookup(Apply(s, step).pending, r) == Lookup(s.pending, r) && Apply(s, step).enabled == s.enabled
  {
    hide NextStage, Moved;
  }

  lemma OtherKeepsUnknown(s: System, step: Step, r: nat)
    requires Possible(s, step) && r >= |s.slots| && Unknown(s, r)
    requires !step.Check? && !step.Queue? && !step.Count? && !step.Decide?
    ensures Unknown(Apply(s, step), r)
  {
    hide Possible;
  }

  /** Every event that has not been stored is of a real that exists. */
  lemma OfKnownReal(s: System, f: Flight)
    requires AllAgree(s) && f in s.flights && f.Flight?
    ensures f.slot >= |s.slots| ==> !Ahead(f, f.slot)
  {
    hide Ahead;
    if f.slot >= |s.slots| {
      assert Unknown(s, f.slot);
    }
  }

  /** A step keeps the agreement of all reals exactly when it neither stores out of order nor leaks. */
  lemma StepAgreesExactlyWhen(s: System, step: Step)
    requires Possible(s, step) && AllConsistent(s) && AllAgree(s)
    ensures AllAgree(Apply(s, step)) <==> InOrder(s, step) && !Leaks(s, step)
  {
    hide Apply, Agrees, Unknown, InOrder, AllConsistent, Leaks;
    if InOrder(s, step) && !Leaks(s, step) {
      StepAllAgree(s, step);
      return;
    }
    SlotsKept(s, step);
    OnlyTheseMatter(s, step);
    if step.Queue? {
      assert step == Queue(step.i);
      OfKnownReal(s, s.flights[step.i]);
      QueueAgreesExactlyWhen(s, step.i);
    } else if step.Remove? {
      assert step == Remove(step.slot);
      RemoveAgreesExactlyWhen(s, step.slot);
    }
  }

  lemma SlotsKept(s: System, step: Step)
    requires Possible(s, step)
    ensures |Apply(s, step).slots| == |s.slots| + if step.Add? then 1 else 0
  {
    hide NextStage, Moved, Served;
  }

  lemma OnlyTheseMatter(s: System, step: Step)
    requires Possible(s, step)
    ensures step.Queue? || InOrder(s, step)
    ensures step.Remove? || !Leaks(s, step)
  {
  }

  lemma StepAllAgree(s: System, step: Step)
    requires Possible(s, step) && InOrder(s, step) && !Leaks(s, step) && AllConsistent(s) && AllAgree(s)
    ensures AllAgree(Apply(s, step))
  {
    hide Apply, Agrees, Unknown, InOrder, Leaks, AllConsistent, Possible;
    SlotsKept(s, step);
    var s' := Apply(s, step);
    forall r: nat
      ensures if r < |s'.slots| then Agrees(s', r) else Unknown(s', r)
    {
      if r < |s.slots| {
        StepAgrees(s, step, r);
      } else if r < |s'.slots| {
        assert step == Add(step.config);
        AddAgrees(s, step.config);
      } else {
        StepKeepsUnknown(s, step, r);
      }
    }
  }

  /** A new real is off, and so it is everywhere. */
  lemma AddAgrees(s: System, config: Real.Config)
    requires Unknown(s, |s.slots|)
    ensures Agrees(Apply(s, Add(config)), |s.slots|)
  {
    LinkedIdle(s.flights, |s.slots|, OFF, OFF);
  }

  /** Every store of the run was in order and no step leaked. */
  predicate Orderly(config: Service.Config, steps: seq<Step>)
    requires IsRun(config, steps)
  {
    steps == [] || (
      var n := |steps| - 1;
      var s := Run(config, steps[..n]);
      Orderly(config, steps[..n]) && InOrder(s, steps[n]) && !Leaks(s, steps[n]))
  }

  /** All reals agree after every step of the run. */
  ghost predicate AgreesThroughout(config: Service.Config, steps: seq<Step>)
    requires IsRun(config, steps)
  {
    AllAgree(Run(config, steps)) && (steps == [] || AgreesThroughout(config, steps[..|steps| - 1]))
  }

  /** Registry, events in flight and load balancer agree throughout a run exactly when every store was
      in order and nothing leaked, whatever merges, and failed or successful calls there are. */
  lemma {:induction false} AgreesExactlyWhen(config: Service.Config, steps: seq<Step>)
    requires IsRun(config, steps)
    ensures AgreesThroughout(config, steps) <==> Orderly(config, steps)
  {
    hide AllAgree, InOrder, Leaks, Apply;
    if steps == [] {
      StartAgrees(config);
    } else {
      var n := |steps| - 1;
      AgreesExactlyWhen(config, steps[..n]);
      TotalsFollowTheReals(config, steps[..n]);
      if AgreesThroughout(config, steps[..n]) {
        StepAgreesExactlyWhen(Run(config, steps[..n]), steps[n]);
      }
    }
  }

  lemma StartAgrees(config: Service.Config)
    ensures AllAgree(Start(config))
  {
  }

  /** In every reachable state of an orderly run: a pending event starts from what the load balancer
      holds; once a real's events are stored, its pending event ends at its present status; and when
      nothing is pending either, the load balancer holds its present status. */
  lemma CoalescingLosesNothing(config: Service.Config, steps: seq<Step>, r: nat)
    requires IsRun(config, steps) && Orderly(config, steps) && r < |Run(config, steps).slots|
    ensures var s := Run(config, steps);
            && (r in s.pending ==> s.pending[r].init.View() == Held(s, r))
            && ((forall f <- s.flights :: !Ahead(f, r)) ==>
                  if r in s.pending then s.pending[r].next.View() == Present(s, r) else Held(s, r) == Present(s, r))
  {
    AgreesExactlyWhen(config, steps);
    hide Run, Linked;
    var s := Run(config, steps);
    assert Agrees(s, r);
    if forall f <- s.flights :: !Ahead(f, r) {
      LinkedIdle(s.flights, r, Told(s, r), Present(s, r));
    }
  }

  /** Two reports of a real that comes up with one weight and changes to another. */
  function First(w1: int): Signal {
    Signal(Enable, Status(true, w1), OFF)
  }

  function Second(w1: int, w2: int): Signal {
    Signal(Enable, Status(true, w2), Status(true, w1))
  }

  function UpWith(weight: int): Real.State {
    Real.State(true, weight, 1, true, false)
  }

  /** The order matters: when the events of one real overtake each other on their way to the registry,
      a merge can drop the newer one, and the load balancer never learns the real's status. */
  lemma ReorderingLosesAnEvent(config: Service.Config, server: Real.Config, w1: int, w2: int) returns (steps: seq<Step>)
    requires w1 != w2 && w1 != Weights.OMITTED && w2 != Weights.OMITTED
    ensures IsRun(config, steps)
    ensures var s := Run(config, steps);
            && |s.slots| == 1 && (forall f <- s.flights :: !Ahead(f, 0)) && s.pending == map[]
            && Present(s, 0) == Status(true, w2) && Held(s, 0) == OFF
  {
    hide Run, IsRun, Apply, Possible;
    var s: System;
    steps, s := TwoReports(config, server, w1, w2);
    CountPossible(s, 1);
    steps, s := Extend(config, steps, s, Count(1));
    CountPossible(s, 2);
    steps, s := Extend(config, steps, s, Count(2));
    Overtakes(s, w1, w2);
    steps, s := Extend(config, steps, s, Queue(2));
    steps, s := Extend(config, steps, s, Queue(1));
  }

  lemma TwoReports(config: Service.Config, server: Real.Config, w1: int, w2: int) returns (steps: seq<Step>, s: System)
    requires w1 != w2 && w1 != Weights.OMITTED && w2 != Weights.OMITTED
    ensures IsRun(config, steps) && s == Run(config, steps)
    ensures s == Start(config).(slots := [Slot(true, server, UpWith(w2))],
                                flights := [Reload(Deciding), Flight(0, First(w1), Reported), Flight(0, Second(w1, w2), Reported)])
  {
    hide Run, IsRun;
    steps, s := [], Start(config);
    Begins(config);
    steps, s := Extend(config, steps, s, Add(server));
    steps, s := Extend(config, steps, s, SetDynamic(0, true));
    assert s == Start(config).(slots := [Slot(true, server, Real.FRESH.(dynWeight := true))]);
    steps, s := Extend(config, steps, s, Check(0, Enable, w1));
    assert s == Start(config).(slots := [Slot(true, server, UpWith(w1))], flights := [Reload(Deciding), Flight(0, First(w1), Reported)]);
    steps, s := Extend(config, steps, s, Check(0, Enable, w2));
  }

  lemma Begins(config: Service.Config)
    ensures IsRun(config, []) && Run(config, []) == Start(config)
  {
  }

  lemma CountPossible(s: System, i: nat)
    requires i < |s.flights| && s.flights[i].Flight? && s.flights[i].stage.Reported?
    ensures Possible(s, Count(i))
    ensures var s' := Apply(s, Count(i));
            s'.flights == s.flights[i := s.flights[i].(stage := Counted)] && s'.slots == s.slots && s'.pending == s.pending && s'.enabled == s.enabled
  {
  }

  lemma Overtakes(s: System, w1: int, w2: int)
    requires s.flights == [Reload(Deciding), Flight(0, First(w1), Counted), Flight(0, Second(w1, w2), Counted)] && s.pending == map[]
    ensures Possible(s, Queue(2))
    ensures var s' := Apply(s, Queue(2));
            && Possible(s', Queue(1))
            && var s'' := Apply(s', Queue(1));
               && s''.flights == [Reload(Deciding), Flight(0, First(w1), Deciding), Flight(0, Second(w1, w2), Deciding)]
               && s''.pending == map[] && s''.slots == s.slots && s''.enabled == s.enabled
  {
    var s' := Apply(s, Queue(2));
    assert s'.pending == map[0 := Second(w1, w2)];
  }
}
