/** Whether a service ends up with the verdict on its weight, although its announce decisions take no lock
    (internal/core/service/handler.go, internal/core/service/service.go). */
module Settling {
  import opened Common
  import opened XEvent
  import opened Pipeline
  import Real
  import Service

  /** The verdict on a weight, unless the quorum holds. */
  function VerdictAt(config: Service.Config, weight: int): Option<bool> {
    match Service.QuorumState(config, weight)
    case Up => Some(true)
    case Down => Some(false)
    case Hold => None
  }

  /** The thresholds written out. */
  lemma VerdictByTheThresholds(config: Service.Config, weight: int)
    ensures VerdictAt(config, weight) == Some(true) <==> weight >= config.quorum + config.hysteresis
    ensures VerdictAt(config, weight) == Some(false) <==>
            weight < config.quorum + config.hysteresis && (weight < config.quorum - config.hysteresis || weight == 0)
  {
  }

  /** The verdict a decision under way is about to give, if it has one. */
  function Verdict(config: Service.Config, stage: Stage): Option<bool> {
    match stage
    case Weighed(w) => VerdictAt(config, w)
    case Judged(up) => Some(up)
    case Looked(up) => Some(up)
    case _ => None
  }

  /** The handler has yet to read the weight. */
  predicate Undecided(f: Flight) {
    f.stage.Counted? || f.stage.Deciding?
  }

  /** No decision under way is about to give the verdict opposite to that on this weight. */
  predicate NoneAgainst(flights: seq<Flight>, config: Service.Config, weight: int) {
    match VerdictAt(config, weight)
    case None => true
    case Some(up) => forall f <- flights :: Verdict(config, f.stage) != Some(!up)
  }

  /** The service has the verdict on its weight, or some decision under way will still give it, and none
      will give the opposite one. */
  predicate Settles(s: System) {
    && NoneAgainst(s.flights, s.config, s.service.weight)
    && match VerdictAt(s.config, s.service.weight)
       case None => true
       case Some(up) => s.service.alive == up || exists f <- s.flights :: Undecided(f) || Verdict(s.config, f.stage) == Some(up)
  }

  /** The step does not turn the verdict against a decision under way: only counting an event and loading
      a configuration can, as they change the weight or the thresholds. */
  predicate Undisturbed(s: System, step: Step)
    requires Possible(s, step)
  {
    match step
    case Count(i) => NoneAgainst(s.flights, s.config, s.service.weight + Service.WeightDelta(s.flights[i].signal))
    case Load(config) => NoneAgainst(s.flights, config, s.service.weight)
    case _ => true
  }

  lemma StepSettlesExactlyWhen(s: System, step: Step)
    requires Possible(s, step) && Settles(s)
    ensures Settles(Apply(s, step)) <==> Undisturbed(s, step)
  {
    hide Apply, Settles;
    match step
    case Check(slot, typ, weight) => CheckSettles(s, slot, typ, weight);
    case Count(i) => CountSettlesExactlyWhen(s, i);
    case Queue(i) => QueueSettles(s, i);
    case Decide(i) => DecideSettles(s, i);
    case Load(config) => LoadSettlesExactlyWhen(s, config);
    case _ => OtherSettles(s, step);
  }

  lemma CheckSettles(s: System, slot: nat, typ: EventType, weight: int)
    requires Possible(s, Check(slot, typ, weight)) && Settles(s)
    ensures Settles(Apply(s, Check(slot, typ, weight)))
  {
    var s' := Apply(s, Check(slot, typ, weight));
    hide Service.QuorumState, Real.After, Real.Report, Real.Reports;
    assert s.flights <= s'.flights && forall f <- s'.flights[|s.flights|..] :: f.stage.Reported?;
    assert forall f <- s'.flights :: f in s.flights || f in s'.flights[|s.flights|..];
    assert forall f <- s.flights :: f in s'.flights;
  }

  lemma CountSettlesExactlyWhen(s: System, i: nat)
    requires Possible(s, Count(i)) && Settles(s)
    ensures Settles(Apply(s, Count(i))) <==> Undisturbed(s, Count(i))
  {
    MovedFlights(s.flights, i, Some(Counted));
    hide Moved, VerdictAt;
  }

  lemma QueueSettles(s: System, i: nat)
    requires Possible(s, Queue(i)) && Settles(s)
    ensures Settles(Apply(s, Queue(i)))
  {
    MovedFlights(s.flights, i, Some(Deciding));
    hide Moved, VerdictAt;
  }

  lemma LoadSettlesExactlyWhen(s: System, config: Service.Config)
    requires Possible(s, Load(config)) && Settles(s)
    ensures Settles(Apply(s, Load(config))) <==> Undisturbed(s, Load(config))
  {
    var s' := Apply(s, Load(config));
    hide Service.QuorumState, Possible;
    assert s'.flights[|s.flights|] == Reload(Deciding);
    assert forall f <- s'.flights :: f in s.flights || f == Reload(Deciding);
    assert forall f <- s.flights :: f in s'.flights;
  }

  /** What a decision's step leaves of the other handlers. */
  lemma MovedFlights(flights: seq<Flight>, i: nat, next: Option<Stage>)
    requires i < |flights|
    ensures forall g <- Moved(flights, i, next) :: g in flights || (next.Some? && g == flights[i].(stage := next.value))
    ensures forall g <- flights :: g in Moved(flights, i, next) || g == flights[i]
    ensures next.Some? ==> flights[i].(stage := next.value) in Moved(flights, i, next)
  {
    var flights' := Moved(flights, i, next);
    if next.Some? {
      assert flights'[i] == flights[i].(stage := next.value);
      assert forall k :: 0 <= k < |flights| && k != i ==> flights'[k] == flights[k];
    } else {
      assert forall k :: 0 <= k < |flights| && k != i ==> flights[k] == flights'[if k < i then k else k - 1];
    }
  }

  lemma DecideSettles(s: System, i: nat)
    requires Possible(s, Decide(i)) && Settles(s)
    ensures Settles(Apply(s, Decide(i)))
  {
    hide Settles, Moved, Undecided;
    var f, next := s.flights[i], NextStage(s, s.flights[i].stage);
    MovedFlights(s.flights, i, next);
    StageInherits(s, f);
    hide NextStage;
    Inherits(s, Decided(s, i), f, next);
  }

  /** The verdict on the weight enters a decision when it reads the weight, and leaves it when the
      service has it. */
  predicate Hands(s: System, s': System, f: Flight, next: Option<Stage>) {
    var verdict := Verdict(s.config, f.stage);
    var verdict' := if next.Some? then Verdict(s.config, next.value) else None;
    && (if Undecided(f) then verdict' == VerdictAt(s.config, s.service.weight) else verdict' in {None, verdict})
    && (verdict.Some? ==> verdict' == verdict || s'.service.alive == verdict.value)
    && (s'.service.alive == s.service.alive || (verdict.Some? && s'.service.alive == verdict.value))
    && (next.Some? ==> !Undecided(f.(stage := next.value)))
  }

  lemma StageInherits(s: System, f: Flight)
    requires !f.stage.Reported? && !f.stage.Counted?
    ensures var service := match f.stage case Looked(up) => s.service.(alive := up) case _ => s.service;
            Hands(s, s.(service := service), f, NextStage(s, f.stage))
  {
  }

  lemma Inherits(s: System, s': System, f: Flight, next: Option<Stage>)
    requires Settles(s) && f in s.flights && Hands(s, s.(service := s.service.(alive := s'.service.alive)), f, next)
    requires s'.config == s.config && s'.service.weight == s.service.weight
    requires forall g <- s'.flights :: g in s.flights || (next.Some? && g == f.(stage := next.value))
    requires forall g <- s.flights :: g in s'.flights || g == f
    requires next.Some? ==> f.(stage := next.value) in s'.flights
    ensures Settles(s')
  {
    hide VerdictAt, Verdict, Undecided;
  }

  lemma OtherSettles(s: System, step: Step)
    requires Possible(s, step) && Settles(s)
    requires !step.Check? && !step.Count? && !step.Queue? && !step.Decide? && !step.Load?
    ensures Settles(Apply(s, step))
  {
    hide Possible, NoneAgainst, Service.QuorumState, Undecided, Verdict, Served;
  }

  predicate AllUndisturbed(config: Service.Config, steps: seq<Step>)
    requires IsRun(config, steps)
  {
    steps == [] || (
      var n := |steps| - 1;
      AllUndisturbed(config, steps[..n]) && Undisturbed(Run(config, steps[..n]), steps[n]))
  }

  predicate SettlesThroughout(config: Service.Config, steps: seq<Step>)
    requires IsRun(config, steps)
  {
    Settles(Run(config, steps)) && (steps == [] || SettlesThroughout(config, steps[..|steps| - 1]))
  }

  /** A service settles throughout a run exactly when nothing turns the verdict against a decision under
      way. */
  lemma {:induction false} SettlesExactlyWhen(config: Service.Config, steps: seq<Step>)
    requires IsRun(config, steps)
    ensures SettlesThroughout(config, steps) <==> AllUndisturbed(config, steps)
  {
    hide Settles, Undisturbed, Apply;
    if steps == [] {
      StartSettles(config);
    } else {
      var n := |steps| - 1;
      SettlesExactlyWhen(config, steps[..n]);
      if SettlesThroughout(config, steps[..n]) {
        StepSettlesExactlyWhen(Run(config, steps[..n]), steps[n]);
      }
    }
  }

  lemma StartSettles(config: Service.Config)
    ensures Settles(Start(config))
  {
    assert Reload(Deciding) in Start(config).flights && Undecided(Reload(Deciding));
  }

  /** No handler is beyond reporting its event. */
  predicate Idling(s: System) {
    forall f <- s.flights :: f.stage.Reported?
  }

  /** Once all handlers have ended, settling means having the verdict on the weight. */
  lemma SettledWhenIdle(s: System)
    requires Idling(s)
    ensures Settles(s) <==> Service.Settled(s.config, s.service) == s.service
  {
  }

  /** How much of a handler is still ahead. */
  function Rank(f: Flight): int {
    match f.stage
    case Reported => 0
    case Counted => 7
    case Deciding => 6
    case Weighed(_) => 5
    case Judged(_) => 4
    case Looked(_) => 3
    case Switched => 2
    case Registering(_) => 1
  }

  lemma {:induction false} RanksAreNatural(flights: seq<Flight>)
    ensures Sum(flights, Rank) >= 0
  {
    if flights != [] {
      RanksAreNatural(flights[1..]);
    }
  }

  /** A handler under way takes its next step; no event is counted and nothing is loaded. */
  predicate Finishing(step: Step) {
    step.Queue? || step.Decide?
  }

  function NextOf(s: System, i: nat): Step
    requires i < |s.flights|
  {
    if s.flights[i].stage.Counted? then Queue(i) else Decide(i)
  }

  lemma NextLowersRank(s: System, i: nat)
    requires i < |s.flights| && !s.flights[i].stage.Reported? && Possible(s, NextOf(s, i))
    ensures Sum(Apply(s, NextOf(s, i)).flights, Rank) < Sum(s.flights, Rank)
  {
    var f := s.flights[i];
    var next := if f.stage.Counted? then Some(Deciding) else NextStage(s, f.stage);
    assert next.Some? ==> Rank(f.(stage := next.value)) < Rank(f);
    assert Apply(s, NextOf(s, i)).flights == Moved(s.flights, i, next);
    hide Rank, Sum, NextStage, RemoveAt, Apply;
    if next.Some? {
      SumUpdate(s.flights, i, f.(stage := next.value), Rank);
    } else {
      SumRemoveAt(s.flights, i, Rank);
      RankIsPositive(f);
    }
  }

  lemma RankIsPositive(f: Flight)
    ensures !f.stage.Reported? ==> Rank(f) > 0
  {
  }

  /** A reload reports and counts nothing. */
  predicate Staged(s: System) {
    forall f <- s.flights :: f.Reload? ==> !f.stage.Reported? && !f.stage.Counted?
  }

  lemma StepStaged(s: System, step: Step)
    requires Possible(s, step) && Staged(s)
    ensures Staged(Apply(s, step))
  {
    match step
    case Count(i) => MovedFlights(s.flights, i, Some(Counted));
    case Queue(i) => MovedFlights(s.flights, i, Some(Deciding));
    case Decide(i) => MovedFlights(s.flights, i, NextStage(s, s.flights[i].stage));
    case _ =>
    hide Moved, NextStage;
  }

  /** A service that does not settle stays so while its handlers take their steps in some order. */
  lemma StaysUnsettled(s: System) returns (i: nat)
    requires Staged(s) && !Settles(s) && !Idling(s)
    ensures i < |s.flights| && !s.flights[i].stage.Reported? && Possible(s, NextOf(s, i)) && !Settles(Apply(s, NextOf(s, i)))
  {
    var up := VerdictAt(s.config, s.service.weight).value;
    if k :| 0 <= k < |s.flights| && Verdict(s.config, s.flights[k].stage) == Some(!up) {
      if j :| 0 <= j < |s.flights| && j != k && !s.flights[j].stage.Reported? {
        i := j;
        OtherStaysAgainst(s, i, k, up);
      } else {
        i := k;
        LastGoesAgainst(s, k, up);
      }
    } else {
      i :| 0 <= i < |s.flights| && !s.flights[i].stage.Reported?;
      NobodyDecides(s, i, up);
    }
  }

  /** What a handler's next step changes of what matters here. */
  lemma NextChanges(s: System, i: nat) returns (next: Option<Stage>)
    requires Staged(s) && i < |s.flights| && !s.flights[i].stage.Reported?
    ensures Possible(s, NextOf(s, i))
    ensures var f, s' := s.flights[i], Apply(s, NextOf(s, i));
            && next == (if f.stage.Counted? then Some(Deciding) else NextStage(s, f.stage))
            && s'.flights == Moved(s.flights, i, next) && s'.config == s.config && s'.service.weight == s.service.weight
            && s'.service.alive == (if f.stage.Looked? then f.stage.up else s.service.alive)
  {
    next := if s.flights[i].stage.Counted? then Some(Deciding) else NextStage(s, s.flights[i].stage);
    hide NextStage, Moved;
  }

  lemma OtherStaysAgainst(s: System, i: nat, k: nat, up: bool)
    requires Staged(s) && VerdictAt(s.config, s.service.weight) == Some(up)
    requires i < |s.flights| && k < |s.flights| && i != k && !s.flights[i].stage.Reported?
    requires Verdict(s.config, s.flights[k].stage) == Some(!up)
    ensures Possible(s, NextOf(s, i)) && !Settles(Apply(s, NextOf(s, i)))
  {
    hide Apply, NextStage, VerdictAt, Verdict;
    var next := NextChanges(s, i);
    assert Moved(s.flights, i, next)[if next.None? && k > i then k - 1 else k] == s.flights[k];
  }

  lemma LastGoesAgainst(s: System, k: nat, up: bool)
    requires Staged(s) && VerdictAt(s.config, s.service.weight) == Some(up)
    requires k < |s.flights| && Verdict(s.config, s.flights[k].stage) == Some(!up)
    requires forall j :: 0 <= j < |s.flights| && j != k ==> s.flights[j].stage.Reported?
    ensures Possible(s, NextOf(s, k)) && !Settles(Apply(s, NextOf(s, k)))
  {
    var next := NextChanges(s, k);
    var flights' := Moved(s.flights, k, next);
    hide Apply;
    assert next.Some? ==> flights'[k] == s.flights[k].(stage := next.value);
    assert forall j :: 0 <= j < |flights'| && (next.None? || j != k) ==> flights'[j].stage.Reported?;
  }

  lemma NobodyDecides(s: System, i: nat, up: bool)
    requires Staged(s) && !Settles(s) && VerdictAt(s.config, s.service.weight) == Some(up)
    requires i < |s.flights| && !s.flights[i].stage.Reported?
    requires forall k :: 0 <= k < |s.flights| ==> Verdict(s.config, s.flights[k].stage) != Some(!up)
    ensures Possible(s, NextOf(s, i)) && !Settles(Apply(s, NextOf(s, i)))
  {
    var next := NextChanges(s, i);
    MovedFlights(s.flights, i, next);
    assert s.flights[i] in s.flights;
    hide Apply, Moved;
  }

  /** Handlers that only take their next steps end, and when the service does not settle, they can end
      without the verdict on the weight: nothing more corrects it. */
  lemma UnsettledForGood(config: Service.Config, steps: seq<Step>, s: System) returns (more: seq<Step>, s': System)
    requires IsRun(config, steps) && s == Run(config, steps) && !Settles(s) && Staged(s)
    ensures (forall step <- more :: Finishing(step)) && IsRun(config, steps + more) && s' == Run(config, steps + more)
    ensures Idling(s') && s'.service.weight == s.service.weight && Service.Settled(s'.config, s'.service) != s'.service
    decreases Sum(s.flights, Rank)
  {
    hide Settles, Staged, Run, IsRun, Sum, Rank, Apply, Possible, Idling;
    if Idling(s) {
      more, s' := [], s;
      assert steps + [] == steps;
      SettledWhenIdle(s);
    } else {
      var i := StaysUnsettled(s);
      var next := NextChanges(s, i);
      NextLowersRank(s, i);
      RanksAreNatural(Apply(s, NextOf(s, i)).flights);
      StepStaged(s, NextOf(s, i));
      var steps', mid := Extend(config, steps, s, NextOf(s, i));
      var rest: seq<Step>;
      rest, s' := UnsettledForGood(config, steps', mid);
      more := [NextOf(s, i)] + rest;
      assert steps + more == steps' + rest;
    }
  }

  lemma {:induction false} StagedInEveryRun(config: Service.Config, steps: seq<Step>)
    requires IsRun(config, steps)
    ensures Staged(Run(config, steps))
  {
    if steps != [] {
      var n := |steps| - 1;
      StagedInEveryRun(config, steps[..n]);
      StepStaged(Run(config, steps[..n]), steps[n]);
    }
  }

  /** The condition is exact: after a step that disturbs a service that settled so far, letting the
      handlers under way end can leave the service without the verdict on its weight. */
  lemma DisturbedIsUnsettledForGood(config: Service.Config, steps: seq<Step>, step: Step) returns (more: seq<Step>)
    requires IsRun(config, steps) && Possible(Run(config, steps), step)
    requires AllUndisturbed(config, steps) && !Undisturbed(Run(config, steps), step)
    ensures (forall later <- more :: Finishing(later)) && IsRun(config, steps + [step] + more)
    ensures var s := Run(config, steps + [step] + more);
            Idling(s) && Service.Settled(s.config, s.service) != s.service
  {
    hide Settles, Undisturbed, Apply, Possible, Idling, Staged;
    SettlesExactlyWhen(config, steps);
    StepSettlesExactlyWhen(Run(config, steps), step);
    var steps', s' := Extend(config, steps, Run(config, steps), step);
    StagedInEveryRun(config, steps');
    hide Run, IsRun;
    var last: System;
    more, last := UnsettledForGood(config, steps', s');
  }
}
