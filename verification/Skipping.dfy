/** Whether the verdict of every weight is read by a decision, before the weight moves on or another decision
    gives the opposite one (internal/core/service/handler.go). */
module Skipping {
  import opened Common
  import opened XEvent
  import opened Pipeline
  import opened Settling
  import opened Flapping
  import Hysteresis
  import Real
  import Service

  /** The weights the service has gone through: none at first, then one after every event it counted. */
  function GoneThrough(config: Service.Config, steps: seq<Step>): seq<int>
    requires IsRun(config, steps)
  {
    if steps == [] then [0]
    else
      var n := |steps| - 1;
      GoneThrough(config, steps[..n]) + if steps[n].Count? then [Run(config, steps).service.weight] else []
  }

  /** The last verdict a decision has read is that of the last weight outside the hold band, or the present
      weight is that one and some handler is yet to read it. */
  predicate ReadsLast(config: Service.Config, s: System, seen: seq<int>, weights: seq<int>) {
    && (VerdictAt(config, s.service.weight).Some? ==>
          Hysteresis.LastVerdict(config, weights) == VerdictAt(config, s.service.weight).value)
    && (|| Hysteresis.LastVerdict(config, seen) == Hysteresis.LastVerdict(config, weights)
        || (VerdictAt(config, s.service.weight).Some? && exists f <- s.flights :: Undecided(f)))
  }

  /** An event moves the weight into the hold band before any decision has read the verdict on the weight. */
  predicate Skips(config: Service.Config, s: System, step: Step, seen: seq<int>)
    requires Possible(s, step)
  {
    && step.Count?
    && VerdictAt(config, s.service.weight + Service.WeightDelta(s.flights[step.i].signal)) == None
    && VerdictAt(config, s.service.weight) == Some(!Hysteresis.LastVerdict(config, seen))
  }

  /** What a step adds to the weights gone through. */
  function WeightBy(s: System, step: Step): seq<int>
    requires Possible(s, step)
  {
    if step.Count? then [Apply(s, step).service.weight] else []
  }

  lemma StepReadsLastExactlyWhen(config: Service.Config, s: System, step: Step, seen: seq<int>, weights: seq<int>)
    requires Possible(s, step) && SameThresholds(s.config, config) && Fixed(config, step) && ReadsLast(config, s, seen, weights)
    ensures ReadsLast(config, Apply(s, step), seen + ReadBy(s, step), weights + WeightBy(s, step)) <==> !Skips(config, s, step, seen)
  {
    hide Apply, ReadsLast;
    if step.Count? {
      assert step == Count(step.i);
      CountReadsLastExactlyWhen(config, s, step.i, seen, weights);
      assert seen + [] == seen;
    } else if ReadBy(s, step) != [] {
      assert step == Decide(step.i);
      ReadReadsLast(config, s, step.i, seen, weights);
      assert weights + [] == weights;
    } else {
      UndecidedStay(s, step);
      assert seen + [] == seen && weights + [] == weights;
      OtherReadsLast(config, s, Apply(s, step), seen, weights);
    }
  }

  lemma CountReadsLastExactlyWhen(config: Service.Config, s: System, i: nat, seen: seq<int>, weights: seq<int>)
    requires Possible(s, Count(i)) && ReadsLast(config, s, seen, weights)
    ensures var w := Apply(s, Count(i)).service.weight;
            ReadsLast(config, Apply(s, Count(i)), seen, weights + [w]) <==> !Skips(config, s, Count(i), seen)
  {
    var s' := Apply(s, Count(i));
    LastOne(config, weights, s'.service.weight);
    MovedFlights(s.flights, i, Some(Counted));
    hide Moved, VerdictAt, Hysteresis.LastVerdict;
  }

  lemma ReadReadsLast(config: Service.Config, s: System, i: nat, seen: seq<int>, weights: seq<int>)
    requires Possible(s, Decide(i)) && s.flights[i].stage.Deciding? && ReadsLast(config, s, seen, weights)
    ensures ReadsLast(config, Apply(s, Decide(i)), seen + [s.service.weight], weights)
  {
    LastOne(config, seen, s.service.weight);
    hide Moved, VerdictAt, Hysteresis.LastVerdict;
  }

  /** A step that neither counts nor reads moves no weight, and handlers yet to read stay so. */
  lemma UndecidedStay(s: System, step: Step)
    requires Possible(s, step) && !step.Count? && ReadBy(s, step) == []
    ensures Apply(s, step).service.weight == s.service.weight
    ensures (exists f <- s.flights :: Undecided(f)) ==> exists f <- Apply(s, step).flights :: Undecided(f)
  {
    if step.Check? {
      CheckAdds(s, step);
    } else if step.Queue? {
      MovedFlights(s.flights, step.i, Some(Deciding));
    } else if step.Decide? {
      MovedFlights(s.flights, step.i, NextStage(s, s.flights[step.i].stage));
    } else {
      OnlyReloads(s, step);
      hide Apply;
    }
    hide Moved, NextStage, Checked;
  }

  lemma CheckAdds(s: System, step: Step)
    requires Possible(s, step) && step.Check?
    ensures Apply(s, step).service == s.service && forall f <- s.flights :: f in Apply(s, step).flights
  {
    assert s.flights <= Apply(s, step).flights;
    hide Real.After, Real.Report, Real.Reports;
  }

  lemma OtherReadsLast(config: Service.Config, s: System, s': System, seen: seq<int>, weights: seq<int>)
    requires ReadsLast(config, s, seen, weights) && s'.service.weight == s.service.weight
    requires (exists f <- s.flights :: Undecided(f)) ==> exists f <- s'.flights :: Undecided(f)
    ensures ReadsLast(config, s', seen, weights)
  {
    hide VerdictAt, Hysteresis.LastVerdict;
  }

  predicate NeverSkips(config: Service.Config, steps: seq<Step>)
    requires IsRun(config, steps)
  {
    steps == [] || (
      var n := |steps| - 1;
      NeverSkips(config, steps[..n]) && !Skips(config, Run(config, steps[..n]), steps[n], Reads(config, steps[..n])))
  }

  predicate ReadsLastThroughout(config: Service.Config, steps: seq<Step>)
    requires IsRun(config, steps)
  {
    && ReadsLast(config, Run(config, steps), Reads(config, steps), GoneThrough(config, steps))
    && (steps == [] || ReadsLastThroughout(config, steps[..|steps| - 1]))
  }

  /** With fixed thresholds, decisions read the last verdict throughout a run, or are about to, exactly when
      no event skips one. */
  lemma {:induction false} ReadsLastExactlyWhen(config: Service.Config, steps: seq<Step>)
    requires IsRun(config, steps) && AllFixed(config, steps)
    ensures ReadsLastThroughout(config, steps) <==> NeverSkips(config, steps)
  {
    hide ReadsLast, Skips, Apply, ReadBy;
    if steps == [] {
      StartReadsLast(config);
    } else {
      var n := |steps| - 1;
      assert steps[n] in steps && forall step <- steps[..n] :: step in steps;
      ReadsLastExactlyWhen(config, steps[..n]);
      ThresholdsStay(config, steps[..n]);
      if ReadsLastThroughout(config, steps[..n]) {
        StepReadsLastExactlyWhen(config, Run(config, steps[..n]), steps[n], Reads(config, steps[..n]), GoneThrough(config, steps[..n]));
      }
    }
  }

  lemma StartReadsLast(config: Service.Config)
    ensures ReadsLast(config, Start(config), [], [0])
  {
    LastOne(config, [], 0);
    assert [] + [0] == [0];
    assert Reload(Deciding) in Start(config).flights && Undecided(Reload(Deciding));
  }

  /** With fixed thresholds, a run that reads no weight against a decision and skips no verdict leaves a service
      without handlers under way with the verdict of the last weight it has gone through outside the hold band. */
  lemma LastVerdictHolds(config: Service.Config, steps: seq<Step>)
    requires IsRun(config, steps) && AllFixed(config, steps) && NeverCrosses(config, steps) && NeverSkips(config, steps)
    requires Idling(Run(config, steps))
    ensures Run(config, steps).service.alive == Hysteresis.LastVerdict(config, GoneThrough(config, steps))
  {
    hide Run, IsRun, Reads, GoneThrough, VerdictAt, Hysteresis.LastVerdict;
    LastReadHolds(config, steps);
    ReadsLastExactlyWhen(config, steps);
  }

  /** Handlers that only end read one weight: the verdict last read stays, when it is that on the weight or
      the quorum holds. */
  lemma {:induction false} EndingReadsNothingNew(config: Service.Config, steps: seq<Step>, more: seq<Step>)
    requires IsRun(config, steps) && IsRun(config, steps + more) && forall step <- more :: Finishing(step)
    requires VerdictAt(config, Run(config, steps).service.weight)
             in {None, Some(Hysteresis.LastVerdict(config, Reads(config, steps)))}
    ensures Run(config, steps + more).service.weight == Run(config, steps).service.weight
    ensures Hysteresis.LastVerdict(config, Reads(config, steps + more)) == Hysteresis.LastVerdict(config, Reads(config, steps))
    ensures GoneThrough(config, steps + more) == GoneThrough(config, steps)
  {
    hide Run, IsRun, Reads, GoneThrough, Apply, Possible, VerdictAt, Hysteresis.LastVerdict;
    if more == [] {
      assert steps + more == steps;
    } else {
      var n := |more| - 1;
      var all, before := steps + more, steps + more[..n];
      assert all[..|all| - 1] == before && all[|all| - 1] == more[n] && more[n] in more;
      LastStep(config, all);
      LastWeight(config, all);
      EndingReadsNothingNew(config, steps, more[..n]);
      var s := Run(config, before);
      EndingKeepsWeight(s, more[n]);
      LastOne(config, Reads(config, before), s.service.weight);
      assert Reads(config, before) + [] == Reads(config, before) && GoneThrough(config, before) + [] == GoneThrough(config, before);
    }
  }

  lemma LastWeight(config: Service.Config, steps: seq<Step>)
    requires IsRun(config, steps) && steps != []
    ensures var n := |steps| - 1;
            && IsRun(config, steps[..n])
            && GoneThrough(config, steps) == GoneThrough(config, steps[..n]) + if steps[n].Count? then [Run(config, steps).service.weight] else []
  {
    hide Apply, Possible;
  }

  lemma EndingKeepsWeight(s: System, step: Step)
    requires Possible(s, step) && Finishing(step)
    ensures Apply(s, step).service.weight == s.service.weight && Apply(s, step).config == s.config
  {
    hide NextStage, Moved;
  }

  /** An event that skips a verdict leaves it as that of the last weight outside the hold band, and unread. */
  lemma SkipMisses(config: Service.Config, s: System, step: Step, seen: seq<int>, weights: seq<int>)
    requires Possible(s, step) && Skips(config, s, step, seen) && ReadsLast(config, s, seen, weights)
    ensures ReadBy(s, step) == [] && VerdictAt(config, Apply(s, step).service.weight) == None
    ensures Hysteresis.LastVerdict(config, seen) != Hysteresis.LastVerdict(config, weights + [Apply(s, step).service.weight])
  {
    LastOne(config, weights, Apply(s, step).service.weight);
    hide VerdictAt, Hysteresis.LastVerdict, Moved;
  }

  lemma SkipMissesInRun(config: Service.Config, steps: seq<Step>, step: Step)
    requires IsRun(config, steps) && AllFixed(config, steps) && NeverSkips(config, steps)
    requires Possible(Run(config, steps), step) && Skips(config, Run(config, steps), step, Reads(config, steps))
    ensures var all := steps + [step];
            && IsRun(config, all) && VerdictAt(config, Run(config, all).service.weight) == None
            && Hysteresis.LastVerdict(config, Reads(config, all)) == Hysteresis.LastVerdict(config, Reads(config, steps))
            && Hysteresis.LastVerdict(config, Reads(config, all)) != Hysteresis.LastVerdict(config, GoneThrough(config, all))
  {
    assert step.Count?;
    var s, all := Run(config, steps), steps + [step];
    ReadsLastExactlyWhen(config, steps);
    SkipMisses(config, s, step, Reads(config, steps), GoneThrough(config, steps));
    hide Run, IsRun, Reads, GoneThrough, Apply, Possible, Skips, ReadsLast, ReadBy, VerdictAt, Hysteresis.LastVerdict;
    var all', s' := Extend(config, steps, s, step);
    assert all[..|all| - 1] == steps && all[|all| - 1] == step;
    LastStep(config, all);
    LastWeight(config, all);
    assert Reads(config, steps) + [] == Reads(config, steps);
  }

  lemma FixedToTheEnd(config: Service.Config, steps: seq<Step>, step: Step, more: seq<Step>)
    requires AllFixed(config, steps) && Fixed(config, step) && forall later <- more :: Finishing(later)
    ensures AllFixed(config, steps + [step] + more)
  {
  }

  /** With the weight in the hold band, handlers that only end read nothing against each other. */
  lemma {:induction false} HeldNeverCrosses(config: Service.Config, steps: seq<Step>, more: seq<Step>)
    requires IsRun(config, steps) && NeverCrosses(config, steps)
    requires IsRun(config, steps + more) && AllFixed(config, steps + more) && forall step <- more :: Finishing(step)
    requires VerdictAt(config, Run(config, steps).service.weight) == None
    ensures NeverCrosses(config, steps + more) && Run(config, steps + more).service.weight == Run(config, steps).service.weight
  {
    hide Run, IsRun, Apply, Possible, VerdictAt;
    if more == [] {
      assert steps + more == steps;
    } else {
      var n := |more| - 1;
      var all, before := steps + more, steps + more[..n];
      assert all[..|all| - 1] == before && all[|all| - 1] == more[n] && more[n] in more;
      assert forall step <- before :: step in all;
      LastStep(config, all);
      HeldNeverCrosses(config, steps, more[..n]);
      EndingKeepsWeight(Run(config, before), more[n]);
      ThresholdsStay(config, before);
      VerdictsAgree(Run(config, before).config, config, Deciding, Run(config, before).service.weight);
    }
  }

  lemma CountingNeverCrosses(config: Service.Config, steps: seq<Step>, step: Step)
    requires IsRun(config, steps) && NeverCrosses(config, steps) && Possible(Run(config, steps), step) && !step.Decide?
    requires IsRun(config, steps + [step])
    ensures NeverCrosses(config, steps + [step])
  {
    assert (steps + [step])[..|steps|] == steps;
    hide Apply, Run;
  }

  /** The condition is exact: once an event has skipped a verdict, the handlers leave the service with the opposite
      one, however they end. */
  lemma SkippedIsLost(config: Service.Config, steps: seq<Step>, step: Step, more: seq<Step>)
    requires IsRun(config, steps) && AllFixed(config, steps) && NeverCrosses(config, steps) && NeverSkips(config, steps)
    requires Possible(Run(config, steps), step) && Skips(config, Run(config, steps), step, Reads(config, steps))
    requires forall later <- more :: Finishing(later)
    requires IsRun(config, steps + [step] + more) && Idling(Run(config, steps + [step] + more))
    ensures var all := steps + [step] + more;
            Run(config, all).service.alive != Hysteresis.LastVerdict(config, GoneThrough(config, all))
  {
    assert step.Count?;
    hide Run, IsRun, Reads, GoneThrough, NeverSkips, NeverCrosses, Skips, Possible, VerdictAt, Hysteresis.LastVerdict;
    SkipMissesInRun(config, steps, step);
    CountingNeverCrosses(config, steps, step);
    FixedToTheEnd(config, steps, step, more);
    HeldNeverCrosses(config, steps + [step], more);
    EndingReadsNothingNew(config, steps + [step], more);
    LastReadHolds(config, steps + [step] + more);
  }

  /** Likewise, once a weight has been read against a decision under way, the handlers can end with the verdict
      opposite to the last one read. */
  lemma CrossedIsLost(config: Service.Config, steps: seq<Step>, step: Step) returns (more: seq<Step>)
    requires IsRun(config, steps) && AllFixed(config, steps)
    requires Possible(Run(config, steps), step) && Crosses(Run(config, steps), step)
    ensures (forall later <- more :: Finishing(later)) && IsRun(config, steps + [step] + more)
    ensures var all := steps + [step] + more;
            Idling(Run(config, all)) && Run(config, all).service.alive != Hysteresis.LastVerdict(config, Reads(config, all))
  {
    var s := Run(config, steps);
    CrossedDoesNotSettle(s, step);
    CrossedIsRead(config, steps, step);
    assert step.Decide?;
    hide Run, IsRun, Reads, GoneThrough, Apply, Possible, Crosses, VerdictAt, Settles, Staged, Hysteresis.LastVerdict;
    var steps', s' := Extend(config, steps, s, step);
    StagedInEveryRun(config, steps');
    var s'';
    more, s'' := UnsettledForGood(config, steps', s');
    FixedToTheEnd(config, steps, step, more);
    ThresholdsStay(config, steps' + more);
    WrongVerdict(config, s'');
    EndingReadsNothingNew(config, steps', more);
  }

  /** The weight read against a decision has a verdict, and it becomes the last one read. */
  lemma CrossedIsRead(config: Service.Config, steps: seq<Step>, step: Step)
    requires IsRun(config, steps) && AllFixed(config, steps)
    requires Possible(Run(config, steps), step) && Crosses(Run(config, steps), step)
    ensures IsRun(config, steps + [step])
    ensures VerdictAt(config, Run(config, steps + [step]).service.weight)
         == Some(Hysteresis.LastVerdict(config, Reads(config, steps + [step])))
  {
    var s, all := Run(config, steps), steps + [step];
    assert all[..|steps|] == steps;
    ThresholdsStay(config, steps);
    VerdictsAgree(s.config, config, Deciding, s.service.weight);
    LastOne(config, Reads(config, steps), s.service.weight);
    hide VerdictAt, Hysteresis.LastVerdict, Moved, Verdict;
  }

  lemma CrossedDoesNotSettle(s: System, step: Step)
    requires Possible(s, step) && Crosses(s, step)
    ensures !Settles(Apply(s, step))
  {
    MovedFlights(s.flights, step.i, Some(Weighed(s.service.weight)));
    hide VerdictAt, Moved;
  }

  lemma WrongVerdict(config: Service.Config, s: System)
    requires SameThresholds(s.config, config) && Service.Settled(s.config, s.service) != s.service
    ensures VerdictAt(config, s.service.weight) == Some(!s.service.alive)
  {
  }
}
