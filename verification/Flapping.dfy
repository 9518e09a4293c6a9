/** How a service follows its weight when announce decisions interleave: what the sequential account of
    `Hysteresis` says holds of the weights that decisions read, under exact conditions
    (internal/core/service/handler.go). */
module Flapping {
  import opened Common
  import opened XEvent
  import opened Pipeline
  import opened Settling
  import Hysteresis
  import Real
  import Service

  /** The verdict is switched by a handler that looked before another one gave the same verdict. */
  predicate SwitchesTwice(s: System, step: Step)
    requires Possible(s, step)
  {
    step.Decide? && s.flights[step.i].stage == Looked(s.service.alive)
  }

  /** A service is up after an odd number of transitions, and down after an even one. */
  predicate Parity(s: System) {
    s.service.alive <==> s.service.transitions % 2 == 1
  }

  lemma StepParityExactlyWhen(s: System, step: Step)
    requires Possible(s, step) && Parity(s)
    ensures Parity(Apply(s, step)) <==> !SwitchesTwice(s, step)
  {
    hide NextStage, Moved, Served;
  }

  predicate NeverTwice(config: Service.Config, steps: seq<Step>)
    requires IsRun(config, steps)
  {
    steps == [] || (
      var n := |steps| - 1;
      NeverTwice(config, steps[..n]) && !SwitchesTwice(Run(config, steps[..n]), steps[n]))
  }

  predicate ParityThroughout(config: Service.Config, steps: seq<Step>)
    requires IsRun(config, steps)
  {
    Parity(Run(config, steps)) && (steps == [] || ParityThroughout(config, steps[..|steps| - 1]))
  }

  /** Transitions are odd exactly when the service is alive, throughout a run, exactly when no verdict is
      switched twice. */
  lemma {:induction false} ParityExactlyWhen(config: Service.Config, steps: seq<Step>)
    requires IsRun(config, steps)
    ensures ParityThroughout(config, steps) <==> NeverTwice(config, steps)
  {
    hide Parity, SwitchesTwice, Apply;
    if steps == [] {
      assert Parity(Start(config)) by {
        StartParity(config);
      }
    } else {
      var n := |steps| - 1;
      ParityExactlyWhen(config, steps[..n]);
      if ParityThroughout(config, steps[..n]) {
        StepParityExactlyWhen(Run(config, steps[..n]), steps[n]);
      }
    }
  }

  lemma StartParity(config: Service.Config)
    ensures Parity(Start(config))
  {
  }

  /** The weight a step seen for a decision. */
  function ReadBy(s: System, step: Step): seq<int>
    requires Possible(s, step)
  {
    if step.Decide? && s.flights[step.i].stage.Deciding? then [s.service.weight] else []
  }

  /** The weights that decisions have read, in order. */
  function Reads(config: Service.Config, steps: seq<Step>): seq<int>
    requires IsRun(config, steps)
  {
    if steps == [] then []
    else
      var n := |steps| - 1;
      Reads(config, steps[..n]) + ReadBy(Run(config, steps[..n]), steps[n])
  }

  /** The weight is read against a decision under way: the two will give opposite verdicts. */
  predicate Crosses(s: System, step: Step)
    requires Possible(s, step)
  {
    step.Decide? && s.flights[step.i].stage.Deciding? && !NoneAgainst(s.flights, s.config, s.service.weight)
  }

  predicate SameThresholds(a: Service.Config, b: Service.Config) {
    a.quorum == b.quorum && a.hysteresis == b.hysteresis
  }

  /** Loading changes no threshold. */
  predicate Fixed(config: Service.Config, step: Step) {
    step.Load? ==> SameThresholds(step.serviceConfig, config)
  }

  /** The service has the verdict of the last of these weights outside the hold band, or some decision under way
      will give it, and none will give the opposite one. */
  predicate Heads(config: Service.Config, s: System, seen: seq<int>) {
    var last := Hysteresis.LastVerdict(config, seen);
    && (forall g <- s.flights :: Verdict(config, g.stage) != Some(!last))
    && (s.service.alive == last || exists g <- s.flights :: Verdict(config, g.stage) == Some(last))
  }

  /** Settling at each of these weights in turn takes as many transitions, or one more when its verdict is not
      the service's. */
  predicate Tallies(config: Service.Config, s: Service.State, seen: seq<int>) {
    var f := Hysteresis.Follow(config, seen);
    s.transitions + (if s.alive == f.alive then 0 else 1) == f.transitions
  }

  /** The service is where settling at each of these weights in turn leads, or about to be. */
  predicate Follows(config: Service.Config, s: System, seen: seq<int>) {
    Heads(config, s, seen) && Tallies(config, s.service, seen)
  }

  lemma LastOne(config: Service.Config, weights: seq<int>, w: int)
    ensures Hysteresis.LastVerdict(config, weights + [w])
         == if VerdictAt(config, w).Some? then VerdictAt(config, w).value else Hysteresis.LastVerdict(config, weights)
  {
    assert (weights + [w])[..|weights|] == weights;
  }

  lemma VerdictsAgree(a: Service.Config, b: Service.Config, stage: Stage, w: int)
    requires SameThresholds(a, b)
    ensures VerdictAt(a, w) == VerdictAt(b, w) && Verdict(a, stage) == Verdict(b, stage)
  {
  }

  lemma StepHeadsExactlyWhen(config: Service.Config, s: System, step: Step, seen: seq<int>)
    requires Possible(s, step) && SameThresholds(s.config, config) && Heads(config, s, seen)
    ensures Heads(config, Apply(s, step), seen + ReadBy(s, step)) <==> !Crosses(s, step)
  {
    hide Apply, Heads;
    match step
    case Check(slot, typ, weight) =>
      CheckHeads(config, s, slot, typ, weight, seen);
      assert seen + [] == seen;
    case Decide(i) => DecideHeadsExactlyWhen(config, s, i, seen);
    case Count(i) =>
      MoveHeads(config, s, step, Counted, seen);
      assert seen + [] == seen;
    case Queue(i) =>
      MoveHeads(config, s, step, Deciding, seen);
      assert seen + [] == seen;
    case _ =>
      OtherHeads(config, s, step, seen);
      assert seen + [] == seen;
  }

  lemma CheckHeads(config: Service.Config, s: System, slot: nat, typ: EventType, weight: int, seen: seq<int>)
    requires Possible(s, Check(slot, typ, weight)) && Heads(config, s, seen)
    ensures Heads(config, Apply(s, Check(slot, typ, weight)), seen)
  {
    var s' := Apply(s, Check(slot, typ, weight));
    hide VerdictAt, Hysteresis.LastVerdict, Real.After, Real.Report, Real.Reports;
    assert s.flights <= s'.flights && forall f <- s'.flights[|s.flights|..] :: f.stage.Reported?;
    assert forall f <- s'.flights :: f in s.flights || f in s'.flights[|s.flights|..];
    assert forall f <- s.flights :: f in s'.flights;
  }

  lemma MoveHeads(config: Service.Config, s: System, step: Step, stage: Stage, seen: seq<int>)
    requires Possible(s, step) && Heads(config, s, seen)
    requires (step.Count? && stage == Counted) || (step.Queue? && stage == Deciding)
    ensures Heads(config, Apply(s, step), seen)
  {
    MovedFlights(s.flights, step.i, Some(stage));
    hide VerdictAt, Hysteresis.LastVerdict, Moved;
  }

  lemma OtherHeads(config: Service.Config, s: System, step: Step, seen: seq<int>)
    requires Possible(s, step) && Heads(config, s, seen)
    requires !step.Check? && !step.Count? && !step.Queue? && !step.Decide?
    ensures Heads(config, Apply(s, step), seen)
  {
    OnlyReloads(s, step);
    hide Verdict, Hysteresis.LastVerdict, Apply;
    assert Verdict(config, Deciding) == None by {
      NoVerdictYet(config);
    }
  }

  lemma NoVerdictYet(config: Service.Config)
    ensures Verdict(config, Deciding) == None
  {
  }

  /** Apart from events, only a reload begins a decision, and no such step changes a verdict. */
  lemma OnlyReloads(s: System, step: Step)
    requires Possible(s, step) && !step.Check? && !step.Count? && !step.Queue? && !step.Decide?
    ensures Apply(s, step).service == s.service
    ensures forall f <- Apply(s, step).flights :: f in s.flights || f == Reload(Deciding)
    ensures forall f <- s.flights :: f in Apply(s, step).flights
  {
    hide Served;
    if step.Load? {
      assert Apply(s, step).flights == s.flights + [Reload(Deciding)];
    } else {
      assert Apply(s, step).flights == s.flights;
    }
  }

  lemma DecideHeadsExactlyWhen(config: Service.Config, s: System, i: nat, seen: seq<int>)
    requires Possible(s, Decide(i)) && SameThresholds(s.config, config) && Heads(config, s, seen)
    ensures Heads(config, Apply(s, Decide(i)), seen + ReadBy(s, Decide(i))) <==> !Crosses(s, Decide(i))
  {
    hide Heads;
    if s.flights[i].stage.Deciding? {
      ReadHeadsExactlyWhen(config, s, i, seen);
    } else {
      LaterHeads(config, s, i, seen);
      assert seen + [] == seen;
    }
  }

  lemma ReadHeadsExactlyWhen(config: Service.Config, s: System, i: nat, seen: seq<int>)
    requires Possible(s, Decide(i)) && SameThresholds(s.config, config) && Heads(config, s, seen)
    requires s.flights[i].stage.Deciding?
    ensures Heads(config, Apply(s, Decide(i)), seen + [s.service.weight]) <==> !Crosses(s, Decide(i))
  {
    var w, f := s.service.weight, s.flights[i];
    MovedFlights(s.flights, i, Some(Weighed(w)));
    LastOne(config, seen, w);
    forall g <- s.flights
      ensures Verdict(s.config, g.stage) == Verdict(config, g.stage)
    {
      VerdictsAgree(s.config, config, g.stage, w);
    }
    VerdictsAgree(s.config, config, f.stage, w);
    assert Verdict(config, f.stage) == None && Verdict(config, Weighed(w)) == VerdictAt(config, w);
    hide VerdictAt, Verdict, Hysteresis.LastVerdict, Moved;
  }

  lemma LaterHeads(config: Service.Config, s: System, i: nat, seen: seq<int>)
    requires Possible(s, Decide(i)) && SameThresholds(s.config, config) && Heads(config, s, seen)
    requires !s.flights[i].stage.Deciding?
    ensures Heads(config, Apply(s, Decide(i)), seen)
  {
    var f, next := s.flights[i], NextStage(s, s.flights[i].stage);
    MovedFlights(s.flights, i, next);
    hide Heads, Moved;
    if !f.stage.Looked? {
      KeepsVerdict(config, s, f);
      hide NextStage;
      KeptHeads(config, s, Decided(s, i), f, next, seen);
    } else {
      hide NextStage;
      SwitchHeads(config, s, Decided(s, i), f, f.stage.up, seen);
    }
  }

  /** The flights after one handler has moved on or ended. */
  predicate OneMoved(flights: seq<Flight>, flights': seq<Flight>, f: Flight, next: Option<Stage>) {
    && f in flights
    && (forall g <- flights' :: g in flights || (next.Some? && g == f.(stage := next.value)))
    && (forall g <- flights :: g in flights' || g == f)
    && (next.Some? ==> f.(stage := next.value) in flights')
  }

  /** A decision keeps its verdict until it is switched, or ends when the service has it. */
  predicate Kept(config: Service.Config, alive: bool, f: Flight, next: Option<Stage>) {
    var verdict := Verdict(config, f.stage);
    var verdict' := if next.Some? then Verdict(config, next.value) else None;
    verdict' == verdict || (verdict' == None && verdict == Some(alive))
  }

  lemma KeepsVerdict(config: Service.Config, s: System, f: Flight)
    requires SameThresholds(s.config, config)
    requires !f.stage.Reported? && !f.stage.Counted? && !f.stage.Deciding? && !f.stage.Looked?
    ensures Kept(config, s.service.alive, f, NextStage(s, f.stage))
  {
  }

  lemma KeptHeads(config: Service.Config, s: System, s': System, f: Flight, next: Option<Stage>, seen: seq<int>)
    requires Heads(config, s, seen) && OneMoved(s.flights, s'.flights, f, next) && Kept(config, s.service.alive, f, next)
    requires s'.service == s.service
    ensures Heads(config, s', seen)
  {
    hide Verdict, Hysteresis.LastVerdict;
  }

  lemma SwitchHeads(config: Service.Config, s: System, s': System, f: Flight, up: bool, seen: seq<int>)
    requires Heads(config, s, seen) && OneMoved(s.flights, s'.flights, f, Some(Switched))
    requires f.stage == Looked(up) && s'.service.alive == up
    ensures Heads(config, s', seen)
  {
    hide Hysteresis.LastVerdict;
  }

  /** Settling once more: a verdict is taken over, and otherwise nothing changes but the weight. */
  lemma FollowOne(config: Service.Config, seen: seq<int>, w: int)
    ensures var f, f' := Hysteresis.Follow(config, seen), Hysteresis.Follow(config, seen + [w]);
            match VerdictAt(config, w)
            case None => f'.alive == f.alive && f'.transitions == f.transitions
            case Some(up) => f'.alive == up && f'.transitions == f.transitions + if f.alive == up then 0 else 1
  {
    assert (seen + [w])[..|seen|] == seen;
  }

  /** Only switching a verdict changes it, and counts as a transition. */
  lemma OnlySwitching(s: System, step: Step)
    requires Possible(s, step)
    ensures var service := Apply(s, step).service;
            if step.Decide? && s.flights[step.i].stage.Looked?
            then service == s.service.(alive := s.flights[step.i].stage.up, transitions := s.service.transitions + 1)
            else service.alive == s.service.alive && service.transitions == s.service.transitions
  {
    hide NextStage, Moved, Served;
  }

  /** While the service has the last verdict read or is about to, its transitions tally exactly until one is
      switched twice. */
  lemma StepTalliesExactlyWhen(config: Service.Config, s: System, step: Step, seen: seq<int>)
    requires Possible(s, step) && SameThresholds(s.config, config) && Follows(config, s, seen) && !Crosses(s, step)
    ensures Tallies(config, Apply(s, step).service, seen + ReadBy(s, step)) <==> !SwitchesTwice(s, step)
  {
    OnlySwitching(s, step);
    Hysteresis.FlappingIsBounded(config, seen);
    hide Apply, Hysteresis.Follow, Hysteresis.LastVerdict, Hysteresis.Movement, Hysteresis.Band;
    if ReadBy(s, step) == [] {
      assert seen + [] == seen;
    } else {
      ReadTallies(config, s, seen);
    }
  }

  lemma ReadTallies(config: Service.Config, s: System, seen: seq<int>)
    requires SameThresholds(s.config, config) && Follows(config, s, seen) && NoneAgainst(s.flights, s.config, s.service.weight)
    ensures Tallies(config, s.service, seen + [s.service.weight])
  {
    var w := s.service.weight;
    FollowOne(config, seen, w);
    Hysteresis.FlappingIsBounded(config, seen);
    VerdictsAgree(s.config, config, Deciding, w);
    forall g <- s.flights
      ensures Verdict(s.config, g.stage) == Verdict(config, g.stage)
    {
      VerdictsAgree(s.config, config, g.stage, w);
    }
    hide VerdictAt, Verdict, Hysteresis.Follow, Hysteresis.LastVerdict, Hysteresis.Movement, Hysteresis.Band;
  }

  lemma StepFollowsExactlyWhen(config: Service.Config, s: System, step: Step, seen: seq<int>)
    requires Possible(s, step) && SameThresholds(s.config, config) && Follows(config, s, seen)
    ensures Follows(config, Apply(s, step), seen + ReadBy(s, step)) <==> !Crosses(s, step) && !SwitchesTwice(s, step)
  {
    hide Apply, Heads, Tallies, Crosses, SwitchesTwice, ReadBy;
    StepHeadsExactlyWhen(config, s, step, seen);
    if !Crosses(s, step) {
      StepTalliesExactlyWhen(config, s, step, seen);
    }
  }

  /** No decision of the run read a weight against another one. */
  predicate NeverCrosses(config: Service.Config, steps: seq<Step>)
    requires IsRun(config, steps)
  {
    steps == [] || (
      var n := |steps| - 1;
      NeverCrosses(config, steps[..n]) && !Crosses(Run(config, steps[..n]), steps[n]))
  }

  predicate HeadsThroughout(config: Service.Config, steps: seq<Step>)
    requires IsRun(config, steps)
  {
    && Heads(config, Run(config, steps), Reads(config, steps))
    && (steps == [] || HeadsThroughout(config, steps[..|steps| - 1]))
  }

  predicate FollowsThroughout(config: Service.Config, steps: seq<Step>)
    requires IsRun(config, steps)
  {
    && Follows(config, Run(config, steps), Reads(config, steps))
    && (steps == [] || FollowsThroughout(config, steps[..|steps| - 1]))
  }

  predicate AllFixed(config: Service.Config, steps: seq<Step>) {
    forall step <- steps :: Fixed(config, step)
  }

  lemma {:induction false} ThresholdsStay(config: Service.Config, steps: seq<Step>)
    requires IsRun(config, steps) && AllFixed(config, steps)
    ensures SameThresholds(Run(config, steps).config, config)
  {
    if steps != [] {
      var n := |steps| - 1;
      assert steps[n] in steps;
      ThresholdsStay(config, steps[..n]);
      hide NextStage, Moved, Served, Run;
      StepThresholds(config, Run(config, steps[..n]), steps[n]);
    }
  }

  lemma StepThresholds(config: Service.Config, s: System, step: Step)
    requires Possible(s, step) && SameThresholds(s.config, config) && Fixed(config, step)
    ensures SameThresholds(Apply(s, step).config, config)
  {
    hide NextStage, Moved, Served;
  }

  /** With fixed thresholds, the service has the last verdict read, or is about to, throughout a run exactly when
      no weight is read against a decision under way. */
  lemma {:induction false} HeadsExactlyWhen(config: Service.Config, steps: seq<Step>)
    requires IsRun(config, steps) && AllFixed(config, steps)
    ensures HeadsThroughout(config, steps) <==> NeverCrosses(config, steps)
  {
    hide Heads, Crosses, Apply, ReadBy;
    if steps == [] {
      StartFollows(config);
    } else {
      var n := |steps| - 1;
      assert forall step <- steps[..n] :: step in steps;
      HeadsExactlyWhen(config, steps[..n]);
      ThresholdsStay(config, steps[..n]);
      if HeadsThroughout(config, steps[..n]) {
        StepHeadsExactlyWhen(config, Run(config, steps[..n]), steps[n], Reads(config, steps[..n]));
      }
    }
  }

  /** Moreover it follows the weights read as the sequential service does, transition by transition, exactly
      when also no verdict is switched twice. */
  lemma {:induction false} FollowsExactlyWhen(config: Service.Config, steps: seq<Step>)
    requires IsRun(config, steps) && AllFixed(config, steps)
    ensures FollowsThroughout(config, steps) <==> NeverCrosses(config, steps) && NeverTwice(config, steps)
  {
    hide Follows, Crosses, SwitchesTwice, Apply, ReadBy;
    if steps == [] {
      StartFollows(config);
    } else {
      var n := |steps| - 1;
      assert forall step <- steps[..n] :: step in steps;
      FollowsExactlyWhen(config, steps[..n]);
      ThresholdsStay(config, steps[..n]);
      if FollowsThroughout(config, steps[..n]) {
        StepFollowsExactlyWhen(config, Run(config, steps[..n]), steps[n], Reads(config, steps[..n]));
      }
    }
  }

  lemma StartFollows(config: Service.Config)
    ensures Heads(config, Start(config), []) && Follows(config, Start(config), [])
  {
  }

  /** A run that never disturbs a decision reads no weight against one. */
  lemma {:induction false} UndisturbedNeverCrosses(config: Service.Config, steps: seq<Step>)
    requires IsRun(config, steps) && AllUndisturbed(config, steps)
    ensures NeverCrosses(config, steps)
  {
    hide NoneAgainst, Apply, Undisturbed;
    if steps != [] {
      var n := |steps| - 1;
      UndisturbedNeverCrosses(config, steps[..n]);
      SettlesExactlyWhen(config, steps[..n]);
    }
  }

  /** How far the weight has moved, from the service's start. */
  function Travelled(config: Service.Config, steps: seq<Step>): nat
    requires IsRun(config, steps)
  {
    if steps == [] then 0
    else
      var n := |steps| - 1;
      Travelled(config, steps[..n]) + Distance(Run(config, steps[..n]).service.weight, Run(config, steps).service.weight)
  }

  /** The weights read lie on the way. */
  lemma {:induction false} ReadsOnTheWay(config: Service.Config, steps: seq<Step>)
    requires IsRun(config, steps)
    ensures OnTheWay(Travelled(config, steps), Reads(config, steps), Run(config, steps).service.weight)
  {
    hide Run, IsRun, Reads, Travelled, Apply, Possible, OnTheWay, ReadBy;
    if steps == [] {
      NoSteps(config);
      NowhereYet();
    } else {
      var n := |steps| - 1;
      LastStep(config, steps);
      ReadsOnTheWay(config, steps[..n]);
      var s, seen := Run(config, steps[..n]), Reads(config, steps[..n]);
      ReadingStays(s, steps[n]);
      GoesOn(Travelled(config, steps[..n]), seen, s.service.weight, Run(config, steps).service.weight, ReadBy(s, steps[n]));
    }
  }

  /** The way reaches the weights read one after the other, and then the present one. */
  predicate OnTheWay(travelled: nat, seen: seq<int>, w: int) {
    travelled >= Hysteresis.Movement(seen) + Distance(if seen == [] then 0 else seen[|seen| - 1], w)
  }

  lemma NowhereYet()
    ensures OnTheWay(0, [], 0)
  {
  }

  lemma GoesOn(travelled: nat, seen: seq<int>, w: int, w': int, read: seq<int>)
    requires OnTheWay(travelled, seen, w) && (read == [] || (read == [w] && w' == w))
    ensures OnTheWay(travelled + Distance(w, w'), seen + read, w')
  {
    if read == [] {
      assert seen + read == seen;
    } else {
      assert (seen + [w])[..|seen|] == seen;
    }
  }

  lemma NoSteps(config: Service.Config)
    ensures IsRun(config, []) && Run(config, []) == Start(config) && Reads(config, []) == [] && Travelled(config, []) == 0
  {
  }

  /** The last step of a run, and what it adds to the weights read and to the way. */
  lemma LastStep(config: Service.Config, steps: seq<Step>)
    requires IsRun(config, steps) && steps != []
    ensures var n := |steps| - 1;
            && IsRun(config, steps[..n]) && Possible(Run(config, steps[..n]), steps[n])
            && Run(config, steps) == Apply(Run(config, steps[..n]), steps[n])
            && Reads(config, steps) == Reads(config, steps[..n]) + ReadBy(Run(config, steps[..n]), steps[n])
            && Travelled(config, steps) == Travelled(config, steps[..n])
                                           + Distance(Run(config, steps[..n]).service.weight, Run(config, steps).service.weight)
  {
    hide Apply, Possible, ReadBy, Distance;
  }

  lemma ReadingStays(s: System, step: Step)
    requires Possible(s, step)
    ensures ReadBy(s, step) != [] ==> ReadBy(s, step) == [s.service.weight] && Apply(s, step).service.weight == s.service.weight
  {
    hide NextStage, Moved;
  }

  /** With fixed thresholds, and no weight read against a decision under way: a service without decisions under
      way has the verdict of the last weight read outside the hold band. */
  lemma LastReadHolds(config: Service.Config, steps: seq<Step>)
    requires IsRun(config, steps) && AllFixed(config, steps) && NeverCrosses(config, steps) && Idling(Run(config, steps))
    ensures Run(config, steps).service.alive == Hysteresis.LastVerdict(config, Reads(config, steps))
  {
    hide Run, IsRun, Reads, Hysteresis.LastVerdict;
    HeadsExactlyWhen(config, steps);
  }

  /** When moreover no verdict is switched twice, the weight has at any time moved by at least the band for every
      transition; with the usual thresholds, that is twice the hysteresis. */
  lemma FlappingIsBounded(config: Service.Config, steps: seq<Step>)
    requires IsRun(config, steps) && AllFixed(config, steps) && NeverCrosses(config, steps) && NeverTwice(config, steps)
    ensures var transitions := Run(config, steps).service.transitions;
            && Travelled(config, steps) >= Hysteresis.Band(config) * transitions
            && (config.hysteresis <= config.quorum ==> Travelled(config, steps) >= 2 * config.hysteresis * transitions)
  {
    hide Run, IsRun, Reads, Travelled, Hysteresis.Follow, Hysteresis.LastVerdict, Hysteresis.Movement;
    var s, seen := Run(config, steps), Reads(config, steps);
    FollowsExactlyWhen(config, steps);
    ReadsOnTheWay(config, steps);
    Hysteresis.FlappingIsBounded(config, seen);
    Fewer(Hysteresis.Band(config), s.service.transitions, Hysteresis.Follow(config, seen).transitions, Travelled(config, steps));
  }

  lemma Fewer(band: int, few: nat, many: nat, moved: nat)
    requires few <= many && moved >= band * many
    ensures moved >= band * few
  {
    if band >= 0 {
      assert band * many == band * few + band * (many - few);
      assert band * (many - few) >= 0;
    } else {
      assert band * few <= 0;
    }
  }
}
