/** Whether the announcer ends up with the service's verdict, although verdicts are switched and registered
    without a lock and registrations merge (internal/core/service/handler.go, internal/announcer/announcer.go,
    internal/balancer/balancer.go). */
module Conveying {
  import opened Common
  import opened RegistrySpec
  import opened XEvent
  import opened Pipeline
  import opened Settling
  import Real
  import Service

  /** The status the announcer has, or will have once the update cycle at hand has ended. */
  function BelowRegistry(s: System): bool {
    match s.updater
    case Idle => s.announced
    case Taken(status, _) => if status.Some? then status.value else s.announced
    case Processed(status, _) => if status.Some? then status.value else s.announced
  }

  function Topmost(s: System): bool {
    if s.status.Some? then s.status.value else BelowRegistry(s)
  }

  /** The handler has switched the verdict and not registered it yet. */
  predicate Unregistered(f: Flight) {
    f.stage.Switched? || f.stage.Registering?
  }

  function Registration(f: Flight): int {
    if Unregistered(f) then 1 else 0
  }

  ghost function Registrations(s: System): int {
    Sum(s.flights, Registration)
  }

  /** However the registrations under way and the update cycles are ordered, the announcer ends up with the
      service's verdict: none of the former is about to register another one; without any, the topmost
      status is the verdict; and a single one is not cancelled by a pending status that was needless. */
  ghost predicate Conveys(s: System) {
    && (forall f <- s.flights :: f.stage.Registering? ==> f.stage.status == s.service.alive)
    && (Registrations(s) == 0 ==> Topmost(s) == s.service.alive)
    && (Registrations(s) == 1 ==> !(s.status == Some(!s.service.alive) && BelowRegistry(s) == !s.service.alive))
  }

  /** Only a service the announcer knows has a status there. */
  ghost predicate StatusConveyed(s: System) {
    (s.listed ==> Conveys(s)) && (!s.listed ==> !s.announced)
  }

  /** As long as the announcer knows the service: a verdict changes only when no other is about to be
      registered and no needless status is pending; and when it is not registered, for want of a group,
      it was needless. When the announcer gets to know the service, the fresh status fits. */
  ghost predicate Registered(s: System, step: Step)
    requires Possible(s, step)
  {
    match step
    case Decide(i) =>
      s.listed ==>
        (match s.flights[i].stage
         case Looked(up) =>
           || up == s.service.alive
           || ((forall f <- s.flights :: !f.stage.Registering?)
               && (Registrations(s) == 0 && s.status.Some? ==> s.status.value != BelowRegistry(s)))
         case Switched =>
           || s.config.announceGroup != ""
           || ((Registrations(s) == 1 ==> Topmost(s) == s.service.alive)
               && (Registrations(s) == 2 ==> !(s.status == Some(!s.service.alive) && BelowRegistry(s) == !s.service.alive)))
         case _ => true)
    case List(known) => known && !s.listed ==> Fits(s)
    case _ => true
  }

  /** The announcer starts a service as disabled, or as what the update cycle at hand brings. With no
      registration under way that, or else the pending status, is the verdict; with one, the pending status
      is not a needless opposite; and no opposite registration is under way. */
  ghost predicate Fits(s: System) {
    var alive, start := s.service.alive, Carried(s.updater) == Some(true);
    && (forall f <- s.flights :: f.stage.Registering? ==> f.stage.status == alive)
    && (Registrations(s) == 0 ==> if s.status.Some? then s.status.value == alive else start == alive)
    && (Registrations(s) == 1 && s.status == Some(!alive) ==> start == alive)
  }

  /** The status the update cycle at hand carries. */
  function Carried(updater: Updater): Option<bool> {
    if updater.Idle? then None else updater.status
  }

  lemma {:induction false} RegistrationsAreNatural(flights: seq<Flight>)
    ensures Sum(flights, Registration) >= 0
    ensures Sum(flights, Registration) == 0 ==> forall f <- flights :: Registration(f) == 0
    ensures Sum(flights, Registration) == 1 ==>
              forall i, j :: 0 <= i < |flights| && 0 <= j < |flights| && i != j && Registration(flights[i]) == 1 ==> Registration(flights[j]) == 0
  {
    if flights != [] {
      RegistrationsAreNatural(flights[1..]);
      assert forall k :: 0 < k < |flights| ==> flights[k] == flights[1..][k - 1];
    }
  }

  /** A step keeps the status exact if and only if it registers as it should. */
  lemma StepConveysExactlyWhen(s: System, step: Step)
    requires Possible(s, step) && StatusConveyed(s)
    ensures StatusConveyed(Apply(s, step)) <==> Registered(s, step)
  {
    hide Apply, StatusConveyed;
    match step
    case Check(slot, typ, weight) => CheckStatus(s, slot, typ, weight);
    case Count(i) => HandlerStatus(s, step);
    case Queue(i) => HandlerStatus(s, step);
    case Decide(i) => DecideConveysExactlyWhen(s, i);
    case Load(config) => LoadStatus(s, config);
    case _ => OtherConveysExactlyWhen(s, step);
  }

  lemma CheckStatus(s: System, slot: nat, typ: EventType, weight: int)
    requires Possible(s, Check(slot, typ, weight)) && StatusConveyed(s)
    ensures StatusConveyed(Apply(s, Check(slot, typ, weight)))
  {
    var Slot(_, config, state) := s.slots[slot];
    var f := Flight(slot, Real.Report(config, state, typ, Incoming(typ, weight)), Reported);
    hide Sum, Possible, Real.After, Real.Report, Real.Reports;
    SumAppend(s.flights, f, Registration);
  }

  lemma LoadStatus(s: System, config: Service.Config)
    requires Possible(s, Load(config)) && StatusConveyed(s)
    ensures StatusConveyed(Apply(s, Load(config)))
  {
    hide Sum, Possible;
    SumAppend(s.flights, Reload(Deciding), Registration);
  }

  lemma HandlerStatus(s: System, step: Step)
    requires Possible(s, step) && StatusConveyed(s) && (step.Count? || step.Queue?)
    ensures StatusConveyed(Apply(s, step))
  {
    var next := if step.Count? then Counted else Deciding;
    MovedRegistrations(s.flights, step.i, Some(next));
    MovedFlights(s.flights, step.i, Some(next));
    hide Moved, Sum, Stored;
  }

  lemma MovedRegistrations(flights: seq<Flight>, i: nat, next: Option<Stage>)
    requires i < |flights|
    ensures Sum(Moved(flights, i, next), Registration)
         == Sum(flights, Registration) - Registration(flights[i])
            + if next.Some? then Registration(flights[i].(stage := next.value)) else 0
  {
    hide Sum, RemoveAt;
    if next.Some? {
      SumUpdate(flights, i, flights[i].(stage := next.value), Registration);
    } else {
      SumRemoveAt(flights, i, Registration);
    }
  }

  lemma DecideConveysExactlyWhen(s: System, i: nat)
    requires Possible(s, Decide(i)) && StatusConveyed(s)
    ensures StatusConveyed(Apply(s, Decide(i))) <==> Registered(s, Decide(i))
  {
    hide Moved, Sum, StatusConveyed;
    match s.flights[i].stage
    case Looked(up) => SwitchConveysExactlyWhen(s, i, up);
    case Switched => ReadConveysExactlyWhen(s, i);
    case Registering(status) => RegisterConveys(s, i);
    case _ => EarlierConveys(s, i);
  }

  /** Before the verdict is switched nothing is registered. */
  lemma EarlierConveys(s: System, i: nat)
    requires Possible(s, Decide(i)) && StatusConveyed(s) && !s.flights[i].stage.Looked? && !Unregistered(s.flights[i])
    ensures StatusConveyed(Apply(s, Decide(i)))
  {
    var next := NextStage(s, s.flights[i].stage);
    MovedRegistrations(s.flights, i, next);
    MovedFlights(s.flights, i, next);
    hide Moved, Sum, Possible;
  }

  lemma SwitchConveysExactlyWhen(s: System, i: nat, up: bool)
    requires Possible(s, Decide(i)) && StatusConveyed(s) && s.flights[i].stage == Looked(up)
    ensures StatusConveyed(Apply(s, Decide(i))) <==> Registered(s, Decide(i))
  {
    hide Moved, Sum;
    MovedRegistrations(s.flights, i, Some(Switched));
    MovedFlights(s.flights, i, Some(Switched));
    RegistrationsAreNatural(s.flights);
  }

  lemma ReadConveysExactlyWhen(s: System, i: nat)
    requires Possible(s, Decide(i)) && StatusConveyed(s) && s.flights[i].stage == Switched
    ensures StatusConveyed(Apply(s, Decide(i))) <==> Registered(s, Decide(i))
  {
    hide Moved, Sum;
    var next := NextStage(s, Switched);
    MovedRegistrations(s.flights, i, next);
    MovedFlights(s.flights, i, next);
    RegistrationsAreNatural(Moved(s.flights, i, next));
  }

  /** Registering the verdict never loses it. */
  lemma RegisterConveys(s: System, i: nat)
    requires Possible(s, Decide(i)) && StatusConveyed(s) && s.flights[i].stage.Registering?
    ensures StatusConveyed(Apply(s, Decide(i)))
  {
    hide Moved, Sum;
    MovedRegistrations(s.flights, i, None);
    MovedFlights(s.flights, i, None);
    RegistrationsAreNatural(Moved(s.flights, i, None));
  }

  lemma OtherConveysExactlyWhen(s: System, step: Step)
    requires Possible(s, step) && StatusConveyed(s)
    requires !step.Check? && !step.Count? && !step.Queue? && !step.Decide? && !step.Load?
    ensures StatusConveyed(Apply(s, step)) <==> Registered(s, step)
  {
    hide Sum, Served;
  }

  ghost predicate AllRegistered(config: Service.Config, steps: seq<Step>)
    requires IsRun(config, steps)
  {
    steps == [] || (
      var n := |steps| - 1;
      AllRegistered(config, steps[..n]) && Registered(Run(config, steps[..n]), steps[n]))
  }

  ghost predicate ConveysThroughout(config: Service.Config, steps: seq<Step>)
    requires IsRun(config, steps)
  {
    StatusConveyed(Run(config, steps)) && (steps == [] || ConveysThroughout(config, steps[..|steps| - 1]))
  }

  /** The status is exact throughout a run exactly when all steps register as they should, however the
      updates interleave. */
  lemma {:induction false} ConveysExactlyWhen(config: Service.Config, steps: seq<Step>)
    requires IsRun(config, steps)
    ensures ConveysThroughout(config, steps) <==> AllRegistered(config, steps)
  {
    hide StatusConveyed, Registered, Apply;
    if steps == [] {
      StartStatus(config);
    } else {
      var n := |steps| - 1;
      ConveysExactlyWhen(config, steps[..n]);
      if ConveysThroughout(config, steps[..n]) {
        StepConveysExactlyWhen(Run(config, steps[..n]), steps[n]);
      }
    }
  }

  lemma StartStatus(config: Service.Config)
    ensures StatusConveyed(Start(config))
  {
    var flights := [Reload(Deciding)];
    assert flights[1..] == [];
    assert Sum(flights, Registration) == 0;
  }

  /** When nothing of a service is on its way to the announcer, the announcer may get to know the service
      exactly when it is down: an alive one stays without announce. */
  lemma KnownExactlyWhenDown(s: System)
    requires StatusConveyed(s) && !s.listed && Registrations(s) == 0 && s.status == None
    requires s.updater.Idle? || s.updater.status == None
    ensures StatusConveyed(Apply(s, List(true))) <==> !s.service.alive
  {
    hide Sum;
    StepConveysExactlyWhen(s, List(true));
    RegistrationsAreNatural(s.flights);
  }

  /** Nothing of the service is on its way to the announcer. */
  ghost predicate Quiet(s: System) {
    Registrations(s) == 0 && s.status == None && s.updater.Idle?
  }

  /** A registration under way takes its next step, or the updater does; no verdict is switched. */
  predicate Concluding(s: System, step: Step) {
    match step
    case Decide(i) => i < |s.flights| && Unregistered(s.flights[i])
    case Take => true
    case Process(_) => true
    case Deliver => true
    case _ => false
  }

  function RegistrationRank(f: Flight): int {
    match f.stage
    case Switched => 2
    case Registering(_) => 1
    case _ => 0
  }

  function UpdaterRank(u: Updater): nat {
    match u
    case Idle => 0
    case Taken(_, _) => 2
    case Processed(_, _) => 1
  }

  /** The updater's next step, if it has anything to do. */
  function Update(s: System): Step
    requires s.updater.Idle? ==> s.status.Some?
  {
    match s.updater
    case Idle => Take
    case Taken(_, _) => Process({})
    case Processed(_, _) => Deliver
  }

  lemma UpdateKeeps(s: System)
    requires s.listed && (s.updater.Idle? ==> s.status.Some?)
    ensures Possible(s, Update(s))
    ensures var s' := Apply(s, Update(s));
            && s'.listed && s'.flights == s.flights && s'.service == s.service && Topmost(s') == Topmost(s)
            && (if s.updater.Idle? then s'.status == None
                else s'.status == s.status && BelowRegistry(s') == BelowRegistry(s) && UpdaterRank(s'.updater) < UpdaterRank(s.updater))
  {
    hide Served;
  }

  /** What the next step of a registration does. */
  lemma RegistrationSteps(s: System, i: nat) returns (next: Option<Stage>)
    requires i < |s.flights| && Unregistered(s.flights[i])
    ensures Possible(s, Decide(i))
    ensures var f, s' := s.flights[i], Apply(s, Decide(i));
            && s'.flights == Moved(s.flights, i, next) && s'.listed == s.listed && s'.service == s.service && s'.updater == s.updater
            && s'.announced == s.announced
            && (if f.stage.Registering? then next == None && s'.status == MergeInto(s.status, f.stage.status, Cancel)
                else next in {None, Some(Stage.Registering(s.service.alive))} && s'.status == s.status)
  {
    next := NextStage(s, s.flights[i].stage);
    hide Moved;
  }

  /** A lost verdict stays lost while registrations and the updater take their steps in some order. */
  lemma StaysLost(s: System) returns (step: Step)
    requires s.listed && !Conveys(s) && !Quiet(s)
    ensures Possible(s, step) && Concluding(s, step)
    ensures var s' := Apply(s, step);
            s'.listed && !Conveys(s') && s'.service == s.service && Lower(s', s)
  {
    hide Apply, Sum, Possible, Moved;
    RegistrationsAreNatural(s.flights);
    if j :| 0 <= j < |s.flights| && s.flights[j].stage.Registering? && s.flights[j].stage.status != s.service.alive {
      if k :| 0 <= k < |s.flights| && k != j && Unregistered(s.flights[k]) {
        step := Decide(k);
        OtherStaysLost(s, j, k);
      } else if s.updater.Idle? && s.status == None {
        step := Decide(j);
        LastStaysLost(s, j);
      } else {
        step := Update(s);
        UpdateKeeps(s);
      }
    } else if i :| 0 <= i < |s.flights| && Unregistered(s.flights[i]) {
      step := Decide(i);
      CancelledStaysLost(s, i);
    } else {
      step := Update(s);
      NoneRegistering(s.flights);
      UpdateKeeps(s);
    }
  }

  /** Fewer registrations are ahead, or as many and less is ahead of the updater. */
  ghost predicate Lower(s': System, s: System) {
    || 0 <= Sum(s'.flights, RegistrationRank) < Sum(s.flights, RegistrationRank)
    || (s'.flights == s.flights && s'.status == None && s.status.Some?)
    || (s'.flights == s.flights && s'.status == s.status && UpdaterRank(s'.updater) < UpdaterRank(s.updater))
  }

  lemma {:induction false} NoneRegistering(flights: seq<Flight>)
    requires forall i :: 0 <= i < |flights| ==> !Unregistered(flights[i])
    ensures Sum(flights, Registration) == 0
  {
    if flights != [] {
      NoneRegistering(flights[1..]);
    }
  }

  lemma {:induction false} RegistrationRanksAreNatural(flights: seq<Flight>)
    ensures Sum(flights, RegistrationRank) >= 0
  {
    if flights != [] {
      RegistrationRanksAreNatural(flights[1..]);
    }
  }

  lemma RegistrationLowers(s: System, i: nat, next: Option<Stage>)
    requires i < |s.flights| && Unregistered(s.flights[i])
    requires next == None || (next.value.Registering? && s.flights[i].stage.Switched?)
    ensures 0 <= Sum(Moved(s.flights, i, next), RegistrationRank) < Sum(s.flights, RegistrationRank)
  {
    RegistrationRanksAreNatural(Moved(s.flights, i, next));
    hide Sum, RemoveAt;
    if next.Some? {
      SumUpdate(s.flights, i, s.flights[i].(stage := next.value), RegistrationRank);
    } else {
      SumRemoveAt(s.flights, i, RegistrationRank);
    }
  }

  lemma OtherStaysLost(s: System, j: nat, k: nat)
    requires j < |s.flights| && k < |s.flights| && j != k && Unregistered(s.flights[k])
    requires s.flights[j].stage.Registering? && s.flights[j].stage.status != s.service.alive && s.listed
    ensures Possible(s, Decide(k))
    ensures var s' := Apply(s, Decide(k));
            s'.listed && !Conveys(s') && s'.service == s.service && Lower(s', s)
  {
    hide Apply, Sum, NextStage;
    var next := RegistrationSteps(s, k);
    RegistrationLowers(s, k, next);
    assert Moved(s.flights, k, next)[if next.None? && j > k then j - 1 else j] == s.flights[j];
  }

  lemma LastStaysLost(s: System, j: nat)
    requires j < |s.flights| && s.flights[j].stage.Registering? && s.flights[j].stage.status != s.service.alive && s.listed
    requires forall k :: 0 <= k < |s.flights| && k != j ==> !Unregistered(s.flights[k])
    requires s.updater.Idle? && s.status == None
    ensures Possible(s, Decide(j))
    ensures var s' := Apply(s, Decide(j));
            s'.listed && !Conveys(s') && s'.service == s.service && Lower(s', s)
  {
    hide Apply, Sum, NextStage;
    var next := RegistrationSteps(s, j);
    RegistrationLowers(s, j, next);
    NoneRegistering(Moved(s.flights, j, next));
  }

  lemma CancelledStaysLost(s: System, i: nat)
    requires i < |s.flights| && Unregistered(s.flights[i]) && s.listed && !Conveys(s)
    requires forall k :: 0 <= k < |s.flights| && s.flights[k].stage.Registering? ==> s.flights[k].stage.status == s.service.alive
    ensures Possible(s, Decide(i))
    ensures var s' := Apply(s, Decide(i));
            s'.listed && !Conveys(s') && s'.service == s.service && Lower(s', s)
  {
    hide Apply, Sum, NextStage;
    RegistrationsAreNatural(s.flights);
    var next := RegistrationSteps(s, i);
    RegistrationLowers(s, i, next);
    MovedRegistrations(s.flights, i, next);
    hide Moved;
  }

  /** A lost verdict can stay lost for good: registrations and updates can end with the announcer holding
      the opposite of the service's verdict and nothing left to correct it. */
  lemma LostForGood(config: Service.Config, steps: seq<Step>, s: System) returns (more: seq<Step>, s': System)
    requires IsRun(config, steps) && s == Run(config, steps) && s.listed && !Conveys(s)
    ensures IsRun(config, steps + more) && s' == Run(config, steps + more)
    ensures s'.listed && Quiet(s') && s'.service == s.service && s'.announced != s'.service.alive
    decreases Sum(s.flights, RegistrationRank), if s.status.Some? then 1 else 0, UpdaterRank(s.updater)
  {
    hide Conveys, Run, IsRun, Sum, Apply, Possible;
    if Quiet(s) {
      more, s' := [], s;
      assert steps + [] == steps;
      QuietAndLost(s);
    } else {
      var step := StaysLost(s);
      var steps', mid := Extend(config, steps, s, step);
      var rest: seq<Step>;
      rest, s' := LostForGood(config, steps', mid);
      more := [step] + rest;
      assert steps + more == steps' + rest;
    }
  }

  lemma QuietAndLost(s: System)
    requires Quiet(s) && !Conveys(s)
    ensures s.announced != s.service.alive
  {
    RegistrationsAreNatural(s.flights);
  }

  /** The condition is exact: after a step that does not register as it should, registrations and updates
      can end with the announcer holding the opposite of the service's verdict. */
  lemma UnregisteredIsLostForGood(config: Service.Config, steps: seq<Step>, step: Step) returns (more: seq<Step>)
    requires IsRun(config, steps) && Possible(Run(config, steps), step)
    requires AllRegistered(config, steps) && !Registered(Run(config, steps), step)
    ensures IsRun(config, steps + [step] + more)
    ensures var s := Run(config, steps + [step] + more);
            s.listed && Quiet(s) && s.announced != s.service.alive
  {
    hide Registered, Apply, Possible, Quiet, Conveys;
    var s := Run(config, steps);
    ConveysExactlyWhen(config, steps);
    StepConveysExactlyWhen(s, step);
    UnknownIsSilent(s, step);
    var steps', s' := Extend(config, steps, s, step);
    hide Run, IsRun;
    var last: System;
    more, last := LostForGood(config, steps', s');
  }

  lemma UnknownIsSilent(s: System, step: Step)
    requires Possible(s, step) && (!s.listed ==> !s.announced)
    ensures !Apply(s, step).listed ==> !Apply(s, step).announced
  {
    hide NextStage, Moved, Served;
  }
}
