/** What reaches the announcer: no status overtakes the load balancer, no verdict is lost, and at rest
    the announcement follows the weight the load balancer serves. */
module Announcements {
  import opened Common
  import opened RegistrySpec
  import opened XEvent
  import opened Pipeline
  import opened Conservation
  import opened Agreement
  import opened Settling
  import opened Conveying
  import Real
  import Service

  /** Every event stored before the status at hand was registered has been offered to the load balancer
      or cancelled by a merge, once the updater has processed the registry. */
  predicate BalancerFirst(s: System) {
    && (forall t <- s.untried :: t.1 < s.stores && t.0 in s.pending)
    && s.stamp <= s.stores
    && match s.updater
       case Idle => true
       case Taken(_, stamp) => stamp <= s.stores
       case Processed(_, stamp) => stamp <= s.stores && forall t <- s.untried :: t.1 >= stamp
  }

  lemma StepBalancerFirst(s: System, step: Step)
    requires Possible(s, step) && BalancerFirst(s)
    ensures BalancerFirst(Apply(s, step))
  {
    hide Apply, BalancerFirst;
    if step.Queue? {
      QueueBalancerFirst(s, step.i);
    } else {
      OtherBalancerFirst(s, step);
    }
  }

  lemma QueueBalancerFirst(s: System, i: nat)
    requires Possible(s, Queue(i)) && BalancerFirst(s)
    ensures BalancerFirst(Apply(s, Queue(i)))
  {
    hide Moved, Coalesce;
  }

  lemma OtherBalancerFirst(s: System, step: Step)
    requires Possible(s, step) && BalancerFirst(s) && !step.Queue?
    ensures BalancerFirst(Apply(s, step))
  {
    hide NextStage, Moved, Served, Real.After, Real.Report, Real.Reports;
  }

  /** In every interleaving of event handling with the update cycle: when a status is about to be
      announced, no event stored before that status was registered is still waiting for its first
      attempt at the load balancer. */
  lemma {:induction false} NoAnnounceOvertakesTheBalancer(config: Service.Config, steps: seq<Step>)
    requires IsRun(config, steps)
    ensures var s := Run(config, steps);
            BalancerFirst(s) && (Possible(s, Deliver) ==> forall t <- s.untried :: t.1 >= s.updater.stamp)
  {
    if steps != [] {
      var n := |steps| - 1;
      NoAnnounceOvertakesTheBalancer(config, steps[..n]);
      StepBalancerFirst(Run(config, steps[..n]), steps[n]);
    }
  }

  /** The weight and the number of the first `n` reals in the load balancer. */
  function ServedWeight(enabled: map<nat, int>, n: nat): int {
    if n == 0 then 0 else ServedWeight(enabled, n - 1) + if n - 1 in enabled then enabled[n - 1] else 0
  }

  function ServedCount(enabled: map<nat, int>, n: nat): nat {
    if n == 0 then 0 else ServedCount(enabled, n - 1) + if n - 1 in enabled then 1 else 0
  }

  lemma {:induction false} ServedIsTotal(s: System, n: nat)
    requires n <= |s.slots| && forall r :: 0 <= r < n ==> Held(s, r) == Present(s, r)
    ensures ServedWeight(s.enabled, n) == Sum(s.slots[..n], WeightOf)
    ensures ServedCount(s.enabled, n) == Sum(s.slots[..n], CountOf)
  {
    if n > 0 {
      ServedIsTotal(s, n - 1);
      assert s.slots[..n] == s.slots[..n - 1] + [s.slots[n - 1]];
      SumAppend(s.slots[..n - 1], s.slots[n - 1], WeightOf);
      SumAppend(s.slots[..n - 1], s.slots[n - 1], CountOf);
      assert Held(s, n - 1) == Present(s, n - 1);
    }
  }

  /** Nothing is under way anywhere in the pipeline. */
  predicate AtRest(s: System) {
    s.flights == [] && s.pending == map[] && s.status == None && s.updater.Idle?
  }

  /** End to end: at rest after an orderly run without drift in which no decision was disturbed, the
      service's totals are exactly the weight and the number of reals the load balancer serves, and its
      verdict is the quorum's on that weight: up at or above the upper threshold, down below the lower
      one or at zero. When all verdicts were registered as they should, it is announced exactly when the
      announcer knows it and it is up. */
  lemma AtRestAllAgree(config: Service.Config, steps: seq<Step>)
    requires IsRun(config, steps) && Orderly(config, steps) && NoDrift(config, steps) && AllUndisturbed(config, steps)
    requires AtRest(Run(config, steps))
    ensures var s := Run(config, steps);
            var served := ServedWeight(s.enabled, |s.slots|);
            && s.service.weight == served
            && s.service.realsAlive == ServedCount(s.enabled, |s.slots|)
            && (served >= s.config.quorum + s.config.hysteresis ==> s.service.alive)
            && (served < s.config.quorum + s.config.hysteresis && (served < s.config.quorum - s.config.hysteresis || served == 0) ==>
                  !s.service.alive)
    ensures var s := Run(config, steps);
            AllRegistered(config, steps) ==> s.announced == (s.listed && s.service.alive)
  {
    var s := Run(config, steps);
    TotalsFollowTheReals(config, steps);
    NoDriftNoDifference(config, steps);
    forall r | 0 <= r < |s.slots|
      ensures Held(s, r) == Present(s, r)
    {
      CoalescingLosesNothing(config, steps, r);
    }
    ServedIsTotal(s, |s.slots|);
    assert s.slots[..|s.slots|] == s.slots;
    SettlesExactlyWhen(config, steps);
    SettledWhenIdle(s);
    Service.SettledByTheThresholds(s.config, s.service);
    ConveysExactlyWhen(config, steps);
  }
}
