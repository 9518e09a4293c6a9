/** A real with exactly one checker, whose configuration may be reloaded between checks: the two state machines
    move together (internal/core/checker/handler.go, internal/core/real/handler.go, internal/core/real/real.go). */
module Lockstep {
  import opened XEvent
  import Checker
  import Real
  import Weights

  /** The checker, the real, and the configuration the real has now. */
  datatype Pair = Pair(config: Real.Config, checker: Checker.State, server: Real.State)

  /** A check, or a reload that keeps the checker and gives the real this configuration. */
  datatype Move = Checked(check: Checker.Check) | Reloaded(config: Real.Config)

  /** The pair as it is created: the checker starts from the configured weight. */
  function Initial(cfg: Checker.Config, server: Real.Config): Pair {
    Pair(server, Checker.State(server.weight, false, 0, false), Real.FRESH.(dynWeight := cfg.dynamicWeight))
  }

  /** A check's event, if there is one, is handled by the real; a reload tells the checker of a new weight. */
  function Step(cfg: Checker.Config, p: Pair, move: Move): Pair {
    match move
    case Checked(check) =>
      p.(checker := Checker.After(cfg, p.checker, check),
         server := if Checker.Emits(cfg, p.checker, check)
                   then Real.After(p.config, p.server, Checker.EmittedType(check), Checker.EmittedWeight(cfg, p.checker, check))
                   else p.server)
    case Reloaded(config) =>
      p.(config := config,
         checker := if config.weight != p.config.weight then Checker.Reweighed(p.checker, config.weight) else p.checker)
  }

  function Run(cfg: Checker.Config, server: Real.Config, history: seq<Move>): Pair {
    if history == [] then Initial(cfg, server)
    else Step(cfg, Run(cfg, server, history[..|history| - 1]), history[|history| - 1])
  }

  predicate NoShutdown(history: seq<Move>) {
    forall move <- history :: move.Checked? ==> !move.check.Stopped?
  }

  /** The configuration the real was last given. */
  function Configured(server: Real.Config, history: seq<Move>): Real.Config {
    if history == [] then server
    else if history[|history| - 1].Reloaded? then history[|history| - 1].config
    else Configured(server, history[..|history| - 1])
  }

  /** What matters of a history: whether a check has enabled the checker, how many have failed since the last
      one that did, and whether any of these was above the retries while the real was configured to be inhibited. */
  datatype Tale = Tale(enabled: bool, failures: nat, inhibits: bool) {
    predicate Up(retries: int) {
      enabled && (failures == 0 || failures <= retries)
    }
  }

  function TaleOf(retries: int, server: Real.Config, history: seq<Move>): Tale {
    if history == [] then Tale(false, 0, false)
    else
      var n := |history| - 1;
      var before := TaleOf(retries, server, history[..n]);
      match history[n]
      case Reloaded(_) => before
      case Checked(Stopped) => before
      case Checked(Passed(_, _)) => if before.Up(retries) then before else Tale(true, 0, false)
      case Checked(Failed) =>
        before.(failures := before.failures + 1,
                inhibits := before.inhibits || (before.failures + 1 > retries && Configured(server, history[..n]).inhibitOnFailure))
  }

  /** After every check and reload short of a shutdown, the state of both machines is a function of the history:
      checker and real are alive exactly when a check has enabled them and the failures since stay within the
      retries; the real is inhibited exactly when one of these failures was above the retries while the real was
      configured to be; and unless the checker still has to report a weight given by a reload, the real's weight
      is the configured one, or its checker's when that is dynamic. */
  lemma {:induction false} MoveTogether(cfg: Checker.Config, server: Real.Config, history: seq<Move>)
    requires NoShutdown(history)
    ensures Told(cfg, Run(cfg, server, history), TaleOf(cfg.retries, server, history), Configured(server, history))
  {
    hide Step, Told, Tale.Up;
    if history == [] {
      InitiallyTold(cfg, server);
    } else {
      var n := |history| - 1;
      MoveTogether(cfg, server, history[..n]);
      var p, tale, config := Run(cfg, server, history[..n]), TaleOf(cfg.retries, server, history[..n]), Configured(server, history[..n]);
      assert history[n] in history;
      match history[n]
      case Reloaded(_) => ReloadTold(cfg, p, tale, config, history[n].config);
      case Checked(check) =>
        if check.Failed? {
          FailureTold(cfg, p, tale, config);
        } else if tale.Up(cfg.retries) {
          StillUpTold(cfg, p, check, tale, config);
        } else {
          ComesUpTold(cfg, p, check, tale, config);
        }
    }
  }

  /** The state of the pair, told from what matters of its history. */
  predicate Told(cfg: Checker.Config, p: Pair, tale: Tale, config: Real.Config) {
    && p.config == config
    && p.checker.failedAttempts == tale.failures
    && p.checker.alive == p.server.alive == tale.Up(cfg.retries)
    && p.server.inhibited == tale.inhibits
    && (tale.inhibits ==> !p.server.alive)
    && p.server.dynWeight == cfg.dynamicWeight
    && (tale.enabled && !p.checker.manualChanged && !cfg.dynamicWeight ==> p.server.weight == config.weight)
    && (tale.enabled && !p.checker.manualChanged && cfg.dynamicWeight && p.checker.weight != Weights.OMITTED ==>
          p.server.weight == p.checker.weight)
  }

  lemma InitiallyTold(cfg: Checker.Config, server: Real.Config)
    ensures Told(cfg, Initial(cfg, server), Tale(false, 0, false), server)
  {
  }

  lemma ReloadTold(cfg: Checker.Config, p: Pair, tale: Tale, config: Real.Config, config': Real.Config)
    requires Told(cfg, p, tale, config)
    ensures Told(cfg, Step(cfg, p, Reloaded(config')), tale, config')
  {
  }

  lemma FailureTold(cfg: Checker.Config, p: Pair, tale: Tale, config: Real.Config)
    requires Told(cfg, p, tale, config)
    ensures Told(cfg, Step(cfg, p, Checked(Checker.Failed)),
                 tale.(failures := tale.failures + 1,
                       inhibits := tale.inhibits || (tale.failures + 1 > cfg.retries && config.inhibitOnFailure)), config)
  {
  }

  lemma StillUpTold(cfg: Checker.Config, p: Pair, check: Checker.Check, tale: Tale, config: Real.Config)
    requires Told(cfg, p, tale, config) && check.Passed? && tale.Up(cfg.retries)
    ensures Told(cfg, Step(cfg, p, Checked(check)), tale, config)
  {
  }

  lemma ComesUpTold(cfg: Checker.Config, p: Pair, check: Checker.Check, tale: Tale, config: Real.Config)
    requires Told(cfg, p, tale, config) && check.Passed? && !tale.Up(cfg.retries)
    ensures Told(cfg, Step(cfg, p, Checked(check)), Tale(true, 0, false), config)
  {
  }

  /** Once the retries are exceeded, a failed check leaves the real inhibited when its present configuration asks
      for that, and also when it was inhibited already: it is as configured exactly unless a reload has turned
      inhibition off in the meantime. */
  lemma InhibitedAsConfiguredExactlyWhen(cfg: Checker.Config, server: Real.Config, history: seq<Move>)
    requires NoShutdown(history) && TaleOf(cfg.retries, server, history).failures + 1 > cfg.retries
    ensures var config, before := Configured(server, history), Run(cfg, server, history).server;
            var after := Run(cfg, server, history + [Checked(Checker.Failed)]).server;
            && !after.alive && after.inhibited == (config.inhibitOnFailure || before.inhibited)
            && (after.inhibited == config.inhibitOnFailure <==> !(before.inhibited && !config.inhibitOnFailure))
  {
    var more := history + [Checked(Checker.Failed)];
    assert more[..|history|] == history;
    MoveTogether(cfg, server, history);
    MoveTogether(cfg, server, more);
    hide Step;
  }

  /** That does happen: inhibition turned off while the real is down is never lifted by failing checks. */
  lemma InhibitionOutlivesItsConfiguration(cfg: Checker.Config, server: Real.Config, off: Real.Config, failures: nat)
    requires cfg.retries == failures && server.inhibitOnFailure && !off.inhibitOnFailure
    ensures var history := seq(failures + 1, _ => Checked(Checker.Failed)) + [Reloaded(off), Checked(Checker.Failed)];
            NoShutdown(history) && Configured(server, history) == off && Run(cfg, server, history).server.inhibited
  {
    var failed := seq(failures + 1, _ => Checked(Checker.Failed));
    var turned := failed + [Reloaded(off)];
    var history := turned + [Checked(Checker.Failed)];
    assert failed + [Reloaded(off), Checked(Checker.Failed)] == history;
    assert turned[..|failed|] == failed && history[..|turned|] == turned;
    OnlyFailures(cfg.retries, server, failures + 1);
    MoveTogether(cfg, server, history);
    hide Run;
  }

  lemma {:induction false} OnlyFailures(retries: int, server: Real.Config, n: nat)
    requires server.inhibitOnFailure
    ensures var failed := seq(n, _ => Checked(Checker.Failed));
            TaleOf(retries, server, failed) == Tale(false, n, n > 0 && n > retries) && Configured(server, failed) == server
  {
    if n > 0 {
      var failed := seq(n, _ => Checked(Checker.Failed));
      OnlyFailures(retries, server, n - 1);
      assert failed[..n - 1] == seq(n - 1, _ => Checked(Checker.Failed));
    }
  }

  /** Corollary: shutting the pair down makes the real report a second disappearance of a real its service does
      not count, exactly when its present configuration asks for inhibition, but it is down and no failure above
      the retries has met such a configuration. */
  lemma ShutdownOverReports(cfg: Checker.Config, server: Real.Config, history: seq<Move>)
    requires NoShutdown(history)
    ensures var p, tale := Run(cfg, server, history), TaleOf(cfg.retries, server, history);
            Real.Reports(p.config, p.server, Shutdown, Weights.OMITTED) && !p.server.Status().enable
            <==> Configured(server, history).inhibitOnFailure && !tale.Up(cfg.retries) && !tale.inhibits
  {
    MoveTogether(cfg, server, history);
  }
}
