/** How a service with a fixed configuration follows the weights it goes through
    (internal/core/service/handler.go). */
module Hysteresis {
  import opened Common
  import opened Service

  /** The service after settling at each of the weights in turn, starting from none. */
  function Follow(cfg: Config, weights: seq<int>): State {
    if weights == [] then FRESH
    else
      var n := |weights| - 1;
      Settled(cfg, Follow(cfg, weights[..n]).(weight := weights[n]))
  }

  /** The verdict of the last weight outside the hold band; down when there was none. */
  function LastVerdict(cfg: Config, weights: seq<int>): bool {
    if weights == [] then false
    else
      var n := |weights| - 1;
      match QuorumState(cfg, weights[n])
      case Up => true
      case Down => false
      case Hold => LastVerdict(cfg, weights[..n])
  }

  /** The total movement of the weight, starting from zero. */
  function Movement(weights: seq<int>): nat {
    if weights == [] then 0
    else
      var n := |weights| - 1;
      Movement(weights[..n]) + Distance(if n == 0 then 0 else weights[n - 1], weights[n])
  }

  /** The least movement between two opposite verdicts. */
  function Band(cfg: Config): int {
    var twice, threshold := 2 * cfg.hysteresis, cfg.quorum + cfg.hysteresis;
    if twice < threshold then twice else threshold
  }

  /** The weight at which the service last changed its verdict; zero when it never did. */
  function LastFlip(cfg: Config, weights: seq<int>): int {
    if weights == [] then 0
    else
      var n := |weights| - 1;
      if Follow(cfg, weights).alive != Follow(cfg, weights[..n]).alive then weights[n] else LastFlip(cfg, weights[..n])
  }

  /** Whatever the thresholds and the weights: the service is alive exactly by the verdict of the
      last weight outside the hold band; its transitions are odd exactly when it is alive; and the
      weight has moved by at least the band for every transition. */
  lemma FlappingIsBounded(cfg: Config, weights: seq<int>)
    ensures var s := Follow(cfg, weights);
            && s.alive == LastVerdict(cfg, weights)
            && s.alive == (s.transitions % 2 == 1)
            && Movement(weights) >= Band(cfg) * s.transitions
  {
    MovementSinceFlip(cfg, weights);
  }

  /** A weight that would have given the service its present verdict. */
  predicate Justifies(cfg: Config, alive: bool, flip: int) {
    if alive then flip >= cfg.quorum + cfg.hysteresis else flip < cfg.quorum - cfg.hysteresis || flip == 0
  }

  lemma FlipCosts(cfg: Config, s: State, flip: int, w: int)
    requires Justifies(cfg, s.alive, flip)
    ensures var s' := Settled(cfg, s.(weight := w));
            s'.alive != s.alive ==> Distance(flip, w) >= Band(cfg) && Justifies(cfg, s'.alive, w)
  {
  }

  lemma {:induction false} MovementSinceFlip(cfg: Config, weights: seq<int>)
    ensures var s := Follow(cfg, weights);
            var flip := LastFlip(cfg, weights);
            && s.weight == (if weights == [] then 0 else weights[|weights| - 1])
            && s.alive == LastVerdict(cfg, weights) == (s.transitions % 2 == 1)
            && Justifies(cfg, s.alive, flip)
            && Movement(weights) >= Band(cfg) * s.transitions + Distance(flip, s.weight)
  {
    hide Justifies, Band;
    if weights == [] {
      assert Justifies(cfg, false, 0) by { StartsDown(cfg); }
    } else {
      var n := |weights| - 1;
      MovementSinceFlip(cfg, weights[..n]);
      var before := Follow(cfg, weights[..n]);
      FlipCosts(cfg, before, LastFlip(cfg, weights[..n]), weights[n]);
      OneMore(Band(cfg), before.transitions);
    }
  }

  lemma StartsDown(cfg: Config)
    ensures Justifies(cfg, false, 0)
  {
  }

  lemma OneMore(band: int, n: nat)
    ensures band * (n + 1) == band * n + band
  {
  }

  /** With the usual thresholds, the band is twice the hysteresis. */
  lemma UsualBand(cfg: Config, weights: seq<int>)
    requires cfg.hysteresis <= cfg.quorum
    ensures Movement(weights) >= 2 * cfg.hysteresis * Follow(cfg, weights).transitions
  {
    FlappingIsBounded(cfg, weights);
  }
}
