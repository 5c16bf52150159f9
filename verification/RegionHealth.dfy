/** One region of the failover controller: a hysteresis machine driven by timed health evaluations. */
module RegionHealth {
  import opened Wrappers

  /** Times and durations are nanoseconds. */
  const SECOND: int := 1_000_000_000

  datatype RegionState = RegionState(healthySince: Option<int>, onFallback: bool)

  const INITIAL: RegionState := RegionState(None, false)

  datatype Evaluation = Evaluation(at: int, healthy: bool, fallbackHealthy: bool)

  /** A healthy region on fallback stays there while its healthy streak is younger than the window. */
  predicate HeldBack(s: RegionState, since: int, e: Evaluation, windowSeconds: int) {
    s.onFallback && windowSeconds > 0 && e.at - since < windowSeconds * SECOND
  }

  function Evaluate(s: RegionState, e: Evaluation, windowSeconds: int): RegionState {
    if e.healthy then
      var since := s.healthySince.GetOr(e.at);
      RegionState(Some(since), HeldBack(s, since, e, windowSeconds))
    else
      RegionState(None, s.onFallback || e.fallbackHealthy)
  }

  /** Whether the hostname is pointed at the fallback region after this evaluation. */
  predicate ServesFallback(s: RegionState, e: Evaluation, windowSeconds: int) {
    if e.healthy then HeldBack(s, s.healthySince.GetOr(e.at), e, windowSeconds)
    else e.fallbackHealthy
  }

  function After(es: seq<Evaluation>, windowSeconds: int): RegionState {
    if es == [] then INITIAL
    else Evaluate(After(es[..|es| - 1], windowSeconds), es[|es| - 1], windowSeconds)
  }

  /** The state before the i-th evaluation of a run. */
  function Before(es: seq<Evaluation>, i: nat, windowSeconds: int): RegionState
    requires i <= |es|
  {
    After(es[..i], windowSeconds)
  }

  lemma BeforeNext(es: seq<Evaluation>, i: nat, windowSeconds: int)
    requires i < |es|
    ensures Before(es, i + 1, windowSeconds) == Evaluate(Before(es, i, windowSeconds), es[i], windowSeconds)
  {
    assert es[..i + 1][..i] == es[..i];
  }

  // ---- what HealthySince means ----

  /** Where the current healthy streak began; the end of the run if the last evaluation was unhealthy. */
  function StreakStart(es: seq<Evaluation>): (i: nat)
    ensures i <= |es|
    ensures forall j :: i <= j < |es| ==> es[j].healthy
    ensures i > 0 ==> !es[i - 1].healthy
  {
    if es == [] || !es[|es| - 1].healthy then |es|
    else
      var i := StreakStart(es[..|es| - 1]);
      assert i > 0 ==> es[..|es| - 1][i - 1] == es[i - 1];
      assert forall j :: i <= j < |es| - 1 ==> es[..|es| - 1][j] == es[j];
      i
  }

  /** HealthySince is the time of the first healthy evaluation after the latest unhealthy one, and unset when the
      latest evaluation was unhealthy or there is none. */
  lemma {:induction false} HealthySinceIsStreakStart(es: seq<Evaluation>, windowSeconds: int)
    ensures After(es, windowSeconds).healthySince ==
            if StreakStart(es) == |es| then None else Some(es[StreakStart(es)].at)
  {
    if es != [] {
      HealthySinceIsStreakStart(es[..|es| - 1], windowSeconds);
    }
  }

  // ---- failbacks ----

  predicate FailsBack(es: seq<Evaluation>, i: nat, windowSeconds: int)
    requires i < |es|
  {
    Before(es, i, windowSeconds).onFallback && !Before(es, i + 1, windowSeconds).onFallback
  }

  /** A region leaves fallback at an evaluation exactly when it was on fallback, is healthy, and has been healthy at every
      evaluation since one that lies at least the window back (at once if the window is not positive). */
  lemma FailsBackIff(es: seq<Evaluation>, i: nat, windowSeconds: int)
    requires i < |es|
    ensures FailsBack(es, i, windowSeconds) <==>
            && Before(es, i, windowSeconds).onFallback
            && es[i].healthy
            && (windowSeconds <= 0 || es[i].at - es[StreakStart(es[..i + 1])].at >= windowSeconds * SECOND)
  {
    BeforeNext(es, i, windowSeconds);
    HealthySinceIsStreakStart(es[..i + 1], windowSeconds);
    if es[i].healthy {
      assert Before(es, i + 1, windowSeconds).healthySince == Some(es[StreakStart(es[..i + 1])].at);
    }
  }

  ghost predicate ClockMonotone(es: seq<Evaluation>) {
    forall i, j :: 0 <= i <= j < |es| ==> es[i].at <= es[j].at
  }

  lemma {:induction false} FallbackNeedsFailure(es: seq<Evaluation>, i: nat, j: nat, windowSeconds: int) returns (k: nat)
    requires i <= j <= |es|
    requires !Before(es, i, windowSeconds).onFallback && Before(es, j, windowSeconds).onFallback
    ensures i <= k < j && !es[k].healthy
  {
    BeforeNext(es, j - 1, windowSeconds);
    if !es[j - 1].healthy {
      k := j - 1;
    } else {
      k := FallbackNeedsFailure(es, i, j - 1, windowSeconds);
    }
  }

  /** Two failbacks of a region are at least the window apart. */
  lemma FailbacksAreSpaced(es: seq<Evaluation>, i: nat, j: nat, windowSeconds: int)
    requires ClockMonotone(es) && windowSeconds > 0 && i < j < |es|
    requires FailsBack(es, i, windowSeconds) && FailsBack(es, j, windowSeconds)
    ensures es[j].at - es[i].at >= windowSeconds * SECOND
  {
    FailsBackIff(es, j, windowSeconds);
    var k := FallbackNeedsFailure(es, i + 1, j, windowSeconds);
    var start := StreakStart(es[..j + 1]);
    assert es[..j + 1][k] == es[k];
    assert start > k;
    assert es[start].at >= es[i].at;
  }

  function Failbacks(es: seq<Evaluation>, windowSeconds: int): nat {
    if es == [] then 0
    else Failbacks(es[..|es| - 1], windowSeconds) + if FailsBack(es, |es| - 1, windowSeconds) then 1 else 0
  }

  /** What is known of the latest failback after the earlier ones. */
  ghost predicate SpacedUpTo(es: seq<Evaluation>, k: nat, failbacks: int, windowSeconds: int) {
    && k < |es| && FailsBack(es, k, windowSeconds)
    && (failbacks - 1) * (windowSeconds * SECOND) <= es[k].at - es[0].at
  }

  lemma StillSpaced(es: seq<Evaluation>, n: nat, k: nat, failbacks: int, windowSeconds: int)
    requires n <= |es| && SpacedUpTo(es[..n], k, failbacks, windowSeconds)
    ensures SpacedUpTo(es, k, failbacks, windowSeconds)
  {
    assert es[..n][..k] == es[..k] && es[..n][..k + 1] == es[..k + 1];
  }

  lemma OneMore(es: seq<Evaluation>, k: nat, n: nat, failbacks: int, windowSeconds: int)
    requires ClockMonotone(es) && windowSeconds > 0 && k < n < |es|
    requires SpacedUpTo(es, k, failbacks, windowSeconds) && FailsBack(es, n, windowSeconds)
    ensures SpacedUpTo(es, n, failbacks + 1, windowSeconds)
  {
    var window := windowSeconds * SECOND;
    FailbacksAreSpaced(es, k, n, windowSeconds);
    assert failbacks * window == (failbacks - 1) * window + window;
  }

  lemma {:induction false} LastFailback(es: seq<Evaluation>, windowSeconds: int) returns (k: nat)
    requires ClockMonotone(es) && windowSeconds > 0 && Failbacks(es, windowSeconds) > 0
    ensures SpacedUpTo(es, k, Failbacks(es, windowSeconds), windowSeconds)
  {
    var n := |es| - 1;
    if Failbacks(es[..n], windowSeconds) == 0 {
      k := n;
    } else {
      k := LastFailback(es[..n], windowSeconds);
      var earlier := Failbacks(es[..n], windowSeconds);
      StillSpaced(es, n, k, earlier, windowSeconds);
      if FailsBack(es, n, windowSeconds) {
        OneMore(es, k, n, earlier, windowSeconds);
        k := n;
      }
    }
  }

  lemma QuotientBound(n: int, window: int, span: int)
    requires window > 0 && n * window <= span
    ensures n <= span / window
  {
    var q := span / window;
    assert span < (q + 1) * window;
    assert n >= q + 1 ==> n * window >= (q + 1) * window;
  }

  /** A run fails back at most once more than the number of whole windows it spans. */
  lemma FailbacksAreBounded(es: seq<Evaluation>, windowSeconds: int)
    requires ClockMonotone(es) && windowSeconds > 0 && es != []
    ensures Failbacks(es, windowSeconds) <= 1 + (es[|es| - 1].at - es[0].at) / (windowSeconds * SECOND)
  {
    var window := windowSeconds * SECOND;
    var span := es[|es| - 1].at - es[0].at;
    if Failbacks(es, windowSeconds) > 0 {
      var k := LastFailback(es, windowSeconds);
      QuotientBound(Failbacks(es, windowSeconds) - 1, window, span);
    } else {
      QuotientBound(0, window, span);
    }
  }

  // ---- entering fallback ----

  lemma SecondsAreNanoseconds()
    ensures SECOND == 1_000_000_000
  {
  }

  /** A region enters fallback exactly at an evaluation that finds it unhealthy and the fallback region healthy. */
  lemma EntersFallbackIff(es: seq<Evaluation>, i: nat, windowSeconds: int)
    requires i < |es|
    ensures !Before(es, i, windowSeconds).onFallback && Before(es, i + 1, windowSeconds).onFallback
       <==> !Before(es, i, windowSeconds).onFallback && !es[i].healthy && es[i].fallbackHealthy
  {
    BeforeNext(es, i, windowSeconds);
  }

  /** It was sent to the fallback at the i-th evaluation and has not failed back since. */
  ghost predicate SentAt(es: seq<Evaluation>, i: nat, windowSeconds: int) {
    && i < |es| && !es[i].healthy && es[i].fallbackHealthy
    && forall j :: i < j < |es| ==> !FailsBack(es, j, windowSeconds)
  }

  lemma SentStaysSent(es: seq<Evaluation>, n: nat, i: nat, windowSeconds: int)
    requires n + 1 == |es| && SentAt(es[..n], i, windowSeconds) && !FailsBack(es, n, windowSeconds)
    ensures SentAt(es, i, windowSeconds)
  {
    forall j | i < j < n ensures !FailsBack(es, j, windowSeconds) {
      assert es[..n][..j] == es[..j] && es[..n][..j + 1] == es[..j + 1];
      assert !FailsBack(es[..n], j, windowSeconds);
    }
  }

  lemma SentBefore(es: seq<Evaluation>, n: nat, i: nat, windowSeconds: int)
    requires n + 1 == |es| && SentAt(es, i, windowSeconds) && i < n
    ensures SentAt(es[..n], i, windowSeconds)
  {
    forall j | i < j < n ensures !FailsBack(es[..n], j, windowSeconds) {
      assert es[..n][..j] == es[..j] && es[..n][..j + 1] == es[..j + 1];
      assert !FailsBack(es, j, windowSeconds);
    }
  }

  /** A region is on fallback exactly when some evaluation found it unhealthy with a healthy fallback and it has not failed
      back since. */
  lemma {:induction false} OnFallbackIff(es: seq<Evaluation>, windowSeconds: int)
    ensures After(es, windowSeconds).onFallback <==> exists i: nat :: SentAt(es, i, windowSeconds)
  {
    if es != [] {
      var n := |es| - 1;
      OnFallbackIff(es[..n], windowSeconds);
      BeforeNext(es, n, windowSeconds);
      assert es[..n + 1] == es;
      if After(es, windowSeconds).onFallback {
        if !es[n].healthy && es[n].fallbackHealthy {
          assert SentAt(es, n, windowSeconds);
        } else {
          assert After(es[..n], windowSeconds).onFallback;
          var i: nat :| SentAt(es[..n], i, windowSeconds);
          SentStaysSent(es, n, i, windowSeconds);
        }
      }
      if i: nat :| SentAt(es, i, windowSeconds) {
        if i < n {
          SentBefore(es, n, i, windowSeconds);
          assert !FailsBack(es, n, windowSeconds);
        }
      }
    }
  }

  /** So a region whose fallback was never healthy while it was down is never on fallback, and its hostnames always point at
      the region itself. */
  lemma NeverSentAway(es: seq<Evaluation>, i: nat, windowSeconds: int)
    requires i < |es| && forall j :: 0 <= j < |es| ==> es[j].healthy || !es[j].fallbackHealthy
    ensures !Before(es, i, windowSeconds).onFallback && !Before(es, i + 1, windowSeconds).onFallback
    ensures !ServesFallback(Before(es, i, windowSeconds), es[i], windowSeconds)
  {
    OnFallbackIff(es[..i], windowSeconds);
    OnFallbackIff(es[..i + 1], windowSeconds);
    BeforeNext(es, i, windowSeconds);
    ServesFallbackIff(Before(es, i, windowSeconds), es[i], windowSeconds);
  }

  // ---- where the hostname points ----

  /** A hostname points at the fallback exactly when its region is on fallback afterwards and one of the two regions is
      healthy: with both unhealthy it points at the primary although the region stays on fallback. */
  lemma ServesFallbackIff(s: RegionState, e: Evaluation, windowSeconds: int)
    ensures ServesFallback(s, e, windowSeconds)
       <==> Evaluate(s, e, windowSeconds).onFallback && (e.healthy || e.fallbackHealthy)
  {
  }

  /** So the target, unlike OnFallback, has no hysteresis: while the region is down it follows the fallback's health
      from one evaluation to the next, at any spacing. */
  lemma TargetFollowsFallbackHealth(es: seq<Evaluation>, i: nat, windowSeconds: int)
    requires i + 1 < |es| && !es[i].healthy && es[i].fallbackHealthy && !es[i + 1].healthy && !es[i + 1].fallbackHealthy
    ensures ServesFallback(Before(es, i, windowSeconds), es[i], windowSeconds)
    ensures !ServesFallback(Before(es, i + 1, windowSeconds), es[i + 1], windowSeconds)
    ensures Before(es, i + 2, windowSeconds).onFallback
  {
    BeforeNext(es, i, windowSeconds);
    BeforeNext(es, i + 1, windowSeconds);
  }
}
