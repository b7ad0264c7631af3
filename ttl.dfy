/**
 * Predicted node lifetimes ("TTL") and the query's remaining execution time.
 *
 * Instants are whole milliseconds since the epoch and durations are whole
 * milliseconds. `now` is a parameter: the clock is outside the model.
 */
module Ttl {
  import opened Common

  /** One confidence-scored lifetime estimate: the node is expected to stay up until `expiryInstantMs`. */
  datatype TtlInfo = TtlInfo(confidencePercent: int, expiryInstantMs: int)

  /**
   * Whole seconds from `fromMs` to `toMs`, as ChronoUnit.SECONDS.between
   * computes them: the exact difference truncated toward zero.
   */
  function SecondsBetween(fromMs: int, toMs: int): int
  {
    var d := toMs - fromMs;
    if d >= 0 then d / 1000 else -((-d) / 1000)
  }

  /**
   * The expiry, floored at zero whole seconds from now, covers the estimated
   * remaining execution time; the comparison is made in milliseconds, as
   * Duration.compareTo does. A node that expires before the remaining time
   * is up never passes; one that outlives it by a further second always does.
   */
  function IsTtlEnough(ttl: TtlInfo, estimatedExecutionTimeMs: int, nowMs: int): (enough: bool)
    ensures enough ==> estimatedExecutionTimeMs <= 0 || ttl.expiryInstantMs - nowMs >= estimatedExecutionTimeMs
    ensures estimatedExecutionTimeMs <= 0 || ttl.expiryInstantMs - nowMs >= estimatedExecutionTimeMs + 999 ==> enough
  {
    var secondsLeft := SecondsBetween(nowMs, ttl.expiryInstantMs);
    (if secondsLeft < 0 then 0 else secondsLeft) * 1000 >= estimatedExecutionTimeMs
  }

  /** Moving the end instant later never lowers the whole-second count. */
  lemma SecondsBetweenMonotone(fromMs: int, earlierMs: int, laterMs: int)
    requires earlierMs <= laterMs
    ensures SecondsBetween(fromMs, earlierMs) <= SecondsBetween(fromMs, laterMs)
  {
    var d1, d2 := earlierMs - fromMs, laterMs - fromMs;
    if d1 >= 0 {
      assert d1 / 1000 <= d2 / 1000;
    } else if d2 < 0 {
      assert (-d2) / 1000 <= (-d1) / 1000;
    }
  }

  /**
   * For a fixed remaining time, an estimate that expires later is enough
   * whenever an earlier-expiring one is.
   */
  lemma {:induction false} TtlEnoughMonotoneInExpiry(earlier: TtlInfo, later: TtlInfo, estimatedExecutionTimeMs: int, nowMs: int)
    requires earlier.expiryInstantMs <= later.expiryInstantMs
    requires IsTtlEnough(earlier, estimatedExecutionTimeMs, nowMs)
    ensures IsTtlEnough(later, estimatedExecutionTimeMs, nowMs)
  {
    SecondsBetweenMonotone(nowMs, earlier.expiryInstantMs, later.expiryInstantMs);
  }

  /**
   * Reference statement of the TTL test in milliseconds: no work left always
   * fits; otherwise the node must stay up for the remaining time rounded up
   * to whole seconds. (A fraction of a second before expiry never counts.)
   */
  lemma TtlEnoughInWholeSeconds(ttl: TtlInfo, estimatedExecutionTimeMs: int, nowMs: int)
    ensures IsTtlEnough(ttl, estimatedExecutionTimeMs, nowMs) <==>
      (estimatedExecutionTimeMs <= 0 ||
       ttl.expiryInstantMs - nowMs >= 1000 * ((estimatedExecutionTimeMs + 999) / 1000))
  {
    var d := ttl.expiryInstantMs - nowMs;
    var rem := estimatedExecutionTimeMs;
    if rem > 0 {
      var c := (rem + 999) / 1000;
      assert 1000 * (c - 1) < rem <= 1000 * c;
      if d >= 0 {
        var s := d / 1000;
        assert 1000 * s <= d < 1000 * s + 1000;
        if 1000 * s >= rem {
          assert s > c - 1;
        }
        if d >= 1000 * c {
          assert s >= c;
        }
      } else {
        assert SecondsBetween(nowMs, ttl.expiryInstantMs) <= 0;
      }
    }
  }

  /**
   * Time still needed by the query: the estimated total minus the elapsed
   * execution time, never negative.
   */
  function EstimatedExecutionTimeRemaining(totalEstimatedMs: int, elapsedMs: int): (remainingMs: int)
    ensures remainingMs >= 0
    ensures remainingMs >= totalEstimatedMs - elapsedMs
    ensures remainingMs == 0 || remainingMs == totalEstimatedMs - elapsedMs
  {
    var remaining := totalEstimatedMs - elapsedMs;
    if remaining > 0 then remaining else 0
  }

  /**
   * The min-by-expiry reduction of a node's estimates, folded left to right as
   * Stream.min does (on a tie the earlier element stays). None iff there are
   * no estimates; otherwise one of them, expiring no later than any other.
   */
  function EarliestExpiry(estimates: seq<TtlInfo>): (r: Option<TtlInfo>)
    ensures r.None? <==> estimates == []
    ensures r.Some? ==> r.value in estimates
    ensures r.Some? ==> forall e :: e in estimates ==> r.value.expiryInstantMs <= e.expiryInstantMs
    decreases |estimates|
  {
    if estimates == [] then None
    else
      var prefix, last := estimates[..|estimates| - 1], estimates[|estimates| - 1];
      assert estimates == prefix + [last];
      var best := EarliestExpiry(prefix);
      if best.Some? && best.value.expiryInstantMs <= last.expiryInstantMs then best else Some(last)
  }

  /**
   * The worst case decides: the earliest-expiring estimate is enough iff
   * every estimate of the node is.
   */
  lemma {:induction false} EarliestExpiryDecidesTtl(estimates: seq<TtlInfo>, estimatedExecutionTimeMs: int, nowMs: int)
    requires estimates != []
    ensures IsTtlEnough(EarliestExpiry(estimates).value, estimatedExecutionTimeMs, nowMs) <==>
      forall e :: e in estimates ==> IsTtlEnough(e, estimatedExecutionTimeMs, nowMs)
  {
    var best := EarliestExpiry(estimates).value;
    if IsTtlEnough(best, estimatedExecutionTimeMs, nowMs) {
      forall e | e in estimates
        ensures IsTtlEnough(e, estimatedExecutionTimeMs, nowMs)
      {
        TtlEnoughMonotoneInExpiry(best, e, estimatedExecutionTimeMs, nowMs);
      }
    }
  }
}
