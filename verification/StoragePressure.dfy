// internal/cluster/health.go: the status a health probe yields, and the hysteresis of
// storage pressure.  Percentages are reals.
module StoragePressure {
  import opened Options
  import opened Peers

  /** HealthCheckResult; a capacity of zero means it is not known. */
  datatype Probe = Probe(healthy: bool, latencyMs: int, total: nat, used: nat)

  const DEFAULT_THRESHOLD := 90.0
  const DEFAULT_RELEASE := 85.0

  /** loadStoragePressureThresholds, from the two stored numbers if they are there and parse. */
  method LoadStoragePressureThresholds(t: Option<real>, r: Option<real>) returns (threshold: real, release: real)
    ensures 0.0 <= release < threshold <= 100.0
    ensures t.Some? && 0.0 < t.value <= 100.0 ==> threshold == t.value
    ensures !(t.Some? && 0.0 < t.value <= 100.0) ==> threshold == DEFAULT_THRESHOLD
    ensures r.Some? && 0.0 <= r.value < threshold ==> release == r.value
    ensures !(r.Some? && 0.0 <= r.value <= 100.0) && DEFAULT_RELEASE < threshold ==> release == DEFAULT_RELEASE
    ensures release == (if r.Some? && 0.0 <= r.value <= 100.0 then r.value else DEFAULT_RELEASE) ||
            release == (if threshold < 5.0 then 0.0 else threshold - 5.0)
  {
    threshold, release := DEFAULT_THRESHOLD, DEFAULT_RELEASE;
    if t.Some? && t.value > 0.0 && t.value <= 100.0 {
      threshold := t.value;
    }
    if r.Some? && r.value >= 0.0 && r.value <= 100.0 {
      release := r.value;
    }
    if release >= threshold {
      release := threshold - 5.0;
      if release < 0.0 {
        release := 0.0;
      }
    }
  }

  function Usage(p: Probe): real {
    if p.total > 0 then p.used as real / p.total as real * 100.0 else 0.0
  }

  /** Usage reaches x percent exactly when the used part is at least that share of the capacity. */
  lemma UsageExactly(p: Probe, x: real)
    requires p.total > 0
    ensures Usage(p) >= x <==> 100.0 * p.used as real >= x * p.total as real
  {
    var total, used := p.total as real, p.used as real;
    assert Usage(p) * total == 100.0 * used;
    if Usage(p) >= x {
      assert Usage(p) * total >= x * total;
    } else {
      assert Usage(p) * total < x * total;
    }
  }

  /** The status CheckNodeHealth gives a node that it read with status `was`. */
  function NextStatus(was: Status, p: Probe, threshold: real, release: real): Status {
    if !p.healthy then Unavailable
    else if p.latencyMs > 1000 then Degraded
    else if was == StoragePressure && p.total > 0 && Usage(p) >= release then StoragePressure
    else if p.total > 0 && Usage(p) >= threshold then StoragePressure
    else Healthy
  }

  function AfterProbes(start: Status, probes: seq<Probe>, threshold: real, release: real): Status {
    if probes == [] then start
    else
      var n := |probes| - 1;
      NextStatus(AfterProbes(start, probes[..n], threshold, release), probes[n], threshold, release)
  }

  /** The probe answered in time and reported a capacity. */
  predicate Informative(p: Probe) {
    p.healthy && p.latencyMs <= 1000 && p.total > 0
  }

  /** Probe `i` reached the threshold and no probe from it on let go. */
  predicate HeldSince(probes: seq<Probe>, i: nat, threshold: real, release: real) {
    i < |probes| && Usage(probes[i]) >= threshold &&
    forall j :: i <= j < |probes| ==> Informative(probes[j]) && Usage(probes[j]) >= release
  }

  /** All probes kept a node that was under pressure there. */
  predicate NeverReleased(probes: seq<Probe>, release: real) {
    forall j :: 0 <= j < |probes| ==> Informative(probes[j]) && Usage(probes[j]) >= release
  }

  /**
   * After any sequence of probes a node is under pressure exactly when some probe crossed the
   * threshold, or it started under pressure, and no probe since then let go.
   */
  lemma {:induction false} PressureExactly(start: Status, probes: seq<Probe>, threshold: real, release: real)
    requires release < threshold
    ensures AfterProbes(start, probes, threshold, release) == StoragePressure <==>
            (exists i :: 0 <= i < |probes| && HeldSince(probes, i, threshold, release)) ||
            (start == StoragePressure && NeverReleased(probes, release))
    decreases |probes|
  {
    if probes != [] {
      var n := |probes| - 1;
      var before, last := probes[..n], probes[n];
      PressureExactly(start, before, threshold, release);
      if Informative(last) && Usage(last) >= release {
        if i :| 0 <= i < |before| && HeldSince(before, i, threshold, release) {
          assert HeldSince(probes, i, threshold, release);
        }
        if Usage(last) >= threshold {
          assert HeldSince(probes, n, threshold, release);
        }
        if i :| 0 <= i < |probes| && HeldSince(probes, i, threshold, release) && i < n {
          assert forall j :: i <= j < n ==> before[j] == probes[j];
          assert HeldSince(before, i, threshold, release);
        }
        if start == StoragePressure && NeverReleased(probes, release) {
          assert forall j :: 0 <= j < n ==> before[j] == probes[j];
        }
      }
    }
  }

  predicate Outside(p: Probe, threshold: real, release: real) {
    Usage(p) < release || Usage(p) >= threshold
  }

  /** Probe `k` is the last one outside the band between release and threshold. */
  predicate LastOutside(probes: seq<Probe>, k: nat, threshold: real, release: real) {
    k < |probes| && Outside(probes[k], threshold, release) &&
    forall j :: k < j < |probes| ==> !Outside(probes[j], threshold, release)
  }

  /**
   * While all probes are informative and the node starts healthy, it is under pressure exactly
   * when the last sample outside the band was at or above the threshold.
   */
  lemma LastOutsideDecides(probes: seq<Probe>, threshold: real, release: real)
    requires release < threshold
    requires forall j :: 0 <= j < |probes| ==> Informative(probes[j])
    ensures AfterProbes(Healthy, probes, threshold, release) == StoragePressure <==>
            exists k :: 0 <= k < |probes| && LastOutside(probes, k, threshold, release) && Usage(probes[k]) >= threshold
  {
    PressureExactly(Healthy, probes, threshold, release);
    if i :| 0 <= i < |probes| && HeldSince(probes, i, threshold, release) {
      var k := LatestCrossing(probes, i, threshold, release);
      assert LastOutside(probes, k, threshold, release);
    }
    if k :| 0 <= k < |probes| && LastOutside(probes, k, threshold, release) && Usage(probes[k]) >= threshold {
      assert HeldSince(probes, k, threshold, release);
    }
  }

  lemma {:induction false} LatestCrossing(probes: seq<Probe>, i: nat, threshold: real, release: real) returns (k: nat)
    requires release < threshold && HeldSince(probes, i, threshold, release)
    ensures LastOutside(probes, k, threshold, release) && Usage(probes[k]) >= threshold
    decreases |probes| - i
  {
    if exists j :: i < j < |probes| && Outside(probes[j], threshold, release) {
      var j :| i < j < |probes| && Outside(probes[j], threshold, release);
      k := LatestCrossing(probes, j, threshold, release);
    } else {
      k := i;
    }
  }
}
