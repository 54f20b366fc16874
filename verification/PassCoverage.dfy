/**
  What a window summary means: trimming the log does not change it, its missing intervals are
  proper intervals, and full coverage is coverage of every instant.
 */
module PassCoverage {
  import opened Wrappers
  import opened PassLog
  import opened PassSummary

  // ---------------------------------------------------------------------------
  // The trimmed log agrees with the whole log
  // ---------------------------------------------------------------------------

  lemma {:induction false} NothingBeforeWindow(w: Window, obs: seq<Observation>)
    requires forall i | 0 <= i < |obs| :: obs[i].time < w.since
    ensures Seen(w, obs) == []
  {
    if |obs| == 0 {
    } else {
      NothingBeforeWindow(w, obs[..|obs| - 1]);
    }
  }

  lemma {:induction false} NoGapBeforeWindow(w: Window, obs: seq<Observation>)
    requires forall i | 0 <= i < |obs| :: obs[i].time <= w.since
    ensures CadenceGaps(w, obs) == []
  {
    if |obs| <= 1 {
    } else {
      NoGapBeforeWindow(w, obs[..|obs| - 1]);
    }
  }

  /** The log may be cut anywhere up to the last observation not after the window's start. */
  lemma {:induction false} CutBeforeWindow(w: Window, obs: seq<Observation>, a: nat)
    requires Increasing(obs) && a < |obs| && (a == 0 || obs[a].time <= w.since)
    ensures SameView(w, obs[a..], obs)
  {
    if a == 0 {
      assert obs[a..] == obs;
    } else if |obs| == a + 1 {
      CutAtLast(w, obs);
    } else {
      var init, last := obs[..|obs| - 1], obs[|obs| - 1];
      CutBeforeWindow(w, init, a);
      SameViewSnoc(w, init[a..], init, last);
      assert obs[a..] == init[a..] + [last] && obs == init + [last];
    }
  }

  /** The two logs show the window the same observations and gaps. */
  ghost predicate SameView(w: Window, a: seq<Observation>, b: seq<Observation>) {
    && Seen(w, a) == Seen(w, b) && Prior(w, a) == Prior(w, b)
    && CadenceGaps(w, a) == CadenceGaps(w, b) && Followed(w, a) == Followed(w, b)
  }

  lemma SameViewSnoc(w: Window, a: seq<Observation>, b: seq<Observation>, next: Observation)
    requires SameView(w, a, b) && |a| > 0 && |b| > 0 && a[|a| - 1] == b[|b| - 1]
    ensures SameView(w, a + [next], b + [next])
  {
    assert (a + [next])[..|a|] == a && (b + [next])[..|b|] == b;
  }

  /** The summaries agree on everything that does not rest on the failing intervals. */
  ghost predicate AgreeButForFailures(kept: Summary, whole: Summary) {
    && kept.missing == whole.missing && kept.trailingRun == whole.trailingRun && kept.fiveDays == whole.fiveDays
    && kept.observed == whole.observed && kept.passSeen == whole.passSeen
    && kept.doubts == whole.doubts && kept.trailingUnobserved == whole.trailingUnobserved
  }

  lemma SameViewSameAnswer(w: Window, a: seq<Observation>, b: seq<Observation>)
    requires SameView(w, a, b)
    ensures AgreeButForFailures(Summarized(w, a), Summarized(w, b))
  {
  }

  lemma CutAtLast(w: Window, obs: seq<Observation>)
    requires Increasing(obs) && |obs| > 1 && obs[|obs| - 1].time <= w.since
    ensures SameView(w, obs[|obs| - 1..], obs)
  {
    var last := obs[|obs| - 1..];
    assert last == [obs[|obs| - 1]];
    assert last[..0] == [];
    NothingBeforeWindow(w, obs[..|obs| - 1]);
    NoGapBeforeWindow(w, obs);
  }

  /**
    For a window that starts inside the retention window, and while the cap drops nothing, the
    trimmed log answers as the whole log does, apart from the failing intervals.
   */
  lemma TrimmedSummaryAgrees(w: Window, obs: seq<Observation>, retention: nat, cap: nat)
    requires Increasing(obs) && |obs| > 0
    requires w.since >= obs[|obs| - 1].time - retention
    requires Start(obs, retention, cap) == AnchorIndex(obs, retention)
    ensures AgreeButForFailures(Summarized(w, Trimmed(obs, retention, cap)), Summarized(w, obs))
  {
    var cutoff := obs[|obs| - 1].time - retention;
    CountEarlierCuts(obs, cutoff);
    CutBeforeWindow(w, obs, AnchorIndex(obs, retention));
    SameViewSameAnswer(w, Trimmed(obs, retention, cap), obs);
  }

  lemma {:induction false} FailingSplits(w: Window, obs: seq<Observation>, a: nat)
    requires a <= |obs|
    ensures Failing(w, obs) == Failing(w, obs[..a]) + Failing(w, obs[a..])
  {
    if a == |obs| {
      assert obs[..a] == obs;
    } else {
      var init := obs[..|obs| - 1];
      FailingSplits(w, init, a);
      assert init[..a] == obs[..a] && obs[a..][..|obs| - a - 1] == init[a..];
    }
  }

  lemma {:induction false} FailingEmpty(w: Window, obs: seq<Observation>)
    ensures |Failing(w, obs)| == 0 <==> forall i | 0 <= i < |obs| :: !FailsInWindow(w, obs[i])
  {
    if |obs| == 0 {
    } else {
      FailingEmpty(w, obs[..|obs| - 1]);
    }
  }

  /** Failing intervals survive trimming exactly when no dropped failed pass reaches into the window. */
  lemma TrimmedFailingExactly(w: Window, obs: seq<Observation>, retention: nat, cap: nat)
    requires Increasing(obs) && |obs| > 0
    ensures Failing(w, Trimmed(obs, retention, cap)) == Failing(w, obs) <==>
            forall i | 0 <= i < Start(obs, retention, cap) :: !FailsInWindow(w, obs[i])
  {
    var a := Start(obs, retention, cap);
    FailingSplits(w, obs, a);
    FailingEmpty(w, obs[..a]);
    assert forall i | 0 <= i < a :: obs[..a][i] == obs[i];
    var dropped, kept := Failing(w, obs[..a]), Failing(w, obs[a..]);
    if |dropped| == 0 {
      assert dropped + kept == kept;
    }
  }

  /** The trimmed log's summary is the whole log's exactly when no dropped failure reaches into the window. */
  lemma TrimmedSummaryExactly(w: Window, obs: seq<Observation>, retention: nat, cap: nat)
    requires Increasing(obs) && |obs| > 0
    requires w.since >= obs[|obs| - 1].time - retention
    requires Start(obs, retention, cap) == AnchorIndex(obs, retention)
    ensures Summarized(w, Trimmed(obs, retention, cap)) == Summarized(w, obs) <==>
            forall i | 0 <= i < Start(obs, retention, cap) :: !FailsInWindow(w, obs[i])
  {
    TrimmedSummaryAgrees(w, obs, retention, cap);
    TrimmedFailingExactly(w, obs, retention, cap);
  }

  /** A failed pass older than the anchor can still reach into the window and be lost. */
  lemma TrimmingCanLoseAFailure(id: Identity)
    ensures var obs := [Observation(id, 0, Failed, 0, Some("e")), Observation(id, 1, Empty, 0, None),
                        Observation(id, 12, Empty, 0, None)];
            var w := Window(2, 12, 10, 0);
            Failing(w, Trimmed(obs, 10, 8)) != Failing(w, obs)
  {
    var obs := [Observation(id, 0, Failed, 0, Some("e")), Observation(id, 1, Empty, 0, None),
                Observation(id, 12, Empty, 0, None)];
    var w := Window(2, 12, 10, 0);
    assert CountEarlier(obs, 2) == 2 by {
      CountEarlierIs(obs, 2, 2);
    }
    assert FailsInWindow(w, obs[0]);
    TrimmedFailingExactly(w, obs, 10, 8);
  }

  // ---------------------------------------------------------------------------
  // The trailing run
  // ---------------------------------------------------------------------------

  /** From `k` on every pass succeeded and none came later than the cadence allows. */
  ghost predicate Unbroken(w: Window, seen: seq<Observation>, k: nat) {
    && (forall i | k <= i < |seen| :: !seen[i].status.Failed?)
    && (forall i | k < i < |seen| :: seen[i].time - seen[i - 1].time <= w.expected + w.slack)
  }

  /** The trailing run is the longest unbroken one that reaches the end of the window. */
  lemma {:induction false} TrailingRunIsLongest(w: Window, seen: seq<Observation>)
    requires |seen| > 0 && !seen[|seen| - 1].status.Failed?
    ensures Unbroken(w, seen, RunStart(w, seen))
    ensures forall k | 0 <= k < RunStart(w, seen) :: !Unbroken(w, seen, k)
  {
    var n := |seen|;
    if n > 1 && !seen[n - 2].status.Failed? && seen[n - 1].time - seen[n - 2].time <= Limit(w) {
      var init := seen[..n - 1];
      TrailingRunIsLongest(w, init);
      forall k | 0 <= k < RunStart(w, seen) ensures !Unbroken(w, seen, k) {
        assert !Unbroken(w, init, k);
      }
    } else {
      forall k | 0 <= k < n - 1 ensures !Unbroken(w, seen, k) {
        assert k <= n - 2 < n && k < n - 1 < n;
      }
    }
  }

  // ---------------------------------------------------------------------------
  // Missing intervals are proper intervals
  // ---------------------------------------------------------------------------

  /** Nonempty, inside `[lo, hi]`, each ending before the next begins. */
  ghost predicate Proper(gaps: seq<Gap>, lo: int, hi: int) {
    && (forall i | 0 <= i < |gaps| :: lo <= gaps[i].start < gaps[i].end <= hi)
    && (forall i, j | 0 <= i < j < |gaps| :: gaps[i].end <= gaps[j].start)
  }

  lemma ProperJoin(a: seq<Gap>, b: seq<Gap>, lo: int, mid: int, hi: int)
    requires Proper(a, lo, mid) && Proper(b, mid, hi) && lo <= mid <= hi
    ensures Proper(a + b, lo, hi)
  {
    var all := a + b;
    forall i, j | 0 <= i < j < |all| ensures all[i].end <= all[j].start {
      if i < |a| && |a| <= j {
        assert all[i] == a[i] && all[j] == b[j - |a|];
      }
    }
  }

  /** A time brought into the window. */
  function Clamp(w: Window, t: int): int {
    Max(w.since, Min(t, w.until))
  }

  lemma {:induction false} CadenceGapsProper(w: Window, obs: seq<Observation>)
    requires Increasing(obs) && |obs| > 0 && w.since < w.until
    ensures Proper(CadenceGaps(w, obs), w.since, Clamp(w, obs[|obs| - 1].time))
  {
    if |obs| <= 1 {
    } else {
      var init := obs[..|obs| - 1];
      CadenceGapsProper(w, init);
      var mid, last := Clamp(w, obs[|obs| - 2].time), Clamp(w, obs[|obs| - 1].time);
      var gap := PairGap(w, obs[|obs| - 2].time, obs[|obs| - 1].time);
      PairGapProper(w, obs[|obs| - 2].time, obs[|obs| - 1].time);
      ProperJoin(CadenceGaps(w, init), gap, w.since, mid, last);
    }
  }

  lemma PairGapProper(w: Window, previous: int, current: int)
    requires previous < current && w.since < w.until
    ensures Proper(PairGap(w, previous, current), Clamp(w, previous), Clamp(w, current))
  {
  }

  lemma {:induction false} SeenBounds(w: Window, obs: seq<Observation>)
    requires Increasing(obs)
    ensures |Seen(w, obs)| > 0 <==> exists i | 0 <= i < |obs| :: InWindow(w, obs[i])
    ensures |Seen(w, obs)| > 0 && !Followed(w, obs) ==> Seen(w, obs)[|Seen(w, obs)| - 1] == obs[|obs| - 1]
    ensures |Seen(w, obs)| > 0 ==> InWindow(w, Seen(w, obs)[0]) && Seen(w, obs)[0] in obs
  {
    if |obs| == 0 {
    } else {
      var init := obs[..|obs| - 1];
      SeenBounds(w, init);
      if |Seen(w, init)| > 0 {
        var i :| 0 <= i < |init| && InWindow(w, init[i]);
        assert InWindow(w, obs[i]);
        assert !Followed(w, obs) ==> InWindow(w, obs[|obs| - 1]);
      }
    }
  }

  lemma {:induction false} PriorMeaning(w: Window, obs: seq<Observation>)
    requires Increasing(obs)
    ensures Prior(w, obs).None? <==> forall i | 0 <= i < |obs| :: obs[i].time > w.since
    ensures Prior(w, obs).Some? ==> Prior(w, obs).value.time <= w.since
  {
    if |obs| == 0 {
    } else {
      PriorMeaning(w, obs[..|obs| - 1]);
    }
  }

  /** The interval reserved for a gap before the window never adds anything. */
  lemma StartGapIsWholeWindow(w: Window, obs: seq<Observation>)
    requires Increasing(obs) && w.since < w.until
    ensures StartGap(w, obs) == if Prior(w, obs).None? && |Seen(w, obs)| == 0
                                then [Gap(w.since, w.until, HistoryStartsAfterWindow)] else []
  {
    PriorMeaning(w, obs);
  }

  lemma {:induction false} NoGapAfterWindow(w: Window, obs: seq<Observation>)
    requires Increasing(obs) && forall i | 0 <= i < |obs| :: obs[i].time >= w.until
    ensures CadenceGaps(w, obs) == []
  {
    if |obs| <= 1 {
    } else {
      NoGapAfterWindow(w, obs[..|obs| - 1]);
    }
  }

  /**
    The missing intervals are nonempty, ordered, disjoint and inside the window exactly when there
    is any observation at all: an empty history reports the whole window twice.
   */
  lemma MissingIsProperExactly(w: Window, obs: seq<Observation>)
    requires Increasing(obs) && w.since < w.until
    ensures Proper(Missing(w, obs), w.since, w.until) <==> |obs| > 0
  {
    StartGapIsWholeWindow(w, obs);
    if |obs| == 0 {
      assert Missing(w, obs)[0].end > Missing(w, obs)[1].start;
    } else if Prior(w, obs).None? && |Seen(w, obs)| == 0 {
      MissingBeforeHistory(w, obs);
    } else {
      MissingInHistory(w, obs);
    }
  }

  lemma MissingBeforeHistory(w: Window, obs: seq<Observation>)
    requires Increasing(obs) && w.since < w.until && |obs| > 0
    requires Prior(w, obs).None? && |Seen(w, obs)| == 0
    ensures Proper(Missing(w, obs), w.since, w.until)
  {
    PriorMeaning(w, obs);
    SeenBounds(w, obs);
    forall i | 0 <= i < |obs| ensures obs[i].time >= w.until {
      assert !InWindow(w, obs[i]);
    }
    NoGapAfterWindow(w, obs);
    assert !InWindow(w, obs[|obs| - 1]);
  }

  lemma EndGapProper(w: Window, obs: seq<Observation>)
    requires Increasing(obs) && w.since < w.until && |obs| > 0
    ensures Proper(EndGap(w, obs), Clamp(w, obs[|obs| - 1].time), w.until)
  {
    SeenBounds(w, obs);
    if !Followed(w, obs) && |Seen(w, obs)| == 0 {
      assert !InWindow(w, obs[|obs| - 1]);
    }
  }

  lemma MissingInHistory(w: Window, obs: seq<Observation>)
    requires Increasing(obs) && w.since < w.until && |obs| > 0
    requires Prior(w, obs).Some? || |Seen(w, obs)| > 0
    ensures Proper(Missing(w, obs), w.since, w.until)
  {
    StartGapIsWholeWindow(w, obs);
    CadenceGapsProper(w, obs);
    EndGapProper(w, obs);
    var gaps, tail := CadenceGaps(w, obs), EndGap(w, obs);
    ProperJoin(gaps, tail, w.since, Clamp(w, obs[|obs| - 1].time), w.until);
    assert StartGap(w, obs) + gaps == gaps;
  }

  // ---------------------------------------------------------------------------
  // Full coverage
  // ---------------------------------------------------------------------------

  /** Some observation is at most the cadence limit older than the instant. */
  ghost predicate Covered(w: Window, obs: seq<Observation>, t: real) {
    exists i | 0 <= i < |obs| :: obs[i].time as real <= t <= (obs[i].time + w.expected + w.slack) as real
  }

  /** Every instant from the window's start, or from the first observation, is covered. */
  ghost predicate CoversWindow(w: Window, obs: seq<Observation>) {
    forall t: real | w.since as real <= t < w.until as real && |obs| > 0 && obs[0].time as real <= t ::
      Covered(w, obs, t)
  }

  lemma {:induction false} CadenceGapsEmpty(w: Window, obs: seq<Observation>)
    ensures |CadenceGaps(w, obs)| == 0 <==>
            forall i | 0 < i < |obs| :: |PairGap(w, obs[i - 1].time, obs[i].time)| == 0
  {
    if |obs| <= 1 {
    } else {
      CadenceGapsEmpty(w, obs[..|obs| - 1]);
    }
  }

  /** A nonempty gap between consecutive observations leaves an instant uncovered. */
  lemma GapIsUncovered(w: Window, obs: seq<Observation>, k: nat)
    requires Increasing(obs) && 0 < k < |obs| && w.since < w.until
    requires |PairGap(w, obs[k - 1].time, obs[k].time)| > 0
    ensures !CoversWindow(w, obs)
  {
    var from := Max(obs[k - 1].time + Limit(w), w.since);
    var t := from as real + 0.5;
    assert from + 1 <= obs[k].time && from + 1 <= w.until;
    forall i | 0 <= i < |obs| ensures !(obs[i].time as real <= t <= (obs[i].time + w.expected + w.slack) as real) {
      assert i < k ==> obs[i].time <= obs[k - 1].time;
      assert i > k ==> obs[k].time < obs[i].time;
    }
    assert obs[0].time <= obs[k - 1].time;
    assert !Covered(w, obs, t);
  }

  /** Without gaps, the last observation up to an instant covers it, if any follows. */
  lemma {:induction false} NoGapCovers(w: Window, obs: seq<Observation>, t: real)
    requires Increasing(obs) && |obs| > 0 && w.since < w.until
    requires |CadenceGaps(w, obs)| == 0
    requires w.since as real <= t < w.until as real && obs[0].time as real <= t
    requires obs[|obs| - 1].time >= w.until
    ensures Covered(w, obs, t)
  {
    var i := LastUpTo(obs, t);
    CadenceGapsEmpty(w, obs);
    assert |PairGap(w, obs[i].time, obs[i + 1].time)| == 0;
    assert obs[i].time as real <= t <= (obs[i].time + w.expected + w.slack) as real;
  }

  lemma {:induction false} LastUpTo(obs: seq<Observation>, t: real) returns (i: nat)
    requires |obs| > 1 ==> Increasing(obs)
    requires |obs| > 0 && obs[0].time as real <= t < obs[|obs| - 1].time as real
    ensures i + 1 < |obs| && obs[i].time as real <= t < obs[i + 1].time as real
  {
    if obs[|obs| - 2].time as real <= t {
      i := |obs| - 2;
    } else {
      i := LastUpTo(obs[..|obs| - 1], t);
    }
  }

  /**
    With an observation in the window, nothing is missing exactly when the history reaches the end
    of the window and every instant since its start, or since the history's, is covered.
   */
  lemma NothingMissingExactly(w: Window, obs: seq<Observation>)
    requires Increasing(obs) && w.since < w.until && |Seen(w, obs)| > 0
    ensures |Missing(w, obs)| == 0 <==> obs[|obs| - 1].time >= w.until && CoversWindow(w, obs)
  {
    SeenBounds(w, obs);
    StartGapIsWholeWindow(w, obs);
    assert |EndGap(w, obs)| == 0 <==> obs[|obs| - 1].time >= w.until;
    if obs[|obs| - 1].time >= w.until {
      NoGapExactly(w, obs);
    }
  }

  lemma NoGapExactly(w: Window, obs: seq<Observation>)
    requires Increasing(obs) && w.since < w.until && |obs| > 0 && obs[|obs| - 1].time >= w.until
    ensures |CadenceGaps(w, obs)| == 0 <==> CoversWindow(w, obs)
  {
    if |CadenceGaps(w, obs)| == 0 {
      forall t: real | w.since as real <= t < w.until as real && obs[0].time as real <= t ensures Covered(w, obs, t) {
        NoGapCovers(w, obs, t);
      }
    } else {
      CadenceGapsEmpty(w, obs);
      var k :| 0 < k < |obs| && |PairGap(w, obs[k - 1].time, obs[k].time)| > 0;
      GapIsUncovered(w, obs, k);
    }
  }

  /**
    Full window coverage means exactly: something was observed in the window, the history reaches
    its end, every instant is covered, and no failed pass lies over it.
   */
  lemma FullCoverageExactly(w: Window, obs: seq<Observation>)
    requires Increasing(obs) && w.since < w.until
    ensures Summarized(w, obs).fullCoverage <==>
            && (exists i | 0 <= i < |obs| :: InWindow(w, obs[i]))
            && obs[|obs| - 1].time >= w.until
            && CoversWindow(w, obs)
            && forall i | 0 <= i < |obs| :: !FailsInWindow(w, obs[i])
  {
    SeenBounds(w, obs);
    FailingEmpty(w, obs);
    if |Seen(w, obs)| > 0 {
      NothingMissingExactly(w, obs);
    }
  }

  /** Under full coverage every pass observed in `[since, until)` succeeded. */
  lemma FullCoveragePasses(w: Window, obs: seq<Observation>, i: nat)
    requires Increasing(obs) && w.since < w.until && w.expected > 0 && Summarized(w, obs).fullCoverage
    requires i < |obs| && w.since <= obs[i].time < w.until
    ensures !obs[i].status.Failed?
  {
    FullCoverageExactly(w, obs);
    assert !FailsInWindow(w, obs[i]);
  }
}
