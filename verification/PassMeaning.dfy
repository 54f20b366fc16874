/**
  What each part of a window summary says about the observations, instant by instant and without
  the scans that find it.
 */
module PassMeaning {
  import opened Wrappers
  import opened PassLog
  import opened PassSummary
  import opened PassCoverage

  // ---------------------------------------------------------------------------
  // The window
  // ---------------------------------------------------------------------------

  /** Indices `a` to `b` of the log are those inside the window. */
  ghost predicate IsWindow(w: Window, obs: seq<Observation>, a: nat, b: nat) {
    a <= b <= |obs| && forall i | 0 <= i < |obs| :: a <= i < b <==> w.since <= obs[i].time <= w.until
  }

  lemma WindowGrows(w: Window, init: seq<Observation>, last: Observation, a: nat, b: nat) returns (a': nat, b': nat)
    requires IsWindow(w, init, a, b) && w.since < w.until && Increasing(init)
    requires forall i | 0 <= i < |init| :: init[i].time < last.time
    ensures IsWindow(w, init + [last], a', b')
    ensures (init + [last])[a'..b'] == init[a..b] + if w.since <= last.time <= w.until then [last] else []
  {
    var all := init + [last];
    assert forall i | 0 <= i < |init| :: all[i] == init[i];
    if !(w.since <= last.time <= w.until) {
      a', b' := a, b;
      assert all[a..b] == init[a..b];
    } else if a == b {
      a', b' := |init|, |all|;
      assert all[a'..b'] == [last];
    } else {
      WindowReachesEnd(w, init, last, a, b);
      a', b' := a, |all|;
      assert all[a'..b'] == init[a..b] + [last];
    }
  }

  lemma WindowReachesEnd(w: Window, init: seq<Observation>, last: Observation, a: nat, b: nat)
    requires IsWindow(w, init, a, b) && a < b && w.since <= last.time <= w.until
    requires forall i | 0 <= i < |init| :: init[i].time < last.time
    requires Increasing(init)
    ensures b == |init|
  {
    assert init[|init| - 1].time >= init[b - 1].time >= w.since;
  }

  lemma SeenLast(w: Window, obs: seq<Observation>)
    requires |obs| > 0
    ensures var last := obs[|obs| - 1];
            Seen(w, obs) == Seen(w, obs[..|obs| - 1]) + if w.since <= last.time <= w.until then [last] else []
  {
  }

  /** What is seen of an ordered log is the stretch of it that lies in the window. */
  lemma {:induction false} SeenIsTheWindow(w: Window, obs: seq<Observation>) returns (a: nat, b: nat)
    requires Increasing(obs) && w.since < w.until
    ensures IsWindow(w, obs, a, b) && Seen(w, obs) == obs[a..b]
  {
    if |obs| == 0 {
      a, b := 0, 0;
    } else {
      var init, last := obs[..|obs| - 1], obs[|obs| - 1];
      a, b := SeenIsTheWindow(w, init);
      a, b := WindowGrows(w, init, last, a, b);
      SeenLast(w, obs);
      assert init + [last] == obs;
    }
  }

  lemma SliceIncreases(obs: seq<Observation>, a: nat, b: nat)
    requires Increasing(obs) && a <= b <= |obs|
    ensures Increasing(obs[a..b])
  {
  }

  /** Observation `k` is the last one not after the window's start. */
  ghost predicate IsLastBefore(w: Window, obs: seq<Observation>, k: nat) {
    k < |obs| && obs[k].time <= w.since && forall i | k < i < |obs| :: obs[i].time > w.since
  }

  lemma LastBeforeGrows(w: Window, init: seq<Observation>, last: Observation, k: nat)
    requires IsLastBefore(w, init, k) && last.time > w.since
    ensures IsLastBefore(w, init + [last], k)
  {
  }

  /** The prior observation is the last one not after the window's start. */
  lemma {:induction false} PriorIsTheLastBefore(w: Window, obs: seq<Observation>)
    ensures Prior(w, obs).None? <==> forall i | 0 <= i < |obs| :: obs[i].time > w.since
    ensures Prior(w, obs).Some? ==> exists k: nat | IsLastBefore(w, obs, k) :: obs[k] == Prior(w, obs).value
  {
    if |obs| == 0 {
    } else if obs[|obs| - 1].time <= w.since {
      assert IsLastBefore(w, obs, |obs| - 1);
    } else {
      var init, last := obs[..|obs| - 1], obs[|obs| - 1];
      PriorIsTheLastBefore(w, init);
      assert forall i | 0 <= i < |init| :: init[i] == obs[i];
      if Prior(w, init).Some? {
        var k: nat :| IsLastBefore(w, init, k) && init[k] == Prior(w, init).value;
        LastBeforeGrows(w, init, last, k);
        assert init + [last] == obs;
      }
    }
  }

  // ---------------------------------------------------------------------------
  // The trailing run
  // ---------------------------------------------------------------------------

  /** The run that reaches the end of `seen` starts at `k`, and none that starts earlier does. */
  ghost predicate IsTrailingRun(w: Window, seen: seq<Observation>, k: nat) {
    k < |seen| && Unbroken(w, seen, k) && forall j: nat | j < k :: !Unbroken(w, seen, j)
  }

  /** `run` is how long that takes, and 0 without observations or when the last one failed. */
  ghost predicate IsRunLength(w: Window, seen: seq<Observation>, run: int) {
    if |seen| == 0 || seen[|seen| - 1].status == Failed then run == 0
    else exists k: nat | IsTrailingRun(w, seen, k) :: run == seen[|seen| - 1].time - seen[k].time
  }

  lemma TrailingRunOf(w: Window, seen: seq<Observation>)
    ensures IsRunLength(w, seen, TrailingRun(w, seen))
  {
    if |seen| > 0 && !seen[|seen| - 1].status.Failed? {
      TrailingRunIsLongest(w, seen);
      assert IsTrailingRun(w, seen, RunStart(w, seen));
    }
  }

  /** The run reported is that of the longest unbroken stretch up to the window's last observation. */
  lemma TrailingRunMeaning(w: Window, obs: seq<Observation>)
    ensures IsRunLength(w, Seen(w, obs), Summarized(w, obs).trailingRun)
  {
    TrailingRunOf(w, Seen(w, obs));
  }

  /** Some unbroken stretch up to the last of `seen` is that long. */
  ghost predicate RunsFor(w: Window, seen: seq<Observation>, seconds: nat) {
    exists k: nat | k < |seen| && Unbroken(w, seen, k) :: seen[|seen| - 1].time - seen[k].time >= seconds
  }

  /** Five days are reported exactly when some unbroken stretch up to the last observation is that long. */
  lemma FiveDaysExactly(w: Window, obs: seq<Observation>)
    requires Increasing(obs) && w.since < w.until
    ensures Summarized(w, obs).fiveDays <==> RunsFor(w, Seen(w, obs), 5 * 24 * 60 * 60)
  {
    var a, b := SeenIsTheWindow(w, obs);
    SliceIncreases(obs, a, b);
    FiveDaysOf(w, Seen(w, obs));
  }

  lemma FiveDaysOf(w: Window, seen: seq<Observation>)
    requires Increasing(seen)
    ensures TrailingRun(w, seen) >= FIVE_DAYS_SECONDS <==> RunsFor(w, seen, 5 * 24 * 60 * 60)
  {
    if |seen| > 0 && !seen[|seen| - 1].status.Failed? {
      TrailingRunIsLongest(w, seen);
      LongEnough(w, seen, RunStart(w, seen));
    }
  }

  lemma LongEnough(w: Window, seen: seq<Observation>, start: nat)
    requires Increasing(seen) && start < |seen| && Unbroken(w, seen, start)
    requires forall j: nat | j < start :: !Unbroken(w, seen, j)
    ensures seen[|seen| - 1].time - seen[start].time >= FIVE_DAYS_SECONDS <==> RunsFor(w, seen, 5 * 24 * 60 * 60)
  {
  }

  // ---------------------------------------------------------------------------
  // Missing intervals, instant by instant
  // ---------------------------------------------------------------------------

  ghost predicate Within(gaps: seq<Gap>, t: int) {
    exists g | g in gaps :: g.start <= t < g.end
  }

  /** Two consecutive observations leave `t` beyond the cadence of the earlier one. */
  ghost predicate BetweenPasses(w: Window, obs: seq<Observation>, t: int) {
    exists i | 0 < i < |obs| :: obs[i - 1].time + w.expected + w.slack <= t < obs[i].time
  }

  /** Nothing was observed after the window, nor in it after `t`. */
  ghost predicate AfterTheLast(w: Window, obs: seq<Observation>, t: int) {
    forall i | 0 <= i < |obs| :: obs[i].time <= w.until && (w.since <= obs[i].time ==> obs[i].time <= t)
  }

  lemma WithinJoin(a: seq<Gap>, b: seq<Gap>, t: int)
    ensures Within(a + b, t) <==> Within(a, t) || Within(b, t)
  {
    assert forall g :: g in a + b <==> g in a || g in b;
  }

  lemma PairGapExactly(w: Window, previous: int, current: int, t: int)
    requires previous < current && w.since <= t < w.until
    ensures Within(PairGap(w, previous, current), t) <==> previous + w.expected + w.slack <= t < current
  {
    if previous + w.expected + w.slack <= t < current {
      assert PairGap(w, previous, current)[0] in PairGap(w, previous, current);
    }
  }

  lemma {:induction false} CadenceGapsExactly(w: Window, obs: seq<Observation>, t: int)
    requires Increasing(obs) && w.since <= t < w.until
    ensures Within(CadenceGaps(w, obs), t) <==> BetweenPasses(w, obs, t)
  {
    if |obs| <= 1 {
    } else {
      var n, init := |obs|, obs[..|obs| - 1];
      CadenceGapsExactly(w, init, t);
      PairGapExactly(w, obs[n - 2].time, obs[n - 1].time, t);
      WithinJoin(CadenceGaps(w, init), PairGap(w, obs[n - 2].time, obs[n - 1].time), t);
      BetweenLast(w, obs, t);
    }
  }

  lemma BetweenLast(w: Window, obs: seq<Observation>, t: int)
    requires |obs| > 1
    ensures BetweenPasses(w, obs, t) <==>
            || BetweenPasses(w, obs[..|obs| - 1], t)
            || obs[|obs| - 2].time + w.expected + w.slack <= t < obs[|obs| - 1].time
  {
    var n, init := |obs|, obs[..|obs| - 1];
    assert forall i | 0 <= i < n - 1 :: init[i] == obs[i];
    if i :| 0 < i < n && obs[i - 1].time + w.expected + w.slack <= t < obs[i].time {
      assert i < n - 1 ==> init[i - 1].time + w.expected + w.slack <= t < init[i].time;
    }
    if i :| 0 < i < n - 1 && init[i - 1].time + w.expected + w.slack <= t < init[i].time {
      assert obs[i - 1].time + w.expected + w.slack <= t < obs[i].time;
    }
    var last := n - 1;
    assert obs[last - 1] == obs[n - 2];
  }

  lemma StartGapExactly(w: Window, obs: seq<Observation>, t: int)
    requires Increasing(obs) && w.since <= t < w.until
    ensures Within(StartGap(w, obs), t) <==> forall i | 0 <= i < |obs| :: obs[i].time > w.until
  {
    StartGapIsWholeWindow(w, obs);
    PriorIsTheLastBefore(w, obs);
    SeenBounds(w, obs);
    var whole := [Gap(w.since, w.until, HistoryStartsAfterWindow)];
    assert whole[0] in whole;
  }

  lemma EndGapExactly(w: Window, obs: seq<Observation>, t: int)
    requires Increasing(obs) && w.since <= t < w.until
    ensures Within(EndGap(w, obs), t) <==> AfterTheLast(w, obs, t)
  {
    var seen, gap := Seen(w, obs), EndGap(w, obs);
    SeenBounds(w, obs);
    assert |gap| > 0 ==> gap[0] in gap;
    if |seen| > 0 && !Followed(w, obs) {
      assert seen[|seen| - 1] == obs[|obs| - 1];
      LastSeenIsIn(w, obs);
    }
  }

  lemma LastSeenIsIn(w: Window, obs: seq<Observation>)
    requires Increasing(obs) && w.since < w.until && |Seen(w, obs)| > 0
    ensures InWindow(w, Seen(w, obs)[|Seen(w, obs)| - 1])
  {
    var a, b := SeenIsTheWindow(w, obs);
  }

  /**
    An instant of the window is reported missing exactly when nothing was observed up to the
    window's end, when it lies beyond the cadence between two observations, or when nothing was
    observed from it on.
   */
  lemma MissingExactly(w: Window, obs: seq<Observation>, t: int)
    requires Increasing(obs) && w.since <= t < w.until
    ensures Within(Summarized(w, obs).missing, t) <==>
            || (forall i | 0 <= i < |obs| :: obs[i].time > w.until)
            || BetweenPasses(w, obs, t)
            || AfterTheLast(w, obs, t)
  {
    StartGapExactly(w, obs, t);
    CadenceGapsExactly(w, obs, t);
    EndGapExactly(w, obs, t);
    WithinJoin(StartGap(w, obs), CadenceGaps(w, obs), t);
    WithinJoin(StartGap(w, obs) + CadenceGaps(w, obs), EndGap(w, obs), t);
  }

  lemma {:induction false} CadenceGapReasons(w: Window, obs: seq<Observation>, g: Gap)
    requires g in CadenceGaps(w, obs)
    ensures g.reason == CadenceGap
    ensures exists i | 0 < i < |obs| :: obs[i - 1].time + w.expected + w.slack <= g.start && g.end <= obs[i].time
  {
    var n, init := |obs|, obs[..|obs| - 1];
    if g in CadenceGaps(w, init) {
      CadenceGapReasons(w, init, g);
      var i :| 0 < i < n - 1 && init[i - 1].time + w.expected + w.slack <= g.start && g.end <= init[i].time;
      assert obs[i - 1].time + w.expected + w.slack <= g.start && g.end <= obs[i].time;
    } else {
      assert g in PairGap(w, obs[n - 2].time, obs[n - 1].time);
      assert obs[n - 1 - 1].time + w.expected + w.slack <= g.start && g.end <= obs[n - 1].time;
    }
  }

  /** The reason given for a missing interval is right, and the gap at the window's start is never given. */
  lemma MissingReasons(w: Window, obs: seq<Observation>, g: Gap)
    requires Increasing(obs) && w.since < w.until && g in Summarized(w, obs).missing
    ensures match g.reason
            case HistoryStartsAfterWindow => forall i | 0 <= i < |obs| :: obs[i].time > w.until
            case CadenceGapAtStart => false
            case CadenceGap =>
              exists i | 0 < i < |obs| :: obs[i - 1].time + w.expected + w.slack <= g.start && g.end <= obs[i].time
            case HistoryEndsBeforeWindow => forall i | 0 <= i < |obs| :: obs[i].time <= w.until
  {
    if g in CadenceGaps(w, obs) {
      CadenceGapReasons(w, obs, g);
    } else if g in StartGap(w, obs) {
      StartGapIsWholeWindow(w, obs);
      PriorIsTheLastBefore(w, obs);
      SeenBounds(w, obs);
    } else {
      assert g in EndGap(w, obs);
    }
  }

  // ---------------------------------------------------------------------------
  // Failing intervals and doubts
  // ---------------------------------------------------------------------------

  /** The interval is the part inside the window of the failed pass `o` and of the time it stands for. */
  predicate IsFailure(w: Window, o: Observation, f: FailedSpan) {
    && o.status == Failed && f.error == o.error && f.start < f.end
    && f.start == (if o.time < w.since then w.since else o.time)
    && f.end == (if w.until < o.time + w.expected then w.until else o.time + w.expected)
  }

  /** The failing intervals are exactly the nonempty parts of failed passes inside the window. */
  lemma {:induction false} FailingExactly(w: Window, obs: seq<Observation>, f: FailedSpan)
    requires w.since < w.until && w.expected > 0
    ensures f in Failing(w, obs) <==> exists i | 0 <= i < |obs| :: IsFailure(w, obs[i], f)
  {
    if |obs| == 0 {
    } else {
      var init, last := obs[..|obs| - 1], obs[|obs| - 1];
      FailingExactly(w, init, f);
      assert forall i | 0 <= i < |init| :: init[i] == obs[i];
      assert f in Failing(w, obs) <==> f in Failing(w, init) || IsFailure(w, last, f);
      if i :| 0 <= i < |obs| && IsFailure(w, obs[i], f) {
        assert i < |init| ==> IsFailure(w, init[i], f);
      }
      if i :| 0 <= i < |init| && IsFailure(w, init[i], f) {
        assert IsFailure(w, obs[i], f);
      }
    }
  }

  /** Observation `k` is the last not after the window's start, and too old for it. */
  ghost predicate LeavesGapAtStart(w: Window, obs: seq<Observation>, k: nat) {
    && k < |obs| && obs[k].time + w.expected + w.slack < w.since
    && forall i | k < i < |obs| :: obs[i].time > w.since
  }

  lemma GapAtStartExactly(w: Window, obs: seq<Observation>)
    requires Increasing(obs)
    ensures (exists k: nat :: LeavesGapAtStart(w, obs, k)) <==>
            Prior(w, obs).Some? && w.since - Prior(w, obs).value.time > Limit(w)
  {
    PriorIsTheLastBefore(w, obs);
    if Prior(w, obs).Some? {
      var k: nat :| IsLastBefore(w, obs, k) && obs[k] == Prior(w, obs).value;
      if j: nat :| LeavesGapAtStart(w, obs, j) {
        assert obs[j].time <= w.since;
        assert j == k;
      }
      if w.since - obs[k].time > Limit(w) {
        assert LeavesGapAtStart(w, obs, k);
      }
    }
  }

  lemma DoubtsRaised(w: Window, obs: seq<Observation>)
    ensures var doubts, prior := Doubts(w, obs), Prior(w, obs);
            && (StartsInsideWindow in doubts <==> prior.None?)
            && (StartsAfterGap in doubts <==> prior.Some? && w.since - prior.value.time > Limit(w))
            && (EndsInsideWindow in doubts <==> !Followed(w, obs))
            && (NothingInWindow in doubts <==> |Seen(w, obs)| == 0)
  {
  }

  /** Each doubt is raised exactly when it should be. */
  lemma DoubtsExactly(w: Window, obs: seq<Observation>)
    requires Increasing(obs) && w.since < w.until
    ensures var doubts := Summarized(w, obs).doubts;
            && (StartsInsideWindow in doubts <==> forall i | 0 <= i < |obs| :: obs[i].time > w.since)
            && (StartsAfterGap in doubts <==> exists k: nat :: LeavesGapAtStart(w, obs, k))
            && (EndsInsideWindow in doubts <==> forall i | 0 <= i < |obs| :: obs[i].time <= w.until)
            && (NothingInWindow in doubts <==> forall i | 0 <= i < |obs| :: !(w.since <= obs[i].time <= w.until))
  {
    DoubtsRaised(w, obs);
    PriorIsTheLastBefore(w, obs);
    GapAtStartExactly(w, obs);
    SeenBounds(w, obs);
  }

  /** The counts are of the window, and a pass was seen exactly when one in the window did not fail. */
  lemma CountsExactly(w: Window, obs: seq<Observation>)
    requires Increasing(obs) && w.since < w.until
    ensures var s := Summarized(w, obs);
            && (exists a: nat, b: nat :: IsWindow(w, obs, a, b) && s.observed == b - a)
            && (s.passSeen <==>
               exists i | 0 <= i < |obs| :: w.since <= obs[i].time <= w.until && obs[i].status != Failed)
            && (s.trailingUnobserved <==> forall i | 0 <= i < |obs| :: obs[i].time <= w.until)
  {
    var a, b := SeenIsTheWindow(w, obs);
    PassInWindow(w, obs, Seen(w, obs), a, b);
  }

  lemma PassInWindow(w: Window, obs: seq<Observation>, seen: seq<Observation>, a: nat, b: nat)
    requires IsWindow(w, obs, a, b) && seen == obs[a..b]
    ensures (exists o | o in seen :: !o.status.Failed?) <==>
            exists i | 0 <= i < |obs| :: w.since <= obs[i].time <= w.until && obs[i].status != Failed
  {
    if o :| o in seen && !o.status.Failed? {
      var i :| 0 <= i < |seen| && seen[i] == o;
      assert obs[a + i] == o;
    }
    if i :| 0 <= i < |obs| && w.since <= obs[i].time <= w.until && obs[i].status != Failed {
      assert seen[i - a] == obs[i];
    }
  }
}
