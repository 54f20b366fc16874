/**
  What a pass history says about a window, from scripts/baseline_pass_history.py: where passes are
  missing, where they fail, and how long the run that reaches the end of the window is.

  Every function here speaks of an ordered log.
 */
module PassSummary {
  import opened Wrappers
  import opened PassLog

  datatype Window = Window(since: int, until: int, expected: nat, slack: nat)

  datatype GapReason = HistoryStartsAfterWindow | CadenceGapAtStart | CadenceGap | HistoryEndsBeforeWindow

  datatype Gap = Gap(start: int, end: int, reason: GapReason)

  datatype FailedSpan = FailedSpan(start: int, end: int, error: Option<string>)

  datatype Doubt = StartsInsideWindow | StartsAfterGap | EndsInsideWindow | NothingInWindow

  datatype Summary = Summary(
    observed: nat,
    passSeen: bool,
    fullCoverage: bool,
    trailingUnobserved: bool,
    trailingRun: int,
    fiveDays: bool,
    missing: seq<Gap>,
    failing: seq<FailedSpan>,
    doubts: seq<Doubt>)

  function Limit(w: Window): int {
    w.expected + w.slack
  }

  // ---------------------------------------------------------------------------
  // The window
  // ---------------------------------------------------------------------------

  predicate InWindow(w: Window, o: Observation) {
    w.since <= o.time <= w.until
  }

  /** The observations of the window, in order. */
  function Seen(w: Window, obs: seq<Observation>): seq<Observation> {
    if |obs| == 0 then []
    else Seen(w, obs[..|obs| - 1]) + if InWindow(w, obs[|obs| - 1]) then [obs[|obs| - 1]] else []
  }

  /** The last observation at or before the window's start. */
  function Prior(w: Window, obs: seq<Observation>): Option<Observation> {
    if |obs| == 0 then None
    else if obs[|obs| - 1].time <= w.since then Some(obs[|obs| - 1])
    else Prior(w, obs[..|obs| - 1])
  }

  /** Whether anything was observed after the window's end. */
  predicate Followed(w: Window, obs: seq<Observation>) {
    |obs| > 0 && obs[|obs| - 1].time > w.until
  }

  /** The interval clipped to the window, unless that leaves nothing. */
  function Clip(w: Window, start: int, end: int, reason: GapReason): seq<Gap> {
    var s, e := Max(start, w.since), Min(end, w.until);
    if e <= s then [] else [Gap(s, e, reason)]
  }

  function StartGap(w: Window, obs: seq<Observation>): seq<Gap> {
    var prior := Prior(w, obs);
    if prior.None? then
      if |Seen(w, obs)| == 0 then Clip(w, w.since, w.until, HistoryStartsAfterWindow) else []
    else if w.since - prior.value.time > Limit(w) then
      Clip(w, prior.value.time + Limit(w), w.since, CadenceGapAtStart)
    else
      []
  }

  function PairGap(w: Window, previous: int, current: int): seq<Gap> {
    if current <= w.since || previous >= w.until || current - previous <= Limit(w) then []
    else Clip(w, previous + Limit(w), current, CadenceGap)
  }

  function CadenceGaps(w: Window, obs: seq<Observation>): seq<Gap> {
    if |obs| < 2 then []
    else CadenceGaps(w, obs[..|obs| - 1]) + PairGap(w, obs[|obs| - 2].time, obs[|obs| - 1].time)
  }

  function EndGap(w: Window, obs: seq<Observation>): seq<Gap> {
    var seen := Seen(w, obs);
    if Followed(w, obs) then []
    else if |seen| == 0 then Clip(w, w.since, w.until, HistoryEndsBeforeWindow)
    else if seen[|seen| - 1].time < w.until then Clip(w, seen[|seen| - 1].time, w.until, HistoryEndsBeforeWindow)
    else []
  }

  function Missing(w: Window, obs: seq<Observation>): seq<Gap> {
    StartGap(w, obs) + CadenceGaps(w, obs) + EndGap(w, obs)
  }

  /** The failed pass covers part of the window. */
  predicate FailsInWindow(w: Window, o: Observation) {
    o.status.Failed? && o.time < w.until && Min(w.until, o.time + w.expected) > w.since
  }

  function Failing(w: Window, obs: seq<Observation>): seq<FailedSpan> {
    if |obs| == 0 then []
    else
      var o := obs[|obs| - 1];
      Failing(w, obs[..|obs| - 1])
      + if FailsInWindow(w, o) then [FailedSpan(Max(o.time, w.since), Min(w.until, o.time + w.expected), o.error)]
        else []
  }

  function Doubts(w: Window, obs: seq<Observation>): seq<Doubt> {
    var prior := Prior(w, obs);
    (if prior.None? then [StartsInsideWindow]
     else if w.since - prior.value.time > Limit(w) then [StartsAfterGap] else [])
    + (if Followed(w, obs) then [] else [EndsInsideWindow])
    + (if |Seen(w, obs)| == 0 then [NothingInWindow] else [])
  }

  /** Where the run that ends with the last of `seen` starts. */
  function RunStart(w: Window, seen: seq<Observation>): (k: nat)
    requires |seen| > 0
    ensures k < |seen|
  {
    var n := |seen|;
    if n == 1 || seen[n - 2].status.Failed? || seen[n - 1].time - seen[n - 2].time > Limit(w) then n - 1
    else RunStart(w, seen[..n - 1])
  }

  function TrailingRun(w: Window, seen: seq<Observation>): int {
    if |seen| == 0 || seen[|seen| - 1].status.Failed? then 0
    else seen[|seen| - 1].time - seen[RunStart(w, seen)].time
  }

  function Summarized(w: Window, obs: seq<Observation>): Summary {
    var seen, missing, failing := Seen(w, obs), Missing(w, obs), Failing(w, obs);
    Summary(
      |seen|,
      exists o | o in seen :: !o.status.Failed?,
      |seen| > 0 && |missing| == 0 && |failing| == 0,
      !Followed(w, obs),
      TrailingRun(w, seen),
      TrailingRun(w, seen) >= FIVE_DAYS_SECONDS,
      missing,
      failing,
      Doubts(w, obs))
  }

  // ---------------------------------------------------------------------------
  // The program
  // ---------------------------------------------------------------------------

  method Summarize(w: Window, obs: seq<Observation>) returns (s: Option<Summary>)
    requires Increasing(obs)
    ensures s == if w.until <= w.since then None else Some(Summarized(w, obs))
  {
    if w.until <= w.since {
      return None;
    }
    var seen := FindSeen(w, obs);
    var prior := FindPrior(w, obs);
    var following := FindFollowing(w, obs);
    var missing := FindMissing(w, obs, seen, prior, following);
    var failing := FindFailing(w, obs);
    var run := FindTrailingRun(w, seen);
    var doubts := FindDoubts(w, obs, seen, prior, following);
    s := Some(Summary(|seen|, exists o | o in seen :: !o.status.Failed?,
                      |seen| > 0 && |missing| == 0 && |failing| == 0, following.None?, run,
                      run >= FIVE_DAYS_SECONDS, missing, failing, doubts));
  }

  method FindMissing(w: Window, obs: seq<Observation>, seen: seq<Observation>, prior: Option<Observation>,
                     following: Option<Observation>)
    returns (missing: seq<Gap>)
    requires seen == Seen(w, obs) && prior == Prior(w, obs)
    requires following.Some? <==> Followed(w, obs)
    requires following.Some? ==> following.value.time > w.until
    ensures missing == Missing(w, obs)
  {
    missing := [];
    if prior.None? {
      if |seen| == 0 {
        missing := Clip(w, w.since, w.until, HistoryStartsAfterWindow);
      }
    } else if w.since - prior.value.time > Limit(w) {
      missing := Clip(w, prior.value.time + Limit(w), w.since, CadenceGapAtStart);
    }
    assert missing == StartGap(w, obs);
    var gaps := FindCadenceGaps(w, obs);
    missing := missing + gaps;
    var tail := [];
    if following.None? {
      if |seen| == 0 || seen[|seen| - 1].time < w.until {
        tail := Clip(w, if |seen| > 0 then seen[|seen| - 1].time else w.since, w.until, HistoryEndsBeforeWindow);
      }
    } else {
      tail := Clip(w, w.until, following.value.time, HistoryEndsBeforeWindow);
    }
    assert tail == EndGap(w, obs);
    missing := missing + tail;
  }

  method FindDoubts(w: Window, obs: seq<Observation>, seen: seq<Observation>, prior: Option<Observation>,
                    following: Option<Observation>)
    returns (doubts: seq<Doubt>)
    requires seen == Seen(w, obs) && prior == Prior(w, obs)
    requires following.Some? <==> Followed(w, obs)
    ensures doubts == Doubts(w, obs)
  {
    doubts := [];
    if prior.None? {
      doubts := [StartsInsideWindow];
    } else if w.since - prior.value.time > Limit(w) {
      doubts := [StartsAfterGap];
    }
    if following.None? {
      doubts := doubts + [EndsInsideWindow];
    }
    if |seen| == 0 {
      doubts := doubts + [NothingInWindow];
    }
  }

  method FindSeen(w: Window, obs: seq<Observation>) returns (seen: seq<Observation>)
    ensures seen == Seen(w, obs)
  {
    seen := [];
    for i := 0 to |obs|
      invariant seen == Seen(w, obs[..i])
    {
      assert obs[..i + 1][..i] == obs[..i];
      if InWindow(w, obs[i]) {
        seen := seen + [obs[i]];
      }
    }
    assert obs[..|obs|] == obs;
  }

  method FindPrior(w: Window, obs: seq<Observation>) returns (prior: Option<Observation>)
    ensures prior == Prior(w, obs)
  {
    var i := |obs|;
    assert obs[..i] == obs;
    while i > 0
      invariant 0 <= i <= |obs| && Prior(w, obs) == Prior(w, obs[..i])
    {
      if obs[i - 1].time <= w.since {
        return Some(obs[i - 1]);
      }
      assert obs[..i][..i - 1] == obs[..i - 1];
      i := i - 1;
    }
    prior := None;
  }

  method FindFollowing(w: Window, obs: seq<Observation>) returns (following: Option<Observation>)
    requires Increasing(obs)
    ensures following.Some? <==> Followed(w, obs)
    ensures following.Some? ==> following.value.time > w.until
  {
    for i := 0 to |obs|
      invariant forall k | 0 <= k < i :: obs[k].time <= w.until
    {
      if obs[i].time > w.until {
        return Some(obs[i]);
      }
    }
    following := None;
  }

  method FindCadenceGaps(w: Window, obs: seq<Observation>) returns (gaps: seq<Gap>)
    ensures gaps == CadenceGaps(w, obs)
  {
    gaps := [];
    if |obs| == 0 {
      return;
    }
    for i := 1 to |obs|
      invariant gaps == CadenceGaps(w, obs[..i])
    {
      assert obs[..i + 1][..i] == obs[..i];
      var previous, current := obs[i - 1].time, obs[i].time;
      if current > w.since && previous < w.until && current - previous > Limit(w) {
        gaps := gaps + Clip(w, previous + Limit(w), current, CadenceGap);
      }
    }
    assert obs[..|obs|] == obs;
  }

  method FindFailing(w: Window, obs: seq<Observation>) returns (failing: seq<FailedSpan>)
    ensures failing == Failing(w, obs)
  {
    failing := [];
    for i := 0 to |obs|
      invariant failing == Failing(w, obs[..i])
    {
      assert obs[..i + 1][..i] == obs[..i];
      if obs[i].status.Failed? {
        var start := obs[i].time;
        var end := Min(w.until, start + w.expected);
        if !(end <= w.since || start >= w.until) {
          start := Max(start, w.since);
          failing := failing + [FailedSpan(start, end, obs[i].error)];
        }
      }
    }
    assert obs[..|obs|] == obs;
  }

  method FindTrailingRun(w: Window, seen: seq<Observation>) returns (run: int)
    ensures run == TrailingRun(w, seen)
  {
    run := 0;
    var runStart: Option<int> := None;
    var previous: Option<int> := None;
    for i := 0 to |seen|
      invariant previous == if i == 0 then None else Some(seen[i - 1].time)
      invariant runStart == if i == 0 || seen[i - 1].status.Failed? then None
                            else Some(seen[RunStart(w, seen[..i])].time)
      invariant run == TrailingRun(w, seen[..i])
    {
      assert seen[..i + 1][..i] == seen[..i];
      var point := seen[i].time;
      if seen[i].status.Failed? {
        runStart, run := None, 0;
      } else if runStart.None? || previous.None? || point - previous.value > Limit(w) {
        runStart, run := Some(point), 0;
      } else {
        run := point - runStart.value;
      }
      previous := Some(point);
    }
    assert seen[..|seen|] == seen;
  }
}
