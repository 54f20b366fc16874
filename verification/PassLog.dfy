/**
  The bounded observation log of scripts/baseline_pass_history.py: what trimming keeps, and that
  trimming after every append loses nothing that one trim of the whole log would keep.

  Times are whole seconds.
 */
module PassLog {
  import opened Wrappers

  datatype Status = Success | Empty | Failed

  /** What an observation must share with its history. */
  datatype Identity = Identity(repository: string, source: string, config: string, interval: nat)

  datatype Observation = Observation(
    identity: Identity,
    time: int,
    status: Status,
    imported: nat,
    error: Option<string>)

  ghost predicate Increasing(obs: seq<Observation>) {
    forall i, j | 0 <= i < j < |obs| :: obs[i].time < obs[j].time
  }

  // ---------------------------------------------------------------------------
  // What trimming keeps
  // ---------------------------------------------------------------------------

  /** How many observations come before the cutoff. */
  function CountEarlier(obs: seq<Observation>, cutoff: int): (n: nat)
    ensures n <= |obs|
  {
    if |obs| == 0 || obs[|obs| - 1].time < cutoff then |obs| else CountEarlier(obs[..|obs| - 1], cutoff)
  }

  lemma {:induction false} CountEarlierCuts(obs: seq<Observation>, cutoff: int)
    requires Increasing(obs)
    ensures forall i | 0 <= i < |obs| :: i < CountEarlier(obs, cutoff) <==> obs[i].time < cutoff
  {
    if obs != [] && obs[|obs| - 1].time >= cutoff {
      CountEarlierCuts(obs[..|obs| - 1], cutoff);
    }
  }

  /** Where the anchor is, or 0. */
  function AnchorIndex(obs: seq<Observation>, retention: nat): (k: nat)
    requires obs != []
    ensures k <= |obs|
  {
    var n := CountEarlier(obs, obs[|obs| - 1].time - retention);
    if n == 0 then 0 else n - 1
  }

  function Start(obs: seq<Observation>, retention: nat, cap: nat): (k: nat)
    requires obs != []
    ensures k <= |obs|
  {
    var anchor := AnchorIndex(obs, retention);
    if |obs| - anchor <= cap then anchor else |obs| - cap
  }

  /** An ordered log from its anchor on: the last observation before the retention window. */
  function Trimmed(obs: seq<Observation>, retention: nat, cap: nat): seq<Observation> {
    if |obs| == 0 then [] else obs[Start(obs, retention, cap)..]
  }

  /** Keeps what the retention window holds, one anchor before it, and the last `cap` of those. */
  method Trim(obs: seq<Observation>, retention: nat, cap: nat) returns (kept: seq<Observation>)
    requires Increasing(obs)
    ensures kept == Trimmed(obs, retention, cap)
  {
    if |obs| == 0 {
      return [];
    }
    var newest := NewestTime(obs);
    var retained, anchor := CutAt(obs, newest - retention);
    if anchor.Some? {
      retained := [anchor.value] + retained;
    }
    assert retained == obs[AnchorIndex(obs, retention)..];
    kept := if |retained| <= cap then retained else retained[|retained| - cap..];
  }

  method NewestTime(obs: seq<Observation>) returns (newest: int)
    requires Increasing(obs) && |obs| > 0
    ensures newest == obs[|obs| - 1].time
  {
    newest := obs[0].time;
    for i := 1 to |obs|
      invariant newest == obs[i - 1].time
    {
      if newest < obs[i].time {
        newest := obs[i].time;
      }
    }
  }

  method CutAt(obs: seq<Observation>, cutoff: int) returns (retained: seq<Observation>, anchor: Option<Observation>)
    requires Increasing(obs)
    ensures var n := CountEarlier(obs, cutoff);
            retained == obs[n..] && anchor == if n == 0 then None else Some(obs[n - 1])
  {
    ghost var n := CountEarlier(obs, cutoff);
    CountEarlierCuts(obs, cutoff);
    retained, anchor := [], None;
    for i := 0 to |obs|
      invariant i <= n ==> retained == [] && anchor == if i == 0 then None else Some(obs[i - 1])
      invariant i > n ==> retained == obs[n..i] && anchor == if n == 0 then None else Some(obs[n - 1])
    {
      if obs[i].time >= cutoff {
        retained := retained + [obs[i]];
      } else if anchor.None? || anchor.value.time < obs[i].time {
        anchor := Some(obs[i]);
      }
    }
    assert obs[n..|obs|] == obs[n..];
  }

  /** The kept suffix: no longer than the cap, ordered, newest kept, at most one older anchor. */
  lemma TrimBounds(obs: seq<Observation>, retention: nat, cap: nat)
    requires Increasing(obs) && obs != [] && cap > 0
    ensures var kept := Trimmed(obs, retention, cap);
            && 0 < |kept| <= cap && Increasing(kept) && kept[|kept| - 1] == obs[|obs| - 1]
            && forall i | 1 <= i < |kept| :: kept[i].time >= obs[|obs| - 1].time - retention
  {
    CountEarlierCuts(obs, obs[|obs| - 1].time - retention);
  }

  /**
    Exactly what is kept: of the last `cap` observations, those not older than the newest by more
    than the retention, and the one just before them.
   */
  lemma TrimKeepsExactly(obs: seq<Observation>, retention: nat, cap: nat, i: nat)
    requires Increasing(obs) && i < |obs| && cap > 0
    ensures Trimmed(obs, retention, cap) == obs[Start(obs, retention, cap)..]
    ensures var cutoff := obs[|obs| - 1].time - retention;
            i >= Start(obs, retention, cap) <==>
            |obs| - i <= cap && (obs[i].time >= cutoff || obs[i + 1].time >= cutoff)
  {
    CountEarlierCuts(obs, obs[|obs| - 1].time - retention);
  }

  lemma CountEarlierIs(obs: seq<Observation>, cutoff: int, n: nat)
    requires Increasing(obs) && n <= |obs|
    requires n > 0 ==> obs[n - 1].time < cutoff
    requires n < |obs| ==> obs[n].time >= cutoff
    ensures CountEarlier(obs, cutoff) == n
  {
    CountEarlierCuts(obs, cutoff);
  }

  /** Leaving off a part that would be dropped anyway changes nothing. */
  lemma TrimIgnoresDropped(obs: seq<Observation>, retention: nat, cap: nat, s: nat)
    requires Increasing(obs) && obs != [] && cap > 0 && s <= Start(obs, retention, cap)
    ensures s < |obs| && Trimmed(obs[s..], retention, cap) == Trimmed(obs, retention, cap)
  {
    StartShifts(obs, retention, cap, s);
    DropTwice(obs, s, Start(obs[s..], retention, cap));
  }

  lemma DropTwice<T>(s: seq<T>, i: nat, j: nat)
    requires i + j <= |s|
    ensures s[i..][j..] == s[i + j..]
  {
  }

  lemma StartShifts(obs: seq<Observation>, retention: nat, cap: nat, s: nat)
    requires Increasing(obs) && obs != [] && cap > 0 && s <= Start(obs, retention, cap)
    ensures s < |obs| && s + Start(obs[s..], retention, cap) == Start(obs, retention, cap)
  {
    var cutoff := obs[|obs| - 1].time - retention;
    var n := CountEarlier(obs, cutoff);
    CountEarlierCuts(obs, cutoff);
    assert n < |obs|;
    CountEarlierIs(obs[s..], cutoff, if n < s then 0 else n - s);
  }

  /** What is dropped stays dropped when the log grows. */
  lemma StartAdvances(obs: seq<Observation>, retention: nat, cap: nat)
    requires Increasing(obs) && |obs| > 1
    ensures Start(obs[..|obs| - 1], retention, cap) <= Start(obs, retention, cap)
  {
    var init := obs[..|obs| - 1];
    var n := CountEarlier(init, init[|init| - 1].time - retention);
    var m := CountEarlier(obs, obs[|obs| - 1].time - retention);
    assert n <= m by {
      CountEarlierCuts(init, init[|init| - 1].time - retention);
      CountEarlierCuts(obs, obs[|obs| - 1].time - retention);
      if n > 0 {
        assert obs[n - 1].time < obs[|obs| - 1].time - retention;
      }
    }
  }

  /** Trims after every append. */
  function Online(obs: seq<Observation>, retention: nat, cap: nat): seq<Observation> {
    if |obs| == 0 then []
    else Trimmed(Online(obs[..|obs| - 1], retention, cap) + [obs[|obs| - 1]], retention, cap)
  }

  /** One append to a trimmed log gives the trim of the longer log. */
  lemma AppendToTrimmed(obs: seq<Observation>, next: Observation, retention: nat, cap: nat)
    requires Increasing(obs + [next]) && cap > 0
    ensures Trimmed(Trimmed(obs, retention, cap) + [next], retention, cap) == Trimmed(obs + [next], retention, cap)
  {
    var all := obs + [next];
    assert all[..|obs|] == obs;
    if obs != [] {
      StartAdvances(all, retention, cap);
      var s := Start(obs, retention, cap);
      assert obs[s..] + [next] == all[s..];
      TrimIgnoresDropped(all, retention, cap, s);
    } else {
      assert Trimmed(obs, retention, cap) + [next] == all;
    }
  }

  /** Trimming after every append leaves exactly what one trim of the whole log leaves. */
  lemma {:induction false} OnlineEqualsBatch(obs: seq<Observation>, retention: nat, cap: nat)
    requires Increasing(obs) && cap > 0
    ensures Online(obs, retention, cap) == Trimmed(obs, retention, cap)
  {
    if obs == [] {
    } else {
      var init, last := obs[..|obs| - 1], obs[|obs| - 1];
      assert obs == init + [last];
      OnlineEqualsBatch(init, retention, cap);
      AppendToTrimmed(init, last, retention, cap);
    }
  }

  lemma TrimIdempotent(obs: seq<Observation>, retention: nat, cap: nat)
    requires Increasing(obs) && cap > 0
    ensures Trimmed(Trimmed(obs, retention, cap), retention, cap) == Trimmed(obs, retention, cap)
  {
    if obs != [] {
      TrimBounds(obs, retention, cap);
      TrimIgnoresDropped(obs, retention, cap, Start(obs, retention, cap));
    }
  }

  // ---------------------------------------------------------------------------
  // The default capacity
  // ---------------------------------------------------------------------------

  const FIVE_DAYS_SECONDS: nat := 5 * 24 * 60 * 60
  const DEFAULT_MAX_OBSERVATIONS: nat := 1024

  function Ceil(a: nat, b: nat): nat
    requires b > 0
  {
    (a + b - 1) / b
  }

  /** `max_observations` when the caller sets none. */
  function DefaultCap(retention: nat, interval: nat, slack: nat): (cap: nat)
    ensures cap >= DEFAULT_MAX_OBSERVATIONS
  {
    var effective := if interval <= slack then 1 else interval - slack;
    Max(DEFAULT_MAX_OBSERVATIONS, Max(Ceil(retention, effective) + 2, Ceil(FIVE_DAYS_SECONDS, effective) + 2))
  }

  /** Consecutive observations are at least `apart` seconds apart. */
  ghost predicate Spaced(obs: seq<Observation>, apart: nat) {
    forall i | 0 < i < |obs| :: obs[i].time - obs[i - 1].time >= apart
  }

  lemma {:induction false} SpacedSpan(obs: seq<Observation>, apart: nat)
    requires Spaced(obs, apart) && obs != []
    ensures obs[|obs| - 1].time - obs[0].time >= (|obs| - 1) * apart
  {
    if |obs| <= 1 {
    } else {
      var init := obs[..|obs| - 1];
      SpacedSpan(init, apart);
      assert (|obs| - 1) * apart == (|init| - 1) * apart + apart;
    }
  }

  lemma SpacedSuffix(obs: seq<Observation>, apart: nat, n: nat)
    requires Spaced(obs, apart) && n <= |obs|
    ensures Spaced(obs[n..], apart)
  {
    forall i | 0 < i < |obs[n..]| ensures obs[n..][i].time - obs[n..][i - 1].time >= apart {
      assert obs[n + i].time - obs[n + i - 1].time >= apart;
    }
  }

  lemma SpanBound(count: nat, apart: nat, span: nat)
    requires apart > 0
    ensures count <= Ceil(span, apart) || count * apart > span
  {
    var c := Ceil(span, apart);
    if count > c {
      assert count * apart >= (c + 1) * apart == c * apart + apart;
    }
  }

  /** No more observations fit in the retention window than their spacing allows. */
  lemma RetainedCount(obs: seq<Observation>, retention: nat, apart: nat, n: nat)
    requires n < |obs| && apart > 0 && Spaced(obs, apart)
    requires obs[n].time >= obs[|obs| - 1].time - retention
    ensures |obs| - n <= Ceil(retention, apart) + 1
  {
    SpacedSuffix(obs, apart, n);
    SpacedSpan(obs[n..], apart);
    SpanBound(|obs| - n - 1, apart, retention);
  }

  /**
    At the default capacity the cap never bites: when observations are at least the interval less
    the slack apart, neither the anchor nor anything inside the retention window is dropped.
   */
  lemma DefaultCapNeverBites(obs: seq<Observation>, retention: nat, interval: nat, slack: nat)
    requires obs != [] && slack < interval && Spaced(obs, interval - slack) && Increasing(obs)
    ensures Start(obs, retention, DefaultCap(retention, interval, slack)) == AnchorIndex(obs, retention)
  {
    var cutoff := obs[|obs| - 1].time - retention;
    CountEarlierCuts(obs, cutoff);
    RetainedCount(obs, retention, interval - slack, CountEarlier(obs, cutoff));
  }
}
