/**
  The bounded pass history object of scripts/baseline_pass_history.py: building it from a stored
  document, appending an observation, and writing it back.

  Observations carry whole-second times; a refused document or observation is `null` or `false`.
 */
module PassHistory {
  import opened Wrappers
  import opened PassLog
  import opened PassSummary
  import opened PassCoverage

  const SCHEMA_VERSION: int := 1

  datatype Settings = Settings(identity: Identity, retention: int, cap: Option<int>, slack: int)

  datatype Document = Document(schema: int, settings: Settings, observations: seq<Observation>)

  predicate NotBlank(s: string) {
    exists c | c in s :: c !in " \t\r\n"
  }

  predicate IdentityOk(id: Identity) {
    NotBlank(id.repository) && NotBlank(id.source) && NotBlank(id.config) && id.interval > 0
  }

  /** The cap in force: the one set, or the default for this retention and cadence. */
  function CapOf(s: Settings): int
    requires s.retention >= 0 && s.slack >= 0
  {
    if s.cap.Some? then s.cap.value else DefaultCap(s.retention, s.identity.interval, s.slack)
  }

  predicate SettingsOk(s: Settings) {
    && IdentityOk(s.identity)
    && s.retention > 0
    && 0 <= s.slack < s.identity.interval
    && (s.cap.Some? ==> s.cap.value > 0)
  }

  /** The observation is well formed and belongs to this history. */
  predicate Belongs(s: Settings, o: Observation) {
    && o.identity == s.identity
    && (o.status.Empty? ==> o.imported == 0)
    && (o.status.Failed? <==> o.error.Some?)
    && (o.error.Some? ==> NotBlank(o.error.value))
  }

  // ---------------------------------------------------------------------------
  // Sorting by time
  // ---------------------------------------------------------------------------

  ghost predicate Ascending(obs: seq<Observation>) {
    forall i, j | 0 <= i < j < |obs| :: obs[i].time <= obs[j].time
  }

  /** Puts `o` after every observation that is not later. */
  function Insert(obs: seq<Observation>, o: Observation): seq<Observation> {
    if |obs| == 0 || obs[|obs| - 1].time <= o.time then obs + [o]
    else Insert(obs[..|obs| - 1], o) + [obs[|obs| - 1]]
  }

  function Sorted(obs: seq<Observation>): seq<Observation> {
    if |obs| == 0 then [] else Insert(Sorted(obs[..|obs| - 1]), obs[|obs| - 1])
  }

  lemma {:induction false} InsertKeeps(obs: seq<Observation>, o: Observation)
    ensures multiset(Insert(obs, o)) == multiset(obs) + multiset{o}
  {
    if |obs| > 0 && obs[|obs| - 1].time > o.time {
      InsertKeeps(obs[..|obs| - 1], o);
      assert obs == obs[..|obs| - 1] + [obs[|obs| - 1]];
    }
  }

  lemma {:induction false} InsertAscends(obs: seq<Observation>, o: Observation)
    requires Ascending(obs)
    ensures Ascending(Insert(obs, o))
  {
    if |obs| > 0 && obs[|obs| - 1].time > o.time {
      var init, last := obs[..|obs| - 1], obs[|obs| - 1];
      InsertAscends(init, o);
      InsertKeeps(init, o);
      var all := Insert(init, o);
      forall i | 0 <= i < |all| ensures all[i].time <= last.time {
        assert all[i] in multiset(all);
        assert all[i] == o || all[i] in init;
      }
    }
  }

  /** Sorting orders the observations and loses none of them. */
  lemma {:induction false} SortedAscends(obs: seq<Observation>)
    ensures Ascending(Sorted(obs)) && multiset(Sorted(obs)) == multiset(obs)
  {
    if |obs| == 0 {
    } else {
      var init, last := obs[..|obs| - 1], obs[|obs| - 1];
      SortedAscends(init);
      InsertAscends(Sorted(init), last);
      InsertKeeps(Sorted(init), last);
      assert obs == init + [last];
    }
  }

  lemma {:induction false} SortedFixes(obs: seq<Observation>)
    requires Increasing(obs)
    ensures Sorted(obs) == obs
  {
    if |obs| == 0 {
    } else {
      SortedFixes(obs[..|obs| - 1]);
    }
  }

  predicate NoRepeat(obs: seq<Observation>) {
    forall i, j | 0 <= i < j < |obs| :: obs[i].time != obs[j].time
  }

  lemma AscendingDistinct(obs: seq<Observation>)
    requires Ascending(obs) && NoRepeat(obs)
    ensures Increasing(obs)
  {
  }

  // ---------------------------------------------------------------------------
  // Documents
  // ---------------------------------------------------------------------------

  /** The history a document describes, or `None` when it is refused. */
  function Loaded(doc: Document): Option<(Settings, seq<Observation>)> {
    if doc.schema != SCHEMA_VERSION || !SettingsOk(doc.settings) then None
    else if exists o | o in doc.observations :: !Belongs(doc.settings, o) then None
    else
      var sorted := Sorted(doc.observations);
      if !NoRepeat(sorted) then None
      else
        var s := doc.settings.(cap := Some(CapOf(doc.settings)));
        Some((s, Trimmed(sorted, s.retention, s.cap.value)))
  }

  /** What every history in memory satisfies. */
  ghost predicate Consistent(s: Settings, obs: seq<Observation>) {
    && SettingsOk(s) && s.cap.Some?
    && (forall o | o in obs :: Belongs(s, o))
    && Increasing(obs)
    && Trimmed(obs, s.retention, s.cap.value) == obs
  }

  /** An observation of this history: its identity, and an error exactly when it failed. */
  predicate IsItsOwn(s: Settings, o: Observation) {
    && o.identity.repository == s.identity.repository && o.identity.source == s.identity.source
    && o.identity.config == s.identity.config && o.identity.interval == s.identity.interval
    && match o.status
       case Success => o.error == None
       case Empty => o.error == None && o.imported == 0
       case Failed => o.error.Some? && exists c | c in o.error.value :: c !in " \t\r\n"
  }

  /** How many observations have this time. */
  function CountAt(obs: seq<Observation>, time: int): nat {
    if |obs| == 0 then 0
    else CountAt(obs[..|obs| - 1], time) + if obs[|obs| - 1].time == time then 1 else 0
  }

  lemma CountSnoc(obs: seq<Observation>, o: Observation, time: int)
    ensures CountAt(obs + [o], time) == CountAt(obs, time) + if o.time == time then 1 else 0
  {
    assert (obs + [o])[..|obs|] == obs;
  }

  lemma {:induction false} InsertCounts(obs: seq<Observation>, o: Observation, time: int)
    ensures CountAt(Insert(obs, o), time) == CountAt(obs, time) + if o.time == time then 1 else 0
  {
    if |obs| == 0 || obs[|obs| - 1].time <= o.time {
      CountSnoc(obs, o, time);
    } else {
      InsertCounts(obs[..|obs| - 1], o, time);
      CountSnoc(Insert(obs[..|obs| - 1], o), obs[|obs| - 1], time);
    }
  }

  lemma {:induction false} SortedCounts(obs: seq<Observation>, time: int)
    ensures CountAt(Sorted(obs), time) == CountAt(obs, time)
  {
    if |obs| == 0 {
    } else {
      SortedCounts(obs[..|obs| - 1], time);
      InsertCounts(Sorted(obs[..|obs| - 1]), obs[|obs| - 1], time);
    }
  }

  lemma {:induction false} CountPositive(obs: seq<Observation>, time: int)
    ensures CountAt(obs, time) > 0 <==> exists i | 0 <= i < |obs| :: obs[i].time == time
  {
    if |obs| == 0 {
    } else {
      var init := obs[..|obs| - 1];
      CountPositive(init, time);
      assert forall i | 0 <= i < |init| :: init[i] == obs[i];
    }
  }

  lemma {:induction false} NoRepeatCounts(obs: seq<Observation>)
    ensures NoRepeat(obs) <==> forall time :: CountAt(obs, time) <= 1
  {
    if |obs| == 0 {
    } else {
      var init, last := obs[..|obs| - 1], obs[|obs| - 1];
      NoRepeatCounts(init);
      CountPositive(init, last.time);
      assert forall i | 0 <= i < |init| :: init[i] == obs[i];
      forall time ensures CountAt(obs, time) == CountAt(init, time) + if last.time == time then 1 else 0 {
      }
      if NoRepeat(obs) {
        forall time ensures CountAt(obs, time) <= 1 {
          assert CountAt(init, time) <= 1;
        }
      } else if NoRepeat(init) {
        assert exists i | 0 <= i < |init| :: init[i].time == last.time;
        assert CountAt(obs, last.time) > 1;
      } else {
        var time :| CountAt(init, time) > 1;
        assert CountAt(obs, time) > 1;
      }
    }
  }

  lemma SortedRepeats(obs: seq<Observation>)
    ensures NoRepeat(Sorted(obs)) <==> NoRepeat(obs)
  {
    NoRepeatCounts(obs);
    NoRepeatCounts(Sorted(obs));
    if NoRepeat(obs) {
      forall time ensures CountAt(Sorted(obs), time) <= 1 {
        SortedCounts(obs, time);
      }
    } else {
      var time :| CountAt(obs, time) > 1;
      SortedCounts(obs, time);
    }
  }

  /** Exactly which documents load. */
  lemma LoadedExactly(doc: Document)
    ensures Loaded(doc).Some? <==>
            && doc.schema == 1
            && NotBlank(doc.settings.identity.repository) && NotBlank(doc.settings.identity.source)
            && NotBlank(doc.settings.identity.config) && doc.settings.identity.interval > 0
            && doc.settings.retention > 0 && 0 <= doc.settings.slack < doc.settings.identity.interval
            && (doc.settings.cap.Some? ==> doc.settings.cap.value > 0)
            && (forall o | o in doc.observations :: IsItsOwn(doc.settings, o))
            && forall i, j | 0 <= i < j < |doc.observations| :: doc.observations[i].time != doc.observations[j].time
  {
    SortedRepeats(doc.observations);
    forall o ensures Belongs(doc.settings, o) <==> IsItsOwn(doc.settings, o) {
      OwnBelongs(doc.settings, o);
    }
  }

  lemma OwnBelongs(s: Settings, o: Observation)
    ensures Belongs(s, o) <==> IsItsOwn(s, o)
  {
  }

  lemma LoadedIsConsistent(doc: Document)
    requires Loaded(doc).Some?
    ensures Consistent(Loaded(doc).value.0, Loaded(doc).value.1)
  {
    var sorted := Sorted(doc.observations);
    SortedAscends(doc.observations);
    AscendingDistinct(sorted);
    var s := Loaded(doc).value.0;
    forall o | o in sorted ensures Belongs(s, o) {
      assert o in multiset(sorted);
      assert o in doc.observations;
    }
    TrimmedIsConsistent(s, sorted);
  }

  lemma TrimmedIsConsistent(s: Settings, obs: seq<Observation>)
    requires SettingsOk(s) && s.cap.Some? && Increasing(obs)
    requires forall o | o in obs :: Belongs(s, o)
    ensures Consistent(s, Trimmed(obs, s.retention, s.cap.value))
  {
    TrimIdempotent(obs, s.retention, s.cap.value);
    KeptFrom(obs, s.retention, s.cap.value);
  }

  /** Writing a history out and reading it back gives the same history. */
  lemma RoundTrip(s: Settings, obs: seq<Observation>)
    requires Consistent(s, obs)
    ensures Loaded(Document(SCHEMA_VERSION, s, obs)) == Some((s, obs))
  {
    SortedFixes(obs);
  }

  /** The checks of an append, in the order they are made. */
  predicate Admits(s: Settings, obs: seq<Observation>, o: Observation, now: int, skew: nat) {
    if !Belongs(s, o) then false
    else if o.time - now > skew || now - o.time > skew then false
    else if exists x | x in obs :: x.time == o.time then false
    else if |obs| > 0 && o.time <= obs[|obs| - 1].time then false
    else true
  }

  /** The observation belongs here, was taken near `now` and is newer than all that went before. */
  predicate Acceptable(s: Settings, recorded: seq<Observation>, o: Observation, now: int, skew: nat) {
    && IsItsOwn(s, o)
    && o.time - now <= skew && now - o.time <= skew
    && (|recorded| > 0 ==> o.time > recorded[|recorded| - 1].time)
  }

  /** What is kept is one trim of everything ever recorded. */
  ghost predicate Tracks(s: Settings, recorded: seq<Observation>, obs: seq<Observation>) {
    && Consistent(s, obs)
    && Increasing(recorded)
    && obs == Trimmed(recorded, s.retention, s.cap.value)
  }

  /** Checking against what is kept is checking against everything ever recorded. */
  lemma AdmitsExactly(s: Settings, recorded: seq<Observation>, obs: seq<Observation>, o: Observation, now: int,
                      skew: nat)
    requires Tracks(s, recorded, obs)
    ensures Admits(s, obs, o, now, skew) == Acceptable(s, recorded, o, now, skew)
  {
    SameNewest(s, recorded, obs);
    RepeatedIsNotNewer(obs, o.time);
  }

  lemma RepeatedIsNotNewer(obs: seq<Observation>, time: int)
    requires Increasing(obs)
    ensures (exists x | x in obs :: x.time == time) ==> |obs| > 0 && time <= obs[|obs| - 1].time
  {
  }

  lemma SameNewest(s: Settings, recorded: seq<Observation>, obs: seq<Observation>)
    requires Tracks(s, recorded, obs)
    ensures |obs| == 0 <==> |recorded| == 0
    ensures |obs| > 0 ==> obs[|obs| - 1] == recorded[|recorded| - 1]
  {
    if |recorded| > 0 {
      TrimBounds(recorded, s.retention, s.cap.value);
    }
  }

  /** One more append keeps the history a trim of everything recorded. */
  lemma AppendKeeps(s: Settings, recorded: seq<Observation>, obs: seq<Observation>, o: Observation)
    requires Tracks(s, recorded, obs)
    requires Belongs(s, o) && (|recorded| > 0 ==> o.time > recorded[|recorded| - 1].time)
    ensures Increasing(obs + [o])
    ensures Tracks(s, recorded + [o], Trimmed(obs + [o], s.retention, s.cap.value))
  {
    SameNewest(s, recorded, obs);
    IncreasingSnoc(recorded, o);
    IncreasingSnoc(obs, o);
    AppendToTrimmed(recorded, o, s.retention, s.cap.value);
    TrimmedIsConsistent(s, obs + [o]);
  }

  lemma IncreasingSnoc(obs: seq<Observation>, o: Observation)
    requires Increasing(obs) && (|obs| > 0 ==> o.time > obs[|obs| - 1].time)
    ensures Increasing(obs + [o])
  {
  }

  /**
    The summary answers for everything recorded: on all but the failing intervals, and on those
    too exactly when no failure that was dropped reaches into the window.
   */
  ghost predicate AnswersForAll(s: Settings, recorded: seq<Observation>, w: Window, answer: Summary)
    requires SettingsOk(s) && s.cap.Some? && |recorded| > 0
  {
    var whole := Summarized(w, recorded);
    && AgreeButForFailures(answer, whole)
    && (answer == whole <==>
        forall i | 0 <= i < Start(recorded, s.retention, s.cap.value) :: !FailsInWindow(w, recorded[i]))
  }

  lemma RetainedAnswer(s: Settings, recorded: seq<Observation>, obs: seq<Observation>, w: Window)
    requires Tracks(s, recorded, obs) && |recorded| > 0 && w.since >= recorded[|recorded| - 1].time - s.retention
    requires Start(recorded, s.retention, s.cap.value) == AnchorIndex(recorded, s.retention)
    ensures AnswersForAll(s, recorded, w, Summarized(w, obs))
  {
    TrimmedSummaryAgrees(w, recorded, s.retention, s.cap.value);
    TrimmedSummaryExactly(w, recorded, s.retention, s.cap.value);
  }

  // ---------------------------------------------------------------------------
  // The object
  // ---------------------------------------------------------------------------

  class History {
    const settings: Settings
    var observations: seq<Observation>
    /** Every observation accepted since this object was built, oldest first. */
    ghost var recorded: seq<Observation>

    ghost predicate Valid()
      reads this
    {
      Tracks(settings, recorded, observations)
    }

    constructor (s: Settings, obs: seq<Observation>)
      requires Consistent(s, obs)
      ensures Valid() && settings == s && observations == obs && recorded == obs
    {
      settings := s;
      observations := obs;
      recorded := obs;
    }

    /** What is written reads back as this history. */
    function ToDict(): (doc: Document)
      requires Valid()
      reads this
      ensures Loaded(doc) == Some((settings, observations))
    {
      RoundTrip(settings, observations);
      Document(SCHEMA_VERSION, settings, observations)
    }

    /**
      Accepts an observation of this history, taken near `now` and after every earlier one, and
      trims. However many appends there have been, what is kept is one trim of all of them.
     */
    method Append(o: Observation, now: int, skew: nat) returns (ok: bool)
      requires Valid()
      modifies this
      ensures Valid()
      ensures ok == Acceptable(settings, old(recorded), o, now, skew)
      ensures recorded == if ok then old(recorded) + [o] else old(recorded)
    {
      AdmitsExactly(settings, recorded, observations, o, now, skew);
      if !Admits(settings, observations, o, now, skew) {
        return false;
      }
      AppendKeeps(settings, recorded, observations, o);
      observations := Trim(observations + [o], settings.retention, settings.cap.value);
      recorded := recorded + [o];
      ok := true;
    }

    ghost function WindowFrom(since: int, until: int): Window
      requires Valid()
      reads this
    {
      Window(since, until, settings.identity.interval, settings.slack)
    }

    /** The window starts inside the retention window, and the cap has dropped nothing. */
    ghost predicate Retains(since: int)
      requires Valid()
      reads this
    {
      && |recorded| > 0 && since >= recorded[|recorded| - 1].time - settings.retention
      && Start(recorded, settings.retention, settings.cap.value) == AnchorIndex(recorded, settings.retention)
    }

    /**
      The summary of a window. Though read from what is kept, it answers for everything ever
      recorded when the window is retained.
     */
    method Report(since: int, until: int) returns (s: Option<Summary>)
      requires Valid()
      ensures s.None? <==> until <= since
      ensures s.Some? ==> s.value == Summarized(WindowFrom(since, until), observations)
      ensures s.Some? && Retains(since) ==>
                AnswersForAll(settings, recorded, WindowFrom(since, until), s.value)
    {
      s := Summarize(Window(since, until, settings.identity.interval, settings.slack), observations);
      if Retains(since) {
        RetainedAnswer(settings, recorded, observations, WindowFrom(since, until));
      }
    }
  }

  lemma KeptFrom(obs: seq<Observation>, retention: nat, cap: nat)
    requires Increasing(obs)
    ensures Increasing(Trimmed(obs, retention, cap))
    ensures forall o | o in Trimmed(obs, retention, cap) :: o in obs
  {
  }

  /** What the caller expects of the stored history; what is absent is not asked for. */
  datatype Wanted = Wanted(repository: Option<string>, source: Option<string>, config: Option<string>)

  predicate IsWanted(wanted: Wanted, id: Identity) {
    && (wanted.repository.Some? ==> wanted.repository.value == id.repository)
    && (wanted.source.Some? ==> wanted.source.value == id.source)
    && (wanted.config.Some? ==> wanted.config.value == id.config)
  }

  /** Reads a stored history; `None` is a refusal. */
  method FromDict(doc: Document, wanted: Wanted) returns (h: Option<History>)
    ensures var id := doc.settings.identity;
            h.Some? <==>
            && wanted.repository in {None, Some(id.repository)} && wanted.source in {None, Some(id.source)}
            && wanted.config in {None, Some(id.config)}
            && Loaded(doc).Some?
    ensures h.Some? ==> fresh(h.value) && h.value.Valid() && h.value.recorded == h.value.observations
                        && (h.value.settings, h.value.observations) == Loaded(doc).value
  {
    if doc.schema != SCHEMA_VERSION || !IsWanted(wanted, doc.settings.identity) || !SettingsOk(doc.settings) {
      return None;
    }
    if exists o | o in doc.observations :: !Belongs(doc.settings, o) {
      return None;
    }
    var sorted := Sorted(doc.observations);
    SortedAscends(doc.observations);
    if !NoRepeat(sorted) {
      return None;
    }
    AscendingDistinct(sorted);
    var s := doc.settings.(cap := Some(CapOf(doc.settings)));
    var obs := Trim(sorted, s.retention, s.cap.value);
    LoadedIsConsistent(doc);
    var history := new History(s, obs);
    h := Some(history);
  }
}
