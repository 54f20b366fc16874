/**
  Consuming a one-shot nonce, from scripts/ghapp_queue_removal_guard.py: any number of guard
  processes open, check and unlink records that any program of this user may have written.
  Unlinking goes by path, so it may take a record written after the one that was checked.

  A record's file name stands for its nonce and purpose, the digest being injective.
 */
module QueueNonce {
  import opened Wrappers

  const NONCE_MAX_AGE_SECONDS: int := 600

  /** What the record is filed under. */
  datatype Name = Name(nonce: nat, purpose: string)

  /**
    A record file. `serial` tells it from earlier records of the same name; `trusted` is a regular
    file of this user that nobody else can read.
   */
  datatype Record = Record(serial: nat, content: string, modifiedAt: int, trusted: bool)

  datatype Guard =
    | Waiting
    | Opened(name: Name, record: Record)
    | Checked(name: Name, record: Record, at: int)
    | Finished

  /** A guard that honoured `name`: the record it checked, when, and the record it unlinked. */
  datatype Honour = Honour(name: Name, checked: Record, at: int, taken: Record)

  datatype State = State(
    records: map<Name, Record>,
    guards: map<nat, Guard>,
    issued: multiset<Name>,
    honours: seq<Honour>,
    clock: int)

  datatype Step =
    | Issue(name: Name, content: string, trusted: bool)
    | Discard(name: Name)
    | Wait(seconds: nat)
    | Open(g: nat, name: Name)
    | Check(g: nat)
    | Unlink(g: nat)

  predicate Passes(name: Name, record: Record, clock: int) {
    record.trusted && clock - record.modifiedAt <= NONCE_MAX_AGE_SECONDS && record.content == name.purpose
  }

  predicate Enabled(s: State, step: Step) {
    match step
    case Issue(_, _, _) => true
    case Discard(_) => true
    case Wait(_) => true
    case Open(g, _) => g in s.guards && s.guards[g].Waiting?
    case Check(g) => g in s.guards && s.guards[g].Opened?
    case Unlink(g) => g in s.guards && s.guards[g].Checked?
  }

  function Next(s: State, step: Step): State
    requires Enabled(s, step)
  {
    match step
    case Issue(name, content, trusted) =>
      s.(records := s.records[name := Record(s.issued[name] + 1, content, s.clock, trusted)],
         issued := s.issued + multiset{name})
    case Discard(name) =>
      s.(records := s.records - {name})
    case Wait(seconds) =>
      s.(clock := s.clock + seconds)
    case Open(g, name) =>
      s.(guards := s.guards[g := if name in s.records then Opened(name, s.records[name]) else Finished])
    case Check(g) =>
      var name, record := s.guards[g].name, s.guards[g].record;
      s.(guards := s.guards[g := if Passes(name, record, s.clock) then Checked(name, record, s.clock) else Finished])
    case Unlink(g) =>
      var Checked(name, checked, at) := s.guards[g];
      if name in s.records then
        s.(records := s.records - {name}, guards := s.guards[g := Finished],
           honours := s.honours + [Honour(name, checked, at, s.records[name])])
      else
        s.(guards := s.guards[g := Finished])
  }

  predicate Init(s: State) {
    && s.records == map[] && s.issued == multiset{} && s.honours == []
    && forall g | g in s.guards :: s.guards[g].Waiting?
  }

  ghost predicate Follows(s: State, s': State) {
    exists step {:trigger Enabled(s, step)} :: Enabled(s, step) && s' == Next(s, step)
  }

  ghost predicate StepsTo(run: seq<State>, i: nat)
    requires 0 < i < |run|
  {
    Follows(run[i - 1], run[i])
  }

  ghost predicate IsRun(run: seq<State>) {
    && |run| > 0 && Init(run[0])
    && forall i | 0 < i < |run| :: StepsTo(run, i)
  }

  lemma StepTo(run: seq<State>, n: nat) returns (step: Step)
    requires IsRun(run) && 0 < n < |run|
    ensures Enabled(run[n - 1], step) && run[n] == Next(run[n - 1], step)
  {
    assert StepsTo(run, n);
    var taken {:trigger Enabled(run[n - 1], taken)} :|
      Enabled(run[n - 1], taken) && run[n] == Next(run[n - 1], taken);
    step := taken;
  }

  // ---------------------------------------------------------------------------
  // At most once per record written
  // ---------------------------------------------------------------------------

  function HonoursOf(honours: seq<Honour>, name: Name): nat {
    if |honours| == 0 then 0
    else HonoursOf(honours[..|honours| - 1], name) + if honours[|honours| - 1].name == name then 1 else 0
  }

  function Standing(s: State, name: Name): nat {
    if name in s.records then 1 else 0
  }

  /** The record was written in this run under its name, and only the newest one can still stand. */
  ghost predicate Known(s: State, name: Name, record: Record) {
    && 0 < record.serial <= s.issued[name]
    && (record.serial == s.issued[name] && name in s.records ==> s.records[name] == record)
  }

  ghost predicate Invariant(s: State) {
    && (forall name :: HonoursOf(s.honours, name) + Standing(s, name) <= s.issued[name])
    && RecordsAreKnown(s)
    && GuardsHaveChecked(s)
    && HonoursAreSound(s)
  }

  /** The record that stands under a name is the last one written there. */
  ghost predicate RecordsAreKnown(s: State) {
    forall name | name in s.records :: s.records[name].serial == s.issued[name] > 0
  }

  ghost predicate GuardsHaveChecked(s: State) {
    && (forall g | g in s.guards && s.guards[g].Opened? :: Known(s, s.guards[g].name, s.guards[g].record))
    && (forall g | g in s.guards && s.guards[g].Checked? ::
          Known(s, s.guards[g].name, s.guards[g].record)
          && Passes(s.guards[g].name, s.guards[g].record, s.guards[g].at))
  }

  /** Each honour rests on a passed check, and no two of a name took the same record. */
  ghost predicate HonoursAreSound(s: State) {
    && (forall h | h in s.honours ::
          && Passes(h.name, h.checked, h.at)
          && 0 < h.checked.serial <= h.taken.serial <= s.issued[h.name]
          && (h.checked.serial == h.taken.serial ==> h.checked == h.taken))
    && (forall h | h in s.honours && h.name in s.records :: h.taken.serial < s.issued[h.name])
    && (forall i, j | 0 <= i < j < |s.honours| && s.honours[i].name == s.honours[j].name ::
          s.honours[i].taken.serial < s.honours[j].taken.serial)
  }

  lemma HonoursSnoc(honours: seq<Honour>, h: Honour, name: Name)
    ensures HonoursOf(honours + [h], name) == HonoursOf(honours, name) + if h.name == name then 1 else 0
  {
    assert (honours + [h])[..|honours|] == honours;
  }

  lemma StepKeepsInvariant(s: State, step: Step)
    requires Invariant(s) && Enabled(s, step)
    ensures Invariant(Next(s, step))
  {
    var s' := Next(s, step);
    forall name ensures HonoursOf(s'.honours, name) + Standing(s', name) <= s'.issued[name] {
      StepKeepsBalance(s, step, name);
    }
    StepKeepsGuards(s, step);
    StepKeepsHonours(s, step);
  }

  lemma StepKeepsBalance(s: State, step: Step, name: Name)
    requires Enabled(s, step) && HonoursOf(s.honours, name) + Standing(s, name) <= s.issued[name]
    ensures var s' := Next(s, step); HonoursOf(s'.honours, name) + Standing(s', name) <= s'.issued[name]
  {
    if step.Unlink? && s.guards[step.g].name in s.records {
      var Checked(taken, checked, at) := s.guards[step.g];
      HonoursSnoc(s.honours, Honour(taken, checked, at, s.records[taken]), name);
    }
  }

  lemma StepKeepsRecords(s: State, step: Step)
    requires RecordsAreKnown(s) && Enabled(s, step)
    ensures RecordsAreKnown(Next(s, step))
  {
  }

  lemma IssuedStep(s: State, step: Step, name: Name)
    requires Enabled(s, step)
    ensures s.issued[name] <= Next(s, step).issued[name]
    ensures s.issued[name] == Next(s, step).issued[name] <==> !(step.Issue? && step.name == name)
  {
  }

  lemma StepKeepsKnown(s: State, step: Step, name: Name, record: Record)
    requires RecordsAreKnown(s) && Known(s, name, record) && Enabled(s, step)
    ensures Known(Next(s, step), name, record)
  {
    IssuedStep(s, step, name);
  }

  /** A guard only moves on: it opens a record that stands, checks that record, and finishes. */
  lemma GuardStep(s: State, step: Step, g: nat)
    requires Enabled(s, step) && g in Next(s, step).guards
    ensures g in s.guards
    ensures var was, now := s.guards[g], Next(s, step).guards[g];
            || now == was || now.Finished?
            || (was.Waiting? && now.Opened? && now.name in s.records && now.record == s.records[now.name])
            || (was.Opened? && now.Checked? && now.name == was.name && now.record == was.record
                && now.at == s.clock && Passes(was.name, was.record, s.clock))
  {
  }

  lemma StepKeepsGuards(s: State, step: Step)
    requires RecordsAreKnown(s) && GuardsHaveChecked(s) && Enabled(s, step)
    ensures RecordsAreKnown(Next(s, step)) && GuardsHaveChecked(Next(s, step))
  {
    StepKeepsRecords(s, step);
    var s' := Next(s, step);
    forall g | g in s'.guards && (s'.guards[g].Opened? || s'.guards[g].Checked?)
      ensures Known(s', s'.guards[g].name, s'.guards[g].record)
      ensures s'.guards[g].Checked? ==> Passes(s'.guards[g].name, s'.guards[g].record, s'.guards[g].at)
    {
      GuardStep(s, step, g);
      StepKeepsKnown(s, step, s'.guards[g].name, s'.guards[g].record);
    }
  }

  lemma StepKeepsHonours(s: State, step: Step)
    requires RecordsAreKnown(s) && GuardsHaveChecked(s) && HonoursAreSound(s) && Enabled(s, step)
    ensures HonoursAreSound(Next(s, step))
  {
  }

  lemma {:induction false} RunKeepsInvariant(run: seq<State>, n: nat)
    requires IsRun(run) && n < |run|
    ensures Invariant(run[n])
  {
    if n == 0 {
    } else {
      RunKeepsInvariant(run, n - 1);
      var step := StepTo(run, n);
      StepKeepsInvariant(run[n - 1], step);
    }
  }

  /** In every interleaving a nonce is honoured at most as often as a record was written for it. */
  lemma HonouredAtMostOncePerIssue(run: seq<State>, n: nat, name: Name)
    requires IsRun(run) && n < |run|
    ensures HonoursOf(run[n].honours, name) <= run[n].issued[name]
  {
    RunKeepsInvariant(run, n);
  }

  /**
    Whatever was written, a guard honours a nonce only after it checked a trusted record that names
    its purpose and was young enough when it was checked.
   */
  lemma HonouredForItsPurpose(run: seq<State>, n: nat, i: nat)
    requires IsRun(run) && n < |run| && i < |run[n].honours|
    ensures var h := run[n].honours[i];
            && h.checked.trusted && h.checked.content == h.name.purpose
            && h.at - h.checked.modifiedAt <= 600
            && 0 < h.checked.serial <= h.taken.serial <= run[n].issued[h.name]
  {
    RunKeepsInvariant(run, n);
    assert run[n].honours[i] in run[n].honours;
  }

  // ---------------------------------------------------------------------------
  // Which record is taken
  // ---------------------------------------------------------------------------

  /** Step `i` of the run is guard `g` opening the record that stands under `name`. */
  ghost predicate Opens(run: seq<State>, i: nat, g: nat, name: Name) {
    && i + 1 < |run| && g in run[i].guards && run[i].guards[g].Waiting? && name in run[i].records
    && run[i + 1] == Next(run[i], Open(g, name))
  }

  /** Step `j` of the run is guard `g` unlinking a record, which honours its nonce. */
  ghost predicate Takes(run: seq<State>, j: nat, g: nat) {
    && j + 1 < |run| && g in run[j].guards && run[j].guards[g].Checked? && run[j].guards[g].name in run[j].records
    && run[j + 1] == Next(run[j], Unlink(g))
  }

  /** The guard opened this record, and is at it or done with it. */
  predicate HasOpened(guard: Guard, name: Name, record: Record) {
    guard.Finished? || ((guard.Opened? || guard.Checked?) && guard.name == name && guard.record == record)
  }

  lemma GuardKeeps(s: State, step: Step, g: nat, name: Name, record: Record)
    requires Enabled(s, step) && g in s.guards && HasOpened(s.guards[g], name, record)
    ensures g in Next(s, step).guards && HasOpened(Next(s, step).guards[g], name, record)
  {
  }

  /** A guard that opened a record keeps to it. */
  lemma {:induction false} KeepsToRecord(run: seq<State>, i: nat, j: nat, g: nat, name: Name, record: Record)
    requires IsRun(run) && i <= j < |run| && g in run[i].guards && HasOpened(run[i].guards[g], name, record)
    ensures g in run[j].guards && HasOpened(run[j].guards[g], name, record)
  {
    if j == i {
    } else {
      KeepsToRecord(run, i, j - 1, g, name, record);
      var step := StepTo(run, j);
      GuardKeeps(run[j - 1], step, g, name, record);
    }
  }

  /** Step `k` of the run writes a record under `name`. */
  ghost predicate WritesUnder(run: seq<State>, k: nat, name: Name) {
    k + 1 < |run| && run[k].issued[name] != run[k + 1].issued[name]
  }

  lemma IssuedByStep(run: seq<State>, k: nat, name: Name)
    requires IsRun(run) && k + 1 < |run|
    ensures run[k].issued[name] <= run[k + 1].issued[name]
  {
    var step := StepTo(run, k + 1);
    IssuedStep(run[k], step, name);
  }

  lemma {:induction false} IssuedGrows(run: seq<State>, i: nat, j: nat, name: Name)
    requires IsRun(run) && i <= j < |run|
    ensures run[i].issued[name] <= run[j].issued[name]
    ensures run[i].issued[name] == run[j].issued[name] <==> forall k: nat | i <= k < j :: !WritesUnder(run, k, name)
  {
    if j == i {
    } else {
      IssuedGrows(run, i, j - 1, name);
      IssuedByStep(run, j - 1, name);
      assert WritesUnder(run, j - 1, name) <==> run[j - 1].issued[name] != run[j].issued[name];
    }
  }

  lemma OpenedRecord(run: seq<State>, i: nat, g: nat, name: Name)
    requires Opens(run, i, g, name)
    ensures g in run[i + 1].guards && HasOpened(run[i + 1].guards[g], name, run[i].records[name])
    ensures run[i + 1].issued == run[i].issued
  {
  }

  /**
    The record a guard takes is the record it checked exactly when nothing was written under that
    name from its opening to its unlinking.
   */
  lemma TakenIsCheckedExactly(run: seq<State>, i: nat, j: nat, g: nat, name: Name)
    requires IsRun(run) && Opens(run, i, g, name) && i < j && Takes(run, j, g)
    ensures |run[j + 1].honours| == |run[j].honours| + 1
    ensures var h := run[j + 1].honours[|run[j].honours|];
            && h.name == name && h.checked == run[i].records[name] && h.taken == run[j].records[name]
            && (h.taken == h.checked <==> forall k: nat | i <= k < j :: !WritesUnder(run, k, name))
  {
    OpenedRecord(run, i, g, name);
    KeepsToRecord(run, i + 1, j, g, name, run[i].records[name]);
    IssuedGrows(run, i, j, name);
    RunKeepsInvariant(run, i);
    RunKeepsInvariant(run, j);
    assert Known(run[j], name, run[i].records[name]);
  }

  /** No two honours of a name took the same record. */
  lemma RecordsAreTakenOnce(run: seq<State>, n: nat, i: nat, j: nat)
    requires IsRun(run) && n < |run| && i < j < |run[n].honours| && run[n].honours[i].name == run[n].honours[j].name
    ensures run[n].honours[i].taken != run[n].honours[j].taken
  {
    RunKeepsInvariant(run, n);
  }

  /** A name that is written once is honoured at most once, and for the very record that was checked. */
  lemma WrittenOnceIsHonouredOnce(run: seq<State>, n: nat, name: Name)
    requires IsRun(run) && n < |run| && run[n].issued[name] <= 1
    ensures HonoursOf(run[n].honours, name) <= 1
    ensures forall h | h in run[n].honours && h.name == name :: h.taken == h.checked
  {
    RunKeepsInvariant(run, n);
  }

  lemma Extend(run: seq<State>, step: Step) returns (longer: seq<State>)
    requires IsRun(run) && Enabled(run[|run| - 1], step)
    ensures IsRun(longer) && longer[|longer| - 1] == Next(run[|run| - 1], step)
  {
    longer := run + [Next(run[|run| - 1], step)];
    forall i | 0 < i < |longer| ensures StepsTo(longer, i) {
      if i == |run| {
        assert Enabled(longer[i - 1], step) && longer[i] == Next(longer[i - 1], step);
      } else {
        assert StepsTo(run, i);
      }
    }
  }

  /** Two guards that have both checked the one good record, before either unlinks it. */
  lemma BothCheck(name: Name) returns (run: seq<State>)
    ensures IsRun(run)
    ensures var good := Record(1, name.purpose, 0, true);
            run[|run| - 1] == State(map[name := good], map[0 := Checked(name, good, 0), 1 := Checked(name, good, 0)],
                                    multiset{name}, [], 0)
  {
    run := [State(map[], map[0 := Waiting, 1 := Waiting], multiset{}, [], 0)];
    run := Extend(run, Issue(name, name.purpose, true));
    run := Extend(run, Open(0, name));
    run := Extend(run, Open(1, name));
    run := Extend(run, Check(0));
    run := Extend(run, Check(1));
  }

  /**
    Unlinking by path can take a record nobody checked: two guards honour a nonce for which only
    one record ever named the purpose, the second by taking an untrusted record of other content.
   */
  lemma OneGoodRecordHonouredTwice(name: Name, other: string) returns (run: seq<State>)
    requires other != name.purpose
    ensures IsRun(run)
    ensures var honours := run[|run| - 1].honours;
            && |honours| == 2 && honours[0].name == name && honours[1].name == name
            && honours[0].checked == honours[1].checked
            && honours[1].taken.content == other && !honours[1].taken.trusted
  {
    run := BothCheck(name);
    run := Extend(run, Unlink(0));
    run := Extend(run, Issue(name, other, false));
    run := Extend(run, Unlink(1));
  }

  lemma OpenedAfterIssue(s: State, g: nat, name: Name, record: Record)
    requires g in s.guards && s.guards[g].Waiting?
    requires record == Record(s.issued[name] + 1, name.purpose, s.clock, true)
    ensures var s2 := Next(Next(s, Issue(name, name.purpose, true)), Open(g, name));
            && g in s2.guards && s2.guards[g] == Opened(name, record)
            && name in s2.records && s2.records[name] == record
            && s2.honours == s.honours && s2.clock == s.clock
  {
  }

  lemma TakenAfterOpening(s: State, g: nat, name: Name, record: Record, pause: nat)
    requires g in s.guards && s.guards[g] == Opened(name, record) && name in s.records && s.records[name] == record
    requires Passes(name, record, s.clock + pause)
    ensures var s3 := Next(s, Wait(pause));
            var s4 := Next(s3, Check(g));
            && s4.guards[g] == Checked(name, record, s.clock + pause)
            && var s5 := Next(s4, Unlink(g));
               name !in s5.records && s5.honours == s.honours + [Honour(name, record, s.clock + pause, record)]
  {
  }

  /** A guard that is let to finish within the age limit honours a trusted record. */
  lemma FreshRecordIsHonoured(s: State, g: nat, name: Name, pause: nat)
    requires g in s.guards && s.guards[g].Waiting? && pause <= 600
    ensures var s1 := Next(s, Issue(name, name.purpose, true));
            var s2 := Next(s1, Open(g, name));
            var s3 := Next(s2, Wait(pause));
            var s4 := Next(s3, Check(g));
            && s4.guards[g].Checked?
            && var s5 := Next(s4, Unlink(g));
               name !in s5.records && HonoursOf(s5.honours, name) == HonoursOf(s.honours, name) + 1
  {
    var record := Record(s.issued[name] + 1, name.purpose, s.clock, true);
    OpenedAfterIssue(s, g, name, record);
    var s2 := Next(Next(s, Issue(name, name.purpose, true)), Open(g, name));
    TakenAfterOpening(s2, g, name, record, pause);
    HonoursSnoc(s.honours, Honour(name, record, s.clock + pause, record), name);
  }
}
