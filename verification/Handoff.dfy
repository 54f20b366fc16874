/**
  The merge receipt handoff of scripts/merge_receipt_handoff.py: which receipt files are
  consistent, and a file and its health sidecar published by writers that may crash between the
  two writes while a checker reads them.

  Reading the lines out of a file's bytes, and the digest of those bytes, are inputs; results
  that need it assume the digest injective.
 */
module Handoff {
  import opened Wrappers

  datatype Receipt = Receipt(
    id: string,
    repoKey: string,
    pr: int,
    project: string,
    baseBranch: string,
    head: string,
    mergeCommit: string,
    mergedAt: int)

  /** The lines of a handoff; one that does not read as a valid receipt is `None`. */
  type Lines = seq<Option<Receipt>>

  function PrKey(r: Receipt): (string, int) {
    (r.repoKey, r.pr)
  }

  function IdentityOf(r: Receipt): (string, string, string, string) {
    (r.project, r.baseBranch, r.head, r.mergeCommit)
  }

  // ---------------------------------------------------------------------------
  // Reading a handoff
  // ---------------------------------------------------------------------------

  /** Two lines may stand in one handoff. */
  predicate Agree(a: Receipt, b: Receipt) {
    && a.id != b.id
    && (a.repoKey == b.repoKey && a.pr == b.pr ==>
          a.project == b.project && a.baseBranch == b.baseBranch && a.head == b.head && a.mergeCommit == b.mergeCommit)
  }

  /** Every line reads, receipt ids are distinct, and each pull request has one identity. */
  ghost predicate Consistent(lines: Lines) {
    && |lines| > 0
    && (forall i | 0 <= i < |lines| :: lines[i].Some?)
    && (forall i, j | 0 <= i < j < |lines| :: Agree(lines[i].value, lines[j].value))
  }

  ghost predicate ReadSoFar(lines: Lines, n: nat, ids: set<string>,
                            byPr: map<(string, int), (string, string, string, string)>)
    requires n <= |lines|
  {
    && (forall i | 0 <= i < n :: lines[i].Some?)
    && (forall id :: id in ids <==> exists i | 0 <= i < n :: lines[i].value.id == id)
    && (forall i | 0 <= i < n ::
          PrKey(lines[i].value) in byPr && byPr[PrKey(lines[i].value)] == IdentityOf(lines[i].value))
    && (forall key | key in byPr :: exists i | 0 <= i < n :: PrKey(lines[i].value) == key)
  }

  ghost predicate AgreeSoFar(lines: Lines, n: nat)
    requires n <= |lines|
  {
    && (forall i | 0 <= i < n :: lines[i].Some?)
    && (forall i, j | 0 <= i < j < n :: Agree(lines[i].value, lines[j].value))
  }

  method ReadHandoff(lines: Lines) returns (records: Option<seq<Receipt>>)
    ensures records.Some? <==> Consistent(lines)
    ensures records.Some? ==>
            |records.value| == |lines| && forall i | 0 <= i < |lines| :: lines[i] == Some(records.value[i])
  {
    var found: seq<Receipt> := [];
    var ids: set<string> := {};
    var byPr: map<(string, int), (string, string, string, string)> := map[];
    for n := 0 to |lines|
      invariant ReadSoFar(lines, n, ids, byPr) && AgreeSoFar(lines, n)
      invariant |found| == n && forall i | 0 <= i < n :: lines[i] == Some(found[i])
    {
      if lines[n].None? {
        return None;
      }
      var r := lines[n].value;
      if Refused(ids, byPr, r) {
        RefusedMeansInconsistent(lines, n, ids, byPr);
        return None;
      }
      AcceptedAgrees(lines, n, ids, byPr);
      AcceptedIsRead(lines, n, ids, byPr);
      ids := ids + {r.id};
      byPr := byPr[PrKey(r) := IdentityOf(r)];
      found := found + [r];
    }
    records := if |found| == 0 then None else Some(found);
  }

  /** A repeated receipt id, or a second identity for a pull request. */
  predicate Refused(ids: set<string>, byPr: map<(string, int), (string, string, string, string)>, r: Receipt) {
    r.id in ids || (PrKey(r) in byPr && byPr[PrKey(r)] != IdentityOf(r))
  }

  lemma RefusedMeansInconsistent(lines: Lines, n: nat, ids: set<string>,
                                 byPr: map<(string, int), (string, string, string, string)>)
    requires n < |lines| && ReadSoFar(lines, n, ids, byPr) && lines[n].Some? && Refused(ids, byPr, lines[n].value)
    ensures !Consistent(lines)
  {
    var r := lines[n].value;
    if r.id in ids {
      var i :| 0 <= i < n && lines[i].value.id == r.id;
      assert !Agree(lines[i].value, r);
    } else {
      var i :| 0 <= i < n && PrKey(lines[i].value) == PrKey(r);
      assert !Agree(lines[i].value, r);
    }
  }

  lemma AcceptedAgrees(lines: Lines, n: nat, ids: set<string>,
                       byPr: map<(string, int), (string, string, string, string)>)
    requires n < |lines| && ReadSoFar(lines, n, ids, byPr) && AgreeSoFar(lines, n)
    requires lines[n].Some? && !Refused(ids, byPr, lines[n].value)
    ensures AgreeSoFar(lines, n + 1)
  {
    var r := lines[n].value;
    forall i | 0 <= i < n ensures Agree(lines[i].value, r) {
      assert lines[i].value.id in ids;
    }
  }

  lemma AcceptedIsRead(lines: Lines, n: nat, ids: set<string>,
                       byPr: map<(string, int), (string, string, string, string)>)
    requires n < |lines| && ReadSoFar(lines, n, ids, byPr) && lines[n].Some? && !Refused(ids, byPr, lines[n].value)
    ensures var r := lines[n].value; ReadSoFar(lines, n + 1, ids + {r.id}, byPr[PrKey(r) := IdentityOf(r)])
  {
    var r := lines[n].value;
    var more := byPr[PrKey(r) := IdentityOf(r)];
    forall key | key in more ensures exists i | 0 <= i < n + 1 :: PrKey(lines[i].value) == key {
      if key == PrKey(r) {
        assert PrKey(lines[n].value) == key;
      } else {
        var i :| 0 <= i < n && PrKey(lines[i].value) == key;
      }
    }
  }

  /** Acceptance does not depend on the order of the lines. */
  function Ids(lines: Lines): set<string> {
    set line | line in lines && line.Some? :: line.value.id
  }

  ghost predicate IdsDiffer(lines: Lines) {
    forall i, j | 0 <= i < j < |lines| :: lines[i].None? || lines[j].None? || lines[i].value.id != lines[j].value.id
  }

  lemma IdsSnoc(lines: Lines, last: Receipt)
    ensures Ids(lines + [Some(last)]) == Ids(lines) + {last.id}
    ensures IdsDiffer(lines + [Some(last)]) <==> IdsDiffer(lines) && last.id !in Ids(lines)
  {
    var all := lines + [Some(last)];
    assert forall i | 0 <= i < |lines| :: all[i] == lines[i];
    assert all[|lines|] == Some(last);
    assert forall line :: line in all <==> line in lines || line == Some(last);
    if last.id in Ids(lines) {
      var line :| line in lines && line.Some? && line.value.id == last.id;
      var i :| 0 <= i < |lines| && lines[i] == line;
      assert all[i].value.id == all[|lines|].value.id;
    } else {
      forall i | 0 <= i < |lines| && lines[i].Some? ensures lines[i].value.id != last.id {
        assert lines[i] in lines;
      }
    }
  }

  lemma {:induction false} DistinctIds(lines: Lines)
    requires forall i | 0 <= i < |lines| :: lines[i].Some?
    ensures |Ids(lines)| <= |lines|
    ensures |Ids(lines)| == |lines| <==> IdsDiffer(lines)
  {
    if |lines| == 0 {
    } else {
      var init, last := lines[..|lines| - 1], lines[|lines| - 1];
      DistinctIds(init);
      assert lines == init + [Some(last.value)];
      IdsSnoc(init, last.value);
    }
  }

  /**
    Which files are accepted: nonempty ones whose lines all read, with as many receipt ids as
    lines, and one project, base, head and merge commit for each repository and pull request.
   */
  lemma ConsistentExactly(lines: Lines)
    ensures Consistent(lines) <==>
            && |lines| > 0 && (forall i | 0 <= i < |lines| :: lines[i].Some?)
            && |Ids(lines)| == |lines|
            && forall i, j | 0 <= i < |lines| && 0 <= j < |lines| :: SameMerge(lines[i].value, lines[j].value)
  {
    if forall i | 0 <= i < |lines| :: lines[i].Some? {
      DistinctIds(lines);
    }
  }

  /** The two receipts are of different pull requests, or say the same of one. */
  predicate SameMerge(a: Receipt, b: Receipt) {
    || a.repoKey != b.repoKey || a.pr != b.pr
    || (a.project == b.project && a.baseBranch == b.baseBranch && a.head == b.head && a.mergeCommit == b.mergeCommit)
  }

  lemma LineOrderDoesNotMatter(a: Lines, b: Lines)
    requires multiset(a) == multiset(b) && Consistent(a)
    ensures Consistent(b)
  {
    assert |a| == |multiset(a)| && |b| == |multiset(b)|;
    forall i | 0 <= i < |b| ensures b[i] in a {
      assert b[i] in multiset(b);
    }
    forall i, j | 0 <= i < j < |b| ensures Agree(b[i].value, b[j].value) {
      if b[i] == b[j] {
        TwiceMeansTwoPlaces(b, i, j);
        var k, l := TwoPlaces(a, b[i]);
      } else {
        var k :| 0 <= k < |a| && a[k] == b[i];
        var l :| 0 <= l < |a| && a[l] == b[j];
        assert k < l ==> Agree(a[k].value, a[l].value);
        assert l < k ==> Agree(a[l].value, a[k].value);
      }
    }
  }

  lemma TwiceMeansTwoPlaces(s: Lines, i: nat, j: nat)
    requires i < j < |s| && s[i] == s[j]
    ensures multiset(s)[s[i]] >= 2
  {
    assert s == s[..j] + [s[j]] + s[j + 1..];
    assert s[i] == s[..j][i] && s[i] in multiset(s[..j]);
  }

  lemma {:induction false} TwoPlaces(s: Lines, x: Option<Receipt>) returns (k: nat, l: nat)
    requires multiset(s)[x] >= 2
    ensures k < l < |s| && s[k] == x && s[l] == x
  {
    var init, last := s[..|s| - 1], s[|s| - 1];
    assert s == init + [last];
    if last == x {
      l := |s| - 1;
      assert x in multiset(init);
      k :| 0 <= k < |init| && init[k] == x;
    } else {
      k, l := TwoPlaces(init, x);
    }
  }

  // ---------------------------------------------------------------------------
  // Publishing and checking
  // ---------------------------------------------------------------------------

  const MAX_FUTURE_SKEW_SECS: int := 300

  datatype World = World(linesOf: Bytes -> Lines, digest: Bytes -> nat)

  ghost predicate Injective(world: World) {
    forall a, b | world.digest(a) == world.digest(b) :: a == b
  }

  /** A health sidecar; only a fresh one describes a payload. */
  datatype Health =
    | ErrorHealth
    | FreshHealth(digest: nat, bytes: nat, count: nat, latest: int,
                  checkedAt: int, exportedAt: int, sourceAt: int, staleAfter: int)

  function Latest(lines: Lines): int {
    if |lines| == 0 || lines[0].None? then 0
    else if |lines| == 1 then lines[0].value.mergedAt
    else
      var rest := Latest(lines[1..]);
      if lines[0].value.mergedAt < rest then rest else lines[0].value.mergedAt
  }

  /** What a validation at `now` accepts. */
  ghost predicate Validates(world: World, payload: Bytes, now: int) {
    && Consistent(world.linesOf(payload))
    && forall line | line in world.linesOf(payload) :: line.value.mergedAt <= now + MAX_FUTURE_SKEW_SECS
  }

  function HealthOf(world: World, payload: Bytes, checkedAt: int, exportedAt: int, sourceAt: int,
                    staleAfter: int): Health
  {
    var lines := world.linesOf(payload);
    FreshHealth(world.digest(payload), |payload|, |lines|, Latest(lines), checkedAt, exportedAt, sourceAt, staleAfter)
  }

  /** A writer stages and validates a payload, replaces the file, then writes health. */
  datatype Writer =
    | Idle
    | Staged(payload: Bytes, health: Health)
    | Replaced(payload: Bytes, health: Health)
    | Crashed

  /** A checker reads health, then the file. */
  datatype Checker =
    | NotStarted
    | HealthRead(health: Option<Health>)
    | Answered(health: Option<Health>, file: Option<Bytes>, isFresh: bool, now: int, threshold: int)

  datatype State = State(
    file: Option<Bytes>,
    health: Option<Health>,
    writers: map<nat, Writer>,
    checkers: map<nat, Checker>)

  datatype Step =
    | Stage(w: nat, payload: Bytes, checkedAt: int, exportedAt: int, sourceAt: int, staleAfter: int)
    | Replace(w: nat)
    | WriteHealth(w: nat)
    | WriteError(w: nat)
    | Crash(w: nat)
    | CheckHealth(c: nat)
    | CheckFile(c: nat, now: int, threshold: int)

  /** The checker's answer for what it read. */
  ghost predicate IsFresh(world: World, health: Option<Health>, file: Option<Bytes>, now: int, threshold: int) {
    && health.Some? && health.value.FreshHealth?
    && health.value.staleAfter == threshold
    && file.Some? && Validates(world, file.value, now)
    && health.value.checkedAt <= now + MAX_FUTURE_SKEW_SECS
    && health.value.exportedAt <= now + MAX_FUTURE_SKEW_SECS
    && health.value.sourceAt <= now + MAX_FUTURE_SKEW_SECS
    && health.value.latest == Latest(world.linesOf(file.value))
    && health.value.bytes == |file.value|
    && health.value.digest == world.digest(file.value)
    && health.value.count == |world.linesOf(file.value)|
    && now - Min(health.value.exportedAt, health.value.sourceAt) <= threshold
  }

  ghost predicate Enabled(world: World, s: State, step: Step) {
    match step
    case Stage(w, payload, checkedAt, _, _, _) =>
      w in s.writers && s.writers[w].Idle? && Validates(world, payload, checkedAt)
    case Replace(w) => w in s.writers && s.writers[w].Staged?
    case WriteHealth(w) => w in s.writers && s.writers[w].Replaced?
    case WriteError(w) => w in s.writers && !s.writers[w].Crashed?
    case Crash(w) => w in s.writers
    case CheckHealth(c) => c in s.checkers && s.checkers[c].NotStarted?
    case CheckFile(c, _, _) => c in s.checkers && s.checkers[c].HealthRead?
  }

  ghost function Next(world: World, s: State, step: Step): State
    requires Enabled(world, s, step)
  {
    match step
    case Stage(w, payload, checkedAt, exportedAt, sourceAt, staleAfter) =>
      var health := HealthOf(world, payload, checkedAt, exportedAt, sourceAt, staleAfter);
      s.(writers := s.writers[w := Staged(payload, health)])
    case Replace(w) =>
      s.(file := Some(s.writers[w].payload),
         writers := s.writers[w := Replaced(s.writers[w].payload, s.writers[w].health)])
    case WriteHealth(w) =>
      s.(health := Some(s.writers[w].health), writers := s.writers[w := Idle])
    case WriteError(w) =>
      s.(health := Some(ErrorHealth), writers := s.writers[w := Idle])
    case Crash(w) =>
      s.(writers := s.writers[w := Crashed])
    case CheckHealth(c) =>
      s.(checkers := s.checkers[c := HealthRead(s.health)])
    case CheckFile(c, now, threshold) =>
      var health := s.checkers[c].health;
      var isFresh := IsFresh(world, health, s.file, now, threshold);
      s.(checkers := s.checkers[c := Answered(health, s.file, isFresh, now, threshold)])
  }

  ghost predicate Init(s: State) {
    && s.file.None? && s.health.None?
    && (forall w | w in s.writers :: s.writers[w].Idle?)
    && (forall c | c in s.checkers :: s.checkers[c].NotStarted?)
  }

  ghost predicate Follows(world: World, s: State, s': State) {
    exists step {:trigger Enabled(world, s, step)} :: Enabled(world, s, step) && s' == Next(world, s, step)
  }

  ghost predicate IsRun(world: World, run: seq<State>) {
    && |run| > 0 && Init(run[0])
    && forall i | 0 < i < |run| :: Follows(world, run[i - 1], run[i])
  }

  /** The health record is the one a writer makes for this payload, which it validated. */
  ghost predicate WrittenFor(world: World, h: Health, payload: Bytes) {
    && h.FreshHealth?
    && Validates(world, payload, h.checkedAt)
    && h == HealthOf(world, payload, h.checkedAt, h.exportedAt, h.sourceAt, h.staleAfter)
  }

  // ---------------------------------------------------------------------------
  // What every step keeps
  // ---------------------------------------------------------------------------

  /** The published file was validated, and a writer under way has the health of its own payload. */
  ghost predicate Invariant(world: World, s: State) {
    && (s.file.Some? ==> Consistent(world.linesOf(s.file.value)))
    && (forall w | w in s.writers && (s.writers[w].Staged? || s.writers[w].Replaced?) ::
          WrittenFor(world, s.writers[w].health, s.writers[w].payload))
  }

  lemma StepKeepsInvariant(world: World, s: State, step: Step)
    requires Invariant(world, s) && Enabled(world, s, step)
    ensures Invariant(world, Next(world, s, step))
  {
  }

  lemma {:induction false} RunKeepsInvariant(world: World, run: seq<State>, n: nat)
    requires IsRun(world, run) && n < |run|
    ensures Invariant(world, run[n])
  {
    if n == 0 {
    } else {
      RunKeepsInvariant(world, run, n - 1);
      var step := StepTo(world, run, n);
      StepKeepsInvariant(world, run[n - 1], step);
    }
  }

  lemma StepTo(world: World, run: seq<State>, n: nat) returns (step: Step)
    requires IsRun(world, run) && 0 < n < |run|
    ensures Enabled(world, run[n - 1], step) && run[n] == Next(world, run[n - 1], step)
  {
    assert Follows(world, run[n - 1], run[n]);
    var taken {:trigger Enabled(world, run[n - 1], taken)} :|
      Enabled(world, run[n - 1], taken) && run[n] == Next(world, run[n - 1], taken);
    step := taken;
  }

  /** No run ever shows an observer a file that was not validated. */
  lemma FileIsAlwaysConsistent(world: World, run: seq<State>, n: nat)
    requires IsRun(world, run) && n < |run| && run[n].file.Some?
    ensures Consistent(world.linesOf(run[n].file.value))
  {
    RunKeepsInvariant(world, run, n);
  }

  // ---------------------------------------------------------------------------
  // Who published what
  // ---------------------------------------------------------------------------

  /** Step `m` of the run is writer `w` replacing the file by the payload it staged. */
  ghost predicate Replaces(world: World, run: seq<State>, m: nat, w: nat, payload: Bytes, health: Health) {
    && m + 1 < |run| && w in run[m].writers && run[m].writers[w] == Staged(payload, health)
    && run[m + 1] == Next(world, run[m], Replace(w))
  }

  /** Step `m` of the run is writer `w` writing the health of the payload it put in place. */
  ghost predicate WritesHealth(world: World, run: seq<State>, m: nat, w: nat, payload: Bytes, health: Health) {
    && m + 1 < |run| && w in run[m].writers && run[m].writers[w] == Replaced(payload, health)
    && run[m + 1] == Next(world, run[m], WriteHealth(w))
  }

  ghost predicate PutInPlace(world: World, run: seq<State>, n: nat, w: nat, payload: Bytes, health: Health) {
    exists m: nat | m < n :: Replaces(world, run, m, w, payload, health)
  }

  /** Before state `n` one writer put the payload in place and then wrote this health for it. */
  ghost predicate Published(world: World, run: seq<State>, n: nat, payload: Bytes, health: Health) {
    exists m: nat, w: nat | m < n ::
      WritesHealth(world, run, m, w, payload, health) && PutInPlace(world, run, m, w, payload, health)
  }

  /** A health record that claims to be fresh was published, for some payload. */
  ghost predicate Vouched(world: World, run: seq<State>, n: nat, health: Option<Health>) {
    health.Some? && health.value.FreshHealth? ==> exists payload :: Published(world, run, n, payload, health.value)
  }

  /** What the run up to state `n` shows about its health, its writers and its checkers. */
  ghost predicate Traced(world: World, run: seq<State>, n: nat)
    requires n < |run|
  {
    && Vouched(world, run, n, run[n].health)
    && (forall w | w in run[n].writers && run[n].writers[w].Replaced? ::
          PutInPlace(world, run, n, w, run[n].writers[w].payload, run[n].writers[w].health))
    && (forall c | c in run[n].checkers && run[n].checkers[c].HealthRead? ::
          Vouched(world, run, n, run[n].checkers[c].health))
    && (forall c | c in run[n].checkers && run[n].checkers[c].Answered? && run[n].checkers[c].isFresh ::
          AnswersFor(world, run, n, run[n].checkers[c]))
  }

  /** What the checker read are two halves of one publication. */
  ghost predicate AnswersFor(world: World, run: seq<State>, n: nat, checker: Checker)
    requires checker.Answered?
  {
    && checker.health.Some? && checker.file.Some?
    && Published(world, run, n, checker.file.value, checker.health.value)
    && IsRecent(checker.health.value, checker.now, checker.threshold)
  }

  /**
    The record was made for this threshold, its export and its source are no older than that, and
    none of its times is more than five minutes ahead.
   */
  predicate IsRecent(health: Health, now: int, threshold: int) {
    && health.FreshHealth?
    && health.staleAfter == threshold
    && now - threshold <= health.exportedAt <= now + 300
    && now - threshold <= health.sourceAt <= now + 300
    && health.checkedAt <= now + 300
  }

  lemma PublishedStays(world: World, run: seq<State>, n: nat, payload: Bytes, health: Health)
    requires Published(world, run, n, payload, health)
    ensures Published(world, run, n + 1, payload, health)
  {
  }

  lemma VouchedStays(world: World, run: seq<State>, n: nat, health: Option<Health>)
    requires Vouched(world, run, n, health)
    ensures Vouched(world, run, n + 1, health)
  {
    if health.Some? && health.value.FreshHealth? {
      var payload :| Published(world, run, n, payload, health.value);
      PublishedStays(world, run, n, payload, health.value);
    }
  }

  lemma PlaceStays(world: World, run: seq<State>, n: nat, w: nat, payload: Bytes, health: Health)
    requires PutInPlace(world, run, n, w, payload, health)
    ensures PutInPlace(world, run, n + 1, w, payload, health)
  {
  }

  /** A published health record is the one its writer made for that payload. */
  lemma PublishedIsWrittenFor(world: World, run: seq<State>, n: nat, payload: Bytes, health: Health)
    requires IsRun(world, run) && Published(world, run, n, payload, health)
    ensures WrittenFor(world, health, payload)
  {
    var m: nat, w: nat :| m < n && WritesHealth(world, run, m, w, payload, health)
                          && PutInPlace(world, run, m, w, payload, health);
    RunKeepsInvariant(world, run, m);
  }

  /** A fresh answer pins the file to the payload the health record was written for. */
  lemma FreshPinsPayload(world: World, health: Option<Health>, file: Option<Bytes>, payload: Bytes, now: int,
                         threshold: int)
    requires Injective(world) && IsFresh(world, health, file, now, threshold)
    requires WrittenFor(world, health.value, payload)
    ensures file == Some(payload)
  {
    assert world.digest(payload) == world.digest(file.value);
  }

  lemma FreshIsPublished(world: World, run: seq<State>, n: nat, health: Option<Health>, file: Option<Bytes>, now: int,
                         threshold: int)
    requires Injective(world) && IsRun(world, run)
    requires Vouched(world, run, n, health) && IsFresh(world, health, file, now, threshold)
    ensures Published(world, run, n, file.value, health.value)
  {
    var payload :| Published(world, run, n, payload, health.value);
    PublishedIsWrittenFor(world, run, n, payload, health.value);
    FreshPinsPayload(world, health, file, payload, now, threshold);
  }

  lemma TracedHealth(world: World, run: seq<State>, n: nat, step: Step)
    requires IsRun(world, run) && n + 1 < |run| && Traced(world, run, n)
    requires Enabled(world, run[n], step) && run[n + 1] == Next(world, run[n], step)
    ensures Vouched(world, run, n + 1, run[n + 1].health)
  {
    if step.WriteHealth? {
      var w := step.w;
      var payload, health := run[n].writers[w].payload, run[n].writers[w].health;
      assert WritesHealth(world, run, n, w, payload, health);
      assert Published(world, run, n + 1, payload, health);
    } else if !step.WriteError? {
      VouchedStays(world, run, n, run[n].health);
    }
  }

  lemma TracedWriter(world: World, run: seq<State>, n: nat, step: Step, w: nat)
    requires IsRun(world, run) && n + 1 < |run| && Traced(world, run, n)
    requires Enabled(world, run[n], step) && run[n + 1] == Next(world, run[n], step)
    requires w in run[n + 1].writers && run[n + 1].writers[w].Replaced?
    ensures PutInPlace(world, run, n + 1, w, run[n + 1].writers[w].payload, run[n + 1].writers[w].health)
  {
    var payload, health := run[n + 1].writers[w].payload, run[n + 1].writers[w].health;
    if step == Replace(w) {
      assert Replaces(world, run, n, w, payload, health);
    } else {
      PlaceStays(world, run, n, w, payload, health);
    }
  }

  lemma TracedChecker(world: World, run: seq<State>, n: nat, step: Step, c: nat)
    requires Injective(world) && IsRun(world, run) && n + 1 < |run| && Traced(world, run, n)
    requires Enabled(world, run[n], step) && run[n + 1] == Next(world, run[n], step) && c in run[n + 1].checkers
    ensures run[n + 1].checkers[c].HealthRead? ==> Vouched(world, run, n + 1, run[n + 1].checkers[c].health)
    ensures run[n + 1].checkers[c].Answered? && run[n + 1].checkers[c].isFresh ==>
              AnswersFor(world, run, n + 1, run[n + 1].checkers[c])
  {
    var checker := run[n].checkers[c];
    match checker
    case NotStarted =>
      VouchedStays(world, run, n, run[n].health);
    case HealthRead(health) =>
      if step.CheckFile? && step.c == c && IsFresh(world, health, run[n].file, step.now, step.threshold) {
        FreshIsPublished(world, run, n, health, run[n].file, step.now, step.threshold);
        PublishedStays(world, run, n, run[n].file.value, health.value);
      }
      VouchedStays(world, run, n, health);
    case Answered(health, file, isFresh, _, _) =>
      if isFresh {
        PublishedStays(world, run, n, file.value, health.value);
      }
  }

  lemma {:induction false} RunIsTraced(world: World, run: seq<State>, n: nat)
    requires Injective(world) && IsRun(world, run) && n < |run|
    ensures Traced(world, run, n)
  {
    if n == 0 {
    } else {
      RunIsTraced(world, run, n - 1);
      var step := StepTo(world, run, n);
      TracedHealth(world, run, n - 1, step);
      forall w | w in run[n].writers && run[n].writers[w].Replaced?
        ensures PutInPlace(world, run, n, w, run[n].writers[w].payload, run[n].writers[w].health)
      {
        TracedWriter(world, run, n - 1, step, w);
      }
      forall c | c in run[n].checkers
        ensures run[n].checkers[c].HealthRead? ==> Vouched(world, run, n, run[n].checkers[c].health)
        ensures run[n].checkers[c].Answered? && run[n].checkers[c].isFresh ==>
                  AnswersFor(world, run, n, run[n].checkers[c])
      {
        TracedChecker(world, run, n - 1, step, c);
      }
    }
  }

  /**
    However writers and checkers interleave and wherever writers crash, a fresh answer means that
    some writer of this run validated exactly the bytes the checker read, put them in place and
    then wrote exactly the health record the checker read; that record was never written for any
    other bytes, and it was recent by the checker's clock and threshold.
   */
  lemma FreshAnswersAreGenuine(world: World, run: seq<State>, n: nat, c: nat)
    requires Injective(world) && IsRun(world, run) && n < |run|
    requires c in run[n].checkers && run[n].checkers[c].Answered? && run[n].checkers[c].isFresh
    ensures var checker := run[n].checkers[c];
            && checker.health.Some? && checker.file.Some?
            && Published(world, run, n, checker.file.value, checker.health.value)
            && WrittenFor(world, checker.health.value, checker.file.value)
            && IsRecent(checker.health.value, checker.now, checker.threshold)
            && forall m: nat, other | Published(world, run, m, other, checker.health.value) ::
               other == checker.file.value
  {
    RunIsTraced(world, run, n);
    var checker := run[n].checkers[c];
    assert AnswersFor(world, run, n, checker);
    PublishedIsWrittenFor(world, run, n, checker.file.value, checker.health.value);
    forall m: nat, other | Published(world, run, m, other, checker.health.value) ensures other == checker.file.value {
      PublishedIsWrittenFor(world, run, m, other, checker.health.value);
      assert world.digest(other) == world.digest(checker.file.value);
    }
  }

  /** Undisturbed, a publish is answered fresh exactly while it is recent and its receipts not ahead. */
  lemma PublishIsSeen(world: World, s: State, w: nat, payload: Bytes, checkedAt: int, exportedAt: int, sourceAt: int,
                      staleAfter: int, now: int, threshold: int)
    requires w in s.writers && s.writers[w].Idle? && Validates(world, payload, checkedAt)
    ensures var s1 := Next(world, s, Stage(w, payload, checkedAt, exportedAt, sourceAt, staleAfter));
            var s2 := Next(world, s1, Replace(w));
            var s3 := Next(world, s2, WriteHealth(w));
            IsFresh(world, s3.health, s3.file, now, threshold) <==>
            && IsRecent(HealthOf(world, payload, checkedAt, exportedAt, sourceAt, staleAfter), now, threshold)
            && forall line | line in world.linesOf(payload) :: line.value.mergedAt <= now + 300
  {
  }

  lemma {:induction false} LatestIsLatest(lines: Lines)
    requires |lines| > 0 && forall i | 0 <= i < |lines| :: lines[i].Some?
    ensures exists line | line in lines :: line.value.mergedAt == Latest(lines)
    ensures forall line | line in lines :: line.value.mergedAt <= Latest(lines)
  {
    if |lines| == 1 {
    } else {
      LatestIsLatest(lines[1..]);
      assert forall line | line in lines :: line == lines[0] || line in lines[1..];
      var line :| line in lines[1..] && line.value.mergedAt == Latest(lines[1..]);
      assert line in lines;
    }
  }

  /**
    Whoever wrote the health record, and whatever the digest, a fresh answer means the file is a
    consistent handoff with as many receipts, as many bytes and the latest merge the record says.
   */
  lemma FreshRecordDescribesFile(world: World, health: Option<Health>, file: Option<Bytes>, now: int, threshold: int)
    requires IsFresh(world, health, file, now, threshold)
    ensures var lines, h := world.linesOf(file.value), health.value;
            && Consistent(lines) && h.count == |lines| && h.bytes == |file.value|
               && h.digest == world.digest(file.value)
            && (exists line | line in lines :: line.value.mergedAt == h.latest)
            && (forall line | line in lines :: line.value.mergedAt <= h.latest)
            && h.latest <= now + 300
  {
    LatestIsLatest(world.linesOf(file.value));
  }

  /**
    A writer that dies between its two writes leaves the older health beside its new file. A check
    still answers fresh only if an earlier writer of the run published that health for the very
    same bytes.
   */
  lemma CrashBetweenWrites(world: World, run: seq<State>, n: nat, w: nat, now: int, threshold: int)
    requires Injective(world) && IsRun(world, run) && n < |run| && w in run[n].writers && run[n].writers[w].Staged?
    ensures var s := Next(world, Next(world, run[n], Replace(w)), Crash(w));
            IsFresh(world, s.health, s.file, now, threshold) ==>
              Published(world, run, n, run[n].writers[w].payload, s.health.value)
  {
    RunIsTraced(world, run, n);
    var s := Next(world, Next(world, run[n], Replace(w)), Crash(w));
    if IsFresh(world, s.health, s.file, now, threshold) {
      FreshIsPublished(world, run, n, s.health, s.file, now, threshold);
    }
  }
}
