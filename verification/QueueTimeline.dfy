/**
  The merge-queue classifier of scripts/ghapp_queue_arm_guard.py: a pull request's timeline is
  folded into a class, a count of same-head re-enqueues and a count of ejections of the head.

  Commit ids are abstract and already lower-cased; a missing string field is `None`.
 */
module QueueTimeline {
  import opened Wrappers

  type Oid = nat

  /** A removal reason; `OtherReason` also stands for a missing one. */
  datatype Reason = FailedChecks | MergeConflict | InvalidMergeCommit | MergedReason | OtherReason

  /** The merge-group commit a removal names, with its parents. */
  datatype MergeGroup = MergeGroup(oid: Option<Oid>, parents: seq<Option<Oid>>)

  datatype Node =
    | Commit(oid: Option<Oid>, suite: Option<int>)
    | ForcePush(oid: Option<Oid>)
    | Added
    | Removed(reason: Reason, at: Option<int>, group: Option<MergeGroup>)
    | OtherNode

  datatype PrState = Open | Merged | Closed | Unrecognized

  datatype PullRequest = PullRequest(
    state: PrState,
    inQueue: bool,
    autoMerge: bool,
    head: Option<Oid>,
    nodes: seq<Node>,
    complete: Option<bool>)

  datatype Basis = RemovedHeadSha | PushAfterRemoval | SuiteAfterRemoval | NoEvidence

  datatype Ejection = Ejection(
    reason: Reason,
    at: Option<int>,
    newHead: bool,
    basis: Basis,
    removedHead: Option<Oid>,
    groupCommit: Option<Oid>)

  datatype Class =
    | Unknown
    | IsMerged
    | IsClosed
    | Queued
    | ArmedNotQueued
    | Ejected(reason: Reason, newHead: bool)
    | NeverArmed

  datatype Classification = Classification(
    class_: Class,
    head: Option<Oid>,
    requeues: nat,
    ejections: nat,
    lastEjection: Option<Ejection>,
    complete: Option<bool>)

  // ---------------------------------------------------------------------------
  // What one node says
  // ---------------------------------------------------------------------------

  predicate IsPush(node: Node) {
    node.Commit? || node.ForcePush?
  }

  predicate Pushes(node: Node, oid: Oid) {
    IsPush(node) && node.oid == Some(oid)
  }

  predicate IsQueueEvent(node: Node) {
    node.Added? || node.Removed?
  }

  predicate IsHazardReason(reason: Reason) {
    reason.FailedChecks? || reason.MergeConflict?
  }

  predicate IsHazard(node: Node) {
    node.Removed? && IsHazardReason(node.reason)
  }

  function KnownHeads(nodes: seq<Node>, head: Option<Oid>): set<Oid> {
    (set node | node in nodes && IsPush(node) && node.oid.Some? :: node.oid.value)
    + (if head.Some? then {head.value} else {})
  }

  /** The head a removal removed: trusted only when it is a commit the pull request has had. */
  function RemovedHead(group: Option<MergeGroup>, known: set<Oid>): Option<Oid> {
    if group.None? then
      None
    else if group.value.oid.Some? && group.value.oid.value in known then
      group.value.oid
    else if |group.value.parents| == 2 && group.value.parents[1].Some?
            && group.value.parents[1].value in known then
      group.value.parents[1]
    else
      None
  }

  function RemovedHeadAt(pr: PullRequest, i: nat): Option<Oid>
    requires i < |pr.nodes|
  {
    if pr.nodes[i].Removed? then
      RemovedHead(pr.nodes[i].group, KnownHeads(pr.nodes, pr.head))
    else
      None
  }

  // ---------------------------------------------------------------------------
  // Same-head re-enqueues
  // ---------------------------------------------------------------------------

  /** The first removal at or after `i`. */
  function NextRemoval(nodes: seq<Node>, i: nat): (r: Option<nat>)
    requires i <= |nodes|
    ensures r.Some? ==> i <= r.value < |nodes| && nodes[r.value].Removed?
    ensures forall k | i <= k < (if r.Some? then r.value else |nodes|) :: !nodes[k].Removed?
    decreases |nodes| - i
  {
    if i == |nodes| then None
    else if nodes[i].Removed? then Some(i)
    else NextRemoval(nodes, i + 1)
  }

  /** Whether the add at `add` re-added the head removed at `removal`; `None` when no SHA says. */
  function SameHeadReAdd(pr: PullRequest, removal: nat, add: nat): Option<bool>
    requires removal < |pr.nodes| && add < |pr.nodes|
  {
    var removed := RemovedHeadAt(pr, removal);
    var next := NextRemoval(pr.nodes, add + 1);
    var readded :=
      if next.Some? then RemovedHeadAt(pr, next.value)
      else if pr.inQueue then pr.head
      else None;
    if removed.None? || readded.None? then None else Some(removed == readded)
  }

  /** The hazard removal at `r` has met no add and no other removal before `n`. */
  predicate Awaiting(nodes: seq<Node>, r: nat, n: nat)
    requires n <= |nodes|
  {
    r < n && IsHazard(nodes[r]) && forall k | r < k < n :: !IsQueueEvent(nodes[k])
  }

  predicate PushBetween(nodes: seq<Node>, r: nat, n: nat)
    requires n <= |nodes|
  {
    exists k | r < k < n :: IsPush(nodes[k])
  }

  /** The add at `a` re-enqueues the head that the hazard removal at `r` had just removed. */
  predicate ReEnqueues(pr: PullRequest, r: nat, a: nat)
    requires a < |pr.nodes|
  {
    && pr.nodes[a].Added?
    && Awaiting(pr.nodes, r, a)
    && match SameHeadReAdd(pr, r, a)
       case Some(same) => same
       case None => !PushBetween(pr.nodes, r, a)
  }

  function Requeues(pr: PullRequest, n: nat): set<nat>
    requires n <= |pr.nodes|
  {
    set r: nat, a: nat | r < a < n && ReEnqueues(pr, r, a) :: a
  }

  function Hazards(nodes: seq<Node>, n: nat): set<nat>
    requires n <= |nodes|
  {
    set i: nat | i < n && IsHazard(nodes[i])
  }

  // ---------------------------------------------------------------------------
  // Ejections of the head and the last ejection
  // ---------------------------------------------------------------------------

  function FirstPush(nodes: seq<Node>, head: Oid, i: nat := 0): (r: Option<nat>)
    requires i <= |nodes|
    ensures r.Some? ==> i <= r.value < |nodes| && Pushes(nodes[r.value], head)
    ensures forall k | i <= k < (if r.Some? then r.value else |nodes|) :: !Pushes(nodes[k], head)
    decreases |nodes| - i
  {
    if i == |nodes| then None
    else if Pushes(nodes[i], head) then Some(i)
    else FirstPush(nodes, head, i + 1)
  }

  /** The hazard removal at `i` counts against `head`. */
  predicate Charged(pr: PullRequest, head: Oid, i: nat)
    requires i < |pr.nodes|
  {
    && IsHazard(pr.nodes[i])
    && var removed := RemovedHeadAt(pr, i);
       if removed.Some? then
         removed.value == head
       else
         var first := FirstPush(pr.nodes, head);
         first.None? || first.value < i
  }

  function ChargedTo(pr: PullRequest, head: Oid, n: nat): set<nat>
    requires n <= |pr.nodes|
  {
    set i: nat | i < n && Charged(pr, head, i)
  }

  function LastRemoval(nodes: seq<Node>): (r: Option<nat>)
    ensures r.Some? ==> r.value < |nodes| && nodes[r.value].Removed?
    ensures forall k | (if r.Some? then r.value + 1 else 0) <= k < |nodes| :: !nodes[k].Removed?
  {
    if nodes == [] then None
    else if nodes[|nodes| - 1].Removed? then Some(|nodes| - 1)
    else LastRemoval(nodes[..|nodes| - 1])
  }

  /** Some commit node of `head` has a check suite created after `at`. */
  predicate SuiteAfter(nodes: seq<Node>, head: Oid, at: int) {
    exists node | node in nodes ::
      node.Commit? && node.oid == Some(head) && node.suite.Some? && node.suite.value > at
  }

  predicate PushedAfter(nodes: seq<Node>, index: nat, head: Oid) {
    exists k | index < k < |nodes| :: Pushes(nodes[k], head)
  }

  function NewHeadSince(nodes: seq<Node>, index: nat, removed: Option<Oid>, head: Option<Oid>): (bool, Basis)
    requires index < |nodes| && nodes[index].Removed?
  {
    if head.None? then
      (false, NoEvidence)
    else if removed.Some? then
      (removed != head, RemovedHeadSha)
    else if PushedAfter(nodes, index, head.value) then
      (true, PushAfterRemoval)
    else if nodes[index].at.Some? && SuiteAfter(nodes, head.value, nodes[index].at.value) then
      (true, SuiteAfterRemoval)
    else
      (false, NoEvidence)
  }

  function LastEjection(pr: PullRequest): Option<Ejection> {
    var last := LastRemoval(pr.nodes);
    if last.None? || pr.nodes[last.value].reason.MergedReason? then
      None
    else
      var node := pr.nodes[last.value];
      var removed := RemovedHeadAt(pr, last.value);
      var (newHead, basis) := NewHeadSince(pr.nodes, last.value, removed, pr.head);
      Some(Ejection(node.reason, node.at, newHead, basis, removed,
                    if node.group.Some? then node.group.value.oid else None))
  }

  predicate HoldsRemoval(nodes: seq<Node>) {
    exists node | node in nodes :: node.Removed?
  }

  predicate HoldsPush(nodes: seq<Node>) {
    exists node | node in nodes :: IsPush(node)
  }

  function ClassOf(pr: PullRequest): Class {
    match pr.state
    case Merged => IsMerged
    case Closed => IsClosed
    case Unrecognized => Unknown
    case Open =>
      if pr.inQueue then Queued
      else if pr.autoMerge then ArmedNotQueued
      else
        var last := LastEjection(pr);
        if last.Some? then Ejected(last.value.reason, last.value.newHead)
        else if pr.complete == Some(false) && !HoldsRemoval(pr.nodes) && !HoldsPush(pr.nodes) then Unknown
        else NeverArmed
  }

  /** The whole classification, stated without the single pass that computes it. */
  function Classified(pr: PullRequest): Classification {
    Classification(
      ClassOf(pr),
      pr.head,
      |Requeues(pr, |pr.nodes|)|,
      if pr.head.Some? then |ChargedTo(pr, pr.head.value, |pr.nodes|)| else 0,
      LastEjection(pr),
      pr.complete)
  }

  // ---------------------------------------------------------------------------
  // The program
  // ---------------------------------------------------------------------------

  method EjectionsOfHead(pr: PullRequest) returns (count: nat)
    ensures count == if pr.head.Some? then |ChargedTo(pr, pr.head.value, |pr.nodes|)| else 0
  {
    count := 0;
    if pr.head.None? {
      return;
    }
    var firstPush := FirstPush(pr.nodes, pr.head.value);
    for index := 0 to |pr.nodes|
      invariant count == |ChargedTo(pr, pr.head.value, index)|
    {
      var node := pr.nodes[index];
      var charged := false;
      if node.Removed? && IsHazardReason(node.reason) {
        var removed := RemovedHeadAt(pr, index);
        if removed.Some? {
          charged := removed.value == pr.head.value;
        } else {
          charged := firstPush.None? || index > firstPush.value;
        }
      }
      ChargedStep(pr, pr.head.value, index);
      if charged {
        count := count + 1;
      }
    }
  }

  lemma ChargedStep(pr: PullRequest, head: Oid, n: nat)
    requires n < |pr.nodes|
    ensures |ChargedTo(pr, head, n + 1)| == |ChargedTo(pr, head, n)| + if Charged(pr, head, n) then 1 else 0
  {
    var counted := ChargedTo(pr, head, n);
    assert ChargedTo(pr, head, n + 1) == if Charged(pr, head, n) then counted + {n} else counted;
  }

  method Classify(pr: PullRequest) returns (c: Classification)
    ensures c == Classified(pr)
  {
    var nodes := pr.nodes;
    var requeues, lastRemoval, lastNewHead := ScanTimeline(pr);
    LastRemovalUnique(nodes, lastRemoval);
    var lastEjection: Option<Ejection> := None;
    if lastRemoval.Some? && !nodes[lastRemoval.value].reason.MergedReason? {
      var node := nodes[lastRemoval.value];
      var removed := RemovedHeadAt(pr, lastRemoval.value);
      var (newHead, basis) := NewHeadSince(nodes, lastRemoval.value, removed, pr.head);
      lastEjection := Some(Ejection(node.reason, node.at, newHead, basis, removed,
                                    if node.group.Some? then node.group.value.oid else None));
    }
    var class_ :=
      match pr.state
      case Merged => IsMerged
      case Closed => IsClosed
      case Unrecognized => Unknown
      case Open =>
        if pr.inQueue then Queued
        else if pr.autoMerge then ArmedNotQueued
        else if lastEjection.Some? then Ejected(lastEjection.value.reason, lastEjection.value.newHead)
        else if pr.complete == Some(false) && lastRemoval.None? && lastNewHead.None? then Unknown
        else NeverArmed;
    var ejections := EjectionsOfHead(pr);
    c := Classification(class_, pr.head, requeues, ejections, lastEjection, pr.complete);
  }

  /** The single pass over the timeline. */
  method ScanTimeline(pr: PullRequest) returns (requeues: nat, lastRemoval: Option<nat>, lastNewHead: Option<nat>)
    ensures requeues == |Requeues(pr, |pr.nodes|)|
    ensures Located(pr.nodes, |pr.nodes|, lastRemoval, lastNewHead)
  {
    var nodes := pr.nodes;
    var pending: Option<(nat, bool)> := None;
    requeues, lastRemoval, lastNewHead := 0, None, None;
    for index := 0 to |nodes|
      invariant Counted(pr, index, requeues, pending)
      invariant Located(nodes, index, lastRemoval, lastNewHead)
    {
      var node := nodes[index];
      LocatedStep(nodes, index, lastRemoval, lastNewHead);
      if IsPush(node) {
        CountedPush(pr, index, requeues, pending);
        if pending.Some? {
          pending := Some((pending.value.0, true));
        }
        lastNewHead := Some(index);
      } else if node.Removed? {
        CountedRemoval(pr, index, requeues, pending);
        pending := if IsHazardReason(node.reason) then Some((index, false)) else None;
        lastRemoval := Some(index);
      } else if node.Added? {
        CountedAdd(pr, index, requeues, pending);
        if Again(pr, pending, index) {
          requeues := requeues + 1;
        }
        pending := None;
      } else {
        CountedOther(pr, index, requeues, pending);
      }
    }
  }

  /** The add at `add` re-adds the head the pending removal removed: by SHA, else by timeline order. */
  predicate Again(pr: PullRequest, pending: Option<(nat, bool)>, add: nat)
    requires add < |pr.nodes| && (pending.Some? ==> pending.value.0 < |pr.nodes|)
  {
    && pending.Some?
    && var same := SameHeadReAdd(pr, pending.value.0, add);
       if same.None? then !pending.value.1 else same.value
  }

  /** The counter is right up to `n`, and `pending` is the hazard removal awaiting its first re-add. */
  ghost predicate Counted(pr: PullRequest, n: nat, requeues: nat, pending: Option<(nat, bool)>)
    requires n <= |pr.nodes|
  {
    && requeues == |Requeues(pr, n)|
    && (pending.None? ==> forall r: nat :: !Awaiting(pr.nodes, r, n))
    && (pending.Some? ==> Awaiting(pr.nodes, pending.value.0, n)
                          && pending.value.1 == PushBetween(pr.nodes, pending.value.0, n))
  }

  /** Where the last removal and the last push before `n` are. */
  ghost predicate Located(nodes: seq<Node>, n: nat, lastRemoval: Option<nat>, lastNewHead: Option<nat>)
    requires n <= |nodes|
  {
    && (lastRemoval.Some? ==> lastRemoval.value < n && nodes[lastRemoval.value].Removed?)
    && (forall k | (if lastRemoval.Some? then lastRemoval.value + 1 else 0) <= k < n :: !nodes[k].Removed?)
    && (lastNewHead.Some? ==> lastNewHead.value < n && IsPush(nodes[lastNewHead.value]))
    && (lastNewHead.None? ==> forall k | 0 <= k < n :: !IsPush(nodes[k]))
  }

  lemma LocatedStep(nodes: seq<Node>, n: nat, lastRemoval: Option<nat>, lastNewHead: Option<nat>)
    requires n < |nodes| && Located(nodes, n, lastRemoval, lastNewHead)
    ensures Located(nodes, n + 1, if nodes[n].Removed? then Some(n) else lastRemoval,
                    if IsPush(nodes[n]) then Some(n) else lastNewHead)
  {
  }

  lemma CountedPush(pr: PullRequest, n: nat, requeues: nat, pending: Option<(nat, bool)>)
    requires n < |pr.nodes| && Counted(pr, n, requeues, pending) && IsPush(pr.nodes[n])
    ensures Counted(pr, n + 1, requeues, if pending.Some? then Some((pending.value.0, true)) else None)
  {
    AwaitingStep(pr.nodes, n, n + 1);
    RequeuesStep(pr, n, false);
  }

  lemma CountedRemoval(pr: PullRequest, n: nat, requeues: nat, pending: Option<(nat, bool)>)
    requires n < |pr.nodes| && Counted(pr, n, requeues, pending) && pr.nodes[n].Removed?
    ensures Counted(pr, n + 1, requeues, if IsHazardReason(pr.nodes[n].reason) then Some((n, false)) else None)
  {
    AwaitingStep(pr.nodes, n, n + 1);
    RequeuesStep(pr, n, false);
  }

  lemma CountedOther(pr: PullRequest, n: nat, requeues: nat, pending: Option<(nat, bool)>)
    requires n < |pr.nodes| && Counted(pr, n, requeues, pending) && pr.nodes[n].OtherNode?
    ensures Counted(pr, n + 1, requeues, pending)
  {
    AwaitingStep(pr.nodes, n, n + 1);
    RequeuesStep(pr, n, false);
  }

  lemma CountedAdd(pr: PullRequest, n: nat, requeues: nat, pending: Option<(nat, bool)>)
    requires n < |pr.nodes| && Counted(pr, n, requeues, pending) && pr.nodes[n].Added?
    ensures Counted(pr, n + 1, if Again(pr, pending, n) then requeues + 1 else requeues, None)
  {
    AwaitingStep(pr.nodes, n, n + 1);
    AgainExactly(pr, n, requeues, pending);
    RequeuesStep(pr, n, Again(pr, pending, n));
  }

  lemma AgainExactly(pr: PullRequest, n: nat, requeues: nat, pending: Option<(nat, bool)>)
    requires n < |pr.nodes| && Counted(pr, n, requeues, pending) && pr.nodes[n].Added?
    ensures Again(pr, pending, n) <==> exists r: nat :: ReEnqueues(pr, r, n)
  {
    AwaitingUnique(pr.nodes, n);
    if pending.Some? {
      assert Again(pr, pending, n) <==> ReEnqueues(pr, pending.value.0, n);
    }
  }

  lemma LastRemovalUnique(nodes: seq<Node>, last: Option<nat>)
    requires last.Some? ==> last.value < |nodes| && nodes[last.value].Removed?
    requires forall k | (if last.Some? then last.value + 1 else 0) <= k < |nodes| :: !nodes[k].Removed?
    ensures LastRemoval(nodes) == last
    ensures HoldsRemoval(nodes) <==> last.Some?
  {
    if last.Some? {
      assert nodes[last.value] in nodes;
    }
  }

  lemma AwaitingUnique(nodes: seq<Node>, n: nat)
    requires n <= |nodes|
    ensures forall r: nat, s: nat | Awaiting(nodes, r, n) && Awaiting(nodes, s, n) :: r == s
  {
    forall r: nat, s: nat | Awaiting(nodes, r, n) && Awaiting(nodes, s, n) ensures r == s {
      if r < s { assert IsQueueEvent(nodes[s]); }
      if s < r { assert IsQueueEvent(nodes[r]); }
    }
  }

  lemma AwaitingStep(nodes: seq<Node>, n: nat, next: nat)
    requires n < |nodes| && next == n + 1
    ensures forall r: nat {:trigger Awaiting(nodes, r, next)} :: Awaiting(nodes, r, next) <==>
                             if IsQueueEvent(nodes[n]) then r == n && IsHazard(nodes[n]) else Awaiting(nodes, r, n)
  {
    forall r: nat
      ensures Awaiting(nodes, r, next) <==>
              if IsQueueEvent(nodes[n]) then r == n && IsHazard(nodes[n]) else Awaiting(nodes, r, n)
    {
    }
  }

  lemma RequeuesStep(pr: PullRequest, a: nat, counted: bool)
    requires a < |pr.nodes|
    requires counted <==> exists r: nat :: ReEnqueues(pr, r, a)
    ensures |Requeues(pr, a + 1)| == |Requeues(pr, a)| + if counted then 1 else 0
  {
    var before, after := Requeues(pr, a), Requeues(pr, a + 1);
    if counted {
      var r: nat :| ReEnqueues(pr, r, a);
      assert a in after;
      assert after == before + {a};
    } else {
      assert after == before;
    }
  }

  // ---------------------------------------------------------------------------
  // What the counters promise
  // ---------------------------------------------------------------------------

  predicate SomeAwaiting(nodes: seq<Node>, n: nat)
    requires n <= |nodes|
  {
    exists r: nat | r < n :: Awaiting(nodes, r, n)
  }

  lemma SomeAwaitingStep(nodes: seq<Node>, n: nat)
    requires n < |nodes|
    ensures SomeAwaiting(nodes, n + 1) ==> IsHazard(nodes[n]) || (!IsQueueEvent(nodes[n]) && SomeAwaiting(nodes, n))
  {
    AwaitingStep(nodes, n, n + 1);
  }

  lemma HazardsStep(nodes: seq<Node>, n: nat)
    requires n < |nodes|
    ensures |Hazards(nodes, n + 1)| == |Hazards(nodes, n)| + if IsHazard(nodes[n]) then 1 else 0
  {
    var before := Hazards(nodes, n);
    assert Hazards(nodes, n + 1) == if IsHazard(nodes[n]) then before + {n} else before;
  }

  /** Each counted re-enqueue spends a hazard removal of its own. */
  lemma {:induction false} RequeuesWithinHazards(pr: PullRequest, n: nat)
    requires n <= |pr.nodes|
    ensures |Requeues(pr, n)| + (if SomeAwaiting(pr.nodes, n) then 1 else 0) <= |Hazards(pr.nodes, n)|
  {
    if n == 0 {
    } else {
      var i := n - 1;
      RequeuesWithinHazards(pr, i);
      HazardsStep(pr.nodes, i);
      SomeAwaitingStep(pr.nodes, i);
      var counted := exists r: nat :: ReEnqueues(pr, r, i);
      if counted {
        var r: nat :| ReEnqueues(pr, r, i);
        assert Awaiting(pr.nodes, r, i);
      }
      RequeuesStep(pr, i, counted);
    }
  }

  /** A head ejected for a hazard, with nothing newer pushed, has that ejection charged to it. */
  lemma EjectedHazardIsCharged(pr: PullRequest)
    requires pr.head.Some?
    requires Classified(pr).class_.Ejected?
    requires IsHazardReason(Classified(pr).class_.reason) && !Classified(pr).class_.newHead
    ensures Classified(pr).ejections >= 1
  {
    var i := LastRemoval(pr.nodes).value;
    assert RemovedHeadAt(pr, i).None? ==> !PushedAfter(pr.nodes, i, pr.head.value);
    assert Charged(pr, pr.head.value, i);
    assert i in ChargedTo(pr, pr.head.value, |pr.nodes|);
  }

  // ---------------------------------------------------------------------------
  // What the parts mean, without the searches
  // ---------------------------------------------------------------------------

  /** A removal names a head when that head is known: as the group commit itself, or as what it merged. */
  lemma RemovedHeadExactly(group: Option<MergeGroup>, known: set<Oid>, head: Oid)
    ensures RemovedHead(group, known) == Some(head) <==>
            && head in known && group.Some?
            && var g := group.value;
               || g.oid == Some(head)
               || ((g.oid.None? || g.oid.value !in known) && |g.parents| == 2 && g.parents[1] == Some(head))
  {
  }

  /** `h` is the head that was in the queue after the add at `a`, by what is seen later. */
  ghost predicate QueuedAs(pr: PullRequest, a: nat, h: Oid)
    requires a < |pr.nodes|
  {
    if exists m | a < m < |pr.nodes| :: pr.nodes[m].Removed? then
      exists m | a < m < |pr.nodes| ::
        && pr.nodes[m].Removed? && (forall k | a < k < m :: !pr.nodes[k].Removed?)
        && RemovedHeadAt(pr, m) == Some(h)
    else
      pr.inQueue && pr.head == Some(h)
  }

  /** The SHA test compares the head removed with the head that was then in the queue. */
  lemma SameHeadExactly(pr: PullRequest, removal: nat, add: nat, same: bool)
    requires removal < |pr.nodes| && add < |pr.nodes|
    ensures SameHeadReAdd(pr, removal, add) == Some(same) <==>
            exists removed, queued ::
              RemovedHeadAt(pr, removal) == Some(removed) && QueuedAs(pr, add, queued) && same == (removed == queued)
  {
    var next := NextRemoval(pr.nodes, add + 1);
    if next.Some? {
      assert forall m | add < m < |pr.nodes| && pr.nodes[m].Removed?
        && (forall k | add < k < m :: !pr.nodes[k].Removed?)
          :: m == next.value;
      assert forall h: Oid :: QueuedAs(pr, add, h) <==> RemovedHeadAt(pr, next.value) == Some(h);
    } else {
      assert forall h: Oid :: QueuedAs(pr, add, h) <==> pr.inQueue && pr.head == Some(h);
    }
  }

  /** Node `r` is a hazard removal, and the queue is left alone from then to node `a`. */
  ghost predicate LeftAlone(nodes: seq<Node>, r: nat, a: nat)
    requires a <= |nodes|
  {
    && r < a && nodes[r].Removed? && (nodes[r].reason == FailedChecks || nodes[r].reason == MergeConflict)
    && forall k | r < k < a :: !nodes[k].Added? && !nodes[k].Removed?
  }

  /** The heads around the add are known and equal, or not both known and nothing was pushed in between. */
  ghost predicate KeepsHead(pr: PullRequest, r: nat, a: nat)
    requires r < a < |pr.nodes|
  {
    if exists removed, queued :: RemovedHeadAt(pr, r) == Some(removed) && QueuedAs(pr, a, queued) then
      exists h :: RemovedHeadAt(pr, r) == Some(h) && QueuedAs(pr, a, h)
    else
      forall k | r < k < a :: !pr.nodes[k].Commit? && !pr.nodes[k].ForcePush?
  }

  lemma OneQueuedHead(pr: PullRequest, a: nat, g: Oid, h: Oid)
    requires a < |pr.nodes| && QueuedAs(pr, a, g) && QueuedAs(pr, a, h)
    ensures g == h
  {
  }

  /** An add counts as a requeue exactly when it is the first after a hazard removal and keeps its head. */
  lemma RequeuedExactly(pr: PullRequest, a: nat)
    requires a < |pr.nodes|
    ensures a in Requeues(pr, |pr.nodes|) <==>
            pr.nodes[a].Added? && exists r: nat | LeftAlone(pr.nodes, r, a) :: KeepsHead(pr, r, a)
  {
    forall r: nat | r < a ensures ReEnqueues(pr, r, a) <==>
                                  pr.nodes[a].Added? && LeftAlone(pr.nodes, r, a) && KeepsHead(pr, r, a)
    {
      ReEnqueuesExactly(pr, r, a);
    }
  }

  lemma ReEnqueuesExactly(pr: PullRequest, r: nat, a: nat)
    requires r < a < |pr.nodes|
    ensures ReEnqueues(pr, r, a) <==> pr.nodes[a].Added? && LeftAlone(pr.nodes, r, a) && KeepsHead(pr, r, a)
  {
    SameHeadExactly(pr, r, a, true);
    SameHeadExactly(pr, r, a, false);
    forall g: Oid, h: Oid | QueuedAs(pr, a, g) && QueuedAs(pr, a, h) ensures g == h {
      OneQueuedHead(pr, a, g, h);
    }
  }

  /** A hazard that names no head counts against a head pushed before it, or never seen pushed. */
  lemma ChargedExactly(pr: PullRequest, head: Oid, i: nat)
    requires i < |pr.nodes|
    ensures Charged(pr, head, i) <==>
            && pr.nodes[i].Removed? && (pr.nodes[i].reason == FailedChecks || pr.nodes[i].reason == MergeConflict)
            && (|| RemovedHeadAt(pr, i) == Some(head)
                || (&& RemovedHeadAt(pr, i) == None
                    && (|| (exists k | 0 <= k < i :: Pushes(pr.nodes[k], head))
                        || forall k | 0 <= k < |pr.nodes| :: !Pushes(pr.nodes[k], head))))
  {
  }

  /** The removal at `i` is the last one. */
  ghost predicate IsLastRemoval(nodes: seq<Node>, i: nat) {
    i < |nodes| && nodes[i].Removed? && forall k | i < k < |nodes| :: !nodes[k].Removed?
  }

  /** `head` was put on the branch after the removal at `i`, by timeline order or by its check suites. */
  ghost predicate SeenAfter(nodes: seq<Node>, i: nat, head: Oid)
    requires i < |nodes| && nodes[i].Removed?
  {
    || (exists k | i < k < |nodes| :: IsPush(nodes[k]) && nodes[k].oid == Some(head))
    || (exists k | 0 <= k < |nodes| ::
          && nodes[k].Commit? && nodes[k].oid == Some(head)
          && nodes[k].suite.Some? && nodes[i].at.Some? && nodes[i].at.value < nodes[k].suite.value)
  }

  /** The current head is not the one that the removal at `i` removed, as far as can be seen. */
  ghost predicate HasNewHead(pr: PullRequest, i: nat)
    requires i < |pr.nodes| && pr.nodes[i].Removed?
  {
    && pr.head.Some?
    && match RemovedHeadAt(pr, i)
       case Some(removed) => removed != pr.head.value
       case None => SeenAfter(pr.nodes, i, pr.head.value)
  }

  /** The last ejection is the last removal, unless that was a merge. */
  lemma LastEjectionExactly(pr: PullRequest, i: nat)
    requires IsLastRemoval(pr.nodes, i)
    ensures LastEjection(pr).None? <==> pr.nodes[i].reason == MergedReason
    ensures LastEjection(pr).Some? ==>
              var e := LastEjection(pr).value;
              && e.reason == pr.nodes[i].reason && e.at == pr.nodes[i].at && e.removedHead == RemovedHeadAt(pr, i)
              && e.groupCommit == (if pr.nodes[i].group.Some? then pr.nodes[i].group.value.oid else None)
              && (e.newHead <==> HasNewHead(pr, i))
  {
    LastRemovalUnique(pr.nodes, Some(i));
    NewHeadExactly(pr, i);
  }

  lemma NewHeadExactly(pr: PullRequest, i: nat)
    requires i < |pr.nodes| && pr.nodes[i].Removed?
    ensures NewHeadSince(pr.nodes, i, RemovedHeadAt(pr, i), pr.head).0 <==> HasNewHead(pr, i)
  {
    if pr.head.Some? && pr.nodes[i].at.Some? {
      var at := pr.nodes[i].at.value;
      if SuiteAfter(pr.nodes, pr.head.value, at) {
        var node :| node in pr.nodes && node.Commit? && node.oid == pr.head && node.suite.Some?
          && node.suite.value > at;
        var k :| 0 <= k < |pr.nodes| && pr.nodes[k] == node;
      }
    }
  }

  /** Without a removal there is nothing to have been ejected by. */
  lemma NeverEjected(pr: PullRequest)
    requires forall k | 0 <= k < |pr.nodes| :: !pr.nodes[k].Removed?
    ensures LastEjection(pr).None? && !HoldsRemoval(pr.nodes)
  {
    LastRemovalUnique(pr.nodes, None);
  }
}
