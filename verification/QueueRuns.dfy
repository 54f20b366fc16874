/**
  The merge queue of one pull request as a transition system in which every add is admitted by
  the queue-arm guard, and what every run of it keeps.

  The log holds the queue's own events in order. The guard sees them through a timeline into
  which pushes may be sorted anywhere, because GitHub places a back-dated commit before a removal
  it was pushed after. A timeline is accurate when it sorts no push too late, and shows check
  suites, which tell to within a second when a commit was first pushed.
 */
module QueueRuns {
  import opened Wrappers
  import opened QueueTimeline
  import opened QueueGuard

  const SUITE_LAG_SECONDS: int := 1

  datatype Authority = Ordinary | ByNetwork | ByInterruption

  /** When a commit was first put on the branch, and how many queue events came before it last was. */
  datatype Push = Push(first: int, position: nat)

  /** An add records what was known of its head, and of its view; a removal what GitHub shows of it. */
  datatype Event =
    | Add(head: Oid, push: Push, heads: set<Oid>, authority: Authority, accurate: bool)
    | Remove(reason: Reason, at: Option<int>, group: Option<MergeGroup>)

  /** `pushes` holds every head the pull request has had. */
  datatype State = State(log: seq<Event>, head: Oid, pushes: map<Oid, Push>, clock: int)

  datatype Step =
    | Wait(seconds: nat)
    | PushHead(head: Oid)
    | Eject(reason: Reason, at: Option<int>, group: Option<MergeGroup>)
    | GuardedAdd(view: PullRequest, optedIn: bool, probe: Probe)

  function AsNode(event: Event): Node {
    match event
    case Add(_, _, _, _, _) => Added
    case Remove(reason, at, group) => Removed(reason, at, group)
  }

  function QueueEvents(nodes: seq<Node>): seq<Node> {
    if nodes == [] then
      []
    else
      var rest := QueueEvents(nodes[..|nodes| - 1]);
      var last := nodes[|nodes| - 1];
      if IsQueueEvent(last) then rest + [last] else rest
  }

  function LogNodes(log: seq<Event>): seq<Node> {
    if log == [] then [] else LogNodes(log[..|log| - 1]) + [AsNode(log[|log| - 1])]
  }

  /** The view shows the whole queue log, in order, and only pushes that happened. */
  predicate Faithful(view: PullRequest, s: State) {
    && view.head == Some(s.head)
    && QueueEvents(view.nodes) == LogNodes(s.log)
    && forall node | node in view.nodes && IsPush(node) && node.oid.Some? :: node.oid.value in s.pushes
  }

  /** The view also shows whether the pull request is queued, and when its heads were pushed. */
  predicate Accurate(view: PullRequest, s: State) {
    && view.inQueue == (s.log != [] && s.log[|s.log| - 1].Add?)
    && forall k | 0 <= k < |view.nodes| && IsPush(view.nodes[k]) && view.nodes[k].oid.Some? :: ShowsPush(view, s, k)
  }

  /** Node `k` shows a push that happened, not too late, with the check suite it led to. */
  predicate ShowsPush(view: PullRequest, s: State, k: nat)
    requires k < |view.nodes| && IsPush(view.nodes[k]) && view.nodes[k].oid.Some?
  {
    var node := view.nodes[k];
    && node.oid.value in s.pushes
    && var push := s.pushes[node.oid.value];
       && |QueueEvents(view.nodes[..k])| <= push.position
       && (node.Commit? && node.suite.Some? ==> push.first <= node.suite.value <= push.first + SUITE_LAG_SECONDS)
  }

  function AuthorityOf(view: PullRequest, optedIn: bool, probe: Probe): Authority {
    var c := Classified(view);
    var verdict := Assess(c, optedIn, probe);
    if verdict == Some(Network) then ByNetwork
    else if verdict == Some(Interrupted) then ByInterruption
    else Ordinary
  }

  predicate Enabled(s: State, step: Step) {
    match step
    case Wait(_) => true
    case PushHead(head) =>
      // No merge-group commit is ever pushed as a head.
      forall e | e in s.log && e.Remove? && e.group.Some? :: e.group.value.oid != Some(head)
    case Eject(_, at, group) =>
      && (group.Some? && group.value.oid.Some? ==> group.value.oid.value !in s.pushes)
      && (at.Some? ==> at.value == s.clock)
    case GuardedAdd(view, optedIn, probe) =>
      s.head in s.pushes && Faithful(view, s) && Judge(view, false, optedIn, probe)
  }

  function Next(s: State, step: Step): State
    requires Enabled(s, step)
  {
    match step
    case Wait(seconds) => s.(clock := s.clock + seconds)
    case PushHead(head) =>
      var first := if head in s.pushes then s.pushes[head].first else s.clock;
      s.(head := head, pushes := s.pushes[head := Push(first, |s.log|)])
    case Eject(reason, at, group) => s.(log := s.log + [Remove(reason, at, group)])
    case GuardedAdd(view, optedIn, probe) =>
      s.(log := s.log + [Add(s.head, s.pushes[s.head], s.pushes.Keys,
                          AuthorityOf(view, optedIn, probe), Accurate(view, s))])
  }

  predicate Init(s: State) {
    s.log == [] && s.pushes == map[s.head := Push(s.clock, 0)]
  }

  ghost predicate Follows(s: State, s': State) {
    exists step {:trigger Enabled(s, step)} :: Enabled(s, step) && s' == Next(s, step)
  }

  /** `run` is a run of the system: it starts fresh and each state follows by an enabled step. */
  ghost predicate IsRun(run: seq<State>) {
    && run != []
    && Init(run[0])
    && forall i | 0 < i < |run| :: Follows(run[i - 1], run[i])
  }

  /** The removal's merge group was built for `head`. */
  predicate Names(e: Event, head: Oid) {
    e.Remove? && e.group.Some? && |e.group.value.parents| == 2 && e.group.value.parents[1] == Some(head)
  }

  /** Entry `i` puts `head` back directly after a removal that named it. */
  predicate DirectReAdd(log: seq<Event>, head: Oid, i: nat) {
    0 < i < |log| && log[i].Add? && log[i].head == head && Names(log[i - 1], head)
  }

  function ReAdds(log: seq<Event>, head: Oid): set<nat> {
    set i: nat | i < |log| && DirectReAdd(log, head, i) && log[i - 1].reason.FailedChecks?
  }

  function NetworkReAdds(log: seq<Event>, head: Oid): set<nat> {
    set i: nat | i in ReAdds(log, head) && log[i].authority.ByNetwork?
  }

  function NamedHazards(log: seq<Event>, head: Oid): set<nat> {
    set i: nat | i < |log| && Names(log[i], head) && IsHazardReason(log[i].reason)
  }

  // ---------------------------------------------------------------------------
  // Reading the log through a faithful view
  // ---------------------------------------------------------------------------

  /** Every named hazard in the log is charged to the head that the view shows. */
  lemma {:induction false} NamedHazardsAreCharged(view: PullRequest, n: nat, log: seq<Event>, head: Oid)
    requires n <= |view.nodes| && view.head == Some(head)
    requires QueueEvents(view.nodes[..n]) == LogNodes(log)
    requires GroupsForeign(log, KnownHeads(view.nodes, view.head))
    ensures |NamedHazards(log, head)| <= |ChargedTo(view, head, n)|
    decreases n
  {
    if n == 0 {
      assert log == [];
      assert NamedHazards(log, head) == {};
    } else {
      var node := view.nodes[n - 1];
      assert view.nodes[..n][..n - 1] == view.nodes[..n - 1];
      ChargedStep(view, head, n - 1);
      if IsQueueEvent(node) {
        var init := log[..|log| - 1];
        LogNodesInit(view.nodes[..n], log);
        NamedHazardsAreCharged(view, n - 1, init, head);
        var last := |log| - 1;
        NamedHazardsSnoc(log, head);
        if Names(log[last], head) && IsHazardReason(log[last].reason) {
          assert RemovedHeadAt(view, n - 1) == Some(head);
          assert Charged(view, head, n - 1);
        }
      } else {
        NamedHazardsAreCharged(view, n - 1, log, head);
      }
    }
  }

  /** No removal's merge-group commit is itself one of `heads`. */
  predicate GroupsForeign(log: seq<Event>, heads: set<Oid>) {
    forall e | e in log && e.Remove? && e.group.Some? && e.group.value.oid.Some? ::
      e.group.value.oid.value !in heads
  }

  lemma LogNodesInit(nodes: seq<Node>, log: seq<Event>)
    requires nodes != [] && IsQueueEvent(nodes[|nodes| - 1])
    requires QueueEvents(nodes) == LogNodes(log)
    ensures log != [] && nodes[|nodes| - 1] == AsNode(log[|log| - 1])
    ensures QueueEvents(nodes[..|nodes| - 1]) == LogNodes(log[..|log| - 1])
  {
    var rest := QueueEvents(nodes[..|nodes| - 1]);
    assert QueueEvents(nodes) == rest + [nodes[|nodes| - 1]];
    var logged := LogNodes(log[..|log| - 1]);
    assert rest == QueueEvents(nodes)[..|rest|] && logged == LogNodes(log)[..|logged|];
  }

  lemma NamedHazardsSnoc(log: seq<Event>, head: Oid)
    requires log != []
    ensures var last := |log| - 1;
            |NamedHazards(log, head)| ==
            |NamedHazards(log[..last], head)|
            + if Names(log[last], head) && IsHazardReason(log[last].reason) then 1 else 0
  {
    var last := |log| - 1;
    var init := NamedHazards(log[..last], head);
    var hit := Names(log[last], head) && IsHazardReason(log[last].reason);
    assert NamedHazards(log, head) == if hit then init + {last} else init;
  }

  /** The last removal a faithful view shows is the last removal in the log. */
  lemma {:induction false} LastRemovalIsLogged(nodes: seq<Node>, log: seq<Event>)
    requires QueueEvents(nodes) == LogNodes(log)
    requires log != [] && log[|log| - 1].Remove?
    ensures LastRemoval(nodes).Some?
    ensures nodes[LastRemoval(nodes).value] == AsNode(log[|log| - 1])
  {
    assert nodes != [];
    if IsQueueEvent(nodes[|nodes| - 1]) {
      LogNodesInit(nodes, log);
    } else {
      LastRemovalIsLogged(nodes[..|nodes| - 1], log);
    }
  }

  // ---------------------------------------------------------------------------
  // The invariant
  // ---------------------------------------------------------------------------

  /** A re-add of the head its removal named was admitted by an authority that may clear it. */
  predicate ReAddAdmissible(log: seq<Event>, head: Oid, i: nat)
    requires DirectReAdd(log, head, i)
  {
    var hazards := |NamedHazards(log[..i], head)|;
    match log[i - 1].reason
    case InvalidMergeCommit => true
    case MergedReason => true
    case FailedChecks =>
      || (log[i].authority.ByNetwork? && hazards <= 1)
      || (log[i].authority.ByInterruption? && hazards <= INTERRUPTION_REARM_LIMIT)
    case MergeConflict => false
    case OtherReason => false
  }

  ghost predicate Invariant(s: State) {
    && s.head in s.pushes
    && GroupsForeign(s.log, s.pushes.Keys)
    && (forall o | o in s.pushes :: s.pushes[o].first <= s.clock)
    && (forall o, j | o in s.pushes && 0 <= j < |s.log| :: InOrder(s.pushes[o], s.log, j))
    && (forall head: Oid, i: nat | DirectReAdd(s.log, head, i) :: ReAddAdmissible(s.log, head, i))
    && (forall i: nat | i < |s.log| && s.log[i].Add? && s.log[i].accurate :: AddJustified(s.log, i))
  }

  /** A commit first pushed in a later second than a removal was last pushed after it. */
  predicate InOrder(push: Push, log: seq<Event>, j: nat)
    requires j < |log|
  {
    log[j].Remove? && log[j].at.Some? && push.first > log[j].at.value ==> push.position > j
  }

  /** The head that the add at `i` put in was pushed after the event at `j`, or first in its very second. */
  predicate PushedSince(log: seq<Event>, i: nat, j: nat)
    requires j < i < |log| && log[i].Add? && log[j].Remove?
  {
    log[i].push.position > j || log[j].at == Some(log[i].push.first)
  }

  /**
    Why the guard let the add at `i` in: it is the first event, or follows a removal that was a
    merge, was GitHub's own failure, named another head the pull request has had, came before the
    head was pushed, or was a `failed_checks` ejection that the evidence cleared.
   */
  ghost predicate AddJustified(log: seq<Event>, i: nat)
    requires i < |log| && log[i].Add?
  {
    || i == 0
    || (&& log[i - 1].Remove?
        && (|| log[i - 1].reason == MergedReason
            || log[i - 1].reason == InvalidMergeCommit
            || (exists other | other != log[i].head && other in log[i].heads :: Names(log[i - 1], other))
            || PushedSince(log, i, i - 1)
            || (log[i - 1].reason == FailedChecks && !log[i].authority.Ordinary?)))
  }

  /** What the guard must have seen to admit a head right after a removal naming it. */
  lemma GuardedReAddAdmissible(s: State, view: PullRequest, optedIn: bool, probe: Probe)
    requires Invariant(s)
    requires Enabled(s, GuardedAdd(view, optedIn, probe))
    requires s.log != [] && Names(s.log[|s.log| - 1], s.head)
    ensures var log := Next(s, GuardedAdd(view, optedIn, probe)).log;
            DirectReAdd(log, s.head, |s.log|) && ReAddAdmissible(log, s.head, |s.log|)
  {
    var log := Next(s, GuardedAdd(view, optedIn, probe)).log;
    assert log[..|s.log|] == s.log;
    var c := Classified(view);
    var last := s.log[|s.log| - 1];
    KnownHeadsArePushed(s, view);
    assert view.nodes[..|view.nodes|] == view.nodes;
    NamedHazardsAreCharged(view, |view.nodes|, s.log, s.head);
    assert |NamedHazards(s.log, s.head)| <= c.ejections;
    LastRemovalIsLogged(view.nodes, s.log);
    var i := LastRemoval(view.nodes).value;
    assert RemovedHeadAt(view, i) == Some(s.head);
    assert !last.reason.MergedReason? ==> c.lastEjection.Some? && !c.lastEjection.value.newHead;
    if last.reason.FailedChecks? {
      AssessAdmits(c, optedIn, probe);
    }
  }

  lemma KnownHeadsArePushed(s: State, view: PullRequest)
    requires s.head in s.pushes && Faithful(view, s)
    ensures KnownHeads(view.nodes, view.head) <= s.pushes.Keys
  {
    forall o | o in KnownHeads(view.nodes, view.head) ensures o in s.pushes {
      if Some(o) != view.head {
        var node :| node in view.nodes && IsPush(node) && node.oid == Some(o);
      }
    }
  }

  /** Up to its last removal a faithful view shows the whole log. */
  lemma {:induction false} LogIsBehindRemoval(nodes: seq<Node>, i: nat, log: seq<Event>)
    requires QueueEvents(nodes) == LogNodes(log) && log != [] && log[|log| - 1].Remove?
    requires IsLastRemoval(nodes, i)
    ensures nodes[i] == AsNode(log[|log| - 1])
    ensures forall k | i < k <= |nodes| :: |QueueEvents(nodes[..k])| == |log|
  {
    assert nodes[..|nodes|] == nodes;
    LogNodesLength(log);
    if i == |nodes| - 1 {
      LogNodesInit(nodes, log);
    } else {
      var init := nodes[..|nodes| - 1];
      if nodes[|nodes| - 1].Added? {
        LogNodesInit(nodes, log);
      }
      LogIsBehindRemoval(init, i, log);
      forall k | i < k <= |nodes| ensures |QueueEvents(nodes[..k])| == |log| {
        if k < |nodes| {
          assert init[..k] == nodes[..k];
        }
      }
    }
  }

  lemma {:induction false} LogNodesLength(log: seq<Event>)
    ensures |LogNodes(log)| == |log|
  {
    if log == [] {
    } else {
      LogNodesLength(log[..|log| - 1]);
    }
  }

  /** A head that the view shows as pushed after the last removal was. */
  lemma SeenAfterIsPushedSince(s: State, view: PullRequest, i: nat)
    requires Invariant(s) && Faithful(view, s) && Accurate(view, s) && s.log != [] && s.log[|s.log| - 1].Remove?
    requires IsLastRemoval(view.nodes, i) && SeenAfter(view.nodes, i, s.head)
    ensures var push, at := s.pushes[s.head], s.log[|s.log| - 1].at;
            push.position >= |s.log| || at == Some(push.first)
  {
    LogIsBehindRemoval(view.nodes, i, s.log);
    if k :| i < k < |view.nodes| && IsPush(view.nodes[k]) && view.nodes[k].oid == Some(s.head) {
      assert ShowsPush(view, s, k);
    } else {
      var k :| 0 <= k < |view.nodes| && view.nodes[k].Commit? && view.nodes[k].oid == Some(s.head)
        && view.nodes[k].suite.Some? && view.nodes[i].at.Some? && view.nodes[i].at.value < view.nodes[k].suite.value;
      assert ShowsPush(view, s, k);
      assert InOrder(s.pushes[s.head], s.log, |s.log| - 1);
    }
  }

  /** A removal that the view reads as naming a head names one the pull request has had. */
  lemma NamedInView(s: State, view: PullRequest, i: nat, removed: Oid)
    requires Invariant(s) && Faithful(view, s) && s.log != [] && s.log[|s.log| - 1].Remove?
    requires IsLastRemoval(view.nodes, i) && RemovedHeadAt(view, i) == Some(removed)
    ensures Names(s.log[|s.log| - 1], removed) && removed in s.pushes
  {
    LogIsBehindRemoval(view.nodes, i, s.log);
    KnownHeadsArePushed(s, view);
    var last := s.log[|s.log| - 1];
    RemovedHeadExactly(last.group, KnownHeads(view.nodes, view.head), removed);
    assert last in s.log;
  }

  /** Every add the guard admits is justified. */
  lemma GuardedAddJustified(s: State, view: PullRequest, optedIn: bool, probe: Probe)
    requires Invariant(s) && Enabled(s, GuardedAdd(view, optedIn, probe)) && Accurate(view, s)
    ensures AddJustified(Next(s, GuardedAdd(view, optedIn, probe)).log, |s.log|)
  {
    var log := Next(s, GuardedAdd(view, optedIn, probe)).log;
    JudgeExactly(view, false, optedIn, probe);
    if s.log != [] {
      var last := s.log[|s.log| - 1];
      assert log[|s.log| - 1] == last && last.Remove?;
      LastRemovalIsLogged(view.nodes, s.log);
      var i := LastRemoval(view.nodes).value;
      assert view.nodes[i] in view.nodes && IsLastRemoval(view.nodes, i);
      LogIsBehindRemoval(view.nodes, i, s.log);
      JudgeAfterRemoval(view, i, false, optedIn, probe);
      if HasNewHead(view, i) {
        if RemovedHeadAt(view, i).Some? {
          NamedInView(s, view, i, RemovedHeadAt(view, i).value);
        } else {
          SeenAfterIsPushedSince(s, view, i);
        }
      } else if last.reason == FailedChecks {
        LastEjectionExactly(view, i);
        AssessAdmits(Classified(view), optedIn, probe);
      }
    }
  }

  lemma StepKeepsInvariant(s: State, step: Step)
    requires Invariant(s) && Enabled(s, step)
    ensures Invariant(Next(s, step))
  {
    var s' := Next(s, step);
    forall head: Oid, i: nat | DirectReAdd(s'.log, head, i) ensures ReAddAdmissible(s'.log, head, i) {
      if i < |s.log| {
        assert s'.log[..i] == s.log[..i];
        assert DirectReAdd(s.log, head, i);
      } else {
        GuardedReAddAdmissible(s, step.view, step.optedIn, step.probe);
      }
    }
    forall o, j | o in s'.pushes && 0 <= j < |s'.log| ensures InOrder(s'.pushes[o], s'.log, j) {
      if j < |s.log| && o in s.pushes {
        assert InOrder(s.pushes[o], s.log, j);
      }
    }
    forall i: nat | i < |s'.log| && s'.log[i].Add? && s'.log[i].accurate ensures AddJustified(s'.log, i) {
      if i < |s.log| {
        assert AddJustified(s.log, i);
      } else {
        GuardedAddJustified(s, step.view, step.optedIn, step.probe);
      }
    }
  }

  lemma {:induction false} RunKeepsInvariant(run: seq<State>, n: nat)
    requires IsRun(run) && n < |run|
    ensures Invariant(run[n])
  {
    if n == 0 {
    } else {
      RunKeepsInvariant(run, n - 1);
      assert Follows(run[n - 1], run[n]);
      var step {:trigger Enabled(run[n - 1], step)} :| Enabled(run[n - 1], step) && run[n] == Next(run[n - 1], step);
      StepKeepsInvariant(run[n - 1], step);
    }
  }

  /** In every run, each direct re-add of a named head rests on an authority that may clear it. */
  lemma RunsReAddOnlyWithAuthority(run: seq<State>, n: nat, head: Oid, i: nat)
    requires IsRun(run) && n < |run|
    requires DirectReAdd(run[n].log, head, i)
    ensures ReAddAdmissible(run[n].log, head, i)
  {
    RunKeepsInvariant(run, n);
  }

  /**
    In every run, an add admitted on an accurate view is the first queue event or directly follows
    a removal, and is justified: in particular one let in on a new head, after a removal that named
    no other head, is of a head pushed after that removal.
   */
  lemma RunsAddOnlyJustified(run: seq<State>, n: nat, i: nat)
    requires IsRun(run) && n < |run| && i < |run[n].log|
    requires run[n].log[i].Add? && run[n].log[i].accurate
    ensures AddJustified(run[n].log, i)
  {
    RunKeepsInvariant(run, n);
  }

  /** A head pushed after the last removal, whose check suite the view shows, is let in. */
  lemma NewHeadIsAdmitted(s: State, view: PullRequest, k: nat, optedIn: bool, probe: Probe)
    requires Invariant(s) && Faithful(view, s) && Accurate(view, s) && Idle(view)
    requires s.log != [] && s.log[|s.log| - 1].Remove? && !Names(s.log[|s.log| - 1], s.head)
    requires k < |view.nodes| && view.nodes[k].Commit? && view.nodes[k].oid == Some(s.head)
    requires view.nodes[k].suite.Some?
    requires var at := s.log[|s.log| - 1].at; at.Some? && s.pushes[s.head].first > at.value
    ensures Judge(view, false, optedIn, probe)
  {
    LastRemovalIsLogged(view.nodes, s.log);
    var i := LastRemoval(view.nodes).value;
    LogIsBehindRemoval(view.nodes, i, s.log);
    assert ShowsPush(view, s, k);
    JudgeAfterRemoval(view, i, false, optedIn, probe);
    if RemovedHeadAt(view, i).Some? {
      NamedInView(s, view, i, RemovedHeadAt(view, i).value);
    }
  }

  // ---------------------------------------------------------------------------
  // The bound
  // ---------------------------------------------------------------------------

  /** The removals that precede the re-adds are that many named hazards. */
  lemma {:induction false} ReAddsSpendHazards(log: seq<Event>, head: Oid)
    ensures |ReAdds(log, head)| <= |NamedHazards(log, head)|
    ensures log != [] && log[|log| - 1].Add? ==> |NamedHazards(log, head)| == |NamedHazards(log[..|log| - 1], head)|
    ensures log != [] && log[|log| - 1].Remove? && Names(log[|log| - 1], head) && IsHazardReason(log[|log| - 1].reason)
            ==> |ReAdds(log, head)| < |NamedHazards(log, head)|
  {
    if log == [] {
    } else {
      var last := |log| - 1;
      var init := log[..last];
      ReAddsSpendHazards(init, head);
      NamedHazardsSnoc(log, head);
      ReAddsSnoc(log, head);
      if last > 0 {
        assert init[|init| - 1] == log[last - 1];
      }
    }
  }

  lemma ReAddsSnoc(log: seq<Event>, head: Oid)
    requires log != []
    ensures var last := |log| - 1;
            |ReAdds(log, head)| == |ReAdds(log[..last], head)|
                                   + if DirectReAdd(log, head, last) && log[last - 1].reason.FailedChecks? then 1 else 0
  {
    var last := |log| - 1;
    var before := ReAdds(log[..last], head);
    var hit := DirectReAdd(log, head, last) && log[last - 1].reason.FailedChecks?;
    assert forall i: nat | i < last :: DirectReAdd(log, head, i) <==> DirectReAdd(log[..last], head, i);
    assert ReAdds(log, head) == if hit then before + {last} else before;
  }

  /** Every re-add sees at least as many named hazards as re-adds up to it. */
  lemma ReAddSeesEarlierOnes(log: seq<Event>, head: Oid, i: nat)
    requires i in ReAdds(log, head)
    ensures |ReAdds(log[..i + 1], head)| <= |NamedHazards(log[..i], head)|
  {
    ReAddsSpendHazards(log[..i + 1], head);
    assert log[..i + 1][..i] == log[..i];
  }

  /** The latest of the re-adds, when there is one. */
  lemma {:induction false} LatestReAdd(log: seq<Event>, head: Oid, n: nat) returns (i: nat)
    requires n <= |log| && ReAdds(log[..n], head) != {}
    ensures i in ReAdds(log[..n], head)
    ensures ReAdds(log[..i + 1], head) == ReAdds(log[..n], head)
    decreases n
  {
    assert log[..n][..n - 1] == log[..n - 1];
    if n - 1 in ReAdds(log[..n], head) {
      i := n - 1;
    } else {
      assert forall k: nat | k < n - 1 :: DirectReAdd(log[..n], head, k) <==> DirectReAdd(log[..n - 1], head, k);
      assert ReAdds(log[..n], head) == ReAdds(log[..n - 1], head);
      i := LatestReAdd(log, head, n - 1);
    }
  }

  /**
    In every run a head is put back directly after a `failed_checks` removal naming it at most
    twice, and on network evidence at most once.
   */
  lemma SameHeadReAddsAreBounded(run: seq<State>, n: nat, head: Oid)
    requires IsRun(run) && n < |run|
    ensures |ReAdds(run[n].log, head)| <= 2
    ensures |NetworkReAdds(run[n].log, head)| <= 1
  {
    RunKeepsInvariant(run, n);
    var log := run[n].log;
    assert log[..|log|] == log;
    if ReAdds(log, head) != {} {
      var i := LatestReAdd(log, head, |log|);
      ReAddSeesEarlierOnes(log, head, i);
      assert DirectReAdd(log, head, i) && ReAddAdmissible(log, head, i);
    }
    NetworkReAddIsFirst(log, head);
  }

  lemma NetworkReAddIsFirst(log: seq<Event>, head: Oid)
    requires forall i: nat | DirectReAdd(log, head, i) :: ReAddAdmissible(log, head, i)
    ensures |NetworkReAdds(log, head)| <= 1
  {
    var network := NetworkReAdds(log, head);
    forall i, j | i in network && j in network ensures i == j {
      if i < j {
        TwoReAddsTwoHazards(log, head, i, j);
      } else if j < i {
        TwoReAddsTwoHazards(log, head, j, i);
      }
    }
    if network != {} {
      var i :| i in network;
      assert network == {i};
    }
  }

  lemma TwoReAddsTwoHazards(log: seq<Event>, head: Oid, i: nat, j: nat)
    requires i in ReAdds(log, head) && j in ReAdds(log, head) && i < j
    ensures |NamedHazards(log[..j], head)| >= 2
  {
    var pair := {i - 1, j - 1};
    assert log[i].Add? && log[j - 1].Remove?;
    assert |pair| == 2;
    assert pair <= NamedHazards(log[..j], head);
    SubsetSize(pair, NamedHazards(log[..j], head));
  }

  lemma {:induction false} SubsetSize(a: set<nat>, b: set<nat>)
    requires a <= b
    ensures |a| <= |b|
  {
    assert b == a + (b - a);
  }

  // ---------------------------------------------------------------------------
  // The bound is reached
  // ---------------------------------------------------------------------------

  /** Every failing required check was cancelled without ever getting a runner. */
  const STARVED: Probe := Failed([FailedCheck(true, Cancelled, true, None)])

  function Group(oid: Oid, head: Oid): Option<MergeGroup> {
    Some(MergeGroup(Some(oid), [None, Some(head)]))
  }

  function View(head: Oid, nodes: seq<Node>): PullRequest {
    PullRequest(Open, false, false, Some(head), nodes, Some(true))
  }

  /** A starved batch lets a head back in while it has been ejected at most twice. */
  lemma StarvedIsAdmitted(view: PullRequest, i: nat)
    requires Idle(view) && view.complete == Some(true) && view.head.Some?
    requires i + 1 == |view.nodes| && view.nodes[i].Removed? && view.nodes[i].reason.FailedChecks?
    requires RemovedHeadAt(view, i) == view.head
    requires view.nodes[i].group.Some? && view.nodes[i].group.value.oid.Some?
    requires 1 <= |ChargedTo(view, view.head.value, |view.nodes|)| <= INTERRUPTION_REARM_LIMIT
    ensures Judge(view, false, true, STARVED)
  {
    LastRemovalUnique(view.nodes, Some(i));
    var c := Classified(view);
    assert STARVED.checks[0] in STARVED.checks && ShowsInterruption(STARVED.checks[0]);
    AssessAdmits(c, true, STARVED);
  }

  /** A run in which a head is put back directly after a `failed_checks` removal naming it twice. */
  lemma BoundIsReached() returns (run: seq<State>)
    ensures IsRun(run) && |ReAdds(run[|run| - 1].log, 1)| == 2
  {
    var s := State([], 1, map[1 := Push(0, 0)], 0);
    var view := View(1, [Commit(Some(1), None)]);
    FirstAddIsAdmitted(view);
    run := Extend([s], GuardedAdd(view, true, STARVED));
    run := Extend(run, Eject(FailedChecks, None, Group(8, 1)));
    run := PutBackOnce(run);
    run := Extend(run, Eject(FailedChecks, None, Group(9, 1)));
    run := PutBackTwice(run);
    TwoReAdds(run[|run| - 1].log);
  }

  /** The log so far: in, ejected, back in, ejected again, as far as `n`. */
  predicate InAndOut(s: State, n: nat) {
    && s.head == 1 && s.pushes == map[1 := Push(0, 0)] && |s.log| == n <= 5
    && (n > 0 ==> s.log[0].Add? && s.log[0].head == 1)
    && (n > 1 ==> s.log[1] == Remove(FailedChecks, None, Group(8, 1)))
    && (n > 2 ==> s.log[2].Add? && s.log[2].head == 1)
    && (n > 3 ==> s.log[3] == Remove(FailedChecks, None, Group(9, 1)))
    && (n > 4 ==> s.log[4].Add? && s.log[4].head == 1)
  }

  lemma Extend(run: seq<State>, step: Step) returns (longer: seq<State>)
    requires IsRun(run) && Enabled(run[|run| - 1], step)
    ensures IsRun(longer) && longer[|longer| - 1] == Next(run[|run| - 1], step)
  {
    longer := run + [Next(run[|run| - 1], step)];
    assert Follows(run[|run| - 1], longer[|run|]);
  }

  lemma FirstAddIsAdmitted(view: PullRequest)
    requires view == View(1, [Commit(Some(1), None)])
    ensures QueueEvents(view.nodes) == [] && Judge(view, false, true, STARVED)
  {
    LastRemovalUnique(view.nodes, None);
    JudgeExactly(view, false, true, STARVED);
    assert view.nodes[..0] == [];
  }

  lemma PutBackOnce(run: seq<State>) returns (longer: seq<State>)
    requires IsRun(run) && InAndOut(run[|run| - 1], 2)
    ensures IsRun(longer) && InAndOut(longer[|longer| - 1], 3)
  {
    var view := View(1, [Added, Removed(FailedChecks, None, Group(8, 1))]);
    EventsMatch(view.nodes, run[|run| - 1].log);
    OnceEjected(view);
    longer := Extend(run, GuardedAdd(view, true, STARVED));
  }

  lemma PutBackTwice(run: seq<State>) returns (longer: seq<State>)
    requires IsRun(run) && InAndOut(run[|run| - 1], 4)
    ensures IsRun(longer) && InAndOut(longer[|longer| - 1], 5)
  {
    var view := View(1,
      [Added, Removed(FailedChecks, None, Group(8, 1)), Added, Removed(FailedChecks, None, Group(9, 1))]);
    EventsMatch(view.nodes, run[|run| - 1].log);
    TwiceEjected(view);
    longer := Extend(run, GuardedAdd(view, true, STARVED));
  }

  lemma OnceEjected(view: PullRequest)
    requires view == View(1, [Added, Removed(FailedChecks, None, Group(8, 1))])
    ensures Judge(view, false, true, STARVED)
  {
    assert KnownHeads(view.nodes, view.head) == {1};
    assert ChargedTo(view, 1, 2) == {1};
    StarvedIsAdmitted(view, 1);
  }

  lemma TwiceEjected(view: PullRequest)
    requires view == View(1,
             [Added, Removed(FailedChecks, None, Group(8, 1)), Added, Removed(FailedChecks, None, Group(9, 1))])
    ensures Judge(view, false, true, STARVED)
  {
    assert KnownHeads(view.nodes, view.head) == {1};
    assert ChargedTo(view, 1, 4) == {1, 3};
    StarvedIsAdmitted(view, 3);
  }

  lemma TwoReAdds(log: seq<Event>)
    requires InAndOut(State(log, 1, map[1 := Push(0, 0)], 0), 5)
    ensures |ReAdds(log, 1)| == 2
  {
    assert DirectReAdd(log, 1, 2) && DirectReAdd(log, 1, 4);
    assert ReAdds(log, 1) == {2, 4};
  }

  lemma {:induction false} EventsMatch(nodes: seq<Node>, log: seq<Event>)
    requires |nodes| == |log| && forall i | 0 <= i < |log| :: nodes[i] == AsNode(log[i])
    ensures QueueEvents(nodes) == LogNodes(log)
  {
    if |log| == 0 {
    } else {
      EventsMatch(nodes[..|log| - 1], log[..|log| - 1]);
    }
  }
}
