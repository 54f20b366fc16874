/**
  GitHub answers only the last hundred timeline items. Reading such a suffix instead of the whole
  timeline never loosens the queue-arm guard as long as the window still holds a removal.
 */
module QueueTruncation {
  import opened Wrappers
  import opened QueueTimeline
  import opened QueueGuard

  /** The pull request whose timeline is `hidden` followed by what the window shows. */
  function Whole(hidden: seq<Node>, window: PullRequest): PullRequest {
    window.(nodes := hidden + window.nodes, complete := Some(true))
  }

  lemma KnownHeadsGrow(hidden: seq<Node>, window: PullRequest)
    ensures KnownHeads(window.nodes, window.head) <= KnownHeads(hidden + window.nodes, window.head)
  {
    forall node | node in window.nodes ensures node in hidden + window.nodes {
      var k :| 0 <= k < |window.nodes| && window.nodes[k] == node;
      assert (hidden + window.nodes)[|hidden| + k] == node;
    }
  }

  /** A head that only the whole timeline knows is never the current one. */
  lemma RemovedHeadWidens(group: Option<MergeGroup>, few: set<Oid>, many: set<Oid>, head: Oid)
    requires few <= many && head in few
    ensures RemovedHead(group, few).Some? ==> RemovedHead(group, many).Some?
    ensures RemovedHead(group, few).Some? && RemovedHead(group, few).value != head ==>
            RemovedHead(group, many).value != head
    ensures RemovedHead(group, few).None? && RemovedHead(group, many).Some? ==> RemovedHead(group, many).value != head
  {
  }

  lemma LastRemovalShifts(hidden: seq<Node>, nodes: seq<Node>)
    requires HoldsRemoval(nodes)
    ensures LastRemoval(nodes).Some?
    ensures LastRemoval(hidden + nodes) == Some(|hidden| + LastRemoval(nodes).value)
  {
    var last := LastRemoval(nodes);
    LastRemovalUnique(nodes, last);
    ShiftedRemoval(hidden, nodes, last.value);
  }

  lemma ShiftedRemoval(hidden: seq<Node>, nodes: seq<Node>, last: nat)
    requires last < |nodes| && nodes[last].Removed?
    requires forall k | last < k < |nodes| :: !nodes[k].Removed?
    ensures LastRemoval(hidden + nodes) == Some(|hidden| + last)
  {
    var all := hidden + nodes;
    assert all[|hidden| + last] == nodes[last];
    forall k | |hidden| + last < k < |all| ensures !all[k].Removed? {
      assert all[k] == nodes[k - |hidden|];
    }
    LastRemovalUnique(all, Some(|hidden| + last));
  }

  lemma NewHeadSurvives(hidden: seq<Node>, window: PullRequest)
    requires HoldsRemoval(window.nodes)
    requires LastEjection(window).Some? && LastEjection(window).value.newHead
    ensures LastEjection(Whole(hidden, window)).Some? && LastEjection(Whole(hidden, window)).value.newHead
  {
    LastRemovalShifts(hidden, window.nodes);
    KnownHeadsGrow(hidden, window);
    var i := LastRemoval(window.nodes).value;
    var all := hidden + window.nodes;
    assert all[|hidden| + i] == window.nodes[i];
    var head := window.head.value;
    RemovedHeadWidens(window.nodes[i].group, KnownHeads(window.nodes, window.head), KnownHeads(all, window.head), head);
    if PushedAfter(window.nodes, i, head) {
      var k :| i < k < |window.nodes| && Pushes(window.nodes[k], head);
      assert all[|hidden| + k] == window.nodes[k];
      assert PushedAfter(all, |hidden| + i, head);
    }
    if window.nodes[i].at.Some? && SuiteAfter(window.nodes, head, window.nodes[i].at.value) {
      assert forall node | node in window.nodes :: node in all;
      assert SuiteAfter(all, head, window.nodes[i].at.value);
    }
  }

  /** Reading a truncated window that holds a removal admits nothing the whole timeline refuses. */
  lemma TruncationNeverLoosens(hidden: seq<Node>, window: PullRequest, certified: bool, optedIn: bool, probe: Probe)
    requires window.complete != Some(true)
    requires HoldsRemoval(window.nodes)
    requires Judge(window, certified, optedIn, probe)
    ensures Judge(Whole(hidden, window), certified, optedIn, probe)
  {
    EjectionSurvives(hidden, window);
    if LastEjection(window).Some? && LastEjection(window).value.newHead {
      NewHeadSurvives(hidden, window);
    }
  }

  /** The last ejection, and its reason, are read the same from the window. */
  lemma EjectionSurvives(hidden: seq<Node>, window: PullRequest)
    requires HoldsRemoval(window.nodes)
    ensures LastEjection(Whole(hidden, window)).Some? <==> LastEjection(window).Some?
    ensures LastEjection(window).Some? ==>
            LastEjection(Whole(hidden, window)).value.reason == LastEjection(window).value.reason
    ensures HoldsRemoval(hidden + window.nodes)
  {
    LastRemovalShifts(hidden, window.nodes);
    var i := LastRemoval(window.nodes).value;
    assert (hidden + window.nodes)[|hidden| + i] == window.nodes[i];
  }

  /** An older ejection of the head, just outside a window that shows no removal. */
  lemma HiddenEjectionRefuses(window: PullRequest, certified: bool, optedIn: bool, probe: Probe)
    requires !HoldsRemoval(window.nodes) && Idle(window)
    ensures var hidden := [Removed(OtherReason, None, Some(MergeGroup(window.head, [])))];
            !Judge(Whole(hidden, window), certified, optedIn, probe)
  {
    var hidden := [Removed(OtherReason, None, Some(MergeGroup(window.head, [])))];
    var all := hidden + window.nodes;
    forall k | 0 < k < |all| ensures !all[k].Removed? {
      assert all[k] == window.nodes[k - 1];
      assert all[k] in window.nodes;
    }
    LastRemovalUnique(all, Some(0));
    if window.head.None? {
      assert !NewHeadSince(all, 0, RemovedHeadAt(Whole(hidden, window), 0), window.head).0;
    } else {
      assert window.head.value in KnownHeads(all, window.head);
    }
  }

  /** The whole timeline is refused for some hidden part, so a window that admits is not to be trusted. */
  lemma IdleWindowIsUnsafe(window: PullRequest, certified: bool, optedIn: bool, probe: Probe)
    requires Idle(window) && !HoldsRemoval(window.nodes) && Judge(window, certified, optedIn, probe)
    ensures exists hidden :: !Judge(Whole(hidden, window), certified, optedIn, probe)
  {
    HiddenEjectionRefuses(window, certified, optedIn, probe);
  }

  /**
    Exactly when a window that is not known to be complete can be trusted: whatever GitHub left
    out, an admission by the window stands for the whole timeline iff the window holds a removal,
    or could not admit the pull request in the first place because it is not idle, or because it
    is known to be cut off and shows no push either.
   */
  lemma TruncationSafeExactly(window: PullRequest, certified: bool, optedIn: bool, probe: Probe)
    requires window.complete != Some(true)
    ensures (forall hidden ::
               Judge(window, certified, optedIn, probe) ==> Judge(Whole(hidden, window), certified, optedIn, probe))
            <==>
            || HoldsRemoval(window.nodes) || !Idle(window)
            || (window.complete == Some(false) && !HoldsPush(window.nodes))
  {
    if HoldsRemoval(window.nodes) {
      forall hidden | Judge(window, certified, optedIn, probe)
        ensures Judge(Whole(hidden, window), certified, optedIn, probe)
      {
        TruncationNeverLoosens(hidden, window, certified, optedIn, probe);
      }
    } else {
      LastRemovalUnique(window.nodes, None);
      JudgeExactly(window, certified, optedIn, probe);
      if Judge(window, certified, optedIn, probe) {
        IdleWindowIsUnsafe(window, certified, optedIn, probe);
      }
    }
  }

  /** A window of unreadable completeness that shows nothing at all is admitted all the same. */
  lemma UnreadableWindowIsAdmitted(head: Oid, certified: bool, optedIn: bool, probe: Probe)
    ensures var window := PullRequest(Open, false, false, Some(head), [], None);
            && Judge(window, certified, optedIn, probe)
            && exists hidden :: !Judge(Whole(hidden, window), certified, optedIn, probe)
  {
    var window := PullRequest(Open, false, false, Some(head), [], None);
    LastRemovalUnique(window.nodes, None);
    JudgeExactly(window, certified, optedIn, probe);
    IdleWindowIsUnsafe(window, certified, optedIn, probe);
  }
}
