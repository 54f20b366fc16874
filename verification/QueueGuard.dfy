/**
  The queue-arm decision of scripts/ghapp_queue_arm_guard.py: when an arm or an enqueue of a
  classified pull request is admitted, and the evidence a same-head re-enqueue needs.

  What the GitHub API answers about the ejecting batch is an input (`Probe`).
 */
module QueueGuard {
  import opened Wrappers
  import opened QueueTimeline

  const INTERRUPTION_REARM_LIMIT: nat := 2

  /** What reading one failing step's log found. */
  datatype Reading = Environment | Interruption | NoSignature | NotLocated

  datatype Conclusion = Failure | Cancelled | OtherConclusion

  /** A required check that failed on the merge-group commit; `steps` is `None` when no log was read. */
  datatype FailedCheck = FailedCheck(
    actionsJob: bool,
    conclusion: Conclusion,
    starved: bool,
    steps: Option<seq<Reading>>)

  /** What could be read about the merge-group commit's required checks. */
  datatype Probe = Unreadable | Failed(checks: seq<FailedCheck>)

  datatype Assessment = Refused | Network | Interrupted

  /** The readings one failed check contributes; `None` refuses outright. */
  function CheckReadings(check: FailedCheck): Option<seq<Reading>> {
    if !check.actionsJob then None
    else if check.conclusion.Cancelled? then Some([if check.starved then Interruption else NoSignature])
    else if !check.conclusion.Failure? || check.steps.None? || check.steps.value == [] then None
    else check.steps
  }

  function Evidence(checks: seq<FailedCheck>): Option<seq<Reading>> {
    if checks == [] then
      Some([])
    else
      var rest := Evidence(checks[..|checks| - 1]);
      var last := CheckReadings(checks[|checks| - 1]);
      if rest.None? || last.None? then None else Some(rest.value + last.value)
  }

  method ReadEvidence(checks: seq<FailedCheck>) returns (evidence: Option<seq<Reading>>)
    ensures evidence == Evidence(checks)
  {
    var readings := [];
    for i := 0 to |checks|
      invariant Evidence(checks[..i]) == Some(readings)
    {
      assert checks[..i + 1][..i] == checks[..i];
      var found := CheckReadings(checks[i]);
      if found.None? {
        EvidenceRefused(checks, i + 1);
        return None;
      }
      readings := readings + found.value;
    }
    assert checks[..|checks|] == checks;
    evidence := Some(readings);
  }

  lemma {:induction false} EvidenceRefused(checks: seq<FailedCheck>, n: nat)
    requires n <= |checks| && Evidence(checks[..n]).None?
    ensures Evidence(checks).None?
    decreases |checks| - n
  {
    if n == |checks| {
      assert checks[..n] == checks;
    } else {
      assert checks[..n + 1][..n] == checks[..n];
      EvidenceRefused(checks, n + 1);
    }
  }

  predicate Explains(reading: Reading) {
    reading.Environment? || reading.Interruption?
  }

  /** `None` when the environment rule does not apply to this classification at all. */
  function Assess(c: Classification, optedIn: bool, probe: Probe): Option<Assessment> {
    if !c.class_.Ejected? || c.class_.newHead || !c.class_.reason.FailedChecks? then
      None
    else if !optedIn || c.complete != Some(true) then
      Some(Refused)
    else if c.ejections < 1 || c.ejections > INTERRUPTION_REARM_LIMIT then
      Some(Refused)
    else if c.lastEjection.None? || c.lastEjection.value.groupCommit.None? then
      Some(Refused)
    else if probe.Unreadable? || probe.checks == [] then
      Some(Refused)
    else
      var evidence := Evidence(probe.checks);
      if evidence.None? || exists r | r in evidence.value :: !Explains(r) then Some(Refused)
      else if Interruption in evidence.value then Some(Interrupted)
      else if c.ejections != 1 then Some(Refused)
      else Some(Network)
  }

  /** Whether the request is admitted; `certified` is a batch attributor's ruling. */
  predicate Decide(c: Classification, certified: bool, environment: Option<Assessment>) {
    match c.class_
    case NeverArmed => true
    case Ejected(reason, newHead) =>
      || newHead
      || reason.InvalidMergeCommit?
      || (certified && reason.FailedChecks?)
      || (environment.Some? && !environment.value.Refused? && reason.FailedChecks?)
    case _ => false
  }

  /** The environment rule is consulted only when no attributor certified the batch. */
  predicate Judge(pr: PullRequest, certified: bool, optedIn: bool, probe: Probe) {
    var c := Classified(pr);
    Decide(c, certified, if certified then None else Assess(c, optedIn, probe))
  }

  // ---------------------------------------------------------------------------
  // What an admitted environment re-enqueue means
  // ---------------------------------------------------------------------------

  /** Every failing check is explained by its own log or by starvation. */
  predicate Explained(check: FailedCheck) {
    && check.actionsJob
    && (check.conclusion.Cancelled? ==> check.starved)
    && (!check.conclusion.Cancelled? ==>
          && check.conclusion.Failure?
          && check.steps.Some?
          && check.steps.value != []
          && forall r | r in check.steps.value :: r == Environment || r == Interruption)
  }

  predicate ShowsInterruption(check: FailedCheck) {
    check.conclusion.Cancelled? || (check.steps.Some? && Interruption in check.steps.value)
  }

  lemma {:induction false} EvidenceMeaning(checks: seq<FailedCheck>)
    ensures (Evidence(checks).Some? && forall r | r in Evidence(checks).value :: Explains(r))
            <==> forall check | check in checks :: Explained(check)
    ensures (forall check | check in checks :: Explained(check)) ==>
              (Interruption in Evidence(checks).value <==> exists check | check in checks :: ShowsInterruption(check))
  {
    if checks == [] {
    } else {
      var init, last := checks[..|checks| - 1], checks[|checks| - 1];
      EvidenceMeaning(init);
      assert checks == init + [last];
      var lastOnly := CheckReadings(last);
      assert last.actionsJob && last.conclusion.Cancelled? && !last.starved ==> NoSignature in lastOnly.value;
      assert Explained(last) <==> lastOnly.Some? && forall r | r in lastOnly.value :: Explains(r);
      assert Explained(last) ==> (Interruption in lastOnly.value <==> ShowsInterruption(last));
    }
  }

  /**
    The environment rule admits exactly an opted-in, fully visible, at most second ejection of
    this head whose every failing required check is explained, and a second one only when some
    check was interrupted rather than cut off from the network.
   */
  lemma AssessAdmits(c: Classification, optedIn: bool, probe: Probe)
    requires c.class_.Ejected? && !c.class_.newHead && c.class_.reason.FailedChecks?
    ensures Assess(c, optedIn, probe).Some?
    ensures Assess(c, optedIn, probe) != Some(Refused) <==>
            && optedIn
            && c.complete == Some(true)
            && 1 <= c.ejections <= INTERRUPTION_REARM_LIMIT
            && c.lastEjection.Some? && c.lastEjection.value.groupCommit.Some?
            && probe.Failed? && probe.checks != []
            && (forall check | check in probe.checks :: Explained(check))
            && (c.ejections == 1 || exists check | check in probe.checks :: ShowsInterruption(check))
    ensures Assess(c, optedIn, probe) == Some(Network) ==> c.ejections == 1
  {
    if probe.Failed? {
      EvidenceMeaning(probe.checks);
    }
  }

  /** Open, outside the queue and unarmed: the states in which an add is possible at all. */
  predicate Idle(pr: PullRequest) {
    pr.state.Open? && !pr.inQueue && !pr.autoMerge
  }

  /** The `failed_checks` ejection at `i` is one of this head that its evidence clears. */
  ghost predicate Cleared(pr: PullRequest, i: nat, optedIn: bool, probe: Probe)
    requires i < |pr.nodes| && pr.nodes[i].Removed?
  {
    var ejections := if pr.head.Some? then |ChargedTo(pr, pr.head.value, |pr.nodes|)| else 0;
    && optedIn
    && pr.complete == Some(true)
    && 1 <= ejections <= 2
    && pr.nodes[i].group.Some? && pr.nodes[i].group.value.oid.Some?
    && probe.Failed? && probe.checks != []
    && (forall check | check in probe.checks :: Explained(check))
    && (ejections == 1 || exists check | check in probe.checks :: ShowsInterruption(check))
  }

  /** The last removal, at `i`, does not stand in the way. */
  ghost predicate Passable(pr: PullRequest, i: nat, certified: bool, optedIn: bool, probe: Probe)
    requires i < |pr.nodes| && pr.nodes[i].Removed?
  {
    || pr.nodes[i].reason == MergedReason
    || HasNewHead(pr, i)
    || pr.nodes[i].reason == InvalidMergeCommit
    || (pr.nodes[i].reason == FailedChecks && (certified || Cleared(pr, i, optedIn, probe)))
  }

  /**
    Exactly what the guard admits. A pull request must be idle. If it was ever removed, the last
    removal must be a merge, of another head, GitHub's own failure to merge, or a `failed_checks`
    ejection that an attributor certified or the evidence clears. If not, the timeline must not be
    a truncated window that shows nothing at all.
   */
  lemma JudgeExactly(pr: PullRequest, certified: bool, optedIn: bool, probe: Probe)
    ensures Judge(pr, certified, optedIn, probe) <==>
            && Idle(pr)
            && if HoldsRemoval(pr.nodes)
               then exists i | IsLastRemoval(pr.nodes, i) :: Passable(pr, i, certified, optedIn, probe)
               else pr.complete != Some(false) || HoldsPush(pr.nodes)
  {
    if HoldsRemoval(pr.nodes) {
      var i := LastOf(pr.nodes);
      JudgeAfterRemoval(pr, i, certified, optedIn, probe);
    } else {
      NeverEjected(pr);
    }
  }

  lemma LastOf(nodes: seq<Node>) returns (i: nat)
    requires HoldsRemoval(nodes)
    ensures IsLastRemoval(nodes, i) && forall k: nat | IsLastRemoval(nodes, k) :: k == i
  {
    var node :| node in nodes && node.Removed?;
    var last := LastRemoval(nodes);
    i := last.value;
  }

  lemma JudgeAfterRemoval(pr: PullRequest, i: nat, certified: bool, optedIn: bool, probe: Probe)
    requires IsLastRemoval(pr.nodes, i)
    ensures Judge(pr, certified, optedIn, probe) <==> Idle(pr) && Passable(pr, i, certified, optedIn, probe)
  {
    LastEjectionExactly(pr, i);
    var c := Classified(pr);
    assert pr.nodes[i] in pr.nodes;
    if c.class_.Ejected? && !c.class_.newHead && c.class_.reason.FailedChecks? {
      AssessAdmits(c, optedIn, probe);
    }
  }
}
