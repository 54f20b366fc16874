/**
  Landing a rollup, from scripts/ghapp_queue_arm_guard.py: a branch whose first-parent chain only
  merges the approved heads of member pull requests.

  Which open pull request has a given head, and whether its review counts, are inputs. The base
  may have moved from `base` to `tip` since it was compared with the head.
 */
module Rollup {
  import opened Wrappers
  import opened Glob
  import opened CarryPolicy
  import opened CommitGraph
  import opened MergeCarry
  import opened RollupTrees

  /** A merge on the rollup's chain and the member head it merged. */
  datatype Link = Link(merge: Sha, head: Sha)

  datatype Request = Request(
    api: Api,
    tables: Tables,
    base: Sha,
    tip: Sha,
    head: Sha,
    maxMembers: nat,
    excludePaths: seq<string>,
    carryExcluded: seq<string>,
    hotFiles: seq<string>,
    memberOf: Sha -> Option<nat>,
    reviewed: (nat, Sha) -> bool)

  // ---------------------------------------------------------------------------
  // The chain
  // ---------------------------------------------------------------------------

  /** The links from `baseSha` up to `sha`, oldest first. */
  function Links(q: Request, baseSha: Sha, sha: Sha, budget: nat): (links: Option<seq<Link>>)
    ensures links.Some? ==> |links.value| <= budget
    decreases budget
  {
    if sha == baseSha then
      Some([])
    else if budget == 0 || |q.api.parents(sha)| != 2 then
      None
    else
      var rest := Links(q, baseSha, q.api.parents(sha)[0], budget - 1);
      if rest.Some? then Some(rest.value + [Link(sha, q.api.parents(sha)[1])]) else None
  }

  method WalkLinks(q: Request, baseSha: Sha) returns (links: Option<seq<Link>>)
    ensures links == Links(q, baseSha, q.head, q.maxMembers)
  {
    var found: seq<Link> := [];
    var sha := q.head;
    assert forall some: seq<Link> :: some + found == some;
    while sha != baseSha
      invariant |found| <= q.maxMembers
      invariant var rest := Links(q, baseSha, sha, q.maxMembers - |found|);
                Links(q, baseSha, q.head, q.maxMembers) == if rest.Some? then Some(rest.value + found) else None
      decreases q.maxMembers - |found|
    {
      if |found| == q.maxMembers || |q.api.parents(sha)| != 2 {
        return None;
      }
      ghost var rest := Links(q, baseSha, q.api.parents(sha)[0], q.maxMembers - |found| - 1);
      var link := Link(sha, q.api.parents(sha)[1]);
      assert rest.Some? ==> rest.value + [link] + found == rest.value + ([link] + found);
      found := [link] + found;
      sha := q.api.parents(sha)[0];
    }
    assert [] + found == found;
    links := Some(found);
  }

  // ---------------------------------------------------------------------------
  // The members
  // ---------------------------------------------------------------------------

  function Own(q: Request, baseSha: Sha, link: Link): Option<Comparison> {
    q.api.compare(baseSha, link.head)
  }

  function OwnFiles(q: Request, baseSha: Sha, link: Link): Files {
    if Own(q, baseSha, link).Some? then Own(q, baseSha, link).value.files else map[]
  }

  function OwnedBy(paths: set<string>, member: Option<nat>): map<string, Option<nat>> {
    map path | path in paths :: member
  }

  /** Which member touches each path, over the first `n` links. */
  function Seen(q: Request, baseSha: Sha, links: seq<Link>, n: nat): map<string, Option<nat>>
    requires n <= |links|
  {
    if n == 0 then map[]
    else
      Seen(q, baseSha, links, n - 1)
      + OwnedBy(Touched(OwnFiles(q, baseSha, links[n - 1])), q.memberOf(links[n - 1].head))
  }

  function Expected(q: Request, baseSha: Sha, links: seq<Link>, n: nat): Files
    requires n <= |links|
  {
    if n == 0 then map[] else Expected(q, baseSha, links, n - 1) + OwnFiles(q, baseSha, links[n - 1])
  }

  function Previous(baseSha: Sha, links: seq<Link>, k: nat): Sha
    requires k < |links|
  {
    if k == 0 then baseSha else links[k - 1].merge
  }

  /** The member's files are its own, on a base that left them alone, and the merge changed just them. */
  predicate OwnOk(q: Request, baseSha: Sha, own: Option<Comparison>, step: Option<Comparison>, taken: set<string>) {
    && Whole(own)
    && Touched(own.value.files) !! taken
    && BaseUntouched(q.api, own.value.mergeBase, baseSha, Touched(own.value.files))
    && Whole(step)
    && SameChange(own.value.files, step.value.files)
  }

  /** No earlier link merged the same pull request. */
  predicate FirstMerge(q: Request, links: seq<Link>, k: nat)
    requires k < |links|
  {
    forall j | 0 <= j < k :: q.memberOf(links[j].head) != q.memberOf(links[k].head)
  }

  /** Link `k` merges a reviewed member whose files are its own and unchanged by the merge. */
  predicate LinkOk(q: Request, baseSha: Sha, links: seq<Link>, k: nat)
    requires k < |links|
  {
    var link := links[k];
    var member := q.memberOf(link.head);
    var own := Own(q, baseSha, link);
    var step := q.api.compare(Previous(baseSha, links, k), link.merge);
    && member.Some?
    && FirstMerge(q, links, k)
    && q.reviewed(member.value, link.head)
    && OwnOk(q, baseSha, own, step, Seen(q, baseSha, links, k).Keys)
  }

  predicate LinksOk(q: Request, baseSha: Sha, links: seq<Link>, n: nat)
    requires n <= |links|
  {
    forall k | 0 <= k < n :: LinkOk(q, baseSha, links, k)
  }

  /** At most one member touches a path that a hot glob matches. */
  predicate HotOk(q: Request, seen: map<string, Option<nat>>) {
    forall pattern, a, b | pattern in q.hotFiles && a in seen && b in seen ::
      GlobMatch(pattern, a) && GlobMatch(pattern, b) ==> seen[a] == seen[b]
  }

  predicate MemberModesOk(q: Request, union: Files, baseSha: Sha, link: Link) {
    var names := Touched(OwnFiles(q, baseSha, link)) * Present(union);
    names != {} ==>
      && q.api.modes(q.head).Some? && q.api.modes(link.head).Some?
      && SameModes(names, q.api.modes(q.head).value, q.api.modes(link.head).value)
  }

  /** What is checked once the links are known: the head as a whole, then the current tip. */
  predicate HeadOk(q: Request, union: Files, baseSha: Sha, links: seq<Link>, seen: map<string, Option<nat>>,
                   expected: Files)
  {
    && SameChange(expected, union)
    && !CarryExcluded(q.tables, seen.Keys, q.excludePaths)
    && !CarryExcluded(q.tables, seen.Keys, q.carryExcluded)
    && HotOk(q, seen)
    && (Present(union) != {} ==> q.api.modes(q.head).Some?)
    && (forall k | 0 <= k < |links| :: MemberModesOk(q, union, baseSha, links[k]))
    && BaseUntouched(q.api, baseSha, q.tip, seen.Keys)
  }

  /** The rollup is accepted with these links. */
  predicate AcceptedWith(q: Request, baseSha: Sha, links: seq<Link>) {
    var union := q.api.compare(q.base, q.head);
    && Whole(union)
    && baseSha == union.value.mergeBase
    && Links(q, baseSha, q.head, q.maxMembers) == Some(links)
    && links != []
    && LinksOk(q, baseSha, links, |links|)
    && HeadOk(q, union.value.files, baseSha, links, Seen(q, baseSha, links, |links|),
              Expected(q, baseSha, links, |links|))
  }

  method RollupAcceptance(q: Request) returns (accepted: Option<(Sha, seq<Link>)>)
    ensures accepted.Some? ==> AcceptedWith(q, accepted.value.0, accepted.value.1)
    ensures accepted.None? ==> forall baseSha, links :: !AcceptedWith(q, baseSha, links)
  {
    var union := q.api.compare(q.base, q.head);
    if !Whole(union) {
      return None;
    }
    var baseSha := union.value.mergeBase;
    var chain := WalkLinks(q, baseSha);
    if chain.None? || chain.value == [] {
      return None;
    }
    var links := chain.value;
    var joined, seen, expected := JoinMembers(q, baseSha, links);
    if !joined || !HeadOk(q, union.value.files, baseSha, links, seen, expected) {
      return None;
    }
    accepted := Some((baseSha, links));
  }

  /** Takes the links in order and stops at the first one refused. */
  method JoinMembers(q: Request, baseSha: Sha, links: seq<Link>)
    returns (ok: bool, seen: map<string, Option<nat>>, expected: Files)
    ensures ok == LinksOk(q, baseSha, links, |links|)
    ensures ok ==> seen == Seen(q, baseSha, links, |links|) && expected == Expected(q, baseSha, links, |links|)
  {
    ok, seen, expected := true, map[], map[];
    var previous := baseSha;
    for k := 0 to |links|
      invariant ok && LinksOk(q, baseSha, links, k)
      invariant seen == Seen(q, baseSha, links, k) && expected == Expected(q, baseSha, links, k)
      invariant k < |links| ==> previous == Previous(baseSha, links, k)
    {
      ok, seen, expected := JoinMember(q, baseSha, links, k, previous, seen, expected);
      if !ok {
        return;
      }
      previous := links[k].merge;
    }
  }

  method JoinMember(q: Request, baseSha: Sha, links: seq<Link>, k: nat, previous: Sha,
                    seen: map<string, Option<nat>>, expected: Files)
    returns (ok: bool, seen': map<string, Option<nat>>, expected': Files)
    requires k < |links| && LinksOk(q, baseSha, links, k) && previous == Previous(baseSha, links, k)
    requires seen == Seen(q, baseSha, links, k) && expected == Expected(q, baseSha, links, k)
    ensures ok == LinksOk(q, baseSha, links, k + 1)
    ensures !ok ==> !LinksOk(q, baseSha, links, |links|)
    ensures ok ==> seen' == Seen(q, baseSha, links, k + 1) && expected' == Expected(q, baseSha, links, k + 1)
  {
    var link := links[k];
    var member := q.memberOf(link.head);
    LinksOkStep(q, baseSha, links, k);
    if member.None? || !FirstMerge(q, links, k) || !q.reviewed(member.value, link.head) {
      return false, seen, expected;
    }
    ok := OwnOk(q, baseSha, Own(q, baseSha, link), q.api.compare(previous, link.merge), seen.Keys);
    seen' := seen + OwnedBy(Touched(OwnFiles(q, baseSha, links[k])), q.memberOf(links[k].head));
    expected' := expected + OwnFiles(q, baseSha, links[k]);
  }

  lemma LinksOkStep(q: Request, baseSha: Sha, links: seq<Link>, k: nat)
    requires k < |links| && LinksOk(q, baseSha, links, k)
    ensures LinkOk(q, baseSha, links, k) <==> LinksOk(q, baseSha, links, k + 1)
    ensures !LinkOk(q, baseSha, links, k) ==> !LinksOk(q, baseSha, links, |links|)
  {
  }

  // ---------------------------------------------------------------------------
  // Members change disjoint paths
  // ---------------------------------------------------------------------------

  function TouchedBy(q: Request, baseSha: Sha, links: seq<Link>, k: nat): set<string>
    requires k < |links|
  {
    Touched(OwnFiles(q, baseSha, links[k]))
  }

  lemma {:induction false} SeenHolds(q: Request, baseSha: Sha, links: seq<Link>, n: nat, k: nat)
    requires k < n <= |links|
    ensures TouchedBy(q, baseSha, links, k) <= Seen(q, baseSha, links, n).Keys
  {
    if k >= n - 1 {
    } else {
      SeenHolds(q, baseSha, links, n - 1, k);
    }
  }

  lemma {:induction false} SeenOwner(q: Request, baseSha: Sha, links: seq<Link>, n: nat, path: string) returns (k: nat)
    requires n <= |links| && path in Seen(q, baseSha, links, n)
    ensures k < n && path in TouchedBy(q, baseSha, links, k)
    ensures Seen(q, baseSha, links, n)[path] == q.memberOf(links[k].head)
  {
    if path in TouchedBy(q, baseSha, links, n - 1) {
      k := n - 1;
    } else {
      k := SeenOwner(q, baseSha, links, n - 1, path);
    }
  }

  /** No two members of an accepted rollup touch a common path. */
  lemma MembersAreDisjoint(q: Request, baseSha: Sha, links: seq<Link>, j: nat, k: nat)
    requires LinksOk(q, baseSha, links, |links|) && j < k < |links|
    ensures TouchedBy(q, baseSha, links, j) !! TouchedBy(q, baseSha, links, k)
  {
    SeenHolds(q, baseSha, links, k, j);
    assert LinkOk(q, baseSha, links, k);
  }

  lemma SeenNames(q: Request, baseSha: Sha, links: seq<Link>, k: nat, path: string)
    requires LinksOk(q, baseSha, links, |links|) && k < |links| && path in TouchedBy(q, baseSha, links, k)
    ensures path in Seen(q, baseSha, links, |links|)
    ensures Seen(q, baseSha, links, |links|)[path] == q.memberOf(links[k].head)
  {
    SeenHolds(q, baseSha, links, |links|, k);
    var i := SeenOwner(q, baseSha, links, |links|, path);
    if i < k {
      MembersAreDisjoint(q, baseSha, links, i, k);
    } else if k < i {
      MembersAreDisjoint(q, baseSha, links, k, i);
    }
  }

  // ---------------------------------------------------------------------------
  // What lands
  // ---------------------------------------------------------------------------

  /** The commits an accepted rollup was read from are in the repository. */
  lemma RollupCommits(r: Repo, q: Request, baseSha: Sha, links: seq<Link>, k: nat)
    requires Truthful(r, q.api) && AcceptedWith(q, baseSha, links) && k < |links|
    ensures baseSha in r && q.head in r && links[k].head in r
    ensures var own := Own(q, baseSha, links[k]);
            && own.Some? && own.value.mergeBase in r
            && Ancestor(r, own.value.mergeBase, baseSha)
            && Lists(r[own.value.mergeBase].tree, r[links[k].head].tree, own.value.files)
    ensures Ancestor(r, baseSha, q.base)
    ensures Lists(r[baseSha].tree, r[q.head].tree, q.api.compare(q.base, q.head).value.files)
  {
    assert TruthfulComparison(r, q.base, q.head, q.api.compare(q.base, q.head).value);
    assert LinkOk(q, baseSha, links, k);
    assert TruthfulComparison(r, baseSha, links[k].head, Own(q, baseSha, links[k]).value);
  }

  function TreeAt(r: Repo, c: Sha): Tree {
    if c in r then r[c].tree else map[]
  }

  /** The approved change of the member that `link` merged. */
  function MemberAt(r: Repo, q: Request, baseSha: Sha, link: Link): Member {
    var own := Own(q, baseSha, link);
    Member(if own.Some? then TreeAt(r, own.value.mergeBase) else map[],
           TreeAt(r, link.head),
           OwnFiles(q, baseSha, link))
  }

  function Members(r: Repo, q: Request, baseSha: Sha, links: seq<Link>): (members: seq<Member>)
    ensures |members| == |links|
    ensures forall k | 0 <= k < |links| :: members[k] == MemberAt(r, q, baseSha, links[k])
  {
    if links == [] then []
    else Members(r, q, baseSha, links[..|links| - 1]) + [MemberAt(r, q, baseSha, links[|links| - 1])]
  }

  lemma {:induction false} ExpectedIsCombined(r: Repo, q: Request, baseSha: Sha, links: seq<Link>, n: nat)
    requires n <= |links|
    ensures Expected(q, baseSha, links, n) == Combined(Members(r, q, baseSha, links[..n]))
  {
    if n == 0 {
    } else {
      ExpectedIsCombined(r, q, baseSha, links, n - 1);
      MembersSnoc(r, q, baseSha, links, n - 1);
      CombinedGrows(Members(r, q, baseSha, links[..n - 1]), MemberAt(r, q, baseSha, links[n - 1]),
                    Members(r, q, baseSha, links[..n]));
    }
  }

  lemma MembersSnoc(r: Repo, q: Request, baseSha: Sha, links: seq<Link>, n: nat)
    requires n < |links|
    ensures Members(r, q, baseSha, links[..n + 1]) ==
            Members(r, q, baseSha, links[..n]) + [MemberAt(r, q, baseSha, links[n])]
  {
    assert links[..n + 1][..n] == links[..n];
  }

  lemma CombinedGrows(members: seq<Member>, last: Member, longer: seq<Member>)
    requires longer == members + [last]
    ensures Combined(longer) == Combined(members) + last.files
  {
    assert longer[..|members|] == members;
  }

  lemma MemberFitsRollup(r: Repo, q: Request, baseSha: Sha, links: seq<Link>, k: nat)
    requires Truthful(r, q.api) && AcceptedWith(q, baseSha, links) && k < |links|
    ensures baseSha in r && q.head in r
    ensures MemberFits(r[baseSha].tree, r[q.head].tree, MemberAt(r, q, baseSha, links[k]))
  {
    RollupCommits(r, q, baseSha, links, k);
    assert LinkOk(q, baseSha, links, k);
    var own := Own(q, baseSha, links[k]).value;
    forall path | path in Touched(own.files) ensures At(r[own.mergeBase].tree, path) == At(r[baseSha].tree, path) {
      BaseKeptPath(r, q.api, own.mergeBase, baseSha, Touched(own.files), path);
    }
    forall name | name in own.files && name in r[links[k].head].tree && name in r[q.head].tree
      ensures r[links[k].head].tree[name].mode == r[q.head].tree[name].mode
    {
      MemberModeKept(r, q, baseSha, links, k, name);
    }
  }

  lemma MemberModeKept(r: Repo, q: Request, baseSha: Sha, links: seq<Link>, k: nat, name: string)
    requires Truthful(r, q.api) && AcceptedWith(q, baseSha, links) && k < |links|
    requires q.head in r && links[k].head in r && name in OwnFiles(q, baseSha, links[k])
    requires name in r[links[k].head].tree && name in r[q.head].tree
    ensures r[links[k].head].tree[name].mode == r[q.head].tree[name].mode
  {
    var union := q.api.compare(q.base, q.head).value.files;
    assert MemberModesOk(q, union, baseSha, links[k]);
    NameInUnion(r, q, baseSha, links, k, name);
    assert name in TouchedBy(q, baseSha, links, k) * Present(union);
    assert TruthfulModes(r[q.head].tree, q.api.modes(q.head).value);
    assert TruthfulModes(r[links[k].head].tree, q.api.modes(links[k].head).value);
  }

  /** A member's file that the head holds is a file the rollup as a whole lists as present. */
  lemma NameInUnion(r: Repo, q: Request, baseSha: Sha, links: seq<Link>, k: nat, name: string)
    requires Truthful(r, q.api) && AcceptedWith(q, baseSha, links) && k < |links|
    requires q.head in r && name in OwnFiles(q, baseSha, links[k]) && name in r[q.head].tree
    ensures name in Present(q.api.compare(q.base, q.head).value.files)
  {
    RollupCommits(r, q, baseSha, links, k);
    ExpectedNames(q, baseSha, links, |links|, k, name);
    var union := q.api.compare(q.base, q.head).value.files;
    assert ItemTrue(r[baseSha].tree, r[q.head].tree, name, union[name]);
  }

  lemma {:induction false} ExpectedNames(q: Request, baseSha: Sha, links: seq<Link>, n: nat, k: nat, name: string)
    requires k < n <= |links| && name in OwnFiles(q, baseSha, links[k])
    ensures name in Expected(q, baseSha, links, n)
  {
    if k >= n - 1 {
    } else {
      ExpectedNames(q, baseSha, links, n - 1, k, name);
    }
  }

  lemma AcceptedAssembles(r: Repo, q: Request, baseSha: Sha, links: seq<Link>)
    requires Truthful(r, q.api) && AcceptedWith(q, baseSha, links)
    ensures baseSha in r && q.head in r
    ensures Assembles(r[baseSha].tree, r[q.head].tree, Members(r, q, baseSha, links),
                      q.api.compare(q.base, q.head).value.files)
  {
    RollupCommits(r, q, baseSha, links, 0);
    var members := Members(r, q, baseSha, links);
    forall j, k | 0 <= j < k < |members| ensures Touched(members[j].files) !! Touched(members[k].files) {
      MembersAreDisjoint(q, baseSha, links, j, k);
    }
    forall k | 0 <= k < |members| ensures MemberFits(r[baseSha].tree, r[q.head].tree, members[k]) {
      MemberFitsRollup(r, q, baseSha, links, k);
    }
    ExpectedIsCombined(r, q, baseSha, links, |links|);
    assert links[..|links|] == links;
  }

  /** The accepted head holds each member's approved entry, and the base commit's everywhere else. */
  lemma RollupHeadIsItsMembers(r: Repo, q: Request, baseSha: Sha, links: seq<Link>, path: string)
    requires Truthful(r, q.api) && AcceptedWith(q, baseSha, links)
    ensures baseSha in r && q.head in r
    ensures var members := Members(r, q, baseSha, links);
            && (forall k | 0 <= k < |members| && path in Touched(members[k].files) ::
                  At(r[q.head].tree, path) == At(members[k].after, path))
            && (!Owned(members, path) ==> At(r[q.head].tree, path) == At(r[baseSha].tree, path))
  {
    AcceptedAssembles(r, q, baseSha, links);
    AssembledPath(r[baseSha].tree, r[q.head].tree, Members(r, q, baseSha, links),
                  q.api.compare(q.base, q.head).value.files, path);
  }

  lemma AssembledPath(base: Tree, head: Tree, members: seq<Member>, union: Files, path: string)
    requires Assembles(base, head, members, union)
    ensures forall k | 0 <= k < |members| && path in Touched(members[k].files) ::
              At(head, path) == At(members[k].after, path)
    ensures !Owned(members, path) ==> At(head, path) == At(base, path)
  {
    forall k | 0 <= k < |members| && path in Touched(members[k].files)
      ensures At(head, path) == At(members[k].after, path)
    {
      HeadHoldsMemberPath(base, head, members, union, k, path);
    }
    if !Owned(members, path) {
      HeadHoldsBasePath(base, head, members, union, path);
    }
  }

  /** As far as the comparison shows, the base only moved forward from where the rollup was formed. */
  predicate TipFollows(q: Request, baseSha: Sha) {
    || q.tip == baseSha
    || (var moved := q.api.compare(baseSha, q.tip); moved.Some? && moved.value.mergeBase == baseSha)
  }

  /** Such a tip holds the base commit's entry on every path a member touches. */
  lemma TipKeepsMemberPaths(r: Repo, q: Request, baseSha: Sha, links: seq<Link>, path: string)
    requires Truthful(r, q.api) && AcceptedWith(q, baseSha, links)
    ensures baseSha in r && q.tip in r
    ensures TipFollows(q, baseSha) && Owned(Members(r, q, baseSha, links), path) ==>
              At(r[baseSha].tree, path) == At(r[q.tip].tree, path)
  {
    RollupCommits(r, q, baseSha, links, 0);
    if q.tip != baseSha {
      var moved := q.api.compare(baseSha, q.tip).value;
      assert TruthfulComparison(r, baseSha, q.tip, moved);
      if TipFollows(q, baseSha) && Owned(Members(r, q, baseSha, links), path) {
        var k :| 0 <= k < |links| && path in Touched(Members(r, q, baseSha, links)[k].files);
        SeenHolds(q, baseSha, links, |links|, k);
        BaseKeptPath(r, q.api, baseSha, q.tip, Seen(q, baseSha, links, |links|).Keys, path);
      }
    }
  }

  /**
    Landing an accepted rollup on the current tip gives exactly the tip with the members' approved
    changes applied, or a conflict, whatever the tip is; and no path conflicts when the base only
    moved forward since the rollup was formed.
   */
  lemma RollupLandsApprovedChanges(r: Repo, q: Request, baseSha: Sha, links: seq<Link>, path: string)
    requires Truthful(r, q.api) && AcceptedWith(q, baseSha, links)
    ensures baseSha in r && q.head in r && q.tip in r
    ensures var landed := ThreeWay(At(r[baseSha].tree, path), At(r[q.tip].tree, path), At(r[q.head].tree, path));
            && (landed.Some? ==> landed.value == At(Apply(r[q.tip].tree, Changes(Members(r, q, baseSha, links))), path))
            && (TipFollows(q, baseSha) ==> landed.Some?)
  {
    AcceptedAssembles(r, q, baseSha, links);
    TipKeepsMemberPaths(r, q, baseSha, links, path);
    var members := Members(r, q, baseSha, links);
    AssembledLands(r[baseSha].tree, r[q.head].tree, r[q.tip].tree, members,
                   q.api.compare(q.base, q.head).value.files, path);
    if path in Changes(members) {
      assert forall k | 0 <= k < |members| :: MemberFits(r[baseSha].tree, r[q.head].tree, members[k]);
      ChangesAreOwned(members, path);
    }
  }

  /** Each link is a two-parent merge of its member's head into the link before it. */
  lemma {:induction false} LinksAreMerges(q: Request, baseSha: Sha, sha: Sha, budget: nat, links: seq<Link>, k: nat)
    requires Links(q, baseSha, sha, budget) == Some(links) && k < |links|
    ensures q.api.parents(links[k].merge) == [Previous(baseSha, links, k), links[k].head]
    ensures links[|links| - 1].merge == sha
    decreases budget
  {
    var init := links[..|links| - 1];
    var first := q.api.parents(sha)[0];
    assert Links(q, baseSha, first, budget - 1) == Some(init);
    if init == [] {
    } else {
      LinksAreMerges(q, baseSha, first, budget - 1, init, if k < |init| then k else 0);
    }
  }

  function BlobAt(tree: Tree, path: string): Option<nat> {
    if path in tree then Some(tree[path].blob) else None
  }

  /** What a comparison lists about a path fixes the blob there, or its absence. */
  lemma ListedBlob(before1: Tree, after1: Tree, before2: Tree, after2: Tree, files1: Files, files2: Files, path: string)
    requires Lists(before1, after1, files1) && Lists(before2, after2, files2) && SameChange(files1, files2)
    requires path in files1 || RenamedAway(files1, path)
    ensures BlobAt(after1, path) == BlobAt(after2, path)
  {
    if path in files1 {
      assert ItemTrue(before1, after1, path, files1[path]) && ItemTrue(before2, after2, path, files2[path]);
    } else {
      var name :| name in files1 && files1[name].status.Renamed? && files1[name].source == Some(path);
      assert ItemTrue(before1, after1, name, files1[name]) && ItemTrue(before2, after2, name, files2[name]);
    }
  }

  /**
    Each merge on the chain makes the change of the member it merged and no other: it touches only
    that member's paths, and every path the member changes then has the member's blob.
   */
  lemma RollupStepIsItsMember(r: Repo, q: Request, baseSha: Sha, links: seq<Link>, k: nat, path: string)
    requires Truthful(r, q.api) && AcceptedWith(q, baseSha, links) && k < |links|
    ensures var previous, merge := TreeAt(r, Previous(baseSha, links, k)), TreeAt(r, links[k].merge);
            && (At(previous, path) != At(merge, path) ==> path in TouchedBy(q, baseSha, links, k))
            && (path in OwnFiles(q, baseSha, links[k]) || RenamedAway(OwnFiles(q, baseSha, links[k]), path) ==>
                  BlobAt(merge, path) == BlobAt(TreeAt(r, links[k].head), path))
  {
    var previous, merge := Previous(baseSha, links, k), links[k].merge;
    assert LinkOk(q, baseSha, links, k);
    var step := q.api.compare(previous, merge).value;
    assert TruthfulComparison(r, previous, merge, step);
    LinksAreMerges(q, baseSha, q.head, q.maxMembers, links, k);
    assert IsParent(r, merge, previous);
    assert Ancestor(r, previous, previous);
    MergeBaseOfAncestor(r, previous, merge, step.mergeBase);
    assert RenamedAway(step.files, path) ==> path in Touched(step.files);
    RollupCommits(r, q, baseSha, links, k);
    var own := Own(q, baseSha, links[k]).value;
    if path in own.files || RenamedAway(own.files, path) {
      ListedBlob(r[own.mergeBase].tree, r[links[k].head].tree, r[previous].tree, r[merge].tree, own.files, step.files,
                 path);
    }
  }

  // ---------------------------------------------------------------------------
  // Exclusions and hot files
  // ---------------------------------------------------------------------------

  /** No member of an accepted rollup touches a path that either exclusion list refuses. */
  lemma RollupAvoidsExclusions(q: Request, baseSha: Sha, links: seq<Link>, k: nat, path: string)
    requires AcceptedWith(q, baseSha, links) && k < |links| && path in TouchedBy(q, baseSha, links, k)
    ensures !Refuses(q.tables, path, q.excludePaths) && !Refuses(q.tables, path, q.carryExcluded)
  {
    SeenHolds(q, baseSha, links, |links|, k);
  }

  /** The files one hot glob matches are touched by at most one member. */
  lemma RollupHotFilesHaveOneOwner(q: Request, baseSha: Sha, links: seq<Link>, pattern: string, j: nat, k: nat,
                                   a: string, b: string)
    requires AcceptedWith(q, baseSha, links) && pattern in q.hotFiles && j < |links| && k < |links|
    requires a in TouchedBy(q, baseSha, links, j) && GlobMatch(pattern, a)
    requires b in TouchedBy(q, baseSha, links, k) && GlobMatch(pattern, b)
    ensures j == k
  {
    SeenNames(q, baseSha, links, j, a);
    SeenNames(q, baseSha, links, k, b);
    assert LinkOk(q, baseSha, links, j) && LinkOk(q, baseSha, links, k);
    assert HotOk(q, Seen(q, baseSha, links, |links|));
  }

  /** The members that touch a path the pattern matches. */
  function OwnersOf(pattern: string, seen: map<string, Option<nat>>): set<Option<nat>> {
    set path | path in seen && GlobMatch(pattern, path) :: seen[path]
  }

  /** The hot-file rule holds exactly when each pattern has at most one such member. */
  lemma HotOkExactly(q: Request, seen: map<string, Option<nat>>)
    ensures HotOk(q, seen) <==> forall pattern | pattern in q.hotFiles :: |OwnersOf(pattern, seen)| <= 1
  {
    forall pattern | pattern in q.hotFiles
      ensures |OwnersOf(pattern, seen)| <= 1 <==>
              forall a, b | a in seen && b in seen :: GlobMatch(pattern, a) && GlobMatch(pattern, b) ==>
                seen[a] == seen[b]
    {
      OneOwner(pattern, seen);
    }
  }

  lemma OneOwner(pattern: string, seen: map<string, Option<nat>>)
    ensures |OwnersOf(pattern, seen)| <= 1 <==>
            forall a, b | a in seen && b in seen :: GlobMatch(pattern, a) && GlobMatch(pattern, b) ==>
              seen[a] == seen[b]
  {
    var owners := OwnersOf(pattern, seen);
    assert forall path | path in seen && GlobMatch(pattern, path) :: seen[path] in owners;
    if owners != {} {
      var one :| one in owners;
      var a :| a in seen && GlobMatch(pattern, a) && seen[a] == one;
      if forall x, y | x in seen && y in seen :: GlobMatch(pattern, x) && GlobMatch(pattern, y) ==> seen[x] == seen[y] {
        assert owners == {one};
      } else {
        var x, y :| x in seen && y in seen && GlobMatch(pattern, x) && GlobMatch(pattern, y) && seen[x] != seen[y];
        assert {seen[x], seen[y]} <= owners;
        TwoOwners(owners, seen[x], seen[y]);
      }
    }
  }

  lemma TwoOwners<T>(owners: set<T>, x: T, y: T)
    requires x in owners && y in owners && x != y
    ensures |owners| >= 2
  {
    assert owners == {x, y} + (owners - {x, y});
    assert |{x, y}| == 2;
  }

  // ---------------------------------------------------------------------------
  // Reviews
  // ---------------------------------------------------------------------------

  /** Whatever an accepted rollup changes was reviewed, at the head it was merged from. */
  lemma RollupChangesAreReviewed(r: Repo, q: Request, baseSha: Sha, links: seq<Link>, path: string)
    requires Truthful(r, q.api) && AcceptedWith(q, baseSha, links)
    ensures baseSha in r && q.head in r
    ensures At(r[baseSha].tree, path) != At(r[q.head].tree, path) ==>
              exists k | 0 <= k < |links| && path in TouchedBy(q, baseSha, links, k) ::
                q.memberOf(links[k].head).Some? && q.reviewed(q.memberOf(links[k].head).value, links[k].head)
  {
    RollupHeadIsItsMembers(r, q, baseSha, links, path);
    if At(r[baseSha].tree, path) != At(r[q.head].tree, path) {
      var members := Members(r, q, baseSha, links);
      assert Owned(members, path);
      var k :| 0 <= k < |members| && path in Touched(members[k].files);
      assert path in TouchedBy(q, baseSha, links, k);
      assert LinkOk(q, baseSha, links, k);
    }
  }

  /** It merges at least one member and at most as many as are allowed, no two of them the same. */
  lemma RollupMembersAreDistinct(q: Request, baseSha: Sha, links: seq<Link>, j: nat, k: nat)
    requires AcceptedWith(q, baseSha, links) && j < k < |links|
    ensures 1 <= |links| <= q.maxMembers
    ensures q.memberOf(links[j].head).Some? && q.memberOf(links[k].head).Some?
    ensures q.memberOf(links[j].head) != q.memberOf(links[k].head)
  {
    assert LinkOk(q, baseSha, links, j) && LinkOk(q, baseSha, links, k);
  }

  // ---------------------------------------------------------------------------
  // A rollup of one member
  // ---------------------------------------------------------------------------

  function Creates(f: string): Files {
    map[f := FileItem(Created, 1, None, true)]
  }

  /** The head merges one member, which adds the file `f`, onto a base that has not moved. */
  ghost predicate MergesOne(q: Request, member: Sha, f: string) {
    var whole, own := q.api.compare(q.base, q.head), q.api.compare(q.base, member);
    && q.tip == q.base && q.head != q.base && q.maxMembers >= 1 && q.api.parents(q.head) == [q.base, member]
    && whole.Some? && whole.value.mergeBase == q.base && whole.value.files == Creates(f)
    && own.Some? && own.value.mergeBase == q.base && own.value.files == Creates(f)
    && q.api.modes(q.head) == Some(map[f := 0]) && q.api.modes(member) == Some(map[f := 0])
  }

  lemma OneFileCreated(f: string)
    ensures |Creates(f)| == 1 && Touched(Creates(f)) == {f} && Present(Creates(f)) == {f}
  {
    assert Creates(f).Keys == {f} && |Creates(f)| == |Creates(f).Keys|;
  }

  lemma OneLink(q: Request, member: Sha, f: string)
    requires MergesOne(q, member, f)
    ensures Links(q, q.base, q.head, q.maxMembers) == Some([Link(q.head, member)])
  {
    assert Links(q, q.base, q.base, q.maxMembers - 1) == Some([]);
    assert [] + [Link(q.head, member)] == [Link(q.head, member)];
  }

  lemma OneLinkOk(q: Request, member: Sha, f: string)
    requires MergesOne(q, member, f)
    ensures var links := [Link(q.head, member)];
            && (LinksOk(q, q.base, links, 1) <==>
                q.memberOf(member).Some? && q.reviewed(q.memberOf(member).value, member))
            && Seen(q, q.base, links, 1) == map[f := q.memberOf(member)]
            && Expected(q, q.base, links, 1) == Creates(f)
  {
    var links := [Link(q.head, member)];
    OneFileCreated(f);
    assert Seen(q, q.base, links, 0) == map[] && Expected(q, q.base, links, 0) == map[];
    assert OwnOk(q, q.base, Own(q, q.base, links[0]), q.api.compare(q.base, q.head), {});
    assert LinksOk(q, q.base, links, 1) <==> LinkOk(q, q.base, links, 0);
  }

  lemma OneHeadOk(q: Request, member: Sha, f: string, seen: map<string, Option<nat>>)
    requires MergesOne(q, member, f) && seen.Keys == {f}
    ensures HeadOk(q, Creates(f), q.base, [Link(q.head, member)], seen, Creates(f)) <==>
            !Refuses(q.tables, f, q.excludePaths) && !Refuses(q.tables, f, q.carryExcluded)
  {
    OneFileCreated(f);
    var links := [Link(q.head, member)];
    assert SameChange(Creates(f), Creates(f));
    assert f in {f};
    assert MemberModesOk(q, Creates(f), q.base, links[0]);
  }

  /** Such a rollup is accepted exactly when its member is open and reviewed and may change the file. */
  lemma OneMemberExactly(q: Request, member: Sha, f: string)
    requires MergesOne(q, member, f)
    ensures AcceptedWith(q, q.base, [Link(q.head, member)]) <==>
            && q.memberOf(member).Some? && q.reviewed(q.memberOf(member).value, member)
            && !Refuses(q.tables, f, q.excludePaths) && !Refuses(q.tables, f, q.carryExcluded)
  {
    OneLink(q, member, f);
    OneLinkOk(q, member, f);
    OneFileCreated(f);
    OneHeadOk(q, member, f, map[f := q.memberOf(member)]);
  }
}
