/**
  Carrying an approval across merges of the base, from scripts/ghapp_queue_arm_guard.py: when the
  approval of `approved` counts for `head`, and what that says about the trees.

  The base is a fixed commit, and which blobs are binary is an input.
 */
module MergeCarry {
  import opened Wrappers
  import opened CarryPolicy
  import opened CommitGraph

  const MAX_CARRY_MERGES: nat := 3
  const COMPARE_FILE_CAP: nat := 300

  datatype Carry = Carry(oldBase: Sha, newBase: Sha, merges: nat, files: nat)

  predicate OnBase(api: Api, parent: Sha, base: Sha) {
    var c := api.compare(parent, base);
    c.Some? && (c.value.relation.Ahead? || c.value.relation.Identical?)
  }

  /** A listing as long as GitHub's cap may be partial, so it is not used. */
  predicate Whole(c: Option<Comparison>) {
    c.Some? && |c.value.files| < COMPARE_FILE_CAP
  }

  function Present(files: Files): set<string> {
    set name | name in files && !files[name].status.Deleted?
  }

  /** Some listed file has no text patch and is binary. */
  predicate ChangesBinary(api: Api, files: Files) {
    exists name | name in files :: !files[name].patch && api.isBinary(files[name].blob)
  }

  predicate ModesKept(api: Api, approved: Sha, head: Sha, present: set<string>) {
    present != {} ==>
      && api.modes(approved).Some? && api.modes(head).Some?
      && SameModes(present, api.modes(approved).value, api.modes(head).value)
  }

  predicate BaseUntouched(api: Api, oldBase: Sha, newBase: Sha, paths: set<string>) {
    oldBase != newBase ==>
      && Whole(api.compare(oldBase, newBase))
      && Touched(api.compare(oldBase, newBase).value.files) !! paths
  }

  /** How many merges of the base lead from `sha` back to `approved`, within `budget`. */
  function ChainLength(api: Api, base: Sha, approved: Sha, parentsOf: map<Sha, seq<Sha>>, sha: Sha,
                       budget: nat): (n: Option<nat>)
    ensures n.Some? ==> n.value <= budget
    decreases budget
  {
    if sha == approved then
      Some(0)
    else if budget == 0 || sha !in parentsOf || |parentsOf[sha]| != 2 || !OnBase(api, parentsOf[sha][1], base) then
      None
    else
      var rest := ChainLength(api, base, approved, parentsOf, parentsOf[sha][0], budget - 1);
      if rest.Some? then Some(rest.value + 1) else None
  }

  /** The merge commits on that chain. */
  function ChainCommits(approved: Sha, parentsOf: map<Sha, seq<Sha>>, sha: Sha, length: nat): (commits: set<Sha>)
    ensures |commits| <= length
    decreases length
  {
    if length == 0 || sha !in parentsOf || |parentsOf[sha]| != 2 then {}
    else {sha} + ChainCommits(approved, parentsOf, parentsOf[sha][0], length - 1)
  }

  /** Every condition of the carry, in no particular order. */
  predicate Carries(api: Api, t: Tables, base: Sha, approved: Sha, head: Sha, excluded: seq<string>,
                    carry: Carry)
  {
    var update, before, after := api.compare(approved, head), api.compare(base, approved), api.compare(base, head);
    && update.Some? && update.value.relation.Ahead?
    && |update.value.commits| == update.value.total
    && ChainLength(api, base, approved, update.value.commits, head, MAX_CARRY_MERGES) == Some(carry.merges)
    && Whole(before) && Whole(after)
    && !CarryExcluded(t, Touched(before.value.files) + Touched(after.value.files), excluded)
    && !ChangesBinary(api, before.value.files)
    && SameChange(before.value.files, after.value.files)
    && ModesKept(api, approved, head, Present(before.value.files))
    && carry.oldBase == before.value.mergeBase && carry.newBase == after.value.mergeBase
    && BaseUntouched(api, carry.oldBase, carry.newBase, Touched(before.value.files) + Touched(after.value.files))
    && carry.files == |before.value.files|
  }

  /** The carry itself; `None` is a refusal. */
  method MergeOnlyCarry(api: Api, t: Tables, base: Sha, approved: Sha, head: Sha, excluded: seq<string>)
    returns (carry: Option<Carry>)
    ensures carry.Some? ==> Carries(api, t, base, approved, head, excluded, carry.value)
    ensures carry.None? ==> forall c :: !Carries(api, t, base, approved, head, excluded, c)
  {
    carry := None;
    var update := api.compare(approved, head);
    if update.None? || !update.value.relation.Ahead? || |update.value.commits| != update.value.total {
      return;
    }
    var parentsOf := update.value.commits;
    var sha, merges := head, 0;
    while sha != approved
      invariant merges <= MAX_CARRY_MERGES
      invariant var rest := ChainLength(api, base, approved, parentsOf, sha, MAX_CARRY_MERGES - merges);
                ChainLength(api, base, approved, parentsOf, head, MAX_CARRY_MERGES) ==
                if rest.Some? then Some(rest.value + merges) else None
      decreases MAX_CARRY_MERGES - merges
    {
      if merges == MAX_CARRY_MERGES {
        return;
      }
      if sha !in parentsOf || |parentsOf[sha]| != 2 || !OnBase(api, parentsOf[sha][1], base) {
        return;
      }
      merges := merges + 1;
      sha := parentsOf[sha][0];
    }
    var before, after := api.compare(base, approved), api.compare(base, head);
    if !Whole(before) || !Whole(after) {
      return;
    }
    var files, found := before.value.files, after.value.files;
    if CarryExcluded(t, Touched(files) + Touched(found), excluded) || ChangesBinary(api, files) {
      return;
    }
    if !SameChange(files, found) || !ModesKept(api, approved, head, Present(files)) {
      return;
    }
    var oldBase, newBase := before.value.mergeBase, after.value.mergeBase;
    if !BaseUntouched(api, oldBase, newBase, Touched(files) + Touched(found)) {
      return;
    }
    carry := Some(Carry(oldBase, newBase, merges, |files|));
  }

  // ---------------------------------------------------------------------------
  // Where the new head came from
  // ---------------------------------------------------------------------------

  /** What the API calls on the base is on the base. */
  ghost predicate BaseIsTrue(r: Repo, api: Api, base: Sha)
    requires WellFormed(r)
  {
    forall parent | OnBase(api, parent, base) :: Ancestor(r, parent, base)
  }

  lemma TruthfulBase(r: Repo, api: Api, base: Sha)
    requires Truthful(r, api)
    ensures BaseIsTrue(r, api, base)
  {
    forall parent | OnBase(api, parent, base) ensures Ancestor(r, parent, base) {
      assert TruthfulComparison(r, parent, base, api.compare(parent, base).value);
    }
  }

  /** Everything in the history of `sha` is in that of `approved`, on the base, or in `merges`. */
  ghost predicate OnlyMergesSince(r: Repo, base: Sha, approved: Sha, sha: Sha, merges: set<Sha>)
    requires WellFormed(r)
  {
    forall c | Ancestor(r, c, sha) :: Ancestor(r, c, approved) || Ancestor(r, c, base) || c in merges
  }

  lemma {:induction false} ChainAddsOnlyMerges(r: Repo, api: Api, base: Sha, approved: Sha,
                                               parentsOf: map<Sha, seq<Sha>>, sha: Sha, budget: nat)
    requires WellFormed(r) && BaseIsTrue(r, api, base) && sha in r
    requires forall s | s in parentsOf :: s in r && parentsOf[s] == r[s].parents
    requires ChainLength(api, base, approved, parentsOf, sha, budget).Some?
    ensures var n := ChainLength(api, base, approved, parentsOf, sha, budget).value;
            OnlyMergesSince(r, base, approved, sha, ChainCommits(approved, parentsOf, sha, n))
    decreases budget
  {
    if sha == approved {
    } else {
      var first, second := parentsOf[sha][0], parentsOf[sha][1];
      assert IsParent(r, sha, first);
      ChainAddsOnlyMerges(r, api, base, approved, parentsOf, first, budget - 1);
      var rest := ChainLength(api, base, approved, parentsOf, first, budget - 1).value;
      MergeAddsOnlyItself(r, base, approved, sha, first, second, ChainCommits(approved, parentsOf, first, rest));
    }
  }

  lemma MergeAddsOnlyItself(r: Repo, base: Sha, approved: Sha, sha: Sha, first: Sha, second: Sha, merges: set<Sha>)
    requires WellFormed(r) && sha in r && r[sha].parents == [first, second] && Ancestor(r, second, base)
    requires OnlyMergesSince(r, base, approved, first, merges)
    ensures OnlyMergesSince(r, base, approved, sha, {sha} + merges)
  {
    forall c | Ancestor(r, c, sha) && c != sha ensures Ancestor(r, c, first) || Ancestor(r, c, base) {
      var p :| IsParent(r, sha, p) && Ancestor(r, c, p);
      if p == second {
        AncestorTransitive(r, c, second, base);
      }
    }
  }

  /** As far as the comparisons show, the merge base only moved forward. */
  predicate MovedForward(api: Api, carry: Carry) {
    || carry.oldBase == carry.newBase
    || (var moved := api.compare(carry.oldBase, carry.newBase); moved.Some? && moved.value.mergeBase == carry.oldBase)
  }

  /**
    The guard's own comparison of the two merge bases tells whether the old one is an ancestor of
    the new one; it always is when base and head have one best merge base.
   */
  lemma OldBasePrecedesNew(r: Repo, api: Api, t: Tables, base: Sha, approved: Sha, head: Sha, excluded: seq<string>,
                           carry: Carry)
    requires Truthful(r, api) && Carries(api, t, base, approved, head, excluded, carry)
    ensures Ancestor(r, approved, head)
    ensures MovedForward(api, carry) <==> Ancestor(r, carry.oldBase, carry.newBase)
    ensures HasOneMergeBase(r, base, head) ==> MovedForward(api, carry)
  {
    assert TruthfulComparison(r, approved, head, api.compare(approved, head).value);
    assert TruthfulComparison(r, base, approved, api.compare(base, approved).value);
    assert TruthfulComparison(r, base, head, api.compare(base, head).value);
    AncestorTransitive(r, carry.oldBase, approved, head);
    assert IsCommon(r, base, head, carry.oldBase);
    if carry.oldBase != carry.newBase {
      var moved := api.compare(carry.oldBase, carry.newBase).value;
      assert TruthfulComparison(r, carry.oldBase, carry.newBase, moved);
      if Ancestor(r, carry.oldBase, carry.newBase) {
        MergeBaseOfAncestor(r, carry.oldBase, carry.newBase, moved.mergeBase);
      }
    }
  }

  lemma {:induction false} ChainHasItsLength(r: Repo, api: Api, base: Sha, approved: Sha,
                                             parentsOf: map<Sha, seq<Sha>>, sha: Sha, budget: nat)
    requires WellFormed(r) && forall s | s in parentsOf :: s in r && parentsOf[s] == r[s].parents
    requires ChainLength(api, base, approved, parentsOf, sha, budget).Some?
    ensures var n := ChainLength(api, base, approved, parentsOf, sha, budget).value;
            && |ChainCommits(approved, parentsOf, sha, n)| == n
            && forall c | c in ChainCommits(approved, parentsOf, sha, n) :: c <= sha
    decreases budget
  {
    if sha == approved {
    } else {
      var first := parentsOf[sha][0];
      assert IsParent(r, sha, first);
      ChainHasItsLength(r, api, base, approved, parentsOf, first, budget - 1);
      var rest := ChainLength(api, base, approved, parentsOf, first, budget - 1).value;
      assert sha !in ChainCommits(approved, parentsOf, first, rest);
    }
  }

  lemma {:induction false} FullSubset<T>(part: set<T>, whole: set<T>)
    requires part <= whole && |part| == |whole|
    ensures part == whole
  {
    assert whole == part + (whole - part);
  }

  /**
    At most three merges of the base separate the head from what was approved, and every commit the
    head adds was listed.
   */
  lemma CarriedHistory(r: Repo, api: Api, t: Tables, base: Sha, approved: Sha, head: Sha, excluded: seq<string>,
                       carry: Carry)
    returns (merges: set<Sha>)
    requires Truthful(r, api) && Carries(api, t, base, approved, head, excluded, carry)
    ensures |merges| == carry.merges <= 3
    ensures OnlyMergesSince(r, base, approved, head, merges)
    ensures forall c | Ancestor(r, c, head) && !Ancestor(r, c, approved) ::
            c in api.compare(approved, head).value.commits
  {
    var parentsOf := api.compare(approved, head).value.commits;
    assert TruthfulComparison(r, approved, head, api.compare(approved, head).value);
    merges := ChainCommits(approved, parentsOf, head, carry.merges);
    TruthfulBase(r, api, base);
    ChainAddsOnlyMerges(r, api, base, approved, parentsOf, head, MAX_CARRY_MERGES);
    ChainHasItsLength(r, api, base, approved, parentsOf, head, MAX_CARRY_MERGES);
    assert |parentsOf| == |parentsOf.Keys|;
    FullSubset(parentsOf.Keys, NewCommits(r, approved, head));
    forall c | Ancestor(r, c, head) && !Ancestor(r, c, approved) ensures c in parentsOf {
      AncestorOrder(r, c, head);
    }
  }

  // ---------------------------------------------------------------------------
  // What the new head holds
  // ---------------------------------------------------------------------------

  /** From the merge base of the two merge bases on, the base left the pull request's paths alone. */
  lemma BaseKeptSinceFork(r: Repo, api: Api, oldBase: Sha, newBase: Sha, paths: set<string>, path: string)
    requires Truthful(r, api) && oldBase != newBase && newBase in r
    requires BaseUntouched(api, oldBase, newBase, paths) && path in paths
    ensures var fork := api.compare(oldBase, newBase).value.mergeBase;
            fork in r && At(r[fork].tree, path) == At(r[newBase].tree, path)
  {
    var moved := api.compare(oldBase, newBase).value;
    assert TruthfulComparison(r, oldBase, newBase, moved);
    assert path !in Touched(moved.files);
    assert !RenamedAway(moved.files, path);
  }

  /** So a base that only moved forward left them alone altogether. */
  lemma BaseKeptPath(r: Repo, api: Api, oldBase: Sha, newBase: Sha, paths: set<string>, path: string)
    requires Truthful(r, api) && Ancestor(r, oldBase, newBase) && oldBase in r && newBase in r
    requires BaseUntouched(api, oldBase, newBase, paths) && path in paths
    ensures At(r[oldBase].tree, path) == At(r[newBase].tree, path)
  {
    if oldBase != newBase {
      var moved := api.compare(oldBase, newBase).value;
      assert TruthfulComparison(r, oldBase, newBase, moved);
      MergeBaseOfAncestor(r, oldBase, newBase, moved.mergeBase);
      BaseKeptSinceFork(r, api, oldBase, newBase, paths, path);
    }
  }

  lemma ModesAgree(r: Repo, api: Api, approved: Sha, head: Sha, files: Files, name: string)
    requires Truthful(r, api) && approved in r && head in r
    requires ModesKept(api, approved, head, Present(files)) && name in Present(files)
    requires name in r[approved].tree && name in r[head].tree
    ensures r[approved].tree[name].mode == r[head].tree[name].mode
  {
    assert Present(files) != {};
    assert TruthfulModes(r[approved].tree, api.modes(approved).value);
    assert TruthfulModes(r[head].tree, api.modes(head).value);
  }

  /**
    An accepted carry keeps the approved change exactly: the head is the new merge base with the
    approved change applied, path for path and modes included.
   */
  lemma CarryKeepsApprovedChange(r: Repo, api: Api, t: Tables, base: Sha, approved: Sha, head: Sha,
                                 excluded: seq<string>, carry: Carry)
    requires Truthful(r, api) && Carries(api, t, base, approved, head, excluded, carry)
    ensures carry.oldBase in r && carry.newBase in r && approved in r && head in r
    ensures var change := Delta(r[carry.oldBase].tree, r[approved].tree);
            && Delta(r[carry.newBase].tree, r[head].tree) == change
            && r[head].tree == Apply(r[carry.newBase].tree, change)
  {
    var before, after := api.compare(base, approved).value, api.compare(base, head).value;
    assert TruthfulComparison(r, base, approved, before) && TruthfulComparison(r, base, head, after);
    var oldTree, newTree := r[carry.oldBase].tree, r[carry.newBase].tree;
    var approvedTree, headTree := r[approved].tree, r[head].tree;
    forall name | name in before.files && !before.files[name].status.Deleted?
      ensures name in approvedTree && name in headTree && approvedTree[name].mode == headTree[name].mode
    {
      assert ItemTrue(oldTree, approvedTree, name, before.files[name]);
      assert ItemTrue(newTree, headTree, name, after.files[name]);
      ModesAgree(r, api, approved, head, before.files, name);
    }
    var change := Delta(oldTree, approvedTree);
    forall path
      ensures At(oldTree, path) != At(approvedTree, path) <==> At(newTree, path) != At(headTree, path)
      ensures path in change ==> At(approvedTree, path) == At(headTree, path)
    {
      SameListingSameResult(oldTree, approvedTree, newTree, headTree, before.files, after.files, path);
    }
    SameDelta(oldTree, approvedTree, newTree, headTree);
  }

  /** The paths a carry's change covers are paths the comparisons listed. */
  lemma ChangeIsListed(r: Repo, api: Api, base: Sha, approved: Sha, path: string)
    requires Truthful(r, api) && Whole(api.compare(base, approved))
    ensures var before := api.compare(base, approved).value;
            && before.mergeBase in r && approved in r
            && (path in Delta(r[before.mergeBase].tree, r[approved].tree) ==> path in Touched(before.files))
  {
    var before := api.compare(base, approved).value;
    assert TruthfulComparison(r, base, approved, before);
    DeltaAt(r[before.mergeBase].tree, r[approved].tree, path);
  }

  lemma HeadChangeIsListed(r: Repo, api: Api, base: Sha, head: Sha, path: string)
    requires Truthful(r, api) && Whole(api.compare(base, head))
    ensures var after := api.compare(base, head).value;
            && after.mergeBase in r && head in r
            && (path in Delta(r[after.mergeBase].tree, r[head].tree) ==> path in Touched(after.files))
  {
    ChangeIsListed(r, api, base, head, path);
  }

  /** An accepted carry changes no path the exclusions refuse, before or after the merges. */
  lemma CarryAvoidsExclusions(r: Repo, api: Api, t: Tables, base: Sha, approved: Sha, head: Sha, excluded: seq<string>,
                              carry: Carry, path: string)
    requires Truthful(r, api) && Carries(api, t, base, approved, head, excluded, carry)
    ensures carry.oldBase in r && carry.newBase in r && approved in r && head in r
    ensures path in Delta(r[carry.oldBase].tree, r[approved].tree) || path in Delta(r[carry.newBase].tree, r[head].tree)
            ==> !Refuses(t, path, excluded)
  {
    ChangeIsListed(r, api, base, approved, path);
    HeadChangeIsListed(r, api, base, head, path);
  }

  /** Without a replacement list, no extra or allow entries let it change a protected path. */
  lemma CarryKeepsProtected(r: Repo, api: Api, t: Tables, base: Sha, approved: Sha, head: Sha,
                            extra: Option<seq<string>>, allow: Option<seq<string>>, carry: Carry, path: string)
    requires WellShaped(t) && Truthful(r, api)
    requires Carries(api, t, base, approved, head, t.defaults + OrEmpty(extra) + Bangs(OrEmpty(allow)), carry)
    ensures carry.oldBase in r && carry.newBase in r && approved in r && head in r
    ensures path in Delta(r[carry.oldBase].tree, r[approved].tree) || path in Delta(r[carry.newBase].tree, r[head].tree)
            ==> !AnyMatches(t.protected, path)
  {
    var excluded := t.defaults + OrEmpty(extra) + Bangs(OrEmpty(allow));
    CarryAvoidsExclusions(r, api, t, base, approved, head, excluded, carry, path);
    if AnyMatches(t.protected, path) {
      ProtectedNeverCarries(t, extra, allow, {path}, path);
    }
  }

  /** Nor does it carry a change that leaves a binary file. */
  lemma CarryChangesNoBinary(r: Repo, api: Api, t: Tables, base: Sha, approved: Sha, head: Sha, excluded: seq<string>,
                             carry: Carry, path: string)
    requires Truthful(r, api) && Carries(api, t, base, approved, head, excluded, carry)
    ensures carry.oldBase in r && approved in r
    ensures path in Delta(r[carry.oldBase].tree, r[approved].tree) && path in r[approved].tree ==>
              !api.isBinary(r[approved].tree[path].blob)
  {
    ChangeIsListed(r, api, base, approved, path);
    var before := api.compare(base, approved).value;
    assert TruthfulComparison(r, base, approved, before) && TruthfulPatches(api, before.files);
    DeltaAt(r[carry.oldBase].tree, r[approved].tree, path);
    if path in Delta(r[carry.oldBase].tree, r[approved].tree) && path in r[approved].tree {
      PresentIsListed(r[carry.oldBase].tree, r[approved].tree, before.files, path);
    }
  }

  /** A changed path that is still there is listed under its own name, with its blob. */
  lemma PresentIsListed(before: Tree, after: Tree, files: Files, path: string)
    requires Lists(before, after, files) && At(before, path) != At(after, path) && path in after
    ensures path in files && files[path].blob == after[path].blob
  {
    forall name | name in files && files[name].status.Renamed? ensures files[name].source != Some(path) {
      assert ItemTrue(before, after, name, files[name]);
    }
    assert !RenamedAway(files, path);
    assert ItemTrue(before, after, path, files[path]);
  }

  /** When the merge base only moved forward, the base changed none of the approved paths on the way. */
  lemma CarryBaseUnchanged(r: Repo, api: Api, t: Tables, base: Sha, approved: Sha, head: Sha, excluded: seq<string>,
                           carry: Carry, path: string)
    requires Truthful(r, api) && Carries(api, t, base, approved, head, excluded, carry)
    ensures carry.oldBase in r && carry.newBase in r && approved in r
    ensures MovedForward(api, carry) && path in Delta(r[carry.oldBase].tree, r[approved].tree) ==>
              At(r[carry.oldBase].tree, path) == At(r[carry.newBase].tree, path)
  {
    CarryKeepsApprovedChange(r, api, t, base, approved, head, excluded, carry);
    OldBasePrecedesNew(r, api, t, base, approved, head, excluded, carry);
    ChangeIsListed(r, api, base, approved, path);
    var before, after := api.compare(base, approved).value, api.compare(base, head).value;
    if MovedForward(api, carry) && path in Touched(before.files) {
      BaseKeptPath(r, api, carry.oldBase, carry.newBase, Touched(before.files) + Touched(after.files), path);
    }
  }

  lemma SameDelta(before1: Tree, after1: Tree, before2: Tree, after2: Tree)
    requires forall path :: At(before1, path) != At(after1, path) <==> At(before2, path) != At(after2, path)
    requires forall path | path in Delta(before1, after1) :: At(after1, path) == At(after2, path)
    ensures Delta(before2, after2) == Delta(before1, after1)
    ensures after2 == Apply(before2, Delta(before1, after1))
  {
    var change := Delta(before1, after1);
    forall path
      ensures path in change <==> path in Delta(before2, after2)
      ensures path in change ==> change[path] == Delta(before2, after2)[path]
      ensures At(after2, path) == At(Apply(before2, change), path)
    {
      DeltaAt(before1, after1, path);
      DeltaAt(before2, after2, path);
      ApplyAt(before2, change, path);
    }
    SameTree(after2, Apply(before2, change));
  }
}
