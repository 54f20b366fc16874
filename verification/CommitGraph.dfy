/**
  Commits, trees and what GitHub's compare answers about them, as the approval carry and the
  rollup rule of scripts/ghapp_queue_arm_guard.py read them.

  A compare of `a...b` lists the difference from the merge base of the two to `b`. A listed file
  carries its status, its blob and, for a rename, its old name; it carries no mode.
 */
module CommitGraph {
  import opened Wrappers

  /** Commits are numbered so that a parent precedes its child. */
  type Sha = nat

  datatype Entry = Entry(blob: nat, mode: nat)

  type Tree = map<string, Entry>

  datatype Commit = Commit(parents: seq<Sha>, tree: Tree)

  type Repo = map<Sha, Commit>

  predicate IsParent(r: Repo, c: Sha, p: Sha) {
    c in r && p in r[c].parents
  }

  ghost predicate WellFormed(r: Repo) {
    forall c, p | IsParent(r, c, p) :: p in r && p < c
  }

  ghost predicate Ancestor(r: Repo, a: Sha, c: Sha)
    requires WellFormed(r)
    decreases c
  {
    c in r && (a == c || exists p | IsParent(r, c, p) :: Ancestor(r, a, p))
  }

  ghost predicate IsCommon(r: Repo, a: Sha, b: Sha, m: Sha)
    requires WellFormed(r)
  {
    Ancestor(r, m, a) && Ancestor(r, m, b)
  }

  /** A best common ancestor: one that no other common ancestor descends from. */
  ghost predicate IsMergeBase(r: Repo, a: Sha, b: Sha, m: Sha)
    requires WellFormed(r)
  {
    IsCommon(r, a, b, m) && forall x | IsCommon(r, a, b, x) && Ancestor(r, m, x) :: x == m
  }

  /** The two commits have one best common ancestor, which all the others lead to. */
  ghost predicate HasOneMergeBase(r: Repo, a: Sha, b: Sha)
    requires WellFormed(r)
  {
    exists g | IsCommon(r, a, b, g) :: forall x | IsCommon(r, a, b, x) :: Ancestor(r, x, g)
  }

  function At(tree: Tree, path: string): Option<Entry> {
    if path in tree then Some(tree[path]) else None
  }

  // ---------------------------------------------------------------------------
  // Comparisons
  // ---------------------------------------------------------------------------

  datatype Status = Created | Modified | Deleted | Renamed | Copied

  /** A listed file; `patch` says that it comes with a text patch. */
  datatype FileItem = FileItem(status: Status, blob: nat, source: Option<string>, patch: bool)

  type Files = map<string, FileItem>

  datatype Relation = Ahead | Behind | Identical | Diverged

  datatype Comparison = Comparison(
    relation: Relation,
    mergeBase: Sha,
    files: Files,
    commits: map<Sha, seq<Sha>>,
    total: nat)

  /** A comparison lists at most this many files; a listing as long as that may be cut off. */
  const LISTING_CAP: nat := 300

  /** What the API answers; `None` is an answer that cannot be read. */
  datatype Api = Api(
    compare: (Sha, Sha) -> Option<Comparison>,
    parents: Sha -> seq<Sha>,
    modes: Sha -> Option<map<string, nat>>,
    isBinary: nat -> bool)

  predicate ItemTrue(before: Tree, after: Tree, name: string, item: FileItem) {
    match item.status
    case Created => name !in before && name in after && item.blob == after[name].blob && item.source.None?
    case Modified =>
      && name in before && name in after && before[name] != after[name]
      && item.blob == after[name].blob && item.source.None?
    case Deleted => name in before && name !in after && item.source.None?
    case Renamed =>
      && name !in before && name in after && item.blob == after[name].blob
      && item.source.Some? && item.source.value in before && item.source.value !in after
    case Copied =>
      && name !in before && name in after && item.blob == after[name].blob
      && item.source.Some? && item.source.value in before
  }

  /** `path` is the old name of a listed rename. */
  predicate RenamedAway(files: Files, path: string) {
    exists name | name in files :: files[name].status.Renamed? && files[name].source == Some(path)
  }

  /** The listing is right, and leaves out no path whose blob or mode differs. */
  ghost predicate Lists(before: Tree, after: Tree, files: Files) {
    && (forall name | name in files :: ItemTrue(before, after, name, files[name]))
    && (forall path :: At(before, path) != At(after, path) ==> path in files || RenamedAway(files, path))
  }

  /** The commits `b` adds to `a`. */
  ghost function NewCommits(r: Repo, a: Sha, b: Sha): set<Sha>
    requires WellFormed(r)
  {
    set c | c in r && Ancestor(r, c, b) && !Ancestor(r, c, a)
  }

  /** What is listed is right; files are all listed below the cap, and commits up to the total. */
  ghost predicate TruthfulComparison(r: Repo, a: Sha, b: Sha, c: Comparison)
    requires WellFormed(r)
  {
    && (c.relation.Identical? ==> a == b)
    && (c.relation.Ahead? ==> Ancestor(r, a, b))
    && IsMergeBase(r, a, b, c.mergeBase)
    && c.mergeBase in r && b in r
    && (forall name | name in c.files :: ItemTrue(r[c.mergeBase].tree, r[b].tree, name, c.files[name]))
    && (|c.files| < LISTING_CAP ==> Lists(r[c.mergeBase].tree, r[b].tree, c.files))
    && (forall s | s in c.commits :: s in NewCommits(r, a, b) && c.commits[s] == r[s].parents)
    && c.total == |NewCommits(r, a, b)|
  }

  /** A file that comes with a text patch is not binary. */
  predicate TruthfulPatches(api: Api, files: Files) {
    forall name | name in files && files[name].patch :: !api.isBinary(files[name].blob)
  }

  ghost predicate TruthfulModes(tree: Tree, modes: map<string, nat>) {
    forall path :: (path in modes <==> path in tree) && (path in tree ==> modes[path] == tree[path].mode)
  }

  ghost predicate Truthful(r: Repo, api: Api) {
    && WellFormed(r)
    && (forall a, b | api.compare(a, b).Some? :: TruthfulComparison(r, a, b, api.compare(a, b).value))
    && (forall a, b | api.compare(a, b).Some? :: TruthfulPatches(api, api.compare(a, b).value.files))
    && (forall c | c in r :: api.parents(c) == r[c].parents)
    && (forall c | c in r && api.modes(c).Some? :: TruthfulModes(r[c].tree, api.modes(c).value))
  }

  /** Every path a listing touches, counting both names of a rename. */
  function Touched(files: Files): set<string> {
    files.Keys + set name | name in files && files[name].source.Some? :: files[name].source.value
  }

  /** The two listings name the same change. */
  predicate SameChange(expected: Files, found: Files) {
    && expected.Keys == found.Keys
    && forall name | name in expected ::
         && expected[name].status == found[name].status
         && expected[name].blob == found[name].blob
         && expected[name].source == found[name].source
  }

  predicate SameModes(paths: set<string>, a: map<string, nat>, b: map<string, nat>) {
    forall path | path in paths ::
      (if path in a then Some(a[path]) else None) == (if path in b then Some(b[path]) else None)
  }

  // ---------------------------------------------------------------------------
  // Ancestry
  // ---------------------------------------------------------------------------

  lemma {:induction false} AncestorOrder(r: Repo, a: Sha, c: Sha)
    requires WellFormed(r) && Ancestor(r, a, c)
    ensures a in r && a <= c
    decreases c
  {
    if a == c {
    } else {
      var p :| IsParent(r, c, p) && Ancestor(r, a, p);
      AncestorOrder(r, a, p);
    }
  }

  lemma {:induction false} AncestorTransitive(r: Repo, a: Sha, b: Sha, c: Sha)
    requires WellFormed(r) && Ancestor(r, a, b) && Ancestor(r, b, c)
    ensures Ancestor(r, a, c)
    decreases c
  {
    if b == c {
    } else {
      var p :| IsParent(r, c, p) && Ancestor(r, b, p);
      AncestorTransitive(r, a, b, p);
    }
  }

  /** An ancestor is its own merge base with its descendant. */
  lemma MergeBaseOfAncestor(r: Repo, a: Sha, b: Sha, m: Sha)
    requires WellFormed(r) && Ancestor(r, a, b) && IsMergeBase(r, a, b, m)
    ensures m == a
  {
    AncestorOrder(r, a, b);
    assert Ancestor(r, a, a);
    assert IsCommon(r, a, b, a);
  }

  // ---------------------------------------------------------------------------
  // Changes as values
  // ---------------------------------------------------------------------------

  /** What turns `before` into `after`: the new entry, or its absence, of every path that differs. */
  function Delta(before: Tree, after: Tree): map<string, Option<Entry>> {
    map path | path in before.Keys + after.Keys && At(before, path) != At(after, path) :: At(after, path)
  }

  function Apply(tree: Tree, delta: map<string, Option<Entry>>): Tree {
    map path | path in tree.Keys + delta.Keys && (path in delta ==> delta[path].Some?) ::
      if path in delta then delta[path].value else tree[path]
  }

  lemma ApplyAt(tree: Tree, delta: map<string, Option<Entry>>, path: string)
    ensures At(Apply(tree, delta), path) == if path in delta then delta[path] else At(tree, path)
  {
  }

  lemma DeltaAt(before: Tree, after: Tree, path: string)
    ensures path in Delta(before, after) <==> At(before, path) != At(after, path)
    ensures path in Delta(before, after) ==> Delta(before, after)[path] == At(after, path)
  {
  }

  lemma SameTree(a: Tree, b: Tree)
    requires forall path :: At(a, path) == At(b, path)
    ensures a == b
  {
    forall path ensures path in a <==> path in b {
      assert At(a, path) == At(b, path);
    }
    forall path | path in a ensures a[path] == b[path] {
      assert At(a, path) == At(b, path);
    }
  }

  /**
    Two listings of the same change, with the same modes for what is left, agree on the paths
    changed and on what each of them became.
   */
  lemma SameListingSameResult(before1: Tree, after1: Tree, before2: Tree, after2: Tree, files1: Files, files2: Files,
                              path: string)
    requires Lists(before1, after1, files1) && Lists(before2, after2, files2) && SameChange(files1, files2)
    requires forall name | name in files1 && !files1[name].status.Deleted? ::
               name in after1 && name in after2 && after1[name].mode == after2[name].mode
    ensures path in files1 || RenamedAway(files1, path) ==> At(after1, path) == At(after2, path)
    ensures path in files1 || RenamedAway(files1, path) <==> path in files2 || RenamedAway(files2, path)
    ensures At(before1, path) != At(after1, path) <==> At(before2, path) != At(after2, path)
  {
    assert RenamedAway(files1, path) <==> RenamedAway(files2, path);
    if path in files1 {
      assert ItemTrue(before1, after1, path, files1[path]) && ItemTrue(before2, after2, path, files2[path]);
    } else if RenamedAway(files1, path) {
      var name :| name in files1 && files1[name].status.Renamed? && files1[name].source == Some(path);
      assert ItemTrue(before1, after1, name, files1[name]) && ItemTrue(before2, after2, name, files2[name]);
    }
  }
}
