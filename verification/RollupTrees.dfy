/**
  Trees assembled from members that change disjoint paths: what the assembled tree holds path by
  path, and what merging it onto a later tip gives.
 */
module RollupTrees {
  import opened Wrappers
  import opened CommitGraph

  /** A member's change from `before` to `after`, as a comparison lists it. */
  datatype Member = Member(before: Tree, after: Tree, files: Files)

  ghost predicate Disjoint(members: seq<Member>) {
    forall j, k | 0 <= j < k < |members| :: Touched(members[j].files) !! Touched(members[k].files)
  }

  function Combined(members: seq<Member>): Files {
    if members == [] then map[] else Combined(members[..|members| - 1]) + members[|members| - 1].files
  }

  /** Some member touches the path. */
  ghost predicate Owned(members: seq<Member>, path: string) {
    exists k | 0 <= k < |members| :: path in Touched(members[k].files)
  }

  /** What the rollup rule establishes about a member, against the base and the head. */
  ghost predicate MemberFits(base: Tree, head: Tree, m: Member) {
    && Lists(m.before, m.after, m.files)
    && (forall path | path in Touched(m.files) :: At(m.before, path) == At(base, path))
    && (forall name | name in m.files && name in m.after && name in head :: m.after[name].mode == head[name].mode)
  }

  /** `head` is `base` with the members' listed changes. */
  ghost predicate Assembles(base: Tree, head: Tree, members: seq<Member>, union: Files) {
    && Disjoint(members)
    && (forall k | 0 <= k < |members| :: MemberFits(base, head, members[k]))
    && Lists(base, head, union)
    && SameChange(Combined(members), union)
  }

  lemma {:induction false} CombinedHolds(members: seq<Member>, k: nat, name: string)
    requires Disjoint(members) && k < |members| && name in members[k].files
    ensures name in Combined(members) && Combined(members)[name] == members[k].files[name]
  {
    var last := |members| - 1;
    if k >= last {
    } else {
      assert Touched(members[k].files) !! Touched(members[last].files);
      CombinedHolds(members[..last], k, name);
    }
  }

  lemma {:induction false} CombinedOwner(members: seq<Member>, name: string) returns (k: nat)
    requires name in Combined(members)
    ensures k < |members| && name in members[k].files && Combined(members)[name] == members[k].files[name]
  {
    var last := |members| - 1;
    if name in members[last].files {
      k := last;
    } else {
      k := CombinedOwner(members[..last], name);
    }
  }

  lemma SameOwner(members: seq<Member>, j: nat, k: nat, path: string)
    requires Disjoint(members) && j < |members| && k < |members|
    requires path in Touched(members[j].files) && path in Touched(members[k].files)
    ensures j == k
  {
  }

  /** A path listed in the combination is listed by a member that touches it. */
  lemma ListedByOwner(members: seq<Member>, path: string) returns (k: nat)
    requires path in Combined(members) || RenamedAway(Combined(members), path)
    ensures k < |members| && path in Touched(members[k].files)
    ensures path in Combined(members) ==> path in members[k].files
    ensures path !in Combined(members) ==> RenamedAway(members[k].files, path)
  {
    var all := Combined(members);
    if path in all {
      k := CombinedOwner(members, path);
    } else {
      var name :| name in all && all[name].status.Renamed? && all[name].source == Some(path);
      k := CombinedOwner(members, name);
    }
  }

  lemma UnlistedStays(base: Tree, head: Tree, members: seq<Member>, union: Files, path: string)
    requires Assembles(base, head, members, union)
    requires path !in Combined(members) && !RenamedAway(Combined(members), path)
    ensures At(head, path) == At(base, path)
  {
    assert !RenamedAway(union, path);
  }

  /** On a member's path the assembled head holds what the member holds. */
  lemma HeadHoldsMemberPath(base: Tree, head: Tree, members: seq<Member>, union: Files, k: nat, path: string)
    requires Assembles(base, head, members, union)
    requires k < |members| && path in Touched(members[k].files)
    ensures At(head, path) == At(members[k].after, path)
  {
    var m := members[k];
    assert MemberFits(base, head, m);
    if path in m.files {
      CombinedHolds(members, k, path);
      assert ItemTrue(m.before, m.after, path, m.files[path]) && ItemTrue(base, head, path, union[path]);
    } else if RenamedAway(m.files, path) {
      var name :| name in m.files && m.files[name].status.Renamed? && m.files[name].source == Some(path);
      CombinedHolds(members, k, name);
      assert ItemTrue(m.before, m.after, name, m.files[name]) && ItemTrue(base, head, name, union[name]);
    } else {
      if path in Combined(members) || RenamedAway(Combined(members), path) {
        var j := ListedByOwner(members, path);
        SameOwner(members, j, k, path);
      }
      UnlistedStays(base, head, members, union, path);
    }
  }

  /** Off every member's paths the assembled head is the base. */
  lemma HeadHoldsBasePath(base: Tree, head: Tree, members: seq<Member>, union: Files, path: string)
    requires Assembles(base, head, members, union) && !Owned(members, path)
    ensures At(head, path) == At(base, path)
  {
    if path in Combined(members) || RenamedAway(Combined(members), path) {
      var j := ListedByOwner(members, path);
    }
    UnlistedStays(base, head, members, union, path);
  }

  // ---------------------------------------------------------------------------
  // Landing on the tip
  // ---------------------------------------------------------------------------

  /** Merging `theirs` into `ours` on one path; `None` is a conflict. */
  function ThreeWay(base: Option<Entry>, ours: Option<Entry>, theirs: Option<Entry>): Option<Option<Entry>> {
    if theirs == base || theirs == ours then Some(ours)
    else if ours == base then Some(theirs)
    else None
  }

  /** The members' changes together. */
  function Changes(members: seq<Member>): map<string, Option<Entry>> {
    if members == [] then
      map[]
    else
      var last := members[|members| - 1];
      Changes(members[..|members| - 1]) + Delta(last.before, last.after)
  }

  lemma DeltaIsTouched(m: Member, path: string)
    requires Lists(m.before, m.after, m.files) && path in Delta(m.before, m.after)
    ensures path in Touched(m.files)
  {
    DeltaAt(m.before, m.after, path);
  }

  ghost predicate AllListed(members: seq<Member>) {
    forall k | 0 <= k < |members| :: Lists(members[k].before, members[k].after, members[k].files)
  }

  lemma {:induction false} ChangeOwner(members: seq<Member>, path: string) returns (k: nat)
    requires AllListed(members) && path in Changes(members)
    ensures k < |members| && path in Touched(members[k].files)
  {
    var last := |members| - 1;
    if path in Delta(members[last].before, members[last].after) {
      DeltaIsTouched(members[last], path);
      k := last;
    } else {
      k := ChangeOwner(members[..last], path);
    }
  }

  /** What the combined change does on a path that member `k` touches. */
  lemma {:induction false} ChangesAt(members: seq<Member>, k: nat, path: string)
    requires AllListed(members) && Disjoint(members)
    requires k < |members| && path in Touched(members[k].files)
    ensures path in Changes(members) <==> At(members[k].before, path) != At(members[k].after, path)
    ensures path in Changes(members) ==> Changes(members)[path] == At(members[k].after, path)
  {
    var last := |members| - 1;
    var init := members[..last];
    DeltaAt(members[last].before, members[last].after, path);
    if k == last {
      if path in Changes(init) {
        var j := ChangeOwner(init, path);
        SameOwner(members, j, k, path);
      }
    } else {
      ChangesAt(init, k, path);
      if path in Delta(members[last].before, members[last].after) {
        DeltaIsTouched(members[last], path);
      }
    }
  }

  lemma AllFitListed(base: Tree, head: Tree, members: seq<Member>, union: Files)
    requires Assembles(base, head, members, union)
    ensures AllListed(members)
  {
    forall k | 0 <= k < |members| ensures Lists(members[k].before, members[k].after, members[k].files) {
      assert MemberFits(base, head, members[k]);
    }
  }

  lemma OwnedChange(base: Tree, head: Tree, members: seq<Member>, union: Files, k: nat, path: string)
    requires Assembles(base, head, members, union) && k < |members| && path in Touched(members[k].files)
    ensures path in Changes(members) <==> At(base, path) != At(head, path)
    ensures path in Changes(members) ==> Changes(members)[path] == At(head, path)
  {
    AllFitListed(base, head, members, union);
    HeadHoldsMemberPath(base, head, members, union, k, path);
    ChangesAt(members, k, path);
    assert MemberFits(base, head, members[k]);
  }

  /** The members' changes together are exactly what turns the base into the assembled head. */
  lemma ChangesMakeTheHead(base: Tree, head: Tree, members: seq<Member>, union: Files, path: string)
    requires Assembles(base, head, members, union)
    ensures path in Changes(members) <==> At(base, path) != At(head, path)
    ensures path in Changes(members) ==> Changes(members)[path] == At(head, path)
  {
    AllFitListed(base, head, members, union);
    if Owned(members, path) {
      var k :| 0 <= k < |members| && path in Touched(members[k].files);
      OwnedChange(base, head, members, union, k, path);
    } else {
      HeadHoldsBasePath(base, head, members, union, path);
      if path in Changes(members) {
        ChangesAreOwned(members, path);
      }
    }
  }

  /**
    Merging the assembled head onto any tip gives, on every path, the tip with the members' changes
    applied, or a conflict; and a conflict exactly where the tip itself changed a member's path, to
    something else than the member did.
   */
  lemma AssembledLands(base: Tree, head: Tree, tip: Tree, members: seq<Member>, union: Files, path: string)
    requires Assembles(base, head, members, union)
    ensures var landed := ThreeWay(At(base, path), At(tip, path), At(head, path));
            && (landed.Some? ==> landed.value == At(Apply(tip, Changes(members)), path))
            && (landed.None? <==>
                  && path in Changes(members)
                  && At(tip, path) != At(base, path) && At(tip, path) != Changes(members)[path])
  {
    ApplyAt(tip, Changes(members), path);
    ChangesMakeTheHead(base, head, members, union, path);
  }

  lemma ChangesAreOwned(members: seq<Member>, path: string)
    requires AllListed(members) && path in Changes(members)
    ensures Owned(members, path)
  {
    var k := ChangeOwner(members, path);
  }
}
