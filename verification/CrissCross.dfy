/**
  A history in which the merge bases do fork: commits 1 and 2 both start from 0, the base, 3, merges
  them, the approved commit, 4, starts from 1, and the head, 5, merges 2 into it. Base and head have
  two best merge bases, so an approval carries although the base changed the approved file.
 */
module CrissCross {
  import opened Wrappers
  import opened CarryPolicy
  import opened CommitGraph
  import opened MergeCarry
  import opened CarryForks

  const HISTORY: Repo :=
    map[0 := Commit([], map[]), 1 := Commit([0], map[]), 2 := Commit([0], map[]),
        3 := Commit([1, 2], map[]), 4 := Commit([1], map[]), 5 := Commit([4, 2], map[])]

  const CROSSED: Forked := Forked(3, 4, 5, 1, 2, 0)

  lemma NoParents(r: Repo, c: Sha)
    requires WellFormed(r) && c in r && r[c].parents == []
    ensures forall a :: Ancestor(r, a, c) <==> a == c
  {
  }

  lemma OneParent(r: Repo, c: Sha, p: Sha, above: set<Sha>)
    requires WellFormed(r) && c in r && r[c].parents == [p] && forall a :: Ancestor(r, a, p) <==> a in above
    ensures forall a :: Ancestor(r, a, c) <==> a in above + {c}
  {
    assert forall x :: IsParent(r, c, x) <==> x == p;
  }

  lemma TwoParents(r: Repo, c: Sha, p: Sha, q: Sha, aboveP: set<Sha>, aboveQ: set<Sha>)
    requires WellFormed(r) && c in r && r[c].parents == [p, q]
    requires forall a :: Ancestor(r, a, p) <==> a in aboveP
    requires forall a :: Ancestor(r, a, q) <==> a in aboveQ
    ensures forall a :: Ancestor(r, a, c) <==> a in aboveP + aboveQ + {c}
  {
    assert IsParent(r, c, p) && IsParent(r, c, q);
    assert forall x :: IsParent(r, c, x) <==> x == p || x == q;
  }

  function Above(c: Sha): set<Sha> {
    if c == 0 then {0} else if c == 1 then {0, 1} else if c == 2 then {0, 2}
    else if c == 3 then {0, 1, 2, 3} else if c == 4 then {0, 1, 4} else {0, 1, 2, 4, 5}
  }

  ghost predicate AboveIsRight(r: Repo, c: Sha)
    requires WellFormed(r)
  {
    forall a :: Ancestor(r, a, c) <==> a in Above(c)
  }

  ghost predicate HasShape(r: Repo) {
    && (forall c: Sha | c <= 5 :: c in r)
    && r[0].parents == [] && r[1].parents == [0] && r[2].parents == [0]
    && r[3].parents == [1, 2] && r[4].parents == [1] && r[5].parents == [4, 2]
  }

  lemma LowAncestry(r: Repo)
    requires WellFormed(r) && HasShape(r)
    ensures AboveIsRight(r, 0) && AboveIsRight(r, 1) && AboveIsRight(r, 2) && AboveIsRight(r, 4)
  {
    NoParents(r, 0);
    OneParent(r, 1, 0, {0});
    OneParent(r, 2, 0, {0});
    OneParent(r, 4, 1, {0, 1});
  }

  lemma HighAncestry(r: Repo)
    requires WellFormed(r) && HasShape(r) && AboveIsRight(r, 1) && AboveIsRight(r, 2) && AboveIsRight(r, 4)
    ensures AboveIsRight(r, 3) && AboveIsRight(r, 5)
  {
    TwoParents(r, 3, 1, 2, {0, 1}, {0, 2});
    TwoParents(r, 5, 4, 2, {0, 1, 4}, {0, 2});
  }

  lemma Ancestry(r: Repo)
    requires WellFormed(r) && HasShape(r)
    ensures AllRight(r)
  {
    LowAncestry(r);
    HighAncestry(r);
  }

  lemma IsBest(r: Repo, a: Sha, b: Sha, m: Sha, common: set<Sha>)
    requires WellFormed(r) && forall x :: IsCommon(r, a, b, x) <==> x in common
    requires m in common && forall x | x in common :: x == m || !Ancestor(r, m, x)
    ensures IsMergeBase(r, a, b, m)
  {
  }

  ghost predicate AllRight(r: Repo)
    requires WellFormed(r)
  {
    forall c: Sha | c <= 5 :: AboveIsRight(r, c)
  }

  lemma ApprovedMergeBase(r: Repo)
    requires WellFormed(r) && AllRight(r)
    ensures IsMergeBase(r, 3, 4, 1)
  {
    assert AboveIsRight(r, 3) && AboveIsRight(r, 4);
    assert AboveIsRight(r, 0);
    IsBest(r, 3, 4, 1, {0, 1});
  }

  lemma HeadMergeBase(r: Repo)
    requires WellFormed(r) && AllRight(r)
    ensures IsMergeBase(r, 3, 5, 2)
  {
    assert AboveIsRight(r, 3) && AboveIsRight(r, 5);
    assert AboveIsRight(r, 0);
    assert AboveIsRight(r, 1);
    IsBest(r, 3, 5, 2, {0, 1, 2});
  }

  lemma ForkMergeBase(r: Repo)
    requires WellFormed(r) && AllRight(r)
    ensures IsMergeBase(r, 1, 2, 0)
  {
    assert AboveIsRight(r, 1) && AboveIsRight(r, 2);
    IsBest(r, 1, 2, 0, {0});
  }

  lemma MergeBasesFork(r: Repo)
    requires WellFormed(r) && HasShape(r)
    ensures IsForked(r, CROSSED)
  {
    Ancestry(r);
    ApprovedMergeBase(r);
    HeadMergeBase(r);
    ForkMergeBase(r);
  }

  lemma OneMergeLeads(r: Repo)
    requires WellFormed(r) && HasShape(r)
    ensures Loses(r, CROSSED)
  {
    Ancestry(r);
    assert AboveIsRight(r, 3) && 4 !in Above(3) && 2 in Above(3);
    assert MergesLead(r, 3, 4, 4, MAX_CARRY_MERGES - 1);
  }

  lemma Crossed() returns (h: Repo)
    ensures h == HISTORY && WellFormed(h) && HasShape(h)
  {
    h := HISTORY;
  }

  /**
    The carry accepts, and still the base changed the approved file between the two merge bases:
    with more than one merge base the promise that it did not fails.
   */
  lemma CarryMissesBaseChange(t: Tables, excluded: seq<string>, f: string) returns (r: Repo, api: Api, carry: Carry)
    requires !Refuses(t, f, excluded)
    ensures SameHistory(HISTORY, r) && Truthful(r, api)
    ensures Carries(api, t, 3, 4, 5, excluded, carry) && carry.oldBase == 1 && carry.newBase == 2
    ensures f in Delta(r[1].tree, r[4].tree) && At(r[1].tree, f) != At(r[2].tree, f)
  {
    var h := Crossed();
    MergeBasesFork(h);
    OneMergeLeads(h);
    r, api, carry := ForkHidesBaseChange(h, CROSSED, t, excluded, f);
  }
}
