/**
  Which histories keep the promise of a merge carry that the base changed no approved path between
  the old and the new merge base: exactly those in which the old merge base is what the two merge
  bases fork from. In every other history that can carry at all there are trees, and truthful
  answers about them, under which the carry accepts and an approved file differs.
 */
module CarryForks {
  import opened Wrappers
  import opened CarryPolicy
  import opened CommitGraph
  import opened MergeCarry

  /** The commits a carry reads: the two merge bases it is answered, and where those two fork. */
  datatype Forked = Forked(base: Sha, approved: Sha, head: Sha, oldBase: Sha, newBase: Sha, fork: Sha)

  ghost predicate IsForked(h: Repo, k: Forked)
    requires WellFormed(h)
  {
    && IsMergeBase(h, k.base, k.approved, k.oldBase)
    && IsMergeBase(h, k.base, k.head, k.newBase)
    && IsMergeBase(h, k.oldBase, k.newBase, k.fork)
  }

  /** At most `budget` merges of the base lead from `sha` back to `approved`. */
  ghost predicate MergesLead(h: Repo, base: Sha, approved: Sha, sha: Sha, budget: nat)
    requires WellFormed(h)
    decreases budget
  {
    || sha == approved
    || (&& budget > 0 && sha in h && |h[sha].parents| == 2 && Ancestor(h, h[sha].parents[1], base)
        && MergesLead(h, base, approved, h[sha].parents[0], budget - 1))
  }

  // ---------------------------------------------------------------------------
  // One history, any trees
  // ---------------------------------------------------------------------------

  ghost predicate SameHistory(h: Repo, r: Repo) {
    h.Keys == r.Keys && forall c | c in h :: r[c].parents == h[c].parents
  }

  lemma SameForm(h: Repo, r: Repo)
    requires WellFormed(h) && SameHistory(h, r)
    ensures WellFormed(r)
  {
    forall c, p | IsParent(r, c, p) ensures p in r && p < c {
      assert IsParent(h, c, p);
    }
  }

  lemma {:induction false} SameAncestors(h: Repo, r: Repo, a: Sha, c: Sha)
    requires WellFormed(h) && WellFormed(r) && SameHistory(h, r)
    ensures Ancestor(h, a, c) <==> Ancestor(r, a, c)
    decreases c
  {
    forall p | IsParent(h, c, p) ensures Ancestor(h, a, p) <==> Ancestor(r, a, p) {
      SameAncestors(h, r, a, p);
    }
    assert forall p :: IsParent(h, c, p) <==> IsParent(r, c, p);
  }

  lemma SameMergeBase(h: Repo, r: Repo, a: Sha, b: Sha, m: Sha)
    requires WellFormed(h) && WellFormed(r) && SameHistory(h, r)
    ensures IsMergeBase(h, a, b, m) <==> IsMergeBase(r, a, b, m)
  {
    forall x, y ensures Ancestor(h, x, y) <==> Ancestor(r, x, y) {
      SameAncestors(h, r, x, y);
    }
  }

  lemma MergeBaseIsOnBoth(h: Repo, a: Sha, b: Sha, m: Sha)
    requires WellFormed(h) && IsMergeBase(h, a, b, m)
    ensures a in h && b in h && m in h && Ancestor(h, m, a) && Ancestor(h, m, b)
  {
    AncestorOrder(h, m, a);
    AncestorOrder(h, m, b);
  }

  // ---------------------------------------------------------------------------
  // Trees that hide a change of the base
  // ---------------------------------------------------------------------------

  /** The old merge base changed the file, and the approved change edits it further. */
  function EntryOf(k: Forked, c: Sha): Entry {
    Entry(if c == k.oldBase then 1 else if c == k.approved || c == k.head then 2 else 0, 0)
  }

  function Filled(h: Repo, k: Forked, f: string): Repo {
    map c | c in h :: Commit(h[c].parents, map[f := EntryOf(k, c)])
  }

  function Change(k: Forked, f: string, a: Sha, b: Sha): Files {
    if EntryOf(k, a) == EntryOf(k, b) then map[] else map[f := FileItem(Modified, EntryOf(k, b).blob, None, true)]
  }

  lemma ChangeIsRight(k: Forked, f: string, a: Sha, b: Sha)
    ensures Lists(map[f := EntryOf(k, a)], map[f := EntryOf(k, b)], Change(k, f, a, b))
  {
  }

  /** The commits of `b` that `a` lacks. */
  ghost function Between(h: Repo, a: Sha, b: Sha): map<Sha, seq<Sha>>
    requires WellFormed(h)
  {
    map c | c in NewCommits(h, a, b) :: h[c].parents
  }

  ghost function Compared(h: Repo, k: Forked, f: string, relation: Relation, m: Sha, a: Sha, b: Sha): Option<Comparison>
    requires WellFormed(h)
  {
    Some(Comparison(relation, m, Change(k, f, m, b), Between(h, a, b), |Between(h, a, b)|))
  }

  ghost function Answer(h: Repo, k: Forked, f: string, a: Sha, b: Sha): Option<Comparison>
    requires WellFormed(h)
  {
    if a == k.base && b == k.approved then Compared(h, k, f, Diverged, k.oldBase, a, b)
    else if a == k.base && b == k.head then Compared(h, k, f, Diverged, k.newBase, a, b)
    else if a == k.oldBase && b == k.newBase then Compared(h, k, f, Diverged, k.fork, a, b)
    else if Ancestor(h, a, b) then Compared(h, k, f, if a == b then Identical else Ahead, a, a, b)
    else None
  }

  ghost function Answers(h: Repo, k: Forked, f: string): Api
    requires WellFormed(h)
  {
    Api((a: Sha, b: Sha) => Answer(h, k, f, a, b),
        (c: Sha) => if c in h then h[c].parents else [],
        (c: Sha) => Some(map[f := 0]),
        (blob: nat) => false)
  }

  lemma SelfIsMergeBase(h: Repo, a: Sha, b: Sha)
    requires WellFormed(h) && Ancestor(h, a, b)
    ensures IsMergeBase(h, a, b, a)
  {
    AncestorOrder(h, a, b);
    forall x | IsCommon(h, a, b, x) && Ancestor(h, a, x) ensures x == a {
      AncestorOrder(h, x, a);
      AncestorOrder(h, a, x);
    }
  }

  lemma AnsweredMergeBase(h: Repo, k: Forked, f: string, a: Sha, b: Sha)
    requires WellFormed(h) && IsForked(h, k) && Answer(h, k, f, a, b).Some?
    ensures IsMergeBase(h, a, b, Answer(h, k, f, a, b).value.mergeBase)
  {
    if Ancestor(h, a, b) {
      SelfIsMergeBase(h, a, b);
    }
  }

  lemma BetweenIsNew(h: Repo, r: Repo, a: Sha, b: Sha)
    requires WellFormed(h) && WellFormed(r) && SameHistory(h, r)
    ensures Between(h, a, b).Keys == NewCommits(r, a, b) && |Between(h, a, b)| == |NewCommits(r, a, b)|
    ensures forall c | c in Between(h, a, b) :: c in r && Between(h, a, b)[c] == r[c].parents
  {
    forall c ensures Ancestor(h, c, a) <==> Ancestor(r, c, a) {
      SameAncestors(h, r, c, a);
    }
    forall c ensures Ancestor(h, c, b) <==> Ancestor(r, c, b) {
      SameAncestors(h, r, c, b);
    }
    assert Between(h, a, b).Keys == NewCommits(r, a, b);
    assert |Between(h, a, b)| == |Between(h, a, b).Keys|;
  }

  lemma ComparedIsTruthful(h: Repo, r: Repo, k: Forked, f: string, relation: Relation, m: Sha, a: Sha, b: Sha)
    requires WellFormed(h) && WellFormed(r) && SameHistory(h, r) && IsMergeBase(h, a, b, m)
    requires forall c | c in r :: r[c].tree == map[f := EntryOf(k, c)]
    requires (relation.Identical? ==> a == b) && (relation.Ahead? ==> Ancestor(h, a, b))
    ensures TruthfulComparison(r, a, b, Compared(h, k, f, relation, m, a, b).value)
  {
    MergeBaseIsOnBoth(h, a, b, m);
    SameMergeBase(h, r, a, b, m);
    SameAncestors(h, r, a, b);
    ChangeIsRight(k, f, m, b);
    assert Lists(r[m].tree, r[b].tree, Change(k, f, m, b));
    BetweenIsNew(h, r, a, b);
  }

  lemma AnswerIsTruthful(h: Repo, r: Repo, k: Forked, f: string, a: Sha, b: Sha)
    requires WellFormed(h) && WellFormed(r) && SameHistory(h, r) && IsForked(h, k) && Answer(h, k, f, a, b).Some?
    requires forall c | c in r :: r[c].tree == map[f := EntryOf(k, c)]
    ensures TruthfulComparison(r, a, b, Answer(h, k, f, a, b).value)
  {
    AnsweredMergeBase(h, k, f, a, b);
    var c := Answer(h, k, f, a, b).value;
    ComparedIsTruthful(h, r, k, f, c.relation, c.mergeBase, a, b);
  }

  lemma AnswersAreTruthful(h: Repo, k: Forked, f: string)
    requires WellFormed(h) && IsForked(h, k)
    ensures SameHistory(h, Filled(h, k, f)) && Truthful(Filled(h, k, f), Answers(h, k, f))
  {
    var api := Answers(h, k, f);
    SameForm(h, Filled(h, k, f));
    assert forall a, b :: api.compare(a, b) == Answer(h, k, f, a, b);
    ComparisonsAreTruthful(h, Filled(h, k, f), k, f, api);
    RestIsTruthful(h, k, f, api);
  }

  lemma ComparisonsAreTruthful(h: Repo, r: Repo, k: Forked, f: string, api: Api)
    requires WellFormed(h) && WellFormed(r) && SameHistory(h, r) && IsForked(h, k)
    requires forall c | c in r :: r[c].tree == map[f := EntryOf(k, c)]
    requires forall a, b :: api.compare(a, b) == Answer(h, k, f, a, b)
    requires forall blob :: !api.isBinary(blob)
    ensures forall a, b | api.compare(a, b).Some? :: TruthfulComparison(r, a, b, api.compare(a, b).value)
    ensures forall a, b | api.compare(a, b).Some? :: TruthfulPatches(api, api.compare(a, b).value.files)
  {
    forall a, b | api.compare(a, b).Some? ensures TruthfulComparison(r, a, b, api.compare(a, b).value) {
      AnswerIsTruthful(h, r, k, f, a, b);
    }
  }

  lemma RestIsTruthful(h: Repo, k: Forked, f: string, api: Api)
    requires forall c | c in h :: api.parents(c) == h[c].parents
    requires forall c :: api.modes(c) == Some(map[f := 0])
    ensures var r := Filled(h, k, f);
            && (forall c | c in r :: api.parents(c) == r[c].parents)
            && (forall c | c in r && api.modes(c).Some? :: TruthfulModes(r[c].tree, api.modes(c).value))
  {
  }

  // ---------------------------------------------------------------------------
  // The carry accepts
  // ---------------------------------------------------------------------------

  /** The history can carry an approval that is not on the base already, and the bases fork. */
  ghost predicate Loses(h: Repo, k: Forked)
    requires WellFormed(h)
  {
    && k.fork != k.oldBase && k.head != k.approved && !Ancestor(h, k.approved, k.base)
    && MergesLead(h, k.base, k.approved, k.head, 3)
  }

  lemma {:induction false} LeadsFromApproved(h: Repo, base: Sha, approved: Sha, sha: Sha, budget: nat)
    requires WellFormed(h) && approved in h && MergesLead(h, base, approved, sha, budget)
    ensures Ancestor(h, approved, sha)
    decreases budget
  {
    if sha == approved {
    } else {
      var first := h[sha].parents[0];
      LeadsFromApproved(h, base, approved, first, budget - 1);
      assert IsParent(h, sha, first);
    }
  }

  /** Neither the approved commit nor the head is one of the commits on the base. */
  lemma OffTheBase(h: Repo, k: Forked)
    requires WellFormed(h) && IsForked(h, k) && Loses(h, k)
    ensures k.approved in h && k.base in h && Ancestor(h, k.approved, k.head) && !Ancestor(h, k.head, k.base)
    ensures Ancestor(h, k.oldBase, k.base) && Ancestor(h, k.newBase, k.base) && Ancestor(h, k.fork, k.base)
    ensures !Ancestor(h, k.oldBase, k.newBase) && k.oldBase != k.newBase
  {
    MergeBaseIsOnBoth(h, k.base, k.approved, k.oldBase);
    MergeBaseIsOnBoth(h, k.base, k.head, k.newBase);
    MergeBaseIsOnBoth(h, k.oldBase, k.newBase, k.fork);
    LeadsFromApproved(h, k.base, k.approved, k.head, MAX_CARRY_MERGES);
    if Ancestor(h, k.head, k.base) {
      AncestorTransitive(h, k.approved, k.head, k.base);
    }
    AncestorTransitive(h, k.fork, k.oldBase, k.base);
    if Ancestor(h, k.oldBase, k.newBase) {
      MergeBaseOfAncestor(h, k.oldBase, k.newBase, k.fork);
    }
  }

  /** What the file is at each commit the carry reads. */
  lemma EntriesRead(h: Repo, k: Forked)
    requires WellFormed(h) && IsForked(h, k) && Loses(h, k)
    ensures EntryOf(k, k.oldBase).blob == 1 && EntryOf(k, k.approved).blob == 2 && EntryOf(k, k.head).blob == 2
    ensures EntryOf(k, k.newBase).blob == 0 && EntryOf(k, k.fork).blob == 0
  {
    OffTheBase(h, k);
  }

  lemma {:induction false} ChainIsFound(h: Repo, k: Forked, api: Api, sha: Sha, budget: nat) returns (n: nat)
    requires WellFormed(h) && k.approved in h
    requires forall parent | Ancestor(h, parent, k.base) :: OnBase(api, parent, k.base)
    requires Ancestor(h, sha, k.head) && MergesLead(h, k.base, k.approved, sha, budget)
    ensures ChainLength(api, k.base, k.approved, Between(h, k.approved, k.head), sha, budget) == Some(n)
    decreases budget
  {
    if sha == k.approved {
      n := 0;
    } else {
      var first := h[sha].parents[0];
      LeadsFromApproved(h, k.base, k.approved, sha, budget);
      AncestorOrder(h, k.approved, sha);
      if Ancestor(h, sha, k.approved) {
        AncestorOrder(h, sha, k.approved);
      }
      assert IsParent(h, sha, first) && Ancestor(h, first, first);
      AncestorTransitive(h, first, sha, k.head);
      n := ChainIsFound(h, k, api, first, budget - 1);
      n := n + 1;
    }
  }

  /** What the API answers about the commits of the carry. */
  ghost predicate IsAnswering(h: Repo, k: Forked, f: string, api: Api)
    requires WellFormed(h)
  {
    && api.compare(k.approved, k.head) == Compared(h, k, f, Ahead, k.approved, k.approved, k.head)
    && api.compare(k.base, k.approved) == Compared(h, k, f, Diverged, k.oldBase, k.base, k.approved)
    && api.compare(k.base, k.head) == Compared(h, k, f, Diverged, k.newBase, k.base, k.head)
    && api.compare(k.oldBase, k.newBase) == Compared(h, k, f, Diverged, k.fork, k.oldBase, k.newBase)
    && (forall parent | Ancestor(h, parent, k.base) :: OnBase(api, parent, k.base))
    && (forall c :: api.modes(c) == Some(map[f := 0]))
  }

  lemma ParentsAreOnBase(h: Repo, k: Forked, f: string, parent: Sha)
    requires WellFormed(h) && IsForked(h, k) && Loses(h, k) && Ancestor(h, parent, k.base)
    ensures var c := Answer(h, k, f, parent, k.base);
            c.Some? && (c.value.relation.Ahead? || c.value.relation.Identical?)
  {
    OffTheBase(h, k);
    assert Ancestor(h, k.base, k.base);
    assert parent != k.oldBase || k.base != k.newBase;
  }

  lemma AnswersAnswer(h: Repo, k: Forked, f: string)
    requires WellFormed(h) && IsForked(h, k) && Loses(h, k)
    ensures IsAnswering(h, k, f, Answers(h, k, f))
  {
    var api := Answers(h, k, f);
    forall parent | Ancestor(h, parent, k.base) ensures OnBase(api, parent, k.base) {
      ParentsAreOnBase(h, k, f, parent);
    }
    CarryIsAnswered(h, k, f);
  }

  lemma CarryIsAnswered(h: Repo, k: Forked, f: string)
    requires WellFormed(h) && IsForked(h, k) && Loses(h, k)
    ensures Answer(h, k, f, k.approved, k.head) == Compared(h, k, f, Ahead, k.approved, k.approved, k.head)
    ensures Answer(h, k, f, k.base, k.head) == Compared(h, k, f, Diverged, k.newBase, k.base, k.head)
    ensures Answer(h, k, f, k.oldBase, k.newBase) == Compared(h, k, f, Diverged, k.fork, k.oldBase, k.newBase)
  {
    OffTheBase(h, k);
    assert Ancestor(h, k.base, k.base);
  }

  function Edited(f: string): Files {
    map[f := FileItem(Modified, 2, None, true)]
  }

  lemma OneFile(f: string)
    ensures |Edited(f)| == 1 && Touched(Edited(f)) == {f} && Present(Edited(f)) == {f}
  {
    assert Edited(f).Keys == {f} && |Edited(f)| == |Edited(f).Keys|;
  }

  /** The carry's own conditions on what it reads, for a change of one file. */
  ghost predicate ReadsOneFile(api: Api, k: Forked, f: string) {
    var before, after, moved := api.compare(k.base, k.approved), api.compare(k.base, k.head),
      api.compare(k.oldBase, k.newBase);
    && before.Some? && before.value.mergeBase == k.oldBase && before.value.files == Edited(f)
    && after.Some? && after.value.mergeBase == k.newBase && after.value.files == Edited(f)
    && moved.Some? && moved.value.files == map[]
    && ModesKept(api, k.approved, k.head, {f})
  }

  lemma AnsweredReadsOneFile(h: Repo, k: Forked, f: string, api: Api)
    requires WellFormed(h) && IsForked(h, k) && Loses(h, k) && IsAnswering(h, k, f, api)
    ensures ReadsOneFile(api, k, f)
  {
    EntriesRead(h, k);
  }

  lemma OneFileCarries(api: Api, k: Forked, f: string, t: Tables, excluded: seq<string>, n: nat)
    requires ReadsOneFile(api, k, f) && !Refuses(t, f, excluded)
    requires var update := api.compare(k.approved, k.head);
             && update.Some? && update.value.relation.Ahead? && |update.value.commits| == update.value.total
             && ChainLength(api, k.base, k.approved, update.value.commits, k.head, MAX_CARRY_MERGES) == Some(n)
    ensures Carries(api, t, k.base, k.approved, k.head, excluded, Carry(k.oldBase, k.newBase, n, 1))
  {
    OneFile(f);
    assert {f} + {f} == {f};
    assert !CarryExcluded(t, {f}, excluded);
    assert BaseUntouched(api, k.oldBase, k.newBase, {f});
  }

  lemma AnsweredCarries(h: Repo, k: Forked, f: string, api: Api, t: Tables, excluded: seq<string>) returns (n: nat)
    requires WellFormed(h) && IsForked(h, k) && Loses(h, k)
    requires IsAnswering(h, k, f, api) && !Refuses(t, f, excluded)
    ensures Carries(api, t, k.base, k.approved, k.head, excluded, Carry(k.oldBase, k.newBase, n, 1))
  {
    OffTheBase(h, k);
    AncestorOrder(h, k.approved, k.head);
    MergeBaseIsOnBoth(h, k.base, k.head, k.newBase);
    n := ChainIsFound(h, k, api, k.head, MAX_CARRY_MERGES);
    AnsweredReadsOneFile(h, k, f, api);
    OneFileCarries(api, k, f, t, excluded, n);
  }

  /**
    Where the merge bases fork before the old one, some trees with truthful answers make the carry
    accept although the base changed the approved file between the two merge bases. Any file that
    the exclusion list lets carry will do.
   */
  lemma ForkHidesBaseChange(h: Repo, k: Forked, t: Tables, excluded: seq<string>, f: string)
    returns (r: Repo, api: Api, carry: Carry)
    requires WellFormed(h) && IsForked(h, k) && Loses(h, k) && !Refuses(t, f, excluded)
    ensures SameHistory(h, r) && Truthful(r, api) && carry.oldBase == k.oldBase && carry.newBase == k.newBase
    ensures Carries(api, t, k.base, k.approved, k.head, excluded, carry)
    ensures carry.oldBase in r && carry.newBase in r && k.approved in r
    ensures f in Delta(r[k.oldBase].tree, r[k.approved].tree) && At(r[k.oldBase].tree, f) != At(r[k.newBase].tree, f)
  {
    OffTheBase(h, k);
    EntriesRead(h, k);
    AnswersAreTruthful(h, k, f);
    AnswersAnswer(h, k, f);
    r, api := Filled(h, k, f), Answers(h, k, f);
    var n := AnsweredCarries(h, k, f, api, t, excluded);
    carry := Carry(k.oldBase, k.newBase, n, 1);
    AncestorOrder(h, k.oldBase, k.base);
    AncestorOrder(h, k.newBase, k.base);
    DeltaAt(r[k.oldBase].tree, r[k.approved].tree, f);
  }

  // ---------------------------------------------------------------------------
  // Exactly which histories keep the promise
  // ---------------------------------------------------------------------------

  /** The carry accepts these trees on truthful answers, with the merge bases of `k`. */
  ghost predicate AcceptedAs(h: Repo, k: Forked, t: Tables, r: Repo, api: Api, excluded: seq<string>,
                             carry: Carry)
  {
    && SameHistory(h, r) && Truthful(r, api)
    && Carries(api, t, k.base, k.approved, k.head, excluded, carry)
    && carry.oldBase == k.oldBase && carry.newBase == k.newBase
  }

  /** The approved change leaves the path alone, or the base did. */
  ghost predicate KeptAt(r: Repo, k: Forked, path: string) {
    k.oldBase in r && k.newBase in r && k.approved in r && path in Delta(r[k.oldBase].tree, r[k.approved].tree) ==>
      At(r[k.oldBase].tree, path) == At(r[k.newBase].tree, path)
  }

  /** Whatever the trees and the exclusions, an accepted carry has its approved paths unchanged by the base. */
  ghost predicate AlwaysKept(h: Repo, k: Forked, t: Tables) {
    forall r, api, excluded, carry, path | AcceptedAs(h, k, t, r, api, excluded, carry) ::
      KeptAt(r, k, path)
  }

  lemma {:induction false} ChainLeads(h: Repo, api: Api, base: Sha, approved: Sha, parentsOf: map<Sha, seq<Sha>>,
                                      sha: Sha, budget: nat)
    requires WellFormed(h) && BaseIsTrue(h, api, base)
    requires forall s | s in parentsOf :: s in h && parentsOf[s] == h[s].parents
    requires ChainLength(api, base, approved, parentsOf, sha, budget).Some?
    ensures MergesLead(h, base, approved, sha, budget)
    decreases budget
  {
    if sha == approved {
    } else {
      ChainLeads(h, api, base, approved, parentsOf, parentsOf[sha][0], budget - 1);
    }
  }

  lemma {:induction false} SameLead(h: Repo, r: Repo, base: Sha, approved: Sha, sha: Sha, budget: nat)
    requires WellFormed(h) && WellFormed(r) && SameHistory(h, r) && MergesLead(r, base, approved, sha, budget)
    ensures MergesLead(h, base, approved, sha, budget)
    decreases budget
  {
    if sha == approved {
    } else {
      SameAncestors(h, r, h[sha].parents[1], base);
      SameLead(h, r, base, approved, h[sha].parents[0], budget - 1);
    }
  }

  lemma AcceptedLeads(h: Repo, k: Forked, t: Tables, r: Repo, api: Api, excluded: seq<string>,
                      carry: Carry)
    requires WellFormed(h) && AcceptedAs(h, k, t, r, api, excluded, carry)
    ensures MergesLead(h, k.base, k.approved, k.head, MAX_CARRY_MERGES)
  {
    var update := api.compare(k.approved, k.head).value;
    assert TruthfulComparison(r, k.approved, k.head, update);
    TruthfulBase(r, api, k.base);
    ChainLeads(r, api, k.base, k.approved, update.commits, k.head, MAX_CARRY_MERGES);
    SameLead(h, r, k.base, k.approved, k.head, MAX_CARRY_MERGES);
  }

  lemma ApprovedOnBase(h: Repo, base: Sha, approved: Sha, m: Sha)
    requires WellFormed(h) && IsMergeBase(h, base, approved, m) && Ancestor(h, approved, base)
    ensures m == approved
  {
    MergeBaseIsOnBoth(h, base, approved, m);
    assert IsCommon(h, base, approved, approved);
  }

  lemma KeptUnlessLost(h: Repo, k: Forked, t: Tables, r: Repo, api: Api, excluded: seq<string>,
                       carry: Carry, path: string)
    requires WellFormed(h) && IsForked(h, k) && !Loses(h, k)
    requires AcceptedAs(h, k, t, r, api, excluded, carry)
    ensures KeptAt(r, k, path)
  {
    AcceptedLeads(h, k, t, r, api, excluded, carry);
    if k.fork == k.oldBase {
      MergeBaseIsOnBoth(h, k.oldBase, k.newBase, k.fork);
      SameAncestors(h, r, k.oldBase, k.newBase);
      OldBasePrecedesNew(r, api, t, k.base, k.approved, k.head, excluded, carry);
      CarryBaseUnchanged(r, api, t, k.base, k.approved, k.head, excluded, carry, path);
    } else if k.head != k.approved {
      ApprovedOnBase(h, k.base, k.approved, k.oldBase);
    }
  }

  /**
    Exactly when the base cannot have changed an approved path: the two merge bases fork at the old
    one, or the history cannot carry an approval at all, because the head is the approved commit,
    the approved commit is on the base, or no short chain of base merges leads to the head.
   */
  lemma BaseKeptExactly(h: Repo, k: Forked, t: Tables)
    requires WellFormed(h) && IsForked(h, k)
    ensures AlwaysKept(h, k, t) <==>
            || k.fork == k.oldBase || k.head == k.approved || Ancestor(h, k.approved, k.base)
            || !MergesLead(h, k.base, k.approved, k.head, 3)
  {
    if Loses(h, k) {
      var f := "f";
      var r, api, carry := ForkHidesBaseChange(h, k, t, [], f);
      assert AcceptedAs(h, k, t, r, api, [], carry) && !KeptAt(r, k, f);
    } else {
      forall r, api, excluded, carry, path | AcceptedAs(h, k, t, r, api, excluded, carry)
        ensures KeptAt(r, k, path)
      {
        KeptUnlessLost(h, k, t, r, api, excluded, carry, path);
      }
    }
  }
}
