/**
  The review-before-arm rule of scripts/ghapp_queue_arm_guard.py over the verdicts that count: a
  HOLD is final for its head, otherwise the newest dated APPROVE of the exact head decides, and an
  approval may carry from another head.

  Which comments and reviews count, and what the carry and rollup rules answer, are inputs.
 */
module ReviewVerdicts {
  import opened Wrappers

  type Head = nat

  datatype Kind = Approve | Hold

  datatype Verdict = Verdict(time: Option<int>, kind: Kind, head: Head)

  predicate Holds(v: Verdict, head: Head) {
    v.head == head && v.kind.Hold?
  }

  predicate Approves(v: Verdict, head: Head) {
    v.head == head && v.kind.Approve? && v.time.Some?
  }

  datatype Filter = OnHead(head: Head) | OffHead(head: Head) | Held | Dated

  predicate Keeps(filter: Filter, v: Verdict) {
    match filter
    case OnHead(head) => v.head == head
    case OffHead(head) => v.head != head
    case Held => v.kind.Hold?
    case Dated => v.time.Some?
  }

  function Select(vs: seq<Verdict>, filter: Filter): seq<Verdict> {
    if vs == [] then [] else (if Keeps(filter, vs[0]) then [vs[0]] else []) + Select(vs[1..], filter)
  }

  /** Undated verdicts sort below every dated one. */
  predicate Older(a: Verdict, b: Verdict) {
    b.time.Some? && (a.time.None? || a.time.value < b.time.value)
  }

  /** The first of the newest verdicts. */
  function NewestOf(vs: seq<Verdict>): (v: Verdict)
    requires vs != []
    ensures v in vs
    ensures forall x | x in vs :: !Older(v, x)
  {
    if |vs| == 1 then vs[0]
    else
      var rest := NewestOf(vs[1..]);
      assert forall x | x in vs :: x == vs[0] || x in vs[1..];
      if Older(vs[0], rest) then rest else vs[0]
  }

  /** The verdict that decides `head`: any HOLD, else the newest dated verdict naming it. */
  function LatestOn(vs: seq<Verdict>, head: Head): Option<Verdict> {
    var onHead := Select(vs, OnHead(head));
    var holds := Select(onHead, Held);
    var dated := Select(onHead, Dated);
    if holds != [] then Some(holds[0])
    else if dated != [] then Some(NewestOf(dated))
    else None
  }

  predicate ReviewVerdict(vs: seq<Verdict>, head: Head) {
    var latest := LatestOn(vs, head);
    latest.Some? && latest.value.kind.Approve?
  }

  /** The head named by the newest other verdict, if approved and nothing decides `head` itself. */
  function ApprovedEarlierHead(vs: seq<Verdict>, head: Head): Option<Head> {
    var others := Select(vs, OffHead(head));
    if LatestOn(vs, head).Some? || others == [] then None
    else
      var named := NewestOf(others).head;
      var latest := LatestOn(vs, named);
      if latest.Some? && latest.value.kind.Approve? then Some(named) else None
  }

  /** What the rules outside this module answer for a landing. */
  datatype Outside = Outside(
    ownApproval: Head -> bool,
    claimReceiptOk: bool,
    rollupAccepted: bool,
    carries: (Head, Head) -> bool)

  /** The comment path of the review gate. */
  predicate ReviewGate(vs: seq<Verdict>, head: Head, o: Outside) {
    if ReviewVerdict(vs, head) then
      !o.ownApproval(head) && o.claimReceiptOk
    else if LatestOn(vs, head).None? && o.rollupAccepted then
      true
    else
      var approved := ApprovedEarlierHead(vs, head);
      approved.Some? && !o.ownApproval(approved.value) && o.carries(approved.value, head)
  }

  // ---------------------------------------------------------------------------
  // Order does not matter, and a HOLD is final
  // ---------------------------------------------------------------------------

  lemma {:induction false} SelectHolds(vs: seq<Verdict>, filter: Filter)
    ensures forall v :: v in Select(vs, filter) <==> v in vs && Keeps(filter, v)
  {
    if vs == [] {
    } else {
      SelectHolds(vs[1..], filter);
      assert forall v :: v in vs <==> v == vs[0] || v in vs[1..];
    }
  }

  /** What decides a head, without the search. */
  lemma LatestOnMeaning(vs: seq<Verdict>, head: Head)
    ensures (exists v | v in vs :: Holds(v, head)) <==> LatestOn(vs, head).Some? && LatestOn(vs, head).value.kind.Hold?
    ensures ReviewVerdict(vs, head) <==>
            (forall v | v in vs :: !Holds(v, head)) && exists v | v in vs :: Approves(v, head)
    ensures ReviewVerdict(vs, head) ==>
              && LatestOn(vs, head).value in vs && Approves(LatestOn(vs, head).value, head)
              && forall v | v in vs && Approves(v, head) :: v.time.value <= LatestOn(vs, head).value.time.value
  {
    var onHead := Select(vs, OnHead(head));
    var holds := Select(onHead, Held);
    var dated := Select(onHead, Dated);
    SelectHolds(vs, OnHead(head));
    SelectHolds(onHead, Held);
    SelectHolds(onHead, Dated);
    assert forall v :: v in holds <==> v in vs && Holds(v, head);
    assert holds == [] ==> forall v :: v in dated <==> v in vs && Approves(v, head);
    if holds != [] {
      assert holds[0] in holds;
    } else if dated != [] {
      assert NewestOf(dated) in dated;
    }
    if v :| v in vs && Approves(v, head) {
      assert v in dated;
      assert !Older(NewestOf(dated), v);
    }
  }

  /** What decides a head itself depends on which verdicts were posted, not on their order. */
  lemma OrderDoesNotMatter(a: seq<Verdict>, b: seq<Verdict>, head: Head)
    requires multiset(a) == multiset(b)
    ensures ReviewVerdict(a, head) == ReviewVerdict(b, head)
    ensures LatestOn(a, head).None? == LatestOn(b, head).None?
  {
    assert forall v :: v in a <==> v in multiset(a);
    assert forall v :: v in b <==> v in multiset(b);
    LatestOnMeaning(a, head);
    LatestOnMeaning(b, head);
    LatestOnNone(a, head);
    LatestOnNone(b, head);
  }

  lemma LatestOnNone(vs: seq<Verdict>, head: Head)
    ensures LatestOn(vs, head).None? <==> forall v | v in vs :: !Holds(v, head) && !Approves(v, head)
  {
    LatestOnMeaning(vs, head);
  }

  /** No verdict on a head other than `head` has a later date than `v`, or a date when `v` has none. */
  ghost predicate NoneNewer(vs: seq<Verdict>, head: Head, v: Verdict) {
    forall x | x in vs && x.head != head :: x.time.Some? ==> v.time.Some? && x.time.value <= v.time.value
  }

  /** The head an approval may carry from is named by the newest other verdict and held by nobody. */
  lemma EarlierHeadMeaning(vs: seq<Verdict>, head: Head, approved: Head)
    requires ApprovedEarlierHead(vs, head) == Some(approved)
    ensures approved != head && ReviewVerdict(vs, approved)
    ensures forall v | v in vs :: !Holds(v, head) && !Approves(v, head)
    ensures exists v | v in vs && v.head == approved :: NoneNewer(vs, head, v)
  {
    var others := Select(vs, OffHead(head));
    SelectHolds(vs, OffHead(head));
    LatestOnNone(vs, head);
    var newest := NewestOf(others);
    assert newest in vs && newest.head == approved;
  }

  // ---------------------------------------------------------------------------
  // When the whole gate ignores order
  // ---------------------------------------------------------------------------

  /** `v` names another head than `head`, and no verdict that does so is newer. */
  ghost predicate IsNewestOther(vs: seq<Verdict>, head: Head, v: Verdict) {
    && v in vs && v.head != head && NoneNewer(vs, head, v)
  }

  /** The approval that a verdict naming `named` offers for a carry. */
  function Offered(vs: seq<Verdict>, named: Head): Option<Head> {
    if ReviewVerdict(vs, named) then Some(named) else None
  }

  /** The newest verdicts on other heads, if there are several, offer the same. */
  ghost predicate NoTie(vs: seq<Verdict>, head: Head) {
    forall v, x | IsNewestOther(vs, head, v) && IsNewestOther(vs, head, x) :: Offered(vs, v.head) == Offered(vs, x.head)
  }

  ghost predicate SameVerdicts(a: seq<Verdict>, b: seq<Verdict>) {
    multiset(a) == multiset(b)
  }

  lemma SameMembers(a: seq<Verdict>, b: seq<Verdict>)
    requires SameVerdicts(a, b)
    ensures forall v :: v in a <==> v in b
  {
    assert forall v :: v in a <==> v in multiset(a);
    assert forall v :: v in b <==> v in multiset(b);
  }

  /** The earlier head is what one of the newest other verdicts offers. */
  lemma EarlierIsOffered(vs: seq<Verdict>, head: Head)
    requires LatestOn(vs, head).None?
    ensures if exists v | v in vs :: v.head != head
            then exists v | IsNewestOther(vs, head, v) :: ApprovedEarlierHead(vs, head) == Offered(vs, v.head)
            else ApprovedEarlierHead(vs, head) == None
  {
    var others := Select(vs, OffHead(head));
    SelectHolds(vs, OffHead(head));
    if others != [] {
      var v := NewestOf(others);
      assert IsNewestOther(vs, head, v);
    }
    if v :| v in vs && v.head != head {
      assert v in others;
    }
  }

  lemma SameNewestOthers(a: seq<Verdict>, b: seq<Verdict>, head: Head, v: Verdict)
    requires SameVerdicts(a, b) && IsNewestOther(b, head, v)
    ensures IsNewestOther(a, head, v) && Offered(a, v.head) == Offered(b, v.head)
  {
    SameMembers(a, b);
    OrderDoesNotMatter(a, b, v.head);
  }

  lemma NoTieSameEarlier(a: seq<Verdict>, b: seq<Verdict>, head: Head)
    requires SameVerdicts(a, b) && LatestOn(a, head).None? && NoTie(a, head)
    ensures ApprovedEarlierHead(a, head) == ApprovedEarlierHead(b, head)
  {
    SameMembers(a, b);
    OrderDoesNotMatter(a, b, head);
    EarlierIsOffered(a, head);
    EarlierIsOffered(b, head);
    if exists v | v in a :: v.head != head {
      var v :| IsNewestOther(a, head, v) && ApprovedEarlierHead(a, head) == Offered(a, v.head);
      var x :| IsNewestOther(b, head, x) && ApprovedEarlierHead(b, head) == Offered(b, x.head);
      SameNewestOthers(a, b, head, x);
    }
  }

  /** The same verdicts with `v` moved to the front. */
  lemma MovedToFront(vs: seq<Verdict>, v: Verdict) returns (moved: seq<Verdict>)
    requires v in vs
    ensures SameVerdicts(vs, moved) && |moved| > 0 && moved[0] == v
  {
    var i :| 0 <= i < |vs| && vs[i] == v;
    moved := [v] + (vs[..i] + vs[i + 1..]);
    assert vs == vs[..i] + [v] + vs[i + 1..];
  }

  /** A newest other verdict that comes first is the one that counts. */
  lemma FrontIsOffered(vs: seq<Verdict>, head: Head)
    requires |vs| > 0 && IsNewestOther(vs, head, vs[0]) && LatestOn(vs, head).None?
    ensures ApprovedEarlierHead(vs, head) == Offered(vs, vs[0].head)
  {
    var others := Select(vs, OffHead(head));
    assert others == [vs[0]] + Select(vs[1..], OffHead(head));
    SelectHolds(vs, OffHead(head));
    assert NewestOf(others) == vs[0] by {
      if |others| > 1 {
        assert NewestOf(others[1..]) in others[1..];
        assert NewestOf(others[1..]) in others;
      }
    }
  }

  /** Two orders of the same verdicts, each with another of the two tied verdicts first. */
  lemma TieIsSeen(vs: seq<Verdict>, head: Head, v: Verdict, x: Verdict)
    returns (a: seq<Verdict>, b: seq<Verdict>, o: Outside)
    requires LatestOn(vs, head).None? && IsNewestOther(vs, head, v) && IsNewestOther(vs, head, x)
    requires Offered(vs, v.head).Some? && Offered(vs, v.head) != Offered(vs, x.head)
    ensures SameVerdicts(vs, a) && SameVerdicts(vs, b) && ReviewGate(a, head, o) && !ReviewGate(b, head, o)
  {
    a := MovedToFront(vs, v);
    b := MovedToFront(vs, x);
    SameNewestOthers(a, vs, head, v);
    SameNewestOthers(b, vs, head, x);
    OrderDoesNotMatter(vs, a, head);
    OrderDoesNotMatter(vs, b, head);
    FrontIsOffered(a, head);
    FrontIsOffered(b, head);
    var named := v.head;
    o := Outside(_ => false, true, false, (from, to) => from == named);
  }

  /** The gate answers alike for every order of these verdicts, whatever the other rules answer. */
  ghost predicate IgnoresOrder(vs: seq<Verdict>, head: Head) {
    forall other, o | SameVerdicts(vs, other) :: ReviewGate(other, head, o) == ReviewGate(vs, head, o)
  }

  /**
    Exactly when the order of the verdicts cannot matter to the gate: a verdict decides the head
    itself, or the newest verdicts on other heads do not tie between different offers.
   */
  lemma GateIgnoresOrderExactly(vs: seq<Verdict>, head: Head)
    ensures IgnoresOrder(vs, head) <==> LatestOn(vs, head).Some? || NoTie(vs, head)
  {
    if LatestOn(vs, head).Some? || NoTie(vs, head) {
      forall other, o | SameVerdicts(vs, other) ensures ReviewGate(other, head, o) == ReviewGate(vs, head, o) {
        OrderDoesNotMatter(vs, other, head);
        if LatestOn(vs, head).None? {
          NoTieSameEarlier(vs, other, head);
        }
      }
    } else {
      var v, x :| IsNewestOther(vs, head, v) && IsNewestOther(vs, head, x)
        && Offered(vs, v.head) != Offered(vs, x.head);
      var first, second := if Offered(vs, v.head).Some? then v else x, if Offered(vs, v.head).Some? then x else v;
      var a, b, o := TieIsSeen(vs, head, first, second);
      assert ReviewGate(a, head, o) != ReviewGate(b, head, o);
    }
  }

  /**
    Once a HOLD names a head, nothing posted later and nothing the other rules answer lets the gate
    allow that head, and no other head can carry an approval from it.
   */
  lemma HoldIsFinal(vs: seq<Verdict>, later: seq<Verdict>, head: Head, o: Outside)
    requires exists v | v in vs :: Holds(v, head)
    ensures !ReviewGate(vs + later, head, o)
    ensures forall other :: ApprovedEarlierHead(vs + later, other) != Some(head)
  {
    var v :| v in vs && Holds(v, head);
    assert v in vs + later;
    LatestOnMeaning(vs + later, head);
    forall other ensures ApprovedEarlierHead(vs + later, other) != Some(head) {
      if ApprovedEarlierHead(vs + later, other) == Some(head) {
        EarlierHeadMeaning(vs + later, other, head);
      }
    }
  }

  /** What the gate lets through, head by head. */
  lemma GateExactly(vs: seq<Verdict>, head: Head, o: Outside)
    ensures ReviewGate(vs, head, o) <==>
            && (forall v | v in vs :: !Holds(v, head))
            && if exists v | v in vs :: Approves(v, head) then
                 !o.ownApproval(head) && o.claimReceiptOk
               else
                 || o.rollupAccepted
                 || exists approved | ApprovedEarlierHead(vs, head) == Some(approved) ::
                      !o.ownApproval(approved) && o.carries(approved, head)
  {
    LatestOnMeaning(vs, head);
    LatestOnNone(vs, head);
  }
}
