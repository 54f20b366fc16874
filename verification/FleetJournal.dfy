/**
  The byte-bounded attempt journal of scripts/collect_fleet_capacity.py: each pass drops rows by
  age, then from the front until the rest fits with the new record, whose own size depends on what
  it reports about the drop.

  How a row is encoded is an input; the identity comparison between passes is not modelled.
 */
module FleetJournal {
  import opened Wrappers

  /** What a record says about the rows written with it. */
  datatype Retention = Retention(ageDropped: nat, byteDropped: nat, retained: nat, oldest: int)

  datatype Row = Row(completedAt: int, passId: string, retention: Retention)

  // ---------------------------------------------------------------------------
  // What one pass writes
  // ---------------------------------------------------------------------------

  /** Rows that are not older than the cutoff, in order. */
  function Recent(rows: seq<Row>, cutoff: int): (recent: seq<Row>)
    ensures |recent| <= |rows|
  {
    if |rows| == 0 then []
    else Recent(rows[..|rows| - 1], cutoff) + if rows[|rows| - 1].completedAt >= cutoff then [rows[|rows| - 1]] else []
  }

  function AgedOut(rows: seq<Row>, cutoff: int): nat {
    |rows| - |Recent(rows, cutoff)|
  }

  function Size(encode: Row -> Bytes, rows: seq<Row>): nat {
    if |rows| == 0 then 0 else |encode(rows[0])| + Size(encode, rows[1..])
  }

  /** The new record when the first `dropped` of the recent rows are left out. */
  function Stamped(record: Row, recent: seq<Row>, aged: nat, dropped: nat): Row
    requires dropped <= |recent|
  {
    record.(retention := Retention(aged, dropped, |recent| - dropped + 1,
                                   if dropped < |recent| then recent[dropped].completedAt else record.completedAt))
  }

  /** That many dropped rows leave a journal within the limit. */
  predicate Fits(encode: Row -> Bytes, limit: nat, record: Row, recent: seq<Row>, aged: nat, dropped: nat)
    requires dropped <= |recent|
  {
    Size(encode, recent[dropped..]) + |encode(Stamped(record, recent, aged, dropped))| <= limit
  }

  /** However many rows are left out, the journal is over the limit. */
  ghost predicate NothingFits(encode: Row -> Bytes, limit: nat, rows: seq<Row>, cutoff: int, record: Row) {
    var recent := Recent(rows, cutoff);
    forall dropped: nat | dropped <= |recent| :: !Fits(encode, limit, record, recent, AgedOut(rows, cutoff), dropped)
  }

  /** The journal is the longest suffix of the recent rows that fits, then the record describing it. */
  ghost predicate IsNextJournal(encode: Row -> Bytes, limit: nat, rows: seq<Row>, cutoff: int, record: Row,
                                next: seq<Row>)
  {
    var recent := Recent(rows, cutoff);
    var aged := AgedOut(rows, cutoff);
    && 0 < |next| <= |recent| + 1
    && var dropped := |recent| + 1 - |next|;
       && next == recent[dropped..] + [Stamped(record, recent, aged, dropped)]
       && Fits(encode, limit, record, recent, aged, dropped)
       && forall fewer | 0 <= fewer < dropped :: !Fits(encode, limit, record, recent, aged, fewer)
  }

  lemma {:induction false} RecentAreRows(rows: seq<Row>, cutoff: int)
    ensures forall row | row in Recent(rows, cutoff) :: row in rows && row.completedAt >= cutoff
  {
    if |rows| == 0 {
    } else {
      RecentAreRows(rows[..|rows| - 1], cutoff);
    }
  }

  class Journal {
    var rows: seq<Row>

    constructor ()
      ensures rows == []
    {
      rows := [];
    }

    /** Appends one pass's record; refuses, leaving the journal alone, when even alone it does not fit. */
    method Persist(encode: Row -> Bytes, limit: nat, cutoff: int, record: Row) returns (written: Option<Row>)
      modifies this
      ensures written.None? ==> rows == old(rows)
      ensures written.None? <==> NothingFits(encode, limit, old(rows), cutoff, record)
      ensures written.Some? ==> IsNextJournal(encode, limit, old(rows), cutoff, record, rows)
                                && rows[|rows| - 1] == written.value
    {
      var recent, aged := KeepRecent(rows, cutoff);
      var size := TotalSize(encode, recent);
      var byteDropped: nat := 0;
      var encoded := recent;
      assert recent[0..] == recent;
      while true
        invariant byteDropped <= |recent| && encoded == recent[byteDropped..]
        invariant size == Size(encode, encoded)
        invariant rows == old(rows)
        invariant forall fewer: nat | fewer < byteDropped :: !Fits(encode, limit, record, recent, aged, fewer)
        decreases |encoded|
      {
        var oldest := if |encoded| > 0 then recent[byteDropped].completedAt else record.completedAt;
        var current := record.(retention := Retention(aged, byteDropped, |encoded| + 1, oldest));
        assert current == Stamped(record, recent, aged, byteDropped);
        if size + |encode(current)| <= limit {
          assert Fits(encode, limit, record, recent, aged, byteDropped);
          rows := encoded + [current];
          return Some(current);
        }
        if |encoded| == 0 {
          return None;
        }
        size := size - |encode(encoded[0])|;
        encoded := encoded[1..];
        byteDropped := byteDropped + 1;
      }
    }
  }

  method KeepRecent(rows: seq<Row>, cutoff: int) returns (recent: seq<Row>, aged: nat)
    ensures recent == Recent(rows, cutoff) && aged == AgedOut(rows, cutoff)
  {
    recent, aged := [], 0;
    for i := 0 to |rows|
      invariant recent == Recent(rows[..i], cutoff) && aged == i - |recent|
    {
      assert rows[..i + 1][..i] == rows[..i];
      if rows[i].completedAt >= cutoff {
        recent := recent + [rows[i]];
      } else {
        aged := aged + 1;
      }
    }
    assert rows[..|rows|] == rows;
  }

  method TotalSize(encode: Row -> Bytes, rows: seq<Row>) returns (size: nat)
    ensures size == Size(encode, rows)
  {
    size := 0;
    var i := |rows|;
    while i > 0
      invariant 0 <= i <= |rows| && size == Size(encode, rows[i..])
    {
      i := i - 1;
      assert rows[i..][1..] == rows[i + 1..];
      size := size + |encode(rows[i])|;
    }
    assert rows[0..] == rows;
  }

  // ---------------------------------------------------------------------------
  // What a pass keeps and counts
  // ---------------------------------------------------------------------------

  /** The rows that are too old, by position. */
  function OldRows(rows: seq<Row>, cutoff: int): set<nat> {
    set i: nat | i < |rows| && rows[i].completedAt < cutoff
  }

  /** As many rows are aged out as are older than the cutoff. */
  lemma {:induction false} AgedOutExactly(rows: seq<Row>, cutoff: int)
    ensures AgedOut(rows, cutoff) == |OldRows(rows, cutoff)|
  {
    if |rows| == 0 {
    } else {
      var n, init, last := |rows| - 1, rows[..|rows| - 1], rows[|rows| - 1];
      AgedOutExactly(init, cutoff);
      assert OldRows(rows, cutoff) == OldRows(init, cutoff) + if last.completedAt < cutoff then {n} else {};
    }
  }

  /** Every other row stays, as often as it was there. */
  lemma {:induction false} RecentExactly(rows: seq<Row>, cutoff: int, row: Row)
    ensures multiset(Recent(rows, cutoff))[row] == if row.completedAt < cutoff then 0 else multiset(rows)[row]
  {
    if |rows| == 0 {
    } else {
      var init, last := rows[..|rows| - 1], rows[|rows| - 1];
      RecentExactly(init, cutoff, row);
      assert rows == init + [last];
      var kept: seq<Row> := if last.completedAt >= cutoff then [last] else [];
      assert Recent(rows, cutoff) == Recent(init, cutoff) + kept;
    }
  }

  /** The bytes of a journal file. */
  function Encoded(encode: Row -> Bytes, rows: seq<Row>): Bytes {
    if |rows| == 0 then [] else encode(rows[0]) + Encoded(encode, rows[1..])
  }

  /** The size reckoned with is the size of the file. */
  lemma {:induction false} SizeIsFileSize(encode: Row -> Bytes, rows: seq<Row>)
    ensures Size(encode, rows) == |Encoded(encode, rows)|
  {
    if |rows| == 0 {
    } else {
      SizeIsFileSize(encode, rows[1..]);
    }
  }

  // ---------------------------------------------------------------------------
  // Over any number of passes
  // ---------------------------------------------------------------------------

  lemma {:induction false} SizeAppend(encode: Row -> Bytes, rows: seq<Row>, last: Row)
    ensures Size(encode, rows + [last]) == Size(encode, rows) + |encode(last)|
  {
    if |rows| == 0 {
      assert rows + [last] == [last];
    } else {
      SizeAppend(encode, rows[1..], last);
      assert (rows + [last])[1..] == rows[1..] + [last];
    }
  }

  /** The journal fits, and its last record describes exactly the rows written with it. */
  ghost predicate Described(encode: Row -> Bytes, limit: nat, rows: seq<Row>) {
    && |Encoded(encode, rows)| <= limit
    && (|rows| > 0 ==>
          var r := rows[|rows| - 1].retention;
          r.retained == |rows| && r.oldest == rows[0].completedAt)
  }

  /** Every pass leaves a journal that fits and describes itself. */
  lemma NextJournalIsDescribed(encode: Row -> Bytes, limit: nat, rows: seq<Row>, cutoff: int, record: Row,
                               next: seq<Row>)
    requires IsNextJournal(encode, limit, rows, cutoff, record, next)
    ensures Described(encode, limit, next)
    ensures var r := next[|next| - 1].retention;
            && r.ageDropped == |OldRows(rows, cutoff)| && |rows| + 1 == r.ageDropped + r.byteDropped + |next|
    ensures next[|next| - 1].passId == record.passId && next[|next| - 1].completedAt == record.completedAt
    ensures forall i | 0 <= i < |next| - 1 :: next[i] in rows && next[i].completedAt >= cutoff
  {
    var recent := Recent(rows, cutoff);
    RecentAreRows(rows, cutoff);
    AgedOutExactly(rows, cutoff);
    SizeIsFileSize(encode, next);
    var dropped := |recent| + 1 - |next|;
    var current := Stamped(record, recent, AgedOut(rows, cutoff), dropped);
    SizeAppend(encode, recent[dropped..], current);
    forall i | 0 <= i < |next| - 1 ensures next[i] in rows && next[i].completedAt >= cutoff {
      assert next[i] == recent[dropped + i];
      assert recent[dropped + i] in recent;
    }
  }

  /** The file a pass would write if it left out the first `dropped` of the recent rows. */
  function Candidate(encode: Row -> Bytes, rows: seq<Row>, cutoff: int, record: Row, dropped: nat): Bytes
    requires dropped <= |Recent(rows, cutoff)|
  {
    var recent := Recent(rows, cutoff);
    var oldest := if dropped == |recent| then record.completedAt else recent[dropped].completedAt;
    var stamped := record.(retention := Retention(|OldRows(rows, cutoff)|, dropped, |recent| + 1 - dropped, oldest));
    Encoded(encode, recent[dropped..] + [stamped])
  }

  lemma FitsExactly(encode: Row -> Bytes, limit: nat, rows: seq<Row>, cutoff: int, record: Row, dropped: nat)
    requires dropped <= |Recent(rows, cutoff)|
    ensures Fits(encode, limit, record, Recent(rows, cutoff), AgedOut(rows, cutoff), dropped) <==>
            |Candidate(encode, rows, cutoff, record, dropped)| <= limit
  {
    AgedOutExactly(rows, cutoff);
    var recent := Recent(rows, cutoff);
    var stamped := Stamped(record, recent, AgedOut(rows, cutoff), dropped);
    SizeAppend(encode, recent[dropped..], stamped);
    SizeIsFileSize(encode, recent[dropped..] + [stamped]);
  }

  /** What is written is within the limit, and no file that keeps more rows would have been. */
  lemma NextJournalIsLongest(encode: Row -> Bytes, limit: nat, rows: seq<Row>, cutoff: int, record: Row,
                             next: seq<Row>, dropped: nat)
    requires IsNextJournal(encode, limit, rows, cutoff, record, next) && dropped <= |Recent(rows, cutoff)|
    ensures |next| + dropped == |Recent(rows, cutoff)| + 1 ==>
              Encoded(encode, next) == Candidate(encode, rows, cutoff, record, dropped)
                && |Encoded(encode, next)| <= limit
    ensures |next| + dropped <= |Recent(rows, cutoff)| ==> |Candidate(encode, rows, cutoff, record, dropped)| > limit
  {
    AgedOutExactly(rows, cutoff);
    FitsExactly(encode, limit, rows, cutoff, record, dropped);
  }

  /** A pass is refused exactly when even the record alone, and everything longer, is over the limit. */
  lemma RefusedExactly(encode: Row -> Bytes, limit: nat, rows: seq<Row>, cutoff: int, record: Row)
    ensures NothingFits(encode, limit, rows, cutoff, record) <==>
            forall dropped: nat | dropped <= |Recent(rows, cutoff)| ::
              |Candidate(encode, rows, cutoff, record, dropped)| > limit
  {
    forall dropped: nat | dropped <= |Recent(rows, cutoff)|
      ensures Fits(encode, limit, record, Recent(rows, cutoff), AgedOut(rows, cutoff), dropped) <==>
              |Candidate(encode, rows, cutoff, record, dropped)| <= limit
    {
      FitsExactly(encode, limit, rows, cutoff, record, dropped);
    }
  }

  /** One pass: its byte limit, its cutoff and its record. */
  datatype Attempt = Attempt(limit: nat, cutoff: int, record: Row)

  ghost predicate Writes(encode: Row -> Bytes, attempt: Attempt, rows: seq<Row>, next: seq<Row>) {
    IsNextJournal(encode, attempt.limit, rows, attempt.cutoff, attempt.record, next)
  }

  /** A pass that is refused writes nothing. */
  ghost predicate IsJournalRun(encode: Row -> Bytes, attempts: seq<Attempt>, journals: seq<seq<Row>>) {
    && |journals| == |attempts| + 1 && journals[0] == []
    && forall i | 0 <= i < |attempts| ::
         journals[i + 1] == journals[i] || Writes(encode, attempts[i], journals[i], journals[i + 1])
  }

  /** Pass `i` wrote the journal that still stands after `n` passes. */
  ghost predicate LastWrite(encode: Row -> Bytes, attempts: seq<Attempt>, journals: seq<seq<Row>>, n: nat, i: nat)
    requires |journals| == |attempts| + 1 && n < |journals|
  {
    i < n && journals[i + 1] == journals[n] && Writes(encode, attempts[i], journals[i], journals[i + 1])
  }

  /**
    After any number of passes, each with a byte limit of its own, the journal is empty or stands
    as some pass wrote it: within that pass's limit, and described by its last record.
   */
  lemma {:induction false} JournalStaysDescribed(encode: Row -> Bytes, attempts: seq<Attempt>, journals: seq<seq<Row>>,
                                                 n: nat)
    requires IsJournalRun(encode, attempts, journals) && n < |journals|
    ensures || journals[n] == []
            || exists i: nat | LastWrite(encode, attempts, journals, n, i) ::
               Described(encode, attempts[i].limit, journals[n])
  {
    if n == 0 {
    } else if journals[n] == journals[n - 1] {
      JournalStaysDescribed(encode, attempts, journals, n - 1);
      if journals[n] != [] {
        var i: nat :| LastWrite(encode, attempts, journals, n - 1, i)
          && Described(encode, attempts[i].limit, journals[n - 1]);
        assert LastWrite(encode, attempts, journals, n, i);
      }
    } else {
      var i := n - 1;
      assert journals[i + 1] == journals[n];
      NextJournalIsDescribed(encode, attempts[i].limit, journals[i], attempts[i].cutoff, attempts[i].record,
        journals[n]);
      assert LastWrite(encode, attempts, journals, n, i);
    }
  }
}
