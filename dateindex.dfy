/**
 * The date index: for each subject identifier, the most recent date among
 * its records (lines 68-73).
 */
module DateIndex {
  import opened Wrappers
  import opened Dates
  import opened Rows

  /** Identifier to its most recent date, None when no record of it is dated. */
  type Index = map<string, Option<Date>>

  /** The subjects of the records. */
  function Subjects(rows: seq<Row>): set<string> {
    set i | 0 <= i < |rows| :: rows[i].wish
  }

  /**
   * The index after the loop has processed `rows`: a record replaces the
   * entry of its subject when there is none or when its date is later.
   */
  function IndexOf(rows: seq<Row>): Index {
    if rows == [] then map[]
    else
      var m, r := IndexOf(rows[..|rows| - 1]), rows[|rows| - 1];
      if r.wish !in m || Later(r.date, m[r.wish]) then m[r.wish := r.date] else m
  }

  lemma SubjectsAppend(rows: seq<Row>)
    requires rows != []
    ensures Subjects(rows) == Subjects(rows[..|rows| - 1]) + {rows[|rows| - 1].wish}
  {
    var init := rows[..|rows| - 1];
    forall w | w in Subjects(rows)
      ensures w in Subjects(init) + {rows[|rows| - 1].wish}
    {
      var i :| 0 <= i < |rows| && rows[i].wish == w;
      if i < |init| {
        assert init[i] == rows[i];
      }
    }
    forall w | w in Subjects(init)
      ensures w in Subjects(rows)
    {
      var i :| 0 <= i < |init| && init[i].wish == w;
      assert rows[i] == init[i];
    }
  }

  /** The index has an entry for exactly the subjects of the records. */
  lemma {:induction false} IndexOfKeys(rows: seq<Row>)
    ensures IndexOf(rows).Keys == Subjects(rows)
  {
    if rows != [] {
      IndexOfKeys(rows[..|rows| - 1]);
      SubjectsAppend(rows);
    }
  }

  /** Each entry is the date of one of its subject's own records. */
  lemma {:induction false} IndexOfIsAttained(rows: seq<Row>, w: string)
    requires w in IndexOf(rows)
    ensures exists i :: 0 <= i < |rows| && rows[i].wish == w && rows[i].date == IndexOf(rows)[w]
  {
    var init, r := rows[..|rows| - 1], rows[|rows| - 1];
    var m0, m := IndexOf(init), IndexOf(rows);
    if w == r.wish && m[w] == r.date {
      assert rows[|rows| - 1] == r;
    } else {
      IndexOfIsAttained(init, w);
      var i :| 0 <= i < |init| && init[i].wish == w && init[i].date == m0[w];
      assert rows[i] == init[i];
    }
  }

  /** No record of a subject is dated later than its entry. */
  lemma {:induction false} IndexOfIsLatest(rows: seq<Row>, i: nat)
    requires i < |rows|
    ensures rows[i].wish in IndexOf(rows)
    ensures AtLeast(IndexOf(rows)[rows[i].wish], rows[i].date)
  {
    var init, r := rows[..|rows| - 1], rows[|rows| - 1];
    var m0, m := IndexOf(init), IndexOf(rows);
    if i < |init| {
      IndexOfIsLatest(init, i);
      assert rows[i] == init[i];
      LaterIsStrictTotalOrder(rows[i].date, m0[rows[i].wish], m[rows[i].wish]);
    } else {
      LaterIsStrictTotalOrder(r.date, r.date, r.date);
    }
  }

  /** Lines 68-73, with "no date" ordered strictly below every date. */
  method IndexDates(rows: seq<Row>) returns (byWish: Index)
    ensures byWish == IndexOf(rows)
  {
    byWish := map[];
    for i := 0 to |rows|
      invariant byWish == IndexOf(rows[..i])
    {
      var r := rows[i];
      assert rows[..i + 1][..i] == rows[..i];
      if r.wish !in byWish || Later(r.date, byWish[r.wish]) {
        byWish := byWish[r.wish := r.date];
      }
    }
    assert rows[..|rows|] == rows;
  }

  // ---------------------------------------------------------------------
  // The comparison as written

  /** Line 72 as written: dates compared through `d or datetime.min`. */
  function IndexAsWritten(rows: seq<Row>): Index {
    if rows == [] then map[]
    else
      var m, r := IndexAsWritten(rows[..|rows| - 1]), rows[|rows| - 1];
      if r.wish !in m || LaterAsWritten(r.date, m[r.wish]) then m[r.wish := r.date] else m
  }

  /**
   * An undated record followed by one dated 0001-01-01 leaves the subject
   * undated as written, though it has a date.
   */
  lemma IndexAsWrittenLosesMinDate(rows: seq<Row>)
    requires rows == [Row("10001", None, []), Row("10001", Some(MinDate), [])]
    ensures IndexAsWritten(rows)["10001"] == None
    ensures IndexOf(rows)["10001"] == Some(MinDate)
  {
    var w := "10001";
    assert rows[..1] == [rows[0]] && rows[..1][..0] == [];
    assert IndexAsWritten(rows[..1]) == map[w := None];
    assert !LaterAsWritten(Some(MinDate), None);
    assert IndexOf(rows[..1]) == map[w := None];
    assert Later(Some(MinDate), None);
  }
}
