/**
 * The per-row filter: a raw table row becomes an accepted record when its
 * subject identifier is valid; its references are tokenised, normalised and
 * filtered.
 */
module Rows {
  import opened Wrappers
  import opened Identifiers
  import opened Dates

  /**
   * One row as the table reader yields it: the "WISH", "Date" and "Same As"
   * fields, each None when the row is too short to have it.
   */
  datatype RawRow = RawRow(wish: Option<string>, date: Option<string>, sameAs: Option<string>)

  /** An accepted record: a valid subject, its date and its kept references. */
  datatype Row = Row(wish: string, date: Option<Date>, sameAs: seq<string>)

  /** `s or ""`. */
  function OrEmpty(s: Option<string>): string {
    s.GetOr("")
  }

  /** The references kept from the tokens of a row with subject `wish`. */
  function KeptRefs(tokens: seq<string>, wish: string): (r: seq<string>)
    ensures forall k :: 0 <= k < |r| ==> IsWish(r[k]) && r[k] != wish
    ensures |r| <= |tokens|
  {
    if tokens == [] then []
    else
      var front := KeptRefs(tokens[..|tokens| - 1], wish);
      var d := NormDigits(tokens[|tokens| - 1]);
      if IsWish(d) && d != wish then front + [d] else front
  }

  /**
   * A reference is kept exactly when it is the normalised form of some token,
   * is a valid identifier and is not the subject itself.
   */
  lemma {:induction false} KeptRefsExactly(tokens: seq<string>, wish: string, x: string)
    ensures x in KeptRefs(tokens, wish) <==>
      IsWish(x) && x != wish && exists k :: 0 <= k < |tokens| && NormDigits(tokens[k]) == x
  {
    if tokens != [] {
      var init := tokens[..|tokens| - 1];
      KeptRefsExactly(init, wish, x);
      if exists k :: 0 <= k < |tokens| && NormDigits(tokens[k]) == x {
        var k :| 0 <= k < |tokens| && NormDigits(tokens[k]) == x;
        if k < |init| {
          assert NormDigits(init[k]) == x;
        }
      }
      if exists k :: 0 <= k < |init| && NormDigits(init[k]) == x {
        var k :| 0 <= k < |init| && NormDigits(init[k]) == x;
        assert NormDigits(tokens[k]) == x;
      }
    }
  }

  /**
   * A record satisfying the row filter's guarantees: a valid subject, a
   * calendar date if any, and valid references other than the subject.
   */
  predicate WellFormed(r: Row) {
    && IsWish(r.wish)
    && ValidOptDate(r.date)
    && forall k :: 0 <= k < |r.sameAs| ==> IsWish(r.sameAs[k]) && r.sameAs[k] != r.wish
  }

  /** The filter for one row: None when its subject is not a valid identifier. */
  function AcceptRow(raw: RawRow): (r: Option<Row>)
    ensures r.Some? <==> IsWish(NormDigits(OrEmpty(raw.wish)))
    ensures r.Some? ==> WellFormed(r.value) && r.value.wish == NormDigits(OrEmpty(raw.wish))
  {
    var wish := NormDigits(OrEmpty(raw.wish));
    if !IsWish(wish) then None
    else Some(Row(wish, ParseDate(OrEmpty(raw.date)), KeptRefs(Split(OrEmpty(raw.sameAs)), wish)))
  }

  /** The records kept from `raws`, in order. */
  function AcceptedRows(raws: seq<RawRow>): (rows: seq<Row>)
    ensures forall i :: 0 <= i < |rows| ==> WellFormed(rows[i])
    ensures |rows| <= |raws|
  {
    if raws == [] then []
    else
      var front := AcceptedRows(raws[..|raws| - 1]);
      match AcceptRow(raws[|raws| - 1])
      case None => front
      case Some(row) => front + [row]
  }

  /**
   * `for row in r` (lines 33-44): builds the records, appending each accepted
   * row and, inside it, each kept reference.
   */
  method ReadRows(raws: seq<RawRow>) returns (rows: seq<Row>)
    ensures rows == AcceptedRows(raws)
  {
    rows := [];
    for i := 0 to |raws|
      invariant rows == AcceptedRows(raws[..i])
    {
      var raw := raws[i];
      var wish := NormDigits(OrEmpty(raw.wish));
      assert raws[..i + 1][..i] == raws[..i];
      if !IsWish(wish) {
        continue;
      }
      var date := ParseDate(OrEmpty(raw.date));
      var tokens := Split(OrEmpty(raw.sameAs));
      var sameTokens := [];
      for j := 0 to |tokens|
        invariant sameTokens == KeptRefs(tokens[..j], wish)
      {
        var d := NormDigits(tokens[j]);
        assert tokens[..j + 1][..j] == tokens[..j];
        if IsWish(d) && d != wish {
          sameTokens := sameTokens + [d];
        }
      }
      assert tokens[..|tokens|] == tokens;
      rows := rows + [Row(wish, date, sameTokens)];
    }
    assert raws[..|raws|] == raws;
  }

  /** A subject with a leading zero is dropped with its whole record. */
  lemma LeadingZeroSubjectDropped(raw: RawRow)
    requires raw.wish == Some("0001234")
    ensures AcceptRow(raw) == None
  {
    NormDigitsKeepsDigits("0001234");
  }

  // ---------------------------------------------------------------------
  // The "Same As" field of a short row

  /** What the loop body does with one row. */
  datatype RowOutcome = Skipped | Kept(row: Row) | Crashed

  /**
   * Line 40 as written: a row too short to have a "Same As" field reads as
   * None there, the `""` default of `row.get` does not apply because the key
   * is present, and splitting None raises, ending the whole run.
   */
  function ReadRowAsWritten(raw: RawRow): RowOutcome {
    var wish := NormDigits(OrEmpty(raw.wish));
    if !IsWish(wish) then Skipped
    else if raw.sameAs.None? then Crashed
    else Kept(Row(wish, ParseDate(OrEmpty(raw.date)), KeptRefs(Split(raw.sameAs.value), wish)))
  }

  /** A valid row whose reference field is missing stops the run as written. */
  lemma ShortRowCrashesAsWritten(raw: RawRow)
    requires raw == RawRow(Some("10001"), None, None)
    ensures ReadRowAsWritten(raw) == Crashed
    ensures AcceptRow(raw).Some? && AcceptRow(raw).value.sameAs == []
  {
    assert NormDigits("10001") == "10001" by { NormDigitsKeepsDigits("10001"); }
    assert Split("") == [""];
  }

  /** Wherever the code as written does not crash, it agrees with AcceptRow. */
  lemma ReadRowAsWrittenAgrees(raw: RawRow)
    requires ReadRowAsWritten(raw) != Crashed
    ensures ReadRowAsWritten(raw) == (if AcceptRow(raw).Some? then Kept(AcceptRow(raw).value) else Skipped)
  {
  }
}
