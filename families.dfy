/**
 * The families: each component's members sorted by date, its most recent
 * member, and the map from identifier to family number (lines 75-82).
 */
module Families {
  import opened Wrappers
  import opened Sequences
  import opened Dates
  import opened DateIndex
  import opened Components

  /** `rdate(w)`: the indexed date of `w`, None when it has none or no entry. */
  function RDate(byWish: Index, w: string): Option<Date> {
    if w in byWish then byWish[w] else None
  }

  // ---------------------------------------------------------------------
  // Members sorted by date

  /**
   * The order of the sort key `(rdate(w) is None, rdate(w) or datetime.min)`:
   * dated before undated, earlier dates first, undated members all equal.
   */
  predicate SortsBefore(d: Option<Date>, e: Option<Date>) {
    d.Some? && (e.None? || Before(d.value, e.value))
  }

  /** SortsBefore is a strict total order on keys. */
  lemma SortsBeforeIsStrictTotalOrder(d: Option<Date>, e: Option<Date>, f: Option<Date>)
    ensures !SortsBefore(d, d)
    ensures SortsBefore(d, e) && SortsBefore(e, f) ==> SortsBefore(d, f)
    ensures d == e || SortsBefore(d, e) || SortsBefore(e, d)
  {
  }

  /** No member is listed after one whose key sorts after its own. */
  ghost predicate SortedByDate(s: seq<string>, byWish: Index) {
    forall i, j :: 0 <= i < j < |s| ==> !SortsBefore(RDate(byWish, s[j]), RDate(byWish, s[i]))
  }

  /** The members of `s` whose key is `k`, in their order in `s`. */
  function WithKey(s: seq<string>, byWish: Index, k: Option<Date>): seq<string> {
    if s == [] then []
    else WithKey(s[..|s| - 1], byWish, k) + (if RDate(byWish, s[|s| - 1]) == k then [s[|s| - 1]] else [])
  }

  /** Places `x` after the last member of `t` whose key does not sort after its own. */
  function Insert(t: seq<string>, x: string, byWish: Index): seq<string> {
    if t == [] then [x]
    else if SortsBefore(RDate(byWish, x), RDate(byWish, t[|t| - 1])) then
      Insert(t[..|t| - 1], x, byWish) + [t[|t| - 1]]
    else t + [x]
  }

  /** `sorted(comp, key=...)`: a stable sort by SortsBefore. */
  function SortMembers(s: seq<string>, byWish: Index): seq<string> {
    if s == [] then []
    else Insert(SortMembers(s[..|s| - 1], byWish), s[|s| - 1], byWish)
  }

  lemma {:induction false} InsertPermutes(t: seq<string>, x: string, byWish: Index)
    ensures multiset(Insert(t, x, byWish)) == multiset(t) + multiset{x}
  {
    if t != [] && SortsBefore(RDate(byWish, x), RDate(byWish, t[|t| - 1])) {
      InsertPermutes(t[..|t| - 1], x, byWish);
      assert t == t[..|t| - 1] + [t[|t| - 1]];
    }
  }

  /** The sort rearranges the members and neither adds nor drops one. */
  lemma {:induction false} SortMembersPermutes(s: seq<string>, byWish: Index)
    ensures multiset(SortMembers(s, byWish)) == multiset(s)
  {
    if s != [] {
      SortMembersPermutes(s[..|s| - 1], byWish);
      InsertPermutes(SortMembers(s[..|s| - 1], byWish), s[|s| - 1], byWish);
      assert s == s[..|s| - 1] + [s[|s| - 1]];
    }
  }

  lemma {:induction false} InsertSorted(t: seq<string>, x: string, byWish: Index)
    requires SortedByDate(t, byWish)
    ensures SortedByDate(Insert(t, x, byWish), byWish)
  {
    var kx := RDate(byWish, x);
    if t != [] {
      var init, last := t[..|t| - 1], t[|t| - 1];
      var kl := RDate(byWish, last);
      if SortsBefore(kx, kl) {
        InsertSorted(init, x, byWish);
        var u := Insert(init, x, byWish);
        InsertPermutes(init, x, byWish);
        forall i | 0 <= i < |u|
          ensures !SortsBefore(kl, RDate(byWish, u[i]))
        {
          assert u[i] in multiset(u);
          if u[i] != x {
            assert u[i] in multiset(init);
            var k :| 0 <= k < |init| && init[k] == u[i];
            assert t[k] == u[i];
          } else {
            SortsBeforeIsStrictTotalOrder(kx, kl, kx);
          }
        }
        assert SortedByDate(u + [last], byWish);
      } else {
        forall i | 0 <= i < |t|
          ensures !SortsBefore(kx, RDate(byWish, t[i]))
        {
          SortsBeforeIsStrictTotalOrder(kx, kl, RDate(byWish, t[i]));
          SortsBeforeIsStrictTotalOrder(kx, RDate(byWish, t[i]), kl);
        }
      }
    }
  }

  /** The sorted members are in key order. */
  lemma {:induction false} SortMembersSorted(s: seq<string>, byWish: Index)
    ensures SortedByDate(SortMembers(s, byWish), byWish)
  {
    if s != [] {
      SortMembersSorted(s[..|s| - 1], byWish);
      InsertSorted(SortMembers(s[..|s| - 1], byWish), s[|s| - 1], byWish);
    }
  }

  lemma {:induction false} InsertStable(t: seq<string>, x: string, byWish: Index, k: Option<Date>)
    ensures WithKey(Insert(t, x, byWish), byWish, k) ==
      WithKey(t, byWish, k) + (if RDate(byWish, x) == k then [x] else [])
  {
    var u := Insert(t, x, byWish);
    if t == [] {
      assert [x][..0] == [];
    } else if SortsBefore(RDate(byWish, x), RDate(byWish, t[|t| - 1])) {
      var init, last := t[..|t| - 1], t[|t| - 1];
      InsertStable(init, x, byWish, k);
      assert (Insert(init, x, byWish) + [last])[..|u| - 1] == Insert(init, x, byWish);
      SortsBeforeIsStrictTotalOrder(RDate(byWish, x), RDate(byWish, last), k);
    } else {
      assert (t + [x])[..|t|] == t;
    }
  }

  /** The sort is stable: members with equal keys keep their relative order. */
  lemma {:induction false} SortMembersStable(s: seq<string>, byWish: Index, k: Option<Date>)
    ensures WithKey(SortMembers(s, byWish), byWish, k) == WithKey(s, byWish, k)
  {
    if s != [] {
      SortMembersStable(s[..|s| - 1], byWish, k);
      InsertStable(SortMembers(s[..|s| - 1], byWish), s[|s| - 1], byWish, k);
    }
  }

  // ---------------------------------------------------------------------
  // The most recent member

  /**
   * `max(comp, key=...)` with "no date" strictly below every date: the first
   * member whose date no other member's date is later than.
   */
  function Latest(comp: seq<string>, byWish: Index): string
    requires |comp| >= 1
  {
    if |comp| == 1 then comp[0]
    else
      var best := Latest(comp[..|comp| - 1], byWish);
      if Later(RDate(byWish, comp[|comp| - 1]), RDate(byWish, best)) then comp[|comp| - 1] else best
  }

  /** `comp[i]` is dated strictly later than every member before it. */
  predicate LaterThanPrefix(comp: seq<string>, byWish: Index, i: nat)
    requires i < |comp|
  {
    forall j :: 0 <= j < i ==> Later(RDate(byWish, comp[i]), RDate(byWish, comp[j]))
  }

  /**
   * Latest picks a member dated at least as late as every member, and every
   * member before it is strictly earlier.
   */
  lemma {:induction false} LatestIsFirstMaximal(comp: seq<string>, byWish: Index)
    requires |comp| >= 1
    ensures exists i :: 0 <= i < |comp| && comp[i] == Latest(comp, byWish) && LaterThanPrefix(comp, byWish, i)
    ensures forall j :: 0 <= j < |comp| ==> AtLeast(RDate(byWish, Latest(comp, byWish)), RDate(byWish, comp[j]))
  {
    if |comp| > 1 {
      var init, last := comp[..|comp| - 1], comp[|comp| - 1];
      LatestIsFirstMaximal(init, byWish);
      var best := Latest(init, byWish);
      var i :| 0 <= i < |init| && init[i] == best && LaterThanPrefix(init, byWish, i);
      var r := Latest(comp, byWish);
      if Later(RDate(byWish, last), RDate(byWish, best)) {
        forall j | 0 <= j < |comp| - 1
          ensures Later(RDate(byWish, last), RDate(byWish, comp[j]))
        {
          assert comp[j] == init[j];
          LaterIsStrictTotalOrder(RDate(byWish, last), RDate(byWish, best), RDate(byWish, comp[j]));
        }
        assert comp[|comp| - 1] == r && LaterThanPrefix(comp, byWish, |comp| - 1);
      } else {
        assert comp[i] == best;
        forall j | 0 <= j < i
          ensures Later(RDate(byWish, comp[i]), RDate(byWish, comp[j]))
        {
          assert comp[j] == init[j];
        }
        assert LaterThanPrefix(comp, byWish, i);
        forall j | 0 <= j < |comp|
          ensures AtLeast(RDate(byWish, r), RDate(byWish, comp[j]))
        {
          if j < |init| {
            assert comp[j] == init[j];
          }
        }
      }
    } else {
      assert LaterThanPrefix(comp, byWish, 0);
    }
  }

  /** Line 80 as written: the key `rdate(w) or datetime.min`. */
  function LatestAsWritten(comp: seq<string>, byWish: Index): string
    requires |comp| >= 1
  {
    if |comp| == 1 then comp[0]
    else
      var best := LatestAsWritten(comp[..|comp| - 1], byWish);
      if LaterAsWritten(RDate(byWish, comp[|comp| - 1]), RDate(byWish, best)) then comp[|comp| - 1] else best
  }

  /**
   * An undated member listed before a member dated 0001-01-01 is picked as
   * the most recent as written, though the other member has a date.
   */
  lemma LatestAsWrittenPicksUndated(comp: seq<string>, byWish: Index)
    requires comp == ["10001", "10002"]
    requires byWish == map["10001" := None, "10002" := Some(MinDate)]
    ensures RDate(byWish, LatestAsWritten(comp, byWish)) == None
    ensures Latest(comp, byWish) == "10002" && RDate(byWish, Latest(comp, byWish)) == Some(MinDate)
  {
    assert comp[..1] == ["10001"];
    assert RDate(byWish, "10001") == None && RDate(byWish, "10002") == Some(MinDate);
  }

  // ---------------------------------------------------------------------
  // The families

  /** One family: its members sorted by date and its most recent member. */
  datatype Family = Family(members: seq<string>, latest: string)

  /** `for w in comp: wish_to_family[w] = i`. */
  function Assign(m: map<string, nat>, comp: seq<string>, i: nat): map<string, nat> {
    if comp == [] then m else Assign(m, comp[..|comp| - 1], i)[comp[|comp| - 1] := i]
  }

  /** The identifier-to-family map after the loop has processed `comps`. */
  function FamilyIndex(comps: seq<seq<string>>): map<string, nat> {
    if comps == [] then map[] else Assign(FamilyIndex(comps[..|comps| - 1]), comps[|comps| - 1], |comps| - 1)
  }

  lemma {:induction false} AssignMaps(m: map<string, nat>, comp: seq<string>, i: nat, w: string)
    ensures w in Assign(m, comp, i) <==> w in m || w in comp
    ensures w in comp ==> Assign(m, comp, i)[w] == i
    ensures w !in comp && w in m ==> Assign(m, comp, i)[w] == m[w]
  {
    if comp != [] {
      AssignMaps(m, comp[..|comp| - 1], i, w);
      assert comp == comp[..|comp| - 1] + [comp[|comp| - 1]];
    }
  }

  /**
   * Every covered identifier maps to the last family whose component lists
   * it, and nothing else is mapped.
   */
  lemma {:induction false} FamilyIndexIsLastComponent(comps: seq<seq<string>>, w: string)
    ensures w in FamilyIndex(comps) <==> w in Covered(comps)
    ensures w in FamilyIndex(comps) ==>
      && FamilyIndex(comps)[w] < |comps|
      && w in comps[FamilyIndex(comps)[w]]
      && forall j :: FamilyIndex(comps)[w] < j < |comps| ==> w !in comps[j]
  {
    if comps != [] {
      var init := comps[..|comps| - 1];
      FamilyIndexIsLastComponent(init, w);
      AssignMaps(FamilyIndex(init), comps[|comps| - 1], |comps| - 1, w);
      if w in FamilyIndex(init) && w !in comps[|comps| - 1] {
        assert comps[FamilyIndex(init)[w]] == init[FamilyIndex(init)[w]];
        forall j | FamilyIndex(init)[w] < j < |comps|
          ensures w !in comps[j]
        {
          if j < |init| {
            assert comps[j] == init[j];
          }
        }
      }
    }
  }

  lemma DisjointAt(g: Graph.Graph, comps: seq<seq<string>>, i: nat, k: nat)
    requires DisjointComponents(g, comps) && i < |comps| && k < |comps|
    ensures i != k ==> Elems(comps[i]) !! Elems(comps[k])
  {
    if k < i {
      assert Elems(comps[k]) !! Elems(comps[i]);
    }
  }

  /** For disjoint components an identifier maps to family `i` exactly when component `i` lists it. */
  lemma FamilyIndexOfDisjoint(g: Graph.Graph, comps: seq<seq<string>>, i: nat, w: string)
    requires DisjointComponents(g, comps) && i < |comps|
    ensures w in comps[i] <==> w in FamilyIndex(comps) && FamilyIndex(comps)[w] == i
  {
    FamilyIndexIsLastComponent(comps, w);
    if w in comps[i] {
      CoveredHas(comps, i);
      var k := FamilyIndex(comps)[w];
      assert w in Elems(comps[i]) && w in Elems(comps[k]);
      DisjointAt(g, comps, i, k);
    }
  }

  /**
   * Lines 77-82: for each component in turn, records its number for each
   * member and appends its family.
   */
  method BuildFamilies(comps: seq<seq<string>>, byWish: Index) returns (families: seq<Family>, wishToFamily: map<string, nat>)
    requires forall i :: 0 <= i < |comps| ==> |comps[i]| >= 1
    ensures |families| == |comps|
    ensures forall i :: 0 <= i < |comps| ==>
      families[i] == Family(SortMembers(comps[i], byWish), Latest(comps[i], byWish))
    ensures wishToFamily == FamilyIndex(comps)
  {
    families, wishToFamily := [], map[];
    for i := 0 to |comps|
      invariant |families| == i
      invariant forall j :: 0 <= j < i ==> families[j] == Family(SortMembers(comps[j], byWish), Latest(comps[j], byWish))
      invariant wishToFamily == FamilyIndex(comps[..i])
    {
      var comp := comps[i];
      var sorted := SortMembers(comp, byWish);
      var latest := Latest(comp, byWish);
      ghost var before := wishToFamily;
      for k := 0 to |comp|
        invariant wishToFamily == Assign(before, comp[..k], i)
      {
        assert comp[..k + 1][..k] == comp[..k];
        wishToFamily := wishToFamily[comp[k] := i];
      }
      assert comp[..|comp|] == comp;
      assert comps[..i + 1][..i] == comps[..i];
      families := families + [Family(sorted, latest)];
    }
    assert comps[..|comps|] == comps;
  }

  // ---------------------------------------------------------------------
  // The dates output

  /** A date written as text; no date stays None. */
  function FormatOptDate(d: Option<Date>): (r: Option<string>)
    requires ValidOptDate(d)
    ensures r.None? <==> d.None?
  {
    if d.Some? then Some(FormatDate(d.value)) else None
  }

  /** Line 84: each indexed identifier with its date written as text, or None. */
  function DateStrings(byWish: Index): (r: map<string, Option<string>>)
    requires forall w | w in byWish :: ValidOptDate(byWish[w])
    ensures r.Keys == byWish.Keys
    ensures forall w | w in r :: r[w].None? <==> byWish[w].None?
  {
    map w | w in byWish :: FormatOptDate(byWish[w])
  }

  /** Each written date reads back as the indexed date. */
  lemma DateStringsRoundTrip(byWish: Index, w: string)
    requires forall w | w in byWish :: ValidOptDate(byWish[w])
    requires w in byWish && byWish[w].Some?
    ensures DateStrings(byWish)[w].Some? && ParseDate(DateStrings(byWish)[w].value) == byWish[w]
  {
    FormatDateRoundTrip(byWish[w].value);
  }
}
