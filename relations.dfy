/**
 * The whole build: records, relation graph, components, date index,
 * families and the dates output (lines 33-84).
 */
module Relations {
  import opened Wrappers
  import opened Sequences
  import opened Dates
  import opened Rows
  import opened Graph
  import opened Components
  import opened DateIndex
  import opened Families

  /** What the build writes out, without the file encoding. */
  datatype Relations = Relations(families: seq<Family>, wishToFamily: map<string, nat>, dates: map<string, Option<string>>)

  /** The families are the components, listed as the build leaves them. */
  ghost predicate FamiliesOf(comps: seq<seq<string>>, byWish: Index, families: seq<Family>) {
    && |families| == |comps|
    && forall i :: 0 <= i < |comps| ==>
         |comps[i]| >= 1 && families[i] == Family(SortMembers(comps[i], byWish), Latest(comps[i], byWish))
  }

  /** A family lists exactly the members of its component. */
  lemma MembersOfComponent(c: seq<string>, byWish: Index, w: string)
    ensures w in SortMembers(c, byWish) <==> w in c
  {
    SortMembersPermutes(c, byWish);
    assert w in multiset(SortMembers(c, byWish)) <==> w in multiset(c);
  }

  /** Each family lists its members once, in date order, with a most recent one. */
  lemma FamilyIsOrdered(g: Graph, comps: seq<seq<string>>, byWish: Index, families: seq<Family>, i: nat)
    requires DisjointComponents(g, comps) && FamiliesOf(comps, byWish, families) && i < |families|
    ensures Distinct(families[i].members) && SortedByDate(families[i].members, byWish)
    ensures families[i].latest in families[i].members
    ensures forall w | w in families[i].members :: AtLeast(RDate(byWish, families[i].latest), RDate(byWish, w))
  {
    var c := comps[i];
    assert IsComponent(g, c);
    var m := SortMembers(c, byWish);
    SortMembersPermutes(c, byWish);
    SortMembersSorted(c, byWish);
    DistinctIffSingleCounts(c);
    DistinctIffSingleCounts(m);
    LatestIsFirstMaximal(c, byWish);
    MembersOfComponent(c, byWish, Latest(c, byWish));
    forall w | w in m
      ensures AtLeast(RDate(byWish, Latest(c, byWish)), RDate(byWish, w))
    {
      MembersOfComponent(c, byWish, w);
      var j :| 0 <= j < |c| && c[j] == w;
    }
  }

  /** The family map sends each member of family `i` to `i`, and maps nothing else. */
  lemma FamilyIndexOfFamilies(g: Graph, comps: seq<seq<string>>, byWish: Index, families: seq<Family>, w: string)
    requires DisjointComponents(g, comps) && FamiliesOf(comps, byWish, families)
    ensures w in FamilyIndex(comps) <==> w in Covered(comps)
    ensures w in FamilyIndex(comps) ==>
      FamilyIndex(comps)[w] < |families| && w in families[FamilyIndex(comps)[w]].members
    ensures forall i :: 0 <= i < |families| && w in families[i].members ==>
      w in FamilyIndex(comps) && FamilyIndex(comps)[w] == i
  {
    FamilyIndexIsLastComponent(comps, w);
    if w in FamilyIndex(comps) {
      MembersOfComponent(comps[FamilyIndex(comps)[w]], byWish, w);
    }
    forall i | 0 <= i < |families| && w in families[i].members
      ensures w in FamilyIndex(comps) && FamilyIndex(comps)[w] == i
    {
      MembersOfComponent(comps[i], byWish, w);
      FamilyIndexOfDisjoint(g, comps, i, w);
    }
  }

  /** Two identifiers share a family exactly when the graph connects them. */
  lemma SameFamilyIffConnected(g: Graph, comps: seq<seq<string>>, a: string, b: string)
    requires ValidGraph(g) && DisjointComponents(g, comps)
    requires a in FamilyIndex(comps) && b in FamilyIndex(comps)
    ensures FamilyIndex(comps)[a] == FamilyIndex(comps)[b] <==> Connected(g, a, b)
  {
    FamilyIndexIsLastComponent(comps, a);
    FamilyIndexIsLastComponent(comps, b);
    SameComponentIffConnected(g, comps, FamilyIndex(comps)[a], FamilyIndex(comps)[b], a, b);
  }

  /** Every indexed date is a calendar date. */
  lemma IndexOfIsValid(rows: seq<Row>, w: string)
    requires forall i :: 0 <= i < |rows| ==> WellFormed(rows[i])
    requires w in IndexOf(rows)
    ensures ValidOptDate(IndexOf(rows)[w])
  {
    IndexOfIsAttained(rows, w);
    var i :| 0 <= i < |rows| && rows[i].wish == w && rows[i].date == IndexOf(rows)[w];
    assert WellFormed(rows[i]);
  }

  /** The family map covers the nodes and agrees with the members lists. */
  ghost predicate FamilyMapMatches(g: Graph, families: seq<Family>, wishToFamily: map<string, nat>) {
    && wishToFamily.Keys == g.Keys
    && (forall w | w in wishToFamily ::
          wishToFamily[w] < |families| && w in families[wishToFamily[w]].members)
    && (forall i, w | 0 <= i < |families| && w in families[i].members ::
          w in wishToFamily && wishToFamily[w] == i)
  }

  /** Identifiers share a family exactly when the graph connects them. */
  ghost predicate FamiliesAreConnected(g: Graph, wishToFamily: map<string, nat>) {
    forall a, b | a in wishToFamily && b in wishToFamily ::
      wishToFamily[a] == wishToFamily[b] <==> Connected(g, a, b)
  }

  /** Each family lists its members once, in date order, with a most recent one. */
  ghost predicate FamiliesAreOrdered(byWish: Index, families: seq<Family>) {
    && (forall i | 0 <= i < |families| ::
          && Distinct(families[i].members)
          && SortedByDate(families[i].members, byWish)
          && families[i].latest in families[i].members)
    && (forall i, w | 0 <= i < |families| && w in families[i].members ::
          AtLeast(RDate(byWish, families[i].latest), RDate(byWish, w)))
  }

  /**
   * The families are the components the search finds, in the order it finds
   * them: component `i` starts at the first key, in insertion order, that the
   * earlier components leave out; each family is that component sorted, with
   * its first most recent member, and the map is the one line 81 builds.
   */
  ghost predicate FamiliesInSearchOrder(g: Graph, order: seq<string>, byWish: Index,
                                        families: seq<Family>, wishToFamily: map<string, nat>) {
    exists comps ::
      && DisjointComponents(g, comps)
      && Covered(comps) == g.Keys
      && InKeyOrder(order, comps)
      && FamiliesOf(comps, byWish, families)
      && wishToFamily == FamilyIndex(comps)
  }

  lemma FamilyMapOfComponents(g: Graph, comps: seq<seq<string>>, byWish: Index, families: seq<Family>)
    requires DisjointComponents(g, comps) && Covered(comps) == g.Keys
    requires FamiliesOf(comps, byWish, families)
    ensures FamilyMapMatches(g, families, FamilyIndex(comps))
  {
    forall w
      ensures w in FamilyIndex(comps) <==> w in g
      ensures w in FamilyIndex(comps) ==>
        FamilyIndex(comps)[w] < |families| && w in families[FamilyIndex(comps)[w]].members
      ensures forall i :: 0 <= i < |families| && w in families[i].members ==>
        w in FamilyIndex(comps) && FamilyIndex(comps)[w] == i
    {
      FamilyIndexOfFamilies(g, comps, byWish, families, w);
    }
  }

  lemma ComponentsAreConnected(g: Graph, comps: seq<seq<string>>)
    requires ValidGraph(g) && DisjointComponents(g, comps)
    ensures FamiliesAreConnected(g, FamilyIndex(comps))
  {
    forall a, b | a in FamilyIndex(comps) && b in FamilyIndex(comps)
      ensures FamilyIndex(comps)[a] == FamilyIndex(comps)[b] <==> Connected(g, a, b)
    {
      SameFamilyIffConnected(g, comps, a, b);
    }
  }

  lemma FamiliesOfComponentsAreOrdered(g: Graph, comps: seq<seq<string>>, byWish: Index, families: seq<Family>)
    requires DisjointComponents(g, comps) && FamiliesOf(comps, byWish, families)
    ensures FamiliesAreOrdered(byWish, families)
  {
    forall i | 0 <= i < |families|
      ensures Distinct(families[i].members) && SortedByDate(families[i].members, byWish)
      ensures families[i].latest in families[i].members
      ensures forall w | w in families[i].members :: AtLeast(RDate(byWish, families[i].latest), RDate(byWish, w))
    {
      FamilyIsOrdered(g, comps, byWish, families, i);
    }
  }

  /**
   * Lines 33-84: reads the records, builds the graph, finds its components,
   * indexes the dates and assembles the families and the dates output. Two
   * identifiers share a family exactly when the records connect them, each
   * family is listed in date order, and its most recent member is dated no
   * earlier than any other.
   */
  method BuildRelations(raws: seq<RawRow>) returns (out: Relations)
    ensures FamilyMapMatches(RelationGraph(AcceptedRows(raws)), out.families, out.wishToFamily)
    ensures FamiliesAreConnected(RelationGraph(AcceptedRows(raws)), out.wishToFamily)
    ensures FamiliesAreOrdered(IndexOf(AcceptedRows(raws)), out.families)
    ensures FamiliesInSearchOrder(RelationGraph(AcceptedRows(raws)), Dedup(Mentions(AcceptedRows(raws))),
                                  IndexOf(AcceptedRows(raws)), out.families, out.wishToFamily)
    ensures out.dates.Keys == IndexOf(AcceptedRows(raws)).Keys == Subjects(AcceptedRows(raws))
    ensures forall w | w in out.dates ::
      && (out.dates[w].None? <==> IndexOf(AcceptedRows(raws))[w].None?)
      && (out.dates[w].Some? ==> ParseDate(out.dates[w].value) == IndexOf(AcceptedRows(raws))[w])
  {
    var rows := ReadRows(raws);
    var g, order := BuildGraph(rows);
    RelationGraphProperties(rows);
    var comps := FindComponents(g, order);
    var byWish := IndexDates(rows);
    var families, wishToFamily := BuildFamilies(comps, byWish);
    FamilyMapOfComponents(g, comps, byWish, families);
    ComponentsAreConnected(g, comps);
    FamiliesOfComponentsAreOrdered(g, comps, byWish, families);
    assert FamiliesOf(comps, byWish, families);
    assert FamiliesInSearchOrder(g, order, byWish, families, wishToFamily);
    forall w | w in byWish
      ensures ValidOptDate(byWish[w])
    {
      IndexOfIsValid(rows, w);
    }
    var dates := DateStrings(byWish);
    IndexOfKeys(rows);
    forall w | w in byWish && byWish[w].Some?
      ensures ParseDate(dates[w].value) == byWish[w]
    {
      DateStringsRoundTrip(byWish, w);
    }
    out := Relations(families, wishToFamily, dates);
  }
}
