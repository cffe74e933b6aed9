/** Small facts about sequences used as ordered collections. */
module Sequences {

  /** No element occurs twice. */
  predicate Distinct<T(==)>(s: seq<T>) {
    forall i, j :: 0 <= i < j < |s| ==> s[i] != s[j]
  }

  /** The set of elements of `s`. */
  function Elems<T>(s: seq<T>): set<T> {
    set x | x in s
  }

  lemma ElemsConcat<T>(a: seq<T>, b: seq<T>)
    ensures Elems(a + b) == Elems(a) + Elems(b)
  {
  }

  /**
   * `d` followed by each element of `xs` that is not yet present, in order:
   * the keys of an insertion-ordered dictionary `d` after inserting `xs`.
   */
  function AppendNew<T(==)>(d: seq<T>, xs: seq<T>): seq<T> {
    if xs == [] then d
    else
      var e := AppendNew(d, xs[..|xs| - 1]);
      if xs[|xs| - 1] in e then e else e + [xs[|xs| - 1]]
  }

  /** The first occurrences of the elements of `s`, in order. */
  function Dedup<T(==)>(s: seq<T>): seq<T> {
    AppendNew([], s)
  }

  /** Inserting `xs` and then `ys` is inserting `xs + ys`. */
  lemma {:induction false} AppendNewConcat<T>(d: seq<T>, xs: seq<T>, ys: seq<T>)
    ensures AppendNew(AppendNew(d, xs), ys) == AppendNew(d, xs + ys)
  {
    if ys == [] {
      assert xs + ys == xs;
    } else {
      var init := ys[..|ys| - 1];
      AppendNewConcat(d, xs, init);
      assert (xs + ys)[..|xs + ys| - 1] == xs + init;
    }
  }

  /** Inserting keeps the keys distinct and adds exactly the inserted elements. */
  lemma {:induction false} AppendNewElements<T>(d: seq<T>, xs: seq<T>)
    requires Distinct(d)
    ensures Distinct(AppendNew(d, xs))
    ensures Elems(AppendNew(d, xs)) == Elems(d) + Elems(xs)
  {
    if xs != [] {
      var init := xs[..|xs| - 1];
      AppendNewElements(d, init);
      assert xs == init + [xs[|xs| - 1]];
      assert Elems(xs) == Elems(init) + {xs[|xs| - 1]};
      var e := AppendNew(d, init);
      if xs[|xs| - 1] !in e {
        assert Elems(e + [xs[|xs| - 1]]) == Elems(e) + {xs[|xs| - 1]};
      }
    }
  }

  /** Dedup keeps one copy of each element and nothing else. */
  lemma DedupElements<T>(s: seq<T>)
    ensures Distinct(Dedup(s))
    ensures Elems(Dedup(s)) == Elems(s)
  {
    AppendNewElements([], s);
  }

  /** No element occurs twice exactly when each occurs at most once. */
  lemma {:induction false} DistinctIffSingleCounts<T>(s: seq<T>)
    ensures Distinct(s) <==> forall x :: multiset(s)[x] <= 1
  {
    if s != [] {
      var init, last := s[..|s| - 1], s[|s| - 1];
      DistinctIffSingleCounts(init);
      assert s == init + [last];
      assert multiset(s) == multiset(init) + multiset{last};
      if Distinct(s) {
        assert Distinct(init);
        assert last !in init;
      }
      if forall x :: multiset(s)[x] <= 1 {
        assert forall x :: multiset(init)[x] <= multiset(s)[x];
        forall i, j | 0 <= i < j < |s|
          ensures s[i] != s[j]
        {
          if j < |s| - 1 {
            assert s[i] == init[i] && s[j] == init[j];
          } else {
            assert s[i] == init[i] && multiset(s)[last] == multiset(init)[last] + 1;
          }
        }
      }
    }
  }
}
