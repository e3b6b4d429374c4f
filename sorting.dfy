/** Sorting a group with a comparer. The host's list sort is unstable and its
    algorithm is not part of this model; the model sorts by insertion, and
    what is proved about the result holds for any order a sort may leave:
    the result is a permutation, and under a consistent comparer its first
    element is one that no other element goes before. */
module Sorting {
  import opened Common
  import opened ParsedStrings
  import opened Comparison

  /** A comparison of two names: negative when the first goes before the
      second, positive when it goes after. */
  type Order = (Parsed, Parsed) -> int

  /** The comparer applied to two names by their sizes. */
  function ByComparer(c: Comparer, ctx: Context): Order {
    (x: Parsed, y: Parsed) => Compare(c, ctx, Some(x.Size()), Some(y.Size()))
  }

  /** `x` inserted in front of the first element it does not go after. */
  function Insert(cmp: Order, x: Parsed, s: seq<Parsed>): (r: seq<Parsed>)
    ensures |r| == |s| + 1
    ensures multiset(r) == multiset(s) + multiset{x}
    ensures r[0] == (if s == [] || cmp(x, s[0]) <= 0 then x else s[0])
  {
    if s == [] || cmp(x, s[0]) <= 0 then [x] + s
    else
      assert s == [s[0]] + s[1..];
      [s[0]] + Insert(cmp, x, s[1..])
  }

  /** The items sorted with the comparison. */
  function SortBy(cmp: Order, items: seq<Parsed>): (r: seq<Parsed>)
    ensures |r| == |items|
    ensures multiset(r) == multiset(items)
  {
    if items == [] then []
    else
      assert items == [items[0]] + items[1..];
      Insert(cmp, items[0], SortBy(cmp, items[1..]))
  }

  /** Swapping two items negates their comparison. */
  predicate Antisymmetric(cmp: Order, items: seq<Parsed>) {
    forall x, y :: x in items && y in items ==> cmp(x, y) == -cmp(y, x)
  }

  /** No element goes after its successor. */
  predicate Sorted(cmp: Order, s: seq<Parsed>) {
    forall i :: 0 < i < |s| ==> cmp(s[i - 1], s[i]) <= 0
  }

  /** The sorted list holds the same items. */
  lemma SortByMembers(cmp: Order, items: seq<Parsed>)
    ensures forall y :: y in SortBy(cmp, items) <==> y in items
  {
    var r := SortBy(cmp, items);
    assert forall y :: y in r <==> y in multiset(r);
  }

  lemma {:induction false} InsertSorted(cmp: Order, pool: seq<Parsed>, x: Parsed, s: seq<Parsed>)
    requires Antisymmetric(cmp, pool)
    requires x in pool && forall y :: y in s ==> y in pool
    requires Sorted(cmp, s)
    ensures Sorted(cmp, Insert(cmp, x, s))
    decreases |s|
  {
    if s != [] && cmp(x, s[0]) > 0 {
      assert s[0] in s;
      assert cmp(s[0], x) < 0;
      assert forall y :: y in s[1..] ==> y in s;
      InsertSorted(cmp, pool, x, s[1..]);
      var t := Insert(cmp, x, s[1..]);
      var r := [s[0]] + t;
      assert cmp(r[0], r[1]) <= 0;
      forall i | 1 < i < |r|
        ensures cmp(r[i - 1], r[i]) <= 0
      {
        assert r[i - 1] == t[i - 2] && r[i] == t[i - 1];
      }
    }
  }

  /** With an antisymmetric comparison no element of the sorted list goes
      after its successor. */
  lemma {:induction false} SortBySorted(cmp: Order, items: seq<Parsed>)
    requires Antisymmetric(cmp, items)
    ensures Sorted(cmp, SortBy(cmp, items))
    decreases |items|
  {
    if items != [] {
      var rest := items[1..];
      assert forall y :: y in rest ==> y in items;
      SortBySorted(cmp, rest);
      SortByMembers(cmp, rest);
      InsertSorted(cmp, items, items[0], SortBy(cmp, rest));
    }
  }

  /** "Does not go before" is transitive among the items: what a sort needs
      of its comparison to leave a least element first. */
  predicate Consistent(cmp: Order, items: seq<Parsed>) {
    forall x, y, z :: x in items && y in items && z in items && cmp(x, y) >= 0 && cmp(y, z) >= 0
                      ==> cmp(x, z) >= 0
  }

  /** The first element after sorting part of a pool on which the comparison
      is antisymmetric and consistent: no item of the part goes before it. */
  lemma {:induction false} SortByFirstLeastIn(cmp: Order, pool: seq<Parsed>, items: seq<Parsed>)
    requires Antisymmetric(cmp, pool) && Consistent(cmp, pool)
    requires items != [] && forall y :: y in items ==> y in pool
    ensures forall y :: y in items ==> cmp(y, SortBy(cmp, items)[0]) >= 0
    decreases |items|
  {
    var x, rest := items[0], items[1..];
    var h := SortBy(cmp, items)[0];
    assert x in items;
    assert cmp(x, x) == -cmp(x, x);
    if rest == [] {
      assert items == [x];
    } else {
      var s := SortBy(cmp, rest);
      assert forall y :: y in rest ==> y in items;
      SortByFirstLeastIn(cmp, pool, rest);
      SortByMembers(cmp, rest);
      assert s[0] in rest;
      if h == x {
        assert cmp(s[0], x) >= 0;
      }
      forall y | y in items
        ensures cmp(y, h) >= 0
      {
        if y != x {
          assert y in rest;
          assert cmp(y, s[0]) >= 0;
        }
      }
    }
  }

  /** Under an antisymmetric, consistent comparison no item goes before the
      first sorted one. */
  lemma SortByFirstLeast(cmp: Order, items: seq<Parsed>)
    requires Antisymmetric(cmp, items) && Consistent(cmp, items)
    requires items != []
    ensures forall y :: y in items ==> cmp(y, SortBy(cmp, items)[0]) >= 0
  {
    SortByFirstLeastIn(cmp, items, items);
  }

  /** When every item of a given size goes before every item of another
      size, an item of that size is sorted first whenever there is one. */
  lemma {:induction false} SortByBestFirst(cmp: Order, items: seq<Parsed>, best: Resolution, k: nat)
    requires forall x, y :: x in items && y in items && x.Size() == best && y.Size() != best ==>
               cmp(x, y) < 0 && cmp(y, x) > 0
    requires k < |items| && items[k].Size() == best
    ensures SortBy(cmp, items)[0].Size() == best
    decreases |items|
  {
    var x, rest := items[0], items[1..];
    var s := SortBy(cmp, rest);
    if s != [] {
      SortByMembers(cmp, rest);
      assert s[0] in s;
      assert forall y :: y in rest ==> y in items;
      if k > 0 {
        SortByBestFirst(cmp, rest, best, k - 1);
      }
    }
  }



  /** With a positive epsilon the comparer is antisymmetric on a group in
      which no two names clash on aspect (both near the target's aspect but
      not near each other's); on a clashing pair it is not. */
  lemma ComparerAntisymmetric(c: Comparer, ctx: Context, items: seq<Parsed>)
    requires ctx.epsilon > 0.0
    requires forall x, y :: x in items && y in items ==> !AspectClash(c, ctx, Some(x.Size()), Some(y.Size()))
    ensures Antisymmetric(ByComparer(c, ctx), items)
  {
    forall x, y | x in items && y in items
      ensures ByComparer(c, ctx)(x, y) == -ByComparer(c, ctx)(y, x)
    {
      CompareAntisymmetricApart(c, ctx, Some(x.Size()), Some(y.Size()));
    }
  }

  /** A name of exactly the target size is always sorted first, whatever the
      comparer's other stages decide. */
  lemma SortByTargetFirst(c: Comparer, ctx: Context, items: seq<Parsed>, k: nat)
    requires !IsNegative(ctx.target) && !IsZero(ctx.target)
    requires k < |items| && items[k].Size() == ctx.target
    ensures SortBy(ByComparer(c, ctx), items)[0].Size() == ctx.target
  {
    var cmp := ByComparer(c, ctx);
    forall x, y | x in items && y in items && x.Size() == ctx.target && y.Size() != ctx.target
      ensures cmp(x, y) < 0 && cmp(y, x) > 0
    {
      CompareTargetFirst(c, ctx, y.Size());
    }
    SortByBestFirst(cmp, items, ctx.target, k);
  }
}
