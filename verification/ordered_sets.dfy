/**
 An ordered set (the source's `std::set` and the key order of `std::map`)
 modelled as a strictly increasing sequence under a strict total order
 `lt`. Iterating such a set visits the elements in increasing order, which
 is what the sequence records.
 */
module OrderedSets {

  /** `lt` is irreflexive, transitive and total on distinct values. */
  ghost predicate StrictTotalOrder<T(!new)>(lt: (T, T) -> bool) {
    && (forall a :: !lt(a, a))
    && (forall a, b, c :: lt(a, b) && lt(b, c) ==> lt(a, c))
    && (forall a, b :: a != b ==> lt(a, b) || lt(b, a))
  }

  predicate StrictlyIncreasing<T>(xs: seq<T>, lt: (T, T) -> bool) {
    forall i, j :: 0 <= i < j < |xs| ==> lt(xs[i], xs[j])
  }

  function Elems<T>(xs: seq<T>): set<T> {
    set x | x in xs
  }

  /** `std::set::insert`: adds `x` unless it is already present, keeping
      the elements in increasing order. */
  function Insert<T(==,!new)>(xs: seq<T>, x: T, lt: (T, T) -> bool): (r: seq<T>)
    requires StrictTotalOrder(lt)
    requires StrictlyIncreasing(xs, lt)
    ensures StrictlyIncreasing(r, lt)
    ensures Elems(r) == Elems(xs) + {x}
    ensures x in xs ==> r == xs
  {
    if xs == [] then [x]
    else if x == xs[0] then xs
    else if lt(x, xs[0]) then
      assert Elems([x] + xs) == {x} + Elems(xs);
      [x] + xs
    else
      var rest := Insert(xs[1..], x, lt);
      InsertBehindHead(xs, x, rest, lt);
      [xs[0]] + rest
  }

  /** Inserting behind the head: the head stays the least element. */
  lemma InsertBehindHead<T(!new)>(xs: seq<T>, x: T, rest: seq<T>, lt: (T, T) -> bool)
    requires StrictTotalOrder(lt)
    requires StrictlyIncreasing(xs, lt) && xs != []
    requires x != xs[0] && !lt(x, xs[0])
    requires StrictlyIncreasing(rest, lt)
    requires Elems(rest) == Elems(xs[1..]) + {x}
    requires x in xs[1..] ==> rest == xs[1..]
    ensures StrictlyIncreasing([xs[0]] + rest, lt)
    ensures Elems([xs[0]] + rest) == Elems(xs) + {x}
    ensures x in xs ==> [xs[0]] + rest == xs
  {
    ElemsOfCons(xs);
    ElemsOfCons([xs[0]] + rest);
    assert ([xs[0]] + rest)[1..] == rest;
    HeadIsLeast(xs, lt);
    assert lt(xs[0], x);
    HeadBelowRest(xs[0], rest, lt);
    if x in xs {
      assert xs == [xs[0]] + xs[1..];
    }
  }

  lemma ElemsOfCons<T>(xs: seq<T>)
    requires xs != []
    ensures Elems(xs) == {xs[0]} + Elems(xs[1..])
  {
    assert xs == [xs[0]] + xs[1..];
  }

  /** A value below every element can be put in front. */
  lemma HeadBelowRest<T(!new)>(h: T, rest: seq<T>, lt: (T, T) -> bool)
    requires StrictlyIncreasing(rest, lt)
    requires forall y :: y in Elems(rest) ==> lt(h, y)
    ensures StrictlyIncreasing([h] + rest, lt)
  {
    forall i, j | 0 <= i < j < |[h] + rest| ensures lt(([h] + rest)[i], ([h] + rest)[j]) {
      assert rest[j - 1] in Elems(rest);
      if i > 0 {
        assert ([h] + rest)[i] == rest[i - 1];
      }
    }
  }

  /** The ordered set holding the elements of `xs` (inserted left to right). */
  function FromSeq<T(==,!new)>(acc: seq<T>, xs: seq<T>, lt: (T, T) -> bool): (r: seq<T>)
    requires StrictTotalOrder(lt)
    requires StrictlyIncreasing(acc, lt)
    ensures StrictlyIncreasing(r, lt)
    ensures Elems(r) == Elems(acc) + Elems(xs)
    decreases |xs|
  {
    if xs == [] then acc
    else
      assert Elems(xs) == {xs[0]} + Elems(xs[1..]) by {
        assert xs == [xs[0]] + xs[1..];
      }
      FromSeq(Insert(acc, xs[0], lt), xs[1..], lt)
  }

  lemma ElemsEmpty<T>(xs: seq<T>)
    ensures Elems(xs) == {} <==> xs == []
  {
    if xs != [] {
      assert xs[0] in Elems(xs);
    }
  }

  /** The first element of an ordered set is below every other element. */
  lemma HeadIsLeast<T(!new)>(xs: seq<T>, lt: (T, T) -> bool)
    requires StrictlyIncreasing(xs, lt)
    requires xs != []
    ensures forall x :: x in xs[1..] ==> lt(xs[0], x)
  {
    forall x | x in xs[1..] ensures lt(xs[0], x) {
      var k :| 0 <= k < |xs[1..]| && xs[1..][k] == x;
      assert xs[k + 1] == x;
    }
  }

  /** Two strictly increasing sequences with the same elements are equal:
      an ordered set is determined by its contents. */
  lemma {:induction false} IncreasingUnique<T(!new)>(xs: seq<T>, ys: seq<T>, lt: (T, T) -> bool)
    requires StrictTotalOrder(lt)
    requires StrictlyIncreasing(xs, lt) && StrictlyIncreasing(ys, lt)
    requires Elems(xs) == Elems(ys)
    ensures xs == ys
    decreases |xs|
  {
    ElemsEmpty(xs);
    ElemsEmpty(ys);
    if xs != [] {
      assert xs == [xs[0]] + xs[1..] && ys == [ys[0]] + ys[1..];
      HeadIsLeast(xs, lt);
      HeadIsLeast(ys, lt);
      assert xs[0] in Elems(ys) && ys[0] in Elems(xs);
      assert xs[0] == ys[0];
      assert Elems(xs[1..]) == Elems(ys[1..]) by {
        assert xs[0] !in xs[1..];
        assert ys[0] !in ys[1..];
        assert Elems(xs) == {xs[0]} + Elems(xs[1..]);
        assert Elems(ys) == {ys[0]} + Elems(ys[1..]);
      }
      IncreasingUnique(xs[1..], ys[1..], lt);
    }
  }

  /** The elements of `xs` satisfying `p`, in their original order. */
  function Filter<T>(xs: seq<T>, p: T -> bool): (r: seq<T>)
    ensures Elems(r) == set x | x in xs && p(x)
    ensures forall i :: 0 <= i < |r| ==> p(r[i])
    decreases |xs|
  {
    if xs == [] then []
    else
      assert Elems(xs) == {xs[0]} + Elems(xs[1..]) by {
        assert xs == [xs[0]] + xs[1..];
      }
      var head: seq<T> := if p(xs[0]) then [xs[0]] else [];
      var rest := Filter(xs[1..], p);
      assert Elems(head + rest) == Elems(head) + Elems(rest);
      head + rest
  }

  /** Filtering keeps an ordered set ordered. */
  lemma {:induction false} FilterIncreasing<T(!new)>(xs: seq<T>, p: T -> bool, lt: (T, T) -> bool)
    requires StrictlyIncreasing(xs, lt)
    ensures StrictlyIncreasing(Filter(xs, p), lt)
    decreases |xs|
  {
    if xs != [] {
      FilterIncreasing(xs[1..], p, lt);
      HeadIsLeast(xs, lt);
      var rest := Filter(xs[1..], p);
      forall k | 0 <= k < |rest| ensures lt(xs[0], rest[k]) {
        assert rest[k] in Elems(rest);
      }
    }
  }
}
