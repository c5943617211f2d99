// Sequence operations shared by the tables, the queries and the dashboard computations.

module Sequences {

  function Filter<T>(keep: T -> bool, xs: seq<T>): (ys: seq<T>)
    ensures |ys| <= |xs|
  {
    if xs == [] then []
    else if keep(xs[0]) then [xs[0]] + Filter(keep, xs[1..])
    else Filter(keep, xs[1..])
  }

  function Map<T, U>(f: T -> U, xs: seq<T>): (ys: seq<U>)
    ensures |ys| == |xs|
    ensures forall i :: 0 <= i < |xs| ==> ys[i] == f(xs[i])
  {
    seq(|xs|, i requires 0 <= i < |xs| => f(xs[i]))
  }

  lemma {:induction false} FilterMember<T>(keep: T -> bool, xs: seq<T>, x: T)
    ensures x in Filter(keep, xs) <==> x in xs && keep(x)
  {
    if xs == [] {
    } else {
      FilterMember(keep, xs[1..], x);
      assert xs == [xs[0]] + xs[1..];
    }
  }

  lemma FilterMembers<T>(keep: T -> bool, xs: seq<T>)
    ensures forall x :: x in Filter(keep, xs) <==> x in xs && keep(x)
  {
    forall x
      ensures x in Filter(keep, xs) <==> x in xs && keep(x)
    {
      FilterMember(keep, xs, x);
    }
  }

  /** Every element that passes is kept as often as it occurred. */
  lemma {:induction false} FilterCounts<T>(keep: T -> bool, xs: seq<T>, x: T)
    ensures multiset(Filter(keep, xs))[x] == if keep(x) then multiset(xs)[x] else 0
  {
    if xs == [] {
    } else {
      FilterCounts(keep, xs[1..], x);
      assert xs == [xs[0]] + xs[1..];
    }
  }

  /** Appending one element, the step of every filtering loop. */
  lemma {:induction false} FilterSnoc<T>(keep: T -> bool, xs: seq<T>, x: T)
    ensures Filter(keep, xs + [x]) == Filter(keep, xs) + if keep(x) then [x] else []
  {
    if xs == [] {
      assert [] + [x] == [x] && [x][1..] == [];
    } else {
      FilterSnoc(keep, xs[1..], x);
      assert (xs + [x])[1..] == xs[1..] + [x];
    }
  }

  lemma {:induction false} FilterConcat<T>(keep: T -> bool, xs: seq<T>, ys: seq<T>)
    ensures Filter(keep, xs + ys) == Filter(keep, xs) + Filter(keep, ys)
    decreases |ys|
  {
    if ys == [] {
      assert xs + ys == xs;
    } else {
      var n := |ys| - 1;
      FilterConcat(keep, xs, ys[..n]);
      FilterSnoc(keep, xs + ys[..n], ys[n]);
      FilterSnoc(keep, ys[..n], ys[n]);
      assert xs + ys == xs + ys[..n] + [ys[n]];
      assert ys == ys[..n] + [ys[n]];
    }
  }

  /** Two filters that agree on the elements give the same result. */
  lemma {:induction false} FilterAgrees<T>(f: T -> bool, g: T -> bool, xs: seq<T>)
    requires forall x :: x in xs ==> f(x) == g(x)
    ensures Filter(f, xs) == Filter(g, xs)
  {
    if xs == [] {
    } else {
      FilterAgrees(f, g, xs[1..]);
    }
  }

  lemma {:induction false} FilterTwice<T>(f: T -> bool, g: T -> bool, both: T -> bool, xs: seq<T>)
    requires forall x :: x in xs ==> both(x) == (f(x) && g(x))
    ensures Filter(f, Filter(g, xs)) == Filter(both, xs)
  {
    if xs == [] {
    } else {
      FilterTwice(f, g, both, xs[1..]);
      if g(xs[0]) {
        assert Filter(g, xs)[1..] == Filter(g, xs[1..]);
      }
    }
  }

  /** No two positions carry the same key. */
  ghost predicate Distinct<T, K>(key: T -> K, xs: seq<T>) {
    forall i, j :: 0 <= i < j < |xs| ==> key(xs[i]) != key(xs[j])
  }

  lemma {:induction false} FilterDistinct<T, K>(key: T -> K, keep: T -> bool, xs: seq<T>)
    requires Distinct(key, xs)
    ensures Distinct(key, Filter(keep, xs))
  {
    if xs == [] {
    } else {
      FilterDistinct(key, keep, xs[1..]);
      if keep(xs[0]) {
        var rest := Filter(keep, xs[1..]);
        forall i | 0 <= i < |rest|
          ensures key(rest[i]) != key(xs[0])
        {
          FilterMember(keep, xs[1..], rest[i]);
        }
      }
    }
  }

  /** Updates that leave the key alone keep it distinct. */
  lemma MapDistinct<T, K>(key: T -> K, f: T -> T, xs: seq<T>)
    requires Distinct(key, xs)
    requires forall x :: x in xs ==> key(f(x)) == key(x)
    ensures Distinct(key, Map(f, xs))
  {
  }

  /** With distinct keys an element is determined by its key. */
  lemma DistinctDetermines<T, K>(key: T -> K, xs: seq<T>, x: T, y: T)
    requires Distinct(key, xs) && x in xs && y in xs && key(x) == key(y)
    ensures x == y
  {
  }

  /** A sequence with distinct keys holds no element twice. */
  lemma {:induction false} DistinctCount<T, K>(key: T -> K, xs: seq<T>, x: T)
    requires Distinct(key, xs)
    ensures multiset(xs)[x] <= 1
  {
    if xs == [] {
    } else {
      DistinctCount(key, xs[1..], x);
      assert xs == [xs[0]] + xs[1..];
      if xs[0] == x && x in xs[1..] {
        assert exists i :: 1 <= i < |xs| && xs[i] == x;
      }
    }
  }

  lemma CountedTwice<T>(xs: seq<T>, i: nat, j: nat)
    requires i < j < |xs| && xs[i] == xs[j]
    ensures multiset(xs)[xs[i]] >= 2
  {
    assert xs == xs[..j] + ([xs[j]] + xs[j + 1..]);
    assert xs[..j][i] == xs[i];
    assert xs[i] in xs[..j];
  }

  /** Distinctness does not depend on the order. */
  lemma DistinctPermuted<T, K>(key: T -> K, xs: seq<T>, ys: seq<T>)
    requires Distinct(key, xs) && multiset(xs) == multiset(ys)
    ensures Distinct(key, ys)
  {
    forall i, j | 0 <= i < j < |ys|
      ensures key(ys[i]) != key(ys[j])
    {
      if key(ys[i]) == key(ys[j]) {
        assert ys[i] in multiset(xs) && ys[j] in multiset(xs);
        DistinctDetermines(key, xs, ys[i], ys[j]);
        DistinctCount(key, xs, ys[i]);
        CountedTwice(ys, i, j);
      }
    }
  }

  lemma MapConcat<T, U>(f: T -> U, xs: seq<T>, ys: seq<T>)
    ensures Map(f, xs + ys) == Map(f, xs) + Map(f, ys)
  {
  }

  function Without<T>(xs: seq<T>, i: nat): seq<T>
    requires i < |xs|
  {
    xs[..i] + xs[i + 1..]
  }

  lemma WithoutCounts<T>(xs: seq<T>, i: nat)
    requires i < |xs|
    ensures multiset(xs) == multiset{xs[i]} + multiset(Without(xs, i))
  {
    assert xs == xs[..i] + ([xs[i]] + xs[i + 1..]);
  }

  lemma MapWithout<T, U>(f: T -> U, xs: seq<T>, i: nat)
    requires i < |xs|
    ensures Map(f, Without(xs, i)) == Without(Map(f, xs), i)
  {
    MapConcat(f, xs[..i], xs[i + 1..]);
  }

  /** Mapping does not depend on the order either. */
  lemma {:induction false} MapPermuted<T, U>(f: T -> U, xs: seq<T>, ys: seq<T>)
    requires multiset(xs) == multiset(ys)
    ensures multiset(Map(f, xs)) == multiset(Map(f, ys))
    decreases |xs|
  {
    if xs == [] {
      assert |multiset(xs)| == |xs| && |multiset(ys)| == |ys|;
    } else {
      assert xs[0] in multiset(ys);
      var i :| 0 <= i < |ys| && ys[i] == xs[0];
      WithoutCounts(xs, 0);
      WithoutCounts(ys, i);
      assert multiset(Without(xs, 0)) == multiset(xs) - multiset{xs[0]};
      assert multiset(Without(ys, i)) == multiset(ys) - multiset{xs[0]};
      MapPermuted(f, Without(xs, 0), Without(ys, i));
      MapWithout(f, xs, 0);
      MapWithout(f, ys, i);
      WithoutCounts(Map(f, xs), 0);
      WithoutCounts(Map(f, ys), i);
    }
  }

  /** Two repetition-free sequences with the same members are permutations of each other. */
  lemma SameMembersPermuted<T(!new)>(xs: seq<T>, ys: seq<T>)
    requires forall i, j :: 0 <= i < j < |xs| ==> xs[i] != xs[j]
    requires forall i, j :: 0 <= i < j < |ys| ==> ys[i] != ys[j]
    requires forall x :: x in xs <==> x in ys
    ensures multiset(xs) == multiset(ys)
  {
    forall x: T
      ensures multiset(xs)[x] == multiset(ys)[x]
    {
      DistinctCount((y: T) => y, xs, x);
      DistinctCount((y: T) => y, ys, x);
      assert x in multiset(xs) <==> x in xs;
      assert x in multiset(ys) <==> x in ys;
    }
  }

  /** The distinct elements, in order of first appearance. */
  function Distincts<T(==,!new)>(xs: seq<T>): (ys: seq<T>)
    ensures forall x :: x in ys <==> x in xs
    ensures forall i, j :: 0 <= i < j < |ys| ==> ys[i] != ys[j]
  {
    if xs == [] then []
    else
      var last := xs[|xs| - 1];
      var before := Distincts(xs[..|xs| - 1]);
      assert xs == xs[..|xs| - 1] + [last];
      if last in before then before else before + [last]
  }

  /** Filtering after mapping is mapping after filtering. */
  lemma {:induction false} FilterMap<T(!new), U>(keep: U -> bool, kept: T -> bool, f: T -> U, xs: seq<T>)
    requires forall x :: x in xs ==> kept(x) == keep(f(x))
    ensures Filter(keep, Map(f, xs)) == Map(f, Filter(kept, xs))
  {
    if xs == [] {
    } else {
      FilterMap(keep, kept, f, xs[1..]);
      assert Map(f, xs)[1..] == Map(f, xs[1..]);
      if kept(xs[0]) {
        MapConcat(f, [xs[0]], Filter(kept, xs[1..]));
      }
    }
  }

  /** A relation between earlier and later elements survives filtering. */
  lemma {:induction false} FilterKeepsOrder<T>(rel: (T, T) -> bool, keep: T -> bool, xs: seq<T>)
    requires forall i, j :: 0 <= i < j < |xs| ==> rel(xs[i], xs[j])
    ensures var ys := Filter(keep, xs); forall i, j :: 0 <= i < j < |ys| ==> rel(ys[i], ys[j])
  {
    if xs == [] {
    } else {
      FilterKeepsOrder(rel, keep, xs[1..]);
      var rest := Filter(keep, xs[1..]);
      forall i | 0 <= i < |rest|
        ensures rel(xs[0], rest[i])
      {
        FilterMember(keep, xs[1..], rest[i]);
      }
    }
  }

  function Sum(xs: seq<real>): real {
    if xs == [] then 0.0 else xs[0] + Sum(xs[1..])
  }

  /** A sum adds up its parts. */
  lemma {:induction false} SumAdds(xs: seq<real>, ys: seq<real>, x: real)
    ensures Sum([]) == 0.0 && Sum([x]) == x
    ensures Sum(xs + ys) == Sum(xs) + Sum(ys)
  {
    assert [x][1..] == [];
    if xs == [] {
      assert xs + ys == ys;
    } else {
      SumAdds(xs[1..], ys, x);
      assert (xs + ys)[1..] == xs[1..] + ys;
    }
  }

  /** What is kept sits, in order, at these places, and no other place is to be kept. */
  ghost predicate ArePlaces<T>(keep: T -> bool, xs: seq<T>, kept: seq<T>, places: seq<nat>) {
    && |places| == |kept|
    && (forall k :: 0 <= k < |places| ==> places[k] < |xs| && kept[k] == xs[places[k]])
    && (forall k, l :: 0 <= k < l < |places| ==> places[k] < places[l])
    && (forall i: nat :: i in places <==> i < |xs| && keep(xs[i]))
  }

  lemma ArePlacesSnoc<T>(keep: T -> bool, front: seq<T>, x: T, kept: seq<T>, places: seq<nat>)
    requires ArePlaces(keep, front, kept, places)
    ensures if keep(x) then ArePlaces(keep, front + [x], kept + [x], places + [|front|])
            else ArePlaces(keep, front + [x], kept, places)
  {
  }

  lemma {:induction false} KeptPlaces<T>(keep: T -> bool, xs: seq<T>) returns (places: seq<nat>)
    ensures ArePlaces(keep, xs, Filter(keep, xs), places)
    decreases |xs|
  {
    if xs == [] {
      places := [];
    } else {
      var n := |xs| - 1;
      var before := KeptPlaces(keep, xs[..n]);
      var kept := Filter(keep, xs[..n]);
      ArePlacesSnoc(keep, xs[..n], xs[n], kept, before);
      FilterSnoc(keep, xs[..n], xs[n]);
      assert xs[..n] + [xs[n]] == xs;
      assert kept + [] == kept;
      places := if keep(xs[n]) then before + [n] else before;
    }
  }

  lemma SameWithout<T>(xs: seq<T>, ys: seq<T>, i: nat)
    requires xs != [] && i < |ys| && ys[i] == xs[0] && multiset(xs) == multiset(ys)
    ensures multiset(xs[1..]) == multiset(Without(ys, i))
  {
    WithoutCounts(ys, i);
    assert xs == [xs[0]] + xs[1..];
    assert multiset(xs[1..]) == multiset(xs) - multiset{xs[0]};
    assert multiset(Without(ys, i)) == multiset(ys) - multiset{xs[0]};
  }

  /** A place counted without place `i`, counted with it. */
  function Skip(i: nat): nat -> nat {
    (p: nat) => if p < i then p else p + 1
  }

  lemma SkipFinds<T>(ys: seq<T>, i: nat, p: nat)
    requires i < |ys| && p < |Without(ys, i)|
    ensures Skip(i)(p) < |ys| && Skip(i)(p) != i && ys[Skip(i)(p)] == Without(ys, i)[p]
  {
  }

  lemma SkipKeepsApart(i: nat, rest: seq<nat>)
    requires forall k, l :: 0 <= k < l < |rest| ==> rest[k] != rest[l]
    ensures var places := [i] + Map(Skip(i), rest); forall k, l :: 0 <= k < l < |places| ==> places[k] != places[l]
  {
  }

  /** Two arrangements of the same elements are matched place by place. */
  lemma {:induction false} MatchedPlaces<T>(xs: seq<T>, ys: seq<T>) returns (places: seq<nat>)
    requires multiset(xs) == multiset(ys)
    ensures |places| == |xs| == |ys|
    ensures forall k :: 0 <= k < |xs| ==> places[k] < |ys| && ys[places[k]] == xs[k]
    ensures forall k, l :: 0 <= k < l < |xs| ==> places[k] != places[l]
    decreases |xs|
  {
    assert |multiset(xs)| == |xs| && |multiset(ys)| == |ys|;
    places := [];
    if xs != [] {
      assert xs[0] in multiset(ys);
      var i :| 0 <= i < |ys| && ys[i] == xs[0];
      SameWithout(xs, ys, i);
      var rest := MatchedPlaces(xs[1..], Without(ys, i));
      SkipKeepsApart(i, rest);
      places := [i] + Map(Skip(i), rest);
      forall k | 0 < k < |xs|
        ensures places[k] < |ys| && ys[places[k]] == xs[k]
      {
        SkipFinds(ys, i, rest[k - 1]);
        assert places[k] == Skip(i)(rest[k - 1]) && xs[1..][k - 1] == xs[k];
      }
    }
  }
}
