/**
 * The list operations the simulator relies on: Python's `list.remove(x)`,
 * which drops the first element equal to `x` and raises `ValueError` when
 * there is none, repeated removal over a list of victims, and filtering.
 */
module Seqs {
  import opened Wrappers

  /** No element occurs twice. */
  predicate Distinct<T(==)>(s: seq<T>) {
    forall i, j :: 0 <= i < j < |s| ==> s[i] != s[j]
  }

  /** `ys` is `xs` with some of its elements left out, the others in their order. */
  predicate Subsequence<T(==)>(ys: seq<T>, xs: seq<T>)
    decreases |xs|
  {
    if |ys| == 0 then true
    else if |xs| == 0 then false
    else if ys[0] == xs[0] then Subsequence(ys[1..], xs[1..])
    else Subsequence(ys, xs[1..])
  }

  /** `xs` without the elements of `gone`, the others kept in order. */
  function Without<T(==)>(xs: seq<T>, gone: set<T>): (r: seq<T>)
    ensures forall k :: 0 <= k < |r| ==> r[k] in xs && r[k] !in gone
    ensures forall k :: 0 <= k < |xs| && xs[k] !in gone ==> xs[k] in r
    ensures |r| <= |xs|
  {
    if |xs| == 0 then []
    else
      assert xs == [xs[0]] + xs[1..];
      if xs[0] in gone then Without(xs[1..], gone)
      else [xs[0]] + Without(xs[1..], gone)
  }

  /** Filtering keeps the remaining elements in their order. */
  lemma {:induction false} WithoutKeepsOrder<T>(xs: seq<T>, gone: set<T>)
    ensures Subsequence(Without(xs, gone), xs)
  {
    if |xs| > 0 {
      WithoutKeepsOrder(xs[1..], gone);
      var rest := Without(xs[1..], gone);
      if xs[0] !in gone {
        assert Without(xs, gone) == [xs[0]] + rest;
        assert ([xs[0]] + rest)[1..] == rest;
      } else if |rest| > 0 {
        assert rest[0] !in gone;
      }
    }
  }

  /** Filtering keeps every occurrence of each element outside `gone`. */
  lemma {:induction false} WithoutCounts<T>(xs: seq<T>, gone: set<T>, y: T)
    requires y !in gone
    ensures multiset(Without(xs, gone))[y] == multiset(xs)[y]
  {
    if |xs| > 0 {
      WithoutCounts(xs[1..], gone, y);
      assert xs == [xs[0]] + xs[1..];
    }
  }

  /** `xs.remove(x)`: the list without one `x`, or `None` for the `ValueError`. */
  function RemoveFirst<T(==)>(xs: seq<T>, x: T): (r: Option<seq<T>>)
    ensures r.Some? <==> x in xs
    ensures r.Some? ==> multiset(r.value) == multiset(xs) - multiset{x}
    ensures r.Some? ==> |r.value| == |xs| - 1 && forall k :: 0 <= k < |r.value| ==> r.value[k] in xs
  {
    if |xs| == 0 then None
    else if xs[0] == x then
      assert xs == [xs[0]] + xs[1..];
      Some(xs[1..])
    else
      match RemoveFirst(xs[1..], x)
      case None => None
      case Some(rest) =>
        assert xs == [xs[0]] + xs[1..];
        Some([xs[0]] + rest)
  }

  /**
   * `RemoveFirst` drops the first `x` of a list: with no `x` in `p`, removing
   * `x` from `p + [x] + q` leaves `p + q`, both parts in their order.
   */
  lemma {:induction false} RemoveFirstDropsFirst<T>(p: seq<T>, x: T, q: seq<T>)
    requires x !in p
    ensures RemoveFirst(p + [x] + q, x) == Some(p + q)
  {
    if |p| == 0 {
      assert p + [x] + q == [x] + q && p + q == q;
      assert ([x] + q)[1..] == q;
    } else {
      assert x !in p[1..];
      RemoveFirstDropsFirst(p[1..], x, q);
      RemoveFirstPastHead(p, x, q);
    }
  }

  /** Proof step of `RemoveFirstDropsFirst`: a head other than `x` stays in front. */
  lemma RemoveFirstPastHead<T>(p: seq<T>, x: T, q: seq<T>)
    requires |p| > 0 && p[0] != x
    requires RemoveFirst(p[1..] + [x] + q, x) == Some(p[1..] + q)
    ensures RemoveFirst(p + [x] + q, x) == Some(p + q)
  {
    var xs := p + [x] + q;
    assert xs[0] == p[0] && xs[1..] == p[1..] + [x] + q;
    assert p + q == [p[0]] + (p[1..] + q) by {
      assert p == [p[0]] + p[1..];
    }
  }

  /** `for d in ds: xs.remove(d)`: every removal in turn, or `None` once one of them raises. */
  function RemoveEach<T(==)>(xs: seq<T>, ds: seq<T>): Option<seq<T>>
    decreases |ds|
  {
    if |ds| == 0 then Some(xs)
    else match RemoveFirst(xs, ds[0])
      case None => None
      case Some(ys) => RemoveEach(ys, ds[1..])
  }

  /**
   * The removals all succeed exactly when every victim occurs in the list at
   * least as often as in the victim list; what is left is the difference.
   */
  lemma {:induction false} RemoveEachCounts<T>(xs: seq<T>, ds: seq<T>)
    ensures RemoveEach(xs, ds).Some? <==> multiset(ds) <= multiset(xs)
    ensures RemoveEach(xs, ds).Some? ==> multiset(RemoveEach(xs, ds).value) == multiset(xs) - multiset(ds)
    ensures RemoveEach(xs, ds).Some? ==> |RemoveEach(xs, ds).value| == |xs| - |ds|
    decreases |ds|
  {
    if |ds| > 0 {
      var d := ds[0];
      assert ds == [d] + ds[1..];
      assert multiset(ds) == multiset(ds[1..]) + multiset{d};
      match RemoveFirst(xs, d)
      case None =>
        assert multiset(xs)[d] == 0 && multiset(ds)[d] >= 1;
      case Some(ys) =>
        RemoveEachCounts(ys, ds[1..]);
        RemoveOneMore(multiset(ds[1..]), multiset(xs), d);
    }
  }

  /** Taking one `d` off the bag is the same as adding it to what is taken. */
  lemma RemoveOneMore<T>(a: multiset<T>, b: multiset<T>, d: T)
    requires d in b
    ensures a <= b - multiset{d} <==> a + multiset{d} <= b
    ensures (b - multiset{d}) - a == b - (a + multiset{d})
  {
    assert forall z :: (b - multiset{d})[z] == if z == d then b[z] - 1 else b[z];
  }

  /**
   * Removing distinct victims from a list without duplicates leaves the
   * other elements, in their order.
   */
  lemma {:induction false} RemoveEachDistinct<T>(xs: seq<T>, ds: seq<T>)
    requires Distinct(xs) && Distinct(ds)
    requires forall d :: d in ds ==> d in xs
    ensures RemoveEach(xs, ds) == Some(Without(xs, ToSet(ds)))
    decreases |ds|
  {
    if |ds| == 0 {
      assert ToSet(ds) == {};
      WithoutNothing(xs);
    } else {
      var d0, rest := ds[0], ds[1..];
      var ys := Without(xs, {d0});
      RemoveEachStep(xs, ds);
      assert RemoveEach(ys, rest) == Some(Without(ys, ToSet(rest))) by {
        WithoutDistinct(xs, {d0});
        RestStillPresent(xs, ds);
        RemoveEachDistinct(ys, rest);
      }
      assert Without(ys, ToSet(rest)) == Without(xs, ToSet(ds)) by {
        WithoutStep(xs, d0, ToSet(rest));
        assert ToSet(ds) == {d0} + ToSet(rest) by {
          assert ds == [d0] + rest;
        }
      }
    }
  }

  /** With its victim present only once, the first removal is filtering it out. */
  lemma RemoveEachStep<T>(xs: seq<T>, ds: seq<T>)
    requires |ds| > 0 && Distinct(xs) && ds[0] in xs
    ensures RemoveEach(xs, ds) == RemoveEach(Without(xs, {ds[0]}), ds[1..])
  {
    RemoveFirstDistinct(xs, ds[0]);
  }

  /** After the first victim is gone, the remaining distinct victims are still present. */
  lemma RestStillPresent<T>(xs: seq<T>, ds: seq<T>)
    requires |ds| > 0 && Distinct(ds)
    requires forall d :: d in ds ==> d in xs
    ensures Distinct(ds[1..])
    ensures forall d :: d in ds[1..] ==> d in Without(xs, {ds[0]})
  {
    forall d | d in ds[1..]
      ensures d in Without(xs, {ds[0]})
    {
      var i :| 0 <= i < |ds[1..]| && ds[1..][i] == d;
      assert ds[i + 1] == d && d != ds[0];
      assert d in ds;
      var k :| 0 <= k < |xs| && xs[k] == d;
    }
  }

  lemma {:induction false} WithoutNothing<T>(xs: seq<T>)
    ensures Without(xs, {}) == xs
  {
    if |xs| > 0 {
      WithoutNothing(xs[1..]);
      assert xs == [xs[0]] + xs[1..];
    }
  }

  /** From a list without duplicates, removing the first `x` removes the only `x`. */
  lemma {:induction false} RemoveFirstDistinct<T>(xs: seq<T>, x: T)
    requires Distinct(xs) && x in xs
    ensures RemoveFirst(xs, x) == Some(Without(xs, {x}))
    ensures Distinct(Without(xs, {x}))
  {
    if xs[0] == x {
      assert x !in xs[1..];
      WithoutAbsent(xs[1..], {x});
    } else {
      RemoveFirstDistinct(xs[1..], x);
    }
    WithoutDistinct(xs, {x});
  }

  /** In a list without duplicates, removing the element at `i` splices it out. */
  lemma RemoveFirstAt<T>(xs: seq<T>, i: nat)
    requires Distinct(xs) && i < |xs|
    ensures RemoveFirst(xs, xs[i]) == Some(xs[..i] + xs[i + 1..])
  {
    var p, x, q := xs[..i], xs[i], xs[i + 1..];
    assert xs == p + [x] + q;
    OnlyAt(xs, i);
    WithoutSplice(p, x, q);
    RemoveFirstDistinct(xs, x);
  }

  /** In a list without duplicates, the element at `i` occurs neither before nor after `i`. */
  lemma OnlyAt<T>(xs: seq<T>, i: nat)
    requires Distinct(xs) && i < |xs|
    ensures xs[i] !in xs[..i] && xs[i] !in xs[i + 1..]
  {
    var p, q := xs[..i], xs[i + 1..];
    forall k | 0 <= k < |p|
      ensures p[k] != xs[i]
    {
      assert p[k] == xs[k];
    }
    forall k | 0 <= k < |q|
      ensures q[k] != xs[i]
    {
      assert q[k] == xs[i + 1 + k];
    }
  }

  /** Filtering `x` out of `p + [x] + q`, where neither side has an `x`, leaves `p + q`. */
  lemma WithoutSplice<T>(p: seq<T>, x: T, q: seq<T>)
    requires x !in p && x !in q
    ensures Without(p + [x] + q, {x}) == p + q
  {
    WithoutAppend(p, [x] + q, {x});
    assert p + [x] + q == p + ([x] + q);
    WithoutAbsent(p, {x});
    assert ([x] + q)[1..] == q;
    WithoutAbsent(q, {x});
  }

  lemma {:induction false} WithoutAbsent<T>(xs: seq<T>, gone: set<T>)
    requires forall x :: x in xs ==> x !in gone
    ensures Without(xs, gone) == xs
  {
    if |xs| > 0 {
      WithoutAbsent(xs[1..], gone);
      assert xs == [xs[0]] + xs[1..];
    }
  }

  lemma {:induction false} WithoutDistinct<T>(xs: seq<T>, gone: set<T>)
    requires Distinct(xs)
    ensures Distinct(Without(xs, gone))
  {
    if |xs| > 0 {
      WithoutDistinct(xs[1..], gone);
    }
  }

  /** Removing `x` and then the set `rest` is removing both. */
  lemma {:induction false} WithoutStep<T>(xs: seq<T>, x: T, rest: set<T>)
    ensures Without(Without(xs, {x}), rest) == Without(xs, {x} + rest)
  {
    if |xs| > 0 {
      WithoutStep(xs[1..], x, rest);
    }
  }

  /** Filtering by a set and then by another is filtering by their union. */
  lemma {:induction false} WithoutTwice<T>(xs: seq<T>, a: set<T>, b: set<T>)
    ensures Without(Without(xs, a), b) == Without(xs, a + b)
  {
    if |xs| > 0 {
      WithoutTwice(xs[1..], a, b);
    }
  }
  /** A rearrangement of a list without duplicates has no duplicates either. */
  lemma PermutationDistinct<T>(xs: seq<T>, ys: seq<T>)
    requires Distinct(xs) && multiset(xs) == multiset(ys)
    ensures Distinct(ys)
  {
    DistinctCounts(xs);
    forall i, j | 0 <= i < j < |ys|
      ensures ys[i] != ys[j]
    {
      if ys[i] == ys[j] {
        TwoOccurrences(ys, i, j);
      }
    }
  }

  lemma {:induction false} DistinctCounts<T>(xs: seq<T>)
    requires Distinct(xs)
    ensures forall x :: multiset(xs)[x] <= 1
  {
    if |xs| > 0 {
      DistinctCounts(xs[1..]);
      assert xs == [xs[0]] + xs[1..];
      assert xs[0] !in xs[1..];
    }
  }

  lemma TwoOccurrences<T>(ys: seq<T>, i: nat, j: nat)
    requires i < j < |ys| && ys[i] == ys[j]
    ensures multiset(ys)[ys[i]] >= 2
  {
    assert ys == ys[..j] + [ys[j]] + ys[j + 1..];
    assert ys[..j][i] == ys[i];
    assert ys[i] in multiset(ys[..j]);
  }
  /** The elements of a list, as a set. */
  function ToSet<T>(xs: seq<T>): set<T> {
    set x | x in xs
  }

  /** A prefix one longer holds one more element, new when the elements are distinct. */
  lemma ToSetPrefixStep<T>(xs: seq<T>, k: nat)
    requires k < |xs|
    ensures ToSet(xs[..k + 1]) == ToSet(xs[..k]) + {xs[k]}
    ensures Distinct(xs) ==> xs[k] !in ToSet(xs[..k])
  {
    assert xs[..k + 1] == xs[..k] + [xs[k]];
  }

  /** `reversed(xs)`: the last element first. */
  function Reverse<T>(xs: seq<T>): (r: seq<T>)
    ensures |r| == |xs|
  {
    if |xs| == 0 then [] else Reverse(xs[1..]) + [xs[0]]
  }

  /** Position `k` of the reversed list holds position `|xs| - 1 - k` of the list. */
  lemma {:induction false} ReverseIndex<T>(xs: seq<T>)
    ensures forall k :: 0 <= k < |xs| ==> Reverse(xs)[k] == xs[|xs| - 1 - k]
  {
    if |xs| > 0 {
      ReverseIndex(xs[1..]);
    }
  }

  /** Reversing keeps the elements and their distinctness. */
  lemma ReverseElements<T>(xs: seq<T>)
    ensures forall x :: x in Reverse(xs) <==> x in xs
    ensures Distinct(xs) ==> Distinct(Reverse(xs))
  {
    ReverseIndex(xs);
    forall x | x in xs
      ensures x in Reverse(xs)
    {
      var k :| 0 <= k < |xs| && xs[k] == x;
      assert Reverse(xs)[|xs| - 1 - k] == x;
    }
  }
  /** A survivor of filtering is an element of the list outside the filter set. */
  lemma WithoutMember<T>(xs: seq<T>, gone: set<T>, x: T)
    requires x in Without(xs, gone)
    ensures x in xs && x !in gone
  {
    var k :| 0 <= k < |Without(xs, gone)| && Without(xs, gone)[k] == x;
  }

  /** Filtering commutes with concatenation. */
  lemma {:induction false} WithoutAppend<T>(xs: seq<T>, ys: seq<T>, gone: set<T>)
    ensures Without(xs + ys, gone) == Without(xs, gone) + Without(ys, gone)
  {
    if |xs| > 0 {
      assert (xs + ys)[1..] == xs[1..] + ys;
      WithoutAppend(xs[1..], ys, gone);
    } else {
      assert xs + ys == ys;
    }
  }

  /** Filtering commutes with reversal. */
  lemma {:induction false} ReverseWithout<T>(xs: seq<T>, gone: set<T>)
    ensures Reverse(Without(xs, gone)) == Without(Reverse(xs), gone)
  {
    if |xs| > 0 {
      ReverseWithout(xs[1..], gone);
      WithoutAppend(Reverse(xs[1..]), [xs[0]], gone);
      if xs[0] !in gone {
        var w := [xs[0]] + Without(xs[1..], gone);
        assert w[1..] == Without(xs[1..], gone);
      }
    }
  }

  /** The list after `for d in ds: xs.remove(d)` has run up to the first removal that raises, if any. */
  function RemovedBeforeFailure<T(==)>(xs: seq<T>, ds: seq<T>): seq<T>
    decreases |ds|
  {
    if |ds| == 0 then xs
    else match RemoveFirst(xs, ds[0])
      case None => xs
      case Some(ys) => RemovedBeforeFailure(ys, ds[1..])
  }

  /** When no removal raises, the list is left as `RemoveEach` describes. */
  lemma {:induction false} RemovedWhenSucceeds<T>(xs: seq<T>, ds: seq<T>)
    requires RemoveEach(xs, ds).Some?
    ensures RemovedBeforeFailure(xs, ds) == RemoveEach(xs, ds).value
    decreases |ds|
  {
    if |ds| > 0 {
      RemovedWhenSucceeds(RemoveFirst(xs, ds[0]).value, ds[1..]);
    }
  }
}
