/**
 * Python's `sorted(xs, key=...)` for the fitness-ordered animal lists: a
 * stable insertion sort of (element, key) pairs into non-decreasing key
 * order.
 */
module Sorting {
  import opened Seqs

  /** Keys never decrease along the sequence. */
  predicate SortedByKey<T>(xs: seq<(T, real)>) {
    forall i, j :: 0 <= i < j < |xs| ==> xs[i].1 <= xs[j].1
  }

  /** The elements of the pairs, in order. */
  function Firsts<T>(xs: seq<(T, real)>): (r: seq<T>)
    ensures |r| == |xs|
  {
    seq(|xs|, i requires 0 <= i < |xs| => xs[i].0)
  }

  /** `x` placed after every pair whose key is not larger, which keeps earlier equal keys first. */
  function Insert<T>(x: (T, real), ys: seq<(T, real)>): (zs: seq<(T, real)>)
    ensures |zs| == |ys| + 1
  {
    if |ys| == 0 then [x]
    else if x.1 < ys[0].1 then [x] + ys
    else [ys[0]] + Insert(x, ys[1..])
  }

  /** Inserting adds `x` and nothing else. */
  lemma {:induction false} InsertElements<T>(x: (T, real), ys: seq<(T, real)>)
    ensures forall z :: z in Insert(x, ys) ==> z == x || z in ys
  {
    if |ys| > 0 && x.1 >= ys[0].1 {
      InsertElements(x, ys[1..]);
    }
  }

  lemma {:induction false} InsertMultiset<T>(x: (T, real), ys: seq<(T, real)>)
    ensures multiset(Insert(x, ys)) == multiset(ys) + multiset{x}
  {
    if |ys| > 0 && x.1 >= ys[0].1 {
      InsertMultiset(x, ys[1..]);
      assert ys == [ys[0]] + ys[1..];
    }
  }

  /** The elements of a pair followed by more pairs. */
  lemma FirstsCons<T>(x: (T, real), ys: seq<(T, real)>)
    ensures Firsts([x] + ys) == [x.0] + Firsts(ys)
  {
  }

  /** The elements of some pairs followed by one more pair. */
  lemma FirstsSnoc<T>(ys: seq<(T, real)>, x: (T, real))
    ensures Firsts(ys + [x]) == Firsts(ys) + [x.0]
  {
  }

  lemma {:induction false} InsertFirsts<T>(x: (T, real), ys: seq<(T, real)>)
    ensures multiset(Firsts(Insert(x, ys))) == multiset(Firsts(ys)) + multiset{x.0}
  {
    if |ys| == 0 {
      FirstsCons(x, []);
    } else if x.1 < ys[0].1 {
      FirstsCons(x, ys);
    } else {
      var rest := Insert(x, ys[1..]);
      InsertFirsts(x, ys[1..]);
      assert ys == [ys[0]] + ys[1..];
      FirstsCons(ys[0], ys[1..]);
      FirstsCons(ys[0], rest);
      assert multiset([ys[0].0] + Firsts(rest)) == multiset{ys[0].0} + multiset(Firsts(rest));
      assert multiset([ys[0].0] + Firsts(ys[1..])) == multiset{ys[0].0} + multiset(Firsts(ys[1..]));
    }
  }

  /** Inserting into a key-ordered sequence keeps it key-ordered. */
  lemma {:induction false} InsertSorted<T>(x: (T, real), ys: seq<(T, real)>)
    requires SortedByKey(ys)
    ensures SortedByKey(Insert(x, ys))
  {
    if |ys| > 0 && x.1 >= ys[0].1 {
      var rest := Insert(x, ys[1..]);
      var zs := [ys[0]] + rest;
      InsertSorted(x, ys[1..]);
      InsertElements(x, ys[1..]);
      forall i | 0 <= i < |rest|
        ensures ys[0].1 <= rest[i].1
      {
        assert rest[i] in rest;
      }
      forall i, j | 0 <= i < j < |zs|
        ensures zs[i].1 <= zs[j].1
      {
        if i > 0 {
          assert zs[i] == rest[i - 1] && zs[j] == rest[j - 1];
        } else {
          assert zs[j] == rest[j - 1];
        }
      }
    }
  }

  /** `sorted(xs, key)` on pre-computed keys, by insertion from the left. */
  function SortByKey<T>(xs: seq<(T, real)>): (ys: seq<(T, real)>)
    ensures |ys| == |xs|
  {
    if |xs| == 0 then [] else Insert(xs[|xs| - 1], SortByKey(xs[..|xs| - 1]))
  }

  /** The sorted sequence is a permutation of the input in non-decreasing key order. */
  lemma {:induction false} SortByKeyFacts<T>(xs: seq<(T, real)>)
    ensures SortedByKey(SortByKey(xs))
    ensures multiset(SortByKey(xs)) == multiset(xs)
    ensures multiset(Firsts(SortByKey(xs))) == multiset(Firsts(xs))
  {
    if |xs| > 0 {
      var init := xs[..|xs| - 1];
      var last := xs[|xs| - 1];
      var sortedInit := SortByKey(init);
      SortByKeyFacts(init);
      InsertSorted(last, sortedInit);
      InsertMultiset(last, sortedInit);
      InsertFirsts(last, sortedInit);
      assert xs == init + [last];
      assert multiset(Firsts(xs)) == multiset(Firsts(init)) + multiset{last.0} by {
        FirstsSnoc(init, last);
      }
    }
  }

  /** Every pair of the sorted sequence is a pair of the input. */
  lemma SortedFromInput<T>(xs: seq<(T, real)>, i: nat)
    requires i < |xs|
    ensures SortByKey(xs)[i] in xs
  {
    var ys := SortByKey(xs);
    SortByKeyFacts(xs);
    assert ys[i] in multiset(ys);
  }

  /** An input already in key order is kept as it is. */
  lemma {:induction false} SortKeepsSorted<T>(xs: seq<(T, real)>)
    requires SortedByKey(xs)
    ensures SortByKey(xs) == xs
  {
    if |xs| > 0 {
      var init := xs[..|xs| - 1];
      var last := xs[|xs| - 1];
      assert SortedByKey(init);
      SortKeepsSorted(init);
      InsertAtEnd(last, init);
      assert xs == init + [last];
    }
  }

  /** A pair whose key is not smaller than any other goes last. */
  lemma {:induction false} InsertAtEnd<T>(x: (T, real), ys: seq<(T, real)>)
    requires forall i :: 0 <= i < |ys| ==> ys[i].1 <= x.1
    ensures Insert(x, ys) == ys + [x]
  {
    if |ys| > 0 {
      InsertAtEnd(x, ys[1..]);
      assert ys == [ys[0]] + ys[1..];
    }
  }
  /** The pairs whose element is not in `gone`, in order. */
  function DropKeys<T>(ps: seq<(T, real)>, gone: set<T>): seq<(T, real)> {
    if |ps| == 0 then []
    else if ps[0].0 in gone then DropKeys(ps[1..], gone)
    else [ps[0]] + DropKeys(ps[1..], gone)
  }

  /** Dropping pairs commutes with concatenation. */
  lemma {:induction false} DropKeysAppend<T>(ps: seq<(T, real)>, qs: seq<(T, real)>, gone: set<T>)
    ensures DropKeys(ps + qs, gone) == DropKeys(ps, gone) + DropKeys(qs, gone)
  {
    if |ps| > 0 {
      assert (ps + qs)[1..] == ps[1..] + qs;
      DropKeysAppend(ps[1..], qs, gone);
    } else {
      assert ps + qs == qs;
    }
  }

  /** Every pair left after dropping is a pair of the input. */
  lemma {:induction false} DropKeysElements<T>(ps: seq<(T, real)>, gone: set<T>)
    ensures forall z :: z in DropKeys(ps, gone) ==> z in ps
  {
    if |ps| > 0 {
      DropKeysElements(ps[1..], gone);
    }
  }

  /**
   * In a key-ordered sequence, dropping pairs after inserting `x` is
   * inserting `x`, unless it is dropped itself, after dropping.
   */
  lemma {:induction false} DropInsert<T>(x: (T, real), ys: seq<(T, real)>, gone: set<T>)
    requires SortedByKey(ys)
    ensures DropKeys(Insert(x, ys), gone)
      == if x.0 in gone then DropKeys(ys, gone) else Insert(x, DropKeys(ys, gone))
  {
    if |ys| == 0 {
    } else if x.1 < ys[0].1 {
      var ds := DropKeys(ys, gone);
      if x.0 !in gone && |ds| > 0 {
        DropKeysElements(ys, gone);
        assert ds[0] in ys;
        var j :| 0 <= j < |ys| && ys[j] == ds[0];
        assert ys[0].1 <= ys[j].1;
      }
    } else {
      assert SortedByKey(ys[1..]);
      DropInsert(x, ys[1..], gone);
    }
  }

  /** Stable sorting and dropping pairs commute: the survivors keep their sorted order. */
  lemma {:induction false} SortDropCommute<T>(ps: seq<(T, real)>, gone: set<T>)
    ensures SortByKey(DropKeys(ps, gone)) == DropKeys(SortByKey(ps), gone)
  {
    if |ps| > 0 {
      var init, last := ps[..|ps| - 1], ps[|ps| - 1];
      assert ps == init + [last];
      DropKeysAppend(init, [last], gone);
      SortDropCommute(init, gone);
      SortByKeyFacts(init);
      DropInsert(last, SortByKey(init), gone);
      if last.0 !in gone {
        var d := DropKeys(init, gone) + [last];
        assert d[..|d| - 1] == DropKeys(init, gone);
      } else {
        assert DropKeys(ps, gone) == DropKeys(init, gone);
      }
    }
  }

  /** Dropping pairs by element is filtering the elements. */
  lemma {:induction false} DropKeysFirsts<T>(ps: seq<(T, real)>, gone: set<T>)
    ensures Firsts(DropKeys(ps, gone)) == Without(Firsts(ps), gone)
  {
    if |ps| > 0 {
      DropKeysFirsts(ps[1..], gone);
      assert ps == [ps[0]] + ps[1..];
      FirstsCons(ps[0], ps[1..]);
      if ps[0].0 !in gone {
        FirstsCons(ps[0], DropKeys(ps[1..], gone));
      }
    }
  }

  /** The elements of a sorted sequence are those of the input, and stay distinct. */
  lemma SortedFirsts<T>(ps: seq<(T, real)>)
    ensures forall x :: x in Firsts(SortByKey(ps)) <==> x in Firsts(ps)
    ensures Distinct(Firsts(ps)) ==> Distinct(Firsts(SortByKey(ps)))
  {
    SortByKeyFacts(ps);
    forall x
      ensures x in Firsts(SortByKey(ps)) <==> x in Firsts(ps)
    {
      assert x in Firsts(SortByKey(ps)) <==> x in multiset(Firsts(SortByKey(ps)));
      assert x in Firsts(ps) <==> x in multiset(Firsts(ps));
    }
    if Distinct(Firsts(ps)) {
      PermutationDistinct(Firsts(ps), Firsts(SortByKey(ps)));
    }
  }
}
