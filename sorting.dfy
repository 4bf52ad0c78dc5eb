/** A stable sort into non-increasing order of a real-valued key: the model of
    Java's `Stream.sorted` with a reversed value comparator, which is stable. */
module Sorting {

  /** Keys never increase from left to right. */
  predicate SortedDesc<T>(xs: seq<T>, key: T -> real)
  {
    forall i, j :: 0 <= i < j < |xs| ==> key(xs[i]) >= key(xs[j])
  }

  /** An element not below the head of a sorted sequence can go in front of it. */
  lemma ConsSorted<T>(x: T, ys: seq<T>, key: T -> real)
    requires SortedDesc(ys, key)
    requires ys == [] || key(x) >= key(ys[0])
    ensures SortedDesc([x] + ys, key)
  {
    forall i, j | 0 <= i < j < |[x] + ys| ensures key(([x] + ys)[i]) >= key(([x] + ys)[j]) {
      assert ([x] + ys)[j] == ys[j - 1];
      if i > 0 {
        assert ([x] + ys)[i] == ys[i - 1];
      } else if j > 1 {
        assert key(ys[0]) >= key(ys[j - 1]);
      }
    }
  }

  /** The tail of a sorted sequence is sorted, and its head is not below any
      of its other elements. */
  lemma TailSorted<T>(ys: seq<T>, key: T -> real)
    requires ys != [] && SortedDesc(ys, key)
    ensures SortedDesc(ys[1..], key)
    ensures forall z :: z in ys[1..] ==> key(ys[0]) >= key(z)
  {
    forall i, j | 0 <= i < j < |ys[1..]| ensures key(ys[1..][i]) >= key(ys[1..][j]) {
      assert ys[1..][i] == ys[i + 1] && ys[1..][j] == ys[j + 1];
    }
    forall z | z in ys[1..] ensures key(ys[0]) >= key(z) {
      var k :| 0 <= k < |ys[1..]| && ys[1..][k] == z;
      assert ys[k + 1] == z;
    }
  }

  /** Put x in front of the first element whose key is not larger than x's key,
      so x stays ahead of every element with an equal key. */
  function Insert<T>(x: T, ys: seq<T>, key: T -> real): (r: seq<T>)
    ensures multiset(r) == multiset(ys) + multiset{x}
    ensures SortedDesc(ys, key) ==> SortedDesc(r, key)
  {
    if ys == [] then [x]
    else if key(x) >= key(ys[0]) then
      assert SortedDesc(ys, key) ==> SortedDesc([x] + ys, key) by {
        if SortedDesc(ys, key) {
          ConsSorted(x, ys, key);
        }
      }
      [x] + ys
    else
      var rest := Insert(x, ys[1..], key);
      assert ys == [ys[0]] + ys[1..];
      assert SortedDesc(ys, key) ==> SortedDesc([ys[0]] + rest, key) by {
        if SortedDesc(ys, key) {
          TailSorted(ys, key);
          if rest != [] {
            assert rest[0] in multiset(rest);
            assert rest[0] == x || rest[0] in ys[1..];
          }
          ConsSorted(ys[0], rest, key);
        }
      }
      [ys[0]] + rest
  }

  /** Insertion sort: the tail is sorted first and the head inserted ahead of its ties. */
  function SortDesc<T>(xs: seq<T>, key: T -> real): (r: seq<T>)
    ensures multiset(r) == multiset(xs)
    ensures SortedDesc(r, key)
  {
    if xs == [] then []
    else
      assert xs == [xs[0]] + xs[1..];
      Insert(xs[0], SortDesc(xs[1..], key), key)
  }

  /** Sorting keeps the length and exactly the same elements. */
  lemma SortDescElements<T>(xs: seq<T>, key: T -> real)
    ensures |SortDesc(xs, key)| == |xs|
    ensures forall x :: x in SortDesc(xs, key) <==> x in xs
  {
    var r := SortDesc(xs, key);
    assert |multiset(r)| == |multiset(xs)|;
    forall x ensures x in r <==> x in xs {
      assert x in r <==> x in multiset(r);
      assert x in xs <==> x in multiset(xs);
    }
  }

  /** a goes before b: a larger key, or an equal key and a smaller rank. */
  predicate Precedes<T>(a: T, b: T, key: T -> real, rank: T -> int)
  {
    key(a) > key(b) || (key(a) == key(b) && rank(a) < rank(b))
  }

  /** Ordered by key, largest first, and among equal keys by increasing rank:
      what a stable sort produces from a list ordered by rank. */
  predicate StableSorted<T>(xs: seq<T>, key: T -> real, rank: T -> int)
  {
    forall i, j :: 0 <= i < j < |xs| ==> Precedes(xs[i], xs[j], key, rank)
  }

  /** Strictly increasing rank: the order elements had before sorting. */
  predicate RankIncreasing<T>(xs: seq<T>, rank: T -> int)
  {
    forall i, j :: 0 <= i < j < |xs| ==> rank(xs[i]) < rank(xs[j])
  }

  /** An element that precedes the head of a stably sorted sequence can go in front of it. */
  lemma ConsStable<T>(x: T, ys: seq<T>, key: T -> real, rank: T -> int)
    requires StableSorted(ys, key, rank)
    requires ys == [] || Precedes(x, ys[0], key, rank)
    ensures StableSorted([x] + ys, key, rank)
  {
    var r := [x] + ys;
    forall i, j | 0 <= i < j < |r| ensures Precedes(r[i], r[j], key, rank) {
      assert r[j] == ys[j - 1];
      if i > 0 {
        assert r[i] == ys[i - 1];
      } else if j > 1 {
        assert Precedes(ys[0], ys[j - 1], key, rank);
      }
    }
  }

  /** The tail of a stably sorted sequence is stably sorted, and its head
      precedes every other element. */
  lemma TailStable<T>(ys: seq<T>, key: T -> real, rank: T -> int)
    requires ys != [] && StableSorted(ys, key, rank)
    ensures StableSorted(ys[1..], key, rank)
    ensures forall z :: z in ys[1..] ==> Precedes(ys[0], z, key, rank)
  {
    var tail := ys[1..];
    forall i, j | 0 <= i < j < |tail| ensures Precedes(tail[i], tail[j], key, rank) {
      assert tail[i] == ys[i + 1] && tail[j] == ys[j + 1];
    }
    forall z | z in tail ensures Precedes(ys[0], z, key, rank) {
      var k :| 0 <= k < |tail| && tail[k] == z;
      assert ys[k + 1] == z;
    }
  }

  /** Inserting an element ranked before all others keeps the order stable. */
  lemma {:induction false} InsertStable<T>(x: T, ys: seq<T>, key: T -> real, rank: T -> int)
    requires StableSorted(ys, key, rank)
    requires forall y :: y in ys ==> rank(x) < rank(y)
    ensures StableSorted(Insert(x, ys, key), key, rank)
  {
    if ys == [] {
    } else if key(x) >= key(ys[0]) {
      ConsStable(x, ys, key, rank);
    } else {
      var tail := ys[1..];
      TailStable(ys, key, rank);
      assert forall y :: y in tail ==> y in ys;
      InsertStable(x, tail, key, rank);
      var rest := Insert(x, tail, key);
      if rest != [] {
        assert rest[0] in multiset(rest);
        assert rest[0] == x || rest[0] in tail;
      }
      ConsStable(ys[0], rest, key, rank);
    }
  }

  /** The tail of a rank-increasing sequence is rank-increasing, and its head
      is ranked before every other element. */
  lemma TailRankIncreasing<T>(xs: seq<T>, rank: T -> int)
    requires xs != [] && RankIncreasing(xs, rank)
    ensures RankIncreasing(xs[1..], rank)
    ensures forall y :: y in xs[1..] ==> rank(xs[0]) < rank(y)
  {
    var tail := xs[1..];
    forall i, j | 0 <= i < j < |tail| ensures rank(tail[i]) < rank(tail[j]) {
      assert tail[i] == xs[i + 1] && tail[j] == xs[j + 1];
    }
    forall y | y in tail ensures rank(xs[0]) < rank(y) {
      var k :| 0 <= k < |tail| && tail[k] == y;
      assert xs[k + 1] == y;
    }
  }

  /** Insertion sort is stable: sorting a list ordered by rank orders equal
      keys by rank. */
  lemma {:induction false} SortDescStable<T>(xs: seq<T>, key: T -> real, rank: T -> int)
    requires RankIncreasing(xs, rank)
    ensures StableSorted(SortDesc(xs, key), key, rank)
  {
    if xs != [] {
      var tail := xs[1..];
      TailRankIncreasing(xs, rank);
      SortDescStable(tail, key, rank);
      var sorted := SortDesc(tail, key);
      forall y | y in sorted ensures rank(xs[0]) < rank(y) {
        assert y in multiset(sorted);
        assert y in multiset(tail);
      }
      InsertStable(xs[0], SortDesc(tail, key), key, rank);
    }
  }
}
