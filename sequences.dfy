/**
 * Small sequence vocabulary shared by the queue models: the newest elements of a queue,
 * removal of every occurrence of a value (`std::list::remove`), and distinctness.
 */
module Sequences {

  /** The last `min(n, |q|)` elements of `q`, in their original order. */
  function Newest<T>(q: seq<T>, n: nat): (r: seq<T>)
    ensures |r| <= n && |r| <= |q|
    ensures |q| <= n ==> r == q
  {
    if |q| <= n then q else q[|q| - n..]
  }

  /** Keeping the newest `n` of `q + [x]` is keeping the newest `n - 1` of `q`, then `x`. */
  lemma NewestSnoc<T>(q: seq<T>, x: T, n: nat)
    requires n >= 1
    ensures Newest(q + [x], n) == Newest(q, n - 1) + [x]
  {
    var s := q + [x];
    if |s| > n {
      assert s[|s| - n..] == q[|q| - (n - 1)..] + [x];
    }
  }

  /** Dropping the oldest element of a queue already holding `n` of them keeps the newest `n - 1`. */
  lemma NewestDropOne<T>(q: seq<T>, n: nat)
    requires 1 <= n && |q| == n
    ensures q[1..] == Newest(q, n - 1)
  {
  }

  /** Keeping the newest `m` of the newest `n` is keeping the newest `m`, for `m <= n`. */
  lemma NewestOfNewest<T>(q: seq<T>, n: nat, m: nat)
    requires m <= n
    ensures Newest(Newest(q, n), m) == Newest(q, m)
  {
  }

  /** A slice of a prefix is the same slice of the whole sequence. */
  lemma SliceOfPrefix<T>(q: seq<T>, n: nat, i: nat, j: nat)
    requires i <= j <= n <= |q|
    ensures q[..n][i..j] == q[i..j]
  {
  }

  /** `q` without any occurrence of `x`, order kept (`std::list::remove`). */
  function Without<T(==)>(q: seq<T>, x: T): (r: seq<T>)
    ensures |r| <= |q|
    ensures x !in r
    ensures forall i :: 0 <= i < |r| ==> r[i] in q && r[i] != x
    ensures forall i :: 0 <= i < |q| && q[i] != x ==> q[i] in r
  {
    if q == [] then []
    else if q[0] == x then Without(q[1..], x)
    else [q[0]] + Without(q[1..], x)
  }

  /** No element occurs twice. */
  predicate Distinct<T(==)>(q: seq<T>)
  {
    q == [] || (q[0] !in q[1..] && Distinct(q[1..]))
  }

  /** The same property by positions: no two positions hold the same element. */
  lemma {:induction false} DistinctIndices<T>(q: seq<T>)
    requires Distinct(q)
    ensures forall i, j :: 0 <= i < j < |q| ==> q[i] != q[j]
  {
    if q != [] {
      DistinctIndices(q[1..]);
      forall i, j | 0 <= i < j < |q| ensures q[i] != q[j] {
        if i == 0 {
          assert q[j] == q[1..][j - 1];
        } else {
          assert q[i] == q[1..][i - 1] && q[j] == q[1..][j - 1];
        }
      }
    }
  }

  /** In a duplicate-free sequence the element at `i` occurs at no other index. */
  lemma DistinctAt<T>(q: seq<T>, i: nat)
    requires Distinct(q) && i < |q|
    ensures forall k :: 0 <= k < |q| && k != i ==> q[k] != q[i]
  {
    DistinctIndices(q);
  }

  /** Removing a value that does not occur changes nothing. */
  lemma {:induction false} WithoutAbsent<T>(q: seq<T>, x: T)
    requires x !in q
    ensures Without(q, x) == q
  {
    if q != [] {
      assert q == [q[0]] + q[1..];
      WithoutAbsent(q[1..], x);
    }
  }

  /** Removal keeps a duplicate-free sequence duplicate-free. */
  lemma {:induction false} WithoutDistinct<T>(q: seq<T>, x: T)
    requires Distinct(q)
    ensures Distinct(Without(q, x))
  {
    if q != [] {
      WithoutDistinct(q[1..], x);
      if q[0] != x {
        var w := Without(q[1..], x);
        assert ([q[0]] + w)[1..] == w;
      }
    }
  }
}
