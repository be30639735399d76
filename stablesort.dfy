/** Python's `sorted(positions, key=..., reverse=True)`: a stable sort into
    descending key order, equal keys kept in their original order. The
    program sorts this way twice: the resumes by overall score (app.py) and
    the chunk positions by similarity (utils/embedding_utils.py). Both are
    modelled as sorting positions by their keys. */
module StableSort {

  /** Position `i` goes before position `j`: a larger key, or an equal key
      and an earlier position. */
  predicate Precedes(keys: seq<real>, i: nat, j: nat)
    requires i < |keys| && j < |keys|
  {
    keys[i] > keys[j] || (keys[i] == keys[j] && i < j)
  }

  predicate InRange(keys: seq<real>, order: seq<nat>) {
    forall k :: 0 <= k < |order| ==> order[k] < |keys|
  }

  predicate Sorted(keys: seq<real>, order: seq<nat>)
    requires InRange(keys, order)
  {
    forall k, l :: 0 <= k < l < |order| ==> Precedes(keys, order[k], order[l])
  }

  /** `order` lists every position of `keys` exactly once. */
  predicate IsPermutation(keys: seq<real>, order: seq<nat>) {
    |order| == |keys| && InRange(keys, order) &&
    (forall i :: 0 <= i < |keys| ==> i in order) &&
    (forall k, l :: 0 <= k < l < |order| ==> order[k] != order[l])
  }

  /** How many leading entries of `order` go before `x`. */
  function InsertPos(keys: seq<real>, x: nat, order: seq<nat>): (p: nat)
    requires x < |keys| && InRange(keys, order)
    ensures p <= |order|
    ensures forall k :: 0 <= k < p ==> !Precedes(keys, x, order[k])
    ensures p < |order| ==> Precedes(keys, x, order[p])
  {
    if order == [] || Precedes(keys, x, order[0]) then 0
    else 1 + InsertPos(keys, x, order[1..])
  }

  function Insert(keys: seq<real>, x: nat, order: seq<nat>): (r: seq<nat>)
    requires x < |keys| && InRange(keys, order)
    ensures |r| == |order| + 1
    ensures forall y :: y in r <==> y in order || y == x
  {
    var p := InsertPos(keys, x, order);
    order[..p] + [x] + order[p..]
  }

  lemma InsertSorted(keys: seq<real>, x: nat, order: seq<nat>)
    requires x < |keys| && InRange(keys, order) && Sorted(keys, order) && x !in order
    ensures InRange(keys, Insert(keys, x, order)) && Sorted(keys, Insert(keys, x, order))
  {
    var p := InsertPos(keys, x, order);
    var r := Insert(keys, x, order);
    assert r[p] == x;
    assert forall k :: 0 <= k < p ==> r[k] == order[k];
    assert forall k :: p < k < |r| ==> r[k] == order[k - 1];
    forall k | 0 <= k < p ensures Precedes(keys, order[k], x) {
      assert order[k] != x;
    }
  }

  /** Insertion sort of the positions `0..n`. */
  function SortFirst(keys: seq<real>, n: nat): (order: seq<nat>)
    requires n <= |keys|
    ensures |order| == n && InRange(keys, order)
  {
    if n == 0 then []
    else Insert(keys, n - 1, SortFirst(keys, n - 1))
  }

  /** The sort of the first `n` positions lists exactly those positions, in
      descending key order with ties by position. */
  lemma {:induction false} SortFirstSorted(keys: seq<real>, n: nat)
    requires n <= |keys|
    ensures Sorted(keys, SortFirst(keys, n))
    ensures forall i: nat :: i in SortFirst(keys, n) <==> i < n
    decreases n
  {
    if n > 0 {
      var o := SortFirst(keys, n - 1);
      SortFirstSorted(keys, n - 1);
      assert n - 1 !in o;
      InsertSorted(keys, n - 1, o);
      var r := Insert(keys, n - 1, o);
      assert SortFirst(keys, n) == r;
      forall i: nat ensures i in r <==> i < n {
        assert i in r <==> i in o || i == n - 1;
      }
    }
  }

  /** The positions of `keys`, by descending key, ties by position. */
  function SortDescending(keys: seq<real>): (order: seq<nat>)
    ensures IsPermutation(keys, order) && Sorted(keys, order)
  {
    SortFirstSorted(keys, |keys|);
    SortFirst(keys, |keys|)
  }

  /** The sort has exactly one possible result: any arrangement of the
      positions that is in descending key order with ties by position is
      the one `SortDescending` returns. */
  lemma {:induction false} SortedUnique(keys: seq<real>, o1: seq<nat>, o2: seq<nat>)
    requires InRange(keys, o1) && InRange(keys, o2) && Sorted(keys, o1) && Sorted(keys, o2)
    requires forall x :: x in o1 <==> x in o2
    ensures o1 == o2
    decreases |o1|
  {
    if o1 == [] {
      FirstIsMember(o2);
    } else {
      var a := o1[0];
      assert a in o2;
      var b := o2[0];
      var j :| 0 <= j < |o2| && o2[j] == a;
      assert b in o1;
      var i :| 0 <= i < |o1| && o1[i] == b;
      assert a == b;
      forall x ensures x in o1[1..] <==> x in o2[1..] {
        assert x in o1[1..] <==> x in o1 && x != a;
        assert x in o2[1..] <==> x in o2 && x != a;
      }
      SortedUnique(keys, o1[1..], o2[1..]);
      assert o1 == [a] + o1[1..] && o2 == [a] + o2[1..];
    }
  }

  lemma FirstIsMember<T>(s: seq<T>)
    ensures s != [] ==> s[0] in s
  {
  }

  lemma SortDescendingUnique(keys: seq<real>, order: seq<nat>)
    requires IsPermutation(keys, order) && Sorted(keys, order)
    ensures order == SortDescending(keys)
  {
    SortedUnique(keys, order, SortDescending(keys));
  }

  /** In a sorted permutation, every position outside the first `n` entries
      is preceded by each of them. */
  lemma SortedPrefixPrecedes(keys: seq<real>, order: seq<nat>, n: nat)
    requires IsPermutation(keys, order) && Sorted(keys, order) && n <= |order|
    ensures forall j :: 0 <= j < |keys| && j !in order[..n] ==>
      forall k :: 0 <= k < n ==> Precedes(keys, order[k], j)
  {
    forall j | 0 <= j < |keys| && j !in order[..n]
      ensures forall k :: 0 <= k < n ==> Precedes(keys, order[k], j)
    {
      assert j in order;
      var m :| 0 <= m < |order| && order[m] == j;
      forall k | 0 <= k < n ensures Precedes(keys, order[k], j) {
        assert order[..n][k] == order[k];
      }
    }
  }

  // ------------------------------------------------------------ picking

  /** `[xs[i] for i in order]`: with `order` a permutation, a rearrangement
      of `xs` in which position `k` holds `xs[order[k]]`. */
  function Pick<T>(xs: seq<T>, order: seq<nat>): seq<T>
    requires forall k :: 0 <= k < |order| ==> order[k] < |xs|
  {
    seq(|order|, k requires 0 <= k < |order| => xs[order[k]])
  }
}
