/**
 Index permutations as `seq<nat>`, advanced indexing by an index vector
 (`t[idx]`), and the index-returning sort `Tensor.sort(0, descending)`.
 */
module Permutations {

  /** `p` lists each of `0 .. n-1` exactly once. */
  predicate IsPermutation(p: seq<nat>, n: nat)
  {
    && |p| == n
    && (forall i :: 0 <= i < n ==> p[i] < n)
    && (forall i, j :: 0 <= i < j < n ==> p[i] != p[j])
  }

  /** Every index of `idx` addresses an element of a sequence of length `n`. */
  predicate InBounds(idx: seq<nat>, n: nat)
  {
    forall i :: 0 <= i < |idx| ==> idx[i] < n
  }

  /** Advanced indexing `xs[idx]`: row `i` of the result is row `idx[i]` of `xs`. */
  function Gather<X>(xs: seq<X>, idx: seq<nat>): (r: seq<X>)
    requires InBounds(idx, |xs|)
    ensures |r| == |idx|
    ensures forall i :: 0 <= i < |idx| ==> r[i] == xs[idx[i]]
  {
    seq(|idx|, i requires 0 <= i < |idx| => xs[idx[i]])
  }

  /** `a` may precede `b` in a sort with the given direction. */
  predicate InOrder(a: int, b: int, descending: bool)
  {
    if descending then a >= b else a <= b
  }

  /** Reading `keys` through `perm` gives an ordered sequence. */
  predicate SortedBy(keys: seq<int>, perm: seq<nat>, descending: bool)
    requires InBounds(perm, |keys|)
  {
    forall i, j :: 0 <= i < j < |perm| ==> InOrder(keys[perm[i]], keys[perm[j]], descending)
  }

  /**
   The index half of `keys.sort(0, descending)`: a permutation under which the
   keys are ordered. The library does not promise a stable order among equal
   keys, so the contract promises none; this implementation happens to be an
   insertion sort that keeps equal keys in input order.
   */
  method ArgSort(keys: seq<int>, descending: bool) returns (perm: seq<nat>)
    ensures IsPermutation(perm, |keys|)
    ensures SortedBy(keys, perm, descending)
  {
    perm := [];
    var k := 0;
    while k < |keys|
      invariant 0 <= k <= |keys|
      invariant IsPermutation(perm, k)
      invariant SortedBy(keys, perm, descending)
    {
      var key := keys[k];
      var pos := k;
      while pos > 0 && !InOrder(keys[perm[pos - 1]], key, descending)
        invariant 0 <= pos <= k
        invariant forall i :: pos <= i < k ==> !InOrder(keys[perm[i]], key, descending)
      {
        pos := pos - 1;
      }
      InsertKeepsOrder(keys, perm, pos, k, descending);
      perm := Insert(perm, pos, k);
      k := k + 1;
    }
  }

  /** One insertion step of `ArgSort`: index `k` goes in at `pos`, the indices after `pos` move up by one. */
  function Insert(perm: seq<nat>, pos: nat, k: nat): (r: seq<nat>)
    requires pos <= |perm|
    ensures |r| == |perm| + 1
    ensures forall i :: 0 <= i < pos ==> r[i] == perm[i]
    ensures r[pos] == k
    ensures forall i :: pos < i < |r| ==> r[i] == perm[i - 1]
  {
    perm[..pos] + [k] + perm[pos..]
  }

  /**
   Inserting the next index `k` into a sorted permutation of `0 .. k-1`, after
   every key it may follow and before every key it must precede, gives a
   sorted permutation of `0 .. k`.
   */
  lemma InsertKeepsOrder(keys: seq<int>, perm: seq<nat>, pos: nat, k: nat, descending: bool)
    requires k < |keys|
    requires IsPermutation(perm, k)
    requires SortedBy(keys, perm, descending)
    requires pos <= k
    requires pos > 0 ==> InOrder(keys[perm[pos - 1]], keys[k], descending)
    requires forall i :: pos <= i < k ==> !InOrder(keys[perm[i]], keys[k], descending)
    ensures IsPermutation(Insert(perm, pos, k), k + 1)
    ensures SortedBy(keys, Insert(perm, pos, k), descending)
  {
    // The case split is not needed on every solver seed; it keeps the proof
    // of the order cheap and stable across seeds.
    var r := Insert(perm, pos, k);
    forall i, j | 0 <= i < j < |r|
      ensures InOrder(keys[r[i]], keys[r[j]], descending)
    {
      if j < pos {
        assert InOrder(keys[perm[i]], keys[perm[j]], descending);
      } else if j == pos {
        if i < pos - 1 {
          assert InOrder(keys[perm[i]], keys[perm[pos - 1]], descending);
        }
      } else if i == pos {
        assert !InOrder(keys[perm[j - 1]], keys[k], descending);
      } else if i < pos {
        assert InOrder(keys[perm[i]], keys[perm[j - 1]], descending);
      } else {
        assert InOrder(keys[perm[i - 1]], keys[perm[j - 1]], descending);
      }
    }
  }

  /**
   A strictly increasing sequence of `n` values below `n` is `0, 1, .., n-1`.
   */
  lemma {:induction false} StrictlyIncreasingIsIdentity(s: seq<nat>, i: nat)
    requires forall a :: 0 <= a < |s| ==> s[a] < |s|
    requires forall a, b :: 0 <= a < b < |s| ==> s[a] < s[b]
    requires i < |s|
    ensures s[i] == i
  {
    AtLeastIndex(s, i);
    AtMostIndex(s, i);
  }

  lemma {:induction false} AtLeastIndex(s: seq<nat>, i: nat)
    requires forall a, b :: 0 <= a < b < |s| ==> s[a] < s[b]
    requires i < |s|
    ensures s[i] >= i
  {
    if i > 0 {
      AtLeastIndex(s, i - 1);
    }
  }

  lemma {:induction false} AtMostIndex(s: seq<nat>, i: nat)
    requires forall a :: 0 <= a < |s| ==> s[a] < |s|
    requires forall a, b :: 0 <= a < b < |s| ==> s[a] < s[b]
    requires i < |s|
    ensures s[i] <= i
    decreases |s| - i
  {
    if i < |s| - 1 {
      AtMostIndex(s, i + 1);
    }
  }

  /**
   Sorting a permutation `p` ascending yields its inverse `q`: `p[q[i]] == i`
   and `q[p[j]] == j`. This is what `sent_perm.sort(0)` computes.
   */
  lemma InverseBySorting(p: seq<nat>, q: seq<nat>)
    requires IsPermutation(p, |p|)
    requires IsPermutation(q, |p|)
    requires SortedBy(p, q, false)
    ensures forall i :: 0 <= i < |p| ==> p[q[i]] == i
    ensures forall j :: 0 <= j < |p| ==> q[p[j]] == j
  {
    var s := Gather(p, q);
    assert forall a, b :: 0 <= a < b < |s| ==> s[a] < s[b] by {
      forall a, b | 0 <= a < b < |s|
        ensures s[a] < s[b]
      {
        assert p[q[a]] <= p[q[b]];
        assert q[a] != q[b];
      }
    }
    forall i | 0 <= i < |p|
      ensures p[q[i]] == i
    {
      StrictlyIncreasingIsIdentity(s, i);
    }
    forall j | 0 <= j < |p|
      ensures q[p[j]] == j
    {
      assert p[q[p[j]]] == p[j];
    }
  }

  /**
   Reordering rows by `p` and then by its sorted inverse `q` restores the
   original order: `xs[p][q] == xs`.
   */
  lemma RestoreOrder<X>(xs: seq<X>, p: seq<nat>, q: seq<nat>)
    requires IsPermutation(p, |xs|)
    requires IsPermutation(q, |xs|)
    requires SortedBy(p, q, false)
    ensures InBounds(q, |Gather(xs, p)|)
    ensures Gather(Gather(xs, p), q) == xs
  {
    InverseBySorting(p, q);
  }

  /** The positions `0 .. n-1`. */
  function Positions(n: nat): (r: set<nat>)
    ensures |r| == n
    ensures forall k: nat :: k in r <==> k < n
  {
    if n == 0 then {} else
      var r := Positions(n - 1) + {n - 1};
      assert n - 1 !in Positions(n - 1);
      r
  }

  /** The values a sequence of indices takes on its first `n` positions. */
  function Image(p: seq<nat>, n: nat): set<nat>
    requires n <= |p|
  {
    set i | 0 <= i < n :: p[i]
  }

  lemma {:induction false} ImageOfDistinct(p: seq<nat>, n: nat)
    requires n <= |p|
    requires forall i, j :: 0 <= i < j < |p| ==> p[i] != p[j]
    ensures |Image(p, n)| == n
  {
    if n > 0 {
      ImageOfDistinct(p, n - 1);
      assert Image(p, n) == Image(p, n - 1) + {p[n - 1]};
      assert p[n - 1] !in Image(p, n - 1);
    }
  }

  /** A permutation of `0 .. n-1` takes every value below `n`. */
  lemma PermutationCovers(p: seq<nat>, n: nat, k: nat)
    requires IsPermutation(p, n)
    requires k < n
    ensures exists i :: 0 <= i < n && p[i] == k
  {
    ImageOfDistinct(p, n);
    var image, all := Image(p, n), Positions(n);
    assert image <= all;
    assert |all - image| == |all| - |image|;
    assert all - image == {};
    assert k in all;
    assert k in image;
  }
}
