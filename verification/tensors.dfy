/**
 Nested-sequence tensors over a generic element type, and the flattening
 (`view`) that every component uses: concatenation of one level of nesting.
 */
module Tensors {

  /** A rank-3 tensor laid out as (batch, time, features). */
  type Batch<T> = seq<seq<seq<T>>>

  /** Size of axis 1 (`size(1)`), read from the first row. */
  function Time<R>(x: seq<seq<R>>): nat
  {
    if |x| == 0 then 0 else |x[0]|
  }

  /** Size of axis 2 (`size(2)`), read from the first frame. */
  function Width<T>(x: Batch<T>): nat
  {
    if |x| == 0 || |x[0]| == 0 then 0 else |x[0][0]|
  }

  /** Every row has the same number of entries along axis 1. */
  predicate Rectangular<R>(x: seq<seq<R>>)
  {
    Uniform(x, Time(x))
  }

  /** Every piece of `xs` holds exactly `w` entries. */
  predicate Uniform<R>(xs: seq<seq<R>>, w: nat)
  {
    forall i :: 0 <= i < |xs| ==> |xs[i]| == w
  }

  /** The shape invariant of a rank-3 tensor: rectangular on both inner axes. */
  predicate IsTensor3<T>(x: Batch<T>)
  {
    && Rectangular(x)
    && forall b :: 0 <= b < |x| ==> Uniform(x[b], Width(x))
  }

  /** Flattens one level of nesting, in order (row-major `view`). */
  function Concat<T>(xs: seq<seq<T>>): seq<T>
  {
    if |xs| == 0 then [] else xs[0] + Concat(xs[1..])
  }

  /** A frame of `size` copies of the distinguished zero element. */
  function ZeroFrame<T>(size: nat, zero: T): (r: seq<T>)
    ensures |r| == size
    ensures forall k :: 0 <= k < size ==> r[k] == zero
  {
    seq(size, _ => zero)
  }

  /** Sum of the lengths of the pieces. */
  function TotalLength<T>(xs: seq<seq<T>>): nat
  {
    if |xs| == 0 then 0 else |xs[0]| + TotalLength(xs[1..])
  }

  lemma {:induction false} ConcatLength<T>(xs: seq<seq<T>>)
    ensures |Concat(xs)| == TotalLength(xs)
  {
    if |xs| > 0 {
      ConcatLength(xs[1..]);
    }
  }

  lemma {:induction false} ConcatAppend<T>(xs: seq<seq<T>>, ys: seq<seq<T>>)
    ensures Concat(xs + ys) == Concat(xs) + Concat(ys)
  {
    if |xs| == 0 {
      assert xs + ys == ys;
    } else {
      assert (xs + ys)[1..] == xs[1..] + ys;
      ConcatAppend(xs[1..], ys);
    }
  }

  lemma {:induction false} TotalLengthUniform<T>(xs: seq<seq<T>>, w: nat)
    requires Uniform(xs, w)
    ensures TotalLength(xs) == |xs| * w
  {
    if |xs| > 0 {
      TotalLengthUniform(xs[1..], w);
    }
  }

  /** Piece `k` sits in the flattening right after the pieces before it. */
  lemma ConcatPiece<T>(xs: seq<seq<T>>, k: nat)
    requires k < |xs|
    ensures Concat(xs) == Concat(xs[..k]) + xs[k] + Concat(xs[k + 1..])
  {
    assert xs == xs[..k] + xs[k..];
    ConcatAppend(xs[..k], xs[k..]);
    assert xs[k..][1..] == xs[k + 1..];
  }

  /** With `w` features per piece, piece `k` is the slice `[k*w, (k+1)*w)` of the flattening. */
  lemma UniformPiece<T>(xs: seq<seq<T>>, w: nat, k: nat)
    requires Uniform(xs, w)
    requires k < |xs|
    ensures |Concat(xs)| == |xs| * w
    ensures (k + 1) * w <= |xs| * w
    ensures Concat(xs)[k * w .. (k + 1) * w] == xs[k]
  {
    ConcatLength(xs);
    TotalLengthUniform(xs, w);
    ConcatPiece(xs, k);
    assert Uniform(xs[..k], w);
    ConcatLength(xs[..k]);
    TotalLengthUniform(xs[..k], w);
    assert (k + 1) * w == k * w + w;
    assert (k + 1) * w <= |xs| * w by {
      MulMonotone(k + 1, |xs|, w);
    }
  }

  lemma MulMonotone(a: nat, b: nat, w: nat)
    requires a <= b
    ensures a * w <= b * w
  {
  }

  /** Element `c` of piece `k` sits at offset `k*w + c` of the flattening. */
  lemma UniformElement<T>(xs: seq<seq<T>>, w: nat, k: nat, c: nat)
    requires Uniform(xs, w)
    requires k < |xs| && c < w
    ensures |Concat(xs)| == |xs| * w
    ensures k * w + c < |Concat(xs)|
    ensures Concat(xs)[k * w + c] == xs[k][c]
  {
    UniformPiece(xs, w, k);
    assert Concat(xs)[k * w .. (k + 1) * w][c] == Concat(xs)[k * w + c];
  }

  /** A singleton flattens to its only piece. */
  lemma ConcatSingleton<T>(v: seq<T>)
    ensures Concat([v]) == v
  {
    assert [v][1..] == [];
  }
}
