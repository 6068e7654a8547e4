/**
 `TimeDistributed`: a module written for single steps, applied to every
 (batch, time) position by merging the two leading axes, running the module,
 and splitting the leading axis back into (batch, time).
 */
module TimeDistributed {
  import opened Tensors
  import opened Results

  /**
   `view(b, t, *rest)` on a leading axis of `b*t` entries: `b` rows of `t`
   entries each, which merge back to exactly the entries split.
   */
  function Split<S>(y: seq<S>, b: nat, t: nat): (r: seq<seq<S>>)
    requires |y| == b * t
    ensures |r| == b
    ensures Uniform(r, t)
    ensures Concat(r) == y
    decreases b
  {
    if b == 0 then []
    else
      assert |y[t..]| == (b - 1) * t;
      var rest := Split(y[t..], b - 1, t);
      var r := [y[..t]] + rest;
      assert r[1..] == rest;
      assert y == y[..t] + y[t..];
      r
  }

  /**
   `forward`: merge (b, t) into one axis, apply `inner`, check that it kept the
   `b*t` leading entries (the size `assert` of `forward`), and split back. Merging
   the result again gives exactly what `inner` returned.
   */
  function Forward<R, S>(x: seq<seq<R>>, inner: seq<R> -> seq<S>): (r: Result<seq<seq<S>>>)
    requires Rectangular(x)
    ensures r.Success? <==> |inner(Concat(x))| == |x| * Time(x)
    ensures r.Failure? ==> r.error == AssertionError
    ensures r.Success? ==>
      && |r.value| == |x|
      && Uniform(r.value, Time(x))
      && Concat(r.value) == inner(Concat(x))
  {
    var b := |x|;
    var t := Time(x);
    var outputs := inner(Concat(x));
    if |outputs| != b * t then Failure(AssertionError)
    else Success(Split(outputs, b, t))
  }

  /** Output position `(i, j)` is entry `i*t + j` of what `inner` returned on the merged input. */
  lemma ForwardEntry<R, S>(x: seq<seq<R>>, inner: seq<R> -> seq<S>, i: nat, j: nat)
    requires Rectangular(x)
    requires Forward(x, inner).Success?
    requires i < |x| && j < Time(x)
    ensures i * Time(x) + j < |inner(Concat(x))|
    ensures Forward(x, inner).value[i][j] == inner(Concat(x))[i * Time(x) + j]
  {
    UniformElement(Forward(x, inner).value, Time(x), i, j);
  }

  /** Merging the leading axes of a rectangular tensor puts `(i, j)` at `i*t + j`. */
  lemma MergedEntry<R>(x: seq<seq<R>>, i: nat, j: nat)
    requires Rectangular(x)
    requires i < |x| && j < Time(x)
    ensures |Concat(x)| == |x| * Time(x)
    ensures i * Time(x) + j < |Concat(x)|
    ensures Concat(x)[i * Time(x) + j] == x[i][j]
  {
    UniformElement(x, Time(x), i, j);
  }

  /** Splitting undoes merging: `view(b, t, ...)` after `view(-1, ...)` is the original tensor. */
  lemma SplitConcat<R>(x: seq<seq<R>>)
    requires Rectangular(x)
    ensures |Concat(x)| == |x| * Time(x)
    ensures Split(Concat(x), |x|, Time(x)) == x
  {
    ConcatLength(x);
    TotalLengthUniform(x, Time(x));
    var r := Split(Concat(x), |x|, Time(x));
    forall i | 0 <= i < |x|
      ensures r[i] == x[i]
    {
      forall j | 0 <= j < Time(x)
        ensures r[i][j] == x[i][j]
      {
        MergedEntry(x, i, j);
      }
    }
  }

  /** Wrapping a module that returns its input reproduces the original tensor. */
  lemma IdentityModule<R>(x: seq<seq<R>>)
    requires Rectangular(x)
    ensures Forward(x, ys => ys) == Success(x)
  {
    SplitConcat(x);
  }

  /** A per-step module: `g` applied to every entry of the merged axis. */
  function Pointwise<R, S>(g: R -> S): seq<R> -> seq<S>
  {
    ys => seq(|ys|, k requires 0 <= k < |ys| => g(ys[k]))
  }

  /**
   Wrapping a per-step module applies it at every position: output `(i, j)` is
   `g` of input `(i, j)`, and the call never fails.
   */
  lemma PointwiseModule<R, S>(x: seq<seq<R>>, g: R -> S)
    requires Rectangular(x)
    ensures Forward(x, Pointwise(g)).Success?
    ensures |Forward(x, Pointwise(g)).value| == |x|
    ensures forall i :: 0 <= i < |x| ==> |Forward(x, Pointwise(g)).value[i]| == |x[i]|
    ensures forall i, j :: 0 <= i < |x| && 0 <= j < |x[i]| ==>
      Forward(x, Pointwise(g)).value[i][j] == g(x[i][j])
  {
    ConcatLength(x);
    TotalLengthUniform(x, Time(x));
    var r := Forward(x, Pointwise(g));
    forall i, j | 0 <= i < |x| && 0 <= j < |x[i]|
      ensures r.value[i][j] == g(x[i][j])
    {
      MergedEntry(x, i, j);
      ForwardEntry(x, Pointwise(g), i, j);
    }
  }
}
