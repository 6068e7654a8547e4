/**
 `ContextWindow`: for every time step, the features of the `window` steps
 before it, the step itself and the `window` steps after it, flattened into
 one vector; steps beyond either end of the sequence read as zero frames.
 */
module ContextWindow {
  import opened Tensors
  import opened Results

  /** `_get_padding_for`: per batch row, `window` zero frames of the input's feature width. */
  function PaddingFor<T>(x: Batch<T>, window: nat, zero: T): (r: Batch<T>)
    ensures |r| == |x|
    ensures forall b :: 0 <= b < |r| ==> |r[b]| == window && Uniform(r[b], Width(x))
    ensures forall b, k, e :: 0 <= b < |r| && 0 <= k < window && 0 <= e < |r[b][k]| ==> r[b][k][e] == zero
  {
    seq(|x|, _ => seq(window, _ => ZeroFrame(Width(x), zero)))
  }

  /** `_pad`: the padding joined before (`padFirst`) or after each row along the time axis. */
  function Pad<T>(x: Batch<T>, window: nat, zero: T, padFirst: bool): (r: Batch<T>)
    requires IsTensor3(x)
    ensures IsTensor3(r)
    ensures |r| == |x| && Width(r) == Width(x)
    ensures forall b :: 0 <= b < |r| ==> |r[b]| == Time(x) + window
    ensures forall b, k :: 0 <= b < |r| && 0 <= k < Time(x) + window ==>
      r[b][k] == if padFirst then (if k < window then ZeroFrame(Width(x), zero) else x[b][k - window])
                 else (if k < Time(x) then x[b][k] else ZeroFrame(Width(x), zero))
  {
    var padding := PaddingFor(x, window, zero);
    var r := seq(|x|, b requires 0 <= b < |x| => if padFirst then padding[b] + x[b] else x[b] + padding[b]);
    assert forall b :: 0 <= b < |r| ==> Uniform(r[b], Width(x));
    r
  }

  /** Both pads of `forward`: `window` zero frames on each side of every row. */
  function PadBoth<T>(x: Batch<T>, window: nat, zero: T): Batch<T>
    requires IsTensor3(x)
  {
    Pad(Pad(x, window, zero, true), window, zero, false)
  }

  /**
   `forward`: with `window == 0` the input itself; otherwise the flattened
   window `[i, i + 2*window + 1)` of the padded rows, for every step `i`. With
   no steps (an empty batch reads as one) the list handed to `torch.stack` is
   empty. With no features each slice still reshapes, to `(batch_size, 0)`.
   */
  function Forward<T>(x: Batch<T>, window: nat, zero: T): (r: Result<Batch<T>>)
    requires IsTensor3(x)
    ensures window == 0 ==> r == Success(x)
    ensures r.Success? <==> window == 0 || Time(x) > 0
    ensures r.Failure? ==> r.error == EmptyList
    ensures r.Success? ==> |r.value| == |x|
  {
    if window == 0 then Success(x)
    else if Time(x) == 0 then Failure(EmptyList)
    else
      var padded := PadBoth(x, window, zero);
      Success(seq(|x|, b requires 0 <= b < |x| =>
        seq(Time(x), i requires 0 <= i < Time(x) => Concat(padded[b][i .. i + 2 * window + 1]))))
  }

  /** Frame `k` of a row, or the zero frame when `k` lies outside the row. */
  function FrameOrZero<T>(row: seq<seq<T>>, k: int, size: nat, zero: T): (r: seq<T>)
    ensures Uniform(row, size) ==> |r| == size
  {
    if 0 <= k < |row| then row[k] else ZeroFrame(size, zero)
  }

  /** The frames of the window around step `i`, without any padding: offsets `-window .. window`. */
  function Neighbourhood<T>(row: seq<seq<T>>, i: int, window: nat, size: nat, zero: T): (r: seq<seq<T>>)
    ensures |r| == 2 * window + 1
    ensures Uniform(row, size) ==> Uniform(r, size)
  {
    var r := seq(2 * window + 1, j => FrameOrZero(row, i + j - window, size, zero));
    assert forall j :: 0 <= j < |r| ==> r[j] == FrameOrZero(row, i + j - window, size, zero);
    r
  }

  /**
   Layout after both pads: each row has `Time(x) + 2*window` frames; the first
   and last `window` are zero frames of the input's width, the middle ones are
   the input's frames.
   */
  lemma PaddedLayout<T>(x: Batch<T>, window: nat, zero: T, b: nat)
    requires IsTensor3(x)
    requires b < |x|
    ensures |PadBoth(x, window, zero)[b]| == Time(x) + 2 * window
    ensures forall k :: 0 <= k < window ==> PadBoth(x, window, zero)[b][k] == ZeroFrame(Width(x), zero)
    ensures forall k :: window <= k < window + Time(x) ==> PadBoth(x, window, zero)[b][k] == x[b][k - window]
    ensures forall k :: window + Time(x) <= k < Time(x) + 2 * window ==>
      PadBoth(x, window, zero)[b][k] == ZeroFrame(Width(x), zero)
  {
    var once := Pad(x, window, zero, true);
    var padded := PadBoth(x, window, zero);
    assert once[b] == PaddingFor(x, window, zero)[b] + x[b];
    assert padded[b] == once[b] + PaddingFor(once, window, zero)[b];
  }

  /** The padded slice read by step `i` is exactly the unpadded neighbourhood of `i`. */
  lemma SliceIsNeighbourhood<T>(x: Batch<T>, window: nat, zero: T, b: nat, i: nat)
    requires IsTensor3(x)
    requires b < |x| && i < Time(x)
    ensures i + 2 * window + 1 <= |PadBoth(x, window, zero)[b]|
    ensures PadBoth(x, window, zero)[b][i .. i + 2 * window + 1]
         == Neighbourhood(x[b], i, window, Width(x), zero)
  {
    PaddedLayout(x, window, zero, b);
    var padded := PadBoth(x, window, zero)[b];
    var slice := padded[i .. i + 2 * window + 1];
    var hood := Neighbourhood(x[b], i, window, Width(x), zero);
    forall j | 0 <= j < 2 * window + 1
      ensures slice[j] == hood[j]
    {
      var k := i + j - window;
      assert slice[j] == padded[i + j];
      assert hood[j] == FrameOrZero(x[b], k, Width(x), zero);
      if k < 0 {
        assert i + j < window;
      } else if k < Time(x) {
        assert window <= i + j < window + Time(x);
      } else {
        assert window + Time(x) <= i + j < Time(x) + 2 * window;
      }
    }
  }

  /**
   Independent statement of the window: output step `i` of row `b` is the
   concatenation of the frames at offsets `-window .. window` around `i`, zero
   frames standing in for steps outside the sequence. Holds for every window,
   so the `window == 0` short cut agrees with the general path.
   */
  lemma ForwardIsNeighbourhood<T>(x: Batch<T>, window: nat, zero: T, b: nat, i: nat)
    requires IsTensor3(x)
    requires Forward(x, window, zero).Success?
    requires b < |x| && i < Time(x)
    ensures |Forward(x, window, zero).value[b]| == Time(x)
    ensures Forward(x, window, zero).value[b][i] == Concat(Neighbourhood(x[b], i, window, Width(x), zero))
  {
    if window == 0 {
      var hood := Neighbourhood(x[b], i, window, Width(x), zero);
      assert hood[0] == FrameOrZero(x[b], i, Width(x), zero) == x[b][i];
      assert hood == [x[b][i]];
      ConcatSingleton(x[b][i]);
    } else {
      SliceIsNeighbourhood(x, window, zero, b, i);
    }
  }

  /**
   Output shape: the batch size and `Time(x)` steps are kept, and every output
   vector has `(2*window + 1) * Width(x)` features.
   */
  lemma ForwardShape<T>(x: Batch<T>, window: nat, zero: T)
    requires IsTensor3(x)
    requires Forward(x, window, zero).Success?
    ensures |Forward(x, window, zero).value| == |x|
    ensures forall b :: 0 <= b < |x| ==> |Forward(x, window, zero).value[b]| == Time(x)
    ensures forall b, i :: 0 <= b < |x| && 0 <= i < Time(x) ==>
      |Forward(x, window, zero).value[b][i]| == (2 * window + 1) * Width(x)
  {
    forall b, i | 0 <= b < |x| && 0 <= i < Time(x)
      ensures |Forward(x, window, zero).value[b]| == Time(x)
      ensures |Forward(x, window, zero).value[b][i]| == (2 * window + 1) * Width(x)
    {
      ForwardIsNeighbourhood(x, window, zero, b, i);
      var hood := Neighbourhood(x[b], i, window, Width(x), zero);
      UniformPiece(hood, Width(x), 0);
    }
  }

  /**
   Block `j` of output step `i` (features `[j*size, (j+1)*size)`) is input
   frame `i + j - window` when that step exists, and the zero frame otherwise.
   */
  lemma ForwardBlock<T>(x: Batch<T>, window: nat, zero: T, b: nat, i: nat, j: nat)
    requires IsTensor3(x)
    requires Forward(x, window, zero).Success?
    requires b < |x| && i < Time(x) && j <= 2 * window
    ensures |Forward(x, window, zero).value[b]| == Time(x)
    ensures |Forward(x, window, zero).value[b][i]| == (2 * window + 1) * Width(x)
    ensures (j + 1) * Width(x) <= (2 * window + 1) * Width(x)
    ensures Forward(x, window, zero).value[b][i][j * Width(x) .. (j + 1) * Width(x)]
         == if 0 <= i + j - window < Time(x) then x[b][i + j - window] else ZeroFrame(Width(x), zero)
  {
    ForwardIsNeighbourhood(x, window, zero, b, i);
    var hood := Neighbourhood(x[b], i, window, Width(x), zero);
    var out := Forward(x, window, zero).value[b][i];
    assert out == Concat(hood);
    UniformPiece(hood, Width(x), j);
    assert |hood| == 2 * window + 1;
    assert hood[j] == FrameOrZero(x[b], i + j - window, Width(x), zero);
  }
}
