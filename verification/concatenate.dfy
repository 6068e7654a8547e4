/**
 `Concatenate`: sub-module `k` applied to input `k`, the results joined along
 the feature axis in module order.
 */
module Concatenate {
  import opened Tensors
  import opened Results

  /** Results that `torch.cat(..., dim=-1)` accepts: at least one, all with the same batch and time sizes. */
  predicate Joinable<T>(parts: seq<Batch<T>>)
  {
    && |parts| > 0
    && forall k :: 0 <= k < |parts| ==>
         && IsTensor3(parts[k])
         && |parts[k]| == |parts[0]|
         && Time(parts[k]) == Time(parts[0])
  }

  /** The features of every part at position `(b, t)`, in part order. */
  function FrameParts<T>(parts: seq<Batch<T>>, b: nat, t: nat): (r: seq<seq<T>>)
    requires Joinable(parts)
    requires b < |parts[0]| && t < Time(parts[0])
    ensures |r| == |parts|
    ensures forall k :: 0 <= k < |parts| ==> r[k] == parts[k][b][t] && |r[k]| == Width(parts[k])
  {
    seq(|parts|, k requires 0 <= k < |parts| => parts[k][b][t])
  }

  /** `torch.cat(parts, dim=-1)` on rank-3 tensors. */
  function CatLast<T>(parts: seq<Batch<T>>): (r: Result<Batch<T>>)
    ensures r.Success? <==> Joinable(parts)
    ensures r.Failure? ==> r.error == (if |parts| == 0 then EmptyList else SizeMismatch)
  {
    if |parts| == 0 then Failure(EmptyList)
    else if !Joinable(parts) then Failure(SizeMismatch)
    else
      Success(seq(|parts[0]|, b requires 0 <= b < |parts[0]| =>
        seq(Time(parts[0]), t requires 0 <= t < Time(parts[0]) => Concat(FrameParts(parts, b, t)))))
  }

  /** `[m(i) for m, i in zip(modules, inputs)]`. */
  function Apply<X, T>(modules: seq<X -> Batch<T>>, inputs: seq<X>): (r: seq<Batch<T>>)
    requires |modules| == |inputs|
    ensures |r| == |modules|
    ensures forall k :: 0 <= k < |r| ==> r[k] == modules[k](inputs[k])
  {
    seq(|modules|, k requires 0 <= k < |modules| => modules[k](inputs[k]))
  }

  /**
   `forward`: fails its `assert` unless there is one input per module, and
   otherwise succeeds exactly when the module results can be joined.
   */
  function Forward<X, T>(modules: seq<X -> Batch<T>>, inputs: seq<X>): (r: Result<Batch<T>>)
    ensures |inputs| != |modules| ==> r == Failure(AssertionError)
    ensures |inputs| == |modules| ==> (r.Success? <==> Joinable(Apply(modules, inputs)))
  {
    if |inputs| != |modules| then Failure(AssertionError)
    else CatLast(Apply(modules, inputs))
  }

  /** Sum of the feature widths of the parts. */
  function SumWidths<T>(parts: seq<Batch<T>>): nat
  {
    if |parts| == 0 then 0 else Width(parts[0]) + SumWidths(parts[1..])
  }

  /** Where part `k` starts along the joined feature axis. */
  function Offset<T>(parts: seq<Batch<T>>, k: nat): nat
    requires k <= |parts|
  {
    SumWidths(parts[..k])
  }

  lemma {:induction false} PiecesLength<T>(pieces: seq<seq<T>>, parts: seq<Batch<T>>)
    requires |pieces| == |parts|
    requires forall k :: 0 <= k < |parts| ==> |pieces[k]| == Width(parts[k])
    ensures TotalLength(pieces) == SumWidths(parts)
  {
    if |parts| > 0 {
      PiecesLength(pieces[1..], parts[1..]);
    }
  }

  /**
   Layout of a successful join: batch and time sizes are kept, every joined
   frame is as wide as all parts together, and part `k` occupies features
   `[Offset(k), Offset(k) + Width(part k))` of it, unchanged.
   */
  lemma CatLastLayout<T>(parts: seq<Batch<T>>, b: nat, t: nat, k: nat)
    requires Joinable(parts)
    requires b < |parts[0]| && t < Time(parts[0]) && k < |parts|
    ensures |CatLast(parts).value| == |parts[0]|
    ensures |CatLast(parts).value[b]| == Time(parts[0])
    ensures |CatLast(parts).value[b][t]| == SumWidths(parts)
    ensures Offset(parts, k) + Width(parts[k]) <= SumWidths(parts)
    ensures CatLast(parts).value[b][t][Offset(parts, k) .. Offset(parts, k) + Width(parts[k])]
         == parts[k][b][t]
  {
    var pieces := FrameParts(parts, b, t);
    ConcatLength(pieces);
    PiecesLength(pieces, parts);
    ConcatPiece(pieces, k);
    ConcatLength(pieces[..k]);
    PiecesLength(pieces[..k], parts[..k]);
  }

  /** A successful join is a rank-3 tensor whose frames are all `SumWidths(parts)` wide. */
  lemma CatLastIsTensor<T>(parts: seq<Batch<T>>)
    requires Joinable(parts)
    ensures IsTensor3(CatLast(parts).value)
    ensures |CatLast(parts).value| == |parts[0]|
    ensures forall b :: 0 <= b < |parts[0]| ==>
      Uniform(CatLast(parts).value[b], SumWidths(parts))
  {
    var r := CatLast(parts).value;
    forall b, t | 0 <= b < |parts[0]| && 0 <= t < Time(parts[0])
      ensures |r[b][t]| == SumWidths(parts)
    {
      CatLastLayout(parts, b, t, 0);
    }
  }

  /**
   `forward` in terms of the modules: on success the output keeps the batch
   and time sizes, its feature width is the sum of the sub-module output
   widths, and sub-module `k`'s output sits unchanged at offset `Offset(k)`.
   */
  lemma ForwardLayout<X, T>(modules: seq<X -> Batch<T>>, inputs: seq<X>, b: nat, t: nat, k: nat)
    requires |inputs| == |modules|
    requires Forward(modules, inputs).Success?
    requires k < |modules|
    requires b < |modules[0](inputs[0])| && t < Time(modules[0](inputs[0]))
    ensures |Forward(modules, inputs).value| == |modules[k](inputs[k])|
    ensures |Forward(modules, inputs).value[b]| == Time(modules[k](inputs[k]))
    ensures |Forward(modules, inputs).value[b][t]| == SumWidths(Apply(modules, inputs))
    ensures Offset(Apply(modules, inputs), k) + Width(modules[k](inputs[k]))
         <= SumWidths(Apply(modules, inputs))
    ensures Forward(modules, inputs).value[b][t][Offset(Apply(modules, inputs), k) ..
              Offset(Apply(modules, inputs), k) + Width(modules[k](inputs[k]))]
         == modules[k](inputs[k])[b][t]
  {
    CatLastLayout(Apply(modules, inputs), b, t, k);
  }
}
