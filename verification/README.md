# Neural-network building blocks: index and shape logic

This project models the index, shape and permutation bookkeeping of the
sequence-labelling building blocks in `models/components.py`:

- **ContextWindow** pads `window` zero frames before and after the time axis.
  For every time step it then flattens the `2*window + 1` frames around that
  step into one feature vector.
- **TimeDistributed** merges the batch and time axes and applies a per-step
  module. It checks that the module kept the merged length, then splits the
  axis back into (batch, time).
- **Concatenate** applies sub-module `k` to input `k` and joins the results
  along the feature axis.
- **BiLSTMEmbedder** derives a mask and per-row lengths from the padding id.
  It sorts the rows by descending length, runs the packed recurrent encoder,
  and restores the original row order with the inverse permutation.

Tensors are nested sequences over a generic element type. `Batch<T>` is
`seq<seq<seq<T>>>`, laid out as (batch, time, features). The distinguished
`zero` element is a parameter. Every numeric operation of the framework is an
opaque function supplied by the caller:

- the module wrapped by TimeDistributed;
- the sub-modules of Concatenate;
- the embedder of BiLSTMEmbedder;
- the pack / LSTM / unpack pipeline, as a row function `rowFn(row, len, padded)`.
  It sees the row, the row's length, and the time size that unpacking pads
  every row to, which is the longest length in the batch.

A torch tensor is always rectangular. The model states this as a precondition
(`IsTensor3`, `Rectangular`) where an operation reads the sizes of its
argument. The rank assertions of lines 15 and 148 hold by the Dafny types.
The `dim() > 2` assertion of line 80 is not modelled (see "Left out").
Failures of the Python `assert`s and of the framework are modelled as
`Results.Result.Failure`:

- a size `assert` (lines 62 and 88) fails with `AssertionError`;
- `torch.cat` or `torch.stack` on an empty list fails with `EmptyList`;
- `torch.cat` on mismatched sizes fails with `SizeMismatch`;
- `embedded[sent_perm]` with a row past the embedded batch fails with
  `IndexOutOfRange`;
- `pack_padded_sequence` on an empty batch, or on a row of length 0, fails
  with `PackError`.

Modules: `Results` (outcomes), `Tensors` (shapes, flattening), `Permutations`
(advanced indexing, argsort, inverse permutations), `ContextWindow`,
`TimeDistributed`, `Concatenate`, `BiLSTMEmbedder`.

## Model

| member | source | states |
|---|---|---|
| ContextWindow.PaddingFor | models/components.py:51-53 | The padding has one row per batch row, each of `window` frames of the input's feature width, and every element is zero. |
| ContextWindow.Pad | models/components.py:41-49 | Padding keeps the batch size, the feature width and the tensor shape, and adds `window` steps to every row. With `padFirst`, the first `window` frames are zero frames and the input frames follow in order; otherwise the input frames come first and the zero frames after them. |
| ContextWindow.Forward | models/components.py:14-36 | With `window == 0` the input is returned unchanged. Otherwise the call succeeds exactly when there is at least one step. With no steps, `torch.stack` gets an empty list and fails with `EmptyList`. A successful call keeps the batch size. |
| ContextWindow.PaddedLayout | models/components.py:41-53 | After the two pads of lines 23-25, each row has `seq_length + 2*window` frames. The first and last `window` are zero frames of the input's feature width; the middle ones are the input frames in order. |
| ContextWindow.ForwardIsNeighbourhood | models/components.py:17-34 | Output step `i` is the flattening of the frames at offsets `-window .. window` around `i`, with zero frames outside the sequence. It is stated without padding, and holds for every window, so the `window == 0` short cut agrees with the general path. |
| ContextWindow.ForwardShape | models/components.py:20-34 | The output keeps the batch size and `seq_length` steps, and every output vector has `(2*window + 1) * size` features. |
| ContextWindow.ForwardBlock | models/components.py:27-34 | Block `j` of output step `i` is input frame `i + j - window` when that step exists, and the zero frame otherwise. |
| TimeDistributed.Split | models/components.py:90 | Splitting a merged axis of `b*t` entries gives `b` rows of `t` entries, and merging them again gives back exactly the entries split. |
| TimeDistributed.Forward | models/components.py:79-92 | The call succeeds exactly when the wrapped module returns `b*t` entries, and fails with the assertion error otherwise. On success it has `b` rows of `t` steps that merge back to the module's output. |
| TimeDistributed.ForwardEntry | models/components.py:82-90 | Output position `(i, j)` is entry `i*t + j` of the module's output on the merged input. |
| TimeDistributed.SplitConcat | models/components.py:84-90 | Splitting undoes merging: the reshape back after the merge is the original tensor. |
| TimeDistributed.IdentityModule | models/components.py:79-92 | Wrapping a module that returns its input reproduces the original tensor exactly. |
| TimeDistributed.PointwiseModule | models/components.py:84-90 | Wrapping a per-step function never fails, and output `(b, t)` is that function applied to input frame `(b, t)`. |
| Concatenate.Forward | models/components.py:61-67 | Unequal numbers of inputs and modules fail the assertion. Otherwise the call succeeds exactly when the module results can be joined. |
| Concatenate.CatLast | models/components.py:65 | Joining succeeds exactly for a non-empty list of tensors with equal batch and time sizes. It fails with `EmptyList` on no tensors and `SizeMismatch` otherwise. |
| Concatenate.CatLastIsTensor | models/components.py:65 | A successful join is a rank-3 tensor whose frames are all as wide as the sum of the part widths. |
| Concatenate.ForwardLayout | models/components.py:64-65 | On success the output keeps the batch and time sizes, and its width is the sum of the sub-module output widths. Sub-module `k`'s output sits unchanged after the outputs of modules `0 .. k-1`. |
| BiLSTMEmbedder.Mask | models/components.py:153-155 | The mask has one row per batch row and one entry per time step. |
| BiLSTMEmbedder.MaskIsReal | models/components.py:153-155 | A time step is real if and only if at least one channel holds an id different from `padding_idx` there. |
| BiLSTMEmbedder.Lengths | models/components.py:157 | There is one length per batch row, and every length lies between 0 and `seq_length`. |
| BiLSTMEmbedder.LengthIsRealSteps | models/components.py:157 | A row's length equals the number of its real time steps, counted as a set of positions. |
| BiLSTMEmbedder.RightPaddedLength | models/components.py:153-157 | For a right-padded row whose steps are real exactly before position `len`, the derived length is `len`. |
| Permutations.Gather | models/components.py:160 | Advanced indexing `xs[idx]` has one row per index, and row `i` is row `idx[i]` of `xs`. Line 169 uses it in the same way. |
| Permutations.ArgSort | models/components.py:158 | The sort returns a permutation of the row indices under which the keys are ordered in the requested direction. |
| Permutations.InverseBySorting | models/components.py:167 | Sorting the permutation `sent_perm` ascending gives its inverse in both directions: `sent_perm[original_perm[i]] == i` and `original_perm[sent_perm[j]] == j`. |
| Permutations.RestoreOrder | models/components.py:160-169 | Reordering rows by `sent_perm` and then by `original_perm` gives back the original rows. |
| BiLSTMEmbedder.Forward | models/components.py:147-171 | The call succeeds exactly when three things hold: the channels stack, the embedded batch covers every row, and the packing routine accepts the lengths (at least one row, none of length 0). Otherwise it fails with the error of the first step that fails, in the order of the source. On success, output row `i` is the encoder applied to embedded row `i`, that row's own length, and the longest length of the batch. The longest length is the time size that `pad_packed_sequence` pads to. The sort order does not reach the output. |
| BiLSTMEmbedder.PackedRun | models/components.py:162-166 | The rows must come in non-increasing order of length, as the packing routine demands. Row `i` of the result is the encoder applied to row `i`, its length, and the padded time size. That size is the largest length, which after the sort is the length of the first row. |
| BiLSTMEmbedder.SortedLastIsShortest | models/components.py:158-163 | After the descending sort, the last length is positive exactly when the batch is not empty and every length is positive. This is the condition under which the packing routine accepts the batch. |
| BiLSTMEmbedder.LengthsFollowPermutation | models/components.py:153-158 | Reordering the batch rows of every channel by a permutation keeps them stackable and reorders the lengths the same way. |
| BiLSTMEmbedder.PermutedInputsPermuteOutputs | models/components.py:147-171 | The embedder must map each row on its own. Then permuting the input rows permutes the output rows the same way: row `i` on the permuted batch equals row `p[i]` on the original. This holds because a permutation changes neither the rows' own lengths nor the batch's longest length. |

## Left out

- The LSTM, the embedder and the `pack_padded_sequence` / `pad_packed_sequence` internals (lines 137-138, 151, 162-166) are floating-point library calls. They appear only as the abstract `embedder` and `rowFn`. `rowFn` receives the batch's longest length as the padded time size. The model does not state that the unpacked output is zero-filled beyond each row's length.
- CNNEncoder (lines 95-124) is a convolution followed by a max, both delegated to the framework.
- `reset_parameters`, `Variable` wrapping, `.contiguous()`, `.cpu().numpy()` and device handling are framework plumbing with no logical effect. `__repr__` (line 38) is cosmetic.
- The sort of line 158 is not guaranteed stable by the library. `Permutations.ArgSort` promises only a permutation and an order, and the restore properties hold for any permutation that sorts.
- Concatenate's sub-module outputs are rank-3 tensors (batch, time, features). Joining tensors of other ranks along the last axis is not modelled.
- ContextWindow's `window` is a natural number. A negative window makes the framework fail when it allocates the padding, and the model does not cover it.
- TimeDistributed.Forward: does not model the `dim() > 2` assertion of line 80. The trailing axes are a generic element type whose rank the model cannot see, so a scalar element type (a rank-2 input) is accepted where `forward` fails the assertion. A trailing axis of size 0 is accepted too, although `view(-1, *inputs.size()[2:])` at line 85 cannot infer the merged axis of a tensor without elements and fails.
- ContextWindow.Forward: an empty batch carries no time size, so `Time` reads it as 0. With `window > 0` and an empty batch the call fails with `EmptyList`. The framework also fails, but at `view` whenever `seq_length > 0`.
