/** Outcomes of a forward call: a value, or the failure that aborts the call. */
module Results {

  /** Why a forward call aborts. */
  datatype Error =
    | AssertionError   // a Python `assert` on sizes failed
    | EmptyList        // `torch.cat` or `torch.stack` was given no tensors
    | SizeMismatch     // `torch.cat` was given tensors whose other axes differ
    | IndexOutOfRange  // advanced indexing with an index past the indexed axis
    | PackError        // `pack_padded_sequence` was given no rows, or a row of length 0

  datatype Result<+R> = Success(value: R) | Failure(error: Error)
}
