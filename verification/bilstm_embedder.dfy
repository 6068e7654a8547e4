/**
 The bookkeeping of `BiLSTMEmbedder.forward`: which steps are real, how long
 each row is, the descending-length sort the packing routine demands, and the
 inverse permutation that puts the rows back. The embedder and the packed
 recurrent encoder are abstract functions supplied by the caller.
 */
module BiLSTMEmbedder {
  import opened Tensors
  import opened Results
  import opened Permutations

  /** One input channel: rank 2 (one id per step) or rank 3 (several ids per step). */
  datatype Channel =
    | Ids(ids: seq<seq<int>>)
    | MultiIds(multi: seq<seq<seq<int>>>)

  /** Batch size of a channel. */
  function Rows(c: Channel): nat
  {
    match c
    case Ids(ids) => |ids|
    case MultiIds(multi) => |multi|
  }

  /** Sequence length of a channel. */
  function Steps(c: Channel): nat
  {
    match c
    case Ids(ids) => Time(ids)
    case MultiIds(multi) => Time(multi)
  }

  /** Every row of the channel has `Steps(c)` steps. */
  predicate WellShaped(c: Channel)
  {
    match c
    case Ids(ids) => Rectangular(ids)
    case MultiIds(multi) => Rectangular(multi)
  }

  /** The channel's ids at `(b, t)`; a rank-2 channel is unsqueezed to a single id. */
  function IdsAt(c: Channel, b: nat, t: nat): seq<int>
    requires WellShaped(c) && b < Rows(c) && t < Steps(c)
  {
    match c
    case Ids(ids) => [ids[b][t]]
    case MultiIds(multi) => multi[b][t]
  }

  /** The channels can be joined along the last axis: at least one, all with the same batch and time sizes. */
  predicate Stackable(chs: seq<Channel>)
  {
    && |chs| > 0
    && forall k :: 0 <= k < |chs| ==>
         && WellShaped(chs[k])
         && Rows(chs[k]) == Rows(chs[0])
         && Steps(chs[k]) == Steps(chs[0])
  }

  /** The stacked channel tensor `cat` at `(b, t)`: every channel's ids, in channel order. */
  function Stacked(chs: seq<Channel>, b: nat, t: nat): seq<int>
    requires Stackable(chs) && b < Rows(chs[0]) && t < Steps(chs[0])
  {
    Concat(seq(|chs|, k requires 0 <= k < |chs| => IdsAt(chs[k], b, t)))
  }

  /** `torch.sum(v != padding_idx)`: how many entries differ from the padding id. */
  function CountNonPad(v: seq<int>, pad: int): nat
  {
    if |v| == 0 then 0 else (if v[0] != pad then 1 else 0) + CountNonPad(v[1..], pad)
  }

  /** Some entry of `v` differs from the padding id. */
  predicate HasReal(v: seq<int>, pad: int)
  {
    exists c :: 0 <= c < |v| && v[c] != pad
  }

  /** `mask`: step `(b, t)` is real when its non-padding count is not zero. */
  function Mask(chs: seq<Channel>, pad: int): (m: seq<seq<bool>>)
    requires Stackable(chs)
    ensures |m| == Rows(chs[0])
    ensures Uniform(m, Steps(chs[0]))
  {
    seq(Rows(chs[0]), b requires 0 <= b < Rows(chs[0]) =>
      seq(Steps(chs[0]), t requires 0 <= t < Steps(chs[0]) => CountNonPad(Stacked(chs, b, t), pad) != 0))
  }

  /** `torch.sum(mask.long())` over one row. */
  function CountTrue(row: seq<bool>): (n: nat)
    ensures n <= |row|
  {
    if |row| == 0 then 0
    else CountTrue(row[..|row| - 1]) + (if row[|row| - 1] then 1 else 0)
  }

  /** `seq_lengths`: the number of real steps of every row, between 0 and the sequence length. */
  function Lengths(chs: seq<Channel>, pad: int): (lens: seq<nat>)
    requires Stackable(chs)
    ensures |lens| == Rows(chs[0])
    ensures forall b :: 0 <= b < |lens| ==> lens[b] <= Steps(chs[0])
  {
    var m := Mask(chs, pad);
    seq(Rows(chs[0]), b requires 0 <= b < Rows(chs[0]) => CountTrue(m[b]))
  }

  /** The largest entry of `s`, or 0 for an empty sequence. */
  function MaxOf(s: seq<nat>): (m: nat)
    ensures forall i :: 0 <= i < |s| ==> s[i] <= m
    ensures |s| == 0 ==> m == 0
    ensures |s| > 0 ==> exists i :: 0 <= i < |s| && s[i] == m
  {
    if |s| == 0 then 0
    else
      var rest := MaxOf(s[1..]);
      if s[0] >= rest then s[0]
      else
        assert exists i :: 0 <= i < |s[1..]| && s[1..][i] == rest;
        var i :| 0 <= i < |s[1..]| && s[1..][i] == rest;
        assert s[i + 1] == rest;
        rest
  }

  /**
   `pack_padded_sequence`, the recurrent encoder and `pad_packed_sequence`,
   abstracted as a function of one row, its length, and the time size every
   row is padded back to. The packing routine demands rows in non-increasing
   order of length, so that padded size is the length of the first row.
   */
  function PackedRun<R, O>(rows: seq<R>, lens: seq<nat>, rowFn: (R, nat, nat) -> O): (r: seq<O>)
    requires |rows| == |lens|
    requires forall i, j :: 0 <= i < j < |lens| ==> lens[i] >= lens[j]
    ensures |r| == |rows|
    ensures forall i :: 0 <= i < |r| ==> r[i] == rowFn(rows[i], lens[i], MaxOf(lens))
  {
    var longest := if |lens| == 0 then 0 else lens[0];
    assert longest == MaxOf(lens) by {
      if |lens| > 0 {
        var k :| 0 <= k < |lens| && lens[k] == MaxOf(lens);
        assert k == 0 || lens[0] >= lens[k];
      }
    }
    seq(|rows|, i requires 0 <= i < |rows| => rowFn(rows[i], lens[i], longest))
  }

  /** Lengths the packing routine accepts: at least one row, and no row of length 0. */
  predicate Packable(lens: seq<nat>)
  {
    |lens| > 0 && forall b :: 0 <= b < |lens| ==> lens[b] > 0
  }

  /**
   `forward`: stack the channels, derive lengths, sort rows by descending
   length, run the packed encoder, and restore the original row order with
   the inverse permutation obtained by sorting the sort permutation. The
   packing routine rejects an empty batch and a row of length 0, which after
   the sort is the last one. Output row `i` is the encoder applied to
   embedded row `i`, its own length, and the longest length of the batch
   (the time size the unpacked output is padded to); the sort order does not
   reach it.
   */
  method Forward<R, O>(inputs: seq<Channel>, pad: int, embedder: seq<Channel> -> seq<R>, rowFn: (R, nat, nat) -> O)
    returns (r: Result<seq<O>>)
    ensures r.Success? <==>
      && Stackable(inputs)
      && |embedder(inputs)| >= Rows(inputs[0])
      && Packable(Lengths(inputs, pad))
    ensures r.Failure? ==> (r.error == if |inputs| == 0 then EmptyList
                                       else if !Stackable(inputs) then SizeMismatch
                                       else if |embedder(inputs)| < Rows(inputs[0]) then IndexOutOfRange
                                       else PackError)
    ensures r.Success? ==>
      && |r.value| == Rows(inputs[0])
      && forall i :: 0 <= i < |r.value| ==>
           r.value[i] == rowFn(embedder(inputs)[i], Lengths(inputs, pad)[i], MaxOf(Lengths(inputs, pad)))
  {
    var embedded := embedder(inputs);
    if |inputs| == 0 {
      return Failure(EmptyList);
    }
    if !Stackable(inputs) {
      return Failure(SizeMismatch);
    }
    var lens := Lengths(inputs, pad);
    var sentPerm := ArgSort(lens, true);
    var sortedLens := Gather(lens, sentPerm);
    if |embedded| < |lens| {
      return Failure(IndexOutOfRange);
    }
    SortedLastIsShortest(lens, sentPerm);
    if |sortedLens| == 0 || sortedLens[|sortedLens| - 1] == 0 {
      return Failure(PackError);
    }
    var sortedRows := Gather(embedded, sentPerm);
    var encoded := PackedRun(sortedRows, sortedLens, rowFn);
    var originalPerm := ArgSort(sentPerm, false);
    var outputs := Gather(encoded, originalPerm);
    InverseBySorting(sentPerm, originalPerm);
    MaxOfPermuted(lens, sentPerm);
    return Success(outputs);
  }

  /**
   After a descending sort the last length is the shortest, so it is
   positive exactly when every length is.
   */
  lemma SortedLastIsShortest(lens: seq<nat>, p: seq<nat>)
    requires IsPermutation(p, |lens|)
    requires SortedBy(lens, p, true)
    ensures Packable(lens) <==> |lens| > 0 && Gather(lens, p)[|lens| - 1] > 0
  {
    if |lens| > 0 && Gather(lens, p)[|lens| - 1] > 0 {
      forall b | 0 <= b < |lens|
        ensures lens[b] > 0
      {
        PermutationCovers(p, |lens|, b);
        var j :| 0 <= j < |lens| && p[j] == b;
        assert j == |lens| - 1 || InOrder(lens[p[j]], lens[p[|lens| - 1]], true);
      }
    }
  }

  /** Reordering a sequence by a permutation keeps its largest entry. */
  lemma MaxOfPermuted(s: seq<nat>, p: seq<nat>)
    requires IsPermutation(p, |s|)
    ensures MaxOf(Gather(s, p)) == MaxOf(s)
  {
    var g := Gather(s, p);
    if |s| > 0 {
      var i :| 0 <= i < |g| && g[i] == MaxOf(g);
      assert g[i] == s[p[i]] <= MaxOf(s);
      var k :| 0 <= k < |s| && s[k] == MaxOf(s);
      PermutationCovers(p, |s|, k);
      var j :| 0 <= j < |s| && p[j] == k;
      assert s[k] == g[j] <= MaxOf(g);
    }
  }

  lemma {:induction false} CountNonPadPositive(v: seq<int>, pad: int)
    ensures CountNonPad(v, pad) != 0 <==> HasReal(v, pad)
  {
    if |v| > 0 {
      CountNonPadPositive(v[1..], pad);
      if HasReal(v[1..], pad) {
        var c :| 0 <= c < |v[1..]| && v[1..][c] != pad;
        assert v[c + 1] != pad;
      }
      if HasReal(v, pad) && v[0] == pad {
        var c :| 0 <= c < |v| && v[c] != pad;
        assert v[1..][c - 1] != pad;
      }
    }
  }

  lemma {:induction false} HasRealConcat(xs: seq<seq<int>>, pad: int)
    ensures HasReal(Concat(xs), pad) <==> exists k :: 0 <= k < |xs| && HasReal(xs[k], pad)
  {
    if |xs| > 0 {
      HasRealConcat(xs[1..], pad);
      var head, tail := xs[0], Concat(xs[1..]);
      assert Concat(xs) == head + tail;
      if HasReal(head + tail, pad) {
        var c :| 0 <= c < |head + tail| && (head + tail)[c] != pad;
        if c < |head| {
          assert HasReal(xs[0], pad);
        } else {
          assert tail[c - |head|] != pad;
          var k :| 0 <= k < |xs[1..]| && HasReal(xs[1..][k], pad);
          assert HasReal(xs[k + 1], pad);
        }
      }
      if exists k :: 0 <= k < |xs| && HasReal(xs[k], pad) {
        var k :| 0 <= k < |xs| && HasReal(xs[k], pad);
        var c :| 0 <= c < |xs[k]| && xs[k][c] != pad;
        if k == 0 {
          assert (head + tail)[c] != pad;
        } else {
          assert HasReal(xs[1..][k - 1], pad);
          var c' :| 0 <= c' < |tail| && tail[c'] != pad;
          assert (head + tail)[|head| + c'] != pad;
        }
      }
    }
  }

  /**
   A step is real exactly when at least one channel holds a non-padding id
   there (both directions).
   */
  lemma MaskIsReal(chs: seq<Channel>, pad: int, b: nat, t: nat)
    requires Stackable(chs)
    requires b < Rows(chs[0]) && t < Steps(chs[0])
    ensures Mask(chs, pad)[b][t] <==> exists k :: 0 <= k < |chs| && HasReal(IdsAt(chs[k], b, t), pad)
  {
    var parts := seq(|chs|, k requires 0 <= k < |chs| => IdsAt(chs[k], b, t));
    CountNonPadPositive(Stacked(chs, b, t), pad);
    HasRealConcat(parts, pad);
    if exists k :: 0 <= k < |chs| && HasReal(IdsAt(chs[k], b, t), pad) {
      var k :| 0 <= k < |chs| && HasReal(IdsAt(chs[k], b, t), pad);
      assert HasReal(parts[k], pad);
    }
  }

  /** The real steps of a mask row, as a set of time indices. */
  function RealSteps(row: seq<bool>): set<nat>
  {
    set t: nat | t < |row| && row[t]
  }

  lemma {:induction false} CountTrueIsCardinality(row: seq<bool>)
    ensures CountTrue(row) == |RealSteps(row)|
  {
    if |row| > 0 {
      var init := row[..|row| - 1];
      CountTrueIsCardinality(init);
      var last := |row| - 1;
      if row[last] {
        assert RealSteps(row) == RealSteps(init) + {last};
        assert last !in RealSteps(init);
      } else {
        assert RealSteps(row) == RealSteps(init);
      }
    }
  }

  /** A row's length is the number of its real steps, counted as a set of positions. */
  lemma LengthIsRealSteps(chs: seq<Channel>, pad: int, b: nat)
    requires Stackable(chs)
    requires b < Rows(chs[0])
    ensures Lengths(chs, pad)[b] == |RealSteps(Mask(chs, pad)[b])|
  {
    CountTrueIsCardinality(Mask(chs, pad)[b]);
  }

  lemma {:induction false} CountTruePrefix(row: seq<bool>, len: nat)
    requires len <= |row|
    requires forall t :: 0 <= t < |row| ==> (row[t] <==> t < len)
    ensures CountTrue(row) == len
  {
    if |row| > 0 {
      var init := row[..|row| - 1];
      if len == |row| {
        CountTruePrefix(init, len - 1);
      } else {
        CountTruePrefix(init, len);
      }
    }
  }

  /**
   For a right-padded row, whose steps are real up to `len` and padding from
   there on, the derived length is `len`.
   */
  lemma RightPaddedLength(chs: seq<Channel>, pad: int, b: nat, len: nat)
    requires Stackable(chs)
    requires b < Rows(chs[0]) && len <= Steps(chs[0])
    requires forall t :: 0 <= t < Steps(chs[0]) ==> (Mask(chs, pad)[b][t] <==> t < len)
    ensures Lengths(chs, pad)[b] == len
  {
    CountTruePrefix(Mask(chs, pad)[b], len);
  }

  /** Every channel's rows reordered by `p`. */
  function PermuteChannel(c: Channel, p: seq<nat>): Channel
    requires InBounds(p, Rows(c))
  {
    match c
    case Ids(ids) => Ids(Gather(ids, p))
    case MultiIds(multi) => MultiIds(Gather(multi, p))
  }

  function PermuteChannels(chs: seq<Channel>, p: seq<nat>): (r: seq<Channel>)
    requires Stackable(chs) && InBounds(p, Rows(chs[0]))
    ensures |r| == |chs|
  {
    seq(|chs|, k requires 0 <= k < |chs| => PermuteChannel(chs[k], p))
  }

  /**
   Reordering the batch rows of every channel by a permutation reorders the
   mask rows and the lengths the same way.
   */
  lemma LengthsFollowPermutation(chs: seq<Channel>, pad: int, p: seq<nat>)
    requires Stackable(chs)
    requires IsPermutation(p, Rows(chs[0]))
    ensures Stackable(PermuteChannels(chs, p))
    ensures Rows(PermuteChannels(chs, p)[0]) == Rows(chs[0])
    ensures InBounds(p, |Lengths(chs, pad)|)
    ensures Lengths(PermuteChannels(chs, p), pad) == Gather(Lengths(chs, pad), p)
  {
    var pchs := PermuteChannels(chs, p);
    var n := Rows(chs[0]);
    forall k | 0 <= k < |chs|
      ensures WellShaped(pchs[k]) && Rows(pchs[k]) == n && Steps(pchs[k]) == Steps(chs[0])
      ensures forall i, t :: 0 <= i < n && 0 <= t < Steps(chs[0]) ==>
        IdsAt(pchs[k], i, t) == IdsAt(chs[k], p[i], t)
    {
      if n > 0 {
        assert p[0] < n;
      }
    }
    assert Stackable(pchs);
    var m, pm := Mask(chs, pad), Mask(pchs, pad);
    forall i | 0 <= i < n
      ensures pm[i] == m[p[i]]
    {
      forall t | 0 <= t < Steps(chs[0])
        ensures pm[i][t] == m[p[i]][t]
      {
        var parts := seq(|chs|, k requires 0 <= k < |chs| => IdsAt(chs[k], p[i], t));
        var pparts := seq(|pchs|, k requires 0 <= k < |pchs| => IdsAt(pchs[k], i, t));
        assert parts == pparts;
      }
    }
  }

  /**
   Permuting the input rows permutes the output rows the same way: with an
   embedder that maps each input row on its own, the row-`i` formula of
   `Forward` on the permuted batch equals the row-`p[i]` formula on the
   original batch, padded time size included.
   */
  lemma PermutedInputsPermuteOutputs<R, O>(
    inputs: seq<Channel>, pad: int, p: seq<nat>,
    embedder: seq<Channel> -> seq<R>, rowFn: (R, nat, nat) -> O, i: nat)
    requires Stackable(inputs)
    requires IsPermutation(p, Rows(inputs[0]))
    requires |embedder(inputs)| >= Rows(inputs[0])
    requires |embedder(PermuteChannels(inputs, p))| >= Rows(inputs[0])
    requires forall j :: 0 <= j < Rows(inputs[0]) ==>
      embedder(PermuteChannels(inputs, p))[j] == embedder(inputs)[p[j]]
    requires i < Rows(inputs[0])
    ensures Stackable(PermuteChannels(inputs, p))
    ensures |Lengths(PermuteChannels(inputs, p), pad)| == Rows(inputs[0])
    ensures rowFn(embedder(PermuteChannels(inputs, p))[i], Lengths(PermuteChannels(inputs, p), pad)[i],
                  MaxOf(Lengths(PermuteChannels(inputs, p), pad)))
         == rowFn(embedder(inputs)[p[i]], Lengths(inputs, pad)[p[i]], MaxOf(Lengths(inputs, pad)))
  {
    LengthsFollowPermutation(inputs, pad, p);
    MaxOfPermuted(Lengths(inputs, pad), p);
  }
}
