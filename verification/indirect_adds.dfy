/** The indirect-add kernels: `data` is read through the indices of an
    offsets buffer, the odd and even positions into two accumulators. The
    packed variant loads two neighbouring offsets with one 64-bit load. */
module IndirectAdds {
  import opened MachineInt
  import opened Folds

  /** The two 32-bit accumulators `sum1` and `sum2`. */
  datatype Sums = Sums(sum1: u32, sum2: u32)

  /** The first `len` offsets exist and index into `data`. */
  predicate OffsetsValid(data: seq<u32>, offsets: seq<u32>, len: nat)
  {
    len <= |offsets| && forall k :: 0 <= k < len ==> offsets[k] < |data|
  }

  /** The do-while loop of `add_indirect_inner` from counter value `i`:
      add data[offsets[i-1]] to `sum1` and data[offsets[i-2]] to `sum2`,
      step `i` down by 2, and stop at 0. */
  function IndirectLoop(data: seq<u32>, offsets: seq<u32>, i: nat, s: Sums): Sums
    requires i >= 2 && i % 2 == 0 && OffsetsValid(data, offsets, i)
    decreases i
  {
    var s' := Sums(Wrap32(s.sum1 + data[offsets[i - 1]]), Wrap32(s.sum2 + data[offsets[i - 2]]));
    if i - 2 == 0 then s' else IndirectLoop(data, offsets, i - 2, s')
  }

  /** `memcpy` of a `uint64_t` from `offsets + at` on a little-endian
      target: the first offset is the low half, the second the high half. */
  function LoadPair(offsets: seq<u32>, at: nat): (w: u64)
    requires at + 2 <= |offsets|
    ensures w / TWO_32 == offsets[at + 1]
    ensures And(w, 0xFFFF_FFFF) == offsets[at]
  {
    var w := offsets[at] + TWO_32 * offsets[at + 1];
    ModUnique(w, offsets[at + 1], offsets[at], TWO_32);
    AndLowMask(w, 32);
    Pow2Values();
    w
  }

  /** The do-while loop of `add_indirect_shift_inner`: `sum1` takes the
      entry at the high half of the packed pair, `sum2` the low half. */
  function ShiftLoop(data: seq<u32>, offsets: seq<u32>, i: nat, s: Sums): Sums
    requires i >= 2 && i % 2 == 0 && OffsetsValid(data, offsets, i)
    decreases i
  {
    var twooffsets := LoadPair(offsets, i - 2);
    var s' := Sums(Wrap32(s.sum1 + data[twooffsets / TWO_32]),
                   Wrap32(s.sum2 + data[And(twooffsets, 0xFFFF_FFFF)]));
    if i - 2 == 0 then s' else ShiftLoop(data, offsets, i - 2, s')
  }

  /** The packed load yields exactly the two separate loads, so both loops
      keep the same `sum1` and `sum2` at every step. */
  lemma {:induction false} ShiftLoopMatches(data: seq<u32>, offsets: seq<u32>, i: nat, s: Sums)
    requires i >= 2 && i % 2 == 0 && OffsetsValid(data, offsets, i)
    ensures ShiftLoop(data, offsets, i, s) == IndirectLoop(data, offsets, i, s)
    decreases i
  {
    var s' := Sums(Wrap32(s.sum1 + data[offsets[i - 1]]), Wrap32(s.sum2 + data[offsets[i - 2]]));
    if i - 2 > 0 {
      ShiftLoopMatches(data, offsets, i - 2, s');
    }
  }

  /** The values gathered through the first `len` offsets. */
  function Gather(data: seq<u32>, offsets: seq<u32>, len: nat): seq<int>
    requires OffsetsValid(data, offsets, len)
  {
    seq(len, k requires 0 <= k < len => data[offsets[k]])
  }

  /** Exact sums of the gathered values at odd and at even positions below
      `i`. */
  function OddSum(data: seq<u32>, offsets: seq<u32>, i: nat): int
    requires i % 2 == 0 && OffsetsValid(data, offsets, i)
  {
    if i == 0 then 0 else OddSum(data, offsets, i - 2) + data[offsets[i - 1]]
  }

  function EvenSum(data: seq<u32>, offsets: seq<u32>, i: nat): int
    requires i % 2 == 0 && OffsetsValid(data, offsets, i)
  {
    if i == 0 then 0 else EvenSum(data, offsets, i - 2) + data[offsets[i - 2]]
  }

  /** The loop leaves in `sum1` the 32-bit sum of the odd positions and in
      `sum2` that of the even ones, on top of what they started with. */
  lemma {:induction false} IndirectLoopSums(data: seq<u32>, offsets: seq<u32>, i: nat, s: Sums)
    requires i >= 2 && i % 2 == 0 && OffsetsValid(data, offsets, i)
    ensures IndirectLoop(data, offsets, i, s)
         == Sums(Wrap32(s.sum1 + OddSum(data, offsets, i)), Wrap32(s.sum2 + EvenSum(data, offsets, i)))
    decreases i
  {
    var a, b := data[offsets[i - 1]], data[offsets[i - 2]];
    var s' := Sums(Wrap32(s.sum1 + a), Wrap32(s.sum2 + b));
    if i - 2 > 0 {
      IndirectLoopSums(data, offsets, i - 2, s');
      Wrap32Add(s.sum1 + a, OddSum(data, offsets, i - 2));
      Wrap32Add(s.sum2 + b, EvenSum(data, offsets, i - 2));
    }
  }

  /** The odd and even position sums together are the sum of all gathered
      values. */
  lemma {:induction false} OddEvenSplit(data: seq<u32>, offsets: seq<u32>, i: nat)
    requires i % 2 == 0 && OffsetsValid(data, offsets, i)
    ensures OddSum(data, offsets, i) + EvenSum(data, offsets, i) == Sum(Gather(data, offsets, i))
    decreases i
  {
    if i > 0 {
      var g := Gather(data, offsets, i);
      OddEvenSplit(data, offsets, i - 2);
      assert g[..i - 2] == Gather(data, offsets, i - 2);
      assert g[..i - 1][..i - 2] == g[..i - 2];
    }
  }

  /** `add_indirect_inner`: `len` must be even and at least 2 (the source
      asserts it). The result is the 32-bit sum of every gathered value. */
  function AddIndirectInner(data: seq<u32>, offsets: seq<u32>, len: nat): (r: u32)
    requires len >= 2 && len % 2 == 0 && OffsetsValid(data, offsets, len)
    ensures r == Wrap32(Sum(Gather(data, offsets, len)))
  {
    var s := IndirectLoop(data, offsets, len, Sums(0, 0));
    IndirectLoopSums(data, offsets, len, Sums(0, 0));
    OddEvenSplit(data, offsets, len);
    Wrap32Add(OddSum(data, offsets, len), s.sum2);
    Wrap32Add(EvenSum(data, offsets, len), OddSum(data, offsets, len));
    Wrap32(s.sum1 + s.sum2)
  }

  /** `add_indirect_shift_inner`: the same sum through packed loads. It has
      no length check of its own; a length that is 0 or odd reads before
      the buffer, so the same condition is required. */
  function AddIndirectShiftInner(data: seq<u32>, offsets: seq<u32>, len: nat): (r: u32)
    requires len >= 2 && len % 2 == 0 && OffsetsValid(data, offsets, len)
    ensures r == AddIndirectInner(data, offsets, len)
    ensures r == Wrap32(Sum(Gather(data, offsets, len)))
  {
    var s := ShiftLoop(data, offsets, len, Sums(0, 0));
    ShiftLoopMatches(data, offsets, len, Sums(0, 0));
    Wrap32(s.sum1 + s.sum2)
  }
}
