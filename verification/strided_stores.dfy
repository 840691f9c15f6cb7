/** The strided-store kernels: rounds of four zero stores of `width` bytes
    (the `sizeof(T)` of `uint8_t`, `uint32_t` or `uint64_t`), `stride` bytes
    apart, starting at `(i * stride) & mask` within a caller-owned region. */
module StridedStores {
  import opened MachineInt

  /** `mem_args`: the region's bytes, the stride and the address mask. */
  datatype MemArgs = MemArgs(region: seq<u8>, stride: u64, mask: u64)

  /** The loop runs for i = 0, 4, 8, ... below `iters`: ceil(iters / 4) rounds. */
  function Rounds(iters: nat): nat
  {
    (iters + 3) / 4
  }

  /** The offset of round `r`'s first store: `(i * stride) & mask` for
      i = 4r, the product wrapping at 64 bits. */
  function RoundOffset(args: MemArgs, r: nat): nat
  {
    And(Wrap64(4 * r * args.stride), args.mask)
  }

  /** The offset of store `j` (0 to 3) of round `r`. */
  function StoreOffset(args: MemArgs, r: nat, j: nat): nat
  {
    RoundOffset(args, r) + j * args.stride
  }

  predicate InStore(args: MemArgs, width: nat, r: nat, j: nat, b: nat)
  {
    StoreOffset(args, r, j) <= b < StoreOffset(args, r, j) + width
  }

  /** Byte `b` is written by one of round `r`'s four stores. */
  predicate InRound(args: MemArgs, width: nat, r: nat, b: nat)
  {
    InStore(args, width, r, 0, b) || InStore(args, width, r, 1, b)
    || InStore(args, width, r, 2, b) || InStore(args, width, r, 3, b)
  }

  /** Byte `b` is written by one of the first `rounds` rounds. */
  predicate Touched(args: MemArgs, width: nat, rounds: nat, b: nat)
  {
    exists r :: 0 <= r < rounds && InRound(args, width, r, b)
  }

  /** Every store of every round lies inside the region: the caller's
      obligation (writing outside it is undefined behaviour). */
  predicate StoresInRegion(args: MemArgs, width: nat, iters: nat)
  {
    forall r :: 0 <= r < Rounds(iters) ==> StoreOffset(args, r, 3) + width <= |args.region|
  }

  /** `*(T *)(region + at) = 0`. */
  function StoreZero(mem: seq<u8>, at: nat, width: nat): seq<u8>
    requires at + width <= |mem|
  {
    seq(|mem|, b requires 0 <= b < |mem| => if at <= b < at + width then 0 else mem[b])
  }

  lemma TouchedStep(args: MemArgs, width: nat, rounds: nat, b: nat)
    ensures Touched(args, width, rounds + 1, b)
        <==> Touched(args, width, rounds, b) || InRound(args, width, rounds, b)
  {
    if Touched(args, width, rounds + 1, b) && !InRound(args, width, rounds, b) {
      var r :| 0 <= r < rounds + 1 && InRound(args, width, r, b);
      assert r < rounds;
    }
  }

  /** The four stores of round `r`, applied one after another, zero exactly
      the bytes of that round and keep the others. */
  lemma RoundEffect(args: MemArgs, width: nat, r: nat,
                    m0: seq<u8>, m1: seq<u8>, m2: seq<u8>, m3: seq<u8>, m4: seq<u8>)
    requires StoreOffset(args, r, 3) + width <= |m0|
    requires m1 == StoreZero(m0, StoreOffset(args, r, 0), width)
    requires m2 == StoreZero(m1, StoreOffset(args, r, 1), width)
    requires m3 == StoreZero(m2, StoreOffset(args, r, 2), width)
    requires m4 == StoreZero(m3, StoreOffset(args, r, 3), width)
    ensures |m4| == |m0|
    ensures forall b :: 0 <= b < |m4| ==> m4[b] == (if InRound(args, width, r, b) then 0 else m0[b])
  {
  }

  /** Applying round `rd`'s stores to a region in which exactly the bytes of
      the earlier rounds are zeroed leaves exactly the bytes of the first
      `rd + 1` rounds zeroed. */
  lemma RoundsAccumulate(args: MemArgs, width: nat, rd: nat, m0: seq<u8>, m4: seq<u8>)
    requires |m0| == |m4| == |args.region|
    requires forall b :: 0 <= b < |m0| ==>
      m0[b] == (if Touched(args, width, rd, b) then 0 else args.region[b])
    requires forall b :: 0 <= b < |m4| ==> m4[b] == (if InRound(args, width, rd, b) then 0 else m0[b])
    ensures forall b :: 0 <= b < |m4| ==>
      m4[b] == (if Touched(args, width, rd + 1, b) then 0 else args.region[b])
  {
    forall b | 0 <= b < |m4|
      ensures m4[b] == (if Touched(args, width, rd + 1, b) then 0 else args.region[b])
    {
      TouchedStep(args, width, rd, b);
    }
  }

  /** `strided_stores<T>`: the bytes of the touched stores become 0, every
      other byte keeps its value, and the result is the region's first byte
      read as a `char`. `iters` is at most 2^64 - 4, as otherwise `i += 4`
      wraps and the loop never ends. */
  method StridedStores(args: MemArgs, width: nat, iters: u64) returns (mem: seq<u8>, r: int)
    requires width == 1 || width == 4 || width == 8
    requires iters <= TWO_64 - 4
    requires |args.region| >= 1
    requires StoresInRegion(args, width, iters)
    ensures |mem| == |args.region|
    ensures forall b :: 0 <= b < |mem| ==>
      mem[b] == (if Touched(args, width, Rounds(iters), b) then 0 else args.region[b])
    ensures r == (if iters == 0 then ToChar(args.region[0]) else 0)
  {
    mem := args.region;
    var i: u64 := 0;
    ghost var rd := 0;
    while i < iters
      invariant i == 4 * rd && rd <= Rounds(iters)
      invariant i < iters <==> rd < Rounds(iters)
      invariant |mem| == |args.region|
      invariant forall b :: 0 <= b < |mem| ==>
        mem[b] == (if Touched(args, width, rd, b) then 0 else args.region[b])
    {
      ghost var before := mem;
      assert StoreOffset(args, rd, 3) + width <= |args.region|;
      var offset := And(Wrap64(i * args.stride), args.mask);
      assert i * args.stride == 4 * rd * args.stride;
      assert offset == RoundOffset(args, rd);
      var base := offset;
      mem := StoreZero(mem, base, width);
      ghost var m1 := mem;
      base := base + args.stride;
      mem := StoreZero(mem, base, width);
      ghost var m2 := mem;
      base := base + args.stride;
      mem := StoreZero(mem, base, width);
      ghost var m3 := mem;
      base := base + args.stride;
      mem := StoreZero(mem, base, width);
      RoundEffect(args, width, rd, before, m1, m2, m3, mem);
      RoundsAccumulate(args, width, rd, before, mem);
      i := i + 4;
      rd := rd + 1;
    }
    if iters >= 1 {
      assert InRound(args, width, 0, 0);
    }
    r := ToChar(mem[0]);
  }

  /** Under the caller's obligation no byte outside the region is touched. */
  lemma TouchedBytesInRegion(args: MemArgs, width: nat, iters: nat, b: nat)
    requires StoresInRegion(args, width, iters)
    requires Touched(args, width, Rounds(iters), b)
    ensures b < |args.region|
  {
    var r :| 0 <= r < Rounds(iters) && InRound(args, width, r, b);
    assert StoreOffset(args, r, 3) + width <= |args.region|;
  }

  /** A mask no larger than the region minus three strides and one store
      meets the obligation for every iteration count: `x & mask <= mask`. */
  lemma MaskConfinesStores(args: MemArgs, width: nat, iters: nat)
    requires args.mask + 3 * args.stride + width <= |args.region|
    ensures StoresInRegion(args, width, iters)
  {
  }
}
