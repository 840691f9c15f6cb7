/** The split-sum and multiply kernels over buffers of `uint32_t`. All
    arithmetic wraps at 32 bits, except that `mul_by` multiplies by its
    `size_t` index at 64 bits. */
module MulKernels {
  import opened MachineInt
  import opened Folds

  /** The upper 16 bits (`elem >> 16`) of each element. */
  function HighHalves(s: seq<u32>): seq<int>
  {
    seq(|s|, k requires 0 <= k < |s| => s[k] / TWO_16)
  }

  /** The lower 16 bits (`elem & 0xFFFF`) of each element. */
  function LowHalves(s: seq<u32>): seq<int>
  {
    seq(|s|, k requires 0 <= k < |s| => s[k] % TWO_16)
  }

  /** Adding one element's halves extends both running totals. */
  lemma HalvesStep(top: int, bottom: int, hs: seq<int>, ls: seq<int>, i: nat, elem: u32)
    requires i < |hs| && i < |ls|
    requires hs[i] == elem / TWO_16 && ls[i] == elem % TWO_16
    requires top == Wrap32(Sum(hs[..i])) && bottom == Wrap32(Sum(ls[..i]))
    ensures Wrap32(top + elem / TWO_16) == Wrap32(Sum(hs[..i + 1]))
    ensures Wrap32(bottom + And(elem, 0xFFFF)) == Wrap32(Sum(ls[..i + 1]))
  {
    AndLow16(elem);
    Wrap32SumStep(top, hs, i);
    Wrap32SumStep(bottom, ls, i);
  }

  /** One round of `sum_halves`: elements `i` and `i + 1` of `data`, added
      into both totals one after the other, extend them by two places. */
  lemma HalvesRound(data: seq<u32>, len: nat, i: nat, top: int, bottom: int, top2: int, bottom2: int)
    requires i + 2 <= len <= |data|
    requires top == Wrap32(Sum(HighHalves(data[..len])[..i]))
    requires bottom == Wrap32(Sum(LowHalves(data[..len])[..i]))
    requires top2 == Wrap32(Wrap32(top + data[i] / TWO_16) + data[i + 1] / TWO_16)
    requires bottom2 == Wrap32(Wrap32(bottom + And(data[i], 0xFFFF)) + And(data[i + 1], 0xFFFF))
    ensures top2 == Wrap32(Sum(HighHalves(data[..len])[..i + 2]))
    ensures bottom2 == Wrap32(Sum(LowHalves(data[..len])[..i + 2]))
  {
    var hs, ls := HighHalves(data[..len]), LowHalves(data[..len]);
    HalvesStep(top, bottom, hs, ls, i, data[i]);
    var top1 := Wrap32(top + data[i] / TWO_16);
    var bottom1 := Wrap32(bottom + And(data[i], 0xFFFF));
    HalvesStep(top1, bottom1, hs, ls, i + 1, data[i + 1]);
  }

  /** The elements `sum_halves` reads: whole rounds of two, so an odd `len`
      also reads the element just past it. */
  function HalvesReads(len: nat): (n: nat)
    ensures n % 2 == 0 && len <= n <= len + 1
  {
    len + len % 2
  }

  /** `sum_halves`: two elements per round, their upper halves added into
      `top` and their lower halves into `bottom`, until `len` is reached. */
  method SumHalves(data: seq<u32>, len: nat) returns (top: u32, bottom: u32)
    requires HalvesReads(len) <= |data|
    ensures top == Wrap32(Sum(HighHalves(data[..HalvesReads(len)])))
    ensures bottom == Wrap32(Sum(LowHalves(data[..HalvesReads(len)])))
  {
    ghost var n := HalvesReads(len);
    ghost var hs := HighHalves(data[..n]);
    ghost var ls := LowHalves(data[..n]);
    top, bottom := 0, 0;
    var i := 0;
    ghost var rounds := 0;
    while i < len
      invariant 0 <= i <= n && i == 2 * rounds
      invariant top == Wrap32(Sum(hs[..i]))
      invariant bottom == Wrap32(Sum(ls[..i]))
    {
      ghost var top0, bottom0 := top, bottom;
      var elem := data[i];
      top := Wrap32(top + elem / TWO_16);
      bottom := Wrap32(bottom + And(elem, 0xFFFF));
      elem := data[i + 1];
      top := Wrap32(top + elem / TWO_16);
      bottom := Wrap32(bottom + And(elem, 0xFFFF));
      HalvesRound(data, n, i, top0, bottom0, top, bottom);
      i := i + 2;
      rounds := rounds + 1;
    }
    assert hs[..n] == hs && ls[..n] == ls;
  }

  /** Every element is its upper half times 2^16 plus its lower half, so the
      exact sums recombine into the sum of the elements. */
  lemma {:induction false} HalvesRecombine(s: seq<u32>)
    ensures TWO_16 * Sum(HighHalves(s)) + Sum(LowHalves(s)) == Sum(s)
    decreases |s|
  {
    if |s| > 0 {
      var n := |s| - 1;
      assert HighHalves(s)[..n] == HighHalves(s[..n]);
      assert LowHalves(s)[..n] == LowHalves(s[..n]);
      HalvesRecombine(s[..n]);
      assert TWO_16 * (s[n] / TWO_16) + s[n] % TWO_16 == s[n];
    }
  }

  /** `top * 2^16 + bottom` is the 32-bit sum of the elements: the split
      loses nothing modulo 2^32. */
  lemma SumHalvesRecombine(data: seq<u32>, len: nat, top: u32, bottom: u32)
    requires len <= |data|
    requires top == Wrap32(Sum(HighHalves(data[..len])))
    requires bottom == Wrap32(Sum(LowHalves(data[..len])))
    ensures Wrap32(TWO_16 * top + bottom) == Wrap32(Sum(data[..len]))
  {
    var h := Sum(HighHalves(data[..len]));
    var l := Sum(LowHalves(data[..len]));
    HalvesRecombine(data[..len]);
    calc {
      Wrap32(TWO_16 * top + bottom);
      { Wrap32Add(l, TWO_16 * top); }
      Wrap32(TWO_16 * top + l);
      { Wrap32Add(TWO_16 * top, l); }
      Wrap32(Wrap32(TWO_16 * top) + l);
      { Wrap32Mul(h, TWO_16); }
      Wrap32(Wrap32(TWO_16 * h) + l);
      { Wrap32Add(TWO_16 * h, l); }
      Wrap32(TWO_16 * h + l);
    }
  }

  /** The exact sum `mul_by` reduces: data[i] * data[i+1] * m * i * i over
      i < n. */
  function MulBySum(data: seq<u32>, m: nat, n: nat): int
    requires n < |data|
  {
    if n == 0 then 0
    else MulBySum(data, m, n - 1) + data[n - 1] * data[n] * m * (n - 1) * (n - 1)
  }

  /** One term of `mul_by` as the source computes it (`x * y * m` at 32
      bits, then two 64-bit multiplications by the index) agrees with the
      exact term in its low 32 bits. */
  lemma MulByTerm(x: u32, y: u32, m: u32, i: nat)
    ensures Wrap32(Wrap64(Wrap64(Wrap32(Wrap32(x * y) * m) * i) * i)) == Wrap32(x * y * m * i * i)
  {
    var a := Wrap32(x * y);
    var b := Wrap32(a * m);
    var c := Wrap64(b * i);
    calc {
      Wrap32(Wrap64(c * i));
      { Wrap32OfWrap64(c * i); }
      Wrap32(c * i);
      { Wrap32Mul(c, i); }
      Wrap32(Wrap32(c) * i);
      { Wrap32OfWrap64(b * i); }
      Wrap32(Wrap32(b * i) * i);
      { Wrap32Mul(b * i, i); }
      Wrap32((b * i) * i);
      { MulAssoc(b, i, i); }
      Wrap32(b * (i * i));
      { Wrap32Mul(a * m, i * i); }
      Wrap32((a * m) * (i * i));
      { MulAssoc(a, m, i * i); }
      Wrap32(a * (m * (i * i)));
      { Wrap32Mul(x * y, m * (i * i)); }
      Wrap32((x * y) * (m * (i * i)));
      { MulRegroup(x, y, m, i); }
      Wrap32(x * y * m * i * i);
    }
  }

  lemma MulAssoc(a: int, b: int, c: int)
    ensures (a * b) * c == a * (b * c)
  {
  }

  lemma MulRegroup(x: int, y: int, m: int, i: int)
    ensures (x * y) * (m * (i * i)) == x * y * m * i * i
  {
  }

  /** `mul_by`: the 32-bit sum of data[i] * data[i+1] * m * i * i over
      i < len - 1. `len` = 0 would make `len - 1` wrap. */
  method MulBy(data: seq<u32>, len: nat, m: u32) returns (r: u32)
    requires 1 <= len <= |data|
    ensures r == Wrap32(MulBySum(data, m, len - 1))
  {
    var sum: u32 := 0;
    for i := 0 to len - 1
      invariant sum == Wrap32(MulBySum(data, m, i))
    {
      var x, y := data[i], data[i + 1];
      var term := Wrap64(Wrap64(Wrap32(Wrap32(x * y) * m) * i) * i);
      MulByTerm(x, y, m, i);
      Wrap32OfWrap64(sum + term);
      Wrap32Add(MulBySum(data, m, i), term);
      Wrap32Add(term, MulBySum(data, m, i));
      Wrap32Add(x * y * m * i * i, MulBySum(data, m, i));
      sum := Wrap32(Wrap64(sum + term));
    }
    r := sum;
  }

  /** `mul_chain`: one running 32-bit product of the first `len` elements;
      `m` is unused. */
  method MulChain(data: seq<u32>, len: nat, m: u32) returns (r: u32)
    requires len <= |data|
    ensures r == Wrap32(Product(data[..len]))
  {
    var product: u32 := 1;
    for i := 0 to len
      invariant product == Wrap32(Product(data[..i]))
    {
      ProductPrefixStep(data, i);
      Wrap32Mul(Product(data[..i]), data[i]);
      product := Wrap32(product * data[i]);
    }
    r := product;
  }

  /** Lane `j` of the four-lane split: data[j], data[4 + j], ... over `k`
      rounds. */
  function Lane(data: seq<u32>, j: nat, k: nat): seq<int>
    requires 4 * k <= |data| && j < 4
  {
    seq(k, t requires 0 <= t < k => data[4 * t + j])
  }

  lemma LaneStep(data: seq<u32>, j: nat, k: nat)
    requires 4 * (k + 1) <= |data| && j < 4
    ensures Product(Lane(data, j, k + 1)) == Product(Lane(data, j, k)) * data[4 * k + j]
  {
    assert Lane(data, j, k + 1)[..k] == Lane(data, j, k);
  }

  /** The four lane products multiply to the product of the first 4k
      elements. */
  lemma {:induction false} LanesMultiplyToProduct(data: seq<u32>, k: nat)
    requires 4 * k <= |data|
    ensures Product(Lane(data, 0, k)) * Product(Lane(data, 1, k))
          * Product(Lane(data, 2, k)) * Product(Lane(data, 3, k))
         == Product(data[..4 * k])
  {
    if k > 0 {
      var n := 4 * (k - 1);
      LanesMultiplyToProduct(data, k - 1);
      LaneStep(data, 0, k - 1);
      LaneStep(data, 1, k - 1);
      LaneStep(data, 2, k - 1);
      LaneStep(data, 3, k - 1);
      ProductPrefixStep(data, n);
      ProductPrefixStep(data, n + 1);
      ProductPrefixStep(data, n + 2);
      ProductPrefixStep(data, n + 3);
      Interleave(Product(Lane(data, 0, k - 1)), Product(Lane(data, 1, k - 1)),
                 Product(Lane(data, 2, k - 1)), Product(Lane(data, 3, k - 1)),
                 data[n], data[n + 1], data[n + 2], data[n + 3]);
    }
  }

  lemma Interleave(a: int, b: int, c: int, d: int, w: int, x: int, y: int, z: int)
    ensures (a * w) * (b * x) * (c * y) * (d * z) == (a * b * c * d) * w * x * y * z
  {
  }

  /** Multiplying four already wrapped factors at 32 bits gives the low 32
      bits of their exact product. */
  lemma Wrap32Product4(a: int, b: int, c: int, d: int)
    ensures Wrap32(Wrap32(Wrap32(Wrap32(a) * Wrap32(b)) * Wrap32(c)) * Wrap32(d))
         == Wrap32(a * b * c * d)
  {
    Wrap32Mul(a, Wrap32(b));
    Wrap32Mul(b, a);
    Wrap32Mul(a * b, Wrap32(c));
    Wrap32Mul(c, a * b);
    Wrap32Mul(a * b * c, Wrap32(d));
    Wrap32Mul(d, a * b * c);
  }

  /** Multiplying a lane's wrapped product by the lane's next element gives
      the wrapped product of the longer lane. */
  lemma LaneWrapStep(data: seq<u32>, j: nat, k: nat, p: int)
    requires 4 * (k + 1) <= |data| && j < 4
    requires p == Wrap32(Product(Lane(data, j, k)))
    ensures Wrap32(p * data[4 * k + j]) == Wrap32(Product(Lane(data, j, k + 1)))
  {
    LaneStep(data, j, k);
    Wrap32Mul(Product(Lane(data, j, k)), data[4 * k + j]);
  }

  /** The elements `mul_chain4` reads: whole rounds of four, so a `len` that
      is not a multiple of 4 also reads up to three elements past it. */
  function Chain4Reads(len: nat): (n: nat)
    ensures n % 4 == 0 && len <= n < len + 4
  {
    (len + 3) / 4 * 4
  }

  /** A round that starts below `len` ends within the elements read, and the
      loop leaves at exactly their end. */
  lemma Chain4Bounds(len: nat, k: nat)
    ensures 4 * k < len ==> 4 * (k + 1) <= Chain4Reads(len)
    ensures len <= 4 * k <= Chain4Reads(len) ==> 4 * k == Chain4Reads(len)
  {
  }

  /** `mul_chain4`: four running 32-bit products over lanes of stride 4,
      multiplied together at the end. On a multiple of 4 this is the same
      result as `MulChain`. */
  method MulChain4(data: seq<u32>, len: nat, m: u32) returns (r: u32)
    requires Chain4Reads(len) <= |data|
    ensures r == Wrap32(Product(data[..Chain4Reads(len)]))
    ensures len % 4 == 0 ==> r == Wrap32(Product(data[..len]))
  {
    var p1: u32, p2: u32, p3: u32, p4: u32 := 1, 1, 1, 1;
    var i := 0;
    ghost var k := 0;
    while i < len
      invariant i == 4 * k && i <= Chain4Reads(len)
      invariant p1 == Wrap32(Product(Lane(data, 0, k)))
      invariant p2 == Wrap32(Product(Lane(data, 1, k)))
      invariant p3 == Wrap32(Product(Lane(data, 2, k)))
      invariant p4 == Wrap32(Product(Lane(data, 3, k)))
    {
      Chain4Bounds(len, k);
      LaneWrapStep(data, 0, k, p1);
      LaneWrapStep(data, 1, k, p2);
      LaneWrapStep(data, 2, k, p3);
      LaneWrapStep(data, 3, k, p4);
      p1 := Wrap32(p1 * data[i + 0]);
      p2 := Wrap32(p2 * data[i + 1]);
      p3 := Wrap32(p3 * data[i + 2]);
      p4 := Wrap32(p4 * data[i + 3]);
      i := i + 4;
      k := k + 1;
    }
    Chain4Bounds(len, k);
    var product := Wrap32(Wrap32(Wrap32(p1 * p2) * p3) * p4);
    Wrap32Product4(Product(Lane(data, 0, k)), Product(Lane(data, 1, k)),
                   Product(Lane(data, 2, k)), Product(Lane(data, 3, k)));
    LanesMultiplyToProduct(data, k);
    r := product;
  }

  /** The all-ones scenario: both chains multiply a buffer of ones to 1. */
  lemma AllOnesProduct(data: seq<u32>, len: nat)
    requires len <= |data|
    requires forall k :: 0 <= k < |data| ==> data[k] == 1
    ensures Wrap32(Product(data[..len])) == 1
  {
    ProductOfOnes(data[..len]);
  }
}
