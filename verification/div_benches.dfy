/** The integer-division kernels: a running sum of quotients `F(k)` for
    `k = 1 .. iters`, in a latency form (the divisor depends on the previous
    sum through `sum & zero`) and a throughput form, with `F` called inline or
    through the never-inlined wrapper `no_inline`. */
module DivBenches {
  import opened MachineInt

  /** The constant dividends of the 32-bit and 64-bit division operations. */
  const DIVIDEND_32: nat := 0x12345678
  const DIVIDEND_64: nat := 0x1234567812345678

  /** The division operations of one dividend width. `Div128Portable` is the
      stand-in the portable build uses for the 128-by-64-bit division. */
  datatype DivOp = Div32 | Div64 | Div128Portable

  /** A division operation called inline, or through `no_inline<F>`. */
  datatype DivFunc = Inline(op: DivOp) | NoInline(op: DivOp)

  /** One quotient; every divisor is at least 1 (a zero divisor is undefined
      behaviour in the source). */
  function Divide(op: DivOp, a: u64): (q: u64)
    requires a >= 1
    ensures op == Div32 ==> q * a <= DIVIDEND_32 < q * a + a
    ensures op == Div64 ==> q * a <= DIVIDEND_64 < q * a + a
    ensures op == Div128Portable ==> q == 1
  {
    match op
    case Div32 => DIVIDEND_32 / a
    case Div64 => DIVIDEND_64 / a
    case Div128Portable => 1
  }

  /** Calling `F` through `no_inline<F>` computes exactly `F`. */
  function Call(f: DivFunc, a: u64): u64
    requires a >= 1
  {
    match f
    case Inline(op) => Divide(op, a)
    case NoInline(op) => Divide(op, a)
  }

  lemma NoInlineIsTransparent(op: DivOp, a: u64)
    requires a >= 1
    ensures Call(NoInline(op), a) == Call(Inline(op), a) == Divide(op, a)
  {
  }

  /** The exact (unwrapped) sum of quotients `F(1) + ... + F(n)`. */
  function QuotientSum(op: DivOp, n: nat): nat
    requires n < TWO_64
  {
    if n == 0 then 0 else QuotientSum(op, n - 1) + Divide(op, n)
  }

  /** Adding the next quotient to the wrapped running sum gives the wrapped
      sum one step further. */
  lemma DivStep(f: DivFunc, k: nat, sum: int)
    requires 1 <= k < TWO_64
    requires sum == QuotientSum(f.op, k - 1) % TWO_64
    ensures Wrap64(sum + Call(f, k)) == QuotientSum(f.op, k) % TWO_64
  {
    Wrap64Add(QuotientSum(f.op, k - 1), Call(f, k));
  }

  /** `div64_templ<F, forcedep>`: `zero` is the value of `always_zero()`.
      `iters` must stay below 2^64 - 1: otherwise `k++` wraps to 0, the loop
      never ends and the next divisor is 0. Whatever `forcedep` and the
      inlining, the result is the quotient sum modulo 2^64, read as `long`. */
  method Div64Templ(f: DivFunc, forcedep: bool, iters: u64, zero: u64) returns (r: int)
    requires zero == 0
    requires iters < TWO_64 - 1
    ensures r == ToInt64(QuotientSum(f.op, iters) % TWO_64)
  {
    var sum: u64 := 0;
    var k: u64 := 1;
    while k <= iters
      invariant 1 <= k <= iters + 1
      invariant sum == QuotientSum(f.op, k - 1) % TWO_64
    {
      var d: u64 := k;
      if forcedep {
        d := Wrap64(d + And(sum, zero));
      }
      assert d == k;
      DivStep(f, k, sum);
      sum := Wrap64(sum + Call(f, d));
      k := k + 1;
    }
    r := ToInt64(sum);
  }

  /** With the portable stand-in every quotient is 1, so the sum is `iters`. */
  lemma {:induction false} PortableQuotientSum(n: nat)
    requires n < TWO_64
    ensures QuotientSum(Div128Portable, n) == n
  {
    if n > 0 {
      PortableQuotientSum(n - 1);
    }
  }

  /** Past the dividend every quotient is 0, so the 32-bit sum stops growing. */
  lemma {:induction false} Div32SumSaturates(n: nat)
    requires DIVIDEND_32 <= n < TWO_64
    ensures QuotientSum(Div32, n) == QuotientSum(Div32, DIVIDEND_32)
  {
    if n > DIVIDEND_32 {
      var q := Divide(Div32, n);
      if q >= 1 {
        MulAtLeast(q, n);
      }
      assert q == 0;
      Div32SumSaturates(n - 1);
    }
  }
}
