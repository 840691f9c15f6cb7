/** Fixed-width machine integers modelled as unbounded integers.

    Unsigned C arithmetic wraps modulo 2^32 or 2^64 and is written out with
    `Wrap32` / `Wrap64`; a conversion to a signed type keeps the value modulo
    2^n and moves it into the signed range (`ToSigned`). The bitwise `&` and
    `^` the kernels use are defined on natural numbers bit by bit, and right
    shifts are divisions by a power of two. */
module MachineInt {

  const TWO_8: nat := 0x100
  const TWO_16: nat := 0x1_0000
  const TWO_32: nat := 0x1_0000_0000
  const TWO_64: nat := 0x1_0000_0000_0000_0000

  type u8 = x: int | 0 <= x < 0x100
  type u32 = x: int | 0 <= x < 0x1_0000_0000
  type u64 = x: int | 0 <= x < 0x1_0000_0000_0000_0000

  predicate InI32(x: int) { -0x8000_0000 <= x < 0x8000_0000 }
  predicate InI64(x: int) { -0x8000_0000_0000_0000 <= x < 0x8000_0000_0000_0000 }

  type i32 = x: int | InI32(x)

  /** `opt_control::modify`: makes a value opaque to the optimiser and leaves
      it unchanged. */
  function Modify(x: int): int
  {
    x
  }

  /** Signed 32-bit `int` addition; overflow is undefined behaviour in C++,
      so callers must keep the sum in range. */
  function AddInt(a: int, b: int): int
    requires InI32(a + b)
  {
    a + b
  }

  /** Signed 64-bit `long` addition, under the same rule. */
  function AddLong(a: int, b: int): int
    requires InI64(a + b)
  {
    a + b
  }

  /** Unsigned 32-bit arithmetic result. */
  function Wrap32(x: int): u32 { x % TWO_32 }

  /** Unsigned 64-bit arithmetic result. */
  function Wrap64(x: int): u64 { x % TWO_64 }

  /** Two's-complement conversion of `x` to a signed type with `m` values:
      the one value in the signed range that is congruent to `x` modulo `m`. */
  function ToSigned(x: int, m: nat): (r: int)
    requires m >= 2 && m % 2 == 0
    ensures -(m / 2) <= r < m / 2
    ensures (x - r) % m == 0
  {
    var w := x % m;
    ModUnique(x, x / m, w, m);
    MultipleMod(x / m, m);
    MultipleMod(x / m + 1, m);
    assert x - (w - m) == (x / m + 1) * m;
    if w < m / 2 then w else w - m
  }

  /** A multiple of `m` leaves no remainder. */
  lemma MultipleMod(k: int, m: int)
    requires m > 0
    ensures (k * m) % m == 0
  {
    ModUnique(k * m, k, 0, m);
  }

  /** Conversion to the 32-bit `int` of the target (x86-64). */
  function ToInt32(x: int): (r: int)
    ensures InI32(r)
    ensures (x - r) % TWO_32 == 0
  {
    ToSigned(x, TWO_32)
  }

  /** Conversion to the 64-bit `long` of the target (x86-64). */
  function ToInt64(x: int): (r: int)
    ensures InI64(r)
    ensures (x - r) % TWO_64 == 0
  {
    ToSigned(x, TWO_64)
  }

  /** Conversion of a byte to the target's `char`, which is signed on x86. */
  function ToChar(x: int): (r: int)
    ensures -0x80 <= r < 0x80
    ensures (x - r) % TWO_8 == 0
  {
    ToSigned(x, TWO_8)
  }

  function Pow2(k: nat): (r: nat)
    ensures r >= 1
  {
    if k == 0 then 1 else 2 * Pow2(k - 1)
  }

  /** Bitwise AND of two natural numbers. */
  function And(a: nat, b: nat): (r: nat)
    ensures r <= a && r <= b
    decreases a
  {
    if a == 0 || b == 0 then 0
    else 2 * And(a / 2, b / 2) + (if a % 2 == 1 && b % 2 == 1 then 1 else 0)
  }

  /** Bitwise exclusive OR of two natural numbers. */
  function Xor(a: nat, b: nat): nat
    decreases a + b
  {
    if a == 0 && b == 0 then 0
    else 2 * Xor(a / 2, b / 2) + (a % 2 + b % 2) % 2
  }

  // ---------------------------------------------------------------------
  // Modular arithmetic

  lemma ModAddMultiple(x: int, q: int, m: int)
    requires m > 0
    ensures (x + q * m) % m == x % m
  {
    var d := x / m;
    var r := x % m;
    assert x + q * m == (d + q) * m + r;
    ModUnique(x + q * m, d + q, r, m);
  }

  /** `y == k * m + r` with `0 <= r < m` fixes `y % m` as `r`. */
  lemma ModUnique(y: int, k: int, r: int, m: int)
    requires m > 0 && 0 <= r < m && y == k * m + r
    ensures y % m == r && y / m == k
  {
    var k' := y / m;
    var r' := y % m;
    assert k' * m + r' == k * m + r;
    assert (k' - k) * m == r - r';
    if k' > k {
      MulAtLeast(k' - k, m);
    } else if k' < k {
      MulAtLeast(k - k', m);
    }
  }

  lemma MulAtLeast(a: int, m: int)
    requires a >= 1 && m > 0
    ensures a * m >= m
  {
    assert a * m == (a - 1) * m + m;
  }

  /** Reducing one summand modulo `m` does not change the sum modulo `m`. */
  lemma ModAdd(x: int, y: int, m: int)
    requires m > 0
    ensures (x % m + y) % m == (x + y) % m
  {
    ModAddMultiple(x % m + y, x / m, m);
    assert x % m + y + (x / m) * m == x + y;
  }

  /** Reducing one factor modulo `m` does not change the product modulo `m`. */
  lemma ModMul(x: int, y: int, m: int)
    requires m > 0
    ensures (x % m * y) % m == (x * y) % m
  {
    ModAddMultiple(x % m * y, (x / m) * y, m);
    assert x % m * y + (x / m) * y * m == (x % m + (x / m) * m) * y;
    assert x % m + (x / m) * m == x;
  }

  /** Wrapping modulo 2^64 first does not change the low 32 bits. */
  lemma Wrap32OfWrap64(x: int)
    ensures Wrap32(Wrap64(x)) == Wrap32(x)
  {
    ModAddMultiple(Wrap64(x), (x / TWO_64) * 0x1_0000_0000, TWO_32);
    assert Wrap64(x) + (x / TWO_64) * 0x1_0000_0000 * TWO_32 == x;
  }

  lemma Wrap32Add(x: int, y: int)
    ensures Wrap32(Wrap32(x) + y) == Wrap32(x + y)
    ensures Wrap32(y + Wrap32(x)) == Wrap32(y + x)
  {
    ModAdd(x, y, TWO_32);
  }

  lemma Wrap32Mul(x: int, y: int)
    ensures Wrap32(Wrap32(x) * y) == Wrap32(x * y)
    ensures Wrap32(y * Wrap32(x)) == Wrap32(y * x)
  {
    ModMul(x, y, TWO_32);
  }

  lemma Wrap64Add(x: int, y: int)
    ensures Wrap64(Wrap64(x) + y) == Wrap64(x + y)
  {
    ModAdd(x, y, TWO_64);
  }

  /** A signed conversion depends only on the value modulo `m`. */
  lemma ToSignedCongruent(x: int, y: int, m: nat)
    requires m >= 2 && m % 2 == 0
    requires x % m == y % m
    ensures ToSigned(x, m) == ToSigned(y, m)
  {
  }

  /** Converting a running total to `int` after every addition gives the same
      value as converting the exact total once at the end. */
  lemma ToInt32Add(x: int, y: int)
    ensures ToInt32(ToInt32(x) + y) == ToInt32(x + y)
  {
    var r := ToInt32(x);
    assert (x - r) % TWO_32 == 0;
    ModAddMultiple(r + y, (x - r) / TWO_32, TWO_32);
    assert r + y + ((x - r) / TWO_32) * TWO_32 == x + y;
    ToSignedCongruent(r + y, x + y, TWO_32);
  }

  // ---------------------------------------------------------------------
  // Bitwise operations

  /** `x % (2 * p)` splits into the lowest bit and the rest. */
  lemma ModDouble(x: nat, p: nat)
    requires p >= 1
    ensures x % (2 * p) == 2 * ((x / 2) % p) + x % 2
  {
    var h := x / 2;
    var q := h / p;
    var r := h % p;
    assert x == 2 * h + x % 2;
    assert h == q * p + r;
    assert x == q * (2 * p) + (2 * r + x % 2);
    ModUnique(x, q, 2 * r + x % 2, 2 * p);
  }

  /** AND with a mask of `k` low one-bits keeps the low `k` bits. */
  lemma {:induction false} AndLowMask(x: nat, k: nat)
    ensures And(x, Pow2(k) - 1) == x % Pow2(k)
  {
    if k == 0 {
    } else if x == 0 {
    } else {
      var p := Pow2(k - 1);
      assert (Pow2(k) - 1) / 2 == p - 1;
      assert (Pow2(k) - 1) % 2 == 1;
      AndLowMask(x / 2, k - 1);
      ModDouble(x, p);
    }
  }

  /** XOR of two `k`-bit values is a `k`-bit value. */
  lemma {:induction false} XorBound(a: nat, b: nat, k: nat)
    requires a < Pow2(k) && b < Pow2(k)
    ensures Xor(a, b) < Pow2(k)
  {
    if a == 0 && b == 0 {
    } else {
      assert k >= 1;
      XorBound(a / 2, b / 2, k - 1);
    }
  }

  /** `x & 0xFFFF` keeps the low 16 bits. */
  lemma AndLow16(x: nat)
    ensures And(x, 0xFFFF) == x % TWO_16
  {
    AndLowMask(x, 16);
    Pow2Values();
  }

  /** `x & 0xFFFFFFFF` keeps the low 32 bits. */
  lemma AndLow32(x: nat)
    ensures And(x, 0xFFFF_FFFF) == x % TWO_32
  {
    AndLowMask(x, 32);
    Pow2Values();
  }

  lemma Pow2Values()
    ensures Pow2(8) == TWO_8 && Pow2(16) == TWO_16 && Pow2(32) == TWO_32
  {
    assert Pow2(8) == TWO_8;
    assert Pow2(16) == TWO_16;
    assert Pow2(24) == 0x100_0000;
    assert Pow2(32) == TWO_32;
  }
}
