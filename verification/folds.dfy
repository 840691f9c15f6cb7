/** Sums and products of sequences, folded from the left the way the
    kernels' loops accumulate them. */
module Folds {
  import opened MachineInt

  function Sum(s: seq<int>): int
  {
    if |s| == 0 then 0 else Sum(s[..|s| - 1]) + s[|s| - 1]
  }

  function Product(s: seq<int>): int
  {
    if |s| == 0 then 1 else Product(s[..|s| - 1]) * s[|s| - 1]
  }

  /** Extending a prefix by one element adds that element. */
  lemma SumPrefixStep(s: seq<int>, i: nat)
    requires i < |s|
    ensures Sum(s[..i + 1]) == Sum(s[..i]) + s[i]
  {
    assert s[..i + 1][..i] == s[..i];
  }

  /** A 32-bit running total of a prefix, extended by the next element. */
  lemma Wrap32SumStep(acc: int, s: seq<int>, i: nat)
    requires i < |s| && acc == Wrap32(Sum(s[..i]))
    ensures Wrap32(acc + s[i]) == Wrap32(Sum(s[..i + 1]))
  {
    SumPrefixStep(s, i);
    Wrap32Add(Sum(s[..i]), s[i]);
  }

  /** A 32-bit running product of a prefix, extended by the next element. */
  lemma Wrap32ProductStep(acc: int, s: seq<int>, i: nat)
    requires i < |s| && acc == Wrap32(Product(s[..i]))
    ensures Wrap32(acc * s[i]) == Wrap32(Product(s[..i + 1]))
  {
    ProductPrefixStep(s, i);
    Wrap32Mul(Product(s[..i]), s[i]);
  }

  lemma ProductPrefixStep(s: seq<int>, i: nat)
    requires i < |s|
    ensures Product(s[..i + 1]) == Product(s[..i]) * s[i]
  {
    assert s[..i + 1][..i] == s[..i];
  }

  lemma {:induction false} SumAppend(a: seq<int>, b: seq<int>)
    ensures Sum(a + b) == Sum(a) + Sum(b)
    decreases |b|
  {
    if |b| == 0 {
      assert a + b == a;
    } else {
      assert (a + b)[..|a + b| - 1] == a + b[..|b| - 1];
      SumAppend(a, b[..|b| - 1]);
    }
  }

  /** A sequence of ones multiplies to one. */
  lemma {:induction false} ProductOfOnes(s: seq<int>)
    requires forall k :: 0 <= k < |s| ==> s[k] == 1
    ensures Product(s) == 1
    decreases |s|
  {
    if |s| > 0 {
      ProductOfOnes(s[..|s| - 1]);
    }
  }
}
