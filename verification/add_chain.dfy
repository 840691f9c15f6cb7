/** The dependent-decrement kernel `portable_add_chain`. */
module AddChain {
  import opened MachineInt

  /** The counter, as an `int64_t`, loses 1 four times per round, with
      `modify` before each decrement, until it is 0. The input must be a
      positive multiple of 4 below 2^63: any other value never meets 0 and
      the decrements overflow. `rounds` counts the loop's rounds. */
  method PortableAddChain(itersu: u64) returns (r: int, ghost rounds: nat)
    requires 0 < itersu < 0x8000_0000_0000_0000 && itersu % 4 == 0
    ensures r == 0
    ensures rounds == itersu / 4
  {
    var iters := ToInt64(itersu);
    rounds := 0;
    while true
      invariant 0 < iters && iters % 4 == 0
      invariant iters == itersu - 4 * rounds
      decreases iters
    {
      iters := Modify(iters);
      iters := AddLong(iters, -1);
      iters := Modify(iters);
      iters := AddLong(iters, -1);
      iters := Modify(iters);
      iters := AddLong(iters, -1);
      iters := Modify(iters);
      iters := AddLong(iters, -1);
      rounds := rounds + 1;
      if iters == 0 {
        break;
      }
    }
    r := iters;
  }
}
