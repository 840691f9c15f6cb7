/** The table-lookup kernel `crc8`: a byte fold through a 256-entry table. */
module Crc8 {
  import opened MachineInt

  /** `crc8_table`: 256 entries, deliberately all zero; this is not a real
      CRC-8 table. */
  const CRC8_TABLE: seq<u8> := seq(256, _ => 0)

  /** `crc ^ byte`, the table index of one step; always a valid index. */
  function TableIndex(crc: u8, b: u8): (i: nat)
    ensures i < 256
  {
    Pow2Values();
    XorBound(crc, b, 8);
    Xor(crc, b)
  }

  /** `crc = crc8_table[crc ^ *data++]` over every byte. */
  function Fold(table: seq<u8>, crc: u8, data: seq<u8>): u8
    requires |table| == 256
    decreases |data|
  {
    if |data| == 0 then crc
    else Fold(table, table[TableIndex(crc, data[0])], data[1..])
  }

  /** After at least one byte the accumulator is a table entry. */
  lemma {:induction false} FoldInTable(table: seq<u8>, crc: u8, data: seq<u8>)
    requires |table| == 256 && |data| > 0
    ensures Fold(table, crc, data) in table
    decreases |data|
  {
    if |data| > 1 {
      FoldInTable(table, table[TableIndex(crc, data[0])], data[1..]);
    }
  }

  /** `crc8`: the seed masked to its low 8 bits, then folded over `data`.
      With no data the result is the masked seed, otherwise a table entry. */
  function Crc8(table: seq<u8>, crc: u32, data: seq<u8>): (r: u8)
    requires |table| == 256
    ensures |data| == 0 ==> r == crc % 256
    ensures |data| > 0 ==> r in table
  {
    Pow2Values();
    AndLowMask(crc, 8);
    if |data| > 0 then FoldInTable(table, And(crc, 0xff), data); Fold(table, And(crc, 0xff), data)
    else Fold(table, And(crc, 0xff), data)
  }

  /** The all-zero table sends every non-empty buffer to 0. */
  lemma ZeroTableCrc(crc: u32, data: seq<u8>)
    ensures Crc8(CRC8_TABLE, crc, data) == (if |data| == 0 then crc % 256 else 0)
  {
    if |data| > 0 {
      var r := Crc8(CRC8_TABLE, crc, data);
      var i :| 0 <= i < 256 && CRC8_TABLE[i] == r;
    }
  }

  /** The number of `crc8` calls the do-while of `crc8_bench` makes: `iters`,
      except that `iters` = 0 runs once and then wraps the counter to
      2^64 - 1, so the loop runs 2^64 times. */
  function BenchRounds(iters: u64): (n: nat)
    ensures 1 <= n <= TWO_64
    ensures (n - iters) % TWO_64 == 0
  {
    if iters == 0 then TWO_64 else iters
  }

  /** `crc8_bench`: `crc8` over the whole buffer, feeding each result back in
      as the next seed, once per round of the do-while. */
  function Crc8Bench(table: seq<u8>, iters: u64, buf: seq<u8>): (r: u8)
    requires |table| == 256
    ensures |buf| > 0 ==> r in table
  {
    Crc8Rounds(table, BenchRounds(iters), 0, buf)
  }

  function Crc8Rounds(table: seq<u8>, n: nat, crc: u32, buf: seq<u8>): (r: u32)
    requires |table| == 256 && n >= 1
    ensures r < 256
    ensures |buf| > 0 ==> r in table
    decreases n
  {
    var crc' := Crc8(table, crc, buf);
    if n == 1 then crc' else Crc8Rounds(table, n - 1, crc', buf)
  }

  /** The scenario of an all-zero table: any buffer of 4096 bytes and any
      iteration count give 0. */
  lemma ZeroTableBench(iters: u64, buf: seq<u8>)
    requires |buf| == 4096
    ensures Crc8Bench(CRC8_TABLE, iters, buf) == 0
  {
    var r := Crc8Bench(CRC8_TABLE, iters, buf);
    var i :| 0 <= i < 256 && CRC8_TABLE[i] == r;
  }
}
