/**
 * The reflected CRC-32 that protects each frame: polynomial 0xEDB88320,
 * initial register 0xFFFFFFFF, final XOR 0xFFFFFFFF (the frame check
 * sequence of IEEE 802.3 and of RFC 1662 Appendix C.3).
 *
 * The register is a `bv32`: every value the Python code computes stays
 * below 2^32, so it is represented exactly. The bit-at-a-time definition
 * (`Crc`) is the reference; the table-driven computation of `CRC32` is
 * proved equal to it byte by byte (`TableFeedIsBitwise`).
 */
module Crc32 {

  type Byte = bv8

  const Polynomial: bv32 := 0xEDB8_8320
  const InitialRegister: bv32 := 0xFFFF_FFFF
  const FinalXor: bv32 := 0xFFFF_FFFF
  const TableSize: nat := 256
  const BitsPerByte: nat := 8

  /** What one shift folds into the register: the polynomial when a 1 falls out, otherwise nothing. */
  function Fold(crc: bv32): bv32 {
    if crc & 1 == 1 then Polynomial else 0
  }

  /** One shift of the reflected register: shift right and fold. */
  function ShiftBit(crc: bv32): bv32 {
    (crc >> 1) ^ Fold(crc)
  }

  /** `k` successive applications of the step `f`, starting from `c`. */
  function Repeat(f: bv32 -> bv32, c: bv32, k: nat): bv32
    decreases k
  {
    if k == 0 then c else Repeat(f, f(c), k - 1)
  }

  /** `k` successive shifts of the register. */
  function Shifts(crc: bv32, k: nat): bv32 {
    Repeat(ShiftBit, crc, k)
  }

  /** The table entry for index `i` (a byte value): `i` pushed through eight shifts. */
  function Entry(i: bv32): bv32 {
    Shifts(i, BitsPerByte)
  }

  /** `t` is the 256-entry lookup table of the CRC. */
  ghost predicate IsCrcTable(t: seq<bv32>) {
    |t| == TableSize && forall i: bv32 :: i < 256 ==> t[i as int] == Entry(i)
  }

  /** Feeding one byte into the register one bit at a time: the reference definition. */
  function FeedByte(crc: bv32, b: Byte): bv32 {
    Shifts(crc ^ (b as bv32), BitsPerByte)
  }

  /** The register after feeding all of `data`, starting from the initial register. */
  function Register(data: seq<Byte>): bv32 {
    if data == [] then InitialRegister
    else FeedByte(Register(data[..|data| - 1]), data[|data| - 1])
  }

  /** The CRC-32 of `data`. */
  function Crc(data: seq<Byte>): bv32 {
    Register(data) ^ FinalXor
  }

  /** The table index for register `crc` and input byte `b`: `(crc ^ byte) & 0xFF`. */
  function TableIndex(crc: bv32, b: Byte): (i: bv32)
    ensures i < 256
  {
    (crc ^ (b as bv32)) & 0xFF
  }

  /** One byte of the table-driven update: `(crc >> 8) ^ table[(crc ^ byte) & 0xFF]`. */
  function TableFeed(crc: bv32, b: Byte): bv32 {
    (crc >> 8) ^ Entry(TableIndex(crc, b))
  }

  lemma {:induction false} RepeatSucc(f: bv32 -> bv32, c: bv32, k: nat)
    ensures Repeat(f, c, k + 1) == f(Repeat(f, c, k))
    decreases k
  {
    if k > 0 {
      RepeatSucc(f, f(c), k - 1);
    }
  }

  // Bit-vector facts, each small enough for the solver on its own.

  lemma LowBit(a: bv32)
    ensures a & 1 == 0 || a & 1 == 1
  {
  }

  lemma EvenXorFacts(e: bv32, y: bv32)
    requires e & 1 == 0
    ensures (e ^ y) & 1 == y & 1 && (e ^ y) >> 1 == (e >> 1) ^ (y >> 1)
  {
  }

  lemma IndexRoundTrip(i: bv32)
    requires i < 256
    ensures i as int < TableSize && (i as int) as bv32 == i
  {
  }

  lemma FeedBytes(crc: bv32, b: Byte)
    ensures crc ^ (b as bv32) == Mix((crc ^ (b as bv32)) & 0xFFFF_FF00, TableIndex(crc, b))
    ensures ((crc ^ (b as bv32)) & 0xFFFF_FF00) & 0xFF == 0
    ensures ((crc ^ (b as bv32)) & 0xFFFF_FF00) >> 8 == crc >> 8
  {
  }

  lemma ShiftPairs(e: bv32)
    ensures (e >> 2) >> 2 == e >> 4 && (e >> 4) >> 4 == e >> 8
  {
  }

  lemma ClearLowByte(e: bv32)
    requires e & 0xFF == 0
    ensures e & 3 == 0 && (e >> 2) & 3 == 0 && (e >> 4) & 3 == 0 && ((e >> 4) >> 2) & 3 == 0
  {
  }

  /** Exclusive or, named so that quantified facts about it have a trigger. */
  function Mix(a: bv32, b: bv32): bv32 {
    a ^ b
  }

  /** The step `f` passes a part with a clear low bit straight through, shifted: it is linear there. */
  ghost predicate PassesClearLow(f: bv32 -> bv32) {
    forall e: bv32, y: bv32 {:trigger f(Mix(e, y))} ::
      e & 1 == 0 ==> f(Mix(e, y)) == Mix(e >> 1, f(y))
  }

  lemma XorAssoc(a: bv32, b: bv32, c: bv32)
    ensures (a ^ b) ^ c == a ^ (b ^ c)
  {
  }

  /** The fold depends only on the low bit. */
  lemma FoldLow(a: bv32, b: bv32)
    requires a & 1 == b & 1
    ensures Fold(a) == Fold(b)
  {
  }

  lemma ShiftEvenXor(e: bv32, y: bv32)
    requires e & 1 == 0
    ensures ShiftBit(Mix(e, y)) == Mix(e >> 1, ShiftBit(y))
  {
    EvenXorFacts(e, y);
    FoldLow(e ^ y, y);
    XorAssoc(e >> 1, y >> 1, Fold(y));
  }

  lemma ShiftBitPasses()
    ensures PassesClearLow(ShiftBit)
  {
    forall e: bv32, y: bv32 | e & 1 == 0
      ensures ShiftBit(Mix(e, y)) == Mix(e >> 1, ShiftBit(y))
    {
      ShiftEvenXor(e, y);
    }
  }

  /** `e` shifted right one bit at a time, `k` times. */
  function HighAfter(e: bv32, k: nat): bv32
    decreases k
  {
    if k == 0 then e else HighAfter(e >> 1, k - 1)
  }

  /** The low bit of `e` stays clear through the first `k` shifts. */
  ghost predicate ClearThrough(e: bv32, k: nat)
    decreases k
  {
    k == 0 || (e & 1 == 0 && ClearThrough(e >> 1, k - 1))
  }

  lemma {:induction false} HighAfterAdd(e: bv32, k: nat, m: nat)
    ensures HighAfter(e, k + m) == HighAfter(HighAfter(e, k), m)
    decreases k
  {
    if k > 0 {
      HighAfterAdd(e >> 1, k - 1, m);
    }
  }

  lemma HighAfterTwo(e: bv32)
    ensures HighAfter(e, 2) == e >> 2
  {
    assert HighAfter(e, 2) == (e >> 1) >> 1;
  }

  lemma HighAfterEight(e: bv32)
    ensures HighAfter(e, BitsPerByte) == e >> 8
  {
    HighAfterAdd(e, 2, 2);
    HighAfterTwo(e);
    HighAfterTwo(e >> 2);
    HighAfterAdd(e, 4, 4);
    HighAfterAdd(e >> 4, 2, 2);
    HighAfterTwo(e >> 4);
    HighAfterTwo((e >> 4) >> 2);
    ShiftPairs(e);
    ShiftPairs(e >> 4);
  }

  lemma {:induction false} ClearThroughAdd(e: bv32, k: nat, m: nat)
    requires ClearThrough(e, k) && ClearThrough(HighAfter(e, k), m)
    ensures ClearThrough(e, k + m)
    decreases k
  {
    if k > 0 {
      ClearThroughAdd(e >> 1, k - 1, m);
    }
  }

  lemma ClearThroughTwo(e: bv32)
    requires e & 3 == 0
    ensures ClearThrough(e, 2)
  {
    assert e & 1 == 0 && (e >> 1) & 1 == 0;
  }

  lemma ClearThroughEight(e: bv32)
    requires e & 0xFF == 0
    ensures ClearThrough(e, BitsPerByte)
  {
    ClearLowByte(e);
    ClearThroughTwo(e);
    ClearThroughTwo(e >> 2);
    ClearThroughTwo(e >> 4);
    ClearThroughTwo((e >> 4) >> 2);
    HighAfterTwo(e);
    HighAfterTwo(e >> 4);
    HighAfterAdd(e, 2, 2);
    ClearThroughAdd(e, 2, 2);
    ClearThroughAdd(e >> 4, 2, 2);
    HighAfterAdd(e, 4, 4);
    HighAfterTwo(e >> 2);
    ShiftPairs(e);
    ClearThroughAdd(e, 4, 4);
  }

  /** A part whose low bits stay clear rides along the steps, only shifted. */
  lemma {:induction false} RepeatAlong(f: bv32 -> bv32, x: bv32, l: bv32, e: bv32, k: nat)
    requires PassesClearLow(f)
    requires x == Mix(e, l) && ClearThrough(e, k)
    ensures Repeat(f, x, k) == Mix(HighAfter(e, k), Repeat(f, l, k))
    decreases k
  {
    if k > 0 {
      assert f(Mix(e, l)) == Mix(e >> 1, f(l));
      RepeatAlong(f, f(x), f(l), e >> 1, k - 1);
    }
  }

  /** Eight steps of a part with a clear low byte: only its upper bytes, moved down, remain. */
  lemma ByteAlong(f: bv32 -> bv32, crc: bv32, x: bv32, l: bv32, e: bv32)
    requires PassesClearLow(f)
    requires x == Mix(e, l) && e & 0xFF == 0 && e >> 8 == crc >> 8
    ensures (crc >> 8) ^ Repeat(f, l, BitsPerByte) == Repeat(f, x, BitsPerByte)
  {
    ClearThroughEight(e);
    HighAfterEight(e);
    RepeatAlong(f, x, l, e, BitsPerByte);
  }

  /** The table-driven byte update, for any step that passes a clear low bit through. */
  lemma FeedAlong(f: bv32 -> bv32, crc: bv32, b: Byte)
    requires PassesClearLow(f)
    ensures (crc >> 8) ^ Repeat(f, TableIndex(crc, b), BitsPerByte)
         == Repeat(f, crc ^ (b as bv32), BitsPerByte)
  {
    FeedBytes(crc, b);
    ByteAlong(f, crc, crc ^ (b as bv32), TableIndex(crc, b), (crc ^ (b as bv32)) & 0xFFFF_FF00);
  }

  /** The table-driven byte update computes exactly the bit-at-a-time update. */
  lemma TableFeedIsBitwise(crc: bv32, b: Byte)
    ensures TableFeed(crc, b) == FeedByte(crc, b)
  {
    ShiftBitPasses();
    FeedAlong(ShiftBit, crc, b);
  }

  /** The register after the table-driven loop over `data`, looking entries up in `table`. */
  function TableRegister(table: seq<bv32>, data: seq<Byte>): bv32
    requires |table| == TableSize
  {
    if data == [] then InitialRegister
    else
      var crc := TableRegister(table, data[..|data| - 1]);
      (crc >> 8) ^ table[TableIndex(crc, data[|data| - 1]) as int]
  }

  /** With the CRC table, the table-driven loop computes the bit-at-a-time register. */
  lemma {:induction false} TableRegisterIsRegister(table: seq<bv32>, data: seq<Byte>)
    requires IsCrcTable(table)
    ensures TableRegister(table, data) == Register(data)
  {
    if data != [] {
      var init := data[..|data| - 1];
      TableRegisterIsRegister(table, init);
      TableFeedIsBitwise(Register(init), data[|data| - 1]);
    }
  }

  /** The inner loop of `generate_crc_table`: eight conditional shifts of one byte value. */
  method ShiftByte(i: bv32) returns (crc: bv32)
    ensures crc == Entry(i)
  {
    crc := i;
    for j := 0 to BitsPerByte
      invariant crc == Shifts(i, j)
    {
      RepeatSucc(ShiftBit, i, j);
      if crc & 1 == 1 {
        crc := (crc >> 1) ^ Polynomial;
      } else {
        crc := crc >> 1;
      }
    }
  }

  /** `t` lists `g` of 0, 1, ..., |t| - 1. */
  ghost predicate Tabulates(t: seq<bv32>, g: int -> bv32) {
    forall k :: 0 <= k < |t| ==> t[k] == g(k)
  }

  lemma TabulatesAppend(t: seq<bv32>, g: int -> bv32, x: bv32)
    requires Tabulates(t, g) && x == g(|t|)
    ensures Tabulates(t + [x], g)
  {
  }

  /** The table entry at a list position. */
  ghost function EntryAt(k: int): bv32 {
    if 0 <= k < TableSize then Entry(k as bv32) else 0
  }

  /** `generate_crc_table`: each entry is its byte value shifted eight times. */
  method GenerateCrcTable() returns (table: seq<bv32>)
    ensures IsCrcTable(table)
    ensures table[0] == 0
  {
    table := [];
    for i := 0 to TableSize
      invariant |table| == i && Tabulates(table, EntryAt)
    {
      var crc := ShiftByte(i as bv32);
      TabulatesAppend(table, EntryAt, crc);
      table := table + [crc];
    }
    forall i: bv32 | i < 256
      ensures table[i as int] == Entry(i)
    {
      IndexRoundTrip(i);
    }
  }

  /** The `CRC32` object: the lookup table built once at construction. */
  class Calculator {
    const crcTable: seq<bv32>

    constructor()
      ensures IsCrcTable(crcTable)
    {
      var table := GenerateCrcTable();
      crcTable := table;
    }

    /** `calculate_crc`: the table-driven loop yields the CRC-32 of `data`. */
    method CalculateCrc(data: seq<Byte>) returns (crc: bv32)
      requires IsCrcTable(crcTable)
      ensures crc == Crc(data)
      ensures data == [] ==> crc == 0
    {
      crc := InitialRegister;
      for k := 0 to |data|
        invariant crc == TableRegister(crcTable, data[..k])
      {
        assert data[..k + 1][..k] == data[..k];
        crc := (crc >> 8) ^ crcTable[TableIndex(crc, data[k]) as int];
      }
      assert data[..|data|] == data;
      TableRegisterIsRegister(crcTable, data);
      crc := crc ^ FinalXor;
    }
  }
}
