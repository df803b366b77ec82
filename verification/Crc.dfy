/**
  `CRC32Calc` (mcu/include/crc32calc.h): the table-driven CRC-32 against a shift register that takes one bit at a
  time.  A DWORD is a number below 2^32, `c >> 8` is a quotient and `c & 0xFF` a remainder.
*/
module Crc {
  import opened Arith
  import opened BitStrings
  import opened Sequences

  const POLY := 0xEDB8_8320
  const ONES := 0xFFFF_FFFF

  // ---------- the shift register ----------

  /** One shift of the register. */
  function Shift(c: nat): nat {
    if c % 2 == 1 then BitXor(POLY, c / 2) else c / 2
  }

  function Shifts(c: nat, n: nat): nat
    decreases n, c
  {
    if n == 0 then c else Shift(Shifts(c, n - 1))
  }

  /** The register after a byte string: each byte is added at the low end and shifted through. */
  function Register(c: nat, data: seq<byte>): nat
    decreases |data|
  {
    if data == [] then c else Shifts(BitXor(Register(c, data[..|data| - 1]), data[|data| - 1]), 8)
  }

  /** CRC-32 continued from `crc`: between calls the register is kept complemented. */
  function Crc32(crc: nat, data: seq<byte>): nat {
    BitXor(Register(BitXor(crc, ONES), data), ONES)
  }

  /** Checksums add up: a message may be fed in pieces. */
  lemma CrcConcat(crc: nat, a: seq<byte>, b: seq<byte>)
    ensures Crc32(Crc32(crc, a), b) == Crc32(crc, a + b)
  {
    BitStrings.XorCancel(Register(BitXor(crc, ONES), a), ONES);
    RegisterConcat(BitXor(crc, ONES), a, b);
  }

  lemma {:induction false} RegisterConcat(c: nat, a: seq<byte>, b: seq<byte>)
    ensures Register(Register(c, a), b) == Register(c, a + b)
    decreases |b|
  {
    if b == [] {
      assert a + b == a;
    } else {
      RegisterConcat(c, a, b[..|b| - 1]);
      SnocConcat(a, b);
    }
  }

  // ---------- the register is linear ----------

  lemma XorPair(p: nat, u: nat, v: nat)
    ensures BitXor(BitXor(p, u), BitXor(p, v)) == BitXor(u, v)
    ensures BitXor(BitXor(p, u), v) == BitXor(p, BitXor(u, v)) == BitXor(u, BitXor(p, v))
  {
    XorAssoc(p, u, v);
    XorComm(p, u);
    XorAssoc(u, p, v);
    XorAssoc(u, p, BitXor(p, v));
    XorAssoc(p, p, v);
    XorSelf(p);
    XorComm(0, v);
    XorZero(v);
  }

  lemma ShiftLinear(a: nat, b: nat)
    ensures Shift(BitXor(a, b)) == BitXor(Shift(a), Shift(b))
  {
    XorHalf(a, b);
    XorPair(POLY, a / 2, b / 2);
  }

  lemma {:induction false} ShiftsLinear(a: nat, b: nat, n: nat)
    ensures Shifts(BitXor(a, b), n) == BitXor(Shifts(a, n), Shifts(b, n))
    decreases n
  {
    if n > 0 {
      ShiftsLinear(a, b, n - 1);
      ShiftLinear(Shifts(a, n - 1), Shifts(b, n - 1));
    }
  }

  lemma {:induction false} ShiftsAdd(c: nat, m: nat, n: nat)
    ensures Shifts(c, m + n) == Shifts(Shifts(c, m), n)
    decreases n
  {
    if n > 0 {
      ShiftsAdd(c, m, n - 1);
    }
  }

  /** `v << n` without a limit. */
  function Raised(v: nat, n: nat): nat {
    MulMono(0, v, Pow2(n));
    v * Pow2(n)
  }

  lemma RaisedTwice(h: nat, n: nat)
    requires n > 0
    ensures Raised(2 * h, n - 1) == Raised(h, n) == 2 * Raised(h, n - 1)
  {
    MulThree(2, h, Pow2(n - 1));
    Double(h, Pow2(n - 1));
  }

  lemma Parts(x: nat, n: nat)
    ensures x == Raised(Shr(x, n), n) + x % Pow2(n) && 0 <= x % Pow2(n) < Pow2(n)
  {
  }

  /** Zero bits are shifted out without a trace. */
  lemma {:induction false} ShiftsOut(h: nat, n: nat)
    ensures Shifts(Raised(h, n), n) == h
    decreases n
  {
    if n > 0 {
      ShiftsOut(2 * h, n - 1);
      RaisedTwice(h, n);
    }
  }

  /** Disjoint bits: exclusive-or is their sum. */
  lemma {:induction false} XorJoin(a: nat, b: nat, n: nat)
    requires b < Pow2(n)
    ensures BitXor(Raised(a, n), b) == Raised(a, n) + b
    decreases n
  {
    if n == 0 {
      XorZero(a);
    } else {
      RaisedTwice(a, n);
      XorJoin(a, b / 2, n - 1);
    }
  }

  lemma {:induction false} XorHigh(c: nat, b: nat, n: nat)
    requires b < Pow2(n)
    ensures Shr(BitXor(c, b), n) == Shr(c, n)
    decreases n
  {
    if n == 0 {
      XorZero(c);
    } else {
      XorHalf(c, b);
      XorHigh(c / 2, b / 2, n - 1);
      SplitMod(c, Pow2(n - 1), 2);
      SplitMod(BitXor(c, b), Pow2(n - 1), 2);
    }
  }

  /** A step of the table-driven loop is the byte shifted through: the table holds the shifts of the low byte. */
  lemma TableStep(c: nat, b: nat, n: nat)
    requires b < Pow2(n)
    ensures Shifts(BitXor(c, b), n) == BitXor(Shifts(BitXor(c, b) % Pow2(n), n), Shr(c, n))
  {
    var x := BitXor(c, b);
    var low, high := x % Pow2(n), Shr(x, n);
    Parts(x, n);
    XorHigh(c, b, n);
    XorJoin(high, low, n);
    XorComm(Raised(high, n), low);
    ShiftsLinear(low, Raised(high, n), n);
    ShiftsOut(high, n);
  }

  // ---------- the register loses nothing ----------

  lemma HighPoly(c: nat)
    requires c < Pow2(31)
    ensures Pow2(31) <= BitXor(POLY, c) < Pow2(32)
  {
    Pow2Values();
    if BitXor(POLY, c) < Pow2(31) {
      XorBound(BitXor(POLY, c), c, 31);
      BitStrings.XorCancel(POLY, c);
    }
    XorBound(POLY, c, 32);
  }

  /** Within 32 bits a shift loses nothing: only 0 is shifted to 0. */
  lemma ShiftKeeps(c: nat)
    requires 0 < c < Pow2(32)
    ensures 0 < Shift(c) < Pow2(32)
  {
    if c % 2 == 1 {
      HighPoly(c / 2);
    }
  }

  lemma {:induction false} ShiftsKeep(c: nat, n: nat)
    requires 0 < c < Pow2(32)
    ensures 0 < Shifts(c, n) < Pow2(32)
    decreases n
  {
    if n > 0 {
      ShiftsKeep(c, n - 1);
      ShiftKeeps(Shifts(c, n - 1));
    }
  }

  /** The register stays a DWORD. */
  lemma {:induction false} RegisterBound(c: nat, data: seq<byte>)
    requires c < Pow2(32)
    ensures Register(c, data) < Pow2(32)
    decreases |data|
  {
    if data != [] {
      var r, b := Register(c, data[..|data| - 1]), data[|data| - 1];
      RegisterBound(c, data[..|data| - 1]);
      XorBound(r, b, 32);
      if BitXor(r, b) == 0 { ShiftsZero(8); } else { ShiftsKeep(BitXor(r, b), 8); }
    }
  }

  lemma CrcBound(crc: nat, data: seq<byte>)
    requires crc < 0x1_0000_0000
    ensures Crc32(crc, data) < 0x1_0000_0000
  {
    Pow2Values();
    XorBound(crc, ONES, 32);
    RegisterBound(BitXor(crc, ONES), data);
    XorBound(Register(BitXor(crc, ONES), data), ONES, 32);
  }

  lemma {:induction false} ShiftsZero(n: nat)
    ensures Shifts(0, n) == 0
    decreases n
  {
    if n > 0 {
      ShiftsZero(n - 1);
    }
  }

  // ---------- the class ----------

  /** The static members of `CRC32Calc`. */
  class Statics {
    const table: array<nat>
    var inited: bool

    constructor ()
      ensures fresh(table) && table.Length == 256 && !inited
    {
      table := new nat[256];
      inited := false;
    }

    ghost predicate Valid()
      reads this, table
    {
      table.Length == 256 && (inited ==> forall i :: 0 <= i < 256 ==> table[i] == Shifts(i, 8))
    }
  }

  class Crc32Calc {
    const shared: Statics
    var crc: nat

    ghost predicate Valid()
      reads this, shared, shared.table
    {
      shared.Valid() && shared.inited && crc < 0x1_0000_0000
    }

    constructor (shared: Statics)
      requires shared.Valid()
      modifies shared, shared.table
      ensures Valid() && this.shared == shared && crc == 0
    {
      this.shared := shared;
      crc := 0;
      new;
      if !shared.inited {
        FillTable(shared.table);
        shared.inited := true;
      }
    }

    static method FillTable(table: array<nat>)
      requires table.Length == 256
      modifies table
      ensures forall i :: 0 <= i < 256 ==> table[i] == Shifts(i, 8)
    {
      for i := 0 to 256
        invariant forall k :: 0 <= k < i ==> table[k] == Shifts(k, 8)
      {
        var c := i;
        for j := 0 to 8
          invariant c == Shifts(i, j)
        {
          if c % 2 == 1 {
            c := BitXor(POLY, c / 2);
          } else {
            c := c / 2;
          }
        }
        table[i] := c;
      }
    }

    method Update(data: array<byte>, size: nat) returns (r: nat)
      requires Valid() && size <= data.Length
      modifies this`crc
      ensures Valid() && r == crc == Crc32(old(crc), data[..size])
    {
      var start := BitXor(crc, ONES);
      var c := start;
      for i := 0 to size
        invariant crc == old(crc) && c == Register(start, data[..i])
      {
        c := Step(c, data[i]);
        assert data[..i + 1][..i] == data[..i];
      }
      CrcBound(crc, data[..size]);
      crc := BitXor(c, ONES);
      r := crc;
    }

    /** `table[(c ^ b) & 0xFF] ^ (c >> 8)`. */
    method Step(c: nat, b: byte) returns (r: nat)
      requires Valid()
      ensures r == Shifts(BitXor(c, b), 8)
    {
      Pow2Values();
      TableStep(c, b, 8);
      r := BitXor(shared.table[BitXor(c, b) % 256], c / 256);
    }
  }

  // ---------- what the checksum is ----------

  /** The message as one number, first byte lowest. */
  function Number(data: seq<byte>): nat
    decreases |data|
  {
    if data == [] then 0 else Raised(data[|data| - 1], 8 * (|data| - 1)) + Number(data[..|data| - 1])
  }

  lemma {:induction false} NumberBound(data: seq<byte>)
    ensures Number(data) < Pow2(8 * |data|)
    decreases |data|
  {
    if data != [] {
      NumberBound(data[..|data| - 1]);
      TopByte(Number(data[..|data| - 1]), data[|data| - 1], 8 * (|data| - 1));
    }
  }

  lemma TopByte(v: nat, b: int, m: nat)
    requires v < Pow2(m) && 0 <= b < 256
    ensures Raised(b, m) + v < Pow2(m + 8)
  {
    Pow2Values();
    Pow2Add(8, m);
    MulMono(b + 1, 256, Pow2(m));
    assert (b + 1) * Pow2(m) == b * Pow2(m) + Pow2(m);
  }

  /** The register divides: the bytes fed in one by one leave what the whole message leaves, shifted through at once. */
  lemma RegisterDivides(c: nat, data: seq<byte>)
    ensures Register(c, data) == Shifts(BitXor(c, Number(data)), 8 * |data|)
  {
    DividesAt(c, data, 8 * |data|);
  }

  lemma {:induction false} DividesAt(c: nat, data: seq<byte>, n: nat)
    requires n == 8 * |data|
    ensures Register(c, data) == Shifts(BitXor(c, Number(data)), n)
    decreases |data|
  {
    if data == [] {
      XorZero(c);
    } else {
      var init := data[..|data| - 1];
      DividesAt(c, init, n - 8);
      DividesOneMore(c, data, init, n - 8);
    }
  }

  lemma DividesOneMore(c: nat, data: seq<byte>, init: seq<byte>, m: nat)
    requires data != [] && init == data[..|data| - 1] && m == 8 * |init|
    requires Register(c, init) == Shifts(BitXor(c, Number(init)), m)
    ensures Register(c, data) == Shifts(BitXor(c, Number(data)), m + 8)
  {
    NumberBound(init);
    LastIn(c, Number(init), data[|data| - 1], m);
  }

  lemma LastIn(c: nat, v: nat, b: nat, m: nat)
    requires v < Pow2(m)
    ensures Shifts(BitXor(Shifts(BitXor(c, v), m), b), 8) == Shifts(BitXor(c, Raised(b, m) + v), m + 8)
  {
    var top := Raised(b, m);
    ShiftsOut(b, m);
    ShiftsLinear(BitXor(c, v), top, m);
    XorAssoc(c, v, top);
    XorComm(v, top);
    XorJoin(b, v, m);
    ShiftsAdd(BitXor(c, top + v), m, 8);
  }

  // ---------- which errors it finds ----------

  lemma Within(e: nat, j: nat, n: nat)
    requires 0 < e && Raised(e, j) < Pow2(n)
    ensures j < n
  {
    if j >= n {
      Pow2Mono(n, j);
      MulMono(1, e, Pow2(j));
    }
  }

  /** The difference of two checksums is the shifted difference of the messages. */
  lemma Difference(crc: nat, a: seq<byte>, b: seq<byte>)
    requires |a| == |b|
    ensures BitXor(Crc32(crc, a), Crc32(crc, b)) == Shifts(BitXor(Number(a), Number(b)), 8 * |a|)
  {
    var c, n := BitXor(crc, ONES), 8 * |a|;
    RegisterDivides(c, a);
    RegisterDivides(c, b);
    var x, y := Register(c, a), Register(c, b);
    XorComm(x, ONES);
    XorComm(y, ONES);
    XorPair(ONES, x, y);
    ShiftsLinear(BitXor(c, Number(a)), BitXor(c, Number(b)), n);
    XorPair(c, Number(a), Number(b));
  }

  /** Every error burst is found: messages that differ only within 32 neighbouring bits have different checksums. */
  lemma BurstFound(crc: nat, a: seq<byte>, b: seq<byte>, e: nat, j: nat)
    requires |a| == |b| && 0 < e < Pow2(32) && BitXor(Number(a), Number(b)) == Raised(e, j)
    ensures Crc32(crc, a) != Crc32(crc, b)
  {
    var n := 8 * |a|;
    NumberBound(a);
    NumberBound(b);
    XorBound(Number(a), Number(b), n);
    Within(e, j, n);
    Difference(crc, a, b);
    BurstLeft(e, j, n);
    XorSelf(Crc32(crc, a));
  }

  lemma BurstLeft(e: nat, j: nat, n: nat)
    requires 0 < e < Pow2(32) && j <= n
    ensures Shifts(Raised(e, j), n) > 0
  {
    var k := n - j;
    ShiftsAdd(Raised(e, j), j, k);
    ShiftsOut(e, j);
    ShiftsKeep(e, k);
  }
}
