/** What `CRC32Calc` (mcu/include/crc32calc.h) computes: a remainder by the polynomial of CRC-32; its check value. */
module CrcPolynomial {
  import opened Arith
  import opened BitStrings
  import opened Crc
  import opened Sequences

  // ---------- polynomials over one bit, highest coefficient first ----------

  /** x^32 + x^26 + x^23 + x^22 + x^16 + x^12 + x^11 + x^10 + x^8 + x^7 + x^5 + x^4 + x^2 + x + 1. */
  predicate Exponent(k: nat) {
    k == 32 || k == 26 || k == 23 || k == 22 || k == 16 || k == 12 || k == 11 || k == 10
    || k == 8 || k == 7 || k == 5 || k == 4 || k == 2 || k == 1 || k == 0
  }

  /** One step of the long division: the first coefficient goes, with a multiple of the divisor if it is 1. */
  function Reduced(p: seq<bool>): (r: seq<bool>)
    requires |p| > 32
    ensures |r| == |p| - 1
  {
    seq(|p| - 1, i requires 0 <= i < |p| - 1 => p[i + 1] != (p[0] && i < 32 && Exponent(31 - i)))
  }

  function Remainder(p: seq<bool>): seq<bool>
    decreases |p|
  {
    if |p| <= 32 then p else Remainder(Reduced(p))
  }

  // ---------- the register holds the highest coefficient in its lowest bit ----------

  function Bit(c: nat, i: nat): bool
    decreases i, c
  {
    if i == 0 then c % 2 == 1 else Bit(c / 2, i - 1)
  }

  function LowFirst(c: nat, n: nat): (p: seq<bool>)
    ensures |p| == n
  {
    seq(n, i requires 0 <= i < n => Bit(c, i))
  }

  lemma {:induction false} BitOfXor(a: nat, b: nat, i: nat)
    ensures Bit(BitXor(a, b), i) == (Bit(a, i) != Bit(b, i))
    decreases i
  {
    XorHalf(a, b);
    if i > 0 {
      BitOfXor(a / 2, b / 2, i - 1);
    }
  }

  lemma {:induction false} BitAbove(c: nat, n: nat, i: nat)
    requires c < Pow2(n) && n <= i
    ensures !Bit(c, i)
    decreases i
  {
    if n > 0 {
      BitAbove(c / 2, n - 1, i - 1);
    } else if i > 0 {
      BitAbove(0, 0, i - 1);
    }
  }

  lemma BitsAgain(c: nat, i: nat)
    requires i >= 8
    ensures Bit(c, i) == Bit(c / 256, i - 8)
  {
    BitAt(c, i);
    BitAt(c / 256, i - 8);
    Pow2Values();
    Pow2Add(i - 8, 8);
    SplitMod(c, Pow2(i - 8), 256);
  }

  lemma LowBits(c: nat, i: nat, b: seq<bool>)
    requires i < 8 && |b| == 8
    requires c % 2 == (if b[0] then 1 else 0)
    requires c / 2 % 2 == (if b[1] then 1 else 0)
    requires c / 4 % 2 == (if b[2] then 1 else 0)
    requires c / 8 % 2 == (if b[3] then 1 else 0)
    requires c / 16 % 2 == (if b[4] then 1 else 0)
    requires c / 32 % 2 == (if b[5] then 1 else 0)
    requires c / 64 % 2 == (if b[6] then 1 else 0)
    requires c / 128 % 2 == (if b[7] then 1 else 0)
    ensures Bit(c, i) == b[i]
  {
    BitAt(c, i);
  }

  lemma {:induction false} BitAt(c: nat, i: nat)
    ensures Bit(c, i) == (c / Pow2(i) % 2 == 1)
    decreases i
  {
    if i > 0 {
      BitAt(c / 2, i - 1);
      SplitMod(c, Pow2(i - 1), 2);
    }
  }
  lemma PolyFirst(i: nat)
    requires i < 8
    ensures Bit(POLY, i) == Exponent(31 - i)
  {
    LowBits(POLY, i, [false, false, false, false, false, true, false, false]);
  }

  lemma PolySecond(i: nat)
    requires 8 <= i < 16
    ensures Bit(POLY, i) == Exponent(31 - i)
  {
    BitsAgain(POLY, i);
    LowBits(POLY / 256, i - 8, [true, true, false, false, false, false, false, true]);
  }

  lemma PolyThird(i: nat)
    requires 16 <= i < 24
    ensures Bit(POLY, i) == Exponent(31 - i)
  {
    BitsAgain(POLY, i);
    BitsAgain(POLY / 256, i - 8);
    LowBits(POLY / 0x10000, i - 16, [false, false, false, true, true, true, false, true]);
  }

  lemma PolyFourth(i: nat)
    requires 24 <= i < 32
    ensures Bit(POLY, i) == Exponent(31 - i)
  {
    BitsAgain(POLY, i);
    BitsAgain(POLY / 256, i - 8);
    BitsAgain(POLY / 0x10000, i - 16);
    LowBits(POLY / 0x100_0000, i - 24, [true, false, true, true, false, true, true, true]);
  }

  /** The register's constant is the divisor below x^32. */
  lemma PolyBits(i: nat)
    ensures Bit(POLY, i) == (i < 32 && Exponent(31 - i))
  {
    if i < 8 {
      PolyFirst(i);
    } else if i < 16 {
      PolySecond(i);
    } else if i < 24 {
      PolyThird(i);
    } else if i < 32 {
      PolyFourth(i);
    } else {
      Pow2Values();
      BitAbove(POLY, 32, i);
    }
  }

  // ---------- the shifts are the division ----------

  lemma ShiftBit(c: nat, i: nat)
    ensures Bit(Shift(c), i) == (Bit(c, i + 1) != (c % 2 == 1 && i < 32 && Exponent(31 - i)))
  {
    BitOfXor(POLY, c / 2, i);
    PolyBits(i);
  }

  lemma ShiftReduces(c: nat, n: nat)
    requires n > 32
    ensures Reduced(LowFirst(c, n)) == LowFirst(Shift(c), n - 1)
  {
    var p := LowFirst(c, n);
    forall i | 0 <= i < n - 1
      ensures Reduced(p)[i] == LowFirst(Shift(c), n - 1)[i]
    {
      ShiftBit(c, i);
      assert p[0] == (c % 2 == 1) && p[i + 1] == Bit(c, i + 1);
    }
  }

  lemma {:induction false} ShiftsFirst(c: nat, n: nat)
    requires n > 0
    ensures Shifts(c, n) == Shifts(Shift(c), n - 1)
    decreases n
  {
    if n > 1 {
      ShiftsFirst(c, n - 1);
    } else {
      assert Shifts(c, n - 1) == c;
    }
  }

  /** Shifting a polynomial through the register leaves its remainder. */
  lemma {:induction false} ShiftsDivide(c: nat, n: nat)
    ensures LowFirst(Shifts(c, n), 32) == Remainder(LowFirst(c, n + 32))
    decreases n
  {
    if n > 0 {
      ShiftReduces(c, n + 32);
      ShiftsDivide(Shift(c), n - 1);
      ShiftsFirst(c, n);
    }
  }

  // ---------- the checksum of a message ----------

  /** The coefficients of a message: byte by byte, each from its lowest bit. */
  function Coefficients(data: seq<byte>): (p: seq<bool>)
    ensures |p| == 8 * |data|
    decreases |data|
  {
    if data == [] then [] else Coefficients(data[..|data| - 1]) + LowFirst(data[|data| - 1], 8)
  }

  /** The first 32 coefficients turned over. */
  function Complemented(p: seq<bool>): (r: seq<bool>)
    ensures |r| == |p|
  {
    seq(|p|, i requires 0 <= i < |p| => p[i] != (i < 32))
  }

  function Zeros(n: nat): (p: seq<bool>)
    ensures |p| == n
  {
    seq(n, _ => false)
  }

  lemma {:induction false} RaisedBit(b: nat, m: nat, i: nat)
    ensures Bit(Raised(b, m), i) == (i >= m && Bit(b, i - m))
    decreases i
  {
    if m > 0 {
      RaisedTwice(b, m);
      if i > 0 {
        RaisedBit(b, m - 1, i - 1);
      }
    }
  }

  lemma JoinedBit(b: nat, v: nat, m: nat, i: nat)
    requires v < Pow2(m)
    ensures Bit(Raised(b, m) + v, i) == if i < m then Bit(v, i) else Bit(b, i - m)
  {
    XorJoin(b, v, m);
    BitOfXor(Raised(b, m), v, i);
    RaisedBit(b, m, i);
    if i >= m {
      BitAbove(v, m, i);
    }
  }

  /** The number of a message has its coefficients. */
  lemma {:induction false} NumberBits(data: seq<byte>, n: nat)
    requires n == 8 * |data|
    ensures LowFirst(Number(data), n) == Coefficients(data)
    decreases |data|
  {
    if data != [] {
      var init, b, m := data[..|data| - 1], data[|data| - 1], n - 8;
      NumberBits(init, m);
      NumberBound(init);
      Joined(b, Number(init), m);
    }
  }

  lemma Joined(b: nat, v: nat, m: nat)
    requires v < Pow2(m)
    ensures LowFirst(Raised(b, m) + v, m + 8) == LowFirst(v, m) + LowFirst(b, 8)
  {
    forall i | 0 <= i < m + 8
      ensures LowFirst(Raised(b, m) + v, m + 8)[i] == (LowFirst(v, m) + LowFirst(b, 8))[i]
    {
      JoinedBit(b, v, m, i);
    }
  }

  lemma {:induction false} OnesBit(n: nat, i: nat)
    ensures Bit(Pow2(n) - 1, i) == (i < n)
    decreases i
  {
    if n == 0 {
      BitAbove(0, 0, i);
    } else if i > 0 {
      OnesBit(n - 1, i - 1);
    }
  }

  lemma OnesTurn(v: nat, n: nat, i: nat)
    requires v < Pow2(n)
    ensures Bit(BitXor(ONES, v), i) == ((i < n && Bit(v, i)) != (i < 32))
  {
    Pow2Values();
    BitOfXor(ONES, v, i);
    OnesBit(32, i);
    if i >= n {
      BitAbove(v, n, i);
    }
  }

  lemma Started(v: nat, n: nat)
    requires v < Pow2(n)
    ensures LowFirst(BitXor(ONES, v), n + 32) == Complemented(LowFirst(v, n) + Zeros(32))
  {
    var p := LowFirst(v, n) + Zeros(32);
    forall i | 0 <= i < n + 32
      ensures LowFirst(BitXor(ONES, v), n + 32)[i] == Complemented(p)[i]
    {
      OnesTurn(v, n, i);
    }
  }

  lemma Ended(r: nat)
    ensures LowFirst(BitXor(r, ONES), 32) == Complemented(LowFirst(r, 32))
  {
    Pow2Values();
    forall i | 0 <= i < 32
      ensures LowFirst(BitXor(r, ONES), 32)[i] == Complemented(LowFirst(r, 32))[i]
    {
      BitOfXor(r, ONES, i);
      OnesBit(32, i);
    }
  }

  /** The 32 coefficients name the checksum: no other DWORD has them. */
  lemma {:induction false} SameBits(c: nat, d: nat, n: nat)
    requires c < Pow2(n) && d < Pow2(n) && forall i :: 0 <= i < n ==> Bit(c, i) == Bit(d, i)
    ensures c == d
    decreases n
  {
    if n > 0 {
      assert Bit(c, 0) == Bit(d, 0);
      assert forall i :: 0 <= i < n - 1 ==> Bit(c / 2, i) == Bit(c, i + 1) && Bit(d / 2, i) == Bit(d, i + 1);
      SameBits(c / 2, d / 2, n - 1);
    }
  }

  /** The message times x^32, its first 32 coefficients turned over. */
  function Dividend(data: seq<byte>): seq<bool> {
    Complemented(Coefficients(data) + Zeros(32))
  }

  lemma ChecksumBits(data: seq<byte>)
    ensures LowFirst(Crc32(0, data), 32) == Complemented(Remainder(Dividend(data)))
  {
    var v, n := Number(data), 8 * |data|;
    XorComm(0, ONES);
    XorZero(ONES);
    RegisterDivides(ONES, data);
    NumberBound(data);
    NumberBits(data, n);
    Started(v, n);
    ShiftsDivide(BitXor(ONES, v), n);
    Ended(Shifts(BitXor(ONES, v), n));
  }

  /**
    The checksum of a message is the DWORD whose bits, lowest first, are the remainder of the message divided by the
    polynomial, turned over.
  */
  lemma ChecksumIsRemainder(data: seq<byte>, c: nat)
    requires c < 0x1_0000_0000
    ensures c == Crc32(0, data) <==> LowFirst(c, 32) == Complemented(Remainder(Dividend(data)))
  {
    var d := Crc32(0, data);
    ChecksumBits(data);
    CrcBound(0, data);
    Pow2Values();
    if LowFirst(c, 32) == LowFirst(d, 32) {
      forall i | 0 <= i < 32
        ensures Bit(c, i) == Bit(d, i)
      {
        assert LowFirst(c, 32)[i] == LowFirst(d, 32)[i];
      }
      SameBits(c, d, 32);
    }
  }

  // ---------- the check value ----------

  /** What turning over the bit `p` adds. */
  function Flip(h: nat, p: nat): int
    requires p > 0
  {
    if h / p % 2 == 1 then 0 - p else p
  }

  lemma {:induction false} FlipMore(h: nat, b: nat, i: nat)
    requires b < Pow2(i)
    ensures BitXor(h, b + Pow2(i)) == BitXor(h, b) + Flip(h, Pow2(i))
    decreases i
  {
    if i == 0 {
      XorZero(h / 2);
      XorZero(h);
    } else {
      FlipMore(h / 2, b / 2, i - 1);
      SplitMod(h, Pow2(i - 1), 2);
    }
  }

  lemma FlipAt(h: nat, b: nat, i: nat, p: nat)
    requires b < p == Pow2(i)
    ensures BitXor(h, b + p) == BitXor(h, b) + Flip(h, p)
  {
    FlipMore(h, b, i);
  }

  lemma PowersOfTwo()
    ensures Pow2(5) == 0x20 && Pow2(8) == 0x100 && Pow2(9) == 0x200 && Pow2(15) == 0x8000
    ensures Pow2(19) == 0x8_0000 && Pow2(20) == 0x10_0000 && Pow2(21) == 0x20_0000 && Pow2(23) == 0x80_0000
    ensures Pow2(24) == 0x100_0000 && Pow2(26) == 0x400_0000 && Pow2(27) == 0x800_0000
    ensures Pow2(29) == 0x2000_0000 && Pow2(30) == 0x4000_0000 && Pow2(31) == 0x8000_0000
  {
  }

  lemma PolyLowFlips(h: nat)
    ensures BitXor(h, 0x38_8320) == h + Flip(h, 0x20) + Flip(h, 0x100) + Flip(h, 0x200) + Flip(h, 0x8000)
      + Flip(h, 0x8_0000) + Flip(h, 0x10_0000) + Flip(h, 0x20_0000)
  {
    PowersOfTwo();
    XorZero(h);
    FlipAt(h, 0, 5, 0x20);
    FlipAt(h, 0x20, 8, 0x100);
    FlipAt(h, 0x120, 9, 0x200);
    FlipAt(h, 0x320, 15, 0x8000);
    FlipAt(h, 0x8320, 19, 0x8_0000);
    FlipAt(h, 0x8_8320, 20, 0x10_0000);
    FlipAt(h, 0x18_8320, 21, 0x20_0000);
  }

  lemma PolyFlips(h: nat)
    requires h < 0x8000_0000
    ensures BitXor(POLY, h) == h + PolyAdded(h)
  {
    PowersOfTwo();
    PolyLowFlips(h);
    FlipAt(h, 0x38_8320, 23, 0x80_0000);
    FlipAt(h, 0xB8_8320, 24, 0x100_0000);
    FlipAt(h, 0x1B8_8320, 26, 0x400_0000);
    FlipAt(h, 0x5B8_8320, 27, 0x800_0000);
    FlipAt(h, 0xDB8_8320, 29, 0x2000_0000);
    FlipAt(h, 0x2DB8_8320, 30, 0x4000_0000);
    FlipAt(h, 0x6DB8_8320, 31, 0x8000_0000);
    XorComm(POLY, h);
  }

  /** What adding the polynomial adds. */
  function PolyAdded(h: nat): int {
    Flip(h, 0x20) + Flip(h, 0x100) + Flip(h, 0x200) + Flip(h, 0x8000) + Flip(h, 0x8_0000) + Flip(h, 0x10_0000)
    + Flip(h, 0x20_0000) + Flip(h, 0x80_0000) + Flip(h, 0x100_0000) + Flip(h, 0x400_0000) + Flip(h, 0x800_0000)
    + Flip(h, 0x2000_0000) + Flip(h, 0x4000_0000) + 0x8000_0000
  }

  /** One shift, in numbers. */
  predicate Moves(c: nat, d: nat) {
    d == c / 2 + if c % 2 == 1 then PolyAdded(c / 2) else 0
  }

  lemma MovesShift(c: nat, d: nat)
    requires c < 0x1_0000_0000 && Moves(c, d)
    ensures d == Shift(c) && d < 0x1_0000_0000
  {
    Pow2Values();
    if c % 2 == 1 {
      PolyFlips(c / 2);
    }
    if c > 0 {
      ShiftKeeps(c);
    }
  }

  /** A byte added to the register, bit by bit. */
  predicate Added(r: nat, b: nat, x: nat)
    decreases b
  {
    if b == 0 then x == r
    else x % 2 == (if r % 2 != b % 2 then 1 else 0) && Added(r / 2, b / 2, x / 2)
  }

  lemma {:induction false} AddedXor(r: nat, b: nat, x: nat)
    requires Added(r, b, x)
    ensures x == BitXor(r, b)
    decreases b
  {
    if b == 0 {
      XorZero(r);
    } else {
      AddedXor(r / 2, b / 2, x / 2);
    }
  }

  /** The register after the first `k` bytes. */
  predicate Stands(data: seq<byte>, k: nat, r: nat)
  {
    k <= |data| && Register(ONES, data[..k]) == r < 0x1_0000_0000
  }

  ghost predicate Run(ds: seq<nat>) {
    forall i :: 0 <= i < |ds| - 1 ==> Moves(ds[i], ds[i + 1])
  }

  lemma {:induction false} RunShifts(ds: seq<nat>, n: nat)
    requires n < |ds| && ds[0] < 0x1_0000_0000 && Run(ds)
    ensures ds[n] == Shifts(ds[0], n) < 0x1_0000_0000
    decreases n
  {
    if n > 0 {
      RunShifts(ds, n - 1);
      MovesShift(ds[n - 1], ds[n - 1 + 1]);
    }
  }

  lemma NextByte(data: seq<byte>, k: nat, r: nat, ds: seq<nat>)
    requires Stands(data, k, r) && k < |data|
    requires |ds| == 9 && Added(r, data[k], ds[0]) && Run(ds)
    ensures Stands(data, k + 1, ds[8])
  {
    Pow2Values();
    AddedXor(r, data[k], ds[0]);
    XorBound(r, data[k], 32);
    RunShifts(ds, 8);
    OneFurther(data, k);
    assert data[..k + 1][..k] == data[..k];
  }

  lemma OneByte(
    data: seq<byte>, k: nat, r: nat,
    c0: nat, c1: nat, c2: nat, c3: nat, c4: nat, c5: nat, c6: nat, c7: nat, c8: nat
  )
    requires Stands(data, k, r) && k < |data| && Added(r, data[k], c0)
    requires Moves(c0, c1) && Moves(c1, c2) && Moves(c2, c3) && Moves(c3, c4)
    requires Moves(c4, c5) && Moves(c5, c6) && Moves(c6, c7) && Moves(c7, c8)
    ensures Stands(data, k + 1, c8)
  {
    NextByte(data, k, r, [c0, c1, c2, c3, c4, c5, c6, c7, c8]);
  }

  lemma Digit1(data: seq<byte>)
    requires |data| == 9 && data[0] == 0x31
    ensures Stands(data, 1, 0x7C23_1048)
  {
    OneByte(
      data, 0, ONES,
      0xFFFF_FFCE, 0x7FFF_FFE7, 0xD247_7CD3, 0x849B_3D49, 0xAFF5_1D84,
      0x57FA_8EC2, 0x2BFD_4761, 0xF846_2090, 0x7C23_1048
    );
  }

  lemma Digit2(data: seq<byte>)
    requires |data| == 9 && data[1] == 0x32 && Stands(data, 1, 0x7C23_1048)
    ensures Stands(data, 2, 0xB0AC_BB32)
  {
    OneByte(
      data, 1, 0x7C23_1048,
      0x7C23_107A, 0x3E11_883D, 0xF2B0_473E, 0x7958_239F, 0xD114_92EF,
      0x8532_CA57, 0xAF21_E60B, 0xBA28_7025, 0xB0AC_BB32
    );
  }

  lemma Digit3(data: seq<byte>)
    requires |data| == 9 && data[2] == 0x33 && Stands(data, 2, 0xB0AC_BB32)
    ensures Stands(data, 3, 0x77B7_9C2D)
  {
    OneByte(
      data, 2, 0xB0AC_BB32,
      0xB0AC_BB01, 0xB5EE_DEA0, 0x5AF7_6F50, 0x2D7B_B7A8, 0x16BD_DBD4,
      0xB5E_EDEA, 0x5AF_76F5, 0xEF6F_385A, 0x77B7_9C2D
    );
  }

  lemma Digit4(data: seq<byte>)
    requires |data| == 9 && data[3] == 0x34 && Stands(data, 3, 0x77B7_9C2D)
    ensures Stands(data, 4, 0x641C_1F5C)
  {
    OneByte(
      data, 3, 0x77B7_9C2D,
      0x77B7_9C19, 0xD663_4D2C, 0x6B31_A696, 0x3598_D34B, 0xF774_EA85,
      0x9602_F662, 0x4B01_7B31, 0xC838_3EB8, 0x641C_1F5C
    );
  }

  lemma Digit5(data: seq<byte>)
    requires |data| == 9 && data[4] == 0x35 && Stands(data, 4, 0x641C_1F5C)
    ensures Stands(data, 5, 0x340A_C5E3)
  {
    OneByte(
      data, 4, 0x641C_1F5C,
      0x641C_1F69, 0xDFB6_8C94, 0x6FDB_464A, 0x37ED_A325, 0xF64E_52B2,
      0x7B27_2959, 0xD02B_178C, 0x6815_8BC6, 0x340A_C5E3
    );
  }

  lemma Digit6(data: seq<byte>)
    requires |data| == 9 && data[5] == 0x36 && Stands(data, 5, 0x340A_C5E3)
    ensures Stands(data, 6, 0xF68D_2C9E)
  {
    OneByte(
      data, 5, 0x340A_C5E3,
      0x340A_C5D5, 0xF7BD_E1CA, 0x7BDE_F0E5, 0xD057_FB52, 0x682B_FDA9,
      0xD9AD_7DF4, 0x6CD6_BEFA, 0x366B_5F7D, 0xF68D_2C9E
    );
  }

  lemma Digit7(data: seq<byte>)
    requires |data| == 9 && data[6] == 0x37 && Stands(data, 6, 0xF68D_2C9E)
    ensures Stands(data, 7, 0xAFFC_9660)
  {
    OneByte(
      data, 6, 0xF68D_2C9E,
      0xF68D_2CA9, 0x96FE_1574, 0x4B7F_0ABA, 0x25BF_855D, 0xFF67_418E,
      0x7FB3_A0C7, 0xD261_5343, 0x8488_2A81, 0xAFFC_9660
    );
  }

  lemma Digit8(data: seq<byte>)
    requires |data| == 9 && data[7] == 0x38 && Stands(data, 7, 0xAFFC_9660)
    ensures Stands(data, 8, 0x651F_2550)
  {
    OneByte(
      data, 7, 0xAFFC_9660,
      0xAFFC_9658, 0x57FE_4B2C, 0x2BFF_2596, 0x15FF_92CB, 0xE747_4A45,
      0x9E1B_2602, 0x4F0D_9301, 0xCA3E_4AA0, 0x651F_2550
    );
  }

  lemma Digit9(data: seq<byte>)
    requires |data| == 9 && data[8] == 0x39 && Stands(data, 8, 0x651F_2550)
    ensures Stands(data, 9, 0x340B_C6D9)
  {
    OneByte(
      data, 8, 0x651F_2550,
      0x651F_2569, 0xDF37_1194, 0x6F9B_88CA, 0x37CD_C465, 0xF65E_6112,
      0x7B2F_3089, 0xD02F_1B64, 0x6817_8DB2, 0x340B_C6D9
    );
  }

  /** The checksum of the digits 1 to 9. */
  lemma CheckValue(data: seq<byte>)
    requires |data| == 9 && forall i :: 0 <= i < 9 ==> data[i] == 0x31 + i
    ensures Crc32(0, data) == 0xCBF4_3926
  {
    Digit1(data);
    Digit2(data);
    Digit3(data);
    Digit4(data);
    Digit5(data);
    Digit6(data);
    Digit7(data);
    Digit8(data);
    Digit9(data);
    Finished(data, 0x340B_C6D9);
  }

  lemma Finished(data: seq<byte>, r: nat)
    requires Stands(data, |data|, r)
    ensures Crc32(0, data) == ONES - r
  {
    Pow2Values();
    Whole(data);
    XorComm(0, ONES);
    XorZero(ONES);
    Turned(r, 32);
  }

  lemma {:induction false} Turned(r: nat, n: nat)
    requires r < Pow2(n)
    ensures BitXor(r, Pow2(n) - 1) == Pow2(n) - 1 - r
    decreases n
  {
    if n > 0 {
      Turned(r / 2, n - 1);
    }
  }
}
