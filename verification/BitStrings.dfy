/** Bit strings, most significant bit first, and the machine words and bytes that hold them. */
module BitStrings {
  import opened Arith
  import opened Sequences

  type byte = x: int | 0 <= x < 256

  function Pow2(n: nat): (r: nat)
    ensures r > 0
  {
    if n == 0 then 1 else 2 * Pow2(n - 1)
  }

  lemma {:induction false} Pow2Add(m: nat, n: nat)
    ensures Pow2(m + n) == Pow2(m) * Pow2(n)
    decreases n
  {
    if n > 0 {
      Pow2Add(m, n - 1);
      Double(Pow2(m), Pow2(n - 1));
    }
  }

  lemma Pow2Mono(n: nat, l: nat)
    requires n <= l
    ensures Pow2(n) <= Pow2(l)
  {
    Pow2Add(l - n, n);
    MulMono(1, Pow2(l - n), Pow2(n));
  }

  lemma Pow2Values()
    ensures Pow2(7) == 128 && Pow2(8) == 0x100 && Pow2(16) == 0x10000 && Pow2(32) == 0x1_0000_0000
  {
    Pow2Add(8, 8);
    Pow2Add(16, 16);
  }

  /** The `n` low bits of `v`. */
  function Bits(v: nat, n: nat): (b: seq<bool>)
    ensures |b| == n
    decreases n, v
  {
    if n == 0 then [] else Bits(v / 2, n - 1) + [v % 2 == 1]
  }

  /** The number a bit string denotes. */
  function Val(b: seq<bool>): nat
    decreases |b|
  {
    if b == [] then 0 else 2 * Val(b[..|b| - 1]) + if b[|b| - 1] then 1 else 0
  }

  lemma {:induction false} ValBits(v: nat, n: nat)
    ensures Val(Bits(v, n)) == v % Pow2(n)
    decreases n
  {
    if n > 0 {
      ValBits(v / 2, n - 1);
      SplitMod(v, Pow2(n - 1), 2);
      assert Bits(v, n)[..n - 1] == Bits(v / 2, n - 1);
    }
  }

  lemma {:induction false} BitsMod(v: nat, n: nat)
    ensures Bits(v % Pow2(n), n) == Bits(v, n)
    decreases n
  {
    if n > 0 {
      SplitMod(v, Pow2(n - 1), 2);
      var r := v % Pow2(n);
      assert r / 2 == v / 2 % Pow2(n - 1) && r % 2 == v % 2;
      BitsMod(v / 2, n - 1);
    }
  }

  /** `v >> n`. */
  function Shr(v: nat, n: nat): nat {
    QuotientNat(v, Pow2(n));
    v / Pow2(n)
  }

  lemma ShrShr(v: nat, a: nat, b: nat)
    ensures Shr(v, a + b) == Shr(Shr(v, a), b)
  {
    Pow2Add(b, a);
    SplitMod(v, Pow2(b), Pow2(a));
  }

  lemma ShrBound(v: nat, n: nat, m: nat)
    requires v < Pow2(m + n)
    ensures Shr(v, n) < Pow2(m)
  {
    Pow2Add(m, n);
    QuotientBelow(v, Pow2(m), Pow2(n));
  }

  /** High bits, then low bits. */
  lemma {:induction false} BitsSplit(v: nat, m: nat, n: nat)
    ensures Bits(v, m + n) == Bits(Shr(v, n), m) + Bits(v, n)
    decreases n
  {
    if n > 0 {
      BitsSplit(v / 2, m, n - 1);
      SplitMod(v, Pow2(n - 1), 2);
    } else {
      assert Bits(v, m) + [] == Bits(v, m);
    }
  }

  /** Writing `b` below `a`. */
  lemma BitsJoin(a: nat, b: nat, m: nat, n: nat)
    requires b < Pow2(n)
    ensures Bits(a * Pow2(n) + b, m + n) == Bits(a, m) + Bits(b, n)
  {
    var v := a * Pow2(n) + b;
    DivModUnique(v, Pow2(n), a, b);
    BitsSplit(v, m, n);
    BitsMod(v, n);
  }

  lemma ValJoin(a: seq<bool>, v: nat, n: nat)
    requires v < Pow2(n)
    ensures Val(a + Bits(v, n)) == Val(a) * Pow2(n) + v
    decreases n
  {
    if n == 0 {
      assert a + Bits(v, n) == a;
    } else {
      ValJoin(a, v / 2, n - 1);
      var s := a + Bits(v, n);
      assert s[..|s| - 1] == a + Bits(v / 2, n - 1);
      Double(Val(a), Pow2(n - 1));
    }
  }

  // ---------- or, and: the bit operations of the source on non-negative words ----------

  function BitOr(x: nat, y: nat): nat
    decreases x + y
  {
    if x == 0 && y == 0 then 0 else 2 * BitOr(x / 2, y / 2) + if x % 2 == 1 || y % 2 == 1 then 1 else 0
  }

  function BitAnd(x: nat, y: nat): nat
    decreases x + y
  {
    if x == 0 && y == 0 then 0 else 2 * BitAnd(x / 2, y / 2) + if x % 2 == 1 && y % 2 == 1 then 1 else 0
  }

  lemma {:induction false} BitOrZero(x: nat)
    ensures BitOr(x, 0) == x
  {
    if x > 0 {
      BitOrZero(x / 2);
    }
  }

  /** Or of disjoint bits is their sum. */
  lemma {:induction false} BitOrJoin(a: nat, b: nat, n: nat)
    requires b < Pow2(n)
    ensures BitOr(a * Pow2(n), b) == a * Pow2(n) + b
    decreases n
  {
    if n == 0 {
      BitOrZero(a);
    } else {
      var p := a * Pow2(n - 1);
      Double(a, Pow2(n - 1));
      BitOrJoin(a, b / 2, n - 1);
    }
  }

  lemma {:induction false} BitAndZero(x: nat)
    ensures BitAnd(x, 0) == 0
  {
    if x > 0 {
      BitAndZero(x / 2);
    }
  }

  /** And with a mask of `n` ones keeps the `n` low bits. */
  lemma {:induction false} BitAndMask(v: nat, n: nat)
    ensures BitAnd(v, Pow2(n) - 1) == v % Pow2(n)
    decreases n
  {
    if n == 0 {
      BitAndZero(v);
    } else {
      BitAndMask(v / 2, n - 1);
      SplitMod(v, Pow2(n - 1), 2);
    }
  }

  /** A mask of `m+n` ones shifted right by `n` is a mask of `m` ones. */
  lemma ShiftedMask(m: nat, n: nat)
    ensures (Pow2(m + n) - 1) / Pow2(n) == Pow2(m) - 1
  {
    Pow2Add(m, n);
    LastQuotient(Pow2(m), Pow2(n));
  }

  function BitXor(x: nat, y: nat): nat
    decreases x + y
  {
    if x == 0 && y == 0 then 0 else 2 * BitXor(x / 2, y / 2) + if x % 2 != y % 2 then 1 else 0
  }

  lemma {:induction false} XorComm(x: nat, y: nat)
    ensures BitXor(x, y) == BitXor(y, x)
    decreases x + y
  {
    if x != 0 || y != 0 {
      XorComm(x / 2, y / 2);
    }
  }

  lemma {:induction false} XorAssoc(x: nat, y: nat, z: nat)
    ensures BitXor(BitXor(x, y), z) == BitXor(x, BitXor(y, z))
    decreases x + y + z
  {
    if x != 0 || y != 0 || z != 0 {
      XorAssoc(x / 2, y / 2, z / 2);
      XorHalf(x, y);
      XorHalf(y, z);
    }
  }

  lemma XorHalf(x: nat, y: nat)
    ensures BitXor(x, y) / 2 == BitXor(x / 2, y / 2)
    ensures BitXor(x, y) % 2 == if x % 2 != y % 2 then 1 else 0
  {
  }

  lemma {:induction false} XorSelf(x: nat)
    ensures BitXor(x, x) == 0
  {
    if x != 0 {
      XorSelf(x / 2);
    }
  }

  lemma {:induction false} XorZero(x: nat)
    ensures BitXor(x, 0) == x
  {
    if x != 0 {
      XorZero(x / 2);
    }
  }

  lemma {:induction false} XorBound(x: nat, y: nat, n: nat)
    requires x < Pow2(n) && y < Pow2(n)
    ensures BitXor(x, y) < Pow2(n)
    decreases n
  {
    if n > 0 && (x != 0 || y != 0) {
      XorBound(x / 2, y / 2, n - 1);
    }
  }

  lemma XorCancel(a: nat, b: nat)
    ensures BitXor(BitXor(a, b), b) == a
  {
    XorAssoc(a, b, b);
    XorSelf(b);
    XorZero(a);
  }

  lemma XorSwap(a: nat, b: nat, c: nat)
    ensures BitXor(BitXor(a, b), c) == BitXor(BitXor(a, c), b)
  {
    XorAssoc(a, b, c);
    XorAssoc(a, c, b);
    XorComm(b, c);
  }

  // ---------- bytes ----------

  function BytesBits(s: seq<byte>): (b: seq<bool>)
    ensures |b| == 8 * |s|
  {
    if s == [] then [] else Bits(s[0], 8) + BytesBits(s[1..])
  }

  lemma {:induction false} BytesBitsConcat(a: seq<byte>, b: seq<byte>)
    ensures BytesBits(a + b) == BytesBits(a) + BytesBits(b)
  {
    if a == [] {
      assert a + b == b;
    } else {
      assert (a + b)[1..] == a[1..] + b;
      BytesBitsConcat(a[1..], b);
    }
  }

  /** `get1`..`get4`: the number a big-endian byte string denotes. */
  function FromBytes(s: seq<byte>): nat
    decreases |s|
  {
    if s == [] then 0 else FromBytes(s[..|s| - 1]) * 256 + s[|s| - 1]
  }

  /** One more byte at the end of a number of `m` bits. */
  lemma LastByte(v: nat, m: nat, b: byte, bits: seq<bool>)
    requires Bits(v, m) == bits && v < Pow2(m)
    ensures Bits(v * 256 + b, m + 8) == bits + Bits(b, 8)
    ensures v * 256 + b < Pow2(m + 8)
  {
    Pow2Values();
    BitsJoin(v, b, m, 8);
    Pow2Add(m, 8);
  }

  lemma {:induction false} FromBytesBits(s: seq<byte>)
    ensures Bits(FromBytes(s), 8 * |s|) == BytesBits(s)
    ensures FromBytes(s) < Pow2(8 * |s|)
    decreases |s|
  {
    if s != [] {
      var n := |s| - 1;
      FromBytesBits(s[..n]);
      LastByte(FromBytes(s[..n]), 8 * n, s[n], BytesBits(s[..n]));
      BytesBitsLast(s);
    }
  }

  lemma BytesBitsLast(s: seq<byte>)
    requires s != []
    ensures BytesBits(s) == BytesBits(s[..|s| - 1]) + Bits(s[|s| - 1], 8)
  {
    var last := [s[|s| - 1]];
    BytesBitsConcat(s[..|s| - 1], last);
    assert s[..|s| - 1] + last == s;
    assert last[1..] == [];
  }

  function Pow256(n: nat): (r: nat)
    ensures r > 0
  {
    if n == 0 then 1 else 256 * Pow256(n - 1)
  }

  lemma {:induction false} Pow256Bits(n: nat)
    ensures Pow256(n) == Pow2(8 * n)
    decreases n
  {
    if n > 0 {
      Pow256Bits(n - 1);
      Pow2Values();
      Pow2Add(8, 8 * (n - 1));
    }
  }

  /** `set1`..`set8`: the `n` low bytes of `v`, most significant first. */
  function ToBytes(v: nat, n: nat): (s: seq<byte>)
    ensures |s| == n
    decreases n, v
  {
    if n == 0 then []
    else
      QuotientNat(v, Pow256(n - 1));
      [v / Pow256(n - 1) % 256] + ToBytes(v, n - 1)
  }

  lemma {:induction false} ToBytesBits(v: nat, n: nat)
    ensures BytesBits(ToBytes(v, n)) == Bits(v, 8 * n)
    decreases n
  {
    if n > 0 {
      var m := 8 * (n - 1);
      ToBytesBits(v, n - 1);
      Pow256Bits(n - 1);
      Pow2Values();
      BitsMod(Shr(v, m), 8);
      BitsSplit(v, 8, m);
      FirstByteBits(ToBytes(v, n));
    }
  }

  /** `get` reads back what `set` wrote. */
  lemma NumberBack(v: nat, n: nat)
    requires v < Pow2(8 * n)
    ensures FromBytes(ToBytes(v, n)) == v
  {
    var s := ToBytes(v, n);
    ToBytesBits(v, n);
    FromBytesBits(s);
    SameNumber(v, FromBytes(s), 8 * n);
  }

  /** `set` writes back what `get` read. */
  lemma BytesBack(s: seq<byte>)
    ensures ToBytes(FromBytes(s), |s|) == s && FromBytes(s) < Pow2(8 * |s|)
  {
    FromBytesBits(s);
    ToBytesBits(FromBytes(s), |s|);
    SameBytes(ToBytes(FromBytes(s), |s|), s);
  }

  lemma {:induction false} SameBytes(a: seq<byte>, b: seq<byte>)
    requires |a| == |b| && BytesBits(a) == BytesBits(b)
    ensures a == b
    decreases |a|
  {
    if a != [] {
      FirstByteBits(a);
      FirstByteBits(b);
      Halves(Bits(a[0], 8), BytesBits(a[1..]));
      Halves(Bits(b[0], 8), BytesBits(b[1..]));
      Pow2Values();
      SameNumber(a[0], b[0], 8);
      SameBytes(a[1..], b[1..]);
      Rejoined(a, [b[0]] + b[1..]);
    }
  }

  lemma SameNumber(a: nat, b: nat, n: nat)
    requires a < Pow2(n) && b < Pow2(n) && Bits(a, n) == Bits(b, n)
    ensures a == b
  {
    ValBits(a, n);
    ValBits(b, n);
    DivModUnique(a, Pow2(n), 0, a);
    DivModUnique(b, Pow2(n), 0, b);
  }

  lemma FirstByteBits(s: seq<byte>)
    requires s != []
    ensures BytesBits(s) == Bits(s[0], 8) + BytesBits(s[1..])
  {
  }

  /** `set8` of a mask given by its bits: each byte from eight of them. */
  function MaskBytes(m: seq<bool>): (s: seq<byte>)
    ensures |s| == |m| / 8
    decreases |m|
  {
    if |m| < 8 then []
    else
      ByteOfBits(m[..8]);
      [Val(m[..8])] + MaskBytes(m[8..])
  }

  lemma ByteOfBits(b: seq<bool>)
    requires |b| == 8
    ensures Val(b) < 256 && Bits(Val(b), 8) == b
  {
    BitsVal(b);
    assert Pow2(8) == 256;
  }

  lemma {:induction false} BitsVal(b: seq<bool>)
    ensures Val(b) < Pow2(|b|) && Bits(Val(b), |b|) == b
    decreases |b|
  {
    if b != [] {
      BitsVal(b[..|b| - 1]);
      assert b == b[..|b| - 1] + [b[|b| - 1]];
    }
  }

  lemma {:induction false} MaskBytesBits(m: seq<bool>)
    requires |m| % 8 == 0
    ensures BytesBits(MaskBytes(m)) == m
    decreases |m|
  {
    if |m| >= 8 {
      MaskBytesBits(m[8..]);
      ByteOfBits(m[..8]);
      var s := MaskBytes(m);
      assert s[1..] == MaskBytes(m[8..]);
      assert m == m[..8] + m[8..];
    }
  }

  lemma BytesPrefix(bytes: seq<byte>, n: nat)
    requires n <= |bytes|
    ensures BytesBits(bytes) == BytesBits(bytes[..n]) + BytesBits(bytes[n..])
  {
    BytesBitsConcat(bytes[..n], bytes[n..]);
    TakeDrop(bytes, n);
  }

  lemma {:induction false} ZeroBits(n: nat)
    ensures forall i :: 0 <= i < n ==> !Bits(0, n)[i]
    decreases n
  {
    if n > 0 {
      ZeroBits(n - 1);
    }
  }
}
