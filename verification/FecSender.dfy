/**
  The sender's side of ULPFEC, bit by bit from RFC 5109: the protected bits of a packet (section 8.1), the FEC packet
  made of their exclusive-or (sections 7.3, 7.4 and 8.2), and what `FECData` (cca/fecdecoder.h) reads from its bytes.
*/
module FecSender {
  import opened BitStrings
  import opened FecCode
  import opened Fec
  import opened FecDecoder
  import opened NatMap
  import opened Sequences

  // ---------- the protected bits ----------

  function XorBits(a: seq<bool>, b: seq<bool>): (r: seq<bool>)
    requires |a| == |b|
    ensures |r| == |a| && forall i :: 0 <= i < |a| ==> r[i] == (a[i] != b[i])
  {
    seq(|a|, i requires 0 <= i < |a| => a[i] != b[i])
  }

  /** Padding, extension and CSRC count; the packets of this model have no CSRC entries. */
  function Flags(k: Packet): (b: seq<bool>)
    ensures |b| == 6
  {
    [k.p, k.x] + Bits(0, 4)
  }

  /** Marker, payload type, timestamp and length. */
  function NumberBits(r: Fields): (b: seq<bool>)
    ensures |b| == 56
  {
    [r.mark] + Bits(r.pt, 7) + Bits(r.ts, 32) + Bits(r.len, 16)
  }

  /** The same, and the payload filled up with zeros. */
  function FieldBits(r: Fields): (b: seq<bool>)
    ensures |b| == 56 + 8 * |r.data|
  {
    NumberBits(r) + BytesBits(r.data)
  }

  function ProtectedBits(k: Packet, n: nat): (b: seq<bool>)
    ensures |b| == 62 + 8 * n
  {
    Flags(k) + FieldBits(FieldsOf(k, n))
  }

  function ParityBits(ks: seq<Packet>, n: nat): (b: seq<bool>)
    ensures |b| == 62 + 8 * n
    decreases |ks|
  {
    if ks == [] then seq(62 + 8 * n, _ => false)
    else XorBits(ParityBits(ks[..|ks| - 1], n), ProtectedBits(ks[|ks| - 1], n))
  }

  // ---------- the FEC packet ----------

  /** E and L flag, the recovery fields around the base, protection length, mask and parity. */
  function FecBits(b: seq<bool>, base: nat, mask: seq<bool>, n: nat): seq<bool>
    requires |b| == 62 + 8 * n
  {
    [false, |mask| == 48] + b[..14] + Bits(base, 16) + b[14..62] + Bits(n, 16) + mask + b[62..]
  }

  predicate MaskOk(mask: seq<bool>) {
    |mask| == 16 || |mask| == 48
  }

  function Made(b: seq<bool>, base: nat, mask: seq<bool>, n: nat): FecData
    requires |b| == 62 + 8 * n
  {
    FecData(MaskBytes(FecBits(b, base, mask, n)))
  }

  /** The mask as the receiver keeps it. */
  function Widened(mask: seq<bool>): (m: seq<bool>)
    requires |mask| <= 64
    ensures |m| == 64
  {
    mask + seq(64 - |mask|, _ => false)
  }

  // ---------- reading it back ----------

  lemma {:induction false} BytesSlice(s: seq<byte>, i: nat, j: nat)
    requires i <= j <= |s|
    ensures BytesBits(s[i..j]) == BytesBits(s)[8 * i..8 * j]
  {
    BytesPrefix(s, j);
    BytesPrefix(s[..j], i);
    assert s[..j][..i] == s[..i] && s[..j][i..] == s[i..j];
    Halves(BytesBits(s[..i]), BytesBits(s[i..j]));
    Halves(BytesBits(s[..j]), BytesBits(s[j..]));
  }

  lemma NumberOf(s: seq<byte>, v: nat)
    requires BytesBits(s) == Bits(v, 8 * |s|) && v < Pow2(8 * |s|)
    ensures FromBytes(s) == v
  {
    FromBytesBits(s);
    SameNumber(v, FromBytes(s), 8 * |s|);
  }

  lemma {:induction false} BitAt(v: nat, n: nat, i: nat)
    requires i < n
    ensures Bits(v, n)[n - 1 - i] == (Shr(v, i) % 2 == 1)
    decreases n
  {
    if i > 0 {
      BitAt(v / 2, n - 1, i - 1);
      ShrShr(v, 1, i - 1);
    }
  }

  lemma FlagBits(v: byte, b: seq<bool>)
    requires Bits(v, 8) == b
    ensures b[1] == (v / 0x40 % 2 == 1) && b[2] == (v / 0x20 % 2 == 1) && b[3] == (v / 0x10 % 2 == 1)
  {
    BitAt(v, 8, 6);
    BitAt(v, 8, 5);
    BitAt(v, 8, 4);
  }

  lemma TypeBits(v: byte, mark: bool, pt: nat)
    requires pt < 128 && Bits(v, 8) == [mark] + Bits(pt, 7)
    ensures mark == (v / 0x80 == 1) && v % 0x80 == pt
  {
    BitAt(v, 8, 7);
    BitsSplit(v, 1, 7);
    Pow2Values();
    assert Bits(v, 8)[1..] == Bits(v, 7);
    BitsMod(v, 7);
    SameNumber(v % 0x80, pt, 7);
  }

  lemma FecShape(b: seq<bool>, base: nat, mask: seq<bool>, n: nat, w: seq<bool>)
    requires |b| == 62 + 8 * n && MaskOk(mask) && w == FecBits(b, base, mask, n)
    ensures |w| == 96 + |mask| + 8 * n
    ensures w[0..8] == [false, |mask| == 48] + b[..6] && w[8..16] == b[6..14] && w[16..32] == Bits(base, 16)
    ensures w[32..64] == b[14..46] && w[64..80] == b[46..62] && w[80..96] == Bits(n, 16)
    ensures w[96..96 + |mask|] == mask && w[96 + |mask|..] == b[62..]
  {
    assert w[32..80] == b[14..62];
    Subslice(w, 32, 80, 32, 64);
    Subslice(w, 32, 80, 64, 80);
    Subslice(b, 14, 62, 14, 46);
    Subslice(b, 14, 62, 46, 62);
  }

  lemma FieldShape(flags: seq<bool>, r: Fields, b: seq<bool>)
    requires |flags| == 6 && b == flags + FieldBits(r)
    ensures b[..6] == flags && b[6..14] == [r.mark] + Bits(r.pt, 7)
    ensures b[14..46] == Bits(r.ts, 32) && b[46..62] == Bits(r.len, 16) && b[62..] == BytesBits(r.data)
  {
  }

  /** The numbers of a header fit their fields. */
  ghost predicate FieldsOk(r: Fields) {
    r.pt < 128 && r.ts < 0x1_0000_0000 && r.len < 0x10000
  }

  /** The bits of the packet, byte by byte. */
  lemma MadeBits(b: seq<bool>, base: nat, mask: seq<bool>, n: nat, s: seq<byte>, i: nat, j: nat)
    requires |b| == 62 + 8 * n && MaskOk(mask) && s == Made(b, base, mask, n).data
    requires i <= j <= 12 + |mask| / 8 + n
    ensures |s| == 12 + |mask| / 8 + n && BytesBits(s[i..j]) == FecBits(b, base, mask, n)[8 * i..8 * j]
  {
    var w := FecBits(b, base, mask, n);
    assert |w| == 96 + |mask| + 8 * n;
    MaskBytesBits(w);
    BytesSlice(s, i, j);
  }

  lemma OneByte(s: seq<byte>, i: nat)
    requires i < |s|
    ensures BytesBits(s[i..i + 1]) == Bits(s[i], 8)
  {
    FirstByteBits(s[i..i + 1]);
  }

  /** The first two bytes. */
  lemma FlagsRead(flags: seq<bool>, r: Fields, b: seq<bool>, base: nat, mask: seq<bool>, n: nat, s: seq<byte>)
    requires |flags| == 6 && FieldsOk(r) && |r.data| == n && b == flags + FieldBits(r)
    requires MaskOk(mask) && s == Made(b, base, mask, n).data
    ensures |s| == 12 + |mask| / 8 + n && (s[0] / 0x40 % 2 == 1) == (|mask| == 48)
    ensures (s[0] / 0x20 % 2 == 1) == flags[0] && (s[0] / 0x10 % 2 == 1) == flags[1]
    ensures r.mark == (s[1] / 0x80 == 1) && s[1] % 0x80 == r.pt
  {
    FecShape(b, base, mask, n, FecBits(b, base, mask, n));
    FieldShape(flags, r, b);
    MadeBits(b, base, mask, n, s, 0, 1);
    OneByte(s, 0);
    FlagBits(s[0], [false, |mask| == 48] + flags);
    MadeBits(b, base, mask, n, s, 1, 2);
    OneByte(s, 1);
    TypeBits(s[1], r.mark, r.pt);
  }

  /** The fields of the FEC header behind them, and the protection length. */
  lemma NumbersRead(flags: seq<bool>, r: Fields, b: seq<bool>, base: nat, mask: seq<bool>, n: nat, s: seq<byte>)
    requires |flags| == 6 && FieldsOk(r) && |r.data| == n && b == flags + FieldBits(r)
    requires base < 0x10000 && n < 0x10000 && MaskOk(mask) && s == Made(b, base, mask, n).data
    ensures |s| == 12 + |mask| / 8 + n && FromBytes(s[2..4]) == base && FromBytes(s[4..8]) == r.ts
    ensures FromBytes(s[8..10]) == r.len && FromBytes(s[10..12]) == n
  {
    FecShape(b, base, mask, n, FecBits(b, base, mask, n));
    FieldShape(flags, r, b);
    Pow2Values();
    MadeBits(b, base, mask, n, s, 2, 4);
    NumberOf(s[2..4], base);
    MadeBits(b, base, mask, n, s, 4, 8);
    NumberOf(s[4..8], r.ts);
    MadeBits(b, base, mask, n, s, 8, 10);
    NumberOf(s[8..10], r.len);
    MadeBits(b, base, mask, n, s, 10, 12);
    NumberOf(s[10..12], n);
  }

  lemma MaskRead(b: seq<bool>, base: nat, mask: seq<bool>, n: nat, s: seq<byte>, e: nat)
    requires |b| == 62 + 8 * n && MaskOk(mask) && s == Made(b, base, mask, n).data && e == 12 + |mask| / 8
    ensures |s| == e + n && BytesBits(s[12..e]) == mask && BytesBits(s[e..e + n]) == b[62..]
  {
    var w := FecBits(b, base, mask, n);
    FecShape(b, base, mask, n, w);
    MadeBits(b, base, mask, n, s, 12, e);
    MadeBits(b, base, mask, n, s, e, e + n);
    assert w[8 * e..8 * (e + n)] == w[96 + |mask|..];
  }

  lemma ParityRead(flags: seq<bool>, r: Fields, b: seq<bool>, base: nat, mask: seq<bool>, n: nat, s: seq<byte>, e: nat)
    requires |flags| == 6 && |r.data| == n && b == flags + FieldBits(r)
    requires MaskOk(mask) && s == Made(b, base, mask, n).data && e == 12 + |mask| / 8
    ensures |s| == e + n && BytesBits(s[12..e]) == mask && s[e..e + n] == r.data
  {
    FieldShape(flags, r, b);
    MaskRead(b, base, mask, n, s, e);
    SameBytes(s[e..e + n], r.data);
  }

  /** Every field of the FEC packet is read back as it was written, for both widths of the mask. */
  lemma HeaderReads(flags: seq<bool>, r: Fields, b: seq<bool>, base: nat, mask: seq<bool>, n: nat)
    requires |flags| == 6 && FieldsOk(r) && |r.data| == n && b == flags + FieldBits(r)
    requires base < 0x10000 && MaskOk(mask) && 12 + |mask| / 8 + n <= MTU
    ensures var f := Made(b, base, mask, n);
            && FecOk(f) && |f.data| == 12 + |mask| / 8 + n && LongMask(f) == (|mask| == 48)
            && RecoveryP(f) == flags[0] && RecoveryX(f) == flags[1]
            && Base(f) == base && Level0Size(f) == n && Level0Mask(f) == Widened(mask) && RecoveryFields(f) == r
  {
    var s := Made(b, base, mask, n).data;
    FlagsRead(flags, r, b, base, mask, n, s);
    NumbersRead(flags, r, b, base, mask, n, s);
    ParityRead(flags, r, b, base, mask, n, s, 12 + |mask| / 8);
  }

  // ---------- the exclusive-or of the bits is that of the fields ----------

  lemma {:induction false} BitsXor(a: nat, b: nat, n: nat)
    ensures Bits(BitXor(a, b), n) == XorBits(Bits(a, n), Bits(b, n))
    decreases n
  {
    XorHalf(a, b);
    if n > 0 {
      BitsXor(a / 2, b / 2, n - 1);
    }
  }

  lemma Together(a: seq<bool>, b: seq<bool>, c: seq<bool>, d: seq<bool>)
    requires |a| == |b| && |c| == |d|
    ensures XorBits(a + c, b + d) == XorBits(a, b) + XorBits(c, d)
  {
  }

  lemma {:induction false} BytesXor(a: seq<byte>, b: seq<byte>)
    requires |a| == |b|
    ensures BytesBits(XorBytes(a, b)) == XorBits(BytesBits(a), BytesBits(b))
    decreases |a|
  {
    if a != [] {
      var r := XorBytes(a, b);
      assert r[1..] == XorBytes(a[1..], b[1..]);
      BytesXor(a[1..], b[1..]);
      BitsXor(a[0], b[0], 8);
      Together(Bits(a[0], 8), Bits(b[0], 8), BytesBits(a[1..]), BytesBits(b[1..]));
    }
  }

  lemma FourTogether(a: seq<bool>, b: seq<bool>, c: seq<bool>, d: seq<bool>,
                     a': seq<bool>, b': seq<bool>, c': seq<bool>, d': seq<bool>)
    requires |a| == |a'| && |b| == |b'| && |c| == |c'| && |d| == |d'|
    ensures XorBits(a + b + c + d, a' + b' + c' + d')
         == XorBits(a, a') + XorBits(b, b') + XorBits(c, c') + XorBits(d, d')
  {
    Together(a, a', b, b');
    Together(a + b, a' + b', c, c');
    Together(a + b + c, a' + b' + c', d, d');
  }

  lemma OneBit(a: bool, b: bool)
    ensures XorBits([a], [b]) == [a != b]
  {
  }

  lemma NumbersXor(a: Fields, b: Fields)
    requires |a.data| == |b.data|
    ensures NumberBits(Xor(a, b)) == XorBits(NumberBits(a), NumberBits(b))
  {
    OneBit(a.mark, b.mark);
    BitsXor(a.pt, b.pt, 7);
    BitsXor(a.ts, b.ts, 32);
    BitsXor(a.len, b.len, 16);
    FourTogether([a.mark], Bits(a.pt, 7), Bits(a.ts, 32), Bits(a.len, 16),
                 [b.mark], Bits(b.pt, 7), Bits(b.ts, 32), Bits(b.len, 16));
  }

  lemma FieldsXor(a: Fields, b: Fields)
    requires |a.data| == |b.data|
    ensures FieldBits(Xor(a, b)) == XorBits(FieldBits(a), FieldBits(b))
  {
    NumbersXor(a, b);
    BytesXor(a.data, b.data);
    Together(NumberBits(a), NumberBits(b), BytesBits(a.data), BytesBits(b.data));
  }

  /** The fields of the exclusive-or are the exclusive-or of the fields. */
  lemma {:induction false} ParityFields(ks: seq<Packet>, n: nat)
    ensures ParityBits(ks, n) == ParityBits(ks, n)[..6] + FieldBits(XorAll(Zero(n), ks))
    decreases |ks|
  {
    if ks == [] {
      NoBits(n);
    } else {
      var init, last := ks[..|ks| - 1], ks[|ks| - 1];
      var b, r := ParityBits(init, n), XorAll(Zero(n), init);
      ParityFields(init, n);
      FieldsXor(r, FieldsOf(last, n));
      Together(b[..6], Flags(last), FieldBits(r), FieldBits(FieldsOf(last, n)));
    }
  }

  lemma NoBits(n: nat)
    ensures seq(62 + 8 * n, _ => false) == seq(6, _ => false) + FieldBits(Zero(n))
  {
    Unset(7);
    Unset(32);
    Unset(16);
    NoNumbers(Bits(0, 7), Bits(0, 32), Bits(0, 16));
    ZeroBytes(n);
  }

  lemma Unset(n: nat)
    ensures Bits(0, n) == seq(n, _ => false)
  {
    ZeroBits(n);
  }

  lemma NoNumbers(a: seq<bool>, b: seq<bool>, c: seq<bool>)
    requires a == seq(7, _ => false) && b == seq(32, _ => false) && c == seq(16, _ => false)
    ensures [false] + a + b + c == seq(56, _ => false)
  {
  }

  lemma {:induction false} ZeroBytes(n: nat)
    ensures BytesBits(seq(n, _ => 0)) == seq(8 * n, _ => false)
    decreases n
  {
    if n > 0 {
      ZeroBits(8);
      ZeroBytes(n - 1);
      var s: seq<byte> := seq(n, _ => 0);
      assert s[1..] == seq(n - 1, _ => 0);
    }
  }

  ghost predicate AllOk(ks: seq<Packet>) {
    forall i :: 0 <= i < |ks| ==> PacketOk(ks[i])
  }

  lemma {:induction false} XorAllOk(ks: seq<Packet>, n: nat)
    requires AllOk(ks)
    ensures FieldsOk(XorAll(Zero(n), ks))
    decreases |ks|
  {
    if ks != [] {
      var r, k := XorAll(Zero(n), ks[..|ks| - 1]), ks[|ks| - 1];
      XorAllOk(ks[..|ks| - 1], n);
      Pow2Values();
      XorBound(r.pt, k.pt, 7);
      XorBound(r.ts, k.ts, 32);
      XorBound(r.len, |k.payload|, 16);
    }
  }

  // ---------- what a sender makes ----------

  /** The packets from `start` on that the mask names. */
  function Protected(sent: nat -> Packet, start: nat, mask: seq<bool>): seq<Packet>
    requires MaskOk(mask)
  {
    Group(sent, start, Widened(mask), 0, 64)
  }

  /** The FEC packet for these packets, protecting their first `n` payload bytes. */
  function Parity(sent: nat -> Packet, start: nat, mask: seq<bool>, n: nat): FecData
    requires MaskOk(mask)
  {
    Made(ParityBits(Protected(sent, start, mask), n), start % 0x10000, mask, n)
  }

  ghost predicate SenderOk(sent: nat -> Packet, start: nat, mask: seq<bool>, n: nat) {
    && MaskOk(mask) && 12 + |mask| / 8 + n <= MTU
    && forall i :: 0 <= i < |mask| && mask[i] ==> PacketOk(sent(start + i)) && |sent(start + i).payload| <= n
  }

  /** Every field that a sender writes is read back. */
  lemma SenderHeader(sent: nat -> Packet, start: nat, mask: seq<bool>, n: nat, f: FecData)
    requires SenderOk(sent, start, mask, n) && f == Parity(sent, start, mask, n)
    ensures FecOk(f) && Base(f) == start % 0x10000 && Level0Mask(f) == Widened(mask) && Level0Size(f) == n
    ensures RecoveryFields(f) == XorAll(Zero(n), Protected(sent, start, mask))
    ensures RecoveryP(f) == FlagAll(false, Protected(sent, start, mask), PaddingOf)
    ensures RecoveryX(f) == FlagAll(false, Protected(sent, start, mask), ExtensionOf)
  {
    var ks := Protected(sent, start, mask);
    var b, r := ParityBits(ks, n), XorAll(Zero(n), ks);
    GroupOk(sent, start, Widened(mask), 64);
    XorAllOk(ks, n);
    ParityFields(ks, n);
    ParityFlags(ks, n);
    HeaderReads(b[..6], r, b, start % 0x10000, mask, n);
  }

  /** What the decoder reads from the bytes a sender makes is the parity of the packets it named. */
  lemma SenderMakes(sent: nat -> Packet, start: nat, mask: seq<bool>, n: nat, f: FecData)
    requires SenderOk(sent, start, mask, n) && f == Parity(sent, start, mask, n)
    ensures ParityFrom(f, start, sent)
  {
    SenderHeader(sent, start, mask, n, f);
  }

  lemma {:induction false} GroupOk(sent: nat -> Packet, start: nat, mask: seq<bool>, j: nat)
    requires j <= |mask| && forall i :: 0 <= i < j && mask[i] ==> PacketOk(sent(start + i))
    ensures AllOk(Group(sent, start, mask, 0, j))
    decreases j
  {
    if j > 0 {
      GroupOk(sent, start, mask, j - 1);
    }
  }

  lemma {:induction false} ParityFlags(ks: seq<Packet>, n: nat)
    ensures ParityBits(ks, n)[0] == FlagAll(false, ks, PaddingOf)
    ensures ParityBits(ks, n)[1] == FlagAll(false, ks, ExtensionOf)
    decreases |ks|
  {
    if ks != [] {
      ParityFlags(ks[..|ks| - 1], n);
    }
  }

  /**
    Recovery is exact for the bytes a sender makes: a first-cycle group, all buffered but one, gives that packet's
    marker, payload type, timestamp, length and payload back.
  */
  lemma SentComesBack(d: Medias, codes: Fecs, q: nat, c: nat, k: Packet, wide: bool, sent: nat -> Packet,
                      start: nat, mask: seq<bool>, n: nat)
    requires SenderOk(sent, start, mask, n) && start < 0x10000
    requires MediasOk(d) && FilledBy(d, codes, q, c, k, wide) && codes[c].val == Parity(sent, start, mask, n)
    requires TrueMedias(d, sent)
    ensures SameMedia(k, sent(q))
  {
    SenderMakes(sent, start, mask, n, codes[c].val);
    FirstCycleGood(codes[c].val, start, q, sent);
    RecoveryIsExact(d, codes, q, c, k, wide, sent);
  }

  /** Such a packet is one a receiver may count on, if it does not begin too far ahead of what has been heard. */
  lemma SentIsGenuine(sent: nat -> Packet, start: nat, mask: seq<bool>, n: nat, f: FecData, newest: nat)
    requires SenderOk(sent, start, mask, n) && f == Parity(sent, start, mask, n)
    requires start < 0x10000 || start <= newest + AHEAD
    ensures Genuine(f, newest, sent)
  {
    SenderMakes(sent, start, mask, n, f);
  }

  // ---------- the flags ----------

  lemma {:induction false} FlagStart(a: bool, ks: seq<Packet>, flag: Packet -> bool)
    ensures FlagAll(a, ks, flag) == (a != FlagAll(false, ks, flag))
    decreases |ks|
  {
    if ks != [] {
      FlagStart(a, ks[..|ks| - 1], flag);
    }
  }

  lemma {:induction false} FlagConcat(ks: seq<Packet>, ls: seq<Packet>, flag: Packet -> bool)
    ensures FlagAll(false, ks + ls, flag) == (FlagAll(false, ks, flag) != FlagAll(false, ls, flag))
    decreases |ls|
  {
    if ls == [] {
      AddNothing(ks, ls);
    } else {
      FlagConcat(ks, ls[..|ls| - 1], flag);
      SnocConcat(ks, ls);
    }
  }

  lemma FlagSplit(before: seq<Packet>, k: Packet, after: seq<Packet>, flag: Packet -> bool)
    ensures FlagAll(false, before + [k] + after, flag) == (FlagAll(false, before + after, flag) != flag(k))
  {
    FlagConcat(before + [k], after, flag);
    FlagConcat(before, [k], flag);
    FlagConcat(before, after, flag);
    assert [k][..0] == [];
  }

  lemma GroupFlag(sent: nat -> Packet, base: nat, mask: seq<bool>, others: seq<bool>, q: nat, flag: Packet -> bool)
    requires |mask| == 64 && base <= q < base + 64 && mask[q - base] && others == mask[q - base := false]
    ensures FlagAll(false, Group(sent, base, mask, 0, 64), flag)
         == (FlagAll(false, Group(sent, base, others, 0, 64), flag) != flag(sent(q)))
  {
    var i := q - base;
    GroupWith(sent, base, mask, i, sent(q));
    GroupWithout(sent, base, mask, others, i);
    FlagSplit(Group(sent, base, mask, 0, i), sent(q), Group(sent, base, mask, i + 1, 64), flag);
  }

  /** As many of the one as of the other have the flag, counted modulo 2. */
  predicate SameParity(ks: seq<Packet>, ls: seq<Packet>, flag: Packet -> bool) {
    FlagAll(false, ks, flag) == FlagAll(false, ls, flag)
  }

  lemma FlagBack(held: nat -> Packet, sent: nat -> Packet, base: nat, mask: seq<bool>, others: seq<bool>, q: nat,
                 flag: Packet -> bool, a: bool)
    requires |mask| == 64 && base <= q < base + 64 && mask[q - base] && others == mask[q - base := false]
    requires a == FlagAll(false, Group(sent, base, mask, 0, 64), flag)
    ensures var ks, ls := Group(held, base, others, 0, 64), Group(sent, base, others, 0, 64);
            FlagAll(a, ks, flag) == flag(sent(q)) <==> SameParity(ks, ls, flag)
  {
    GroupFlag(sent, base, mask, others, q, flag);
    FlagStart(a, Group(held, base, others, 0, 64), flag);
  }

  /** The packets other than `q` that the FEC packet names. */
  function Others(packets: nat -> Packet, f: FecData, q: nat): seq<Packet>
    requires FecOk(f) && IsProtected(f, q)
  {
    Group(packets, Base(f), OthersMask(f, q), 0, 64)
  }

  lemma CombinedExactly(d: Medias, f: FecData, q: nat, sent: nat -> Packet, start: nat, mask: seq<bool>,
                        flag: Packet -> bool, a: bool)
    requires FecOk(f) && IsProtected(f, q) && MaskOk(mask) && Base(f) == start && Level0Mask(f) == Widened(mask)
    requires a == FlagAll(false, Protected(sent, start, mask), flag)
    ensures CombinedFlag(d, f, q, a, flag) == flag(sent(q))
       <==> SameParity(Others(Buffered(d), f, q), Others(sent, f, q), flag)
  {
    FlagBack(Buffered(d), sent, Base(f), Level0Mask(f), OthersMask(f, q), q, flag, a);
  }

  /** The header names these packets and carries their flags. */
  ghost predicate Announces(f: FecData, sent: nat -> Packet, start: nat, mask: seq<bool>) {
    && FecOk(f) && MaskOk(mask) && Base(f) == start && Level0Mask(f) == Widened(mask)
    && RecoveryP(f) == FlagAll(false, Protected(sent, start, mask), PaddingOf)
    && RecoveryX(f) == FlagAll(false, Protected(sent, start, mask), ExtensionOf)
  }

  lemma SenderAnnounces(sent: nat -> Packet, start: nat, mask: seq<bool>, n: nat, f: FecData)
    requires SenderOk(sent, start, mask, n) && start < 0x10000 && f == Parity(sent, start, mask, n)
    ensures Announces(f, sent, start, mask)
  {
    SenderHeader(sent, start, mask, n, f);
  }

  /** The flags are right exactly when the buffer has kept as many of the others' as were sent, counted modulo 2. */
  lemma FlagsMatch(d: Medias, f: FecData, q: nat, k: Packet, sent: nat -> Packet, start: nat, mask: seq<bool>)
    requires Announces(f, sent, start, mask) && d != [] && IsProtected(f, q) && Rebuilt(d, f, q, k)
    ensures k.p == sent(q).p <==> SameParity(Others(Buffered(d), f, q), Others(sent, f, q), PaddingOf)
    ensures k.x == sent(q).x <==> SameParity(Others(Buffered(d), f, q), Others(sent, f, q), ExtensionOf)
  {
    CombinedExactly(d, f, q, sent, start, mask, PaddingOf, RecoveryP(f));
    CombinedExactly(d, f, q, sent, start, mask, ExtensionOf, RecoveryX(f));
  }

  // ---------- what the buffer forgets ----------

  /** No packet is kept with its flags. */
  ghost predicate Unflagged(d: Medias) {
    forall j :: Has(d, j) ==> !At(d, j).p && !At(d, j).x
  }

  /** A buffer without flags stays so, whatever arrives; a recovered packet is filed as one that came alone. */
  lemma UnflaggedStays(d: Medias, inc: Incoming)
    requires MediasOk(d) && Unflagged(d) && IncomingOk(inc) && !inc.FecOnly?
    ensures Unflagged(Windowed(d, Stored(inc)))
  {
    forall j | Has(Windowed(d, Stored(inc)), j)
      ensures !At(Windowed(d, Stored(inc)), j).p && !At(Windowed(d, Stored(inc)), j).x
    {
      WindowContents(d, Stored(inc), j);
    }
  }

  lemma {:induction false} NoFlags(d: Medias, base: nat, mask: seq<bool>, j: nat)
    requires Unflagged(d) && j <= |mask|
    ensures !FlagAll(false, Group(Buffered(d), base, mask, 0, j), PaddingOf)
    ensures !FlagAll(false, Group(Buffered(d), base, mask, 0, j), ExtensionOf)
    decreases j
  {
    if j > 0 {
      NoFlags(d, base, mask, j - 1);
      FlagNext(false, Buffered(d), base, mask, j - 1, PaddingOf);
      FlagNext(false, Buffered(d), base, mask, j - 1, ExtensionOf);
    }
  }

  /** So padding and extension flag are right exactly if an even number of the other packets of the group had them. */
  lemma FlagsExactly(d: Medias, f: FecData, q: nat, k: Packet, sent: nat -> Packet, start: nat, mask: seq<bool>)
    requires Announces(f, sent, start, mask) && d != [] && IsProtected(f, q) && Rebuilt(d, f, q, k) && Unflagged(d)
    ensures k.p == sent(q).p <==> !FlagAll(false, Others(sent, f, q), PaddingOf)
    ensures k.x == sent(q).x <==> !FlagAll(false, Others(sent, f, q), ExtensionOf)
  {
    NoFlags(d, Base(f), OthersMask(f, q), 64);
    FlagsMatch(d, f, q, k, sent, start, mask);
  }

  /** Every packet is kept without its source. */
  ghost predicate Sourceless(d: Medias) {
    forall j :: Has(d, j) ==> At(d, j).ssrc == 0
  }

  /** Where no packet comes with redundant data, each is kept without its source, and none is recovered with it. */
  lemma SourceLost(d: Medias, k: Packet, f: FecData, q: nat, r: Packet)
    requires MediasOk(d) && PacketOk(k) && k.ext < 0x1_0000_0000 && Sourceless(d)
    ensures Sourceless(Windowed(d, Stored(Media(k))))
    ensures d != [] && FecOk(f) && IsProtected(f, q) && Rebuilt(d, f, q, r) ==> r.ssrc == 0
  {
    forall j | Has(Windowed(d, Clone(k)), j) ensures At(Windowed(d, Clone(k)), j).ssrc == 0 {
      WindowContents(d, Clone(k), j);
    }
    if d != [] {
      HasIndex(d, 0);
    }
  }
}
