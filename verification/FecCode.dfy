/**
  ULPFEC packets (cca/fecdecoder.h) and their exclusive-or algebra: sections 7.3, 7.4 and 8 of RFC 5109.
  */
module FecCode {
  import opened BitStrings

  /** An RTP packet; `ext` is the extended sequence number `cycles<<16 | seq`. */
  datatype Packet = Packet(
    ext: nat, p: bool, x: bool, mark: bool, pt: nat, ts: nat, ssrc: nat, payload: seq<byte>)

  ghost predicate PacketOk(k: Packet) {
    k.pt < 128 && k.ts < 0x1_0000_0000 && |k.payload| < 0x10000
  }

  /** `RTPTimedPacket::Clone`: padding, extension and source are not copied. */
  function Clone(k: Packet): Packet {
    k.(p := false, x := false, ssrc := 0)
  }

  /** `RTPRedundantPacket::CreatePrimaryPacket`: padding and extension are not copied. */
  function Primary(k: Packet): Packet {
    k.(p := false, x := false)
  }

  /** The part of a packet that FEC recovery is about. */
  datatype Fields = Fields(mark: bool, pt: nat, ts: nat, len: nat, data: seq<byte>)

  function PadTo(payload: seq<byte>, n: nat): (s: seq<byte>)
    ensures |s| == n
  {
    seq(n, i requires 0 <= i < n => if i < |payload| then payload[i] else 0)
  }

  /** A packet as the sender protects it: its first `n` bytes, zero-padded. */
  function FieldsOf(k: Packet, n: nat): Fields {
    Fields(k.mark, k.pt, k.ts, |k.payload|, PadTo(k.payload, n))
  }

  function XorByte(a: byte, b: byte): byte {
    assert Pow2(8) == 256;
    XorBound(a, b, 8);
    BitXor(a, b)
  }

  function XorBytes(a: seq<byte>, b: seq<byte>): (s: seq<byte>)
    requires |a| == |b|
    ensures |s| == |a| && forall i :: 0 <= i < |a| ==> s[i] == XorByte(a[i], b[i])
  {
    seq(|a|, i requires 0 <= i < |a| => XorByte(a[i], b[i]))
  }

  function Xor(a: Fields, b: Fields): Fields
    requires |a.data| == |b.data|
  {
    Fields(a.mark != b.mark, BitXor(a.pt, b.pt), BitXor(a.ts, b.ts), BitXor(a.len, b.len), XorBytes(a.data, b.data))
  }

  function Zero(n: nat): Fields {
    Fields(false, 0, 0, 0, seq(n, _ => 0))
  }

  /** `a` combined with every packet of `ks` in turn. */
  function XorAll(a: Fields, ks: seq<Packet>): (r: Fields)
    ensures |r.data| == |a.data|
    decreases |ks|
  {
    if ks == [] then a
    else Xor(XorAll(a, ks[..|ks| - 1]), FieldsOf(ks[|ks| - 1], |a.data|))
  }

  lemma XorSwap(a: Fields, b: Fields, c: Fields)
    requires |a.data| == |b.data| == |c.data|
    ensures Xor(Xor(a, b), c) == Xor(Xor(a, c), b)
  {
    BitStrings.XorSwap(a.pt, b.pt, c.pt);
    BitStrings.XorSwap(a.ts, b.ts, c.ts);
    BitStrings.XorSwap(a.len, b.len, c.len);
    forall i | 0 <= i < |a.data|
      ensures Xor(Xor(a, b), c).data[i] == Xor(Xor(a, c), b).data[i]
    {
      BitStrings.XorSwap(a.data[i], b.data[i], c.data[i]);
    }
  }

  /** Combining twice with the same fields cancels. */
  lemma XorCancel(a: Fields, b: Fields)
    requires |a.data| == |b.data|
    ensures Xor(Xor(a, b), b) == a
  {
    BitStrings.XorCancel(a.pt, b.pt);
    BitStrings.XorCancel(a.ts, b.ts);
    BitStrings.XorCancel(a.len, b.len);
    forall i | 0 <= i < |a.data| ensures Xor(Xor(a, b), b).data[i] == a.data[i] {
      BitStrings.XorCancel(a.data[i], b.data[i]);
    }
  }

  lemma XorFromZero(b: Fields)
    ensures Xor(Zero(|b.data|), b) == b
  {
    XorComm(0, b.pt);
    XorZero(b.pt);
    XorComm(0, b.ts);
    XorZero(b.ts);
    XorComm(0, b.len);
    XorZero(b.len);
    forall i | 0 <= i < |b.data| ensures Xor(Zero(|b.data|), b).data[i] == b.data[i] {
      XorComm(0, b.data[i]);
      XorZero(b.data[i]);
    }
  }

  /** The starting value can be combined in last. */
  lemma {:induction false} XorStart(a: Fields, b: Fields, ks: seq<Packet>)
    requires |a.data| == |b.data|
    ensures XorAll(Xor(a, b), ks) == Xor(XorAll(a, ks), b)
    decreases |ks|
  {
    if ks != [] {
      var init, last := ks[..|ks| - 1], FieldsOf(ks[|ks| - 1], |a.data|);
      XorStart(a, b, init);
      XorSwap(XorAll(a, init), b, last);
    }
  }

  lemma {:induction false} XorConcat(a: Fields, ks: seq<Packet>, ls: seq<Packet>)
    ensures XorAll(a, ks + ls) == XorAll(XorAll(a, ks), ls)
    decreases |ls|
  {
    if ls == [] {
      assert ks + ls == ks;
    } else {
      XorConcat(a, ks, ls[..|ls| - 1]);
      assert (ks + ls)[..|ks + ls| - 1] == ks + ls[..|ls| - 1];
    }
  }

  /** Combining with the same packets twice cancels. */
  lemma {:induction false} XorAllCancel(a: Fields, ks: seq<Packet>)
    ensures XorAll(XorAll(a, ks), ks) == a
    decreases |ks|
  {
    if ks != [] {
      var init, last := ks[..|ks| - 1], FieldsOf(ks[|ks| - 1], |a.data|);
      var m := XorAll(a, init);
      XorStart(m, last, init);
      XorCancel(XorAll(m, init), last);
      XorAllCancel(a, init);
    }
  }

  /** The parity of a group, combined with all members but one, leaves that member. */
  lemma ParityRecovers(before: seq<Packet>, missing: Packet, after: seq<Packet>, n: nat)
    ensures XorAll(XorAll(Zero(n), before + [missing] + after), before + after) == FieldsOf(missing, n)
  {
    var z, m := Zero(n), FieldsOf(missing, n);
    var a := XorAll(z, before);
    XorConcat(z, before + [missing], after);
    XorConcat(z, before, [missing]);
    assert [missing][..0] == [];
    assert XorAll(a, [missing]) == Xor(a, m);
    XorStart(a, m, after);
    XorStart(XorAll(a, after), m, before + after);
    XorConcat(z, before, after);
    XorAllCancel(z, before + after);
    XorFromZero(m);
  }

  /** Recovery looks at nothing else of a packet. */
  predicate SameMedia(a: Packet, b: Packet) {
    a.mark == b.mark && a.pt == b.pt && a.ts == b.ts && a.payload == b.payload
  }

  lemma {:induction false} XorSameMedia(a: Fields, ks: seq<Packet>, ls: seq<Packet>)
    requires |ks| == |ls| && forall i :: 0 <= i < |ks| ==> SameMedia(ks[i], ls[i])
    ensures XorAll(a, ks) == XorAll(a, ls)
    decreases |ks|
  {
    if ks != [] {
      XorSameMedia(a, ks[..|ks| - 1], ls[..|ls| - 1]);
    }
  }

  // ---------- the FEC packet ----------

  const MTU := 1500

  /** `FECData`: a FEC payload without an extended sequence number of its own (`cycles` is 0). */
  datatype FecData = FecData(data: seq<byte>)

  predicate LongMask(f: FecData)
    requires |f.data| >= 14
  {
    f.data[0] / 0x40 % 2 == 1
  }

  function MaskEnd(f: FecData): nat
    requires |f.data| >= 14
  {
    if LongMask(f) then 18 else 14
  }

  function Level0Size(f: FecData): nat
    requires |f.data| >= 14
  {
    FromBytes(f.data[10..12])
  }

  /** Header, level 0 header and the protected bytes are all there. */
  predicate FecOk(f: FecData) {
    14 <= |f.data| <= MTU && MaskEnd(f) <= |f.data| && MaskEnd(f) + Level0Size(f) <= |f.data|
  }

  function Base(f: FecData): nat
    requires FecOk(f)
  {
    FromBytes(f.data[2..4])
  }

  /** `GetLevel0Mask`: a QWORD as its 64 bits, most significant first; 16 or 48 of them come from the packet. */
  function Level0Mask(f: FecData): (m: seq<bool>)
    requires FecOk(f)
    ensures |m| == 64 && forall i :: 48 <= i < 64 ==> !m[i]
  {
    BytesBits(f.data[12..MaskEnd(f)]) + seq(64 - 8 * (MaskEnd(f) - 12), _ => false)
  }

  /** The recovery fields and the parity bytes. */
  function RecoveryFields(f: FecData): (r: Fields)
    requires FecOk(f)
    ensures |r.data| == Level0Size(f)
  {
    Fields(f.data[1] / 0x80 == 1, f.data[1] % 0x80, FromBytes(f.data[4..8]), FromBytes(f.data[8..10]),
           f.data[MaskEnd(f)..MaskEnd(f) + Level0Size(f)])
  }

  predicate RecoveryP(f: FecData)
    requires FecOk(f)
  {
    f.data[0] / 0x20 % 2 == 1
  }

  predicate RecoveryX(f: FecData)
    requires FecOk(f)
  {
    f.data[0] / 0x10 % 2 == 1
  }

  /** `IsProtectedAtLevel0`. */
  predicate IsProtected(f: FecData, seqNum: nat)
    requires FecOk(f)
  {
    Base(f) <= seqNum <= Base(f) + 48 && Level0Mask(f)[seqNum - Base(f)]
  }
}
