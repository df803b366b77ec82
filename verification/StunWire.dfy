/** The bytes of a serialized message, by the figures of RFC 5389: without the names that writer and parser share. */
module StunWire {
  import opened BitStrings
  import opened Buffers
  import opened CrcPolynomial
  import opened Stun

  /** Figure 3 of RFC 5389: M11 to M7, C1, M6 to M4, C0, M3 to M0. */
  function TypeBits(kind: nat, methodId: nat): seq<bool> {
    var m := Bits(methodId, 12);
    [false, false] + m[..5] + [kind / 2 == 1] + m[5..8] + [kind % 2 == 1] + m[8..]
  }

  lemma Join(a: nat, b: nat, m: nat, n: nat, k: nat, w: nat)
    requires k == Pow2(n) && b < k && w == a * k + b
    ensures Bits(w, m + n) == Bits(a, m) + Bits(b, n)
  {
    BitsJoin(a, b, m, n);
  }

  lemma Joined(a: nat, d: nat, b: nat, e: nat, c: nat, p: nat, q: nat, r: nat, w: nat)
    requires d < 2 && b < 8 && e < 2 && c < 16
    requires p == a * 2 + d && q == p * 8 + b && r == q * 2 + e && w == r * 16 + c
    ensures Bits(w, 14) == Bits(a, 5) + [d == 1] + Bits(b, 3) + [e == 1] + Bits(c, 4)
  {
    Join(a, d, 5, 1, 2, p);
    Join(p, b, 6, 3, 8, q);
    Join(q, e, 9, 1, 2, r);
    Join(r, c, 10, 4, 16, w);
    OneBit(d);
    OneBit(e);
  }

  lemma OneBit(d: nat)
    requires d < 2
    ensures Bits(d, 1) == [d == 1]
  {
    assert Bits(d / 2, 0) == [];
  }

  lemma MethodBits(methodId: nat, a: nat, b: nat, c: nat)
    requires methodId == (a * 8 + b) * 16 + c && b < 8 && c < 16
    ensures var m := Bits(methodId, 12); m[..5] == Bits(a, 5) && m[5..8] == Bits(b, 3) && m[8..] == Bits(c, 4)
  {
    assert Pow2(3) == 8 && Pow2(4) == 16;
    BitsJoin(a, b, 5, 3);
    BitsJoin(a * 8 + b, c, 8, 4);
  }

  lemma LeadingZeros(w: nat)
    requires w < 0x4000
    ensures Bits(w, 16) == [false, false] + Bits(w, 14)
  {
    Pow2Add(7, 7);
    Pow2Values();
    BitsSplit(w, 2, 14);
    assert Shr(w, 14) == 0;
    ZeroBits(2);
  }

  lemma MethodSplit(methodId: nat, a: nat, b: nat, c: nat)
    requires methodId < 0x1000 && a == methodId / 128 && b == methodId / 16 % 8 && c == methodId % 16
    ensures var m := Bits(methodId, 12); m[..5] == Bits(a, 5) && m[5..8] == Bits(b, 3) && m[8..] == Bits(c, 4)
  {
    MethodParts(methodId);
    MethodBits(methodId, a, b, c);
  }

  lemma FieldSplit(kind: nat, methodId: nat, a: nat, b: nat, c: nat, d: nat, e: nat)
    requires kind < 4 && a == methodId / 128 && b == methodId / 16 % 8 && c == methodId % 16 && a < 32
    requires d == kind / 2 && e == kind % 2
    ensures Bits(TypeField(kind, methodId), 14) == Bits(a, 5) + [d == 1] + Bits(b, 3) + [e == 1] + Bits(c, 4)
  {
    var p := a * 2 + d;
    var q := p * 8 + b;
    var r := q * 2 + e;
    assert a % 32 == a && d % 2 == d;
    Joined(a, d, b, e, c, p, q, r, TypeField(kind, methodId));
  }

  lemma ClassBetween(kind: nat, methodId: nat, a: nat, b: nat, c: nat)
    requires kind < 4 && methodId < 0x1000 && a < 32
    requires a == methodId / 128 && b == methodId / 16 % 8 && c == methodId % 16
    ensures var m := Bits(methodId, 12);
            Bits(TypeField(kind, methodId), 14) == m[..5] + [kind / 2 == 1] + m[5..8] + [kind % 2 == 1] + m[8..]
  {
    MethodSplit(methodId, a, b, c);
    FieldSplit(kind, methodId, a, b, c, kind / 2, kind % 2);
  }

  lemma TypeSmall(kind: nat, methodId: nat)
    requires kind < 4 && methodId < 0x1000
    ensures TypeField(kind, methodId) < 0x4000
  {
    TypeFieldParts(kind, methodId);
  }

  lemma TypeLaidOut(kind: nat, methodId: nat)
    requires kind < 4 && methodId < 0x1000
    ensures Bits(TypeField(kind, methodId), 16) == TypeBits(kind, methodId)
  {
    TypeSmall(kind, methodId);
    LeadingZeros(TypeField(kind, methodId));
    ClassBetween(kind, methodId, methodId / 128, methodId / 16 % 8, methodId % 16);
  }

  // ---------- the bytes ----------

  lemma Slices(s: seq<byte>, i: nat, b: seq<byte>, c: seq<byte>)
    requires i + |b| + |c| <= |s| && At(s, i, b) && At(s, i + |b|, c)
    ensures s[i..i + |b| + |c|] == b + c
  {
  }

  lemma TwoBytes(hi: byte, lo: byte, v: nat)
    requires v == hi * 256 + lo
    ensures ToBytes(v, 2) == [hi, lo]
  {
    assert ToBytes(v, 2) == [v / 256 % 256] + [v % 256];
  }

  /** Section 6 of RFC 5389: type, length without the header, magic cookie, transaction. */
  lemma HeaderBytes(s: seq<byte>, m: Message, pwd: seq<byte>, hmac: Hmac)
    requires Serialized(s, m, pwd, hmac) && MessageOk(m) && |s| < 0x10000
    ensures BytesBits(s[0..2]) == TypeBits(m.kind, m.methodId) && FromBytes(s[2..4]) == |s| - 20
    ensures s[4..8] == [0x21, 0x12, 0xA4, 0x42] && s[8..20] == m.transId
  {
    Pow2Values();
    ToBytesBits(TypeField(m.kind, m.methodId), 2);
    TypeLaidOut(m.kind, m.methodId);
    NumberBack(|s| - 20, 2);
  }

  /** The HMAC's input: the message before the attribute, its length counting up to the attribute's end. */
  function MacInput(s: seq<byte>, e: nat): seq<byte>
    requires 20 <= e <= |s|
  {
    s[..2] + ToBytes(e + 24 - 20, 2) + s[4..e]
  }

  /** Section 15.4 of RFC 5389: type 0x0008, length 20, HMAC-SHA1. */
  lemma IntegrityBytes(s: seq<byte>, m: Message, pwd: seq<byte>, hmac: Hmac, e: nat)
    requires Serialized(s, m, pwd, hmac) && e == End(20, m.attributes)
    ensures |s| == e + 32 && s[e..e + 4] == [0x00, 0x08, 0x00, 0x14]
    ensures s[e + 4..e + 24] == hmac(pwd, MacInput(s, e))
  {
    var a := Integrity(s, e, pwd, hmac);
    assert AttributeAt(s, e, a);
    TwoBytes(0x00, 0x08, a.typ);
    TwoBytes(0x00, 0x14, |a.value|);
    Slices(s, e, ToBytes(a.typ, 2), ToBytes(|a.value|, 2));
    MacInputBytes(s, e);
  }

  lemma MacInputBytes(s: seq<byte>, e: nat)
    requires 20 <= e <= |s|
    ensures WithLength(s[..e], e + 4) == MacInput(s, e)
  {
    assert s[..e][..2] == s[..2] && s[..e][4..] == s[4..e];
  }

  /**
    Section 15.5 of RFC 5389: type 0x8028, length 4, and the CRC-32 of everything before, disguised by the letters
    STUN.
  */
  lemma FingerprintBytes(s: seq<byte>, m: Message, pwd: seq<byte>, hmac: Hmac, f: nat, c: nat)
    requires Serialized(s, m, pwd, hmac) && f == End(20, m.attributes) + 24 && c < 0x1_0000_0000
    requires LowFirst(c, 32) == Complemented(Remainder(Dividend(s[..f])))
    ensures |s| == f + 8 && s[f..f + 4] == [0x80, 0x28, 0x00, 0x04]
    ensures FromBytes(s[f + 4..]) == BitXor(c, 0x5354_554E)
  {
    var a := Fingerprint(s, f);
    assert AttributeAt(s, f, a);
    TwoBytes(0x80, 0x28, a.typ);
    TwoBytes(0x00, 0x04, |a.value|);
    Slices(s, f, ToBytes(a.typ, 2), ToBytes(|a.value|, 2));
    ChecksumIsRemainder(s[..f], c);
    MarkBytes(s, f, c, FINGERPRINT_XOR);
  }

  lemma MarkBytes(s: seq<byte>, f: nat, c: nat, x: nat)
    requires |s| == f + 8 && At(s, f + 4, ToBytes(BitXor(c, x), 4)) && c < 0x1_0000_0000 && x < 0x1_0000_0000
    ensures FromBytes(s[f + 4..]) == BitXor(c, x)
  {
    Pow2Values();
    XorBound(c, x, 32);
    NumberBack(BitXor(c, x), 4);
    assert s[f + 4..] == s[f + 4..f + 8];
  }
}
