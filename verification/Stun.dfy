/**
  `STUNMessage`, sections 6 and 15 of RFC 5389: serializing with MESSAGE-INTEGRITY and FINGERPRINT (the same in
  mcu/src/stunmessage.cpp and cca/stunmessage.cpp) and the parser of cca/stunmessage.cpp.  HMAC-SHA1 is a parameter of
  which only the 20 bytes of its result are known.
*/
module Stun {
  import opened Arith
  import opened BitStrings
  import opened Buffers
  import Crc
  import opened Wrappers
  import opened Sequences

  datatype Attribute = Attribute(typ: nat, value: seq<byte>)

  datatype Message = Message(kind: nat, methodId: nat, transId: seq<byte>, attributes: seq<Attribute>)

  /** `PastTheEnd`: the check of the size passes and the writes leave the buffer. */
  datatype Outcome = TooSmall | PastTheEnd | Written(n: nat)

  type Mac = s: seq<byte> | |s| == 20 witness seq(20, _ => 0)

  type Hmac = (seq<byte>, seq<byte>) -> Mac

  const REQUEST := 0
  const INDICATION := 1
  const RESPONSE := 2
  const BINDING := 1
  const MESSAGE_INTEGRITY := 0x0008
  const FINGERPRINT := 0x8028
  const FINGERPRINT_XOR := 0x5354_554e
  const COOKIE: seq<byte> := [0x21, 0x12, 0xA4, 0x42]

  ghost predicate AttributesOk(attrs: seq<Attribute>) {
    forall a :: a in attrs ==> a.typ < 0x10000 && |a.value| < 0x10000
  }

  /** A 2-bit class, a 12-bit method. */
  ghost predicate MessageOk(m: Message) {
    m.kind < 4 && m.methodId < 0x1000 && |m.transId| == 12 && AttributesOk(m.attributes)
  }

  // ---------- sizes ----------

  function Pad32(n: nat): (r: nat)
    ensures n <= r
  {
    if n % 4 != 0 then n - n % 4 + 4 else n
  }

  /** Where attributes that start at `i` end. */
  function End(i: nat, attrs: seq<Attribute>): (e: nat)
    ensures i <= e
    decreases |attrs|
  {
    if attrs == [] then i else End(Pad32(i + 4 + |attrs[0].value|), attrs[1..])
  }

  lemma {:induction false} EndShift(i: nat, k: nat, attrs: seq<Attribute>)
    requires k % 4 == 0
    ensures End(i + k, attrs) == End(i, attrs) + k
    decreases |attrs|
  {
    if attrs != [] {
      assert Pad32(i + k + 4 + |attrs[0].value|) == Pad32(i + 4 + |attrs[0].value|) + k;
      EndShift(Pad32(i + 4 + |attrs[0].value|), k, attrs[1..]);
    }
  }

  lemma {:induction false} EndAligned(i: nat, attrs: seq<Attribute>)
    requires i % 4 == 0
    ensures End(i, attrs) % 4 == 0
    decreases |attrs|
  {
    if attrs != [] {
      EndAligned(Pad32(i + 4 + |attrs[0].value|), attrs[1..]);
    }
  }

  /** Nothing is padded between the two attributes that are added at the end. */
  lemma NoPadding(attrs: seq<Attribute>, e: nat)
    requires e == End(20, attrs)
    ensures Pad32(e + 24) == e + 24 && Pad32(e + 32) == e + 32
  {
    EndAligned(20, attrs);
  }

  lemma {:induction false} EndSnoc(i: nat, attrs: seq<Attribute>, a: Attribute)
    ensures End(i, attrs + [a]) == Pad32(End(i, attrs) + 4 + |a.value|)
    decreases |attrs|
  {
    Snoc(attrs, a);
    if attrs != [] {
      EndSnoc(Pad32(i + 4 + |attrs[0].value|), attrs[1..], a);
    }
  }

  // ---------- attributes in a buffer ----------

  /** Attribute `a` is written at `i`. */
  ghost predicate AttributeAt(s: seq<byte>, i: nat, a: Attribute) {
    At(s, i, ToBytes(a.typ, 2)) && At(s, i + 2, ToBytes(|a.value|, 2)) && At(s, i + 4, a.value)
  }

  /** The attributes are written one after the other from `i` on, each on a 32-bit boundary after the last. */
  ghost predicate Holds(s: seq<byte>, i: nat, attrs: seq<Attribute>)
    decreases |attrs|
  {
    attrs == [] || (AttributeAt(s, i, attrs[0]) && Holds(s, Pad32(i + 4 + |attrs[0].value|), attrs[1..]))
  }

  lemma AttributeAgrees(s: seq<byte>, t: seq<byte>, lo: nat, hi: nat, i: nat, a: Attribute)
    requires Agree(s, t, lo, hi) && lo <= i && i + 4 + |a.value| <= hi && AttributeAt(s, i, a)
    ensures AttributeAt(t, i, a)
  {
    AtAgrees(s, t, lo, hi, i, ToBytes(a.typ, 2));
    AtAgrees(s, t, lo, hi, i + 2, ToBytes(|a.value|, 2));
    AtAgrees(s, t, lo, hi, i + 4, a.value);
  }

  lemma {:induction false} HoldsAgrees(s: seq<byte>, t: seq<byte>, lo: nat, hi: nat, i: nat, attrs: seq<Attribute>)
    requires Agree(s, t, lo, hi) && lo <= i && End(i, attrs) <= hi && Holds(s, i, attrs)
    ensures Holds(t, i, attrs)
    decreases |attrs|
  {
    if attrs != [] {
      AttributeAgrees(s, t, lo, hi, i, attrs[0]);
      HoldsAgrees(s, t, lo, hi, Pad32(i + 4 + |attrs[0].value|), attrs[1..]);
    }
  }

  lemma {:induction false} HoldsSnoc(s: seq<byte>, i: nat, attrs: seq<Attribute>, a: Attribute)
    requires Holds(s, i, attrs) && AttributeAt(s, End(i, attrs), a)
    ensures Holds(s, i, attrs + [a])
    decreases |attrs|
  {
    Snoc(attrs, a);
    if attrs != [] {
      HoldsSnoc(s, Pad32(i + 4 + |attrs[0].value|), attrs[1..], a);
    }
  }

  // ---------- the type field ----------

  /** Class bits go to 4 and 8, method bits around them: figure 3 of RFC 5389. */
  function TypeField(kind: nat, methodId: nat): nat {
    methodId / 128 % 32 * 512 + methodId / 16 % 8 * 32 + methodId % 16 + kind / 2 % 2 * 256 + kind % 2 * 16
  }

  function MethodOf(w: nat): nat {
    w % 16 + w / 32 % 8 * 16 + w / 512 % 32 * 128
  }

  /** As `Parse` reads it: the low class bit is taken from bit 4 of the first byte. */
  function ClassOf(w: nat): nat {
    w / 256 % 2 * 2 + w / 4096 % 2
  }

  lemma TypeFieldParts(kind: nat, methodId: nat)
    requires kind < 4 && methodId < 0x1000
    ensures var w := TypeField(kind, methodId);
            && w < 0x4000 && MethodOf(w) == methodId && ClassOf(w) == kind / 2 * 2 + methodId / 1024 % 2
            && w / 256 % 2 == kind / 2 && w / 16 % 2 == kind % 2
  {
    var a, b, c, d, e := methodId / 128, methodId / 16 % 8, methodId % 16, kind / 2, kind % 2;
    MethodParts(methodId);
    FieldParts(a, b, c, d, e);
    assert a % 32 == a && d % 2 == d;
    assert TypeField(kind, methodId) == a * 512 + b * 32 + c + d * 256 + e * 16;
  }

  lemma MethodParts(v: nat)
    requires v < 0x1000
    ensures var a, b, c := v / 128, v / 16 % 8, v % 16;
            a < 32 && v == a * 128 + b * 16 + c && a / 8 == v / 1024
  {
    var q, r := v / 16, v % 16;
    DivModUnique(v, 128, q / 8, q % 8 * 16 + r);
    var a, t := v / 128, v % 128;
    DivModUnique(v, 1024, a / 8, a % 8 * 128 + t);
  }

  lemma FieldParts(a: nat, b: nat, c: nat, d: nat, e: nat)
    requires a < 32 && b < 8 && c < 16 && d < 2 && e < 2
    ensures var w := a * 512 + b * 32 + c + d * 256 + e * 16;
            && w % 16 == c && w / 32 % 8 == b && w / 512 % 32 == a && w / 256 % 2 == d && w / 4096 % 2 == a / 8 % 2
            && w / 16 % 2 == e
  {
    var w := a * 512 + b * 32 + c + d * 256 + e * 16;
    DivModUnique(w, 16, a * 32 + d * 16 + b * 2 + e, c);
    DivModUnique(a * 32 + d * 16 + b * 2 + e, 2, a * 16 + d * 8 + b, e);
    DivModUnique(w, 32, a * 16 + d * 8 + b, e * 16 + c);
    DivModUnique(a * 16 + d * 8 + b, 8, a * 2 + d, b);
    DivModUnique(w, 512, a, d * 256 + b * 32 + e * 16 + c);
    DivModUnique(w, 256, a * 2 + d, b * 32 + e * 16 + c);
    DivModUnique(w, 4096, a / 8, a % 8 * 512 + d * 256 + b * 32 + e * 16 + c);
  }

  /** The class survives exactly if its low bit equals bit 10 of the method: for Binding, requests and responses do. */
  lemma ClassSurvivesExactly(kind: nat, methodId: nat)
    requires kind < 4 && methodId < 0x1000
    ensures ClassOf(TypeField(kind, methodId)) == kind <==> kind % 2 == methodId / 1024 % 2
  {
    TypeFieldParts(kind, methodId);
  }

  /** A Binding Indication is read back as a Binding Request. */
  lemma IndicationLost(kind: nat, methodId: nat)
    requires kind == INDICATION && methodId == BINDING
    ensures ClassOf(TypeField(kind, methodId)) == REQUEST
  {
    DivModUnique(kind, 2, 0, 1);
    DivModUnique(methodId, 1024, 0, 1);
    TypeFieldParts(kind, methodId);
  }

  // ---------- parsing ----------

  function Number(s: seq<byte>, i: nat): nat
    requires i + 2 <= |s|
  {
    FromBytes(s[i..i + 2])
  }

  /** The index `get2` reads at: full width (mcu/include/tools.h) or a BYTE (cca/tools.h). */
  function Index(i: nat, wide: bool): (k: nat)
    ensures k <= i
  {
    if wide then i else i % 0x100
  }

  /** The loop of `Parse`. */
  function ParseAttributes(s: seq<byte>, i: nat, wide: bool): seq<Attribute>
    decreases |s| - i
  {
    if i + 4 >= |s| then []
    else
      var len := Number(s, Index(i + 2, wide));
      if |s| < i + 4 + len then []
      else [Attribute(Number(s, Index(i, wide)), s[i + 4..i + 4 + len])] + ParseAttributes(s, Pad32(i + 4 + len), wide)
  }

  function ParseMessage(s: seq<byte>, wide: bool): Option<Message> {
    if |s| < 20 || s[0] / 64 != 0 || s[4..8] != COOKIE then None
    else Some(Message(ClassOf(Number(s, 0)), MethodOf(Number(s, 0)), s[8..20], ParseAttributes(s, 20, wide)))
  }

  /** In a message of at most 260 bytes every index fits a BYTE. */
  lemma {:induction false} NarrowSame(s: seq<byte>, i: nat)
    requires i % 4 == 0 && |s| <= 260
    ensures ParseAttributes(s, i, false) == ParseAttributes(s, i, true)
    decreases |s| - i, 1
  {
    if i + 4 < |s| {
      NarrowStep(s, i, Number(s, i + 2), Pad32(i + 4 + Number(s, i + 2)));
    }
  }

  lemma {:induction false} NarrowStep(s: seq<byte>, i: nat, len: nat, next: nat)
    requires |s| <= 260 && i + 4 < |s| && Index(i, false) == i && Index(i + 2, false) == i + 2
    requires len == Number(s, i + 2) && next == Pad32(i + 4 + len)
    ensures ParseAttributes(s, i, false) == ParseAttributes(s, i, true)
    decreases |s| - i, 0
  {
    if i + 4 + len <= |s| {
      NarrowSame(s, next);
      ParseOpens(s, i, false, len, next);
      ParseOpens(s, i, true, len, next);
    }
  }

  /** Beyond, the attribute at 256 is given the type and the length in the message's header. */
  lemma NarrowWraps(s: seq<byte>, i: nat)
    requires i == 0x100 && i + 4 < |s| && i + 4 + Number(s, 2) <= |s|
    ensures var r := ParseAttributes(s, i, false);
            r != [] && r[0] == Attribute(Number(s, 0), s[i + 4..i + 4 + Number(s, 2)])
  {
  }

  /** What the loop sees of a list of attributes: all but a last one without a value. */
  function Seen(attrs: seq<Attribute>): seq<Attribute> {
    if attrs != [] && attrs[|attrs| - 1].value == [] then attrs[..|attrs| - 1] else attrs
  }

  lemma SeenCons(a: Attribute, rest: seq<Attribute>)
    ensures rest != [] || a.value != [] ==> Seen([a] + rest) == [a] + Seen(rest)
    ensures rest == [] && a.value == [] ==> Seen([a] + rest) == []
  {
    if rest != [] && rest[|rest| - 1].value == [] {
      SnocConcat([a], rest);
    }
  }

  /** Attributes on 32-bit boundaries are read back, except that a last one without a value is dropped. */
  lemma {:induction false} ParsesBack(s: seq<byte>, i: nat, attrs: seq<Attribute>)
    requires i % 4 == 0 && Holds(s, i, attrs) && End(i, attrs) == |s| && AttributesOk(attrs)
    ensures ParseAttributes(s, i, true) == Seen(attrs)
    decreases |attrs|
  {
    if attrs != [] {
      var a, rest := attrs[0], attrs[1..];
      Rejoined(attrs, [a] + rest);
      HeadOk(attrs);
      SeenCons(a, rest);
      NotLast(i, attrs);
      if rest != [] || a.value != [] {
        ParsesBack(s, Pad32(i + 4 + |a.value|), rest);
        ParsesOne(s, i, a);
      }
    }
  }

  /** The last attribute is inside the message if it has a value or another attribute follows. */
  lemma NotLast(i: nat, attrs: seq<Attribute>)
    requires attrs != [] && i % 4 == 0
    ensures attrs[1..] != [] || attrs[0].value != [] ==> End(i, attrs) > i + 4
    ensures attrs[1..] == [] && attrs[0].value == [] ==> End(i, attrs) == i + 4
    ensures Pad32(i + 4 + |attrs[0].value|) % 4 == 0
  {
    if |attrs| > 1 {
      assert End(i, attrs) >= Pad32(Pad32(i + 4 + |attrs[0].value|) + 4 + |attrs[1].value|);
    }
  }

  /** A header and one attribute without a value, 24 bytes in all: no attribute is found. */
  lemma EmptyAttributeLost(s: seq<byte>, typ: nat, wide: bool)
    requires |s| == 24 && s[0] / 64 == 0 && s[4..8] == COOKIE && AttributeAt(s, 20, Attribute(typ, []))
    ensures var r := ParseMessage(s, wide); r.Some? && r.value.attributes == []
  {
  }

  lemma HeadOk(attrs: seq<Attribute>)
    requires AttributesOk(attrs) && attrs != []
    ensures attrs[0].typ < 0x10000 && |attrs[0].value| < 0x10000 && AttributesOk(attrs[1..])
  {
    assert attrs[0] in attrs;
  }

  lemma ParsesOne(s: seq<byte>, i: nat, a: Attribute)
    requires AttributeAt(s, i, a) && i + 4 < |s| && a.typ < 0x10000 && |a.value| < 0x10000
    ensures ParseAttributes(s, i, true) == [a] + ParseAttributes(s, Pad32(i + 4 + |a.value|), true)
  {
    FieldsBack(s, i, a);
    ParseOpens(s, i, true, |a.value|, Pad32(i + 4 + |a.value|));
  }

  /** The type and the length of an attribute are read back. */
  lemma FieldsBack(s: seq<byte>, i: nat, a: Attribute)
    requires AttributeAt(s, i, a) && a.typ < 0x10000 && |a.value| < 0x10000
    ensures Number(s, i) == a.typ && Number(s, i + 2) == |a.value|
  {
    Pow2Values();
    NumberBack(a.typ, 2);
    NumberBack(|a.value|, 2);
  }

  /** One turn of the loop: the attribute found moves from what is left to what was read. */
  lemma ParseStep(s: seq<byte>, i: nat, wide: bool, read: seq<Attribute>, len: nat)
    requires i + 4 < |s| && len == Number(s, Index(i + 2, wide)) && i + 4 + len <= |s|
    ensures var a := Attribute(Number(s, Index(i, wide)), s[i + 4..i + 4 + len]);
            read + ParseAttributes(s, i, wide) == read + [a] + ParseAttributes(s, Pad32(i + 4 + len), wide)
  {
    var a := Attribute(Number(s, Index(i, wide)), s[i + 4..i + 4 + len]);
    ParseOpens(s, i, wide, len, Pad32(i + 4 + len));
    Assoc(read, [a], ParseAttributes(s, Pad32(i + 4 + len), wide));
  }

  lemma ParseOpens(s: seq<byte>, i: nat, wide: bool, len: nat, next: nat)
    requires i + 4 < |s| && len == Number(s, Index(i + 2, wide)) && i + 4 + len <= |s| && next == Pad32(i + 4 + len)
    ensures ParseAttributes(s, i, wide)
         == [Attribute(Number(s, Index(i, wide)), s[i + 4..i + 4 + len])] + ParseAttributes(s, next, wide)
  {
  }

  // ---------- writing ----------

  /** Three writes side by side make an attribute. */
  lemma AttributeWritten(s0: seq<byte>, s1: seq<byte>, s2: seq<byte>, s3: seq<byte>, i: nat, a: Attribute)
    requires Placed(s0, s1, i, ToBytes(a.typ, 2)) && Placed(s1, s2, i + 2, ToBytes(|a.value|, 2))
    requires Placed(s2, s3, i + 4, a.value)
    ensures AttributeAt(s3, i, a) && Agree(s0, s3, 0, i) && Agree(s0, s3, i + 4 + |a.value|, |s0|)
  {
    var j, n := i + 4 + |a.value|, |s0|;
    Parts(s0, s1, i, ToBytes(a.typ, 2));
    Parts(s1, s2, i + 2, ToBytes(|a.value|, 2));
    Parts(s2, s3, i + 4, a.value);
    AtAgrees(s1, s2, 0, i + 2, i, ToBytes(a.typ, 2));
    AtAgrees(s2, s3, 0, i + 4, i, ToBytes(a.typ, 2));
    AtAgrees(s2, s3, 0, i + 4, i + 2, ToBytes(|a.value|, 2));
    SliceAgrees(s1, s2, 0, i + 2, 0, i);
    SliceAgrees(s2, s3, 0, i + 4, 0, i);
    SliceAgrees(s0, s1, i + 2, n, j, n);
    SliceAgrees(s1, s2, i + 4, n, j, n);
  }

  method PutAttribute(data: array<byte>, i: nat, a: Attribute)
    requires i + 4 + |a.value| <= data.Length
    modifies data
    ensures AttributeAt(data[..], i, a)
    ensures Agree(old(data[..]), data[..], 0, i) && Agree(old(data[..]), data[..], i + 4 + |a.value|, data.Length)
  {
    SetBytes(data, i, a.typ, 2);
    ghost var s1 := data[..];
    SetBytes(data, i + 2, |a.value|, 2);
    ghost var s2 := data[..];
    Copy(data, i + 4, a.value);
    AttributeWritten(old(data[..]), s1, s2, data[..], i, a);
  }

  // ---------- a serialized message ----------

  function WithLength(s: seq<byte>, v: nat): seq<byte>
    requires |s| >= 4
  {
    s[..2] + ToBytes(v, 2) + s[4..]
  }

  /** Section 15.4 of RFC 5389: the HMAC of the message so far, its length field counting up to this attribute. */
  function Integrity(s: seq<byte>, e: nat, pwd: seq<byte>, hmac: Hmac): Attribute
    requires 20 <= e <= |s|
  {
    Attribute(MESSAGE_INTEGRITY, hmac(pwd, WithLength(s[..e], e + 4)))
  }

  /** Section 15.5 of RFC 5389: the CRC-32 of everything before, disguised. */
  function Fingerprint(s: seq<byte>, e: nat): Attribute
    requires e <= |s|
  {
    Attribute(FINGERPRINT, ToBytes(BitXor(Crc.Crc32(0, s[..e]), FINGERPRINT_XOR), 4))
  }

  ghost predicate HeaderAt(s: seq<byte>, kind: nat, methodId: nat, len: nat, transId: seq<byte>) {
    && |s| >= 20 && |transId| == 12
    && At(s, 0, ToBytes(TypeField(kind, methodId), 2)) && At(s, 2, ToBytes(len, 2))
    && At(s, 4, COOKIE) && At(s, 8, transId)
  }

  /** The bytes `s` are the message `m`, authenticated and fingerprinted. */
  ghost predicate Serialized(s: seq<byte>, m: Message, pwd: seq<byte>, hmac: Hmac) {
    var e := End(20, m.attributes);
    && |s| == e + 32
    && HeaderAt(s, m.kind, m.methodId, |s| - 20, m.transId)
    && Holds(s, 20, m.attributes)
    && AttributeAt(s, e, Integrity(s, e, pwd, hmac))
    && AttributeAt(s, e + 24, Fingerprint(s, e + 24))
  }

  /**
    Parsing what was serialized gives back the method, the transaction and the attributes, followed by the two
    added ones; and the class exactly if its low bit is bit 10 of the method.  With BYTE indices this is so for
    messages of at most 260 bytes.
    */
  lemma RoundTrip(s: seq<byte>, m: Message, wide: bool, pwd: seq<byte>, hmac: Hmac)
    requires Serialized(s, m, pwd, hmac) && MessageOk(m) && (wide || |s| <= 260)
    ensures var e := End(20, m.attributes);
            var r := ParseMessage(s, wide);
            && r.Some? && r.value.methodId == m.methodId && r.value.transId == m.transId
            && r.value.attributes == m.attributes + [Integrity(s, e, pwd, hmac), Fingerprint(s, e + 24)]
            && (r.value.kind == m.kind <==> m.kind % 2 == m.methodId / 1024 % 2)
  {
    var e := End(20, m.attributes);
    AttributesParse(s, m.attributes, e, Integrity(s, e, pwd, hmac), Fingerprint(s, e + 24));
    if !wide {
      NarrowSame(s, 20);
    }
    HeaderParses(s, m, |s| - 20);
  }

  lemma AttributesParse(s: seq<byte>, attrs: seq<Attribute>, e: nat, a: Attribute, b: Attribute)
    requires Holds(s, 20, attrs) && e == End(20, attrs) && |s| == e + 32 && AttributesOk(attrs)
    requires AttributeAt(s, e, a) && |a.value| == 20 && AttributeAt(s, e + 24, b) && |b.value| == 4
    requires a.typ < 0x10000 && b.typ < 0x10000
    ensures ParseAttributes(s, 20, true) == attrs + [a, b]
  {
    BothHeld(s, 20, attrs, e, a, b);
    BothOk(attrs, a, b);
    ParsesBack(s, 20, attrs + [a, b]);
  }

  lemma HeldThen(s: seq<byte>, i: nat, attrs: seq<Attribute>, e: nat, a: Attribute, next: nat)
    requires Holds(s, i, attrs) && e == End(i, attrs) && AttributeAt(s, e, a) && next == Pad32(e + 4 + |a.value|)
    ensures Holds(s, i, attrs + [a]) && End(i, attrs + [a]) == next
  {
    EndSnoc(i, attrs, a);
    HoldsSnoc(s, i, attrs, a);
  }

  lemma BothHeld(s: seq<byte>, i: nat, attrs: seq<Attribute>, e: nat, a: Attribute, b: Attribute)
    requires Holds(s, i, attrs) && e == End(i, attrs) && i % 4 == 0
    requires AttributeAt(s, e, a) && |a.value| == 20 && AttributeAt(s, e + 24, b) && |b.value| == 4
    ensures Holds(s, i, attrs + [a, b]) && End(i, attrs + [a, b]) == e + 32
  {
    EndAligned(i, attrs);
    HeldThen(s, i, attrs, e, a, e + 24);
    HeldThen(s, i, attrs + [a], e + 24, b, e + 32);
    TwoAdded(attrs, a, b);
  }

  lemma BothOk(attrs: seq<Attribute>, a: Attribute, b: Attribute)
    requires AttributesOk(attrs) && a.typ < 0x10000 && b.typ < 0x10000 && |a.value| < 0x10000 && |b.value| < 0x10000
    ensures AttributesOk(attrs + [a, b]) && (attrs + [a, b])[|attrs + [a, b]| - 1] == b
  {
    forall x | x in attrs + [a, b] ensures x.typ < 0x10000 && |x.value| < 0x10000 {
      assert x in attrs || x == a || x == b;
    }
  }

  lemma HeaderParses(s: seq<byte>, m: Message, len: nat)
    requires MessageOk(m) && HeaderAt(s, m.kind, m.methodId, len, m.transId)
    ensures s[0] / 64 == 0 && MethodOf(Number(s, 0)) == m.methodId
    ensures ClassOf(Number(s, 0)) == m.kind <==> m.kind % 2 == m.methodId / 1024 % 2
  {
    var w := TypeField(m.kind, m.methodId);
    TypeFieldParts(m.kind, m.methodId);
    ClassSurvivesExactly(m.kind, m.methodId);
    Pow2Values();
    NumberBack(w, 2);
    assert ToBytes(w, 2)[0] == w / 256 % 256;
    assert s[0..2][0] == s[0];
  }

  // ---------- the class ----------

  class StunMessage {
    const kind: nat
    const methodId: nat
    const transId: seq<byte>
    var attributes: seq<Attribute>

    ghost function Abs(): Message
      reads this
    {
      Message(kind, methodId, transId, attributes)
    }

    constructor (kind: nat, methodId: nat, transId: seq<byte>)
      ensures Abs() == Message(kind, methodId, transId, [])
    {
      this.kind, this.methodId, this.transId := kind, methodId, transId;
      attributes := [];
    }

    method AddAttribute(a: Attribute)
      modifies this
      ensures attributes == old(attributes) + [a]
    {
      attributes := attributes + [a];
    }

    /** `Parse` of cca/stunmessage.cpp. */
    static method Parse(data: seq<byte>, wide: bool) returns (msg: StunMessage?)
      ensures msg == null <==> ParseMessage(data, wide) == None
      ensures msg != null ==> fresh(msg) && msg.Abs() == ParseMessage(data, wide).value
    {
      if |data| < 20 || data[0] / 64 != 0 || data[4..8] != COOKIE {
        return null;
      }
      var w := Number(data, 0);
      msg := new StunMessage(ClassOf(w), MethodOf(w), data[8..20]);
      var i := 20;
      while i + 4 < |data|
        invariant msg != null && fresh(msg) && 20 <= i
        invariant msg.attributes + ParseAttributes(data, i, wide) == ParseAttributes(data, 20, wide)
        decreases |data| - i
      {
        var attrType, attrLen := Number(data, Index(i, wide)), Number(data, Index(i + 2, wide));
        if |data| < i + 4 + attrLen {
          break;
        }
        ParseStep(data, i, wide, msg.attributes, attrLen);
        msg.AddAttribute(Attribute(attrType, data[i + 4..i + 4 + attrLen]));
        i := Pad32(i + 4 + attrLen);
      }
      assert ParseAttributes(data, i, wide) == [];
    }

    /** Header, both added attributes, and the attributes with their padding. */
    method GetSize() returns (size: nat)
      ensures size == End(52, attributes) == End(20, attributes) + 32
    {
      EndShift(20, 32, attributes);
      size := 52;
      for k := 0 to |attributes|
        invariant size == End(52, attributes[..k])
      {
        NextEnd(52, attributes, k);
        size := Pad32(size + 4 + |attributes[k].value|);
      }
      assert attributes[..|attributes|] == attributes;
    }

    method WriteHeader(data: array<byte>, len: nat)
      requires data.Length >= 20 && |transId| == 12
      modifies data
      ensures HeaderAt(data[..], kind, methodId, len, transId) && Agree(old(data[..]), data[..], 20, data.Length)
    {
      SetBytes(data, 0, TypeField(kind, methodId), 2);
      ghost var s1 := data[..];
      SetBytes(data, 2, len, 2);
      ghost var s2 := data[..];
      Copy(data, 4, COOKIE);
      ghost var s3 := data[..];
      Copy(data, 8, transId);
      HeaderWritten(old(data[..]), s1, s2, s3, data[..], kind, methodId, len, transId);
    }

    method WriteAttributes(data: array<byte>) returns (i: nat)
      requires 20 <= End(20, attributes) <= data.Length
      modifies data
      ensures i == End(20, attributes) && WrittenTo(old(data[..]), data[..], attributes)
    {
      var attrs := attributes;
      ghost var start := data[..];
      i := 20;
      NoneWritten(start, attrs);
      for k := 0 to |attrs|
        invariant i == End(20, attrs[..k]) && WrittenTo(start, data[..], attrs[..k])
      {
        ghost var before, at := data[..], i;
        NextEnd(20, attrs, k);
        i := PutNext(data, i, attrs[k]);
        NextHeld(start, before, data[..], attrs, k, at, attrs[k]);
      }
    }

    /** Header and attributes, with a length field that says `len`. */
    method WriteUnsigned(data: array<byte>, len: nat) returns (i: nat)
      requires 20 <= End(20, attributes) <= data.Length && |transId| == 12
      modifies data
      ensures i == End(20, attributes) && Unsigned(data[..], Abs(), len)
      ensures Agree(old(data[..]), data[..], i, data.Length)
    {
      ghost var s0 := data[..];
      WriteHeader(data, len);
      ghost var s1 := data[..];
      i := WriteAttributes(data);
      UnsignedWritten(s0, s1, data[..], Abs(), i, len);
    }

    /** The MESSAGE-INTEGRITY attribute: computed while the length field leaves the fingerprint out. */
    method WriteIntegrity(data: array<byte>, i: nat, pwd: seq<byte>, hmac: Hmac)
      requires 20 <= i && i + 32 <= data.Length
      modifies data
      ensures IntegrityPut(old(data[..]), data[..], i, pwd, hmac)
    {
      SetLength(data, i + 32 - 20 - 8);
      ghost var s1 := data[..];
      var mac := hmac(pwd, data[..i]);
      PutValueFirst(data, i, Attribute(MESSAGE_INTEGRITY, mac));
      ghost var s2 := data[..];
      SetLength(data, i + 32 - 20);
      IntegrityWritten(old(data[..]), s1, s2, data[..], i, pwd, hmac);
    }

    /** The FINGERPRINT attribute over everything before it. */
    method WriteFingerprint(data: array<byte>, i: nat, crcs: Crc.Statics)
      requires 20 <= i && i + 8 <= data.Length && crcs.Valid()
      modifies data, crcs, crcs.table
      ensures FingerprintPut(old(data[..]), data[..], i)
    {
      var crc32calc := new Crc.Crc32Calc(crcs);
      ghost var s0 := data[..];
      var crc := crc32calc.Update(data, i);
      crc := BitXor(crc, FINGERPRINT_XOR);
      SetBytes(data, i, FINGERPRINT, 2);
      ghost var s1 := data[..];
      SetBytes(data, i + 2, 4, 2);
      ghost var s2 := data[..];
      SetBytes(data, i + 4, crc, 4);
      FingerprintWritten(s0, s1, s2, data[..], i);
    }

    /** Everything after the check of the size. */
    method Assemble(data: array<byte>, msgSize: nat, pwd: seq<byte>, hmac: Hmac, crcs: Crc.Statics) returns (n: nat)
      requires msgSize == End(20, attributes) + 32 <= data.Length && |transId| == 12 && crcs.Valid()
      modifies data, crcs, crcs.table
      ensures n == msgSize && Serialized(data[..n], old(Abs()), pwd, hmac) && data[n..] == old(data[n..])
    {
      ghost var m, s0 := Abs(), data[..];
      var i := WriteUnsigned(data, msgSize - 20);
      ghost var e, s1 := i, data[..];
      i := Sign(data, i, pwd, hmac, m);
      ghost var s2 := data[..];
      n := Stamp(data, i, crcs, m, e, pwd, hmac);
      FirstPart(data[..], n, e, i, m, pwd, hmac);
      Untouched(s0, s1, s2, data[..], e, i, n);
    }

    /** The first added attribute. */
    method Sign(data: array<byte>, i: nat, pwd: seq<byte>, hmac: Hmac, ghost m: Message) returns (next: nat)
      requires i == End(20, m.attributes) && i + 32 <= data.Length && Unsigned(data[..], m, i + 12)
      modifies data
      ensures next == i + 24 && Signed(data[..], m, i, pwd, hmac) && Agree(old(data[..]), data[..], next, data.Length)
    {
      ghost var s0 := data[..];
      NoPadding(m.attributes, i);
      WriteIntegrity(data, i, pwd, hmac);
      SignedWritten(s0, data[..], m, i, pwd, hmac);
      next := Pad32(i + 4 + 20);
    }

    /** The second added attribute. */
    method Stamp(data: array<byte>, i: nat, crcs: Crc.Statics,
                 ghost m: Message, ghost e: nat, ghost pwd: seq<byte>, ghost hmac: Hmac)
      returns (next: nat)
      requires e == End(20, m.attributes) && i == e + 24 && i + 8 <= data.Length && crcs.Valid()
      requires Signed(data[..], m, e, pwd, hmac)
      modifies data, crcs, crcs.table
      ensures next == i + 8 && Signed(data[..], m, e, pwd, hmac)
      ensures FingerprintPut(old(data[..]), data[..], i)
    {
      ghost var s0 := data[..];
      NoPadding(m.attributes, e);
      WriteFingerprint(data, i, crcs);
      SignatureStays(s0, data[..], m, e, pwd, hmac);
      next := Pad32(i + 8);
    }

    /**
      `AuthenticatedFingerPrint`.  The source keeps the size of the message in 16 bits: `set2` loses nothing by it, but
      the check compares with the size modulo 2^16.
      */
    method AuthenticatedFingerPrint(data: array<byte>, size: nat, pwd: seq<byte>, hmac: Hmac, crcs: Crc.Statics)
      returns (r: Outcome)
      requires size <= data.Length && MessageOk(Abs()) && crcs.Valid()
      modifies data, crcs, crcs.table
      ensures r.TooSmall? <==> size < End(52, attributes) % 0x10000
      ensures !r.TooSmall? ==> (r.Written? <==> End(52, attributes) < 0x10000 || End(52, attributes) <= size)
      ensures r.TooSmall? ==> data[..] == old(data[..])
      ensures r.Written? ==>
                && r.n == End(52, attributes) <= data.Length
                && Serialized(data[..r.n], Abs(), pwd, hmac) && data[r.n..] == old(data[r.n..])
    {
      var full := GetSize();
      if size < full % 0x10000 {
        return TooSmall;
      }
      if size < full {
        return PastTheEnd;
      }
      var n := Assemble(data, full, pwd, hmac, crcs);
      r := Written(n);
    }
  }

  /** One attribute of 65535 bytes, and a buffer of 56 passes the check for 65592. */
  lemma CheckPassedWrongly(a: Attribute)
    requires |a.value| == 0xffff
    ensures End(52, [a]) == 65592 && End(52, [a]) % 0x10000 == 56
  {
    assert [a][1..] == [];
    assert End(52, [a]) == Pad32(52 + 4 + 0xffff);
  }

  method PutNext(data: array<byte>, i: nat, a: Attribute) returns (next: nat)
    requires i + 4 + |a.value| <= data.Length
    modifies data
    ensures next == Pad32(i + 4 + |a.value|) && AttributeAt(data[..], i, a)
    ensures Agree(old(data[..]), data[..], 0, i) && Agree(old(data[..]), data[..], i + 4 + |a.value|, data.Length)
  {
    PutAttribute(data, i, a);
    next := Pad32(i + 4 + |a.value|);
  }

  /** The attribute is at `i`; nothing else but the length field has changed. */
  ghost predicate IntegrityPut(s: seq<byte>, t: seq<byte>, i: nat, pwd: seq<byte>, hmac: Hmac) {
    && 20 <= i && i + 24 <= |s|
    && Agree(s, t, 0, 2) && At(t, 2, ToBytes(i + 12, 2)) && Agree(s, t, 4, i) && Agree(s, t, i + 24, |s|)
    && AttributeAt(t, i, Integrity(t, i, pwd, hmac))
  }

  ghost predicate FingerprintPut(s: seq<byte>, t: seq<byte>, i: nat) {
    i + 8 <= |s| && Agree(s, t, 0, i) && Agree(s, t, i + 8, |s|) && AttributeAt(t, i, Fingerprint(t, i))
  }

  lemma IntegrityWritten(s0: seq<byte>, s1: seq<byte>, s2: seq<byte>, s3: seq<byte>, i: nat, pwd: seq<byte>, hmac: Hmac)
    requires 20 <= i && i + 32 <= |s0| && LengthSet(s0, s1, i + 4) && LengthSet(s2, s3, i + 12)
    requires AttributeAt(s2, i, Attribute(MESSAGE_INTEGRITY, hmac(pwd, s1[..i])))
    requires Agree(s1, s2, 0, i) && Agree(s1, s2, i + 24, |s0|)
    ensures IntegrityPut(s0, s3, i, pwd, hmac)
  {
    var n := |s0|;
    AttributeAgrees(s2, s3, 4, n, i, Attribute(MESSAGE_INTEGRITY, hmac(pwd, s1[..i])));
    SliceAgrees(s0, s1, 4, n, 4, i);
    SliceAgrees(s0, s1, 4, n, i + 24, n);
    SliceAgrees(s2, s3, 4, n, 4, i);
    SliceAgrees(s2, s3, 4, n, i + 24, n);
    SliceAgrees(s1, s2, 0, i, 0, 2);
    SliceAgrees(s1, s2, 0, i, 4, i);
    Relengthed(s1, s3, i, i + 4);
  }

  /** Only the length field has changed. */
  ghost predicate LengthSet(s: seq<byte>, t: seq<byte>, len: nat) {
    |s| == |t| && At(t, 2, ToBytes(len, 2)) && Agree(s, t, 0, 2) && Agree(s, t, 4, |s|)
  }

  method SetLength(data: array<byte>, len: nat)
    requires 4 <= data.Length
    modifies data
    ensures LengthSet(old(data[..]), data[..], len)
  {
    SetBytes(data, 2, len, 2);
    Parts(old(data[..]), data[..], 2, ToBytes(len, 2));
  }

  /** An attribute written value first. */
  method PutValueFirst(data: array<byte>, i: nat, a: Attribute)
    requires i + 4 + |a.value| <= data.Length
    modifies data
    ensures AttributeAt(data[..], i, a)
    ensures Agree(old(data[..]), data[..], 0, i) && Agree(old(data[..]), data[..], i + 4 + |a.value|, data.Length)
  {
    Copy(data, i + 4, a.value);
    ghost var s1 := data[..];
    SetBytes(data, i, a.typ, 2);
    ghost var s2 := data[..];
    SetBytes(data, i + 2, |a.value|, 2);
    Parts(old(data[..]), s1, i + 4, a.value);
    AttributePieces(s1, s2, data[..], i, a.typ, a.value);
    Kept(old(data[..]), s1, s2, data[..], i, i + 4 + |a.value|);
  }

  /** Type and length around a value that is already there. */
  lemma AttributePieces(s1: seq<byte>, s2: seq<byte>, s3: seq<byte>, i: nat, typ: nat, value: seq<byte>)
    requires At(s1, i + 4, value) && Placed(s1, s2, i, ToBytes(typ, 2)) && Placed(s2, s3, i + 2, ToBytes(|value|, 2))
    ensures AttributeAt(s3, i, Attribute(typ, value)) && Agree(s1, s2, 0, i) && Agree(s1, s2, i + 2, |s1|)
    ensures Agree(s2, s3, 0, i + 2) && Agree(s2, s3, i + 4, |s1|)
  {
    Parts(s1, s2, i, ToBytes(typ, 2));
    Parts(s2, s3, i + 2, ToBytes(|value|, 2));
    AtAgrees(s1, s2, i + 2, |s1|, i + 4, value);
    AtAgrees(s2, s3, i + 4, |s1|, i + 4, value);
    AtAgrees(s2, s3, 0, i + 2, i, ToBytes(typ, 2));
  }

  lemma Kept(s0: seq<byte>, s1: seq<byte>, s2: seq<byte>, s3: seq<byte>, i: nat, j: nat)
    requires i + 4 <= j <= |s0| && |s0| == |s1| == |s2| == |s3|
    requires Agree(s0, s1, 0, i + 4) && Agree(s0, s1, j, |s0|)
    requires Agree(s1, s2, 0, i) && Agree(s1, s2, i + 2, |s0|) && Agree(s2, s3, 0, i + 2) && Agree(s2, s3, i + 4, |s0|)
    ensures Agree(s0, s3, 0, i) && Agree(s0, s3, j, |s0|)
  {
    var n := |s0|;
    SliceAgrees(s0, s1, 0, i + 4, 0, i);
    SliceAgrees(s2, s3, 0, i + 2, 0, i);
    SliceAgrees(s1, s2, i + 2, n, j, n);
    SliceAgrees(s2, s3, i + 4, n, j, n);
  }

  /** Only the length field differs. */
  lemma Relengthed(s: seq<byte>, t: seq<byte>, i: nat, len: nat)
    requires 4 <= i <= |s| == |t| && Agree(s, t, 0, 2) && Agree(s, t, 4, i) && At(s, 2, ToBytes(len, 2))
    ensures WithLength(t[..i], len) == s[..i]
  {
    Subslice(t, 0, i, 4, i);
    Subslice(t, 0, i, 0, 2);
    assert s[..i] == s[0..2] + s[2..4] + s[4..i];
  }

  lemma FingerprintWritten(s0: seq<byte>, s1: seq<byte>, s2: seq<byte>, s3: seq<byte>, i: nat)
    requires 20 <= i && i + 8 <= |s0|
    requires Placed(s0, s1, i, ToBytes(FINGERPRINT, 2)) && Placed(s1, s2, i + 2, ToBytes(4, 2))
    requires Placed(s2, s3, i + 4, Fingerprint(s0, i).value)
    ensures FingerprintPut(s0, s3, i)
  {
    AttributeWritten(s0, s1, s2, s3, i, Fingerprint(s0, i));
    assert s0[0..i] == s0[..i] && s3[0..i] == s3[..i];
  }

  // ---------- header, attributes, signature ----------

  ghost predicate Unsigned(s: seq<byte>, m: Message, len: nat) {
    HeaderAt(s, m.kind, m.methodId, len, m.transId) && Holds(s, 20, m.attributes)
  }

  ghost predicate Signed(s: seq<byte>, m: Message, e: nat, pwd: seq<byte>, hmac: Hmac) {
    Unsigned(s, m, e + 12) && 20 <= e <= |s| && AttributeAt(s, e, Integrity(s, e, pwd, hmac))
  }

  lemma UnsignedWritten(s0: seq<byte>, s1: seq<byte>, s2: seq<byte>, m: Message, i: nat, len: nat)
    requires i == End(20, m.attributes) <= |s0| && HeaderAt(s1, m.kind, m.methodId, len, m.transId)
    requires Agree(s0, s1, 20, |s0|) && WrittenTo(s1, s2, m.attributes)
    ensures Unsigned(s2, m, len) && Agree(s0, s2, i, |s0|)
  {
    HeaderAgrees(s1, s2, 20, m.kind, m.methodId, len, m.transId);
    SliceAgrees(s0, s1, 20, |s0|, i, |s0|);
  }

  lemma HeaderAgrees(s: seq<byte>, t: seq<byte>, hi: nat, kind: nat, methodId: nat, len: nat, transId: seq<byte>)
    requires 20 <= hi && Agree(s, t, 0, hi) && HeaderAt(s, kind, methodId, len, transId)
    ensures HeaderAt(t, kind, methodId, len, transId)
  {
    AtAgrees(s, t, 0, hi, 0, ToBytes(TypeField(kind, methodId), 2));
    AtAgrees(s, t, 0, hi, 2, ToBytes(len, 2));
    AtAgrees(s, t, 0, hi, 4, COOKIE);
    AtAgrees(s, t, 0, hi, 8, transId);
  }

  lemma SignedWritten(s: seq<byte>, t: seq<byte>, m: Message, i: nat, pwd: seq<byte>, hmac: Hmac)
    requires i == End(20, m.attributes) && Unsigned(s, m, i + 12) && IntegrityPut(s, t, i, pwd, hmac)
    ensures Signed(t, m, i, pwd, hmac)
  {
    AtAgrees(s, t, 0, 2, 0, ToBytes(TypeField(m.kind, m.methodId), 2));
    AtAgrees(s, t, 4, i, 4, COOKIE);
    AtAgrees(s, t, 4, i, 8, m.transId);
    HoldsAgrees(s, t, 4, i, 20, m.attributes);
  }

  lemma SignatureStays(s: seq<byte>, t: seq<byte>, m: Message, e: nat, pwd: seq<byte>, hmac: Hmac)
    requires e == End(20, m.attributes) && Signed(s, m, e, pwd, hmac) && Agree(s, t, 0, e + 24)
    ensures Signed(t, m, e, pwd, hmac)
  {
    HeaderAgrees(s, t, e + 24, m.kind, m.methodId, e + 12, m.transId);
    HoldsAgrees(s, t, 0, e + 24, 20, m.attributes);
    SliceAgrees(s, t, 0, e + 24, 0, e);
    assert s[0..e] == s[..e] && t[0..e] == t[..e];
    AttributeAgrees(s, t, 0, e + 24, e, Integrity(s, e, pwd, hmac));
  }

  /** The message is the first `n` bytes of the buffer. */
  lemma FirstPart(s: seq<byte>, n: nat, e: nat, f: nat, m: Message, pwd: seq<byte>, hmac: Hmac)
    requires e == End(20, m.attributes) && f == e + 24 && n == e + 32 <= |s| && Signed(s, m, e, pwd, hmac)
    requires AttributeAt(s, f, Fingerprint(s, f))
    ensures Serialized(s[..n], m, pwd, hmac)
  {
    HoldsFirst(s, n, 20, m.attributes);
    HeaderFirst(s, n, m.kind, m.methodId, e + 12, m.transId);
    SignatureFirst(s, n, e, pwd, hmac);
  }

  lemma SignatureFirst(s: seq<byte>, n: nat, e: nat, pwd: seq<byte>, hmac: Hmac)
    requires 20 <= e && n == e + 32 <= |s|
    requires AttributeAt(s, e, Integrity(s, e, pwd, hmac)) && AttributeAt(s, e + 24, Fingerprint(s, e + 24))
    ensures AttributeAt(s[..n], e, Integrity(s[..n], e, pwd, hmac))
    ensures AttributeAt(s[..n], e + 24, Fingerprint(s[..n], e + 24))
  {
    AttributeFirst(s, n, e, Integrity(s, e, pwd, hmac));
    AttributeFirst(s, n, e + 24, Fingerprint(s, e + 24));
    AddedFirst(s, n, e, pwd, hmac);
  }

  lemma AddedFirst(s: seq<byte>, n: nat, e: nat, pwd: seq<byte>, hmac: Hmac)
    requires 20 <= e && e + 24 <= n <= |s|
    ensures Integrity(s[..n], e, pwd, hmac) == Integrity(s, e, pwd, hmac)
    ensures Fingerprint(s[..n], e + 24) == Fingerprint(s, e + 24)
  {
    assert s[..n][..e] == s[..e] && s[..n][..e + 24] == s[..e + 24];
  }

  lemma HeaderFirst(s: seq<byte>, n: nat, kind: nat, methodId: nat, len: nat, transId: seq<byte>)
    requires HeaderAt(s, kind, methodId, len, transId) && 20 <= n <= |s|
    ensures HeaderAt(s[..n], kind, methodId, len, transId)
  {
    AtFirst(s, n, 0, ToBytes(TypeField(kind, methodId), 2));
    AtFirst(s, n, 2, ToBytes(len, 2));
    AtFirst(s, n, 4, COOKIE);
    AtFirst(s, n, 8, transId);
  }

  lemma AtFirst(s: seq<byte>, n: nat, i: nat, bytes: seq<byte>)
    requires At(s, i, bytes) && i + |bytes| <= n <= |s|
    ensures At(s[..n], i, bytes)
  {
    Subslice(s, 0, n, i, i + |bytes|);
    assert s[0..n] == s[..n];
  }

  lemma AttributeFirst(s: seq<byte>, n: nat, i: nat, a: Attribute)
    requires AttributeAt(s, i, a) && i + 4 + |a.value| <= n <= |s|
    ensures AttributeAt(s[..n], i, a)
  {
    AtFirst(s, n, i, ToBytes(a.typ, 2));
    AtFirst(s, n, i + 2, ToBytes(|a.value|, 2));
    AtFirst(s, n, i + 4, a.value);
  }

  lemma {:induction false} HoldsFirst(s: seq<byte>, n: nat, i: nat, attrs: seq<Attribute>)
    requires Holds(s, i, attrs) && End(i, attrs) <= n <= |s|
    ensures Holds(s[..n], i, attrs)
    decreases |attrs|
  {
    if attrs != [] {
      AttributeFirst(s, n, i, attrs[0]);
      HoldsFirst(s, n, Pad32(i + 4 + |attrs[0].value|), attrs[1..]);
    }
  }

  lemma Untouched(s0: seq<byte>, s1: seq<byte>, s2: seq<byte>, s3: seq<byte>, e: nat, f: nat, n: nat)
    requires e <= f <= n <= |s0|
    requires Agree(s0, s1, e, |s0|) && Agree(s1, s2, f, |s0|) && Agree(s2, s3, n, |s0|)
    ensures s3[n..] == s0[n..]
  {
    SliceAgrees(s0, s1, e, |s0|, n, |s0|);
    SliceAgrees(s1, s2, f, |s0|, n, |s0|);
    assert s3[n..] == s3[n..|s0|] && s0[n..] == s0[n..|s0|];
  }

  ghost predicate WrittenTo(start: seq<byte>, s: seq<byte>, attrs: seq<Attribute>) {
    Holds(s, 20, attrs) && Agree(start, s, 0, 20) && Agree(start, s, End(20, attrs), |start|)
  }

  lemma NoneWritten(s: seq<byte>, attrs: seq<Attribute>)
    requires 20 <= |s|
    ensures End(20, attrs[..0]) == 20 && WrittenTo(s, s, attrs[..0]) && attrs[..|attrs|] == attrs
  {
  }

  lemma NextHeld(start: seq<byte>, before: seq<byte>, after: seq<byte>, attrs: seq<Attribute>, k: nat, i: nat,
                 a: Attribute)
    requires k < |attrs| && a == attrs[k] && i == End(20, attrs[..k]) && End(20, attrs[..k + 1]) <= |start|
    requires WrittenTo(start, before, attrs[..k]) && AttributeAt(after, i, a)
    requires Agree(before, after, 0, i) && Agree(before, after, i + 4 + |a.value|, |before|)
    ensures WrittenTo(start, after, attrs[..k + 1])
  {
    NextEnd(20, attrs, k);
    NextHolds(before, after, 20, attrs[..k], a, i);
    NextAgrees(start, before, after, 20, i, i + 4 + |a.value|, End(20, attrs[..k + 1]));
  }

  lemma NextHolds(before: seq<byte>, after: seq<byte>, from: nat, init: seq<Attribute>, a: Attribute, i: nat)
    requires Holds(before, from, init) && i == End(from, init) && Agree(before, after, 0, i) && AttributeAt(after, i, a)
    ensures Holds(after, from, init + [a])
  {
    HoldsAgrees(before, after, 0, i, from, init);
    HoldsSnoc(after, from, init, a);
  }

  lemma NextAgrees(start: seq<byte>, before: seq<byte>, after: seq<byte>, lo: nat, i: nat, m: nat, j: nat)
    requires Agree(start, before, 0, lo) && Agree(start, before, i, |start|)
    requires Agree(before, after, 0, i) && Agree(before, after, m, |before|)
    requires lo <= i <= m <= j <= |start|
    ensures Agree(start, after, 0, lo) && Agree(start, after, j, |start|)
  {
    SliceAgrees(before, after, 0, i, 0, lo);
    SliceAgrees(start, before, i, |start|, j, |start|);
    SliceAgrees(before, after, m, |before|, j, |start|);
  }

  lemma HeaderWritten(s0: seq<byte>, s1: seq<byte>, s2: seq<byte>, s3: seq<byte>, s4: seq<byte>,
                      kind: nat, methodId: nat, len: nat, transId: seq<byte>)
    requires |s0| >= 20 && |transId| == 12
    requires Placed(s0, s1, 0, ToBytes(TypeField(kind, methodId), 2)) && Placed(s1, s2, 2, ToBytes(len, 2))
    requires Placed(s2, s3, 4, COOKIE) && Placed(s3, s4, 8, transId)
    ensures HeaderAt(s4, kind, methodId, len, transId) && Agree(s0, s4, 20, |s0|)
  {
    var n, typ := |s0|, ToBytes(TypeField(kind, methodId), 2);
    Parts(s0, s1, 0, typ);
    Parts(s1, s2, 2, ToBytes(len, 2));
    Parts(s2, s3, 4, COOKIE);
    Parts(s3, s4, 8, transId);
    AtAgrees(s1, s2, 0, 2, 0, typ);
    AtAgrees(s2, s3, 0, 4, 0, typ);
    AtAgrees(s3, s4, 0, 8, 0, typ);
    AtAgrees(s2, s3, 0, 4, 2, ToBytes(len, 2));
    AtAgrees(s3, s4, 0, 8, 2, ToBytes(len, 2));
    AtAgrees(s3, s4, 0, 8, 4, COOKIE);
    SliceAgrees(s0, s1, 2, n, 20, n);
    SliceAgrees(s1, s2, 4, n, 20, n);
    SliceAgrees(s2, s3, 8, n, 20, n);
  }

  lemma {:induction false} EndPrefix(i: nat, attrs: seq<Attribute>, k: nat)
    requires k <= |attrs|
    ensures End(i, attrs[..k]) <= End(i, attrs)
    decreases |attrs|
  {
    if k > 0 {
      assert attrs[..k][1..] == attrs[1..][..k - 1];
      EndPrefix(Pad32(i + 4 + |attrs[0].value|), attrs[1..], k - 1);
    }
  }

  lemma NextEnd(i: nat, attrs: seq<Attribute>, k: nat)
    requires k < |attrs|
    ensures attrs[..k + 1] == attrs[..k] + [attrs[k]]
    ensures End(i, attrs[..k + 1]) == Pad32(End(i, attrs[..k]) + 4 + |attrs[k].value|) <= End(i, attrs)
  {
    assert attrs[..k + 1] == attrs[..k] + [attrs[k]];
    EndSnoc(i, attrs[..k], attrs[k]);
    EndPrefix(i, attrs, k + 1);
  }
}
