/**
  `STUNMessage::Parse` of mcu/src/stunmessage.cpp: a message is taken only if its attributes fill it exactly, stand in
  the order of sections 15.4 and 15.5 of RFC 5389, and its FINGERPRINT, if there is one, is right.
  */
module StunChecked {
  import opened BitStrings
  import opened Sequences
  import opened Wrappers
  import opened Stun

  /** `Open`: a FINGERPRINT without a value, whose four bytes are read behind the message. */
  datatype Verdict = Refused | Accepted(msg: Message) | Open

  /** The loop: `Broken` discards the message; else the attributes, where the FINGERPRINT is and where it ended. */
  datatype Scan = Broken | Scanned(attrs: seq<Attribute>, mark: Option<nat>, end: nat)

  function ClassIn(w: nat): nat {
    w / 256 % 2 * 2 + w / 16 % 2
  }

  /** The loop of `Parse` from `i` on; `integrity` and `mark` tell which of the two special attributes were seen. */
  function ScanFrom(s: seq<byte>, i: nat, integrity: bool, mark: Option<nat>): Scan
    decreases |s| - i
  {
    if i + 4 > |s| then Scanned([], mark, i)
    else
      var typ, len := Number(s, i), Number(s, i + 2);
      if |s| < i + 4 + len || mark.Some? || (integrity && typ != FINGERPRINT) then Broken
      else Prepended(Attribute(typ, s[i + 4..i + 4 + len]),
                     ScanFrom(s, Pad32(i + 4 + len), integrity || typ == MESSAGE_INTEGRITY,
                              if typ == FINGERPRINT then Some(i) else None))
  }

  function Prepended(a: Attribute, r: Scan): Scan {
    match r
    case Broken => Broken
    case Scanned(attrs, mark, end) => Scanned([a] + attrs, mark, end)
  }

  /** What a FINGERPRINT at `i` has to hold. */
  function Checksum(s: seq<byte>, i: nat): nat
    requires i <= |s|
  {
    BitXor(Crc.Crc32(0, s[..i]), FINGERPRINT_XOR)
  }

  predicate HeaderOk(s: seq<byte>) {
    |s| >= 20 && s[0] / 64 == 0 && s[4..8] == COOKIE
  }

  function Header(s: seq<byte>, attrs: seq<Attribute>): Message
    requires |s| >= 20
  {
    Message(ClassIn(Number(s, 0)), MethodOf(Number(s, 0)), s[8..20], attrs)
  }

  function Judge(s: seq<byte>, r: Scan): Verdict
    requires |s| >= 20
  {
    match r
    case Broken => Refused
    case Scanned(attrs, mark, end) =>
      if end != |s| then Refused
      else if mark == None then Accepted(Header(s, attrs))
      else if mark.value + 8 > |s| then Open
      else if FromBytes(s[mark.value + 4..mark.value + 8]) != Checksum(s, mark.value) then Refused
      else Accepted(Header(s, attrs))
  }

  function ParseChecked(s: seq<byte>): Verdict {
    if !HeaderOk(s) then Refused else Judge(s, ScanAll(s))
  }

  function ScanAll(s: seq<byte>): Scan {
    ScanFrom(s, 20, false, None)
  }

  // ---------- which messages are taken ----------

  /** The order the loop lets through, given which of the special attributes came before. */
  ghost predicate OrderFrom(integrity: bool, marked: bool, attrs: seq<Attribute>)
    decreases |attrs|
  {
    attrs == [] ||
    (!marked && (integrity ==> attrs[0].typ == FINGERPRINT) &&
     OrderFrom(integrity || attrs[0].typ == MESSAGE_INTEGRITY, attrs[0].typ == FINGERPRINT, attrs[1..]))
  }

  ghost predicate MayPrecede(a: Attribute, b: Attribute) {
    a.typ != FINGERPRINT && (a.typ == MESSAGE_INTEGRITY ==> b.typ == FINGERPRINT)
  }

  /** FINGERPRINT comes last, and MESSAGE-INTEGRITY before nothing else. */
  ghost predicate InOrder(attrs: seq<Attribute>) {
    forall j, k :: 0 <= j < k < |attrs| ==> MayPrecede(attrs[j], attrs[k])
  }

  lemma {:induction false} OrderMeans(integrity: bool, attrs: seq<Attribute>)
    ensures OrderFrom(integrity, false, attrs) <==>
              InOrder(attrs) && (integrity ==> forall k :: 0 <= k < |attrs| ==> attrs[k].typ == FINGERPRINT)
    decreases |attrs|
  {
    if attrs != [] {
      var a, rest := attrs[0], attrs[1..];
      OrderMeans(integrity || a.typ == MESSAGE_INTEGRITY, rest);
      InOrderCons(attrs);
      if rest != [] {
        assert rest[0] == attrs[1];
      }
    }
  }

  lemma InOrderCons(attrs: seq<Attribute>)
    requires attrs != []
    ensures InOrder(attrs) <==>
              InOrder(attrs[1..]) && forall k :: 0 <= k < |attrs[1..]| ==> MayPrecede(attrs[0], attrs[1..][k])
  {
    var rest := attrs[1..];
    assert forall k :: 0 <= k < |rest| ==> rest[k] == attrs[k + 1];
    assert forall k :: 1 <= k < |attrs| ==> attrs[k] == rest[k - 1];
  }

  /** Where the FINGERPRINT of attributes that begin at `i` stands, if the last one is one. */
  ghost function MarkOf(i: nat, attrs: seq<Attribute>, mark: Option<nat>): Option<nat>
    decreases |attrs|
  {
    if attrs == [] then mark
    else MarkOf(Pad32(i + 4 + |attrs[0].value|), attrs[1..], if attrs[0].typ == FINGERPRINT then Some(i) else None)
  }

  /** The attributes `attrs` fill the message from `i` to its end, in an order the loop lets through. */
  ghost predicate Fills(s: seq<byte>, i: nat, integrity: bool, marked: bool, attrs: seq<Attribute>) {
    Holds(s, i, attrs) && AttributesOk(attrs) && End(i, attrs) == |s| && OrderFrom(integrity, marked, attrs)
  }

  /** What is at `i` is attribute `a` exactly if its type, its length and its bytes say so. */
  lemma AttributeIs(s: seq<byte>, i: nat, a: Attribute)
    requires i + 4 <= |s|
    ensures AttributeAt(s, i, a) && a.typ < 0x10000 && |a.value| < 0x10000
       <==> i + 4 + Number(s, i + 2) <= |s| && a == Attribute(Number(s, i), s[i + 4..i + 4 + Number(s, i + 2)])
  {
    Pow2Values();
    BytesBack(s[i..i + 2]);
    BytesBack(s[i + 2..i + 4]);
    if AttributeAt(s, i, a) && a.typ < 0x10000 && |a.value| < 0x10000 {
      FieldsBack(s, i, a);
    }
  }

  lemma FillsCons(s: seq<byte>, i: nat, integrity: bool, marked: bool, a: Attribute, rest: seq<Attribute>, next: nat)
    requires next == Pad32(i + 4 + |a.value|)
    ensures Fills(s, i, integrity, marked, [a] + rest) <==>
              && AttributeAt(s, i, a) && a.typ < 0x10000 && |a.value| < 0x10000
              && !marked && (integrity ==> a.typ == FINGERPRINT)
              && Fills(s, next, integrity || a.typ == MESSAGE_INTEGRITY, a.typ == FINGERPRINT, rest)
  {
    var attrs := [a] + rest;
    assert attrs[0] == a && attrs[1..] == rest;
    assert AttributesOk(attrs) <==> a.typ < 0x10000 && |a.value| < 0x10000 && AttributesOk(rest) by {
      InCons(attrs);
    }
  }

  lemma MarkCons(i: nat, a: Attribute, rest: seq<Attribute>, mark: Option<nat>)
    ensures MarkOf(i, [a] + rest, mark)
         == MarkOf(Pad32(i + 4 + |a.value|), rest, if a.typ == FINGERPRINT then Some(i) else None)
  {
    assert ([a] + rest)[1..] == rest;
  }

  /** What the loop and the definition of the list say about a first attribute `a`. */
  ghost predicate ScanAgrees(s: seq<byte>, i: nat, integrity: bool, mark: Option<nat>, attrs: seq<Attribute>) {
    ScanFrom(s, i, integrity, mark) == Scanned(attrs, MarkOf(i, attrs, mark), |s|)
    <==> Fills(s, i, integrity, mark.Some?, attrs)
  }

  /** The loop arrives at the end with `attrs` exactly if these attributes are what is in the message. */
  lemma {:induction false} ScanExactly(s: seq<byte>, i: nat, integrity: bool, mark: Option<nat>, attrs: seq<Attribute>)
    ensures ScanAgrees(s, i, integrity, mark, attrs)
    decreases |s| - i, 1
  {
    if i + 4 <= |s| && attrs != [] {
      Rejoined(attrs, [attrs[0]] + attrs[1..]);
      ScanFirst(s, i, integrity, mark, attrs[0], attrs[1..], Number(s, i), Number(s, i + 2));
    }
  }

  lemma {:induction false} ScanFirst(s: seq<byte>, i: nat, integrity: bool, mark: Option<nat>, a: Attribute,
                                     rest: seq<Attribute>, typ: nat, len: nat)
    requires i + 4 <= |s| && typ == Number(s, i) && len == Number(s, i + 2)
    ensures ScanAgrees(s, i, integrity, mark, [a] + rest)
    decreases |s| - i, 0
  {
    if |s| < i + 4 + len || mark.Some? || (integrity && typ != FINGERPRINT) {
      ScanBroken(s, i, integrity, mark, typ, len, a, rest);
    } else if a == Attribute(typ, s[i + 4..i + 4 + len]) {
      ScanExactly(s, Pad32(i + 4 + len), integrity || typ == MESSAGE_INTEGRITY,
                  if typ == FINGERPRINT then Some(i) else None, rest);
      ScanSame(s, i, integrity, mark, typ, len, a, rest);
    } else {
      ScanOther(s, i, integrity, mark, typ, len, a, rest);
    }
  }

  lemma ScanBroken(s: seq<byte>, i: nat, integrity: bool, mark: Option<nat>, typ: nat, len: nat,
                   a: Attribute, rest: seq<Attribute>)
    requires i + 4 <= |s| && typ == Number(s, i) && len == Number(s, i + 2)
    requires |s| < i + 4 + len || mark.Some? || (integrity && typ != FINGERPRINT)
    ensures ScanAgrees(s, i, integrity, mark, [a] + rest)
  {
    AttributeIs(s, i, a);
    FillsCons(s, i, integrity, mark.Some?, a, rest, Pad32(i + 4 + |a.value|));
    ScanBreaks(s, i, integrity, mark, typ, len);
  }

  lemma ScanSame(s: seq<byte>, i: nat, integrity: bool, mark: Option<nat>, typ: nat, len: nat,
                 a: Attribute, rest: seq<Attribute>)
    requires i + 4 <= |s| && typ == Number(s, i) && len == Number(s, i + 2) && i + 4 + len <= |s|
    requires mark == None && (integrity ==> typ == FINGERPRINT) && a == Attribute(typ, s[i + 4..i + 4 + len])
    requires ScanAgrees(s, Pad32(i + 4 + len), integrity || typ == MESSAGE_INTEGRITY,
                        if typ == FINGERPRINT then Some(i) else None, rest)
    ensures ScanAgrees(s, i, integrity, mark, [a] + rest)
  {
    var next, mark' := Pad32(i + 4 + len), if typ == FINGERPRINT then Some(i) else None;
    AttributeIs(s, i, a);
    FillsCons(s, i, integrity, mark.Some?, a, rest, next);
    ScanOpens(s, i, integrity, mark, typ, len);
    MarkCons(i, a, rest, mark);
    SameCons(a, a, ScanFrom(s, next, integrity || typ == MESSAGE_INTEGRITY, mark'), rest,
             MarkOf(i, [a] + rest, mark), |s|);
  }

  lemma ScanOther(s: seq<byte>, i: nat, integrity: bool, mark: Option<nat>, typ: nat, len: nat,
                  a: Attribute, rest: seq<Attribute>)
    requires i + 4 <= |s| && typ == Number(s, i) && len == Number(s, i + 2) && i + 4 + len <= |s|
    requires mark == None && (integrity ==> typ == FINGERPRINT) && a != Attribute(typ, s[i + 4..i + 4 + len])
    ensures ScanAgrees(s, i, integrity, mark, [a] + rest)
  {
    AttributeIs(s, i, a);
    FillsCons(s, i, integrity, mark.Some?, a, rest, Pad32(i + 4 + |a.value|));
    ScanOpens(s, i, integrity, mark, typ, len);
    SameCons(Attribute(typ, s[i + 4..i + 4 + len]), a,
             ScanFrom(s, Pad32(i + 4 + len), integrity || typ == MESSAGE_INTEGRITY,
                      if typ == FINGERPRINT then Some(i) else None),
             rest, MarkOf(i, [a] + rest, mark), |s|);
  }

  lemma ScanBreaks(s: seq<byte>, i: nat, integrity: bool, mark: Option<nat>, typ: nat, len: nat)
    requires i + 4 <= |s| && typ == Number(s, i) && len == Number(s, i + 2)
    requires |s| < i + 4 + len || mark.Some? || (integrity && typ != FINGERPRINT)
    ensures ScanFrom(s, i, integrity, mark) == Broken
  {
  }

  lemma ScanOpens(s: seq<byte>, i: nat, integrity: bool, mark: Option<nat>, typ: nat, len: nat)
    requires i + 4 <= |s| && typ == Number(s, i) && len == Number(s, i + 2) && i + 4 + len <= |s|
    requires mark == None && (integrity ==> typ == FINGERPRINT)
    ensures ScanFrom(s, i, integrity, mark)
         == Prepended(Attribute(typ, s[i + 4..i + 4 + len]),
                      ScanFrom(s, Pad32(i + 4 + len), integrity || typ == MESSAGE_INTEGRITY,
                               if typ == FINGERPRINT then Some(i) else None))
  {
  }

  lemma SameCons(b: Attribute, a: Attribute, r: Scan, rest: seq<Attribute>, mark: Option<nat>, end: nat)
    ensures Prepended(b, r) == Scanned([a] + rest, mark, end) <==> a == b && r == Scanned(rest, mark, end)
  {
    if r.Scanned? {
      assert ([b] + r.attrs)[0] == b && ([b] + r.attrs)[1..] == r.attrs;
      assert ([a] + rest)[0] == a && ([a] + rest)[1..] == rest;
    }
  }

  /** What the loop finds lies where it says. */
  lemma {:induction false} ScanMark(s: seq<byte>, i: nat, integrity: bool, mark: Option<nat>)
    ensures var r := ScanFrom(s, i, integrity, mark);
            r.Scanned? ==> r.mark == MarkOf(i, r.attrs, mark) && r.end == End(i, r.attrs)
    decreases |s| - i
  {
    if i + 4 <= |s| && i + 4 + Number(s, i + 2) <= |s| && mark == None && (integrity ==> Number(s, i) == FINGERPRINT) {
      var typ, len := Number(s, i), Number(s, i + 2);
      var mark' := if typ == FINGERPRINT then Some(i) else None;
      var r := ScanFrom(s, Pad32(i + 4 + len), integrity || typ == MESSAGE_INTEGRITY, mark');
      ScanMark(s, Pad32(i + 4 + len), integrity || typ == MESSAGE_INTEGRITY, mark');
      ScanOpens(s, i, integrity, mark, typ, len);
      if r.Scanned? {
        var a := Attribute(typ, s[i + 4..i + 4 + len]);
        MarkCons(i, a, r.attrs, mark);
        assert ([a] + r.attrs)[1..] == r.attrs;
      }
    } else if i + 4 <= |s| {
      ScanBreaks(s, i, integrity, mark, Number(s, i), Number(s, i + 2));
    }
  }

  ghost predicate LastMarked(attrs: seq<Attribute>) {
    attrs != [] && attrs[|attrs| - 1].typ == FINGERPRINT
  }

  /** Where the last of the attributes stands. */
  ghost function LastAt(i: nat, attrs: seq<Attribute>): nat
    requires attrs != []
  {
    End(i, attrs[..|attrs| - 1])
  }

  lemma {:induction false} MarkMeans(i: nat, attrs: seq<Attribute>, mark: Option<nat>)
    requires InOrder(attrs)
    ensures MarkOf(i, attrs, mark) ==
            if attrs == [] then mark else if LastMarked(attrs) then Some(LastAt(i, attrs)) else None
    decreases |attrs|
  {
    if attrs != [] {
      var a, rest := attrs[0], attrs[1..];
      InOrderCons(attrs);
      MarkMeans(Pad32(i + 4 + |a.value|), rest, if a.typ == FINGERPRINT then Some(i) else None);
      if rest != [] {
        assert attrs[|attrs| - 1] == rest[|rest| - 1];
        assert attrs[..|attrs| - 1][0] == a && attrs[..|attrs| - 1][1..] == rest[..|rest| - 1];
        assert MayPrecede(a, rest[0]);
      }
    }
  }

  /** Attributes that fill the message, FINGERPRINT last and MESSAGE-INTEGRITY before nothing else. */
  ghost predicate Layout(s: seq<byte>, attrs: seq<Attribute>) {
    Holds(s, 20, attrs) && AttributesOk(attrs) && End(20, attrs) == |s| && InOrder(attrs)
  }

  /** The FINGERPRINT, if there is one, has a value, and it begins with the checksum of everything before it. */
  ghost predicate RightMark(s: seq<byte>, attrs: seq<Attribute>) {
    LastMarked(attrs) ==>
      var f := LastAt(20, attrs);
      f + 8 <= |s| && FromBytes(s[f + 4..f + 8]) == Checksum(s, f)
  }

  /** The parser takes exactly the well-formed messages, as what they say. */
  lemma TakenExactly(s: seq<byte>, m: Message)
    ensures ParseChecked(s) == Accepted(m) <==>
              HeaderOk(s) && m == Header(s, m.attributes) && Layout(s, m.attributes) && RightMark(s, m.attributes)
  {
    if HeaderOk(s) {
      if Layout(s, m.attributes) {
        ScanLaidOut(s, m.attributes);
      }
      Found(s);
      JudgeExactly(s, ScanAll(s), m);
    }
  }

  /** Attributes that fill the message are found, and the FINGERPRINT where it stands. */
  lemma ScanLaidOut(s: seq<byte>, attrs: seq<Attribute>)
    requires Layout(s, attrs)
    ensures ScanAll(s) == Scanned(attrs, if LastMarked(attrs) then Some(LastAt(20, attrs)) else None, |s|)
  {
    ScanExactly(s, 20, false, None, attrs);
    LayoutMark(s, attrs);
  }

  /** What is found up to the end of the message are attributes that fill it. */
  lemma Found(s: seq<byte>)
    ensures var r := ScanAll(s);
            r.Scanned? && r.end == |s| ==>
              Layout(s, r.attrs) && r.mark == if LastMarked(r.attrs) then Some(LastAt(20, r.attrs)) else None
  {
    var r := ScanAll(s);
    ScanMark(s, 20, false, None);
    if r.Scanned? {
      ScanExactly(s, 20, false, None, r.attrs);
      LayoutMark(s, r.attrs);
    }
  }

  lemma JudgeExactly(s: seq<byte>, r: Scan, m: Message)
    requires |s| >= 20
    ensures Judge(s, r) == Accepted(m) <==>
              && r.Scanned? && r.end == |s| && m == Header(s, r.attrs)
              && (r.mark.Some? ==>
                    && r.mark.value + 8 <= |s|
                    && FromBytes(s[r.mark.value + 4..r.mark.value + 8]) == Checksum(s, r.mark.value))
    ensures Judge(s, r) == Open <==> r.Scanned? && r.end == |s| && r.mark.Some? && r.mark.value + 8 > |s|
  {
  }

  /** Bytes behind the message are read exactly if it is well-formed and its FINGERPRINT has no value. */
  lemma OpenExactly(s: seq<byte>)
    ensures ParseChecked(s) == Open <==>
              HeaderOk(s) && exists attrs :: Layout(s, attrs) && Unvalued(attrs)
  {
    if HeaderOk(s) {
      var r := ScanAll(s);
      Found(s);
      JudgeExactly(s, r, Header(s, []));
      if r.Scanned? {
        NoValue(s, r.attrs);
      }
      forall attrs | Layout(s, attrs) && Unvalued(attrs) ensures ParseChecked(s) == Open {
        ScanLaidOut(s, attrs);
        NoValue(s, attrs);
      }
    }
  }

  ghost predicate Unvalued(attrs: seq<Attribute>) {
    LastMarked(attrs) && attrs[|attrs| - 1].value == []
  }

  lemma NoValue(s: seq<byte>, attrs: seq<Attribute>)
    ensures Layout(s, attrs) && LastMarked(attrs) ==>
              (LastAt(20, attrs) + 8 > |s| <==> Unvalued(attrs))
  {
    if Layout(s, attrs) && LastMarked(attrs) {
      var init, last := attrs[..|attrs| - 1], attrs[|attrs| - 1];
      EndSnoc(20, init, last);
      assert init + [last] == attrs;
      EndAligned(20, init);
      PadOver(End(20, init), |last.value|);
    }
  }

  lemma PadOver(f: nat, n: nat)
    requires f % 4 == 0
    ensures f + 8 > Pad32(f + 4 + n) <==> n == 0
  {
  }

  lemma LayoutMark(s: seq<byte>, attrs: seq<Attribute>)
    ensures Fills(s, 20, false, false, attrs) <==> Layout(s, attrs)
    ensures Layout(s, attrs) ==> MarkOf(20, attrs, None) == if LastMarked(attrs) then Some(LastAt(20, attrs)) else None
  {
    OrderMeans(false, attrs);
    if InOrder(attrs) {
      MarkMeans(20, attrs, None);
    }
  }

  // ---------- what AuthenticatedFingerPrint writes ----------

  /** The loop over attributes that are there. */
  lemma {:induction false} ScanHeld(s: seq<byte>, i: nat, integrity: bool, mark: Option<nat>, attrs: seq<Attribute>)
    requires Holds(s, i, attrs) && AttributesOk(attrs) && End(i, attrs) == |s|
    ensures ScanFrom(s, i, integrity, mark) ==
            if OrderFrom(integrity, mark.Some?, attrs) then Scanned(attrs, MarkOf(i, attrs, mark), |s|) else Broken
    decreases |attrs|
  {
    if attrs != [] {
      var a, rest := attrs[0], attrs[1..];
      HeadOk(attrs);
      FieldsBack(s, i, a);
      Rejoined(attrs, [a] + rest);
      if mark == None && (integrity ==> a.typ == FINGERPRINT) {
        ScanHeld(s, Pad32(i + 4 + |a.value|), integrity || a.typ == MESSAGE_INTEGRITY,
                 if a.typ == FINGERPRINT then Some(i) else None, rest);
        HeldFirst(s, i, integrity, mark, a, rest);
      } else {
        ScanBreaks(s, i, integrity, mark, a.typ, |a.value|);
      }
    }
  }

  lemma HeldFirst(s: seq<byte>, i: nat, integrity: bool, mark: Option<nat>, a: Attribute, rest: seq<Attribute>)
    requires AttributeAt(s, i, a) && Number(s, i) == a.typ && Number(s, i + 2) == |a.value|
    requires mark == None && (integrity ==> a.typ == FINGERPRINT)
    ensures ScanFrom(s, i, integrity, mark)
         == Prepended(a, ScanFrom(s, Pad32(i + 4 + |a.value|), integrity || a.typ == MESSAGE_INTEGRITY,
                                  if a.typ == FINGERPRINT then Some(i) else None))
    ensures MarkOf(i, [a] + rest, mark)
         == MarkOf(Pad32(i + 4 + |a.value|), rest, if a.typ == FINGERPRINT then Some(i) else None)
  {
    ScanOpens(s, i, integrity, mark, a.typ, |a.value|);
    MarkCons(i, a, rest, mark);
  }

  /** None of the attributes is one of the two that are added. */
  ghost predicate Plain(attrs: seq<Attribute>) {
    forall j :: 0 <= j < |attrs| ==> attrs[j].typ != MESSAGE_INTEGRITY && attrs[j].typ != FINGERPRINT
  }

  lemma PlainInOrder(attrs: seq<Attribute>, a: Attribute, b: Attribute)
    requires a.typ == MESSAGE_INTEGRITY && b.typ == FINGERPRINT
    ensures InOrder(attrs + [a, b]) <==> Plain(attrs)
  {
    var all, n := attrs + [a, b], |attrs|;
    assert all[n] == a && all[n + 1] == b && forall j :: 0 <= j < n ==> all[j] == attrs[j];
    if InOrder(all) {
      forall j | 0 <= j < n ensures attrs[j].typ != MESSAGE_INTEGRITY && attrs[j].typ != FINGERPRINT {
        assert MayPrecede(all[j], all[n]);
      }
    }
  }

  /** The class is read from the right bits. */
  lemma ClassSurvives(kind: nat, methodId: nat)
    requires kind < 4 && methodId < 0x1000
    ensures ClassIn(TypeField(kind, methodId)) == kind
  {
    TypeFieldParts(kind, methodId);
  }

  lemma HeaderTaken(s: seq<byte>, m: Message, attrs: seq<Attribute>, len: nat)
    requires MessageOk(m) && HeaderAt(s, m.kind, m.methodId, len, m.transId)
    ensures HeaderOk(s) && Header(s, attrs) == Message(m.kind, m.methodId, m.transId, attrs)
  {
    HeaderParses(s, m, len);
    ClassSurvives(m.kind, m.methodId);
    TypeFieldParts(m.kind, m.methodId);
    Pow2Values();
    NumberBack(TypeField(m.kind, m.methodId), 2);
  }

  lemma ChecksumBack(s: seq<byte>, f: nat)
    requires f + 8 <= |s| && AttributeAt(s, f, Fingerprint(s, f))
    ensures FromBytes(s[f + 4..f + 8]) == Checksum(s, f)
  {
    Pow2Values();
    Crc.CrcBound(0, s[..f]);
    XorBound(Crc.Crc32(0, s[..f]), FINGERPRINT_XOR, 32);
    NumberBack(Checksum(s, f), 4);
  }

  /**
    What `AuthenticatedFingerPrint` wrote is taken, as the message it was written from followed by the two added
    attributes, if and only if neither of these was among its attributes already; otherwise it is discarded.
    */
  lemma RoundTripChecked(s: seq<byte>, m: Message, pwd: seq<byte>, hmac: Hmac)
    requires Serialized(s, m, pwd, hmac) && MessageOk(m)
    ensures var e := End(20, m.attributes);
            ParseChecked(s) ==
            if !Plain(m.attributes) then Refused
            else Accepted(m.(attributes := m.attributes + [Integrity(s, e, pwd, hmac), Fingerprint(s, e + 24)]))
  {
    var e := End(20, m.attributes);
    SerializedTaken(s, m, pwd, hmac, e, e + 24, Integrity(s, e, pwd, hmac), Fingerprint(s, e + 24));
  }

  lemma SerializedTaken(s: seq<byte>, m: Message, pwd: seq<byte>, hmac: Hmac, e: nat, f: nat,
                        a: Attribute, b: Attribute)
    requires Serialized(s, m, pwd, hmac) && MessageOk(m) && e == End(20, m.attributes) && f == e + 24
    requires a == Integrity(s, e, pwd, hmac) && b == Fingerprint(s, f)
    ensures ParseChecked(s) ==
            if !Plain(m.attributes) then Refused else Accepted(m.(attributes := m.attributes + [a, b]))
  {
    ChecksumBack(s, f);
    TakenBack(s, m, e, f, a, b);
  }

  lemma TakenBack(s: seq<byte>, m: Message, e: nat, f: nat, a: Attribute, b: Attribute)
    requires MessageOk(m) && e == End(20, m.attributes) && f == e + 24 && |s| == e + 32
    requires HeaderAt(s, m.kind, m.methodId, |s| - 20, m.transId) && Holds(s, 20, m.attributes)
    requires AttributeAt(s, e, a) && |a.value| == 20 && AttributeAt(s, f, b) && |b.value| == 4
    requires a.typ == MESSAGE_INTEGRITY && b.typ == FINGERPRINT
    requires FromBytes(s[f + 4..f + 8]) == Checksum(s, f)
    ensures ParseChecked(s) ==
            if !Plain(m.attributes) then Refused else Accepted(m.(attributes := m.attributes + [a, b]))
  {
    var all := m.attributes + [a, b];
    HeaderTaken(s, m, all, |s| - 20);
    BothScanned(s, m.attributes, e, a, b);
    Judged(s, m, all, f, Plain(m.attributes));
  }

  lemma Judged(s: seq<byte>, m: Message, all: seq<Attribute>, f: nat, plain: bool)
    requires HeaderOk(s) && Header(s, all) == m.(attributes := all) && f + 8 <= |s|
    requires ScanAll(s) == if plain then Scanned(all, Some(f), |s|) else Broken
    requires FromBytes(s[f + 4..f + 8]) == Checksum(s, f)
    ensures ParseChecked(s) == if plain then Accepted(m.(attributes := all)) else Refused
  {
  }

  lemma BothScanned(s: seq<byte>, attrs: seq<Attribute>, e: nat, a: Attribute, b: Attribute)
    requires Holds(s, 20, attrs) && e == End(20, attrs) && |s| == e + 32 && AttributesOk(attrs)
    requires AttributeAt(s, e, a) && |a.value| == 20 && AttributeAt(s, e + 24, b) && |b.value| == 4
    requires a.typ == MESSAGE_INTEGRITY && b.typ == FINGERPRINT
    ensures ScanAll(s) ==
            if Plain(attrs) then Scanned(attrs + [a, b], Some(e + 24), |s|) else Broken
  {
    var all := attrs + [a, b];
    BothHeld(s, 20, attrs, e, a, b);
    BothOk(attrs, a, b);
    PlainInOrder(attrs, a, b);
    LastOfBoth(attrs, a, b, e);
    ScanHeld(s, 20, false, None, all);
    LayoutMark(s, all);
  }

  lemma LastOfBoth(attrs: seq<Attribute>, a: Attribute, b: Attribute, e: nat)
    requires e == End(20, attrs) && |a.value| == 20 && b.typ == FINGERPRINT
    ensures LastMarked(attrs + [a, b]) && LastAt(20, attrs + [a, b]) == e + 24
  {
    var all := attrs + [a, b];
    assert all[..|all| - 1] == attrs + [a];
    EndSnoc(20, attrs, a);
    NoPadding(attrs, e);
  }

  // ---------- damage ----------

  /** The message ends in a FINGERPRINT of four bytes. */
  ghost predicate EndsMarked(r: Verdict) {
    r.Accepted? && LastMarked(r.msg.attributes) && |r.msg.attributes[|r.msg.attributes| - 1].value| == 4
  }

  lemma MarkedAt(s: seq<byte>)
    requires EndsMarked(ParseChecked(s))
    ensures |s| >= 28 && FromBytes(s[|s| - 4..]) == Checksum(s, |s| - 8)
  {
    var attrs := ParseChecked(s).msg.attributes;
    TakenExactly(s, ParseChecked(s).msg);
    LastEight(attrs, |s|);
    assert s[|s| - 4..|s|] == s[|s| - 4..];
  }

  lemma LastEight(attrs: seq<Attribute>, n: nat)
    requires End(20, attrs) == n && attrs != [] && |attrs[|attrs| - 1].value| == 4
    ensures n >= 28 && LastAt(20, attrs) == n - 8
  {
    var init, last := attrs[..|attrs| - 1], attrs[|attrs| - 1];
    EndSnoc(20, init, last);
    assert init + [last] == attrs;
    EndAligned(20, init);
    assert Pad32(End(20, init) + 8) == End(20, init) + 8;
  }

  /**
    Damage is found: if a message ends in a FINGERPRINT and differs from another that was taken and ends in the same
    FINGERPRINT, then not only within 32 neighbouring bits.
    */
  lemma DamageFound(s: seq<byte>, t: seq<byte>, e: nat, j: nat)
    requires |s| == |t| && EndsMarked(ParseChecked(s)) && s[|s| - 8..] == t[|s| - 8..]
    requires 0 < e < Pow2(32) && BitXor(Crc.Number(s[..|s| - 8]), Crc.Number(t[..|s| - 8])) == Crc.Raised(e, j)
    ensures !EndsMarked(ParseChecked(t))
  {
    if EndsMarked(ParseChecked(t)) {
      MarkedAt(s);
      MarkedAt(t);
      var f := |s| - 8;
      assert s[f + 4..] == s[f..][4..] && t[f + 4..] == t[f..][4..];
      XorCancel(Crc.Crc32(0, s[..f]), FINGERPRINT_XOR);
      XorCancel(Crc.Crc32(0, t[..f]), FINGERPRINT_XOR);
      Crc.BurstFound(0, s[..f], t[..f], e, j);
    }
  }

  // ---------- the method ----------

  /** Attributes already read, and what the loop makes of the rest. */
  function Behind(read: seq<Attribute>, r: Scan): Scan {
    match r
    case Broken => Broken
    case Scanned(attrs, mark, end) => Scanned(read + attrs, mark, end)
  }

  lemma BehindNext(read: seq<Attribute>, a: Attribute, r: Scan)
    ensures Behind(read, Prepended(a, r)) == Behind(read + [a], r)
  {
    if r.Scanned? {
      Assoc(read, [a], r.attrs);
    }
  }

  method IsStun(data: array<byte>, size: nat) returns (ok: bool)
    requires size <= data.Length
    ensures ok == HeaderOk(data[..size])
  {
    ok := size >= 20 && data[0] / 64 == 0 && data[..size][4..8] == COOKIE;
  }

  /** The announced checksum against the computed one; nothing if the announced one is not inside the message. */
  method CheckMark(data: array<byte>, size: nat, f: nat, crcs: Crc.Statics) returns (right: Option<bool>)
    requires f <= size <= data.Length && crcs.Valid()
    modifies crcs, crcs.table
    ensures data[..] == old(data[..])
    ensures right == if f + 8 > size then None
                     else Some(FromBytes(data[..size][f + 4..f + 8]) == Checksum(data[..size], f))
  {
    if f + 8 > size {
      return None;
    }
    var announced := FromBytes(data[f + 4..f + 8]);
    var crc32calc := new Crc.Crc32Calc(crcs);
    var computed := crc32calc.Update(data, f);
    computed := BitXor(computed, FINGERPRINT_XOR);
    assert data[..size][..f] == data[..f] && data[..size][f + 4..f + 8] == data[f + 4..f + 8];
    right := Some(announced == computed);
  }

  /** The loop of `Parse`. */
  method ReadAttributes(s: seq<byte>, msg: StunMessage) returns (ok: bool, mark: Option<nat>, i: nat)
    requires |s| >= 20 && msg.attributes == []
    modifies msg
    ensures ScanFrom(s, 20, false, None) == if ok then Scanned(msg.attributes, mark, i) else Broken
    ensures ok && mark.Some? ==> mark.value <= |s|
  {
    ok, mark, i := true, None, 20;
    var integrity := false;
    while i + 4 <= |s|
      invariant ok && Behind(msg.attributes, ScanFrom(s, i, integrity, mark)) == ScanFrom(s, 20, false, None)
      invariant mark.Some? ==> mark.value <= |s|
      decreases |s| - i
    {
      var typ, len := Number(s, i), Number(s, i + 2);
      if |s| < i + 4 + len || mark.Some? || (integrity && typ != FINGERPRINT) {
        ScanBreaks(s, i, integrity, mark, typ, len);
        return false, None, i;
      }
      var a := Attribute(typ, s[i + 4..i + 4 + len]);
      ScanOpens(s, i, integrity, mark, typ, len);
      integrity, mark := integrity || typ == MESSAGE_INTEGRITY, if typ == FINGERPRINT then Some(i) else None;
      i := Pad32(i + 4 + len);
      BehindNext(msg.attributes, a, ScanFrom(s, i, integrity, mark));
      msg.AddAttribute(a);
    }
    AddNothing(msg.attributes, []);
  }

  /** `STUNMessage::Parse`. */
  method Parse(data: array<byte>, size: nat, crcs: Crc.Statics) returns (r: Verdict, msg: StunMessage?)
    requires size <= data.Length && crcs.Valid()
    modifies crcs, crcs.table
    ensures data[..] == old(data[..]) && r == ParseChecked(data[..size])
    ensures r.Accepted? <==> msg != null
    ensures msg != null ==> fresh(msg) && msg.Abs() == r.msg
  {
    var s := data[..size];
    var ok := IsStun(data, size);
    if !ok {
      return Refused, null;
    }
    var w := Number(s, 0);
    msg := new StunMessage(ClassIn(w), MethodOf(w), s[8..20]);
    var mark, i;
    ok, mark, i := ReadAttributes(s, msg);
    if !ok {
      return Refused, null;
    }
    if i != size {
      return Refused, null;
    }
    if mark.Some? {
      var right := CheckMark(data, size, mark.value, crcs);
      if right != Some(true) {
        return if right == None then Open else Refused, null;
      }
    }
    r := Accepted(Header(s, msg.attributes));
  }
}
