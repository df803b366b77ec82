/**
  What comes back when serialized bytes are parsed: for every tree, every chunking and any bytes after
  it (mcu/src/amf.cpp together with the reading loop of mcu/src/rtmpmessage.cpp).
  */
module AmfRoundTrip {
  import opened OrderedMap
  import opened AmfValue
  import opened BitStrings
  import opened AmfMachine
  import opened Arith

  // ---------- big-endian fields ----------

  function AccFeed(a: Accumulator, data: seq<byte>): Accumulator
    requires |data| <= a.len
    decreases |data|
  {
    if data == [] then a else AccFeed(AccStep(a, data[0]), data[1..])
  }

  lemma {:induction false} AccReads(a: Accumulator, v: nat)
    ensures AccFeed(a, ToBytes(v, a.len)) == Accumulator(0, a.value + v % Pow256(a.len))
    decreases a.len
  {
    if a.len > 0 {
      var n := a.len - 1;
      AccReads(AccStep(a, ToBytes(v, a.len)[0]), v);
      assert ToBytes(v, a.len)[1..] == ToBytes(v, n);
      SplitMod(v, 256, Pow256(n));
    }
  }

  // ---------- UTF-8 ----------

  /** Between characters: what the decoder has produced so far, ignoring the scratch register. */
  ghost predicate TextAt(t: Text, value: WString, utf8size: nat, len: nat) {
    t.value == value && t.utf8size == utf8size && t.len == len && t.bytes == 0
  }

  lemma Char3(t: Text, w: nat)
    requires t.bytes == 0 && 0x800 <= w <= 0xffff
    ensures TextAt(TextStep(TextStep(TextStep(t, 0xe0 + w / 4096 % 16), 0x80 + w / 64 % 64), 0x80 + w % 64),
                   t.value + [w], t.utf8size, t.len + 3)
  {
    var t1 := TextStep(t, 0xe0 + w / 4096 % 16);
    assert t1.bytes == 2 && t1.w == w / 4096;
    var t2 := TextStep(t1, 0x80 + w / 64 % 64);
    assert t2.bytes == 1 && t2.w == w / 64;
  }

  lemma Char4(t: Text, w: nat)
    requires t.bytes == 0 && 0x10000 <= w <= MAX_CODE_POINT
    ensures TextAt(TextStep(TextStep(TextStep(TextStep(t,
                     0xf0 + w / 262144 % 8), 0x80 + w / 4096 % 64), 0x80 + w / 64 % 64), 0x80 + w % 64),
                   t.value + [w], t.utf8size, t.len + 4)
  {
    var t1 := TextStep(t, 0xf0 + w / 262144 % 8);
    assert t1.bytes == 3 && t1.w == w / 262144;
    var t2 := TextStep(t1, 0x80 + w / 4096 % 64);
    assert t2.bytes == 2 && t2.w == w / 4096;
    var t3 := TextStep(t2, 0x80 + w / 64 % 64);
    assert t3.bytes == 1 && t3.w == w / 64;
  }

  lemma CharRoundTrip(t: Text, w: nat, s: seq<byte>)
    requires t.bytes == 0 && w <= MAX_CODE_POINT && s == EncodeChar(w)
    ensures TextAt(TextFeed(t, s), t.value + [w], t.utf8size, t.len + CharSize(w))
  {
    if w <= 0x7f {
      assert s == [w];
      assert TextFeed(t, s) == TextStep(t, w);
    } else if w <= 0x7ff {
      Unfold2(t, s);
    } else if w <= 0xffff {
      Char3(t, w);
      Unfold2(t, s);
      assert |s[2..]| == 1;
    } else {
      Char4(t, w);
      Unfold2(t, s);
      Unfold2(TextStep(TextStep(t, s[0]), s[1]), s[2..]);
    }
  }

  lemma Unfold2(t: Text, s: seq<byte>)
    requires |s| >= 2
    ensures TextFeed(t, s) == TextFeed(TextStep(TextStep(t, s[0]), s[1]), s[2..])
  {
    assert s[1..][1..] == s[2..];
    assert s[1..][0] == s[1];
  }

  /** `UTF8Parser::Parse` recovers every string of code points `UTF8Parser::Serialize` wrote. */
  lemma {:induction false} TextRoundTrip(t: Text, s: WString)
    requires t.bytes == 0 && CodePoints(s)
    ensures TextAt(TextFeed(t, Encode(s)), t.value + s, t.utf8size, t.len + TextSize(s))
    decreases |s|
  {
    if s == [] {
      assert t.value + s == t.value;
    } else {
      var c := EncodeChar(s[0]);
      CharRoundTrip(t, s[0], c);
      TextFeedConcat(t, c, Encode(s[1..]));
      TextRoundTrip(TextFeed(t, c), s[1..]);
      assert t.value + [s[0]] + s[1..] == t.value + s;
    }
  }

  // ---------- malformed text ----------

  /**
    After `n` bytes, `p` of which belong to a character still under way, the text decoded so far fits the rest, and
    the bits collected are no more than `p` bytes can carry.
    */
  ghost predicate Slim(t: Text, n: nat, p: nat) {
    && TextSize(t.value) + p <= n && t.bytes <= 3
    && (t.bytes == 1 ==> (p == 1 && t.w < 32) || (p == 2 && t.w < 1024) || (p == 3 && t.w < 32768))
    && (t.bytes == 2 ==> (p == 1 && t.w < 16) || (p == 2 && t.w < 512))
    && (t.bytes == 3 ==> p == 1 && t.w < 8)
  }

  lemma {:induction false} TextSizeConcat(a: WString, b: WString)
    ensures TextSize(a + b) == TextSize(a) + TextSize(b)
    decreases |a|
  {
    if a == [] {
      assert a + b == b;
    } else {
      assert (a + b)[1..] == a[1..] + b;
      TextSizeConcat(a[1..], b);
    }
  }

  lemma OneMore(s: WString, w: nat)
    ensures TextSize(s + [w]) == TextSize(s) + CharSize(w)
  {
    TextSizeConcat(s, [w]);
    assert [w][1..] == [];
  }

  lemma SlimStep(t: Text, n: nat, p: nat, c: byte) returns (p': nat)
    requires Slim(t, n, p)
    ensures Slim(TextStep(t, c), n + 1, p')
  {
    OneMore(t.value, DOT);
    OneMore(t.value, c);
    OneMore(t.value + [DOT], c);
    OneMore(t.value, t.w * 64 + c % 64);
    assert t.value + [] == t.value;
    p' := if 0x80 <= c <= 0xbf && t.bytes > 1 then p + 1 else if 0xc0 <= c <= 0xf7 then 1 else 0;
  }

  lemma {:induction false} SlimFeed(t: Text, n: nat, p: nat, data: seq<byte>)
    requires Slim(t, n, p)
    ensures TextSize(TextFeed(t, data).value) <= n + |data|
    decreases |data|
  {
    if data != [] {
      var p' := SlimStep(t, n, p, data[0]);
      SlimFeed(TextStep(t, data[0]), n + 1, p', data[1..]);
    }
  }

  /**
    Text decoded from any bytes, even malformed ones, needs no more bytes when it is written again; so a string that
    was read under a length field always fits that field again.
    */
  lemma DecodedTextFits(size: nat, data: seq<byte>)
    ensures TextSize(TextFeed(NEW_TEXT.(utf8size := size), data).value) <= |data|
  {
    SlimFeed(NEW_TEXT.(utf8size := size), 0, 0, data);
  }

  // ---------- sized strings ----------

  lemma {:induction false} SizeField(s: Str, v: nat)
    requires s.size.len > 0
    ensures var n := s.size.value + v % Pow256(s.size.len);
            StrFeed(s, ToBytes(v, s.size.len)) == Ok(Str(Accumulator(0, n), s.text.(utf8size := n)))
    decreases s.size.len
  {
    var n := s.size.len - 1;
    var b := ToBytes(v, s.size.len);
    assert b[1..] == ToBytes(v, n);
    SplitMod(v, 256, Pow256(n));
    var s' := StrStep(s, b[0]).value;
    if n > 0 {
      SizeField(s', v);
    } else {
      assert b[1..] == [];
    }
  }

  lemma {:induction false} TextBytes(s: Str, data: seq<byte>)
    requires s.size.len == 0 && s.text.len + |data| <= s.text.utf8size
    ensures StrFeed(s, data) == Ok(s.(text := TextFeed(s.text, data)))
    decreases |data|
  {
    if data != [] {
      TextBytes(s.(text := TextStep(s.text, data[0])), data[1..]);
    }
  }

  lemma {:induction false} TextLen(t: Text, data: seq<byte>)
    ensures TextFeed(t, data).len == t.len + |data| && TextFeed(t, data).utf8size == t.utf8size
    decreases |data|
  {
    if data != [] {
      TextLen(TextStep(t, data[0]), data[1..]);
    }
  }

  ghost predicate HoldsText(s: Str, t: WString) {
    StrParsed(s) && s.text.value == t && s.size == Accumulator(0, TextSize(t))
  }

  /** A length field that says `n`, and at most `n` bytes of text behind it. */
  lemma AnnouncedAtWidth(t: WString, n: nat, width: nat)
    requires |Encode(t)| <= n < Pow256(width) && width > 0
    ensures StrFeed(NewStr(width), ToBytes(n, width) + Encode(t))
         == Ok(Str(Accumulator(0, n), TextFeed(NEW_TEXT.(utf8size := n), Encode(t))))
  {
    SizeField(NewStr(width), n);
    DivModUnique(n, Pow256(width), 0, n);
    var s := Str(Accumulator(0, n), NEW_TEXT.(utf8size := n));
    StrFeedConcat(NewStr(width), ToBytes(n, width), Encode(t));
    TextBytes(s, Encode(t));
  }

  lemma SizedTextAtWidth(t: WString, width: nat)
    requires CodePoints(t) && TextSize(t) < Pow256(width) && width > 0
    ensures var r := StrFeed(NewStr(width), ToBytes(TextSize(t), width) + Encode(t));
            r.Ok? && HoldsText(r.value, t)
  {
    EncodedSize(t);
    AnnouncedAtWidth(t, TextSize(t), width);
    TextRoundTrip(NEW_TEXT.(utf8size := TextSize(t)), t);
  }

  lemma SizedTextRoundTrip(t: WString)
    requires Fits(t)
    ensures StrFeed(NewStr(2), SizedText(t)).Ok? && HoldsText(StrFeed(NewStr(2), SizedText(t)).value, t)
  {
    assert Pow256(2) == 0x10000;
    SizedTextAtWidth(t, 2);
  }

  // ---------- leaves ----------

  lemma {:induction false} NumberTakes(a: Accumulator, data: seq<byte>)
    requires |data| <= a.len
    ensures Feed(Busy(NumberData(a)), data) == Ok(Busy(NumberData(AccFeed(a, data))))
    decreases |data|
  {
    if data != [] {
      assert DataStep(NumberData(a), data[0]) == Ok(NumberData(AccStep(a, data[0])));
      NumberTakes(AccStep(a, data[0]), data[1..]);
    }
  }

  ghost predicate TextData(o: Data) {
    o.StringData? || o.XmlData? || o.LongStringData?
  }

  lemma {:induction false} StringTakes(o: Data, data: seq<byte>)
    requires TextData(o) && StrFeed(o.str, data).Ok?
    requires o.str.size.len > 0 ==> o.str.text.utf8size == UNSET && o.str.text.len == 0
    ensures Feed(Busy(o), data) == Ok(Busy(o.(str := StrFeed(o.str, data).value)))
    decreases |data|
  {
    if data != [] {
      var o' := o.(str := StrStep(o.str, data[0]).value);
      assert DataStep(o, data[0]) == Ok(o');
      StringTakes(o', data[1..]);
    }
  }

  lemma {:induction false} CountTakes(o: Data, data: seq<byte>)
    requires o.Container? && !o.marker && |data| <= o.num.len
    ensures Feed(Busy(o), data) == Ok(Busy(o.(num := AccFeed(o.num, data))))
    decreases |data|
  {
    if data != [] {
      var o' := o.(num := AccStep(o.num, data[0]));
      assert DataStep(o, data[0]) == Ok(o');
      assert ParserStep(Busy(o), data[0]) == Ok(Busy(o'));
      CountTakes(o', data[1..]);
    }
  }

  // ---------- containers ----------

  /** A container between two properties. */
  ghost predicate Between(o: Data) {
    ReadingKey(o) && o.key == NewStr(2) && o.parser == Idle
  }

  /** `Feed` on a marker byte followed by the value's payload. */
  lemma FeedMarker(o: Data, marker: byte, rest: seq<byte>)
    requires NewData(marker) == Ok(o)
    ensures Feed(Idle, [marker] + rest) == Feed(Busy(o), rest)
  {
    assert ([marker] + rest)[1..] == rest;
    assert ParserStep(Idle, marker) == Ok(Busy(o));
  }

  function Added(o: Data, k: WString, v: Value): Data
    requires o.Container?
  {
    o.(dict := Insert(o.dict, k, v), order := if o.ecma then o.order else o.order + [k])
  }

  /** A named value adds a property, or fails the container if the value fails. */
  lemma EntryTakes(o: Data, k: WString, bytes: seq<byte>)
    requires Between(o) && Fits(k) && k != []
    requires Feed(Idle, bytes).Ok? ==> Parsed(Feed(Idle, bytes).value)
    requires Feed(Idle, bytes) != Err(Overrun)
    ensures Feed(Busy(o), SizedText(k) + bytes) ==
            if Feed(Idle, bytes).Ok? then Ok(Busy(Added(o, k, Get(Feed(Idle, bytes).value.data))))
            else Feed(Idle, bytes)
  {
    SizedTextRoundTrip(k);
    KeyTakes(o, SizedText(k));
    var o1 := o.(key := StrFeed(o.key, SizedText(k)).value);
    FeedConcat(Busy(o), SizedText(k), bytes);
    assert TextSize(k) > 0;
    ValueTakes(o1, bytes);
  }

  /** After an empty key (the bytes `z`) only the end marker is accepted. */
  lemma EmptyKeyTakes(o: Data, z: seq<byte>, key: Str, b: byte, rest: seq<byte>)
    requires Between(o) && StrFeed(NewStr(2), z) == Ok(key) && HoldsText(key, [])
    ensures Feed(Busy(o), z + ([b] + rest)) ==
            if b == OBJECT_END_MARKER then Feed(Busy(o.(key := key, marker := true)), rest)
            else Err(EndMarkerNotFound)
  {
    KeyTakes(o, z);
    var o1 := o.(key := key);
    FeedConcat(Busy(o), z, [b] + rest);
    assert ([b] + rest)[1..] == rest;
    if b == OBJECT_END_MARKER {
      assert DataStep(o1, b) == Ok(o1.(marker := true));
      assert ParserStep(Busy(o1), b) == Ok(Busy(o1.(marker := true)));
    } else {
      assert DataStep(o1, b) == Err(EndMarkerNotFound);
    }
  }

  function InsertAll(dict: Dict, keys: seq<WString>, d: Dict): Dict
    decreases |keys|
  {
    if keys == [] then dict
    else
      var i := Find(d, keys[0]);
      InsertAll(if i < |d| then Insert(dict, keys[0], Canon(d[i].val)) else dict, keys[1..], d)
  }

  lemma {:induction false} InsertAllMaps(dict: Dict, keys: seq<WString>, d: Dict)
    requires Sorted(dict) && forall k :: k in keys ==> HasKey(d, k)
    ensures Sorted(InsertAll(dict, keys, d))
    ensures forall k, v :: Maps(InsertAll(dict, keys, d), k, v) <==>
              if k in keys then HasKey(d, k) && v == Canon(d[Find(d, k)].val) else Maps(dict, k, v)
    decreases |keys|
  {
    if keys != [] {
      var k0 := keys[0];
      var v0 := Canon(d[Find(d, k0)].val);
      InsertSorted(dict, k0, v0);
      var dict1 := Insert(dict, k0, v0);
      InsertAllMaps(dict1, keys[1..], d);
      forall k, v ensures Maps(dict1, k, v) <==> if k == k0 then v == v0 else Maps(dict, k, v) {
        InsertEntries(dict, k0, v0, k, v);
      }
      assert forall k :: k in keys <==> k == k0 || k in keys[1..];
    }
  }

  /** Inserting every property of a dictionary, in any order that names them all, rebuilds it. */
  lemma InsertAllRebuilds(none: Dict, keys: seq<WString>, d: Dict)
    requires none == [] && Sorted(d) && forall k :: k in keys <==> HasKey(d, k)
    ensures InsertAll(none, keys, d) == CanonEntries(d)
  {
    var r, c := InsertAll(none, keys, d), CanonEntries(d);
    InsertAllMaps(none, keys, d);
    assert Sorted(c);
    forall k, v ensures Maps(r, k, v) <==> Maps(c, k, v) {
      if Maps(c, k, v) {
        var i :| 0 <= i < |c| && c[i] == Entry(k, v);
        assert d[i].key == k;
        UniqueKey(d, i, Find(d, k));
      }
      if Maps(r, k, v) {
        assert c[Find(d, k)] == Entry(k, v);
      }
    }
    SameEntries(r, c);
  }

  /** The named values all have non-empty keys, at every depth. */
  ghost predicate Nameable(keys: seq<WString>, d: Dict) {
    forall k :: k in keys && HasKey(d, k) ==> k != [] && KeysNonEmpty(d[Find(d, k)].val)
  }

  ghost predicate EntriesReady(d: Dict) {
    forall e :: e in d ==> WellFormed(e.val) && AllFit(e.val) && Fits(e.key)
  }

  ghost predicate Yields(r: Result<Parser>, v: Value) {
    r.Ok? && Parsed(r.value) && Get(r.value.data) == v
  }

  /** What parsing the serialized form of `v` comes to. */
  ghost predicate Settles(v: Value) {
    if KeysNonEmpty(v) then Yields(Feed(Idle, Serialize(v)), Canon(v))
    else Feed(Idle, Serialize(v)) == Err(EndMarkerNotFound)
  }

  /** Parsing what `Serialize` wrote: the canonical tree, or an error exactly when some key is empty. */
  lemma {:induction false} SerializedValue(v: Value)
    requires WellFormed(v) && AllFit(v)
    ensures Settles(v)
    decreases v, 0
  {
    match v
    case Number(bits) =>
      SerializedNumber(bits);
    case Boolean(b) =>
      SerializedBoolean(b);
    case String(t) =>
      SerializedText(t);
    case XmlDocument(t) =>
      SerializedText(t);
    case Object(order, props) =>
      SerializedObject(v);
    case EcmaArray(elements) =>
      SerializedEcmaArray(v);
    case Null =>
      assert ParserStep(Idle, NULL_MARKER) == Ok(Busy(PlainData(Null)));
    case _ =>
      assert ParserStep(Idle, UNSUPPORTED_MARKER) == Ok(Busy(PlainData(Unsupported)));
  }

  lemma NumberAtWidth(bits: nat, width: nat)
    requires bits < Pow256(width)
    ensures Feed(Busy(NumberData(Accumulator(width, 0))), ToBytes(bits, width))
         == Ok(Busy(NumberData(Accumulator(0, bits))))
  {
    NumberTakes(Accumulator(width, 0), ToBytes(bits, width));
    AccReads(Accumulator(width, 0), bits);
    DivModUnique(bits, Pow256(width), 0, bits);
  }

  lemma SerializedNumber(bits: nat)
    requires bits < Pow256(8)
    ensures Yields(Feed(Idle, [NUMBER_MARKER] + ToBytes(bits, 8)), Number(bits))
  {
    FeedMarker(NumberData(Accumulator(8, 0)), NUMBER_MARKER, ToBytes(bits, 8));
    NumberAtWidth(bits, 8);
  }

  lemma SerializedBoolean(b: bool)
    ensures Yields(Feed(Idle, Serialize(Boolean(b))), Boolean(b))
  {
    var x: byte := if b then 1 else 0;
    assert Serialize(Boolean(b)) == [BOOLEAN_MARKER] + [x];
    FeedMarker(BooleanData(0, false), BOOLEAN_MARKER, [x]);
    assert DataStep(BooleanData(0, false), x) == Ok(BooleanData(1, b));
    assert ParserStep(Busy(BooleanData(0, false)), x) == Ok(Busy(BooleanData(1, b)));
  }

  lemma SerializedText(t: WString)
    requires Fits(t)
    ensures Yields(Feed(Idle, [STRING_MARKER] + SizedText(t)), String(t))
  {
    SizedTextRoundTrip(t);
    FeedMarker(StringData(NewStr(2)), STRING_MARKER, SizedText(t));
    StringTakes(StringData(NewStr(2)), SizedText(t));
  }

  lemma UnnamedEntry(o: Data, k: WString, v: Value)
    requires Between(o) && k == []
    ensures Feed(Busy(o), SizedText(k) + Serialize(v)) == Err(EndMarkerNotFound)
  {
    FirstByte(v);
    SizedTextRoundTrip(k);
    EmptyThen(o, SizedText(k), StrFeed(NewStr(2), SizedText(k)).value, Serialize(v));
  }

  lemma EmptyThen(o: Data, z: seq<byte>, key: Str, bytes: seq<byte>)
    requires Between(o) && StrFeed(NewStr(2), z) == Ok(key) && HoldsText(key, [])
    requires bytes != [] && bytes[0] != OBJECT_END_MARKER
    ensures Feed(Busy(o), z + bytes) == Err(EndMarkerNotFound)
  {
    EmptyKeyTakes(o, z, key, bytes[0], bytes[1..]);
    assert bytes == [bytes[0]] + bytes[1..];
  }

  /** One property: it is added, or an empty name or a failing value fails the container. */
  lemma EntryOutcome(o: Data, k: WString, v: Value)
    requires Between(o) && Fits(k)
    requires Settles(v)
    ensures Feed(Busy(o), SizedText(k) + Serialize(v)) ==
            if k != [] && KeysNonEmpty(v) then Ok(Busy(Added(o, k, Canon(v)))) else Err(EndMarkerNotFound)
  {
    if k == [] {
      UnnamedEntry(o, k, v);
    } else {
      EntryTakes(o, k, Serialize(v));
    }
  }

  function Filled(o: Data, keys: seq<WString>, d: Dict): Data
    requires o.Container?
  {
    o.(dict := InsertAll(o.dict, keys, d), order := if o.ecma then o.order else o.order + keys)
  }

  lemma FilledCons(o: Data, keys: seq<WString>, d: Dict)
    requires o.Container? && keys != [] && HasKey(d, keys[0])
    ensures Filled(Added(o, keys[0], Canon(d[Find(d, keys[0])].val)), keys[1..], d) == Filled(o, keys, d)
  {
    assert o.order + [keys[0]] + keys[1..] == o.order + keys;
  }

  lemma {:induction false} SerializedKeys(o: Data, keys: seq<WString>, d: Dict)
    requires Between(o) && EntriesReady(d)
    requires forall k :: k in keys ==> HasKey(d, k)
    ensures Feed(Busy(o), SerializeKeys(keys, d)) ==
            if Nameable(keys, d) then Ok(Busy(Filled(o, keys, d))) else Err(EndMarkerNotFound)
    decreases d, |keys|
  {
    if keys == [] {
      assert o.order + keys == o.order;
    } else {
      var k := keys[0];
      var v := d[Find(d, k)].val;
      assert d[Find(d, k)] in d;
      SerializedValue(v);
      EntryOutcome(o, k, v);
      FeedConcat(Busy(o), SizedText(k) + Serialize(v), SerializeKeys(keys[1..], d));
      if k != [] && KeysNonEmpty(v) {
        SerializedKeys(Added(o, k, Canon(v)), keys[1..], d);
        FilledCons(o, keys, d);
      }
    }
  }

  lemma FirstByte(v: Value)
    ensures Serialize(v)[0] != OBJECT_END_MARKER
  {
  }

  /** The two zero bytes before the end marker read as an empty key. */
  lemma Ending(t: WString) returns (z: seq<byte>, key: Str)
    requires t == []
    ensures z + [OBJECT_END_MARKER] == [0, 0, OBJECT_END_MARKER]
    ensures StrFeed(NewStr(2), z) == Ok(key) && HoldsText(key, t)
  {
    SizedTextRoundTrip(t);
    z := SizedText(t);
    key := StrFeed(NewStr(2), z).value;
    NoText(t, TextSize(t));
  }

  lemma NoText(t: WString, n: nat)
    requires t == [] && n == 0
    ensures AnnouncedText(t, n) + [OBJECT_END_MARKER] == [0, 0, OBJECT_END_MARKER]
  {
    assert ToBytes(n, 1) == [0] + ToBytes(n, 0);
    assert ToBytes(n, 2) == [0] + ToBytes(n, 1);
  }

  /** The closing bytes (an empty key and the end marker) finish a container between properties. */
  lemma EndTakes(o: Data, z: seq<byte>, key: Str)
    requires Between(o) && StrFeed(NewStr(2), z) == Ok(key) && HoldsText(key, [])
    ensures Feed(Busy(o), z + [OBJECT_END_MARKER]) == Ok(Busy(o.(key := key, marker := true)))
  {
    assert [OBJECT_END_MARKER] == [OBJECT_END_MARKER] + [];
    EmptyKeyTakes(o, z, key, OBJECT_END_MARKER, []);
  }

  lemma NameableEntries(keys: seq<WString>, d: Dict)
    requires Sorted(d) && forall k :: k in keys <==> HasKey(d, k)
    ensures Nameable(keys, d) <==> forall e :: e in d ==> e.key != [] && KeysNonEmpty(e.val)
  {
    if Nameable(keys, d) {
      forall e | e in d ensures e.key != [] && KeysNonEmpty(e.val) {
        var i :| 0 <= i < |d| && d[i] == e;
        assert HasKey(d, e.key);
        UniqueKey(d, i, Find(d, e.key));
      }
    } else {
      var k :| k in keys && HasKey(d, k) && !(k != [] && KeysNonEmpty(d[Find(d, k)].val));
      assert d[Find(d, k)] in d;
    }
  }

  lemma FilledFresh(o: Data, keys: seq<WString>, d: Dict)
    requires o.Container? && o.dict == [] && o.order == [] && Sorted(d)
    requires forall k :: k in keys <==> HasKey(d, k)
    ensures Get(Filled(o, keys, d)) == if o.ecma then EcmaArray(CanonEntries(d)) else Object(keys, CanonEntries(d))
  {
    InsertAllRebuilds(o.dict, keys, d);
    assert o.order + keys == keys;
  }

  /** Properties and closing bytes after the prefix of a container. */
  lemma ContainerBody(o: Data, keys: seq<WString>, d: Dict, z: seq<byte>, key: Str)
    requires StrFeed(NewStr(2), z) == Ok(key) && HoldsText(key, [])
    requires Between(o) && o.dict == [] && o.order == [] && Sorted(d)
    requires forall k :: k in keys <==> HasKey(d, k)
    requires Feed(Busy(o), SerializeKeys(keys, d)) ==
             if Nameable(keys, d) then Ok(Busy(Filled(o, keys, d))) else Err(EndMarkerNotFound)
    ensures var r := Feed(Busy(o), SerializeKeys(keys, d) + (z + [OBJECT_END_MARKER]));
            if Nameable(keys, d)
            then Yields(r, if o.ecma then EcmaArray(CanonEntries(d)) else Object(keys, CanonEntries(d)))
            else r == Err(EndMarkerNotFound)
  {
    FeedConcat(Busy(o), SerializeKeys(keys, d), z + [OBJECT_END_MARKER]);
    if Nameable(keys, d) {
      FilledFresh(o, keys, d);
      EndTakes(Filled(o, keys, d), z, key);
    }
  }

  lemma {:induction false} SerializedObject(v: Value)
    requires v.Object? && WellFormed(v) && AllFit(v)
    ensures Settles(v)
    decreases v.props, |v.order| + 1
  {
    var z, key := Ending([]);
    var o := Container(false, Accumulator(0, 0), NewStr(2), false, [], [], Idle);
    SerializedKeys(o, v.order, v.props);
    NameableEntries(v.order, v.props);
    ContainerBody(o, v.order, v.props, z, key);
    var body := SerializeKeys(v.order, v.props) + (z + [OBJECT_END_MARKER]);
    ContainerBytes(v, z + [OBJECT_END_MARKER]);
    FeedMarker(o, OBJECT_MARKER, body);
  }

  /** Marker and element count bring an ECMA array to its first property. */
  lemma EcmaPrefix(n: nat, rest: seq<byte>) returns (o: Data)
    ensures Between(o) && o.ecma && o.dict == [] && o.order == []
    ensures Feed(Idle, [ECMA_ARRAY_MARKER] + (ToBytes(n, 4) + rest)) == Feed(Busy(o), rest)
  {
    var o0 := Container(true, Accumulator(4, 0), NewStr(2), false, [], [], Idle);
    var count := ToBytes(n, 4);
    AccReads(o0.num, n);
    o := o0.(num := AccFeed(o0.num, count));
    FeedMarker(o0, ECMA_ARRAY_MARKER, count + rest);
    FeedConcat(Busy(o0), count, rest);
    CountTakes(o0, count);
  }

  lemma {:induction false} SerializedEcmaArray(v: Value)
    requires v.EcmaArray? && WellFormed(v) && AllFit(v)
    ensures Settles(v)
    decreases v.elements, |v.elements| + 1
  {
    var d := v.elements;
    var z, key := Ending([]);
    var body := SerializeKeys(Keys(d), d) + (z + [OBJECT_END_MARKER]);
    ContainerBytes(v, z + [OBJECT_END_MARKER]);
    var o := EcmaPrefix(|d|, body);
    KeysCover(d);
    SerializedKeys(o, Keys(d), d);
    NameableEntries(Keys(d), d);
    ContainerBody(o, Keys(d), d, z, key);
  }
}
