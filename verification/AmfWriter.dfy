/** The `Serialize` methods of mcu/src/amf.cpp, writing into a caller's buffer. */
module AmfWriter {
  import opened OrderedMap
  import opened AmfValue
  import opened BitStrings
  import opened AmfSize
  import opened Buffers
  import opened Sequences

  lemma {:induction false} EncodeConcat(a: WString, b: WString)
    ensures Encode(a + b) == Encode(a) + Encode(b)
    decreases |a|
  {
    if a == [] {
      assert a + b == b;
    } else {
      assert (a + b)[1..] == a[1..] + b;
      EncodeConcat(a[1..], b);
    }
  }

  lemma EncodeLast(t: WString, i: nat)
    requires i < |t|
    ensures Encode(t[..i + 1]) == Encode(t[..i]) + EncodeChar(t[i])
    ensures |Encode(t[..i + 1])| <= |Encode(t)|
  {
    EncodeConcat(t[..i], [t[i]]);
    assert t[..i] + [t[i]] == t[..i + 1];
    EncodePrefix(t, i + 1);
  }

  lemma EncodePrefix(t: WString, n: nat)
    requires n <= |t|
    ensures |Encode(t[..n])| <= |Encode(t)|
  {
    EncodeConcat(t[..n], t[n..]);
    TakeDrop(t, n);
  }

  /** One wide character; the branches of `UTF8Parser::Serialize`. */
  method WriteChar(data: array<byte>, pos: nat, w: nat) returns (n: nat)
    requires pos + |EncodeChar(w)| <= data.Length
    modifies data
    ensures n == |EncodeChar(w)| && Placed(old(data[..]), data[..], pos, EncodeChar(w))
  {
    if w <= 0x7f {
      data[pos] := w;
      n := 1;
    } else if w <= 0x7ff {
      data[pos] := 0xc0 + w / 64 % 32;
      data[pos + 1] := 0x80 + w % 64;
      n := 2;
    } else if w <= 0xffff {
      data[pos] := 0xe0 + w / 4096 % 16;
      data[pos + 1] := 0x80 + w / 64 % 64;
      data[pos + 2] := 0x80 + w % 64;
      n := 3;
    } else if w <= MAX_CODE_POINT {
      data[pos] := 0xf0 + w / 262144 % 8;
      data[pos + 1] := 0x80 + w / 4096 % 64;
      data[pos + 2] := 0x80 + w / 64 % 64;
      data[pos + 3] := 0x80 + w % 64;
      n := 4;
    } else {
      data[pos] := DOT;
      n := 1;
    }
    Pointwise(old(data[..]), data[..], pos, EncodeChar(w));
  }

  /** `UTF8Parser::Serialize`: nothing if the announced size does not fit, else the encoded text. */
  method WriteText(data: array<byte>, pos: nat, size: nat, t: WString, utf8size: nat) returns (n: nat)
    requires pos + size <= data.Length && |Encode(t)| <= utf8size
    modifies data
    ensures n == if size < utf8size then 0 else |Encode(t)|
    ensures Placed(old(data[..]), data[..], pos, if size < utf8size then [] else Encode(t))
  {
    if size < utf8size {
      return 0;
    }
    n := WriteChars(data, pos, t);
  }

  method WriteChars(data: array<byte>, pos: nat, t: WString) returns (n: nat)
    requires pos + |Encode(t)| <= data.Length
    modifies data
    ensures n == |Encode(t)| && Placed(old(data[..]), data[..], pos, Encode(t))
  {
    n := 0;
    for i := 0 to |t|
      invariant n == |Encode(t[..i])| && Placed(old(data[..]), data[..], pos, Encode(t[..i]))
    {
      EncodeLast(t, i);
      ghost var before := data[..];
      var k := WriteChar(data, pos + n, t[i]);
      PlacedNext(old(data[..]), before, data[..], pos, Encode(t[..i]), EncodeChar(t[i]));
      n := n + k;
    }
    Whole(t);
  }

  /** A length field and the text behind it; `size` is the text parser's own idea of the text's size. */
  method WriteAnnounced(data: array<byte>, pos: nat, t: WString, announced: nat, size: nat) returns (n: nat)
    requires |Encode(t)| <= size && pos + 2 + size <= data.Length
    modifies data
    ensures n == 2 + |Encode(t)| && Placed(old(data[..]), data[..], pos, AnnouncedText(t, announced))
  {
    SetBytes(data, pos, announced, 2);
    ghost var before := data[..];
    n := WriteText(data, pos + 2, size, t, size);
    PlacedNext(old(data[..]), before, data[..], pos, ToBytes(announced, 2), Encode(t));
    n := n + 2;
  }

  /** A length field and the text it announces, as the property keys and strings set from a text write them. */
  method WriteSizedText(data: array<byte>, pos: nat, t: WString) returns (n: nat)
    requires pos + 2 + TextSize(t) <= data.Length
    modifies data
    ensures n == |SizedText(t)| && Placed(old(data[..]), data[..], pos, SizedText(t))
  {
    EncodedSize(t);
    n := WriteAnnounced(data, pos, t, TextSize(t), TextSize(t));
  }

  lemma {:induction false} KeysConcat(a: seq<WString>, b: seq<WString>, d: Dict)
    ensures SerializeKeys(a + b, d) == SerializeKeys(a, d) + SerializeKeys(b, d)
    decreases |a|
  {
    if a == [] {
      assert a + b == b;
    } else {
      assert (a + b)[1..] == a[1..] + b;
      KeysConcat(a[1..], b, d);
    }
  }

  function EntryText(e: Entry<Value>): seq<byte> {
    SizedText(e.key) + Serialize(e.val)
  }

  lemma KeysLast(keys: seq<WString>, i: nat, d: Dict)
    requires i < |keys| && HasKey(d, keys[i])
    ensures var e := d[Find(d, keys[i])];
            SerializeKeys(keys[..i + 1], d) == SerializeKeys(keys[..i], d) + EntryText(e)
  {
    KeysSnoc(keys[..i], keys[i], d);
    OneFurther(keys, i);
  }

  lemma KeysSnoc(keys: seq<WString>, k: WString, d: Dict)
    requires HasKey(d, k)
    ensures SerializeKeys(keys + [k], d) == SerializeKeys(keys, d) + EntryText(d[Find(d, k)])
  {
    KeysConcat(keys, [k], d);
  }

  /** The size check of the class of `v`; `AMFObject` has none. */
  predicate Refused(v: Value, size: nat) {
    !v.Object? && size < Size(v)
  }

  /**
    `Serialize(data+pos, size)`: a class that checks its size refuses a small buffer (the array with 0,
    the others with -1) and otherwise writes exactly the bytes of `v`, given room for what is announced.
    */
  method Write(v: Value, data: array<byte>, pos: nat, size: nat) returns (n: int)
    requires WellFormed(v) && pos + size <= data.Length
    requires !Refused(v, size) ==> Announced(v) <= size
    modifies data
    ensures Refused(v, size) ==> n == (if v.EcmaArray? then 0 else -1) && Placed(old(data[..]), data[..], pos, [])
    ensures !Refused(v, size) ==> n == |Serialize(v)| && Placed(old(data[..]), data[..], pos, Serialize(v))
    decreases v, 0
  {
    if Refused(v, size) {
      return if v.EcmaArray? then 0 else -1;
    }
    match v
    case Number(bits) =>
      n := WriteNumber(data, pos, bits);
    case Boolean(b) =>
      data[pos] := BOOLEAN_MARKER;
      data[pos + 1] := if b then 1 else 0;
      n := 2;
    case String(t) =>
      n := WriteString(data, pos, t);
    case XmlDocument(t) =>
      n := WriteString(data, pos, t);
    case Object(order, props) =>
      n := WriteObject(data, pos, v);
    case EcmaArray(elements) =>
      n := WriteEcmaArray(data, pos, v);
    case Null =>
      data[pos] := NULL_MARKER;
      n := 1;
    case _ =>
      data[pos] := UNSUPPORTED_MARKER;
      n := 1;
  }

  method WriteNumber(data: array<byte>, pos: nat, bits: nat) returns (n: nat)
    requires pos + 9 <= data.Length
    modifies data
    ensures n == 9 && Placed(old(data[..]), data[..], pos, [NUMBER_MARKER] + ToBytes(bits, 8))
  {
    SetByte(data, pos, NUMBER_MARKER);
    ghost var before := data[..];
    SetBytes(data, pos + 1, bits, 8);
    PlacedNext(old(data[..]), before, data[..], pos, [NUMBER_MARKER], ToBytes(bits, 8));
    n := 9;
  }

  method WriteObject(data: array<byte>, pos: nat, v: Value) returns (n: nat)
    requires v.Object? && WellFormed(v) && pos + Announced(v) <= data.Length
    modifies data
    ensures n == |Serialize(v)| && Placed(old(data[..]), data[..], pos, Serialize(v))
    decreases v.props, 5
  {
    SetByte(data, pos, OBJECT_MARKER);
    ghost var before := data[..];
    ContainerBytes(v, [0, 0, OBJECT_END_MARKER]);
    n := WriteBody(data, pos + 1, v.order, v.props);
    PlacedNext(old(data[..]), before, data[..], pos, [OBJECT_MARKER],
               SerializeKeys(v.order, v.props) + [0, 0, OBJECT_END_MARKER]);
    n := n + 1;
  }

  method WriteEcmaArray(data: array<byte>, pos: nat, v: Value) returns (n: nat)
    requires v.EcmaArray? && WellFormed(v) && pos + Announced(v) <= data.Length
    modifies data
    ensures n == |Serialize(v)| && Placed(old(data[..]), data[..], pos, Serialize(v))
    decreases v.elements, 5
  {
    var d := v.elements;
    SetByte(data, pos, ECMA_ARRAY_MARKER);
    ghost var before := data[..];
    SetBytes(data, pos + 1, |d|, 4);
    PlacedNext(old(data[..]), before, data[..], pos, [ECMA_ARRAY_MARKER], ToBytes(|d|, 4));
    ContainerBytes(v, [0, 0, OBJECT_END_MARKER]);
    KeysCover(d);
    Assoc([ECMA_ARRAY_MARKER], ToBytes(|d|, 4), SerializeKeys(Keys(d), d) + [0, 0, OBJECT_END_MARKER]);
    before := data[..];
    n := WriteBody(data, pos + 5, Keys(d), d);
    PlacedNext(old(data[..]), before, data[..], pos, [ECMA_ARRAY_MARKER] + ToBytes(|d|, 4),
               SerializeKeys(Keys(d), d) + [0, 0, OBJECT_END_MARKER]);
    n := n + 5;
  }

  method WriteString(data: array<byte>, pos: nat, t: WString) returns (n: nat)
    requires pos + 3 + TextSize(t) <= data.Length
    modifies data
    ensures n == 1 + |SizedText(t)| && Placed(old(data[..]), data[..], pos, [STRING_MARKER] + SizedText(t))
  {
    SetByte(data, pos, STRING_MARKER);
    ghost var before := data[..];
    n := WriteSizedText(data, pos + 1, t);
    PlacedNext(old(data[..]), before, data[..], pos, [STRING_MARKER], SizedText(t));
    n := n + 1;
  }

  /** One property: its name and its value. */
  method WriteEntry(data: array<byte>, pos: nat, size: nat, e: Entry<Value>) returns (n: nat)
    requires WellFormed(e.val) && pos + size <= data.Length && EntryBytes(e) <= size
    modifies data
    ensures n == |EntryText(e)| && Placed(old(data[..]), data[..], pos, EntryText(e))
    decreases e.val, 1
  {
    EncodedSize(e.key);
    AnnouncedExact(e.val);
    var k := WriteSizedText(data, pos, e.key);
    ghost var before := data[..];
    var m := Write(e.val, data, pos + k, size - k);
    PlacedNext(old(data[..]), before, data[..], pos, SizedText(e.key), Serialize(e.val));
    n := k + m;
  }

  method WriteKeys(data: array<byte>, pos: nat, size: nat, keys: seq<WString>, d: Dict) returns (n: nat)
    requires forall e :: e in d ==> WellFormed(e.val)
    requires forall k :: k in keys ==> HasKey(d, k)
    requires pos + size <= data.Length && AnnouncedKeys(keys, d) <= size
    modifies data
    ensures n == |SerializeKeys(keys, d)| && Placed(old(data[..]), data[..], pos, SerializeKeys(keys, d))
    decreases d, 3
  {
    n := 0;
    assert keys[0..] == keys;
    for i := 0 to |keys|
      invariant n == |SerializeKeys(keys[..i], d)| && n + AnnouncedKeys(keys[i..], d) <= size
      invariant Placed(old(data[..]), data[..], pos, SerializeKeys(keys[..i], d))
    {
      n := WriteNext(data, pos, size, keys, i, n, d, old(data[..]));
    }
    Whole(keys);
  }

  /** One more property behind those already written. */
  method WriteNext(data: array<byte>, pos: nat, size: nat, keys: seq<WString>, i: nat, n: nat, d: Dict,
                   ghost start: seq<byte>) returns (n': nat)
    requires forall e :: e in d ==> WellFormed(e.val)
    requires i < |keys| && forall k :: k in keys ==> HasKey(d, k)
    requires pos + size <= data.Length && n + AnnouncedKeys(keys[i..], d) <= size
    requires n == |SerializeKeys(keys[..i], d)| && Placed(start, data[..], pos, SerializeKeys(keys[..i], d))
    modifies data
    ensures n' == |SerializeKeys(keys[..i + 1], d)| && n' + AnnouncedKeys(keys[i + 1..], d) <= size
    ensures Placed(start, data[..], pos, SerializeKeys(keys[..i + 1], d))
    decreases d, 2
  {
    KeysLast(keys, i, d);
    var e := d[Find(d, keys[i])];
    assert e in d;
    EntryRoom(keys, i, d, e);
    ghost var before := data[..];
    var k := WriteEntry(data, pos + n, size - n, e);
    PlacedNext(start, before, data[..], pos, SerializeKeys(keys[..i], d), EntryText(e));
    n' := n + k;
  }

  /** What is announced from entry `i` on. */
  lemma EntryRoom(keys: seq<WString>, i: nat, d: Dict, e: Entry<Value>)
    requires i < |keys| && HasKey(d, keys[i]) && e == d[Find(d, keys[i])]
    ensures AnnouncedKeys(keys[i..], d) == EntryBytes(e) + AnnouncedKeys(keys[i + 1..], d)
    ensures |EntryText(e)| <= EntryBytes(e)
  {
    assert keys[i..][1..] == keys[i + 1..];
    EncodedSize(e.key);
    WrittenAtMost(e.val);
  }

  method WriteEnd(data: array<byte>, pos: nat)
    requires pos + 3 <= data.Length
    modifies data
    ensures Placed(old(data[..]), data[..], pos, [0, 0, OBJECT_END_MARKER])
  {
    data[pos] := 0;
    data[pos + 1] := 0;
    data[pos + 2] := OBJECT_END_MARKER;
  }

  /** Properties and closing bytes of a container. */
  method WriteBody(data: array<byte>, pos: nat, keys: seq<WString>, d: Dict) returns (n: nat)
    requires forall e :: e in d ==> WellFormed(e.val)
    requires forall k :: k in keys ==> HasKey(d, k)
    requires pos + AnnouncedKeys(keys, d) + 3 <= data.Length
    modifies data
    ensures n == |SerializeKeys(keys, d)| + 3
    ensures Placed(old(data[..]), data[..], pos, SerializeKeys(keys, d) + [0, 0, OBJECT_END_MARKER])
    decreases d, 4
  {
    KeysWritten(keys, d);
    n := WriteKeys(data, pos, AnnouncedKeys(keys, d), keys, d);
    ghost var before := data[..];
    WriteEnd(data, pos + n);
    PlacedNext(old(data[..]), before, data[..], pos, SerializeKeys(keys, d), [0, 0, OBJECT_END_MARKER]);
    n := n + 3;
  }
}
