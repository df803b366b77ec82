/**
  AMF 0 values, the ordered dictionary that holds properties, and the bytes the serializers of
  mcu/src/amf.cpp write for each value.
  */
module OrderedMap {
  type WString = seq<nat>

  datatype Entry<V> = Entry(key: WString, val: V)

  /** `std::wstring::operator<`: lexicographic order on code units. */
  predicate Less(a: WString, b: WString)
    decreases |a|
  {
    if b == [] then false
    else if a == [] then true
    else a[0] < b[0] || (a[0] == b[0] && Less(a[1..], b[1..]))
  }

  lemma {:induction false} LessTrichotomy(a: WString, b: WString)
    ensures Less(a, b) || a == b || Less(b, a)
    ensures !(Less(a, b) && Less(b, a))
    ensures !Less(a, a)
    decreases |a|
  {
    if a != [] && b != [] {
      LessTrichotomy(a[1..], b[1..]);
      assert a == [a[0]] + a[1..] && b == [b[0]] + b[1..];
    }
    if a != [] {
      LessTrichotomy(a[1..], a[1..]);
    }
  }

  lemma {:induction false} LessTransitive(a: WString, b: WString, c: WString)
    requires Less(a, b) && Less(b, c)
    ensures Less(a, c)
    decreases |a|
  {
    if a != [] && a[0] == b[0] && b[0] == c[0] {
      LessTransitive(a[1..], b[1..], c[1..]);
    }
  }

  /** `std::map` seen through its iteration order: keys strictly increase. */
  ghost predicate Sorted<V>(d: seq<Entry<V>>) {
    forall i, j :: 0 <= i < j < |d| ==> Less(d[i].key, d[j].key)
  }

  ghost predicate HasKey<V>(d: seq<Entry<V>>, k: WString) {
    exists i :: 0 <= i < |d| && d[i].key == k
  }

  /** `std::map::find`: the position of `k`, or the end position. */
  function Find<V>(d: seq<Entry<V>>, k: WString): (i: nat)
    ensures i <= |d|
    ensures i < |d| ==> d[i].key == k
    ensures i == |d| <==> !HasKey(d, k)
    decreases |d|
  {
    if d == [] then 0
    else if d[0].key == k then 0
    else
      var j := Find(d[1..], k);
      assert HasKey(d, k) ==> HasKey(d[1..], k) by {
        if HasKey(d, k) {
          var i :| 0 <= i < |d| && d[i].key == k;
          assert d[1..][i - 1].key == k;
        }
      }
      assert j < |d[1..]| ==> d[1 + j].key == k;
      1 + j
  }

  /** `map[k] = v`. */
  function Insert<V>(d: seq<Entry<V>>, k: WString, v: V): (r: seq<Entry<V>>)
    decreases |d|
  {
    if d == [] then [Entry(k, v)]
    else if d[0].key == k then [Entry(k, v)] + d[1..]
    else if Less(k, d[0].key) then [Entry(k, v)] + d
    else [d[0]] + Insert(d[1..], k, v)
  }

  /** The value stored under `k` is `v`. */
  ghost predicate Maps<V>(d: seq<Entry<V>>, k: WString, v: V) {
    exists i :: 0 <= i < |d| && d[i] == Entry(k, v)
  }

  lemma MapsCons<V>(x: Entry<V>, d: seq<Entry<V>>, k: WString, v: V)
    ensures Maps([x] + d, k, v) <==> x == Entry(k, v) || Maps(d, k, v)
  {
    assert forall i :: 0 <= i < |d| ==> ([x] + d)[i + 1] == d[i];
    assert ([x] + d)[0] == x;
  }

  lemma {:induction false} InsertEntries<V>(d: seq<Entry<V>>, k: WString, v: V, k': WString, v': V)
    requires Sorted(d)
    ensures Maps(Insert(d, k, v), k', v') <==> if k' == k then v' == v else Maps(d, k', v')
    decreases |d|
  {
    var r := Insert(d, k, v);
    if d == [] {
      assert r[0] == Entry(k, v);
    } else if d[0].key == k || Less(k, d[0].key) {
      assert r[0] == Entry(k, v);
      var s := if d[0].key == k then 1 else 0;
      assert forall i :: 1 <= i < |r| ==> r[i] == d[i - 1 + s];
      assert forall i :: s <= i < |d| ==> r[i + 1 - s] == d[i];
      forall i | 0 <= i < |d| && i >= s ensures d[i].key != k {
        LessTrichotomy(k, d[i].key);
        if s == 0 && i > 0 { LessTransitive(k, d[0].key, d[i].key); }
      }
    } else {
      InsertEntries(d[1..], k, v, k', v');
      assert d == [d[0]] + d[1..];
      MapsCons(d[0], d[1..], k', v');
      MapsCons(d[0], Insert(d[1..], k, v), k', v');
    }
  }

  /** An entry after an insertion is the new one or one from before. */
  lemma {:induction false} InsertFrom<V>(d: seq<Entry<V>>, k: WString, v: V, e: Entry<V>)
    requires e in Insert(d, k, v)
    ensures e == Entry(k, v) || e in d
    decreases |d|
  {
    if d != [] && d[0].key != k && !Less(k, d[0].key) && e != d[0] {
      InsertFrom(d[1..], k, v, e);
    }
  }

  lemma {:induction false} InsertSorted<V>(d: seq<Entry<V>>, k: WString, v: V)
    requires Sorted(d)
    ensures Sorted(Insert(d, k, v))
    decreases |d|
  {
    var r := Insert(d, k, v);
    if d == [] {
    } else if d[0].key == k {
    } else if Less(k, d[0].key) {
      forall i | 0 <= i < |d| ensures Less(k, d[i].key) {
        if i > 0 { LessTransitive(k, d[0].key, d[i].key); }
      }
    } else {
      InsertSorted(d[1..], k, v);
      LessTrichotomy(k, d[0].key);
      var t := Insert(d[1..], k, v);
      forall i | 0 <= i < |t| ensures Less(d[0].key, t[i].key) {
        assert Maps(t, t[i].key, t[i].val) by { assert t[i] == Entry(t[i].key, t[i].val); }
        InsertEntries(d[1..], k, v, t[i].key, t[i].val);
        if t[i].key != k {
          var j :| 0 <= j < |d[1..]| && d[1..][j] == t[i];
          assert d[1..][j] == d[j + 1];
        }
      }
    }
  }

  /** Two dictionaries with the same associations are the same sequence of entries. */
  lemma {:induction false} SameEntries<V(!new)>(d: seq<Entry<V>>, e: seq<Entry<V>>)
    requires Sorted(d) && Sorted(e)
    requires forall k, v :: Maps(d, k, v) <==> Maps(e, k, v)
    ensures d == e
    decreases |d|
  {
    if d == [] {
      if e != [] { assert Maps(e, e[0].key, e[0].val); }
    } else {
      assert Maps(d, d[0].key, d[0].val) by { assert d[0] == Entry(d[0].key, d[0].val); }
      var j :| 0 <= j < |e| && e[j] == d[0];
      assert Maps(e, e[0].key, e[0].val) by { assert e[0] == Entry(e[0].key, e[0].val); }
      var i :| 0 <= i < |d| && d[i] == e[0];
      LessTrichotomy(d[0].key, e[0].key);
      assert d[0] == e[0];
      TailEntries(d);
      TailEntries(e);
      SameEntries(d[1..], e[1..]);
    }
  }

  lemma TailEntries<V(!new)>(d: seq<Entry<V>>)
    requires Sorted(d) && d != []
    ensures forall k, v :: Maps(d[1..], k, v) <==> Maps(d, k, v) && k != d[0].key
  {
    forall k, v ensures Maps(d[1..], k, v) <==> Maps(d, k, v) && k != d[0].key {
      if Maps(d[1..], k, v) {
        var i :| 0 <= i < |d[1..]| && d[1..][i] == Entry(k, v);
        assert d[i + 1] == Entry(k, v);
        LessTrichotomy(d[0].key, k);
      }
      if Maps(d, k, v) && k != d[0].key {
        var i :| 0 <= i < |d| && d[i] == Entry(k, v);
        assert d[1..][i - 1] == Entry(k, v);
      }
    }
  }

  /** Inserting a key above all others appends. */
  lemma {:induction false} InsertLast<V>(d: seq<Entry<V>>, k: WString, v: V)
    requires forall i :: 0 <= i < |d| ==> Less(d[i].key, k)
    ensures Insert(d, k, v) == d + [Entry(k, v)]
    decreases |d|
  {
    if d != [] {
      LessTrichotomy(d[0].key, k);
      InsertLast(d[1..], k, v);
    }
  }

  lemma UniqueKey<V>(d: seq<Entry<V>>, i: nat, j: nat)
    requires Sorted(d) && i < |d| && j < |d| && d[i].key == d[j].key
    ensures i == j
  {
    LessTrichotomy(d[i].key, d[j].key);
  }
}

module AmfValue {
  import opened OrderedMap
  import opened BitStrings

  type Dict = seq<Entry<Value>>

  /**
    The tree of `AMFData` objects.  A number is its raw 64 bits.  An object keeps its insertion order
    beside the map (`propertiesOrder`, `properties`); an ECMA array keeps the map alone (`elements`).
    */
  datatype Value =
    | Number(bits: nat)
    | Boolean(value: bool)
    | String(text: WString)
    | Null
    | Undefined
    | MovieClip
    | Unsupported
    | RecordSet
    | XmlDocument(text: WString)
    | LongString(text: WString)
    | Date(raw: seq<byte>)
    | Object(order: seq<WString>, props: Dict)
    | EcmaArray(elements: Dict)

  const NUMBER_MARKER: byte := 0x00
  const BOOLEAN_MARKER: byte := 0x01
  const STRING_MARKER: byte := 0x02
  const OBJECT_MARKER: byte := 0x03
  const MOVIE_CLIP_MARKER: byte := 0x04
  const NULL_MARKER: byte := 0x05
  const UNDEFINED_MARKER: byte := 0x06
  const ECMA_ARRAY_MARKER: byte := 0x08
  const OBJECT_END_MARKER: byte := 0x09
  const DATE_MARKER: byte := 0x0B
  const LONG_STRING_MARKER: byte := 0x0C
  const UNSUPPORTED_MARKER: byte := 0x0D
  const RECORD_SET_MARKER: byte := 0x0E
  const XML_DOCUMENT_MARKER: byte := 0x0F
  const AVM_PLUS_MARKER: byte := 0x11

  // ---------- numbers and text as bytes ----------

  const DOT: byte := 0x2e
  const MAX_CODE_POINT := 0x10ffff

  /** The bytes `UTF8Parser::Serialize` writes for one wide character. */
  function EncodeChar(w: nat): (s: seq<byte>)
  {
    if w <= 0x7f then [w]
    else if w <= 0x7ff then [0xc0 + w / 64 % 32, 0x80 + w % 64]
    else if w <= 0xffff then [0xe0 + w / 4096 % 16, 0x80 + w / 64 % 64, 0x80 + w % 64]
    else if w <= MAX_CODE_POINT then
      [0xf0 + w / 262144 % 8, 0x80 + w / 4096 % 64, 0x80 + w / 64 % 64, 0x80 + w % 64]
    else [DOT]
  }

  function Encode(s: WString): seq<byte> {
    if s == [] then [] else EncodeChar(s[0]) + Encode(s[1..])
  }

  /** The size `UTF8Parser::SetWString` adds for one wide character. */
  function CharSize(w: nat): nat {
    if w <= 0x7f then 1 else if w <= 0x7ff then 2 else if w <= 0xffff then 3 else 4
  }

  function TextSize(s: WString): nat {
    if s == [] then 0 else CharSize(s[0]) + TextSize(s[1..])
  }

  predicate CodePoints(s: WString) {
    forall i :: 0 <= i < |s| ==> s[i] <= MAX_CODE_POINT
  }

  /** Serialize writes exactly the announced size iff every character is a code point. */
  lemma {:induction false} EncodedSize(s: WString)
    ensures |Encode(s)| <= TextSize(s)
    ensures |Encode(s)| == TextSize(s) <==> CodePoints(s)
  {
    if s != [] {
      EncodedSize(s[1..]);
      assert CodePoints(s) <==> s[0] <= MAX_CODE_POINT && CodePoints(s[1..]) by {
        assert forall i :: 1 <= i < |s| ==> s[i] == s[1..][i - 1];
        assert forall i :: 0 <= i < |s[1..]| ==> s[1..][i] == s[i + 1];
      }
    }
  }

  /** A string or key that the 16-bit length prefix can announce. */
  ghost predicate Fits(s: WString) {
    CodePoints(s) && TextSize(s) <= 0xffff
  }

  // ---------- serialized values ----------

  /** Text behind a length field that says `n`. */
  function AnnouncedText(s: WString, n: nat): seq<byte> {
    ToBytes(n, 2) + Encode(s)
  }

  function SizedText(s: WString): seq<byte> {
    AnnouncedText(s, TextSize(s))
  }

  function Keys(d: Dict): (ks: seq<WString>)
    ensures |ks| == |d|
    ensures forall i :: 0 <= i < |d| ==> ks[i] == d[i].key
  {
    if d == [] then [] else [d[0].key] + Keys(d[1..])
  }

  /** The bytes written by each class's `Serialize`; classes without one inherit `AMFData::Serialize`. */
  function Serialize(v: Value): (s: seq<byte>)
    ensures |s| >= 1
    decreases v
  {
    match v
    case Number(bits) => [NUMBER_MARKER] + ToBytes(bits, 8)
    case Boolean(b) => [BOOLEAN_MARKER, if b then 1 else 0]
    case String(t) => [STRING_MARKER] + SizedText(t)
    case XmlDocument(t) => [STRING_MARKER] + SizedText(t)
    case Null => [NULL_MARKER]
    case Object(order, props) => [OBJECT_MARKER] + SerializeKeys(order, props) + [0, 0, OBJECT_END_MARKER]
    case EcmaArray(elements) =>
      [ECMA_ARRAY_MARKER] + ToBytes(|elements|, 4) + SerializeKeys(Keys(elements), elements)
      + [0, 0, OBJECT_END_MARKER]
    case _ => [UNSUPPORTED_MARKER]
  }

  function SerializeKeys(keys: seq<WString>, d: Dict): seq<byte>
    decreases d, |keys|
  {
    if keys == [] then []
    else
      var i := Find(d, keys[0]);
      (if i < |d| then SizedText(keys[0]) + Serialize(d[i].val) else []) + SerializeKeys(keys[1..], d)
  }

  /** The bytes of a container: marker, count if there is one, properties, end. */
  lemma ContainerBytes(v: Value, end: seq<byte>)
    requires end == [0, 0, OBJECT_END_MARKER]
    ensures v.Object? ==> Serialize(v) == [OBJECT_MARKER] + (SerializeKeys(v.order, v.props) + end)
    ensures v.EcmaArray? ==>
              var d := v.elements;
              Serialize(v) == [ECMA_ARRAY_MARKER] + (ToBytes(|d|, 4) + (SerializeKeys(Keys(d), d) + end))
  {
  }

  lemma KeysCover(d: Dict)
    ensures forall k :: k in Keys(d) <==> HasKey(d, k)
  {
  }

  /** `GetSize` of each class. */
  function Size(v: Value): nat
    decreases v
  {
    match v
    case Number(_) => 9
    case Boolean(_) => 2
    case String(t) => TextSize(t) + 3
    case XmlDocument(t) => TextSize(t) + 3
    case Object(_, props) => 4 + EntriesSize(props)
    case EcmaArray(elements) => 8 + EntriesSize(elements)
    case _ => 1
  }

  function EntriesSize(d: Dict): nat
    decreases d
  {
    if d == [] then 0 else 2 + TextSize(d[0].key) + Size(d[0].val) + EntriesSize(d[1..])
  }

  // ---------- which trees exist, and which survive ----------

  /** What the constructors and `AddProperty` maintain. */
  ghost predicate WellFormed(v: Value)
    decreases v
  {
    match v
    case Number(bits) => bits < Pow256(8)
    case Object(order, props) =>
      && Sorted(props)
      && (forall k :: k in order <==> HasKey(props, k))
      && (forall e :: e in props ==> WellFormed(e.val))
    case EcmaArray(elements) =>
      && Sorted(elements)
      && (forall e :: e in elements ==> WellFormed(e.val))
    case _ => true
  }

  /** Every string and key fits its length prefix. */
  ghost predicate AllFit(v: Value)
    decreases v
  {
    match v
    case String(t) => Fits(t)
    case XmlDocument(t) => Fits(t)
    case Object(_, props) => forall e :: e in props ==> Fits(e.key) && AllFit(e.val)
    case EcmaArray(elements) => forall e :: e in elements ==> Fits(e.key) && AllFit(e.val)
    case _ => true
  }

  /** Every string and key is made of code points. */
  ghost predicate AllCodePoints(v: Value)
    decreases v
  {
    match v
    case String(t) => CodePoints(t)
    case XmlDocument(t) => CodePoints(t)
    case Object(_, props) => forall e :: e in props ==> CodePoints(e.key) && AllCodePoints(e.val)
    case EcmaArray(elements) => forall e :: e in elements ==> CodePoints(e.key) && AllCodePoints(e.val)
    case _ => true
  }

  /** No property is named by the empty string, which the format reserves for the end of an object. */
  ghost predicate KeysNonEmpty(v: Value)
    decreases v
  {
    match v
    case Object(_, props) => forall e :: e in props ==> e.key != [] && KeysNonEmpty(e.val)
    case EcmaArray(elements) => forall e :: e in elements ==> e.key != [] && KeysNonEmpty(e.val)
    case _ => true
  }

  /** Every node is of a class that has its own serializer (or is already `Unsupported`). */
  ghost predicate OwnSerializers(v: Value)
    decreases v
  {
    match v
    case Number(_) => true
    case Boolean(_) => true
    case String(_) => true
    case Null => true
    case Unsupported => true
    case Object(_, props) => forall e :: e in props ==> OwnSerializers(e.val)
    case EcmaArray(elements) => forall e :: e in elements ==> OwnSerializers(e.val)
    case _ => false
  }

  /** The insertion order lists each key once, at every level. */
  ghost predicate OrderDistinct(v: Value)
    decreases v
  {
    match v
    case Object(order, props) =>
      && (forall i, j :: 0 <= i < j < |order| ==> order[i] != order[j])
      && (forall e :: e in props ==> OrderDistinct(e.val))
    case EcmaArray(elements) => forall e :: e in elements ==> OrderDistinct(e.val)
    case _ => true
  }

  /** The tree that comes back: what the serialized form can still tell apart. */
  function Canon(v: Value): Value
    decreases v
  {
    match v
    case Number(_) => v
    case Boolean(_) => v
    case String(_) => v
    case XmlDocument(t) => String(t)
    case Null => Null
    case Object(order, props) => Object(order, CanonEntries(props))
    case EcmaArray(elements) => EcmaArray(CanonEntries(elements))
    case _ => Unsupported
  }

  function CanonEntries(d: Dict): (r: Dict)
    ensures |r| == |d|
    ensures forall i :: 0 <= i < |d| ==> r[i] == Entry(d[i].key, Canon(d[i].val))
    decreases d
  {
    if d == [] then [] else [Entry(d[0].key, Canon(d[0].val))] + CanonEntries(d[1..])
  }

  lemma {:induction false} CanonIdentity(v: Value)
    ensures Canon(v) == v <==> OwnSerializers(v)
    decreases v
  {
    match v
    case Object(_, props) => CanonEntriesIdentity(props);
    case EcmaArray(elements) => CanonEntriesIdentity(elements);
    case _ =>
  }

  lemma {:induction false} CanonEntriesIdentity(d: Dict)
    ensures CanonEntries(d) == d <==> forall e :: e in d ==> OwnSerializers(e.val)
    decreases d
  {
    forall i | 0 <= i < |d| ensures Canon(d[i].val) == d[i].val <==> OwnSerializers(d[i].val) {
      CanonIdentity(d[i].val);
    }
    if CanonEntries(d) == d {
      forall e | e in d ensures OwnSerializers(e.val) {
        var i :| 0 <= i < |d| && d[i] == e;
        assert CanonEntries(d)[i] == d[i];
      }
    }
  }
}
