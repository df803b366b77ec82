/**
  `GetSize` against the bytes `Serialize` writes.  A text announces four bytes for a character above 0x10FFFF and is
  encoded in one, so the bytes announced are compared first.
  */
module AmfSize {
  import opened OrderedMap
  import opened AmfValue

  /** The bytes of `Serialize(v)` if each text took as many as it announces. */
  function Announced(v: Value): nat
    decreases v
  {
    match v
    case Number(_) => 9
    case Boolean(_) => 2
    case String(t) => TextSize(t) + 3
    case XmlDocument(t) => TextSize(t) + 3
    case Object(order, props) => 4 + AnnouncedKeys(order, props)
    case EcmaArray(elements) => 8 + AnnouncedKeys(Keys(elements), elements)
    case _ => 1
  }

  function AnnouncedKeys(keys: seq<WString>, d: Dict): nat
    decreases d, |keys|
  {
    if keys == [] then 0
    else
      var i := Find(d, keys[0]);
      (if i < |d| then 2 + TextSize(keys[0]) + Announced(d[i].val) else 0) + AnnouncedKeys(keys[1..], d)
  }

  /** No more is written than announced, and as much if every text is made of code points. */
  lemma {:induction false} WrittenAtMost(v: Value)
    ensures |Serialize(v)| <= Announced(v)
    ensures AllCodePoints(v) ==> |Serialize(v)| == Announced(v)
    decreases v, 1, 0
  {
    match v
    case String(t) => EncodedSize(t);
    case XmlDocument(t) => EncodedSize(t);
    case Object(order, props) => KeysWritten(order, props);
    case EcmaArray(elements) => KeysWritten(Keys(elements), elements);
    case _ =>
  }

  lemma {:induction false} KeysWritten(keys: seq<WString>, d: Dict)
    ensures |SerializeKeys(keys, d)| <= AnnouncedKeys(keys, d)
    ensures (forall e :: e in d ==> CodePoints(e.key) && AllCodePoints(e.val)) ==>
              |SerializeKeys(keys, d)| == AnnouncedKeys(keys, d)
    decreases d, 0, |keys|
  {
    if keys != [] {
      var i := Find(d, keys[0]);
      if i < |d| {
        assert d[i] in d;
        EncodedSize(keys[0]);
        WrittenAtMost(d[i].val);
      }
      KeysWritten(keys[1..], d);
    }
  }

  /** The announced bytes of one property. */
  function EntryBytes(e: Entry<Value>): nat {
    2 + TextSize(e.key) + Announced(e.val)
  }

  function EntriesBytes(d: Dict): nat {
    if d == [] then 0 else EntryBytes(d[0]) + EntriesBytes(d[1..])
  }

  function Without<T>(s: seq<T>, j: nat): seq<T>
    requires j < |s|
  {
    s[..j] + s[j + 1..]
  }

  lemma {:induction false} DropKey(keys: seq<WString>, d: Dict, j: nat)
    requires j < |keys| && HasKey(d, keys[j])
    ensures AnnouncedKeys(keys, d) == EntryBytes(d[Find(d, keys[j])]) + AnnouncedKeys(Without(keys, j), d)
    decreases j
  {
    if j == 0 {
      assert Without(keys, 0) == keys[1..];
    } else {
      DropKey(keys[1..], d, j - 1);
      assert Without(keys, j)[1..] == Without(keys[1..], j - 1);
      assert Without(keys, j)[0] == keys[0];
    }
  }

  ghost predicate AllNamed(keys: seq<WString>, d: Dict) {
    forall k :: k in keys ==> HasKey(d, k)
  }

  ghost predicate CoverFrom(keys: seq<WString>, d: Dict, i: nat) {
    forall j :: i <= j < |d| ==> d[j].key in keys
  }

  /** Without the name of entry `i` the names still cover the entries after it. */
  lemma CoverRest(keys: seq<WString>, d: Dict, i: nat, j: nat)
    requires Sorted(d) && i < |d| && j < |keys| && keys[j] == d[i].key && AllNamed(keys, d) && CoverFrom(keys, d, i)
    ensures AllNamed(Without(keys, j), d) && CoverFrom(Without(keys, j), d, i + 1)
  {
    forall x | i + 1 <= x < |d| ensures d[x].key in Without(keys, j) {
      var y :| 0 <= y < |keys| && keys[y] == d[x].key;
      if y == j { UniqueKey(d, i, x); }
      assert Without(keys, j)[if y < j then y else y - 1] == d[x].key;
    }
  }

  /** Keys that cover the entries from `i` on cost at least those entries, and exactly that if none is left over. */
  lemma {:induction false} CoverCost(keys: seq<WString>, d: Dict, i: nat)
    requires Sorted(d) && i <= |d| && AllNamed(keys, d) && CoverFrom(keys, d, i)
    ensures |keys| >= |d| - i
    ensures AnnouncedKeys(keys, d) >= EntriesBytes(d[i..])
    ensures AnnouncedKeys(keys, d) == EntriesBytes(d[i..]) <==> |keys| == |d| - i
    decreases |d| - i
  {
    if i == |d| {
      if keys != [] {
        assert HasKey(d, keys[0]);
        DropKey(keys, d, 0);
      }
    } else {
      var j := KeyIndex(keys, d[i].key);
      assert HasKey(d, keys[j]);
      UniqueKey(d, i, Find(d, keys[j]));
      DropKey(keys, d, j);
      CoverRest(keys, d, i, j);
      CoverCost(Without(keys, j), d, i + 1);
      assert d[i..][1..] == d[i + 1..];
    }
  }

  lemma KeyIndex(keys: seq<WString>, k: WString) returns (j: nat)
    requires k in keys
    ensures j < |keys| && keys[j] == k
  {
    j :| 0 <= j < |keys| && keys[j] == k;
  }

  function Elements<T(!new)>(s: seq<T>): (r: set<T>)
    ensures forall x :: x in r <==> x in s
  {
    set x | x in s
  }

  lemma {:induction false} DistinctCount<T(!new)>(s: seq<T>)
    ensures |Elements(s)| <= |s|
    ensures |Elements(s)| == |s| <==> forall i, j :: 0 <= i < j < |s| ==> s[i] != s[j]
    decreases |s|
  {
    if s != [] {
      DistinctCount(s[1..]);
      if s[0] in s[1..] {
        assert Elements(s) == Elements(s[1..]);
      } else {
        assert Elements(s) == {s[0]} + Elements(s[1..]);
      }
    }
  }

  /** An order that names exactly the keys of a dictionary is distinct iff it has as many names as entries. */
  lemma CoverDistinct(keys: seq<WString>, d: Dict)
    requires Sorted(d) && forall k :: k in keys <==> HasKey(d, k)
    ensures (forall i, j :: 0 <= i < j < |keys| ==> keys[i] != keys[j]) <==> |keys| == |d|
  {
    DistinctCount(keys);
    var ks := Keys(d);
    DistinctCount(ks);
    forall i, j | 0 <= i < j < |ks| ensures ks[i] != ks[j] {
      LessTrichotomy(d[i].key, d[j].key);
    }
    assert Elements(keys) == Elements(ks);
  }

  /** For code points `GetSize` is a lower bound of what `Serialize` writes, and exact iff no object repeats a name. */
  lemma SizeExact(v: Value)
    requires WellFormed(v) && AllCodePoints(v)
    ensures |Serialize(v)| >= Size(v)
    ensures |Serialize(v)| == Size(v) <==> OrderDistinct(v)
  {
    WrittenAtMost(v);
    AnnouncedExact(v);
  }

  /** `GetSize` is a lower bound of what is announced, and exact iff no object repeats a name in its order. */
  lemma {:induction false} AnnouncedExact(v: Value)
    requires WellFormed(v)
    ensures Announced(v) >= Size(v)
    ensures Announced(v) == Size(v) <==> OrderDistinct(v)
    decreases v, 0
  {
    match v
    case Object(order, props) =>
      EntriesExact(props);
      assert forall j :: 0 <= j < |props| ==> HasKey(props, props[j].key);
      CoverCost(order, props, 0);
      CoverDistinct(order, props);
      assert props[0..] == props;
    case EcmaArray(elements) =>
      EntriesExact(elements);
      assert forall k :: k in Keys(elements) ==> HasKey(elements, k);
      assert forall j :: 0 <= j < |elements| ==> elements[j].key == Keys(elements)[j];
      CoverCost(Keys(elements), elements, 0);
      assert elements[0..] == elements;
    case _ =>
  }

  /** A property added twice under one name is written twice and counted once. */
  lemma KeyTwice(k: WString)
    requires k == [0x61]
    ensures var v := Object([k, k], [Entry(k, Null)]);
            WellFormed(v) && AllCodePoints(v) && |Serialize(v)| > Size(v)
  {
    var e := Entry(k, Null);
    var v := Object([k, k], [e]);
    assert v.props[0] == e && HasKey(v.props, k);
    assert v.order[0] == v.order[1];
    SizeExact(v);
  }

  lemma {:induction false} EntriesExact(d: Dict)
    requires forall e :: e in d ==> WellFormed(e.val)
    ensures EntriesBytes(d) >= EntriesSize(d)
    ensures EntriesBytes(d) == EntriesSize(d) <==> forall e :: e in d ==> OrderDistinct(e.val)
    decreases d, 1
  {
    if d != [] {
      assert d[0] in d;
      AnnouncedExact(d[0].val);
      EntriesExact(d[1..]);
      assert forall e :: e in d <==> e == d[0] || e in d[1..];
    }
  }
}
