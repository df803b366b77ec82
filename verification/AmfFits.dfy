/**
  What a parser can hold (mcu/src/amf.cpp): however long a text was, a 16-bit length field lets at most 65535 bytes of
  it in, so no string and no key of a parsed tree is longer.
  */
module AmfFits {
  import opened OrderedMap
  import opened AmfValue
  import opened BitStrings
  import opened AmfMachine
  import opened AmfRoundTrip

  ghost predicate Short(s: WString) {
    TextSize(s) <= 0xffff
  }

  ghost predicate ShortEntry(e: Entry<Value>)
    decreases e, 0
  {
    Short(e.key) && AllShort(e.val)
  }

  /** No string and no key of the tree is longer than its length field can say. */
  ghost predicate AllShort(v: Value)
    decreases v, 1
  {
    match v
    case String(t) => Short(t)
    case XmlDocument(t) => Short(t)
    case Object(_, props) => forall e :: e in props ==> ShortEntry(e)
    case EcmaArray(elements) => forall e :: e in elements ==> ShortEntry(e)
    case _ => true
  }

  /** A string fits its field if it is made of code points and is not too long. */
  lemma {:induction false} FitParts(v: Value)
    ensures AllFit(v) <==> AllShort(v) && AllCodePoints(v)
    decreases v
  {
    if v.Object? || v.EcmaArray? {
      var d := if v.Object? then v.props else v.elements;
      forall e | e in d
        ensures Fits(e.key) && AllFit(e.val) <==> ShortEntry(e) && CodePoints(e.key) && AllCodePoints(e.val)
      {
        FitParts(e.val);
      }
    }
  }

  // ---------- strings under way ----------

  /** `p` bytes of the text read so far belong to a character that is not complete. */
  ghost predicate SlimStr(s: Str, p: nat) {
    && Slim(s.text, s.text.len, p)
    && s.size.value + Pow256(s.size.len) <= 0x10000
    && (if s.size.len == 0 then s.text.utf8size == s.size.value else s.text.utf8size == UNSET && s.text.len == 0)
  }

  ghost predicate ShortStr(s: Str) {
    exists p: nat :: SlimStr(s, p)
  }

  lemma NewStrShort()
    ensures ShortStr(NewStr(2))
  {
    assert Pow256(2) == 0x10000;
    assert SlimStr(NewStr(2), 0);
  }

  lemma StrStepShort(s: Str, b: byte)
    requires ShortStr(s) && StrStep(s, b).Ok?
    ensures ShortStr(StrStep(s, b).value)
  {
    var p: nat :| SlimStr(s, p);
    if s.size.len > 0 {
      assert SlimStr(StrStep(s, b).value, p);
    } else {
      var q := SlimStep(s.text, s.text.len, p, b);
      assert SlimStr(StrStep(s, b).value, q);
    }
  }

  // ---------- values under way ----------

  ghost predicate ShortData(o: Data)
    decreases o, 0
  {
    match o
    case StringData(s) => ShortStr(s)
    case XmlData(s) => ShortStr(s)
    case PlainData(v) => AllShort(v)
    case Container(_, _, key, _, dict, _, parser) =>
      ShortStr(key) && ShortParser(parser) && forall e :: e in dict ==> ShortEntry(e)
    case _ => true
  }

  ghost predicate ShortParser(p: Parser)
    decreases p, 1
  {
    p.Busy? ==> ShortData(p.data)
  }

  lemma GetShort(o: Data)
    requires ShortData(o) && DataParsed(o)
    ensures AllShort(Get(o))
  {
  }

  lemma InsertedShort(d: Dict, k: WString, v: Value)
    requires (forall e :: e in d ==> ShortEntry(e)) && ShortEntry(Entry(k, v))
    ensures forall e :: e in Insert(d, k, v) ==> ShortEntry(e)
  {
    forall e | e in Insert(d, k, v) ensures ShortEntry(e) {
      InsertFrom(d, k, v, e);
    }
  }

  lemma CommitShort(o: Data)
    requires o.Container? && o.parser.Busy? && ShortData(o) && StrParsed(o.key) && DataParsed(o.parser.data)
    ensures ShortData(Commit(o))
  {
    var e := Entry(o.key.text.value, Get(o.parser.data));
    GetShort(o.parser.data);
    assert ShortEntry(e);
    InsertedShort(o.dict, e.key, e.val);
    NewStrShort();
  }

  lemma NewDataShort(marker: byte)
    requires NewData(marker).Ok?
    ensures ShortData(NewData(marker).value)
  {
    NewStrShort();
  }

  lemma {:induction false} DataStepShort(o: Data, b: byte)
    requires ShortData(o) && DataStep(o, b).Ok?
    ensures ShortData(DataStep(o, b).value)
    decreases o, 0
  {
    match o
    case StringData(s) => StrStepShort(s, b);
    case XmlData(s) => StrStepShort(s, b);
    case Container(_, num, key, _, _, _, parser) =>
      if num.len == 0 && !StrParsed(key) {
        StrStepShort(key, b);
      } else if num.len == 0 && key.size.value != 0 && Waits(parser) {
        CommitShort(o.(parser := Settled(parser)));
        StrStepShort(Commit(o.(parser := Settled(parser))).key, b);
      } else if num.len == 0 && key.size.value != 0 {
        ParserStepShort(parser, b);
        var p := ParserStep(parser, b).value;
        if Parsed(p) {
          CommitShort(o.(parser := p));
        }
      }
    case _ =>
  }

  lemma {:induction false} ParserStepShort(p: Parser, b: byte)
    requires ShortParser(p) && ParserStep(p, b).Ok?
    ensures ShortParser(ParserStep(p, b).value)
    decreases p, 1
  {
    match p
    case Idle => NewDataShort(b);
    case Busy(o) => DataStepShort(o, b);
  }

  lemma {:induction false} FeedShort(p: Parser, data: seq<byte>)
    requires ShortParser(p) && Feed(p, data).Ok?
    ensures ShortParser(Feed(p, data).value)
    decreases |data|
  {
    if data != [] {
      ParserStepShort(p, data[0]);
      FeedShort(ParserStep(p, data[0]).value, data[1..]);
    }
  }

  /** Whatever bytes it was fed, a parser that yields a tree yields one whose strings and keys fit their fields. */
  lemma YieldsShort(data: seq<byte>, v: Value)
    requires Yields(Feed(Idle, data), v)
    ensures AllShort(v)
  {
    FeedShort(Idle, data);
    GetShort(Feed(Idle, data).value.data);
  }

  // ---------- strings that were read, written again ----------

  /** A string that has been read holds text no longer than its length field said. */
  lemma {:induction false} ReadShort(s: Str, data: seq<byte>)
    requires ShortStr(s) && StrFeed(s, data).Ok?
    ensures ShortStr(StrFeed(s, data).value)
    decreases |data|
  {
    if data != [] {
      StrStepShort(s, data[0]);
      ReadShort(StrStep(s, data[0]).value, data[1..]);
    }
  }

  lemma ReadAnnounced(data: seq<byte>, s: Str)
    requires StrFeed(NewStr(2), data) == Ok(s) && StrParsed(s)
    ensures TextSize(s.text.value) <= s.size.value == s.text.utf8size <= 0xffff
  {
    NewStrShort();
    ReadShort(NewStr(2), data);
  }

  /** Text behind a length field that says `n` is read back if and only if it is encoded in exactly `n` bytes. */
  lemma AnnouncedReadsBack(t: WString, n: nat)
    requires TextSize(t) <= n <= 0xffff
    ensures Yields(Feed(Idle, [STRING_MARKER] + AnnouncedText(t, n)), String(t)) <==> |Encode(t)| == n
    ensures |Encode(t)| == n <==> TextSize(t) == n && CodePoints(t)
  {
    EncodedSize(t);
    assert Pow256(2) == 0x10000;
    AnnouncedAtWidth(t, n, 2);
    FeedMarker(StringData(NewStr(2)), STRING_MARKER, AnnouncedText(t, n));
    StringTakes(StringData(NewStr(2)), AnnouncedText(t, n));
    TextLen(NEW_TEXT.(utf8size := n), Encode(t));
    if CodePoints(t) {
      TextRoundTrip(NEW_TEXT.(utf8size := n), t);
    }
  }

  /**
    A string object keeps the size it was read with.  Written again, it is read back if and only if the text it holds
    is encoded in as many bytes as it was read from: malformed bytes decode to text of another size.
    */
  lemma RewrittenExactly(data: seq<byte>, s: Str)
    requires StrFeed(NewStr(2), data) == Ok(s) && StrParsed(s)
    ensures Yields(Feed(Idle, [STRING_MARKER] + AnnouncedText(s.text.value, s.size.value)), String(s.text.value))
       <==> TextSize(s.text.value) == s.size.value && CodePoints(s.text.value)
  {
    ReadAnnounced(data, s);
    AnnouncedReadsBack(s.text.value, s.size.value);
  }

  /** The first two bytes of a three-byte character, cut short by an `A`. */
  lemma CutShort(t: Text)
    requires t.bytes == 0 && t.value == []
    ensures TextFeed(t, [0xE2, 0x82, 0x41]).value == [DOT, 0x41]
  {
    var s: seq<byte> := [0xE2, 0x82, 0x41];
    Unfold2(t, s);
    assert s[2..] == [0x41];
    assert TextFeed(TextStep(TextStep(t, 0xE2), 0x82), [0x41]) == TextStep(TextStep(TextStep(t, 0xE2), 0x82), 0x41);
  }

  lemma DotA(t: WString)
    requires t == [DOT, 0x41]
    ensures TextSize(t) == 2
  {
    OneMore([DOT], 0x41);
    OneMore([], DOT);
    assert [DOT] + [0x41] == t && [] + [DOT] == [DOT];
  }

  /** Read under a length of three, this text is ".A"; written again under the same length, it is not read back. */
  lemma StaleSize(cut: seq<byte>, n: nat, t: WString)
    requires cut == [0xE2, 0x82, 0x41] && n == 3 && t == [DOT, 0x41]
    ensures var r := StrFeed(NewStr(2), ToBytes(n, 2) + cut);
            && r.Ok? && StrParsed(r.value) && r.value.text.value == t && r.value.size.value == n
            && !Yields(Feed(Idle, [STRING_MARKER] + AnnouncedText(t, n)), String(t))
  {
    ReadCut(cut, n, t);
    DotA(t);
    AnnouncedReadsBack(t, n);
  }

  lemma ReadCut(cut: seq<byte>, n: nat, t: WString)
    requires cut == [0xE2, 0x82, 0x41] && n == 3 && t == [DOT, 0x41]
    ensures var r := StrFeed(NewStr(2), ToBytes(n, 2) + cut);
            r.Ok? && StrParsed(r.value) && r.value.text.value == t && r.value.size.value == n
  {
    var text := NEW_TEXT.(utf8size := n);
    assert Pow256(2) == 0x10000;
    SizeField(NewStr(2), n);
    StrFeedConcat(NewStr(2), ToBytes(n, 2), cut);
    TextBytes(Str(Accumulator(0, n), text), cut);
    TextLen(text, cut);
    CutShort(text);
  }
}
