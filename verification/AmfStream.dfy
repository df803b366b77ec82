/**
  Reading a stream of values in chunks: the loop of `RTMPMetaData::Parse` (mcu/src/rtmpmessage.cpp)
  around `AMFParser`.
  */
module AmfStream {
  import opened OrderedMap
  import opened AmfValue
  import opened BitStrings
  import opened AmfMachine
  import opened AmfRoundTrip
  import opened AmfFits
  import opened Sequences

  // ---------- one call of AMFParser::Parse ----------

  datatype Outcome = Stopped(parser: Parser, used: nat) | Failed(error: Error)

  /**
    `AMFParser::Parse` on a chunk: it consumes bytes until the value is complete or the chunk ends.  A date is complete
    before the byte behind it.
    */
  function Run(p: Parser, data: seq<byte>): (r: Outcome)
    ensures r.Stopped? ==> r.used <= |data| && (r.used < |data| ==> Parsed(r.parser))
    decreases |data|
  {
    if data == [] || Parsed(p) then Stopped(p, 0)
    else if Waits(p) then Stopped(Settled(p), 0)
    else match ParserStep(p, data[0])
      case Err(e) => Failed(e)
      case Ok(p') =>
        match Run(p', data[1..])
        case Stopped(q, n) => Stopped(q, n + 1)
        case Failed(e) => Failed(e)
  }

  lemma NotWaiting(p: Parser, data: seq<byte>)
    requires data != [] && Feed(p, data) != Err(Overrun)
    ensures !Waits(p)
  {
    if Waits(p) {
      WaitsRefuses(p, data);
    }
  }

  /** If exactly `data` completes the value, one call consumes `data` and nothing after it. */
  lemma {:induction false} RunStops(p: Parser, data: seq<byte>, rest: seq<byte>)
    requires !Parsed(p) && Feed(p, data).Ok? && Parsed(Feed(p, data).value)
    ensures Run(p, data + rest) == Stopped(Feed(p, data).value, |data|)
    decreases |data|
  {
    assert data != [];
    NotWaiting(p, data);
    var p' := ParserStep(p, data[0]).value;
    assert (data + rest)[1..] == data[1..] + rest;
    if Parsed(p') {
      if data[1..] != [] {
        ParsedStuck(p', data[1..]);
      }
    } else {
      RunStops(p', data[1..], rest);
    }
  }

  /** Splitting the bytes of one value over two calls changes nothing. */
  lemma {:induction false} RunResumes(p: Parser, a: seq<byte>, b: seq<byte>)
    ensures Run(p, a + b) ==
            match Run(p, a)
            case Failed(e) => Failed(e)
            case Stopped(q, n) =>
              if n < |a| then Stopped(q, n)
              else match Run(q, b) case Failed(e) => Failed(e) case Stopped(q', m) => Stopped(q', n + m)
    decreases |a|
  {
    if a == [] {
      assert a + b == b;
    } else if !Parsed(p) {
      assert (a + b)[1..] == a[1..] + b;
      match ParserStep(p, a[0])
      case Ok(p') => RunResumes(p', a[1..], b);
      case Err(_) =>
    }
  }

  /** `Serialize` then `Parse`: the canonical tree, exactly its bytes consumed, whatever follows them. */
  lemma ValueThenRest(v: Value, rest: seq<byte>)
    requires WellFormed(v) && AllFit(v) && KeysNonEmpty(v)
    ensures var r := Run(Idle, Serialize(v) + rest);
            && r.Stopped? && r.used == |Serialize(v)|
            && Parsed(r.parser) && Get(r.parser.data) == Canon(v)
  {
    SerializedValue(v);
    RunStops(Idle, Serialize(v), rest);
  }

  /**
    Exactly the trees that survive: no string or key too long for its length field, no empty key anywhere, and a
    serializer of its own for every node.
    */
  lemma RoundTripsExactly(v: Value)
    requires WellFormed(v) && AllCodePoints(v)
    ensures Yields(Feed(Idle, Serialize(v)), v) <==> AllShort(v) && KeysNonEmpty(v) && OwnSerializers(v)
  {
    FitParts(v);
    if Yields(Feed(Idle, Serialize(v)), v) {
      YieldsShort(Serialize(v), v);
    }
    if AllShort(v) {
      SerializedValue(v);
      CanonIdentity(v);
    }
  }

  /** A string of any size survives exactly when its UTF-8 form fits the 16-bit length. */
  lemma StringRoundTripsExactly(t: WString)
    requires CodePoints(t)
    ensures Yields(Feed(Idle, Serialize(String(t))), String(t)) <==> TextSize(t) <= 0xffff
  {
    if TextSize(t) <= 0xffff {
      SerializedText(t);
    } else {
      assert Pow256(2) == 0x10000;
      OversizedText(t, 2);
      FeedMarker(StringData(NewStr(2)), STRING_MARKER, SizedText(t));
    }
  }

  lemma {:induction false} Letters(n: nat)
    ensures var t := seq(n, _ => 0x61); CodePoints(t) && TextSize(t) == n
    decreases n
  {
    if n > 0 {
      Letters(n - 1);
      assert seq(n, _ => 0x61)[1..] == seq(n - 1, _ => 0x61);
    }
  }

  /** The shortest string of one letter that does not come back. */
  lemma TooLong(n: nat)
    requires n == 0x10000
    ensures var t := seq(n, _ => 0x61); !Yields(Feed(Idle, Serialize(String(t))), String(t))
  {
    Letters(n);
    StringRoundTripsExactly(seq(n, _ => 0x61));
  }

  /** A string parser that is fed past its announced size refuses the first byte too many. */
  lemma StringOverrun(s: Str, sized: seq<byte>, s1: Str, head: seq<byte>, tail: seq<byte>)
    requires s.size.len > 0 && s.text.utf8size == UNSET && s.text.len == 0
    requires StrFeed(s, sized) == Ok(s1) && s1.size.len == 0
    requires s1.text.len + |head| == s1.text.utf8size && tail != []
    ensures Feed(Busy(StringData(s)), sized + head + tail) == Err(Overrun)
  {
    TextBytes(s1, head);
    TextLen(s1.text, head);
    StrFeedConcat(s, sized, head);
    StringTakes(StringData(s), sized + head);
    FeedConcat(Busy(StringData(s)), sized + head, tail);
    ParsedStuck(Busy(StringData(s1.(text := TextFeed(s1.text, head)))), tail);
  }

  /** A longer string leaves bytes over: the parser is done after `TextSize(t) mod 2^16` of them. */
  lemma OversizedText(t: WString, width: nat)
    requires CodePoints(t) && width > 0 && Pow256(width) <= TextSize(t)
    ensures Feed(Busy(StringData(NewStr(width))), ToBytes(TextSize(t), width) + Encode(t)) == Err(Overrun)
  {
    var n := TextSize(t);
    var s := NewStr(width);
    var m := n % Pow256(width);
    EncodedSize(t);
    SizeField(s, n);
    var head, tail := Encode(t)[..m], Encode(t)[m..];
    StringOverrun(s, ToBytes(n, width), Str(Accumulator(0, m), s.text.(utf8size := m)), head, tail);
    Regroup(ToBytes(n, width), Encode(t), m);
  }

  lemma Regroup(a: seq<byte>, b: seq<byte>, m: nat)
    requires m <= |b|
    ensures a + b[..m] + b[m..] == a + b
  {
  }

  // ---------- the reading loop ----------

  /** The parser and the values already taken from it. */
  datatype Reader = Reader(parser: Parser, params: seq<Value>)

  function ReaderStep(r: Reader, b: byte): Result<Reader> {
    var r' := if Waits(r.parser) then Taken(r, Settled(r.parser)) else r;
    match ParserStep(r'.parser, b)
    case Err(e) => Err(e)
    case Ok(p) => Ok(if Parsed(p) then Taken(r', p) else r'.(parser := p))
  }

  /** The value is complete and taken. */
  function Taken(r: Reader, p: Parser): Reader
    requires Parsed(p)
  {
    Reader(Idle, r.params + [Get(p.data)])
  }

  function ReaderFeed(r: Reader, data: seq<byte>): Result<Reader>
    decreases |data|
  {
    if data == [] then Ok(r)
    else match ReaderStep(r, data[0])
      case Ok(r') => ReaderFeed(r', data[1..])
      case Err(e) => Err(e)
  }

  /** One `Parse` call per chunk. */
  function ReadChunks(r: Reader, chunks: seq<seq<byte>>): Result<Reader>
    decreases |chunks|
  {
    if chunks == [] then Ok(r)
    else match ReaderFeed(r, chunks[0])
      case Ok(r') => ReadChunks(r', chunks[1..])
      case Err(e) => Err(e)
  }

  function Flatten(chunks: seq<seq<byte>>): seq<byte> {
    if chunks == [] then [] else chunks[0] + Flatten(chunks[1..])
  }

  lemma {:induction false} ReaderConcat(r: Reader, a: seq<byte>, b: seq<byte>)
    ensures ReaderFeed(r, a + b) == match ReaderFeed(r, a) case Ok(r') => ReaderFeed(r', b) case Err(e) => Err(e)
    decreases |a|
  {
    if a == [] {
      assert a + b == b;
    } else {
      assert (a + b)[1..] == a[1..] + b;
      match ReaderStep(r, a[0])
      case Ok(r') => ReaderConcat(r', a[1..], b);
      case Err(_) =>
    }
  }

  lemma {:induction false} ChunksFeed(r: Reader, chunks: seq<seq<byte>>)
    ensures ReadChunks(r, chunks) == ReaderFeed(r, Flatten(chunks))
    decreases |chunks|
  {
    if chunks != [] {
      ReaderConcat(r, chunks[0], Flatten(chunks[1..]));
      match ReaderFeed(r, chunks[0])
      case Ok(r') => ChunksFeed(r', chunks[1..]);
      case Err(_) =>
    }
  }

  /**
    For every byte string, well formed or not, in which no foreign marker comes up, how it is cut into chunks does not
    matter.
    */
  lemma ChunkingIrrelevant(r: Reader, chunks: seq<seq<byte>>, chunks': seq<seq<byte>>)
    requires Flatten(chunks) == Flatten(chunks') && ReaderFeed(r, Flatten(chunks)) != Err(NotModelled)
    ensures ReadChunks(r, chunks) == ReadChunks(r, chunks') == ReaderFeed(r, Flatten(chunks))
  {
    ChunksFeed(r, chunks);
    ChunksFeed(r, chunks');
  }

  /** Where a foreign marker does come up, everything before it is read as ever. */
  lemma {:induction false} ReadUpToForeign(r: Reader, data: seq<byte>) returns (k: nat)
    requires ReaderFeed(r, data) == Err(NotModelled)
    ensures k < |data| && Foreign(data[k]) && ReaderFeed(r, data[..k]).Ok?
    decreases |data|
  {
    match ReaderStep(r, data[0])
    case Err(_) =>
      ForeignOnly(if Waits(r.parser) then Idle else r.parser, data[0]);
      k := 0;
    case Ok(r') =>
      var j := ReadUpToForeign(r', data[1..]);
      k := j + 1;
      assert data[..k][0] == data[0] && data[..k][1..] == data[1..][..j];
  }

  /** The loop body of the reader: run the parser once, then take the value if it is complete. */
  lemma {:induction false} ReaderRuns(r: Reader, data: seq<byte>)
    requires data != [] && !Parsed(r.parser)
    ensures ReaderFeed(r, data) ==
            match Run(r.parser, data)
            case Failed(e) => Err(e)
            case Stopped(p, n) =>
              ReaderFeed(if Parsed(p) then Reader(Idle, r.params + [Get(p.data)]) else r.(parser := p), data[n..])
    decreases |data|
  {
    match ParserStep(r.parser, data[0])
    case Err(_) =>
    case Ok(p) =>
      if Parsed(p) || |data| == 1 {
        assert Run(p, data[1..]) == Stopped(p, 0);
      } else {
        ReaderRuns(r.(parser := p), data[1..]);
        var o := Run(p, data[1..]);
        if o.Stopped? {
          assert data[1..][o.used..] == data[o.used + 1..];
        }
      }
  }

  function SerializeAll(vs: seq<Value>): seq<byte> {
    if vs == [] then [] else Serialize(vs[0]) + SerializeAll(vs[1..])
  }

  function CanonAll(vs: seq<Value>): (r: seq<Value>) {
    if vs == [] then [] else [Canon(vs[0])] + CanonAll(vs[1..])
  }

  ghost predicate Readable(vs: seq<Value>) {
    forall v :: v in vs ==> WellFormed(v) && AllFit(v)
  }

  lemma {:induction false} ReaderTakes(r: Reader, data: seq<byte>)
    requires !Parsed(r.parser) && Feed(r.parser, data) != Err(Overrun)
    requires Feed(r.parser, data).Ok? ==> Parsed(Feed(r.parser, data).value)
    ensures ReaderFeed(r, data) ==
            if Feed(r.parser, data).Ok?
            then Ok(Reader(Idle, r.params + [Get(Feed(r.parser, data).value.data)]))
            else Err(Feed(r.parser, data).error)
    decreases |data|
  {
    assert data != [];
    NotWaiting(r.parser, data);
    match ParserStep(r.parser, data[0])
    case Err(_) =>
    case Ok(p) =>
      if !Parsed(p) {
        ReaderTakes(r.(parser := p), data[1..]);
      } else if data[1..] != [] {
        ParsedStuck(p, data[1..]);
      }
  }

  lemma Units(a: seq<byte>, rest: seq<byte>, params: seq<Value>, b: seq<Value>)
    requires a == [] && b == []
    ensures a + rest == rest && params + b == params
  {
  }

  lemma StreamCons(vs: seq<Value>, rest: seq<byte>, params: seq<Value>)
    requires vs != []
    ensures SerializeAll(vs) + rest == Serialize(vs[0]) + (SerializeAll(vs[1..]) + rest)
    ensures params + [Canon(vs[0])] + CanonAll(vs[1..]) == params + CanonAll(vs)
    ensures forall v :: v in vs <==> v == vs[0] || v in vs[1..]
  {
    Assoc(Serialize(vs[0]), SerializeAll(vs[1..]), rest);
    Assoc(params, [Canon(vs[0])], CanonAll(vs[1..]));
    InCons(vs);
  }

  /** A stream of serialized values is read back value by value, and what follows it is read afterwards. */
  lemma {:induction false} StreamRead(r: Reader, vs: seq<Value>, rest: seq<byte>)
    requires r.parser == Idle && Readable(vs)
    ensures ReaderFeed(r, SerializeAll(vs) + rest) ==
            if forall v :: v in vs ==> KeysNonEmpty(v)
            then ReaderFeed(r.(params := r.params + CanonAll(vs)), rest)
            else Err(EndMarkerNotFound)
    decreases |vs|
  {
    if vs == [] {
      Units(SerializeAll(vs), rest, r.params, CanonAll(vs));
    } else {
      var v := vs[0];
      var tail := SerializeAll(vs[1..]) + rest;
      StreamCons(vs, rest, r.params);
      SerializedValue(v);
      ReaderTakes(r, Serialize(v));
      ReaderConcat(r, Serialize(v), tail);
      if KeysNonEmpty(v) {
        StreamRead(r.(params := r.params + [Canon(v)]), vs[1..], rest);
      }
    }
  }

  /**
    The law of the codec: serialize any values, cut the bytes anywhere, parse the pieces in turn.
    The reader holds exactly the canonical values, or has refused an empty key.
    */
  lemma StreamRoundTrip(vs: seq<Value>, chunks: seq<seq<byte>>)
    requires Readable(vs) && Flatten(chunks) == SerializeAll(vs)
    ensures ReadChunks(Reader(Idle, []), chunks) ==
            if forall v :: v in vs ==> KeysNonEmpty(v) then Ok(Reader(Idle, CanonAll(vs)))
            else Err(EndMarkerNotFound)
  {
    var r := Reader(Idle, []);
    ChunksFeed(r, chunks);
    StreamRead(r, vs, []);
    assert SerializeAll(vs) + [] == SerializeAll(vs);
    assert r.params + CanonAll(vs) == CanonAll(vs);
  }

  /** An object with an empty property name: accepted by `AddProperty`, refused when read back. */
  lemma EmptyKeyIsLost()
    ensures var v := Object([[]], [Entry([], Null)]);
            WellFormed(v) && AllFit(v) && Feed(Idle, Serialize(v)) == Err(EndMarkerNotFound)
  {
    var e := Entry([], Null);
    var v := Object([[]], [e]);
    assert HasKey(v.props, []) by { assert v.props[0].key == []; }
    assert e in v.props && !KeysNonEmpty(v);
    SerializedValue(v);
  }
}
