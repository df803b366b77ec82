/**
  The incremental parsers of mcu/src/amf.cpp as a machine that takes one byte at a time.  The classes
  in AmfClasses.dfy consume whole chunks; they are proved against this machine.
  */
module AmfMachine {
  import opened OrderedMap
  import opened AmfValue
  import opened BitStrings

  datatype Error =
    | EndMarkerNotFound
    | TypeNotSupported
    | NotModelled   // markers whose classes have no defined behaviour (see README)
    | Overrun       // a byte offered to a parser that has already finished

  datatype Result<+T> = Ok(value: T) | Err(error: Error)

  // ---------- U16Parser, U32Parser, AMFNumber: big-endian accumulators ----------

  /** `len` bytes still to come; `value` collects them from the most significant down. */
  datatype Accumulator = Accumulator(len: nat, value: nat)

  /** `value |= byte << (--len)*8`: the target bits are still zero, so the or is a sum. */
  function AccStep(a: Accumulator, b: byte): Accumulator
    requires a.len > 0
  {
    Accumulator(a.len - 1, a.value + b * Pow256(a.len - 1))
  }

  // ---------- UTF8Parser ----------

  const UNSET: nat := 0xFFFF_FFFF   // utf8size == -1

  datatype Text = Text(value: WString, utf8size: nat, bytes: nat, len: nat, w: nat)

  const NEW_TEXT := Text([], UNSET, 0, 0, 0)

  /** One turn of the loop in `UTF8Parser::Parse`, for any byte. */
  function TextStep(t: Text, c: byte): Text {
    var n := t.len + 1;
    if c <= 0x7f then
      t.(value := t.value + (if t.bytes > 0 then [DOT] else []) + [c], bytes := 0, len := n)
    else if c <= 0xbf then
      if t.bytes > 0 then
        var w := t.w * 64 + c % 64;
        t.(w := w, bytes := t.bytes - 1, value := if t.bytes == 1 then t.value + [w] else t.value, len := n)
      else t.(value := t.value + [DOT], len := n)
    else if c <= 0xdf then t.(bytes := 1, w := c % 32, len := n)
    else if c <= 0xef then t.(bytes := 2, w := c % 16, len := n)
    else if c <= 0xf7 then t.(bytes := 3, w := c % 8, len := n)
    else t.(value := t.value + [DOT], bytes := 0, len := n)
  }

  function TextFeed(t: Text, data: seq<byte>): Text
    decreases |data|
  {
    if data == [] then t else TextFeed(TextStep(t, data[0]), data[1..])
  }

  // ---------- AMFString, AMFLongString ----------

  datatype Str = Str(size: Accumulator, text: Text)

  function NewStr(width: nat): Str {
    Str(Accumulator(width, 0), NEW_TEXT)
  }

  predicate StrParsed(s: Str) {
    s.text.len == s.text.utf8size
  }

  function StrStep(s: Str, b: byte): Result<Str> {
    if s.size.len > 0 then
      var a := AccStep(s.size, b);
      Ok(Str(a, if a.len == 0 then s.text.(utf8size := a.value) else s.text))
    else if StrParsed(s) then Err(Overrun)
    else Ok(s.(text := TextStep(s.text, b)))
  }

  function StrFeed(s: Str, data: seq<byte>): Result<Str>
    decreases |data|
  {
    if data == [] then Ok(s)
    else match StrStep(s, data[0])
      case Ok(s') => StrFeed(s', data[1..])
      case Err(e) => Err(e)
  }

  // ---------- AMFParser and the AMFData subclasses ----------

  /** `AMFParser`: `object` is NULL or the value under construction. */
  datatype Parser = Idle | Busy(data: Data)

  /**
    An `AMFData` under construction.  `Container` is `AMFObject` (`ecma` false, no count to read) and
    `AMFEcmaArray` (`ecma` true, no insertion order kept).
    */
  datatype Data =
    | NumberData(acc: Accumulator)
    | BooleanData(len: nat, flag: bool)
    | StringData(str: Str)
    | XmlData(str: Str)
    | LongStringData(str: Str)
    | DateData(raw: seq<byte>, over: bool)   // over: a byte came behind the eight
    | PlainData(plain: Value)   // no payload: parsed as soon as the marker is read
    | Container(ecma: bool, num: Accumulator, key: Str, marker: bool, dict: Dict, order: seq<WString>, parser: Parser)

  /** The switch in `AMFParser::Parse`. */
  function NewData(marker: byte): Result<Data> {
    if marker == NUMBER_MARKER then Ok(NumberData(Accumulator(8, 0)))
    else if marker == BOOLEAN_MARKER then Ok(BooleanData(0, false))
    else if marker == STRING_MARKER then Ok(StringData(NewStr(2)))
    else if marker == OBJECT_MARKER then Ok(Container(false, Accumulator(0, 0), NewStr(2), false, [], [], Idle))
    else if marker == MOVIE_CLIP_MARKER then Ok(PlainData(MovieClip))
    else if marker == NULL_MARKER then Ok(PlainData(Null))
    else if marker == UNDEFINED_MARKER then Ok(PlainData(Undefined))
    else if marker == ECMA_ARRAY_MARKER then Ok(Container(true, Accumulator(4, 0), NewStr(2), false, [], [], Idle))
    else if marker == DATE_MARKER then Ok(DateData([], false))
    else if marker == LONG_STRING_MARKER then Ok(LongStringData(NewStr(4)))
    else if marker == UNSUPPORTED_MARKER then Ok(PlainData(Unsupported))
    else if marker == RECORD_SET_MARKER then Ok(PlainData(RecordSet))
    else if marker == XML_DOCUMENT_MARKER then Ok(XmlData(NewStr(2)))
    else if Foreign(marker) then Err(NotModelled)
    else Err(TypeNotSupported)
  }

  /** `IsParsed` of each class. */
  predicate DataParsed(o: Data) {
    match o
    case NumberData(acc) => acc.len == 0
    case BooleanData(len, _) => len > 0
    case StringData(s) => StrParsed(s)
    case XmlData(s) => StrParsed(s)
    case LongStringData(s) => StrParsed(s)
    case DateData(_, over) => over
    case PlainData(_) => true
    case Container(_, num, _, marker, _, _, _) => num.len == 0 && marker
  }

  predicate Parsed(p: Parser) {
    p.Busy? && DataParsed(p.data)
  }

  /** Eight bytes of a date are there: it is complete as soon as another byte comes, and does not take that byte. */
  predicate Waits(p: Parser) {
    p.Busy? && p.data.DateData? && |p.data.raw| == 8 && !p.data.over
  }

  function Settled(p: Parser): (q: Parser)
    requires Waits(p)
    ensures Parsed(q)
  {
    Busy(p.data.(over := true))
  }

  /** The value a parsed object stands for. */
  function Get(o: Data): Value {
    match o
    case NumberData(acc) => Number(acc.value)
    case BooleanData(_, flag) => Boolean(flag)
    case StringData(s) => String(s.text.value)
    case XmlData(s) => XmlDocument(s.text.value)
    case LongStringData(s) => LongString(s.text.value)
    case DateData(raw, _) => Date(raw)
    case PlainData(v) => v
    case Container(ecma, _, _, _, dict, order, _) => if ecma then EcmaArray(dict) else Object(order, dict)
  }

  /** The property just parsed goes into the map, the key starts again, the inner parser lets go. */
  function Commit(o: Data): Data
    requires o.Container? && o.parser.Busy?
  {
    var k := o.key.text.value;
    o.(dict := Insert(o.dict, k, Get(o.parser.data)),
       order := if o.ecma then o.order else o.order + [k],
       key := NewStr(2),
       parser := Idle)
  }

  function DataStep(o: Data, b: byte): Result<Data>
    decreases o, 0
  {
    if DataParsed(o) then Err(Overrun)
    else match o
      case NumberData(acc) => Ok(NumberData(AccStep(acc, b)))
      case BooleanData(_, _) => Ok(BooleanData(1, b > 0))
      case StringData(s) => (match StrStep(s, b) case Ok(s') => Ok(StringData(s')) case Err(e) => Err(e))
      case XmlData(s) => (match StrStep(s, b) case Ok(s') => Ok(XmlData(s')) case Err(e) => Err(e))
      case LongStringData(s) => (match StrStep(s, b) case Ok(s') => Ok(LongStringData(s')) case Err(e) => Err(e))
      case DateData(raw, _) => if |raw| < 8 then Ok(DateData(raw + [b], false)) else Err(Overrun)
      case PlainData(_) => Err(Overrun)
      case Container(_, num, key, _, _, _, parser) =>
        if num.len > 0 then Ok(o.(num := AccStep(num, b)))
        else if !StrParsed(key) then
          match StrStep(key, b)
          case Ok(key') => Ok(o.(key := key'))
          case Err(e) => Err(e)
        else if key.size.value == 0 then
          if b == OBJECT_END_MARKER then Ok(o.(marker := true)) else Err(EndMarkerNotFound)
        else if Waits(parser) then
          var o' := Commit(o.(parser := Settled(parser)));
          Ok(o'.(key := StrStep(o'.key, b).value))
        else
          match ParserStep(parser, b)
          case Ok(p') => var o' := o.(parser := p'); Ok(if Parsed(p') then Commit(o') else o')
          case Err(e) => Err(e)
  }

  function ParserStep(p: Parser, b: byte): Result<Parser>
    decreases p, 1
  {
    match p
    case Idle => (match NewData(b) case Ok(o) => Ok(Busy(o)) case Err(e) => Err(e))
    case Busy(o) => (match DataStep(o, b) case Ok(o') => Ok(Busy(o')) case Err(e) => Err(e))
  }

  function Feed(p: Parser, data: seq<byte>): Result<Parser>
    decreases |data|
  {
    if data == [] then Ok(p)
    else match ParserStep(p, data[0])
      case Ok(p') => Feed(p', data[1..])
      case Err(e) => Err(e)
  }

  /** The markers whose classes are not modelled: references, strict arrays, typed objects. */
  predicate Foreign(b: byte) {
    b == 0x07 || b == 0x0A || b == 0x10
  }

  lemma {:induction false} ForeignOnly(p: Parser, b: byte)
    requires ParserStep(p, b) == Err(NotModelled)
    ensures Foreign(b)
    decreases p
  {
    if p.Busy? && p.data.Container? && p.data.num.len == 0 && StrParsed(p.data.key) && p.data.key.size.value != 0 {
      ForeignOnly(p.data.parser, b);
    }
  }

  // ---------- feeding is a fold ----------

  lemma {:induction false} FeedConcat(p: Parser, a: seq<byte>, b: seq<byte>)
    ensures Feed(p, a + b) == match Feed(p, a) case Ok(p') => Feed(p', b) case Err(e) => Err(e)
    decreases |a|
  {
    if a == [] {
      assert a + b == b;
    } else {
      assert (a + b)[1..] == a[1..] + b;
      match ParserStep(p, a[0])
      case Ok(p') => FeedConcat(p', a[1..], b);
      case Err(_) =>
    }
  }

  /** As long as no foreign marker comes up, a parser does not see where its input was cut. */
  lemma CutAnywhere(p: Parser, a: seq<byte>, b: seq<byte>)
    requires Feed(p, a + b) != Err(NotModelled)
    ensures Feed(p, a) != Err(NotModelled)
    ensures Feed(p, a + b) == match Feed(p, a) case Ok(p') => Feed(p', b) case Err(e) => Err(e)
  {
    FeedConcat(p, a, b);
  }

  lemma {:induction false} StrFeedConcat(s: Str, a: seq<byte>, b: seq<byte>)
    ensures StrFeed(s, a + b) == match StrFeed(s, a) case Ok(s') => StrFeed(s', b) case Err(e) => Err(e)
    decreases |a|
  {
    if a == [] {
      assert a + b == b;
    } else {
      assert (a + b)[1..] == a[1..] + b;
      match StrStep(s, a[0])
      case Ok(s') => StrFeedConcat(s', a[1..], b);
      case Err(_) =>
    }
  }

  lemma {:induction false} TextFeedConcat(t: Text, a: seq<byte>, b: seq<byte>)
    ensures TextFeed(t, a + b) == TextFeed(TextFeed(t, a), b)
    decreases |a|
  {
    if a == [] {
      assert a + b == b;
    } else {
      assert (a + b)[1..] == a[1..] + b;
      TextFeedConcat(TextStep(t, a[0]), a[1..], b);
    }
  }

  // ---------- a container hands its bytes to the part that is waiting for them ----------

  ghost predicate ReadingKey(o: Data) {
    o.Container? && o.num.len == 0 && !o.marker
  }

  /** Bytes that the key accepts go to the key. */
  lemma {:induction false} KeyTakes(o: Data, data: seq<byte>)
    requires ReadingKey(o) && StrFeed(o.key, data).Ok?
    requires data != [] ==> !StrParsed(o.key)
    requires o.key.size.len > 0 ==> o.key.text.utf8size == UNSET && o.key.text.len == 0
    ensures Feed(Busy(o), data) == Ok(Busy(o.(key := StrFeed(o.key, data).value)))
    decreases |data|
  {
    if data != [] {
      var key' := StrStep(o.key, data[0]).value;
      if data[1..] != [] {
        assert StrStep(key', data[1..][0]).Ok?;
      }
      assert DataStep(o, data[0]) == Ok(o.(key := key'));
      assert ParserStep(Busy(o), data[0]) == Ok(Busy(o.(key := key')));
      KeyTakes(o.(key := key'), data[1..]);
    }
  }

  ghost predicate ReadingValue(o: Data) {
    ReadingKey(o) && StrParsed(o.key) && o.key.size.value != 0
  }

  /** A complete date takes no more bytes. */
  lemma WaitsRefuses(p: Parser, data: seq<byte>)
    requires Waits(p) && data != []
    ensures Feed(p, data) == Err(Overrun)
  {
    assert DataStep(p.data, data[0]) == Err(Overrun);
  }

  /** Bytes that complete the inner value commit it; bytes the inner parser refuses fail the container. */
  lemma {:induction false} ValueTakes(o: Data, data: seq<byte>)
    requires ReadingValue(o) && !Parsed(o.parser)
    requires Feed(o.parser, data) != Err(Overrun)
    requires Feed(o.parser, data).Ok? ==> Parsed(Feed(o.parser, data).value)
    ensures Feed(Busy(o), data) ==
            match Feed(o.parser, data)
            case Ok(p') => Ok(Busy(Commit(o.(parser := p'))))
            case Err(e) => Err(e)
    decreases |data|
  {
    assert data != [];
    if Waits(o.parser) {
      WaitsRefuses(o.parser, data);
    }
    match ParserStep(o.parser, data[0])
    case Err(e) =>
      assert DataStep(o, data[0]) == Err(e);
    case Ok(p1) =>
      var o1 := o.(parser := p1);
      assert DataStep(o, data[0]) == Ok(if Parsed(p1) then Commit(o1) else o1);
      if !Parsed(p1) {
        assert ParserStep(Busy(o), data[0]) == Ok(Busy(o1));
        ValueTakes(o.(parser := p1), data[1..]);
      } else if data[1..] != [] {
        ParsedStuck(p1, data[1..]);
      }
  }

  lemma ParsedStuck(p: Parser, data: seq<byte>)
    requires Parsed(p) && data != []
    ensures Feed(p, data) == Err(Overrun)
  {
    assert DataStep(p.data, data[0]) == Err(Overrun);
  }
}
