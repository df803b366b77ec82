/**
  The parser objects of mcu/src/amf.cpp, updated in place.  Every `Parse` consumes a chunk; its contract
  says that it does what the byte machine of AmfMachine.dfy does.
  */
module AmfClasses {
  import opened OrderedMap
  import opened AmfValue
  import opened BitStrings
  import opened AmfMachine
  import opened AmfRoundTrip
  import opened AmfStream
  import opened AmfWriter
  import opened Buffers
  import opened Sequences
  import opened Wrappers

  function Min(a: nat, b: nat): nat {
    if a <= b then a else b
  }

  // ---------- the machine seen from a loop: consume a prefix, then continue ----------

  function Shift(o: Outcome, n: nat): Outcome {
    match o
    case Stopped(p, m) => Stopped(p, n + m)
    case Failed(e) => Failed(e)
  }

  lemma {:induction false} FeedRun(p: Parser, data: seq<byte>)
    requires Feed(p, data).Ok?
    ensures Run(p, data) == Stopped(Feed(p, data).value, |data|)
    decreases |data|
  {
    if data != [] {
      if Parsed(p) {
        ParsedStuck(p, data);
      }
      NotWaiting(p, data);
      FeedRun(ParserStep(p, data[0]).value, data[1..]);
    }
  }

  lemma RunSkips(p: Parser, data: seq<byte>, n: nat)
    requires n <= |data| && Feed(p, data[..n]).Ok?
    ensures Run(p, data) == Shift(Run(Feed(p, data[..n]).value, data[n..]), n)
  {
    FeedRun(p, data[..n]);
    RunResumes(p, data[..n], data[n..]);
    assert data[..n] + data[n..] == data;
  }

  lemma {:induction false} RunValue(o: Data, data: seq<byte>)
    requires ReadingValue(o) && !Parsed(o.parser) && data != []
    ensures Run(Busy(o), data) ==
            match Run(o.parser, data)
            case Failed(e) => Failed(e)
            case Stopped(p, n) =>
              if Parsed(p) then Shift(Run(Busy(Commit(o.(parser := p))), data[n..]), n)
              else Stopped(Busy(o.(parser := p)), n)
    decreases |data|
  {
    if Waits(o.parser) {
      RunSettled(o, data);
      return;
    }
    match ParserStep(o.parser, data[0])
    case Err(e) =>
      assert DataStep(o, data[0]) == Err(e);
    case Ok(p) =>
      var o1 := o.(parser := p);
      assert DataStep(o, data[0]) == Ok(if Parsed(p) then Commit(o1) else o1);
      if Parsed(p) {
        assert Run(p, data[1..]) == Stopped(p, 0);
        assert data[1..][0..] == data[1..];
      } else if data[1..] == [] {
        assert ParserStep(Busy(o), data[0]) == Ok(Busy(o1));
      } else {
        assert ParserStep(Busy(o), data[0]) == Ok(Busy(o1));
        RunValue(o1, data[1..]);
        var r := Run(p, data[1..]);
        if r.Stopped? {
          assert data[1..][r.used..] == data[r.used + 1..];
        }
      }
  }

  /** A date that waits is committed, and the byte behind it begins the next key. */
  lemma RunSettled(o: Data, data: seq<byte>)
    requires ReadingValue(o) && Waits(o.parser) && data != []
    ensures Run(o.parser, data) == Stopped(Settled(o.parser), 0)
    ensures Run(Busy(o), data) == Shift(Run(Busy(Commit(o.(parser := Settled(o.parser)))), data[0..]), 0)
  {
    var o' := Commit(o.(parser := Settled(o.parser)));
    assert DataStep(o', data[0]) == DataStep(o, data[0]);
    assert ParserStep(Busy(o'), data[0]) == ParserStep(Busy(o), data[0]);
    assert data[0..] == data;
  }

  /** A call that takes nothing has completed a date. */
  lemma RunProgress(p: Parser, data: seq<byte>)
    requires data != [] && !Parsed(p)
    ensures var r := Run(p, data); r.Stopped? && r.used == 0 ==> Waits(p) && r.parser == Settled(p)
  {
  }

  // ---------- U16Parser, U32Parser and the value of AMFNumber ----------

  /** `width` is 2, 4 or 8; the three classes share this loop. */
  class UIntParser {
    const width: nat
    var value: nat
    var len: nat

    ghost function State(): Accumulator
      reads this
    {
      Accumulator(len, value)
    }

    constructor (width: nat)
      ensures this.width == width && State() == Accumulator(width, 0)
    {
      this.width := width;
      value, len := 0, width;
    }

    method Reset()
      modifies this
      ensures State() == Accumulator(width, 0)
    {
      len := width;
      value := 0;
    }

    method Parse(data: seq<byte>) returns (i: nat)
      modifies this
      ensures i == Min(old(len), |data|) && len == old(len) - i
      ensures State() == AccFeed(old(State()), data[..i])
    {
      i := 0;
      while len > 0 && i < |data|
        invariant i <= |data| && i <= old(len) && len == old(len) - i
        invariant State() == AccFeed(old(State()), data[..i])
      {
        AccFeedLast(old(State()), data[..i], data[i]);
        assert data[..i] + [data[i]] == data[..i + 1];
        len := len - 1;
        value := value + data[i] * Pow256(len);
        i := i + 1;
      }
    }
  }

  lemma {:induction false} AccFeedLast(a: Accumulator, data: seq<byte>, b: byte)
    requires |data| < a.len
    ensures AccFeed(a, data).len == a.len - |data|
    ensures AccFeed(a, data + [b]) == AccStep(AccFeed(a, data), b)
    decreases |data|
  {
    if data == [] {
      assert AccFeed(AccStep(a, b), []) == AccStep(a, b);
      assert (data + [b])[1..] == [];
    } else {
      assert (data + [b])[1..] == data[1..] + [b];
      AccFeedLast(AccStep(a, data[0]), data[1..], b);
    }
  }

  // ---------- UTF8Parser ----------

  class UTF8Parser {
    var value: WString
    var utf8size: nat
    var bytes: nat
    var len: nat
    var w: nat

    ghost function State(): Text
      reads this
    {
      Text(value, utf8size, bytes, len, w)
    }

    constructor ()
      ensures State() == NEW_TEXT
    {
      value, utf8size, bytes, len, w := [], UNSET, 0, 0, 0;
    }

    method Reset()
      modifies this
      ensures State() == NEW_TEXT
    {
      value := [];
      len := 0;
      utf8size := UNSET;
      bytes := 0;
      w := 0;
    }

    method SetSize(size: nat)
      modifies this
      ensures State() == old(State()).(utf8size := size)
    {
      utf8size := size;
    }

    method Parse(buffer: seq<byte>) returns (copy: nat)
      requires len <= utf8size
      modifies this
      ensures copy == Min(old(utf8size - len), |buffer|)
      ensures State() == TextFeed(old(State()), buffer[..copy])
    {
      copy := utf8size - len;
      if copy > |buffer| {
        copy := |buffer|;
      }
      for i := 0 to copy
        invariant utf8size == old(utf8size) && len == old(len)
        invariant State().(len := len + i) == TextFeed(old(State()), buffer[..i])
      {
        var c := buffer[i];
        TextFeedConcat(old(State()), buffer[..i], [c]);
        assert TextFeed(State().(len := len + i), [c]) == TextStep(State().(len := len + i), c);
        assert buffer[..i] + [c] == buffer[..i + 1];
        if c <= 0x7f {
          if bytes > 0 {
            value := value + [DOT];
            bytes := 0;
          }
          value := value + [c];
        } else if c <= 0xbf {
          if bytes > 0 {
            w := w * 64 + c % 64;
            bytes := bytes - 1;
            if bytes == 0 {
              value := value + [w];
            }
          } else {
            value := value + [DOT];
          }
        } else if c <= 0xdf {
          bytes := 1;
          w := c % 32;
        } else if c <= 0xef {
          bytes := 2;
          w := c % 16;
        } else if c <= 0xf7 {
          bytes := 3;
          w := c % 8;
        } else {
          value := value + [DOT];
          bytes := 0;
        }
      }
      len := len + copy;
    }

    method SetWString(str: WString)
      modifies this
      ensures value == str && utf8size == TextSize(str)
      ensures bytes == old(bytes) && len == old(len) && w == old(w)
    {
      value := str;
      utf8size := 0;
      for i := 0 to |str|
        invariant value == str && bytes == old(bytes) && len == old(len) && w == old(w)
        invariant utf8size + TextSize(str[i..]) == TextSize(str)
      {
        var c := str[i];
        assert str[i..][1..] == str[i + 1..];
        if c <= 0x7f {
          utf8size := utf8size + 1;
        } else if c <= 0x7ff {
          utf8size := utf8size + 2;
        } else if c <= 0xffff {
          utf8size := utf8size + 3;
        } else {
          utf8size := utf8size + 4;
        }
      }
    }
  }

  // ---------- AMFString, AMFLongString ----------

  /** A string parser is either collecting its size or has a size and at most that many bytes. */
  ghost predicate Sane(s: Str) {
    if s.size.len > 0 then s.text.utf8size == UNSET && s.text.len == 0 && s.text.bytes == 0
    else s.text.len <= s.text.utf8size
  }

  lemma {:induction false} SizeBytes(s: Str, data: seq<byte>)
    requires Sane(s) && |data| <= s.size.len
    ensures var a := AccFeed(s.size, data);
            && a.len == s.size.len - |data|
            && StrFeed(s, data) == Ok(Str(a, if a.len == 0 && data != [] then s.text.(utf8size := a.value) else s.text))
    decreases |data|
  {
    if data != [] {
      var s' := StrStep(s, data[0]).value;
      if data[1..] != [] {
        SizeBytes(s', data[1..]);
      }
    }
  }

  class AmfString {
    const utf8parser: UTF8Parser
    const size: UIntParser   // u16parser, or u32parser for a long string

    ghost function State(): Str
      reads this, utf8parser, size
    {
      Str(size.State(), utf8parser.State())
    }

    constructor (width: nat)
      requires width > 0
      ensures State() == NewStr(width) && size.width == width
      ensures fresh(utf8parser) && fresh(size)
    {
      var t := new UTF8Parser();
      var n := new UIntParser(width);
      utf8parser, size := t, n;
    }

    method Reset()
      modifies utf8parser, size
      ensures State() == NewStr(size.width)
    {
      size.Reset();
      utf8parser.Reset();
    }

    method Parse(data: seq<byte>) returns (n: nat)
      requires Sane(State())
      modifies utf8parser, size
      ensures n <= |data| && Sane(State())
      ensures StrFeed(old(State()), data[..n]) == Ok(State())
      ensures n < |data| ==> StrParsed(State())
      ensures data != [] && !StrParsed(old(State())) ==> n > 0
    {
      ghost var s0 := State();
      var buffer := data;
      if size.len > 0 {
        var copy := size.Parse(buffer);
        SizeBytes(s0, data[..copy]);
        buffer := buffer[copy..];
        if size.len == 0 {
          utf8parser.SetSize(size.value);
        }
      }
      ghost var used := |data| - |buffer|;
      ghost var s1 := State();
      assert StrFeed(s0, data[..used]) == Ok(s1);
      assert buffer == data[used..];
      if buffer != [] {
        var copy := utf8parser.Parse(buffer);
        TextBytes(s1, buffer[..copy]);
        TextLen(s1.text, buffer[..copy]);
        StrFeedConcat(s0, data[..used], buffer[..copy]);
        SliceJoin(data, used, copy);
        buffer := buffer[copy..];
      }
      n := |data| - |buffer|;
    }

    /** `utf8parser` holds the text; the size field follows from it, cut to its width. */
    method SetWString(str: WString)
      modifies utf8parser, size
      ensures utf8parser.value == str && utf8parser.utf8size == TextSize(str)
      ensures size.value == TextSize(str) % Pow256(size.width) && size.len == old(size.len)
    {
      utf8parser.SetWString(str);
      size.value := utf8parser.utf8size % Pow256(size.width);
    }

    /** `AMFString::Serialize`: both sizes are the stored ones, whatever the text.  -1 if the buffer is too small. */
    method Serialize(data: array<byte>, pos: nat, room: nat) returns (n: int)
      requires size.width == 2 && |Encode(utf8parser.value)| <= utf8parser.utf8size < UNSET - 2
      requires pos + room <= data.Length
      modifies data
      ensures room < utf8parser.utf8size + 3 ==> n == -1 && data[..] == old(data[..])
      ensures room >= utf8parser.utf8size + 3 ==>
                && n == 3 + |Encode(utf8parser.value)|
                && Placed(old(data[..]), data[..], pos,
                          [STRING_MARKER] + AnnouncedText(utf8parser.value, size.value))
    {
      if room < utf8parser.utf8size + 3 {
        return -1;
      }
      SetByte(data, pos, STRING_MARKER);
      ghost var before := data[..];
      n := WriteAnnounced(data, pos + 1, utf8parser.value, size.value, utf8parser.utf8size);
      PlacedNext(old(data[..]), before, data[..], pos, [STRING_MARKER],
                 AnnouncedText(utf8parser.value, size.value));
      n := n + 1;
    }
  }

  // ---------- AMFBoolean, AMFDate ----------

  class AmfBoolean {
    var value: bool
    var len: nat

    ghost function State(): Data
      reads this
    {
      BooleanData(len, value)
    }

    constructor ()
      ensures State() == BooleanData(0, false)
    {
      value, len := false, 0;
    }

    method Parse(data: seq<byte>) returns (r: Result<nat>)
      modifies this
      ensures data == [] ==> r == Ok(0) && State() == old(State())
      ensures data != [] && old(len) > 0 ==> r == Err(Overrun)
      ensures data != [] && old(len) == 0 ==> r == Ok(1) && State() == BooleanData(1, data[0] > 0)
    {
      if data == [] {
        return Ok(0);
      }
      if len > 0 {
        return Err(Overrun);
      }
      value := data[0] > 0;
      len := 1;
      r := Ok(1);
    }
  }

  class AmfDate {
    var raw: seq<byte>   // the eight bytes of `value`, as far as they have come
    var len: nat

    ghost predicate Valid()
      reads this
    {
      if len < 8 then |raw| == len else |raw| == 8 && (len == 8 || len == 10)
    }

    ghost function State(): Data
      reads this
    {
      DateData(raw, len == 10)
    }

    constructor ()
      ensures Valid() && State() == DateData([], false)
    {
      raw, len := [], 0;
    }

    /** The second loop counts to ten as soon as there is another byte, without taking it. */
    method Parse(data: seq<byte>) returns (i: nat)
      requires Valid() && !DataParsed(State())
      modifies this
      ensures Valid() && i <= |data| && Run(Busy(old(State())), data) == Stopped(Busy(State()), i)
    {
      ghost var o := State();
      i := 0;
      while len < 8 && i < |data|
        invariant Valid() && len <= 8 && i <= |data|
        invariant Feed(Busy(o), data[..i]) == Ok(Busy(State()))
      {
        FeedLast(Busy(o), data, i);
        assert DataStep(State(), data[i]) == Ok(DateData(raw + [data[i]], false));
        raw := raw + [data[i]];
        len := len + 1;
        i := i + 1;
      }
      RunSkips(Busy(o), data, i);
      ghost var r0, l0 := raw, len;
      while len < 10 && i < |data|
        invariant l0 <= len <= 10 && raw == r0 && (i == |data| ==> len == l0)
        decreases 10 - len
      {
        len := len + 1;
      }
    }
  }

  lemma FeedLast(p: Parser, data: seq<byte>, i: nat)
    requires i < |data| && Feed(p, data[..i]).Ok?
    ensures Feed(p, data[..i + 1]) == ParserStep(Feed(p, data[..i]).value, data[i])
  {
    FeedConcat(p, data[..i], [data[i]]);
    assert data[..i] + [data[i]] == data[..i + 1];
    var q := Feed(p, data[..i]).value;
    assert [data[i]][1..] == [];
    assert Feed(q, [data[i]]) == ParserStep(q, data[i]);
  }

  // ---------- AMFData, AMFParser, AMFObject and AMFEcmaArray ----------

  /** An `AMFData*`: the constructor is the dynamic class. */
  datatype DataRef =
    | NumberRef(n: UIntParser)
    | BooleanRef(b: AmfBoolean)
    | StringRef(s: AmfString)
    | XmlRef(s: AmfString)
    | LongStringRef(s: AmfString)
    | DateRef(d: AmfDate)
    | PlainRef(v: Value)
    | ContainerRef(c: AmfContainer)

  /** The object behind `ref` lies in `foot` and is in abstract state `o`. */
  ghost predicate Holds(ref: DataRef, o: Data, foot: set<object>)
    reads foot
    decreases foot, 1
  {
    match ref
    case NumberRef(n) => n in foot && o == NumberData(n.State())
    case BooleanRef(b) => b in foot && o == b.State()
    case StringRef(s) => HoldsStr(s, foot) && o == StringData(s.State())
    case XmlRef(s) => HoldsStr(s, foot) && o == XmlData(s.State())
    case LongStringRef(s) => HoldsStr(s, foot) && o == LongStringData(s.State())
    case DateRef(d) => d in foot && d.Valid() && o == d.State()
    case PlainRef(v) => o == PlainData(v)
    case ContainerRef(c) => c in foot && c.Repr <= foot && c.Valid() && o == c.state
  }

  ghost predicate HoldsStr(s: AmfString, foot: set<object>)
    reads foot
  {
    s in foot && s.utf8parser in foot && s.size in foot && Sane(s.State())
  }

  class AmfParser {
    var data: Option<DataRef>
    ghost var state: Parser
    ghost var Repr: set<object>

    ghost predicate Valid()
      reads this, Repr
      decreases Repr, 0
    {
      && this in Repr
      && match data
         case None => state == Idle
         case Some(ref) => state.Busy? && Holds(ref, state.data, Repr - {this})
    }

    constructor ()
      ensures Valid() && state == Idle && Repr == {this}
    {
      data := None;
      state := Idle;
      Repr := {this};
    }

    /** `object` is handed over; the parser starts again. */
    method GetObject() returns (v: Value)
      requires Valid() && Parsed(state)
      modifies this
      ensures Valid() && state == Idle && Repr == old(Repr)
      ensures v == Get(old(state).data)
    {
      v := ValueOf(data.value, state.data, Repr - {this});
      data := None;
      state := Idle;
    }

    method IsParsed() returns (b: bool)
      requires Valid()
      ensures b == Parsed(state)
    {
      match data
      case None => b := false;
      case Some(ref) => b := RefParsed(ref, state.data, Repr - {this});
    }

    method Parse(bytes: seq<byte>) returns (r: Result<nat>)
      requires Valid() && bytes != [] && !Parsed(state)
      modifies Repr
      ensures r.Ok? ==> Valid() && fresh(Repr - old(Repr)) && (r.value == 0 ==> Repr == old(Repr))
      ensures Run(old(state), bytes) == if r.Ok? then Stopped(state, r.value) else Failed(r.error)
      decreases |bytes|, Repr, 1
    {
      ghost var s0 := state;
      if data.None? {
        ghost var foot;
        var created;
        created, foot := NewRef(bytes[0]);
        if created.Err? {
          return Err(created.error);
        }
        data := Some(created.value);
        Repr := Repr + foot;
        state := Busy(NewData(bytes[0]).value);
        var rest := ParseRef(bytes[1..]);
        if rest.Err? {
          return rest;
        }
        r := Ok(rest.value + 1);
      } else {
        r := ParseRef(bytes);
      }
    }

    /** The virtual call `object->Parse(data,size)`. */
    method ParseRef(bytes: seq<byte>) returns (r: Result<nat>)
      requires Valid() && data.Some?
      requires Parsed(state) ==> data.value.PlainRef?
      modifies Repr
      ensures r.Ok? ==> Valid() && fresh(Repr - old(Repr)) && (r.value == 0 ==> Repr == old(Repr))
      ensures Run(old(state), bytes) == if r.Ok? then Stopped(state, r.value) else Failed(r.error)
      decreases |bytes|, Repr, 0
    {
      match data.value
      case NumberRef(n) =>
        var i := n.Parse(bytes);
        NumberTakes(old(state).data.acc, bytes[..i]);
        state := Busy(NumberData(n.State()));
        RunPrefix(old(state), bytes, i, state);
        r := Ok(i);
      case BooleanRef(b) =>
        r := b.Parse(bytes);
        state := Busy(b.State());
        BooleanRun(old(state).data, bytes);
      case StringRef(s) =>
        var i := ParseText(s, bytes);
        r := Ok(i);
      case XmlRef(s) =>
        var i := ParseText(s, bytes);
        r := Ok(i);
      case LongStringRef(s) =>
        var i := ParseText(s, bytes);
        r := Ok(i);
      case DateRef(d) =>
        var i := d.Parse(bytes);
        state := Busy(d.State());
        r := Ok(i);
      case PlainRef(v) =>
        r := Ok(0);
      case ContainerRef(c) =>
        r := c.Parse(bytes);
        if r.Ok? {
          Repr := Repr + c.Repr;
        }
        state := Busy(c.state);
    }

    method ParseText(s: AmfString, bytes: seq<byte>) returns (i: nat)
      requires Valid() && data.Some? && TextData(state.data) && !Parsed(state)
      requires data.value.StringRef? || data.value.XmlRef? || data.value.LongStringRef?
      requires data.value.s == s
      modifies Repr
      ensures Valid() && Repr == old(Repr) && data == old(data)
      ensures Run(old(state), bytes) == Stopped(state, i)
    {
      i := s.Parse(bytes);
      StringTakes(old(state).data, bytes[..i]);
      state := Busy(state.data.(str := s.State()));
      RunPrefix(old(state), bytes, i, state);
    }
  }

  lemma RunPrefix(p: Parser, bytes: seq<byte>, i: nat, q: Parser)
    requires i <= |bytes| && Feed(p, bytes[..i]) == Ok(q)
    requires i < |bytes| ==> Parsed(q)
    ensures Run(p, bytes) == Stopped(q, i)
  {
    RunSkips(p, bytes, i);
  }

  lemma BooleanRun(o: Data, bytes: seq<byte>)
    requires o.BooleanData? && o.len == 0
    ensures Run(Busy(o), bytes) ==
            if bytes == [] then Stopped(Busy(o), 0) else Stopped(Busy(BooleanData(1, bytes[0] > 0)), 1)
  {
    if bytes != [] {
      var q := BooleanData(1, bytes[0] > 0);
      assert DataStep(o, bytes[0]) == Ok(q);
      assert ParserStep(Busy(o), bytes[0]) == Ok(Busy(q));
      assert Run(Busy(q), bytes[1..]) == Stopped(Busy(q), 0);
    }
  }

  /** The switch on the type marker: a new object of the class, and the objects it is made of. */
  method NewRef(marker: byte) returns (r: Result<DataRef>, ghost foot: set<object>)
    ensures NewData(marker).Err? ==> r == Err(NewData(marker).error)
    ensures NewData(marker).Ok? ==> r.Ok? && fresh(foot) && Holds(r.value, NewData(marker).value, foot)
    ensures NewData(marker).Ok? && DataParsed(NewData(marker).value) ==> r.value.PlainRef?
  {
    if marker == NUMBER_MARKER {
      var n := new UIntParser(8);
      return Ok(NumberRef(n)), {n};
    } else if marker == BOOLEAN_MARKER {
      var b := new AmfBoolean();
      return Ok(BooleanRef(b)), {b};
    } else if marker == STRING_MARKER {
      var s := new AmfString(2);
      return Ok(StringRef(s)), {s, s.utf8parser, s.size};
    } else if marker == OBJECT_MARKER {
      var c := new AmfContainer(false);
      return Ok(ContainerRef(c)), c.Repr;
    } else if marker == ECMA_ARRAY_MARKER {
      var c := new AmfContainer(true);
      return Ok(ContainerRef(c)), c.Repr;
    } else if marker == DATE_MARKER {
      var d := new AmfDate();
      return Ok(DateRef(d)), {d};
    } else if marker == LONG_STRING_MARKER {
      var s := new AmfString(4);
      return Ok(LongStringRef(s)), {s, s.utf8parser, s.size};
    } else if marker == XML_DOCUMENT_MARKER {
      var s := new AmfString(2);
      return Ok(XmlRef(s)), {s, s.utf8parser, s.size};
    } else if marker == MOVIE_CLIP_MARKER {
      return Ok(PlainRef(MovieClip)), {};
    } else if marker == NULL_MARKER {
      return Ok(PlainRef(Null)), {};
    } else if marker == UNDEFINED_MARKER {
      return Ok(PlainRef(Undefined)), {};
    } else if marker == UNSUPPORTED_MARKER {
      return Ok(PlainRef(Unsupported)), {};
    } else if marker == RECORD_SET_MARKER {
      return Ok(PlainRef(RecordSet)), {};
    } else if marker == 0x07 || marker == 0x0A || marker == 0x10 {
      return Err(NotModelled), {};
    } else {
      return Err(TypeNotSupported), {};
    }
  }

  /** The virtual call `object->IsParsed()`. */
  method RefParsed(ref: DataRef, ghost o: Data, ghost foot: set<object>) returns (b: bool)
    requires Holds(ref, o, foot)
    ensures b == DataParsed(o)
  {
    match ref
    case NumberRef(n) => b := n.len == 0;
    case BooleanRef(x) => b := x.len > 0;
    case StringRef(s) => b := s.utf8parser.len == s.utf8parser.utf8size;
    case XmlRef(s) => b := s.utf8parser.len == s.utf8parser.utf8size;
    case LongStringRef(s) => b := s.utf8parser.len == s.utf8parser.utf8size;
    case DateRef(d) => b := d.len == 10;
    case PlainRef(_) => b := true;
    case ContainerRef(c) => b := c.num.len == 0 && c.marker;
  }

  /** The tree an `AMFData` object stands for. */
  method ValueOf(ref: DataRef, ghost o: Data, ghost foot: set<object>) returns (v: Value)
    requires Holds(ref, o, foot)
    ensures v == Get(o)
  {
    match ref
    case NumberRef(n) => v := Number(n.value);
    case BooleanRef(x) => v := Boolean(x.value);
    case StringRef(s) => v := String(s.utf8parser.value);
    case XmlRef(s) => v := XmlDocument(s.utf8parser.value);
    case LongStringRef(s) => v := LongString(s.utf8parser.value);
    case DateRef(d) => v := Date(d.raw);
    case PlainRef(w) => v := w;
    case ContainerRef(c) =>
      v := if c.ecma then EcmaArray(c.properties) else Object(c.propertiesOrder, c.properties);
  }

  /** `AMFObject` (`ecma` false) and `AMFEcmaArray` (`ecma` true, with an element count to read first). */
  class AmfContainer {
    const ecma: bool
    const num: UIntParser
    const key: AmfString
    const parser: AmfParser
    var marker: bool
    var properties: Dict
    var propertiesOrder: seq<WString>
    ghost var state: Data
    ghost var Repr: set<object>

    ghost function Own(): set<object> {
      {this, num, key, key.utf8parser, key.size}
    }

    ghost predicate Valid()
      reads this, Repr
      decreases Repr, 0
    {
      && Own() <= Repr && num != key.size && key.size.width == 2
      && parser in Repr && parser.Repr <= Repr && Own() !! parser.Repr
      && parser.Valid() && !Parsed(parser.state)
      && Sane(key.State())
      && (marker ==> num.len == 0)
      && state == Container(ecma, num.State(), key.State(), marker, properties, propertiesOrder, parser.state)
    }

    constructor (ecma: bool)
      ensures Valid() && fresh(Repr)
      ensures state == Container(ecma, Accumulator(if ecma then 4 else 0, 0), NewStr(2), false, [], [], Idle)
    {
      this.ecma := ecma;
      var n := new UIntParser(if ecma then 4 else 0);
      var k := new AmfString(2);
      var p := new AmfParser();
      num, key, parser := n, k, p;
      marker, properties, propertiesOrder := false, [], [];
      state := Container(ecma, Accumulator(if ecma then 4 else 0, 0), NewStr(2), false, [], [], Idle);
      Repr := {this, n, k, k.utf8parser, k.size} + p.Repr;
    }

    method Parse(data: seq<byte>) returns (r: Result<nat>)
      requires Valid() && !DataParsed(state)
      modifies Repr
      ensures r.Ok? ==> Valid() && fresh(Repr - old(Repr)) && (r.value == 0 ==> Repr == old(Repr))
      ensures Run(Busy(old(state)), data) == if r.Ok? then Stopped(Busy(state), r.value) else Failed(r.error)
      decreases |data|, Repr, 2
    {
      var buffer := data;
      ghost var used := 0;
      while buffer != []
        invariant Valid() && fresh(Repr - old(Repr)) && !DataParsed(state)
        invariant used + |buffer| == |data| && buffer == data[used..]
        invariant Run(Busy(old(state)), data) == Shift(Run(Busy(state), buffer), used)
        invariant used == 0 ==> Repr == old(Repr)
        decreases |buffer|, if Waits(parser.state) then 1 else 0
      {
        var step := Take(buffer);
        if step.Err? {
          return Err(step.error);
        }
        buffer := buffer[step.value..];
        used := used + step.value;
        if marker {
          break;
        }
      }
      r := Ok(|data| - |buffer|);
    }

    /** One turn of the loop: count, key, end marker or value. */
    method Take(buffer: seq<byte>) returns (r: Result<nat>)
      requires Valid() && buffer != [] && !DataParsed(state)
      modifies Repr
      ensures r.Ok? ==> Valid() && fresh(Repr - old(Repr)) && r.value <= |buffer|
      ensures r.Ok? && r.value == 0 ==> Repr == old(Repr) && old(Waits(parser.state)) && !Waits(parser.state)
      ensures r.Ok? ==> (marker <==> DataParsed(state))
      ensures Run(Busy(old(state)), buffer) ==
              if r.Ok? then Shift(Run(Busy(state), buffer[r.value..]), r.value) else Failed(r.error)
      decreases |buffer|, Repr, 1
    {
      if num.len > 0 {
        r := TakeCount(buffer);
      } else if !(key.utf8parser.len == key.utf8parser.utf8size) {
        r := TakeKey(buffer);
      } else if key.size.value == 0 {
        r := TakeEnd(buffer);
      } else {
        r := TakeValue(buffer);
      }
    }

    method TakeCount(buffer: seq<byte>) returns (r: Result<nat>)
      requires Valid() && buffer != [] && num.len > 0 && !marker
      modifies num, this
      ensures Valid() && Repr == old(Repr) && !marker
      ensures r.Ok? && 0 < r.value <= |buffer|
      ensures Run(Busy(old(state)), buffer) == Shift(Run(Busy(state), buffer[r.value..]), r.value)
    {
      var copy := num.Parse(buffer);
      CountTakes(state, buffer[..copy]);
      state := state.(num := num.State());
      RunSkips(Busy(old(state)), buffer, copy);
      r := Ok(copy);
    }

    method TakeKey(buffer: seq<byte>) returns (r: Result<nat>)
      requires Valid() && buffer != [] && num.len == 0 && !marker && !StrParsed(key.State())
      modifies key.utf8parser, key.size, this
      ensures Valid() && Repr == old(Repr) && !marker
      ensures r.Ok? && 0 < r.value <= |buffer|
      ensures Run(Busy(old(state)), buffer) == Shift(Run(Busy(state), buffer[r.value..]), r.value)
    {
      var copy := key.Parse(buffer);
      KeyTakes(state, buffer[..copy]);
      state := state.(key := key.State());
      RunSkips(Busy(old(state)), buffer, copy);
      r := Ok(copy);
    }

    method TakeEnd(buffer: seq<byte>) returns (r: Result<nat>)
      requires Valid() && buffer != [] && num.len == 0 && !marker && StrParsed(key.State()) && key.size.value == 0
      modifies this
      ensures r.Ok? ==> Valid() && Repr == old(Repr) && marker && r.value == 1
      ensures Run(Busy(old(state)), buffer) ==
              if r.Ok? then Shift(Run(Busy(state), buffer[r.value..]), r.value) else Failed(r.error)
    {
      if buffer[0] != OBJECT_END_MARKER {
        assert DataStep(state, buffer[0]) == Err(EndMarkerNotFound);
        return Err(EndMarkerNotFound);
      }
      assert DataStep(state, buffer[0]) == Ok(state.(marker := true));
      assert ParserStep(Busy(state), buffer[0]) == Ok(Busy(state.(marker := true)));
      marker := true;
      state := state.(marker := true);
      r := Ok(1);
    }

    method TakeValue(buffer: seq<byte>) returns (r: Result<nat>)
      requires Valid() && buffer != [] && num.len == 0 && !marker && StrParsed(key.State()) && key.size.value != 0
      modifies Repr
      ensures r.Ok? ==> Valid() && fresh(Repr - old(Repr)) && !marker && r.value <= |buffer|
      ensures r.Ok? && r.value == 0 ==> Repr == old(Repr) && old(Waits(parser.state)) && !Waits(parser.state)
      ensures Run(Busy(old(state)), buffer) ==
              if r.Ok? then Shift(Run(Busy(state), buffer[r.value..]), r.value) else Failed(r.error)
      decreases |buffer|, Repr, 0
    {
      RunValue(state, buffer);
      RunProgress(parser.state, buffer);
      r := parser.Parse(buffer);
      if r.Err? {
        return;
      }
      Repr := Repr + parser.Repr;
      state := state.(parser := parser.state);
      var done := parser.IsParsed();
      if done {
        CommitProperty();
      }
    }

    /** `properties[key] = parser.GetObject()`, and the key starts again. */
    method CommitProperty()
      requires this in Repr && key.size.width == 2 && Own() <= Repr && num != key.size
      requires parser in Repr && parser.Repr <= Repr && Own() !! parser.Repr && parser.Valid() && Parsed(parser.state)
      requires num.len == 0 && !marker
      requires state == Container(ecma, num.State(), key.State(), marker, properties, propertiesOrder, parser.state)
      modifies this, parser, key.utf8parser, key.size
      ensures Valid() && Repr == old(Repr) && state == Commit(old(state)) && !marker
    {
      var v := parser.GetObject();
      properties := Insert(properties, key.utf8parser.value, v);
      if !ecma {
        propertiesOrder := propertiesOrder + [key.utf8parser.value];
      }
      key.Reset();
      state := Commit(state);
    }
  }

  // ---------- RTMPMetaData: the reading loop ----------

  class MetaData {
    const parser: AmfParser
    var params: seq<Value>
    ghost var Repr: set<object>

    ghost predicate Valid()
      reads this, Repr
    {
      && this in Repr && parser in Repr && parser.Repr <= Repr && this !in parser.Repr
      && parser.Valid() && !Parsed(parser.state)
    }

    ghost function State(): Reader
      reads this, Repr
      requires Valid()
    {
      Reader(parser.state, params)
    }

    constructor ()
      ensures Valid() && fresh(Repr) && State() == Reader(Idle, [])
    {
      var p := new AmfParser();
      parser, params := p, [];
      Repr := {this} + p.Repr;
    }

    /** Consumes the whole chunk; values that become complete are appended to `params`. */
    method Parse(data: seq<byte>) returns (r: Result<nat>)
      requires Valid()
      modifies Repr
      ensures r.Ok? ==> Valid() && fresh(Repr - old(Repr)) && r.value == |data|
      ensures r.Ok? ==> ReaderFeed(old(State()), data) == Ok(State())
      ensures r.Err? ==> ReaderFeed(old(State()), data) == Err(r.error)
    {
      var buffer := data;
      while buffer != []
        invariant Valid() && fresh(Repr - old(Repr)) && |buffer| <= |data|
        invariant ReaderFeed(old(State()), data) == ReaderFeed(State(), buffer)
        decreases |buffer|, if Waits(parser.state) then 1 else 0
      {
        ReaderRuns(State(), buffer);
        RunProgress(parser.state, buffer);
        var len := parser.Parse(buffer);
        if len.Err? {
          return Err(len.error);
        }
        Repr := Repr + parser.Repr;
        buffer := buffer[len.value..];
        var done := parser.IsParsed();
        if done {
          var obj := parser.GetObject();
          params := params + [obj];
        }
      }
      r := Ok(|data|);
    }
  }
}
