/**
  Which bytes stand for which value (mcu/src/amf.cpp, mcu/include/amf.h), marker by marker and with the markers as
  numbers: the classes without a serializer, and what the serializers write.
  */
module AmfMarkers {
  import opened OrderedMap
  import opened AmfValue
  import opened BitStrings
  import opened AmfMachine
  import opened AmfRoundTrip
  import opened AmfStream
  import opened Sequences

  /** One call takes exactly `bytes`, whatever follows them, and arrives at `v`. */
  ghost predicate Reads(bytes: seq<byte>, v: Value) {
    forall rest :: ReadsBefore(bytes, v, rest)
  }

  ghost predicate ReadsBefore(bytes: seq<byte>, v: Value, rest: seq<byte>) {
    var r := Run(Idle, bytes + rest);
    r.Stopped? && r.used == |bytes| && Parsed(r.parser) && Get(r.parser.data) == v
  }

  lemma YieldsReads(bytes: seq<byte>, v: Value)
    requires Yields(Feed(Idle, bytes), v)
    ensures Reads(bytes, v)
  {
    forall rest ensures ReadsBefore(bytes, v, rest) {
      RunStops(Idle, bytes, rest);
    }
  }

  /** 00: eight bytes. */
  lemma NumberReads(bits: nat)
    requires bits < Pow256(8)
    ensures Reads([0x00] + ToBytes(bits, 8), Number(bits))
  {
    SerializedNumber(bits);
    YieldsReads([0x00] + ToBytes(bits, 8), Number(bits));
  }

  /** 01: one byte, true unless it is zero. */
  lemma BooleanReads(b: byte)
    ensures Reads([0x01, b], Boolean(b != 0))
  {
    assert [0x01 as byte] + [b] == [0x01, b];
    FeedMarker(BooleanData(0, false), 0x01, [b]);
    assert DataStep(BooleanData(0, false), b) == Ok(BooleanData(1, b > 0));
    assert ParserStep(Busy(BooleanData(0, false)), b) == Ok(Busy(BooleanData(1, b > 0)));
    YieldsReads([0x01, b], Boolean(b != 0));
  }

  /** 02 and 0F: two bytes of size, and the text. */
  lemma TextReads(t: WString)
    requires CodePoints(t) && TextSize(t) < 0x10000
    ensures Reads([0x02] + (ToBytes(TextSize(t), 2) + Encode(t)), String(t))
    ensures Reads([0x0F] + (ToBytes(TextSize(t), 2) + Encode(t)), XmlDocument(t))
  {
    assert Pow256(2) == 0x10000;
    SizedReads(t, 2, 0x02, StringData(NewStr(2)));
    SizedReads(t, 2, 0x0F, XmlData(NewStr(2)));
  }

  /** 0C: four bytes of size, and the text. */
  lemma LongStringReads(t: WString)
    requires CodePoints(t) && TextSize(t) < 0xFFFF_FFFF
    ensures Reads([0x0C] + (ToBytes(TextSize(t), 4) + Encode(t)), LongString(t))
  {
    assert Pow256(4) == 0x1_0000_0000;
    SizedReads(t, 4, 0x0C, LongStringData(NewStr(4)));
  }

  lemma SizedReads(t: WString, width: nat, marker: byte, o: Data)
    requires CodePoints(t) && TextSize(t) < Pow256(width) && width > 0
    requires TextData(o) && o.str == NewStr(width) && NewData(marker) == Ok(o)
    ensures Reads([marker] + (ToBytes(TextSize(t), width) + Encode(t)),
                  if o.StringData? then String(t) else if o.XmlData? then XmlDocument(t) else LongString(t))
  {
    var bytes := ToBytes(TextSize(t), width) + Encode(t);
    SizedTextAtWidth(t, width);
    FeedMarker(o, marker, bytes);
    StringTakes(o, bytes);
    YieldsReads([marker] + bytes,
                if o.StringData? then String(t) else if o.XmlData? then XmlDocument(t) else LongString(t));
  }

  /** 04, 05, 06, 0D and 0E stand for a value by themselves. */
  lemma PlainReads()
    ensures Reads([0x04], MovieClip) && Reads([0x05], Null) && Reads([0x06], Undefined)
    ensures Reads([0x0D], Unsupported) && Reads([0x0E], RecordSet)
  {
    PlainMarker(0x04, MovieClip);
    PlainMarker(0x05, Null);
    PlainMarker(0x06, Undefined);
    PlainMarker(0x0D, Unsupported);
    PlainMarker(0x0E, RecordSet);
  }

  lemma PlainMarker(marker: byte, v: Value)
    requires NewData(marker) == Ok(PlainData(v))
    ensures Reads([marker], v)
  {
    assert [marker] + [] == [marker];
    FeedMarker(PlainData(v), marker, []);
    YieldsReads([marker], v);
  }

  /** 09, 11 and everything above are refused. */
  lemma OthersRefused(marker: byte, rest: seq<byte>)
    requires marker == 0x09 || marker >= 0x11
    ensures Run(Idle, [marker] + rest) == Failed(TypeNotSupported)
  {
    assert ([marker] + rest)[1..] == rest;
  }

  // ---------- dates ----------

  lemma {:induction false} DateTakes(raw: seq<byte>, data: seq<byte>)
    requires |raw| + |data| <= 8
    ensures Feed(Busy(DateData(raw, false)), data) == Ok(Busy(DateData(raw + data, false)))
    decreases |data|
  {
    if data == [] {
      assert raw + data == raw;
    } else {
      assert DataStep(DateData(raw, false), data[0]) == Ok(DateData(raw + [data[0]], false));
      DateTakes(raw + [data[0]], data[1..]);
      assert raw + [data[0]] + data[1..] == raw + data;
    }
  }

  lemma DateFed(raw: seq<byte>)
    requires |raw| == 8
    ensures Feed(Idle, [0x0B] + raw) == Ok(Busy(DateData(raw, false)))
  {
    FeedMarker(DateData([], false), 0x0B, raw);
    DateTakes([], raw);
    assert [] + raw == raw;
  }

  /** 0B and eight bytes are a date once another byte is there, which is not taken; by themselves they are not yet. */
  lemma DateReads(raw: seq<byte>, rest: seq<byte>)
    requires |raw| == 8
    ensures Run(Idle, [0x0B] + raw + rest) ==
            Stopped(Busy(DateData(raw, rest != [])), 9)
  {
    var p := Busy(DateData(raw, false));
    DateFed(raw);
    RunWaits(Idle, [0x0B] + raw, rest);
  }

  /** A call that is fed up to a complete date stops before the byte behind it. */
  lemma {:induction false} RunWaits(p: Parser, data: seq<byte>, rest: seq<byte>)
    requires !Parsed(p) && Feed(p, data).Ok? && Waits(Feed(p, data).value)
    ensures var q := Feed(p, data).value;
            Run(p, data + rest) == Stopped(if rest == [] then q else Settled(q), |data|)
    decreases |data|
  {
    if data == [] {
      assert data + rest == rest;
    } else {
      NotWaiting(p, data);
      var p' := ParserStep(p, data[0]).value;
      if Parsed(p') && data[1..] != [] {
        ParsedStuck(p', data[1..]);
      }
      assert (data + rest)[1..] == data[1..] + rest;
      RunWaits(p', data[1..], rest);
    }
  }

  /** A reader hands a date over when the next byte comes, and that byte begins the next value. */
  lemma DateDelivered(params: seq<Value>, raw: seq<byte>, rest: seq<byte>)
    requires |raw| == 8
    ensures ReaderFeed(Reader(Idle, params), [0x0B] + raw + rest) ==
            if rest == [] then Ok(Reader(Busy(DateData(raw, false)), params))
            else ReaderFeed(Reader(Idle, params + [Date(raw)]), rest)
  {
    var data := [0x0B] + raw + rest;
    DateReads(raw, rest);
    ReaderRuns(Reader(Idle, params), data);
    assert data[9..] == rest;
  }

  /** The time zone of a date, two bytes by the format, is taken for the next value: zone 0 begins a number. */
  lemma ZoneMisread(raw: seq<byte>, zone: seq<byte>, next: byte)
    requires |raw| == 8 && zone == [0x00, 0x00]
    ensures ReaderFeed(Reader(Idle, []), [0x0B] + raw + (zone + [next])) ==
            Ok(Reader(Busy(NumberData(Accumulator(6, next * Pow256(6)))), [Date(raw)]))
  {
    DateDelivered([], raw, zone + [next]);
    assert [] + [Date(raw)] == [Date(raw)];
    NumberBegins([Date(raw)], zone + [next], 8);
  }

  lemma NumberBegins(params: seq<Value>, data: seq<byte>, n: nat)
    requires |data| == 3 && data[0] == 0x00 && data[1] == 0 && n == 8
    ensures ReaderFeed(Reader(Idle, params), data) ==
            Ok(Reader(Busy(NumberData(Accumulator(n - 2, data[2] * Pow256(n - 2)))), params))
  {
    var a, b := Accumulator(n, 0), Accumulator(n - 1, 0 + data[1] * Pow256(n - 1));
    assert data == [data[0]] + data[1..] && data[1..] == [data[1]] + data[2..] && data[2..] == [data[2]] + [];
    assert ReaderStep(Reader(Idle, params), data[0]) == Ok(Reader(Busy(NumberData(a)), params));
    OneByte(Reader(Idle, params), data[0], data[1..]);
    OneNumberByte(a, params, data[1], data[2..]);
    OneNumberByte(b, params, data[2], []);
  }

  lemma OneByte(r: Reader, b: byte, rest: seq<byte>)
    requires ReaderStep(r, b).Ok?
    ensures ReaderFeed(r, [b] + rest) == ReaderFeed(ReaderStep(r, b).value, rest)
  {
    assert ([b] + rest)[1..] == rest;
  }

  lemma OneNumberByte(a: Accumulator, params: seq<Value>, b: byte, rest: seq<byte>)
    requires a.len > 1
    ensures ReaderFeed(Reader(Busy(NumberData(a)), params), [b] + rest)
         == ReaderFeed(Reader(Busy(NumberData(AccStep(a, b))), params), rest)
  {
    assert DataStep(NumberData(a), b) == Ok(NumberData(AccStep(a, b)));
    assert ParserStep(Busy(NumberData(a)), b) == Ok(Busy(NumberData(AccStep(a, b))));
    OneByte(Reader(Busy(NumberData(a)), params), b, rest);
  }

  // ---------- what the serializers write ----------

  /** The marker of each class that has a serializer, the element count of an array, and the end of a container. */
  lemma WireForm(v: Value)
    ensures var s := Serialize(v);
            && (v.Number? ==> s == [0x00] + ToBytes(v.bits, 8))
            && (v.Boolean? ==> s == [0x01, if v.value then 1 else 0])
            && (v.String? || v.XmlDocument? ==> s == [0x02] + (ToBytes(TextSize(v.text), 2) + Encode(v.text)))
            && (v.Null? ==> s == [0x05])
            && (v.Object? || v.EcmaArray? ==>
                  |s| >= 4 && s[0] == (if v.Object? then 0x03 else 0x08) && s[|s| - 3..] == [0x00, 0x00, 0x09])
            && (v.EcmaArray? ==> |s| >= 8 && s[1..5] == ToBytes(|v.elements|, 4))
            && (v.Undefined? || v.MovieClip? || v.Unsupported? || v.RecordSet? ==> s == [0x0D])
            && (v.LongString? || v.Date? ==> s == [0x0D])
  {
  }

  /** The count in front of an array is the number of its properties, as a DWORD. */
  lemma CountWritten(d: Dict)
    requires |d| < 0x1_0000_0000
    ensures FromBytes(Serialize(EcmaArray(d))[1..5]) == |d|
  {
    WireForm(EcmaArray(d));
    Pow2Values();
    NumberBack(|d|, 4);
  }

  // ---------- UTF-8 ----------

  /** A slice of the bits of a number. */
  lemma BitsSlice(w: nat, n: nat, i: nat, j: nat, k: nat, v: nat)
    requires j == i + k <= n && v == Shr(w, n - j)
    ensures Bits(w, n)[i..j] == Bits(v, k)
  {
    BitsSplit(w, j, n - j);
    BitsSplit(v, i, k);
    Halves(Bits(v, j), Bits(w, n - j));
    Halves(Bits(Shr(v, k), i), Bits(v, k));
    assert Bits(w, n)[i..j] == Bits(w, n)[..j][i..];
  }

  /** A byte of `m` tag bits and `k` bits of the character, those from `i` on. */
  lemma TaggedByte(tag: nat, m: nat, k: nat, w: nat, n: nat, i: nat, j: nat, v: nat, b: nat, size: nat)
    requires size == m + k && j == i + k <= n && v == Shr(w, n - j) && b == tag * Pow2(k) + v % Pow2(k)
    ensures Bits(b, size) == Bits(tag, m) + Bits(w, n)[i..j]
  {
    Tagged(tag, m, k, v, b, size);
    BitsSlice(w, n, i, j, k, v);
  }

  lemma Tagged(tag: nat, m: nat, k: nat, v: nat, b: nat, size: nat)
    requires size == m + k && b == tag * Pow2(k) + v % Pow2(k)
    ensures Bits(b, size) == Bits(tag, m) + Bits(v, k)
  {
    LowPart(v, Pow2(k));
    BitsJoin(tag, v % Pow2(k), m, k);
    BitsMod(v, k);
  }

  lemma LowPart(v: nat, p: nat)
    requires p > 0
    ensures 0 <= v % p < p
  {
  }

  lemma SmallPowers()
    ensures Pow2(0) == 1 && Pow2(3) == 8 && Pow2(4) == 16 && Pow2(5) == 32 && Pow2(6) == 64
    ensures Pow2(12) == 4096 && Pow2(18) == 262144
  {
    Pow2Add(6, 6);
    Pow2Add(12, 6);
  }

  lemma Tags()
    ensures Bits(2, 2) == [true, false] && Bits(6, 3) == [true, true, false]
    ensures Bits(14, 4) == [true, true, true, false] && Bits(30, 5) == [true, true, true, true, false]
  {
  }

  /** Section 3 of RFC 3629: which bits of a character go where. */
  lemma Utf8Layout(w: nat)
    requires w <= 0x10FFFF
    ensures var s := EncodeChar(w);
            if w <= 0x7F then |s| == 1 && s[0] == w
            else if w <= 0x7FF then
              && |s| == 2 && Bits(s[0], 8) == [true, true, false] + Bits(w, 11)[0..5]
              && Bits(s[1], 8) == [true, false] + Bits(w, 11)[5..11]
            else if w <= 0xFFFF then
              && |s| == 3 && Bits(s[0], 8) == [true, true, true, false] + Bits(w, 16)[0..4]
              && Bits(s[1], 8) == [true, false] + Bits(w, 16)[4..10]
              && Bits(s[2], 8) == [true, false] + Bits(w, 16)[10..16]
            else
              && |s| == 4 && Bits(s[0], 8) == [true, true, true, true, false] + Bits(w, 21)[0..3]
              && Bits(s[1], 8) == [true, false] + Bits(w, 21)[3..9]
              && Bits(s[2], 8) == [true, false] + Bits(w, 21)[9..15]
              && Bits(s[3], 8) == [true, false] + Bits(w, 21)[15..21]
  {
    SmallPowers();
    Tags();
    var s := EncodeChar(w);
    if w <= 0x7F {
    } else if w <= 0x7FF {
      TaggedByte(6, 3, 5, w, 11, 0, 5, w / 64, s[0], 8);
      TaggedByte(2, 2, 6, w, 11, 5, 11, w, s[1], 8);
    } else if w <= 0xFFFF {
      ThreeBytes(w);
    } else {
      FourBytes(w);
    }
  }

  lemma ThreeBytes(w: nat)
    requires 0x7FF < w <= 0xFFFF
    ensures var s := EncodeChar(w);
            && |s| == 3 && Bits(s[0], 8) == [true, true, true, false] + Bits(w, 16)[0..4]
            && Bits(s[1], 8) == [true, false] + Bits(w, 16)[4..10]
            && Bits(s[2], 8) == [true, false] + Bits(w, 16)[10..16]
  {
    SmallPowers();
    Tags();
    var s := EncodeChar(w);
    TaggedByte(14, 4, 4, w, 16, 0, 4, w / 4096, s[0], 8);
    TaggedByte(2, 2, 6, w, 16, 4, 10, w / 64, s[1], 8);
    TaggedByte(2, 2, 6, w, 16, 10, 16, w, s[2], 8);
  }

  lemma FourBytes(w: nat)
    requires 0xFFFF < w <= 0x10FFFF
    ensures var s := EncodeChar(w);
            && |s| == 4 && Bits(s[0], 8) == [true, true, true, true, false] + Bits(w, 21)[0..3]
            && Bits(s[1], 8) == [true, false] + Bits(w, 21)[3..9]
            && Bits(s[2], 8) == [true, false] + Bits(w, 21)[9..15]
            && Bits(s[3], 8) == [true, false] + Bits(w, 21)[15..21]
  {
    SmallPowers();
    Tags();
    var s := EncodeChar(w);
    TaggedByte(30, 5, 3, w, 21, 0, 3, w / 262144, s[0], 8);
    TaggedByte(2, 2, 6, w, 21, 3, 9, w / 4096, s[1], 8);
    TaggedByte(2, 2, 6, w, 21, 9, 15, w / 64, s[2], 8);
    TaggedByte(2, 2, 6, w, 21, 15, 21, w, s[3], 8);
  }
}
