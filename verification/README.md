# Verified models of the media server's protocol cores

The project models, in Dafny, the parts of the media server that decide what a peer reads, what it
writes and who may touch shared state, and proves what each of them promises. It stands beside the C++
sources; nothing in it is compiled into the server.

| module | models |
|---|---|
| `OrderedMap`, `AmfValue`, `AmfMachine`, `AmfRoundTrip`, `AmfFits`, `AmfStream`, `AmfSize`, `AmfMarkers` | AMF 0 values, serializers, the incremental parsers as a byte-at-a-time machine, the round trip, and which bytes stand for which value (mcu/src/amf.cpp) |
| `AmfClasses`, `AmfWriter` | the parser objects that keep their state between chunks, and the serializers writing into a caller's buffer |
| `UseLock` | the readers/writer lock `Use` as a transition system over any number of threads (mcu/include/use.h) |
| `BitStrings`, `Bitstream`, `Vlc` | bit reader, bit writer, variable-length codes, Exp-Golomb (mcu/include/bitstream.h) |
| `NatMap`, `FecCode`, `Fec`, `FecDecoder` | ULPFEC recovery (cca/fecdecoder.h, cca/fecdecoder.cpp) and the loop that drives it (cca/rtpsession.cpp) |
| `FecSender` | the sender's side, bit by bit from RFC 5109, and what the decoder reads from its bytes |
| `JitterBuffer` | the RTP jitter buffer (mcu/include/rtpbuffer.h) |
| `Crc`, `CrcPolynomial` | the table-driven CRC-32 (mcu/include/crc32calc.h), and long division by the polynomial of CRC-32 |
| `Stun`, `StunChecked`, `StunWire` | authenticated and fingerprinted STUN messages with the parser of cca/stunmessage.cpp, the parser of mcu/src/stunmessage.cpp that checks them, and the bytes by the figures of RFC 5389 |
| `Arith`, `Sequences`, `Buffers`, `Wrappers` | arithmetic and sequence facts, writes into byte arrays, `Option` |

`dafny verify dfyconfig.toml` checks everything.

## The shape of the proofs

Each core has a specification on values: a machine that takes one byte (AMF), the bit string still to be
read or already written (bit streams), the set of codes (VLC), the exclusive-or algebra of packets (FEC), a
step function (jitter buffer), a shift register that takes one bit (CRC), attributes lying in a buffer
(STUN). The source's objects are classes whose methods have the source's loops and branches and are proved to
do what the specification says. The theorems about whole runs, streams and histories are lemmas about the
specification, and so hold of the classes.

- AMF: for any sequence of value trees whose strings and keys fit their length fields, serializing them and
  parsing the bytes, cut into chunks anywhere, gives back exactly those trees, in canonical form, and consumes
  exactly those bytes. A tree of code points comes back unchanged if and only if no string and no key takes more
  than 65535 bytes of UTF-8, no property is named by the empty string and every node is of a class with a
  serializer. Up to the first marker 0x07, 0x0A or 0x10, cutting *any* byte string, however malformed, into chunks
  changes nothing. For each class the bytes are given with their markers as numbers, UTF-8 bit by bit.
- `Use`: mutual exclusion, an exact counter, no lost wakeup, no deadlock, and a bound on how many steps a
  waiting writer can be held up, under every schedule and with spurious wakeups. Any number of readers share, and
  whenever the lock is free an idle thread can get in without waiting for a user.
- Bit streams: any list of fields put, flushed and got back is the same list, in the fewest bytes; and what every
  single read and write does, the end of the stream and over-wide values included.
- VLC: the trie decodes exactly as the set of codes does, and for a prefix-free list in any order every code
  decodes to its value.
- FEC: from the bytes a sender makes, flags, numbers, mask and parity are read back, and a rebuilt packet is the lost
  packet; the mask test passes exactly when the group is complete; `Recover`
  fills the first gap that can be filled, and nothing only if none can; over whole runs and in every sequence cycle, a
  receiver fed only packets and parities of packets that were sent hands on only packets that were sent. Its recovery
  loop ends with no gap left that a FEC packet could fill, unless filling gaps leads to one numbered 2^16 or more, in
  which case, and only then, the loop never ends.
- Jitter buffer: strict order between resets, a reason for every skipped number, an account of every packet ever added,
  and, from the history of the calls alone, exactly what each `Add` answers and when each turn of `Wait` delivers or
  sleeps, over every run of the operations.
- CRC: the checksum is the remainder of the message by the polynomial given by its exponents, with its check value;
  every error burst of up to 32 bits is found.
- STUN: serialize then parse, with the exact condition under which the message class survives. The checking parser
  takes exactly the well-formed messages whose FINGERPRINT is right, and takes back every message that was serialized
  from attributes of its own; no damage within 32 neighbouring bits leaves it a message that ends in its FINGERPRINT.

## Where the code falls short of its promise

Each of these is a theorem with the exact condition, not an assumption.

- An object property named by the empty string is accepted by `AddProperty` and cannot be read back
  (`AmfStream.EmptyKeyIsLost`). A string or key of more than 65535 UTF-8 bytes loses the high bits of its length
  (`AmfStream.TooLong`). `AmfStream.RoundTripsExactly` says that nothing else goes wrong.
- The date parser does not take the two bytes of the time zone: it counts them as soon as any byte follows the eight of
  the date. The date is handed over only then (`AmfMarkers.DateDelivered`), and the zone is read as the next value:
  zone 0 begins a number (`AmfMarkers.ZoneMisread`).
- `GetSize` is too small exactly when some object lists a key twice (`AmfSize.SizeExact`, `AmfSize.KeyTwice`).
- A string object writes the sizes it was read with. Malformed bytes decode to text of another size, and then what
  it writes is not read back (`AmfFits.RewrittenExactly`; `AmfFits.StaleSize` has the bytes E2 82 41).
- A read past the end of a bit stream is reported only if the buffer is used up. Otherwise the byte that counts the
  cached bits wraps, a number is returned and `Left` reports more than there was: exactly if not
  `Readable(n)` in `Bitstream.BitReader.Get`; `Bitstream.NineOfEight` reads nine bits from one byte. An Exp-Golomb
  code cut off by the end can run into this (`Vlc.DecodeGolomb`).
- A value put with more bits than its width changes the word before it if the cache is exactly full, depending on what
  the machine makes of a shift by 32 (`Bitstream.BitWriter.Put`, `Bitstream.WideValueSpills`).
- A recovered FEC packet carries no cycle count, so recovering a number of 2^16 or more changes nothing
  (`FecDecoder.ProgressExactly`) and every further call finds the same gap (`FecDecoder.RecoverAgain`). The loop of
  `ReadRTP` gets there exactly when filling gaps below 2^16 in some order makes one above fillable
  (`FecDecoder.RecoverAll`); `FecDecoder.LoopNeverEnds` has 65535 and 65537 buffered, 65536 lost and its parity at
  hand, `FecDecoder.LoopInput` such a parity in fourteen bytes.
- A FEC packet carries 16 bits of the number its group begins with, and the buffer is searched from that number on. So
  a gap can be recovered by some FEC packet exactly if the window begins below 2^16 and the gap lies below 2^16+47
  (`FecDecoder.RecoverableExactly`). A parity of a later cycle is never made use of (`FecDecoder.LaterCycleIdle`), and
  past the first cycle recovery does nothing at all (`FecDecoder.PastFirstCycle`).
- Media packets are kept without their padding and extension flags, so a flag is right in a recovered packet exactly
  if an even number of the other packets of the group had it (`FecSender.FlagsExactly`). A packet that comes without
  redundant data is also kept without its source; where all do, a recovered packet has none (`FecSender.SourceLost`).
- With the 32-bit `get8` of cca/tools.h, `Recover` sees only the upper half of the window
  (`FecDecoder.NarrowRecoversNothingEarly`; `wide` in `Fec.TestMeansPresent`).
- `AddPacket` compares against `seq-63` on unsigned numbers, so while the newest number is below 63 it empties
  its own window (`Fec.WindowContents`, `Fec.EarlyPacketLost`).
- The jitter buffer stops ordering once it has delivered 2^32-2, because `next` then means "nothing expected"
  (`JitterBuffer.PastIsClosedExactly`, `JitterBuffer.OrderLost`).
- `STUNMessage::Parse` of cca/stunmessage.cpp takes the low class bit from the first byte of the type field instead of
  the second (`Stun.ClassSurvivesExactly`); a Binding Indication is read as a Binding Request (`Stun.IndicationLost`).
  It drops a last attribute exactly if that has no value (`Stun.ParsesBack`, `Stun.EmptyAttributeLost`).
- The checking `STUNMessage::Parse` discards what `AuthenticatedFingerPrint` wrote exactly if MESSAGE-INTEGRITY or
  FINGERPRINT was among the message's own attributes (`StunChecked.RoundTripChecked`), and reads behind the message
  exactly if a FINGERPRINT without a value ends it (`StunChecked.OpenExactly`).
- `AuthenticatedFingerPrint` compares the buffer with the size of the message modulo 2^16, which protects a buffer that
  is too small exactly if the message is shorter than 65536 bytes (`Stun.StunMessage.AuthenticatedFingerPrint`,
  `Stun.CheckPassedWrongly`).

## Reading the models

- A DWORD or QWORD is a natural number; wrap-around, truncation and masks are written out where the source can
  reach them. A disjoint `|` in the AMF accumulators is a sum. Shifts of a 32-bit word by 32 have no value in C:
  where the writer does one on a full cache, the result is a constant of the writer about which nothing is
  known; widths are 1 to 31, as 32 and 0 are left to the compiler, except that `Get(0)`, which the
  Exp-Golomb decoder performs for code number 0, is taken to yield 0.
- A `std::map` is the sequence of its entries in key order. `AMFObject` and `AMFEcmaArray` differ in the element
  count and the insertion order only and share the class `AmfContainer`; `U16Parser`, `U32Parser` and `AMFNumber`
  share `UIntParser`. Virtual dispatch is a datatype of references. `GetObject` hands over the value. An AMF number
  is its 64 raw bits.
- `Serialize(v)` and `AmfWriter` write trees built by the constructors; a string that was parsed is written by
  `AmfClasses.AmfString.Serialize` with the size it announced.
- Exceptions are `Err` or `None` results.
- In `Use`, one step is one pthread operation or one access to the counter; a signal wakes one sleeper if there
  is one; a thread does not nest holds.
- `FECData` must hold its header, its level 0 header and its protected bytes (`FecOk`): the accessors read them
  unchecked. `Undefined` is the outcome in which the C++ code shifts a QWORD by far more than 63 (a FEC base before
  the first buffered packet, whose distance is computed on unsigned numbers) or takes a rebuilt packet for a FEC
  carrier (payload types 108 and 109). The eviction loops test the key before the end iterator; they are modelled as
  intended. `RecoverAll` stops at a gap that would be found for ever and says so (`Forever`); the source goes on.
- One call of `RTPBuffer::Wait` is a `Turn` for each stretch in which it holds the mutex; the clock is an argument.
- `AuthenticatedFingerPrint` and `GetSize` are the same in both copies of the STUN code; mcu/src is the one whose `set2`
  and `set4` take full-width indices. The parser of cca/stunmessage.cpp is modelled with full-width and with BYTE
  indices (`wide`): messages of up to 260 bytes are read alike (`Stun.NarrowSame`), and beyond, the attribute at 256 is
  given the type and the length in the message's header (`Stun.NarrowWraps`).
- HMAC-SHA1 is a function parameter with 20-byte results. The static members of `CRC32Calc` are an object handed to
  each constructor.

## Model

| member | source | states |
|---|---|---|
| AmfValue.EncodedSize | mcu/src/amf.cpp:314-395 | the announced UTF-8 size is never too small, and exact if and only if every character is at most 0x10FFFF |
| AmfValue.CanonIdentity | mcu/src/amf.cpp:556-565 | a tree equals what its bytes stand for exactly when every node's class has its own serializer |
| AmfMachine.CutAnywhere | mcu/src/amf.cpp:412-497 | up to the first marker 0x07, 0x0A or 0x10, feeding two pieces in turn is feeding them joined, from every parser state, errors included |
| AmfMachine.TextFeedConcat | mcu/src/amf.cpp:220-287 | the UTF-8 parser does not see where its input was cut, for any bytes |
| AmfMachine.KeyTakes | mcu/src/amf.cpp:1024-1047 | inside an object the bytes of a key advance the key and nothing else |
| AmfMachine.ValueTakes | mcu/src/amf.cpp:1048-1078 | inside an object the bytes of a value are the inner parser's; a complete value becomes a property, an error fails the object |
| AmfRoundTrip.AccReads | mcu/src/amf.cpp:25-33 | a big-endian number written in `len` bytes is read as its value modulo 256^len, added to what was there |
| AmfRoundTrip.CharRoundTrip | mcu/src/amf.cpp:220-287 | the UTF-8 form of each code point is decoded to that code point, whatever its length |
| AmfRoundTrip.TextRoundTrip | mcu/src/amf.cpp:220-395 | the UTF-8 form of every text of code points is decoded to that text |
| AmfRoundTrip.DecodedTextFits | mcu/src/amf.cpp:220-335 | text decoded from any bytes, even malformed ones, takes no more bytes when encoded again |
| AmfRoundTrip.SizedTextRoundTrip | mcu/src/amf.cpp:843-927 | a length-prefixed text is read back whole and the string parser is done exactly then |
| AmfRoundTrip.EntryOutcome | mcu/src/amf.cpp:1024-1078 | one serialized property is added to the object, or an empty name or a failing value fails it |
| AmfRoundTrip.SerializedKeys | mcu/src/amf.cpp:1191-1223 | the serialized properties of an object rebuild its map and its insertion order, or fail exactly when some name is empty |
| AmfRoundTrip.SerializedObject | mcu/src/amf.cpp:1024-1223 | a serialized object parses to the canonical object with the same order |
| AmfRoundTrip.SerializedEcmaArray | mcu/src/amf.cpp:1335-1539 | a serialized ECMA array parses to the canonical array |
| AmfRoundTrip.SerializedValue | mcu/src/amf.cpp:412-497 | every well-formed tree that fits its length fields parses to its canonical form, or to the end-marker error exactly when some key is empty |
| AmfStream.RunStops | mcu/src/amf.cpp:412-497 | one `Parse` call consumes exactly the bytes of the value and none of what follows |
| AmfStream.RunResumes | mcu/src/amf.cpp:412-497 | splitting one value over two calls gives the same state and the same total |
| AmfStream.ValueThenRest | mcu/src/amf.cpp:412-497 | serialize then parse, trailing bytes untouched |
| AmfStream.RoundTripsExactly | mcu/src/amf.cpp:412-565 | the trees of code points that come back unchanged are exactly those without over-long strings or keys, without empty keys and with a serializer for every node |
| AmfFits.YieldsShort | mcu/src/amf.cpp:843-874 | whatever bytes it was fed, a parser yields only trees whose strings and keys fit a 16-bit length |
| AmfStream.StringRoundTripsExactly | mcu/src/amf.cpp:843-927 | a string of any length comes back if and only if its UTF-8 form has at most 65535 bytes |
| AmfStream.OversizedText | mcu/src/amf.cpp:895-927 | a longer string leaves bytes over after its truncated length |
| AmfStream.TooLong | mcu/src/amf.cpp:895-927 | a string of 65536 letters, which does not come back |
| AmfFits.AnnouncedReadsBack | mcu/src/amf.cpp:909-927 | text written behind a stored size is read back if and only if it takes exactly that many bytes |
| AmfFits.RewrittenExactly | mcu/src/amf.cpp:843-927 | a string read from any bytes and written again is read back if and only if its text takes as many bytes as it was read from |
| AmfFits.StaleSize | mcu/src/amf.cpp:843-927 | three bytes that are read as ".A" and, written again, are not read back |
| AmfStream.ChunkingIrrelevant | mcu/src/rtmpmessage.cpp:648-674 | for every byte string in which no marker 0x07, 0x0A or 0x10 comes up and any two ways to cut it, the reader ends in the same state with the same values, or the same error |
| AmfStream.ReadUpToForeign | mcu/src/rtmpmessage.cpp:648-674 | where such a marker does come up, the bytes before it are read without an error |
| AmfStream.ReaderRuns | mcu/src/rtmpmessage.cpp:654-671 | one turn of the reading loop: run the parser, take the value if it is complete |
| AmfStream.StreamRead | mcu/src/rtmpmessage.cpp:648-674 | a concatenation of serialized values is read value by value, and what follows is read afterwards |
| AmfStream.StreamRoundTrip | mcu/src/rtmpmessage.cpp:648-674 | any values, serialized and cut anywhere, are read back as exactly their canonical forms, or refused for an empty key |
| AmfStream.EmptyKeyIsLost | mcu/src/amf.cpp:1048-1078 | a concrete object with an empty property name that is refused when read back |
| AmfSize.WrittenAtMost | mcu/src/amf.cpp:360-395 | `Serialize` writes no more than its texts announce, and as much if they are made of code points |
| AmfSize.CoverCost | mcu/src/amf.cpp:1173-1223 | the bytes announced for the properties in insertion order are at least those counted by `GetSize`, and equal if and only if nothing is written twice |
| AmfSize.AnnouncedExact | mcu/src/amf.cpp:1173-1189 | for every tree, `GetSize` is a lower bound of what is announced, and equal if and only if no object lists a key twice |
| AmfSize.SizeExact | mcu/src/amf.cpp:1173-1189 | for code points `GetSize` is a lower bound of what `Serialize` writes, and equal if and only if no object lists a key twice |
| AmfSize.KeyTwice | mcu/src/amf.cpp:1173-1223 | an object that lists a key twice writes more than `GetSize` says |
| AmfMarkers.NumberReads | mcu/src/amf.cpp:675-689 | 00 and eight bytes, most significant first, are that number, whatever follows |
| AmfMarkers.BooleanReads | mcu/src/amf.cpp:747-769 | 01 and a byte are true unless the byte is zero |
| AmfMarkers.TextReads | mcu/src/amf.cpp:843-874 | 02 or 0F, two bytes of size and the UTF-8 form of a text of code points are that string or that XML document, and nothing behind them is taken |
| AmfMarkers.LongStringReads | mcu/src/amf.cpp:944-980 | 0C, four bytes of size and the UTF-8 form of a text below 2^32-1 bytes are that long string, and nothing behind them is taken |
| AmfMarkers.PlainReads | mcu/src/amf.cpp:412-497 | 04, 05, 06, 0D and 0E are MovieClip, Null, Undefined, Unsupported and RecordSet by themselves |
| AmfMarkers.OthersRefused | mcu/src/amf.cpp:412-497 | 09, 11 and every marker above are refused |
| AmfMarkers.DateReads | mcu/src/amf.cpp:1656-1671 | 0B and eight bytes are a date exactly when another byte is there, which is left unread |
| AmfMarkers.DateDelivered | mcu/src/amf.cpp:1656-1671 | a reader hands the date over with the next byte, which begins the next value |
| AmfMarkers.ZoneMisread | mcu/src/amf.cpp:1656-1666 | a time zone of 00 00 and one more byte leave a number half read behind the date |
| AmfMarkers.WireForm | mcu/src/amf.cpp:716-1539 | the marker each serializer writes, the end 00 00 09 of objects and arrays, and where an array's count stands |
| AmfMarkers.CountWritten | mcu/src/amf.cpp:1501-1516 | the count in front of an array is its number of properties |
| AmfMarkers.Utf8Layout | mcu/src/amf.cpp:360-395 | which bits of a character go into which byte, by the table of RFC 3629 |
| AmfClasses.FeedRun | mcu/src/amf.cpp:412-497 | a call that consumes a whole chunk is the byte machine fed that chunk |
| AmfClasses.UIntParser.Parse | mcu/src/amf.cpp:81-89 | consumes what it still needs of the chunk and leaves the accumulator where byte-by-byte feeding would |
| AmfClasses.UTF8Parser.Parse | mcu/src/amf.cpp:220-287 | consumes what the announced size still allows and leaves text, pending bytes and length as byte-by-byte decoding would |
| AmfClasses.UTF8Parser.SetWString | mcu/src/amf.cpp:314-335 | stores the text and computes its UTF-8 size |
| AmfClasses.AmfString.Parse | mcu/src/amf.cpp:843-874 | size field, then text, across any chunks |
| AmfClasses.AmfString.Serialize | mcu/src/amf.cpp:909-927 | a buffer smaller than the stored size asks for is refused and left alone; otherwise marker, stored size and text are written |
| AmfClasses.AmfBoolean.Parse | mcu/src/amf.cpp:747-764 | one byte, non-zero is true |
| AmfClasses.AmfDate.Parse | mcu/src/amf.cpp:1656-1671 | eight bytes of date across any chunks; complete as soon as a chunk goes on behind them, and of what follows nothing is taken |
| AmfClasses.AmfParser.Parse | mcu/src/amf.cpp:412-497 | marker, then the object of that type, to any depth of nesting: the result and the new state are those of the machine |
| AmfClasses.AmfParser.GetObject | mcu/src/amf.cpp:499-514 | hands over the parsed value and starts again |
| AmfClasses.AmfContainer.Parse | mcu/src/amf.cpp:1024-1078 | objects and arrays over any chunks: count, keys, values and end marker as the machine takes them |
| AmfClasses.AmfContainer.CommitProperty | mcu/src/amf.cpp:1335-1394 | a complete value replaces or adds the property in key order, and for objects its name is appended to the order |
| AmfClasses.MetaData.Parse | mcu/src/rtmpmessage.cpp:648-674 | consumes the whole chunk and appends every completed value |
| Buffers.SetBytes | mcu/include/tools.h:231-257 | the low bytes of a number, most significant first, and nothing else changed |
| AmfWriter.WriteChar | mcu/src/amf.cpp:360-395 | one character in one to four bytes, by the branch for its range |
| AmfWriter.WriteText | mcu/src/amf.cpp:360-395 | nothing when the announced size does not fit, otherwise exactly the encoded text |
| AmfWriter.WriteAnnounced | mcu/src/amf.cpp:909-927 | the stored size and the text, and nothing else changed |
| AmfWriter.WriteSizedText | mcu/src/amf.cpp:1205-1212 | the size of a key and the key, and nothing else changed |
| AmfWriter.WriteKeys | mcu/src/amf.cpp:1191-1223 | every property in insertion order, one after the other |
| AmfWriter.WriteEcmaArray | mcu/src/amf.cpp:1501-1539 | marker, count, properties in key order, end marker |
| AmfWriter.Write | mcu/src/amf.cpp:716-727 | a class that checks its buffer refuses a small one, otherwise exactly the bytes of the value are written at the position |
| UseLock.NextInv | mcu/include/use.h:26-55 | every step of every thread keeps ownership of both mutexes, the counter's meaning, pending signals and the writer's exclusion |
| UseLock.WriterExcludes | mcu/include/use.h:43-55 | in every reachable state a thread with the write lock is alone: no reader, no other writer |
| UseLock.CounterIsExact | mcu/include/use.h:26-41 | in every reachable state the counter is the number of threads between increment and decrement |
| UseLock.WriterStopsReaders | mcu/include/use.h:26-49 | while a writer waits the counter never grows and nobody enters |
| UseLock.NoLostWakeup | mcu/include/use.h:35-49 | a writer that sleeps at counter zero has a signal still to come, and that signal wakes it |
| UseLock.NeverStuck | mcu/include/use.h:26-55 | while any thread is in the protocol some thread can take a step other than a spurious wakeup |
| UseLock.RankNext | mcu/include/use.h:26-55 | each step lowers a rank by one; a spurious wakeup raises it by at most two |
| UseLock.RunLength | mcu/include/use.h:26-55 | a run in which nobody enters is no longer than the initial rank plus three for each spurious wakeup |
| UseLock.WriterWaitIsBounded | mcu/include/use.h:43-49 | a writer waits at most ten steps per thread plus three per spurious wakeup, under every schedule |
| UseLock.DrainEnds | mcu/include/use.h:26-55 | a run of proper steps is bounded, and is stuck exactly when every thread has left the protocol |
| UseLock.ReadersShare | mcu/include/use.h:26-33 | with any number of threads, some run leads from the start to a state in which any chosen number of them use the resource at once and the counter is that number |
| UseLock.EverybodyGetsIn | mcu/include/use.h:26-49 | from every reachable state with the lock free, an idle thread can get to use the resource while all users go on using it, and can get the write lock if the counter is zero |
| BitStrings.BitsJoin | mcu/include/bitstream.h:287-310 | a value written below another is its bits after the other's |
| BitStrings.FromBytesBits | mcu/include/tools.h:219-223 | the number read from bytes has exactly the bits of those bytes |
| BitStrings.MaskBytesBits | mcu/include/tools.h:247-257 | the bytes of a 64-bit mask have exactly its bits |
| Bitstream.CacheTake | mcu/include/bitstream.h:170-187 | the top `n` cached bits are the next `n` bits of the stream, and shifting moves past them |
| Bitstream.ShortTop | mcu/include/bitstream.h:27-45 | with too few cached bits the shifted cache is those bits with zeros for the missing ones |
| Bitstream.LoadBytes | mcu/include/bitstream.h:95-147 | a word loaded from one to four bytes holds their bits at its top |
| Bitstream.BitReader.Cache | mcu/include/bitstream.h:95-147 | loads as many bytes as there are, up to four; what the cache still held is dropped; an empty buffer is an error |
| Bitstream.BitReader.Get | mcu/include/bitstream.h:27-45 | the next `n` bits as a number and the stream moved past them; an error exactly when fewer are left and the buffer is used up; with fewer left and bytes in the buffer, the bits with zeros behind them, and a bit count wrapped by 256 |
| Bitstream.BitReader.Skip | mcu/include/bitstream.h:52-65 | moves past `n` bits; an error, or a wrapped bit count, in the same cases as `Get` |
| Bitstream.BitReader.Peek | mcu/include/bitstream.h:72-88 | the number `Get` would return, or its error, with nothing read |
| Bitstream.NineOfEight | mcu/include/bitstream.h:27-70 | nine bits of a one-byte buffer are delivered without an error, and 255 are left |
| Bitstream.BitReader.Left | mcu/include/bitstream.h:67-70 | the number of bits still to be read |
| Bitstream.BitReader.GetPos | mcu/include/bitstream.h:90-93 | the number of bits read so far |
| Bitstream.PushBits | mcu/include/bitstream.h:287-310 | shifting the cache and or-ing in a masked value appends its bits |
| Bitstream.SplitRead | mcu/include/bitstream.h:27-45 | two partial reads or-ed together are the number of all the bits, missing ones counted as zeros |
| Bitstream.BitWriter.Put | mcu/include/bitstream.h:287-310 | an error exactly when a full cache finds fewer than four bytes of room; otherwise `n` more bits, and these are the low `n` bits behind all earlier ones if and only if the cache was not full or the bits above `n` change nothing in it |
| Bitstream.WideValueSpills | mcu/include/bitstream.h:287-310 | the value 2 put as one bit on a full cache, which changes an earlier bit |
| Bitstream.BitWriter.FlushCache | mcu/include/bitstream.h:229-270 | whole cached bytes move to the buffer; nothing written so far changes, nor any byte behind |
| Bitstream.BitWriter.Align | mcu/include/bitstream.h:272-285 | zero bits up to the next byte boundary |
| Bitstream.BitWriter.Flush | mcu/include/bitstream.h:222-227 | everything written so far, padded with zeros, in the least number of bytes, or an error exactly when they do not fit |
| Bitstream.FieldsRoundTrip | mcu/include/bitstream.h:27-45 | reading the widths of any list of fields from their bits gives their values |
| Bitstream.PutAll | mcu/include/bitstream.h:287-310 | fields that fit the buffer are all written, in order, without an error |
| Bitstream.GetAll | mcu/include/bitstream.h:27-45 | successive reads deliver what the bits say |
| Bitstream.WriteThenRead | mcu/include/bitstream.h:222-310 | put all, flush, get all: the same values back from ceil(bits/8) bytes, nothing behind them touched |
| Vlc.DecodeMeaning | mcu/include/bitstream.h:359-379 | a value is found exactly when some beginning of the stream is a code; otherwise the bits left every code's path, or ran out on one |
| Vlc.CodeDecodes | mcu/include/bitstream.h:359-379 | for prefix-free codes a stream that starts with a code yields its value and uses exactly the code |
| Vlc.VlcDecoder.AddValue | mcu/include/bitstream.h:330-357 | the trie then stands for the old table with this code added or replaced |
| Vlc.VlcDecoder.Decode | mcu/include/bitstream.h:359-379 | the trie walk gives what the table of codes gives and leaves the reader just behind the bits used |
| Vlc.EveryCodeDecodes | mcu/include/bitstream.h:330-379 | after any order of `AddValue` for a prefix-free list, each code decodes to its value, whatever follows |
| Vlc.CountZeros | mcu/include/bitstream.h:399-405 | the leading zeros of any stream are counted and the one behind them is used up, or the end of the stream is reported |
| Vlc.DecodeGolomb | mcu/include/bitstream.h:399-411 | for every stream: leading zeros give the width, the bits after the one the offset; 31 zeros or more are too wide; an offset cut off by the end is reported if and only if the buffer is used up by then |
| Vlc.GolombRoundTrip | mcu/include/bitstream.h:399-411 | every code number below 2^31-1 is read back from its H.264 code and nothing after it is touched |
| FecCode.XorAllCancel | cca/fecdecoder.cpp:208-232 | combining with the same packets twice cancels, in every header field and byte |
| FecCode.ParityRecovers | cca/fecdecoder.cpp:208-232 | the parity of a group combined with all members but one leaves that member |
| Fec.WindowHolds | cca/fecdecoder.cpp:79-92 | after every media packet the buffered numbers lie within 63 of the newest |
| Fec.WindowContents | cca/fecdecoder.cpp:79-92 | exactly which packets are buffered after an arrival, the empty window below number 63 included |
| Fec.EarlyPacketLost | cca/fecdecoder.cpp:79-92 | a first packet numbered 62 is dropped at once |
| Fec.CodesContents | cca/fecdecoder.cpp:58-102 | the FEC packets on file after an arrival are exactly the known and the new ones whose base is within the window |
| Fec.TestMeansPresent | cca/fecdecoder.cpp:180-188 | the mask test passes if and only if every other protected packet is buffered, and visible to a 32-bit `get8` |
| Fec.ParityRebuilds | cca/fecdecoder.cpp:190-232 | with a true parity and true group members the combined fields are those of the missing packet |
| FecDecoder.FecDecoder.AddPacket | cca/fecdecoder.cpp:30-106 | media enters the window, its FEC data is filed, what is older than the window goes; a bare FEC packet evicts nothing |
| FecDecoder.FecDecoder.Evict | cca/fecdecoder.cpp:82-102 | both deletion loops leave exactly the entries from the threshold on |
| FecDecoder.FecDecoder.Scan | cca/fecdecoder.cpp:123-154 | the mask has a one exactly for each buffered number and the list is exactly the gaps |
| FecDecoder.FecDecoder.Test | cca/fecdecoder.cpp:180-188 | the mask arithmetic decides whether the rest of the group is buffered |
| FecDecoder.FecDecoder.CombineMask | cca/fecdecoder.cpp:205-232 | the bit loop combines exactly the packets the mask names, in fields, flags and bytes |
| FecDecoder.FecDecoder.Rebuild | cca/fecdecoder.cpp:190-246 | the new packet has the combined marker, type, timestamp, flags and payload, the lost number without cycles, the first buffered source |
| FecDecoder.FecDecoder.TryCode | cca/fecdecoder.cpp:170-255 | one FEC packet for one gap: filled, not applicable, or outside what the code defines |
| FecDecoder.FecDecoder.Recover | cca/fecdecoder.cpp:108-259 | the first gap and the first FEC packet that can do anything decide: the gap is filled and the packet refiled, or what follows is left open by C; nothing is reported if and only if no gap can be filled |
| FecDecoder.RecoveryIsExact | cca/fecdecoder.cpp:163-255 | the packet made has the marker, type, timestamp, length and payload of the lost one |
| FecSender.HeaderReads | cca/fecdecoder.h:33-91 | from the bits of sections 7.3 and 7.4 of RFC 5109, with either mask, the accessors read back flags, type, base, timestamp, length, protection length, mask and parity as they were written |
| FecSender.SenderHeader | cca/fecdecoder.h:33-91 | the header of a FEC packet made as the exclusive-or of the protected bits carries the combined fields and flags of the packets named |
| FecSender.SenderMakes | cca/fecdecoder.h:33-91 | what the decoder reads from the bytes a sender makes is the parity of the packets named, in any cycle |
| FecSender.SentIsGenuine | cca/fecdecoder.cpp:58-102 | so a run whose FEC packets come from a sender is one of those `FecDecoder.ReceiveAll` speaks of |
| FecSender.SentComesBack | cca/fecdecoder.cpp:163-255 | with the bytes a sender makes for a first-cycle group, the packet made has the marker, type, timestamp, length and payload of the lost one |
| FecSender.UnflaggedStays | cca/fecdecoder.cpp:49-88 | whatever arrives, no packet is kept with a flag |
| FecSender.FlagsExactly | cca/fecdecoder.cpp:190-246 | padding and extension flag are right if and only if an even number of the other packets of the group had them |
| FecSender.SourceLost | cca/fecdecoder.cpp:84-120 | where no packet comes with redundant data, none is kept with its source and none is recovered with it |
| FecDecoder.GapFilled | cca/fecdecoder.cpp:248-250 | a packet put into a gap stays, closes one gap and moves nothing else |
| FecDecoder.Refiled | cca/fecdecoder.cpp:239-250 | a rebuilt packet numbered below 2^16 fills its gap, one above is dropped as too old |
| FecDecoder.ProgressExactly | cca/rtpsession.cpp:1333-1356 | a success closes a gap if and only if the number is below 2^16, and changes nothing otherwise |
| FecDecoder.RecoveredIsTrue | cca/fecdecoder.cpp:163-255 | with true packets buffered and FEC packets that are parities for the gaps they name, what is recovered is what was sent, under its number modulo 2^16, and the buffer stays true |
| FecDecoder.RecoverOne | cca/fecdecoder.cpp:108-259 | one call by a receiver whose FEC packets are parities for the gaps they name: nothing if and only if nothing can be filled, undefined if and only if that comes first, otherwise the packet that was sent; the window stays and no FEC packet is added |
| FecDecoder.StuckNow | cca/rtpsession.cpp:1333-1356 | a success numbered 2^16 or more leaves the buffer as it was and the same FEC packet first in line for the same gap |
| FecDecoder.RecoverAgain | cca/rtpsession.cpp:1333-1356 | from then on each call finds that gap again and changes nothing |
| FecDecoder.AfterNext | cca/rtpsession.cpp:1333-1356 | each success below 2^16 adds one number to those filled, and the FEC packets that can be of use stay on file |
| FecDecoder.RestNotDoomed | cca/rtpsession.cpp:1333-1356 | where nothing is left to fill, no order of filling gaps could have led to one numbered 2^16 or more |
| FecDecoder.RecoverAll | cca/rtpsession.cpp:1331-1356 | the loop hands on only packets that were sent, closes one gap for each, and ends with no gap any FEC packet could fill; it comes to a gap it finds for ever if and only if filling gaps below 2^16 in some order makes one above fillable |
| FecDecoder.Receive | cca/rtpsession.cpp:1325-1356 | one arriving packet, after which the FEC packets on file are parities for the gaps they name: everything handed on was sent, that stays so, and the loop ends as `RecoverAll` says of what has arrived |
| FecDecoder.HonestIsTrue | cca/fecdecoder.cpp:58-102 | FEC packets that are parities of groups in any cycle, none beginning more than 65426 past the newest number, are parities for the gaps they name |
| FecDecoder.HonestArrival | cca/fecdecoder.cpp:30-106 | an arriving packet that was sent, or parity of packets that were sent, leaves buffer and FEC packets so |
| FecDecoder.ReceiveAll | cca/rtpsession.cpp:1325-1356 | a whole run over any number of cycles: every media packet is handed on, and everything handed on was sent |
| FecDecoder.LaterCycleIdle | cca/fecdecoder.cpp:163-188 | a parity of a later cycle names no gap and is never made use of |
| FecDecoder.RecoverableExactly | cca/fecdecoder.cpp:163-188 | some FEC packet can recover a gap if and only if the window begins below 2^16 and the gap lies below 2^16+47 |
| FecDecoder.PastFirstCycle | cca/fecdecoder.cpp:163-188 | whatever FEC packets are on file, nothing is recovered once the window lies above 2^16+45 |
| FecDecoder.FarFromWrap | cca/rtpsession.cpp:1333-1356 | a buffer that does not reach past 2^16, or lies wholly above 2^16+45, has no gap numbered 2^16 or more that a FEC packet names |
| FecDecoder.OutOfReachEnds | cca/rtpsession.cpp:1333-1356 | as long as no FEC packet names a gap numbered 2^16 or more, the loop is not doomed |
| FecDecoder.ReadyAbove | cca/rtpsession.cpp:1333-1356 | one such gap that can be filled at once is enough |
| FecDecoder.LoopNeverEnds | cca/rtpsession.cpp:1333-1356 | a true receiver with packets 65535 and 65537 and the parity of 65535 and 65536: the loop finds 65536 for ever |
| FecDecoder.LoopInput | cca/fecdecoder.h:40-110 | fourteen bytes that are such a parity |
| FecDecoder.NarrowRecoversNothingEarly | cca/tools.h:168-168 | with a 32-bit `get8` no test with another group member passes while the window spans fewer than 33 numbers |
| JitterBuffer.StepOk | mcu/include/rtpbuffer.h:42-224 | every operation keeps the packets in order and not before the expected number |
| JitterBuffer.RtpBuffer.Add | mcu/include/rtpbuffer.h:42-96 | refused when late, refused when present, otherwise buffered, as the step function says |
| JitterBuffer.RtpBuffer.Turn | mcu/include/rtpbuffer.h:125-176 | one stretch of `Wait` under the mutex: stop, deliver the first packet when it is due, or sleep |
| JitterBuffer.RtpBuffer.ClearPackets | mcu/include/rtpbuffer.h:236-244 | every buffered packet is deleted, in order |
| JitterBuffer.RtpBuffer.Reset | mcu/include/rtpbuffer.h:205-224 | nothing buffered, not cancelled, nothing expected |
| JitterBuffer.NothingLost | mcu/include/rtpbuffer.h:42-224 | over every run each packet added was late, a duplicate, delivered, cleared, or is still buffered, and counted once |
| JitterBuffer.NextMeans | mcu/include/rtpbuffer.h:141-149 | the expected number is one past the last delivered since the reset, as a DWORD |
| JitterBuffer.DeliveredInOrder | mcu/include/rtpbuffer.h:113-183 | below 2^32-2 the numbers delivered between resets strictly increase and everything buffered comes after them |
| JitterBuffer.PastIsClosedExactly | mcu/include/rtpbuffer.h:50-61 | after a delivery exactly the numbers up to it are refused as late, if and only if it was below 2^32-2 |
| JitterBuffer.OrderLost | mcu/include/rtpbuffer.h:141-149 | a run that delivers 2^32-2 and then 5 |
| JitterBuffer.HeldMeans | mcu/include/rtpbuffer.h:42-176 | a packet is in the buffer exactly when it was accepted and neither delivered nor cleared since |
| JitterBuffer.AddExactly | mcu/include/rtpbuffer.h:42-96 | over every run: late exactly if not past the last number delivered since the reset (below 2^32-2), a duplicate exactly if its number is held, and otherwise kept |
| JitterBuffer.TurnExactly | mcu/include/rtpbuffer.h:125-183 | a turn stops exactly after `Cancel`, finds nothing exactly when nothing is held, and delivers no other packet than the first |
| JitterBuffer.LeavesExactly | mcu/include/rtpbuffer.h:134-160 | the first packet leaves exactly if nothing was delivered since the reset or 2^32-2 was the last, or its number follows, or its time is up, or on `HurryUp`; otherwise the turn sleeps |
| JitterBuffer.ExpectedLeaves | mcu/include/rtpbuffer.h:140-151 | a held packet one past the last delivered leaves on the next turn, whatever the time |
| JitterBuffer.FlagMeans | mcu/include/rtpbuffer.h:166-203 | packets are hurried exactly when `HurryUp` came after the last time a consumer found the buffer empty |
| JitterBuffer.WaitMeans | mcu/include/rtpbuffer.h:231-234 | the waiting time in force is the last one set |
| JitterBuffer.GapNeedsReason | mcu/include/rtpbuffer.h:140-151 | a number is skipped only when the waiting packet's time is up or on `HurryUp` |
| JitterBuffer.InTimeMeansGapless | mcu/include/rtpbuffer.h:140-151 | in time and unhurried, the delivered numbers are consecutive whatever order the packets came in |
| JitterBuffer.CancelStops | mcu/include/rtpbuffer.h:98-183 | after `Cancel` nothing is delivered until a reset |
| JitterBuffer.ResetRevives | mcu/include/rtpbuffer.h:205-224 | after a reset, whatever the state was, the first packet added is buffered and delivered |
| JitterBuffer.Drains | mcu/include/rtpbuffer.h:125-176 | when everything is overdue or hurried, each turn delivers the next packet until none is left |
| Crc.CrcConcat | mcu/include/crc32calc.h:39-46 | updating with two pieces in turn is updating with both joined |
| Crc.ShiftsLinear | mcu/include/crc32calc.h:23-29 | shifting respects exclusive-or |
| Crc.TableStep | mcu/include/crc32calc.h:42-43 | a table lookup and a byte shift are eight single shifts |
| Crc.Crc32Calc.constructor | mcu/include/crc32calc.h:16-37 | the shared table is filled on first use and left alone afterwards; the checksum starts at 0 |
| Crc.Crc32Calc.FillTable | mcu/include/crc32calc.h:21-31 | entry `i` is `i` shifted eight times |
| Crc.Crc32Calc.Update | mcu/include/crc32calc.h:39-46 | the table-driven loop computes the bit-at-a-time CRC-32 of the bytes, continued from the last one |
| Crc.RegisterDivides | mcu/include/crc32calc.h:42-43 | the register after a message is the whole message, as one number, shifted through at once |
| Crc.Difference | mcu/include/crc32calc.h:39-46 | the checksums of two messages of one length differ by the shifted difference of the messages |
| Crc.BurstFound | mcu/include/crc32calc.h:39-46 | messages that differ only within 32 neighbouring bits have different checksums |
| CrcPolynomial.ShiftsDivide | mcu/include/crc32calc.h:22-29 | shifting is long division: what is left is the remainder by x^32+x^26+x^23+x^22+x^16+x^12+x^11+x^10+x^8+x^7+x^5+x^4+x^2+x+1 |
| CrcPolynomial.ChecksumIsRemainder | mcu/include/crc32calc.h:39-46 | a DWORD is the checksum of a message if and only if its bits, lowest first, are the remainder, turned over, of the message's bits and 32 zeros with the first 32 turned over |
| CrcPolynomial.CheckValue | mcu/include/crc32calc.h:39-46 | the digits 1 to 9 have the checksum CBF43926 |
| Stun.TypeFieldParts | cca/stunmessage.cpp:70-72 | which method and which class the parser reads from a written type field |
| Stun.ClassSurvivesExactly | cca/stunmessage.cpp:67-72 | the class is read back if and only if its low bit equals bit 10 of the method |
| Stun.IndicationLost | cca/stunmessage.cpp:67-72 | a Binding Indication is read as a Binding Request |
| Stun.ParsesBack | cca/stunmessage.cpp:97-113 | attributes lying one after the other on 32-bit boundaries are read back as exactly that list, less a last one without a value |
| Stun.EmptyAttributeLost | cca/stunmessage.cpp:97-113 | a header and one attribute without a value, 24 bytes in all, parse to no attributes |
| Stun.NarrowSame | cca/tools.h:165-165 | a `get2` with a BYTE index reads the same attributes from messages of up to 260 bytes |
| Stun.NarrowWraps | cca/tools.h:165-165 | beyond, the attribute at 256 is given the type and length found in the header |
| Stun.StunMessage.Parse | cca/stunmessage.cpp:34-116 | the header checks and the attribute loop, stopping at the first attribute that does not fit, with full-width or BYTE indices |
| Stun.StunMessage.GetSize | mcu/src/stunmessage.cpp:330-342 | the padded attributes, the header and both added attributes |
| Stun.StunMessage.WriteAttributes | mcu/src/stunmessage.cpp:280-294 | each attribute on the next 32-bit boundary; padding and everything behind keep their old bytes |
| Stun.StunMessage.WriteIntegrity | mcu/src/stunmessage.cpp:296-313 | the HMAC of what was written so far under a length without the fingerprint, and the full length restored |
| Stun.StunMessage.WriteFingerprint | mcu/src/stunmessage.cpp:315-324 | the disguised CRC-32 of everything before it |
| Stun.StunMessage.AuthenticatedFingerPrint | mcu/src/stunmessage.cpp:247-328 | refused if and only if the buffer is smaller than the size modulo 2^16; otherwise exactly `GetSize` bytes forming the authenticated message and nothing behind them touched, if and only if the size is below 65536 or the buffer holds it |
| Stun.CheckPassedWrongly | mcu/src/stunmessage.cpp:249-255 | one attribute of 65535 bytes makes 65592 bytes, and the check asks for 56 |
| Stun.RoundTrip | cca/stunmessage.cpp:34-116 | parsing an authenticated message gives back method, transaction and attributes followed by MESSAGE-INTEGRITY and FINGERPRINT, and the class exactly under the condition above; with BYTE indices, up to 260 bytes |
| StunChecked.ScanExactly | mcu/src/stunmessage.cpp:99-168 | the attribute loop reaches the end of the message with a list if and only if these attributes fill the message in an order it lets through |
| StunChecked.TakenExactly | mcu/src/stunmessage.cpp:46-193 | a message is taken, as what it says, if and only if its header is right, its attributes fill it, FINGERPRINT comes last, MESSAGE-INTEGRITY before nothing else, and the FINGERPRINT is the CRC-32 of everything before it |
| StunChecked.OpenExactly | mcu/src/stunmessage.cpp:169-190 | four bytes are read behind the message if and only if all else is well-formed and the FINGERPRINT has no value |
| StunChecked.ClassSurvives | mcu/src/stunmessage.cpp:76-76 | this parser reads every class back |
| StunChecked.RoundTripChecked | mcu/src/stunmessage.cpp:46-328 | what `AuthenticatedFingerPrint` wrote is taken, as the whole message with the two added attributes, if and only if neither was among its attributes; otherwise it is discarded |
| StunChecked.DamageFound | mcu/src/stunmessage.cpp:169-190 | of two messages that end in the same FINGERPRINT and differ before it within 32 neighbouring bits, at most one is taken with that FINGERPRINT |
| StunChecked.CheckMark | mcu/src/stunmessage.cpp:174-189 | the announced checksum against the computed one |
| StunChecked.ReadAttributes | mcu/src/stunmessage.cpp:99-159 | the loop with its three reasons to discard a message |
| StunChecked.Parse | mcu/src/stunmessage.cpp:46-193 | the verdict and the message object are those of the parsing function, and the data is not touched |
| StunWire.TypeLaidOut | mcu/src/stunmessage.cpp:256-270 | the type field is two zeros, M11 to M7, C1, M6 to M4, C0, M3 to M0 |
| StunWire.HeaderBytes | mcu/src/stunmessage.cpp:256-278 | type field, length without the header, 21 12 A4 42, transaction |
| StunWire.IntegrityBytes | mcu/src/stunmessage.cpp:296-313 | 00 08 00 14 and the HMAC of everything before under a length that counts up to the end of this attribute |
| StunWire.FingerprintBytes | mcu/src/stunmessage.cpp:315-324 | 80 28 00 04 and the remainder by the CRC polynomial of everything before, combined with 5354554E |

## Left out

- AMF references, strict arrays and typed objects (markers 0x07, 0x0A, 0x10): their parsers have no counterpart or call themselves; the machine reports them as not modelled. What follows such a marker can depend on where the chunk ends: a strict array without elements reads on to the end of the chunk its count ended in.
- AmfMachine.CutAnywhere: says nothing about what follows a marker 0x07, 0x0A or 0x10, for that reason.
- U29 numbers and the write side of long strings and dates: no serializer exists.
- A first `Parse` call with an empty buffer, for which the AMF parser reads past its input.
- The BYTE indices of `set2` and `set4` in cca/tools.h: what that copy of `AuthenticatedFingerPrint` writes for messages of more than 256 bytes.
- `STUNMessage::NonAuthenticatedFingerPrint`, which writes header and attributes alone.
- `STUNMessage` attributes with a size and no data, whose bytes the C++ code leaves as they were; the convenience methods that build addresses and user names.
- The CSRC count of FEC packets, which the source computes and does not use.
- The unlocked writes of `HurryUp` and `SetMaxWaitTime`: they are single steps; the race between the flag and the sleep in `Wait` is not modelled, nor are the signals.
- The mapping of payload types to codecs and the sequence-cycle extension around the recovery loop of `ReadRTP`.
- The second overload of `BitWritter::Put`, `BitReader::Check` and `ExpGolombDecoder::DecodeSE`.
- The ring buffer (mcu/include/fifo.h), the sliding-window accumulator (mcu/include/acumulator.h), base64 (mcu/include/tools.h), TMMBR and REMB mantissas (mcu/include/rtp.h) and the mosaic geometry (mcu/src/asymmetricmosaic.cpp): self-contained, and easier than what is here.
- RTP and RTCP packet parsing, congestion control, sockets, encryption, codecs and everything around them.
- JitterBuffer.DeliveredInOrder: asks for numbers below 2^32-2; beyond, order is lost as `JitterBuffer.OrderLost` shows.
- AmfWriter.Write: asks for room for everything announced; a key listed twice makes the source write past the size it checked.
- AmfStream.ChunkingIrrelevant: says nothing about what follows such a marker; `AmfStream.ReadUpToForeign` says that everything before it is read as ever.
- FecDecoder.RecoverAll: where C leaves the outcome open (`Open`), nothing is said of what the source does next.
- Stun.StunMessage.AuthenticatedFingerPrint: what is overwritten behind a buffer that is too small (`PastTheEnd`) is not modelled.
