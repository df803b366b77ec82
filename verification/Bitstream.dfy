/**
  `BitReader` and `BitWritter` (mcu/include/bitstream.h): a 32-bit cache in front of a byte buffer.
  A DWORD is a natural number below 2^32; shifts are quotients and products by powers of two.
  */
module Bitstream {
  import opened Arith
  import opened BitStrings
  import opened Buffers
  import opened Wrappers
  import opened Sequences

  /** `v << n` in a word of `word` bits. */
  function Shl(v: nat, n: nat, word: nat): nat {
    v * Pow2(n) % Pow2(word)
  }

  // ---------- the cache of the reader: `cached` bits at the top of a word, zeros below ----------

  ghost predicate TopAligned(cache: nat, cached: nat, word: nat) {
    cached <= word && cache < Pow2(word) && cache == Shr(cache, word - cached) * Pow2(word - cached)
  }

  ghost function CacheBits(cache: nat, cached: nat, word: nat): seq<bool>
    requires cached <= word
  {
    Bits(Shr(cache, word - cached), cached)
  }

  /** `cache >> (32-n)` for `n <= cached` is the number made of the next `n` bits. */
  lemma TopBits(cache: nat, cached: nat, n: nat, word: nat)
    requires TopAligned(cache, cached, word) && n <= cached
    ensures Shr(cache, word - n) == Shr(Shr(cache, word - cached), cached - n) < Pow2(n)
  {
    ShrShr(cache, word - cached, cached - n);
    ShrBound(cache, word - n, n);
  }

  lemma TopSplit(cache: nat, cached: nat, n: nat, word: nat)
    requires TopAligned(cache, cached, word) && n <= cached
    ensures CacheBits(cache, cached, word)
         == Bits(Shr(cache, word - n), n) + Bits(Shr(cache, word - cached), cached - n)
  {
    TopBits(cache, cached, n, word);
    BitsSplit(Shr(cache, word - cached), n, cached - n);
  }

  /** `cache << n`: the next `n` bits are gone, the rest moves up. */
  lemma ShiftedCache(cache: nat, cached: nat, n: nat, word: nat)
    requires TopAligned(cache, cached, word) && n <= cached
    ensures TopAligned(Shl(cache, n, word), cached - n, word)
    ensures CacheBits(Shl(cache, n, word), cached - n, word) == Bits(Shr(cache, word - cached), cached - n)
  {
    var top, left := Shr(cache, word - cached), cached - n;
    var w := Pow2(word - left);
    Pow2Add(word - cached, n);
    MulThree(top, Pow2(word - cached), Pow2(n));
    assert cache * Pow2(n) == top * w;
    Pow2Add(left, word - left);
    DivModUnique(top * w, w, top, 0);
    SplitMod(top * w, Pow2(left), w);
    DivModUnique(top % Pow2(left) * w, w, top % Pow2(left), 0);
    BitsMod(top, left);
  }

  /** A word loaded with `n` bits at its top. */
  lemma LoadedCache(v: nat, n: nat, word: nat)
    requires n <= word && v < Pow2(n)
    ensures TopAligned(v * Pow2(word - n), n, word)
    ensures CacheBits(v * Pow2(word - n), n, word) == Bits(v, n)
  {
    var p := Pow2(word - n);
    DivModUnique(v * p, p, v, 0);
    Pow2Add(n, word - n);
    assert (Pow2(n) - v) * p > 0 by { MulMono(1, Pow2(n) - v, p); }
    assert v * p < Pow2(n) * p by { assert Pow2(n) * p - v * p == (Pow2(n) - v) * p; }
  }

  /** `cache >> (32-n)` when fewer than `n` bits are cached: those bits, with zeros for the missing ones. */
  lemma ShortTop(cache: nat, cached: nat, n: nat, word: nat)
    requires TopAligned(cache, cached, word) && cached <= n <= word
    ensures Shr(cache, word - n) == Shr(cache, word - cached) * Pow2(n - cached)
  {
    var top := Shr(cache, word - cached);
    Pow2Add(n - cached, word - n);
    MulThree(top, Pow2(n - cached), Pow2(word - n));
    DivModUnique(cache, Pow2(word - n), top * Pow2(n - cached), 0);
  }

  /** Reading `n` bits at the top of the cache, and moving past them. */
  lemma CacheTake(cache: nat, cached: nat, n: nat, word: nat)
    requires TopAligned(cache, cached, word) && n <= cached
    ensures Shr(cache, word - n) == Val(CacheBits(cache, cached, word)[..n]) < Pow2(n)
    ensures TopAligned(Shl(cache, n, word), cached - n, word)
    ensures CacheBits(Shl(cache, n, word), cached - n, word) == CacheBits(cache, cached, word)[n..]
  {
    var v := Shr(cache, word - n);
    TopBits(cache, cached, n, word);
    TopSplit(cache, cached, n, word);
    ShiftedCache(cache, cached, n, word);
    ValBits(v, n);
    DivModUnique(v, Pow2(n), 0, v);
    Halves(Bits(v, n), Bits(Shr(cache, word - cached), cached - n));
  }

  /** The word loaded from `k` bytes, and the bytes after them. */
  lemma LoadBytes(data: seq<byte>, pos: nat, k: nat, word: nat)
    requires pos + k <= |data| && 8 * k <= word
    ensures var w := FromBytes(data[pos..pos + k]) * Pow2(word - 8 * k);
            && TopAligned(w, 8 * k, word)
            && CacheBits(w, 8 * k, word) + BytesBits(data[pos + k..]) == BytesBits(data[pos..])
  {
    var bytes := data[pos..pos + k];
    FromBytesBits(bytes);
    LoadedCache(FromBytes(bytes), 8 * k, word);
    BytesFrom(data, pos, k);
  }

  lemma BytesFrom(data: seq<byte>, pos: nat, k: nat)
    requires pos + k <= |data|
    ensures BytesBits(data[pos..]) == BytesBits(data[pos..pos + k]) + BytesBits(data[pos + k..])
  {
    BytesBitsConcat(data[pos..pos + k], data[pos + k..]);
    SliceAndRest(data, pos, k);
  }

  /** The number made of the first `n` bits, with zeros for those that are missing. */
  ghost function Leading(bits: seq<bool>, n: nat): (v: nat)
    ensures v < Pow2(n)
  {
    LeadingBound(bits, n);
    if n <= |bits| then Val(bits[..n]) else Val(bits) * Pow2(n - |bits|)
  }

  lemma LeadingBound(bits: seq<bool>, n: nat)
    ensures n <= |bits| ==> Val(bits[..n]) < Pow2(n)
    ensures n > |bits| ==> Val(bits) * Pow2(n - |bits|) < Pow2(n)
  {
    if n <= |bits| {
      BitsVal(bits[..n]);
    } else {
      BitsVal(bits);
      Pow2Add(|bits|, n - |bits|);
      ProductBelow(Val(bits), Pow2(|bits|), Pow2(n - |bits|));
    }
  }

  lemma ProductBelow(v: nat, p: nat, q: nat)
    requires v < p && q > 0
    ensures 0 <= v * q < p * q
  {
    MulMono(v + 1, p, q);
    MulMono(0, v, q);
    assert (v + 1) * q == v * q + q;
  }

  /** `cache >> (32-n)` and `cache << n` with `n` bits cached, in front of the bits still in the buffer. */
  lemma FrontTaken(cache: nat, cached: nat, n: nat, word: nat, tail: seq<bool>)
    requires TopAligned(cache, cached, word) && n <= cached
    ensures Shr(cache, word - n) == Leading(CacheBits(cache, cached, word) + tail, n)
    ensures TopAligned(Shl(cache, n, word), cached - n, word)
    ensures CacheBits(Shl(cache, n, word), cached - n, word) + tail == (CacheBits(cache, cached, word) + tail)[n..]
  {
    CacheTake(cache, cached, n, word);
    InFirst(CacheBits(cache, cached, word), tail, n);
  }

  /** `cache >> (32-n)` with fewer than `n` bits cached. */
  lemma FrontShort(cache: nat, cached: nat, n: nat, word: nat)
    requires TopAligned(cache, cached, word) && cached <= n <= word
    ensures Shr(cache, word - n) == Val(CacheBits(cache, cached, word)) * Pow2(n - cached)
  {
    ShortTop(cache, cached, n, word);
    CacheTake(cache, cached, cached, word);
    Whole(CacheBits(cache, cached, word));
  }

  lemma FrontOrAll(cache: nat, cached: nat, n: nat, word: nat, tail: seq<bool>)
    requires TopAligned(cache, cached, word) && n <= word && (n > cached ==> tail == [])
    ensures Shr(cache, word - n) == Leading(CacheBits(cache, cached, word) + tail, n)
  {
    if n <= cached {
      FrontTaken(cache, cached, n, word, tail);
    } else {
      FrontShort(cache, cached, n, word);
      AddNothing(CacheBits(cache, cached, word), tail);
    }
  }

  /** `cached -= n` on a BYTE. */
  lemma ByteCount(cached: nat, n: nat)
    requires cached < 256 && n < 256
    ensures (cached + 256 - n) % 256 == if n <= cached then cached - n else cached + 256 - n
  {
  }

  const WORD: nat := 32

  class BitReader {
    const data: seq<byte>
    var bufferPos: nat   // `buffer` points at data[bufferPos]
    var bufferLen: nat
    var cache: nat
    var cached: nat      // a BYTE

    ghost predicate Valid()
      reads this
    {
      bufferPos + bufferLen == |data| && cached <= 8 * bufferPos && TopAligned(cache, cached, WORD)
    }

    /** The bits still to be read. */
    ghost function Rest(): (b: seq<bool>)
      reads this
      requires Valid()
      ensures |b| == cached + 8 * bufferLen
    {
      CacheBits(cache, cached, WORD) + BytesBits(data[bufferPos..])
    }

    constructor (data: seq<byte>)
      ensures Valid() && Rest() == BytesBits(data) && this.data == data && cached == 0 && bufferLen == |data|
    {
      this.data := data;
      bufferPos := 0;
      bufferLen := |data|;
      cache := 0;
      cached := 0;
      new;
      LoadedCache(0, 0, WORD);
      assert data[0..] == data;
    }

    method Left() returns (n: nat)
      ensures n == cached + 8 * bufferLen && (Valid() ==> n == |Rest()|)
    {
      n := cached + bufferLen * 8;
    }

    /** The number of bits read so far. */
    method GetPos() returns (n: nat)
      requires Valid()
      ensures n == 8 * |data| - |Rest()|
    {
      n := bufferPos * 8 - cached;
    }

    /** `get4`, `get3<<8`, `get2<<16` or `get1<<24` of the next `k` bytes. */
    function Word(k: nat): nat
      reads this
      requires Valid() && k <= bufferLen && k <= 4
    {
      FromBytes(data[bufferPos..bufferPos + k]) * Pow2(WORD - 8 * k)
    }

    /** The number of bytes the next load takes. */
    function Chunk(): nat
      reads this
    {
      if bufferLen > 3 then 4 else bufferLen
    }

    lemma LoadedWord(k: nat)
      requires Valid() && k <= bufferLen && k <= 4
      ensures TopAligned(Word(k), 8 * k, WORD)
      ensures CacheBits(Word(k), 8 * k, WORD) + BytesBits(data[bufferPos + k..]) == Rest()[cached..]
    {
      LoadBytes(data, bufferPos, k, WORD);
    }

    method Load(k: nat)
      requires Valid() && k <= bufferLen && k <= 4
      modifies this
      ensures Valid() && cached == 8 * k && cache == old(Word(k)) && bufferLen == old(bufferLen) - k
      ensures Rest() == old(Rest())[old(cached)..]
    {
      LoadedWord(k);
      cache := Word(k);
      cached := 8 * k;
      bufferPos := bufferPos + k;
      bufferLen := bufferLen - k;
    }

    /** Loads the next word, dropping what the cache still held; an exception if the buffer is empty. */
    method Cache() returns (ok: bool)
      requires Valid()
      modifies this
      ensures Valid() && ok == (old(bufferLen) > 0)
      ensures !ok ==> unchanged(this)
      ensures ok ==> cached == 8 * old(Chunk()) && cache == old(Word(Chunk())) && bufferLen == old(bufferLen - Chunk())
      ensures ok ==> Rest() == old(Rest())[old(cached)..]
    {
      if bufferLen == 0 {
        return false;
      }
      Load(Chunk());
      ok := true;
    }

    /** Moves past `n` cached bits; the count is a BYTE and wraps if there are fewer. */
    method SkipCached(n: nat)
      requires Valid() && n < WORD
      modifies this`cache, this`cached
      ensures n <= old(cached) ==> Valid() && Rest() == old(Rest())[n..] && cached == old(cached) - n
      ensures n > old(cached) ==> cached == old(cached) + 256 - n
    {
      if n <= cached {
        FrontTaken(cache, cached, n, WORD, BytesBits(data[bufferPos..]));
      }
      ByteCount(cached, n);
      cache := Shl(cache, n, WORD);
      cached := (cached + 256 - n) % 256;
    }

    /** `cache >> (32-n)`: the next `n` bits as a number, with zeros for those that are not cached. */
    method Top(n: nat) returns (ret: nat)
      requires Valid() && n < WORD
      ensures n <= cached || bufferLen == 0 ==> ret == Leading(Rest(), n)
      ensures n > cached ==> ret == Val(Rest()[..cached]) * Pow2(n - cached)
    {
      ret := Shr(cache, WORD - n);
      if n <= cached {
        FrontTaken(cache, cached, n, WORD, BytesBits(data[bufferPos..]));
      } else {
        FrontShort(cache, cached, n, WORD);
        Cached();
      }
    }

    /** The next `n` cached bits as a number, and past them. */
    method GetCached(n: nat) returns (ret: nat)
      requires Valid() && n < WORD
      modifies this`cache, this`cached
      ensures n <= old(cached) ==> Valid() && Rest() == old(Rest())[n..] && cached == old(cached) - n
      ensures n > old(cached) ==> cached == old(cached) + 256 - n
      ensures n <= old(cached) || bufferLen == 0 ==> ret == Leading(old(Rest()), n)
    {
      ret := Top(n);
      SkipCached(n);
    }

    /** `PeekNextCached`: the word the next load would bring, or an exception. */
    method PeekNextCached() returns (w: Option<nat>)
      requires Valid()
      ensures w == if bufferLen == 0 then None else Some(Word(Chunk()))
    {
      w := if bufferLen == 0 then None else Some(Word(Chunk()));
    }

    /** The reader notices the end of the stream: the bits are there, or the buffer is empty and the read refused. */
    ghost predicate Readable(n: nat)
      reads this
      requires Valid()
    {
      n <= |Rest()| || bufferLen == 0
    }

    /**
      `Get`: the next `n` bits, most significant first, or an exception at the end of the stream.  With some bits left
      but fewer than `n`, and bytes still in the buffer, there is no exception: the number is filled up with zeros and
      the count of cached bits wraps.  The reader is no longer valid and `Left` reports more than there was.
      */
    method Get(n: nat) returns (r: Option<nat>)
      requires Valid() && n < WORD
      modifies this
      ensures Valid() <==> old(Readable(n))
      ensures r.None? <==> n > |old(Rest())| && old(bufferLen) == 0
      ensures r.None? ==> unchanged(this)
      ensures r.Some? ==> r.value == Leading(old(Rest()), n)
      ensures n <= |old(Rest())| ==> Rest() == old(Rest())[n..]
      ensures bufferLen == old(if n > cached then bufferLen - Chunk() else bufferLen)
      ensures !old(Readable(n)) ==> cached + 8 * bufferLen == 256 + |old(Rest())| - n
    {
      if n > cached {
        r := GetAcross(n);
      } else {
        var ret := GetCached(n);
        r := Some(ret);
      }
    }

    /** The bits left in the cache, then the first bits of the next word. */
    method GetAcross(n: nat) returns (r: Option<nat>)
      requires Valid() && cached < n < WORD
      modifies this
      ensures Valid() <==> old(Readable(n))
      ensures r.None? <==> old(bufferLen) == 0
      ensures r.None? ==> unchanged(this)
      ensures r.Some? ==> r.value == Leading(old(Rest()), n)
      ensures n <= |old(Rest())| ==> Rest() == old(Rest())[n..]
      ensures bufferLen == old(bufferLen - Chunk())
      ensures !old(Readable(n)) ==> cached + 8 * bufferLen == 256 + |old(Rest())| - n
    {
      var a := n - cached;
      var ret := Top(n);
      ghost var rest, m := Rest(), cached;
      var tail := CacheAndGet(n, a);
      if tail.None? {
        return None;
      }
      SplitRead(rest, m, a, n);
      r := Some(BitOr(ret, tail.value));
    }

    /** `Cache` and `GetCached`. */
    method CacheAndGet(n: nat, a: nat) returns (r: Option<nat>)
      requires Valid() && a < WORD && n == cached + a
      modifies this
      ensures r.None? <==> old(bufferLen) == 0
      ensures r.None? ==> unchanged(this)
      ensures bufferLen == old(bufferLen - Chunk())
      ensures r.Some? ==> r.value == Leading(old(Rest())[old(cached)..], a)
      ensures r.Some? ==> (Valid() <==> n <= |old(Rest())|)
      ensures r.Some? && n <= |old(Rest())| ==> Rest() == old(Rest())[n..]
      ensures r.Some? && n > |old(Rest())| ==> cached + 8 * bufferLen == 256 + |old(Rest())| - n
    {
      if n <= |Rest()| {
        SliceJoin(Rest(), cached, a);
      }
      var ok := Cache();
      if !ok {
        return None;
      }
      var tail := GetCached(a);
      r := Some(tail);
    }

    /** `Skip`: as `Get`, without the number. */
    method Skip(n: nat) returns (ok: bool)
      requires Valid() && n < WORD
      modifies this
      ensures Valid() <==> old(Readable(n))
      ensures !ok <==> n > |old(Rest())| && old(bufferLen) == 0
      ensures !ok ==> unchanged(this)
      ensures n <= |old(Rest())| ==> Rest() == old(Rest())[n..]
      ensures !old(Readable(n)) ==> cached + 8 * bufferLen == 256 + |old(Rest())| - n
    {
      if n > cached {
        var a := n - cached;
        ghost var rest, m := Rest(), cached;
        ok := Cache();
        if ok {
          SkipCached(a);
          if m + a <= |rest| {
            SliceJoin(rest, m, a);
          }
        }
      } else {
        SkipCached(n);
        ok := true;
      }
    }

    /** `Peek`: the number `Get` would return, with nothing read. */
    method Peek(n: nat) returns (r: Option<nat>)
      requires Valid() && n < WORD
      ensures r == if Refused(n) then None else Some(Leading(Rest(), n))
    {
      if n > cached {
        var a := n - cached;
        var ret := Top(n);
        var next := PeekNextCached();
        if next.None? {
          return None;
        }
        Upcoming(n, a);
        r := Some(BitOr(ret, Shr(next.value, WORD - a)));
      } else {
        var ret := Top(n);
        r := Some(ret);
      }
    }

    /** The end of the stream is reported. */
    ghost predicate Refused(n: nat)
      reads this
      requires Valid()
    {
      n > |Rest()| && bufferLen == 0
    }

    /** The top `a` bits of the word to come are the bits after the cache, with zeros for those that are missing. */
    lemma NextBits(a: nat)
      requires Valid() && bufferLen > 0 && a <= WORD
      ensures Shr(Word(Chunk()), WORD - a) == Leading(Rest()[cached..], a)
    {
      var k := Chunk();
      LoadedWord(k);
      FrontOrAll(Word(k), 8 * k, a, WORD, BytesBits(data[bufferPos + k..]));
    }

    lemma Upcoming(n: nat, a: nat)
      requires Valid() && bufferLen > 0 && n == cached + a && a <= WORD
      ensures BitOr(Val(Rest()[..cached]) * Pow2(a), Shr(Word(Chunk()), WORD - a)) == Leading(Rest(), n)
    {
      NextBits(a);
      SplitRead(Rest(), cached, a, n);
    }

    lemma Cached()
      requires Valid()
      ensures Rest()[..cached] == CacheBits(cache, cached, WORD)
      ensures bufferLen == 0 ==> Rest() == CacheBits(cache, cached, WORD)
    {
      Halves(CacheBits(cache, cached, WORD), BytesBits(data[bufferPos..]));
    }
  }

  /** Nine bits of a one-byte buffer: no exception, the byte with a zero behind it, and then 255 bits "left". */
  method NineOfEight(bytes: seq<byte>) returns (r: Option<nat>, left: nat)
    requires |bytes| == 1
    ensures r == Some(2 * FromBytes(bytes)) && left == 255
  {
    var reader := new BitReader(bytes);
    var n := 9;
    OneByte(bytes, n);
    r := reader.Get(n);
    left := reader.Left();
  }

  lemma OneByte(s: seq<byte>, n: nat)
    requires |s| == 1 && n == 9
    ensures Leading(BytesBits(s), n) == 2 * FromBytes(s)
  {
    ValBytes(s);
  }

  lemma ValBytes(s: seq<byte>)
    ensures Val(BytesBits(s)) == FromBytes(s)
  {
    FromBytesBits(s);
    ValBits(FromBytes(s), 8 * |s|);
    DivModUnique(FromBytes(s), Pow2(8 * |s|), 0, FromBytes(s));
  }

  // ---------- the cache of the writer: the low `cached` bits of a word ----------

  /** `cache << n` keeps the low `word-n` bits of the cache. */
  lemma ShlValue(cache: nat, n: nat, word: nat)
    requires n <= word
    ensures Shl(cache, n, word) == cache % Pow2(word - n) * Pow2(n)
    ensures Shl(cache, n, word) + Pow2(n) <= Pow2(word)
  {
    var w, p := word - n, Pow2(n);
    Pow2Add(w, n);
    SplitMod(cache * p, Pow2(w), p);
    DivModUnique(cache * p, p, cache, 0);
    MulMono(cache % Pow2(w), Pow2(w) - 1, p);
    assert (Pow2(w) - 1) * p == Pow2(w) * p - p;
  }

  /** `(cache << n) | (v & mask)`: `n` bits go in at the bottom. */
  lemma PushBits(cache: nat, cached: nat, v: nat, n: nat, word: nat)
    requires cached + n <= word
    ensures var c := BitOr(Shl(cache, n, word), v % Pow2(n));
            && c < Pow2(word)
            && Bits(c, cached + n) == Bits(cache, cached) + Bits(v, n)
  {
    var hi := cache % Pow2(word - n);
    ShlValue(cache, n, word);
    BitOrJoin(hi, v % Pow2(n), n);
    BitsJoin(hi, v % Pow2(n), cached, n);
    BitsMod(v, n);
    LowBits(cache, word - n, cached);
  }

  /** Bits above `m` do not matter to the low `m` bits. */
  lemma LowBits(v: nat, w: nat, m: nat)
    requires m <= w
    ensures Bits(v % Pow2(w), m) == Bits(v, m)
  {
    BitsMod(v, w);
    BitsSplit(v, w - m, m);
    BitsSplit(v % Pow2(w), w - m, m);
    Halves(Bits(Shr(v, m), w - m), Bits(v, m));
    Halves(Bits(Shr(v % Pow2(w), m), w - m), Bits(v % Pow2(w), m));
  }

  lemma ValConcat(x: seq<bool>, y: seq<bool>)
    ensures Val(x + y) == Val(x) * Pow2(|y|) + Val(y)
  {
    BitsVal(y);
    ValJoin(x, Val(y), |y|);
  }

  /** Bits read in two parts: the number of the first `m` shifted up, or-ed with the number of the next `a`. */
  lemma SplitRead(rest: seq<bool>, m: nat, a: nat, n: nat)
    requires m <= |rest| && n == m + a
    ensures BitOr(Val(rest[..m]) * Pow2(a), Leading(rest[m..], a)) == Leading(rest, n)
  {
    BitOrJoin(Val(rest[..m]), Leading(rest[m..], a), a);
    if m + a <= |rest| {
      SliceJoin(rest, m, a);
      ValConcat(rest[..m], rest[m..][..a]);
    } else {
      Overrun(rest, m, a);
    }
  }

  lemma Overrun(rest: seq<bool>, m: nat, a: nat)
    requires m <= |rest| < m + a
    ensures Val(rest[..m]) * Pow2(a) + Val(rest[m..]) * Pow2(a - |rest[m..]|) == Val(rest) * Pow2(m + a - |rest|)
  {
    var x, y := rest[..m], rest[m..];
    TakeDrop(rest, m);
    ValConcat(x, y);
    Pow2Add(|y|, a - |y|);
    Distribute(Val(x), Pow2(|y|), Val(y), Pow2(a - |y|));
  }

  lemma Distribute(x: nat, p: nat, y: nat, q: nat)
    ensures (x * p + y) * q == x * (p * q) + y * q
  {
    MulThree(x, p, q);
    assert (x * p + y) * q == x * p * q + y * q;
  }

  /** `(v>>b) & (0xFFFFFFFF>>cached)`: the `a` bits of `v` above the low `b`, where `a == 32-cached`. */
  lemma MaskedHigh(v: nat, a: nat, b: nat, cached: nat, word: nat)
    requires a + cached == word
    ensures BitAnd(Shr(v, b), Shr(Pow2(word) - 1, cached)) == Shr(v, b) % Pow2(a)
  {
    ShiftedMask(a, cached);
    BitAndMask(Shr(v, b), a);
  }

  /** With a full cache no bit is taken, whatever the mask. */
  lemma NothingHigh(v: nat, b: nat, mask: nat)
    requires v < Pow2(b)
    ensures BitAnd(Shr(v, b), mask) == Shr(v, b) == 0
  {
    DivModUnique(v, Pow2(b), 0, v);
    BitAndLeftZero(mask);
  }

  lemma SplitPut(w: seq<bool>, w': seq<bool>, v: nat, a: nat, b: nat, n: nat, yes: bool)
    requires n == a + b && |w'| == |w| + a && (w' == w + Bits(Shr(v, b), a) <==> yes)
    ensures w' + Bits(v, b) == w + Bits(v, n) <==> yes
  {
    BitsSplit(v, a, b);
    Assoc(w, Bits(Shr(v, b), a), Bits(v, b));
    Halves(w', Bits(v, b));
    Halves(w + Bits(Shr(v, b), a), Bits(v, b));
  }

  /** A word is its bits. */
  lemma SameWord(c: nat, c': nat, word: nat)
    requires c < Pow2(word) && c' < Pow2(word)
    ensures Bits(c, word) == Bits(c', word) <==> c == c'
  {
    if Bits(c, word) == Bits(c', word) {
      SameNumber(c, c', word);
    }
  }

  /** The `a` bits of `v` above the low `b` fill the cache. */
  lemma OpenCache(front: seq<bool>, cache: nat, cached: nat, low: nat, v: nat, a: nat, b: nat, word: nat)
    requires a + cached == word && low == BitAnd(Shr(v, b), Shr(Pow2(word) - 1, cached))
    ensures var c := BitOr(Shl(cache, a, word), low);
            c < Pow2(word) && front + Bits(c, word) == front + Bits(cache, cached) + Bits(Shr(v, b), a)
  {
    MaskedHigh(v, a, b, cached, word);
    PushBits(cache, cached, Shr(v, b), a, word);
    Assoc(front, Bits(cache, cached), Bits(Shr(v, b), a));
  }

  /** With a full cache no bit is taken from `v`, but the bits above the low `b` are or-ed in. */
  lemma FullCache(front: seq<bool>, cache: nat, low: nat, v: nat, a: nat, b: nat, over: nat, word: nat)
    requires a == 0 && cache < Pow2(word) && v < Pow2(word) && low == BitAnd(Shr(v, b), over)
    ensures var c := BitOr(Shl(cache, a, word), low);
            && c < Pow2(word)
            && (front + Bits(c, word) == front + Bits(cache, word) + Bits(Shr(v, b), a) <==> BitOr(cache, low) == cache)
  {
    assert Pow2(a) == 1;
    DivModUnique(cache, Pow2(word), 0, cache);
    assert Shl(cache, a, word) == cache;
    QuotientAtMost(v, Pow2(b));
    AndAtMost(Shr(v, b), over);
    OrBound(cache, low, word);
    SameWord(BitOr(cache, low), cache, word);
    AddNothing(front + Bits(cache, word), Bits(Shr(v, b), a));
    Halves(front, Bits(BitOr(cache, low), word));
    Halves(front, Bits(cache, word));
  }

  lemma {:induction false} AndAtMost(x: nat, y: nat)
    ensures BitAnd(x, y) <= x
    decreases x + y
  {
    if x != 0 || y != 0 {
      AndAtMost(x / 2, y / 2);
    }
  }

  lemma {:induction false} OrBound(x: nat, y: nat, n: nat)
    requires x < Pow2(n) && y < Pow2(n)
    ensures BitOr(x, y) < Pow2(n)
    decreases n
  {
    if n > 0 && (x != 0 || y != 0) {
      OrBound(x / 2, y / 2, n - 1);
    }
  }

  /** A value of two bits put as one bit: where the machine's shift by 32 leaves all ones, an earlier bit changes. */
  lemma WideValueSpills(w: BitWriter, n: nat, v: nat)
    requires w.Valid() && w.cached == WORD && w.cache % 2 == 0 && w.over % 2 == 1
    requires n == 1 && v == 2
    ensures !w.Appends(n, v)
  {
    assert Pow2(n) == 2 && Shr(v, n) == 1;
  }

  /** The `k` low bytes of the cache stored at `pos`. */
  lemma StoredBits(before: seq<byte>, after: seq<byte>, pos: nat, cache: nat, k: nat)
    requires Placed(before, after, pos, ToBytes(cache, k))
    ensures |after| == |before| && forall i :: pos + k <= i < |before| ==> after[i] == before[i]
    ensures BytesBits(after[..pos + k]) + Bits(cache, 0) == BytesBits(before[..pos]) + Bits(cache, 8 * k)
  {
    var bytes := ToBytes(cache, k);
    ToBytesBits(cache, k);
    BytesBitsConcat(before[..pos], bytes);
    AddNothing(BytesBits(after[..pos + k]), Bits(cache, 0));
  }

  lemma {:induction false} BitAndLeftZero(m: nat)
    ensures BitAnd(0, m) == 0
  {
    if m > 0 {
      BitAndLeftZero(m / 2);
    }
  }

  /** `v & (0xFFFFFFFF>>(32-n))`: the low `n` bits of `v`. */
  lemma MaskedLow(v: nat, n: nat, word: nat)
    requires n <= word
    ensures BitAnd(v, Shr(Pow2(word) - 1, word - n)) == v % Pow2(n) <= v
    ensures Bits(v % Pow2(n), n) == Bits(v, n)
  {
    ShiftedMask(n, word - n);
    BitAndMask(v, n);
    ModAtMost(v, Pow2(n));
    BitsMod(v, n);
  }

  class BitWriter {
    const data: array<byte>
    const size: nat
    var bufferLen: nat   // `buffer` points at data[bufferLen]
    var bufferSize: nat
    var cache: nat
    var cached: nat
    const over: nat      // what `0xFFFFFFFF>>32` yields, which C leaves open

    ghost predicate Valid()
      reads this
    {
      size <= data.Length && bufferLen + bufferSize == size && cached <= WORD && cache < Pow2(WORD)
    }

    /** Everything put so far. */
    ghost function Written(): (b: seq<bool>)
      reads this, data
      requires Valid()
      ensures |b| == 8 * bufferLen + cached
    {
      BytesBits(data[..bufferLen]) + Bits(cache, cached)
    }

    constructor (data: array<byte>, size: nat)
      requires size <= data.Length
      ensures Valid() && Written() == [] && this.data == data && this.size == size
    {
      this.data, this.size := data, size;
      over := *;
      bufferLen, bufferSize := 0, size;
      cache, cached := 0, 0;
    }

    method Reset()
      requires Valid()
      modifies this
      ensures Valid() && Written() == []
    {
      bufferLen := 0;
      bufferSize := size;
      cached := 0;
      cache := 0;
    }

    /** Moves whole cached bytes to the buffer; an exception if they do not fit. */
    method FlushCache() returns (ok: bool)
      requires Valid() && cached % 8 == 0
      modifies this, data
      ensures Valid() && ok == (old(cached) <= 8 * old(bufferSize))
      ensures ok ==> cached == 0 && bufferLen == old(bufferLen) + old(cached) / 8 && Written() == old(Written())
      ensures !ok ==> unchanged(this)
      ensures !ok ==> unchanged(data)
      ensures bufferLen >= old(bufferLen) && forall i :: bufferLen <= i < data.Length ==> data[i] == old(data[i])
    {
      if cached == 0 {
        return true;
      }
      if cached > bufferSize * 8 {
        return false;
      }
      var k := cached / 8;
      Store(k);
      ok := true;
    }

    method Store(k: nat)
      requires Valid() && cached == 8 * k && k <= bufferSize
      modifies this, data
      ensures Valid() && cached == 0 && bufferLen == old(bufferLen) + k && Written() == old(Written())
      ensures forall i :: bufferLen <= i < data.Length ==> data[i] == old(data[i])
    {
      SetBytes(data, bufferLen, cache, k);
      StoredBits(old(data[..]), data[..], bufferLen, cache, k);
      bufferSize := bufferSize - k;
      bufferLen := bufferLen + k;
      cached := 0;
    }

    /** With a full cache, the bits of `v` above the low `n` would go into the word that is already complete. */
    ghost predicate Appends(n: nat, v: nat)
      reads this
      requires Valid()
    {
      cached == WORD ==> BitOr(cache, BitAnd(Shr(v, n), over)) == cache
    }

    /** A value of `n` bits is appended whatever the state. */
    lemma FittingAppends(n: nat, v: nat)
      requires Valid() && v < Pow2(n)
      ensures Appends(n, v)
    {
      NothingHigh(v, n, over);
      BitOrZero(cache);
    }

    /**
      `Put`: appends the low `n` bits of `v`; an exception if a full cache has no room in the buffer.  A value of more
      than `n` bits changes what was put before if the cache is exactly full.
      */
    method Put(n: nat, v: nat) returns (ok: bool)
      requires Valid() && 1 <= n < WORD && v < Pow2(WORD)
      modifies this, data
      ensures Valid() && ok == (n + old(cached) <= WORD || old(bufferSize) >= 4)
      ensures ok ==> |Written()| == |old(Written())| + n
      ensures ok ==> (Written() == old(Written()) + Bits(v, n) <==> old(Appends(n, v)))
      ensures bufferLen >= old(bufferLen) && forall i :: bufferLen <= i < data.Length ==> data[i] == old(data[i])
    {
      if n + cached > WORD {
        ok := PutAcross(n, v);
      } else {
        PutCached(n, v);
        ok := true;
      }
    }

    /** The branch of `Put` that stays in the cache. */
    method PutCached(n: nat, v: nat)
      requires Valid() && n < WORD && n + cached <= WORD
      modifies this`cache, this`cached
      ensures Valid() && cached == old(cached) + n
      ensures Written() == old(Written()) + Bits(v, n)
    {
      var low := LowMask(n, v);
      PushBits(cache, cached, v, n, WORD);
      Assoc(BytesBits(data[..bufferLen]), Bits(cache, cached), Bits(v, n));
      cache := BitOr(Shl(cache, n, WORD), low);
      cached := cached + n;
    }

    /** `v & (0xFFFFFFFF>>(32-n))`. */
    static method LowMask(n: nat, v: nat) returns (low: nat)
      requires n < WORD
      ensures low == v % Pow2(n) <= v && Bits(low, n) == Bits(v, n)
    {
      MaskedLow(v, n, WORD);
      low := BitAnd(v, Shr(Pow2(WORD) - 1, WORD - n));
    }

    method PutAcross(n: nat, v: nat) returns (ok: bool)
      requires Valid() && n < WORD && n + cached > WORD && v < Pow2(WORD)
      modifies this, data
      ensures Valid() && ok == (old(bufferSize) >= 4)
      ensures ok ==> |Written()| == |old(Written())| + n
      ensures ok ==> (Written() == old(Written()) + Bits(v, n) <==> old(Appends(n, v)))
      ensures bufferLen >= old(bufferLen) && forall i :: bufferLen <= i < data.Length ==> data[i] == old(data[i])
    {
      var a := WORD - cached;
      var b := n - a;
      ghost var w, yes := Written(), Appends(n, v);
      FillCache(a, b, v);
      SplitPut(w, Written(), v, a, b, n, yes);
      ok := FlushWord();
      if ok {
        StartCache(b, v);
      }
    }

    method FlushWord() returns (ok: bool)
      requires Valid() && cached == WORD
      modifies this, data
      ensures Valid() && ok == (old(bufferSize) >= 4)
      ensures ok ==> cached == 0 && Written() == old(Written())
      ensures bufferLen >= old(bufferLen) && forall i :: bufferLen <= i < data.Length ==> data[i] == old(data[i])
    {
      ok := FlushCache();
    }

    /** The low `b` bits of the new value start the next word. */
    method StartCache(b: nat, v: nat)
      requires Valid() && cached == 0 && b < WORD && v < Pow2(WORD)
      modifies this`cache, this`cached
      ensures Valid() && Written() == old(Written()) + Bits(v, b)
    {
      AddNothing(BytesBits(data[..bufferLen]), Bits(cache, 0));
      cache := LowMask(b, v);
      cached := b;
    }

    /** The high `a` bits of the new value fill the cache. */
    method FillCache(a: nat, b: nat, v: nat)
      requires Valid() && a + cached == WORD && v < Pow2(WORD)
      modifies this`cache, this`cached
      ensures Valid() && cached == WORD
      ensures Written() == old(Written()) + Bits(Shr(v, b), a) <==> old(Appends(a + b, v))
    {
      ghost var front := BytesBits(data[..bufferLen]);
      var low := BitAnd(Shr(v, b), if cached < WORD then Shr(Pow2(WORD) - 1, cached) else over);
      if cached < WORD {
        OpenCache(front, cache, cached, low, v, a, b, WORD);
      } else {
        FullCache(front, cache, low, v, a, b, over, WORD);
      }
      cache := BitOr(Shl(cache, a, WORD), low);
      cached := WORD;
    }

    /** Zero bits up to the next byte boundary; the cache never overflows. */
    method Align()
      requires Valid()
      modifies this`cache, this`cached
      ensures Valid() && cached == old(cached) + Pad(old(cached))
      ensures Written() == old(Written()) + Bits(0, Pad(old(cached)))
    {
      var p := if cached % 8 == 0 then 0
               else if cached > 24 then 32 - cached
               else if cached > 16 then 24 - cached
               else if cached > 8 then 16 - cached
               else 8 - cached;
      PadIs(cached, p);
      PutCached(p, 0);
    }

    /** Pads and moves everything to the buffer; the number of bytes written, or an exception. */
    method Flush() returns (r: Option<nat>)
      requires Valid()
      modifies this, data
      ensures Valid() && r.Some? == ((|old(Written())| + 7) / 8 <= size)
      ensures r.Some? ==> cached == 0 && r.value == bufferLen == (|old(Written())| + 7) / 8
      ensures r.Some? ==> BytesBits(data[..bufferLen]) == old(Written()) + Bits(0, Pad(|old(Written())|))
      ensures bufferLen >= old(bufferLen) && forall i :: bufferLen <= i < data.Length ==> data[i] == old(data[i])
    {
      PadLength(bufferLen, cached);
      Align();
      var ok := FlushCache();
      if !ok {
        return None;
      }
      AddNothing(BytesBits(data[..bufferLen]), Bits(cache, cached));
      r := Some(bufferLen);
    }
  }

  lemma PadIs(n: nat, p: nat)
    requires n <= 32
    requires p == if n % 8 == 0 then 0
                  else if n > 24 then 32 - n else if n > 16 then 24 - n else if n > 8 then 16 - n else 8 - n
    ensures p == Pad(n) && n + p <= 32
  {
  }

  lemma PadLength(m: nat, n: nat)
    ensures Pad(8 * m + n) == Pad(n)
    ensures (n + Pad(n)) % 8 == 0 && m + (n + Pad(n)) / 8 == (8 * m + n + 7) / 8
  {
    var q, r := n / 8, n % 8;
    var up := if r == 0 then 0 else 1;
    DivModUnique(8 * m + n, 8, m + q, r);
    DivModUnique(n + Pad(n), 8, q + up, 0);
    DivModUnique(8 * m + n + 7, 8, m + q + up, r + 7 - 8 * up);
  }

  /** Bits missing to the next byte boundary. */
  function Pad(n: nat): nat {
    (8 - n % 8) % 8
  }

  // ---------- fields written and read back ----------

  datatype Field = Field(n: nat, v: nat)

  ghost predicate FieldsOk(fs: seq<Field>) {
    forall f :: f in fs ==> 1 <= f.n < WORD && f.v < Pow2(f.n)
  }

  function FieldsBits(fs: seq<Field>): seq<bool> {
    if fs == [] then [] else Bits(fs[0].v, fs[0].n) + FieldsBits(fs[1..])
  }

  /** What successive reads of the given widths deliver. */
  function ReadAll(bits: seq<bool>, widths: seq<nat>): Option<seq<nat>>
    decreases |widths|
  {
    if widths == [] then Some([])
    else if widths[0] > |bits| then None
    else match ReadAll(bits[widths[0]..], widths[1..])
      case None => None
      case Some(vs) => Some([Val(bits[..widths[0]])] + vs)
  }

  function Widths(fs: seq<Field>): (ws: seq<nat>)
    ensures |ws| == |fs| && forall i :: 0 <= i < |fs| ==> ws[i] == fs[i].n
  {
    if fs == [] then [] else [fs[0].n] + Widths(fs[1..])
  }

  function Values(fs: seq<Field>): (vs: seq<nat>)
    ensures |vs| == |fs| && forall i :: 0 <= i < |fs| ==> vs[i] == fs[i].v
  {
    if fs == [] then [] else [fs[0].v] + Values(fs[1..])
  }

  /** Reading with the widths that were written gives the values that were written, whatever follows them. */
  lemma {:induction false} FieldsRoundTrip(fs: seq<Field>, rest: seq<bool>)
    requires forall f :: f in fs ==> f.v < Pow2(f.n)
    ensures ReadAll(FieldsBits(fs) + rest, Widths(fs)) == Some(Values(fs))
    decreases |fs|
  {
    if fs != [] {
      var f := fs[0];
      var b, tail := Bits(f.v, f.n), FieldsBits(fs[1..]);
      FieldsRoundTrip(fs[1..], rest);
      assert b + tail + rest == b + (tail + rest);
      Halves(b, tail + rest);
      ValBits(f.v, f.n);
      DivModUnique(f.v, Pow2(f.n), 0, f.v);
    }
  }

  lemma FieldsLast(fs: seq<Field>, i: nat)
    requires i < |fs|
    ensures FieldsBits(fs[..i + 1]) == FieldsBits(fs[..i]) + Bits(fs[i].v, fs[i].n)
    ensures |FieldsBits(fs[..i + 1])| <= |FieldsBits(fs)|
  {
    FieldsConcat(fs[..i], [fs[i]]);
    assert fs[..i] + [fs[i]] == fs[..i + 1];
    AddNothing(Bits(fs[i].v, fs[i].n), FieldsBits([]));
    FieldsConcat(fs[..i + 1], fs[i + 1..]);
    assert fs[..i + 1] + fs[i + 1..] == fs;
  }

  lemma {:induction false} FieldsConcat(a: seq<Field>, b: seq<Field>)
    ensures FieldsBits(a + b) == FieldsBits(a) + FieldsBits(b)
    decreases |a|
  {
    if a == [] {
      assert a + b == b;
    } else {
      assert (a + b)[1..] == a[1..] + b;
      FieldsConcat(a[1..], b);
    }
  }

  /** One `Put` per field: as long as the fields fit the buffer there is no exception. */
  method PutAll(w: BitWriter, fs: seq<Field>)
    requires w.Valid() && FieldsOk(fs) && |w.Written()| + |FieldsBits(fs)| <= 8 * w.size
    modifies w, w.data
    ensures w.Valid() && w.Written() == old(w.Written()) + FieldsBits(fs)
    ensures forall i :: w.bufferLen <= i < w.data.Length ==> w.data[i] == old(w.data[i])
  {
    AddNothing(w.Written(), FieldsBits(fs[..0]));
    for i := 0 to |fs|
      invariant w.Valid() && w.Written() == old(w.Written()) + FieldsBits(fs[..i])
      invariant forall i :: w.bufferLen <= i < w.data.Length ==> w.data[i] == old(w.data[i])
    {
      FieldsLast(fs, i);
      Assoc(old(w.Written()), FieldsBits(fs[..i]), Bits(fs[i].v, fs[i].n));
      assert fs[i] in fs;
      FieldFits(fs[i]);
      w.FittingAppends(fs[i].n, fs[i].v);
      var ok := w.Put(fs[i].n, fs[i].v);
      assert ok;
    }
    assert fs[..|fs|] == fs;
  }

  lemma FieldFits(f: Field)
    requires f.n < WORD && f.v < Pow2(f.n)
    ensures f.v < Pow2(WORD)
  {
    Pow2Add(WORD - f.n, f.n);
    MulMono(1, Pow2(WORD - f.n), Pow2(f.n));
  }

  /** One `Get` per width. */
  method GetAll(r: BitReader, widths: seq<nat>) returns (vs: seq<nat>)
    requires r.Valid() && (forall w :: w in widths ==> w < WORD) && ReadAll(r.Rest(), widths).Some?
    modifies r
    ensures r.Valid() && Some(vs) == ReadAll(old(r.Rest()), widths)
    decreases |widths|
  {
    if widths == [] {
      return [];
    }
    assert widths[0] in widths && forall w :: w in widths[1..] ==> w in widths;
    var v := r.Get(widths[0]);
    var rest := GetAll(r, widths[1..]);
    vs := [v.value] + rest;
  }

  /** Put-all, flush, get-all: the bytes are as few as possible and the values come back. */
  method WriteThenRead(fs: seq<Field>, data: array<byte>) returns (len: nat, vs: seq<nat>)
    requires FieldsOk(fs) && |FieldsBits(fs)| <= 8 * data.Length
    modifies data
    ensures len == (|FieldsBits(fs)| + 7) / 8 && vs == Values(fs)
    ensures forall i :: len <= i < data.Length ==> data[i] == old(data[i])
  {
    var w := new BitWriter(data, data.Length);
    PutAll(w, fs);
    AddNothing(FieldsBits(fs), []);
    assert w.Written() == FieldsBits(fs);
    var n := w.Flush();
    len := n.value;
    vs := ReadBack(fs, data[..len], Bits(0, Pad(|FieldsBits(fs)|)));
  }

  method ReadBack(fs: seq<Field>, bytes: seq<byte>, ghost pad: seq<bool>) returns (vs: seq<nat>)
    requires FieldsOk(fs) && BytesBits(bytes) == FieldsBits(fs) + pad
    ensures vs == Values(fs)
  {
    var r := new BitReader(bytes);
    FieldsRoundTrip(fs, pad);
    vs := GetAll(r, Widths(fs));
  }

  lemma Advance(bits: seq<bool>, k: nat)
    requires k <= |bits|
    ensures k < |bits| ==> bits[k..] != [] && bits[k..][0] == bits[k] && bits[k..][1..] == bits[k + 1..]
    ensures k < |bits| ==> bits[..k] + [bits[k]] == bits[..k + 1]
  {
  }

  /** One bit as a truth value, or the end of the stream. */
  method NextBit(reader: BitReader) returns (b: Option<bool>)
    requires reader.Valid()
    modifies reader
    ensures reader.Valid()
    ensures old(reader.Rest()) == [] ==> b == None && reader.Rest() == []
    ensures old(reader.Rest()) != [] ==> b == Some(old(reader.Rest())[0]) && reader.Rest() == old(reader.Rest())[1..]
    ensures reader.bufferLen == old(if reader.cached == 0 then reader.bufferLen - reader.Chunk() else reader.bufferLen)
  {
    var v := reader.Get(1);
    b := if v == None then None else Some(v.value == 1);
  }
}
