/** The class `FECDecoder` (cca/fecdecoder.cpp) and the loop that drives it (cca/rtpsession.cpp). */
module FecDecoder {
  import opened BitStrings
  import opened Sequences
  import opened Bitstream
  import opened NatMap
  import opened FecCode
  import opened Fec

  /** What arrives: a FEC packet (bare, or as the primary of a RED packet), a media packet, or a RED packet. */
  datatype Incoming =
    | FecOnly(fec: FecData)
    | Media(packet: Packet)
    | Redundant(primary: Packet, fecs: seq<FecData>)

  ghost predicate IncomingOk(inc: Incoming) {
    match inc
    case FecOnly(f) => FecOk(f)
    case Media(k) => PacketOk(k) && k.ext < 0x1_0000_0000
    case Redundant(k, fs) => PacketOk(k) && k.ext < 0x1_0000_0000 && forall f :: f in fs ==> FecOk(f)
  }

  /** The packet that goes into the buffer. */
  function Stored(inc: Incoming): Packet
    requires !inc.FecOnly?
  {
    match inc
    case Media(k) => Clone(k)
    case Redundant(k, _) => Primary(k)
  }

  function NewCodes(inc: Incoming): seq<FecData> {
    match inc
    case FecOnly(f) => [f]
    case Media(_) => []
    case Redundant(_, fs) => fs
  }

  /** `Undefined`: the C++ code shifts by a negative count, or takes the rebuilt packet for a FEC carrier. */
  datatype Outcome = Nothing | Recovered(packet: Packet) | Undefined

  /** A gap in the buffered sequence numbers. */
  predicate IsLost(d: Medias, q: nat) {
    d != [] && First(d) < q < Last(d) && !Has(d, q)
  }

  /** FEC packet `f` can rebuild the lost packet `q` from what is buffered. */
  ghost predicate Ready(d: Medias, f: FecData, q: nat, wide: bool) {
    && IsLost(d, q) && FecOk(f) && IsProtected(f, q) && First(d) <= Base(f)
    && OthersPresent(d, f, q, wide)
  }

  function CombinedFlag(d: Medias, f: FecData, q: nat, a: bool, flag: Packet -> bool): bool
    requires FecOk(f) && IsProtected(f, q)
  {
    FlagAll(a, Group(Buffered(d), Base(f), OthersMask(f, q), 0, 64), flag)
  }

  /** The packet `Recover` makes. */
  ghost predicate Rebuilt(d: Medias, f: FecData, q: nat, k: Packet)
    requires d != [] && FecOk(f) && IsProtected(f, q)
  {
    var c := Combined(d, f, q);
    && PacketOk(k)
    && k.ext == q % 0x10000 && k.ssrc == d[0].val.ssrc
    && k.mark == c.mark && k.pt == c.pt && k.ts == c.ts
    && k.p == CombinedFlag(d, f, q, RecoveryP(f), PaddingOf)
    && k.x == CombinedFlag(d, f, q, RecoveryX(f), ExtensionOf)
    && (c.len <= |c.data| ==> k.payload == c.data[..c.len])
  }

  /** Packet `k` is what FEC packet number `c` gives for the gap `q`. */
  ghost predicate FilledBy(d: Medias, codes: Fecs, q: nat, c: nat, k: Packet, wide: bool) {
    c < |codes| && Ready(d, codes[c].val, q, wide) && Rebuilt(d, codes[c].val, q, k)
  }

  /** FEC packet `f` starts before the buffered packets, or rebuilds a packet of a FEC payload type. */
  ghost predicate Unsafe(d: Medias, f: FecData, q: nat, wide: bool) {
    IsLost(d, q) && FecOk(f) && IsProtected(f, q) &&
    (Base(f) < First(d) || (OthersPresent(d, f, q, wide) && Combined(d, f, q).pt in {RED, ULPFEC}))
  }

  /** FEC packet `f` does nothing for the gap `q`. */
  ghost predicate Idle(d: Medias, f: FecData, q: nat, wide: bool) {
    !Ready(d, f, q, wide) && !Unsafe(d, f, q, wide)
  }

  /** The first `n` FEC packets do nothing for the gap `q`. */
  ghost predicate AllIdle(d: Medias, codes: Fecs, q: nat, n: nat, wide: bool) {
    n <= |codes| && forall c :: 0 <= c < n ==> Idle(d, codes[c].val, q, wide)
  }

  /** No FEC packet can fill any gap. */
  ghost predicate AtRest(d: Medias, codes: Fecs, wide: bool) {
    forall q :: IsLost(d, q) ==> AllIdle(d, codes, q, |codes|, wide)
  }

  /** No FEC packet can fill any gap before `q`. */
  ghost predicate RestBefore(d: Medias, codes: Fecs, q: nat, wide: bool) {
    forall p: nat :: p < q && IsLost(d, p) ==> AllIdle(d, codes, p, |codes|, wide)
  }

  /** Gap `q` and FEC packet number `c` are the first, in order of gaps and then of FEC packets, that do anything. */
  ghost predicate FirstAt(d: Medias, codes: Fecs, q: nat, c: nat, wide: bool) {
    && IsLost(d, q) && c < |codes| && !Idle(d, codes[c].val, q, wide)
    && AllIdle(d, codes, q, c, wide) && RestBefore(d, codes, q, wide)
  }

  /** `Recover` made packet `k` for the gap `q` and left `d'` and `codes'`. */
  ghost predicate Success(d: Medias, codes: Fecs, d': Medias, codes': Fecs, q: nat, c: nat, k: Packet, wide: bool) {
    && FilledBy(d, codes, q, c, k, wide) && !Unsafe(d, codes[c].val, q, wide)
    && d' == Windowed(d, Clone(k))
    && codes' == DropBelow(codes, Threshold(Last(Insert(d, k.ext, Clone(k)))))
  }

  /** What C leaves open comes first. */
  ghost predicate OpenAt(d: Medias, codes: Fecs, q: nat, c: nat, wide: bool) {
    FirstAt(d, codes, q, c, wide) && Unsafe(d, codes[c].val, q, wide)
  }

  /** There is only one first. */
  lemma FirstUnique(d: Medias, codes: Fecs, q: nat, c: nat, q': nat, c': nat, wide: bool)
    requires FirstAt(d, codes, q, c, wide) && FirstAt(d, codes, q', c', wide)
    ensures q == q' && c == c'
  {
  }

  /** The gaps below `end`, in order. */
  ghost predicate GapsUpTo(d: Medias, end: nat, losts: seq<nat>) {
    d != [] && Increasing(losts) && forall q :: q in losts <==> First(d) < q < end && !Has(d, q)
  }

  lemma GapAt(d: Medias, losts: seq<nat>, i: nat)
    requires d != [] && i < |losts| && GapsUpTo(d, Last(d), losts)
    ensures IsLost(d, losts[i])
  {
    assert losts[i] in losts;
  }

  lemma AllLeft(d: Medias, codes: Fecs, losts: seq<nat>, i: nat, wide: bool)
    requires d != [] && GapsUpTo(d, Last(d), losts) && i <= |losts|
    requires forall j :: 0 <= j < i ==> AllIdle(d, codes, losts[j], |codes|, wide)
    ensures i < |losts| ==> RestBefore(d, codes, losts[i], wide)
    ensures i == |losts| ==> AtRest(d, codes, wide)
  {
    forall q | IsLost(d, q) && (i < |losts| ==> q < losts[i]) ensures AllIdle(d, codes, q, |codes|, wide) {
      assert q in losts;
      var j :| 0 <= j < |losts| && losts[j] == q;
      assert j < i;
    }
  }

  ghost predicate AllOk(ks: seq<Packet>) {
    forall i :: 0 <= i < |ks| ==> PacketOk(ks[i])
  }

  lemma CombinedBounds(d: Medias, f: FecData, q: nat)
    requires MediasOk(d) && FecOk(f) && IsProtected(f, q)
    ensures var c := Combined(d, f, q); c.pt < 128 && c.ts < 0x1_0000_0000 && c.len < 0x10000
  {
    HeaderBounds(f);
    GroupOk(Buffered(d), d, Base(f), OthersMask(f, q), 64);
    XorAllBounds(RecoveryFields(f), Group(Buffered(d), Base(f), OthersMask(f, q), 0, 64));
  }

  lemma {:induction false} GroupOk(held: nat -> Packet, d: Medias, base: nat, mask: seq<bool>, j: nat)
    requires MediasOk(d) && j <= |mask| && held == Buffered(d)
    ensures AllOk(Group(held, base, mask, 0, j))
    decreases j
  {
    if j > 0 {
      GroupOk(held, d, base, mask, j - 1);
    }
  }

  lemma {:induction false} XorAllBounds(a: Fields, ks: seq<Packet>)
    requires a.pt < 128 && a.ts < 0x1_0000_0000 && a.len < 0x10000
    requires AllOk(ks)
    ensures var r := XorAll(a, ks); r.pt < 128 && r.ts < 0x1_0000_0000 && r.len < 0x10000
    decreases |ks|
  {
    if ks != [] {
      var n := |ks| - 1;
      XorAllBounds(a, ks[..n]);
      var r := XorAll(a, ks[..n]);
      XorLimits(r.pt, ks[n].pt, r.ts, ks[n].ts, r.len, |ks[n].payload|);
    }
  }

  lemma XorLimits(a: nat, a': nat, b: nat, b': nat, c: nat, c': nat)
    requires a < 128 && a' < 128 && b < 0x1_0000_0000 && b' < 0x1_0000_0000 && c < 0x10000 && c' < 0x10000
    ensures BitXor(a, a') < 128 && BitXor(b, b') < 0x1_0000_0000 && BitXor(c, c') < 0x10000
  {
    Pow2Values();
    XorBound(a, a', 7);
    XorBound(b, b', 32);
    XorBound(c, c', 16);
  }

  lemma HeaderBounds(f: FecData)
    requires FecOk(f)
    ensures var r := RecoveryFields(f); r.pt < 128 && r.ts < 0x1_0000_0000 && r.len < 0x10000
    ensures Base(f) < 0x10000
  {
    Pow2Values();
    FromBytesBits(f.data[4..8]);
    FromBytesBits(f.data[8..10]);
    FromBytesBits(f.data[2..4]);
  }

  /** `w.Put(1,b)` with room for one more bit in eight bytes. */
  method PutBit(w: BitWriter, b: bool)
    requires w.Valid() && w.size == 8 && w.data.Length == 8 && |w.Written()| < 64
    requires forall i :: w.bufferLen <= i < 8 ==> w.data[i] == 0
    modifies w, w.data
    ensures w.Valid() && w.Written() == old(w.Written()) + [b]
    ensures forall i :: w.bufferLen <= i < 8 ==> w.data[i] == 0
  {
    Pow2Values();
    assert Pow2(1) == 2;
    var v := if b then 1 else 0;
    w.FittingAppends(1, v);
    var ok := w.Put(1, v);
  }

  lemma KeyAtMostLast(d: Medias, j: nat)
    requires MediasOk(d) && j < |d|
    ensures First(d) <= d[j].key <= Last(d) <= First(d) + WINDOW
  {
  }

  lemma GapsNext(d: Medias, gaps: seq<nat>, i: nat)
    requires d != [] && First(d) < i && !Has(d, i) && GapsUpTo(d, i, gaps)
    ensures GapsUpTo(d, i + 1, gaps + [i])
  {
    assert forall j :: 0 <= j < |gaps| ==> gaps[j] in gaps;
  }

  /** Nothing is buffered strictly between two neighbouring entries. */
  lemma Gap(d: Medias, j: nat, q: nat)
    requires Sorted(d) && j < |d| && q < d[j].key && (j > 0 ==> d[j - 1].key < q)
    ensures !Has(d, q)
  {
    assert forall i :: 0 <= i < j ==> d[i].key <= d[j - 1].key;
    assert forall i :: j <= i < |d| ==> d[j].key <= d[i].key;
  }

  /** Eight bytes of which the first `n` hold the written bits and their padding, and the rest are zero. */
  lemma MaskOfBytes(bytes: seq<byte>, n: nat, written: seq<bool>)
    requires |bytes| == 8 && n <= 8 && |written| <= 64 && n == (|written| + 7) / 8
    requires BytesBits(bytes[..n]) == written + Bits(0, Pad(|written|))
    requires forall i :: n <= i < 8 ==> bytes[i] == 0
    ensures BytesBits(bytes) == written + seq(64 - |written|, _ => false)
  {
    BytesPrefix(bytes, n);
    ZeroBytes(bytes[n..]);
    ZeroBits(Pad(|written|));
  }

  lemma {:induction false} ZeroBytes(s: seq<byte>)
    requires forall i :: 0 <= i < |s| ==> s[i] == 0
    ensures forall i :: 0 <= i < 8 * |s| ==> !BytesBits(s)[i]
    decreases |s|
  {
    if s != [] {
      ZeroBytes(s[1..]);
      ZeroBits(8);
    }
  }

  /** Which of the first `n` numbers of the window are buffered has been written, into an area that was all zero. */
  ghost predicate OnTape(w: BitWriter, d: Medias, n: nat)
    reads w, w.data
  {
    && d != [] && w.Valid() && w.size == 8 && w.data.Length == 8 && w.Written() == Presence(d, First(d), n)
    && forall i :: w.bufferLen <= i < 8 ==> w.data[i] == 0
  }

  /** `w.Put(1, ...)` for the next number of the window. */
  method PutPresence(w: BitWriter, d: Medias, n: nat)
    requires OnTape(w, d, n) && n < 64
    modifies w, w.data
    ensures OnTape(w, d, n + 1)
  {
    PutBit(w, Has(d, First(d) + n));
  }

  class FecDecoder {
    const wide: bool   // `get8` returns 64 bits (mcu/include/tools.h) or 32 (cca/tools.h)
    var medias: Medias
    var codes: Fecs

    ghost predicate Valid()
      reads this
    {
      MediasOk(medias) && FecsOk(codes)
    }

    constructor (wide: bool)
      ensures Valid() && medias == [] && codes == [] && this.wide == wide
    {
      this.wide := wide;
      medias, codes := [], [];
    }

    /** True if the packet carried media.  A FEC packet alone is only filed; nothing is evicted for it. */
    method AddPacket(inc: Incoming) returns (media: bool)
      requires Valid() && IncomingOk(inc)
      modifies this
      ensures Valid() && media == !inc.FecOnly?
      ensures inc.FecOnly? ==> medias == old(medias) && codes == AddCodes(old(codes), NewCodes(inc))
      ensures media ==> medias == Windowed(old(medias), Stored(inc))
      ensures media ==>
                codes == DropBelow(AddCodes(old(codes), NewCodes(inc)),
                                   Threshold(Last(Insert(old(medias), Stored(inc).ext, Stored(inc)))))
    {
      if inc.FecOnly? {
        CodeAdded(codes, inc.fec);
        codes := Insert(codes, Base(inc.fec), inc.fec);
        assert NewCodes(inc)[..0] == [];
        return false;
      }
      var k := Stored(inc);
      WindowHolds(medias, k);
      medias := Insert(medias, k.ext, k);
      FileCodes(NewCodes(inc));
      var seqNum := Last(medias);
      Evict(Threshold(seqNum));
      media := true;
    }

    method FileCodes(fs: seq<FecData>)
      requires FecsOk(codes) && forall f :: f in fs ==> FecOk(f)
      modifies this`codes
      ensures FecsOk(codes) && codes == AddCodes(old(codes), fs)
    {
      for i := 0 to |fs|
        invariant forall f :: f in fs[..i] ==> FecOk(f)
        invariant FecsOk(codes) && codes == AddCodes(old(codes), fs[..i])
      {
        assert fs[i] in fs;
        assert fs[..i + 1][..i] == fs[..i];
        CodeAdded(codes, fs[i]);
        codes := Insert(codes, Base(fs[i]), fs[i]);
      }
      assert fs[..|fs|] == fs;
    }

    /** The two loops that delete what is older than the window. */
    method Evict(t: nat)
      requires FecsOk(codes)
      modifies this`medias, this`codes
      ensures medias == DropBelow(old(medias), t) && codes == DropBelow(old(codes), t) && FecsOk(codes)
    {
      CodesKept(codes, t);
      while medias != [] && medias[0].key < t
        invariant DropBelow(medias, t) == DropBelow(old(medias), t) && codes == old(codes)
        decreases |medias|
      {
        medias := medias[1..];
      }
      while codes != [] && codes[0].key < t
        invariant DropBelow(codes, t) == DropBelow(old(codes), t) && medias == DropBelow(old(medias), t)
        decreases |codes|
      {
        codes := codes[1..];
      }
    }

    // ---------- Recover ----------

    /** Mask and list of the gaps, written bit by bit over the buffered packets in order. */
    method Scan() returns (lostMask: seq<bool>, losts: seq<nat>)
      requires Valid() && medias != []
      ensures lostMask == LostMask(medias, wide)
      ensures GapsUpTo(medias, Last(medias), losts)
    {
      var minSeq := First(medias);
      var lastSeq := minSeq;
      var aux := new byte[8](_ => 0);
      var w := new BitWriter(aux, 8);
      losts := [];
      for j := 0 to |medias|
        invariant fresh(aux) && fresh(w) && w.data == aux
        invariant lastSeq == if j == 0 then minSeq else medias[j - 1].key
        invariant OnTape(w, medias, if j == 0 then 0 else lastSeq - minSeq + 1)
        invariant GapsUpTo(medias, lastSeq, losts)
      {
        var cur := medias[j].key;
        losts := PutUpTo(w, j, lastSeq, losts);
        lastSeq := cur;
      }
      lostMask := ReadMask(w, aux);
    }

    /** Zeros for the gap before entry `j` and a one for the entry itself. */
    method PutUpTo(w: BitWriter, j: nat, lastSeq: nat, losts: seq<nat>) returns (more: seq<nat>)
      requires Valid() && j < |medias| && lastSeq == if j == 0 then First(medias) else medias[j - 1].key
      requires OnTape(w, medias, if j == 0 then 0 else lastSeq - First(medias) + 1)
      requires GapsUpTo(medias, lastSeq, losts)
      modifies w, w.data
      ensures OnTape(w, medias, medias[j].key - First(medias) + 1)
      ensures GapsUpTo(medias, medias[j].key, more)
    {
      KeyAtMostLast(medias, j);
      HasIndex(medias, j);
      more := losts;
      if j > 0 {
        more := PutGaps(w, j, lastSeq + 1, losts);
      }
      PutPresence(w, medias, medias[j].key - First(medias));
    }

    /** One zero for each sequence number missing before entry `j`. */
    method PutGaps(w: BitWriter, j: nat, from: nat, losts: seq<nat>) returns (more: seq<nat>)
      requires Valid() && 0 < j < |medias| && from == medias[j - 1].key + 1
      requires OnTape(w, medias, from - First(medias)) && GapsUpTo(medias, from - 1, losts)
      modifies w, w.data
      ensures OnTape(w, medias, medias[j].key - First(medias)) && GapsUpTo(medias, medias[j].key, more)
    {
      HasIndex(medias, j - 1);
      KeyAtMostLast(medias, j);
      more := losts;
      for i := from to medias[j].key
        invariant OnTape(w, medias, i - First(medias)) && GapsUpTo(medias, i, more)
      {
        Gap(medias, j, i);
        PutPresence(w, medias, i - First(medias));
        GapsNext(medias, more, i);
        more := more + [i];
      }
    }

    method ReadMask(w: BitWriter, aux: array<byte>) returns (lostMask: seq<bool>)
      requires Valid() && medias != [] && w.data == aux && OnTape(w, medias, Last(medias) - First(medias) + 1)
      modifies w, aux
      ensures lostMask == LostMask(medias, wide)
    {
      ghost var written := w.Written();
      var n := w.Flush();
      MaskOfBytes(aux[..], n.value, written);
      lostMask := Get8(aux[..]);
    }

    /** `get8(aux,0)`; where it returns a DWORD the high half of the result is zero. */
    function Get8(bytes: seq<byte>): (m: seq<bool>)
      requires |bytes| == 8
      ensures m == if wide then BytesBits(bytes) else seq(32, _ => false) + BytesBits(bytes)[32..]
    {
      BytesPrefix(bytes, 4);
      assert BytesBits(bytes)[32..] == BytesBits(bytes[4..]);
      if wide then BytesBits(bytes) else seq(32, _ => false) + BytesBits(bytes[4..])
    }

    /** The QWORD mask operations of the test, and the test. */
    method Test(f: FecData, q: nat, lostMask: seq<bool>) returns (passes: bool)
      requires Valid() && medias != [] && lostMask == LostMask(medias, wide)
      requires FecOk(f) && IsLost(medias, q) && IsProtected(f, q) && First(medias) <= Base(f)
      ensures passes == OthersPresent(medias, f, q, wide)
    {
      var mediaMask := ShiftMask(lostMask, Base(f) - First(medias));
      var fecMask := OthersMask(f, q);
      passes := AndMask(fecMask, mediaMask) == fecMask;
      TestMeansPresent(medias, f, q, wide);
    }

    /** Reads the mask bit by bit and combines the packets it names into a copy of the FEC packet. */
    method Combine(f: FecData, q: nat) returns (c: Fields, p: bool, x: bool)
      requires Valid() && medias != [] && FecOk(f) && IsLost(medias, q) && IsProtected(f, q)
      requires OthersPresent(medias, f, q, wide)
      ensures c == Combined(medias, f, q)
      ensures p == CombinedFlag(medias, f, q, RecoveryP(f), PaddingOf)
      ensures x == CombinedFlag(medias, f, q, RecoveryX(f), ExtensionOf)
    {
      var start := RecoveryFields(f);
      var recovered := new byte[MTU];
      ghost var empty := recovered[..];
      Buffers.Copy(recovered, 0, start.data);
      Buffers.PlacedFirst(empty, recovered[..], start.data);
      p, x := RecoveryP(f), RecoveryX(f);
      c, p, x := CombineMask(start, recovered, Base(f), OthersMask(f, q), p, x);
    }

    /** The new packet.  Bytes beyond the protected size, and payloads beyond the buffer, are whatever memory held. */
    method Rebuild(f: FecData, q: nat) returns (k: Packet)
      requires Valid() && FecOk(f) && IsLost(medias, q) && IsProtected(f, q)
      requires OthersPresent(medias, f, q, wide)
      ensures Rebuilt(medias, f, q, k)
    {
      var c, p, x := Combine(f, q);
      CombinedBounds(medias, f, q);
      var beyond := new byte[if c.len > |c.data| then c.len - |c.data| else 0];
      var payload := (c.data + beyond[..])[..c.len];
      k := Packet(q % 0x10000, p, x, c.mark, c.pt, c.ts, medias[0].val.ssrc, payload);
    }

    /**
      The first gap, in order, for which some FEC packet does anything, and the first such FEC packet: the gap is
      filled, and the packet returned also goes back into the window.  `Nothing` means that no gap can be filled.
      */
    method Recover() returns (r: Outcome, q: nat, ghost c: nat)
      requires Valid()
      modifies this
      ensures Valid()
      ensures r.Nothing? <==> AtRest(old(medias), old(codes), wide)
      ensures !r.Nothing? ==> FirstAt(old(medias), old(codes), q, c, wide)
      ensures r.Undefined? ==> OpenAt(medias, codes, q, c, wide)
      ensures !r.Recovered? ==> medias == old(medias) && codes == old(codes)
      ensures r.Recovered? ==> Success(old(medias), old(codes), medias, codes, q, c, r.packet, wide)
    {
      q, c := 0, 0;
      if medias == [] {
        r := Nothing;
        return;
      }
      var lostMask, losts := Scan();
      for i := 0 to |losts|
        invariant medias == old(medias) && codes == old(codes)
        invariant forall j :: 0 <= j < i ==> AllIdle(medias, codes, losts[j], |codes|, wide)
      {
        q := losts[i];
        GapAt(medias, losts, i);
        AllLeft(medias, codes, losts, i, wide);
        r, c := TryCodes(q, lostMask);
        if !r.Nothing? {
          return;
        }
      }
      r := Nothing;
      AllLeft(medias, codes, losts, |losts|, wide);
    }

    /** The inner loop: the FEC packets in order of their base. */
    method TryCodes(q: nat, lostMask: seq<bool>) returns (r: Outcome, ghost at: nat)
      requires Valid() && medias != [] && lostMask == LostMask(medias, wide) && IsLost(medias, q)
      modifies this
      ensures Valid()
      ensures !r.Recovered? ==> medias == old(medias) && codes == old(codes)
      ensures r.Nothing? ==> AllIdle(medias, codes, q, |codes|, wide)
      ensures !r.Nothing? ==> at < |old(codes)| && !Idle(old(medias), old(codes)[at].val, q, wide)
      ensures !r.Nothing? ==> AllIdle(old(medias), old(codes), q, at, wide)
      ensures !r.Nothing? ==> (r.Undefined? <==> Unsafe(old(medias), old(codes)[at].val, q, wide))
      ensures r.Recovered? ==> Success(old(medias), old(codes), medias, codes, q, at, r.packet, wide)
    {
      for c := 0 to |codes|
        invariant medias == old(medias) && codes == old(codes)
        invariant AllIdle(medias, codes, q, c, wide)
      {
        at := c;
        r := TryCode(q, c, lostMask);
        if !r.Nothing? {
          return;
        }
      }
      r, at := Nothing, 0;
    }

    /** One FEC packet for one gap. */
    method TryCode(q: nat, c: nat, lostMask: seq<bool>) returns (r: Outcome)
      requires Valid() && medias != [] && lostMask == LostMask(medias, wide) && IsLost(medias, q) && c < |codes|
      modifies this
      ensures Valid()
      ensures !r.Recovered? ==> medias == old(medias) && codes == old(codes)
      ensures r.Nothing? <==> Idle(old(medias), old(codes)[c].val, q, wide)
      ensures r.Undefined? <==> Unsafe(old(medias), old(codes)[c].val, q, wide)
      ensures r.Recovered? ==> Success(old(medias), old(codes), medias, codes, q, c, r.packet, wide)
    {
      var f := codes[c].val;
      if !IsProtected(f, q) {
        return Nothing;
      }
      if Base(f) < First(medias) {
        return Undefined;
      }
      var passes := Test(f, q, lostMask);
      if !passes {
        return Nothing;
      }
      var k := Rebuild(f, q);
      if k.pt == RED || k.pt == ULPFEC {
        return Undefined;
      }
      assert FilledBy(medias, codes, q, c, k, wide);
      Refile(k);
      r := Recovered(k);
    }

    /** The rebuilt packet goes back in through `AddPacket`. */
    method Refile(k: Packet)
      requires Valid() && PacketOk(k) && k.ext < 0x1_0000_0000
      modifies this
      ensures Valid() && medias == Windowed(old(medias), Clone(k))
      ensures codes == DropBelow(old(codes), Threshold(Last(Insert(old(medias), k.ext, Clone(k)))))
    {
      var _ := AddPacket(Media(k));
      assert NewCodes(Media(k)) == [];
    }

    /** The loop over the 64 mask bits. */
    method CombineMask(start: Fields, recovered: array<byte>, base: nat, mask: seq<bool>, p0: bool, x0: bool)
      returns (c: Fields, p: bool, x: bool)
      requires Valid() && |mask| == 64 && forall i :: 0 <= i < 64 && mask[i] ==> Has(medias, base + i)
      requires |start.data| <= recovered.Length && recovered[..|start.data|] == start.data
      modifies recovered
      ensures Mixed(start, p0, x0, Group(Buffered(medias), base, mask, 0, |mask|), c, p, x)
    {
      c, p, x := start, p0, x0;
      var r := new BitReader(MaskBytes(mask));
      MaskBytesBits(mask);
      ghost var i := 0;
      var left := r.Left();
      while left > 0
        invariant fresh(r) && r.Valid() && |r.data| == 8 && i <= |mask| && r.Rest() == mask[i..] && left == |mask| - i
        invariant |c.data| == |start.data| && c.data == recovered[..|start.data|]
        invariant Mixed(start, p0, x0, Group(Buffered(medias), base, mask, 0, i), c, p, x)
        decreases left
      {
        c, p, x := CombineNext(start, p0, x0, r, recovered, base, mask, i, c, p, x);
        i := i + 1;
        left := r.Left();
      }
    }

    /** One turn of the loop: the group combined so far grows by what the mask bit names. */
    method CombineNext(ghost start: Fields, ghost p0: bool, ghost x0: bool, r: BitReader, recovered: array<byte>,
                       base: nat, ghost mask: seq<bool>, ghost i: nat, c: Fields, p: bool, x: bool)
      returns (c': Fields, p': bool, x': bool)
      requires i < |mask| == 64 && r.Valid() && |r.data| == 8 && r.Rest() == mask[i..]
      requires mask[i] ==> Has(medias, base + i)
      requires |c.data| == |start.data| <= recovered.Length && recovered[..|c.data|] == c.data
      requires Mixed(start, p0, x0, Group(Buffered(medias), base, mask, 0, i), c, p, x)
      modifies r, recovered
      ensures r.Valid() && r.Rest() == mask[i + 1..]
      ensures |c'.data| == |c.data| && recovered[..|c.data|] == c'.data
      ensures Mixed(start, p0, x0, Group(Buffered(medias), base, mask, 0, i + 1), c', p', x')
    {
      c', p', x' := CombineBit(r, recovered, base, mask, i, c, p, x);
      MixNext(start, p0, x0, medias, base, mask, i, c, p, x, c', p', x');
    }

    /** One mask bit: the packet it names, if it is set, is combined in. */
    method CombineBit(r: BitReader, recovered: array<byte>, base: nat, ghost mask: seq<bool>, ghost i: nat,
                      c: Fields, p: bool, x: bool)
      returns (c': Fields, p': bool, x': bool)
      requires i < |mask| == 64 && r.Valid() && |r.data| == 8 && r.Rest() == mask[i..]
      requires mask[i] ==> Has(medias, base + i)
      requires |c.data| <= recovered.Length && recovered[..|c.data|] == c.data
      modifies r, recovered
      ensures r.Valid() && r.Rest() == mask[i + 1..]
      ensures |c'.data| == |c.data| && recovered[..|c.data|] == c'.data
      ensures !mask[i] ==> c' == c && p' == p && x' == x
      ensures mask[i] ==> var k := At(medias, base + i);
                          c' == Xor(c, FieldsOf(k, |c.data|)) && p' == (p != k.p) && x' == (x != k.x)
    {
      Advance(mask, i);
      c', p', x' := c, p, x;
      var bit := NextBit(r);
      if bit.value {
        var pos := r.GetPos();
        var media := At(medias, base + pos - 1);
        p' := p != media.p;
        x' := x != media.x;
        c' := Mix(recovered, c, media);
      }
    }
  }

  /** Fields and flags after the packets `ks`. */
  ghost predicate Mixed(start: Fields, p0: bool, x0: bool, ks: seq<Packet>, c: Fields, p: bool, x: bool) {
    c == XorAll(start, ks) && p == FlagAll(p0, ks, PaddingOf) && x == FlagAll(x0, ks, ExtensionOf)
  }

  lemma MixNext(start: Fields, p0: bool, x0: bool, d: Medias, base: nat, mask: seq<bool>, i: nat,
                c: Fields, p: bool, x: bool, c': Fields, p': bool, x': bool)
    requires i < |mask| && Mixed(start, p0, x0, Group(Buffered(d), base, mask, 0, i), c, p, x)
    requires |c.data| == |start.data| && (mask[i] ==> Has(d, base + i))
    requires !mask[i] ==> c' == c && p' == p && x' == x
    requires mask[i] ==> var k := At(d, base + i);
                         c' == Xor(c, FieldsOf(k, |c.data|)) && p' == (p != k.p) && x' == (x != k.x)
    ensures Mixed(start, p0, x0, Group(Buffered(d), base, mask, 0, i + 1), c', p', x')
  {
    XorNext(start, Buffered(d), base, mask, i);
    FlagNext(p0, Buffered(d), base, mask, i, PaddingOf);
    FlagNext(x0, Buffered(d), base, mask, i, ExtensionOf);
  }

  /** One packet is combined into the fields and the buffer. */
  method Mix(recovered: array<byte>, c: Fields, media: Packet) returns (r: Fields)
    requires |c.data| <= recovered.Length && recovered[..|c.data|] == c.data
    modifies recovered
    ensures r == Xor(c, FieldsOf(media, |c.data|)) && recovered[..|c.data|] == r.data
  {
    XorInto(recovered, media.payload, |c.data|);
    r := Fields(c.mark != media.mark, BitXor(c.pt, media.pt), BitXor(c.ts, media.ts),
                BitXor(c.len, |media.payload|), recovered[..|c.data|]);
  }

  /** A header flag combined with that flag of every packet. */
  function FlagAll(a: bool, ks: seq<Packet>, flag: Packet -> bool): bool
    decreases |ks|
  {
    if ks == [] then a else FlagAll(a, ks[..|ks| - 1], flag) != flag(ks[|ks| - 1])
  }

  function PaddingOf(k: Packet): bool { k.p }

  function ExtensionOf(k: Packet): bool { k.x }

  lemma FlagNext(a: bool, held: nat -> Packet, base: nat, mask: seq<bool>, i: nat, flag: Packet -> bool)
    requires i < |mask|
    ensures FlagAll(a, Group(held, base, mask, 0, i + 1), flag) ==
            var b := FlagAll(a, Group(held, base, mask, 0, i), flag);
            if mask[i] then b != flag(held(base + i)) else b
  {
    var g := Group(held, base, mask, 0, i);
    assert Group(held, base, mask, 0, i + 1) == if mask[i] then g + [held(base + i)] else g;
    assert (g + [held(base + i)])[..|g|] == g;
  }

  lemma XorNext(start: Fields, held: nat -> Packet, base: nat, mask: seq<bool>, i: nat)
    requires i < |mask|
    ensures XorAll(start, Group(held, base, mask, 0, i + 1)) ==
            var a := XorAll(start, Group(held, base, mask, 0, i));
            if mask[i] then Xor(a, FieldsOf(held(base + i), |start.data|)) else a
  {
    var g := Group(held, base, mask, 0, i);
    assert Group(held, base, mask, 0, i + 1) == if mask[i] then g + [held(base + i)] else g;
    assert (g + [held(base + i)])[..|g|] == g;
  }

  /** The byte loop over one packet: its payload, up to the protected size, is combined in. */
  method XorInto(recovered: array<byte>, payload: seq<byte>, n: nat)
    requires n <= recovered.Length
    modifies recovered
    ensures recovered[..n] == XorBytes(old(recovered[..n]), PadTo(payload, n))
  {
    var m := if |payload| < n then |payload| else n;
    for i := 0 to m
      invariant forall j :: 0 <= j < i ==> recovered[j] == XorByte(old(recovered[j]), payload[j])
      invariant forall j :: i <= j < recovered.Length ==> recovered[j] == old(recovered[j])
    {
      recovered[i] := XorByte(recovered[i], payload[i]);
    }
    forall j | m <= j < n ensures recovered[j] == XorByte(old(recovered[j]), 0) {
      XorZero(recovered[j]);
    }
  }

  // ---------- what Recover is worth ----------

  /** Every buffered packet is the one sent under its number. */
  ghost predicate TrueMedias(d: Medias, sent: nat -> Packet) {
    forall j :: Has(d, j) ==> SameMedia(At(d, j), sent(j))
  }

  /**
    Recovery is exact: if the FEC packet is the parity of what was sent, the buffered packets are what was
    sent and the missing packet is no longer than the protected size, then the packet `Recover` makes has the
    missing packet's marker, payload type, timestamp, length and payload.
    */
  lemma RecoveryIsExact(d: Medias, codes: Fecs, q: nat, c: nat, k: Packet, wide: bool, sent: nat -> Packet)
    requires MediasOk(d) && FilledBy(d, codes, q, c, k, wide)
    requires IsParityOf(codes[c].val, sent) && |sent(q).payload| <= Level0Size(codes[c].val)
    requires TrueMedias(d, sent)
    ensures SameMedia(k, sent(q))
  {
    var f := codes[c].val;
    ParityRebuilds(d, f, q, wide, sent);
    var p := sent(q).payload;
    assert PadTo(p, Level0Size(f))[..|p|] == p;
  }

  /** The number of gaps in the window. */
  function Gaps(d: Medias): int {
    if d == [] then 0 else Last(d) - First(d) + 1 - |d|
  }

  /** A packet put into a gap of the window stays there, and nothing else moves. */
  lemma GapFilled(d: Medias, k: Packet)
    requires MediasOk(d) && PacketOk(k) && IsLost(d, k.ext)
    ensures Windowed(d, k) == Insert(d, k.ext, k) && Gaps(Windowed(d, k)) == Gaps(d) - 1
    ensures First(Windowed(d, k)) == First(d) && Last(Windowed(d, k)) == Last(d)
  {
    InsertSorted(d, k.ext, k);
    InsertLast(d, k.ext, k);
  }

  /** A packet older than the window leaves no trace. */
  lemma TooOld(d: Medias, k: Packet)
    requires MediasOk(d) && d != [] && k.ext + WINDOW < Last(d)
    ensures Windowed(d, k) == d
  {
    assert Insert(d, k.ext, k) == [Slot(k.ext, k)] + d;
    assert DropBelow(d, Threshold(Last(d))) == d;
  }

  lemma WithoutCycles(q: nat)
    ensures if q < 0x10000 then q % 0x10000 == q else q % 0x10000 + 0x10000 <= q
  {
  }

  /** What a rebuilt packet does to the window: below 2^16 it fills its gap, above it is dropped as too old. */
  lemma Refiled(d: Medias, q: nat, k: Packet)
    requires MediasOk(d) && IsLost(d, q) && PacketOk(k) && k.ext == q % 0x10000
    ensures q < 0x10000 ==>
              && Windowed(d, k) == Insert(d, q, k)
              && Gaps(Windowed(d, k)) == Gaps(d) - 1 && Last(Windowed(d, k)) == Last(d)
    ensures q >= 0x10000 ==> Windowed(d, k) == d
  {
    WithoutCycles(q);
    if q < 0x10000 {
      GapFilled(d, k);
    } else {
      TooOld(d, k);
    }
  }

  lemma FilledGap(d: Medias, codes: Fecs, q: nat, c: nat, k: Packet, wide: bool)
    requires FilledBy(d, codes, q, c, k, wide)
    ensures IsLost(d, q) && PacketOk(Clone(k)) && Clone(k).ext == q % 0x10000
    ensures Ready(d, codes[c].val, q, wide) && OnFile(codes, codes[c].val)
  {
  }

  /**
    Each success makes progress exactly when the filled gap is numbered below 2^16: the rebuilt packet carries
    no cycle count, so one numbered above lands 2^16 lower, outside the window, and the gap stays open.
    */
  lemma ProgressExactly(d: Medias, codes: Fecs, q: nat, c: nat, k: Packet, wide: bool)
    requires MediasOk(d) && FilledBy(d, codes, q, c, k, wide)
    ensures q < 0x10000 <==> Gaps(Windowed(d, Clone(k))) == Gaps(d) - 1
    ensures q >= 0x10000 <==> Windowed(d, Clone(k)) == d
  {
    FilledGap(d, codes, q, c, k, wide);
    Refiled(d, q, Clone(k));
  }

  lemma {:induction false} GapsBound(d: Medias)
    requires Sorted(d)
    ensures Gaps(d) >= 0
    decreases |d|
  {
    if |d| > 1 {
      GapsBound(d[1..]);
    }
  }

  // ---------- a receiver that is fed what was sent ----------

  ghost predicate OnFile(codes: Fecs, f: FecData) {
    exists c :: 0 <= c < |codes| && codes[c].val == f
  }

  /** FEC packet `f` is worth what it should be for the gap `q`: it is the parity of a group that `q` fits into. */
  ghost predicate GoodFor(f: FecData, q: nat, sent: nat -> Packet)
    requires FecOk(f)
  {
    IsParityOf(f, sent) && |sent(q).payload| <= Level0Size(f)
  }

  /** Every FEC packet is good for every gap it names. */
  ghost predicate TrueCodes(d: Medias, codes: Fecs, sent: nat -> Packet) {
    forall f, q :: OnFile(codes, f) && IsLost(d, q) && FecOk(f) && IsProtected(f, q) ==> GoodFor(f, q, sent)
  }

  lemma WindowStaysTrue(d: Medias, k: Packet, sent: nat -> Packet)
    requires MediasOk(d) && PacketOk(k) && k.ext < 0x1_0000_0000
    requires TrueMedias(d, sent) && SameMedia(k, sent(k.ext))
    ensures TrueMedias(Windowed(d, k), sent)
  {
    forall j | Has(Windowed(d, k), j) ensures SameMedia(At(Windowed(d, k), j), sent(j)) {
      WindowContents(d, k, j);
    }
  }

  /** A packet recovered by a true receiver is the one that was lost, and keeping it keeps the receiver true. */
  lemma RecoveredIsTrue(d: Medias, codes: Fecs, q: nat, c: nat, k: Packet, wide: bool, sent: nat -> Packet)
    requires MediasOk(d) && FilledBy(d, codes, q, c, k, wide)
    requires TrueMedias(d, sent) && TrueCodes(d, codes, sent)
    ensures k.ext == q % 0x10000 && SameMedia(k, sent(q)) && TrueMedias(Windowed(d, Clone(k)), sent)
  {
    RecoveryIsExact(d, codes, q, c, k, wide, sent);
    FilledGap(d, codes, q, c, k, wide);
    RefiledIsTrue(d, q, k, sent);
  }

  lemma RefiledIsTrue(d: Medias, q: nat, k: Packet, sent: nat -> Packet)
    requires MediasOk(d) && TrueMedias(d, sent) && PacketOk(Clone(k)) && IsLost(d, q)
    requires Clone(k).ext == q % 0x10000 && SameMedia(k, sent(q))
    ensures k.ext == q % 0x10000 && TrueMedias(Windowed(d, Clone(k)), sent)
  {
    if q < 0x10000 {
      WindowStaysTrue(d, Clone(k), sent);
    } else {
      Refiled(d, q, Clone(k));
    }
  }

  /** The window stays where it is and loses nothing, and no FEC packet is added. */
  ghost predicate Kept(d: Medias, codes: Fecs, d': Medias, codes': Fecs) {
    && (d == [] <==> d' == []) && (d != [] ==> First(d') == First(d) && Last(d') == Last(d))
    && (forall j :: Has(d, j) ==> Has(d', j))
    && (forall f :: OnFile(codes', f) ==> OnFile(codes, f))
  }

  lemma SuccessKeeps(d: Medias, codes: Fecs, d': Medias, codes': Fecs, q: nat, c: nat, k: Packet, wide: bool)
    requires MediasOk(d) && FecsOk(codes) && Success(d, codes, d', codes', q, c, k, wide)
    ensures Kept(d, codes, d', codes')
  {
    FilledGap(d, codes, q, c, k, wide);
    WithoutCycles(q);
    CodesStay(d, codes, k.ext, Clone(k));
    if q < 0x10000 {
      PresentNext(d, q, Clone(k));
    } else {
      Refiled(d, q, Clone(k));
    }
  }

  // ---------- the loop of ReadRTP ----------

  /** How the loop goes on: nothing is left to recover, the same gap is found for ever, or C leaves it open. */
  datatype End = Resting | Forever(q: nat, packet: Packet) | Open(q: nat)

  /** FEC packet `f` could rebuild the gap `q` if the numbers `more` were filled in. */
  ghost predicate ReadyWith(d: Medias, more: seq<nat>, f: FecData, q: nat, wide: bool) {
    && IsLost(d, q) && q !in more && FecOk(f) && IsProtected(f, q) && First(d) <= Base(f)
    && forall i :: 0 <= i < 64 && Level0Mask(f)[i] && Base(f) + i != q ==>
         (Has(d, Base(f) + i) || Base(f) + i in more) && (wide || Base(f) + i >= First(d) + 32)
  }

  ghost predicate Fillable(d: Medias, codes: Fecs, more: seq<nat>, q: nat, wide: bool) {
    exists c :: 0 <= c < |codes| && ReadyWith(d, more, codes[c].val, q, wide)
  }

  /** Number `i` of `order` is below 2^16 and can be filled once those before it are. */
  ghost predicate Link(d: Medias, codes: Fecs, order: seq<nat>, i: nat, wide: bool)
    requires i < |order|
  {
    order[i] < 0x10000 && Fillable(d, codes, order[..i], order[i], wide)
  }

  /** Gaps numbered below 2^16 that can be filled one after the other. */
  ghost predicate Chain(d: Medias, codes: Fecs, order: seq<nat>, wide: bool) {
    forall i {:trigger Link(d, codes, order, i, wide)} :: 0 <= i < |order| ==> Link(d, codes, order, i, wide)
  }

  /** Filling gaps below 2^16 in some order makes one numbered 2^16 or more fillable. */
  ghost predicate Doomed(d: Medias, codes: Fecs, wide: bool) {
    exists order, q :: Chain(d, codes, order, wide) && q >= 0x10000 && Fillable(d, codes, order, q, wide)
  }

  /** `d` and `codes` after the gaps `filled` of `d0` were filled, in this order. */
  ghost predicate After(d0: Medias, codes0: Fecs, d: Medias, codes: Fecs, filled: seq<nat>, wide: bool) {
    && Chain(d0, codes0, filled, wide)
    && (d == [] <==> d0 == []) && (d0 != [] ==> First(d) == First(d0) && Last(d) == Last(d0))
    && (forall j :: Has(d, j) <==> Has(d0, j) || j in filled)
    && (forall f :: OnFile(codes, f) ==> OnFile(codes0, f))
    && (forall f :: OnFile(codes0, f) && FecOk(f) && d0 != [] && Base(f) >= First(d0) ==> OnFile(codes, f))
  }

  lemma ReadyAfter(d0: Medias, codes0: Fecs, d: Medias, codes: Fecs, filled: seq<nat>, f: FecData, q: nat, wide: bool)
    requires After(d0, codes0, d, codes, filled, wide) && Ready(d, f, q, wide) && OnFile(codes, f)
    ensures Fillable(d0, codes0, filled, q, wide)
  {
    assert OnFile(codes0, f);
    var c :| 0 <= c < |codes0| && codes0[c].val == f;
    assert ReadyWith(d0, filled, codes0[c].val, q, wide);
  }

  /** One more gap filled, by packet `k`. */
  lemma AfterNext(d0: Medias, codes0: Fecs, d: Medias, codes: Fecs, filled: seq<nat>,
                  f: FecData, q: nat, k: Packet, wide: bool)
    requires MediasOk(d) && FecsOk(codes) && After(d0, codes0, d, codes, filled, wide)
    requires Ready(d, f, q, wide) && OnFile(codes, f) && PacketOk(k) && k.ext == q < 0x10000
    ensures After(d0, codes0, Windowed(d, k), DropBelow(codes, Threshold(Last(Insert(d, k.ext, k)))),
                  filled + [q], wide)
  {
    ReadyAfter(d0, codes0, d, codes, filled, f, q, wide);
    ChainNext(d0, codes0, filled, q, wide);
    PresentNext(d, q, k);
    CodesStay(d, codes, k.ext, k);
  }

  lemma PresentNext(d: Medias, q: nat, k: Packet)
    requires MediasOk(d) && PacketOk(k) && IsLost(d, q) && k.ext == q
    ensures var e := Windowed(d, k); e != [] && First(e) == First(d) && Last(e) == Last(d)
    ensures forall j :: Has(Windowed(d, k), j) <==> Has(d, j) || j == q
  {
    GapFilled(d, k);
    forall j ensures Has(Windowed(d, k), j) <==> Has(d, j) || j == q {
      InsertAt(d, q, k, j);
    }
  }

  lemma ChainNext(d: Medias, codes: Fecs, order: seq<nat>, q: nat, wide: bool)
    requires Chain(d, codes, order, wide) && q < 0x10000 && Fillable(d, codes, order, q, wide)
    ensures Chain(d, codes, order + [q], wide)
  {
    var more := order + [q];
    forall i | 0 <= i < |more| ensures Link(d, codes, more, i, wide) {
      assert more[..i] == order[..i];
      if i < |order| {
        assert Link(d, codes, order, i, wide);
      } else {
        assert order[..|order|] == order;
      }
    }
  }

  /** The FEC packets that can still be of use stay on file. */
  lemma CodesStay(d: Medias, codes: Fecs, ext: nat, k: Packet)
    requires MediasOk(d) && d != [] && FecsOk(codes) && ext <= Last(d)
    ensures var kept := DropBelow(codes, Threshold(Last(Insert(d, ext, k))));
            && (forall f :: OnFile(kept, f) ==> OnFile(codes, f))
            && (forall f :: OnFile(codes, f) && FecOk(f) && Base(f) >= First(d) ==> OnFile(kept, f))
  {
    InsertLast(d, ext, k);
    var t := Threshold(Last(Insert(d, ext, k)));
    var n := DropSuffix(codes, t);
    var kept := codes[n..];
    forall f | OnFile(kept, f) ensures OnFile(codes, f) {
      var c :| 0 <= c < |kept| && kept[c].val == f;
      assert codes[n + c].val == f;
    }
    forall f | OnFile(codes, f) && FecOk(f) && Base(f) >= First(d) ensures OnFile(kept, f) {
      var c :| 0 <= c < |codes| && codes[c].val == f;
      assert kept[c - n].val == f;
    }
  }

  /** Whatever could be filled one after the other has been filled when nothing more can be. */
  lemma {:induction false} ChainPresent(d0: Medias, codes0: Fecs, d: Medias, codes: Fecs, filled: seq<nat>,
                                        order: seq<nat>, n: nat, wide: bool)
    requires After(d0, codes0, d, codes, filled, wide) && AtRest(d, codes, wide)
    requires Chain(d0, codes0, order, wide) && n <= |order|
    ensures forall i :: 0 <= i < n ==> Has(d, order[i])
    decreases n
  {
    if n > 0 {
      ChainPresent(d0, codes0, d, codes, filled, order, n - 1, wide);
      assert Link(d0, codes0, order, n - 1, wide);
      if !Has(d, order[n - 1]) {
        NotAtRest(d0, codes0, d, codes, filled, order[..n - 1], order[n - 1], wide);
      }
    }
  }

  lemma NotAtRest(d0: Medias, codes0: Fecs, d: Medias, codes: Fecs, filled: seq<nat>,
                  more: seq<nat>, q: nat, wide: bool)
    requires After(d0, codes0, d, codes, filled, wide) && Fillable(d0, codes0, more, q, wide)
    requires (forall j :: j in more ==> Has(d, j)) && !Has(d, q)
    ensures !AtRest(d, codes, wide)
  {
    var c0 :| 0 <= c0 < |codes0| && ReadyWith(d0, more, codes0[c0].val, q, wide);
    var f := codes0[c0].val;
    assert OnFile(codes0, f) && OnFile(codes, f);
    var c :| 0 <= c < |codes| && codes[c].val == f;
    assert Ready(d, codes[c].val, q, wide) && !Idle(d, codes[c].val, q, wide);
  }

  lemma RestNotDoomed(d0: Medias, codes0: Fecs, d: Medias, codes: Fecs, filled: seq<nat>, wide: bool)
    requires After(d0, codes0, d, codes, filled, wide) && AtRest(d, codes, wide)
    ensures !Doomed(d0, codes0, wide)
  {
    forall order, q | Chain(d0, codes0, order, wide) && q >= 0x10000 && Fillable(d0, codes0, order, q, wide)
      ensures false
    {
      ChainPresent(d0, codes0, d, codes, filled, order, |order|, wide);
      forall i | 0 <= i < |filled| ensures filled[i] < 0x10000 {
        assert Link(d0, codes0, filled, i, wide);
      }
      var c :| 0 <= c < |codes0| && ReadyWith(d0, order, codes0[c].val, q, wide);
      assert !Has(d0, q) && q !in filled;
      NotAtRest(d0, codes0, d, codes, filled, order, q, wide);
    }
  }

  /** The same gap, numbered 2^16 or more, is found by every call from now on. */
  ghost predicate Stuck(d: Medias, codes: Fecs, q: nat, c: nat, wide: bool) {
    && q >= 0x10000 && FirstAt(d, codes, q, c, wide) && !Unsafe(d, codes[c].val, q, wide)
    && forall i :: 0 <= i < |codes| ==> codes[i].key >= Threshold(Last(d))
  }

  /** A success above 2^16 leaves the buffer as it was, and the same FEC packet first in line for the same gap. */
  lemma StuckNow(d: Medias, codes: Fecs, q: nat, c: nat, k: Packet, wide: bool) returns (c': nat)
    requires MediasOk(d) && FecsOk(codes) && q >= 0x10000 && FirstAt(d, codes, q, c, wide)
    requires FilledBy(d, codes, q, c, k, wide) && !Unsafe(d, codes[c].val, q, wide)
    ensures Windowed(d, Clone(k)) == d
    ensures var kept := DropBelow(codes, Threshold(Last(Insert(d, k.ext, Clone(k)))));
            Stuck(d, kept, q, c', wide) && kept[c'] == codes[c]
    ensures (forall i :: 0 <= i < |codes| ==> codes[i].key >= Threshold(Last(d))) ==>
              DropBelow(codes, Threshold(Last(Insert(d, k.ext, Clone(k))))) == codes
  {
    Refiled(d, q, Clone(k));
    InsertLast(d, k.ext, Clone(k));
    var t := Threshold(Last(d));
    var n := DropSuffix(codes, t);
    assert codes[c].key >= First(d) >= t;
    c' := c - n;
    assert forall i :: 0 <= i < |codes[n..]| ==> codes[n..][i] == codes[n + i];
    if n == 0 {
      assert codes[0..] == codes;
    }
  }

  /** Another call then finds the gap again and changes nothing, and so does every one after it. */
  method RecoverAgain(fec: FecDecoder, ghost q: nat, ghost c: nat) returns (r: Outcome)
    requires fec.Valid() && Stuck(fec.medias, fec.codes, q, c, fec.wide)
    modifies fec
    ensures fec.Valid() && fec.medias == old(fec.medias) && fec.codes == old(fec.codes)
    ensures r.Recovered? && FilledBy(fec.medias, fec.codes, q, c, r.packet, fec.wide)
  {
    ghost var d, codes := fec.medias, fec.codes;
    assert !AtRest(d, codes, fec.wide) by { assert !AllIdle(d, codes, q, |codes|, fec.wide); }
    var q';
    ghost var c';
    r, q', c' := fec.Recover();
    FirstUnique(d, codes, q, c, q', c', fec.wide);
    var _ := StuckNow(d, codes, q, c, r.packet, fec.wide);
  }

  /** A receiver whose buffer holds what was sent, and whose FEC packets are good for the gaps they name. */
  ghost predicate TrueReceiver(fec: FecDecoder, sent: nat -> Packet)
    reads fec
  {
    fec.Valid() && TrueMedias(fec.medias, sent) && TrueCodes(fec.medias, fec.codes, sent)
  }

  /** One call of `Recover` by a true receiver. */
  method RecoverOne(fec: FecDecoder, ghost sent: nat -> Packet) returns (last: Outcome, q: nat, ghost c: nat)
    requires TrueReceiver(fec, sent)
    modifies fec
    ensures TrueReceiver(fec, sent) && Kept(old(fec.medias), old(fec.codes), fec.medias, fec.codes)
    ensures last.Nothing? <==> AtRest(old(fec.medias), old(fec.codes), fec.wide)
    ensures last.Undefined? <==> exists q, c :: OpenAt(old(fec.medias), old(fec.codes), q, c, fec.wide)
    ensures last.Undefined? ==> OpenAt(fec.medias, fec.codes, q, c, fec.wide)
    ensures !last.Recovered? ==> fec.medias == old(fec.medias) && fec.codes == old(fec.codes)
    ensures last.Recovered? ==> FirstAt(old(fec.medias), old(fec.codes), q, c, fec.wide)
    ensures last.Recovered? ==>
              Success(old(fec.medias), old(fec.codes), fec.medias, fec.codes, q, c, last.packet, fec.wide)
    ensures last.Recovered? ==> last.packet.ext == q % 0x10000 && SameMedia(last.packet, sent(q))
  {
    ghost var d, codes := fec.medias, fec.codes;
    last, q, c := fec.Recover();
    if last.Recovered? {
      RecoveredIsTrue(d, codes, q, c, last.packet, fec.wide, sent);
      SuccessKeeps(d, codes, fec.medias, fec.codes, q, c, last.packet, fec.wide);
    }
    OpenHere(d, codes, q, c, fec.wide);
  }

  /** There is one first, or none: what C leaves open comes first here or nowhere. */
  lemma OpenHere(d: Medias, codes: Fecs, q: nat, c: nat, wide: bool)
    requires AtRest(d, codes, wide) || FirstAt(d, codes, q, c, wide)
    ensures FirstAt(d, codes, q, c, wide) ==> !AtRest(d, codes, wide)
    ensures (exists q', c' :: OpenAt(d, codes, q', c', wide)) <==> OpenAt(d, codes, q, c, wide)
  {
    if FirstAt(d, codes, q, c, wide) {
      assert !AllIdle(d, codes, q, |codes|, wide);
    }
    forall q', c' | OpenAt(d, codes, q', c', wide) ensures q' == q && c' == c {
      assert !AllIdle(d, codes, q', |codes|, wide);
      FirstUnique(d, codes, q, c, q', c', wide);
    }
  }

  /** Each packet is the one sent under its number. */
  ghost predicate WereSent(ks: seq<Packet>, sent: nat -> Packet) {
    forall i :: 0 <= i < |ks| ==> SameMedia(ks[i], sent(ks[i].ext))
  }

  lemma AllSent(ks: seq<Packet>, k: Packet, q: nat, sent: nat -> Packet)
    requires WereSent(ks, sent) && q < 0x10000 && k.ext == q % 0x10000 && SameMedia(k, sent(q))
    ensures WereSent(ks + [k], sent)
  {
  }

  /** What is known after one turn of the loop, which started with `d0` and `codes0` and has filled `filled`. */
  ghost predicate Turned(d0: Medias, codes0: Fecs, d: Medias, codes: Fecs, filled: seq<nat>,
                         last: Outcome, q: nat, c: nat, wide: bool) {
    match last
    case Nothing => AtRest(d, codes, wide) && !Doomed(d0, codes0, wide)
    case Undefined => OpenAt(d, codes, q, c, wide)
    case Recovered(_) =>
      if q < 0x10000 then After(d0, codes0, d, codes, filled, wide)
      else Doomed(d0, codes0, wide) && Stuck(d, codes, q, c, wide)
  }

  /** One turn of the loop. */
  method RecoverNext(fec: FecDecoder, ghost sent: nat -> Packet, ghost d0: Medias, ghost codes0: Fecs,
                     ghost filled: seq<nat>)
    returns (last: Outcome, q: nat, ghost c: nat, ghost filled': seq<nat>)
    requires TrueReceiver(fec, sent) && After(d0, codes0, fec.medias, fec.codes, filled, fec.wide)
    modifies fec
    ensures TrueReceiver(fec, sent) && Kept(old(fec.medias), old(fec.codes), fec.medias, fec.codes)
    ensures Turned(d0, codes0, fec.medias, fec.codes, filled', last, q, c, fec.wide)
    ensures last.Recovered? ==> last.packet.ext == q % 0x10000 && SameMedia(last.packet, sent(q))
    ensures 0 <= Gaps(fec.medias) == Gaps(old(fec.medias)) - if last.Recovered? && q < 0x10000 then 1 else 0
  {
    ghost var d, codes := fec.medias, fec.codes;
    last, q, c := RecoverOne(fec, sent);
    filled' := filled + [q];
    GapsBound(fec.medias);
    if last.Nothing? {
      RestNotDoomed(d0, codes0, d, codes, filled, fec.wide);
    } else if last.Recovered? {
      ProgressExactly(d, codes, q, c, last.packet, fec.wide);
      c := Onwards(d0, codes0, d, codes, fec.medias, fec.codes, filled, q, c, last.packet, fec.wide);
    }
  }

  lemma Onwards(d0: Medias, codes0: Fecs, d: Medias, codes: Fecs, d': Medias, codes': Fecs, filled: seq<nat>,
                q: nat, c: nat, k: Packet, wide: bool)
    returns (c': nat)
    requires MediasOk(d) && FecsOk(codes) && After(d0, codes0, d, codes, filled, wide)
    requires FirstAt(d, codes, q, c, wide) && Success(d, codes, d', codes', q, c, k, wide)
    ensures Turned(d0, codes0, d', codes', filled + [q], Recovered(k), q, c', wide)
  {
    FilledGap(d, codes, q, c, k, wide);
    c' := c;
    if q < 0x10000 {
      AfterNext(d0, codes0, d, codes, filled, codes[c].val, q, Clone(k), wide);
    } else {
      DoomedNow(d0, codes0, d, codes, filled, codes[c].val, q, wide);
      c' := StuckNow(d, codes, q, c, k, wide);
    }
  }

  lemma DoomedNow(d0: Medias, codes0: Fecs, d: Medias, codes: Fecs, filled: seq<nat>, f: FecData, q: nat, wide: bool)
    requires After(d0, codes0, d, codes, filled, wide) && Ready(d, f, q, wide) && OnFile(codes, f) && q >= 0x10000
    ensures Doomed(d0, codes0, wide)
  {
    ReadyAfter(d0, codes0, d, codes, filled, f, q, wide);
  }

  /**
    The loop of `ReadRTP`: recover until nothing more can be.  Every recovered packet is exactly the one sent under
    its number and closes one gap, until no FEC packet can fill any gap that is left, or the loop has come to a gap
    numbered 2^16 or more.  Such a gap it finds for ever, and it comes to one exactly if filling gaps below makes one
    fillable.
    */
  method RecoverAll(fec: FecDecoder, ghost sent: nat -> Packet)
    returns (recovered: seq<Packet>, end: End, ghost c: nat)
    requires TrueReceiver(fec, sent)
    modifies fec
    ensures TrueReceiver(fec, sent) && Kept(old(fec.medias), old(fec.codes), fec.medias, fec.codes)
    ensures WereSent(recovered, sent)
    ensures |recovered| == Gaps(old(fec.medias)) - Gaps(fec.medias)
    ensures end.Resting? ==> AtRest(fec.medias, fec.codes, fec.wide)
    ensures end.Forever? ==> Stuck(fec.medias, fec.codes, end.q, c, fec.wide)
    ensures end.Forever? ==> end.packet.ext == end.q % 0x10000 && SameMedia(end.packet, sent(end.q))
    ensures end.Open? ==> OpenAt(fec.medias, fec.codes, end.q, c, fec.wide)
    ensures !end.Open? ==> (end.Forever? <==> Doomed(old(fec.medias), old(fec.codes), fec.wide))
  {
    ghost var d0, codes0 := fec.medias, fec.codes;
    ghost var filled: seq<nat> := [];
    recovered := [];
    var last, q;
    last, q, c, filled := RecoverNext(fec, sent, d0, codes0, filled);
    while last.Recovered?
      invariant TrueReceiver(fec, sent) && Kept(d0, codes0, fec.medias, fec.codes)
      invariant Turned(d0, codes0, fec.medias, fec.codes, filled, last, q, c, fec.wide)
      invariant WereSent(recovered, sent)
      invariant last.Recovered? ==> last.packet.ext == q % 0x10000 && SameMedia(last.packet, sent(q))
      invariant |recovered| + (if last.Recovered? && q < 0x10000 then 1 else 0) == Gaps(d0) - Gaps(fec.medias)
      invariant Gaps(fec.medias) >= 0
      decreases Gaps(fec.medias), if !last.Recovered? then 0 else if q >= 0x10000 then 1 else 2
    {
      if q >= 0x10000 {
        end := Forever(q, last.packet);
        return;
      }
      AllSent(recovered, last.packet, q, sent);
      recovered := recovered + [last.packet];
      ghost var d, codes := fec.medias, fec.codes;
      last, q, c, filled := RecoverNext(fec, sent, d0, codes0, filled);
    }
    end := if last.Nothing? then Resting else Open(q);
  }

  /** What the buffer and the FEC packets on file are once a packet has arrived. */
  ghost function Arrived(d: Medias, codes: Fecs, inc: Incoming): (r: (Medias, Fecs))
    requires IncomingOk(inc)
  {
    var more := AddCodes(codes, NewCodes(inc));
    if inc.FecOnly? then (d, more)
    else
      var k := Stored(inc);
      (Windowed(d, k), DropBelow(more, Threshold(Last(Insert(d, k.ext, k)))))
  }

  /**
    The FEC branch of `ReadRTP`, one arriving packet: if the media packets are what was sent and, once it has arrived,
    the FEC packets on file are good for the gaps they name, everything handed on is what was sent.
    */
  method Receive(fec: FecDecoder, inc: Incoming, ghost sent: nat -> Packet)
    returns (handed: seq<Packet>, end: End, ghost c: nat)
    requires fec.Valid() && IncomingOk(inc) && TrueMedias(fec.medias, sent)
    requires !inc.FecOnly? ==> SameMedia(Stored(inc), sent(Stored(inc).ext))
    requires TrueCodes(Arrived(fec.medias, fec.codes, inc).0, Arrived(fec.medias, fec.codes, inc).1, sent)
    modifies fec
    ensures TrueReceiver(fec, sent) && WereSent(handed, sent) && (!inc.FecOnly? ==> Stored(inc) in handed)
    ensures var (d, codes) := Arrived(old(fec.medias), old(fec.codes), inc);
            Kept(d, codes, fec.medias, fec.codes) && (!end.Open? ==> (end.Forever? <==> Doomed(d, codes, fec.wide)))
    ensures end.Resting? ==> AtRest(fec.medias, fec.codes, fec.wide)
    ensures end.Forever? ==> Stuck(fec.medias, fec.codes, end.q, c, fec.wide) && SameMedia(end.packet, sent(end.q))
    ensures end.Open? ==> OpenAt(fec.medias, fec.codes, end.q, c, fec.wide)
  {
    ghost var d := fec.medias;
    var media := fec.AddPacket(inc);
    if media {
      WindowStaysTrue(d, Stored(inc), sent);
    }
    var recovered;
    recovered, end, c := RecoverAll(fec, sent);
    handed := (if media then [Stored(inc)] else []) + recovered;
    if media {
      SentFirst(Stored(inc), recovered, sent);
    }
  }

  lemma SentFirst(k: Packet, ks: seq<Packet>, sent: nat -> Packet)
    requires WereSent(ks, sent) && SameMedia(k, sent(k.ext))
    ensures WereSent([k] + ks, sent)
  {
  }

  // ---------- whole runs: parities of any cycle ----------

  /** How far ahead of the newest number a group may begin: 2^16 less the window and the mask. */
  const AHEAD := 0x10000 - WINDOW - 47

  /**
    The FEC packet is the parity of the packets its mask names from `start` on, of which it carries the low 16 bits,
    and covers the longest of them.
    */
  ghost predicate ParityFrom(f: FecData, start: nat, sent: nat -> Packet) {
    && FecOk(f) && Base(f) == start % 0x10000
    && RecoveryFields(f) == XorAll(Zero(Level0Size(f)), Group(sent, start, Level0Mask(f), 0, 64))
    && forall i :: 0 <= i < 64 && Level0Mask(f)[i] ==> |sent(start + i).payload| <= Level0Size(f)
  }

  /** A parity of some group, in any cycle, that does not begin too far ahead of the newest number. */
  ghost predicate Genuine(f: FecData, newest: nat, sent: nat -> Packet) {
    exists start: nat :: ParityFrom(f, start, sent) && (start < 0x10000 || start <= newest + AHEAD)
  }

  /** A parity of the first cycle is good for all it names. */
  lemma FirstCycleGood(f: FecData, start: nat, q: nat, sent: nat -> Packet)
    requires ParityFrom(f, start, sent) && start < 0x10000 && IsProtected(f, q)
    ensures GoodFor(f, q, sent)
  {
    assert sent(start + (q - start)) == sent(q);
  }

  /** A parity of a later cycle names no gap: recovery never makes use of it. */
  lemma LaterCycleIdle(d: Medias, f: FecData, start: nat, q: nat, wide: bool, sent: nat -> Packet)
    requires MediasOk(d) && IsLost(d, q) && ParityFrom(f, start, sent) && 0x10000 <= start <= Last(d) + AHEAD
    ensures !IsProtected(f, q) && Idle(d, f, q, wide)
  {
    WithoutCycles(start);
    assert First(d) >= Base(f) + 47;
  }

  /** A receiver that has heard of numbers up to `newest` and holds only parities of what was sent. */
  ghost predicate Honest(d: Medias, codes: Fecs, newest: nat, sent: nat -> Packet) {
    && MediasOk(d) && TrueMedias(d, sent) && (if d == [] then newest < WINDOW else newest == Last(d))
    && forall f :: OnFile(codes, f) ==> Genuine(f, newest, sent)
  }

  lemma HonestIsTrue(d: Medias, codes: Fecs, newest: nat, sent: nat -> Packet)
    requires Honest(d, codes, newest, sent)
    ensures TrueCodes(d, codes, sent)
  {
    forall f, q | OnFile(codes, f) && IsLost(d, q) && FecOk(f) && IsProtected(f, q) ensures GoodFor(f, q, sent) {
      GenuineGood(d, f, q, sent);
    }
  }

  lemma GenuineGood(d: Medias, f: FecData, q: nat, sent: nat -> Packet)
    requires MediasOk(d) && IsLost(d, q) && Genuine(f, Last(d), sent) && FecOk(f) && IsProtected(f, q)
    ensures GoodFor(f, q, sent)
  {
    var start: nat :| ParityFrom(f, start, sent) && (start < 0x10000 || start <= Last(d) + AHEAD);
    if start < 0x10000 {
      FirstCycleGood(f, start, q, sent);
    } else {
      LaterCycleIdle(d, f, start, q, true, sent);
    }
  }

  /** The newest number heard of. */
  function Heard(newest: nat, inc: Incoming): nat {
    if inc.FecOnly? || Stored(inc).ext <= newest then newest else Stored(inc).ext
  }

  function HeardAll(newest: nat, incs: seq<Incoming>): nat
    decreases |incs|
  {
    if incs == [] then newest else Heard(HeardAll(newest, incs[..|incs| - 1]), incs[|incs| - 1])
  }

  /** What arrives was sent, or is a parity of what was sent. */
  ghost predicate HonestIncoming(inc: Incoming, newest: nat, sent: nat -> Packet) {
    && IncomingOk(inc)
    && (!inc.FecOnly? ==> SameMedia(Stored(inc), sent(Stored(inc).ext)))
    && forall f :: f in NewCodes(inc) ==> Genuine(f, newest, sent)
  }

  /** Every packet of a run is honest when it arrives. */
  ghost predicate HonestRun(incs: seq<Incoming>, newest: nat, sent: nat -> Packet) {
    forall i :: 0 <= i < |incs| ==> HonestIncoming(incs[i], HeardAll(newest, incs[..i + 1]), sent)
  }

  lemma {:induction false} AddedOnFile(codes: Fecs, fs: seq<FecData>, f: FecData)
    requires (forall g :: g in fs ==> FecOk(g)) && OnFile(AddCodes(codes, fs), f)
    ensures OnFile(codes, f) || f in fs
    decreases |fs|
  {
    if fs != [] {
      var n := |fs| - 1;
      var g := fs[n];
      var all := AddCodes(codes, fs[..n]);
      var c :| 0 <= c < |AddCodes(codes, fs)| && AddCodes(codes, fs)[c].val == f;
      var j := InsertFrom(all, Base(g), g, c);
      if j >= 0 {
        assert OnFile(all, f);
        AddedOnFile(codes, fs[..n], f);
      }
    }
  }

  lemma DroppedOnFile(codes: Fecs, t: int, f: FecData)
    requires OnFile(DropBelow(codes, t), f)
    ensures OnFile(codes, f)
  {
    var n := DropSuffix(codes, t);
    var c :| 0 <= c < |codes[n..]| && codes[n..][c].val == f;
    assert codes[n + c].val == f;
  }

  /** What the newest number has to do with the window. */
  lemma NewestHeard(d: Medias, k: Packet, newest: nat)
    requires MediasOk(d) && PacketOk(k) && k.ext < 0x1_0000_0000
    requires if d == [] then newest < WINDOW else newest == Last(d)
    ensures var e := Windowed(d, k); var n := if k.ext <= newest then newest else k.ext;
            MediasOk(e) && if e == [] then n < WINDOW else n == Last(e)
  {
    var e := Windowed(d, k);
    var n := if k.ext <= newest then newest else k.ext;
    WindowHolds(d, k);
    InsertLast(d, k.ext, k);
    var m := DropSuffix(Insert(d, k.ext, k), Threshold(Last(Insert(d, k.ext, k))));
    if d == [] || n == k.ext {
      WindowContents(d, k, k.ext);
    } else {
      HasIndex(d, |d| - 1);
      WindowContents(d, k, n);
    }
  }

  /** An honest arrival leaves an honest receiver. */
  lemma HonestArrival(d: Medias, codes: Fecs, inc: Incoming, newest: nat, sent: nat -> Packet)
    requires Honest(d, codes, newest, sent) && HonestIncoming(inc, Heard(newest, inc), sent)
    ensures Honest(Arrived(d, codes, inc).0, Arrived(d, codes, inc).1, Heard(newest, inc), sent)
  {
    var (e, kept) := Arrived(d, codes, inc);
    if !inc.FecOnly? {
      NewestHeard(d, Stored(inc), newest);
      WindowStaysTrue(d, Stored(inc), sent);
    }
    forall f | OnFile(kept, f) ensures Genuine(f, Heard(newest, inc), sent) {
      ArrivedOnFile(d, codes, inc, f);
      if OnFile(codes, f) {
      }
    }
  }

  lemma ArrivedOnFile(d: Medias, codes: Fecs, inc: Incoming, f: FecData)
    requires IncomingOk(inc) && OnFile(Arrived(d, codes, inc).1, f)
    ensures OnFile(codes, f) || f in NewCodes(inc)
  {
    if !inc.FecOnly? {
      DroppedOnFile(AddCodes(codes, NewCodes(inc)), Threshold(Last(Insert(d, Stored(inc).ext, Stored(inc)))), f);
    }
    AddedOnFile(codes, NewCodes(inc), f);
  }

  /** One honest arrival. */
  method ReceiveHonest(fec: FecDecoder, inc: Incoming, ghost newest: nat, ghost sent: nat -> Packet)
    returns (handed: seq<Packet>, end: End)
    requires fec.Valid() && Honest(fec.medias, fec.codes, newest, sent)
    requires HonestIncoming(inc, Heard(newest, inc), sent)
    modifies fec
    ensures fec.Valid() && Honest(fec.medias, fec.codes, Heard(newest, inc), sent)
    ensures WereSent(handed, sent) && (!inc.FecOnly? ==> Stored(inc) in handed)
  {
    HonestArrival(fec.medias, fec.codes, inc, newest, sent);
    ghost var a := Arrived(fec.medias, fec.codes, inc);
    HonestIsTrue(a.0, a.1, Heard(newest, inc), sent);
    ghost var c;
    handed, end, c := Receive(fec, inc, sent);
  }

  /** The media packets among the arrivals are handed on. */
  ghost predicate HandedOn(incs: seq<Incoming>, handed: seq<Packet>) {
    forall inc :: inc in incs && !inc.FecOnly? ==> Stored(inc) in handed
  }

  /**
    A whole run of `ReadRTP`, in any cycle: fed packets that were sent and parities of packets that were sent, the
    receiver hands on only what was sent, until the loop never ends or C leaves open how it goes on.
    */
  method ReceiveAll(fec: FecDecoder, incs: seq<Incoming>, ghost newest: nat, ghost sent: nat -> Packet)
    returns (handed: seq<Packet>, n: nat, end: End)
    requires fec.Valid() && Honest(fec.medias, fec.codes, newest, sent) && HonestRun(incs, newest, sent)
    modifies fec
    ensures fec.Valid() && n <= |incs| && Honest(fec.medias, fec.codes, HeardAll(newest, incs[..n]), sent)
    ensures WereSent(handed, sent) && HandedOn(incs[..n], handed) && (end.Resting? ==> n == |incs|)
  {
    handed, n, end := [], 0, Resting;
    while n < |incs| && end.Resting?
      invariant fec.Valid() && n <= |incs| && Honest(fec.medias, fec.codes, HeardAll(newest, incs[..n]), sent)
      invariant WereSent(handed, sent) && HandedOn(incs[..n], handed)
      decreases |incs| - n
    {
      HeardNext(newest, incs, n);
      var more;
      more, end := ReceiveHonest(fec, incs[n], HeardAll(newest, incs[..n]), sent);
      BothSent(handed, more, sent);
      handed, n := handed + more, n + 1;
    }
  }

  lemma HeardNext(newest: nat, incs: seq<Incoming>, n: nat)
    requires n < |incs|
    ensures HeardAll(newest, incs[..n + 1]) == Heard(HeardAll(newest, incs[..n]), incs[n])
  {
    assert incs[..n + 1][..n] == incs[..n];
  }

  lemma BothSent(a: seq<Packet>, b: seq<Packet>, sent: nat -> Packet)
    requires WereSent(a, sent) && WereSent(b, sent)
    ensures WereSent(a + b, sent)
  {
  }

  // ---------- when the loop ends ----------

  /** No FEC packet names a gap numbered 2^16 or more. */
  ghost predicate OutOfReach(d: Medias, codes: Fecs) {
    forall c, q :: 0 <= c < |codes| && IsLost(d, q) && q >= 0x10000 && FecOk(codes[c].val) ==>
      !IsProtected(codes[c].val, q)
  }

  lemma OutOfReachEnds(d: Medias, codes: Fecs, wide: bool)
    requires OutOfReach(d, codes)
    ensures !Doomed(d, codes, wide)
  {
  }

  /** A buffer that does not reach past 2^16, or lies wholly above the last base's mask, is out of reach. */
  lemma FarFromWrap(d: Medias, codes: Fecs)
    requires d != [] ==> Last(d) <= 0x10000 || First(d) >= 0x10000 + 46
    ensures OutOfReach(d, codes)
  {
    forall c, q | 0 <= c < |codes| && IsLost(d, q) && q >= 0x10000 && FecOk(codes[c].val)
      ensures !IsProtected(codes[c].val, q)
    {
      HeaderBounds(codes[c].val);
    }
  }

  /** A gap numbered 2^16 or more that a FEC packet can fill at once is enough. */
  lemma ReadyAbove(d: Medias, codes: Fecs, q: nat, c: nat, wide: bool)
    requires c < |codes| && Ready(d, codes[c].val, q, wide) && q >= 0x10000
    ensures Doomed(d, codes, wide)
  {
    assert ReadyWith(d, [], codes[c].val, q, wide);
    assert Chain(d, codes, [], wide) && Fillable(d, codes, [], q, wide);
  }

  /** The FEC packet names 65535 and 65536. */
  ghost predicate NamesWrap(f: FecData) {
    FecOk(f) && Base(f) == 0xFFFF && forall i :: 0 <= i < 64 ==> (Level0Mask(f)[i] <==> i < 2)
  }

  /** Packets 65535 and 65537 are buffered, 65536 is lost and its parity with 65535 has arrived. */
  lemma LoopNeverEnds(a: Packet, b: Packet, f: FecData, q: nat, sent: nat -> Packet)
    requires PacketOk(a) && PacketOk(b) && a.ext == 0xFFFF && b.ext == 0x10001 && q == 0x10000
    requires SameMedia(a, sent(a.ext)) && SameMedia(b, sent(b.ext)) && sent(q).pt !in {RED, ULPFEC}
    requires NamesWrap(f) && IsParityOf(f, sent) && |sent(q).payload| <= Level0Size(f)
    ensures var d, codes := [Slot(a.ext, a), Slot(b.ext, b)], [Slot(Base(f), f)];
            && MediasOk(d) && FecsOk(codes) && TrueMedias(d, sent) && TrueCodes(d, codes, sent)
            && Doomed(d, codes, true) && Stuck(d, codes, q, 0, true)
  {
    var d, codes := [Slot(a.ext, a), Slot(b.ext, b)], [Slot(Base(f), f)];
    HasIndex(d, 0);
    HasIndex(d, 1);
    forall j | Has(d, j) ensures SameMedia(At(d, j), sent(j)) {
      assert d[Find(d, j)].key == j;
    }
    ReadyAbove(d, codes, q, 0, true);
    ParityRebuilds(d, f, q, true, sent);
  }

  /** Such a FEC packet in fourteen bytes: the parity of empty packets. */
  ghost predicate WrapCode(f: FecData) {
    f.data == [0, 0, 0xFF, 0xFF, 0, 0, 0, 0, 0, 0, 0, 0, 0xC0, 0]
  }

  lemma LoopInput(f: FecData, sent: nat -> Packet)
    requires WrapCode(f) && forall k :: sent(k) == Packet(k, false, false, false, 0, 0, 0, [])
    ensures NamesWrap(f) && IsParityOf(f, sent)
  {
    WrapFields(f);
    WrapMask(f);
    EmptyGroup(sent, Base(f), Level0Mask(f), 64);
    NothingCombined(Zero(0), Group(sent, Base(f), Level0Mask(f), 0, 64));
  }

  lemma WrapFields(f: FecData)
    requires WrapCode(f)
    ensures FecOk(f) && Base(f) == 0xFFFF && RecoveryFields(f) == Zero(Level0Size(f)) && Level0Size(f) == 0
  {
    TwoBytes(f.data[2..4]);
    ZeroNumber(f.data[8..10]);
    ZeroNumber(f.data[10..12]);
    ZeroNumber(f.data[4..8]);
  }

  lemma WrapMask(f: FecData)
    requires WrapCode(f) && FecOk(f)
    ensures forall i :: 0 <= i < 64 ==> (Level0Mask(f)[i] <==> i < 2)
  {
    var m := f.data[12..14];
    FirstByteBits(m);
    FirstByteBits(m[1..]);
    ZeroBits(8);
  }

  ghost predicate AllBlank(ks: seq<Packet>) {
    forall i :: 0 <= i < |ks| ==> FieldsOf(ks[i], 0) == Zero(0)
  }

  lemma {:induction false} EmptyGroup(sent: nat -> Packet, base: nat, mask: seq<bool>, j: nat)
    requires j <= |mask| && forall k :: sent(k) == Packet(k, false, false, false, 0, 0, 0, [])
    ensures AllBlank(Group(sent, base, mask, 0, j))
    decreases j
  {
    if j > 0 {
      EmptyGroup(sent, base, mask, j - 1);
      var k := sent(base + j - 1);
      assert FieldsOf(k, 0) == Zero(0);
    }
  }

  lemma {:induction false} NothingCombined(a: Fields, ks: seq<Packet>)
    requires a == Zero(0) && AllBlank(ks)
    ensures XorAll(a, ks) == a
    decreases |ks|
  {
    if ks != [] {
      NothingCombined(a, ks[..|ks| - 1]);
      XorFromZero(a);
    }
  }

  lemma TwoBytes(s: seq<byte>)
    requires |s| == 2
    ensures FromBytes(s) == 256 * s[0] as int + s[1] as int
  {
    assert s[..1][..0] == [] && s[..1][0] == s[0];
    assert FromBytes(s[..1]) == s[0];
  }

  lemma {:induction false} ZeroNumber(s: seq<byte>)
    requires forall i :: 0 <= i < |s| ==> s[i] == 0
    ensures FromBytes(s) == 0
    decreases |s|
  {
    if s != [] {
      ZeroNumber(s[..|s| - 1]);
    }
  }

  // ---------- which gaps can be recovered at all ----------

  function OneHot(n: nat, i: nat): (m: seq<bool>)
    ensures |m| == n && forall j :: 0 <= j < n ==> m[j] == (j == i)
  {
    seq(n, j => j == i)
  }

  /** A FEC packet that names only the number `base+i` and protects no bytes. */
  function LoneCode(base: nat, i: nat): FecData {
    FecData([0x40, 0] + ToBytes(base, 2) + seq(8, _ => 0) + MaskBytes(OneHot(48, i)))
  }

  lemma LoneCodeMeans(base: nat, i: nat)
    requires base < 0x10000 && i < 48
    ensures var f := LoneCode(base, i);
            FecOk(f) && Base(f) == base && forall j :: 0 <= j < 64 ==> (Level0Mask(f)[j] <==> j == i)
  {
    var f, m := LoneCode(base, i), OneHot(48, i);
    assert f.data[2..4] == ToBytes(base, 2);
    assert f.data[12..18] == MaskBytes(m);
    ZeroNumber(f.data[10..12]);
    MaskBytesBits(m);
    Pow2Values();
    NumberBack(base, 2);
  }

  /**
    A gap can be recovered by some FEC packet exactly if the window begins in the first cycle and the gap is within
    reach of a mask that begins there too.
    */
  lemma RecoverableExactly(d: Medias, q: nat, wide: bool)
    requires MediasOk(d) && IsLost(d, q)
    ensures (exists f :: Ready(d, f, q, wide)) <==> First(d) <= 0xFFFF && q <= 0xFFFF + 47
  {
    if First(d) <= 0xFFFF && q <= 0xFFFF + 47 {
      var base := if First(d) + 47 < q then q - 47 else First(d);
      LoneCodeMeans(base, q - base);
      assert OthersPresent(d, LoneCode(base, q - base), q, wide);
      assert Ready(d, LoneCode(base, q - base), q, wide);
    }
    forall f | Ready(d, f, q, wide) ensures First(d) <= 0xFFFF && q <= 0xFFFF + 47 {
      HeaderBounds(f);
    }
  }

  /** Once the window lies past the first cycle, `Recover` finds nothing to do, whatever FEC packets there are. */
  lemma PastFirstCycle(d: Medias, codes: Fecs, wide: bool)
    requires MediasOk(d) && d != [] && First(d) >= 0x10000 + 46
    ensures AtRest(d, codes, wide)
  {
    forall q, c | IsLost(d, q) && 0 <= c < |codes| ensures Idle(d, codes[c].val, q, wide) {
      if FecOk(codes[c].val) {
        HeaderBounds(codes[c].val);
      }
    }
  }

  /** With a 32-bit `get8` nothing is ever recovered while the window spans fewer than 33 sequence numbers. */
  lemma NarrowRecoversNothingEarly(d: Medias, f: FecData, q: nat)
    requires MediasOk(d) && IsLost(d, q) && FecOk(f) && IsProtected(f, q) && First(d) <= Base(f)
    requires Last(d) < First(d) + 32 && exists i :: 0 <= i < 64 && Level0Mask(f)[i] && Base(f) + i != q
    ensures !OthersPresent(d, f, q, false)
  {
    if OthersPresent(d, f, q, false) {
      var i :| 0 <= i < 64 && Level0Mask(f)[i] && Base(f) + i != q;
      AtMostLast(d, Base(f) + i);
    }
  }
}
