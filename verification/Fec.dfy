/**
  `FECDecoder` (cca/fecdecoder.cpp) and the recovery loop of `RTPSession::ReadRTP` (cca/rtpsession.cpp).
  A QWORD mask is its 64 bits, most significant first.
  */
module Fec {
  import opened NatMap
  import opened FecCode

  type Medias = seq<Slot<Packet>>
  type Fecs = seq<Slot<FecData>>

  const RED := 109
  const ULPFEC := 108
  const WINDOW := 63

  // ---------- the window ----------

  function First(d: Medias): nat
    requires d != []
  {
    d[0].key
  }

  function Last(d: Medias): nat
    requires d != []
  {
    d[|d| - 1].key
  }

  /** `seq-63` on a DWORD. */
  function Threshold(last: nat): nat {
    if last >= WINDOW then last - WINDOW else last + 0x1_0000_0000 - WINDOW
  }

  ghost predicate MediasOk(d: Medias) {
    && Sorted(d)
    && (forall i :: 0 <= i < |d| ==> d[i].val.ext == d[i].key && PacketOk(d[i].val))
    && (d != [] ==> WINDOW <= Last(d) < 0x1_0000_0000 && Last(d) - First(d) <= WINDOW)
  }

  ghost predicate FecsOk(d: Fecs) {
    Sorted(d) && forall i :: 0 <= i < |d| ==> FecOk(d[i].val) && Base(d[i].val) == d[i].key
  }

  /** What the eviction loop leaves of the buffered packets once `k` has come in. */
  function Windowed(d: Medias, k: Packet): Medias {
    var e := Insert(d, k.ext, k);
    DropBelow(e, Threshold(Last(e)))
  }

  lemma InsertOk(d: Medias, k: Packet, i: nat)
    requires MediasOk(d) && PacketOk(k) && i < |Insert(d, k.ext, k)|
    ensures Insert(d, k.ext, k)[i].val.ext == Insert(d, k.ext, k)[i].key && PacketOk(Insert(d, k.ext, k)[i].val)
  {
    var e := Insert(d, k.ext, k);
    InsertSorted(d, k.ext, k);
    HasIndex(e, i);
    InsertAt(d, k.ext, k, e[i].key);
    if e[i].key != k.ext {
      assert At(d, e[i].key) == d[Find(d, e[i].key)].val;
    }
  }

  /** After a media packet every buffered sequence number is within 63 of the newest. */
  lemma WindowHolds(d: Medias, k: Packet)
    requires MediasOk(d) && PacketOk(k) && k.ext < 0x1_0000_0000
    ensures MediasOk(Windowed(d, k))
  {
    var e := Insert(d, k.ext, k);
    InsertSorted(d, k.ext, k);
    InsertLast(d, k.ext, k);
    forall i | 0 <= i < |e| ensures e[i].val.ext == e[i].key && PacketOk(e[i].val) {
      InsertOk(d, k, i);
    }
    var n := DropSuffix(e, Threshold(Last(e)));
    SuffixOk(e, n);
  }

  lemma SuffixOk(e: Medias, n: nat)
    requires Sorted(e) && forall i :: 0 <= i < |e| ==> e[i].val.ext == e[i].key && PacketOk(e[i].val)
    requires n <= |e| && e != [] && Last(e) < 0x1_0000_0000
    requires n < |e| ==> e[n].key >= Threshold(Last(e))
    ensures MediasOk(e[n..])
  {
    var w := e[n..];
    assert forall i :: 0 <= i < |w| ==> w[i] == e[n + i];
    if w != [] {
      assert Last(w) == Last(e) && First(w) == e[n].key <= Last(e);
    }
  }

  /** Exactly what is buffered afterwards: the newest 64 sequence numbers, or nothing while the newest is below 63. */
  lemma WindowContents(d: Medias, k: Packet, q: nat)
    requires MediasOk(d) && k.ext < 0x1_0000_0000
    ensures var newest := if d == [] || k.ext > Last(d) then k.ext else Last(d);
            Has(Windowed(d, k), q) <==> newest >= WINDOW && q + WINDOW >= newest && (q == k.ext || Has(d, q))
    ensures Has(Windowed(d, k), q) ==> At(Windowed(d, k), q) == if q == k.ext then k else At(d, q)
  {
    var e := Insert(d, k.ext, k);
    InsertSorted(d, k.ext, k);
    InsertLast(d, k.ext, k);
    InsertAt(d, k.ext, k, q);
    DropBelowAt(e, Threshold(Last(e)), q);
    if Has(e, q) {
      AtMostLast(e, q);
    }
  }

  /** The first packet of a stream is dropped at once if it is numbered 62. */
  lemma EarlyPacketLost(k: Packet)
    requires k.ext == 62
    ensures Windowed([], k) == []
  {
    var e := Insert([], k.ext, k);
    assert Threshold(Last(e)) > k.ext && DropBelow(e[1..], Threshold(Last(e))) == [];
  }

  lemma AtMostLast<V>(e: seq<Slot<V>>, q: nat)
    requires Sorted(e) && e != [] && Has(e, q)
    ensures q <= e[|e| - 1].key
  {
    assert e[Find(e, q)].key == q;
  }

  lemma CodesKept(d: Fecs, t: int)
    requires FecsOk(d)
    ensures FecsOk(DropBelow(d, t))
  {
    var n := DropSuffix(d, t);
    assert forall i :: 0 <= i < |d[n..]| ==> d[n..][i] == d[n + i];
  }

  lemma CodeAdded(d: Fecs, f: FecData)
    requires FecsOk(d) && FecOk(f)
    ensures FecsOk(Insert(d, Base(f), f))
  {
    var e := Insert(d, Base(f), f);
    InsertSorted(d, Base(f), f);
    forall i | 0 <= i < |e| ensures FecOk(e[i].val) && Base(e[i].val) == e[i].key {
      HasIndex(e, i);
      InsertAt(d, Base(f), f, e[i].key);
      if e[i].key != Base(f) {
        assert At(d, e[i].key) == d[Find(d, e[i].key)].val;
      }
    }
  }

  function AddCodes(d: Fecs, fs: seq<FecData>): Fecs
    requires forall f :: f in fs ==> FecOk(f)
    decreases |fs|
  {
    if fs == [] then d
    else
      var n := |fs| - 1;
      assert fs[n] in fs;
      Insert(AddCodes(d, fs[..n]), Base(fs[n]), fs[n])
  }

  /** Which bases have a FEC packet on file after an arrival: those known or newly arrived, from `t` on. */
  lemma {:induction false} CodesContents(d: Fecs, fs: seq<FecData>, t: int, q: nat)
    requires FecsOk(d) && forall f :: f in fs ==> FecOk(f)
    ensures FecsOk(AddCodes(d, fs))
    ensures Has(AddCodes(d, fs), q) <==> Has(d, q) || exists f :: f in fs && Base(f) == q
    ensures Has(DropBelow(AddCodes(d, fs), t), q) <==> q >= t && Has(AddCodes(d, fs), q)
    decreases |fs|
  {
    if fs != [] {
      var n := |fs| - 1;
      assert fs[n] in fs && fs == fs[..n] + [fs[n]];
      CodesContents(d, fs[..n], t, q);
      CodeAdded(AddCodes(d, fs[..n]), fs[n]);
      InsertAt(AddCodes(d, fs[..n]), Base(fs[n]), fs[n], q);
    }
    DropBelowAt(AddCodes(d, fs), t, q);
  }

  // ---------- the masks ----------

  /** Which of the `n` sequence numbers from `lo` on are buffered. */
  function Presence(d: Medias, lo: nat, n: nat): (m: seq<bool>)
    ensures |m| == n && forall i :: 0 <= i < n ==> m[i] == Has(d, lo + i)
  {
    seq(n, i requires 0 <= i < n => Has(d, lo + i))
  }

  /** `lostMask`: the presence bits, zero-filled; a `get8` that returns a DWORD loses the first 32. */
  function LostMask(d: Medias, wide: bool): (m: seq<bool>)
    requires d != [] && First(d) <= Last(d) <= First(d) + WINDOW
    ensures |m| == 64
  {
    var bits := Presence(d, First(d), Last(d) - First(d) + 1);
    var full := bits + seq(64 - |bits|, _ => false);
    if wide then full else seq(32, _ => false) + full[32..]
  }

  /** `lostMask << k`. */
  function ShiftMask(m: seq<bool>, k: nat): (r: seq<bool>)
    requires k <= |m|
    ensures |r| == |m| && forall i :: 0 <= i < |m| ==> r[i] == (i + k < |m| && m[i + k])
  {
    m[k..] + seq(k, _ => false)
  }

  function AndMask(a: seq<bool>, b: seq<bool>): (r: seq<bool>)
    requires |a| == |b|
    ensures |r| == |a| && forall i :: 0 <= i < |a| ==> r[i] == (a[i] && b[i])
  {
    seq(|a|, i requires 0 <= i < |a| => a[i] && b[i])
  }

  /** The mask without the bit of the packet to recover. */
  function OthersMask(f: FecData, q: nat): (m: seq<bool>)
    requires FecOk(f) && IsProtected(f, q)
    ensures |m| == 64
  {
    Level0Mask(f)[q - Base(f) := false]
  }

  /** The mask test of `Recover`. */
  predicate TestPasses(f: FecData, q: nat, lost: seq<bool>, minSeq: nat)
    requires FecOk(f) && IsProtected(f, q) && |lost| == 64 && minSeq <= Base(f) <= minSeq + 64
  {
    var others := OthersMask(f, q);
    AndMask(others, ShiftMask(lost, Base(f) - minSeq)) == others
  }

  /** Every other packet of the group is buffered, where a narrow `get8` can still see it. */
  ghost predicate OthersPresent(d: Medias, f: FecData, q: nat, wide: bool)
    requires d != [] && FecOk(f)
  {
    forall i :: 0 <= i < 64 && Level0Mask(f)[i] && Base(f) + i != q ==>
      Has(d, Base(f) + i) && (wide || Base(f) + i >= First(d) + 32)
  }

  /** The mask test means what it is for: it passes iff every other protected packet is (visibly) buffered. */
  lemma TestMeansPresent(d: Medias, f: FecData, q: nat, wide: bool)
    requires MediasOk(d) && d != [] && FecOk(f) && IsProtected(f, q) && First(d) <= Base(f) <= First(d) + 64
    ensures TestPasses(f, q, LostMask(d, wide), First(d)) <==> OthersPresent(d, f, q, wide)
  {
    var lo := First(d);
    var k := Base(f) - lo;
    var others := OthersMask(f, q);
    var lost := LostMask(d, wide);
    var media := ShiftMask(lost, k);
    forall i | 0 <= i < 64 ensures media[i] <==> Has(d, Base(f) + i) && (wide || i + k >= 32) {
    }
    if TestPasses(f, q, lost, lo) {
      forall i | 0 <= i < 64 && Level0Mask(f)[i] && Base(f) + i != q
        ensures Has(d, Base(f) + i) && (wide || Base(f) + i >= lo + 32)
      {
        assert others[i];
        assert AndMask(others, media)[i];
      }
    }
    if OthersPresent(d, f, q, wide) {
      assert forall i :: 0 <= i < 64 ==> AndMask(others, media)[i] == others[i];
    }
  }

  // ---------- the group a FEC packet protects ----------

  /** The packets at the set positions `i..j` of a mask, in order. */
  function Group(packets: nat -> Packet, base: nat, mask: seq<bool>, i: nat, j: nat): seq<Packet>
    requires i <= j <= |mask|
    decreases j - i, |mask|
  {
    if i == j then []
    else Group(packets, base, mask, i, j - 1) + if mask[j - 1] then [packets(base + j - 1)] else []
  }

  function Buffered(d: Medias): nat -> Packet {
    (k: nat) => if Has(d, k) then At(d, k) else Packet(k, false, false, false, 0, 0, 0, [])
  }

  lemma {:induction false} GroupConcat(packets: nat -> Packet, base: nat, mask: seq<bool>, i: nat, m: nat, j: nat)
    requires i <= m <= j <= |mask|
    ensures Group(packets, base, mask, i, j) == Group(packets, base, mask, i, m) + Group(packets, base, mask, m, j)
    decreases j - m
  {
    if m == j {
      assert Group(packets, base, mask, i, m) + [] == Group(packets, base, mask, i, m);
    } else {
      GroupConcat(packets, base, mask, i, m, j - 1);
      var a, b := Group(packets, base, mask, i, m), Group(packets, base, mask, m, j - 1);
      var c := if mask[j - 1] then [packets(base + j - 1)] else [];
      assert a + b + c == a + (b + c);
    }
  }

  lemma {:induction false} GroupSame(packets: nat -> Packet, base: nat, mask: seq<bool>, mask': seq<bool>,
                                     i: nat, j: nat)
    requires i <= j <= |mask| == |mask'| && forall k :: i <= k < j ==> mask[k] == mask'[k]
    ensures Group(packets, base, mask, i, j) == Group(packets, base, mask', i, j)
    decreases j - i, |mask|
  {
    if i < j {
      GroupSame(packets, base, mask, mask', i, j - 1);
    }
  }

  lemma {:induction false} GroupAgrees(a: nat -> Packet, b: nat -> Packet, base: nat, mask: seq<bool>, i: nat, j: nat)
    requires i <= j <= |mask| && forall k :: i <= k < j && mask[k] ==> SameMedia(a(base + k), b(base + k))
    ensures var x, y := Group(a, base, mask, i, j), Group(b, base, mask, i, j);
            |x| == |y| && forall k :: 0 <= k < |x| ==> SameMedia(x[k], y[k])
    decreases j - i, |mask|
  {
    if i < j {
      GroupAgrees(a, b, base, mask, i, j - 1);
    }
  }

  /** Section 9.1 of RFC 5109: the FEC packet is the parity of the packets its mask names. */
  ghost predicate IsParityOf(f: FecData, sent: nat -> Packet)
    requires FecOk(f)
  {
    RecoveryFields(f) == XorAll(Zero(Level0Size(f)), Group(sent, Base(f), Level0Mask(f), 0, 64))
  }

  /** What the XOR loop of `Recover` arrives at. */
  function Combined(d: Medias, f: FecData, q: nat): (r: Fields)
    requires FecOk(f) && IsProtected(f, q)
    ensures |r.data| == Level0Size(f)
  {
    XorAll(RecoveryFields(f), Group(Buffered(d), Base(f), OthersMask(f, q), 0, 64))
  }

  /**
    The law of FEC recovery: a parity packet and all the other members of its group give back the missing
    packet's marker, type, timestamp and length, and its payload up to the protected size.
    */
  lemma ParityRebuilds(d: Medias, f: FecData, q: nat, wide: bool, sent: nat -> Packet)
    requires MediasOk(d) && d != [] && FecOk(f) && IsProtected(f, q) && IsParityOf(f, sent)
    requires OthersPresent(d, f, q, wide)
    requires forall k :: Has(d, k) ==> SameMedia(At(d, k), sent(k))
    ensures Combined(d, f, q) == FieldsOf(sent(q), Level0Size(f))
  {
    forall k | 0 <= k < 64 && OthersMask(f, q)[k] ensures SameMedia(Buffered(d)(Base(f) + k), sent(Base(f) + k)) {
      assert Has(d, Base(f) + k);
    }
    GroupRebuilds(RecoveryFields(f), Buffered(d), sent, Base(f), Level0Mask(f), OthersMask(f, q), q, Level0Size(f));
  }

  lemma GroupRebuilds(parity: Fields, held: nat -> Packet, sent: nat -> Packet, base: nat,
                      mask: seq<bool>, others: seq<bool>, q: nat, n: nat)
    requires |mask| == 64 && base <= q < base + 64 && mask[q - base] && others == mask[q - base := false]
    requires n == |parity.data| && parity == XorAll(Zero(n), Group(sent, base, mask, 0, 64))
    requires forall k :: 0 <= k < 64 && others[k] ==> SameMedia(held(base + k), sent(base + k))
    ensures XorAll(parity, Group(held, base, others, 0, 64)) == FieldsOf(sent(q), n)
  {
    var i := q - base;
    var before, after := Group(sent, base, mask, 0, i), Group(sent, base, mask, i + 1, 64);
    GroupWith(sent, base, mask, i, sent(q));
    GroupWithout(sent, base, mask, others, i);
    GroupAgrees(held, sent, base, others, 0, 64);
    RebuiltFrom(parity, before, sent(q), after, Group(held, base, others, 0, 64), n);
  }

  lemma RebuiltFrom(parity: Fields, before: seq<Packet>, missing: Packet, after: seq<Packet>, others: seq<Packet>,
                    n: nat)
    requires n == |parity.data| && parity == XorAll(Zero(n), before + [missing] + after)
    requires |others| == |before + after| && forall k :: 0 <= k < |others| ==> SameMedia(others[k], (before + after)[k])
    ensures XorAll(parity, others) == FieldsOf(missing, n)
  {
    XorSameMedia(parity, others, before + after);
    ParityRecovers(before, missing, after, n);
  }

  lemma GroupWith(sent: nat -> Packet, base: nat, mask: seq<bool>, i: nat, missing: Packet)
    requires |mask| == 64 && i < 64 && mask[i] && missing == sent(base + i)
    ensures Group(sent, base, mask, 0, 64)
         == Group(sent, base, mask, 0, i) + [missing] + Group(sent, base, mask, i + 1, 64)
  {
    GroupConcat(sent, base, mask, 0, i, 64);
    GroupConcat(sent, base, mask, i, i + 1, 64);
    assert Group(sent, base, mask, i, i + 1) == [missing];
  }

  lemma GroupWithout(sent: nat -> Packet, base: nat, mask: seq<bool>, others: seq<bool>, i: nat)
    requires |mask| == 64 && i < 64 && others == mask[i := false]
    ensures Group(sent, base, others, 0, 64) == Group(sent, base, mask, 0, i) + Group(sent, base, mask, i + 1, 64)
  {
    GroupConcat(sent, base, others, 0, i, 64);
    GroupConcat(sent, base, others, i, i + 1, 64);
    GroupSame(sent, base, others, mask, 0, i);
    GroupSame(sent, base, others, mask, i + 1, 64);
    assert Group(sent, base, others, i, i + 1) == [];
  }
}
