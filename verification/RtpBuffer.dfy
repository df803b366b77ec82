/**
  The jitter buffer `RTPBuffer` (mcu/include/rtpbuffer.h) as steps of a state machine: every stretch of code that
  runs under the mutex is one step, so a call of `Wait` is one `Turn` each time it holds the mutex.
  */
module JitterBuffer {
  import opened BitStrings
  import opened NatMap
  import opened Sequences

  datatype Timed = Timed(ext: nat, time: nat, payload: seq<byte>)

  type Packets = seq<Slot<Timed>>

  const NONE := 0xFFFF_FFFF   // (DWORD)-1: no packet is expected
  const LIMIT := 0xFFFF_FFFE  // the first sequence number after which `next` no longer orders

  datatype State = State(packets: Packets, cancel: bool, hurryUp: bool, next: nat, maxWait: nat)

  datatype Op =
    | Add(p: Timed)
    | Turn(now: nat)       // `Wait` takes the mutex, or wakes up, at `getTime()/1000 == now`
    | Cancel
    | Clear
    | HurryUp
    | Reset
    | SetMaxWaitTime(ms: nat)

  datatype Event =
    | Kept
    | Late
    | Duplicate
    | Delivered(p: Timed)
    | Asleep               // waits for the first packet's time to run out
    | Idle                 // waits for a packet
    | Stopped              // `Wait` returns no packet because of `Cancel`
    | Discarded(ps: seq<Timed>)
    | Done

  ghost predicate StateOk(s: State) {
    && Sorted(s.packets)
    && (forall i :: 0 <= i < |s.packets| ==> s.packets[i].val.ext == s.packets[i].key < 0x1_0000_0000)
    && s.next < 0x1_0000_0000
    && (s.next != NONE && s.packets != [] ==> s.next <= s.packets[0].key)
  }

  ghost predicate OpOk(op: Op) {
    op.Add? ==> op.p.ext < 0x1_0000_0000
  }

  function Initial(): State {
    State([], false, false, NONE, 0)
  }

  /** The first buffered packet may go: it is the expected one, its time is up, or everything is to go at once. */
  predicate Due(s: State, now: nat)
    requires s.packets != []
  {
    s.next == NONE || s.packets[0].key == s.next || s.packets[0].val.time + s.maxWait < now || s.hurryUp
  }

  function Values(d: Packets): (v: seq<Timed>)
    ensures |v| == |d| && forall i :: 0 <= i < |d| ==> v[i] == d[i].val
  {
    if d == [] then [] else [d[0].val] + Values(d[1..])
  }

  function Step(s: State, op: Op): (State, Event) {
    match op
    case Add(p) =>
      if s.next != NONE && p.ext < s.next then (s, Late)
      else if Has(s.packets, p.ext) then (s, Duplicate)
      else (s.(packets := Insert(s.packets, p.ext, p)), Kept)
    case Turn(now) =>
      if s.cancel then (s, Stopped)
      else if s.packets == [] then (s.(hurryUp := false), Idle)
      else if Due(s, now) then
        (s.(next := (s.packets[0].key + 1) % 0x1_0000_0000, packets := s.packets[1..]), Delivered(s.packets[0].val))
      else (s, Asleep)
    case Cancel => (s.(cancel := true), Done)
    case Clear => (s.(packets := []), Discarded(Values(s.packets)))
    case HurryUp => (s.(hurryUp := true), Done)
    case Reset => (s.(packets := [], cancel := false, next := NONE), Discarded(Values(s.packets)))
    case SetMaxWaitTime(ms) => (s.(maxWait := ms), Done)
  }

  lemma StepOk(s: State, op: Op)
    requires StateOk(s) && OpOk(op)
    ensures StateOk(Step(s, op).0)
  {
    if op.Add? && Step(s, op).1 == Kept {
      var k, p := op.p.ext, op.p;
      InsertSorted(s.packets, k, p);
      forall i | 0 <= i < |Insert(s.packets, k, p)|
        ensures Insert(s.packets, k, p)[i].val.ext == Insert(s.packets, k, p)[i].key < 0x1_0000_0000
      {
        var j := InsertFrom(s.packets, k, p, i);
      }
    }
  }

  class RtpBuffer {
    var packets: Packets
    var cancel: bool
    var hurryUp: bool
    var next: nat
    var maxWaitTime: nat

    ghost function Abs(): State
      reads this
    {
      State(packets, cancel, hurryUp, next, maxWaitTime)
    }

    ghost predicate Valid()
      reads this
    {
      StateOk(Abs())
    }

    constructor ()
      ensures Valid() && Abs() == Initial()
    {
      packets := [];
      maxWaitTime, hurryUp, cancel, next := 0, false, false, NONE;
    }

    method Add(rtp: Timed) returns (added: bool)
      requires Valid() && rtp.ext < 0x1_0000_0000
      modifies this
      ensures Valid() && Abs() == Step(old(Abs()), Op.Add(rtp)).0
      ensures added <==> Step(old(Abs()), Op.Add(rtp)).1 == Kept
    {
      StepOk(Abs(), Op.Add(rtp));
      if next != NONE && rtp.ext < next {
        return false;
      }
      if Find(packets, rtp.ext) < |packets| {
        return false;
      }
      packets := Insert(packets, rtp.ext, rtp);
      added := true;
    }

    method Cancel()
      requires Valid()
      modifies this
      ensures Valid() && Abs() == Step(old(Abs()), Op.Cancel).0
    {
      cancel := true;
    }

    /** The body of the loop of `Wait`, from holding the mutex to sleeping or returning. */
    method Turn(now: nat) returns (e: Event)
      requires Valid()
      modifies this
      ensures Valid() && (Abs(), e) == Step(old(Abs()), Op.Turn(now))
    {
      StepOk(Abs(), Op.Turn(now));
      if cancel {
        return Stopped;
      }
      if packets != [] {
        var seqNum, candidate := packets[0].key, packets[0].val;
        if next == NONE || seqNum == next || candidate.time + maxWaitTime < now || hurryUp {
          next := (seqNum + 1) % 0x1_0000_0000;
          packets := packets[1..];
          return Delivered(candidate);
        }
        e := Asleep;
      } else {
        hurryUp := false;
        e := Idle;
      }
    }

    method ClearPackets() returns (deleted: seq<Timed>)
      modifies this`packets
      ensures packets == [] && deleted == Values(old(packets))
    {
      deleted := [];
      for i := 0 to |packets|
        invariant deleted == Values(packets)[..i] && packets == old(packets)
      {
        deleted := deleted + [packets[i].val];
      }
      packets := [];
    }

    method Clear() returns (deleted: seq<Timed>)
      requires Valid()
      modifies this
      ensures Valid() && (Abs(), Discarded(deleted)) == Step(old(Abs()), Op.Clear)
    {
      deleted := ClearPackets();
    }

    method HurryUp()
      requires Valid()
      modifies this
      ensures Valid() && Abs() == Step(old(Abs()), Op.HurryUp).0
    {
      hurryUp := true;
    }

    method Reset() returns (deleted: seq<Timed>)
      requires Valid()
      modifies this
      ensures Valid() && (Abs(), Discarded(deleted)) == Step(old(Abs()), Op.Reset)
    {
      deleted := ClearPackets();
      cancel := false;
      next := NONE;
    }

    method SetMaxWaitTime(ms: nat)
      requires Valid()
      modifies this
      ensures Valid() && Abs() == Step(old(Abs()), Op.SetMaxWaitTime(ms)).0
    {
      maxWaitTime := ms;
    }
  }

  // ---------- runs ----------

  function Run(s: State, ops: seq<Op>): State
    decreases |ops|
  {
    if ops == [] then s else Step(Run(s, ops[..|ops| - 1]), ops[|ops| - 1]).0
  }

  /** What the last operation of a run led to. */
  function LastEvent(s: State, ops: seq<Op>): Event
    requires ops != []
  {
    Step(Run(s, ops[..|ops| - 1]), ops[|ops| - 1]).1
  }

  ghost predicate OpsOk(ops: seq<Op>) {
    forall i :: 0 <= i < |ops| ==> OpOk(ops[i])
  }

  lemma {:induction false} RunOk(ops: seq<Op>)
    requires OpsOk(ops)
    ensures StateOk(Run(Initial(), ops))
    decreases |ops|
  {
    if ops != [] {
      RunOk(ops[..|ops| - 1]);
      StepOk(Run(Initial(), ops[..|ops| - 1]), ops[|ops| - 1]);
    }
  }

  // ---------- where every added packet is ----------

  /** The packets a run handed to `Add`, and what became of those that are no longer buffered. */
  datatype Fates = Fates(
    added: multiset<Timed>, late: multiset<Timed>, duplicate: multiset<Timed>,
    delivered: multiset<Timed>, cleared: multiset<Timed>)

  function Tally(f: Fates, op: Op, e: Event): Fates {
    Fates(
      f.added + (if op.Add? then multiset{op.p} else multiset{}),
      f.late + (if op.Add? && e.Late? then multiset{op.p} else multiset{}),
      f.duplicate + (if op.Add? && e.Duplicate? then multiset{op.p} else multiset{}),
      f.delivered + (if e.Delivered? then multiset{e.p} else multiset{}),
      f.cleared + (if e.Discarded? then multiset(e.ps) else multiset{}))
  }

  function FatesOf(ops: seq<Op>): Fates
    decreases |ops|
  {
    if ops == [] then Fates(multiset{}, multiset{}, multiset{}, multiset{}, multiset{})
    else Tally(FatesOf(ops[..|ops| - 1]), ops[|ops| - 1], LastEvent(Initial(), ops))
  }

  /** Each added packet is rejected as late, rejected as a duplicate, delivered, cleared or still buffered. */
  ghost predicate Accounted(f: Fates, d: Packets) {
    forall p :: AccountedOnce(f, d, p)
  }

  ghost predicate AccountedOnce(f: Fates, d: Packets, p: Timed) {
    f.added[p] == f.late[p] + f.duplicate[p] + f.delivered[p] + f.cleared[p] + multiset(Values(d))[p]
  }

  lemma {:induction false} InsertedValues(d: Packets, k: nat, v: Timed)
    requires Sorted(d) && !Has(d, k)
    ensures multiset(Values(Insert(d, k, v))) == multiset(Values(d)) + multiset{v}
    decreases |d|
  {
    if d != [] && d[0].key < k {
      HasTail(d, k);
      InsertedValues(d[1..], k, v);
      ValuesCons(d[0], Insert(d[1..], k, v));
      ValuesHead(d);
    } else {
      ValuesCons(Slot(k, v), d);
    }
  }

  lemma ValuesCons(x: Slot<Timed>, d: Packets)
    ensures multiset(Values([x] + d)) == multiset{x.val} + multiset(Values(d))
  {
    assert ([x] + d)[1..] == d;
  }

  lemma ValuesHead(d: Packets)
    requires d != []
    ensures multiset(Values(d)) == multiset{d[0].val} + multiset(Values(d[1..]))
  {
    ValuesCons(d[0], d[1..]);
    assert [d[0]] + d[1..] == d;
  }

  /** Conservation: a packet given to the buffer has exactly one fate. */
  lemma {:induction false} NothingLost(ops: seq<Op>)
    requires OpsOk(ops)
    ensures Accounted(FatesOf(ops), Run(Initial(), ops).packets)
    decreases |ops|
  {
    if ops != [] {
      NothingLost(ops[..|ops| - 1]);
      RunOk(ops[..|ops| - 1]);
      StepConserves(FatesOf(ops[..|ops| - 1]), Run(Initial(), ops[..|ops| - 1]), ops[|ops| - 1]);
    }
  }

  lemma StepConserves(f: Fates, s: State, op: Op)
    requires StateOk(s) && Accounted(f, s.packets)
    ensures Accounted(Tally(f, op, Step(s, op).1), Step(s, op).0.packets)
  {
    var (t, e) := Step(s, op);
    forall q ensures AccountedOnce(Tally(f, op, e), t.packets, q) {
      assert AccountedOnce(f, s.packets, q);
      BufferMoves(s, op, q);
    }
  }

  /** What an operation puts into and takes out of the buffer. */
  ghost predicate Moved(d: Packets, d': Packets, op: Op, e: Event, q: Timed) {
    && (op.Add? <==> e.Kept? || e.Late? || e.Duplicate?)
    && multiset(Values(d))[q] + (if op.Add? && e.Kept? then multiset{op.p}[q] else 0)
    == multiset(Values(d'))[q] + (if e.Delivered? then multiset{e.p}[q] else 0)
     + (if e.Discarded? then multiset(e.ps)[q] else 0)
  }

  lemma BufferMoves(s: State, op: Op, q: Timed)
    requires StateOk(s)
    ensures Moved(s.packets, Step(s, op).0.packets, op, Step(s, op).1, q)
  {
    if op.Add? {
      AddMoves(s, op, q);
    } else if op.Turn? && Step(s, op).1.Delivered? {
      ValuesHead(s.packets);
    }
  }

  lemma AddMoves(s: State, op: Op, q: Timed)
    requires StateOk(s) && op.Add?
    ensures Moved(s.packets, Step(s, op).0.packets, op, Step(s, op).1, q)
  {
    if Step(s, op).1.Kept? {
      InsertedValues(s.packets, op.p.ext, op.p);
    }
  }

  // ---------- order ----------

  function Grown(d: seq<nat>, op: Op, e: Event): seq<nat> {
    if op.Reset? then [] else if e.Delivered? then d + [e.p.ext] else d
  }

  /** The sequence numbers delivered since the last `Reset`, in order. */
  function Since(ops: seq<Op>): seq<nat>
    decreases |ops|
  {
    if ops == [] then [] else Grown(Since(ops[..|ops| - 1]), ops[|ops| - 1], LastEvent(Initial(), ops))
  }

  /** What `next` says: the number after the last delivered one, as a DWORD. */
  function Expected(d: seq<nat>): nat {
    if d == [] then NONE else (d[|d| - 1] + 1) % 0x1_0000_0000
  }

  ghost predicate Below(ops: seq<Op>, limit: nat) {
    forall i :: 0 <= i < |ops| && ops[i].Add? ==> ops[i].p.ext < limit
  }

  lemma {:induction false} NextMeans(ops: seq<Op>)
    requires OpsOk(ops)
    ensures Run(Initial(), ops).next == Expected(Since(ops))
    decreases |ops|
  {
    if ops != [] {
      NextMeans(ops[..|ops| - 1]);
      RunOk(ops[..|ops| - 1]);
      NextStep(Run(Initial(), ops[..|ops| - 1]), ops[|ops| - 1], Since(ops[..|ops| - 1]));
    }
  }

  lemma NextStep(s: State, op: Op, d: seq<nat>)
    requires StateOk(s) && s.next == Expected(d)
    ensures Step(s, op).0.next == Expected(Grown(d, op, Step(s, op).1))
  {
  }

  lemma {:induction false} BufferedBelow(ops: seq<Op>, limit: nat)
    requires OpsOk(ops) && Below(ops, limit)
    ensures forall i :: 0 <= i < |Run(Initial(), ops).packets| ==> Run(Initial(), ops).packets[i].key < limit
    decreases |ops|
  {
    if ops != [] {
      var op, s := ops[|ops| - 1], Run(Initial(), ops[..|ops| - 1]);
      BufferedBelow(ops[..|ops| - 1], limit);
      if op.Add? && Step(s, op).1.Kept? {
        assert ops[|ops| - 1].p.ext < limit;
        forall i | 0 <= i < |Insert(s.packets, op.p.ext, op.p)|
          ensures Insert(s.packets, op.p.ext, op.p)[i].key < limit
        {
          var j := InsertFrom(s.packets, op.p.ext, op.p, i);
        }
      }
    }
  }

  /** `d` strictly increases, and everything buffered comes after it. */
  ghost predicate InOrder(d: seq<nat>, buffered: Packets) {
    && Increasing(d)
    && (forall i :: 0 <= i < |d| ==> d[i] < LIMIT)
    && (d != [] ==> forall j :: 0 <= j < |buffered| ==> d[|d| - 1] < buffered[j].key)
  }

  /** The numbers delivered between two resets strictly increase, and what is buffered comes after them. */
  lemma {:induction false} DeliveredInOrder(ops: seq<Op>)
    requires OpsOk(ops) && Below(ops, LIMIT)
    ensures InOrder(Since(ops), Run(Initial(), ops).packets)
    decreases |ops|
  {
    if ops != [] {
      var before := ops[..|ops| - 1];
      DeliveredInOrder(before);
      BufferedBelow(before, LIMIT);
      RunOk(before);
      NextMeans(before);
      OrderKept(Run(Initial(), before), ops[|ops| - 1], Since(before));
    }
  }

  lemma OrderKept(s: State, op: Op, d: seq<nat>)
    requires StateOk(s) && OpOk(op) && InOrder(d, s.packets) && s.next == Expected(d)
    requires forall i :: 0 <= i < |s.packets| ==> s.packets[i].key < LIMIT
    ensures InOrder(Grown(d, op, Step(s, op).1), Step(s, op).0.packets)
  {
    if op.Add? && Step(s, op).1.Kept? && d != [] {
      KeptAfter(d, s.packets, op.p);
    } else if op.Turn? && Step(s, op).1.Delivered? {
      FirstGoes(d, s.packets);
    }
  }

  lemma KeptAfter(d: seq<nat>, buffered: Packets, p: Timed)
    requires InOrder(d, buffered) && d != [] && p.ext > d[|d| - 1]
    ensures InOrder(d, Insert(buffered, p.ext, p))
  {
    forall j | 0 <= j < |Insert(buffered, p.ext, p)| ensures d[|d| - 1] < Insert(buffered, p.ext, p)[j].key {
      var x := InsertFrom(buffered, p.ext, p, j);
    }
  }

  lemma FirstGoes(d: seq<nat>, buffered: Packets)
    requires InOrder(d, buffered) && Sorted(buffered) && buffered != [] && buffered[0].key < LIMIT
    ensures InOrder(d + [buffered[0].key], buffered[1..])
  {
    assert forall i :: 0 <= i < |d| ==> d[i] <= d[|d| - 1];
    assert forall j :: 0 <= j < |buffered[1..]| ==> buffered[1..][j] == buffered[j + 1];
  }

  /** After a delivery exactly the numbers up to it are refused as late, if and only if it lies below 2^32-2. */
  lemma PastIsClosedExactly(s: State, now: nat)
    requires StateOk(s) && Step(s, Turn(now)).1.Delivered?
    ensures var (t, e) := Step(s, Turn(now));
            (forall p: Timed :: p.ext < 0x1_0000_0000 ==> (Step(t, Add(p)).1.Late? <==> p.ext <= e.p.ext))
            <==> e.p.ext < LIMIT
  {
    var (t, e) := Step(s, Turn(now));
    if e.p.ext >= LIMIT {
      assert !Step(t, Add(Timed(0, 0, []))).1.Late?;
    }
  }

  /** From 2^32-2 on, order is lost: 5 is delivered after 2^32-2. */
  lemma OrderLost(a: Timed, b: Timed)
    requires a.ext == LIMIT && b.ext == 5
    ensures Since([Add(a), Turn(0), Add(b), Turn(0)]) == [LIMIT, 5]
  {
    var x := [Add(a), Turn(0)];
    var y := x + [Add(b)];
    RunSnoc([], Add(a));
    RunSnoc([Add(a)], Turn(0));
    RunSnoc(x, Add(b));
    RunSnoc(y, Turn(0));
    assert [] + [Add(a)] == [Add(a)] && [Add(a)] + [Turn(0)] == x;
    assert y + [Turn(0)] == [Add(a), Turn(0), Add(b), Turn(0)];
    assert Run(Initial(), x) == State([], false, false, NONE, 0);
  }

  lemma RunSnoc(ops: seq<Op>, op: Op)
    ensures Run(Initial(), ops + [op]) == Step(Run(Initial(), ops), op).0
    ensures Since(ops + [op]) == Grown(Since(ops), op, Step(Run(Initial(), ops), op).1)
  {
    assert (ops + [op])[..|ops|] == ops;
  }

  // ---------- gaps ----------

  /** `HurryUp` was called, and since then no consumer has found the buffer empty. */
  ghost predicate Hurried(ops: seq<Op>) {
    exists i :: 0 <= i < |ops| && ops[i] == HurryUp && NeverIdle(ops, i)
  }

  /** What operation `j` of a run led to. */
  function EventAt(ops: seq<Op>, j: nat): Event
    requires j < |ops|
  {
    LastEvent(Initial(), ops[..j + 1])
  }

  ghost predicate NeverIdle(ops: seq<Op>, i: nat)
    requires i < |ops|
  {
    forall j :: i < j < |ops| ==> !EventAt(ops, j).Idle?
  }

  lemma {:induction false} FlagMeans(ops: seq<Op>)
    ensures Run(Initial(), ops).hurryUp <==> Hurried(ops)
    decreases |ops|
  {
    if ops != [] {
      FlagMeans(ops[..|ops| - 1]);
      HurriedStep(ops);
    }
  }

  lemma EventBefore(ops: seq<Op>, j: nat)
    requires j + 1 < |ops|
    ensures EventAt(ops[..|ops| - 1], j) == EventAt(ops, j)
  {
    assert ops[..|ops| - 1][..j + 1] == ops[..j + 1];
  }

  lemma NeverIdleStep(ops: seq<Op>, i: nat)
    requires i + 1 < |ops|
    ensures NeverIdle(ops, i) <==> NeverIdle(ops[..|ops| - 1], i) && !LastEvent(Initial(), ops).Idle?
  {
    var before := ops[..|ops| - 1];
    assert ops[..|ops| - 1 + 1] == ops;
    assert EventAt(ops, |ops| - 1) == LastEvent(Initial(), ops);
    forall j | i < j < |before| ensures EventAt(before, j) == EventAt(ops, j) {
      EventBefore(ops, j);
    }
    assert NeverIdle(ops, i) ==> forall j :: i < j < |before| ==> !EventAt(before, j).Idle?;
    assert NeverIdle(before, i) && !LastEvent(Initial(), ops).Idle? ==>
        forall j :: i < j < |ops| ==> !EventAt(ops, j).Idle?;
  }

  lemma HurriedStep(ops: seq<Op>)
    requires ops != []
    ensures Hurried(ops) <==>
              ops[|ops| - 1] == HurryUp || (Hurried(ops[..|ops| - 1]) && !LastEvent(Initial(), ops).Idle?)
  {
    var n := |ops| - 1;
    var before := ops[..n];
    forall i | 0 <= i < n ensures before[i] == ops[i] &&
      (NeverIdle(ops, i) <==> NeverIdle(before, i) && !LastEvent(Initial(), ops).Idle?)
    {
      NeverIdleStep(ops, i);
    }
    assert NeverIdle(ops, n);
  }

  /** The waiting time in force after a run: the last one set. */
  function WaitSet(ops: seq<Op>): nat
    decreases |ops|
  {
    if ops == [] then 0
    else if ops[|ops| - 1].SetMaxWaitTime? then ops[|ops| - 1].ms
    else WaitSet(ops[..|ops| - 1])
  }

  lemma {:induction false} WaitMeans(ops: seq<Op>)
    ensures Run(Initial(), ops).maxWait == WaitSet(ops)
    decreases |ops|
  {
    if ops != [] {
      WaitMeans(ops[..|ops| - 1]);
    }
  }

  /** A number is skipped only when the waiting packet's time is up, or on `HurryUp`. */
  lemma GapNeedsReason(ops: seq<Op>, now: nat)
    requires OpsOk(ops) && Since(ops) != []
    requires Step(Run(Initial(), ops), Turn(now)).1.Delivered?
    ensures var p := Step(Run(Initial(), ops), Turn(now)).1.p;
            var last := Since(ops)[|Since(ops)| - 1];
            p.ext == last + 1 || last >= LIMIT || p.time + WaitSet(ops) < now || Hurried(ops)
  {
    NextMeans(ops);
    WaitMeans(ops);
    RunOk(ops);
    FlagMeans(ops);
    Skipped(Run(Initial(), ops), now, Since(ops));
  }

  lemma Skipped(s: State, now: nat, d: seq<nat>)
    requires StateOk(s) && d != [] && s.next == Expected(d) && Step(s, Turn(now)).1.Delivered?
    ensures var p := Step(s, Turn(now)).1.p;
            p.ext == d[|d| - 1] + 1 || d[|d| - 1] >= LIMIT || p.time + s.maxWait < now || s.hurryUp
  {
  }

  /** No consumer ever looks after a packet's time is up, and nobody hurries. */
  ghost predicate Unhurried(ops: seq<Op>) {
    forall i :: 0 <= i < |ops| ==>
      && ops[i] != HurryUp
      && (ops[i].Turn? ==> InTime(Run(Initial(), ops[..i]).packets, WaitSet(ops[..i]), ops[i].now))
  }

  ghost predicate InTime(d: Packets, wait: nat, now: nat) {
    d != [] ==> now <= d[0].val.time + wait
  }

  /** Without hurry and in time, packets come out numbered one after the other, whatever order they came in. */
  lemma {:induction false} InTimeMeansGapless(ops: seq<Op>)
    requires OpsOk(ops) && Below(ops, LIMIT) && Unhurried(ops)
    ensures Gapless(Since(ops))
    decreases |ops|
  {
    if ops != [] {
      var n := |ops| - 1;
      var before := ops[..n];
      assert forall i :: 0 <= i < n ==> before[..i] == ops[..i];
      InTimeMeansGapless(before);
      NextFollows(ops, before);
    }
  }

  lemma NextFollows(ops: seq<Op>, before: seq<Op>)
    requires ops != [] && before == ops[..|ops| - 1]
    requires OpsOk(ops) && Below(ops, LIMIT) && Unhurried(ops) && OpsOk(before) && Unhurried(before)
    ensures var e := LastEvent(Initial(), ops);
            e.Delivered? && Since(before) != [] ==> e.p.ext == Since(before)[|Since(before)| - 1] + 1
  {
    if LastEvent(Initial(), ops).Delivered? && Since(before) != [] {
      DeliveredInOrder(before);
      GapNeedsReason(before, ops[|ops| - 1].now);
    }
  }

  ghost predicate Gapless(d: seq<nat>) {
    forall i :: 0 <= i < |d| ==> d[i] == d[0] + i
  }

  // ---------- every operation from the history alone ----------

  /** `Cancel` was called since the last `Reset`. */
  ghost predicate Cancelled(ops: seq<Op>)
    decreases |ops|
  {
    ops != [] && (ops[|ops| - 1].Cancel? || (!ops[|ops| - 1].Reset? && Cancelled(ops[..|ops| - 1])))
  }

  /** Packet `p` was taken by `Add`, and has been neither delivered nor cleared since. */
  ghost predicate Held(ops: seq<Op>, p: Timed)
    decreases |ops|
  {
    ops != [] &&
    var op, e := ops[|ops| - 1], LastEvent(Initial(), ops);
    (op == Add(p) && e.Kept?) || (Held(ops[..|ops| - 1], p) && !op.Clear? && !op.Reset? && e != Delivered(p))
  }

  /** Of the packets held it has the lowest number. */
  ghost predicate FirstHeld(ops: seq<Op>, p: Timed) {
    Held(ops, p) && forall q :: Held(ops, q) ==> p.ext <= q.ext
  }

  lemma {:induction false} CancelMeans(ops: seq<Op>)
    ensures Run(Initial(), ops).cancel <==> Cancelled(ops)
    decreases |ops|
  {
    if ops != [] {
      CancelMeans(ops[..|ops| - 1]);
      CancelNext(Run(Initial(), ops[..|ops| - 1]), ops[|ops| - 1]);
    }
  }

  lemma CancelNext(s: State, op: Op)
    ensures Step(s, op).0.cancel <==> op.Cancel? || (s.cancel && !op.Reset?)
  {
  }

  ghost predicate Buffers(d: Packets, p: Timed) {
    Has(d, p.ext) && At(d, p.ext) == p
  }

  /** The packets held are those in the buffer. */
  lemma {:induction false} HeldMeans(ops: seq<Op>, p: Timed)
    requires OpsOk(ops)
    ensures Held(ops, p) <==> Buffers(Run(Initial(), ops).packets, p)
    decreases |ops|
  {
    if ops != [] {
      HeldMeans(ops[..|ops| - 1], p);
      RunOk(ops[..|ops| - 1]);
      BuffersNext(Run(Initial(), ops[..|ops| - 1]), ops[|ops| - 1], p);
    }
  }

  lemma BuffersNext(s: State, op: Op, p: Timed)
    requires StateOk(s)
    ensures var (t, e) := Step(s, op);
            Buffers(t.packets, p) <==>
              (op == Add(p) && e.Kept?) || (Buffers(s.packets, p) && !op.Clear? && !op.Reset? && e != Delivered(p))
  {
    var (t, e) := Step(s, op);
    if op.Add? && e.Kept? {
      InsertAt(s.packets, op.p.ext, op.p, p.ext);
    } else if e.Delivered? {
      FirstGone(s.packets, p);
    }
  }

  lemma FirstGone(d: Packets, p: Timed)
    requires Sorted(d) && d != [] && d[0].val.ext == d[0].key
    ensures Buffers(d[1..], p) <==> Buffers(d, p) && p != d[0].val
  {
    if p.ext == d[0].key {
      AboveHead(d, p.ext);
    } else {
      HasTail(d, p.ext);
    }
  }

  lemma FirstIs(d: Packets, p: Timed)
    requires Sorted(d) && d != [] && d[0].val.ext == d[0].key && Buffers(d, p) && p.ext <= d[0].key
    ensures d[0].val == p
  {
    assert d[Find(d, p.ext)].key == p.ext;
  }

  /** A packet numbered `n` is held. */
  ghost predicate NumberHeld(ops: seq<Op>, n: nat) {
    exists q :: Held(ops, q) && q.ext == n
  }

  lemma NumberMeans(ops: seq<Op>, n: nat)
    requires OpsOk(ops)
    ensures NumberHeld(ops, n) <==> Has(Run(Initial(), ops).packets, n)
  {
    var d := Run(Initial(), ops).packets;
    RunOk(ops);
    if Has(d, n) {
      assert d[Find(d, n)].val.ext == n;
      HeldMeans(ops, At(d, n));
    }
    if NumberHeld(ops, n) {
      var q :| Held(ops, q) && q.ext == n;
      HeldMeans(ops, q);
    }
  }

  /** Delivered numbers are DWORDs. */
  lemma {:induction false} SinceBound(ops: seq<Op>)
    requires OpsOk(ops)
    ensures forall i :: 0 <= i < |Since(ops)| ==> Since(ops)[i] < 0x1_0000_0000
    decreases |ops|
  {
    if ops != [] {
      SinceBound(ops[..|ops| - 1]);
      RunOk(ops[..|ops| - 1]);
    }
  }

  lemma ExpectedMeans(d: seq<nat>, ext: nat)
    requires d != [] ==> d[|d| - 1] < 0x1_0000_0000
    ensures Expected(d) == NONE <==> d == [] || d[|d| - 1] == LIMIT
    ensures Expected(d) != NONE && ext < Expected(d) <==> d != [] && d[|d| - 1] < LIMIT && ext <= d[|d| - 1]
  {
  }

  /** A packet is late, a duplicate or kept by what was delivered last and what is held, and by nothing else. */
  lemma AddExactly(ops: seq<Op>, p: Timed)
    requires OpsOk(ops)
    ensures var d := Since(ops);
            Step(Run(Initial(), ops), Add(p)).1 ==
            if d != [] && d[|d| - 1] < LIMIT && p.ext <= d[|d| - 1] then Late
            else if NumberHeld(ops, p.ext) then Duplicate
            else Kept
  {
    NextMeans(ops);
    SinceBound(ops);
    ExpectedMeans(Since(ops), p.ext);
    NumberMeans(ops, p.ext);
  }

  /** A turn stops after `Cancel`, finds nothing, or looks at the packet with the lowest number. */
  lemma TurnExactly(ops: seq<Op>, now: nat)
    requires OpsOk(ops)
    ensures var e := Step(Run(Initial(), ops), Turn(now)).1;
            && (e.Stopped? <==> Cancelled(ops))
            && (e.Idle? <==> !Cancelled(ops) && NoneHeld(ops))
            && (e.Delivered? ==> FirstHeld(ops, e.p))
  {
    var d := Run(Initial(), ops).packets;
    CancelMeans(ops);
    RunOk(ops);
    if d == [] {
      forall p ensures !Held(ops, p) { HeldMeans(ops, p); }
    } else {
      HeldFirst(ops);
    }
  }

  ghost predicate NoneHeld(ops: seq<Op>) {
    forall p :: !Held(ops, p)
  }

  lemma HeldFirst(ops: seq<Op>)
    requires OpsOk(ops) && Run(Initial(), ops).packets != []
    ensures FirstHeld(ops, Run(Initial(), ops).packets[0].val)
  {
    var d := Run(Initial(), ops).packets;
    RunOk(ops);
    HasIndex(d, 0);
    HeldMeans(ops, d[0].val);
    forall q | Held(ops, q) ensures d[0].val.ext <= q.ext {
      HeldMeans(ops, q);
      assert d[Find(d, q.ext)].key == q.ext;
    }
  }

  lemma FirstBuffered(ops: seq<Op>, p: Timed)
    requires OpsOk(ops) && FirstHeld(ops, p)
    ensures var d := Run(Initial(), ops).packets; d != [] && d[0].val == p && d[0].key == p.ext
  {
    var d := Run(Initial(), ops).packets;
    RunOk(ops);
    HeldMeans(ops, p);
    HeldFirst(ops);
    FirstIs(d, p);
  }

  /** What lets the first packet `p` leave at `now`, from the history alone. */
  ghost predicate MayLeave(ops: seq<Op>, p: Timed, now: nat) {
    var d := Since(ops);
    || d == [] || d[|d| - 1] == LIMIT || p.ext == (d[|d| - 1] + 1) % 0x1_0000_0000
    || p.time + WaitSet(ops) < now || Hurried(ops)
  }

  /**
    The first packet leaves if nothing was delivered before, if it is the one after the last delivered, if its time is
    up or on `HurryUp`; otherwise, and only otherwise, the turn sleeps.
    */
  lemma LeavesExactly(ops: seq<Op>, p: Timed, now: nat)
    requires OpsOk(ops) && !Cancelled(ops) && FirstHeld(ops, p)
    ensures Step(Run(Initial(), ops), Turn(now)).1 == if MayLeave(ops, p, now) then Delivered(p) else Asleep
  {
    FirstBuffered(ops, p);
    CancelMeans(ops);
    NextMeans(ops);
    SinceBound(ops);
    ExpectedMeans(Since(ops), p.ext);
    WaitMeans(ops);
    FlagMeans(ops);
    TurnOf(Run(Initial(), ops), now, p);
  }

  lemma TurnOf(s: State, now: nat, p: Timed)
    requires !s.cancel && s.packets != [] && s.packets[0].val == p && s.packets[0].key == p.ext
    ensures Step(s, Turn(now)).1 ==
            if s.next == NONE || p.ext == s.next || p.time + s.maxWait < now || s.hurryUp then Delivered(p) else Asleep
  {
  }

  /** The packet after the last delivered one leaves on the next turn, whatever the time. */
  lemma ExpectedLeaves(ops: seq<Op>, p: Timed, now: nat)
    requires OpsOk(ops) && !Cancelled(ops) && Held(ops, p)
    requires Since(ops) != [] && Since(ops)[|Since(ops)| - 1] < LIMIT && p.ext == Since(ops)[|Since(ops)| - 1] + 1
    ensures Step(Run(Initial(), ops), Turn(now)).1 == Delivered(p)
  {
    ExpectedFirst(ops, p);
    LeavesExactly(ops, p, now);
  }

  lemma ExpectedFirst(ops: seq<Op>, p: Timed)
    requires OpsOk(ops) && Held(ops, p)
    requires Since(ops) != [] && Since(ops)[|Since(ops)| - 1] < LIMIT && p.ext == Since(ops)[|Since(ops)| - 1] + 1
    ensures FirstHeld(ops, p)
  {
    var d := Run(Initial(), ops).packets;
    NextMeans(ops);
    RunOk(ops);
    forall q | Held(ops, q) ensures p.ext <= q.ext {
      HeldMeans(ops, q);
      assert d[Find(d, q.ext)].key == q.ext;
    }
  }

  // ---------- cancelling ----------

  /** After `Cancel` nothing is delivered until the next `Reset`. */
  lemma {:induction false} CancelStops(s: State, ops: seq<Op>)
    requires forall i :: 0 <= i < |ops| ==> !ops[i].Reset?
    ensures Run(Step(s, Cancel).0, ops).cancel && (ops != [] ==> !LastEvent(Step(s, Cancel).0, ops).Delivered?)
    decreases |ops|
  {
    if ops != [] {
      CancelStops(s, ops[..|ops| - 1]);
    }
  }

  /** `Reset` undoes `Cancel` and forgets the past: whatever comes first is buffered and delivered at once. */
  lemma ResetRevives(s: State, p: Timed, now: nat)
    ensures var a := Step(s, Reset).0;
            var b := Step(a, Add(p));
            b.1 == Kept && Step(b.0, Turn(now)).1 == Delivered(p)
  {
  }

  // ---------- draining ----------

  function Turns(now: nat, n: nat): (ops: seq<Op>)
    ensures |ops| == n
  {
    seq(n, _ => Turn(now))
  }

  function Deliveries(s: State, ops: seq<Op>): seq<Timed>
    decreases |ops|
  {
    if ops == [] then []
    else Deliveries(s, ops[..|ops| - 1]) + if LastEvent(s, ops).Delivered? then [LastEvent(s, ops).p] else []
  }

  /** When everything is overdue, or on `HurryUp`, turn after turn hands out the buffered packets by number. */
  lemma {:induction false} Drains(s: State, now: nat, n: nat)
    requires StateOk(s) && !s.cancel && n <= |s.packets|
    requires s.hurryUp || forall i :: 0 <= i < |s.packets| ==> s.packets[i].val.time + s.maxWait < now
    ensures var t := Run(s, Turns(now, n));
            t.packets == s.packets[n..] && t.cancel == s.cancel && t.hurryUp == s.hurryUp && t.maxWait == s.maxWait
    ensures Deliveries(s, Turns(now, n)) == Values(s.packets)[..n]
    decreases n
  {
    if n > 0 {
      Drains(s, now, n - 1);
      assert Turns(now, n)[..n - 1] == Turns(now, n - 1);
      DrainStep(Run(s, Turns(now, n - 1)), now, s.packets, n - 1);
      assert Values(s.packets)[..n - 1] + [s.packets[n - 1].val] == Values(s.packets)[..n];
    }
  }

  lemma DrainStep(t: State, now: nat, all: Packets, k: nat)
    requires k < |all| && t.packets == all[k..] && !t.cancel
    requires t.hurryUp || all[k].val.time + t.maxWait < now
    ensures Step(t, Turn(now)).1 == Delivered(all[k].val)
    ensures Step(t, Turn(now)).0.packets == all[k + 1..] && Step(t, Turn(now)).0.hurryUp == t.hurryUp
    ensures Step(t, Turn(now)).0.maxWait == t.maxWait && !Step(t, Turn(now)).0.cancel
  {
  }
}
