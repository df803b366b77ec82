/**
  `Use` (mcu/include/use.h): a readers/writer lock made of two mutexes, a counter and a condition
  variable, as a transition system over any number of threads.  One step is one pthread operation or
  one access to the counter.
  */
module UseLock {
  import opened Wrappers

  /** Where a thread stands; the operation in the comment is its next one. */
  datatype PC =
    | Idle        // may call IncUse or WaitUnusedAndLock
    | IncLock     // IncUse: lock(mutex)
    | IncMutex    // cont++
    | IncDone     // unlock(mutex)
    | IncUnlock   // unlock(lock)
    | Using       // holds the use; DecUse: lock(mutex)
    | DecMutex    // cont--
    | DecDone     // unlock(mutex)
    | DecSignal   // signal(cond)
    | WaitLock    // WaitUnusedAndLock: lock(mutex)
    | WaitTest    // while(cont)
    | Asleep      // inside cond_wait, mutex released
    | Woken       // inside cond_wait: take the mutex again
    | Writing     // holds the write lock; Unlock: unlock(mutex)
    | Unlocking   // unlock(lock)

  datatype State = State(pcs: seq<PC>, cont: int, mutex: Option<nat>, lock: Option<nat>)

  ghost predicate Init(s: State) {
    s.cont == 0 && s.mutex == None && s.lock == None && forall t :: 0 <= t < |s.pcs| ==> s.pcs[t] == Idle
  }

  function Go(s: State, t: nat, pc: PC): State
    requires t < |s.pcs|
  {
    s.(pcs := s.pcs[t := pc])
  }

  /** Thread `t` takes one step. */
  ghost predicate Next(s: State, t: nat, s': State) {
    t < |s.pcs| &&
    match s.pcs[t]
    case Idle =>
      && s.lock == None
      && (s' == Go(s, t, IncLock).(lock := Some(t)) || s' == Go(s, t, WaitLock).(lock := Some(t)))
    case IncLock => s.mutex == None && s' == Go(s, t, IncMutex).(mutex := Some(t))
    case IncMutex => s' == Go(s, t, IncDone).(cont := s.cont + 1)
    case IncDone => s' == Go(s, t, IncUnlock).(mutex := None)
    case IncUnlock => s' == Go(s, t, Using).(lock := None)
    case Using => s.mutex == None && s' == Go(s, t, DecMutex).(mutex := Some(t))
    case DecMutex => s' == Go(s, t, DecDone).(cont := s.cont - 1)
    case DecDone => s' == Go(s, t, DecSignal).(mutex := None)
    case DecSignal =>
      if exists w :: Sleeps(s, w) then exists w :: Sleeps(s, w) && s' == Go(Go(s, t, Idle), w, Woken)
      else s' == Go(s, t, Idle)
    case WaitLock => s.mutex == None && s' == Go(s, t, WaitTest).(mutex := Some(t))
    case WaitTest =>
      if s.cont != 0 then s' == Go(s, t, Asleep).(mutex := None) else s' == Go(s, t, Writing)
    case Asleep => s' == Go(s, t, Woken)   // a spurious wakeup
    case Woken => s.mutex == None && s' == Go(s, t, WaitTest).(mutex := Some(t))
    case Writing => s' == Go(s, t, Unlocking).(mutex := None)
    case Unlocking => s' == Go(s, t, Idle).(lock := None)
  }

  predicate Sleeps(s: State, w: nat) {
    w < |s.pcs| && s.pcs[w] == Asleep
  }

  predicate HoldsMutex(pc: PC) {
    pc.IncMutex? || pc.IncDone? || pc.DecMutex? || pc.DecDone? || pc.WaitTest? || pc.Writing?
  }

  predicate HoldsLock(pc: PC) {
    pc.IncLock? || pc.IncMutex? || pc.IncDone? || pc.IncUnlock? || Waiting(pc) || pc.Writing? || pc.Unlocking?
  }

  /** A writer that has begun `WaitUnusedAndLock` and does not have the lock yet. */
  predicate Waiting(pc: PC) {
    pc.WaitLock? || pc.WaitTest? || pc.Asleep? || pc.Woken?
  }

  /** Between the increment and the decrement of the counter. */
  function Counted(pc: PC): int {
    if pc.IncDone? || pc.IncUnlock? || pc.Using? || pc.DecMutex? then 1 else 0
  }

  /** Has decremented and still has to signal. */
  predicate WillSignal(pc: PC) {
    pc.DecDone? || pc.DecSignal?
  }

  function Sum(pcs: seq<PC>, f: PC -> int): int {
    if pcs == [] then 0 else f(pcs[0]) + Sum(pcs[1..], f)
  }

  lemma {:induction false} SumUpdate(pcs: seq<PC>, t: nat, pc: PC, f: PC -> int)
    requires t < |pcs|
    ensures Sum(pcs[t := pc], f) == Sum(pcs, f) - f(pcs[t]) + f(pc)
    decreases t
  {
    if t == 0 {
      assert pcs[t := pc][1..] == pcs[1..];
    } else {
      SumUpdate(pcs[1..], t - 1, pc, f);
      assert pcs[t := pc][1..] == pcs[1..][t - 1 := pc];
    }
  }

  lemma {:induction false} SumBounds(pcs: seq<PC>, f: PC -> int)
    requires forall pc :: f(pc) >= 0
    ensures Sum(pcs, f) >= 0
    ensures Sum(pcs, f) == 0 <==> forall t :: 0 <= t < |pcs| ==> f(pcs[t]) == 0
    decreases |pcs|
  {
    if pcs != [] {
      SumBounds(pcs[1..], f);
      assert forall t :: 1 <= t < |pcs| ==> pcs[t] == pcs[1..][t - 1];
      assert forall t :: 0 <= t < |pcs[1..]| ==> pcs[1..][t] == pcs[t + 1];
    }
  }

  // ---------- the invariant ----------

  ghost predicate Owners(s: State) {
    && (s.mutex.Some? ==> s.mutex.value < |s.pcs|)
    && (s.lock.Some? ==> s.lock.value < |s.pcs|)
    && (forall t :: 0 <= t < |s.pcs| ==> (HoldsMutex(s.pcs[t]) <==> s.mutex == Some(t)))
    && (forall t :: 0 <= t < |s.pcs| ==> (HoldsLock(s.pcs[t]) <==> s.lock == Some(t)))
  }

  ghost predicate SignalPending(s: State) {
    exists t :: 0 <= t < |s.pcs| && WillSignal(s.pcs[t])
  }

  ghost predicate Inv(s: State) {
    && Owners(s)
    && s.cont == Sum(s.pcs, Counted)
    && (forall w :: Sleeps(s, w) && s.cont == 0 ==> SignalPending(s))
    && (forall w :: 0 <= w < |s.pcs| && s.pcs[w] == Writing ==> s.cont == 0)
  }

  lemma InitInv(s: State)
    requires Init(s)
    ensures Inv(s)
  {
    SumBounds(s.pcs, Counted);
  }

  ghost predicate Owner(pcs: seq<PC>, holds: PC -> bool, owner: Option<nat>) {
    && (owner.Some? ==> owner.value < |pcs|)
    && (forall t :: 0 <= t < |pcs| ==> (holds(pcs[t]) <==> owner == Some(t)))
  }

  /** One thread moves: the owner changes only by what that thread takes or gives back. */
  lemma OwnerMove(pcs: seq<PC>, holds: PC -> bool, owner: Option<nat>, t: nat, pc: PC, owner': Option<nat>)
    requires Owner(pcs, holds, owner) && t < |pcs|
    requires holds(pc) ==> owner' == Some(t) && (owner == None || holds(pcs[t]))
    requires !holds(pc) ==> owner' == if holds(pcs[t]) then None else owner
    ensures Owner(pcs[t := pc], holds, owner')
  {
  }

  lemma OwnerNext(s: State, t: nat, s': State, holds: PC -> bool, owner: Option<nat>, owner': Option<nat>)
    requires Next(s, t, s') && Owner(s.pcs, holds, owner)
    requires holds(Asleep) == holds(Woken)
    requires var pc := s'.pcs[t];
             && (holds(pc) ==> owner' == Some(t) && (owner == None || holds(s.pcs[t])))
             && (!holds(pc) ==> owner' == if holds(s.pcs[t]) then None else owner)
    ensures Owner(s'.pcs, holds, owner')
  {
    if s.pcs[t].DecSignal? && exists w :: Sleeps(s, w) {
      var w: nat :| Sleeps(s, w) && s' == Go(Go(s, t, Idle), w, Woken);
      OwnerMove(s.pcs, holds, owner, t, Idle, owner');
      OwnerMove(s.pcs[t := Idle], holds, owner', w, Woken, owner');
    } else {
      OwnerMove(s.pcs, holds, owner, t, s'.pcs[t], owner');
    }
  }

  /** Ownership of the two mutexes follows the program counters. */
  lemma OwnersNext(s: State, t: nat, s': State)
    requires Inv(s) && Next(s, t, s')
    ensures Owners(s') && |s'.pcs| == |s.pcs|
  {
    MutexNext(s, t, s');
    LockNext(s, t, s');
  }

  lemma MutexNext(s: State, t: nat, s': State)
    requires Inv(s) && Next(s, t, s')
    ensures Owner(s'.pcs, HoldsMutex, s'.mutex)
  {
    OwnerNext(s, t, s', HoldsMutex, s.mutex, s'.mutex);
  }

  lemma LockNext(s: State, t: nat, s': State)
    requires Inv(s) && Next(s, t, s')
    ensures Owner(s'.pcs, HoldsLock, s'.lock)
  {
    OwnerNext(s, t, s', HoldsLock, s.lock, s'.lock);
  }

  predicate Wakes(s: State, t: nat, s': State) {
    t < |s.pcs| && s.pcs[t].DecSignal? && s'.pcs != s.pcs[t := Idle]
  }

  /** What a step does to a sum over the threads: it moves one of them, and a signal also wakes one. */
  lemma SumNext(s: State, t: nat, s': State, f: PC -> int)
    requires Next(s, t, s')
    ensures t < |s'.pcs|
    ensures Sum(s'.pcs, f) ==
            Sum(s.pcs, f) - f(s.pcs[t]) + f(s'.pcs[t]) + if Wakes(s, t, s') then f(Woken) - f(Asleep) else 0
  {
    if Wakes(s, t, s') {
      var w: nat :| Sleeps(s, w) && s' == Go(Go(s, t, Idle), w, Woken);
      SumUpdate(s.pcs, t, Idle, f);
      SumUpdate(s.pcs[t := Idle], w, Woken, f);
    } else {
      SumUpdate(s.pcs, t, s'.pcs[t], f);
    }
  }

  lemma CountNext(s: State, t: nat, s': State)
    requires Inv(s) && Next(s, t, s')
    ensures s'.cont == Sum(s'.pcs, Counted)
  {
    SumNext(s, t, s', Counted);
  }

  lemma SignalNext(s: State, t: nat, s': State)
    requires Inv(s) && Next(s, t, s')
    ensures forall w :: Sleeps(s', w) && s'.cont == 0 ==> SignalPending(s')
    ensures forall w :: 0 <= w < |s'.pcs| && s'.pcs[w] == Writing ==> s'.cont == 0
  {
    forall w | Sleeps(s', w) && s'.cont == 0 ensures SignalPending(s') {
      if s.pcs[t].WaitTest? {
      } else if s.pcs[t].DecMutex? {
        assert WillSignal(s'.pcs[t]);
      } else if s.pcs[t].DecSignal? {
        assert Sleeps(s, w);
      } else {
        assert Sleeps(s, w);
        var u :| 0 <= u < |s.pcs| && WillSignal(s.pcs[u]);
        assert WillSignal(s'.pcs[u]);
      }
    }
  }

  lemma NextInv(s: State, t: nat, s': State)
    requires Inv(s) && Next(s, t, s')
    ensures Inv(s')
  {
    OwnersNext(s, t, s');
    CountNext(s, t, s');
    SignalNext(s, t, s');
  }

  // ---------- runs ----------

  /** `states[i+1]` follows `states[i]` by a step of thread `actors[i]`. */
  ghost predicate Run(states: seq<State>, actors: seq<nat>) {
    && |states| == |actors| + 1
    && forall i :: 0 <= i < |actors| ==> Next(states[i], actors[i], states[i + 1])
  }

  lemma {:induction false} RunInv(states: seq<State>, actors: seq<nat>, i: nat)
    requires Run(states, actors) && Inv(states[0]) && i < |states|
    ensures Inv(states[i])
    decreases i
  {
    if i > 0 {
      RunInv(states, actors, i - 1);
      NextInv(states[i - 1], actors[i - 1], states[i]);
    }
  }

  // ---------- safety ----------

  /** In every reachable state a writer is alone: nobody is between increment and decrement, nobody else writes. */
  lemma WriterExcludes(states: seq<State>, actors: seq<nat>, w: nat)
    requires Run(states, actors) && Init(states[0])
    requires var s := states[|actors|]; w < |s.pcs| && s.pcs[w] == Writing
    ensures var s := states[|actors|];
            forall t :: 0 <= t < |s.pcs| && t != w ==> Counted(s.pcs[t]) == 0 && s.pcs[t] != Writing
  {
    InitInv(states[0]);
    RunInv(states, actors, |actors|);
    var s := states[|actors|];
    SumBounds(s.pcs, Counted);
  }

  /** The counter is the number of threads between increment and decrement. */
  lemma CounterIsExact(states: seq<State>, actors: seq<nat>)
    requires Run(states, actors) && Init(states[0])
    ensures states[|actors|].cont == Sum(states[|actors|].pcs, Counted) >= 0
  {
    InitInv(states[0]);
    RunInv(states, actors, |actors|);
    SumBounds(states[|actors|].pcs, Counted);
  }

  /** While a writer waits, the counter never grows: readers queue behind it. */
  lemma WriterStopsReaders(s: State, x: nat, t: nat, s': State)
    requires Inv(s) && x < |s.pcs| && Waiting(s.pcs[x]) && Next(s, t, s')
    ensures s'.cont <= s.cont
    ensures s.pcs[t] != Idle
  {
  }

  // ---------- no lost wakeup, no deadlock ----------

  /**
    In every reachable state a writer that sleeps although nobody uses the resource has its signal still to
    come, and the signal wakes it.
    */
  lemma NoLostWakeup(states: seq<State>, actors: seq<nat>, w: nat)
    requires Run(states, actors) && Init(states[0])
    requires Sleeps(states[|actors|], w) && states[|actors|].cont == 0
    ensures var s := states[|actors|];
            && (exists t :: 0 <= t < |s.pcs| && WillSignal(s.pcs[t]))
            && (forall t: nat, s' :: Next(s, t, s') && s.pcs[t] == DecSignal ==> s'.pcs[w] == Woken)
  {
    InitInv(states[0]);
    RunInv(states, actors, |actors|);
    var s := states[|actors|];
    forall t: nat, s' | Next(s, t, s') && s.pcs[t] == DecSignal ensures s'.pcs[w] == Woken {
      assert Sleeps(s, w);
      var v: nat :| Sleeps(s, v) && s' == Go(Go(s, t, Idle), v, Woken);
      assert s.lock == Some(v) && s.lock == Some(w);
    }
  }

  /** A step that neither enters the protocol nor relies on a spurious wakeup. */
  ghost predicate Proper(s: State, t: nat, s': State) {
    Next(s, t, s') && s.pcs[t] != Idle && s.pcs[t] != Asleep
  }

  /** The successor of a thread whose next operation cannot block. */
  lemma CanMove(s: State, t: nat) returns (s': State)
    requires t < |s.pcs| && s.pcs[t] != Idle && s.pcs[t] != Asleep
    requires s.pcs[t].IncLock? || s.pcs[t].Using? || s.pcs[t].WaitLock? || s.pcs[t].Woken? ==> s.mutex == None
    ensures Proper(s, t, s')
  {
    match s.pcs[t]
    case IncLock => s' := Go(s, t, IncMutex).(mutex := Some(t));
    case IncMutex => s' := Go(s, t, IncDone).(cont := s.cont + 1);
    case IncDone => s' := Go(s, t, IncUnlock).(mutex := None);
    case IncUnlock => s' := Go(s, t, Using).(lock := None);
    case Using => s' := Go(s, t, DecMutex).(mutex := Some(t));
    case DecMutex => s' := Go(s, t, DecDone).(cont := s.cont - 1);
    case DecDone => s' := Go(s, t, DecSignal).(mutex := None);
    case DecSignal =>
      if exists w :: Sleeps(s, w) {
        var w :| Sleeps(s, w);
        s' := Go(Go(s, t, Idle), w, Woken);
      } else {
        s' := Go(s, t, Idle);
      }
    case WaitLock => s' := Go(s, t, WaitTest).(mutex := Some(t));
    case WaitTest => s' := if s.cont != 0 then Go(s, t, Asleep).(mutex := None) else Go(s, t, Writing);
    case Woken => s' := Go(s, t, WaitTest).(mutex := Some(t));
    case Writing => s' := Go(s, t, Unlocking).(mutex := None);
    case Unlocking => s' := Go(s, t, Idle).(lock := None);
  }

  /** As long as some thread is in the protocol, some thread can take a proper step. */
  lemma NeverStuck(s: State, x: nat)
    requires Inv(s) && x < |s.pcs| && s.pcs[x] != Idle
    ensures exists t: nat, s' :: Proper(s, t, s')
  {
    var t := Mover(s, x);
    var s' := CanMove(s, t);
  }

  lemma Mover(s: State, x: nat) returns (t: nat)
    requires Inv(s) && x < |s.pcs| && s.pcs[x] != Idle
    ensures t < |s.pcs| && s.pcs[t] != Idle && s.pcs[t] != Asleep
    ensures s.pcs[t].IncLock? || s.pcs[t].Using? || s.pcs[t].WaitLock? || s.pcs[t].Woken? ==> s.mutex == None
  {
    if s.mutex.Some? {
      t := s.mutex.value;
    } else if s.pcs[x] != Asleep {
      t := x;
    } else if s.cont == 0 {
      assert Sleeps(s, x);
      t :| 0 <= t < |s.pcs| && WillSignal(s.pcs[t]);
    } else {
      SumBounds(s.pcs, Counted);
      t :| 0 <= t < |s.pcs| && Counted(s.pcs[t]) != 0;
    }
  }

  // ---------- bounded waiting ----------

  /** How many more proper steps a thread can cause. */
  function Weight(pc: PC): int {
    match pc
    case Idle => 0
    case IncLock => 10
    case IncMutex => 9
    case IncDone => 8
    case IncUnlock => 7
    case Using => 6
    case DecMutex => 5
    case DecDone => 4
    case DecSignal => 3
    case WaitLock => 4
    case Woken => 4
    case WaitTest => 3
    case Asleep => 2
    case Writing => 2
    case Unlocking => 1
  }

  function Rank(s: State): int {
    Sum(s.pcs, Weight)
  }

  /** Every proper step lowers the rank; a spurious wakeup costs two. */
  lemma RankNext(s: State, t: nat, s': State)
    requires Next(s, t, s') && s.pcs[t] != Idle
    ensures Rank(s') <= if s.pcs[t] == Asleep then Rank(s) + 2 else Rank(s) - 1
  {
    SumNext(s, t, s', Weight);
  }

  lemma {:induction false} RankAtMost(pcs: seq<PC>)
    ensures 0 <= Sum(pcs, Weight) <= 10 * |pcs|
    decreases |pcs|
  {
    if pcs != [] {
      RankAtMost(pcs[1..]);
    }
  }

  predicate Enters(s: State, t: nat) {
    t < |s.pcs| && s.pcs[t] == Idle
  }

  function Spurious(states: seq<State>, actors: seq<nat>): nat
    requires |states| > |actors|
    decreases |actors|
  {
    if actors == [] then 0
    else
      var n := |actors| - 1;
      Spurious(states, actors[..n]) +
      if actors[n] < |states[n].pcs| && states[n].pcs[actors[n]] == Asleep then 1 else 0
  }

  lemma {:induction false} RunLength(states: seq<State>, actors: seq<nat>)
    requires Run(states, actors)
    requires forall i :: 0 <= i < |actors| ==> !Enters(states[i], actors[i])
    ensures |actors| + Rank(states[|actors|]) <= Rank(states[0]) + 3 * Spurious(states, actors)
    decreases |actors|
  {
    if actors != [] {
      var n := |actors| - 1;
      RunLength(states[..n + 1], actors[..n]);
      SpuriousPrefix(states, actors[..n], n + 1);
      assert Next(states[n], actors[n], states[n + 1]);
      RankNext(states[n], actors[n], states[n + 1]);
    }
  }

  lemma {:induction false} SpuriousPrefix(states: seq<State>, actors: seq<nat>, m: nat)
    requires |actors| < m <= |states|
    ensures Spurious(states[..m], actors) == Spurious(states, actors)
    decreases |actors|
  {
    if actors != [] {
      SpuriousPrefix(states, actors[..|actors| - 1], m);
    }
  }

  /**
    A waiting writer gets the lock within `10 * threads` steps of the whole system, plus three for each
    spurious wakeup, however the steps are scheduled: no run in which it waits all along is longer.
    */
  lemma WriterWaitIsBounded(states: seq<State>, actors: seq<nat>, x: nat)
    requires Run(states, actors) && Inv(states[0])
    requires forall i :: 0 <= i < |actors| ==> x < |states[i].pcs| && Waiting(states[i].pcs[x])
    ensures |actors| <= 10 * |states[0].pcs| + 3 * Spurious(states, actors)
  {
    forall i | 0 <= i < |actors| ensures !Enters(states[i], actors[i]) {
      RunInv(states, actors, i);
      assert Next(states[i], actors[i], states[i + 1]);
      WriterStopsReaders(states[i], x, actors[i], states[i + 1]);
    }
    RunLength(states, actors);
    RankAtMost(states[0].pcs);
    RankAtMost(states[|actors|].pcs);
  }

  /** A run of proper steps that cannot be continued has brought every thread out of the protocol. */
  lemma DrainEnds(states: seq<State>, actors: seq<nat>)
    requires Run(states, actors) && Inv(states[0])
    requires forall i :: 0 <= i < |actors| ==> Proper(states[i], actors[i], states[i + 1])
    ensures |actors| <= 10 * |states[0].pcs|
    ensures var s := states[|actors|];
            (forall t: nat, s' :: !Proper(s, t, s')) <==> forall t :: 0 <= t < |s.pcs| ==> s.pcs[t] == Idle
  {
    forall i | 0 <= i < |actors| ensures !Enters(states[i], actors[i]) {
      assert Proper(states[i], actors[i], states[i + 1]);
    }
    RunLength(states, actors);
    NoSpurious(states, actors);
    RankAtMost(states[0].pcs);
    RankAtMost(states[|actors|].pcs);
    RunInv(states, actors, |actors|);
    var s := states[|actors|];
    if x :| 0 <= x < |s.pcs| && s.pcs[x] != Idle {
      NeverStuck(s, x);
    }
  }

  lemma {:induction false} NoSpurious(states: seq<State>, actors: seq<nat>)
    requires Run(states, actors)
    requires forall i :: 0 <= i < |actors| ==> Proper(states[i], actors[i], states[i + 1])
    ensures Spurious(states, actors) == 0
    decreases |actors|
  {
    if actors != [] {
      var n := |actors| - 1;
      assert Proper(states[n], actors[n], states[n + 1]);
      NoSpurious(states[..n + 1], actors[..n]);
      SpuriousPrefix(states, actors[..n], n + 1);
    }
  }

  // ---------- readers share, and everybody can get in ----------

  /** From `s` the system can get to `s'`. */
  ghost predicate Reaches(s: State, s': State) {
    exists states, actors :: Run(states, actors) && states[0] == s && states[|actors|] == s'
  }

  lemma ReachesItself(s: State)
    ensures Reaches(s, s)
  {
    var states, actors: seq<nat> := [s], [];
    assert Run(states, actors) && states[|actors|] == s;
  }

  lemma OneMore(s: State, s': State, t: nat, s'': State)
    requires Reaches(s, s') && Next(s', t, s'')
    ensures Reaches(s, s'')
  {
    var states, actors :| Run(states, actors) && states[0] == s && states[|actors|] == s';
    var more, who := states + [s''], actors + [t];
    forall i | 0 <= i < |who| ensures Next(more[i], who[i], more[i + 1]) {
      assert i < |actors| ==> Next(states[i], actors[i], states[i + 1]);
    }
    assert Run(more, who) && more[|who|] == s'';
  }

  lemma ReachesFurther(s: State, s': State, s'': State)
    requires Reaches(s, s') && Reaches(s', s'')
    ensures Reaches(s, s'')
  {
    var states, actors :| Run(states, actors) && states[0] == s' && states[|actors|] == s'';
    Along(s, states, actors, |actors|);
  }

  lemma {:induction false} Along(s: State, states: seq<State>, actors: seq<nat>, i: nat)
    requires Run(states, actors) && Reaches(s, states[0]) && i <= |actors|
    ensures Reaches(s, states[i])
    decreases i
  {
    if i > 0 {
      Along(s, states, actors, i - 1);
      assert Next(states[i - 1], actors[i - 1], states[i]);
      OneMore(s, states[i - 1], actors[i - 1], states[i]);
    }
  }

  /** With both mutexes free an idle thread gets the use, whoever else uses the resource. */
  lemma IncUse(s: State, t: nat)
    requires t < |s.pcs| && s.pcs[t] == Idle && s.lock == None && s.mutex == None
    ensures Reaches(s, Go(s, t, Using).(cont := s.cont + 1))
  {
    ReachesItself(s);
    var a := Go(s, t, IncLock).(lock := Some(t));
    OneMore(s, s, t, a);
    var b := Go(a, t, IncMutex).(mutex := Some(t));
    OneMore(s, a, t, b);
    var c := Go(b, t, IncDone).(cont := s.cont + 1);
    OneMore(s, b, t, c);
    var d := Go(c, t, IncUnlock).(mutex := None);
    OneMore(s, c, t, d);
    var e := Go(d, t, Using).(lock := None);
    OneMore(s, d, t, e);
    assert e == Go(s, t, Using).(cont := s.cont + 1);
  }

  /** With both mutexes free and nobody counted an idle thread gets the write lock. */
  lemma WaitUnusedAndLock(s: State, t: nat)
    requires t < |s.pcs| && s.pcs[t] == Idle && s.lock == None && s.mutex == None && s.cont == 0
    ensures Reaches(s, Go(s, t, Writing).(lock := Some(t), mutex := Some(t)))
  {
    ReachesItself(s);
    var a := Go(s, t, WaitLock).(lock := Some(t));
    OneMore(s, s, t, a);
    var b := Go(a, t, WaitTest).(mutex := Some(t));
    OneMore(s, a, t, b);
    var c := Go(b, t, Writing);
    OneMore(s, b, t, c);
    assert c == Go(s, t, Writing).(lock := Some(t), mutex := Some(t));
  }

  /** The first `k` of the threads use the resource, the others are idle, and nothing is locked. */
  ghost predicate Sharing(s: State, k: nat) {
    && k <= |s.pcs| && s.cont == k && s.mutex == None && s.lock == None
    && forall t :: 0 <= t < |s.pcs| ==> s.pcs[t] == if t < k then Using else Idle
  }

  /** Readers share: any number of threads can use the resource at the same time. */
  lemma {:induction false} ReadersShare(s: State, k: nat)
    requires Init(s) && k <= |s.pcs|
    ensures exists s' :: Reaches(s, s') && |s'.pcs| == |s.pcs| && Sharing(s', k)
    decreases k
  {
    if k == 0 {
      ReachesItself(s);
      assert Sharing(s, 0);
    } else {
      ReadersShare(s, k - 1);
      var s1 :| Reaches(s, s1) && |s1.pcs| == |s.pcs| && Sharing(s1, k - 1);
      IncUse(s1, k - 1);
      var s2 := Go(s1, k - 1, Using).(cont := s1.cont + 1);
      ReachesFurther(s, s1, s2);
      assert Sharing(s2, k);
    }
  }

  /** Whoever holds the mutex alone is giving a use back, and lets go of it. */
  lemma MutexFreed(s: State) returns (s': State)
    requires Inv(s) && s.lock == None
    ensures Reaches(s, s') && Inv(s') && s'.lock == None && s'.mutex == None && |s'.pcs| == |s.pcs|
    ensures s'.cont <= s.cont
    ensures forall t :: 0 <= t < |s.pcs| && s.pcs[t] in {Idle, Using} ==> s'.pcs[t] == s.pcs[t]
  {
    s' := s;
    ReachesItself(s);
    if s.mutex.Some? {
      var x := s.mutex.value;
      assert s.pcs[x].DecMutex? || s.pcs[x].DecDone?;
      if s.pcs[x].DecMutex? {
        s' := Go(s, x, DecDone).(cont := s.cont - 1);
        OneMore(s, s, x, s');
        NextInv(s, x, s');
      }
      var s'' := Go(s', x, DecSignal).(mutex := None);
      OneMore(s, s', x, s'');
      NextInv(s', x, s'');
      s' := s'';
    }
  }

  lemma ReachableInv(start: State, s: State)
    requires Init(start) && Reaches(start, s)
    ensures Inv(s)
  {
    var states, actors :| Run(states, actors) && states[0] == start && states[|actors|] == s;
    InitInv(start);
    RunInv(states, actors, |actors|);
  }

  /**
    In every reachable state in which the lock is free, an idle thread can get the use without waiting for any other
    user, and the write lock if nobody is counted.
    */
  lemma EverybodyGetsIn(start: State, s: State, t: nat)
    requires Init(start) && Reaches(start, s) && s.lock == None && t < |s.pcs| && s.pcs[t] == Idle
    ensures exists s' :: Reaches(s, s') && |s'.pcs| == |s.pcs| && s'.pcs[t] == Using && StillUsing(s, s')
    ensures s.cont == 0 ==> exists s' :: Reaches(s, s') && |s'.pcs| == |s.pcs| && s'.pcs[t] == Writing
  {
    ReachableInv(start, s);
    GetsIn(s, t);
  }

  lemma GetsIn(s: State, t: nat)
    requires Inv(s) && s.lock == None && t < |s.pcs| && s.pcs[t] == Idle
    ensures exists s' :: Reaches(s, s') && |s'.pcs| == |s.pcs| && s'.pcs[t] == Using && StillUsing(s, s')
    ensures s.cont == 0 ==> exists s' :: Reaches(s, s') && |s'.pcs| == |s.pcs| && s'.pcs[t] == Writing
  {
    var f := MutexFreed(s);
    IncUse(f, t);
    var r := Go(f, t, Using).(cont := f.cont + 1);
    ReachesFurther(s, f, r);
    assert StillUsing(s, r);
    if s.cont == 0 {
      SumBounds(f.pcs, Counted);
      WaitUnusedAndLock(f, t);
      ReachesFurther(s, f, Go(f, t, Writing).(lock := Some(t), mutex := Some(t)));
    }
  }

  ghost predicate StillUsing(s: State, s': State) {
    |s'.pcs| == |s.pcs| && forall u :: 0 <= u < |s.pcs| && s.pcs[u] == Using ==> s'.pcs[u] == Using
  }
}
