/** The handle-based re-entrant lock of core/repository-2/mutex.cpp and core/sync/mutex.cpp,
    as a protocol over any number of threads.

    The two classes run the same code, one over a mutex and one over a spinlock; both
    count as the flag `inner` here.  Every read and every write of a shared field is a
    step of its own, and any thread may take the next step. */
module ReentrantLock {

  const TWO32: nat := 0x1_0000_0000

  /** Where a thread stands in `lock`, `try_lock` or `unlock`. */
  datatype Pc =
    | Idle
    | LockCompare(h: nat)            // lock(h), handle not compared yet
    | LockInner                      // blocked in m_mutex.lock()
    | TryCompare(h: nat)             // try_lock(h), handle not compared yet
    | TryInner                       // about to call m_mutex.try_lock()
    | SetCount                       // inner lock taken, m_lcount = 1 comes next
    | BumpRead                       // m_hcount++, the read
    | BumpWrite(seen: nat)           // m_hcount++, the write
    | FreshHandle                    // about to return the new handle
    | NestRead(h: nat)               // m_lcount++, the read
    | NestWrite(h: nat, seen: nat)   // m_lcount++, the write
    | NestReturn(h: nat)
    | UnlockCompare(h: nat)          // unlock(h), handle not compared yet
    | UnlockTest                     // if(m_lcount)
    | DropRead                       // m_lcount--, the read
    | DropWrite(seen: nat)           // m_lcount--, the write
    | UnlockLast                     // if(!m_lcount)
    | UnlockInner                    // about to call m_mutex.unlock()

  /** `depth` counts the acquisitions the caller has not given back yet, `handle` is
      what the last of them returned; both are the caller's own knowledge. */
  datatype Thread = Thread(pc: Pc, depth: nat, handle: nat)

  /** `low` is the low half of the lock's address. */
  datatype State = State(inner: bool, lcount: nat, hcount: nat, low: nat, threads: map<nat, Thread>)

  function Handle(s: State): nat {
    s.hcount * TWO32 + s.low
  }

  predicate Init(s: State) {
    !s.inner && s.lcount == 0 && s.hcount == 0 && 0 < s.low < TWO32 &&
    forall t :: t in s.threads ==> s.threads[t] == Thread(Idle, 0, 0)
  }

  /** What callers may pass: no handle, or the handle of an acquisition of their own
      that they still hold. */
  predicate MayPass(th: Thread, h: nat) {
    h == 0 || (th.depth > 0 && h == th.handle)
  }

  function Put(s: State, t: nat, th: Thread): State {
    s.(threads := s.threads[t := th])
  }

  function Goto(s: State, t: nat, pc: Pc): State
    requires t in s.threads
  {
    Put(s, t, s.threads[t].(pc := pc))
  }

  /** A caller starts one of the three operations.  Nesting is bounded by the counter. */
  predicate Call(s: State, s': State, t: nat)
    requires t in s.threads
  {
    var th := s.threads[t];
    t in s'.threads &&
    match s'.threads[t].pc
    case LockCompare(h) => MayPass(th, h) && th.depth + 1 < TWO32 && s' == Goto(s, t, LockCompare(h))
    case TryCompare(h) => MayPass(th, h) && th.depth + 1 < TWO32 && s' == Goto(s, t, TryCompare(h))
    case UnlockCompare(h) => MayPass(th, h) && s' == Goto(s, t, UnlockCompare(h))
    case _ => false
  }

  /** One step of thread `t`. */
  predicate Step(s: State, s': State, t: nat) {
    t in s.threads &&
    var th := s.threads[t];
    match th.pc
    case Idle => Call(s, s', t)
    case LockCompare(h) => s' == Goto(s, t, if h != Handle(s) then LockInner else NestRead(h))
    case LockInner => !s.inner && s' == Goto(s, t, SetCount).(inner := true)
    case TryCompare(h) => s' == Goto(s, t, if h != Handle(s) then TryInner else NestRead(h))
    case TryInner => s' == if s.inner then Goto(s, t, Idle) else Goto(s, t, SetCount).(inner := true)
    case SetCount => s' == Goto(s, t, BumpRead).(lcount := 1)
    case BumpRead => s' == Goto(s, t, BumpWrite(s.hcount))
    case BumpWrite(seen) => s' == Goto(s, t, FreshHandle).(hcount := (seen + 1) % TWO32)
    case FreshHandle => s' == Put(s, t, Thread(Idle, th.depth + 1, Handle(s)))
    case NestRead(h) => s' == Goto(s, t, NestWrite(h, s.lcount))
    case NestWrite(h, seen) => s' == Goto(s, t, NestReturn(h)).(lcount := (seen + 1) % TWO32)
    case NestReturn(h) => s' == Put(s, t, Thread(Idle, th.depth + 1, h))
    case UnlockCompare(h) => s' == Goto(s, t, if h == Handle(s) then UnlockTest else Idle)
    case UnlockTest => s' == Goto(s, t, if s.lcount != 0 then DropRead else UnlockLast)
    case DropRead => s' == Goto(s, t, DropWrite(s.lcount))
    case DropWrite(seen) => s' == Goto(s, t, UnlockLast).(lcount := (seen - 1) % TWO32)
    case UnlockLast =>
      s' == if s.lcount == 0 then Goto(s, t, UnlockInner) else Put(s, t, Returned(th))
    case UnlockInner => s' == Put(s, t, Returned(th)).(inner := false)
  }

  /** After a completed unlock one acquisition less is outstanding. */
  function Returned(th: Thread): Thread {
    Thread(Idle, if th.depth > 0 then th.depth - 1 else 0, th.handle)
  }

  /** All interleavings: at each turn some thread takes a step. */
  ghost predicate Run(tr: seq<State>) {
    |tr| > 0 && Init(tr[0]) &&
    forall i :: 0 < i < |tr| ==> Next(tr[i - 1], tr[i])
  }

  ghost predicate Next(s: State, s': State) {
    exists t :: Step(s, s', t)
  }

  // ----- The invariant -----

  /** The thread has the inner lock. */
  predicate Owns(th: Thread) {
    th.depth > 0 || th.pc.SetCount? || th.pc.BumpRead? || th.pc.BumpWrite? || th.pc.FreshHandle?
  }

  /** A thread without the lock is outside, or on its way in with no handle. */
  predicate OutsiderOk(th: Thread) {
    match th.pc
    case Idle => true
    case LockCompare(h) => h == 0
    case TryCompare(h) => h == 0
    case UnlockCompare(h) => h == 0
    case LockInner => true
    case TryInner => true
    case _ => false
  }

  /** The owner's place in the code fixes both counters. */
  predicate OwnerOk(s: State, th: Thread) {
    (th.depth > 0 ==> th.handle == Handle(s)) && th.depth < TWO32 &&
    match th.pc
    case SetCount => th.depth == 0
    case BumpRead => th.depth == 0 && s.lcount == 1
    case BumpWrite(seen) => th.depth == 0 && s.lcount == 1 && seen == s.hcount
    case FreshHandle => th.depth == 0 && s.lcount == 1
    case LockCompare(h) => s.lcount == th.depth && MayPass(th, h) && th.depth + 1 < TWO32
    case TryCompare(h) => s.lcount == th.depth && MayPass(th, h) && th.depth + 1 < TWO32
    case NestRead(h) => s.lcount == th.depth && h == th.handle && th.depth + 1 < TWO32
    case NestWrite(h, seen) => s.lcount == th.depth == seen && h == th.handle && th.depth + 1 < TWO32
    case NestReturn(h) => s.lcount == th.depth + 1 < TWO32 && h == th.handle
    case UnlockCompare(h) => s.lcount == th.depth && MayPass(th, h)
    case DropWrite(seen) => s.lcount == th.depth == seen
    case UnlockLast => s.lcount == th.depth - 1
    case UnlockInner => s.lcount == 0 && th.depth == 1
    case _ => s.lcount == th.depth // Idle, LockInner, TryInner, UnlockTest, DropRead
  }

  predicate ThreadOk(s: State, t: nat)
    requires t in s.threads
  {
    var th := s.threads[t];
    if Owns(th) then s.inner && OwnerOk(s, th) else OutsiderOk(th)
  }

  ghost predicate Inv(s: State) {
    0 < s.low < TWO32 && s.hcount < TWO32 &&
    (forall t :: t in s.threads ==> ThreadOk(s, t)) &&
    (forall t, u :: t in s.threads && u in s.threads && Owns(s.threads[t]) && Owns(s.threads[u]) ==> t == u) &&
    (s.inner ==> exists t :: t in s.threads && Owns(s.threads[t]))
  }

  lemma InvInit(s: State)
    requires Init(s)
    ensures Inv(s)
  {
  }

  /** A step touches no other thread and not the address. */
  lemma StepFrame(s: State, s': State, t: nat)
    requires Step(s, s', t)
    ensures t in s.threads && s'.threads.Keys == s.threads.Keys && s'.low == s.low
    ensures forall u :: u in s.threads && u != t ==> s'.threads[u] == s.threads[u]
  {
  }

  /** A thread without the lock leaves the shared fields alone, except that it may take
      the free inner lock. */
  lemma OutsiderStep(s: State, s': State, t: nat)
    requires Inv(s) && Step(s, s', t) && !Owns(s.threads[t])
    ensures t in s'.threads && s'.hcount == s.hcount && s'.lcount == s.lcount
    ensures Owns(s'.threads[t]) ==> !s.inner && s'.inner && OwnerOk(s', s'.threads[t])
    ensures !Owns(s'.threads[t]) ==> s'.inner == s.inner && OutsiderOk(s'.threads[t])
    ensures s.threads[t].depth == s'.threads[t].depth == 0
  {
  }

  /** The owner keeps its place in the code and the counters together, and gives the
      inner lock up in the same step in which it stops owning it. */
  lemma OwnerStep(s: State, s': State, t: nat)
    requires Inv(s) && Step(s, s', t) && Owns(s.threads[t])
    ensures t in s'.threads && s'.hcount < TWO32 && ThreadOk(s', t)
    ensures s'.inner <==> Owns(s'.threads[t])
    ensures s.threads[t].depth > 0 ==> s'.hcount == s.hcount
    ensures !s'.inner <==> s.threads[t].depth == 1 && s'.threads[t].depth == 0
    ensures s'.threads[t].depth < s.threads[t].depth ==>
      s'.threads[t].depth == s.threads[t].depth - 1 && s'.lcount == s'.threads[t].depth
  {
    assert OwnerOk(s, s.threads[t]);
  }

  /** No step of any thread breaks the invariant. */
  lemma InvStep(s: State, s': State, t: nat)
    requires Inv(s) && Step(s, s', t)
    ensures Inv(s')
  {
    StepFrame(s, s', t);
    if Owns(s.threads[t]) {
      OwnerStep(s, s', t);
      hide Step;
      hide OwnerOk;
      forall u | u in s'.threads ensures ThreadOk(s', u) {
        assert ThreadOk(s, u);
      }
    } else {
      OutsiderStep(s, s', t);
      hide Step;
      forall u | u in s'.threads ensures ThreadOk(s', u) {
        assert ThreadOk(s, u);
        assert u != t && Owns(s.threads[u]) ==> s.inner;
      }
      if s'.inner && !Owns(s'.threads[t]) {
        var o :| o in s.threads && Owns(s.threads[o]);
        assert o in s'.threads && Owns(s'.threads[o]);
      }
    }
  }

  lemma {:induction false} RunInv(tr: seq<State>, i: nat)
    requires Run(tr) && i < |tr|
    ensures Inv(tr[i])
  {
    if i == 0 {
      InvInit(tr[0]);
    } else {
      RunInv(tr, i - 1);
      var t :| Step(tr[i - 1], tr[i], t);
      InvStep(tr[i - 1], tr[i], t);
    }
  }

  // ----- What every run keeps -----

  /** At most one thread holds the lock, whatever the threads and however they interleave;
      and between its calls the counter is the number of its unmatched acquisitions. */
  lemma MutualExclusion(tr: seq<State>, i: nat, t: nat, u: nat)
    requires Run(tr) && i < |tr| && t in tr[i].threads && u in tr[i].threads
    ensures tr[i].threads[t].depth > 0 && tr[i].threads[u].depth > 0 ==> t == u
    ensures tr[i].threads[t].depth > 0 && tr[i].threads[t].pc.Idle? ==>
      tr[i].inner && tr[i].lcount == tr[i].threads[t].depth && Handle(tr[i]) == tr[i].threads[t].handle
  {
    RunInv(tr, i);
    assert ThreadOk(tr[i], t) && ThreadOk(tr[i], u);
  }

  /** A step of a run frees the inner lock exactly when it completes the unlock that
      matches the outermost acquisition. */
  lemma ReleasedAtLastUnlock(tr: seq<State>, i: nat, t: nat)
    requires Run(tr) && 0 < i < |tr| && Step(tr[i - 1], tr[i], t)
    ensures t in tr[i].threads
    ensures tr[i - 1].inner && !tr[i].inner <==>
      tr[i - 1].threads[t].depth == 1 && tr[i].threads[t].depth == 0
    ensures tr[i].threads[t].depth < tr[i - 1].threads[t].depth ==>
      tr[i].threads[t].depth == tr[i - 1].threads[t].depth - 1 && tr[i].lcount == tr[i].threads[t].depth
  {
    var s, s' := tr[i - 1], tr[i];
    RunInv(tr, i - 1);
    StepFrame(s, s', t);
    assert ThreadOk(s, t);
    if Owns(s.threads[t]) {
      OwnerStep(s, s', t);
      hide Step;
    } else {
      OutsiderStep(s, s', t);
      hide Step;
    }
  }

  /** An unlock of a held acquisition cannot be lost: the owner that compares its handle
      always goes on to give one acquisition back. */
  lemma OwnerUnlockMatches(tr: seq<State>, i: nat, t: nat)
    requires Run(tr) && 0 < i < |tr| && Step(tr[i - 1], tr[i], t)
    requires tr[i - 1].threads[t].pc.UnlockCompare? && tr[i - 1].threads[t].pc.h != 0
    ensures tr[i].threads[t].pc.UnlockTest?
    ensures tr[i - 1].lcount > 0
  {
    RunInv(tr, i - 1);
    assert ThreadOk(tr[i - 1], t);
  }

  /** A handle from an earlier acquisition stays good while the acquisition lasts: the
      handle counter moves only when somebody takes the free lock. */
  lemma HandleStable(tr: seq<State>, i: nat, t: nat, u: nat)
    requires Run(tr) && 0 < i < |tr| && Step(tr[i - 1], tr[i], u)
    requires t in tr[i - 1].threads && tr[i - 1].threads[t].depth > 0
    ensures Handle(tr[i]) == Handle(tr[i - 1])
  {
    var s, s' := tr[i - 1], tr[i];
    RunInv(tr, i - 1);
    StepFrame(s, s', u);
    assert ThreadOk(s, t) && ThreadOk(s, u);
    if u != t {
      OutsiderStep(s, s', u);
    } else {
      OwnerStep(s, s', u);
    }
    hide Step;
  }

  /** The thread waits for the inner lock while it holds it itself. */
  predicate WaitsForItself(s: State, t: nat) {
    t in s.threads && s.threads[t].depth > 0 && s.threads[t].pc.LockInner?
  }

  lemma BlockedIsStuck(s: State, s': State, t: nat)
    requires WaitsForItself(s, t) && s.inner
    ensures !Step(s, s', t)
  {
  }

  lemma BlockedHolds(s: State, t: nat)
    requires Inv(s) && WaitsForItself(s, t)
    ensures s.inner
  {
    assert ThreadOk(s, t);
  }

  lemma BlockedStays(s: State, s': State, t: nat)
    requires Inv(s) && WaitsForItself(s, t) && Next(s, s')
    ensures WaitsForItself(s', t)
  {
    BlockedHolds(s, t);
    var u :| Step(s, s', u);
    BlockedIsStuck(s, s', t);
    StepFrame(s, s', u);
  }

  /** Locking without the handle inside a held section never returns: from then on, in
      every run, the thread stays where it is and the lock stays taken. */
  lemma {:induction false} SelfDeadlock(tr: seq<State>, i: nat, j: nat, t: nat)
    requires Run(tr) && i <= j < |tr| && WaitsForItself(tr[i], t)
    ensures WaitsForItself(tr[j], t) && tr[j].inner
    decreases j
  {
    hide Inv;
    hide Next;
    hide Init;
    hide WaitsForItself;
    if i < j {
      SelfDeadlock(tr, i, j - 1, t);
      RunInv(tr, j - 1);
      BlockedStays(tr[j - 1], tr[j], t);
    }
    RunInv(tr, j);
    BlockedHolds(tr[j], t);
  }
}
