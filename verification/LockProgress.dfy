/** Who gets on: when a thread has to wait in the lock protocol, and when the lock can still be
    freed.  Nothing goes wrong but this: the holder locks again without its handle. */
module LockProgress {
  import opened ReentrantLock
  import opened MutexCalls

  /** What thread `t` does next; between its calls it gives back what it has. */
  function After(s: State, t: nat): State
    requires t in s.threads
  {
    var th := s.threads[t];
    match th.pc
    case Idle => Goto(s, t, UnlockCompare(if th.depth > 0 then th.handle else 0))
    case LockCompare(h) => Goto(s, t, if h != Handle(s) then LockInner else NestRead(h))
    case LockInner => Goto(s, t, SetCount).(inner := true)
    case TryCompare(h) => Goto(s, t, if h != Handle(s) then TryInner else NestRead(h))
    case TryInner => if s.inner then Goto(s, t, Idle) else Goto(s, t, SetCount).(inner := true)
    case SetCount => Goto(s, t, BumpRead).(lcount := 1)
    case BumpRead => Goto(s, t, BumpWrite(s.hcount))
    case BumpWrite(seen) => Goto(s, t, FreshHandle).(hcount := (seen + 1) % TWO32)
    case FreshHandle => Put(s, t, Thread(Idle, th.depth + 1, Handle(s)))
    case NestRead(h) => Goto(s, t, NestWrite(h, s.lcount))
    case NestWrite(h, seen) => Goto(s, t, NestReturn(h)).(lcount := (seen + 1) % TWO32)
    case NestReturn(h) => Put(s, t, Thread(Idle, th.depth + 1, h))
    case UnlockCompare(h) => Goto(s, t, if h == Handle(s) then UnlockTest else Idle)
    case UnlockTest => Goto(s, t, if s.lcount != 0 then DropRead else UnlockLast)
    case DropRead => Goto(s, t, DropWrite(s.lcount))
    case DropWrite(seen) => Goto(s, t, UnlockLast).(lcount := (seen - 1) % TWO32)
    case UnlockLast => if s.lcount == 0 then Goto(s, t, UnlockInner) else Put(s, t, Returned(th))
    case UnlockInner => Put(s, t, Returned(th)).(inner := false)
  }

  ghost predicate CanStep(s: State, t: nat) {
    exists s' :: Step(s, s', t)
  }

  /** A thread can take its next step unless it wants the inner lock while that is taken. */
  lemma WaitsExactly(s: State, t: nat)
    requires t in s.threads
    ensures CanStep(s, t) <==> !(s.threads[t].pc.LockInner? && s.inner)
    ensures CanStep(s, t) ==> Step(s, After(s, t), t)
  {
    if !(s.threads[t].pc.LockInner? && s.inner) {
      assert Step(s, After(s, t), t);
    }
  }

  /** The holder waits for the lock it holds, or is about to. */
  predicate Doomed(s: State, t: nat) {
    t in s.threads && s.threads[t].depth > 0 && (s.threads[t].pc.LockInner? || s.threads[t].pc == LockCompare(0))
  }

  ghost predicate SelfBlocked(s: State) {
    exists t :: Doomed(s, t)
  }

  /** How many steps thread `t` is away from giving the inner lock back, at most. */
  function Distance(s: State, t: nat): nat
    requires t in s.threads
  {
    12 * s.threads[t].depth +
    match s.threads[t].pc
    case Idle => 11
    case LockCompare(_) => 27
    case LockInner => 11
    case TryCompare(_) => 27
    case TryInner => 12
    case SetCount => 27
    case BumpRead => 26
    case BumpWrite(_) => 25
    case FreshHandle => 24
    case NestRead(_) => 26
    case NestWrite(_, _) => 25
    case NestReturn(_) => 24
    case UnlockCompare(h) => if h == 0 then 12 else 10
    case UnlockTest => 9
    case DropRead => 8
    case DropWrite(_) => 7
    case UnlockLast => 6
    case UnlockInner => 5
  }

  lemma OwnerGetsCloser(s: State, t: nat)
    requires Inv(s) && t in s.threads && Owns(s.threads[t]) && !Doomed(s, t)
    ensures var s' := After(s, t);
      && Step(s, s', t) && Inv(s') && t in s'.threads
      && (s'.inner ==> Owns(s'.threads[t]) && !Doomed(s', t) && Distance(s', t) < Distance(s, t))
  {
    var s' := After(s, t);
    assert ThreadOk(s, t);
    assert Step(s, s', t);
    OwnerStep(s, s', t);
    InvStep(s, s', t);
  }

  /** Left alone, a holder that does not wait for itself gives the inner lock back. */
  lemma {:induction false} OwnerFrees(s: State, t: nat) returns (s': State)
    requires Inv(s) && t in s.threads && Owns(s.threads[t]) && !Doomed(s, t)
    ensures Leads(s, s', t) && !s'.inner && Inv(s')
    ensures forall u :: u in s.threads && u != t ==> u in s'.threads && s'.threads[u] == s.threads[u]
    decreases Distance(s, t)
  {
    hide *;
    var next := After(s, t);
    OwnerGetsCloser(s, t);
    StepFrame(s, next, t);
    if next.inner {
      s' := OwnerFrees(next, t);
    } else {
      s' := next;
      NoStep(next, t);
    }
    StepFirst(s, next, s', t);
  }

  // ----- Continuations of a run -----

  ghost predicate Continues(tr: seq<State>, s: State) {
    |tr| > 0 && tr[0] == s && forall i :: 0 < i < |tr| ==> Next(tr[i - 1], tr[i])
  }

  ghost predicate Reaches(tr: seq<State>, s: State, s': State) {
    Continues(tr, s) && tr[|tr| - 1] == s'
  }

  ghost predicate CanReach(s: State, s': State) {
    exists tr :: Reaches(tr, s, s')
  }

  lemma LeadsReaches(s: State, s': State, t: nat)
    requires Leads(s, s', t)
    ensures CanReach(s, s')
  {
    hide Step;
    var tr :| Joins(tr, s, s', t);
    assert Reaches(tr, s, s');
  }

  lemma ReachesNext(s: State, m: State, s': State)
    requires CanReach(s, m) && Next(m, s')
    ensures CanReach(s, s')
  {
    hide Next;
    var tr :| Reaches(tr, s, m);
    assert Reaches(tr + [s'], s, s');
  }

  lemma DoomedStays(s: State, s': State, t: nat)
    requires Inv(s) && Doomed(s, t) && Next(s, s')
    ensures Inv(s') && Doomed(s', t)
  {
    assert ThreadOk(s, t);
    var u :| Step(s, s', u);
    InvStep(s, s', u);
    StepFrame(s, s', u);
  }

  lemma {:induction false} DoomedForever(tr: seq<State>, s: State, j: nat, t: nat)
    requires Continues(tr, s) && Inv(s) && Doomed(s, t) && j < |tr|
    ensures Inv(tr[j]) && Doomed(tr[j], t)
  {
    hide Inv;
    hide Doomed;
    hide Next;
    if j > 0 {
      DoomedForever(tr, s, j - 1, t);
      DoomedStays(tr[j - 1], tr[j], t);
    }
  }

  lemma DoomedHolds(s: State, t: nat)
    requires Inv(s) && Doomed(s, t)
    ensures s.inner && forall u :: u in s.threads ==> !s.threads[u].pc.SetCount?
  {
    assert ThreadOk(s, t);
    forall u | u in s.threads ensures !s.threads[u].pc.SetCount? {
      assert Owns(s.threads[u]) ==> u == t;
    }
  }

  /** The inner lock is free in some continuation. */
  ghost predicate CanBeFreed(s: State) {
    exists s' :: CanReach(s, s') && !s'.inner
  }

  /** No continuation frees the lock or lets anybody have it. */
  ghost predicate LockedForever(s: State) {
    !CanBeFreed(s) && forall t :: !CanGetIn(s, t)
  }

  /** Thread `t` has the inner lock in some continuation. */
  ghost predicate CanGetIn(s: State, t: nat) {
    exists s' :: CanReach(s, s') && t in s'.threads && s'.threads[t].pc.SetCount?
  }

  lemma NeverWhenDoomed(s: State, s': State, t: nat)
    requires Inv(s) && Doomed(s, t) && CanReach(s, s')
    ensures s'.inner && forall u :: u in s'.threads ==> !s'.threads[u].pc.SetCount?
  {
    hide Inv;
    hide Doomed;
    hide Next;
    var tr :| Reaches(tr, s, s');
    DoomedForever(tr, s, |tr| - 1, t);
    DoomedHolds(s', t);
  }

  lemma BlockedNeverFreed(s: State)
    requires Inv(s) && SelfBlocked(s)
    ensures LockedForever(s)
  {
    hide Inv;
    hide Doomed;
    hide CanReach;
    var t :| Doomed(s, t);
    forall s' | CanReach(s, s') ensures s'.inner && forall u :: u in s'.threads ==> !s'.threads[u].pc.SetCount? {
      NeverWhenDoomed(s, s', t);
    }
  }

  /** The holder frees the inner lock, and nobody else does anything. */
  lemma FreedUnlessBlocked(s: State) returns (owner: nat, s': State)
    requires Inv(s) && s.inner && !SelfBlocked(s)
    ensures CanReach(s, s') && !s'.inner && Inv(s') && owner in s.threads && Owns(s.threads[owner])
    ensures forall u :: u in s.threads && u != owner ==> u in s'.threads && s'.threads[u] == s.threads[u]
  {
    hide Owns;
    hide Doomed;
    hide Leads;
    hide CanReach;
    owner :| owner in s.threads && Owns(s.threads[owner]);
    s' := OwnerFrees(s, owner);
    LeadsReaches(s, s', owner);
  }

  /** In every state of every run in which the inner lock is taken: it can be freed again exactly
      when the holder does not wait for itself. */
  lemma FreedExactly(tr: seq<State>, i: nat)
    requires Run(tr) && i < |tr| && tr[i].inner
    ensures CanBeFreed(tr[i]) <==> !SelfBlocked(tr[i])
  {
    hide Run;
    hide Inv;
    hide SelfBlocked;
    RunInv(tr, i);
    if SelfBlocked(tr[i]) {
      BlockedNeverFreed(tr[i]);
    } else {
      var owner, s' := FreedUnlessBlocked(tr[i]);
    }
  }

  lemma HolderIsDoomed(s: State, t: nat)
    requires t in s.threads && Owns(s.threads[t]) && s.threads[t].pc.LockInner?
    ensures SelfBlocked(s)
  {
    assert Doomed(s, t);
  }

  lemma TakesFree(s: State, m: State, t: nat)
    requires CanReach(s, m) && !m.inner && t in m.threads && m.threads[t].pc.LockInner?
    ensures CanGetIn(s, t)
  {
    hide CanReach;
    assert Step(m, After(m, t), t);
    ReachesNext(s, m, After(m, t));
  }

  lemma NobodyGetsIn(s: State, t: nat)
    requires LockedForever(s)
    ensures !CanGetIn(s, t)
  {
  }

  /** In every state of every run, a thread that wants the inner lock can get it exactly when the
      holder, if there is one, does not wait for itself. */
  lemma GetsInExactly(tr: seq<State>, i: nat, t: nat)
    requires Run(tr) && i < |tr| && t in tr[i].threads && tr[i].threads[t].pc.LockInner?
    ensures CanGetIn(tr[i], t) <==> !SelfBlocked(tr[i])
  {
    hide *;
    var s := tr[i];
    RunInv(tr, i);
    if SelfBlocked(s) {
      BlockedNeverFreed(s);
      NobodyGetsIn(s, t);
    } else if s.inner {
      var owner, m := FreedUnlessBlocked(s);
      if owner == t {
        HolderIsDoomed(s, t);
      } else {
        TakesFree(s, m, t);
      }
    } else {
      Here(s);
      TakesFree(s, s, t);
    }
  }

  lemma Here(s: State)
    ensures CanReach(s, s)
  {
    assert Reaches([s], s, s);
  }

  // ----- The condition is met -----

  /** From every initial state any thread can run into it: it locks, and locks again without its
      handle.  From then on nobody can free the lock or get it. */
  lemma DeadlockIsReachable(s: State, t: nat) returns (tr: seq<State>)
    requires Init(s) && t in s.threads
    ensures Run(tr) && tr[0] == s && WaitsForItself(tr[|tr| - 1], t)
    ensures LockedForever(tr[|tr| - 1])
  {
    var end := LockTwice(s, t);
    tr := RunTo(s, end);
    RunInv(tr, |tr| - 1);
    HolderIsDoomed(end, t);
    BlockedNeverFreed(end);
  }

  lemma LockTwice(s: State, t: nat) returns (end: State)
    requires Init(s) && t in s.threads
    ensures CanReach(s, end) && WaitsForItself(end, t)
  {
    hide CanReach;
    hide Leads;
    var th := s.threads[t];
    var called := Goto(s, t, LockCompare(0));
    var taken := called.(inner := true, lcount := 1, hcount := 1);
    var m := Put(taken, t, Thread(Idle, 1, Handle(taken)));
    FirstLock(called, t, th, 0, false);
    StepFirst(s, called, m, t);
    LeadsReaches(s, m, t);
    var again := Goto(m, t, LockCompare(0));
    end := Goto(again, t, LockInner);
    assert Step(m, again, t) && Step(again, end, t);
    ReachesNext(s, m, again);
    ReachesNext(s, again, end);
  }

  lemma RunTo(s: State, end: State) returns (tr: seq<State>)
    requires Init(s) && CanReach(s, end)
    ensures Run(tr) && tr[0] == s && tr[|tr| - 1] == end
  {
    hide Next;
    tr :| Reaches(tr, s, end);
  }

  /** A single thread is enough. */
  lemma OneThreadDeadlocks() returns (tr: seq<State>)
    ensures Run(tr) && WaitsForItself(tr[|tr| - 1], 0) && LockedForever(tr[|tr| - 1])
  {
    tr := DeadlockIsReachable(State(false, 0, 0, 1, map[0 := Thread(Idle, 0, 0)]), 0);
  }
}
