/** The three operations of the lock as methods that update its fields, and their tie to the
    protocol: a call that nobody interferes with is what its steps, one after the other, do.
    Models core/repository-2/mutex.cpp; core/sync/mutex.cpp has the same code. */
module MutexCalls {
  import opened ReentrantLock

  ghost predicate Alone(tr: seq<State>, t: nat) {
    |tr| > 0 && forall i :: 0 < i < |tr| ==> Step(tr[i - 1], tr[i], t)
  }

  ghost predicate Joins(tr: seq<State>, s: State, s': State, t: nat) {
    Alone(tr, t) && tr[0] == s && tr[|tr| - 1] == s'
  }

  /** Steps of thread `t`, with nobody else in between, lead from `s` to `s'`. */
  ghost predicate Leads(s: State, s': State, t: nat) {
    exists tr :: Joins(tr, s, s', t)
  }

  lemma NoStep(s: State, t: nat)
    ensures Leads(s, s, t)
  {
    assert Joins([s], s, s, t);
  }

  lemma StepFirst(s: State, m: State, s': State, t: nat)
    requires Step(s, m, t) && Leads(m, s', t)
    ensures Leads(s, s', t)
  {
    hide Step;
    var tr :| Joins(tr, m, s', t);
    var longer := [s] + tr;
    forall i | 0 < i < |longer| ensures Step(longer[i - 1], longer[i], t) {
      if i > 1 {
        assert Step(tr[i - 2], tr[i - 1], t);
      }
    }
    assert Joins(longer, s, s', t);
  }

  /** The first acquisition: six steps. */
  lemma FirstLock(s: State, t: nat, th: Thread, h: nat, trying: bool)
    requires t in s.threads && !s.inner && h != Handle(s)
    requires s.threads[t] == th.(pc := if trying then TryCompare(h) else LockCompare(h))
    ensures var s' := s.(inner := true, lcount := 1, hcount := (s.hcount + 1) % TWO32);
      Leads(s, Put(s', t, Thread(Idle, th.depth + 1, Handle(s'))), t)
  {
    hide Leads;
    var a := Goto(s, t, if trying then TryInner else LockInner);
    var b := Goto(a, t, SetCount).(inner := true);
    var c := Goto(b, t, BumpRead).(lcount := 1);
    var d := Goto(c, t, BumpWrite(c.hcount));
    var e := Goto(d, t, FreshHandle).(hcount := (s.hcount + 1) % TWO32);
    var f := Put(e, t, Thread(Idle, th.depth + 1, Handle(e)));
    NoStep(f, t);
    StepFirst(e, f, f, t);
    StepFirst(d, e, f, t);
    StepFirst(c, d, f, t);
    StepFirst(b, c, f, t);
    StepFirst(a, b, f, t);
    StepFirst(s, a, f, t);
    assert f == Put(s.(inner := true, lcount := 1, hcount := (s.hcount + 1) % TWO32), t, f.threads[t]);
  }

  /** An acquisition by the holder: four steps. */
  lemma NestedLock(s: State, t: nat, th: Thread, h: nat, trying: bool)
    requires t in s.threads && h == Handle(s)
    requires s.threads[t] == th.(pc := if trying then TryCompare(h) else LockCompare(h))
    ensures Leads(s, Put(s.(lcount := (s.lcount + 1) % TWO32), t, Thread(Idle, th.depth + 1, h)), t)
  {
    hide Leads;
    var a := Goto(s, t, NestRead(h));
    var b := Goto(a, t, NestWrite(h, s.lcount));
    var c := Goto(b, t, NestReturn(h)).(lcount := (s.lcount + 1) % TWO32);
    var d := Put(c, t, Thread(Idle, th.depth + 1, h));
    NoStep(d, t);
    StepFirst(c, d, d, t);
    StepFirst(b, c, d, t);
    StepFirst(a, b, d, t);
    StepFirst(s, a, d, t);
    assert d == Put(s.(lcount := (s.lcount + 1) % TWO32), t, d.threads[t]);
  }

  /** A try while somebody has the lock: two steps, nothing changed. */
  lemma TryInVain(s: State, t: nat, th: Thread, h: nat)
    requires t in s.threads && s.inner && h != Handle(s) && s.threads[t] == th.(pc := TryCompare(h))
    ensures Leads(s, Goto(s, t, Idle), t)
  {
    hide Leads;
    var a := Goto(s, t, TryInner);
    var b := Goto(a, t, Idle);
    NoStep(b, t);
    StepFirst(a, b, b, t);
    StepFirst(s, a, b, t);
    assert b == Goto(s, t, Idle);
  }

  /** An unlock with another handle: one step, nothing changed. */
  lemma UnlockInVain(s: State, t: nat, th: Thread, h: nat)
    requires t in s.threads && h != Handle(s) && s.threads[t] == th.(pc := UnlockCompare(h))
    ensures Leads(s, Goto(s, t, Idle), t)
  {
    hide Leads;
    NoStep(Goto(s, t, Idle), t);
    StepFirst(s, Goto(s, t, Idle), Goto(s, t, Idle), t);
  }

  /** An unlock of the holder: the counter goes down, and at zero the inner lock is released. */
  lemma HolderUnlock(s: State, t: nat, th: Thread, h: nat)
    requires t in s.threads && h == Handle(s) && 0 < s.lcount < TWO32 && s.threads[t] == th.(pc := UnlockCompare(h))
    ensures s.lcount > 1 ==> Leads(s, Put(s.(lcount := s.lcount - 1), t, Returned(th)), t)
    ensures s.lcount == 1 ==> Leads(s, Put(s.(lcount := 0, inner := false), t, Returned(th)), t)
  {
    hide Step;
    hide Leads;
    var d := Goto(s.(lcount := s.lcount - 1), t, UnlockLast);
    UnlockTail(d, t, th);
    PutTwice(s.(lcount := s.lcount - 1), t, s.threads[t].(pc := UnlockLast), Returned(th));
    PutTwice(s.(lcount := s.lcount - 1, inner := false), t, s.threads[t].(pc := UnlockLast), Returned(th));
    if s.lcount > 1 {
      UnlockHead(s, t, th, h, Put(s.(lcount := s.lcount - 1), t, Returned(th)));
    } else {
      UnlockHead(s, t, th, h, Put(s.(lcount := 0, inner := false), t, Returned(th)));
    }
  }

  lemma PutTwice(s: State, t: nat, a: Thread, b: Thread)
    ensures Put(Put(s, t, a), t, b) == Put(s, t, b)
  {
    assert s.threads[t := a][t := b] == s.threads[t := b];
  }

  /** Up to the counter. */
  lemma UnlockHead(s: State, t: nat, th: Thread, h: nat, end: State)
    requires t in s.threads && h == Handle(s) && 0 < s.lcount < TWO32 && s.threads[t] == th.(pc := UnlockCompare(h))
    requires Leads(Goto(s.(lcount := s.lcount - 1), t, UnlockLast), end, t)
    ensures Leads(s, end, t)
  {
    hide Leads;
    var a := Goto(s, t, UnlockTest);
    var b := Goto(a, t, DropRead);
    var c := Goto(b, t, DropWrite(s.lcount));
    var d := Goto(c, t, UnlockLast).(lcount := s.lcount - 1);
    assert d == Goto(s.(lcount := s.lcount - 1), t, UnlockLast);
    StepFirst(c, d, end, t);
    StepFirst(b, c, end, t);
    StepFirst(a, b, end, t);
    StepFirst(s, a, end, t);
  }

  /** From the test of the counter on. */
  lemma UnlockTail(s: State, t: nat, th: Thread)
    requires t in s.threads && s.threads[t] == th.(pc := UnlockLast)
    ensures s.lcount > 0 ==> Leads(s, Put(s, t, Returned(th)), t)
    ensures s.lcount == 0 ==> Leads(s, Put(s.(inner := false), t, Returned(th)), t)
  {
    hide Leads;
    var end := Put(s.(inner := s.lcount > 0 && s.inner), t, Returned(th));
    NoStep(end, t);
    if s.lcount > 0 {
      StepFirst(s, Put(s, t, Returned(th)), Put(s, t, Returned(th)), t);
    } else {
      var e := Goto(s, t, UnlockInner);
      assert end == Put(e, t, Returned(th)).(inner := false);
      StepFirst(e, end, end, t);
      StepFirst(s, e, end, t);
    }
  }

  /** An unlock with a handle that is given up already: the free inner lock is released once more. */
  lemma StaleUnlock(s: State, t: nat, th: Thread, h: nat)
    requires t in s.threads && h == Handle(s) && s.lcount == 0 && s.threads[t] == th.(pc := UnlockCompare(h))
    ensures Leads(s, Put(s.(inner := false), t, Returned(th)), t)
  {
    hide Leads;
    var a := Goto(s, t, UnlockTest);
    var b := Goto(a, t, UnlockLast);
    UnlockTail(b, t, th);
    PutTwice(s.(inner := false), t, b.threads[t], Returned(th));
    assert b == Put(s, t, b.threads[t]);
    StepFirst(a, b, Put(s.(inner := false), t, Returned(th)), t);
    StepFirst(s, a, Put(s.(inner := false), t, Returned(th)), t);
  }

  class Mutex {
    var inner: bool
    var lcount: nat
    var hcount: nat
    const low: nat

    ghost predicate Valid()
      reads this
    {
      lcount < TWO32 && hcount < TWO32 && 0 < low < TWO32
    }

    /** The lock with these threads around it. */
    ghost function With(threads: map<nat, Thread>): State
      reads this
    {
      State(inner, lcount, hcount, low, threads)
    }

    constructor (low: nat)
      requires 0 < low < TWO32
      ensures Valid() && Init(With(map[])) && this.low == low
    {
      inner, lcount, hcount, this.low := false, 0, 0, low;
    }

    /** The number of the acquisition above the low word of the address. */
    method GetHandle() returns (r: nat)
      ensures r == Handle(With(map[]))
      ensures low < 0x1_0000_0000 ==> r % 0x1_0000_0000 == low && r / 0x1_0000_0000 == hcount
    {
      r := hcount * TWO32 + low;
    }

    /** Returns only if the inner lock is free or the caller has the handle. */
    method Lock(h: nat, ghost threads: map<nat, Thread>, ghost t: nat, ghost th: Thread) returns (r: nat)
      requires Valid() && t in threads && threads[t] == th.(pc := LockCompare(h))
      requires h == Handle(With(threads)) || !inner
      modifies this
      ensures Valid() && r == Handle(With(threads))
      ensures Leads(old(With(threads)), Put(With(threads), t, Thread(Idle, th.depth + 1, r)), t)
    {
      hide Leads;
      hide Step;
      ghost var s := With(threads);
      var own := GetHandle();
      if h != own {
        FirstLock(s, t, th, h, false);
        inner := true;
        lcount := 1;
        hcount := (hcount + 1) % TWO32;
        r := GetHandle();
      } else {
        NestedLock(s, t, th, h, false);
        r := h;
        lcount := (lcount + 1) % TWO32;
      }
    }

    method TryLock(h: nat, ghost threads: map<nat, Thread>, ghost t: nat, ghost th: Thread) returns (r: nat)
      requires Valid() && t in threads && threads[t] == th.(pc := TryCompare(h))
      modifies this
      ensures Valid()
      ensures r == 0 <==> old(inner) && h != old(Handle(With(threads)))
      ensures r == 0 ==> With(threads) == old(With(threads)) && Leads(With(threads), Goto(With(threads), t, Idle), t)
      ensures r != 0 ==> r == Handle(With(threads))
      ensures r != 0 ==>
        Leads(old(With(threads)), Put(With(threads), t, Thread(Idle, th.depth + 1, r)), t)
    {
      hide Leads;
      hide Step;
      ghost var s := With(threads);
      var own := GetHandle();
      r := 0;
      if h != own {
        if !inner {
          FirstLock(s, t, th, h, true);
          inner := true;
          lcount := 1;
          hcount := (hcount + 1) % TWO32;
          r := GetHandle();
        } else {
          TryInVain(s, t, th, h);
        }
      } else {
        NestedLock(s, t, th, h, true);
        r := h;
        lcount := (lcount + 1) % TWO32;
      }
    }

    /** With the handle of the holder one acquisition goes, with any other nothing happens. */
    method Unlock(h: nat, ghost threads: map<nat, Thread>, ghost t: nat, ghost th: Thread)
      requires Valid() && t in threads && threads[t] == th.(pc := UnlockCompare(h))
      modifies this
      ensures Valid()
      ensures h != old(Handle(With(threads))) ==>
        With(threads) == old(With(threads)) && Leads(With(threads), Goto(With(threads), t, Idle), t)
      ensures h == old(Handle(With(threads))) ==>
        lcount == (if old(lcount) > 0 then old(lcount) - 1 else 0) && inner == (lcount > 0 && old(inner))
      ensures h == old(Handle(With(threads))) ==>
        Leads(old(With(threads)), Put(With(threads), t, Returned(th)), t)
    {
      hide Leads;
      hide Step;
      ghost var s := With(threads);
      var own := GetHandle();
      if h == own {
        if lcount > 0 {
          HolderUnlock(s, t, th, h);
        } else {
          StaleUnlock(s, t, th, h);
        }
        if lcount != 0 {
          lcount := lcount - 1;
        }
        if lcount == 0 {
          inner := false;
        }
      } else {
        UnlockInVain(s, t, th, h);
      }
    }
  }
}
