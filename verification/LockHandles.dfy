/** The handles of the lock over whole runs: each outermost acquisition has one of its own. */
module LockHandles {
  import opened ReentrantLock

  ghost predicate SomeoneFresh(s: State) {
    exists t :: t in s.threads && s.threads[t].pc.FreshHandle?
  }

  /** Thread `t` completes an outermost acquisition in step `k` of the run. */
  predicate Acquires(tr: seq<State>, k: nat, t: nat)
    requires 0 < k < |tr|
  {
    t in tr[k - 1].threads && tr[k - 1].threads[t].pc.FreshHandle? &&
    t in tr[k].threads && tr[k].threads[t].pc.Idle?
  }

  ghost predicate SomeoneAcquires(tr: seq<State>, k: nat)
    requires 0 < k < |tr|
  {
    exists t :: Acquires(tr, k, t)
  }

  /** How many outermost acquisitions are complete after `i` steps. */
  ghost function Completed(tr: seq<State>, i: nat): nat
    requires i < |tr|
  {
    if i == 0 then 0 else Completed(tr, i - 1) + if SomeoneAcquires(tr, i) then 1 else 0
  }

  /** How many have at least got their handle. */
  ghost function Begun(tr: seq<State>, i: nat): nat
    requires i < |tr|
  {
    Completed(tr, i) + if SomeoneFresh(tr[i]) then 1 else 0
  }

  /** What 32 bits hold of a number, and the handle of acquisition number `n`. */
  function Counter(n: nat): nat {
    n % 0x1_0000_0000
  }

  function HandleFor(n: nat, low: nat): nat {
    n % 0x1_0000_0000 * 0x1_0000_0000 + low
  }

  /** What one step does to the counter, and to the threads that are about to return a handle. */
  lemma StepCounts(s: State, s': State, t: nat)
    requires Inv(s) && Step(s, s', t)
    ensures s.threads[t].pc.BumpWrite? ==>
      s'.hcount == (s.hcount + 1) % 0x1_0000_0000 && !SomeoneFresh(s) && SomeoneFresh(s')
    ensures s.threads[t].pc.FreshHandle? ==> s'.hcount == s.hcount && SomeoneFresh(s) && !SomeoneFresh(s')
    ensures !s.threads[t].pc.BumpWrite? && !s.threads[t].pc.FreshHandle? ==>
      s'.hcount == s.hcount && (SomeoneFresh(s') <==> SomeoneFresh(s))
  {
    StepFrame(s, s', t);
    assert ThreadOk(s, t);
  }

  lemma StepAcquires(tr: seq<State>, k: nat, t: nat)
    requires 0 < k < |tr| && Step(tr[k - 1], tr[k], t)
    ensures t in tr[k - 1].threads
    ensures SomeoneAcquires(tr, k) <==> tr[k - 1].threads[t].pc.FreshHandle?
  {
    StepFrame(tr[k - 1], tr[k], t);
    if tr[k - 1].threads[t].pc.FreshHandle? {
      assert Acquires(tr, k, t);
    }
  }

  /** In every run the handle counter is the number of acquisitions begun, in 32 bits. */
  lemma {:induction false} CountFits(tr: seq<State>, i: nat)
    requires Run(tr) && i < |tr|
    ensures tr[i].hcount == Counter(Begun(tr, i)) && tr[i].low == tr[0].low
  {
    if i == 0 {
      assert Init(tr[0]);
    } else {
      hide *;
      CountFits(tr, i - 1);
      CountsOn(tr, i);
      OneMore(Begun(tr, i - 1));
    }
  }

  /** One step adds at most one acquisition, and then the counter goes on by one. */
  lemma CountsOn(tr: seq<State>, i: nat)
    requires Run(tr) && 0 < i < |tr|
    ensures tr[i].low == tr[i - 1].low
    ensures var n := Begun(tr, i - 1);
      || (Begun(tr, i) == n && tr[i].hcount == tr[i - 1].hcount)
      || (Begun(tr, i) == n + 1 && tr[i].hcount == (tr[i - 1].hcount + 1) % 0x1_0000_0000)
  {
    RunInv(tr, i - 1);
    assert Next(tr[i - 1], tr[i]);
    var t :| Step(tr[i - 1], tr[i], t);
    StepCounts(tr[i - 1], tr[i], t);
    StepAcquires(tr, i, t);
    StepFrame(tr[i - 1], tr[i], t);
    hide Run;
    hide Step;
    hide Inv;
    hide SomeoneFresh;
    hide SomeoneAcquires;
  }

  lemma OneMore(n: nat)
    ensures Counter(n + 1) == (Counter(n) + 1) % 0x1_0000_0000
  {
  }

  lemma {:induction false} CompletedGrows(tr: seq<State>, i: nat, j: nat)
    requires i <= j < |tr|
    ensures Completed(tr, i) <= Completed(tr, j)
  {
    if i < j {
      CompletedGrows(tr, i, j - 1);
    }
  }

  /** The handle that a call returns: the number of the acquisition above the address. */
  lemma HandleOfAcquisition(tr: seq<State>, i: nat, t: nat)
    requires Run(tr) && 0 < i < |tr| && Acquires(tr, i, t)
    ensures Completed(tr, i) == Completed(tr, i - 1) + 1
    ensures tr[i].threads[t].handle == HandleFor(Completed(tr, i), tr[0].low)
  {
    CountFits(tr, i - 1);
    assert Next(tr[i - 1], tr[i]);
    var u :| Step(tr[i - 1], tr[i], u);
    StepFrame(tr[i - 1], tr[i], u);
    assert SomeoneAcquires(tr, i) && SomeoneFresh(tr[i - 1]);
  }

  lemma RunStarts(tr: seq<State>)
    requires Run(tr)
    ensures 0 < tr[0].low < 0x1_0000_0000
  {
    assert Init(tr[0]);
  }

  lemma Apart(m: nat, n: nat, low: nat)
    requires m < n < m + 0x1_0000_0000 && low < 0x1_0000_0000
    ensures HandleFor(m, low) != HandleFor(n, low)
  {
    var d, e := m / 0x1_0000_0000, n / 0x1_0000_0000;
    assert e == d || e == d + 1;
  }

  /** In every run, two outermost acquisitions fewer than 2^32 apart have different handles. */
  lemma HandlesDiffer(tr: seq<State>, i: nat, j: nat, t: nat, u: nat)
    requires Run(tr) && 0 < i < j < |tr| && Acquires(tr, i, t) && Acquires(tr, j, u)
    requires Completed(tr, j) - Completed(tr, i) < 0x1_0000_0000
    ensures tr[i].threads[t].handle != tr[j].threads[u].handle
  {
    hide Run;
    hide Completed;
    hide HandleFor;
    RunStarts(tr);
    HandleOfAcquisition(tr, i, t);
    HandleOfAcquisition(tr, j, u);
    CompletedGrows(tr, i, j - 1);
    Apart(Completed(tr, i), Completed(tr, j), tr[0].low);
  }

  /** A handle is out of date once between 1 and 2^32 - 1 newer acquisitions have begun: it is not
      the current one, and an unlock with it returns at once and changes nothing. */
  lemma StaleUnlockIgnored(tr: seq<State>, i: nat, j: nat, t: nat, u: nat)
    requires Run(tr) && 0 < i <= j < |tr| && Acquires(tr, i, t)
    requires 0 < Begun(tr, j) - Completed(tr, i) < 0x1_0000_0000
    requires u in tr[j].threads
    ensures var h := tr[i].threads[t].handle;
      && h != Handle(tr[j])
      && Step(Goto(tr[j], u, UnlockCompare(h)), Goto(tr[j], u, Idle), u)
      && forall s' :: Step(Goto(tr[j], u, UnlockCompare(h)), s', u) ==> s' == Goto(tr[j], u, Idle)
  {
    RunStarts(tr);
    hide Begun;
    hide Completed;
    hide Run;
    hide HandleFor;
    HandleOfAcquisition(tr, i, t);
    CountFits(tr, j);
    Apart(Completed(tr, i), Begun(tr, j), tr[0].low);
    var h := tr[i].threads[t].handle;
    assert Handle(tr[j]) != h;
    var s := Goto(tr[j], u, UnlockCompare(h));
    assert Goto(s, u, Idle) == Goto(tr[j], u, Idle);
  }

  /** The acquisition of another thread is one that is newer. */
  lemma NewerHolder(tr: seq<State>, i: nat, j: nat, t: nat, k: nat, u: nat)
    requires Run(tr) && 0 < i < k <= j < |tr| && Acquires(tr, i, t) && Acquires(tr, k, u)
    ensures Begun(tr, j) - Completed(tr, i) > 0
  {
    HandleOfAcquisition(tr, k, u);
    CompletedGrows(tr, i, k - 1);
    CompletedGrows(tr, k, j);
  }
}
