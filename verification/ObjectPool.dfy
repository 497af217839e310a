/** The object pool of core/mem/pool.cpp: a list with a column of free and one of busy records.

    The user's callback appears as the trace of each record, that is the operations it
    was told about that record, in order. */
module ObjectPool {
  import opened LinkList

  const COL_FREE: nat := 0
  const COL_BUSY: nat := 1

  datatype Op = New | Busy | Free | Delete

  /** NEW (FREE BUSY)*: what a record in use has been through. */
  predicate UseTrace(t: seq<Op>) {
    t == [New] || (|t| > 2 && t[|t| - 1] == Busy && t[|t| - 2] == Free && UseTrace(t[..|t| - 2]))
  }

  /** NEW (FREE BUSY)* FREE: a record that waits. */
  predicate IdleTrace(t: seq<Op>) {
    |t| > 1 && t[|t| - 1] == Free && UseTrace(t[..|t| - 1])
  }

  /** NEW (FREE BUSY)* FREE DELETE: a record that is gone. */
  predicate GoneTrace(t: seq<Op>) {
    |t| > 2 && t[|t| - 1] == Delete && IdleTrace(t[..|t| - 1])
  }

  lemma TraceSteps(t: seq<Op>)
    ensures UseTrace(t) ==> IdleTrace(t + [Free])
    ensures IdleTrace(t) ==> UseTrace(t + [Busy]) && GoneTrace(t + [Delete])
  {
    assert (t + [Free])[..|t|] == t && (t + [Delete])[..|t|] == t;
    if IdleTrace(t) {
      var u := t + [Busy];
      assert u[..|u| - 2] == t[..|t| - 1] && |t| >= 2;
    }
  }

  /** The life of a record: whatever it has been through is the beginning of
      NEW (FREE BUSY)* FREE DELETE. */
  lemma TraceIsPrefix(t: seq<Op>)
    requires UseTrace(t) || IdleTrace(t) || GoneTrace(t)
    ensures exists u :: GoneTrace(u) && t <= u
  {
    TraceSteps(t);
    TraceSteps(t + [Free]);
    assert t <= t + [Free] + [Delete] && t <= t + [Delete];
  }

  type Traces<!T> = map<Item<T>, seq<Op>>

  /** Every record ever created has the trace that fits its place. */
  ghost predicate TracesFit<T>(t: Traces<T>, free: seq<Item<T>>, busy: seq<Item<T>>) {
    (forall x :: x in free ==> x in t) && (forall x :: x in busy ==> x in t) &&
    (forall x :: x in t.Keys ==>
      if x in busy then UseTrace(t[x]) else if x in free then IdleTrace(t[x]) else GoneTrace(t[x]))
  }

  /** Free and busy records are all different. */
  ghost predicate Partition<T>(free: seq<Item<T>>, busy: seq<Item<T>>) {
    Distinct(free) && Distinct(busy) && forall x :: x in free ==> x !in busy
  }

  ghost function Told<T>(t: Traces<T>, x: Item<T>, op: Op): Traces<T> {
    t[x := (if x in t then t[x] else []) + [op]]
  }

  /** The callback was told `op` about each record of `s`, in order. */
  ghost function ToldAll<T>(t: Traces<T>, s: seq<Item<T>>, op: Op): Traces<T>
    decreases |s|
  {
    if s == [] then t else ToldAll(Told(t, s[0], op), s[1..], op)
  }

  lemma FitReuse<T>(t: Traces<T>, free: seq<Item<T>>, busy: seq<Item<T>>)
    requires TracesFit(t, free, busy) && Partition(free, busy) && free != []
    ensures TracesFit(Told(t, free[0], Busy), free[1..], busy + [free[0]])
  {
    TraceSteps(t[free[0]]);
    hide UseTrace;
    hide IdleTrace;
    hide GoneTrace;
  }

  lemma FitReturn<T>(t: Traces<T>, free: seq<Item<T>>, busy: seq<Item<T>>, k: nat)
    requires TracesFit(t, free, busy) && Partition(free, busy) && k < |busy|
    ensures TracesFit(Told(t, busy[k], Free), free + [busy[k]], Without(busy, k))
  {
    TraceSteps(t[busy[k]]);
    hide UseTrace;
    hide IdleTrace;
    hide GoneTrace;
    forall x | x in busy && x != busy[k] ensures x in Without(busy, k) {
      var j := IndexOf(busy, x);
      assert Without(busy, k)[if j < k then j else j - 1] == x;
    }
  }

  lemma FitDelete<T>(t: Traces<T>, free: seq<Item<T>>, busy: seq<Item<T>>)
    requires TracesFit(t, free, busy) && Partition(free, busy) && free != []
    ensures TracesFit(Told(t, free[0], Delete), free[1..], busy)
  {
    TraceSteps(t[free[0]]);
    hide UseTrace;
    hide IdleTrace;
    hide GoneTrace;
  }

  lemma FitCreate<T>(t: Traces<T>, free: seq<Item<T>>, busy: seq<Item<T>>, x: Item<T>)
    requires TracesFit(t, free, busy) && x !in t
    ensures TracesFit(Told(t, x, New), free, busy + [x])
  {
    hide IdleTrace;
    hide GoneTrace;
  }

  class Pool<T> {
    const list: List<T>
    const zero: T // the contents of a cleared record
    ghost var trace: Traces<T> // what the callback was told about each record

    /** The records waiting and the records in use, each in the order of the list. */
    ghost function FreeRecs(): seq<Item<T>>
      requires |list.cols| == 2
      reads list`cols
    {
      list.cols[COL_FREE]
    }

    ghost function BusyRecs(): seq<Item<T>>
      requires |list.cols| == 2
      reads list`cols
    {
      list.cols[COL_BUSY]
    }

    ghost predicate Valid()
      reads this, list, list.repr
    {
      list.Valid() && list.ncol == |list.cols| == 2 && TracesFit(trace, FreeRecs(), BusyRecs())
    }

    constructor (zero: T)
      ensures Valid() && fresh(list) && FreeRecs() == [] && BusyRecs() == [] && trace == map[]
    {
      list := new List<T>(2);
      this.zero := zero;
      trace := map[];
    }

    /** Free and busy records partition the records of the list. */
    lemma Parts()
      requires Valid()
      ensures Partition(FreeRecs(), BusyRecs())
      ensures list.repr == (set x | x in FreeRecs()) + (set x | x in BusyRecs())
      ensures forall x :: x in FreeRecs() ==> x.col == COL_FREE
      ensures forall x :: x in BusyRecs() ==> x.col == COL_BUSY
    {
      hide TracesFit;
      list.ColumnFacts(COL_FREE);
      list.ColumnFacts(COL_BUSY);
      assert forall x :: x in list.repr ==> x.col == COL_FREE || x.col == COL_BUSY;
    }

    /** Moves the busy record `x` to the end of the free column. */
    method MoveBack(x: Item<T>)
      requires list.Valid() && list.ncol == |list.cols| == 2 && x in list.repr && x.col == COL_BUSY
      requires x in list.cols[COL_BUSY]
      modifies list`state, list`cols, list`repr, list.repr`next, list.repr`prev, x`col
      ensures list.Valid() && list.repr == old(list.repr) && |list.cols| == 2
      ensures FreeRecs() == old(FreeRecs()) + [x]
      ensures BusyRecs() == Without(old(BusyRecs()), IndexOf(old(BusyRecs()), x))
    {
      hide list.Valid;
      hide Without;
      var moved := list.Mov(x, COL_FREE);
    }

    /** Hands out the first free record, or a new cleared one if the allocator grants it. */
    method Alloc(granted: bool) returns (r: Item?<T>)
      requires Valid()
      modifies this`trace, list`state, list`cols, list`repr, list`ccol
      modifies list.repr`next, list.repr`prev, list.repr`col
      ensures Valid() && (r != null ==> r !in old(BusyRecs()))
      ensures old(FreeRecs()) != [] ==> r == old(FreeRecs()[0]) && FreeRecs() == old(FreeRecs())[1..]
      ensures old(FreeRecs()) == [] ==> FreeRecs() == [] && (r != null <==> granted)
      ensures old(FreeRecs()) == [] && r != null ==> fresh(r) && r.data == zero
      ensures BusyRecs() == old(BusyRecs()) + if r == null then [] else [r]
      ensures trace == if r == null then old(trace)
        else Told(old(trace), r, if old(FreeRecs()) != [] then Busy else New)
    {
      Parts();
      hide list.Valid;
      hide TracesFit;
      list.Select(COL_FREE);
      r := list.First();
      if r != null {
        Reuse(r);
      } else {
        r := Create(granted);
      }
    }

    method Reuse(r: Item<T>)
      requires Valid() && FreeRecs() != [] && r == FreeRecs()[0]
      modifies this`trace, list`state, list`cols, list`repr, list.repr`next, list.repr`prev, list.repr`col
      ensures Valid() && FreeRecs() == old(FreeRecs())[1..] && BusyRecs() == old(BusyRecs()) + [r]
      ensures trace == Told(old(trace), r, Busy)
    {
      Parts();
      hide list.Valid;
      hide TracesFit;
      FitReuse(trace, FreeRecs(), BusyRecs());
      trace := Told(trace, r, Busy);
      list.MovFirst(COL_FREE, r, COL_BUSY);
    }

    method Create(granted: bool) returns (r: Item?<T>)
      requires Valid() && FreeRecs() == []
      modifies this`trace, list`state, list`cols, list`repr, list`ccol, list.repr`next
      ensures Valid() && FreeRecs() == [] && (r != null <==> granted)
      ensures r != null ==> fresh(r) && r.data == zero
      ensures BusyRecs() == old(BusyRecs()) + if r == null then [] else [r]
      ensures trace == if r == null then old(trace) else Told(old(trace), r, New)
    {
      hide list.Valid;
      hide TracesFit;
      list.Select(COL_BUSY);
      r := list.Add(zero, granted);
      if r != null {
        FitCreate(trace, [], old(BusyRecs()), r);
        trace := Told(trace, r, New);
      }
    }

    /** Takes a record back.  A record that is not in use fails the source's assertion;
        `ok` tells. */
    method FreeRec(x: Item<T>) returns (ok: bool)
      requires Valid() && (x.cxt == list ==> x in list.repr)
      modifies this`trace, list`state, list`cols, list`repr, list`ccol
      modifies list.repr`next, list.repr`prev, list.repr`col
      ensures Valid() && list.repr == old(list.repr) && ok == (x in old(BusyRecs()))
      ensures !ok ==> FreeRecs() == old(FreeRecs()) && BusyRecs() == old(BusyRecs()) && trace == old(trace)
      ensures ok ==> FreeRecs() == old(FreeRecs()) + [x] && trace == Told(old(trace), x, Free)
      ensures ok ==> BusyRecs() == Without(old(BusyRecs()), IndexOf(old(BusyRecs()), x))
    {
      hide list.Valid;
      hide TracesFit;
      hide Without;
      list.Select(COL_BUSY);
      ok := list.Sel(x);
      if ok {
        Return(x);
      }
    }

    method Return(x: Item<T>)
      requires Valid() && x in BusyRecs()
      modifies this`trace, list`state, list`cols, list`repr, list.repr`next, list.repr`prev, list.repr`col
      ensures Valid() && list.repr == old(list.repr) && FreeRecs() == old(FreeRecs()) + [x]
      ensures BusyRecs() == Without(old(BusyRecs()), IndexOf(old(BusyRecs()), x))
      ensures trace == Told(old(trace), x, Free)
    {
      Parts();
      hide list.Valid;
      hide TracesFit;
      hide Without;
      FitReturn(trace, FreeRecs(), BusyRecs(), IndexOf(BusyRecs(), x));
      trace := Told(trace, x, Free);
      MoveBack(x);
    }

    method Verify(x: Item<T>) returns (busy: bool)
      requires Valid() && (x.cxt == list ==> x in list.repr)
      modifies list`state, list`ccol
      ensures Valid() && busy == (x in BusyRecs())
    {
      hide TracesFit;
      hide list.Valid;
      list.Select(COL_BUSY);
      busy := list.Sel(x);
    }

    /** Takes all records back, in the order in which they were handed out. */
    method FreeAll()
      requires Valid()
      modifies this`trace, list`state, list`cols, list`repr, list`ccol
      modifies list.repr`next, list.repr`prev, list.repr`col
      ensures Valid() && list.repr == old(list.repr)
      ensures BusyRecs() == [] && FreeRecs() == old(FreeRecs()) + old(BusyRecs())
      ensures trace == ToldAll(old(trace), old(BusyRecs()), Free)
    {
      hide list.Valid;
      hide TracesFit;
      hide Told;
      list.Select(COL_BUSY);
      var x := list.First();
      while x != null
        invariant Valid() && list.ccol == COL_BUSY && list.repr == old(list.repr)
        invariant x == At(BusyRecs(), 0)
        invariant FreeRecs() + BusyRecs() == old(FreeRecs()) + old(BusyRecs())
        invariant ToldAll(trace, BusyRecs(), Free) == ToldAll(old(trace), old(BusyRecs()), Free)
        decreases |BusyRecs()|
      {
        ReturnFirst(x);
        x := list.First();
      }
    }

    method ReturnFirst(x: Item<T>)
      requires Valid() && BusyRecs() != [] && x == BusyRecs()[0]
      modifies this`trace, list`state, list`cols, list`repr, list.repr`next, list.repr`prev, list.repr`col
      ensures Valid() && list.repr == old(list.repr)
      ensures FreeRecs() == old(FreeRecs()) + [x] && BusyRecs() == old(BusyRecs())[1..]
      ensures trace == Told(old(trace), x, Free)
    {
      Parts();
      hide list.Valid;
      hide TracesFit;
      FitReturn(trace, FreeRecs(), BusyRecs(), 0);
      assert Without(BusyRecs(), 0) == BusyRecs()[1..];
      trace := Told(trace, x, Free);
      list.MovFirst(COL_BUSY, x, COL_FREE);
    }

    /** Takes all records back and deletes them. */
    method Clear()
      requires Valid()
      modifies this`trace, list`state, list`cols, list`repr, list`ccol
      modifies list.repr`next, list.repr`prev, list.repr`col, list.repr`cxt
      ensures Valid() && BusyRecs() == [] && FreeRecs() == [] && list.repr == {}
      ensures forall x :: x in trace.Keys ==> GoneTrace(trace[x])
      ensures trace == ToldAll(ToldAll(old(trace), old(BusyRecs()), Free), old(FreeRecs() + BusyRecs()), Delete)
    {
      FreeAll();
      DeleteAll();
      Parts();
    }

    /** The second loop of `Clear`. */
    method DeleteAll()
      requires Valid() && BusyRecs() == []
      modifies this`trace, list`state, list`cols, list`repr, list`ccol
      modifies list.repr`next, list.repr`prev, list.repr`cxt
      ensures Valid() && BusyRecs() == [] && FreeRecs() == []
      ensures trace == ToldAll(old(trace), old(FreeRecs()), Delete)
    {
      hide list.Valid;
      hide TracesFit;
      list.FirstFacts(COL_FREE);
      list.Select(COL_FREE);
      var x := list.First();
      while x != null
        invariant Valid() && list.ccol == COL_FREE && list.repr <= old(list.repr)
        invariant x == At(FreeRecs(), 0) && BusyRecs() == []
        invariant ToldAll(trace, FreeRecs(), Delete) == ToldAll(old(trace), old(FreeRecs()), Delete)
        invariant |list.state| == 2 && x == list.state[COL_FREE].current
        decreases |FreeRecs()|
      {
        Parts();
        FitDelete(trace, FreeRecs(), BusyRecs());
        trace := Told(trace, x, Delete);
        DeleteCurrent(x);
        x := list.First();
      }
    }

    method DeleteCurrent(x: Item<T>)
      requires list.Valid() && list.ncol == |list.cols| == 2 && list.ccol == COL_FREE
      requires FreeRecs() != [] && FreeRecs()[0] == x
      requires |list.state| == 2 && list.state[COL_FREE].current == x
      modifies list`state, list`cols, list`repr, list.repr`next, list.repr`prev, list.repr`cxt
      ensures list.Valid() && |list.cols| == |list.state| == 2 && list.repr == old(list.repr) - {x}
      ensures FreeRecs() == old(FreeRecs())[1..] && BusyRecs() == old(BusyRecs())
    {
      list.FirstFacts(COL_FREE);
      hide list.Valid;
      var gone := list.Del();
    }
  }
}
