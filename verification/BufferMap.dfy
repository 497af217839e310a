/** The buffer map of core/mem/bmap.cpp: a list with columns of free, busy and dirty buffers.

    The I/O callback appears as the log of what it was asked to do. */
module BufferMap {
  import opened LinkList

  const BFREE: nat := 0
  const BBUSY: nat := 1
  const BDIRTY: nat := 2

  /** The user part of a record: `ptr` is the memory, `udata` the user's word. */
  datatype Buffer = Buffer(state: nat, ptr: nat, udata: nat)

  datatype Io = Init | Read | Write | Uninit

  /** One call of the I/O callback.  `Orphan` is memory whose record could not be added. */
  datatype Event = On(op: Io, buf: Item<Buffer>) | Orphan(op: Io, ptr: nat)

  function EachOnce(op: Io, s: seq<Item<Buffer>>): (e: seq<Event>)
    ensures |e| == |s| && forall i :: 0 <= i < |s| ==> e[i] == On(op, s[i])
  {
    seq(|s|, i requires 0 <= i < |s| => On(op, s[i]))
  }

  /** A buffer that is no longer dirty was written, re-read or given up. */
  ghost predicate LeftDirtyProperly(was: seq<Item<Buffer>>, now: seq<Item<Buffer>>, events: seq<Event>) {
    forall x :: x in was && x !in now ==> On(Write, x) in events || On(Read, x) in events || On(Uninit, x) in events
  }

  /** Over a run this holds step by step and so altogether. */
  lemma LeftDirtyTransitive(a: seq<Item<Buffer>>, b: seq<Item<Buffer>>, c: seq<Item<Buffer>>, e: seq<Event>, f: seq<Event>)
    requires LeftDirtyProperly(a, b, e) && LeftDirtyProperly(b, c, f)
    ensures LeftDirtyProperly(a, c, e + f)
  {
  }

  /** The columns after one buffer of column `b` was written or read again. */
  ghost function Settled(cols: seq<seq<Item<Buffer>>>, x: Item<Buffer>, b: nat): seq<seq<Item<Buffer>>>
    requires |cols| == 3 && b < 3 && x in cols[b]
  {
    if b == BDIRTY then Shifted(cols, x, BDIRTY, BBUSY) else cols
  }

  lemma ShiftLeavesDirty(cols: seq<seq<Item<Buffer>>>, x: Item<Buffer>, b: nat, c: nat, events: seq<Event>)
    requires |cols| == 3 && b < 3 && c < 3 && x in cols[b]
    requires b == BDIRTY ==> On(Write, x) in events || On(Read, x) in events
    ensures LeftDirtyProperly(cols[BDIRTY], Shifted(cols, x, b, c)[BDIRTY], events)
  {
    var was, now := cols[BDIRTY], Shifted(cols, x, b, c)[BDIRTY];
    forall y | y in was && (y != x || b != BDIRTY) ensures y in now {
      var j := IndexOf(was, y);
      if b == BDIRTY && b != c {
        var k := IndexOf(was, x);
        assert now[if j < k then j else j - 1] == y;
      } else {
        assert now[j] == y;
      }
    }
  }

  /** Handling each buffer once accounts for all of them. */
  lemma AllHandled(op: Io, was: seq<Item<Buffer>>, more: seq<Event>, log: seq<Event>)
    requires op != Init
    ensures LeftDirtyProperly(was, [], (log + more + EachOnce(op, was))[|log|..])
    ensures log + [] == log
  {
    assert (log + more + EachOnce(op, was))[|log|..] == more + EachOnce(op, was);
    forall x | x in was ensures On(op, x) in EachOnce(op, was) {
      var i := IndexOf(was, x);
      assert EachOnce(op, was)[i] == On(op, x);
    }
  }

  class Map {
    const list: List<Buffer>
    var size: nat // the size of a buffer; 0 means not initialised
    ghost var log: seq<Event>

    ghost predicate StatesAreColumns()
      reads list`repr, list.repr`col, list.repr`data
    {
      forall x :: x in list.repr ==> x.data.state == x.col
    }

    ghost predicate Valid()
      reads this, list, list.repr
    {
      list.Valid() && list.ncol == |list.cols| == |list.state| == 3 && StatesAreColumns()
    }

    ghost function FreeBufs(): seq<Item<Buffer>>
      requires |list.cols| == 3
      reads list`cols
    {
      list.cols[BFREE]
    }

    ghost function BusyBufs(): seq<Item<Buffer>>
      requires |list.cols| == 3
      reads list`cols
    {
      list.cols[BBUSY]
    }

    ghost function DirtyBufs(): seq<Item<Buffer>>
      requires |list.cols| == 3
      reads list`cols
    {
      list.cols[BDIRTY]
    }

    constructor (size: nat)
      ensures Valid() && fresh(list) && this.size == size && log == []
      ensures FreeBufs() == BusyBufs() == DirtyBufs() == []
    {
      list := new List<Buffer>(3);
      this.size := size;
      log := [];
    }

    /** The state of the one record whose column changed catches up. */
    method Follow(x: Item<Buffer>)
      requires list.Valid() && list.ncol == |list.cols| == |list.state| == 3
      requires forall y :: y in list.repr && y != x ==> y.data.state == y.col
      modifies x`data
      ensures Valid() && x.data == old(x.data).(state := x.col)
    {
      hide list.Valid;
      x.data := x.data.(state := x.col);
    }

    /** The first record of column `b` moves to column `c` and its state follows. */
    method ShiftFirst(b: nat, x: Item<Buffer>, c: nat)
      requires Valid() && b < 3 && c < 3 && b != c && list.cols[b] != [] && list.cols[b][0] == x
      modifies list`state, list`cols, list`repr
      modifies list.repr`next, list.repr`prev, list.repr`col, x`data
      ensures Valid() && list.repr == old(list.repr) && x in list.repr && x.data == old(x.data).(state := c)
      ensures list.cols == old(list.cols)[b := old(list.cols[b])[1..]][c := old(list.cols[c]) + [x]]
      ensures old(list.state[b].current) == x ==> list.state[b].current == At(list.cols[b], 0)
    {
      list.FirstFacts(b);
      hide list.Valid;
      hide At;
      list.MovFirst(b, x, c);
      Follow(x);
    }

    /** Hands out a free buffer or a new one.  `ptr` is the heap's answer, 0 for none, and
        `granted` the list's. */
    method Alloc(udata: nat, ptr: nat, granted: bool) returns (r: Item?<Buffer>)
      requires Valid()
      modifies this`log, list`state, list`cols, list`repr, list`ccol
      modifies list.repr`next, list.repr`prev, list.repr`col, Front(FreeBufs())`data
      ensures Valid() && FreeBufs() == if size == 0 || old(FreeBufs()) == [] then old(FreeBufs()) else old(FreeBufs())[1..]
      ensures DirtyBufs() == old(DirtyBufs()) && BusyBufs() == old(BusyBufs()) + if r == null then [] else [r]
      ensures size == 0 ==> r == null && log == old(log)
      ensures size != 0 && old(FreeBufs()) != [] ==>
        r == old(FreeBufs()[0]) && r.data == Buffer(BBUSY, old(FreeBufs()[0].data.ptr), udata)
      ensures size != 0 && old(FreeBufs()) == [] ==> (r != null <==> ptr != 0 && granted)
      ensures size != 0 && old(FreeBufs()) == [] && r != null ==> fresh(r) && r.data == Buffer(BBUSY, ptr, udata)
      ensures size != 0 && r != null ==> log == old(log) + [On(Init, r)]
      ensures size != 0 && r == null ==> log == old(log) + if ptr == 0 then [] else [Orphan(Init, ptr)]
      ensures list.repr == old(list.repr) + if r == null then {} else {r}
      ensures r != null && r !in old(list.repr) ==> fresh(r)
      ensures LeftDirtyProperly(old(DirtyBufs()), DirtyBufs(), log[|old(log)|..])
    {
      hide list.Valid;
      hide StatesAreColumns;
      r := null;
      if size != 0 {
        list.Select(BFREE);
        var first := list.First();
        if first != null {
          Reuse(first, udata);
          r := first;
        } else if ptr != 0 {
          r := Create(udata, ptr, granted);
        }
      }
    }

    method Reuse(x: Item<Buffer>, udata: nat)
      requires Valid() && FreeBufs() != [] && x == FreeBufs()[0]
      modifies this`log, list`state, list`cols, list`repr
      modifies list.repr`next, list.repr`prev, list.repr`col, x`data
      ensures Valid() && log == old(log) + [On(Init, x)] && x.data == Buffer(BBUSY, old(x.data.ptr), udata)
      ensures x in list.repr && list.repr == old(list.repr)
      ensures list.cols == old(list.cols)[BFREE := old(FreeBufs())[1..]][BBUSY := old(BusyBufs()) + [x]]
    {
      list.FirstFacts(BFREE);
      hide list.Valid;
      hide StatesAreColumns;
      ShiftFirst(BFREE, x, BBUSY);
      SetUser(x, udata);
      log := log + [On(Init, x)];
    }

    method SetUser(x: Item<Buffer>, udata: nat)
      requires Valid()
      modifies x`data
      ensures Valid() && x.data == old(x.data).(udata := udata)
    {
      hide list.Valid;
      x.data := x.data.(udata := udata);
    }

    method Create(udata: nat, ptr: nat, granted: bool) returns (r: Item?<Buffer>)
      requires Valid()
      modifies this`log, list`state, list`cols, list`repr, list`ccol, list.repr`next
      ensures Valid() && (r != null <==> granted)
      ensures list.cols == if r == null then old(list.cols) else old(list.cols)[BBUSY := old(BusyBufs()) + [r]]
      ensures r != null ==> fresh(r) && r.data == Buffer(BBUSY, ptr, udata)
      ensures list.repr == old(list.repr) + if r == null then {} else {r}
      ensures log == old(log) + [if r == null then Orphan(Init, ptr) else On(Init, r)]
    {
      hide list.Valid;
      list.Select(BBUSY);
      r := list.Add(Buffer(BBUSY, ptr, udata), granted);
      log := log + [if r != null then On(Init, r) else Orphan(Init, ptr)];
    }

    /** Takes a buffer back; a dirty one is written first. */
    method Free(x: Item<Buffer>)
      requires Valid() && (size != 0 ==> x in list.repr)
      modifies this`log, list`state, list`cols, list`repr
      modifies list.repr`next, list.repr`prev, list.repr`col, (if size == 0 then {} else {x})`data
      ensures Valid() && list.repr == old(list.repr) && (size != 0 ==> old(InColumn(x)))
      ensures size == 0 ==> list.cols == old(list.cols) && log == old(log)
      ensures size != 0 ==> x.data == old(x.data).(state := BFREE)
      ensures size != 0 ==> log == old(log) + (if old(x.col) == BDIRTY then [On(Write, x)] else []) + [On(Uninit, x)]
      ensures size != 0 ==> list.cols == Shifted(old(list.cols), x, old(x.col), BFREE)
      ensures LeftDirtyProperly(old(DirtyBufs()), DirtyBufs(), log[|old(log)|..])
    {
      hide list.Valid;
      if size != 0 {
        InItsColumn(x);
        GiveUp(x);
        hide StatesAreColumns;
        hide Shifted;
        hide LeftDirtyProperly;
        Shift(x, BFREE);
      }
    }

    /** What the callback hears when a buffer is taken back. */
    method GiveUp(x: Item<Buffer>)
      requires Valid() && x in list.repr && InColumn(x)
      modifies this`log
      ensures log == old(log) + (if x.col == BDIRTY then [On(Write, x)] else []) + [On(Uninit, x)]
      ensures LeftDirtyProperly(DirtyBufs(), Shifted(list.cols, x, x.col, BFREE)[BDIRTY], log[|old(log)|..])
    {
      ghost var events := (if x.col == BDIRTY then [On(Write, x)] else []) + [On(Uninit, x)];
      ShiftLeavesDirty(list.cols, x, x.col, BFREE, events);
      assert x.data.state == x.col;
      assert (log + events)[|log|..] == events;
      hide *;
      if x.data.state == BDIRTY {
        log := log + [On(Write, x)];
      }
      log := log + [On(Uninit, x)];
      assert log == old(log) + events;
    }

    /** Marks a buffer as changed. */
    method Dirty(x: Item<Buffer>)
      requires Valid() && (size != 0 ==> x in list.repr)
      modifies list`state, list`cols, list`repr
      modifies list.repr`next, list.repr`prev, list.repr`col, (if size == 0 then {} else {x})`data
      ensures Valid() && list.repr == old(list.repr) && (size != 0 ==> old(InColumn(x)))
      ensures size == 0 ==> list.cols == old(list.cols)
      ensures size != 0 ==> x.data == old(x.data).(state := BDIRTY)
      ensures size != 0 ==> list.cols == Shifted(old(list.cols), x, old(x.col), BDIRTY)
      ensures LeftDirtyProperly(old(DirtyBufs()), DirtyBufs(), [])
    {
      hide list.Valid;
      if size != 0 {
        InItsColumn(x);
        if x.col != BDIRTY {
          ShiftLeavesDirty(list.cols, x, x.col, BDIRTY, []);
        }
        hide StatesAreColumns;
        Shift(x, BDIRTY);
      }
    }

    /** Writes (`Flush`) or reads again (`Reset`) one buffer that is not free; a dirty one
        becomes busy. */
    method Settle(op: Io, x: Item<Buffer>)
      requires Valid() && x in list.repr && size != 0 && (op == Read || op == Write)
      modifies this`log, list`state, list`cols, list`repr
      modifies list.repr`next, list.repr`prev, list.repr`col, x`data
      ensures Valid() && list.repr == old(list.repr) && old(InColumn(x))
      ensures log == old(log) + if old(x.col) == BFREE then [] else [On(op, x)]
      ensures list.cols == Settled(old(list.cols), x, old(x.col))
      ensures x.data == if old(x.col) == BDIRTY then old(x.data).(state := BBUSY) else old(x.data)
      ensures x !in DirtyBufs()
      ensures LeftDirtyProperly(old(DirtyBufs()), DirtyBufs(), log[|old(log)|..])
    {
      InItsColumn(x);
      hide list.Valid;
      ghost var events := if x.col == BFREE then [] else [On(op, x)];
      if x.data.state != BFREE {
        log := log + [On(op, x)];
      }
      assert log[|old(log)|..] == events;
      if x.data.state == BDIRTY {
        ShiftLeavesDirty(list.cols, x, BDIRTY, BBUSY, events);
        hide Shifted;
        hide StatesAreColumns;
        hide LeftDirtyProperly;
        Shift(x, BBUSY);
      }
      NotDirty(x);
    }

    /** The loop over the dirty buffers, from the first to the last.  Each of them becomes
        busy, so the next one is always the current record. */
    method SettleEach(op: Io)
      requires Valid() && size != 0 && (op == Read || op == Write)
      modifies this`log, list`state, list`cols, list`repr, list`ccol
      modifies list.repr`next, list.repr`prev, list.repr`col, list.repr`data
      ensures Valid() && list.repr == old(list.repr)
      ensures log == old(log) + EachOnce(op, old(DirtyBufs()))
      ensures DirtyBufs() == [] && BusyBufs() == old(BusyBufs()) + old(DirtyBufs()) && FreeBufs() == old(FreeBufs())
      ensures forall y :: y in list.repr ==> y.data == old(if y in DirtyBufs() then y.data.(state := BBUSY) else y.data)
    {
      hide list.Valid;
      hide StatesAreColumns;
      hide EachOnce;
      ghost var dirty := DirtyBufs();
      ghost var n: nat := 0;
      EachOnceGrows(op, dirty, 0);
      list.Select(BDIRTY);
      var x := list.First();
      while x != null
        invariant Valid() && list.ccol == BDIRTY && list.repr == old(list.repr)
        invariant x == At(DirtyBufs(), 0) && x == list.state[BDIRTY].current
        invariant n <= |dirty| && DirtyBufs() == dirty[n..]
        invariant FreeBufs() == old(FreeBufs()) && BusyBufs() == old(BusyBufs()) + dirty[..n]
        invariant log == old(log) + EachOnce(op, dirty[..n])
        invariant forall y :: y in list.repr ==>
          y.data == if y in dirty[..n] then old(y.data).(state := BBUSY) else old(y.data)
        decreases |DirtyBufs()|
      {
        EachOnceGrows(op, dirty, n);
        n := n + 1;
        list.FirstFacts(BDIRTY);
        SettleFirst(op, x);
        x := list.Current();
      }
      assert dirty[..n] == dirty;
    }

    /** Writes or reads again every dirty buffer. */
    method SettleAll(op: Io)
      requires Valid() && size != 0 && (op == Read || op == Write)
      modifies this`log, list`state, list`cols, list`repr, list`ccol
      modifies list.repr`next, list.repr`prev, list.repr`col, list.repr`data
      ensures Valid() && list.repr == old(list.repr)
      ensures log == old(log) + EachOnce(op, old(DirtyBufs()))
      ensures DirtyBufs() == [] && BusyBufs() == old(BusyBufs()) + old(DirtyBufs()) && FreeBufs() == old(FreeBufs())
      ensures LeftDirtyProperly(old(DirtyBufs()), DirtyBufs(), log[|old(log)|..])
      ensures forall y :: y in list.repr ==> y.data == old(if y in DirtyBufs() then y.data.(state := BBUSY) else y.data)
    {
      AllHandled(op, DirtyBufs(), [], log);
      hide *;
      SettleEach(op);
    }

    lemma EachOnceGrows(op: Io, s: seq<Item<Buffer>>, n: nat)
      requires n <= |s|
      ensures EachOnce(op, []) == [] && s[0..] == s
      ensures n < |s| ==>
        EachOnce(op, s[..n + 1]) == EachOnce(op, s[..n]) + [On(op, s[n])] && s[..n + 1] == s[..n] + [s[n]] &&
        s[n..][1..] == s[n + 1..] && s[n..][0] == s[n]
    {
    }

    /** One turn of that loop.  The move never fails, so the branch that would go on with
        the following record is not taken. */
    method SettleFirst(op: Io, x: Item<Buffer>)
      requires Valid() && DirtyBufs() != [] && x == DirtyBufs()[0] && list.state[BDIRTY].current == x
      modifies this`log, list`state, list`cols, list`repr
      modifies list.repr`next, list.repr`prev, list.repr`col, x`data
      ensures Valid() && list.repr == old(list.repr) && log == old(log) + [On(op, x)]
      ensures list.cols == old(list.cols)[BDIRTY := old(DirtyBufs())[1..]][BBUSY := old(BusyBufs()) + [x]]
      ensures list.state[BDIRTY].current == At(DirtyBufs(), 0)
      ensures x.data == old(x.data).(state := BBUSY)
    {
      hide list.Valid;
      hide StatesAreColumns;
      hide At;
      log := log + [On(op, x)];
      ShiftFirst(BDIRTY, x, BBUSY);
    }

    /** The buffers that become busy when `x`, or without it every dirty one, is settled. */
    ghost function Settling(x: Item?<Buffer>): set<Item<Buffer>>
      requires |list.cols| == 3
      reads this`size, list`cols, if x == null then {} else {x}
    {
      if size == 0 then {}
      else if x == null then set y | y in DirtyBufs()
      else if x.col == BDIRTY then {x} else {}
    }

    /** Commits one buffer, or all dirty ones. */
    method Flush(x: Item?<Buffer>)
      requires Valid() && (size != 0 && x != null ==> x in list.repr)
      modifies this`log, list`state, list`cols, list`repr, list`ccol
      modifies list.repr`next, list.repr`prev, list.repr`col, list.repr`data
      ensures Valid() && list.repr == old(list.repr)
      ensures size == 0 ==> list.cols == old(list.cols) && log == old(log)
      ensures size != 0 && x == null ==> log == old(log) + EachOnce(Write, old(DirtyBufs()))
      ensures size != 0 && x == null ==>
        DirtyBufs() == [] && BusyBufs() == old(BusyBufs()) + old(DirtyBufs()) && FreeBufs() == old(FreeBufs())
      ensures size != 0 && x != null ==> log == old(log) + if old(x.col) == BFREE then [] else [On(Write, x)]
      ensures size != 0 && x != null ==> x !in DirtyBufs()
      ensures size != 0 && x != null ==> old(InColumn(x)) && list.cols == Settled(old(list.cols), x, old(x.col))
      ensures forall y :: y in list.repr ==>
        y.data == old(if y in Settling(x) then y.data.(state := BBUSY) else y.data)
      ensures LeftDirtyProperly(old(DirtyBufs()), DirtyBufs(), log[|old(log)|..])
    {
      hide list.Valid;
      hide StatesAreColumns;
      hide EachOnce;
      if size != 0 {
        if x != null {
          Settle(Write, x);
        } else {
          SettleAll(Write);
        }
      }
    }

    lemma NotDirty(x: Item<Buffer>)
      requires Valid() && x in list.repr && x.data.state != BDIRTY
      ensures x !in DirtyBufs()
    {
      list.ColumnFacts(BDIRTY);
    }

    /** Throws the changes away: reads one buffer again, or all dirty ones. */
    method Reset(x: Item?<Buffer>)
      requires Valid() && (size != 0 && x != null ==> x in list.repr)
      modifies this`log, list`state, list`cols, list`repr, list`ccol
      modifies list.repr`next, list.repr`prev, list.repr`col, list.repr`data
      ensures Valid() && list.repr == old(list.repr)
      ensures size == 0 ==> list.cols == old(list.cols) && log == old(log)
      ensures size != 0 && x == null ==> log == old(log) + EachOnce(Read, old(DirtyBufs()))
      ensures size != 0 && x == null ==>
        DirtyBufs() == [] && BusyBufs() == old(BusyBufs()) + old(DirtyBufs()) && FreeBufs() == old(FreeBufs())
      ensures size != 0 && x != null ==> log == old(log) + if old(x.col) == BFREE then [] else [On(Read, x)]
      ensures size != 0 && x != null ==> x !in DirtyBufs()
      ensures size != 0 && x != null ==> old(InColumn(x)) && list.cols == Settled(old(list.cols), x, old(x.col))
      ensures forall y :: y in list.repr ==>
        y.data == old(if y in Settling(x) then y.data.(state := BBUSY) else y.data)
      ensures LeftDirtyProperly(old(DirtyBufs()), DirtyBufs(), log[|old(log)|..])
    {
      hide list.Valid;
      hide StatesAreColumns;
      hide EachOnce;
      if size != 0 {
        if x != null {
          Settle(Read, x);
        } else {
          SettleAll(Read);
        }
      }
    }

    ghost predicate InColumn(x: Item<Buffer>)
      requires |list.cols| == 3
      reads list`cols, x`col
    {
      x.col < 3 && x in list.cols[x.col]
    }

    lemma InItsColumn(x: Item<Buffer>)
      requires Valid() && x in list.repr
      ensures x.cxt == list && InColumn(x)
    {
      list.ColumnFacts(x.col);
    }

    /** Moves a buffer of any column and lets its state follow. */
    method Shift(x: Item<Buffer>, c: nat)
      requires Valid() && x in list.repr && c < 3
      modifies list`state, list`cols, list`repr
      modifies list.repr`next, list.repr`prev, x`col, x`data
      ensures Valid() && list.repr == old(list.repr) && x.data == old(x.data).(state := c)
      ensures old(InColumn(x))
      ensures list.cols == Shifted(old(list.cols), x, old(x.col), c)
    {
      InItsColumn(x);
      hide list.Valid;
      hide Without;
      var moved := list.Mov(x, c);
      if moved {
        x.data := x.data.(state := c);
      }
    }

    /** Gives up every buffer of every column and ends the use of the map. */
    method UninitAll()
      requires Valid()
      modifies this`log, this`size, list`state, list`cols, list`repr, list`ccol
      modifies list.repr`next, list.repr`prev, list.repr`cxt
      ensures Valid() && size == 0 && list.repr <= old(list.repr)
      ensures old(size) == 0 ==> list.cols == old(list.cols) && log == old(log)
      ensures old(size) != 0 ==> FreeBufs() == BusyBufs() == DirtyBufs() == []
      ensures old(size) != 0 ==>
        log == old(log) + (EachOnce(Uninit, old(FreeBufs())) + EachOnce(Uninit, old(BusyBufs()))) +
               EachOnce(Uninit, old(DirtyBufs()))
      ensures LeftDirtyProperly(old(DirtyBufs()), DirtyBufs(), log[|old(log)|..])
    {
      if size != 0 {
        AllHandled(Uninit, DirtyBufs(), EachOnce(Uninit, FreeBufs()) + EachOnce(Uninit, BusyBufs()), log);
        hide LeftDirtyProperly;
        UninitColumns();
      }
    }

    method UninitColumns()
      requires Valid() && size != 0
      modifies this`log, this`size, list`state, list`cols, list`repr, list`ccol
      modifies list.repr`next, list.repr`prev, list.repr`cxt
      ensures Valid() && size == 0 && list.repr <= old(list.repr)
      ensures FreeBufs() == BusyBufs() == DirtyBufs() == []
      ensures log == old(log) + (EachOnce(Uninit, old(FreeBufs())) + EachOnce(Uninit, old(BusyBufs()))) +
                     EachOnce(Uninit, old(DirtyBufs()))
    {
      hide list.Valid;
      hide StatesAreColumns;
      hide EachOnce;
      UninitColumn(BFREE);
      UninitColumn(BBUSY);
      UninitColumn(BDIRTY);
      size := 0;
    }

    method UninitColumn(c: nat)
      requires Valid() && c < 3
      modifies this`log, list`state, list`cols, list`repr, list`ccol
      modifies list.repr`next, list.repr`prev, list.repr`cxt
      ensures Valid() && list.repr <= old(list.repr)
      ensures list.cols == old(list.cols)[c := []] && log == old(log) + EachOnce(Uninit, old(list.cols[c]))
    {
      hide list.Valid;
      hide StatesAreColumns;
      hide EachOnce;
      ghost var s := list.cols[c];
      ghost var n: nat := 0;
      EachOnceGrows(Uninit, s, 0);
      list.Select(c);
      var x := list.First();
      while x != null
        invariant Valid() && list.ccol == c && list.repr <= old(list.repr)
        invariant x == At(list.cols[c], 0) && x == list.state[c].current
        invariant n <= |s| && list.cols == old(list.cols)[c := s[n..]]
        invariant log == old(log) + EachOnce(Uninit, s[..n])
        decreases |list.cols[c]|
      {
        EachOnceGrows(Uninit, s, n);
        n := n + 1;
        log := log + [On(Uninit, x)];
        DropCurrent(c, x);
        x := list.Current();
      }
      assert s[..n] == s;
    }

    method DropCurrent(c: nat, x: Item<Buffer>)
      requires Valid() && c < 3 && list.ccol == c && list.cols[c] != [] && list.cols[c][0] == x
      requires list.state[c].current == x
      modifies list`state, list`cols, list`repr, list.repr`next, list.repr`prev, list.repr`cxt
      ensures Valid() && list.repr == old(list.repr) - {x}
      ensures list.cols == old(list.cols)[c := old(list.cols[c])[1..]]
      ensures list.state[c].current == At(list.cols[c], 0)
    {
      list.FirstFacts(c);
      hide list.Valid;
      var gone := list.Del();
    }

    /** The numbers of buffers by column, and of all. */
    method Status() returns (free: nat, busy: nat, dirty: nat, all: nat)
      requires Valid()
      modifies list`ccol
      ensures Valid() && free == |FreeBufs()| && busy == |BusyBufs()| && dirty == |DirtyBufs()|
      ensures all == |list.repr|
    {
      hide list.Valid;
      hide StatesAreColumns;
      free := CountIn(BFREE);
      busy := CountIn(BBUSY);
      dirty := CountIn(BDIRTY);
      all := free + busy + dirty;
      Total();
    }

    method CountIn(c: nat) returns (n: nat)
      requires Valid() && c < 3
      modifies list`ccol
      ensures Valid() && n == |list.cols[c]|
    {
      hide list.Valid;
      hide StatesAreColumns;
      list.Select(c);
      n := list.Count();
    }

    lemma Total()
      requires Valid()
      ensures |list.repr| == |FreeBufs()| + |BusyBufs()| + |DirtyBufs()|
    {
      hide list.Valid;
      hide StatesAreColumns;
      list.CountAll();
      SumThree(list.cols);
      hide SumLengths;
    }
  }

  // ----- Runs -----

  /** A call of the map.  Handles go by number, in the order in which they were handed out; a
      number that was never handed out stands for the null handle. */
  datatype Request =
    | Take(udata: nat, ptr: nat, granted: bool)
    | GiveBack(n: nat)
    | Mark(n: nat)
    | Commit(n: nat)
    | Reread(n: nat)
    | Finish

  type Handle = Item<Buffer>

  function Named(handles: seq<Handle>, n: nat): (x: Item?<Buffer>)
    ensures x != null ==> x in handles
  {
    if n < |handles| then handles[n] else null
  }

  lemma NothingLeft(m: Map)
    requires m.Valid()
    ensures LeftDirtyProperly(m.DirtyBufs(), m.DirtyBufs(), m.log[|m.log|..]) && m.log[|m.log|..] == []
    ensures Front(m.FreeBufs()) <= m.list.repr
  {
    m.list.FirstFacts(BFREE);
  }

  method Serve(m: Map, q: Request, handles: seq<Handle>) returns (more: seq<Handle>)
    requires m.Valid() && (m.size != 0 ==> forall x :: x in handles ==> x in m.list.repr)
    modifies m`log, m`size, m.list`state, m.list`cols, m.list`repr, m.list`ccol
    modifies m.list.repr`next, m.list.repr`prev, m.list.repr`col, m.list.repr`data, m.list.repr`cxt
    ensures m.Valid() && (m.size != 0 ==> forall x :: x in more ==> x in m.list.repr)
    ensures handles <= more && fresh(m.list.repr - old(m.list.repr))
    ensures old(m.log) <= m.log
    ensures LeftDirtyProperly(old(m.DirtyBufs()), m.DirtyBufs(), m.log[|old(m.log)|..])
  {
    hide *;
    NothingLeft(m);
    more := handles;
    match q
    case Take(udata, ptr, granted) =>
      var x := m.Alloc(udata, ptr, granted);
      if x != null {
        more := handles + [x];
      }
    case GiveBack(n) =>
      var x := Named(handles, n);
      if x != null {
        m.Free(x);
      }
    case Mark(n) =>
      var x := Named(handles, n);
      if x != null {
        m.Dirty(x);
      }
    case Commit(n) =>
      m.Flush(Named(handles, n));
    case Reread(n) =>
      m.Reset(Named(handles, n));
    case Finish =>
      m.UninitAll();
  }

  /** The dirty buffers at certain points of the log: between any two of them, a buffer that is
      no longer dirty was written, read again or given up. */
  ghost predicate Accounted(dirties: seq<seq<Handle>>, marks: seq<nat>, log: seq<Event>) {
    && |dirties| == |marks|
    && (forall i, j :: 0 <= i <= j < |marks| ==> marks[i] <= marks[j] <= |log|)
    && (forall i, j :: 0 <= i <= j < |marks| ==> LeftDirtyProperly(dirties[i], dirties[j], log[marks[i]..marks[j]]))
  }

  lemma OneMorePoint(dirties: seq<seq<Handle>>, marks: seq<nat>, was: seq<Event>, now: seq<Handle>, log: seq<Event>)
    requires Accounted(dirties, marks, was) && |marks| > 0 && marks[|marks| - 1] == |was| && was <= log
    requires LeftDirtyProperly(dirties[|marks| - 1], now, log[|was|..])
    ensures Accounted(dirties + [now], marks + [|log|], log)
  {
    hide LeftDirtyProperly;
    var n := |marks|;
    var all, points := dirties + [now], marks + [|log|];
    forall i, j | 0 <= i <= j <= n ensures LeftDirtyProperly(all[i], all[j], log[points[i]..points[j]]) {
      if j < n {
        assert log[points[i]..points[j]] == was[points[i]..points[j]];
        assert LeftDirtyProperly(dirties[i], dirties[j], was[marks[i]..marks[j]]);
      } else if i < n {
        assert LeftDirtyProperly(dirties[i], dirties[n - 1], was[marks[i]..marks[n - 1]]);
        assert log[points[i]..|log|] == was[marks[i]..marks[n - 1]] + log[|was|..];
        LeftDirtyTransitive(dirties[i], dirties[n - 1], now, was[marks[i]..marks[n - 1]], log[|was|..]);
      } else {
        NobodyLeft(now, log[points[i]..points[j]]);
      }
    }
  }

  lemma NobodyLeft(was: seq<Handle>, e: seq<Event>)
    ensures LeftDirtyProperly(was, was, e)
  {
  }

  /** In every run, between any two of its requests, a buffer leaves the dirty column only after
      it was written, read again or given up. */
  method Run(m: Map, requests: seq<Request>)
      returns (handles: seq<Handle>, ghost dirties: seq<seq<Handle>>, ghost marks: seq<nat>)
    requires m.Valid()
    modifies m`log, m`size, m.list`state, m.list`cols, m.list`repr, m.list`ccol
    modifies m.list.repr`next, m.list.repr`prev, m.list.repr`col, m.list.repr`data, m.list.repr`cxt
    ensures m.Valid() && |dirties| == |marks| == |requests| + 1
    ensures old(m.log) <= m.log && marks[0] == |old(m.log)| && marks[|requests|] == |m.log|
    ensures dirties[0] == old(m.DirtyBufs()) && dirties[|requests|] == m.DirtyBufs()
    ensures Accounted(dirties, marks, m.log)
    ensures LeftDirtyProperly(old(m.DirtyBufs()), m.DirtyBufs(), m.log[|old(m.log)|..])
  {
    hide *;
    StartAccount(m);
    handles, dirties, marks := [], [m.DirtyBufs()], [|m.log|];
    ghost var log0 := m.log;
    var k := 0;
    while k < |requests|
      invariant k <= |requests| && |dirties| == |marks| == k + 1
      invariant m.Valid() && (m.size != 0 ==> forall x :: x in handles ==> x in m.list.repr)
      invariant fresh(m.list.repr - old(m.list.repr))
      invariant log0 <= m.log && marks[0] == |log0| && marks[k] == |m.log|
      invariant |m.list.cols| == 3 && dirties[0] == old(m.DirtyBufs()) && dirties[k] == m.DirtyBufs()
      invariant Accounted(dirties, marks, m.log)
    {
      ghost var was := m.log;
      handles := Serve(m, requests[k], handles);
      StartAccount(m);
      OneMorePoint(dirties, marks, was, m.DirtyBufs(), m.log);
      dirties, marks := dirties + [m.DirtyBufs()], marks + [|m.log|];
      k := k + 1;
    }
    WholeAccount(dirties, marks, m.log);
  }

  lemma StartAccount(m: Map)
    requires m.Valid()
    ensures |m.list.cols| == 3
    ensures Accounted([m.DirtyBufs()], [|m.log|], m.log)
  {
  }

  lemma WholeAccount(dirties: seq<seq<Handle>>, marks: seq<nat>, log: seq<Event>)
    requires Accounted(dirties, marks, log) && |marks| > 0 && marks[|marks| - 1] == |log|
    ensures marks[0] <= |log| && LeftDirtyProperly(dirties[0], dirties[|marks| - 1], log[marks[0]..])
  {
    assert log[marks[0]..] == log[marks[0]..marks[|marks| - 1]];
  }
}
