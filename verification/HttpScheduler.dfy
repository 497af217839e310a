/** The connection scheduler of io/libnet/http.cpp: a list with columns of unused, pending
    and busy connections, worked on by any number of workers.

    Every operation runs under the list's lock, so a run is a sequence of operations in
    any order.  `hands` is what the workers have in their own variables. */
module HttpScheduler {
  import opened LinkList

  const CFREE: nat := 0
  const CPENDING: nat := 1
  const CBUSY: nat := 2

  /** The user part of a record: the state word and the connection object. */
  datatype Connection = Connection(state: nat, httpc: nat)

  type Rec = Item<Connection>

  // ----- The pending column as a queue -----

  datatype Step = Arrive(x: Rec) | Get | Return(x: Rec) | Release

  function Queue(q: seq<Rec>, s: Step): seq<Rec> {
    match s
    case Arrive(x) => q + [x]
    case Get => if q == [] then q else q[1..]
    case Return(x) => q + [x]
    case Release => q
  }

  function HandsOut(q: seq<Rec>, s: Step): seq<Item?<Connection>> {
    if s.Get? then [At(q, 0)] else []
  }

  /** What the successive `Get`s of a run hand out; an empty queue hands out nothing. */
  function HandedOut(q: seq<Rec>, steps: seq<Step>): (h: seq<Item?<Connection>>)
    decreases |steps|
  {
    if steps == [] then []
    else HandsOut(q, steps[0]) + HandedOut(Queue(q, steps[0]), steps[1..])
  }

  function Gets(steps: seq<Step>): nat {
    if steps == [] then 0 else (if steps[0].Get? then 1 else 0) + Gets(steps[1..])
  }

  /** Waiting is bounded: however arrivals, returns and releases are mixed in, the record
      at position `k` is what the (k+1)-th `Get` hands out. */
  lemma {:induction false} BoundedWait(q: seq<Rec>, steps: seq<Step>, k: nat)
    requires k < |q| && k < Gets(steps)
    ensures k < |HandedOut(q, steps)| && HandedOut(q, steps)[k] == q[k]
    decreases |steps|
  {
    var q', rest := Queue(q, steps[0]), steps[1..];
    if steps[0].Get? {
      if k > 0 {
        assert q'[k - 1] == q[k];
        BoundedWait(q', rest, k - 1);
      }
    } else {
      assert q'[k] == q[k];
      BoundedWait(q', rest, k);
    }
  }

  /** Nobody overtakes: until then the record only moves up, one place for each `Get`. */
  lemma {:induction false} MovesUp(q: seq<Rec>, steps: seq<Step>, k: nat)
    requires k < |q| && Gets(steps) <= k
    ensures var q' := QueueAfter(q, steps); k - Gets(steps) < |q'| && q'[k - Gets(steps)] == q[k]
    decreases |steps|
  {
    if steps != [] {
      var q', rest := Queue(q, steps[0]), steps[1..];
      if steps[0].Get? {
        assert q'[k - 1] == q[k];
        MovesUp(q', rest, k - 1);
      } else {
        assert q'[k] == q[k];
        MovesUp(q', rest, k);
      }
    }
  }

  function QueueAfter(q: seq<Rec>, steps: seq<Step>): seq<Rec>
    decreases |steps|
  {
    if steps == [] then q else QueueAfter(Queue(q, steps[0]), steps[1..])
  }

  lemma {:induction false} HandedOutLength(q: seq<Rec>, steps: seq<Step>)
    ensures |HandedOut(q, steps)| == Gets(steps)
    decreases |steps|
  {
    if steps != [] {
      HandedOutLength(Queue(q, steps[0]), steps[1..]);
    }
  }

  /** A run in two parts is the second part on the queue that the first one left. */
  lemma {:induction false} InTwoParts(q: seq<Rec>, a: seq<Step>, b: seq<Step>)
    ensures HandedOut(q, a + b) == HandedOut(q, a) + HandedOut(QueueAfter(q, a), b)
    ensures QueueAfter(q, a + b) == QueueAfter(QueueAfter(q, a), b)
    ensures Gets(a + b) == Gets(a) + Gets(b)
    decreases |a|
  {
    if a == [] {
      assert a + b == b;
    } else {
      hide *;
      InTwoParts(Queue(q, a[0]), a[1..], b);
      OneByOne(q, a);
      OneByOne(q, a + b);
      FirstThenRest(a, b);
      var q' := Queue(q, a[0]);
      Regroup(HandsOut(q, a[0]), HandedOut(q', a[1..]), HandedOut(QueueAfter(q, a), b));
    }
  }

  lemma FirstThenRest(a: seq<Step>, b: seq<Step>)
    requires a != []
    ensures a + b != [] && (a + b)[0] == a[0] && (a + b)[1..] == a[1..] + b
  {
  }

  lemma Regroup(x: seq<Item?<Connection>>, y: seq<Item?<Connection>>, z: seq<Item?<Connection>>)
    ensures x + (y + z) == (x + y) + z
  {
  }

  lemma OneByOne(q: seq<Rec>, steps: seq<Step>)
    requires steps != []
    ensures HandedOut(q, steps) == HandsOut(q, steps[0]) + HandedOut(Queue(q, steps[0]), steps[1..])
    ensures QueueAfter(q, steps) == QueueAfter(Queue(q, steps[0]), steps[1..])
    ensures Gets(steps) == (if steps[0].Get? then 1 else 0) + Gets(steps[1..])
  {
  }

  /** In a run from `q`, what becomes of the record that stands at `k` after `i` steps: either
      it is handed out by the (k+1)-th `Get` from there on, or it has only moved up. */
  ghost predicate Served(q: seq<Rec>, steps: seq<Step>, i: nat, k: nat)
    requires i <= |steps| && k < |QueueAfter(q, steps[..i])|
  {
    var given, left, x := HandedOut(q, steps), QueueAfter(q, steps), QueueAfter(q, steps[..i])[k];
    var n := Gets(steps[..i]) + k;
    if n < |given| then given[n] == x else n - |given| < |left| && left[n - |given|] == x
  }

  /** Every record that is pending at any point of the run is served in turn. */
  ghost predicate AllServed(q: seq<Rec>, steps: seq<Step>) {
    forall i, k :: 0 <= i <= |steps| && 0 <= k < |QueueAfter(q, steps[..i])| ==> Served(q, steps, i, k)
  }

  lemma EveryoneServed(q: seq<Rec>, steps: seq<Step>)
    ensures AllServed(q, steps)
  {
    forall i, k | 0 <= i <= |steps| && 0 <= k < |QueueAfter(q, steps[..i])| ensures Served(q, steps, i, k) {
      ServedInTurn(q, steps, i, k);
    }
  }

  lemma ServedInTurn(q: seq<Rec>, steps: seq<Step>, i: nat, k: nat)
    requires i <= |steps| && k < |QueueAfter(q, steps[..i])|
    ensures Served(q, steps, i, k)
  {
    var before, rest := steps[..i], steps[i..];
    var now := QueueAfter(q, before);
    assert before + rest == steps;
    InTwoParts(q, before, rest);
    HandedOutLength(q, before);
    HandedOutLength(now, rest);
    if k < Gets(rest) {
      BoundedWait(now, rest, k);
    } else {
      MovesUp(now, rest, k);
    }
  }

  // ----- The server -----

  /** What each worker has in hand. */
  type Hands = map<nat, set<Rec>>

  function InHand(hands: Hands, w: nat): set<Rec> {
    if w in hands then hands[w] else {}
  }

  function Taken(hands: Hands, w: nat, x: Rec): Hands {
    hands[w := InHand(hands, w) + {x}]
  }

  function Dropped(hands: Hands, w: nat, x: Rec): Hands {
    if w in hands then hands[w := hands[w] - {x}] else hands
  }

  ghost predicate SomeoneHas(hands: Hands, x: Rec) {
    exists w :: w in hands && x in hands[w]
  }

  /** No two workers have a record in common. */
  ghost predicate Apart(hands: Hands) {
    forall v, w :: v in hands && w in hands && v != w ==> hands[v] !! hands[w]
  }

  /** Exactly the busy records are in the workers' hands, each in those of one. */
  ghost predicate HeldFits(busy: seq<Rec>, hands: Hands) {
    && (forall x :: x in busy ==> SomeoneHas(hands, x))
    && (forall w, x :: w in hands && x in hands[w] ==> x in busy)
    && Apart(hands)
  }

  lemma HeldGrows(busy: seq<Rec>, hands: Hands, x: Rec, w: nat)
    requires HeldFits(busy, hands) && x !in busy
    ensures HeldFits(busy + [x], Taken(hands, w, x)) && !SomeoneHas(hands, x)
  {
    var now := Taken(hands, w, x);
    assert x in now[w];
    forall y | y in busy ensures SomeoneHas(now, y) {
      var v :| v in hands && y in hands[v];
      assert y in now[v];
    }
  }

  lemma HeldShrinks(busy: seq<Rec>, hands: Hands, k: nat, w: nat)
    requires HeldFits(busy, hands) && Distinct(busy) && k < |busy| && busy[k] in InHand(hands, w)
    ensures HeldFits(Without(busy, k), Dropped(hands, w, busy[k])) && !SomeoneHas(Dropped(hands, w, busy[k]), busy[k])
  {
    var now := Dropped(hands, w, busy[k]);
    forall y | y in Without(busy, k) ensures SomeoneHas(now, y) {
      assert y in busy && y != busy[k];
      var v :| v in hands && y in hands[v];
      assert y in now[v];
    }
    forall y | y in busy && y != busy[k] ensures y in Without(busy, k) {
      var j := IndexOf(busy, y);
      assert Without(busy, k)[if j < k then j else j - 1] == y;
    }
  }

  lemma NothingDropped(hands: Hands, w: nat, x: Rec)
    requires !SomeoneHas(hands, x)
    ensures Dropped(hands, w, x) == hands
  {
    if w in hands {
      assert hands[w] - {x} == hands[w];
    }
  }

  class Server {
    const list: List<Connection>
    var hands: Hands // the workers' own variables

    ghost predicate StatesOk()
      reads list`repr, list.repr`col, list.repr`data
    {
      forall x :: x in list.repr ==> StateOk(x)
    }

    /** The state word is the column, but an unused record keeps the word it had last. */
    ghost predicate StateOk(x: Rec)
      reads x`col, x`data
    {
      0 < x.data.state < 3 && (x.col == CFREE || x.data.state == x.col)
    }

    ghost predicate Valid()
      reads this, list, list.repr
    {
      ListOk() && HeldFits(Busy(), hands)
    }

    ghost predicate ListOk()
      reads list, list.repr
    {
      list.Valid() && list.ncol == |list.cols| == |list.state| == 3 && StatesOk()
    }

    ghost function Unused(): seq<Rec>
      requires |list.cols| == 3
      reads list`cols
    {
      list.cols[CFREE]
    }

    ghost function Pending(): seq<Rec>
      requires |list.cols| == 3
      reads list`cols
    {
      list.cols[CPENDING]
    }

    ghost function Busy(): seq<Rec>
      requires |list.cols| == 3
      reads list`cols
    {
      list.cols[CBUSY]
    }

    constructor ()
      ensures Valid() && fresh(list) && hands == map[] && Unused() == Pending() == Busy() == []
    {
      list := new List<Connection>(3);
      hands := map[];
    }

    /** A record is in one column only, is busy exactly when a worker has it, and no two
        workers have it. */
    lemma OneColumn(x: Rec)
      requires Valid() && x in list.repr
      ensures x.cxt == list && InColumn(x) && |list.cols| == 3
      ensures 0 < x.data.state < 3 && (x.col == CFREE || x.data.state == x.col)
      ensures forall c :: 0 <= c < 3 && c != x.col ==> x !in list.cols[c]
      ensures x.col == CBUSY <==> SomeoneHas(hands, x)
      ensures Apart(hands)
    {
      list.ColumnFacts(CFREE);
      list.ColumnFacts(CPENDING);
      list.ColumnFacts(CBUSY);
      list.ColumnFacts(x.col);
    }

    /** Sets the state word of `x`. */
    method SetState(x: Rec, state: nat)
      requires list.Valid() && list.ncol == |list.cols| == 3
      requires forall y :: y in list.repr && y != x ==> StateOk(y)
      requires 0 < state < 3 && (x.col == CFREE || state == x.col)
      modifies x`data
      ensures list.Valid() && StatesOk() && x.data == old(x.data).(state := state)
    {
      hide list.Valid;
      x.data := x.data.(state := state);
    }

    /** A new connection becomes pending: an unused record is taken first, otherwise one is
        added.  `httpc` is the repository's answer, 0 for none, `granted` the list's. */
    method AllocConnection(httpc: nat, granted: bool) returns (r: Item?<Connection>)
      requires Valid()
      modifies list`state, list`cols, list`repr, list`ccol
      modifies list.repr`next, list.repr`prev, list.repr`col, Front(Unused())`data
      ensures Valid() && Busy() == old(Busy())
      ensures old(Unused()) != [] ==> r == old(Unused()[0]) && Unused() == old(Unused())[1..]
      ensures old(Unused()) != [] ==> r.data == Connection(CPENDING, old(Unused()[0].data.httpc))
      ensures old(Unused()) == [] ==> Unused() == [] && (r != null <==> httpc != 0 && granted)
      ensures old(Unused()) == [] && r != null ==> fresh(r) && r.data == Connection(CPENDING, httpc)
      ensures list.repr == (old(list.repr) + if r != null then {r} else {}) && fresh(list.repr - old(list.repr))
      ensures Pending() == if r == null then old(Pending()) else Queue(old(Pending()), Arrive(r))
    {
      hide list.Valid;
      hide StatesOk;
      list.Select(CFREE);
      var first := list.First();
      r := null;
      if first != null {
        Reuse(first);
        r := first;
      } else if httpc != 0 {
        r := Create(httpc, granted);
      }
    }

    method Reuse(x: Rec)
      requires Valid() && Unused() != [] && x == Unused()[0]
      modifies list`state, list`cols, list`repr
      modifies list.repr`next, list.repr`prev, list.repr`col, x`data
      ensures Valid() && list.repr == old(list.repr) && x in list.repr
      ensures list.cols == old(list.cols)[CFREE := old(Unused())[1..]][CPENDING := old(Pending()) + [x]]
      ensures x.data == Connection(CPENDING, old(x.data.httpc))
    {
      UnusedFacts(x);
      hide *;
      SetState(x, CPENDING);
      MovePending(x);
      MadeOf();
    }

    lemma UnusedFacts(x: Rec)
      requires Valid() && Unused() != [] && x == Unused()[0]
      ensures list.Valid() && list.ncol == |list.cols| == 3 && HeldFits(list.cols[CBUSY], hands)
      ensures list.cols[CFREE] != [] && x == list.cols[CFREE][0] && x in list.repr && x.col == CFREE
      ensures forall y :: y in list.repr ==> StateOk(y)
      ensures Unused() == list.cols[CFREE] && Pending() == list.cols[CPENDING]
    {
      list.FirstFacts(CFREE);
    }

    /** Moves the first unused record, whose state word says pending already. */
    method MovePending(x: Rec)
      requires list.Valid() && list.ncol == |list.cols| == 3 && StatesOk()
      requires list.cols[CFREE] != [] && x == list.cols[CFREE][0] && x.data.state == CPENDING
      modifies list`state, list`cols, list`repr
      modifies list.repr`next, list.repr`prev, list.repr`col
      ensures ListOk() && list.repr == old(list.repr)
      ensures list.cols == old(list.cols)[CFREE := old(list.cols[CFREE])[1..]][CPENDING := old(list.cols[CPENDING]) + [x]]
      ensures |list.cols| == 3
    {
      hide list.Valid;
      list.MovFirst(CFREE, x, CPENDING);
    }

    method Create(httpc: nat, granted: bool) returns (r: Item?<Connection>)
      requires Valid()
      modifies list`state, list`cols, list`repr, list`ccol, list.repr`next
      ensures Valid() && (r != null <==> granted)
      ensures list.cols == if r == null then old(list.cols) else old(list.cols)[CPENDING := old(Pending()) + [r]]
      ensures r != null ==> fresh(r) && r.data == Connection(CPENDING, httpc)
      ensures list.repr == old(list.repr) + if r != null then {r} else {}
    {
      hide list.Valid;
      list.Select(CPENDING);
      r := list.Add(Connection(CPENDING, httpc), granted);
    }

    /** Worker `w` takes the first pending connection. */
    method GetConnection(w: nat) returns (x: Item?<Connection>)
      requires Valid()
      modifies this`hands, list`state, list`cols, list`repr, list`ccol
      modifies list.repr`next, list.repr`prev, list.repr`col, Front(Pending())`data
      ensures Valid() && x == At(old(Pending()), 0) && Pending() == Queue(old(Pending()), Get)
      ensures Unused() == old(Unused()) && Busy() == old(Busy()) + if x == null then [] else [x]
      ensures x != null ==> x.data == Connection(CBUSY, old(Pending()[0].data.httpc))
      ensures x == null ==> hands == old(hands)
      ensures x != null ==> !SomeoneHas(old(hands), x) && hands == Taken(old(hands), w, x)
      ensures x != null ==> x in list.repr
      ensures list.repr == old(list.repr)
    {
      hide list.Valid;
      hide StatesOk;
      list.Select(CPENDING);
      x := list.First();
      if x != null {
        Take(x, w);
      }
    }

    method Take(x: Rec, w: nat)
      requires Valid() && Pending() != [] && x == Pending()[0]
      modifies this`hands, list`state, list`cols, list`repr
      modifies list.repr`next, list.repr`prev, list.repr`col, x`data
      ensures Valid() && !SomeoneHas(old(hands), x) && hands == Taken(old(hands), w, x)
      ensures x in list.repr && list.repr == old(list.repr)
      ensures list.cols == old(list.cols)[CPENDING := old(Pending())[1..]][CBUSY := old(Busy()) + [x]]
      ensures x.data == Connection(CBUSY, old(x.data.httpc))
    {
      list.FirstFacts(CPENDING);
      OneColumn(x);
      NotBusy(x);
      HeldGrows(Busy(), hands, x, w);
      hide HeldFits;
      MakeBusy(x);
      hide ListOk;
      hands := Taken(hands, w, x);
    }

    lemma NotBusy(x: Rec)
      requires ListOk() && x in Pending()
      ensures x !in Busy()
    {
      list.ColumnFacts(CPENDING);
      list.ColumnFacts(CBUSY);
    }

    method MakeBusy(x: Rec)
      requires ListOk() && Pending() != [] && x == Pending()[0]
      modifies list`state, list`cols, list`repr
      modifies list.repr`next, list.repr`prev, list.repr`col, x`data
      ensures ListOk() && list.repr == old(list.repr) && x in list.repr
      ensures list.cols == old(list.cols)[CPENDING := old(Pending())[1..]][CBUSY := old(Busy()) + [x]]
      ensures x.data == Connection(CBUSY, old(x.data.httpc))
    {
      list.FirstFacts(CPENDING);
      hide list.Valid;
      list.MovFirst(CPENDING, x, CBUSY);
      SetState(x, CBUSY);
    }

    /** Moves `x` to the end of column `c` and sets its state word. */
    method Shift(x: Rec, c: nat, state: nat)
      requires ListOk() && c < 3 && 0 < state < 3 && (c == CFREE || state == c)
      requires x in list.repr && InColumn(x) && x.col != c
      modifies list`state, list`cols, list`repr
      modifies list.repr`next, list.repr`prev, list.repr`col, x`data
      ensures ListOk() && list.repr == old(list.repr) && x.data == old(x.data).(state := state)
      ensures list.cols == Shifted(old(list.cols), x, old(x.col), c)
    {
      list.ColumnFacts(x.col);
      hide list.Valid;
      hide Without;
      var moved := list.Mov(x, c);
      SetState(x, state);
    }

    ghost predicate InColumn(x: Rec)
      reads list`cols, x`col
    {
      |list.cols| == 3 && x.col < 3 && x in list.cols[x.col]
    }

    /** Worker `w` puts the record it has in hand behind the pending ones.  The guard is the
        state word alone: a record that was released from the busy state still carries that word,
        so returning it after its release would revive it. */
    method PendingConnection(x: Rec, w: nat)
      requires Valid() && x in list.repr && (x.col == CBUSY ==> x in InHand(hands, w))
      modifies this`hands, list`state, list`cols, list`repr
      modifies list.repr`next, list.repr`prev, list.repr`col, x`data
      ensures Valid() && list.repr == old(list.repr) && old(InColumn(x))
      ensures old(x.data.state) != CBUSY ==> list.cols == old(list.cols) && Pending() == old(Pending())
      ensures old(x.data.state) == CBUSY ==> list.cols == Shifted(old(list.cols), x, old(x.col), CPENDING)
      ensures old(x.data.state) == CBUSY ==> Pending() == Queue(old(Pending()), Return(x))
      ensures hands == Dropped(old(hands), w, x) && !SomeoneHas(hands, x)
      ensures x.data == if old(x.data.state) == CBUSY then Connection(CPENDING, old(x.data.httpc)) else old(x.data)
    {
      ReturnFacts(x);
      hide *;
      if x.data.state == CBUSY {
        LeaveBusy(x, w, CPENDING, CPENDING);
        PendingIs();
      } else {
        NothingDropped(hands, w, x);
      }
    }

    lemma PendingIs()
      requires Valid()
      ensures |list.cols| == 3 && Pending() == list.cols[CPENDING]
    {
    }

    /** A record whose state word is busy is not pending, and one whose word is another is in nobody's hands. */
    lemma ReturnFacts(x: Rec)
      requires Valid() && x in list.repr
      ensures InColumn(x) && |list.cols| == 3 && x.col < 3 && x in list.cols[x.col]
      ensures 0 < CPENDING < 2 && CPENDING < 3 && CPENDING != CFREE
      ensures x.data.state == CBUSY ==> x.col != CPENDING && |Shifted(list.cols, x, x.col, CPENDING)| == 3
      ensures x.data.state == CBUSY ==> Shifted(list.cols, x, x.col, CPENDING)[CPENDING] == Queue(Pending(), Return(x))
      ensures x.data.state != CBUSY ==> !SomeoneHas(hands, x)
    {
      OneColumn(x);
      hide list.Valid;
      hide HeldFits;
      hide Without;
      hide SomeoneHas;
    }

    /** Moves `x` out of the busy column, if it is there, and takes it from its holder. */
    method LeaveBusy(x: Rec, w: nat, c: nat, state: nat)
      requires Valid() && x in list.repr && InColumn(x) && c < 2 && c != x.col
      requires x.col == CBUSY ==> x in InHand(hands, w)
      requires 0 < state < 3 && (c == CFREE || state == c)
      modifies this`hands, list`state, list`cols, list`repr
      modifies list.repr`next, list.repr`prev, list.repr`col, x`data
      ensures Valid() && list.repr == old(list.repr) && |list.cols| == 3
      ensures hands == Dropped(old(hands), w, x) && !SomeoneHas(hands, x)
      ensures x.data == old(x.data).(state := state)
      ensures list.cols == Shifted(old(list.cols), x, old(x.col), c)
    {
      hide *;
      BusyWithout(x, w, c);
      Shift(x, c, state);
      hands := Dropped(hands, w, x);
      MadeOf();
    }

    lemma MadeOf()
      requires ListOk() && |list.cols| == 3 && HeldFits(list.cols[CBUSY], hands)
      ensures Valid()
    {
    }

    /** The busy column and the hands after `x` left, whatever its column. */
    lemma BusyWithout(x: Rec, w: nat, c: nat)
      requires Valid() && x in list.repr && InColumn(x) && c < 2 && c != x.col
      requires x.col == CBUSY ==> x in InHand(hands, w)
      ensures ListOk() && |list.cols| == 3 && x.col < 3 && x in list.cols[x.col]
      ensures !SomeoneHas(Dropped(hands, w, x), x) && |Shifted(list.cols, x, x.col, c)| == 3
      ensures HeldFits(Shifted(list.cols, x, x.col, c)[CBUSY], Dropped(hands, w, x))
    {
      OneColumn(x);
      list.ColumnFacts(CBUSY);
      hide list.Valid;
      if x.col == CBUSY {
        HeldShrinks(Busy(), hands, IndexOf(Busy(), x), w);
      } else {
        NothingDropped(hands, w, x);
      }
    }

    /** Worker `w` gives up the connection it has in hand, or the server one that is pending.  The
        record becomes unused; its state word stays.  A second release finds it in another
        column and does nothing. */
    method ReleaseConnection(x: Rec, w: nat) returns (closed: bool)
      requires Valid() && x in list.repr && (x.col == CBUSY ==> x in InHand(hands, w))
      modifies this`hands, list`state, list`cols, list`repr, list`ccol
      modifies list.repr`next, list.repr`prev, list.repr`col, x`data
      ensures Valid() && list.repr == old(list.repr) && x.data == old(x.data) && old(InColumn(x))
      ensures closed <==> old(x.col) != CFREE
      ensures !closed ==> list.cols == old(list.cols)
      ensures closed ==> list.cols == Shifted(old(list.cols), x, old(x.col), CFREE)
      ensures old(x.col) != CPENDING ==> Pending() == old(Pending())
      ensures hands == Dropped(old(hands), w, x) && !SomeoneHas(hands, x)
    {
      hide Valid;
      hide Shifted;
      hide SomeoneHas;
      OneColumn(x);
      closed := SelectOwn(x);
      if closed {
        Close(x, w);
      } else {
        NothingDropped(hands, w, x);
      }
    }

    method Close(x: Rec, w: nat)
      requires Valid() && x in list.repr && InColumn(x) && x.col == x.data.state
      requires x.col == CBUSY ==> x in InHand(hands, w)
      modifies this`hands, list`state, list`cols, list`repr
      modifies list.repr`next, list.repr`prev, list.repr`col, x`data
      ensures Valid() && list.repr == old(list.repr) && x.data == old(x.data)
      ensures hands == Dropped(old(hands), w, x) && !SomeoneHas(hands, x)
      ensures list.cols == Shifted(old(list.cols), x, old(x.col), CFREE)
      ensures old(x.col) == CBUSY ==> Pending() == old(Pending())
    {
      OneColumn(x);
      hide HeldFits;
      hide ListOk;
      hide Shifted;
      hide SomeoneHas;
      hide Dropped;
      if x.col == CBUSY {
        PendingKept(list.cols, x);
      }
      LeaveBusy(x, w, CFREE, x.data.state);
    }

    lemma PendingKept(cols: seq<seq<Rec>>, x: Rec)
      requires |cols| == 3 && x in cols[CBUSY]
      ensures var now := Shifted(cols, x, CBUSY, CFREE);
        |now| == 3 && now[CPENDING] == cols[CPENDING] && now[CFREE] == cols[CFREE] + [x]
    {
    }

    /** Selects the column that the state word names and the record, if it is in there. */
    method SelectOwn(x: Rec) returns (found: bool)
      requires Valid() && x in list.repr
      modifies list`state, list`ccol
      ensures Valid() && found == (x.col == x.data.state)
    {
      hide list.Valid;
      hide HeldFits;
      assert StateOk(x);
      list.Select(x.data.state);
      found := list.Sel(x);
    }
  }

  // ----- Runs -----

  /** A call of the server by one of its threads.  A worker names a record by the number of the
      call that handed it out. */
  datatype Request =
    | Accept(httpc: nat, granted: bool)
    | Fetch(w: nat)
    | Requeue(w: nat, n: nat)
    | Drop(w: nat, n: nat)

  /** The effect of a call on the pending column; a call may fail and have none. */
  ghost predicate StepFor(q: Request, s: Step) {
    match q
    case Accept(_, _) => s.Arrive? || s.Release?
    case Fetch(_) => s.Get?
    case Requeue(_, _) => s.Return? || s.Release?
    case Drop(_, _) => s.Release?
  }

  ghost predicate Ours(given: seq<Item?<Connection>>, repr: set<Rec>) {
    forall x :: x in given && x != null ==> x in repr
  }

  function Named(given: seq<Item?<Connection>>, n: nat): (x: Item?<Connection>)
    ensures x != null ==> x in given
  {
    if n < |given| then given[n] else null
  }

  lemma OneStep(q: seq<Rec>, s: Step)
    ensures HandedOut(q, [s]) == if s.Get? then [At(q, 0)] else []
    ensures QueueAfter(q, [s]) == Queue(q, s)
    ensures s.Release? ==> Queue(q, s) == q
  {
    assert [s][1..] == [];
  }

  lemma StepKinds(q: Request, s: Step)
    requires s.Get? <==> q.Fetch?
    requires (s.Arrive? ==> q.Accept?) && (s.Return? ==> q.Requeue?)
    ensures StepFor(q, s)
  {
  }

  lemma OursKept(given: seq<Item?<Connection>>, was: set<Rec>, x: Item?<Connection>, now: set<Rec>)
    requires Ours(given, was) && was <= now && (x != null ==> x in now)
    ensures Ours(given, now) && Ours(given + [x], now)
  {
  }

  /** What a call has to know of the server and of the records handed out so far. */
  lemma ReadyFor(server: Server, given: seq<Item?<Connection>>, n: nat)
    requires server.Valid() && Ours(given, server.list.repr)
    ensures |server.list.cols| == 3 && Apart(server.hands)
    ensures Named(given, n) != null ==> Named(given, n) in server.list.repr
    ensures Front(server.Pending()) <= server.list.repr && Front(server.Unused()) <= server.list.repr
  {
  }

  /** A worker asks for a record only if no other worker has it, and gives up only one that is
      not pending. */
  method Serve(server: Server, q: Request, given: seq<Item?<Connection>>)
      returns (more: seq<Item?<Connection>>, ghost step: Step)
    requires server.Valid() && Ours(given, server.list.repr)
    modifies server`hands, server.list`state, server.list`cols, server.list`repr, server.list`ccol
    modifies server.list.repr`next, server.list.repr`prev, server.list.repr`col, server.list.repr`data
    ensures server.Valid() && Ours(more, server.list.repr) && fresh(server.list.repr - old(server.list.repr))
    ensures more == given + HandedOut(old(server.Pending()), [step])
    ensures server.Pending() == Queue(old(server.Pending()), step) && StepFor(q, step)
  {
    hide *;
    ReadyFor(server, given, 0);
    ghost var was, repr := server.Pending(), server.list.repr;
    step := Release;
    more := given;
    match q {
      case Accept(httpc, granted) =>
        var r := server.AllocConnection(httpc, granted);
        if r != null {
          step := Arrive(r);
        }
      case Fetch(w) =>
        var x := server.GetConnection(w);
        more := given + [x];
        step := Get;
        OursKept(given, repr, x, repr);
      case Requeue(w, n) =>
        ReadyFor(server, given, n);
        var x := Named(given, n);
        if x != null && (x.col == CBUSY ==> x in InHand(server.hands, w)) {
          step := if x.data.state == CBUSY then Return(x) else Release;
          server.PendingConnection(x, w);
        }
      case Drop(w, n) =>
        ReadyFor(server, given, n);
        var x := Named(given, n);
        if x != null && x.col != CPENDING && (x.col == CBUSY ==> x in InHand(server.hands, w)) {
          var closed := server.ReleaseConnection(x, w);
        }
    }
    OneStep(was, step);
    StepKinds(q, step);
    OursKept(given, repr, null, server.list.repr);
  }

  /** In every run, whatever the order of the calls: what the calls of `get_connection` return is
      what the queue hands out, so every record that is pending at any point of the run is
      returned by the call that its place in the queue says, and no two workers ever have the
      same record. */
  method Run(server: Server, requests: seq<Request>)
      returns (given: seq<Item?<Connection>>, ghost steps: seq<Step>, ghost queues: seq<seq<Rec>>)
    requires server.Valid()
    modifies server`hands, server.list`state, server.list`cols, server.list`repr, server.list`ccol
    modifies server.list.repr`next, server.list.repr`prev, server.list.repr`col, server.list.repr`data
    ensures server.Valid() && Apart(server.hands)
    ensures |steps| == |requests| && forall i :: 0 <= i < |steps| ==> StepFor(requests[i], steps[i])
    ensures given == HandedOut(old(server.Pending()), steps)
    ensures |queues| == |requests| + 1 && queues[|requests|] == server.Pending()
    ensures forall i :: 0 <= i <= |requests| ==> queues[i] == QueueAfter(old(server.Pending()), steps[..i])
    ensures AllServed(old(server.Pending()), steps)
  {
    hide *;
    NothingYet(server);
    ghost var q0 := server.Pending();
    given, steps, queues := [], [], [q0];
    ghost var repr0 := server.list.repr;
    var i := 0;
    while i < |requests|
      invariant 0 <= i <= |requests| && |steps| == i && |queues| == i + 1
      invariant server.Valid() && Ours(given, server.list.repr) && fresh(server.list.repr - repr0)
      invariant |server.list.cols| == 3 && queues[i] == server.Pending() == QueueAfter(q0, steps)
      invariant given == HandedOut(q0, steps)
      invariant forall j :: 0 <= j < i ==> StepFor(requests[j], steps[j])
      invariant forall j :: 0 <= j <= i ==> queues[j] == QueueAfter(q0, steps[..j])
    {
      ghost var step;
      given, step := Serve(server, requests[i], given);
      ReadyFor(server, given, 0);
      OneMore(q0, steps, step);
      steps, queues := steps + [step], queues + [server.Pending()];
      i := i + 1;
    }
    ReadyFor(server, given, 0);
    EveryoneServed(q0, steps);
  }

  lemma NothingYet(server: Server)
    requires server.Valid()
    ensures |server.list.cols| == 3 && Ours([], server.list.repr)
    ensures HandedOut(server.Pending(), []) == [] && QueueAfter(server.Pending(), []) == server.Pending()
  {
  }

  lemma OneMore(q: seq<Rec>, steps: seq<Step>, s: Step)
    ensures HandedOut(q, steps + [s]) == HandedOut(q, steps) + HandedOut(QueueAfter(q, steps), [s])
    ensures QueueAfter(q, steps + [s]) == Queue(QueueAfter(q, steps), s)
    ensures forall j :: 0 <= j <= |steps| ==> (steps + [s])[..j] == steps[..j]
    ensures (steps + [s])[..|steps| + 1] == steps + [s]
  {
    InTwoParts(q, steps, [s]);
    OneStep(QueueAfter(q, steps), s);
  }
}
