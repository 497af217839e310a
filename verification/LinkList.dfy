/** The multi-column intrusive list of core/mem/ll_alg.c in VECTOR mode.

    Records carry their own links and the number of the column they are in.  `cols`
    is what the columns mean: one sequence of records each.  Beside them every column
    keeps a cursor, that is a current record and the index the list believes it has. */
module LinkList {

  const TWO32: nat := 0x1_0000_0000

  /** A record with its header; `data` is what the user sees. */
  class Item<T> {
    var cxt: object?
    var col: nat
    var prev: Item?<T>
    var next: Item?<T>
    var data: T

    constructor (cxt: object, col: nat, data: T)
      ensures this.cxt == cxt && this.col == col && this.data == data && prev == null && next == null
    {
      this.cxt, this.col, this.data := cxt, col, data;
      prev, next := null, null;
    }
  }

  /** The state of one column. */
  datatype Column<T> = Column(first: Item?<T>, last: Item?<T>, current: Item?<T>, count: nat, cursor: nat)

  function At<T>(s: seq<Item<T>>, i: int): Item?<T> {
    if 0 <= i < |s| then s[i] else null
  }

  /** Only the state of column `c` may have changed. */
  ghost predicate OthersKept<T>(now: seq<Column<T>>, was: seq<Column<T>>, c: nat) {
    |now| == |was| && forall d :: 0 <= d < |now| && d != c ==> now[d] == was[d]
  }

  function Without<T>(s: seq<Item<T>>, k: nat): (r: seq<Item<T>>)
    requires k < |s|
    ensures |r| == |s| - 1
  {
    s[..k] + s[k + 1..]
  }

  ghost predicate Distinct<T>(s: seq<Item<T>>) {
    forall i, j :: 0 <= i < j < |s| ==> s[i] != s[j]
  }

  /** The records of `s` are chained in this order, both ways. */
  ghost predicate Linked<T>(s: seq<Item<T>>)
    reads s`prev, s`next
  {
    Distinct(s) &&
    (forall i {:trigger s[i].prev} :: 0 <= i < |s| ==> s[i].prev == At(s, i - 1)) &&
    (forall i {:trigger s[i].next} :: 0 <= i < |s| ==> s[i].next == At(s, i + 1))
  }

  /** The column state describes the sequence `s`. */
  ghost predicate Describes<T>(st: Column<T>, s: seq<Item<T>>) {
    st.count == |s| && st.first == At(s, 0) && st.last == At(s, |s| - 1) &&
    (if s == [] then st.current == null else st.current in s)
  }

  /** The believed index of the current record is its index. */
  ghost predicate CursorAgrees<T>(st: Column<T>, s: seq<Item<T>>) {
    s == [] || (st.cursor < |s| && s[st.cursor] == st.current)
  }

  /** Unsigned 32-bit decrement and increment, as the cursor index undergoes them. */
  function Dec(n: nat): nat {
    if n == 0 then TWO32 - 1 else n - 1
  }

  function Inc(n: nat): nat {
    if n == TWO32 - 1 then 0 else n + 1
  }

  /** Chains `p` behind the last record of `s`. */
  method ChainLast<T>(ghost s: seq<Item<T>>, last: Item?<T>, p: Item<T>)
    requires Linked(s) && p !in s && last == At(s, |s| - 1)
    modifies s`next, p`prev, p`next
    ensures Linked(s + [p])
    ensures forall x :: x in s && x != last ==> x.next == old(x.next)
  {
    if last != null {
      last.next := p;
    }
    p.prev := last;
    p.next := null;
  }

  lemma LinksAt<T>(s: seq<Item<T>>, k: nat)
    requires Linked(s) && k < |s|
    ensures s[k].prev == At(s, k - 1) && s[k].next == At(s, k + 1)
    ensures forall i :: 0 <= i < |s| && i != k ==> s[i] != s[k]
  {
  }

  /** The neighbours of record `k` are chained to each other, all others as before. */
  ghost predicate LinkedAround<T>(s: seq<Item<T>>, k: nat)
    reads s`prev, s`next
  {
    && (forall i {:trigger s[i].prev} :: 0 <= i < |s| && i != k ==>
          s[i].prev == At(s, if i == k + 1 then k - 1 else i - 1))
    && (forall i {:trigger s[i].next} :: 0 <= i < |s| && i != k ==>
          s[i].next == At(s, if i == k - 1 then k + 1 else i + 1))
  }

  lemma AtWithout<T>(s: seq<Item<T>>, k: nat, i: int)
    requires k < |s| && -1 <= i
    ensures At(Without(s, k), i) == At(s, if i < k then i else i + 1)
    ensures 0 <= i < |Without(s, k)| ==> Without(s, k)[i] == s[if i < k then i else i + 1]
  {
  }

  lemma LinkedWithout<T>(s: seq<Item<T>>, k: nat)
    requires k < |s| && Distinct(s) && LinkedAround(s, k)
    ensures Linked(Without(s, k))
  {
    hide At;
    hide Without;
    var r := Without(s, k);
    forall i | 0 <= i < |r| ensures r[i].prev == At(r, i - 1) && r[i].next == At(r, i + 1) {
      AtWithout(s, k, i - 1);
      AtWithout(s, k, i);
      AtWithout(s, k, i + 1);
    }
    forall i, j | 0 <= i < j < |r| ensures r[i] != r[j] {
      AtWithout(s, k, i);
      AtWithout(s, k, j);
    }
  }

  /** Chains the two neighbours of `p` to each other. */
  method Unchain<T>(ghost s: seq<Item<T>>, ghost k: nat, p: Item<T>)
    requires Linked(s) && k < |s| && s[k] == p
    modifies s`next, s`prev
    ensures Linked(Without(s, k))
    ensures p.prev == old(p.prev) && p.next == old(p.next)
  {
    LinksAt(s, k);
    if p.prev != null {
      p.prev.next := p.next;
    }
    if p.next != null {
      p.next.prev := p.prev;
    }
    LinkedWithout(s, k);
  }

  /** Chains `p` in front of the record at `k`. */
  method ChainBefore<T>(ghost s: seq<Item<T>>, ghost k: nat, p: Item<T>, before: Item?<T>, cur: Item<T>)
    requires Linked(s) && p !in s && k < |s| && cur == s[k] && before == At(s, k - 1)
    modifies s`next, s`prev, p`prev, p`next
    ensures Linked(Inserted(s, k, p))
  {
    if before != null {
      before.next := p;
    }
    p.prev := before;
    p.next := cur;
    cur.prev := p;
  }

  function Inserted<T>(s: seq<Item<T>>, k: nat, p: Item<T>): seq<Item<T>>
    requires k <= |s|
  {
    s[..k] + [p] + s[k..]
  }

  ghost function IndexOf<T>(s: seq<Item<T>>, x: Item<T>): (k: nat)
    requires x in s
    ensures k < |s| && s[k] == x
  {
    var k :| 0 <= k < |s| && s[k] == x;
    k
  }

  /** The columns after `x` went from column `b` to the end of column `c`. */
  ghost function Shifted<T>(cols: seq<seq<Item<T>>>, x: Item<T>, b: nat, c: nat): seq<seq<Item<T>>>
    requires b < |cols| && c < |cols| && x in cols[b]
  {
    if b == c then cols else cols[b := Without(cols[b], IndexOf(cols[b], x))][c := cols[c] + [x]]
  }

  /** Where a walk from the current record by the believed distance ends. */
  ghost function WalkEnd<T>(st: Column<T>, s: seq<Item<T>>, index: nat): int
    requires Describes(st, s) && s != []
  {
    IndexOf(s, st.current) + if st.cursor < |s| then index - st.cursor else 0
  }

  /** With the cursor in agreement a walk ends where it should; otherwise it does so
      only if the believed index is out of range and the current record is the one. */
  lemma WalkIsRight<T>(st: Column<T>, s: seq<Item<T>>, index: nat)
    requires Describes(st, s) && Distinct(s) && index < |s|
    ensures WalkEnd(st, s, index) == index <==>
      CursorAgrees(st, s) || (st.cursor >= |s| && s[index] == st.current)
  {
    var at := IndexOf(s, st.current);
    if st.cursor < |s| {
      assert WalkEnd(st, s, index) == at + (index - st.cursor);
      assert s[st.cursor] == st.current <==> st.cursor == at;
    } else {
      assert WalkEnd(st, s, index) == at;
      assert s[index] == st.current <==> index == at;
    }
  }

  /** The believed index after record `k` of `n` has left: removing the last one steps back. */
  function Shortened(cursor: nat, k: nat, n: nat): nat {
    if k + 1 == n then Dec(cursor) else cursor
  }

  /** The column state after the current record `p` was deleted. */
  function DelState<T>(st: Column<T>, p: Item<T>, before: Item?<T>, after: Item?<T>): Column<T> {
    var s1 := if after != null then st.(current := after) else st.(current := before);
    var s2 := if p == st.first then s1.(current := after, first := after) else s1;
    var s3 := if p == st.last then s2.(current := before, last := before, cursor := Dec(s2.cursor)) else s2;
    s3.(count := if s3.count > 0 then s3.count - 1 else TWO32 - 1)
  }

  lemma DelStateDescribes<T>(st: Column<T>, s: seq<Item<T>>, k: nat)
    requires Describes(st, s) && Distinct(s) && k < |s| && st.current == s[k]
    ensures var st' := DelState(st, s[k], At(s, k - 1), At(s, k + 1));
      var s' := Without(s, k);
      Describes(st', s') && st'.cursor == Shortened(st.cursor, k, |s|) && st'.current == At(s', if k < |s'| then k else k - 1) &&
      (CursorAgrees(st, s) ==> CursorAgrees(st', s'))
  {
    var s' := Without(s, k);
    assert k > 0 ==> s'[k - 1] == s[k - 1];
    assert k + 1 < |s| ==> s'[k] == s[k + 1];
  }

  /** The column state after the record `p` was removed by its index. */
  function RemState<T>(st: Column<T>, p: Item<T>, before: Item?<T>, after: Item?<T>): Column<T> {
    var s1 := if after != null then st.(current := after) else st;
    var s2 := if p == st.first then s1.(current := after, first := after) else s1;
    var s3 := if p == st.last then s2.(current := before, last := before, cursor := Dec(s2.cursor)) else s2;
    s3.(count := if s3.count > 0 then s3.count - 1 else TWO32 - 1)
  }

  lemma RemStateDescribes<T>(st: Column<T>, s: seq<Item<T>>, k: nat)
    requires Describes(st, s) && Distinct(s) && k < |s| && st.current == s[k]
    ensures var st' := RemState(st, s[k], At(s, k - 1), At(s, k + 1));
      var s' := Without(s, k);
      Describes(st', s') && st'.cursor == Shortened(st.cursor, k, |s|) && st'.current == At(s', if k < |s'| then k else k - 1) &&
      (st.cursor == k ==> CursorAgrees(st', s'))
  {
    var s' := Without(s, k);
    assert k > 0 ==> s'[k - 1] == s[k - 1];
    assert k + 1 < |s| ==> s'[k] == s[k + 1];
  }

  /** The column state after `p` was inserted for the index `index`. */
  function InsState<T>(st: Column<T>, index: nat, p: Item<T>): Column<T> {
    var s1 := if index == 0 then st.(first := p) else st;
    s1.(current := p, cursor := index, count := s1.count + 1)
  }

  lemma InsStateDescribes<T>(st: Column<T>, s: seq<Item<T>>, k: nat, index: nat, p: Item<T>)
    requires Describes(st, s) && k < |s| && (k == 0 <==> index == 0)
    ensures Describes(InsState(st, index, p), Inserted(s, k, p)) && InsState(st, index, p).current == p
    ensures k == index ==> CursorAgrees(InsState(st, index, p), Inserted(s, k, p))
  {
    assert Inserted(s, k, p)[k] == p;
  }

  /** The two walks of an insertion, to the index and to the one before it, end at neighbours. */
  ghost predicate WalksMeet<T>(st: Column<T>, s: seq<Item<T>>, index: nat)
    requires Describes(st, s) && s != []
  {
    st.cursor < |s| && 0 <= WalkEnd(st, s, index) < |s| && (WalkEnd(st, s, index) == 0 <==> index == 0)
  }

  /** The source column's state after `p` moved away. */
  function MovedFrom<T>(st: Column<T>, p: Item<T>, before: Item?<T>, after: Item?<T>): Column<T> {
    var s1 := if st.first == p then st.(first := after) else st;
    var s2 := if s1.last == p then s1.(last := before) else s1;
    var s3 := if s2.current != p then s2
      else if after != null then s2.(current := after)
      else if before != null then s2.(current := before)
      else s2.(current := s2.first);
    s3.(count := if s3.count > 0 then s3.count - 1 else TWO32 - 1)
  }

  /** The destination column's state after `p` moved in. */
  function MovedInto<T>(st: Column<T>, p: Item<T>): Column<T> {
    if st.count != 0 then st.(last := p, count := st.count + 1)
    else st.(first := p, last := p, current := p, count := st.count + 1)
  }

  /** The current record of `s` once the record at `k` has left. */
  function CurrentWithout<T>(s: seq<Item<T>>, k: nat, current: Item?<T>): Item?<T>
    requires k < |s|
  {
    if current != s[k] then current
    else if k + 1 < |s| then s[k + 1]
    else At(s, k - 1)
  }

  lemma MovedFromDescribes<T>(st: Column<T>, s: seq<Item<T>>, k: nat)
    requires Describes(st, s) && Distinct(s) && k < |s|
    ensures var st' := MovedFrom(st, s[k], At(s, k - 1), At(s, k + 1));
      Describes(st', Without(s, k)) && st'.cursor == st.cursor &&
      st'.current == CurrentWithout(s, k, st.current)
  {
    var s' := Without(s, k);
    assert k > 0 ==> s'[k - 1] == s[k - 1];
    assert k + 1 < |s| ==> s'[k] == s[k + 1];
    if st.current != s[k] {
      var j := IndexOf(s, st.current);
      assert s'[if j < k then j else j - 1] == st.current;
    }
  }

  lemma MovedIntoDescribes<T>(st: Column<T>, s: seq<Item<T>>, p: Item<T>)
    requires Describes(st, s)
    ensures Describes(MovedInto(st, p), s + [p])
  {
    assert (s + [p])[|s|] == p;
    if s != [] {
      assert (s + [p])[IndexOf(s, st.current)] == st.current;
    }
  }

  /** When the source cursor still agrees after a move: the record stood behind the
      cursor, or at it with another one following, or it was the only one. */
  lemma MoveKeepsCursor<T>(st: Column<T>, s: seq<Item<T>>, k: nat)
    requires Describes(st, s) && Distinct(s) && k < |s| && CursorAgrees(st, s)
    ensures CursorAgrees(MovedFrom(st, s[k], At(s, k - 1), At(s, k + 1)), Without(s, k)) <==>
      |s| == 1 || k > st.cursor || (k == st.cursor && k + 1 < |s|)
  {
    MovedFromDescribes(st, s, k);
    var s' := Without(s, k);
    if k < st.cursor && st.cursor < |s'| {
      assert s'[st.cursor] == s[st.cursor + 1];
    }
  }

  /** In the destination nothing changes for a cursor that agreed, but the first record
      of an empty column is found only if the believed index happens to be 0. */
  lemma MoveIntoCursor<T>(st: Column<T>, s: seq<Item<T>>, p: Item<T>)
    requires Describes(st, s) && CursorAgrees(st, s)
    ensures CursorAgrees(MovedInto(st, p), s + [p]) <==> s != [] || st.cursor == 0
  {
  }

  lemma IndexUnique<T>(s: seq<Item<T>>, k: nat)
    requires Distinct(s) && k < |s|
    ensures IndexOf(s, s[k]) == k
  {
  }

  lemma StepKeepsCursor<T>(st: Column<T>, s: seq<Item<T>>)
    requires Describes(st, s) && Distinct(s) && s != [] && CursorAgrees(st, s) && |s| <= TWO32
    ensures var k := IndexOf(s, st.current);
      (k + 1 < |s| ==> CursorAgrees(st.(current := s[k + 1], cursor := Inc(st.cursor)), s)) &&
      (k > 0 ==> CursorAgrees(st.(current := s[k - 1], cursor := Dec(st.cursor)), s))
  {
    IndexUnique(s, st.cursor);
  }

  function SumLengths<T>(cols: seq<seq<Item<T>>>): nat {
    if cols == [] then 0 else SumLengths(cols[..|cols| - 1]) + |cols[|cols| - 1]|
  }

  ghost function Elems<T>(s: seq<Item<T>>): set<Item<T>> {
    set x | x in s
  }

  lemma {:induction false} DistinctCount<T>(s: seq<Item<T>>)
    requires Distinct(s)
    ensures |Elems(s)| == |s|
  {
    if s != [] {
      var n := |s| - 1;
      DistinctCount(s[..n]);
      assert Elems(s) == Elems(s[..n]) + {s[n]};
      assert s[n] !in s[..n];
    }
  }

  lemma SumThree<T>(cols: seq<seq<Item<T>>>)
    requires |cols| == 3
    ensures SumLengths(cols) == |cols[0]| + |cols[1]| + |cols[2]|
  {
    var two := cols[..2];
    assert SumLengths(two) == SumLengths(two[..1]) + |two[1]|;
    assert two[..1] == [cols[0]];
    assert SumLengths([cols[0]]) == SumLengths([cols[0]][..0]) + |cols[0]|;
  }

  /** All records of all columns. */
  ghost function AllRecords<T>(cols: seq<seq<Item<T>>>): multiset<Item<T>> {
    if cols == [] then multiset{} else AllRecords(cols[..|cols| - 1]) + multiset(cols[|cols| - 1])
  }

  lemma {:induction false} AllRecordsUpdate<T>(cols: seq<seq<Item<T>>>, c: nat, s: seq<Item<T>>)
    requires c < |cols|
    ensures multiset(cols[c]) <= AllRecords(cols)
    ensures AllRecords(cols[c := s]) == AllRecords(cols) - multiset(cols[c]) + multiset(s)
  {
    var n := |cols| - 1;
    if c == n {
      assert cols[c := s][..n] == cols[..n];
    } else {
      assert cols[c := s][..n] == cols[..n][c := s];
      AllRecordsUpdate(cols[..n], c, s);
    }
  }

  /** A move neither loses nor duplicates a record. */
  lemma MoveConserves<T>(cols: seq<seq<Item<T>>>, b: nat, k: nat, c: nat)
    requires b < |cols| && c < |cols| && b != c && k < |cols[b]|
    ensures AllRecords(cols[b := Without(cols[b], k)][c := cols[c] + [cols[b][k]]]) == AllRecords(cols)
  {
    var x := cols[b][k];
    assert cols[b] == cols[b][..k] + [x] + cols[b][k + 1..];
    assert multiset(cols[b]) == multiset(Without(cols[b], k)) + multiset{x};
    AllRecordsUpdate(cols, b, Without(cols[b], k));
    AllRecordsUpdate(cols[b := Without(cols[b], k)], c, cols[c] + [x]);
  }

  /** The first record of a column, if it has one. */
  ghost function Front<T>(q: seq<Item<T>>): set<Item<T>> {
    if q == [] then {} else {q[0]}
  }

  class List<T> {
    const ncol: nat
    var state: seq<Column<T>>
    var ccol: nat
    ghost var cols: seq<seq<Item<T>>>
    ghost var repr: set<Item<T>>

    /** The columns hold exactly the records of `repr`, each in the column it names. */
    ghost predicate Members()
      reads this`cols, this`repr, repr`cxt, repr`col
    {
      |cols| == ncol &&
      (forall c, i :: 0 <= c < ncol && 0 <= i < |cols[c]| ==> cols[c][i] in repr && cols[c][i].col == c) &&
      (forall x :: x in repr ==> x.cxt == this && x.col < ncol) &&
      (forall x {:trigger cols[x.col]} :: x in repr ==> x in cols[x.col])
    }

    ghost predicate Chains()
      requires Members()
      reads this`cols, this`repr, repr`cxt, repr`col, repr`prev, repr`next
    {
      forall c :: 0 <= c < ncol ==> Linked(cols[c])
    }

    ghost predicate States()
      reads this`cols, this`state
    {
      |state| == |cols| == ncol &&
      forall c :: 0 <= c < ncol ==> Describes(state[c], cols[c])
    }

    ghost predicate Valid()
      reads this`cols, this`state, this`ccol, this`repr, repr`cxt, repr`col, repr`prev, repr`next
    {
      ccol < ncol && Members() && Chains() && States()
    }

    constructor (ncol: nat)
      requires ncol > 0
      ensures Valid() && this.ncol == ncol && ccol == 0 && repr == {}
      ensures cols == seq(ncol, _ => [])
      ensures |state| == ncol && forall c :: 0 <= c < ncol ==> state[c] == Column(null, null, null, 0, 0)
    {
      this.ncol := ncol;
      state := seq(ncol, _ => Column(null, null, null, 0, 0));
      cols := seq(ncol, _ => []);
      ccol := 0;
      repr := {};
    }

    /** What a client may know about one column. */
    lemma ColumnFacts(c: nat)
      requires Valid() && c < ncol
      ensures Distinct(cols[c])
      ensures forall x :: x in cols[c] ==> x in repr && x.col == c && x.cxt == this
      ensures forall x :: x in repr && x.col == c ==> x in cols[c]
    {
      assert Linked(cols[c]);
      forall x | x in repr && x.col == c ensures x in cols[c] {
        assert x in cols[x.col];
      }
    }

    /** The columns together have as many records as there are. */
    lemma CountAll()
      requires Valid()
      ensures |repr| == SumLengths(cols)
    {
      CountUpTo(ncol);
      assert cols[..ncol] == cols;
      assert RecordsUpTo(ncol) == repr by {
        forall x | x in repr ensures x in RecordsUpTo(ncol) {
          assert x in cols[x.col];
        }
      }
    }

    ghost function RecordsUpTo(c: nat): set<Item<T>>
      requires c <= ncol && Members()
      reads this`cols, this`repr, repr`cxt, repr`col
    {
      set x | x in repr && x.col < c
    }

    lemma {:induction false} CountUpTo(c: nat)
      requires Valid() && c <= ncol
      ensures |RecordsUpTo(c)| == SumLengths(cols[..c])
    {
      if c == 0 {
        assert RecordsUpTo(0) == {};
      } else {
        CountUpTo(c - 1);
        ColumnFacts(c - 1);
        DistinctCount(cols[c - 1]);
        var s := Elems(cols[c - 1]);
        assert RecordsUpTo(c) == RecordsUpTo(c - 1) + s;
        assert RecordsUpTo(c - 1) !! s;
        assert cols[..c][..c - 1] == cols[..c - 1];
      }
    }

    /** The first record of a column, as a move sees it. */
    lemma FirstFacts(c: nat)
      requires Valid() && c < ncol
      ensures |cols| == |state| == ncol
      ensures cols[c] != [] ==> var x := cols[c][0];
        x in repr && x.col == c && IndexOf(cols[c], x) == 0 && Without(cols[c], 0) == cols[c][1..]
    {
      ColumnFacts(c);
      if cols[c] != [] {
        IndexUnique(cols[c], 0);
      }
    }

    /** Columns have no record in common. */
    lemma Disjoint(c: nat, d: nat)
      requires Members() && c < ncol && d < ncol && c != d
      ensures forall x :: x in cols[c] ==> x !in cols[d]
    {
    }

    /** Chains `p` behind the last record of column `c`. */
    method Attach(c: nat, p: Item<T>)
      requires Valid() && c < ncol && p !in repr
      modifies repr`next, p`prev, p`next
      ensures Linked(cols[c] + [p])
      ensures forall d :: 0 <= d < ncol && d != c ==> Linked(cols[d])
    {
      forall d | 0 <= d < ncol && d != c ensures forall x :: x in cols[d] ==> x !in cols[c] {
        Disjoint(c, d);
      }
      ChainLast(cols[c], state[c].last, p);
      forall d | 0 <= d < ncol && d != c ensures Linked(cols[d]) {
        assert old(Linked(cols[d]));
      }
    }

    /** Records in the ghost state that `p`, already chained, has joined column `c`. */
    ghost method Join(c: nat, p: Item<T>)
      requires Members() && c < ncol
      requires p !in repr && p.cxt == this && p.col == c
      requires Linked(cols[c] + [p])
      requires forall d :: 0 <= d < ncol && d != c ==> Linked(cols[d])
      modifies this`cols, this`repr
      ensures Members() && Chains()
      ensures repr == old(repr) + {p} && cols == old(cols)[c := old(cols[c]) + [p]]
    {
      hide Linked;
      ghost var was := cols[c];
      cols := cols[c := cols[c] + [p]];
      repr := repr + {p};
      assert cols[c][|was|] == p;
      forall x | x in repr ensures x in cols[x.col] {
        if x != p {
          assert x in old(cols[x.col]);
        }
      }
    }

    /** Links the new record `p` behind the last one of the selected column and makes it current. */
    method Link(p: Item<T>)
      requires Valid() && p !in repr && p.cxt == this && p.col == ccol
      modifies this`state, this`cols, this`repr, repr`next, p`prev, p`next
      ensures Valid() && repr == old(repr) + {p}
      ensures cols == old(cols)[ccol := old(cols[ccol]) + [p]]
      ensures CursorAgrees(state[ccol], cols[ccol]) && state[ccol].current == p
      ensures OthersKept(state, old(state), ccol)
    {
      Attach(ccol, p);
      hide Linked;
      Join(ccol, p);
      hide Members;
      hide Chains;
      var st := state[ccol];
      state := state[ccol := Column(if st.first == null then p else st.first, p, p, st.count + 1, st.count)];
    }

    /** Adds a record at the end of the selected column.  `granted` is the allocator's answer. */
    method Add(data: T, granted: bool) returns (r: Item?<T>)
      requires Valid()
      modifies this`state, this`cols, this`repr, repr`next
      ensures Valid() && (r != null <==> granted)
      ensures r == null ==> state == old(state) && cols == old(cols) && repr == old(repr)
      ensures r != null ==> fresh(r) && r.data == data && r.col == ccol && repr == old(repr) + {r}
      ensures r != null ==> cols == old(cols)[ccol := old(cols[ccol]) + [r]] && CursorAgrees(state[ccol], cols[ccol])
      ensures r != null ==> state[ccol].current == r
      ensures OthersKept(state, old(state), ccol)
    {
      if !granted {
        return null;
      }
      var p := new Item(this, ccol, data);
      Link(p);
      hide Members;
      hide Chains;
      hide Describes;
      r := p;
    }

    // ----- Cursor movements -----

    method SetCursor(p: Item<T>, cursor: nat)
      requires Valid() && p in cols[ccol]
      modifies this`state
      ensures Valid() && state == old(state)[ccol := old(state[ccol]).(current := p, cursor := cursor)]
    {
      hide Members;
      hide Chains;
      state := state[ccol := state[ccol].(current := p, cursor := cursor)];
    }

    method First() returns (r: Item?<T>)
      requires Valid()
      modifies this`state
      ensures Valid() && OthersKept(state, old(state), ccol) && r == At(cols[ccol], 0)
      ensures state[ccol].current == r && CursorAgrees(state[ccol], cols[ccol])
      ensures r == null ==> state == old(state)
    {
      r := state[ccol].first;
      if r != null {
        SetCursor(r, 0);
      }
    }

    method Last() returns (r: Item?<T>)
      requires Valid()
      modifies this`state
      ensures Valid() && OthersKept(state, old(state), ccol) && r == At(cols[ccol], |cols[ccol]| - 1)
      ensures state[ccol].current == r && CursorAgrees(state[ccol], cols[ccol])
      ensures r == null ==> state == old(state)
    {
      r := state[ccol].last;
      if r != null {
        SetCursor(r, state[ccol].count - 1);
      }
    }

    method Current() returns (r: Item?<T>)
      requires Valid()
      ensures r == state[ccol].current && (r == null <==> cols[ccol] == [])
    {
      r := state[ccol].current;
    }

    method Count() returns (n: nat)
      requires Valid()
      ensures n == |cols[ccol]|
    {
      n := state[ccol].count;
    }

    method Select(c: nat)
      requires Valid()
      modifies this`ccol
      ensures Valid() && ccol == if c < ncol then c else old(ccol)
    {
      if c < ncol {
        ccol := c;
      }
    }

    /** Steps to the record behind the current one, if there is one. */
    method Next() returns (r: Item?<T>)
      requires Valid()
      modifies this`state
      ensures Valid() && (cols[ccol] == [] ==> r == null)
      ensures cols[ccol] != [] ==> r == At(cols[ccol], IndexOf(cols[ccol], old(state[ccol].current)) + 1)
      ensures state == if r == null then old(state)
        else old(state)[ccol := old(state[ccol]).(current := r, cursor := Inc(old(state[ccol].cursor)))]
      ensures old(CursorAgrees(state[ccol], cols[ccol])) && |cols[ccol]| <= TWO32 ==> CursorAgrees(state[ccol], cols[ccol])
    {
      var p := state[ccol].current;
      if p != null {
        StepLinks(p);
        assert Linked(cols[ccol]);
        if CursorAgrees(state[ccol], cols[ccol]) && |cols[ccol]| <= TWO32 {
          StepKeepsCursor(state[ccol], cols[ccol]);
        }
      }
      if p != null && p.next != null {
        SetCursor(p.next, Inc(state[ccol].cursor));
        r := p.next;
      } else {
        r := null;
      }
    }

    method Prev() returns (r: Item?<T>)
      requires Valid()
      modifies this`state
      ensures Valid() && (cols[ccol] == [] ==> r == null)
      ensures cols[ccol] != [] ==> r == At(cols[ccol], IndexOf(cols[ccol], old(state[ccol].current)) - 1)
      ensures state == if r == null then old(state)
        else old(state)[ccol := old(state[ccol]).(current := r, cursor := Dec(old(state[ccol].cursor)))]
      ensures old(CursorAgrees(state[ccol], cols[ccol])) && |cols[ccol]| <= TWO32 ==> CursorAgrees(state[ccol], cols[ccol])
    {
      var p := state[ccol].current;
      if p != null {
        StepLinks(p);
        assert Linked(cols[ccol]);
        if CursorAgrees(state[ccol], cols[ccol]) && |cols[ccol]| <= TWO32 {
          StepKeepsCursor(state[ccol], cols[ccol]);
        }
      }
      if p != null && p.prev != null {
        SetCursor(p.prev, Dec(state[ccol].cursor));
        r := p.prev;
      } else {
        r := null;
      }
    }

    /** The links of a record lead to its neighbours. */
    lemma StepLinks(p: Item<T>)
      requires Members() && Chains() && ccol < ncol && p in cols[ccol]
      ensures var k := IndexOf(cols[ccol], p);
        p.prev == At(cols[ccol], k - 1) && p.next == At(cols[ccol], k + 1)
    {
      assert Linked(cols[ccol]);
      var k := IndexOf(cols[ccol], p);
      assert cols[ccol][k].prev == p.prev && cols[ccol][k].next == p.next;
    }

    /** Finds a record by walking from the current one.  The walk counts from the believed
        index, so it must not leave the column. */
    method Get(index: nat) returns (r: Item?<T>)
      requires Valid()
      requires index < |cols[ccol]| ==> 0 <= WalkEnd(state[ccol], cols[ccol], index) < |cols[ccol]|
      modifies this`state
      ensures Valid() && OthersKept(state, old(state), ccol)
      ensures index >= |cols[ccol]| ==> r == null && state == old(state)
      ensures index < |cols[ccol]| ==>
        r == cols[ccol][WalkEnd(old(state[ccol]), cols[ccol], index)] &&
        state[ccol] == if old(state[ccol].cursor) < |cols[ccol]| then old(state[ccol]).(current := r, cursor := index)
          else old(state[ccol])
    {
      r := null;
      if index < state[ccol].count {
        r := Walk(index);
      }
    }

    method Walk(index: nat) returns (p: Item<T>)
      requires Valid() && index < |cols[ccol]|
      requires 0 <= WalkEnd(state[ccol], cols[ccol], index) < |cols[ccol]|
      modifies this`state
      ensures Valid() && p == cols[ccol][WalkEnd(old(state[ccol]), cols[ccol], index)]
      ensures state == if old(state[ccol].cursor) < |cols[ccol]|
        then old(state)[ccol := old(state[ccol]).(current := p, cursor := index)] else old(state)
    {
      hide Members;
      hide Chains;
      ghost var s := cols[ccol];
      var i := state[ccol].cursor;
      var count := state[ccol].count;
      p := state[ccol].current;
      ghost var at: int := IndexOf(s, p);
      ghost var start := i;
      ghost var shift := if i < count then at - i else 0;
      while i != index && i < count
        invariant state == old(state)
        invariant if start < count then i < count && 0 <= i + shift < |s| && p == s[i + shift]
          else i == start && p == s[at]
        decreases if i < index then index - i else i - index
      {
        if i > index {
          WalkLinks(s, i + shift);
          p := p.prev;
          i := i - 1;
          if i == 0 {
            break;
          }
        }
        if i < index {
          WalkLinks(s, i + shift);
          p := p.next;
          i := i + 1;
        }
      }
      if i == index {
        SetCursor(p, i);
      }
    }

    lemma WalkLinks(s: seq<Item<T>>, k: int)
      requires Members() && Chains() && ccol < ncol && s == cols[ccol] && 0 <= k < |s|
      ensures k > 0 ==> s[k].prev == s[k - 1]
      ensures k + 1 < |s| ==> s[k].next == s[k + 1]
    {
      assert Linked(cols[ccol]);
    }

    // ----- Removal -----

    lemma OthersInColumn(c: nat, k: nat)
      requires Members() && c < ncol && k < |cols[c]| && Distinct(cols[c])
      ensures forall x :: x in cols[c] && x != cols[c][k] ==> x in Without(cols[c], k)
      ensures cols[c][k] !in Without(cols[c], k)
    {
      var s := cols[c];
      forall x | x in s && x != s[k] ensures x in Without(s, k) {
        var j :| 0 <= j < |s| && s[j] == x;
        assert Without(s, k)[if j < k then j else j - 1] == x;
      }
    }

    /** Takes the record at `k` of column `c` out of the chain; its own links stay. */
    method Detach(c: nat, ghost k: nat, p: Item<T>)
      requires Valid() && c < ncol && k < |cols[c]| && p == cols[c][k]
      modifies repr`next, repr`prev
      ensures Linked(Without(cols[c], k))
      ensures forall d :: 0 <= d < ncol && d != c ==> Linked(cols[d])
      ensures p.prev == old(p.prev) && p.next == old(p.next)
    {
      forall d | 0 <= d < ncol && d != c ensures forall x :: x in cols[d] ==> x !in cols[c] {
        Disjoint(c, d);
      }
      Unchain(cols[c], k, p);
      forall d | 0 <= d < ncol && d != c ensures Linked(cols[d]) {
        assert old(Linked(cols[d]));
      }
    }

    /** Records in the ghost state that the record at `k`, already unchained, has left column `c`. */
    ghost method Leave(c: nat, k: nat)
      requires Members() && c < ncol && k < |cols[c]| && Distinct(cols[c])
      requires Linked(Without(cols[c], k))
      requires forall d :: 0 <= d < ncol && d != c ==> Linked(cols[d])
      modifies this`cols, this`repr
      ensures Members() && Chains()
      ensures repr == old(repr) - {old(cols[c][k])} && cols == old(cols)[c := Without(old(cols[c]), k)]
    {
      hide Linked;
      OthersInColumn(c, k);
      var p, was := cols[c][k], cols[c];
      cols := cols[c := Without(cols[c], k)];
      hide Distinct;
      repr := repr - {p};
      forall d, i | 0 <= d < ncol && 0 <= i < |cols[d]| ensures cols[d][i] in repr && cols[d][i].col == d {
        if d == c {
          assert cols[c][i] in was && cols[c][i] != p;
        }
      }
      forall x | x in repr ensures x in cols[x.col] {
        assert x in old(cols[x.col]);
      }
    }

    /** Takes the record at `k` of column `c` out of the list. */
    method Unlink(c: nat, ghost k: nat, p: Item<T>) returns (before: Item?<T>, after: Item?<T>)
      requires Valid() && c < ncol && k < |cols[c]| && p == cols[c][k]
      modifies this`cols, this`repr, repr`next, repr`prev
      ensures Members() && Chains()
      ensures repr == old(repr) - {p} && cols == old(cols)[c := Without(old(cols[c]), k)]
      ensures before == old(At(cols[c], k - 1)) && after == old(At(cols[c], k + 1))
    {
      assert Linked(cols[c]);
      assert p.prev == cols[c][k].prev && p.next == cols[c][k].next;
      before, after := p.prev, p.next;
      Detach(c, k, p);
      hide Linked;
      Leave(c, k);
    }

    /** The state of column `c` catches up with its records. */
    method Commit(c: nat, st: Column<T>)
      requires Members() && Chains() && ccol < ncol == |state| && c < ncol
      requires Describes(st, cols[c])
      requires forall d :: 0 <= d < ncol && d != c ==> Describes(state[d], cols[d])
      modifies this`state
      ensures Valid() && state == old(state)[c := st]
    {
      assert |cols| == ncol;
      hide Members;
      hide Chains;
      hide Describes;
      state := state[c := st];
    }

    /** Unlinks and forgets the current record, and makes a neighbour current. */
    method Del() returns (gone: Item?<T>)
      requires Valid()
      modifies this`state, this`cols, this`repr, repr`next, repr`prev, repr`cxt
      ensures Valid() && gone == old(state[ccol].current) && OthersKept(state, old(state), ccol)
      ensures gone == null ==> cols == old(cols) && repr == old(repr) && state == old(state)
      ensures gone != null ==> gone.cxt == null && repr == old(repr) - {gone}
      ensures gone != null ==> var k := IndexOf(old(cols[ccol]), gone);
        cols == old(cols)[ccol := Without(old(cols[ccol]), k)] &&
        state[ccol].current == At(cols[ccol], if k < |cols[ccol]| then k else k - 1) &&
        state[ccol].cursor == Shortened(old(state[ccol].cursor), k, |old(cols[ccol])|)
      ensures old(CursorAgrees(state[ccol], cols[ccol])) ==> CursorAgrees(state[ccol], cols[ccol])
    {
      gone := state[ccol].current;
      if gone != null {
        assert Linked(cols[ccol]);
        ghost var k := IndexOf(cols[ccol], gone);
        DelStateDescribes(state[ccol], cols[ccol], k);
        hide DelState;
        hide Shortened;
        hide Linked;
        hide CursorAgrees;
        var before, after := Unlink(ccol, k, gone);
        gone.cxt := null;
        hide Members;
        hide Chains;
        hide Describes;
        Commit(ccol, DelState(state[ccol], gone, before, after));
      }
    }

    /** A walk while the cursor agrees. */
    method Find(index: nat) returns (r: Item?<T>)
      requires Valid() && CursorAgrees(state[ccol], cols[ccol])
      modifies this`state
      ensures Valid() && r == At(cols[ccol], index) && CursorAgrees(state[ccol], cols[ccol])
      ensures state == if r == null then old(state)
        else old(state)[ccol := old(state[ccol]).(current := r, cursor := index)]
    {
      FindByIndex(index);
      r := Get(index);
      hide Members;
      hide Chains;
      hide Describes;
      assert r != null ==> state[ccol] == old(state[ccol]).(current := r, cursor := index);
    }

    /** With the cursor in agreement a walk finds the record of that index. */
    lemma FindByIndex(index: nat)
      requires Valid() && CursorAgrees(state[ccol], cols[ccol])
      ensures index < |cols[ccol]| ==> WalkEnd(state[ccol], cols[ccol], index) == index
      ensures cols[ccol] != [] ==> state[ccol].cursor < |cols[ccol]|
    {
      if index < |cols[ccol]| {
        assert Linked(cols[ccol]);
        WalkIsRight(state[ccol], cols[ccol], index);
      }
    }

    /** Removes the record that a walk to `index` ends at, which must not leave the column.  With
        the cursor in agreement it is the record at `index`, and the cursor agrees again. */
    method Rem(index: nat) returns (gone: Item?<T>)
      requires Valid()
      requires index < |cols[ccol]| ==> 0 <= WalkEnd(state[ccol], cols[ccol], index) < |cols[ccol]|
      modifies this`state, this`cols, this`repr, repr`next, repr`prev
      ensures Valid() && OthersKept(state, old(state), ccol) && (gone == null <==> index >= |old(cols[ccol])|)
      ensures gone == null ==> cols == old(cols) && repr == old(repr) && state == old(state)
      ensures gone != null ==> var k := WalkEnd(old(state[ccol]), old(cols[ccol]), index);
        gone == old(cols[ccol])[k] && repr == old(repr) - {gone} &&
        cols == old(cols)[ccol := Without(old(cols[ccol]), k)] &&
        state[ccol].current == At(cols[ccol], if k < |cols[ccol]| then k else k - 1) &&
        state[ccol].cursor == Shortened(if old(state[ccol].cursor) < |old(cols[ccol])| then index
                                        else old(state[ccol].cursor), k, |old(cols[ccol])|)
      ensures old(CursorAgrees(state[ccol], cols[ccol])) ==>
        gone == old(At(cols[ccol], index)) && CursorAgrees(state[ccol], cols[ccol])
    {
      RightWalk(index);
      hide *;
      gone := null;
      if index < state[ccol].count {
        gone := RemWalked(index, WalkEnd(state[ccol], cols[ccol], index));
      }
    }

    /** The walk to the record, which is then unlinked. */
    method RemWalked(index: nat, ghost k: nat) returns (gone: Item<T>)
      requires Valid() && index < |cols[ccol]| && k < |cols[ccol]| && k == WalkEnd(state[ccol], cols[ccol], index)
      modifies this`state, this`cols, this`repr, repr`next, repr`prev
      ensures Valid() && OthersKept(state, old(state), ccol)
      ensures gone == old(cols[ccol])[k] && repr == old(repr) - {gone}
      ensures cols == old(cols)[ccol := Without(old(cols[ccol]), k)]
      ensures state[ccol].current == At(cols[ccol], if k < |cols[ccol]| then k else k - 1)
      ensures state[ccol].cursor == Shortened(if old(state[ccol].cursor) < |old(cols[ccol])| then index
                                              else old(state[ccol].cursor), k, |old(cols[ccol])|)
      ensures old(state[ccol].cursor) < |old(cols[ccol])| && k == index ==> CursorAgrees(state[ccol], cols[ccol])
    {
      assert |state| == ncol == |cols|;
      hide Valid;
      hide Describes;
      hide WalkEnd;
      hide Without;
      hide Shortened;
      hide At;
      var found := Get(index);
      gone := found;
      TakeCurrent(gone, k);
    }

    lemma RightWalk(index: nat)
      requires Valid()
      ensures |cols| == |state| == ncol && ccol < ncol && Describes(state[ccol], cols[ccol])
      ensures CursorAgrees(state[ccol], cols[ccol]) && index < |cols[ccol]| ==>
        WalkEnd(state[ccol], cols[ccol], index) == index && state[ccol].cursor < |cols[ccol]|
      ensures index >= |cols[ccol]| ==> At(cols[ccol], index) == null
      ensures index < |cols[ccol]| ==>
        At(cols[ccol], index) == cols[ccol][index] &&
        (state[ccol].cursor >= |cols[ccol]| ==>
          state[ccol].current in cols[ccol] && cols[ccol][WalkEnd(state[ccol], cols[ccol], index)] == state[ccol].current)
    {
      if CursorAgrees(state[ccol], cols[ccol]) {
        FindByIndex(index);
      }
    }

    /** The second half of `Rem`: unlinks the current record. */
    method TakeCurrent(gone: Item<T>, ghost k: nat)
      requires Valid() && k < |cols[ccol]| && gone == cols[ccol][k] == state[ccol].current
      modifies this`state, this`cols, this`repr, repr`next, repr`prev
      ensures Valid() && OthersKept(state, old(state), ccol)
      ensures repr == old(repr) - {gone} && cols == old(cols)[ccol := Without(old(cols[ccol]), k)]
      ensures state[ccol].current == At(cols[ccol], if k < |cols[ccol]| then k else k - 1)
      ensures state[ccol].cursor == Shortened(old(state[ccol].cursor), k, |old(cols[ccol])|)
      ensures old(state[ccol].cursor) == k ==> CursorAgrees(state[ccol], cols[ccol])
    {
      assert Linked(cols[ccol]);
      RemStateDescribes(state[ccol], cols[ccol], k);
      hide RemState;
      hide Shortened;
      hide Linked;
      hide CursorAgrees;
      var before, after := Unlink(ccol, k, gone);
      hide Members;
      hide Chains;
      hide Describes;
      Commit(ccol, RemState(state[ccol], gone, before, after));
    }

    /** Chains the new record `p` in front of the record at `index` of the selected column. */
    method AttachBefore(ghost index: nat, p: Item<T>, before: Item?<T>, cur: Item<T>)
      requires Valid() && p !in repr
      requires index < |cols[ccol]| && cur == cols[ccol][index] && before == At(cols[ccol], index - 1)
      modifies repr`next, repr`prev, p`prev, p`next
      ensures Linked(Inserted(cols[ccol], index, p))
      ensures forall d :: 0 <= d < ncol && d != ccol ==> Linked(cols[d])
    {
      forall d | 0 <= d < ncol && d != ccol ensures forall x :: x in cols[d] ==> x !in cols[ccol] {
        Disjoint(ccol, d);
      }
      ChainBefore(cols[ccol], index, p, before, cur);
      forall d | 0 <= d < ncol && d != ccol ensures Linked(cols[d]) {
        assert old(Linked(cols[d]));
      }
    }

    /** Records in the ghost state that `p`, already chained, has joined column `c` at `k`. */
    ghost method JoinAt(c: nat, k: nat, p: Item<T>)
      requires Members() && c < ncol && k <= |cols[c]|
      requires p !in repr && p.cxt == this && p.col == c
      requires Linked(Inserted(cols[c], k, p))
      requires forall d :: 0 <= d < ncol && d != c ==> Linked(cols[d])
      modifies this`cols, this`repr
      ensures Members() && Chains()
      ensures repr == old(repr) + {p} && cols == old(cols)[c := Inserted(old(cols[c]), k, p)]
    {
      hide Linked;
      var was := cols[c];
      InsertedHolds(was, k, p);
      cols := cols[c := Inserted(cols[c], k, p)];
      repr := repr + {p};
      forall d, i | 0 <= d < ncol && 0 <= i < |cols[d]| ensures cols[d][i] in repr && cols[d][i].col == d {
        if d == c {
          assert cols[c][i] == p || cols[c][i] in was;
        }
      }
      hide Inserted;
      forall x | x in repr ensures x in cols[x.col] {
        if x != p {
          assert x in old(cols[x.col]);
        }
      }
    }

    lemma InsertedHolds(s: seq<Item<T>>, k: nat, p: Item<T>)
      requires k <= |s|
      ensures forall x :: x in Inserted(s, k, p) <==> x == p || x in s
    {
      assert s == s[..k] + s[k..];
    }

    /** Inserts a record in front of the one that a walk to `index` ends at.  With the cursor in
        agreement it is the record at `index`, and the cursor agrees again. */
    method Ins(index: nat, data: T, granted: bool) returns (r: Item?<T>)
      requires Valid() && (granted && index < |cols[ccol]| ==> WalksMeet(state[ccol], cols[ccol], index))
      modifies this`state, this`cols, this`repr, repr`next, repr`prev
      ensures Valid() && OthersKept(state, old(state), ccol)
      ensures r != null <==> granted && index < |old(cols[ccol])|
      ensures r == null ==> cols == old(cols) && repr == old(repr) && state == old(state)
      ensures r != null ==> fresh(r) && r.data == data && repr == old(repr) + {r}
      ensures r != null ==> var k := WalkEnd(old(state[ccol]), old(cols[ccol]), index);
        cols == old(cols)[ccol := Inserted(old(cols[ccol]), k, r)] && (k == index ==> CursorAgrees(state[ccol], cols[ccol]))
      ensures r != null ==> state[ccol].current == r
    {
      if index >= state[ccol].count || !granted {
        return null;
      }
      var p := new Item(this, ccol, data);
      InsItem(index, p);
      hide Members;
      hide Chains;
      hide Describes;
      hide CursorAgrees;
      r := p;
    }

    /** With the cursor in agreement the walks of an insertion end where they should. */
    lemma AgreedWalksMeet(index: nat)
      requires Valid() && CursorAgrees(state[ccol], cols[ccol]) && index < |cols[ccol]|
      ensures WalksMeet(state[ccol], cols[ccol], index) && WalkEnd(state[ccol], cols[ccol], index) == index
    {
      FindByIndex(index);
    }

    method InsItem(index: nat, p: Item<T>)
      requires Valid() && index < |cols[ccol]| && WalksMeet(state[ccol], cols[ccol], index)
      requires p !in repr && p.cxt == this && p.col == ccol
      modifies this`state, this`cols, this`repr, repr`next, repr`prev, p`prev, p`next
      ensures Valid() && OthersKept(state, old(state), ccol) && repr == old(repr) + {p}
      ensures var k := WalkEnd(old(state[ccol]), old(cols[ccol]), index);
        cols == old(cols)[ccol := Inserted(old(cols[ccol]), k, p)] && (k == index ==> CursorAgrees(state[ccol], cols[ccol]))
      ensures state[ccol].current == p
    {
      ghost var k := WalkEnd(state[ccol], cols[ccol], index);
      var before, cur := Neighbours(k, index);
      hide *;
      LinkBefore(k, index, p, before, cur);
    }

    /** The two walks of an insertion. */
    method Neighbours(ghost k: nat, index: nat) returns (before: Item?<T>, cur: Item<T>)
      requires Valid() && index < |cols[ccol]| && WalksMeet(state[ccol], cols[ccol], index)
      requires k == WalkEnd(state[ccol], cols[ccol], index)
      modifies this`state
      ensures Valid() && OthersKept(state, old(state), ccol)
      ensures cur == cols[ccol][k] && before == At(cols[ccol], k - 1)
    {
      cur := Get(index);
      OneBefore(k, index);
      hide Members;
      hide Chains;
      hide Describes;
      hide CursorAgrees;
      hide WalkEnd;
      before := null;
      if index > 0 {
        before := Get(index - 1);
      }
    }

    /** From the record at `k`, taken for the one at `index`, a walk one back ends at `k - 1`. */
    lemma OneBefore(k: nat, index: nat)
      requires Valid() && k < |cols[ccol]| && index < |cols[ccol]|
      requires state[ccol].current == cols[ccol][k] && state[ccol].cursor == index
      ensures index > 0 ==> WalkEnd(state[ccol], cols[ccol], index - 1) == k - 1
    {
      assert Linked(cols[ccol]);
      IndexUnique(cols[ccol], k);
    }

    method LinkBefore(ghost k: nat, index: nat, p: Item<T>, before: Item?<T>, cur: Item<T>)
      requires Valid() && p !in repr && p.cxt == this && p.col == ccol && (k == 0 <==> index == 0)
      requires k < |cols[ccol]| && cur == cols[ccol][k] && before == At(cols[ccol], k - 1)
      modifies this`state, this`cols, this`repr, repr`next, repr`prev, p`prev, p`next
      ensures Valid() && OthersKept(state, old(state), ccol)
      ensures repr == old(repr) + {p} && cols == old(cols)[ccol := Inserted(old(cols[ccol]), k, p)]
      ensures state[ccol].current == p && (k == index ==> CursorAgrees(state[ccol], cols[ccol]))
    {
      InsStateDescribes(state[ccol], cols[ccol], k, index, p);
      HookBefore(k, p, before, cur);
      hide *;
      Commit(ccol, InsState(state[ccol], index, p));
    }

    /** Chains `p` in front of the record at `index` and notes it in the ghost state. */
    method HookBefore(ghost index: nat, p: Item<T>, before: Item?<T>, cur: Item<T>)
      requires Valid() && p !in repr && p.cxt == this && p.col == ccol
      requires index < |cols[ccol]| && cur == cols[ccol][index] && before == At(cols[ccol], index - 1)
      modifies this`cols, this`repr, repr`next, repr`prev, p`prev, p`next
      ensures Members() && Chains()
      ensures repr == old(repr) + {p} && cols == old(cols)[ccol := Inserted(old(cols[ccol]), index, p)]
    {
      AttachBefore(index, p, before, cur);
      hide *;
      JoinAt(ccol, index, p);
    }

    // ----- Moving between columns -----

    /** Makes `x` the current record if it belongs to the selected column.  The believed
        index stays as it was. */
    method Sel(x: Item<T>) returns (r: bool)
      requires Valid() && (x.cxt == this ==> x in repr)
      modifies this`state
      ensures Valid() && r == (x in cols[ccol]) && r == (x in repr && x.col == ccol)
      ensures state == if r then old(state)[ccol := old(state[ccol]).(current := x)] else old(state)
    {
      r := false;
      if x.cxt == this && x.col == ccol {
        assert x in cols[x.col];
        SetCursor(x, state[ccol].cursor);
        r := true;
      }
    }

    /** Moves `x` from its column to the end of column `c`. */
    method Mov(x: Item<T>, c: nat) returns (r: bool)
      requires Valid() && (x.cxt == this ==> x in repr)
      modifies this`state, this`cols, this`repr, repr`next, repr`prev, x`next, x`prev, x`col
      ensures Valid() && repr == old(repr) && r == (x in repr && c != old(x.col) && c < ncol)
      ensures !r ==> cols == old(cols) && state == old(state) && x.col == old(x.col)
      ensures r ==> x.col == c && |state| == |old(state)|
      ensures r ==> var b := old(x.col);
        var k := IndexOf(old(cols[b]), x);
        cols == old(cols)[b := Without(old(cols[b]), k)][c := old(cols[c]) + [x]] &&
        state[b].current == CurrentWithout(old(cols[b]), k, old(state[b].current)) &&
        state[b].cursor == old(state[b].cursor)
      ensures r ==> state[c].current == (if old(cols[c]) == [] then x else old(state[c].current))
      ensures r ==> state[c].cursor == old(state[c].cursor)
      ensures r ==> forall d :: 0 <= d < ncol && d != c && d != old(x.col) ==> state[d] == old(state[d])
    {
      r := false;
      if x.cxt == this && c != x.col && c < ncol {
        var b := x.col;
        assert x in cols[b];
        TakeOut(b, x);
        if state[c].count != 0 {
          if state[c].last != null {
            PutLast(c, x);
            r := true;
          } else {
            assert false; // the branch for a damaged column
          }
        } else {
          PutLast(c, x);
          r := true;
        }
      }
    }

    /** The pair of calls all clients use: the first record of column `b` moves to column
        `c`.  If it was current, the next one is. */
    method MovFirst(b: nat, x: Item<T>, c: nat)
      requires Valid() && b < ncol && c < ncol && b != c && |cols| == ncol
      requires cols[b] != [] && cols[b][0] == x
      modifies this`state, this`cols, this`repr, repr`next, repr`prev, repr`col
      ensures Valid() && repr == old(repr) && |cols| == |state| == |old(state)| == ncol && x.col == c
      ensures forall y :: y in repr && y != x ==> y.col == old(y.col)
      ensures cols == old(cols)[b := old(cols[b])[1..]][c := old(cols[c]) + [x]]
      ensures old(state[b].current) == x ==> state[b].current == At(cols[b], 0)
    {
      hide *;
      FirstFacts(b);
      CurrentFacts(b);
      var moved := Mov(x, c);
      FirstFacts(b);
    }

    lemma CurrentFacts(b: nat)
      requires Valid() && b < ncol && |cols| == ncol && cols[b] != []
      ensures CurrentWithout(cols[b], 0, cols[b][0]) == At(cols[b][1..], 0)
    {
    }

    /** The first half of a move: unlinks `x` from column `b`. */
    method TakeOut(b: nat, x: Item<T>)
      requires Valid() && b < ncol && x in cols[b]
      modifies this`state, this`cols, this`repr, repr`next, repr`prev
      ensures Valid() && repr == old(repr) - {x} && OthersKept(state, old(state), b)
      ensures var k := IndexOf(old(cols[b]), x);
        cols == old(cols)[b := Without(old(cols[b]), k)] &&
        state[b].current == CurrentWithout(old(cols[b]), k, old(state[b].current)) &&
        state[b].cursor == old(state[b].cursor)
    {
      assert Linked(cols[b]);
      ghost var k := IndexOf(cols[b], x);
      MovedFromDescribes(state[b], cols[b], k);
      hide MovedFrom;
      hide Linked;
      var before, after := Unlink(b, k, x);
      hide Members;
      hide Chains;
      hide Describes;
      Commit(b, MovedFrom(state[b], x, before, after));
    }

    /** The second half: links `x` behind the last record of column `c`. */
    method PutLast(c: nat, x: Item<T>)
      requires Valid() && c < ncol && x !in repr && x.cxt == this
      modifies this`state, this`cols, this`repr, repr`next, x`prev, x`next, x`col
      ensures Valid() && repr == old(repr) + {x} && x.col == c && OthersKept(state, old(state), c)
      ensures cols == old(cols)[c := old(cols[c]) + [x]]
      ensures state[c].current == (if old(cols[c]) == [] then x else old(state[c].current))
      ensures state[c].cursor == old(state[c].cursor)
    {
      MovedIntoDescribes(state[c], cols[c], x);
      ghost var keeps := MovedInto(state[c], x);
      assert keeps.current == (if cols[c] == [] then x else state[c].current) && keeps.cursor == state[c].cursor;
      hide MovedInto;
      Attach(c, x);
      hide Linked;
      x.col := c;
      Join(c, x);
      hide Members;
      hide Chains;
      hide Describes;
      Commit(c, MovedInto(state[c], x));
    }

    // ----- Emptying a column -----

    /** Releases the records of the selected column from first to last. */
    method Clr() returns (ghost freed: seq<Item<T>>)
      requires Valid()
      modifies this`state, this`cols, this`repr
      ensures Valid() && OthersKept(state, old(state), ccol) && freed == old(cols[ccol])
      ensures cols == old(cols)[ccol := []] && repr == old(repr) - (set x | x in freed)
      ensures state[ccol] == Column(null, null, null, 0, 0) && CursorAgrees(state[ccol], cols[ccol])
    {
      freed := FreeAll();
      Forget();
      hide Members;
      hide Chains;
      state := state[ccol := Column(null, null, null, 0, 0)];
    }

    /** The loop of `Clr`; the release of a record does not show in the model. */
    method FreeAll() returns (ghost freed: seq<Item<T>>)
      requires Valid()
      modifies this`state
      ensures OthersKept(state, old(state), ccol) && freed == cols[ccol]
    {
      hide Linked;
      freed := [];
      var p := state[ccol].first;
      var i: nat := 0;
      while i < state[ccol].count
        invariant |state| == ncol && OthersKept(state, old(state), ccol)
        invariant state[ccol].count == |cols[ccol]| && i <= |cols[ccol]|
        invariant p == At(cols[ccol], i) && freed == cols[ccol][..i]
        decreases |cols[ccol]| - i
      {
        if p != null {
          LastLink(i);
          freed := freed + [p];
          p := p.next;
          state := state[ccol := state[ccol].(first := p)];
        } else {
          break;
        }
        i := i + 1;
      }
    }

    lemma LastLink(k: nat)
      requires Members() && Chains() && ccol < ncol && k < |cols[ccol]|
      ensures cols[ccol][k].next == At(cols[ccol], k + 1)
    {
      assert Linked(cols[ccol]);
    }

    /** Records in the ghost state that the selected column has lost its records. */
    ghost method Forget()
      requires Members() && Chains() && ccol < ncol
      modifies this`cols, this`repr
      ensures Members() && Chains()
      ensures cols == old(cols)[ccol := []] && repr == old(repr) - (set x | x in old(cols[ccol]))
    {
      forall d | 0 <= d < ncol && d != ccol ensures forall x :: x in cols[d] ==> x !in cols[ccol] {
        Disjoint(d, ccol);
      }
      var gone := set x | x in cols[ccol];
      forall d | 0 <= d < ncol ensures Linked(cols[d]) { }
      hide Linked;
      cols := cols[ccol := []];
      repr := repr - gone;
      assert Linked(cols[ccol]) by { EmptyLinked(); }
      forall x | x in repr ensures x in cols[x.col] {
        assert x in old(cols[x.col]);
      }
    }

    lemma EmptyLinked()
      ensures Linked<T>([])
    {
    }
  }
}
