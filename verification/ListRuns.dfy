/** Whole histories of one intrusive list of core/mem/ll_alg.c without `ll_sel` and `ll_mov`, seen
    as plain sequences with a position each.  In such a history every cursor agrees. */
module ListRuns {
  import opened LinkList

  /** The columns, the position of the current record in each (0 in an empty one), and which
      column is selected. */
  datatype Plain<T> = Plain(cols: seq<seq<Item<T>>>, at: seq<nat>, sel: nat)

  datatype Request<T> =
    | Append(data: T, granted: bool)
    | Insert(index: nat, data: T, granted: bool)
    | Remove(index: nat)
    | Delete
    | Erase
    | Forward
    | Back
    | ToFirst
    | ToLast
    | Fetch(index: nat)
    | Choose(c: nat)

  ghost predicate Shaped<T>(p: Plain<T>) {
    |p.at| == |p.cols| && p.sel < |p.cols|
  }

  /** The selected column becomes `s` with position `k`. */
  ghost function With<T>(p: Plain<T>, s: seq<Item<T>>, k: nat): Plain<T>
    requires Shaped(p)
  {
    p.(cols := p.cols[p.sel := s], at := p.at[p.sel := k])
  }

  /** A new record stands at `i`. */
  ghost predicate Enters<T>(p: Plain<T>, i: nat, answer: Item<T>, after: Plain<T>)
    requires Shaped(p)
  {
    && i <= |p.cols[p.sel]| && after == With(p, Inserted(p.cols[p.sel], i, answer), i)
    && forall c :: 0 <= c < |p.cols| ==> answer !in p.cols[c]
  }

  /** The record at `i` leaves, if there is one, and the one behind it becomes current, or the one
      in front of it. */
  ghost predicate Leaves<T>(p: Plain<T>, i: nat, answer: Item?<T>, after: Plain<T>)
    requires Shaped(p)
  {
    var s := p.cols[p.sel];
    if i < |s| then answer == s[i] && after == With(p, Without(s, i), Behind(i, |s| - 1))
    else answer == null && after == p
  }

  function Behind(i: nat, n: nat): nat {
    if i < n then i else if i > 0 then i - 1 else 0
  }

  /** The record at `i` becomes current, if there is one. */
  ghost predicate MovesTo<T>(p: Plain<T>, i: int, answer: Item?<T>, after: Plain<T>)
    requires Shaped(p)
  {
    var s := p.cols[p.sel];
    if 0 <= i < |s| then answer == s[i] && after == With(p, s, i as nat)
    else answer == null && after == p
  }

  /** What each call hands out and does. */
  ghost predicate Step<T>(p: Plain<T>, q: Request<T>, answer: Item?<T>, after: Plain<T>)
    requires Shaped(p)
  {
    var size, k := |p.cols[p.sel]|, p.at[p.sel];
    match q
    case Append(_, granted) =>
      if granted then answer != null && Enters(p, size, answer, after) else answer == null && after == p
    case Insert(i, _, granted) =>
      if granted && i < size then answer != null && Enters(p, i, answer, after) else answer == null && after == p
    case Remove(i) => Leaves(p, i, answer, after)
    case Delete => Leaves(p, k, answer, after)
    case Erase => answer == null && after == With(p, [], 0)
    case Forward => MovesTo(p, k + 1, answer, after)
    case Back => MovesTo(p, k as int - 1, answer, after)
    case ToFirst => MovesTo(p, 0, answer, after)
    case ToLast => MovesTo(p, size - 1, answer, after)
    case Fetch(i) => MovesTo(p, i, answer, after)
    case Choose(c) => answer == null && after == if c < |p.cols| then p.(sel := c) else p
  }

  // ----- The list as a plain value -----

  ghost predicate AllAgree<T>(state: seq<Column<T>>, cols: seq<seq<Item<T>>>) {
    |state| == |cols| && forall c :: 0 <= c < |cols| ==> CursorAgrees(state[c], cols[c])
  }

  ghost function Position<T>(st: Column<T>, s: seq<Item<T>>): nat {
    if st.current != null && st.current in s then IndexOf(s, st.current) else 0
  }

  ghost function Positions<T>(state: seq<Column<T>>, cols: seq<seq<Item<T>>>): seq<nat>
    requires |state| == |cols|
  {
    seq(|cols|, c requires 0 <= c < |cols| => Position(state[c], cols[c]))
  }

  ghost predicate Ready<T>(list: List<T>)
    reads list, list.repr
  {
    list.Valid() && |list.cols| == |list.state| && list.ccol < |list.cols| && AllAgree(list.state, list.cols)
  }

  ghost function Seen<T>(list: List<T>): (p: Plain<T>)
    requires |list.cols| == |list.state| && list.ccol < |list.cols|
    reads list
    ensures Shaped(p)
  {
    Plain(list.cols, Positions(list.state, list.cols), list.ccol)
  }

  /** The position of the current record of the selected column. */
  ghost function Current<T>(list: List<T>): nat
    requires Ready(list)
    reads list, list.repr
  {
    Position(list.state[list.ccol], list.cols[list.ccol])
  }

  /** What a call may rely on. */
  lemma Facts<T>(list: List<T>)
    requires Ready(list)
    ensures list.Valid() && |list.cols| == |list.state| == list.ncol && list.ccol < |list.cols|
    ensures AllAgree(list.state, list.cols)
    ensures var st, s := list.state[list.ccol], list.cols[list.ccol];
      && CursorAgrees(st, s) && Distinct(s) && |s| <= |list.repr| && st.current == At(s, Current(list))
      && (s == [] ==> Current(list) == 0 && forall i :: At(s, i) == null)
      && (s != [] ==> st.current != null && st.current in s && Current(list) == IndexOf(s, st.current) < |s|)
  {
    list.ColumnFacts(list.ccol);
    var s := list.cols[list.ccol];
    DistinctCount(s);
    FewerThan(Elems(s), list.repr);
  }

  lemma {:induction false} FewerThan<T>(a: set<T>, b: set<T>)
    requires a <= b
    ensures |a| <= |b|
  {
    if a != {} {
      var x :| x in a;
      FewerThan(a - {x}, b - {x});
    }
  }

  lemma PositionIs<T>(st: Column<T>, s: seq<Item<T>>, k: nat)
    requires Distinct(s) && (if s == [] then st.current == null && k == 0 else k < |s| && st.current == s[k])
    ensures Position(st, s) == k
  {
  }

  /** One column became `s` with position `k`; the others stayed. */
  lemma Landed<T>(state: seq<Column<T>>, cols: seq<seq<Item<T>>>, state': seq<Column<T>>, cols': seq<seq<Item<T>>>,
                  c: nat, s: seq<Item<T>>, k: nat)
    requires |state| == |cols| && c < |cols| && AllAgree(state, cols)
    requires OthersKept(state', state, c) && cols' == cols[c := s] && Distinct(s) && CursorAgrees(state'[c], s)
    requires if s == [] then state'[c].current == null && k == 0 else k < |s| && state'[c].current == s[k]
    ensures AllAgree(state', cols') && Positions(state', cols') == Positions(state, cols)[c := k]
  {
    hide Position;
    hide CursorAgrees;
    PositionIs(state'[c], s, k);
  }

  lemma NoCurrent<T>(list: List<T>)
    requires list.Valid() && list.ccol < |list.cols| && list.cols[list.ccol] == []
    ensures list.ccol < |list.state| && list.state[list.ccol].current == null
  {
  }

  /** The same for the list itself. */
  lemma Arrived<T>(list: List<T>, state: seq<Column<T>>, cols: seq<seq<Item<T>>>, s: seq<Item<T>>, k: nat)
    requires list.Valid() && list.ccol < |cols| == |state| == list.ncol && AllAgree(state, cols)
    requires OthersKept(list.state, state, list.ccol) && list.cols == cols[list.ccol := s]
    requires CursorAgrees(list.state[list.ccol], s)
    requires var x := list.state[list.ccol].current;
      if s == [] then k == 0 else k < |s| && x == s[k]
    ensures Ready(list) && Seen(list) == With(Plain(cols, Positions(state, cols), list.ccol), s, k)
  {
    list.ColumnFacts(list.ccol);
    if s == [] {
      NoCurrent(list);
    }
    Landed(state, cols, list.state, list.cols, list.ccol, s, k);
    hide Positions;
    hide AllAgree;
  }

  lemma Stayed<T>(list: List<T>, state: seq<Column<T>>, cols: seq<seq<Item<T>>>)
    requires list.Valid() && list.ccol < |cols| == |state| && AllAgree(state, cols)
    requires list.state == state && list.cols == cols
    ensures Ready(list) && Seen(list) == Plain(cols, Positions(state, cols), list.ccol)
  {
    hide Positions;
  }

  lemma PlainIs<T>(list: List<T>)
    requires Ready(list)
    ensures |list.cols| == |list.state| && list.ccol < |list.cols| && Shaped(Seen(list))
    ensures var p := Seen(list);
      && p == Plain(list.cols, Positions(list.state, list.cols), list.ccol)
      && p.at[p.sel] == Current(list)
  {
    hide AllAgree;
  }

  // ----- The calls, one by one -----

  lemma Entered<T>(list: List<T>, state: seq<Column<T>>, cols: seq<seq<Item<T>>>, i: nat, x: Item<T>)
    requires list.Valid() && list.ccol < |cols| == |state| == list.ncol && AllAgree(state, cols)
    requires OthersKept(list.state, state, list.ccol) && i <= |cols[list.ccol]|
    requires list.cols == cols[list.ccol := Inserted(cols[list.ccol], i, x)]
    requires list.state[list.ccol].current == x && CursorAgrees(list.state[list.ccol], list.cols[list.ccol])
    requires forall c :: 0 <= c < |cols| ==> x !in cols[c]
    ensures Ready(list) && Enters(Plain(cols, Positions(state, cols), list.ccol), i, x, Seen(list))
  {
    Arrived(list, state, cols, Inserted(cols[list.ccol], i, x), i);
    hide Positions;
    hide AllAgree;
    hide Inserted;
  }

  lemma AtEnd<T>(s: seq<Item<T>>, x: Item<T>)
    ensures Inserted(s, |s|, x) == s + [x]
  {
  }

  lemma Left<T>(list: List<T>, state: seq<Column<T>>, cols: seq<seq<Item<T>>>, i: nat, answer: Item?<T>)
    requires list.Valid() && list.ccol < |cols| == |state| == list.ncol && AllAgree(state, cols)
    requires answer == At(cols[list.ccol], i) && OthersKept(list.state, state, list.ccol)
    requires answer == null ==> list.state == state && list.cols == cols
    requires i < |cols[list.ccol]| ==> var rest := Without(cols[list.ccol], i);
      && list.cols == cols[list.ccol := rest] && CursorAgrees(list.state[list.ccol], rest)
      && list.state[list.ccol].current == At(rest, if i < |rest| then i else i - 1)
    ensures Ready(list) && Leaves(Plain(cols, Positions(state, cols), list.ccol), i, answer, Seen(list))
  {
    if i < |cols[list.ccol]| {
      Arrived(list, state, cols, Without(cols[list.ccol], i), Behind(i, |cols[list.ccol]| - 1));
    } else {
      Stayed(list, state, cols);
    }
    hide Positions;
    hide AllAgree;
    hide Without;
  }

  lemma Walked<T>(list: List<T>, state: seq<Column<T>>, cols: seq<seq<Item<T>>>, i: int, answer: Item?<T>)
    requires list.Valid() && list.ccol < |cols| == |state| == |list.state| == list.ncol && AllAgree(state, cols)
    requires answer == At(cols[list.ccol], i) && list.cols == cols
    requires answer == null ==> list.state == state
    requires OthersKept(list.state, state, list.ccol) || list.state == state[list.ccol := list.state[list.ccol]]
    requires answer != null ==>
      list.state[list.ccol].current == answer && CursorAgrees(list.state[list.ccol], cols[list.ccol])
    ensures Ready(list) && MovesTo(Plain(cols, Positions(state, cols), list.ccol), i, answer, Seen(list))
  {
    if answer != null {
      assert cols == cols[list.ccol := cols[list.ccol]];
      Arrived(list, state, cols, cols[list.ccol], i);
    } else {
      Stayed(list, state, cols);
    }
    hide Positions;
    hide AllAgree;
  }

  method ServeAppend<T>(list: List<T>, data: T, granted: bool) returns (answer: Item?<T>)
    requires Ready(list)
    modifies list`state, list`cols, list`repr, list.repr`next
    ensures Ready(list)
    ensures if granted then answer != null && Enters(old(Seen(list)), |old(list.cols[list.ccol])|, answer, Seen(list))
      else answer == null && Seen(list) == old(Seen(list))
    ensures answer != null ==> answer.data == data && fresh(answer)
    ensures fresh(list.repr - old(list.repr)) && |list.repr| <= |old(list.repr)| + 1
  {
    hide *;
    Facts(list);
    PlainIs(list);
    ghost var st, cols := list.state, list.cols;
    answer := list.Add(data, granted);
    if answer != null {
      AtEnd(cols[list.ccol], answer);
      Entered(list, st, cols, |cols[list.ccol]|, answer);
    } else {
      Stayed(list, st, cols);
    }
  }

  method ServeInsert<T>(list: List<T>, index: nat, data: T, granted: bool) returns (answer: Item?<T>)
    requires Ready(list)
    modifies list`state, list`cols, list`repr, list.repr`next, list.repr`prev
    ensures Ready(list)
    ensures if granted && index < |old(list.cols[list.ccol])|
      then answer != null && Enters(old(Seen(list)), index, answer, Seen(list))
      else answer == null && Seen(list) == old(Seen(list))
    ensures answer != null ==> answer.data == data && fresh(answer)
    ensures fresh(list.repr - old(list.repr)) && |list.repr| <= |old(list.repr)| + 1
  {
    hide *;
    Facts(list);
    PlainIs(list);
    ghost var st, cols := list.state, list.cols;
    if index < |list.cols[list.ccol]| {
      list.AgreedWalksMeet(index);
    }
    answer := list.Ins(index, data, granted);
    if answer != null {
      Entered(list, st, cols, index, answer);
    } else {
      Stayed(list, st, cols);
    }
  }

  method ServeRemove<T>(list: List<T>, index: nat) returns (answer: Item?<T>)
    requires Ready(list)
    modifies list`state, list`cols, list`repr, list.repr`next, list.repr`prev
    ensures Ready(list)
    ensures Leaves(old(Seen(list)), index, answer, Seen(list))
    ensures list.repr <= old(list.repr) && |list.repr| <= |old(list.repr)|
  {
    hide *;
    Facts(list);
    PlainIs(list);
    ghost var st, cols := list.state, list.cols;
    list.RightWalk(index);
    answer := list.Rem(index);
    Left(list, st, cols, index, answer);
    FewerThan(list.repr, old(list.repr));
  }

  method ServeDelete<T>(list: List<T>) returns (answer: Item?<T>)
    requires Ready(list)
    modifies list`state, list`cols, list`repr, list.repr`next, list.repr`prev, list.repr`cxt
    ensures Ready(list)
    ensures Leaves(old(Seen(list)), old(Current(list)), answer, Seen(list))
    ensures list.repr <= old(list.repr) && |list.repr| <= |old(list.repr)|
  {
    hide *;
    Facts(list);
    PlainIs(list);
    ghost var st, cols := list.state, list.cols;
    ghost var k := Current(list);
    answer := list.Del();
    Left(list, st, cols, k, answer);
    FewerThan(list.repr, old(list.repr));
  }

  method ServeErase<T>(list: List<T>) returns (answer: Item?<T>)
    requires Ready(list)
    modifies list`state, list`cols, list`repr
    ensures Ready(list)
    ensures answer == null && Seen(list) == With(old(Seen(list)), [], 0)
    ensures list.repr <= old(list.repr) && |list.repr| <= |old(list.repr)|
  {
    hide *;
    Facts(list);
    PlainIs(list);
    ghost var st, cols := list.state, list.cols;
    ghost var freed := list.Clr();
    answer := null;
    Arrived(list, st, cols, [], 0);
    FewerThan(list.repr, old(list.repr));
  }

  method ServeForward<T>(list: List<T>) returns (answer: Item?<T>)
    requires Ready(list) && |list.repr| <= TWO32
    modifies list`state
    ensures Ready(list)
    ensures MovesTo(old(Seen(list)), old(Current(list)) + 1, answer, Seen(list))
  {
    hide *;
    Facts(list);
    PlainIs(list);
    ghost var st, cols := list.state, list.cols;
    ghost var k := Current(list);
    answer := list.Next();
    Walked(list, st, cols, k + 1, answer);
  }

  method ServeBack<T>(list: List<T>) returns (answer: Item?<T>)
    requires Ready(list) && |list.repr| <= TWO32
    modifies list`state
    ensures Ready(list)
    ensures MovesTo(old(Seen(list)), old(Current(list)) as int - 1, answer, Seen(list))
  {
    hide *;
    Facts(list);
    PlainIs(list);
    ghost var st, cols := list.state, list.cols;
    ghost var k := Current(list);
    answer := list.Prev();
    Walked(list, st, cols, k as int - 1, answer);
  }

  method ServeToFirst<T>(list: List<T>) returns (answer: Item?<T>)
    requires Ready(list)
    modifies list`state
    ensures Ready(list)
    ensures MovesTo(old(Seen(list)), 0, answer, Seen(list))
  {
    hide *;
    Facts(list);
    PlainIs(list);
    ghost var st, cols := list.state, list.cols;
    answer := list.First();
    Walked(list, st, cols, 0, answer);
  }

  method ServeToLast<T>(list: List<T>) returns (answer: Item?<T>)
    requires Ready(list)
    modifies list`state
    ensures Ready(list)
    ensures MovesTo(old(Seen(list)), |old(list.cols[list.ccol])| - 1, answer, Seen(list))
  {
    hide *;
    Facts(list);
    PlainIs(list);
    ghost var st, cols := list.state, list.cols;
    answer := list.Last();
    Walked(list, st, cols, |cols[list.ccol]| - 1, answer);
  }

  method ServeFetch<T>(list: List<T>, index: nat) returns (answer: Item?<T>)
    requires Ready(list)
    modifies list`state
    ensures Ready(list)
    ensures MovesTo(old(Seen(list)), index, answer, Seen(list))
  {
    hide *;
    Facts(list);
    PlainIs(list);
    ghost var st, cols := list.state, list.cols;
    answer := list.Find(index);
    Walked(list, st, cols, index, answer);
  }

  method ServeChoose<T>(list: List<T>, c: nat) returns (answer: Item?<T>)
    requires Ready(list)
    modifies list`ccol
    ensures Ready(list)
    ensures answer == null
    ensures Seen(list) == if c < |old(list.cols)| then old(Seen(list)).(sel := c) else old(Seen(list))
  {
    hide *;
    Facts(list);
    PlainIs(list);
    ghost var st, cols := list.state, list.cols;
    answer := null;
    list.Select(c);
    Stayed(list, st, cols);
  }

  // ----- Histories -----

  method Serve<T>(list: List<T>, q: Request<T>) returns (answer: Item?<T>)
    requires Ready(list) && |list.repr| <= TWO32
    modifies list`state, list`cols, list`repr, list`ccol
    modifies list.repr`next, list.repr`prev, list.repr`cxt
    ensures Ready(list) && Step(old(Seen(list)), q, answer, Seen(list))
    ensures fresh(list.repr - old(list.repr)) && |list.repr| <= |old(list.repr)| + 1
    ensures answer != null ==> Holds(q, answer)
    ensures (q.Append? || q.Insert?) && answer != null ==> fresh(answer)
  {
    PlainIs(list);
    hide Ready;
    hide Seen;
    hide Current;
    hide Enters;
    hide Leaves;
    hide MovesTo;
    match q
    case Append(data, granted) => answer := ServeAppend(list, data, granted);
    case Insert(index, data, granted) => answer := ServeInsert(list, index, data, granted);
    case Remove(index) => answer := ServeRemove(list, index);
    case Delete => answer := ServeDelete(list);
    case Erase => answer := ServeErase(list);
    case Forward => answer := ServeForward(list);
    case Back => answer := ServeBack(list);
    case ToFirst => answer := ServeToFirst(list);
    case ToLast => answer := ServeToLast(list);
    case Fetch(index) => answer := ServeFetch(list, index);
    case Choose(c) => answer := ServeChoose(list, c);
  }

  /** Each call of a history is a step on plain sequences. */
  ghost predicate Follows<T>(plains: seq<Plain<T>>, requests: seq<Request<T>>, answers: seq<Item?<T>>) {
    && |answers| == |requests| && |plains| == |requests| + 1
    && (forall k :: 0 <= k < |plains| ==> Shaped(plains[k]))
    && (forall k :: 0 <= k < |requests| ==> Step(plains[k], requests[k], answers[k], plains[k + 1]))
  }

  /** The new records hold the data they were asked to hold. */
  ghost predicate Stored<T>(requests: seq<Request<T>>, answers: seq<Item?<T>>)
    requires |answers| == |requests|
    reads answers`data
  {
    forall k :: 0 <= k < |requests| && answers[k] != null ==> Holds(requests[k], answers[k])
  }

  ghost predicate Holds<T>(q: Request<T>, x: Item<T>)
    reads x`data
  {
    q.Append? || q.Insert? ==> x.data == q.data
  }

  lemma OneMore<T>(plains: seq<Plain<T>>, requests: seq<Request<T>>, answers: seq<Item?<T>>,
                   now: Plain<T>, answer: Item?<T>)
    requires |answers| < |requests| && Follows(plains, requests[..|answers|], answers) && Shaped(now)
    requires Step(plains[|answers|], requests[|answers|], answer, now)
    ensures Follows(plains + [now], requests[..|answers| + 1], answers + [answer])
  {
    hide Step;
  }

  lemma OneMoreStored<T>(requests: seq<Request<T>>, answers: seq<Item?<T>>, answer: Item?<T>)
    requires |answers| < |requests| && Stored(requests[..|answers|], answers)
    requires answer != null ==> Holds(requests[|answers|], answer)
    ensures Stored(requests[..|answers| + 1], answers + [answer])
  {
    hide Holds;
    var more := answers + [answer];
    forall k | 0 <= k <= |answers| && more[k] != null ensures Holds(requests[k], more[k]) {
      if k < |answers| {
        assert Holds(requests[..|answers|][k], answers[k]);
      }
    }
  }

  /** Every history of a list whose cursors agree is one on plain sequences with a position each,
      and they still agree at its end.  The indices have 32 bits, so there are never more than
      2^32 records. */
  method Run<T>(list: List<T>, requests: seq<Request<T>>)
      returns (answers: seq<Item?<T>>, ghost plains: seq<Plain<T>>)
    requires Ready(list) && |list.repr| + |requests| <= TWO32
    modifies list`state, list`cols, list`repr, list`ccol
    modifies list.repr`next, list.repr`prev, list.repr`cxt
    ensures Ready(list) && Follows(plains, requests, answers) && Stored(requests, answers)
    ensures plains[0] == old(Seen(list)) && plains[|requests|] == Seen(list)
  {
    hide *;
    PlainIs(list);
    answers, plains := [], [Seen(list)];
    NothingYet(plains[0]);
    var n := 0;
    while n < |requests|
      invariant 0 <= n <= |requests| && |answers| == n && |plains| == n + 1
      invariant Ready(list) && fresh(list.repr - old(list.repr)) && |list.repr| + |requests| - n <= TWO32
      invariant Follows(plains, requests[..n], answers) && Stored(requests[..n], answers)
      invariant |list.cols| == |list.state| && list.ccol < |list.cols|
      invariant plains[0] == old(Seen(list)) && plains[n] == Seen(list)
    {
      var answer := Serve(list, requests[n]);
      PlainIs(list);
      OneMore(plains, requests, answers, Seen(list), answer);
      OneMoreStored(requests, answers, answer);
      answers, plains := answers + [answer], plains + [Seen(list)];
      n := n + 1;
    }
    assert requests[..n] == requests;
  }

  lemma NothingYet<T>(p: Plain<T>)
    requires Shaped(p)
    ensures Follows([p], [], []) && Stored<T>([], [])
  {
  }

  /** A history from the very beginning. */
  method Begin<T>(ncol: nat, requests: seq<Request<T>>)
      returns (list: List<T>, answers: seq<Item?<T>>, ghost plains: seq<Plain<T>>)
    requires 0 < ncol && |requests| <= TWO32
    ensures Ready(list) && Follows(plains, requests, answers) && Stored(requests, answers)
    ensures plains[|requests|] == Seen(list)
    ensures plains[0] == Plain(seq(ncol, _ => []), seq(ncol, _ => 0), 0)
  {
    list := new List(ncol);
    AllEmpty(list);
    answers, plains := Run(list, requests);
  }

  lemma AllEmpty<T>(list: List<T>)
    requires list.Valid() && list.cols == seq(list.ncol, _ => []) && list.ccol == 0
    ensures Ready(list) && Seen(list) == Plain(list.cols, seq(list.ncol, _ => 0), 0)
  {
  }
}
