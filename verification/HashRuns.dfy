/** Whole runs of the hash map of core/mem/map_alg.c, against a plain map from digests to data. */
module HashRuns {
  import opened HashChains
  import opened HashMap

  type Plain = map<Digest, Data>

  /** A call of the map with the answers the allocator gives to it: `recordOk` for the record and
      `tableOk` for the larger table. */
  datatype Request =
    | Put(key: seq<Byte>, data: Data, recordOk: bool, tableOk: bool)
    | Replace(key: seq<Byte>, data: Data, recordOk: bool, tableOk: bool)
    | Look(key: seq<Byte>)
    | Forget(key: seq<Byte>)
    | Empty

  /** What a call does to the plain map and what data it hands out.  An empty key is not looked up:
      it is never found and never removed. */
  ghost predicate Step(digest: seq<Byte> -> Digest, before: Plain, q: Request, answer: Option<Data>, after: Plain) {
    match q
    case Put(key, data, recordOk, _) =>
      var d := if key == [] then ZERO_DIGEST else digest(key);
      if key != [] && d in before then answer == Some(before[d]) && after == before
      else Entered(before, d, data, recordOk, answer, after)
    case Replace(key, data, recordOk, _) =>
      Entered(Removed(digest, before, key), digest(key), data, recordOk, answer, after)
    case Look(key) => answer == (if key == [] then None else MapGet(before, digest(key))) && after == before
    case Forget(key) => answer == None && after == Removed(digest, before, key)
    case Empty => answer == None && after == map[]
  }

  /** A new record joins the map, unless its memory is refused or its digest is there. */
  ghost predicate Entered(before: Plain, d: Digest, data: Data, recordOk: bool, answer: Option<Data>, after: Plain) {
    if recordOk && d !in before then answer == Some(data) && after == before[d := data]
    else answer == None && after == before
  }

  ghost function Removed(digest: seq<Byte> -> Digest, before: Plain, key: seq<Byte>): Plain {
    if key == [] then before else before - {digest(key)}
  }

  /** One call: whatever the state of the table, it is a step of the plain map. */
  method Serve(m: Map, q: Request) returns (answer: Option<Data>)
    requires m.Valid()
    modifies m`table, m`records, m`view, m.table, m.table.slots, m.table.repr`next
    ensures m.Valid() && Step(m.digest, old(m.view), q, answer, m.view)
    ensures m.table == old(m.table) || (fresh(m.table) && fresh(m.table.slots))
    ensures fresh(m.table.repr - old(m.table.repr))
  {
    hide m.Valid;
    answer := None;
    match q
    case Put(key, data, recordOk, tableOk) =>
      var r := m.Add(key, data, recordOk, tableOk);
      if r != null {
        answer := Some(r.data);
      }
    case Replace(key, data, recordOk, tableOk) =>
      var r := m.Set(key, data, recordOk, tableOk);
      if r != null {
        answer := Some(r.data);
      }
      assert (old(m.view) - {m.digest(key)})[m.digest(key) := data] == old(m.view)[m.digest(key) := data];
    case Look(key) =>
      answer := m.Get(key);
    case Forget(key) =>
      m.Del(key);
    case Empty =>
      ghost var freed := m.Clr();
  }

  /** Each call of a run is a step of the plain map. */
  ghost predicate Follows(digest: seq<Byte> -> Digest, views: seq<Plain>, requests: seq<Request>,
                          answers: seq<Option<Data>>) {
    && |answers| == |requests| && |views| == |requests| + 1
    && forall k :: 0 <= k < |requests| ==> Step(digest, views[k], requests[k], answers[k], views[k + 1])
  }

  /** Every run of the map, in whatever order the calls come, however often the table grows and
      whatever memory is refused, is a run of the plain map with the same answers. */
  method Run(m: Map, requests: seq<Request>) returns (answers: seq<Option<Data>>, ghost views: seq<Plain>)
    requires m.Valid()
    modifies m`table, m`records, m`view, m.table, m.table.slots, m.table.repr`next
    ensures m.Valid() && Follows(m.digest, views, requests, answers)
    ensures views[0] == old(m.view) && views[|requests|] == m.view
  {
    hide m.Valid;
    hide Step;
    answers, views := [], [m.view];
    while |answers| < |requests|
      invariant m.Valid() && |answers| <= |requests|
      invariant m.table == old(m.table) || (fresh(m.table) && fresh(m.table.slots))
      invariant fresh(m.table.repr - old(m.table.repr))
      invariant Follows(m.digest, views, requests[..|answers|], answers)
      invariant views[0] == old(m.view) && views[|answers|] == m.view
    {
      var n := |answers|;
      var answer := Serve(m, requests[n]);
      answers := answers + [answer];
      views := views + [m.view];
    }
    assert requests[..|answers|] == requests;
  }

  /** The call may change what is filed under `d`. */
  ghost predicate Touches(digest: seq<Byte> -> Digest, q: Request, d: Digest) {
    match q
    case Put(key, _, _, _) => d == if key == [] then ZERO_DIGEST else digest(key)
    case Replace(key, _, _, _) => d == digest(key)
    case Look(_) => false
    case Forget(key) => key != [] && d == digest(key)
    case Empty => true
  }

  lemma StepKeeps(digest: seq<Byte> -> Digest, before: Plain, q: Request, answer: Option<Data>, after: Plain, d: Digest)
    requires Step(digest, before, q, answer, after) && !Touches(digest, q, d)
    ensures MapGet(after, d) == MapGet(before, d)
  {
  }

  lemma {:induction false} RunKeeps(digest: seq<Byte> -> Digest, views: seq<Plain>, requests: seq<Request>,
                                    answers: seq<Option<Data>>, i: nat, j: nat, d: Digest)
    requires Follows(digest, views, requests, answers) && i <= j <= |requests|
    requires forall k :: i <= k < j ==> !Touches(digest, requests[k], d)
    ensures MapGet(views[j], d) == MapGet(views[i], d)
    decreases j - i
  {
    hide Step;
    hide Touches;
    if i < j {
      RunKeeps(digest, views, requests, answers, i, j - 1, d);
      StepKeeps(digest, views[j - 1], requests[j - 1], answers[j - 1], views[j], d);
    }
  }

  /** What a call handed out for a key, put there by it or found, is what a later look at the key
      hands out, if no call in between was for that digest or emptied the map. */
  lemma LookFindsLast(digest: seq<Byte> -> Digest, views: seq<Plain>, requests: seq<Request>,
                      answers: seq<Option<Data>>, i: nat, j: nat)
    requires Follows(digest, views, requests, answers) && i < j < |requests|
    requires requests[i].Put? || requests[i].Replace? || requests[i].Look?
    requires requests[j].Look? && requests[i].key == requests[j].key != []
    requires forall k :: i < k < j ==> !Touches(digest, requests[k], digest(requests[j].key))
    ensures answers[j] == answers[i]
  {
    var d := digest(requests[j].key);
    RunKeeps(digest, views, requests, answers, i + 1, j, d);
    assert Step(digest, views[i], requests[i], answers[i], views[i + 1]);
    assert Step(digest, views[j], requests[j], answers[j], views[j + 1]);
  }
}
