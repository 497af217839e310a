// Whole runs of the zone allocator, seen as a map from the start of each live block to its size.
module ZoneRuns {
  import opened ZoneSizes
  import opened ZoneLayout
  import opened ZoneSearch
  import opened ZoneAllocator

  type Blocks = map<nat, nat>

  datatype Request = Ask(size: nat) | Return(ptr: nat, size: nat) | Check(ptr: nat, size: nat)

  function Sizes(live: map<nat, Block>): Blocks {
    map a | a in live :: live[a].size
  }

  ghost predicate Separate(blocks: Blocks) {
    && (forall a :: a in blocks ==> a >= PAGE_SIZE)
    && (forall a, b :: a in blocks && b in blocks && a != b ==> a + blocks[a] <= b || b + blocks[b] <= a)
  }

  // The address is in the first page of a block of this size.
  ghost predicate Inside(blocks: Blocks, ptr: nat, s: nat, a: nat) {
    a in blocks && blocks[a] == s && a <= ptr < a + s && ptr < a + PAGE_SIZE
  }

  ghost predicate Found(blocks: Blocks, ptr: nat, s: nat) {
    exists a :: Inside(blocks, ptr, s, a)
  }

  // The simple allocator: what each request may answer and which blocks are live afterwards.
  ghost predicate Step(before: Blocks, q: Request, answer: int, after: Blocks)
    requires 1 <= q.size <= MAX_REQUEST
  {
    match q
    case Ask(size) =>
      if answer == 0 then after == before
      else answer > 0 && answer !in before && after == before[answer as nat := Rounded(size)]
    case Return(ptr, size) =>
      if answer == 0 then exists a :: Inside(before, ptr, Rounded(size), a) && after == before - {a}
      else answer == 1 && !Found(before, ptr, Rounded(size)) && after == before
    case Check(ptr, size) =>
      answer == (if Found(before, ptr, Rounded(size)) then 1 else 0) && after == before
  }

  // Requests for memory that got none.
  function Nulls(requests: seq<Request>, answers: seq<int>): nat
    requires |requests| == |answers|
  {
    if requests == [] then 0
    else
      var k := |requests| - 1;
      Nulls(requests[..k], answers[..k]) + if requests[k].Ask? && answers[k] == 0 then 1 else 0
  }

  lemma InsideIsCovers(live: map<nat, Block>, ptr: nat, s: nat)
    ensures Found(Sizes(live), ptr, s) <==> Holds(live, ptr, s)
    ensures forall a :: Inside(Sizes(live), ptr, s, a) <==> Covers(live, ptr, s, a)
  {
    forall a ensures Inside(Sizes(live), ptr, s, a) <==> Covers(live, ptr, s, a) {
    }
  }

  lemma SizesSeparate(zones: Zones)
    requires zones.Valid()
    ensures Separate(Sizes(zones.live))
  {
    hide zones.Valid;
    zones.Safety();
    var live := zones.live;
    forall a, b | a in Sizes(live) && b in Sizes(live) && a != b
      ensures a + Sizes(live)[a] <= b || b + Sizes(live)[b] <= a
    {
      assert DoNotMeet(live, a, b);
    }
  }

  method Serve(zones: Zones, q: Request) returns (answer: int)
    requires zones.Valid() && 1 <= q.size <= MAX_REQUEST
    modifies zones`answers, zones`denied, zones`owned, zones`memory, zones`role, zones`chains, zones`live, zones.zones
    ensures zones.Valid()
    ensures Step(Sizes(old(zones.live)), q, answer, Sizes(zones.live))
    ensures zones.denied == old(zones.denied) + if q.Ask? && answer == 0 then 1 else 0
  {
    hide zones.Valid;
    hide Rounded;
    hide Holds;
    hide Covers;
    hide Found;
    hide Inside;
    match q
    case Ask(size) =>
      answer := zones.Alloc(size);
    case Return(ptr, size) =>
      InsideIsCovers(zones.live, ptr, Rounded(size));
      ghost var a;
      answer, a := zones.Free(ptr, size);
      assert answer == 0 ==> Sizes(zones.live) == Sizes(old(zones.live)) - {a};
    case Check(ptr, size) =>
      InsideIsCovers(zones.live, ptr, Rounded(size));
      answer := zones.Verify(ptr, size);
  }

  // Every run is a run of the simple allocator, its blocks always apart, and memory was refused exactly
  // as often as the page allocator refused.
  method Run(zones: Zones, requests: seq<Request>) returns (answers: seq<int>, ghost states: seq<Blocks>)
    requires zones.Valid() && forall q :: q in requests ==> 1 <= q.size <= MAX_REQUEST
    modifies zones`answers, zones`denied, zones`owned, zones`memory, zones`role, zones`chains, zones`live, zones.zones
    ensures zones.Valid()
    ensures |answers| == |requests| && |states| == |requests| + 1
    ensures states[0] == Sizes(old(zones.live)) && states[|requests|] == Sizes(zones.live)
    ensures forall k :: 0 <= k < |requests| ==> Step(states[k], requests[k], answers[k], states[k + 1])
    ensures forall k :: 0 <= k <= |requests| ==> Separate(states[k])
    ensures zones.denied == old(zones.denied) + Nulls(requests, answers)
  {
    hide zones.Valid;
    hide Step;
    hide Separate;
    answers, states := [], [Sizes(zones.live)];
    SizesSeparate(zones);
    while |answers| < |requests|
      invariant zones.Valid()
      invariant |answers| <= |requests| && |states| == |answers| + 1
      invariant states[0] == Sizes(old(zones.live)) && states[|answers|] == Sizes(zones.live)
      invariant forall k :: 0 <= k < |answers| ==> Step(states[k], requests[k], answers[k], states[k + 1])
      invariant forall k :: 0 <= k <= |answers| ==> Separate(states[k])
      invariant zones.denied == old(zones.denied) + Nulls(requests[..|answers|], answers)
    {
      var n := |answers|;
      var answer := Serve(zones, requests[n]);
      SizesSeparate(zones);
      assert requests[..n + 1][..n] == requests[..n] && (answers + [answer])[..n] == answers;
      answers := answers + [answer];
      states := states + [Sizes(zones.live)];
    }
    assert requests[..|answers|] == requests;
  }
}
