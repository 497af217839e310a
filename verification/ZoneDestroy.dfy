// zone_destroy of core/mem/zone.c: which pages it gives back. The entry index is set to 0 once for a
// whole chain, so only the first header page of a chain has its entries looked at.
module ZoneDestroy {
  import opened ZoneSizes
  import opened ZoneLayout
  import opened ZoneStates
  import opened ZoneChains
  import opened ZoneAllocator

  // The range has been given back when entry i of the first page of zone z, or page k of its chain, is
  // the next to be looked at.
  ghost predicate Gone(st: State, a: nat, z: nat, k: nat, i: nat)
    requires a in st.role
  {
    match st.role[a]
    case Table => false
    case Header(y, j) => y < z || (y == z && j < k)
    case Data(h, n) =>
      h in st.role && st.role[h].Header? && st.role[h].place == 0 &&
      (st.role[h].zone < z || (st.role[h].zone == z && n < i))
  }

  ghost function Remaining(st: State, z: nat, k: nat, i: nat): map<nat, nat> {
    map a | a in st.owned && a in st.role && !Gone(st, a, z, k, i) :: st.owned[a]
  }

  // The data of a header page that is not the first of its chain.
  ghost predicate Forgotten(st: State, a: nat) {
    a in st.role && st.role[a].Data? &&
    st.role[a].page in st.role && st.role[st.role[a].page].Header? && st.role[st.role[a].page].place > 0
  }

  ghost function Left(st: State): map<nat, nat> {
    map a | a in st.owned && Forgotten(st, a) :: st.owned[a]
  }

  // Every range has a role, every header page its place, every data range its entry.
  lemma RoleFacts(st: State, a: nat)
    requires Shape(st) && a in st.role
    ensures a in st.owned && (st.role[a].Table? ==> a == st.table && st.owned[a] == 1)
    ensures st.role[a].Header? ==> var z, k := st.role[a].zone, st.role[a].place;
      z < |st.chains| && k < |st.chains[z]| && st.chains[z][k] == a && st.owned[a] == 1
    ensures st.role[a].Data? ==> var h, i := st.role[a].page, st.role[a].entry;
      h in st.memory && i < 63 && st.memory[h].entries[i].data == a && h in st.role && st.role[h].Header?
  {
    hide DataPages;
    assert RoleOk(st.role[a], a, st.table, st.owned, st.memory, st.chains);
    if st.role[a].Data? {
      MemoryIsOwned(st, st.role[a].page);
    }
  }

  lemma SameKeys(st: State)
    requires Shape(st)
    ensures st.role.Keys == st.owned.Keys
  {
  }

  lemma TableRole(st: State)
    requires Shape(st)
    ensures st.table in st.role && st.role[st.table] == Table
  {
  }

  lemma NothingGone(st: State)
    requires Shape(st)
    ensures Remaining(st, 0, 0, 0) == st.owned
  {
    hide Shape;
    SameKeys(st);
  }

  // One entry of the first page.
  lemma EntryGone(st: State, z: nat, i: nat)
    requires Shape(st) && z < |st.chains| && |st.chains[z]| > 0 && i < 63 && st.chains[z][0] in st.memory
    ensures var d := st.memory[st.chains[z][0]].entries[i].data;
      && (d == 0 ==> Remaining(st, z, 0, i + 1) == Remaining(st, z, 0, i))
      && (d != 0 ==> d in Remaining(st, z, 0, i) && Remaining(st, z, 0, i + 1) == Remaining(st, z, 0, i) - {d})
  {
    hide Shape;
    var h := st.chains[z][0];
    var d := st.memory[h].entries[i].data;
    HeaderRole(st, z, 0);
    EntryFacts(st, h, i);
    ShapeRanges(st);
    NoZero(st.owned);
    hide Gone;
    forall a | a in st.role ensures Gone(st, a, z, 0, i + 1) <==> Gone(st, a, z, 0, i) || (d != 0 && a == d) {
      EntryGoneAt(st, z, i, a);
    }
    if d != 0 {
      EntryGoneAt(st, z, i, d);
      NotYetGone(st, z, i, d);
    }
  }

  lemma EntryGoneAt(st: State, z: nat, i: nat, a: nat)
    requires Shape(st) && z < |st.chains| && |st.chains[z]| > 0 && i < 63 && a in st.role
    requires st.chains[z][0] in st.memory
    ensures Gone(st, a, z, 0, i + 1) <==>
      Gone(st, a, z, 0, i) || (a != 0 && a == st.memory[st.chains[z][0]].entries[i].data)
  {
    hide Shape;
    HeaderRole(st, z, 0);
    EntryFacts(st, st.chains[z][0], i);
    RoleFacts(st, a);
    ShapeRanges(st);
    NoZero(st.owned);
    if st.role[a].Data? && st.role[a].page in st.role {
      RoleFacts(st, st.role[a].page);
    }
  }

  lemma NotYetGone(st: State, z: nat, i: nat, d: nat)
    requires d in st.role && st.role[d].Data? && st.role[d].entry == i
    requires st.role[d].page in st.role && st.role[st.role[d].page] == Header(z, 0)
    ensures !Gone(st, d, z, 0, i)
  {
  }

  // One header page.
  lemma PageGone(st: State, z: nat, k: nat)
    requires Shape(st) && z < |st.chains| && k < |st.chains[z]|
    ensures var h := st.chains[z][k];
      h in Remaining(st, z, k, 63) && st.owned[h] == 1 && Remaining(st, z, k + 1, 63) == Remaining(st, z, k, 63) - {h}
  {
    hide Shape;
    HeaderRole(st, z, k);
    RoleFacts(st, st.chains[z][k]);
    forall a | a in st.role ensures Gone(st, a, z, k + 1, 63) <==> Gone(st, a, z, k, 63) || a == st.chains[z][k] {
      RoleFacts(st, a);
    }
  }

  // The end of a chain.
  lemma ChainGone(st: State, z: nat)
    requires Shape(st) && z < |st.chains|
    ensures |st.chains[z]| > 0 ==> Remaining(st, z, |st.chains[z]|, 63) == Remaining(st, z + 1, 0, 0)
    ensures |st.chains[z]| == 0 ==> Remaining(st, z, 0, 0) == Remaining(st, z + 1, 0, 0)
  {
    hide Shape;
    var i := if |st.chains[z]| > 0 then 63 else 0;
    forall a | a in st.role ensures Gone(st, a, z, |st.chains[z]|, i) <==> Gone(st, a, z + 1, 0, 0) {
      RoleFacts(st, a);
      if st.role[a].Data? {
        RoleFacts(st, st.role[a].page);
      }
    }
  }

  // What is left when all chains are done and the table goes.
  lemma AllGone(st: State)
    requires Shape(st) && |st.chains| == MAX_ZONES
    ensures st.table in Remaining(st, MAX_ZONES, 0, 0) && st.owned[st.table] == 1
    ensures Remaining(st, MAX_ZONES, 0, 0) - {st.table} == Left(st)
  {
    hide Shape;
    SameKeys(st);
    TableRole(st);
    RoleFacts(st, st.table);
    forall a | a in st.role ensures !Gone(st, a, MAX_ZONES, 0, 0) && a != st.table <==> Forgotten(st, a) {
      RoleFacts(st, a);
      if st.role[a].Data? {
        RoleFacts(st, st.role[a].page);
      }
    }
  }

  // The number of pages that is given back for an entry is the number it came with: one in the zones up
  // to a page, and there the data size is one page as well.
  lemma PagesOfEntry(st: State, h: nat, i: nat)
    requires Shape(st) && h in st.memory && i < 63 && st.memory[h].entries[i].data != 0
    ensures var e := st.memory[h].entries[i];
      e.data in st.owned
      && st.owned[e.data] == if st.memory[h].objectSize > PAGE_SIZE then e.dataSize / PAGE_SIZE else 1
  {
    hide Shape;
    hide BitLength;
    var e, s := st.memory[h].entries[i], st.memory[h].objectSize;
    EntryFacts(st, h, i);
    assert End(st.owned, e.data) == e.data + DataPages(e, s) * PAGE_SIZE;
    if s == PAGE_SIZE && e.objects != 0 {
      OnePage(e.dataSize);
    }
  }

  lemma OnePage(size: nat)
    requires LargeOk(size, PAGE_SIZE)
    ensures size == PAGE_SIZE
  {
    PowValues();
    BitLengthBounds(PAGE_SIZE, 13);
    BitLengthBounds(size, 13);
    assert Pow2(13) == 2 * Pow2(12);
  }

  // The loop over the entries, from entry 0 of the first page of the chain on.
  method DestroyEntries(zones: Zones, z: nat, ghost st: State, page: nat)
    requires st.memory == zones.memory && Shape(st) && z < |st.chains| && |st.chains[z]| > 0
    requires page == st.chains[z][0] && page in st.memory && zones.owned == Remaining(st, z, 0, 0)
    modifies zones`owned
    ensures zones.owned == Remaining(st, z, 0, 63)
  {
    hide Shape;
    hide Remaining;
    var idx := 0;
    while idx < MAX_ENTRIES
      invariant idx <= 63 && zones.owned == Remaining(st, z, 0, idx)
    {
      var e := zones.memory[page].entries[idx];
      EntryGone(st, z, idx);
      if e.data != 0 {
        PagesOfEntry(st, page, idx);
        RemainingHas(st, z, 0, idx, e.data);
        var dataPages := 1;
        if zones.memory[page].objectSize > PAGE_SIZE {
          dataPages := e.dataSize / PAGE_SIZE;
        }
        zones.PageFree(e.data, dataPages);
      }
      idx := idx + 1;
    }
  }

  // destroy_zone_page: the entry index keeps its end value after the first page of the chain.
  method DestroyChain(zones: Zones, z: nat, ghost st: State)
    requires st.zones == zones.zones[..] && st.memory == zones.memory
    requires Shape(st) && z < |st.chains| && |st.chains[z]| > 0
    requires z < zones.zones.Length && zones.owned == Remaining(st, z, 0, 0)
    modifies zones`owned
    ensures zones.owned == Remaining(st, z, |st.chains[z]|, 63)
  {
    hide *;
    ChainFacts(st, z, 0);
    var first := zones.zones[z];
    FirstAt(st.chains[z]);
    var current := first;
    var idx := 0;
    ghost var k := 0;
    while current != 0
      invariant k <= |st.chains[z]| && current == At(st.chains[z], k) && (current == 0 <==> k == |st.chains[z]|)
      invariant idx == if k == 0 then 0 else 63
      invariant zones.owned == Remaining(st, z, k, idx)
      decreases |st.chains[z]| - k
    {
      IsAt(st.chains[z], k);
      ChainFacts(st, z, k);
      ChainFacts(st, z, k + 1);
      var next := zones.memory[current].next;
      if idx < 63 {
        DestroyEntries(zones, z, st, first);
        idx := 63;
      }
      PageGone(st, z, k);
      RemainingHas(st, z, k, 63, current);
      zones.PageFree(current, 1);
      current := next;
      k := k + 1;
    }
  }

  lemma FirstAt(chain: seq<nat>)
    ensures |chain| > 0 ==> At(chain, 0) == chain[0]
  {
  }

  lemma IsAt(chain: seq<nat>, k: nat)
    ensures k < |chain| ==> At(chain, k) == chain[k]
  {
  }

  lemma RemainingHas(st: State, z: nat, k: nat, i: nat, a: nat)
    requires a in Remaining(st, z, k, i)
    ensures a in st.owned && Remaining(st, z, k, i)[a] == st.owned[a]
  {
  }

  lemma NowIs(zones: Zones)
    requires zones.Valid()
    ensures var st := zones.Now();
      && Shape(st) && st.zones == zones.zones[..] && st.memory == zones.memory && st.owned == zones.owned
      && st.table == zones.table && st.live == zones.live
  {
  }

  // zone_destroy: everything goes back except the data of the later header pages.
  method Destroy(zones: Zones)
    requires zones.Valid()
    modifies zones`owned
    ensures zones.owned == Left(old(zones.Now()))
  {
    hide *;
    NowIs(zones);
    ghost var st := zones.Now();
    NothingGone(st);
    TableSize(st);
    var z: nat := 0;
    ZonesFit();
    while z < MAX_ZONES
      invariant z <= MAX_ZONES && zones.owned == Remaining(st, z, 0, 0)
    {
      ChainFacts(st, z, 0);
      ChainGone(st, z);
      if zones.zones[z] != 0 {
        DestroyChain(zones, z, st);
      }
      z := z + 1;
    }
    AllGone(st);
    RemainingHas(st, MAX_ZONES, 0, 0, st.table);
    zones.PageFree(zones.table, 1);
  }

  lemma ZonesFit()
    ensures MAX_ZONES == 512
  {
  }

  // The data of entry i of a later header page.
  ghost predicate LaterData(st: State, z: nat, k: nat, i: nat, a: nat) {
    && z < |st.chains| && 0 < k < |st.chains[z]| && i < 63 && st.chains[z][k] in st.memory
    && a != 0 && st.memory[st.chains[z][k]].entries[i].data == a
  }

  // The ranges that are lost are exactly the data of later header pages.
  lemma LostPages(st: State, a: nat)
    requires Shape(st)
    ensures a in Left(st) <==> exists z: nat, k: nat, i: nat :: LaterData(st, z, k, i, a)
  {
    hide Shape;
    SameKeys(st);
    ShapeRanges(st);
    NoZero(st.owned);
    if a in Left(st) {
      RoleFacts(st, a);
      var h := st.role[a].page;
      RoleFacts(st, h);
      assert LaterData(st, st.role[h].zone, st.role[h].place, st.role[a].entry, a);
    }
    forall z: nat, k: nat, i: nat | LaterData(st, z, k, i, a) ensures a in Left(st) {
      HeaderRole(st, z, k);
      EntryFacts(st, st.chains[z][k], i);
    }
  }

  ghost predicate LaterPageHasData(st: State) {
    exists z: nat, k: nat, i: nat, a: nat :: LaterData(st, z, k, i, a)
  }

  // Everything goes back exactly when no chain has data in a page behind its first.
  lemma AllGoesBackExactly(st: State)
    requires Shape(st)
    ensures Left(st) == map[] <==> !LaterPageHasData(st)
  {
    hide Shape;
    hide Left;
    hide LaterData;
    forall a: nat ensures a in Left(st) <==> exists z: nat, k: nat, i: nat :: LaterData(st, z, k, i, a) {
      LostPages(st, a);
    }
    if LaterPageHasData(st) {
      var z: nat, k: nat, i: nat, a: nat :| LaterData(st, z, k, i, a);
      assert a in Left(st);
    } else {
      assert forall a :: a !in Left(st);
    }
  }

  // ---------- when pages are certain to be lost ----------

  // The live blocks of one size.
  ghost function OfSize(live: map<nat, Block>, c: nat): set<nat> {
    set a | a in live && live[a].size == c
  }

  // The number of a block's place among all places of its header page.
  function Number(b: Block, places: nat): nat {
    b.entry * places + b.bit
  }

  lemma NumberGrows(b: Block, c: Block, places: nat)
    requires b.bit < places
    ensures b.entry < c.entry ==> Number(b, places) < Number(c, places)
  {
    if b.entry < c.entry {
      assert (b.entry + 1) * places <= c.entry * places;
    }
  }

  lemma NumberUnique(b: Block, c: Block, places: nat)
    requires b.bit < places && c.bit < places && Number(b, places) == Number(c, places)
    ensures b.entry == c.entry && b.bit == c.bit
  {
    NumberGrows(b, c, places);
    NumberGrows(c, b, places);
  }

  lemma NumberBounded(b: Block, places: nat)
    requires b.entry < 63 && b.bit < places
    ensures Number(b, places) < 63 * places
  {
    assert b.entry * places <= 62 * places;
  }

  // No more members than numbers, if no two have the same one.
  lemma {:induction false} Pigeonhole(s: set<nat>, number: map<nat, nat>, n: nat)
    requires forall a :: a in s ==> a in number && number[a] < n
    requires forall a, b :: a in s && b in s && number[a] == number[b] ==> a == b
    ensures |s| <= n
  {
    if s != {} {
      var last :| last in s;
      if a :| a in s && number[a] == n - 1 {
        last := a;
      }
      Pigeonhole(s - {last}, number[last := 0], n - 1);
    }
  }

  // While no later page has data, every block is on the first page of its zone.
  lemma OnFirstPage(st: State, a: nat)
    requires Shape(st) && a in st.live && !LaterPageHasData(st)
    ensures var b := st.live[a]; var z := BitLength(b.size);
      && z < |st.chains| && |st.chains[z]| > 0 && b.page == st.chains[z][0]
      && b.entry < 63 && b.bit < Places(b.size)
  {
    hide *;
    BlockFacts(st, a);
    var b := st.live[a];
    EntryFacts(st, b.page, b.entry);
    var e, s := st.memory[b.page].entries[b.entry], st.memory[b.page].objectSize;
    TakenPlace(e, s, b.bit);
    PlaceOfBlock(e, s, b.bit);
    var z, k := PageIsChained(st, b.page);
    if k > 0 {
      IsLater(st, z, k, b.entry, e.data);
    }
  }

  lemma PlaceOfBlock(e: Entry, s: nat, j: nat)
    requires SizeOk(s) && EntryOk(e, s) && Occupied(e, s, j)
    ensures j < Places(BlockSize(e, s))
  {
  }

  lemma IsLater(st: State, z: nat, k: nat, i: nat, a: nat)
    requires z < |st.chains| && 0 < k < |st.chains[z]| && i < 63 && st.chains[z][k] in st.memory
    requires a != 0 && st.memory[st.chains[z][k]].entries[i].data == a
    ensures LaterPageHasData(st)
  {
    assert LaterData(st, z, k, i, a);
  }

  lemma SameStart(st: State, a: nat, c: nat)
    requires Shape(st) && a in st.live && c in st.live
    requires st.live[a].page == st.live[c].page && st.live[a].entry == st.live[c].entry && st.live[a].bit == st.live[c].bit
    ensures a == c
  {
    hide *;
    BlockFacts(st, a);
    BlockFacts(st, c);
  }

  // With more live blocks of one size than a header page has places for, pages are certain to be lost.
  lemma TooManyForOnePage(st: State, c: nat)
    requires Shape(st) && |OfSize(st.live, c)| > 63 * Places(c)
    ensures LaterPageHasData(st)
  {
    hide Shape;
    hide LaterPageHasData;
    hide Places;
    hide Number;
    hide BitLength;
    if !LaterPageHasData(st) {
      var blocks := OfSize(st.live, c);
      var number := map a | a in blocks :: Number(st.live[a], Places(c));
      forall a | a in blocks ensures number[a] < 63 * Places(c) {
        OnFirstPage(st, a);
        NumberBounded(st.live[a], Places(c));
      }
      forall a, b | a in blocks && b in blocks && number[a] == number[b] ensures a == b {
        OnFirstPage(st, a);
        OnFirstPage(st, b);
        NumberUnique(st.live[a], st.live[b], Places(c));
        SameStart(st, a, b);
      }
      Pigeonhole(blocks, number, 63 * Places(c));
      assert false;
    }
  }

  // One block more.
  lemma OneMoreOfSize(was: map<nat, Block>, now: map<nat, Block>, a: nat, c: nat)
    requires a !in was && a in now && now == was[a := now[a]] && now[a].size == c
    ensures |OfSize(now, c)| == |OfSize(was, c)| + 1
  {
    assert OfSize(now, c) == OfSize(was, c) + {a};
  }

  lemma ManyAreLost(zones: Zones)
    requires zones.Valid() && |OfSize(zones.live, 4096)| > 63
    ensures Left(zones.Now()) != map[]
  {
    hide *;
    NowIs(zones);
    OnePlace();
    TooManyForOnePage(zones.Now(), 4096);
    AllGoesBackExactly(zones.Now());
  }

  lemma OnePlace()
    ensures Places(4096) == 1 && Rounded(4096) == 4096 && MAX_REQUEST >= 4096
  {
  }

  lemma NoneYet(live: map<nat, Block>)
    requires live == map[]
    ensures |OfSize(live, 4096)| == 0
  {
    assert OfSize(live, 4096) == {};
  }

  // A run that loses a page: nobody refuses anything, 64 blocks of a page are asked for, and the context
  // is destroyed.
  method LoseOne() returns (lost: map<nat, nat>)
    ensures lost != map[]
  {
    hide *;
    OnePlace();
    var zones := new Zones([]);
    var r := zones.Init();
    NoneYet(zones.live);
    var n := 0;
    while n < 64
      invariant n <= 64 && zones.Valid() && zones.answers == [] && zones.denied == 0
      invariant |OfSize(zones.live, 4096)| == n
    {
      ghost var was := zones.live;
      var a := zones.Alloc(4096);
      OneMoreOfSize(was, zones.live, a, 4096);
      n := n + 1;
    }
    ManyAreLost(zones);
    Destroy(zones);
    lost := zones.owned;
  }
}
