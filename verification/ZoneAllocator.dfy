// The zone allocator: zone_init, zone_alloc, zone_free and zone_verify of core/mem/zone.c.
module ZoneAllocator {
  import opened ZoneSizes
  import opened ZoneBitmap
  import opened ZoneLayout
  import opened ZoneSteps
  import opened ZoneStates
  import opened ZoneChains
  import opened ZoneFit
  import opened ZoneSearch

  // The state right after the zone table got its page.
  lemma StartShape(st: State)
    requires st.table >= PAGE_SIZE && |st.zones| == |st.chains| == MAX_ZONES
    requires forall z :: 0 <= z < MAX_ZONES ==> st.zones[z] == 0 && st.chains[z] == []
    requires st.memory == map[] && st.owned == map[st.table := 1]
    requires st.role == map[st.table := Table] && st.live == map[]
    ensures Shape(st)
  {
  }

  // An entry that is not full has a free place.
  lemma HasFreePlace(e: Entry, s: nat)
    requires SizeOk(s) && s < PAGE_SIZE && EntryOk(e, s) && e.objects < Places(s)
    ensures s > 0 && Places(s) == PAGE_SIZE / s && Places(s) <= 256
    ensures exists c: nat :: c < Places(s) && !On(e.bitmap, c)
  {
    hide On;
    PlacesFacts(s);
    FullExactlyWhenAllOn(e.bitmap, Places(s));
  }

  class Zones {
    // The page allocator: the addresses it will answer with, the ranges it has handed out, and how
    // often it refused.
    var answers: seq<nat>
    var denied: nat
    var owned: map<nat, nat>

    // The table of zones and the page it lives in, 0 before Init; the header pages by address.
    var table: nat
    const zones: array<nat>
    var memory: Memory

    ghost var chains: seq<seq<nat>>
    ghost var role: map<nat, Role>
    ghost var live: map<nat, Block>

    ghost function Now(): State
      reads this, zones
    {
      State(table, zones[..], memory, owned, chains, role, live)
    }

    ghost predicate Valid()
      reads this, zones
    {
      table != 0 && Shape(Now()) && Counted(memory) && InOrder(memory)
    }

    ghost predicate Fresh()
      reads this, zones
    {
      && table == 0 && zones.Length == MAX_ZONES && |chains| == MAX_ZONES
      && owned == map[] && memory == map[] && role == map[] && live == map[]
      && forall z :: 0 <= z < MAX_ZONES ==> chains[z] == []
    }

    constructor (answers: seq<nat>)
      ensures Fresh() && fresh(zones) && denied == 0 && this.answers == answers
    {
      this.answers, denied, owned := answers, 0, map[];
      table, zones, memory := 0, new nat[MAX_ZONES](_ => 0), map[];
      chains, role, live := seq(MAX_ZONES, _ => []), map[], map[];
    }

    // pf_page_alloc: its next answer when that is a range of its own, else nothing. When the script is
    // over there is always room above everything it has handed out.
    method PageAlloc(pages: nat) returns (a: nat)
      requires pages > 0 && Ranges(owned)
      modifies `answers, `denied, `owned
      ensures a == 0 ==> denied == old(denied) + 1 && owned == old(owned)
      ensures a != 0 ==> denied == old(denied) && Fits(old(owned), a, pages) && owned == old(owned)[a := pages]
      ensures old(answers) == [] ==> answers == [] && denied == old(denied)
    {
      if answers != [] {
        a, answers := answers[0], answers[1..];
      } else {
        a := Top();
      }
      if a >= PAGE_SIZE && forall b :: b in owned ==> a + pages * PAGE_SIZE <= b || b + owned[b] * PAGE_SIZE <= a {
        owned := owned[a := pages];
      } else {
        a, denied := 0, denied + 1;
      }
    }

    // The first address above all that was handed out.
    method Top() returns (a: nat)
      ensures a >= PAGE_SIZE && forall b :: b in owned ==> b + owned[b] * PAGE_SIZE <= a
    {
      a := PAGE_SIZE;
      var left: set<nat> := owned.Keys;
      while left != {}
        invariant left <= owned.Keys && a >= PAGE_SIZE
        invariant forall b :: b in owned && b !in left ==> b + owned[b] * PAGE_SIZE <= a
        decreases |left|
      {
        var b: nat :| b in left;
        if b + owned[b] * PAGE_SIZE > a {
          a := b + owned[b] * PAGE_SIZE;
        }
        left := left - {b};
      }
    }

    // pf_page_free, which wants exactly a range that was handed out.
    method PageFree(a: nat, pages: nat)
      requires a in owned && owned[a] == pages
      modifies `owned
      ensures owned == old(owned) - {a}
    {
      owned := owned - {a};
    }

    // zone_init: 0 for success. On a context that is in use it clears the table once more, so that all
    // chains are forgotten while their pages stay out.
    method Init() returns (r: int)
      requires Fresh() || Valid()
      modifies this, zones
      ensures old(Fresh()) && r == 0 ==> Valid() && live == map[] && memory == map[] && denied == old(denied)
      ensures old(Fresh()) && r != 0 ==> Fresh() && denied == old(denied) + 1
      ensures r == 0 ==> forall z :: 0 <= z < zones.Length ==> zones[z] == 0
      ensures old(Valid()) ==> r == 0 && unchanged(this)
      ensures old(answers) == [] ==> answers == [] && denied == old(denied)
    {
      r := -1;
      TableLength();
      if table == 0 {
        table := PageAlloc(1);
        role := if table == 0 then map[] else map[table := Table];
      }
      if table != 0 {
        ClearTable();
        r := 0;
        if old(table) == 0 {
          FirstState();
        }
      }
    }

    // _clear of the zone table.
    method ClearTable()
      requires zones.Length == MAX_ZONES
      modifies zones
      ensures forall z :: 0 <= z < zones.Length ==> zones[z] == 0
    {
      var i := 0;
      while i < MAX_ZONES
        invariant 0 <= i <= zones.Length
        invariant forall z :: 0 <= z < i ==> zones[z] == 0
      {
        zones[i] := 0;
        i := i + 1;
      }
    }

    lemma TableLength()
      requires Fresh() || Valid()
      ensures zones.Length == MAX_ZONES && (Fresh() <==> table == 0)
    {
      if Valid() {
        hide Shape;
        TableSize(Now());
      }
    }

    lemma FirstState()
      requires table >= PAGE_SIZE && zones.Length == |chains| == MAX_ZONES && owned == map[table := 1]
      requires memory == map[] && role == map[table := Table] && live == map[]
      requires forall z :: 0 <= z < MAX_ZONES ==> zones[z] == 0 && chains[z] == []
      ensures Valid()
    {
      StartShape(Now());
    }

    // _zone_page: the rounded size and the index of its zone, when the table has that index.
    method Zone(size: nat) returns (z: nat, aligned: nat, ok: bool)
      requires 1 <= size <= MAX_REQUEST
      ensures aligned == Rounded(size) && z == BitLength(aligned)
      ensures ok && z < MAX_ZONES
    {
      aligned := Align(size);
      RoundedIsLeast(size);
      ZoneOfClass(aligned);
      z := BitNumber(aligned);
      ok := z != 0 && z < MAX_ZONES;
    }

    // The page of an entry for small objects, fetched when the entry has none.
    method EntryPage(h: nat, i: nat) returns (data: nat)
      requires Shape(Now()) && h in memory && i < 63 && memory[h].objectSize < PAGE_SIZE
      modifies `answers, `denied, `owned, `memory, `role
      ensures Shape(Now())
      ensures memory == Put(old(memory), h, i, old(memory[h].entries[i]).(data := data))
      ensures data == 0 ==> denied == old(denied) + 1
      ensures data != 0 ==> denied == old(denied)
      ensures var had := old(memory[h].entries[i].data); had != 0 ==>
        data == had && owned == old(owned) && answers == old(answers) && denied == old(denied)
      ensures old(answers) == [] ==> answers == [] && denied == old(denied)
    {
      hide Shape;
      hide Ranges;
      hide Fits;
      data := memory[h].entries[i].data;
      PutBack(memory, h, i);
      if data == 0 {
        ShapeRanges(Now());
        ghost var before := Now();
        data := PageAlloc(1);
        if data != 0 {
          PageGivenKeeps(before, h, i, data);
          role := role[data := Data(h, i)];
        }
        memory := Put(memory, h, i, memory[h].entries[i].(data := data));
        assert data != 0 ==> Now() == PageGiven(before, h, i, data);
        assert data == 0 ==> Now() == before;
      }
    }

    // _zone_entry_alloc for objects smaller than a page: the first free place of the entry.
    method EntryPlace(h: nat, i: nat, s: nat) returns (r: nat)
      requires Shape(Now()) && h in memory && i < 63 && memory[h].objectSize == s < PAGE_SIZE
      requires memory[h].entries[i].objects < Places(s)
      modifies `answers, `denied, `owned, `memory, `role, `live
      ensures Shape(Now())
      ensures r == 0 ==> denied == old(denied) + 1 && live == old(live) && Filled(old(memory), memory, h, i, 0)
      ensures r != 0 ==> denied == old(denied) && Filled(old(memory), memory, h, i, 1)
      ensures r != 0 ==> r !in old(live) && r in live && live == old(live)[r := live[r]] && live[r].size == s
      ensures r != 0 ==> live[r].page == h && live[r].entry == i && FirstFree(old(memory[h].entries[i].bitmap), live[r].bit)
      ensures old(memory[h].entries[i].data) != 0 ==>
        r != 0 && owned == old(owned) && answers == old(answers) && denied == old(denied)
      ensures old(answers) == [] ==> answers == [] && denied == old(denied)
    {
      hide Shape;
      hide Filled;
      hide EntryOk;
      hide IsClass;
      var e := memory[h].entries[i];
      EntryFacts(Now(), h, i);
      HasFreePlace(e, s);
      var max := PAGE_SIZE / s;
      var bit, unit, unitBit := FirstClear(e.bitmap, max);
      assert FirstFree(e.bitmap, bit);
      hide FirstFree;
      var data := EntryPage(h, i);
      e := memory[h].entries[i];
      PutFills(old(memory), h, i, e, 0);
      r := 0;
      if data != 0 {
        ghost var before := memory;
        r := TakePlace(h, i, s, bit, unit, unitBit);
        FilledTwice(old(memory), before, memory, h, i, 0, 1);
      }
    }

    // The block at a free place of an entry that has its page: its bit and its counter.
    method TakePlace(h: nat, i: nat, s: nat, bit: nat, unit: nat, unitBit: nat) returns (r: nat)
      requires Shape(Now()) && h in memory && i < 63 && memory[h].objectSize == s < PAGE_SIZE
      requires memory[h].entries[i].data != 0 && bit < 256 && bit < Places(s) && !On(memory[h].entries[i].bitmap, bit)
      requires unit == bit / UNIT_BITS && unitBit == bit % UNIT_BITS
      modifies `memory, `live
      ensures Shape(Now()) && Filled(old(memory), memory, h, i, 1)
      ensures r != 0 && r !in old(live) && r in live && live == old(live)[r := Block(s, h, i, bit)]
    {
      hide Shape;
      hide Filled;
      hide On;
      hide Places;
      var e := memory[h].entries[i];
      r := e.data + bit * s;
      ghost var before := Now();
      TakenKeeps(before, h, i, bit);
      live := live[r := Block(s, h, i, bit)];
      var f := e.(bitmap := e.bitmap[unit := WithBit(e.bitmap[unit], unitBit)], objects := e.objects + 1);
      memory := Put(memory, h, i, f);
      assert Now() == Taken(before, h, i, bit);
      PutFills(before.memory, h, i, memory[h].entries[i], 1);
    }

    // _zone_entry_alloc for objects of a page or more: the whole entry.
    method EntryWhole(h: nat, i: nat, s: nat) returns (r: nat)
      requires Shape(Now()) && h in memory && i < 63 && memory[h].objectSize >= PAGE_SIZE
      requires LargeOk(s, memory[h].objectSize)
      requires memory[h].entries[i].objects < 1
      modifies `answers, `denied, `owned, `memory, `role, `live
      ensures Shape(Now())
      ensures r == 0 ==> denied == old(denied) + 1 && live == old(live) && Filled(old(memory), memory, h, i, 0)
      ensures r != 0 ==> denied == old(denied) && Filled(old(memory), memory, h, i, 1)
      ensures r != 0 ==> r !in old(live) && r in live && live == old(live)[r := live[r]] && live[r].size == s
      ensures r != 0 ==> live[r].page == h && live[r].entry == i && live[r].bit == 0
      ensures old(answers) == [] ==> answers == [] && denied == old(denied)
    {
      hide Shape;
      hide Filled;
      hide EntryOk;
      hide Ranges;
      hide Fits;
      ghost var before := Now();
      EntryFacts(before, h, i);
      PutBack(memory, h, i);
      var e := memory[h].entries[i];
      WholeIsBlank(e, memory[h].objectSize);
      r := 0;
      if e.objects == 0 {
        var data := e.data;
        if data == 0 {
          ShapeRanges(before);
          data := PageAlloc(s / PAGE_SIZE);
          e := e.(data := data);
        }
        if data != 0 {
          TakenWholeKeeps(before, h, i, data, s);
          r := data;
          e := e.(objects := 1, dataSize := s);
          role := role[r := Data(h, i)];
          live := live[r := Block(s, h, i, 0)];
        }
        memory := Put(memory, h, i, e);
        PutFills(before.memory, h, i, e, if r == 0 then 0 else 1);
        assert r != 0 ==> Now() == TakenWhole(before, h, i, r, s);
        assert r == 0 ==> Now() == before;
      }
    }

    // _zone_entry_alloc. In a zone of small objects all pages have the size asked for; in the others
    // the size only has the length of the zone.
    method EntryAlloc(h: nat, i: nat, s: nat) returns (r: nat)
      requires Shape(Now()) && h in memory && i < 63 && SizeOk(s) && SizeOk(memory[h].objectSize)
      requires BitLength(memory[h].objectSize) == BitLength(s)
      requires memory[h].entries[i].objects < Places(s)
      modifies `answers, `denied, `owned, `memory, `role, `live
      ensures Shape(Now())
      ensures r == 0 ==> denied == old(denied) + 1 && live == old(live) && Filled(old(memory), memory, h, i, 0)
      ensures r != 0 ==> denied == old(denied) && Filled(old(memory), memory, h, i, 1)
      ensures r != 0 ==> r !in old(live) && r in live && live == old(live)[r := live[r]] && live[r].size == s
      ensures r != 0 ==> live[r].page == h && live[r].entry == i
      ensures r != 0 ==> if s < PAGE_SIZE then FirstFree(old(memory[h].entries[i].bitmap), live[r].bit) else live[r].bit == 0
      ensures old(memory[h].objectSize) < PAGE_SIZE && old(memory[h].entries[i].data) != 0 ==>
        r != 0 && owned == old(owned) && answers == old(answers) && denied == old(denied)
      ensures old(answers) == [] ==> answers == [] && denied == old(denied)
    {
      hide Shape;
      hide Filled;
      hide IsClass;
      hide BitLength;
      SameZone(memory[h].objectSize, s);
      if s < PAGE_SIZE {
        r := EntryPlace(h, i, s);
      } else {
        r := EntryWhole(h, i, s);
      }
    }

    // The scan of _zone_page_alloc over the entries of a page that is not full.
    method FillPage(h: nat, s: nat) returns (r: nat)
      requires Valid() && h in memory && SizeOk(s) && PageOk(memory[h])
      requires BitLength(memory[h].objectSize) == BitLength(s)
      requires memory[h].objects != 63 * Places(memory[h].objectSize)
      modifies `answers, `denied, `owned, `memory, `role, `live
      ensures Valid()
      ensures r == 0 ==> denied == old(denied) + 1 && live == old(live)
      ensures r != 0 ==> denied == old(denied)
      ensures r != 0 ==> r !in old(live) && r in live && live == old(live)[r := live[r]] && live[r].size == s
      ensures r != 0 ==> live[r].page == h && FirstFit(old(memory[h]), live[r])
      ensures HasSpare(old(memory[h])) ==>
        r != 0 && owned == old(owned) && answers == old(answers) && denied == old(denied)
      ensures old(answers) == [] ==> answers == [] && denied == old(denied)
    {
      hide Shape;
      hide Filled;
      hide IsClass;
      hide BitLength;
      hide EntryOk;
      PageHasRoom(memory[h]);
      SameZone(memory[h].objectSize, s);
      SamePlaces(memory[h].objectSize, s);
      var maxEntryObjects := 1;
      if s < PAGE_SIZE {
        PlacesFacts(s);
        maxEntryObjects := PAGE_SIZE / s;
      }
      r := 0;
      var i := 0;
      while i < MAX_ENTRIES && !(memory[h].entries[i].objects < maxEntryObjects)
        invariant i <= MAX_ENTRIES
        invariant forall j :: 0 <= j < i ==> memory[h].entries[j].objects >= maxEntryObjects
      {
        i := i + 1;
      }
      if i < MAX_ENTRIES {
        ghost var before := memory;
        r := EntryAlloc(h, i, s);
        FilledPage(before, memory, h, i, if r == 0 then 0 else 1);
        FilledInOrder(before, memory, h, i, if r == 0 then 0 else 1);
        if r != 0 {
          ghost var now := Now();
          memory := memory[h := memory[h].(objects := memory[h].objects + 1)];
          RecountKeeps(now, memory);
        }
      }
    }

    // The page that _zone_page_alloc hooks behind the last page of a chain.
    method AppendPage(z: nat, last: nat, s: nat) returns (a: nat)
      requires Valid() && z < |chains| && |chains[z]| > 0 && last == chains[z][|chains[z]| - 1]
      requires SizeOk(s) && BitLength(s) == z
      modifies `answers, `denied, `owned, `memory, `role, `chains
      ensures Valid() && last in memory && memory[last].next == a
      ensures a == 0 ==> denied == old(denied) + 1 && chains == old(chains)
      ensures a != 0 ==> denied == old(denied) && chains == old(chains)[z := old(chains[z]) + [a]]
      ensures a != 0 ==> a !in old(memory) && a in memory && memory[a] == ClearPage(s)
      ensures a == 0 ==> memory == old(memory) && owned == old(owned)
      ensures old(answers) == [] ==> answers == [] && denied == old(denied)
    {
      hide Shape;
      hide Counted;
      hide IsClass;
      hide BitLength;
      hide Fits;
      hide Ranges;
      hide PageOk;
      ghost var before := Now();
      ChainFacts(before, z, |chains[z]| - 1);
      ShapeRanges(before);
      a := PageAlloc(1);
      if a != 0 {
        NextPageKeeps(before, z, last, a, s);
        GrownCounted(before.memory, NextPage(before, z, last, a, s).memory, a, s);
        role := role[a := Header(z, |chains[z]|)];
        chains := chains[z := chains[z] + [a]];
        memory := memory[last := memory[last].(next := a)];
        memory := memory[a := ClearPage(s)];
        assert Now() == NextPage(before, z, last, a, s);
      } else {
        memory := memory[last := memory[last].(next := a)];
        assert memory == before.memory;
        assert Now() == before;
      }
    }

    // zone_alloc for a zone without pages: its first header page.
    method FirstHeader(z: nat, s: nat) returns (a: nat)
      requires Valid() && z < MAX_ZONES && z < zones.Length && zones[z] == 0 && SizeOk(s) && BitLength(s) == z
      modifies `answers, `denied, `owned, `memory, `role, `chains, zones
      ensures Valid()
      ensures a == 0 ==> denied == old(denied) + 1 && chains == old(chains)
      ensures a != 0 ==> denied == old(denied) && z < |chains| && chains[z] == [a]
      ensures a != 0 ==> a !in old(memory) && memory == old(memory)[a := ClearPage(s)]
      ensures old(answers) == [] ==> answers == [] && denied == old(denied)
    {
      hide Shape;
      hide Counted;
      hide IsClass;
      hide BitLength;
      hide Fits;
      hide Ranges;
      hide PageOk;
      ghost var before := Now();
      ShapeRanges(before);
      TableSize(before);
      a := PageAlloc(1);
      if a != 0 {
        FirstPageKeeps(before, z, a, s);
        GrownCounted(before.memory, FirstPage(before, z, a, s).memory, a, s);
        memory := memory[a := ClearPage(s)];
        zones[z] := a;
        role := role[a := Header(z, 0)];
        chains := chains[z := [a]];
        assert Now() == FirstPage(before, z, a, s);
      } else {
        assert Now() == before;
      }
    }

    // The walk of _zone_page_alloc to the first page that is not full, with a new one if all are.
    method FindRoom(z: nat, s: nat) returns (h: nat)
      requires Valid() && z < |chains| && |chains[z]| > 0 && SizeOk(s) && BitLength(s) == z
      modifies `answers, `denied, `owned, `memory, `role, `chains
      ensures Valid() && (h == 0 ==> denied == old(denied) + 1) && (h != 0 ==> denied == old(denied))
      ensures h != 0 ==> h in memory && Standing(old(memory), old(chains[z]), s, memory, h)
      ensures h != 0 && h in old(memory) ==> owned == old(owned) && answers == old(answers)
      ensures h != 0 ==> PageOk(memory[h]) && BitLength(memory[h].objectSize) == z && !Full(memory[h])
      ensures h == 0 ==> FullUpTo(old(memory), old(chains[z]), |old(chains[z])|)
      ensures old(answers) == [] ==> answers == [] && denied == old(denied)
    {
      hide Shape;
      hide Counted;
      hide InOrder;
      hide IsClass;
      hide BitLength;
      hide PageOk;
      hide Places;
      hide FullUpTo;
      hide Full;
      MostOfPage(s);
      ChainFacts(Now(), z, 0);
      NoneFull(memory, chains[z]);
      ClearHasRoom(s);
      var maxObjects := MAX_ENTRIES;
      if s < PAGE_SIZE {
        maxObjects := (MAX_ENTRIES * PAGE_SIZE) / s;
      }
      h := zones[z];
      ghost var k := 0;
      ghost var grown := false;
      while h != 0 && memory[h].objects == maxObjects
        invariant Valid() && z < |chains| && 0 <= k <= |chains[z]| && |chains[z]| > 0 && h == At(chains[z], k)
        invariant h != 0 ==> h in memory && denied == old(denied)
        invariant h == 0 ==> denied == old(denied) + 1
        invariant old(answers) == [] ==> answers == [] && denied == old(denied)
        invariant !grown && h != 0 ==> Now() == old(Now()) && answers == old(answers)
        invariant !grown && h != 0 ==> FullUpTo(memory, chains[z], k)
        invariant grown || h == 0 ==> FullUpTo(old(memory), old(chains[z]), |old(chains[z])|)
        invariant grown && h != 0 ==> h !in old(memory) && memory[h] == ClearPage(s)
        decreases if grown then 0 else 1, |chains[z]| - k
      {
        ChainFacts(Now(), z, k);
        ChainFacts(Now(), z, k + 1);
        FullOne(memory, chains[z], k, s);
        if memory[h].next == 0 {
          var a := AppendPage(z, h, s);
          grown := a != 0;
        }
        h := memory[h].next;
        k := k + 1;
      }
      if h != 0 {
        ChainFacts(Now(), z, k);
        FullOne(memory, chains[z], k, s);
        Stands(old(memory), old(chains[z]), s, memory, h, k);
      }
    }

    // _zone_page_alloc: the first page of the chain that is not full, a new one if all are.
    method ChainAlloc(z: nat, s: nat) returns (r: nat)
      requires Valid() && z < |chains| && |chains[z]| > 0 && SizeOk(s) && BitLength(s) == z
      modifies `answers, `denied, `owned, `memory, `role, `chains, `live
      ensures Valid()
      ensures r == 0 ==> denied == old(denied) + 1 && live == old(live)
      ensures r != 0 ==> denied == old(denied)
      ensures r != 0 ==> r !in old(live) && r in live && live == old(live)[r := live[r]] && live[r].size == s
      ensures r != 0 ==> Served(old(memory), old(chains[z]), s, live[r])
      ensures SpareAhead(old(memory), old(chains[z])) ==>
        r != 0 && owned == old(owned) && answers == old(answers) && denied == old(denied)
      ensures old(answers) == [] ==> answers == [] && denied == old(denied)
    {
      hide *;
      r := 0;
      var h := FindRoom(z, s);
      if h != 0 {
        NotFull(memory[h]);
        ghost var now := memory;
        StandingMeans(old(memory), old(chains[z]), s, memory, h);
        r := FillPage(h, s);
        if r != 0 {
          ServedFrom(old(memory), old(chains[z]), s, now, live[r]);
        }
      } else {
        NoSpare(old(memory), old(chains[z]));
      }
    }

    // zone_alloc: a new block of the rounded size, or nothing exactly when the page allocator refused.
    method Alloc(size: nat) returns (r: nat)
      requires Valid() && 1 <= size <= MAX_REQUEST
      modifies `answers, `denied, `owned, `memory, `role, `chains, `live, zones
      ensures Valid()
      ensures r == 0 ==> denied == old(denied) + 1 && live == old(live)
      ensures r != 0 ==> denied == old(denied) && r !in old(live) && r in live
      ensures r != 0 ==> live == old(live)[r := live[r]] && live[r].size == Rounded(size)
      ensures BitLength(Rounded(size)) < |old(chains)|
      ensures var chain := old(chains)[BitLength(Rounded(size))];
        && (r != 0 ==> Served(old(memory), chain, Rounded(size), live[r]))
        && (SpareAhead(old(memory), chain) ==>
          r != 0 && owned == old(owned) && answers == old(answers) && denied == old(denied))
      ensures old(answers) == [] ==> answers == [] && denied == old(denied)
    {
      hide Shape;
      hide Counted;
      hide IsClass;
      hide BitLength;
      hide PageOk;
      hide Rounded;
      hide InOrder;
      hide Served;
      hide SpareAhead;
      r := 0;
      var z, s, ok := Zone(size);
      RoundedIsLeast(size);
      TableSize(Now());
      if ok {
        ChainFacts(Now(), z, 0);
        NoSpareInNone(memory);
        var page := zones[z];
        if page == 0 {
          page := FirstHeader(z, s);
        }
        if page != 0 {
          r := ChainAlloc(z, s);
        }
        if old(zones[z]) == 0 && r != 0 {
          ServedFirst(old(memory), page, s, live[r]);
        }
      }
    }

    // The scan that zone_free and zone_verify share: all entries of all pages of the chain.
    method Locate(z: nat, ptr: nat) returns (found: bool, h: nat, i: nat)
      requires Valid() && z < zones.Length && z < |chains|
      ensures found ==> h in memory && BitLength(memory[h].objectSize) == z && SizeOk(memory[h].objectSize)
      ensures found ==> i < 63 && Matches(memory[h].entries[i], ptr)
      ensures !found ==> forall s :: BitLength(s) == z ==> !Holds(live, ptr, s)
    {
      hide Shape;
      hide Counted;
      hide BitLength;
      hide IsClass;
      hide EntryOk;
      found, i := false, 0;
      ChainFacts(Now(), z, 0);
      h := zones[z];
      ghost var k := 0;
      while h != 0
        invariant k <= |chains[z]| && h == At(chains[z], k) && (h == 0 <==> k == |chains[z]|)
        invariant forall j, n {:trigger memory[chains[z][j]].entries[n]} ::
          0 <= j < k && 0 <= n < 63 && chains[z][j] in memory ==> !Matches(memory[chains[z][j]].entries[n], ptr)
        decreases |chains[z]| - k
      {
        ChainFacts(Now(), z, k);
        ChainFacts(Now(), z, k + 1);
        i := 0;
        while i < MAX_ENTRIES
          invariant i <= MAX_ENTRIES
          invariant forall n :: 0 <= n < i ==> !Matches(memory[h].entries[n], ptr)
        {
          if Matches(memory[h].entries[i], ptr) {
            found := true;
            return;
          }
          i := i + 1;
        }
        h := memory[h].next;
        k := k + 1;
      }
      forall s | BitLength(s) == z ensures !Holds(live, ptr, s) {
        NothingFound(Now(), z, ptr, s);
      }
    }

    // Whether the entry the scan stopped at has a live object of this size at the address.
    method Hit(h: nat, i: nat, ptr: nat, s: nat) returns (hit: bool, unit: nat, unitBit: nat, ghost a: nat)
      requires Valid() && h in memory && i < 63 && SizeOk(s) && SizeOk(memory[h].objectSize)
      requires Matches(memory[h].entries[i], ptr) && BitLength(memory[h].objectSize) == BitLength(s)
      ensures hit <==> Holds(live, ptr, s)
      ensures hit ==> Covers(live, ptr, s, a)
      ensures hit && s < PAGE_SIZE ==> memory[h].objectSize == s && unit < 4 && unitBit < 64
      ensures hit && s < PAGE_SIZE ==> unit * 64 + unitBit < Places(s) && On(memory[h].entries[i].bitmap, unit * 64 + unitBit)
      ensures hit && s < PAGE_SIZE ==> a == StartOf(memory[h].entries[i], s, unit * 64 + unitBit)
      ensures hit && s >= PAGE_SIZE ==> memory[h].objectSize >= PAGE_SIZE && memory[h].entries[i].objects != 0
      ensures hit && s >= PAGE_SIZE ==> memory[h].entries[i].dataSize == s && a == memory[h].entries[i].data
    {
      hide Shape;
      hide Counted;
      hide BitLength;
      hide IsClass;
      hide EntryOk;
      hide Bit;
      hide StartOf;
      hide InPlace;
      hide Places;
      hide Matches;
      hide Covers;
      hide Holds;
      SameZone(memory[h].objectSize, s);
      var e := memory[h].entries[i];
      hit, unit, unitBit, a := false, 0, 0, 0;
      if s < PAGE_SIZE {
        PlaceHit(e, s, ptr);
        var bit := (ptr - e.data) / s;
        var good;
        good, unit, unitBit := UnitBit(bit, PAGE_SIZE / s);
        SmallHit(Now(), h, i, ptr, bit);
        a := StartOf(e, s, bit);
        hit := good && Bit(e.bitmap[unit], unitBit);
      } else {
        LargeHit(Now(), h, i, ptr, s);
        a := e.data;
        hit := e.objects != 0 && e.dataSize == s;
      }
    }

    // zone_verify: 1 exactly when the address lies in a live block of that size class.
    method Verify(ptr: nat, size: nat) returns (r: int)
      requires Valid() && 1 <= size <= MAX_REQUEST
      ensures r == 1 <==> Holds(live, ptr, Rounded(size))
      ensures r == 0 || r == 1
    {
      hide Shape;
      hide Counted;
      hide BitLength;
      hide IsClass;
      hide Rounded;
      hide Holds;
      hide Matches;
      r := 0;
      var z, s, ok := Zone(size);
      RoundedIsLeast(size);
      TableSize(Now());
      if ok {
        var found, h, i := Locate(z, ptr);
        if found {
          var hit, unit, unitBit, a := Hit(h, i, ptr, s);
          if hit {
            r := 1;
          }
        }
      }
    }

    // zone_free of a small object: its bit and the two counters; the page of the entry stays.
    method ReleasePlace(h: nat, i: nat, unit: nat, unitBit: nat)
      requires Valid() && h in memory && i < 63 && memory[h].objectSize < PAGE_SIZE && unit < 4 && unitBit < 64
      requires unit * 64 + unitBit < Places(memory[h].objectSize)
      requires On(memory[h].entries[i].bitmap, unit * 64 + unitBit)
      modifies `memory, `live
      ensures Valid()
      ensures live == old(live) - {StartOf(old(memory[h].entries[i]), old(memory[h].objectSize), unit * 64 + unitBit)}
    {
      hide Shape;
      hide Filled;
      hide StartOf;
      hide Places;
      hide On;
      hide WithoutBit;
      ghost var before := Now();
      ghost var j := unit * 64 + unitBit;
      Split(j, unit, unitBit);
      GivenKeeps(before, h, i, j);
      var e := memory[h].entries[i];
      var f := e.(bitmap := e.bitmap[unit := WithoutBit(e.bitmap[unit], unitBit)], objects := e.objects - 1);
      Emptied(before.memory, h, i, f);
      live := live - {StartOf(e, memory[h].objectSize, j)};
      memory := Put(memory, h, i, f);
      assert Now() == Given(before, h, i, j);
      ghost var now := Now();
      memory := memory[h := memory[h].(objects := memory[h].objects - 1)];
      RecountKeeps(now, memory);
    }

    // zone_free of an object of a page or more: its pages go back.
    method ReleaseWhole(h: nat, i: nat, s: nat)
      requires Valid() && h in memory && i < 63 && memory[h].objectSize >= PAGE_SIZE
      requires memory[h].entries[i].objects != 0 && memory[h].entries[i].dataSize == s
      modifies `memory, `live, `owned, `role
      ensures Valid()
      ensures var a := old(memory[h].entries[i].data); live == old(live) - {a} && owned == old(owned) - {a}
    {
      hide Shape;
      hide Filled;
      hide EntryOk;
      ghost var before := Now();
      GivenWholeKeeps(before, h, i);
      EntryFacts(before, h, i);
      var e := memory[h].entries[i];
      WholeEntry(before, h, i);
      PageFree(e.data, s / PAGE_SIZE);
      var f := e.(data := 0, objects := 0, dataSize := 0);
      Emptied(before.memory, h, i, f);
      role := role - {e.data};
      live := live - {e.data};
      memory := Put(memory, h, i, f);
      assert Now() == GivenWhole(before, h, i);
      ghost var now := Now();
      memory := memory[h := memory[h].(objects := memory[h].objects - 1)];
      RecountKeeps(now, memory);
    }

    // zone_free: 0 exactly when the address lies in a live block of that size class, which is then the
    // only one to go; otherwise nothing changes. Pages go back only with an object of a page or more.
    method Free(ptr: nat, size: nat) returns (r: int, ghost a: nat)
      requires Valid() && 1 <= size <= MAX_REQUEST
      modifies `memory, `live, `owned, `role
      ensures Valid()
      ensures r == 0 <==> Holds(old(live), ptr, Rounded(size))
      ensures r == 0 ==> Covers(old(live), ptr, Rounded(size), a) && live == old(live) - {a}
      ensures r == 0 ==> forall b :: Covers(old(live), ptr, Rounded(size), b) ==> b == a
      ensures r == 0 ==> owned == if Rounded(size) < PAGE_SIZE then old(owned) else old(owned) - {a}
      ensures r != 0 ==> r == 1 && memory == old(memory) && live == old(live) && owned == old(owned)
    {
      hide Shape;
      hide Counted;
      hide BitLength;
      hide IsClass;
      hide Rounded;
      hide Holds;
      hide Covers;
      hide Matches;
      hide Places;
      hide On;
      hide StartOf;
      r, a := 1, 0;
      var z, s, ok := Zone(size);
      RoundedIsLeast(size);
      TableSize(Now());
      if ok {
        var found, h, i := Locate(z, ptr);
        if found {
          var hit, unit, unitBit;
          hit, unit, unitBit, a := Hit(h, i, ptr, s);
          if hit {
            CoversOnce(Now(), ptr, s, a);
            if s < PAGE_SIZE {
              ReleasePlace(h, i, unit, unitBit);
            } else {
              ReleaseWhole(h, i, s);
            }
            r := 0;
          }
        }
      }
    }

    // In every valid state the live blocks share no byte and lie in ranges the page allocator handed
    // out, from address 4096 up, one range for one role.
    lemma Safety()
      requires Valid()
      ensures forall a, b :: a in live && b in live && a != b ==> DoNotMeet(live, a, b)
      ensures forall a :: a in live ==> a >= PAGE_SIZE && InOwned(owned, a, live[a].size)
    {
      hide *;
      ValidShape();
      forall a, b | a in live && b in live && a != b ensures DoNotMeet(live, a, b) {
        BlocksAreDisjoint(Now(), a, b);
        MeetNot(live, a, b);
      }
      forall a | a in live ensures a >= PAGE_SIZE && InOwned(owned, a, live[a].size) {
        NoBlockBelow(Now(), a);
        var d := BlockInRange(Now(), a);
        OwnedBy(owned, a, live[a].size, d);
      }
    }

    // Each block lies where its header page says.
    lemma Address(a: nat)
      requires Valid() && a in live
      ensures live[a].page in memory && live[a].entry < 63 && Lies(live[a], a, memory, owned)
    {
      hide *;
      ValidShape();
      BlockLies(Now(), a);
      NowIs();
    }

    lemma NowIs()
      ensures Now().memory == memory && Now().live == live && Now().owned == owned
    {
    }

    lemma ValidShape()
      requires Valid()
      ensures Shape(Now()) && Now().live == live && Now().owned == owned
    {
    }

    // The counters: a header page counts its entries' objects, an entry of small objects its set bits.
    lemma Counters(h: nat, i: nat)
      requires Valid() && h in memory && i < 63
      ensures memory[h].objects == Sum(memory[h].entries, 63)
      ensures SizeOk(memory[h].objectSize) && Places(memory[h].objectSize) <= 256
      ensures memory[h].objectSize < PAGE_SIZE ==>
        memory[h].entries[i].objects == Count(memory[h].entries[i].bitmap, Places(memory[h].objectSize))
      ensures memory[h].objectSize >= PAGE_SIZE ==> memory[h].entries[i].objects <= 1
    {
      hide Shape;
      hide IsClass;
      EntryFacts(Now(), h, i);
      PlacesFacts(memory[h].objectSize);
    }

    // Every range that is not free is the zone table, a header page of a chain, or the data of an entry.
    lemma NothingLost(a: nat)
      requires Valid() && a in owned
      ensures a == table || (a in memory && owned[a] == 1) || exists h, i :: IsDataOf(memory, h, i, a)
    {
      hide Linked;
      hide Ranges;
      hide PagesOk;
      hide LiveOk;
      hide DataPages;
      assert RoleOk(role[a], a, table, owned, memory, chains);
      if role[a].Data? {
        assert IsDataOf(memory, role[a].page, role[a].entry, a);
      } else if role[a].Header? {
        HeaderIsMapped(role[a].zone, role[a].place);
      }
    }

    lemma HeaderIsMapped(z: nat, k: nat)
      requires Valid() && z < |chains| && k < |chains[z]|
      ensures chains[z][k] in memory
    {
      hide Shape;
      ChainFacts(Now(), z, k);
    }
  }

  ghost predicate IsDataOf(m: Memory, h: nat, i: nat, a: nat) {
    h in m && i < 63 && m[h].entries[i].data == a
  }

  ghost predicate DoNotMeet(live: map<nat, Block>, a: nat, b: nat)
    requires a in live && b in live
  {
    a + live[a].size <= b || b + live[b].size <= a
  }

  lemma MeetNot(live: map<nat, Block>, a: nat, b: nat)
    requires a in live && b in live && (a + live[a].size <= b || b + live[b].size <= a)
    ensures DoNotMeet(live, a, b)
  {
  }

  // The bytes from a on lie in one range of pages.
  ghost predicate InOwned(owned: map<nat, nat>, a: nat, size: nat) {
    exists d :: d in owned && d <= a && a + size <= End(owned, d)
  }

  lemma OwnedBy(owned: map<nat, nat>, a: nat, size: nat, d: nat)
    requires d in owned && d <= a && a + size <= End(owned, d)
    ensures InOwned(owned, a, size)
  {
  }

  // An entry with one object less.
  lemma Emptied(m: Memory, h: nat, i: nat, f: Entry)
    requires Counted(m) && h in m && i < 63
    requires m[h].entries[i].objects == f.objects + 1
    ensures m[h].objects > 0
    ensures var n := Put(m, h, i, f); Counted(n[h := n[h].(objects := n[h].objects - 1)])
  {
    SumAfterUpdate(m[h].entries, i, f, 63);
  }

  // What zone_free gives back is the range of the entry, with the number of pages it came with.
  lemma WholeEntry(st: State, h: nat, i: nat)
    requires Shape(st) && h in st.memory && i < 63 && st.memory[h].objectSize >= PAGE_SIZE
    requires st.memory[h].entries[i].objects != 0
    ensures var e := st.memory[h].entries[i];
      e.objects == 1 && e.data in st.owned && st.owned[e.data] == e.dataSize / PAGE_SIZE
  {
    var e, s := st.memory[h].entries[i], st.memory[h].objectSize;
    assert PageOk(st.memory[h]);
    assert EntryOk(e, s);
    assert HasRole(st.role, e.data, Data(h, i));
    assert RoleOk(st.role[e.data], e.data, st.table, st.owned, st.memory, st.chains);
  }

  lemma SamePlaces(s: nat, t: nat)
    requires s < PAGE_SIZE <==> t < PAGE_SIZE
    requires s < PAGE_SIZE ==> s == t
    ensures Places(s) == Places(t)
  {
  }

  lemma WholeIsBlank(e: Entry, s: nat)
    requires SizeOk(s) && s >= PAGE_SIZE && EntryOk(e, s) && e.objects == 0
    ensures e.data == 0
  {
  }
}
