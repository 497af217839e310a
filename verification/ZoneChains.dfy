// Growing the chain of header pages of a zone, and counting the objects of a page.
module ZoneChains {
  import opened ZoneSizes
  import opened ZoneBitmap
  import opened ZoneLayout
  import opened ZoneStates

  // A zone gets its first header page.
  function FirstPage(st: State, z: nat, a: nat, s: nat): State
    requires z < |st.zones| && z < |st.chains|
  {
    st.(zones := st.zones[z := a],
        memory := st.memory[a := ClearPage(s)],
        owned := st.owned[a := 1],
        role := st.role[a := Header(z, 0)],
        chains := st.chains[z := [a]])
  }

  // The last header page of a zone gets a successor.
  function NextPage(st: State, z: nat, last: nat, a: nat, s: nat): State
    requires z < |st.chains| && last in st.memory
  {
    st.(memory := st.memory[last := st.memory[last].(next := a)][a := ClearPage(s)],
        owned := st.owned[a := 1],
        role := st.role[a := Header(z, |st.chains[z]|)],
        chains := st.chains[z := st.chains[z] + [a]])
  }

  // One clear page more; entries and object sizes as before.
  ghost predicate Grown(m: Memory, n: Memory, a: nat, s: nat) {
    && a !in m
    && n.Keys == m.Keys + {a}
    && n[a] == ClearPage(s)
    && (forall h :: h in m ==> n[h].entries == m[h].entries)
    && (forall h :: h in m ==> n[h].objectSize == m[h].objectSize && n[h].objects == m[h].objects)
  }

  lemma BlankEntry(s: nat)
    requires SizeOk(s)
    ensures EntryOk(BLANK, s)
    ensures forall j :: !Occupied(BLANK, s, j)
  {
    hide On;
    PlacesFacts(s);
    NoneCounted(Places(s));
    forall j: nat | j < 256 ensures !On(EMPTY, j) {
      NothingOn(j);
    }
  }

  lemma GrownPages(m: Memory, n: Memory, a: nat, s: nat)
    requires PagesOk(m) && Grown(m, n, a, s) && SizeOk(s)
    ensures PagesOk(n)
  {
    hide EntryOk;
    BlankEntry(s);
    forall h | h in n ensures PageOk(n[h]) {
      if h != a {
        assert PageOk(m[h]);
      }
    }
  }

  lemma GrownLive(live: map<nat, Block>, m: Memory, n: Memory, a: nat, s: nat)
    requires LiveOk(live, m) && Grown(m, n, a, s) && SizeOk(s)
    ensures LiveOk(live, n)
  {
    hide Occupied;
    hide StartOf;
    hide BlockSize;
    BlankEntry(s);
    forall b | b in live ensures BlockOk(live[b], b, n) {
      assert BlockOk(live[b], b, m);
    }
    forall h, i, j | h in n && 0 <= i < 63 && j >= 0 && Occupied(n[h].entries[i], n[h].objectSize, j)
      ensures IsLive(live, n, h, i, j)
    {
      assert h in m;
      assert Occupied(m[h].entries[i], m[h].objectSize, j);
      assert IsLive(live, m, h, i, j);
    }
  }

  // The role of an old range outlives the growth of one chain.
  lemma GrownRole(st: State, n: Memory, z: nat, a: nat, s: nat, b: nat)
    requires z < |st.chains| && Grown(st.memory, n, a, s) && a !in st.owned
    requires b in st.role && RoleOk(st.role[b], b, st.table, st.owned, st.memory, st.chains)
    ensures RoleOk(st.role[b], b, st.table, st.owned[a := 1], n, st.chains[z := st.chains[z] + [a]])
  {
    hide DataPages;
  }

  lemma GrownRoles(st: State, n: Memory, z: nat, a: nat, s: nat)
    requires Roles(st.table, st.owned, st.role, st.memory, st.chains) && a !in st.owned
    requires z < |st.chains| && Grown(st.memory, n, a, s)
    ensures Roles(st.table, st.owned[a := 1], st.role[a := Header(z, |st.chains[z]|)], n,
                  st.chains[z := st.chains[z] + [a]])
  {
    hide DataPages;
    var chains, role := st.chains[z := st.chains[z] + [a]], st.role[a := Header(z, |st.chains[z]|)];
    forall b | b in role ensures RoleOk(role[b], b, st.table, st.owned[a := 1], n, chains) {
      if b != a {
        GrownRole(st, n, z, a, s, b);
      }
    }
    forall y, k | 0 <= y < |chains| && 0 <= k < |chains[y]| ensures HasRole(role, chains[y][k], Header(y, k)) {
      if y != z || k < |st.chains[z]| {
        assert HasRole(st.role, st.chains[y][k], Header(y, k));
      }
    }
    forall h, i | h in n && 0 <= i < 63 && n[h].entries[i].data != 0
      ensures HasRole(role, n[h].entries[i].data, Data(h, i))
    {
      assert h in st.memory;
      assert HasRole(st.role, st.memory[h].entries[i].data, Data(h, i));
    }
  }

  lemma FirstIsMapped(zones: seq<nat>, m: Memory, chains: seq<seq<nat>>, z: nat)
    requires Linked(zones, m, chains) && z < MAX_ZONES && |chains[z]| > 0
    ensures zones[z] in m
  {
    assert HeaderOk(m, chains, z, 0);
  }

  lemma FirstPageLinks(st: State, z: nat, a: nat, s: nat)
    requires Linked(st.zones, st.memory, st.chains) && z < MAX_ZONES && st.zones[z] == 0 && a !in st.memory
    requires 0 !in st.memory && BitLength(s) == z
    ensures st.chains[z] == []
    ensures var n := FirstPage(st, z, a, s); Linked(n.zones, n.memory, n.chains)
  {
    hide BitLength;
    if |st.chains[z]| > 0 {
      FirstIsMapped(st.zones, st.memory, st.chains, z);
    }
    var n := FirstPage(st, z, a, s);
    forall y, k | 0 <= y < |n.chains| && 0 <= k < |n.chains[y]| ensures HeaderOk(n.memory, n.chains, y, k) {
      if y != z {
        assert HeaderOk(st.memory, st.chains, y, k);
      }
    }
  }

  lemma NextPageLinks(st: State, z: nat, last: nat, a: nat, s: nat)
    requires Linked(st.zones, st.memory, st.chains) && z < MAX_ZONES && a !in st.memory
    requires |st.chains[z]| > 0 && last == st.chains[z][|st.chains[z]| - 1] && last in st.memory && last != a
    requires forall y, k {:trigger st.chains[y][k]} :: 0 <= y < |st.chains| && 0 <= k < |st.chains[y]| ==>
      st.chains[y][k] == last ==> y == z && k == |st.chains[z]| - 1
    requires BitLength(s) == z
    ensures var n := NextPage(st, z, last, a, s); Linked(n.zones, n.memory, n.chains)
  {
    hide BitLength;
    var n := NextPage(st, z, last, a, s);
    assert HeaderOk(st.memory, st.chains, z, |st.chains[z]| - 1);
    forall y, k | 0 <= y < |n.chains| && 0 <= k < |n.chains[y]| ensures HeaderOk(n.memory, n.chains, y, k) {
      if y != z || k < |st.chains[z]| {
        assert HeaderOk(st.memory, st.chains, y, k);
      }
    }
  }

  lemma MemoryIsOwned(st: State, h: nat)
    requires Shape(st) && h in st.memory
    ensures h in st.owned && h in st.role && st.role[h].Header?
  {
  }

  lemma HeaderRole(st: State, z: nat, k: nat)
    requires Shape(st) && z < |st.chains| && k < |st.chains[z]|
    ensures st.chains[z][k] in st.role && st.role[st.chains[z][k]] == Header(z, k)
  {
    assert HasRole(st.role, st.chains[z][k], Header(z, k));
  }

  lemma FirstPageKeeps(st: State, z: nat, a: nat, s: nat)
    requires Shape(st) && z < MAX_ZONES && st.zones[z] == 0 && SizeOk(s) && BitLength(s) == z
    requires Fits(st.owned, a, 1)
    ensures a !in st.memory && Grown(st.memory, FirstPage(st, z, a, s).memory, a, s)
    ensures Shape(FirstPage(st, z, a, s))
  {
    hide Ranges;
    hide Roles;
    hide PagesOk;
    hide LiveOk;
    hide BitLength;
    hide Fits;
    FitsIsNew(st.owned, a, 1);
    NoZero(st.owned);
    if a in st.memory {
      MemoryIsOwned(st, a);
    }
    if 0 in st.memory {
      MemoryIsOwned(st, 0);
    }
    var n := FirstPage(st, z, a, s);
    FirstPageLinks(st, z, a, s);
    assert st.chains[z] + [a] == [a];
    GrownPages(st.memory, n.memory, a, s);
    GrownLive(st.live, st.memory, n.memory, a, s);
    GrownRoles(st, n.memory, z, a, s);
  }

  lemma NextPageKeeps(st: State, z: nat, last: nat, a: nat, s: nat)
    requires Shape(st) && z < |st.chains| && |st.chains[z]| > 0 && last == st.chains[z][|st.chains[z]| - 1]
    requires last in st.memory && SizeOk(s) && BitLength(s) == z && Fits(st.owned, a, 1)
    ensures a !in st.memory && a != 0 && Grown(st.memory, NextPage(st, z, last, a, s).memory, a, s)
    ensures Shape(NextPage(st, z, last, a, s))
  {
    hide Ranges;
    hide Roles;
    hide PagesOk;
    hide LiveOk;
    hide BitLength;
    hide Fits;
    FitsIsNew(st.owned, a, 1);
    if a in st.memory {
      MemoryIsOwned(st, a);
    }
    forall y, k {:trigger st.chains[y][k]} | 0 <= y < |st.chains| && 0 <= k < |st.chains[y]| && st.chains[y][k] == last
      ensures y == z && k == |st.chains[z]| - 1
    {
      HeaderRole(st, y, k);
      HeaderRole(st, z, |st.chains[z]| - 1);
    }
    var n := NextPage(st, z, last, a, s);
    NextPageLinks(st, z, last, a, s);
    GrownPages(st.memory, n.memory, a, s);
    GrownLive(st.live, st.memory, n.memory, a, s);
    GrownRoles(st, n.memory, z, a, s);
  }

  // What the shape says of one page of a chain.
  lemma ChainFacts(st: State, z: nat, k: nat)
    requires Shape(st) && z < |st.chains| && k <= |st.chains[z]|
    ensures |st.zones| == |st.chains| == MAX_ZONES && st.zones[z] == At(st.chains[z], 0)
    ensures k == |st.chains[z]| <==> At(st.chains[z], k) == 0
    ensures k < |st.chains[z]| ==>
      var h := st.chains[z][k];
      h in st.memory && st.memory[h].next == At(st.chains[z], k + 1) && BitLength(st.memory[h].objectSize) == z
    ensures k < |st.chains[z]| ==> PageOk(st.memory[st.chains[z][k]])
  {
    hide BitLength;
    hide PageOk;
    if k < |st.chains[z]| {
      assert HeaderOk(st.memory, st.chains, z, k);
      MemoryIsOwned(st, st.chains[z][k]);
    }
  }

  lemma TableSize(st: State)
    requires Shape(st)
    ensures |st.zones| == |st.chains| == MAX_ZONES
  {
  }

  // Every header page is on the chain its object size names.
  lemma PageIsChained(st: State, h: nat) returns (z: nat, k: nat)
    requires Shape(st) && h in st.memory
    ensures z < |st.chains| && k < |st.chains[z]| && st.chains[z][k] == h
    ensures BitLength(st.memory[h].objectSize) == z
  {
    hide BitLength;
    MemoryIsOwned(st, h);
    assert RoleOk(st.role[h], h, st.table, st.owned, st.memory, st.chains);
    z, k := st.role[h].zone, st.role[h].place;
    assert HeaderOk(st.memory, st.chains, z, k);
  }

  lemma MostOfPage(s: nat)
    requires SizeOk(s)
    ensures s < PAGE_SIZE ==> s > 0 && (MAX_ENTRIES * PAGE_SIZE) / s == 63 * Places(s) > 0
    ensures s >= PAGE_SIZE ==> 63 == 63 * Places(s)
  {
    if s < PAGE_SIZE {
      assert s in {16, 32, 64, 128, 256, 512, 1024, 2048};
    }
  }

  lemma GrownCounted(m: Memory, n: Memory, a: nat, s: nat)
    requires Counted(m) && Grown(m, n, a, s)
    ensures Counted(n)
  {
    SumOfBlanks(ClearPage(s).entries, 63);
  }

  // ---------- counting ----------

  lemma {:induction false} SumAfterUpdate(entries: Entries, i: nat, e: Entry, n: nat)
    requires i < 63 && n <= 63
    ensures Sum(entries[i := e], n) + (if i < n then entries[i].objects else 0)
         == Sum(entries, n) + (if i < n then e.objects else 0)
  {
    if n > 0 {
      SumAfterUpdate(entries, i, e, n - 1);
    }
  }

  lemma {:induction false} SumOfBlanks(entries: Entries, n: nat)
    requires n <= 63 && forall i :: 0 <= i < n ==> entries[i].objects == 0
    ensures Sum(entries, n) == 0
  {
    if n > 0 {
      SumOfBlanks(entries, n - 1);
    }
  }

  // Pigeonhole: entries that are all full add up to the most a page can hold.
  lemma {:induction false} SumOfFull(entries: Entries, n: nat, most: nat)
    requires n <= 63 && forall i :: 0 <= i < n ==> entries[i].objects == most
    ensures Sum(entries, n) == n * most
  {
    if n > 0 {
      SumOfFull(entries, n - 1, most);
      assert n * most == (n - 1) * most + most;
    }
  }

  lemma EntryIsBounded(e: Entry, s: nat)
    requires SizeOk(s) && EntryOk(e, s)
    ensures e.objects <= Places(s)
  {
    PlacesFacts(s);
  }

  // A page that is not full has an entry that is not full.
  lemma PageHasRoom(p: ZonePage)
    requires PageOk(p) && Sum(p.entries, 63) != 63 * Places(p.objectSize)
    ensures exists i :: 0 <= i < 63 && p.entries[i].objects < Places(p.objectSize)
  {
    hide EntryOk;
    hide Places;
    forall i | 0 <= i < 63 ensures p.entries[i].objects <= Places(p.objectSize) {
      assert EntryOk(p.entries[i], p.objectSize);
      EntryIsBounded(p.entries[i], p.objectSize);
    }
    if forall i :: 0 <= i < 63 ==> p.entries[i].objects == Places(p.objectSize) {
      SumOfFull(p.entries, 63, Places(p.objectSize));
    }
  }
}
