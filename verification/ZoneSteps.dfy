// What one change to an entry or to a chain does to the relations of ZoneLayout.
module ZoneSteps {
  import opened ZoneLayout

  // Changing an entry leaves the chains alone.
  lemma PutKeepsLinks(zones: seq<nat>, m: Memory, chains: seq<seq<nat>>, h: nat, i: nat, e: Entry)
    requires Linked(zones, m, chains) && h in m && i < 63
    ensures Linked(zones, Put(m, h, i, e), chains)
  {
    forall z, k | 0 <= z < |chains| && 0 <= k < |chains[z]|
      ensures HeaderOk(Put(m, h, i, e), chains, z, k)
    {
      assert HeaderOk(m, chains, z, k);
    }
  }

  lemma PutKeepsPages(m: Memory, h: nat, i: nat, e: Entry)
    requires PagesOk(m) && h in m && i < 63 && SizeOk(m[h].objectSize) && EntryOk(e, m[h].objectSize)
    ensures PagesOk(Put(m, h, i, e))
  {
    hide EntryOk;
    var n := Put(m, h, i, e);
    forall g | g in n ensures PageOk(n[g]) {
      assert PageOk(m[g]);
    }
  }

  // The data page of the entry stays, so no role changes.
  lemma PutKeepsRoles(st: State, h: nat, i: nat, e: Entry)
    requires Roles(st.table, st.owned, st.role, st.memory, st.chains) && h in st.memory && i < 63
    requires e.data == st.memory[h].entries[i].data
    requires DataPages(e, st.memory[h].objectSize) == DataPages(st.memory[h].entries[i], st.memory[h].objectSize)
    ensures Roles(st.table, st.owned, st.role, Put(st.memory, h, i, e), st.chains)
  {
    hide DataPages;
    var n := Put(st.memory, h, i, e);
    forall a | a in st.role ensures RoleOk(st.role[a], a, st.table, st.owned, n, st.chains) {
      assert RoleOk(st.role[a], a, st.table, st.owned, st.memory, st.chains);
    }
    forall g, k | g in n && 0 <= k < 63 && n[g].entries[k].data != 0
      ensures HasRole(st.role, n[g].entries[k].data, Data(g, k))
    {
      assert st.memory[g].entries[k].data == n[g].entries[k].data;
    }
  }

  // A change to one entry does not touch the role of any range that is not its data.
  lemma RoleStays(st: State, h: nat, i: nat, e: Entry, a: nat, owned: map<nat, nat>)
    requires a in st.role && RoleOk(st.role[a], a, st.table, st.owned, st.memory, st.chains)
    requires h in st.memory && i < 63 && a != st.memory[h].entries[i].data
    requires a in owned && owned[a] == st.owned[a]
    ensures RoleOk(st.role[a], a, st.table, owned, Put(st.memory, h, i, e), st.chains)
  {
    hide DataPages;
  }

  // A page range arrives for an entry that had none.
  lemma DataArrives(st: State, h: nat, i: nat, e: Entry, a: nat, pages: nat)
    requires Roles(st.table, st.owned, st.role, st.memory, st.chains) && h in st.memory && i < 63
    requires st.memory[h].entries[i].data == 0 && a !in st.owned && a != 0 && 0 !in st.owned
    requires e.data == a && DataPages(e, st.memory[h].objectSize) == pages
    ensures Roles(st.table, st.owned[a := pages], st.role[a := Data(h, i)], Put(st.memory, h, i, e), st.chains)
  {
    hide DataPages;
    var n := Put(st.memory, h, i, e);
    var owned, role := st.owned[a := pages], st.role[a := Data(h, i)];
    forall b | b in role ensures RoleOk(role[b], b, st.table, owned, n, st.chains) {
      if b != a {
        RoleStays(st, h, i, e, b, owned);
      }
    }
    forall g, k | g in n && 0 <= k < 63 && n[g].entries[k].data != 0
      ensures HasRole(role, n[g].entries[k].data, Data(g, k))
    {
      if g != h || k != i {
        assert HasRole(st.role, st.memory[g].entries[k].data, Data(g, k));
      }
    }
    forall z, k | 0 <= z < |st.chains| && 0 <= k < |st.chains[z]|
      ensures HasRole(role, st.chains[z][k], Header(z, k))
    {
      assert HasRole(st.role, st.chains[z][k], Header(z, k));
    }
  }

  // The page range of an entry leaves.
  lemma DataLeaves(st: State, h: nat, i: nat, e: Entry)
    requires Roles(st.table, st.owned, st.role, st.memory, st.chains) && h in st.memory && i < 63
    requires st.memory[h].entries[i].data != 0 && e.data == 0
    ensures var a := st.memory[h].entries[i].data;
      Roles(st.table, st.owned - {a}, st.role - {a}, Put(st.memory, h, i, e), st.chains)
  {
    hide DataPages;
    var n := Put(st.memory, h, i, e);
    var a := st.memory[h].entries[i].data;
    var owned, role := st.owned - {a}, st.role - {a};
    assert HasRole(st.role, a, Data(h, i));
    forall b | b in role ensures RoleOk(role[b], b, st.table, owned, n, st.chains) {
      RoleStays(st, h, i, e, b, owned);
    }
    forall g, k | g in n && 0 <= k < 63 && n[g].entries[k].data != 0
      ensures HasRole(role, n[g].entries[k].data, Data(g, k))
    {
      assert HasRole(st.role, st.memory[g].entries[k].data, Data(g, k));
    }
    forall z, k | 0 <= z < |st.chains| && 0 <= k < |st.chains[z]|
      ensures HasRole(role, st.chains[z][k], Header(z, k))
    {
      assert HasRole(st.role, st.chains[z][k], Header(z, k));
    }
  }

  // An entry with nothing in it, before and after.
  lemma PutEmptyKeepsLive(live: map<nat, Block>, m: Memory, h: nat, i: nat, e: Entry)
    requires LiveOk(live, m) && h in m && i < 63
    requires forall j :: !Occupied(m[h].entries[i], m[h].objectSize, j)
    requires forall j :: !Occupied(e, m[h].objectSize, j)
    ensures LiveOk(live, Put(m, h, i, e))
  {
    hide Occupied;
    hide StartOf;
    hide BlockSize;
    var n := Put(m, h, i, e);
    forall a | a in live ensures BlockOk(live[a], a, n) {
      assert BlockOk(live[a], a, m);
    }
    forall g, k, j | g in n && 0 <= k < 63 && j >= 0 && Occupied(n[g].entries[k], n[g].objectSize, j)
      ensures IsLive(live, n, g, k, j)
    {
      assert IsLive(live, m, g, k, j);
    }
  }

  // The places of an entry keep their addresses and sizes.
  ghost predicate PlacesStay(e: Entry, f: Entry, s: nat) {
    e.data == f.data && BlockSize(e, s) == BlockSize(f, s)
  }

  ghost predicate NoneTaken(e: Entry, s: nat) {
    forall k :: !Occupied(e, s, k)
  }

  // Place j of an entry is taken; the places taken before keep their blocks.
  lemma PlaceTaken(live: map<nat, Block>, m: Memory, h: nat, i: nat, e: Entry, j: nat)
    requires LiveOk(live, m) && h in m && i < 63
    requires var s := m[h].objectSize;
      forall k :: Occupied(e, s, k) <==> k == j || Occupied(m[h].entries[i], s, k)
    requires PlacesStay(m[h].entries[i], e, m[h].objectSize) || NoneTaken(m[h].entries[i], m[h].objectSize)
    requires StartOf(e, m[h].objectSize, j) !in live
    ensures LiveOk(live[StartOf(e, m[h].objectSize, j) := Block(BlockSize(e, m[h].objectSize), h, i, j)], Put(m, h, i, e))
  {
    hide Occupied;
    hide Offset;
    hide BlockSize;
    var n := Put(m, h, i, e);
    var s := m[h].objectSize;
    var after := live[StartOf(e, s, j) := Block(BlockSize(e, s), h, i, j)];
    forall a | a in after ensures BlockOk(after[a], a, n) {
      if a in live {
        assert BlockOk(live[a], a, m);
      }
    }
    forall g, k, b | g in n && 0 <= k < 63 && b >= 0 && Occupied(n[g].entries[k], n[g].objectSize, b)
      ensures IsLive(after, n, g, k, b)
    {
      if g == h && k == i && b == j {
      } else {
        assert Occupied(m[g].entries[k], m[g].objectSize, b);
        assert IsLive(live, m, g, k, b);
      }
    }
  }

  // Place j of an entry is given up.
  lemma PlaceGiven(live: map<nat, Block>, m: Memory, h: nat, i: nat, e: Entry, j: nat)
    requires LiveOk(live, m) && h in m && i < 63
    requires var s := m[h].objectSize;
      forall k :: Occupied(e, s, k) <==> k != j && Occupied(m[h].entries[i], s, k)
    requires PlacesStay(m[h].entries[i], e, m[h].objectSize) || NoneTaken(e, m[h].objectSize)
    requires Occupied(m[h].entries[i], m[h].objectSize, j)
    ensures LiveOk(live - {StartOf(m[h].entries[i], m[h].objectSize, j)}, Put(m, h, i, e))
  {
    hide Occupied;
    hide Offset;
    hide BlockSize;
    var n := Put(m, h, i, e);
    var s := m[h].objectSize;
    var start := StartOf(m[h].entries[i], s, j);
    var after := live - {start};
    assert IsLive(live, m, h, i, j);
    forall a | a in after ensures BlockOk(after[a], a, n) {
      assert BlockOk(live[a], a, m);
    }
    forall g, k, b | g in n && 0 <= k < 63 && b >= 0 && Occupied(n[g].entries[k], n[g].objectSize, b)
      ensures IsLive(after, n, g, k, b)
    {
      assert Occupied(m[g].entries[k], m[g].objectSize, b);
      assert IsLive(live, m, g, k, b);
    }
  }

  // The same pages but for their counters.
  ghost predicate Recounted(m: Memory, n: Memory) {
    n.Keys == m.Keys && forall h :: h in m ==> n[h] == m[h].(objects := n[h].objects)
  }

  lemma RecountLinks(zones: seq<nat>, m: Memory, n: Memory, chains: seq<seq<nat>>)
    requires Linked(zones, m, chains) && Recounted(m, n)
    ensures Linked(zones, n, chains)
  {
    forall z, k | 0 <= z < |chains| && 0 <= k < |chains[z]| ensures HeaderOk(n, chains, z, k) {
      assert HeaderOk(m, chains, z, k);
    }
  }

  lemma RecountPages(m: Memory, n: Memory)
    requires PagesOk(m) && Recounted(m, n)
    ensures PagesOk(n)
  {
    hide EntryOk;
    forall h | h in n ensures PageOk(n[h]) {
      assert PageOk(m[h]);
    }
  }

  lemma RecountRoles(st: State, n: Memory)
    requires Roles(st.table, st.owned, st.role, st.memory, st.chains) && Recounted(st.memory, n)
    ensures Roles(st.table, st.owned, st.role, n, st.chains)
  {
    hide DataPages;
    forall a | a in st.role ensures RoleOk(st.role[a], a, st.table, st.owned, n, st.chains) {
      assert RoleOk(st.role[a], a, st.table, st.owned, st.memory, st.chains);
    }
    forall h, i | h in n && 0 <= i < 63 && n[h].entries[i].data != 0
      ensures HasRole(st.role, n[h].entries[i].data, Data(h, i))
    {
      assert HasRole(st.role, st.memory[h].entries[i].data, Data(h, i));
    }
  }

  lemma RecountLive(live: map<nat, Block>, m: Memory, n: Memory)
    requires LiveOk(live, m) && Recounted(m, n)
    ensures LiveOk(live, n)
  {
    hide Occupied;
    hide StartOf;
    hide BlockSize;
    forall a | a in live ensures BlockOk(live[a], a, n) {
      assert BlockOk(live[a], a, m);
    }
    forall h, i, j | h in n && 0 <= i < 63 && j >= 0 && Occupied(n[h].entries[i], n[h].objectSize, j)
      ensures IsLive(live, n, h, i, j)
    {
      assert Occupied(m[h].entries[i], m[h].objectSize, j);
      assert IsLive(live, m, h, i, j);
    }
  }

  // The shape does not mention the counters of the header pages.
  lemma RecountKeeps(st: State, n: Memory)
    requires Shape(st) && Recounted(st.memory, n)
    ensures Shape(st.(memory := n))
  {
    hide *;
    ShapeParts(st);
    RecountLinks(st.zones, st.memory, n, st.chains);
    RecountPages(st.memory, n);
    RecountRoles(st, n);
    RecountLive(st.live, st.memory, n);
    PartsShape(st.(memory := n));
  }

  lemma ShapeParts(st: State)
    requires Shape(st)
    ensures Linked(st.zones, st.memory, st.chains) && Ranges(st.owned) && PagesOk(st.memory)
    ensures Roles(st.table, st.owned, st.role, st.memory, st.chains) && LiveOk(st.live, st.memory)
  {
  }

  lemma PartsShape(st: State)
    requires Linked(st.zones, st.memory, st.chains) && Ranges(st.owned) && PagesOk(st.memory)
    requires Roles(st.table, st.owned, st.role, st.memory, st.chains) && LiveOk(st.live, st.memory)
    ensures Shape(st)
  {
  }
}
