// The steps of the zone allocator as functions on its state, each keeping the shape of the state,
// and what the shape means for the live blocks.
module ZoneStates {
  import opened ZoneSizes
  import opened ZoneBitmap
  import opened ZoneLayout
  import opened ZoneSteps

  // ---------- live blocks lie apart, inside owned ranges ----------

  // The first address after an owned range.
  function End(owned: map<nat, nat>, d: nat): nat
    requires d in owned
  {
    d + owned[d] * PAGE_SIZE
  }

  lemma RangesApart(owned: map<nat, nat>, d: nat, f: nat)
    requires Ranges(owned) && d in owned && f in owned && d != f
    ensures End(owned, d) <= f || End(owned, f) <= d
  {
    assert Apart(d, owned[d], f, owned[f]);
  }

  lemma FitsApart(owned: map<nat, nat>, a: nat, pages: nat, d: nat)
    requires Fits(owned, a, pages) && d in owned
    ensures a < d || End(owned, d) <= a
  {
    assert Apart(a, pages, d, owned[d]);
  }

  lemma {:induction false} CountedOn(bitmap: Bitmap, j: nat, n: nat)
    requires j < n <= 256 && On(bitmap, j)
    ensures Count(bitmap, n) > 0
  {
    hide On;
    if j < n - 1 {
      CountedOn(bitmap, j, n - 1);
    }
  }

  // A taken place of an entry lies inside the pages of the entry.
  lemma TakenPlace(e: Entry, s: nat, j: nat)
    requires SizeOk(s) && EntryOk(e, s) && Occupied(e, s, j)
    ensures e.data != 0
    ensures e.data <= StartOf(e, s, j) && StartOf(e, s, j) + BlockSize(e, s) <= e.data + DataPages(e, s) * PAGE_SIZE
    ensures BlockSize(e, s) > 0 && IsClass(BlockSize(e, s))
    ensures BitLength(BlockSize(e, s)) == BitLength(s)
  {
    hide BitLength;
    if s < PAGE_SIZE {
      PlacesFacts(s);
      PlaceInside(s, j);
      CountedOn(e.bitmap, j, Places(s));
    } else {
      assert e.dataSize == e.dataSize / PAGE_SIZE * PAGE_SIZE;
    }
  }

  lemma EntryBlocksApart(e: Entry, s: nat, j: nat, k: nat)
    requires SizeOk(s) && EntryOk(e, s) && Occupied(e, s, j) && Occupied(e, s, k) && j < k
    ensures StartOf(e, s, j) + BlockSize(e, s) <= StartOf(e, s, k)
  {
    hide EntryOk;
    hide Offset;
    PlacesFacts(s);
    PlacesApart(s, j, k);
  }

  // What the shape says of one entry with data.
  lemma EntryFacts(st: State, h: nat, i: nat)
    requires Shape(st) && h in st.memory && i < 63
    ensures var e, s := st.memory[h].entries[i], st.memory[h].objectSize;
      && SizeOk(s) && EntryOk(e, s)
      && (e.data != 0 ==>
        && e.data in st.owned && e.data in st.role && st.role[e.data] == Data(h, i)
        && End(st.owned, e.data) == e.data + DataPages(e, s) * PAGE_SIZE)
  {
    var e, s := st.memory[h].entries[i], st.memory[h].objectSize;
    assert PageOk(st.memory[h]);
    if e.data != 0 {
      assert HasRole(st.role, e.data, Data(h, i));
      assert RoleOk(st.role[e.data], e.data, st.table, st.owned, st.memory, st.chains);
    }
  }

  // What the shape says of one live block.
  lemma BlockFacts(st: State, a: nat)
    requires Shape(st) && a in st.live
    ensures var b := st.live[a];
      && b.page in st.memory && b.entry < 63
      && Occupied(st.memory[b.page].entries[b.entry], st.memory[b.page].objectSize, b.bit)
      && a == StartOf(st.memory[b.page].entries[b.entry], st.memory[b.page].objectSize, b.bit)
      && b.size == BlockSize(st.memory[b.page].entries[b.entry], st.memory[b.page].objectSize)
  {
    assert BlockOk(st.live[a], a, st.memory);
  }

  // Every live block lies inside one range the allocator owns, the data of its entry.
  lemma BlockInRange(st: State, a: nat) returns (d: nat)
    requires Shape(st) && a in st.live
    ensures d in st.owned && d <= a && a + st.live[a].size <= End(st.owned, d)
    ensures d in st.role && st.role[d] == Data(st.live[a].page, st.live[a].entry)
    ensures st.live[a].size > 0 && IsClass(st.live[a].size)
  {
    hide *;
    BlockFacts(st, a);
    var b := st.live[a];
    EntryFacts(st, b.page, b.entry);
    TakenPlace(st.memory[b.page].entries[b.entry], st.memory[b.page].objectSize, b.bit);
    d := st.memory[b.page].entries[b.entry].data;
  }

  // Where a block lies: a small one at its place in the page of its entry, a large one on pages of its own.
  ghost predicate Lies(b: Block, a: nat, m: Memory, owned: map<nat, nat>)
    requires b.page in m && b.entry < 63
  {
    var data := m[b.page].entries[b.entry].data;
    data in owned &&
    if b.size < 4096 then owned[data] == 1 && 0 < b.size && b.bit < 4096 / b.size && a == data + b.bit * b.size
    else a == data && b.bit == 0 && b.size == owned[data] * 4096
  }

  lemma BlockLies(st: State, a: nat)
    requires Shape(st) && a in st.live
    ensures st.live[a].page in st.memory && st.live[a].entry < 63 && Lies(st.live[a], a, st.memory, st.owned)
  {
    hide *;
    BlockFacts(st, a);
    var b := st.live[a];
    var e, s := st.memory[b.page].entries[b.entry], st.memory[b.page].objectSize;
    EntryFacts(st, b.page, b.entry);
    TakenPlace(e, s, b.bit);
    OwnedPages(st.owned, e.data, DataPages(e, s));
    PlaceLies(e, s, b.bit);
    LiesIntro(b, a, st.memory, st.owned);
  }

  lemma LiesIntro(b: Block, a: nat, m: Memory, owned: map<nat, nat>)
    requires b.page in m && b.entry < 63 && m[b.page].entries[b.entry].data in owned
    requires var data := m[b.page].entries[b.entry].data;
      if b.size < 4096 then owned[data] == 1 && 0 < b.size && b.bit < 4096 / b.size && a == data + b.bit * b.size
      else a == data && b.bit == 0 && b.size == owned[data] * 4096
    ensures Lies(b, a, m, owned)
  {
  }

  lemma OwnedPages(owned: map<nat, nat>, d: nat, n: nat)
    requires d in owned && End(owned, d) == d + n * PAGE_SIZE
    ensures owned[d] == n
  {
  }

  lemma PlaceLies(e: Entry, s: nat, j: nat)
    requires SizeOk(s) && EntryOk(e, s) && Occupied(e, s, j)
    ensures var size := BlockSize(e, s);
      if size < 4096 then DataPages(e, s) == 1 && 0 < size && j < 4096 / size && StartOf(e, s, j) == e.data + j * size
      else StartOf(e, s, j) == e.data && j == 0 && size == DataPages(e, s) * 4096
  {
  }

  lemma SameEntryApart(st: State, a: nat, c: nat)
    requires Shape(st) && a in st.live && c in st.live && a != c
    requires st.live[a].page == st.live[c].page && st.live[a].entry == st.live[c].entry
    ensures a + st.live[a].size <= c || c + st.live[c].size <= a
  {
    hide *;
    BlockFacts(st, a);
    BlockFacts(st, c);
    var p, q := st.live[a], st.live[c];
    EntryFacts(st, p.page, p.entry);
    if p.bit < q.bit {
      EntryBlocksApart(st.memory[p.page].entries[p.entry], st.memory[p.page].objectSize, p.bit, q.bit);
    } else if q.bit < p.bit {
      EntryBlocksApart(st.memory[p.page].entries[p.entry], st.memory[p.page].objectSize, q.bit, p.bit);
    }
  }

  lemma ShapeRanges(st: State)
    requires Shape(st)
    ensures Ranges(st.owned)
  {
  }

  // No two live blocks share a byte.
  lemma BlocksAreDisjoint(st: State, a: nat, c: nat)
    requires Shape(st) && a in st.live && c in st.live && a != c
    ensures a + st.live[a].size <= c || c + st.live[c].size <= a
  {
    hide *;
    var d := BlockInRange(st, a);
    var f := BlockInRange(st, c);
    if d == f {
      SameEntryApart(st, a, c);
    } else {
      ShapeRanges(st);
      RangesApart(st.owned, d, f);
    }
  }

  // A range the page allocator may hand out holds no live block.
  lemma FitsIsDead(st: State, a: nat, pages: nat)
    requires Shape(st) && Fits(st.owned, a, pages)
    ensures a !in st.live
  {
    hide *;
    if a in st.live {
      var d := BlockInRange(st, a);
      FitsApart(st.owned, a, pages, d);
    }
  }

  // The block over an address inside the data of an entry is one of that entry.
  lemma BlockHere(st: State, h: nat, i: nat, x: nat, a: nat)
    requires Shape(st) && h in st.memory && i < 63 && st.memory[h].entries[i].data != 0
    requires var e := st.memory[h].entries[i];
      e.data <= x < e.data + DataPages(e, st.memory[h].objectSize) * PAGE_SIZE
    requires a in st.live && a <= x < a + st.live[a].size
    ensures st.live[a].page == h && st.live[a].entry == i
  {
    hide *;
    EntryFacts(st, h, i);
    var d := BlockInRange(st, a);
    var f := st.memory[h].entries[i].data;
    if d != f {
      ShapeRanges(st);
      RangesApart(st.owned, d, f);
    }
  }

  lemma SamePlace(s: nat, j: nat, k: nat)
    requires s > 0 && Offset(s, j) == Offset(s, k)
    ensures j == k
  {
    if j < k {
      PlacesApart(s, j, k);
    } else if k < j {
      PlacesApart(s, k, j);
    }
  }

  lemma PlaceBounds(e: Entry, s: nat, j: nat)
    requires SizeOk(s) && s < PAGE_SIZE && j < Places(s)
    ensures e.data <= StartOf(e, s, j) < e.data + DataPages(e, s) * PAGE_SIZE
    ensures forall k :: StartOf(e, s, j) == StartOf(e, s, k) ==> j == k
  {
    PlaceInside(s, j);
    forall k | StartOf(e, s, j) == StartOf(e, s, k) ensures j == k {
      SamePlace(s, j, k);
    }
  }

  // A free place with a data page starts no live block.
  lemma FreePlaceIsNew(st: State, h: nat, i: nat, j: nat)
    requires Shape(st) && h in st.memory && i < 63 && st.memory[h].entries[i].data != 0
    requires SizeOk(st.memory[h].objectSize) && st.memory[h].objectSize < PAGE_SIZE
    requires j < Places(st.memory[h].objectSize)
    requires !Occupied(st.memory[h].entries[i], st.memory[h].objectSize, j)
    ensures StartOf(st.memory[h].entries[i], st.memory[h].objectSize, j) !in st.live
  {
    hide *;
    var e, s := st.memory[h].entries[i], st.memory[h].objectSize;
    var a := StartOf(e, s, j);
    PlaceBounds(e, s, j);
    if a in st.live {
      var d := BlockInRange(st, a);
      BlockHere(st, h, i, a, a);
      BlockFacts(st, a);
    }
  }

  // ---------- steps ----------

  // An entry of small objects gets its page.
  function PageGiven(st: State, h: nat, i: nat, a: nat): State
    requires h in st.memory && i < 63
  {
    st.(memory := Put(st.memory, h, i, st.memory[h].entries[i].(data := a)),
        owned := st.owned[a := 1],
        role := st.role[a := Data(h, i)])
  }

  // Place j of a page of small objects is taken.
  function Taken(st: State, h: nat, i: nat, j: nat): State
    requires h in st.memory && i < 63 && j < 256
  {
    var e, s := st.memory[h].entries[i], st.memory[h].objectSize;
    st.(memory := Put(st.memory, h, i, e.(bitmap := SetBit(e.bitmap, j), objects := e.objects + 1)),
        live := st.live[StartOf(e, s, j) := Block(s, h, i, j)])
  }

  // A whole entry is taken by one object of a page or more.
  function TakenWhole(st: State, h: nat, i: nat, a: nat, size: nat): State
    requires h in st.memory && i < 63
  {
    st.(memory := Put(st.memory, h, i, st.memory[h].entries[i].(data := a, objects := 1, dataSize := size)),
        owned := st.owned[a := size / PAGE_SIZE],
        role := st.role[a := Data(h, i)],
        live := st.live[a := Block(size, h, i, 0)])
  }

  // Place j of a page of small objects is given up; the page stays.
  function Given(st: State, h: nat, i: nat, j: nat): State
    requires h in st.memory && i < 63 && j < 256 && st.memory[h].entries[i].objects > 0
  {
    var e, s := st.memory[h].entries[i], st.memory[h].objectSize;
    st.(memory := Put(st.memory, h, i, e.(bitmap := ClearBit(e.bitmap, j), objects := e.objects - 1)),
        live := st.live - {StartOf(e, s, j)})
  }

  // An object of a page or more goes, and its pages with it.
  function GivenWhole(st: State, h: nat, i: nat): State
    requires h in st.memory && i < 63
  {
    var e := st.memory[h].entries[i];
    st.(memory := Put(st.memory, h, i, e.(data := 0, objects := 0, dataSize := 0)),
        owned := st.owned - {e.data},
        role := st.role - {e.data},
        live := st.live - {e.data})
  }

  lemma PageGivenKeeps(st: State, h: nat, i: nat, a: nat)
    requires Shape(st) && h in st.memory && i < 63 && st.memory[h].objectSize < PAGE_SIZE
    requires st.memory[h].entries[i].data == 0 && Fits(st.owned, a, 1)
    ensures Shape(PageGiven(st, h, i, a))
  {
    hide Linked;
    hide Ranges;
    hide Roles;
    hide PagesOk;
    hide LiveOk;
    hide EntryOk;
    hide Occupied;
    var e, s := st.memory[h].entries[i], st.memory[h].objectSize;
    var f := e.(data := a);
    EntryFacts(st, h, i);
    BlankSmall(e, s, a);
    FitsIsNew(st.owned, a, 1);
    NoZero(st.owned);
    PutKeepsLinks(st.zones, st.memory, st.chains, h, i, f);
    PutKeepsPages(st.memory, h, i, f);
    DataArrives(st, h, i, f, a, 1);
    PutEmptyKeepsLive(st.live, st.memory, h, i, f);
  }

  lemma NoZero(owned: map<nat, nat>)
    requires Ranges(owned)
    ensures 0 !in owned
  {
  }

  // An entry of small objects without a page holds nothing, and still nothing once it has one.
  lemma BlankSmall(e: Entry, s: nat, a: nat)
    requires SizeOk(s) && s < PAGE_SIZE && EntryOk(e, s) && e.data == 0
    ensures EntryOk(e.(data := a), s)
    ensures forall j :: !Occupied(e, s, j) && !Occupied(e.(data := a), s, j)
  {
    PlacesFacts(s);
    forall j: nat | j < Places(s) ensures !On(e.bitmap, j) {
      if On(e.bitmap, j) {
        CountedOn(e.bitmap, j, Places(s));
      }
    }
  }

  lemma TakenKeeps(st: State, h: nat, i: nat, j: nat)
    requires Shape(st) && h in st.memory && i < 63 && st.memory[h].objectSize < PAGE_SIZE
    requires j < 256 && j < Places(st.memory[h].objectSize) && !On(st.memory[h].entries[i].bitmap, j)
    requires st.memory[h].entries[i].data != 0
    ensures Shape(Taken(st, h, i, j))
    ensures StartOf(st.memory[h].entries[i], st.memory[h].objectSize, j) !in st.live
  {
    hide Linked;
    hide Ranges;
    hide Roles;
    hide PagesOk;
    hide LiveOk;
    hide EntryOk;
    hide Occupied;
    hide SetBit;
    hide Offset;
    var e, s := st.memory[h].entries[i], st.memory[h].objectSize;
    var f := e.(bitmap := SetBit(e.bitmap, j), objects := e.objects + 1);
    EntryFacts(st, h, i);
    SmallSet(e, s, j);
    FreePlaceIsNew(st, h, i, j);
    PutKeepsLinks(st.zones, st.memory, st.chains, h, i, f);
    PutKeepsPages(st.memory, h, i, f);
    PutKeepsRoles(st, h, i, f);
    PlaceTaken(st.live, st.memory, h, i, f, j);
  }

  lemma SmallSet(e: Entry, s: nat, j: nat)
    requires SizeOk(s) && s < PAGE_SIZE && EntryOk(e, s) && e.data != 0
    requires j < 256 && j < Places(s) && !On(e.bitmap, j)
    ensures var f := e.(bitmap := SetBit(e.bitmap, j), objects := e.objects + 1);
      EntryOk(f, s) && forall k :: Occupied(f, s, k) <==> k == j || Occupied(e, s, k)
    ensures !Occupied(e, s, j)
  {
    hide On;
    hide SetBit;
    PlacesFacts(s);
    CountAfterSet(e.bitmap, j, Places(s));
    forall k: nat | k < 256 ensures On(SetBit(e.bitmap, j), k) <==> k == j || On(e.bitmap, k) {
      OnAfterSet(e.bitmap, j, k);
    }
  }

  lemma TakenWholeKeeps(st: State, h: nat, i: nat, a: nat, size: nat)
    requires Shape(st) && h in st.memory && i < 63 && st.memory[h].objectSize >= PAGE_SIZE
    requires st.memory[h].entries[i].objects == 0 && LargeOk(size, st.memory[h].objectSize)
    requires Fits(st.owned, a, size / PAGE_SIZE)
    ensures Shape(TakenWhole(st, h, i, a, size))
    ensures a !in st.live && a != 0
  {
    hide Linked;
    hide Ranges;
    hide Roles;
    hide PagesOk;
    hide LiveOk;
    hide EntryOk;
    hide Occupied;
    hide Offset;
    hide Fits;
    hide LargeOk;
    var e, s := st.memory[h].entries[i], st.memory[h].objectSize;
    var f := e.(data := a, objects := 1, dataSize := size);
    EntryFacts(st, h, i);
    ShapeRanges(st);
    FitsIsDead(st, a, size / PAGE_SIZE);
    FitsIsNew(st.owned, a, size / PAGE_SIZE);
    NoZero(st.owned);
    WholeSet(e, s, a, size);
    PutKeepsLinks(st.zones, st.memory, st.chains, h, i, f);
    PutKeepsPages(st.memory, h, i, f);
    DataArrives(st, h, i, f, a, size / PAGE_SIZE);
    PlaceTaken(st.live, st.memory, h, i, f, 0);
  }

  lemma WholeSet(e: Entry, s: nat, a: nat, size: nat)
    requires SizeOk(s) && s >= PAGE_SIZE && EntryOk(e, s) && e.objects == 0
    requires a != 0 && LargeOk(size, s)
    ensures e.data == 0
    ensures var f := e.(data := a, objects := 1, dataSize := size);
      EntryOk(f, s) && StartOf(f, s, 0) == a && forall k :: Occupied(f, s, k) <==> k == 0
    ensures forall k :: !Occupied(e, s, k)
  {
  }

  lemma GivenKeeps(st: State, h: nat, i: nat, j: nat)
    requires Shape(st) && h in st.memory && i < 63 && st.memory[h].objectSize < PAGE_SIZE
    requires j < 256 && j < Places(st.memory[h].objectSize) && On(st.memory[h].entries[i].bitmap, j)
    ensures st.memory[h].entries[i].objects > 0 && Shape(Given(st, h, i, j))
  {
    hide Linked;
    hide Ranges;
    hide Roles;
    hide PagesOk;
    hide LiveOk;
    hide EntryOk;
    hide Occupied;
    hide ClearBit;
    hide Offset;
    var e, s := st.memory[h].entries[i], st.memory[h].objectSize;
    EntryFacts(st, h, i);
    SmallClear(e, s, j);
    var f := e.(bitmap := ClearBit(e.bitmap, j), objects := e.objects - 1);
    PutKeepsLinks(st.zones, st.memory, st.chains, h, i, f);
    PutKeepsPages(st.memory, h, i, f);
    PutKeepsRoles(st, h, i, f);
    PlaceGiven(st.live, st.memory, h, i, f, j);
  }

  lemma SmallClear(e: Entry, s: nat, j: nat)
    requires SizeOk(s) && s < PAGE_SIZE && EntryOk(e, s)
    requires j < 256 && j < Places(s) && On(e.bitmap, j)
    ensures e.objects > 0 && Occupied(e, s, j)
    ensures var f := e.(bitmap := ClearBit(e.bitmap, j), objects := e.objects - 1);
      EntryOk(f, s) && forall k :: Occupied(f, s, k) <==> k != j && Occupied(e, s, k)
  {
    hide On;
    hide ClearBit;
    PlacesFacts(s);
    CountedOn(e.bitmap, j, Places(s));
    CountAfterClear(e.bitmap, j, Places(s));
    forall k: nat | k < 256 ensures On(ClearBit(e.bitmap, j), k) <==> k != j && On(e.bitmap, k) {
      OnAfterClear(e.bitmap, j, k);
    }
  }

  lemma GivenWholeKeeps(st: State, h: nat, i: nat)
    requires Shape(st) && h in st.memory && i < 63 && st.memory[h].objectSize >= PAGE_SIZE
    requires st.memory[h].entries[i].objects != 0
    ensures Shape(GivenWhole(st, h, i))
  {
    hide Linked;
    hide Ranges;
    hide Roles;
    hide PagesOk;
    hide LiveOk;
    hide EntryOk;
    hide Occupied;
    hide Offset;
    var e, s := st.memory[h].entries[i], st.memory[h].objectSize;
    var f := e.(data := 0, objects := 0, dataSize := 0);
    EntryFacts(st, h, i);
    ShapeRanges(st);
    RangesWithout(st.owned, e.data);
    WholeClear(e, s);
    PutKeepsLinks(st.zones, st.memory, st.chains, h, i, f);
    PutKeepsPages(st.memory, h, i, f);
    DataLeaves(st, h, i, f);
    PlaceGiven(st.live, st.memory, h, i, f, 0);
  }

  lemma RangesWithout(owned: map<nat, nat>, a: nat)
    requires Ranges(owned)
    ensures Ranges(owned - {a})
  {
  }

  lemma WholeClear(e: Entry, s: nat)
    requires SizeOk(s) && s >= PAGE_SIZE && EntryOk(e, s) && e.objects != 0
    ensures e.data != 0 && StartOf(e, s, 0) == e.data && Occupied(e, s, 0)
    ensures var f := e.(data := 0, objects := 0, dataSize := 0);
      EntryOk(f, s) && forall k :: !Occupied(f, s, k)
    ensures forall k :: Occupied(e, s, k) ==> k == 0
  {
  }
}
