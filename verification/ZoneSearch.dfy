// What zone_verify and zone_free learn from the entry their scan stops at.
module ZoneSearch {
  import opened ZoneSizes
  import opened ZoneBitmap
  import opened ZoneLayout
  import opened ZoneStates
  import opened ZoneChains

  // The address lies in this live block of the size class asked for; of a block of several pages only
  // the first one counts.
  ghost predicate Covers(live: map<nat, Block>, ptr: nat, s: nat, a: nat) {
    a in live && live[a].size == s && a <= ptr < a + s && ptr < a + PAGE_SIZE
  }

  ghost predicate Holds(live: map<nat, Block>, ptr: nat, s: nat) {
    exists a :: Covers(live, ptr, s, a)
  }

  // The scan's test. A blank entry passes it for an address below 4096.
  predicate Matches(e: Entry, ptr: nat) {
    e.data <= ptr < e.data + PAGE_SIZE
  }

  // At most one live block covers an address.
  lemma CoversOnce(st: State, ptr: nat, s: nat, a: nat)
    requires Shape(st) && Covers(st.live, ptr, s, a)
    ensures forall b :: Covers(st.live, ptr, s, b) ==> b == a
  {
    hide Shape;
    forall b | Covers(st.live, ptr, s, b) ensures b == a {
      if a != b {
        BlocksAreDisjoint(st, a, b);
      }
    }
  }

  lemma NoBlockBelow(st: State, a: nat)
    requires Shape(st) && a in st.live
    ensures a >= PAGE_SIZE
  {
    hide Linked;
    hide Roles;
    hide PagesOk;
    hide LiveOk;
    var d := BlockInRange(st, a);
  }

  // The address falls into place j of the entry.
  ghost predicate InPlace(e: Entry, s: nat, ptr: nat, j: nat) {
    StartOf(e, s, j) <= ptr < StartOf(e, s, j) + s
  }

  lemma PlaceHit(e: Entry, s: nat, ptr: nat)
    requires SizeOk(s) && s < PAGE_SIZE && Matches(e, ptr)
    ensures s > 0 && PAGE_SIZE / s == Places(s) && Places(s) <= 256 && e.data <= ptr
    ensures 0 <= (ptr - e.data) / s
    ensures var j := (ptr - e.data) / s; j < Places(s) && j < 256 && InPlace(e, s, ptr, j)
  {
    PlacesFacts(s);
    PlaceOf(s, ptr - e.data);
  }

  // The place of a small object that an address falls into.
  lemma SmallHit(st: State, h: nat, i: nat, ptr: nat, j: nat)
    requires Shape(st) && h in st.memory && i < 63 && st.memory[h].objectSize < PAGE_SIZE
    requires Matches(st.memory[h].entries[i], ptr) && j < Places(st.memory[h].objectSize) && j < 256
    requires InPlace(st.memory[h].entries[i], st.memory[h].objectSize, ptr, j)
    ensures var e, s := st.memory[h].entries[i], st.memory[h].objectSize;
      && (On(e.bitmap, j) ==> Covers(st.live, ptr, s, StartOf(e, s, j)) && Holds(st.live, ptr, s))
      && (!On(e.bitmap, j) ==> !Holds(st.live, ptr, s))
  {
    hide Shape;
    hide EntryOk;
    hide On;
    hide IsClass;
    hide Offset;
    hide Places;
    var e, s := st.memory[h].entries[i], st.memory[h].objectSize;
    EntryFacts(st, h, i);
    PlacesFacts(s);
    if On(e.bitmap, j) {
      LiveHere(st, h, i, j);
      PlaceInside(s, j);
    } else if Holds(st.live, ptr, s) {
      var a :| Covers(st.live, ptr, s, a);
      NoBlockBelow(st, a);
      BlockHere(st, h, i, ptr, a);
      BlockFacts(st, a);
      OnePlace(s, ptr - e.data, j, st.live[a].bit);
    }
  }

  lemma OnePlace(s: nat, off: nat, j: nat, k: nat)
    requires s > 0 && Offset(s, j) <= off < Offset(s, j) + s && Offset(s, k) <= off < Offset(s, k) + s
    ensures j == k
  {
    hide Offset;
    if j < k {
      PlacesApart(s, j, k);
    } else if k < j {
      PlacesApart(s, k, j);
    }
  }

  lemma LiveHere(st: State, h: nat, i: nat, j: nat)
    requires Shape(st) && h in st.memory && i < 63
    requires Occupied(st.memory[h].entries[i], st.memory[h].objectSize, j)
    ensures var e, s := st.memory[h].entries[i], st.memory[h].objectSize;
      StartOf(e, s, j) in st.live && st.live[StartOf(e, s, j)] == Block(BlockSize(e, s), h, i, j)
  {
    hide Occupied;
    assert IsLive(st.live, st.memory, h, i, j);
  }

  // The object of an entry of whole pages that an address falls into.
  lemma LargeHit(st: State, h: nat, i: nat, ptr: nat, s: nat)
    requires Shape(st) && h in st.memory && i < 63 && PAGE_SIZE <= st.memory[h].objectSize && PAGE_SIZE <= s
    requires Matches(st.memory[h].entries[i], ptr)
    ensures var e := st.memory[h].entries[i];
      && (e.objects != 0 && e.dataSize == s ==> Covers(st.live, ptr, s, e.data) && Holds(st.live, ptr, s))
      && (!(e.objects != 0 && e.dataSize == s) ==> !Holds(st.live, ptr, s))
  {
    hide Shape;
    hide IsClass;
    hide BitLength;
    var e, t := st.memory[h].entries[i], st.memory[h].objectSize;
    EntryFacts(st, h, i);
    if e.objects == 0 {
      if Holds(st.live, ptr, s) {
        var a :| Covers(st.live, ptr, s, a);
        NoBlockBelow(st, a);
      }
    } else {
      WholePages(e, t);
      LiveHere(st, h, i, 0);
      if Holds(st.live, ptr, s) {
        var a :| Covers(st.live, ptr, s, a);
        BlockHere(st, h, i, ptr, a);
        BlockFacts(st, a);
      }
    }
  }

  lemma WholePages(e: Entry, s: nat)
    requires SizeOk(s) && s >= PAGE_SIZE && EntryOk(e, s) && e.objects != 0
    ensures e.data != 0 && Occupied(e, s, 0) && StartOf(e, s, 0) == e.data && BlockSize(e, s) == e.dataSize
    ensures DataPages(e, s) >= 1 && PAGE_SIZE <= DataPages(e, s) * PAGE_SIZE
  {
  }

  // A live block of the class is seen by the scan of the zone of that class.
  lemma ScanSees(st: State, z: nat, ptr: nat, s: nat, a: nat) returns (k: nat, i: nat)
    requires Shape(st) && Covers(st.live, ptr, s, a) && BitLength(s) == z < |st.chains|
    ensures k < |st.chains[z]| && i < 63 && st.chains[z][k] in st.memory
    ensures Matches(st.memory[st.chains[z][k]].entries[i], ptr)
  {
    hide Shape;
    hide IsClass;
    hide BitLength;
    hide EntryOk;
    hide Offset;
    hide Occupied;
    BlockFacts(st, a);
    var b := st.live[a];
    var e, t := st.memory[b.page].entries[b.entry], st.memory[b.page].objectSize;
    EntryFacts(st, b.page, b.entry);
    TakenPlace(e, t, b.bit);
    FirstPlace(e, t, b.bit);
    var y, p := PageIsChained(st, b.page);
    k, i := p, b.entry;
  }

  lemma FirstPlace(e: Entry, s: nat, j: nat)
    requires Occupied(e, s, j)
    ensures s >= PAGE_SIZE ==> StartOf(e, s, j) == e.data
  {
  }

  // No match in the chain, no block.
  lemma NothingFound(st: State, z: nat, ptr: nat, s: nat)
    requires Shape(st) && BitLength(s) == z < |st.chains|
    requires forall k, i {:trigger st.memory[st.chains[z][k]].entries[i]} ::
      0 <= k < |st.chains[z]| && 0 <= i < 63 && st.chains[z][k] in st.memory ==>
        !Matches(st.memory[st.chains[z][k]].entries[i], ptr)
    ensures !Holds(st.live, ptr, s)
  {
    hide Shape;
    hide BitLength;
    if Holds(st.live, ptr, s) {
      var a :| Covers(st.live, ptr, s, a);
      var k, i := ScanSees(st, z, ptr, s, a);
    }
  }
}
