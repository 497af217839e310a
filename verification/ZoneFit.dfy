// Which header page, which of its entries and which place serve a request of the zone allocator: the
// first that has room.
module ZoneFit {
  import opened ZoneSizes
  import opened ZoneBitmap
  import opened ZoneLayout
  import opened ZoneChains

  // The place is free and all before it are taken.
  ghost predicate FirstFree(bitmap: Bitmap, j: nat) {
    j < 256 && !On(bitmap, j) && forall c :: 0 <= c < j ==> On(bitmap, c)
  }

  ghost predicate Room(p: ZonePage, i: nat)
    requires i < 63
  {
    p.entries[i].objects < Places(p.objectSize)
  }

  ghost predicate FirstEntry(p: ZonePage, i: nat) {
    i < 63 && Room(p, i) && forall j :: 0 <= j < i ==> !Room(p, j)
  }

  // The block takes the first free place of the first entry with room.
  ghost predicate FirstFit(p: ZonePage, b: Block) {
    && FirstEntry(p, b.entry)
    && if p.objectSize < 4096 then FirstFree(p.entries[b.entry].bitmap, b.bit) else b.bit == 0
  }

  ghost predicate Full(p: ZonePage) {
    p.objects == 63 * Places(p.objectSize)
  }

  ghost predicate FullUpTo(m: Memory, chain: seq<nat>, k: nat) {
    k <= |chain| && forall j :: 0 <= j < k ==> chain[j] in m && Full(m[chain[j]])
  }

  // Page k is the first of the chain with room.
  ghost predicate FirstRoom(m: Memory, chain: seq<nat>, k: nat) {
    k < |chain| && FullUpTo(m, chain, k) && chain[k] in m && !Full(m[chain[k]])
  }

  // The block has the place that the first page with room has for it, or, when all pages are full, the
  // first place of a new page.
  ghost predicate Served(m: Memory, chain: seq<nat>, s: nat, b: Block) {
    || (exists k: nat :: FirstRoom(m, chain, k) && b.page == chain[k] && FirstFit(m[b.page], b))
    || (FullUpTo(m, chain, |chain|) && b.page !in m && FirstFit(ClearPage(s), b))
  }

  // An entry that has its page has a free place, too.
  ghost predicate HasSpare(p: ZonePage) {
    p.objectSize < 4096 && exists i :: 0 <= i < 63 && p.entries[i].data != 0 && Room(p, i)
  }

  ghost predicate SpareAhead(m: Memory, chain: seq<nat>) {
    exists k: nat :: FirstRoom(m, chain, k) && HasSpare(m[chain[k]])
  }

  // ---------- entries get their pages in order ----------

  ghost predicate PageInOrder(p: ZonePage) {
    p.objectSize < 4096 ==>
      forall i, j :: 0 <= i < j < 63 && p.entries[j].data != 0 ==> p.entries[i].data != 0
  }

  ghost predicate InOrder(m: Memory) {
    forall h :: h in m ==> PageInOrder(m[h])
  }

  // One entry of page h changed: it got n objects more, and it keeps its page if it has one.
  ghost predicate Filled(m: Memory, after: Memory, h: nat, i: nat, n: nat) {
    && h in m && i < 63 && h in after
    && after == Put(m, h, i, after[h].entries[i])
    && after[h].entries[i].objects == m[h].entries[i].objects + n
    && (m[h].entries[i].data != 0 ==> after[h].entries[i].data == m[h].entries[i].data)
  }

  lemma PutFills(m: Memory, h: nat, i: nat, e: Entry, n: nat)
    requires h in m && i < 63 && e.objects == m[h].entries[i].objects + n
    requires m[h].entries[i].data != 0 ==> e.data == m[h].entries[i].data
    ensures Filled(m, Put(m, h, i, e), h, i, n)
  {
  }

  lemma PutBack(m: Memory, h: nat, i: nat)
    requires h in m && i < 63
    ensures Put(m, h, i, m[h].entries[i]) == m
  {
    assert m[h].entries[i := m[h].entries[i]] == m[h].entries;
  }

  lemma FilledTwice(m: Memory, n: Memory, o: Memory, h: nat, i: nat, j: nat, k: nat)
    requires Filled(m, n, h, i, j) && Filled(n, o, h, i, k)
    ensures Filled(m, o, h, i, j + k)
  {
    var e := o[h].entries[i];
    assert n[h].entries[i := e] == m[h].entries[i := e];
    assert Put(n, h, i, e) == Put(m, h, i, e);
  }

  lemma FilledPage(m: Memory, after: Memory, h: nat, i: nat, n: nat)
    requires Filled(m, after, h, i, n) && Counted(m)
    ensures h in after && after[h].objects + n == Sum(after[h].entries, 63)
    ensures forall g :: g in after && g != h ==> after[g].objects == Sum(after[g].entries, 63)
    ensures n == 0 ==> Counted(after)
  {
    SumAfterUpdate(m[h].entries, i, after[h].entries[i], 63);
  }

  lemma FullHasPage(p: ZonePage, j: nat)
    requires PageOk(p) && p.objectSize < 4096 && j < 63 && !Room(p, j)
    ensures p.entries[j].data != 0
  {
    hide IsClass;
    assert EntryOk(p.entries[j], p.objectSize);
    PlacesFacts(p.objectSize);
  }

  lemma FilledInOrder(m: Memory, after: Memory, h: nat, i: nat, n: nat)
    requires Filled(m, after, h, i, n) && InOrder(m) && PageOk(m[h]) && FirstEntry(m[h], i)
    ensures InOrder(after)
  {
    hide PageOk;
    hide Room;
    var p, q := m[h], after[h];
    assert PageInOrder(p);
    if p.objectSize < 4096 {
      forall j, k | 0 <= j < k < 63 && q.entries[k].data != 0 ensures q.entries[j].data != 0 {
        if j < i {
          FullHasPage(p, j);
        }
      }
    }
  }

  // ---------- the walk along a chain ----------

  // The page the walk ends at: the first of the old chain with room, untouched, or a new one.
  ghost predicate Standing(m: Memory, chain: seq<nat>, s: nat, now: Memory, h: nat)
    requires h in now
  {
    || (now == m && exists k: nat :: FirstRoom(m, chain, k) && h == chain[k])
    || (FullUpTo(m, chain, |chain|) && h !in m && now[h] == ClearPage(s))
  }

  lemma NoneFull(m: Memory, chain: seq<nat>)
    ensures FullUpTo(m, chain, 0)
  {
  }

  lemma FullOne(m: Memory, chain: seq<nat>, k: nat, s: nat)
    requires k < |chain| && chain[k] in m && PageOk(m[chain[k]]) && SizeOk(s)
    requires BitLength(m[chain[k]].objectSize) == BitLength(s)
    ensures Full(m[chain[k]]) <==> m[chain[k]].objects == 63 * Places(s)
    ensures FullUpTo(m, chain, k) && Full(m[chain[k]]) ==> FullUpTo(m, chain, k + 1)
  {
    hide IsClass;
    hide BitLength;
    SameZone(m[chain[k]].objectSize, s);
  }

  lemma ClearHasRoom(s: nat)
    requires SizeOk(s)
    ensures !Full(ClearPage(s)) && Places(s) > 0 && ClearPage(s).objects == 0
  {
    hide IsClass;
    PlacesFacts(s);
  }

  lemma Stands(m: Memory, chain: seq<nat>, s: nat, now: Memory, h: nat, k: nat)
    requires h in now && !Full(now[h])
    requires (now == m && k < |chain| && h == chain[k] && FullUpTo(m, chain, k)) ||
      (FullUpTo(m, chain, |chain|) && h !in m && now[h] == ClearPage(s))
    ensures Standing(m, chain, s, now, h)
  {
    if now == m && k < |chain| && h == chain[k] && FullUpTo(m, chain, k) {
      assert FirstRoom(m, chain, k);
    }
  }

  lemma NotFull(p: ZonePage)
    requires !Full(p)
    ensures p.objects != 63 * Places(p.objectSize)
  {
  }

  // If there is a spare place ahead, the walk ends at its page.
  lemma StandingMeans(m: Memory, chain: seq<nat>, s: nat, now: Memory, h: nat)
    requires h in now && Standing(m, chain, s, now, h)
    ensures SpareAhead(m, chain) ==> h in m && HasSpare(now[h]) && now == m
    ensures h in m ==> now == m
  {
    if SpareAhead(m, chain) {
      var k: nat :| FirstRoom(m, chain, k) && HasSpare(m[chain[k]]);
      assert chain[k] in m && !Full(m[chain[k]]);
    }
  }

  lemma ServedFrom(m: Memory, chain: seq<nat>, s: nat, now: Memory, b: Block)
    requires b.page in now && Standing(m, chain, s, now, b.page) && FirstFit(now[b.page], b)
    ensures Served(m, chain, s, b)
  {
    hide FirstFit;
  }

  lemma NoSpare(m: Memory, chain: seq<nat>)
    requires FullUpTo(m, chain, |chain|)
    ensures !SpareAhead(m, chain)
  {
  }

  lemma NoSpareInNone(m: Memory)
    ensures !SpareAhead(m, [])
  {
  }

  // The first header page of a zone without any.
  lemma ServedFirst(m: Memory, a: nat, s: nat, b: Block)
    requires a !in m && SizeOk(s) && Served(m[a := ClearPage(s)], [a], s, b)
    ensures Served(m, [], s, b)
  {
    hide FirstFit;
    ClearHasRoom(s);
    var n := m[a := ClearPage(s)];
    assert n[a] == ClearPage(s) && [a][0] == a && !Full(n[a]);
    assert !FullUpTo(n, [a], 1);
  }
}
