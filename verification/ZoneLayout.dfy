// The zone allocator's memory as a value: header pages at their addresses, each with a table of 63
// entries, the page ranges it owns, and the blocks that are live. Models core/mem/zone.h and the
// relations core/mem/zone.c keeps between them.
module ZoneLayout {
  import opened ZoneSizes
  import opened ZoneBitmap

  const MAX_ENTRIES: nat := 63
  const MAX_ZONES: nat := 512

  // The source overlays dataSize on the bitmap; a zone uses only one of the two.
  datatype Entry = Entry(bitmap: Bitmap, dataSize: nat, data: nat, objects: nat)

  type Entries = s: seq<Entry> | |s| == 63 witness seq(63, _ => Entry([0, 0, 0, 0], 0, 0, 0))

  const BLANK: Entry := Entry(EMPTY, 0, 0, 0)

  datatype ZonePage = ZonePage(next: nat, objects: nat, objectSize: nat, entries: Entries)

  type Memory = map<nat, ZonePage>

  // What the allocator uses a range of pages for.
  datatype Role = Table | Header(zone: nat, place: nat) | Data(page: nat, entry: nat)

  // A live block: its size and the place in a header page that stands for it.
  datatype Block = Block(size: nat, page: nat, entry: nat, bit: nat)

  function ClearPage(objectSize: nat): ZonePage {
    ZonePage(0, 0, objectSize, seq(63, _ => BLANK))
  }

  function Put(m: Memory, h: nat, i: nat, e: Entry): Memory
    requires h in m && i < 63
  {
    m[h := m[h].(entries := m[h].entries[i := e])]
  }

  ghost predicate SizeOk(s: nat) {
    IsClass(s) && s <= MAX_REQUEST
  }

  // How many objects an entry of a page with this object size can hold.
  function Places(s: nat): nat {
    if 0 < s < PAGE_SIZE then PAGE_SIZE / s else 1
  }

  function Offset(s: nat, j: nat): nat {
    j * s
  }

  lemma PlacesFacts(s: nat)
    requires SizeOk(s)
    ensures 16 <= s && 1 <= Places(s) <= 256
    ensures s >= PAGE_SIZE ==> Places(s) == 1
  {
  }

  lemma PlaceInside(s: nat, j: nat)
    requires SizeOk(s) && s < PAGE_SIZE && j < Places(s)
    ensures Offset(s, j) + s <= PAGE_SIZE
  {
    assert s in {16, 32, 64, 128, 256, 512, 1024, 2048};
  }

  lemma PlaceOf(s: nat, off: nat)
    requires SizeOk(s) && s < PAGE_SIZE && off < PAGE_SIZE
    ensures off / s < Places(s)
    ensures Offset(s, off / s) <= off < Offset(s, off / s) + s
  {
    assert s in {16, 32, 64, 128, 256, 512, 1024, 2048};
  }

  lemma PlacesApart(s: nat, j: nat, k: nat)
    requires s > 0 && j < k
    ensures Offset(s, j) + s <= Offset(s, k)
  {
    assert k * s == j * s + (k - j) * s;
    assert (k - j - 1) * s >= 0;
  }

  ghost predicate Occupied(e: Entry, s: nat, j: nat) {
    if s < PAGE_SIZE then j < Places(s) && j < 256 && On(e.bitmap, j) else j == 0 && e.objects == 1
  }

  function BlockSize(e: Entry, s: nat): nat {
    if s < PAGE_SIZE then s else e.dataSize
  }

  function StartOf(e: Entry, s: nat, j: nat): nat {
    e.data + Offset(s, j)
  }

  function DataPages(e: Entry, s: nat): nat {
    if s < PAGE_SIZE then 1 else e.dataSize / PAGE_SIZE
  }

  ghost predicate EntryOk(e: Entry, s: nat)
    requires SizeOk(s)
  {
    if s < PAGE_SIZE then
      PlacesFacts(s);
      e.objects == Count(e.bitmap, Places(s)) && (e.data == 0 ==> e.objects == 0)
    else
      if e.objects == 0 then e.data == 0
      else e.objects == 1 && e.data != 0 && LargeOk(e.dataSize, s)
  }

  // Sizes of a page or more share a zone, and so a header page, when they have the same length.
  ghost predicate LargeOk(size: nat, s: nat) {
    SizeOk(size) && size >= PAGE_SIZE && BitLength(size) == BitLength(s)
  }

  ghost predicate PageOk(p: ZonePage) {
    SizeOk(p.objectSize) && forall i :: 0 <= i < 63 ==> EntryOk(p.entries[i], p.objectSize)
  }

  ghost predicate PagesOk(m: Memory) {
    forall h {:trigger PageOk(m[h])} :: h in m ==> PageOk(m[h])
  }

  function At(chain: seq<nat>, k: nat): nat {
    if k < |chain| then chain[k] else 0
  }

  // The table holds the first page of each chain and every page the address of the next.
  ghost predicate Linked(zones: seq<nat>, m: Memory, chains: seq<seq<nat>>) {
    && |zones| == |chains| == MAX_ZONES
    && (forall z :: 0 <= z < |zones| ==> zones[z] == At(chains[z], 0))
    && (forall z, k {:trigger HeaderOk(m, chains, z, k)} ::
          0 <= z < |chains| && 0 <= k < |chains[z]| ==> HeaderOk(m, chains, z, k))
  }

  ghost predicate HeaderOk(m: Memory, chains: seq<seq<nat>>, z: nat, k: nat)
    requires z < |chains| && k < |chains[z]|
  {
    && chains[z][k] in m
    && m[chains[z][k]].next == At(chains[z], k + 1)
    && BitLength(m[chains[z][k]].objectSize) == z
  }

  ghost predicate Apart(a: nat, pages: nat, b: nat, others: nat) {
    a + pages * PAGE_SIZE <= b || b + others * PAGE_SIZE <= a
  }

  // Ranges of pages, none of them at address 0, no two of them overlapping.
  ghost predicate Ranges(owned: map<nat, nat>) {
    && (forall a :: a in owned ==> a >= PAGE_SIZE && owned[a] >= 1)
    && (forall a, b {:trigger Apart(a, owned[a], b, owned[b])} ::
          a in owned && b in owned && a != b ==> Apart(a, owned[a], b, owned[b]))
  }

  // A range the page allocator may hand out next.
  ghost predicate Fits(owned: map<nat, nat>, a: nat, pages: nat) {
    a >= PAGE_SIZE && pages >= 1 && forall b :: b in owned ==> Apart(a, pages, b, owned[b])
  }

  lemma FitsIsNew(owned: map<nat, nat>, a: nat, pages: nat)
    requires Ranges(owned) && Fits(owned, a, pages)
    ensures a !in owned && a != 0
    ensures Ranges(owned[a := pages])
  {
    assert a in owned ==> Apart(a, pages, a, owned[a]);
  }

  // Every owned range has one role and every role one range.
  ghost predicate Roles(table: nat, owned: map<nat, nat>, role: map<nat, Role>, m: Memory, chains: seq<seq<nat>>) {
    && role.Keys == owned.Keys
    && (forall a {:trigger RoleOk(role[a], a, table, owned, m, chains)} ::
          a in role ==> RoleOk(role[a], a, table, owned, m, chains))
    && table in role && role[table] == Table
    && (forall z, k {:trigger HasRole(role, chains[z][k], Header(z, k))} ::
          0 <= z < |chains| && 0 <= k < |chains[z]| ==> HasRole(role, chains[z][k], Header(z, k)))
    && (forall h :: h in m ==> h in role && role[h].Header?)
    && (forall h, i {:trigger HasRole(role, m[h].entries[i].data, Data(h, i))} ::
          h in m && 0 <= i < 63 && m[h].entries[i].data != 0 ==> HasRole(role, m[h].entries[i].data, Data(h, i)))
  }

  ghost predicate HasRole(role: map<nat, Role>, a: nat, r: Role) {
    a in role && role[a] == r
  }

  ghost predicate RoleOk(r: Role, a: nat, table: nat, owned: map<nat, nat>, m: Memory, chains: seq<seq<nat>>) {
    a in owned &&
    match r
    case Table => a == table && owned[a] == 1
    case Header(z, k) => z < |chains| && k < |chains[z]| && chains[z][k] == a && owned[a] == 1
    case Data(h, i) =>
      h in m && i < 63 && m[h].entries[i].data == a && owned[a] == DataPages(m[h].entries[i], m[h].objectSize)
  }

  ghost predicate BlockOk(b: Block, a: nat, m: Memory) {
    && b.page in m && b.entry < 63
    && var p := m[b.page];
       Occupied(p.entries[b.entry], p.objectSize, b.bit)
       && a == StartOf(p.entries[b.entry], p.objectSize, b.bit)
       && b.size == BlockSize(p.entries[b.entry], p.objectSize)
  }

  ghost predicate IsLive(live: map<nat, Block>, m: Memory, h: nat, i: nat, j: nat)
    requires h in m && i < 63
  {
    var a := StartOf(m[h].entries[i], m[h].objectSize, j);
    a in live && live[a] == Block(BlockSize(m[h].entries[i], m[h].objectSize), h, i, j)
  }

  // The live blocks are the occupied places.
  ghost predicate LiveOk(live: map<nat, Block>, m: Memory) {
    && (forall a {:trigger BlockOk(live[a], a, m)} :: a in live ==> BlockOk(live[a], a, m))
    && (forall h, i, j {:trigger IsLive(live, m, h, i, j)} ::
          h in m && 0 <= i < 63 && j >= 0 && Occupied(m[h].entries[i], m[h].objectSize, j) ==> IsLive(live, m, h, i, j))
  }

  datatype State = State(
    table: nat,
    zones: seq<nat>,
    memory: Memory,
    owned: map<nat, nat>,
    chains: seq<seq<nat>>,
    role: map<nat, Role>,
    live: map<nat, Block>)

  // Everything but the counters of the header pages.
  ghost predicate Shape(st: State) {
    && Linked(st.zones, st.memory, st.chains)
    && Ranges(st.owned)
    && Roles(st.table, st.owned, st.role, st.memory, st.chains)
    && PagesOk(st.memory)
    && LiveOk(st.live, st.memory)
  }

  function Sum(entries: Entries, n: nat): nat
    requires n <= 63
  {
    if n == 0 then 0 else Sum(entries, n - 1) + entries[n - 1].objects
  }

  // A header page counts the objects of its entries.
  ghost predicate Counted(m: Memory) {
    forall h :: h in m ==> m[h].objects == Sum(m[h].entries, 63)
  }
}
