/** The chained hash map of core/mem/map_alg.c.

    Records are filed under a 20-byte digest of the key.  `view` is the plain map from
    digests to data that the bucket table stands for. */
module HashMap {
  import opened HashChains
  import opened HashTable

  class Map {
    const digest: seq<Byte> -> Digest // the hash callback, or the key cut or filled up to 20 bytes
    var table: Table
    var records: nat
    ghost var view: map<Digest, Data>

    ghost predicate Valid()
      reads this, table, table.slots, table.repr`next
    {
      table.Valid() && records == Total(table.chains) && Represents(table.chains, view)
    }

    constructor (digest: seq<Byte> -> Digest, capacity: nat)
      requires capacity > 0
      ensures Valid() && fresh(table) && fresh(table.slots) && fresh(table.repr) && view == map[] && records == 0
    {
      this.digest := digest;
      table := new Table(capacity);
      records := 0;
      view := map[];
      new;
      Table.EmptyCounts(capacity);
      assert forall d :: Lookup(table.chains, d) == None;
    }

    /** Doubles the table plus one if the allocator grants it. */
    method Remap(granted: bool)
      requires Valid()
      modifies this`table, table.repr`next
      ensures Valid() && (table == old(table) || (fresh(table) && fresh(table.slots))) && table.repr <= old(table.repr)
      ensures granted ==> |table.chains| == 2 * |old(table.chains)| + 1 && table.collisions == Crowding(table.chains)
      ensures !granted ==> table == old(table)
      ensures records == old(records) && view == old(view)
    {
      if granted {
        var t := new Table(2 * table.slots.Length + 1);
        Refill(t);
        table := t;
      }
    }

    /** Moves the records over to the new table `t`. */
    method Refill(t: Table)
      requires Valid() && t.Valid() && t != table && t.slots != table.slots
      requires t.repr == {} && t.chains == EmptyChains(|t.chains|) && t.collisions == Crowding(t.chains)
      modifies t, t.slots, t.repr`next, table.repr`next
      ensures t.Valid() && records == Total(t.chains) && Represents(t.chains, view)
      ensures |t.chains| == |old(t.chains)| && t.collisions == Crowding(t.chains) && t.repr <= table.repr
    {
      StartEmpty(t);
      RehashKeeps(table.chains, |t.chains|);
      ghost var s := Flatten(table.chains);
      assert Represents(PutAll(|t.chains|, s), view);
      assert records == Total(PutAll(|t.chains|, s));
      assert Filed(table.chains) && table.Hung();
      hide *;
      MoveAll(table, t);
      Built(t, s);
    }

    static lemma StartEmpty(t: Table)
      requires t.Valid() && t.repr == {} && |t.chains| > 0 && t.chains == EmptyChains(|t.chains|)
      requires t.collisions == Crowding(t.chains)
      ensures BuiltFrom(t, [])
    {
    }

    static lemma Built(t: Table, s: Chain)
      requires BuiltFrom(t, s)
      ensures t.Valid() && t.chains == PutAll(|t.chains|, s) && t.collisions == Crowding(t.chains)
    {
    }

    /** Finding or not finding a record says what the plain map has. */
    static lemma FindMeans(chains: seq<Chain>, view: map<Digest, Data>, d: Digest)
      requires Filed(chains) && Represents(chains, view)
      ensures var c := chains[Bucket(d, |chains|)];
        (HasKey(c, d) <==> d in view) &&
        forall k :: 0 <= k < |c| && c[k].key == d ==> d in view && c[k].data == view[d]
    {
      var c := chains[Bucket(d, |chains|)];
      assert Lookup(chains, d) == MapGet(view, d);
      FindNone(c, d);
      forall k | 0 <= k < |c| && c[k].key == d ensures d in view && c[k].data == view[d] {
        FindAt(c, k);
      }
    }

    /** Adding at the end of its bucket is adding to the plain map. */
    static lemma AddMeans(chains: seq<Chain>, view: map<Digest, Data>, r: Rec)
      requires Filed(chains) && Represents(chains, view) && r.key !in view
      ensures var b := Bucket(r.key, |chains|);
        !HasKey(chains[b], r.key) && Represents(chains[b := chains[b] + [r]], view[r.key := r.data])
    {
      var b := Bucket(r.key, |chains|);
      var chains' := chains[b := chains[b] + [r]];
      FindMeans(chains, view, r.key);
      forall d ensures Lookup(chains', d) == MapGet(view[r.key := r.data], d) {
        assert Lookup(chains, d) == MapGet(view, d);
        FindAppend(chains[b], r, d);
      }
    }

    /** Taking a record out of its bucket is removing its digest from the plain map. */
    static lemma RemoveMeans(chains: seq<Chain>, view: map<Digest, Data>, b: nat, k: nat)
      requires Filed(chains) && Represents(chains, view) && b < |chains| && k < |chains[b]|
      ensures Represents(chains[b := Without(chains[b], k)], view - {chains[b][k].key})
    {
      var chains' := chains[b := Without(chains[b], k)];
      var view' := view - {chains[b][k].key};
      forall d ensures Lookup(chains', d) == MapGet(view', d) {
        assert Lookup(chains, d) == MapGet(view, d);
        FindWithout(chains[b], k, d);
      }
    }

    static lemma ClearMeans(capacity: nat)
      requires capacity > 0
      ensures Represents(EmptyChains(capacity), map[]) && Total(EmptyChains(capacity)) == 0
      ensures Crowding(EmptyChains(capacity)) == 0
    {
      Table.EmptyCounts(capacity);
      assert forall d :: Lookup(EmptyChains(capacity), d) == None;
    }

    /** Finds the record of a key; an empty key is never looked up. */
    method GetRecord(key: seq<Byte>) returns (r: Rec?, prev: Rec?, hk: Digest, idx: nat, ghost k: nat)
      requires Valid()
      ensures hk == if key == [] then ZERO_DIGEST else digest(key)
      ensures r != null <==> key != [] && hk in view
      ensures r != null ==> r.key == hk && r.data == view[hk] && idx < |table.chains| && k < |table.chains[idx]|
      ensures r != null ==> r == table.chains[idx][k] && prev == At(table.chains[idx], k - 1)
    {
      r, prev, hk, idx, k := null, null, ZERO_DIGEST, 0, 0;
      if |key| > 0 {
        hk := digest(key);
        FindMeans(table.chains, view, hk);
        hide Represents;
        r, prev, idx, k := table.FindRecord(hk);
      }
    }

    method Get(key: seq<Byte>) returns (data: Option<Data>)
      requires Valid()
      ensures data == if key == [] then None else MapGet(view, digest(key))
    {
      var r, prev, hk, idx, k := GetRecord(key);
      data := if r != null then Some(r.data) else None;
    }

    /** Files a new record under `hk` and lets the table grow when it is full.  A digest
        that is there already makes it fail. */
    method Insert(hk: Digest, data: Data, recordOk: bool, tableOk: bool) returns (r: Rec?)
      requires Valid()
      modifies this`table, this`records, this`view, table, table.slots, table.repr`next
      ensures Valid() && (r != null <==> recordOk && hk !in old(view))
      ensures r == null ==> view == old(view)
      ensures r != null ==> r.key == hk && r.data == data && view == old(view)[hk := data]
      ensures table == old(table) || (fresh(table) && fresh(table.slots))
      ensures fresh(table.repr - old(table.repr))
      ensures records == old(records) + if r != null then 1 else 0
      ensures |table.chains| ==
        if r != null && records >= old(|table.chains|) && tableOk then 2 * old(|table.chains|) + 1 else old(|table.chains|)
    {
      if !recordOk {
        return null;
      }
      var p := new Rec(hk, data);
      var ok := File(p);
      if ok {
        if records >= table.slots.Length {
          Remap(tableOk);
        }
        r := p;
      } else {
        r := null;
      }
    }

    method File(p: Rec) returns (ok: bool)
      requires Valid() && p !in table.repr && p.next == null
      modifies this`records, this`view, table, table.slots, table.repr`next
      ensures Valid() && ok == (p.key !in old(view)) && table.repr <= old(table.repr) + {p}
      ensures view == if ok then old(view)[p.key := p.data] else old(view)
      ensures records == old(records) + if ok then 1 else 0
      ensures |table.chains| == old(|table.chains|) == table.slots.Length
    {
      ghost var b := Bucket(p.key, |table.chains|);
      FindMeans(table.chains, view, p.key);
      CountUpdate(table.chains, b, table.chains[b] + [p]);
      if p.key !in view {
        AddMeans(table.chains, view, p);
      }
      hide Represents;
      hide Filed;
      hide Total;
      hide NonEmpty;
      ok := table.AddRecord(p);
      if ok {
        records := records + 1;
        view := view[p.key := p.data];
      }
    }

    /** Adds a record, unless the key has one; either way returns the key's record. */
    method Add(key: seq<Byte>, data: Data, recordOk: bool, tableOk: bool) returns (r: Rec?)
      requires Valid()
      modifies this`table, this`records, this`view, table, table.slots, table.repr`next
      ensures Valid()
      ensures key != [] && digest(key) in old(view) ==>
        view == old(view) && r != null && r.key == digest(key) && r.data == view[r.key]
      ensures key != [] && digest(key) !in old(view) ==>
        (r != null <==> recordOk) && view == if recordOk then old(view)[digest(key) := data] else old(view)
      ensures key == [] ==>
        view == if recordOk && ZERO_DIGEST !in old(view) then old(view)[ZERO_DIGEST := data] else old(view)
      ensures key == [] ==> (r != null <==> recordOk && ZERO_DIGEST !in old(view))
      ensures r != null && (key == [] || digest(key) !in old(view)) ==>
        r.data == data && r.key == if key == [] then ZERO_DIGEST else digest(key)
      ensures table == old(table) || (fresh(table) && fresh(table.slots))
      ensures fresh(table.repr - old(table.repr))
      ensures |table.chains| == if records > old(records) && records >= old(|table.chains|) && tableOk
                                then 2 * old(|table.chains|) + 1 else old(|table.chains|)
    {
      var found, prev, hk, idx, k := GetRecord(key);
      hide table.Valid;
      hide Represents;
      if found != null {
        r := found;
      } else {
        r := Insert(hk, data, recordOk, tableOk);
      }
    }

    /** Removes the record of a key. */
    method Del(key: seq<Byte>)
      requires Valid()
      modifies this`records, this`view, table, table.slots, table.repr`next
      ensures Valid() && view == if key == [] then old(view) else old(view) - {digest(key)}
      ensures table.repr == old(table.repr)
      ensures |table.chains| == old(|table.chains|)
    {
      var r, prev, hk, idx, k := GetRecord(key);
      if r != null {
        Drop(r, prev, idx, k);
      } else if key != [] {
        assert view - {digest(key)} == view;
      }
    }

    method Drop(r: Rec, prev: Rec?, idx: nat, ghost k: nat)
      requires Valid() && idx < |table.chains| && k < |table.chains[idx]|
      requires r == table.chains[idx][k] && prev == At(table.chains[idx], k - 1)
      modifies this`records, this`view, table, table.slots, table.repr`next
      ensures Valid() && view == old(view) - {r.key} && table.repr == old(table.repr)
      ensures |table.chains| == old(|table.chains|)
    {
      RemoveMeans(table.chains, view, idx, k);
      CountUpdate(table.chains, idx, Without(table.chains[idx], k));
      hide Represents;
      hide Filed;
      hide Total;
      hide NonEmpty;
      hide Without;
      table.Remove(idx, r, prev, k);
      records := records - 1;
      view := view - {r.key};
    }

    /** Replaces the data of a key.  The old record goes first, so an allocator that refuses
        leaves the key without one.  An empty key is never removed, so it is set only once. */
    method Set(key: seq<Byte>, data: Data, recordOk: bool, tableOk: bool) returns (r: Rec?)
      requires Valid()
      modifies this`table, this`records, this`view, table, table.slots, table.repr`next
      ensures Valid() && (r != null <==> recordOk && (key != [] || digest(key) !in old(view)))
      ensures r != null ==> r.key == digest(key) && r.data == data && view == old(view)[digest(key) := data]
      ensures r == null ==> view == if key == [] then old(view) else old(view) - {digest(key)}
      ensures table == old(table) || (fresh(table) && fresh(table.slots))
      ensures fresh(table.repr - old(table.repr))
      ensures |table.chains| ==
        if r != null && records >= old(|table.chains|) && tableOk then 2 * old(|table.chains|) + 1 else old(|table.chains|)
    {
      hide table.Valid;
      hide Represents;
      Del(key);
      var hk := digest(key);
      r := Insert(hk, data, recordOk, tableOk);
      assert (old(view) - {hk})[hk := data] == old(view)[hk := data];
    }

    /** Empties the map; with no record in it not even the collision counter is touched. */
    method Clr() returns (ghost freed: seq<Rec>)
      requires Valid()
      modifies this`records, this`view, table, table.slots
      ensures Valid() && view == map[] && records == 0 && freed == Flatten(old(table.chains))
      ensures table.repr <= old(table.repr)
      ensures old(records) != 0 ==> table.collisions == 0
      ensures old(records) == 0 ==> table.collisions == old(table.collisions)
    {
      freed := [];
      EmptyMeans(table.chains, view);
      if records != 0 {
        ClearMeans(|table.chains|);
        hide Represents;
        hide Filed;
        hide Total;
        hide NonEmpty;
        hide Flatten;
        freed := table.Clear();
        records := 0;
        table.collisions := 0;
        view := map[];
      }
    }

    lemma ListsRecords()
      requires Valid()
      ensures Lists(Flatten(table.chains), view)
    {
      hide Lists;
      RecordsOfView(table.chains, view);
    }

    /** Without records the plain map is empty. */
    static lemma EmptyMeans(chains: seq<Chain>, view: map<Digest, Data>)
      requires Filed(chains) && Represents(chains, view)
      ensures Total(chains) == 0 ==> view == map[] && Flatten(chains) == []
    {
      FlattenLength(chains);
      if Total(chains) == 0 {
        assert chains[..|chains|] == chains;
        forall d | d in view ensures false {
          assert Lookup(chains, d) == MapGet(view, d);
          FindFlatten(chains, |chains|, d);
        }
      }
    }
  }

  // ----- Enumeration -----

  lemma {:induction false} FlattenAt(chains: seq<Chain>, b: nat, j: nat)
    requires b < |chains| && j < |chains[b]|
    ensures |Flatten(chains[..b])| + j < |Flatten(chains)|
    ensures Flatten(chains)[|Flatten(chains[..b])| + j] == chains[b][j]
  {
    var n := |chains| - 1;
    if b < n {
      FlattenAt(chains[..n], b, j);
      assert chains[..n][..b] == chains[..b];
    }
  }

  lemma FlattenStep(chains: seq<Chain>, b: nat)
    requires b < |chains|
    ensures |Flatten(chains[..b + 1])| == |Flatten(chains[..b])| + |chains[b]|
    ensures chains[..|chains|] == chains
  {
    assert chains[..b + 1][..b] == chains[..b];
  }

  /** An enumeration in progress: the bucket it is in and the record it handed out last. */
  class Enum {
    const map_: Map
    var bucket: nat
    var current: Rec?

    constructor (m: Map)
      ensures map_ == m && current == null
    {
      map_, bucket, current := m, 0, null;
    }

    /** The current record is the one at `pos` of all records. */
    ghost predicate StandsAt(pos: nat)
      reads this, map_, map_.table`chains
    {
      var chains := map_.table.chains;
      current != null && bucket < |chains| &&
      var before := |Flatten(chains[..bucket])|;
      before <= pos < before + |chains[bucket]| && current == chains[bucket][pos - before]
    }

    /** Starts the walk at the first bucket that is not empty. */
    method First() returns (r: Rec?)
      requires map_.Valid()
      modifies this
      ensures r == At(Flatten(map_.table.chains), 0) && (r != null ==> r == current && StandsAt(0))
    {
      hide *;
      Sizes();
      NothingBefore();
      r := null;
      if map_.records != 0 {
        bucket := 0;
        while bucket < map_.table.slots.Length
          invariant bucket <= map_.table.slots.Length == |map_.table.chains| && r == null
          invariant |Flatten(map_.table.chains[..bucket])| == 0
        {
          BucketFacts(bucket, 0);
          r := map_.table.slots[bucket];
          if r != null {
            break;
          }
          bucket := bucket + 1;
        }
        if r != null {
          current := r;
          Stands(0);
        } else {
          NoBucketLeft(0);
        }
      }
    }

    lemma NothingBefore()
      requires map_.Valid()
      ensures |Flatten(map_.table.chains[..0])| == 0
      ensures map_.records == 0 ==> At(Flatten(map_.table.chains), 0) == null
    {
      FlattenLength(map_.table.chains);
    }

    /** Hands out the following record, or null behind the last one. */
    method Next(ghost pos: nat) returns (r: Rec?)
      requires map_.Valid() && StandsAt(pos)
      modifies this
      ensures r == At(Flatten(map_.table.chains), pos + 1) && (r != null ==> r == current && StandsAt(pos + 1))
      ensures r == null ==> current == null
    {
      PlaceFacts(pos);
      hide map_.Valid;
      hide Flatten;
      hide StandsAt;
      if current.next != null {
        current := current.next;
        r := current;
        Stands(pos + 1);
      } else {
        r := NextBucket(pos);
        current := r;
        if r != null {
          Stands(pos + 1);
        }
      }
    }

    /** Where the link of the current record leads. */
    lemma PlaceFacts(pos: nat)
      requires map_.Valid() && StandsAt(pos)
      ensures current != null && bucket < |map_.table.chains|
      ensures |Flatten(map_.table.chains[..bucket])| <= pos
      ensures current.next != null ==> var k := pos + 1 - |Flatten(map_.table.chains[..bucket])|;
        k < |map_.table.chains[bucket]| &&
        current.next == map_.table.chains[bucket][k] == At(Flatten(map_.table.chains), pos + 1)
      ensures current.next == null ==> pos + 1 == |Flatten(map_.table.chains[..bucket + 1])|
    {
      var chains := map_.table.chains;
      var j := pos - |Flatten(chains[..bucket])|;
      map_.table.ChainLinks(bucket, j);
      FlattenStep(chains, bucket);
      if j + 1 < |chains[bucket]| {
        FlattenAt(chains, bucket, j + 1);
      }
    }

    lemma Stands(pos: nat)
      requires current != null && bucket < |map_.table.chains|
      requires var before := |Flatten(map_.table.chains[..bucket])|;
        before <= pos < before + |map_.table.chains[bucket]| && current == map_.table.chains[bucket][pos - before]
      ensures StandsAt(pos)
    {
    }

    /** What the bucket `b` behind the first `n` records holds. */
    lemma BucketFacts(b: nat, n: nat)
      requires map_.Valid() && b < |map_.table.chains| && n == |Flatten(map_.table.chains[..b])|
      ensures |map_.table.chains| == map_.table.slots.Length
      ensures map_.table.slots[b] == null ==> |Flatten(map_.table.chains[..b + 1])| == n
      ensures map_.table.slots[b] != null ==>
        var chain := map_.table.chains[b];
        chain != [] && map_.table.slots[b] == chain[0] == At(Flatten(map_.table.chains), n)
    {
      map_.table.ChainLinks(b, 0);
      FlattenStep(map_.table.chains, b);
      if map_.table.chains[b] != [] {
        FlattenAt(map_.table.chains, b, 0);
      }
    }

    lemma NoBucketLeft(n: nat)
      requires map_.Valid() && n == |Flatten(map_.table.chains[..|map_.table.chains|])|
      ensures At(Flatten(map_.table.chains), n) == null
    {
      assert map_.table.chains[..|map_.table.chains|] == map_.table.chains;
    }

    lemma Sizes()
      requires map_.Valid()
      ensures |map_.table.chains| == map_.table.slots.Length
    {
    }

    method NextBucket(ghost pos: nat) returns (r: Rec?)
      requires map_.Valid() && bucket < |map_.table.chains|
      requires pos + 1 == |Flatten(map_.table.chains[..bucket + 1])|
      modifies this`bucket
      ensures r == At(Flatten(map_.table.chains), pos + 1)
      ensures r != null ==> bucket < |map_.table.chains| && |Flatten(map_.table.chains[..bucket])| == pos + 1
      ensures r != null ==> map_.table.chains[bucket] != [] && r == map_.table.chains[bucket][0]
    {
      hide *;
      Sizes();
      r := null;
      while r == null && bucket < map_.table.slots.Length - 1
        invariant bucket < |map_.table.chains| == map_.table.slots.Length
        invariant r == null ==> |Flatten(map_.table.chains[..bucket + 1])| == pos + 1
        invariant r != null ==> |Flatten(map_.table.chains[..bucket])| == pos + 1
        invariant r != null ==> map_.table.chains[bucket] != [] && r == map_.table.chains[bucket][0]
        invariant r != null ==> r == At(Flatten(map_.table.chains), pos + 1)
        decreases |map_.table.chains| - bucket
      {
        bucket := bucket + 1;
        BucketFacts(bucket, pos + 1);
        r := map_.table.slots[bucket];
      }
      if r == null {
        NoBucketLeft(pos + 1);
      }
    }
  }

  /** The records of a table are those of the plain map, each once. */
  ghost predicate Lists(seen: seq<Rec>, view: map<Digest, Data>) {
    && UniqueKeys(seen)
    && (forall i :: 0 <= i < |seen| ==> seen[i].key in view && seen[i].data == view[seen[i].key])
    && (forall d :: d in view ==> HasKey(seen, d))
  }

  lemma RecordsOfView(chains: seq<Chain>, view: map<Digest, Data>)
    requires Filed(chains) && Represents(chains, view)
    ensures Lists(Flatten(chains), view)
  {
    var all := Flatten(chains);
    assert chains[..|chains|] == chains;
    UniqueFlatten(chains, |chains|);
    forall i | 0 <= i < |all| ensures all[i].key in view && all[i].data == view[all[i].key] {
      InView(chains, view, all[i].key);
      FindAt(all, i);
    }
    forall d | d in view ensures HasKey(all, d) {
      InView(chains, view, d);
      if !HasKey(all, d) {
        FindNone(all, d);
      }
    }
  }

  /** A walk along all records finds what the plain map has. */
  lemma InView(chains: seq<Chain>, view: map<Digest, Data>, d: Digest)
    requires Filed(chains) && Represents(chains, view)
    ensures Find(Flatten(chains), d) == MapGet(view, d)
  {
    assert chains[..|chains|] == chains;
    assert Lookup(chains, d) == MapGet(view, d);
    FindFlatten(chains, |chains|, d);
  }

  /** A plain enumeration: the records it hands out, in the order in which it does, are the
      records of the plain map, each exactly once. */
  method VisitAll(m: Map) returns (seen: seq<Rec>)
    requires m.Valid()
    ensures seen == Flatten(m.table.chains) && Lists(seen, m.view)
  {
    m.ListsRecords();
    hide *;
    var e := new Enum(m);
    seen := Visit(e);
  }

  /** The loop of `VisitAll`. */
  method Visit(e: Enum) returns (seen: seq<Rec>)
    requires e.map_.Valid()
    modifies e
    ensures seen == Flatten(e.map_.table.chains)
  {
    hide *;
    ghost var all := Flatten(e.map_.table.chains);
    ghost var n: nat := 0;
    FirstsStart(all);
    seen := [];
    var r := e.First();
    while r != null
      invariant Firsts(seen, all, n)
      invariant r == At(all, n) && (r != null ==> e.StandsAt(n))
      decreases |all| - n
    {
      FirstsGrow(seen, all, n, r);
      var visited: Rec := r;
      r := e.Next(n);
      seen := seen + [visited];
      n := n + 1;
    }
    FirstsEnd(seen, all, n);
  }

  /** The first `n` records of all. */
  ghost predicate Firsts(seen: Chain, all: Chain, n: nat) {
    n <= |all| && seen == all[..n]
  }

  lemma FirstsStart(all: Chain)
    ensures Firsts([], all, 0)
  {
  }

  lemma FirstsGrow(seen: Chain, all: Chain, n: nat, r: Rec)
    requires Firsts(seen, all, n) && r == At(all, n)
    ensures n < |all| && Firsts(seen + [r], all, n + 1)
  {
  }

  lemma FirstsEnd(seen: Chain, all: Chain, n: nat)
    requires Firsts(seen, all, n) && At(all, n) == null
    ensures seen == all
  {
  }
}
