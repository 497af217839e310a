/** The bucket table of core/mem/map_alg.c: finding, hanging and removing records, and the
    rehash into a larger table. */
module HashTable {
  import opened HashChains

  /** The table of first records with its collision counter; `chains` lists what hangs
      in each bucket. */
  class Table {
    const slots: array<Rec?>
    var collisions: nat
    ghost var chains: seq<Chain>
    ghost var repr: set<Rec>

    ghost predicate Hung()
      reads this`chains, this`repr, slots, repr`next
    {
      slots.Length == |chains| &&
      (forall b, i :: 0 <= b < |chains| && 0 <= i < |chains[b]| ==> chains[b][i] in repr) &&
      (forall b :: 0 <= b < |chains| ==> Linked(slots[b], chains[b]))
    }

    ghost predicate Valid()
      reads this, slots, repr`next
    {
      Filed(chains) && Hung() && collisions >= Crowding(chains)
    }

    constructor (capacity: nat)
      requires capacity > 0
      ensures Valid() && fresh(slots) && slots.Length == capacity && repr == {}
      ensures chains == EmptyChains(capacity) && collisions == 0 == Crowding(chains)
    {
      slots := new Rec?[capacity](_ => null);
      collisions := 0;
      chains := EmptyChains(capacity);
      repr := {};
      new;
      EmptyCounts(capacity);
    }

    static lemma {:induction false} EmptyCounts(capacity: nat)
      ensures Total(EmptyChains(capacity)) == 0 == NonEmpty(EmptyChains(capacity))
    {
      if capacity > 0 {
        assert EmptyChains(capacity)[..capacity - 1] == EmptyChains(capacity - 1);
        EmptyCounts(capacity - 1);
      }
    }

    /** The links of bucket `b` lead along its chain. */
    lemma ChainLinks(b: nat, i: nat)
      requires Hung() && b < |chains|
      ensures slots[b] == At(chains[b], 0)
      ensures i < |chains[b]| ==> chains[b][i] in repr && chains[b][i].next == At(chains[b], i + 1)
    {
      assert Linked(slots[b], chains[b]);
    }

    /** Walks bucket `b` until the key or the last record.  `i` is where it ends. */
    method WalkToEnd(b: nat, key: Digest) returns (last: Rec, dup: bool, ghost i: nat)
      requires Hung() && b < |chains| && chains[b] != []
      ensures i < |chains[b]| && last == chains[b][i]
      ensures dup <==> HasKey(chains[b], key)
      ensures !dup ==> i == |chains[b]| - 1
    {
      ChainLinks(b, 0);
      last := slots[b];
      i := 0;
      if last.key == key {
        return last, true, 0;
      }
      while last.next != null
        invariant i < |chains[b]| && last == chains[b][i]
        invariant forall j :: 0 <= j <= i ==> chains[b][j].key != key
        decreases |chains[b]| - i
      {
        ChainLinks(b, i);
        i := i + 1;
        last := last.next;
        if last.key == key {
          return last, true, i;
        }
      }
      ChainLinks(b, i);
      dup := false;
    }

    /** Hangs `r` at the end of bucket `b`; `last` is the last record there, if any. */
    method Hang(b: nat, last: Rec?, r: Rec)
      requires Filed(chains) && Hung() && b < |chains| && r !in repr && r.next == null
      requires last == At(chains[b], |chains[b]| - 1)
      modifies slots, repr`next
      ensures slots.Length == |chains| && Linked(slots[b], chains[b] + [r])
      ensures forall c :: 0 <= c < |chains| && c != b ==> Linked(slots[c], chains[c])
    {
      ChainLinks(b, 0);
      ghost var was := chains[b];
      forall c | 0 <= c < |chains| && c != b ensures last == null || last !in chains[c] {
        assert last != null ==> last in was;
      }
      assert Linked(slots[b], was);
      if last == null {
        slots[b] := r;
      } else {
        last.next := r;
      }
      forall c | 0 <= c < |chains| && c != b ensures Linked(slots[c], chains[c]) {
        assert old(Linked(slots[c], chains[c]));
      }
    }

    /** Records in the ghost state that `r` hangs at the end of bucket `b`. */
    ghost method Enlist(b: nat, r: Rec)
      requires b < |chains| == slots.Length
      requires forall c, i :: 0 <= c < |chains| && 0 <= i < |chains[c]| ==> chains[c][i] in repr
      requires Linked(slots[b], chains[b] + [r])
      requires forall c :: 0 <= c < |chains| && c != b ==> Linked(slots[c], chains[c])
      modifies this`chains, this`repr
      ensures Hung() && repr == old(repr) + {r} && chains == old(chains)[b := old(chains[b]) + [r]]
    {
      hide Linked;
      chains := chains[b := chains[b] + [r]];
      repr := repr + {r};
    }

    static lemma FiledAppend(chains: seq<Chain>, b: nat, r: Rec)
      requires Filed(chains) && b == Bucket(r.key, |chains|) && !HasKey(chains[b], r.key)
      ensures Filed(chains[b := chains[b] + [r]])
    {
      hide Bucket;
      assert forall i :: 0 <= i < |chains[b]| ==> chains[b][i].key != r.key;
    }

    /** Hangs a record behind the last one of its bucket, unless its digest is there. */
    method AddRecord(r: Rec) returns (ok: bool)
      requires Filed(chains) && Hung() && r !in repr && r.next == null
      modifies this, slots, repr`next
      ensures Filed(chains) && Hung() && |chains| == |old(chains)|
      ensures var b := Bucket(r.key, |old(chains)|);
        ok == !HasKey(old(chains[b]), r.key) &&
        chains == (if ok then old(chains)[b := old(chains[b]) + [r]] else old(chains)) &&
        repr == (if ok then old(repr) + {r} else old(repr))
      ensures collisions - Crowding(chains) == old(collisions) - Crowding(old(chains))
    {
      var h := Hash(r.key);
      var idx := h % slots.Length;
      hide Linked;
      ok := false;
      ChainLinks(idx, 0);
      if slots[idx] == null {
        ok := true;
        Append(idx, null, r);
      } else {
        var last, dup, i := WalkToEnd(idx, r.key);
        if !dup {
          ok := true;
          Append(idx, last, r);
          collisions := collisions + 1;
        }
      }
    }

    method Append(b: nat, last: Rec?, r: Rec)
      requires Filed(chains) && Hung() && r !in repr && r.next == null
      requires b == Bucket(r.key, |chains|) && !HasKey(chains[b], r.key)
      requires last == At(chains[b], |chains[b]| - 1)
      modifies this`chains, this`repr, slots, repr`next
      ensures Filed(chains) && Hung() && repr == old(repr) + {r}
      ensures chains == old(chains)[b := old(chains[b]) + [r]]
      ensures Crowding(chains) == old(Crowding(chains)) + if old(chains[b]) == [] then 0 else 1
    {
      FiledAppend(chains, b, r);
      CountUpdate(chains, b, chains[b] + [r]);
      Hang(b, last, r);
      hide Linked;
      hide Filed;
      Enlist(b, r);
    }

    /** Walks the bucket of `d` until the record with that digest. */
    method FindRecord(d: Digest) returns (r: Rec?, prev: Rec?, idx: nat, ghost k: nat)
      requires Hung() && |chains| > 0
      ensures idx == Bucket(d, |chains|)
      ensures r == null ==> !HasKey(chains[idx], d)
      ensures r != null ==> r.key == d && k < |chains[idx]| && r == chains[idx][k] && prev == At(chains[idx], k - 1)
    {
      var h := Hash(d);
      idx := h % slots.Length;
      hide Linked;
      ChainLinks(idx, 0);
      prev := null;
      k := 0;
      r := slots[idx];
      while r != null
        invariant k <= |chains[idx]| && r == At(chains[idx], k) && prev == At(chains[idx], k - 1)
        invariant forall j :: 0 <= j < k ==> chains[idx][j].key != d
        decreases |chains[idx]| - k
      {
        if r.key == d {
          return;
        }
        ChainLinks(idx, k);
        k := k + 1;
        prev := r;
        r := r.next;
      }
    }

    static lemma FiledWithout(chains: seq<Chain>, b: nat, k: nat)
      requires Filed(chains) && b < |chains| && k < |chains[b]|
      ensures Filed(chains[b := Without(chains[b], k)])
    {
      hide Bucket;
      var c, r := chains[b], Without(chains[b], k);
      assert forall i :: 0 <= i < |r| ==> r[i] == c[if i < k then i else i + 1];
    }

    static lemma WithoutFrom(c: Chain, k: nat)
      requires k < |c|
      ensures |Without(c, k)| == |c| - 1 && forall i :: 0 <= i < |c| - 1 ==> Without(c, k)[i] in c
    {
    }

    /** Takes the record at `k` out of bucket `b`. */
    method Unhang(b: nat, r: Rec, prev: Rec?, ghost k: nat)
      requires Filed(chains) && Hung() && b < |chains| && k < |chains[b]|
      requires r == chains[b][k] && prev == At(chains[b], k - 1)
      modifies slots, repr`next
      ensures slots.Length == |chains| && Linked(slots[b], Without(chains[b], k))
      ensures forall c :: 0 <= c < |chains| && c != b ==> Linked(slots[c], chains[c])
    {
      UnhangFacts(b, r, prev, k);
      hide Filed;
      hide Hung;
      ghost var was := chains[b];
      if prev != null {
        prev.next := r.next;
      } else {
        slots[b] := r.next;
      }
      forall c | 0 <= c < |chains| && c != b ensures Linked(slots[c], chains[c]) {
        assert old(Linked(slots[c], chains[c]));
      }
      forall i | 0 <= i < |was| - 1
        ensures Without(was, k)[i].next == At(Without(was, k), i + 1)
      {
        ghost var j := if i < k then i else i + 1;
        assert Without(was, k)[i] == was[j];
        assert old(was[j].next) == At(was, j + 1);
      }
    }

    lemma UnhangFacts(b: nat, r: Rec, prev: Rec?, k: nat)
      requires Filed(chains) && Hung() && b < |chains| && k < |chains[b]|
      requires r == chains[b][k] && prev == At(chains[b], k - 1)
      ensures slots.Length == |chains| && r.next == At(chains[b], k + 1) && (prev != null ==> prev in repr)
      ensures forall c :: 0 <= c < |chains| ==> Linked(slots[c], chains[c])
      ensures forall c :: 0 <= c < |chains| && c != b && prev != null ==> prev !in chains[c]
      ensures forall i :: 0 <= i < |chains[b]| && chains[b][i] == prev ==> i == k - 1
    {
      ChainLinks(b, k);
      assert prev != null ==> prev in chains[b];
    }

    /** Removes a record that was found.  The collision counter stays as it is. */
    method Remove(b: nat, r: Rec, prev: Rec?, ghost k: nat)
      requires Filed(chains) && Hung() && b < |chains| && k < |chains[b]|
      requires r == chains[b][k] && prev == At(chains[b], k - 1)
      modifies this`chains, slots, repr`next
      ensures Filed(chains) && Hung() && chains == old(chains)[b := Without(old(chains[b]), k)]
      ensures Crowding(chains) <= old(Crowding(chains))
    {
      hide *;
      RemoveFacts(b, k);
      ghost var rest := Without(chains[b], k);
      Unhang(b, r, prev, k);
      chains := chains[b := rest];
      HungAgain();
    }

    lemma RemoveFacts(b: nat, k: nat)
      requires Filed(chains) && Hung() && b < |chains| && k < |chains[b]|
      ensures var rest := Without(chains[b], k);
        Filed(chains[b := rest]) && Crowding(chains[b := rest]) <= Crowding(chains)
      ensures forall i :: 0 <= i < |Without(chains[b], k)| ==> Without(chains[b], k)[i] in repr
      ensures forall c, i :: 0 <= c < |chains| && 0 <= i < |chains[c]| ==> chains[c][i] in repr
    {
      FiledWithout(chains, b, k);
      CountUpdate(chains, b, Without(chains[b], k));
      hide Filed;
      WithoutFrom(chains[b], k);
    }

    lemma HungAgain()
      requires slots.Length == |chains|
      requires forall c, i :: 0 <= c < |chains| && 0 <= i < |chains[c]| ==> chains[c][i] in repr
      requires forall c :: 0 <= c < |chains| ==> Linked(slots[c], chains[c])
      ensures Hung()
    {
    }

    /** Releases every record, bucket by bucket; the release does not show in the model. */
    method Clear() returns (ghost freed: seq<Rec>)
      requires Filed(chains) && Hung()
      modifies this`chains, this`repr, slots
      ensures Filed(chains) && Hung() && freed == Flatten(old(chains))
      ensures chains == EmptyChains(|old(chains)|) && repr == {}
    {
      freed := ClearBuckets();
      chains := EmptyChains(|chains|);
      repr := {};
      NothingHangs();
    }

    /** The loop over the buckets. */
    method ClearBuckets() returns (ghost freed: seq<Rec>)
      requires Hung()
      modifies slots
      ensures freed == Flatten(chains) && forall c :: 0 <= c < slots.Length ==> slots[c] == null
    {
      freed := [];
      var i: nat := 0;
      while i < slots.Length
        invariant i <= slots.Length == |chains|
        invariant forall c :: 0 <= c < i ==> slots[c] == null
        invariant forall c :: i <= c < |chains| ==> Linked(slots[c], chains[c])
        invariant freed == Flatten(chains[..i])
      {
        assert chains[..i + 1][..i] == chains[..i];
        if slots[i] != null {
          ghost var some := ClearBucket(slots[i], chains[i]);
          freed := freed + some;
          slots[i] := null;
        }
        i := i + 1;
      }
      assert chains[..i] == chains;
    }

    lemma NothingHangs()
      requires chains == EmptyChains(slots.Length) && |chains| > 0
      requires forall c :: 0 <= c < slots.Length ==> slots[c] == null
      ensures Filed(chains) && Hung()
    {
    }

    /** The inner loop: releases a chain from its first record on. */
    method ClearBucket(first: Rec, ghost c: Chain) returns (ghost freed: seq<Rec>)
      requires Linked(first, c)
      ensures freed == c
    {
      freed := [];
      var p: Rec? := first;
      while p != null
        invariant |freed| <= |c| && p == At(c, |freed|) && freed == c[..|freed|]
        decreases |c| - |freed|
      {
        freed := freed + [p];
        p := p.next;
      }
    }
  }

  // ----- Growing -----

  ghost function Elems(c: Chain): set<Rec> {
    set r | r in c
  }

  /** The table `t` is what results from adding the records of `s` one by one. */
  ghost predicate BuiltFrom(t: Table, s: Chain)
    reads t, t.slots, t.repr`next
  {
    Filed(t.chains) && t.Hung() && t.chains == PutAll(|t.chains|, s) && t.repr == Elems(s) &&
    t.collisions == Crowding(t.chains)
  }

  /** A record with a new key goes into the table; the duplicate check never strikes. */
  method MoveRecord(t: Table, r: Rec, ghost s: Chain)
    requires BuiltFrom(t, s) && UniqueKeys(s + [r]) && r.next == null
    modifies t, t.slots, t.repr`next
    ensures BuiltFrom(t, s + [r]) && |t.chains| == |old(t.chains)| && t.repr == old(t.repr) + {r}
  {
    hide *;
    MoveRecordFacts(t, r, s);
    var ok := t.AddRecord(r);
    BuiltIntro(t, s + [r]);
  }

  lemma MoveRecordFacts(t: Table, r: Rec, s: Chain)
    requires BuiltFrom(t, s) && UniqueKeys(s + [r])
    ensures Filed(t.chains) && t.Hung() && |t.chains| > 0 && r !in t.repr
    ensures t.repr == Elems(s) && t.collisions - Crowding(t.chains) == 0
    ensures var b := Bucket(r.key, |t.chains|);
      !HasKey(t.chains[b], r.key) && PutAll(|t.chains|, s + [r]) == t.chains[b := t.chains[b] + [r]]
    ensures Elems(s + [r]) == Elems(s) + {r}
  {
    hide Bucket;
    NewKey(|t.chains|, s, r);
    assert (s + [r])[..|s|] == s;
    assert r !in s by { assert (s + [r])[|s|] == r; }
  }

  lemma BuiltIntro(t: Table, s: Chain)
    requires Filed(t.chains) && t.Hung() && |t.chains| > 0
    requires t.chains == PutAll(|t.chains|, s) && t.repr == Elems(s) && t.collisions - Crowding(t.chains) == 0
    ensures BuiltFrom(t, s)
  {
  }

  lemma NewKey(capacity: nat, s: Chain, r: Rec)
    requires capacity > 0 && UniqueKeys(s + [r])
    ensures !HasKey(PutAll(capacity, s)[Bucket(r.key, capacity)], r.key)
  {
    hide Bucket;
    assert UniqueKeys(s) by {
      assert forall i :: 0 <= i < |s| ==> s[i] == (s + [r])[i];
    }
    assert !HasKey(s, r.key) by {
      forall i | 0 <= i < |s| ensures s[i].key != r.key {
        assert (s + [r])[i] == s[i] && (s + [r])[|s|] == r;
      }
    }
    FindNone(s, r.key);
    PutAllFinds(capacity, s, r.key);
    FindNone(PutAll(capacity, s)[Bucket(r.key, capacity)], r.key);
  }

  /** One turn of the inner loop: unhooks the first record of `rest` and adds it to `t`. */
  method MoveNext(t: Table, r: Rec, ghost s: Chain, ghost rest: Chain) returns (next: Rec?)
    requires BuiltFrom(t, s) && UniqueKeys(s + rest) && rest != [] && Linked(r, rest)
    modifies t, t.slots, t.repr`next, r`next
    ensures BuiltFrom(t, s + [r]) && |t.chains| == |old(t.chains)| && Linked(next, rest[1..])
    ensures t.repr == old(t.repr) + {r}
  {
    hide *;
    MoveFacts(t, r, s, rest);
    next := r.next;
    r.next := null;
    MoveRecord(t, r, s);
  }

  /** What the first record of `rest` and those behind it have to do with `t`. */
  lemma MoveFacts(t: Table, r: Rec, s: Chain, rest: Chain)
    requires BuiltFrom(t, s) && UniqueKeys(s + rest) && rest != [] && Linked(r, rest)
    ensures r == rest[0] && UniqueKeys(s + [r]) && Linked(r.next, rest[1..])
    ensures r !in t.repr && forall x :: x in rest[1..] ==> x !in t.repr && x != r
  {
    KeysApart(s, rest);
    assert forall k :: 0 <= k < |rest| - 1 ==> rest[1..][k] == rest[k + 1];
  }

  lemma KeysApart(s: Chain, rest: Chain)
    requires UniqueKeys(s + rest) && rest != []
    ensures UniqueKeys(s + [rest[0]])
    ensures forall k :: 0 <= k < |rest| ==> rest[k] !in s
    ensures forall k :: 0 < k < |rest| ==> rest[k] != rest[0]
  {
    var all := s + rest;
    assert s + [rest[0]] == all[..|s| + 1];
    forall k | 0 <= k < |rest| ensures rest[k] !in s {
      assert all[|s| + k] == rest[k];
      forall i | 0 <= i < |s| ensures s[i] != rest[k] {
        assert all[i] == s[i];
      }
    }
    forall k | 0 < k < |rest| ensures rest[k] != rest[0] {
      assert all[|s| + k] == rest[k] && all[|s|] == rest[0];
    }
  }

  /** Takes a chain apart from its first record on and adds each record to `t`. */
  method MoveChain(t: Table, first: Rec, ghost s: Chain, ghost c: Chain)
    requires BuiltFrom(t, s) && UniqueKeys(s + c) && Linked(first, c)
    modifies t, t.slots, t.repr`next, c`next
    ensures BuiltFrom(t, s + c) && |t.chains| == |old(t.chains)|
    ensures forall x :: x in t.repr ==> x in old(t.repr) || x in c
  {
    hide BuiltFrom;
    hide UniqueKeys;
    var r: Rec? := first;
    ghost var done, rest: Chain := [], c;
    assert s + done == s && done + rest == c && s + done + rest == s + c;
    while r != null
      invariant |t.chains| == |old(t.chains)| && t.repr <= old(t.repr) + Elems(done) && Elems(done) <= Elems(c)
      invariant done + rest == c && s + done + rest == s + c
      invariant Linked(r, rest) && BuiltFrom(t, s + done)
      decreases |rest|
    {
      RestStep(s, done, rest);
      r := MoveNext(t, r, s + done, rest);
      done, rest := done + [rest[0]], rest[1..];
    }
    assert done == c;
  }

  lemma RestStep(s: Chain, done: Chain, rest: Chain)
    requires rest != []
    ensures s + done + [rest[0]] == s + (done + [rest[0]])
    ensures s + (done + [rest[0]]) + rest[1..] == s + done + rest
    ensures done + [rest[0]] + rest[1..] == done + rest && rest[0] in done + rest
    ensures Elems(done + [rest[0]]) == Elems(done) + {rest[0]}
  {
  }

  /** The list of chains is in order; that says nothing about the links. */
  ghost predicate Shape(table: Table)
    reads table`chains, table`repr
  {
    Filed(table.chains) && table.slots.Length == |table.chains| &&
    forall b, k :: 0 <= b < |table.chains| && 0 <= k < |table.chains[b]| ==> table.chains[b][k] in table.repr
  }

  /** The buckets from `i` on still hang in the old table. */
  ghost predicate RestHangs(table: Table, i: nat)
    requires table.slots.Length == |table.chains|
    requires Shape(table)
    reads table`chains, table`repr, table.slots, table.repr`next
  {
    forall b :: i <= b < |table.chains| ==> Linked(table.slots[b], table.chains[b])
  }

  /** How bucket `i` stands to what is in the new table and to the buckets behind it. */
  lemma BucketApart(table: Table, t: Table, i: nat)
    requires Shape(table) && RestHangs(table, i) && i < |table.chains| && BuiltFrom(t, Flatten(table.chains[..i]))
    ensures i < table.slots.Length == |table.chains| && Linked(table.slots[i], table.chains[i])
    ensures table.slots[i] == null ==> table.chains[i] == []
    ensures forall b :: i <= b < |table.chains| ==> Linked(table.slots[b], table.chains[b])
    ensures UniqueKeys(Flatten(table.chains[..i]) + table.chains[i])
    ensures Flatten(table.chains[..i + 1]) == Flatten(table.chains[..i]) + table.chains[i]
    ensures forall x :: x in table.chains[i] ==> x in table.repr
    ensures forall b, x {:trigger x in table.chains[b]} ::
      i < b < |table.chains| && x in table.chains[b] ==> x !in t.repr && x !in table.chains[i]
  {
    hide Bucket;
    var all := table.chains;
    assert all[..i + 1][..i] == all[..i];
    UniqueFlatten(all, i);
    UniqueFlatten(all, i + 1);
    assert t.repr == Elems(Flatten(all[..i]));
    hide BuiltFrom;
    hide Flatten;
    forall b, x | i < b < |all| && x in all[b] ensures x !in t.repr && x !in all[i] {
      assert Bucket(x.key, |all|) == b;
    }
  }

  /** One turn of the outer loop. */
  method MoveBucket(table: Table, t: Table, i: nat)
    requires Shape(table) && RestHangs(table, i) && i < |table.chains| && BuiltFrom(t, Flatten(table.chains[..i]))
    requires table != t && table.slots != t.slots && t.repr <= table.repr
    modifies t, t.slots, t.repr`next, table.repr`next
    ensures Shape(table) && RestHangs(table, i + 1) && BuiltFrom(t, Flatten(table.chains[..i + 1]))
    ensures |t.chains| == |old(t.chains)| && t.repr <= table.repr
  {
    hide *;
    BucketApart(table, t, i);
    if table.slots[i] != null {
      MoveChain(t, table.slots[i], Flatten(table.chains[..i]), table.chains[i]);
    } else {
      assert Flatten(table.chains[..i]) + [] == Flatten(table.chains[..i]);
    }
    forall b | i < b < |table.chains| ensures Linked(table.slots[b], table.chains[b]) {
      assert old(Linked(table.slots[b], table.chains[b]));
      assert forall x :: x in table.chains[b] ==> x.next == old(x.next);
      assert table.slots[b] == old(table.slots[b]);
    }
    RestIntro(table, i + 1);
  }

  lemma RestIntro(table: Table, i: nat)
    requires Shape(table) && |table.chains| == table.slots.Length
    requires forall b :: i <= b < |table.chains| ==> Linked(table.slots[b], table.chains[b])
    ensures RestHangs(table, i)
  {
  }

  /** The loops of the rehash: takes all buckets of `table` apart and fills `t`. */
  method MoveAll(table: Table, t: Table)
    requires Filed(table.chains) && table.Hung() && BuiltFrom(t, [])
    requires table != t && table.slots != t.slots && t.repr <= table.repr
    modifies t, t.slots, t.repr`next, table.repr`next
    ensures BuiltFrom(t, Flatten(table.chains)) && |t.chains| == |old(t.chains)|
    ensures t.repr <= table.repr
  {
    hide Filed;
    var i: nat := 0;
    assert Shape(table) && RestHangs(table, 0);
    assert Flatten(table.chains[..0]) == [];
    hide Shape;
    hide RestHangs;
    hide BuiltFrom;
    hide Flatten;
    while i < table.slots.Length
      invariant i <= table.slots.Length == |table.chains| && |t.chains| == |old(t.chains)|
      invariant Shape(table) && RestHangs(table, i) && BuiltFrom(t, Flatten(table.chains[..i])) && t.repr <= table.repr
    {
      MoveBucket(table, t, i);
      i := i + 1;
    }
    assert table.chains[..i] == table.chains;
  }

  /** Nothing gets lost or comes in by a rehash: every digest finds what it found before,
      the number of records stays, and every record is where it belongs. */
  lemma RehashKeeps(chains: seq<Chain>, capacity: nat)
    requires Filed(chains) && capacity > 0
    ensures forall d :: Lookup(PutAll(capacity, Flatten(chains)), d) == Lookup(chains, d)
    ensures Total(PutAll(capacity, Flatten(chains))) == Total(chains)
  {
    assert chains[..|chains|] == chains;
    UniqueFlatten(chains, |chains|);
    forall d ensures Lookup(PutAll(capacity, Flatten(chains)), d) == Lookup(chains, d) {
      FindFlatten(chains, |chains|, d);
      PutAllFinds(capacity, Flatten(chains), d);
    }
    PutAllTotal(capacity, Flatten(chains));
    FlattenLength(chains);
  }

  lemma {:induction false} PutAllTotal(capacity: nat, s: Chain)
    requires capacity > 0
    ensures Total(PutAll(capacity, s)) == |s|
  {
    hide Bucket;
    if s == [] {
      Table.EmptyCounts(capacity);
    } else {
      var rest, r := PutAll(capacity, s[..|s| - 1]), s[|s| - 1];
      PutAllTotal(capacity, s[..|s| - 1]);
      CountUpdate(rest, Bucket(r.key, capacity), rest[Bucket(r.key, capacity)] + [r]);
    }
  }

  lemma {:induction false} FlattenLength(chains: seq<Chain>)
    ensures |Flatten(chains)| == Total(chains)
  {
    if chains != [] {
      FlattenLength(chains[..|chains| - 1]);
    }
  }
}
