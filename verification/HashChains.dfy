/** The records of core/mem/map_alg.c, the index computed from a digest, and what a table of
    chains means: a plain map from digests to data. */
module HashChains {

  newtype Byte = x: int | 0 <= x < 256
  type Data = seq<Byte>

  const HASH_SIZE: nat := 20
  const TWO64: nat := 0x1_0000_0000_0000_0000

  type Digest = d: seq<Byte> | |d| == HASH_SIZE witness seq(20, _ => 0)

  const ZERO_DIGEST: Digest := seq(20, _ => 0)

  /** A record; the source never changes key and data of a filed record. */
  class Rec {
    const key: Digest
    const data: Data
    var next: Rec?

    constructor (key: Digest, data: Data)
      ensures this.key == key && this.data == data && next == null
    {
      this.key, this.data, next := key, data, null;
    }
  }

  // ----- The index of a digest -----

  function HashCode(s: seq<Byte>): nat {
    if s == [] then 5381 else (HashCode(s[..|s| - 1]) * 33 + s[|s| - 1] as nat) % TWO64
  }

  function Pow33(n: nat): nat {
    if n == 0 then 1 else 33 * Pow33(n - 1)
  }

  /** The bytes as digits to the base 33, the first one leading. */
  function Polynomial(s: seq<Byte>): nat {
    if s == [] then 0 else s[0] as nat * Pow33(|s| - 1) + Polynomial(s[1..])
  }

  lemma {:induction false} PolynomialMore(s: seq<Byte>, c: Byte)
    ensures Polynomial(s + [c]) == 33 * Polynomial(s) + c as nat
  {
    if s == [] {
      assert (s + [c])[1..] == [] && Pow33(0) == 1;
    } else {
      PolynomialMore(s[1..], c);
      assert (s + [c])[1..] == s[1..] + [c] && (s + [c])[0] == s[0];
      TimesPower(s[0] as nat, |s| - 1);
    }
  }

  lemma TimesPower(d: nat, n: nat)
    ensures d * Pow33(n + 1) == 33 * (d * Pow33(n))
  {
    var p := Pow33(n);
    assert d * (33 * p) == 33 * (d * p);
  }

  /** The hash in closed form, wrapped once at the end. */
  lemma {:induction false} HashIsPolynomial(s: seq<Byte>)
    ensures HashCode(s) == (5381 * Pow33(|s|) + Polynomial(s)) % 0x1_0000_0000_0000_0000
  {
    if s == [] {
      assert Pow33(0) == 1;
    } else {
      var front, c := s[..|s| - 1], s[|s| - 1];
      var whole := 5381 * Pow33(|front|) + Polynomial(front);
      HashIsPolynomial(front);
      PolynomialMore(front, c);
      assert s == front + [c];
      TimesPower(5381, |front|);
      Wrap33(whole, c as nat);
    }
  }

  lemma Wrap33(x: nat, c: nat)
    ensures (x % TWO64 * 33 + c) % TWO64 == (33 * x + c) % TWO64
  {
    assert x == TWO64 * (x / TWO64) + x % TWO64;
    var q := 33 * (x / TWO64);
    assert 33 * x + c == q * TWO64 + (x % TWO64 * 33 + c);
    Multiples(q, x % TWO64 * 33 + c);
  }

  lemma {:induction false} Multiples(q: nat, y: nat)
    ensures (q * TWO64 + y) % TWO64 == y % TWO64
  {
    if q > 0 {
      Multiples(q - 1, y);
      assert q * TWO64 + y == (q - 1) * TWO64 + y + TWO64;
      WrapOnce((q - 1) * TWO64 + y, TWO64);
    }
  }

  /** The multiplicative string hash, in unsigned 64-bit arithmetic. */
  method Hash(key: seq<Byte>) returns (h: nat)
    ensures h == HashCode(key)
  {
    h := 5381;
    var n: nat := 0;
    while n < |key|
      invariant n <= |key| && h == HashCode(key[..n])
    {
      assert key[..n + 1][..n] == key[..n];
      Times33(h, key[n] as nat);
      h := ((h * 32) % TWO64 + h + key[n] as nat) % TWO64;
      n := n + 1;
    }
    assert key[..n] == key;
  }

  /** Shifting first and wrapping again later is the same as wrapping once. */
  lemma Times33(h: nat, c: nat)
    ensures ((h * 32) % TWO64 + h + c) % TWO64 == (h * 33 + c) % TWO64
  {
    WrapOnce(h * 32, h + c);
  }

  lemma WrapOnce(x: nat, y: nat)
    ensures (x % TWO64 + y) % TWO64 == (x + y) % TWO64
  {
  }

  function Bucket(d: Digest, capacity: nat): (b: nat)
    requires capacity > 0
    ensures b < capacity
  {
    HashCode(d) % capacity
  }

  // ----- Chains as sequences -----

  type Chain = seq<Rec>

  function At(c: Chain, i: int): Rec? {
    if 0 <= i < |c| then c[i] else null
  }

  ghost predicate Linked(first: Rec?, c: Chain)
    reads c`next
  {
    first == At(c, 0) && forall i {:trigger c[i].next} :: 0 <= i < |c| ==> c[i].next == At(c, i + 1)
  }

  ghost predicate HasKey(c: Chain, d: Digest) {
    exists i :: 0 <= i < |c| && c[i].key == d
  }

  ghost predicate UniqueKeys(c: Chain) {
    forall i, j :: 0 <= i < j < |c| ==> c[i].key != c[j].key
  }

  /** Every record is in the bucket of its digest, and no digest occurs twice. */
  ghost predicate Filed(chains: seq<Chain>) {
    |chains| > 0 &&
    forall b :: 0 <= b < |chains| ==>
      UniqueKeys(chains[b]) && forall i :: 0 <= i < |chains[b]| ==> Bucket(chains[b][i].key, |chains|) == b
  }

  datatype Option<T> = None | Some(value: T)

  /** The data a walk along the chain finds under `d`. */
  ghost function Find(c: Chain, d: Digest): Option<Data> {
    if c == [] then None else if c[0].key == d then Some(c[0].data) else Find(c[1..], d)
  }

  ghost function Lookup(chains: seq<Chain>, d: Digest): Option<Data>
    requires |chains| > 0
  {
    Find(chains[Bucket(d, |chains|)], d)
  }

  ghost function MapGet(m: map<Digest, Data>, d: Digest): Option<Data> {
    if d in m then Some(m[d]) else None
  }

  /** The table stands for the plain map `view`. */
  ghost predicate Represents(chains: seq<Chain>, view: map<Digest, Data>)
    requires |chains| > 0
  {
    forall d :: Lookup(chains, d) == MapGet(view, d)
  }

  lemma {:induction false} FindAt(c: Chain, i: nat)
    requires UniqueKeys(c) && i < |c|
    ensures Find(c, c[i].key) == Some(c[i].data)
  {
    if i > 0 {
      assert c[0].key != c[i].key;
      FindAt(c[1..], i - 1);
    }
  }

  lemma {:induction false} FindNone(c: Chain, d: Digest)
    ensures Find(c, d) == None <==> !HasKey(c, d)
  {
    if c != [] && c[0].key != d {
      FindNone(c[1..], d);
      if HasKey(c, d) {
        var i :| 0 <= i < |c| && c[i].key == d;
        assert c[1..][i - 1].key == d;
      }
    }
  }

  lemma {:induction false} FindAppend(c: Chain, r: Rec, d: Digest)
    requires !HasKey(c, r.key)
    ensures Find(c + [r], d) == if d == r.key then Some(r.data) else Find(c, d)
  {
    if c == [] {
      assert c + [r] == [r];
    } else {
      assert (c + [r])[1..] == c[1..] + [r];
      assert c[0].key != r.key;
      assert !HasKey(c[1..], r.key) by {
        forall i | 0 <= i < |c[1..]| ensures c[1..][i].key != r.key { assert c[1..][i] == c[i + 1]; }
      }
      FindAppend(c[1..], r, d);
    }
  }

  function Without(c: Chain, k: nat): Chain
    requires k < |c|
  {
    c[..k] + c[k + 1..]
  }

  lemma {:induction false} FindWithout(c: Chain, k: nat, d: Digest)
    requires UniqueKeys(c) && k < |c|
    ensures Find(Without(c, k), d) == if d == c[k].key then None else Find(c, d)
  {
    if k == 0 {
      assert Without(c, 0) == c[1..];
      if d == c[0].key {
        FindNone(c[1..], d);
      }
    } else {
      assert Without(c, k)[1..] == Without(c[1..], k - 1) && Without(c, k)[0] == c[0];
      FindWithout(c[1..], k - 1, d);
    }
  }

  // ----- All records in one sequence -----

  ghost function Flatten(chains: seq<Chain>): Chain {
    if chains == [] then [] else Flatten(chains[..|chains| - 1]) + chains[|chains| - 1]
  }

  lemma {:induction false} FindConcat(a: Chain, b: Chain, d: Digest)
    ensures Find(a + b, d) == if Find(a, d).Some? then Find(a, d) else Find(b, d)
  {
    if a == [] {
      assert a + b == b;
    } else {
      assert (a + b)[1..] == a[1..] + b;
      FindConcat(a[1..], b, d);
    }
  }

  /** A walk through all buckets finds what the walk through the right bucket finds. */
  lemma {:induction false} FindFlatten(chains: seq<Chain>, n: nat, d: Digest)
    requires Filed(chains) && n <= |chains|
    ensures Find(Flatten(chains[..n]), d) ==
      if Bucket(d, |chains|) < n then Find(chains[Bucket(d, |chains|)], d) else None
  {
    hide Bucket;
    if n > 0 {
      FindFlatten(chains, n - 1, d);
      assert chains[..n][..n - 1] == chains[..n - 1];
      FindConcat(Flatten(chains[..n - 1]), chains[n - 1], d);
      FindNone(chains[n - 1], d);
      if Bucket(d, |chains|) != n - 1 {
        assert !HasKey(chains[n - 1], d);
      }
    }
  }

  lemma {:induction false} UniqueFlatten(chains: seq<Chain>, n: nat)
    requires Filed(chains) && n <= |chains|
    ensures UniqueKeys(Flatten(chains[..n]))
    ensures forall r :: r in Flatten(chains[..n]) ==> Bucket(r.key, |chains|) < n
  {
    hide Bucket;
    if n > 0 {
      UniqueFlatten(chains, n - 1);
      assert chains[..n][..n - 1] == chains[..n - 1];
      var front, last := Flatten(chains[..n - 1]), chains[n - 1];
      assert forall i :: 0 <= i < |front| ==> front[i] in front;
    }
  }

  ghost function EmptyChains(capacity: nat): seq<Chain> {
    seq(capacity, _ => [])
  }

  /** The chains after the records of `s` were added one by one to an empty table. */
  ghost function PutAll(capacity: nat, s: Chain): (chains: seq<Chain>)
    requires capacity > 0
    ensures |chains| == capacity
  {
    if s == [] then EmptyChains(capacity)
    else
      var rest, r := PutAll(capacity, s[..|s| - 1]), s[|s| - 1];
      var b := Bucket(r.key, capacity);
      rest[b := rest[b] + [r]]
  }

  /** In the table made of `s` one finds what a walk along `s` finds. */
  lemma {:induction false} PutAllFinds(capacity: nat, s: Chain, d: Digest)
    requires capacity > 0 && UniqueKeys(s)
    ensures Lookup(PutAll(capacity, s), d) == Find(s, d)
  {
    hide Bucket;
    if s == [] {
    } else {
      var front, r := s[..|s| - 1], s[|s| - 1];
      var rest := PutAll(capacity, front);
      PutAllFinds(capacity, front, d);
      PutAllFinds(capacity, front, r.key);
      assert s == front + [r];
      FindNone(front, r.key);
      FindNone(rest[Bucket(r.key, capacity)], r.key);
      FindAppend(front, r, d);
      FindAppend(rest[Bucket(r.key, capacity)], r, d);
    }
  }

  // ----- Numbers -----

  ghost function Total(chains: seq<Chain>): nat {
    if chains == [] then 0 else Total(chains[..|chains| - 1]) + |chains[|chains| - 1]|
  }

  ghost function NonEmpty(chains: seq<Chain>): nat {
    if chains == [] then 0
    else NonEmpty(chains[..|chains| - 1]) + if chains[|chains| - 1] == [] then 0 else 1
  }

  lemma {:induction false} CountUpdate(chains: seq<Chain>, b: nat, c: Chain)
    requires b < |chains|
    ensures Total(chains[b := c]) == Total(chains) - |chains[b]| + |c|
    ensures NonEmpty(chains[b := c]) ==
      NonEmpty(chains) - (if chains[b] == [] then 0 else 1) + if c == [] then 0 else 1
  {
    var n := |chains| - 1;
    if b == n {
      assert chains[b := c][..n] == chains[..n];
    } else {
      assert chains[b := c][..n] == chains[..n][b := c];
      CountUpdate(chains[..n], b, c);
    }
  }

  /** Every record beyond the first of its bucket counts as a collision. */
  ghost function Crowding(chains: seq<Chain>): int {
    Total(chains) - NonEmpty(chains)
  }
}
