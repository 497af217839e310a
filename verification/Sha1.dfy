/** The digest of core/mem/sha1.c: block buffering and padding around a block function.

    The block function and the padding are those of FIPS PUB 180-1, section 7 and
    section 4; the initial hash words are this repository's own. */
module Sha1 {

  const SHA_SUCCESS: nat := 0
  const SHA_NULL: nat := 1
  const SHA_STATE_ERROR: nat := 3
  const TWO32: nat := 0x1_0000_0000

  newtype Octet = x: int | 0 <= x < 256

  // ----- The block function, as the standard defines it -----

  datatype Hash = Hash(a: bv32, b: bv32, c: bv32, d: bv32, e: bv32)

  const INITIAL := Hash(0x1ACA889B, 0x0FA3E271, 0x9FFADBF4, 0x61A3F3A1, 0x88AA7C55)

  function Rotl(x: bv32, bits: bv6): bv32
    requires bits <= 32
  {
    (x << bits) | (x >> (32 - bits))
  }

  function WordAt(block: seq<Octet>, t: nat): bv32
    requires |block| == 64 && t < 16
  {
    ((block[t * 4] as bv32) << 24) | ((block[t * 4 + 1] as bv32) << 16)
    | ((block[t * 4 + 2] as bv32) << 8) | (block[t * 4 + 3] as bv32)
  }

  function Xor4(x: bv32, y: bv32, z: bv32, u: bv32): bv32 {
    x ^ y ^ z ^ u
  }

  /** Addition modulo 2^32. */
  function Sum5(x: bv32, y: bv32, z: bv32, u: bv32, v: bv32): bv32 {
    x + y + z + u + v
  }

  /** Word `t` of the schedule. */
  function Schedule(block: seq<Octet>, t: nat): bv32
    requires |block| == 64 && t < 80
  {
    if t < 16 then WordAt(block, t)
    else Rotl(Xor4(Schedule(block, t - 3), Schedule(block, t - 8), Schedule(block, t - 14), Schedule(block, t - 16)), 1)
  }

  function Choose(b: bv32, c: bv32, d: bv32): bv32 {
    (b & c) | (!b & d)
  }

  function Parity(b: bv32, c: bv32, d: bv32): bv32 {
    b ^ c ^ d
  }

  function Majority(b: bv32, c: bv32, d: bv32): bv32 {
    (b & c) | (b & d) | (c & d)
  }

  /** The logical function of step `t`. */
  function Logic(t: nat, b: bv32, c: bv32, d: bv32): bv32 {
    if t < 20 then Choose(b, c, d) else if 40 <= t < 60 then Majority(b, c, d) else Parity(b, c, d)
  }

  function Constant(t: nat): bv32 {
    if t < 20 then 0x5A827999 else if t < 40 then 0x6ED9EBA1 else if t < 60 then 0x8F1BBCDC else 0xCA62C1D6
  }

  /** The constants are the square roots of 2, 3, 5 and 10 in units of 2^-30, rounded down. */
  lemma ConstantsAreRoots(t: nat)
    requires t < 80
    ensures var c := Constant(t) as int;
      var n := if t < 20 then 2 else if t < 40 then 3 else if t < 60 then 5 else 10;
      c * c <= n * 0x1000_0000_0000_0000 < (c + 1) * (c + 1)
  {
    if t < 20 {
      assert Constant(t) as int == 1518500249;
    } else if t < 40 {
      assert Constant(t) as int == 1859775393;
    } else if t < 60 {
      assert Constant(t) as int == 2400959708;
    } else {
      assert Constant(t) as int == 3395469782;
    }
  }

  function Round(h: Hash, t: nat, w: bv32): Hash {
    Hash(Sum5(Rotl(h.a, 5), Logic(t, h.b, h.c, h.d), h.e, w, Constant(t)), h.a, Rotl(h.b, 30), h.c, h.d)
  }

  /** The word buffers after the first `t` rounds. */
  function Rounds(h: Hash, block: seq<Octet>, t: nat): Hash
    requires |block| == 64 && t <= 80
  {
    if t == 0 then h else Round(Rounds(h, block, t - 1), t - 1, Schedule(block, t - 1))
  }

  function Add32(x: bv32, y: bv32): bv32 {
    x + y
  }

  function Plus(h: Hash, g: Hash): Hash {
    Hash(Add32(h.a, g.a), Add32(h.b, g.b), Add32(h.c, g.c), Add32(h.d, g.d), Add32(h.e, g.e))
  }

  function Compress(h: Hash, block: seq<Octet>): Hash
    requires |block| == 64
  {
    Plus(h, Rounds(h, block, 80))
  }

  /** The hash of a whole number of blocks. */
  function Fold(data: seq<Octet>): Hash
    requires |data| % 64 == 0
  {
    if data == [] then INITIAL
    else Compress(Fold(data[..|data| - 64]), data[|data| - 64..])
  }

  // ----- The padding -----

  function Zeros(n: nat): (z: seq<Octet>)
    ensures |z| == n && forall k :: 0 <= k < n ==> z[k] == 0
  {
    seq(n, _ => 0)
  }

  function OctetOf(n: nat): Octet {
    (n % 256) as Octet
  }

  /** The eight octets of a 64-bit number, most significant first. */
  function Big64(n: nat): (s: seq<Octet>)
    ensures |s| == 8
  {
    [OctetOf(n / 0x100_0000_0000_0000), OctetOf(n / 0x1_0000_0000_0000), OctetOf(n / 0x100_0000_0000),
     OctetOf(n / 0x1_0000_0000), OctetOf(n / 0x100_0000), OctetOf(n / 0x1_0000), OctetOf(n / 0x100), OctetOf(n)]
  }

  /** The number of zero octets between the end mark and the length. */
  function Gap(length: nat): nat {
    (119 - length % 64) % 64
  }

  lemma GapFills(length: nat)
    ensures (length + 9 + Gap(length)) % 64 == 0
  {
  }

  function Pad(message: seq<Octet>): (p: seq<Octet>)
    ensures |p| % 64 == 0
  {
    GapFills(|message|);
    hide Gap;
    hide Big64;
    message + [0x80] + Zeros(Gap(|message|)) + Big64(8 * |message|)
  }

  /** Octet `k` of a word, counted from the most significant. */
  function OctetAt(w: bv32, k: nat): Octet
    requires k < 4
  {
    ByteAt(w, k) as Octet
  }

  function ByteAt(w: bv32, k: nat): bv8
    requires k < 4
  {
    if k == 0 then ((w >> 24) & 0xFF) as bv8
    else if k == 1 then ((w >> 16) & 0xFF) as bv8
    else if k == 2 then ((w >> 8) & 0xFF) as bv8
    else (w & 0xFF) as bv8
  }

  function Joint(a: bv8, b: bv8, c: bv8, d: bv8): bv32 {
    ((a as bv32) << 24) | ((b as bv32) << 16) | ((c as bv32) << 8) | (d as bv32)
  }

  lemma BytesOfJoint(a: bv8, b: bv8, c: bv8, d: bv8)
    ensures ByteAt(Joint(a, b, c, d), 0) == a && ByteAt(Joint(a, b, c, d), 1) == b
    ensures ByteAt(Joint(a, b, c, d), 2) == c && ByteAt(Joint(a, b, c, d), 3) == d
  {
  }

  lemma JointOfBytes(w: bv32)
    ensures Joint(ByteAt(w, 0), ByteAt(w, 1), ByteAt(w, 2), ByteAt(w, 3)) == w
  {
  }

  lemma OctetIsByte(o: Octet)
    ensures (o as bv8) as Octet == o && (o as bv8) as bv32 == o as bv32
  {
  }

  lemma ByteIsOctet(b: bv8)
    ensures (b as Octet) as bv8 == b
  {
  }

  lemma WordIsJoint(block: seq<Octet>, t: nat)
    requires |block| == 64 && t < 16
    ensures WordAt(block, t) ==
      Joint(block[t * 4] as bv8, block[t * 4 + 1] as bv8, block[t * 4 + 2] as bv8, block[t * 4 + 3] as bv8)
  {
    OctetIsByte(block[t * 4]);
    OctetIsByte(block[t * 4 + 1]);
    OctetIsByte(block[t * 4 + 2]);
    OctetIsByte(block[t * 4 + 3]);
  }

  /** Octets and words are turned into each other, most significant first. */
  lemma OctetOfWord(block: seq<Octet>, t: nat, k: nat)
    requires |block| == 64 && t < 16 && k < 4
    ensures OctetAt(WordAt(block, t), k) == block[t * 4 + k]
  {
    var a, b, c, d := block[t * 4], block[t * 4 + 1], block[t * 4 + 2], block[t * 4 + 3];
    WordIsJoint(block, t);
    hide WordAt;
    OctetOfJoint(a, b, c, d);
    hide OctetAt;
  }

  lemma OctetOfJoint(a: Octet, b: Octet, c: Octet, d: Octet)
    ensures var w := Joint(a as bv8, b as bv8, c as bv8, d as bv8);
      OctetAt(w, 0) == a && OctetAt(w, 1) == b && OctetAt(w, 2) == c && OctetAt(w, 3) == d
  {
    BytesOfJoint(a as bv8, b as bv8, c as bv8, d as bv8);
    hide Joint;
    hide ByteAt;
    OctetIsByte(a);
    OctetIsByte(b);
    OctetIsByte(c);
    OctetIsByte(d);
  }

  lemma WordOfOctets(block: seq<Octet>, t: nat, w: bv32)
    requires |block| == 64 && t < 16
    requires forall k :: 0 <= k < 4 ==> block[t * 4 + k] == OctetAt(w, k)
    ensures WordAt(block, t) == w
  {
    WordIsJoint(block, t);
    JointOfBytes(w);
    hide WordAt;
    hide Joint;
    hide ByteAt;
    forall k | 0 <= k < 4 ensures block[t * 4 + k] as bv8 == ByteAt(w, k) {
      assert block[t * 4 + k] == OctetAt(w, k);
      ByteIsOctet(ByteAt(w, k));
    }
    assert block[t * 4 + 0] as bv8 == ByteAt(w, 0);
  }

  function HashWord(h: Hash, k: nat): bv32
    requires k < 5
  {
    if k == 0 then h.a else if k == 1 then h.b else if k == 2 then h.c else if k == 3 then h.d else h.e
  }

  function HashOctets(h: Hash): (s: seq<Octet>)
    ensures |s| == 20
  {
    seq(20, i requires 0 <= i < 20 => OctetAt(HashWord(h, i / 4), i % 4))
  }

  /** The digest in one piece. */
  function Digest(message: seq<Octet>): (s: seq<Octet>)
    ensures |s| == 20
  {
    HashOctets(Fold(Pad(message)))
  }

  // ----- The buffered computation -----

  /** `message` with its last, incomplete block taken off. */
  function WholeBlocks(message: seq<Octet>): (s: seq<Octet>)
    ensures |s| % 64 == 0
  {
    message[..|message| - |message| % 64]
  }

  /** The incomplete block. */
  function Tail(message: seq<Octet>): (s: seq<Octet>)
    ensures |s| == |message| % 64
  {
    message[|message| - |message| % 64..]
  }

  lemma Parts(message: seq<Octet>)
    ensures WholeBlocks(message) + Tail(message) == message
  {
  }

  /** One more octet either lengthens the incomplete block or completes it. */
  lemma OneMore(message: seq<Octet>, octet: Octet)
    ensures var longer := message + [octet];
      if |message| % 64 == 63
      then WholeBlocks(longer) == longer == WholeBlocks(message) + (Tail(message) + [octet]) && Tail(longer) == []
      else WholeBlocks(longer) == WholeBlocks(message) && Tail(longer) == Tail(message) + [octet]
    ensures |message + [octet]| % 64 == if |message| % 64 == 63 then 0 else |message| % 64 + 1
  {
    Parts(message);
    var longer := message + [octet];
    if |message| % 64 == 63 {
      assert |longer| % 64 == 0;
    } else {
      assert |longer| % 64 == |message| % 64 + 1;
    }
  }

  lemma AddZeros(m: nat, n: nat)
    ensures Zeros(m) + Zeros(n) == Zeros(m + n)
  {
  }

  /** The two ways to close a message with an incomplete block of this length. */
  lemma GapCases(length: nat)
    ensures length % 64 > 55 ==> Gap(length) == (63 - length % 64) + 56
    ensures length % 64 <= 55 ==> Gap(length) == 55 - length % 64
  {
  }

  lemma CloseLong(message: seq<Octet>)
    requires |message| % 64 > 55
    ensures WholeBlocks(message) + (Tail(message) + [0x80] + Zeros(63 - |message| % 64)) + Zeros(56)
      == message + [0x80] + Zeros(Gap(|message|))
  {
    hide Gap;
    hide Zeros;
    Parts(message);
    hide WholeBlocks;
    hide Tail;
    GapCases(|message|);
    AddZeros(63 - |message| % 64, 56);
    Regroup(WholeBlocks(message), Tail(message), [0x80], Zeros(63 - |message| % 64), Zeros(56));
  }

  lemma Regroup(a: seq<Octet>, b: seq<Octet>, c: seq<Octet>, d: seq<Octet>, e: seq<Octet>)
    ensures a + (b + c + d) + e == (a + b) + c + (d + e)
  {
  }

  lemma CloseShort(message: seq<Octet>)
    requires |message| % 64 <= 55
    ensures WholeBlocks(message) + (Tail(message) + [0x80] + Zeros(55 - |message| % 64))
      == message + [0x80] + Zeros(Gap(|message|))
  {
    hide Gap;
    hide Zeros;
    Parts(message);
    hide WholeBlocks;
    hide Tail;
    GapCases(|message|);
    Regroup(WholeBlocks(message), Tail(message), [0x80], Zeros(55 - |message| % 64), []);
  }

  lemma FoldBlock(data: seq<Octet>, block: seq<Octet>)
    requires |data| % 64 == 0 && |block| == 64
    ensures Fold(data + block) == Compress(Fold(data), block)
  {
    var all := data + block;
    assert all[..|all| - 64] == data && all[|all| - 64..] == block;
  }

  class Context {
    const words: array<bv32>
    const block: array<Octet>
    var index: nat
    var lengthLow: nat
    var lengthHigh: nat
    var computed: bool
    var corrupted: nat
    ghost var message: seq<Octet> // everything taken in since the last reset

    ghost function HashValue(): Hash
      requires words.Length == 5
      reads this, words
    {
      Hash(words[0], words[1], words[2], words[3], words[4])
    }

    /** Taking in: the hash covers the whole blocks of the message, the rest is in
        the block buffer, and the two length words count its bits. */
    ghost predicate Absorbing()
      requires words.Length == 5 && block.Length == 64
      reads this, words, block
    {
      index == |message| % 64 &&
      block[..index] == Tail(message) &&
      HashValue() == Fold(WholeBlocks(message)) &&
      lengthHigh * TWO32 + lengthLow == 8 * |message| && lengthLow % 8 == 0
    }

    ghost predicate Valid()
      reads this, words, block
    {
      words.Length == 5 && block.Length == 64 && index < 64 &&
      lengthLow < TWO32 && lengthHigh < TWO32 &&
      (corrupted == 0 && !computed ==> Absorbing()) &&
      (corrupted == 0 && computed ==> HashOctets(HashValue()) == Digest(message))
    }

    constructor ()
      ensures Valid() && corrupted == 0 && !computed && message == []
      ensures HashValue() == Hash(0x1ACA889B, 0x0FA3E271, 0x9FFADBF4, 0x61A3F3A1, 0x88AA7C55)
      ensures fresh(words) && fresh(block)
    {
      words := new bv32[5];
      block := new Octet[64];
      new;
      Start();
    }

    /** The body of the reset. */
    method Start()
      requires words.Length == 5 && block.Length == 64
      modifies this, words
      ensures Valid() && corrupted == 0 && !computed && message == []
      ensures HashValue() == Hash(0x1ACA889B, 0x0FA3E271, 0x9FFADBF4, 0x61A3F3A1, 0x88AA7C55)
    {
      hide Digest;
      hide HashOctets;
      lengthLow, lengthHigh, index := 0, 0, 0;
      words[0], words[1], words[2], words[3], words[4] :=
        INITIAL.a, INITIAL.b, INITIAL.c, INITIAL.d, INITIAL.e;
      computed, corrupted := false, 0;
      message := [];
    }

    method Reset() returns (code: nat)
      requires Valid()
      modifies this, words
      ensures Valid() && corrupted == 0 && !computed && message == []
      ensures HashValue() == Hash(0x1ACA889B, 0x0FA3E271, 0x9FFADBF4, 0x61A3F3A1, 0x88AA7C55)
      ensures code == SHA_SUCCESS
    {
      Start();
      code := SHA_SUCCESS;
    }

    /** Word `t` of the block, put together octet by octet. */
    method LoadWord(t: nat) returns (w: bv32)
      requires block.Length == 64 && t < 16
      ensures w == WordAt(block[..], t)
    {
      w := (block[t * 4] as bv32) << 24;
      w := w | ((block[t * 4 + 1] as bv32) << 16);
      w := w | ((block[t * 4 + 2] as bv32) << 8);
      w := w | (block[t * 4 + 3] as bv32);
    }

    /** The word schedule of the buffered block. */
    method ExpandBlock() returns (w: array<bv32>)
      requires block.Length == 64
      ensures fresh(w) && w.Length == 80
      ensures forall k :: 0 <= k < 80 ==> w[k] == Schedule(block[..], k)
    {
      hide Rotl;
      hide Xor4;
      hide WordAt;
      ghost var data := block[..];
      w := new bv32[80];
      for t := 0 to 16
        invariant forall k :: 0 <= k < t ==> w[k] == Schedule(data, k)
      {
        w[t] := LoadWord(t);
      }
      for t := 16 to 80
        invariant forall k :: 0 <= k < t ==> w[k] == Schedule(data, k)
      {
        w[t] := Rotl(Xor4(w[t - 3], w[t - 8], w[t - 14], w[t - 16]), 1);
      }
    }

    /** The eighty rounds on the five word buffers. */
    method RunRounds(w: array<bv32>, ghost data: seq<Octet>) returns (a: bv32, b: bv32, c: bv32, d: bv32, e: bv32)
      requires words.Length == 5 && w.Length == 80 && |data| == 64
      requires forall k :: 0 <= k < 80 ==> w[k] == Schedule(data, k)
      ensures Hash(a, b, c, d, e) == Rounds(HashValue(), data, 80)
    {
      hide Rotl;
      hide Sum5;
      hide Choose;
      hide Parity;
      hide Majority;
      hide Schedule;
      ghost var h := HashValue();
      a, b, c, d, e := words[0], words[1], words[2], words[3], words[4];
      for t := 0 to 20
        invariant Hash(a, b, c, d, e) == Rounds(h, data, t)
      {
        var temp := Sum5(Rotl(a, 5), Choose(b, c, d), e, w[t], 0x5A827999);
        e, d := d, c;
        c := Rotl(b, 30);
        b, a := a, temp;
      }
      for t := 20 to 40
        invariant Hash(a, b, c, d, e) == Rounds(h, data, t)
      {
        var temp := Sum5(Rotl(a, 5), Parity(b, c, d), e, w[t], 0x6ED9EBA1);
        e, d := d, c;
        c := Rotl(b, 30);
        b, a := a, temp;
      }
      for t := 40 to 60
        invariant Hash(a, b, c, d, e) == Rounds(h, data, t)
      {
        var temp := Sum5(Rotl(a, 5), Majority(b, c, d), e, w[t], 0x8F1BBCDC);
        e, d := d, c;
        c := Rotl(b, 30);
        b, a := a, temp;
      }
      for t := 60 to 80
        invariant Hash(a, b, c, d, e) == Rounds(h, data, t)
      {
        var temp := Sum5(Rotl(a, 5), Parity(b, c, d), e, w[t], 0xCA62C1D6);
        e, d := d, c;
        c := Rotl(b, 30);
        b, a := a, temp;
      }
    }

    method ProcessMessageBlock()
      requires words.Length == 5 && block.Length == 64
      modifies words, this`index
      ensures HashValue() == Compress(old(HashValue()), block[..]) && index == 0
    {
      hide Rounds;
      hide Schedule;
      hide Add32;
      var w := ExpandBlock();
      var a, b, c, d, e := RunRounds(w, block[..]);
      words[0] := Add32(words[0], a);
      words[1] := Add32(words[1], b);
      words[2] := Add32(words[2], c);
      words[3] := Add32(words[3], d);
      words[4] := Add32(words[4], e);
      index := 0;
    }

    /** Takes octets in until the data ends or the bit count no longer fits in 64 bits.
        Taking in after the result was asked for is an error that sticks. */
    method Input(data: seq<Octet>) returns (code: nat)
      requires Valid()
      modifies this, words, block
      ensures Valid() && computed == old(computed)
      ensures data == [] ==> code == SHA_SUCCESS && corrupted == old(corrupted) && message == old(message)
      ensures data != [] && old(computed) ==> code == corrupted == SHA_STATE_ERROR
      ensures data != [] && !old(computed) && old(corrupted) != 0 ==> code == corrupted == old(corrupted)
      ensures data != [] && !old(computed) && old(corrupted) == 0 ==>
        code == SHA_SUCCESS &&
        (corrupted == 0 <==> 8 * (|old(message)| + |data|) < TWO32 * TWO32) &&
        (corrupted == 0 ==> message == old(message) + data) &&
        (corrupted != 0 ==> corrupted == SHA_NULL)
    {
      if |data| == 0 {
        return SHA_SUCCESS;
      }
      if computed {
        corrupted := SHA_STATE_ERROR;
        return SHA_STATE_ERROR;
      }
      if corrupted != 0 {
        return corrupted;
      }
      MessageBound();
      AbsorbAll(data);
      code := SHA_SUCCESS;
    }

    /** The input loop. */
    method AbsorbAll(data: seq<Octet>)
      requires Valid() && corrupted == 0 && !computed && 8 * |message| < TWO32 * TWO32
      modifies this, words, block
      ensures Valid() && !computed
      ensures corrupted == 0 <==> 8 * (|old(message)| + |data|) < TWO32 * TWO32
      ensures corrupted == 0 ==> message == old(message) + data
      ensures corrupted != 0 ==> corrupted == SHA_NULL
    {
      hide Valid;
      hide Absorbing;
      var i: nat := 0;
      while i < |data| && corrupted == 0
        invariant i <= |data|
        invariant Valid() && !computed
        invariant corrupted == 0 ==> message == old(message) + data[..i] && 8 * |message| < TWO32 * TWO32
        invariant corrupted != 0 ==> corrupted == SHA_NULL && 8 * (|old(message)| + i) == TWO32 * TWO32
      {
        TakeOctet(data[i]);
        assert data[..i + 1] == data[..i] + [data[i]];
        i := i + 1;
      }
      assert data[..|data|] == data;
    }

    lemma MessageBound()
      requires Valid() && corrupted == 0 && !computed
      ensures 8 * |message| < TWO32 * TWO32
    {
    }

    lemma AbsorbingFacts()
      requires Valid() && corrupted == 0 && !computed
      ensures words.Length == 5 && block.Length == 64 && index == |message| % 64 < 64
      ensures block[..index] == Tail(message) && HashValue() == Fold(WholeBlocks(message))
      ensures lengthLow < TWO32 && lengthHigh < TWO32 && lengthLow % 8 == 0
      ensures lengthHigh * TWO32 + lengthLow == 8 * |message|
    {
    }

    lemma AbsorbingAgain()
      requires words.Length == 5 && block.Length == 64 && index < 64 && lengthLow < TWO32 && lengthHigh < TWO32
      requires !computed && corrupted == 0 ==> index == |message| % 64 && block[..index] == Tail(message)
      requires !computed && corrupted == 0 ==> HashValue() == Fold(WholeBlocks(message))
      requires !computed && corrupted == 0 ==> lengthHigh * TWO32 + lengthLow == 8 * |message| && lengthLow % 8 == 0
      requires !computed
      ensures Valid()
    {
      hide Fold;
      hide WholeBlocks;
      hide Tail;
    }

    /** One turn of the input loop. */
    method TakeOctet(octet: Octet)
      requires Valid() && corrupted == 0 && !computed
      modifies this, words, block
      ensures Valid() && !computed
      ensures corrupted == 0 ==> message == old(message) + [octet] && 8 * |message| < TWO32 * TWO32
      ensures corrupted != 0 ==> corrupted == SHA_NULL && 8 * (|old(message)| + 1) == TWO32 * TWO32
    {
      hide Valid;
      hide Absorbing;
      hide Fold;
      hide WholeBlocks;
      hide Tail;
      AbsorbingFacts();
      OneMore(message, octet);
      ghost var whole := WholeBlocks(message);
      WholeIsWhole(message);
      StoreOctet(octet);
      CountOctet();
      message := message + [octet];
      if index == 64 {
        FinishBlock(whole);
      }
      AbsorbingAgain();
    }

    lemma WholeIsWhole(m: seq<Octet>)
      ensures |WholeBlocks(m)| % 64 == 0
    {
    }

    /** Processes a full block. */
    method FinishBlock(ghost before: seq<Octet>)
      requires words.Length == 5 && block.Length == 64
      requires |before| % 64 == 0 && HashValue() == Fold(before)
      modifies words, this`index
      ensures index == 0 && block[..index] == [] && HashValue() == Fold(before + block[..64])
    {
      hide Fold;
      hide Compress;
      assert block[..] == block[..64];
      FoldBlock(before, block[..]);
      ProcessMessageBlock();
    }

    method StoreOctet(octet: Octet)
      requires block.Length == 64 && index < 64
      modifies block, this`index
      ensures index == old(index) + 1 && block[..index] == old(block[..index]) + [octet]
    {
      block[index] := octet;
      index := index + 1;
    }

    /** Adds eight to the bit count; a carry out of both words means that the message
        is too long. */
    method CountOctet()
      requires lengthLow < TWO32 && lengthHigh < TWO32 && lengthLow % 8 == 0
      modifies this`lengthLow, this`lengthHigh, this`corrupted
      ensures lengthLow < TWO32 && lengthHigh < TWO32
      ensures var bits := old(lengthHigh) * TWO32 + old(lengthLow) + 8;
        if bits < TWO32 * TWO32 then lengthHigh * TWO32 + lengthLow == bits && corrupted == old(corrupted) && lengthLow % 8 == 0
        else bits == TWO32 * TWO32 && corrupted == SHA_NULL
    {
      lengthLow := (lengthLow + 8) % TWO32;
      if lengthLow == 0 {
        lengthHigh := (lengthHigh + 1) % TWO32;
        if lengthHigh == 0 {
          corrupted := SHA_NULL;
        }
      }
    }

    /** Fills the block with zeros from `index` on. */
    method FillZeros(to: nat)
      requires block.Length == 64 && index <= to <= 64
      modifies block, this`index
      ensures index == to
      ensures block[..to] == old(block[..index]) + Zeros(to - old(index))
    {
      ghost var was := block[..index];
      assert was == was + Zeros(0);
      while index < to
        invariant old(index) <= index <= to
        invariant block[..index] == was + Zeros(index - old(index))
      {
        ghost var now := block[..index];
        block[index] := 0;
        assert block[..index + 1] == now + [0];
        assert Zeros(index - old(index)) + [0] == Zeros(index + 1 - old(index));
        index := index + 1;
      }
    }

    /** Writes the end mark and zeros up to `to`. */
    method MarkEnd(to: nat)
      requires block.Length == 64 && index < to <= 64
      modifies block, this`index
      ensures index == to
      ensures block[..to] == old(block[..index]) + [0x80] + Zeros(to - old(index) - 1)
    {
      hide Zeros;
      ghost var was := block[..index];
      block[index] := 0x80;
      index := index + 1;
      assert block[..index] == was + [0x80];
      FillZeros(to);
    }

    /** Stores the two length words behind the first 56 octets. */
    method StoreLength()
      requires block.Length == 64 && lengthLow < TWO32 && lengthHigh < TWO32
      modifies block
      ensures block[..] == old(block[..56]) + Big64(lengthHigh * TWO32 + lengthLow)
    {
      hide OctetOf;
      SplitLength(lengthHigh, lengthLow);
      block[56] := OctetOf(lengthHigh / 0x100_0000);
      block[57] := OctetOf(lengthHigh / 0x1_0000);
      block[58] := OctetOf(lengthHigh / 0x100);
      block[59] := OctetOf(lengthHigh);
      block[60] := OctetOf(lengthLow / 0x100_0000);
      block[61] := OctetOf(lengthLow / 0x1_0000);
      block[62] := OctetOf(lengthLow / 0x100);
      block[63] := OctetOf(lengthLow);
    }

    /** The case where the end mark leaves no room for the length: this block is
        finished and processed, and the next one starts with zeros. */
    method CloseLongBlock() returns (ghost first: seq<Octet>)
      requires Valid() && corrupted == 0 && !computed && index > 55
      modifies words, block, this`index
      ensures |first| % 64 == 0 && HashValue() == Fold(first)
      ensures first + block[..56] == message + [0x80] + Zeros(Gap(|message|))
    {
      hide Fold;
      hide Compress;
      hide WholeBlocks;
      hide Tail;
      hide Gap;
      hide Zeros;
      CloseLong(message);
      ghost var whole := WholeBlocks(message);
      ghost var tail := Tail(message);
      MarkEnd(64);
      first := whole + block[..64];
      FinishBlock(whole);
      FillZeros(56);
    }

    method CloseShortBlock() returns (ghost first: seq<Octet>)
      requires Valid() && corrupted == 0 && !computed && index <= 55
      modifies words, block, this`index
      ensures |first| % 64 == 0 && HashValue() == Fold(first)
      ensures first + block[..56] == message + [0x80] + Zeros(Gap(|message|))
    {
      hide Fold;
      hide WholeBlocks;
      hide Tail;
      hide Gap;
      hide Zeros;
      CloseShort(message);
      first := WholeBlocks(message);
      MarkEnd(56);
    }

    method PadMessage()
      requires Valid() && corrupted == 0 && !computed
      modifies words, block, this`index
      ensures index == 0 && HashValue() == Fold(Pad(message))
    {
      hide Fold;
      hide Compress;
      hide Gap;
      hide Big64;
      hide Zeros;
      hide WholeBlocks;
      hide Tail;
      ghost var first: seq<Octet>;
      if index > 55 {
        first := CloseLongBlock();
      } else {
        first := CloseShortBlock();
      }
      ghost var front := block[..56];
      StoreLength();
      FoldBlock(first, block[..]);
      assert first + block[..] == first + front + Big64(8 * |message|);
      ProcessMessageBlock();
    }

    /** The digest of everything taken in.  Asking again gives the same digest. */
    method Result() returns (code: nat, digest: seq<Octet>)
      requires Valid()
      modifies this, words, block
      ensures Valid() && corrupted == old(corrupted) && message == old(message)
      ensures corrupted != 0 ==> code == corrupted && digest == [] && computed == old(computed)
      ensures corrupted == 0 ==> code == SHA_SUCCESS && computed && digest == Digest(message)
    {
      hide Fold;
      hide Pad;
      hide HashOctets;
      if corrupted != 0 {
        return corrupted, [];
      }
      if !computed {
        PadMessage();
        WipeBlock();
        lengthLow := 0;
        lengthHigh := 0;
        computed := true;
      }
      digest := WriteDigest();
      code := SHA_SUCCESS;
    }

    method WipeBlock()
      requires block.Length == 64
      modifies block
      ensures block[..] == Zeros(64)
    {
      for i := 0 to 64
        invariant forall k :: 0 <= k < i ==> block[k] == 0
      {
        block[i] := 0;
      }
    }

    /** The hash words octet by octet, most significant first. */
    method WriteDigest() returns (digest: seq<Octet>)
      requires words.Length == 5
      ensures digest == HashOctets(HashValue())
    {
      hide OctetAt;
      ghost var h := HashValue();
      digest := [];
      for i := 0 to 20
        invariant |digest| == i
        invariant forall k :: 0 <= k < i ==> digest[k] == OctetAt(HashWord(h, k / 4), k % 4)
      {
        digest := digest + [OctetAt(words[i / 4], i % 4)];
      }
    }
  }

  lemma HighOctets(high: nat, low: nat)
    requires low < TWO32
    ensures var n := high * TWO32 + low;
      n / 0x100_0000_0000_0000 == high / 0x100_0000 && n / 0x1_0000_0000_0000 == high / 0x1_0000 &&
      n / 0x100_0000_0000 == high / 0x100 && n / 0x1_0000_0000 == high
  {
    var n := high * TWO32 + low;
    assert n / 0x1_0000_0000 == high;
    assert n / 0x100_0000_0000 == n / 0x1_0000_0000 / 0x100;
    assert n / 0x1_0000_0000_0000 == n / 0x1_0000_0000 / 0x1_0000;
    assert n / 0x100_0000_0000_0000 == n / 0x1_0000_0000 / 0x100_0000;
  }

  lemma LowOctets(high: nat, low: nat)
    ensures var n := high * TWO32 + low;
      n / 0x100_0000 == high * 0x100 + low / 0x100_0000 && n / 0x1_0000 == high * 0x1_0000 + low / 0x1_0000 &&
      n / 0x100 == high * 0x100_0000 + low / 0x100
  {
  }

  lemma SplitLength(high: nat, low: nat)
    requires high < TWO32 && low < TWO32
    ensures Big64(high * TWO32 + low) ==
      [OctetOf(high / 0x100_0000), OctetOf(high / 0x1_0000), OctetOf(high / 0x100), OctetOf(high),
       OctetOf(low / 0x100_0000), OctetOf(low / 0x1_0000), OctetOf(low / 0x100), OctetOf(low)]
  {
    hide OctetOf;
    HighOctets(high, low);
    LowOctets(high, low);
    SameOctet(high, low / 0x100_0000);
    SameOctet(high * 0x100, low / 0x1_0000);
    SameOctet(high * 0x1_0000, low / 0x100);
    SameOctet(high * 0x100_0000, low);
  }

  lemma SameOctet(k: nat, m: nat)
    ensures OctetOf(k * 256 + m) == OctetOf(m)
  {
    SameRemainder(k, m);
  }

  lemma SameRemainder(k: nat, m: nat)
    ensures (k * 256 + m) % 256 == m % 256
  {
  }

  /** How the key map computes its record keys: one reset, one input, one result. */
  method HashKey(context: Context, data: seq<Octet>) returns (key: seq<Octet>)
    requires context.Valid() && 8 * |data| < TWO32 * TWO32
    modifies context, context.words, context.block
    ensures context.Valid() && key == Digest(data)
  {
    hide Digest;
    var code := context.Reset();
    code := context.Input(data);
    assert [] + data == data;
    code, key := context.Result();
  }

  /** The parts of a message one after the other. */
  function Joined(parts: seq<seq<Octet>>): seq<Octet> {
    if parts == [] then [] else Joined(parts[..|parts| - 1]) + parts[|parts| - 1]
  }

  lemma JoinedMore(parts: seq<seq<Octet>>, i: nat)
    requires i < |parts|
    ensures Joined(parts[..i + 1]) == Joined(parts[..i]) + parts[i]
  {
    assert parts[..i + 1][..i] == parts[..i];
  }

  /** However a message is split into inputs, the result is the digest of the whole, as long as
      the length words can count it, and otherwise the error that came up on the way. */
  method HashParts(context: Context, parts: seq<seq<Octet>>) returns (code: nat, digest: seq<Octet>)
    requires context.Valid()
    modifies context, context.words, context.block
    ensures context.Valid()
    ensures 8 * |Joined(parts)| < TWO32 * TWO32 ==> code == 0 && digest == Digest(Joined(parts))
    ensures 8 * |Joined(parts)| >= TWO32 * TWO32 ==> code == 1 && digest == []
  {
    hide *;
    Codes();
    code := context.Reset();
    var i := 0;
    Nothing(parts);
    while i < |parts|
      invariant 0 <= i <= |parts| && context.Valid() && !context.computed
      invariant context.corrupted == 0 <==> 8 * |Joined(parts[..i])| < TWO32 * TWO32
      invariant context.corrupted == 0 ==> context.message == Joined(parts[..i])
      invariant context.corrupted != 0 ==> context.corrupted == SHA_NULL
    {
      JoinedMore(parts, i);
      code := context.Input(parts[i]);
      assert parts[i] == [] ==> Joined(parts[..i]) + parts[i] == Joined(parts[..i]);
      i := i + 1;
    }
    assert parts[..i] == parts;
    code, digest := context.Result();
  }

  lemma Codes()
    ensures SHA_SUCCESS == 0 && SHA_NULL == 1 && SHA_STATE_ERROR == 3
  {
  }

  lemma Nothing(parts: seq<seq<Octet>>)
    ensures Joined(parts[..0]) == []
  {
  }

  lemma Big64Injective(m: nat, n: nat)
    requires m < TWO32 * TWO32 && n < TWO32 * TWO32 && Big64(m) == Big64(n)
    ensures m == n
  {
    SameOctets(m, n);
    Nested(m);
    Nested(n);
    hide OctetOf;
    hide Big64;
    StepUp(m / 0x1_0000_0000_0000, n / 0x1_0000_0000_0000);
    StepUp(m / 0x100_0000_0000, n / 0x100_0000_0000);
    StepUp(m / 0x1_0000_0000, n / 0x1_0000_0000);
    StepUp(m / 0x100_0000, n / 0x100_0000);
    StepUp(m / 0x1_0000, n / 0x1_0000);
    StepUp(m / 0x100, n / 0x100);
    StepUp(m, n);
  }

  lemma Nested(n: nat)
    ensures n / 0x1_0000_0000_0000 / 256 == n / 0x100_0000_0000_0000
    ensures n / 0x100_0000_0000 / 256 == n / 0x1_0000_0000_0000
    ensures n / 0x1_0000_0000 / 256 == n / 0x100_0000_0000
    ensures n / 0x100_0000 / 256 == n / 0x1_0000_0000
    ensures n / 0x1_0000 / 256 == n / 0x100_0000
    ensures n / 0x100 / 256 == n / 0x1_0000
  {
  }

  lemma SameOctets(m: nat, n: nat)
    requires m < TWO32 * TWO32 && n < TWO32 * TWO32 && Big64(m) == Big64(n)
    ensures m / 0x100_0000_0000_0000 == n / 0x100_0000_0000_0000
    ensures OctetOf(m / 0x1_0000_0000_0000) == OctetOf(n / 0x1_0000_0000_0000)
    ensures OctetOf(m / 0x100_0000_0000) == OctetOf(n / 0x100_0000_0000)
    ensures OctetOf(m / 0x1_0000_0000) == OctetOf(n / 0x1_0000_0000)
    ensures OctetOf(m / 0x100_0000) == OctetOf(n / 0x100_0000)
    ensures OctetOf(m / 0x1_0000) == OctetOf(n / 0x1_0000)
    ensures OctetOf(m / 0x100) == OctetOf(n / 0x100)
    ensures OctetOf(m) == OctetOf(n)
  {
    TopOctet(m / 0x100_0000_0000_0000);
    TopOctet(n / 0x100_0000_0000_0000);
    hide OctetOf;
    var s, t := Big64(m), Big64(n);
    assert s[0] == t[0] && s[1] == t[1] && s[2] == t[2] && s[3] == t[3];
    assert s[4] == t[4] && s[5] == t[5] && s[6] == t[6] && s[7] == t[7];
  }

  lemma TopOctet(n: nat)
    requires n < 256
    ensures OctetOf(n) as int == n
  {
  }

  lemma StepUp(m: nat, n: nat)
    requires m / 256 == n / 256 && OctetOf(m) == OctetOf(n)
    ensures m == n
  {
  }

  /** No two messages that the length words can count have the same padded form. */
  lemma PadInjective(m: seq<Octet>, n: seq<Octet>)
    requires 8 * |m| < TWO32 * TWO32 && 8 * |n| < TWO32 * TWO32
    requires Pad(m) == Pad(n)
    ensures m == n
  {
    hide Gap;
    hide Big64;
    hide Zeros;
    var p, q := Pad(m), Pad(n);
    assert p[|p| - 8..] == Big64(8 * |m|) && q[|q| - 8..] == Big64(8 * |n|);
    Big64Injective(8 * |m|, 8 * |n|);
    assert p[..|m|] == m && q[..|n|] == n;
  }
}
