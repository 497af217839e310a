/** The overlapping copy of core/additions/str.c.

    `MemCpy` moves whole 64-bit words and a byte tail.  Source and destination are
    ranges of one memory, so they may overlap by any distance, including less than
    a word. */
module MemCopy {

  newtype Byte = x: int | 0 <= x < 256

  /** Memory `m` after `sz` bytes have been moved from `src` to `dst`. */
  function Moved(m: seq<Byte>, dst: nat, src: nat, sz: nat): (r: seq<Byte>)
    requires dst + sz <= |m| && src + sz <= |m|
  {
    m[..dst] + m[src..src + sz] + m[dst + sz..]
  }

  /** Loads a word and then stores it: all eight bytes are read before any is written. */
  method CopyWord(mem: array<Byte>, dst: nat, src: nat)
    requires dst + 8 <= mem.Length && src + 8 <= mem.Length
    modifies mem
    ensures mem[..] == Moved(old(mem[..]), dst, src, 8)
  {
    var word := mem[src..src + 8];
    forall k | 0 <= k < 8 {
      mem[dst + k] := word[k];
    }
  }

  /** One byte loaded and stored. */
  method CopyByte(mem: array<Byte>, dst: nat, src: nat)
    requires dst < mem.Length && src < mem.Length
    modifies mem
    ensures mem[..] == Moved(old(mem[..]), dst, src, 1)
  {
    ghost var was := mem[..];
    mem[dst] := mem[src];
    assert mem[..] == was[dst := was[src]];
  }

  /** Moving upwards, a front part and then the rest is one move: the bytes
      written so far never reach a source byte that is still to be read. */
  lemma FrontThenRest(m: seq<Byte>, dst: nat, src: nat, a: nat, b: nat)
    requires dst < src && src + a + b <= |m|
    ensures Moved(Moved(m, dst, src, a), dst + a, src + a, b) == Moved(m, dst, src, a + b)
  {
    var once := Moved(m, dst, src, a);
    assert once[src + a..src + a + b] == m[src + a..src + a + b];
    assert once[..dst + a] == m[..dst] + m[src..src + a] && once[dst + a + b..] == m[dst + a + b..];
  }

  /** Moving downwards, a back part and then the front is one move. */
  lemma BackThenFront(m: seq<Byte>, dst: nat, src: nat, a: nat, b: nat)
    requires src <= dst && dst + a + b <= |m|
    ensures Moved(Moved(m, dst + a, src + a, b), dst, src, a) == Moved(m, dst, src, a + b)
  {
    var once := Moved(m, dst + a, src + a, b);
    assert once[src..src + a] == m[src..src + a];
    assert once[..dst] == m[..dst] && once[dst + a..] == m[src + a..src + a + b] + m[dst + a + b..];
  }

  lemma MovedNothing(m: seq<Byte>, dst: nat, src: nat)
    requires dst <= |m| && src <= |m|
    ensures Moved(m, dst, src, 0) == m
  {
  }

  /** The branch for a destination below the source: words upwards, then the tail. */
  method CopyUp(mem: array<Byte>, dst: nat, src: nat, sz: nat)
    requires dst < src && src + sz <= mem.Length
    modifies mem
    ensures mem[..] == Moved(old(mem[..]), dst, src, sz)
  {
    hide Moved;
    ghost var was := mem[..];
    MovedNothing(was, dst, src);
    var i: nat := 0;
    while i < sz / 8
      invariant i <= sz / 8
      invariant mem[..] == Moved(was, dst, src, 8 * i)
    {
      FrontThenRest(was, dst, src, 8 * i, 8);
      CopyWord(mem, dst + 8 * i, src + 8 * i);
      i := i + 1;
    }
    var j: nat := 8 * i;
    while j < sz
      invariant 0 <= j <= sz
      invariant mem[..] == Moved(was, dst, src, j)
    {
      FrontThenRest(was, dst, src, j, 1);
      CopyByte(mem, dst + j, src + j);
      j := j + 1;
    }
  }

  /** The other branch: words downwards from the end, then the bytes in front. */
  method CopyDown(mem: array<Byte>, dst: nat, src: nat, sz: nat)
    requires src <= dst && dst + sz <= mem.Length
    modifies mem
    ensures mem[..] == Moved(old(mem[..]), dst, src, sz)
  {
    hide Moved;
    ghost var was := mem[..];
    MovedNothing(was, dst + sz, src + sz);
    var i: nat := 0;
    while i < sz / 8
      invariant i <= sz / 8
      invariant mem[..] == Moved(was, dst + (sz - 8 * i), src + (sz - 8 * i), 8 * i)
    {
      i := i + 1;
      BackThenFront(was, dst + (sz - 8 * i), src + (sz - 8 * i), 8, 8 * i - 8);
      CopyWord(mem, dst + (sz - 8 * i), src + (sz - 8 * i));
    }
    var j: nat := sz % 8;
    while j != 0
      invariant 0 <= j <= sz
      invariant mem[..] == Moved(was, dst + j, src + j, sz - j)
    {
      j := j - 1;
      BackThenFront(was, dst + j, src + j, 1, sz - j - 1);
      CopyByte(mem, dst + j, src + j);
    }
  }

  method MemCpy(mem: array<Byte>, dst: nat, src: nat, sz: nat)
    requires dst + sz <= mem.Length && src + sz <= mem.Length
    modifies mem
    ensures mem[..] == Moved(old(mem[..]), dst, src, sz)
  {
    MovedNothing(mem[..], dst, src);
    if sz != 0 {
      if dst < src {
        CopyUp(mem, dst, src, sz);
      } else {
        CopyDown(mem, dst, src, sz);
      }
    }
  }

  /** What a move means byte by byte: the destination holds the source as it was
      before the call, however the two overlap, and nothing else changed. */
  lemma MovedAt(m: seq<Byte>, dst: nat, src: nat, sz: nat, k: nat)
    requires dst + sz <= |m| && src + sz <= |m| && k < |m|
    ensures |Moved(m, dst, src, sz)| == |m|
    ensures dst <= k < dst + sz ==> Moved(m, dst, src, sz)[k] == m[src + (k - dst)]
    ensures !(dst <= k < dst + sz) ==> Moved(m, dst, src, sz)[k] == m[k]
  {
  }
}
