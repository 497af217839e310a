// Size classes of the zone allocator: how a request is rounded and which zone serves it.
// Models _align and _bit_number of core/mem/zone.c.
module ZoneSizes {

  const PAGE_SIZE: nat := 4096
  const MIN_ALLOC: nat := 16
  const MAX_REQUEST: nat := 0xFFFFF000
  const TWO_32: nat := 0x1_0000_0000

  // The sizes a block can have: powers of two from 16 to 4096, and whole pages.
  ghost predicate IsClass(c: nat) {
    c in {16, 32, 64, 128, 256, 512, 1024, 2048} || (c > 0 && c % 4096 == 0)
  }

  // x & m for a mask m with a single bit set.
  predicate HasBit(x: nat, m: nat)
    requires m > 0
  {
    (x / m) % 2 == 1
  }

  // The size that serves a request; RoundedIsLeast says which one it is.
  function Rounded(size: nat): nat
    requires 1 <= size <= MAX_REQUEST
  {
    if size <= 16 then 16
    else if size <= 32 then 32
    else if size <= 64 then 64
    else if size <= 128 then 128
    else if size <= 256 then 256
    else if size <= 512 then 512
    else if size <= 1024 then 1024
    else if size <= 2048 then 2048
    else (size + PAGE_SIZE - 1) / PAGE_SIZE * PAGE_SIZE
  }

  // A request gets the least size class that holds it.
  lemma RoundedIsLeast(size: nat)
    requires 1 <= size <= MAX_REQUEST
    ensures IsClass(Rounded(size)) && size <= Rounded(size) <= MAX_REQUEST
    ensures forall c: nat :: IsClass(c) && size <= c ==> Rounded(size) <= c
  {
    var r := Rounded(size);
    if size > 2048 {
      assert r % PAGE_SIZE == 0;
      forall c: nat | IsClass(c) && size <= c ensures r <= c {
        assert c == c / PAGE_SIZE * PAGE_SIZE;
      }
    }
  }

  // Rounding a size class changes nothing.
  lemma RoundedTwice(size: nat)
    requires 1 <= size <= MAX_REQUEST
    ensures 1 <= Rounded(size) <= MAX_REQUEST && Rounded(Rounded(size)) == Rounded(size)
  {
    RoundedIsLeast(size);
    RoundedIsLeast(Rounded(size));
  }

  lemma LowBit(x: nat, m: nat)
    requires 0 < m && x < 2 * m
    ensures HasBit(x, m) <==> m <= x
  {
    if m <= x {
      assert x / m == 1;
    } else {
      assert x / m == 0;
    }
  }

  // Every 32-bit request: the rounded size, or 0 where the source's arithmetic yields 0.
  method Align(size: nat) returns (r: nat)
    requires size < 0x1_0000_0000
    ensures 1 <= size <= 0xFFFFF000 ==> r == Rounded(size)
    ensures size == 0 || size > 0xFFFFF000 ==> r == 0
  {
    r := 0;
    if size != 0 && size < MIN_ALLOC {
      r := MIN_ALLOC;
    } else if size > PAGE_SIZE {
      r := size / PAGE_SIZE;
      r := r + if size % PAGE_SIZE != 0 then 1 else 0;
      r := (r * PAGE_SIZE) % TWO_32;
    } else if size != 0 && size < PAGE_SIZE {
      r := PAGE_SIZE;
      while r != 0 && !HasBit(size, r)
        invariant r in {4096, 2048, 1024, 512, 256, 128, 64, 32, 16}
        invariant size < 2 * r
      {
        LowBit(size, r);
        r := r / 2;
      }
      LowBit(size, r);
      // the bits of size below its leading bit r
      if size - r != 0 {
        r := r * 2;
      }
    } else {
      r := size;
    }
  }

  // The number of binary digits of x.
  function BitLength(x: nat): nat {
    if x == 0 then 0 else 1 + BitLength(x / 2)
  }

  function Pow2(n: nat): (p: nat)
    ensures p > 0
  {
    if n == 0 then 1 else 2 * Pow2(n - 1)
  }

  lemma {:induction false} BitLengthBounds(x: nat, n: nat)
    ensures BitLength(x) <= n <==> x < Pow2(n)
    decreases n
  {
    if n > 0 && x > 0 {
      BitLengthBounds(x / 2, n - 1);
    }
  }

  lemma PowStep(n: nat)
    ensures n > 0 ==> Pow2(n) == 2 * Pow2(n - 1)
    ensures n == 0 ==> Pow2(n) == 1
  {
  }

  // One more than the position of the leading bit. On 0 the source loops forever.
  method BitNumber(x: nat) returns (r: nat)
    requires 0 < x < TWO_32
    ensures r == BitLength(x)
    ensures Pow2(r - 1) <= x < Pow2(r)
  {
    hide BitLength;
    hide Pow2;
    var mask := 0x8000_0000;
    var pos: nat := 0;
    PowValues();
    while !HasBit(x, mask)
      invariant pos < 32 && mask == Pow2(31 - pos) && x < 2 * mask
      decreases mask
    {
      PowStep(31 - pos);
      LowBit(x, mask);
      mask := mask / 2;
      pos := pos + 1;
    }
    r := 32 - pos;
    PowStep(r);
    LowBit(x, mask);
    BitLengthBounds(x, r);
    BitLengthBounds(x, r - 1);
  }

  lemma PowValues()
    ensures Pow2(4) == 16 && Pow2(12) == 4096 && Pow2(31) == 0x8000_0000 && Pow2(32) == TWO_32
  {
    assert Pow2(8) == 256;
    assert Pow2(16) == 0x1_0000;
    assert Pow2(24) == 0x100_0000;
  }

  // A class below a page is the power of two its length names.
  lemma SmallClass(c: nat)
    requires c in {16, 32, 64, 128, 256, 512, 1024, 2048}
    ensures c == Pow2(BitLength(c) - 1)
  {
    PowValues();
    assert BitLength(16) == 5 && BitLength(256) == 9 && BitLength(4096) == 13;
  }

  // The zone of a class is inside the table, and it separates the classes below a page from each other
  // and from the whole-page classes.
  lemma ZoneOfClass(c: nat)
    requires IsClass(c) && c <= MAX_REQUEST
    ensures 5 <= BitLength(c) <= 32
    ensures BitLength(c) <= 12 <==> c < PAGE_SIZE
  {
    hide BitLength;
    hide Pow2;
    PowValues();
    BitLengthBounds(c, 4);
    BitLengthBounds(c, 12);
    BitLengthBounds(c, 32);
  }

  lemma SameZone(c: nat, d: nat)
    requires IsClass(c) && IsClass(d) && BitLength(c) == BitLength(d)
    requires c <= MAX_REQUEST && d <= MAX_REQUEST
    ensures c < PAGE_SIZE <==> d < PAGE_SIZE
    ensures c < PAGE_SIZE ==> c == d
  {
    hide BitLength;
    hide Pow2;
    ZoneOfClass(c);
    ZoneOfClass(d);
    if c < PAGE_SIZE {
      assert c % PAGE_SIZE != 0 && d % PAGE_SIZE != 0;
      SmallClass(c);
      SmallClass(d);
    }
  }
}
