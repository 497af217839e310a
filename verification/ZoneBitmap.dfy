// The occupancy bitmap of a small-object page: 256 bits in four 64-bit words, the most significant
// bit first. Models the bit operations of core/mem/zone.c.
module ZoneBitmap {

  const UNIT_BITS: nat := 64
  const TOP: bv64 := 0x8000_0000_0000_0000

  function Half(x: bv64): bv64 {
    x >> 1
  }

  // TOP >> k, one position at a time.
  function Mask(k: nat): bv64
    requires k < UNIT_BITS
  {
    if k == 0 then TOP else Half(Mask(k - 1))
  }

  lemma Two(k: nat)
    requires k + 2 < UNIT_BITS
    ensures Mask(k + 2) == Mask(k) >> 2
  {
    assert Mask(k + 1) == Half(Mask(k));
  }

  lemma Four(k: nat)
    requires k + 4 < UNIT_BITS
    ensures Mask(k + 4) == Mask(k) >> 4
  {
    hide *;
    Two(k);
    Two(k + 2);
  }

  lemma Eight(k: nat)
    requires k + 8 < UNIT_BITS
    ensures Mask(k + 8) == Mask(k) >> 8
  {
    hide *;
    Four(k);
    Four(k + 4);
  }

  lemma LastMask()
    ensures Mask(63) == 1
  {
    Eight(0); Eight(8); Eight(16); Eight(24); Eight(32); Eight(40); Eight(48);
    assert Mask(56) == 0x80;
    assert Mask(57) == 0x40 && Mask(58) == 0x20 && Mask(59) == 0x10;
    assert Mask(60) == 8 && Mask(61) == 4 && Mask(62) == 2;
  }

  lemma {:induction false} ZeroStays(k: nat, j: nat)
    requires k <= j < UNIT_BITS && Mask(k) == 0
    ensures Mask(j) == 0
  {
    if k < j {
      ZeroStays(k, j - 1);
    }
  }

  lemma HalvesStayApart(x: bv64, y: bv64)
    ensures x & y == 0 ==> Half(x) & Half(y) == 0
    ensures TOP & Half(x) == 0
  {
  }

  // No mask is empty and no two masks share a bit.
  lemma MasksAreSeparate(k: nat, j: nat)
    requires k < UNIT_BITS && j < UNIT_BITS
    ensures Mask(k) != 0
    ensures k != j ==> And(Mask(k), Mask(j)) == 0
  {
    if Mask(k) == 0 {
      ZeroStays(k, 63);
      LastMask();
    }
    if k != j {
      MasksApart(k, j);
    }
  }

  lemma {:induction false} MasksApart(k: nat, j: nat)
    requires k < UNIT_BITS && j < UNIT_BITS && k != j
    ensures And(Mask(k), Mask(j)) == 0
    decreases k
  {
    if k == 0 {
      HalvesStayApart(Mask(j - 1), 0);
    } else if j == 0 {
      HalvesStayApart(Mask(k - 1), 0);
      assert Mask(k) & TOP == 0;
    } else {
      MasksApart(k - 1, j - 1);
      HalvesStayApart(Mask(k - 1), Mask(j - 1));
    }
  }

  function And(w: bv64, m: bv64): bv64 {
    w & m
  }

  function Or(w: bv64, m: bv64): bv64 {
    w | m
  }

  function AndNot(w: bv64, m: bv64): bv64 {
    w & !m
  }

  lemma OrFacts(w: bv64, m: bv64, n: bv64)
    ensures And(m, n) == 0 ==> And(Or(w, m), n) == And(w, n)
    ensures And(Or(w, m), m) == m
  {
  }

  lemma AndNotFacts(w: bv64, m: bv64, n: bv64)
    ensures And(m, n) == 0 ==> And(AndNot(w, m), n) == And(w, n)
    ensures And(AndNot(w, m), m) == 0
  {
  }

  // word & (mask >> k)
  predicate Bit(w: bv64, k: nat)
    requires k < UNIT_BITS
  {
    And(w, Mask(k)) != 0
  }

  // word | (mask >> k)
  function WithBit(w: bv64, k: nat): bv64
    requires k < UNIT_BITS
  {
    Or(w, Mask(k))
  }

  // word & ~(mask >> k)
  function WithoutBit(w: bv64, k: nat): bv64
    requires k < UNIT_BITS
  {
    AndNot(w, Mask(k))
  }

  lemma BitIs(w: bv64, k: nat)
    requires k < UNIT_BITS
    ensures Bit(w, k) <==> And(w, Mask(k)) != 0
  {
    hide And;
  }

  lemma WithIs(w: bv64, k: nat, j: nat)
    requires k < UNIT_BITS && j < UNIT_BITS
    ensures Bit(WithBit(w, k), j) <==> And(Or(w, Mask(k)), Mask(j)) != 0
  {
    hide And;
    hide Or;
  }

  lemma WithoutIs(w: bv64, k: nat, j: nat)
    requires k < UNIT_BITS && j < UNIT_BITS
    ensures Bit(WithoutBit(w, k), j) <==> And(AndNot(w, Mask(k)), Mask(j)) != 0
  {
    hide And;
    hide AndNot;
  }

  lemma BitAfterWith(w: bv64, k: nat, j: nat)
    requires k < UNIT_BITS && j < UNIT_BITS
    ensures Bit(WithBit(w, k), j) <==> j == k || Bit(w, j)
  {
    hide *;
    MasksAreSeparate(k, j);
    OrFacts(w, Mask(k), Mask(j));
    BitIs(w, j);
    WithIs(w, k, j);
  }

  lemma BitAfterWithout(w: bv64, k: nat, j: nat)
    requires k < UNIT_BITS && j < UNIT_BITS
    ensures Bit(WithoutBit(w, k), j) <==> j != k && Bit(w, j)
  {
    hide *;
    MasksAreSeparate(k, j);
    AndNotFacts(w, Mask(k), Mask(j));
    BitIs(w, j);
    WithoutIs(w, k, j);
  }

  lemma NoBit(k: nat)
    requires k < UNIT_BITS
    ensures !Bit(0, k)
  {
  }

  type Bitmap = b: seq<bv64> | |b| == 4 witness [0, 0, 0, 0]

  const EMPTY: Bitmap := [0, 0, 0, 0]

  predicate On(bitmap: Bitmap, b: nat)
    requires b < 256
  {
    Bit(bitmap[b / 64], b % 64)
  }

  function SetBit(bitmap: Bitmap, b: nat): (r: Bitmap)
    requires b < 256
  {
    bitmap[b / 64 := WithBit(bitmap[b / 64], b % 64)]
  }

  function ClearBit(bitmap: Bitmap, b: nat): (r: Bitmap)
    requires b < 256
  {
    bitmap[b / 64 := WithoutBit(bitmap[b / 64], b % 64)]
  }

  lemma OnAfterSet(bitmap: Bitmap, b: nat, c: nat)
    requires b < 256 && c < 256
    ensures On(SetBit(bitmap, b), c) <==> c == b || On(bitmap, c)
  {
    hide Bit;
    hide WithBit;
    if b / 64 == c / 64 {
      BitAfterWith(bitmap[b / 64], b % 64, c % 64);
    }
  }

  lemma OnAfterClear(bitmap: Bitmap, b: nat, c: nat)
    requires b < 256 && c < 256
    ensures On(ClearBit(bitmap, b), c) <==> c != b && On(bitmap, c)
  {
    hide Bit;
    hide WithoutBit;
    if b / 64 == c / 64 {
      BitAfterWithout(bitmap[b / 64], b % 64, c % 64);
    }
  }

  lemma NothingOn(c: nat)
    requires c < 256
    ensures !On(EMPTY, c)
  {
    hide Bit;
    NoBit(c % 64);
  }

  // How many of the first n bits are on.
  function Count(bitmap: Bitmap, n: nat): (r: nat)
    requires n <= 256
    ensures r <= n
  {
    if n == 0 then 0 else Count(bitmap, n - 1) + if On(bitmap, n - 1) then 1 else 0
  }

  lemma {:induction false} CountAfterSet(bitmap: Bitmap, b: nat, n: nat)
    requires b < 256 && n <= 256 && !On(bitmap, b)
    ensures Count(SetBit(bitmap, b), n) == Count(bitmap, n) + if b < n then 1 else 0
  {
    hide On;
    hide SetBit;
    if n > 0 {
      CountAfterSet(bitmap, b, n - 1);
      OnAfterSet(bitmap, b, n - 1);
    }
  }

  lemma {:induction false} CountAfterClear(bitmap: Bitmap, b: nat, n: nat)
    requires b < 256 && n <= 256 && On(bitmap, b)
    ensures Count(bitmap, n) == Count(ClearBit(bitmap, b), n) + if b < n then 1 else 0
  {
    hide On;
    hide ClearBit;
    if n > 0 {
      CountAfterClear(bitmap, b, n - 1);
      OnAfterClear(bitmap, b, n - 1);
    }
  }

  // The counter tells full from not full: it equals n exactly when the first n bits are all on.
  lemma {:induction false} FullExactlyWhenAllOn(bitmap: Bitmap, n: nat)
    requires n <= 256
    ensures Count(bitmap, n) == n <==> forall c: nat :: c < n ==> On(bitmap, c)
  {
    hide On;
    if n > 0 {
      FullExactlyWhenAllOn(bitmap, n - 1);
    }
  }

  lemma {:induction false} NoneCounted(n: nat)
    requires n <= 256
    ensures Count(EMPTY, n) == 0
  {
    if n > 0 {
      NoneCounted(n - 1);
      NothingOn(n - 1);
    }
  }

  // The scan for a free place, over the words and the bits of each word.
  method FirstClear(bitmap: Bitmap, max: nat) returns (bit: nat, unit: nat, unitBit: nat)
    requires max <= 256
    ensures bit <= max && forall c: nat :: c < bit ==> On(bitmap, c)
    ensures bit < max ==> !On(bitmap, bit) && unit == bit / UNIT_BITS && unitBit == bit % UNIT_BITS
  {
    hide Bit;
    bit, unit, unitBit := 0, 0, 0;
    while bit < max
      invariant bit <= max && unitBit <= UNIT_BITS && bit == unit * 64 + unitBit
      invariant forall c: nat :: c < bit ==> On(bitmap, c)
    {
      if unitBit >= UNIT_BITS {
        unitBit := 0;
        unit := unit + 1;
      }
      Split(bit, unit, unitBit);
      if !Bit(bitmap[unit], unitBit) {
        break;
      }
      bit := bit + 1;
      unitBit := unitBit + 1;
    }
  }

  lemma Split(bit: nat, unit: nat, unitBit: nat)
    requires unitBit < 64 && bit == unit * 64 + unitBit
    ensures unit == bit / 64 && unitBit == bit % 64
  {
  }

  // Splits a place into its word and its bit there, when a page of max places has it.
  method UnitBit(bit: nat, max: nat) returns (ok: bool, unit: nat, unitBit: nat)
    requires bit < 256 && max <= 256
    ensures ok <==> bit < max
    ensures ok ==> unit == bit / 64 && unitBit == bit % 64 && bit == unit * 64 + unitBit
  {
    ok, unit, unitBit := bit < max, 0, 0;
    if ok {
      unit := bit / UNIT_BITS;
      unitBit := bit % UNIT_BITS;
    }
  }
}
