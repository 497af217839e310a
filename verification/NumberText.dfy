// Printing and reading numbers: _strrev, _uitoa, _ulltoa and _str2i of core/additions/str.c.
module NumberText {

  const TWO_32: nat := 0x1_0000_0000

  datatype Char = Char(code: bv8)

  const NUL: Char := Char(0)

  // The table of digits: ten figures and twenty-six letters.
  function Digit(d: nat): Char
    requires d < 36
  {
    Char(if d < 10 then 48 + d as bv8 else 87 + d as bv8)
  }

  lemma DigitIsNotNul(d: nat)
    requires d < 36
    ensures Digit(d) != NUL
  {
  }

  lemma DivSmaller(n: nat, base: nat)
    requires n >= base >= 2
    ensures 0 < n / base < n
  {
  }

  lemma ModSmaller(n: nat, base: nat)
    requires base >= 2
    ensures n % base < base && (n / base == 0 <==> n < base) && n / base >= 0
  {
  }

  // ---------- what is printed ----------

  // The numeral of n, the leading digit first.
  function Numeral(n: nat, base: nat): (s: seq<Char>)
    requires 2 <= base <= 36
    decreases n
  {
    ModSmaller(n, base);
    if n < base then [Digit(n)]
    else
      DivSmaller(n, base);
      Numeral(n / base, base) + [Digit(n % base)]
  }

  function Reversed(s: seq<Char>): (r: seq<Char>)
    ensures |r| == |s|
    ensures forall k :: 0 <= k < |s| ==> r[k] == s[|s| - 1 - k]
  {
    seq(|s|, k requires 0 <= k < |s| => s[|s| - 1 - k])
  }

  lemma {:induction false} NumeralHasNoNul(n: nat, base: nat)
    requires 2 <= base <= 36
    ensures |Numeral(n, base)| >= 1 && NUL !in Numeral(n, base)
    decreases n
  {
    hide Digit;
    ModSmaller(n, base);
    DigitIsNotNul(n % base);
    if n < base {
      DigitIsNotNul(n);
    } else {
      DivSmaller(n, base);
      NumeralHasNoNul(n / base, base);
    }
  }

  // What a character is worth as a digit: figures and then small letters.
  function Value(c: Char): nat {
    var code := c.code as nat;
    if 48 <= code <= 57 then code - 48 else if 97 <= code <= 122 then code - 87 else 36
  }

  lemma DigitValue(d: nat)
    requires d < 36
    ensures Value(Digit(d)) == d
  {
  }

  // The number that the digits of s are in the base, the leading one first.
  function ValueIn(s: seq<Char>, base: nat): nat {
    if s == [] then 0 else ValueIn(s[..|s| - 1], base) * base + Value(s[|s| - 1])
  }

  // In every base the numeral has only digits below the base and the value n, and begins with 0 only for 0.
  lemma {:induction false} NumeralMeans(n: nat, base: nat)
    requires 2 <= base <= 36
    ensures var s := Numeral(n, base); s != [] && ValueIn(s, base) == n && (Value(s[0]) == 0 ==> n == 0 && |s| == 1)
    ensures forall k :: 0 <= k < |Numeral(n, base)| ==> Value(Numeral(n, base)[k]) < base
    decreases n
  {
    hide Digit;
    hide Value;
    ModSmaller(n, base);
    var s := Numeral(n, base);
    if n < base {
      DigitValue(n);
      assert s[..0] == [];
      assert ValueIn([], base) * base == 0;
    } else {
      DivSmaller(n, base);
      NumeralMeans(n / base, base);
      DigitValue(n % base);
      var front := Numeral(n / base, base);
      assert s == front + [Digit(n % base)];
      assert s[..|s| - 1] == front;
      Recombined(n, base);
    }
  }

  lemma Recombined(n: nat, base: nat)
    requires base >= 2
    ensures n / base * base + n % base == n
  {
  }

  // ---------- printing ----------

  function Xor(a: Char, b: Char): Char {
    Char(a.code ^ b.code)
  }

  lemma XorSwap(a: Char, b: Char)
    ensures Xor(b, Xor(a, b)) == a && Xor(Xor(a, b), a) == b
  {
  }

  // The length of a NUL-terminated string.
  method StrLen(str: array<Char>, ghost n: nat) returns (r: nat)
    requires n < str.Length && str[n] == NUL && forall k :: 0 <= k < n ==> str[k] != NUL
    ensures r == n
  {
    r := 0;
    while str[r] != NUL
      invariant r <= n
      decreases n - r
    {
      r := r + 1;
    }
  }

  // The p outermost places on each side are exchanged.
  ghost predicate HalfReversed(was: seq<Char>, now: seq<Char>, p: nat) {
    && |was| == |now|
    && (forall k :: 0 <= k < p && k < |was| ==> now[k] == was[|was| - 1 - k] && now[|was| - 1 - k] == was[k])
    && (forall k :: p <= k < |was| - p ==> now[k] == was[k])
  }

  lemma OneSwap(was: seq<Char>, now: seq<Char>, p: nat)
    requires HalfReversed(was, now, p) && p < |was| - 1 - p
    ensures HalfReversed(was, now[p := now[|was| - 1 - p]][|was| - 1 - p := now[p]], p + 1)
  {
  }

  lemma FullyReversed(was: seq<Char>, now: seq<Char>, p: nat)
    requires HalfReversed(was, now, p) && p >= |was| - 1 - p
    ensures now == Reversed(was)
  {
  }

  // _strrev: reverses a string in place, swapping by exclusive or.
  method StrRev(str: array<Char>, ghost n: nat)
    requires n < str.Length && str[n] == NUL && forall k :: 0 <= k < n ==> str[k] != NUL
    modifies str
    ensures str[..n] == Reversed(old(str[..n])) && str[n..] == old(str[n..])
  {
    hide Xor;
    hide HalfReversed;
    ghost var was := str[..n];
    NotYetReversed(was);
    if str[0] == NUL {
      FullyReversed(was, was, 0);
      return;
    }
    var len := StrLen(str, n);
    var p1: nat := 0;
    var p2 := len - 1;
    while p2 > p1
      invariant p1 <= p2 + 1 <= n && p1 + p2 == n - 1
      invariant HalfReversed(was, str[..n], p1)
      invariant str[n..] == old(str[n..])
    {
      ghost var now := str[..n];
      OneSwap(was, now, p1);
      XorSwap(str[p1], str[p2]);
      str[p1] := Xor(str[p1], str[p2]);
      str[p2] := Xor(str[p2], str[p1]);
      str[p1] := Xor(str[p1], str[p2]);
      assert str[..n] == now[p1 := now[p2]][p2 := now[p1]];
      p1, p2 := p1 + 1, p2 - 1;
    }
    FullyReversed(was, str[..n], p1);
  }

  lemma NotYetReversed(was: seq<Char>)
    ensures HalfReversed(was, was, 0)
  {
  }

  // The last digits of a numeral, least first.
  ghost predicate Tail(goal: seq<Char>, low: seq<Char>, rest: nat, base: nat)
    requires 2 <= base <= 36
  {
    goal == if rest == 0 then Reversed(low) else Numeral(rest, base) + Reversed(low)
  }

  lemma ReversedMore(low: seq<Char>, c: Char)
    ensures Reversed(low + [c]) == [c] + Reversed(low)
  {
  }

  lemma FirstDigit(n: nat, base: nat)
    requires 2 <= base <= 36
    ensures 0 <= n % base < 36 && n / base >= 0
    ensures Tail(Numeral(n, base), [Digit(n % base)], n / base, base)
  {
    hide Digit;
    ModSmaller(n, base);
    assert Reversed([Digit(n % base)]) == [Digit(n % base)];
  }

  lemma MoreDigits(goal: seq<Char>, low: seq<Char>, rest: nat, base: nat)
    requires 2 <= base <= 36 && rest > 0 && Tail(goal, low, rest, base)
    ensures 0 <= rest % base < 36 && 0 <= rest / base < rest && |low| < |goal|
    ensures Tail(goal, low + [Digit(rest % base)], rest / base, base)
  {
    hide Digit;
    hide Numeral;
    ModSmaller(rest, base);
    NumeralHasNoNul(rest, base);
    NumeralIs(rest, base);
    ReversedMore(low, Digit(rest % base));
    if rest >= base {
      DivSmaller(rest, base);
      assert Numeral(rest / base, base) + [Digit(rest % base)] + Reversed(low)
          == Numeral(rest / base, base) + ([Digit(rest % base)] + Reversed(low));
    }
  }

  lemma NumeralIs(n: nat, base: nat)
    requires 2 <= base <= 36
    ensures 0 <= n % base < 36 && n / base >= 0
    ensures n < base ==> Numeral(n, base) == [Digit(n % base)] && n / base == 0
    ensures n >= base ==> n / base > 0 && Numeral(n, base) == Numeral(n / base, base) + [Digit(n % base)]
  {
    hide Digit;
    ModSmaller(n, base);
  }

  lemma TailEnds(goal: seq<Char>, low: seq<Char>, base: nat)
    requires 2 <= base <= 36 && Tail(goal, low, 0, base) && NUL !in goal
    ensures |low| == |goal| && Reversed(low) == goal
    ensures forall k :: 0 <= k < |low| ==> low[k] != NUL
  {
    forall k | 0 <= k < |low| ensures low[k] != NUL {
      assert goal[|low| - 1 - k] == low[k];
    }
  }

  // _uitoa and _ulltoa, which differ in the width of n only: the numeral and a NUL behind it.
  method ToText(n: nat, s: array<Char>, base: nat)
    requires 2 <= base <= 36 && |Numeral(n, base)| < s.Length
    modifies s
    ensures s[..|Numeral(n, base)|] == Numeral(n, base) && s[|Numeral(n, base)|] == NUL
  {
    hide Numeral;
    hide Digit;
    hide Tail;
    ghost var goal := Numeral(n, base);
    NumeralHasNoNul(n, base);
    FirstDigit(n, base);
    s[0] := Digit(n % base);
    var i: nat := 1;
    var rest: nat := n / base;
    assert s[..i] == [Digit(n % base)];
    while rest > 0
      invariant 0 < i < s.Length && Tail(goal, s[..i], rest, base)
      decreases rest
    {
      MoreDigits(goal, s[..i], rest, base);
      ghost var low := s[..i];
      s[i] := Digit(rest % base);
      i := i + 1;
      assert s[..i] == low + [Digit(rest % base)];
      rest := rest / base;
    }
    TailEnds(goal, s[..i], base);
    ghost var low := s[..i];
    s[i] := NUL;
    assert s[..i] == low;
    assert forall k :: 0 <= k < i ==> s[k] == low[k];
    StrRev(s, i);
  }

  // ---------- reading ----------

  predicate IsFigure(c: Char) {
    48 <= c.code <= 57
  }

  function Worth(c: Char): (d: nat)
    requires IsFigure(c)
  {
    (c.code - 48) as nat
  }

  function Pow10(k: nat): nat {
    if k == 0 then 1 else 10 * Pow10(k - 1)
  }

  function Figures(s: seq<Char>): nat {
    if s == [] then 0 else (if IsFigure(s[0]) then 1 else 0) + Figures(s[1..])
  }

  // The number the figures of s spell, whatever stands between them.
  function Spelled(s: seq<Char>): nat {
    if s == [] then 0
    else (if IsFigure(s[0]) then Worth(s[0]) * Pow10(Figures(s[1..])) else 0) + Spelled(s[1..])
  }

  // How many characters are read: the count goes through a signed byte.
  function ReadCount(sz: int): nat {
    var last := (sz - 1 + 128) % 256 - 128;
    if last < 0 then 0 else last + 1
  }

  // All characters are read exactly when there are at most 128.
  lemma ReadsAll(sz: nat)
    ensures ReadCount(sz) == sz <==> sz <= 128
  {
  }

  // r += d * m in 32 bits.
  function Accumulated(r: nat, d: nat, m: nat): nat {
    (r + d * m) % TWO_32
  }

  // The characters from k to n have been read.
  ghost predicate HasRead(s: seq<Char>, k: nat, n: nat, r: nat, m: nat) {
    k <= n <= |s| && r == Spelled(s[k..n]) % TWO_32 && m == Pow10(Figures(s[k..n])) % TWO_32
  }

  lemma OneFigure(s: seq<Char>, i: nat, n: nat, r: nat, m: nat)
    requires HasRead(s, i + 1, n, r, m)
    ensures i < |s|
    ensures !IsFigure(s[i]) ==> HasRead(s, i, n, r, m)
    ensures IsFigure(s[i]) ==> HasRead(s, i, n, Accumulated(r, Worth(s[i]), m), (m * 10) % TWO_32)
  {
    hide Worth;
    hide IsFigure;
    assert s[i..n][0] == s[i] && s[i..n][1..] == s[i + 1..n];
    var rest, power := Spelled(s[i + 1..n]), Pow10(Figures(s[i + 1..n]));
    if IsFigure(s[i]) {
      Wraps(rest, power, Worth(s[i]));
    }
  }

  lemma Wraps(rest: nat, power: nat, d: nat)
    ensures (rest % TWO_32 + d * (power % TWO_32)) % TWO_32 == (d * power + rest) % TWO_32
    ensures (power % TWO_32 * 10) % TWO_32 == (10 * power) % TWO_32
  {
    var a, b := rest / TWO_32, power / TWO_32;
    var low := rest % TWO_32 + d * (power % TWO_32);
    assert d * power == d * (b * TWO_32 + power % TWO_32) == d * b * TWO_32 + d * (power % TWO_32);
    assert d * power + rest == low + (d * b + a) * TWO_32;
    SameRemainder(low, d * b + a);
    SameRemainder(power % TWO_32 * 10, 10 * b);
  }

  lemma SameRemainder(low: nat, k: nat)
    ensures low % TWO_32 == (low + k * TWO_32) % TWO_32
  {
  }

  // _str2i, over the last of the characters first.
  method ToNumber(str: seq<Char>, sz: int) returns (r: nat)
    requires ReadCount(sz) <= |str|
    ensures r == Spelled(str[..ReadCount(sz)]) % TWO_32
  {
    hide HasRead;
    hide Accumulated;
    hide Worth;
    hide IsFigure;
    hide Spelled;
    r := 0;
    var i := (sz - 1 + 128) % 256 - 128;
    var m: nat := 1;
    ghost var n := ReadCount(sz);
    NothingRead(str, n);
    while i >= 0
      invariant i < n && (i < 0 ==> HasRead(str, 0, n, r, m))
      invariant i >= 0 ==> HasRead(str, i + 1, n, r, m)
    {
      OneFigure(str, i, n, r, m);
      if IsFigure(str[i]) {
        r := Accumulated(r, Worth(str[i]), m);
        m := (m * 10) % TWO_32;
      }
      i := i - 1;
    }
    AllRead(str, n, r, m);
  }

  lemma AllRead(s: seq<Char>, n: nat, r: nat, m: nat)
    requires HasRead(s, 0, n, r, m)
    ensures n <= |s| && r == Spelled(s[..n]) % TWO_32
  {
    assert s[0..n] == s[..n];
  }

  lemma NothingRead(s: seq<Char>, n: nat)
    requires n <= |s|
    ensures HasRead(s, n, n, 0, 1)
  {
    assert s[n..n] == [];
  }

  lemma NothingSpelled()
    ensures Spelled([]) == 0 && Pow10(Figures([])) == 1
  {
  }

  // ---------- both ----------

  lemma FigureOfDigit(d: nat)
    requires d < 10
    ensures IsFigure(Digit(d)) && Worth(Digit(d)) == d
  {
  }

  // A figure more at the end.
  lemma {:induction false} SpelledMore(s: seq<Char>, c: Char)
    requires IsFigure(c)
    ensures Figures(s + [c]) == Figures(s) + 1
    ensures Spelled(s + [c]) == 10 * Spelled(s) + Worth(c)
  {
    hide Worth;
    hide IsFigure;
    if s == [] {
      assert [c][1..] == [] && [] + [c] == [c];
      assert Pow10(0) == 1;
    } else {
      SpelledMore(s[1..], c);
      assert (s + [c])[1..] == s[1..] + [c] && (s + [c])[0] == s[0];
      if IsFigure(s[0]) {
        Tenfold(Worth(s[0]), Pow10(Figures(s[1..])));
      }
    }
  }

  // What is not a figure makes no difference, wherever it stands.
  lemma {:induction false} SpelledSkips(a: seq<Char>, c: Char, b: seq<Char>)
    requires c.code < 48 || c.code > 57
    ensures Spelled(a + [c] + b) == Spelled(a + b) && Figures(a + [c] + b) == Figures(a + b)
  {
    hide Worth;
    if a == [] {
      assert ([c] + b)[1..] == b && a + [c] + b == [c] + b && a + b == b;
    } else {
      SpelledSkips(a[1..], c, b);
      assert (a + [c] + b)[1..] == a[1..] + [c] + b && (a + b)[1..] == a[1..] + b;
    }
  }

  lemma Tenfold(d: nat, p: nat)
    ensures d * (10 * p) == 10 * (d * p)
  {
  }

  // The decimal numeral spells its number.
  lemma {:induction false} NumeralSpells(n: nat)
    ensures Spelled(Numeral(n, 10)) == n
    decreases n
  {
    hide Digit;
    hide Worth;
    hide IsFigure;
    hide Numeral;
    NumeralIs(n, 10);
    FigureOfDigit(n % 10);
    if n < 10 {
      SpelledMore([], Digit(n % 10));
      NothingSpelled();
      assert [] + [Digit(n % 10)] == [Digit(n % 10)];
    } else {
      NumeralSpells(n / 10);
      SpelledMore(Numeral(n / 10, 10), Digit(n % 10));
    }
  }

  lemma {:induction false} NumeralFits(n: nat, k: nat)
    requires k > 0 && n < Pow10(k)
    ensures |Numeral(n, 10)| <= k
    decreases k
  {
    hide Digit;
    if n >= 10 {
      NumeralFits(n / 10, k - 1);
    }
  }

  lemma TenFigures()
    ensures Pow10(10) == 10_000_000_000
  {
    assert Pow10(5) == 100_000;
  }

  // A 32-bit number printed and read again is the number.
  method PrintThenRead(n: nat, s: array<Char>) returns (r: nat)
    requires n < TWO_32 && s.Length == 11
    modifies s
    ensures r == n
  {
    hide Numeral;
    hide Spelled;
    TenFigures();
    NumeralFits(n, 10);
    NumeralHasNoNul(n, 10);
    ToText(n, s, 10);
    var len := StrLen(s, |Numeral(n, 10)|);
    ghost var text := s[..len];
    assert text == Numeral(n, 10) && ReadCount(len) == len && text[..len] == text;
    r := ToNumber(s[..len], len);
    NumeralSpells(n);
  }
}
