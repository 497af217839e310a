// Parsing the compact text of a tree gives the tree back.
module JsonRoundTrip {
  import opened HyperText
  import opened JsonGrammar
  import opened JsonText

  // ---------- strings ----------

  lemma OneMore(t: Text, q: nat, lead: Byte, r: nat, next: Byte)
    requires lead >= 0xC0 && q < |t| && 0xC0 <= r < 0x100_0000 && next == (lead * 2) % 256
    ensures r * 256 + t[q] >= 0xC000
    ensures Trail(t, q, lead, r) == Trail(t, q + 1, next, r * 256 + t[q])
  {
    PushedSmall(r, t[q]);
    hide Pushed;
  }

  lemma PushedSmall(r: nat, b: Byte)
    requires r < 0x100_0000
    ensures Pushed(r, b) == r * 256 + b
  {
  }

  lemma NoMore(t: Text, q: nat, lead: Byte, r: nat)
    requires lead < 0xC0 && q <= |t|
    ensures Trail(t, q, lead, r) == Symbol(r, q)
  {
  }

  function WordOf(a: nat, b: nat, c: nat, d: nat): nat {
    a * 0x100_0000 + b * 0x1_0000 + c * 0x100 + d
  }

  // The bytes of a symbol as one number, the first one leading.
  function Bytes(t: Text, p: nat, n: nat): nat
    requires 2 <= n <= 4 && p + n <= |t|
  {
    if n == 2 then WordOf(0, 0, t[p], t[p + 1])
    else if n == 3 then WordOf(0, t[p], t[p + 1], t[p + 2])
    else WordOf(t[p], t[p + 1], t[p + 2], t[p + 3])
  }

  // A symbol of several bytes is these bytes, and none of the characters the parser looks for.
  lemma ReadWide(t: Text, p: nat)
    requires p < |t| && 0xC0 <= t[p] < 0xF8 && p + Width(t[p]) <= |t|
    ensures Read(t, p).next == p + Width(t[p]) && Read(t, p).c == Bytes(t, p, Width(t[p])) >= 0xC000
  {
    hide Trail;
    var lead: Byte := t[p];
    var r: nat := lead * 256 + t[p + 1];
    OneMore(t, p + 1, lead, lead, lead * 2 - 256);
    if lead < 0xE0 {
      NoMore(t, p + 2, lead * 2 - 256, r);
    } else {
      var r3: nat := r * 256 + t[p + 2];
      OneMore(t, p + 2, lead * 2 - 256, r, lead * 4 - 768);
      if lead < 0xF0 {
        NoMore(t, p + 3, lead * 4 - 768, r3);
      } else {
        OneMore(t, p + 3, lead * 4 - 768, r3, lead * 8 - 1792);
        NoMore(t, p + 4, lead * 8 - 1792, r3 * 256 + t[p + 3]);
      }
    }
  }

  lemma OneByteStays(r: nat, a: Byte)
    ensures Pushed(r, a) % 0x100 == a
  {
  }

  lemma TwoBytesStay(r: nat, a: Byte, b: Byte)
    requires r % 0x100 == a
    ensures Pushed(r, b) % 0x1_0000 == a * 0x100 + b
  {
    var x: nat := r % 0x100_0000;
    var high: nat := x / 0x100;
    assert x == high * 0x100 + a;
    assert Pushed(r, b) == high * 0x1_0000 + (a * 0x100 + b);
    RestOfTwo(high, a * 0x100 + b);
  }

  lemma RestOfTwo(k: nat, m: nat)
    requires m < 0x1_0000
    ensures (k * 0x1_0000 + m) % 0x1_0000 == m
  {
  }

  lemma ThreeBytesStay(r: nat, w: nat, c: Byte)
    requires r % 0x1_0000 == w
    ensures Pushed(r, c) % 0x100_0000 == w * 0x100 + c
  {
    var x: nat := r % 0x100_0000;
    var high: nat := x / 0x1_0000;
    assert x == high * 0x1_0000 + w;
    assert Pushed(r, c) == high * 0x100_0000 + (w * 0x100 + c);
    RestOfThree(high, w * 0x100 + c);
  }

  lemma RestOfThree(k: nat, m: nat)
    requires m < 0x100_0000
    ensures (k * 0x100_0000 + m) % 0x100_0000 == m
  {
  }

  lemma FourBytesStay(r: nat, a: Byte, b: Byte, c: Byte, d: Byte)
    ensures Pushed(Pushed(Pushed(Pushed(r, a), b), c), d) == WordOf(a, b, c, d)
  {
    OneByteStays(r, a);
    TwoBytesStay(Pushed(r, a), a, b);
    ThreeBytesStay(Pushed(Pushed(r, a), b), a * 0x100 + b, c);
    var three := Pushed(Pushed(Pushed(r, a), b), c);
    assert Pushed(three, d) == (three % 0x100_0000) * 256 + d;
    hide Pushed;
  }

  lemma Longer(t: Text, q: nat, lead: Byte, r: nat)
    requires lead >= 0xC0 && q < |t|
    ensures Trail(t, q, lead, r) == Trail(t, q + 1, (lead * 2) % 256, Pushed(r, t[q]))
  {
    hide Pushed;
  }

  // A byte FF opens a form of eight bytes. Only the last four are left in the 32-bit word, so that they can
  // spell any character the parser looks for.
  lemma LongFormWraps(t: Text, p: nat)
    requires p + 8 <= |t| && t[p] == 0xFF
    ensures Read(t, p) == Symbol(WordOf(t[p + 4], t[p + 5], t[p + 6], t[p + 7]), p + 8)
  {
    hide Trail;
    hide Pushed;
    var r3 := Pushed(Pushed(Pushed(0xFF, t[p + 1]), t[p + 2]), t[p + 3]);
    Longer(t, p + 1, 0xFF, 0xFF);
    Longer(t, p + 2, 0xFE, Pushed(0xFF, t[p + 1]));
    Longer(t, p + 3, 0xFC, Pushed(Pushed(0xFF, t[p + 1]), t[p + 2]));
    Longer(t, p + 4, 0xF8, r3);
    Longer(t, p + 5, 0xF0, Pushed(r3, t[p + 4]));
    Longer(t, p + 6, 0xE0, Pushed(Pushed(r3, t[p + 4]), t[p + 5]));
    Longer(t, p + 7, 0xC0, Pushed(Pushed(Pushed(r3, t[p + 4]), t[p + 5]), t[p + 6]));
    NoMore(t, p + 8, 0x80, Pushed(Pushed(Pushed(Pushed(r3, t[p + 4]), t[p + 5]), t[p + 6]), t[p + 7]));
    FourBytesStay(r3, t[p + 4], t[p + 5], t[p + 6], t[p + 7]);
  }

  lemma {:induction false} StringTrip(t: Text, p: nat, s: Text, previous: nat, d: Byte)
    requires Has(t, p, s) && p + |s| < |t| && t[p + |s|] == d && IsQuote(d)
    requires StringOk(s, previous == BACKSLASH, d)
    ensures StringScan(t, p, previous, d) == Scan(true, d, p + |s|, p + |s| + 1)
    decreases |s|
  {
    hide *;
    if s == [] {
      StringEnds(t, p, previous, d);
    } else {
      StringStarts(t, p, s, previous, d);
      StringTrip(t, p + Width(s[0]), s[Width(s[0])..], Read(t, p).c, d);
    }
  }

  lemma StringEnds(t: Text, p: nat, previous: nat, d: Byte)
    requires p < |t| && t[p] == d && IsQuote(d) && StringOk([], previous == BACKSLASH, d)
    ensures StringScan(t, p, previous, d) == Scan(true, d, p, p + 1)
  {
    hide Read;
    ReadByte(t, p);
  }

  // The first symbol of a string is not its end.
  lemma StringStarts(t: Text, p: nat, s: Text, previous: nat, d: Byte)
    requires s != [] && Has(t, p, s) && p + |s| < |t| && IsQuote(d) && StringOk(s, previous == BACKSLASH, d)
    ensures var n := Width(s[0]);
      && 1 <= n <= |s| && Has(t, p + n, s[n..]) && StringOk(s[n..], Read(t, p).c == BACKSLASH, d)
      && StringScan(t, p, previous, d) == StringScan(t, p + n, Read(t, p).c, d)
  {
    hide Read;
    HasAt(t, p, s, 0);
    var n := Width(s[0]);
    assert s == s[..n] + s[n..];
    HasBoth(t, p, s[..n], s[n..]);
    if n == 1 {
      ReadByte(t, p);
    } else {
      ReadWide(t, p);
    }
  }

  // ---------- names ----------

  // A name ends at the quote it opened with; without one it ends at a colon or a blank.
  predicate EndsName(c: nat, quote: nat) {
    if quote == 0 then c == COLON || IsSpace(c) else c == quote && IsQuote(c)
  }

  lemma {:induction false} NameTrip(t: Text, p: nat, s: Text, k: nat, quote: nat)
    requires Has(t, p, s) && p + |s| < |t| && NameOk(s) && k <= |s| && EndsName(t[p + |s|], quote)
    requires quote == 0 ==> s != []
    ensures NameScan(t, p + k + 1, t[p + k], p + k, quote, quote == 0 || k > 0)
         == Scan(true, t[p + |s|], p + |s|, p + |s| + 1)
    decreases |s| - k
  {
    hide Read;
    if k < |s| {
      HasAt(t, p, s, k);
      if k + 1 < |s| {
        HasAt(t, p, s, k + 1);
      }
      ReadByte(t, p + k + 1);
      NameTrip(t, p, s, k + 1, quote);
    }
  }

  // A name between two quotes.
  lemma QuotedName(t: Text, p: nat, s: Text, d: Byte) returns (slice: Slice)
    requires Has(t, p, [d] + s + [d]) && NameOk(s) && IsQuote(d)
    ensures p < |t| && t[p] == d
    ensures ParseName(t, p + 1, d, p) == Name(true, slice, d, p + |s| + 2)
    ensures Token(t, slice, s)
  {
    hide Read;
    hide NameOk;
    HasBoth(t, p, [d] + s, [d]);
    HasBoth(t, p, [d], s);
    HasAt(t, p, [d], 0);
    HasAt(t, p + 1 + |s|, [d], 0);
    NameStarts(t, p + 1, s, d);
    ReadByte(t, p + 1);
    NameTrip(t, p + 1, s, 0, d);
    slice := Slice(p + 1, Symbols(t, p + 1, p + 1 + |s|));
    NameIsShort(s);
    TokenBetween(t, p + 1, s);
  }

  lemma NameStarts(t: Text, p: nat, s: Text, d: Byte)
    requires Has(t, p, s) && NameOk(s) && p + |s| < |t| && t[p + |s|] == d && IsQuote(d)
    ensures 0 < t[p] < 0xC0
  {
    if |s| > 0 {
      HasAt(t, p, s, 0);
    }
  }

  lemma NameIsShort(s: Text)
    requires NameOk(s)
    ensures |s| < TWO_32
  {
  }

  // ---------- numbers ----------

  // What may stand behind a value.
  predicate Closes(c: nat) {
    c == COMMA || c == CLOSE_ARRAY || c == CLOSE_OBJECT || IsSpace(c)
  }

  // The scan runs over symbols that do not change the base, up to the separator at e.
  lemma {:induction false} NumberRun(t: Text, q: nat, e: nat, base: Base, i: nat)
    requires q <= e < |t| && base != Unknown && Closes(t[e])
    requires forall k :: q <= k < e ==> IsDigit(t[k]) || (base == Hex && IsHexLetter(t[k])) || (base != Hex && t[k] == DOT)
    ensures NumberScan(t, q + 1, t[q], q, base, i) == Scan(true, t[e], e, e + 1)
    decreases e - q
  {
    hide Read;
    if q < e {
      ReadByte(t, q + 1);
      NumberRun(t, q + 1, e, base, (i + 1) % TWO_32);
    }
  }

  lemma {:induction false} DecimalRun(t: Text, q: nat, s: Text, i: nat)
    requires Has(t, q, s) && DecimalOk(s) && q + |s| < |t| && Closes(t[q + |s|])
    ensures NumberScan(t, q + 1, t[q], q, Unknown, i) == Scan(true, t[q + |s|], q + |s|, q + |s| + 1)
    decreases |s|
  {
    hide Read;
    HasAt(t, q, s, 0);
    if s[0] == PLUS || s[0] == MINUS {
      assert s == [s[0]] + s[1..];
      HasBoth(t, q, [s[0]], s[1..]);
      HasAt(t, q + 1, s[1..], 0);
      ReadByte(t, q + 1);
      DecimalRun(t, q + 1, s[1..], (i + 1) % TWO_32);
    } else {
      DigitsAre(t, q, s);
      NumberScanFirst(t, q, i);
      NumberRun(t, q, q + |s|, Decimal, i);
    }
  }

  lemma DigitsAre(t: Text, q: nat, s: Text)
    requires Has(t, q, s) && forall i :: 0 <= i < |s| ==> DigitOrDot(s[i])
    ensures forall k :: q <= k < q + |s| ==> IsDigit(t[k]) || t[k] == DOT
  {
    forall k | q <= k < q + |s| ensures IsDigit(t[k]) || t[k] == DOT {
      HasAt(t, q, s, k - q);
    }
  }

  // The first digit makes a number decimal.
  lemma NumberScanFirst(t: Text, q: nat, i: nat)
    requires q < |t| && IsDigit(t[q])
    ensures NumberScan(t, q + 1, t[q], q, Unknown, i) == NumberScan(t, q + 1, t[q], q, Decimal, i)
  {
  }

  lemma NumberTrip(t: Text, q: nat, s: Text)
    requires Has(t, q, s) && (DecimalOk(s) || HexOk(s)) && q + |s| < |t| && Closes(t[q + |s|])
    ensures |s| > 0 && StartsNumber(t[q]) && !IsQuote(t[q])
    ensures NumberScan(t, q + 1, t[q], q, if t[q] == 48 then Octal else Unknown, 0)
         == Scan(true, t[q + |s|], q + |s|, q + |s| + 1)
  {
    hide Read;
    HasAt(t, q, s, 0);
    if DecimalOk(s) {
      if s[0] == 48 {
        DigitsAre(t, q, s);
        NumberRun(t, q, q + |s|, Octal, 0);
      } else {
        DecimalRun(t, q, s, 0);
      }
    } else {
      HasAt(t, q, s, 1);
      ReadByte(t, q + 1);
      forall k | q + 2 <= k < q + |s| ensures IsDigit(t[k]) || IsHexLetter(t[k]) {
        HasAt(t, q, s, k - q);
      }
      var hex := NumberScan(t, q + 2, t[q + 1], q + 1, Octal, 1);
      assert NumberScan(t, q + 1, 48, q, Octal, 0) == hex;
      assert NumberAction(t[q + 1], Octal, 1) == Go(Hex);
      assert t[q + 2] < 0xC0;
      ReadByte(t, q + 2);
      assert hex == NumberScan(t, q + 3, t[q + 2], q + 2, Hex, 2);
      NumberRun(t, q + 2, q + |s|, Hex, 2);
    }
  }

  // ---------- words ----------

  lemma {:induction false} WordRun(t: Text, q: nat, e: nat, size: nat)
    requires q <= e < |t| && Closes(t[e]) && size + (e - q) < TWO_32
    requires forall k :: q <= k < e ==> IsLower(t[k])
    ensures WordScan(t, q + 1, t[q], size) == Word(t[e], size + (e - q), e + 1)
    decreases e - q
  {
    hide Read;
    if q < e {
      ReadByte(t, q + 1);
      WordRun(t, q + 1, e, size + 1);
    }
  }

  lemma WordTrip(t: Text, q: nat, w: Text, v: Value)
    requires (w == TRUE_WORD && v == True) || (w == FALSE_WORD && v == False) || (w == NULL_WORD && v == Null)
    requires Has(t, q, w) && q + |w| < |t| && Closes(t[q + |w|])
    ensures IsLower(t[q])
    ensures ParseWord(t, q + 1, t[q], q) == Parsed(true, Just(v), t[q + |w|], q + |w| + 1)
  {
    forall k | q <= k < q + |w| ensures IsLower(t[k]) && t[k] == w[k - q] {
      HasAt(t, q, w, k - q);
    }
    WordRun(t, q, q + |w|, 0);
    WordMeans(t, q, w, v);
  }

  lemma WordMeans(t: Text, q: nat, w: Text, v: Value)
    requires (w == TRUE_WORD && v == True) || (w == FALSE_WORD && v == False) || (w == NULL_WORD && v == Null)
    requires q + |w| <= |t| && forall k :: q <= k < q + |w| ==> t[k] == w[k - q]
    ensures WordValue(t, q, |w|) == Just(v)
  {
    assert t[q + 0] == w[0];
    if w != TRUE_WORD {
      Differs(TRUE_WORD, t, q, |w|);
    }
    if w == NULL_WORD {
      Differs(FALSE_WORD, t, q, |w|);
    }
    forall i | 0 <= i < |w| ensures Letter(w, i) == t[q + i] {
    }
  }

  lemma Differs(word: Text, t: Text, q: nat, size: nat)
    requires size > 0 && q < |t| && Letter(word, 0) != t[q]
    ensures !SameStart(word, t, q, size)
  {
    assert q + 0 == q;
  }

  // ---------- trees ----------

  // How a parse of a value that ends before the separator at e stops.
  ghost predicate StopsAt(t: Text, r: Parsed, v: Value, e: nat)
    requires e < |t|
  {
    && r.ok && r.value == Just(v)
    && (v.IsWord() ==> r.c == t[e] && r.next == e + 1)
    && (!v.IsWord() ==> r.next == e)
    && (v.String? ==> IsQuote(r.c))
    && (v.Array? ==> r.c == CLOSE_ARRAY)
    && (v.Object? ==> r.c == CLOSE_OBJECT)
  }

  // The value at p, in a text that goes on with a separator at e.
  ghost predicate Parses(t: Text, p: nat, v: Value, e: nat) {
    && p < e < |t| && Closes(t[e]) && 0 < t[p] < 0xC0
    && StopsAt(t, ParseValue(t, p + 1, t[p], p), v, e)
  }

  // A string between two delimiters.
  lemma QuotedParses(t: Text, p: nat, s: Text, d: Byte) returns (v: Value)
    requires |s| < TWO_32 && IsQuote(d) && StringOk(s, false, d) && Has(t, p, [d] + s + [d])
    requires p + |s| + 2 < |t| && Closes(t[p + |s| + 2])
    ensures Parses(t, p, v, p + |s| + 2) && Means(t, v, JString(s))
  {
    hide StringScan;
    hide StringOk;
    hide NumberScan;
    hide ParseItems;
    hide ParsePairs;
    hide Read;
    HasBoth(t, p, [d] + s, [d]);
    HasBoth(t, p, [d], s);
    HasAt(t, p, [d], 0);
    HasAt(t, p + 1 + |s|, [d], 0);
    StringTrip(t, p + 1, s, d, d);
    TokenBetween(t, p + 1, s);
    v := String(Slice(p + 1, Symbols(t, p + 1, p + 1 + |s|)));
  }

  lemma StringParses(t: Text, p: nat, s: Text) returns (v: Value)
    requires |s| < TWO_32 && StringOk(s, false, Delimiter(s)) && Has(t, p, Print(JString(s)))
    requires p + |s| + 2 < |t| && Closes(t[p + |s| + 2])
    ensures Parses(t, p, v, p + |s| + 2) && Means(t, v, JString(s))
  {
    hide StringOk;
    hide Parses;
    v := QuotedParses(t, p, s, Delimiter(s));
  }

  lemma NumberParses(t: Text, p: nat, s: Text) returns (v: Value)
    requires |s| < TWO_32 && (DecimalOk(s) || HexOk(s)) && Has(t, p, s)
    requires p + |s| < |t| && Closes(t[p + |s|])
    ensures Parses(t, p, v, p + |s|) && Means(t, v, JNumber(s))
  {
    hide NumberScan;
    hide DecimalOk;
    hide HexOk;
    hide StringScan;
    hide ParseItems;
    hide ParsePairs;
    NumberTrip(t, p, s);
    TokenBetween(t, p, s);
    v := Number(Slice(p, Symbols(t, p, p + |s|)));
  }

  lemma WordParses(t: Text, p: nat, j: Json) returns (v: Value)
    requires (j.JTrue? || j.JFalse? || j.JNull?) && Has(t, p, Print(j))
    requires p + |Print(j)| < |t| && Closes(t[p + |Print(j)|])
    ensures Parses(t, p, v, p + |Print(j)|) && Means(t, v, j)
  {
    hide ParseWord;
    hide StringScan;
    hide ParseItems;
    hide ParsePairs;
    v := if j.JTrue? then True else if j.JFalse? then False else Null;
    WordTrip(t, p, Print(j), v);
  }

  // In an array, between two values or after the last.
  lemma AtSeparator(t: Text, e: nat, done: seq<Value>)
    requires e < |t|
    ensures t[e] == COMMA ==> ParseItems(t, e, done) == ParseItems(t, e + 1, done)
    ensures t[e] == CLOSE_ARRAY ==> ParseItems(t, e, done) == Items(true, done, CLOSE_ARRAY, e + 1)
  {
    hide StringScan;
    hide ParsePairs;
    hide Read;
    if t[e] < 0xC0 {
      ReadByte(t, e);
    }
  }

  // A value of an array that is not itself an array, and the separator behind it.
  lemma ItemParses(t: Text, p: nat, v: Value, e: nat, done: seq<Value>)
    requires Parses(t, p, v, e) && !v.Array?
    ensures t[e] == COMMA ==> ParseItems(t, p, done) == ParseItems(t, e + 1, done + [v])
    ensures t[e] == CLOSE_ARRAY ==> ParseItems(t, p, done) == Items(true, done + [v], CLOSE_ARRAY, e + 1)
  {
    hide ParseValue;
    hide Read;
    ReadByte(t, p);
    AtSeparator(t, e, done + [v]);
  }

  // A value of a pair, and the separator behind it.
  lemma PairParses(t: Text, p: nat, v: Value, e: nat, name: Slice, done: seq<Pair>)
    requires Parses(t, p, v, e)
    ensures t[e] == COMMA ==>
      ParsePair(t, p, name, done) == ParsePairs(t, e + 1, Naming, Slice(0, 0), done + [Pair(name, v)])
    ensures t[e] == CLOSE_OBJECT ==>
      ParsePair(t, p, name, done) == Pairs(true, done + [Pair(name, v)], CLOSE_OBJECT, e + 1)
  {
    hide ParseValue;
    hide Read;
    ReadByte(t, p);
    ReadByte(t, e);
  }

  // A name in quotation marks and the colon behind it.
  lemma NameParses(t: Text, p: nat, s: Text, done: seq<Pair>) returns (name: Slice)
    requires Has(t, p, PrintName(s) + [COLON]) && NameOk(s)
    ensures Token(t, name, s)
    ensures ParsePairs(t, p, Naming, Slice(0, 0), done) == ParsePair(t, p + |s| + 3, name, done)
  {
    hide ParseName;
    hide ParsePair;
    hide NameOk;
    hide Read;
    hide PrintName;
    NameLength(s);
    HasBoth(t, p, PrintName(s), [COLON]);
    HasAt(t, p + |s| + 2, [COLON], 0);
    PrintNameIs(s);
    name := QuotedName(t, p, s, QUOTE);
    ReadByte(t, p);
    ReadByte(t, p + |s| + 2);
    assert ParsePairs(t, p, Naming, Slice(0, 0), done) == ParsePairs(t, p + |s| + 2, Named, name, done);
  }

  lemma PrintNameIs(s: Text)
    ensures PrintName(s) == [QUOTE] + s + [QUOTE]
  {
  }

  lemma NameLength(s: Text)
    ensures |PrintName(s)| == |s| + 2
  {
  }

  lemma {:induction false} ValueParses(t: Text, p: nat, j: Json) returns (v: Value)
    requires Writable(j) && Has(t, p, Print(j)) && p + |Print(j)| < |t| && Closes(t[p + |Print(j)|])
    ensures Parses(t, p, v, p + |Print(j)|) && Means(t, v, j)
    decreases j, 2
  {
    hide *;
    PrintIs(j);
    match j
    case JString(s) =>
      v := StringParses(t, p, s);
    case JNumber(s) =>
      v := NumberParses(t, p, s);
    case JObject(ms) =>
      HasBoth(t, p, [OPEN_OBJECT], PrintMembers(j, 0));
      var ps := MembersParse(t, p + 1, j, 0, []);
      v := ObjectParses(t, p, j, PrintMembers(j, 0), ps);
    case JArray(vs) =>
      HasBoth(t, p, [OPEN_ARRAY], PrintItems(j, 0));
      var values := ItemsParse(t, p + 1, j, 0, []);
      v := ArrayParses(t, p, j, PrintItems(j, 0), values);
    case _ =>
      v := WordParses(t, p, j);
  }

  lemma WritableIs(j: Json)
    requires Writable(j)
    ensures Spelled(j) && Flat(j)
  {
  }

  lemma IsWritable(j: Json)
    requires Spelled(j)
    ensures Flat(j) ==> Writable(j)
    ensures FlatItem(j) ==> Writable(j) && !j.JArray?
  {
  }

  lemma PrintIs(j: Json)
    ensures j.JNumber? ==> Print(j) == j.s
    ensures j.JString? ==> |Print(j)| == |j.s| + 2
    ensures j.JObject? ==> Print(j) == [OPEN_OBJECT] + PrintMembers(j, 0)
    ensures j.JArray? ==> Print(j) == [OPEN_ARRAY] + PrintItems(j, 0)
    ensures Writable(j) && j.JString? ==> |j.s| < TWO_32 && StringOk(j.s, false, Delimiter(j.s))
    ensures Writable(j) && j.JNumber? ==> |j.s| < TWO_32 && (DecimalOk(j.s) || HexOk(j.s))
  {
    hide StringOk;
    hide DecimalOk;
    hide HexOk;
    hide Delimiter;
  }

  // Values number k and on of the array are meant by these.
  ghost predicate AllMean(t: Text, vs: seq<Value>, js: seq<Json>, k: nat) {
    |vs| + k == |js| && forall i :: 0 <= i < |vs| ==> Means(t, vs[i], js[k + i])
  }

  ghost predicate PairsMean(t: Text, ps: seq<Pair>, ms: seq<Member>, k: nat) {
    |ps| + k == |ms| && forall i :: 0 <= i < |ps| ==> PairMeans(t, ps[i], ms[k + i])
  }

  ghost predicate PairMeans(t: Text, p: Pair, m: Member) {
    Token(t, p.name, m.name) && Means(t, p.value, m.value)
  }

  lemma OneMoreMeans(t: Text, v: Value, vs: seq<Value>, js: seq<Json>, k: nat)
    requires k < |js| && Means(t, v, js[k]) && AllMean(t, vs, js, k + 1)
    ensures AllMean(t, [v] + vs, js, k)
  {
    hide Means;
    forall i | 0 <= i < |[v] + vs| ensures Means(t, ([v] + vs)[i], js[k + i]) {
      if i > 0 {
        assert Means(t, vs[i - 1], js[k + 1 + (i - 1)]);
      }
    }
  }

  lemma OneMorePairMeans(t: Text, p: Pair, ps: seq<Pair>, ms: seq<Member>, k: nat)
    requires k < |ms| && Token(t, p.name, ms[k].name) && Means(t, p.value, ms[k].value) && PairsMean(t, ps, ms, k + 1)
    ensures PairsMean(t, [p] + ps, ms, k)
  {
    hide Means;
    hide Token;
    forall i | 0 <= i < |[p] + ps| ensures PairMeans(t, ([p] + ps)[i], ms[k + i]) {
      if i > 0 {
        assert PairMeans(t, ps[i - 1], ms[k + 1 + (i - 1)]);
      }
    }
  }

  // An array between its brackets.
  lemma ArrayParses(t: Text, p: nat, j: Json, inner: Text, vs: seq<Value>) returns (v: Value)
    requires j.JArray? && Has(t, p, [OPEN_ARRAY] + inner)
    requires var e := p + 1 + |inner|; e < |t| && Closes(t[e])
    requires ParseItems(t, p + 1, []) == Items(true, [] + vs, CLOSE_ARRAY, p + 1 + |inner|)
    requires AllMean(t, vs, j.items, 0)
    ensures Parses(t, p, v, p + 1 + |inner|) && Means(t, v, j)
  {
    hide ParseItems;
    hide ParsePairs;
    hide StringScan;
    hide NumberScan;
    hide Means;
    hide AllMean;
    HasBoth(t, p, [OPEN_ARRAY], inner);
    HasAt(t, p, [OPEN_ARRAY], 0);
    v := Array([] + vs);
    assert [] + vs == vs;
    ArrayMeans(t, vs, j);
  }

  lemma ArrayMeans(t: Text, vs: seq<Value>, j: Json)
    requires j.JArray? && AllMean(t, vs, j.items, 0)
    ensures Means(t, Array(vs), j)
  {
    forall i | 0 <= i < |j.items| ensures Means(t, vs[i], j.items[i]) {
      assert Means(t, vs[i], j.items[0 + i]);
    }
  }

  // An object between its braces.
  lemma ObjectParses(t: Text, p: nat, j: Json, inner: Text, ps: seq<Pair>) returns (v: Value)
    requires j.JObject? && Has(t, p, [OPEN_OBJECT] + inner)
    requires var e := p + 1 + |inner|; e < |t| && Closes(t[e])
    requires ParsePairs(t, p + 1, Naming, Slice(0, 0), []) == Pairs(true, [] + ps, CLOSE_OBJECT, p + 1 + |inner|)
    requires PairsMean(t, ps, j.members, 0)
    ensures Parses(t, p, v, p + 1 + |inner|) && Means(t, v, j)
  {
    hide ParseItems;
    hide ParsePairs;
    hide StringScan;
    hide NumberScan;
    hide Means;
    hide PairsMean;
    HasBoth(t, p, [OPEN_OBJECT], inner);
    HasAt(t, p, [OPEN_OBJECT], 0);
    v := Object([] + ps);
    assert [] + ps == ps;
    ObjectMeans(t, ps, j);
  }

  lemma ObjectMeans(t: Text, ps: seq<Pair>, j: Json)
    requires j.JObject? && PairsMean(t, ps, j.members, 0)
    ensures Means(t, Object(ps), j)
  {
    forall i | 0 <= i < |j.members|
      ensures Token(t, ps[i].name, j.members[i].name) && Means(t, ps[i].value, j.members[i].value)
    {
      assert PairMeans(t, ps[i], j.members[0 + i]);
    }
  }

  // What is written for the values of an array from number k on.
  lemma ItemsText(t: Text, p: nat, j: Json, k: nat) returns (e: nat)
    requires j.JArray? && Spelled(j) && k < |j.items| && Has(t, p, PrintItems(j, k))
    ensures Spelled(j.items[k]) && (Flat(j) ==> FlatItem(j.items[k])) && Has(t, p, Print(j.items[k]))
    ensures e == p + |Print(j.items[k])| < |t| && Closes(t[e])
    ensures k + 1 == |j.items| ==> t[e] == CLOSE_ARRAY && e + 1 == p + |PrintItems(j, k)|
    ensures k + 1 < |j.items| ==> t[e] == COMMA && Has(t, e + 1, PrintItems(j, k + 1))
    ensures k + 1 < |j.items| ==> e + 1 + |PrintItems(j, k + 1)| == p + |PrintItems(j, k)|
  {
    hide Has;
    hide Print;
    var text, rest := Print(j.items[k]), ItemsAfter(j, k);
    HasBoth(t, p, text, rest);
    e := p + |text|;
    HasAt(t, e, rest, 0);
    HasLength(t, e, rest);
    if k + 1 < |j.items| {
      HasBoth(t, e, [COMMA], PrintItems(j, k + 1));
    }
  }

  lemma HasLength(t: Text, p: nat, s: Text)
    requires Has(t, p, s)
    ensures p + |s| <= |t|
  {
  }

  lemma NotArray(t: Text, v: Value, j: Json)
    requires Means(t, v, j) && !j.JArray?
    ensures !v.Array?
  {
  }

  lemma ArrayEnds(t: Text, p: nat, j: Json, done: seq<Value>)
    requires j.JArray? && Has(t, p, PrintItems(j, |j.items|))
    ensures p <= |t| && |PrintItems(j, |j.items|)| == 1
    ensures ParseItems(t, p, done) == Items(true, done, CLOSE_ARRAY, p + 1)
    ensures AllMean(t, [], j.items, |j.items|)
  {
    hide ParseItems;
    HasAt(t, p, [CLOSE_ARRAY], 0);
    AtSeparator(t, p, done);
  }

  // The values of an array from number k on.
  lemma {:induction false} ItemsParse(t: Text, p: nat, j: Json, k: nat, done: seq<Value>) returns (vs: seq<Value>)
    requires j.JArray? && Writable(j) && k <= |j.items| && Has(t, p, PrintItems(j, k))
    ensures p <= |t| && ParseItems(t, p, done) == Items(true, done + vs, CLOSE_ARRAY, p + |PrintItems(j, k)|)
    ensures AllMean(t, vs, j.items, k)
    decreases j, 1, |j.items| - k
  {
    hide *;
    WritableIs(j);
    HasLength(t, p, PrintItems(j, k));
    if k == |j.items| {
      ArrayEnds(t, p, j, done);
      vs := [];
      assert done + vs == done;
    } else {
      var e := ItemsText(t, p, j, k);
      IsWritable(j.items[k]);
      var v := ValueParses(t, p, j.items[k]);
      NotArray(t, v, j.items[k]);
      ItemParses(t, p, v, e, done);
      var more := [];
      if k + 1 < |j.items| {
        more := ItemsParse(t, e + 1, j, k + 1, done + [v]);
      } else {
        NoneMean(t, j.items);
      }
      OneMoreMeans(t, v, more, j.items, k);
      vs := [v] + more;
      assert done + [v] + more == done + vs;
    }
  }

  lemma NoneMean(t: Text, js: seq<Json>)
    ensures AllMean(t, [], js, |js|)
  {
  }

  lemma NoPairMeans(t: Text, ms: seq<Member>)
    ensures PairsMean(t, [], ms, |ms|)
  {
  }

  // What is written for the members of an object from number k on.
  lemma MembersText(t: Text, p: nat, j: Json, k: nat) returns (q: nat, e: nat)
    requires j.JObject? && Spelled(j) && k < |j.members| && Has(t, p, PrintMembers(j, k))
    ensures Spelled(j.members[k].value) && (Flat(j) ==> Flat(j.members[k].value)) && NameOk(j.members[k].name)
    ensures Has(t, p, PrintName(j.members[k].name) + [COLON]) && q == p + |j.members[k].name| + 3
    ensures Has(t, q, Print(j.members[k].value)) && e == q + |Print(j.members[k].value)| < |t| && Closes(t[e])
    ensures k + 1 == |j.members| ==> t[e] == CLOSE_OBJECT && e + 1 == p + |PrintMembers(j, k)|
    ensures k + 1 < |j.members| ==> t[e] == COMMA && Has(t, e + 1, PrintMembers(j, k + 1))
    ensures k + 1 < |j.members| ==> e + 1 + |PrintMembers(j, k + 1)| == p + |PrintMembers(j, k)|
  {
    hide Has;
    hide Print;
    hide PrintName;
    hide NameOk;
    var m := j.members[k];
    var text, rest := Print(m.value), MembersAfter(j, k);
    NameLength(m.name);
    HasBoth(t, p, PrintName(m.name) + [COLON], text + rest);
    q := p + |m.name| + 3;
    HasBoth(t, q, text, rest);
    e := q + |text|;
    HasAt(t, e, rest, 0);
    HasLength(t, e, rest);
    if k + 1 < |j.members| {
      HasBoth(t, e, [COMMA], PrintMembers(j, k + 1));
    }
  }

  // The members of an object from number k on.
  lemma {:induction false} MembersParse(t: Text, p: nat, j: Json, k: nat, done: seq<Pair>) returns (ps: seq<Pair>)
    requires j.JObject? && Writable(j) && k <= |j.members| && Has(t, p, PrintMembers(j, k))
    ensures p <= |t|
    ensures ParsePairs(t, p, Naming, Slice(0, 0), done) == Pairs(true, done + ps, CLOSE_OBJECT, p + |PrintMembers(j, k)|)
    ensures PairsMean(t, ps, j.members, k)
    decreases j, 1, |j.members| - k
  {
    hide *;
    WritableIs(j);
    HasLength(t, p, PrintMembers(j, k));
    if k == |j.members| {
      ObjectEnds(t, p, j, done);
      ps := [];
      assert done + ps == done;
    } else {
      var q, e := MembersText(t, p, j, k);
      var name := NameParses(t, p, j.members[k].name, done);
      IsWritable(j.members[k].value);
      var v := ValueParses(t, q, j.members[k].value);
      PairParses(t, q, v, e, name, done);
      var more := [];
      if k + 1 < |j.members| {
        more := MembersParse(t, e + 1, j, k + 1, done + [Pair(name, v)]);
      } else {
        NoPairMeans(t, j.members);
      }
      OneMorePairMeans(t, Pair(name, v), more, j.members, k);
      ps := [Pair(name, v)] + more;
      assert done + [Pair(name, v)] + more == done + ps;
    }
  }

  lemma ObjectEnds(t: Text, p: nat, j: Json, done: seq<Pair>)
    requires j.JObject? && Has(t, p, PrintMembers(j, |j.members|))
    ensures p <= |t| && |PrintMembers(j, |j.members|)| == 1
    ensures ParsePairs(t, p, Naming, Slice(0, 0), done) == Pairs(true, done, CLOSE_OBJECT, p + 1)
    ensures PairsMean(t, [], j.members, |j.members|)
  {
    hide Read;
    HasAt(t, p, [CLOSE_OBJECT], 0);
    ReadByte(t, p);
  }

  // Parsing the compact text of an object reads all of it and rebuilds the tree.
  lemma RoundTrip(j: Json)
    requires j.JObject? && Writable(j)
    ensures IsUtf8(Print(j))
    ensures var r := Parse(Print(j)); r.ok && Means(Print(j), Object(r.pairs), j) && r.next == |Print(j)|
  {
    hide *;
    var t := Print(j);
    PrintIs(j);
    assert t[0] == OPEN_OBJECT;
    Whole(t);
    HasBoth(t, 0, [OPEN_OBJECT], PrintMembers(j, 0));
    var ps := MembersParse(t, 1, j, 0, []);
    RootOpens(t);
    assert [] + ps == ps;
    ObjectMeans(t, ps, j);
  }

  lemma Whole(t: Text)
    ensures Has(t, 0, t)
  {
  }

  // The opening brace of the root is skipped like a blank.
  lemma RootOpens(t: Text)
    requires |t| > 0 && t[0] == OPEN_OBJECT
    ensures IsUtf8(t) && Parse(t) == ParsePairs(t, 1, Naming, Slice(0, 0), [])
  {
    hide Read;
    hide Start;
    hide IsUtf8;
    ReadByte(t, 0);
    NoMark(t);
  }

  // A text that starts with a brace starts with no byte order mark.
  lemma NoMark(t: Text)
    requires |t| > 0 && t[0] == OPEN_OBJECT
    ensures IsUtf8(t) && Start(t) == 0
  {
    if |t| > 4 {
      assert t[..3][0] == t[0];
      assert t[..4][0] == t[0];
      assert t[..2][0] == t[0];
    }
  }
}
