// What the JSON parser refuses: numbers and names that are spelled otherwise, symbols out of place, and
// brackets that do not match.
module JsonRefusals {
  import opened HyperText
  import opened JsonGrammar
  import opened JsonText
  import opened JsonRoundTrip

  // ---------- numbers ----------

  ghost predicate Plain(t: Text, j: nat, e: nat) {
    j <= e < |t| && Closes(t[e]) && forall k :: j <= k < e ==> t[k] < 0xC0 && !Closes(t[k])
  }

  // The scan goes on at j, in the middle of a number, and ends before the separator at e.
  ghost predicate EndsAt(t: Text, j: nat, e: nat, base: Base, i: nat)
    requires j < |t| && e < |t|
  {
    NumberScan(t, j + 1, t[j], j, base, i) == Scan(true, t[e], e, e + 1)
  }

  lemma NumberStep(t: Text, j: nat, e: nat, base: Base, i: nat) returns (next: Base)
    requires Plain(t, j, e) && i + 1 < TWO_32 && EndsAt(t, j, e, base, i)
    ensures j == e ==> base != Unknown
    ensures j < e ==> NumberAction(t[j], base, i) == Go(next) && EndsAt(t, j + 1, e, next, i + 1)
  {
    hide Read;
    next := base;
    if j < e {
      ReadByte(t, j + 1);
      next := NumberAction(t[j], base, i).base;
    }
  }

  predicate HexByte(c: nat) {
    48 <= c <= 57 || 97 <= c <= 102 || 65 <= c <= 70
  }

  lemma {:induction false} NumberRest(t: Text, j: nat, e: nat, base: Base, i: nat)
    requires Plain(t, j, e) && i + (e - j) + 1 < TWO_32 && EndsAt(t, j, e, base, i)
    requires base == Octal ==> i > 1 || (i == 1 && t[j] != 120 && t[j] != 88)
    ensures base == Octal || base == Decimal ==> forall k :: j <= k < e ==> DigitOrDot(t[k])
    ensures base == Hex ==> forall k :: j <= k < e ==> HexByte(t[k])
    ensures base == Unknown ==> DecimalOk(t[j..e])
    decreases e - j
  {
    hide EndsAt;
    var next := NumberStep(t, j, e, base, i);
    if j < e {
      NumberRest(t, j + 1, e, next, i + 1);
      assert t[j..e][1..] == t[j + 1..e];
    }
  }

  lemma NumberSpelled(t: Text, q: nat, s: Text)
    requires s != [] && |s| < 0x1_0000_0000 - 1 && Has(t, q, s) && Plain(t, q, q + |s|)
    requires EndsAt(t, q, q + |s|, if t[q] == 48 then Octal else Unknown, 0)
    ensures DecimalOk(s) || HexOk(s)
  {
    hide EndsAt;
    var e := q + |s|;
    HasAt(t, q, s, 0);
    if t[q] != 48 {
      NumberRest(t, q, e, Unknown, 0);
    } else {
      var next := NumberStep(t, q, e, Octal, 0);
      if t[q + 1] == 120 || t[q + 1] == 88 {
        HasAt(t, q, s, 1);
        next := NumberStep(t, q + 1, e, Octal, 1);
        NumberRest(t, q + 2, e, Hex, 2);
        forall k | 2 <= k < |s| ensures HexByte(s[k]) {
          HasAt(t, q, s, k);
        }
      } else {
        NumberRest(t, q + 1, e, Octal, 1);
        forall k | 0 <= k < |s| ensures DigitOrDot(s[k]) {
          HasAt(t, q, s, k);
        }
      }
    }
  }

  lemma {:induction false} ScanBound(t: Text, p: nat, c: nat, pos: nat, base: Base, i: nat)
    requires pos <= p <= |t|
    ensures NumberScan(t, p, c, pos, base, i).pos <= NumberScan(t, p, c, pos, base, i).next
    decreases |t| - p
  {
    hide Read;
    match NumberAction(c, base, i)
    case Go(next) =>
      var s := Read(t, p);
      if s.c != 0 {
        ScanBound(t, s.next, s.c, p, next, (i + 1) % TWO_32);
      }
    case _ =>
  }

  lemma NumberEnds(t: Text, q: nat, e: nat)
    requires q < e < |t| && e - q < 0x1_0000_0000 - 1
    requires ParseNumber(t, q + 1, t[q], q) == Parsed(true, Just(Number(Slice(q, e - q))), t[e], e + 1)
    ensures EndsAt(t, q, e, if t[q] == 48 then Octal else Unknown, 0)
  {
    hide NumberScan;
    ScanBound(t, q + 1, t[q], q, if t[q] == 48 then Octal else Unknown, 0);
  }

  // Up to the separator behind it a number is accepted exactly when it is signs, a digit and then digits
  // and dots, or 0x and hexadecimal digits.
  lemma NumberExactly(t: Text, q: nat, s: Text)
    requires s != [] && |s| < 0x1_0000_0000 - 1 && Has(t, q, s) && Plain(t, q, q + |s|)
    ensures ParseNumber(t, q + 1, t[q], q) == Parsed(true, Just(Number(Slice(q, |s|))), t[q + |s|], q + |s| + 1) <==>
      DecimalOk(s) || HexOk(s)
  {
    hide DecimalOk;
    hide HexOk;
    hide NumberScan;
    if DecimalOk(s) || HexOk(s) {
      NumberTrip(t, q, s);
    }
    if ParseNumber(t, q + 1, t[q], q) == Parsed(true, Just(Number(Slice(q, |s|))), t[q + |s|], q + |s| + 1) {
      NumberEnds(t, q, q + |s|);
      NumberSpelled(t, q, s);
    }
  }

  // ---------- names ----------

  ghost predicate InName(t: Text, j: nat, e: nat, quote: nat) {
    j <= e < |t| && EndsName(t[e], quote) && forall k :: j <= k < e ==> t[k] < 0xC0 && !EndsName(t[k], quote)
  }

  lemma {:induction false} NameRest(t: Text, j: nat, e: nat, quote: nat, begun: bool)
    requires InName(t, j, e, quote) && (quote == 0 ==> begun)
    requires NameScan(t, j + 1, t[j], j, quote, begun) == Scan(true, t[e], e, e + 1)
    ensures forall k :: j <= k < e ==> NameByte(t[k]) || ((begun || k > j) && 48 <= t[k] <= 57)
    decreases e - j
  {
    hide Read;
    if j < e {
      ReadByte(t, j + 1);
      NameRest(t, j + 1, e, quote, true);
    }
  }

  // Up to its closing quote, or without quotes up to a colon or a blank, a name is accepted exactly when it
  // is made of letters, minus signs, underscores and, behind the first place, figures.
  lemma NameExactly(t: Text, p: nat, s: Text, quote: nat)
    requires |s| < 0x1_0000_0000 && Has(t, p, s) && InName(t, p, p + |s|, quote)
    requires quote == 0 ==> s != [] && (IsLetter(s[0]) || s[0] == 95)
    ensures NameScan(t, p + 1, t[p], p, quote, quote == 0) == Scan(true, t[p + |s|], p + |s|, p + |s| + 1) <==> NameOk(s)
  {
    hide NameScan;
    if NameOk(s) {
      NameTrip(t, p, s, 0, quote);
    }
    if NameScan(t, p + 1, t[p], p, quote, quote == 0) == Scan(true, t[p + |s|], p + |s|, p + |s| + 1) {
      NameRest(t, p, p + |s|, quote, quote == 0);
      forall k | 0 <= k < |s| ensures NameByte(s[k]) || (k > 0 && 48 <= s[k] <= 57) {
        HasAt(t, p, s, k);
      }
    }
  }

  // ---------- symbols out of place ----------

  predicate Blank(c: nat) {
    c == 32 || c == 9 || c == 10 || c == 13
  }

  // A string, an array, an object, a number or a word begins so.
  predicate BeginsValue(c: nat) {
    c in {34, 39, 91, 123, 43, 45} || 48 <= c <= 57 || 97 <= c <= 122
  }

  // What an object may go on with before a name, behind a name, and behind a value.
  lemma PairsGoOn(t: Text, p: nat, phase: Phase, name: Slice, done: seq<Pair>)
    requires p < |t| && 0 < t[p] < 0xC0 && ParsePairs(t, p, phase, name, done).ok
    ensures phase == Naming ==>
      Blank(t[p]) || t[p] in {34, 39, 44, 95, 123, 125} || 65 <= t[p] <= 90 || 97 <= t[p] <= 122
    ensures phase == Named ==> Blank(t[p]) || t[p] == 58
    ensures phase == Valued ==> Blank(t[p]) || t[p] == 44 || t[p] == 125
  {
    hide Read;
    hide ParseName;
    hide ParsePair;
    ReadByte(t, p);
  }

  // What may stand for a value in an array.
  lemma ItemsGoOn(t: Text, p: nat, done: seq<Value>)
    requires p < |t| && 0 < t[p] < 0xC0 && ParseItems(t, p, done).ok
    ensures Blank(t[p]) || t[p] == 44 || t[p] == 93 || BeginsValue(t[p])
  {
    hide Read;
    hide StringScan;
    hide ParsePairs;
    hide ParseWord;
    ReadByte(t, p);
    NoPointFirst(t, p);
    hide ParseNumber;
  }

  // What may stand behind a colon.
  lemma PairGoesOn(t: Text, p: nat, name: Slice, done: seq<Pair>)
    requires p < |t| && 0 < t[p] < 0xC0 && ParsePair(t, p, name, done).ok
    ensures Blank(t[p]) || t[p] == 44 || BeginsValue(t[p])
  {
    hide Read;
    hide StringScan;
    hide ParseItems;
    hide ParsePairs;
    hide ParseWord;
    ReadByte(t, p);
    NoPointFirst(t, p);
    hide ParseNumber;
  }

  lemma NoPointFirst(t: Text, p: nat)
    requires p < |t|
    ensures t[p] == 46 ==> !ParseNumber(t, p + 1, t[p], p).ok
  {
  }

  // ---------- brackets ----------

  // A brace does not end an array, and a bracket does not end an object.
  lemma Mismatched(t: Text, p: nat, v: Value, e: nat, name: Slice, items: seq<Value>, pairs: seq<Pair>)
    requires Parses(t, p, v, e)
    ensures t[e] == 125 && !v.Array? ==> !ParseItems(t, p, items).ok
    ensures t[e] == 93 ==> !ParsePair(t, p, name, pairs).ok
  {
    StartsSo(t, p, v, e);
    hide ParseItems;
    hide ParsePair;
    if t[e] == 125 && !v.Array? {
      ClosedByBrace(t, p, v, e, items);
    }
    if t[e] == 93 {
      ClosedByBracket(t, p, v, e, name, pairs);
    }
  }

  lemma StartsSo(t: Text, p: nat, v: Value, e: nat)
    requires Parses(t, p, v, e)
    ensures p < e < |t|
  {
  }

  lemma ClosedByBrace(t: Text, p: nat, v: Value, e: nat, items: seq<Value>)
    requires Parses(t, p, v, e) && t[e] == 125 && !v.Array?
    ensures !ParseItems(t, p, items).ok
  {
    hide Read;
    hide ParseValue;
    ReadByte(t, p);
    if !v.IsWord() && ParseItems(t, e, items + [v]).ok {
      ItemsGoOn(t, e, items + [v]);
    }
  }

  lemma ClosedByBracket(t: Text, p: nat, v: Value, e: nat, name: Slice, pairs: seq<Pair>)
    requires Parses(t, p, v, e) && t[e] == 93
    ensures !ParsePair(t, p, name, pairs).ok
  {
    hide Read;
    hide ParseValue;
    ReadByte(t, p);
    var more := pairs + [Pair(name, v)];
    if !v.IsWord() && ParsePairs(t, e, Valued, Slice(0, 0), more).ok {
      PairsGoOn(t, e, Valued, Slice(0, 0), more);
    }
  }
}
