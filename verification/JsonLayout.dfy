// Texts with blanks between their tokens and commas to spare, strings between either delimiter and names
// with either or none: parsing them gives the same trees.
module JsonLayout {
  import opened HyperText
  import opened JsonGrammar
  import opened JsonText
  import opened JsonRoundTrip
  import opened JsonParser

  // A tree with the blanks around its tokens.
  datatype Laid =
    | LString(quote: Byte, s: Text)
    | LNumber(s: Text)
    | LTrue
    | LFalse
    | LNull
    | LObject(members: seq<LaidMember>, inside: Text)
    | LArray(items: seq<LaidItem>, inside: Text)

  datatype LaidItem = LaidItem(before: Text, value: Laid, behind: Text)

  // Blanks, the name with its quote (0 for none), blanks, a colon, blanks, the value, blanks.
  datatype LaidMember = LaidMember(
    before: Text, quote: Byte, name: Text, toColon: Text, fromColon: Text, value: Laid, behind: Text)

  // Spaces, tabs, line feeds and carriage returns.
  predicate Blanks(s: Text) {
    forall i :: 0 <= i < |s| ==> s[i] == 32 || s[i] == 9 || s[i] == 10 || s[i] == 13
  }

  // In an array commas count as blanks in front of a value, ...
  predicate Gap(s: Text) {
    forall i :: 0 <= i < |s| ==> s[i] == 44 || Blanks([s[i]])
  }

  // ... and in an object commas and opening braces in front of a name.
  predicate Lead(s: Text) {
    forall i :: 0 <= i < |s| ==> s[i] == 44 || s[i] == 123 || Blanks([s[i]])
  }

  // The tokens can be written so, and no array stands directly in an array.
  ghost predicate Proper(l: Laid) {
    match l
    case LString(q, s) => (q == 34 || q == 39) && |s| < 0x1_0000_0000 && StringOk(s, false, q)
    case LNumber(s) => |s| < 0x1_0000_0000 && (DecimalOk(s) || HexOk(s))
    case LObject(ms, inside) =>
      Lead(inside) && forall i :: 0 <= i < |ms| ==> ProperName(ms[i]) && Proper(ms[i].value)
    case LArray(vs, inside) =>
      Gap(inside) && forall i :: 0 <= i < |vs| ==> ProperItem(vs[i]) && Proper(vs[i].value)
    case _ => true
  }

  predicate ProperItem(i: LaidItem) {
    Gap(i.before) && Blanks(i.behind) && !i.value.LArray?
  }

  predicate ProperName(m: LaidMember) {
    && Lead(m.before) && Blanks(m.toColon) && Blanks(m.fromColon) && Blanks(m.behind)
    && NameOk(m.name) && (m.quote == 34 || m.quote == 39 || (m.quote == 0 && BareOk(m.name)))
  }

  // Without quotes a name begins with a letter or the underscore.
  predicate BareOk(s: Text) {
    s != [] && NameByte(s[0]) && s[0] != 45
  }

  // ---------- the text and the tree ----------

  function Lay(l: Laid): Text
    decreases l, 2
  {
    match l
    case LString(q, s) => [q] + s + [q]
    case LNumber(s) => s
    case LTrue => [116, 114, 117, 101]
    case LFalse => [102, 97, 108, 115, 101]
    case LNull => [110, 117, 108, 108]
    case LObject(ms, inside) => [123] + if ms == [] then inside + [125] else LayMembers(l, 0)
    case LArray(vs, inside) => [91] + if vs == [] then inside + [93] else LayItems(l, 0)
  }

  function LayItems(l: Laid, k: nat): Text
    requires l.LArray? && k < |l.items|
    decreases l, 1, |l.items| - k, 1
  {
    l.items[k].before + (Lay(l.items[k].value) + (l.items[k].behind + AfterItem(l, k)))
  }

  function AfterItem(l: Laid, k: nat): Text
    requires l.LArray? && k < |l.items|
    decreases l, 1, |l.items| - k, 0
  {
    if k + 1 == |l.items| then [93] else [44] + LayItems(l, k + 1)
  }

  function LayName(m: LaidMember): Text {
    if m.quote == 0 then m.name else [m.quote] + m.name + [m.quote]
  }

  function LayMembers(l: Laid, k: nat): Text
    requires l.LObject? && k < |l.members|
    decreases l, 1, |l.members| - k, 1
  {
    var m := l.members[k];
    m.before + (LayName(m) + (m.toColon + ([58] + (m.fromColon + (Lay(m.value) + (m.behind + AfterMember(l, k)))))))
  }

  function AfterMember(l: Laid, k: nat): Text
    requires l.LObject? && k < |l.members|
    decreases l, 1, |l.members| - k, 0
  {
    if k + 1 == |l.members| then [125] else [44] + LayMembers(l, k + 1)
  }

  function Tree(l: Laid): Json {
    match l
    case LString(_, s) => JString(s)
    case LNumber(s) => JNumber(s)
    case LTrue => JTrue
    case LFalse => JFalse
    case LNull => JNull
    case LObject(ms, _) => JObject(seq(|ms|, i requires 0 <= i < |ms| => Member(ms[i].name, Tree(ms[i].value))))
    case LArray(vs, _) => JArray(seq(|vs|, i requires 0 <= i < |vs| => Tree(vs[i].value)))
  }

  // ---------- blanks are passed over ----------

  lemma GapByte(c: Byte)
    requires Lead([c])
    ensures IsSpace(c) || c == 44 || c == 123
    ensures Gap([c]) ==> IsSpace(c) || c == 44
  {
    assert [c][0] == c;
    assert Blanks([c]) ==> IsSpace([c][0]);
  }

  lemma BlankInItems(t: Text, p: nat, done: seq<Value>)
    requires p + 1 < |t| && Gap([t[p]]) && 0 < t[p + 1] < 0xC0
    ensures ParseItems(t, p, done) == ParseItems(t, p + 1, done)
  {
    GapByte(t[p]);
    hide StringScan;
    hide ParsePairs;
    hide ParsePair;
    hide ParseWord;
    hide ParseNumber;
    hide Read;
    ReadByte(t, p);
    ReadByte(t, p + 1);
    assert t[p] != 44 ==> ParseValue(t, p + 1, t[p], p) == ParseValue(t, p + 2, t[p + 1], p + 1);
    assert t[p] == 44 ==> ParseValue(t, p + 1, t[p], p) == Parsed(true, Nothing, 44, p + 1);
    hide ParseValue;
  }

  lemma BlankBeforeValue(t: Text, p: nat, name: Slice, done: seq<Pair>)
    requires p + 1 < |t| && Blanks([t[p]]) && 0 < t[p + 1] < 0xC0
    ensures ParsePair(t, p, name, done) == ParsePair(t, p + 1, name, done)
  {
    assert [t[p]][0] == t[p];
    hide StringScan;
    hide ParsePairs;
    hide ParseItems;
    hide ParseWord;
    hide ParseNumber;
    hide Read;
    ReadByte(t, p);
    ReadByte(t, p + 1);
    assert ParseValue(t, p + 1, t[p], p) == ParseValue(t, p + 2, t[p + 1], p + 1);
    hide ParseValue;
  }

  lemma BlankInPairs(t: Text, p: nat, phase: Phase, name: Slice, done: seq<Pair>)
    requires p < |t| && Blanks([t[p]])
    ensures ParsePairs(t, p, phase, name, done) == ParsePairs(t, p + 1, phase, name, done)
  {
    assert [t[p]][0] == t[p];
    hide ParseName;
    hide ParsePair;
    hide Read;
    ReadByte(t, p);
  }

  lemma LeadInPairs(t: Text, p: nat, done: seq<Pair>)
    requires p < |t| && Lead([t[p]])
    ensures ParsePairs(t, p, Naming, Slice(0, 0), done) == ParsePairs(t, p + 1, Naming, Slice(0, 0), done)
  {
    GapByte(t[p]);
    hide ParseName;
    hide ParsePair;
    hide Read;
    ReadByte(t, p);
  }

  lemma BlanksAreGaps(s: Text)
    ensures Blanks(s) ==> Gap(s)
    ensures Gap(s) ==> Lead(s)
  {
    forall i | 0 <= i < |s| && Blanks(s) ensures Blanks([s[i]]) {
    }
  }

  lemma LeadRest(s: Text)
    requires Lead(s) && s != []
    ensures s == [s[0]] + s[1..] && Lead([s[0]]) && Lead(s[1..]) && 0 < s[0] < 0xC0
    ensures Gap(s) ==> Gap([s[0]]) && Gap(s[1..])
  {
    GapByte(s[0]);
  }

  lemma BlanksRest(s: Text)
    requires Blanks(s) && s != []
    ensures s == [s[0]] + s[1..] && Blanks([s[0]]) && Blanks(s[1..])
    ensures 0 < s[0] < 0xC0 && IsSpace(s[0])
  {
  }

  // The first of some blanks and what stands behind it.
  lemma LeadAt(t: Text, p: nat, s: Text)
    requires Has(t, p, s) && Lead(s) && s != []
    ensures p < |t| && t[p] == s[0] && Has(t, p + 1, s[1..])
    ensures |s| > 1 ==> 0 < t[p + 1] < 0xC0
  {
    LeadRest(s);
    HasBoth(t, p, [s[0]], s[1..]);
    HasAt(t, p, s, 0);
    if |s| > 1 {
      HasAt(t, p, s, 1);
      LeadRest(s[1..]);
    }
  }

  lemma BlanksAt(t: Text, p: nat, s: Text)
    requires Has(t, p, s) && Blanks(s) && s != []
    ensures p < |t| && t[p] == s[0] && Has(t, p + 1, s[1..])
    ensures |s| > 1 ==> 0 < t[p + 1] < 0xC0
  {
    hide *;
    BlanksAreGaps(s);
    LeadAt(t, p, s);
  }

  lemma {:induction false} BlanksInItems(t: Text, p: nat, s: Text, done: seq<Value>)
    requires Has(t, p, s) && Gap(s) && p + |s| < |t| && 0 < t[p + |s|] < 0xC0
    ensures ParseItems(t, p, done) == ParseItems(t, p + |s|, done)
    decreases |s|
  {
    hide ParseItems;
    BlanksAreGaps(s);
    if s != [] {
      LeadRest(s);
      LeadAt(t, p, s);
      BlankInItems(t, p, done);
      BlanksInItems(t, p + 1, s[1..], done);
    }
  }

  lemma {:induction false} BlanksBeforeValue(t: Text, p: nat, s: Text, name: Slice, done: seq<Pair>)
    requires Has(t, p, s) && Blanks(s) && p + |s| < |t| && 0 < t[p + |s|] < 0xC0
    ensures ParsePair(t, p, name, done) == ParsePair(t, p + |s|, name, done)
    decreases |s|
  {
    hide ParsePair;
    if s != [] {
      BlanksRest(s);
      BlanksAt(t, p, s);
      BlankBeforeValue(t, p, name, done);
      BlanksBeforeValue(t, p + 1, s[1..], name, done);
    }
  }

  lemma {:induction false} BlanksInPairs(t: Text, p: nat, s: Text, phase: Phase, name: Slice, done: seq<Pair>)
    requires Has(t, p, s) && Blanks(s)
    ensures p + |s| <= |t| && ParsePairs(t, p, phase, name, done) == ParsePairs(t, p + |s|, phase, name, done)
    decreases |s|
  {
    hide ParsePairs;
    if s != [] {
      BlanksRest(s);
      BlanksAt(t, p, s);
      BlankInPairs(t, p, phase, name, done);
      BlanksInPairs(t, p + 1, s[1..], phase, name, done);
    }
  }

  lemma {:induction false} LeadsInPairs(t: Text, p: nat, s: Text, done: seq<Pair>)
    requires Has(t, p, s) && Lead(s)
    ensures p + |s| <= |t|
    ensures ParsePairs(t, p, Naming, Slice(0, 0), done) == ParsePairs(t, p + |s|, Naming, Slice(0, 0), done)
    decreases |s|
  {
    hide ParsePairs;
    if s != [] {
      LeadRest(s);
      LeadAt(t, p, s);
      LeadInPairs(t, p, done);
      LeadsInPairs(t, p + 1, s[1..], done);
    }
  }

  // ---------- a value, blanks and a separator ----------

  // A value of an array with a blank behind it goes into the table.
  lemma ItemKept(t: Text, p: nat, v: Value, e: nat, done: seq<Value>)
    requires Parses(t, p, v, e) && !v.Array? && IsSpace(t[e])
    ensures ParseItems(t, p, done) == ParseItems(t, if v.IsWord() then e + 1 else e, done + [v])
  {
    hide ParseValue;
    hide Read;
    ReadByte(t, p);
  }

  lemma ItemLaid(t: Text, p: nat, v: Value, e: nat, behind: Text, done: seq<Value>)
    requires Parses(t, p, v, e) && !v.Array? && Has(t, e, behind) && Blanks(behind)
    requires var x := e + |behind|; x < |t| && (t[x] == 44 || t[x] == 93)
    ensures var x := e + |behind|;
      ParseItems(t, p, done) == if t[x] == 44 then ParseItems(t, x + 1, done + [v]) else Items(true, done + [v], 93, x + 1)
  {
    hide ParseItems;
    hide Parses;
    var x := e + |behind|;
    if behind == [] {
      ItemParses(t, p, v, e, done);
    } else {
      BlanksRest(behind);
      BlanksAt(t, e, behind);
      ItemKept(t, p, v, e, done);
      BlanksAreGaps(behind);
      BlanksAreGaps(behind[1..]);
      if v.IsWord() {
        BlanksInItems(t, e + 1, behind[1..], done + [v]);
      } else {
        BlanksInItems(t, e, behind, done + [v]);
      }
      AtSeparator(t, x, done + [v]);
    }
  }

  lemma PairKept(t: Text, p: nat, v: Value, e: nat, name: Slice, done: seq<Pair>)
    requires Parses(t, p, v, e)
    ensures v.IsWord() && IsSpace(t[e]) ==>
      ParsePair(t, p, name, done) == ParsePairs(t, e + 1, Valued, Slice(0, 0), done + [Pair(name, v)])
    ensures !v.IsWord() ==>
      ParsePair(t, p, name, done) == ParsePairs(t, e, Valued, Slice(0, 0), done + [Pair(name, v)])
  {
    hide ParseValue;
    hide Read;
    ReadByte(t, p);
  }

  lemma PairEnds(t: Text, x: nat, done: seq<Pair>)
    requires x < |t| && (t[x] == 44 || t[x] == 125)
    ensures ParsePairs(t, x, Valued, Slice(0, 0), done) ==
      if t[x] == 44 then ParsePairs(t, x + 1, Naming, Slice(0, 0), done) else Pairs(true, done, 125, x + 1)
  {
    hide ParseName;
    hide ParsePair;
    hide Read;
    ReadByte(t, x);
  }

  lemma PairLaid(t: Text, p: nat, v: Value, e: nat, behind: Text, name: Slice, done: seq<Pair>)
    requires Parses(t, p, v, e) && Has(t, e, behind) && Blanks(behind)
    requires var x := e + |behind|; x < |t| && (t[x] == 44 || t[x] == 125)
    ensures var x := e + |behind|;
      ParsePair(t, p, name, done) == if t[x] == 44
        then ParsePairs(t, x + 1, Naming, Slice(0, 0), done + [Pair(name, v)])
        else Pairs(true, done + [Pair(name, v)], 125, x + 1)
  {
    hide ParsePairs;
    hide ParsePair;
    hide Parses;
    var x, more := e + |behind|, done + [Pair(name, v)];
    if behind == [] {
      PairParses(t, p, v, e, name, done);
    } else {
      BlanksRest(behind);
      BlanksAt(t, e, behind);
      PairKept(t, p, v, e, name, done);
      if v.IsWord() {
        BlanksInPairs(t, e + 1, behind[1..], Valued, Slice(0, 0), more);
      } else {
        BlanksInPairs(t, e, behind, Valued, Slice(0, 0), more);
      }
      PairEnds(t, x, more);
    }
  }

  // ---------- names ----------

  lemma BareName(t: Text, p: nat, s: Text) returns (slice: Slice)
    requires Has(t, p, s) && NameOk(s) && BareOk(s) && p + |s| < |t|
    requires t[p + |s|] == 58 || IsSpace(t[p + |s|])
    ensures IsLetter(t[p]) || t[p] == UNDERSCORE
    ensures ParseName(t, p + 1, t[p], p) == Name(true, slice, t[p + |s|], p + |s| + 1)
    ensures Token(t, slice, s)
  {
    hide NameOk;
    hide NameScan;
    HasAt(t, p, s, 0);
    NameTrip(t, p, s, 0, 0);
    slice := Slice(p, Symbols(t, p, p + |s|));
    NameIsShort(s);
    TokenBetween(t, p, s);
  }

  lemma AtColon(t: Text, y: nat, name: Slice, done: seq<Pair>)
    requires y < |t| && t[y] == 58
    ensures ParsePairs(t, y, Named, name, done) == ParsePair(t, y + 1, name, done)
  {
    hide ParseName;
    hide ParsePair;
    hide Read;
    ReadByte(t, y);
  }

  // From the name to behind the colon.
  lemma Colon(t: Text, p: nat, s: Text, name: Slice, done: seq<Pair>)
    requires Has(t, p, s) && Blanks(s) && p + |s| < |t| && t[p + |s|] == 58
    ensures ParsePairs(t, p, Named, name, done) == ParsePair(t, p + |s| + 1, name, done)
  {
    hide *;
    BlanksInPairs(t, p, s, Named, name, done);
    AtColon(t, p + |s|, name, done);
  }

  lemma QuotedOpens(t: Text, p: nat, s: Text, quote: Byte, done: seq<Pair>) returns (name: Slice)
    requires (quote == 34 || quote == 39) && NameOk(s) && Has(t, p, [quote] + s + [quote])
    ensures Token(t, name, s) && p + |s| + 2 <= |t| && 0 < t[p] < 0xC0
    ensures ParsePairs(t, p, Naming, Slice(0, 0), done) == ParsePairs(t, p + |s| + 2, Named, name, done)
  {
    hide NameOk;
    hide ParseName;
    hide ParsePair;
    hide Read;
    hide Token;
    name := QuotedName(t, p, s, quote);
    ReadByte(t, p);
  }

  // A name without quotes takes the colon or the blank behind it with it.
  lemma BareOpens(t: Text, p: nat, s: Text, done: seq<Pair>) returns (name: Slice)
    requires NameOk(s) && BareOk(s) && Has(t, p, s) && p + |s| < |t|
    requires t[p + |s|] == 58 || IsSpace(t[p + |s|])
    ensures Token(t, name, s) && 0 < t[p] < 0xC0
    ensures ParsePairs(t, p, Naming, Slice(0, 0), done) ==
      if t[p + |s|] == 58 then ParsePair(t, p + |s| + 1, name, done)
      else ParsePairs(t, p + |s| + 1, Named, name, done)
  {
    hide NameOk;
    hide BareOk;
    hide ParseName;
    hide ParsePair;
    hide Read;
    hide Token;
    name := BareName(t, p, s);
    ReadByte(t, p);
  }

  lemma LayNameIs(m: LaidMember)
    requires ProperName(m)
    ensures LayName(m) == if m.quote == 0 then m.name else [m.quote] + m.name + [m.quote]
    ensures |LayName(m)| == |m.name| + if m.quote == 0 then 0 else 2
    ensures NameOk(m.name) && Blanks(m.toColon)
    ensures m.quote == 34 || m.quote == 39 || (m.quote == 0 && BareOk(m.name))
  {
    hide NameOk;
    hide BareOk;
    hide Blanks;
    hide Lead;
  }

  lemma NameLaid(t: Text, p: nat, m: LaidMember, done: seq<Pair>) returns (name: Slice)
    requires ProperName(m) && Has(t, p, LayName(m)) && Has(t, p + |LayName(m)|, m.toColon)
    requires var y := p + |LayName(m)| + |m.toColon|; y < |t| && t[y] == 58
    ensures Token(t, name, m.name) && p < |t| && 0 < t[p] < 0xC0
    ensures var y := p + |LayName(m)| + |m.toColon|;
      ParsePairs(t, p, Naming, Slice(0, 0), done) == ParsePair(t, y + 1, name, done)
  {
    hide *;
    LayNameIs(m);
    var c := p + |LayName(m)|;
    if m.quote != 0 {
      name := QuotedOpens(t, p, m.name, m.quote, done);
      Colon(t, c, m.toColon, name, done);
    } else {
      BareEnds(t, c, m.toColon);
      name := BareOpens(t, p, m.name, done);
      if m.toColon != [] {
        Colon(t, c + 1, m.toColon[1..], name, done);
      }
    }
  }

  lemma BareEnds(t: Text, c: nat, toColon: Text)
    requires Has(t, c, toColon) && Blanks(toColon) && c + |toColon| < |t| && t[c + |toColon|] == 58
    ensures t[c] == 58 || IsSpace(t[c])
    ensures toColon != [] ==> Has(t, c + 1, toColon[1..]) && Blanks(toColon[1..]) && t[c] != 58
  {
    if toColon != [] {
      BlanksRest(toColon);
      BlanksAt(t, c, toColon);
    }
  }

  // ---------- values ----------

  lemma LayIs(l: Laid)
    requires Proper(l)
    ensures match l
      case LString(q, s) =>
        IsQuote(q) && |s| < TWO_32 && StringOk(s, false, q) && Lay(l) == [q] + s + [q] && Tree(l) == JString(s)
      case LNumber(s) => |s| < TWO_32 && (DecimalOk(s) || HexOk(s)) && Lay(l) == s && Tree(l) == JNumber(s)
      case LObject(ms, inside) =>
        && Tree(l).JObject? && |Tree(l).members| == |ms| && Lead(inside)
        && Lay(l) == [123] + (if ms == [] then inside + [125] else LayMembers(l, 0))
      case LArray(vs, inside) =>
        && Tree(l).JArray? && |Tree(l).items| == |vs| && Gap(inside)
        && Lay(l) == [91] + (if vs == [] then inside + [93] else LayItems(l, 0))
      case _ => (Tree(l).JTrue? || Tree(l).JFalse? || Tree(l).JNull?) && Lay(l) == Print(Tree(l))
  {
    hide StringOk;
    hide DecimalOk;
    hide HexOk;
    hide LayItems;
    hide LayMembers;
    hide Blanks;
    hide Gap;
    hide Lead;
  }

  lemma ItemIs(l: Laid, k: nat)
    requires Proper(l) && l.LArray? && k < |l.items|
    ensures Proper(l.items[k].value) && ProperItem(l.items[k]) && !Tree(l.items[k].value).JArray?
    ensures Gap(l.items[k].before) && Blanks(l.items[k].behind)
    ensures |Tree(l).items| == |l.items| && Tree(l).items[k] == Tree(l.items[k].value)
  {
    hide Blanks;
    hide Gap;
  }

  lemma MemberIs(l: Laid, k: nat)
    requires Proper(l) && l.LObject? && k < |l.members|
    ensures Proper(l.members[k].value) && ProperName(l.members[k])
    ensures Lead(l.members[k].before) && Blanks(l.members[k].fromColon) && Blanks(l.members[k].behind)
    ensures |Tree(l).members| == |l.members|
    ensures Tree(l).members[k] == Member(l.members[k].name, Tree(l.members[k].value))
  {
    hide Blanks;
    hide Lead;
    hide NameOk;
    hide BareOk;
  }

  // Behind a value stands a blank or the separator.
  lemma BehindCloses(t: Text, e: nat, behind: Text)
    requires Has(t, e, behind) && Blanks(behind)
    requires var x := e + |behind|; x < |t| && (t[x] == 44 || t[x] == 93 || t[x] == 125)
    ensures e < |t| && Closes(t[e])
  {
    if behind != [] {
      BlanksRest(behind);
      BlanksAt(t, e, behind);
    }
  }

  // Three pieces and the rest.
  lemma Pieces(t: Text, p: nat, text: Text, a: Text, b: Text, c: Text, rest: Text)
    requires Has(t, p, text) && text == a + (b + (c + rest))
    ensures Has(t, p, a) && Has(t, p + |a|, b) && Has(t, p + |a| + |b|, c) && Has(t, p + |a| + |b| + |c|, rest)
    ensures |text| == |a| + |b| + |c| + |rest|
  {
    hide *;
    HasBoth(t, p, a, b + (c + rest));
    HasBoth(t, p + |a|, b, c + rest);
    HasBoth(t, p + |a| + |b|, c, rest);
  }

  // What stands behind a value: the closing token, or a comma and the text of the next.
  lemma Behind(t: Text, x: nat, rest: Text, close: Byte, next: Text, last: bool)
    requires Has(t, x, rest) && rest == if last then [close] else [44] + next
    ensures x < |t| && t[x] == (if last then close else 44)
    ensures if last then |rest| == 1 else Has(t, x + 1, next) && |rest| == 1 + |next|
  {
    hide Has;
    HasAt(t, x, rest, 0);
    HasLength(t, x, rest);
    if !last {
      HasBoth(t, x, [44], next);
    }
  }

  lemma OneByte(t: Text, x: nat, b: Byte, rest: Text)
    requires Has(t, x, [b] + rest)
    ensures x < |t| && t[x] == b && Has(t, x + 1, rest) && |[b] + rest| == 1 + |rest|
  {
    hide Has;
    HasAt(t, x, [b] + rest, 0);
    HasLength(t, x, [b] + rest);
    HasBoth(t, x, [b], rest);
  }

  // Blanks, a value, blanks and what stands behind them.
  lemma Stretch(t: Text, p: nat, text: Text, a: Text, b: Text, c: Text, rest: Text, close: Byte, next: Text, last: bool)
      returns (q: nat, e: nat, x: nat)
    requires Has(t, p, text) && text == a + (b + (c + rest)) && rest == if last then [close] else [44] + next
    ensures Has(t, p, a) && q == p + |a| && Has(t, q, b) && e == q + |b| && Has(t, e, c) && x == e + |c| < |t|
    ensures t[x] == if last then close else 44
    ensures last ==> x + 1 == p + |text|
    ensures !last ==> Has(t, x + 1, next) && x + 1 + |next| == p + |text|
  {
    Pieces(t, p, text, a, b, c, rest);
    q, e, x := p + |a|, p + |a| + |b|, p + |a| + |b| + |c|;
    hide *;
    Behind(t, x, rest, close, next, last);
  }

  lemma LayItemsIs(l: Laid, k: nat)
    requires l.LArray? && k < |l.items|
    ensures LayItems(l, k) == l.items[k].before + (Lay(l.items[k].value) + (l.items[k].behind + AfterItem(l, k)))
    ensures AfterItem(l, k) == if k + 1 == |l.items| then [93] else [44] + LayItems(l, k + 1)
  {
    hide Lay;
  }

  // Value number k of an array, from q to e, and the separator behind it at x.
  lemma ItemText(t: Text, p: nat, l: Laid, k: nat) returns (q: nat, e: nat, x: nat)
    requires l.LArray? && k < |l.items| && Has(t, p, LayItems(l, k))
    ensures Has(t, p, l.items[k].before) && q == p + |l.items[k].before|
    ensures Has(t, q, Lay(l.items[k].value)) && e == q + |Lay(l.items[k].value)|
    ensures Has(t, e, l.items[k].behind) && x == e + |l.items[k].behind| < |t|
    ensures k + 1 == |l.items| ==> t[x] == 93 && x + 1 == p + |LayItems(l, k)|
    ensures k + 1 < |l.items| ==> t[x] == 44 && Has(t, x + 1, LayItems(l, k + 1))
    ensures k + 1 < |l.items| ==> x + 1 + |LayItems(l, k + 1)| == p + |LayItems(l, k)|
  {
    hide *;
    LayItemsIs(l, k);
    var i, last := l.items[k], k + 1 == |l.items|;
    q, e, x := Stretch(t, p, LayItems(l, k), i.before, Lay(i.value), i.behind, AfterItem(l, k), 93,
                       if last then [] else LayItems(l, k + 1), last);
  }

  // The value of a member, with what stands around it.
  function Rest(l: Laid, k: nat): Text
    requires l.LObject? && k < |l.members|
  {
    l.members[k].fromColon + (Lay(l.members[k].value) + (l.members[k].behind + AfterMember(l, k)))
  }

  lemma LayMembersIs(l: Laid, k: nat)
    requires l.LObject? && k < |l.members|
    ensures var m := l.members[k]; LayMembers(l, k) == m.before + (LayName(m) + (m.toColon + ([58] + Rest(l, k))))
  {
    hide Lay;
    hide LayName;
    hide AfterMember;
  }

  lemma RestIs(l: Laid, k: nat)
    requires l.LObject? && k < |l.members|
    ensures var m := l.members[k]; Rest(l, k) == m.fromColon + (Lay(m.value) + (m.behind + AfterMember(l, k)))
    ensures AfterMember(l, k) == if k + 1 == |l.members| then [125] else [44] + LayMembers(l, k + 1)
  {
    hide Lay;
    hide LayMembers;
  }

  // The name of member number k of an object at n and its colon at y.
  lemma NameText(t: Text, p: nat, l: Laid, k: nat) returns (n: nat, y: nat)
    requires l.LObject? && k < |l.members| && Has(t, p, LayMembers(l, k))
    ensures Has(t, p, l.members[k].before) && n == p + |l.members[k].before|
    ensures Has(t, n, LayName(l.members[k])) && Has(t, n + |LayName(l.members[k])|, l.members[k].toColon)
    ensures y == n + |LayName(l.members[k])| + |l.members[k].toColon| < |t| && t[y] == 58
    ensures Has(t, y + 1, Rest(l, k)) && p + |LayMembers(l, k)| == y + 1 + |Rest(l, k)|
  {
    hide *;
    LayMembersIs(l, k);
    var m := l.members[k];
    n := p + |m.before|;
    y := n + |LayName(m)| + |m.toColon|;
    Pieces(t, p, LayMembers(l, k), m.before, LayName(m), m.toColon, [58] + Rest(l, k));
    OneByte(t, y, 58, Rest(l, k));
  }

  // The value of member number k, from q to e, and the separator at x.
  lemma ValueText(t: Text, p: nat, l: Laid, k: nat) returns (q: nat, e: nat, x: nat)
    requires l.LObject? && k < |l.members| && Has(t, p, Rest(l, k))
    ensures Has(t, p, l.members[k].fromColon) && q == p + |l.members[k].fromColon|
    ensures Has(t, q, Lay(l.members[k].value)) && e == q + |Lay(l.members[k].value)|
    ensures Has(t, e, l.members[k].behind) && x == e + |l.members[k].behind| < |t|
    ensures k + 1 == |l.members| ==> t[x] == 125 && x + 1 == p + |Rest(l, k)|
    ensures k + 1 < |l.members| ==> t[x] == 44 && Has(t, x + 1, LayMembers(l, k + 1))
    ensures k + 1 < |l.members| ==> x + 1 + |LayMembers(l, k + 1)| == p + |Rest(l, k)|
  {
    hide *;
    RestIs(l, k);
    var m, last := l.members[k], k + 1 == |l.members|;
    q, e, x := Stretch(t, p, Rest(l, k), m.fromColon, Lay(m.value), m.behind, AfterMember(l, k), 125,
                       if last then [] else LayMembers(l, k + 1), last);
  }

  // An array with nothing but blanks and commas in it.
  lemma NoItems(t: Text, p: nat, inside: Text)
    requires Has(t, p, inside + [93]) && Gap(inside)
    ensures p <= |t| && ParseItems(t, p, []) == Items(true, [], 93, p + |inside + [93]|)
  {
    hide ParseItems;
    hide Gap;
    var z := p + |inside|;
    HasBoth(t, p, inside, [93]);
    HasAt(t, z, [93], 0);
    BlanksInItems(t, p, inside, []);
    AtSeparator(t, z, []);
  }

  // An object with nothing but blanks, commas and opening braces in it.
  lemma NoMembers(t: Text, p: nat, inside: Text)
    requires Has(t, p, inside + [125]) && Lead(inside)
    ensures p <= |t| && ParsePairs(t, p, Naming, Slice(0, 0), []) == Pairs(true, [], 125, p + |inside + [125]|)
  {
    hide Lead;
    hide ParseName;
    hide ParsePair;
    hide Read;
    var z := p + |inside|;
    HasBoth(t, p, inside, [125]);
    HasAt(t, z, [125], 0);
    LeadsInPairs(t, p, inside, []);
    ReadByte(t, z);
  }

  lemma Brackets()
    ensures OPEN_OBJECT == 123 && CLOSE_OBJECT == 125 && OPEN_ARRAY == 91 && CLOSE_ARRAY == 93
  {
  }

  lemma {:induction false} ValueLaid(t: Text, p: nat, l: Laid) returns (v: Value)
    requires Proper(l) && Has(t, p, Lay(l)) && p + |Lay(l)| < |t| && Closes(t[p + |Lay(l)|])
    ensures Parses(t, p, v, p + |Lay(l)|) && Means(t, v, Tree(l))
    decreases l, 2
  {
    hide *;
    LayIs(l);
    Brackets();
    match l
    case LString(q, s) =>
      v := QuotedParses(t, p, s, q);
    case LNumber(s) =>
      v := NumberParses(t, p, s);
    case LObject(ms, inside) =>
      var ps := [];
      var inner := if ms == [] then inside + [125] else LayMembers(l, 0);
      HasBoth(t, p, [123], inner);
      if ms == [] {
        NoMembers(t, p + 1, inside);
        NoPairMeans(t, Tree(l).members);
      } else {
        ps := MembersLaid(t, p + 1, l, 0, []);
      }
      assert [] + ps == ps;
      v := ObjectParses(t, p, Tree(l), inner, ps);
    case LArray(vs, inside) =>
      var values := [];
      var inner := if vs == [] then inside + [93] else LayItems(l, 0);
      HasBoth(t, p, [91], inner);
      if vs == [] {
        NoItems(t, p + 1, inside);
        NoneMean(t, Tree(l).items);
      } else {
        values := ItemsLaid(t, p + 1, l, 0, []);
      }
      assert [] + values == values;
      v := ArrayParses(t, p, Tree(l), inner, values);
    case _ =>
      v := WordParses(t, p, Tree(l));
  }

  // The values of an array from number k on.
  lemma {:induction false} ItemsLaid(t: Text, p: nat, l: Laid, k: nat, done: seq<Value>) returns (vs: seq<Value>)
    requires Proper(l) && l.LArray? && k < |l.items| && Has(t, p, LayItems(l, k))
    ensures p <= |t| && ParseItems(t, p, done) == Items(true, done + vs, 93, p + |LayItems(l, k)|)
    ensures Tree(l).JArray? && AllMean(t, vs, Tree(l).items, k)
    decreases l, 1, |l.items| - k
  {
    hide *;
    LayIs(l);
    ItemIs(l, k);
    var i := l.items[k];
    var q, e, x := ItemText(t, p, l, k);
    BehindCloses(t, e, i.behind);
    var v := ValueLaid(t, q, i.value);
    NotArray(t, v, Tree(i.value));
    StartsValue(t, q, v, e);
    BlanksInItems(t, p, i.before, done);
    ItemLaid(t, q, v, e, i.behind, done);
    var more := [];
    if k + 1 < |l.items| {
      more := ItemsLaid(t, x + 1, l, k + 1, done + [v]);
    } else {
      NoneMean(t, Tree(l).items);
    }
    OneMoreMeans(t, v, more, Tree(l).items, k);
    vs := [v] + more;
    assert done + [v] + more == done + vs;
  }

  lemma StartsValue(t: Text, p: nat, v: Value, e: nat)
    requires Parses(t, p, v, e)
    ensures p < e < |t| && 0 < t[p] < 0xC0
  {
  }

  // The members of an object from number k on.
  lemma {:induction false} MembersLaid(t: Text, p: nat, l: Laid, k: nat, done: seq<Pair>) returns (ps: seq<Pair>)
    requires Proper(l) && l.LObject? && k < |l.members| && Has(t, p, LayMembers(l, k))
    ensures p <= |t|
    ensures ParsePairs(t, p, Naming, Slice(0, 0), done) == Pairs(true, done + ps, 125, p + |LayMembers(l, k)|)
    ensures Tree(l).JObject? && PairsMean(t, ps, Tree(l).members, k)
    decreases l, 1, |l.members| - k
  {
    hide *;
    LayIs(l);
    MemberIs(l, k);
    var m := l.members[k];
    var n, y := NameText(t, p, l, k);
    var q, e, x := ValueText(t, y + 1, l, k);
    BehindCloses(t, e, m.behind);
    LeadsInPairs(t, p, m.before, done);
    var name := NameLaid(t, n, m, done);
    var v := ValueLaid(t, q, m.value);
    StartsValue(t, q, v, e);
    BlanksBeforeValue(t, y + 1, m.fromColon, name, done);
    PairLaid(t, q, v, e, m.behind, name, done);
    var more := [];
    if k + 1 < |l.members| {
      more := MembersLaid(t, x + 1, l, k + 1, done + [Pair(name, v)]);
    } else {
      NoPairMeans(t, Tree(l).members);
    }
    OneMorePairMeans(t, Pair(name, v), more, Tree(l).members, k);
    ps := [Pair(name, v)] + more;
    assert done + [Pair(name, v)] + more == done + ps;
  }

  // ---------- whole texts ----------

  // A text with an object in it, perhaps a byte order mark and blanks before it, and whatever behind it.
  ghost predicate LaidOut(t: Text, mark: Text, lead: Text, l: Laid) {
    && l.LObject? && Proper(l) && Lead(lead) && (mark == [] || mark == [0xEF, 0xBB, 0xBF])
    && mark + (lead + Lay(l)) <= t
  }

  // Parsing a text with blanks reads the object to its closing brace and rebuilds the tree.
  lemma LayoutParses(t: Text, mark: Text, lead: Text, l: Laid)
    requires LaidOut(t, mark, lead, l)
    ensures IsUtf8(t)
    ensures var r := Parse(t);
      r.ok && Means(t, Object(r.pairs), Tree(l)) && r.next == |mark| + |lead| + |Lay(l)|
  {
    hide *;
    var p := |mark| + |lead|;
    Opening(t, mark, lead, l);
    LayIs(l);
    var inner := if l.members == [] then l.inside + [125] else LayMembers(l, 0);
    HasBoth(t, p, [123], inner);
    var ps := [];
    if l.members == [] {
      NoMembers(t, p + 1, l.inside);
      NoPairMeans(t, Tree(l).members);
    } else {
      ps := MembersLaid(t, p + 1, l, 0, []);
    }
    assert [] + ps == ps;
    ObjectMeans(t, ps, Tree(l));
  }

  // The mark, the blanks and the opening brace are passed over.
  lemma Opening(t: Text, mark: Text, lead: Text, l: Laid)
    requires LaidOut(t, mark, lead, l)
    ensures var p := |mark| + |lead|;
      IsUtf8(t) && l.LObject? && Proper(l) && p < |t| && Has(t, p, Lay(l)) &&
      Parse(t) == ParsePairs(t, p + 1, Naming, Slice(0, 0), [])
  {
    hide *;
    Leads(t, mark, lead, l);
    Marked(t, mark);
    LeadsInPairs(t, |mark|, lead, []);
    Brace(t, |mark| + |lead|);
  }

  lemma Leads(t: Text, mark: Text, lead: Text, l: Laid)
    requires LaidOut(t, mark, lead, l)
    ensures mark == [] || mark == [0xEF, 0xBB, 0xBF]
    ensures Has(t, 0, mark) && Has(t, |mark|, lead) && Has(t, |mark| + |lead|, Lay(l)) && |mark| + |lead| + 1 < |t|
    ensures l.LObject? && Proper(l) && Lead(lead) && t[|mark| + |lead|] == 123 && 0 < t[|mark|] < 0x80
  {
    LaidOutIs(t, mark, lead, l);
    hide *;
    LaidPieces(t, mark, lead, Lay(l));
    if lead != [] {
      LeadStarts(lead);
    }
  }

  lemma LaidPieces(t: Text, mark: Text, lead: Text, text: Text)
    requires Has(t, 0, mark + (lead + text)) && |text| >= 2
    ensures Has(t, 0, mark) && Has(t, |mark|, lead) && Has(t, |mark| + |lead|, text) && |mark| + |lead| + 1 < |t|
    ensures t[|mark| + |lead|] == text[0] && (lead != [] ==> t[|mark|] == lead[0])
  {
    hide *;
    HasBoth(t, 0, mark, lead + text);
    HasBoth(t, |mark|, lead, text);
    HasAt(t, |mark| + |lead|, text, 0);
    HasLength(t, |mark| + |lead|, text);
    if lead != [] {
      HasAt(t, |mark|, lead, 0);
    }
  }

  lemma LaidOutIs(t: Text, mark: Text, lead: Text, l: Laid)
    requires LaidOut(t, mark, lead, l)
    ensures mark == [] || mark == [0xEF, 0xBB, 0xBF]
    ensures l.LObject? && Proper(l) && Lead(lead) && |Lay(l)| >= 2 && Lay(l)[0] == 123
    ensures Has(t, 0, mark + (lead + Lay(l)))
  {
    hide Proper;
    hide LayMembers;
    hide Lead;
    var whole := mark + (lead + Lay(l));
    assert t[..|whole|] == whole;
    ObjectIsLong(l);
  }

  lemma LeadStarts(lead: Text)
    requires Lead(lead) && lead != []
    ensures 0 < lead[0] < 0x80
  {
    LeadRest(lead);
    GapByte(lead[0]);
  }

  lemma ObjectIsLong(l: Laid)
    requires l.LObject?
    ensures |Lay(l)| >= 2
  {
    if l.members != [] {
      assert |AfterMember(l, 0)| >= 1;
    }
  }

  lemma Brace(t: Text, p: nat)
    requires p < |t| && t[p] == 123
    ensures ParsePairs(t, p, Naming, Slice(0, 0), []) == ParsePairs(t, p + 1, Naming, Slice(0, 0), [])
  {
    hide Read;
    ReadByte(t, p);
  }

  // Reading starts behind the byte order mark, or at the first character.
  lemma Marked(t: Text, mark: Text)
    requires Has(t, 0, mark) && |mark| + 1 < |t| && 0 < t[|mark|] < 0x80
    requires mark == [] || mark == [0xEF, 0xBB, 0xBF]
    ensures IsUtf8(t) && Start(t) == |mark| && Parse(t) == ParsePairs(t, |mark|, Naming, Slice(0, 0), [])
  {
    hide ParsePairs;
    if mark == [] {
      Unmarked(t);
    } else {
      assert t[..3] == mark;
      assert t[0] == mark[0] == 0xEF;
      assert t[..4][0] == t[0] && t[..2][0] == t[0];
    }
  }

  // A text that starts with a plain character starts with no byte order mark.
  lemma Unmarked(t: Text)
    requires |t| > 0 && 0 < t[0] < 0x80
    ensures IsUtf8(t) && Start(t) == 0 && Parse(t) == ParsePairs(t, 0, Naming, Slice(0, 0), [])
  {
    hide ParsePairs;
    if |t| > 4 {
      assert t[..3][0] == t[0];
      assert t[..4][0] == t[0];
      assert t[..2][0] == t[0];
    }
  }

  // Which characters are passed over before the braces of the root: the four blanks, a comma and a
  // further brace.
  lemma WhatMayLead(t: Text, c: Byte)
    requires 0 < c < 0x80 && t == [c] + [123, 125]
    ensures Parse(t).ok && Parse(t).next == 3 <==> c in {9, 10, 13, 32, 44, 123}
  {
    hide ParsePair;
    hide Read;
    hide Symbols;
    Unmarked(t);
    ReadByte(t, 0);
    ReadByte(t, 1);
    Braces(t, 1);
    if IsQuote(c) || IsLetter(c) || c == UNDERSCORE {
      assert !NameScan(t, 2, t[1], 1, if IsQuote(c) then c else 0, !IsQuote(c)).ok;
      assert !ParseName(t, 1, c, 0).ok;
    }
  }

  lemma Braces(t: Text, p: nat)
    requires p + 1 < |t| && t[p] == 123 && t[p + 1] == 125
    ensures ParsePairs(t, p, Naming, Slice(0, 0), []) == Pairs(true, [], 125, p + 2)
  {
    hide Read;
    Brace(t, p);
    ReadByte(t, p + 1);
  }

  // The parser itself on such a text, unless it runs out of memory.
  method ReparseLaid(text: Text, script: seq<bool>, ghost mark: Text, ghost lead: Text, ghost l: Laid)
      returns (code: Code, parser: Parser)
    requires LaidOut(text, mark, lead, l)
    ensures code == MemoryError <==> parser.memory.refused > 0
    ensures code != MemoryError ==> code == Accepted && Means(text, Object(parser.root.contents), Tree(l))
  {
    hide *;
    LayoutParses(text, mark, lead, l);
    parser := new Parser(text, script);
    code := parser.Run();
  }
}
