// Trees of JSON values over byte strings, their compact text, and the trees that survive a parse.
module JsonText {
  import opened HyperText
  import opened JsonGrammar

  datatype Json =
    | JString(s: Text)
    | JNumber(s: Text)
    | JObject(members: seq<Member>)
    | JArray(items: seq<Json>)
    | JTrue
    | JFalse
    | JNull
  {
    predicate IsWord() {
      JNumber? || JTrue? || JFalse? || JNull?
    }
  }

  datatype Member = Member(name: Text, value: Json)

  // ---------- what can be written ----------

  // How many bytes a symbol with this first byte has.
  function Width(lead: Byte): nat {
    if lead < 0xC0 then 1 else if lead < 0xE0 then 2 else if lead < 0xF0 then 3 else 4
  }

  // Whole symbols, none of them NUL; the delimiter only behind a backslash, which is not the last symbol.
  predicate StringOk(s: Text, escaped: bool, delimiter: nat)
    decreases |s|
  {
    if s == [] then !escaped
    else
      && s[0] != 0 && s[0] < 0xF8 && Width(s[0]) <= |s|
      && (s[0] == delimiter ==> escaped)
      && StringOk(s[Width(s[0])..], s[0] == 92, delimiter)
  }

  // The quotation mark when it will do, else the apostrophe.
  function Delimiter(s: Text): Byte {
    if StringOk(s, false, 34) then 34 else 39
  }

  // Letters, the minus sign and the underscore.
  predicate NameByte(b: Byte) {
    65 <= b <= 90 || 97 <= b <= 122 || b == 45 || b == 95
  }

  predicate NameOk(s: Text) {
    && |s| < 0x1_0000_0000
    && (forall i :: 0 <= i < |s| ==> NameByte(s[i]) || (i > 0 && 48 <= s[i] <= 57))
  }

  predicate DigitOrDot(c: nat) {
    48 <= c <= 57 || c == 46
  }

  // Signs, a digit, then digits and dots.
  predicate DecimalOk(s: Text) {
    s != [] &&
    if s[0] == 43 || s[0] == 45 then DecimalOk(s[1..])
    else 48 <= s[0] <= 57 && forall i :: 0 <= i < |s| ==> DigitOrDot(s[i])
  }

  predicate HexOk(s: Text) {
    |s| >= 2 && s[0] == 48 && (s[1] == 120 || s[1] == 88) &&
    forall i :: 2 <= i < |s| ==> 48 <= s[i] <= 57 || 97 <= s[i] <= 102 || 65 <= s[i] <= 70
  }

  // The tokens of the tree can be written.
  ghost predicate Spelled(j: Json) {
    match j
    case JString(s) => |s| < 0x1_0000_0000 && StringOk(s, false, Delimiter(s))
    case JNumber(s) => |s| < 0x1_0000_0000 && (DecimalOk(s) || HexOk(s))
    case JObject(ms) => forall i :: 0 <= i < |ms| ==> NameOk(ms[i].name) && Spelled(ms[i].value)
    case JArray(vs) => forall i :: 0 <= i < |vs| ==> Spelled(vs[i])
    case _ => true
  }

  // No array directly in an array.
  ghost predicate Flat(j: Json)
    decreases j, 0
  {
    match j
    case JObject(ms) => forall i :: 0 <= i < |ms| ==> Flat(ms[i].value)
    case JArray(vs) => forall i :: 0 <= i < |vs| ==> FlatItem(vs[i])
    case _ => true
  }

  ghost predicate FlatItem(j: Json)
    decreases j, 1
  {
    Flat(j) && !j.JArray?
  }

  ghost predicate Writable(j: Json) {
    Spelled(j) && Flat(j)
  }

  // ---------- the compact text ----------

  function Print(j: Json): Text
    decreases j, 2
  {
    match j
    case JString(s) => [Delimiter(s)] + s + [Delimiter(s)]
    case JNumber(s) => s
    case JTrue => [116, 114, 117, 101]
    case JFalse => [102, 97, 108, 115, 101]
    case JNull => [110, 117, 108, 108]
    case JObject(_) => [123] + PrintMembers(j, 0)
    case JArray(_) => [91] + PrintItems(j, 0)
  }

  // The values of an array from number k on, and the closing bracket.
  function PrintItems(j: Json, k: nat): Text
    requires j.JArray? && k <= |j.items|
    decreases j, 1, |j.items| - k, 1
  {
    if k == |j.items| then [93] else Print(j.items[k]) + ItemsAfter(j, k)
  }

  function ItemsAfter(j: Json, k: nat): Text
    requires j.JArray? && k < |j.items|
    decreases j, 1, |j.items| - k, 0
  {
    if k + 1 == |j.items| then [93] else [44] + PrintItems(j, k + 1)
  }

  function PrintName(name: Text): Text {
    [34] + name + [34]
  }

  // The members of an object from number k on, and the closing brace.
  function PrintMembers(j: Json, k: nat): Text
    requires j.JObject? && k <= |j.members|
    decreases j, 1, |j.members| - k, 1
  {
    if k == |j.members| then [125]
    else
      (PrintName(j.members[k].name) + [58]) + (Print(j.members[k].value) + MembersAfter(j, k))
  }

  function MembersAfter(j: Json, k: nat): Text
    requires j.JObject? && k < |j.members|
    decreases j, 1, |j.members| - k, 0
  {
    if k + 1 == |j.members| then [125] else [44] + PrintMembers(j, k + 1)
  }

  // ---------- what a parsed value stands for ----------

  ghost predicate Token(t: Text, s: Slice, token: Text) {
    s.data + s.size <= |t| && t[s.data..s.data + s.size] == token
  }

  // The value has the shape of the tree, and each slice is exactly its token.
  ghost predicate Means(t: Text, v: Value, j: Json)
    decreases j
  {
    match j
    case JString(s) => v.String? && Token(t, v.s, s)
    case JNumber(s) => v.Number? && Token(t, v.s, s)
    case JTrue => v == True
    case JFalse => v == False
    case JNull => v == Null
    case JObject(ms) =>
      && v.Object? && |v.pairs| == |ms|
      && (forall i :: 0 <= i < |ms| ==> Token(t, v.pairs[i].name, ms[i].name) && Means(t, v.pairs[i].value, ms[i].value))
    case JArray(vs) =>
      v.Array? && |v.items| == |vs| && forall i :: 0 <= i < |vs| ==> Means(t, v.items[i], vs[i])
  }

  // ---------- pieces of a text ----------

  ghost predicate Has(t: Text, p: nat, s: Text) {
    p + |s| <= |t| && t[p..p + |s|] == s
  }

  lemma HasAt(t: Text, p: nat, s: Text, i: nat)
    requires Has(t, p, s) && i < |s|
    ensures t[p + i] == s[i]
  {
    assert t[p..p + |s|][i] == s[i];
  }

  lemma HasBoth(t: Text, p: nat, a: Text, b: Text)
    requires Has(t, p, a + b)
    ensures Has(t, p, a) && Has(t, p + |a|, b)
  {
    assert t[p..p + |a|] == t[p..p + |a + b|][..|a|] == (a + b)[..|a|] == a;
    assert t[p + |a|..p + |a| + |b|] == t[p..p + |a + b|][|a|..] == (a + b)[|a|..] == b;
  }

  lemma TokenBetween(t: Text, p: nat, s: Text)
    requires Has(t, p, s) && p + |s| < |t| && |s| < 0x1_0000_0000
    ensures Token(t, Slice(p, Symbols(t, p, p + |s|)), s)
  {
  }
}
