// Exactly when the compact text of a tree parses back to it: when no array stands directly in an
// array. A bracket that closes an inner array also ends the array around it.
module JsonNesting {
  import opened HyperText
  import opened JsonGrammar
  import opened JsonText
  import opened JsonRoundTrip
  import opened JsonParser

  // ---------- trees with an array directly in an array ----------

  // The closing bracket of the value is still to come.
  ghost predicate TooEarly(t: Text, c: nat, next: nat) {
    c == CLOSE_ARRAY && next < |t| && t[next] == CLOSE_ARRAY
  }

  // The parse of the value fails, or yields something else, or stops too early.
  ghost predicate GoesWrong(t: Text, r: Parsed, j: Json) {
    r.ok ==> r.value.Just? && (Means(t, r.value.value, j) ==> j.JArray? && TooEarly(t, r.c, r.next))
  }

  ghost predicate ItemsGoWrong(t: Text, r: Items, j: Json) {
    r.ok ==> Means(t, Array(r.values), j) ==> TooEarly(t, r.c, r.next)
  }

  ghost predicate PairsGoWrong(t: Text, r: Pairs, j: Json) {
    r.ok ==> !Means(t, Object(r.pairs), j)
  }

  lemma {:induction false} ValueGoesWrong(t: Text, p: nat, j: Json)
    requires Spelled(j) && !Flat(j) && Has(t, p, Print(j))
    ensures p < |t| && 0 < t[p] < 0xC0 && GoesWrong(t, ParseValue(t, p + 1, t[p], p), j)
    decreases j, 2
  {
    hide *;
    PrintIs(j);
    if j.JArray? {
      HasBoth(t, p, [OPEN_ARRAY], PrintItems(j, 0));
      Nests(j);
      ArrayItemsGoWrong(t, p + 1, j, 0, []);
      ArrayGoesWrong(t, p, j);
    } else {
      OnlyTreesNest(j);
      HasBoth(t, p, [OPEN_OBJECT], PrintMembers(j, 0));
      Nests(j);
      MembersGoWrong(t, p + 1, j, 0, []);
      ObjectGoesWrong(t, p, j);
    }
  }

  lemma OnlyTreesNest(j: Json)
    requires !Flat(j)
    ensures j.JArray? || j.JObject?
  {
  }

  lemma ArrayGoesWrong(t: Text, p: nat, j: Json)
    requires j.JArray? && Has(t, p, [OPEN_ARRAY]) && p + 1 <= |t| && ItemsGoWrong(t, ParseItems(t, p + 1, []), j)
    ensures p < |t| && 0 < t[p] < 0xC0 && GoesWrong(t, ParseValue(t, p + 1, t[p], p), j)
  {
    hide ParseItems;
    hide ParsePairs;
    hide StringScan;
    hide NumberScan;
    hide Means;
    HasAt(t, p, [OPEN_ARRAY], 0);
  }

  lemma ObjectGoesWrong(t: Text, p: nat, j: Json)
    requires j.JObject? && Has(t, p, [OPEN_OBJECT]) && p + 1 <= |t|
    requires PairsGoWrong(t, ParsePairs(t, p + 1, Naming, Slice(0, 0), []), j)
    ensures p < |t| && 0 < t[p] < 0xC0 && GoesWrong(t, ParseValue(t, p + 1, t[p], p), j)
  {
    hide ParseItems;
    hide ParsePairs;
    hide StringScan;
    hide NumberScan;
    hide Means;
    HasAt(t, p, [OPEN_OBJECT], 0);
  }

  // Some value from number k on is an array, or has one in an array.
  ghost predicate NestsFrom(j: Json, k: nat)
    requires j.JArray?
  {
    exists i :: k <= i < |j.items| && !FlatItem(j.items[i])
  }

  ghost predicate MemberNestsFrom(j: Json, k: nat)
    requires j.JObject?
  {
    exists i :: k <= i < |j.members| && !Flat(j.members[i].value)
  }

  lemma Nests(j: Json)
    requires !Flat(j)
    ensures j.JArray? ==> NestsFrom(j, 0)
    ensures j.JObject? ==> MemberNestsFrom(j, 0)
  {
  }

  lemma NestsLater(j: Json, k: nat)
    ensures j.JArray? && NestsFrom(j, k) ==> k < |j.items| && (FlatItem(j.items[k]) ==> NestsFrom(j, k + 1))
    ensures j.JArray? && NestsFrom(j, k) ==> k + 1 < |j.items| || !FlatItem(j.items[k])
    ensures j.JObject? && MemberNestsFrom(j, k) ==>
      k < |j.members| && (Flat(j.members[k].value) ==> MemberNestsFrom(j, k + 1))
    ensures j.JObject? && MemberNestsFrom(j, k) ==> k + 1 < |j.members| || !Flat(j.members[k].value)
  {
    hide Flat;
    hide FlatItem;
  }

  // An array that is an element ends the array around it.
  lemma InnerEnds(t: Text, p: nat, v: Value, e: nat, done: seq<Value>)
    requires Parses(t, p, v, e) && v.Array?
    ensures ParseItems(t, p, done) == Items(true, done + [v], CLOSE_ARRAY, e)
  {
    hide ParseValue;
    hide Read;
    ReadByte(t, p);
  }

  lemma ArrayMeansAt(t: Text, vs: seq<Value>, j: Json, k: nat)
    requires j.JArray? && Means(t, Array(vs), j) && k < |j.items|
    ensures |vs| == |j.items| && Means(t, vs[k], j.items[k])
  {
  }

  lemma ObjectMeansAt(t: Text, ps: seq<Pair>, j: Json, k: nat)
    requires j.JObject? && Means(t, Object(ps), j) && k < |j.members|
    ensures |ps| == |j.members| && Means(t, ps[k].value, j.members[k].value)
  {
  }

  // What an array makes of a value that went wrong.
  lemma WrongItem(t: Text, p: nat, j: Json, k: nat, done: seq<Value>)
    requires j.JArray? && k < |j.items| && |done| == k && p < |t| && 0 < t[p] < 0xC0
    requires GoesWrong(t, ParseValue(t, p + 1, t[p], p), j.items[k])
    ensures ItemsGoWrong(t, ParseItems(t, p, done), j)
  {
    hide ParseValue;
    hide Means;
    hide Read;
    ReadByte(t, p);
    var r := ParseValue(t, p + 1, t[p], p);
    var all := ParseItems(t, p, done);
    if r.ok && all.ok {
      var v := r.value.value;
      ItemsGrow(t, r.next, done + [v]);
      if Means(t, Array(all.values), j) {
        ArrayMeansAt(t, all.values, j, k);
        assert done + [v] <= all.values;
        assert all.values[k] == (done + [v])[k];
        ArrayIs(t, v, j.items[k]);
      }
    }
  }

  lemma ArrayIs(t: Text, v: Value, j: Json)
    requires Means(t, v, j)
    ensures j.JArray? <==> v.Array?
  {
  }

  lemma NotAll(t: Text, vs: seq<Value>, j: Json, c: nat, next: nat)
    requires j.JArray? && (TooEarly(t, c, next) || |vs| != |j.items|)
    ensures ItemsGoWrong(t, Items(true, vs, c, next), j)
  {
  }

  lemma {:induction false} ArrayItemsGoWrong(t: Text, p: nat, j: Json, k: nat, done: seq<Value>)
    requires j.JArray? && Spelled(j) && NestsFrom(j, k) && |done| == k <= |j.items| && Has(t, p, PrintItems(j, k))
    ensures p <= |t| && ItemsGoWrong(t, ParseItems(t, p, done), j)
    decreases j, 1, |j.items| - k
  {
    hide *;
    HasLength(t, p, PrintItems(j, k));
    NestsLater(j, k);
    var e := ItemsText(t, p, j, k);
    var item := j.items[k];
    if !Flat(item) {
      ValueGoesWrong(t, p, item);
      WrongItem(t, p, j, k, done);
    } else {
      IsWritable(item);
      IsFlatItem(item);
      var v := ValueParses(t, p, item);
      ArrayIs(t, v, item);
      if item.JArray? {
        InnerEnds(t, p, v, e, done);
        IsEarly(t, e);
        NotAll(t, done + [v], j, CLOSE_ARRAY, e);
      } else {
        ItemParses(t, p, v, e, done);
        ArrayItemsGoWrong(t, e + 1, j, k + 1, done + [v]);
      }
    }
  }

  lemma IsFlatItem(j: Json)
    ensures FlatItem(j) <==> Flat(j) && !j.JArray?
  {
  }

  lemma IsEarly(t: Text, e: nat)
    requires e < |t|
    ensures t[e] == CLOSE_ARRAY ==> TooEarly(t, CLOSE_ARRAY, e)
  {
  }

  // What an object makes of a value that went wrong.
  lemma WrongMember(t: Text, p: nat, j: Json, k: nat, name: Slice, done: seq<Pair>)
    requires j.JObject? && k < |j.members| && |done| == k && p < |t| && 0 < t[p] < 0xC0
    requires GoesWrong(t, ParseValue(t, p + 1, t[p], p), j.members[k].value)
    ensures PairsGoWrong(t, ParsePair(t, p, name, done), j)
  {
    hide ParseValue;
    hide ParsePairs;
    hide Means;
    hide Read;
    ReadByte(t, p);
    var r := ParseValue(t, p + 1, t[p], p);
    var all := ParsePair(t, p, name, done);
    if r.ok && all.ok {
      var more := done + [Pair(name, r.value.value)];
      if PairStep(r.value, r.c).Then? {
        PairsGrow(t, r.next, PairStep(r.value, r.c).phase, Slice(0, 0), more);
      }
      assert more <= all.pairs;
      if Means(t, Object(all.pairs), j) {
        ObjectMeansAt(t, all.pairs, j, k);
        assert all.pairs[k] == more[k];
        ArrayIs(t, r.value.value, j.members[k].value);
        BracketTooMany(t, r.next, more);
      }
    }
  }

  // A closing bracket where an object goes on is an error.
  lemma BracketTooMany(t: Text, p: nat, done: seq<Pair>)
    requires p <= |t|
    ensures p < |t| && t[p] == CLOSE_ARRAY ==> !ParsePairs(t, p, Valued, Slice(0, 0), done).ok
  {
    hide Read;
    if p < |t| && t[p] == CLOSE_ARRAY {
      ReadByte(t, p);
    }
  }

  lemma {:induction false} MembersGoWrong(t: Text, p: nat, j: Json, k: nat, done: seq<Pair>)
    requires j.JObject? && Spelled(j) && MemberNestsFrom(j, k) && |done| == k <= |j.members|
    requires Has(t, p, PrintMembers(j, k))
    ensures p <= |t| && PairsGoWrong(t, ParsePairs(t, p, Naming, Slice(0, 0), done), j)
    decreases j, 1, |j.members| - k
  {
    hide *;
    HasLength(t, p, PrintMembers(j, k));
    NestsLater(j, k);
    var q, e := MembersText(t, p, j, k);
    var m := j.members[k];
    var name := NameParses(t, p, m.name, done);
    if !Flat(m.value) {
      ValueGoesWrong(t, q, m.value);
      WrongMember(t, q, j, k, name, done);
    } else {
      IsWritable(m.value);
      var v := ValueParses(t, q, m.value);
      PairParses(t, q, v, e, name, done);
      MembersGoWrong(t, e + 1, j, k + 1, done + [Pair(name, v)]);
    }
  }

  // The compact text of a tree parses back to it exactly when no array stands directly in an array.
  lemma RoundTripExactly(j: Json)
    requires j.JObject? && Spelled(j)
    ensures var r := Parse(Print(j)); r.ok && Means(Print(j), Object(r.pairs), j) <==> Flat(j)
  {
    hide *;
    var t := Print(j);
    if Flat(j) {
      IsWritable(j);
      RoundTrip(j);
    } else {
      PrintIs(j);
      Whole(t);
      assert t[0] == OPEN_OBJECT;
      HasBoth(t, 0, [OPEN_OBJECT], PrintMembers(j, 0));
      Nests(j);
      MembersGoWrong(t, 1, j, 0, []);
      RootOpens(t);
      WrongIs(t, Parse(t), j);
    }
  }

  lemma WrongIs(t: Text, r: Pairs, j: Json)
    requires PairsGoWrong(t, r, j)
    ensures !(r.ok && Means(t, Object(r.pairs), j))
  {
  }

  // An object with an empty array in an array.
  function Nested(): Json {
    JObject([Member([], JArray([JArray([])]))])
  }

  // It does not survive.
  lemma NestedExample()
    ensures Spelled(Nested()) && Print(Nested()) == [123, 34, 34, 58, 91, 91, 93, 93, 125]
    ensures var r := Parse(Print(Nested())); !(r.ok && Means(Print(Nested()), Object(r.pairs), Nested()))
  {
    NestedText();
    hide Means;
    hide Parse;
    hide Print;
    var outer := JArray([JArray([])]);
    assert !FlatItem(outer.items[0]);
    assert !Flat(Nested().members[0].value);
    assert Spelled(outer.items[0]);
    RoundTripExactly(Nested());
  }

  lemma NestedText()
    ensures Print(Nested()) == [123, 34, 34, 58, 91, 91, 93, 93, 125]
  {
    var inner := JArray([]);
    var outer := JArray([inner]);
    assert Print(inner) == [OPEN_ARRAY] + [CLOSE_ARRAY];
    assert PrintItems(outer, 0) == Print(outer.items[0]) + [CLOSE_ARRAY];
    assert Print(outer) == [OPEN_ARRAY] + PrintItems(outer, 0);
    assert Print(outer) == [OPEN_ARRAY, OPEN_ARRAY, CLOSE_ARRAY, CLOSE_ARRAY];
    assert MembersAfter(Nested(), 0) == [CLOSE_OBJECT];
  }

  lemma {:induction false} MemberIsPrinted(j: Json, k: nat, i: nat)
    requires j.JObject? && k <= i < |j.members|
    ensures |PrintMembers(j, k)| >= 4 + |Print(j.members[i].value)|
    decreases i - k
  {
    hide Print;
    if k < i {
      MemberIsPrinted(j, k + 1, i);
    }
  }

  lemma {:induction false} ItemIsPrinted(j: Json, k: nat, i: nat)
    requires j.JArray? && k <= i < |j.items|
    ensures |PrintItems(j, k)| >= 1 + |Print(j.items[i])|
    decreases i - k
  {
    hide Print;
    if k < i {
      ItemIsPrinted(j, k + 1, i);
    }
  }

  lemma ArrayIsPrinted(j: Json)
    requires j.JArray?
    ensures |Print(j)| >= 2
  {
    if j.items != [] {
      ItemIsPrinted(j, 0, 0);
    }
  }

  lemma {:induction false} NestedIsLong(j: Json)
    requires !Flat(j)
    ensures |Print(j)| >= if j.JObject? then 9 else 4
  {
    match j
    case JObject(ms) =>
      var i :| 0 <= i < |ms| && !Flat(ms[i].value);
      NestedIsLong(ms[i].value);
      MemberIsPrinted(j, 0, i);
    case JArray(vs) =>
      var i :| 0 <= i < |vs| && !FlatItem(vs[i]);
      ItemIsPrinted(j, 0, i);
      if !Flat(vs[i]) {
        NestedIsLong(vs[i]);
      } else {
        ArrayIsPrinted(vs[i]);
      }
  }

  // No tree with a shorter text fails to survive.
  lemma NestedIsSmallest(j: Json)
    requires j.JObject? && Spelled(j)
    requires var r := Parse(Print(j)); !(r.ok && Means(Print(j), Object(r.pairs), j))
    ensures |Print(j)| >= |Print(Nested())|
  {
    hide *;
    RoundTripExactly(j);
    NestedIsLong(j);
    NestedText();
  }

  // A value stands for at most one tree.
  lemma {:induction false} MeansOne(t: Text, v: Value, i: Json, j: Json)
    requires Means(t, v, i) && Means(t, v, j)
    ensures i == j
    decreases i
  {
    match i
    case JObject(ms) =>
      forall k | 0 <= k < |ms| ensures ms[k] == j.members[k] {
        MeansOne(t, v.pairs[k].value, ms[k].value, j.members[k].value);
      }
      assert ms == j.members;
    case JArray(vs) =>
      forall k | 0 <= k < |vs| ensures vs[k] == j.items[k] {
        MeansOne(t, v.items[k], vs[k], j.items[k]);
      }
      assert vs == j.items;
    case _ =>
  }

  // Different trees that survive have different texts.
  lemma PrintIsInjective(i: Json, j: Json)
    requires i.JObject? && Writable(i) && j.JObject? && Writable(j) && Print(i) == Print(j)
    ensures i == j
  {
    hide *;
    RoundTrip(i);
    RoundTrip(j);
    MeansOne(Print(i), Object(Parse(Print(i)).pairs), i, j);
  }

  // The parser itself on the compact text of a tree, unless it runs out of memory.
  method Reparse(text: Text, script: seq<bool>, ghost j: Json) returns (code: Code, parser: Parser)
    requires j.JObject? && Spelled(j) && text == Print(j)
    ensures code == MemoryError <==> parser.memory.refused > 0
    ensures code != MemoryError ==> (code == Accepted && Means(text, Object(parser.root.contents), j) <==> Flat(j))
  {
    hide *;
    PrintIs(j);
    assert text[0] == OPEN_OBJECT;
    RootOpens(text);
    RoundTripExactly(j);
    parser := new Parser(text, script);
    code := parser.Run();
  }
}
