// What holds of every parse of every text, accepted or not.
module JsonFacts {
  import opened HyperText
  import opened JsonGrammar

  ghost predicate SliceIn(s: Slice, n: nat) {
    s.data + s.size <= n
  }

  // Every name, string and number of the value is a piece of a text of n bytes.
  ghost predicate ValueIn(v: Value, n: nat) {
    match v
    case String(s) => SliceIn(s, n)
    case Number(s) => SliceIn(s, n)
    case Object(pairs) => forall i :: 0 <= i < |pairs| ==> PairIn(pairs[i], n)
    case Array(items) => forall i :: 0 <= i < |items| ==> ValueIn(items[i], n)
    case _ => true
  }

  ghost predicate PairIn(p: Pair, n: nat) {
    SliceIn(p.name, n) && ValueIn(p.value, n)
  }

  ghost predicate ItemsIn(items: seq<Value>, n: nat) {
    forall i :: 0 <= i < |items| ==> ValueIn(items[i], n)
  }

  ghost predicate PairsIn(pairs: seq<Pair>, n: nat) {
    forall i :: 0 <= i < |pairs| ==> PairIn(pairs[i], n)
  }

  lemma PieceIn(t: Text, a: nat, b: nat)
    requires a <= b && a <= |t|
    ensures SliceIn(Slice(a, Symbols(t, a, b)), |t|)
  {
  }

  lemma NameIn(t: Text, p: nat, c: nat, pos: nat)
    requires pos <= p <= |t|
    ensures SliceIn(ParseName(t, p, c, pos).slice, |t|)
  {
    hide NameScan;
    hide Symbols;
    hide SliceIn;
    if IsQuote(c) {
      var s := Read(t, p);
      PieceIn(t, p, NameScan(t, s.next, s.c, p, c, false).pos);
    } else {
      PieceIn(t, pos, NameScan(t, p, c, pos, 0, true).pos);
    }
    ZeroIn(|t|);
  }

  lemma ZeroIn(n: nat)
    ensures SliceIn(Slice(0, 0), n)
  {
  }

  lemma {:induction false} ValueFits(t: Text, p: nat, c: nat, pos: nat)
    requires pos <= p <= |t|
    ensures var r := ParseValue(t, p, c, pos); r.ok && r.value.Just? ==> ValueIn(r.value.value, |t|)
    decreases |t| - p, 1
  {
    hide Symbols;
    hide SliceIn;
    hide NumberScan;
    hide StringScan;
    hide ParseWord;
    if IsQuote(c) {
      PieceIn(t, p, StringScan(t, p, c, c).pos);
    } else if c == OPEN_ARRAY {
      ItemsFit(t, p, []);
    } else if c == OPEN_OBJECT {
      ZeroIn(|t|);
      PairsFit(t, p, Naming, Slice(0, 0), []);
    } else if StartsNumber(c) {
      PieceIn(t, pos, NumberScan(t, p, c, pos, if c == 48 then Octal else Unknown, 0).pos);
    } else if IsLower(c) {
      WordIn(t, p, c, pos, |t|);
    } else if IsSpace(c) {
      var s := Read(t, p);
      if s.c != 0 {
        ValueFits(t, s.next, s.c, p);
      }
    }
  }

  lemma WordIn(t: Text, p: nat, c: nat, pos: nat, n: nat)
    requires p <= |t|
    ensures var r := ParseWord(t, p, c, pos); r.ok ==> r.value.Just? && ValueIn(r.value.value, n)
  {
  }

  lemma {:induction false} ItemsFit(t: Text, p: nat, done: seq<Value>)
    requires p <= |t| && ItemsIn(done, |t|)
    ensures ItemsIn(ParseItems(t, p, done).values, |t|)
    decreases |t| - p, 0
  {
    hide ParseValue;
    hide ValueIn;
    var s := Read(t, p);
    if s.c != 0 {
      ValueFits(t, s.next, s.c, p);
      var v := ParseValue(t, s.next, s.c, p);
      if v.ok {
        match ItemReply(v.value, v.c)
        case Skip => ItemsFit(t, v.next, done);
        case Keep => ItemsFit(t, v.next, done + Kept(v.value));
        case _ =>
      }
    }
  }

  lemma {:induction false} PairsFit(t: Text, p: nat, phase: Phase, name: Slice, done: seq<Pair>)
    requires p <= |t| && SliceIn(name, |t|) && PairsIn(done, |t|)
    ensures PairsIn(ParsePairs(t, p, phase, name, done).pairs, |t|)
    decreases |t| - p, 0
  {
    hide ParseName;
    hide ParsePair;
    hide PairsIn;
    hide SliceIn;
    ZeroIn(|t|);
    var s := Read(t, p);
    if s.c != 0 {
      match phase
      case Naming =>
        if IsQuote(s.c) || IsLetter(s.c) || s.c == UNDERSCORE {
          var n := ParseName(t, s.next, s.c, p);
          NameIn(t, s.next, s.c, p);
          if IsQuote(s.c) {
            PairsFit(t, n.next, Named, n.slice, done);
          } else if n.c == COLON {
            PairFits(t, n.next, n.slice, done);
          } else {
            PairsFit(t, n.next, Named, n.slice, done);
          }
        } else {
          PairsFit(t, s.next, Naming, name, done);
        }
      case Named =>
        if s.c == COLON {
          PairFits(t, s.next, name, done);
        } else {
          PairsFit(t, s.next, Named, name, done);
        }
      case Valued =>
        PairsFit(t, s.next, Naming, Slice(0, 0), done);
        PairsFit(t, s.next, Valued, name, done);
    }
  }

  lemma {:induction false} PairFits(t: Text, p: nat, name: Slice, done: seq<Pair>)
    requires p <= |t| && SliceIn(name, |t|) && PairsIn(done, |t|)
    ensures PairsIn(ParsePair(t, p, name, done).pairs, |t|)
    decreases |t| - p, 2
  {
    hide ParseValue;
    hide ParsePairs;
    hide SliceIn;
    hide ValueIn;
    ZeroIn(|t|);
    var s := Read(t, p);
    ValueFits(t, s.next, s.c, p);
    var v := ParseValue(t, s.next, s.c, p);
    if v.ok {
      var more := if v.value.Just? then done + [Pair(name, v.value.value)] else done;
      match PairStep(v.value, v.c)
      case Then(phase) => PairsFit(t, v.next, phase, Slice(0, 0), more);
      case _ =>
    }
  }

  // Whatever the text, every slice in the tree lies within it.
  lemma SlicesInText(t: Text)
    ensures PairsIn(Parse(t).pairs, |t|)
  {
    hide ParsePairs;
    ZeroIn(|t|);
    PairsFit(t, Start(t), Naming, Slice(0, 0), []);
  }

  // A run of letters is taken for the first of true, false and null that it begins; the whole word is
  // not asked for.
  lemma WordsMayBeCutShort(t: Text, pos: nat, size: nat)
    requires 0 < size && pos + size <= |t| && forall i :: pos <= i < pos + size ==> IsLower(t[i])
    ensures var run := t[pos..pos + size];
      WordValue(t, pos, size) ==
        if run <= TRUE_WORD then Just(True)
        else if run <= FALSE_WORD then Just(False)
        else if run <= NULL_WORD then Just(Null)
        else Nothing
  {
    StartIsPrefix(TRUE_WORD, t, pos, size);
    StartIsPrefix(FALSE_WORD, t, pos, size);
    StartIsPrefix(NULL_WORD, t, pos, size);
  }

  lemma StartIsPrefix(word: Text, t: Text, pos: nat, size: nat)
    requires pos + size <= |t| && forall i :: pos <= i < pos + size ==> IsLower(t[i])
    ensures SameStart(word, t, pos, size) <==> t[pos..pos + size] <= word
  {
    var run := t[pos..pos + size];
    if size > |word| {
      assert Letter(word, |word|) != t[pos + |word|];
    } else if SameStart(word, t, pos, size) {
      forall i | 0 <= i < size ensures run[i] == word[i] {
        assert Letter(word, i) == t[pos + i];
      }
    } else if run <= word {
      forall i | 0 <= i < size ensures Letter(word, i) == t[pos + i] {
        assert run[i] == word[i];
      }
    }
  }
}
