// The language the JSON parser accepts, as functions of the text and a position: what is read from
// there, whether it is accepted, and the value with its slices of the text. Models the UTF-8 parse of
// hypertext/libht/json.c.
module JsonGrammar {
  import opened HyperText

  const TAB: Byte := 9
  const LF: Byte := 10
  const CR: Byte := 13
  const SPACE: Byte := 32
  const QUOTE: Byte := 34
  const APOSTROPHE: Byte := 39
  const PLUS: Byte := 43
  const COMMA: Byte := 44
  const MINUS: Byte := 45
  const DOT: Byte := 46
  const COLON: Byte := 58
  const OPEN_ARRAY: Byte := 91
  const BACKSLASH: Byte := 92
  const CLOSE_ARRAY: Byte := 93
  const UNDERSCORE: Byte := 95
  const OPEN_OBJECT: Byte := 123
  const CLOSE_OBJECT: Byte := 125

  const TRUE_WORD: Text := [116, 114, 117, 101]
  const FALSE_WORD: Text := [102, 97, 108, 115, 101]
  const NULL_WORD: Text := [110, 117, 108, 108]

  predicate IsDigit(c: nat) { 48 <= c <= 57 }
  predicate IsUpper(c: nat) { 65 <= c <= 90 }
  predicate IsLower(c: nat) { 97 <= c <= 122 }
  predicate IsLetter(c: nat) { IsUpper(c) || IsLower(c) }
  predicate IsHexLetter(c: nat) { 97 <= c <= 102 || 65 <= c <= 70 }
  predicate IsSpace(c: nat) { c == SPACE || c == TAB || c == LF || c == CR }
  predicate IsQuote(c: nat) { c == QUOTE || c == APOSTROPHE }

  datatype Slice = Slice(data: nat, size: nat)

  datatype Value =
    | String(s: Slice)
    | Number(s: Slice)
    | Object(pairs: seq<Pair>)
    | Array(items: seq<Value>)
    | True
    | False
    | Null
  {
    predicate IsWord() {
      Number? || True? || False? || Null?
    }
  }

  datatype Pair = Pair(name: Slice, value: Value)

  datatype Option<T> = Nothing | Just(value: T)

  // Where a scan stopped: the last symbol, its position, and the next unread position.
  datatype Scan = Scan(ok: bool, c: nat, pos: nat, next: nat)

  datatype Parsed = Parsed(ok: bool, value: Option<Value>, c: nat, next: nat)

  datatype Items = Items(ok: bool, values: seq<Value>, c: nat, next: nat)

  datatype Pairs = Pairs(ok: bool, pairs: seq<Pair>, c: nat, next: nat)

  datatype Name = Name(ok: bool, slice: Slice, c: nat, next: nat)

  // ---------- numbers ----------

  datatype Base = Unknown | Octal | Decimal | Hex

  datatype Action = Stop | Fail | Go(base: Base)

  // What symbol number i of a number does.
  function NumberAction(c: nat, base: Base, i: nat): Action {
    if IsDigit(c) then Go(if base == Unknown then Decimal else base)
    else if (c == 120 || c == 88) && i == 1 && base == Octal then Go(Hex)
    else if IsHexLetter(c) then (if base == Hex then Go(base) else Fail)
    else if IsSpace(c) || c == COMMA || c == CLOSE_ARRAY || c == CLOSE_OBJECT then
      (if base == Unknown then Go(base) else Stop)
    else if (c == PLUS || c == MINUS) && base == Unknown then Go(base)
    else if c == DOT && (base == Decimal || base == Octal) then Go(base)
    else Fail
  }

  function NumberScan(t: Text, p: nat, c: nat, pos: nat, base: Base, i: nat): (r: Scan)
    requires p <= |t|
    ensures p <= r.next <= |t|
    ensures pos <= p ==> pos <= r.pos
    decreases |t| - p
  {
    match NumberAction(c, base, i)
    case Stop => Scan(true, c, pos, p)
    case Fail => Scan(false, c, pos, p)
    case Go(next) =>
      var s := Read(t, p);
      if s.c == 0 then Scan(true, 0, p, s.next)
      else NumberScan(t, s.next, s.c, p, next, (i + 1) % TWO_32)
  }

  function ParseNumber(t: Text, p: nat, c: nat, pos: nat): (r: Parsed)
    requires p <= |t|
    ensures p <= r.next <= |t|
  {
    var s := NumberScan(t, p, c, pos, if c == 48 then Octal else Unknown, 0);
    Parsed(s.ok, if s.ok then Just(Number(Slice(pos, Symbols(t, pos, s.pos)))) else Nothing, s.c, s.next)
  }

  // ---------- names ----------

  datatype NameAction = Ends | Bad | Part

  // What a symbol of a name does, given the quote the name opened with (0 for none) and whether the
  // name has a symbol yet.
  function NameStep(c: nat, quote: nat, begun: bool): NameAction {
    if IsLetter(c) || c == MINUS || c == UNDERSCORE then Part
    else if IsQuote(c) then (if c == quote then Ends else Bad)
    else if IsDigit(c) then (if begun then Part else Bad)
    else if c == COLON || IsSpace(c) then (if begun && quote == 0 then Ends else Bad)
    else Bad
  }

  function NameScan(t: Text, p: nat, c: nat, pos: nat, quote: nat, begun: bool): (r: Scan)
    requires p <= |t|
    ensures p <= r.next <= |t|
    ensures pos <= p ==> pos <= r.pos
    decreases |t| - p
  {
    match NameStep(c, quote, begun)
    case Ends => Scan(true, c, pos, p)
    case Bad => Scan(false, c, pos, p)
    case Part =>
      var s := Read(t, p);
      if s.c == 0 then Scan(true, 0, p, s.next) else NameScan(t, s.next, s.c, p, quote, true)
  }

  function ParseName(t: Text, p: nat, c: nat, pos: nat): (r: Name)
    requires p <= |t|
    ensures p <= r.next <= |t|
  {
    if IsQuote(c) then
      var s := Read(t, p);
      var e := NameScan(t, s.next, s.c, p, c, false);
      Name(e.ok, if e.ok then Slice(p, Symbols(t, p, e.pos)) else Slice(0, 0), e.c, e.next)
    else if IsLetter(c) || c == UNDERSCORE then
      var e := NameScan(t, p, c, pos, 0, true);
      Name(e.ok, if e.ok then Slice(pos, Symbols(t, pos, e.pos)) else Slice(0, 0), e.c, e.next)
    else Name(false, Slice(0, 0), c, p)
  }

  // ---------- strings and words ----------

  function StringScan(t: Text, p: nat, previous: nat, term: nat): (r: Scan)
    requires p <= |t|
    ensures p <= r.next <= |t| && r.ok && p <= r.pos
    decreases |t| - p
  {
    var s := Read(t, p);
    if s.c == 0 || (s.c == term && previous != BACKSLASH) then Scan(true, s.c, p, s.next)
    else StringScan(t, s.next, s.c, term)
  }

  datatype Word = Word(c: nat, size: nat, next: nat)

  // The run of lower-case letters from c on.
  function WordScan(t: Text, p: nat, c: nat, size: nat): (r: Word)
    requires p <= |t|
    ensures p <= r.next <= |t|
    decreases |t| - p, c
  {
    if !IsLower(c) then Word(c, size, p)
    else
      var s := Read(t, p);
      WordScan(t, s.next, s.c, (size + 1) % TWO_32)
  }

  // Each word is recognized by comparing as many letters as were read, so a start of it will do.
  function WordValue(t: Text, pos: nat, size: nat): Option<Value> {
    if SameStart(TRUE_WORD, t, pos, size) then Just(True)
    else if SameStart(FALSE_WORD, t, pos, size) then Just(False)
    else if SameStart(NULL_WORD, t, pos, size) then Just(Null)
    else Nothing
  }

  function ParseWord(t: Text, p: nat, c: nat, pos: nat): (r: Parsed)
    requires p <= |t|
    ensures p <= r.next <= |t|
  {
    var w := WordScan(t, p, c, 0);
    var v := WordValue(t, pos, w.size);
    Parsed(v.Just?, v, w.c, w.next)
  }

  // The letters counted are in the text.
  lemma {:induction false} WordFits(t: Text, p: nat, c: nat, size: nat, pos: nat)
    requires pos + size < p <= |t|
    ensures pos + WordScan(t, p, c, size).size <= |t|
    decreases |t| - p, c
  {
    if IsLower(c) {
      var s := Read(t, p);
      if s.c != 0 {
        WordFits(t, s.next, s.c, (size + 1) % TWO_32, pos);
      } else {
        assert WordScan(t, s.next, s.c, (size + 1) % TWO_32).size == (size + 1) % TWO_32;
      }
    }
  }

  // ---------- values ----------

  predicate StartsNumber(c: nat) {
    IsDigit(c) || c == MINUS || c == PLUS || c == DOT
  }

  // The value from symbol c on, which stands before position p; Nothing at a separator.
  function ParseValue(t: Text, p: nat, c: nat, pos: nat): (r: Parsed)
    requires p <= |t|
    ensures p <= r.next <= |t|
    decreases |t| - p, 1
  {
    if IsQuote(c) then
      var s := StringScan(t, p, c, c);
      Parsed(true, Just(String(Slice(p, Symbols(t, p, s.pos)))), s.c, s.next)
    else if c == OPEN_ARRAY then
      var a := ParseItems(t, p, []);
      Parsed(a.ok, Just(Array(a.values)), a.c, a.next)
    else if c == OPEN_OBJECT then
      var o := ParsePairs(t, p, Naming, Slice(0, 0), []);
      Parsed(o.ok, Just(Object(o.pairs)), o.c, o.next)
    else if StartsNumber(c) then ParseNumber(t, p, c, pos)
    else if IsLower(c) then ParseWord(t, p, c, pos)
    else if c == COMMA || c == CLOSE_OBJECT || c == CLOSE_ARRAY then Parsed(true, Nothing, c, p)
    else if IsSpace(c) then
      var s := Read(t, p);
      if s.c == 0 then Parsed(true, Nothing, 0, s.next) else ParseValue(t, s.next, s.c, p)
    else Parsed(false, Nothing, c, p)
  }

  datatype Reply = Skip | Keep | KeepAndEnd | End | Refuse

  // What an array does with a value that ended at symbol c.
  function ItemReply(v: Option<Value>, c: nat): Reply {
    match v
    case Nothing => if c == COMMA || IsSpace(c) then Skip else if c == CLOSE_ARRAY then End else Refuse
    case Just(String(_)) => if IsQuote(c) then Keep else Refuse
    case Just(Array(_)) => if c == CLOSE_ARRAY then KeepAndEnd else Refuse
    case Just(Object(_)) => if c == CLOSE_OBJECT then Keep else Refuse
    case Just(_) => if c == COMMA || IsSpace(c) then Keep else if c == CLOSE_ARRAY then KeepAndEnd else Refuse
  }

  // The rest of an array, after the values in done.
  function ParseItems(t: Text, p: nat, done: seq<Value>): (r: Items)
    requires p <= |t|
    ensures p <= r.next <= |t|
    decreases |t| - p, 0
  {
    var s := Read(t, p);
    if s.c == 0 then Items(true, done, 0, s.next)
    else
      var v := ParseValue(t, s.next, s.c, p);
      if !v.ok then Items(false, done, v.c, v.next)
      else
        match ItemReply(v.value, v.c)
        case Skip => ParseItems(t, v.next, done)
        case Keep => ParseItems(t, v.next, done + Kept(v.value))
        case KeepAndEnd => Items(true, done + Kept(v.value), v.c, v.next)
        case End => Items(true, done, v.c, v.next)
        case Refuse => Items(false, done, v.c, v.next)
  }

  function Kept<T>(v: Option<T>): seq<T> {
    if v.Just? then [v.value] else []
  }

  datatype Phase = Naming | Named | Valued

  datatype PairReply = Then(phase: Phase) | Last | Wrong

  // What an object does after the value of a pair.
  function PairStep(v: Option<Value>, c: nat): PairReply {
    match v
    case Nothing => if c == COMMA then Then(Naming) else Wrong
    case Just(String(_)) => if IsQuote(c) then Then(Valued) else Wrong
    case Just(Array(_)) => if c == CLOSE_ARRAY then Then(Valued) else Wrong
    case Just(Object(_)) => if c == CLOSE_OBJECT then Then(Valued) else Wrong
    case Just(_) =>
      if IsSpace(c) then Then(Valued) else if c == COMMA then Then(Naming) else if c == CLOSE_OBJECT then Last else Wrong
  }

  // The rest of an object: before a name, after a name, or after a value.
  function ParsePairs(t: Text, p: nat, phase: Phase, name: Slice, done: seq<Pair>): (r: Pairs)
    requires p <= |t|
    ensures p <= r.next <= |t|
    decreases |t| - p, 0
  {
    var s := Read(t, p);
    if s.c == 0 then Pairs(true, done, 0, s.next)
    else
      match phase
      case Naming =>
        if IsQuote(s.c) then
          var n := ParseName(t, s.next, s.c, p);
          if n.ok && IsQuote(n.c) then ParsePairs(t, n.next, Named, n.slice, done)
          else Pairs(false, done, n.c, n.next)
        else if IsLetter(s.c) || s.c == UNDERSCORE then
          var n := ParseName(t, s.next, s.c, p);
          if !n.ok then Pairs(false, done, n.c, n.next)
          else if n.c == COLON then ParsePair(t, n.next, n.slice, done)
          else ParsePairs(t, n.next, Named, n.slice, done)
        else if s.c == COMMA || s.c == OPEN_OBJECT || IsSpace(s.c) then ParsePairs(t, s.next, Naming, name, done)
        else Pairs(s.c == CLOSE_OBJECT, done, s.c, s.next)
      case Named =>
        if s.c == COLON then ParsePair(t, s.next, name, done)
        else if IsSpace(s.c) then ParsePairs(t, s.next, Named, name, done)
        else Pairs(false, done, s.c, s.next)
      case Valued =>
        if s.c == COMMA then ParsePairs(t, s.next, Naming, Slice(0, 0), done)
        else if IsSpace(s.c) then ParsePairs(t, s.next, Valued, name, done)
        else Pairs(s.c == CLOSE_OBJECT, done, s.c, s.next)
  }

  // From the colon on: the value of the pair, and the rest of the object.
  function ParsePair(t: Text, p: nat, name: Slice, done: seq<Pair>): (r: Pairs)
    requires p <= |t|
    ensures p <= r.next <= |t|
    decreases |t| - p, 2
  {
    var s := Read(t, p);
    var v := ParseValue(t, s.next, s.c, p);
    if !v.ok then Pairs(false, done, v.c, v.next)
    else
      var more := if v.value.Just? then done + [Pair(name, v.value.value)] else done;
      match PairStep(v.value, v.c)
      case Then(phase) => ParsePairs(t, v.next, phase, Slice(0, 0), more)
      case Last => Pairs(true, more, v.c, v.next)
      case Wrong => Pairs(false, done, v.c, v.next)
  }

  // The whole text: the pairs of the root object.
  function Parse(t: Text): (r: Pairs) {
    ParsePairs(t, Start(t), Naming, Slice(0, 0), [])
  }

  // ---------- what has been read stays read ----------

  lemma {:induction false} ItemsGrow(t: Text, p: nat, done: seq<Value>)
    requires p <= |t|
    ensures done <= ParseItems(t, p, done).values
    decreases |t| - p
  {
    hide ParseValue;
    hide ItemReply;
    var s := Read(t, p);
    if s.c != 0 {
      var v := ParseValue(t, s.next, s.c, p);
      if v.ok {
        match ItemReply(v.value, v.c)
        case Skip => ItemsGrow(t, v.next, done);
        case Keep => ItemsGrow(t, v.next, done + Kept(v.value));
        case _ =>
      }
    }
  }

  lemma {:induction false} PairsGrow(t: Text, p: nat, phase: Phase, name: Slice, done: seq<Pair>)
    requires p <= |t|
    ensures done <= ParsePairs(t, p, phase, name, done).pairs
    decreases |t| - p, 0
  {
    hide ParseName;
    hide ParsePair;
    var s := Read(t, p);
    if s.c != 0 {
      match phase
      case Naming =>
        if IsQuote(s.c) || IsLetter(s.c) || s.c == UNDERSCORE {
          var n := ParseName(t, s.next, s.c, p);
          PairGrows(t, n.next, n.slice, done);
          PairsGrow(t, n.next, Named, n.slice, done);
        } else {
          PairsGrow(t, s.next, Naming, name, done);
        }
      case Named =>
        PairGrows(t, s.next, name, done);
        PairsGrow(t, s.next, Named, name, done);
      case Valued =>
        PairsGrow(t, s.next, Naming, Slice(0, 0), done);
        PairsGrow(t, s.next, Valued, name, done);
    }
  }

  lemma {:induction false} PairGrows(t: Text, p: nat, name: Slice, done: seq<Pair>)
    requires p <= |t|
    ensures done <= ParsePair(t, p, name, done).pairs
    decreases |t| - p, 1
  {
    hide ParseValue;
    hide ParsePairs;
    var s := Read(t, p);
    var v := ParseValue(t, s.next, s.c, p);
    if v.ok {
      var more := if v.value.Just? then done + [Pair(name, v.value.value)] else done;
      match PairStep(v.value, v.c)
      case Then(phase) => PairsGrow(t, v.next, phase, Slice(0, 0), more);
      case _ =>
    }
  }
}
