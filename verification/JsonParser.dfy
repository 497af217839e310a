// The JSON parser: parse_object, parse_array, parse_value and the scanners of
// hypertext/libht/json.c, over one shared read position.
module JsonParser {
  import opened HyperText
  import opened JsonSlots
  import opened JsonGrammar

  datatype Code = Accepted | ParseError | MemoryError

  // What a reader reports: what the grammar says if no memory was refused, and otherwise the memory error
  // after a single refusal.
  ghost predicate ValueRead(goal: Parsed, code: Code, refusals: int, value: Option<Value>, c: nat, next: nat) {
    if code == MemoryError then refusals == 1
    else refusals == 0 && goal == Parsed(code == Accepted, value, c, next)
  }

  // The same for a table; when memory was refused it holds what came first.
  ghost predicate ItemsRead(goal: Items, code: Code, refusals: int, values: seq<Value>, c: nat, next: nat) {
    if code == MemoryError then refusals == 1 && values <= goal.values
    else refusals == 0 && goal == Items(code == Accepted, values, c, next)
  }

  ghost predicate PairsRead(goal: Pairs, code: Code, refusals: int, pairs: seq<Pair>, c: nat, next: nat) {
    if code == MemoryError then refusals == 1 && pairs <= goal.pairs
    else refusals == 0 && goal == Pairs(code == Accepted, pairs, c, next)
  }

  class Parser {
    const htc: Context
    const root: Slots<Pair>
    const memory: Memory

    // json_create_context, and the start of json_parse.
    constructor (content: Text, script: seq<bool>)
      requires IsUtf8(content)
      ensures htc.Valid() && htc.content == content && htc.cPos == Start(content)
      ensures root.Valid() && root.contents == []
      ensures memory.script == script && memory.refused == 0
      ensures fresh(htc) && fresh(root) && fresh(root.slots) && fresh(memory)
    {
      htc := new Context(content);
      root := new Slots<Pair>();
      memory := new Memory(script);
    }

    method ScanNumber(first: nat, cpos: nat) returns (ok: bool, value: Option<Value>, c: nat)
      requires htc.Valid()
      modifies htc
      ensures htc.Valid()
      ensures ParseNumber(htc.content, old(htc.cPos), first, cpos) == Parsed(ok, value, c, htc.cPos)
    {
      hide Read;
      hide Symbols;
      var pos: nat := cpos;
      var i: nat := 0;
      var nt := if first == 48 then Octal else Unknown;
      ok, c, value := true, first, Nothing;
      ghost var t := htc.content;
      ghost var goal := NumberScan(t, htc.cPos, c, pos, nt, 0);
      var more := true;
      while more
        invariant htc.Valid() && old(htc.cPos) <= htc.cPos
        invariant more ==> ok && NumberScan(t, htc.cPos, c, pos, nt, i) == goal
        invariant !more ==> goal == Scan(ok, c, pos, htc.cPos)
        decreases |htc.content| - htc.cPos, more
      {
        if 48 <= c <= 57 {
          if nt == Unknown {
            nt := Decimal;
          }
        } else if (c == 120 || c == 88) && i == 1 && nt == Octal {
          nt := Hex;
        } else if (97 <= c <= 102) || (65 <= c <= 70) {
          if nt != Hex {
            ok, more := false, false;
          }
        } else if c == SPACE || c == COMMA || c == LF || c == TAB || c == CR || c == CLOSE_ARRAY || c == CLOSE_OBJECT {
          if nt != Unknown {
            more := false;
          }
        } else if (c == PLUS || c == MINUS) && nt == Unknown {
        } else if c == DOT && (nt == Decimal || nt == Octal) {
        } else {
          ok, more := false, false;
        }
        if more {
          i := (i + 1) % TWO_32;
          c, pos := htc.ReadUtf8();
          if c == 0 {
            more := false;
          }
        }
      }
      if ok {
        value := Just(Number(Slice(cpos, Symbols(htc.content, cpos, pos))));
      }
    }

    method ScanName(first: nat, cpos: nat) returns (ok: bool, slice: Slice, c: nat)
      requires htc.Valid()
      modifies htc
      ensures htc.Valid()
      ensures ParseName(htc.content, old(htc.cPos), first, cpos) == Name(ok, slice, c, htc.cPos)
    {
      hide NameScan;
      ok, slice, c := true, Slice(0, 0), first;
      var pos: nat := cpos;
      var strophe, quotes, symbol := false, false, false;
      if c == APOSTROPHE {
        strophe := true;
        c, pos := htc.ReadUtf8();
      } else if c == QUOTE {
        quotes := true;
        c, pos := htc.ReadUtf8();
      } else if (65 <= c <= 90) || (97 <= c <= 122) || c == UNDERSCORE {
        symbol := true;
      } else {
        ok := false;
        return;
      }
      var data: nat := pos;
      ok, c, pos := ScanNameRest(c, pos, strophe, quotes, symbol);
      if ok {
        slice := Slice(data, Symbols(htc.content, data, pos));
      }
    }

    // The cases of parse_string_name: whether the name goes on behind symbol c, and if not, whether it is
    // a name.
    method JudgeName(c: nat, strophe: bool, quotes: bool, symbol: bool) returns (more: bool, ok: bool)
      requires !(strophe && quotes)
      ensures var quote := if quotes then QUOTE else if strophe then APOSTROPHE else 0;
        NameStep(c, quote, symbol) == if more then Part else if ok then Ends else Bad
      ensures more ==> ok
    {
      more, ok := true, true;
      if (65 <= c <= 90) || (97 <= c <= 122) || c == MINUS || c == UNDERSCORE {
      } else if c == APOSTROPHE {
        ok, more := strophe, false;
      } else if c == QUOTE {
        ok, more := quotes, false;
      } else if 48 <= c <= 57 {
        if !symbol {
          ok, more := false, false;
        }
      } else if c == COLON || c == SPACE || c == TAB || c == LF || c == CR {
        ok, more := symbol && !quotes && !strophe, false;
      } else {
        ok, more := false, false;
      }
    }

    // The loop of parse_string_name.
    method ScanNameRest(first: nat, cpos: nat, strophe: bool, quotes: bool, begun: bool)
      returns (ok: bool, c: nat, pos: nat)
      requires htc.Valid() && !(strophe && quotes)
      modifies htc
      ensures htc.Valid()
      ensures var quote := if quotes then QUOTE else if strophe then APOSTROPHE else 0;
        NameScan(htc.content, old(htc.cPos), first, cpos, quote, begun) == Scan(ok, c, pos, htc.cPos)
    {
      hide Read;
      hide NameStep;
      ok, c, pos := true, first, cpos;
      var symbol := begun;
      ghost var t := htc.content;
      ghost var quote := if quotes then QUOTE else if strophe then APOSTROPHE else 0;
      ghost var goal := NameScan(t, htc.cPos, c, pos, quote, begun);
      var more := true;
      while more
        invariant htc.Valid() && old(htc.cPos) <= htc.cPos
        invariant more ==> ok && NameScan(t, htc.cPos, c, pos, quote, symbol) == goal
        invariant !more ==> goal == Scan(ok, c, pos, htc.cPos)
        decreases |htc.content| - htc.cPos, more
      {
        more, ok := JudgeName(c, strophe, quotes, symbol);
        if more {
          symbol := true;
          c, pos := htc.ReadUtf8();
          if c == 0 {
            more := false;
          }
        }
      }
    }

    // The string behind the opening quote first.
    method ScanString(first: nat) returns (value: Value, c: nat)
      requires htc.Valid() && IsQuote(first)
      modifies htc
      ensures htc.Valid()
      ensures var s := StringScan(htc.content, old(htc.cPos), first, first);
        c == s.c && htc.cPos == s.next
        && value == String(Slice(old(htc.cPos), Symbols(htc.content, old(htc.cPos), s.pos)))
    {
      hide Read;
      hide Symbols;
      var data: nat := htc.cPos;
      var previous: nat := first;
      ghost var t := htc.content;
      ghost var goal := StringScan(t, data, first, first);
      c := 0;
      var pos: nat := data;
      var more := true;
      while more
        invariant htc.Valid() && data <= htc.cPos
        invariant more ==> StringScan(t, htc.cPos, previous, first) == goal
        invariant !more ==> goal == Scan(true, c, pos, htc.cPos)
        decreases |htc.content| - htc.cPos, more
      {
        c, pos := htc.ReadUtf8();
        if c == 0 || (c == first && previous != BACKSLASH) {
          more := false;
        }
        previous := c;
      }
      value := String(Slice(data, Symbols(htc.content, data, pos)));
    }

    method ScanWord(first: nat, cpos: nat) returns (ok: bool, value: Option<Value>, c: nat)
      requires htc.Valid() && cpos < htc.cPos
      modifies htc
      ensures htc.Valid()
      ensures ParseWord(htc.content, old(htc.cPos), first, cpos) == Parsed(ok, value, c, htc.cPos)
    {
      c := first;
      var size: nat := 0;
      ghost var t := htc.content;
      ghost var goal := WordScan(t, htc.cPos, c, 0);
      WordFits(t, htc.cPos, c, 0, cpos);
      while 97 <= c <= 122
        invariant htc.Valid() && old(htc.cPos) <= htc.cPos
        invariant WordScan(t, htc.cPos, c, size) == goal
        decreases |htc.content| - htc.cPos, c
      {
        var pos;
        c, pos := htc.ReadUtf8();
        size := (size + 1) % TWO_32;
      }
      ok, value := true, Nothing;
      var r := htc.Compare(TRUE_WORD, cpos, size);
      if r == 0 {
        value := Just(True);
        return;
      }
      r := htc.Compare(FALSE_WORD, cpos, size);
      if r == 0 {
        value := Just(False);
        return;
      }
      r := htc.Compare(NULL_WORD, cpos, size);
      if r == 0 {
        value := Just(Null);
      } else {
        ok := false;
      }
    }

    // parse_value: looks for a value from the symbol first on.
    method ReadValue(first: nat, cpos: nat) returns (code: Code, value: Option<Value>, c: nat)
      requires htc.Valid() && cpos <= htc.cPos && (first != 0 ==> cpos < htc.cPos)
      modifies htc, memory
      ensures htc.Valid() && old(htc.cPos) <= htc.cPos
      ensures ValueRead(ParseValue(htc.content, old(htc.cPos), first, cpos), code, memory.refused - old(memory.refused),
                        value, c, htc.cPos)
      decreases |htc.content| - htc.cPos, 1
    {
      hide Read;
      code, value, c := Accepted, Nothing, first;
      var pos: nat := cpos;
      ghost var t := htc.content;
      ghost var goal := ParseValue(t, htc.cPos, c, pos);
      while IsSpace(c)
        invariant htc.Valid() && old(htc.cPos) <= htc.cPos && pos <= htc.cPos && (c != 0 ==> pos < htc.cPos)
        invariant memory.refused == old(memory.refused)
        invariant c == 0 && first != 0 ==> goal == Parsed(true, Nothing, 0, htc.cPos)
        invariant c != 0 || first == 0 ==> ParseValue(t, htc.cPos, c, pos) == goal
        decreases |htc.content| - htc.cPos, c
      {
        c, pos := htc.ReadUtf8();
      }
      if c == 0 && first != 0 {
        return;
      }
      if IsQuote(c) {
        var s;
        s, c := ScanString(c);
        value := Just(s);
      } else if c == OPEN_ARRAY {
        var table := new Slots<Value>();
        code, c := ReadItems(table, c);
        var items := table.Values();
        value := Just(Array(items));
      } else if c == OPEN_OBJECT {
        var table := new Slots<Pair>();
        code, c := ReadPairs(table, c);
        var pairs := table.Values();
        value := Just(Object(pairs));
      } else if IsDigit(c) || c == MINUS || c == PLUS || c == DOT {
        var ok;
        ok, value, c := ScanNumber(c, pos);
        code := Judged(ok);
      } else if IsLower(c) {
        var ok;
        ok, value, c := ScanWord(c, pos);
        code := Judged(ok);
      } else if c != COMMA && c != CLOSE_OBJECT && c != CLOSE_ARRAY {
        code := ParseError;
      }
    }

    // parse_array: the values go into the table one by one.
    method ReadItems(table: Slots<Value>, first: nat) returns (code: Code, c: nat)
      requires htc.Valid() && table.Valid() && first == OPEN_ARRAY
      modifies htc, memory, table, table.slots
      ensures htc.Valid() && table.Valid() && old(htc.cPos) <= htc.cPos
      ensures ItemsRead(ParseItems(htc.content, old(htc.cPos), old(table.contents)), code,
                        memory.refused - old(memory.refused), table.contents, c, htc.cPos)
      decreases |htc.content| - htc.cPos, 0
    {
      hide Read;
      hide ParseValue;
      code, c := Accepted, 0;
      ghost var t := htc.content;
      ghost var goal := ParseItems(t, htc.cPos, table.contents);
      var more := true;
      while more
        invariant htc.Valid() && table.Valid() && old(htc.cPos) <= htc.cPos
        invariant table.slots == old(table.slots) || fresh(table.slots)
        invariant more ==> code == Accepted && memory.refused == old(memory.refused)
        invariant more ==> ParseItems(t, htc.cPos, table.contents) == goal
        invariant !more ==> ItemsRead(goal, code, memory.refused - old(memory.refused), table.contents, c, htc.cPos)
        decreases |htc.content| - htc.cPos, more
      {
        ItemsGrow(t, htc.cPos, table.contents);
        var pos: nat;
        c, pos := htc.ReadUtf8();
        if c == 0 {
          more := false;
        } else {
          var v;
          code, v, c := ReadValue(c, pos);
          if code == Accepted {
            var ok, keep;
            ok, keep, more := JudgeItem(v, c);
            code := Judged(ok);
            if ok && keep {
              var added := table.Add(memory, v.value);
              if !added {
                code, more := MemoryError, false;
              }
            }
          } else {
            more := false;
          }
        }
      }
    }

    // The cases of parse_array: whether the value may end at symbol c, goes into the table, and is
    // followed by more.
    method JudgeItem(v: Option<Value>, c: nat) returns (ok: bool, keep: bool, more: bool)
      ensures ItemReply(v, c) ==
        if !ok then Refuse else if keep then (if more then Keep else KeepAndEnd) else if more then Skip else End
      ensures keep ==> v.Just?
      ensures !ok ==> !more
    {
      ok, keep, more := true, v.Just?, true;
      if v.Nothing? && (c == COMMA || IsSpace(c)) {
      } else if v.Nothing? && c == CLOSE_ARRAY {
        more := false;
      } else if v.Just? && v.value.String? && IsQuote(c) {
      } else if v.Just? && v.value.Array? && c == CLOSE_ARRAY {
      } else if v.Just? && v.value.Object? && c == CLOSE_OBJECT {
      } else if v.Just? && v.value.IsWord() && (c == COMMA || IsSpace(c)) {
      } else if v.Just? && v.value.IsWord() && c == CLOSE_ARRAY {
        more := false;
      } else {
        ok, more := false, false;
      }
      // an array that ends with an array is over, too
      if c == CLOSE_ARRAY {
        more := false;
      }
    }

    // parse_object: the pairs go into the table one by one. The root object has no opening brace of
    // its own.
    method ReadPairs(table: Slots<Pair>, first: nat) returns (code: Code, c: nat)
      requires htc.Valid() && table.Valid() && first == OPEN_OBJECT
      modifies htc, memory, table, table.slots
      ensures htc.Valid() && table.Valid() && old(htc.cPos) <= htc.cPos
      ensures PairsRead(ParsePairs(htc.content, old(htc.cPos), Naming, Slice(0, 0), old(table.contents)), code,
                        memory.refused - old(memory.refused), table.contents, c, htc.cPos)
      decreases |htc.content| - htc.cPos, 0
    {
      hide Read;
      hide ParseName;
      hide ParsePair;
      code, c := Accepted, 0;
      ghost var t := htc.content;
      ghost var goal := ParsePairs(t, htc.cPos, Naming, Slice(0, 0), table.contents);
      var phase := Naming;
      var name := Slice(0, 0);
      var more := true;
      while more
        invariant htc.Valid() && table.Valid() && old(htc.cPos) <= htc.cPos
        invariant table.slots == old(table.slots) || fresh(table.slots)
        invariant more ==> code == Accepted && memory.refused == old(memory.refused)
        invariant more ==> ParsePairs(t, htc.cPos, phase, name, table.contents) == goal
        invariant !more ==> PairsRead(goal, code, memory.refused - old(memory.refused), table.contents, c, htc.cPos)
        decreases |htc.content| - htc.cPos, more
      {
        var pos: nat;
        var ok, atValue := true, false;
        c, pos := htc.ReadUtf8();
        if c == 0 {
          more := false;
        } else if phase == Naming {
          if IsQuote(c) {
            phase := Named;
            ok, name, c := ScanName(c, pos);
            ok := ok && IsQuote(c);
            more := ok;
          } else if IsLetter(c) || c == UNDERSCORE {
            phase := Named;
            ok, name, c := ScanName(c, pos);
            more := ok;
            atValue := ok && c == COLON;
          } else if c == COMMA || c == OPEN_OBJECT || IsSpace(c) {
          } else {
            ok, more := c == CLOSE_OBJECT, false;
          }
        } else if phase == Named {
          if c == COLON {
            atValue := true;
          } else if !IsSpace(c) {
            ok, more := false, false;
          }
        } else {
          if c == COMMA {
            phase, name := Naming, Slice(0, 0);
          } else if !IsSpace(c) {
            ok, more := c == CLOSE_OBJECT, false;
          }
        }
        code := Judged(ok);
        if atValue {
          code, c, phase, more := ReadPair(table, name);
          name := Slice(0, 0);
        }
      }
    }

    // From the colon on: the value of a pair.
    method ReadPair(table: Slots<Pair>, name: Slice) returns (code: Code, c: nat, phase: Phase, more: bool)
      requires htc.Valid() && table.Valid()
      modifies htc, memory, table, table.slots
      ensures htc.Valid() && table.Valid() && old(htc.cPos) <= htc.cPos
      ensures table.slots == old(table.slots) || fresh(table.slots)
      ensures var goal := ParsePair(htc.content, old(htc.cPos), name, old(table.contents));
        if more then code == Accepted && memory.refused == old(memory.refused) &&
                     goal == ParsePairs(htc.content, htc.cPos, phase, Slice(0, 0), table.contents)
        else PairsRead(goal, code, memory.refused - old(memory.refused), table.contents, c, htc.cPos)
      decreases |htc.content| - htc.cPos, 2
    {
      hide Read;
      hide ParseValue;
      hide ParsePairs;
      PairGrows(htc.content, htc.cPos, name, table.contents);
      var pos: nat;
      phase, more := Valued, false;
      c, pos := htc.ReadUtf8();
      var v;
      code, v, c := ReadValue(c, pos);
      if code == Accepted {
        var ok;
        ok, phase, more := JudgePair(v, c);
        code := Judged(ok);
        if ok && v.Just? {
          var added := table.Add(memory, Pair(name, v.value));
          if !added {
            code, more := MemoryError, false;
          }
        }
      }
    }

    // The cases of parse_object after a value.
    method JudgePair(v: Option<Value>, c: nat) returns (ok: bool, phase: Phase, more: bool)
      ensures PairStep(v, c) == if !ok then Wrong else if more then Then(phase) else Last
      ensures !ok ==> !more
    {
      ok, phase, more := true, Valued, true;
      if v.Nothing? && c == COMMA {
        phase := Naming;
      } else if v.Just? && v.value.String? && IsQuote(c) {
      } else if v.Just? && v.value.Array? && c == CLOSE_ARRAY {
      } else if v.Just? && v.value.Object? && c == CLOSE_OBJECT {
      } else if v.Just? && v.value.IsWord() && IsSpace(c) {
      } else if v.Just? && v.value.IsWord() && c == COMMA {
        phase := Naming;
      } else if v.Just? && v.value.IsWord() && c == CLOSE_OBJECT {
        more := false;
      } else {
        ok, more := false, false;
      }
    }

    // json_parse: the pairs of the root object, up to the first error. Memory is refused at most once,
    // exactly when the result says so, and the root then has the first of the pairs.
    method Run() returns (code: Code)
      requires htc.Valid() && htc.cPos == Start(htc.content) && root.Valid() && root.contents == []
      modifies htc, memory, root, root.slots
      ensures root.Valid() && htc.Valid()
      ensures code == MemoryError <==> memory.refused > old(memory.refused)
      ensures code == MemoryError ==>
        memory.refused == old(memory.refused) + 1 && root.contents <= Parse(htc.content).pairs
      ensures code != MemoryError ==>
        (code == Accepted <==> Parse(htc.content).ok) && root.contents == Parse(htc.content).pairs
    {
      hide ParsePairs;
      var c;
      code, c := ReadPairs(root, OPEN_OBJECT);
    }
  }

  function Judged(ok: bool): Code {
    if ok then Accepted else ParseError
  }
}
