// The hypertext context: reading symbols of a UTF-8 text one by one, measuring and comparing pieces of
// it. Models the UTF-8 part of hypertext/libht/context.c.
module HyperText {

  const TWO_32: nat := 0x1_0000_0000

  type Byte = b: nat | b < 256

  type Text = seq<Byte>

  // A symbol as the reader delivers it, and where the next one starts. Symbol 0 is the end.
  datatype Symbol = Symbol(c: nat, next: nat)

  // A 32-bit word with one more byte pushed in from the right.
  function Pushed(r: nat, b: Byte): nat {
    (r % 0x100_0000) * 256 + b
  }

  // The bytes after the first: one for each leading 1 bit beyond the first, in a 32-bit word.
  function Trail(t: Text, q: nat, lead: Byte, r: nat): (s: Symbol)
    requires q <= |t|
    ensures q <= s.next <= |t|
    decreases |t| - q
  {
    if lead >= 0xC0 && q < |t| then Trail(t, q + 1, (lead * 2) % 256, Pushed(r, t[q]))
    else Symbol(r, q)
  }

  function Read(t: Text, p: nat): (s: Symbol)
    requires p <= |t|
    ensures p <= s.next <= |t|
    ensures s.c != 0 ==> p < s.next
  {
    if p == |t| then Symbol(0, p) else Trail(t, p + 1, t[p], t[p])
  }

  // A byte below 0xC0 is a symbol by itself.
  lemma ReadByte(t: Text, p: nat)
    requires p < |t| && t[p] < 0xC0
    ensures Read(t, p) == Symbol(t[p], p + 1)
  {
  }

  // The number of symbols between two positions, 0 when one of them is not inside the text.
  function Symbols(t: Text, p1: nat, p2: nat): nat {
    if p1 < |t| && p2 < |t| then (if p1 < p2 then p2 - p1 else p1 - p2) % TWO_32 else 0
  }

  // A NUL-terminated literal.
  function Letter(word: Text, i: nat): Byte {
    if i < |word| then word[i] else 0
  }

  predicate SameStart(word: Text, t: Text, p: nat, size: nat) {
    forall i :: 0 <= i < size ==> p + i < |t| && Letter(word, i) == t[p + i]
  }

  // An initialized context skips the UTF-8 byte order mark of a text of more than four bytes.
  function Start(t: Text): (p: nat)
    ensures p <= |t|
  {
    if |t| > 4 && t[..3] == [0xEF, 0xBB, 0xBF] then 3 else 0
  }

  // Texts the context takes for UTF-8.
  predicate IsUtf8(t: Text) {
    |t| > 4 ==>
      t[..4] != [0, 0, 0xFE, 0xFF] && t[..4] != [0xFF, 0xFE, 0, 0] && t[..2] != [0xFE, 0xFF] && t[..2] != [0xFF, 0xFE]
  }

  class Context {
    const content: Text
    var cPos: nat

    ghost predicate Valid()
      reads this
    {
      cPos <= |content|
    }

    // ht_init_context on a zeroed context.
    constructor (content: Text)
      requires IsUtf8(content)
      ensures Valid() && this.content == content && cPos == Start(content)
    {
      this.content := content;
      cPos := if |content| > 4 && content[..3] == [0xEF, 0xBB, 0xBF] then 3 else 0;
    }

    // read_utf8: the next symbol and its position.
    method ReadUtf8() returns (r: nat, pos: nat)
      requires Valid()
      modifies this
      ensures Valid() && pos == old(cPos)
      ensures Read(content, old(cPos)) == Symbol(r, cPos)
    {
      r, pos := 0, cPos;
      var cpos := cPos;
      if cpos < |content| {
        var c: Byte := content[cpos];
        r := c;
        cpos := cpos + 1;
        while c >= 0xC0 && cpos < |content|
          invariant cPos == pos < cpos <= |content|
          invariant Trail(content, cpos, c, r) == Read(content, pos)
          decreases |content| - cpos
        {
          r := (r % 0x100_0000) * 256;
          c := (c * 2) % 256;
          r := r + content[cpos];
          cpos := cpos + 1;
        }
        cPos := cpos;
      }
    }

    // ht_compare of a literal with the text: 0 when the first size bytes agree.
    method Compare(word: Text, p: nat, size: nat) returns (r: int)
      requires p + size <= |content|
      ensures r == 0 <==> SameStart(word, content, p, size)
    {
      r := 0;
      var i := 0;
      while i < size
        invariant i <= size && r == 0 && SameStart(word, content, p, i)
      {
        r := Letter(word, i) - content[p + i];
        if r != 0 {
          break;
        }
        i := i + 1;
      }
    }
  }
}
