/** What percent-encoded texts are and mean, character by character: section 2.1 of RFC 3986, and
    '+' for a space.  The codec of io/libnet/url-codec.cpp reads and writes exactly these. */
module UrlPieces {
  import opened UrlCodec

  datatype Piece = Plain(ch: char) | Triplet(high: char, low: char)

  predicate Hex(ch: char) {
    '0' <= ch <= '9' || 'A' <= ch <= 'F' || 'a' <= ch <= 'f'
  }

  function DigitValue(ch: char): (r: nat)
    requires Hex(ch)
    ensures r < 16
  {
    if ch <= '9' then ch as nat - 48 else if ch <= 'F' then ch as nat - 55 else ch as nat - 87
  }

  predicate PieceOk(p: Piece) {
    match p
    case Plain(ch) => ch != '%'
    case Triplet(high, low) => Hex(high) && Hex(low)
  }

  predicate PiecesOk(ps: seq<Piece>) {
    forall k :: 0 <= k < |ps| ==> PieceOk(ps[k])
  }

  function Spelled(p: Piece): (s: string)
    ensures |s| > 0
  {
    match p
    case Plain(ch) => [ch]
    case Triplet(high, low) => ['%', high, low]
  }

  function Spelling(ps: seq<Piece>): string {
    if ps == [] then "" else Spelled(ps[0]) + Spelling(ps[1..])
  }

  function Meant(p: Piece): char
    requires PieceOk(p)
  {
    match p
    case Plain(ch) => if ch == '+' then ' ' else ch
    case Triplet(high, low) => (16 * DigitValue(high) + DigitValue(low)) as char
  }

  function Meaning(ps: seq<Piece>): string
    requires PiecesOk(ps)
  {
    seq(|ps|, k requires 0 <= k < |ps| => Meant(ps[k]))
  }

  lemma OrderIsValue(ch: char)
    ensures HexDigitOrder(ch) == if Hex(ch) then DigitValue(ch) else -1
  {
  }

  lemma MeaningRest(ps: seq<Piece>)
    requires PiecesOk(ps) && ps != []
    ensures PiecesOk(ps[1..]) && PieceOk(ps[0]) && Meaning(ps) == [Meant(ps[0])] + Meaning(ps[1..])
  {
  }

  // ----- Decoding -----

  /** A first piece of the text is read in one turn. */
  lemma PieceDecodes(src: string, i: nat, done: string, room: nat, p: Piece)
    requires PieceOk(p) && i + |Spelled(p)| <= |src| && src[i..i + |Spelled(p)|] == Spelled(p) && |done| < room
    ensures DecodeFrom(src, i, |src|, done, room) == DecodeFrom(src, i + |Spelled(p)|, |src|, done + [Meant(p)], room)
  {
    hide HexDigitOrder;
    var s := Spelled(p);
    assert src[i] == src[i..i + |s|][0];
    if p.Triplet? {
      assert src[i + 1] == src[i..i + 3][1] && src[i + 2] == src[i..i + 3][2];
      OrderIsValue(p.high);
      OrderIsValue(p.low);
    }
  }

  lemma {:induction false} PiecesDecode(src: string, i: nat, done: string, room: nat, ps: seq<Piece>)
    requires PiecesOk(ps) && i <= |src| && src[i..] == Spelling(ps) && |done| + |ps| <= room
    ensures DecodeFrom(src, i, |src|, done, room) == Text(done + Meaning(ps))
    decreases |ps|
  {
    hide DecodeFrom;
    hide PieceOk;
    hide Spelled;
    if ps == [] {
      Finished(src, done, room);
      assert done + Meaning(ps) == done;
    } else {
      var s := Spelled(ps[0]);
      MeaningRest(ps);
      assert src[i..i + |s|] == src[i..][..|s|] == s;
      assert src[i + |s|..] == src[i..][|s|..] == Spelling(ps[1..]);
      PieceDecodes(src, i, done, room, ps[0]);
      PiecesDecode(src, i + |s|, done + [Meant(ps[0])], room, ps[1..]);
      assert done + [Meant(ps[0])] + Meaning(ps[1..]) == done + Meaning(ps);
    }
  }

  lemma Finished(src: string, done: string, room: nat)
    ensures DecodeFrom(src, |src|, |src|, done, room) == Text(done)
  {
  }

  /** What a text that the decoder accepts goes on with. */
  lemma NextPiece(src: string, i: nat, done: string, room: nat) returns (p: Piece)
    requires i < |src| && DecodeFrom(src, i, |src|, done, room).Text?
    ensures PieceOk(p) && i + |Spelled(p)| <= |src| && src[i..i + |Spelled(p)|] == Spelled(p) && |done| < room
  {
    hide HexDigitOrder;
    if src[i] == '%' {
      OrderIsValue(At(src, i + 1));
      OrderIsValue(At(src, i + 2));
      p := Triplet(src[i + 1], src[i + 2]);
    } else {
      p := Plain(src[i]);
    }
  }

  lemma {:induction false} PiecesOf(src: string, i: nat, done: string, room: nat) returns (ps: seq<Piece>)
    requires i <= |src| && DecodeFrom(src, i, |src|, done, room).Text?
    ensures PiecesOk(ps) && src[i..] == Spelling(ps)
    ensures DecodeFrom(src, i, |src|, done, room) == Text(done + Meaning(ps))
    decreases |src| - i
  {
    hide DecodeFrom;
    hide PieceOk;
    hide Spelled;
    if i == |src| {
      Finished(src, done, room);
      ps := [];
      assert done + Meaning(ps) == done;
    } else {
      var p := NextPiece(src, i, done, room);
      var s := Spelled(p);
      PieceDecodes(src, i, done, room, p);
      var rest := PiecesOf(src, i + |s|, done + [Meant(p)], room);
      ps := [p] + rest;
      assert ps[1..] == rest;
      MeaningRest(ps);
      assert src[i..] == src[i..i + |s|] + src[i + |s|..];
      assert done + [Meant(p)] + Meaning(rest) == done + Meaning(ps);
    }
  }

  /** The pieces of a text, and what they mean. */
  ghost predicate Reads(src: string, t: string) {
    exists ps: seq<Piece> :: PiecesOk(ps) && src == Spelling(ps) && t == Meaning(ps)
  }

  lemma {:induction false} SpellingIsLong(ps: seq<Piece>)
    ensures |ps| <= |Spelling(ps)|
  {
    hide Spelled;
    if ps != [] {
      SpellingIsLong(ps[1..]);
    }
  }

  /** With room enough, a text is decoded exactly when it consists of such pieces, and then to what they mean. */
  lemma DecodeExactly(src: string, t: string, room: nat)
    requires |src| <= room
    ensures Decode(src, |src|, room) == Text(t) <==> Reads(src, t)
  {
    hide DecodeFrom;
    hide Spelling;
    hide Meaning;
    hide PiecesOk;
    assert src[0..] == src;
    if Reads(src, t) {
      var ps :| PiecesOk(ps) && src == Spelling(ps) && t == Meaning(ps);
      SpellingIsLong(ps);
      PiecesDecode(src, 0, "", room, ps);
      assert "" + t == t;
    }
    if Decode(src, |src|, room) == Text(t) {
      var ps := PiecesOf(src, 0, "", room);
      assert "" + Meaning(ps) == Meaning(ps);
    }
  }

  /** A text without percent signs stands for itself, but '+' for a space. */
  lemma PlainDecodes(src: string, room: nat)
    requires '%' !in src && |src| <= room
    ensures var d := Decode(src, |src|, room);
      && d.Text? && |d.text| == |src|
      && (forall k :: 0 <= k < |src| ==> d.text[k] == if src[k] == '+' then ' ' else src[k])
  {
    hide DecodeFrom;
    var ps := seq(|src|, k requires 0 <= k < |src| => Plain(src[k]));
    PlainSpelling(src, ps);
    assert src[0..] == src;
    PiecesDecode(src, 0, "", room, ps);
    assert "" + Meaning(ps) == Meaning(ps);
  }

  lemma {:induction false} PlainSpelling(src: string, ps: seq<Piece>)
    requires |ps| == |src| && forall k :: 0 <= k < |src| ==> ps[k] == Plain(src[k])
    ensures Spelling(ps) == src
  {
    if src != "" {
      PlainSpelling(src[1..], ps[1..]);
      assert [src[0]] + src[1..] == src;
    }
  }

  // ----- Encoding -----

  /** The characters that are encoded: the space, the percent sign, the quotation mark, and the reserved
      ones of section 2.2 of RFC 3986. */
  lemma UnsafeExactly(ch: char)
    ensures Unsafe(ch) <==> ch in " %\"" || ch in ":/?#[]@" || ch in "!$&'()*+,;="
  {
  }

  /** How a character is written. */
  ghost predicate Writes(p: Piece, ch: char) {
    if ch in " %\"" || ch in ":/?#[]@" || ch in "!$&'()*+,;=" then
      p.Triplet? && UpperHex(p.high) && UpperHex(p.low) && 16 * DigitValue(p.high) + DigitValue(p.low) == ch as nat
    else p == Plain(ch)
  }

  lemma WritesChar(ch: char) returns (p: Piece)
    ensures Writes(p, ch) && Spelled(p) == EncodeChar(ch)
  {
    UnsafeExactly(ch);
    EncodedCharReads(ch);
    hide HexDigitOrder;
    hide HexChar;
    if Unsafe(ch) {
      hide Unsafe;
      UnsafeIsAscii(ch);
      var high, low := HexChar(ch as int / 16), HexChar(ch as int % 16);
      HexCharIsUpper(ch as int / 16);
      HexCharIsUpper(ch as int % 16);
      OrderIsValue(high);
      OrderIsValue(low);
      p := Triplet(high, low);
    } else {
      p := Plain(ch);
    }
  }

  /** The encoding has one piece for each character. */
  lemma {:induction false} EncodeWrites(s: string) returns (ps: seq<Piece>)
    ensures |ps| == |s| && Encode(s) == Spelling(ps)
    ensures forall k :: 0 <= k < |s| ==> Writes(ps[k], s[k])
  {
    hide EncodeChar;
    hide Spelled;
    hide Writes;
    if s == "" {
      ps := [];
    } else {
      var front := s[..|s| - 1];
      var rest := EncodeWrites(front);
      var p := WritesChar(s[|s| - 1]);
      ps := rest + [p];
      SpellingSnoc(rest, p);
    }
  }

  lemma {:induction false} SpellingSnoc(ps: seq<Piece>, p: Piece)
    ensures Spelling(ps + [p]) == Spelling(ps) + Spelled(p)
  {
    hide Spelled;
    if ps == [] {
      assert [p][1..] == [] && [] + [p] == [p];
    } else {
      assert (ps + [p])[1..] == ps[1..] + [p];
      SpellingSnoc(ps[1..], p);
    }
  }
}
