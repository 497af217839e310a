/** The percent codec of io/libnet/url-codec.cpp.

    Source texts are C strings without their terminator; a length limit comes
    beside them, as in the two C functions.  Characters stand for bytes. */
module UrlCodec {

  const UNSAFE: string := " %:/?#[]@!$&'\"()*+,;="
  const HEX_CHARS: string := "0123456789ABCDEFabcdef"
  const URL_DECODE_ERR: nat := 65535

  predicate NulFree(s: string) {
    '\0' !in s
  }

  /** What a read at `i` yields; behind the text sits the terminator.  The decoder can
      look one character past it, but by then the first digit is already invalid. */
  function At(s: string, i: nat): char {
    if i < |s| then s[i] else '\0'
  }

  function Min(a: nat, b: nat): nat {
    if a < b then a else b
  }

  // ----- The helpers -----

  predicate Unsafe(ch: char) {
    ch in UNSAFE
  }

  method IsUnsafe(ch: char) returns (r: bool)
    ensures r <==> Unsafe(ch)
  {
    var i: nat := 0;
    while At(UNSAFE, i) != '\0'
      invariant i <= |UNSAFE|
      invariant ch !in UNSAFE[..i]
      decreases |UNSAFE| - i
    {
      if UNSAFE[i] == ch {
        return true;
      }
      i := i + 1;
    }
    assert UNSAFE[..i] == UNSAFE;
    r := false;
  }

  function ToUpper(ch: char): char {
    if 'a' <= ch <= 'z' then (ch as int - 32) as char else ch
  }

  /** The value of a hexadecimal digit of either case, which is its place among the digits, or -1. */
  function HexDigitOrder(ch: char): (r: int)
    ensures -1 <= r < 16
    ensures r >= 0 <==> '0' <= ch <= '9' || 'A' <= ch <= 'F' || 'a' <= ch <= 'f'
  {
    if '0' <= ch <= '9' then ch as int - '0' as int
    else
      var up := ToUpper(ch);
      if 'A' <= up <= 'F' then up as int - 'A' as int + 10 else -1
  }

  // ----- The encoder -----

  /** Upper-case hexadecimal digit. */
  function HexChar(d: nat): char
    requires d < 16
  {
    HEX_CHARS[d]
  }

  lemma UnsafeIsAscii(ch: char)
    requires Unsafe(ch)
    ensures ch as int / 16 < 16
  {
  }

  function EncodeChar(ch: char): (e: string)
    ensures e != ""
  {
    if Unsafe(ch) then
      UnsafeIsAscii(ch);
      ['%', HexChar(ch as int / 16), HexChar(ch as int % 16)]
    else [ch]
  }

  function Encode(s: string): string {
    if s == "" then "" else Encode(s[..|s| - 1]) + EncodeChar(s[|s| - 1])
  }

  function CountUnsafe(s: string): nat {
    if s == "" then 0 else CountUnsafe(s[..|s| - 1]) + if Unsafe(s[|s| - 1]) then 1 else 0
  }

  lemma EncodeSnoc(s: string, k: nat)
    requires k < |s|
    ensures Encode(s[..k + 1]) == Encode(s[..k]) + EncodeChar(s[k])
  {
    hide EncodeChar;
    assert s[..k + 1][..k] == s[..k];
  }

  lemma {:induction false} EncodeConcat(a: string, b: string)
    ensures Encode(a + b) == Encode(a) + Encode(b)
  {
    hide EncodeChar;
    if b == "" {
      assert a + b == a;
    } else {
      assert (a + b)[..|a + b| - 1] == a + b[..|b| - 1];
      EncodeConcat(a, b[..|b| - 1]);
    }
  }

  lemma TwoParts(s: string, n: nat)
    requires n <= |s|
    ensures s[..n] + s[n..] == s
  {
  }

  lemma EncodeAt(s: string, k: nat)
    requires k < |s|
    ensures Encode(s) == Encode(s[..k]) + EncodeChar(s[k]) + Encode(s[k + 1..])
  {
    hide *;
    var a, b := s[..k + 1], s[k + 1..];
    EncodeSnoc(s, k);
    EncodeConcat(a, b);
    TwoParts(s, k + 1);
  }

  lemma EncodeEmpty(s: string)
    requires s == ""
    ensures Encode(s) == ""
  {
  }

  /** One turn of the encoder's loop.  Returns the next free place, or the same one if
      the character does not fit. */
  method PutEncoded(ch: char, dst: array<char>, at: nat, dlen: nat) returns (next: nat)
    requires at <= dlen < dst.Length
    modifies dst
    ensures var e := EncodeChar(ch);
      if at + |e| <= dlen then next == at + |e| && dst[..next] == old(dst[..at]) + e && dst[next..] == old(dst[next..])
      else next == at && dst[..] == old(dst[..])
  {
    hide Unsafe;
    hide HexChar;
    var u := IsUnsafe(ch);
    if u {
      UnsafeIsAscii(ch);
      if at + 3 > dlen {
        return at;
      }
      dst[at] := '%';
      dst[at + 1] := HexChar(ch as int / 16);
      dst[at + 2] := HexChar(ch as int % 16);
      next := at + 3;
    } else {
      if at + 1 > dlen {
        return at;
      }
      dst[at] := ch;
      next := at + 1;
    }
  }

  /** Writes the encoding of the text and a terminator, if it fits, and returns its
      length; returns 0 if it does not.  `dst` must have a place for the terminator. */
  method UrlEncode(src: string, srclen: nat, dst: array<char>, dlen: nat) returns (n: nat)
    requires NulFree(src) && dlen < dst.Length
    modifies dst
    ensures var e := Encode(src[..Min(srclen, |src|)]);
      if |e| <= dlen then n == |e| && dst[..n] == e && dst[n] == '\0' && dst[n + 1..] == old(dst[n + 1..])
      else n == 0 && dst[dlen..] == old(dst[dlen..])
  {
    hide Encode;
    hide EncodeChar;
    hide Unsafe;
    ghost var text := src[..Min(srclen, |src|)];
    assert Encode(text[..0]) == [] by { EncodeEmpty(text[..0]); }
    var di: nat := 0;
    var i: nat := 0;
    while At(src, i) != '\0' && i < srclen
      invariant i <= |text|
      invariant di <= dlen
      invariant dst[..di] == Encode(text[..i])
      invariant dst[di..] == old(dst[di..])
      decreases |text| - i
    {
      EncodeAt(text, i);
      EncodeSnoc(text, i);
      var next := PutEncoded(src[i], dst, di, dlen);
      if next == di {
        return 0;
      }
      di := next;
      i := i + 1;
    }
    assert text[..i] == text;
    dst[di] := '\0';
    n := di;
  }

  // ----- The decoder -----

  datatype Decoded = Text(text: string) | NoRoom | Malformed

  /** What is left to decode from position `i`, after `done` has been written. */
  function DecodeFrom(src: string, i: nat, srclen: nat, done: string, room: nat): Decoded
    decreases |src| - i
  {
    if i >= |src| || i >= srclen then Text(done)
    else if |done| + 1 > room then NoRoom
    else if src[i] == '%' then
      var high := HexDigitOrder(At(src, i + 1));
      var low := HexDigitOrder(At(src, i + 2));
      if high == -1 || low == -1 then Malformed
      else DecodeFrom(src, i + 3, srclen, done + [(high * 16 + low) as char], room)
    else DecodeFrom(src, i + 1, srclen, done + [if src[i] == '+' then ' ' else src[i]], room)
  }

  function Decode(src: string, srclen: nat, room: nat): Decoded {
    DecodeFrom(src, 0, srclen, "", room)
  }

  /** The returned number as the C function codes it: a malformed text gives the error
      number, a full buffer gives 0. */
  method UrlDecode(src: string, srclen: nat, dst: array<char>, dlen: nat) returns (n: nat)
    requires NulFree(src) && dlen < dst.Length
    modifies dst
    ensures match Decode(src, srclen, dlen)
      case Text(t) => n == |t| <= dlen && dst[..n] == t && dst[n] == '\0' && dst[n + 1..] == old(dst[n + 1..])
      case NoRoom => n == 0
      case Malformed => n == URL_DECODE_ERR
  {
    hide HexDigitOrder;
    var di: nat := 0;
    var i: nat := 0;
    while At(src, i) != '\0' && i < srclen
      invariant di <= dlen
      invariant dst[di..] == old(dst[di..])
      invariant Decode(src, srclen, dlen) == DecodeFrom(src, i, srclen, dst[..di], dlen)
      decreases |src| - i
    {
      if di + 1 > dlen {
        return 0;
      }
      ghost var done := dst[..di];
      var ch := src[i];
      match ch {
        case '%' =>
          var high := HexDigitOrder(At(src, i + 1));
          var low := HexDigitOrder(At(src, i + 2));
          if -1 == high || -1 == low {
            return URL_DECODE_ERR;
          }
          dst[di] := (high * 16 + low) as char;
          i := i + 2;
        case '+' => dst[di] := ' ';
        case _ => dst[di] := ch;
      }
      assert dst[..di + 1] == done + [dst[di]];
      di := di + 1;
      i := i + 1;
    }
    dst[di] := '\0';
    n := di;
  }

  // ----- What the two promise together -----

  /** The encoding grows by two characters for each unsafe one. */
  lemma {:induction false} EncodedLength(s: string)
    ensures |Encode(s)| == |s| + 2 * CountUnsafe(s)
  {
    if s != "" {
      EncodedLength(s[..|s| - 1]);
    }
  }

  predicate UpperHex(ch: char) {
    '0' <= ch <= '9' || 'A' <= ch <= 'F'
  }

  lemma HexCharIsUpper(d: nat)
    requires d < 16
    ensures UpperHex(HexChar(d))
  {
  }

  lemma UpperHexIsSafe(ch: char)
    requires UpperHex(ch)
    ensures !Unsafe(ch) && ch != '%'
  {
  }

  lemma EncodedCharIsWellFormed(ch: char)
    ensures var e := EncodeChar(ch);
      (e[0] == '%' ==> |e| == 3) && (|e| == 3 ==> UpperHex(e[1]) && UpperHex(e[2])) &&
      forall k :: 0 <= k < |e| && Unsafe(e[k]) ==> k == 0 && e[k] == '%'
  {
    assert Unsafe('%');
    hide Unsafe;
    hide HexChar;
    hide UpperHex;
    if Unsafe(ch) {
      UnsafeIsAscii(ch);
      HexCharIsUpper(ch as int / 16);
      HexCharIsUpper(ch as int % 16);
      UpperHexIsSafe(HexChar(ch as int / 16));
      UpperHexIsSafe(HexChar(ch as int % 16));
    }
  }

  lemma UpperHexIsNotPercent()
    ensures !UpperHex('%')
  {
  }

  /** Every percent sign of the encoding opens a triplet with two upper-case
      hexadecimal digits (section 2.1 of RFC 3986), and no other unsafe character is left. */
  lemma {:induction false} EncodedIsWellFormed(s: string, k: nat)
    requires k < |Encode(s)|
    ensures Encode(s)[k] == '%' ==> k + 2 < |Encode(s)| && UpperHex(Encode(s)[k + 1]) && UpperHex(Encode(s)[k + 2])
    ensures Unsafe(Encode(s)[k]) ==> Encode(s)[k] == '%'
  {
    hide Unsafe;
    hide UpperHex;
    var front := Encode(s[..|s| - 1]);
    if k < |front| {
      EncodedIsWellFormed(s[..|s| - 1], k);
    } else {
      EncodedCharIsWellFormed(s[|s| - 1]);
      UpperHexIsNotPercent();
      assert Encode(s)[k] == EncodeChar(s[|s| - 1])[k - |front|];
    }
  }

  /** The triplet of an unsafe character spells that character, and only safe
      characters stand for themselves. */
  lemma EncodedCharReads(ch: char)
    ensures Unsafe(ch) ==>
      HexDigitOrder(HexChar(ch as int / 16)) * 16 + HexDigitOrder(HexChar(ch as int % 16)) == ch as int &&
      HexDigitOrder(HexChar(ch as int / 16)) >= 0 && HexDigitOrder(HexChar(ch as int % 16)) >= 0
    ensures !Unsafe(ch) ==> ch != '%' && ch != '+'
  {
    if Unsafe(ch) {
      HexDigits(ch as int / 16);
      HexDigits(ch as int % 16);
    } else {
      assert UNSAFE[1] == '%' && UNSAFE[17] == '+';
    }
  }

  /** The value of a digit is its place among the digits, in either case. */
  lemma HexDigitValue(ch: char)
    requires HexDigitOrder(ch) >= 0
    ensures HexChar(HexDigitOrder(ch)) == ToUpper(ch)
  {
    var digits := "0123456789ABCDEF";
    assert HEX_CHARS[..16] == digits;
    assert HexChar(HexDigitOrder(ch)) == digits[HexDigitOrder(ch)];
  }

  lemma HexDigits(d: nat)
    requires d < 16
    ensures HexDigitOrder(HexChar(d)) == d
  {
  }

  /** One encoded character read back. */
  lemma DecodeOne(src: string, i: nat, done: string, room: nat, ch: char)
    requires i + |EncodeChar(ch)| <= |src| && src[i..i + |EncodeChar(ch)|] == EncodeChar(ch)
    requires |done| < room
    ensures DecodeFrom(src, i, |src|, done, room) == DecodeFrom(src, i + |EncodeChar(ch)|, |src|, done + [ch], room)
  {
    hide Unsafe;
    hide HexChar;
    hide HexDigitOrder;
    var e := EncodeChar(ch);
    EncodedCharReads(ch);
    assert src[i] == src[i..i + |e|][0] == e[0];
    if Unsafe(ch) {
      assert src[i + 1] == src[i..i + 3][1] && src[i + 2] == src[i..i + 3][2];
    }
  }

  lemma {:induction false} DecodeEncodedFrom(s: string, k: nat, room: nat)
    requires k <= |s| <= room
    ensures |Encode(s[..k])| <= |Encode(s)|
    ensures DecodeFrom(Encode(s), |Encode(s[..k])|, |Encode(s)|, s[..k], room) == Text(s)
    decreases |s| - k
  {
    hide EncodeChar;
    hide Encode;
    if k == |s| {
      assert s[..k] == s;
    } else {
      EncodeAt(s, k);
      EncodeSnoc(s, k);
      DecodeOne(Encode(s), |Encode(s[..k])|, s[..k], room, s[k]);
      DecodeEncodedFrom(s, k + 1, room);
      assert s[..k + 1] == s[..k] + [s[k]];
    }
  }

  /** Decoding the encoded text gives the text back, for every text and every buffer
      that has room for it. */
  lemma RoundTrip(s: string, room: nat)
    requires |s| <= room
    ensures Decode(Encode(s), |Encode(s)|, room) == Text(s)
  {
    assert s[..0] == "";
    DecodeEncodedFrom(s, 0, room);
  }

  /** Different texts have different encodings. */
  lemma EncodeInjective(s: string, t: string)
    requires Encode(s) == Encode(t)
    ensures s == t
  {
    RoundTrip(s, |s| + |t|);
    RoundTrip(t, |s| + |t|);
  }

  lemma EncodedCharHasNoNul(ch: char)
    requires ch != '\0'
    ensures NulFree(EncodeChar(ch))
  {
    hide Unsafe;
    hide HexChar;
    if Unsafe(ch) {
      UnsafeIsAscii(ch);
      HexCharIsUpper(ch as int / 16);
      HexCharIsUpper(ch as int % 16);
    }
  }

  /** The encoding of a C string is a C string. */
  lemma {:induction false} EncodedHasNoNul(s: string)
    requires NulFree(s)
    ensures NulFree(Encode(s))
  {
    hide EncodeChar;
    if s != "" {
      EncodedHasNoNul(s[..|s| - 1]);
      EncodedCharHasNoNul(s[|s| - 1]);
    }
  }

  /** The two functions in a row: what was encoded into one buffer and decoded into the other
      is the text again, if both have room; otherwise the length is 0. */
  method EncodeThenDecode(text: string, dst: array<char>, back: array<char>) returns (n: nat)
    requires NulFree(text) && dst.Length > 0 && back.Length > 0 && dst != back
    modifies dst, back
    ensures |text| + 2 * CountUnsafe(text) < dst.Length && |text| < back.Length ==>
      n == |text| && back[..n] == text && back[n] == '\0'
    ensures |text| + 2 * CountUnsafe(text) >= dst.Length || |text| >= back.Length ==> n == 0
  {
    hide *;
    EncodedLength(text);
    EncodedHasNoNul(text);
    WholeText(text);
    n := UrlEncode(text, |text|, dst, dst.Length - 1);
    var encoded := dst[..n];
    NothingEncoded(encoded);
    DecodedWithRoom(text, back.Length - 1);
    n := UrlDecode(encoded, n, back, back.Length - 1);
  }

  lemma WholeText(text: string)
    ensures text[..Min(|text|, |text|)] == text
  {
  }

  /** The encoded text is decoded exactly when the buffer has room for the text. */
  lemma DecodedWithRoom(text: string, room: nat)
    ensures Decode(Encode(text), |Encode(text)|, room) == if |text| <= room then Text(text) else NoRoom
  {
    hide DecodeFrom;
    hide Encode;
    if |text| <= room {
      RoundTrip(text, room);
    } else {
      RoundTrip(text, |text|);
      RoomLaw(Encode(text), 0, |Encode(text)|, "", room, |text|);
    }
  }

  /** A text, or nothing because there was no room, is a C string either way. */
  lemma NothingEncoded(encoded: string)
    requires encoded == "" || NulFree(encoded)
    ensures NulFree(encoded)
    ensures forall room :: Decode("", 0, room) == Text("")
  {
  }

  /** A text decodes to at most its own length, and a buffer of that size never lacks room. */
  lemma {:induction false} DecodeNeedsNoMoreThanSource(src: string, i: nat, srclen: nat, done: string, room: nat)
    requires |done| <= i
    ensures var d := DecodeFrom(src, i, srclen, done, room);
      (d.Text? ==> done <= d.text && |d.text| <= |done| + (if i <= |src| then |src| - i else 0)) &&
      (|src| <= room ==> !d.NoRoom?)
    decreases |src| - i
  {
    if i < |src| && i < srclen && |done| + 1 <= room {
      if src[i] == '%' {
        var high := HexDigitOrder(At(src, i + 1));
        var low := HexDigitOrder(At(src, i + 2));
        if high != -1 && low != -1 {
          DecodeNeedsNoMoreThanSource(src, i + 3, srclen, done + [(high * 16 + low) as char], room);
        }
      } else {
        DecodeNeedsNoMoreThanSource(src, i + 1, srclen, done + [if src[i] == '+' then ' ' else src[i]], room);
      }
    }
  }

  /** The output buffer only matters when it is too small: with room for the result the
      decoder gives the unlimited answer, and otherwise it reports that it lacks room
      unless the text turned out malformed before. */
  lemma {:induction false} RoomLaw(src: string, i: nat, srclen: nat, done: string, room: nat, more: nat)
    requires |done| <= room <= more
    ensures var d := DecodeFrom(src, i, srclen, done, room);
      var full := DecodeFrom(src, i, srclen, done, more);
      d != full ==> d == NoRoom && (full.Text? ==> |full.text| > room)
    ensures var d := DecodeFrom(src, i, srclen, done, room); d.Text? ==> |d.text| <= room
    decreases |src| - i
  {
    if i < |src| && i < srclen {
      if |done| + 1 > room {
        LongerThan(src, i, srclen, done, more);
      } else if src[i] == '%' {
        var high := HexDigitOrder(At(src, i + 1));
        var low := HexDigitOrder(At(src, i + 2));
        if high != -1 && low != -1 {
          RoomLaw(src, i + 3, srclen, done + [(high * 16 + low) as char], room, more);
        }
      } else {
        RoomLaw(src, i + 1, srclen, done + [if src[i] == '+' then ' ' else src[i]], room, more);
      }
    }
  }

  lemma {:induction false} LongerThan(src: string, i: nat, srclen: nat, done: string, room: nat)
    ensures var d := DecodeFrom(src, i, srclen, done, room);
      d.Text? ==> |d.text| >= |done| + if i < |src| && i < srclen then 1 else 0
    decreases |src| - i
  {
    if i < |src| && i < srclen && |done| + 1 <= room {
      if src[i] == '%' {
        var high := HexDigitOrder(At(src, i + 1));
        var low := HexDigitOrder(At(src, i + 2));
        if high != -1 && low != -1 {
          LongerThan(src, i + 3, srclen, done + [(high * 16 + low) as char], room);
        }
      } else {
        LongerThan(src, i + 1, srclen, done + [if src[i] == '+' then ' ' else src[i]], room);
      }
    }
  }
}
