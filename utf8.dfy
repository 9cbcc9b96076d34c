/**
  UTF-8, as Python's `str.encode()` and `bytes.decode()` apply it (both default
  to UTF-8, strict errors). A Dafny `char` is a Unicode scalar value, so every
  string has an encoding; decoding rejects what the strict codec rejects:
  stray continuation bytes, truncated sequences, overlong forms, surrogates and
  code points above U+10FFFF.
*/
module Utf8 {
  import opened Wrappers
  import opened Octets

  /** True of a continuation byte 10xxxxxx. */
  predicate IsContinuation(b: byte) {
    0x80 <= b < 0xC0
  }

  /** The one to four bytes that encode `c`. */
  function EncodeChar(c: char): (r: Bytes)
    ensures 1 <= |r| <= 4
    ensures |r| == 1 <==> c as int < 0x80
    ensures forall i :: 1 <= i < |r| ==> IsContinuation(r[i])
  {
    var n := c as int;
    if n < 0x80 then
      [n as byte]
    else if n < 0x800 then
      [(0xC0 + n / 64) as byte, (0x80 + n % 64) as byte]
    else if n < 0x10000 then
      [(0xE0 + n / 64 / 64) as byte, (0x80 + n / 64 % 64) as byte, (0x80 + n % 64) as byte]
    else
      [(0xF0 + n / 64 / 64 / 64) as byte, (0x80 + n / 64 / 64 % 64) as byte,
       (0x80 + n / 64 % 64) as byte, (0x80 + n % 64) as byte]
  }

  /** `s.encode()`: the concatenation of the encodings of the characters of `s`. */
  function Encode(s: string): (r: Bytes)
    ensures |s| <= |r| <= 4 * |s|
  {
    if s == [] then [] else EncodeChar(s[0]) + Encode(s[1..])
  }

  /**
    The first character of `b` and the number of bytes it occupies, or None when
    `b` does not start with a well-formed UTF-8 sequence.
  */
  function DecodeChar(b: Bytes): (r: Option<(char, nat)>)
    requires |b| > 0
    ensures r.Some? ==> 1 <= r.value.1 <= |b| && r.value.1 <= 4
  {
    var b0 := b[0] as int;
    if b0 < 0x80 then
      Some((b0 as char, 1))
    else if 0xC2 <= b0 < 0xE0 then
      if |b| < 2 || !IsContinuation(b[1]) then None
      else
        var n := (b0 - 0xC0) * 64 + (b[1] as int - 0x80);
        Some((n as char, 2))
    else if 0xE0 <= b0 < 0xF0 then
      if |b| < 3 || !IsContinuation(b[1]) || !IsContinuation(b[2]) then None
      else
        var n := (b0 - 0xE0) * 4096 + (b[1] as int - 0x80) * 64 + (b[2] as int - 0x80);
        if n < 0x800 || 0xD800 <= n < 0xE000 then None else Some((n as char, 3))
    else if 0xF0 <= b0 < 0xF5 then
      if |b| < 4 || !IsContinuation(b[1]) || !IsContinuation(b[2]) || !IsContinuation(b[3]) then None
      else
        var n := (b0 - 0xF0) * 262144 + (b[1] as int - 0x80) * 4096
                 + (b[2] as int - 0x80) * 64 + (b[3] as int - 0x80);
        if n < 0x10000 || 0x110000 <= n then None else Some((n as char, 4))
    else
      None
  }

  /** `b.decode()`: the decoded text, or None where Python raises UnicodeDecodeError. */
  function Decode(b: Bytes): (r: Option<string>)
    ensures r.Some? ==> |r.value| <= |b|
    decreases |b|
  {
    if b == [] then Some([])
    else
      match DecodeChar(b)
      case None => None
      case Some((c, k)) =>
        match Decode(b[k..])
        case None => None
        case Some(rest) => Some([c] + rest)
  }

  /** Decoding reads back exactly the character that was encoded, whatever follows it. */
  lemma DecodeCharOfEncodeChar(c: char, rest: Bytes)
    ensures DecodeChar(EncodeChar(c) + rest) == Some((c, |EncodeChar(c)|))
  {
  }

  /** Round trip: `s.encode().decode() == s` for every string. */
  lemma {:induction false} DecodeEncode(s: string)
    ensures Decode(Encode(s)) == Some(s)
  {
    if s != [] {
      var head := EncodeChar(s[0]);
      var b := Encode(s);
      assert b == head + Encode(s[1..]);
      DecodeCharOfEncodeChar(s[0], Encode(s[1..]));
      assert b[|head|..] == Encode(s[1..]);
      DecodeEncode(s[1..]);
      assert [s[0]] + s[1..] == s;
    }
  }

  /** A character decoded from the front of `b` re-encodes to exactly the bytes it was read from. */
  lemma EncodeCharOfDecodeChar(b: Bytes)
    requires |b| > 0 && DecodeChar(b).Some?
    ensures EncodeChar(DecodeChar(b).value.0) == b[..DecodeChar(b).value.1]
  {
    var b0 := b[0] as int;
    var c := DecodeChar(b).value.0;
    var n := c as int;
    if b0 < 0x80 {
    } else if b0 < 0xE0 {
      var y, z := b0 - 0xC0, b[1] as int - 0x80;
      assert n == y * 64 + z;
      assert n / 64 == y && n % 64 == z;
      assert EncodeChar(c) == [b[0], b[1]];
    } else if b0 < 0xF0 {
      var x, y, z := b0 - 0xE0, b[1] as int - 0x80, b[2] as int - 0x80;
      assert n == (x * 64 + y) * 64 + z;
      assert n / 64 == x * 64 + y && n % 64 == z;
      assert n / 64 / 64 == x && n / 64 % 64 == y;
      assert EncodeChar(c) == [b[0], b[1], b[2]];
    } else {
      var w, x, y, z := b0 - 0xF0, b[1] as int - 0x80, b[2] as int - 0x80, b[3] as int - 0x80;
      assert n == ((w * 64 + x) * 64 + y) * 64 + z;
      assert n / 64 == (w * 64 + x) * 64 + y && n % 64 == z;
      assert n / 64 / 64 == w * 64 + x && n / 64 % 64 == y;
      assert n / 64 / 64 / 64 == w && n / 64 / 64 % 64 == x;
      assert EncodeChar(c) == [b[0], b[1], b[2], b[3]];
    }
  }

  /**
    A non-empty input that decodes splits into the bytes of its first character,
    which re-encode to themselves, and a rest that decodes to the remaining text.
  */
  lemma DecodeUnfold(b: Bytes) returns (c: char, k: nat, text: string)
    requires b != [] && Decode(b).Some?
    ensures 0 < k <= |b|
    ensures EncodeChar(c) == b[..k]
    ensures Decode(b[k..]) == Some(text)
    ensures Decode(b) == Some([c] + text)
  {
    c, k := DecodeChar(b).value.0, DecodeChar(b).value.1;
    text := Decode(b[k..]).value;
    EncodeCharOfDecodeChar(b);
  }

  /** Encoding a character followed by text. */
  lemma EncodeCons(c: char, s: string)
    ensures Encode([c] + s) == EncodeChar(c) + Encode(s)
  {
    assert ([c] + s)[0] == c && ([c] + s)[1..] == s;
  }

  /** The other round trip: bytes that decode are exactly the encoding of their text. */
  lemma {:induction false} EncodeDecode(b: Bytes)
    requires Decode(b).Some?
    ensures Encode(Decode(b).value) == b
    decreases |b|
  {
    if b != [] {
      var c, k, text := DecodeUnfold(b);
      EncodeDecode(b[k..]);
      EncodeCons(c, text);
      assert b == b[..k] + b[k..];
    }
  }
}
