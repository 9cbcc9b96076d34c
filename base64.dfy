/**
  Base64 with the standard alphabet and '=' padding, as section 4 of RFC 4648
  defines it and Python's `base64.b64encode(...).decode()` produces it. The
  result of `b64encode` is ASCII bytes; `.decode()` turns it into text, so the
  encoder here yields the text directly.
*/
module Base64 {
  import opened Wrappers
  import opened Octets

  /** The character for a 6-bit value, per the alphabet table of RFC 4648, section 4. */
  function CharOf(i: int): (c: char)
    requires 0 <= i < 64
    ensures IndexOf(c) == Some(i)
  {
    if i < 26 then ('A' as int + i) as char
    else if i < 52 then ('a' as int + (i - 26)) as char
    else if i < 62 then ('0' as int + (i - 52)) as char
    else if i == 62 then '+'
    else '/'
  }

  /** The 6-bit value of an alphabet character; None for anything else, '=' included. */
  function IndexOf(c: char): (r: Option<int>)
    ensures r.Some? ==> 0 <= r.value < 64
  {
    if 'A' <= c <= 'Z' then Some(c as int - 'A' as int)
    else if 'a' <= c <= 'z' then Some(c as int - 'a' as int + 26)
    else if '0' <= c <= '9' then Some(c as int - '0' as int + 52)
    else if c == '+' then Some(62)
    else if c == '/' then Some(63)
    else None
  }

  /** The alphabet characters, the only ones besides '=' that an encoding contains. */
  predicate InAlphabet(c: char) {
    IndexOf(c).Some?
  }

  /** Four characters for three bytes (24 bits, most significant first). */
  function EncodeTriple(b0: byte, b1: byte, b2: byte): (r: string)
    ensures |r| == 4
    ensures forall i :: 0 <= i < 4 ==> InAlphabet(r[i])
  {
    var x0, x1, x2 := b0 as int, b1 as int, b2 as int;
    [CharOf(x0 / 4), CharOf(x0 % 4 * 16 + x1 / 16), CharOf(x1 % 16 * 4 + x2 / 64), CharOf(x2 % 64)]
  }

  /**
    `b64encode`: full 24-bit groups become four characters; a final group of one
    or two bytes is zero-padded to whole characters and completed with '='.
  */
  function Encode(b: Bytes): (r: string)
    ensures |r| == 4 * ((|b| + 2) / 3)
    decreases |b|
  {
    if |b| == 0 then ""
    else if |b| == 1 then
      var x0 := b[0] as int;
      [CharOf(x0 / 4), CharOf(x0 % 4 * 16), '=', '=']
    else if |b| == 2 then
      var x0, x1 := b[0] as int, b[1] as int;
      [CharOf(x0 / 4), CharOf(x0 % 4 * 16 + x1 / 16), CharOf(x1 % 16 * 4), '=']
    else
      EncodeTriple(b[0], b[1], b[2]) + Encode(b[3..])
  }

  /** Every character of an encoding is from the alphabet or is the pad '='. */
  lemma {:induction false} EncodeAlphabet(b: Bytes)
    ensures forall i :: 0 <= i < |Encode(b)| ==> InAlphabet(Encode(b)[i]) || Encode(b)[i] == '='
    decreases |b|
  {
    if |b| > 3 {
      EncodeAlphabet(b[3..]);
      var head, tail := EncodeTriple(b[0], b[1], b[2]), Encode(b[3..]);
      assert Encode(b) == head + tail;
      forall i | 0 <= i < |Encode(b)|
        ensures InAlphabet(Encode(b)[i]) || Encode(b)[i] == '='
      {
        if i >= 4 {
          assert Encode(b)[i] == tail[i - 4];
        }
      }
    }
  }

  /** The three bytes of a group of four alphabet characters. */
  function DecodeFull(c0: char, c1: char, c2: char, c3: char): Option<Bytes> {
    var i0, i1, i2, i3 := IndexOf(c0), IndexOf(c1), IndexOf(c2), IndexOf(c3);
    if i0.None? || i1.None? || i2.None? || i3.None? then None
    else
      var x0, x1, x2, x3 := i0.value, i1.value, i2.value, i3.value;
      Some([(x0 * 4 + x1 / 16) as byte, (x1 % 16 * 16 + x2 / 4) as byte, (x2 % 4 * 64 + x3) as byte])
  }

  /** The two bytes of a final group "xyz="; the two unused bits of `z` must be zero. */
  function DecodeTwo(c0: char, c1: char, c2: char): Option<Bytes> {
    var i0, i1, i2 := IndexOf(c0), IndexOf(c1), IndexOf(c2);
    if i0.None? || i1.None? || i2.None? || i2.value % 4 != 0 then None
    else
      var x0, x1, x2 := i0.value, i1.value, i2.value;
      Some([(x0 * 4 + x1 / 16) as byte, (x1 % 16 * 16 + x2 / 4) as byte])
  }

  /** The one byte of a final group "xy=="; the four unused bits of `y` must be zero. */
  function DecodeOne(c0: char, c1: char): Option<Bytes> {
    var i0, i1 := IndexOf(c0), IndexOf(c1);
    if i0.None? || i1.None? || i1.value % 16 != 0 then None
    else Some([(i0.value * 4 + i1.value / 16) as byte])
  }

  /** The last group, where '=' may pad one or two positions. */
  function DecodeFinal(c0: char, c1: char, c2: char, c3: char): Option<Bytes> {
    if c2 == '=' && c3 == '=' then DecodeOne(c0, c1)
    else if c3 == '=' then DecodeTwo(c0, c1, c2)
    else DecodeFull(c0, c1, c2, c3)
  }

  /**
    Decoding of canonical input (section 3.5 of RFC 4648): groups of four
    alphabet characters, '=' only as the padding of the last group, and the pad
    bits of a short last group zero. Anything else is None, where a strict
    decoder reports an error.
  */
  function Decode(s: string): (r: Option<Bytes>)
    decreases |s|
  {
    if |s| == 0 then Some([])
    else if |s| < 4 then None
    else if |s| == 4 then DecodeFinal(s[0], s[1], s[2], s[3])
    else
      match DecodeFull(s[0], s[1], s[2], s[3])
      case None => None
      case Some(group) =>
        match Decode(s[4..])
        case None => None
        case Some(rest) => Some(group + rest)
  }

  /** The four characters of a full group give back its three bytes. */
  lemma DecodeFullOfTriple(b0: byte, b1: byte, b2: byte)
    ensures var e := EncodeTriple(b0, b1, b2);
            DecodeFull(e[0], e[1], e[2], e[3]) == Some([b0, b1, b2])
  {
    var x0, x1, x2 := b0 as int, b1 as int, b2 as int;
    var c0, c1, c2, c3 := x0 / 4, x0 % 4 * 16 + x1 / 16, x1 % 16 * 4 + x2 / 64, x2 % 64;
    assert c1 / 16 == x0 % 4 && c1 % 16 == x1 / 16;
    assert c2 / 4 == x1 % 16 && c2 % 4 == x2 / 64;
    assert c0 * 4 + c1 / 16 == x0;
    assert c1 % 16 * 16 + c2 / 4 == x1;
    assert c2 % 4 * 64 + c3 == x2;
    assert IndexOf(CharOf(c0)).value == c0;
    assert IndexOf(CharOf(c1)).value == c1;
    assert IndexOf(CharOf(c2)).value == c2;
    assert IndexOf(CharOf(c3)).value == c3;
  }

  /** A final group of one byte: two characters and "==". */
  lemma DecodeSingle(b: Bytes)
    requires |b| == 1
    ensures Decode(Encode(b)) == Some(b)
  {
    var x0 := b[0] as int;
    var c0, c1 := x0 / 4, x0 % 4 * 16;
    assert c1 / 16 == x0 % 4;
    assert c0 * 4 + c1 / 16 == x0;
    assert IndexOf(CharOf(c0)).value == c0;
    assert IndexOf(CharOf(c1)).value == c1;
    assert DecodeOne(CharOf(c0), CharOf(c1)) == Some([x0 as byte]);
    assert [x0 as byte] == b;
  }

  /** The three characters of a two-byte group give back its two bytes. */
  lemma DecodeTwoOfPair(b0: byte, b1: byte)
    ensures var x0, x1 := b0 as int, b1 as int;
            DecodeTwo(CharOf(x0 / 4), CharOf(x0 % 4 * 16 + x1 / 16), CharOf(x1 % 16 * 4)) == Some([b0, b1])
  {
    var x0, x1 := b0 as int, b1 as int;
    var c0, c1, c2 := x0 / 4, x0 % 4 * 16 + x1 / 16, x1 % 16 * 4;
    assert c1 / 16 == x0 % 4 && c1 % 16 == x1 / 16 && c2 / 4 == x1 % 16 && c2 % 4 == 0;
    assert c0 * 4 + c1 / 16 == x0;
    assert c1 % 16 * 16 + c2 / 4 == x1;
  }

  /** A final group of two bytes: three characters and "=". */
  lemma DecodePair(b: Bytes)
    requires |b| == 2
    ensures Decode(Encode(b)) == Some(b)
  {
    var x0, x1 := b[0] as int, b[1] as int;
    var c0, c1, c2 := x0 / 4, x0 % 4 * 16 + x1 / 16, x1 % 16 * 4;
    var s := [CharOf(c0), CharOf(c1), CharOf(c2), '='];
    assert Encode(b) == s;
    DecodeTwoOfPair(b[0], b[1]);
    assert [x0 as byte, x1 as byte] == b;
    assert CharOf(c2) != '=';
    assert Decode(s) == DecodeFinal(s[0], s[1], s[2], s[3]);
  }

  /** A last full group of three bytes: four characters and no padding. */
  lemma DecodeLastTriple(b: Bytes)
    requires |b| == 3
    ensures Decode(Encode(b)) == Some(b)
  {
    var e := EncodeTriple(b[0], b[1], b[2]);
    assert Encode(b) == e by { assert Encode(b[3..]) == ""; }
    DecodeFullOfTriple(b[0], b[1], b[2]);
    assert e[3] != '=';
    assert Decode(e) == DecodeFinal(e[0], e[1], e[2], e[3]);
    assert [b[0], b[1], b[2]] == b;
  }

  /** Decoding a full group that more input follows. */
  lemma DecodeCons(s: string, group: Bytes, rest: Bytes)
    requires |s| > 4
    requires DecodeFull(s[0], s[1], s[2], s[3]) == Some(group)
    requires Decode(s[4..]) == Some(rest)
    ensures Decode(s) == Some(group + rest)
  {
  }

  /** A full group followed by more input: the group, then whatever the rest decodes to. */
  lemma DecodeLeadingTriple(b0: byte, b1: byte, b2: byte, tail: string, rest: Bytes)
    requires |tail| > 0
    requires Decode(tail) == Some(rest)
    ensures Decode(EncodeTriple(b0, b1, b2) + tail) == Some([b0, b1, b2] + rest)
  {
    var e := EncodeTriple(b0, b1, b2);
    var s := e + tail;
    assert DecodeFull(s[0], s[1], s[2], s[3]) == Some([b0, b1, b2]) by {
      DecodeFullOfTriple(b0, b1, b2);
      assert s[0] == e[0] && s[1] == e[1] && s[2] == e[2] && s[3] == e[3];
    }
    assert s[4..] == tail;
    DecodeCons(s, [b0, b1, b2], rest);
  }

  /** Bytes of length three or more are their first three bytes followed by the rest. */
  lemma SplitThree(b: Bytes)
    requires |b| >= 3
    ensures [b[0], b[1], b[2]] + b[3..] == b
  {
  }

  /** The step of the round trip: a leading group before a tail that round-trips. */
  lemma DecodeLonger(b: Bytes)
    requires |b| > 3
    requires Decode(Encode(b[3..])) == Some(b[3..])
    ensures Decode(Encode(b)) == Some(b)
  {
    SplitThree(b);
    var tail := Encode(b[3..]);
    assert |tail| > 0 by { assert |b[3..]| > 0; }
    assert Encode(b) == EncodeTriple(b[0], b[1], b[2]) + tail;
    DecodeLeadingTriple(b[0], b[1], b[2], tail, b[3..]);
  }

  /** Round trip: decoding an encoding gives back exactly the encoded bytes. */
  lemma {:induction false} DecodeEncode(b: Bytes)
    ensures Decode(Encode(b)) == Some(b)
    decreases |b|
  {
    if |b| == 1 {
      DecodeSingle(b);
    } else if |b| == 2 {
      DecodePair(b);
    } else if |b| == 3 {
      DecodeLastTriple(b);
    } else if |b| > 3 {
      DecodeEncode(b[3..]);
      DecodeLonger(b);
    }
  }

  /** Distinct byte strings never share an encoding, so the encoding loses nothing. */
  lemma EncodeInjective(b: Bytes, b': Bytes)
    requires Encode(b) == Encode(b')
    ensures b == b'
  {
    DecodeEncode(b);
    DecodeEncode(b');
  }
}
