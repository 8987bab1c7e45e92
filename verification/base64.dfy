/**
 * The standard base64 encoding of RFC 4648 section 4, as `b64encode` emits it
 * and as `b64decode` reads its canonical form.
 */
module Base64 {
  import opened ByteSeqs
  import opened Wrappers

  /** The character for a six-bit value: A-Z, a-z, 0-9, '+', '/'. */
  function IndexChar(i: int): (c: char)
    requires 0 <= i < 64
  {
    if i < 26 then ('A' as int + i) as char
    else if i < 52 then ('a' as int + i - 26) as char
    else if i < 62 then ('0' as int + i - 52) as char
    else if i == 62 then '+'
    else '/'
  }

  function CharIndex(c: char): (r: Option<nat>)
    ensures r.Some? ==> r.value < 64 && IndexChar(r.value) == c
  {
    if 'A' <= c <= 'Z' then Some(c as int - 'A' as int)
    else if 'a' <= c <= 'z' then Some(c as int - 'a' as int + 26)
    else if '0' <= c <= '9' then Some(c as int - '0' as int + 52)
    else if c == '+' then Some(62)
    else if c == '/' then Some(63)
    else None
  }

  lemma CharIndexOfIndexChar(i: int)
    requires 0 <= i < 64
    ensures CharIndex(IndexChar(i)) == Some(i)
  {
  }

  /** Every character an encoder may emit: the 64 symbols and the pad '='. */
  predicate IsEncodingChar(c: char) {
    CharIndex(c).Some? || c == '='
  }

  // Six-bit pieces of a three-byte group, from the most significant end.
  function Sextet0(b0: byte): int { b0 as int / 4 }
  function Sextet1(b0: byte, b1: byte): int { (b0 as int % 4) * 16 + b1 as int / 16 }
  function Sextet2(b1: byte, b2: byte): int { (b1 as int % 16) * 4 + b2 as int / 64 }
  function Sextet3(b2: byte): int { b2 as int % 64 }

  function Encode(b: Bytes): (s: string)
    ensures |s| == 4 * ((|b| + 2) / 3)
    decreases |b|
  {
    if |b| == 0 then ""
    else if |b| == 1 then
      [IndexChar(Sextet0(b[0])), IndexChar(Sextet1(b[0], 0)), '=', '=']
    else if |b| == 2 then
      [IndexChar(Sextet0(b[0])), IndexChar(Sextet1(b[0], b[1])), IndexChar(Sextet2(b[1], 0)), '=']
    else EncodeGroup(b[0], b[1], b[2]) + Encode(b[3..])
  }

  function EncodeGroup(b0: byte, b1: byte, b2: byte): string {
    [IndexChar(Sextet0(b0)), IndexChar(Sextet1(b0, b1)), IndexChar(Sextet2(b1, b2)), IndexChar(Sextet3(b2))]
  }

  /** The encoder emits only alphabet characters and the pad. */
  lemma {:induction false} EncodeAlphabet(b: Bytes)
    ensures forall i :: 0 <= i < |Encode(b)| ==> IsEncodingChar(Encode(b)[i])
    decreases |b|
  {
    if |b| >= 3 {
      EncodeAlphabet(b[3..]);
      var g := EncodeGroup(b[0], b[1], b[2]);
      assert forall i :: 0 <= i < 4 ==> IsEncodingChar(g[i]) by {
        CharIndexOfIndexChar(Sextet0(b[0]));
        CharIndexOfIndexChar(Sextet1(b[0], b[1]));
        CharIndexOfIndexChar(Sextet2(b[1], b[2]));
        CharIndexOfIndexChar(Sextet3(b[2]));
      }
      assert Encode(b) == g + Encode(b[3..]);
    } else if |b| == 2 {
      CharIndexOfIndexChar(Sextet0(b[0]));
      CharIndexOfIndexChar(Sextet1(b[0], b[1]));
      CharIndexOfIndexChar(Sextet2(b[1], 0));
    } else if |b| == 1 {
      CharIndexOfIndexChar(Sextet0(b[0]));
      CharIndexOfIndexChar(Sextet1(b[0], 0));
    }
  }

  // Bytes back from six-bit values; bits beyond the last whole byte are ignored.
  function Byte0(i0: nat, i1: nat): byte requires i0 < 64 && i1 < 64 { (i0 * 4 + i1 / 16) as byte }
  function Byte1(i1: nat, i2: nat): byte requires i1 < 64 && i2 < 64 { ((i1 % 16) * 16 + i2 / 4) as byte }
  function Byte2(i2: nat, i3: nat): byte requires i2 < 64 && i3 < 64 { ((i2 % 4) * 64 + i3) as byte }

  /** A four-character group without padding. */
  function DecodeQuad(q: string): (r: Option<Bytes>)
    requires |q| == 4
    ensures r.Some? ==> |r.value| == 3
  {
    match (CharIndex(q[0]), CharIndex(q[1]), CharIndex(q[2]), CharIndex(q[3]))
    case (Some(i0), Some(i1), Some(i2), Some(i3)) =>
      Some([Byte0(i0, i1), Byte1(i1, i2), Byte2(i2, i3)])
    case _ => None
  }

  /** The last group, which may end in "==" (one byte) or "=" (two bytes). */
  function DecodeLast(q: string): (r: Option<Bytes>)
    requires |q| == 4
    ensures r.Some? ==> 1 <= |r.value| <= 3
  {
    if q[2] == '=' && q[3] == '=' then
      match (CharIndex(q[0]), CharIndex(q[1]))
      case (Some(i0), Some(i1)) => Some([Byte0(i0, i1)])
      case _ => None
    else if q[3] == '=' then
      match (CharIndex(q[0]), CharIndex(q[1]), CharIndex(q[2]))
      case (Some(i0), Some(i1), Some(i2)) => Some([Byte0(i0, i1), Byte1(i1, i2)])
      case _ => None
    else DecodeQuad(q)
  }

  /**
   * Decoding of canonical base64: whole four-character groups, padding only
   * at the very end. Anything else is a decoding error.
   */
  function Decode(s: string): (r: Option<Bytes>)
    decreases |s|
  {
    if s == [] then Some([])
    else if |s| < 4 then None
    else if |s| == 4 then DecodeLast(s)
    else
      match DecodeQuad(s[..4])
      case None => None
      case Some(g) =>
        match Decode(s[4..])
        case None => None
        case Some(rest) => Some(g + rest)
  }

  lemma FirstByte(b0: byte, b1: byte)
    ensures Byte0(Sextet0(b0), Sextet1(b0, b1)) == b0
  {
    var x0, x1 := b0 as int, b1 as int;
    assert ((x0 % 4) * 16 + x1 / 16) / 16 == x0 % 4;
  }

  lemma SecondByte(b0: byte, b1: byte, b2: byte)
    ensures Byte1(Sextet1(b0, b1), Sextet2(b1, b2)) == b1
  {
    var x0, x1, x2 := b0 as int, b1 as int, b2 as int;
    assert ((x0 % 4) * 16 + x1 / 16) % 16 == x1 / 16;
    assert ((x1 % 16) * 4 + x2 / 64) / 4 == x1 % 16;
  }

  lemma ThirdByte(b1: byte, b2: byte)
    ensures Byte2(Sextet2(b1, b2), Sextet3(b2)) == b2
  {
    var x1, x2 := b1 as int, b2 as int;
    assert ((x1 % 16) * 4 + x2 / 64) % 4 == x2 / 64;
  }

  lemma DecodeGroup(b0: byte, b1: byte, b2: byte)
    ensures DecodeQuad(EncodeGroup(b0, b1, b2)) == Some([b0, b1, b2])
    ensures DecodeLast(EncodeGroup(b0, b1, b2)) == Some([b0, b1, b2])
  {
    FirstByte(b0, b1);
    SecondByte(b0, b1, b2);
    ThirdByte(b1, b2);
    CharIndexOfIndexChar(Sextet0(b0));
    CharIndexOfIndexChar(Sextet1(b0, b1));
    CharIndexOfIndexChar(Sextet2(b1, b2));
    CharIndexOfIndexChar(Sextet3(b2));
  }

  lemma DecodeOne(b0: byte)
    ensures Decode(Encode([b0])) == Some([b0])
  {
    var i0, i1 := Sextet0(b0), Sextet1(b0, 0);
    var s := Encode([b0]);
    assert s == [IndexChar(i0), IndexChar(i1), '=', '='];
    CharIndexOfIndexChar(i0);
    CharIndexOfIndexChar(i1);
    FirstByte(b0, 0);
    assert s[2] == '=' && s[3] == '=';
    assert CharIndex(s[0]) == Some(i0) && CharIndex(s[1]) == Some(i1);
    assert DecodeLast(s) == Some([Byte0(i0, i1)]);
  }

  lemma DecodeTwo(b0: byte, b1: byte)
    ensures Decode(Encode([b0, b1])) == Some([b0, b1])
  {
    var i0, i1, i2 := Sextet0(b0), Sextet1(b0, b1), Sextet2(b1, 0);
    var s := Encode([b0, b1]);
    assert s == [IndexChar(i0), IndexChar(i1), IndexChar(i2), '='];
    CharIndexOfIndexChar(i0);
    CharIndexOfIndexChar(i1);
    CharIndexOfIndexChar(i2);
    FirstByte(b0, b1);
    SecondByte(b0, b1, 0);
    assert DecodeLast(s) == Some([Byte0(i0, i1), Byte1(i1, i2)]);
  }

  lemma ConsThree(b: Bytes)
    requires |b| >= 3
    ensures [b[0], b[1], b[2]] + b[3..] == b
  {
  }

  lemma DecodeThree(b: Bytes)
    requires |b| == 3
    ensures Decode(Encode(b)) == Some(b)
  {
    var g := EncodeGroup(b[0], b[1], b[2]);
    DecodeGroup(b[0], b[1], b[2]);
    assert Encode(b) == g + Encode([]);
    assert Encode(b) == g && [b[0], b[1], b[2]] == b;
  }

  /** A full group followed by a decodable tail of at least one group. */
  lemma DecodeAppend(g: string, t: string, x: Bytes, y: Bytes)
    requires |g| == 4 && |t| >= 4
    requires DecodeQuad(g) == Some(x) && Decode(t) == Some(y)
    ensures Decode(g + t) == Some(x + y)
  {
    var s := g + t;
    assert s[..4] == g && s[4..] == t;
  }

  /** One whole group in front of a non-empty tail that already round-trips. */
  lemma DecodeLong(b: Bytes)
    requires |b| > 3 && Decode(Encode(b[3..])) == Some(b[3..])
    ensures Decode(Encode(b)) == Some(b)
  {
    var g := EncodeGroup(b[0], b[1], b[2]);
    DecodeGroup(b[0], b[1], b[2]);
    DecodeAppend(g, Encode(b[3..]), [b[0], b[1], b[2]], b[3..]);
    ConsThree(b);
  }

  /** `b64decode(b64encode(b)) == b`. */
  lemma {:induction false} DecodeEncode(b: Bytes)
    ensures Decode(Encode(b)) == Some(b)
    decreases |b|
  {
    if |b| == 1 {
      DecodeOne(b[0]);
      assert [b[0]] == b;
    } else if |b| == 2 {
      DecodeTwo(b[0], b[1]);
      assert [b[0], b[1]] == b;
    } else if |b| == 3 {
      DecodeThree(b);
    } else if |b| > 3 {
      DecodeEncode(b[3..]);
      DecodeLong(b);
    }
  }
}
