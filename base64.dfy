/** Octets, the unit of a response body. */
module Bytes {

  /** One octet of a response body. */
  newtype byte = x: int | 0 <= x < 256

  /** True when `b` is the ASCII (hence UTF-8) encoding of `text`: one octet
      per character, holding the character's code. */
  predicate IsAsciiOf(b: seq<byte>, text: string) {
    |b| == |text| && forall i :: 0 <= i < |b| ==> b[i] as int == text[i] as int
  }
}

/** The "base64" encoding of section 4 of RFC 4648 (standard alphabet, with
    '=' padding), which is what the cache uses as the fingerprint of a body,
    and its strict decoder, which shows that the encoding loses nothing. */
module Base64 {
  import opened Bytes

  datatype Option<T> = None | Some(value: T)

  /** The padding character of section 3.2 of RFC 4648. */
  const Pad: char := '='

  /** The character that stands for the 6-bit value `v` (Table 1 of RFC 4648):
      'A'..'Z' for 0..25, 'a'..'z' for 26..51, '0'..'9' for 52..61, then '+'
      and '/'. */
  function CharOf(v: int): (c: char)
    requires 0 <= v < 64
    ensures c != Pad
  {
    if v < 26 then ('A' as int + v) as char
    else if v < 52 then ('a' as int + (v - 26)) as char
    else if v < 62 then ('0' as int + (v - 52)) as char
    else if v == 62 then '+'
    else '/'
  }

  /** The 6-bit value of an alphabet character, `None` for any other character
      (the padding character included). */
  function ValueOf(c: char): (r: Option<int>)
    ensures r.Some? ==> 0 <= r.value < 64
    ensures c == Pad ==> r.None?
  {
    if 'A' <= c <= 'Z' then Some(c as int - 'A' as int)
    else if 'a' <= c <= 'z' then Some(c as int - 'a' as int + 26)
    else if '0' <= c <= '9' then Some(c as int - '0' as int + 52)
    else if c == '+' then Some(62)
    else if c == '/' then Some(63)
    else None
  }

  lemma ValueOfCharOf(v: int)
    requires 0 <= v < 64
    ensures ValueOf(CharOf(v)) == Some(v)
  {
  }

  lemma CharOfValueOf(c: char)
    requires ValueOf(c).Some?
    ensures CharOf(ValueOf(c).value) == c
  {
  }

  /** Three octets as four characters (section 4 of RFC 4648). */
  function Quad(b0: byte, b1: byte, b2: byte): string {
    [CharOf(b0 as int / 4),
     CharOf(b0 as int % 4 * 16 + b1 as int / 16),
     CharOf(b1 as int % 16 * 4 + b2 as int / 64),
     CharOf(b2 as int % 64)]
  }

  /** A final group of one octet: two characters and two pads. */
  function QuadOfOne(b0: byte): string {
    [CharOf(b0 as int / 4), CharOf(b0 as int % 4 * 16), Pad, Pad]
  }

  /** A final group of two octets: three characters and one pad. */
  function QuadOfTwo(b0: byte, b1: byte): string {
    [CharOf(b0 as int / 4),
     CharOf(b0 as int % 4 * 16 + b1 as int / 16),
     CharOf(b1 as int % 16 * 4),
     Pad]
  }

  /** The base64 text of `b`: one quad per started group of three octets. */
  function Encode(b: seq<byte>): (s: string)
    ensures |s| == 4 * ((|b| + 2) / 3)
    ensures s == [] <==> b == []
    decreases |b|
  {
    if |b| == 0 then []
    else if |b| == 1 then QuadOfOne(b[0])
    else if |b| == 2 then QuadOfTwo(b[0], b[1])
    else Quad(b[0], b[1], b[2]) + Encode(b[3..])
  }

  /** Four alphabet characters back to three octets. */
  function DecodeQuad(c0: char, c1: char, c2: char, c3: char): (r: Option<seq<byte>>)
    ensures r.Some? ==> |r.value| == 3
  {
    match (ValueOf(c0), ValueOf(c1), ValueOf(c2), ValueOf(c3))
    case (Some(v0), Some(v1), Some(v2), Some(v3)) =>
      Some([(v0 * 4 + v1 / 16) as byte, (v1 % 16 * 16 + v2 / 4) as byte, (v2 % 4 * 64 + v3) as byte])
    case _ => None
  }

  /** The last quad of a text, which may end in one or two pads; the bits
      that the pads make unused must be zero (section 3.5 of RFC 4648). */
  function DecodeLast(c0: char, c1: char, c2: char, c3: char): (r: Option<seq<byte>>)
    ensures r.Some? ==> 1 <= |r.value| <= 3
  {
    if c2 == Pad && c3 == Pad then
      match (ValueOf(c0), ValueOf(c1))
      case (Some(v0), Some(v1)) =>
        if v1 % 16 == 0 then Some([(v0 * 4 + v1 / 16) as byte]) else None
      case _ => None
    else if c3 == Pad then
      match (ValueOf(c0), ValueOf(c1), ValueOf(c2))
      case (Some(v0), Some(v1), Some(v2)) =>
        if v2 % 4 == 0 then Some([(v0 * 4 + v1 / 16) as byte, (v1 % 16 * 16 + v2 / 4) as byte]) else None
      case _ => None
    else
      DecodeQuad(c0, c1, c2, c3)
  }

  /** Strict decoding: `None` for a length that is not a multiple of four, a
      character outside the alphabet, padding before the last quad, or nonzero
      unused bits. */
  function Decode(s: string): (r: Option<seq<byte>>)
    ensures r.Some? ==> (r.value == [] <==> s == [])
    decreases |s|
  {
    if |s| == 0 then Some([])
    else if |s| < 4 then None
    else if |s| == 4 then DecodeLast(s[0], s[1], s[2], s[3])
    else
      match DecodeQuad(s[0], s[1], s[2], s[3])
      case None => None
      case Some(q) =>
        match Decode(s[4..])
        case None => None
        case Some(rest) => Some(q + rest)
  }

  // Arithmetic on the 8-bit and 6-bit groups

  /** The four 6-bit values of `Quad` put back together give the three octets. */
  lemma QuadArithmetic(x: int, y: int, z: int)
    requires 0 <= x < 256 && 0 <= y < 256 && 0 <= z < 256
    ensures var v0, v1, v2, v3 := x / 4, x % 4 * 16 + y / 16, y % 16 * 4 + z / 64, z % 64;
      v0 * 4 + v1 / 16 == x && v1 % 16 * 16 + v2 / 4 == y && v2 % 4 * 64 + v3 == z
  {
    var v1, v2 := x % 4 * 16 + y / 16, y % 16 * 4 + z / 64;
    assert v1 / 16 == x % 4 && v1 % 16 == y / 16;
    assert v2 / 4 == y % 16 && v2 % 4 == z / 64;
  }

  /** The three octets of `DecodeQuad` split again give the four 6-bit values. */
  lemma SextetArithmetic(v0: int, v1: int, v2: int, v3: int)
    requires 0 <= v0 < 64 && 0 <= v1 < 64 && 0 <= v2 < 64 && 0 <= v3 < 64
    ensures var x, y, z := v0 * 4 + v1 / 16, v1 % 16 * 16 + v2 / 4, v2 % 4 * 64 + v3;
      x / 4 == v0 && x % 4 * 16 + y / 16 == v1 && y % 16 * 4 + z / 64 == v2 && z % 64 == v3
  {
    var x, y, z := v0 * 4 + v1 / 16, v1 % 16 * 16 + v2 / 4, v2 % 4 * 64 + v3;
    assert x / 4 == v0 && x % 4 == v1 / 16;
    assert y / 16 == v1 % 16 && y % 16 == v2 / 4;
    assert z / 64 == v2 % 4 && z % 64 == v3;
  }

  // Decoding undoes encoding

  lemma QuadRoundTrip(b0: byte, b1: byte, b2: byte)
    ensures var q := Quad(b0, b1, b2); DecodeQuad(q[0], q[1], q[2], q[3]) == Some([b0, b1, b2])
  {
    var x, y, z := b0 as int, b1 as int, b2 as int;
    ValueOfCharOf(x / 4);
    ValueOfCharOf(x % 4 * 16 + y / 16);
    ValueOfCharOf(y % 16 * 4 + z / 64);
    ValueOfCharOf(z % 64);
    QuadArithmetic(x, y, z);
  }

  lemma QuadOfOneRoundTrip(b0: byte)
    ensures var q := QuadOfOne(b0); DecodeLast(q[0], q[1], q[2], q[3]) == Some([b0])
  {
    ValueOfCharOf(b0 as int / 4);
    ValueOfCharOf(b0 as int % 4 * 16);
  }

  lemma QuadOfTwoRoundTrip(b0: byte, b1: byte)
    ensures var q := QuadOfTwo(b0, b1); DecodeLast(q[0], q[1], q[2], q[3]) == Some([b0, b1])
  {
    var x, y := b0 as int, b1 as int;
    ValueOfCharOf(x / 4);
    ValueOfCharOf(x % 4 * 16 + y / 16);
    ValueOfCharOf(y % 16 * 4);
    QuadArithmetic(x, y, 0);
  }

  /** Decoding undoes encoding: every body is recovered from its fingerprint. */
  lemma {:induction false} DecodeEncode(b: seq<byte>)
    ensures Decode(Encode(b)) == Some(b)
    decreases |b|
  {
    if |b| == 1 {
      DecodeEncodeOne(b);
    } else if |b| == 2 {
      DecodeEncodeTwo(b);
    } else if |b| == 3 {
      DecodeEncodeThree(b);
    } else if |b| > 3 {
      DecodeEncode(b[3..]);
      DecodeEncodeStep(b);
    }
  }

  lemma DecodeEncodeOne(b: seq<byte>)
    requires |b| == 1
    ensures Decode(Encode(b)) == Some(b)
  {
    QuadOfOneRoundTrip(b[0]);
    assert b == [b[0]];
  }

  lemma DecodeEncodeTwo(b: seq<byte>)
    requires |b| == 2
    ensures Decode(Encode(b)) == Some(b)
  {
    QuadOfTwoRoundTrip(b[0], b[1]);
    assert b == [b[0], b[1]];
  }

  lemma DecodeEncodeThree(b: seq<byte>)
    requires |b| == 3
    ensures Decode(Encode(b)) == Some(b)
  {
    var q := Quad(b[0], b[1], b[2]);
    QuadRoundTrip(b[0], b[1], b[2]);
    assert Encode(b[3..]) == [];
    assert Encode(b) == q;
    assert b == [b[0], b[1], b[2]];
  }

  lemma DecodeEncodeStep(b: seq<byte>)
    requires |b| > 3 && Decode(Encode(b[3..])) == Some(b[3..])
    ensures Decode(Encode(b)) == Some(b)
  {
    SplitAfterThree(b);
    EncodeSplit(b);
    DecodeQuadThen(b[0], b[1], b[2], Encode(b[3..]), b[3..]);
  }

  lemma SplitAfterThree(b: seq<byte>)
    requires |b| >= 3
    ensures b == [b[0], b[1], b[2]] + b[3..]
  {
  }

  lemma EncodeSplit(b: seq<byte>)
    requires |b| > 3
    ensures Encode(b) == Quad(b[0], b[1], b[2]) + Encode(b[3..])
  {
  }

  lemma DecodeQuadThen(b0: byte, b1: byte, b2: byte, t: string, w: seq<byte>)
    requires |t| > 0 && Decode(t) == Some(w)
    ensures Decode(Quad(b0, b1, b2) + t) == Some([b0, b1, b2] + w)
  {
    QuadRoundTrip(b0, b1, b2);
    DecodeConcat(Quad(b0, b1, b2), t, [b0, b1, b2], w);
  }

  /** Encoding a body of more than three octets starts with its first quad. */
  lemma EncodeFirstQuad(q: seq<byte>, rest: seq<byte>)
    requires |q| == 3 && rest != []
    ensures Encode(q + rest) == Quad(q[0], q[1], q[2]) + Encode(rest)
  {
    var b := q + rest;
    assert b[0] == q[0] && b[1] == q[1] && b[2] == q[2];
    assert b[3..] == rest;
  }

  /** Decoding a full first quad followed by a non-empty text. */
  lemma DecodeConcat(q: string, rest: string, v: seq<byte>, w: seq<byte>)
    requires |q| == 4 && |rest| > 0
    requires DecodeQuad(q[0], q[1], q[2], q[3]) == Some(v) && Decode(rest) == Some(w)
    ensures Decode(q + rest) == Some(v + w)
  {
    var s := q + rest;
    assert s[0] == q[0] && s[1] == q[1] && s[2] == q[2] && s[3] == q[3];
    assert s[4..] == rest;
  }

  // Encoding undoes decoding

  lemma DecodeQuadExact(c0: char, c1: char, c2: char, c3: char, v: seq<byte>)
    requires DecodeQuad(c0, c1, c2, c3) == Some(v)
    ensures |v| == 3 && Quad(v[0], v[1], v[2]) == [c0, c1, c2, c3]
  {
    var v0, v1, v2, v3 := ValueOf(c0).value, ValueOf(c1).value, ValueOf(c2).value, ValueOf(c3).value;
    CharOfValueOf(c0); CharOfValueOf(c1); CharOfValueOf(c2); CharOfValueOf(c3);
    assert v == [(v0 * 4 + v1 / 16) as byte, (v1 % 16 * 16 + v2 / 4) as byte, (v2 % 4 * 64 + v3) as byte];
    SextetArithmetic(v0, v1, v2, v3);
    var x, y, z := v[0] as int, v[1] as int, v[2] as int;
    assert x / 4 == v0 && x % 4 * 16 + y / 16 == v1 && y % 16 * 4 + z / 64 == v2 && z % 64 == v3;
  }

  lemma DecodeTwoPadsExact(c0: char, c1: char, v: seq<byte>)
    requires DecodeLast(c0, c1, Pad, Pad) == Some(v)
    ensures |v| == 1 && QuadOfOne(v[0]) == [c0, c1, Pad, Pad]
  {
    CharOfValueOf(c0); CharOfValueOf(c1);
    SextetArithmetic(ValueOf(c0).value, ValueOf(c1).value, 0, 0);
  }

  lemma DecodeOnePadExact(c0: char, c1: char, c2: char, v: seq<byte>)
    requires c2 != Pad && DecodeLast(c0, c1, c2, Pad) == Some(v)
    ensures |v| == 2 && QuadOfTwo(v[0], v[1]) == [c0, c1, c2, Pad]
  {
    var v0, v1, v2 := ValueOf(c0).value, ValueOf(c1).value, ValueOf(c2).value;
    CharOfValueOf(c0); CharOfValueOf(c1); CharOfValueOf(c2);
    assert v == [(v0 * 4 + v1 / 16) as byte, (v1 % 16 * 16 + v2 / 4) as byte];
    SextetArithmetic(v0, v1, v2, 0);
    var x, y := v[0] as int, v[1] as int;
    assert x / 4 == v0 && x % 4 * 16 + y / 16 == v1 && y % 16 * 4 == v2;
  }

  lemma DecodeLastExact(c0: char, c1: char, c2: char, c3: char, v: seq<byte>)
    requires DecodeLast(c0, c1, c2, c3) == Some(v)
    ensures Encode(v) == [c0, c1, c2, c3]
  {
    if c2 == Pad && c3 == Pad {
      DecodeTwoPadsExact(c0, c1, v);
    } else if c3 == Pad {
      DecodeOnePadExact(c0, c1, c2, v);
    } else {
      DecodeQuadExact(c0, c1, c2, c3, v);
      assert Encode(v[3..]) == [];
      assert Encode(v) == Quad(v[0], v[1], v[2]) + [];
    }
  }

  /** Encoding undoes decoding: a text the strict decoder accepts is exactly
      the fingerprint of what it decodes to. */
  lemma {:induction false} EncodeDecode(s: string, b: seq<byte>)
    requires Decode(s) == Some(b)
    ensures Encode(b) == s
    decreases |s|
  {
    if |s| == 4 {
      EncodeDecodeLast(s, b);
    } else if |s| > 4 {
      var q, rest := DecodeSplit(s, b);
      EncodeDecode(s[4..], rest);
      EncodeDecodeStep(s, q, rest);
    }
  }

  lemma EncodeDecodeLast(s: string, b: seq<byte>)
    requires |s| == 4 && DecodeLast(s[0], s[1], s[2], s[3]) == Some(b)
    ensures Encode(b) == s
  {
    DecodeLastExact(s[0], s[1], s[2], s[3], b);
    assert s == [s[0], s[1], s[2], s[3]];
  }

  /** A decoded text longer than one quad is a full quad and a decoded rest. */
  lemma DecodeSplit(s: string, b: seq<byte>) returns (q: seq<byte>, rest: seq<byte>)
    requires |s| > 4 && Decode(s) == Some(b)
    ensures DecodeQuad(s[0], s[1], s[2], s[3]) == Some(q)
    ensures Decode(s[4..]) == Some(rest) && rest != []
    ensures b == q + rest
  {
    q := DecodeQuad(s[0], s[1], s[2], s[3]).value;
    rest := Decode(s[4..]).value;
  }

  lemma EncodeDecodeStep(s: string, q: seq<byte>, rest: seq<byte>)
    requires |s| > 4 && DecodeQuad(s[0], s[1], s[2], s[3]) == Some(q)
    requires rest != [] && Encode(rest) == s[4..]
    ensures Encode(q + rest) == s
  {
    DecodeQuadExact(s[0], s[1], s[2], s[3], q);
    EncodeFirstQuad(q, rest);
    assert s == [s[0], s[1], s[2], s[3]] + s[4..];
  }

  /** The fingerprint is injective: two bodies with the same base64 text are
      the same body. */
  lemma EncodeInjective(a: seq<byte>, b: seq<byte>)
    requires Encode(a) == Encode(b)
    ensures a == b
  {
    DecodeEncode(a);
    DecodeEncode(b);
  }
}
