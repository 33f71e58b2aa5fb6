/** The base 64 encoding of section 4 of RFC 4648 (alphabet A-Z a-z 0-9 + /,
    '=' padding), which is what Python's standard base64 encoder produces, and a
    decoder that accepts exactly the canonical encodings. */
module Base64 {
  import opened Wrappers
  import Seqs

  type byte = b: int | 0 <= b < 256

  /** The character of the 6-bit value `v` (Table 1 of RFC 4648). */
  function Sextet(v: int): (c: char)
    requires 0 <= v < 64
    ensures c != '='
  {
    if v < 26 then ('A' as int + v) as char
    else if v < 52 then ('a' as int + (v - 26)) as char
    else if v < 62 then ('0' as int + (v - 52)) as char
    else if v == 62 then '+'
    else '/'
  }

  /** The 6-bit value of an alphabet character; None for any other character. */
  function SextetValue(c: char): (r: Option<int>)
    ensures r.Some? ==> 0 <= r.value < 64 && Sextet(r.value) == c
  {
    if 'A' <= c <= 'Z' then Some(c as int - 'A' as int)
    else if 'a' <= c <= 'z' then Some(c as int - 'a' as int + 26)
    else if '0' <= c <= '9' then Some(c as int - '0' as int + 52)
    else if c == '+' then Some(62)
    else if c == '/' then Some(63)
    else None
  }

  lemma SextetRoundTrip(v: int)
    requires 0 <= v < 64
    ensures SextetValue(Sextet(v)) == Some(v)
  {
  }

  /** The encoding of `b`: each group of three bytes becomes four characters, and
      a final group of one or two bytes is padded with '='. */
  function Encode(b: seq<byte>): (r: string)
    ensures |r| == 4 * ((|b| + 2) / 3)
    decreases |b|
  {
    if |b| == 0 then []
    else if |b| == 1 then OneByteGroup(b[0])
    else if |b| == 2 then TwoByteGroup(b[0], b[1])
    else FullGroup(b[0], b[1], b[2]) + Encode(b[3..])
  }

  /** The four characters of a final group of one byte. */
  function OneByteGroup(b0: byte): string {
    [Sextet(b0 / 4), Sextet(b0 % 4 * 16), '=', '=']
  }

  /** The four characters of a final group of two bytes. */
  function TwoByteGroup(b0: byte, b1: byte): string {
    [Sextet(b0 / 4), Sextet(b0 % 4 * 16 + b1 / 16), Sextet(b1 % 16 * 4), '=']
  }

  /** The four characters of one full group of three bytes. */
  function FullGroup(b0: byte, b1: byte, b2: byte): string {
    [Sextet(b0 / 4), Sextet(b0 % 4 * 16 + b1 / 16), Sextet(b1 % 16 * 4 + b2 / 64), Sextet(b2 % 64)]
  }

  /** Decodes one group of four characters; `last` allows padding. Padding must
      sit at the end of the group, and the bits it leaves over must be zero. */
  function DecodeGroup(g: string, last: bool): Option<seq<byte>>
    requires |g| == 4
  {
    var v0, v1 := SextetValue(g[0]), SextetValue(g[1]);
    if v0.None? || v1.None? then None
    else if last && g[2] == '=' && g[3] == '=' then
      if v1.value % 16 == 0 then Some([v0.value * 4 + v1.value / 16]) else None
    else
      var v2 := SextetValue(g[2]);
      if v2.None? then None
      else if last && g[3] == '=' then
        if v2.value % 4 == 0 then
          Some([v0.value * 4 + v1.value / 16, v1.value % 16 * 16 + v2.value / 4])
        else None
      else
        var v3 := SextetValue(g[3]);
        if v3.None? then None
        else
          Some([v0.value * 4 + v1.value / 16, v1.value % 16 * 16 + v2.value / 4,
                v2.value % 4 * 64 + v3.value])
  }

  /** The bytes a canonical encoding stands for; None for anything else. */
  function Decode(s: string): Option<seq<byte>>
    decreases |s|
  {
    if |s| == 0 then Some([])
    else if |s| < 4 then None
    else if |s| == 4 then DecodeGroup(s, true)
    else
      match DecodeGroup(s[..4], false)
      case None => None
      case Some(h) =>
        match Decode(s[4..])
        case None => None
        case Some(t) => Some(h + t)
  }

  /** The bit arithmetic of one full group: the four 6-bit values put back
      together give the three bytes. */
  lemma GroupBits(b0: byte, b1: byte, b2: byte)
    ensures (b0 / 4) * 4 + (b0 % 4 * 16 + b1 / 16) / 16 == b0
    ensures (b0 % 4 * 16 + b1 / 16) % 16 * 16 + (b1 % 16 * 4 + b2 / 64) / 4 == b1
    ensures (b1 % 16 * 4 + b2 / 64) % 4 * 64 + b2 % 64 == b2
  {
    assert (b0 % 4 * 16 + b1 / 16) / 16 == b0 % 4;
    assert (b0 % 4 * 16 + b1 / 16) % 16 == b1 / 16;
    assert (b1 % 16 * 4 + b2 / 64) / 4 == b1 % 16;
    assert (b1 % 16 * 4 + b2 / 64) % 4 == b2 / 64;
  }

  lemma DecodeFullGroup(g: string, last: bool, x0: int, x1: int, x2: int, x3: int)
    requires |g| == 4 && g[2] != '=' && g[3] != '='
    requires SextetValue(g[0]) == Some(x0) && SextetValue(g[1]) == Some(x1)
    requires SextetValue(g[2]) == Some(x2) && SextetValue(g[3]) == Some(x3)
    ensures DecodeGroup(g, last) == Some([x0 * 4 + x1 / 16, x1 % 16 * 16 + x2 / 4, x2 % 4 * 64 + x3])
  {
  }

  lemma EncodeFullGroup(b: seq<byte>)
    requires |b| >= 3
    ensures Encode(b) == FullGroup(b[0], b[1], b[2]) + Encode(b[3..])
  {
  }

  lemma FullGroupRoundTrip(b0: byte, b1: byte, b2: byte, last: bool)
    ensures |FullGroup(b0, b1, b2)| == 4
    ensures DecodeGroup(FullGroup(b0, b1, b2), last) == Some([b0, b1, b2])
  {
    var v0, v1 := b0 / 4, b0 % 4 * 16 + b1 / 16;
    var v2, v3 := b1 % 16 * 4 + b2 / 64, b2 % 64;
    SextetRoundTrip(v0);
    SextetRoundTrip(v1);
    SextetRoundTrip(v2);
    SextetRoundTrip(v3);
    DecodeFullGroup(FullGroup(b0, b1, b2), last, v0, v1, v2, v3);
    GroupBits(b0, b1, b2);
  }

  /** How `Decode` takes the first group off a longer string. */
  lemma DecodeCons(g: string, t: string)
    requires |g| == 4
    ensures Decode(g + t) ==
            if t == [] then DecodeGroup(g, true)
            else match DecodeGroup(g, false)
              case None => None
              case Some(h) => match Decode(t) case None => None case Some(u) => Some(h + u)
  {
    assert (g + t)[..4] == g && (g + t)[4..] == t;
    if t == [] {
      assert g + t == g;
    }
  }

  lemma OneByteGroupRoundTrip(b0: byte)
    ensures DecodeGroup(OneByteGroup(b0), true) == Some([b0])
  {
    SextetRoundTrip(b0 / 4);
    SextetRoundTrip(b0 % 4 * 16);
  }

  lemma TwoByteGroupRoundTrip(b0: byte, b1: byte)
    ensures DecodeGroup(TwoByteGroup(b0, b1), true) == Some([b0, b1])
  {
    SextetRoundTrip(b0 / 4);
    SextetRoundTrip(b0 % 4 * 16 + b1 / 16);
    SextetRoundTrip(b1 % 16 * 4);
  }

  /** Decoding an encoding gives the bytes back. */
  lemma {:induction false} DecodeEncode(b: seq<byte>)
    ensures Decode(Encode(b)) == Some(b)
    decreases |b|
  {
    if 1 <= |b| <= 2 {
      DecodeEncodeLast(b);
    } else if |b| >= 3 {
      DecodeEncode(b[3..]);
      DecodeEncodeStep(b);
    }
  }

  lemma DecodeEncodeLast(b: seq<byte>)
    requires 1 <= |b| <= 2
    ensures Decode(Encode(b)) == Some(b)
  {
    var g := if |b| == 1 then OneByteGroup(b[0]) else TwoByteGroup(b[0], b[1]);
    assert Encode(b) == g + [];
    DecodeCons(g, []);
    if |b| == 1 {
      OneByteGroupRoundTrip(b[0]);
      assert b == [b[0]];
    } else {
      TwoByteGroupRoundTrip(b[0], b[1]);
      assert b == [b[0], b[1]];
    }
  }

  lemma DecodeEncodeStep(b: seq<byte>)
    requires |b| >= 3
    requires Decode(Encode(b[3..])) == Some(b[3..])
    ensures Decode(Encode(b)) == Some(b)
  {
    EncodeFullGroup(b);
    if |b| == 3 {
      DecodeEncodeOneGroup(b);
    } else {
      DecodeEncodeMoreGroups(b[0], b[1], b[2], b[3..]);
      Seqs.FirstThree(b);
    }
  }

  lemma DecodeEncodeOneGroup(b: seq<byte>)
    requires |b| == 3
    ensures Decode(Encode(b)) == Some(b)
  {
    var g := FullGroup(b[0], b[1], b[2]);
    assert b[3..] == [];
    assert Encode(b) == g + [];
    FullGroupRoundTrip(b[0], b[1], b[2], true);
    DecodeCons(g, []);
    assert b == [b[0], b[1], b[2]];
  }

  lemma DecodeEncodeMoreGroups(b0: byte, b1: byte, b2: byte, rest: seq<byte>)
    requires rest != []
    requires Decode(Encode(rest)) == Some(rest)
    ensures Decode(FullGroup(b0, b1, b2) + Encode(rest)) == Some([b0, b1, b2] + rest)
  {
    var g, t := FullGroup(b0, b1, b2), Encode(rest);
    assert |t| > 0;
    FullGroupRoundTrip(b0, b1, b2, false);
    DecodeCons(g, t);
  }

  /** A group that decodes re-encodes to the same four characters. */
  lemma EncodeDecodeGroup(g: string, last: bool)
    requires |g| == 4 && DecodeGroup(g, last).Some?
    ensures |DecodeGroup(g, last).value| == 3 ==> Encode(DecodeGroup(g, last).value) == g
    ensures |DecodeGroup(g, last).value| < 3 ==> last && Encode(DecodeGroup(g, last).value) == g
  {
    if last && g[2] == '=' && g[3] == '=' {
      EncodeDecodeOnePadded(g);
    } else if last && g[3] == '=' {
      EncodeDecodeTwoPadded(g);
    } else {
      EncodeDecodeUnpadded(g, last);
    }
  }

  lemma EncodeDecodeOnePadded(g: string)
    requires |g| == 4 && g[2] == '=' && g[3] == '='
    requires DecodeGroup(g, true).Some?
    ensures |DecodeGroup(g, true).value| == 1 && Encode(DecodeGroup(g, true).value) == g
  {
    var v0, v1 := SextetValue(g[0]).value, SextetValue(g[1]).value;
    var b := DecodeGroup(g, true).value;
    assert b[0] / 4 == v0 && b[0] % 4 * 16 == v1;
    assert Encode(b) == [Sextet(v0), Sextet(v1), '=', '='];
  }

  lemma EncodeDecodeTwoPadded(g: string)
    requires |g| == 4 && g[2] != '=' && g[3] == '='
    requires DecodeGroup(g, true).Some?
    ensures |DecodeGroup(g, true).value| == 2 && Encode(DecodeGroup(g, true).value) == g
  {
    var v0, v1 := SextetValue(g[0]).value, SextetValue(g[1]).value;
    var v2 := SextetValue(g[2]).value;
    var b := DecodeGroup(g, true).value;
    assert b[0] / 4 == v0;
    assert b[0] % 4 * 16 + b[1] / 16 == v1;
    assert b[1] % 16 * 4 == v2;
    assert Encode(b) == [Sextet(v0), Sextet(v1), Sextet(v2), '='];
  }

  /** The bit arithmetic of one full group read the other way: the three bytes
      split again give the four 6-bit values. */
  lemma SextetBits(x0: int, x1: int, x2: int, x3: int)
    requires 0 <= x0 < 64 && 0 <= x1 < 64 && 0 <= x2 < 64 && 0 <= x3 < 64
    ensures (x0 * 4 + x1 / 16) / 4 == x0
    ensures (x0 * 4 + x1 / 16) % 4 * 16 + (x1 % 16 * 16 + x2 / 4) / 16 == x1
    ensures (x1 % 16 * 16 + x2 / 4) % 16 * 4 + (x2 % 4 * 64 + x3) / 64 == x2
    ensures (x2 % 4 * 64 + x3) % 64 == x3
  {
  }

  lemma EncodeDecodeUnpadded(g: string, last: bool)
    requires |g| == 4 && DecodeGroup(g, last).Some?
    requires !(last && g[3] == '=')
    ensures |DecodeGroup(g, last).value| == 3 && Encode(DecodeGroup(g, last).value) == g
  {
    var v0, v1 := SextetValue(g[0]).value, SextetValue(g[1]).value;
    var v2, v3 := SextetValue(g[2]).value, SextetValue(g[3]).value;
    var b := DecodeGroup(g, last).value;
    assert b == [v0 * 4 + v1 / 16, v1 % 16 * 16 + v2 / 4, v2 % 4 * 64 + v3];
    SextetBits(v0, v1, v2, v3);
    assert FullGroup(b[0], b[1], b[2]) == [Sextet(v0), Sextet(v1), Sextet(v2), Sextet(v3)];
    assert FullGroup(b[0], b[1], b[2]) == g;
    EncodeFullGroup(b);
    assert b[3..] == [];
  }

  /** Whatever decodes is the encoding of what it decodes to. */
  lemma {:induction false} EncodeDecode(s: string)
    requires Decode(s).Some?
    ensures Encode(Decode(s).value) == s
    decreases |s|
  {
    if |s| == 4 {
      EncodeDecodeGroup(s, true);
    } else if |s| > 4 {
      var h := DecodeGroup(s[..4], false).value;
      var t := Decode(s[4..]).value;
      EncodeDecodeGroup(s[..4], false);
      EncodeDecode(s[4..]);
      assert |h| == 3;
      assert (h + t)[..3] == h && (h + t)[3..] == t;
      assert s == s[..4] + s[4..];
    }
  }

  /** Encoding is a bijection between byte strings and canonical encodings. */
  lemma DecodeIffEncode(s: string, b: seq<byte>)
    ensures Decode(s) == Some(b) <==> Encode(b) == s
  {
    if Decode(s) == Some(b) {
      EncodeDecode(s);
    }
    if Encode(b) == s {
      DecodeEncode(b);
    }
  }
}
