/** Convert.ToBase64String as used for the Basic credentials: the Base64
    encoding of section 4 of RFC 4648, with '=' padding and no line breaks.
    The decoder is the partner against which the encoder is proved. */
module Base64 {
  import opened Ascii

  /** Is v one of the 64 sextet values? */
  predicate IsSextet(v: byte)
  {
    v < 64
  }

  /** A character of the alphabet. */
  predicate InAlphabet(c: char)
  {
    'A' <= c <= 'Z' || 'a' <= c <= 'z' || '0' <= c <= '9' || c == '+' || c == '/'
  }

  /** The Base64 alphabet (Table 1 of RFC 4648). */
  function IndexChar(v: byte): (c: char)
    requires IsSextet(v)
    ensures InAlphabet(c)
  {
    if v < 26 then ('A' as int + v as int) as char
    else if v < 52 then ('a' as int + v as int - 26) as char
    else if v < 62 then ('0' as int + v as int - 52) as char
    else if v == 62 then '+'
    else '/'
  }

  /** The inverse table, None for characters outside the alphabet. */
  function CharIndex(c: char): Option<byte>
  {
    if 'A' <= c <= 'Z' then Some((c as int - 'A' as int) as byte)
    else if 'a' <= c <= 'z' then Some((c as int - 'a' as int + 26) as byte)
    else if '0' <= c <= '9' then Some((c as int - '0' as int + 52) as byte)
    else if c == '+' then Some(62)
    else if c == '/' then Some(63)
    else None
  }

  lemma IndexCharRoundTrip(v: byte)
    requires IsSextet(v)
    ensures CharIndex(IndexChar(v)) == Some(v)
  {
    if v < 26 {
      UpperRoundTrip(v);
    } else if v < 52 {
      LowerRoundTrip(v);
    } else if v < 62 {
      DigitRoundTrip(v);
    }
  }

  lemma UpperRoundTrip(v: byte)
    requires v < 26
    ensures CharIndex(IndexChar(v)) == Some(v)
  {
    var c := IndexChar(v);
    assert c as int == 'A' as int + v as int;
    assert 'A' <= c <= 'Z';
    assert ((c as int - 'A' as int) as byte) == v;
  }

  lemma LowerRoundTrip(v: byte)
    requires 26 <= v < 52
    ensures CharIndex(IndexChar(v)) == Some(v)
  {
    var c := IndexChar(v);
    assert c as int == 'a' as int + v as int - 26;
    assert !('A' <= c <= 'Z') && 'a' <= c <= 'z';
    assert ((c as int - 'a' as int + 26) as byte) == v;
  }

  lemma DigitRoundTrip(v: byte)
    requires 52 <= v < 62
    ensures CharIndex(IndexChar(v)) == Some(v)
  {
    var c := IndexChar(v);
    assert c as int == '0' as int + v as int - 52;
    assert !('A' <= c <= 'Z') && !('a' <= c <= 'z') && '0' <= c <= '9';
    assert ((c as int - '0' as int + 52) as byte) == v;
  }

  predicate IsBase64Char(c: char)
  {
    InAlphabet(c) || c == '='
  }

  /** The four output characters of one 24-bit group (or of the final
      group of one or two bytes, padded with '='). */
  function EncodeGroup(g: seq<byte>): (q: string)
    requires 1 <= |g| <= 3
    ensures |q| == 4
    ensures forall k :: 0 <= k < 4 ==> IsBase64Char(q[k])
    ensures q[3] == '=' <==> |g| < 3
    ensures q[2] == '=' <==> |g| == 1
  {
    var b0 := g[0];
    var b1: byte := if |g| > 1 then g[1] else 0;
    var b2: byte := if |g| > 2 then g[2] else 0;
    [IndexChar(b0 >> 2),
     IndexChar(((b0 & 3) << 4) | (b1 >> 4)),
     if |g| > 1 then IndexChar(((b1 & 0xF) << 2) | (b2 >> 6)) else '=',
     if |g| > 2 then IndexChar(b2 & 0x3F) else '=']
  }

  /** Convert.ToBase64String. */
  function Encode(b: seq<byte>): (s: string)
    ensures |s| == 4 * ((|b| + 2) / 3)
    ensures forall k :: 0 <= k < |s| ==> IsBase64Char(s[k])
    decreases |b|
  {
    if b == [] then []
    else if |b| <= 3 then EncodeGroup(b)
    else EncodeGroup(b[..3]) + Encode(b[3..])
  }

  /** Decodes one group of four characters into one to three bytes. */
  function DecodeGroup(q: string): Option<seq<byte>>
    requires |q| == 4
  {
    var c0, c1, c2, c3 := CharIndex(q[0]), CharIndex(q[1]), CharIndex(q[2]), CharIndex(q[3]);
    if c0.None? || c1.None? then None
    else
      var b0 := (c0.value << 2) | (c1.value >> 4);
      if q[2] == '=' && q[3] == '=' then Some([b0])
      else if c2.None? then None
      else
        var b1 := ((c1.value & 0xF) << 4) | (c2.value >> 2);
        if q[3] == '=' then Some([b0, b1])
        else if c3.None? then None
        else Some([b0, b1, ((c2.value & 3) << 6) | c3.value])
  }

  /** A Base64 decoder: groups of four, padding only in the last group. */
  function Decode(s: string): Option<seq<byte>>
    decreases |s|
  {
    if s == [] then Some([])
    else if |s| < 4 then None
    else
      match DecodeGroup(s[..4])
      case None => None
      case Some(g) =>
        if |g| < 3 && |s| > 4 then None
        else
          match Decode(s[4..])
          case None => None
          case Some(rest) => Some(g + rest)
  }

  /** Splitting bytes into sextets and joining the sextets back. */
  lemma SplitOne(b0: byte)
    ensures IsSextet(b0 >> 2) && IsSextet((b0 & 3) << 4)
    ensures ((b0 >> 2) << 2) | (((b0 & 3) << 4) >> 4) == b0
  {
  }

  lemma SplitTwo(b0: byte, b1: byte)
    ensures IsSextet(b0 >> 2) && IsSextet(((b0 & 3) << 4) | (b1 >> 4)) && IsSextet((b1 & 0xF) << 2)
    ensures ((b0 >> 2) << 2) | ((((b0 & 3) << 4) | (b1 >> 4)) >> 4) == b0
    ensures ((((((b0 & 3) << 4) | (b1 >> 4)) & 0xF) << 4) | (((b1 & 0xF) << 2) >> 2)) == b1
  {
  }

  lemma SplitThree(b0: byte, b1: byte, b2: byte)
    ensures IsSextet(b0 >> 2) && IsSextet(((b0 & 3) << 4) | (b1 >> 4))
    ensures IsSextet(((b1 & 0xF) << 2) | (b2 >> 6)) && IsSextet(b2 & 0x3F)
    ensures ((b0 >> 2) << 2) | ((((b0 & 3) << 4) | (b1 >> 4)) >> 4) == b0
    ensures (((((b0 & 3) << 4) | (b1 >> 4)) & 0xF) << 4) | ((((b1 & 0xF) << 2) | (b2 >> 6)) >> 2) == b1
    ensures (((((b1 & 0xF) << 2) | (b2 >> 6)) & 3) << 6) | (b2 & 0x3F) == b2
  {
  }

  lemma DecodeOneByte(v0: byte, v1: byte, b0: byte)
    requires IsSextet(v0) && IsSextet(v1)
    requires (v0 << 2) | (v1 >> 4) == b0
    ensures DecodeGroup([IndexChar(v0), IndexChar(v1), '=', '=']) == Some([b0])
  {
    IndexCharRoundTrip(v0);
    IndexCharRoundTrip(v1);
  }

  lemma DecodeTwoBytes(v0: byte, v1: byte, v2: byte, b0: byte, b1: byte)
    requires IsSextet(v0) && IsSextet(v1) && IsSextet(v2)
    requires (v0 << 2) | (v1 >> 4) == b0
    requires ((v1 & 0xF) << 4) | (v2 >> 2) == b1
    ensures DecodeGroup([IndexChar(v0), IndexChar(v1), IndexChar(v2), '=']) == Some([b0, b1])
  {
    IndexCharRoundTrip(v0);
    IndexCharRoundTrip(v1);
    IndexCharRoundTrip(v2);
  }

  lemma DecodeThreeBytes(v0: byte, v1: byte, v2: byte, v3: byte, b0: byte, b1: byte, b2: byte)
    requires IsSextet(v0) && IsSextet(v1) && IsSextet(v2) && IsSextet(v3)
    requires (v0 << 2) | (v1 >> 4) == b0
    requires ((v1 & 0xF) << 4) | (v2 >> 2) == b1
    requires ((v2 & 3) << 6) | v3 == b2
    ensures DecodeGroup([IndexChar(v0), IndexChar(v1), IndexChar(v2), IndexChar(v3)]) == Some([b0, b1, b2])
  {
    IndexCharRoundTrip(v0);
    IndexCharRoundTrip(v1);
    IndexCharRoundTrip(v2);
    IndexCharRoundTrip(v3);
  }

  lemma EncodeTwoBytes(b0: byte, b1: byte)
    ensures EncodeGroup([b0, b1]) ==
      [IndexChar(b0 >> 2), IndexChar(((b0 & 3) << 4) | (b1 >> 4)), IndexChar((b1 & 0xF) << 2), '=']
  {
  }

  lemma EncodeThreeBytes(b0: byte, b1: byte, b2: byte)
    ensures EncodeGroup([b0, b1, b2]) ==
      [IndexChar(b0 >> 2), IndexChar(((b0 & 3) << 4) | (b1 >> 4)),
       IndexChar(((b1 & 0xF) << 2) | (b2 >> 6)), IndexChar(b2 & 0x3F)]
  {
  }

  lemma OneByteRoundTrip(b0: byte)
    ensures DecodeGroup(EncodeGroup([b0])) == Some([b0])
  {
    SplitOne(b0);
    assert EncodeGroup([b0]) == [IndexChar(b0 >> 2), IndexChar((b0 & 3) << 4), '=', '='];
    DecodeOneByte(b0 >> 2, (b0 & 3) << 4, b0);
  }

  lemma TwoBytesRoundTrip(b0: byte, b1: byte)
    ensures DecodeGroup(EncodeGroup([b0, b1])) == Some([b0, b1])
  {
    SplitTwo(b0, b1);
    EncodeTwoBytes(b0, b1);
    DecodeTwoBytes(b0 >> 2, ((b0 & 3) << 4) | (b1 >> 4), (b1 & 0xF) << 2, b0, b1);
  }

  lemma ThreeBytesRoundTrip(b0: byte, b1: byte, b2: byte)
    ensures DecodeGroup(EncodeGroup([b0, b1, b2])) == Some([b0, b1, b2])
  {
    SplitThree(b0, b1, b2);
    EncodeThreeBytes(b0, b1, b2);
    DecodeThreeBytes(b0 >> 2, ((b0 & 3) << 4) | (b1 >> 4), ((b1 & 0xF) << 2) | (b2 >> 6), b2 & 0x3F, b0, b1, b2);
  }

  lemma GroupRoundTrip(g: seq<byte>)
    requires 1 <= |g| <= 3
    ensures DecodeGroup(EncodeGroup(g)) == Some(g)
  {
    if |g| == 1 {
      assert g == [g[0]];
      OneByteRoundTrip(g[0]);
    } else if |g| == 2 {
      assert g == [g[0], g[1]];
      TwoBytesRoundTrip(g[0], g[1]);
    } else {
      assert g == [g[0], g[1], g[2]];
      ThreeBytesRoundTrip(g[0], g[1], g[2]);
    }
  }

  /** Decoding what Convert.ToBase64String produced gives back the bytes. */
  lemma {:induction false} DecodeEncode(b: seq<byte>)
    ensures Decode(Encode(b)) == Some(b)
    decreases |b|
  {
    if b == [] {
    } else if |b| <= 3 {
      GroupRoundTrip(b);
      assert Encode(b)[..4] == EncodeGroup(b);
      assert Encode(b)[4..] == [];
      assert b + [] == b;
    } else {
      var s := Encode(b);
      GroupRoundTrip(b[..3]);
      DecodeEncode(b[3..]);
      assert s[..4] == EncodeGroup(b[..3]);
      assert s[4..] == Encode(b[3..]);
      assert b[..3] + b[3..] == b;
    }
  }

  /** Encoding is injective: different credentials give different headers. */
  lemma EncodeInjective(a: seq<byte>, b: seq<byte>)
    requires Encode(a) == Encode(b)
    ensures a == b
  {
    DecodeEncode(a);
    DecodeEncode(b);
  }

  /** Test vectors of section 10 of RFC 4648: "f", "fo", "foo" and "foob"
      (0x66 'f', 0x6F 'o', 0x62 'b'). */
  lemma VectorF()
    ensures Encode([0x66]) == "Zg=="
  {
  }

  lemma VectorFo()
    ensures Encode([0x66, 0x6F]) == "Zm8="
  {
  }

  lemma VectorFoo()
    ensures Encode([0x66, 0x6F, 0x6F]) == "Zm9v"
  {
  }

  lemma VectorFoob()
    ensures Encode([0x66, 0x6F, 0x6F, 0x62]) == "Zm9vYg=="
  {
  }
}
