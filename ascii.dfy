/** Bytes and the ASCII text conversions the NTRIP client relies on:
    .NET's Encoding.ASCII and the "{0}" and "{0:X}"
    renderings of integers used by string.Format. */
module Ascii {

  type byte = bv8

  datatype Option<T> = None | Some(value: T)

  /** Encoding.ASCII maps every char above 0x7F to '?'. */
  function AsciiByte(c: char): byte
  {
    if c as int < 128 then c as int as byte else 0x3F
  }

  function AsciiBytes(s: string): seq<byte>
  {
    seq(|s|, i requires 0 <= i < |s| => AsciiByte(s[i]))
  }

  lemma AsciiBytesAppend(a: string, b: string)
    ensures AsciiBytes(a + b) == AsciiBytes(a) + AsciiBytes(b)
  {
  }

  predicate IsDigitChar(c: char)
  {
    '0' <= c <= '9'
  }

  predicate AllDigits(s: string)
  {
    forall i :: 0 <= i < |s| ==> IsDigitChar(s[i])
  }

  function DigitChar(d: nat): char
    requires d < 10
  {
    (48 + d) as char
  }

  function DigitValue(c: char): nat
    requires IsDigitChar(c)
  {
    c as int - 48
  }

  /** string.Format's "{0}" of a non-negative int: decimal, no padding,
      no leading zeros. */
  function Decimal(n: nat): (s: string)
    ensures 1 <= |s| && AllDigits(s)
    ensures |s| == 1 <==> n < 10
  {
    if n < 10 then [DigitChar(n)] else Decimal(n / 10) + [DigitChar(n % 10)]
  }

  /** Reads a run of decimal digits back as a number. */
  function ParseDecimal(s: string): nat
    requires AllDigits(s)
  {
    if s == [] then 0 else ParseDecimal(s[..|s| - 1]) * 10 + DigitValue(s[|s| - 1])
  }

  lemma {:induction false} DecimalRoundTrip(n: nat)
    ensures ParseDecimal(Decimal(n)) == n
  {
    if n >= 10 {
      DecimalRoundTrip(n / 10);
      var s := Decimal(n);
      assert s[..|s| - 1] == Decimal(n / 10);
    }
  }

  function HexChar(v: byte): char
    requires v < 16
  {
    if v < 10 then (48 + v as int) as char else (55 + v as int) as char
  }

  function HexValue(c: char): Option<byte>
  {
    if '0' <= c <= '9' then Some((c as int - 48) as byte)
    else if 'A' <= c <= 'F' then Some((c as int - 55) as byte)
    else if 'a' <= c <= 'f' then Some((c as int - 87) as byte)
    else None
  }

  /** string.Format's "{0:X}" of a byte: upper-case hexadecimal with no
      minimum width, so a value below 0x10 takes a single digit. */
  function Hex(b: byte): (s: string)
    ensures |s| == 1 <==> b < 0x10
    ensures |s| == 2 <==> b >= 0x10
    ensures forall k :: 0 <= k < |s| ==> '0' <= s[k] <= '9' || 'A' <= s[k] <= 'F'
  {
    if b < 0x10 then [HexChar(b)] else [HexChar(b >> 4), HexChar(b & 0xF)]
  }

  /** A reader of one or two hexadecimal digits (either case). */
  function ParseHex(s: string): Option<byte>
  {
    if |s| == 1 then HexValue(s[0])
    else if |s| == 2 then
      match (HexValue(s[0]), HexValue(s[1]))
      case (Some(hi), Some(lo)) => Some((hi << 4) | lo)
      case _ => None
    else None
  }

  lemma HexCharValue(v: byte)
    requires v < 16
    ensures HexValue(HexChar(v)) == Some(v)
  {
  }

  lemma HexRoundTrip(b: byte)
    ensures ParseHex(Hex(b)) == Some(b)
  {
    if b < 0x10 {
      HexCharValue(b);
    } else {
      HexCharValue(b >> 4);
      HexCharValue(b & 0xF);
      assert ((b >> 4) << 4) | (b & 0xF) == b;
    }
  }

  /** Position of the first occurrence of c in s. */
  function IndexOf(s: string, c: char): (k: Option<nat>)
    ensures k.Some? ==>
      k.value < |s| && s[k.value] == c && forall j :: 0 <= j < k.value ==> s[j] != c
    ensures k.None? ==> forall j :: 0 <= j < |s| ==> s[j] != c
  {
    if s == [] then None
    else if s[0] == c then Some(0)
    else match IndexOf(s[1..], c)
      case None => None
      case Some(k) => Some(k + 1)
  }

  /** The first c of s is at k when s[k] is c and no c comes before it. */
  lemma IndexOfFirst(s: string, c: char, k: nat)
    requires k < |s| && s[k] == c
    requires forall j :: 0 <= j < k ==> s[j] != c
    ensures IndexOf(s, c) == Some(k)
  {
  }

  predicate IsAscii(s: string)
  {
    forall i :: 0 <= i < |s| ==> s[i] as int < 128
  }

  /** Bytes read back as ASCII text. */
  function AsciiText(b: seq<byte>): (s: string)
    ensures |s| == |b|
  {
    seq(|b|, i requires 0 <= i < |b| => b[i] as int as char)
  }

  /** An ASCII character is its own byte. */
  lemma AsciiCharByte(c: char)
    requires c as int < 128
    ensures AsciiByte(c) as int == c as int
  {
  }

  /** Encoding.ASCII loses nothing on ASCII text. */
  lemma AsciiTextRoundTrip(s: string)
    requires IsAscii(s)
    ensures AsciiText(AsciiBytes(s)) == s
  {
    forall i | 0 <= i < |s|
      ensures AsciiText(AsciiBytes(s))[i] == s[i]
    {
      AsciiCharByte(s[i]);
    }
  }
}
