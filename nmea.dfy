/** The NMEA 0183 side of the client: NTRipClient.Checksum and the synthetic
    GGA sentence built by the three-argument UpdateRoverPosition. */
module Nmea {
  import opened Ascii

  /** XOR of the ASCII bytes of s[i..], folded from the right. */
  function XorFrom(s: string, i: nat): byte
    decreases |s| - i
  {
    if i >= |s| then 0 else AsciiByte(s[i]) ^ XorFrom(s, i + 1)
  }

  /** The NMEA 0183 sentence checksum: XOR of the ASCII bytes of the text
      between '$' and '*'. */
  function ChecksumOf(s: string): byte
  {
    XorFrom(s, 0)
  }

  /** NTRipClient.Checksum: the foreach over Encoding.ASCII.GetBytes(str). */
  method Checksum(str: string) returns (checksum: byte)
    ensures checksum == ChecksumOf(str)
  {
    var bytes := AsciiBytes(str);
    checksum := 0;
    for i := 0 to |bytes|
      invariant checksum ^ XorFrom(str, i) == ChecksumOf(str)
    {
      checksum := checksum ^ bytes[i];
    }
  }

  lemma {:induction false} XorFromShift(a: string, b: string, j: nat)
    requires j <= |b|
    ensures XorFrom(a + b, |a| + j) == XorFrom(b, j)
    decreases |b| - j
  {
    if j < |b| {
      XorFromShift(a, b, j + 1);
      assert (a + b)[|a| + j] == b[j];
    }
  }

  lemma {:induction false} XorFromAppend(a: string, b: string, i: nat)
    requires i <= |a|
    ensures XorFrom(a + b, i) == XorFrom(a, i) ^ XorFrom(b, 0)
    decreases |a| - i
  {
    if i < |a| {
      XorFromAppend(a, b, i + 1);
    } else {
      XorFromShift(a, b, 0);
    }
  }

  /** The checksum of a concatenation is the XOR of the checksums, so a
      sentence can be checked piece by piece. */
  lemma ChecksumAppend(a: string, b: string)
    ensures ChecksumOf(a + b) == ChecksumOf(a) ^ ChecksumOf(b)
  {
    XorFromAppend(a, b, 0);
  }

  /** The fields after the time in every synthetic sentence: a fixed position
      at 55 N 14 E, RTK fix quality 4, ten satellites, 200 m altitude. */
  const LatitudeFields := ",5500.00,N,"
  const LongitudeFields := "01400.00,E,"
  const FixFields := "4,10,1,200,"
  const GeoidFields := "M,1,M,7,0"
  const GgaTail := LatitudeFields + LongitudeFields + FixFields + GeoidFields

  /** The time field, string.Format's "{0}{1}{2}" of hour, minute and second:
      no zero padding and no separators. */
  function TimeText(hour: nat, minute: nat, second: nat): (t: string)
    ensures AllDigits(t)
    ensures 3 <= |t|
  {
    Decimal(hour) + Decimal(minute) + Decimal(second)
  }

  /** The sentence body formatted at line 375. */
  function SyntheticBody(hour: nat, minute: nat, second: nat): string
  {
    "GPGGA," + TimeText(hour, minute, second) + GgaTail
  }

  /** string.Format("${0}*{1:X}", body, Checksum(body)). */
  function Frame(body: string): (r: string)
    ensures |r| == |body| + 2 + |Hex(ChecksumOf(body))|
    ensures r[0] == '$' && r[1..|body| + 1] == body && r[|body| + 1] == '*'
  {
    "$" + body + "*" + Hex(ChecksumOf(body))
  }

  /** The sentence the three-argument UpdateRoverPosition hands on. */
  function SyntheticGga(hour: nat, minute: nat, second: nat): string
  {
    Frame(SyntheticBody(hour, minute, second))
  }

  /** A receiver's check of a "$body*HH" sentence: the body is returned when
      the hexadecimal digits after the first '*' equal its checksum. */
  function Validate(r: string): Option<string>
  {
    if |r| == 0 || r[0] != '$' then None
    else match IndexOf(r[1..], '*')
      case None => None
      case Some(k) =>
        var body := r[1..k + 1];
        if ParseHex(r[k + 2..]) == Some(ChecksumOf(body)) then Some(body) else None
  }

  predicate StarFree(s: string)
  {
    forall j :: 0 <= j < |s| ==> s[j] != '*'
  }

  /** Frame and Validate are inverse for every body free of '*'. */
  lemma FrameValidates(body: string)
    requires StarFree(body)
    ensures Validate(Frame(body)) == Some(body)
  {
    var r := Frame(body);
    var hex := Hex(ChecksumOf(body));
    assert r[1..] == body + "*" + hex;
    var k := IndexOf(r[1..], '*');
    assert r[1..][|body|] == '*';
    assert k == Some(|body|);
    assert r[|body| + 2..] == hex;
    HexRoundTrip(ChecksumOf(body));
  }

  lemma StarFreeAppend(a: string, b: string)
    requires StarFree(a) && StarFree(b)
    ensures StarFree(a + b)
  {
    assert forall j :: |a| <= j < |a + b| ==> (a + b)[j] == b[j - |a|];
  }

  /** Every synthetic sentence passes a receiver's checksum test. */
  lemma SyntheticValidates(hour: nat, minute: nat, second: nat)
    ensures Validate(SyntheticGga(hour, minute, second)) == Some(SyntheticBody(hour, minute, second))
  {
    var t := TimeText(hour, minute, second);
    assert StarFree(t);
    assert StarFree("GPGGA,");
    assert StarFree(LatitudeFields) && StarFree(LongitudeFields);
    assert StarFree(FixFields) && StarFree(GeoidFields);
    StarFreeAppend(LatitudeFields, LongitudeFields);
    StarFreeAppend(LatitudeFields + LongitudeFields, FixFields);
    StarFreeAppend(LatitudeFields + LongitudeFields + FixFields, GeoidFields);
    StarFreeAppend("GPGGA,", t);
    StarFreeAppend("GPGGA," + t, GgaTail);
    FrameValidates(SyntheticBody(hour, minute, second));
  }

  /** An even number of decimal digits XORs to a value below 0x10, an odd
      number to one in 0x30..0x3F. */
  lemma {:induction false} DigitsXor(s: string, i: nat)
    requires AllDigits(s) && i <= |s|
    ensures XorFrom(s, i) & 0xF0 == if (|s| - i) % 2 == 0 then 0 else 0x30
    decreases |s| - i
  {
    if i < |s| {
      DigitsXor(s, i + 1);
      assert AsciiByte(s[i]) & 0xF0 == 0x30;
    }
  }

  lemma LatitudeXor() ensures ChecksumOf(LatitudeFields) == 0x4C {}
  lemma LongitudeXor() ensures ChecksumOf(LongitudeFields) == 0x5E {}
  lemma FixXor() ensures ChecksumOf(FixFields) == 0x36 {}
  lemma GeoidXor() ensures ChecksumOf(GeoidFields) == 0x36 {}

  lemma HeaderXor() ensures ChecksumOf("GPGGA,") == 0x7A {}

  lemma TailXor()
    ensures ChecksumOf(GgaTail) == 0x12
  {
    LatitudeXor();
    LongitudeXor();
    FixXor();
    GeoidXor();
    ChecksumAppend(LatitudeFields, LongitudeFields);
    ChecksumAppend(LatitudeFields + LongitudeFields, FixFields);
    ChecksumAppend(LatitudeFields + LongitudeFields + FixFields, GeoidFields);
  }

  /** The checksum of a synthetic sentence is at least 0x50, whatever the
      time: the "{1:X}" format always writes two digits here. */
  lemma SyntheticChecksumWide(hour: nat, minute: nat, second: nat)
    ensures ChecksumOf(SyntheticBody(hour, minute, second)) >= 0x50
    ensures |Hex(ChecksumOf(SyntheticBody(hour, minute, second)))| == 2
  {
    var t := TimeText(hour, minute, second);
    ChecksumAppend("GPGGA,", t);
    ChecksumAppend("GPGGA," + t, GgaTail);
    HeaderXor();
    TailXor();
    DigitsXor(t, 0);
  }

  /** For other bodies "{1:X}" writes a single digit below 0x10: "11" has
      checksum 0 and is framed as "$11*0". */
  lemma NarrowChecksum()
    ensures Frame("11") == "$11*0"
  {
    assert ChecksumOf("11") == 0;
  }

  /** The time field is not zero-padded, so different times give the same
      sentence: 01:23:04 and 12:03:04 both write "1234", and 14:08:16 is
      written "14816". */
  lemma TimeAmbiguous()
    ensures SyntheticGga(1, 23, 4) == SyntheticGga(12, 3, 4)
    ensures TimeText(14, 8, 16) == "14816"
  {
    assert Decimal(23) == "23";
    assert Decimal(12) == "12";
    assert Decimal(14) == "14";
    assert Decimal(16) == "16";
    assert TimeText(1, 23, 4) == TimeText(12, 3, 4);
  }

  /** The two example sentences written beside the source; the second has
      the fields of every synthetic sentence after its time. */
  lemma FirstExampleTime() ensures ChecksumOf("135205") == 0x00 {}
  lemma FirstExampleGeoid() ensures ChecksumOf("M,1,M,8,0") == 0x39 {}

  lemma FirstExampleChecksum()
    ensures ChecksumOf("GPGGA," + "135205" + LatitudeFields + LongitudeFields + FixFields + "M,1,M,8,0") == 0x67
  {
    HeaderXor();
    LatitudeXor();
    LongitudeXor();
    FixXor();
    FirstExampleTime();
    FirstExampleGeoid();
    ChecksumAppend("GPGGA,", "135205");
    ChecksumAppend("GPGGA," + "135205", LatitudeFields);
    ChecksumAppend("GPGGA," + "135205" + LatitudeFields, LongitudeFields);
    ChecksumAppend("GPGGA," + "135205" + LatitudeFields + LongitudeFields, FixFields);
    ChecksumAppend("GPGGA," + "135205" + LatitudeFields + LongitudeFields + FixFields, "M,1,M,8,0");
  }

  lemma SecondExampleChecksum()
    ensures ChecksumOf("GPGGA," + "140816" + GgaTail) == 0x62
  {
    HeaderXor();
    TailXor();
    assert ChecksumOf("140816") == 0x0A;
    ChecksumAppend("GPGGA,", "140816");
    ChecksumAppend("GPGGA," + "140816", GgaTail);
  }
}
