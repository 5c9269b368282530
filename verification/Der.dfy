/** Conversion of a JWS `R || S` signature (section 3.4 of RFC 7518) to the DER `ECDSA-Sig-Value` (section
    2.2.3 of RFC 3279), against a strict DER decoder. */
module Der {
  import opened Basics

  type byte = x: nat | x < 256

  const SEQUENCE: byte := 0x30
  const INTEGER: byte := 0x02

  // ----- Big-endian integers -----

  /** `big.Int.SetBytes`. */
  function Value(bs: seq<byte>): nat {
    if bs == [] then 0 else 256 * Value(bs[..|bs| - 1]) + bs[|bs| - 1]
  }

  /** `big.Int.Bytes`: the shortest big-endian form, empty for zero. */
  function Bytes(n: nat): seq<byte> {
    if n == 0 then [] else Bytes(n / 256) + [n % 256]
  }

  /** The shortest form keeps the value and has no leading zero. */
  lemma {:induction false} BytesRoundTrip(n: nat)
    ensures Value(Bytes(n)) == n
    ensures n != 0 ==> Bytes(n) != [] && Bytes(n)[0] != 0
    ensures Bytes(n) == [] <==> n == 0
  {
    if n != 0 {
      BytesRoundTrip(n / 256);
      assert Bytes(n)[..|Bytes(n)| - 1] == Bytes(n / 256);
      if n / 256 != 0 {
        assert Bytes(n)[0] == Bytes(n / 256)[0];
      }
    }
  }

  lemma {:induction false} BytesNotLonger(bs: seq<byte>)
    ensures |Bytes(Value(bs))| <= |bs|
  {
    if bs != [] {
      BytesNotLonger(bs[..|bs| - 1]);
    }
  }

  lemma {:induction false} LeadingZero(bs: seq<byte>)
    ensures Value([0] + bs) == Value(bs)
  {
    if bs != [] {
      LeadingZero(bs[..|bs| - 1]);
      assert ([0] + bs)[..|bs|] == [0] + bs[..|bs| - 1];
    } else {
      assert ([0] + bs)[..0] == [];
    }
  }

  // ----- The conversion -----

  /** The content bytes for a component: padded when the high bit is set. */
  function Content(n: nat): seq<byte> {
    var bs := Bytes(n);
    if |bs| > 0 && bs[0] >= 0x80 then [0] + bs else bs
  }

  function LowByte(n: nat): byte {
    n % 256
  }

  /** Both integers as the code lays them out, each length in a single byte. */
  function Encode(r: nat, s: nat): seq<byte> {
    var rb, sb := Content(r), Content(s);
    [SEQUENCE, LowByte(|rb| + |sb| + 4), INTEGER, LowByte(|rb|)] + rb + [INTEGER, LowByte(|sb|)] + sb
  }

  /** `ecConvertP1363ToASN1` for a curve of this bit size. */
  function Convert(sig: seq<byte>, bitSize: nat): Option<seq<byte>> {
    var byteLen := (bitSize + 7) / 8;
    if |sig| != 2 * byteLen then None else Some(Encode(Value(sig[..byteLen]), Value(sig[byteLen..])))
  }

  // ----- A strict DER decoder -----

  /** Strip a tag and a minimal definite length; the content and what follows it. */
  function ReadElement(tag: byte, bs: seq<byte>): (r: Option<(seq<byte>, seq<byte>)>) {
    if |bs| < 2 || bs[0] != tag then None
    else if bs[1] < 0x80 then
      if |bs| - 2 < bs[1] then None else Some((bs[2..2 + bs[1]], bs[2 + bs[1]..]))
    else
      var k := bs[1] - 0x80;
      if k == 0 || |bs| - 2 < k || bs[2] == 0 then None
      else
        var n := Value(bs[2..2 + k]);
        if n < 0x80 || |bs| - 2 - k < n then None else Some((bs[2 + k..2 + k + n], bs[2 + k + n..]))
  }

  /** The value of INTEGER content bytes in two's complement; none unless it is the shortest form. */
  function ReadInteger(bs: seq<byte>): Option<int> {
    if bs == [] then None
    else if |bs| > 1 && ((bs[0] == 0 && bs[1] < 0x80) || (bs[0] == 0xff && bs[1] >= 0x80)) then None
    else if bs[0] < 0x80 then Some(Value(bs))
    else Some(Value(bs) - Power256(|bs|))
  }

  function Power256(k: nat): nat {
    if k == 0 then 1 else 256 * Power256(k - 1)
  }

  /** `SEQUENCE { INTEGER r, INTEGER s }` with nothing after it. */
  function Decode(bs: seq<byte>): Option<(int, int)> {
    match ReadElement(SEQUENCE, bs)
    case None => None
    case Some((body, rest)) =>
      if rest != [] then None
      else
        match ReadElement(INTEGER, body)
        case None => None
        case Some((rb, tail)) =>
          match ReadElement(INTEGER, tail)
          case None => None
          case Some((sb, end)) =>
            if end != [] then None
            else
              match (ReadInteger(rb), ReadInteger(sb))
              case (Some(r), Some(s)) => Some((r, s))
              case _ => None
  }

  // ----- Correctness -----

  lemma ContentReads(n: nat)
    ensures n != 0 ==> ReadInteger(Content(n)) == Some(n)
    ensures n == 0 ==> Content(n) == []
  {
    BytesRoundTrip(n);
    LeadingZero(Bytes(n));
  }

  lemma ShortElement(tag: byte, content: seq<byte>, rest: seq<byte>)
    requires |content| < 0x80
    ensures ReadElement(tag, [tag, |content|] + content + rest) == Some((content, rest))
  {
    var bs := [tag, |content|] + content + rest;
    assert bs[2..2 + |content|] == content && bs[2 + |content|..] == rest;
  }

  function BodyLength(r: nat, s: nat): nat {
    |Content(r)| + |Content(s)| + 4
  }

  function Element(content: seq<byte>): seq<byte>
    requires |content| < 0x80
  {
    [INTEGER, |content|] + content
  }

  lemma ElementReads(content: seq<byte>, rest: seq<byte>)
    requires |content| < 0x80
    ensures ReadElement(INTEGER, Element(content) + rest) == Some((content, rest))
  {
    ShortElement(INTEGER, content, rest);
  }

  lemma EncodeShort(r: nat, s: nat)
    requires BodyLength(r, s) < 0x80
    ensures var body := Element(Content(r)) + Element(Content(s));
      |body| == BodyLength(r, s) && Encode(r, s) == [SEQUENCE, |body|] + body + []
  {
  }

  /** With a body below 128 bytes, decoding gives back exactly the two integers. */
  lemma DecodeShort(r: nat, s: nat)
    requires BodyLength(r, s) < 0x80
    ensures Decode(Encode(r, s)) == if r != 0 && s != 0 then Some((r, s)) else None
  {
    var first, second := Element(Content(r)), Element(Content(s));
    EncodeShort(r, s);
    ShortElement(SEQUENCE, first + second, []);
    ElementReads(Content(r), second);
    assert second + [] == second;
    ElementReads(Content(s), []);
    ContentReads(r);
    ContentReads(s);
  }

  lemma {:induction false} ValueBound(bs: seq<byte>, k: nat)
    requires 1 <= k <= |bs|
    ensures Value(bs) >= Value(bs[..k])
    ensures k < |bs| ==> Value(bs) >= 256 * Value(bs[..k])
    decreases |bs|
  {
    var n := |bs| - 1;
    if k < n {
      ValueBound(bs[..n], k);
      assert bs[..n][..k] == bs[..k];
    } else if k == |bs| {
      assert bs[..k] == bs;
    }
  }

  /** From 128 bytes on the single length byte announces a long form that the bytes do not hold. */
  lemma DecodeLong(r: nat, s: nat)
    requires 0x80 <= BodyLength(r, s) < 0xff
    ensures Decode(Encode(r, s)) == None
  {
    var bs := Encode(r, s);
    assert bs[0] == SEQUENCE && bs[1] == BodyLength(r, s) && bs[2] == INTEGER && |bs| == BodyLength(r, s) + 2;
    LongFormFails(bs);
  }

  lemma LongFormFails(bs: seq<byte>)
    requires 130 <= |bs| < 257 && bs[1] == |bs| - 2 && bs[2] == INTEGER
    ensures ReadElement(SEQUENCE, bs) == None
  {
    var k := bs[1] - 0x80;
    if 0 < k {
      TwoDigits(bs[2..2 + k]);
    }
  }

  lemma TwoDigits(digits: seq<byte>)
    requires digits != [] && digits[0] == INTEGER
    ensures if |digits| == 1 then Value(digits) == 2 else Value(digits) >= 512
  {
    assert digits[..1] == [INTEGER] && Value([INTEGER][..0]) == 0;
    ValueBound(digits, 1);
    assert |digits| == 1 ==> digits == [INTEGER];
  }

  /** The shortest content bytes of a non-negative INTEGER, except that zero has none. */
  predicate ShortestContent(bs: seq<byte>, n: nat) {
    && Value(bs) == n && (bs == [] <==> n == 0)
    && (bs != [] ==> bs[0] < 0x80) && (|bs| > 1 && bs[0] == 0 ==> bs[1] >= 0x80)
  }

  lemma ContentShortest(n: nat)
    ensures ShortestContent(Content(n), n)
  {
    BytesRoundTrip(n);
    LeadingZero(Bytes(n));
  }

  /** The layout, of whatever length: two tagged integers in a tagged sequence, every length reduced to one byte. */
  lemma ConvertedLayout(sig: seq<byte>, bitSize: nat)
    requires |sig| == 2 * ((bitSize + 7) / 8)
    ensures exists rb, sb :: LaidOut(sig, rb, sb, Convert(sig, bitSize))
  {
    var r, s := Value(sig[..|sig| / 2]), Value(sig[|sig| / 2..]);
    ContentShortest(r);
    ContentShortest(s);
    assert |sig| / 2 == (bitSize + 7) / 8;
    assert Convert(sig, bitSize) == Some(Encode(r, s));
    assert LaidOut(sig, Content(r), Content(s), Some(Encode(r, s)));
  }

  /** The bytes of the converted signature, given the content bytes of its two halves. */
  predicate LaidOut(sig: seq<byte>, rb: seq<byte>, sb: seq<byte>, der: Option<seq<byte>>) {
    var half := |sig| / 2;
    && ShortestContent(rb, Value(sig[..half])) && ShortestContent(sb, Value(sig[half..]))
    && der == Some([0x30, (|rb| + |sb| + 4) % 256, 0x02, |rb| % 256] + rb + [0x02, |sb| % 256] + sb)
  }

  /** Only a signature of the wrong length is refused. */
  lemma RefusedIff(sig: seq<byte>, bitSize: nat)
    ensures Convert(sig, bitSize).None? <==> |sig| != 2 * ((bitSize + 7) / 8)
  {
  }

  /** The conversion is right exactly when both components are non-zero and the body fits a single length
      byte: for every signature of a curve of up to 528 bits, the strict decoder returns the two big-endian
      integers of its halves if and only if that holds. */
  lemma ConversionCorrectIff(sig: seq<byte>, bitSize: nat)
    requires bitSize <= 528 && |sig| == 2 * ((bitSize + 7) / 8)
    ensures var byteLen := (bitSize + 7) / 8;
      var r, s := Value(sig[..byteLen]), Value(sig[byteLen..]);
      && Convert(sig, bitSize).Some?
      && (Decode(Convert(sig, bitSize).value) == Some((r, s)) <==> r != 0 && s != 0 && BodyLength(r, s) < 0x80)
  {
    var byteLen := (bitSize + 7) / 8;
    var r, s := Value(sig[..byteLen]), Value(sig[byteLen..]);
    BytesNotLonger(sig[..byteLen]);
    BytesNotLonger(sig[byteLen..]);
    if BodyLength(r, s) < 0x80 {
      DecodeShort(r, s);
    } else {
      DecodeLong(r, s);
    }
  }

  /** P-224, P-256 and P-384: every signature with non-zero components converts correctly, and a zero
      component is rejected. */
  lemma SmallCurvesCorrect(sig: seq<byte>, bitSize: nat)
    requires bitSize <= 480 && |sig| == 2 * ((bitSize + 7) / 8)
    ensures var byteLen := (bitSize + 7) / 8;
      var r, s := Value(sig[..byteLen]), Value(sig[byteLen..]);
      Decode(Convert(sig, bitSize).value) == if r != 0 && s != 0 then Some((r, s)) else None
  {
    var byteLen := (bitSize + 7) / 8;
    BytesNotLonger(sig[..byteLen]);
    BytesNotLonger(sig[byteLen..]);
    DecodeShort(Value(sig[..byteLen]), Value(sig[byteLen..]));
  }

  /** P-521: a signature whose components both use their full 66 bytes never converts to valid DER. */
  lemma FullP521Rejected(sig: seq<byte>)
    requires |sig| == 132 && sig[0] != 0 && sig[66] != 0
    ensures Convert(sig, 521).Some? && Decode(Convert(sig, 521).value) == None
  {
    FullContent(sig[..66]);
    FullContent(sig[66..]);
    DecodeLong(Value(sig[..66]), Value(sig[66..]));
  }

  lemma FullContent(bs: seq<byte>)
    requires bs != [] && bs[0] != 0
    ensures |bs| <= |Content(Value(bs))| <= |bs| + 1
  {
    FullLength(bs);
  }

  lemma {:induction false} FullLength(bs: seq<byte>)
    requires bs != [] && bs[0] != 0
    ensures Value(bs) != 0 && Bytes(Value(bs)) == bs
  {
    var n := |bs| - 1;
    if n == 0 {
      assert bs[..0] == [] && Bytes(0) == [];
    } else {
      FullLength(bs[..n]);
    }
    assert Value(bs) / 256 == Value(bs[..n]) && Value(bs) % 256 == bs[n];
    assert bs == bs[..n] + [bs[n]];
  }
}
