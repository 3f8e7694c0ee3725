/**
  The hexadecimal helpers the TypeScript codecs rely on, by their standard
  meaning: bigint.toString(16) (lowercase, no leading zeros, "0" for zero),
  the Buffer hex codec (two digits per byte, high nibble first) and the BigInt
  constructor on a "0x" literal.
*/
module Hex {
  import opened Wrappers
  import opened Bytes

  predicate IsHexDigit(c: char)
  {
    '0' <= c <= '9' || 'a' <= c <= 'f' || 'A' <= c <= 'F'
  }

  predicate IsLowerHex(s: string)
  {
    forall i :: 0 <= i < |s| ==> '0' <= s[i] <= '9' || 'a' <= s[i] <= 'f'
  }

  /** The lowercase digit for a nibble. */
  function DigitChar(d: nat): (c: char)
    requires d < 16
    ensures IsHexDigit(c) && ('0' <= c <= '9' || 'a' <= c <= 'f')
  {
    if d < 10 then '0' + d as char else 'a' + (d - 10) as char
  }

  function DigitValue(c: char): (d: nat)
    requires IsHexDigit(c)
    ensures d < 16
  {
    if '0' <= c <= '9' then c as nat - '0' as nat
    else if 'a' <= c <= 'f' then c as nat - 'a' as nat + 10
    else c as nat - 'A' as nat + 10
  }

  lemma {:induction false} DigitRoundTrip(d: nat)
    requires d < 16
    ensures DigitValue(DigitChar(d)) == d
  {
  }

  lemma {:induction false} CharRoundTrip(c: char)
    requires '0' <= c <= '9' || 'a' <= c <= 'f'
    ensures DigitChar(DigitValue(c)) == c
  {
  }

  predicate AllHex(s: string)
  {
    forall i :: 0 <= i < |s| ==> IsHexDigit(s[i])
  }

  /** The number a string of hex digits denotes, most significant digit first. */
  function HexValue(s: string): nat
    requires AllHex(s)
  {
    if |s| == 0 then 0 else 16 * HexValue(s[..|s| - 1]) + DigitValue(s[|s| - 1])
  }

  /** The characters a "0x" literal accepts as digits: 0-9 and a-f in either case. */
  lemma {:induction false} HexDigitChars(c: char)
    ensures IsHexDigit(c) <==> c in "0123456789abcdefABCDEF"
  {
  }

  /** Hex digits denote zero exactly when every digit is "0". */
  lemma {:induction false} HexValueZero(s: string)
    requires AllHex(s)
    ensures HexValue(s) == 0 <==> forall i :: 0 <= i < |s| ==> s[i] == '0'
  {
    if |s| > 0 {
      var init := s[..|s| - 1];
      HexValueZero(init);
      assert forall i :: 0 <= i < |init| ==> init[i] == s[i];
    }
  }

  /** x.toString(16): the lowercase hex digits of x without leading zeros; "0" for 0. */
  function NatToHex(x: nat): (s: string)
    ensures |s| >= 1 && AllHex(s) && IsLowerHex(s)
    ensures |s| > 1 ==> s[0] != '0'
  {
    if x < 16 then [DigitChar(x)] else NatToHex(x / 16) + [DigitChar(x % 16)]
  }

  lemma {:induction false} NatToHexValue(x: nat)
    ensures HexValue(NatToHex(x)) == x
  {
    if x >= 16 {
      NatToHexValue(x / 16);
      var s := NatToHex(x);
      assert s[..|s| - 1] == NatToHex(x / 16);
      DigitRoundTrip(x % 16);
    } else {
      DigitRoundTrip(x);
    }
  }

  /** Two hex digits per byte, as toString(16) would leave them after even padding. */
  lemma {:induction false} HexLength(x: nat)
    ensures (|NatToHex(x)| + 1) / 2 == if x == 0 then 1 else SignificantBytes(x)
  {
    if x >= 256 {
      HexLength(x / 256);
      assert x / 16 >= 16 && x / 16 / 16 == x / 256;
      assert |NatToHex(x)| == |NatToHex(x / 256)| + 2;
    }
  }

  /** The hex digits of s, left-padded with "0" to an even count. */
  function PadEven(s: string): (r: string)
    ensures |r| % 2 == 0 && |r| == |s| + |s| % 2
    ensures AllHex(s) ==> AllHex(r) && HexValue(r) == HexValue(s)
    ensures IsLowerHex(s) ==> IsLowerHex(r)
  {
    LeadingZeroValue(s);
    if |s| % 2 == 1 then "0" + s else s
  }

  lemma {:induction false} LeadingZeroValue(s: string)
    ensures AllHex(s) ==> AllHex("0" + s) && HexValue("0" + s) == HexValue(s)
  {
    if AllHex(s) {
      assert AllHex("0" + s);
      if |s| > 0 {
        LeadingZeroValue(s[..|s| - 1]);
        assert ("0" + s)[..|s|] == "0" + s[..|s| - 1];
      }
    }
  }

  /** The two lowercase digits of a byte. */
  function ByteToHex(b: Byte): (s: string)
    ensures |s| == 2 && AllHex(s) && IsLowerHex(s)
  {
    [DigitChar(b / 16), DigitChar(b % 16)]
  }

  /** Buffer hexSlice / toString("hex"): two lowercase digits per byte, in order. */
  function BytesToHex(bytes: seq<Byte>): (s: string)
    ensures |s| == 2 * |bytes| && AllHex(s) && IsLowerHex(s)
  {
    if |bytes| == 0 then "" else BytesToHex(bytes[..|bytes| - 1]) + ByteToHex(bytes[|bytes| - 1])
  }

  /** Buffer hexWrite / Buffer.from(hex, "hex") on an even string of hex digits. */
  function HexToBytes(s: string): (bytes: seq<Byte>)
    requires |s| % 2 == 0 && AllHex(s)
    ensures |bytes| == |s| / 2
  {
    if |s| == 0 then []
    else HexToBytes(s[..|s| - 2]) + [16 * DigitValue(s[|s| - 2]) + DigitValue(s[|s| - 1])]
  }

  /** The digits toHex produces denote the bytes read as a big-endian number. */
  lemma {:induction false} BytesToHexValue(bytes: seq<Byte>)
    ensures HexValue(BytesToHex(bytes)) == BE(bytes)
  {
    if |bytes| > 0 {
      var init, last := bytes[..|bytes| - 1], bytes[|bytes| - 1];
      BytesToHexValue(init);
      var s := BytesToHex(bytes);
      assert s[..|s| - 1] == BytesToHex(init) + [DigitChar(last / 16)];
      assert s[..|s| - 1][..|s| - 2] == BytesToHex(init);
      DigitRoundTrip(last / 16);
      DigitRoundTrip(last % 16);
    }
  }

  /** fromHex consumes its input two digits at a time from the end. */
  lemma {:induction false} HexToBytesSnoc(s: string, hi: char, lo: char)
    requires |s| % 2 == 0 && AllHex(s) && IsHexDigit(hi) && IsHexDigit(lo)
    ensures AllHex(s + [hi, lo])
    ensures HexToBytes(s + [hi, lo]) == HexToBytes(s) + [16 * DigitValue(hi) + DigitValue(lo)]
  {
    var t := s + [hi, lo];
    assert AllHex(t);
    assert t[..|t| - 2] == s;
  }

  /** fromHex turns the two digits of a byte back into that byte. */
  lemma {:induction false} HexToBytesAppendByte(h: string, b: Byte)
    requires |h| % 2 == 0 && AllHex(h)
    ensures AllHex(h + ByteToHex(b))
    ensures HexToBytes(h + ByteToHex(b)) == HexToBytes(h) + [b]
  {
    DigitRoundTrip(b / 16);
    DigitRoundTrip(b % 16);
    HexToBytesSnoc(h, DigitChar(b / 16), DigitChar(b % 16));
  }

  /** fromHex undoes toHex. */
  lemma {:induction false} HexToBytesOfBytesToHex(bytes: seq<Byte>)
    ensures HexToBytes(BytesToHex(bytes)) == bytes
  {
    if |bytes| > 0 {
      var init, last := bytes[..|bytes| - 1], bytes[|bytes| - 1];
      assert bytes == init + [last];
      HexToBytesOfBytesToHex(init);
      HexToBytesAppendByte(BytesToHex(init), last);
    }
  }

  /** toHex undoes fromHex on lowercase digits. */
  lemma {:induction false} BytesToHexOfHexToBytes(s: string)
    requires |s| % 2 == 0 && AllHex(s) && IsLowerHex(s)
    ensures BytesToHex(HexToBytes(s)) == s
  {
    if |s| > 0 {
      var init := s[..|s| - 2];
      var a, b := s[|s| - 2], s[|s| - 1];
      assert s == init + [a, b];
      LowerHexPrefix(s, |s| - 2);
      var bs := HexToBytes(init);
      assert HexToBytes(s) == bs + [16 * DigitValue(a) + DigitValue(b)];
      var last := DigitsByte(a, b);
      assert HexToBytes(s) == bs + [last];
      BytesToHexSnoc(bs, last);
      BytesToHexOfHexToBytes(init);
    }
  }

  lemma {:induction false} LowerHexPrefix(s: string, k: nat)
    requires k <= |s| && AllHex(s) && IsLowerHex(s)
    ensures AllHex(s[..k]) && IsLowerHex(s[..k])
  {
  }

  /** toHex appends the two digits of each further byte. */
  lemma {:induction false} BytesToHexSnoc(bs: seq<Byte>, x: Byte)
    ensures BytesToHex(bs + [x]) == BytesToHex(bs) + ByteToHex(x)
  {
    var t := bs + [x];
    assert t[..|t| - 1] == bs && t[|t| - 1] == x;
  }

  /** The byte two lowercase digits make, and the two digits toHex writes back for it. */
  lemma {:induction false} DigitsByte(a: char, b: char) returns (last: Byte)
    requires ('0' <= a <= '9' || 'a' <= a <= 'f') && ('0' <= b <= '9' || 'a' <= b <= 'f')
    ensures last as int == 16 * DigitValue(a) + DigitValue(b)
    ensures ByteToHex(last) == [a, b]
  {
    var hi, lo := DigitValue(a), DigitValue(b);
    last := 16 * hi + lo;
    DivModUnique(last as int, 16, hi as int, lo as int);
    CharRoundTrip(a);
    CharRoundTrip(b);
  }

  /** The bytes fromHex makes denote, big-endian, the number the digits denote. */
  lemma {:induction false} HexToBytesValue(s: string)
    requires |s| % 2 == 0 && AllHex(s) && IsLowerHex(s)
    ensures BE(HexToBytes(s)) == HexValue(s)
  {
    BytesToHexOfHexToBytes(s);
    BytesToHexValue(HexToBytes(s));
  }

  /** The error the BigInt constructor throws for a literal it cannot parse. */
  datatype ParseError = SyntaxError

  /** BigInt(`0x${digits}`): the number the digits denote; "0x" alone is a SyntaxError. */
  function ParseHexLiteral(digits: string): (r: Result<nat, ParseError>)
    ensures r.Err? <==> |digits| == 0 || !AllHex(digits)
    ensures r.Ok? ==> AllHex(digits) && r.value == HexValue(digits)
  {
    if |digits| == 0 || !AllHex(digits) then Err(SyntaxError) else Ok(HexValue(digits))
  }
}
