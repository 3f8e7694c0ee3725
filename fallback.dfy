/**
  The hex-string fallback codec used under Node when the native addon is
  missing: the magnitude goes through its even-padded hex digits, and the
  little-endian forms reverse a buffer in place.
*/
module Fallback {
  import opened Wrappers
  import opened Bytes
  import opened Hex
  import Utils
  import Browser

  function Magnitude(n: int): (m: nat)
    ensures m == n || m == -n
  {
    if n < 0 then -n else n
  }

  /** fromHex: a buffer of hex.length >>> 1 bytes filled by hexWrite (or Buffer.from(hex, "hex")). */
  function FromHex(hex: string): (bytes: seq<Byte>)
    requires |hex| % 2 == 0 && AllHex(hex)
    ensures |bytes| == |hex| / 2
    ensures IsLowerHex(hex) ==> BE(bytes) == HexValue(hex) && ToHex(bytes) == hex
  {
    if IsLowerHex(hex) then
      HexToBytesValue(hex);
      BytesToHexOfHexToBytes(hex);
      HexToBytes(hex)
    else
      HexToBytes(hex)
  }

  /** toHex: hexSlice over the whole buffer, or toString("hex"); all three routes give these digits. */
  function ToHex(bytes: seq<Byte>): (hex: string)
    ensures |hex| == 2 * |bytes| && AllHex(hex) && IsLowerHex(hex)
    ensures HexValue(hex) == BE(bytes)
  {
    BytesToHexValue(bytes);
    BytesToHex(bytes)
  }

  /** fromHex undoes toHex. */
  lemma {:induction false} FromHexOfToHex(bytes: seq<Byte>)
    ensures FromHex(ToHex(bytes)) == bytes
  {
    HexToBytesOfBytesToHex(bytes);
  }

  /** The digits toBytesBE and toBytesLE decode: toString(16) with a "0" in front when odd. */
  function EvenHex(x: nat): (hex: string)
    ensures |hex| % 2 == 0 && AllHex(hex) && IsLowerHex(hex)
    ensures HexValue(hex) == x
    ensures |hex| / 2 == Browser.ByteLength(x)
  {
    NatToHexValue(x);
    PadEven(NatToHex(x))
  }

  /** toBytesBE: the big-endian bytes of |n|, one byte (0x00) for zero. */
  function ToBytesBE(n: int): (bytes: seq<Byte>)
  {
    FromHex(EvenHex(Magnitude(n)))
  }

  /** toBytesBE writes |n| big-endian in ceil(digits / 2) bytes, so reading it back gives |n|. */
  lemma {:induction false} ToBytesBEDenotes(n: int)
    ensures |ToBytesBE(n)| == Browser.ByteLength(Magnitude(n))
    ensures BE(ToBytesBE(n)) == Magnitude(n)
    ensures ToBytesBE(n) == NatToBE(Magnitude(n), Browser.ByteLength(Magnitude(n)))
  {
    NatToBEOfBE(ToBytesBE(n));
  }

  /** Zero is written as one zero byte, where the minimal encoding is empty. */
  lemma {:induction false} ToBytesBEOfZero()
    ensures ToBytesBE(0) == [0] && Reversed(ToBytesBE(0)) == [0]
    ensures MinimalLE(0) == []
  {
    ToBytesBEDenotes(0);
    SingleZeroByte(ToBytesBE(0));
    assert SignificantBytes(0) == 0;
  }

  lemma {:induction false} SingleZeroByte(s: seq<Byte>)
    requires |s| == 1 && BE(s) == 0
    ensures s == [0] && Reversed(s) == [0]
  {
    assert s[..0] == [];
    assert s[1..] == [];
  }

  /** A nonzero magnitude is written with no leading zero byte. */
  lemma {:induction false} ToBytesBEMinimal(n: int)
    requires n != 0
    ensures Reversed(ToBytesBE(n)) == MinimalLE(Magnitude(n))
  {
    ToBytesBEDenotes(n);
    ReversedReversed(NatToLE(Magnitude(n), Browser.ByteLength(Magnitude(n))));
  }

  /** fromHex as it runs: alloc(hex.length >>> 1), then hexWrite fills it. */
  method FromHexBuffer(hex: string) returns (buf: array<Byte>)
    requires |hex| % 2 == 0 && AllHex(hex)
    ensures fresh(buf) && buf[..] == FromHex(hex)
  {
    var bytes := FromHex(hex);
    buf := new Byte[|bytes|](i requires 0 <= i < |bytes| => bytes[i]);
  }

  /**
    toBytesLE: the bytes fromHex makes, reversed in place in their fresh
    buffer with Uint8Array.prototype.reverse.
  */
  method ToBytesLE(n: int) returns (buf: array<Byte>)
    ensures fresh(buf)
    ensures buf[..] == Reversed(ToBytesBE(n))
  {
    buf := FromHexBuffer(EvenHex(Magnitude(n)));
    ghost var bytes := buf[..];
    assert buf[0..buf.Length] == bytes;
    Utils.Reverse(buf, 0, buf.Length);
    assert buf[..] == buf[0..buf.Length];
  }

  /** What toBytesLE returns is the little-endian form of |n|, which reads back as |n|. */
  lemma {:induction false} ToBytesLEDenotes(n: int)
    ensures Reversed(ToBytesBE(n)) == NatToLE(Magnitude(n), Browser.ByteLength(Magnitude(n)))
    ensures LE(Reversed(ToBytesBE(n))) == Magnitude(n)
  {
    ToBytesBEDenotes(n);
    ReversedReversed(NatToLE(Magnitude(n), Browser.ByteLength(Magnitude(n))));
    LEReversed(ToBytesBE(n));
  }

  /** fromBytesBE: BigInt(`0x${toHex(buf)}`), a SyntaxError when buf is empty. */
  function FromBytesBE(bytes: seq<Byte>): (r: Result<nat, ParseError>)
    ensures r.Err? <==> |bytes| == 0
    ensures r.Ok? ==> r.value == BE(bytes)
  {
    ParseHexLiteral(ToHex(bytes))
  }

  /**
    fromBytesLE: reverses the caller's buffer in place, then parses it as
    fromBytesBE does; the caller is left holding the reversed bytes.
  */
  method FromBytesLE(buf: array<Byte>) returns (r: Result<nat, ParseError>)
    modifies buf
    ensures buf[..] == Reversed(old(buf[..]))
    ensures r == FromBytesBE(buf[..])
    ensures r.Err? <==> buf.Length == 0
    ensures r.Ok? ==> r.value == LE(old(buf[..]))
  {
    Utils.Reverse(buf, 0, buf.Length);
    assert buf[..] == buf[0..buf.Length] && old(buf[..]) == old(buf[0..buf.Length]);
    BEReversed(old(buf[..]));
    r := ParseHexLiteral(ToHex(buf[..]));
  }

  /**
    Decoding what the encoders produce gives back |n|: fromBytesBE on the
    toBytesBE bytes, and fromBytesLE, which parses the reversal of the
    toBytesLE bytes, on those.
  */
  lemma {:induction false} RoundTrip(n: int)
    ensures FromBytesBE(ToBytesBE(n)) == Ok(Magnitude(n))
    ensures var le := Reversed(ToBytesBE(n)); FromBytesBE(Reversed(le)) == Ok(Magnitude(n))
  {
    ToBytesBEDenotes(n);
    Browser.TopChunkBound(Magnitude(n));
    ReversedReversed(ToBytesBE(n));
  }

  /** The hex codec agrees with the exact form of the DataView codec for every magnitude. */
  lemma {:induction false} AgreesWithCorrectedBrowser(n: int)
    ensures Reversed(ToBytesBE(n)) == Browser.EncodeLECorrected(Magnitude(n))
    ensures ToBytesBE(n) == Reversed(Browser.EncodeLECorrected(Magnitude(n)))
  {
    ToBytesLEDenotes(n);
    Browser.EncodeLECorrectedDenotes(Magnitude(n));
    ReversedReversed(ToBytesBE(n));
  }

  /** ...and with the DataView codec as written whenever its Number step is exact. */
  lemma {:induction false} AgreesWithBrowser(n: int)
    requires Browser.TopChunk(Magnitude(n)) < Browser.TWO_53
    ensures Reversed(ToBytesBE(n)) == Browser.EncodeLE(Magnitude(n))
    ensures ToBytesBE(n) == Browser.EncodeBE(Magnitude(n))
  {
    AgreesWithCorrectedBrowser(n);
    Browser.EncodeLEExact(Magnitude(n));
    Browser.EncodeBEReversesLE(Magnitude(n));
  }
}
