/**
  The Rust N-API addon of native/src/lib.rs. Its encoders write into a
  Uint8Array the caller supplies and return the encoded length. Its decoders
  build a BigInt from a byte buffer: borrowed in place when it is word aligned,
  otherwise copied into a zero-filled vector of words.
*/
module RustBinding {
  import opened Wrappers
  import opened Bytes
  import opened Utils
  import opened Host

  /** The napi status a failed check_status! reports: the value is not a BigInt. */
  datatype Status = BigIntExpected

  /** Finite u32 arithmetic: the values of a Rust `as u32` cast. */
  const U32_LIMIT: nat := 0x1_0000_0000

  /**
    word_length: the number of 64-bit words the host stores for a BigInt,
    truncated to u32, or the failed status for any other value.
  */
  function WordLength(n: JsValue): (r: Result<nat, Status>)
    ensures r.Err? <==> n.JsOther?
    ensures r.Ok? ==> r.value < U32_LIMIT
    ensures r.Ok? ==> r.value == ((SignificantBytes(Magnitude(n)) + 7) / 8) % U32_LIMIT
  {
    if n.JsOther? then Err(BigIntExpected)
    else
      WordCountOfValue(n.words);
      Ok(|n.words| % U32_LIMIT)
  }

  /**
    What buf holds once the host has stored the words: their image, then on the
    aligned path the bytes buf held before, on the unaligned path whatever the
    uninitialised scratch vector held beyond the words.
  */
  function HostImage(ws: seq<Word>, before: seq<Byte>, aligned: bool, scratch: seq<Byte>): (r: seq<Byte>)
    requires 8 * |ws| <= |before| && (!aligned ==> |scratch| == |before|)
    ensures |r| == |before|
    ensures r[..8 * |ws|] == WordsBytes(ws)
    ensures aligned ==> r[8 * |ws|..] == before[8 * |ws|..]
    ensures !aligned ==> r[8 * |ws|..] == scratch[8 * |ws|..]
  {
    WordsBytes(ws) + (if aligned then before[8 * |ws|..] else scratch[8 * |ws|..])
  }

  /**
    to_bytes_le_inner (and to_bytes_le, which only calls it): the host stores
    the words of n into buf, directly when buf is word aligned and through a
    scratch vector otherwise; the result is 8 bytes per word less the zero high
    bytes of the top word, as u32.
  */
  method ToBytesLEInner(n: JsValue, buf: array<Byte>, aligned: bool, scratch: seq<Byte>) returns (r: Result<nat, Status>)
    requires n.JsBigInt? ==> 8 * |n.words| <= buf.Length
    requires !aligned ==> buf.Length % 8 == 0 && |scratch| == buf.Length
    requires buf.Length < U32_LIMIT
    modifies buf
    ensures r.Err? <==> n.JsOther?
    ensures r.Err? ==> buf[..] == old(buf[..])
    ensures r.Ok? ==> buf[..] == HostImage(n.words, old(buf[..]), aligned, scratch)
    ensures r.Ok? ==> r.value == SignificantBytes(Magnitude(n)) && r.value <= buf.Length
    ensures r.Ok? ==> buf[..r.value] == MinimalLE(Magnitude(n))
  {
    var wordCount := buf.Length / 8;
    if n.JsOther? {
      return Err(BigIntExpected);
    }
    ghost var before := buf[..];
    var words := n.words;
    if aligned {
      WriteWords(buf, 0, words);
    } else {
      CopyThroughScratch(buf, wordCount, words, scratch);
    }
    assert buf[..] == HostImage(words, before, aligned, scratch);
    wordCount := |words|;
    var len := TrimmedLength(buf, wordCount, words);
    r := Ok(len);
  }

  /**
    The unaligned path: the host stores the words into a scratch vector of
    wordCount words, and then all buf.Length bytes of it are copied into buf.
  */
  method CopyThroughScratch(buf: array<Byte>, wordCount: nat, words: seq<Word>, scratch: seq<Byte>)
    requires buf.Length == 8 * wordCount && 8 * |words| <= buf.Length && |scratch| == buf.Length
    modifies buf
    ensures buf[..] == WordsBytes(words) + scratch[8 * |words|..]
  {
    var tmp := new Byte[wordCount * 8](i requires 0 <= i < |scratch| => scratch[i]);
    assert tmp[..] == scratch;
    WriteWords(tmp, 0, words);
    assert tmp[..] == WordsBytes(words) + scratch[8 * |words|..] by {
      assert scratch[..0] == [];
    }
    for i := 0 to buf.Length
      invariant buf[..i] == tmp[..i]
      modifies buf
    {
      buf[i] := tmp[i];
      assert buf[..i + 1] == tmp[..i + 1];
    }
    assert buf[..] == buf[..buf.Length];
  }

  /**
    The result of to_bytes_le_inner: 0 for no words, else (word_count * 8) as u32
    less leading_zeros(tail) / 8, with the tail read back from buf.
  */
  method TrimmedLength(buf: array<Byte>, wordCount: nat, ghost ws: CanonicalWords) returns (len: nat)
    requires wordCount == |ws| && 8 * wordCount <= buf.Length < U32_LIMIT
    requires buf[..8 * wordCount] == WordsBytes(ws)
    ensures len == SignificantBytes(WordsValue(ws)) && len <= buf.Length
    ensures buf[..len] == MinimalLE(WordsValue(ws))
  {
    ghost var image := buf[..8 * wordCount];
    if wordCount == 0 {
      PrefixOfImage(ws, image, 0);
      return 0;
    }
    var tail := ReadWord(buf, 8 * (wordCount - 1));
    assert buf[8 * (wordCount - 1)..8 * wordCount] == image[8 * (wordCount - 1)..];
    TailOfImage(ws, image, tail);
    len := (wordCount * 8) % U32_LIMIT - LeadingZeroBits(tail) / 8;
    EncodedLength(ws, tail, len);
    PrefixOfImage(ws, image, len);
    assert buf[..len] == image[..len];
  }

  /**
    to_bytes_be: the little-endian encoding, then buf[..len] reversed in place;
    the bytes past len stay as the host left them.
  */
  method ToBytesBE(n: JsValue, buf: array<Byte>, aligned: bool, scratch: seq<Byte>) returns (r: Result<nat, Status>)
    requires n.JsBigInt? ==> 8 * |n.words| <= buf.Length
    requires !aligned ==> buf.Length % 8 == 0 && |scratch| == buf.Length
    requires buf.Length < U32_LIMIT
    modifies buf
    ensures r.Err? <==> n.JsOther?
    ensures r.Err? ==> buf[..] == old(buf[..])
    ensures r.Ok? ==> r.value == SignificantBytes(Magnitude(n)) && r.value <= buf.Length
    ensures r.Ok? ==> buf[..r.value] == Reversed(MinimalLE(Magnitude(n)))
    ensures r.Ok? ==> buf[r.value..] == HostImage(n.words, old(buf[..]), aligned, scratch)[r.value..]
  {
    ghost var before := buf[..];
    r := ToBytesLEInner(n, buf, aligned, scratch);
    if r.Err? {
      return;
    }
    Reverse(buf, 0, r.value);
    assert buf[..r.value] == buf[0..r.value];
  }

  /**
    The u32 length the Rust encoder computes for nonzero canonical words is the
    minimal length of their value: the `as u32` cast does not truncate and the
    subtraction does not wrap.
  */
  lemma {:induction false} EncodedLength(ws: CanonicalWords, tail: Word, len: int)
    requires |ws| > 0 && tail == ws[|ws| - 1] && tail != 0
    requires 8 * |ws| < U32_LIMIT
    requires len == (|ws| * 8) % U32_LIMIT - LeadingZeroBits(tail) / 8
    ensures len == SignificantBytes(WordsValue(ws))
  {
    TrimmedWords(ws);
    assert ClzbBuiltin(tail) == LeadingZeroBits(tail) / 8;
  }

  /** A zero tail makes u64::leading_zeros(0) / 8 subtract a whole word. */
  lemma {:induction false} ZeroTailSubtractsWord()
    ensures LeadingZeroBits(0) / 8 == 8
  {
  }

  /**
    What from_bytes_le returns: the buffer's own words when it is aligned and a
    whole number of words long, or an owned vector of words.
  */
  datatype ToBigIntLe = Borrowed(wordCount: nat) | Owned(words: seq<Word>)

  /** The words a ToBigIntLe stands for, given the bytes of the buffer it may borrow. */
  function WordsOf(v: ToBigIntLe, src: seq<Byte>): (ws: seq<Word>)
    requires v.Borrowed? ==> 8 * v.wordCount <= |src|
    ensures v.Borrowed? ==> ws == BytesToWords(src[..8 * v.wordCount])
    ensures v.Owned? ==> ws == v.words
  {
    match v
    case Borrowed(wordCount) => BytesToWords(src[..8 * wordCount])
    case Owned(words) => words
  }

  /** ToNapiValue for ToBigIntLe: a BigInt with sign bit 0 over those words. */
  function ToNapiValue(v: ToBigIntLe, src: seq<Byte>): (n: JsValue)
    requires v.Borrowed? ==> 8 * v.wordCount <= |src|
    ensures n.JsBigInt? && !n.negative
    ensures Magnitude(n) == WordsValue(WordsOf(v, src))
  {
    CreateBigIntWords(false, WordsOf(v, src))
  }

  /**
    from_bytes_le: the aligned fast path borrows len / 8 words; otherwise the
    bytes are copied into a zeroed vector of ceil(len / 8) words.
  */
  method FromBytesLE(buf: array<Byte>, aligned: bool) returns (r: ToBigIntLe)
    ensures r.Borrowed? <==> aligned && buf.Length % 8 == 0
    ensures r.Borrowed? ==> r.wordCount == buf.Length / 8
    ensures r.Owned? ==> r.words == PaddedWords(buf[..])
    ensures WordsOf(r, buf[..]) == PaddedWords(buf[..])
    ensures WordsValue(WordsOf(r, buf[..])) == LE(buf[..])
  {
    var len := buf.Length;
    var wordCount := len / 8;
    var remainder := len % 8;
    if aligned && remainder == 0 {
      r := Borrowed(wordCount);
      FastPathAgrees(buf[..]);
      assert buf[..][..8 * wordCount] == buf[..];
    } else {
      var words := CopyIntoWords(buf, wordCount + if remainder != 0 then 1 else 0);
      r := Owned(words);
    }
    PaddedWordsValue(buf[..]);
  }

  /**
    from_bytes_be as written: the bytes are copied into the zeroed vector in
    their given order, exactly as from_bytes_le's copy path, with sign false.
  */
  method FromBytesBE(buf: array<Byte>) returns (signBit: bool, words: seq<Word>)
    ensures !signBit
    ensures words == PaddedWords(buf[..])
    ensures WordsValue(words) == LE(buf[..])
  {
    var len := buf.Length;
    var wordCount := len / 8;
    var remainder := len % 8;
    words := CopyIntoWords(buf, wordCount + if remainder != 0 then 1 else 0);
    signBit := false;
    PaddedWordsValue(buf[..]);
  }

  /** The as-written decoder reads [1, 2, 3] as 0x030201, not as the big-endian 0x010203. */
  lemma {:induction false} FromBytesBEMisorders()
    ensures WordsValue(PaddedWords([1, 2, 3])) == 0x030201
    ensures BE([1, 2, 3]) == 0x010203
  {
    PaddedWordsValue([1, 2, 3]);
    assert [1, 2, 3][1..] == [2, 3] && [2, 3][1..] == [3];
    assert [1, 2, 3][..2] == [1, 2] && [1, 2][..1] == [1];
  }

  /**
    from_bytes_be as intended: the same copy, then the copied bytes reversed in
    place, so that the first byte of the input is the most significant.
  */
  method FromBytesBEIntended(buf: array<Byte>) returns (signBit: bool, words: seq<Word>)
    ensures !signBit
    ensures words == PaddedWords(Reversed(buf[..]))
    ensures WordsValue(words) == BE(buf[..])
  {
    var len := buf.Length;
    var bytes := CopyIntoVector(buf, len / 8 + if len % 8 != 0 then 1 else 0);
    Reverse(bytes, 0, len);
    assert bytes[..] == Reversed(buf[..]) + Zeros(PadLength(len)) by {
      assert bytes[..] == bytes[..len] + bytes[len..];
      assert buf[..] == buf[0..len];
    }
    words := BytesToWords(bytes[..]);
    signBit := false;
    PaddedWordsValue(Reversed(buf[..]));
    LEReversed(buf[..]);
  }

  /**
    The copy path of both decoders: vec![0; wordCount] viewed as bytes, with
    the len bytes of buf copied to its start.
  */
  method CopyIntoWords(buf: array<Byte>, wordCount: nat) returns (words: seq<Word>)
    requires wordCount == buf.Length / 8 + if buf.Length % 8 != 0 then 1 else 0
    ensures words == PaddedWords(buf[..])
  {
    var bytes := CopyIntoVector(buf, wordCount);
    words := BytesToWords(bytes[..]);
  }

  /** vec![0; wordCount] as bytes, after ptr::copy_nonoverlapping of the len bytes of buf. */
  method CopyIntoVector(buf: array<Byte>, wordCount: nat) returns (bytes: array<Byte>)
    requires wordCount == buf.Length / 8 + if buf.Length % 8 != 0 then 1 else 0
    ensures fresh(bytes)
    ensures bytes[..] == buf[..] + Zeros(PadLength(buf.Length))
  {
    var len := buf.Length;
    PadLengthOfCount(len, wordCount);
    bytes := new Byte[8 * wordCount](_ => 0);
    for i := 0 to len
      invariant bytes[..i] == buf[..i]
      invariant bytes[len..] == Zeros(8 * wordCount - len)
    {
      bytes[i] := buf[i];
      assert bytes[..i + 1] == buf[..i + 1];
    }
    assert bytes[..] == bytes[..len] + bytes[len..];
  }

  /** ceil(len / 8) words leave exactly the padding to a word boundary. */
  lemma {:induction false} PadLengthOfCount(len: nat, wordCount: nat)
    requires wordCount == len / 8 + if len % 8 != 0 then 1 else 0
    ensures 8 * wordCount - len == PadLength(len)
  {
    if len % 8 != 0 {
      PadLengthOfTop(len / 8, len % 8);
    } else if len > 0 {
      PadLengthOfTop(len / 8 - 1, 8);
    }
  }

  /** On the aligned fast path the borrowed words are the words the copy path would build. */
  lemma {:induction false} FastPathAgrees(s: seq<Byte>)
    requires |s| % 8 == 0
    ensures BytesToWords(s) == PaddedWords(s)
  {
    assert PadLength(|s|) == 0;
    assert s + Zeros(0) == s;
  }

  /**
    Decoding what the encoder wrote gives back the magnitude of the encoded
    BigInt: the sign bit is not encoded, so a negative BigInt comes back as
    its absolute value.
  */
  lemma {:induction false} RoundTrip(n: JsValue, aligned: bool)
    requires n.JsBigInt?
    ensures var bytes := MinimalLE(Magnitude(n));
      ToNapiValue(if aligned && |bytes| % 8 == 0 then Borrowed(|bytes| / 8) else Owned(PaddedWords(bytes)), bytes)
        == JsBigInt(false, n.words)
  {
    var bytes := MinimalLE(Magnitude(n));
    PaddedWordsOfMinimal(n.words);
    if aligned && |bytes| % 8 == 0 {
      FastPathAgrees(bytes);
      assert bytes[..8 * (|bytes| / 8)] == bytes;
    }
  }
}
