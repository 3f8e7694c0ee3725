/**
  The JavaScript host as the native addons see it through N-API: argument
  values, the BigInt words the host reports for a value, thrown errors and
  fatal errors, and the host's copy of a BigInt's words into memory.
*/
module Host {
  import opened Bytes
  import opened Wrappers

  /** Word sequences as the host reports them: no zero top word, and 0n has no words. */
  type CanonicalWords = ws: seq<Word> | Canonical(ws) witness []

  /** An argument value: a BigInt (sign and magnitude words) or any other value. */
  datatype JsValue = JsBigInt(negative: bool, words: CanonicalWords) | JsOther

  /** The magnitude of a BigInt argument. */
  function Magnitude(v: JsValue): nat
    requires v.JsBigInt?
  {
    WordsValue(v.words)
  }

  /** A TypeError thrown into JavaScript with an error code and a message. */
  datatype JsError = TypeError(code: string, message: string)

  /**
    How a call into the addon ends: it returns a value, it throws a JavaScript
    exception, or napi_fatal_error ends the process.
  */
  datatype Call<T> = Returned(value: T) | Threw(error: JsError) | Fatal

  const MissingArgs := TypeError("ERR_MISSING_ARGS", "Wrong number of arguments")
  const InvalidArgType := TypeError("ERR_INVALID_ARG_TYPE", "Expected argument to be typeof bigint")

  /** A part of an array buffer handed out for words; offset is in bytes. */
  datatype Allocation = Allocation(buffer: array<Byte>, offset: nat)

  /** A range [start, start + count) handed out of a pool, in the pool's offset unit. */
  datatype Range = Range(start: nat, count: nat)

  /** What get_bigint_words fills in: the word count and the allocation holding the words. */
  datatype BigInt = BigInt(wordCount: nat, buf: Allocation)

  /** A Uint8Array of length bytes over buffer, from byte offset. */
  datatype ByteView = ByteView(buffer: array<Byte>, offset: nat, length: nat)

  /**
    The old pool keeps every byte a call did not write: when the call wrote
    bytes [off, off + n) of the pool itself, all bytes outside them; when it
    wrote into another buffer, all of them.
  */
  twostate predicate PoolKept(pool: array<Byte>, new written: array<Byte>, off: nat, n: nat)
    reads pool
  {
    if written == pool then
      && off + n <= pool.Length
      && pool[..off] == old(pool[..off])
      && pool[off + n..] == old(pool[off + n..])
    else
      pool[..] == old(pool[..])
  }

  /** A buffer that kept its bytes from a on kept them from any b >= a on. */
  lemma {:induction false} SuffixKept(now: seq<Byte>, before: seq<Byte>, a: nat, b: nat)
    requires a <= b <= |now| && |now| == |before| && now[a..] == before[a..]
    ensures now[b..] == before[b..]
  {
    assert now[b..] == now[a..][b - a..];
    assert before[b..] == before[a..][b - a..];
  }

  /** The bytes a view shows. */
  function Shown(v: ByteView): (bytes: seq<Byte>)
    requires v.offset + v.length <= v.buffer.Length
    reads v.buffer
    ensures |bytes| == v.length
  {
    v.buffer[v.offset..v.offset + v.length]
  }

  /** A buffer that kept its first k bytes kept every slice below k. */
  lemma {:induction false} PrefixKept(now: seq<Byte>, before: seq<Byte>, k: nat, lo: nat, hi: nat)
    requires lo <= hi <= k <= |now| && |now| == |before| && now[..k] == before[..k]
    ensures now[lo..hi] == before[lo..hi]
  {
    assert now[lo..hi] == now[..k][lo..hi];
    assert before[lo..hi] == before[..k][lo..hi];
  }

  /**
    The argument checks shared by both C addons: exactly one argument, and it
    is a BigInt. None is an accepted argument list.
  */
  function CheckArgs(args: seq<JsValue>): (e: Option<JsError>)
    ensures e.None? <==> |args| == 1 && args[0].JsBigInt?
    ensures |args| != 1 ==> e == Some(MissingArgs)
    ensures |args| == 1 && args[0].JsOther? ==> e == Some(InvalidArgType)
  {
    if |args| != 1 then Some(MissingArgs)
    else if !args[0].JsBigInt? then Some(InvalidArgType)
    else None
  }

  /** A uint64_t read from memory at byte offset off, on a little-endian host. */
  function ReadWord(buf: array<Byte>, off: nat): (w: Word)
    requires off + 8 <= buf.Length
    reads buf
    ensures WordBytes(w) == buf[off..off + 8]
  {
    LEBound(buf[off..off + 8]);
    Pow256Word();
    NatToLEOfLE(buf[off..off + 8]);
    LE(buf[off..off + 8])
  }

  /**
    napi_get_value_bigint_words with a buffer: the host stores the words at
    byte offset off of buf as their little-endian image, and nothing else.
  */
  method WriteWords(buf: array<Byte>, off: nat, words: seq<Word>)
    requires off + 8 * |words| <= buf.Length
    modifies buf
    ensures buf[..] == old(buf[..off]) + WordsBytes(words) + old(buf[off + 8 * |words|..])
  {
    var image := WordsBytes(words);
    ghost var before := buf[..];
    for i := 0 to |image|
      invariant forall k :: 0 <= k < buf.Length ==> buf[k] == if off <= k < off + i then image[k - off] else before[k]
    {
      buf[off + i] := image[i];
    }
    ghost var after := before[..off] + image + before[off + |image|..];
    assert |after| == buf.Length;
    forall k | 0 <= k < buf.Length
      ensures buf[k] == after[k]
    {
      if k < off {
        assert after[k] == before[k];
      } else if k < off + |image| {
        assert after[k] == image[k - off];
      } else {
        assert after[k] == before[k];
      }
    }
  }

  /** The tail word read from the image of canonical words is their nonzero top word. */
  lemma {:induction false} TailOfImage(ws: CanonicalWords, image: seq<Byte>, tail: Word)
    requires |ws| > 0 && image == WordsBytes(ws)
    requires WordBytes(tail) == image[8 * (|ws| - 1)..]
    ensures tail == ws[|ws| - 1] && tail != 0
  {
    LastWordBytes(ws);
    Pow256Word();
    LENatToLE(tail, 8);
  }

  /** The first SignificantBytes bytes of the image are the minimal encoding of the words' value. */
  lemma {:induction false} PrefixOfImage(ws: CanonicalWords, image: seq<Byte>, len: nat)
    requires image == WordsBytes(ws)
    requires len == SignificantBytes(WordsValue(ws))
    ensures len <= |image| && image[..len] == MinimalLE(WordsValue(ws))
  {
    if |ws| > 0 {
      TrimmedWords(ws);
    } else {
      assert MinimalLE(0) == [];
    }
  }

  /** TailOfImage for words stored at byte offset off of a larger memory. */
  lemma {:induction false} TailAt(mem: seq<Byte>, off: nat, ws: CanonicalWords, tail: Word)
    requires |ws| > 0 && off + 8 * |ws| <= |mem| && mem[off..off + 8 * |ws|] == WordsBytes(ws)
    requires WordBytes(tail) == mem[off + 8 * (|ws| - 1)..off + 8 * |ws|]
    ensures tail == ws[|ws| - 1] && tail != 0
  {
    var image := mem[off..off + 8 * |ws|];
    var k := 8 * (|ws| - 1);
    assert image[k..] == mem[off + k..off + 8 * |ws|];
    TailOfImage(ws, image, tail);
  }

  /** PrefixOfImage for words stored at byte offset off of a larger memory. */
  lemma {:induction false} PrefixAt(mem: seq<Byte>, off: nat, ws: CanonicalWords, len: nat)
    requires off + 8 * |ws| <= |mem| && mem[off..off + 8 * |ws|] == WordsBytes(ws)
    requires len == SignificantBytes(WordsValue(ws))
    ensures off + len <= |mem| && mem[off..off + len] == MinimalLE(WordsValue(ws))
  {
    var image := mem[off..off + 8 * |ws|];
    PrefixOfImage(ws, image, len);
    assert mem[off..off + len] == image[..len];
  }

  /** A zero top word adds nothing to the value. */
  lemma {:induction false} WordsValueDropZero(ws: seq<Word>)
    requires |ws| > 0 && ws[|ws| - 1] == 0
    ensures WordsValue(ws) == WordsValue(ws[..|ws| - 1])
  {
    var init := ws[..|ws| - 1];
    assert ws == init + [0];
    var a, z := WordsBytes(init), WordsBytes([0]);
    WordsBytesAppend(init, [0]);
    LEWordsBytes(ws);
    LEWordsBytes(init);
    LEWordsBytes([0]);
    assert LE(z) == 0 by {
      assert WordsValue([0]) == 0;
    }
    LEAppend(a, z);
    assert LE(a + z) == LE(a) + Pow256(|a|) * 0;
  }

  /** The words with zero top words dropped, as the host normalises a new BigInt. */
  function Normalize(ws: seq<Word>): (r: CanonicalWords)
    ensures WordsValue(r) == WordsValue(ws) && |r| <= |ws|
    ensures r == ws[..|r|]
    ensures Canonical(ws) ==> r == ws
  {
    if |ws| == 0 || ws[|ws| - 1] != 0 then ws
    else
      WordsValueDropZero(ws);
      Normalize(ws[..|ws| - 1])
  }

  /**
    napi_create_bigint_words: the BigInt (-1)^sign * sum of words[i] * 2^(64 i),
    in the host's canonical form (zero is never negative).
  */
  function CreateBigIntWords(signBit: bool, words: seq<Word>): (v: JsValue)
    ensures v.JsBigInt? && Magnitude(v) == WordsValue(words)
    ensures v.negative <==> signBit && WordsValue(words) != 0
  {
    var ws := Normalize(words);
    CanonicalZero(ws);
    JsBigInt(signBit && ws != [], ws)
  }

  /** Only the empty canonical word sequence stands for zero. */
  lemma {:induction false} CanonicalZero(ws: CanonicalWords)
    ensures WordsValue(ws) == 0 <==> ws == []
  {
    if |ws| > 0 {
      TrimmedWords(ws);
    }
  }

  /** A canonical word sequence has only its value's bytes, rounded up to whole words. */
  lemma {:induction false} WordCountOfValue(ws: CanonicalWords)
    ensures |ws| == (SignificantBytes(WordsValue(ws)) + 7) / 8
  {
    if |ws| > 0 {
      TrimmedWords(ws);
      SignificantBytesWord(ws[|ws| - 1]);
      DivModUnique(SignificantBytes(WordsValue(ws)) + 7, 8, |ws|, SignificantBytes(ws[|ws| - 1]) - 1);
    }
  }
}
