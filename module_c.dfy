/**
  The N-API addon of src/node/native/module.c. The small BigInt argument
  words are copied into a bump-pointer pool of POOL_SIZE words, whose offset
  counts words. toBytesLE and toBytesBE return a Uint8Array over those words
  with the high zero bytes trimmed.
*/
module WordPoolAddon {
  import opened Wrappers
  import opened Bytes
  import opened Utils
  import opened Host

  /** The size of an alloc pool, in words. */
  const POOL_SIZE: nat := 1024

  /**
    The encoded length: all bytes of the words but the zero high bytes of the
    top word (tail), and 0 when there are no words.
  */
  function EncodedLength(wordCount: nat, tail: Word): (len: nat)
    requires wordCount > 0 ==> tail != 0
    ensures wordCount == 0 ==> len == 0
    ensures wordCount > 0 ==> len == 8 * (wordCount - 1) + SignificantBytes(tail)
  {
    if wordCount > 0 then 8 * wordCount - ClzbBuiltin(tail) else 0
  }

  /** For the host's words the encoded length is the minimal length of their magnitude. */
  lemma {:induction false} EncodedLengthOfWords(ws: CanonicalWords)
    ensures EncodedLength(|ws|, if |ws| > 0 then ws[|ws| - 1] else 0) == SignificantBytes(WordsValue(ws))
  {
    if |ws| > 0 {
      TrimmedWords(ws);
    }
  }

  /** The module's static pool state: pool_data, pool_ref and pool_offset. */
  class Pool {
    /** Byte image of the current pool; a zero-length array stands for NULL before the first pool. */
    var poolData: array<Byte>
    /** Whether pool_ref refers to a pool, i.e. one has been created. */
    var hasRef: bool
    /** The current offset in the pool, in words. */
    var poolOffset: nat
    /** The word ranges handed out of the current pool, oldest first. */
    ghost var issued: seq<Range>

    /**
      Once a pool exists it has POOL_SIZE words and the offset is within it;
      before, the offset is past its end. Every range handed out of the current
      pool lies below the offset, and they follow one another without overlap.
    */
    ghost predicate Valid()
      reads this
    {
      && (hasRef ==> poolData.Length == 8 * POOL_SIZE && poolOffset <= POOL_SIZE)
      && (!hasRef ==> poolOffset == POOL_SIZE + 1 && issued == [])
      && (forall i :: 0 <= i < |issued| ==> issued[i].start + issued[i].count <= poolOffset)
      && (forall i, j :: 0 <= i < j < |issued| ==> issued[i].start + issued[i].count <= issued[j].start)
    }

    /**
      The pool after handing out wordCount words at offset of buffer: it
      rotated to a fresh pool exactly when the words did not fit at the old
      offset, the words start at the old offset (0 after a rotation), the
      offset moved past them, and their range follows the ranges still in
      the pool.
    */
    twostate predicate Advanced(new buffer: array<Byte>, offset: nat, wordCount: nat)
      reads this
    {
      var rotated := wordCount + old(poolOffset) > POOL_SIZE;
      var start := if rotated then 0 else old(poolOffset);
      && hasRef
      && (rotated ==> fresh(poolData))
      && (!rotated ==> poolData == old(poolData))
      && buffer == poolData
      && offset == 8 * start
      && poolOffset == start + wordCount
      && issued == (if rotated then [] else old(issued)) + [Range(start, wordCount)]
    }

    /** Module load: no pool yet, and pool_offset starts at POOL_SIZE + 1. */
    constructor ()
      ensures Valid() && !hasRef && poolOffset == POOL_SIZE + 1
    {
      poolData := new Byte[0];
      hasRef := false;
      poolOffset := POOL_SIZE + 1;
      issued := [];
    }

    /** create_pool: a fresh pool of POOL_SIZE words and offset 0, or a fatal error. */
    method CreatePool(hostOk: bool) returns (ok: bool)
      requires Valid()
      modifies this
      ensures Valid()
      ensures ok == hostOk
      ensures ok ==> hasRef && fresh(poolData) && poolOffset == 0 && issued == []
      ensures !ok ==> unchanged(this)
    {
      if !hostOk {
        return false;
      }
      poolData := new Byte[8 * POOL_SIZE];
      hasRef := true;
      poolOffset := 0;
      issued := [];
      return true;
    }

    /**
      alloc: fewer than POOL_SIZE / 2 words come from the pool, after rotating
      to a new pool exactly when they would not fit; larger requests get a
      buffer of their own and leave the pool alone.
    */
    method Alloc(wordCount: nat, hostOk: bool) returns (r: Call<Allocation>)
      requires Valid()
      modifies this
      ensures Valid()
      ensures r.Fatal? <==> !hostOk
      ensures !r.Threw?
      ensures r.Fatal? ==> unchanged(this)
      ensures r.Returned? ==> r.value.offset + 8 * wordCount <= r.value.buffer.Length
      ensures r.Returned? && wordCount < POOL_SIZE / 2 ==> Advanced(r.value.buffer, r.value.offset, wordCount)
      ensures r.Returned? && wordCount < POOL_SIZE / 2 && !old(hasRef) ==> fresh(poolData) && r.value.offset == 0
      ensures r.Returned? && wordCount >= POOL_SIZE / 2 ==>
        && fresh(r.value.buffer)
        && r.value.buffer.Length == 8 * wordCount
        && r.value.offset == 0
        && unchanged(this)
    {
      if wordCount < POOL_SIZE / 2 {
        if wordCount + poolOffset > POOL_SIZE {
          var ok := CreatePool(hostOk);
          if !ok {
            return Fatal;
          }
        }
        if !hostOk {
          return Fatal;
        }
        r := Returned(Allocation(poolData, 8 * poolOffset));
        issued := issued + [Range(poolOffset, wordCount)];
        poolOffset := poolOffset + wordCount;
      } else {
        if !hostOk {
          return Fatal;
        }
        var buffer := new Byte[8 * wordCount];
        r := Returned(Allocation(buffer, 0));
      }
    }

    /**
      get_bigint_words: the argument checks, then an allocation that the host
      fills with the argument's words. Argument errors change nothing.
    */
    method GetBigIntWords(args: seq<JsValue>, hostOk: bool) returns (r: Call<BigInt>)
      requires Valid()
      modifies this, poolData
      ensures Valid()
      ensures !hostOk ==> r.Fatal? && unchanged(this) && unchanged(poolData)
      ensures hostOk && CheckArgs(args).Some? ==>
        r == Threw(CheckArgs(args).value) && unchanged(this) && unchanged(poolData)
      ensures hostOk && CheckArgs(args).None? ==> r.Returned? && r.value.wordCount == |args[0].words|
      ensures r.Returned? ==>
        var a := r.value.buf;
        && |args| == 1 && args[0].JsBigInt?
        && r.value.wordCount == |args[0].words|
        && a.offset + 8 * r.value.wordCount <= a.buffer.Length
        && a.buffer[a.offset..a.offset + 8 * r.value.wordCount] == WordsBytes(args[0].words)
      ensures r.Returned? && !fresh(r.value.buf.buffer) ==>
        var a := r.value.buf;
        && a.buffer == poolData == old(poolData)
        && a.buffer[..a.offset] == old(a.buffer[..a.offset])
        && a.buffer[a.offset + 8 * r.value.wordCount..] == old(a.buffer[a.offset + 8 * r.value.wordCount..])
      ensures r.Returned? ==> PoolKept(old(poolData), r.value.buf.buffer, r.value.buf.offset, 8 * r.value.wordCount)
      ensures r.Returned? && |args[0].words| < POOL_SIZE / 2 ==> Advanced(r.value.buf.buffer, r.value.buf.offset, r.value.wordCount)
      ensures r.Returned? && |args[0].words| >= POOL_SIZE / 2 ==> fresh(r.value.buf.buffer) && r.value.buf.offset == 0 && unchanged(this)
    {
      if !hostOk {
        return Fatal;
      }
      var err := CheckArgs(args);
      if err.Some? {
        return Threw(err.value);
      }
      var words := args[0].words;
      var a := Alloc(|words|, hostOk);
      if !a.Returned? {
        return Fatal;
      }
      WriteWords(a.value.buffer, a.value.offset, words);
      r := Returned(BigInt(|words|, a.value));
    }

    /** to_bytes_le: the magnitude's minimal little-endian bytes, in the pool or a buffer of their own. */
    method ToBytesLE(args: seq<JsValue>, hostOk: bool) returns (r: Call<ByteView>)
      requires Valid()
      modifies this, poolData
      ensures Valid()
      ensures !hostOk ==> r.Fatal? && unchanged(this) && unchanged(poolData)
      ensures hostOk && CheckArgs(args).Some? ==>
        r == Threw(CheckArgs(args).value) && unchanged(this) && unchanged(poolData)
      ensures hostOk && CheckArgs(args).None? ==> r.Returned?
      ensures r.Returned? ==>
        var v := r.value;
        && |args| == 1 && args[0].JsBigInt?
        && v.length == SignificantBytes(Magnitude(args[0]))
        && v.offset + v.length <= v.buffer.Length
        && Shown(v) == MinimalLE(Magnitude(args[0]))
      ensures r.Returned? ==>
        && PoolKept(old(poolData), r.value.buffer, r.value.offset, 8 * |args[0].words|)
        && (!fresh(r.value.buffer) ==> r.value.buffer == old(poolData))
      ensures r.Returned? ==> r.value.length <= 8 * |args[0].words|
      ensures r.Returned? && |args[0].words| < POOL_SIZE / 2 ==> Advanced(r.value.buffer, r.value.offset, |args[0].words|)
      ensures r.Returned? && |args[0].words| >= POOL_SIZE / 2 ==> fresh(r.value.buffer) && r.value.offset == 0 && unchanged(this)
    {
      var b := GetBigIntWords(args, hostOk);
      if !b.Returned? {
        return if b.Threw? then Threw(b.error) else Fatal;
      }
      var len := TrimmedLength(b.value.buf.buffer, b.value.buf.offset, b.value.wordCount, args[0].words);
      r := Returned(ByteView(b.value.buf.buffer, b.value.buf.offset, len));
    }

    /** to_bytes_be: the same bytes, reversed in place, so the most significant byte comes first. */
    method ToBytesBE(args: seq<JsValue>, hostOk: bool) returns (r: Call<ByteView>)
      requires Valid()
      modifies this, poolData
      ensures Valid()
      ensures !hostOk ==> r.Fatal? && unchanged(this) && unchanged(poolData)
      ensures hostOk && CheckArgs(args).Some? ==>
        r == Threw(CheckArgs(args).value) && unchanged(this) && unchanged(poolData)
      ensures hostOk && CheckArgs(args).None? ==> r.Returned?
      ensures r.Returned? ==>
        var v := r.value;
        && |args| == 1 && args[0].JsBigInt?
        && v.length == SignificantBytes(Magnitude(args[0]))
        && v.offset + v.length <= v.buffer.Length
        && Shown(v) == Reversed(MinimalLE(Magnitude(args[0])))
      ensures r.Returned? ==>
        && PoolKept(old(poolData), r.value.buffer, r.value.offset, 8 * |args[0].words|)
        && (!fresh(r.value.buffer) ==> r.value.buffer == old(poolData))
      ensures r.Returned? ==> r.value.length <= 8 * |args[0].words|
      ensures r.Returned? && |args[0].words| < POOL_SIZE / 2 ==> Advanced(r.value.buffer, r.value.offset, |args[0].words|)
      ensures r.Returned? && |args[0].words| >= POOL_SIZE / 2 ==> fresh(r.value.buffer) && r.value.offset == 0 && unchanged(this)
    {
      var b := GetBigIntWords(args, hostOk);
      if !b.Returned? {
        return if b.Threw? then Threw(b.error) else Fatal;
      }
      var a := b.value.buf;
      ghost var pool := old(poolData);
      ghost var kept := pool[..];
      var len := TrimmedReversed(a.buffer, a.offset, b.value.wordCount, args[0].words);
      if a.buffer != pool {
        assert pool[..] == kept;
      }
      r := Returned(ByteView(a.buffer, a.offset, len));
    }
  }

  /**
    A to_bytes_le call keeps the bytes of every view handed out before it that lies
    below the pool offset or outside the pool: it writes only past the
    offset, into a fresh pool, or into a buffer of its own.
  */
  method ToBytesLEKeeping(pool: Pool, earlier: ByteView, y: JsValue) returns (v: ByteView)
    requires pool.Valid() && y.JsBigInt?
    requires earlier.offset + earlier.length <= earlier.buffer.Length
    requires earlier.buffer == pool.poolData ==> earlier.offset + earlier.length <= 8 * pool.poolOffset
    modifies pool, pool.poolData
    ensures pool.Valid()
    ensures v.offset + v.length <= v.buffer.Length && Shown(v) == MinimalLE(Magnitude(y))
    ensures Shown(earlier) == old(Shown(earlier))
  {
    ghost var before := earlier.buffer[..];
    var r := pool.ToBytesLE([y], true);
    v := r.value;
    if earlier.buffer == old(pool.poolData) == v.buffer {
      PrefixKept(earlier.buffer[..], before, v.offset, earlier.offset, earlier.offset + earlier.length);
    } else {
      assert earlier.buffer[..] == before;
    }
  }

  /**
    A to_bytes_be call keeps the bytes of every view handed out before it that lies
    below the pool offset or outside the pool: it writes only past the
    offset, into a fresh pool, or into a buffer of its own.
  */
  method ToBytesBEKeeping(pool: Pool, earlier: ByteView, y: JsValue) returns (v: ByteView)
    requires pool.Valid() && y.JsBigInt?
    requires earlier.offset + earlier.length <= earlier.buffer.Length
    requires earlier.buffer == pool.poolData ==> earlier.offset + earlier.length <= 8 * pool.poolOffset
    modifies pool, pool.poolData
    ensures pool.Valid()
    ensures v.offset + v.length <= v.buffer.Length && Shown(v) == Reversed(MinimalLE(Magnitude(y)))
    ensures Shown(earlier) == old(Shown(earlier))
  {
    ghost var before := earlier.buffer[..];
    var r := pool.ToBytesBE([y], true);
    v := r.value;
    if earlier.buffer == old(pool.poolData) == v.buffer {
      PrefixKept(earlier.buffer[..], before, v.offset, earlier.offset, earlier.offset + earlier.length);
    } else {
      assert earlier.buffer[..] == before;
    }
  }

  /**
    A to_bytes_le call and then a to_bytes_be call: the first view still shows
    the first argument's bytes after the second call.
  */
  method ConsecutiveViews(pool: Pool, x: JsValue, y: JsValue) returns (first: ByteView, second: ByteView)
    requires pool.Valid() && x.JsBigInt? && y.JsBigInt?
    modifies pool, pool.poolData
    ensures pool.Valid()
    ensures first.offset + first.length <= first.buffer.Length && Shown(first) == MinimalLE(Magnitude(x))
    ensures second.offset + second.length <= second.buffer.Length && Shown(second) == Reversed(MinimalLE(Magnitude(y)))
  {
    var r := pool.ToBytesLE([x], true);
    first := r.value;
    second := ToBytesBEKeeping(pool, first, y);
  }

  /**
    The length computation shared by to_bytes_le and to_bytes_be: 8 bytes per
    word less the zero high bytes of the top word (tail), read back from the
    words the host copied to buffer at off.
  */
  method TrimmedLength(buffer: array<Byte>, off: nat, wordCount: nat, ghost ws: CanonicalWords) returns (len: nat)
    requires wordCount == |ws| && off + 8 * wordCount <= buffer.Length
    requires buffer[off..off + 8 * wordCount] == WordsBytes(ws)
    ensures len == SignificantBytes(WordsValue(ws)) && len <= 8 * wordCount
    ensures Shown(ByteView(buffer, off, len)) == MinimalLE(WordsValue(ws))
  {
    len := 0;
    if wordCount > 0 {
      var tail := ReadWord(buffer, off + 8 * (wordCount - 1));
      TailAt(buffer[..], off, ws, tail);
      len := EncodedLength(wordCount, tail);
    }
    EncodedLengthOfWords(ws);
    PrefixAt(buffer[..], off, ws, len);
  }

  /** The body of to_bytes_be: the trimmed length, and the bytes below it reversed in place. */
  method TrimmedReversed(buffer: array<Byte>, off: nat, wordCount: nat, ghost ws: CanonicalWords) returns (len: nat)
    requires wordCount == |ws| && off + 8 * wordCount <= buffer.Length
    requires buffer[off..off + 8 * wordCount] == WordsBytes(ws)
    modifies buffer
    ensures len == SignificantBytes(WordsValue(ws)) && off + len <= buffer.Length
    ensures Shown(ByteView(buffer, off, len)) == Reversed(MinimalLE(WordsValue(ws)))
    ensures buffer[..off] == old(buffer[..off]) && buffer[off + len..] == old(buffer[off + len..])
    ensures len <= 8 * wordCount && buffer[off + 8 * wordCount..] == old(buffer[off + 8 * wordCount..])
  {
    len := TrimmedLength(buffer, off, wordCount, ws);
    ghost var le := buffer[off..off + len];
    ghost var minimal := MinimalLE(WordsValue(ws));
    assert le == minimal;
    if wordCount > 0 {
      Reverse(buffer, off, len);
    } else {
      assert le == [] == Reversed(le);
    }
    assert Shown(ByteView(buffer, off, len)) == Reversed(minimal);
    SuffixKept(buffer[..], old(buffer[..]), off + len, off + 8 * wordCount);
  }
}
