/**
  The portable codec (src/browser.ts): encoders that write the magnitude of a
  bigint into a fresh buffer through a DataView, 8 bytes at a time and then
  in chunks of 4, 2 and 1 bytes, and decoders that accumulate a bigint the
  same way.

  The last partial chunks go through Number(n), the double nearest to n.
  Number is modelled on integers exactly: below 2^53 it is n itself, above
  it the nearest multiple of a power of two, halfway cases to the even one.
*/
module Browser {
  import opened Bytes
  import opened Hex

  const TWO_53: nat := 0x20_0000_0000_0000
  const TWO_56: nat := 0x100_0000_0000_0000

  // ---------------------------------------------------------------------
  // Number(n) for the values the chunk steps see
  // ---------------------------------------------------------------------

  /** x rounded to the nearest multiple of m, halfway cases to the even multiple. */
  function RoundToMultiple(x: nat, m: nat): nat
    requires m > 0
  {
    var q, r := x / m, x % m;
    if 2 * r > m || (2 * r == m && q % 2 == 1) then (q + 1) * m else q * m
  }

  function Distance(x: nat, y: nat): nat
  {
    if x <= y then y - x else x - y
  }

  /** The rounded value is a multiple of m at most m / 2 away, and an even multiple on a tie. */
  lemma {:induction false} RoundToMultipleNearest(x: nat, m: nat)
    requires m > 0
    ensures var y := RoundToMultiple(x, m);
      y % m == 0 && 2 * Distance(x, y) <= m && (2 * Distance(x, y) == m ==> (y / m) % 2 == 0)
  {
    var q, r := x / m, x % m;
    if 2 * r > m || (2 * r == m && q % 2 == 1) {
      RoundedUp(x, m, q, r, RoundToMultiple(x, m));
    } else {
      RoundedDown(x, m, q, r, RoundToMultiple(x, m));
    }
  }

  lemma {:induction false} RoundedUp(x: nat, m: nat, q: nat, r: nat, y: nat)
    requires m > 0 && q == x / m && r == x % m && y == RoundToMultiple(x, m)
    requires 2 * r > m || (2 * r == m && q % 2 == 1)
    ensures y % m == 0 && y / m == q + 1 && Distance(x, y) == m - r
  {
    MulDistrib(1, q * m, 1, m);
    assert y == (q + 1) * m == x + (m - r);
    DivModUnique(y, m, q + 1, 0);
  }

  lemma {:induction false} RoundedDown(x: nat, m: nat, q: nat, r: nat, y: nat)
    requires m > 0 && q == x / m && r == x % m && y == RoundToMultiple(x, m)
    requires !(2 * r > m || (2 * r == m && q % 2 == 1))
    ensures y % m == 0 && y / m == q && Distance(x, y) == r
  {
    assert y == q * m && x == y + r;
    DivModUnique(y, m, q, 0);
  }

  /**
    Number(x) for a bigint 0 <= x < 2^56, as an integer: a double has 53
    significant bits, so x keeps its 53 leading bits and is rounded to the
    nearest, ties to even.
  */
  function NumberOf(x: nat): (d: nat)
    requires x < TWO_56
    ensures x < TWO_53 ==> d == x
  {
    if x < TWO_53 then x
    else if x < 0x40_0000_0000_0000 then RoundToMultiple(x, 2)
    else if x < 0x80_0000_0000_0000 then RoundToMultiple(x, 4)
    else RoundToMultiple(x, 8)
  }

  // ---------------------------------------------------------------------
  // What the encoders write
  // ---------------------------------------------------------------------

  /** toString(16).length + 1, shifted right by one: the number of bytes the encoders allocate. */
  function ByteLength(x: nat): (len: nat)
    ensures len == if x == 0 then 1 else SignificantBytes(x)
  {
    HexLength(x);
    (|NatToHex(x)| + 1) / 2
  }

  /** The value left for the partial chunks once the whole 8-byte words are written. */
  function TopChunk(x: nat): (t: nat)
    ensures t < Pow256(ByteLength(x) % 8)
  {
    WholeWordsShifted(x, ByteLength(x));
    Shr(x, 8 * (ByteLength(x) / 8))
  }

  lemma {:induction false} WholeWordsShifted(x: nat, len: nat)
    requires len == ByteLength(x)
    ensures Shr(x, 8 * (len / 8)) < Pow256(len % 8)
  {
    SignificantBytesBounds(x);
    assert x == 0 ==> x < Pow256(1);
    ShrBound(x, 8 * (len / 8), len % 8);
  }

  lemma {:induction false} TopChunkBound(x: nat)
    ensures TopChunk(x) < Pow256(ByteLength(x) % 8) && TopChunk(x) < TWO_56
  {
    var r := ByteLength(x) % 8;
    Pow256Add(r, 7 - r);
    MulLe(1, Pow256(7 - r), Pow256(r));
    Pow256Small();
  }

  /** The low-order bits the source keeps of Number(n) before a w-byte DataView write. */
  function ChunkMask(d: nat, w: nat): nat
  {
    if w == 4 then d % 0x1_0000_0000 else if w == 2 then d % 0x1_0000 else d
  }

  /** n >>= 32n after the 4-byte chunk and n >>= 16n after the 2-byte one; nothing after the last. */
  function ChunkShift(n: nat, w: nat): (r: nat)
    ensures r <= n
  {
    if w == 4 then n / 0x1_0000_0000 else if w == 2 then n / 0x1_0000 else n
  }

  lemma {:induction false} ChunkFacts(d: nat, n: nat, w: nat)
    requires w == 1 || w == 2 || w == 4
    ensures NatToLE(ChunkMask(d, w), w) == NatToLE(d, w)
    ensures w > 1 ==> ChunkShift(n, w) == Shr(n, w)
  {
    Pow256Small();
    if w == 4 {
      NatToLEAddMul(d % 0x1_0000_0000, d / 0x1_0000_0000, 4);
      ShrDiv(n, 4);
    } else if w == 2 {
      NatToLEAddMul(d % 0x1_0000, d / 0x1_0000, 2);
      ShrDiv(n, 2);
    }
  }

  /**
    The value a w-byte chunk step writes for the top t: Number(t) & mask as
    the source has it, or, when exact, the masked bits of t themselves (as
    Number(t & mask) would give).
  */
  function ChunkValue(t: nat, w: nat, exact: bool): nat
    requires t < TWO_56
  {
    if exact then ChunkMask(t, w) else ChunkMask(NumberOf(t), w)
  }

  /** The bytes one `if (remaining > w - 1)` block writes, least significant first. */
  function ChunkLE(t: nat, r: nat, w: nat, exact: bool): seq<Byte>
    requires t < TWO_56
  {
    if r >= w then NatToLE(ChunkValue(t, w, exact), w) else []
  }

  /** The bytes one `if (remaining > w - 1)` block writes, most significant first. */
  function ChunkBE(t: nat, r: nat, w: nat, exact: bool): seq<Byte>
    requires t < TWO_56
  {
    if r >= w then NatToBE(ChunkValue(t, w, exact), w) else []
  }

  /**
    A block writes w bytes when at least w remain and nothing otherwise; the
    exact chunk is the w low bytes of the top, and the big-endian block writes
    the little-endian one reversed.
  */
  lemma {:induction false} ChunkBytes(t: nat, r: nat, w: nat, exact: bool)
    requires t < TWO_56 && (w == 1 || w == 2 || w == 4)
    ensures |ChunkLE(t, r, w, exact)| == if r >= w then w else 0
    ensures r >= w && exact ==> ChunkLE(t, r, w, exact) == NatToLE(t, w)
    ensures ChunkBE(t, r, w, exact) == Reversed(ChunkLE(t, r, w, exact))
  {
    ChunkFacts(t, t, w);
  }

  /** The top after such a block. */
  function NextValue(t: nat, r: nat, w: nat): (t': nat)
    ensures t' <= t
  {
    if r >= w then ChunkShift(t, w) else t
  }

  /** The remaining count after such a block. */
  function NextCount(r: nat, w: nat): nat
  {
    if r >= w then r - w else r
  }

  /**
    The bytes the three chunk blocks of toBytesLE write, in order, for the
    top t when r < 8 bytes remain.
  */
  function TailLE(t: nat, r: nat, exact: bool): (s: seq<Byte>)
    requires t < TWO_56 && r < 8
    ensures |s| == r
  {
    var t2, r2 := NextValue(t, r, 4), NextCount(r, 4);
    var t3, r3 := NextValue(t2, r2, 2), NextCount(r2, 2);
    ChunkLE(t, r, 4, exact) + ChunkLE(t2, r2, 2, exact) + ChunkLE(t3, r3, 1, exact)
  }

  /** The bytes the three chunk blocks of toBytesBE leave at the front of the buffer. */
  function TailBE(t: nat, r: nat, exact: bool): (s: seq<Byte>)
    requires t < TWO_56 && r < 8
    ensures |s| == r
  {
    var t2, r2 := NextValue(t, r, 4), NextCount(r, 4);
    var t3, r3 := NextValue(t2, r2, 2), NextCount(r2, 2);
    ChunkBE(t3, r3, 1, exact) + ChunkBE(t2, r2, 2, exact) + ChunkBE(t, r, 4, exact)
  }

  /** The bytes toBytesLE returns for a magnitude x. */
  function EncodeLE(x: nat): (s: seq<Byte>)
    ensures |s| == ByteLength(x)
  {
    var len := ByteLength(x);
    TopChunkBound(x);
    NatToLE(x, 8 * (len / 8)) + TailLE(TopChunk(x), len % 8, false)
  }

  /** The bytes toBytesBE returns for a magnitude x. */
  function EncodeBE(x: nat): (s: seq<Byte>)
    ensures |s| == ByteLength(x)
  {
    var len := ByteLength(x);
    TopChunkBound(x);
    TailBE(TopChunk(x), len % 8, false) + NatToBE(x, 8 * (len / 8))
  }

  /** toBytesLE with the partial chunks taken from the exact bits. */
  function EncodeLECorrected(x: nat): (s: seq<Byte>)
    ensures |s| == ByteLength(x)
  {
    var len := ByteLength(x);
    TopChunkBound(x);
    NatToLE(x, 8 * (len / 8)) + TailLE(TopChunk(x), len % 8, true)
  }

  // ---------------------------------------------------------------------
  // Properties of the encodings
  // ---------------------------------------------------------------------

  /** An exact chunk step writes the low-order bytes of t and leaves the rest of t. */
  lemma {:induction false} StepExact(t: nat, r: nat, w: nat)
    requires (w == 1 || w == 2 || w == 4) && r < 2 * w && t < TWO_56
    ensures ChunkLE(t, r, w, true) + NatToLE(NextValue(t, r, w), NextCount(r, w)) == NatToLE(t, r)
  {
    ChunkFacts(t, t, w);
    if r >= w {
      NatToLESplit(t, w, r - w);
      if w == 1 {
        assert NatToLE(NextValue(t, r, w), 0) == [];
      }
    } else {
      assert ChunkLE(t, r, w, true) == [];
    }
  }

  /** With exact chunks, the blocks write the r low-order bytes of t. */
  lemma {:induction false} TailLECorrectedIsNatToLE(t: nat, r: nat)
    requires t < TWO_56 && r < 8
    ensures TailLE(t, r, true) == NatToLE(t, r)
  {
    var t2, r2 := NextValue(t, r, 4), NextCount(r, 4);
    var t3, r3 := NextValue(t2, r2, 2), NextCount(r2, 2);
    StepExact(t, r, 4);
    StepExact(t2, r2, 2);
    StepExact(t3, r3, 1);
    var c1, c2, c3 := ChunkLE(t, r, 4, true), ChunkLE(t2, r2, 2, true), ChunkLE(t3, r3, 1, true);
    assert c1 + c2 + c3 == c1 + (c2 + c3);
  }

  /** Below 2^53 Number is exact, so the blocks as written are the exact ones. */
  lemma {:induction false} TailLEExactBelow53(t: nat, r: nat)
    requires t < TWO_53 && r < 8
    ensures TailLE(t, r, false) == TailLE(t, r, true)
    ensures TailBE(t, r, false) == TailBE(t, r, true)
  {
  }

  /** Filling from the end writes the same chunks in the opposite order. */
  lemma {:induction false} TailBEReversesLE(t: nat, r: nat, exact: bool)
    requires t < TWO_56 && r < 8
    ensures TailBE(t, r, exact) == Reversed(TailLE(t, r, exact))
  {
    var t2, r2 := NextValue(t, r, 4), NextCount(r, 4);
    var t3, r3 := NextValue(t2, r2, 2), NextCount(r2, 2);
    var c1, c2, c3 := ChunkLE(t, r, 4, exact), ChunkLE(t2, r2, 2, exact), ChunkLE(t3, r3, 1, exact);
    assert Reversed<Byte>([]) == [];
    assert ChunkBE(t, r, 4, exact) == Reversed(c1);
    assert ChunkBE(t2, r2, 2, exact) == Reversed(c2);
    assert ChunkBE(t3, r3, 1, exact) == Reversed(c3);
    ReversedAppend(c1 + c2, c3);
    ReversedAppend(c1, c2);
  }

  /** The corrected encoder writes x in exactly ByteLength(x) bytes, so decoding gives x back. */
  lemma {:induction false} EncodeLECorrectedDenotes(x: nat)
    ensures EncodeLECorrected(x) == NatToLE(x, ByteLength(x))
    ensures LE(EncodeLECorrected(x)) == x
  {
    var len := ByteLength(x);
    var q := len / 8;
    TopChunkBound(x);
    TailLECorrectedIsNatToLE(TopChunk(x), len % 8);
    NatToLESplit(x, 8 * q, len % 8);
    SignificantBytesBounds(x);
    if x == 0 {
      assert x < Pow256(1);
    }
    LENatToLE(x, len);
  }

  /** When the top chunk is below 2^53, toBytesLE writes the exact encoding. */
  lemma {:induction false} EncodeLEExact(x: nat)
    requires TopChunk(x) < TWO_53
    ensures EncodeLE(x) == EncodeLECorrected(x) == NatToLE(x, ByteLength(x))
    ensures LE(EncodeLE(x)) == x
  {
    TailLEExactBelow53(TopChunk(x), ByteLength(x) % 8);
    EncodeLECorrectedDenotes(x);
  }

  /** Every magnitude below 2^53 has its top chunk below 2^53. */
  lemma {:induction false} SmallTopChunk(x: nat)
    requires x < TWO_53
    ensures TopChunk(x) < TWO_53
  {
    ShrLe(x, 8 * (ByteLength(x) / 8));
  }

  /** toBytesBE returns the bytes of toBytesLE in reverse order. */
  lemma {:induction false} EncodeBEReversesLE(x: nat)
    ensures EncodeBE(x) == Reversed(EncodeLE(x))
  {
    var len := ByteLength(x);
    TopChunkBound(x);
    TailBEReversesLE(TopChunk(x), len % 8, false);
    ReversedAppend(NatToLE(x, 8 * (len / 8)), TailLE(TopChunk(x), len % 8, false));
  }

  /** With a top chunk below 2^53, toBytesBE is the exact big-endian encoding. */
  lemma {:induction false} EncodeBEExact(x: nat)
    requires TopChunk(x) < TWO_53
    ensures EncodeBE(x) == NatToBE(x, ByteLength(x))
    ensures BE(EncodeBE(x)) == x
  {
    EncodeBEReversesLE(x);
    EncodeLEExact(x);
    LEReversed(Reversed(EncodeLE(x)));
    ReversedReversed(EncodeLE(x));
  }

  /** The encodings of a nonzero magnitude are minimal; zero is written as one zero byte. */
  lemma {:induction false} EncodeLEMinimal(x: nat)
    requires TopChunk(x) < TWO_53
    ensures x > 0 ==> EncodeLE(x) == MinimalLE(x)
    ensures x == 0 ==> EncodeLE(x) == [0]
  {
    EncodeLEExact(x);
  }

  /**
    2^55 + 1 needs seven bytes, none of them a whole word, so all of it goes
    through Number, which rounds it to 2^55: toBytesLE writes the encoding
    of 2^55 (lowest byte 0) where the exact encoding has lowest byte 1.
  */
  lemma {:induction false} EncodeLERounds()
    ensures EncodeLE(0x80_0000_0000_0001) == NatToLE(0x80_0000_0000_0000, 7)
    ensures EncodeLECorrected(0x80_0000_0000_0001) == NatToLE(0x80_0000_0000_0001, 7)
    ensures LE(EncodeLE(0x80_0000_0000_0001)) == 0x80_0000_0000_0000
    ensures EncodeLE(0x80_0000_0000_0001) != EncodeLECorrected(0x80_0000_0000_0001)
  {
    var x, y := 0x80_0000_0000_0001, 0x80_0000_0000_0000;
    Pow256Small();
    ShrDiv(x, 7);
    ShrDiv(x, 6);
    SignificantBytesUnique(x, 7);
    assert ByteLength(x) == 7 && TopChunk(x) == x;
    assert NumberOf(x) == y;
    assert TailLE(x, 7, false) == TailLE(y, 7, true);
    TailLECorrectedIsNatToLE(y, 7);
    LENatToLE(y, 7);
    EncodeLECorrectedDenotes(x);
  }

  /** The same rounding in toBytesBE: it writes the big-endian encoding of 2^55 for 2^55 + 1. */
  lemma {:induction false} EncodeBERounds()
    ensures EncodeBE(0x80_0000_0000_0001) == NatToBE(0x80_0000_0000_0000, 7)
    ensures BE(EncodeBE(0x80_0000_0000_0001)) == 0x80_0000_0000_0000
  {
    var x := 0x80_0000_0000_0001;
    EncodeLERounds();
    EncodeBEReversesLE(x);
    BEReversed(EncodeLE(x));
  }

  // ---------------------------------------------------------------------
  // DataView access
  // ---------------------------------------------------------------------

  /** setUint8/16/32 and setBigUint64: the w low-order bytes of v at off, in the chosen order. */
  method SetUint(buf: array<Byte>, off: nat, w: nat, v: nat, littleEndian: bool)
    requires off + w <= buf.Length
    modifies buf
    ensures buf[..off] == old(buf[..off]) && buf[off + w..] == old(buf[off + w..])
    ensures buf[off..off + w] == if littleEndian then NatToLE(v, w) else NatToBE(v, w)
  {
    if littleEndian {
      SetUintLE(buf, off, w, v);
    } else {
      SetUintBE(buf, off, w, v);
    }
  }

  method SetUintLE(buf: array<Byte>, off: nat, w: nat, v: nat)
    requires off + w <= buf.Length
    modifies buf
    ensures buf[..off] == old(buf[..off]) && buf[off + w..] == old(buf[off + w..])
    ensures buf[off..off + w] == NatToLE(v, w)
  {
    var x := v;
    for i := 0 to w
      invariant x == Shr(v, i)
      invariant buf[..off] == old(buf[..off]) && buf[off + w..] == old(buf[off + w..])
      invariant buf[off..off + i] == NatToLE(v, i)
    {
      NatToLESplit(v, i, 1);
      buf[off + i] := x % 256;
      x := x / 256;
      ShrAdd(v, i, 1);
      assert buf[off..off + i + 1] == buf[off..off + i] + [buf[off + i]];
    }
  }

  method SetUintBE(buf: array<Byte>, off: nat, w: nat, v: nat)
    requires off + w <= buf.Length
    modifies buf
    ensures buf[..off] == old(buf[..off]) && buf[off + w..] == old(buf[off + w..])
    ensures buf[off..off + w] == NatToBE(v, w)
  {
    var x := v;
    for i := 0 to w
      invariant x == Shr(v, i)
      invariant buf[..off] == old(buf[..off]) && buf[off + w..] == old(buf[off + w..])
      invariant buf[off + w - i..off + w] == NatToBE(v, i)
    {
      NatToBESplit(v, i, 1);
      assert NatToBE(x, 1) == [x % 256] by {
        assert NatToLE(x, 1) == [x % 256];
        assert Reversed([x % 256]) == [x % 256] by {
          assert [x % 256][1..] == [];
        }
      }
      buf[off + w - 1 - i] := x % 256;
      x := x / 256;
      ShrAdd(v, i, 1);
      assert buf[off + w - (i + 1)..off + w] == [buf[off + w - 1 - i]] + buf[off + w - i..off + w];
    }
  }

  lemma {:induction false} PrefixSplit<T>(a: seq<T>, j: nat, k: nat)
    requires j <= k <= |a|
    ensures a[..k] == a[..j] + a[j..k]
    ensures k == |a| ==> a == a[..j] + a[j..]
  {
  }

  lemma {:induction false} SuffixSplit<T>(a: seq<T>, i: nat, j: nat)
    requires i <= j <= |a|
    ensures a[i..] == a[i..j] + a[j..]
  {
  }

  lemma {:induction false} SliceSplit3<T>(a: seq<T>, i: nat, j: nat, k: nat, l: nat)
    requires i <= j <= k <= l <= |a|
    ensures a[i..l] == a[i..j] + a[j..k] + a[k..l]
  {
  }

  lemma {:induction false} PrefixSlices<T>(a: seq<T>, b: seq<T>, start: nat, off: nat)
    requires start <= off <= |a| && off <= |b| && a[..off] == b[..off]
    ensures a[..start] == b[..start] && a[start..off] == b[start..off]
  {
    assert a[..start] == a[..off][..start] && b[..start] == b[..off][..start];
    assert a[start..off] == a[..off][start..] && b[start..off] == b[..off][start..];
  }

  lemma {:induction false} SuffixSlices<T>(a: seq<T>, b: seq<T>, rem: nat, end: nat)
    requires rem <= end <= |a| == |b| && a[rem..] == b[rem..]
    ensures a[rem..end] == b[rem..end] && a[end..] == b[end..]
  {
    assert a[rem..end] == a[rem..][..end - rem] && b[rem..end] == b[rem..][..end - rem];
    assert a[end..] == a[rem..][end - rem..] && b[end..] == b[rem..][end - rem..];
  }

  /** getUint8/16/32 and getBigUint64: the w bytes at off read in the chosen order. */
  function GetUint(buf: array<Byte>, off: nat, w: nat, littleEndian: bool): nat
    reads buf
    requires off + w <= buf.Length
  {
    if littleEndian then LE(buf[off..off + w]) else BE(buf[off..off + w])
  }

  // ---------------------------------------------------------------------
  // The codec
  // ---------------------------------------------------------------------

  /** toBytesLE: the magnitude of n, as EncodeLE describes, in a fresh buffer. */
  method ToBytesLE(n: int) returns (buf: array<Byte>)
    ensures fresh(buf)
    ensures buf[..] == EncodeLE(if n < 0 then -n else n)
  {
    var m: nat := if n < 0 then -n else n;
    var len := (|NatToHex(m)| + 1) / 2;
    assert len == ByteLength(m);
    buf := new Byte[len];
    var x, offset := ToBytesLEWords(buf, m);
    TopChunkBound(m);
    var remaining := len % 8;
    assert EncodeLE(m) == buf[..offset] + TailLE(x, remaining, false);
    ToBytesLETail(buf, offset, x, remaining);
    PrefixSplit(buf[..], offset, len);
  }

  /** The whole 8-byte words of toBytesLE, from the low end up. */
  method ToBytesLEWords(buf: array<Byte>, m: nat) returns (x: nat, offset: nat)
    modifies buf
    ensures offset == 8 * (buf.Length / 8) && x == Shr(m, offset)
    ensures buf[..offset] == NatToLE(m, offset)
  {
    var len := buf.Length;
    x, offset := m, 0;
    ghost var words := 0;
    while offset < len - 7
      invariant offset == 8 * words && words <= len / 8
      invariant x == Shr(m, offset)
      invariant buf[..offset] == NatToLE(m, offset)
      decreases len - offset
    {
      SetUint(buf, offset, 8, x, true);
      PrefixSplit(buf[..], offset, offset + 8);
      NatToLESplit(m, offset, 8);
      ShrAdd(m, offset, 8);
      ShrDiv(x, 8);
      Pow256Small();
      offset := offset + 8;
      words := words + 1;
      x := x / 0x1_0000_0000_0000_0000;
    }
  }

  /** The partial chunks of toBytesLE: 4, 2 and 1 bytes as the remaining count requires. */
  method ToBytesLETail(buf: array<Byte>, offset: nat, t: nat, remaining: nat)
    requires remaining < 8 && offset + remaining == buf.Length && t < TWO_56
    modifies buf
    ensures buf[..offset] == old(buf[..offset])
    ensures buf[offset..] == TailLE(t, remaining, false)
  {
    var off1, n1, rem1 := TailStepLE(buf, offset, t, remaining, 4);
    ghost var b1 := buf[..];
    var off2, n2, rem2 := TailStepLE(buf, off1, n1, rem1, 2);
    ghost var b2 := buf[..];
    var off3, n3, rem3 := TailStepLE(buf, off2, n2, rem2, 1);
    ghost var s := buf[..];
    PrefixSlices(s, b2, offset, off2);
    PrefixSlices(b2, b1, offset, off1);
    PrefixSlices(s, b2, off1, off2);
    SliceSplit3(s, offset, off1, off2, off3);
    assert off3 == |s| && s[offset..] == s[offset..off3];
  }

  /** One `if (remaining > w - 1)` block of toBytesLE. */
  method TailStepLE(buf: array<Byte>, off: nat, n: nat, rem: nat, w: nat)
    returns (off': nat, n': nat, rem': nat)
    requires (w == 1 || w == 2 || w == 4) && n < TWO_56 && off + rem <= buf.Length
    modifies buf
    ensures off' == off + |ChunkLE(n, rem, w, false)| && n' == NextValue(n, rem, w) && rem' == NextCount(rem, w)
    ensures buf[off..off'] == ChunkLE(n, rem, w, false)
    ensures buf[..off] == old(buf[..off]) && buf[off'..] == old(buf[off'..])
  {
    off', n', rem' := off, n, rem;
    if rem > w - 1 {
      SetUint(buf, off, w, ChunkMask(NumberOf(n), w), true);
      off' := off + w;
      rem' := rem - w;
      n' := ChunkShift(n, w);
    }
  }

  /** toBytesBE: the magnitude of n, as EncodeBE describes, in a fresh buffer. */
  method ToBytesBE(n: int) returns (buf: array<Byte>)
    ensures fresh(buf)
    ensures buf[..] == EncodeBE(if n < 0 then -n else n)
  {
    var m: nat := if n < 0 then -n else n;
    var len := (|NatToHex(m)| + 1) / 2;
    assert len == ByteLength(m);
    buf := new Byte[len];
    var x, remaining := ToBytesBEWords(buf, m);
    TopChunkBound(m);
    assert EncodeBE(m) == TailBE(x, remaining, false) + buf[remaining..];
    ToBytesBETail(buf, x, remaining);
    PrefixSplit(buf[..], remaining, len);
  }

  /** The whole 8-byte words of toBytesBE, from the end of the buffer down. */
  method ToBytesBEWords(buf: array<Byte>, m: nat) returns (x: nat, remaining: nat)
    modifies buf
    ensures remaining == buf.Length % 8 && x == Shr(m, 8 * (buf.Length / 8))
    ensures buf[remaining..] == NatToBE(m, 8 * (buf.Length / 8))
  {
    var len := buf.Length;
    x, remaining := m, len;
    ghost var words := 0;
    while remaining > 7
      invariant remaining == len - 8 * words && words <= len / 8
      invariant x == Shr(m, 8 * words)
      invariant buf[remaining..] == NatToBE(m, 8 * words)
    {
      remaining := remaining - 8;
      SetUint(buf, remaining, 8, x, false);
      SuffixSplit(buf[..], remaining, remaining + 8);
      NatToBESplit(m, 8 * words, 8);
      ShrAdd(m, 8 * words, 8);
      ShrDiv(x, 8);
      Pow256Small();
      words := words + 1;
      x := x / 0x1_0000_0000_0000_0000;
    }
  }

  /** The partial chunks of toBytesBE, written downwards from the remaining count. */
  method ToBytesBETail(buf: array<Byte>, t: nat, remaining: nat)
    requires remaining < 8 && remaining <= buf.Length && t < TWO_56
    modifies buf
    ensures buf[remaining..] == old(buf[remaining..])
    ensures buf[..remaining] == TailBE(t, remaining, false)
  {
    var n1, rem1 := TailStepBE(buf, t, remaining, 4);
    ghost var b1 := buf[..];
    var n2, rem2 := TailStepBE(buf, n1, rem1, 2);
    ghost var b2 := buf[..];
    var n3, rem3 := TailStepBE(buf, n2, rem2, 1);
    ghost var s := buf[..];
    SuffixSlices(s, b2, rem2, remaining);
    SuffixSlices(b2, b1, rem1, remaining);
    SuffixSlices(s, b2, rem1, remaining);
    SliceSplit3(s, rem3, rem2, rem1, remaining);
    assert rem3 == 0;
  }

  /**
    One `if (remaining > w - 1)` block of toBytesBE: the count drops by w
    and the chunk goes just below it; the last byte is written at index 0,
    where the count then points.
  */
  method TailStepBE(buf: array<Byte>, n: nat, rem: nat, w: nat) returns (n': nat, rem': nat)
    requires (w == 1 || w == 2 || w == 4) && rem < 2 * w && n < TWO_56 && rem <= buf.Length
    modifies buf
    ensures n' == NextValue(n, rem, w) && rem' == NextCount(rem, w)
    ensures buf[rem'..rem] == ChunkBE(n, rem, w, false)
    ensures buf[..rem'] == old(buf[..rem']) && buf[rem..] == old(buf[rem..])
  {
    n', rem' := n, rem;
    if rem > w - 1 {
      rem' := rem - w;
      var at := if w == 1 then 0 else rem';
      SetUint(buf, at, w, ChunkMask(NumberOf(n), w), false);
      n' := ChunkShift(n, w);
    }
  }

  /**
    fromBytesLE: the little-endian value of the bytes, read from the top
    down; n << k | chunk is n * 2^k + chunk because the chunk has k bits.
  */
  method FromBytesLE(buf: array<Byte>) returns (n: nat)
    ensures n == LE(buf[..])
  {
    n := 0;
    var remaining := buf.Length;
    Pow256Small();
    while remaining > 7
      invariant 0 <= remaining <= buf.Length
      invariant n == LE(buf[remaining..])
    {
      remaining := remaining - 8;
      ReadStepLE(buf, remaining, 8);
      n := n * 0x1_0000_0000_0000_0000 + GetUint(buf, remaining, 8, true);
    }
    var rem1, n1 := ReadChunkLE(buf, remaining, n, 4);
    var rem2, n2 := ReadChunkLE(buf, rem1, n1, 2);
    var rem3, n3 := ReadChunkLE(buf, rem2, n2, 1);
    assert rem3 == 0 && buf[rem3..] == buf[..];
    n := n3;
  }

  /** One `if (remaining > w - 1)` block of fromBytesLE. */
  method ReadChunkLE(buf: array<Byte>, remaining: nat, n: nat, w: nat) returns (rem': nat, n': nat)
    requires (w == 1 || w == 2 || w == 4) && remaining < 2 * w && remaining <= buf.Length
    requires n == LE(buf[remaining..])
    ensures rem' == NextCount(remaining, w) && n' == LE(buf[rem'..])
  {
    rem', n' := remaining, n;
    if remaining > w - 1 {
      rem' := remaining - w;
      ReadStepLE(buf, rem', w);
      Pow256Small();
      var at := if w == 1 then 0 else rem';
      n' := n * Pow256(w) + GetUint(buf, at, w, true);
    }
  }

  /** One step of fromBytesLE: prepending the w bytes at off to what was read above them. */
  lemma {:induction false} ReadStepLE(buf: array<Byte>, off: nat, w: nat)
    requires off + w <= buf.Length
    ensures LE(buf[off..]) == GetUint(buf, off, w, true) + Pow256(w) * LE(buf[off + w..])
  {
    var s := buf[..];
    SuffixSplit(s, off, off + w);
    LEAppend(s[off..off + w], s[off + w..]);
  }

  /** fromBytesBE: the big-endian value of the bytes, read from the front. */
  method FromBytesBE(buf: array<Byte>) returns (n: nat)
    ensures n == BE(buf[..])
  {
    var len := buf.Length;
    n := 0;
    var offset := 0;
    Pow256Small();
    ghost var words := 0;
    while offset < len - 7
      invariant offset == 8 * words && words <= len / 8
      invariant n == BE(buf[..offset])
    {
      ReadStepBE(buf, offset, 8);
      n := n * 0x1_0000_0000_0000_0000 + GetUint(buf, offset, 8, false);
      offset := offset + 8;
      words := words + 1;
    }
    var remaining := len % 8;
    var off1, rem1, n1 := ReadChunkBE(buf, offset, remaining, n, 4);
    var off2, rem2, n2 := ReadChunkBE(buf, off1, rem1, n1, 2);
    var off3, rem3, n3 := ReadChunkBE(buf, off2, rem2, n2, 1);
    assert off3 == len && buf[..off3] == buf[..];
    n := n3;
  }

  /** One `if (remaining > w - 1)` block of fromBytesBE. */
  method ReadChunkBE(buf: array<Byte>, offset: nat, remaining: nat, n: nat, w: nat)
    returns (off': nat, rem': nat, n': nat)
    requires (w == 1 || w == 2 || w == 4) && remaining < 2 * w && offset + remaining == buf.Length
    requires n == BE(buf[..offset])
    ensures off' + rem' == buf.Length && rem' == NextCount(remaining, w) && n' == BE(buf[..off'])
  {
    off', rem', n' := offset, remaining, n;
    if remaining > w - 1 {
      ReadStepBE(buf, offset, w);
      Pow256Small();
      n' := n * Pow256(w) + GetUint(buf, offset, w, false);
      off' := offset + w;
      rem' := remaining - w;
    }
  }

  /** One step of fromBytesBE: appending the w bytes at off to what was read before them. */
  lemma {:induction false} ReadStepBE(buf: array<Byte>, off: nat, w: nat)
    requires off + w <= buf.Length
    ensures BE(buf[..off + w]) == BE(buf[..off]) * Pow256(w) + GetUint(buf, off, w, false)
  {
    var s := buf[..];
    PrefixSplit(s, off, off + w);
    BEAppend(s[..off], s[off..off + w]);
  }
}
