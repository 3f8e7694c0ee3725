/**
  Byte-order primitives of src/node/native/utils.h: counting the most
  significant zero bytes of a 64-bit word (clzb, one definition per
  compiler branch) and reversing a byte range in place (revswap, reverse).
*/
module Utils {
  import opened Bytes

  // ---------------------------------------------------------------------
  // Bit lengths
  // ---------------------------------------------------------------------

  /** Number of bits needed to write n (0 for n == 0). */
  function BitLength(n: nat): nat
  {
    if n == 0 then 0 else 1 + BitLength(n / 2)
  }

  /** n shifted right by k bits. */
  function ShrBits(n: nat, k: nat): nat
  {
    if k == 0 then n else ShrBits(n / 2, k - 1)
  }

  lemma {:induction false} ShrBitsAdd(n: nat, a: nat, b: nat)
    ensures ShrBits(n, a + b) == ShrBits(ShrBits(n, a), b)
  {
    if a > 0 {
      ShrBitsAdd(n / 2, a - 1, b);
    }
  }

  lemma {:induction false} ShrBitsOfZero(k: nat)
    ensures ShrBits(0, k) == 0
  {
    if k > 0 {
      ShrBitsOfZero(k - 1);
    }
  }

  lemma {:induction false} ShrBitsZeroMonotone(n: nat, a: nat, b: nat)
    requires ShrBits(n, a) == 0 && a <= b
    ensures ShrBits(n, b) == 0
  {
    ShrBitsAdd(n, a, b - a);
    ShrBitsOfZero(b - a);
  }

  lemma {:induction false} ShrBitsByte(n: nat)
    ensures ShrBits(n, 8) == n / 256
  {
    var n1, n2, n3, n4 := n / 2, n / 4, n / 8, n / 16;
    assert n / 2 / 2 == n2 && n2 / 2 == n3 && n3 / 2 == n4;
    assert n4 / 2 == n / 32 && n / 32 / 2 == n / 64 && n / 64 / 2 == n / 128 && n / 128 / 2 == n / 256;
    calc {
      ShrBits(n, 8);
      ShrBits(n1, 7);
      ShrBits(n2, 6);
      ShrBits(n3, 5);
      ShrBits(n4, 4);
      ShrBits(n / 32, 3);
      ShrBits(n / 64, 2);
      ShrBits(n / 128, 1);
      ShrBits(n / 256, 0);
    }
  }

  /** Shifting by k bytes is shifting by 8k bits. */
  lemma {:induction false} ShrAsBits(n: nat, k: nat)
    ensures Shr(n, k) == ShrBits(n, 8 * k)
  {
    if k > 0 {
      ShrAsBits(n / 256, k - 1);
      ShrBitsByte(n);
      ShrBitsAdd(n, 8, 8 * (k - 1));
    }
  }

  lemma {:induction false} BitLengthShr(n: nat)
    ensures ShrBits(n, BitLength(n)) == 0
    ensures n > 0 ==> ShrBits(n, BitLength(n) - 1) > 0
  {
    if n > 0 {
      BitLengthShr(n / 2);
    }
  }

  /** The bit length lies in the last of the significant bytes: 8(s-1) < BitLength(n) <= 8s. */
  lemma {:induction false} BitLengthInBytes(n: nat)
    ensures BitLength(n) <= 8 * SignificantBytes(n)
    ensures n > 0 ==> 8 * (SignificantBytes(n) - 1) < BitLength(n)
  {
    var s, b := SignificantBytes(n), BitLength(n);
    SignificantBytesShr(n);
    BitLengthShr(n);
    ShrAsBits(n, s);
    if b > 8 * s {
      ShrBitsZeroMonotone(n, 8 * s, b - 1);
    }
    if n > 0 {
      ShrAsBits(n, s - 1);
      if b <= 8 * (s - 1) {
        ShrBitsZeroMonotone(n, b, 8 * (s - 1));
      }
    }
  }

  /** With b bits in s significant bytes, (8c - b) / 8 counts c - s whole zero bytes. */
  lemma {:induction false} ZeroBytesOfBits(c: int, b: int, s: int)
    requires 8 * (s - 1) < b <= 8 * s
    ensures (8 * c - b) / 8 == c - s
  {
    DivModUnique(8 * c - b, 8, c - s, 8 * s - b);
  }

  lemma {:induction false} BitLengthWord(n: Word)
    ensures BitLength(n) <= 64
  {
    BitLengthInBytes(n);
    SignificantBytesWord(n);
  }

  /** Bytes shifted out below a nonzero part add to the significant length. */
  lemma {:induction false} SignificantBytesOfShr(n: nat, k: nat)
    requires Shr(n, k) > 0
    ensures SignificantBytes(n) == k + SignificantBytes(Shr(n, k))
  {
    if k > 0 {
      if n / 256 == 0 {
        ShrOfZero(k - 1);
        assert false;
      }
      SignificantBytesOfShr(n / 256, k - 1);
    }
  }

  // ---------------------------------------------------------------------
  // clzb: leading zero bytes of a 64-bit word
  // ---------------------------------------------------------------------

  /** The specification: the number of most significant zero bytes of n. */
  function LeadingZeroBytes(n: Word): (r: nat)
    ensures r <= 8
    ensures n != 0 ==> r <= 7 && Pow256(7 - r) <= n < Pow256(8 - r)
  {
    SignificantBytesWord(n);
    SignificantBytesBounds(n);
    8 - SignificantBytes(n)
  }

  /** Leading zero bits of n as a 64-bit word (Rust's u64::leading_zeros; 64 for n == 0). */
  function LeadingZeroBits(n: Word): (r: nat)
    ensures r <= 64
  {
    BitLengthWord(n);
    64 - BitLength(n)
  }

  /** Index of the highest set bit, as _BitScanReverse / _BitScanReverse64 report it. */
  function BitScanReverse(n: nat): (index: nat)
    requires n != 0
    ensures ShrBits(n, index) == 1
  {
    BitLengthShr(n);
    ShrBitsAdd(n, BitLength(n) - 1, 1);
    BitLength(n) - 1
  }

  /** GCC / Clang branch: __builtin_clzl or __builtin_clzll divided by 8; undefined for 0. */
  function ClzbBuiltin(n: Word): (r: nat)
    requires n != 0
    ensures r == LeadingZeroBytes(n)
  {
    BitLengthInBytes(n);
    SignificantBytesWord(n);
    ZeroBytesOfBits(8, BitLength(n), SignificantBytes(n));
    LeadingZeroBits(n) / 8
  }

  /** MSVC branch with _BitScanReverse64: (63 - index) / 8; undefined for 0. */
  function ClzbBitScan64(n: Word): (r: nat)
    requires n != 0
    ensures r == LeadingZeroBytes(n)
  {
    BitLengthInBytes(n);
    SignificantBytesWord(n);
    ZeroBytesOfBits(8, BitLength(n), SignificantBytes(n));
    (63 - BitScanReverse(n)) / 8
  }

  /**
    MSVC branch with only the 32-bit _BitScanReverse, as written: for a nonzero
    high half it returns (95 - index) / 8, eight more than the true count.
  */
  function ClzbBitScan32(n: Word): (r: nat)
    requires n != 0
    ensures n < 0x1_0000_0000 ==> r == LeadingZeroBytes(n)
    ensures n >= 0x1_0000_0000 ==> r == LeadingZeroBytes(n) + 8
  {
    var high := Shr(n, 4);
    HighHalf(n);
    if high != 0 then
      (95 - BitScanReverse(high)) / 8
    else
      (63 - BitScanReverse(n)) / 8
  }

  /** The same branch with the high-half case counting from bit 31, as intended. */
  function ClzbBitScan32Corrected(n: Word): (r: nat)
    requires n != 0
    ensures r == LeadingZeroBytes(n)
  {
    var high := Shr(n, 4);
    HighHalf(n);
    if high != 0 then
      (31 - BitScanReverse(high)) / 8
    else
      (63 - BitScanReverse(n)) / 8
  }

  /** What the high-half branch needs: the high half's bit length and the word's significant bytes. */
  lemma {:induction false} HighHalf(n: Word)
    requires n != 0
    ensures Shr(n, 4) < 0x1_0000_0000
    ensures Shr(n, 4) != 0 <==> n >= 0x1_0000_0000
    ensures Shr(n, 4) != 0 ==> 8 * (SignificantBytes(n) - 5) < BitLength(Shr(n, 4)) <= 8 * (SignificantBytes(n) - 4)
    ensures Shr(n, 4) != 0 ==> (95 - (BitLength(Shr(n, 4)) - 1)) / 8 == LeadingZeroBytes(n) + 8
    ensures Shr(n, 4) != 0 ==> (31 - (BitLength(Shr(n, 4)) - 1)) / 8 == LeadingZeroBytes(n)
    ensures Shr(n, 4) == 0 ==> (63 - (BitLength(n) - 1)) / 8 == LeadingZeroBytes(n)
  {
    var high := Shr(n, 4);
    Pow256Word();
    assert Pow256(4) == 0x1_0000_0000;
    ShrZero(n, 4);
    ShrBound(n, 4, 4);
    SignificantBytesWord(n);
    if high != 0 {
      SignificantBytesOfShr(n, 4);
      BitLengthInBytes(high);
      ZeroBytesOfBits(12, BitLength(high), SignificantBytes(high));
      ZeroBytesOfBits(4, BitLength(high), SignificantBytes(high));
    } else {
      BitLengthInBytes(n);
      ZeroBytesOfBits(8, BitLength(n), SignificantBytes(n));
    }
  }

  /** The portable branch: a byte-wise binary search; total, with 7 for n == 0. */
  function ClzbPortable(n: Word): (r: nat)
    ensures r <= 7
    ensures n == 0 ==> r == 7
    ensures n != 0 ==> r == LeadingZeroBytes(n)
  {
    PortableCases(n);
    var a := Shr(n, 4);
    if a != 0 then
      var b := Shr(a, 2);
      if b != 0 then
        (if Shr(b, 1) != 0 then 0 else 1)
      else
        (if Shr(a, 1) != 0 then 2 else 3)
    else
      var a' := Shr(n, 2);
      if a' != 0 then
        (if Shr(a', 1) != 0 then 4 else 5)
      else
        (if Shr(n, 1) != 0 then 6 else 7)
  }

  /** Each leaf of the portable search pins the significant length between two shifts. */
  lemma {:induction false} PortableCases(n: Word)
    ensures Shr(Shr(n, 4), 2) == Shr(n, 6) && Shr(Shr(Shr(n, 4), 2), 1) == Shr(n, 7)
    ensures Shr(Shr(n, 4), 1) == Shr(n, 5) && Shr(Shr(n, 2), 1) == Shr(n, 3)
    ensures Shr(n, 8) == 0 && Shr(n, 0) == n
    ensures n != 0 ==> forall k: nat :: k < 8 && Shr(n, k + 1) == 0 && Shr(n, k) > 0 ==> LeadingZeroBytes(n) == 7 - k
  {
    ShrAdd(n, 4, 2);
    ShrAdd(n, 6, 1);
    ShrAdd(n, 4, 1);
    ShrAdd(n, 2, 1);
    Pow256Word();
    ShrZero(n, 8);
    if n != 0 {
      forall k: nat | k < 8 && Shr(n, k + 1) == 0 && Shr(n, k) > 0
        ensures LeadingZeroBytes(n) == 7 - k
      {
        SignificantBytesUnique(n, k + 1);
      }
    }
  }

  /** For n != 0 every compiler branch agrees; only the portable one is defined at 0. */
  lemma {:induction false} ClzbBranchesAgree(n: Word)
    requires n != 0
    ensures ClzbBuiltin(n) == ClzbBitScan64(n) == ClzbBitScan32Corrected(n) == ClzbPortable(n)
    ensures ClzbPortable(n) == LeadingZeroBits(n) / 8
  {
  }

  /** u64::leading_zeros(0) / 8 is 8, one more than the portable clzb(0). */
  lemma {:induction false} ClzbOfZero()
    ensures LeadingZeroBits(0) / 8 == 8 && ClzbPortable(0) == 7
  {
  }

  /** The 32-bit scan as written is off by eight bytes on 2^32. */
  lemma {:induction false} ClzbBitScan32Counterexample()
    ensures ClzbBitScan32(0x1_0000_0000) == 11
    ensures LeadingZeroBytes(0x1_0000_0000) == 3
  {
    SignificantBytesUnique(0x1_0000_0000, 5);
  }

  // ---------------------------------------------------------------------
  // revswap / reverse
  // ---------------------------------------------------------------------

  /**
    revswap(a, b, n): a[i] gets the old b[n-1-i] and b[n-1-i] the old a[i].
    Both ranges live in one buffer, at byte offsets a and b, and do not overlap
    (the restrict qualifiers).
  */
  method Revswap(data: array<Byte>, a: nat, b: nat, n: nat)
    requires a + n <= data.Length && b + n <= data.Length
    requires a + n <= b || b + n <= a
    modifies data
    ensures forall k {:trigger data[k]} :: 0 <= k < data.Length ==>
      data[k] == if a <= k < a + n || b <= k < b + n then old(data[a + b + n - 1 - k]) else old(data[k])
  {
    ghost var before := data[..];
    for i := 0 to n
      invariant forall k {:trigger data[k]} :: 0 <= k < data.Length ==>
        data[k] == if a <= k < a + i || b + n - i <= k < b + n then before[a + b + n - 1 - k] else before[k]
    {
      var x := data[a + i];
      var y := data[b + n - 1 - i];
      assert x == before[a + i] && y == before[b + n - 1 - i];
      data[a + i] := y;
      data[b + n - 1 - i] := x;
    }
    assert before == old(data[..]);
  }

  /** reverse(data + off, len): the len bytes at off are reversed; nothing else changes. */
  method Reverse(data: array<Byte>, off: nat, len: nat)
    requires off + len <= data.Length
    modifies data
    ensures data[off..off + len] == Reversed(old(data[off..off + len]))
    ensures data[..off] == old(data[..off]) && data[off + len..] == old(data[off + len..])
  {
    ghost var before := data[..];
    var half := len / 2;
    Revswap(data, off, off + len - half, half);
    ghost var seg := before[off..off + len];
    ghost var after := before[..off] + Reversed(seg) + before[off + len..];
    forall k | 0 <= k < data.Length
      ensures data[k] == after[k]
    {
      if off <= k < off + len {
        ReversedAt(seg, k - off);
      }
    }
    assert data[..] == after;
    assert data[off..off + len] == after[off..off + len];
  }
}
