/**
  The meaning every implementation of the codec is stated against: bytes,
  64-bit words, the little- and big-endian value of a byte sequence, the
  minimal encoding of a magnitude, and the little-endian byte image of a
  word sequence (word 0 least significant, as the host hands words over).
*/
module Bytes {

  type Byte = x: int | 0 <= x < 256
  type Word = x: int | 0 <= x < 0x1_0000_0000_0000_0000

  function Pow256(k: nat): (p: nat)
    ensures p >= 1
  {
    if k == 0 then 1 else 256 * Pow256(k - 1)
  }

  // ---------------------------------------------------------------------
  // Arithmetic facts
  // ---------------------------------------------------------------------

  lemma {:induction false} MulLe(a: int, b: int, c: nat)
    requires a <= b
    ensures a * c <= b * c
  {
  }

  /** Multiplying out one digit step: c (a + p l) = c a + (c p) l. */
  lemma {:induction false} MulDistrib(c: int, a: int, p: int, l: int)
    ensures c * (a + p * l) == c * a + (c * p) * l
  {
  }

  lemma {:induction false} DivModUnique(x: int, d: int, q: int, r: int)
    requires d > 0 && 0 <= r < d && x == q * d + r
    ensures x / d == q && x % d == r
  {
    var q', r' := x / d, x % d;
    if q > q' {
      MulLe(q' + 1, q, d);
      assert false;
    } else if q < q' {
      MulLe(q + 1, q', d);
      assert false;
    }
  }

  lemma {:induction false} Pow256Add(a: nat, b: nat)
    ensures Pow256(a + b) == Pow256(a) * Pow256(b)
  {
    if a > 0 {
      Pow256Add(a - 1, b);
    }
  }

  lemma {:induction false} Pow256Word()
    ensures Pow256(8) == 0x1_0000_0000_0000_0000
  {
    assert Pow256(2) == 0x1_0000;
    assert Pow256(4) == 0x1_0000_0000;
    assert Pow256(6) == 0x1_0000_0000_0000;
  }

  /** x shifted right by k whole bytes (x >> 8k). */
  function Shr(x: nat, k: nat): nat
  {
    if k == 0 then x else Shr(x / 256, k - 1)
  }

  lemma {:induction false} ShrAdd(x: nat, a: nat, b: nat)
    ensures Shr(x, a + b) == Shr(Shr(x, a), b)
  {
    if a > 0 {
      ShrAdd(x / 256, a - 1, b);
    }
  }

  lemma {:induction false} ShrOfZero(k: nat)
    ensures Shr(0, k) == 0
  {
    if k > 0 {
      ShrOfZero(k - 1);
    }
  }

  /** Once shifting leaves nothing, shifting further leaves nothing. */
  lemma {:induction false} ShrZeroMonotone(x: nat, a: nat, b: nat)
    requires Shr(x, a) == 0 && a <= b
    ensures Shr(x, b) == 0
  {
    ShrAdd(x, a, b - a);
    ShrOfZero(b - a);
  }

  // ---------------------------------------------------------------------
  // Sequences of bytes
  // ---------------------------------------------------------------------

  function Reversed<T>(s: seq<T>): (r: seq<T>)
    ensures |r| == |s|
  {
    if |s| == 0 then [] else Reversed(s[1..]) + [s[0]]
  }

  lemma {:induction false} ReversedAt<T>(s: seq<T>, k: nat)
    requires k < |s|
    ensures Reversed(s)[k] == s[|s| - 1 - k]
  {
    if k < |s| - 1 {
      ReversedAt(s[1..], k);
    }
  }

  lemma {:induction false} ReversedAppend<T>(a: seq<T>, b: seq<T>)
    ensures Reversed(a + b) == Reversed(b) + Reversed(a)
  {
    if |a| == 0 {
      assert a + b == b;
    } else {
      assert (a + b)[1..] == a[1..] + b;
      ReversedAppend(a[1..], b);
    }
  }

  lemma {:induction false} ReversedReversed<T>(s: seq<T>)
    ensures Reversed(Reversed(s)) == s
  {
    if |s| > 0 {
      ReversedAppend(Reversed(s[1..]), [s[0]]);
      ReversedReversed(s[1..]);
      assert s == [s[0]] + s[1..];
    }
  }

  function Zeros(k: nat): (z: seq<Byte>)
    ensures |z| == k
    ensures forall i :: 0 <= i < k ==> z[i] == 0
  {
    seq(k, _ => 0)
  }

  lemma {:induction false} ReversedZeros(k: nat)
    ensures Reversed(Zeros(k)) == Zeros(k)
  {
    forall i | 0 <= i < k
      ensures Reversed(Zeros(k))[i] == 0
    {
      ReversedAt(Zeros(k), i);
    }
  }

  /** Little-endian value: sum of s[i] * 256^i. */
  function LE(s: seq<Byte>): nat
  {
    if |s| == 0 then 0 else s[0] + 256 * LE(s[1..])
  }

  /** Big-endian value: sum of s[i] * 256^(|s|-1-i). */
  function BE(s: seq<Byte>): nat
  {
    if |s| == 0 then 0 else 256 * BE(s[..|s| - 1]) + s[|s| - 1]
  }

  lemma {:induction false} LEBound(s: seq<Byte>)
    ensures LE(s) < Pow256(|s|)
  {
    if |s| > 0 {
      LEBound(s[1..]);
    }
  }

  lemma {:induction false} LEAppend(s: seq<Byte>, t: seq<Byte>)
    ensures LE(s + t) == LE(s) + Pow256(|s|) * LE(t)
  {
    if |s| == 0 {
      assert s + t == t;
    } else {
      var u, s' := s + t, s[1..];
      assert u[1..] == s' + t && u[0] == s[0];
      assert LE(u) == s[0] + 256 * LE(s' + t);
      assert LE(s) == s[0] + 256 * LE(s');
      LEAppend(s', t);
      MulDistrib(256, LE(s'), Pow256(|s'|), LE(t));
    }
  }

  lemma {:induction false} BEAppend(s: seq<Byte>, t: seq<Byte>)
    ensures BE(s + t) == BE(s) * Pow256(|t|) + BE(t)
  {
    if |t| == 0 {
      assert s + t == s;
    } else {
      var u, t', last := s + t, t[..|t| - 1], t[|t| - 1];
      assert u[..|u| - 1] == s + t' && u[|u| - 1] == last;
      assert BE(u) == 256 * BE(s + t') + last;
      assert BE(t) == 256 * BE(t') + last;
      BEAppend(s, t');
      BEStep(BE(s), Pow256(|t'|), BE(t'), last);
    }
  }

  /** One digit step of BEAppend: 256 (b p + d) + e = b (256 p) + (256 d + e). */
  lemma {:induction false} BEStep(b: int, p: int, d: int, e: int)
    ensures 256 * (b * p + d) + e == b * (256 * p) + (256 * d + e)
  {
  }

  lemma {:induction false} LEZeros(s: seq<Byte>, k: nat)
    ensures LE(s + Zeros(k)) == LE(s)
  {
    LEAppend(s, Zeros(k));
    LEOfZeros(k);
  }

  lemma {:induction false} LEOfZeros(k: nat)
    ensures LE(Zeros(k)) == 0
  {
    if k > 0 {
      assert Zeros(k)[1..] == Zeros(k - 1);
      LEOfZeros(k - 1);
    }
  }

  /** Reading a sequence backwards turns its little-endian value into its big-endian value. */
  lemma {:induction false} LEReversed(s: seq<Byte>)
    ensures LE(Reversed(s)) == BE(s)
  {
    if |s| > 0 {
      var h, rest := s[0], s[1..];
      var r := Reversed(rest);
      assert Reversed(s) == r + [h];
      LEReversed(rest);
      LEAppend(r, [h]);
      assert LE([h]) == h by {
        assert [h][1..] == [];
      }
      assert s == [h] + rest;
      BEAppend([h], rest);
      assert BE([h]) == h by {
        assert [h][..0] == [];
      }
      MulComm(Pow256(|rest|), h);
    }
  }

  lemma {:induction false} MulComm(a: int, b: int)
    ensures a * b == b * a
  {
  }

  lemma {:induction false} BEReversed(s: seq<Byte>)
    ensures BE(Reversed(s)) == LE(s)
  {
    LEReversed(Reversed(s));
    ReversedReversed(s);
  }

  // ---------------------------------------------------------------------
  // Fixed-length encodings of a natural number
  // ---------------------------------------------------------------------

  /** The k low-order bytes of x, least significant first. */
  function NatToLE(x: nat, k: nat): (r: seq<Byte>)
    ensures |r| == k
  {
    if k == 0 then [] else [x % 256] + NatToLE(x / 256, k - 1)
  }

  /** The k low-order bytes of x, most significant first. */
  function NatToBE(x: nat, k: nat): (r: seq<Byte>)
    ensures |r| == k
  {
    Reversed(NatToLE(x, k))
  }

  lemma {:induction false} NatToLESplit(x: nat, a: nat, b: nat)
    ensures NatToLE(x, a + b) == NatToLE(x, a) + NatToLE(Shr(x, a), b)
  {
    if a > 0 {
      NatToLESplit(x / 256, a - 1, b);
    }
  }

  lemma {:induction false} NatToBESplit(x: nat, a: nat, b: nat)
    ensures NatToBE(x, a + b) == NatToBE(Shr(x, a), b) + NatToBE(x, a)
  {
    NatToLESplit(x, a, b);
    ReversedAppend(NatToLE(x, a), NatToLE(Shr(x, a), b));
  }

  /** x is its k low-order bytes plus 256^k times what lies above them. */
  lemma {:induction false} ShrDecompose(x: nat, k: nat)
    ensures x == LE(NatToLE(x, k)) + Pow256(k) * Shr(x, k)
  {
    if k > 0 {
      var y := x / 256;
      ShrDecompose(y, k - 1);
      assert NatToLE(x, k)[1..] == NatToLE(y, k - 1);
      assert LE(NatToLE(x, k)) == x % 256 + 256 * LE(NatToLE(y, k - 1));
      assert Shr(y, k - 1) == Shr(x, k);
      MulDistrib(256, LE(NatToLE(y, k - 1)), Pow256(k - 1), Shr(x, k));
    }
  }

  lemma {:induction false} ShrZero(x: nat, k: nat)
    ensures Shr(x, k) == 0 <==> x < Pow256(k)
  {
    ShrDecompose(x, k);
    LEBound(NatToLE(x, k));
    HighPartZero(x, LE(NatToLE(x, k)), Pow256(k), Shr(x, k));
  }

  /** With x = low + p * high and low < p, the high part is zero exactly when x < p. */
  lemma {:induction false} HighPartZero(x: int, low: int, p: int, high: int)
    requires x == low + p * high && 0 <= low < p && high >= 0
    ensures high == 0 <==> x < p
  {
    if high > 0 {
      MulLe(1, high, p);
      MulComm(p, high);
    }
  }

  /** A value below 256^(a+b) shifted right by a bytes is below 256^b. */
  lemma {:induction false} ShrBound(x: nat, a: nat, b: nat)
    requires x < Pow256(a + b)
    ensures Shr(x, a) < Pow256(b)
  {
    ShrZero(x, a + b);
    ShrAdd(x, a, b);
    ShrZero(Shr(x, a), b);
  }

  /** Shifting right by k bytes is dividing by 256^k. */
  lemma {:induction false} ShrDiv(x: nat, k: nat)
    ensures Shr(x, k) == x / Pow256(k)
  {
    ShrDecompose(x, k);
    LEBound(NatToLE(x, k));
    DivModUnique(x, Pow256(k), Shr(x, k), LE(NatToLE(x, k)));
  }

  lemma {:induction false} ShrLe(x: nat, k: nat)
    ensures Shr(x, k) <= x
  {
    if k > 0 {
      ShrLe(x / 256, k - 1);
    }
  }

  lemma {:induction false} Pow256Small()
    ensures Pow256(1) == 0x100 && Pow256(2) == 0x1_0000 && Pow256(3) == 0x100_0000
    ensures Pow256(4) == 0x1_0000_0000 && Pow256(6) == 0x1_0000_0000_0000 && Pow256(7) == 0x100_0000_0000_0000
    ensures Pow256(8) == 0x1_0000_0000_0000_0000
  {
    Pow256Word();
    assert Pow256(6) == 0x1_0000_0000_0000;
  }

  /** The k-byte encoding of x < 256^k denotes x. */
  lemma {:induction false} LENatToLE(x: nat, k: nat)
    requires x < Pow256(k)
    ensures LE(NatToLE(x, k)) == x
  {
    ShrDecompose(x, k);
    ShrZero(x, k);
  }

  lemma {:induction false} BENatToBE(x: nat, k: nat)
    requires x < Pow256(k)
    ensures BE(NatToBE(x, k)) == x
  {
    BEReversed(NatToLE(x, k));
    LENatToLE(x, k);
  }

  lemma {:induction false} NatToLEOfLE(s: seq<Byte>)
    ensures NatToLE(LE(s), |s|) == s
  {
    if |s| > 0 {
      DivModUnique(LE(s), 256, LE(s[1..]), s[0]);
      NatToLEOfLE(s[1..]);
    }
  }

  lemma {:induction false} NatToBEOfBE(s: seq<Byte>)
    ensures NatToBE(BE(s), |s|) == s
  {
    LEReversed(s);
    NatToLEOfLE(Reversed(s));
    ReversedReversed(s);
  }

  /** Adding a multiple of 256^k does not change the k low-order bytes. */
  lemma {:induction false} NatToLEAddMul(r: nat, q: nat, k: nat)
    ensures NatToLE(r + Pow256(k) * q, k) == NatToLE(r, k)
  {
    if k > 0 {
      var m := Pow256(k - 1) * q;
      assert Pow256(k) * q == 256 * m;
      DivModUnique(r + 256 * m, 256, r / 256 + m, r % 256);
      NatToLEAddMul(r / 256, q, k - 1);
    }
  }

  lemma {:induction false} NatToLEZero(k: nat)
    ensures NatToLE(0, k) == Zeros(k)
  {
    if k > 0 {
      NatToLEZero(k - 1);
      assert [0] + Zeros(k - 1) == Zeros(k);
    }
  }

  // ---------------------------------------------------------------------
  // Minimal length of a magnitude
  // ---------------------------------------------------------------------

  /** The number of bytes needed to write x with no high zero byte (0 for x == 0). */
  function SignificantBytes(x: nat): nat
  {
    if x == 0 then 0 else 1 + SignificantBytes(x / 256)
  }

  lemma {:induction false} SignificantBytesShr(x: nat)
    ensures Shr(x, SignificantBytes(x)) == 0
    ensures x > 0 ==> Shr(x, SignificantBytes(x) - 1) > 0
  {
    if x > 0 {
      SignificantBytesShr(x / 256);
    }
  }

  lemma {:induction false} SignificantBytesUnique(x: nat, s: nat)
    requires Shr(x, s) == 0
    requires s > 0 ==> Shr(x, s - 1) > 0
    ensures SignificantBytes(x) == s
  {
    SignificantBytesShr(x);
    var m := SignificantBytes(x);
    if m < s {
      ShrZeroMonotone(x, m, s - 1);
    } else if m > s {
      ShrZeroMonotone(x, s, m - 1);
    }
  }

  /** x needs exactly s bytes when 256^(s-1) <= x < 256^s. */
  lemma {:induction false} SignificantBytesBounds(x: nat)
    ensures x < Pow256(SignificantBytes(x))
    ensures x > 0 ==> Pow256(SignificantBytes(x) - 1) <= x
  {
    SignificantBytesShr(x);
    ShrZero(x, SignificantBytes(x));
    if x > 0 {
      ShrZero(x, SignificantBytes(x) - 1);
    }
  }

  lemma {:induction false} SignificantBytesWord(w: Word)
    ensures SignificantBytes(w) <= 8
  {
    Pow256Word();
    ShrZero(w, 8);
    if SignificantBytes(w) > 8 {
      SignificantBytesShr(w);
      ShrZeroMonotone(w, 8, SignificantBytes(w) - 1);
    }
  }

  /** Shifting a + 256^k * b right by k bytes leaves b when a < 256^k. */
  lemma {:induction false} ShrAddMul(a: nat, k: nat, b: nat)
    requires a < Pow256(k)
    ensures Shr(a + Pow256(k) * b, k) == b
  {
    if k > 0 {
      var m := Pow256(k - 1) * b;
      assert Pow256(k) * b == 256 * m;
      DivModUnique(a + 256 * m, 256, a / 256 + m, a % 256);
      ShrZero(a, k);
      assert Shr(a / 256, k - 1) == 0;
      ShrZero(a / 256, k - 1);
      ShrAddMul(a / 256, k - 1, b);
    }
  }

  /** Putting b above k bytes of a lower part adds k to b's significant length. */
  lemma {:induction false} SignificantBytesShift(a: nat, k: nat, b: nat)
    requires a < Pow256(k) && b > 0
    ensures SignificantBytes(a + Pow256(k) * b) == k + SignificantBytes(b)
  {
    var v, m := a + Pow256(k) * b, SignificantBytes(b);
    ShrAddMul(a, k, b);
    SignificantBytesShr(b);
    ShrAdd(v, k, m);
    ShrAdd(v, k, m - 1);
    SignificantBytesUnique(v, k + m);
  }

  /** The minimal little-endian encoding of x. */
  function MinimalLE(x: nat): (r: seq<Byte>)
    ensures LE(r) == x
    ensures |r| == 0 || r[|r| - 1] != 0
  {
    MinimalLEFacts(x);
    NatToLE(x, SignificantBytes(x))
  }

  lemma {:induction false} MinimalLEFacts(x: nat)
    ensures LE(NatToLE(x, SignificantBytes(x))) == x
    ensures x > 0 ==> NatToLE(x, SignificantBytes(x))[SignificantBytes(x) - 1] != 0
  {
    var s := SignificantBytes(x);
    SignificantBytesBounds(x);
    LENatToLE(x, s);
    if x > 0 {
      NatToLESplit(x, s - 1, 1);
      SignificantBytesShr(x);
      ShrAdd(x, s - 1, 1);
      var top := Shr(x, s - 1);
      assert top / 256 == 0;
      assert NatToLE(x, s)[s - 1] == top % 256;
    }
  }

  lemma {:induction false} MinimalLEUnique(s: seq<Byte>)
    requires |s| == 0 || s[|s| - 1] != 0
    ensures MinimalLE(LE(s)) == s
  {
    var x := LE(s);
    NatToLEOfLE(s);
    assert Shr(x, |s|) == 0 by {
      LEBound(s);
      ShrZero(x, |s|);
    }
    if |s| > 0 {
      assert Shr(x, |s| - 1) > 0 by {
        NatToLESplit(x, |s| - 1, 1);
        assert s[|s| - 1] == NatToLE(Shr(x, |s| - 1), 1)[0];
      }
    }
    SignificantBytesUnique(x, |s|);
  }

  // ---------------------------------------------------------------------
  // Words and their little-endian byte image
  // ---------------------------------------------------------------------

  /** The 8 bytes of a word in memory on a little-endian host. */
  function WordBytes(w: Word): (r: seq<Byte>)
    ensures |r| == 8
  {
    NatToLE(w, 8)
  }

  function WordsBytes(ws: seq<Word>): (r: seq<Byte>)
    ensures |r| == 8 * |ws|
  {
    if |ws| == 0 then [] else WordBytes(ws[0]) + WordsBytes(ws[1..])
  }

  /** The magnitude a word sequence stands for: sum of ws[i] * 2^(64 i). */
  function WordsValue(ws: seq<Word>): nat
  {
    if |ws| == 0 then 0 else ws[0] + Pow256(8) * WordsValue(ws[1..])
  }

  /** The host's words are canonical: no zero most-significant word (zero has no words). */
  predicate Canonical(ws: seq<Word>)
  {
    |ws| == 0 || ws[|ws| - 1] != 0
  }

  lemma {:induction false} WordsBytesAppend(a: seq<Word>, b: seq<Word>)
    ensures WordsBytes(a + b) == WordsBytes(a) + WordsBytes(b)
  {
    if |a| == 0 {
      assert a + b == b;
    } else {
      assert (a + b)[1..] == a[1..] + b;
      WordsBytesAppend(a[1..], b);
    }
  }

  lemma {:induction false} LEWordsBytes(ws: seq<Word>)
    ensures LE(WordsBytes(ws)) == WordsValue(ws)
  {
    if |ws| > 0 {
      LEWordsBytes(ws[1..]);
      LEAppend(WordBytes(ws[0]), WordsBytes(ws[1..]));
      Pow256Word();
      LENatToLE(ws[0], 8);
    }
  }

  lemma {:induction false} WordsBytesAsNat(ws: seq<Word>)
    ensures WordsBytes(ws) == NatToLE(WordsValue(ws), 8 * |ws|)
  {
    LEWordsBytes(ws);
    NatToLEOfLE(WordsBytes(ws));
  }

  /** The last 8 bytes of the image are the top word, and they read back as it. */
  lemma {:induction false} LastWordBytes(ws: seq<Word>)
    requires |ws| > 0
    ensures WordsBytes(ws)[8 * (|ws| - 1)..] == WordBytes(ws[|ws| - 1])
    ensures LE(WordBytes(ws[|ws| - 1])) == ws[|ws| - 1]
  {
    var n := |ws|;
    assert ws == ws[..n - 1] + [ws[n - 1]];
    WordsBytesAppend(ws[..n - 1], [ws[n - 1]]);
    assert WordsBytes([ws[n - 1]]) == WordBytes(ws[n - 1]);
    Pow256Word();
    LENatToLE(ws[n - 1], 8);
  }

  /** Reading memory back as words on a little-endian host; |s| must be a whole number of words. */
  function BytesToWords(s: seq<Byte>): (r: seq<Word>)
    requires |s| % 8 == 0
    ensures |r| == |s| / 8
  {
    if |s| == 0 then []
    else
      LEBound(s[..8]);
      Pow256Word();
      [LE(s[..8]) as Word] + BytesToWords(s[8..])
  }

  lemma {:induction false} WordsValueOfBytes(s: seq<Byte>)
    requires |s| % 8 == 0
    ensures WordsValue(BytesToWords(s)) == LE(s)
  {
    if |s| > 0 {
      WordsValueOfBytes(s[8..]);
      assert s == s[..8] + s[8..];
      LEAppend(s[..8], s[8..]);
    }
  }

  lemma {:induction false} BytesToWordsOfWordsBytes(ws: seq<Word>)
    ensures BytesToWords(WordsBytes(ws)) == ws
  {
    if |ws| > 0 {
      var s := WordsBytes(ws);
      assert s[..8] == WordBytes(ws[0]);
      assert s[8..] == WordsBytes(ws[1..]);
      Pow256Word();
      LENatToLE(ws[0], 8);
      BytesToWordsOfWordsBytes(ws[1..]);
    }
  }

  /** Number of zero bytes that complete n bytes to a whole number of words. */
  function PadLength(n: nat): (p: nat)
    ensures p < 8 && (n + p) % 8 == 0
  {
    (8 - n % 8) % 8
  }

  /** The words whose image is s followed by zero bytes up to a word boundary. */
  function PaddedWords(s: seq<Byte>): (r: seq<Word>)
    ensures |r| == (|s| + 7) / 8
  {
    BytesToWords(s + Zeros(PadLength(|s|)))
  }

  lemma {:induction false} PaddedWordsValue(s: seq<Byte>)
    ensures WordsValue(PaddedWords(s)) == LE(s)
  {
    WordsValueOfBytes(s + Zeros(PadLength(|s|)));
    LEZeros(s, PadLength(|s|));
  }

  /**
    Trimming the high zero bytes of the top word of canonical words leaves
    exactly the minimal encoding of their value, and what is cut off is zero.
  */
  lemma {:induction false} TrimmedWords(ws: seq<Word>)
    requires Canonical(ws) && |ws| > 0
    ensures SignificantBytes(WordsValue(ws)) <= 8 * |ws|
    ensures 8 * (|ws| - 1) + SignificantBytes(ws[|ws| - 1]) == SignificantBytes(WordsValue(ws))
    ensures WordsBytes(ws)[..SignificantBytes(WordsValue(ws))] == MinimalLE(WordsValue(ws))
    ensures WordsBytes(ws)[SignificantBytes(WordsValue(ws))..]
         == Zeros(8 * |ws| - SignificantBytes(WordsValue(ws)))
  {
    TrimmedWordsLength(ws);
    var n, v := |ws|, WordsValue(ws);
    var len := SignificantBytes(v);
    WordsBytesAsNat(ws);
    NatToLESplit(v, len, 8 * n - len);
    SignificantBytesShr(v);
    NatToLEZero(8 * n - len);
  }

  /** The significant bytes of canonical words: all of the lower words and those of the top word. */
  lemma {:induction false} TrimmedWordsLength(ws: seq<Word>)
    requires Canonical(ws) && |ws| > 0
    ensures SignificantBytes(WordsValue(ws)) <= 8 * |ws|
    ensures 8 * (|ws| - 1) + SignificantBytes(ws[|ws| - 1]) == SignificantBytes(WordsValue(ws))
  {
    var n := |ws|;
    var init, last := ws[..n - 1], ws[n - 1];
    assert ws == init + [last];
    WordsBytesAppend(init, [last]);
    assert WordsBytes([last]) == WordBytes(last);
    LEAppend(WordsBytes(init), WordBytes(last));
    LEWordsBytes(ws);
    LEWordsBytes(init);
    Pow256Word();
    LENatToLE(last, 8);
    LEBound(WordsBytes(init));
    assert WordsValue(ws) == WordsValue(init) + Pow256(8 * (n - 1)) * last;
    SignificantBytesShift(WordsValue(init), 8 * (n - 1), last);
    SignificantBytesWord(last);
  }

  lemma {:induction false} PadLengthOfTop(m: nat, s: nat)
    requires 1 <= s <= 8
    ensures PadLength(8 * m + s) == 8 - s
  {
    if s == 8 {
      DivModUnique(8 * m + s, 8, m + 1, 0);
    } else {
      DivModUnique(8 * m + s, 8, m, s);
    }
  }

  /** The words of a canonical sequence come back from its minimal encoding padded to whole words. */
  lemma {:induction false} PaddedWordsOfMinimal(ws: seq<Word>)
    requires Canonical(ws)
    ensures PaddedWords(MinimalLE(WordsValue(ws))) == ws
  {
    if |ws| == 0 {
      assert MinimalLE(0) == [];
    } else {
      TrimmedWords(ws);
      var v := WordsValue(ws);
      var len := SignificantBytes(v);
      var top := ws[|ws| - 1];
      assert SignificantBytes(top) >= 1;
      SignificantBytesWord(top);
      PadLengthOfTop(|ws| - 1, SignificantBytes(top));
      assert MinimalLE(v) + Zeros(PadLength(len)) == WordsBytes(ws) by {
        assert WordsBytes(ws) == WordsBytes(ws)[..len] + WordsBytes(ws)[len..];
      }
      BytesToWordsOfWordsBytes(ws);
    }
  }
}
