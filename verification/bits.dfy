/** The reference meaning of the reader: bits of a byte sequence numbered
    least-significant-bit first within each byte, n-bit little-endian values,
    two's-complement sign extension, and the 64-bit shift expressions the
    decoders evaluate on a little-endian word load. */
module Bits {
  import opened Arith

  type byte = b: int | 0 <= b < 256

  /** x shifted right by k bits: x / 2^k, by repeated halving. */
  function Halve(x: nat, k: nat): nat
  {
    if k == 0 then x else Halve(x / 2, k - 1)
  }

  /** The k low bits of b, least significant first. */
  function BitsOfByte(b: nat, k: nat): (r: seq<nat>)
    ensures |r| == k
    ensures forall i :: 0 <= i < k ==> r[i] < 2
  {
    if k == 0 then [] else [b % 2] + BitsOfByte(b / 2, k - 1)
  }

  /** The bits of s, eight per byte, each byte least significant bit first. */
  function ToBits(s: seq<byte>): (r: seq<nat>)
    ensures |r| == 8 * |s|
    ensures forall i :: 0 <= i < |r| ==> r[i] < 2
  {
    if |s| == 0 then [] else BitsOfByte(s[0], 8) + ToBits(s[1..])
  }

  /** Bit j of s: bit j % 8 of byte j / 8 (see BitSpec). */
  function Bit(s: seq<byte>, j: nat): (r: nat)
    requires j < 8 * |s|
    ensures r < 2
  {
    ToBits(s)[j]
  }

  /** The n bits of s starting at bit j, read as a little-endian number:
      the sum of Bit(s, j + i) * 2^i for i < n. */
  function BitsAt(s: seq<byte>, j: nat, n: nat): nat
    requires j + n <= 8 * |s|
    decreases n
  {
    if n == 0 then 0 else Bit(s, j) + 2 * BitsAt(s, j + 1, n - 1)
  }

  /** The byte that starts at bit j (j need not be byte aligned). */
  function ByteAt(s: seq<byte>, j: nat): (r: byte)
    requires j + 8 <= 8 * |s|
    ensures r == BitsAt(s, j, 8)
  {
    BitsBound(s, j, 8);
    BitsAt(s, j, 8)
  }

  /** The k bytes of s from index a as a little-endian number, the way
      encoding/binary's LittleEndian decoders read them. */
  function LittleEndian(s: seq<byte>, a: nat, k: nat): nat
    requires a + k <= |s|
    decreases k
  {
    if k == 0 then 0 else s[a] + 256 * LittleEndian(s, a + 1, k - 1)
  }

  /** Two's-complement reading of the n-bit unsigned value u. */
  function SignExtend(u: nat, n: nat): int
  {
    if n > 0 && u >= Pow2(n - 1) then u - Pow2(n) else u
  }

  /** The W-bit unsigned value x reinterpreted as a W-bit two's-complement
      integer (Go's int64(x) for W = 64). */
  function ToSigned(x: nat, W: nat): int
    requires 1 <= W && x < Pow2(W)
  {
    if x >= Pow2(W - 1) then x - Pow2(W) else x
  }

  /** Go's `x << k` on a W-bit unsigned value: bits shifted past bit W - 1 are lost. */
  function Shl(x: nat, k: nat, W: nat): (r: nat)
    ensures r < Pow2(W)
  {
    (x * Pow2(k)) % Pow2(W)
  }

  /** Go's `x >> k` on an unsigned value (0 once k reaches the width). */
  function Shr(x: nat, k: nat): nat
  {
    DivNonnegative(x, Pow2(k));
    x / Pow2(k)
  }

  /** Go's `v >> k` on a signed value: an arithmetic shift, i.e. floor
      division by 2^k (0 or -1 once k reaches the width, as Go specifies). */
  function Sar(v: int, k: nat): int
  {
    v / Pow2(k)
  }

  /** `w << (W - s - n) >> (W - n)` on a W-bit unsigned word: the left shift
      drops the bits above s + n, the logical right shift the s bits below. */
  function UnsignedShiftExtract(w: nat, s: nat, n: nat, W: nat): nat
    requires s + n <= W
  {
    Shr(Shl(w, W - s - n, W), W - n)
  }

  /** The same left shift, read as a signed W-bit value, then shifted right
      arithmetically (Go's `int64(w << (64 - s - n)) >> (64 - n)` for W = 64). */
  function SignedShiftExtract(w: nat, s: nat, n: nat, W: nat): int
    requires 1 <= W && s + n <= W
  {
    Sar(ToSigned(Shl(w, W - s - n, W), W), W - n)
  }

  // ---------------------------------------------------------------------
  // Facts about BitsAt

  lemma {:induction false} BitsBound(s: seq<byte>, j: nat, n: nat)
    requires j + n <= 8 * |s|
    ensures BitsAt(s, j, n) < Pow2(n)
    decreases n
  {
    if n > 0 {
      BitsBound(s, j + 1, n - 1);
    }
  }

  /** Reading t = m + n bits from j is reading m bits, then n more bits,
      from j2 = j + m, worth 2^m each. The total and the second start are
      parameters so that each step's terms match the definition's unfolding. */
  lemma {:induction false} BitsSplitAt(s: seq<byte>, j: nat, m: nat, n: nat, t: nat, j2: nat)
    requires t == m + n && j2 == j + m && j + t <= 8 * |s|
    ensures BitsAt(s, j, t) == BitsAt(s, j, m) + Pow2(m) * BitsAt(s, j2, n)
    decreases m
  {
    if m > 0 {
      BitsSplitAt(s, j + 1, m - 1, n, t - 1, j2);
      SplitStep(Bit(s, j), BitsAt(s, j + 1, m - 1), Pow2(m - 1), BitsAt(s, j2, n), Pow2(m));
    }
  }

  /** Reading m + n bits is reading m bits, then n more bits worth 2^m each. */
  lemma BitsSplit(s: seq<byte>, j: nat, m: nat, n: nat)
    requires j + m + n <= 8 * |s|
    ensures BitsAt(s, j, m + n) == BitsAt(s, j, m) + Pow2(m) * BitsAt(s, j + m, n)
  {
    BitsSplitAt(s, j, m, n, m + n, j + m);
  }

  /** Two bit ranges with the same bits have the same value. */
  lemma {:induction false} BitsAgree(s1: seq<byte>, j1: nat, s2: seq<byte>, j2: nat, n: nat)
    requires j1 + n <= 8 * |s1| && j2 + n <= 8 * |s2|
    requires forall i :: j1 <= i < j1 + n ==> Bit(s1, i) == Bit(s2, i - j1 + j2)
    ensures BitsAt(s1, j1, n) == BitsAt(s2, j2, n)
    decreases n
  {
    if n > 0 {
      assert Bit(s1, j1) == Bit(s2, j1 - j1 + j2);
      BitsAgree(s1, j1 + 1, s2, j2 + 1, n - 1);
    }
  }

  lemma {:induction false} HalveStep(x: nat, k: nat)
    ensures Halve(x, k + 1) == Halve(x, k) / 2
    decreases k
  {
    if k > 0 {
      HalveStep(x / 2, k - 1);
    }
  }

  lemma {:induction false} HalveBelow(x: nat, k: nat)
    requires x < Pow2(k)
    ensures Halve(x, k) == 0
    decreases k
  {
    if k > 0 {
      HalveBelow(x / 2, k - 1);
    }
  }

  lemma {:induction false} BitsOfByteAt(b: nat, m: nat, k: nat)
    requires k < m
    ensures BitsOfByte(b, m)[k] == Halve(b, k) % 2
    decreases k
  {
    if k > 0 {
      BitsOfByteAt(b / 2, m - 1, k - 1);
      assert BitsOfByte(b, m)[k] == BitsOfByte(b / 2, m - 1)[k - 1];
    }
  }

  lemma {:induction false} ToBitsAt(s: seq<byte>, q: nat, k: nat)
    requires q < |s| && k < 8
    ensures ToBits(s)[8 * q + k] == BitsOfByte(s[q], 8)[k]
    decreases q
  {
    if q > 0 {
      ToBitsAt(s[1..], q - 1, k);
      assert s[1..][q - 1] == s[q];
      assert ToBits(s)[8 * q + k] == ToBits(s[1..])[8 * (q - 1) + k];
    }
  }

  lemma BitOfAligned(s: seq<byte>, q: nat, k: nat)
    requires q < |s| && k < 8
    ensures Bit(s, 8 * q + k) == Halve(s[q], k) % 2
  {
    ToBitsAt(s, q, k);
    BitsOfByteAt(s[q], 8, k);
  }

  /** Bit j of s is bit j % 8 of byte j / 8. */
  lemma BitSpec(s: seq<byte>, j: nat)
    requires j < 8 * |s|
    ensures Bit(s, j) == Halve(s[j / 8], j % 8) % 2
  {
    BitOfAligned(s, j / 8, j % 8);
    assert 8 * (j / 8) + j % 8 == j;
  }

  /** Bits k..7 of byte q of s, read as a number, are the byte shifted right by k. */
  lemma {:induction false} ByteBitsFrom(s: seq<byte>, q: nat, k: nat, j: nat, n: nat)
    requires q < |s| && k <= 8 && j == 8 * q + k && n == 8 - k
    ensures BitsAt(s, j, n) == Halve(s[q], k)
    decreases n
  {
    if k < 8 {
      ByteBitsFrom(s, q, k + 1, j + 1, n - 1);
      BitOfAligned(s, q, k);
      HalveStep(s[q], k);
    } else {
      Pow2Constants();
      HalveBelow(s[q], 8);
    }
  }

  /** The eight bits of an aligned byte, least significant first, rebuild it. */
  lemma ByteBits(s: seq<byte>, q: nat)
    requires q < |s|
    ensures BitsAt(s, 8 * q, 8) == s[q]
  {
    ByteBitsFrom(s, q, 0, 8 * q, 8);
  }

  /** A little-endian load of k bytes is the 8k bits from the same place. */
  lemma {:induction false} LittleEndianBits(s: seq<byte>, a: nat, k: nat)
    requires a + k <= |s|
    ensures LittleEndian(s, a, k) == BitsAt(s, 8 * a, 8 * k)
    decreases k
  {
    if k > 0 {
      LittleEndianBits(s, a + 1, k - 1);
      BitsSplitAt(s, 8 * a, 8, 8 * (k - 1), 8 * k, 8 * (a + 1));
      ByteBits(s, a);
      Pow2Constants();
    }
  }

  // ---------------------------------------------------------------------
  // The shift expressions

  /** The left shift of a word w split as lo (s bits), field (n bits) and
      hi keeps lo and field, now at the top, and drops hi. */
  lemma ShiftedWord(w: nat, lo: nat, field: nat, hi: nat, s: nat, n: nat, W: nat)
    requires s + n <= W
    requires lo < Pow2(s) && field < Pow2(n)
    requires w == lo + Pow2(s) * (field + Pow2(n) * hi)
    ensures Shl(w, W - s - n, W) == lo * Pow2(W - s - n) + Pow2(W - n) * field
    ensures 0 <= lo * Pow2(W - s - n) < Pow2(W - n)
  {
    Pow2Sum(s, W - s - n, W - n);
    Pow2Sum(W - n, n, W);
    ScaledWord(w, lo, field, hi, Pow2(s), Pow2(n), Pow2(W - s - n), Pow2(W - n), Pow2(W));
  }

  /** The unsigned shift expression returns the n-bit field at bit s. */
  lemma UnsignedShiftField(w: nat, lo: nat, field: nat, hi: nat, s: nat, n: nat, W: nat)
    requires s + n <= W
    requires lo < Pow2(s) && field < Pow2(n)
    requires w == lo + Pow2(s) * (field + Pow2(n) * hi)
    ensures UnsignedShiftExtract(w, s, n, W) == field
  {
    ShiftedWord(w, lo, field, hi, s, n, W);
    DivModAdd(lo * Pow2(W - s - n), Pow2(W - n), field);
  }

  /** A W-bit word holding an n-bit field above W - n low bits, read as
      signed and shifted right arithmetically by W - n, sign-extends the field. */
  lemma SignedTop(x: nat, low: nat, field: nat, n: nat, W: nat)
    requires 1 <= n <= W && x < Pow2(W)
    requires low < Pow2(W - n) && field < Pow2(n)
    requires x == low + Pow2(W - n) * field
    ensures Sar(ToSigned(x, W), W - n) == SignExtend(field, n)
  {
    Pow2Sum(W - n, n - 1, W - 1);
    Pow2Sum(W - n, n, W);
    SignedField(low, field, Pow2(W - n), Pow2(n), Pow2(n - 1), Pow2(W - 1), Pow2(W));
  }

  /** For n >= 1 the signed shift expression returns the field's sign extension. */
  lemma SignedShiftField(w: nat, lo: nat, field: nat, hi: nat, s: nat, n: nat, W: nat)
    requires s + n <= W && n >= 1
    requires lo < Pow2(s) && field < Pow2(n)
    requires w == lo + Pow2(s) * (field + Pow2(n) * hi)
    ensures SignedShiftExtract(w, s, n, W) == SignExtend(field, n)
  {
    ShiftedWord(w, lo, field, hi, s, n, W);
    SignedTop(Shl(w, W - s - n, W), lo * Pow2(W - s - n), field, n, W);
  }

  /** With no field to extract (n = 0) the signed expression still moves the
      s low bits into the sign position: it returns -1 when bit s - 1, the
      bit just below the field, is set. */
  lemma SignedShiftZeroWidth(w: nat, lo: nat, hi: nat, s: nat, W: nat)
    requires 1 <= s <= W
    requires Pow2(s - 1) <= lo < Pow2(s)
    requires w == lo + Pow2(s) * (0 + Pow2(0) * hi)
    ensures SignedShiftExtract(w, s, 0, W) == -1
  {
    ShiftedWord(w, lo, 0, hi, s, 0, W);
    Pow2Sum(s - 1, W - s, W - 1);
    Pow2Sum(1, W - 1, W);
    MulMonotone(Pow2(s - 1), lo, Pow2(W - s));
    NegativeQuotient(lo * Pow2(W - s), Pow2(W));
  }

  // ---------------------------------------------------------------------
  // Fields of a word loaded from a byte sequence

  /** A k-byte load from byte a, with W = 8k bits, split at bit j = 8a + sh
      into the sh bits below j, the n bits from j and the bits above. */
  lemma WordSplit(s: seq<byte>, a: nat, k: nat, W: nat, j: nat, sh: nat, n: nat)
    requires W == 8 * k && a + k <= |s| && 8 * a + sh == j && sh + n <= W
    ensures BitsAt(s, 8 * a, sh) < Pow2(sh) && BitsAt(s, j, n) < Pow2(n)
    ensures LittleEndian(s, a, k)
      == BitsAt(s, 8 * a, sh) + Pow2(sh) * (BitsAt(s, j, n) + Pow2(n) * BitsAt(s, j + n, W - sh - n))
  {
    LittleEndianBits(s, a, k);
    BitsSplitAt(s, 8 * a, sh, W - sh, W, j);
    BitsSplitAt(s, j, n, W - sh - n, W - sh, j + n);
    BitsBound(s, 8 * a, sh);
    BitsBound(s, j, n);
  }

  /** The unsigned shift expression on the loaded word returns the n bits at j. */
  lemma WordUnsignedField(s: seq<byte>, a: nat, k: nat, W: nat, j: nat, sh: nat, n: nat)
    requires W == 8 * k && a + k <= |s| && 8 * a + sh == j && sh + n <= W
    ensures UnsignedShiftExtract(LittleEndian(s, a, k), sh, n, W) == BitsAt(s, j, n)
  {
    WordSplit(s, a, k, W, j, sh, n);
    UnsignedShiftField(LittleEndian(s, a, k), BitsAt(s, 8 * a, sh), BitsAt(s, j, n),
      BitsAt(s, j + n, W - sh - n), sh, n, W);
  }

  /** For n >= 1 the signed shift expression on the loaded word returns the
      sign extension of the n bits at j. */
  lemma WordSignedField(s: seq<byte>, a: nat, k: nat, W: nat, j: nat, sh: nat, n: nat)
    requires W == 8 * k && a + k <= |s| && 8 * a + sh == j && sh + n <= W && n >= 1
    ensures SignedShiftExtract(LittleEndian(s, a, k), sh, n, W) == SignExtend(BitsAt(s, j, n), n)
  {
    WordSplit(s, a, k, W, j, sh, n);
    SignedShiftField(LittleEndian(s, a, k), BitsAt(s, 8 * a, sh), BitsAt(s, j, n),
      BitsAt(s, j + n, W - sh - n), sh, n, W);
  }

  /** m bits whose top bit is set are worth at least 2^(m-1). */
  lemma TopBitSet(s: seq<byte>, i0: nat, m: nat, top: nat)
    requires m >= 1 && top == i0 + m - 1 && i0 + m <= 8 * |s| && Bit(s, top) == 1
    ensures Pow2(m - 1) <= BitsAt(s, i0, m)
  {
    BitsSplitAt(s, i0, m - 1, 1, m, top);
    assert BitsAt(s, top, 1) == 1;
  }

  /** For n = 0 the signed shift expression on the loaded word returns -1
      whenever the field starts inside the word (sh >= 1) and the bit just
      below it is set. */
  lemma WordSignedZeroWidth(s: seq<byte>, a: nat, k: nat, W: nat, j: nat, sh: nat)
    requires W == 8 * k && a + k <= |s| && 8 * a + sh == j && 1 <= sh <= W
    requires Bit(s, j - 1) == 1
    ensures SignedShiftExtract(LittleEndian(s, a, k), sh, 0, W) == -1
  {
    var lo, hi := BitsAt(s, 8 * a, sh), BitsAt(s, j, W - sh);
    WordSplit(s, a, k, W, j, sh, 0);
    assert BitsAt(s, j, 0) == 0;
    assert LittleEndian(s, a, k) == lo + Pow2(sh) * (0 + Pow2(0) * hi);
    TopBitSet(s, 8 * a, sh, j - 1);
    SignedShiftZeroWidth(LittleEndian(s, a, k), lo, hi, sh, W);
  }

  // ---------------------------------------------------------------------
  // Runs of bytes

  /** The k bytes that start at bit j (j need not be byte aligned). */
  function BytesAt(s: seq<byte>, j: nat, k: nat): (r: seq<byte>)
    requires j + 8 * k <= 8 * |s|
    ensures |r| == k
  {
    seq(k, i requires 0 <= i < k => ByteAt(s, j + 8 * i))
  }

  /** A run of k >= 1 bytes is its first byte followed by the run from the
      next byte. */
  lemma BytesAtCons(s: seq<byte>, j: nat, k: nat)
    requires j + 8 * k <= 8 * |s| && k >= 1
    ensures BytesAt(s, j, k) == [ByteAt(s, j)] + BytesAt(s, j + 8, k - 1)
  {
    var r, t := BytesAt(s, j, k), BytesAt(s, j + 8, k - 1);
    forall i | 1 <= i < k
      ensures r[i] == t[i - 1]
    {
      assert j + 8 * i == (j + 8) + 8 * (i - 1);
    }
    assert r == [ByteAt(s, j)] + t;
  }

  /** A run of k + 1 bytes is the run of k followed by the byte at jk = j + 8k. */
  lemma BytesAtSnoc(s: seq<byte>, j: nat, k: nat, jk: nat)
    requires jk == j + 8 * k && j + 8 * (k + 1) <= 8 * |s|
    ensures BytesAt(s, j, k + 1) == BytesAt(s, j, k) + [ByteAt(s, jk)]
  {
    var a, b := BytesAt(s, j, k + 1), BytesAt(s, j, k) + [ByteAt(s, jk)];
    forall i | 0 <= i < k + 1
      ensures a[i] == b[i]
    {
    }
  }

  /** A run of bytes from a byte boundary j = 8q is a slice. */
  lemma BytesAtAligned(s: seq<byte>, q: nat, k: nat, j: nat)
    requires j == 8 * q && q + k <= |s|
    ensures BytesAt(s, j, k) == s[q..q + k]
  {
    var r := BytesAt(s, j, k);
    forall i | 0 <= i < k
      ensures r[i] == s[q + i]
    {
      ByteAtAligned(s, q + i, j + 8 * i);
    }
  }

  /** The byte at bit j = 8q is byte q. */
  lemma ByteAtAligned(s: seq<byte>, q: nat, j: nat)
    requires j == 8 * q && q < |s|
    ensures ByteAt(s, j) == s[q]
  {
    ByteBits(s, q);
  }

  /** A little-endian number of k + m bytes is its low k bytes plus its
      high m bytes worth 2^(8k). */
  lemma {:induction false} LittleEndianSplit(s: seq<byte>, a: nat, k: nat, m: nat, t: nat, a2: nat)
    requires t == k + m && a2 == a + k && a + t <= |s|
    ensures LittleEndian(s, a, t) == LittleEndian(s, a, k) + Pow2(8 * k) * LittleEndian(s, a2, m)
    decreases k
  {
    if k > 0 {
      LittleEndianSplit(s, a + 1, k - 1, m, t - 1, a2);
      Pow2Sum(8, 8 * (k - 1), 8 * k);
      Pow2Constants();
      DigitStep(s[a], 256, LittleEndian(s, a + 1, k - 1), Pow2(8 * (k - 1)), LittleEndian(s, a2, m), Pow2(8 * k));
    }
  }

  /** Bytes holding a run of bytes of a stream, read little-endian, are the
      stream's bits. */
  lemma {:induction false} BytesAtValue(bs: seq<byte>, a: nat, k: nat, s: seq<byte>, j: nat)
    requires a + k <= |bs| && j + 8 * k <= 8 * |s|
    requires bs[a..a + k] == BytesAt(s, j, k)
    ensures LittleEndian(bs, a, k) == BitsAt(s, j, 8 * k)
    decreases k
  {
    if k > 0 {
      BytesAtTail(bs, a, k, s, j);
      BytesAtValue(bs, a + 1, k - 1, s, j + 8);
      BytesAtStep(bs, a, k, s, j, 8 * k);
    }
  }

  /** A slice holding a run of k >= 1 bytes starts with the first byte and
      continues with the rest of the run. */
  lemma BytesAtTail(bs: seq<byte>, a: nat, k: nat, s: seq<byte>, j: nat)
    requires a + k <= |bs| && j + 8 * k <= 8 * |s| && k >= 1
    requires bs[a..a + k] == BytesAt(s, j, k)
    ensures bs[a] == ByteAt(s, j) && bs[a + 1..a + k] == BytesAt(s, j + 8, k - 1)
  {
    BytesAtCons(s, j, k);
    assert bs[a] == bs[a..a + k][0];
    assert bs[a + 1..a + k] == bs[a..a + k][1..];
  }

  /** One step of BytesAtValue: a first byte that is the byte at j, followed
      by the value of the next k - 1 bytes' bits. */
  lemma BytesAtStep(bs: seq<byte>, a: nat, k: nat, s: seq<byte>, j: nat, kk: nat)
    requires k >= 1 && kk == 8 * k && a + k <= |bs| && j + kk <= 8 * |s|
    requires bs[a] == ByteAt(s, j) && LittleEndian(bs, a + 1, k - 1) == BitsAt(s, j + 8, kk - 8)
    ensures LittleEndian(bs, a, k) == BitsAt(s, j, kk)
  {
    BitsSplitAt(s, j, 8, kk - 8, kk, j + 8);
    assert Pow2(8) == 256;
  }

  // ---------------------------------------------------------------------
  // 32-bit little-endian words

  /** The four little-endian bytes of a uint32, as binary.LittleEndian.PutUint32 writes them. */
  function Encode32(u: nat): (r: seq<byte>)
    requires u < 0x1_0000_0000
    ensures |r| == 4
  {
    [u % 256, (u / 256) % 256, (u / 0x1_0000) % 256, u / 0x100_0000]
  }

  /** The four base-256 digits of a uint32 rebuild it. */
  lemma Digits32(u: nat)
    requires u < 0x1_0000_0000
    ensures u % 256 + 256 * ((u / 256) % 256 + 256 * ((u / 0x1_0000) % 256 + 256 * (u / 0x100_0000))) == u
  {
    var q1, r0 := u / 256, u % 256;
    var q2, r1 := q1 / 256, q1 % 256;
    var q3, r2 := q2 / 256, q2 % 256;
    assert u == 0x1_0000 * q2 + (256 * r1 + r0);
    DivModUnique(u, 0x1_0000, q2, 256 * r1 + r0);
    assert u == 0x100_0000 * q3 + (0x1_0000 * r2 + 256 * r1 + r0);
    DivModUnique(u, 0x100_0000, q3, 0x1_0000 * r2 + 256 * r1 + r0);
  }

  /** A uint32 written as four little-endian bytes reads back as the same value. */
  lemma Word32Bits(s: seq<byte>, q: nat, u: nat)
    requires u < 0x1_0000_0000
    requires q + 4 <= |s| && s[q..q + 4] == Encode32(u)
    ensures BitsAt(s, 8 * q, 32) == u
  {
    LittleEndianBits(s, q, 4);
    var e := Encode32(u);
    assert s[q] == e[0] && s[q + 1] == e[1] && s[q + 2] == e[2] && s[q + 3] == e[3] by {
      assert s[q..q + 4][0] == s[q] && s[q..q + 4][1] == s[q + 1];
      assert s[q..q + 4][2] == s[q + 2] && s[q..q + 4][3] == s[q + 3];
    }
    var le3 := LittleEndian(s, q + 3, 1);
    var le2 := LittleEndian(s, q + 2, 2);
    var le1 := LittleEndian(s, q + 1, 3);
    assert le3 == e[3];
    assert le2 == e[2] + 256 * le3;
    assert le1 == e[1] + 256 * le2;
    assert LittleEndian(s, q, 4) == e[0] + 256 * le1;
    Digits32(u);
  }

  /** Sign-extending the 32-bit image of an int32 gives the int32 back. */
  lemma SignExtend32(v: int)
    requires -0x8000_0000 <= v < 0x8000_0000
    ensures SignExtend(v % 0x1_0000_0000, 32) == v
  {
    Pow2Constants();
    if v < 0 {
      DivModUnique(v, 0x1_0000_0000, -1, v + 0x1_0000_0000);
    } else {
      DivModUnique(v, 0x1_0000_0000, 0, v);
    }
  }

  /** A uint32 written as four little-endian bytes reads back as the same
      32-bit value, and as the int32 it encodes. */
  lemma Word32RoundTrip(s: seq<byte>, q: nat, v: int)
    requires -0x8000_0000 <= v < 0x1_0000_0000
    requires q + 4 <= |s| && s[q..q + 4] == Encode32(v % 0x1_0000_0000)
    ensures BitsAt(s, 8 * q, 32) == v % 0x1_0000_0000
    ensures v < 0x8000_0000 ==> SignExtend(BitsAt(s, 8 * q, 32), 32) == v
  {
    Word32Bits(s, q, v % 0x1_0000_0000);
    if v < 0x8000_0000 {
      SignExtend32(v);
    }
  }
}
