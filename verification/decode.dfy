/** The decoders: a bit, an n-bit unsigned or signed integer taken from an
    aligned 64-bit little-endian word load, a byte, runs of bytes and a
    zero-terminated string. Each is stated against the stream: the n bits
    that start at StreamIndex(r) of the source's bytes. */
module Decode {
  import opened Arith
  import opened Bits
  import opened ByteSource
  import opened Reader

  /** (offset >> 3) &^ 3: the byte index of the 8-byte word ReadInt loads,
      the byte of the offset rounded down to a multiple of 4. */
  function WordIndex(offset: nat): nat
  {
    offset / 8 - (offset / 8) % 4
  }

  /** The 8-byte load lies inside the buffer and starts offset % 32 bits
      below the offset. */
  lemma WordInBounds(r: BitReader)
    requires Valid(r)
    ensures WordIndex(r.offset) + 8 <= |r.buffer|
    ensures 8 * WordIndex(r.offset) + r.offset % 32 == r.offset
  {
    AlignWord(r.offset);
    DivModUnique(WordIndex(r.offset), 4, r.offset / 32, 0);
    FourAligned(WordIndex(r.offset), |r.buffer|);
  }

  /** binary.LittleEndian.Uint64(buffer[(offset >> 3) &^ 3:]). */
  function LoadWord(r: BitReader): (w: nat)
    requires Valid(r)
    ensures w == BitsAt(r.buffer, 8 * WordIndex(r.offset), 64)
  {
    WordInBounds(r);
    LittleEndianBits(r.buffer, WordIndex(r.offset), 8);
    LittleEndian(r.buffer, WordIndex(r.offset), 8)
  }

  /** The shift expressions of ReadInt and ReadSignedInt on the loaded word
      give the next n stream bits, and their sign extension for n >= 1. */
  lemma WordFields(r: BitReader, n: nat)
    requires Valid(r) && n <= 32 && InStream(r, n)
    ensures UnsignedShiftExtract(LoadWord(r), r.offset % 32, n, 64) == BitsAt(r.src.data, StreamIndex(r), n)
    ensures n >= 1 ==>
      SignedShiftExtract(LoadWord(r), r.offset % 32, n, 64) == SignExtend(BitsAt(r.src.data, StreamIndex(r), n), n)
  {
    WordInBounds(r);
    BufferBits(r, n);
    var a := WordIndex(r.offset);
    WordUnsignedField(r.buffer, a, 8, 64, r.offset, r.offset % 32, n);
    if n >= 1 {
      WordSignedField(r.buffer, a, 8, 64, r.offset, r.offset % 32, n);
    }
  }

  /** uint(val << (64 - offset & 31 - n) >> (64 - n)): the next n stream bits. */
  function IntField(r: BitReader, n: nat): (v: nat)
    requires Valid(r) && n <= 32 && InStream(r, n)
    ensures v == BitsAt(r.src.data, StreamIndex(r), n) && v < Pow2(n)
  {
    WordFields(r, n);
    BitsBound(r.src.data, StreamIndex(r), n);
    UnsignedShiftExtract(LoadWord(r), r.offset % 32, n, 64)
  }

  /** int(int64(val << (64 - offset & 31 - n)) >> (64 - n)): for n >= 1 the
      two's-complement value of the next n stream bits. */
  function SignedIntField(r: BitReader, n: nat): (v: int)
    requires Valid(r) && n <= 32 && InStream(r, n)
    ensures n >= 1 ==> v == SignExtend(BitsAt(r.src.data, StreamIndex(r), n), n)
  {
    WordFields(r, n);
    SignedShiftExtract(LoadWord(r), r.offset % 32, n, 64)
  }

  // ---------------------------------------------------------------------
  // Bits and integers

  /** ReadBit: test bit offset & 7 of buffer byte offset >> 3, then advance
      one bit. It is the next stream bit p: bit p & 7 of stream byte p >> 3,
      least significant first. */
  method ReadBit(r: BitReader) returns (o: Out<bool>)
    requires Valid(r) && InStream(r, 1)
    ensures Advanced(r, o.next, 1)
    ensures o.value <==> Bit(r.src.data, StreamIndex(r)) == 1
    ensures StreamIndex(r) / 8 < |r.src.data|
    ensures o.value <==> Halve(r.src.data[StreamIndex(r) / 8], StreamIndex(r) % 8) % 2 == 1
  {
    NextBit(r);
    BitSpec(r.src.data, StreamIndex(r));
    o := Out(Advance(r, 1), Halve(r.buffer[r.offset / 8], r.offset % 8) % 2 == 1);
  }

  /** The bit ReadBit tests is the next stream bit. */
  lemma NextBit(r: BitReader)
    requires Valid(r) && InStream(r, 1)
    ensures r.offset / 8 < |r.buffer|
    ensures Halve(r.buffer[r.offset / 8], r.offset % 8) % 2 == Bit(r.src.data, StreamIndex(r))
  {
    BufferBit(r, r.offset);
    BitSpec(r.buffer, r.offset);
  }

  /** ReadInt(n), defined for n <= 32: shift the loaded word left by
      64 - offset % 32 - n and right by 64 - n, then advance n bits. It is the
      little-endian value of the next n stream bits. */
  method ReadInt(r: BitReader, n: nat) returns (o: Out<nat>)
    requires Valid(r) && n <= 32 && InStream(r, n)
    ensures Advanced(r, o.next, n)
    ensures o.value == BitsAt(r.src.data, StreamIndex(r), n) && o.value < Pow2(n)
  {
    o := Out(Advance(r, n), IntField(r, n));
  }

  /** With n = 0 the arithmetic shift by 64 of ReadSignedInt leaves only the
      sign of the shifted word, which is the bit just below the offset: the
      code's expression gives -1 instead of 0 when that bit is set and the
      offset is not a multiple of 32. */
  lemma ReadSignedIntZeroWidth(r: BitReader)
    requires Valid(r) && r.offset % 32 != 0 && Bit(r.buffer, r.offset - 1) == 1
    ensures SignedIntField(r, 0) == -1
  {
    WordInBounds(r);
    WordSignedZeroWidth(r.buffer, WordIndex(r.offset), 8, 64, r.offset, r.offset % 32);
  }

  /** The same in terms of the stream: the code's ReadSignedInt(0) gives -1
      whenever the stream bit just before the position is set and the
      offset is not a multiple of 32. */
  lemma ReadSignedIntZeroWidthStream(r: BitReader)
    requires Valid(r) && r.offset % 32 != 0 && StreamIndex(r) >= 1
    requires Bit(r.src.data, StreamIndex(r) - 1) == 1
    ensures SignedIntField(r, 0) == -1
  {
    PreviousBit(r);
    ReadSignedIntZeroWidth(r);
  }

  /** ReadSignedInt(n), with n = 0 giving 0 (the empty field) where the
      code's expression can give -1: the two's-complement value of the next
      n stream bits. */
  method ReadSignedInt(r: BitReader, n: nat) returns (o: Out<int>)
    requires Valid(r) && n <= 32 && InStream(r, n)
    ensures Advanced(r, o.next, n)
    ensures o.value == SignExtend(BitsAt(r.src.data, StreamIndex(r), n), n)
    ensures n >= 1 ==> -(Pow2(n - 1) as int) <= o.value < Pow2(n - 1)
  {
    BitsBound(r.src.data, StreamIndex(r), n);
    SignedBounds(BitsAt(r.src.data, StreamIndex(r), n), n);
    o := Out(Advance(r, n), if n == 0 then 0 else SignedIntField(r, n));
  }

  /** The two's-complement value of n bits lies in [-2^(n-1), 2^(n-1)). */
  lemma SignedBounds(u: nat, n: nat)
    requires u < Pow2(n)
    ensures n >= 1 ==> -(Pow2(n - 1) as int) <= SignExtend(u, n) < Pow2(n - 1)
  {
  }

  /** ReadBitsToByte(n): byte(ReadInt(n)), the next n bits truncated to a byte. */
  method ReadBitsToByte(r: BitReader, n: nat) returns (o: Out<byte>)
    requires Valid(r) && n <= 32 && InStream(r, n)
    ensures Advanced(r, o.next, n)
    ensures o.value == BitsAt(r.src.data, StreamIndex(r), n) % 256
    ensures n <= 8 ==> o.value == BitsAt(r.src.data, StreamIndex(r), n)
  {
    var i := ReadInt(r, n);
    FitsByte(i.value, n);
    o := Out(i.next, i.value % 256);
  }

  /** A value of at most 8 bits is its own low byte. */
  lemma FitsByte(u: nat, n: nat)
    requires u < Pow2(n)
    ensures n <= 8 ==> u % 256 == u
  {
    if n <= 8 {
      Pow2Constants();
      Pow2Monotone(n, 8);
    }
  }

  /** The number whose binary digits, least significant first, are bs. */
  function BoolsValue(bs: seq<bool>): nat
  {
    if |bs| == 0 then 0 else (if bs[0] then 1 else 0) + 2 * BoolsValue(bs[1..])
  }

  /** Booleans that are the bits from j on are worth the number those bits
      spell, least significant first. */
  lemma {:induction false} BoolsValueBits(bs: seq<bool>, s: seq<byte>, j: nat)
    requires j + |bs| <= 8 * |s|
    requires forall i :: 0 <= i < |bs| ==> (bs[i] <==> Bit(s, j + i) == 1)
    ensures BoolsValue(bs) == BitsAt(s, j, |bs|)
    decreases |bs|
  {
    if |bs| > 0 {
      forall i | 0 <= i < |bs| - 1
        ensures bs[1..][i] <==> Bit(s, j + 1 + i) == 1
      {
        assert bs[1..][i] == bs[i + 1];
      }
      BoolsValueBits(bs[1..], s, j + 1);
      assert bs[0] <==> Bit(s, j) == 1;
    }
  }

  /** k successive ReadBit calls: the next k stream bits in order (by
      BoolsValueBits worth the value ReadInt(k) returns). */
  method ReadBitRun(r: BitReader, k: nat) returns (o: Out<seq<bool>>)
    requires Valid(r) && InStream(r, k)
    ensures Valid(o.next) && SameStream(r, o.next)
    ensures ActualPosition(o.next) == ActualPosition(r) + k
    ensures |o.value| == k
    ensures forall i :: 0 <= i < k ==> (o.value[i] <==> Bit(r.src.data, StreamIndex(r) + i) == 1)
  {
    var cur, bits := r, [];
    while |bits| < k
      invariant |bits| <= k
      invariant Valid(cur) && SameStream(r, cur)
      invariant ActualPosition(cur) == ActualPosition(r) + |bits|
      invariant forall i :: 0 <= i < |bits| ==> (bits[i] <==> Bit(r.src.data, StreamIndex(r) + i) == 1)
    {
      assert StreamIndex(cur) == StreamIndex(r) + |bits|;
      var b := ReadBit(cur);
      bits := bits + [b.value];
      cur := b.next;
    }
    o := Out(cur, bits);
  }

  /** Eight ReadBit calls from a byte boundary rebuild the stream byte,
      least significant bit first. */
  method ReadByteAsBits(r: BitReader) returns (o: Out<seq<bool>>)
    requires Valid(r) && InStream(r, 8) && StreamIndex(r) % 8 == 0
    ensures Valid(o.next) && ActualPosition(o.next) == ActualPosition(r) + 8
    ensures StreamIndex(r) / 8 < |r.src.data|
    ensures |o.value| == 8 && BoolsValue(o.value) == r.src.data[StreamIndex(r) / 8]
  {
    o := ReadBitRun(r, 8);
    BoolsValueBits(o.value, r.src.data, StreamIndex(r));
    ByteAtAligned(r.src.data, StreamIndex(r) / 8, StreamIndex(r));
  }

  // ---------------------------------------------------------------------
  // Bytes

  /** At a byte boundary the buffer byte at the offset is the next stream byte. */
  lemma AlignedByte(r: BitReader)
    requires Valid(r) && InStream(r, 8)
    ensures r.offset / 8 < |r.buffer|
    ensures r.offset % 8 == 0 ==> r.buffer[r.offset / 8] == ByteAt(r.src.data, StreamIndex(r))
  {
    if r.offset % 8 == 0 {
      var k := r.offset / 8;
      assert StreamIndex(r) == 8 * (Base(r) + k);
      BufferByte(r, k);
      ByteAtAligned(r.src.data, Base(r) + k, StreamIndex(r));
    }
  }

  /** readByteInternal: without bitLevel take buffer byte offset >> 3 as it
      is, with it read 8 bits; then advance 8 bits. The result is the next
      stream byte whenever bitLevel is set or the offset is byte aligned. */
  method ReadByteInternal(r: BitReader, bitLevel: bool) returns (o: Out<byte>)
    requires Valid(r) && InStream(r, 8)
    ensures Advanced(r, o.next, 8)
    ensures (bitLevel || r.offset % 8 == 0) ==> o.value == ByteAt(r.src.data, StreamIndex(r))
  {
    if !bitLevel {
      AlignedByte(r);
      o := Out(Advance(r, 8), r.buffer[r.offset / 8]);
    } else {
      o := ReadBitsToByte(r, 8);
    }
  }

  /** ReadSingleByte: readByteInternal with bitLevel = offset & 7 != 0. */
  method ReadSingleByte(r: BitReader) returns (o: Out<byte>)
    requires Valid(r) && InStream(r, 8)
    ensures Advanced(r, o.next, 8)
    ensures o.value == ByteAt(r.src.data, StreamIndex(r))
  {
    o := ReadByteInternal(r, r.offset % 8 != 0);
  }

  /** The byte-by-byte loop of ReadNBytesInto and ReadBits: n calls of
      readByteInternal with the bitLevel fixed before the loop, appending
      to out. Whatever the alignment, it appends the next n stream bytes. */
  method ReadBytesLoop(r: BitReader, out: seq<byte>, n: nat, bitLevel: bool) returns (o: Out<seq<byte>>)
    requires Valid(r) && InStream(r, 8 * n) && bitLevel == (r.offset % 8 != 0)
    ensures Valid(o.next) && SameStream(r, o.next)
    ensures ActualPosition(o.next) == ActualPosition(r) + 8 * n
    ensures o.next.offset % 8 == r.offset % 8
    ensures o.value == out + BytesAt(r.src.data, StreamIndex(r), n)
  {
    var cur, acc, i := r, out, 0;
    while i < n
      invariant i <= n
      invariant Valid(cur) && SameStream(r, cur)
      invariant ActualPosition(cur) == ActualPosition(r) + 8 * i
      invariant cur.offset % 8 == r.offset % 8
      invariant acc == out + BytesAt(r.src.data, StreamIndex(r), i)
    {
      var b := ReadByteInternal(cur, bitLevel);
      BytesAtSnoc(r.src.data, StreamIndex(r), i, StreamIndex(cur));
      acc := acc + [b.value];
      cur := b.next;
      i := i + 1;
    }
    o := Out(cur, acc);
  }

  /** ReadNBytesInto: append the next n stream bytes to out, by the buffer
      slice when the offset is byte aligned and the bytes are buffered, and
      byte by byte otherwise. Both ways append the same bytes. */
  method ReadNBytesInto(r: BitReader, out: seq<byte>, n: nat) returns (o: Out<seq<byte>>)
    requires Valid(r) && InStream(r, 8 * n)
    ensures Valid(o.next) && SameStream(r, o.next)
    ensures ActualPosition(o.next) == ActualPosition(r) + 8 * n
    ensures o.next.offset % 8 == r.offset % 8
    ensures o.value == out + BytesAt(r.src.data, StreamIndex(r), n)
  {
    var bitLevel := r.offset % 8 != 0;
    if !bitLevel && r.offset + 8 * n < r.bitsInBuffer {
      FastPathBytes(r, n);
      o := Out(Advance(r, 8 * n), out + r.buffer[r.offset / 8..r.offset / 8 + n]);
    } else {
      o := ReadBytesLoop(r, out, n, bitLevel);
    }
  }

  /** The buffer slice of the shortcut is the next n stream bytes. */
  lemma FastPathBytes(r: BitReader, n: nat)
    requires Valid(r) && InStream(r, 8 * n)
    requires r.offset % 8 == 0 && r.offset + 8 * n < r.bitsInBuffer
    ensures r.offset / 8 + n <= |r.buffer|
    ensures r.buffer[r.offset / 8..r.offset / 8 + n] == BytesAt(r.src.data, StreamIndex(r), n)
  {
    var q := Base(r) + r.offset / 8;
    BufferRun(r, n);
    assert StreamIndex(r) == 8 * q;
    BytesAtAligned(r.src.data, q, n, StreamIndex(r));
  }

  /** ReadBytes: ReadNBytesInto on an empty slice. */
  method ReadBytes(r: BitReader, n: nat) returns (o: Out<seq<byte>>)
    requires Valid(r) && InStream(r, 8 * n)
    ensures Valid(o.next) && SameStream(r, o.next)
    ensures ActualPosition(o.next) == ActualPosition(r) + 8 * n
    ensures o.value == BytesAt(r.src.data, StreamIndex(r), n)
  {
    o := ReadNBytesInto(r, [], n);
  }

  /** Opening a reader on any bytes with any valid buffer size and reading
      them all gives them back. */
  method ReadAll(r: BitReader, data: seq<byte>, seekable: bool, bufferSize: nat) returns (bs: seq<byte>)
    requires Closed(r) && BufferShape(bufferSize)
    ensures bs == data
  {
    var o := ReadBytes(Open(r, data, seekable, bufferSize), |data|);
    BytesAtAligned(data, 0, |data|, 0);
    bs := o.value;
  }

  /** ReadBits(n): n >> 3 bytes by the byte loop, then, if n & 7 != 0, one
      more byte holding the remaining n & 7 bits. Read as a little-endian
      number the bytes are the next n stream bits. */
  method ReadBits(r: BitReader, n: nat) returns (o: Out<seq<byte>>)
    requires Valid(r) && InStream(r, n)
    ensures Valid(o.next) && SameStream(r, o.next)
    ensures ActualPosition(o.next) == ActualPosition(r) + n
    ensures |o.value| == (n + 7) / 8
    ensures o.value[..n / 8] == BytesAt(r.src.data, StreamIndex(r), n / 8)
    ensures n % 8 != 0 ==> o.value[n / 8] == BitsAt(r.src.data, StreamIndex(r) + 8 * (n / 8), n % 8)
    ensures LittleEndian(o.value, 0, |o.value|) == BitsAt(r.src.data, StreamIndex(r), n)
  {
    var whole := ReadBytesLoop(r, [], n / 8, r.offset % 8 != 0);
    o := ReadBitsTail(r, n, whole);
    BytesValue(o.value, n, r.src.data, StreamIndex(r));
  }

  /** The end of ReadBits: after the whole bytes, the byte holding the
      remaining n & 7 bits, if there are any. */
  method ReadBitsTail(r: BitReader, n: nat, whole: Out<seq<byte>>) returns (o: Out<seq<byte>>)
    requires Valid(r) && InStream(r, n)
    requires Valid(whole.next) && SameStream(r, whole.next)
    requires ActualPosition(whole.next) == ActualPosition(r) + 8 * (n / 8)
    requires whole.value == BytesAt(r.src.data, StreamIndex(r), n / 8)
    ensures Valid(o.next) && SameStream(r, o.next)
    ensures ActualPosition(o.next) == ActualPosition(r) + n
    ensures |o.value| == (n + 7) / 8
    ensures o.value[..n / 8] == BytesAt(r.src.data, StreamIndex(r), n / 8)
    ensures n % 8 != 0 ==> o.value[n / 8] == BitsAt(r.src.data, StreamIndex(r) + 8 * (n / 8), n % 8)
  {
    var k, m, p := n / 8, n % 8, StreamIndex(r);
    BytesForBits(n);
    assert StreamIndex(whole.next) == p + 8 * k;
    if m != 0 {
      var last := ReadBitsToByte(whole.next, m);
      o := Out(last.next, whole.value + [last.value]);
      assert o.value[..k] == whole.value && o.value[k] == last.value;
    } else {
      o := whole;
    }
  }

  /** The bytes of ReadBits, read as a little-endian number, are the n bits:
      n >> 3 whole bytes and then n & 7 bits. */
  lemma BytesValue(bs: seq<byte>, n: nat, s: seq<byte>, p: nat)
    requires p + n <= 8 * |s| && |bs| == (n + 7) / 8
    requires bs[..n / 8] == BytesAt(s, p, n / 8)
    requires n % 8 != 0 ==> bs[n / 8] == BitsAt(s, p + 8 * (n / 8), n % 8)
    ensures LittleEndian(bs, 0, |bs|) == BitsAt(s, p, n)
  {
    var k, m := n / 8, n % 8;
    BytesForBits(n);
    assert bs[0..k] == bs[..k];
    BytesAtValue(bs, 0, k, s, p);
    if m != 0 {
      LastByteValue(bs, k, s, p, m, n);
    } else {
      assert n == 8 * k;
    }
  }

  /** k whole bytes followed by a byte holding the next m < 8 bits, read
      little-endian, are the 8k + m bits. */
  lemma LastByteValue(bs: seq<byte>, k: nat, s: seq<byte>, p: nat, m: nat, n: nat)
    requires |bs| == k + 1 && n == 8 * k + m && p + n <= 8 * |s|
    requires LittleEndian(bs, 0, k) == BitsAt(s, p, 8 * k)
    requires bs[k] == BitsAt(s, p + 8 * k, m)
    ensures LittleEndian(bs, 0, k + 1) == BitsAt(s, p, n)
  {
    LittleEndianSplit(bs, 0, k, 1, k + 1, k);
    assert LittleEndian(bs, k, 1) == bs[k];
    BitsSplit(s, p, 8 * k, m);
  }

  /** bytes.IndexByte: the index of the first c in s, or -1 if there is none. */
  function IndexByte(s: seq<byte>, c: byte): (i: int)
    ensures -1 <= i < |s|
    ensures i == -1 <==> c !in s
    ensures 0 <= i ==> s[i] == c && c !in s[..i]
  {
    if |s| == 0 then -1
    else if s[0] == c then 0
    else
      var k := IndexByte(s[1..], c);
      assert s == [s[0]] + s[1..];
      if k < 0 then -1 else (assert s[..k + 1] == [s[0]] + s[1..][..k]; k + 1)
  }

  /** ReadCString(n): read n bytes and keep those before the first zero, or
      all n when there is none. */
  method ReadCString(r: BitReader, n: nat) returns (o: Out<seq<byte>>)
    requires Valid(r) && InStream(r, 8 * n)
    ensures Valid(o.next) && SameStream(r, o.next)
    ensures ActualPosition(o.next) == ActualPosition(r) + 8 * n
    ensures var bs := BytesAt(r.src.data, StreamIndex(r), n);
      && |o.value| <= n && o.value == bs[..|o.value|]
      && 0 !in o.value
      && (|o.value| < n ==> bs[|o.value|] == 0)
  {
    var b := ReadBytes(r, n);
    var end := IndexByte(b.value, 0);
    if end < 0 {
      end := n;
    }
    o := Out(b.next, b.value[..end]);
  }
}
