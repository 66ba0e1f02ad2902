/** The behaviours the package's tests exercise, stated for the model:
    32-bit round trips of ReadInt and ReadSignedInt, nibbles through
    ReadBitsToByte, positions after Open and ReadBit, the chunk lifecycle,
    a chunk overrun, the seek of EndChunk, and the ReadSignedInt(0)
    counterexample. Positions are absolute, so they carry the 8 * Sled = 32
    bits the offset starts at. */
module Scenarios {
  import opened Arith
  import opened Bits
  import opened IntStack
  import opened ByteSource
  import opened Reader
  import opened Decode
  import opened Chunk

  /** PutUint32 then ReadInt(32): the number comes back. */
  method ReadIntRoundTrip(r: BitReader, q: nat, u: nat) returns (v: nat)
    requires Valid(r) && StreamIndex(r) == 8 * q && u < 0x1_0000_0000
    requires q + 4 <= |r.src.data| && r.src.data[q..q + 4] == Encode32(u)
    ensures v == u
  {
    Word32Bits(r.src.data, q, u);
    var o := ReadInt(r, 32);
    v := o.value;
  }

  /** PutUint32(uint32(v)) then ReadSignedInt(32): the int32 comes back. */
  method ReadSignedIntRoundTrip(r: BitReader, q: nat, v: int) returns (w: int)
    requires Valid(r) && StreamIndex(r) == 8 * q && -0x8000_0000 <= v < 0x8000_0000
    requires q + 4 <= |r.src.data| && r.src.data[q..q + 4] == Encode32(v % 0x1_0000_0000)
    ensures w == v
  {
    Word32RoundTrip(r.src.data, q, v);
    var o := ReadSignedInt(r, 32);
    w := o.value;
  }

  /** ReadCString on a stream without a zero byte, asking for all of it,
      returns the whole stream. */
  method CStringWhole(r: BitReader, data: seq<byte>) returns (str: seq<byte>)
    requires Closed(r) && 0 !in data
    ensures str == data
  {
    var o := Open(r, data, true, 32);
    var c := ReadCString(o, |data|);
    BytesAtAligned(data, 0, |data|, 0);
    str := c.value;
  }

  /** The low nibble of a byte below 16 is the byte. */
  lemma LowNibble(s: seq<byte>, q: nat)
    requires q < |s| && s[q] < 16
    ensures BitsAt(s, 8 * q, 4) == s[q]
  {
    var j := 8 * q;
    ByteAtAligned(s, q, j);
    BitsSplit(s, j, 4, 4);
    var lo, hi := BitsAt(s, j, 4), BitsAt(s, j + 4, 4);
    assert Pow2(4) == 16;
    assert s[q] as nat == lo + 16 * hi;
    if hi > 0 {
      MulAtLeast(hi, 16);
    }
  }

  /** ReadBitsToByte(4) at a byte boundary returns a stream byte below 16,
      and a second ReadBitsToByte(4) moves on to the next byte. */
  method NibbleThenSkip(r: BitReader) returns (v: byte, o: BitReader)
    requires Valid(r) && InStream(r, 8) && StreamIndex(r) % 8 == 0
    requires r.src.data[StreamIndex(r) / 8] < 16
    ensures v == r.src.data[StreamIndex(r) / 8]
    ensures Valid(o) && StreamIndex(o) == StreamIndex(r) + 8
  {
    var a := ReadBitsToByte(r, 4);
    LowNibble(r.src.data, StreamIndex(r) / 8);
    var b := ReadBitsToByte(a.next, 4);
    v, o := a.value, b.next;
  }

  /** After Open on one byte the lazy position is 0 and the position 32;
      one ReadBit moves the position to 33 and, with no refill, leaves the
      lazy position at 0. */
  method PositionsAfterOpen(r: BitReader) returns (lazy0: int, actual0: int, lazy1: int, actual1: int)
    ensures lazy0 == 0 && actual0 == 32 && lazy1 == 0 && actual1 == 33
  {
    var o := Open(Close(r), [0xac], true, 32);
    assert o.offset == 32 && o.bitsInBuffer == 40;
    lazy0, actual0 := LazyPosition(o), ActualPosition(o);
    var b := ReadBit(o);
    lazy1, actual1 := LazyPosition(b.next), ActualPosition(b.next);
  }

  /** Open on one byte, BeginChunk(0), ReadBit: EndChunk reports the overrun. */
  method ChunkOverrun(r: BitReader) returns (overrun: bool)
    ensures overrun
  {
    var o := BeginChunk(Open(Close(r), [0x61], true, 32), 0);
    var b := ReadBit(o);
    overrun := EndChunk(b.next).Exceeded?;
  }

  /** Open "a", BeginChunk(2): after one bit the chunk is not finished,
      after two it is; EndChunk succeeds; after Close and a new Open,
      ReadBytes(1) gives "a" again. */
  method Lifecycle(r: BitReader) returns (afterOne: bool, afterTwo: bool, ended: bool, again: seq<byte>)
    ensures !afterOne && afterTwo && ended && again == [0x61]
  {
    var done;
    afterOne, afterTwo, ended, done := TwoBitChunk(r);
    again := ReadAfterReopen(done);
  }

  /** Open "a", BeginChunk(2), then two ReadBits with ChunkFinished after
      each, then EndChunk. */
  method TwoBitChunk(r: BitReader) returns (afterOne: bool, afterTwo: bool, ended: bool, done: BitReader)
    ensures !afterOne && afterTwo && ended
  {
    var o := BeginChunk(Open(Close(r), [0x61], true, 32), 2);
    var b1 := ReadBit(o);
    afterOne := ChunkFinished(b1.next);
    var b2 := ReadBit(b1.next);
    afterTwo := ChunkFinished(b2.next);
    var e := EndChunk(b2.next);
    ended := e.Ended?;
    done := if e.Ended? then e.next else b2.next;
  }

  /** Close, Open "a" again, ReadBytes(1): "a". */
  method ReadAfterReopen(r: BitReader) returns (again: seq<byte>)
    ensures again == [0x61]
  {
    var reopened := Open(Close(r), [0x61], true, 32);
    var bs := ReadBytes(reopened, 1);
    ByteAtAligned([0x61], 0, 0);
    again := bs.value;
  }

  /** The bytes 0, 1, ..., 254. */
  function Counting(): (s: seq<byte>)
    ensures |s| == 255 && forall i :: 0 <= i < 255 ==> s[i] == i
  {
    seq(255, i requires 0 <= i < 255 => i as byte)
  }

  /** On the bytes 0..254 with a 32-byte buffer: BeginChunk(2), ReadBit,
      EndChunk lands 2 bits in, by advance inside the 28 buffered bytes. */
  method ShortChunk(r: BitReader) returns (r1: BitReader)
    ensures Valid(r1) && r1.src.data == Counting() && r1.src.seekable
    ensures ActualPosition(r1) == 32 + 2 && r1.chunkTargets == []
    ensures LazyPosition(r1) == 0 && r1.bitsInBuffer == 8 * 28
  {
    var o := BeginChunk(Open(Close(r), Counting(), true, 32), 2);
    var b := ReadBit(o);
    var e := EndChunk(b.next);
    r1 := e.next;
  }

  /** Then BeginChunk(256), EndChunk skips beyond the buffer (by the seek)
      to 258 bits in, with the lazy position at the refill point 256 bits in;
      ReadBits(6) reaches byte 33, which ReadSingleByte then returns. */
  method ChunkSeek(r: BitReader) returns (first: int, second: int, lazy: int, v: byte)
    ensures first == 32 + 2 && second == 32 + 258 && lazy == 32 + 256 && v == 33
  {
    var r1 := ShortChunk(r);
    first := ActualPosition(r1);
    var r2 := LongChunk(r1);
    second, lazy := ActualPosition(r2), LazyPosition(r2);
    var bits := ReadBits(r2, 6);
    var last := ReadSingleByte(bits.next);
    ByteAtAligned(r1.src.data, 33, StreamIndex(bits.next));
    v := last.value;
  }

  /** BeginChunk(256) and EndChunk 2 bits in: 256 bits exceed the 190
      buffered ones plus the sled, so the reader seeks, and lands 2 bits
      past a refill point. */
  method LongChunk(r1: BitReader) returns (r2: BitReader)
    requires Valid(r1) && r1.src.data == Counting() && r1.src.seekable
    requires ActualPosition(r1) == 32 + 2 && r1.chunkTargets == []
    requires LazyPosition(r1) == 0 && r1.bitsInBuffer == 8 * 28
    ensures Valid(r2) && r2.src.data == Counting()
    ensures ActualPosition(r2) == 32 + 258 && LazyPosition(r2) == 32 + 256
  {
    var c := BeginChunk(r1, 256);
    var e := EndChunk(c);
    assert e == Ended(SeekSkip(c.(chunkTargets := []), 256));
    r2 := e.next;
  }

  /** The ReadSignedInt(0) discrepancy on a concrete stream: after one bit
      of 0xff, the code's ReadSignedInt(0) returns -1 and the corrected one 0. */
  method SignedZeroWidthExample(r: BitReader) returns (asWritten: int, corrected: int)
    ensures asWritten == -1 && corrected == 0
  {
    var o := Open(Close(r), [0xff], false, 32);
    assert Halve(0xff, 0) == 0xff;
    var one := ReadBit(o);
    var b := one.next;
    assert b.offset == 33;
    ReadSignedIntZeroWidthStream(b);
    asWritten := SignedIntField(b, 0);
    var z := ReadSignedInt(b, 0);
    corrected := z.value;
  }

  /** The bytes 10, 11, ..., 29. */
  function Tens(): (s: seq<byte>)
    ensures |s| == 20 && forall i :: 0 <= i < 20 ==> s[i] == 10 + i
  {
    seq(20, i requires 0 <= i < 20 => (10 + i) as byte)
  }

  /** The reader Open(10..29, 12-byte buffer) gives, when 32 bits later its
      offset reaches the buffered bits: 10..17 behind the zeroed sled. */
  function TensAt64(): (r: BitReader)
    ensures Counters(r) && r.offset >= r.bitsInBuffer
  {
    BitReader(Source(Tens(), 8, false), [0, 0, 0, 0, 10, 11, 12, 13, 14, 15, 16, 17], 64, 64, 0, [])
  }

  /** Open on 10..29 with a 12-byte buffer buffers 10..17 behind the sled. */
  lemma OpenTens(r: BitReader)
    ensures Open(Close(r), Tens(), false, 12) == TensAt64().(offset := 32)
  {
    var o := Open(Close(r), Tens(), false, 12);
    assert o.buffer == [0, 0, 0, 0] + Tens()[0..8];
    assert Tens()[0..8] == [10, 11, 12, 13, 14, 15, 16, 17];
  }

  /** The refill at 64 bits whose Read returns only 18, 19 (an io.Reader
      may): 6 bytes, 14..19, are counted, the sled is treated as consumable,
      and the 4 buffer bytes after them still hold 12..15. */
  lemma ShortRefill()
    ensures RefillWith(TensAt64(), [18, 19])
      == BitReader(Source(Tens(), 10, false), [14, 15, 16, 17, 18, 19, 12, 13, 14, 15, 16, 17], 0, 48, 64, [])
  {
  }

  /** A short Read taken for the end of the stream: when the 6 counted
      bytes are used up, the next refill copies the stale 12..15 to the
      front as stream bytes 10..13, whose values are 20..23, so the reader
      is no longer coherent with its stream. */
  lemma ShortReadStale()
    ensures var r1 := BitReader(Source(Tens(), 10, false), [14, 15, 16, 17, 18, 19, 12, 13, 14, 15, 16, 17], 48, 48, 64, []);
      var r2 := RefillWith(r1, Tens()[10..18]);
      && Base(r2) == 10 && r2.src.pos == 18
      && r2.buffer[..4] == [12, 13, 14, 15] && Tens()[10..14] == [20, 21, 22, 23]
      && !Coherent(r2)
  {
    var r1 := BitReader(Source(Tens(), 10, false), [14, 15, 16, 17, 18, 19, 12, 13, 14, 15, 16, 17], 48, 48, 64, []);
    var r2 := RefillWith(r1, Tens()[10..18]);
    assert r2.buffer[..4] == r1.buffer[6..10];
    assert r2.buffer[0] == 12 && Tens()[10] == 20;
  }
}
