/** The BitReader's state and its sliding buffer: opening, closing, the
    refill that carries the 4-byte sled over to the next window, and advance.

    Buffer byte i holds stream byte Base(r) + i, where Base(r) is
    lazyPosition / 8 - Sled, for every such byte the source has already
    delivered. The reader's bit position in the stream is
    ActualPosition - 8 * Sled, because Open leaves offset at 8 * Sled. */
module Reader {
  import opened Arith
  import opened Bits
  import opened IntStack
  import opened ByteSource

  /** Bytes kept at the front of the buffer from the previous window. */
  const Sled: nat := 4

  datatype BitReader = BitReader(
    src: Source,
    buffer: seq<byte>,
    offset: int,
    bitsInBuffer: int,
    lazyPosition: int,
    chunkTargets: Stack)

  /** The reader after an operation, and what the operation returned. */
  datatype Out<T> = Out(next: BitReader, value: T)

  /** Buffer lengths the reader works with: a multiple of 4 (so that the
      aligned 8-byte load of ReadInt stays inside) and more than 2 * Sled (so
      that every refill buffers something and advance terminates). */
  predicate BufferShape(len: nat)
  {
    len % 4 == 0 && len > 2 * Sled
  }

  /** The bit position at the last refill. */
  function LazyPosition(r: BitReader): int
  {
    r.lazyPosition
  }

  /** The bit position: the position at the last refill plus the offset into
      the buffer. */
  function ActualPosition(r: BitReader): int
  {
    LazyPosition(r) + r.offset
  }

  /** The index in the source's bytes of the next bit to read. */
  function StreamIndex(r: BitReader): int
  {
    ActualPosition(r) - 8 * Sled
  }

  /** The stream byte held by buffer byte 0. */
  function Base(r: BitReader): int
  {
    r.lazyPosition / 8 - Sled
  }

  /** Buffer byte i holds stream byte base + i for every such byte among the
      first pos, the ones the source has delivered. */
  predicate Window(buffer: seq<byte>, base: int, data: seq<byte>, pos: nat)
    requires pos <= |data|
  {
    forall i :: 0 <= i < |buffer| && 0 <= base + i < pos ==> buffer[i] == data[base + i]
  }

  /** Every buffer byte whose stream byte the source has delivered holds it. */
  predicate Coherent(r: BitReader)
    requires r.src.Source? && r.src.pos <= |r.src.data|
  {
    Window(r.buffer, Base(r), r.src.data, r.src.pos)
  }

  /** The invariant of the counters, whatever the offset. */
  predicate Counters(r: BitReader)
  {
    && r.src.Source?
    && BufferShape(|r.buffer|)
    && 0 <= r.offset
    && 0 <= r.lazyPosition && r.lazyPosition % 8 == 0
    && r.bitsInBuffer % 8 == 0 && 0 <= r.bitsInBuffer <= 8 * (|r.buffer| - Sled)
    && r.src.pos <= |r.src.data|
    // the source has delivered at most up to 4 bytes (the sled) past the
    // end of the buffered bits, and exactly that far unless it is exhausted
    && r.src.pos <= r.lazyPosition / 8 + r.bitsInBuffer / 8
    && (r.src.pos < |r.src.data| ==> r.src.pos == r.lazyPosition / 8 + r.bitsInBuffer / 8)
  }

  /** In stream bytes: unless the source is exhausted, it has delivered the
      buffered bits and the 4 bytes (the sled) after them, and no more. */
  lemma DeliveredThroughSled(r: BitReader)
    requires Counters(r) && r.src.pos < |r.src.data|
    ensures r.src.pos == Base(r) + r.bitsInBuffer / 8 + Sled
  {
  }

  /** The invariant of the counters and the buffer, whatever the offset. */
  predicate ValidCore(r: BitReader)
  {
    Counters(r) && Coherent(r)
  }

  /** The invariant between operations of an open reader. */
  predicate Valid(r: BitReader)
  {
    && ValidCore(r)
    && r.offset < 8 * (|r.buffer| - Sled)
    && 8 * Sled <= ActualPosition(r)
    && StreamIndex(r) <= 8 * |r.src.data|
    && (r.offset <= r.bitsInBuffer || r.src.pos == |r.src.data|)
  }

  /** The next n bits lie inside the stream. */
  predicate InStream(r: BitReader, n: nat)
    requires r.src.Source?
  {
    StreamIndex(r) + n <= 8 * |r.src.data|
  }

  /** Same stream, same source kind, same buffer length, same chunk stack. */
  predicate SameStream(r: BitReader, r': BitReader)
  {
    && r.src.Source? && r'.src.Source?
    && r'.src.data == r.src.data && r'.src.seekable == r.src.seekable
    && |r'.buffer| == |r.buffer|
    && r'.chunkTargets == r.chunkTargets
  }

  /** The invariant of the counters and the buffer does not depend on the offset. */
  lemma OffsetOnly(r: BitReader, o: int)
    requires ValidCore(r) && 0 <= o
    ensures ValidCore(r.(offset := o))
  {
    var r' := r.(offset := o);
    assert r'.buffer == r.buffer && r'.src == r.src && Base(r') == Base(r);
  }

  // ---------------------------------------------------------------------
  // refillBuffer and advance

  /** refillBuffer, given the bytes its one Read call returned: copy the
      sled (the 4 bytes after the buffered bits) to the front, move
      bitsInBuffer from offset into lazyPosition, put got behind the sled,
      and count it; a read shorter than len - 2 * Sled bytes also counts the
      sled as consumable, i.e. it is taken for the end of the stream. An
      io.Reader may deliver any next |got| <= len - Sled bytes. */
  function RefillWith(r: BitReader, got: seq<byte>): (r': BitReader)
    requires r.src.Source? && 0 <= r.bitsInBuffer && r.bitsInBuffer % 8 == 0
    requires r.bitsInBuffer / 8 + Sled <= |r.buffer| && Sled + |got| <= |r.buffer|
    requires |got| <= Remaining(r.src)
    requires forall i :: 0 <= i < |got| ==> r.src.pos + i < |r.src.data| && got[i] == r.src.data[r.src.pos + i]
    ensures SameStream(r, r')
    ensures r'.lazyPosition == r.lazyPosition + r.bitsInBuffer && r'.offset == r.offset - r.bitsInBuffer
    ensures r'.src.pos == r.src.pos + |got|
    ensures r'.bitsInBuffer == 8 * |got| + (if |got| < |r.buffer| - 2 * Sled then 8 * Sled else 0)
  {
    var b := r.bitsInBuffer / 8;
    // copy(buffer[0:Sled], buffer[b:b+Sled]), then Read into buffer[Sled:]
    var buf := r.buffer[b..b + Sled] + got + r.buffer[Sled + |got|..];
    var bits := 8 * |got| + (if |got| < |r.buffer| - 2 * Sled then 8 * Sled else 0);
    BitReader(r.src.(pos := r.src.pos + |got|), buf, r.offset - r.bitsInBuffer, bits,
      r.lazyPosition + r.bitsInBuffer, r.chunkTargets)
  }

  /** refillBuffer on a source whose Read fills the slice unless the stream
      ends (as bytes.Reader and io.ReadFull do): it reads k = min(len - 4,
      remaining) bytes. RefillValid states that it keeps the invariant. */
  function Refill(r: BitReader): (r': BitReader)
    requires ValidCore(r) && r.offset >= r.bitsInBuffer
    ensures SameStream(r, r')
    ensures r'.lazyPosition == r.lazyPosition + r.bitsInBuffer
    ensures r'.offset == r.offset - r.bitsInBuffer && r'.offset % 8 == r.offset % 8
    ensures var k := Min(|r.buffer| - Sled, Remaining(r.src));
      r'.src.pos == r.src.pos + k && r'.bitsInBuffer == 8 * k + (if k < |r.buffer| - 2 * Sled then 8 * Sled else 0)
  {
    SubMultiple(r.offset, r.bitsInBuffer, 8);
    RefillWith(r, Read(r.src, |r.buffer| - Sled).1)
  }

  /** The counters after a refill: at least the sled is buffered, and the
      source has delivered exactly the buffered bytes and the sled after
      them unless it ran dry. */
  lemma RefillCounters(r: BitReader)
    requires ValidCore(r) && r.offset >= r.bitsInBuffer
    ensures Counters(Refill(r)) && Refill(r).bitsInBuffer >= 8 * Sled
  {
    var k := Min(|r.buffer| - Sled, Remaining(r.src));
    var extra := if k < |r.buffer| - 2 * Sled then Sled else 0;
    DivAddMultiple(r.lazyPosition, r.bitsInBuffer, 8);
    DivModAdd(0, 8, k + extra);
    assert Refill(r).bitsInBuffer == 8 * (k + extra);
  }

  /** The window after a refill: the 4 bytes at b move to the front, the
      new bytes follow them, and the window's base moves b bytes on. */
  lemma RefillWindow(buffer: seq<byte>, base: int, data: seq<byte>, pos: nat, b: nat, got: seq<byte>)
    requires pos <= |data| && Window(buffer, base, data, pos)
    requires b + Sled <= |buffer| && Sled + |got| <= |buffer|
    requires pos <= base + Sled + b && (pos < |data| ==> pos == base + Sled + b)
    requires |got| > 0 ==> pos < |data|
    requires pos + |got| <= |data| && forall i :: 0 <= i < |got| ==> got[i] == data[pos + i]
    ensures Window(buffer[b..b + Sled] + got + buffer[Sled + |got|..], base + b, data, pos + |got|)
  {
    var buf := buffer[b..b + Sled] + got + buffer[Sled + |got|..];
    forall i | 0 <= i < |buf| && 0 <= base + b + i < pos + |got|
      ensures buf[i] == data[base + b + i]
    {
      if i < Sled {
        assert buf[i] == buffer[b + i];
      } else {
        assert buf[i] == got[i - Sled];
      }
    }
  }

  /** After a refill the sled holds the bytes that followed the old buffered
      bits and the new bytes follow it. */
  lemma RefillCoherent(r: BitReader)
    requires ValidCore(r) && r.offset >= r.bitsInBuffer
    ensures Refill(r).src.pos <= |Refill(r).src.data| && Coherent(Refill(r))
  {
    var got := Read(r.src, |r.buffer| - Sled).1;
    assert Refill(r) == RefillWith(r, got);
    RefillWithCoherent(r, got);
  }

  /** The same for any next bytes the Read call returned: the window stays
      coherent (it is the counting of a short read that goes wrong). */
  lemma RefillWithCoherent(r: BitReader, got: seq<byte>)
    requires ValidCore(r) && Sled + |got| <= |r.buffer| && |got| <= Remaining(r.src)
    requires forall i :: 0 <= i < |got| ==> r.src.pos + i < |r.src.data| && got[i] == r.src.data[r.src.pos + i]
    ensures RefillWith(r, got).src.pos <= |r.src.data| && Coherent(RefillWith(r, got))
  {
    var b := r.bitsInBuffer / 8;
    RefillWindow(r.buffer, Base(r), r.src.data, r.src.pos, b, got);
    DivAddMultiple(r.lazyPosition, r.bitsInBuffer, 8);
    var r' := RefillWith(r, got);
    assert r'.buffer == r.buffer[b..b + Sled] + got + r.buffer[Sled + |got|..];
    assert Base(r') == Base(r) + b;
  }

  /** refillBuffer keeps the invariant and leaves at least the sled buffered. */
  lemma RefillValid(r: BitReader)
    requires ValidCore(r) && r.offset >= r.bitsInBuffer
    ensures ValidCore(Refill(r)) && Refill(r).bitsInBuffer >= 8 * Sled
  {
    RefillCounters(r);
    RefillCoherent(r);
  }

  /** The refill loop of advance: refill while the offset has reached the
      buffered bits. It ends with the offset inside the buffered bits and the
      position unchanged; without a refill nothing changes. */
  function RefillLoop(r: BitReader): (r': BitReader)
    requires ValidCore(r)
    ensures ValidCore(r') && SameStream(r, r')
    ensures ActualPosition(r') == ActualPosition(r)
    ensures 0 <= r'.offset < r'.bitsInBuffer
    ensures r'.offset % 8 == r.offset % 8
    ensures r.offset < r.bitsInBuffer ==> r' == r
    decreases r.offset + (if r.bitsInBuffer > 0 then 0 else 1)
  {
    if r.offset >= r.bitsInBuffer then RefillValid(r); RefillLoop(Refill(r)) else r
  }

  /** r' is r moved n bits on: valid, on the same stream, n bits further,
      with the offset's bit-in-byte phase moved by n, and, when the n bits
      end before the buffered ones, r with only the offset moved (no refill,
      so LazyPosition stays put). */
  predicate Advanced(r: BitReader, r': BitReader, n: nat)
  {
    && Valid(r') && SameStream(r, r')
    && ActualPosition(r') == ActualPosition(r) + n
    && r'.offset % 8 == (r.offset + n) % 8
    && (r.offset + n < r.bitsInBuffer ==> r' == r.(offset := r.offset + n))
  }

  /** advance: move the offset n bits on, then refill as needed. */
  function Advance(r: BitReader, n: nat): (r': BitReader)
    requires Valid(r) && InStream(r, n)
    ensures Advanced(r, r', n)
    ensures r'.offset < r'.bitsInBuffer
  {
    OffsetOnly(r, r.offset + n);
    RefillLoop(r.(offset := r.offset + n))
  }

  // ---------------------------------------------------------------------
  // Open and Close

  /** The counters of a new or closed reader. */
  predicate Closed(r: BitReader)
  {
    r.offset == 0 && r.bitsInBuffer == 0 && r.lazyPosition == 0
  }

  /** OpenWithBuffer: attach a source (the bytes it delivers and whether it
      can seek) and a buffer of any content, refill, and set the offset
      behind the sled. Reading starts at stream bit 0, i.e. at position 32. */
  function OpenWithBuffer(r: BitReader, data: seq<byte>, seekable: bool, buffer: seq<byte>): (r': BitReader)
    requires Closed(r) && BufferShape(|buffer|)
    ensures Valid(r')
    ensures r'.src.data == data && r'.src.seekable == seekable
    ensures |r'.buffer| == |buffer| && r'.chunkTargets == r.chunkTargets
    ensures LazyPosition(r') == 0 && ActualPosition(r') == 8 * Sled && StreamIndex(r') == 0
    ensures var k := Min(|data|, |buffer| - Sled);
      r'.bitsInBuffer == 8 * k + (if k < |buffer| - 2 * Sled then 8 * Sled else 0)
  {
    var r0 := r.(src := Source(data, 0, seekable), buffer := buffer);
    RefillValid(r0);
    OffsetOnly(Refill(r0), 8 * Sled);
    Refill(r0).(offset := 8 * Sled)
  }

  /** Open: OpenWithBuffer with a new zeroed buffer of bufferSize bytes. */
  function Open(r: BitReader, data: seq<byte>, seekable: bool, bufferSize: nat): (r': BitReader)
    requires Closed(r) && BufferShape(bufferSize)
    ensures Valid(r') && r'.src.data == data && r'.src.seekable == seekable
    ensures |r'.buffer| == bufferSize && r'.chunkTargets == r.chunkTargets
    ensures LazyPosition(r') == 0 && StreamIndex(r') == 0
    ensures var k := Min(|data|, bufferSize - Sled);
      r'.bitsInBuffer == 8 * k + (if k < bufferSize - 2 * Sled then 8 * Sled else 0)
  {
    OpenWithBuffer(r, data, seekable, seq(bufferSize, _ => 0))
  }

  /** Close: drop the source and the buffer and reset the counters and the
      chunk stack, so that the reader can be opened again. */
  function Close(r: BitReader): (r': BitReader)
    ensures Closed(r') && r'.chunkTargets == [] && r'.src == NoSource && r'.buffer == []
  {
    BitReader(NoSource, [], 0, 0, 0, [])
  }

  // ---------------------------------------------------------------------
  // The buffer agrees with the stream

  /** A buffer byte among those the next 32 bits touch holds its stream byte. */
  lemma BufferByte(r: BitReader, k: nat)
    requires Valid(r)
    requires r.offset / 8 <= k && 8 * k < r.offset + 32 && Base(r) + k < |r.src.data|
    ensures k < |r.buffer| && 0 <= Base(r) + k < r.src.pos
    ensures r.buffer[k] == r.src.data[Base(r) + k]
  {
    assert (r.lazyPosition + r.offset) / 8 == r.lazyPosition / 8 + r.offset / 8;
  }

  /** A bit among the next 32 that lies inside the stream is the stream's bit. */
  lemma BufferBit(r: BitReader, i: nat)
    requires Valid(r)
    requires r.offset <= i < r.offset + 32 && i - r.offset + StreamIndex(r) < 8 * |r.src.data|
    ensures i < 8 * |r.buffer| && 0 <= i - r.offset + StreamIndex(r)
    ensures Bit(r.buffer, i) == Bit(r.src.data, i - r.offset + StreamIndex(r))
  {
    var k := i / 8;
    var j := i - r.offset + StreamIndex(r);
    assert j == 8 * (Base(r) + k) + i % 8;
    BufferByte(r, k);
    BitSpec(r.buffer, i);
    BitSpec(r.src.data, j);
    assert j / 8 == Base(r) + k && j % 8 == i % 8;
  }

  /** The bit just below the offset, when it lies inside the stream, is
      the stream bit just before the position: it was delivered before the
      current one, and the buffer byte holding it has not been overwritten. */
  lemma PreviousBit(r: BitReader)
    requires Valid(r) && r.offset >= 1 && StreamIndex(r) >= 1
    ensures r.offset - 1 < 8 * |r.buffer| && StreamIndex(r) - 1 < 8 * |r.src.data|
    ensures Bit(r.buffer, r.offset - 1) == Bit(r.src.data, StreamIndex(r) - 1)
  {
    var i, j := r.offset - 1, StreamIndex(r) - 1;
    var k := i / 8;
    assert j == 8 * (Base(r) + k) + i % 8;
    assert 0 <= Base(r) + k < r.src.pos;
    assert r.buffer[k] == r.src.data[Base(r) + k];
    BitSpec(r.buffer, i);
    BitSpec(r.src.data, j);
    assert j / 8 == Base(r) + k && j % 8 == i % 8;
  }

  /** The next n <= 32 bits of the buffer are the next n bits of the stream. */
  lemma BufferBits(r: BitReader, n: nat)
    requires Valid(r) && InStream(r, n) && n <= 32
    ensures r.offset + n <= 8 * |r.buffer|
    ensures BitsAt(r.buffer, r.offset, n) == BitsAt(r.src.data, StreamIndex(r), n)
  {
    forall i | r.offset <= i < r.offset + n
      ensures Bit(r.buffer, i) == Bit(r.src.data, i - r.offset + StreamIndex(r))
    {
      BufferBit(r, i);
    }
    BitsAgree(r.buffer, r.offset, r.src.data, StreamIndex(r), n);
  }

  /** From a byte-aligned offset, n buffered bytes that end before the
      buffered bits do are the next n stream bytes. */
  lemma BufferRun(r: BitReader, n: nat)
    requires Valid(r) && InStream(r, 8 * n)
    requires r.offset % 8 == 0 && r.offset + 8 * n < r.bitsInBuffer
    ensures r.offset / 8 + n <= |r.buffer| && 0 <= Base(r) + r.offset / 8
    ensures Base(r) + r.offset / 8 + n <= |r.src.data|
    ensures r.buffer[r.offset / 8..r.offset / 8 + n]
      == r.src.data[Base(r) + r.offset / 8..Base(r) + r.offset / 8 + n]
  {
    var k, q := r.offset / 8, Base(r) + r.offset / 8;
    assert StreamIndex(r) == 8 * q;
    assert q + n <= r.src.pos;
    var got, want := r.buffer[k..k + n], r.src.data[q..q + n];
    forall i | 0 <= i < n
      ensures got[i] == want[i]
    {
      assert 0 <= Base(r) + (k + i) < r.src.pos;
    }
  }
}
