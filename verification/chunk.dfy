/** Chunks: BeginChunk pushes the bit position where a chunk ends,
    ChunkFinished compares it with the current position, and EndChunk pops
    it and moves there, by a seek of the source when that skips more than
    the buffer holds and by advance otherwise. */
module Chunk {
  import opened Arith
  import opened Bits
  import opened IntStack
  import opened ByteSource
  import opened Reader

  /** The outcome of EndChunk: the reader at the end of the chunk, or the
      panic raised when reading already went past it. */
  datatype Ended =
    | Ended(next: BitReader)
    | Exceeded

  /** BeginChunk(length): push ActualPosition + length (in bits). */
  function BeginChunk(r: BitReader, length: int): (r': BitReader)
    ensures |r'.chunkTargets| == |r.chunkTargets| + 1
    ensures Top(r'.chunkTargets) == ActualPosition(r) + length
    ensures Pop(r'.chunkTargets).0 == r.chunkTargets
    ensures r'.(chunkTargets := r.chunkTargets) == r
    ensures Valid(r) ==> Valid(r')
  {
    PopPush(r.chunkTargets, ActualPosition(r) + length);
    r.(chunkTargets := Push(r.chunkTargets, ActualPosition(r) + length))
  }

  /** ChunkFinished: the innermost chunk ends exactly here. */
  function ChunkFinished(r: BitReader): (b: bool)
    requires |r.chunkTargets| > 0
    ensures b <==> r.chunkTargets[|r.chunkTargets| - 1] == ActualPosition(r)
  {
    Top(r.chunkTargets) == ActualPosition(r)
  }

  /** After BeginChunk(length) and reads of k bits in all, the chunk is
      finished exactly when k is length. */
  lemma ChunkFinishedAfter(r: BitReader, length: int, r2: BitReader, k: nat)
    requires SameStream(BeginChunk(r, length), r2)
    requires ActualPosition(r2) == ActualPosition(r) + k
    ensures |r2.chunkTargets| > 0
    ensures ChunkFinished(r2) <==> k == length
  {
  }

  /** The innermost chunk ends inside the stream. */
  predicate ChunkInStream(r: BitReader)
    requires r.src.Source? && |r.chunkTargets| > 0
  {
    Top(r.chunkTargets) - 8 * Sled <= 8 * |r.src.data|
  }

  /** EndChunk: pop the target; panic if the position is past it; else, if
      it is ahead, a seekable source that must skip more than the buffered
      bits plus the sled seeks, and any other source advances. Either way
      the reader ends valid, exactly at the target, on the popped stack. */
  function EndChunk(r: BitReader): (e: Ended)
    requires Valid(r) && |r.chunkTargets| > 0 && ChunkInStream(r)
    ensures e.Exceeded? <==> Top(r.chunkTargets) < ActualPosition(r)
    ensures e.Ended? ==> Valid(e.next) && ActualPosition(e.next) == Top(r.chunkTargets)
    ensures e.Ended? ==> e.next.chunkTargets == Pop(r.chunkTargets).0
    ensures e.Ended? ==> e.next.src.data == r.src.data && e.next.src.seekable == r.src.seekable
    ensures e.Ended? ==> |e.next.buffer| == |r.buffer|
  {
    var (rest, target) := Pop(r.chunkTargets);
    var r1 := r.(chunkTargets := rest);
    var delta := target - ActualPosition(r);
    if delta < 0 then Exceeded
    else if delta == 0 then Ended(r1)
    else if r.src.seekable && delta > r.bitsInBuffer - r.offset + 8 * Sled then
      Ended(SeekSkip(r1, delta))
    else
      Ended(Advance(r1, delta))
  }

  /** After BeginChunk(length), on a chunk that ends inside the stream, and
      reads of k bits in all: EndChunk panics exactly when k exceeds
      length, and otherwise lands length bits past where the chunk began,
      on the stack as it was before BeginChunk. */
  lemma EndChunkAfter(r: BitReader, length: int, r2: BitReader, k: nat)
    requires Valid(r) && Valid(r2) && StreamIndex(r) + length <= 8 * |r.src.data|
    requires SameStream(BeginChunk(r, length), r2)
    requires ActualPosition(r2) == ActualPosition(r) + k
    ensures |r2.chunkTargets| > 0 && ChunkInStream(r2)
    ensures EndChunk(r2).Exceeded? <==> k > length
    ensures EndChunk(r2).Ended? ==> ActualPosition(EndChunk(r2).next) == ActualPosition(r) + length
    ensures EndChunk(r2).Ended? ==> EndChunk(r2).next.chunkTargets == r.chunkTargets
  {
  }

  /** The seek of EndChunk, for a skip of delta bits beyond the buffered
      ones plus the sled: seek forward by (skip >> 3) - sled bytes, read a
      whole buffer, count all but the last sled bytes (all of them when at
      most a sled came), and set the offset to skip & 7 and lazyPosition so
      that the position is the target. */
  function SeekSkip(r: BitReader, delta: nat): (r': BitReader)
    requires Valid(r) && r.src.seekable && InStream(r, delta)
    requires delta > r.bitsInBuffer - r.offset + 8 * Sled
    ensures Valid(r') && SameStream(r, r')
    ensures ActualPosition(r') == ActualPosition(r) + delta
    ensures r'.offset == (delta - (r.bitsInBuffer - r.offset)) % 8
  {
    var skip := delta - (r.bitsInBuffer - r.offset);
    SeekTarget(r, delta);
    var p := r.src.pos + skip / 8 - Sled;
    var s1 := Seek(r.src, skip / 8 - Sled);
    var (s2, got) := Read(s1, |r.buffer|);
    var nb := |got|;
    var bits := 8 * (nb - Sled) + (if nb <= Sled then 8 * Sled else 0);
    var offset := skip % 8;
    var r' := BitReader(s2, got + r.buffer[nb..], offset, bits,
      ActualPosition(r) + delta - offset, r.chunkTargets);
    LoadWindow(got, r.buffer[nb..], p, r.src.data);
    LoadedValid(r', p, nb);
    r'
  }

  /** Where the seek lands: the source has delivered the buffered bits and
      the 4 sled bytes after them (so the seek is relative to the stream
      byte lazyPosition / 8 + bitsInBuffer / 8), the seek goes forward to a
      position inside the stream, and the target is 8 * that position plus
      skip & 7 in stream bits. */
  lemma SeekTarget(r: BitReader, delta: nat)
    requires Valid(r) && InStream(r, delta)
    requires delta > r.bitsInBuffer - r.offset + 8 * Sled
    ensures var skip := delta - (r.bitsInBuffer - r.offset);
      && skip > 8 * Sled
      && r.src.pos == r.lazyPosition / 8 + r.bitsInBuffer / 8
      && r.src.pos <= r.src.pos + skip / 8 - Sled <= |r.src.data|
      && StreamIndex(r) + delta == 8 * (r.src.pos + skip / 8 - Sled) + skip % 8
  {
    var skip := delta - (r.bitsInBuffer - r.offset);
    var lb := r.lazyPosition / 8 + r.bitsInBuffer / 8;
    assert r.lazyPosition + r.bitsInBuffer == 8 * lb;
    assert StreamIndex(r) + delta == 8 * lb - 8 * Sled + skip;
    assert r.src.pos < |r.src.data|;
    assert skip == 8 * (skip / 8) + skip % 8;
  }

  /** A reader whose buffer was loaded with nb bytes from stream byte p on,
      counting them as SeekSkip does, at an offset below 8, is valid and
      at stream bit 8p + offset. */
  lemma LoadedValid(r: BitReader, p: nat, nb: nat)
    requires r.src.Source? && BufferShape(|r.buffer|)
    requires nb <= |r.buffer| && r.src.pos == p + nb <= |r.src.data|
    requires nb < |r.buffer| ==> r.src.pos == |r.src.data|
    requires Window(r.buffer, p, r.src.data, p + nb)
    requires r.bitsInBuffer == 8 * (nb - Sled) + (if nb <= Sled then 8 * Sled else 0)
    requires 0 <= r.offset < 8 && r.lazyPosition == 8 * (p + Sled)
    requires 8 * p + r.offset <= 8 * |r.src.data|
    ensures Valid(r) && StreamIndex(r) == 8 * p + r.offset
  {
    DivModAdd(0, 8, p + Sled);
    DivModAdd(0, 8, r.bitsInBuffer / 8);
    assert Base(r) == p;
  }

  /** Bytes read from stream byte base on, followed by anything, hold their
      stream bytes. */
  lemma LoadWindow(got: seq<byte>, rest: seq<byte>, base: nat, data: seq<byte>)
    requires base + |got| <= |data|
    requires forall i :: 0 <= i < |got| ==> got[i] == data[base + i]
    ensures Window(got + rest, base, data, base + |got|)
  {
    var buf := got + rest;
    forall i | 0 <= i < |buf| && 0 <= base + i < base + |got|
      ensures buf[i] == data[base + i]
    {
      assert buf[i] == got[i];
    }
  }
}
