# gobitread BitReader in Dafny

A model of the `BitReader` of the Go package `bitread`. It is a buffered cursor
over a byte source that reads bits least-significant first. It reads single
bits, n-bit unsigned and signed integers, bytes, runs of bytes and C strings.
It also keeps a stack of chunk end positions.

The reader is an immutable record `Reader.BitReader`. Its fields are the source,
the buffer, `offset`, `bitsInBuffer`, `lazyPosition` and the chunk stack. Every
operation is a function or method from a reader to its result:
- the decoders return the next reader and the value read (`Reader.Out`);
- Open, OpenWithBuffer, Close and BeginChunk return the next reader;
- EndChunk returns the next reader or the panic (`Chunk.Ended`).

The source is modelled on a `bytes.Reader` (`ByteSource.Source`):
- the bytes it will deliver;
- how many it has delivered;
- whether it is also an `io.Seeker`.

Every decoder is stated against one reference meaning: bit `p` of the stream
(`Bits.Bit`) and the number that n bits from `p` spell, least significant first
(`Bits.BitsAt`). The stream bit index is `StreamIndex = ActualPosition - 32`,
because `OpenWithBuffer` leaves `offset` at `sled << 3`.

The invariant `Reader.Valid` links the buffer to the stream:
- buffer byte `i` holds stream byte `lazyPosition / 8 - 4 + i` whenever the source has already delivered that byte;
- unless it ran dry, the source has delivered the buffered bits and the 4 bytes (the sled) after them, and no more (`Reader.DeliveredThroughSled`).

Files:
- `arith.dfy`: powers of two and div/mod facts.
- `bits.dfy`: the bit and byte reference meaning and the 64-bit shift expressions.
- `stack.dfy`: the chunk stack.
- `source.dfy`: the byte source.
- `reader.dfy`: the state, refill, advance, Open and Close.
- `decode.dfy`: the decoders.
- `chunk.dfy`: BeginChunk, ChunkFinished and EndChunk.
- `scenarios.dfy`: the package's test cases, stated for the model.

## Model

| member | source | states |
|---|---|---|
| IntStack.Push | bitread.go:17-20 | the stack grows by one, the new top is v, and everything below is unchanged |
| IntStack.Pop | bitread.go:22-29 | on a non-empty stack, returns the top and a stack one shorter that, with the top appended, is the original |
| IntStack.PopPush | bitread.go:17-29 | popping right after a push gives back the pushed value and the original stack |
| IntStack.Top | bitread.go:31-34 | top is the last pushed element, left in place: Push's contract makes the pushed value the new Top, and Pop returns Top |
| Reader.LazyPosition | bitread.go:45-48 | the position at the last refill: Refill adds bitsInBuffer to it, Advance leaves it unchanged when no refill happens, Open sets it to 0 |
| Reader.ActualPosition | bitread.go:50-53 | lazyPosition + offset, the bit position: Refill leaves it unchanged, Advance(n) adds n, Open sets it to 32, and EndChunk moves it to the target BeginChunk pushed |
| ByteSource.Read | bitread.go:204 | a Read into a slice of length k delivers the next min(k, remaining) source bytes, in order, and moves past them: the slice is filled unless the stream ends, as with bytes.Reader |
| ByteSource.ReadSome | bitread.go:248 | an io.Reader's Read that delivers m of the k bytes asked for delivers the next m source bytes and moves past them |
| ByteSource.ReadFull | bitread.go:248 | reading until the slice is full or the stream ends gives exactly the full read Read(s, k), however the source splits its deliveries |
| ByteSource.Seek | bitread.go:202 | a relative seek moves the position by d; a negative target leaves the source as it was |
| Reader.RefillWith | bitread.go:241-255 | refillBuffer with the result of its one Read call as a parameter: it moves bitsInBuffer from offset into lazyPosition, counts the |got| bytes, and also counts the sled when |got| < len - 8, taking any such read for the end of the stream |
| Reader.Refill | bitread.go:241-255 | refillBuffer on a source whose Read fills the slice unless the stream ends: it moves bitsInBuffer from offset into lazyPosition, so the position is unchanged; it reads k = min(len - 4, remaining) bytes; it counts them, plus the sled when k < len - 8 |
| Reader.DeliveredThroughSled | bitread.go:243-250 | unless the source is exhausted, it has delivered exactly the buffered bits and the 4 sled bytes after them |
| Reader.RefillCounters | bitread.go:245-254 | after a refill, the source has delivered exactly the buffered bits and the 4 sled bytes after them unless it is exhausted, and at least the sled is buffered |
| Reader.RefillWindow | bitread.go:243-248 | copying the 4 bytes after the buffered bits to the front and reading behind them keeps every delivered buffer byte equal to its stream byte, with the window base moved on |
| Reader.RefillCoherent | bitread.go:241-255 | after a refill, every buffer byte whose stream byte was delivered holds it |
| Reader.RefillWithCoherent | bitread.go:243-248 | whatever next bytes the one Read call returns, the refilled buffer stays coherent with the stream; it is the counting of a short read that goes wrong |
| Reader.RefillValid | bitread.go:241-255 | refillBuffer preserves the counter and buffer invariant and leaves bitsInBuffer >= 32 |
| Reader.RefillLoop | bitread.go:235-238 | the refill loop terminates with 0 <= offset < bitsInBuffer, with the position and the offset's bit phase unchanged; when no refill is needed nothing changes |
| Reader.Advance | bitread.go:233-239 | advance(n) keeps the invariant, adds exactly n to ActualPosition, and ends with offset < bitsInBuffer; without a refill only the offset moves, so LazyPosition stays put |
| Reader.OpenWithBuffer | bitread.go:61-68 | opening gives a valid reader at lazy position 0 and position 32, that is stream bit 0; the buffered bits follow refillBuffer's count |
| Reader.Open | bitread.go:55-59 | Open with a new buffer of bufferSize bytes gives the same guarantees as OpenWithBuffer |
| Reader.Close | bitread.go:70-78 | Close drops the source and the buffer and zeroes the counters and the chunk stack, so that Open is allowed again |
| Reader.BufferBits | bitread.go:124-125 | the next n <= 32 buffered bits are the next n stream bits |
| Reader.PreviousBit | bitread.go:175 | the bit just below the offset, when the position is past stream bit 0, is the stream bit just before the position |
| Reader.BufferRun | bitread.go:148-150 | from a byte-aligned offset, n buffered bytes that end before the buffered bits are the next n stream bytes |
| Decode.WordInBounds | bitread.go:124 | the 8-byte load at (offset >> 3) &^ 3 lies inside the buffer and starts offset & 31 bits below the offset |
| Decode.LoadWord | bitread.go:124 | the little-endian 64-bit load is the 64 buffer bits from its start |
| Decode.WordFields | bitread.go:125 | the shift expressions of ReadInt and ReadSignedInt give the next n stream bits and, for n >= 1, their sign extension |
| Decode.IntField | bitread.go:124-125 | the shift expression of ReadInt is the little-endian value of the next n stream bits, below 2^n |
| Decode.SignedIntField | bitread.go:173-175 | the code's signed shift expression, including n = 0; for n >= 1 it is the sign extension of the next n stream bits |
| Decode.ReadBit | bitread.go:80-85 | ReadBit returns stream bit p, that is bit p & 7 of stream byte p >> 3, and moves the position on by exactly 1 |
| Decode.NextBit | bitread.go:82 | the buffer bit ReadBit tests is the next stream bit |
| Decode.ReadInt | bitread.go:121-129 | ReadInt(n), for n <= 32, is the sum over i < n of bit(p + i) * 2^i, below 2^n, and moves the position on by exactly n |
| Decode.ReadSignedIntZeroWidth | bitread.go:175 | with n = 0 the code's expression gives -1 whenever the bit just below the offset is set and offset & 31 != 0 |
| Decode.ReadSignedIntZeroWidthStream | bitread.go:175 | with n = 0 the code's expression gives -1 whenever the stream bit just before the position is set and offset & 31 != 0 |
| Decode.ReadSignedInt | bitread.go:170-178 | ReadSignedInt(n) is the two's-complement sign extension of the next n bits, in [-2^(n-1), 2^(n-1)); it moves the position on by exactly n |
| Decode.SignedBounds | bitread.go:175 | the sign extension of an n-bit value lies in [-2^(n-1), 2^(n-1)) |
| Decode.ReadBitsToByte | bitread.go:115-119 | byte(ReadInt(n)) is the next n bits mod 256, and for n <= 8 the bits themselves |
| Decode.FitsByte | bitread.go:118 | a value of at most 8 bits survives the byte conversion |
| Decode.BoolsValueBits | bitread_test.go:24-41 | booleans equal to consecutive stream bits, read least significant first, spell the number those bits spell |
| Decode.ReadBitRun | bitread_test.go:24-32 | k successive ReadBit calls return the next k stream bits in order and move the position on by k |
| Decode.ReadByteAsBits | bitread_test.go:24-41 | eight ReadBit calls from a byte boundary rebuild the stream byte, least significant bit first |
| Decode.AlignedByte | bitread.go:107-108 | at a byte-aligned offset, buffer byte offset >> 3 is the next stream byte |
| Decode.ReadByteInternal | bitread.go:106-113 | readByteInternal returns the next stream byte whenever bitLevel is set or the offset is aligned, and moves the position on by exactly 8 |
| Decode.ReadSingleByte | bitread.go:100-104 | ReadSingleByte returns the next stream byte, aligned or not, and moves the position on by exactly 8 |
| Decode.ReadBytesLoop | bitread.go:152-156 | n calls of readByteInternal, with bitLevel fixed before the loop, append exactly the next n stream bytes and move the position on by 8n |
| Decode.FastPathBytes | bitread.go:148-150 | the buffer slice of the aligned shortcut is the next n stream bytes, the same bytes the byte loop appends |
| Decode.ReadNBytesInto | bitread.go:144-157 | both paths append exactly the next n stream bytes to out and move the position on by 8n |
| Decode.ReadBytes | bitread.go:131-137 | ReadBytes(n) is the next n stream bytes |
| Decode.ReadAll | bitread_test.go:45-79 | opening a reader with any valid buffer size and reading |data| bytes gives back data |
| Decode.ReadBits | bitread.go:87-98 | ReadBits(n) returns ceil(n / 8) bytes: n >> 3 whole stream bytes and a last byte with the low n & 7 bits; read little-endian they are the next n bits, and the position moves on by n |
| Decode.ReadBitsTail | bitread.go:94-96 | the byte for the remaining n & 7 bits completes ReadBits' result |
| Decode.BytesValue | bitread_test.go:112-128 | whole bytes followed by a partial byte, read as a little-endian number, are the n stream bits |
| Decode.LastByteValue | bitread.go:94-96 | k whole bytes followed by a byte with the next m < 8 bits, read little-endian, are the 8k + m bits |
| Decode.IndexByte | bitread.go:163 | bytes.IndexByte finds the first occurrence of c, or -1 exactly when there is none |
| Decode.ReadCString | bitread.go:159-168 | ReadCString(n) consumes n bytes and returns the prefix before the first zero byte, or all n bytes when none is zero |
| Chunk.BeginChunk | bitread.go:180-184 | BeginChunk(length) pushes ActualPosition + length and changes nothing else |
| Chunk.ChunkFinished | bitread.go:228-231 | ChunkFinished holds if and only if the position equals the top target exactly |
| Chunk.ChunkFinishedAfter | bitread.go:182-231 | after BeginChunk(length) and reads of k bits in all, ChunkFinished holds if and only if k == length |
| Chunk.EndChunkAfter | bitread.go:182-226 | after BeginChunk(length) and reads of k bits in all, EndChunk panics if and only if k > length, and otherwise lands length bits past where the chunk began, on the stack as it was before BeginChunk |
| Chunk.EndChunk | bitread.go:186-226 | EndChunk pops the target; it panics exactly when the position is past it; otherwise, by advance or by seek, it leaves a valid reader at exactly the target on the popped stack |
| Chunk.SeekSkip | bitread.go:199-216 | the seek branch reloads the buffer and leaves a valid reader on the same stream at the target, with offset = unbufferedSkipBits & 7 |
| Chunk.SeekTarget | bitread.go:199-202 | when the seek branch runs, it only seeks forward, by (unbufferedSkipBits >> 3) - sled >= 0 bytes, to a position inside the stream |
| Chunk.LoadedValid | bitread.go:204-216 | a buffer reloaded from byte p, counted as the seek branch counts it (newBytes <= sled also counts the sled), gives a valid reader at stream bit 8p + offset |
| Chunk.LoadWindow | bitread.go:204 | bytes read into the front of the buffer hold their stream bytes |
| Bits.BitSpec | bitread.go:82 | bit j of a byte sequence is bit j & 7 of byte j >> 3 |
| Bits.LittleEndianBits | bitread.go:124 | a little-endian load of k bytes is the 8k bits from its first byte |
| Bits.WordUnsignedField | bitread.go:125 | shifting a W-bit word left by W - a - n and then logically right by W - n gives bits a..a+n of the word |
| Bits.WordSignedField | bitread.go:175 | with an arithmetic right shift instead, it gives their sign extension, for n >= 1 |
| Bits.WordSignedZeroWidth | bitread.go:175 | with n = 0, the arithmetic shift gives -1 when bit a - 1 of the word is set and a > 0 |
| Bits.Word32Bits | bitread_test.go:130-146 | the bytes of binary.LittleEndian.PutUint32(u) are, as 32 bits, the number u |
| Bits.Word32RoundTrip | bitread_test.go:148-164 | the bytes of PutUint32(uint32(v)), sign extended from 32 bits, give back the int32 v |
| Scenarios.ReadIntRoundTrip | bitread_test.go:130-146 | PutUint32 followed by ReadInt(32) gives back the number |
| Scenarios.ReadSignedIntRoundTrip | bitread_test.go:148-164 | PutUint32(uint32(v)) followed by ReadSignedInt(32) gives back v, MaxInt32, MinInt32 and 0 included |
| Scenarios.CStringWhole | bitread_test.go:81-92 | ReadCString of the whole of a stream without a zero byte returns the stream |
| Scenarios.LowNibble | bitread_test.go:94-110 | the low 4 bits of a byte below 16 are the byte |
| Scenarios.NibbleThenSkip | bitread_test.go:94-110 | ReadBitsToByte(4) at a byte below 16 returns it, and a second ReadBitsToByte(4) reaches the next byte |
| Scenarios.PositionsAfterOpen | bitread_test.go:166-190 | after Open on one byte, LazyPosition is 0 and ActualPosition 32; after ReadBit they are 0 and 33 |
| Scenarios.Lifecycle | bitread_test.go:192-222 | BeginChunk(2): not finished after one bit, finished after two; EndChunk succeeds; Close, Open and ReadBytes(1) give "a" back |
| Scenarios.TwoBitChunk | bitread_test.go:197-211 | the chunk part of the lifecycle test |
| Scenarios.ReadAfterReopen | bitread_test.go:212-221 | the reopen part of the lifecycle test |
| Scenarios.ShortChunk | bitread_test.go:225-240 | BeginChunk(2), ReadBit and EndChunk on a 32-byte buffer leave the position 2 bits past the start |
| Scenarios.LongChunk | bitread_test.go:242-253 | BeginChunk(256) and EndChunk then seek, landing 258 bits past the start with the lazy position 256 bits past it |
| Scenarios.ChunkSeek | bitread_test.go:224-262 | the whole seek test: positions 2 and 258 past the start, the lazy position 256 past it, and ReadBits(6) then ReadSingleByte give stream byte 33 |
| Scenarios.ChunkOverrun | bitread_test.go:264-281 | BeginChunk(0) followed by ReadBit makes EndChunk panic |
| Scenarios.OpenTens | bitread.go:63-68 | Open on the bytes 10..29 with a 12-byte buffer buffers 10..17 behind the zeroed sled, with 64 bits counted |
| Scenarios.ShortRefill | bitread.go:241-255 | the refill at 64 bits whose Read returns only 18, 19 counts 6 bytes: the sled 14..17 and the new 18, 19, and leaves the stale bytes 12..15 right after them |
| Scenarios.ShortReadStale | bitread.go:243 | once those 48 bits are read, the next refill copies the stale 12..15 to the front as stream bytes 10..13, whose values are 20..23, so the buffer no longer matches the stream |
| Scenarios.SignedZeroWidthExample | bitread.go:175 | after one bit of 0xff, the code's ReadSignedInt(0) expression gives -1 where the corrected ReadSignedInt gives 0 |

## Left out

- I/O errors: the errors of Read and Seek are discarded by the code and are not modelled. The source is a sequence of bytes, and a Read delivers min(k, remaining) bytes.
- ByteSource.Read: always fills the slice unless the stream ends, as bytes.Reader does. A general io.Reader may return fewer bytes than asked before the end. refillBuffer (bitread.go:248-253) makes one Read call and takes any result below len - 8 bytes for the end of the stream. The sled then counts as data, and the next refill copies stale bytes to the front (Scenarios.ShortReadStale). The seek branch (bitread.go:204-213) also makes one Read call, but it adds the sled only for a read of at most sled bytes (bitread.go:207). A short read of more than 4 bytes there leaves a coherent reader; one of at most 4 bytes before the end is taken for the end of the stream. Every "returns the next stream bits" contract therefore holds only for sources whose Read fills the slice. See "## Findings".
- Go interface plumbing: the dynamic io.Reader and io.Seeker dispatch is modelled as the source's `seekable` flag.
- Slice allocation and capacity, and ReadBytesInto: `make`/`append` capacity is not modelled, and neither is ReadBytesInto, which reads cap(out) bytes into a `*[]byte`. ReadNBytesInto is modelled as appending to a sequence.
- Reading past the end of the stream: the code then returns stale sled bytes. Every decoder requires that its bits lie inside the stream (`InStream`).
- Undefined widths: ReadInt and ReadSignedInt require n <= 32, which the code documents as their domain (bitread.go:122, 171). The code documents ReadBitsToByte only for n <= 8 (bitread.go:116). The model admits up to 32 there, the domain of the ReadInt(n) it calls, and states the result as the n bits mod 256.
- Buffer sizes: the code checks none. The model requires a length that is a multiple of 4 and above 8 (`BufferShape`). This keeps the 8-byte load inside the buffer and makes the refill loop terminate.
- Pop and Top on an empty stack panic in the code. The model requires a non-empty stack.
- Chunk.EndChunk: requires the chunk's target to lie inside the stream (`ChunkInStream`). A target beyond the end would read past the end of the stream.
- Decode.ReadNBytesInto: n is a nat. In the code a negative n panics on the fast path's slice and does nothing on the byte loop.
- Decode.ReadBytes: n is a nat. In the code a negative n panics in `make([]byte, 0, n)` (bitread.go:134).
- Decode.ReadCString: n is a nat. It calls ReadBytes(n), so a negative n panics there too (bitread.go:162).
- Decode.ReadBytesLoop: states the position, the bytes and the invariant after the loop. It does not state that the final reader equals a single advance by 8n.
- Reader.OpenWithBuffer and Reader.Open: require a closed (or new) reader, which is what bitread.go:70 promises reuse for. The code accepts any reader; on one that is still open, refillBuffer adds the old bitsInBuffer to lazyPosition instead of starting from 0, and copies the sled from byte `bitsInBuffer >> 3` of the new buffer. Open on a reader that is neither new nor closed is outside the model.
- Close: modelled as a reset to the closed state, not as nil-ing of fields.
- ReadCString: returns the bytes of the string rather than a Go string.
- Chunk.ChunkFinished: follows the code's `==` test; a `>=` reading of "at the end of the chunk" is not what the code does.
- Absolute positions in the tests: bitread_test.go:177, 187, 238, 247 and 251 expect positions 0, 1, 2, 256 and 258. The code gives 32, 33, 34, 288 and 290, because Open sets offset = sled << 3. The scenarios state what the code gives.

## Findings

| source | as written | input that shows it | evidently intended | confidence | as-written member | corrected member |
|---|---|---|---|---|---|---|
| bitread.go:175 | `int(int64(val << (64 - offset & 31 - n)) >> (64 - n))`; for n = 0 the arithmetic right shift by 64 leaves the sign bit of the shifted word, which is the bit just below the offset | open on the byte 0xff, ReadBit, then ReadSignedInt(0): -1 | ReadSignedInt(0) reads an empty field and returns 0, as ReadInt(0) does | not executed | Decode.SignedIntField, Decode.ReadSignedIntZeroWidth, Decode.ReadSignedIntZeroWidthStream, Scenarios.SignedZeroWidthExample | Decode.ReadSignedInt |
| bitread.go:248-253 | refillBuffer makes a single `Read` into `buffer[sled:]` and treats any result below len - 8 bytes as the end of the stream, counting the sled as data; the seek branch (bitread.go:204-213) does so only for a read of at most sled bytes (bitread.go:207) | an io.Reader over 10..29 with a 12-byte buffer, whose second Read returns only 18, 19: the following refill presents 12..15 as stream bytes 10..13, whose values are 20..23 | read until the buffer part is full or the stream ends (io.ReadFull), so that only the true end of the stream counts the sled | not executed | Reader.RefillWith, Scenarios.ShortRefill, Scenarios.ShortReadStale | ByteSource.ReadFull, Reader.Refill |
