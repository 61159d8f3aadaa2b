# buffstream in Dafny

buffstream is a Go package that frames typed byte messages on a byte stream.
Each `Writer.Write(msgType, data)` call writes three things:

- a length header: `len(data)` as a signed varint;
- a type header: `msgType` as a signed varint;
- the payload itself.

Both headers use Go's `encoding/binary` varints: the value is zigzag-folded, then written seven bits per byte, low group first, with a continuation bit.

Each `Reader.Read(data)` call returns one whole message: its type, its length and its payload in the front of `data`.

- **Buffer too small:** when `data` cannot hold the payload, Read consumes the header and caches it in `isSaved`, `savedMsgLen` and `savedMsgType`. It returns `ErrBufferTooSmall` without touching the payload. The next Read uses the cached header instead of decoding one.
- **Header errors:** a decoding error in either header is returned as it is.
- **Short payload:** a stream that ends inside the payload yields `io.EOF` or `io.ErrUnexpectedEOF`, together with the bytes that were there.
- **Cut inside a frame:** a stream cut right after a length header, or right after both headers of a non-empty message, also ends in plain `io.EOF`. Read does not report it as a malformed stream.

The project has six modules:

| module | contents |
|---|---|
| `Wire` | Go's byte, `int64` and `uint64`; byte slices; the error values. |
| `Transport` | The stream under the codec. `Source` is an `io.ByteReader` over a finite byte sequence, read position included. `ReadFull` is `io.ReadFull` as an imperative loop. `Sink` is an `io.Writer`; which of its calls fail is fixed when it is created. |
| `Varint` | `PutUvarint`/`PutVarint` as loops over the caller's scratch array. `ReadUvarint`/`ReadVarint` as loops over a `Source`. Each is proved against a pure definition (`EncodeUvarint`/`EncodeVarint`, `ScanUvarint`/`ScanVarint`). The lemmas cover round trip, minimal length and error cases. |
| `Framing` | The message format (`Frame`, `Frames`). `WriteSpec` is one Write. `ReadSpec` is one Read as a function of the reader's fields, the stream and the buffer capacity: `NextHeader`/`TypeHeader` for the header half, `Deliver` for the payload half. The lemmas cover the reader's two-state header cache and write-then-read. |
| `BuffStream` | The `Reader` and `Writer` classes, with the source's fields. Each method is proved to do exactly what `ReadSpec`/`WriteSpec` say. |
| `Sessions` | The package tests' scenarios as methods: ten messages written then read back in order, and the reread after `ErrBufferTooSmall`. |

## Model

| member | source | states |
|---|---|---|
| Varint.ZigZag | buffstream.go:65-66 | PutVarint's sign fold, arithmetically: the result is even exactly when the value is non-negative. |
| Varint.ZigZagBits | buffstream.go:65-66 | The fold as PutVarint computes it (`uint64(x) << 1`, complemented for negatives): the low bit of the result is set exactly when x is negative. |
| Varint.Unzigzag | buffstream.go:91-96 | ReadVarint's unfold (`int64(ux >> 1)`, complemented when the low bit is set): the result is non-negative exactly when ux is even. |
| Varint.ZigZagMatchesBits | buffstream.go:65-66 | PutVarint folds the sign with a 64-bit shift and a complement for negatives. On every int64 this bit form equals the arithmetic zigzag map: non-negatives go to even numbers, negatives to odd ones. |
| Varint.UnzigzagZigZag | buffstream.go:91-96 | ReadVarint's unfolding inverts PutVarint's folding on every int64. |
| Varint.ZigZagUnzigzag | buffstream.go:91-96 | Folding inverts unfolding on every uint64, so the fold is a bijection between int64 and uint64. |
| Varint.EncodeUvarint | buffstream.go:65-66 | PutUvarint's output, seven bits per byte with the low group first, is never empty. |
| Varint.EncodeUvarintContinues | buffstream.go:65-66 | Every byte of an encoding except the last has its continuation bit set; the last has it clear (if and only if). |
| Varint.EncodeUvarintLength | buffstream.go:65-66 | The encoding is minimal: it fits in k bytes exactly when the value is below 128^k (both directions). |
| Varint.EncodeUvarintFits | buffstream.go:34-35 | Every 64-bit value encodes in at most MaxVarintLen64 = 10 bytes, so the Writer's 10-byte scratch arrays always suffice. |
| Varint.EncodeVarint | buffstream.go:65-66 | A header is 1 to 10 bytes long. |
| Varint.PutUvarint | buffstream.go:65-66 | Writes the encoding of x at the front of the buffer and returns its length. The rest of the buffer is unchanged. |
| Varint.PutVarint | buffstream.go:65-66 | Runs Go's bit-level zigzag fold, then PutUvarint. The buffer then begins with EncodeVarint(x), the returned count is its length, and nothing after it changes. |
| Varint.ScanUvarintFrom | buffstream.go:91 | Decoding from the i-th byte consumes at least that byte and never more than ten. A value is non-negative. The only errors are io.EOF, io.ErrUnexpectedEOF and overflow. |
| Varint.ScanUvarintFromBound | buffstream.go:91 | The groups from the i-th on hold at most 64 - 7i bits, so a decoded value is below 2^64. |
| Varint.ScanUvarint | buffstream.go:91 | A decoded value fits a uint64 and uses 1 to 10 bytes; an error is one of the three read errors. |
| Varint.ScanVarint | buffstream.go:91-96 | A decoded value fits an int64. It consumes as many bytes, and fails with the same error, as the unsigned decoding. |
| Varint.ScanEncodedUvarint | buffstream.go:91 | Bytes that hold an encoding from position i on decode to the encoded value and stop at its end. |
| Varint.VarintRoundTrip | buffstream.go:91-96 | Decoding an encoded int64 gives it back and consumes exactly its encoding, whatever follows on the stream. |
| Varint.ScanUnterminated | buffstream.go:91-94 | Bytes that all carry the continuation bit fail with io.EOF (empty stream), io.ErrUnexpectedEOF (stream ends early) or overflow (ten of them). |
| Varint.ScanVarintUnterminated | buffstream.go:91-99 | The same outcome and byte count for a signed header that is cut short or has no end. |
| Varint.ScanTenthByte | buffstream.go:91-94 | A tenth byte that ends the varint with a value above 1 is an overflow; it is consumed. |
| Varint.ScanContinues | buffstream.go:91 | One continuation byte adds its seven bits at the current shift, and the read goes on from the next byte with the same outcome. |
| Varint.ReadUvarint | buffstream.go:91 | The byte-at-a-time loop returns what ScanUvarint says of the remaining bytes, consumes exactly the bytes ScanUvarint says, and returns its value or error. |
| Varint.ReadVarint | buffstream.go:91-96 | Returns ScanVarint's value or error on the remaining bytes and consumes exactly the bytes it used. |
| Transport.Source.ReadByte | buffstream.go:17-20 | Returns the next byte and advances by one, or reports io.EOF at the end without moving. |
| Transport.ReadFull | buffstream.go:110 | Reads min(n, bytes left) bytes into the front of the buffer and leaves the rest of the buffer unchanged. Reports nil when all n bytes came, io.EOF when none came and io.ErrUnexpectedEOF otherwise. |
| Transport.Sink.Write | buffstream.go:68-78 | A write either appends all its bytes and reports their count, or fails and appends nothing. |
| Framing.Frame | buffstream.go:65-78 | One message on the wire: length header, type header, payload. It is 2 to 20 bytes longer than the payload. |
| Framing.Frames | buffstream_test.go:34-39 | Messages written one after another, frame after frame. The stream has at least two bytes per message. |
| Framing.FramesSnoc | buffstream_test.go:34-39 | Writing one more message appends exactly its frame to the stream. |
| Framing.WriteSpec | buffstream.go:64-79 | Write succeeds exactly when none of its three sink writes fails. It then returns len(data) and has appended the frame: length header, type header, payload. On the first failure it returns (0, err) and makes no further write. What was appended is exactly what the writes before the failing one wrote: nothing when the length header fails, the length header when the type header fails, and both headers when the payload fails. |
| Framing.NextHeader | buffstream.go:83-100 | The header half of Read. A cached header is returned as saved and consumes no stream byte. Otherwise the two varints are decoded, and the stream never moves backwards or past its end. |
| Framing.TypeHeader | buffstream.go:96-99 | Decoding the type header after the length header stays within the stream. |
| Framing.Deliver | buffstream.go:102-111 | The payload half of Read. The result is ErrBufferTooSmall exactly when the length exceeds the buffer, and only then do the fields change. The header (msgLen, msgType) is then cached, n is 0, nothing is delivered and the stream does not move. When the length fits the buffer, the type returned is msgType and the payload is the stream bytes just consumed; the read succeeds exactly when the stream still holds msgLen bytes, and then delivers exactly msgLen bytes and moves the stream by msgLen. Otherwise it delivers every byte left and reports io.EOF when there were none, io.ErrUnexpectedEOF otherwise. The stream stays within bounds. |
| Framing.ReadSpec | buffstream.go:82-112 | One Read as a function of the reader's fields, the stream, the position and the buffer's capacity: the header half, then the payload half. The stream never moves backwards or past its end. |
| Framing.ReadSpecShape | buffstream.go:82-112 | Every Read moves the stream forward only. The payload is the bytes it consumed last. The header is cached exactly when the result is ErrBufferTooSmall; the cached length then exceeds the buffer, and n = 0 with nothing delivered. An uncached outcome keeps the previous saved length and type. A successful read delivers at most the buffer's capacity, and n is the payload's length. |
| Framing.NextHeaderOfFrame | buffstream.go:89-100 | On a stream that continues with a frame, an idle reader decodes that frame's length and type and stops exactly after the two headers. |
| Framing.TypeHeaderOfFrame | buffstream.go:96-99 | A type header decodes to the type it encodes and ends where its encoding ends. |
| Framing.ReadFrame | buffstream.go:82-112 | Write then Read: on a frame and a large enough buffer, an idle reader returns the frame's type, its length, nil and exactly its payload. It consumes the frame and nothing more, and stays idle. |
| Framing.FramesHead | buffstream_test.go:47-64 | A stream of frames begins with the first message's frame, followed by the frames of the others. |
| Framing.ReadFrameShortBuffer | buffstream.go:102-107 | With a buffer smaller than the payload, Read returns (0, 0, ErrBufferTooSmall). The two headers are consumed and cached, and no payload byte is consumed. |
| Framing.RetryTooSmall | buffstream.go:85-107 | With a cached header and a buffer still too small, Read returns ErrBufferTooSmall again. The stream stays where it is and the cache is kept. |
| Framing.ShortBufferRecovery | buffstream_test.go:124-142 | After ErrBufferTooSmall, a Read with a large enough buffer returns the message's type, length and payload without decoding a header. It ends idle at the end of the frame. |
| Framing.ReadSuccess | buffstream.go:82-111 | Every Read that returns nil, whatever header bytes were decoded (non-minimal varints included), had a header whose length is between 0 and the buffer's capacity. It returns that header's type and length, delivers exactly the msgLen bytes after the header, moves the stream just past them and ends idle. |
| Framing.TruncatedPayload | buffstream.go:82-111 | A header whose length fits the buffer but whose payload the stream cuts short: Read returns the header's type, the number of bytes left and those bytes, with io.EOF when none were left and io.ErrUnexpectedEOF otherwise. The stream ends at its end and the reader is idle. |
| Framing.CachedHeaderRead | buffstream.go:85-88 | A Read with a cached header and a buffer that can hold its payload, on a stream that still holds the payload: it returns the cached type and length and nil, and delivers the next msgLen bytes. The cache is cleared and the stream moves by msgLen only. |
| Framing.LengthHeaderError | buffstream.go:90-94 | A length header that does not decode: Read returns (0, 0, err) with the decoder's error. It consumes what the decoder consumed and changes no field. |
| Framing.TypeHeaderError | buffstream.go:96-99 | A type header that does not decode after a length header that does: Read returns (0, 0, err) with the decoder's error, after consuming both attempts, and changes no field. |
| Framing.CutAfterLengthHeader | buffstream.go:96-98 | A stream cut right after a length header: Read returns (0, 0, io.EOF), exactly as on a stream that ends between messages. |
| Framing.CutAfterHeaders | buffstream.go:110-111 | A stream cut right after both headers of a non-empty message that fits the buffer: Read returns the type, length 0 and io.EOF, and the header is gone. |
| Framing.CleanEndOfStream | buffstream.go:91-94 | An idle reader at the end of its stream returns (0, 0, io.EOF) and changes nothing, whatever the buffer's capacity. |
| Framing.CachedHeaderLostOnTruncation | buffstream.go:85-111 | A cached header is used up even when its payload is then cut short. Read reports io.EOF or io.ErrUnexpectedEOF, hands over the bytes there were, and leaves the reader idle. |
| Framing.WireExamples | buffstream.go:64-79 | The frames of (7, [1,2,3]) and (-3, []) are the bytes 6, 14, 1, 2, 3, 0, 5. |
| Framing.HeaderSizeExamples | buffstream.go:65-66 | 63 is the header byte 0x7E, and 64 needs the two bytes 0x80 0x01. |
| Framing.OneByteHeaders | buffstream.go:65-66 | A header is one byte long exactly when the value lies between -64 and 63. |
| Framing.LongestHeader | buffstream.go:65-66 | The most negative int64 needs all ten header bytes: nine bytes 0xFF, then 0x01. |
| Framing.EncodeAllOnes | buffstream.go:65-66 | A value of 7k + 1 one-bits encodes as k bytes 0xFF followed by 0x01. |
| Framing.NegativeLengthHeader | buffstream.go:102-110 | A length header of -1 passes the buffer-size test. Read then stops with the negative-length error, with both headers consumed and nothing cached. |
| BuffStream.Reader.constructor | buffstream.go:47-50 | NewReader: no header is saved, the saved length is -1, and the reader reads from the source's current position. |
| BuffStream.Reader.ReadHeader | buffstream.go:83-100 | Takes the header from the cache and clears it, or decodes the two varints from the stream. Its outcome and stream position are exactly NextHeader's. |
| BuffStream.Reader.Read | buffstream.go:82-112 | Returns ReadSpec's type, length and error. The reader's new fields and stream position are ReadSpec's. The buffer's front holds ReadSpec's payload and nothing after the payload changes. |
| BuffStream.Writer.constructor | buffstream.go:54-58 | NewWriter: two fresh 10-byte scratch arrays over the given sink. |
| BuffStream.Writer.Write | buffstream.go:64-79 | Returns WriteSpec's count and error, the sink gains exactly WriteSpec's bytes and calls, and the scratch arrays hold the two headers. |
| Sessions.WriteAll | buffstream_test.go:34-39 | Writing a list of messages to a sink that never fails: every Write returns nil, and the sink gains the frames of all the messages in order. |
| Sessions.ReadNext | buffstream_test.go:48-64 | One Read on an idle reader whose stream continues with frames, into a buffer that fits the first payload, returns nil and the first message. It leaves the reader idle before the remaining frames. |
| Sessions.ReadAll | buffstream_test.go:47-64 | On a stream that continues with the frames of a list of messages, and with a buffer that fits each payload, reading that many times returns nil every time and the same messages in order. The reader ends idle just after the last frame. |
| Sessions.ReaderWriterSession | buffstream_test.go:17-69 | Messages with payloads under 50 bytes, written by a Writer and read by a Reader into a 50-byte buffer: every Write and every Read returns nil, and the messages come back unchanged and in order. |
| Sessions.RereadTooShort | buffstream_test.go:102-146 | A message longer than 10 bytes, read first into a 10-byte buffer and then into a 50-byte one: the Write returns nil, the first read fails with ErrBufferTooSmall and the second returns the type, the length and the payload. |

## Left out

- The `bufio.NewReader` wrapping in NewReader (buffstream.go:41-45) is left out: the model's Source is already a byte reader.
- Goroutines, `io.Pipe`, TCP connections and `math/rand` in the tests are left out.
  - The sessions run the writer to completion, then the reader on the bytes it wrote.
  - Message types and payloads are parameters.
- Go's `encoding/binary` and `io` packages are not part of this model. PutVarint, ReadVarint, ReadByte and io.ReadFull are modelled after their documented behaviour in current Go:
  - ten bytes at most;
  - io.EOF before the first byte, io.ErrUnexpectedEOF after it;
  - overflow on a tenth byte above 1.
- The source never fails other than by ending. Read errors other than io.EOF are not modelled.
- A sink write either takes all its bytes or fails; which calls fail is fixed up front. Partial writes that come with an error are not modelled.
- BuffStream.Writer.Write: on a failed payload write, Go returns whatever count the underlying writer reports. With the all-or-error sink here that count is 0.
- The Writer's doc comment (buffstream.go:60-62) says Write "will keep trying until the full message is delivered". The code makes one write per part and returns at the first error. The model follows the code.
- BuffStream.Reader.Read: a negative decoded length passes the buffer-size test. Go then panics on `data[:msgLen]`. The model returns a NegativeLength error instead, after the same state change as Go up to that point: headers consumed, cache cleared.
- Varint.ReadVarint: the value Go returns beside a decoding error (the partially decoded value) is not modelled; the model returns 0. Read discards that value anyway.
- Varint.ReadUvarint: the value beside an error is left unspecified, for the same reason.
- Read clears `isSaved` as soon as it takes the cached header (buffstream.go:88), before the payload is read, so a payload cut short loses its header. The model keeps that order; CachedHeaderLostOnTruncation states the consequence.
- Go's `int` is taken to be 64 bits wide, so `int64(len(data))`, `int64(msgType)` and `int(msgType)` are identities. msgType is an int64 throughout.
