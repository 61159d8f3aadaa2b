/**
 * The wire format and the behaviour of one Writer.Write and one Reader.Read, as
 * functions of the state before the call. The Reader and Writer classes are
 * proved to behave as these functions say; the lemmas here state what the
 * format and the reader's two-state machine guarantee.
 */
module Framing {
  import opened Wire
  import opened Varint

  /** One message: a caller-chosen type and a payload whose length is sent with it. */
  datatype Message = Message(msgType: int64, data: Payload)

  /** What one message looks like on the stream: length header, type header, payload. */
  function Frame(msgType: int64, data: Payload): (r: seq<byte>)
    ensures |data| + 2 <= |r| <= |data| + 2 * MaxVarintLen64
  {
    EncodeVarint(|data|) + EncodeVarint(msgType) + data
  }

  /** Messages written one after the other. */
  function Frames(msgs: seq<Message>): (r: seq<byte>)
    ensures 2 * |msgs| <= |r|
  {
    if msgs == [] then [] else Frame(msgs[0].msgType, msgs[0].data) + Frames(msgs[1..])
  }

  /** Writing one more message appends its frame. */
  lemma {:induction false} FramesSnoc(msgs: seq<Message>, m: Message)
    ensures Frames(msgs + [m]) == Frames(msgs) + Frame(m.msgType, m.data)
  {
    if msgs != [] {
      assert (msgs + [m])[1..] == msgs[1..] + [m];
      FramesSnoc(msgs[1..], m);
    }
  }

  // ---------------------------------------------------------------- writing

  /**
   * One Writer.Write: what it returns, the bytes it appends to the sink, and the
   * sink's call count afterwards, for a sink whose calls numbered in failOn fail.
   */
  datatype WriteStep = WriteStep(n: int, err: Option<Error>, appended: seq<byte>, calls: nat)

  function WriteSpec(failOn: set<nat>, calls: nat, msgType: int64, data: Payload): (r: WriteStep)
    ensures r.err == None <==> calls !in failOn && calls + 1 !in failOn && calls + 2 !in failOn
    ensures r.err == None ==> r.n == |data| && r.appended == Frame(msgType, data) && r.calls == calls + 3
    ensures r.err != None ==> r.err == Some(WriteFailed) && r.n == 0
    ensures r.err != None ==>
      calls < r.calls <= calls + 3 && r.calls - 1 in failOn &&
      forall c :: calls <= c < r.calls - 1 ==> c !in failOn
    ensures r.err != None ==>
      r.appended <= Frame(msgType, data) &&
      |r.appended| <= |EncodeVarint(|data|)| + |EncodeVarint(msgType)|
    ensures r.err != None && r.calls == calls + 1 ==> r.appended == []
    ensures r.err != None && r.calls == calls + 2 ==> r.appended == EncodeVarint(|data|)
    ensures r.err != None && r.calls == calls + 3 ==>
      r.appended == EncodeVarint(|data|) + EncodeVarint(msgType)
  {
    var lenHeader := EncodeVarint(|data|);
    var typeHeader := EncodeVarint(msgType);
    assert Frame(msgType, data) == lenHeader + (typeHeader + data);
    if calls in failOn then WriteStep(0, Some(WriteFailed), [], calls + 1)
    else if calls + 1 in failOn then WriteStep(0, Some(WriteFailed), lenHeader, calls + 2)
    else if calls + 2 in failOn then WriteStep(0, Some(WriteFailed), lenHeader + typeHeader, calls + 3)
    else WriteStep(|data|, None, lenHeader + typeHeader + data, calls + 3)
  }

  // ---------------------------------------------------------------- reading

  /** The Reader's own fields: the header cache. */
  datatype ReaderFields = ReaderFields(isSaved: bool, savedMsgLen: int64, savedMsgType: int64)

  /** The fields of a Reader fresh from NewReader: no saved header. */
  const NewReaderFields := ReaderFields(false, -1, 0)

  /**
   * One Reader.Read: what it returns, the reader's fields and the stream position
   * afterwards, and the bytes it copied to the front of the caller's buffer.
   */
  datatype ReadStep = ReadStep(msgType: int, n: int, err: Option<Error>,
                               fields: ReaderFields, pos: nat, payload: seq<byte>)

  /** Where Read takes its header from: the cache, or the next two varints of the stream. */
  datatype Header = Header(msgLen: int64, msgType: int64, pos: nat) | HeaderError(error: Error, pos: nat)

  /**
   * The first half of Read on a reader with fields st whose stream s has been
   * read up to pos: a saved header is used without touching the stream;
   * otherwise the length and then the type header are decoded, and the first
   * decoding error ends the read.
   */
  function NextHeader(st: ReaderFields, s: seq<byte>, pos: nat): (h: Header)
    requires pos <= |s|
    ensures pos <= h.pos <= |s|
    ensures st.isSaved ==> h == Header(st.savedMsgLen, st.savedMsgType, pos)
  {
    if st.isSaved then Header(st.savedMsgLen, st.savedMsgType, pos)
    else
      match ScanVarint(s[pos..])
      case Failed(e, k) => HeaderError(e, pos + k)
      case Done(msgLen, k) => TypeHeader(msgLen, s, pos + k)
  }

  /** The type header, read after a length header that ended at pos. */
  function TypeHeader(msgLen: int64, s: seq<byte>, pos: nat): (h: Header)
    requires pos <= |s|
    ensures pos <= h.pos <= |s|
  {
    match ScanVarint(s[pos..])
    case Failed(e, k) => HeaderError(e, pos + k)
    case Done(msgType, k) => Header(msgLen, msgType, pos + k)
  }

  /** The second half of Read, once the header (msgLen, msgType) is known. */
  function Deliver(msgLen: int64, msgType: int64, fields: ReaderFields,
                   s: seq<byte>, pos: nat, cap: nat): (r: ReadStep)
    requires pos <= |s|
    ensures pos <= r.pos <= |s|
    ensures r.err == Some(BufferTooSmall) <==> msgLen > cap
    ensures msgLen <= cap ==> r.fields == fields
    ensures msgLen > cap ==>
      r == ReadStep(0, 0, Some(BufferTooSmall), ReaderFields(true, msgLen, msgType), pos, [])
    ensures r.err == None ==> r.n == msgLen == |r.payload| && r.pos == pos + msgLen
    ensures 0 <= msgLen <= cap ==> r.msgType == msgType && r.payload == s[pos..r.pos]
    ensures 0 <= msgLen <= cap ==> (r.err == None <==> pos + msgLen <= |s|)
    ensures 0 <= msgLen <= cap && |s| < pos + msgLen ==>
      r.n == |s| - pos && r.pos == |s| && r.err == Some(if pos == |s| then EOF else UnexpectedEOF)
  {
    if msgLen > cap then
      ReadStep(0, 0, Some(BufferTooSmall), ReaderFields(true, msgLen, msgType), pos, [])
    else if msgLen < 0 then
      ReadStep(0, 0, Some(NegativeLength), fields, pos, [])
    else
      var n := Min(msgLen, |s| - pos);
      var err := if n == msgLen then None else if n == 0 then Some(EOF) else Some(UnexpectedEOF);
      ReadStep(msgType, n, err, fields, pos + n, s[pos..pos + n])
  }

  /**
   * Reader.Read with a buffer of capacity cap, on a reader with fields st whose
   * stream s has been read up to pos. The cache is cleared as soon as it is used.
   */
  function ReadSpec(st: ReaderFields, s: seq<byte>, pos: nat, cap: nat): (r: ReadStep)
    requires pos <= |s|
    ensures pos <= r.pos <= |s|
  {
    match NextHeader(st, s, pos)
    case HeaderError(e, p) => ReadStep(0, 0, Some(e), st, p, [])
    case Header(msgLen, msgType, p) => Deliver(msgLen, msgType, st.(isSaved := false), s, p, cap)
  }

  /**
   * What every Read guarantees: the stream only moves forward, the payload is
   * the bytes it just consumed, the header is cached exactly when the buffer
   * was too small (and then nothing was delivered), and a successful read
   * fills no more than the buffer.
   */
  lemma ReadSpecShape(st: ReaderFields, s: seq<byte>, pos: nat, cap: nat)
    requires pos <= |s|
    ensures var r := ReadSpec(st, s, pos, cap);
      && pos + |r.payload| <= r.pos <= |s|
      && r.payload == s[r.pos - |r.payload|..r.pos]
      && (r.fields.isSaved <==> r.err == Some(BufferTooSmall))
      && (r.fields.isSaved ==> r.fields.savedMsgLen > cap && r.n == 0 && r.payload == [])
      && (!r.fields.isSaved ==>
            r.fields.savedMsgLen == st.savedMsgLen && r.fields.savedMsgType == st.savedMsgType)
      && (r.err == None ==> 0 <= r.n == |r.payload| <= cap)
  {
  }

  /**
   * An idle reader whose stream continues with a frame decodes that frame's
   * header and stops exactly after it, whatever follows the frame.
   */
  lemma NextHeaderOfFrame(st: ReaderFields, s: seq<byte>, pos: nat, msgType: int64, data: Payload,
                          rest: seq<byte>)
    requires !st.isSaved && pos <= |s| && s[pos..] == Frame(msgType, data) + rest
    ensures NextHeader(st, s, pos)
         == Header(|data|, msgType, pos + |EncodeVarint(|data|)| + |EncodeVarint(msgType)|)
  {
    var lenHeader, typeHeader := EncodeVarint(|data|), EncodeVarint(msgType);
    FrameParts(s, pos, lenHeader, typeHeader, data, rest);
    VarintRoundTrip(|data|, typeHeader + (data + rest));
    TypeHeaderOfFrame(|data|, s, pos + |lenHeader|, msgType, data + rest);
  }

  /** A type header decodes to the type it encodes and ends where its encoding ends. */
  lemma TypeHeaderOfFrame(msgLen: int64, s: seq<byte>, pos: nat, msgType: int64, rest: seq<byte>)
    requires pos <= |s| && s[pos..] == EncodeVarint(msgType) + rest
    ensures TypeHeader(msgLen, s, pos) == Header(msgLen, msgType, pos + |EncodeVarint(msgType)|)
  {
    VarintRoundTrip(msgType, rest);
  }

  /**
   * Write then Read: an idle reader whose stream continues with the frame of
   * (msgType, data) returns exactly that type and payload when the buffer can
   * hold the payload, consumes the frame and nothing more, and stays idle.
   */
  lemma ReadFrame(st: ReaderFields, s: seq<byte>, pos: nat, cap: nat, msgType: int64, data: Payload,
                  rest: seq<byte>)
    requires !st.isSaved && pos <= |s| && s[pos..] == Frame(msgType, data) + rest
    requires |data| <= cap
    ensures ReadSpec(st, s, pos, cap)
         == ReadStep(msgType, |data|, None, st, pos + |Frame(msgType, data)|, data)
  {
    NextHeaderOfFrame(st, s, pos, msgType, data, rest);
    FrameParts(s, pos, EncodeVarint(|data|), EncodeVarint(msgType), data, rest);
  }

  /**
   * A stream of frames begins with the frame of its first message, and after it
   * come the frames of the others.
   */
  lemma FramesHead(s: seq<byte>, pos: nat, msgs: seq<Message>, rest: seq<byte>)
    requires pos <= |s| && s[pos..] == Frames(msgs) + rest && msgs != []
    ensures var end := pos + |Frame(msgs[0].msgType, msgs[0].data)|;
      && s[pos..] == Frame(msgs[0].msgType, msgs[0].data) + (Frames(msgs[1..]) + rest)
      && end + |Frames(msgs[1..])| == pos + |Frames(msgs)|
      && end <= |s| && s[end..] == Frames(msgs[1..]) + rest
  {
    SplitAfter(s, pos, Frame(msgs[0].msgType, msgs[0].data), Frames(msgs[1..]), rest);
  }

  /** Where the stream's remainder is a + b + c, what follows a is b + c. */
  lemma SplitAfter(s: seq<byte>, pos: nat, a: seq<byte>, b: seq<byte>, c: seq<byte>)
    requires pos <= |s| && s[pos..] == a + b + c
    ensures s[pos..] == a + (b + c)
    ensures pos + |a| <= |s| && s[pos + |a|..] == b + c
  {
    SuffixAfter(s, pos, a, b + c);
  }

  /**
   * Where the stream's remainder is a + b + c + d (a frame's two headers, its
   * payload, and what follows), what follows each part, and where c lies.
   */
  lemma FrameParts(s: seq<byte>, pos: nat, a: seq<byte>, b: seq<byte>, c: seq<byte>, d: seq<byte>)
    requires pos <= |s| && s[pos..] == a + b + c + d
    ensures pos + |a| + |b| + |c| <= |s|
    ensures s[pos..] == a + (b + (c + d))
    ensures s[pos + |a|..] == b + (c + d)
    ensures s[pos + |a| + |b|..] == c + d
    ensures s[pos + |a| + |b|..pos + |a| + |b| + |c|] == c
  {
    SuffixAfter(s, pos, a, b + (c + d));
    SuffixAfter(s, pos + |a|, b, c + d);
    assert s[pos + |a| + |b|..pos + |a| + |b| + |c|] == s[pos + |a| + |b|..][..|c|];
  }

  /** What follows a prefix of the stream's remainder. */
  lemma SuffixAfter(s: seq<byte>, pos: nat, prefix: seq<byte>, tail: seq<byte>)
    requires pos <= |s| && s[pos..] == prefix + tail
    ensures pos + |prefix| <= |s| && s[pos + |prefix|..] == tail
  {
    assert s[pos + |prefix|..] == s[pos..][|prefix|..];
  }

  /**
   * A buffer too small for the payload: the read fails with ErrBufferTooSmall,
   * the header is consumed and cached, and no payload byte is consumed.
   */
  lemma ReadFrameShortBuffer(st: ReaderFields, s: seq<byte>, pos: nat, cap: nat, msgType: int64,
                             data: Payload, rest: seq<byte>)
    requires !st.isSaved && pos <= |s| && s[pos..] == Frame(msgType, data) + rest
    requires cap < |data|
    ensures ReadSpec(st, s, pos, cap)
         == ReadStep(0, 0, Some(BufferTooSmall), ReaderFields(true, |data|, msgType),
                     pos + |Frame(msgType, data)| - |data|, [])
  {
    NextHeaderOfFrame(st, s, pos, msgType, data, rest);
  }

  /**
   * While the buffer stays too small, a cached header stays cached and the
   * stream does not move.
   */
  lemma RetryTooSmall(st: ReaderFields, s: seq<byte>, pos: nat, cap: nat)
    requires st.isSaved && st.savedMsgLen > cap && pos <= |s|
    ensures ReadSpec(st, s, pos, cap) == ReadStep(0, 0, Some(BufferTooSmall), st, pos, [])
  {
  }

  /**
   * Short-buffer recovery: after a read with a buffer too small for the
   * payload, a read with a large enough buffer returns the message without
   * re-reading its header, and leaves the reader idle at the end of the frame.
   */
  lemma ShortBufferRecovery(st: ReaderFields, s: seq<byte>, pos: nat, cap1: nat, cap2: nat,
                            msgType: int64, data: Payload, rest: seq<byte>)
    requires !st.isSaved && pos <= |s| && s[pos..] == Frame(msgType, data) + rest
    requires cap1 < |data| <= cap2
    ensures var r1 := ReadSpec(st, s, pos, cap1);
      && r1.err == Some(BufferTooSmall) && r1.n == 0 && r1.fields.isSaved
      && ReadSpec(r1.fields, s, r1.pos, cap2)
         == ReadStep(msgType, |data|, None, ReaderFields(false, |data|, msgType),
                     pos + |Frame(msgType, data)|, data)
  {
    ReadFrameShortBuffer(st, s, pos, cap1, msgType, data, rest);
    FrameParts(s, pos, EncodeVarint(|data|), EncodeVarint(msgType), data, rest);
  }

  /**
   * Every successful Read, whatever header bytes it decoded (a canonical one
   * or any other form the decoder accepts): it returns the header's type and
   * length, delivers exactly the msgLen bytes after the header, and ends idle.
   */
  lemma ReadSuccess(st: ReaderFields, s: seq<byte>, pos: nat, cap: nat)
    requires pos <= |s| && ReadSpec(st, s, pos, cap).err == None
    ensures var h := NextHeader(st, s, pos);
      && h.Header? && 0 <= h.msgLen <= cap && h.pos + h.msgLen <= |s|
      && ReadSpec(st, s, pos, cap)
         == ReadStep(h.msgType, h.msgLen, None, st.(isSaved := false),
                     h.pos + h.msgLen, s[h.pos..h.pos + h.msgLen])
  {
  }

  /**
   * A header that fits the buffer but whose payload the stream cuts short:
   * Read returns the type, the bytes that were there and io.EOF when there
   * were none, io.ErrUnexpectedEOF otherwise; the reader ends idle.
   */
  lemma TruncatedPayload(st: ReaderFields, s: seq<byte>, pos: nat, cap: nat)
    requires pos <= |s|
    requires var h := NextHeader(st, s, pos);
      h.Header? && 0 <= h.msgLen <= cap && |s| < h.pos + h.msgLen
    ensures var h := NextHeader(st, s, pos);
      ReadSpec(st, s, pos, cap)
      == ReadStep(h.msgType, |s| - h.pos, Some(if h.pos == |s| then EOF else UnexpectedEOF),
                  st.(isSaved := false), |s|, s[h.pos..])
  {
  }

  /**
   * A Read that finds a cached header and a buffer that can hold its payload,
   * on a stream that still has the payload: it returns the cached type and
   * length, delivers the next msgLen bytes, and clears the cache.
   */
  lemma CachedHeaderRead(st: ReaderFields, s: seq<byte>, pos: nat, cap: nat)
    requires st.isSaved && 0 <= st.savedMsgLen <= cap && pos + st.savedMsgLen <= |s|
    ensures ReadSpec(st, s, pos, cap)
         == ReadStep(st.savedMsgType, st.savedMsgLen, None, st.(isSaved := false),
                     pos + st.savedMsgLen, s[pos..pos + st.savedMsgLen])
  {
  }

  /**
   * A length header that does not decode: Read returns (0, 0, err) with the
   * decoder's error, consumes what the decoder consumed, and changes no field.
   */
  lemma LengthHeaderError(st: ReaderFields, s: seq<byte>, pos: nat, cap: nat)
    requires !st.isSaved && pos <= |s| && ScanVarint(s[pos..]).Failed?
    ensures ReadSpec(st, s, pos, cap)
         == ReadStep(0, 0, Some(ScanVarint(s[pos..]).error), st, pos + ScanVarint(s[pos..]).used, [])
  {
  }

  /**
   * A type header that does not decode after a length header that does: Read
   * returns (0, 0, err) with the decoder's error, and changes no field.
   */
  lemma TypeHeaderError(st: ReaderFields, s: seq<byte>, pos: nat, cap: nat)
    requires !st.isSaved && pos <= |s| && ScanVarint(s[pos..]).Done?
    requires var k := pos + ScanVarint(s[pos..]).used; ScanVarint(s[k..]).Failed?
    ensures var k := pos + ScanVarint(s[pos..]).used;
      ReadSpec(st, s, pos, cap)
      == ReadStep(0, 0, Some(ScanVarint(s[k..]).error), st, k + ScanVarint(s[k..]).used, [])
  {
  }

  /**
   * A stream cut right after a length header: the type header meets the end
   * of the stream at its first byte, and Read reports plain io.EOF, just as on
   * a stream that ends between messages.
   */
  lemma CutAfterLengthHeader(st: ReaderFields, msgLen: int64, cap: nat)
    requires !st.isSaved
    ensures ReadSpec(st, EncodeVarint(msgLen), 0, cap)
         == ReadStep(0, 0, Some(EOF), st, |EncodeVarint(msgLen)|, [])
  {
    var s := EncodeVarint(msgLen);
    VarintRoundTrip(msgLen, []);
    assert s + [] == s && s[0..] == s && s[|s|..] == [];
  }

  /**
   * A stream cut right after both headers of a non-empty message that fits the
   * buffer: Read returns the type with length 0 and plain io.EOF, and the header
   * is gone.
   */
  lemma CutAfterHeaders(st: ReaderFields, msgLen: int64, msgType: int64, cap: nat)
    requires !st.isSaved && 0 < msgLen <= cap
    ensures var s := EncodeVarint(msgLen) + EncodeVarint(msgType);
      ReadSpec(st, s, 0, cap) == ReadStep(msgType, 0, Some(EOF), st, |s|, [])
  {
    var lenHeader, typeHeader := EncodeVarint(msgLen), EncodeVarint(msgType);
    var s := lenHeader + typeHeader;
    assert s[0..] == lenHeader + typeHeader;
    VarintRoundTrip(msgLen, typeHeader);
    assert s[|lenHeader|..] == typeHeader + [];
    VarintRoundTrip(msgType, []);
  }

  /** An idle reader at the end of its stream reports io.EOF and changes nothing. */
  lemma CleanEndOfStream(st: ReaderFields, s: seq<byte>, cap: nat)
    requires !st.isSaved
    ensures ReadSpec(st, s, |s|, cap) == ReadStep(0, 0, Some(EOF), st, |s|, [])
  {
    assert s[|s|..] == [];
  }

  /**
   * A cached header is used up even when its payload is cut short: the read
   * reports io.EOF or io.ErrUnexpectedEOF, hands over the bytes there were,
   * and the reader is idle afterwards.
   */
  lemma CachedHeaderLostOnTruncation(st: ReaderFields, s: seq<byte>, pos: nat, cap: nat)
    requires st.isSaved && 0 <= st.savedMsgLen <= cap && pos <= |s|
    requires |s| - pos < st.savedMsgLen
    ensures var r := ReadSpec(st, s, pos, cap);
      && r.err in {Some(EOF), Some(UnexpectedEOF)} && !r.fields.isSaved
      && r.payload == s[pos..] && r.pos == |s|
  {
  }

  /**
   * Two frames on the wire: lengths and types are zigzag varints, so 3 is 6,
   * 7 is 14 and -3 is 5, and an empty payload adds no byte.
   */
  lemma WireExamples()
    ensures Frame(7, [1, 2, 3]) + Frame(-3, []) == [6, 14, 1, 2, 3, 0, 5]
  {
  }

  /** Header bytes at the one-byte edge: 63 is the byte 0x7E, and 64 needs a second byte. */
  lemma HeaderSizeExamples()
    ensures EncodeVarint(63) == [0x7E] && EncodeVarint(64) == [0x80, 0x01]
  {
  }

  /** The most negative int64 needs all ten header bytes. */
  lemma LongestHeader()
    ensures EncodeVarint(MinInt64) == [0xFF, 0xFF, 0xFF, 0xFF, 0xFF, 0xFF, 0xFF, 0xFF, 0xFF, 0x01]
  {
    Pow128Table();
    assert ZigZag(MinInt64) == 2 * Pow128(9) - 1;
    EncodeAllOnes(9);
    assert seq(9, _ => 0xFF) == [0xFF, 0xFF, 0xFF, 0xFF, 0xFF, 0xFF, 0xFF, 0xFF, 0xFF];
  }

  /** A value of 7 * k + 1 one-bits encodes as k bytes 0xFF and a final 0x01. */
  lemma {:induction false} EncodeAllOnes(k: nat)
    ensures EncodeUvarint(2 * Pow128(k) - 1) == seq(k, _ => 0xFF) + [0x01]
  {
    if k > 0 {
      var x := 2 * Pow128(k) - 1;
      assert x == 0x80 * (2 * Pow128(k - 1) - 1) + 0x7F;
      assert x % 0x80 == 0x7F && x / 0x80 == 2 * Pow128(k - 1) - 1;
      EncodeAllOnes(k - 1);
      assert seq(k, _ => 0xFF) == [0xFF] + seq(k - 1, _ => 0xFF);
    }
  }

  /** Exactly the values from -64 to 63 have a one-byte header. */
  lemma OneByteHeaders(x: int64)
    ensures |EncodeVarint(x)| == 1 <==> -64 <= x <= 63
  {
    EncodeUvarintLength(ZigZag(x), 1);
  }

  /**
   * A length header of -1 (the single byte 1) followed by a type header of 0:
   * the read reports NegativeLength with both headers consumed and nothing cached.
   */
  lemma NegativeLengthHeader()
    ensures ReadSpec(NewReaderFields, [0x01, 0x00], 0, 16)
         == ReadStep(0, 0, Some(NegativeLength), NewReaderFields, 2, [])
  {
  }
}
