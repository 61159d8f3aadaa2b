/**
 * Whole conversations over one stream, as the package's tests hold them: a
 * Writer frames a list of messages onto a sink that never fails, and a Reader
 * on the bytes the sink collected gets the same messages back, in order. The
 * two ends run one after the other rather than concurrently.
 */
module Sessions {
  import opened Wire
  import opened Transport
  import opened Framing
  import opened BuffStream

  /**
   * Writes every message in turn; on a sink that never fails, every write
   * returns nil and the sink receives their frames.
   */
  method WriteAll(w: Writer, msgs: seq<Message>) returns (errs: seq<Option<Error>>)
    requires w.Valid() && w.writer.failOn == {}
    modifies w.writer, w.msgLen, w.msgType
    ensures w.Valid()
    ensures |errs| == |msgs| && forall i :: 0 <= i < |errs| ==> errs[i] == None
    ensures w.writer.written == old(w.writer.written) + Frames(msgs)
  {
    errs := [];
    var i := 0;
    while i < |msgs|
      invariant i <= |msgs| && w.Valid()
      invariant |errs| == i && forall j :: 0 <= j < i ==> errs[j] == None
      invariant w.writer.written == old(w.writer.written) + Frames(msgs[..i])
    {
      var _, err := w.Write(msgs[i].msgType, msgs[i].data);
      errs := errs + [err];
      FramesSnoc(msgs[..i], msgs[i]);
      assert msgs[..i + 1] == msgs[..i] + [msgs[i]];
      i := i + 1;
    }
    assert msgs[..i] == msgs;
  }

  /**
   * Reads as many messages as msgs holds, with one buffer large enough for each
   * payload, from a reader whose stream continues with the frames of msgs:
   * every read succeeds and returns the message that was written, in order,
   * and the reader ends idle just after the last frame.
   */
  method ReadAll(r: Reader, buf: array<byte>, msgs: seq<Message>, ghost rest: seq<byte>)
    returns (got: seq<Message>, errs: seq<Option<Error>>)
    requires r.Valid() && !r.isSaved && r.reader.bytes[r.reader.pos..] == Frames(msgs) + rest
    requires forall i :: 0 <= i < |msgs| ==> |msgs[i].data| <= buf.Length
    modifies r, r.reader, buf
    ensures got == msgs
    ensures |errs| == |msgs| && forall i :: 0 <= i < |errs| ==> errs[i] == None
    ensures r.Valid() && !r.isSaved
    ensures r.reader.pos == old(r.reader.pos) + |Frames(msgs)|
  {
    got, errs := [], [];
    var i := 0;
    while i < |msgs|
      invariant i <= |msgs| && r.Valid() && !r.isSaved
      invariant got == msgs[..i]
      invariant |errs| == i && forall j :: 0 <= j < i ==> errs[j] == None
      invariant r.reader.pos <= |r.reader.bytes|
      invariant r.reader.bytes[r.reader.pos..] == Frames(msgs[i..]) + rest
      invariant r.reader.pos + |Frames(msgs[i..])| == old(r.reader.pos) + |Frames(msgs)|
    {
      var m, err := ReadNext(r, buf, msgs[i..], rest);
      assert msgs[i..][1..] == msgs[i + 1..];
      got := got + [m];
      errs := errs + [err];
      assert msgs[..i + 1] == msgs[..i] + [msgs[i]];
      i := i + 1;
    }
  }

  /**
   * One Read on an idle reader whose stream continues with the frames of msgs,
   * into a buffer that fits the first payload: it returns the first message
   * and nil, and leaves the reader idle before the frames of the others.
   */
  method ReadNext(r: Reader, buf: array<byte>, msgs: seq<Message>, ghost rest: seq<byte>)
    returns (m: Message, err: Option<Error>)
    requires r.Valid() && !r.isSaved && r.reader.bytes[r.reader.pos..] == Frames(msgs) + rest
    requires msgs != [] && |msgs[0].data| <= buf.Length
    modifies r, r.reader, buf
    ensures m == msgs[0] && err == None
    ensures r.Valid() && !r.isSaved
    ensures r.reader.pos <= |r.reader.bytes| && r.reader.bytes[r.reader.pos..] == Frames(msgs[1..]) + rest
    ensures r.reader.pos + |Frames(msgs[1..])| == old(r.reader.pos) + |Frames(msgs)|
  {
    FramesHead(r.reader.bytes, r.reader.pos, msgs, rest);
    ReadFrame(r.Fields(), r.reader.bytes, r.reader.pos, buf.Length, msgs[0].msgType, msgs[0].data,
              Frames(msgs[1..]) + rest);
    var msgType, msgLen;
    msgType, msgLen, err := r.Read(buf);
    m := Message(msgType as int64, buf[..msgLen]);
  }

  /**
   * Ten (or any number of) messages with payloads shorter than 50 bytes go
   * through a Writer and come out of a Reader reading into a 50-byte buffer
   * unchanged and in order; no Write and no Read reports an error.
   */
  method ReaderWriterSession(msgs: seq<Message>)
    returns (got: seq<Message>, writeErrs: seq<Option<Error>>, readErrs: seq<Option<Error>>)
    requires forall i :: 0 <= i < |msgs| ==> |msgs[i].data| < 50
    ensures got == msgs
    ensures |writeErrs| == |msgs| && forall i :: 0 <= i < |writeErrs| ==> writeErrs[i] == None
    ensures |readErrs| == |msgs| && forall i :: 0 <= i < |readErrs| ==> readErrs[i] == None
  {
    var sink := new Sink({});
    var w := new Writer(sink);
    writeErrs := WriteAll(w, msgs);
    var src := new Source(sink.written);
    var r := new Reader(src);
    var buf := new byte[50];
    assert src.bytes[src.pos..] == Frames(msgs) + [];
    got, readErrs := ReadAll(r, buf, msgs, []);
  }

  /**
   * One message whose payload outgrows a 10-byte buffer: the write succeeds,
   * the first read fails with ErrBufferTooSmall, and a second read with a
   * 50-byte buffer returns the message whole, without its header being sent again.
   */
  method RereadTooShort(msgType: int64, data: Payload)
    returns (errW: Option<Error>, err1: Option<Error>, gotType: int, gotLen: int,
             err2: Option<Error>, got: seq<byte>)
    requires 10 < |data| <= 50
    ensures errW == None
    ensures err1 == Some(BufferTooSmall)
    ensures err2 == None && gotType == msgType && gotLen == |data| && got == data
  {
    var sink := new Sink({});
    var w := new Writer(sink);
    var _, ew := w.Write(msgType, data);
    errW := ew;
    var src := new Source(sink.written);
    var r := new Reader(src);
    ShortBufferRecovery(r.Fields(), src.bytes, 0, 10, 50, msgType, data, []);
    var small := new byte[10];
    var _, _, e1 := r.Read(small);
    err1 := e1;
    var large := new byte[50];
    var t, n, e2 := r.Read(large);
    gotType, gotLen, err2, got := t, n, e2, large[..n];
  }
}
