/**
 * The package's two types. A Writer frames each message it is given onto its
 * sink; a Reader takes one message off its source per Read, and when the
 * caller's buffer is too small keeps the header it has already consumed until a
 * Read with a large enough buffer comes.
 */
module BuffStream {
  import opened Wire
  import opened Transport
  import opened Varint
  import opened Framing

  class Reader {
    const reader: Source
    var isSaved: bool
    var savedMsgLen: int64
    var savedMsgType: int64

    /** A cached header always has a positive length: it was cached because it exceeded a buffer. */
    ghost predicate Valid()
      reads this, reader
    {
      reader.Valid() && (isSaved ==> savedMsgLen > 0)
    }

    function Fields(): ReaderFields
      reads this
    {
      ReaderFields(isSaved, savedMsgLen, savedMsgType)
    }

    /** NewReader(r): no header saved. */
    constructor (r: Source)
      requires r.Valid()
      ensures Valid() && reader == r && Fields() == NewReaderFields
    {
      reader := r;
      isSaved := false;
      savedMsgLen := -1;
      savedMsgType := 0;
    }

    /**
     * The first half of Read: the header comes from the cache, which is then
     * cleared, or from the stream, as NextHeader says.
     */
    method ReadHeader() returns (msgLen: int64, msgType: int64, err: Option<Error>)
      requires Valid()
      modifies this, reader
      ensures reader.Valid()
      ensures var h := NextHeader(old(Fields()), reader.bytes, old(reader.pos));
        && reader.pos == h.pos
        && (h.Header? ==> err == None && msgLen == h.msgLen && msgType == h.msgType)
        && (h.HeaderError? ==> err == Some(h.error))
      ensures Fields() == old(Fields()).(isSaved := false)
    {
      ghost var pos0 := reader.pos;
      ghost var s := reader.bytes;
      msgLen, msgType := 0, 0;
      if isSaved {
        msgLen := savedMsgLen;
        msgType := savedMsgType;
        isSaved := false;
        err := None;
        return;
      }
      msgLen, err := ReadVarint(reader);
      if err.Some? {
        return;
      }
      assert ScanVarint(s[pos0..]) == Done(msgLen, reader.pos - pos0);
      assert NextHeader(old(Fields()), s, pos0) == TypeHeader(msgLen, s, reader.pos);
      msgType, err := ReadVarint(reader);
    }

    /**
     * Read(data): the next message's type and length, its payload in the front
     * of data, or an error, exactly as ReadSpec says; nothing beyond the payload
     * is written to data.
     */
    method Read(data: array<byte>) returns (msgType: int, n: int, err: Option<Error>)
      requires Valid()
      modifies this, reader, data
      ensures Valid()
      ensures var r := ReadSpec(old(Fields()), reader.bytes, old(reader.pos), data.Length);
        && msgType == r.msgType && n == r.n && err == r.err
        && Fields() == r.fields && reader.pos == r.pos
        && data[..|r.payload|] == r.payload
        && data[|r.payload|..] == old(data[|r.payload|..])
    {
      var msgLen, mType, e := ReadHeader();
      if e.Some? {
        return 0, 0, e;
      }

      if msgLen > data.Length {
        isSaved := true;
        savedMsgLen := msgLen;
        savedMsgType := mType;
        return 0, 0, Some(BufferTooSmall);
      }
      if msgLen < 0 {
        return 0, 0, Some(NegativeLength);
      }

      // Using the header, read the remaining body
      var readLen;
      readLen, err := ReadFull(reader, data, msgLen);
      return mType, readLen, err;
    }
  }

  class Writer {
    const writer: Sink
    const msgLen: array<byte>   // scratch space for the length header
    const msgType: array<byte>  // scratch space for the type header

    ghost predicate Valid()
      reads this
    {
      msgLen.Length == MaxVarintLen64 && msgType.Length == MaxVarintLen64 && msgLen != msgType
    }

    /** NewWriter(w) */
    constructor (w: Sink)
      ensures Valid() && writer == w && fresh(msgLen) && fresh(msgType)
    {
      writer := w;
      msgLen := new byte[MaxVarintLen64];
      msgType := new byte[MaxVarintLen64];
    }

    /**
     * Write(msgType, data): sends the length header, the type header and the
     * payload in three writes, stopping at the first that fails, as WriteSpec says.
     */
    method Write(msgType: int64, data: Payload) returns (n: int, err: Option<Error>)
      requires Valid()
      modifies writer, this.msgLen, this.msgType
      ensures Valid()
      ensures var r := WriteSpec(writer.failOn, old(writer.calls), msgType, data);
        && n == r.n && err == r.err
        && writer.written == old(writer.written) + r.appended && writer.calls == r.calls
      ensures this.msgLen[..|EncodeVarint(|data|)|] == EncodeVarint(|data|)
      ensures this.msgType[..|EncodeVarint(msgType)|] == EncodeVarint(msgType)
    {
      var msgLenBytes := PutVarint(this.msgLen, |data|);
      var msgTypeBytes := PutVarint(this.msgType, msgType);

      var written, e := writer.Write(this.msgLen[..msgLenBytes]);
      if e.Some? {
        return 0, e;
      }

      written, e := writer.Write(this.msgType[..msgTypeBytes]);
      if e.Some? {
        return 0, e;
      }

      n, err := writer.Write(data);
    }
  }
}
