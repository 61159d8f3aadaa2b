/**
 * The byte stream under the codec, as the codec uses it: a source that is read
 * one byte at a time or in full-length chunks (`io.ByteReader`, `io.ReadFull`),
 * and a sink whose every write either takes all its bytes or fails.
 */
module Transport {
  import opened Wire

  /**
   * The input stream: every byte it will ever deliver, and how many of them
   * have been read. Reading past the end reports io.EOF.
   */
  class Source {
    const bytes: seq<byte>
    var pos: nat

    ghost predicate Valid()
      reads this
    {
      pos <= |bytes|
    }

    constructor (bytes: seq<byte>)
      ensures Valid() && this.bytes == bytes && pos == 0
    {
      this.bytes := bytes;
      pos := 0;
    }

    /** io.ByteReader.ReadByte */
    method ReadByte() returns (b: byte, err: Option<Error>)
      requires Valid()
      modifies this
      ensures Valid()
      ensures old(pos) < |bytes| ==> err == None && b == bytes[old(pos)] && pos == old(pos) + 1
      ensures old(pos) == |bytes| ==> err == Some(EOF) && pos == old(pos)
    {
      if pos < |bytes| {
        b, err := bytes[pos], None;
        pos := pos + 1;
      } else {
        b, err := 0, Some(EOF);
      }
    }
  }

  /**
   * io.ReadFull(src, buf[:n]): reads exactly n bytes into buf, or as many as the
   * source still has followed by io.EOF (nothing read) or io.ErrUnexpectedEOF.
   */
  method ReadFull(src: Source, buf: array<byte>, n: nat) returns (readLen: nat, err: Option<Error>)
    requires src.Valid() && n <= buf.Length
    modifies src, buf
    ensures src.Valid()
    ensures readLen == Min(n, |src.bytes| - old(src.pos))
    ensures src.pos == old(src.pos) + readLen
    ensures buf[..readLen] == src.bytes[old(src.pos)..src.pos]
    ensures buf[readLen..] == old(buf[readLen..])
    ensures err == if readLen == n then None else if readLen == 0 then Some(EOF) else Some(UnexpectedEOF)
  {
    readLen := 0;
    while readLen < n
      invariant src.Valid() && readLen <= n
      invariant src.pos == old(src.pos) + readLen
      invariant buf[..readLen] == src.bytes[old(src.pos)..src.pos]
      invariant buf[readLen..] == old(buf[readLen..])
    {
      var b, e := src.ReadByte();
      if e.Some? {
        break;
      }
      buf[readLen] := b;
      readLen := readLen + 1;
      assert buf[..readLen] == buf[..readLen - 1] + [b];
    }
    err := if readLen == n then None else if readLen == 0 then Some(EOF) else Some(UnexpectedEOF);
  }

  /**
   * The output stream, as an io.Writer with all-or-error writes. Which calls fail
   * is fixed up front: the call numbered k (counting from 0) fails iff k is in failOn.
   * A failing call leaves the written bytes as they were.
   */
  class Sink {
    var written: seq<byte>
    var calls: nat
    const failOn: set<nat>

    constructor (failOn: set<nat>)
      ensures written == [] && calls == 0 && this.failOn == failOn
    {
      written := [];
      calls := 0;
      this.failOn := failOn;
    }

    /** io.Writer.Write */
    method Write(p: seq<byte>) returns (n: int, err: Option<Error>)
      modifies this
      ensures calls == old(calls) + 1
      ensures old(calls) in failOn ==> n == 0 && err == Some(WriteFailed) && written == old(written)
      ensures old(calls) !in failOn ==> n == |p| && err == None && written == old(written) + p
    {
      if calls in failOn {
        n, err := 0, Some(WriteFailed);
      } else {
        written := written + p;
        n, err := |p|, None;
      }
      calls := calls + 1;
    }
  }
}
