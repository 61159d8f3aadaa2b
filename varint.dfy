/**
 * The signed varint codec of Go's encoding/binary (PutVarint, ReadVarint), used
 * for both header fields of every message: the value is zigzag-folded into an
 * unsigned one, then written seven bits per byte, low group first, with the high
 * bit of each byte set when another byte follows.
 */
module Varint {
  import opened Wire
  import opened Transport

  /** 128 to the power i: the weight of the i-th seven-bit group (`1 << (7 * i)`). */
  function Pow128(i: nat): (p: nat)
    ensures p >= 1
  {
    if i == 0 then 1 else 0x80 * Pow128(i - 1)
  }

  lemma Pow128Table()
    ensures Pow128(1) == 0x80
    ensures Pow128(9) == 0x8000_0000_0000_0000
    ensures Pow128(10) == 0x40_0000_0000_0000_0000
  {
  }

  // ---------------------------------------------------------------- zigzag

  /**
   * PutVarint's sign folding: non-negative values go to the even numbers and
   * negative ones to the odd numbers.
   */
  function ZigZag(x: int64): (ux: uint64)
    ensures ux % 2 == 0 <==> x >= 0
  {
    if x >= 0 then 2 * x else -2 * x - 1
  }

  /** The same folding as PutVarint writes it: `uint64(x) << 1`, complemented (`^`) when x is negative. */
  function ZigZagBits(x: int64): (ux: uint64)
    ensures ux % 2 == 1 <==> x < 0
  {
    var ux := (x % 0x1_0000_0000_0000_0000) * 2 % 0x1_0000_0000_0000_0000;
    if x < 0 then 0xFFFF_FFFF_FFFF_FFFF - ux else ux
  }

  /** ReadVarint's unfolding: `int64(ux >> 1)`, complemented when the low bit is set. */
  function Unzigzag(ux: uint64): (x: int64)
    ensures x >= 0 <==> ux % 2 == 0
  {
    var x := ux / 2;
    if ux % 2 != 0 then -x - 1 else x
  }

  /** The two's-complement shift and complement agree with the arithmetic folding on every int64. */
  lemma ZigZagMatchesBits(x: int64)
    ensures ZigZagBits(x) == ZigZag(x)
  {
    if x < 0 {
      assert x % 0x1_0000_0000_0000_0000 == x + 0x1_0000_0000_0000_0000;
      assert (x + 0x1_0000_0000_0000_0000) * 2 % 0x1_0000_0000_0000_0000 == 2 * x + 0x1_0000_0000_0000_0000;
    } else {
      assert x % 0x1_0000_0000_0000_0000 == x;
    }
  }

  lemma UnzigzagZigZag(x: int64)
    ensures Unzigzag(ZigZag(x)) == x
  {
  }

  lemma ZigZagUnzigzag(ux: uint64)
    ensures ZigZag(Unzigzag(ux)) == ux
  {
  }

  // ---------------------------------------------------------------- encoding

  /** PutUvarint's output: seven bits per byte, least significant group first. */
  function EncodeUvarint(x: nat): (r: seq<byte>)
    ensures |r| >= 1
  {
    if x < 0x80 then [x] else [x % 0x80 + 0x80] + EncodeUvarint(x / 0x80)
  }

  /** Every byte of an encoding but the last has its continuation bit set; the last has it clear. */
  lemma {:induction false} EncodeUvarintContinues(x: nat, i: nat)
    requires i < |EncodeUvarint(x)|
    ensures EncodeUvarint(x)[i] >= 0x80 <==> i < |EncodeUvarint(x)| - 1
    decreases x
  {
    if i > 0 {
      EncodeUvarintContinues(x / 0x80, i - 1);
    }
  }

  /**
   * The encoding is as short as it can be: it fits in k bytes exactly when the
   * value has at most 7 * k significant bits.
   */
  lemma {:induction false} EncodeUvarintLength(x: nat, k: nat)
    requires k >= 1
    ensures |EncodeUvarint(x)| <= k <==> x < Pow128(k)
    decreases k
  {
    if x >= 0x80 && k > 1 {
      EncodeUvarintLength(x / 0x80, k - 1);
    }
  }

  /** Every 64-bit value fits the 10-byte scratch buffer. */
  lemma EncodeUvarintFits(x: uint64)
    ensures |EncodeUvarint(x)| <= MaxVarintLen64
  {
    EncodeUvarintLength(x, MaxVarintLen64);
    Pow128Table();
  }

  /** PutVarint's output, 1 to MaxVarintLen64 bytes long. */
  function EncodeVarint(x: int64): (r: seq<byte>)
    ensures 1 <= |r| <= MaxVarintLen64
  {
    EncodeUvarintFits(ZigZag(x));
    EncodeUvarint(ZigZag(x))
  }

  /**
   * binary.PutUvarint(buf, x): writes the encoding of x at the front of buf and
   * returns its length; the rest of buf is untouched.
   */
  method PutUvarint(buf: array<byte>, x: uint64) returns (n: nat)
    requires buf.Length >= MaxVarintLen64
    modifies buf
    ensures n == |EncodeUvarint(x)| && 1 <= n <= MaxVarintLen64
    ensures buf[..n] == EncodeUvarint(x)
    ensures buf[n..] == old(buf[n..])
  {
    EncodeUvarintFits(x);
    ghost var enc := EncodeUvarint(x);
    var v: nat := x;
    var i := 0;
    while v >= 0x80
      invariant i + |EncodeUvarint(v)| == |enc|
      invariant enc[i..] == EncodeUvarint(v)
      invariant buf[..i] == enc[..i]
      invariant forall j :: i <= j < buf.Length ==> buf[j] == old(buf[j])
    {
      ghost var tail := EncodeUvarint(v / 0x80);
      assert enc[i..] == [v % 0x80 + 0x80] + tail;
      assert enc[i + 1..] == enc[i..][1..] == tail;
      buf[i] := v % 0x80 + 0x80;
      v := v / 0x80;
      i := i + 1;
    }
    buf[i] := v;
    n := i + 1;
    assert enc[i..] == [v];
    assert buf[n..] == old(buf[n..]);
  }

  /** binary.PutVarint(buf, x) */
  method PutVarint(buf: array<byte>, x: int64) returns (n: nat)
    requires buf.Length >= MaxVarintLen64
    modifies buf
    ensures n == |EncodeVarint(x)|
    ensures buf[..n] == EncodeVarint(x)
    ensures buf[n..] == old(buf[n..])
  {
    ZigZagMatchesBits(x);
    n := PutUvarint(buf, ZigZagBits(x));
  }

  // ---------------------------------------------------------------- decoding

  /** What reading one varint from a stream gives: a value, or an error, and the bytes consumed. */
  datatype Scan = Done(value: int, used: nat) | Failed(error: Error, used: nat)

  /**
   * ReadUvarint on the bytes s still to come, from its i-th byte on: the value of
   * the groups from the i-th on, least significant first. It stops at the first
   * byte without the continuation bit; it fails with Overflow on a tenth byte that
   * is neither 0 nor 1, or when ten bytes all carry the continuation bit; it fails
   * with io.EOF when the stream ends before the first byte and with
   * io.ErrUnexpectedEOF when it ends after it.
   */
  function ScanUvarintFrom(s: seq<byte>, i: nat): (r: Scan)
    requires i <= |s| && i <= MaxVarintLen64
    ensures i <= r.used <= |s| && r.used <= MaxVarintLen64
    ensures r.Done? ==> i < r.used && 0 <= r.value
    ensures r.Failed? ==> r.error in {EOF, UnexpectedEOF, Overflow}
    decreases |s| - i
  {
    if i == MaxVarintLen64 then Failed(Overflow, i)
    else if i == |s| then Failed(if i > 0 then UnexpectedEOF else EOF, i)
    else if s[i] < 0x80 then
      if i == MaxVarintLen64 - 1 && s[i] > 1 then Failed(Overflow, i + 1)
      else Done(s[i], i + 1)
    else
      match ScanUvarintFrom(s, i + 1)
      case Done(v, k) => Done(s[i] - 0x80 + 0x80 * v, k)
      case Failed(e, k) => Failed(e, k)
  }

  /** The groups from the i-th on hold at most 64 - 7 * i bits: the tenth contributes one bit. */
  lemma {:induction false} ScanUvarintFromBound(s: seq<byte>, i: nat)
    requires i <= |s| && i <= MaxVarintLen64
    ensures var r := ScanUvarintFrom(s, i); r.Done? ==> r.value < 2 * Pow128(9 - i)
    decreases |s| - i
  {
    if i < MaxVarintLen64 && i < |s| && s[i] >= 0x80 {
      ScanUvarintFromBound(s, i + 1);
    }
  }

  /** binary.ReadUvarint on the bytes s still to come: a value that fits 64 bits. */
  function ScanUvarint(s: seq<byte>): (r: Scan)
    ensures r.used <= |s| && r.used <= MaxVarintLen64
    ensures r.Done? ==> 0 < r.used && 0 <= r.value < Two64
    ensures r.Failed? ==> r.error in {EOF, UnexpectedEOF, Overflow}
  {
    ScanUvarintFromBound(s, 0);
    Pow128Table();
    ScanUvarintFrom(s, 0)
  }

  /** binary.ReadVarint on the bytes s still to come. */
  function ScanVarint(s: seq<byte>): (r: Scan)
    ensures r.used == ScanUvarint(s).used && r.Done? == ScanUvarint(s).Done?
    ensures r.Done? ==> MinInt64 <= r.value <= MaxInt64
    ensures r.Failed? ==> r.error == ScanUvarint(s).error
  {
    match ScanUvarint(s)
    case Done(ux, k) => Done(Unzigzag(ux), k)
    case Failed(e, k) => Failed(e, k)
  }

  /** Reading the bytes of an encoding back, from its i-th group on. */
  lemma {:induction false} ScanEncodedUvarint(s: seq<byte>, i: nat, v: nat)
    requires i < MaxVarintLen64 && v < 2 * Pow128(MaxVarintLen64 - 1 - i)
    requires i + |EncodeUvarint(v)| <= |s| && s[i..i + |EncodeUvarint(v)|] == EncodeUvarint(v)
    ensures ScanUvarintFrom(s, i) == Done(v, i + |EncodeUvarint(v)|)
    decreases v
  {
    var e := EncodeUvarint(v);
    assert s[i] == e[0];
    if v >= 0x80 {
      var e' := EncodeUvarint(v / 0x80);
      assert e == [v % 0x80 + 0x80] + e';
      assert s[i + 1..i + 1 + |e'|] == s[i..i + |e|][1..] == e[1..] == e';
      ScanEncodedUvarint(s, i + 1, v / 0x80);
    }
  }

  /**
   * Bytes that all carry the continuation bit never make a value: the decoder
   * runs into the end of the stream (io.EOF before the first byte,
   * io.ErrUnexpectedEOF after it) or, at the tenth byte, into Overflow.
   */
  lemma {:induction false} ScanUnterminated(s: seq<byte>, i: nat)
    requires i <= |s| && i <= MaxVarintLen64
    requires forall j :: i <= j < |s| && j < MaxVarintLen64 ==> s[j] >= 0x80
    ensures ScanUvarintFrom(s, i)
         == if |s| < MaxVarintLen64 then Failed(if |s| > 0 then UnexpectedEOF else EOF, |s|)
            else Failed(Overflow, MaxVarintLen64)
    decreases |s| - i
  {
    if i < MaxVarintLen64 && i < |s| {
      ScanUnterminated(s, i + 1);
    }
  }

  /** The same for a whole varint: what ReadVarint reports on a header cut short or too long. */
  lemma ScanVarintUnterminated(s: seq<byte>)
    requires forall j :: 0 <= j < |s| && j < MaxVarintLen64 ==> s[j] >= 0x80
    ensures ScanVarint(s)
         == if |s| == 0 then Failed(EOF, 0)
            else if |s| < MaxVarintLen64 then Failed(UnexpectedEOF, |s|)
            else Failed(Overflow, MaxVarintLen64)
  {
    ScanUnterminated(s, 0);
  }

  /**
   * A tenth byte may only hold the top bit of a 64-bit value: one that ends the
   * varint with a value above 1 is reported as Overflow after consuming it.
   */
  lemma {:induction false} ScanTenthByte(s: seq<byte>, i: nat)
    requires i < MaxVarintLen64 && MaxVarintLen64 <= |s|
    requires forall j :: i <= j < MaxVarintLen64 - 1 ==> s[j] >= 0x80
    requires 1 < s[MaxVarintLen64 - 1] < 0x80
    ensures ScanUvarintFrom(s, i) == Failed(Overflow, MaxVarintLen64)
    decreases MaxVarintLen64 - i
  {
    if i < MaxVarintLen64 - 1 {
      ScanTenthByte(s, i + 1);
    }
  }

  /**
   * Decoding inverts encoding, and the decoder stops exactly at the end of the
   * encoding whatever follows it on the stream.
   */
  lemma VarintRoundTrip(x: int64, rest: seq<byte>)
    ensures ScanVarint(EncodeVarint(x) + rest) == Done(x, |EncodeVarint(x)|)
  {
    var e := EncodeVarint(x);
    var s := e + rest;
    assert s[0..|e|] == EncodeUvarint(ZigZag(x));
    Pow128Table();
    ScanEncodedUvarint(s, 0, ZigZag(x));
    UnzigzagZigZag(x);
  }

  /** `v << shift` on unbounded integers. */
  function Shl(v: nat, shift: nat): nat
  {
    if shift == 0 then v else 2 * Shl(v, shift - 1)
  }

  lemma {:induction false} ShlAdd(a: nat, b: nat, shift: nat)
    ensures Shl(a + b, shift) == Shl(a, shift) + Shl(b, shift)
  {
    if shift > 0 {
      ShlAdd(a, b, shift - 1);
    }
  }

  /** Shifting seven more bits is multiplying by 128 first. */
  lemma {:induction false} ShlGroup(v: nat, shift: nat)
    ensures Shl(v, shift + 7) == Shl(0x80 * v, shift)
  {
    if shift > 0 {
      ShlGroup(v, shift - 1);
    } else {
      assert Shl(v, 1) == 2 * v;
      assert Shl(v, 2) == 4 * v;
      assert Shl(v, 3) == 8 * v;
      assert Shl(v, 4) == 16 * v;
      assert Shl(v, 5) == 32 * v;
      assert Shl(v, 6) == 64 * v;
    }
  }

  /** The outcome of a whole read, given the groups x already read and the shift of the next one. */
  function Resume(r: Scan, x: nat, shift: nat): Scan
    requires r.Done? ==> r.value >= 0
  {
    match r
    case Done(v, k) => Done(x + Shl(v, shift), k)
    case Failed(e, k) => Failed(e, k)
  }

  /** One continuation byte: the loop goes on with the byte's seven bits added in. */
  lemma ScanContinues(s: seq<byte>, i: nat, x: nat, shift: nat)
    requires i < |s| && i < MaxVarintLen64 && s[i] >= 0x80
    ensures Resume(ScanUvarintFrom(s, i), x, shift)
         == Resume(ScanUvarintFrom(s, i + 1), x + Shl(s[i] - 0x80, shift), shift + 7)
  {
    match ScanUvarintFrom(s, i + 1)
    case Done(v, k) =>
      ShlAdd(s[i] - 0x80, 0x80 * v, shift);
      ShlGroup(v, shift);
    case Failed(e, k) =>
  }

  /**
   * binary.ReadUvarint(src): the value decoded from the next bytes of src. The
   * groups occupy disjoint bits, so Go's `|` is `+` here. The value returned
   * beside an error is not specified.
   */
  method ReadUvarint(src: Source) returns (x: nat, err: Option<Error>)
    requires src.Valid()
    modifies src
    ensures src.Valid()
    ensures var r := ScanUvarint(src.bytes[old(src.pos)..]);
      && src.pos == old(src.pos) + r.used
      && (r.Done? ==> err == None && x == r.value)
      && (r.Failed? ==> err == Some(r.error))
  {
    ghost var s := src.bytes[src.pos..];
    ghost var start := src.pos;
    x := 0;
    var shift := 0;
    var i := 0;
    while i < MaxVarintLen64
      invariant i <= MaxVarintLen64 && i <= |s|
      invariant src.Valid() && src.pos == start + i
      invariant Resume(ScanUvarintFrom(s, i), x, shift) == ScanUvarint(s)
    {
      var b, e := src.ReadByte();
      if e.Some? {
        if i > 0 && e == Some(EOF) {
          e := Some(UnexpectedEOF);
        }
        return x, e;
      }
      assert b == s[i];
      if b < 0x80 {
        if i == MaxVarintLen64 - 1 && b > 1 {
          return x, Some(Overflow);
        }
        return x + Shl(b, shift), None;
      }
      ScanContinues(s, i, x, shift);
      x := x + Shl(b - 0x80, shift);
      shift := shift + 7;
      i := i + 1;
    }
    err := Some(Overflow);
  }

  /** binary.ReadVarint(src). The value returned beside an error is 0 here. */
  method ReadVarint(src: Source) returns (x: int64, err: Option<Error>)
    requires src.Valid()
    modifies src
    ensures src.Valid()
    ensures var r := ScanVarint(src.bytes[old(src.pos)..]);
      && src.pos == old(src.pos) + r.used
      && (r.Done? ==> err == None && x == r.value)
      && (r.Failed? ==> err == Some(r.error) && x == 0)
  {
    var ux;
    ux, err := ReadUvarint(src);
    x := if err.Some? then 0 else Unzigzag(ux);
  }
}
