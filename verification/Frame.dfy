/** netmt_command_t: the fixed-size record both ends exchange, as bytes. */
module Frame {
  import opened Octets

  /** sizeof (netmt_command_t), and where its fields are. */
  const FRAME: nat := 5168
  const LEN_AT: nat := 0
  const COMMONID_AT: nat := 8
  const SUBCOMMONID_AT: nat := 12
  const DATA_AT: nat := 1584
  const BYTE_SIZE_AT: nat := 2608
  const DATA_SIZE_AT: nat := 2612

  const BUFFER_SIZE: nat := 1024
  const DATABUF: nat := 20480
  const RECV_BUFSIZE: nat := 8192

  const NETMT_CLIENT: int := 2
  const NETMT_GET: int := 4
  const NETMT_GET_END: int := 3
  const NETMT_GET_SUCCESS: int := 4
  const NETMT_FILE_OPEN: int := 5
  const NETMT_DATA: int := 6

  /** A C int in memory, low-order byte first. */
  function Int32(v: int): (r: Bytes)
    ensures |r| == 4
  {
    [(v % 256) as Byte, (v / 0x100 % 256) as Byte, (v / 0x10000 % 256) as Byte, (v / 0x1000000 % 256) as Byte]
  }

  function IntOf(b0: Byte, b1: Byte, b2: Byte, b3: Byte): int {
    b0 as int + 0x100 * b1 as int + 0x10000 * b2 as int
    + 0x1000000 * (if b3 < 128 then b3 as int else b3 as int - 256)
  }

  function IntAt(buf: Bytes, at: nat): int
    requires at + 4 <= |buf|
  {
    IntOf(buf[at], buf[at + 1], buf[at + 2], buf[at + 3])
  }

  lemma ByteBelow(v: int, weight: int)
    requires weight == 0x100 || weight == 0x10000
    ensures v / (weight * 0x100) == v / weight / 0x100
  {
    assert weight == 0x100 ==> v / 0x10000 == v / 0x100 / 0x100;
    assert weight == 0x10000 ==> v / 0x1000000 == v / 0x10000 / 0x100;
  }

  lemma TopByte(q: int)
    requires -128 <= q < 128
    ensures q == if q % 256 < 128 then q % 256 else q % 256 - 256
  {
  }

  lemma IntRoundTrip(v: int)
    requires -0x8000_0000 <= v < 0x8000_0000
    ensures IntAt(Int32(v), 0) == v
  {
    var q1, q2, q3 := v / 0x100, v / 0x10000, v / 0x1000000;
    ByteBelow(v, 0x100);
    ByteBelow(v, 0x10000);
    assert v == 0x100 * q1 + v % 256 && q1 == 0x100 * q2 + q1 % 256 && q2 == 0x100 * q3 + q2 % 256;
    TopByte(q3);
  }

  /** Overwriting a field. */
  function Put(buf: Bytes, at: nat, field: Bytes): (r: Bytes)
    requires at + |field| <= |buf|
    ensures |r| == |buf|
  {
    buf[..at] + field + buf[at + |field|..]
  }

  /** A field that has been written reads back; the others stay. */
  lemma PutInt(buf: Bytes, at: nat, v: int, other: nat)
    requires at + 4 <= |buf| && other + 4 <= |buf| && -0x8000_0000 <= v < 0x8000_0000
    ensures other == at ==> IntAt(Put(buf, at, Int32(v)), other) == v
    ensures other + 4 <= at || at + 4 <= other ==> IntAt(Put(buf, at, Int32(v)), other) == IntAt(buf, other)
  {
    hide Int32, IntOf;
    var r := Put(buf, at, Int32(v));
    if other == at {
      assert forall k | 0 <= k < 4 :: r[at + k] == Int32(v)[k];
      IntRoundTrip(v);
    }
  }

  lemma PutOther(buf: Bytes, at: nat, field: Bytes, other: nat)
    requires at + |field| <= |buf| && other + 4 <= |buf| && (other + 4 <= at || at + |field| <= other)
    ensures IntAt(Put(buf, at, field), other) == IntAt(buf, other)
  {
    hide IntOf;
  }

  // ---- The frames of one transfer ----

  predicate HasLength(f: Bytes) {
    |f| == FRAME && IntAt(f, LEN_AT) == FRAME
  }

  predicate IsGet(f: Bytes, sub: int) {
    HasLength(f) && IntAt(f, COMMONID_AT) == NETMT_GET && IntAt(f, SUBCOMMONID_AT) == sub
  }

  predicate IsData(f: Bytes, chunk: Bytes) {
    && IsGet(f, NETMT_DATA) && 0 < |chunk| <= BUFFER_SIZE
    && IntAt(f, DATA_SIZE_AT) == |chunk| && f[DATA_AT..DATA_AT + |chunk|] == chunk
  }

  /** The data frames carry the file in order, each at least one byte of it. */
  predicate CarriesFile(frames: seq<Bytes>, file: Bytes)
    decreases |frames|
  {
    if frames == [] then file == []
    else
      && HasLength(frames[0])
      && var n := IntAt(frames[0], DATA_SIZE_AT);
         0 < n <= |file| && IsData(frames[0], file[..n]) && CarriesFile(frames[1..], file[n..])
  }

  /** The file is opened, its data follow, and the end announces n bytes. */
  predicate IsSession(frames: seq<Bytes>, file: Bytes, n: int) {
    && |frames| >= 2 && IsGet(frames[0], NETMT_FILE_OPEN)
    && CarriesFile(frames[1..|frames| - 1], file)
    && var last := frames[|frames| - 1];
       IsGet(last, NETMT_GET_END) && IntAt(last, BYTE_SIZE_AT) == n
  }

  predicate IsTransfer(frames: seq<Bytes>, file: Bytes) {
    IsSession(frames, file, |file|)
  }

  /** The frames one after the other, as they go over the connection. */
  function Joined(frames: seq<Bytes>): Bytes {
    if frames == [] then [] else frames[0] + Joined(frames[1..])
  }

  /** Whole frames, each with its length in front. */
  predicate WellFramed(bytes: Bytes)
    decreases |bytes|
  {
    bytes == [] || (|bytes| >= FRAME && HasLength(bytes[..FRAME]) && WellFramed(bytes[FRAME..]))
  }

  lemma {:induction false} JoinedWellFramed(frames: seq<Bytes>)
    requires forall i | 0 <= i < |frames| :: HasLength(frames[i])
    ensures WellFramed(Joined(frames))
  {
    if frames != [] {
      JoinedWellFramed(frames[1..]);
      var rest := Joined(frames[1..]);
      assert (frames[0] + rest)[..FRAME] == frames[0] && (frames[0] + rest)[FRAME..] == rest;
    }
  }

  lemma {:induction false} CarriersHaveLength(frames: seq<Bytes>, file: Bytes, i: nat)
    requires CarriesFile(frames, file) && i < |frames|
    ensures HasLength(frames[i])
    decreases |frames|
  {
    if i > 0 {
      CarriersHaveLength(frames[1..], file[IntAt(frames[0], DATA_SIZE_AT)..], i - 1);
    }
  }

  lemma SessionWellFramed(frames: seq<Bytes>, file: Bytes, n: int)
    requires IsSession(frames, file, n)
    ensures WellFramed(Joined(frames))
  {
    hide CarriesFile, IntAt;
    forall i | 0 <= i < |frames|
      ensures HasLength(frames[i])
    {
      if 0 < i < |frames| - 1 {
        CarriersHaveLength(frames[1..|frames| - 1], file, i - 1);
      }
    }
    JoinedWellFramed(frames);
  }
}
