/** NETMT_GET from end to end: the client cuts a file into frames, and the server
    puts the frames together again from whatever segments the connection delivers. */
module Transfer {
  import opened Octets
  import opened Options
  import opened Frame

  // ---- The client: one request is answered with the whole file ----

  lemma {:induction false} CarriesMore(frames: seq<Bytes>, sent: Bytes, f: Bytes, chunk: Bytes)
    requires CarriesFile(frames, sent) && IsData(f, chunk)
    ensures CarriesFile(frames + [f], sent + chunk)
    decreases |frames|
  {
    if frames == [] {
      assert frames + [f] == [f] && sent + chunk == chunk;
      assert chunk[..|chunk|] == chunk && [f][1..] == [] && chunk[|chunk|..] == [];
    } else {
      hide IntAt;
      var n := IntAt(frames[0], DATA_SIZE_AT);
      CarriesMore(frames[1..], sent[n..], f, chunk);
      assert (frames + [f])[1..] == frames[1..] + [f];
      assert (sent + chunk)[..n] == sent[..n] && (sent + chunk)[n..] == sent[n..] + chunk;
    }
  }

  /** Three fields of a record that is sent again and again. */
  function Stamp(buf: Bytes, sub: int): (r: Bytes)
    requires |buf| == FRAME
    ensures |r| == FRAME
  {
    Put(Put(buf, SUBCOMMONID_AT, Int32(sub)), LEN_AT, Int32(FRAME))
  }

  lemma Stamped(buf: Bytes, sub: int)
    requires |buf| == FRAME && 0 <= sub < 100 && IntAt(buf, COMMONID_AT) == NETMT_GET
    ensures IsGet(Stamp(buf, sub), sub)
    ensures IntAt(Stamp(buf, sub), BYTE_SIZE_AT) == IntAt(buf, BYTE_SIZE_AT)
    ensures IntAt(Stamp(buf, sub), DATA_SIZE_AT) == IntAt(buf, DATA_SIZE_AT)
    ensures Stamp(buf, sub)[DATA_AT..BYTE_SIZE_AT] == buf[DATA_AT..BYTE_SIZE_AT]
  {
    hide IntAt, Int32;
    var r := Put(buf, SUBCOMMONID_AT, Int32(sub));
    StampKeeps(buf, sub, COMMONID_AT);
    StampKeeps(buf, sub, BYTE_SIZE_AT);
    StampKeeps(buf, sub, DATA_SIZE_AT);
    PutInt(buf, SUBCOMMONID_AT, sub, SUBCOMMONID_AT);
    PutInt(r, LEN_AT, FRAME, SUBCOMMONID_AT);
    PutInt(r, LEN_AT, FRAME, LEN_AT);
  }

  lemma StampKeeps(buf: Bytes, sub: int, other: nat)
    requires |buf| == FRAME && 0 <= sub < 100 && other in {COMMONID_AT, BYTE_SIZE_AT, DATA_SIZE_AT}
    ensures IntAt(Stamp(buf, sub), other) == IntAt(buf, other)
  {
    hide IntAt, Int32;
    PutInt(buf, SUBCOMMONID_AT, sub, other);
    PutInt(Put(buf, SUBCOMMONID_AT, Int32(sub)), LEN_AT, FRAME, other);
  }

  /** A data frame: a chunk at the front of the data field, and its size. */
  function Load(buf: Bytes, chunk: Bytes): (r: Bytes)
    requires |buf| == FRAME && |chunk| <= BUFFER_SIZE
    ensures |r| == FRAME
  {
    Put(Put(buf, DATA_AT, chunk), DATA_SIZE_AT, Int32(|chunk|))
  }

  lemma Loaded(buf: Bytes, chunk: Bytes)
    requires |buf| == FRAME && |chunk| <= BUFFER_SIZE
    ensures IntAt(Load(buf, chunk), DATA_SIZE_AT) == |chunk|
    ensures IntAt(Load(buf, chunk), COMMONID_AT) == IntAt(buf, COMMONID_AT)
    ensures Load(buf, chunk)[DATA_AT..DATA_AT + |chunk|] == chunk
  {
    hide IntAt, Int32;
    var r := Put(buf, DATA_AT, chunk);
    PutOther(buf, DATA_AT, chunk, COMMONID_AT);
    PutInt(r, DATA_SIZE_AT, |chunk|, COMMONID_AT);
    PutInt(r, DATA_SIZE_AT, |chunk|, DATA_SIZE_AT);
  }

  /** The NETMT_GET block sender: what it writes to the connection. */
  method SendFile(request: Bytes, file: Bytes) returns (frames: seq<Bytes>)
    requires |request| == FRAME && IntAt(request, COMMONID_AT) == NETMT_GET && |file| < 0x8000_0000
    ensures IsTransfer(frames, file)
  {
    hide IntAt, Put, Int32, CarriesFile;
    var sendbuf := Stamp(request, NETMT_FILE_OPEN);
    Stamped(request, NETMT_FILE_OPEN);
    var open := sendbuf;
    var data: seq<Bytes> := [];
    var filebytes := 0;
    assert CarriesFile(data, file[..0]) by { CarriesNothing(); }
    while filebytes < |file|
      invariant 0 <= filebytes <= |file| && CarriesFile(data, file[..filebytes])
      invariant |sendbuf| == FRAME && IntAt(sendbuf, COMMONID_AT) == NETMT_GET
    {
      var n := if |file| - filebytes < BUFFER_SIZE then |file| - filebytes else BUFFER_SIZE;
      var chunk := file[filebytes..filebytes + n];
      filebytes := filebytes + n;
      DataFrame(sendbuf, chunk);
      sendbuf := Stamp(Load(sendbuf, chunk), NETMT_DATA);
      CarriesMore(data, file[..filebytes - n], sendbuf, chunk);
      assert file[..filebytes - n] + chunk == file[..filebytes];
      data := data + [sendbuf];
      PutOther(sendbuf, DATA_AT, seq(BUFFER_SIZE, _ => 0), COMMONID_AT);
      sendbuf := Put(sendbuf, DATA_AT, seq(BUFFER_SIZE, _ => 0));
    }
    assert file[..filebytes] == file;
    PutInt(sendbuf, BYTE_SIZE_AT, filebytes, COMMONID_AT);
    PutInt(sendbuf, BYTE_SIZE_AT, filebytes, BYTE_SIZE_AT);
    sendbuf := Put(sendbuf, BYTE_SIZE_AT, Int32(filebytes));
    Stamped(sendbuf, NETMT_GET_END);
    sendbuf := Stamp(sendbuf, NETMT_GET_END);
    frames := [open] + data + [sendbuf];
    assert frames[1..|frames| - 1] == data;
  }

  lemma CarriesNothing()
    ensures CarriesFile([], [])
  {
  }

  lemma FrontOfSlice(f: Bytes, i: nat, j: nat, k: nat)
    requires i <= j <= k <= |f|
    ensures f[i..j] == f[i..k][..j - i]
  {
  }

  lemma DataFrame(buf: Bytes, chunk: Bytes)
    requires |buf| == FRAME && IntAt(buf, COMMONID_AT) == NETMT_GET && 0 < |chunk| <= BUFFER_SIZE
    ensures IsData(Stamp(Load(buf, chunk), NETMT_DATA), chunk)
  {
    hide IntAt, Put, Int32, Stamp, Load;
    var r := Load(buf, chunk);
    Loaded(buf, chunk);
    Stamped(r, NETMT_DATA);
    var f := Stamp(r, NETMT_DATA);
    var end := DATA_AT + |chunk|;
    assert |f| == |r| == FRAME;
    FrontOfSlice(f, DATA_AT, end, BYTE_SIZE_AT);
    FrontOfSlice(r, DATA_AT, end, BYTE_SIZE_AT);
  }

  // ---- The server: one frame at a time ----

  /** The file being written, if one is open; the last one that was closed; the
      count of bytes written; and what has been written to the connection. */
  datatype Server = Server(open: Option<Bytes>, closed: Option<Bytes>, fsize: int, replies: seq<Bytes>)

  /** What the NETMT_GET case does with a frame.  Without an open file, and for a
      size beyond the frame, nothing is modelled. */
  function Dispatch(st: Server, f: Bytes): Server
    requires |f| == FRAME
  {
    if IntAt(f, COMMONID_AT) != NETMT_GET then st
    else if IntAt(f, SUBCOMMONID_AT) == NETMT_FILE_OPEN then st.(open := Some([]), fsize := 0)
    else if st.open.None? then st
    else if IntAt(f, SUBCOMMONID_AT) == NETMT_DATA then
      var n := IntAt(f, DATA_SIZE_AT);
      if 0 < n <= FRAME - DATA_AT then st.(open := Some(st.open.value + f[DATA_AT..DATA_AT + n]), fsize := st.fsize + n)
      else st
    else if IntAt(f, SUBCOMMONID_AT) == NETMT_GET_END then
      var done := IntAt(f, BYTE_SIZE_AT) == st.fsize;
      var replies := if done then st.replies + [Stamp(f, NETMT_GET_SUCCESS)] else st.replies;
      st.(open := None, closed := st.open, replies := replies)
    else st
  }

  /** All whole frames, in order; what is left over waits. */
  function Run(st: Server, bytes: Bytes): Server
    decreases |bytes|
  {
    if |bytes| < FRAME then st else Run(Dispatch(st, bytes[..FRAME]), bytes[FRAME..])
  }

  predicate WholeFrames(n: int) {
    n % FRAME == 0
  }

  lemma {:induction false} RunConcat(st: Server, x: Bytes, y: Bytes)
    requires WholeFrames(|x|)
    ensures Run(st, x + y) == Run(Run(st, x), y)
    decreases |x|
  {
    hide Dispatch;
    if x == [] {
      assert x + y == y;
    } else {
      RunConcat(Dispatch(st, x[..FRAME]), x[FRAME..], y);
      assert (x + y)[..FRAME] == x[..FRAME] && (x + y)[FRAME..] == x[FRAME..] + y;
    }
  }

  lemma {:induction false} CarriedFileIsWritten(st: Server, frames: seq<Bytes>, file: Bytes, more: Bytes)
    requires CarriesFile(frames, file) && st.open.Some?
    ensures Run(st, Joined(frames) + more)
         == Run(st.(open := Some(st.open.value + file), fsize := st.fsize + |file|), more)
    decreases |frames|
  {
    if frames == [] {
      assert Joined(frames) + more == more;
      assert st.open.value + file == st.open.value;
    } else {
      hide IntAt, Run;
      var n := IntAt(frames[0], DATA_SIZE_AT);
      var rest := Joined(frames[1..]) + more;
      RunFirst(st, frames[0], rest);
      var st1 := Dispatch(st, frames[0]);
      CarriedFileIsWritten(st1, frames[1..], file[n..], more);
      assert Joined(frames) + more == frames[0] + rest;
      assert st.open.value + file[..n] + file[n..] == st.open.value + file by { assert file[..n] + file[n..] == file; }
    }
  }

  lemma RunFirst(st: Server, f: Bytes, rest: Bytes)
    requires |f| == FRAME
    ensures Run(st, f + rest) == Run(Dispatch(st, f), rest)
  {
    hide Dispatch;
    assert (f + rest)[..FRAME] == f && (f + rest)[FRAME..] == rest;
  }

  /** Frames of other commands leave an open file alone. */
  lemma OthersIgnored(st: Server, f: Bytes, more: Bytes)
    requires |f| == FRAME && IntAt(f, COMMONID_AT) != NETMT_GET
    ensures Run(st, f + more) == Run(st, more)
  {
    RunFirst(st, f, more);
  }

  /** A session leaves a file equal to the one that was sent, closed, and is answered
      with exactly one NETMT_GET_SUCCESS if it announces the right number of bytes, and
      not at all otherwise. */
  lemma SessionEnds(st: Server, frames: seq<Bytes>, file: Bytes, n: int)
    requires IsSession(frames, file, n)
    ensures
      var st1 := Run(st, Joined(frames));
      && st1.closed == Some(file) && st1.open == None
      && (n != |file| ==> st1.replies == st.replies)
      && (n == |file| ==>
            && |st1.replies| == |st.replies| + 1 && st1.replies[..|st.replies|] == st.replies
            && IsGet(st1.replies[|st.replies|], NETMT_GET_SUCCESS))
  {
    hide IntAt, CarriesFile, Run;
    var (first, last) := (frames[0], frames[|frames| - 1]);
    var data := frames[1..|frames| - 1];
    JoinedParts(first, data, last);
    assert frames == [first] + data + [last];
    RunFirst(st, first, Joined(data) + last);
    var st0 := Dispatch(st, first);
    CarriedFileIsWritten(st0, data, file, last);
    assert [] + file == file;
    RunFirst(st0.(open := Some(file), fsize := |file|), last, []);
    assert last + [] == last;
    RunNothing(Dispatch(st0.(open := Some(file), fsize := |file|), last));
    Stamped(last, NETMT_GET_SUCCESS);
  }

  lemma RunNothing(st: Server)
    ensures Run(st, []) == st
  {
  }

  lemma {:induction false} JoinedParts(first: Bytes, data: seq<Bytes>, last: Bytes)
    ensures Joined([first] + data + [last]) == first + (Joined(data) + last)
  {
    JoinedLast(data, last);
    assert ([first] + data + [last])[1..] == data + [last];
  }

  lemma {:induction false} JoinedLast(data: seq<Bytes>, last: Bytes)
    ensures Joined(data + [last]) == Joined(data) + last
  {
    if data == [] {
      assert data + [last] == [last] && [last][1..] == [];
      assert last + [] == [] + last;
    } else {
      JoinedLast(data[1..], last);
      assert (data + [last])[1..] == data[1..] + [last];
    }
  }

  // ---- Reassembly ----

  /** The length field of a frame of which only 1, 2 or 3 bytes have arrived is read
      together with old bytes of the buffer.  It then looks longer than what is
      there, as it should, unless the old fourth byte makes it negative. */
  lemma PartialLength(buf: Bytes, off: nat, left: nat)
    requires 0 < left < 4 && off + 4 <= |buf|
    requires buf[off..off + left] == Int32(FRAME)[..left]
    ensures IntAt(buf, off) > left <==> buf[off + 3] < 128
  {
    assert buf[off] == buf[off..off + left][0] == 0x30;
  }

  lemma LengthBytes(b0: Byte, b1: Byte, b2: Byte, b3: Byte)
    requires IntOf(b0, b1, b2, b3) == FRAME
    ensures [b0, b1, b2, b3] == Int32(FRAME)
  {
    assert b3 == 0;
    assert b2 == 0;
    assert b1 == 0x14;
  }

  lemma {:induction false} WellFramedAt(sent: Bytes, at: nat)
    requires WellFramed(sent) && WholeFrames(at) && at < |sent|
    ensures at + FRAME <= |sent| && IntAt(sent, at) == FRAME
    decreases |sent|
  {
    hide IntOf;
    if at > 0 {
      WellFramedAt(sent[FRAME..], at - FRAME);
    }
  }

  /** What the length field of the next frame reads as, complete or not. */
  lemma LengthRead(sent: Bytes, base: nat, all: Bytes, buf: Bytes, off: nat)
    requires WellFramed(sent) && WholeFrames(base) && WholeFrames(off)
    requires base + |all| <= |sent| && all == sent[base..base + |all|]
    requires off < |all| && off + 4 <= |buf| && |all| <= |buf| && buf[..|all|] == all
    requires LastLengthBytesZero(buf)
    ensures |all| - off >= 4 ==> IntAt(buf, off) == FRAME
    ensures |all| - off < 4 ==> IntAt(buf, off) > |all| - off
  {
    assert buf[off + 3] == 0;
    hide WellFramed, IntOf, LastLengthBytesZero;
    var at, left := base + off, |all| - off;
    WellFramedAt(sent, at);
    LengthBytes(sent[at], sent[at + 1], sent[at + 2], sent[at + 3]);
    assert sent[at..at + 4] == Int32(FRAME);
    forall k | 0 <= k < 4 && k < left
      ensures buf[off + k] == sent[at + k] == Int32(FRAME)[k]
    {
      assert buf[off + k] == buf[..|all|][off + k] == all[off + k] == sent[at + k];
      assert sent[at + k] == sent[at..at + 4][k];
    }
    if left < 4 {
      PartialLength(buf, off, left);
    } else {
      assert buf[off..off + 4] == Int32(FRAME);
      assert IntAt(buf, off) == IntAt(sent, at);
    }
  }

  /** A new segment behind the waiting bytes. */
  lemma RunWaiting(start: Server, stream: Bytes, waiting: Bytes, segment: Bytes, sent: Bytes)
    requires |waiting| < FRAME && |waiting| <= |stream| && WholeFrames(|stream| - |waiting|)
    requires waiting == stream[|stream| - |waiting|..] && stream + segment <= sent
    ensures Run(start, stream + segment) == Run(Run(start, stream), waiting + segment)
    ensures
      var base := |stream| - |waiting|;
      var all := waiting + segment;
      base + |all| <= |sent| && all == sent[base..base + |all|] == (stream + segment)[base..]
  {
    hide Dispatch, Run, WholeFrames;
    var base := |stream| - |waiting|;
    var x := stream[..base];
    assert stream == x + waiting;
    RunConcat(start, x, waiting);
    RunConcat(start, x, waiting + segment);
    assert stream + segment == x + (waiting + segment);
    NothingYet(Run(start, x), waiting);
    assert sent[..|stream| + |segment|] == stream + segment;
  }

  lemma NothingYet(st: Server, bytes: Bytes)
    requires |bytes| < FRAME
    ensures Run(st, bytes) == st
  {
  }

  lemma LastBytes(stream: Bytes, all: Bytes, left: nat)
    requires left <= |all| <= |stream| && all == stream[|stream| - |all|..]
    requires WholeFrames(|stream| - |all|) && WholeFrames(|all| - left)
    ensures all[|all| - left..] == stream[|stream| - left..] && WholeFrames(|stream| - left)
  {
  }

  lemma NextWhole(off: nat)
    requires WholeFrames(off)
    ensures WholeFrames(off + FRAME)
  {
  }

  // ---- What the buffer holds behind the bytes that have arrived ----

  /** Where the fourth byte of a length field belongs there is a zero. */
  predicate LastLengthBytesZero(buf: Bytes) {
    forall i | 0 <= i < |buf| && i % FRAME == 3 :: buf[i] == 0
  }

  lemma LastLengthByte(sent: Bytes, at: nat)
    requires WellFramed(sent) && WholeFrames(at) && at + 3 < |sent|
    ensures sent[at + 3] == 0
  {
    hide WellFramed;
    WellFramedAt(sent, at);
    LengthBytes(sent[at], sent[at + 1], sent[at + 2], sent[at + 3]);
  }

  /** A segment of what was sent, put at its place, leaves these zeros. */
  lemma StillZero(sent: Bytes, base: nat, all: Bytes, was: Bytes, now: Bytes)
    requires WellFramed(sent) && WholeFrames(base) && base + |all| <= |sent| && all == sent[base..base + |all|]
    requires |now| == |was| >= |all| && now[..|all|] == all && now[|all|..] == was[|all|..] && LastLengthBytesZero(was)
    ensures LastLengthBytesZero(now)
  {
    hide WellFramed;
    forall i | 0 <= i < |now| && i % FRAME == 3
      ensures now[i] == 0
    {
      if i < |all| {
        LastLengthByte(sent, base + (i - 3));
        assert now[i] == now[..|all|][i] == all[i] == sent[base + i];
      } else {
        assert now[i] == now[|all|..][i - |all|] == was[|all|..][i - |all|] == was[i];
      }
    }
  }

  /** So does moving waiting bytes to the front. */
  lemma MovedZero(was: Bytes, now: Bytes, off: nat, left: nat)
    requires WholeFrames(off) && off + left <= |was| == |now| && LastLengthBytesZero(was)
    requires now[..left] == was[off..off + left] && now[left..] == was[left..]
    ensures LastLengthBytesZero(now)
  {
    forall i | 0 <= i < |now| && i % FRAME == 3
      ensures now[i] == 0
    {
      if i < left {
        assert now[i] == now[..left][i] == was[off..off + left][i] == was[off + i];
      } else {
        assert now[i] == now[left..][i - left] == was[left..][i - left] == was[i];
      }
    }
  }

  lemma NextFrame(st: Server, bytes: Bytes)
    requires |bytes| >= FRAME
    ensures Run(st, bytes) == Run(Dispatch(st, bytes[..FRAME]), bytes[FRAME..])
  {
  }

  /** The server's connection state: databuf, bytelen, and what the frames so far
      have done; stream is all that has been received. */
  class Receiver {
    const databuf: array<Byte>
    var bytelen: nat
    var server: Server
    ghost const start: Server
    ghost var stream: Bytes

    /** Fewer bytes than a frame are waiting, at the front of the buffer; every
        frame before them has been dispatched.  Frames have always been put at
        multiples of their size, into a buffer that was zero at first. */
    ghost predicate Valid()
      reads this, databuf
    {
      && databuf.Length == DATABUF && bytelen < FRAME && bytelen <= |stream|
      && WholeFrames(|stream| - bytelen)
      && databuf[..bytelen] == stream[|stream| - bytelen..]
      && server == Run(start, stream) && LastLengthBytesZero(databuf[..])
    }

    constructor (start: Server)
      ensures Valid() && stream == [] && server == start && this.start == start && fresh(databuf)
    {
      databuf := new Byte[DATABUF](_ => 0);
      bytelen := 0;
      server, this.start, stream := start, start, [];
    }

    /** The copy at the top of tcp_recv. */
    method Append(segment: Bytes)
      requires bytelen + |segment| <= databuf.Length
      modifies `bytelen, databuf
      ensures bytelen == old(bytelen) + |segment|
      ensures databuf[..bytelen] == old(databuf[..bytelen]) + segment
      ensures databuf[bytelen..] == old(databuf[..])[bytelen..]
    {
      forall i | 0 <= i < |segment| {
        databuf[bytelen + i] := segment[i];
      }
      bytelen := bytelen + |segment|;
    }

    /** The same for a segment of what was sent, behind the waiting bytes. */
    method Take(segment: Bytes, ghost sent: Bytes, ghost base: nat, ghost all: Bytes)
      requires bytelen + |segment| <= databuf.Length && all == databuf[..bytelen] + segment
      requires WellFramed(sent) && WholeFrames(base) && base + |all| <= |sent| && all == sent[base..base + |all|]
      requires LastLengthBytesZero(databuf[..])
      modifies `bytelen, databuf
      ensures bytelen == |all| && databuf[..bytelen] == all && LastLengthBytesZero(databuf[..])
    {
      hide WellFramed, WholeFrames, LastLengthBytesZero;
      ghost var was := databuf[..];
      Append(segment);
      StillZero(sent, base, all, was, databuf[..]);
    }

    /** tcp_recv, for a segment of what the client has sent. */
    method TcpRecv(segment: Bytes, ghost sent: Bytes)
      requires Valid() && 0 < |segment| <= RECV_BUFSIZE
      requires WellFramed(sent) && stream + segment <= sent
      modifies this, databuf
      ensures Valid() && stream == old(stream) + segment
    {
      hide Run, WellFramed, IntAt, Dispatch, WholeFrames, LastLengthBytesZero;
      ghost var base, all := |stream| - bytelen, databuf[..bytelen] + segment;
      RunWaiting(start, stream, databuf[..bytelen], segment, sent);
      Take(segment, sent, base, all);
      server, bytelen := DispatchAll(sent, base, all, bytelen);
      stream := stream + segment;
      LastBytes(stream, all, bytelen);
    }

    /** The loop of tcp_recv over the frames in the buffer. */
    method DispatchAll(ghost sent: Bytes, ghost base: nat, ghost all: Bytes, total: nat) returns (st: Server, left: nat)
      requires databuf.Length == DATABUF && 0 < total == |all| <= DATABUF - FRAME && databuf[..total] == all
      requires WellFramed(sent) && WholeFrames(base) && base + total <= |sent| && all == sent[base..base + total]
      requires LastLengthBytesZero(databuf[..])
      modifies databuf
      ensures left < FRAME && left <= total && WholeFrames(total - left)
      ensures databuf[..left] == all[total - left..] && LastLengthBytesZero(databuf[..])
      ensures st == Run(server, all)
    {
      assert WholeFrames(0);
      hide Run, WellFramed, IntAt, Dispatch, WholeFrames, LastLengthBytesZero;
      st, left := server, total;
      var off: nat := 0;
      LengthRead(sent, base, all, databuf[..], 0);
      if IntAt(databuf[..], 0) > left {
        NothingYet(st, all);
        return;
      }
      while left != 0
        invariant off + left == total && WholeFrames(off) && databuf[..] == old(databuf[..])
        invariant left != 0 ==> left >= FRAME
        invariant Run(st, all[off..]) == Run(server, all)
      {
        var frame := databuf[off..off + FRAME];
        assert all[off..][..FRAME] == frame && all[off..][FRAME..] == all[off + FRAME..];
        NextFrame(st, all[off..]);
        NextWhole(off);
        LengthRead(sent, base, all, databuf[..], off);
        st := Dispatch(st, frame);
        left := left - IntAt(databuf[..], off);
        off := off + IntAt(databuf[..], off);
        if off < total {
          LengthRead(sent, base, all, databuf[..], off);
        }
        if IntAt(databuf[..], off) > left {
          NothingYet(st, all[off..]);
          ghost var was := databuf[..];
          MoveDown(off, left);
          MovedZero(was, databuf[..], off, left);
          return;
        }
      }
      NothingYet(st, all[off..]);
    }

    /** memmove (databuf, tembuf, bytelen) */
    method MoveDown(off: nat, left: nat)
      requires off + left <= databuf.Length
      modifies databuf
      ensures databuf[..left] == old(databuf[off..off + left]) && databuf[left..] == old(databuf[left..])
    {
      forall i | 0 <= i < left {
        databuf[i] := databuf[off + i];
      }
    }
  }

  lemma {:induction false} JoinedNext(segments: seq<Bytes>, i: nat)
    requires i < |segments|
    ensures Joined(segments[..i + 1]) == Joined(segments[..i]) + segments[i]
    ensures Joined(segments[..i + 1]) <= Joined(segments)
  {
    hide Joined;
    assert segments[..i + 1] == segments[..i] + [segments[i]];
    JoinedLast(segments[..i], segments[i]);
    JoinedPrefix(segments, i + 1);
  }

  lemma {:induction false} JoinedPrefix(segments: seq<Bytes>, i: nat)
    requires i <= |segments|
    ensures Joined(segments[..i]) <= Joined(segments)
  {
    if i > 0 {
      JoinedPrefix(segments[1..], i - 1);
      assert segments[..i][1..] == segments[1..][..i - 1];
    }
  }

  /** However the connection cuts a session into segments the server ends up with the
      file, and answers exactly if the number of bytes is right. */
  method Receive(start: Server, segments: seq<Bytes>, ghost frames: seq<Bytes>, ghost file: Bytes, ghost n: int)
    returns (end: Server)
    requires IsSession(frames, file, n) && Joined(segments) == Joined(frames)
    requires forall i | 0 <= i < |segments| :: 0 < |segments[i]| <= RECV_BUFSIZE
    ensures end.closed == Some(file) && end.open == None
    ensures n != |file| ==> end.replies == start.replies
    ensures
      n == |file| ==>
        && |end.replies| == |start.replies| + 1 && end.replies[..|start.replies|] == start.replies
        && IsGet(end.replies[|start.replies|], NETMT_GET_SUCCESS)
  {
    hide IsSession, Run, Joined, IntAt;
    ghost var sent := Joined(frames);
    SessionWellFramed(frames, file, n);
    var r := new Receiver(start);
    assert Joined(segments[..0]) == [] by { JoinedNothing(); }
    for i := 0 to |segments|
      invariant r.Valid() && fresh(r) && fresh(r.databuf) && r.start == start && r.stream == Joined(segments[..i])
    {
      JoinedNext(segments, i);
      r.TcpRecv(segments[i], sent);
    }
    assert segments[..|segments|] == segments;
    SessionEnds(start, frames, file, n);
    end := r.server;
  }

  lemma JoinedNothing()
    ensures Joined([]) == []
  {
  }
}
