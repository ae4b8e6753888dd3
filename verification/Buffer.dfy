/** The output buffer of buffer.c: a chain of chunks, filled at the tail and written
    out from the head. */
module Buffer {
  import opened Octets

  const NEWLINE: Byte := 10

  /** " --More-- " with the zero at its end, which is written too. */
  const MORE: Bytes := [32, 45, 45, 77, 111, 114, 101, 45, 45, 32, 0]

  /** Ten backspaces, ten spaces, ten backspaces. */
  const BACK: Bytes := [8, 8, 8, 8, 8, 8, 8, 8, 8, 8]
  const BLANK: Bytes := [32, 32, 32, 32, 32, 32, 32, 32, 32, 32]
  const ERASE: Bytes := BACK + BLANK + BACK

  function Flatten(parts: seq<Bytes>): Bytes {
    if parts == [] then [] else parts[0] + Flatten(parts[1..])
  }

  lemma FlattenHead(parts: seq<Bytes>)
    requires parts != []
    ensures Flatten(parts) == parts[0] + Flatten(parts[1..])
  {
  }

  lemma {:induction false} FlattenConcat(x: seq<Bytes>, y: seq<Bytes>)
    ensures Flatten(x + y) == Flatten(x) + Flatten(y)
  {
    if x == [] {
      assert x + y == y;
    } else {
      FlattenHead(x);
      FlattenHead(x + y);
      hide Flatten;
      FlattenConcat(x[1..], y);
      assert (x + y)[1..] == x[1..] + y;
    }
  }

  lemma FlattenLast(parts: seq<Bytes>, last: Bytes)
    ensures Flatten(parts + [last]) == Flatten(parts) + last
  {
    FlattenConcat(parts, [last]);
    assert [last][1..] == [];
  }

  lemma FlattenGrow(parts: seq<Bytes>, more: Bytes)
    requires parts != []
    ensures Flatten(parts[|parts| - 1 := parts[|parts| - 1] + more]) == Flatten(parts) + more
  {
    var (front, last) := (parts[..|parts| - 1], parts[|parts| - 1]);
    FlattenLast(front, last);
    FlattenLast(front, last + more);
    assert parts == front + [last];
    assert parts[|parts| - 1 := last + more] == front + [last + more];
  }

  // ---- The size of one window ----

  /** How many of these bytes buffer_flush_window writes: up to the byte that ends
      the last line, where a line also ends after `width` bytes.  The byte after a
      line end is counted as the second of its line. */
  function WindowSize(bytes: Bytes, width: int, height: int, lp: int, lineno: int): (n: nat)
    ensures n <= |bytes|
  {
    if bytes == [] then 0
    else if bytes[0] == NEWLINE || lp == width then
      if lineno + 1 == height then 1 else 1 + WindowSize(bytes[1..], width, height, 1, lineno + 1)
    else 1 + WindowSize(bytes[1..], width, height, lp + 1, lineno)
  }

  /** Where the line after these line ends starts, and from where its width counts. */
  function LineStart(ends: seq<nat>): nat {
    if ends == [] then 0 else ends[|ends| - 1] + 1
  }

  function CountedFrom(ends: seq<nat>): nat {
    if ends == [] then 0 else ends[|ends| - 1]
  }

  /** In the line after these, no byte from its start up to k is its end. */
  predicate NoEndUpTo(bytes: Bytes, width: int, ends: seq<nat>, k: nat) {
    k <= |bytes| && forall j | LineStart(ends) <= j < k :: bytes[j] != NEWLINE && j - CountedFrom(ends) != width
  }

  /** Every line ends at its first newline, or `width` bytes behind the last line end. */
  predicate AreLineEnds(bytes: Bytes, width: int, ends: seq<nat>)
    decreases |ends|
  {
    if ends == [] then true
    else
      var before, e := ends[..|ends| - 1], ends[|ends| - 1];
      && AreLineEnds(bytes, width, before) && LineStart(before) <= e < |bytes|
      && (bytes[e] == NEWLINE || e - CountedFrom(before) == width) && NoEndUpTo(bytes, width, before, e)
  }

  /** The n bytes end with the line end number `height`, or they are all there is and
      have fewer line ends. */
  predicate IsWindow(bytes: Bytes, width: int, height: int, ends: seq<nat>, n: nat) {
    && AreLineEnds(bytes, width, ends)
    && ((|ends| == height && height > 0 && n == ends[|ends| - 1] + 1)
        || ((height > 0 ==> |ends| < height) && n == |bytes| && NoEndUpTo(bytes, width, ends, n)))
  }

  lemma WindowIsLines(bytes: Bytes, width: int, height: int) returns (ends: seq<nat>)
    ensures IsWindow(bytes, width, height, ends, WindowSize(bytes, width, height, 0, 0))
  {
    assert bytes[0..] == bytes;
    ends := WindowFrom(bytes, width, height, 0, [], WindowSize(bytes, width, height, 0, 0));
  }

  /** n bytes of the window are still to come. */
  predicate Comes(bytes: Bytes, width: int, height: int, p: nat, lp: int, lineno: int, n: nat) {
    p <= |bytes| && n == WindowSize(bytes[p..], width, height, lp, lineno)
  }

  lemma {:induction false} WindowFrom(bytes: Bytes, width: int, height: int, p: nat, ends: seq<nat>, n: nat)
    returns (all: seq<nat>)
    requires AreLineEnds(bytes, width, ends) && LineStart(ends) <= p && NoEndUpTo(bytes, width, ends, p)
    requires Comes(bytes, width, height, p, p - CountedFrom(ends), |ends|, n) && (height > 0 ==> |ends| < height)
    ensures IsWindow(bytes, width, height, all, p + n)
    decreases |bytes| - p
  {
    WindowStep(bytes, width, height, p, p - CountedFrom(ends), |ends|, n);
    hide Comes, AreLineEnds;
    if p == |bytes| {
      all := ends;
    } else if bytes[p] == NEWLINE || p - CountedFrom(ends) == width {
      OneLineMore(bytes, width, ends, p);
      hide NoEndUpTo, LineStart, CountedFrom;
      all := ends + [p];
      if |all| != height {
        hide IsWindow;
        all := WindowFrom(bytes, width, height, p + 1, all, n - 1);
      }
    } else {
      LineGoesOn(bytes, width, ends, p);
      hide NoEndUpTo, LineStart, CountedFrom, IsWindow;
      all := WindowFrom(bytes, width, height, p + 1, ends, n - 1);
    }
  }

  lemma WindowStep(bytes: Bytes, width: int, height: int, p: nat, lp: int, lineno: int, n: nat)
    requires Comes(bytes, width, height, p, lp, lineno, n)
    ensures
      if p == |bytes| then n == 0
      else if bytes[p] == NEWLINE || lp == width then
        n > 0 && if lineno + 1 == height then n == 1 else Comes(bytes, width, height, p + 1, 1, lineno + 1, n - 1)
      else n > 0 && Comes(bytes, width, height, p + 1, lp + 1, lineno, n - 1)
  {
    if p < |bytes| {
      assert bytes[p..][0] == bytes[p] && bytes[p..][1..] == bytes[p + 1..];
    }
  }

  lemma OneLineMore(bytes: Bytes, width: int, ends: seq<nat>, p: nat)
    requires AreLineEnds(bytes, width, ends) && LineStart(ends) <= p < |bytes| && NoEndUpTo(bytes, width, ends, p)
    requires bytes[p] == NEWLINE || p - CountedFrom(ends) == width
    ensures
      var all := ends + [p];
      && AreLineEnds(bytes, width, all) && LineStart(all) == p + 1 && CountedFrom(all) == p
      && NoEndUpTo(bytes, width, all, p + 1) && all[|all| - 1] == p
  {
    assert (ends + [p])[..|ends|] == ends;
  }

  lemma LineGoesOn(bytes: Bytes, width: int, ends: seq<nat>, p: nat)
    requires LineStart(ends) <= p < |bytes| && NoEndUpTo(bytes, width, ends, p)
    requires bytes[p] != NEWLINE && p - CountedFrom(ends) != width
    ensures NoEndUpTo(bytes, width, ends, p + 1)
  {
  }

  /** One line of the window is for the prompt. */
  function Lines(height: int): int {
    if height >= 2 then height - 1 else height
  }

  /** struct buffer_data */
  class BufferData {
    const data: array<Byte>
    var cp: nat
    var sp: nat
    var next: BufferData?
    var prev: BufferData?

    /** buffer_data_new */
    constructor (size: nat)
      ensures cp == 0 && sp == 0 && next == null && prev == null && fresh(data) && data.Length == size
    {
      data := new Byte[size];
      cp, sp, next, prev := 0, 0, null, null;
    }
  }

  /** struct buffer */
  class Buffer {
    const size: nat
    var head: BufferData?
    var tail: BufferData?
    var alloc: nat
    ghost var chunks: seq<BufferData>
    ghost var parts: seq<Bytes>

    /** Chunk i of the chain holds the pending bytes parts[i]. */
    ghost predicate ChunkOk(i: nat)
      requires i < |chunks| == |parts|
      reads this, chunks, set c | c in chunks :: c.data
    {
      var c := chunks[i];
      && c.data.Length == size && c.sp <= c.cp <= size && c.data[c.sp..c.cp] == parts[i]
      && c.next == (if i + 1 < |chunks| then chunks[i + 1] else null)
      && c.prev == (if i > 0 then chunks[i - 1] else null)
      && (i + 1 < |chunks| ==> c.cp == size)
    }

    /** The chain is well linked and counted, and only its tail has free space. */
    ghost predicate Chain()
      reads this, chunks, set c | c in chunks :: c.data
    {
      && size > 0 && alloc == |chunks| == |parts|
      && head == (if chunks == [] then null else chunks[0])
      && tail == (if chunks == [] then null else chunks[|chunks| - 1])
      && (forall i, j | 0 <= i < j < |chunks| :: chunks[i] != chunks[j] && chunks[i].data != chunks[j].data)
      && (forall i | 0 <= i < |chunks| :: ChunkOk(i))
    }

    /** Moreover no chunk is empty. */
    ghost predicate Valid()
      reads this, chunks, set c | c in chunks :: c.data
    {
      Chain() && forall i | 0 <= i < |parts| :: parts[i] != []
    }

    /** The bytes written and not yet flushed. */
    ghost function Pending(): Bytes
      reads this
    {
      Flatten(parts)
    }

    /** buffer_new */
    constructor (size: nat)
      requires size > 0
      ensures Valid() && Pending() == [] && this.size == size && chunks == []
    {
      this.size := size;
      head, tail, alloc := null, null, 0;
      chunks, parts := [], [];
    }

    /** buffer_empty */
    method Empty() returns (r: bool)
      requires Valid()
      ensures r <==> Pending() == []
    {
      r := tail == null || tail.cp == tail.sp;
      if tail != null {
        assert ChunkOk(|chunks| - 1);
        assert parts[0] != [];
      }
    }

    /** buffer_add */
    method AddChunk()
      requires Chain() && (tail != null ==> tail.cp == size)
      modifies this, tail
      ensures Chain() && tail != null && fresh(tail) && fresh(tail.data) && tail.cp == 0
      ensures chunks == old(chunks) + [tail] && parts == old(parts) + [[]]
    {
      ghost var n := |chunks|;
      assert n > 0 ==> ChunkOk(n - 1);
      var d := new BufferData(size);
      if tail == null {
        head := d;
        tail := d;
      } else {
        d.prev := tail;
        tail.next := d;
        tail := d;
      }
      alloc := alloc + 1;
      chunks, parts := chunks + [d], parts + [[]];
      forall i | 0 <= i < |chunks|
        ensures ChunkOk(i)
      {
        assert i < n ==> old(ChunkOk(i));
      }
    }

    /** memcpy into the tail, which has the room. */
    method Fill(bytes: Bytes)
      requires Chain() && tail != null && tail.cp + |bytes| <= size
      modifies this, tail, tail.data
      ensures Chain() && chunks == old(chunks) && tail == old(tail) && tail.cp == old(tail.cp) + |bytes|
      ensures parts == old(parts)[|old(parts)| - 1 := old(parts)[|old(parts)| - 1] + bytes]
    {
      ghost var n := |chunks|;
      assert ChunkOk(n - 1);
      var cp := tail.cp;
      forall i | 0 <= i < |bytes| {
        tail.data[cp + i] := bytes[i];
      }
      tail.cp := cp + |bytes|;
      parts := parts[n - 1 := parts[n - 1] + bytes];
      assert tail.data[tail.sp..tail.cp] == old(tail.data[tail.sp..tail.cp]) + bytes;
      forall i | 0 <= i < n
        ensures ChunkOk(i)
      {
        assert old(ChunkOk(i));
      }
    }

    /** buffer_write */
    method Write(bytes: Bytes)
      requires Valid()
      modifies this, chunks, set c | c in chunks :: c.data
      ensures Valid() && Pending() == old(Pending()) + bytes
      ensures forall c | c in chunks :: c in old(chunks) || (fresh(c) && fresh(c.data))
    {
      hide Flatten, ChunkOk;
      var at := 0;
      while at < |bytes|
        invariant 0 <= at <= |bytes| && Valid() && Pending() == old(Pending()) + bytes[..at]
        invariant forall c | c in chunks :: c in old(chunks) || (fresh(c) && fresh(c.data))
        decreases |bytes| - at
      {
        var n := WriteSome(bytes[at..]);
        assert bytes[at..][..n] == bytes[at..at + n];
        assert bytes[..at + n] == bytes[..at] + bytes[at..at + n];
        at := at + n;
      }
      assert bytes[..at] == bytes;
    }

    /** As many bytes as the tail takes, or a new one. */
    method WriteSome(bytes: Bytes) returns (n: nat)
      requires Valid() && bytes != []
      modifies this, chunks, set c | c in chunks :: c.data
      ensures 0 < n <= |bytes| && Valid() && Pending() == old(Pending()) + bytes[..n]
      ensures forall c | c in chunks :: c in old(chunks) || (fresh(c) && fresh(c.data))
    {
      hide Flatten, ChunkOk;
      TailHasRoom();
      ghost var before := parts;
      if tail == null || tail.cp == size {
        AddChunk();
        FlattenLast(before, []);
      }
      TailHasRoom();
      n := if |bytes| <= size - tail.cp then |bytes| else size - tail.cp;
      FlattenGrow(parts, bytes[..n]);
      assert tail in chunks;
      Fill(bytes[..n]);
    }

    lemma TailHasRoom()
      requires Chain()
      ensures tail != null ==> tail.cp <= size && tail in chunks
    {
      assert tail != null ==> ChunkOk(|chunks| - 1);
    }

    // ---- Flushing ----

    /** Everything before chunk k has been written, and `stop` is chunk k, which has
        bytes left. */
    ghost predicate Cut(k: nat, stop: BufferData?)
      reads this
    {
      && k <= |chunks| == |parts| && stop == (if k < |chunks| then chunks[k] else null)
      && forall i | 0 <= i < |parts| :: parts[i] == [] <==> i < k
    }

    /** The first loop of a flush: collect up to `want` bytes from the head on, and
        mark them as written. */
    method Collect(want: nat) returns (out: Bytes, stop: BufferData?, iovs: nat, ghost k: nat)
      requires Valid()
      modifies chunks, `parts
      ensures Chain() && chunks == old(chunks) && Cut(k, stop)
      ensures out + Pending() == old(Pending()) && |out| == if want <= |old(Pending())| then want else |old(Pending())|
      ensures iovs <= alloc
    {
      hide Flatten, ChunkOk;
      iovs := 0;
      out := [];
      stop := head;
      var left: nat := want;
      k := 0;
      while stop != null
        invariant Chain() && chunks == old(chunks) && Cut(k, stop)
        invariant out + Pending() == old(Pending()) && |out| + left == want && iovs == k
        decreases |chunks| - k
      {
        ChunkPart(k);
        iovs := iovs + 1;
        var c := stop;
        if left <= c.cp - c.sp {
          var last: Bytes;
          last, stop, k := CollectLast(c, k, left);
          ghost var soFar := out;
          out := out + last;
          assert out + Pending() == soFar + (last + Pending());
          assert |out + Pending()| == |old(Pending())|;
          return;
        }
        ghost var soFar := out;
        var all := c.data[c.sp..c.cp];
        out := out + all;
        left := left - (c.cp - c.sp);
        TakeFrom(c, k, c.cp - c.sp);
        assert out + Pending() == soFar + (all + Pending());
        ChunkPart(k);
        stop := c.next;
        k := k + 1;
      }
      AllEmpty(parts);
    }

    /** The chunk in which the collecting ends. */
    method CollectLast(c: BufferData, ghost k: nat, n: nat) returns (out: Bytes, stop: BufferData?, ghost k1: nat)
      requires Chain() && Cut(k, c) && n <= |parts[k]|
      modifies c, `parts
      ensures Chain() && Cut(k1, stop) && |out| == n && out + Pending() == old(Pending())
    {
      hide Flatten, ChunkOk;
      ChunkPart(k);
      out := c.data[c.sp..c.sp + n];
      assert out == c.data[c.sp..c.cp][..n];
      TakeFrom(c, k, n);
      ChunkPart(k);
      if c.sp == c.cp {
        stop, k1 := c.next, k + 1;
      } else {
        stop, k1 := c, k;
      }
    }

    lemma ChunkPart(k: nat)
      requires Chain() && k < |chunks|
      ensures var c := chunks[k];
        && c.sp <= c.cp <= c.data.Length && c.data[c.sp..c.cp] == parts[k]
        && c.next == (if k + 1 < |chunks| then chunks[k + 1] else null)
    {
      assert ChunkOk(k);
    }

    lemma AllEmpty(parts: seq<Bytes>)
      requires forall i | 0 <= i < |parts| :: parts[i] == []
      ensures Flatten(parts) == []
    {
      if parts != [] {
        AllEmpty(parts[1..]);
      }
    }

    /** `data->sp += n` */
    method TakeFrom(c: BufferData, ghost k: nat, n: nat)
      requires Chain() && Cut(k, c) && n <= |parts[k]|
      modifies c, `parts
      ensures Chain() && chunks[k].sp == old(chunks[k].sp) + n
      ensures parts == old(parts)[k := old(parts)[k][n..]]
      ensures old(parts)[k][..n] + Flatten(parts) == old(Flatten(parts))
    {
      assert ChunkOk(k);
      c.sp := c.sp + n;
      ghost var before := parts;
      parts := parts[k := parts[k][n..]];
      assert c.data[c.sp..c.cp] == parts[k];
      forall i | 0 <= i < |chunks|
        ensures ChunkOk(i)
      {
        assert old(ChunkOk(i));
      }
      FlattenTake(before, k, n);
    }

    lemma FlattenTake(parts: seq<Bytes>, k: nat, n: nat)
      requires k < |parts| && n <= |parts[k]| && forall i | 0 <= i < k :: parts[i] == []
      ensures parts[k][..n] + Flatten(parts[k := parts[k][n..]]) == Flatten(parts)
    {
      if k == 0 {
        assert parts[0] == parts[0][..n] + parts[0][n..];
        assert parts[0 := parts[0][n..]][1..] == parts[1..];
      } else {
        FlattenTake(parts[1..], k - 1, n);
        assert parts[k := parts[k][n..]][1..] == parts[1..][k - 1 := parts[k][n..]];
        assert parts[0] == [];
      }
    }

    /** The second loop of a flush: free the chunks before `stop`. */
    method FreeUntil(stop: BufferData?, ghost k0: nat)
      requires Chain() && Cut(k0, stop)
      modifies this, chunks
      ensures Valid() && Pending() == old(Pending())
      ensures forall c | c in chunks :: c in old(chunks)
    {
      hide Flatten, ChunkOk;
      ghost var k := k0;
      while head != null && head != stop
        invariant Chain() && Pending() == old(Pending()) && Cut(k, stop)
        invariant forall c | c in chunks :: c in old(chunks)
        decreases |chunks|
      {
        ChunkPart(0);
        assert |chunks| > 1 ==> chunks[1] in chunks;
        DropFirst();
        k := k - 1;
      }
    }

    method DropFirst()
      requires Chain() && head != null && parts[0] == []
      modifies this, head.next
      ensures Chain() && chunks == old(chunks)[1..] && parts == old(parts)[1..] && Pending() == old(Pending())
    {
      assert ChunkOk(0);
      assert |chunks| > 1 ==> ChunkOk(1);
      var next := head.next;
      if next != null {
        next.prev := null;
      } else {
        tail := next;
      }
      head := next;
      alloc := alloc - 1;
      chunks, parts := chunks[1..], parts[1..];
      forall i | 0 <= i < |chunks|
        ensures ChunkOk(i)
      {
        assert old(ChunkOk(i + 1));
      }
    }

    /** buffer_flush: what it hands to writev, which is taken to accept all of it. */
    method Flush(want: nat) returns (out: Bytes)
      requires Valid()
      modifies this, chunks
      ensures Valid() && out + Pending() == old(Pending())
      ensures |out| == if want <= |old(Pending())| then want else |old(Pending())|
      ensures forall c | c in chunks :: c in old(chunks)
    {
      hide Flatten, ChunkOk;
      var stop; ghost var k;
      var iovs;
      out, stop, iovs, k := Collect(want);
      FreeUntil(stop, k);
    }

    /** buffer_flush_vty: the bytes, with the erasing of an old prompt before them and
        a new prompt behind them if some are left.  There are at most two iovecs more
        than chunks. */
    method FlushVty(want: nat, erase: bool, noMore: bool) returns (out: Bytes, iovs: nat, ghost data: Bytes)
      requires Valid()
      modifies this, chunks
      ensures Valid() && data + Pending() == old(Pending())
      ensures |data| == if want <= |old(Pending())| then want else |old(Pending())|
      ensures out == (if erase then ERASE else []) + data + (if Pending() != [] && !noMore then MORE else [])
      ensures iovs <= old(alloc) + 2
      ensures forall c | c in chunks :: c in old(chunks)
    {
      hide Flatten, ChunkOk;
      var stop, bytes; ghost var k;
      out, iovs := [], 0;
      if erase {
        out, iovs := out + ERASE, 1;
      }
      var n;
      bytes, stop, n, k := Collect(want);
      data := bytes;
      out, iovs := out + bytes, iovs + n;
      var empty := NothingLeft(k, stop);
      if !empty && !noMore {
        out, iovs := out + MORE, iovs + 1;
      }
      FreeUntil(stop, k);
    }

    /** buffer_empty, before the written chunks have been freed. */
    method NothingLeft(ghost k: nat, ghost stop: BufferData?) returns (r: bool)
      requires Chain() && Cut(k, stop)
      ensures r <==> Pending() == []
    {
      r := tail == null || tail.cp == tail.sp;
      if tail != null {
        ChunkPart(|chunks| - 1);
        if r {
          AllEmpty(parts);
        } else {
          FlattenLast(parts[..|parts| - 1], parts[|parts| - 1]);
          assert parts[..|parts| - 1] + [parts[|parts| - 1]] == parts;
        }
      }
    }

    /** The loops of buffer_flush_window that count the bytes of a window. */
    method CountWindow(width: int, height: int) returns (count: nat)
      requires Valid()
      ensures count == WindowSize(Pending(), width, height, 0, 0)
    {
      hide Flatten, ChunkOk, WindowSize;
      var lp, lineno := 0, 0;
      count := 0;
      var data := head;
      ghost var k := 0;
      assert parts[0..] == parts;
      while data != null
        invariant 0 <= k <= |chunks| && data == (if k < |chunks| then chunks[k] else null)
        invariant count + WindowSize(Flatten(parts[k..]), width, height, lp, lineno) ==
          WindowSize(Pending(), width, height, 0, 0)
        decreases |chunks| - k
      {
        ChunkPart(k);
        var cp := data.sp;
        ghost var rest := Flatten(parts[k + 1..]);
        FlattenFirst(parts, k);
        while cp < data.cp
          invariant data.sp <= cp <= data.cp
          invariant count + WindowSize(data.data[cp..data.cp] + rest, width, height, lp, lineno)
                 == WindowSize(Pending(), width, height, 0, 0)
        {
          WindowByte(data.data[cp..data.cp], rest, width, height, lp, lineno);
          assert data.data[cp..data.cp][1..] == data.data[cp + 1..data.cp];
          if data.data[cp] == NEWLINE || lp == width {
            lineno := lineno + 1;
            if lineno == height {
              count := count + 1;
              return;
            }
            lp := 0;
          }
          cp := cp + 1;
          lp := lp + 1;
          count := count + 1;
        }
        assert data.data[cp..data.cp] + rest == rest;
        data := data.next;
        k := k + 1;
      }
      assert parts[k..] == [];
      WindowNothing(width, height, lp, lineno);
    }

    /** buffer_flush_window: never more than what is pending. */
    method FlushWindow(width: int, height: int, erase: bool, noMore: bool)
      returns (out: Bytes, iovs: nat, ghost data: Bytes)
      requires Valid()
      modifies this, chunks
      ensures Valid() && data + Pending() == old(Pending())
      ensures |data| == WindowSize(old(Pending()), width, if height >= 2 then height - 1 else height, 0, 0)
      ensures out == (if erase then ERASE else []) + data + (if Pending() != [] && !noMore then MORE else [])
      ensures forall c | c in chunks :: c in old(chunks)
    {
      hide Flatten, ChunkOk, WindowSize;
      var count := CountWindow(width, Lines(height));
      out, iovs, data := FlushVty(count, erase, noMore);
    }

    /** buffer_flush_all, with buffer_reset. */
    method FlushAll() returns (out: Bytes)
      requires Valid()
      modifies this
      ensures Valid() && out == old(Pending()) && Pending() == [] && alloc == 0
    {
      hide Flatten, ChunkOk;
      out := [];
      var d := head;
      ghost var k := 0;
      AllEmpty(parts[..0]);
      while d != null
        invariant Valid() && parts == old(parts)
        invariant 0 <= k <= |chunks| && d == (if k < |chunks| then chunks[k] else null)
        invariant out == Flatten(parts[..k])
        decreases |chunks| - k
      {
        ChunkPart(k);
        FlattenLast(parts[..k], parts[k]);
        assert parts[..k + 1] == parts[..k] + [parts[k]];
        out := out + d.data[d.sp..d.cp];
        d := d.next;
        k := k + 1;
      }
      assert parts[..k] == parts;
      head, tail, alloc := null, null, 0;
      chunks, parts := [], [];
      AllEmpty(parts);
    }
  }

  lemma FlattenFirst(parts: seq<Bytes>, k: nat)
    requires k < |parts|
    ensures Flatten(parts[k..]) == parts[k] + Flatten(parts[k + 1..])
  {
    assert parts[k..][1..] == parts[k + 1..];
  }

  lemma WindowByte(bytes: Bytes, rest: Bytes, width: int, height: int, lp: int, lineno: int)
    requires bytes != []
    ensures WindowSize(bytes + rest, width, height, lp, lineno) ==
      if bytes[0] == NEWLINE || lp == width then
        if lineno + 1 == height then 1 else 1 + WindowSize(bytes[1..] + rest, width, height, 1, lineno + 1)
      else 1 + WindowSize(bytes[1..] + rest, width, height, lp + 1, lineno)
  {
    assert (bytes + rest)[1..] == bytes[1..] + rest;
  }

  lemma WindowNothing(width: int, height: int, lp: int, lineno: int)
    ensures Flatten([]) == [] && WindowSize([], width, height, lp, lineno) == 0
  {
  }

  // ---- Any run of the buffer ----

  datatype Operation = Put(bytes: Bytes) | Out(want: nat) | Page(width: int, height: int, erase: bool,
      noMore: bool) | All

  /** What an operation writes into the buffer. */
  function Given(op: Operation): Bytes {
    if op.Put? then op.bytes else []
  }

  /** How many of the pending bytes an operation hands to writev. */
  function Taken(pending: Bytes, op: Operation): (n: nat)
    ensures n <= |pending|
  {
    if op.Put? then 0
    else if op.All? then |pending|
    else if op.Page? then WindowSize(pending, op.width, Lines(op.height), 0, 0)
    else if op.want <= |pending| then op.want
    else |pending|
  }

  function Data(pending: Bytes, op: Operation): Bytes {
    pending[..Taken(pending, op)]
  }

  function Remaining(pending: Bytes, op: Operation): Bytes {
    pending[Taken(pending, op)..] + Given(op)
  }

  /** What an operation hands to writev: the bytes, for a page with the erasing of an
      old prompt before them and a new prompt behind them if some are left. */
  function HandedOut(pending: Bytes, op: Operation): Bytes {
    if !op.Page? then Data(pending, op)
    else
      (if op.erase then ERASE else []) + Data(pending, op)
      + (if Remaining(pending, op) != [] && !op.noMore then MORE else [])
  }

  /** The pending bytes after these operations on an empty buffer. */
  function PendingAfter(ops: seq<Operation>): Bytes {
    if ops == [] then [] else Remaining(PendingAfter(ops[..|ops| - 1]), ops[|ops| - 1])
  }

  /** What each of them hands to writev. */
  function Outputs(ops: seq<Operation>): seq<Bytes> {
    if ops == [] then []
    else Outputs(ops[..|ops| - 1]) + [HandedOut(PendingAfter(ops[..|ops| - 1]), ops[|ops| - 1])]
  }

  /** The same without prompts and erasing, one behind the other. */
  function DataOut(ops: seq<Operation>): Bytes {
    if ops == [] then [] else DataOut(ops[..|ops| - 1]) + Data(PendingAfter(ops[..|ops| - 1]), ops[|ops| - 1])
  }

  function Written(ops: seq<Operation>): Bytes {
    if ops == [] then []
    else Written(ops[..|ops| - 1]) + Given(ops[|ops| - 1])
  }

  /** Over any sequence of writes and flushes the bytes come out in the order in which
      they were written, and none is lost. */
  lemma {:induction false} FirstInFirstOut(ops: seq<Operation>)
    ensures DataOut(ops) + PendingAfter(ops) == Written(ops)
  {
    hide Taken;
    if ops != [] {
      var before, op := ops[..|ops| - 1], ops[|ops| - 1];
      FirstInFirstOut(before);
      var pending, more := PendingAfter(before), Given(op);
      var n := Taken(pending, op);
      assert pending[..n] + pending[n..] == pending;
      assert DataOut(before) + pending[..n] + (pending[n..] + more) == DataOut(before) + pending + more;
    }
  }

  method Operate(b: Buffer, op: Operation) returns (out: Bytes)
    requires b.Valid()
    modifies b, b.chunks, set c | c in b.chunks :: c.data
    ensures b.Valid() && out == HandedOut(old(b.Pending()), op) && b.Pending() == Remaining(old(b.Pending()), op)
    ensures forall c | c in b.chunks :: c in old(b.chunks) || (fresh(c) && fresh(c.data))
  {
    hide Flatten, WindowSize;
    out := [];
    ghost var was := b.Pending();
    match op
    case Put(bytes) =>
      b.Write(bytes);
      assert was[0..] == was;
    case Out(want) =>
      out := b.Flush(want);
      Split(was, out, b.Pending());
    case Page(width, height, erase, noMore) =>
      var iovs; ghost var data;
      out, iovs, data := b.FlushWindow(width, height, erase, noMore);
      Split(was, data, b.Pending());
    case All =>
      out := b.FlushAll();
      Split(was, out, []);
  }

  lemma Split(all: Bytes, x: Bytes, y: Bytes)
    requires all == x + y
    ensures all[..|x|] == x && all[|x|..] + [] == y
  {
  }

  /** Whatever the size of the chunks, each operation hands out what it should, and
      what is left at the end comes last. */
  method Run(size: nat, ops: seq<Operation>) returns (outs: seq<Bytes>, last: Bytes)
    requires size > 0
    ensures outs == Outputs(ops) && last == PendingAfter(ops) && DataOut(ops) + last == Written(ops)
  {
    hide Flatten, HandedOut, Remaining;
    var b := new Buffer(size);
    outs := [];
    for i := 0 to |ops|
      invariant b.Valid() && outs == Outputs(ops[..i]) && b.Pending() == PendingAfter(ops[..i])
      invariant fresh(b) && forall c | c in b.chunks :: fresh(c) && fresh(c.data)
    {
      assert ops[..i + 1][..i] == ops[..i];
      var out := Operate(b, ops[i]);
      outs := outs + [out];
    }
    assert ops[..|ops|] == ops;
    FirstInFirstOut(ops);
    last := b.FlushAll();
  }
}
