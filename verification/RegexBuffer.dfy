/** The compiled pattern buffer and the compiler that edits it in place. */
module RegexBuffer {
  import opened Octets
  import opened Options
  import opened RegexSyntax
  import opened RegexEmit
  import opened RegexCompile

  const INIT_BUF_SIZE: nat := 32
  const MAX_BUF_SIZE: nat := 65536

  datatype CompileError = NoError | EParen | ESize

  /** The buffer after the two jumps that `|` writes. */
  function AroundCode(buf: Bytes, begalt: nat, fixup: Option<nat>): (r: Bytes)
    requires begalt <= |buf| && (fixup.Some? ==> fixup.value + 3 <= |buf|)
    ensures |r| == |buf| + 3
  {
    var inserted := InsertAt(buf, begalt, Op1(ON_FAILURE_JUMP, |buf| + 6 - begalt - 3));
    FillJump(inserted, fixup, |inserted|)
  }

  lemma BarredParts(s: State)
    requires Ok(s)
    ensures
      var code := AroundCode(s.buf, s.begalt, s.fixup);
      Barred(s) == s.(buf := code + [0, 0, 0], pending := None, fixup := Some(|code|),
                      laststart := None, begalt := |code| + 3)
      && |Barred(s).buf| == |s.buf| + 6
  {
  }

  lemma OpenedParts(s: State)
    requires Ok(s)
    ensures
      var n := s.regnum + 1;
      var buf := if n <= MAX_REGNUM then s.buf + [START_MEMORY, n as Byte, 0] else s.buf;
      var frame := Frame(s.begalt, s.fixup, |s.buf|, |s.buf| + 2, n);
      Opened(s) == State(buf, None, None, |buf|, None, n, s.stack + [frame])
  {
  }

  /** What `)` leaves, once the alternatives have been ended. */
  lemma ClosedParts(s: State)
    requires Ok(s) && s.stack != []
    ensures
      var (buf, f) := (EndOfAlternatives(s), s.stack[|s.stack| - 1]);
      var inner := (s.regnum - f.regnum) % 256;
      var r := s.(pending := None, laststart := Some(f.laststart), begalt := f.begalt, fixup := f.fixup,
                  stack := s.stack[..|s.stack| - 1]);
      if f.regnum > MAX_REGNUM then Closed(s) == r.(buf := buf)
      else
        && f.regnum <= s.regnum && f.inner < |buf|
        && Closed(s) == r.(buf := buf[f.inner := inner as Byte] + [STOP_MEMORY, f.regnum as Byte, inner as Byte])
  {
    assert FrameOk(s.stack[|s.stack| - 1], |s.buf|);
  }

  /** struct re_pattern_buffer together with the locals of regex_compile that
      point into it, as offsets.  Memory comes zeroed here; the three bytes that
      `|` leaves open are the only ones ever left unwritten for a while. */
  class Compilation {
    var buffer: array<Byte>
    var b: nat
    var pending: Option<nat>
    var laststart: Option<nat>
    var begalt: nat
    var fixup: Option<nat>
    var regnum: nat
    var stack: seq<Frame>

    /** The compiler's state as a value. */
    ghost function Abs(): State
      reads this, buffer
      requires Valid()
    {
      State(Contents(), pending, laststart, begalt, fixup, regnum, stack)
    }

    ghost predicate Valid()
      reads `buffer, `b, buffer
    {
      b <= buffer.Length && 0 < buffer.Length <= MAX_BUF_SIZE
      && forall k | b <= k < buffer.Length :: buffer[k] == 0
    }

    ghost function Contents(): (r: Bytes)
      reads `buffer, `b, buffer
      requires Valid()
      ensures |r| == b
    {
      buffer[..b]
    }

    constructor ()
      ensures Valid() && Abs() == START && fresh(buffer)
    {
      buffer, b := new Byte[INIT_BUF_SIZE](_ => 0), 0;
      pending, laststart, begalt, fixup, regnum, stack := None, None, 0, None, 0, [];
    }

    /** GET_BUFFER_SPACE: double the allocation until n more bytes fit. */
    method GetSpace(n: nat) returns (ok: bool)
      requires Valid()
      modifies this`buffer
      ensures Valid() && Contents() == old(Contents()) && (buffer == old(buffer) || fresh(buffer))
      ensures ok <==> b + n <= MAX_BUF_SIZE
      ensures ok ==> b + n <= buffer.Length
      ensures b + n <= old(buffer.Length) ==> buffer == old(buffer)
    {
      while b + n > buffer.Length
        invariant Valid() && Contents() == old(Contents()) && (buffer == old(buffer) || fresh(buffer))
        invariant b + n <= old(buffer.Length) ==> buffer == old(buffer)
        decreases MAX_BUF_SIZE - buffer.Length
      {
        if buffer.Length == MAX_BUF_SIZE {
          return false;
        }
        var size := if 2 * buffer.Length > MAX_BUF_SIZE then MAX_BUF_SIZE else 2 * buffer.Length;
        var was := buffer;
        var moved := new Byte[size](k requires 0 <= k < size reads was => if k < was.Length then was[k] else 0);
        buffer := moved;
      }
      return true;
    }

    /** A run of BUF_PUSHes. */
    method Push(code: Bytes) returns (ok: bool)
      requires Valid()
      modifies `buffer, `b, buffer
      ensures Valid() && (buffer == old(buffer) || fresh(buffer))
      ensures ok <==> old(b) + |code| <= MAX_BUF_SIZE
      ensures Contents() == if ok then old(Contents()) + code else old(Contents())
      ensures old(b) + |code| <= old(buffer.Length) ==> buffer == old(buffer)
    {
      ok := GetSpace(|code|);
      if ok {
        var i := 0;
        while i < |code|
          invariant 0 <= i <= |code| && b == old(b) + i && b + (|code| - i) <= buffer.Length
          invariant Valid() && (buffer == old(buffer) || fresh(buffer))
          invariant old(b) + |code| <= old(buffer.Length) ==> buffer == old(buffer)
          invariant Contents() == old(Contents()) + code[..i]
        {
          buffer[b] := code[i];
          b := b + 1;
          i := i + 1;
        }
      }
    }

    /** store_op1 */
    method StoreOp1(op: Byte, loc: nat, arg: int)
      requires Valid() && loc + 3 <= b
      modifies buffer
      ensures Valid() && Contents() == StoreAt(old(Contents()), loc, Op1(op, arg))
    {
      buffer[loc] := op;
      buffer[loc + 1] := Low(arg);
      buffer[loc + 2] := High(arg);
    }

    /** insert_op1, with room for three more bytes, and `b += 3`: the bytes from
        loc up move by three, last one first. */
    method InsertOp1(op: Byte, loc: nat, arg: int)
      requires Valid() && loc <= b && b + 3 <= buffer.Length
      modifies this`b, buffer
      ensures Valid() && Contents() == InsertAt(old(Contents()), loc, Op1(op, arg))
    {
      hide Low, High, InsertAt, Op1;
      ghost var was := Contents();
      var pfrom, pto := b, b + 3;
      while pfrom != loc
        invariant loc <= pfrom <= b && pto == pfrom + 3 && b == old(b)
        invariant forall k | 0 <= k < pfrom :: buffer[k] == old(buffer[k])
        invariant forall k | pto <= k < b + 3 :: buffer[k] == old(buffer[k - 3])
        invariant forall k | b + 3 <= k < buffer.Length :: buffer[k] == 0
      {
        pto, pfrom := pto - 1, pfrom - 1;
        buffer[pto] := buffer[pfrom];
      }
      buffer[loc] := op;
      buffer[loc + 1] := Low(arg);
      buffer[loc + 2] := High(arg);
      b := b + 3;
      InsertedAt(was, Contents(), loc, op, arg);
    }

    static lemma InsertedAt(was: Bytes, now: Bytes, loc: nat, op: Byte, arg: int)
      requires loc <= |was| && |now| == |was| + 3
      requires forall k | 0 <= k < loc :: now[k] == was[k]
      requires forall k | loc + 3 <= k < |now| :: now[k] == was[k - 3]
      requires now[loc] == op && now[loc + 1] == Low(arg) && now[loc + 2] == High(arg)
      ensures now == InsertAt(was, loc, Op1(op, arg))
    {
      hide Low, High;
    }
  
    /** Open a new exactn command if the last one cannot take the literal. */
    method StartExact(followed: bool) returns (ok: bool)
      requires Valid() && Ok(Abs())
      modifies this, buffer
      ensures Valid() && (buffer == old(buffer) || fresh(buffer))
      ensures old(NewExact(Abs(), followed)) ==>
                if ok
                then
                  var code := old(Contents()) + [EXACTN, 0];
                  Abs() == old(Abs()).(buf := code, laststart := Some(old(b)), pending := Some(old(b) + 1))
                else old(b) + 2 > MAX_BUF_SIZE
      ensures !old(NewExact(Abs(), followed)) ==> ok && Abs() == old(Abs())
    {
      ok := true;
      if pending == None || pending.value + buffer[pending.value] as int + 1 != b || buffer[pending.value] == 255 ||
          followed {
        laststart := Some(b);
        ok := Push([EXACTN, 0]);
        if ok {
          pending := Some(b - 1);
        }
      }
    }

    /** normal_char */
    method Literal(c: Byte, followed: bool) returns (ok: bool)
      requires Valid() && Ok(Abs())
      modifies this, buffer
      ensures Valid() && (buffer == old(buffer) || fresh(buffer))
      ensures ok ==> Abs() == NormalChar(old(Abs()), c, followed)
      ensures !ok ==> |NormalChar(old(Abs()), c, followed).buf| > MAX_BUF_SIZE
    {
      ok := StartExact(followed);
      if !ok {
        return;
      }
      NormalCharNow(old(Abs()), c, followed);
      hide Ok, NewExact, NormalChar, Valid, Contents;
      ok := CountLiteral(c);
    }

    /** With the exactn command open, what is left of normal_char. */
    lemma NormalCharNow(was: State, c: Byte, followed: bool)
      requires Valid() && Ok(was)
      requires if NewExact(was, followed)
               then Abs() == was.(buf := was.buf + [EXACTN, 0], laststart := Some(|was.buf|),
                   pending := Some(|was.buf| + 1))
               else Abs() == was
      ensures pending.Some? && pending.value < b && Contents()[pending.value] < 255
      ensures var p := pending.value;
              NormalChar(was, c, followed) == Abs().(buf := Contents()[p := Contents()[p] + 1] + [c])
    {
      hide Valid, Contents;
    }

    /** BUF_PUSH (c) and `(*pending_exact)++` */
    method CountLiteral(c: Byte) returns (ok: bool)
      requires Valid() && pending.Some? && pending.value < b && Contents()[pending.value] < 255
      modifies `buffer, `b, buffer
      ensures Valid() && (buffer == old(buffer) || fresh(buffer))
      ensures ok <==> old(b) + 1 <= MAX_BUF_SIZE
      ensures ok ==> Contents() == old(Contents())[pending.value := old(Contents())[pending.value] + 1] + [c]
    {
      ghost var begun := Contents();
      ok := Push([c]);
      if ok {
        assert buffer[pending.value] == Contents()[pending.value] == begun[pending.value];
        Poke(pending.value, buffer[pending.value] + 1);
        assert Contents() == begun[pending.value := begun[pending.value] + 1] + [c];
      }
    }

    method Poke(p: nat, c: Byte)
      requires Valid() && p < b
      modifies buffer
      ensures Valid() && Contents() == old(Contents())[p := c]
    {
      buffer[p] := c;
    }

    /** The jumps of `*`, `+` and `?`. */
    method RepeatLast(zero: bool, many: bool) returns (ok: bool)
      requires Valid() && Ok(Abs()) && (zero || many)
      modifies this, buffer
      ensures Valid() && (buffer == old(buffer) || fresh(buffer))
      ensures ok ==> Abs() == Repeated(old(Abs()), zero, many)
      ensures !ok ==> |Repeated(old(Abs()), zero, many).buf| > MAX_BUF_SIZE
    {
      hide InsertAt, Op1, Valid, Contents;
      if laststart == None {
        return true;
      }
      var loc := laststart.value;
      if many {
        ok := Push(Op1(MAYBE_POP_JUMP, loc - 3 - b - 3));
        if !ok {
          return;
        }
      }
      ok := GetSpace(3);
      if !ok {
        return;
      }
      InsertOp1(ON_FAILURE_JUMP, loc, b + 3 - loc - 3);
      pending := None;
      if !zero {
        ok := GetSpace(3);
        if !ok {
          return;
        }
        InsertOp1(DUMMY_FAILURE_JUMP, loc, loc + 6 - loc - 3);
      }
    }

    /** handle_open */
    method OpenGroup() returns (ok: bool)
      requires Valid() && Ok(Abs())
      modifies this, buffer
      ensures Valid() && (buffer == old(buffer) || fresh(buffer))
      ensures ok ==> Abs() == Opened(old(Abs()))
      ensures !ok ==> |Opened(old(Abs())).buf| > MAX_BUF_SIZE
    {
      OpenedParts(Abs());
      hide Ok, Opened, Valid, Contents;
      regnum := regnum + 1;
      var frame := Frame(begalt, fixup, b, b + 2, regnum);
      if regnum <= MAX_REGNUM {
        ok := Push([START_MEMORY, regnum as Byte, 0]);
        if !ok {
          return;
        }
      }
      stack := stack + [frame];
      fixup, laststart, begalt, pending := None, None, b, None;
      ok := true;
    }

    /** The start of handle_close: end a list of alternatives. */
    method EndAlternatives() returns (ok: bool)
      requires Valid() && Ok(Abs())
      modifies `buffer, `b, buffer
      ensures Valid() && (buffer == old(buffer) || fresh(buffer))
      ensures ok ==> Contents() == EndOfAlternatives(old(Abs()))
      ensures !ok ==> |EndOfAlternatives(old(Abs()))| > MAX_BUF_SIZE
    {
      ok := true;
      if fixup.Some? {
        ok := Push([PUSH_DUMMY_FAILURE]);
        if ok {
          StoreFixup(b - 1);
        }
      }
    }

    /** handle_close with a group open */
    method CloseGroup() returns (ok: bool)
      requires Valid() && Ok(Abs()) && stack != []
      modifies this, buffer
      ensures Valid() && (buffer == old(buffer) || fresh(buffer))
      ensures ok ==> Abs() == Closed(old(Abs()))
      ensures !ok ==> |Closed(old(Abs())).buf| > MAX_BUF_SIZE
    {
      hide Ok, EndOfAlternatives, Valid, Contents, Closed, FrameOk;
      ghost var was := Abs();
      ClosedParts(was);
      ok := EndAlternatives();
      if !ok {
        return;
      }
      var f := stack[|stack| - 1];
      stack := stack[..|stack| - 1];
      begalt, fixup, laststart, pending := f.begalt, f.fixup, Some(f.laststart), None;
      if f.regnum <= MAX_REGNUM {
        var inner := ((regnum - f.regnum) % 256) as Byte;
        Poke(f.inner, inner);
        ok := Push([STOP_MEMORY, f.regnum as Byte, inner]);
      }
    }

    /** handle_close without a group open, under RE_UNMATCHED_RIGHT_PAREN_ORD */
    method StrayParen(followed: bool) returns (ok: bool)
      requires Valid() && Ok(Abs())
      modifies this, buffer
      ensures Valid() && (buffer == old(buffer) || fresh(buffer))
      ensures ok ==> Abs() == StrayClose(old(Abs()), followed)
      ensures !ok ==> |StrayClose(old(Abs()), followed).buf| > MAX_BUF_SIZE
    {
      ok := EndAlternatives();
      if ok {
        ok := Literal(CLOSE_PAREN, followed);
      }
    }

    /** STORE_JUMP (jump_past_alt, fixup_alt_jump, to), if there is one. */
    method StoreFixup(to: nat)
      requires Valid() && (fixup.Some? ==> fixup.value + 3 <= b)
      modifies buffer
      ensures Valid() && Contents() == FillJump(old(Contents()), fixup, to)
    {
      if fixup.Some? {
        StoreOp1(JUMP_PAST_ALT, fixup.value, to - fixup.value - 3);
      }
    }

    /** Leave three bytes open. */
    method LeaveHole() returns (ok: bool)
      requires Valid()
      modifies `buffer, `b
      ensures Valid() && (buffer == old(buffer) || fresh(buffer))
      ensures ok ==> Contents() == old(Contents()) + [0, 0, 0]
      ensures !ok ==> b == old(b) && b + 3 > MAX_BUF_SIZE
    {
      ok := GetSpace(3);
      if ok {
        b := b + 3;
      }
    }

    /** The first half of handle_alt: the jump in front of the alternative, and
        the jump after the previous one. */
    method JumpAround() returns (ok: bool)
      requires Valid() && begalt <= b && (fixup.Some? ==> fixup.value + 3 <= b)
      modifies `buffer, `b, buffer
      ensures Valid() && (buffer == old(buffer) || fresh(buffer))
      ensures ok ==> Contents() == AroundCode(old(Contents()), begalt, fixup)
      ensures !ok ==> old(b) + 3 > MAX_BUF_SIZE
    {
      ok := GetSpace(3);
      if ok {
        hide InsertAt, FillJump;
        InsertOp1(ON_FAILURE_JUMP, begalt, b + 6 - begalt - 3);
        StoreFixup(b);
      }
    }

    /** The code that handle_alt writes. */
    method AlternativeCode() returns (ok: bool)
      requires Valid() && begalt <= b && (fixup.Some? ==> fixup.value + 3 <= b)
      modifies `buffer, `b, buffer
      ensures Valid() && (buffer == old(buffer) || fresh(buffer))
      ensures ok ==> b == old(b) + 6 && Contents() == AroundCode(old(Contents()), begalt, fixup) + [0, 0, 0]
      ensures !ok ==> old(b) + 6 > MAX_BUF_SIZE
    {
      hide Valid, Contents, AroundCode;
      ok := JumpAround();
      if ok {
        ok := LeaveHole();
      }
    }

    /** handle_alt */
    method Alternative() returns (ok: bool)
      requires Valid() && Ok(Abs())
      modifies this, buffer
      ensures Valid() && (buffer == old(buffer) || fresh(buffer))
      ensures ok ==> Abs() == Barred(old(Abs()))
      ensures !ok ==> |Barred(old(Abs())).buf| > MAX_BUF_SIZE
    {
      BarredParts(Abs());
      assert begalt <= b && (fixup.Some? ==> fixup.value + 3 <= b);
      hide Ok, Barred, Valid, Contents, AroundCode;
      ok := AlternativeCode();
      if ok {
        pending, fixup, laststart, begalt := None, Some(b - 3), None, b;
      }
    }

    /** A bracket expression: a full map, one bit for each character, then the
        zero bytes at the end of the map taken off again. */
    method PushSet(neg: bool, chars: Bytes) returns (ok: bool)
      requires Valid()
      modifies `buffer, `b, buffer
      ensures Valid() && (buffer == old(buffer) || fresh(buffer))
      ensures ok ==> Contents() == old(Contents()) + AtomCode(Bracket(neg, chars), 0)
      ensures !ok ==> b == old(b) && b + 34 > MAX_BUF_SIZE
    {
      ok := GetSpace(34);
      if !ok {
        return;
      }
      var op := if neg then CHARSET_NOT else CHARSET;
      SetParts(Contents(), op, neg, chars);
      hide Bitmap, Trim, Valid, AtomCode;
      ok := Push([op, 32]);
      SetBits(chars);
      TrimMap(Bitmap(chars));
    }

    static lemma SetParts(before: Bytes, op: Byte, neg: bool, chars: Bytes)
      requires op == if neg then CHARSET_NOT else CHARSET
      ensures
        var bits := Trim(Bitmap(chars));
        (before + [op, 32])[|before| + 1 := |bits| as Byte] + bits == before + AtomCode(Bracket(neg, chars), 0)
    {
      hide Bitmap, Trim;
    }

    /** bzero and the SET_LIST_BITs, in the 32 bytes above the end. */
    method SetBits(chars: Bytes)
      requires Valid() && b + 32 <= buffer.Length
      modifies buffer
      ensures b <= buffer.Length && Contents0() == old(Contents())
      ensures buffer[b..b + 32] == Bitmap(chars)
      ensures forall k | b + 32 <= k < buffer.Length :: buffer[k] == 0
    {
      var i := 0;
      assert buffer[b..b + 32] == Bitmap(chars[..0]);
      while i < |chars|
        invariant 0 <= i <= |chars|
        invariant Contents0() == old(Contents())
        invariant buffer[b..b + 32] == Bitmap(chars[..i])
        invariant forall k | b + 32 <= k < buffer.Length :: buffer[k] == 0
      {
        SetListBitAt(chars[i]);
        assert chars[..i + 1][..i] == chars[..i];
        i := i + 1;
      }
      assert chars[..i] == chars;
    }

    /** What has been pushed, when the bytes above it may be in use. */
    ghost function Contents0(): Bytes
      reads `buffer, `b, buffer
      requires b <= buffer.Length
    {
      buffer[..b]
    }

    /** The count byte goes down while the map ends in a zero byte. */
    method TrimMap(ghost bitmap: Bytes)
      requires 0 < b && b + 32 <= buffer.Length <= MAX_BUF_SIZE && buffer[b - 1] == 32
      requires |bitmap| == 32 && buffer[b..b + 32] == bitmap
      requires forall k | b + 32 <= k < buffer.Length :: buffer[k] == 0
      modifies `b, buffer
      ensures Valid()
      ensures Contents() == old(Contents0())[old(b) - 1 := |Trim(bitmap)| as Byte] + Trim(bitmap)
    {
      hide Trim;
      ghost var was := Contents0();
      assert bitmap[..32] == bitmap;
      while buffer[b - 1] > 0 && buffer[b + buffer[b - 1] as int - 1] == 0
        invariant b == old(b) && buffer[b - 1] <= 32
        invariant buffer[..b] == was[b - 1 := buffer[b - 1]] && buffer[b..b + 32] == bitmap
        invariant Trim(bitmap[..buffer[b - 1]]) == Trim(bitmap)
        invariant forall k | b + buffer[b - 1] as int <= k < buffer.Length :: buffer[k] == 0
        decreases buffer[b - 1]
      {
        TrimStep(bitmap, buffer[b - 1] as nat);
        buffer[b - 1] := buffer[b - 1] - 1;
      }
      TrimStep(bitmap, buffer[b - 1] as nat);
      b := b + buffer[b - 1] as int;
    }

    lemma TrimStep(bitmap: Bytes, n: nat)
      requires n <= |bitmap| && n < 256
      ensures n > 0 && bitmap[n - 1] == 0 ==> Trim(bitmap[..n]) == Trim(bitmap[..n - 1])
      ensures !(n > 0 && bitmap[n - 1] == 0) ==> Trim(bitmap[..n]) == bitmap[..n]
    {
      if n > 0 {
        assert bitmap[..n][..n - 1] == bitmap[..n - 1];
      }
    }

    method SetListBitAt(c: Byte)
      requires b + 32 <= buffer.Length
      modifies buffer
      ensures buffer[b..b + 32] == SetListBit(old(buffer[b..b + 32]), c)
      ensures forall k | 0 <= k < buffer.Length && !(b <= k < b + 32) :: buffer[k] == old(buffer[k])
    {
      assert Pow2(8) == 256 by { assert Pow2(4) == 16; }
      var k := b + c as int / 8;
      buffer[k] := SetBit(buffer[k] as nat, c as int % 8, 8) as Byte;
    }
  
    /** One turn of regex_compile's loop; i moves past what it reads. */
    method CompileToken(text: seq<Token>, i: nat) returns (ok: bool, j: nat)
      requires Valid() && Ok(Abs()) && i < |text|
      modifies this, buffer
      ensures Valid() && (buffer == old(buffer) || fresh(buffer))
      ensures ok ==> (Abs(), j) == Step(text, i, old(Abs()))
      ensures !ok ==> |Step(text, i, old(Abs())).0.buf| + 34 > MAX_BUF_SIZE
    {
      hide Ok, NormalChar, Opened, Closed, Barred, Repeated, StrayClose, Valid, Contents;
      j := i + 1;
      match text[i]
      case Ch(c) =>
        ok := Literal(c, j < |text| && text[j].Repeat?);
      case AnyCh =>
        laststart := Some(b);
        ok := Push([ANYCHAR]);
      case Set(neg, chars) =>
        laststart := Some(b);
        ok := PushSet(neg, chars);
      case Open =>
        ok := OpenGroup();
      case Close =>
        if stack == [] {
          ok := StrayParen(j < |text| && text[j].Repeat?);
        } else {
          ok := CloseGroup();
        }
      case Bar =>
        ok := Alternative();
      case Repeat(_) =>
        var zero, many;
        zero, many, j := ScanRepeats(text, i);
        ok := RepeatLast(zero, many);
    }

    /** Collapse a run of repetition operators into two flags. */
    method ScanRepeats(text: seq<Token>, i: nat) returns (zero: bool, many: bool, j: nat)
      requires RepeatAt(text, i)
      ensures j == RunEnd(text, i)
      ensures zero == AnyOther(text, i, j, Plus) && many == AnyOther(text, i, j, Opt)
      ensures zero || many
    {
      zero, many, j := false, false, i;
      while j < |text| && text[j].Repeat?
        invariant i <= j <= |text| && RunEnd(text, i) == RunEnd(text, j)
        invariant zero == AnyOther(text, i, j, Plus) && many == AnyOther(text, i, j, Opt)
        invariant j > i ==> zero || many
      {
        OneMore(text, i, j, Plus);
        OneMore(text, i, j, Opt);
        zero := zero || text[j].op != Plus;
        many := many || text[j].op != Opt;
        j := j + 1;
      }
    }

    /** regex_compile */
    method Compile(text: seq<Token>) returns (error: CompileError)
      requires Valid() && Abs() == START
      modifies this, buffer
      ensures Valid()
      ensures error == NoError ==> Run(text, 0, START) == Code(Contents())
      ensures error == EParen ==> Run(text, 0, START) == UnmatchedParen && Depth(text) > 0
      ensures error == NoError ==> Depth(text) == 0
      ensures error == ESize ==> Run(text, 0, START).UnmatchedParen? || |Run(text, 0, START).code| + 34 > MAX_BUF_SIZE
    {
      UnmatchedIfOpen(text);
      var i := 0;
      while i != |text|
        invariant 0 <= i <= |text| && Valid() && Ok(Abs()) && (buffer == old(buffer) || fresh(buffer))
        invariant Run(text, i, Abs()) == Run(text, 0, START)
        decreases |text| - i
      {
        CodeGrows(text, i, Abs());
        var ok, j := CompileToken(text, i);
        if !ok {
          return ESize;
        }
        i := j;
      }
      StoreFixup(b);
      return if stack != [] then EParen else NoError;
    }

    /** The code never gets shorter, so the final size bounds every size. */
    static lemma {:induction false} CodeGrows(text: seq<Token>, i: nat, s: State)
      requires Ok(s) && i <= |text|
      ensures Run(text, i, s).Code? ==> |Run(text, i, s).code| >= |s.buf|
      ensures i < |text| && Run(text, i, s).Code? ==> |Run(text, i, s).code| >= |Step(text, i, s).0.buf|
      decreases |text| - i
    {
      if i < |text| {
        var (next, j) := Step(text, i, s);
        CodeGrows(text, j, next);
      }
    }
  }
}
