/** What the bytecode can do, ignoring the order in which choices are tried:
    the code of a pattern can be run through on exactly the pattern's words. */
module RegexRun {
  import opened Octets
  import opened RegexSyntax
  import opened RegexEmit

  /** A command with its argument and the address after it.  Jump targets are
      relative to that address. */
  datatype Instr =
    | Exact(cs: Bytes, next: nat)
    | Any(next: nat)
    | OneOf(neg: bool, bitmap: Bytes, next: nat)
    | Memory(next: nat)
    | Jump(op: Byte, to: nat, next: nat)
    | OnFailure(to: nat, next: nat)
    | DummyJump(to: nat, next: nat)
    | PushDummy(next: nat)
    | Bad

  predicate IsJump(op: Byte) {
    op == JUMP || op == JUMP_PAST_ALT || op == POP_FAILURE_JUMP || op == MAYBE_POP_JUMP
  }

  /** The command at pc. */
  function Decode(code: Bytes, pc: nat): Instr
    requires pc < |code|
  {
    var op := code[pc];
    var left := |code| - pc;
    if op == EXACTN then
      if left >= 2 && code[pc + 1] > 0 && left >= 2 + code[pc + 1] as int then
        var next := pc + 2 + code[pc + 1] as int;
        Exact(code[pc + 2..next], next)
      else Bad
    else if op == ANYCHAR then Any(pc + 1)
    else if op == CHARSET || op == CHARSET_NOT then
      if left >= 2 && left >= 2 + code[pc + 1] as int then
        var next := pc + 2 + code[pc + 1] as int;
        OneOf(op == CHARSET_NOT, code[pc + 2..next], next)
      else Bad
    else if op == PUSH_DUMMY_FAILURE then PushDummy(pc + 1)
    else if left < 3 then Bad
    else if op == START_MEMORY || op == STOP_MEMORY then Memory(pc + 3)
    else
      var to := pc + 3 + Extract(code[pc + 1], code[pc + 2]);
      if !(0 <= to <= |code|) then Bad
      else if IsJump(op) then Jump(op, to, pc + 3)
      else if op == ON_FAILURE_JUMP then OnFailure(to, pc + 3)
      else if op == DUMMY_FAILURE_JUMP then DummyJump(to, pc + 3)
      else Bad
  }

  /** Can the machine, choosing freely at every on_failure_jump, get from pc and
      subject position d to the end of the code at position e in k commands? */
  ghost predicate Accepts(code: Bytes, s: Bytes, pc: nat, d: nat, e: nat, k: nat)
    decreases k, 0
  {
    if pc >= |code| || k == 0 then pc == |code| && d == e
    else Executes(Decode(code, pc), code, s, d, e, k - 1)
  }

  /** The same, from a command that has been read. */
  ghost predicate Executes(i: Instr, code: Bytes, s: Bytes, d: nat, e: nat, k: nat)
    decreases k, 1
  {
    match i
    case Exact(cs, next) => d + |cs| <= |s| && s[d..d + |cs|] == cs && Accepts(code, s, next, d + |cs|, e, k)
    case Any(next) => d < |s| && s[d] != 0 && Accepts(code, s, next, d + 1, e, k)
    case OneOf(neg, bitmap, next) => d < |s| && InMap(bitmap, s[d]) != neg && Accepts(code, s, next, d + 1, e, k)
    case Memory(next) => Accepts(code, s, next, d, e, k)
    case PushDummy(next) => Accepts(code, s, next, d, e, k)
    case Jump(_, to, _) => Accepts(code, s, to, d, e, k)
    case DummyJump(to, _) => Accepts(code, s, to, d, e, k)
    case OnFailure(to, next) => Accepts(code, s, next, d, e, k) || Accepts(code, s, to, d, e, k)
    case Bad => false
  }

  lemma Execute(code: Bytes, s: Bytes, pc: nat, d: nat, e: nat, k: nat)
    requires pc < |code| && Accepts(code, s, pc, d, e, k)
    ensures k > 0 && Executes(Decode(code, pc), code, s, d, e, k - 1)
  {
  }

  /** code has part at o. */
  ghost predicate At(code: Bytes, o: nat, part: Bytes) {
    o + |part| <= |code| && code[o..o + |part|] == part
  }

  /** Jump offsets fit the two-byte format. */
  predicate Fits(code: Bytes) {
    |code| < 0x8000
  }

  lemma AtParts(code: Bytes, o: nat, x: Bytes, y: Bytes)
    requires At(code, o, x + y)
    ensures At(code, o, x) && At(code, o + |x|, y)
  {
    assert code[o..o + |x + y|] == x + y;
    assert code[o..o + |x|] == (x + y)[..|x|] == x;
    assert code[o + |x|..o + |x| + |y|] == (x + y)[|x|..] == y;
  }

  lemma DecodeOp1(code: Bytes, o: nat, op: Byte, arg: int)
    requires At(code, o, Op1(op, arg)) && Fits(code) && 0 <= o + 3 + arg <= |code|
    ensures o + 3 <= |code|
    ensures IsJump(op) ==> Decode(code, o) == Jump(op, o + 3 + arg, o + 3)
    ensures op == ON_FAILURE_JUMP ==> Decode(code, o) == OnFailure(o + 3 + arg, o + 3)
    ensures op == DUMMY_FAILURE_JUMP ==> Decode(code, o) == DummyJump(o + 3 + arg, o + 3)
  {
    assert code[o..o + 3] == [op, Low(arg), High(arg)];
    assert code[o] == code[o..o + 3][0] && code[o + 1] == code[o..o + 3][1] && code[o + 2] == code[o..o + 3][2];
    StoreExtract(arg);
  }

  lemma DecodeExact(code: Bytes, o: nat, cs: Bytes)
    requires 0 < |cs| < 256 && At(code, o, [EXACTN, |cs| as Byte] + cs)
    ensures o < |code| && Decode(code, o) == Exact(cs, o + 2 + |cs|)
  {
    var part := [EXACTN, |cs| as Byte] + cs;
    assert code[o..o + |part|] == part;
    assert code[o] == code[o..o + |part|][0] && code[o + 1] == code[o..o + |part|][1];
    assert code[o + 2..o + 2 + |cs|] == code[o..o + |part|][2..];
  }

  lemma DecodeSet(code: Bytes, o: nat, neg: bool, bitmap: Bytes)
    requires |bitmap| <= 32 && At(code, o, [if neg then CHARSET_NOT else CHARSET, |bitmap| as Byte] + bitmap)
    ensures o < |code| && Decode(code, o) == OneOf(neg, bitmap, o + 2 + |bitmap|)
  {
    var part := [if neg then CHARSET_NOT else CHARSET, |bitmap| as Byte] + bitmap;
    assert code[o..o + |part|] == part;
    assert code[o] == code[o..o + |part|][0] && code[o + 1] == code[o..o + |part|][1];
    assert code[o + 2..o + 2 + |bitmap|] == code[o..o + |part|][2..];
  }

  lemma DecodeFixed(code: Bytes, o: nat, part: Bytes)
    requires part != [] && At(code, o, part)
    ensures part == [ANYCHAR] ==> Decode(code, o) == Any(o + 1)
    ensures part == [PUSH_DUMMY_FAILURE] ==> Decode(code, o) == PushDummy(o + 1)
    ensures |part| == 3 && (part[0] == START_MEMORY || part[0] == STOP_MEMORY) ==> Decode(code, o) == Memory(o + 3)
  {
    assert code[o] == code[o..o + |part|][0];
  }

  // ---- Atoms that are one character ----

  predicate Takes(a: Atom, c: Byte) {
    match a
    case Lit(x) => c == x
    case Dot => c != 0
    case Bracket(neg, chars) => (c in chars) != neg
    case Group(_) => false
  }

  lemma CharMatches(a: Atom, w: Bytes)
    requires !a.Group?
    ensures AtomMatches(a, w) <==> |w| == 1 && Takes(a, w[0])
  {
  }

  /** Does the command consume one character, and may it be c? */
  predicate Consumes(i: Instr, c: Byte) {
    match i
    case Exact(cs, _) => cs == [c]
    case Any(_) => c != 0
    case OneOf(neg, bitmap, _) => InMap(bitmap, c) != neg
    case _ => false
  }

  predicate IsChar(i: Instr) {
    (i.Exact? && |i.cs| == 1) || i.Any? || i.OneOf?
  }

  lemma CharDecode(a: Atom, n: nat, code: Bytes, o: nat)
    requires !a.Group? && At(code, o, AtomCode(a, n))
    ensures o < |code| && IsChar(Decode(code, o)) && Decode(code, o).next == o + |AtomCode(a, n)|
    ensures forall c :: Consumes(Decode(code, o), c) <==> Takes(a, c)
    ensures Decode(code, o).OneOf? ==> |Decode(code, o).bitmap| <= 32
  {
    hide At, Decode;
    match a
    case Lit(c) =>
      assert AtomCode(a, n) == [EXACTN, 1] + [c];
      DecodeExact(code, o, [c]);
    case Dot =>
      assert AtomCode(a, n) == [ANYCHAR];
      AtInside(code, o, [ANYCHAR]);
      DecodeFixed(code, o, [ANYCHAR]);
    case Bracket(neg, chars) =>
      DecodeSet(code, o, neg, Trim(Bitmap(chars)));
  }

  lemma AtInside(code: Bytes, o: nat, part: Bytes)
    requires At(code, o, part)
    ensures o + |part| <= |code|
  {
  }

  lemma CharRuns(a: Atom, n: nat, code: Bytes, s: Bytes, o: nat, d: nat, e: nat, k: nat)
    requires !a.Group? && At(code, o, AtomCode(a, n)) && Accepts(code, s, o, d, e, k)
    ensures k > 0 && d < |s| && AtomMatches(a, s[d..d + 1])
    ensures Accepts(code, s, o + |AtomCode(a, n)|, d + 1, e, k - 1)
  {
    hide At, Decode, AtomCode, Accepts, AtomMatches, Takes;
    CharDecode(a, n, code, o);
    Execute(code, s, o, d, e, k);
    assert Decode(code, o).Exact? && d < |s| ==> s[d..d + 1] == [s[d]];
    assert Consumes(Decode(code, o), s[d]);
    CharMatches(a, s[d..d + 1]);
  }

  // ---- The parts of composite code ----

  lemma GroupParts(alt: Alt, n: nat, code: Bytes, o: nat)
    requires At(code, o, AtomCode(Group(alt), n))
    ensures
      var (head, body) := (StartGroup(n + 1, AltGroups(alt)), AltCode(alt, n + 1));
      var (tail, stop) := (EndAlt(alt), StopGroup(n + 1, AltGroups(alt)));
      && At(code, o, head) && At(code, o + |head|, body)
      && At(code, o + |head| + |body|, tail) && At(code, o + |head| + |body| + |tail|, stop)
      && |AtomCode(Group(alt), n)| == |head| + |body| + |tail| + |stop|
  {
    var (head, body) := (StartGroup(n + 1, AltGroups(alt)), AltCode(alt, n + 1));
    var (tail, stop) := (EndAlt(alt), StopGroup(n + 1, AltGroups(alt)));
    AtParts(code, o, head + body + tail, stop);
    AtParts(code, o, head + body, tail);
    AtParts(code, o, head, body);
  }

  /** The commands around the body of `*`. */
  lemma LoopParts(body: Bytes, code: Bytes, o: nat)
    requires Fits(code) && At(code, o, RepCode(body, true, true))
    ensures At(code, o + 3, body) && o + |body| + 6 <= |code|
    ensures Decode(code, o) == OnFailure(o + |body| + 6, o + 3)
    ensures Decode(code, o + 3 + |body|) == Jump(MAYBE_POP_JUMP, o, o + |body| + 6)
  {
    var front, back := Op1(ON_FAILURE_JUMP, |body| + 3), Op1(MAYBE_POP_JUMP, -(|body| + 6));
    AtParts(code, o, front + body, back);
    AtParts(code, o, front, body);
    DecodeOp1(code, o, ON_FAILURE_JUMP, |body| + 3);
    DecodeOp1(code, o + 3 + |body|, MAYBE_POP_JUMP, -(|body| + 6));
  }

  /** `+` enters its loop behind the on_failure_jump. */
  lemma PlusParts(body: Bytes, code: Bytes, o: nat)
    requires Fits(code) && At(code, o, RepCode(body, false, true))
    ensures At(code, o + 3, RepCode(body, true, true)) &&
      |RepCode(body, false, true)| == 3 + |RepCode(body, true, true)|
    ensures o < |code| && Decode(code, o) == DummyJump(o + 6, o + 3)
  {
    assert RepCode(body, false, true) == Op1(DUMMY_FAILURE_JUMP, 3) + RepCode(body, true, true);
    AtParts(code, o, Op1(DUMMY_FAILURE_JUMP, 3), RepCode(body, true, true));
    DecodeOp1(code, o, DUMMY_FAILURE_JUMP, 3);
  }

  lemma OptParts(body: Bytes, code: Bytes, o: nat)
    requires Fits(code) && At(code, o, RepCode(body, true, false))
    ensures At(code, o + 3, body) && o < |code|
    ensures Decode(code, o) == OnFailure(o + 3 + |body|, o + 3)
  {
    AtParts(code, o, Op1(ON_FAILURE_JUMP, |body|), body);
    DecodeOp1(code, o, ON_FAILURE_JUMP, |body|);
  }

  /** The commands around the first of several alternatives. */
  lemma OrParts(b: Branch, others: Alt, n: nat, code: Bytes, o: nat)
    requires Fits(code) && At(code, o, AltCode(Or(b, others), n))
    ensures
      var (body, n1) := (BranchCode(b, n), n + BranchGroups(b));
      var o1 := o + |body| + 6;
      && At(code, o + 3, body) && At(code, o1, AltCode(others, n1))
      && |AltCode(Or(b, others), n)| == |body| + 6 + |AltCode(others, n1)|
      && PastAlt(others, n1) <= |AltCode(others, n1)| && o1 + |AltCode(others, n1)| <= |code|
      && Decode(code, o) == OnFailure(o1, o + 3)
      && Decode(code, o + 3 + |body|) == Jump(JUMP_PAST_ALT, o1 + PastAlt(others, n1), o1)
  {
    hide BranchCode, AltCode, PastAlt, Decode, At, Op1;
    var body, n1 := BranchCode(b, n), n + BranchGroups(b);
    var rest, past := AltCode(others, n1), PastAlt(others, n1);
    OrCode(b, others, n);
    JumpAround(body, Op1(JUMP_PAST_ALT, past), rest, code, o);
    DecodeOp1(code, o + 3 + |body|, JUMP_PAST_ALT, past);
  }

  lemma OrCode(b: Branch, others: Alt, n: nat)
    ensures
      var (body, n1) := (BranchCode(b, n), n + BranchGroups(b));
      && AltCode(Or(b, others), n) == Op1(ON_FAILURE_JUMP, |body| + 3) + body
           + Op1(JUMP_PAST_ALT, PastAlt(others, n1)) + AltCode(others, n1)
      && PastAlt(others, n1) <= |AltCode(others, n1)|
  {
    hide BranchCode;
  }

  lemma JumpAround(body: Bytes, past: Bytes, rest: Bytes, code: Bytes, o: nat)
    requires Fits(code) && |past| == 3 && At(code, o, Op1(ON_FAILURE_JUMP, |body| + 3) + body + past + rest)
    ensures At(code, o + 3, body) && At(code, o + 3 + |body|, past) && At(code, o + |body| + 6, rest)
    ensures o + |body| + 6 + |rest| <= |code|
    ensures Decode(code, o) == OnFailure(o + |body| + 6, o + 3)
  {
    var front := Op1(ON_FAILURE_JUMP, |body| + 3);
    AtParts(code, o, front + body + past, rest);
    AtParts(code, o, front + body, past);
    AtParts(code, o, front, body);
    hide Decode;
    DecodeOp1(code, o, ON_FAILURE_JUMP, |body| + 3);
  }

  /** A run of literals is one exactn command. */
  lemma {:induction false} LitRunMatches(b: Branch, room: nat, w: Bytes)
    ensures
      var (cs, after) := LitRun(b, room);
      BranchMatches(b, w) <==> |cs| <= |w| && w[..|cs|] == cs && BranchMatches(after, w[|cs|..])
  {
    var (cs, after) := LitRun(b, room);
    if room > 0 && b.Then? && b.first.Once? && b.first.atom.Lit? {
      var more := LitRun(b.rest, room - 1).0;
      var c := b.first.atom.c;
      assert cs == [c] + more;
      LitFirst(b, w);
      if 0 < |w| {
        LitRunMatches(b.rest, room - 1, w[1..]);
        if |cs| <= |w| {
          assert w[1..][|more|..] == w[|cs|..];
          assert w[..|cs|] == [w[0]] + w[1..][..|more|];
        }
      }
    } else {
      assert w[0..] == w;
    }
  }

  lemma LitFirst(b: Branch, w: Bytes)
    requires b.Then? && b.first.Once? && b.first.atom.Lit?
    ensures BranchMatches(b, w) <==> 0 < |w| && w[0] == b.first.atom.c && BranchMatches(b.rest, w[1..])
  {
    var c := b.first.atom.c;
    forall u: Bytes
      ensures PieceMatches(b.first, u) <==> u == [c]
    {
      assert AtomMatches(b.first.atom, u) <==> u == [c];
    }
    if BranchMatches(b, w) {
      var k :| 0 <= k <= |w| && PieceMatches(b.first, w[..k]) && BranchMatches(b.rest, w[k..]);
      assert w[..k] == [c];
      assert k == |w[..k]| == 1 && w[..k][0] == w[0];
    }
    if 0 < |w| && w[0] == c {
      assert PieceMatches(b.first, w[..1]);
    }
  }

  // ---- From a run to a word ----

  /** Any accepting run that starts with the code of an atom first consumes a
      word of the atom and then goes on behind that code. */
  lemma {:induction false} AtomRuns(a: Atom, n: nat, code: Bytes, s: Bytes, o: nat, d: nat, e: nat, k: nat)
    returns (m: nat, k1: nat)
    requires Fits(code) && At(code, o, AtomCode(a, n)) && d <= |s| && Accepts(code, s, o, d, e, k)
    ensures d <= m <= |s| && k1 <= k && AtomMatches(a, s[d..m])
    ensures Accepts(code, s, o + |AtomCode(a, n)|, m, e, k1)
    decreases a, 0, k
  {
    hide Accepts, Decode, At, AtomCode, AltCode, AltMatches;
    if a.Group? {
      var alt, inner := a.alt, AltGroups(a.alt);
      var (head, body, tail, stop) := (StartGroup(n + 1, inner), AltCode(alt, n + 1), EndAlt(alt),
          StopGroup(n + 1, inner));
      GroupParts(alt, n, code, o);
      k1 := PassFixed(head, code, s, o, d, e, k);
      m, k1 := AltRuns(alt, n + 1, code, s, o + |head|, d, e, k1);
      var o2 := o + |head| + |body|;
      k1 := PassFixed(tail, code, s, o2, m, e, k1);
      k1 := PassFixed(stop, code, s, o2 + |tail|, m, e, k1);
    } else {
      CharRuns(a, n, code, s, o, d, e, k);
      m, k1 := d + 1, k - 1;
    }
  }

  /** Register commands and push_dummy_failure consume nothing. */
  lemma PassFixed(part: Bytes, code: Bytes, s: Bytes, o: nat, d: nat, e: nat, k: nat) returns (k1: nat)
    requires At(code, o, part) && Accepts(code, s, o, d, e, k)
    requires part == [] || part == [PUSH_DUMMY_FAILURE] ||
      (|part| == 3 && (part[0] == START_MEMORY || part[0] == STOP_MEMORY))
    ensures k1 <= k && Accepts(code, s, o + |part|, d, e, k1)
  {
    hide Accepts, Decode;
    k1 := k;
    if part != [] {
      DecodeFixed(code, o, part);
      Execute(code, s, o, d, e, k);
      k1 := k - 1;
    }
  }

  lemma {:induction false} LoopRuns(a: Atom, n: nat, code: Bytes, s: Bytes, o: nat, d: nat, e: nat, k: nat)
    returns (m: nat, k1: nat)
    requires Fits(code) && At(code, o, RepCode(AtomCode(a, n), true, true)) && d <= |s| && Accepts(code, s, o, d, e, k)
    ensures d <= m <= |s| && k1 <= k && AtomMany(a, s[d..m])
    ensures Accepts(code, s, o + |AtomCode(a, n)| + 6, m, e, k1)
    decreases a, 1, k
  {
    hide Accepts, Decode, At, AtomCode, AtomMatches, RepCode;
    var end := o + |AtomCode(a, n)| + 6;
    LoopParts(AtomCode(a, n), code, o);
    Execute(code, s, o, d, e, k);
    if Accepts(code, s, end, d, e, k - 1) {
      m, k1 := d, k - 1;
    } else {
      var j: nat;
      j, m, k1 := BodyRuns(a, n, code, s, o, d, e, k - 1);
      assert s[d..m][..j - d] == s[d..j] && s[d..m][j - d..] == s[j..m];
      AtomManyStep(a, s[d..m], j - d);
    }
  }

  /** From the body of a loop: once through it, and then any number of times. */
  lemma {:induction false} BodyRuns(a: Atom, n: nat, code: Bytes, s: Bytes, o: nat, d: nat, e: nat, k: nat)
    returns (j: nat, m: nat, k1: nat)
    requires Fits(code) && At(code, o, RepCode(AtomCode(a, n), true, true)) && d <= |s|
    requires Accepts(code, s, o + 3, d, e, k)
    ensures d <= j <= m <= |s| && k1 <= k && AtomMatches(a, s[d..j]) && AtomMany(a, s[j..m])
    ensures Accepts(code, s, o + |AtomCode(a, n)| + 6, m, e, k1)
    decreases a, 1, k
  {
    hide Accepts, Decode, At, AtomCode, AtomMatches, AtomMany, RepCode;
    LoopParts(AtomCode(a, n), code, o);
    j, k1 := AtomRuns(a, n, code, s, o + 3, d, e, k);
    Execute(code, s, o + 3 + |AtomCode(a, n)|, j, e, k1);
    m, k1 := LoopRuns(a, n, code, s, o, j, e, k1 - 1);
  }

  lemma {:induction false} PieceRuns(p: Piece, n: nat, code: Bytes, s: Bytes, o: nat, d: nat, e: nat, k: nat)
    returns (m: nat, k1: nat)
    requires Fits(code) && At(code, o, PieceCode(p, n)) && d <= |s| && Accepts(code, s, o, d, e, k)
    ensures d <= m <= |s| && k1 <= k && PieceMatches(p, s[d..m])
    ensures Accepts(code, s, o + |PieceCode(p, n)|, m, e, k1)
    decreases p, 2, k
  {
    hide Accepts, Decode, At, AtomCode, AtomMatches, AtomMany, PieceMatches, ZeroTimesOk, ManyTimesOk, Base;
    BaseIsInside(p);
    var a, zero, many := Base(p), ZeroTimesOk(p), ManyTimesOk(p);
    var body := AtomCode(a, n);
    if many && zero {
      m, k1 := LoopRuns(a, n, code, s, o, d, e, k);
      ManyIsCollapsed(a, s[d..m]);
    } else if many {
      PlusParts(body, code, o);
      Execute(code, s, o, d, e, k);
      var j: nat;
      j, m, k1 := BodyRuns(a, n, code, s, o + 3, d, e, k - 1);
      assert s[d..m][..j - d] == s[d..j] && s[d..m][j - d..] == s[j..m];
    } else if zero {
      OptParts(body, code, o);
      Execute(code, s, o, d, e, k);
      if Accepts(code, s, o + 3 + |body|, d, e, k - 1) {
        m, k1 := d, k - 1;
      } else {
        m, k1 := AtomRuns(a, n, code, s, o + 3, d, e, k - 1);
      }
    } else {
      m, k1 := AtomRuns(a, n, code, s, o, d, e, k);
    }
    CollapseKeepsMeaning(p, s[d..m]);
  }

  lemma ManyIsCollapsed(a: Atom, w: Bytes)
    ensures AtomMany(a, w) <==> Collapsed(a, true, true, w)
  {
    if w != [] && Collapsed(a, true, true, w) {
      var k :| 0 <= k <= |w| && AtomMatches(a, w[..k]) && AtomMany(a, w[k..]);
      AtomManyStep(a, w, k);
    }
  }

  lemma {:induction false} BranchRuns(b: Branch, n: nat, code: Bytes, s: Bytes, o: nat, d: nat, e: nat, k: nat)
    returns (m: nat, k1: nat)
    requires Fits(code) && At(code, o, BranchCode(b, n)) && d <= |s| && Accepts(code, s, o, d, e, k)
    ensures d <= m <= |s| && k1 <= k && BranchMatches(b, s[d..m])
    ensures Accepts(code, s, o + |BranchCode(b, n)|, m, e, k1)
    decreases b, 0, k
  {
    hide Accepts, Decode, At, PieceCode, PieceMatches, LitRun, BranchMatches;
    match b
    case End =>
      m, k1 := d, k;
      NothingMatches(s, d);
    case Then(p, rest) =>
      if p.Once? && p.atom.Lit? {
        var (cs, after) := LitRun(b, 255);
        LitRunParts(b, n, code, o);
        Execute(code, s, o, d, e, k);
        m, k1 := BranchRuns(after, n, code, s, o + 2 + |cs|, d + |cs|, e, k - 1);
        LitsBetween(b, s, d, m);
      } else {
        AtParts(code, o, PieceCode(p, n), BranchCode(rest, n + PieceGroups(p)));
        var j: nat;
        j, k1 := PieceRuns(p, n, code, s, o, d, e, k);
        m, k1 := BranchRuns(rest, n + PieceGroups(p), code, s, o + |PieceCode(p, n)|, j, e, k1);
        ThenMatches(p, rest, s, d, j, m);
      }
  }

  lemma NothingMatches(s: Bytes, d: nat)
    requires d <= |s|
    ensures BranchMatches(End, s[d..d])
  {
  }

  lemma ThenMatches(p: Piece, rest: Branch, s: Bytes, d: nat, j: nat, m: nat)
    requires d <= j <= m <= |s| && PieceMatches(p, s[d..j]) && BranchMatches(rest, s[j..m])
    ensures BranchMatches(Then(p, rest), s[d..m])
  {
    hide PieceMatches;
    assert s[d..m][..j - d] == s[d..j] && s[d..m][j - d..] == s[j..m];
  }

  lemma LitRunParts(b: Branch, n: nat, code: Bytes, o: nat)
    requires At(code, o, BranchCode(b, n)) && b.Then? && b.first.Once? && b.first.atom.Lit?
    ensures
      var (cs, after) := LitRun(b, 255);
      && cs != [] && o < |code| && Decode(code, o) == Exact(cs, o + 2 + |cs|)
      && At(code, o + 2 + |cs|, BranchCode(after, n)) && |BranchCode(b, n)| == 2 + |cs| + |BranchCode(after, n)|
  {
    hide At, Decode;
    var (cs, after) := LitRun(b, 255);
    var head := [EXACTN, |cs| as Byte] + cs;
    AtParts(code, o, head, BranchCode(after, n));
    DecodeExact(code, o, cs);
  }

  lemma {:induction false} AltRuns(alt: Alt, n: nat, code: Bytes, s: Bytes, o: nat, d: nat, e: nat, k: nat)
    returns (m: nat, k1: nat)
    requires Fits(code) && At(code, o, AltCode(alt, n)) && d <= |s| && Accepts(code, s, o, d, e, k)
    ensures d <= m <= |s| && k1 <= k && AltMatches(alt, s[d..m])
    ensures Accepts(code, s, o + |AltCode(alt, n)|, m, e, k1)
    decreases alt, 1, k
  {
    hide Accepts, Decode, At, BranchCode, BranchMatches;
    match alt
    case Only(b) =>
      m, k1 := BranchRuns(b, n, code, s, o, d, e, k);
    case Or(b, others) =>
      var n1 := n + BranchGroups(b);
      var o1 := o + |BranchCode(b, n)| + 6;
      OrParts(b, others, n, code, o);
      Execute(code, s, o, d, e, k);
      if Accepts(code, s, o1, d, e, k - 1) {
        m, k1 := AltRuns(others, n1, code, s, o1, d, e, k - 1);
      } else {
        m, k1 := BranchRuns(b, n, code, s, o + 3, d, e, k - 1);
        Execute(code, s, o + 3 + |BranchCode(b, n)|, m, e, k1);
        k1 := ChainRuns(others, n1, code, s, o1, m, e, k1 - 1);
      }
  }

  /** The jumps past the other alternatives. */
  lemma {:induction false} ChainRuns(others: Alt, n: nat, code: Bytes, s: Bytes, o: nat, d: nat, e: nat, k: nat)
    returns (k1: nat)
    requires Fits(code) && At(code, o, AltCode(others, n))
    requires Accepts(code, s, o + PastAlt(others, n), d, e, k)
    ensures k1 <= k && Accepts(code, s, o + |AltCode(others, n)|, d, e, k1)
    decreases others, 0
  {
    hide Accepts, Decode, At, BranchCode;
    match others
    case Only(b) =>
      k1 := k;
    case Or(b, more) =>
      OrParts(b, more, n, code, o);
      Execute(code, s, o + 3 + |BranchCode(b, n)|, d, e, k);
      k1 := ChainRuns(more, n + BranchGroups(b), code, s, o + |BranchCode(b, n)| + 6, d, e, k - 1);
  }

  // ---- From a word to a run ----

  lemma Executed(code: Bytes, s: Bytes, pc: nat, d: nat, e: nat, k: nat)
    requires pc < |code| && Executes(Decode(code, pc), code, s, d, e, k)
    ensures Accepts(code, s, pc, d, e, k + 1)
  {
  }

  /** For every word of an atom, a run from behind its code extends to a run from
      the front. */
  lemma {:induction false} AtomRunsBack(a: Atom, n: nat, code: Bytes, s: Bytes, o: nat, d: nat, m: nat, e: nat, k1: nat)
    returns (k: nat)
    requires Fits(code) && At(code, o, AtomCode(a, n)) && d <= m <= |s| && AtomMatches(a, s[d..m])
    requires Accepts(code, s, o + |AtomCode(a, n)|, m, e, k1)
    ensures Accepts(code, s, o, d, e, k)
    decreases a, 0, 0
  {
    hide Accepts, Decode, At, AtomCode, AltCode, AltMatches;
    if a.Group? {
      var alt, inner := a.alt, AltGroups(a.alt);
      var (head, body, tail, stop) := (StartGroup(n + 1, inner), AltCode(alt, n + 1), EndAlt(alt),
          StopGroup(n + 1, inner));
      GroupParts(alt, n, code, o);
      var o2 := o + |head| + |body|;
      k := PassFixedBack(stop, code, s, o2 + |tail|, m, e, k1);
      k := PassFixedBack(tail, code, s, o2, m, e, k);
      k := AltRunsBack(alt, n + 1, code, s, o + |head|, d, m, e, k);
      k := PassFixedBack(head, code, s, o, d, e, k);
    } else {
      CharRunsBack(a, n, code, s, o, d, m, e, k1);
      k := k1 + 1;
    }
  }

  lemma CharRunsBack(a: Atom, n: nat, code: Bytes, s: Bytes, o: nat, d: nat, m: nat, e: nat, k1: nat)
    requires !a.Group? && At(code, o, AtomCode(a, n)) && d <= m <= |s| && AtomMatches(a, s[d..m])
    requires Accepts(code, s, o + |AtomCode(a, n)|, m, e, k1)
    ensures Accepts(code, s, o, d, e, k1 + 1)
  {
    hide At, Decode, AtomCode, Accepts, AtomMatches, Takes;
    CharMatches(a, s[d..m]);
    CharDecode(a, n, code, o);
    assert s[d..m] == [s[d]] && Consumes(Decode(code, o), s[d]);
    Executed(code, s, o, d, e, k1);
  }

  lemma PassFixedBack(part: Bytes, code: Bytes, s: Bytes, o: nat, d: nat, e: nat, k1: nat) returns (k: nat)
    requires At(code, o, part) && Accepts(code, s, o + |part|, d, e, k1)
    requires part == [] || part == [PUSH_DUMMY_FAILURE] ||
      (|part| == 3 && (part[0] == START_MEMORY || part[0] == STOP_MEMORY))
    ensures Accepts(code, s, o, d, e, k)
  {
    hide Accepts, Decode;
    k := k1;
    if part != [] {
      DecodeFixed(code, o, part);
      Executed(code, s, o, d, e, k);
      k := k + 1;
    }
  }

  lemma {:induction false} LoopRunsBack(a: Atom, n: nat, code: Bytes, s: Bytes, o: nat, d: nat, m: nat, e: nat, k1: nat)
    returns (k: nat)
    requires Fits(code) && At(code, o, RepCode(AtomCode(a, n), true, true)) && d <= m <= |s| && AtomMany(a, s[d..m])
    requires Accepts(code, s, o + |AtomCode(a, n)| + 6, m, e, k1)
    ensures Accepts(code, s, o, d, e, k)
    decreases a, 1, m - d
  {
    hide Accepts, Decode, At, AtomCode, AtomMatches, RepCode;
    LoopParts(AtomCode(a, n), code, o);
    if d == m {
      Executed(code, s, o, d, e, k1);
      k := k1 + 1;
    } else {
      var j :| 0 < j <= m - d && AtomMatches(a, s[d..m][..j]) && AtomMany(a, s[d..m][j..]);
      assert s[d..m][..j] == s[d..d + j] && s[d..m][j..] == s[d + j..m];
      k := LoopRunsBack(a, n, code, s, o, d + j, m, e, k1);
      k := BodyRunsBack(a, n, code, s, o, d, d + j, e, k);
      Executed(code, s, o, d, e, k);
      k := k + 1;
    }
  }

  /** From the body of a loop back to its on_failure_jump. */
  lemma {:induction false} BodyRunsBack(a: Atom, n: nat, code: Bytes, s: Bytes, o: nat, d: nat, j: nat, e: nat, k1: nat)
    returns (k: nat)
    requires Fits(code) && At(code, o, RepCode(AtomCode(a, n), true, true)) && d <= j <= |s|
    requires AtomMatches(a, s[d..j]) && Accepts(code, s, o, j, e, k1)
    ensures Accepts(code, s, o + 3, d, e, k)
    decreases a, 0, 1
  {
    hide Accepts, Decode, At, AtomCode, AtomMatches, RepCode;
    LoopParts(AtomCode(a, n), code, o);
    Executed(code, s, o + 3 + |AtomCode(a, n)|, j, e, k1);
    k := AtomRunsBack(a, n, code, s, o + 3, d, j, e, k1 + 1);
  }

  lemma {:induction false} PieceRunsBack(p: Piece, n: nat, code: Bytes, s: Bytes, o: nat, d: nat, m: nat, e: nat,
      k1: nat)
    returns (k: nat)
    requires Fits(code) && At(code, o, PieceCode(p, n)) && d <= m <= |s| && PieceMatches(p, s[d..m])
    requires Accepts(code, s, o + |PieceCode(p, n)|, m, e, k1)
    ensures Accepts(code, s, o, d, e, k)
    decreases p, 2, 0
  {
    hide Accepts, Decode, At, AtomCode, AtomMatches, AtomMany, PieceMatches, ZeroTimesOk, ManyTimesOk, Base;
    BaseIsInside(p);
    CollapseKeepsMeaning(p, s[d..m]);
    var a, zero, many := Base(p), ZeroTimesOk(p), ManyTimesOk(p);
    var body := AtomCode(a, n);
    if many && zero {
      ManyIsCollapsed(a, s[d..m]);
      k := LoopRunsBack(a, n, code, s, o, d, m, e, k1);
    } else if many {
      PlusParts(body, code, o);
      var j :| 0 <= j <= m - d && AtomMatches(a, s[d..m][..j]) && AtomMany(a, s[d..m][j..]);
      assert s[d..m][..j] == s[d..d + j] && s[d..m][j..] == s[d + j..m];
      k := LoopRunsBack(a, n, code, s, o + 3, d + j, m, e, k1);
      k := BodyRunsBack(a, n, code, s, o + 3, d, d + j, e, k);
      Executed(code, s, o, d, e, k);
      k := k + 1;
    } else if zero {
      OptParts(body, code, o);
      k := k1;
      if d != m {
        k := AtomRunsBack(a, n, code, s, o + 3, d, m, e, k1);
      }
      Executed(code, s, o, d, e, k);
      k := k + 1;
    } else {
      k := AtomRunsBack(a, n, code, s, o, d, m, e, k1);
    }
  }

  lemma EmptyMatches(s: Bytes, d: nat, m: nat)
    requires d <= m <= |s| && BranchMatches(End, s[d..m])
    ensures d == m
  {
  }

  /** The literals at the front of a branch, and the rest of it. */
  lemma LitsBetween(b: Branch, s: Bytes, d: nat, m: nat)
    requires d <= m <= |s|
    ensures
      var (cs, after) := LitRun(b, 255);
      BranchMatches(b, s[d..m]) <==>
        d + |cs| <= m && s[d..d + |cs|] == cs && BranchMatches(after, s[d + |cs|..m])
  {
    hide LitRun, BranchMatches;
    var cs := LitRun(b, 255).0;
    LitRunMatches(b, 255, s[d..m]);
    if d + |cs| <= m {
      assert s[d..m][..|cs|] == s[d..d + |cs|] && s[d..m][|cs|..] == s[d + |cs|..m];
    }
  }

  lemma SplitBranch(p: Piece, rest: Branch, s: Bytes, d: nat, m: nat) returns (j: nat)
    requires d <= m <= |s| && BranchMatches(Then(p, rest), s[d..m])
    ensures d <= j <= m && PieceMatches(p, s[d..j]) && BranchMatches(rest, s[j..m])
  {
    hide PieceMatches;
    var w := s[d..m];
    var i :| 0 <= i <= |w| && PieceMatches(p, w[..i]) && BranchMatches(rest, w[i..]);
    assert w[..i] == s[d..d + i] && w[i..] == s[d + i..m];
    j := d + i;
  }

  lemma {:induction false} BranchRunsBack(b: Branch, n: nat, code: Bytes, s: Bytes, o: nat, d: nat, m: nat, e: nat,
      k1: nat)
    returns (k: nat)
    requires Fits(code) && At(code, o, BranchCode(b, n)) && d <= m <= |s| && BranchMatches(b, s[d..m])
    requires Accepts(code, s, o + |BranchCode(b, n)|, m, e, k1)
    ensures Accepts(code, s, o, d, e, k)
    decreases b, 0, 0
  {
    hide Accepts, Decode, At, PieceCode, PieceMatches, LitRun, BranchMatches;
    match b
    case End =>
      EmptyMatches(s, d, m);
      k := k1;
    case Then(p, rest) =>
      if p.Once? && p.atom.Lit? {
        var (cs, after) := LitRun(b, 255);
        LitRunParts(b, n, code, o);
        LitsBetween(b, s, d, m);
        k := BranchRunsBack(after, n, code, s, o + 2 + |cs|, d + |cs|, m, e, k1);
        Executed(code, s, o, d, e, k);
        k := k + 1;
      } else {
        AtParts(code, o, PieceCode(p, n), BranchCode(rest, n + PieceGroups(p)));
        var j := SplitBranch(p, rest, s, d, m);
        k := BranchRunsBack(rest, n + PieceGroups(p), code, s, o + |PieceCode(p, n)|, j, m, e, k1);
        k := PieceRunsBack(p, n, code, s, o, d, j, e, k);
      }
  }

  lemma {:induction false} AltRunsBack(alt: Alt, n: nat, code: Bytes, s: Bytes, o: nat, d: nat, m: nat, e: nat, k1: nat)
    returns (k: nat)
    requires Fits(code) && At(code, o, AltCode(alt, n)) && d <= m <= |s| && AltMatches(alt, s[d..m])
    requires Accepts(code, s, o + |AltCode(alt, n)|, m, e, k1)
    ensures Accepts(code, s, o, d, e, k)
    decreases alt, 1, 0
  {
    hide Accepts, Decode, At, BranchCode, BranchMatches;
    match alt
    case Only(b) =>
      k := BranchRunsBack(b, n, code, s, o, d, m, e, k1);
    case Or(b, others) =>
      var n1 := n + BranchGroups(b);
      var o1 := o + |BranchCode(b, n)| + 6;
      OrParts(b, others, n, code, o);
      if BranchMatches(b, s[d..m]) {
        k := ChainRunsBack(others, n1, code, s, o1, m, e, k1);
        Executed(code, s, o + 3 + |BranchCode(b, n)|, m, e, k);
        k := BranchRunsBack(b, n, code, s, o + 3, d, m, e, k + 1);
      } else {
        k := AltRunsBack(others, n1, code, s, o1, d, m, e, k1);
      }
      Executed(code, s, o, d, e, k);
      k := k + 1;
  }

  lemma {:induction false} ChainRunsBack(others: Alt, n: nat, code: Bytes, s: Bytes, o: nat, d: nat, e: nat, k1: nat)
    returns (k: nat)
    requires Fits(code) && At(code, o, AltCode(others, n))
    requires Accepts(code, s, o + |AltCode(others, n)|, d, e, k1)
    ensures Accepts(code, s, o + PastAlt(others, n), d, e, k)
    decreases others, 0, 0
  {
    hide Accepts, Decode, At, BranchCode;
    match others
    case Only(b) =>
      k := k1;
    case Or(b, more) =>
      OrParts(b, more, n, code, o);
      k := ChainRunsBack(more, n + BranchGroups(b), code, s, o + |BranchCode(b, n)| + 6, d, e, k1);
      Executed(code, s, o + 3 + |BranchCode(b, n)|, d, e, k);
      k := k + 1;
  }

  // ---- The meaning of compiled code ----

  /** Some choice of failure branches leads from pc at d to the end at e. */
  ghost predicate CanEnd(code: Bytes, s: Bytes, pc: nat, d: nat, e: nat) {
    exists k: nat :: Accepts(code, s, pc, d, e, k)
  }

  /** The same, from a command that has been read. */
  ghost predicate Leads(i: Instr, code: Bytes, s: Bytes, d: nat, e: nat) {
    match i
    case Exact(cs, next) => d + |cs| <= |s| && s[d..d + |cs|] == cs && CanEnd(code, s, next, d + |cs|, e)
    case Any(next) => d < |s| && s[d] != 0 && CanEnd(code, s, next, d + 1, e)
    case OneOf(neg, bitmap, next) => d < |s| && InMap(bitmap, s[d]) != neg && CanEnd(code, s, next, d + 1, e)
    case Memory(next) => CanEnd(code, s, next, d, e)
    case PushDummy(next) => CanEnd(code, s, next, d, e)
    case Jump(_, to, _) => CanEnd(code, s, to, d, e)
    case DummyJump(to, _) => CanEnd(code, s, to, d, e)
    case OnFailure(to, next) => CanEnd(code, s, next, d, e) || CanEnd(code, s, to, d, e)
    case Bad => false
  }

  lemma ExecutesLeads(i: Instr, code: Bytes, s: Bytes, d: nat, e: nat, k: nat)
    requires Executes(i, code, s, d, e, k)
    ensures Leads(i, code, s, d, e)
  {
    hide Accepts;
  }

  lemma LeadsExecutes(i: Instr, code: Bytes, s: Bytes, d: nat, e: nat) returns (k: nat)
    requires Leads(i, code, s, d, e)
    ensures Executes(i, code, s, d, e, k)
  {
    hide Accepts;
    match i
    case Exact(cs, next) => k :| Accepts(code, s, next, d + |cs|, e, k);
    case Any(next) => k :| Accepts(code, s, next, d + 1, e, k);
    case OneOf(_, _, next) => k :| Accepts(code, s, next, d + 1, e, k);
    case Memory(next) => k :| Accepts(code, s, next, d, e, k);
    case PushDummy(next) => k :| Accepts(code, s, next, d, e, k);
    case Jump(_, to, _) => k :| Accepts(code, s, to, d, e, k);
    case DummyJump(to, _) => k :| Accepts(code, s, to, d, e, k);
    case OnFailure(to, next) => k :| Accepts(code, s, next, d, e, k) || Accepts(code, s, to, d, e, k);
  }

  /** What the first command does to the positions that can be reached. */
  lemma CanEndStep(code: Bytes, s: Bytes, pc: nat, d: nat, e: nat)
    requires pc < |code|
    ensures CanEnd(code, s, pc, d, e) <==> Leads(Decode(code, pc), code, s, d, e)
  {
    hide Accepts, Decode, Executes, Leads;
    var i := Decode(code, pc);
    if CanEnd(code, s, pc, d, e) {
      var k: nat :| Accepts(code, s, pc, d, e, k);
      Execute(code, s, pc, d, e, k);
      ExecutesLeads(i, code, s, d, e, k - 1);
    }
    if Leads(i, code, s, d, e) {
      var k := LeadsExecutes(i, code, s, d, e);
      Executed(code, s, pc, d, e, k);
    }
  }

  /** The code of a pattern takes a subject from d to e exactly when the pattern
      matches what lies between. */
  lemma CodeMeansPattern(alt: Alt, s: Bytes, d: nat, e: nat)
    requires Fits(AltCode(alt, 0)) && d <= |s|
    ensures CanEnd(AltCode(alt, 0), s, 0, d, e) <==> d <= e <= |s| && AltMatches(alt, s[d..e])
  {
    var code := AltCode(alt, 0);
    hide AltCode, AltMatches;
    assert At(code, 0, code);
    if CanEnd(code, s, 0, d, e) {
      var k: nat :| Accepts(code, s, 0, d, e, k);
      var m, k1 := AltRuns(alt, 0, code, s, 0, d, e, k);
    }
    if d <= e <= |s| && AltMatches(alt, s[d..e]) {
      assert Accepts(code, s, |code|, e, e, 0);
      var k := AltRunsBack(alt, 0, code, s, 0, d, e, e, 0);
    }
  }
}
