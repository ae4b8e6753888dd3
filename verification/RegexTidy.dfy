/** The commands of compiled code one after the other, and what the rewriting of
    loop ends leaves alone. */
module RegexTidy {
  import opened Octets
  import opened RegexSyntax
  import opened RegexEmit
  import opened RegexRun
  import opened RegexMachine

  /** What every command of compiled code satisfies. */
  predicate CommandOk(code: Bytes, x: nat)
    requires x < |code|
  {
    var i := Decode(code, x);
    && i != Bad && x < i.next <= |code|
    && (i.Jump? ==> i.op == MAYBE_POP_JUMP || i.op == JUMP_PAST_ALT)
    && (i.DummyJump? ==> i.to == x + 6 && x + 3 < |code| && Decode(code, x + 3).OnFailure?)
  }

  /** From o to e there are whole commands. */
  predicate Tidy(code: Bytes, o: nat, e: nat)
    decreases |code| - o
  {
    o == e || (o < |code| && CommandOk(code, o) && Decode(code, o).next <= e && Tidy(code, Decode(code, o).next, e))
  }

  /** Is this where a command starts, or the end of the code? */
  predicate Start(code: Bytes, x: nat) {
    x <= |code| && Tidy(code, 0, x)
  }

  lemma {:induction false} TidyTwice(code: Bytes, o: nat, m: nat, e: nat)
    requires Tidy(code, o, m) && Tidy(code, m, e)
    ensures Tidy(code, o, e)
    decreases |code| - o
  {
    hide Decode;
    TidyUpward(code, m, e);
    if o != m {
      TidyTwice(code, Decode(code, o).next, m, e);
    }
  }

  lemma {:induction false} TidyUpward(code: Bytes, o: nat, e: nat)
    requires Tidy(code, o, e)
    ensures o <= e
    decreases |code| - o
  {
  }

  /** Commands do not overlap. */
  lemma {:induction false} TidyApart(code: Bytes, o: nat, x: nat, y: nat)
    requires Tidy(code, o, x) && Tidy(code, o, y) && x < y
    ensures x < |code| && CommandOk(code, x) && Decode(code, x).next <= y && Tidy(code, x, y)
    decreases |code| - o
  {
    hide Decode;
    if o != x {
      TidyApart(code, Decode(code, o).next, x, y);
    }
  }

  lemma TidyOne(code: Bytes, o: nat)
    requires o < |code| && CommandOk(code, o)
    ensures Tidy(code, o, Decode(code, o).next)
  {
  }

  lemma StartNext(code: Bytes, x: nat)
    requires Start(code, x) && Start(code, |code|) && x < |code|
    ensures CommandOk(code, x) && Start(code, Decode(code, x).next)
  {
    hide Decode, Tidy;
    TidyApart(code, 0, x, |code|);
    TidyOne(code, x);
    TidyTwice(code, 0, x, Decode(code, x).next);
    assert Decode(code, x).next <= |code|;
  }

  // ---- Compiled code is tidy ----

  lemma {:induction false} AtomTidy(a: Atom, n: nat, code: Bytes, o: nat)
    requires Fits(code) && At(code, o, AtomCode(a, n))
    ensures Tidy(code, o, o + |AtomCode(a, n)|)
    decreases a, 0
  {
    hide At, AtomCode, AltCode, Decode, Tidy;
    if a.Group? {
      var alt, inner := a.alt, AltGroups(a.alt);
      var (head, body, tail, stop) := (StartGroup(n + 1, inner), AltCode(alt, n + 1), EndAlt(alt),
          StopGroup(n + 1, inner));
      GroupParts(alt, n, code, o);
      FixedTidy(head, code, o);
      AltTidy(alt, n + 1, code, o + |head|);
      TidyTwice(code, o, o + |head|, o + |head| + |body|);
      FixedTidy(tail, code, o + |head| + |body|);
      TidyTwice(code, o, o + |head| + |body|, o + |head| + |body| + |tail|);
      FixedTidy(stop, code, o + |head| + |body| + |tail|);
      TidyTwice(code, o, o + |head| + |body| + |tail|, o + |AtomCode(a, n)|);
    } else {
      CharDecode(a, n, code, o);
      AtInside(code, o, AtomCode(a, n));
      DecodeNext(code, o);
      TidyOne(code, o);
    }
  }

  lemma DecodeNext(code: Bytes, x: nat)
    requires x < |code| && Decode(code, x) != Bad
    ensures x < Decode(code, x).next <= |code|
  {
  }

  lemma FixedTidy(part: Bytes, code: Bytes, o: nat)
    requires At(code, o, part)
    requires part == [] || part == [PUSH_DUMMY_FAILURE] ||
      (|part| == 3 && (part[0] == START_MEMORY || part[0] == STOP_MEMORY))
    ensures Tidy(code, o, o + |part|)
  {
    hide Decode;
    if part != [] {
      DecodeFixed(code, o, part);
      TidyOne(code, o);
    }
  }

  lemma {:induction false} PieceTidy(p: Piece, n: nat, code: Bytes, o: nat)
    requires Fits(code) && At(code, o, PieceCode(p, n))
    ensures Tidy(code, o, o + |PieceCode(p, n)|)
    decreases p, 2
  {
    hide At, AtomCode, Decode, Tidy, Base, ZeroTimesOk, ManyTimesOk;
    BaseIsInside(p);
    var a, zero, many := Base(p), ZeroTimesOk(p), ManyTimesOk(p);
    var body := AtomCode(a, n);
    if many && zero {
      LoopTidy(a, n, code, o);
    } else if many {
      PlusParts(body, code, o);
      LoopTidy(a, n, code, o + 3);
      LoopParts(body, code, o + 3);
      TidyOne(code, o);
      TidyTwice(code, o, o + 3, o + 3 + |body| + 6);
    } else if zero {
      OptParts(body, code, o);
      DecodeNext(code, o);
      TidyOne(code, o);
      AtomTidy(a, n, code, o + 3);
      TidyTwice(code, o, o + 3, o + 3 + |body|);
    } else {
      AtomTidy(a, n, code, o);
    }
  }

  lemma {:induction false} LoopTidy(a: Atom, n: nat, code: Bytes, o: nat)
    requires Fits(code) && At(code, o, RepCode(AtomCode(a, n), true, true))
    ensures Tidy(code, o, o + |AtomCode(a, n)| + 6)
    decreases a, 1
  {
    hide At, AtomCode, Decode, Tidy, RepCode;
    var body := AtomCode(a, n);
    LoopParts(body, code, o);
    TidyOne(code, o);
    AtomTidy(a, n, code, o + 3);
    TidyTwice(code, o, o + 3, o + 3 + |body|);
    TidyOne(code, o + 3 + |body|);
    TidyTwice(code, o, o + 3 + |body|, o + |body| + 6);
  }

  lemma {:induction false} BranchTidy(b: Branch, n: nat, code: Bytes, o: nat)
    requires Fits(code) && At(code, o, BranchCode(b, n))
    ensures Tidy(code, o, o + |BranchCode(b, n)|)
    decreases b, 0
  {
    hide At, PieceCode, Decode, Tidy;
    match b
    case End =>
      assert Tidy(code, o, o) by { TidyNone(code, o); }
    case Then(p, rest) =>
      if p.Once? && p.atom.Lit? {
        var (cs, after) := LitRun(b, 255);
        LitRunParts(b, n, code, o);
        DecodeNext(code, o);
        TidyOne(code, o);
        BranchTidy(after, n, code, o + 2 + |cs|);
        TidyTwice(code, o, o + 2 + |cs|, o + |BranchCode(b, n)|);
      } else {
        AtParts(code, o, PieceCode(p, n), BranchCode(rest, n + PieceGroups(p)));
        PieceTidy(p, n, code, o);
        BranchTidy(rest, n + PieceGroups(p), code, o + |PieceCode(p, n)|);
        TidyTwice(code, o, o + |PieceCode(p, n)|, o + |BranchCode(b, n)|);
      }
  }

  lemma TidyNone(code: Bytes, o: nat)
    ensures Tidy(code, o, o)
  {
  }

  lemma {:induction false} AltTidy(alt: Alt, n: nat, code: Bytes, o: nat)
    requires Fits(code) && At(code, o, AltCode(alt, n))
    ensures Tidy(code, o, o + |AltCode(alt, n)|)
    decreases alt, 1
  {
    hide At, BranchCode, Decode, Tidy;
    match alt
    case Only(b) => BranchTidy(b, n, code, o);
    case Or(b, others) =>
      var body, n1 := BranchCode(b, n), n + BranchGroups(b);
      OrParts(b, others, n, code, o);
      TidyOne(code, o);
      BranchTidy(b, n, code, o + 3);
      TidyTwice(code, o, o + 3, o + 3 + |body|);
      TidyOne(code, o + 3 + |body|);
      TidyTwice(code, o, o + 3 + |body|, o + |body| + 6);
      AltTidy(others, n1, code, o + |body| + 6);
      TidyTwice(code, o, o + |body| + 6, o + |AltCode(alt, n)|);
  }

  // ---- Rewriting the ends of loops ----

  /** What a maybe_pop_jump at x becomes when it is executed. */
  function Settled(pops: bool, code: Bytes, x: nat): Byte
    requires x < |code|
  {
    var i := Decode(code, x);
    if i.Jump? && Pops(pops, code, i.to, i.next) then POP_FAILURE_JUMP else JUMP
  }

  /** now is code0 with some of its maybe_pop_jumps settled. */
  ghost predicate Rewritten(pops: bool, code0: Bytes, now: Bytes) {
    && |now| == |code0|
    && forall x {:trigger now[x]} | 0 <= x < |now| && now[x] != code0[x] ::
         code0[x] == MAYBE_POP_JUMP && Start(code0, x) && now[x] == Settled(pops, code0, x)
  }

  /** Inside a command nothing has changed. */
  lemma OperandsStay(pops: bool, code0: Bytes, now: Bytes, x: nat, y: nat)
    requires Rewritten(pops, code0, now) && Start(code0, |code0|) && Start(code0, x) && x < y < |code0|
    requires Decode(code0, x) != Bad && y < Decode(code0, x).next
    ensures now[y] == code0[y]
  {
    hide Decode, Tidy, Settled;
    if Start(code0, y) {
      TidyApart(code0, 0, x, y);
    }
  }

  /** A rewritten command is still the same command, but for the kind of jump. */
  lemma RewrittenDecode(pops: bool, code0: Bytes, now: Bytes, x: nat)
    requires Rewritten(pops, code0, now) && Start(code0, |code0|) && Start(code0, x) && x < |code0|
    ensures
      var i := Decode(code0, x);
      Decode(now, x) == if i.Jump? then Jump(now[x], i.to, i.next) else i
  {
    StartNext(code0, x);
    var i := Decode(code0, x);
    forall y | x < y < i.next
      ensures now[y] == code0[y]
    {
      OperandsStay(pops, code0, now, x, y);
    }
    hide Start, Tidy, PopAllowed, Pops;
    if now[x] == code0[x] {
      assert now[x..i.next] == code0[x..i.next];
      SameDecode(code0, now, x);
    } else {
      assert code0[x] == MAYBE_POP_JUMP && IsJump(now[x]);
    }
  }

  lemma SameDecode(code0: Bytes, now: Bytes, x: nat)
    requires |now| == |code0| && x < |code0| && Decode(code0, x) != Bad
    requires x < Decode(code0, x).next <= |code0| && now[x..Decode(code0, x).next] == code0[x..Decode(code0, x).next]
    ensures Decode(now, x) == Decode(code0, x)
  {
    var e := Decode(code0, x).next;
    forall y | x <= y < e
      ensures now[y] == code0[y]
    {
      assert now[y] == now[x..e][y - x] && code0[y] == code0[x..e][y - x];
    }
    assert forall y, z | x <= y <= z <= e :: now[y..z] == code0[y..z];
  }

  /** Looking ahead is not disturbed by rewriting, and finds what a run finds. */
  lemma {:induction false} RewrittenAhead(pops: bool, code0: Bytes, now: Bytes, p: nat)
    requires Rewritten(pops, code0, now) && Start(code0, |code0|) && Start(code0, p)
    ensures Ahead(now, p) == Ahead(code0, p) && Start(code0, Ahead(code0, p))
    decreases |code0| - p
  {
    hide Tidy, PopAllowed, Pops, Decode;
    if p + 2 < |code0| && (code0[p] == STOP_MEMORY || code0[p] == START_MEMORY) {
      SkipMemory(code0, p);
      RewrittenAhead(pops, code0, now, p + 3);
    } else if p + 6 < |code0| && code0[p] == DUMMY_FAILURE_JUMP {
      SkipPlus(code0, p);
      RewrittenAhead(pops, code0, now, p + 6);
    }
  }

  lemma SkipMemory(code: Bytes, p: nat)
    requires Start(code, |code|) && Start(code, p) && p + 2 < |code|
    requires code[p] == STOP_MEMORY || code[p] == START_MEMORY
    ensures Decode(code, p) == Memory(p + 3) && Start(code, p + 3)
  {
    hide Tidy;
    StartNext(code, p);
  }

  lemma SkipPlus(code: Bytes, p: nat)
    requires Start(code, |code|) && Start(code, p) && p + 6 < |code| && code[p] == DUMMY_FAILURE_JUMP
    ensures Decode(code, p) == DummyJump(p + 6, p + 3) && Start(code, p + 6)
  {
    StartNext(code, p);
    assert Decode(code, p).DummyJump?;
    assert Decode(code, p + 3).next == p + 6;
    hide Decode, Tidy;
    StartNext(code, p + 3);
  }

  lemma {:induction false} AheadEnds(code: Bytes, s: Bytes, p: nat, d: nat, e: nat)
    requires Start(code, |code|) && Start(code, p)
    ensures CanEnd(code, s, p, d, e) <==> CanEnd(code, s, Ahead(code, p), d, e)
    decreases |code| - p
  {
    hide Tidy, Decode;
    if p + 2 < |code| && (code[p] == STOP_MEMORY || code[p] == START_MEMORY) {
      SkipMemory(code, p);
      CanEndStep(code, s, p, d, e);
      AheadEnds(code, s, p + 3, d, e);
    } else if p + 6 < |code| && code[p] == DUMMY_FAILURE_JUMP {
      SkipPlus(code, p);
      CanEndStep(code, s, p, d, e);
      AheadEnds(code, s, p + 6, d, e);
    }
  }

  /** The set command or literal at q reads the same after rewriting. */
  lemma SameOperands(pops: bool, code0: Bytes, now: Bytes, q: nat)
    requires Rewritten(pops, code0, now) && Start(code0, |code0|) && Start(code0, q) && q < |code0|
    requires code0[q] == EXACTN || code0[q] == CHARSET || code0[q] == CHARSET_NOT
    ensures now[q] == code0[q] && Peek(now, q + 1) == Peek(code0, q + 1)
    ensures code0[q] == EXACTN ==> Peek(now, q + 1) > 0
    ensures forall i | 0 <= i < Peek(now, q + 1) as nat :: MapByte(now, q, i) == MapByte(code0, q, i)
  {
    hide Tidy, Settled;
    StartNext(code0, q);
    OperandsStay(pops, code0, now, q, q + 1);
    forall i | 0 <= i < code0[q + 1] as nat
      ensures MapByte(now, q, i) == MapByte(code0, q, i)
    {
      OperandsStay(pops, code0, now, q, q + 2 + i);
    }
  }

  lemma RewrittenAllows(pops: bool, code0: Bytes, now: Bytes, body: nat, p2: nat)
    requires Rewritten(pops, code0, now) && Start(code0, |code0|) && Start(code0, body) && Start(code0, p2) &&
      p2 < |code0|
    ensures code0[p2] == EXACTN ==> LiteralAllows(now, body, p2) == LiteralAllows(code0, body, p2)
    ensures code0[p2] == CHARSET ==> SetAllows(now, body, p2) == SetAllows(code0, body, p2)
  {
    hide Tidy, PopAllowed, Pops, Decode, BitOf, Overlap, Covers;
    var op := Peek(code0, body);
    if op == EXACTN || op == CHARSET || op == CHARSET_NOT {
      SameOperands(pops, code0, now, body);
    }
    if code0[p2] == EXACTN {
      SameOperands(pops, code0, now, p2);
      assert MapByte(now, p2, 0) == MapByte(code0, p2, 0);
      if op == EXACTN {
        assert MapByte(now, body, 0) == MapByte(code0, body, 0);
      }
    } else if code0[p2] == CHARSET {
      SameOperands(pops, code0, now, p2);
    }
  }

  lemma RewrittenPop(pops: bool, code0: Bytes, now: Bytes, start: nat, exit: nat)
    requires Rewritten(pops, code0, now) && Start(code0, |code0|)
    requires Start(code0, exit) && Start(code0, start) && start < |code0| && Decode(code0, start).OnFailure?
    ensures PopAllowed(now, start, exit) == PopAllowed(code0, start, exit)
  {
    assert Decode(code0, start).next == start + 3;
    StartNext(code0, start);
    hide Tidy, Settled, Decode, LiteralAllows, SetAllows, Ahead;
    RewrittenAhead(pops, code0, now, exit);
    var p2 := Ahead(code0, exit);
    if p2 < |code0| {
      RewrittenAllows(pops, code0, now, start + 3, p2);
    }
  }
}
