/** re_compile_fastmap: which characters can begin a match, found by walking the
    bytecode without a subject. */
module RegexFastmap {
  import opened Octets
  import opened Options
  import opened RegexSyntax
  import opened RegexEmit
  import opened RegexRun
  import opened RegexMachine
  import opened RegexTidy
  import opened RegexHalts
  import opened RegexMatch

  // ---- Paths that consume nothing ----

  /** Along every path from pc that consumes nothing: jumps go forward, but for a
      maybe_pop_jump, and that one ends a loop whose body has been entered. */
  predicate Nulls(code: Bytes, pc: nat, seen: set<nat>)
    decreases |code| - pc
  {
    pc == |code|
    || (pc < |code| && Start(code, pc) &&
        match Decode(code, pc)
        case Exact(_, _) => true
        case Any(_) => true
        case OneOf(_, bitmap, _) => |bitmap| <= 32
        case Memory(next) => pc < next && Nulls(code, next, seen + {pc})
        case PushDummy(next) => pc < next && Nulls(code, next, seen + {pc})
        case DummyJump(to, next) => pc < next < to && Nulls(code, to, seen + {pc})
        case OnFailure(to, next) =>
          pc < next <= to && Nulls(code, next, seen + {pc}) && Nulls(code, to, seen + {pc})
        case Jump(op, to, next) =>
          pc < next
          && (if op == MAYBE_POP_JUMP then
                to <= pc && Start(code, to) && Decode(code, to) == OnFailure(next, to + 3) && to + 3 in seen + {pc} &&
                    Nulls(code, next, seen + {pc})
              else
                && op == JUMP_PAST_ALT && next <= to && (to == next ==> Peek(code, to) != ON_FAILURE_JUMP)
                && Nulls(code, to, seen + {pc}))
        case Bad => false)
  }

  lemma {:induction false} NullsMore(code: Bytes, pc: nat, seen: set<nat>, more: set<nat>)
    requires Nulls(code, pc, seen) && seen <= more
    ensures Nulls(code, pc, more)
    decreases |code| - pc
  {
    hide Decode, Start;
    if pc < |code| {
      match Decode(code, pc)
      case Memory(next) => NullsMore(code, next, seen + {pc}, more + {pc});
      case PushDummy(next) => NullsMore(code, next, seen + {pc}, more + {pc});
      case DummyJump(to, next) => NullsMore(code, to, seen + {pc}, more + {pc});
      case OnFailure(to, next) =>
        NullsMore(code, next, seen + {pc}, more + {pc});
        NullsMore(code, to, seen + {pc}, more + {pc});
      case Jump(op, to, next) =>
        NullsMore(code, if op == MAYBE_POP_JUMP then next else to, seen + {pc}, more + {pc});
      case _ =>
    }
  }

  /** A path has seen its own start. */
  lemma NullsSelf(code: Bytes, pc: nat, seen: set<nat>)
    requires Nulls(code, pc, seen + {pc})
    ensures Nulls(code, pc, seen)
  {
    hide Decode, Start;
    assert seen + {pc} + {pc} == seen + {pc};
  }

  lemma FailureNulls(code: Bytes, pc: nat, seen: set<nat>)
    requires pc < |code| && Start(code, pc) && Decode(code, pc).OnFailure? &&
      pc < Decode(code, pc).next <= Decode(code, pc).to
    requires Nulls(code, Decode(code, pc).next, seen) && Nulls(code, Decode(code, pc).to, seen)
    ensures Nulls(code, pc, seen)
  {
    hide Decode, Start;
    NullsMore(code, Decode(code, pc).next, seen, seen + {pc});
    NullsMore(code, Decode(code, pc).to, seen, seen + {pc});
  }

  lemma PastNulls(code: Bytes, pc: nat, seen: set<nat>)
    requires pc < |code| && Start(code, pc) && Decode(code, pc).Jump? && Decode(code, pc).op == JUMP_PAST_ALT
    requires var i := Decode(code, pc); pc < i.next <= i.to && (i.to == i.next ==> Peek(code, i.to) != ON_FAILURE_JUMP)
    requires Nulls(code, Decode(code, pc).to, seen)
    ensures Nulls(code, pc, seen)
  {
    hide Decode, Start;
    NullsMore(code, Decode(code, pc).to, seen, seen + {pc});
  }

  // ---- Compiled code has such paths only ----

  lemma {:induction false} AtomNulls(a: Atom, n: nat, code: Bytes, o: nat, seen: set<nat>)
    requires Place(code, [], o, 0) && At(code, o, AtomCode(a, n)) && Nulls(code, o + |AtomCode(a, n)|, seen)
    ensures Nulls(code, o, seen)
    decreases a, 0
  {
    hide Decode, At, AtomCode, AltCode, Nulls, Tidy;
    if a.Group? {
      var alt, inner := a.alt, AltGroups(a.alt);
      var (head, body, tail, stop) := (StartGroup(n + 1, inner), AltCode(alt, n + 1), EndAlt(alt),
          StopGroup(n + 1, inner));
      GroupParts(alt, n, code, o);
      var o2 := o + |head| + |body|;
      GroupStarts(alt, n, code, o);
      FixedNulls(stop, code, o2 + |tail|, seen);
      FixedNulls(tail, code, o2, seen);
      if alt.Or? {
        NoFailureJump(code, o2, tail);
      }
      AltNulls(alt, n + 1, code, o + |head|, seen);
      FixedNulls(head, code, o, seen);
    } else {
      CharDecode(a, n, code, o);
      CharNulls(code, o, seen);
    }
  }

  lemma GroupStarts(alt: Alt, n: nat, code: Bytes, o: nat)
    requires Place(code, [], o, 0) && At(code, o, AtomCode(Group(alt), n))
    ensures
      var (head, body, tail) := (StartGroup(n + 1, AltGroups(alt)), AltCode(alt, n + 1), EndAlt(alt));
      && Start(code, o + |head|) && Start(code, o + |head| + |body|) && Start(code, o + |head| + |body| + |tail|)
  {
    hide Decode, At, AtomCode, AltCode, Tidy;
    GroupParts(alt, n, code, o);
    var (head, body, tail) := (StartGroup(n + 1, AltGroups(alt)), AltCode(alt, n + 1), EndAlt(alt));
    AtInside(code, o + |head| + |body|, tail);
    FixedTidy(head, code, o);
    StartAfter(code, o, o + |head|);
    AltTidy(alt, n + 1, code, o + |head|);
    StartAfter(code, o + |head|, o + |head| + |body|);
    FixedTidy(tail, code, o + |head| + |body|);
    StartAfter(code, o + |head| + |body|, o + |head| + |body| + |tail|);
  }

  lemma CharNulls(code: Bytes, o: nat, seen: set<nat>)
    requires o < |code| && Start(code, o) && IsChar(Decode(code, o))
    requires Decode(code, o).OneOf? ==> |Decode(code, o).bitmap| <= 32
    ensures Nulls(code, o, seen)
  {
    hide Decode, Start;
  }

  lemma FixedNulls(part: Bytes, code: Bytes, o: nat, seen: set<nat>)
    requires Start(code, o) && At(code, o, part) && Nulls(code, o + |part|, seen)
    requires part == [] || part == [PUSH_DUMMY_FAILURE] ||
      (|part| == 3 && (part[0] == START_MEMORY || part[0] == STOP_MEMORY))
    ensures Nulls(code, o, seen)
  {
    hide Decode, Start;
    if part != [] {
      DecodeFixed(code, o, part);
      NullsMore(code, o + |part|, seen, seen + {o});
    }
  }

  lemma NoFailureJump(code: Bytes, o: nat, part: Bytes)
    requires At(code, o, part) && part == [PUSH_DUMMY_FAILURE]
    ensures Peek(code, o) != ON_FAILURE_JUMP
  {
    assert code[o] == code[o..o + 1][0];
  }

  lemma {:induction false} LoopNulls(a: Atom, n: nat, code: Bytes, o: nat, seen: set<nat>)
    requires Place(code, [], o, 0) && At(code, o, RepCode(AtomCode(a, n), true, true)) &&
      Nulls(code, o + |AtomCode(a, n)| + 6, seen)
    ensures Nulls(code, o, seen) && Nulls(code, o + 3, seen)
    decreases a, 1
  {
    hide Decode, At, AtomCode, RepCode, Tidy;
    var body, exit := AtomCode(a, n), o + |AtomCode(a, n)| + 6;
    var back := o + 3 + |body|;
    LoopParts(body, code, o);
    StartNext(code, o);
    AtomTidy(a, n, code, o + 3);
    StartAfter(code, o + 3, back);
    NullsMore(code, exit, seen, seen + {o + 3} + {back});
    assert Nulls(code, back, seen + {o + 3});
    AtomNulls(a, n, code, o + 3, seen + {o + 3});
    NullsSelf(code, o + 3, seen);
    FailureNulls(code, o, seen);
  }

  lemma {:induction false} PieceNulls(p: Piece, n: nat, code: Bytes, o: nat, seen: set<nat>)
    requires Place(code, [], o, 0) && At(code, o, PieceCode(p, n)) && Nulls(code, o + |PieceCode(p, n)|, seen)
    ensures Nulls(code, o, seen)
    decreases p, 2
  {
    hide Decode, At, AtomCode, Base, ZeroTimesOk, ManyTimesOk, Tidy;
    BaseIsInside(p);
    var a, zero, many := Base(p), ZeroTimesOk(p), ManyTimesOk(p);
    var body := AtomCode(a, n);
    if many && zero {
      LoopNulls(a, n, code, o, seen);
    } else if many {
      PlusParts(body, code, o);
      StartNext(code, o);
      LoopNulls(a, n, code, o + 3, seen);
      NullsMore(code, o + 6, seen, seen + {o});
    } else if zero {
      OptParts(body, code, o);
      StartNext(code, o);
      AtomNulls(a, n, code, o + 3, seen);
      FailureNulls(code, o, seen);
    } else {
      AtomNulls(a, n, code, o, seen);
    }
  }

  lemma {:induction false} BranchNulls(b: Branch, n: nat, code: Bytes, o: nat, seen: set<nat>)
    requires Place(code, [], o, 0) && At(code, o, BranchCode(b, n)) && Nulls(code, o + |BranchCode(b, n)|, seen)
    ensures Nulls(code, o, seen)
    decreases b, 0
  {
    hide Decode, At, PieceCode, Nulls, Tidy;
    match b
    case End =>
    case Then(p, rest) =>
      if p.Once? && p.atom.Lit? {
        LitRunParts(b, n, code, o);
        ExactNulls(code, o, seen);
      } else {
        AtParts(code, o, PieceCode(p, n), BranchCode(rest, n + PieceGroups(p)));
        PieceTidy(p, n, code, o);
        AtInside(code, o + |PieceCode(p, n)|, BranchCode(rest, n + PieceGroups(p)));
        StartAfter(code, o, o + |PieceCode(p, n)|);
        BranchNulls(rest, n + PieceGroups(p), code, o + |PieceCode(p, n)|, seen);
        PieceNulls(p, n, code, o, seen);
      }
  }

  lemma ExactNulls(code: Bytes, o: nat, seen: set<nat>)
    requires o < |code| && Start(code, o) && Decode(code, o).Exact?
    ensures Nulls(code, o, seen)
  {
    hide Decode, Start;
  }

  lemma {:induction false} AltNulls(alt: Alt, n: nat, code: Bytes, o: nat, seen: set<nat>)
    requires Place(code, [], o, 0) && At(code, o, AltCode(alt, n)) && Nulls(code, o + |AltCode(alt, n)|, seen)
    requires alt.Or? ==> Peek(code, o + |AltCode(alt, n)|) != ON_FAILURE_JUMP
    ensures Nulls(code, o, seen)
    decreases alt, 1
  {
    hide Decode, At, BranchCode, Peek, Nulls, Tidy;
    match alt
    case Only(b) => BranchNulls(b, n, code, o, seen);
    case Or(b, others) =>
      var n1, o1 := n + BranchGroups(b), o + |BranchCode(b, n)| + 6;
      OrParts(b, others, n, code, o);
      OrStarts(b, others, n, code, o);
      AltNulls(others, n1, code, o1, seen);
      ChainNulls(others, n1, code, o1, seen);
      PastNulls(code, o + 3 + |BranchCode(b, n)|, seen);
      BranchNulls(b, n, code, o + 3, seen);
      FailureNulls(code, o, seen);
  }

  lemma {:induction false} ChainNulls(others: Alt, n: nat, code: Bytes, o: nat, seen: set<nat>)
    requires Place(code, [], o, 0) && At(code, o, AltCode(others, n)) && Nulls(code, o + |AltCode(others, n)|, seen)
    requires Peek(code, o + |AltCode(others, n)|) != ON_FAILURE_JUMP
    ensures Nulls(code, o + PastAlt(others, n), seen)
    ensures PastAlt(others, n) == 0 ==> Peek(code, o) != ON_FAILURE_JUMP
    decreases others, 0
  {
    hide Decode, At, BranchCode, Peek, Nulls, Tidy;
    match others
    case Only(b) =>
    case Or(b, more) =>
      var n1, o1 := n + BranchGroups(b), o + |BranchCode(b, n)| + 6;
      OrParts(b, more, n, code, o);
      OrStarts(b, more, n, code, o);
      ChainNulls(more, n1, code, o1, seen);
      PastNulls(code, o + 3 + |BranchCode(b, n)|, seen);
  }

  lemma PatternNulls(alt: Alt)
    requires Fits(AltCode(alt, 0))
    ensures Nulls(AltCode(alt, 0), 0, {})
  {
    hide AltCode, Tidy;
    var code := AltCode(alt, 0);
    assert At(code, 0, code);
    CodeIsTidy(alt);
    AltNulls(alt, 0, code, 0, {});
  }
}
