/** The machine finishes on the code of every pattern without nullable loops. */
module RegexHalts {
  import opened Octets
  import opened Options
  import opened RegexSyntax
  import opened RegexEmit
  import opened RegexRun
  import opened RegexMachine
  import opened RegexTidy
  import opened RegexEnds

  // ---- The loops of a pattern ----

  /** A repeated atom with n groups before it: where its on_failure_jump is, and
      what follows its maybe_pop_jump. */
  datatype Loop = Loop(atom: Atom, n: nat, start: nat, exit: nat)

  function LoopAt(a: Atom, n: nat, start: nat): Loop {
    Loop(a, n, start, start + |AtomCode(a, n)| + 6)
  }

  function AtomLoops(a: Atom, n: nat, o: nat): seq<Loop>
    decreases a, 0
  {
    match a
    case Group(alt) => AltLoops(alt, n + 1, o + |StartGroup(n + 1, AltGroups(alt))|)
    case _ => []
  }

  function PieceLoops(p: Piece, n: nat, o: nat): seq<Loop>
    decreases p, 1
  {
    BaseIsInside(p);
    var a := Base(p);
    if ManyTimesOk(p) then
      var start := if ZeroTimesOk(p) then o else o + 3;
      [LoopAt(a, n, start)] + AtomLoops(a, n, start + 3)
    else AtomLoops(a, n, if ZeroTimesOk(p) then o + 3 else o)
  }

  function BranchLoops(b: Branch, n: nat, o: nat): seq<Loop>
    decreases b, 0
  {
    match b
    case End => []
    case Then(p, rest) =>
      if p.Once? && p.atom.Lit? then
        var (cs, after) := LitRun(b, 255);
        BranchLoops(after, n, o + 2 + |cs|)
      else PieceLoops(p, n, o) + BranchLoops(rest, n + PieceGroups(p), o + |PieceCode(p, n)|)
  }

  function AltLoops(alt: Alt, n: nat, o: nat): seq<Loop>
    decreases alt, 1
  {
    match alt
    case Only(b) => BranchLoops(b, n, o)
    case Or(b, others) =>
      BranchLoops(b, n, o + 3) + AltLoops(others, n + BranchGroups(b), o + |BranchCode(b, n)| + 6)
  }

  // ---- Sound loops ----

  /** Can the command start with c? */
  predicate StartsWith(i: Instr, c: Byte) {
    match i
    case Exact(cs, _) => cs != [] && cs[0] == c
    case Any(_) => c != 0
    case OneOf(neg, bitmap, _) => InMap(bitmap, c) != neg
    case _ => true
  }

  ghost predicate Disjoint(code: Bytes, a: Atom, p: nat)
    requires p < |code|
  {
    forall c: Byte {:trigger Takes(a, c)} | Takes(a, c) :: !StartsWith(Decode(code, p), c)
  }

  /** If the loop's end becomes a pop_failure_jump, what that drops is not needed:
      at the end of the pattern, what the body leaves leads no further; elsewhere,
      the character just read cannot start what follows. */
  ghost predicate PopIsSound(code: Bytes, l: Loop) {
    && l.exit <= |code|
    && (PopAllowed(code, l.start, l.exit) ==>
          var p := Ahead(code, l.exit);
          if p == |code| then AtomLeft(code, l.atom, l.n, l.start + 3).tame
          else !l.atom.Group? && Disjoint(code, l.atom, p))
  }

  ghost predicate LoopOk(mode: Mode, code: Bytes, l: Loop) {
    !AtomMatches(l.atom, []) && (mode.pops && mode.exact ==> PopIsSound(code, l))
  }

  ghost predicate LoopsOk(mode: Mode, code: Bytes, ls: seq<Loop>) {
    forall l | l in ls :: LoopOk(mode, code, l)
  }

  lemma LoopsOkParts(mode: Mode, code: Bytes, x: seq<Loop>, y: seq<Loop>)
    requires LoopsOk(mode, code, x + y)
    ensures LoopsOk(mode, code, x) && LoopsOk(mode, code, y)
  {
    assert forall l | l in x :: l in x + y;
    assert forall l | l in y :: l in x + y;
  }

  /** At the end of the pattern the point that is dropped stands for a shorter
      match. */
  lemma ShorterIsHarmless(code: Bytes, s: Bytes, start: nat, exit: nat, d: nat, j: nat)
    requires Start(code, |code|) && Start(code, exit) && Ahead(code, exit) == |code|
    requires start < |code| && Decode(code, start).OnFailure? && Decode(code, start).to == exit && d <= j <= |s|
    ensures Harmless(code, s, Resume(exit, d), start, j)
  {
    hide Decode, Tidy, Ahead;
    AheadEnds(code, s, exit, j, j);
    assert Accepts(code, s, |code|, j, j, 0);
    CanEndStep(code, s, start, j, j);
    forall e: nat | CanEnd(code, s, exit, d, e)
      ensures e <= j
    {
      AheadEnds(code, s, exit, d, e);
    }
  }

  /** If nothing that follows can start with the character just read, the point
      leads nowhere. */
  lemma HopelessIsHarmless(code: Bytes, s: Bytes, exit: nat, d: nat, pc: nat, j: nat)
    requires Start(code, |code|) && Start(code, exit) && Ahead(code, exit) < |code| && d < |s|
    requires var i := Decode(code, Ahead(code, exit)); (i.Exact? || i.OneOf?) && !StartsWith(i, s[d])
    ensures Harmless(code, s, Resume(exit, d), pc, j)
  {
    var p := Ahead(code, exit);
    assert Decode(code, p).Exact? ==> Decode(code, p).cs != [];
    hide Decode, Tidy, Ahead, CanEnd;
    forall e: nat
      ensures !CanEnd(code, s, exit, d, e)
    {
      AheadEnds(code, s, exit, d, e);
      CanEndStep(code, s, p, d, e);
      var i := Decode(code, p);
      if i.Exact? && d + |i.cs| <= |s| {
        assert s[d..d + |i.cs|][0] == s[d];
      }
    }
  }

  lemma TameIsHarmless(code: Bytes, s: Bytes, start: nat, exit: nat, p: Point, j: nat)
    requires Start(code, |code|) && Start(code, exit) && Ahead(code, exit) == |code|
    requires start < |code| && Decode(code, start).OnFailure? && Decode(code, start).to == exit && j <= |s|
    requires IsTame(code, s, p, j)
    ensures Harmless(code, s, p, start, j)
  {
    hide Decode, Tidy, Ahead;
    AheadEnds(code, s, exit, j, j);
    assert Accepts(code, s, |code|, j, j, 0);
    CanEndStep(code, s, start, j, j);
    hide CanEnd;
  }

  /** A sound pop at the end of one pass through a loop. */
  lemma PopAfterBody(code: Bytes, s: Bytes, l: Loop, d: nat, j: nat, stack: seq<Point>, p: Point, extra: seq<Point>)
    requires Start(code, |code|) && Start(code, l.exit) && PopIsSound(code, l) && PopAllowed(code, l.start, l.exit)
    requires l.start < |code| && Decode(code, l.start).OnFailure? && Decode(code, l.start).to == l.exit
    requires d <= j <= |s| && AtomMatches(l.atom, s[d..j])
    requires p == Dummy || p == Resume(l.exit, d)
    requires LeftBy(code, s, AtomLeft(code, l.atom, l.n, l.start + 3), extra, j)
    ensures PopIsSafe(code, s, stack + [p] + extra, l.start, j)
  {
    var q := Ahead(code, l.exit);
    var all := stack + [p] + extra;
    assert all[|all| - 1] == if extra == [] then p else extra[|extra| - 1];
    if q == |code| {
      hide AtomLeft, Decode, Tidy, Ahead, PopAllowed, Harmless, IsTame;
      if extra != [] {
        TameIsHarmless(code, s, l.start, l.exit, extra[|extra| - 1], j);
      } else if p.Resume? {
        ShorterIsHarmless(code, s, l.start, l.exit, d, j);
      } else {
        DummyIsHarmless(code, s, l.start, j);
      }
    } else {
      assert extra == [];
      PopFollower(code, l.start, l.exit);
      CharMatches(l.atom, s[d..j]);
      assert Takes(l.atom, s[d]);
      hide AtomMatches, Takes, Decode, Tidy, PopAllowed;
      if p.Resume? {
        HopelessIsHarmless(code, s, l.exit, d, l.start, j);
      }
    }
  }

  lemma DummyIsHarmless(code: Bytes, s: Bytes, pc: nat, d: nat)
    ensures Harmless(code, s, Dummy, pc, d)
  {
  }

  lemma PopFollower(code: Bytes, start: nat, exit: nat)
    requires Start(code, |code|) && Start(code, exit) && PopAllowed(code, start, exit)
    requires Ahead(code, exit) < |code|
    ensures var i := Decode(code, Ahead(code, exit)); i.Exact? || i.OneOf?
  {
    var p := Ahead(code, exit);
    hide Tidy, LiteralAllows, SetAllows, Settled;
    RewrittenAhead(false, code, code, exit);
    StartNext(code, p);
    assert code[p] == EXACTN || code[p] == CHARSET;
  }

  // ---- Where failure points resume ----

  lemma {:induction false} AtomFirst(a: Atom, n: nat)
    requires n + AtomGroups(a) <= MAX_REGNUM
    ensures AtomCode(a, n) != [] && !IsLoopJump(AtomCode(a, n)[0])
  {
    hide AltCode;
  }

  lemma PieceFirst(p: Piece, n: nat)
    requires n + PieceGroups(p) <= MAX_REGNUM
    ensures PieceCode(p, n) != [] && !IsLoopJump(PieceCode(p, n)[0])
  {
    hide AtomCode;
    BaseIsInside(p);
    AtomFirst(Base(p), n);
  }

  lemma BranchFirst(b: Branch, n: nat)
    requires n + BranchGroups(b) <= MAX_REGNUM
    ensures BranchCode(b, n) != [] ==> !IsLoopJump(BranchCode(b, n)[0])
  {
    hide PieceCode, LitRun;
    match b
    case End =>
    case Then(p, rest) => PieceFirst(p, n);
  }

  lemma AltFirst(alt: Alt, n: nat)
    requires n + AltGroups(alt) <= MAX_REGNUM
    ensures AltCode(alt, n) != [] ==> !IsLoopJump(AltCode(alt, n)[0])
  {
    hide BranchCode;
    match alt
    case Only(b) => BranchFirst(b, n);
    case Or(_, _) =>
  }

  lemma NoJumpAt(code: Bytes, o: nat, part: Bytes)
    requires At(code, o, part) && (part == [] ==> !ResumesAtJump(code, o)) && (part != [] ==> !IsLoopJump(part[0]))
    ensures !ResumesAtJump(code, o)
  {
    if part != [] {
      assert code[o] == code[o..o + |part|][0];
    }
  }

  lemma StartAfter(code: Bytes, o: nat, e: nat)
    requires Start(code, o) && Tidy(code, o, e) && e <= |code|
    ensures Start(code, e)
  {
    hide Tidy;
    TidyTwice(code, 0, o, e);
  }

  // ---- From behind a part of the pattern to its front ----

  /** The machine finishes from x after any word of the atom read from d, with
      whatever failure points that leaves. */
  ghost predicate AfterAtom(mode: Mode, a: Atom, code: Bytes, s: Bytes, x: nat, d: nat, stack: seq<Point>, left: Left) {
    forall m, extra | d <= m <= |s| && AtomMatches(a, s[d..m]) && LeftBy(code, s, left, extra, m) ::
      Finishes(mode, code, s, x, m, stack + extra)
  }

  ghost predicate AfterMany(mode: Mode, a: Atom, code: Bytes, s: Bytes, x: nat, d: nat, stack: seq<Point>, left: Left) {
    forall m, extra | d <= m <= |s| && AtomMany(a, s[d..m]) && LeftBy(code, s, left, extra, m) ::
      Finishes(mode, code, s, x, m, stack + extra)
  }

  ghost predicate AfterPiece(mode: Mode, p: Piece, code: Bytes, s: Bytes, x: nat, d: nat, stack: seq<Point>,
      left: Left) {
    forall m, extra | d <= m <= |s| && PieceMatches(p, s[d..m]) && LeftBy(code, s, left, extra, m) ::
      Finishes(mode, code, s, x, m, stack + extra)
  }

  ghost predicate AfterBranch(mode: Mode, b: Branch, code: Bytes, s: Bytes, x: nat, d: nat, stack: seq<Point>,
      left: Left) {
    forall m, extra | d <= m <= |s| && BranchMatches(b, s[d..m]) && LeftBy(code, s, left, extra, m) ::
      Finishes(mode, code, s, x, m, stack + extra)
  }

  ghost predicate AfterAlt(mode: Mode, alt: Alt, code: Bytes, s: Bytes, x: nat, d: nat, stack: seq<Point>, left: Left) {
    forall m, extra | d <= m <= |s| && AltMatches(alt, s[d..m]) && LeftBy(code, s, left, extra, m) ::
      Finishes(mode, code, s, x, m, stack + extra)
  }

  /** What all the steps below share. */
  predicate Place(code: Bytes, s: Bytes, o: nat, d: nat) {
    Fits(code) && Start(code, |code|) && Start(code, o) && d <= |s|
  }

  lemma NothingLeft(code: Bytes, s: Bytes, left: Left, m: nat, stack: seq<Point>)
    requires !left.hides
    ensures LeftBy(code, s, left, [], m) && stack + [] == stack
  {
  }

  lemma CharFinishes(mode: Mode, a: Atom, n: nat, code: Bytes, s: Bytes, o: nat, d: nat, stack: seq<Point>)
    requires !a.Group? && Place(code, s, o, d) && At(code, o, AtomCode(a, n))
    requires AfterAtom(mode, a, code, s, o + |AtomCode(a, n)|, d, stack, NOTHING)
    ensures Finishes(mode, code, s, o, d, stack)
  {
    hide Decode, Start, At, Finishes, AtomMatches, AtomCode, Takes, LeftBy;
    CharDecode(a, n, code, o);
    if d < |s| && Consumes(Decode(code, o), s[d]) {
      CharMatches(a, s[d..d + 1]);
      NothingLeft(code, s, NOTHING, d + 1, stack);
    }
    if Decode(code, o).Exact? && d < |s| && s[d..d + 1] == Decode(code, o).cs {
      assert s[d..d + 1] == [s[d]];
    }
    FinishStep(mode, code, s, o, d, stack);
  }

  lemma MemoryFinishes(mode: Mode, part: Bytes, code: Bytes, s: Bytes, o: nat, d: nat, stack: seq<Point>)
    requires Place(code, s, o, d) && At(code, o, part)
    requires |part| == 3 && (part[0] == START_MEMORY || part[0] == STOP_MEMORY)
    requires Finishes(mode, code, s, o + 3, d, stack)
    ensures Finishes(mode, code, s, o, d, stack)
  {
    hide Decode, Start, Finishes;
    DecodeFixed(code, o, part);
    FinishStep(mode, code, s, o, d, stack);
  }

  /** The end of a group, with its dummy failure point if it has alternatives. */
  lemma EndFinishes(mode: Mode, alt: Alt, n: nat, code: Bytes, s: Bytes, o: nat, m: nat, stack: seq<Point>)
    requires Place(code, s, o, m) && At(code, o, EndAlt(alt)) && n <= MAX_REGNUM
    requires At(code, o + |EndAlt(alt)|, StopGroup(n, AltGroups(alt)))
    requires Finishes(mode, code, s, o + |EndAlt(alt)| + 3, m, if alt.Or? then stack + [Dummy] else stack)
    ensures Finishes(mode, code, s, o, m, stack)
  {
    hide Decode, Start, Finishes;
    var o1 := o + |EndAlt(alt)|;
    if alt.Or? {
      DecodeFixed(code, o, EndAlt(alt));
      StartNext(code, o);
      MemoryFinishes(mode, StopGroup(n, AltGroups(alt)), code, s, o1, m, stack + [Dummy]);
      FinishStep(mode, code, s, o, m, stack);
    } else {
      MemoryFinishes(mode, StopGroup(n, AltGroups(alt)), code, s, o1, m, stack);
    }
  }

  lemma {:induction false} AtomFinishes(mode: Mode, a: Atom, n: nat, code: Bytes, s: Bytes, o: nat, d: nat,
      stack: seq<Point>)
    requires Place(code, s, o, d) && At(code, o, AtomCode(a, n)) && n + AtomGroups(a) <= MAX_REGNUM
    requires LoopsOk(mode, code, AtomLoops(a, n, o))
    requires AfterAtom(mode, a, code, s, o + |AtomCode(a, n)|, d, stack, AtomLeft(code, a, n, o))
    ensures Finishes(mode, code, s, o, d, stack)
    decreases a, 0, 0
  {
    hide Decode, Tidy, At, Finishes, AtomCode, AltCode, AltMatches, LoopsOk, AltLoops, AltLeft, BranchLeft,
      ResumesAtJump, LeftBy;
    if a.Group? {
      var alt, inner := a.alt, AltGroups(a.alt);
      var (head, body, tail) := (StartGroup(n + 1, inner), AltCode(alt, n + 1), EndAlt(alt));
      GroupParts(alt, n, code, o);
      FixedTidy(head, code, o);
      StartAfter(code, o, o + 3);
      AltTidy(alt, n + 1, code, o + 3);
      var o2 := o + 3 + |body|;
      AtInside(code, o2, tail);
      StartAfter(code, o + 3, o2);
      GroupEndFinishes(mode, alt, n, code, s, o, d, stack);
      AltFinishes(mode, alt, n + 1, code, s, o + 3, d, stack);
      MemoryFinishes(mode, head, code, s, o, d, stack);
    } else {
      assert AtomLeft(code, a, n, o) == NOTHING;
      CharFinishes(mode, a, n, code, s, o, d, stack);
    }
  }

  lemma GroupLeaves(alt: Alt, n: nat, code: Bytes, s: Bytes, o: nat, extra: seq<Point>, m: nat)
    requires n + 1 <= MAX_REGNUM && LeftBy(code, s, AltLeft(code, alt, n + 1, o + 3), extra, m)
    ensures LeftBy(code, s, AtomLeft(code, Group(alt), n, o), if alt.Or? then extra + [Dummy] else extra, m)
  {
    hide BranchLeft, CanEnd;
  }

  lemma GroupEndFinishes(mode: Mode, alt: Alt, n: nat, code: Bytes, s: Bytes, o: nat, d: nat, stack: seq<Point>)
    requires n + 1 <= MAX_REGNUM && d <= |s|
    requires At(code, o, AtomCode(Group(alt), n)) && Place(code, s, o + 3 + |AltCode(alt, n + 1)|, d)
    requires AfterAtom(mode, Group(alt), code, s, o + |AtomCode(Group(alt), n)|, d, stack,
      AtomLeft(code, Group(alt), n, o))
    ensures AfterAlt(mode, alt, code, s, o + 3 + |AltCode(alt, n + 1)|, d, stack, AltLeft(code, alt, n + 1, o + 3))
    ensures !ResumesAtJump(code, o + 3 + |AltCode(alt, n + 1)|)
  {
    hide Decode, Start, At, Finishes, AtomCode, AltCode, AltMatches, AltLeft, AtomLeft, LeftBy;
    GroupParts(alt, n, code, o);
    var o2 := o + 3 + |AltCode(alt, n + 1)|;
    var stop := StopGroup(n + 1, AltGroups(alt));
    NoJumpAt(code, o2 + |EndAlt(alt)|, stop);
    NoJumpAt(code, o2, EndAlt(alt));
    forall m, extra | d <= m <= |s| && AltMatches(alt, s[d..m]) &&
        LeftBy(code, s, AltLeft(code, alt, n + 1, o + 3), extra, m)
      ensures Finishes(mode, code, s, o2, m, stack + extra)
    {
      assert AtomMatches(Group(alt), s[d..m]);
      GroupLeaves(alt, n, code, s, o, extra, m);
      assert stack + extra + [Dummy] == stack + (extra + [Dummy]);
      EndFinishes(mode, alt, n + 1, code, s, o2, m, stack + extra);
    }
  }

  // ---- Loops ----

  /** One pass through the body of a loop, entered with a dummy or the loop's own
      failure point on top. */
  lemma {:induction false} BodyFinishes(mode: Mode, a: Atom, n: nat, code: Bytes, s: Bytes, o: nat, d: nat,
      stack: seq<Point>,
      p: Point)
    requires Place(code, s, o, d) && At(code, o, RepCode(AtomCode(a, n), true, true)) && n + AtomGroups(a) <= MAX_REGNUM
    requires LoopsOk(mode, code, AtomLoops(a, n, o + 3)) && LoopOk(mode, code, LoopAt(a, n, o))
    requires p == Dummy || p == Resume(o + |AtomCode(a, n)| + 6, d)
    requires AfterAtom(mode, a, code, s, o, d, stack, LoopLeft(code, a, n, o))
    ensures Finishes(mode, code, s, o + 3, d, stack + [p])
    decreases a, 0, 1
  {
    hide Decode, Tidy, At, Finishes, AtomCode, AtomMatches, RepCode, LoopOk, LoopsOk, AtomLoops, AtomLeft, LoopLeft,
      LeftBy,
      ResumesAtJump;
    var body := AtomCode(a, n);
    var back := o + 3 + |body|;
    LoopParts(body, code, o);
    StartNext(code, o);
    AtomTidy(a, n, code, o + 3);
    StartAfter(code, o + 3, back);
    StartNext(code, back);
    forall j, extra | d <= j <= |s| && AtomMatches(a, s[d..j]) && LeftBy(code, s, AtomLeft(code, a, n, o + 3), extra, j)
      ensures Finishes(mode, code, s, back, j, stack + [p] + extra)
    {
      LoopEndFinishes(mode, a, n, code, s, o, d, j, stack, p, extra);
    }
    AtomFinishes(mode, a, n, code, s, o + 3, d, stack + [p]);
  }

  lemma LoopEndFinishes(mode: Mode, a: Atom, n: nat, code: Bytes, s: Bytes, o: nat, d: nat, j: nat, stack: seq<Point>,
      p: Point,
      extra: seq<Point>)
    requires Place(code, s, o, d) && At(code, o, RepCode(AtomCode(a, n), true, true))
    requires Start(code, o + 3 + |AtomCode(a, n)|) && LoopOk(mode, code, LoopAt(a, n, o))
    requires p == Dummy || p == Resume(o + |AtomCode(a, n)| + 6, d)
    requires d <= j <= |s| && AtomMatches(a, s[d..j]) && LeftBy(code, s, AtomLeft(code, a, n, o + 3), extra, j)
    requires AfterAtom(mode, a, code, s, o, d, stack, LoopLeft(code, a, n, o))
    ensures Finishes(mode, code, s, o + 3 + |AtomCode(a, n)|, j, stack + [p] + extra)
  {
    hide Decode, Tidy, At, Finishes, AtomCode, AtomMatches, RepCode, PopIsSound, AtomLeft, LoopLeft, LeftBy, PopIsSafe,
      PopAllowed;
    var back := o + 3 + |AtomCode(a, n)|;
    LoopParts(AtomCode(a, n), code, o);
    StartNext(code, back);
    var all := stack + [p] + extra;
    var pops := Pops(mode.pops, code, o, back + 3);
    if pops && mode.exact {
      PopAfterBody(code, s, LoopAt(a, n, o), d, j, stack, p, extra);
    }
    var more := if pops then Drop([p] + extra) else [p] + extra;
    PassLeaves(mode, a, n, code, s, o, d, j, p, extra);
    assert Drop(all) == stack + Drop([p] + extra) && all == stack + ([p] + extra);
    FinishStep(mode, code, s, back, j, all);
  }

  /** What one pass through a loop leaves, when its end has popped or not. */
  lemma PassLeaves(mode: Mode, a: Atom, n: nat, code: Bytes, s: Bytes, o: nat, d: nat, j: nat, p: Point,
      extra: seq<Point>)
    requires p == Dummy || p == Resume(o + |AtomCode(a, n)| + 6, d)
    requires d <= j <= |s| && AtomMatches(a, s[d..j]) && LeftBy(code, s, AtomLeft(code, a, n, o + 3), extra, j)
    ensures
      var more := if Pops(mode.pops, code, o, o + |AtomCode(a, n)| + 6) then Drop([p] + extra) else [p] + extra;
      LeftBy(code, s, LoopLeft(code, a, n, o), more, j)
  {
    hide AtomCode, AtomMatches, AtomLeft, PopAllowed, FirstApart, IsTame;
    if LoopLeft(code, a, n, o).tame {
      assert FirstApart(code, a, o + |AtomCode(a, n)| + 6);
      if p.Resume? {
        SkipIsTame(code, s, a, p.pc, d, j);
      } else {
        DummyIsTame(code, s, j);
      }
    }
  }

  lemma DummyIsTame(code: Bytes, s: Bytes, m: nat)
    ensures IsTame(code, s, Dummy, m)
  {
  }

  lemma {:induction false} LoopFinishes(mode: Mode, a: Atom, n: nat, code: Bytes, s: Bytes, o: nat, d: nat,
      stack: seq<Point>)
    requires Place(code, s, o, d) && At(code, o, RepCode(AtomCode(a, n), true, true)) && n + AtomGroups(a) <= MAX_REGNUM
    requires LoopsOk(mode, code, AtomLoops(a, n, o + 3)) && LoopOk(mode, code, LoopAt(a, n, o))
    requires !ResumesAtJump(code, o + |AtomCode(a, n)| + 6)
    requires AfterMany(mode, a, code, s, o + |AtomCode(a, n)| + 6, d, stack, LoopLeft(code, a, n, o))
    ensures Finishes(mode, code, s, o, d, stack)
    decreases a, 1, |s| - d
  {
    hide Decode, Tidy, At, Finishes, AtomCode, AtomMatches, RepCode, LoopsOk, PopIsSound, AtomLoops, AtomLeft,
      LoopLeft, LeftBy,
      ResumesAtJump;
    var exit := o + |AtomCode(a, n)| + 6;
    LoopParts(AtomCode(a, n), code, o);
    assert s[d..d] == [];
    forall j, extra | d <= j <= |s| && AtomMatches(a, s[d..j]) && LeftBy(code, s, LoopLeft(code, a, n, o), extra, j)
      ensures Finishes(mode, code, s, o, j, stack + extra)
    {
      ManyFrom(mode, a, code, s, exit, d, j, stack, extra, LoopLeft(code, a, n, o));
      LoopFinishes(mode, a, n, code, s, o, j, stack + extra);
    }
    BodyFinishes(mode, a, n, code, s, o, d, stack, Resume(exit, d));
    LoopLeavesMore(code, a, n, o);
    NothingLeft(code, s, LoopLeft(code, a, n, o), d, stack);
    FinishStep(mode, code, s, o, d, stack);
  }

  lemma LoopLeavesMore(code: Bytes, a: Atom, n: nat, o: nat)
    ensures var left := LoopLeft(code, a, n, o); !left.hides && LeftBoth(left, left) == left
  {
    hide AtomLeft, AtomCode, FirstApart;
  }

  lemma ManyFrom(mode: Mode, a: Atom, code: Bytes, s: Bytes, x: nat, d: nat, j: nat, stack: seq<Point>,
      extra: seq<Point>, left: Left)
    requires AfterMany(mode, a, code, s, x, d, stack, left) && d <= j <= |s| && AtomMatches(a, s[d..j])
    requires LeftBy(code, s, left, extra, j) && LeftBoth(left, left) == left
    ensures AfterMany(mode, a, code, s, x, j, stack + extra, left)
  {
    hide Finishes, AtomMatches, LeftBy;
    forall m, more | j <= m <= |s| && AtomMany(a, s[j..m]) && LeftBy(code, s, left, more, m)
      ensures Finishes(mode, code, s, x, m, stack + extra + more)
    {
      assert s[d..m][..j - d] == s[d..j] && s[d..m][j - d..] == s[j..m];
      AtomManyStep(a, s[d..m], j - d);
      LeftTwice(code, s, left, extra, j, left, more, m);
      assert stack + extra + more == stack + (extra + more);
    }
  }

  lemma {:induction false} PlusFinishes(mode: Mode, p: Piece, n: nat, code: Bytes, s: Bytes, o: nat, d: nat,
      stack: seq<Point>)
    requires Place(code, s, o, d) && At(code, o, PieceCode(p, n)) && n + PieceGroups(p) <= MAX_REGNUM
    requires ManyTimesOk(p) && !ZeroTimesOk(p)
    requires LoopsOk(mode, code, AtomLoops(Base(p), n, o + 6)) && LoopOk(mode, code, LoopAt(Base(p), n, o + 3))
    requires !ResumesAtJump(code, o + |AtomCode(Base(p), n)| + 9)
    requires AfterPiece(mode, p, code, s, o + |AtomCode(Base(p), n)| + 9, d, stack, LoopLeft(code, Base(p), n, o + 3))
    ensures Finishes(mode, code, s, o, d, stack)
    decreases p, 1, 0
  {
    hide Decode, Tidy, At, Finishes, AtomCode, AtomMatches, RepCode, LoopsOk, LoopOk, AtomLoops, PieceMatches, Base,
      AtomMany,
      ResumesAtJump, LoopLeft, LeftBy;
    BaseIsInside(p);
    var a := Base(p);
    var exit, left := o + |AtomCode(a, n)| + 9, LoopLeft(code, a, n, o + 3);
    PlusParts(AtomCode(a, n), code, o);
    StartNext(code, o);
    LoopLeavesMore(code, a, n, o + 3);
    forall j, extra | d <= j <= |s| && AtomMatches(a, s[d..j]) && LeftBy(code, s, left, extra, j)
      ensures Finishes(mode, code, s, o + 3, j, stack + extra)
    {
      forall m, more | j <= m <= |s| && AtomMany(a, s[j..m]) && LeftBy(code, s, left, more, m)
        ensures Finishes(mode, code, s, exit, m, stack + extra + more)
      {
        assert s[d..m][..j - d] == s[d..j] && s[d..m][j - d..] == s[j..m];
        CollapseKeepsMeaning(p, s[d..m]);
        LeftTwice(code, s, left, extra, j, left, more, m);
        assert stack + extra + more == stack + (extra + more);
      }
      LoopFinishes(mode, a, n, code, s, o + 3, j, stack + extra);
    }
    BodyFinishes(mode, a, n, code, s, o + 3, d, stack, Dummy);
    FinishStep(mode, code, s, o, d, stack);
  }

  // ---- Pieces, branches, alternatives ----

  lemma {:induction false} PieceFinishes(mode: Mode, p: Piece, n: nat, code: Bytes, s: Bytes, o: nat, d: nat,
      stack: seq<Point>)
    requires Place(code, s, o, d) && At(code, o, PieceCode(p, n)) && n + PieceGroups(p) <= MAX_REGNUM
    requires LoopsOk(mode, code, PieceLoops(p, n, o)) && !ResumesAtJump(code, o + |PieceCode(p, n)|)
    requires AfterPiece(mode, p, code, s, o + |PieceCode(p, n)|, d, stack, PieceLeft(code, p, n, o))
    ensures Finishes(mode, code, s, o, d, stack)
    decreases p, 2, 0
  {
    hide Decode, Tidy, At, Finishes, AtomCode, AtomMatches, LoopOk, AtomLoops, PieceMatches, AtomMany, RepCode,
      ResumesAtJump, AtomLeft, LoopLeft, FirstApart, LeftBy, ZeroTimesOk, ManyTimesOk, Base;
    BaseIsInside(p);
    var a, zero, many := Base(p), ZeroTimesOk(p), ManyTimesOk(p);
    var x, left := o + |PieceCode(p, n)|, PieceLeft(code, p, n, o);
    RepLength(AtomCode(a, n), zero, many);
    if many {
      var start := if zero then o else o + 3;
      LoopsOkParts(mode, code, [LoopAt(a, n, start)], AtomLoops(a, n, start + 3));
      if zero {
        forall m, extra | d <= m <= |s| && AtomMany(a, s[d..m]) && LeftBy(code, s, left, extra, m)
          ensures Finishes(mode, code, s, x, m, stack + extra)
        {
          ManyIsCollapsed(a, s[d..m]);
          CollapseKeepsMeaning(p, s[d..m]);
        }
        LoopFinishes(mode, a, n, code, s, o, d, stack);
      } else {
        PlusFinishes(mode, p, n, code, s, o, d, stack);
      }
    } else if zero {
      OptFinishes(mode, p, n, code, s, o, d, stack);
    } else {
      forall m, extra | d <= m <= |s| && AtomMatches(a, s[d..m]) && LeftBy(code, s, left, extra, m)
        ensures Finishes(mode, code, s, x, m, stack + extra)
      {
        CollapseKeepsMeaning(p, s[d..m]);
      }
      RepPlain(AtomCode(a, n));
      AtomFinishes(mode, a, n, code, s, o, d, stack);
    }
  }

  lemma RepLength(body: Bytes, zero: bool, many: bool)
    ensures |RepCode(body, zero, many)| == |body| + (if many then 6 else 0) + (if zero != many then 3 else 0)
  {
  }

  lemma RepPlain(body: Bytes)
    ensures RepCode(body, false, false) == body
  {
  }

  lemma {:induction false} OptFinishes(mode: Mode, p: Piece, n: nat, code: Bytes, s: Bytes, o: nat, d: nat,
      stack: seq<Point>)
    requires Place(code, s, o, d) && At(code, o, PieceCode(p, n)) && n + PieceGroups(p) <= MAX_REGNUM
    requires ZeroTimesOk(p) && !ManyTimesOk(p) && Base(p) < p
    requires LoopsOk(mode, code, AtomLoops(Base(p), n, o + 3))
    requires !ResumesAtJump(code, o + 3 + |AtomCode(Base(p), n)|)
    requires AfterPiece(mode, p, code, s, o + 3 + |AtomCode(Base(p), n)|, d, stack, PieceLeft(code, p, n, o))
    ensures Finishes(mode, code, s, o, d, stack)
    decreases p, 1, 0
  {
    hide Decode, Tidy, At, Finishes, AtomCode, AtomMatches, LoopsOk, AtomLoops, PieceMatches, AtomMany, RepCode,
      ResumesAtJump, AtomLeft, PieceLeft, LeftBy, ZeroTimesOk, ManyTimesOk, Base;
    BaseIsInside(p);
    var a := Base(p);
    var exit, own := o + 3 + |AtomCode(a, n)|, Resume(o + 3 + |AtomCode(a, n)|, d);
    OptParts(AtomCode(a, n), code, o);
    StartNext(code, o);
    forall m, extra | d <= m <= |s| && AtomMatches(a, s[d..m]) && LeftBy(code, s, AtomLeft(code, a, n, o + 3), extra, m)
      ensures Finishes(mode, code, s, exit, m, stack + [own] + extra)
    {
      CollapseKeepsMeaning(p, s[d..m]);
      OptLeaves(p, n, code, s, o, d, m, extra);
      assert stack + [own] + extra == stack + ([own] + extra);
    }
    AtomFinishes(mode, a, n, code, s, o + 3, d, stack + [own]);
    assert s[d..d] == [];
    CollapseKeepsMeaning(p, []);
    OptNothing(p, n, code, o);
    NothingLeft(code, s, PieceLeft(code, p, n, o), d, stack);
    FinishStep(mode, code, s, o, d, stack);
  }

  lemma OptNothing(p: Piece, n: nat, code: Bytes, o: nat)
    requires ZeroTimesOk(p)
    ensures !PieceLeft(code, p, n, o).hides
  {
    hide AtomLeft, FirstApart, AtomCode;
  }

  lemma OptLeaves(p: Piece, n: nat, code: Bytes, s: Bytes, o: nat, d: nat, m: nat, extra: seq<Point>)
    requires ZeroTimesOk(p) && !ManyTimesOk(p) && d <= m <= |s| && AtomMatches(Base(p), s[d..m])
    requires LeftBy(code, s, AtomLeft(code, Base(p), n, o + 3), extra, m)
    ensures LeftBy(code, s, PieceLeft(code, p, n, o), [Resume(o + 3 + |AtomCode(Base(p), n)|, d)] + extra, m)
  {
    hide AtomCode, AtomMatches, AtomLeft, FirstApart, IsTame, Base, ZeroTimesOk, ManyTimesOk;
    if PieceLeft(code, p, n, o).tame {
      BaseIsInside(p);
      SkipIsTame(code, s, Base(p), o + 3 + |AtomCode(Base(p), n)|, d, m);
    }
  }

  lemma {:induction false} BranchFinishes(mode: Mode, b: Branch, n: nat, code: Bytes, s: Bytes, o: nat, d: nat,
      stack: seq<Point>)
    requires Place(code, s, o, d) && At(code, o, BranchCode(b, n)) && n + BranchGroups(b) <= MAX_REGNUM
    requires LoopsOk(mode, code, BranchLoops(b, n, o)) && !ResumesAtJump(code, o + |BranchCode(b, n)|)
    requires AfterBranch(mode, b, code, s, o + |BranchCode(b, n)|, d, stack, BranchLeft(code, b, n, o))
    ensures Finishes(mode, code, s, o, d, stack)
    decreases b, 1, 0
  {
    hide Decode, Tidy, At, Finishes, PieceCode, PieceMatches, LoopsOk, PieceLoops, ResumesAtJump, LitRun,
      BranchMatches, PieceLeft,
      LeftBy;
    match b
    case End =>
      NothingMatches(s, d);
      NothingLeft(code, s, NOTHING, d, stack);
    case Then(p, rest) =>
      if p.Once? && p.atom.Lit? {
        LitsFinish(mode, b, n, code, s, o, d, stack);
      } else {
        var n1 := n + PieceGroups(p);
        var x := o + |PieceCode(p, n)|;
        AtParts(code, o, PieceCode(p, n), BranchCode(rest, n1));
        LoopsOkParts(mode, code, PieceLoops(p, n, o), BranchLoops(rest, n1, x));
        PieceTidy(p, n, code, o);
        AtInside(code, x, BranchCode(rest, n1));
        StartAfter(code, o, x);
        BranchFirst(rest, n1);
        NoJumpAt(code, x, BranchCode(rest, n1));
        ThenParts(p, rest, n, code, o);
        var (left, left1) := (PieceLeft(code, p, n, o), BranchLeft(code, rest, n1, x));
        forall j, extra | d <= j <= |s| && PieceMatches(p, s[d..j]) && LeftBy(code, s, left, extra, j)
          ensures Finishes(mode, code, s, x, j, stack + extra)
        {
          RestFrom(mode, p, rest, code, s, x + |BranchCode(rest, n1)|, d, j, stack, extra, left, left1);
          BranchFinishes(mode, rest, n1, code, s, x, j, stack + extra);
        }
        PieceFinishes(mode, p, n, code, s, o, d, stack);
      }
  }

  lemma ThenParts(p: Piece, rest: Branch, n: nat, code: Bytes, o: nat)
    requires !(p.Once? && p.atom.Lit?)
    ensures
      var (n1, x) := (n + PieceGroups(p), o + |PieceCode(p, n)|);
      && BranchCode(Then(p, rest), n) == PieceCode(p, n) + BranchCode(rest, n1)
      && BranchLeft(code, Then(p, rest), n, o) == LeftBoth(PieceLeft(code, p, n, o), BranchLeft(code, rest, n1, x))
  {
    hide PieceCode, PieceLeft;
  }

  lemma RestFrom(mode: Mode, p: Piece, rest: Branch, code: Bytes, s: Bytes, x: nat, d: nat, j: nat, stack: seq<Point>,
      extra: seq<Point>, left: Left, left1: Left)
    requires d <= j <= |s| && PieceMatches(p, s[d..j]) && LeftBy(code, s, left, extra, j)
    requires AfterBranch(mode, Then(p, rest), code, s, x, d, stack, LeftBoth(left, left1))
    ensures AfterBranch(mode, rest, code, s, x, j, stack + extra, left1)
  {
    hide Finishes, PieceMatches, LeftBy, LeftBoth;
    forall m, more | j <= m <= |s| && BranchMatches(rest, s[j..m]) && LeftBy(code, s, left1, more, m)
      ensures Finishes(mode, code, s, x, m, stack + extra + more)
    {
      assert s[d..m][..j - d] == s[d..j] && s[d..m][j - d..] == s[j..m];
      assert BranchMatches(Then(p, rest), s[d..m]);
      LeftTwice(code, s, left, extra, j, left1, more, m);
      assert stack + extra + more == stack + (extra + more);
    }
  }

  lemma {:induction false} LitsFinish(mode: Mode, b: Branch, n: nat, code: Bytes, s: Bytes, o: nat, d: nat,
      stack: seq<Point>)
    requires Place(code, s, o, d) && At(code, o, BranchCode(b, n)) && n + BranchGroups(b) <= MAX_REGNUM
    requires b.Then? && b.first.Once? && b.first.atom.Lit?
    requires LoopsOk(mode, code, BranchLoops(b, n, o)) && !ResumesAtJump(code, o + |BranchCode(b, n)|)
    requires AfterBranch(mode, b, code, s, o + |BranchCode(b, n)|, d, stack, BranchLeft(code, b, n, o))
    ensures Finishes(mode, code, s, o, d, stack)
    decreases b, 0, 0
  {
    hide Decode, Tidy, At, Finishes, LoopsOk, ResumesAtJump, LitRun, BranchMatches, BranchCode, LeftBy;
    var (cs, after) := LitRun(b, 255);
    var x, d1 := o + 2 + |cs|, d + |cs|;
    LitRunParts(b, n, code, o);
    StartNext(code, o);
    LitRunGroups(b, 255);
    if d1 <= |s| && s[d..d1] == cs {
      forall m, extra | d1 <= m <= |s| && BranchMatches(after, s[d1..m]) &&
          LeftBy(code, s, BranchLeft(code, after, n, x), extra, m)
        ensures Finishes(mode, code, s, x + |BranchCode(after, n)|, m, stack + extra)
      {
        LitRunMatches(b, 255, s[d..m]);
        assert s[d..m][..|cs|] == cs && s[d..m][|cs|..] == s[d1..m];
      }
      BranchFinishes(mode, after, n, code, s, x, d1, stack);
    }
    FinishStep(mode, code, s, o, d, stack);
  }

  lemma {:induction false} AltFinishes(mode: Mode, alt: Alt, n: nat, code: Bytes, s: Bytes, o: nat, d: nat,
      stack: seq<Point>)
    requires Place(code, s, o, d) && At(code, o, AltCode(alt, n)) && n + AltGroups(alt) <= MAX_REGNUM
    requires LoopsOk(mode, code, AltLoops(alt, n, o)) && !ResumesAtJump(code, o + |AltCode(alt, n)|)
    requires AfterAlt(mode, alt, code, s, o + |AltCode(alt, n)|, d, stack, AltLeft(code, alt, n, o))
    ensures Finishes(mode, code, s, o, d, stack)
    decreases alt, 1, 0
  {
    hide Decode, Tidy, At, Finishes, BranchCode, BranchMatches, LoopsOk, BranchLoops, BranchLeft, PastAlt,
      ResumesAtJump, LeftBy;
    match alt
    case Only(b) =>
      BranchFinishes(mode, b, n, code, s, o, d, stack);
    case Or(b, others) =>
      var n1 := n + BranchGroups(b);
      var body := BranchCode(b, n);
      var o1 := o + |body| + 6;
      OrParts(b, others, n, code, o);
      OrStarts(b, others, n, code, o);
      LoopsOkParts(mode, code, BranchLoops(b, n, o + 3), AltLoops(others, n1, o1));
      AltFirst(others, n1);
      NoJumpAt(code, o1, AltCode(others, n1));
      var st := stack + [Resume(o1, d)];
      forall m, extra | d <= m <= |s| && BranchMatches(b, s[d..m]) &&
          LeftBy(code, s, BranchLeft(code, b, n, o + 3), extra, m)
        ensures Finishes(mode, code, s, o + 3 + |body|, m, st + extra)
      {
        assert st + extra == stack + ([Resume(o1, d)] + extra);
        AnyLeft(code, s, [Resume(o1, d)] + extra, m);
        ChainFinishes(mode, others, n1, code, s, o1, m, st + extra);
        FinishStep(mode, code, s, o + 3 + |body|, m, st + extra);
      }
      JumpIsNoLoop(code, o + 3 + |body|);
      BranchFinishes(mode, b, n, code, s, o + 3, d, st);
      forall m, extra | d <= m <= |s| && AltMatches(others, s[d..m]) &&
          LeftBy(code, s, AltLeft(code, others, n1, o1), extra, m)
        ensures Finishes(mode, code, s, o1 + |AltCode(others, n1)|, m, stack + extra)
      {
        AnyLeft(code, s, extra, m);
      }
      AltFinishes(mode, others, n1, code, s, o1, d, stack);
      FinishStep(mode, code, s, o, d, stack);
  }

  lemma AnyLeft(code: Bytes, s: Bytes, extra: seq<Point>, m: nat)
    ensures LeftBy(code, s, ANYTHING, extra, m)
  {
  }

  lemma JumpIsNoLoop(code: Bytes, o: nat)
    requires o < |code| && Decode(code, o).Jump? && Decode(code, o).op == JUMP_PAST_ALT
    ensures !ResumesAtJump(code, o)
  {
  }

  lemma OrStarts(b: Branch, others: Alt, n: nat, code: Bytes, o: nat)
    requires Fits(code) && Start(code, |code|) && Start(code, o) && At(code, o, AltCode(Or(b, others), n))
    ensures Start(code, o + 3) && Start(code, o + 3 + |BranchCode(b, n)|) && Start(code, o + |BranchCode(b, n)| + 6)
  {
    hide Decode, Tidy, At, BranchCode, AltCode, PastAlt;
    OrParts(b, others, n, code, o);
    StartNext(code, o);
    BranchTidy(b, n, code, o + 3);
    StartAfter(code, o + 3, o + 3 + |BranchCode(b, n)|);
    StartNext(code, o + 3 + |BranchCode(b, n)|);
  }

  lemma {:induction false} ChainFinishes(mode: Mode, others: Alt, n: nat, code: Bytes, s: Bytes, o: nat, m: nat,
      stack: seq<Point>)
    requires Place(code, s, o, m) && At(code, o, AltCode(others, n))
    requires Finishes(mode, code, s, o + |AltCode(others, n)|, m, stack)
    ensures Finishes(mode, code, s, o + PastAlt(others, n), m, stack)
    decreases others, 0, 0
  {
    hide Decode, Tidy, At, Finishes, BranchCode;
    match others
    case Only(b) =>
    case Or(b, more) =>
      OrParts(b, more, n, code, o);
      OrStarts(b, more, n, code, o);
      ChainFinishes(mode, more, n + BranchGroups(b), code, s, o + |BranchCode(b, n)| + 6, m, stack);
      FinishStep(mode, code, s, o + 3 + |BranchCode(b, n)|, m, stack);
  }

  // ---- Whole patterns ----

  /** At most 255 groups, and no loop over a body that can match nothing. */
  ghost predicate Proper(alt: Alt) {
    && Fits(AltCode(alt, 0)) && AltGroups(alt) <= MAX_REGNUM
    && forall l | l in AltLoops(alt, 0, 0) :: !AtomMatches(l.atom, [])
  }

  /** Besides, no loop end that drops a failure point it should keep. */
  ghost predicate Sound(alt: Alt) {
    Proper(alt) && forall l | l in AltLoops(alt, 0, 0) :: PopIsSound(AltCode(alt, 0), l)
  }

  /** Exact results: maybe_pop_jump is a plain jump, or its pops are sound. */
  ghost predicate IsExact(pops: bool, alt: Alt) {
    pops ==> Sound(alt)
  }

  lemma CodeIsTidy(alt: Alt)
    requires Fits(AltCode(alt, 0))
    ensures Start(AltCode(alt, 0), |AltCode(alt, 0)|) && Start(AltCode(alt, 0), 0)
  {
    hide AltCode;
    var code := AltCode(alt, 0);
    assert At(code, 0, code);
    AltTidy(alt, 0, code, 0);
  }

  /** On a proper pattern the machine finishes from every position, whatever pops;
      and if results are to be exact it drops no needed failure point. */
  lemma PatternFinishes(mode: Mode, alt: Alt, s: Bytes, d: nat)
    requires Proper(alt) && d <= |s| && (mode.exact ==> IsExact(mode.pops, alt))
    ensures Finishes(mode, AltCode(alt, 0), s, 0, d, [])
  {
    hide AltCode, AltLoops, AltLeft, Finishes, AltMatches, Tidy, PopIsSound;
    var code := AltCode(alt, 0);
    CodeIsTidy(alt);
    assert At(code, 0, code);
    var left := AltLeft(code, alt, 0, 0);
    forall m, extra | d <= m <= |s| && AltMatches(alt, s[d..m]) && LeftBy(code, s, left, extra, m)
      ensures Finishes(mode, code, s, |code|, m, [] + extra)
    {
      FinishesAtEnd(mode, code, s, m, [] + extra);
    }
    AltFinishes(mode, alt, 0, code, s, 0, d, []);
  }
}
