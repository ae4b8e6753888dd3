/** Why the machine comes to an end on compiled code, and which failure points it
    throws away at the end of a loop without missing them. */
module RegexEnds {
  import opened Octets
  import opened Options
  import opened RegexSyntax
  import opened RegexEmit
  import opened RegexRun
  import opened RegexMachine
  import opened RegexTidy

  /** Does maybe_pop_jump pop, and is every pop to be shown harmless? */
  datatype Mode = Mode(pops: bool, exact: bool)

  /** The point leads to no later end than going on from pc at d. */
  ghost predicate Harmless(code: Bytes, s: Bytes, p: Point, pc: nat, d: nat) {
    p.Resume? ==> forall e | CanEnd(code, s, p.pc, p.d, e) :: exists e1 :: e <= e1 && CanEnd(code, s, pc, d, e1)
  }

  /** Every way to go on from pc at d, with these failure points, is through in k
      commands, and on it the machine neither goes astray nor, if pops are to be
      harmless, drops a failure point that is needed. */
  ghost predicate Ends(mode: Mode, code: Bytes, s: Bytes, pc: nat, d: nat, stack: seq<Point>, k: nat)
    decreases k, 0
  {
    && d <= |s|
    && (pc != |code| ==>
          pc < |code| && Start(code, pc) && k > 0 && EndsBy(mode, Decode(code, pc), code, s, d, stack, k - 1))
  }

  ghost predicate EndsBy(mode: Mode, i: Instr, code: Bytes, s: Bytes, d: nat, stack: seq<Point>, k: nat)
    decreases k, 1
  {
    match i
    case Exact(cs, next) => d + |cs| <= |s| && s[d..d + |cs|] == cs ==> Ends(mode, code, s, next, d + |cs|, stack, k)
    case Any(next) => d < |s| && s[d] != 0 ==> Ends(mode, code, s, next, d + 1, stack, k)
    case OneOf(neg, bitmap, next) =>
      d < |s| && InMap(bitmap, s[d]) != neg ==> Ends(mode, code, s, next, d + 1, stack, k)
    case Memory(next) => Ends(mode, code, s, next, d, stack, k)
    case PushDummy(next) => Ends(mode, code, s, next, d, stack + [Dummy], k)
    case DummyJump(to, _) => Ends(mode, code, s, to, d, stack + [Dummy], k)
    case OnFailure(to, next) =>
      && !ResumesAtJump(code, to)
      && Ends(mode, code, s, next, d, stack + [Resume(to, d)], k) && Ends(mode, code, s, to, d, stack, k)
    case Jump(op, to, next) =>
      JumpIsSafe(mode, code, s, i, d, stack) && Ends(mode, code, s, to, d, AfterJump(mode, code, i, stack), k)
    case Bad => false
  }

  predicate ResumesAtJump(code: Bytes, pc: nat) {
    pc < |code| && IsLoopJump(code[pc])
  }

  /** Does this jump become a pop_failure_jump? */
  predicate JumpPops(mode: Mode, code: Bytes, i: Instr)
    requires i.Jump?
  {
    i.op == MAYBE_POP_JUMP && Pops(mode.pops, code, i.to, i.next)
  }

  function AfterJump(mode: Mode, code: Bytes, i: Instr, stack: seq<Point>): seq<Point>
    requires i.Jump?
  {
    if JumpPops(mode, code, i) then Drop(stack) else stack
  }

  ghost predicate JumpIsSafe(mode: Mode, code: Bytes, s: Bytes, i: Instr, d: nat, stack: seq<Point>)
    requires i.Jump?
  {
    && (i.op == MAYBE_POP_JUMP || i.op == JUMP_PAST_ALT)
    && (i.op == MAYBE_POP_JUMP ==> Start(code, i.next) && i.to < |code| && Decode(code, i.to).OnFailure?)
    && (JumpPops(mode, code, i) && mode.exact ==> PopIsSafe(code, s, stack, i.to, d))
  }

  ghost predicate PopIsSafe(code: Bytes, s: Bytes, stack: seq<Point>, to: nat, d: nat) {
    stack != [] && Harmless(code, s, stack[|stack| - 1], to, d)
  }

  lemma {:induction false} EndsMore(mode: Mode, code: Bytes, s: Bytes, pc: nat, d: nat, stack: seq<Point>, k: nat,
      k1: nat)
    requires Ends(mode, code, s, pc, d, stack, k) && k <= k1
    ensures Ends(mode, code, s, pc, d, stack, k1)
    decreases k
  {
    hide Decode, Start, JumpIsSafe, AfterJump, ResumesAtJump;
    if pc != |code| {
      match Decode(code, pc)
      case Exact(cs, next) =>
        if d + |cs| <= |s| && s[d..d + |cs|] == cs { EndsMore(mode, code, s, next, d + |cs|, stack, k - 1, k1 - 1); }
      case Any(next) =>
        if d < |s| && s[d] != 0 { EndsMore(mode, code, s, next, d + 1, stack, k - 1, k1 - 1); }
      case OneOf(neg, bitmap, next) =>
        if d < |s| && InMap(bitmap, s[d]) != neg { EndsMore(mode, code, s, next, d + 1, stack, k - 1, k1 - 1); }
      case Memory(next) => EndsMore(mode, code, s, next, d, stack, k - 1, k1 - 1);
      case PushDummy(next) => EndsMore(mode, code, s, next, d, stack + [Dummy], k - 1, k1 - 1);
      case DummyJump(to, _) => EndsMore(mode, code, s, to, d, stack + [Dummy], k - 1, k1 - 1);
      case OnFailure(to, next) =>
        EndsMore(mode, code, s, next, d, stack + [Resume(to, d)], k - 1, k1 - 1);
        EndsMore(mode, code, s, to, d, stack, k - 1, k1 - 1);
      case Jump(op, to, next) =>
        EndsMore(mode, code, s, to, d, AfterJump(mode, code, Decode(code, pc), stack), k - 1, k1 - 1);
    }
  }

  ghost predicate Finishes(mode: Mode, code: Bytes, s: Bytes, pc: nat, d: nat, stack: seq<Point>) {
    exists k: nat :: Ends(mode, code, s, pc, d, stack, k)
  }

  lemma FinishesAtEnd(mode: Mode, code: Bytes, s: Bytes, d: nat, stack: seq<Point>)
    requires d <= |s|
    ensures Finishes(mode, code, s, |code|, d, stack)
  {
    assert Ends(mode, code, s, |code|, d, stack, 0);
  }

  /** EndsBy without the count. */
  ghost predicate FinishesBy(mode: Mode, i: Instr, code: Bytes, s: Bytes, d: nat, stack: seq<Point>) {
    match i
    case Exact(cs, next) => d + |cs| <= |s| && s[d..d + |cs|] == cs ==> Finishes(mode, code, s, next, d + |cs|, stack)
    case Any(next) => d < |s| && s[d] != 0 ==> Finishes(mode, code, s, next, d + 1, stack)
    case OneOf(neg, bitmap, next) =>
      d < |s| && InMap(bitmap, s[d]) != neg ==> Finishes(mode, code, s, next, d + 1, stack)
    case Memory(next) => Finishes(mode, code, s, next, d, stack)
    case PushDummy(next) => Finishes(mode, code, s, next, d, stack + [Dummy])
    case DummyJump(to, _) => Finishes(mode, code, s, to, d, stack + [Dummy])
    case OnFailure(to, next) =>
      && !ResumesAtJump(code, to)
      && Finishes(mode, code, s, next, d, stack + [Resume(to, d)]) && Finishes(mode, code, s, to, d, stack)
    case Jump(op, to, next) =>
      JumpIsSafe(mode, code, s, i, d, stack) && Finishes(mode, code, s, to, d, AfterJump(mode, code, i, stack))
    case Bad => false
  }

  lemma FinishStep(mode: Mode, code: Bytes, s: Bytes, pc: nat, d: nat, stack: seq<Point>)
    requires d <= |s| && pc < |code| && Start(code, pc) && FinishesBy(mode, Decode(code, pc), code, s, d, stack)
    ensures Finishes(mode, code, s, pc, d, stack)
  {
    hide Decode, Start, EndsBy, FinishesBy;
    var k := FinishesEnds(mode, Decode(code, pc), code, s, d, stack);
    assert Ends(mode, code, s, pc, d, stack, k + 1);
  }

  lemma FinishesEnds(mode: Mode, i: Instr, code: Bytes, s: Bytes, d: nat, stack: seq<Point>) returns (k: nat)
    requires FinishesBy(mode, i, code, s, d, stack)
    ensures EndsBy(mode, i, code, s, d, stack, k)
  {
    hide Ends, Start, JumpIsSafe, AfterJump, ResumesAtJump;
    match i
    case Exact(cs, next) =>
      if d + |cs| <= |s| &&
          s[d..d + |cs|] == cs { k :| Ends(mode, code, s, next, d + |cs|, stack, k); } else { k := 0; }
    case Any(next) =>
      if d < |s| && s[d] != 0 { k :| Ends(mode, code, s, next, d + 1, stack, k); } else { k := 0; }
    case OneOf(neg, bitmap, next) =>
      if d < |s| && InMap(bitmap, s[d]) != neg { k :| Ends(mode, code, s, next, d + 1, stack, k); } else { k := 0; }
    case Memory(next) => k :| Ends(mode, code, s, next, d, stack, k);
    case PushDummy(next) => k :| Ends(mode, code, s, next, d, stack + [Dummy], k);
    case DummyJump(to, _) => k :| Ends(mode, code, s, to, d, stack + [Dummy], k);
    case OnFailure(to, next) =>
      var st := stack + [Resume(to, d)];
      var k1: nat :| Ends(mode, code, s, next, d, st, k1);
      var k2: nat :| Ends(mode, code, s, to, d, stack, k2);
      k := if k1 < k2 then k2 else k1;
      EndsMore(mode, code, s, next, d, st, k1, k);
      EndsMore(mode, code, s, to, d, stack, k2, k);
    case Jump(op, to, next) => k :| Ends(mode, code, s, to, d, AfterJump(mode, code, i, stack), k);
  }

  // ---- The failure points that a part of the pattern leaves ----

  /** What a part of the pattern leaves on the stack: nothing at all, a point on top
      that leads no further, certainly something. */
  datatype Left = Left(nothing: bool, tame: bool, hides: bool)

  const NOTHING := Left(true, true, false)
  const ANYTHING := Left(false, false, false)

  /** The point is a dummy, or leads no further than m. */
  ghost predicate IsTame(code: Bytes, s: Bytes, p: Point, m: nat) {
    p.Resume? ==> forall e: nat | CanEnd(code, s, p.pc, p.d, e) :: e <= m
  }

  ghost predicate TopIsTame(code: Bytes, s: Bytes, extra: seq<Point>, m: nat) {
    extra != [] ==> IsTame(code, s, extra[|extra| - 1], m)
  }

  /** Are these the points that may be left when the part has been read up to m? */
  ghost predicate LeftBy(code: Bytes, s: Bytes, left: Left, extra: seq<Point>, m: nat) {
    && (left.nothing ==> extra == []) && (left.hides ==> extra != [])
    && (left.tame ==> TopIsTame(code, s, extra, m))
  }

  function LeftBoth(x: Left, y: Left): Left {
    Left(x.nothing && y.nothing, y.tame && (y.hides || x.tame), x.hides || y.hides)
  }

  lemma LeftTwice(code: Bytes, s: Bytes, x: Left, e1: seq<Point>, j: nat, y: Left, e2: seq<Point>, m: nat)
    requires LeftBy(code, s, x, e1, j) && LeftBy(code, s, y, e2, m) && j <= m
    ensures LeftBy(code, s, LeftBoth(x, y), e1 + e2, m)
  {
    hide CanEnd;
    if e2 == [] {
      assert e1 + e2 == e1;
    }
  }

  /** Can something be read from pc on that starts with c? */
  ghost predicate CanBegin(code: Bytes, pc: nat, c: Byte) {
    exists s: Bytes, d: nat, e: nat :: d < |s| && s[d] == c && d < e && CanEnd(code, s, pc, d, e)
  }

  /** The next character tells whether to read the atom or to go on behind it. */
  ghost predicate FirstApart(code: Bytes, a: Atom, pc: nat) {
    forall w | AtomMatches(a, w) :: w != [] && !CanBegin(code, pc, w[0])
  }

  /** Once the atom has been read the point that skips it leads nowhere. */
  lemma SkipIsTame(code: Bytes, s: Bytes, a: Atom, pc: nat, d: nat, j: nat)
    requires FirstApart(code, a, pc) && d <= j <= |s| && AtomMatches(a, s[d..j])
    ensures IsTame(code, s, Resume(pc, d), j)
  {
    hide CanEnd, AtomMatches;
    var w := s[d..j];
    assert w[0] == s[d];
    forall e: nat | CanEnd(code, s, pc, d, e)
      ensures e <= j
    {
      assert e <= d;
    }
  }

  ghost function AtomLeft(code: Bytes, a: Atom, n: nat, o: nat): Left
    decreases a, 0
  {
    match a
    case Group(Only(b)) => BranchLeft(code, b, n + 1, o + |StartGroup(n + 1, BranchGroups(b))|)
    case Group(Or(_, _)) => Left(false, true, true)
    case _ => NOTHING
  }

  ghost function PieceLeft(code: Bytes, p: Piece, n: nat, o: nat): Left
    decreases p, 1
  {
    BaseIsInside(p);
    var a := Base(p);
    if ManyTimesOk(p) then LoopLeft(code, a, n, if ZeroTimesOk(p) then o else o + 3)
    else if ZeroTimesOk(p) then
      Left(false, AtomLeft(code, a, n, o + 3).tame && FirstApart(code, a, o + 3 + |AtomCode(a, n)|), false)
    else AtomLeft(code, a, n, o)
  }

  /** A loop whose end pops may leave older points of its body. */
  ghost function LoopLeft(code: Bytes, a: Atom, n: nat, start: nat): Left
    decreases a, 1
  {
    var exit := start + |AtomCode(a, n)| + 6;
    var inner := AtomLeft(code, a, n, start + 3);
    Left(false, inner.tame && FirstApart(code, a, exit) && (inner.nothing || !Pops(true, code, start, exit)), false)
  }

  ghost function BranchLeft(code: Bytes, b: Branch, n: nat, o: nat): Left
    decreases b, 0
  {
    match b
    case End => NOTHING
    case Then(p, rest) =>
      if p.Once? && p.atom.Lit? then
        var (cs, after) := LitRun(b, 255);
        BranchLeft(code, after, n, o + 2 + |cs|)
      else LeftBoth(PieceLeft(code, p, n, o), BranchLeft(code, rest, n + PieceGroups(p), o + |PieceCode(p, n)|))
  }

  ghost function AltLeft(code: Bytes, alt: Alt, n: nat, o: nat): Left {
    match alt case Only(b) => BranchLeft(code, b, n, o) case Or(_, _) => ANYTHING
  }
}
