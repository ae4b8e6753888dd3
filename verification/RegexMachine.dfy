/** re_match_2_internal: bytecode run against a subject with a stack of failure
    points, looking for the longest match.  `pops` says whether maybe_pop_jump may
    become pop_failure_jump, as it does in regex.c, or always becomes jump. */
module RegexMachine {
  import opened Octets
  import opened Options
  import opened RegexSyntax
  import opened RegexEmit
  import opened RegexRun

  // ---- maybe_pop_jump ----

  /** A byte of the pattern buffer; the buffer is zero behind the code. */
  function Peek(code: Bytes, i: nat): Byte {
    if i < |code| then code[i] else 0
  }

  /** What follows a loop, past register commands and the front of `x+` loops. */
  function Ahead(code: Bytes, p: nat): (r: nat)
    requires p <= |code|
    ensures p <= r <= |code|
    decreases |code| - p
  {
    if p + 2 < |code| && (code[p] == STOP_MEMORY || code[p] == START_MEMORY) then Ahead(code, p + 3)
    else if p + 6 < |code| && code[p] == DUMMY_FAILURE_JUMP then Ahead(code, p + 6)
    else p
  }

  predicate BitOf(x: Byte, j: nat) {
    HasBit(x as nat, j)
  }

  /** Byte i of the map of the set command at q. */
  function MapByte(code: Bytes, q: nat, i: nat): Byte {
    Peek(code, q + 2 + i)
  }

  predicate Overlap(x: Byte, y: Byte) {
    exists j | 0 <= j < 8 :: BitOf(x, j) && BitOf(y, j)
  }

  predicate Covers(x: Byte, y: Byte) {
    forall j | 0 <= j < 8 :: BitOf(y, j) ==> BitOf(x, j)
  }

  /** Is c in the map of the set command at q?  The width of the map in bits is
      cast to an unsigned char, which makes 0 of the 256 of a full map. */
  predicate InNarrowMap(code: Bytes, q: nat, c: Byte) {
    && (c as int) < Peek(code, q + 1) as int * 8 % 256
    && BitOf(MapByte(code, q, c as int / 8), c as int % 8)
  }

  /** What follows is exactn: can no character start both? */
  predicate LiteralAllows(code: Bytes, body: nat, p2: nat) {
    var c := Peek(code, p2 + 2);
    if Peek(code, body) == EXACTN then Peek(code, body + 2) != c
    else if Peek(code, body) == CHARSET then !InNarrowMap(code, body, c)
    else Peek(code, body) == CHARSET_NOT && InNarrowMap(code, body, c)
  }

  /** What follows is charset.  For a literal body the code looks up p1[4], which
      is the count of the exactn, where the character is at p1[5]. */
  predicate SetAllows(code: Bytes, body: nat, p2: nat) {
    var width := Peek(code, p2 + 1) as nat;
    if Peek(code, body) == EXACTN then
      var c := Peek(code, body + 1) as nat;
      !(width * 8 > c && BitOf(MapByte(code, p2, c / 8), c % 8))
    else if Peek(code, body) == CHARSET_NOT then
      forall i | 0 <= i < width ::
        MapByte(code, p2, i) == 0
        || (i < Peek(code, body + 1) as nat && Covers(MapByte(code, body, i), MapByte(code, p2, i)))
    else
      && Peek(code, body) == CHARSET
      && forall i | 0 <= i < width && i < Peek(code, body + 1) as nat ::
           !Overlap(MapByte(code, p2, i), MapByte(code, body, i))
  }

  /** May the maybe_pop_jump of the loop from `start` to `exit` become a
      pop_failure_jump? */
  predicate PopAllowed(code: Bytes, start: nat, exit: nat)
    requires exit <= |code|
  {
    var p2 := Ahead(code, exit);
    if p2 == |code| then true
    else if code[p2] == EXACTN then LiteralAllows(code, start + 3, p2)
    else if code[p2] == CHARSET then SetAllows(code, start + 3, p2)
    else false
  }

  predicate Pops(pops: bool, code: Bytes, start: nat, exit: nat) {
    pops && exit <= |code| && PopAllowed(code, start, exit)
  }

  // ---- The machine ----

  /** A failure point: where to resume, or the dummy with a null pattern. */
  datatype Point = Dummy | Resume(pc: nat, d: nat)

  datatype Machine = Machine(code: Bytes, pc: nat, d: nat, stack: seq<Point>, best: Option<nat>)

  /** Done tells where the match ends, if there is one. */
  datatype Outcome = Going(m: Machine) | Done(end: Option<nat>) | Aborted

  predicate IsLoopJump(op: Byte) {
    op == MAYBE_POP_JUMP || op == POP_FAILURE_JUMP || op == JUMP
  }

  /** Is this a jump back to an on_failure_jump? */
  predicate BackToLoop(code: Bytes, pc: nat) {
    && pc + 2 < |code| && IsLoopJump(code[pc])
    && var to := pc + 3 + Extract(code[pc + 1], code[pc + 2]);
       0 <= to < |code| && code[to] == ON_FAILURE_JUMP
  }

  /** `fail`: resume from the newest failure point that is neither a dummy nor at
      the end of a loop. */
  function Fail(code: Bytes, stack: seq<Point>, best: Option<nat>): Outcome {
    if stack == [] then Done(best)
    else
      var top, rest := stack[|stack| - 1], stack[..|stack| - 1];
      if top.Dummy? || BackToLoop(code, top.pc) then Fail(code, rest, best)
      else Going(Machine(code, top.pc, top.d, rest, best))
  }

  function Drop(stack: seq<Point>): seq<Point> {
    if stack == [] then [] else stack[..|stack| - 1]
  }

  function Better(best: Option<nat>, d: nat): Option<nat> {
    if best.None? || d > best.value then Some(d) else best
  }

  /** The end of the pattern: a match, but perhaps not the longest. */
  function Finish(s: Bytes, m: Machine): Outcome {
    if m.d != |s| && m.stack != [] then Fail(m.code, m.stack, Better(m.best, m.d))
    else if m.d != |s| then Done(Better(m.best, m.d))
    else Done(Some(m.d))
  }

  function Consume(m: Machine, ok: bool, next: nat, d: nat): Outcome {
    if ok then Going(m.(pc := next, d := d)) else Fail(m.code, m.stack, m.best)
  }

  /** One turn of the loop over commands. */
  function Step(pops: bool, s: Bytes, m: Machine): Outcome {
    if m.pc >= |m.code| then Finish(s, m)
    else
      match Decode(m.code, m.pc)
      case Exact(cs, next) => Consume(m, m.d + |cs| <= |s| && s[m.d..m.d + |cs|] == cs, next, m.d + |cs|)
      case Any(next) => Consume(m, m.d < |s| && s[m.d] != 0, next, m.d + 1)
      case OneOf(neg, bitmap, next) => Consume(m, m.d < |s| && InMap(bitmap, s[m.d]) != neg, next, m.d + 1)
      case Memory(next) => Going(m.(pc := next))
      case PushDummy(next) => Going(m.(pc := next, stack := m.stack + [Dummy]))
      case DummyJump(to, _) => Going(m.(pc := to, stack := m.stack + [Dummy]))
      case OnFailure(to, next) => Going(m.(pc := next, stack := m.stack + [Resume(to, m.d)]))
      case Jump(op, to, next) =>
        if op == MAYBE_POP_JUMP && Pops(pops, m.code, to, next) then
          Going(m.(code := m.code[m.pc := POP_FAILURE_JUMP], pc := to, stack := Drop(m.stack)))
        else if op == MAYBE_POP_JUMP then Going(m.(code := m.code[m.pc := JUMP], pc := to))
        else if op == POP_FAILURE_JUMP then Going(m.(pc := to, stack := Drop(m.stack)))
        else Going(m.(pc := to))
      case Bad => Aborted
  }

  // ---- Runs ----

  /** n turns of the machine. */
  function Turns(pops: bool, s: Bytes, o: Outcome, n: nat): Outcome
    decreases n
  {
    if n == 0 || !o.Going? then o else Turns(pops, s, Step(pops, s, o.m), n - 1)
  }

  lemma {:induction false} Turn(pops: bool, s: Bytes, o: Outcome, n: nat)
    ensures Turns(pops, s, o, n + 1) == match Turns(pops, s, o, n) case Going(m) => Step(pops, s, m) case r => r
    decreases n
  {
    hide Step;
    if n > 0 && o.Going? {
      Turn(pops, s, Step(pops, s, o.m), n - 1);
    }
  }

  lemma TurnZero(pops: bool, s: Bytes, o: Outcome)
    ensures Turns(pops, s, o, 0) == o
  {
  }

  lemma {:induction false} TurnsTwice(pops: bool, s: Bytes, o: Outcome, m: nat, n: nat)
    ensures Turns(pops, s, o, m + n) == Turns(pops, s, Turns(pops, s, o, m), n)
    decreases m
  {
    hide Step;
    if m > 0 && o.Going? {
      TurnsTwice(pops, s, Step(pops, s, o.m), m - 1, n);
    }
  }

  /** The machine on a pattern's code, from position pos. */
  function Origin(code: Bytes, pos: nat): Outcome {
    Going(Machine(code, 0, pos, [], None))
  }

  /** Does the machine come to an end on this code, with this result? */
  ghost predicate Result(pops: bool, code: Bytes, s: Bytes, pos: nat, end: Option<nat>) {
    exists n: nat :: Turns(pops, s, Origin(code, pos), n) == Done(end)
  }

  /** The machine is deterministic. */
  lemma ResultIsOne(pops: bool, code: Bytes, s: Bytes, pos: nat, end: Option<nat>, end1: Option<nat>)
    requires Result(pops, code, s, pos, end) && Result(pops, code, s, pos, end1)
    ensures end == end1
  {
    hide Step;
    var o := Origin(code, pos);
    var n: nat :| Turns(pops, s, o, n) == Done(end);
    var n1: nat :| Turns(pops, s, o, n1) == Done(end1);
    if n <= n1 {
      TurnsTwice(pops, s, o, n, n1 - n);
    } else {
      TurnsTwice(pops, s, o, n1, n - n1);
    }
  }
}
