/** regex_compile: one pass over the pattern, writing code as it goes and
    inserting jumps into code already written. */
module RegexCompile {
  import opened Octets
  import opened Options
  import opened RegexSyntax
  import opened RegexEmit

  /** What the pattern scanner tells apart: characters, operators, and a bracket
      expression with the characters it lists. */
  datatype Token = Ch(c: Byte) | AnyCh | Set(neg: bool, chars: Bytes) | Open | Close | Bar | Repeat(op: RepOp)

  const CLOSE_PAREN: Byte := 41

  // ---- A pattern as text ----

  function AtomText(a: Atom): seq<Token> {
    match a
    case Lit(c) => [Ch(c)]
    case Dot => [AnyCh]
    case Bracket(neg, chars) => [Set(neg, chars)]
    case Group(alt) => [Open] + AltText(alt) + [Close]
  }

  function PieceText(p: Piece): seq<Token> {
    match p
    case Once(a) => AtomText(a)
    case Rep(q, op) => PieceText(q) + [Repeat(op)]
  }

  function BranchText(b: Branch): seq<Token> {
    match b
    case End => []
    case Then(p, rest) => PieceText(p) + BranchText(rest)
  }

  function AltText(alt: Alt): seq<Token> {
    match alt
    case Only(b) => BranchText(b)
    case Or(b, others) => BranchText(b) + [Bar] + AltText(others)
  }

  // ---- The compiler's state ----

  /** compile_stack_elt_t */
  datatype Frame = Frame(begalt: nat, fixup: Option<nat>, laststart: nat, inner: nat, regnum: nat)

  /** The locals of regex_compile, with pointers into the buffer as offsets and
      the buffer up to `b`. */
  datatype State = State(
    buf: Bytes, pending: Option<nat>, laststart: Option<nat>, begalt: nat, fixup: Option<nat>,
    regnum: nat, stack: seq<Frame>)

  predicate FrameOk(f: Frame, size: nat) {
    && f.begalt <= size && f.laststart <= size
    && (f.fixup.Some? ==> f.fixup.value + 3 <= size)
    && (f.regnum <= MAX_REGNUM ==> f.inner < size)
  }

  predicate Ok(s: State) {
    && s.begalt <= |s.buf|
    && (s.laststart.Some? ==> s.laststart.value <= |s.buf|)
    && (s.fixup.Some? ==> s.fixup.value + 3 <= |s.buf|)
    && (s.pending.Some? ==> s.pending.value < |s.buf| && s.pending.value + s.buf[s.pending.value] as int + 1 <= |s.buf|)
    && (s.pending.Some? && s.fixup.Some? ==> s.fixup.value + 3 <= s.pending.value)
    && (forall i | 0 <= i < |s.stack| :: FrameOk(s.stack[i], |s.buf|) && s.stack[i].regnum <= s.regnum)
  }

  const START: State := State([], None, None, 0, None, 0, [])

  /** insert_op1: open three bytes at loc. */
  function InsertAt(buf: Bytes, loc: nat, code: Bytes): (r: Bytes)
    requires loc <= |buf|
    ensures |r| == |buf| + |code|
  {
    buf[..loc] + code + buf[loc..]
  }

  /** Where the relative jump at x goes. */
  function Target(buf: Bytes, x: nat): int
    requires x + 2 < |buf|
  {
    x + 3 + Extract(buf[x + 1], buf[x + 2])
  }

  /** A jump inside the part that is moved, to a place in that part or at its end,
      still reaches the same code; what is before loc is not touched. */
  lemma InsertKeepsJumps(buf: Bytes, loc: nat, code: Bytes, x: nat)
    requires loc <= x && x + 2 < |buf| && loc <= Target(buf, x) <= |buf|
    ensures
      var now := InsertAt(buf, loc, code);
      var x1 := x + |code|;
      && Target(now, x1) == Target(buf, x) + |code|
      && now[Target(now, x1)..] == buf[Target(buf, x)..]
      && now[x1] == buf[x] && now[..loc] == buf[..loc]
  {
    var now := InsertAt(buf, loc, code);
    assert forall y | loc <= y < |buf| :: now[y + |code|] == buf[y];
  }

  /** store_op1: overwrite three bytes at loc. */
  function StoreAt(buf: Bytes, loc: nat, code: Bytes): (r: Bytes)
    requires loc + |code| <= |buf|
    ensures |r| == |buf|
  {
    buf[..loc] + code + buf[loc + |code|..]
  }

  /** Must a literal start a new exactn command? */
  predicate NewExact(s: State, followed: bool)
    requires Ok(s)
  {
    || s.pending.None?
    || s.pending.value + s.buf[s.pending.value] as int + 1 != |s.buf|
    || s.buf[s.pending.value] == 255
    || followed
  }

  function NormalChar(s: State, c: Byte, followed: bool): (r: State)
    requires Ok(s)
    ensures Ok(r) && |r.buf| >= |s.buf|
  {
    if NewExact(s, followed) then
      s.(buf := s.buf + [EXACTN, 1, c], laststart := Some(|s.buf|), pending := Some(|s.buf| + 1))
    else
      var p := s.pending.value;
      s.(buf := s.buf[p := s.buf[p] + 1] + [c])
  }

  /** The operand of a repetition gets its jumps. */
  function Repeated(s: State, zero: bool, many: bool): (r: State)
    requires Ok(s)
    ensures Ok(r) && |r.buf| >= |s.buf|
  {
    if s.laststart.None? then s
    else
      var loc := s.laststart.value;
      var buf := if many then s.buf + Op1(MAYBE_POP_JUMP, loc - 3 - |s.buf| - 3) else s.buf;
      var buf := InsertAt(buf, loc, Op1(ON_FAILURE_JUMP, |buf| + 3 - loc - 3));
      var buf := if zero then buf else InsertAt(buf, loc, Op1(DUMMY_FAILURE_JUMP, loc + 6 - loc - 3));
      s.(buf := buf, pending := None)
  }

  function Opened(s: State): (r: State)
    requires Ok(s)
    ensures Ok(r) && |r.buf| >= |s.buf|
  {
    var n := s.regnum + 1;
    var frame := Frame(s.begalt, s.fixup, |s.buf|, |s.buf| + 2, n);
    var buf := if n <= MAX_REGNUM then s.buf + [START_MEMORY, n as Byte, 0] else s.buf;
    State(buf, None, None, |buf|, None, n, s.stack + [frame])
  }

  /** Finish the last alternative's jump, landing at `to`. */
  function FillJump(buf: Bytes, fixup: Option<nat>, to: nat): (r: Bytes)
    requires fixup.Some? ==> fixup.value + 3 <= |buf|
    ensures |r| == |buf|
  {
    if fixup.None? then buf
    else StoreAt(buf, fixup.value, Op1(JUMP_PAST_ALT, to - fixup.value - 3))
  }

  /** What `)` does before it looks for its `(`. */
  function EndOfAlternatives(s: State): Bytes
    requires Ok(s)
  {
    if s.fixup.None? then s.buf
    else FillJump(s.buf + [PUSH_DUMMY_FAILURE], s.fixup, |s.buf|)
  }

  function Closed(s: State): (r: State)
    requires Ok(s) && s.stack != []
    ensures Ok(r) && |r.buf| >= |s.buf|
  {
    var buf := EndOfAlternatives(s);
    var f := s.stack[|s.stack| - 1];
    var inner := (s.regnum - f.regnum) % 256;
    var buf := if f.regnum > MAX_REGNUM then buf
               else buf[f.inner := inner as Byte] + [STOP_MEMORY, f.regnum as Byte, inner as Byte];
    State(buf, None, Some(f.laststart), f.begalt, f.fixup, s.regnum, s.stack[..|s.stack| - 1])
  }

  /** A `)` with no `(` is a literal, after the alternatives have been ended. */
  function StrayClose(s: State, followed: bool): (r: State)
    requires Ok(s)
    ensures Ok(r) && |r.buf| >= |s.buf|
  {
    NormalChar(s.(buf := EndOfAlternatives(s)), CLOSE_PAREN, followed)
  }

  /** `|`: jump over this alternative on failure, and past the others after it.
      The three bytes left for that jump are filled in later. */
  function Barred(s: State): (r: State)
    requires Ok(s)
    ensures Ok(r) && |r.buf| >= |s.buf|
  {
    var buf := InsertAt(s.buf, s.begalt, Op1(ON_FAILURE_JUMP, |s.buf| + 6 - s.begalt - 3));
    var buf := FillJump(buf, s.fixup, |buf|);
    s.(buf := buf + [0, 0, 0], pending := None, fixup := Some(|buf|), laststart := None, begalt := |buf| + 3)
  }

  /** The end of the run of repetition operators that starts at i. */
  function RunEnd(text: seq<Token>, i: nat): (j: nat)
    requires i <= |text|
    ensures i <= j <= |text|
    decreases |text| - i
  {
    if i < |text| && text[i].Repeat? then RunEnd(text, i + 1) else i
  }

  predicate AnyOther(text: seq<Token>, i: nat, j: nat, op: RepOp)
    requires i <= j <= |text|
  {
    exists k | i <= k < j :: text[k].Repeat? && text[k].op != op
  }

  predicate RepeatAt(text: seq<Token>, i: nat) {
    i < |text| && text[i].Repeat?
  }

  datatype Result = Code(code: Bytes) | UnmatchedParen

  /** One turn of the loop over the pattern: the new state and how far it read. */
  function Step(text: seq<Token>, i: nat, s: State): (r: (State, nat))
    requires Ok(s) && i < |text|
    ensures Ok(r.0) && i < r.1 <= |text| && |r.0.buf| >= |s.buf|
  {
    match text[i]
    case Ch(c) => (NormalChar(s, c, RepeatAt(text, i + 1)), i + 1)
    case AnyCh => (s.(laststart := Some(|s.buf|), buf := s.buf + [ANYCHAR]), i + 1)
    case Set(neg, chars) => (s.(laststart := Some(|s.buf|), buf := s.buf + AtomCode(Bracket(neg, chars), 0)), i + 1)
    case Open => (Opened(s), i + 1)
    case Close =>
      if s.stack == [] then (StrayClose(s, RepeatAt(text, i + 1)), i + 1)
      else (Closed(s), i + 1)
    case Bar => (Barred(s), i + 1)
    case Repeat(_) =>
      var j := RunEnd(text, i);
      (Repeated(s, AnyOther(text, i, j, Plus), AnyOther(text, i, j, Opt)), j)
  }

  /** The rest of the loop, and what follows it. */
  function Run(text: seq<Token>, i: nat, s: State): Result
    requires Ok(s) && i <= |text|
    decreases |text| - i
  {
    if i == |text| then
      if s.stack != [] then UnmatchedParen else Code(FillJump(s.buf, s.fixup, |s.buf|))
    else
      var (next, j) := Step(text, i, s);
      Run(text, j, next)
  }

  /** How many groups are open behind the text; a `)` without a `(` is a literal. */
  function Depth(text: seq<Token>): nat {
    if text == [] then 0
    else
      var d := Depth(text[..|text| - 1]);
      match text[|text| - 1]
      case Open => d + 1
      case Close => if d > 0 then d - 1 else 0
      case _ => d
  }

  lemma DepthOneMore(text: seq<Token>, i: nat)
    requires i < |text|
    ensures
      var (d, d1) := (Depth(text[..i]), Depth(text[..i + 1]));
      d1 == if text[i].Open? then d + 1 else if text[i].Close? && d > 0 then d - 1 else d
  {
    assert text[..i + 1][..i] == text[..i];
  }

  lemma {:induction false} DepthOfRepeats(text: seq<Token>, i: nat, j: nat)
    requires i <= j <= |text| && forall k | i <= k < j :: text[k].Repeat?
    ensures Depth(text[..j]) == Depth(text[..i])
    decreases j
  {
    if i < j {
      DepthOfRepeats(text, i, j - 1);
      DepthOneMore(text, j - 1);
    }
  }

  lemma {:induction false} RunEndRepeats(text: seq<Token>, i: nat)
    requires i <= |text|
    ensures forall k | i <= k < RunEnd(text, i) :: text[k].Repeat?
    decreases |text| - i
  {
    if i < |text| && text[i].Repeat? {
      RunEndRepeats(text, i + 1);
    }
  }

  /** Exactly the texts that leave a group open are refused. */
  lemma UnmatchedIfOpen(text: seq<Token>)
    ensures Run(text, 0, START).UnmatchedParen? <==> Depth(text) > 0
  {
    assert text[..0] == [];
    RunDepth(text, 0, START);
  }

  lemma {:induction false} RunDepth(text: seq<Token>, i: nat, s: State)
    requires Ok(s) && i <= |text| && |s.stack| == Depth(text[..i])
    ensures Run(text, i, s).UnmatchedParen? <==> Depth(text) > 0
    decreases |text| - i
  {
    hide Ok, NormalChar, Barred, Repeated, FillJump, AtomCode;
    if i == |text| {
      assert text[..i] == text;
    } else {
      var (next, j) := Step(text, i, s);
      StepDepth(text, i, s);
      hide Step;
      RunDepth(text, j, next);
    }
  }

  lemma StepDepth(text: seq<Token>, i: nat, s: State)
    requires Ok(s) && i < |text| && |s.stack| == Depth(text[..i])
    ensures var (next, j) := Step(text, i, s); |next.stack| == Depth(text[..j])
  {
    hide Ok, FillJump, AtomCode, InsertAt, EndOfAlternatives, Depth, Op1;
    DepthOneMore(text, i);
    if text[i].Repeat? {
      RunEndRepeats(text, i);
      DepthOfRepeats(text, i, RunEnd(text, i));
    }
  }

  /** One turn of the loop, token by token. */
  lemma Turn(text: seq<Token>, i: nat, s: State)
    requires Ok(s) && i < |text|
    ensures
      match text[i]
      case Ch(c) => Run(text, i, s) == Run(text, i + 1, NormalChar(s, c, RepeatAt(text, i + 1)))
      case Open => Run(text, i, s) == Run(text, i + 1, Opened(s))
      case Close => s.stack != [] ==> Run(text, i, s) == Run(text, i + 1, Closed(s))
      case Bar => Run(text, i, s) == Run(text, i + 1, Barred(s))
      case _ => Run(text, i, s) == Run(text, Step(text, i, s).1, Step(text, i, s).0)
  {
  }

  // ---- The pass arrives at the recursive layout ----

  /** text has t at i. */
  predicate HasAt(text: seq<Token>, i: nat, t: seq<Token>) {
    i + |t| <= |text| && text[i..i + |t|] == t
  }

  lemma HasAtParts(text: seq<Token>, i: nat, t: seq<Token>, u: seq<Token>)
    requires HasAt(text, i, t + u)
    ensures HasAt(text, i, t) && HasAt(text, i + |t|, u)
  {
    assert text[i..i + |t + u|] == t + u;
    assert text[i..i + |t|] == (t + u)[..|t|] == t;
    assert text[i + |t|..i + |t| + |u|] == (t + u)[|t|..] == u;
  }

  /** The next literal, if it is not repeated, starts a new exactn. */
  predicate Fresh(s: State)
    requires Ok(s)
  {
    NewExact(s, false)
  }

  predicate StartsWithLit(b: Branch) {
    b.Then? && b.first.Once? && b.first.atom.Lit?
  }

  /** Where compiling leaves everything but the code just written. */
  predicate SameContext(s: State, r: State) {
    s.begalt == r.begalt && s.fixup == r.fixup && s.stack == r.stack
  }

  lemma LitText(b: Branch, text: seq<Token>, i: nat)
    requires StartsWithLit(b) && HasAt(text, i, BranchText(b)) && !RepeatAt(text, i + |BranchText(b)|)
    ensures
      && i < |text| && text[i] == Ch(b.first.atom.c) && |BranchText(b)| == 1 + |BranchText(b.rest)|
      && HasAt(text, i + 1, BranchText(b.rest)) && !RepeatAt(text, i + 1)
  {
    var c := b.first.atom.c;
    assert PieceText(b.first) == AtomText(b.first.atom) == [Ch(c)];
    HasAtParts(text, i, [Ch(c)], BranchText(b.rest));
    NextNotRepeat(b.rest, text, i + 1);
    assert text[i] == text[i..i + 1][0];
  }

  /** Literals that join the open exactn command at s.pending. */
  lemma {:induction false} LitRunCompiles(b: Branch, room: nat, text: seq<Token>, i: nat, s: State)
    returns (r: State, j: nat)
    requires Ok(s) && HasAt(text, i, BranchText(b)) && !RepeatAt(text, i + |BranchText(b)|)
    requires s.pending.Some? && !Fresh0(s) && s.buf[s.pending.value] as int + room == 255
    ensures Ok(r) && SameContext(s, r) && r.regnum == s.regnum && i <= j <= |text|
    ensures Run(text, i, s) == Run(text, j, r)
    ensures
      var (cs, rest) := LitRun(b, room);
      var p := s.pending.value;
      && j + |BranchText(rest)| == i + |BranchText(b)| && HasAt(text, j, BranchText(rest))
      && r.buf == s.buf[p := s.buf[p] + |cs| as Byte] + cs
      && (StartsWithLit(rest) ==> Fresh(r))
    decreases b
  {
    hide Run, Step;
    r, j := s, i;
    if room > 0 && StartsWithLit(b) {
      var c := b.first.atom.c;
      LitText(b, text, i);
      hide HasAt, BranchText;
      Turn(text, i, s);
      var s1 := NormalChar(s, c, false);
      r, j := LitRunCompiles(b.rest, room - 1, text, i + 1, s1);
    }
  }

  /** The open exactn ends where the buffer ends. */
  predicate Fresh0(s: State)
    requires Ok(s) && s.pending.Some?
  {
    s.pending.value + s.buf[s.pending.value] as int + 1 != |s.buf|
  }

  lemma {:induction false} PieceTextStarts(p: Piece)
    ensures PieceText(p) != [] && !PieceText(p)[0].Repeat?
  {
    if p.Rep? {
      PieceTextStarts(p.inner);
    }
  }

  lemma NextNotRepeat(b: Branch, text: seq<Token>, i: nat)
    requires HasAt(text, i, BranchText(b)) && !RepeatAt(text, i + |BranchText(b)|)
    ensures !RepeatAt(text, i)
  {
    if b.Then? {
      PieceTextStarts(b.first);
      HasAtParts(text, i, PieceText(b.first), BranchText(b.rest));
      assert text[i] == text[i..i + |PieceText(b.first)|][0];
    }
  }

  /** An atom's own code, with laststart at its beginning. */
  lemma {:induction false} AtomCompiles(a: Atom, text: seq<Token>, i: nat, s: State) returns (r: State)
    requires Ok(s) && HasAt(text, i, AtomText(a))
    requires a.Lit? ==> NewExact(s, RepeatAt(text, i + 1))
    ensures Ok(r) && SameContext(s, r) && r.regnum == s.regnum + AtomGroups(a)
    ensures Run(text, i, s) == Run(text, i + |AtomText(a)|, r)
    ensures r.buf == s.buf + AtomCode(a, s.regnum) && r.laststart == Some(|s.buf|)
    ensures !a.Lit? ==> Fresh(r)
    decreases a, 0
  {
    hide Run, Ok;
    if a.Group? {
      r := GroupCompiles(a.alt, text, i, s);
    } else {
      assert text[i] == text[i..i + 1][0];
      Turn(text, i, s);
      r := Step(text, i, s).0;
      PlainCode(a, text, i, s);
    }
  }

  lemma PlainCode(a: Atom, text: seq<Token>, i: nat, s: State)
    requires Ok(s) && i < |text| && !a.Group? && [text[i]] == AtomText(a)
    requires a.Lit? ==> NewExact(s, RepeatAt(text, i + 1))
    ensures
      var (r, j) := Step(text, i, s);
      && SameContext(s, r) && r.regnum == s.regnum && j == i + 1
      && r.buf == s.buf + AtomCode(a, s.regnum) && r.laststart == Some(|s.buf|)
      && (!a.Lit? ==> Fresh(r))
  {
  }

  lemma GroupText(alt: Alt, text: seq<Token>, i: nat)
    requires HasAt(text, i, AtomText(Group(alt)))
    ensures
      var j := i + 1 + |AltText(alt)|;
      && |AtomText(Group(alt))| == |AltText(alt)| + 2 && j < |text| && text[i] == Open && text[j] == Close
      && HasAt(text, i + 1, AltText(alt)) && !RepeatAt(text, j)
  {
    hide AltText;
    assert AtomText(Group(alt)) == [Open] + AltText(alt) + [Close];
    HasAtParts(text, i, [Open] + AltText(alt), [Close]);
    HasAtParts(text, i, [Open], AltText(alt));
    var j := i + 1 + |AltText(alt)|;
    assert text[i] == text[i..i + 1][0] && text[j] == text[j..j + 1][0];
  }

  lemma {:induction false} GroupCompiles(alt: Alt, text: seq<Token>, i: nat, s: State) returns (r: State)
    requires Ok(s) && HasAt(text, i, AtomText(Group(alt)))
    ensures Ok(r) && SameContext(s, r) && r.regnum == s.regnum + AtomGroups(Group(alt))
    ensures Run(text, i, s) == Run(text, i + |AtomText(Group(alt))|, r)
    ensures r.buf == s.buf + AtomCode(Group(alt), s.regnum) && r.laststart == Some(|s.buf|)
    ensures Fresh(r)
    decreases alt, 3
  {
    hide Run, Step, Ok, AltCode, AtomCode, AltText, AtomText, EndOfAlternatives;
    GroupText(alt, text, i);
    var j := i + 1 + |AltText(alt)|;
    Turn(text, i, s);
    var s1 := Opened(s);
    var s2 := AltCompiles(alt, text, i + 1, s1);
    Turn(text, j, s2);
    r := Closed(s2);
    GroupCode(alt, s, s2);
  }

  lemma InsertBetween(a: Bytes, b: Bytes, x: Bytes)
    ensures InsertAt(a + b, |a|, x) == a + x + b
  {
    assert (a + b)[..|a|] == a && (a + b)[|a|..] == b;
  }

  lemma StoreBetween(a: Bytes, hole: Bytes, b: Bytes, x: Bytes)
    requires |hole| == |x|
    ensures StoreAt(a + hole + b, |a|, x) == a + x + b
  {
    assert (a + hole + b)[..|a|] == a && (a + hole + b)[|a| + |x|..] == b;
  }

  lemma GroupCode(alt: Alt, s: State, s2: State)
    requires Ok(s) && Ok(s2)
    requires
      var s1 := Opened(s);
      && s2.stack == s1.stack && s2.regnum == s1.regnum + AltGroups(alt)
      && (s2.fixup.Some? <==> alt.Or?)
      && FillJump(s2.buf, s2.fixup, |s2.buf|) == s1.buf + AltCode(alt, s1.regnum)
    ensures Closed(s2).buf == s.buf + AtomCode(Group(alt), s.regnum)
  {
    hide Op1, Ok, AltCode, StoreAt, FillJump, EndOfAlternatives;
    var n := s.regnum + 1;
    var alts := AltCode(alt, n) + EndAlt(alt);
    GroupEnds(alt, s2, Opened(s).buf + AltCode(alt, n));
    assert EndOfAlternatives(s2) == Opened(s).buf + alts;
    if n <= MAX_REGNUM {
      var inner := (AltGroups(alt) % 256) as Byte;
      assert (s.buf + [START_MEMORY, n as Byte, 0] + alts)[|s.buf| + 2 := inner]
          == s.buf + [START_MEMORY, n as Byte, inner] + alts;
    }
  }

  lemma GroupEnds(alt: Alt, s2: State, code: Bytes)
    requires Ok(s2) && (s2.fixup.Some? <==> alt.Or?)
    requires FillJump(s2.buf, s2.fixup, |s2.buf|) == code
    ensures EndOfAlternatives(s2) == code + EndAlt(alt)
  {
    if alt.Or? {
      var f := s2.fixup.value;
      assert (s2.buf + [PUSH_DUMMY_FAILURE])[f + 3..] == s2.buf[f + 3..] + [PUSH_DUMMY_FAILURE];
    }
  }

  /** A repeated atom, or one that is not a literal. */
  lemma {:induction false} PieceCompiles(p: Piece, text: seq<Token>, i: nat, s: State) returns (r: State)
    requires Ok(s) && HasAt(text, i, PieceText(p)) && !RepeatAt(text, i + |PieceText(p)|)
    requires !(p.Once? && p.atom.Lit?)
    ensures Ok(r) && SameContext(s, r) && r.regnum == s.regnum + PieceGroups(p)
    ensures Run(text, i, s) == Run(text, i + |PieceText(p)|, r)
    ensures r.buf == s.buf + PieceCode(p, s.regnum)
    ensures Fresh(r)
    decreases p, 0
  {
    hide Run, Ok, Step, RepCode, AtomCode, Repeated;
    BaseIsInside(p);
    var a := Base(p);
    PieceParts(p, text, i);
    r := AtomCompiles(a, text, i, s);
    if p.Rep? {
      var s1 := r;
      OpsTurn(p, text, i + |AtomText(a)|, i + |PieceText(p)|, s1);
      r := Repeated(s1, ZeroTimesOk(p), ManyTimesOk(p));
      RepeatedCode(s, s1, AtomCode(a, s.regnum), ZeroTimesOk(p), ManyTimesOk(p));
    } else {
      assert PieceCode(p, s.regnum) == AtomCode(a, s.regnum) by { OnceCode(p, s.regnum); }
    }
  }

  lemma OnceCode(p: Piece, n: nat)
    requires p.Once?
    ensures PieceCode(p, n) == AtomCode(Base(p), n)
  {
  }

  /** The turn that reads a whole run of repetition operators. */
  lemma OpsTurn(p: Piece, text: seq<Token>, j: nat, e: nat, s: State)
    requires Ok(s) && p.Rep? && s.laststart.Some? && j < e <= |text| && !RepeatAt(text, e)
    requires forall k | j <= k < e :: text[k].Repeat?
    requires ZeroTimesOk(p) <==> AnyOther(text, j, e, Plus)
    requires ManyTimesOk(p) <==> AnyOther(text, j, e, Opt)
    ensures
      var r := Repeated(s, ZeroTimesOk(p), ManyTimesOk(p));
      Run(text, j, s) == Run(text, e, r) && SameContext(s, r) && r.regnum == s.regnum && Fresh(r)
      && r.laststart == s.laststart
  {
    Turn(text, j, s);
    RunEndIs(text, j, e);
    hide Run, Ok;
  }

  lemma RepeatedCode(s: State, s1: State, body: Bytes, zero: bool, many: bool)
    requires Ok(s) && Ok(s1) && (zero || many)
    requires s1.buf == s.buf + body && s1.laststart == Some(|s.buf|)
    ensures Repeated(s1, zero, many).buf == s.buf + RepCode(body, zero, many)
  {
    hide Op1, Ok, InsertAt;
    var back := if many then Op1(MAYBE_POP_JUMP, -(|body| + 6)) else [];
    var ofj := Op1(ON_FAILURE_JUMP, |body| + |back|);
    assert s1.buf + back == s.buf + (body + back);
    InsertBetween(s.buf, body + back, ofj);
    assert s.buf + ofj + (body + back) == s.buf + (ofj + body + back);
    var dfj := Op1(DUMMY_FAILURE_JUMP, 3);
    InsertBetween(s.buf, ofj + body + back, dfj);
    assert s.buf + dfj + (ofj + body + back) == s.buf + (dfj + ofj + body + back);
    assert s1.buf + [] == s1.buf && body + [] == body && ofj + body + [] == ofj + body;
    assert many ==> Op1(MAYBE_POP_JUMP, |s.buf| - 3 - |s1.buf| - 3) == back;
  }

  /** A piece's text is its atom's and then its run of operators, and the run's
      flags are the piece's. */
  lemma {:induction false} PieceParts(p: Piece, text: seq<Token>, i: nat)
    requires HasAt(text, i, PieceText(p))
    ensures HasAt(text, i, AtomText(Base(p))) && |AtomText(Base(p))| <= |PieceText(p)|
    ensures forall k | i + |AtomText(Base(p))| <= k < i + |PieceText(p)| :: text[k].Repeat?
    ensures p.Rep? <==> |AtomText(Base(p))| < |PieceText(p)|
    ensures
      var (j, e) := (i + |AtomText(Base(p))|, i + |PieceText(p)|);
      && (p.Rep? ==> (ZeroTimesOk(p) <==> AnyOther(text, j, e, Plus)))
      && (p.Rep? ==> (ManyTimesOk(p) <==> AnyOther(text, j, e, Opt)))
  {
    if p.Rep? {
      HasAtParts(text, i, PieceText(p.inner), [Repeat(p.op)]);
      PieceParts(p.inner, text, i);
      var j, e := i + |AtomText(Base(p))|, i + |PieceText(p)|;
      assert text[e - 1] == text[e - 1..e][0];
      OneMore(text, j, e - 1, Plus);
      OneMore(text, j, e - 1, Opt);
    }
  }

  lemma OneMore(text: seq<Token>, j: nat, e: nat, op: RepOp)
    requires j <= e < |text| && text[e].Repeat?
    ensures AnyOther(text, j, e + 1, op) <==> AnyOther(text, j, e, op) || text[e].op != op
  {
    if text[e].op != op {
      assert text[e].Repeat? && text[e].op != op;
    }
  }

  lemma {:induction false} RunEndIs(text: seq<Token>, i: nat, e: nat)
    requires i <= e <= |text| && !RepeatAt(text, e)
    requires forall k | i <= k < e :: text[k].Repeat?
    ensures RunEnd(text, i) == e
    decreases e - i
  {
    if i < e {
      RunEndIs(text, i + 1, e);
    }
  }

  /** The literals at the front of a branch make one exactn. */
  lemma {:induction false} LitsCompile(b: Branch, text: seq<Token>, i: nat, s: State) returns (r: State, j: nat)
    requires Ok(s) && HasAt(text, i, BranchText(b)) && !RepeatAt(text, i + |BranchText(b)|)
    requires StartsWithLit(b) && Fresh(s)
    ensures Ok(r) && SameContext(s, r) && r.regnum == s.regnum && i <= j <= |text|
    ensures Run(text, i, s) == Run(text, j, r)
    ensures
      var after := LitRun(b, 255).1;
      && j + |BranchText(after)| == i + |BranchText(b)| && HasAt(text, j, BranchText(after))
      && r.buf + BranchCode(after, s.regnum) == s.buf + BranchCode(b, s.regnum)
      && (StartsWithLit(after) ==> Fresh(r))
  {
    hide Run, Step, BranchCode;
    var (c, rest) := (b.first.atom.c, b.rest);
    LitText(b, text, i);
    hide HasAt, BranchText;
    Turn(text, i, s);
    r, j := LitRunCompiles(rest, 254, text, i + 1, NormalChar(s, c, false));
    LitRunCode(b, s.buf, s.regnum);
  }

  lemma {:induction false} BranchCompiles(b: Branch, text: seq<Token>, i: nat, s: State) returns (r: State)
    requires Ok(s) && HasAt(text, i, BranchText(b)) && !RepeatAt(text, i + |BranchText(b)|)
    requires StartsWithLit(b) ==> Fresh(s)
    ensures Ok(r) && SameContext(s, r) && r.regnum == s.regnum + BranchGroups(b)
    ensures Run(text, i, s) == Run(text, i + |BranchText(b)|, r)
    ensures r.buf == s.buf + BranchCode(b, s.regnum)
    decreases b, 1
  {
    hide Run, Step, Ok, PieceCode, RepCode, AtomCode;
    match b
    case End =>
      r := s;
    case Then(p, rest) =>
      HasAtParts(text, i, PieceText(p), BranchText(rest));
      NextNotRepeat(rest, text, i + |PieceText(p)|);
      if StartsWithLit(b) {
        var after := LitRun(b, 255).1;
        var s2, j := LitsCompile(b, text, i, s);
        LitRunGroups(b, 255);
        r := BranchCompiles(after, text, j, s2);
      } else {
        var s1 := PieceCompiles(p, text, i, s);
        r := BranchCompiles(rest, text, i + |PieceText(p)|, s1);
      }
  }

  lemma LitRunCode(b: Branch, buf: Bytes, n: nat)
    requires StartsWithLit(b)
    ensures
      var c := b.first.atom.c;
      var (cs, after) := LitRun(b.rest, 254);
      var begun := buf + [EXACTN, 1, c];
      begun[|buf| + 1 := begun[|buf| + 1] + |cs| as Byte] + cs + BranchCode(after, n) == buf + BranchCode(b, n)
  {
    var c := b.first.atom.c;
    var (cs, after) := LitRun(b.rest, 254);
    var begun := buf + [EXACTN, 1, c];
    assert LitRun(b, 255) == ([c] + cs, after);
    assert begun[|buf| + 1 := 1 + |cs| as Byte] == buf + [EXACTN, 1 + |cs| as Byte, c];
    assert BranchCode(b, n) == [EXACTN, 1 + |cs| as Byte] + ([c] + cs) + BranchCode(after, n);
  }

  /** All alternatives, with the hole of the one before them, if any, just
      before s.begalt. */
  lemma {:induction false} AltCompiles(alt: Alt, text: seq<Token>, i: nat, s: State) returns (r: State)
    requires Ok(s) && HasAt(text, i, AltText(alt)) && !RepeatAt(text, i + |AltText(alt)|)
    requires s.begalt == |s.buf| && s.pending == None
    requires s.fixup.Some? ==> s.fixup.value + 3 == |s.buf|
    ensures Ok(r) && r.stack == s.stack && r.regnum == s.regnum + AltGroups(alt)
    ensures Run(text, i, s) == Run(text, i + |AltText(alt)|, r)
    ensures r.fixup.Some? <==> alt.Or? || s.fixup.Some?
    ensures if alt.Or? then r.fixup.value >= |s.buf| else r.fixup == s.fixup
    ensures FillJump(r.buf, r.fixup, |r.buf|) ==
              FillJump(s.buf + AltCode(alt, s.regnum), s.fixup, |s.buf| + PastAlt(alt, s.regnum))
    decreases alt, 2
  {
    hide Run, Step, Ok, FillJump, Barred, Op1, BranchCode;
    match alt
    case Only(b) =>
      r := BranchCompiles(b, text, i, s);
    case Or(b, others) =>
      HasAtParts(text, i, BranchText(b) + [Bar], AltText(others));
      HasAtParts(text, i, BranchText(b), [Bar]);
      var j := i + |BranchText(b)|;
      assert text[j] == text[j..j + 1][0];
      var s1 := BranchCompiles(b, text, i, s);
      Turn(text, j, s1);
      var s2 := Barred(s1);
      BarCode(b, others, s, s1);
      BarContext(s1);
      r := AltCompiles(others, text, j + 1, s2);
  }

  /** The state after `|`, with its hole filled as the end of `others` will. */
  lemma {:induction false} BarCode(b: Branch, others: Alt, s: State, s1: State)
    requires Ok(s) && Ok(s1)
    requires s.begalt == |s.buf| && (s.fixup.Some? ==> s.fixup.value + 3 == |s.buf|)
    requires s1.buf == s.buf + BranchCode(b, s.regnum) && s1.begalt == s.begalt && s1.fixup == s.fixup
    ensures
      var alt := Or(b, others);
      var s2 := Barred(s1);
      var n := s.regnum + BranchGroups(b);
      && s2.begalt == |s2.buf| && s2.fixup == Some(|s2.buf| - 3) && |s2.buf| >= |s.buf| + 3
      && FillJump(s2.buf + AltCode(others, n), s2.fixup, |s2.buf| + PastAlt(others, n)) ==
           FillJump(s.buf + AltCode(alt, s.regnum), s.fixup, |s.buf| + PastAlt(alt, s.regnum))
  {
    hide Op1, Ok, InsertAt, StoreAt, BranchCode;
    var code := BranchCode(b, s.regnum);
    var n := s.regnum + BranchGroups(b);
    var tail := AltCode(others, n);
    var ofj := Op1(ON_FAILURE_JUMP, |code| + 3);
    var jpa := Op1(JUMP_PAST_ALT, PastAlt(others, n));
    InsertBetween(s.buf, code, ofj);
    var b1 := s.buf + ofj + code;
    var b2 := FillJump(b1, s.fixup, |b1|);
    StoreBetween(b2, [0, 0, 0], tail, jpa);
    FillPrefix(b1, jpa + tail, s.fixup, |b1|);
    assert AltCode(Or(b, others), s.regnum) == ofj + code + jpa + tail;
    assert s.buf + (ofj + code + jpa + tail) == b1 + (jpa + tail);
  }

  lemma BarContext(s1: State)
    requires Ok(s1)
    ensures Barred(s1).pending == None && Barred(s1).regnum == s1.regnum && Barred(s1).stack == s1.stack
  {
  }

  lemma FillPrefix(b1: Bytes, tail: Bytes, fixup: Option<nat>, to: nat)
    requires fixup.Some? ==> fixup.value + 3 <= |b1|
    ensures FillJump(b1 + tail, fixup, to) == FillJump(b1, fixup, to) + tail
  {
  }

  /** The one-pass compiler produces the recursive layout, for every pattern. */
  lemma {:induction false} CompileIsAltCode(alt: Alt)
    ensures Run(AltText(alt), 0, START) == Code(AltCode(alt, 0))
  {
    var text := AltText(alt);
    hide AltText, AltCode, PastAlt, AltGroups, FillJump;
    Whole(text);
    assert Ok(START) && START.buf == [];
    var r := AltCompiles(alt, text, 0, START);
    assert START.buf + AltCode(alt, 0) == AltCode(alt, 0);
    hide Ok;
    RunIsOver(text, r);
    NothingToFill(AltCode(alt, 0), PastAlt(alt, 0));
  }

  lemma Whole(text: seq<Token>)
    ensures HasAt(text, 0, text) && !RepeatAt(text, |text|)
  {
  }

  lemma RunIsOver(text: seq<Token>, r: State)
    requires Ok(r) && r.stack == []
    ensures Run(text, |text|, r) == Code(FillJump(r.buf, r.fixup, |r.buf|))
  {
  }

  lemma NothingToFill(code: Bytes, to: nat)
    ensures FillJump(code, None, to) == code
  {
  }
}
