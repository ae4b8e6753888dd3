/** Which loop ends may become pop_failure_jumps, and what goes wrong with the
    others: three of the tests behind maybe_pop_jump let a needed failure point go. */
module RegexLimits {
  import opened Octets
  import opened Options
  import opened RegexSyntax
  import opened RegexEmit
  import opened RegexRun
  import opened RegexMachine
  import opened RegexTidy
  import opened RegexEnds
  import opened RegexHalts
  import opened RegexMatch

  /** The characters of the set command at p. */
  predicate InSetAt(code: Bytes, p: nat, c: Byte) {
    (c as int) < 8 * Peek(code, p + 1) as int && BitOf(MapByte(code, p, c as int / 8), c as int % 8)
  }

  /** Something follows the loop, and the loop end becomes a pop_failure_jump although
      that may need the failure point: a literal before a set that contains it, or a
      set before a literal that it contains. */
  predicate Suspect(code: Bytes, l: Loop)
    requires l.exit <= |code|
  {
    && PopAllowed(code, l.start, l.exit)
    && var p := Ahead(code, l.exit);
       && p < |code|
       && match l.atom
          case Lit(c) => code[p] == CHARSET && InSetAt(code, p, c)
          case Bracket(neg, chars) => !neg && code[p] == EXACTN && Peek(code, p + 2) in chars
          case _ => false
  }

  lemma SetDecode(code: Bytes, p: nat, neg: bool)
    requires p < |code| && Decode(code, p) != Bad && code[p] == (if neg then CHARSET_NOT else CHARSET)
    ensures Decode(code, p).OneOf? && Decode(code, p).neg == neg
    ensures forall c: Byte :: InMap(Decode(code, p).bitmap, c) <==> InSetAt(code, p, c)
  {
    hide BitOf, HasBit;
    var bitmap := Decode(code, p).bitmap;
    forall c: Byte
      ensures InMap(bitmap, c) <==> InSetAt(code, p, c)
    {
      BitOfHasBit(MapByte(code, p, c as int / 8), c as int % 8);
      if c as int < 8 * |bitmap| {
        assert bitmap[c as int / 8] == MapByte(code, p, c as int / 8);
      }
    }
  }

  lemma BitOfHasBit(x: Byte, j: nat)
    ensures BitOf(x, j) <==> HasBit(x as nat, j)
    ensures x == 0 ==> !BitOf(x, j)
  {
    ZeroHasNoBit(j);
  }

  /** The body of a loop, as maybe_pop_jump reads it. */
  predicate BodyIs(code: Bytes, a: Atom, o: nat) {
    match a
    case Lit(c) => Peek(code, o) == EXACTN && Peek(code, o + 1) == 1 && Peek(code, o + 2) == c
    case Dot => Peek(code, o) == ANYCHAR
    case Bracket(neg, chars) =>
      && Peek(code, o) == (if neg then CHARSET_NOT else CHARSET)
      && forall c: Byte :: InSetAt(code, o, c) <==> c in chars
    case Group(_) => Peek(code, o) == START_MEMORY
  }

  lemma BodyBytes(a: Atom, n: nat, code: Bytes, o: nat)
    requires At(code, o, AtomCode(a, n)) && n + AtomGroups(a) <= MAX_REGNUM
    ensures BodyIs(code, a, o)
  {
    var part := AtomCode(a, n);
    assert code[o..o + |part|] == part;
    match a
    case Lit(c) =>
      assert code[o] == part[0] && code[o + 1] == part[1] && code[o + 2] == part[2];
    case Bracket(neg, chars) =>
      hide Bitmap, Trim, Decode, BitOf, HasBit, At;
      var bitmap := Trim(Bitmap(chars));
      assert code[o] == part[0];
      DecodeSet(code, o, neg, bitmap);
      SetDecode(code, o, neg);
    case Dot =>
      assert code[o] == part[0];
    case Group(alt) =>
      assert part[0] == START_MEMORY by { hide AltCode; }
      assert code[o] == part[0];
  }

  /** The test against a literal sees every set but a full one as it is. */
  lemma NarrowMap(code: Bytes, q: nat, c: Byte)
    ensures InNarrowMap(code, q, c) ==> InSetAt(code, q, c)
    ensures InSetAt(code, q, c) && Peek(code, q + 1) < 32 ==> InNarrowMap(code, q, c)
  {
    hide BitOf;
  }

  /** Sets with a common character have bytes with a common bit. */
  lemma SetsMeet(code: Bytes, body: nat, p: nat, c: Byte)
    ensures Peek(code, body) == CHARSET && InSetAt(code, body, c) && InSetAt(code, p, c) ==> !SetAllows(code, body, p)
  {
    hide BitOf;
    if Peek(code, body) == CHARSET && InSetAt(code, body, c) && InSetAt(code, p, c) {
      var i := c as int / 8;
      assert BitOf(MapByte(code, p, i), c as int % 8) && BitOf(MapByte(code, body, i), c as int % 8);
      assert Overlap(MapByte(code, p, i), MapByte(code, body, i));
    }
  }

  lemma SetsCover(code: Bytes, body: nat, p: nat, c: Byte)
    ensures Peek(code, body) == CHARSET_NOT && SetAllows(code, body, p) && InSetAt(code, p, c) ==>
      InSetAt(code, body, c)
  {
    hide BitOf;
    if Peek(code, body) == CHARSET_NOT && SetAllows(code, body, p) && InSetAt(code, p, c) {
      var i := c as int / 8;
      BitOfHasBit(MapByte(code, p, i), c as int % 8);
      assert Covers(MapByte(code, body, i), MapByte(code, p, i));
    }
  }

  /** Where something follows, a pop is sound exactly when the loop is no suspect. */
  lemma SoundUnlessSuspect(code: Bytes, l: Loop, n: nat)
    requires Fits(code) && Start(code, |code|) && Start(code, l.exit) && Ahead(code, l.exit) < |code|
    requires l.exit == l.start + |AtomCode(l.atom, n)| + 6
    requires At(code, l.start, RepCode(AtomCode(l.atom, n), true, true)) && n + AtomGroups(l.atom) <= MAX_REGNUM
    ensures PopIsSound(code, l) <==> !Suspect(code, l)
  {
    hide Decode, Tidy, At, AtomCode, Ahead, RepCode, BitOf, LiteralAllows, SetAllows, AtomGroups, AtomLeft,
      Settled;
    LoopParts(AtomCode(l.atom, n), code, l.start);
    BodyBytes(l.atom, n, code, l.start + 3);
    RewrittenAhead(false, code, code, l.exit);
    var p := Ahead(code, l.exit);
    if PopAllowed(code, l.start, l.exit) && p < |code| {
      StartNext(code, p);
      if code[p] == EXACTN {
        LiteralFollows(code, l, p);
      } else {
        SetFollows(code, l, p);
      }
    }
  }

  lemma LiteralFollows(code: Bytes, l: Loop, p: nat)
    requires BodyIs(code, l.atom, l.start + 3) && p < |code| && code[p] == EXACTN && Decode(code, p) != Bad
    requires LiteralAllows(code, l.start + 3, p)
    ensures !l.atom.Group?
    ensures Disjoint(code, l.atom, p) <==> !(l.atom.Bracket? && !l.atom.neg && Peek(code, p + 2) in l.atom.chars)
  {
    var c := Peek(code, p + 2);
    assert Decode(code, p).Exact? && Decode(code, p).cs[0] == c;
    hide Decode, InSetAt, InNarrowMap;
    NarrowMap(code, l.start + 3, c);
    assert forall x: Byte :: StartsWith(Decode(code, p), x) <==> x == c;
    assert Disjoint(code, l.atom, p) <==> !Takes(l.atom, c);
  }

  lemma SetFollows(code: Bytes, l: Loop, p: nat)
    requires BodyIs(code, l.atom, l.start + 3) && p < |code| && code[p] == CHARSET && Decode(code, p) != Bad
    requires SetAllows(code, l.start + 3, p)
    ensures !l.atom.Group?
    ensures Disjoint(code, l.atom, p) <==> !(l.atom.Lit? && InSetAt(code, p, l.atom.c))
  {
    SetDecode(code, p, false);
    hide Decode, InSetAt, BitOf, SetAllows;
    assert forall x: Byte :: StartsWith(Decode(code, p), x) <==> InSetAt(code, p, x);
    var body := l.start + 3;
    match l.atom
    case Lit(c) =>
      assert Disjoint(code, l.atom, p) <==> !InSetAt(code, p, c) by {
        assert Takes(l.atom, c);
      }
    case Bracket(neg, chars) =>
      forall c: Byte | Takes(l.atom, c)
        ensures !InSetAt(code, p, c)
      {
        SetsCover(code, body, p, c);
        SetsMeet(code, body, p, c);
      }
    case _ =>
  }

  // ---- A loop over one character, and what follows it ----

  /** A `*` or `+` over one character at the front of a pattern, then another one. */
  function LoopFirst(a: Atom, op: RepOp, f: Atom, rest: Branch): Alt {
    Only(Then(Rep(Once(a), op), Follower(f, rest)))
  }

  function Follower(f: Atom, rest: Branch): Branch {
    Then(Once(f), rest)
  }

  function FrontLoop(a: Atom, op: RepOp): Loop {
    LoopAt(a, 0, if op == Plus then 3 else 0)
  }

  /** The pairs of neighbours on which maybe_pop_jump goes wrong: `x*[..]` where the
      set has x but not the character with the code 1, which the test looks up in its
      place; `[..]*y` where the set has y and a map of full size, whose width in bits
      does not fit the unsigned char it is cast to. */
  predicate Loses(a: Atom, f: Atom) {
    match (a, f)
    case (Lit(c), Bracket(false, chars)) => c in chars && 1 !in chars
    case (Bracket(false, chars), Lit(y)) => y in chars && exists x: Byte :: x in chars && x >= 248
    case _ => false
  }

  /** The matcher as it is in regex.c returns the longest match, on every subject. */
  ghost predicate AlwaysLongest(alt: Alt) {
    forall s: Bytes, pos: nat, end | pos <= |s| && Result(true, AltCode(alt, 0), s, pos, end) ::
      LongestMatch(alt, s, pos, Length(pos, end))
  }

  lemma {:induction false} FrontLayout(a: Atom, op: RepOp, f: Atom, rest: Branch)
    requires op != Opt && !a.Group? && Fits(AltCode(LoopFirst(a, op, f, rest), 0))
    ensures
      var (code, l) := (AltCode(LoopFirst(a, op, f, rest), 0), FrontLoop(a, op));
      && At(code, l.start, RepCode(AtomCode(a, 0), true, true)) && l.exit <= |code|
      && At(code, l.exit, BranchCode(Follower(f, rest), 0)) && l.exit + |BranchCode(Follower(f, rest), 0)| == |code|
      && (op == Plus ==> code != [] && Decode(code, 0) == DummyJump(6, 3))
      && l.atom == a && l.n == 0 && l.start == (if op == Plus then 3 else 0) && l.exit == l.start + |AtomCode(a, 0)| + 6
  {
    var (loop, next) := (Rep(Once(a), op), Follower(f, rest));
    var code, body := AltCode(LoopFirst(a, op, f, rest), 0), AtomCode(a, 0);
    hide AtomCode, RepCode, Decode, BranchLoops, At, BranchCode, PieceCode, PieceGroups;
    LoopPiece(a, op);
    ThenCode(loop, next, 0);
    RepLength(body, op == Star, true);
    CodeAtStart(code);
    AtParts(code, 0, PieceCode(loop, 0), BranchCode(next, 0));
    AtInside(code, 0, PieceCode(loop, 0));
    if op == Plus {
      PlusParts(body, code, 0);
    }
  }

  lemma LoopPiece(a: Atom, op: RepOp)
    requires op != Opt && !a.Group?
    ensures
      var loop := Rep(Once(a), op);
      PieceGroups(loop) == 0 && PieceCode(loop, 0) == RepCode(AtomCode(a, 0), op == Star, true)
  {
    var loop := Rep(Once(a), op);
    assert Base(loop) == Base(Once(a)) == a && ManyTimesOk(loop) && ZeroTimesOk(loop) == (op == Star);
    assert PieceGroups(loop) == PieceGroups(Once(a)) == 0;
    hide AtomCode, RepCode;
  }

  lemma CodeAtStart(code: Bytes)
    ensures At(code, 0, code)
  {
  }

  lemma {:induction false} FrontLoops(a: Atom, op: RepOp, f: Atom, rest: Branch)
    requires op != Opt && !a.Group?
    ensures
      var l := FrontLoop(a, op);
      AltLoops(LoopFirst(a, op, f, rest), 0, 0) == [l] + BranchLoops(Follower(f, rest), 0, l.exit)
  {
    var (loop, next) := (Rep(Once(a), op), Follower(f, rest));
    assert Base(loop) == Base(Once(a)) == a && ManyTimesOk(loop) && ZeroTimesOk(loop) == (op == Star);
    assert PieceGroups(loop) == PieceGroups(Once(a)) == 0;
    var l := FrontLoop(a, op);
    RepLength(AtomCode(a, 0), op == Star, true);
    hide AtomCode, RepCode;
    assert |PieceCode(loop, 0)| == l.exit;
    assert PieceLoops(loop, 0, 0) == [l];
    hide PieceLoops, PieceCode;
    assert BranchLoops(Then(loop, next), 0, 0) == PieceLoops(loop, 0, 0) + BranchLoops(next, 0, l.exit) by {
      assert !loop.Once?;
    }
  }

  /** What maybe_pop_jump sees behind the loop. */
  predicate FollowerIs(code: Bytes, f: Atom, p: nat) {
    && p < |code|
    && match f
       case Lit(c) => code[p] == EXACTN && Peek(code, p + 2) == c
       case Bracket(false, chars) => code[p] == CHARSET && forall c: Byte :: InSetAt(code, p, c) <==> c in chars
       case Bracket(true, _) => code[p] == CHARSET_NOT
       case Dot => code[p] == ANYCHAR
       case Group(_) => true
  }

  lemma FollowerBytes(f: Atom, rest: Branch, code: Bytes, o: nat)
    requires At(code, o, BranchCode(Follower(f, rest), 0)) && !f.Group?
    ensures FollowerIs(code, f, o) && Ahead(code, o) == o
  {
    if f.Lit? {
      hide LitRun;
      var cs := LitRun(Follower(f, rest), 255).0;
      LitRunLit(f.c, rest, 255);
      var part := BranchCode(Follower(f, rest), 0);
      assert part[0] == EXACTN && part[2] == f.c;
      assert code[o] == code[o..o + |part|][0] && code[o + 2] == code[o..o + |part|][2];
    } else {
      var p := Once(f);
      assert Base(p) == f && !ZeroTimesOk(p) && !ManyTimesOk(p) && AtomGroups(f) == 0;
      assert PieceCode(p, 0) == AtomCode(f, 0);
      hide At, AtomCode, InSetAt, Decode;
      AtParts(code, o, PieceCode(p, 0), BranchCode(rest, 0));
      BodyBytes(f, 0, code, o);
      CharDecode(f, 0, code, o);
    }
  }

  /** The suspects among these loops are the pairs that lose. */
  lemma SuspectIsLoses(a: Atom, f: Atom, code: Bytes, l: Loop)
    requires l.atom == a && !a.Group? && !f.Group? && l.exit <= |code| && At(code, l.start + 3, AtomCode(a, 0))
    requires FollowerIs(code, f, l.exit) && Ahead(code, l.exit) == l.exit
    ensures Suspect(code, l) <==> Loses(a, f)
  {
    hide At, AtomCode, InSetAt, InNarrowMap, BitOf, HasBit;
    var body, p := l.start + 3, l.exit;
    BodyBytes(a, 0, code, body);
    match (a, f)
    case (Lit(c), Bracket(false, chars)) =>
      assert PopAllowed(code, l.start, p) <==> SetAllows(code, body, p);
      CountLookedUp(code, body, p);
    case (Bracket(false, chars), Lit(y)) =>
      assert PopAllowed(code, l.start, p) <==> !InNarrowMap(code, body, y);
      if y in chars {
        FullMap(chars, code, body, y);
      }
    case _ =>
  }

  lemma CountLookedUp(code: Bytes, body: nat, p: nat)
    requires Peek(code, body) == EXACTN && Peek(code, body + 1) == 1
    ensures SetAllows(code, body, p) <==> !InSetAt(code, p, 1)
  {
    hide BitOf;
  }

  /** A set of full size is the one case in which a character of the set is not found
      in its map. */
  lemma {:induction false} FullMap(chars: Bytes, code: Bytes, body: nat, y: Byte)
    requires At(code, body, AtomCode(Bracket(false, chars), 0)) && InSetAt(code, body, y)
    requires forall c: Byte :: InSetAt(code, body, c) <==> c in chars
    ensures !InNarrowMap(code, body, y) <==> exists x: Byte :: x in chars && x >= 248
  {
    var bitmap := Trim(Bitmap(chars));
    var part := [CHARSET, |bitmap| as Byte] + bitmap;
    assert AtomCode(Bracket(false, chars), 0) == part;
    hide Bitmap, Trim, BitOf, HasBit, AtomCode;
    assert code[body..body + |part|] == part;
    assert code[body + 1] == code[body..body + |part|][1] == |bitmap| as Byte;
    NarrowMap(code, body, y);
    assert forall x: Byte | InSetAt(code, body, x) && x >= 248 :: |bitmap| == 32;
    if |bitmap| == 32 {
      TrimEnds(Bitmap(chars));
      var j := SomeBit(bitmap[31]);
      var x := (248 + j) as Byte;
      assert MapByte(code, body, 31) == code[body..body + |part|][33] == bitmap[31];
      assert InSetAt(code, body, x);
      assert x in chars;
    }
  }

  lemma {:induction false} TrimEnds(bitmap: Bytes)
    ensures Trim(bitmap) != [] ==> Trim(bitmap)[|Trim(bitmap)| - 1] != 0
  {
    hide InMap;
    if bitmap != [] && bitmap[|bitmap| - 1] == 0 {
      TrimEnds(bitmap[..|bitmap| - 1]);
    }
  }

  lemma SomeBit(x: Byte) returns (j: nat)
    requires x != 0
    ensures j < 8 && BitOf(x, j)
  {
    j := SomeBitOf(x as nat, 8);
  }

  lemma {:induction false} SomeBitOf(n: nat, k: nat) returns (j: nat)
    requires 0 < n < Pow2(k)
    ensures j < k && HasBit(n, j)
  {
    if n % 2 == 1 {
      j := 0;
    } else {
      j := SomeBitOf(n / 2, k - 1);
      j := j + 1;
    }
  }

  // ---- Such a loop that pops loses the shortest word of what follows ----

  /** No word of the branch is shorter. */
  ghost predicate IsShortest(b: Branch, w: Bytes) {
    BranchMatches(b, w) && forall v | BranchMatches(b, v) :: |w| <= |v|
  }

  lemma ShortestIs(b: Branch, w: Bytes, v: Bytes)
    requires IsShortest(b, w) && BranchMatches(b, v)
    ensures |w| <= |v|
  {
    hide BranchMatches;
  }

  lemma {:induction false} ShortestWord(b: Branch, w: Bytes) returns (v: Bytes)
    requires BranchMatches(b, w)
    ensures IsShortest(b, v)
    decreases |w|
  {
    hide BranchMatches;
    if u :| BranchMatches(b, u) && |u| < |w| {
      v := ShortestWord(b, u);
    } else {
      v := w;
    }
  }

  lemma ShortestFollower(f: Atom, c: Byte, rest: Branch, w: Bytes)
    requires !f.Group? && Takes(f, c) && IsShortest(rest, w)
    ensures IsShortest(Follower(f, rest), [c] + w)
  {
    var b, s := Follower(f, rest), [c] + w;
    hide BranchMatches, Takes, AtomMatches;
    FollowerWords(f, rest, s);
    assert s[..1] == [c] && s[1..] == w;
    CharMatches(f, [c]);
    forall v | BranchMatches(b, v)
      ensures |s| <= |v|
    {
      FollowerWords(f, rest, v);
    }
  }

  lemma FollowerWords(f: Atom, rest: Branch, v: Bytes)
    requires !f.Group?
    ensures BranchMatches(Follower(f, rest), v) <==> v != [] && AtomMatches(f, v[..1]) && BranchMatches(rest, v[1..])
  {
    hide AtomMatches;
    forall k: nat | k <= |v|
      ensures PieceMatches(Once(f), v[..k]) ==> k == 1
    {
      assert PieceMatches(Once(f), v[..k]) == AtomMatches(f, v[..k]);
      CharMatches(f, v[..k]);
    }
    if v != [] && AtomMatches(f, v[..1]) && BranchMatches(rest, v[1..]) {
      assert PieceMatches(Once(f), v[..1]);
    }
  }

  /** One pass through the loop that pops its own point, or the dummy of `+`. */
  lemma {:induction false} PassPops(a: Atom, code: Bytes, s: Bytes, l: Loop, m: Machine, p: Point)
    requires !a.Group? && l == LoopAt(a, 0, l.start) && Fits(code) &&
      At(code, l.start, RepCode(AtomCode(a, 0), true, true))
    requires Start(code, |code|) && Start(code, l.start) && Start(code, l.exit) && PopAllowed(code, l.start, l.exit)
    requires Rewritten(true, code, m.code) && m.pc == l.start + 3 && m.stack == [p] && m.d < |s| && Takes(a, s[m.d])
    ensures
      var o := Turns(true, s, Going(m), 2);
      o.Going? && o.m == Machine(o.m.code, l.start, m.d + 1, [], m.best) && Rewritten(true, code, o.m.code)
  {
    hide At, AtomCode, Decode, Tidy, RepCode, PopAllowed, Takes, Rewritten, Turns, Fail;
    var back := l.start + 3 + |AtomCode(a, 0)|;
    LoopParts(AtomCode(a, 0), code, l.start);
    StartNext(code, l.start);
    CharDecode(a, 0, code, m.pc);
    StartNext(code, m.pc);
    RewrittenSize(true, code, m.code);
    RewrittenDecode(true, code, m.code, m.pc);
    RewrittenDecode(true, code, m.code, back);
    Settles(Mode(true, false), code, m.code, back);
    TurnZero(true, s, Going(m));
    Turn(true, s, Going(m), 0);
    Turn(true, s, Going(m), 1);
    assert s[m.d..m.d + 1] == [s[m.d]];
    assert Step(true, s, m) == Going(m.(pc := back, d := m.d + 1));
  }

  /** The loop reads what it can, and leaves no failure point but its last own one. */
  lemma {:induction false} LoopEats(a: Atom, code: Bytes, s: Bytes, l: Loop, m: Machine) returns (n: nat, m1: Machine)
    requires !a.Group? && l == LoopAt(a, 0, l.start) && Fits(code) &&
      At(code, l.start, RepCode(AtomCode(a, 0), true, true))
    requires Start(code, |code|) && Start(code, l.start) && Start(code, l.exit) && PopAllowed(code, l.start, l.exit)
    requires !ResumesAtJump(code, l.exit)
    requires Rewritten(true, code, m.code) && m.pc == l.start && m.stack == [] && m.d <= |s|
    ensures Turns(true, s, Going(m), n) == Going(m1)
    ensures m1 == Machine(m1.code, l.exit, m1.d, [], m.best) && m.d <= m1.d <= |s| && Rewritten(true, code, m1.code)
    ensures m.d < |s| && Takes(a, s[m.d]) ==> m.d < m1.d
    decreases |s| - m.d
  {
    hide At, AtomCode, Decode, Tidy, RepCode, PopAllowed, Takes, Rewritten, Turns, BackToLoop;
    var own := Resume(l.exit, m.d);
    LoopParts(AtomCode(a, 0), code, l.start);
    RewrittenSize(true, code, m.code);
    RewrittenDecode(true, code, m.code, l.start);
    TurnZero(true, s, Going(m));
    Turn(true, s, Going(m), 0);
    var inside := m.(pc := l.start + 3, stack := [own]);
    assert [] + [own] == [own];
    assert Step(true, s, m) == Going(inside);
    if m.d < |s| && Takes(a, s[m.d]) {
      PassPops(a, code, s, l, inside, own);
      TurnsTwice(true, s, Going(m), 1, 2);
      var m2 := Turns(true, s, Going(m), 3).m;
      n, m1 := LoopEats(a, code, s, l, m2);
      TurnsTwice(true, s, Going(m), 3, n);
      n := 3 + n;
    } else {
      StartNext(code, l.start);
      CharDecode(a, 0, code, l.start + 3);
      RewrittenDecode(true, code, m.code, l.start + 3);
      NoLoopJump(true, code, m.code, l.exit);
      CharFails(a, code, s, m.code, l.start + 3, own);
      Turn(true, s, Going(m), 1);
      n, m1 := 2, m.(pc := l.exit);
    }
  }

  lemma CharFails(a: Atom, code: Bytes, s: Bytes, now: Bytes, pc: nat, own: Point)
    requires pc < |code| == |now| && Decode(now, pc) == Decode(code, pc) && own.Resume? && own.d <= |s|
    requires IsChar(Decode(code, pc)) && forall c :: Consumes(Decode(code, pc), c) <==> Takes(a, c)
    requires own.d == |s| || !Takes(a, s[own.d])
    requires !BackToLoop(now, own.pc)
    ensures forall best ::
      Step(true, s, Machine(now, pc, own.d, [own], best)) == Going(Machine(now, own.pc, own.d, [], best))
  {
    hide Decode, BackToLoop, Takes;
    assert own.d < |s| ==> s[own.d..own.d + 1] == [s[own.d]];
  }

  /** From behind the loop only words of the follower are read. */
  lemma {:induction false} FollowerRuns(a: Atom, op: RepOp, f: Atom, rest: Branch, s: Bytes, d: nat, e: nat)
    requires op != Opt && !a.Group? && Fits(AltCode(LoopFirst(a, op, f, rest), 0)) && d <= |s|
    requires CanEnd(AltCode(LoopFirst(a, op, f, rest), 0), s, FrontLoop(a, op).exit, d, e)
    ensures d <= e <= |s| && BranchMatches(Follower(f, rest), s[d..e])
  {
    FrontLayout(a, op, f, rest);
    hide *;
    BranchEnds(Follower(f, rest), AltCode(LoopFirst(a, op, f, rest), 0), s, FrontLoop(a, op).exit, d, e);
  }

  lemma BranchEnds(b: Branch, code: Bytes, s: Bytes, o: nat, d: nat, e: nat)
    requires Fits(code) && At(code, o, BranchCode(b, 0)) && o + |BranchCode(b, 0)| == |code|
    requires d <= |s| && CanEnd(code, s, o, d, e)
    ensures d <= e <= |s| && BranchMatches(b, s[d..e])
  {
    hide BranchCode, Accepts, At, BranchMatches;
    var k: nat :| Accepts(code, s, o, d, e, k);
    var m, k1 := BranchRuns(b, 0, code, s, o, d, e, k);
    AtTheEnd(code, s, m, e, k1);
  }

  lemma AtTheEnd(code: Bytes, s: Bytes, d: nat, e: nat, k: nat)
    requires Accepts(code, s, |code|, d, e, k)
    ensures d == e
  {
  }

  lemma {:induction false} FrontStarts(a: Atom, op: RepOp, f: Atom, rest: Branch)
    requires op != Opt && !a.Group? && !f.Group? && Fits(AltCode(LoopFirst(a, op, f, rest), 0))
    ensures
      var (code, l) := (AltCode(LoopFirst(a, op, f, rest), 0), FrontLoop(a, op));
      && Start(code, |code|) && Start(code, 0) && Start(code, l.start) && Start(code, l.exit) && l.exit < |code|
      && !ResumesAtJump(code, l.exit) && Ahead(code, l.exit) == l.exit && FollowerIs(code, f, l.exit)
  {
    var code, l := AltCode(LoopFirst(a, op, f, rest), 0), FrontLoop(a, op);
    CodeIsTidy(LoopFirst(a, op, f, rest));
    FrontLayout(a, op, f, rest);
    hide AltCode, BranchCode, RepCode, AtomCode, At, Decode, Start, Tidy, LoopFirst, FrontLoop, Follower, Ahead,
      FollowerIs,
      ResumesAtJump;
    LoopStarts(a, code, l.start, op == Plus);
    FollowerBytes(f, rest, code, l.exit);
    NoJumpFollows(f, code, l.exit);
  }

  lemma LoopStarts(a: Atom, code: Bytes, o: nat, plus: bool)
    requires Fits(code) && Start(code, |code|) && Start(code, 0) && At(code, o, RepCode(AtomCode(a, 0), true, true))
    requires o + |AtomCode(a, 0)| + 6 <= |code| && o == (if plus then 3 else 0)
    requires plus ==> code != [] && Decode(code, 0) == DummyJump(6, 3)
    ensures Start(code, o) && Start(code, o + |AtomCode(a, 0)| + 6)
  {
    hide RepCode, AtomCode, At, Decode, Tidy;
    if plus {
      StartNext(code, 0);
    }
    LoopTidy(a, 0, code, o);
    StartAfter(code, o, o + |AtomCode(a, 0)| + 6);
  }

  lemma NoJumpFollows(f: Atom, code: Bytes, p: nat)
    requires FollowerIs(code, f, p) && !f.Group?
    ensures p < |code| && !ResumesAtJump(code, p)
  {
    hide InSetAt;
  }

  /** The machine from behind the loop on finds nothing in less than a shortest word. */
  lemma {:induction false} NothingBehind(a: Atom, op: RepOp, f: Atom, rest: Branch, s: Bytes, m: Machine, w: Bytes)
    returns (n: nat)
    requires op != Opt && !a.Group? && !f.Group? && Proper(LoopFirst(a, op, f, rest))
    requires Rewritten(true, AltCode(LoopFirst(a, op, f, rest), 0), m.code)
    requires m == Machine(m.code, FrontLoop(a, op).exit, m.d, [], None) && m.d <= |s| < m.d + |w|
    requires IsShortest(Follower(f, rest), w)
    ensures Turns(true, s, Going(m), n) == Done(None)
  {
    var alt := LoopFirst(a, op, f, rest);
    assert Fits(AltCode(alt, 0));
    FrontStarts(a, op, f, rest);
    hide AltCode, Start, Rewritten, Proper, IsExact, Finishes, Turns, BranchMatches, Ahead, Decode, FollowerIs,
      ResumesAtJump,
      LoopFirst, FrontLoop, Follower, IsShortest, CanEnd;
    var code, mode, from := AltCode(alt, 0), Mode(true, false), Resume(m.pc, m.d);
    ExitFinishes(mode, a, op, f, rest, s, m.d);
    var k := BeginAt(mode, code, m.code, s, m.pc, m.d);
    var r;
    n, r := RunEnds(mode, code, s, from, m, [], k);
    if r.Some? {
      FollowerRuns(a, op, f, rest, s, m.d, r.value);
      ShortestIs(Follower(f, rest), w, s[m.d..r.value]);
      assert false;
    }
  }

  lemma {:induction false} ExitFinishes(mode: Mode, a: Atom, op: RepOp, f: Atom, rest: Branch, s: Bytes, d: nat)
    requires op != Opt && !a.Group? && !f.Group? && Proper(LoopFirst(a, op, f, rest)) && d <= |s| && !mode.exact
    ensures Finishes(mode, AltCode(LoopFirst(a, op, f, rest), 0), s, FrontLoop(a, op).exit, d, [])
  {
    var alt := LoopFirst(a, op, f, rest);
    assert Fits(AltCode(alt, 0));
    FrontLayout(a, op, f, rest);
    FrontLoops(a, op, f, rest);
    FrontStarts(a, op, f, rest);
    var code, l := AltCode(alt, 0), FrontLoop(a, op);
    assert BranchGroups(Follower(f, rest)) <= MAX_REGNUM by { FrontGroups(a, op, f, rest); }
    hide AltCode, BranchCode, RepCode, AtomCode, At, Tidy, AltLoops, BranchLoops, LoopFirst, FrontLoop, Follower,
      Ahead, FollowerIs,
      Proper, Finishes, Decode, ResumesAtJump;
    FollowerFinishes(mode, alt, l, Follower(f, rest), s, d);
  }

  lemma FrontGroups(a: Atom, op: RepOp, f: Atom, rest: Branch)
    requires !a.Group?
    ensures AltGroups(LoopFirst(a, op, f, rest)) == BranchGroups(Follower(f, rest))
  {
    assert PieceGroups(Rep(Once(a), op)) == PieceGroups(Once(a)) == 0;
  }

  lemma {:induction false} FollowerFinishes(mode: Mode, alt: Alt, l: Loop, next: Branch, s: Bytes, d: nat)
    requires Proper(alt) && d <= |s| && !mode.exact
    requires
      var code := AltCode(alt, 0);
      && At(code, l.exit, BranchCode(next, 0)) && l.exit + |BranchCode(next, 0)| == |code|
      && Start(code, |code|) && Start(code, l.exit) && BranchGroups(next) <= MAX_REGNUM
      && AltLoops(alt, 0, 0) == [l] + BranchLoops(next, 0, l.exit)
    ensures Finishes(mode, AltCode(alt, 0), s, l.exit, d, [])
  {
    var code, left := AltCode(alt, 0), BranchLeft(AltCode(alt, 0), next, 0, l.exit);
    hide AltCode, BranchCode, At, Tidy, BranchLeft, Finishes, LeftBy, PopIsSound, AtomMatches, BranchMatches;
    forall x | x in BranchLoops(next, 0, l.exit)
      ensures x in AltLoops(alt, 0, 0)
    {
    }
    forall m, extra | d <= m <= |s| && BranchMatches(next, s[d..m]) && LeftBy(code, s, left, extra, m)
      ensures Finishes(mode, code, s, |code|, m, [] + extra)
    {
      FinishesAtEnd(mode, code, s, m, [] + extra);
    }
    BranchFinishes(mode, next, 0, code, s, l.exit, d, []);
  }

  /** If the loop's end becomes a pop_failure_jump, a shortest word of what follows is
      not found behind the loop, should it start with a character of the loop; for `+`
      with one more such character in front. */
  lemma {:induction false} ShortestIsLost(a: Atom, op: RepOp, f: Atom, rest: Branch, c: Byte, w: Bytes)
    requires op != Opt && !a.Group? && !f.Group? && Proper(LoopFirst(a, op, f, rest))
    requires var l := FrontLoop(a, op); l.exit <= |AltCode(LoopFirst(a, op, f, rest), 0)|
    requires var l := FrontLoop(a, op); PopAllowed(AltCode(LoopFirst(a, op, f, rest), 0), l.start, l.exit)
    requires Takes(a, c) && w != [] && w[0] == c && IsShortest(Follower(f, rest), w)
    ensures
      var s := if op == Plus then [c] + w else w;
      && Result(true, AltCode(LoopFirst(a, op, f, rest), 0), s, 0, None)
      && AltMatches(LoopFirst(a, op, f, rest), s)
  {
    var alt, l := LoopFirst(a, op, f, rest), FrontLoop(a, op);
    var code, s := AltCode(alt, 0), if op == Plus then [c] + w else w;
    assert Fits(code);
    FrontLayout(a, op, f, rest);
    FrontStarts(a, op, f, rest);
    LoopWord(a, op, Follower(f, rest), c, w);
    assert l == FrontLoop(a, op) && l == LoopAt(a, 0, l.start);
    hide AltCode, RepCode, AtomCode, BranchCode, At, Decode, Tidy, AltLoops, BranchLoops, Proper, PopAllowed, Takes,
      Ahead,
      Rewritten, Turns, BranchMatches, AltMatches, ResumesAtJump, FollowerIs, LoopFirst, FrontLoop, Follower,
          IsShortest;
    var n1, m1 := LeavesLoop(a, op, code, s, l);
    var n2 := NothingBehind(a, op, f, rest, s, m1, w);
    TurnsTwice(true, s, Origin(code, 0), n1, n2);
    assert Turns(true, s, Origin(code, 0), n1 + n2) == Done(None);
  }

  /** From the start of the pattern to behind the loop. */
  lemma LeavesLoop(a: Atom, op: RepOp, code: Bytes, s: Bytes, l: Loop) returns (n: nat, m: Machine)
    requires op != Opt && !a.Group? && l == FrontLoop(a, op) && Fits(code)
    requires At(code, l.start, RepCode(AtomCode(a, 0), true, true))
    requires Start(code, |code|) && Start(code, 0) && Start(code, l.start) && Start(code, l.exit)
    requires PopAllowed(code, l.start, l.exit) && !ResumesAtJump(code, l.exit)
    requires op == Plus ==> code != [] && Decode(code, 0) == DummyJump(6, 3) && |s| >= 2 && Takes(a, s[1])
    requires s != [] && Takes(a, s[0])
    ensures Turns(true, s, Origin(code, 0), n) == Going(m) && Rewritten(true, code, m.code)
    ensures m == Machine(m.code, l.exit, m.d, [], None) && (if op == Plus then 1 else 0) < m.d <= |s|
  {
    hide RepCode, AtomCode, At, Decode, Tidy, PopAllowed, Takes, Rewritten, Turns, ResumesAtJump;
    var n0, m0 := EntersLoop(a, op, code, s, l);
    var n1;
    n1, m := LoopEats(a, code, s, l, m0);
    TurnsTwice(true, s, Origin(code, 0), n0, n1);
    n := n0 + n1;
  }

  /** To the front of the loop; `+` reads one character on the way. */
  lemma EntersLoop(a: Atom, op: RepOp, code: Bytes, s: Bytes, l: Loop) returns (n: nat, m: Machine)
    requires op != Opt && !a.Group? && l == FrontLoop(a, op) && Fits(code)
    requires At(code, l.start, RepCode(AtomCode(a, 0), true, true))
    requires Start(code, |code|) && Start(code, 0) && Start(code, l.start) && Start(code, l.exit)
    requires PopAllowed(code, l.start, l.exit)
    requires op == Plus ==> code != [] && Decode(code, 0) == DummyJump(6, 3) && s != [] && Takes(a, s[0])
    ensures Turns(true, s, Origin(code, 0), n) == Going(m) && Rewritten(true, code, m.code)
    ensures m == Machine(m.code, l.start, if op == Plus then 1 else 0, [], None)
  {
    hide At, AtomCode, Decode, Tidy, RepCode, PopAllowed, Takes, Rewritten, Turns, Fail;
    UnchangedIsRewritten(true, code);
    TurnZero(true, s, Origin(code, 0));
    if op == Plus {
      Turn(true, s, Origin(code, 0), 0);
      var inside := Machine(code, 6, 0, [Dummy], None);
      assert [] + [Dummy] == [Dummy];
      assert Step(true, s, Machine(code, 0, 0, [], None)) == Going(inside);
      PassPops(a, code, s, l, inside, Dummy);
      TurnsTwice(true, s, Origin(code, 0), 1, 2);
      n, m := 3, Turns(true, s, Going(inside), 2).m;
    } else {
      n, m := 0, Machine(code, 0, 0, [], None);
    }
  }

  lemma LoopWord(a: Atom, op: RepOp, next: Branch, c: Byte, w: Bytes)
    requires op != Opt && !a.Group? && Takes(a, c) && BranchMatches(next, w)
    ensures AltMatches(Only(Then(Rep(Once(a), op), next)), if op == Plus then [c] + w else w)
  {
    var loop := Rep(Once(a), op);
    CharMatches(a, [c]);
    hide AtomMatches, Takes;
    if op == Plus {
      var s, u: Bytes := [c] + w, [c];
      assert u[..1] == u && u[1..] == [];
      assert PieceMatches(Once(a), u[..1]) && Many(Once(a), u[1..]);
      assert PieceMatches(loop, u);
      assert s[..1] == u && s[1..] == w;
      assert BranchMatches(Then(loop, next), s);
    } else {
      assert w[..0] == [] && w[0..] == w;
      assert Many(Once(a), []);
      assert PieceMatches(loop, w[..0]);
      assert BranchMatches(Then(loop, next), w);
    }
  }

  // ---- Exactly when such a loop is harmless ----

  /** The loops behind the first one are sound. */
  ghost predicate OthersSound(a: Atom, op: RepOp, f: Atom, rest: Branch) {
    var code := AltCode(LoopFirst(a, op, f, rest), 0);
    forall l | l in BranchLoops(Follower(f, rest), 0, FrontLoop(a, op).exit) :: PopIsSound(code, l)
  }

  lemma SharedCharacter(a: Atom, f: Atom) returns (c: Byte)
    requires Loses(a, f)
    ensures Takes(a, c) && Takes(f, c)
  {
    c := if a.Lit? then a.c else f.c;
  }

  /** A pattern that starts with a loop over one character and another character
      behind it gets its longest match on every subject exactly if the pair is none
      of those that lose; provided its other loops are sound, and what follows has a
      word at all. */
  lemma {:induction false} LongestUnlessLoses(a: Atom, op: RepOp, f: Atom, rest: Branch, w: Bytes)
    requires op != Opt && !a.Group? && !f.Group? && Proper(LoopFirst(a, op, f, rest))
    requires OthersSound(a, op, f, rest) && BranchMatches(rest, w)
    ensures AlwaysLongest(LoopFirst(a, op, f, rest)) <==> !Loses(a, f)
  {
    FrontSuspect(a, op, f, rest);
    hide AltCode, BranchMatches, Proper, Suspect, PopIsSound, AlwaysLongest, LoopFirst, FrontLoop, OthersSound, Loses;
    if Loses(a, f) {
      LosesSome(a, op, f, rest, w);
    } else {
      SoundWithOthers(a, op, f, rest);
      SoundIsLongest(LoopFirst(a, op, f, rest));
    }
  }

  lemma SoundIsLongest(alt: Alt)
    requires Sound(alt)
    ensures AlwaysLongest(alt)
  {
    assert Proper(alt);
    hide AltCode, Proper, Sound, LongestMatch, Result;
    forall s: Bytes, pos: nat, end | pos <= |s| && Result(true, AltCode(alt, 0), s, pos, end)
      ensures LongestMatch(alt, s, pos, Length(pos, end))
    {
      ResultMatches(true, alt, s, pos, end);
    }
  }

  lemma {:induction false} LosesSome(a: Atom, op: RepOp, f: Atom, rest: Branch, w: Bytes)
    requires op != Opt && !a.Group? && !f.Group? && Proper(LoopFirst(a, op, f, rest))
    requires Loses(a, f) && BranchMatches(rest, w)
    ensures !AlwaysLongest(LoopFirst(a, op, f, rest))
  {
    FrontSuspect(a, op, f, rest);
    var c := SharedCharacter(a, f);
    hide AltCode, BranchMatches, Takes, PopAllowed, Proper, Suspect, PopIsSound, AltMatches, LoopFirst, FrontLoop,
      Loses, Follower;
    var alt := LoopFirst(a, op, f, rest);
    var v := ShortestWord(rest, w);
    ShortestFollower(f, c, rest, v);
    SuspectPops(AltCode(alt, 0), FrontLoop(a, op));
    ShortestIsLost(a, op, f, rest, c, [c] + v);
    NotLongest(alt, if op == Plus then [c] + ([c] + v) else [c] + v);
  }

  lemma NotLongest(alt: Alt, s: Bytes)
    requires Result(true, AltCode(alt, 0), s, 0, None) && AltMatches(alt, s)
    ensures !AlwaysLongest(alt)
  {
    hide AltCode, AltMatches, Result;
    assert s[0..|s|] == s;
    assert !LongestMatch(alt, s, 0, Length(0, None));
  }

  lemma SuspectPops(code: Bytes, l: Loop)
    requires l.exit <= |code| && Suspect(code, l)
    ensures PopAllowed(code, l.start, l.exit)
  {
  }

  lemma {:induction false} FrontSuspect(a: Atom, op: RepOp, f: Atom, rest: Branch)
    requires op != Opt && !a.Group? && !f.Group? && Proper(LoopFirst(a, op, f, rest))
    ensures
      var (code, l) := (AltCode(LoopFirst(a, op, f, rest), 0), FrontLoop(a, op));
      && l.exit <= |code| && (Suspect(code, l) <==> Loses(a, f)) && (PopIsSound(code, l) <==> !Suspect(code, l))
  {
    var code, l := AltCode(LoopFirst(a, op, f, rest), 0), FrontLoop(a, op);
    assert Fits(code);
    FrontLayout(a, op, f, rest);
    FrontStarts(a, op, f, rest);
    hide AltCode, BranchCode, RepCode, AtomCode, At, Decode, Tidy, AltLoops, BranchLoops, PopIsSound, Suspect,
      FollowerIs, Loses,
      Ahead, Proper;
    assert AtomGroups(a) == 0;
    LoopParts(AtomCode(a, 0), code, l.start);
    SuspectIsLoses(a, f, code, l);
    SoundUnlessSuspect(code, l, 0);
  }

  lemma SoundWithOthers(a: Atom, op: RepOp, f: Atom, rest: Branch)
    requires op != Opt && !a.Group? && Proper(LoopFirst(a, op, f, rest)) && OthersSound(a, op, f, rest)
    requires PopIsSound(AltCode(LoopFirst(a, op, f, rest), 0), FrontLoop(a, op))
    ensures Sound(LoopFirst(a, op, f, rest))
  {
    FrontLoops(a, op, f, rest);
    hide AltCode, AltLoops, BranchLoops, PopIsSound;
  }

  const A: Byte := 97
  const B: Byte := 98
  const C: Byte := 99

  /** a*[a] */
  const STAR_THEN_SET: Alt := LoopFirst(Lit(A), Star, Bracket(false, [A]), End)

  /** `a*[a]` does not match "a": the loop's end drops the failure point from which
      the set would have matched. */
  lemma StarThenSetFails()
    ensures Result(true, AltCode(STAR_THEN_SET, 0), [A], 0, None) && AltMatches(STAR_THEN_SET, [A])
  {
    PairFails(Lit(A), Bracket(false, [A]));
  }

  /** `[a\377]*a` does not match "a": the width of the set's map is 256 bits, and 0 as
      an unsigned char. */
  lemma FullSetThenLiteralFails()
    ensures
      var alt := LoopFirst(Bracket(false, [A, 255]), Star, Lit(A), End);
      Result(true, AltCode(alt, 0), [A], 0, None) && AltMatches(alt, [A])
  {
    var chars: Bytes := [A, 255];
    assert chars[1] in chars;
    PairFails(Bracket(false, chars), Lit(A));
  }

  lemma PairFails(a: Atom, f: Atom)
    requires Loses(a, f) && Takes(a, A) && Takes(f, A)
    ensures Result(true, AltCode(LoopFirst(a, Star, f, End), 0), [A], 0, None) &&
      AltMatches(LoopFirst(a, Star, f, End), [A])
  {
    var alt, l := LoopFirst(a, Star, f, End), FrontLoop(a, Star);
    PairIsProper(a, f);
    FrontSuspect(a, Star, f, End);
    hide AltCode, AltLoops, AtomCode, PopAllowed, Proper, Suspect, Takes, Result;
    SuspectPops(AltCode(alt, 0), l);
    ShortestFollower(f, A, End, []);
    assert [A] + [] == [A];
    ShortestIsLost(a, Star, f, End, A, [A]);
  }

  lemma PairIsProper(a: Atom, f: Atom)
    requires !a.Group? && !f.Group?
    ensures Proper(LoopFirst(a, Star, f, End))
  {
    var alt, next := LoopFirst(a, Star, f, End), Follower(f, End);
    var loop := Rep(Once(a), Star);
    CharMatches(a, []);
    FrontLoops(a, Star, f, End);
    FrontGroups(a, Star, f, End);
    assert Base(loop) == Base(Once(a)) == a && AtomGroups(a) == AtomGroups(f) == 0;
    assert BranchGroups(next) == 0 && PieceGroups(loop) == 0;
    assert |AtomCode(a, 0)| <= 34;
    hide AtomCode, AtomMatches;
    RepLength(AtomCode(a, 0), true, true);
    assert |PieceCode(loop, 0)| <= 40;
    PairFollower(f, FrontLoop(a, Star).exit);
    hide PieceCode, BranchLoops;
    assert AltCode(alt, 0) == PieceCode(loop, 0) + BranchCode(next, 0);
  }

  lemma PairFollower(f: Atom, o: nat)
    requires !f.Group?
    ensures BranchLoops(Follower(f, End), 0, o) == [] && |BranchCode(Follower(f, End), 0)| <= 34
  {
    var last := Once(f);
    assert BranchLoops(End, 0, o + |PieceCode(last, 0)|) == [] && BranchCode(End, 0) == [];
    if f.Lit? {
      LitRunEnds(End, 254);
      LitRunLit(f.c, End, 255);
      hide LitRun, PieceCode;
      assert BranchLoops(End, 0, o + 3) == [];
    } else {
      assert Base(last) == f && !ManyTimesOk(last) && !ZeroTimesOk(last) && AtomGroups(f) == 0;
      assert |AtomCode(f, 0)| <= 34 && AtomLoops(f, 0, o) == [];
      hide AtomCode;
      assert PieceCode(last, 0) == AtomCode(f, 0) && PieceLoops(last, 0, o) == [];
      hide PieceCode, PieceLoops;
    }
  }

  lemma OneLiteral(code: Bytes, p: nat, c: Byte)
    requires p + 2 < |code| && code[p] == EXACTN && code[p + 1] == 1 && code[p + 2] == c
    ensures Decode(code, p) == Exact([c], p + 3)
  {
    assert code[p + 2..p + 3] == [c];
  }

  /** (ab?(bc)?)* */
  const BC: Alt := Only(Then(Once(Lit(B)), Then(Once(Lit(C)), End)))

  const GROUP_BODY: Branch :=
    Then(Once(Lit(A)), Then(Rep(Once(Lit(B)), Opt), Then(Rep(Once(Group(BC)), Opt), End)))

  const GROUP_AT_END: Alt := Only(Then(Rep(Once(Group(Only(GROUP_BODY))), Star), End))

  const PAIR_CODE: Bytes := [ON_FAILURE_JUMP, 10, 0, START_MEMORY, 2, 0, EXACTN, 2, B, C, STOP_MEMORY, 2, 0]

  const GROUP_BODY_CODE: Bytes := [EXACTN, 1, A] + ([ON_FAILURE_JUMP, 3, 0, EXACTN, 1, B] + PAIR_CODE)

  const GROUP_CODE: Bytes :=
    [ON_FAILURE_JUMP, 31, 0] + ([START_MEMORY, 1, 1] + GROUP_BODY_CODE + [STOP_MEMORY, 1, 1]) + [MAYBE_POP_JUMP, 222,
        255]

  lemma LitRunLit(c: Byte, rest: Branch, room: nat)
    requires room > 0
    ensures LitRun(Then(Once(Lit(c)), rest), room) == ([c] + LitRun(rest, room - 1).0, LitRun(rest, room - 1).1)
  {
  }

  lemma LitRunEnds(b: Branch, room: nat)
    requires b.Then? ==> b.first.Rep?
    ensures LitRun(b, room) == ([], b)
  {
  }

  lemma PairCode()
    ensures PieceCode(Rep(Once(Group(BC)), Opt), 1) == PAIR_CODE
    ensures PieceGroups(Rep(Once(Group(BC)), Opt)) == 1
  {
    var lits := Then(Once(Lit(B)), Then(Once(Lit(C)), End));
    LitRunEnds(End, 253);
    LitRunLit(C, End, 254);
    LitRunLit(B, lits.rest, 255);
    assert BranchCode(lits, 2) == [EXACTN, 2, B, C] by { assert BranchCode(End, 2) == []; }
    assert AltGroups(BC) == 0 by { assert BranchGroups(lits.rest) == 0; }
    hide BranchCode, LitRun;
    assert AltCode(BC, 2) == BranchCode(lits, 2);
    assert AtomCode(Group(BC), 1) == PAIR_CODE[3..];
    OptOf(Group(BC), 1);
  }

  lemma OptOf(a: Atom, n: nat)
    ensures PieceCode(Rep(Once(a), Opt), n) == RepCode(AtomCode(a, n), true, false)
    ensures PieceGroups(Rep(Once(a), Opt)) == AtomGroups(a)
  {
    hide AtomCode, RepCode;
    var p := Rep(Once(a), Opt);
    assert Base(Once(a)) == a && !ManyTimesOk(Once(a));
    assert Base(p) == a && ZeroTimesOk(p) && !ManyTimesOk(p);
  }

  lemma ThenCode(p: Piece, rest: Branch, n: nat)
    requires p.Rep?
    ensures BranchCode(Then(p, rest), n) == PieceCode(p, n) + BranchCode(rest, n + PieceGroups(p))
    ensures BranchGroups(Then(p, rest)) == PieceGroups(p) + BranchGroups(rest)
  {
    hide PieceCode;
  }

  lemma LitCode(c: Byte, rest: Branch, n: nat)
    requires rest.Then? && rest.first.Rep?
    ensures BranchCode(Then(Once(Lit(c)), rest), n) == [EXACTN, 1, c] + BranchCode(rest, n)
    ensures BranchGroups(Then(Once(Lit(c)), rest)) == BranchGroups(rest)
  {
    hide LitRun, PieceCode;
    LitRunEnds(rest, 254);
    LitRunLit(c, rest, 255);
    assert PieceGroups(Once(Lit(c))) == AtomGroups(Lit(c)) == 0;
    assert BranchCode(Then(Once(Lit(c)), rest), n) == [EXACTN, 1] + [c] + BranchCode(rest, n);
  }

  lemma ThreeParts(c: Byte, p: Piece, q: Piece, n: nat)
    requires p.Rep? && q.Rep? && PieceGroups(p) == 0
    ensures
      var b := Then(Once(Lit(c)), Then(p, Then(q, End)));
      && BranchCode(b, n) == [EXACTN, 1, c] + (PieceCode(p, n) + PieceCode(q, n))
      && BranchGroups(b) == PieceGroups(q)
  {
    hide PieceCode, BranchCode, BranchGroups, PieceGroups;
    EmptyCode(n + PieceGroups(q));
    ThenCode(q, End, n);
    ThenCode(p, Then(q, End), n);
    LitCode(c, Then(p, Then(q, End)), n);
    assert PieceCode(q, n) + [] == PieceCode(q, n);
  }

  lemma GroupBodyCode()
    ensures BranchCode(GROUP_BODY, 1) == GROUP_BODY_CODE && BranchGroups(GROUP_BODY) == 1
  {
    hide PieceCode, BranchCode, BranchGroups, PieceGroups;
    PairCode();
    OptLitCode();
    ThreeParts(A, Rep(Once(Lit(B)), Opt), Rep(Once(Group(BC)), Opt), 1);
  }

  lemma OptLitCode()
    ensures PieceCode(Rep(Once(Lit(B)), Opt), 1) == [ON_FAILURE_JUMP, 3, 0, EXACTN, 1, B]
    ensures PieceGroups(Rep(Once(Lit(B)), Opt)) == 0
  {
    OptOf(Lit(B), 1);
    assert AtomCode(Lit(B), 1) == [EXACTN, 1, B];
    hide PieceCode, PieceGroups;
  }

  lemma EmptyCode(n: nat)
    ensures BranchGroups(End) == 0 && BranchCode(End, n) == []
  {
  }

  lemma GroupCode()
    ensures AltCode(GROUP_AT_END, 0) == GROUP_CODE
  {
    hide BranchCode, BranchGroups, AtomCode;
    GroupBodyCode();
    GroupOf(GROUP_BODY, 0);
    StarOf(Group(Only(GROUP_BODY)), 0);
  }

  lemma GroupOf(b: Branch, n: nat)
    requires n < MAX_REGNUM
    ensures
      var inner := (BranchGroups(b) % 256) as Byte;
      AtomCode(Group(Only(b)), n)
        == [START_MEMORY, (n + 1) as Byte, inner] + BranchCode(b, n + 1) + [STOP_MEMORY, (n + 1) as Byte, inner]
  {
    hide BranchCode;
    assert AltCode(Only(b), n + 1) + [] == BranchCode(b, n + 1);
  }

  lemma StarOf(a: Atom, n: nat)
    ensures BranchCode(Then(Rep(Once(a), Star), End), n) == RepCode(AtomCode(a, n), true, true)
  {
    var star := Rep(Once(a), Star);
    assert Base(star) == a && ZeroTimesOk(star) && ManyTimesOk(star);
    hide AtomCode, RepCode;
    assert PieceCode(star, n) == RepCode(AtomCode(a, n), true, true);
    assert BranchCode(End, n + PieceGroups(star)) == [];
  }

  /** GROUP_CODE, as the machine reads it, but for its last jump. */
  predicate GroupFacts(code: Bytes) {
    && |code| == 34
    && Decode(code, 0) == OnFailure(34, 3) && Decode(code, 3) == Memory(6) && Decode(code, 6) == Exact([A], 9)
    && Decode(code, 9) == OnFailure(15, 12) && Decode(code, 12) == Exact([B], 15)
    && Decode(code, 15) == OnFailure(28, 18) && Decode(code, 18) == Memory(21)
    && Decode(code, 21) == Exact([B, C], 25) && Decode(code, 28) == Memory(31)
    && !BackToLoop(code, 28) && !BackToLoop(code, 34)
  }

  lemma GroupDecode(x: Byte)
    ensures GroupFacts(GROUP_CODE[31 := x])
  {
    var code := GROUP_CODE[31 := x];
    OneLiteral(code, 6, A);
    OneLiteral(code, 12, B);
    assert code[23..25] == [B, C];
  }

  const ABC: Bytes := [A, B, C]

  lemma GroupStarts(code: Bytes)
    requires GroupFacts(code)
    ensures Turns(true, ABC, Going(Machine(code, 0, 0, [], None)),
      5) == Going(Machine(code, 15, 2, [Resume(34, 0), Resume(15, 1)], None))
  {
    hide Decode, Turns, BackToLoop, PopAllowed, Fail;
    var st1, st2 := [Resume(34, 0)], [Resume(34, 0), Resume(15, 1)];
    var o := Going(Machine(code, 0, 0, [], None));
    TurnZero(true, ABC, o);
    Turn(true, ABC, o, 0);
    assert Step(true, ABC, Machine(code, 0, 0, [], None)) == Going(Machine(code, 3, 0, st1, None));
    Turn(true, ABC, o, 1);
    Turn(true, ABC, o, 2);
    assert ABC[0..1] == [A] && ABC[1..2] == [B];
    assert Step(true, ABC, Machine(code, 6, 0, st1, None)) == Going(Machine(code, 9, 1, st1, None));
    Turn(true, ABC, o, 3);
    assert Step(true, ABC, Machine(code, 9, 1, st1, None)) == Going(Machine(code, 12, 1, st2, None));
    Turn(true, ABC, o, 4);
  }

  lemma GroupPops(code: Bytes)
    requires GroupFacts(code) && Decode(code, 31) == Jump(MAYBE_POP_JUMP, 0, 34)
    ensures Turns(true, ABC, Going(Machine(code, 15, 2, [Resume(34, 0), Resume(15, 1)], None)), 5)
         == Going(Machine(code[31 := POP_FAILURE_JUMP], 0, 2, [Resume(34, 0)], None))
  {
    assert PopAllowed(code, 0, 34);
    hide Decode, Turns, BackToLoop, PopAllowed;
    var st2, st3 := [Resume(34, 0), Resume(15, 1)], [Resume(34, 0), Resume(15, 1), Resume(28, 2)];
    var o := Going(Machine(code, 15, 2, st2, None));
    TurnZero(true, ABC, o);
    Turn(true, ABC, o, 0);
    assert Step(true, ABC, Machine(code, 15, 2, st2, None)) == Going(Machine(code, 18, 2, st3, None));
    Turn(true, ABC, o, 1);
    Turn(true, ABC, o, 2);
    assert Step(true, ABC, Machine(code, 21, 2, st3, None)) == Going(Machine(code, 28, 2, st2, None)) by {
      assert st3[..2] == st2;
    }
    Turn(true, ABC, o, 3);
    Turn(true, ABC, o, 4);
    assert Drop(st2) == [Resume(34, 0)];
  }

  lemma GroupEnds(code: Bytes)
    requires GroupFacts(code)
    ensures Turns(true, ABC, Going(Machine(code, 0, 2, [Resume(34, 0)], None)), 5) == Done(Some(2))
  {
    hide Decode, Turns, BackToLoop;
    var st1, st2 := [Resume(34, 0)], [Resume(34, 0), Resume(34, 2)];
    var o := Going(Machine(code, 0, 2, st1, None));
    TurnZero(true, ABC, o);
    Turn(true, ABC, o, 0);
    assert Step(true, ABC, Machine(code, 0, 2, st1, None)) == Going(Machine(code, 3, 2, st2, None));
    Turn(true, ABC, o, 1);
    Turn(true, ABC, o, 2);
    assert ABC[2..3][0] == C;
    assert Step(true, ABC, Machine(code, 6, 2, st2, None)) == Going(Machine(code, 34, 2, st1, None)) by {
      assert st2[..1] == st1;
    }
    Turn(true, ABC, o, 3);
    assert Step(true, ABC, Machine(code, 34, 2, st1, None)) == Going(Machine(code, 34, 0, [], Some(2)));
    Turn(true, ABC, o, 4);
  }

  /** `(ab?(bc)?)*` matches only two characters of "abc": at the end of the pattern
      the loop's end drops the failure point that the inner `b?` has left. */
  lemma GroupAtEndFails()
    ensures Result(true, AltCode(GROUP_AT_END, 0), ABC, 0, Some(2)) && AltMatches(GROUP_AT_END, ABC)
  {
    hide Turns, AltMatches, AltCode, GroupFacts, Step;
    GroupCode();
    GroupDecode(MAYBE_POP_JUMP);
    GroupDecode(POP_FAILURE_JUMP);
    var code := GROUP_CODE;
    assert code[31 := MAYBE_POP_JUMP] == code;
    assert Decode(code, 31) == Jump(MAYBE_POP_JUMP, 0, 34);
    hide Decode;
    GroupStarts(code);
    GroupPops(code);
    GroupEnds(code[31 := POP_FAILURE_JUMP]);
    var o := Origin(code, 0);
    TurnsTwice(true, ABC, o, 5, 5);
    TurnsTwice(true, ABC, o, 10, 5);
    GroupAtEndMatches();
  }

  lemma GroupAtEndMatches()
    ensures AltMatches(GROUP_AT_END, ABC)
  {
    var w := ABC;
    var (opt, pair) := (Rep(Once(Lit(B)), Opt), Rep(Once(Group(BC)), Opt));
    var bc: Bytes := [B, C];
    assert w[..3] == w && w[3..] == [] && w[..1] == [A] && w[1..] == bc;
    assert bc[..0] == [] && bc[0..] == bc && bc[..1] == [B] && bc[1..] == [C] && bc[..2] == bc && bc[2..] == [];
    LitFirst(BC.branch.rest, [C]);
    LitFirst(BC.branch, bc);
    assert [C][1..] == [];
    assert BranchMatches(BC.branch, bc);
    assert PieceMatches(pair, bc) by { assert AtomMatches(Group(BC), bc); }
    assert BranchMatches(GROUP_BODY.rest.rest, bc) by { assert BranchMatches(End, bc[2..]); }
    assert BranchMatches(GROUP_BODY.rest, bc) by { assert PieceMatches(opt, bc[..0]); }
    LitFirst(GROUP_BODY, w);
    hide BranchMatches;
    StarOnce(Group(Only(GROUP_BODY)), w);
  }

  lemma StarOnce(a: Atom, w: Bytes)
    requires w != [] && AtomMatches(a, w)
    ensures BranchMatches(Then(Rep(Once(a), Star), End), w)
  {
    hide AtomMatches;
    var (loop, n) := (Rep(Once(a), Star), |w|);
    assert w[..n] == w && w[n..] == [];
    assert PieceMatches(Once(a), w[..n]) && Many(Once(a), w[n..]);
    assert PieceMatches(loop, w[..n]);
    assert BranchMatches(End, w[n..]);
  }

  // ---- Repeated groups at the end of a pattern that lose nothing ----

  /** (xy?)* */
  function OptTail(x: Byte, y: Byte): Alt {
    Only(Then(Rep(Once(Group(Only(OptTailBody(x, y)))), Star), End))
  }

  function OptTailBody(x: Byte, y: Byte): Branch {
    Then(Once(Lit(x)), Then(Rep(Once(Lit(y)), Opt), End))
  }

  function OptTailCode(x: Byte, y: Byte): Bytes {
    [ON_FAILURE_JUMP, 18, 0, START_MEMORY, 1, 0, EXACTN, 1, x, ON_FAILURE_JUMP, 3, 0, EXACTN, 1, y, STOP_MEMORY, 1, 0,
     MAYBE_POP_JUMP, 235, 255]
  }

  lemma {:induction false} OptTailCompiles(x: Byte, y: Byte)
    ensures AltCode(OptTail(x, y), 0) == OptTailCode(x, y) && AltGroups(OptTail(x, y)) == 1
  {
    var body := OptTailBody(x, y);
    OptTailBodyCompiles(x, y);
    GroupsOfStar(body);
    hide BranchCode, BranchGroups, PieceCode, AtomCode, PieceGroups;
    GroupOf(body, 0);
    StarOf(Group(Only(body)), 0);
    EmptyCode(1);
    ThenCode(Rep(Once(Group(Only(body))), Star), End, 0);
  }

  lemma OptTailBodyCompiles(x: Byte, y: Byte)
    ensures
      var body := OptTailBody(x, y);
      && BranchCode(body, 1) == [EXACTN, 1, x, ON_FAILURE_JUMP, 3, 0, EXACTN, 1, y] && BranchGroups(body) == 0
  {
    var opt := Rep(Once(Lit(y)), Opt);
    OptOf(Lit(y), 1);
    assert AtomCode(Lit(y), 1) == [EXACTN, 1, y];
    assert PieceGroups(opt) == 0;
    hide PieceCode, AtomCode, PieceGroups, BranchCode, BranchGroups;
    EmptyCode(1);
    ThenCode(opt, End, 1);
    LitCode(x, Then(opt, End), 1);
  }

  lemma GroupsOfStar(body: Branch)
    ensures PieceGroups(Rep(Once(Group(Only(body))), Star)) == 1 + BranchGroups(body)
  {
    hide BranchGroups;
    var group := Group(Only(body));
    assert PieceGroups(Once(group)) == AtomGroups(group) == 1 + AltGroups(Only(body));
  }

  /** Where the group would be left, only x can come. */
  lemma {:induction false} OptTailApart(x: Byte, y: Byte)
    requires x != y
    ensures FirstApart(OptTailCode(x, y), Lit(y), 15)
  {
    var code := OptTailCode(x, y);
    assert Decode(code, 15) == Memory(18) && Decode(code, 18) == Jump(MAYBE_POP_JUMP, 0, 21) &&
      Decode(code, 0) == OnFailure(21, 3);
    assert Decode(code, 3) == Memory(6);
    OneLiteral(code, 6, x);
    hide Decode;
    forall s: Bytes, d: nat, e: nat | d < |s| && s[d] == y && d < e
      ensures !CanEnd(code, s, 15, d, e)
    {
      CanEndStep(code, s, 15, d, e);
      CanEndStep(code, s, 18, d, e);
      CanEndStep(code, s, 0, d, e);
      CanEndStep(code, s, 3, d, e);
      CanEndStep(code, s, 6, d, e);
      assert !CanEnd(code, s, 6, d, e) by { assert s[d..d + 1][0] == y; }
      EndsHere(code, s, d, e);
    }
    hide CanEnd;
    assert !CanBegin(code, 15, y);
  }

  lemma EndsHere(code: Bytes, s: Bytes, d: nat, e: nat)
    ensures CanEnd(code, s, |code|, d, e) ==> d == e
  {
  }

  lemma OptTailLoops(x: Byte, y: Byte)
    ensures AltLoops(OptTail(x, y), 0, 0) == [Loop(Group(Only(OptTailBody(x, y))), 0, 0, 21)]
    ensures
      AtomLeft(OptTailCode(x, y), Group(Only(OptTailBody(x, y))), 0, 3).tame <==>
          FirstApart(OptTailCode(x, y), Lit(y), 15)
  {
    OptTailCompiles(x, y);
    var (opt, body) := (Rep(Once(Lit(y)), Opt), OptTailBody(x, y));
    var (group, star) := (Group(Only(body)), Rep(Once(Group(Only(body))), Star));
    LitRunEnds(Then(opt, End), 254);
    LitRunLit(x, Then(opt, End), 255);
    assert Base(Once(Lit(y))) == Lit(y) && !ManyTimesOk(Once(Lit(y)));
    assert Base(opt) == Lit(y) && ZeroTimesOk(opt) && !ManyTimesOk(opt) && PieceLoops(opt, 1, 9) == [];
    var code := OptTailCode(x, y);
    assert AtomCode(Lit(y), 1) == [EXACTN, 1, y];
    OptTailLeft(x, y, code);
    hide FirstApart, AtomCode, LitRun, PieceCode;
    assert BranchLoops(End, 1, 9 + |PieceCode(opt, 1)|) == [];
    assert BranchLoops(Then(opt, End), 1, 9) == [];
    assert BranchLoops(body, 1, 6) == [];
    assert AtomLoops(group, 0, 3) == [];
    assert Base(Once(group)) == group;
    assert Base(star) == group && ZeroTimesOk(star) && ManyTimesOk(star);
    StarOf(group, 0);
    assert AltCode(OptTail(x, y), 0) == RepCode(AtomCode(group, 0), true, true);
    RepLength(AtomCode(group, 0), true, true);
    assert PieceLoops(star, 0, 0) == [Loop(group, 0, 0, 21)];
    hide PieceLoops;
    assert BranchLoops(End, 0 + PieceGroups(star), |PieceCode(star, 0)|) == [];
  }

  lemma OptTailLeft(x: Byte, y: Byte, code: Bytes)
    ensures AtomLeft(code, Group(Only(OptTailBody(x, y))), 0, 3).tame <==> FirstApart(code, Lit(y), 15)
  {
    var (opt, body) := (Rep(Once(Lit(y)), Opt), OptTailBody(x, y));
    LitRunEnds(Then(opt, End), 254);
    LitRunLit(x, Then(opt, End), 255);
    assert Base(Once(Lit(y))) == Lit(y) && !ManyTimesOk(Once(Lit(y)));
    assert Base(opt) == Lit(y) && ZeroTimesOk(opt) && !ManyTimesOk(opt);
    assert |AtomCode(Lit(y), 1)| == 3 && AtomLeft(code, Lit(y), 1, 12) == NOTHING;
    hide FirstApart, LitRun, AtomCode, PieceCode;
    assert PieceLeft(code, opt, 1, 9).tame <==> FirstApart(code, Lit(y), 15);
    assert BranchLeft(code, End, 1, 9 + |PieceCode(opt, 1)|) == NOTHING;
    assert BranchLeft(code, Then(opt, End), 1, 9).tame <==> FirstApart(code, Lit(y), 15);
    assert BranchLeft(code, body, 1, 6) == BranchLeft(code, Then(opt, End), 1, 9);
  }

  /** `(xy?)*` is sound for any two characters: the point that `y?` leaves on top when
      the loop's end pops it leads nowhere. */
  lemma OptTailIsSound(x: Byte, y: Byte)
    requires x != y
    ensures Sound(OptTail(x, y))
  {
    var group := Group(Only(OptTailBody(x, y)));
    OptTailCompiles(x, y);
    OptTailLoops(x, y);
    OptTailApart(x, y);
    assert !AtomMatches(group, []) by { LitFirst(OptTailBody(x, y), []); }
    var code := OptTailCode(x, y);
    assert Ahead(code, 21) == 21 && |code| == 21;
    hide FirstApart, AltLoops, AltCode, AtomMatches, AtomLeft, OptTailCode, PopAllowed;
    assert PopIsSound(code, Loop(group, 0, 0, 21));
  }
}
