/** The pattern fragment, its language, and the bytecode regex.c emits for it. */
module RegexSyntax {
  import opened Octets

  /** re_opcode_t, the commands this fragment uses. */
  const EXACTN: Byte := 2
  const ANYCHAR: Byte := 3
  const CHARSET: Byte := 4
  const CHARSET_NOT: Byte := 5
  const START_MEMORY: Byte := 6
  const STOP_MEMORY: Byte := 7
  const JUMP: Byte := 13
  const JUMP_PAST_ALT: Byte := 14
  const ON_FAILURE_JUMP: Byte := 15
  const POP_FAILURE_JUMP: Byte := 17
  const MAYBE_POP_JUMP: Byte := 18
  const DUMMY_FAILURE_JUMP: Byte := 19
  const PUSH_DUMMY_FAILURE: Byte := 20

  const MAX_REGNUM: nat := 255

  datatype RepOp = Star | Plus | Opt

  /** Abstract syntax.  A bracket lists its characters; repetition operators
      nest, as in `a*?`, which the compiler collapses. */
  datatype Atom = Lit(c: Byte) | Dot | Bracket(neg: bool, chars: Bytes) | Group(alt: Alt)
  datatype Piece = Once(atom: Atom) | Rep(inner: Piece, op: RepOp)
  datatype Branch = End | Then(first: Piece, rest: Branch)
  datatype Alt = Only(branch: Branch) | Or(left: Branch, others: Alt)

  // ---- The language of a pattern ----

  /** Does one atom match w?  `.` matches anything but NUL (RE_DOT_NEWLINE and
      RE_DOT_NOT_NULL of the POSIX syntaxes). */
  ghost predicate AtomMatches(a: Atom, w: Bytes)
    decreases a, 0, |w|
  {
    match a
    case Lit(c) => w == [c]
    case Dot => |w| == 1 && w[0] != 0
    case Bracket(neg, chars) => |w| == 1 && ((w[0] in chars) != neg)
    case Group(alt) => AltMatches(alt, w)
  }

  ghost predicate PieceMatches(p: Piece, w: Bytes)
    decreases p, 1, |w|
  {
    match p
    case Once(a) => AtomMatches(a, w)
    case Rep(q, Opt) => w == [] || PieceMatches(q, w)
    case Rep(q, Star) => Many(q, w)
    case Rep(q, Plus) => exists k | 0 <= k <= |w| :: PieceMatches(q, w[..k]) && Many(q, w[k..])
  }

  /** Zero or more words of q. */
  ghost predicate Many(q: Piece, w: Bytes)
    decreases q, 2, |w|
  {
    w == [] || exists k | 0 < k <= |w| :: PieceMatches(q, w[..k]) && Many(q, w[k..])
  }

  ghost predicate BranchMatches(b: Branch, w: Bytes)
    decreases b, 0, |w|
  {
    match b
    case End => w == []
    case Then(p, rest) => exists k | 0 <= k <= |w| :: PieceMatches(p, w[..k]) && BranchMatches(rest, w[k..])
  }

  ghost predicate AltMatches(alt: Alt, w: Bytes)
    decreases alt, 0, |w|
  {
    match alt
    case Only(b) => BranchMatches(b, w)
    case Or(b, others) => BranchMatches(b, w) || AltMatches(others, w)
  }

  // ---- Collapsing a run of repetition operators ----

  function Base(p: Piece): Atom {
    match p
    case Once(a) => a
    case Rep(q, _) => Base(q)
  }

  /** zero_times_ok and many_times_ok after the compiler's scan of the run. */
  predicate ZeroTimesOk(p: Piece) {
    p.Rep? && (p.op != Plus || ZeroTimesOk(p.inner))
  }

  predicate ManyTimesOk(p: Piece) {
    p.Rep? && (p.op != Opt || ManyTimesOk(p.inner))
  }

  ghost predicate AtomMany(a: Atom, w: Bytes)
    decreases |w|
  {
    w == [] || exists k | 0 < k <= |w| :: AtomMatches(a, w[..k]) && AtomMany(a, w[k..])
  }

  /** The language the two flags stand for. */
  ghost predicate Collapsed(a: Atom, zero: bool, many: bool, w: Bytes) {
    || (zero && w == [])
    || (if many then exists k | 0 <= k <= |w| :: AtomMatches(a, w[..k]) && AtomMany(a, w[k..])
        else AtomMatches(a, w))
  }

  lemma {:induction false} AtomManyConcat(a: Atom, u: Bytes, v: Bytes)
    requires AtomMany(a, u) && AtomMany(a, v)
    ensures AtomMany(a, u + v)
    decreases |u|
  {
    if u == [] {
      assert u + v == v;
    } else {
      var k :| 0 < k <= |u| && AtomMatches(a, u[..k]) && AtomMany(a, u[k..]);
      AtomManyConcat(a, u[k..], v);
      assert (u + v)[..k] == u[..k] && (u + v)[k..] == u[k..] + v;
    }
  }

  /** An atom followed by any number of them is any number of them. */
  lemma AtomManyStep(a: Atom, w: Bytes, k: nat)
    requires k <= |w| && AtomMatches(a, w[..k]) && AtomMany(a, w[k..])
    ensures AtomMany(a, w)
  {
    if k == 0 {
      assert w[k..] == w;
    }
  }

  lemma {:induction false} ManyIsAtomMany(q: Piece, w: Bytes)
    requires forall u: Bytes :: PieceMatches(q, u) <==> Collapsed(Base(q), ZeroTimesOk(q), ManyTimesOk(q), u)
    ensures Many(q, w) <==> AtomMany(Base(q), w)
    decreases |w|
  {
    var a := Base(q);
    if w != [] {
      if Many(q, w) {
        var k :| 0 < k <= |w| && PieceMatches(q, w[..k]) && Many(q, w[k..]);
        ManyIsAtomMany(q, w[k..]);
        var u := w[..k];
        if ManyTimesOk(q) {
          var j :| 0 <= j <= |u| && AtomMatches(a, u[..j]) && AtomMany(a, u[j..]);
          AtomManyStep(a, u, j);
        } else {
          assert u[..k] == u && u[k..] == [];
        }
        AtomManyConcat(a, u, w[k..]);
        assert u + w[k..] == w;
      }
      if AtomMany(a, w) {
        var k :| 0 < k <= |w| && AtomMatches(a, w[..k]) && AtomMany(a, w[k..]);
        ManyIsAtomMany(q, w[k..]);
        AtomIsCollapsed(a, ZeroTimesOk(q), ManyTimesOk(q), w[..k]);
      }
    }
  }

  lemma AtomIsCollapsed(a: Atom, zero: bool, many: bool, u: Bytes)
    requires AtomMatches(a, u)
    ensures Collapsed(a, zero, many, u)
  {
    assert u[..|u|] == u && u[|u|..] == [];
  }

  /** A run of repetition operators means exactly its two collapsed flags. */
  lemma {:induction false} CollapseKeepsMeaning(p: Piece, w: Bytes)
    ensures PieceMatches(p, w) <==> Collapsed(Base(p), ZeroTimesOk(p), ManyTimesOk(p), w)
    decreases p
  {
    if p.Rep? {
      var q, a := p.inner, Base(p);
      forall u: Bytes
        ensures PieceMatches(q, u) <==> Collapsed(Base(q), ZeroTimesOk(q), ManyTimesOk(q), u)
        ensures Many(q, u) <==> AtomMany(a, u)
      {
        forall v: Bytes
          ensures PieceMatches(q, v) <==> Collapsed(Base(q), ZeroTimesOk(q), ManyTimesOk(q), v)
        {
          CollapseKeepsMeaning(q, v);
        }
        ManyIsAtomMany(q, u);
      }
      match p.op
      case Opt =>
      case Star =>
        if Collapsed(a, true, true, w) && w != [] {
          var k :| 0 <= k <= |w| && AtomMatches(a, w[..k]) && AtomMany(a, w[k..]);
          AtomManyStep(a, w, k);
        }
      case Plus =>
        PlusCollapses(p, w);
    }
  }

  lemma PlusCollapses(p: Piece, w: Bytes)
    requires p.Rep? && p.op == Plus
    requires forall u: Bytes :: PieceMatches(p.inner, u) <==>
               Collapsed(Base(p), ZeroTimesOk(p.inner), ManyTimesOk(p.inner), u)
    requires forall u: Bytes :: Many(p.inner, u) <==> AtomMany(Base(p), u)
    ensures PieceMatches(p, w) <==> Collapsed(Base(p), ZeroTimesOk(p.inner), true, w)
  {
    var q, a := p.inner, Base(p);
    if PieceMatches(p, w) {
      var k :| 0 <= k <= |w| && PieceMatches(q, w[..k]) && Many(q, w[k..]);
      var u := w[..k];
      if ZeroTimesOk(q) && u == [] {
        assert w[k..] == w;
      } else if ManyTimesOk(q) {
        var j :| 0 <= j <= |u| && AtomMatches(a, u[..j]) && AtomMany(a, u[j..]);
        AtomManyConcat(a, u[j..], w[k..]);
        assert u[..j] == w[..j] && u[j..] + w[k..] == w[j..];
      }
    }
    if ZeroTimesOk(q) && w == [] {
      assert w[..0] == [] && w[0..] == [];
      assert PieceMatches(q, w[..0]) && Many(q, w[0..]);
    } else if Collapsed(a, ZeroTimesOk(q), true, w) {
      var k :| 0 <= k <= |w| && AtomMatches(a, w[..k]) && AtomMany(a, w[k..]);
      AtomIsCollapsed(a, ZeroTimesOk(q), ManyTimesOk(q), w[..k]);
    }
  }
}
