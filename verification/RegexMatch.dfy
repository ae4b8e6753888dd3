/** The longest match: what every turn of the machine keeps, and the matcher that
    runs over the pattern buffer and rewrites it. */
module RegexMatch {
  import opened Octets
  import opened Options
  import opened RegexSyntax
  import opened RegexEmit
  import opened RegexRun
  import opened RegexMachine
  import opened RegexTidy
  import opened RegexEnds
  import opened RegexHalts

  // ---- What the machine can still deliver ----

  ghost predicate PointEnds(code: Bytes, s: Bytes, p: Point, e: nat) {
    p.Resume? && CanEnd(code, s, p.pc, p.d, e)
  }

  /** e is the best end so far, or can be reached from one of the points. */
  ghost predicate Offers(code: Bytes, s: Bytes, ps: seq<Point>, best: Option<nat>, e: nat) {
    best == Some(e) || exists p | p in ps :: PointEnds(code, s, p, e)
  }

  /** Some end is offered that is at least e. */
  ghost predicate Reaches(code: Bytes, s: Bytes, ps: seq<Point>, best: Option<nat>, e: nat) {
    exists e1: nat :: e <= e1 && Offers(code, s, ps, best, e1)
  }

  /** The second choice of points offers no new ends; and if that matters, for every
      end of the first choice it offers one that is as far. */
  ghost predicate AsGood(exact: bool, code: Bytes, s: Bytes, ps: seq<Point>, best: Option<nat>, ps1: seq<Point>,
      best1: Option<nat>) {
    && (forall e: nat | Offers(code, s, ps1, best1, e) :: Offers(code, s, ps, best, e))
    && (exact ==> forall e: nat | Offers(code, s, ps, best, e) :: Reaches(code, s, ps1, best1, e))
  }

  lemma AsGoodTwice(exact: bool, code: Bytes, s: Bytes, ps: seq<Point>, best: Option<nat>, ps1: seq<Point>,
      best1: Option<nat>,
      ps2: seq<Point>, best2: Option<nat>)
    requires AsGood(exact, code, s, ps, best, ps1, best1) && AsGood(exact, code, s, ps1, best1, ps2, best2)
    ensures AsGood(exact, code, s, ps, best, ps2, best2)
  {
    hide Offers, Reaches;
    if exact {
      forall e: nat | Offers(code, s, ps, best, e)
        ensures Reaches(code, s, ps2, best2, e)
      {
        ReachesOn(code, s, ps1, best1, ps2, best2, e);
      }
    }
  }

  lemma ReachesOn(code: Bytes, s: Bytes, ps: seq<Point>, best: Option<nat>, ps1: seq<Point>, best1: Option<nat>, e: nat)
    requires Reaches(code, s, ps, best, e)
    requires AsGood(true, code, s, ps, best, ps1, best1)
    ensures Reaches(code, s, ps1, best1, e)
  {
    hide Offers;
    var e1: nat :| e <= e1 && Offers(code, s, ps, best, e1);
    assert Reaches(code, s, ps1, best1, e1);
    var e2: nat :| e1 <= e2 && Offers(code, s, ps1, best1, e2);
  }

  lemma ReachesSelf(code: Bytes, s: Bytes, ps: seq<Point>, best: Option<nat>, e: nat)
    requires Offers(code, s, ps, best, e)
    ensures Reaches(code, s, ps, best, e)
  {
  }

  lemma OffersLast(code: Bytes, s: Bytes, ps: seq<Point>, p: Point, best: Option<nat>, e: nat)
    ensures Offers(code, s, ps + [p], best, e) <==> Offers(code, s, ps, best, e) || PointEnds(code, s, p, e)
  {
    hide PointEnds;
    assert p in ps + [p];
    assert forall q | q in ps :: q in ps + [p];
  }

  /** Points that together offer what one offered may replace it. */
  lemma Replaced(exact: bool, code: Bytes, s: Bytes, ps: seq<Point>, p: Point, p1: Point, p2: Point, best: Option<nat>)
    requires forall e: nat :: PointEnds(code, s, p, e) <==> PointEnds(code, s, p1, e) || PointEnds(code, s, p2, e)
    ensures AsGood(exact, code, s, ps + [p], best, ps + [p1] + [p2], best)
  {
    hide PointEnds, Offers;
    forall e: nat
      ensures Offers(code, s, ps + [p], best, e) <==> Offers(code, s, ps + [p1] + [p2], best, e)
    {
      OffersLast(code, s, ps, p, best, e);
      OffersLast(code, s, ps, p1, best, e);
      OffersLast(code, s, ps + [p1], p2, best, e);
    }
  }

  lemma Moved(exact: bool, code: Bytes, s: Bytes, ps: seq<Point>, p: Point, p1: Point, best: Option<nat>)
    requires forall e: nat :: PointEnds(code, s, p, e) <==> PointEnds(code, s, p1, e)
    ensures AsGood(exact, code, s, ps + [p], best, ps + [p1], best)
  {
    hide PointEnds, Offers;
    forall e: nat
      ensures Offers(code, s, ps + [p], best, e) <==> Offers(code, s, ps + [p1], best, e)
    {
      OffersLast(code, s, ps, p, best, e);
      OffersLast(code, s, ps, p1, best, e);
    }
  }

  lemma Dropped(exact: bool, code: Bytes, s: Bytes, ps: seq<Point>, p: Point, best: Option<nat>)
    requires forall e: nat :: !PointEnds(code, s, p, e)
    ensures AsGood(exact, code, s, ps + [p], best, ps, best)
  {
    hide PointEnds, Offers;
    forall e: nat
      ensures Offers(code, s, ps + [p], best, e) <==> Offers(code, s, ps, best, e)
    {
      OffersLast(code, s, ps, p, best, e);
    }
  }

  /** A point below the current one may go if it is harmless, or if fewer ends will
      do. */
  lemma Undercut(exact: bool, code: Bytes, s: Bytes, ps: seq<Point>, p: Point, pc: nat, d: nat, best: Option<nat>)
    requires exact ==> Harmless(code, s, p, pc, d)
    ensures AsGood(exact, code, s, ps + [p] + [Resume(pc, d)], best, ps + [Resume(pc, d)], best)
  {
    hide Offers, CanEnd;
    var q := Resume(pc, d);
    forall e: nat
      ensures Offers(code, s, ps + [q], best, e) ==> Offers(code, s, ps + [p] + [q], best, e)
      ensures exact && Offers(code, s, ps + [p] + [q], best, e) ==> Reaches(code, s, ps + [q], best, e)
    {
      OffersLast(code, s, ps, q, best, e);
      OffersLast(code, s, ps, p, best, e);
      OffersLast(code, s, ps + [p], q, best, e);
      if exact && p.Resume? && CanEnd(code, s, p.pc, p.d, e) {
        var e1: nat :| e <= e1 && CanEnd(code, s, pc, d, e1);
        OffersLast(code, s, ps, q, best, e1);
      }
    }
  }

  /** At the end of the pattern the current point offers d itself. */
  lemma Collected(exact: bool, code: Bytes, s: Bytes, ps: seq<Point>, d: nat, best: Option<nat>)
    ensures AsGood(exact, code, s, ps + [Resume(|code|, d)], best, ps, Better(best, d))
  {
    var q := Resume(|code|, d);
    assert Accepts(code, s, |code|, d, d, 0);
    forall e: nat
      ensures PointEnds(code, s, q, e) <==> e == d
    {
    }
    hide PointEnds, CanEnd;
    forall e: nat
      ensures Offers(code, s, ps, Better(best, d), e) ==> Offers(code, s, ps + [q], best, e)
      ensures Offers(code, s, ps + [q], best, e) ==> Reaches(code, s, ps, Better(best, d), e)
    {
      OffersLast(code, s, ps, q, best, e);
      if Offers(code, s, ps + [q], best, e) && !Offers(code, s, ps, Better(best, d), e) {
        var e1 := Better(best, d).value;
        assert e <= e1 && Offers(code, s, ps, Better(best, d), e1);
      }
    }
  }

  /** Is r an end that the code can reach from this point, and if that matters the
      last one; or None, if there is none? */
  ghost predicate Longest(exact: bool, code: Bytes, s: Bytes, from: Point, r: Option<nat>) {
    && (r.Some? ==> PointEnds(code, s, from, r.value))
    && (exact ==> forall e: nat | PointEnds(code, s, from, e) :: r.Some? && e <= r.value)
  }

  lemma Delivered(exact: bool, code: Bytes, s: Bytes, from: Point, r: Option<nat>)
    requires AsGood(exact, code, s, [from], None, [], r)
    ensures Longest(exact, code, s, from, r)
  {
    hide PointEnds;
    assert [] + [from] == [from];
    forall e: nat
      ensures Offers(code, s, [from], None, e) <==> PointEnds(code, s, from, e)
      ensures Offers(code, s, [], r, e) <==> r == Some(e)
    {
      OffersLast(code, s, [], from, None, e);
    }
    if r.Some? {
      assert Offers(code, s, [], r, r.value);
    }
  }

  // ---- The invariant of the machine ----

  function Pow3(k: nat): (r: nat)
    ensures r > 0
  {
    if k == 0 then 1 else 3 * Pow3(k - 1)
  }

  function Weight(ks: seq<nat>): nat {
    if ks == [] then 0 else Weight(ks[..|ks| - 1]) + Pow3(ks[|ks| - 1])
  }

  lemma WeightLast(ks: seq<nat>, k: nat)
    ensures Weight(ks + [k]) == Weight(ks) + Pow3(k)
  {
    assert (ks + [k])[..|ks|] == ks;
  }

  /** From every failure point the machine finishes in the given number of steps. */
  ghost predicate Bounded(mode: Mode, code: Bytes, s: Bytes, stack: seq<Point>, ks: seq<nat>) {
    && |ks| == |stack|
    && forall i | 0 <= i < |stack| && stack[i].Resume? ::
         && !ResumesAtJump(code, stack[i].pc)
         && Ends(mode, code, s, stack[i].pc, stack[i].d, stack[..i], ks[i])
  }

  lemma BoundedLast(mode: Mode, code: Bytes, s: Bytes, stack: seq<Point>, ks: seq<nat>, p: Point, k: nat)
    requires |stack| == |ks|
    ensures Bounded(mode, code, s, stack + [p], ks + [k]) <==>
              && Bounded(mode, code, s, stack, ks)
              && (p.Resume? ==> !ResumesAtJump(code, p.pc) && Ends(mode, code, s, p.pc, p.d, stack, k))
  {
    hide Ends, ResumesAtJump;
    var all, ks1 := stack + [p], ks + [k];
    assert forall i | 0 <= i < |stack| :: all[..i] == stack[..i];
    assert all[..|stack|] == stack;
  }

  /** A matching attempt from a point, with the steps it has left. */
  ghost predicate Inv(mode: Mode, code0: Bytes, s: Bytes, from: Point, m: Machine, ks: seq<nat>, k: nat) {
    && Start(code0, |code0|) && Rewritten(mode.pops, code0, m.code) && from.Resume? && from.d <= |s|
    && Bounded(mode, code0, s, m.stack, ks) && Ends(mode, code0, s, m.pc, m.d, m.stack, k)
    && AsGood(mode.exact, code0, s, [from], None, m.stack + [Resume(m.pc, m.d)], m.best)
  }

  /** The same, after the current attempt has failed. */
  ghost predicate Failed(mode: Mode, code0: Bytes, s: Bytes, from: Point, code: Bytes, stack: seq<Point>,
      best: Option<nat>,
      ks: seq<nat>) {
    && Start(code0, |code0|) && Rewritten(mode.pops, code0, code) && from.Resume? && from.d <= |s|
    && Bounded(mode, code0, s, stack, ks)
    && AsGood(mode.exact, code0, s, [from], None, stack, best)
  }

  ghost predicate Kept(mode: Mode, code0: Bytes, s: Bytes, from: Point, o: Outcome, ks: seq<nat>, k: nat, limit: nat) {
    match o
    case Going(m) => Inv(mode, code0, s, from, m, ks, k) && Weight(ks) + Pow3(k) < limit
    case Done(r) => Longest(mode.exact, code0, s, from, r)
    case Aborted => false
  }

  lemma {:induction false} FailKeeps(mode: Mode, code0: Bytes, s: Bytes, from: Point, code: Bytes, stack: seq<Point>,
      best: Option<nat>, ks: seq<nat>) returns (ks1: seq<nat>, k1: nat)
    requires Failed(mode, code0, s, from, code, stack, best, ks)
    ensures Kept(mode, code0, s, from, Fail(code, stack, best), ks1, k1, Weight(ks) + 1)
    decreases |stack|
  {
    hide Start, Rewritten, AsGood, Ends, Longest, Bounded;
    ks1, k1 := [], 0;
    BoundedSize(mode, code0, s, stack, ks);
    if stack == [] {
      Delivered(mode.exact, code0, s, from, best);
    } else {
      var top, rest := stack[|stack| - 1], stack[..|stack| - 1];
      k1, ks1 := ks[|ks| - 1], ks[..|ks| - 1];
      assert stack == rest + [top] && ks == ks1 + [k1];
      WeightLast(ks1, k1);
      BoundedLast(mode, code0, s, rest, ks1, top, k1);
      if top.Resume? {
        NoLoopJump(mode.pops, code0, code, top.pc);
      } else {
        Dropped(mode.exact, code0, s, rest, top, best);
        AsGoodTwice(mode.exact, code0, s, [from], None, stack, best, rest, best);
        ks1, k1 := FailKeeps(mode, code0, s, from, code, rest, best, ks1);
      }
    }
  }

  lemma BoundedSize(mode: Mode, code: Bytes, s: Bytes, stack: seq<Point>, ks: seq<nat>)
    requires Bounded(mode, code, s, stack, ks)
    ensures |stack| == |ks|
  {
    hide Ends;
  }

  lemma NoLoopJump(pops: bool, code0: Bytes, code: Bytes, pc: nat)
    requires Rewritten(pops, code0, code) && !ResumesAtJump(code0, pc)
    ensures !BackToLoop(code, pc)
  {
    hide Start, Settled;
  }

  // ---- The turns of the machine ----

  ghost function Current(m: Machine): Point {
    Resume(m.pc, m.d)
  }

  /** The attempt goes on somewhere else. */
  lemma GoesOn(mode: Mode, code0: Bytes, s: Bytes, from: Point, m: Machine, ks: seq<nat>, k: nat, m1: Machine)
    requires Inv(mode, code0, s, from, m, ks, k) && k > 0
    requires m1.stack == m.stack && m1.best == m.best && Rewritten(mode.pops, code0, m1.code)
    requires Ends(mode, code0, s, m1.pc, m1.d, m.stack, k - 1)
    requires forall e: nat :: PointEnds(code0, s, Current(m), e) <==> PointEnds(code0, s, Current(m1), e)
    ensures Kept(mode, code0, s, from, Going(m1), ks, k - 1, Weight(ks) + Pow3(k))
  {
    hide Start, Rewritten, AsGood, Ends, PointEnds, Bounded, Weight;
    Moved(mode.exact, code0, s, m.stack, Current(m), Current(m1), m.best);
    AsGoodTwice(mode.exact, code0, s, [from], None, m.stack + [Current(m)], m.best, m.stack + [Current(m1)], m.best);
  }

  /** The attempt goes on and leaves a failure point. */
  lemma Pushes(mode: Mode, code0: Bytes, s: Bytes, from: Point, m: Machine, ks: seq<nat>, k: nat, p: Point, k1: nat,
      m1: Machine)
    requires Inv(mode, code0, s, from, m, ks, k) && k > 0 && k1 < k
    requires m1.stack == m.stack + [p] && m1.best == m.best && m1.code == m.code
    requires Ends(mode, code0, s, m1.pc, m1.d, m1.stack, k - 1)
    requires p.Resume? ==> !ResumesAtJump(code0, p.pc) && Ends(mode, code0, s, p.pc, p.d, m.stack, k1)
    requires forall e: nat :: PointEnds(code0, s, Current(m), e) <==>
      PointEnds(code0, s, p, e) || PointEnds(code0, s, Current(m1), e)
    ensures Kept(mode, code0, s, from, Going(m1), ks + [k1], k - 1, Weight(ks) + Pow3(k))
  {
    hide Start, Rewritten, AsGood, Ends, PointEnds, Weight, Bounded, ResumesAtJump;
    BoundedSize(mode, code0, s, m.stack, ks);
    BoundedLast(mode, code0, s, m.stack, ks, p, k1);
    Replaced(mode.exact, code0, s, m.stack, Current(m), p, Current(m1), m.best);
    AsGoodTwice(mode.exact, code0, s, [from], None, m.stack + [Current(m)], m.best, m1.stack + [Current(m1)], m.best);
    WeightLast(ks, k1);
    Pow3Grows(k1, k - 1);
  }

  lemma {:induction false} Pow3Grows(j: nat, k: nat)
    requires j <= k
    ensures Pow3(j) <= Pow3(k)
  {
    if j < k {
      Pow3Grows(j, k - 1);
    }
  }

  /** The attempt fails. */
  lemma Dies(mode: Mode, code0: Bytes, s: Bytes, from: Point, m: Machine, ks: seq<nat>, k: nat)
    returns (ks1: seq<nat>, k1: nat)
    requires Inv(mode, code0, s, from, m, ks, k)
    requires forall e: nat :: !PointEnds(code0, s, Current(m), e)
    ensures Kept(mode, code0, s, from, Fail(m.code, m.stack, m.best), ks1, k1, Weight(ks) + Pow3(k))
  {
    hide Start, Rewritten, AsGood, Ends, PointEnds, Bounded, Weight, Longest;
    Dropped(mode.exact, code0, s, m.stack, Current(m), m.best);
    AsGoodTwice(mode.exact, code0, s, [from], None, m.stack + [Current(m)], m.best, m.stack, m.best);
    ks1, k1 := FailKeeps(mode, code0, s, from, m.code, m.stack, m.best, ks);
  }

  /** The attempt goes on and drops the newest failure point, if there is one. */
  lemma Drops(mode: Mode, code0: Bytes, s: Bytes, from: Point, m: Machine, ks: seq<nat>, k: nat, m1: Machine)
    returns (ks1: seq<nat>)
    requires Inv(mode, code0, s, from, m, ks, k) && k > 0
    requires m1.stack == Drop(m.stack) && m1.best == m.best && m1.d == m.d && Rewritten(mode.pops, code0, m1.code)
    requires mode.exact ==> PopIsSafe(code0, s, m.stack, m1.pc, m1.d)
    requires Ends(mode, code0, s, m1.pc, m1.d, m1.stack, k - 1)
    requires forall e: nat :: PointEnds(code0, s, Current(m), e) <==> PointEnds(code0, s, Current(m1), e)
    ensures Kept(mode, code0, s, from, Going(m1), ks1, k - 1, Weight(ks) + Pow3(k))
  {
    hide Start, Rewritten, AsGood, Ends, PointEnds, Weight, Harmless, Bounded, ResumesAtJump;
    BoundedSize(mode, code0, s, m.stack, ks);
    Moved(mode.exact, code0, s, m.stack, Current(m), Current(m1), m.best);
    AsGoodTwice(mode.exact, code0, s, [from], None, m.stack + [Current(m)], m.best, m.stack + [Current(m1)], m.best);
    if m.stack == [] {
      ks1 := [];
    } else {
      var top := m.stack[|m.stack| - 1];
      ks1 := ks[..|ks| - 1];
      assert m.stack == m1.stack + [top] && ks == ks1 + [ks[|ks| - 1]];
      Undercut(mode.exact, code0, s, m1.stack, top, m1.pc, m1.d, m.best);
      AsGoodTwice(mode.exact, code0, s, [from], None, m.stack + [Current(m1)], m.best, m1.stack + [Current(m1)],
          m.best);
      WeightLast(ks1, ks[|ks| - 1]);
      BoundedLast(mode, code0, s, m1.stack, ks1, top, ks[|ks| - 1]);
    }
  }

  lemma {:induction false} EndsInside(code: Bytes, s: Bytes, pc: nat, d: nat, e: nat, k: nat)
    requires Accepts(code, s, pc, d, e, k) && d <= |s|
    ensures e <= |s|
    decreases k
  {
    hide Decode;
    if pc < |code| && k > 0 {
      match Decode(code, pc)
      case Exact(cs, next) => EndsInside(code, s, next, d + |cs|, e, k - 1);
      case Any(next) => EndsInside(code, s, next, d + 1, e, k - 1);
      case OneOf(_, _, next) => EndsInside(code, s, next, d + 1, e, k - 1);
      case Memory(next) => EndsInside(code, s, next, d, e, k - 1);
      case PushDummy(next) => EndsInside(code, s, next, d, e, k - 1);
      case Jump(_, to, _) => EndsInside(code, s, to, d, e, k - 1);
      case DummyJump(to, _) => EndsInside(code, s, to, d, e, k - 1);
      case OnFailure(to, next) =>
        if Accepts(code, s, next, d, e, k - 1) { EndsInside(code, s, next, d, e, k - 1); }
        else { EndsInside(code, s, to, d, e, k - 1); }
    }
  }

  lemma FullLength(exact: bool, code: Bytes, s: Bytes, from: Point, ps: seq<Point>, best: Option<nat>)
    requires from.Resume? && from.d <= |s| && AsGood(exact, code, s, [from], None, ps + [Resume(|code|, |s|)], best)
    ensures Longest(exact, code, s, from, Some(|s|))
  {
    hide Decode;
    var q := Resume(|code|, |s|);
    assert Accepts(code, s, |code|, |s|, |s|, 0);
    OffersLast(code, s, ps, q, best, |s|);
    OffersLast(code, s, [], from, None, |s|);
    assert [] + [from] == [from];
    forall e: nat | PointEnds(code, s, from, e)
      ensures e <= |s|
    {
      var k: nat :| Accepts(code, s, from.pc, from.d, e, k);
      EndsInside(code, s, from.pc, from.d, e, k);
    }
  }

  lemma FinishKeeps(mode: Mode, code0: Bytes, s: Bytes, from: Point, m: Machine, ks: seq<nat>, k: nat)
    returns (ks1: seq<nat>, k1: nat)
    requires Inv(mode, code0, s, from, m, ks, k) && m.pc == |code0|
    ensures Kept(mode, code0, s, from, Finish(s, m), ks1, k1, Weight(ks) + Pow3(k))
  {
    hide Start, Rewritten, AsGood, PointEnds, Bounded, Weight, Longest, Ends;
    ks1, k1 := [], 0;
    if m.d == |s| {
      FullLength(mode.exact, code0, s, from, m.stack, m.best);
    } else {
      var best := Better(m.best, m.d);
      Collected(mode.exact, code0, s, m.stack, m.d, m.best);
      AsGoodTwice(mode.exact, code0, s, [from], None, m.stack + [Current(m)], m.best, m.stack, best);
      if m.stack == [] {
        Delivered(mode.exact, code0, s, from, best);
      } else {
        ks1, k1 := FailKeeps(mode, code0, s, from, m.code, m.stack, best, ks);
      }
    }
  }

  /** A command that consumes characters, or none. */
  lemma ConsumeKeeps(mode: Mode, code0: Bytes, s: Bytes, from: Point, m: Machine, ks: seq<nat>, k: nat, ok: bool,
      next: nat, d: nat)
    returns (ks1: seq<nat>, k1: nat)
    requires Inv(mode, code0, s, from, m, ks, k) && k > 0
    requires ok ==> Ends(mode, code0, s, next, d, m.stack, k - 1)
    requires forall e: nat :: PointEnds(code0, s, Current(m), e) <==> ok && CanEnd(code0, s, next, d, e)
    ensures Kept(mode, code0, s, from, Consume(m, ok, next, d), ks1, k1, Weight(ks) + Pow3(k))
  {
    hide Inv, Kept, Ends, CanEnd, Weight;
    if ok {
      InvCode(mode, code0, s, from, m, ks, k);
      GoesOn(mode, code0, s, from, m, ks, k, m.(pc := next, d := d));
      ks1, k1 := ks, k - 1;
    } else {
      ks1, k1 := Dies(mode, code0, s, from, m, ks, k);
    }
  }

  lemma InvCode(mode: Mode, code0: Bytes, s: Bytes, from: Point, m: Machine, ks: seq<nat>, k: nat)
    requires Inv(mode, code0, s, from, m, ks, k)
    ensures Rewritten(mode.pops, code0, m.code) && Start(code0, |code0|)
    ensures Ends(mode, code0, s, m.pc, m.d, m.stack, k) && m.d <= |s|
  {
    hide Rewritten, Start, EndsBy;
  }

  lemma EndsUnfold(mode: Mode, code: Bytes, s: Bytes, pc: nat, d: nat, stack: seq<Point>, k: nat)
    requires Ends(mode, code, s, pc, d, stack, k) && pc != |code|
    ensures pc < |code| && Start(code, pc) && k > 0 && EndsBy(mode, Decode(code, pc), code, s, d, stack, k - 1)
  {
    hide Start, Decode, EndsBy;
  }

  /** The kind of a jump when it is executed. */
  lemma Settles(mode: Mode, code0: Bytes, now: Bytes, x: nat)
    requires Rewritten(mode.pops, code0, now) && Start(code0, |code0|) && Start(code0, x) && x < |code0|
    requires
      var i := Decode(code0, x);
      i.Jump? && i.op == MAYBE_POP_JUMP && i.to < |code0| && Start(code0, i.to) && Decode(code0, i.to).OnFailure?
    ensures
      var i := Decode(code0, x);
      var kind := if JumpPops(mode, code0, i) then POP_FAILURE_JUMP else JUMP;
      && Pops(mode.pops, now, i.to, i.next) == JumpPops(mode, code0, i)
      && (now[x] == MAYBE_POP_JUMP ==> Rewritten(mode.pops, code0, now[x := kind]))
      && (now[x] != MAYBE_POP_JUMP ==> now[x] == kind)
  {
    var i := Decode(code0, x);
    assert code0[x] == MAYBE_POP_JUMP;
    hide Decode, Tidy, PopAllowed;
    StartNext(code0, x);
    RewrittenPop(mode.pops, code0, now, i.to, i.next);
  }

  lemma JumpKeeps(mode: Mode, code0: Bytes, s: Bytes, from: Point, m: Machine, ks: seq<nat>, k: nat)
    returns (ks1: seq<nat>, k1: nat)
    requires Inv(mode, code0, s, from, m, ks, k) && m.pc < |code0| && Decode(code0, m.pc).Jump?
    ensures Kept(mode, code0, s, from, Step(mode.pops, s, m), ks1, k1, Weight(ks) + Pow3(k))
  {
    hide Inv, Kept, Ends, CanEnd, Weight, Decode, Rewritten, Start, PopIsSafe, Fail, Pops;
    var i := Decode(code0, m.pc);
    InvCode(mode, code0, s, from, m, ks, k);
    RewrittenSize(mode.pops, code0, m.code);
    EndsUnfold(mode, code0, s, m.pc, m.d, m.stack, k);
    RewrittenDecode(mode.pops, code0, m.code, m.pc);
    forall e: nat
      ensures PointEnds(code0, s, Current(m), e) <==> CanEnd(code0, s, i.to, m.d, e)
    {
      CanEndStep(code0, s, m.pc, m.d, e);
    }
    if i.op == MAYBE_POP_JUMP {
      EndsUnfold(mode, code0, s, i.to, m.d, AfterJump(mode, code0, i, m.stack), k - 1);
      Settles(mode, code0, m.code, m.pc);
      var pops := JumpPops(mode, code0, i);
      var kind := if pops then POP_FAILURE_JUMP else JUMP;
      var code1 := if m.code[m.pc] == MAYBE_POP_JUMP then m.code[m.pc := kind] else m.code;
      if pops {
        ks1 := Drops(mode, code0, s, from, m, ks, k, m.(code := code1, pc := i.to, stack := Drop(m.stack)));
      } else {
        GoesOn(mode, code0, s, from, m, ks, k, m.(code := code1, pc := i.to));
        ks1 := ks;
      }
    } else {
      NotRewritten(mode.pops, code0, m.code, m.pc);
      GoesOn(mode, code0, s, from, m, ks, k, m.(pc := i.to));
      ks1 := ks;
    }
    k1 := k - 1;
  }

  lemma RewrittenSize(pops: bool, code0: Bytes, now: Bytes)
    requires Rewritten(pops, code0, now)
    ensures |now| == |code0|
  {
    hide Start;
  }

  lemma NotRewritten(pops: bool, code0: Bytes, now: Bytes, x: nat)
    requires Rewritten(pops, code0, now) && x < |code0| && Decode(code0, x).Jump? &&
      Decode(code0, x).op != MAYBE_POP_JUMP
    ensures now[x] == Decode(code0, x).op
  {
    hide Start, Settled;
  }

  lemma PushKeeps(mode: Mode, code0: Bytes, s: Bytes, from: Point, m: Machine, ks: seq<nat>, k: nat)
    returns (ks1: seq<nat>, k1: nat)
    requires Inv(mode, code0, s, from, m, ks, k) && m.pc < |code0|
    requires var i := Decode(code0, m.pc); i.PushDummy? || i.DummyJump? || i.OnFailure?
    ensures Kept(mode, code0, s, from, Step(mode.pops, s, m), ks1, k1, Weight(ks) + Pow3(k))
  {
    hide Inv, Kept, Ends, CanEnd, Weight, Decode, Rewritten, Start, Fail, ResumesAtJump;
    var i := Decode(code0, m.pc);
    InvCode(mode, code0, s, from, m, ks, k);
    RewrittenSize(mode.pops, code0, m.code);
    EndsUnfold(mode, code0, s, m.pc, m.d, m.stack, k);
    RewrittenDecode(mode.pops, code0, m.code, m.pc);
    var p := if i.OnFailure? then Resume(i.to, m.d) else Dummy;
    var pc := if i.DummyJump? then i.to else i.next;
    var m1 := m.(pc := pc, stack := m.stack + [p]);
    forall e: nat
      ensures PointEnds(code0, s, Current(m), e) <==> PointEnds(code0, s, p, e) || PointEnds(code0, s, Current(m1), e)
    {
      CanEndStep(code0, s, m.pc, m.d, e);
    }
    var j := if i.OnFailure? then k - 1 else 0;
    Pushes(mode, code0, s, from, m, ks, k, p, j, m1);
    ks1, k1 := ks + [j], k - 1;
  }

  lemma ReadKeeps(mode: Mode, code0: Bytes, s: Bytes, from: Point, m: Machine, ks: seq<nat>, k: nat)
    returns (ks1: seq<nat>, k1: nat)
    requires Inv(mode, code0, s, from, m, ks, k) && m.pc < |code0|
    requires var i := Decode(code0, m.pc); i.Exact? || i.Any? || i.OneOf? || i.Memory?
    ensures Kept(mode, code0, s, from, Step(mode.pops, s, m), ks1, k1, Weight(ks) + Pow3(k))
  {
    hide Inv, Kept, Ends, CanEnd, Weight, Decode, Rewritten, Start, Fail;
    var i := Decode(code0, m.pc);
    InvCode(mode, code0, s, from, m, ks, k);
    RewrittenSize(mode.pops, code0, m.code);
    EndsUnfold(mode, code0, s, m.pc, m.d, m.stack, k);
    RewrittenDecode(mode.pops, code0, m.code, m.pc);
    var ok := Accepting(i, s, m.d);
    var d := m.d + (match i case Exact(cs, _) => |cs| case Memory(_) => 0 case _ => 1);
    forall e: nat
      ensures PointEnds(code0, s, Current(m), e) <==> ok && CanEnd(code0, s, i.next, d, e)
    {
      CanEndStep(code0, s, m.pc, m.d, e);
    }
    ks1, k1 := ConsumeKeeps(mode, code0, s, from, m, ks, k, ok, i.next, d);
  }

  predicate Accepting(i: Instr, s: Bytes, d: nat) {
    match i
    case Exact(cs, _) => d + |cs| <= |s| && s[d..d + |cs|] == cs
    case Any(_) => d < |s| && s[d] != 0
    case OneOf(neg, bitmap, _) => d < |s| && InMap(bitmap, s[d]) != neg
    case _ => true
  }

  /** Every turn keeps the invariant and takes one step off what is left, and the
      last one delivers the result. */
  lemma StepKeeps(mode: Mode, code0: Bytes, s: Bytes, from: Point, m: Machine, ks: seq<nat>, k: nat)
    returns (ks1: seq<nat>, k1: nat)
    requires Inv(mode, code0, s, from, m, ks, k)
    ensures Kept(mode, code0, s, from, Step(mode.pops, s, m), ks1, k1, Weight(ks) + Pow3(k))
  {
    hide Inv, Kept, Ends, Weight, Decode, Rewritten, Start, EndsBy, Finish, Pops;
    InvCode(mode, code0, s, from, m, ks, k);
    RewrittenSize(mode.pops, code0, m.code);
    if m.pc == |code0| {
      ks1, k1 := FinishKeeps(mode, code0, s, from, m, ks, k);
    } else {
      EndsUnfold(mode, code0, s, m.pc, m.d, m.stack, k);
      NotBad(mode, code0, s, m.pc, m.d, m.stack, k);
      var i := Decode(code0, m.pc);
      if i.Jump? {
        ks1, k1 := JumpKeeps(mode, code0, s, from, m, ks, k);
      } else if i.PushDummy? || i.DummyJump? || i.OnFailure? {
        ks1, k1 := PushKeeps(mode, code0, s, from, m, ks, k);
      } else {
        ks1, k1 := ReadKeeps(mode, code0, s, from, m, ks, k);
      }
    }
  }

  lemma NotBad(mode: Mode, code: Bytes, s: Bytes, pc: nat, d: nat, stack: seq<Point>, k: nat)
    requires Ends(mode, code, s, pc, d, stack, k) && pc < |code|
    ensures Decode(code, pc) != Bad
  {
    hide Start, Decode;
  }

  lemma BeginAt(mode: Mode, code0: Bytes, code: Bytes, s: Bytes, pc: nat, d: nat) returns (k: nat)
    requires Start(code0, |code0|) && Rewritten(mode.pops, code0, code) && d <= |s| &&
      Finishes(mode, code0, s, pc, d, [])
    ensures Inv(mode, code0, s, Resume(pc, d), Machine(code, pc, d, [], None), [], k)
  {
    hide Start, Rewritten, Ends, Offers;
    var from := Resume(pc, d);
    k :| Ends(mode, code0, s, pc, d, [], k);
    assert [] + [from] == [from];
    forall e: nat | Offers(code0, s, [from], None, e)
      ensures Reaches(code0, s, [from], None, e)
    {
      ReachesSelf(code0, s, [from], None, e);
    }
  }

  lemma Begin(mode: Mode, alt: Alt, code: Bytes, s: Bytes, pos: nat) returns (k: nat)
    requires Proper(alt) && pos <= |s| && Rewritten(mode.pops, AltCode(alt, 0), code)
    requires mode.exact ==> IsExact(mode.pops, alt)
    ensures Inv(mode, AltCode(alt, 0), s, Resume(0, pos), Machine(code, 0, pos, [], None), [], k)
  {
    hide AltCode, Start, Rewritten, Finishes, Sound;
    CodeIsTidy(alt);
    PatternFinishes(mode, alt, s, pos);
    k := BeginAt(mode, AltCode(alt, 0), code, s, 0, pos);
  }

  // ---- Whole runs ----

  /** From a state that satisfies the invariant the machine comes to an end. */
  lemma {:induction false} RunEnds(mode: Mode, code0: Bytes, s: Bytes, from: Point, m: Machine, ks: seq<nat>, k: nat)
    returns (n: nat, r: Option<nat>)
    requires Inv(mode, code0, s, from, m, ks, k)
    ensures Turns(mode.pops, s, Going(m), n) == Done(r) && Longest(mode.exact, code0, s, from, r)
    decreases Weight(ks) + Pow3(k)
  {
    hide Inv, Longest, Step, Weight, Pow3;
    var ks1, k1 := StepKeeps(mode, code0, s, from, m, ks, k);
    match Step(mode.pops, s, m)
    case Going(m1) =>
      n, r := RunEnds(mode, code0, s, from, m1, ks1, k1);
      n := n + 1;
    case Done(r1) =>
      n, r := 1, r1;
  }

  /** Is r, counted from pos, the length of a word of the pattern there, or -1? */
  ghost predicate SomeMatch(alt: Alt, s: Bytes, pos: nat, r: int)
    requires pos <= |s|
  {
    -1 <= r <= |s| - pos && (r >= 0 ==> AltMatches(alt, s[pos..pos + r]))
  }

  /** Is r the length of the longest word of the pattern at pos, or -1 if none
      starts there? */
  ghost predicate LongestMatch(alt: Alt, s: Bytes, pos: nat, r: int)
    requires pos <= |s|
  {
    SomeMatch(alt, s, pos, r) && forall e | pos + r < e <= |s| && pos <= e :: !AltMatches(alt, s[pos..e])
  }

  /** The value that re_match_2_internal returns for this end. */
  function Length(pos: nat, end: Option<nat>): int {
    if end.Some? then end.value - pos else -1
  }

  lemma LongestIsLongestMatch(exact: bool, alt: Alt, s: Bytes, pos: nat, end: Option<nat>)
    requires Fits(AltCode(alt, 0)) && pos <= |s| && Longest(exact, AltCode(alt, 0), s, Resume(0, pos), end)
    ensures SomeMatch(alt, s, pos, Length(pos, end)) && (end.Some? ==> end.value >= pos)
    ensures exact ==> LongestMatch(alt, s, pos, Length(pos, end))
  {
    hide AltCode, AltMatches, CanEnd;
    forall e: nat
      ensures PointEnds(AltCode(alt, 0), s, Resume(0, pos), e) <==> pos <= e <= |s| && AltMatches(alt, s[pos..e])
    {
      CodeMeansPattern(alt, s, pos, e);
    }
  }

  /** On every proper pattern the machine comes to an end, with no match or with a
      word of the pattern; with the longest one if results are exact, that is, if
      maybe_pop_jump is a plain jump or its pops are sound. */
  lemma MachineMatches(pops: bool, alt: Alt, s: Bytes, pos: nat) returns (end: Option<nat>)
    requires Proper(alt) && pos <= |s|
    ensures Result(pops, AltCode(alt, 0), s, pos, end)
    ensures SomeMatch(alt, s, pos, Length(pos, end)) && (end.Some? ==> end.value >= pos)
    ensures IsExact(pops, alt) ==> LongestMatch(alt, s, pos, Length(pos, end))
  {
    var code0 := AltCode(alt, 0);
    UnchangedIsRewritten(pops, code0);
    hide AltCode, Inv, Longest, Rewritten, Sound, SomeMatch, LongestMatch, Weight;
    var exact: bool :| exact <==> IsExact(pops, alt);
    var mode := Mode(pops, exact);
    var k := Begin(mode, alt, code0, s, pos);
    var n;
    n, end := RunEnds(mode, code0, s, Resume(0, pos), Machine(code0, 0, pos, [], None), [], k);
    assert Turns(pops, s, Origin(code0, pos), n) == Done(end);
    LongestIsLongestMatch(exact, alt, s, pos, end);
  }

  lemma UnchangedIsRewritten(pops: bool, code: Bytes)
    ensures Rewritten(pops, code, code)
  {
    hide Start, Settled;
  }

  /** What a result says, however it was come by. */
  lemma ResultMatches(pops: bool, alt: Alt, s: Bytes, pos: nat, end: Option<nat>)
    requires Proper(alt) && pos <= |s| && Result(pops, AltCode(alt, 0), s, pos, end)
    ensures SomeMatch(alt, s, pos, Length(pos, end)) && (end.Some? ==> end.value >= pos)
    ensures IsExact(pops, alt) ==> LongestMatch(alt, s, pos, Length(pos, end))
  {
    hide AltCode, Result, Proper, Sound, SomeMatch, LongestMatch;
    var end1 := MachineMatches(pops, alt, s, pos);
    ResultIsOne(pops, AltCode(alt, 0), s, pos, end, end1);
  }

  /** Where its pops are sound, maybe_pop_jump changes no result. */
  lemma PopsChangeNothing(alt: Alt, s: Bytes, pos: nat, end: Option<nat>)
    requires Sound(alt) && pos <= |s|
    ensures Result(true, AltCode(alt, 0), s, pos, end) <==> Result(false, AltCode(alt, 0), s, pos, end)
  {
    assert Proper(alt);
    hide AltCode, Result, Proper, Sound, AltMatches;
    var end0 := MachineMatches(false, alt, s, pos);
    var end1 := MachineMatches(true, alt, s, pos);
    SameLongest(alt, s, pos, end0, end1);
    if Result(true, AltCode(alt, 0), s, pos, end) {
      ResultIsOne(true, AltCode(alt, 0), s, pos, end, end1);
    }
    if Result(false, AltCode(alt, 0), s, pos, end) {
      ResultIsOne(false, AltCode(alt, 0), s, pos, end, end0);
    }
  }

  lemma SameLongest(alt: Alt, s: Bytes, pos: nat, end0: Option<nat>, end1: Option<nat>)
    requires pos <= |s| && LongestMatch(alt, s, pos, Length(pos, end0)) && LongestMatch(alt, s, pos, Length(pos, end1))
    requires (end0.Some? ==> end0.value >= pos) && (end1.Some? ==> end1.value >= pos)
    ensures end0 == end1
  {
    hide AltMatches;
  }

  // ---- Rewritten code runs the same ----

  /** The same state, but for loop ends that have been rewritten. */
  ghost predicate Alike(pops: bool, code0: Bytes, o: Outcome, o1: Outcome) {
    match o
    case Going(m) => o1.Going? && o1.m == m.(code := o1.m.code) && Rewritten(pops, code0, m.code) &&
        Rewritten(pops, code0, o1.m.code)
    case _ => o1 == o
  }

  ghost predicate NoLoopJumps(code0: Bytes, stack: seq<Point>) {
    forall p | p in stack && p.Resume? :: !ResumesAtJump(code0, p.pc)
  }

  lemma {:induction false} FailAlike(pops: bool, code0: Bytes, code: Bytes, code1: Bytes, stack: seq<Point>,
      best: Option<nat>)
    requires Rewritten(pops, code0, code) && Rewritten(pops, code0, code1) && NoLoopJumps(code0, stack)
    ensures Alike(pops, code0, Fail(code, stack, best), Fail(code1, stack, best))
    decreases |stack|
  {
    hide Rewritten, ResumesAtJump, BackToLoop;
    if stack != [] {
      var top, rest := stack[|stack| - 1], stack[..|stack| - 1];
      assert top in stack;
      if top.Resume? {
        NoLoopJump(pops, code0, code, top.pc);
        NoLoopJump(pops, code0, code1, top.pc);
      } else {
        FailAlike(pops, code0, code, code1, rest, best);
      }
    }
  }

  lemma StepAlike(mode: Mode, code0: Bytes, s: Bytes, from: Point, m: Machine, ks: seq<nat>, k: nat, code1: Bytes)
    requires Inv(mode, code0, s, from, m, ks, k) && Rewritten(mode.pops, code0, code1)
    ensures Alike(mode.pops, code0, Step(mode.pops, s, m), Step(mode.pops, s, m.(code := code1)))
  {
    hide Inv, Ends, Decode, Rewritten, Start, Step, NoLoopJumps, EndsBy, Alike;
    InvCode(mode, code0, s, from, m, ks, k);
    InvStack(mode, code0, s, from, m, ks, k);
    if m.pc == |code0| {
      FinishAlike(mode.pops, code0, s, m, code1);
    } else {
      EndsUnfold(mode, code0, s, m.pc, m.d, m.stack, k);
      if Decode(code0, m.pc).Jump? {
        JumpAlike(mode, code0, s, m, code1, k);
      } else {
        OtherAlike(mode.pops, code0, s, m, code1);
      }
    }
  }

  lemma FinishAlike(pops: bool, code0: Bytes, s: Bytes, m: Machine, code1: Bytes)
    requires Rewritten(pops, code0, m.code) && Rewritten(pops, code0, code1) && m.pc == |code0| &&
      NoLoopJumps(code0, m.stack)
    ensures Alike(pops, code0, Step(pops, s, m), Step(pops, s, m.(code := code1)))
  {
    hide Rewritten, Fail, NoLoopJumps, Decode, Pops;
    RewrittenSize(pops, code0, m.code);
    RewrittenSize(pops, code0, code1);
    FailAlike(pops, code0, m.code, code1, m.stack, Better(m.best, m.d));
  }

  lemma OtherAlike(pops: bool, code0: Bytes, s: Bytes, m: Machine, code1: Bytes)
    requires Rewritten(pops, code0, m.code) && Rewritten(pops, code0, code1) && NoLoopJumps(code0, m.stack)
    requires Start(code0, |code0|) && Start(code0, m.pc) && m.pc < |code0| && !Decode(code0, m.pc).Jump?
    ensures Alike(pops, code0, Step(pops, s, m), Step(pops, s, m.(code := code1)))
  {
    hide Rewritten, Fail, NoLoopJumps, Decode, Pops, Start;
    RewrittenSize(pops, code0, m.code);
    RewrittenSize(pops, code0, code1);
    RewrittenDecode(pops, code0, m.code, m.pc);
    RewrittenDecode(pops, code0, code1, m.pc);
    FailAlike(pops, code0, m.code, code1, m.stack, m.best);
  }

  lemma InvStack(mode: Mode, code0: Bytes, s: Bytes, from: Point, m: Machine, ks: seq<nat>, k: nat)
    requires Inv(mode, code0, s, from, m, ks, k)
    ensures NoLoopJumps(code0, m.stack)
  {
    hide Ends, AsGood, Rewritten, Start, ResumesAtJump;
  }

  lemma JumpAlike(mode: Mode, code0: Bytes, s: Bytes, m: Machine, code1: Bytes, k: nat)
    requires Rewritten(mode.pops, code0, m.code) && Rewritten(mode.pops, code0, code1) && Start(code0, |code0|)
    requires Ends(mode, code0, s, m.pc, m.d, m.stack, k) && m.pc < |code0| && Decode(code0, m.pc).Jump?
    ensures Alike(mode.pops, code0, Step(mode.pops, s, m), Step(mode.pops, s, m.(code := code1)))
  {
    hide Ends, Decode, Rewritten, Start, Fail, Pops;
    EndsUnfold(mode, code0, s, m.pc, m.d, m.stack, k);
    RewrittenSize(mode.pops, code0, m.code);
    RewrittenSize(mode.pops, code0, code1);
    RewrittenDecode(mode.pops, code0, m.code, m.pc);
    RewrittenDecode(mode.pops, code0, code1, m.pc);
    var i := Decode(code0, m.pc);
    if i.op == MAYBE_POP_JUMP {
      EndsUnfold(mode, code0, s, i.to, m.d, AfterJump(mode, code0, i, m.stack), k - 1);
      Settles(mode, code0, m.code, m.pc);
      Settles(mode, code0, code1, m.pc);
    } else {
      NotRewritten(mode.pops, code0, m.code, m.pc);
      NotRewritten(mode.pops, code0, code1, m.pc);
    }
  }

  // ---- The matcher ----

  /** The characters of an exactn command, one by one. */
  method MatchExact(code: array<Byte>, p: nat, n: nat, s: Bytes, d: nat) returns (ok: bool)
    requires p + n <= code.Length && d <= |s|
    ensures ok <==> d + n <= |s| && s[d..d + n] == code[p..p + n]
  {
    var i := 0;
    while i < n
      invariant 0 <= i <= n && d + i <= |s| && s[d..d + i] == code[p..p + i]
    {
      if d + i >= |s| {
        return false;
      }
      if s[d + i] != code[p + i] {
        assert d + n <= |s| ==> s[d..d + n][i] != code[p..p + n][i];
        return false;
      }
      i := i + 1;
    }
    ok := true;
  }

  lemma ExactOperand(code: Bytes, p: nat)
    requires p < |code| && Decode(code, p).Exact?
    ensures
      var i := Decode(code, p);
      p + 2 + |i.cs| <= |code| && i.cs == code[p + 2..p + 2 + |i.cs|]
  {
  }

  lemma JumpOp(code: Bytes, p: nat)
    requires p < |code| && Decode(code, p).Jump?
    ensures Decode(code, p).op == code[p]
  {
  }

  /** Past register commands and the front of `x+` loops. */
  method LookAhead(code: array<Byte>, exit: nat) returns (p2: nat)
    requires exit <= code.Length
    ensures p2 == Ahead(code[..], exit)
  {
    p2 := exit;
    while true
      invariant exit <= p2 <= code.Length && Ahead(code[..], p2) == Ahead(code[..], exit)
      decreases code.Length - p2
    {
      if p2 + 2 < code.Length && (code[p2] == STOP_MEMORY || code[p2] == START_MEMORY) {
        p2 := p2 + 3;
      } else if p2 + 6 < code.Length && code[p2] == DUMMY_FAILURE_JUMP {
        p2 := p2 + 6;
      } else {
        break;
      }
    }
  }

  /** The set in the body must list every character of the set after the loop. */
  method SetCovers(code: Bytes, body: nat, p2: nat) returns (ok: bool)
    requires Peek(code, body) == CHARSET_NOT
    ensures ok == SetAllows(code, body, p2)
  {
    var idx: nat := 0;
    var width := Peek(code, p2 + 1) as nat;
    while idx < width
      invariant idx <= width
      invariant forall i | 0 <= i < idx ::
        MapByte(code, p2, i) == 0
        || (i < Peek(code, body + 1) as nat && Covers(MapByte(code, body, i), MapByte(code, p2, i)))
    {
      if !(MapByte(code, p2, idx) == 0
           || (idx < Peek(code, body + 1) as nat && Covers(MapByte(code, body, idx), MapByte(code, p2, idx)))) {
        break;
      }
      idx := idx + 1;
    }
    ok := idx == width;
  }

  /** The set in the body must have no character of the set after the loop. */
  method SetMisses(code: Bytes, body: nat, p2: nat) returns (ok: bool)
    requires Peek(code, body) == CHARSET
    ensures ok == SetAllows(code, body, p2)
  {
    var idx: nat := 0;
    var width, inner := Peek(code, p2 + 1) as nat, Peek(code, body + 1) as nat;
    while idx < width && idx < inner
      invariant idx <= width && idx <= inner
      invariant forall i | 0 <= i < idx :: !Overlap(MapByte(code, p2, i), MapByte(code, body, i))
    {
      if Overlap(MapByte(code, p2, idx), MapByte(code, body, idx)) {
        break;
      }
      idx := idx + 1;
    }
    ok := idx == width || idx == inner;
  }

  /** maybe_pop_jump's look at what the loop starts with and what follows it. */
  method MayPop(code: array<Byte>, start: nat, exit: nat) returns (pop: bool)
    requires exit <= code.Length
    ensures pop == PopAllowed(code[..], start, exit)
  {
    var p2 := LookAhead(code, exit);
    if p2 == code.Length {
      return true;
    }
    var bytes := code[..];
    assert bytes[p2] == code[p2];
    if code[p2] == EXACTN {
      pop := LiteralAllows(bytes, start + 3, p2);
    } else if code[p2] == CHARSET {
      if Peek(bytes, start + 3) == CHARSET_NOT {
        pop := SetCovers(bytes, start + 3, p2);
      } else if Peek(bytes, start + 3) == CHARSET {
        pop := SetMisses(bytes, start + 3, p2);
      } else {
        pop := SetAllows(bytes, start + 3, p2);
      }
    } else {
      pop := false;
    }
  }

  /** `fail`: the failure point to resume from, if there is one. */
  method PopFailure(code: array<Byte>, stack: seq<Point>, best: Option<nat>)
    returns (found: bool, p: nat, d: nat, rest: seq<Point>)
    ensures Fail(code[..], stack, best) == if found then Going(Machine(code[..], p, d, rest, best)) else Done(best)
  {
    rest := stack;
    while rest != []
      invariant Fail(code[..], rest, best) == Fail(code[..], stack, best)
      decreases |rest|
    {
      var top := rest[|rest| - 1];
      rest := rest[..|rest| - 1];
      if top.Resume? && !BackToLoop(code[..], top.pc) {
        return true, top.pc, top.d, rest;
      }
    }
    found, p, d := false, 0, 0;
  }

  /** The commands maybe_pop_jump, pop_failure_jump and jump: the first one decides
      which of the others it becomes. */
  method TakeJump(pops: bool, code: array<Byte>, p: nat, stack: seq<Point>, ghost s: Bytes, ghost d: nat,
      ghost best: Option<nat>)
    returns (q: nat, rest: seq<Point>)
    requires p < code.Length && Decode(code[..], p).Jump?
    modifies code
    ensures Step(pops, s, Machine(old(code[..]), p, d, stack, best)) == Going(Machine(code[..], q, d, rest, best))
  {
    hide Decode, PopAllowed, Fail;
    var i := Decode(code[..], p);
    ghost var was := code[..];
    JumpOp(was, p);
    if i.op == MAYBE_POP_JUMP {
      var pop := false;
      if pops && i.next <= code.Length {
        pop := MayPop(code, i.to, i.next);
      }
      code[p] := if pop then POP_FAILURE_JUMP else JUMP;
      assert code[..] == was[p := code[p]];
    }
    rest := if code[p] == POP_FAILURE_JUMP then Drop(stack) else stack;
    q := i.to;
  }

  /** The switch over commands: the next state, or the command fails. */
  method Command(pops: bool, code: array<Byte>, s: Bytes, p: nat, d: nat, stack: seq<Point>, ghost best: Option<nat>)
    returns (failed: bool, q: nat, e: nat, rest: seq<Point>)
    requires p < code.Length && d <= |s| && Decode(code[..], p) != Bad
    modifies code
    ensures
      Step(pops, s, Machine(old(code[..]), p, d, stack, best)) ==
        if failed then Fail(old(code[..]), stack, best) else Going(Machine(code[..], q, e, rest, best))
    ensures failed ==> rest == stack && code[..] == old(code[..])
  {
    hide Decode, Fail, Pops;
    failed, q, e, rest := false, p, d, stack;
    match Decode(code[..], p)
    case Exact(cs, next) =>
      ExactOperand(code[..], p);
      var ok := MatchExact(code, p + 2, |cs|, s, d);
      if ok { q, e := next, d + |cs|; } else { failed := true; }
    case Any(next) =>
      if d < |s| && s[d] != 0 { q, e := next, d + 1; } else { failed := true; }
    case OneOf(neg, bitmap, next) =>
      if d < |s| && InMap(bitmap, s[d]) != neg { q, e := next, d + 1; } else { failed := true; }
    case Memory(next) => q := next;
    case PushDummy(next) => rest, q := stack + [Dummy], next;
    case DummyJump(to, _) => rest, q := stack + [Dummy], to;
    case OnFailure(to, next) => rest, q := stack + [Resume(to, d)], next;
    case Jump(_, _, _) => q, rest := TakeJump(pops, code, p, stack, s, d, best);
  }

  /** re_match_2_internal on one string, without registers: what the machine comes
      to on the pattern's code, though loop ends may have been rewritten before, and
      may be rewritten by this run. */
  method ReMatch(pops: bool, ghost alt: Alt, code: array<Byte>, s: Bytes, pos: nat) returns (r: int)
    requires Proper(alt) && pos <= |s| && Rewritten(pops, AltCode(alt, 0), code[..])
    modifies code
    ensures Rewritten(pops, AltCode(alt, 0), code[..])
    ensures Result(pops, AltCode(alt, 0), s, pos, if r >= 0 then Some(pos + r) else None)
    ensures SomeMatch(alt, s, pos, r)
    ensures IsExact(pops, alt) ==> LongestMatch(alt, s, pos, r)
  {
    hide Inv, Weight, Decode, Rewritten, Fail, Pops, AltCode, Longest, SomeMatch, LongestMatch, IsExact, Proper, Pow3,
      Turns,
      Result;
    var p: nat, d: nat, stack: seq<Point>, best: Option<nat> := 0, pos, [], None;
    ghost var code0, code1 := AltCode(alt, 0), AltCode(alt, 0);
    ghost var mode, from := Mode(pops, false), Resume(0, pos);
    ghost var ks: seq<nat>, n: nat := [], 0;
    ghost var k := Begin(mode, alt, code[..], s, pos);
    UnchangedIsRewritten(pops, code0);
    TurnZero(pops, s, Origin(code0, pos));
    while true
      invariant Inv(mode, code0, s, from, Machine(code[..], p, d, stack, best), ks, k)
      invariant Turns(pops, s, Origin(code0, pos), n) == Going(Machine(code1, p, d, stack, best))
      invariant Rewritten(pops, code0, code1)
      decreases Weight(ks) + Pow3(k)
    {
      ghost var m := Machine(code[..], p, d, stack, best);
      InvCode(mode, code0, s, from, m, ks, k);
      StepAlike(mode, code0, s, from, m, ks, k, code1);
      Turn(pops, s, Origin(code0, pos), n);
      ks, k := StepKeeps(mode, code0, s, from, m, ks, k);
      n := n + 1;
      var failed := false;
      if p >= code.Length {
        if d != |s| && stack != [] {
          if best.None? || d > best.value {
            best := Some(d);
          }
          failed := true;
        } else {
          if d != |s| && best.Some? && !(d > best.value) {
            d := best.value;
          }
          RunIsResult(pops, alt, s, pos, n, Some(d));
          return d - pos;
        }
      } else {
        failed, p, d, stack := Command(pops, code, s, p, d, stack, best);
      }
      if failed {
        var found: bool;
        found, p, d, stack := PopFailure(code, stack, best);
        if !found {
          RunIsResult(pops, alt, s, pos, n, best);
          return if best.Some? then best.value - pos else -1;
        }
      }
      code1 := Turns(pops, s, Origin(code0, pos), n).m.code;
    }
  }

  lemma RunIsResult(pops: bool, alt: Alt, s: Bytes, pos: nat, n: nat, end: Option<nat>)
    requires Proper(alt) && pos <= |s| && Turns(pops, s, Origin(AltCode(alt, 0), pos), n) == Done(end)
    ensures Result(pops, AltCode(alt, 0), s, pos, end)
    ensures SomeMatch(alt, s, pos, Length(pos, end)) && (end.Some? ==> end.value >= pos)
    ensures IsExact(pops, alt) ==> LongestMatch(alt, s, pos, Length(pos, end))
  {
    hide AltCode, AltMatches, Proper, IsExact, LongestMatch;
    assert Result(pops, AltCode(alt, 0), s, pos, end);
    ResultMatches(pops, alt, s, pos, end);
  }
}
