/** re_compile_fastmap and re_search_2: the table of characters that can begin a
    match, and the search that skips over the others. */
module RegexSearch {
  import opened Octets
  import opened Options
  import opened RegexSyntax
  import opened RegexEmit
  import opened RegexRun
  import opened RegexMachine
  import opened RegexTidy
  import opened RegexHalts
  import opened RegexMatch
  import opened RegexFastmap

  // ---- The walk over the bytecode ----

  predicate InTable(table: seq<bool>, c: Byte)
    requires |table| == 256
  {
    table[c as int]
  }

  predicate Covered(table: seq<bool>, canBeNull: bool, s: Bytes, d: nat)
    requires |table| == 256
  {
    canBeNull || (d < |s| && InTable(table, s[d]))
  }

  /** A run from d to e is accounted for: by the table, or because a run that is no
      longer starts at an address still to be looked at. */
  ghost predicate Hit(code: Bytes, todo: seq<nat>, table: seq<bool>, canBeNull: bool, s: Bytes, d: nat, e: nat, k: nat)
    requires |table| == 256
  {
    Covered(table, canBeNull, s, d) || exists x: nat, j: nat | x in todo && j <= k :: Accepts(code, s, x, d, e, j)
  }

  /** All runs from addresses already seen are accounted for. */
  ghost predicate Caught(code: Bytes, seen: set<nat>, todo: seq<nat>, table: seq<bool>, canBeNull: bool)
    requires |table| == 256
  {
    forall v: nat, s: Bytes, d: nat, e: nat, k: nat | v in seen && d <= |s| && Accepts(code, s, v, d, e, k) ::
      Hit(code, todo, table, canBeNull, s, d, e, k)
  }

  ghost predicate Again(code: Bytes, seen: set<nat>, s: Bytes, d: nat, e: nat, k: nat) {
    exists v: nat, j: nat | v in seen && j < k :: Accepts(code, s, v, d, e, j)
  }

  /** The runs from p are accounted for, or come back, shorter, to an address
      already seen. */
  ghost predicate Local(code: Bytes, p: nat, seen: set<nat>, todo: seq<nat>, table: seq<bool>, canBeNull: bool)
    requires |table| == 256
  {
    forall s: Bytes, d: nat, e: nat, k: nat | d <= |s| && Accepts(code, s, p, d, e, k) ::
      Hit(code, todo, table, canBeNull, s, d, e, k) || Again(code, seen, s, d, e, k)
  }

  ghost predicate Grows(table: seq<bool>, canBeNull: bool, table1: seq<bool>, canBeNull1: bool)
    requires |table| == |table1| == 256
  {
    (canBeNull ==> canBeNull1) && forall c | InTable(table, c) :: InTable(table1, c)
  }

  lemma {:induction false} CatchOne(code: Bytes, seen: set<nat>, rest: seq<nat>, p: nat, todo: seq<nat>,
      table: seq<bool>, canBeNull: bool, table1: seq<bool>, canBeNull1: bool, v: nat, s: Bytes, d: nat, e: nat, k: nat)
    requires |table| == |table1| == 256 && Grows(table, canBeNull, table1, canBeNull1)
    requires Caught(code, seen, rest + [p], table, canBeNull) && (forall x | x in rest :: x in todo)
    requires Local(code, p, seen + {p}, todo, table1, canBeNull1)
    requires v in seen + {p} && d <= |s| && Accepts(code, s, v, d, e, k)
    ensures Hit(code, todo, table1, canBeNull1, s, d, e, k)
    decreases k
  {
    hide Accepts;
    var k1 := k;
    if v in seen {
      assert Hit(code, rest + [p], table, canBeNull, s, d, e, k);
      if !Covered(table1, canBeNull1, s, d) {
        var x: nat, j: nat :| x in rest + [p] && j <= k && Accepts(code, s, x, d, e, j);
        if x in rest {
          return;
        }
        k1 := j;
      } else {
        return;
      }
    }
    assert Hit(code, todo, table1, canBeNull1, s, d, e, k1) || Again(code, seen + {p}, s, d, e, k1);
    if !Hit(code, todo, table1, canBeNull1, s, d, e, k1) {
      var u: nat, j: nat :| u in seen + {p} && j < k1 && Accepts(code, s, u, d, e, j);
      CatchOne(code, seen, rest, p, todo, table, canBeNull, table1, canBeNull1, u, s, d, e, j);
    }
  }

  lemma CatchOn(code: Bytes, seen: set<nat>, rest: seq<nat>, p: nat, todo: seq<nat>,
      table: seq<bool>, canBeNull: bool, table1: seq<bool>, canBeNull1: bool)
    requires |table| == |table1| == 256 && Grows(table, canBeNull, table1, canBeNull1)
    requires Caught(code, seen, rest + [p], table, canBeNull) && (forall x | x in rest :: x in todo)
    requires Local(code, p, seen + {p}, todo, table1, canBeNull1)
    ensures Caught(code, seen + {p}, todo, table1, canBeNull1)
  {
    hide Accepts, Hit, Local, Grows;
    forall v: nat, s: Bytes, d: nat, e: nat, k: nat | v in seen + {p} && d <= |s| && Accepts(code, s, v, d, e, k)
      ensures Hit(code, todo, table1, canBeNull1, s, d, e, k)
    {
      CatchOne(code, seen, rest, p, todo, table, canBeNull, table1, canBeNull1, v, s, d, e, k);
    }
  }

  /** A command that consumes nothing leads on to the addresses after it. */
  lemma LocalNull(code: Bytes, p: nat, seen: set<nat>, todo: seq<nat>, table: seq<bool>, canBeNull: bool)
    requires |table| == 256 && p < |code|
    requires match Decode(code, p)
             case Memory(next) => next in todo
             case PushDummy(next) => next in todo
             case DummyJump(to, _) => to in todo
             case OnFailure(to, next) => next in todo && (to in todo || canBeNull)
             case Jump(op, to, next) =>
               || to in todo
               || (to < |code| && Decode(code, to) == OnFailure(next, to + 3) && next in todo && to + 3 in seen)
             case _ => false
    ensures Local(code, p, seen, todo, table, canBeNull)
  {
    hide Accepts, Decode;
    forall s: Bytes, d: nat, e: nat, k: nat | d <= |s| && Accepts(code, s, p, d, e, k)
      ensures Hit(code, todo, table, canBeNull, s, d, e, k) || Again(code, seen, s, d, e, k)
    {
      Execute(code, s, p, d, e, k);
      if Decode(code, p).Jump? && Decode(code, p).to !in todo {
        Execute(code, s, Decode(code, p).to, d, e, k - 1);
      }
    }
  }

  /** A command that consumes a character is in the table with all it can begin. */
  lemma LocalChar(code: Bytes, p: nat, seen: set<nat>, todo: seq<nat>, table: seq<bool>, canBeNull: bool)
    requires |table| == 256 && p < |code| && Begins(Decode(code, p), table)
    ensures Local(code, p, seen, todo, table, canBeNull)
  {
    hide Accepts, Decode;
    forall s: Bytes, d: nat, e: nat, k: nat | d <= |s| && Accepts(code, s, p, d, e, k)
      ensures Covered(table, canBeNull, s, d)
    {
      Execute(code, s, p, d, e, k);
      var i := Decode(code, p);
      if i.Exact? {
        assert s[d..d + |i.cs|][0] == s[d];
      }
    }
  }

  /** The table has all characters a match of the command can begin with. */
  predicate Begins(i: Instr, table: seq<bool>)
    requires |table| == 256
  {
    match i
    case Exact(cs, _) => cs != [] && InTable(table, cs[0])
    case Any(_) => forall c: Byte :: InTable(table, c)
    case OneOf(neg, bitmap, _) => forall c: Byte | InMap(bitmap, c) != neg :: InTable(table, c)
    case _ => false
  }

  // ---- The table ----

  /** Unless the pattern can match nothing, it matches only words that begin with
      a character of the table. */
  ghost predicate TableOk(alt: Alt, table: seq<bool>, canBeNull: bool)
    requires |table| == 256
  {
    canBeNull || forall w | AltMatches(alt, w) :: w != [] && InTable(table, w[0])
  }

  lemma CaughtIsTableOk(alt: Alt, seen: set<nat>, table: seq<bool>, canBeNull: bool)
    requires Fits(AltCode(alt, 0)) && |table| == 256 && 0 in seen
    requires Caught(AltCode(alt, 0), seen, [], table, canBeNull)
    ensures TableOk(alt, table, canBeNull)
  {
    hide AltCode, AltMatches, Accepts;
    var code := AltCode(alt, 0);
    forall w | AltMatches(alt, w)
      ensures Covered(table, canBeNull, w, 0)
    {
      CodeMeansPattern(alt, w, 0, |w|);
      assert w[0..|w|] == w;
      var k: nat :| Accepts(code, w, 0, 0, |w|, k);
      assert Hit(code, [], table, canBeNull, w, 0, |w|, k);
    }
  }

  /** The steps the walk has left. */
  ghost function StackWeight(stack: seq<nat>, n: nat): nat {
    if stack == [] then 0
    else
      var x := stack[|stack| - 1];
      StackWeight(stack[..|stack| - 1], n) + Pow3(if x <= n then n - x else 0)
  }

  lemma StackPush(stack: seq<nat>, x: nat, n: nat)
    requires x <= n
    ensures StackWeight(stack + [x], n) == StackWeight(stack, n) + Pow3(n - x)
  {
    assert (stack + [x])[..|stack|] == stack;
  }

  lemma {:induction false} Pow3Forward(p: nat, q: nat, n: nat)
    requires p < q <= n
    ensures 3 * Pow3(n - q) <= Pow3(n - p)
  {
    Pow3Grows(n - q, n - p - 1);
  }

  // ---- Filling the table ----

  /** The characters of a charset. */
  method AddSet(fastmap: array<bool>, bitmap: Bytes)
    requires fastmap.Length == 256 && |bitmap| <= 32
    modifies fastmap
    ensures forall c: Byte :: InTable(fastmap[..], c) <==> InTable(old(fastmap[..]), c) || InMap(bitmap, c)
  {
    var j: int := 8 * |bitmap| - 1;
    while j >= 0
      invariant -1 <= j < 8 * |bitmap|
      invariant forall c: Byte :: InTable(fastmap[..], c) <==>
        InTable(old(fastmap[..]), c) || (c as int > j && InMap(bitmap, c))
    {
      var x := j as Byte;
      if HasBit(bitmap[j / 8] as nat, j % 8) {
        assert InMap(bitmap, x);
        fastmap[j] := true;
      } else {
        assert !InMap(bitmap, x);
      }
      j := j - 1;
    }
  }

  /** The characters of a charset_not: those behind its map, and those of the map
      that are not set. */
  method AddOthers(fastmap: array<bool>, bitmap: Bytes)
    requires fastmap.Length == 256 && |bitmap| <= 32
    modifies fastmap
    ensures forall c: Byte :: InTable(fastmap[..], c) <==> InTable(old(fastmap[..]), c) || !InMap(bitmap, c)
  {
    var j := 8 * |bitmap|;
    while j < 256
      invariant 8 * |bitmap| <= j <= 256
      invariant forall c: Byte :: InTable(fastmap[..], c) <==>
        InTable(old(fastmap[..]), c) || 8 * |bitmap| <= c as int < j
    {
      fastmap[j] := true;
      j := j + 1;
    }
    j := 8 * |bitmap| - 1;
    while j >= 0
      invariant -1 <= j < 8 * |bitmap|
      invariant forall c: Byte :: InTable(fastmap[..], c) <==>
        InTable(old(fastmap[..]), c) || 8 * |bitmap| <= c as int || (c as int > j && !InMap(bitmap, c))
    {
      var x := j as Byte;
      if !HasBit(bitmap[j / 8] as nat, j % 8) {
        assert !InMap(bitmap, x);
        fastmap[j] := true;
      } else {
        assert InMap(bitmap, x);
      }
      j := j - 1;
    }
  }

  method AddAll(fastmap: array<bool>)
    requires fastmap.Length == 256
    modifies fastmap
    ensures forall c: Byte :: InTable(fastmap[..], c)
  {
    for j := 0 to 256
      invariant forall i | 0 <= i < j :: fastmap[i]
    {
      fastmap[j] := true;
    }
  }

  // ---- What every turn of the walk keeps ----

  /** The addresses still to be looked at: those on the stack, and p while the path
      there has consumed nothing. */
  function Todo(stack: seq<nat>, p: nat, path: bool): seq<nat> {
    if path then stack + [p] else stack
  }

  ghost predicate Walk(code: Bytes, seen: set<nat>, stack: seq<nat>, p: nat, path: bool, table: seq<bool>,
      canBeNull: bool) {
    && |table| == 256 && 0 in seen && Start(code, |code|) && p <= |code| && (!path ==> p == |code|)
    && (forall x | x in stack :: x < |code| && Nulls(code, x, seen))
    && (path ==> Nulls(code, p, seen))
    && Caught(code, seen, Todo(stack, p, path), table, canBeNull)
  }

  lemma WalkOn(code: Bytes, seen: set<nat>, stack: seq<nat>, p: nat, table: seq<bool>, canBeNull: bool,
      stack1: seq<nat>, p1: nat, path1: bool, table1: seq<bool>, canBeNull1: bool)
    requires Walk(code, seen, stack, p, true, table, canBeNull) && |table1| == 256
    requires Grows(table, canBeNull, table1, canBeNull1)
    requires Local(code, p, seen + {p}, Todo(stack1, p1, path1), table1, canBeNull1)
    requires forall x | x in stack :: x in Todo(stack1, p1, path1)
    requires forall x | x in stack1 :: x in stack || (x < |code| && Nulls(code, x, seen + {p}))
    requires p1 <= |code| && (if path1 then Nulls(code, p1, seen + {p}) else p1 == |code|)
    ensures Walk(code, seen + {p}, stack1, p1, path1, table1, canBeNull1)
  {
    hide Caught, Local, Nulls, Start, Grows;
    CatchOn(code, seen, stack, p, Todo(stack1, p1, path1), table, canBeNull, table1, canBeNull1);
    forall x | x in stack
      ensures Nulls(code, x, seen + {p})
    {
      NullsMore(code, x, seen, seen + {p});
    }
  }

  lemma GrowsSelf(table: seq<bool>, canBeNull: bool, more: bool)
    requires |table| == 256 && (canBeNull ==> more)
    ensures Grows(table, canBeNull, table, more)
  {
  }

  lemma NullMove(code: Bytes, seen: set<nat>, stack: seq<nat>, p: nat, table: seq<bool>, canBeNull: bool)
    requires Walk(code, seen, stack, p, true, table, canBeNull) && p < |code|
    requires Decode(code, p).Memory? || Decode(code, p).PushDummy?
    ensures p < Decode(code, p).next && Walk(code, seen + {p}, stack, Decode(code, p).next, true, table, canBeNull)
  {
    hide Decode, Start, Caught, Local, Grows;
    StartNext(code, p);
    var next := Decode(code, p).next;
    LocalNull(code, p, seen + {p}, Todo(stack, next, true), table, canBeNull);
    GrowsSelf(table, canBeNull, canBeNull);
    WalkOn(code, seen, stack, p, table, canBeNull, stack, next, true, table, canBeNull);
  }

  lemma FailMove(code: Bytes, seen: set<nat>, stack: seq<nat>, p: nat, table: seq<bool>, canBeNull: bool)
    requires Walk(code, seen, stack, p, true, table, canBeNull) && p < |code| && Decode(code, p).OnFailure?
    ensures
      var i := Decode(code, p);
      var stack1 := if i.to < |code| then stack + [i.to] else stack;
      && p < i.next && (i.to < |code| ==> p < i.to)
      && Walk(code, seen + {p}, stack1, i.next, true, table, canBeNull || i.to >= |code|)
  {
    hide Decode, Start, Caught, Local, Grows;
    StartNext(code, p);
    var i := Decode(code, p);
    var stack1 := if i.to < |code| then stack + [i.to] else stack;
    LocalNull(code, p, seen + {p}, Todo(stack1, i.next, true), table, canBeNull || i.to >= |code|);
    GrowsSelf(table, canBeNull, canBeNull || i.to >= |code|);
    WalkOn(code, seen, stack, p, table, canBeNull, stack1, i.next, true, table, canBeNull || i.to >= |code|);
  }

  lemma CharMove(code: Bytes, seen: set<nat>, stack: seq<nat>, p: nat, table: seq<bool>, canBeNull: bool,
      table1: seq<bool>)
    requires Walk(code, seen, stack, p, true, table, canBeNull) && p < |code|
    requires |table1| == 256 && Begins(Decode(code, p), table1) && Grows(table, canBeNull, table1, canBeNull)
    ensures Walk(code, seen + {p}, stack, |code|, false, table1, canBeNull)
  {
    hide Decode, Start, Caught, Local, Grows, Begins;
    LocalChar(code, p, seen + {p}, stack, table1, canBeNull);
    WalkOn(code, seen, stack, p, table, canBeNull, stack, |code|, false, table1, canBeNull);
  }

  /** Does the walk, after this jump, go on behind the loop that it closes? */
  predicate ClosesLoop(code: Bytes, i: Instr)
    requires i.Jump? || i.DummyJump?
  {
    i.to <= i.next && i.to < |code| && code[i.to] == ON_FAILURE_JUMP
  }

  lemma JumpMove(code: Bytes, seen: set<nat>, stack: seq<nat>, p: nat, table: seq<bool>, canBeNull: bool)
    requires Walk(code, seen, stack, p, true, table, canBeNull) && p < |code|
    requires Decode(code, p).Jump? || Decode(code, p).DummyJump?
    ensures
      var i := Decode(code, p);
      if ClosesLoop(code, i) then
        && Decode(code, i.to).OnFailure? && p < Decode(code, i.to).to
        && var x := Decode(code, i.to).to;
           Walk(code, seen + {p}, if stack != [] &&
               stack[|stack| - 1] == x then Drop1(stack) else stack, x, true, table, canBeNull)
      else p < i.to && Walk(code, seen + {p}, stack, i.to, true, table, canBeNull)
  {
    hide Start, Caught, Local, Grows;
    var i := Decode(code, p);
    StartNext(code, p);
    GrowsSelf(table, canBeNull, canBeNull);
    assert i.to <= |code|;
    assert i.Jump? && i.op == MAYBE_POP_JUMP ==> code[i.to] == ON_FAILURE_JUMP;
    assert i.Jump? && i.op == JUMP_PAST_ALT ==> !ClosesLoop(code, i);
    hide Decode;
    if ClosesLoop(code, i) {
      var x := Decode(code, i.to).to;
      var stack1 := if stack != [] && stack[|stack| - 1] == x then Drop1(stack) else stack;
      LocalNull(code, p, seen + {p}, Todo(stack1, x, true), table, canBeNull);
      WalkOn(code, seen, stack, p, table, canBeNull, stack1, x, true, table, canBeNull);
    } else {
      LocalNull(code, p, seen + {p}, Todo(stack, i.to, true), table, canBeNull);
      WalkOn(code, seen, stack, p, table, canBeNull, stack, i.to, true, table, canBeNull);
    }
  }

  function Drop1(stack: seq<nat>): seq<nat>
    requires stack != []
  {
    stack[..|stack| - 1]
  }

  /** The end of a path: the next one starts at the newest address on the stack. */
  lemma PathEnds(code: Bytes, seen: set<nat>, stack: seq<nat>, p: nat, path: bool, table: seq<bool>, canBeNull: bool)
    requires Walk(code, seen, stack, p, path, table, canBeNull) && stack != []
    ensures Walk(code, seen, Drop1(stack), stack[|stack| - 1], true, table, canBeNull || path)
  {
    hide Nulls, Start, Accepts;
    var x := stack[|stack| - 1];
    assert Todo(Drop1(stack), x, true) == stack;
    assert x in stack && forall y | y in Drop1(stack) :: y in stack;
    if path {
      assert Caught(code, seen, stack, table, true);
    }
  }

  lemma WalkStarts(alt: Alt, table: seq<bool>)
    requires Fits(AltCode(alt, 0)) && |table| == 256
    ensures Walk(AltCode(alt, 0), {0}, [], 0, true, table, false)
  {
    hide AltCode, Tidy, Nulls, Accepts;
    var code := AltCode(alt, 0);
    CodeIsTidy(alt);
    PatternNulls(alt);
    NullsMore(code, 0, {}, {0});
    assert 0 in Todo([], 0, true);
  }

  lemma WalkPlace(code: Bytes, seen: set<nat>, stack: seq<nat>, p: nat, path: bool, table: seq<bool>, canBeNull: bool)
    requires Walk(code, seen, stack, p, path, table, canBeNull)
    ensures p <= |code| && Start(code, |code|) && |table| == 256 && forall x | x in stack :: x < |code|
    ensures p < |code| ==> path && Start(code, p) && Decode(code, p) != Bad
    ensures p < |code| && Decode(code, p).OneOf? ==> |Decode(code, p).bitmap| <= 32
  {
    hide Decode, Start, Caught;
  }

  lemma ExactBegins(code: Bytes, p: nat, table: seq<bool>, canBeNull: bool)
    requires p < |code| && Decode(code, p).Exact? && |table| == 256
    ensures
      var cs := Decode(code, p).cs;
      cs != [] && p + 2 < |code| && cs[0] == code[p + 2]
      && var table1 := table[cs[0] as int := true];
         Begins(Decode(code, p), table1) && Grows(table, canBeNull, table1, canBeNull)
  {
  }

  lemma SetBegins(code: Bytes, p: nat, table: seq<bool>, table1: seq<bool>, canBeNull: bool)
    requires p < |code| && (Decode(code, p).OneOf? || Decode(code, p).Any?) && |table| == |table1| == 256
    requires var i := Decode(code, p);
             forall c: Byte :: InTable(table1, c) <==> InTable(table, c) || i.Any? || InMap(i.bitmap, c) != i.neg
    ensures Begins(Decode(code, p), table1) && Grows(table, canBeNull, table1, canBeNull)
  {
    hide Decode, InMap;
  }

  lemma AlwaysOk(alt: Alt, table: seq<bool>)
    requires |table| == 256
    ensures TableOk(alt, table, true)
  {
  }

  lemma WalkDone(alt: Alt, seen: set<nat>, p: nat, table: seq<bool>, canBeNull: bool)
    requires Fits(AltCode(alt, 0)) && Walk(AltCode(alt, 0), seen, [], p, false, table, canBeNull)
    ensures TableOk(alt, table, canBeNull)
  {
    hide AltCode, Caught, TableOk;
    CaughtIsTableOk(alt, seen, table, canBeNull);
  }

  /** After a jump; a jump back is taken to come from the end of a loop, and the
      walk goes on behind that loop. */
  method Follow(ghost pops: bool, ghost code0: Bytes, ghost seen: set<nat>, stack: seq<nat>, p: nat,
      ghost table: seq<bool>,
      ghost canBeNull: bool, code: array<Byte>, to: nat, next: nat)
    returns (stack1: seq<nat>, p1: nat)
    requires Walk(code0, seen, stack, p, true, table, canBeNull) && Rewritten(pops, code0, code[..]) && p < |code0|
    requires var i := Decode(code0, p); (i.Jump? || i.DummyJump?) && i.to == to && i.next == next
    ensures Walk(code0, seen + {p}, stack1, p1, true, table, canBeNull) && p < p1 <= |code0|
    ensures Reaches(code0, p) ==> Reaches(code0, p1)
    ensures forall x | x in stack1 :: x in stack
    ensures StackWeight(stack1, |code0|) <= StackWeight(stack, |code0|)
  {
    hide Walk, Decode, Rewritten, StackWeight, Reaches;
    if Reaches(code0, p) {
      ReachesNext(code0, p, to);
    }
    JumpMove(code0, seen, stack, p, table, canBeNull);
    JumpsBackToFailure(pops, code0, code[..], to);
    WalkPlace(code0, seen, stack, p, true, table, canBeNull);
    stack1, p1 := stack, to;
    if to <= next && to < code.Length && code[to] == ON_FAILURE_JUMP {
      assert Decode(code0, to).OnFailure?;
      SameFailureJump(pops, code0, seen, stack, p, table, canBeNull, code[..]);
      p1 := Decode(code[..], to).to;
      if Reaches(code0, p) {
        ReachesNext(code0, to, p1);
      }
      if stack != [] && stack[|stack| - 1] == p1 {
        stack1 := stack[..|stack| - 1];
        StackShrinks(stack, |code0|);
      }
    }
    WalkPlace(code0, seen + {p}, stack1, p1, true, table, canBeNull);
  }

  lemma StackShrinks(stack: seq<nat>, n: nat)
    requires stack != []
    ensures StackWeight(Drop1(stack), n) <= StackWeight(stack, n)
  {
  }

  lemma JumpsBackToFailure(pops: bool, code0: Bytes, now: Bytes, to: nat)
    requires Rewritten(pops, code0, now)
    ensures |now| == |code0| && (to < |code0| ==> (now[to] == ON_FAILURE_JUMP <==> code0[to] == ON_FAILURE_JUMP))
  {
    hide Start, Pops, PopAllowed, Decode;
  }

  lemma SameFailureJump(pops: bool, code0: Bytes, seen: set<nat>, stack: seq<nat>, p: nat, table: seq<bool>,
      canBeNull: bool, now: Bytes)
    requires Walk(code0, seen, stack, p, true, table, canBeNull) && Rewritten(pops, code0, now) && p < |code0|
    requires
      var i := Decode(code0, p);
      (i.Jump? || i.DummyJump?) && i.to < |code0| && Decode(code0, i.to).OnFailure? && i.to <= i.next
    ensures Decode(now, Decode(code0, p).to) == Decode(code0, Decode(code0, p).to)
  {
    hide Rewritten, Caught, Tidy;
    assert Start(code0, Decode(code0, p).to);
    hide Decode;
    RewrittenDecode(pops, code0, now, Decode(code0, p).to);
  }

  // ---- Nothing too much in the table ----

  /** Nothing has been read when the code gets from its start to v. */
  ghost predicate Reaches(code: Bytes, v: nat) {
    forall s: Bytes, d: nat, e: nat | CanEnd(code, s, v, d, e) :: CanEnd(code, s, 0, d, e)
  }

  /** Is c entered into the table for this command?  `.` is taken to match NUL, too. */
  predicate Marks(i: Instr, c: Byte) {
    match i
    case Exact(cs, _) => cs != [] && cs[0] == c
    case Any(_) => true
    case OneOf(neg, bitmap, _) => InMap(bitmap, c) != neg
    case _ => false
  }

  ghost predicate MarkedBy(code: Bytes, v: nat, c: Byte) {
    v < |code| && Start(code, v) && Reaches(code, v) && Marks(Decode(code, v), c)
  }

  /** Every character in the table is there for a command that can come first. */
  ghost predicate TableTight(code: Bytes, table: seq<bool>)
    requires |table| == 256
  {
    forall c: Byte | InTable(table, c) :: exists v :: MarkedBy(code, v, c)
  }

  ghost predicate Tight(code: Bytes, stack: seq<nat>, p: nat, path: bool, table: seq<bool>, canBeNull: bool) {
    && |table| == 256 && TableTight(code, table)
    && (forall x | x in stack :: Reaches(code, x)) && (path ==> Reaches(code, p))
    && (canBeNull ==> Reaches(code, |code|))
  }

  lemma ReachesNext(code: Bytes, p: nat, q: nat)
    requires Reaches(code, p) && p < |code|
    requires
      match Decode(code, p)
      case Memory(next) => q == next
      case PushDummy(next) => q == next
      case DummyJump(to, _) => q == to
      case Jump(_, to, _) => q == to
      case OnFailure(to, next) => q == to || q == next
      case _ => false
    ensures Reaches(code, q)
  {
    hide CanEnd, Decode;
    forall s: Bytes, d: nat, e: nat | CanEnd(code, s, q, d, e)
      ensures CanEnd(code, s, 0, d, e)
    {
      CanEndStep(code, s, p, d, e);
    }
  }

  lemma MarksMore(code: Bytes, p: nat, table: seq<bool>, table1: seq<bool>)
    requires |table| == |table1| == 256 && TableTight(code, table)
    requires p < |code| && Start(code, p) && Reaches(code, p)
    requires forall c: Byte | InTable(table1, c) :: InTable(table, c) || Marks(Decode(code, p), c)
    ensures TableTight(code, table1)
  {
    hide Reaches, Decode, Start, Marks;
    forall c: Byte | InTable(table1, c)
      ensures exists v :: MarkedBy(code, v, c)
    {
      if !InTable(table, c) {
        assert MarkedBy(code, p, c);
      }
    }
  }

  lemma CharMarks(code: Bytes, p: nat, table: seq<bool>, table1: seq<bool>)
    requires |table| == |table1| == 256 && TableTight(code, table)
    requires p < |code| && Start(code, p) && Reaches(code, p)
    requires
      var i := Decode(code, p);
      || (i.Exact? && i.cs != [] && table1 == table[i.cs[0] as int := true])
      || ((i.Any? || i.OneOf?) && forall c: Byte :: InTable(table1, c) <==>
            InTable(table, c) || i.Any? || InMap(i.bitmap, c) != i.neg)
    ensures TableTight(code, table1)
  {
    hide Reaches, Decode, Start, InMap, TableTight;
    MarksMore(code, p, table, table1);
  }

  lemma FailsInside(code: Bytes, p: nat)
    requires p < |code| && Decode(code, p).OnFailure?
    ensures Decode(code, p).to <= |code|
  {
  }

  lemma EmptyIsTight(code: Bytes, table: seq<bool>)
    requires |table| == 256 && forall c: Byte :: !InTable(table, c)
    ensures Tight(code, [], 0, true, table, false)
  {
    hide CanEnd;
  }

  /** If the code can get through without reading, the pattern matches nothing. */
  lemma ThroughIsNull(alt: Alt)
    requires Fits(AltCode(alt, 0)) && Reaches(AltCode(alt, 0), |AltCode(alt, 0)|)
    ensures AltMatches(alt, [])
  {
    hide AltCode, AltMatches;
    var code, s := AltCode(alt, 0), [];
    assert Accepts(code, s, |code|, 0, 0, 0);
    assert CanEnd(code, s, |code|, 0, 0);
    hide Accepts;
    CodeMeansPattern(alt, s, 0, 0);
    assert s[0..0] == [];
  }

  lemma NullIsFlagged(alt: Alt, table: seq<bool>, canBeNull: bool)
    requires |table| == 256 && TableOk(alt, table, canBeNull) && AltMatches(alt, [])
    ensures canBeNull
  {
    hide AltMatches;
  }

  // ---- re_compile_fastmap ----

  method CompileFastmap(ghost pops: bool, ghost alt: Alt, code: array<Byte>, fastmap: array<bool>)
    returns (canBeNull: bool)
    requires Fits(AltCode(alt, 0)) && Rewritten(pops, AltCode(alt, 0), code[..]) && fastmap.Length == 256
    modifies fastmap
    ensures TableOk(alt, fastmap[..], canBeNull) && TableTight(AltCode(alt, 0), fastmap[..])
    ensures canBeNull <==> AltMatches(alt, [])
  {
    canBeNull := Walking(pops, alt, code, fastmap);
    hide AltCode, TableOk, TableTight, AltMatches, Reaches;
    if canBeNull {
      ThroughIsNull(alt);
    }
    if AltMatches(alt, []) {
      NullIsFlagged(alt, fastmap[..], canBeNull);
    }
  }

  /** The characters that a command can start with. */
  method EnterFirst(i: Instr, fastmap: array<bool>, ghost code0: Bytes, ghost seen: set<nat>, ghost stack: seq<nat>,
      ghost p: nat, ghost canBeNull: bool)
    requires fastmap.Length == 256 && p < |code0| && Decode(code0, p) == i && (i.Exact? || i.Any? || i.OneOf?)
    requires i.OneOf? ==> |i.bitmap| <= 32
    requires Walk(code0, seen, stack, p, true, fastmap[..], canBeNull) && Start(code0, p)
    requires TableTight(code0, fastmap[..]) && Reaches(code0, p)
    modifies fastmap
    ensures Walk(code0, seen + {p}, stack, |code0|, false, fastmap[..], canBeNull)
    ensures TableTight(code0, fastmap[..])
  {
    hide Walk, Decode, TableTight, Begins, Reaches, Start, InMap;
    ghost var table := fastmap[..];
    if i.Exact? {
      ExactBegins(code0, p, table, canBeNull);
      fastmap[i.cs[0] as int] := true;
      assert fastmap[..] == table[i.cs[0] as int := true];
    } else {
      if i.Any? {
        AddAll(fastmap);
      } else if i.neg {
        AddOthers(fastmap, i.bitmap);
      } else {
        AddSet(fastmap, i.bitmap);
      }
      SetBegins(code0, p, table, fastmap[..], canBeNull);
    }
    CharMove(code0, seen, stack, p, table, canBeNull, fastmap[..]);
    CharMarks(code0, p, table, fastmap[..]);
  }

  /** The loop of re_compile_fastmap. */
  method Walking(ghost pops: bool, ghost alt: Alt, code: array<Byte>, fastmap: array<bool>)
    returns (canBeNull: bool)
    requires Fits(AltCode(alt, 0)) && Rewritten(pops, AltCode(alt, 0), code[..]) && fastmap.Length == 256
    modifies fastmap
    ensures TableOk(alt, fastmap[..], canBeNull) && TableTight(AltCode(alt, 0), fastmap[..])
    ensures canBeNull ==> Reaches(AltCode(alt, 0), |AltCode(alt, 0)|)
  {
    hide AltCode, Walk, Decode, Rewritten, TableOk, StackWeight, Pow3, Begins, Nulls, Reaches, TableTight, Marks, Start;
    ghost var code0, bytes := AltCode(alt, 0), code[..];
    RewrittenSize(pops, code0, bytes);
    forall j | 0 <= j < 256 {
      fastmap[j] := false;
    }
    var stack: seq<nat>, p: nat, path := [], 0, true;
    canBeNull := false;
    ghost var seen: set<nat> := {0};
    WalkStarts(alt, fastmap[..]);
    EmptyIsTight(code0, fastmap[..]);
    while true
      invariant p <= |code0| && code[..] == bytes
      invariant Walk(code0, seen, stack, p, path, fastmap[..], canBeNull)
      invariant Tight(code0, stack, p, path, fastmap[..], canBeNull)
      decreases StackWeight(stack, |code0|) + Pow3(|code0| - p)
    {
      WalkPlace(code0, seen, stack, p, path, fastmap[..], canBeNull);
      if p == code.Length {
        if stack == [] {
          break;
        }
        PathEnds(code0, seen, stack, p, path, fastmap[..], canBeNull);
        assert stack == Drop1(stack) + [stack[|stack| - 1]] && stack[|stack| - 1] in stack;
        StackPush(Drop1(stack), stack[|stack| - 1], |code0|);
        canBeNull := canBeNull || path;
        path, p, stack := true, stack[|stack| - 1], stack[..|stack| - 1];
        continue;
      }
      RewrittenDecode(pops, code0, bytes, p);
      ghost var from := p;
      var i := Decode(code[..], p);
      match i {
        case Exact(_, _) =>
          EnterFirst(i, fastmap, code0, seen, stack, p, canBeNull);
          path, p := false, code.Length;
        case OneOf(_, _, _) =>
          EnterFirst(i, fastmap, code0, seen, stack, p, canBeNull);
          path, p := false, code.Length;
        case Any(_) =>
          EnterFirst(i, fastmap, code0, seen, stack, p, canBeNull);
          if canBeNull {
            AlwaysOk(alt, fastmap[..]);
            return true;
          }
          path, p := false, code.Length;
        case Memory(next) =>
          NullMove(code0, seen, stack, p, fastmap[..], canBeNull);
          ReachesNext(code0, p, next);
          p := next;
        case PushDummy(next) =>
          NullMove(code0, seen, stack, p, fastmap[..], canBeNull);
          ReachesNext(code0, p, next);
          p := next;
        case OnFailure(to, next) =>
          FailMove(code0, seen, stack, p, fastmap[..], canBeNull);
          ReachesNext(code0, p, next);
          ReachesNext(code0, p, to);
          FailsInside(code0, p);
          if to < code.Length {
            StackPush(stack, to, |code0|);
            Pow3Forward(p, to, |code0|);
            stack := stack + [to];
          } else {
            canBeNull := true;
          }
          p := next;
        case DummyJump(to, next) => stack,
            p := Follow(pops, code0, seen, stack, p, fastmap[..], canBeNull, code, to, next);
        case Jump(_, to, next) => stack,
            p := Follow(pops, code0, seen, stack, p, fastmap[..], canBeNull, code, to, next);
        case Bad => assert false;
      }
      seen := seen + {from};
      WalkPlace(code0, seen, stack, p, path, fastmap[..], canBeNull);
      Pow3Forward(from, p, |code0|);
    }
    if path {
      AlwaysOk(alt, fastmap[..]);
    } else {
      WalkDone(alt, seen, p, fastmap[..], canBeNull);
    }
    canBeNull := canBeNull || path;
  }

  // ---- re_search_2 ----

  ghost predicate MatchesAt(alt: Alt, s: Bytes, q: int) {
    0 <= q <= |s| && exists e | q <= e <= |s| :: AltMatches(alt, s[q..e])
  }

  /** Is q one of the positions tried from start towards end? */
  predicate Tried(start: int, end: int, q: int) {
    start <= q <= end || end <= q <= start
  }

  /** The last position tried: start + range, moved into the subject. */
  function SearchEnd(s: Bytes, start: int, range: int): int {
    if start + range < 0 then 0 else if start + range > |s| then |s| else start + range
  }

  /** Is pos the first position from start on, forwards or backwards, that is in
      `hits`, or -1 if there is none? */
  ghost predicate FirstHit(hits: iset<int>, s: Bytes, start: int, range: int, pos: int) {
    if !(0 <= start <= |s|) then pos == -1
    else
      var end := SearchEnd(s, start, range);
      if pos == -1 then forall q | Tried(start, end, q) :: q !in hits
      else Tried(start, end, pos) && pos in hits && forall q | Tried(start, pos, q) && q != pos :: q !in hits
  }

  /** Forwards that is the least hit from start to start + range inside the subject,
      backwards the greatest one from there to start. */
  lemma FirstHitMeans(hits: iset<int>, s: Bytes, startpos: int, range: int, pos: int)
    requires FirstHit(hits, s, startpos, range, pos)
    ensures !(0 <= startpos <= |s|) ==> pos == -1
    ensures 0 <= startpos <= |s| && range >= 0 ==>
      if pos == -1 then forall q | startpos <= q <= startpos + range && q <= |s| :: q !in hits
      else
        && startpos <= pos <= startpos + range && pos <= |s| && pos in hits
        && forall q | startpos <= q < pos :: q !in hits
    ensures 0 <= startpos <= |s| && range < 0 ==>
      if pos == -1 then forall q | startpos + range <= q <= startpos && 0 <= q :: q !in hits
      else
        && startpos + range <= pos <= startpos && 0 <= pos && pos in hits
        && forall q | pos < q <= startpos :: q !in hits
  {
  }

  lemma NoHit(hits: iset<int>, s: Bytes, start: int, range: int)
    requires 0 <= start <= |s| ==> forall q | Tried(start, SearchEnd(s, start, range), q) :: q !in hits
    ensures FirstHit(hits, s, start, range, -1)
  {
  }

  lemma HitAt(hits: iset<int>, s: Bytes, start: int, range: int, pos: nat)
    requires 0 <= start <= |s| && Tried(start, SearchEnd(s, start, range), pos) && pos in hits
    requires forall q | Tried(start, pos, q) && q != pos :: q !in hits
    ensures FirstHit(hits, s, start, range, pos)
  {
  }

  /** The position is determined. */
  lemma FirstHitIsOne(hits: iset<int>, s: Bytes, start: int, range: int, p: int, q: int)
    requires FirstHit(hits, s, start, range, p) && FirstHit(hits, s, start, range, q)
    ensures p == q
  {
  }

  /** Where words of the pattern start. */
  ghost function Matching(alt: Alt, s: Bytes): iset<int> {
    iset q: int | MatchesAt(alt, s, q)
  }

  /** Where the machine comes to an end with a match. */
  ghost function Finding(pops: bool, alt: Alt, s: Bytes): iset<int> {
    iset q: int | FoundAt(pops, alt, s, q)
  }

  ghost predicate FoundAt(pops: bool, alt: Alt, s: Bytes, q: int) {
    0 <= q <= |s| && exists end: nat :: Result(pops, AltCode(alt, 0), s, q, Some(end))
  }

  /** The machine finds words only, and where its results are exact it finds one
      wherever one starts. */
  lemma FindsWords(pops: bool, alt: Alt, s: Bytes)
    requires Proper(alt)
    ensures Finding(pops, alt, s) <= Matching(alt, s)
    ensures IsExact(pops, alt) ==> Finding(pops, alt, s) == Matching(alt, s)
  {
    hide AltCode, Proper, IsExact, Result, AltMatches;
    forall q: nat | q <= |s|
      ensures FoundAt(pops, alt, s, q) ==> MatchesAt(alt, s, q)
      ensures IsExact(pops, alt) && MatchesAt(alt, s, q) ==> FoundAt(pops, alt, s, q)
    {
      var end := MachineMatches(pops, alt, s, q);
      FoundIsResult(pops, alt, s, q, end);
    }
  }

  lemma FoundIsResult(pops: bool, alt: Alt, s: Bytes, q: nat, end: Option<nat>)
    requires q <= |s| && Result(pops, AltCode(alt, 0), s, q, end)
    ensures FoundAt(pops, alt, s, q) <==> end.Some?
  {
    hide AltCode, Result;
    if FoundAt(pops, alt, s, q) {
      var end1: nat :| Result(pops, AltCode(alt, 0), s, q, Some(end1));
      ResultIsOne(pops, AltCode(alt, 0), s, q, end, Some(end1));
    }
  }

  lemma NotInTable(alt: Alt, table: seq<bool>, s: Bytes, q: nat)
    requires |table| == 256 && TableOk(alt, table, false)
    requires q == |s| || (q < |s| && !InTable(table, s[q]))
    ensures !MatchesAt(alt, s, q)
  {
    hide AltMatches;
    forall e | q <= e <= |s|
      ensures !AltMatches(alt, s[q..e])
    {
      var w := s[q..e];
      assert w != [] ==> w[0] == s[q];
    }
  }

  lemma NotFound(pops: bool, alt: Alt, table: seq<bool>, s: Bytes, q: nat)
    requires Proper(alt) && |table| == 256 && TableOk(alt, table, false)
    requires q == |s| || (q < |s| && !InTable(table, s[q]))
    ensures q !in Finding(pops, alt, s)
  {
    hide TableOk, MatchesAt, FoundAt;
    NotInTable(alt, table, s, q);
    FindsWords(pops, alt, s);
  }

  /** re_pattern_buffer: the compiled pattern and its fastmap, if it has one. */
  class PatternBuffer {
    ghost const alt: Alt
    const pops: bool
    const buffer: array<Byte>
    const fastmap: array?<bool>
    var accurate: bool
    var canBeNull: bool

    /** The buffer holds the pattern's code, perhaps with loop ends rewritten, and a
        fastmap marked accurate is one. */
    ghost predicate Valid()
      reads this, buffer, fastmap
    {
      && Proper(alt) && Rewritten(pops, AltCode(alt, 0), buffer[..])
      && (fastmap != null ==> fastmap.Length == 256 && (accurate ==> TableOk(alt, fastmap[..], canBeNull)))
    }

    /** The code comes from the compiler; the caller supplies the fastmap. */
    constructor (pops: bool, ghost alt: Alt, code: array<Byte>, fastmap: array?<bool>)
      requires Proper(alt) && code[..] == AltCode(alt, 0) && (fastmap != null ==> fastmap.Length == 256)
      ensures Valid() && this.pops == pops && this.alt == alt && buffer == code && this.fastmap == fastmap
    {
      this.pops, this.alt, buffer, this.fastmap := pops, alt, code, fastmap;
      accurate, canBeNull := false, false;
      new;
      hide AltCode, Start, Proper, TableOk, Rewritten;
      UnchangedIsRewritten(pops, code[..]);
    }

    /** Skip forward over characters that cannot begin a match. */
    method SkipAhead(s: Bytes, startpos: nat, range: nat) returns (pos: nat, left: nat)
      requires Valid() && fastmap != null && accurate && !canBeNull && startpos + range <= |s|
      ensures startpos <= pos && pos + left == startpos + range
      ensures forall q: int | startpos <= q < pos :: q !in Finding(pops, alt, s)
    {
      hide AltCode, Start, Proper, TableOk, Rewritten, Finding;
      left := range;
      var d := startpos;
      while left > 0 && !fastmap[s[d] as int]
        invariant startpos <= d && d + left == startpos + range
        invariant forall q: int | startpos <= q < d :: q !in Finding(pops, alt, s)
      {
        assert !InTable(fastmap[..], s[d]);
        NotFound(pops, alt, fastmap[..], s, d);
        d := d + 1;
        left := left - 1;
      }
      pos := d;
    }

    method MatchAt(s: Bytes, at: nat) returns (found: bool)
      requires Valid() && at <= |s|
      modifies buffer
      ensures Valid() && (found <==> at in Finding(pops, alt, s))
    {
      hide AltCode, Start, Proper, IsExact, TableOk, Rewritten, Finding, SomeMatch, LongestMatch, Result;
      var r := ReMatch(pops, alt, buffer, s, at);
      InFinding(pops, alt, s, at, if r >= 0 then Some(at + r) else None);
      found := r >= 0;
    }

    /** re_search_2 on one string: where the machine first finds a match, with a fastmap
        or without; and if its results are exact, where the first match is. */
    method Search(s: Bytes, startpos: int, range: int) returns (pos: int)
      requires Valid()
      modifies `accurate, `canBeNull, buffer, fastmap
      ensures Valid() && FirstHit(Finding(pops, alt, s), s, startpos, range, pos)
      ensures !(0 <= startpos <= |s|) ==> pos == -1
      ensures 0 <= startpos <= |s| && range >= 0 ==>
        if pos == -1 then forall q | startpos <= q <= startpos + range && q <= |s| :: q !in Finding(pops, alt, s)
        else
          && startpos <= pos <= startpos + range && pos <= |s| && pos in Finding(pops, alt, s)
          && forall q | startpos <= q < pos :: q !in Finding(pops, alt, s)
      ensures 0 <= startpos <= |s| && range < 0 ==>
        if pos == -1 then forall q | startpos + range <= q <= startpos && 0 <= q :: q !in Finding(pops, alt, s)
        else
          && startpos + range <= pos <= startpos && 0 <= pos && pos in Finding(pops, alt, s)
          && forall q | pos < q <= startpos :: q !in Finding(pops, alt, s)
      ensures IsExact(pops, alt) && 0 <= startpos <= |s| && range >= 0 ==>
        if pos == -1 then forall q | startpos <= q <= startpos + range && q <= |s| :: q !in Matching(alt, s)
        else
          && startpos <= pos <= startpos + range && pos <= |s| && pos in Matching(alt, s)
          && forall q | startpos <= q < pos :: q !in Matching(alt, s)
      ensures IsExact(pops, alt) && 0 <= startpos <= |s| && range < 0 ==>
        if pos == -1 then forall q | startpos + range <= q <= startpos && 0 <= q :: q !in Matching(alt, s)
        else
          && startpos + range <= pos <= startpos && 0 <= pos && pos in Matching(alt, s)
          && forall q | pos < q <= startpos :: q !in Matching(alt, s)
    {
      pos := SearchFrom(s, startpos, range);
      hide Finding, Matching, FirstHit, IsExact, Proper, Rewritten, TableOk, AltCode;
      FindsWords(pops, alt, s);
      FirstHitMeans(Finding(pops, alt, s), s, startpos, range, pos);
    }

    /** The loop of re_search_2. */
    method SearchFrom(s: Bytes, startpos: int, range: int) returns (pos: int)
      requires Valid()
      modifies `accurate, `canBeNull, buffer, fastmap
      ensures Valid() && FirstHit(Finding(pops, alt, s), s, startpos, range, pos)
    {
      hide AltCode, Start, Proper, IsExact, TableOk, Rewritten, Finding, Matching, FoundAt, FirstHit, Result;
      if startpos < 0 || startpos > |s| {
        NoHit(Finding(pops, alt, s), s, startpos, range);
        return -1;
      }
      var at: nat, left := startpos, range;
      if startpos + range < 0 {
        left := 0 - startpos;
      } else if startpos + range > |s| {
        left := |s| - startpos;
      }
      ghost var end := SearchEnd(s, startpos, range);
      if fastmap != null && !accurate {
        ProperFits(alt);
        canBeNull := CompileFastmap(pops, alt, buffer, fastmap);
        accurate := true;
      }
      while true
        invariant Valid() && (fastmap != null ==> accurate)
        invariant at <= |s| && at + left == end && (left != 0 ==> (left > 0 <==> end > startpos))
        invariant Tried(startpos, end, at)
        invariant forall q | Tried(startpos, at, q) && q != at :: q !in Finding(pops, alt, s)
        decreases if left >= 0 then left else -left
      {
        var hopeless := false;
        if fastmap != null && at < |s| && !canBeNull {
          if left > 0 {
            at, left := SkipAhead(s, at, left);
          } else {
            hopeless := !fastmap[s[at] as int];
          }
        }
        if left >= 0 && at == |s| && fastmap != null && !canBeNull {
          NotFound(pops, alt, fastmap[..], s, at);
          NoHit(Finding(pops, alt, s), s, startpos, range);
          return -1;
        }
        if hopeless {
          assert !InTable(fastmap[..], s[at]);
          NotFound(pops, alt, fastmap[..], s, at);
        } else {
          var found := MatchAt(s, at);
          if found {
            HitAt(Finding(pops, alt, s), s, startpos, range, at);
            return at;
          }
        }
        if left == 0 {
          NoHit(Finding(pops, alt, s), s, startpos, range);
          return -1;
        } else if left > 0 {
          at, left := at + 1, left - 1;
        } else {
          at, left := at - 1, left + 1;
        }
      }
    }
  }

  lemma InFinding(pops: bool, alt: Alt, s: Bytes, q: nat, end: Option<nat>)
    requires q <= |s| && Result(pops, AltCode(alt, 0), s, q, end)
    ensures q in Finding(pops, alt, s) <==> end.Some?
  {
    hide FoundAt, AltCode, Result;
    FoundIsResult(pops, alt, s, q, end);
  }

  lemma ProperFits(alt: Alt)
    requires Proper(alt)
    ensures Fits(AltCode(alt, 0))
  {
  }
}
