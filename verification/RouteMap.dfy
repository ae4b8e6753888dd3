/** Route maps: the clause lists of routemap.c and how they are evaluated. */
module RouteMap {

  datatype Result = Match | DenyMatch | NoMatch | Error | Okay
  datatype ExitPolicy = Exit | Goto | Next

  /** What one clause says.  Rules are known by number. */
  datatype Clause = Clause(pref: int, permit: bool, exit: ExitPolicy, nextpref: int, matches: seq<int>, sets: seq<int>)

  // ---- Evaluation, from the first clause to the last ----

  /** Match rules are tried until one matches; without rules everything does. */
  function TryRules<T>(rules: seq<int>, matchFn: (int, T) -> Result, obj: T): Result
    decreases |rules|
  {
    if rules == [] then Match
    else if matchFn(rules[0], obj) == Match || |rules| == 1 then matchFn(rules[0], obj)
    else TryRules(rules[1..], matchFn, obj)
  }

  /** A clause matches exactly when it has no rules or one of them matches. */
  lemma {:induction false} AnyRuleMatches<T>(rules: seq<int>, matchFn: (int, T) -> Result, obj: T)
    ensures
      TryRules(rules, matchFn, obj) == Match <==>
        rules == [] || exists k | 0 <= k < |rules| :: matchFn(rules[k], obj) == Match
    decreases |rules|
  {
    if |rules| > 1 {
      AnyRuleMatches(rules[1..], matchFn, obj);
      if k: nat :| k < |rules| && matchFn(rules[k], obj) == Match {
        assert k > 0 ==> rules[1..][k - 1] == rules[k];
      }
    }
  }

  function ApplySets<T>(rules: seq<int>, setFn: (int, T) -> T, obj: T): T {
    if rules == [] then obj else setFn(rules[|rules| - 1], ApplySets(rules[..|rules| - 1], setFn, obj))
  }

  function ClauseResult<T>(c: Clause, matchFn: (int, T) -> Result, obj: T): Result {
    var r := TryRules(c.matches, matchFn, obj);
    if r != Match then r else if c.permit then Match else DenyMatch
  }

  function ClauseEffect<T>(c: Clause, matchFn: (int, T) -> Result, setFn: (int, T) -> T, obj: T): T {
    if ClauseResult(c, matchFn, obj) == Match then ApplySets(c.sets, setFn, obj) else obj
  }

  // ---- What a clause does, in terms of its rules ----

  /** There are no match rules, or one of them matches. */
  ghost predicate Selects<T>(rules: seq<int>, matchFn: (int, T) -> Result, obj: T) {
    rules == [] || exists k | 0 <= k < |rules| :: matchFn(rules[k], obj) == Match
  }

  /** The objects before the first set rule, after it, after the second one, and so on. */
  ghost predicate IsTrace<T>(rules: seq<int>, setFn: (int, T) -> T, os: seq<T>) {
    |os| == |rules| + 1 && forall j | 0 <= j < |rules| :: os[j + 1] == setFn(rules[j], os[j])
  }

  /** The set rules, from the first to the last, turn obj into obj1. */
  ghost predicate SetsTurn<T(!new)>(rules: seq<int>, setFn: (int, T) -> T, obj: T, obj1: T) {
    exists os :: IsTrace(rules, setFn, os) && os[0] == obj && os[|rules|] == obj1
  }

  lemma {:induction false} SetsTurnOnce<T(!new)>(rules: seq<int>, setFn: (int, T) -> T, obj: T, obj1: T)
    ensures SetsTurn(rules, setFn, obj, obj1) <==> obj1 == ApplySets(rules, setFn, obj)
    decreases |rules|
  {
    if rules == [] {
      assert IsTrace(rules, setFn, [obj]);
    } else {
      var n, front := |rules| - 1, rules[..|rules| - 1];
      var mid := ApplySets(front, setFn, obj);
      SetsTurnOnce(front, setFn, obj, mid);
      if SetsTurn(rules, setFn, obj, obj1) {
        var os :| IsTrace(rules, setFn, os) && os[0] == obj && os[n + 1] == obj1;
        assert IsTrace(front, setFn, os[..n + 1]);
        SetsTurnOnce(front, setFn, obj, os[n]);
      }
      var os :| IsTrace(front, setFn, os) && os[0] == obj && os[n] == mid;
      assert IsTrace(rules, setFn, os + [setFn(rules[n], mid)]);
    }
  }

  lemma {:induction false} LastAnswer<T>(rules: seq<int>, matchFn: (int, T) -> Result, obj: T)
    requires TryRules(rules, matchFn, obj) != Match
    ensures rules != [] && TryRules(rules, matchFn, obj) == matchFn(rules[|rules| - 1], obj)
    decreases |rules|
  {
    if |rules| > 1 {
      LastAnswer(rules[1..], matchFn, obj);
    }
  }

  /** A clause whose rules match and that permits runs its set rules and matches; one
      that does not permit denies; and one whose rules do not match gives the answer of
      its last rule. */
  lemma ClauseMeans<T(!new)>(c: Clause, matchFn: (int, T) -> Result, setFn: (int, T) -> T, obj: T)
    ensures
      var (r, obj1) := (ClauseResult(c, matchFn, obj), ClauseEffect(c, matchFn, setFn, obj));
      if !Selects(c.matches, matchFn, obj) then
        c.matches != [] && r == matchFn(c.matches[|c.matches| - 1], obj) && r != Match && obj1 == obj
      else if c.permit then r == Match && SetsTurn(c.sets, setFn, obj, obj1)
      else r == DenyMatch && obj1 == obj
  {
    AnyRuleMatches(c.matches, matchFn, obj);
    if TryRules(c.matches, matchFn, obj) != Match {
      LastAnswer(c.matches, matchFn, obj);
    }
    SetsTurnOnce(c.sets, setFn, obj, ClauseEffect(c, matchFn, setFn, obj));
    hide TryRules, ApplySets, SetsTurn;
  }

  // ---- The evaluation ----

  /** Where a GOTO from clause i ends up, or the number of clauses.  On its way it
      compares with the nextpref of the clause it stands on, not with that of i. */
  function Land(cs: seq<Clause>, i: nat): (j: nat)
    requires i < |cs|
    ensures i < j <= |cs|
    decreases |cs| - i
  {
    if i + 1 == |cs| || cs[i + 1].pref >= cs[i].nextpref then i + 1
    else Land(cs, i + 1)
  }

  /** The result, the changed object, and the clauses whose set rules were run. */
  datatype Outcome<T> = Outcome(result: Result, obj: T, ran: seq<nat>)

  function Evaluate<T>(cs: seq<Clause>, i: nat, matchFn: (int, T) -> Result, setFn: (int, T) -> T, obj: T): Outcome<T>
    requires i <= |cs|
    decreases |cs| - i
  {
    if i == |cs| then Outcome(DenyMatch, obj, [])
    else
      var r := ClauseResult(cs[i], matchFn, obj);
      if r == DenyMatch then Outcome(r, obj, [])
      else if r != Match then Evaluate(cs, i + 1, matchFn, setFn, obj)
      else
        var obj1 := ClauseEffect(cs[i], matchFn, setFn, obj);
        var j := if cs[i].exit == Goto then Land(cs, i) else i + 1;
        if cs[i].exit == Exit || (cs[i].exit == Goto && j == |cs|) then Outcome(r, obj1, [i])
        else
          var rest := Evaluate(cs, j, matchFn, setFn, obj1);
          rest.(ran := [i] + rest.ran)
  }

  /** One clause of the evaluation. */
  lemma EvaluateStep<T>(cs: seq<Clause>, i: nat, matchFn: (int, T) -> Result, setFn: (int, T) -> T, obj: T)
    requires i < |cs|
    ensures
      var (all, r) := (Evaluate(cs, i, matchFn, setFn, obj), ClauseResult(cs[i], matchFn, obj));
      var (obj1, j) := (ClauseEffect(cs[i], matchFn, setFn, obj), if cs[i].exit == Goto then Land(cs, i) else i + 1);
      var rest := Evaluate(cs, j, matchFn, setFn, obj1);
      if r == DenyMatch then all == Outcome(r, obj1, [])
      else if r != Match then all == Evaluate(cs, i + 1, matchFn, setFn, obj1)
      else if cs[i].exit == Exit || (cs[i].exit == Goto && j == |cs|) then all == Outcome(r, obj1, [i])
      else all == Outcome(rest.result, rest.obj, [i] + rest.ran)
  {
    hide Land, TryRules, ApplySets;
  }

  /** Clause numbers from lo on, each higher than the one before. */
  predicate Rising(ran: seq<nat>, lo: nat, n: nat)
    decreases |ran|
  {
    ran == [] || (lo <= ran[0] < n && Rising(ran[1..], ran[0] + 1, n))
  }

  lemma {:induction false} RisingMeans(ran: seq<nat>, lo: nat, n: nat)
    requires Rising(ran, lo, n)
    ensures forall k | 0 <= k < |ran| :: lo <= ran[k] < n
    ensures forall k, l | 0 <= k < l < |ran| :: ran[k] < ran[l]
    decreases |ran|
  {
    if ran != [] {
      RisingMeans(ran[1..], ran[0] + 1, n);
      assert ran == [ran[0]] + ran[1..];
    }
  }

  lemma RisingFrom(ran: seq<nat>, lo: nat, lo1: nat, n: nat)
    requires Rising(ran, lo1, n) && lo <= lo1
    ensures Rising(ran, lo, n)
  {
  }

  /** No clause runs its set rules twice, and later clauses run theirs later. */
  lemma {:induction false} RunsOnce<T>(cs: seq<Clause>, i: nat, matchFn: (int, T) -> Result, setFn: (int, T) -> T,
      obj: T)
    requires i <= |cs|
    ensures Rising(Evaluate(cs, i, matchFn, setFn, obj).ran, i, |cs|)
    decreases |cs| - i
  {
    hide ClauseResult, ClauseEffect, Land;
    if i < |cs| {
      var r := ClauseResult(cs[i], matchFn, obj);
      if r != DenyMatch && r != Match {
        RunsOnce(cs, i + 1, matchFn, setFn, obj);
        RisingFrom(Evaluate(cs, i + 1, matchFn, setFn, obj).ran, i, i + 1, |cs|);
      } else if r == Match && cs[i].exit != Exit {
        var j := if cs[i].exit == Goto then Land(cs, i) else i + 1;
        var obj1 := ClauseEffect(cs[i], matchFn, setFn, obj);
        var rest := Evaluate(cs, j, matchFn, setFn, obj1).ran;
        RunsOnce(cs, j, matchFn, setFn, obj1);
        RisingFrom(rest, i + 1, j, |cs|);
        assert ([i] + rest)[1..] == rest;
      }
    }
  }

  // ---- continue n ----

  /** The clause the documentation promises: the first one behind i whose number is
      not below i's nextpref. */
  function Documented(cs: seq<Clause>, i: nat, j: nat): (r: nat)
    requires i < j <= |cs|
    ensures j <= r <= |cs|
    ensures forall k | j <= k < r :: cs[k].pref < cs[i].nextpref
    ensures r < |cs| ==> cs[r].pref >= cs[i].nextpref
    decreases |cs| - j
  {
    if j == |cs| || cs[j].pref >= cs[i].nextpref then j else Documented(cs, i, j + 1)
  }

  /** Clause j is the first one behind i whose number is not below the nextpref of the
      clause just before it, or the end of the map if there is none. */
  predicate LandsAt(cs: seq<Clause>, i: nat, j: nat)
    requires i < |cs|
  {
    && i < j <= |cs| && (forall k | i < k < j :: cs[k].pref < cs[k - 1].nextpref)
    && (j < |cs| ==> cs[j].pref >= cs[j - 1].nextpref)
  }

  /** Where a jump ends. */
  lemma {:induction false} LandIs(cs: seq<Clause>, i: nat, j: nat)
    requires i < |cs|
    ensures Land(cs, i) == j <==> LandsAt(cs, i, j)
    decreases |cs| - i
  {
    if i + 1 < |cs| && cs[i + 1].pref < cs[i].nextpref {
      LandIs(cs, i + 1, j);
    }
  }

  /** The jump from i lands where it should exactly when every clause it has to skip,
      but for the first, is also below the nextpref of the clause before it, and the
      documented one is not. */
  lemma GotoLands(cs: seq<Clause>, i: nat)
    requires i < |cs|
    ensures
      var d := Documented(cs, i, i + 1);
      Land(cs, i) == d <==>
        && (forall k | i + 2 <= k < d :: cs[k].pref < cs[k - 1].nextpref)
        && (d < |cs| ==> cs[d].pref >= cs[d - 1].nextpref)
  {
    var d := Documented(cs, i, i + 1);
    LandIs(cs, i, d);
    assert i + 1 < d ==> cs[i + 1].pref < cs[i].nextpref;
  }

  /** When no clause behind i jumps past its neighbour, the jump lands where it should
      exactly when it has at most one clause to skip. */
  lemma GotoSkipsOne(cs: seq<Clause>, i: nat)
    requires i < |cs| && forall k | i < k && k + 1 < |cs| :: cs[k].nextpref <= cs[k + 1].pref
    ensures Land(cs, i) == Documented(cs, i, i + 1) <==> Documented(cs, i, i + 1) <= i + 2
  {
    var d := Documented(cs, i, i + 1);
    GotoLands(cs, i);
    if d > i + 2 {
      assert cs[(i + 1) + 1].pref >= cs[i + 1].nextpref;
    }
    if i + 1 < d < |cs| {
      assert cs[(d - 1) + 1].pref >= cs[d - 1].nextpref;
    }
  }

  function Plain(pref: int, exit: ExitPolicy, nextpref: int): Clause {
    Clause(pref, true, exit, nextpref, [], [])
  }

  /** `continue 40` in clause 10 of a map with the clauses 10, 20, 30 and 40 goes on at
      clause 30. */
  lemma ContinueLandsShort()
    ensures
      var cs := [Plain(10, Goto, 40), Plain(20, Exit, 0), Plain(30, Exit, 0), Plain(40, Exit, 0)];
      Documented(cs, 0, 1) == 3 && Land(cs, 0) == 2
  {
    var cs := [Plain(10, Goto, 40), Plain(20, Exit, 0), Plain(30, Exit, 0), Plain(40, Exit, 0)];
    assert Documented(cs, 0, 2) == 3;
  }

  // ---- Maps without GOTO ----

  /** The object when clause k is reached from clause i, if no clause decides before. */
  function ObjAt<T>(cs: seq<Clause>, i: nat, k: nat, matchFn: (int, T) -> Result, setFn: (int, T) -> T, obj: T): T
    requires i <= k <= |cs|
    decreases k - i
  {
    if i == k then obj else ObjAt(cs, i + 1, k, matchFn, setFn, ClauseEffect(cs[i], matchFn, setFn, obj))
  }

  /** The clause denies, or it matches and exits. */
  predicate Decides<T>(c: Clause, matchFn: (int, T) -> Result, obj: T) {
    ClauseResult(c, matchFn, obj) == DenyMatch || (ClauseResult(c, matchFn, obj) == Match && c.exit == Exit)
  }

  /** Is k the first clause from i on that decides, or the number of clauses if none
      does? */
  predicate FirstDecides<T>(cs: seq<Clause>, i: nat, k: nat, matchFn: (int, T) -> Result, setFn: (int, T) -> T,
      obj: T) {
    && i <= k <= |cs|
    && (forall m | i <= m < k :: !Decides(cs[m], matchFn, ObjAt(cs, i, m, matchFn, setFn, obj)))
    && (k < |cs| ==> Decides(cs[k], matchFn, ObjAt(cs, i, k, matchFn, setFn, obj)))
  }

  /** Without GOTO the map is read as documented: the first clause that decides gives
      the result, and running off the end denies; the clauses up to there that match
      have changed the object, in order, and no others. */
  lemma {:induction false} FirstToLast<T>(cs: seq<Clause>, i: nat, matchFn: (int, T) -> Result, setFn: (int, T) -> T,
      obj: T)
    returns (k: nat)
    requires i <= |cs| && forall m | 0 <= m < |cs| :: cs[m].exit != Goto
    ensures FirstDecides(cs, i, k, matchFn, setFn, obj)
    ensures
      var (o, at) := (Evaluate(cs, i, matchFn, setFn, obj), ObjAt(cs, i, k, matchFn, setFn, obj));
      && o.result == (if k < |cs| then ClauseResult(cs[k], matchFn, at) else DenyMatch)
      && o.obj == (if k < |cs| then ClauseEffect(cs[k], matchFn, setFn, at) else at)
      && forall m: nat :: m in o.ran <==>
           i <= m <= k && m < |cs| && ClauseResult(cs[m], matchFn, ObjAt(cs, i, m, matchFn, setFn, obj)) == Match
    decreases |cs| - i
  {
    hide ClauseEffect, ClauseResult, Land;
    if i == |cs| {
      k := i;
    } else if Decides(cs[i], matchFn, obj) {
      EvaluateStep(cs, i, matchFn, setFn, obj);
      k := i;
    } else {
      EvaluateStep(cs, i, matchFn, setFn, obj);
      NoEffect(cs[i], matchFn, setFn, obj);
      k := FirstToLast(cs, i + 1, matchFn, setFn, ClauseEffect(cs[i], matchFn, setFn, obj));
    }
  }

  lemma NoEffect<T>(c: Clause, matchFn: (int, T) -> Result, setFn: (int, T) -> T, obj: T)
    ensures ClauseResult(c, matchFn, obj) != Match ==> ClauseEffect(c, matchFn, setFn, obj) == obj
  {
    hide ClauseResult;
  }

  // ---- The way through a map ----

  /** With o at clause i the evaluation goes on with o1 at clause j. */
  ghost predicate Moves<T(!new)>(cs: seq<Clause>, i: nat, o: T, j: nat, o1: T, matchFn: (int, T) -> Result,
      setFn: (int, T) -> T)
    requires i < |cs|
  {
    var c := cs[i];
    if Selects(c.matches, matchFn, o) then
      && c.permit && SetsTurn(c.sets, setFn, o, o1)
      && (if c.exit == Next then j == i + 1 else c.exit == Goto && LandsAt(cs, i, j) && j < |cs|)
    else matchFn(c.matches[|c.matches| - 1], o) != DenyMatch && o1 == o && j == i + 1
  }

  /** With o at clause i, or at the end of the map, it ends with this result. */
  ghost predicate Stops<T(!new)>(cs: seq<Clause>, i: nat, o: T, ret: Result, obj: T, matchFn: (int, T) -> Result,
      setFn: (int, T) -> T)
    requires i <= |cs|
  {
    if i == |cs| then ret == DenyMatch && obj == o
    else
      var c := cs[i];
      if Selects(c.matches, matchFn, o) && c.permit then
        && ret == Match && SetsTurn(c.sets, setFn, o, obj)
        && (c.exit == Exit || (c.exit == Goto && LandsAt(cs, i, |cs|)))
      else
        && ret == DenyMatch && obj == o
        && (Selects(c.matches, matchFn, o) || matchFn(c.matches[|c.matches| - 1], o) == DenyMatch)
  }

  /** The clauses that are reached, and the object at each of them. */
  ghost predicate IsWay<T(!new)>(cs: seq<Clause>, path: seq<nat>, os: seq<T>, i: nat, obj: T,
      matchFn: (int, T) -> Result, setFn: (int, T) -> T) {
    && |path| == |os| > 0 && path[0] == i && os[0] == obj && path[|path| - 1] <= |cs|
    && forall m | 0 <= m < |path| - 1 ::
         path[m] < |cs| && Moves(cs, path[m], os[m], path[m + 1], os[m + 1], matchFn, setFn)
  }

  lemma {:induction false} EvaluateWay<T(!new)>(cs: seq<Clause>, i: nat, matchFn: (int, T) -> Result,
      setFn: (int, T) -> T, obj: T)
    returns (path: seq<nat>, os: seq<T>)
    requires i <= |cs|
    ensures IsWay(cs, path, os, i, obj, matchFn, setFn)
    ensures
      var (o, n) := (Evaluate(cs, i, matchFn, setFn, obj), |path| - 1);
      Stops(cs, path[n], os[n], o.result, o.obj, matchFn, setFn)
    decreases |cs| - i
  {
    hide ClauseResult, ClauseEffect, Land, Selects, SetsTurn, LandsAt;
    path, os := [i], [obj];
    if i < |cs| {
      var c, obj1 := cs[i], ClauseEffect(cs[i], matchFn, setFn, obj);
      var j := if c.exit == Goto then Land(cs, i) else i + 1;
      EvaluateStep(cs, i, matchFn, setFn, obj);
      ClauseMeans(c, matchFn, setFn, obj);
      LandIs(cs, i, Land(cs, i));
      var more, objs;
      if !Selects(c.matches, matchFn, obj) && matchFn(c.matches[|c.matches| - 1], obj) != DenyMatch {
        more, objs := EvaluateWay(cs, i + 1, matchFn, setFn, obj);
        path, os := Longer(cs, i, obj, more, objs, matchFn, setFn);
      } else if Selects(c.matches, matchFn, obj) && c.permit && c.exit != Exit && !(c.exit == Goto && j == |cs|) {
        more, objs := EvaluateWay(cs, j, matchFn, setFn, obj1);
        path, os := Longer(cs, i, obj, more, objs, matchFn, setFn);
      }
    }
  }

  lemma Longer<T(!new)>(cs: seq<Clause>, i: nat, obj: T, more: seq<nat>, objs: seq<T>, matchFn: (int, T) -> Result,
      setFn: (int, T) -> T)
    returns (path: seq<nat>, os: seq<T>)
    requires more != [] && objs != [] && IsWay(cs, more, objs, more[0], objs[0], matchFn, setFn)
    requires i < |cs| && Moves(cs, i, obj, more[0], objs[0], matchFn, setFn)
    ensures path == [i] + more && os == [obj] + objs && IsWay(cs, path, os, i, obj, matchFn, setFn)
  {
    hide Moves;
    path, os := [i] + more, [obj] + objs;
    forall m | 0 <= m < |path| - 1
      ensures path[m] < |cs| && Moves(cs, path[m], os[m], path[m + 1], os[m + 1], matchFn, setFn)
    {
      if m > 0 {
        assert path[m] == more[m - 1] && os[m] == objs[m - 1];
      }
    }
  }

  // ---- The clause list ----

  /** struct route_map_index */
  class Index {
    const pref: int
    const permit: bool
    var exit: ExitPolicy
    var nextpref: int
    var matches: seq<int>
    var sets: seq<int>
    var next: Index?
    var prev: Index?

    /** route_map_index_new */
    constructor (permit: bool, pref: int)
      ensures this.permit == permit && this.pref == pref && exit == Exit && nextpref == 0 && matches == [] && sets == []
      ensures next == null && prev == null
    {
      this.permit, this.pref := permit, pref;
      exit, nextpref, matches, sets := Exit, 0, [], [];
      next, prev := null, null;
    }

    function Says(): Clause
      reads `exit, `nextpref, `matches, `sets
    {
      Clause(pref, permit, exit, nextpref, matches, sets)
    }
  }

  /** struct route_map */
  class Map {
    var head: Index?
    var tail: Index?
    ghost var list: seq<Index>

    ghost predicate Linked(i: nat)
      requires i < |list|
      reads this, list
    {
      && list[i].next == (if i + 1 < |list| then list[i + 1] else null)
      && list[i].prev == (if i > 0 then list[i - 1] else null)
    }

    /** The list is doubly linked, and the clauses are numbered in increasing order. */
    ghost predicate Valid()
      reads this, list
    {
      && head == (if list == [] then null else list[0])
      && tail == (if list == [] then null else list[|list| - 1])
      && (forall i, j | 0 <= i < j < |list| :: list[i] != list[j] && list[i].pref < list[j].pref)
      && (forall i | 0 <= i < |list| :: Linked(i))
    }

    constructor ()
      ensures Valid() && list == []
    {
      head, tail, list := null, null, [];
    }

    /** What the clauses say, in order. */
    ghost function Clauses(from: nat): (cs: seq<Clause>)
      requires from <= |list|
      reads this, list
      ensures |cs| == |list| - from
      ensures forall i | 0 <= i < |cs| :: cs[i] == list[from + i].Says()
      decreases |list| - from
    {
      if from == |list| then [] else [list[from].Says()] + Clauses(from + 1)
    }

    /** route_map_index_lookup, for a clause of any type. */
    method Lookup(pref: int) returns (index: Index?)
      requires Valid()
      ensures index != null ==> index in list && index.pref == pref
      ensures index == null ==> forall x | x in list :: x.pref != pref
    {
      index := head;
      ghost var k := 0;
      while index != null
        invariant 0 <= k <= |list| && index == (if k < |list| then list[k] else null)
        invariant forall i | 0 <= i < k :: list[i].pref != pref
        decreases |list| - k
      {
        if index.pref == pref {
          return;
        }
        assert Linked(k);
        index := index.next;
        k := k + 1;
      }
    }

    /** The first clause that is not numbered below pref. */
    method FindPoint(pref: int) returns (point: Index?, ghost k: nat)
      requires Valid()
      ensures k <= |list| && point == (if k < |list| then list[k] else null)
      ensures forall i | 0 <= i < k :: list[i].pref < pref
      ensures k < |list| ==> list[k].pref >= pref
    {
      point, k := head, 0;
      while point != null && point.pref < pref
        invariant 0 <= k <= |list| && point == (if k < |list| then list[k] else null)
        invariant forall i | 0 <= i < k :: list[i].pref < pref
        decreases |list| - k
      {
        assert Linked(k);
        point := point.next;
        k := k + 1;
      }
    }

    /** route_map_index_add, for a number that no clause has. */
    method Add(permit: bool, pref: int) returns (index: Index, ghost k: nat)
      requires Valid() && forall x | x in list :: x.pref != pref
      modifies this, set x | x in list :: x`next, set x | x in list :: x`prev
      ensures Valid() && fresh(index) && k <= |old(list)| && list == old(list)[..k] + [index] + old(list)[k..]
      ensures index.Says() == Clause(pref, permit, Exit, 0, [], [])
    {
      var point;
      point, k := FindPoint(pref);
      Above(pref, k);
      index := new Index(permit, pref);
      hide Valid;
      Insert(index, point, k);
    }

    lemma Above(pref: int, k: nat)
      requires Valid() && (forall x | x in list :: x.pref != pref)
      requires k <= |list| && (k < |list| ==> list[k].pref >= pref)
      ensures forall i | k <= i < |list| :: list[i].pref > pref
    {
      hide Linked;
      assert forall i | k <= i < |list| :: list[i] in list;
    }

    method Insert(index: Index, point: Index?, ghost k: nat)
      requires Valid() && index !in list && index.next == null && index.prev == null
      requires k <= |list| && point == (if k < |list| then list[k] else null)
      requires forall i | 0 <= i < k :: list[i].pref < index.pref
      requires forall i | k <= i < |list| :: list[i].pref > index.pref
      modifies this, index`next, index`prev, set x | x in list :: x`next, set x | x in list :: x`prev
      ensures Valid() && list == old(list)[..k] + [index] + old(list)[k..]
    {
      hide Linked;
      LinkIn(index, point, k);
      list := list[..k] + [index] + list[k..];
      Inserted(index, k);
    }

    /** The pointers of a new clause before `point`, or at the end. */
    method LinkIn(index: Index, point: Index?, ghost k: nat)
      requires Valid() && index !in list && index.next == null && index.prev == null
      requires k <= |list| && point == (if k < |list| then list[k] else null)
      modifies `head, `tail, index`next, index`prev, set x | x in list :: x`next, set x | x in list :: x`prev
      ensures head == (if k == 0 then index else old(head)) && tail == (if k == |list| then index else old(tail))
      ensures index.prev == (if k > 0 then list[k - 1] else null) && index.next == point
      ensures forall i | 0 <= i < |list| :: list[i].next == if i + 1 == k then index else old(list[i].next)
      ensures forall i | 0 <= i < |list| :: list[i].prev == if i == k then index else old(list[i].prev)
    {
      hide Linked;
      Neighbours(k);
      if head == null {
        head := index;
        tail := index;
      } else if point == null {
        index.prev := tail;
        tail.next := index;
        tail := index;
      } else if point == head {
        index.next := head;
        head.prev := index;
        head := index;
      } else {
        index.next := point;
        index.prev := point.prev;
        if point.prev != null {
          point.prev.next := index;
        }
        point.prev := index;
      }
    }

    lemma Neighbours(k: nat)
      requires Valid() && k <= |list|
      ensures head != null ==> head in list && tail in list && tail == list[|list| - 1]
      ensures k < |list| ==> list[k] in list && list[k].prev == (if k > 0 then list[k - 1] else null)
      ensures k > 0 ==> list[k - 1] in list
    {
      assert k < |list| ==> Linked(k);
    }

    twostate lemma Inserted(new index: Index, new k: nat)
      requires k <= |old(list)| && list == old(list)[..k] + [index] + old(list)[k..] && index !in old(list)
      requires old(Valid())
      requires head == (if k == 0 then index else old(head)) && tail == (if k == |old(list)| then index else old(tail))
      requires index.prev == (if k > 0 then old(list)[k - 1] else null)
      requires index.next == (if k < |old(list)| then old(list)[k] else null)
      requires forall i | 0 <= i < |old(list)| :: old(list)[i].next == if i + 1 == k then index else old(list[i].next)
      requires forall i | 0 <= i < |old(list)| :: old(list)[i].prev == if i == k then index else old(list[i].prev)
      requires forall i | 0 <= i < k :: old(list)[i].pref < index.pref
      requires forall i | k <= i < |old(list)| :: old(list)[i].pref > index.pref
      ensures Valid()
    {
      forall i | 0 <= i < |list|
        ensures Linked(i)
      {
        if i < k {
          assert old(Linked(i));
        } else if i > k {
          assert old(Linked(i - 1));
        }
      }
    }

    /** route_map_index_delete */
    method Delete(index: Index, ghost k: nat)
      requires Valid() && k < |list| && list[k] == index
      modifies this, set x | x in list :: x`next, set x | x in list :: x`prev
      ensures Valid() && list == old(list)[..k] + old(list)[k + 1..]
    {
      assert Linked(k);
      assert k > 0 ==> Linked(k - 1) && list[k - 1] in list;
      assert k + 1 < |list| ==> Linked(k + 1) && list[k + 1] in list;
      if index.next != null {
        index.next.prev := index.prev;
      } else {
        tail := index.prev;
      }
      if index.prev != null {
        index.prev.next := index.next;
      } else {
        head := index.next;
      }
      list := list[..k] + list[k + 1..];
      Removed(k);
    }

    twostate lemma Removed(new k: nat)
      requires k < |old(list)| && list == old(list)[..k] + old(list)[k + 1..]
      requires old(Valid())
      requires head == (if k == 0 then old(list[k].next) else old(head))
      requires tail == (if k + 1 == |old(list)| then old(list[k].prev) else old(tail))
      requires forall i | 0 <= i < |old(list)| && i != k ::
        old(list)[i].next == if i + 1 == k then old(list[k].next) else old(list[i].next)
      requires forall i | 0 <= i < |old(list)| && i != k ::
        old(list)[i].prev == if i == k + 1 then old(list[k].prev) else old(list[i].prev)
      ensures Valid()
    {
      assert old(Linked(k));
      forall i | 0 <= i < |list|
        ensures Linked(i)
      {
        assert old(Linked(if i < k then i else i + 1));
      }
    }

    /** Delete, with its effect on what is in the list. */
    method Discard(index: Index)
      requires Valid() && index in list
      modifies this, set x | x in list :: x`next, set x | x in list :: x`prev
      ensures Valid() && forall x :: x in list <==> x in old(list) && x != index
    {
      hide Linked;
      ghost var k :| 0 <= k < |list| && list[k] == index;
      ghost var before := list;
      Delete(index, k);
      assert before == before[..k] + [index] + before[k + 1..];
    }

    /** Add, with its effect on what is in the list. */
    method Enter(permit: bool, pref: int) returns (index: Index)
      requires Valid() && forall x | x in list :: x.pref != pref
      modifies this, set x | x in list :: x`next, set x | x in list :: x`prev
      ensures Valid() && fresh(index) && forall x :: x in list <==> x in old(list) || x == index
      ensures index.Says() == Clause(pref, permit, Exit, 0, [], [])
    {
      hide Linked;
      ghost var before := list;
      ghost var k;
      index, k := Add(permit, pref);
      assert before == before[..k] + before[k..];
    }

    /** route_map_index_get: a clause of the other type is thrown away first. */
    method Get(permit: bool, pref: int) returns (index: Index)
      requires Valid()
      modifies this, set x | x in list :: x`next, set x | x in list :: x`prev
      ensures Valid() && index in list && index.pref == pref && index.permit == permit
      ensures forall x :: x in list <==> x == index || (x in old(list) && x.pref != pref)
      ensures index in old(list) || (fresh(index) && index.Says() == Clause(pref, permit, Exit, 0, [], []))
    {
      hide Linked;
      var found := Lookup(pref);
      OneOfANumber();
      if found != null && found.permit != permit {
        Discard(found);
        found := null;
      }
      if found == null {
        index := Enter(permit, pref);
      } else {
        index := found;
      }
    }

    lemma OneOfANumber()
      requires Valid()
      ensures forall x, y | x in list && y in list && x.pref == y.pref :: x == y
    {
    }

    /** The GOTO loop of route_map_apply: to the clause before the one to go to. */
    method GoOn(index: Index, ghost i: nat) returns (last: Index, next: Index?, ghost j: nat)
      requires Valid() && i < |list| && index == list[i]
      ensures
        var to := Land(Clauses(0), i);
        to <= |list| && last == list[to - 1] && next == (if to < |list| then list[to] else null)
      ensures j == Land(Clauses(0), i)
    {
      hide Clauses;
      ghost var cs := Clauses(0);
      last, j := index, i + 1;
      assert Linked(i);
      next := index.next;
      while next != null && next.pref < last.nextpref
        invariant i < j <= |list| && last == list[j - 1] && next == (if j < |list| then list[j] else null)
        invariant Land(cs, j - 1) == Land(cs, i)
        decreases |list| - j
      {
        assert cs[j] == list[j].Says() && cs[j - 1] == list[j - 1].Says();
        assert Linked(j);
        last := next;
        next := next.next;
        j := j + 1;
      }
      assert j < |list| ==> cs[j] == list[j].Says();
      assert cs[j - 1] == list[j - 1].Says();
    }

    /** route_map_apply, with the clauses that are reached and the object at each of
        them. */
    method Apply<T(!new)>(matchFn: (int, T) -> Result, setFn: (int, T) -> T, start: T)
      returns (ret: Result, obj: T, ghost ran: seq<nat>, ghost path: seq<nat>, ghost os: seq<T>)
      requires Valid()
      ensures IsWay(Clauses(0), path, os, 0, start, matchFn, setFn)
      ensures Stops(Clauses(0), path[|path| - 1], os[|path| - 1], ret, obj, matchFn, setFn)
      ensures list == [] ==> ret == DenyMatch && obj == start
      ensures
        list != [] && list[0].exit == Exit
        && (list[0].matches == [] || exists k | 0 <= k < |list[0].matches| ::
              matchFn(list[0].matches[k], start) == Match) ==>
          if list[0].permit then ret == Match && SetsTurn(list[0].sets, setFn, start, obj)
          else ret == DenyMatch && obj == start
      ensures
        |list| == 1 && list[0].exit == Next && list[0].permit && list[0].matches == [] ==>
          ret == DenyMatch && SetsTurn(list[0].sets, setFn, start, obj)
      ensures
        var all := Evaluate(Clauses(0), 0, matchFn, setFn, start);
        ret == all.result && obj == all.obj
      ensures ran == Evaluate(Clauses(0), 0, matchFn, setFn, start).ran
    {
      ret, obj, ran := ApplyAll(matchFn, setFn, start);
      path, os := EvaluateWay(Clauses(0), 0, matchFn, setFn, start);
      hide IsWay, Stops, SetsTurn, Valid, Linked, ClauseResult, ClauseEffect;
      if list == [] {
        EvaluateEnd(Clauses(0), matchFn, setFn, start);
      } else {
        assert Clauses(0)[0] == list[0].Says();
        EvaluateStep(Clauses(0), 0, matchFn, setFn, start);
        ClauseMeans(list[0].Says(), matchFn, setFn, start);
        EvaluateEnd(Clauses(0), matchFn, setFn, ClauseEffect(list[0].Says(), matchFn, setFn, start));
      }
    }

    /** The loop of route_map_apply. */
    method ApplyAll<T(!new)>(matchFn: (int, T) -> Result, setFn: (int, T) -> T, start: T)
      returns (ret: Result, obj: T, ghost ran: seq<nat>)
      requires Valid()
      ensures
        var all := Evaluate(Clauses(0), 0, matchFn, setFn, start);
        ret == all.result && obj == all.obj
      ensures ran == Evaluate(Clauses(0), 0, matchFn, setFn, start).ran
    {
      hide Clauses, Linked, ClauseResult, ClauseEffect, Land, Evaluate, Behind, Valid;
      ghost var cs, all := Clauses(0), Evaluate(Clauses(0), 0, matchFn, setFn, start);
      obj, ran := start, [];
      BehindNone([], all);
      HeadIsFirst();
      var index := head;
      ghost var i := 0;
      while index != null
        invariant 0 <= i <= |list| && index == (if i < |list| then list[i] else null)
        invariant all == Behind(ran, Evaluate(cs, i, matchFn, setFn, obj))
        decreases |list| - i
      {
        assert cs[i] == list[i].Says();
        EvaluateStep(cs, i, matchFn, setFn, obj);
        BehindNone(ran, Evaluate(cs, i, matchFn, setFn, obj));
        NextOf(i);
        ghost var before, obj0 := ran, obj;
        ret, obj := ApplyIndex(index, matchFn, setFn, obj);
        if ret == DenyMatch {
          return;
        }
        if ret == Match {
          ran := ran + [i];
          BehindLast(before, i, Evaluate(cs, i, matchFn, setFn, obj0));
          if index.exit == Exit {
            return;
          }
          if index.exit == Goto {
            var next; ghost var j;
            index, next, j := GoOn(index, i);
            if next == null {
              return;
            }
            i := j - 1;
            NextOf(i);
          }
          BehindOne(before, ran[|before|], Evaluate(cs, i + 1, matchFn, setFn, obj));
        }
        index := index.next;
        i := i + 1;
      }
      ret := DenyMatch;
      EvaluateEnd(cs, matchFn, setFn, obj);
      BehindNone(ran, Evaluate(cs, i, matchFn, setFn, obj));
    }

    lemma HeadIsFirst()
      requires Valid()
      ensures head == (if list == [] then null else list[0])
    {
    }

    lemma NextOf(i: nat)
      requires Valid() && i < |list|
      ensures list[i].next == (if i + 1 < |list| then list[i + 1] else null)
    {
      assert Linked(i);
    }
  }

  /** An outcome, with clauses that ran before. */
  function Behind<T>(ran: seq<nat>, o: Outcome<T>): Outcome<T> {
    Outcome(o.result, o.obj, ran + o.ran)
  }

  lemma BehindOne<T>(ran: seq<nat>, i: nat, o: Outcome<T>)
    ensures Behind(ran, Outcome(o.result, o.obj, [i] + o.ran)) == Behind(ran + [i], o)
  {
    assert ran + ([i] + o.ran) == ran + [i] + o.ran;
  }

  lemma BehindNone<T>(ran: seq<nat>, o: Outcome<T>)
    ensures ran == [] ==> Behind(ran, o) == o
    ensures o.ran == [] ==> Behind(ran, o) == Outcome(o.result, o.obj, ran)
  {
    assert ran + [] == ran && [] + o.ran == o.ran;
  }

  lemma BehindLast<T>(ran: seq<nat>, i: nat, o: Outcome<T>)
    ensures o.ran == [i] ==> Behind(ran, o) == Outcome(o.result, o.obj, ran + [i])
  {
  }

  lemma EvaluateEnd<T>(cs: seq<Clause>, matchFn: (int, T) -> Result, setFn: (int, T) -> T, obj: T)
    ensures Evaluate(cs, |cs|, matchFn, setFn, obj) == Outcome(DenyMatch, obj, [])
  {
  }

  /** route_map_apply_index */
  method ApplyIndex<T(!new)>(index: Index, matchFn: (int, T) -> Result, setFn: (int, T) -> T, start: T)
    returns (ret: Result, obj: T)
    ensures
      ret == Match <==>
        index.permit
        && (index.matches == [] || exists k | 0 <= k < |index.matches| :: matchFn(index.matches[k], start) == Match)
    ensures
      index.matches == [] || (exists k | 0 <= k < |index.matches| :: matchFn(index.matches[k], start) == Match) ==>
        ret == if index.permit then Match else DenyMatch
    ensures
      index.matches != [] && (forall k | 0 <= k < |index.matches| :: matchFn(index.matches[k], start) != Match) ==>
        ret == matchFn(index.matches[|index.matches| - 1], start)
    ensures ret != Match ==> obj == start
    ensures
      ret == Match ==>
        exists os: seq<T> ::
          && |os| == |index.sets| + 1 && os[0] == start && os[|index.sets|] == obj
          && forall j | 0 <= j < |index.sets| :: os[j + 1] == setFn(index.sets[j], os[j])
    ensures ret == ClauseResult(index.Says(), matchFn, start)
    ensures obj == ClauseEffect(index.Says(), matchFn, setFn, start)
  {
    ClauseMeans(index.Says(), matchFn, setFn, start);
    obj := start;
    ret := Match;
    var k := 0;
    while k < |index.matches|
      invariant 0 <= k <= |index.matches|
      invariant k == 0 || ret != Match
      invariant TryRules(index.matches, matchFn, start)
             == if k == |index.matches| then ret else TryRules(index.matches[k..], matchFn, start)
    {
      assert index.matches[k..][1..] == index.matches[k + 1..];
      ret := matchFn(index.matches[k], obj);
      if ret == Match {
        break;
      }
      k := k + 1;
    }
    assert ret == TryRules(index.matches, matchFn, start);
    if ret != Match {
      return;
    }
    if index.permit {
      var j := 0;
      while j < |index.sets|
        invariant 0 <= j <= |index.sets| && obj == ApplySets(index.sets[..j], setFn, start)
      {
        assert index.sets[..j + 1][..j] == index.sets[..j];
        obj := setFn(index.sets[j], obj);
        j := j + 1;
      }
      assert index.sets[..j] == index.sets;
      ret := Match;
    } else {
      ret := DenyMatch;
    }
  }
}
