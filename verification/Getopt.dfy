/** The permuting scan of getopt.c for short options: argv ends up with the options
    and their arguments in front, and the other arguments behind them. */
module Getopt {
  import opened Options

  type Args = seq<string>

  // ---- The reference: sorting the arguments in one reading ----

  predicate IsOption(arg: string) {
    |arg| >= 2 && arg[0] == '-' && arg != "--"
  }

  /** Where c is first in the option string, or its length. */
  function Index(optstring: string, c: char): (i: nat)
    ensures i <= |optstring| && c !in optstring[..i]
    ensures i < |optstring| ==> optstring[i] == c
    ensures i == |optstring| <==> c !in optstring
  {
    if optstring == "" then 0 else if optstring[0] == c then 0 else 1 + Index(optstring[1..], c)
  }

  predicate Known(optstring: string, c: char) {
    Index(optstring, c) < |optstring| && c != ':'
  }

  /** How many colons follow c, at most two. */
  function Colons(optstring: string, c: char): nat {
    var i := Index(optstring, c);
    if i + 1 < |optstring| && optstring[i + 1] == ':' then
      if i + 2 < |optstring| && optstring[i + 2] == ':' then 2 else 1
    else 0
  }

  /** Do these option characters end with one that needs an argument and has none
      behind it in the element? */
  predicate WantsNext(optstring: string, chars: string) {
    if chars == "" then false
    else if !Known(optstring, chars[0]) || Colons(optstring, chars[0]) == 0 then WantsNext(optstring, chars[1..])
    else Colons(optstring, chars[0]) == 1 && |chars| == 1
  }

  /** How many elements the first one takes: itself, and perhaps its argument. */
  function Taken(optstring: string, args: Args): (k: nat)
    requires args != []
    ensures 1 <= k <= |args|
  {
    if IsOption(args[0]) && |args| > 1 && WantsNext(optstring, args[0][1..]) then 2 else 1
  }

  /** The options with their arguments, and the others, each in order.  `--` is the
      last of the options. */
  function Sorted(optstring: string, args: Args): (Args, Args) {
    if args == [] then ([], [])
    else if args[0] == "--" then ([args[0]], args[1..])
    else
      var k := Taken(optstring, args);
      var (o, n) := Sorted(optstring, args[k..]);
      if IsOption(args[0]) then (args[..k] + o, n) else (o, args[..k] + n)
  }

  lemma InFront(x: Args, o: Args, n: Args)
    ensures multiset(x + o + n) == multiset(x) + multiset(o + n)
  {
    assert x + o + n == x + (o + n);
  }

  lemma InBetween(x: Args, o: Args, n: Args)
    ensures multiset(o + (x + n)) == multiset(x) + multiset(o + n)
  {
  }

  /** Nothing is lost or invented. */
  lemma {:induction false} SortedKeepsAll(optstring: string, args: Args)
    ensures var (o, n) := Sorted(optstring, args); multiset(o + n) == multiset(args)
  {
    hide IsOption, Taken;
    if args != [] {
      if args[0] == "--" {
        assert [args[0]] + args[1..] == args;
      } else {
        var k := Taken(optstring, args);
        SortedKeepsAll(optstring, args[k..]);
        var (o, n) := Sorted(optstring, args[k..]);
        InFront(args[..k], o, n);
        InBetween(args[..k], o, n);
        assert multiset(args) == multiset(args[..k]) + multiset(args[k..]) by { assert args == args[..k] + args[k..]; }
      }
    }
  }

  // ---- exchange ----

  /** Swap two blocks of the same length, x at i and y at j, that do not overlap. */
  method SwapBlocks(argv: array<string>, i: nat, j: nat, len: nat, ghost p: Args, ghost x: Args, ghost m: Args,
      ghost y: Args,
      ghost s: Args)
    requires argv[..] == p + x + m + y + s && |p| == i && |x| == |y| == len && |p| + |x| + |m| == j
    modifies argv
    ensures argv[..] == p + y + m + x + s
  {
    for k := 0 to len
      invariant argv[..] == p + (y[..k] + x[k..]) + m + (x[..k] + y[k..]) + s
    {
      ghost var was := argv[..];
      argv[i + k], argv[j + k] := argv[j + k], argv[i + k];
      assert argv[..] == was[i + k := was[j + k]][j + k := was[i + k]];
      SwapNext(p, x, m, y, s, k);
    }
  }

  /** One more element of each block has changed places. */
  lemma SwapNext(p: Args, x: Args, m: Args, y: Args, s: Args, k: nat)
    requires k < |x| == |y|
    ensures
      var was := p + (y[..k] + x[k..]) + m + (x[..k] + y[k..]) + s;
      var (i, j) := (|p| + k, |p| + |x| + |m| + k);
      was[i := was[j]][j := was[i]] == p + (y[..k + 1] + x[k + 1..]) + m + (x[..k + 1] + y[k + 1..]) + s
  {
    var (x1, y1) := (y[..k] + x[k..], x[..k] + y[k..]);
    var was := p + x1 + m + y1 + s;
    var (i, j) := (|p| + k, |p| + |x| + |m| + k);
    assert was[i] == x[k] && was[j] == y[k];
    assert x1[k := y[k]] == y[..k + 1] + x[k + 1..] && y1[k := x[k]] == x[..k + 1] + y[k + 1..];
    assert was[i := y[k]] == p + x1[k := y[k]] + m + y1 + s;
    assert (p + x1[k := y[k]] + m + y1 + s)[j := x[k]] == p + x1[k := y[k]] + m + y1[k := x[k]] + s;
  }

  /** exchange: the blocks x = [bottom, middle) and y = [middle, top) change places. */
  method Exchange(argv: array<string>, first: nat, last: nat, optind: nat)
    requires first <= last <= optind <= argv.Length
    modifies argv
    ensures argv[..] == old(argv[..first]) + old(argv[last..optind]) + old(argv[first..last]) + old(argv[optind..])
  {
    var bottom, middle, top := first, last, optind;
    ghost var p, x, y, s := argv[..first], argv[first..last], argv[last..optind], argv[optind..];
    ghost var goal := p + y + x + s;
    assert argv[..] == p + x + y + s;
    while top > middle > bottom
      invariant |p| == bottom && |p| + |x| == middle && |p| + |x| + |y| == top
      invariant argv[..] == p + x + y + s && p + y + x + s == goal
      decreases top - bottom
    {
      if top - middle > middle - bottom {
        var len := middle - bottom;
        ghost var y1, y2 := y[..|y| - len], y[|y| - len..];
        assert y == y1 + y2;
        Regroup(p, x, y1, y2, s);
        SwapBlocks(argv, bottom, top - len, len, p, x, y1, y2, s);
        Regroup(p, y2, y1, x, s);
        Regroup(p, y1, y2, x, s);
        x, y, s := y2, y1, x + s;
        top := top - len;
      } else {
        var len := top - middle;
        ghost var x1, x2 := x[..len], x[len..];
        assert x == x1 + x2;
        Regroup(p, x1, x2, y, s);
        SwapBlocks(argv, bottom, middle, len, p, x1, x2, y, s);
        Regroup(p, y, x2, x1, s);
        Regroup(p, y, x1, x2, s);
        p, x, y := p + y, x2, x1;
        bottom := bottom + len;
      }
    }
    assert x == [] || y == [];
  }

  lemma Regroup(p: Args, x: Args, m: Args, y: Args, s: Args)
    ensures p + x + m + y + s == p + (x + m) + y + s == p + x + (m + y) + s == p + x + m + (y + s)
  {
  }

  // ---- The scan ----

  /** What is reported for the first of the option characters: the character, or an
      error; and its argument, from the rest of the element or from the next one. */
  function Reported(optstring: string, chars: string, none: Option<string>, following: Args): (char, Option<string>)
    requires chars != ""
  {
    var c, attached := chars[0], chars[1..];
    if !Known(optstring, c) then ('?', none)
    else if Colons(optstring, c) == 0 then (c, none)
    else if attached != "" then (c, Some(attached))
    else if Colons(optstring, c) == 2 then (c, None)
    else if following != [] then (c, Some(following[0]))
    else (if optstring[0] == ':' then ':' else '?', none)
  }

  type Report = (char, Option<string>)

  /** What is reported for these arguments, option by option, when they are read in the
      order in which they stand: non-options are passed over, and `--` ends it. */
  function Reports(optstring: string, args: Args): seq<Report>
    decreases |args|, 0, 0
  {
    if args == [] || args[0] == "--" then []
    else if IsOption(args[0]) then CharReports(optstring, args[0][1..], args[1..])
    else Reports(optstring, args[1..])
  }

  /** The same, when the characters are still to be read of an element. */
  function CharReports(optstring: string, chars: string, rest: Args): seq<Report>
    decreases |rest|, 1, |chars|
  {
    if chars == "" then Reports(optstring, rest)
    else
      [Reported(optstring, chars, None, rest)]
      + if !Known(optstring, chars[0]) || Colons(optstring, chars[0]) == 0 then
          CharReports(optstring, chars[1..], rest)
        else if Colons(optstring, chars[0]) == 1 && |chars| == 1 && rest != [] then Reports(optstring, rest[1..])
        else Reports(optstring, rest)
  }

  /** `argv[optind][0] != '-' || argv[optind][1] == '\0'` */
  predicate NonOption(arg: string) {
    |arg| < 2 || arg[0] != '-'
  }

  // ---- What the option string says ----

  lemma {:induction false} IndexIs(s: string, c: char, j: nat)
    requires j < |s| && s[j] == c && c !in s[..j]
    ensures Index(s, c) == j
  {
    if j > 0 {
      assert s[0] == s[..j][0];
      assert s[1..][..j - 1] == s[..j][1..];
      IndexIs(s[1..], c, j - 1);
    }
  }

  lemma IndexAt(pre: string, c: char, post: string)
    requires c !in pre
    ensures Index(pre + [c] + post, c) == |pre|
  {
    assert (pre + [c] + post)[..|pre|] == pre;
    IndexIs(pre + [c] + post, c, |pre|);
  }

  /** Without a colon behind it an option has no argument, with one colon it needs one,
      and with two it may have one. */
  lemma ColonsBehind(pre: string, c: char, post: string)
    requires c !in pre && c != ':'
    ensures
      var optstring := pre + [c] + post;
      && Known(optstring, c)
      && (!([':'] <= post) ==> Colons(optstring, c) == 0)
      && ([':'] <= post && !([':', ':'] <= post) ==> Colons(optstring, c) == 1)
      && ([':', ':'] <= post ==> Colons(optstring, c) == 2)
  {
    IndexAt(pre, c, post);
    var optstring := pre + [c] + post;
    assert optstring[|pre| + 1..] == post;
    assert |post| > 0 ==> optstring[|pre| + 1] == post[0];
    assert |post| > 1 ==> optstring[|pre| + 2] == post[1];
  }

  lemma ElementParts(chars: string, rest: Args)
    requires chars != "" && chars[0] != '-'
    ensures
      var (e, args) := ("-" + chars, ["-" + chars] + rest);
      IsOption(e) && e[1..] == chars && args[0] == e && args[1..] == rest && e != "--"
  {
    var e := "-" + chars;
    assert e[1] == chars[0];
  }

  /** (a) One colon: `-c v` reports c with v, and both are options; `-cv` likewise in one
      element; and at the end of the arguments it is an error. */
  lemma RequiredArgument(pre: string, c: char, post: string, v: string, rest: Args)
    requires c !in pre && c != ':' && c != '-' && [':'] <= post && !([':', ':'] <= post)
    ensures
      var optstring := pre + [c] + post;
      var (o, n) := Sorted(optstring, rest);
      && Reports(optstring, ["-" + [c], v] + rest) == [(c, Some(v))] + Reports(optstring, rest)
      && Sorted(optstring, ["-" + [c], v] + rest) == (["-" + [c], v] + o, n)
      && (v != "" ==>
            && Reports(optstring, ["-" + [c] + v] + rest) == [(c, Some(v))] + Reports(optstring, rest)
            && Sorted(optstring, ["-" + [c] + v] + rest) == (["-" + [c] + v] + o, n))
      && Reports(optstring, ["-" + [c]]) == [(if optstring[0] == ':' then ':' else '?', None)]
  {
    var optstring, alone, joined := pre + [c] + post, "-" + [c], "-" + [c] + v;
    ColonsBehind(pre, c, post);
    hide Colons, Index, Known;
    ElementParts([c], [v] + rest);
    ElementParts([c], []);
    ElementParts([c] + v, rest);
    assert joined == "-" + ([c] + v) && ([c] + v)[1..] == v;
    assert [alone, v] + rest == [alone] + ([v] + rest) && ([v] + rest)[1..] == rest && ([v] + rest)[0] == v;
    WantsOne(optstring, c, v);
    var args := [alone, v] + rest;
    assert args[2..] == rest && args[..2] == [alone, v];
    var args1 := [joined] + rest;
    assert args1[1..] == rest && args1[..1] == [joined];
    assert Reports(optstring, []) == [];
  }

  lemma WantsOne(optstring: string, c: char, v: string)
    requires Known(optstring, c)
    ensures WantsNext(optstring, [c]) == (Colons(optstring, c) == 1)
    ensures v != "" && Colons(optstring, c) > 0 ==> !WantsNext(optstring, [c] + v)
    ensures Colons(optstring, c) == 0 ==> WantsNext(optstring, [c] + v) == WantsNext(optstring, v)
  {
    hide Colons, Index, Known;
    assert ([c] + v)[1..] == v && [c][1..] == "";
    assert WantsNext(optstring, "") == false;
  }

  /** (b) Two colons: the argument is in the same element or there is none; the next
      element is left alone. */
  lemma OptionalArgument(pre: string, c: char, post: string, v: string, rest: Args)
    requires c !in pre && c != ':' && c != '-' && [':', ':'] <= post
    ensures
      var optstring := pre + [c] + post;
      var (o, n) := Sorted(optstring, rest);
      && Reports(optstring, ["-" + [c]] + rest) == [(c, None)] + Reports(optstring, rest)
      && Sorted(optstring, ["-" + [c]] + rest) == (["-" + [c]] + o, n)
      && (v != "" ==>
            && Reports(optstring, ["-" + [c] + v] + rest) == [(c, Some(v))] + Reports(optstring, rest)
            && Sorted(optstring, ["-" + [c] + v] + rest) == (["-" + [c] + v] + o, n))
  {
    var optstring, alone, joined := pre + [c] + post, "-" + [c], "-" + [c] + v;
    ColonsBehind(pre, c, post);
    hide Colons, Index, Known;
    ElementParts([c], rest);
    ElementParts([c] + v, rest);
    assert joined == "-" + ([c] + v) && ([c] + v)[1..] == v;
    WantsOne(optstring, c, v);
    var args, args1 := [alone] + rest, [joined] + rest;
    assert args[1..] == rest && args[..1] == [alone];
    assert args1[1..] == rest && args1[..1] == [joined];
  }

  /** (c) No colon: the option has no argument, and the element is read on; what it
      takes along is what its other characters take along.  An unknown character is an
      error, and the element is read on as well. */
  lemma NoArgument(pre: string, c: char, post: string, more: string, rest: Args)
    requires c !in pre && c != ':' && !([':'] <= post)
    ensures
      var optstring := pre + [c] + post;
      && CharReports(optstring, [c] + more, rest) == [(c, None)] + CharReports(optstring, more, rest)
      && WantsNext(optstring, [c] + more) == WantsNext(optstring, more)
  {
    var optstring := pre + [c] + post;
    ColonsBehind(pre, c, post);
    hide Colons, Index, Known;
    assert ([c] + more)[1..] == more;
  }

  lemma UnknownOption(optstring: string, c: char, more: string, rest: Args)
    requires c !in optstring || c == ':'
    ensures CharReports(optstring, [c] + more, rest) == [('?', None)] + CharReports(optstring, more, rest)
    ensures WantsNext(optstring, [c] + more) == WantsNext(optstring, more)
  {
    hide Colons;
    assert ([c] + more)[1..] == more;
  }

  /** An element that does not start with `-` or is only that is passed over; one that
      does is read character by character, takes the next one along if its characters
      want it, and `--` ends the options. */
  lemma Elements(optstring: string, arg: string, rest: Args)
    ensures
      var (o, n) := Sorted(optstring, rest);
      |arg| < 2 || arg[0] != '-' ==>
        && Reports(optstring, [arg] + rest) == Reports(optstring, rest)
        && Sorted(optstring, [arg] + rest) == (o, [arg] + n)
    ensures Reports(optstring, ["--"] + rest) == [] && Sorted(optstring, ["--"] + rest) == (["--"], rest)
    ensures
      |arg| >= 2 && arg[0] == '-' && arg != "--" ==>
        && Reports(optstring, [arg] + rest) == CharReports(optstring, arg[1..], rest)
        && (rest != [] && WantsNext(optstring, arg[1..]) ==>
              var (o, n) := Sorted(optstring, rest[1..]);
              Sorted(optstring, [arg] + rest) == ([arg, rest[0]] + o, n))
        && (rest == [] || !WantsNext(optstring, arg[1..]) ==>
              var (o, n) := Sorted(optstring, rest);
              Sorted(optstring, [arg] + rest) == ([arg] + o, n))
    ensures CharReports(optstring, "", rest) == Reports(optstring, rest) && !WantsNext(optstring, "")
  {
    hide WantsNext;
    var args := [arg] + rest;
    assert args[0] == arg && args[1..] == rest && args[..1] == [arg];
    assert rest != [] ==> args[..2] == [arg, rest[0]] && args[2..] == rest[1..];
    var dashes := ["--"] + rest;
    assert dashes[0] == "--" && dashes[1..] == rest;
    NothingWanted(optstring);
  }

  lemma NothingWanted(optstring: string)
    ensures !WantsNext(optstring, "")
  {
  }

  /** The static state of getopt, with PERMUTE ordering and no long options. */
  class Scanner {
    const argv: array<string>
    const optstring: string
    var optind: nat
    var firstNonopt: nat
    var lastNonopt: nat
    var nextchar: string
    var optarg: Option<string>
    ghost const name: string
    ghost const args: Args
    ghost var opts: Args
    ghost var nons: Args
    ghost var reported: seq<Report>

    /** From optind on nothing has moved; before it are the options, but for the
        skipped non-options that lie between firstNonopt and lastNonopt. */
    ghost predicate Laid()
      reads `optind, `firstNonopt, `lastNonopt, `opts, `nons, argv
    {
      && 1 <= firstNonopt <= lastNonopt <= optind <= argv.Length && argv[0] == name
      && opts == argv[1..firstNonopt] + argv[lastNonopt..optind] && nons == argv[firstNonopt..lastNonopt]
    }

    /** What has been read and what is still to be read add up. */
    ghost predicate AddsUp()
      reads `optind, `opts, `nons, argv
      requires optind <= argv.Length
    {
      var (o, n) := Sorted(optstring, argv[optind..]);
      Sorted(optstring, args) == (opts + o, nons + n)
    }

    /** What is still to be reported. */
    ghost function Coming(): seq<Report>
      reads `optind, `nextchar, argv
      requires optind <= argv.Length
    {
      if nextchar != "" && optind < argv.Length then CharReports(optstring, nextchar, argv[optind + 1..])
      else Reports(optstring, argv[optind..])
    }

    ghost predicate Valid()
      reads this, argv
    {
      Ready() && Reports(optstring, args) == reported + Coming()
    }

    ghost predicate Ready()
      reads `optind, `firstNonopt, `lastNonopt, `nextchar, `opts, `nons, argv
    {
      && Laid() && AddsUp()
      && (nextchar != "" ==>
            && optind < argv.Length && IsOption(argv[optind])
            && WantsNext(optstring, nextchar) == WantsNext(optstring, argv[optind][1..]))
    }

    /** The arguments are sorted, and optind is behind the options. */
    ghost predicate Finished()
      reads this, argv
    {
      var (o, n) := Sorted(optstring, args);
      argv[..] == [name] + o + n && optind == 1 + |o|
    }

    constructor (argv: array<string>, optstring: string)
      requires argv.Length >= 1
      ensures Valid() && nextchar == "" && this.argv == argv && this.optstring == optstring
      ensures args == argv[1..] && name == argv[0] && reported == []
    {
      this.argv, this.optstring := argv, optstring;
      optind, firstNonopt, lastNonopt := 1, 1, 1;
      nextchar, optarg := "", None;
      name, args := argv[0], argv[1..];
      opts, nons, reported := [], [], [];
      new;
      hide Sorted, Reports;
      var (o, n) := Sorted(optstring, args);
      assert [] + o == o && [] + n == n;
      assert [] + Reports(optstring, args) == Reports(optstring, args);
    }

    /** What is left of the element being read. */
    ghost function Left(): nat
      reads this, argv
    {
      if optind < argv.Length && nextchar == "" then |argv[optind]| else |nextchar|
    }

    /** Options that came after skipped non-options go in front of them. */
    method Gather()
      requires Valid() && nextchar == ""
      modifies `firstNonopt, `lastNonopt, argv
      ensures Laid() && AddsUp() && lastNonopt == optind
      ensures argv[optind..] == old(argv[optind..])
    {
      hide Sorted, Reports;
      ghost var rest := argv[optind..];
      if firstNonopt != lastNonopt && lastNonopt != optind {
        Exchange(argv, firstNonopt, lastNonopt, optind);
        firstNonopt := firstNonopt + (optind - lastNonopt);
        assert argv[optind..] == rest;
        assert argv[1..firstNonopt] == opts && argv[firstNonopt..optind] == nons;
      } else if lastNonopt != optind {
        firstNonopt := optind;
      }
      lastNonopt := optind;
    }

    /** Skip non-options. */
    method Skip()
      requires Laid() && AddsUp() && lastNonopt == optind
      modifies `optind, `lastNonopt, `nons
      ensures Laid() && AddsUp() && lastNonopt == optind && optind >= old(optind)
      ensures optind < argv.Length ==> !NonOption(argv[optind])
      ensures Reports(optstring, argv[optind..]) == old(Reports(optstring, argv[optind..]))
    {
      hide Sorted, Reports, NonOption;
      while optind < argv.Length && NonOption(argv[optind])
        invariant Laid() && AddsUp() && lastNonopt == optind && optind >= old(optind)
        invariant Reports(optstring, argv[optind..]) == old(Reports(optstring, argv[optind..]))
      {
        ghost var rest := argv[optind..];
        assert rest[0] == argv[optind] && rest[1..] == argv[optind + 1..];
        SkipRead(optstring, rest);
        ghost var others := Sorted(optstring, rest[1..]).1;
        assert nons + ([rest[0]] + others) == nons + [argv[optind]] + others;
        nons := nons + [argv[optind]];
        optind := optind + 1;
        lastNonopt := optind;
      }
    }

    /** `--`: what follows are non-options. */
    method EndOptions()
      requires Laid() && AddsUp() && lastNonopt == optind < argv.Length && argv[optind] == "--"
      modifies `optind, `firstNonopt, `lastNonopt, `opts, `nons, argv
      ensures Laid() && AddsUp() && optind == lastNonopt == argv.Length
    {
      hide Sorted;
      ghost var rest := argv[optind..];
      assert rest[0] == "--" && rest[1..] == argv[optind + 1..];
      EndRead(optstring, rest);
      optind := optind + 1;
      PassDashes();
      lastNonopt := argv.Length;
      optind := argv.Length;
      opts, nons := opts + ["--"], nons + rest[1..];
      assert argv[optind..] == [] && opts + [] == opts && nons + [] == nons;
      assert argv[firstNonopt..lastNonopt] == argv[firstNonopt..];
    }

    /** The "--" before optind goes in front of the skipped non-options. */
    method PassDashes()
      requires 1 <= firstNonopt <= lastNonopt && lastNonopt + 1 == optind <= argv.Length && argv[lastNonopt] == "--"
      modifies `firstNonopt, argv
      ensures 1 <= firstNonopt <= argv.Length && argv[0] == old(argv[0])
      ensures argv[1..firstNonopt] == old(argv[1..firstNonopt]) + ["--"]
      ensures argv[firstNonopt..] == old(argv[firstNonopt..lastNonopt]) + old(argv[optind..])
    {
      assert argv[lastNonopt..optind] == ["--"];
      if firstNonopt != lastNonopt && lastNonopt != optind {
        Exchange(argv, firstNonopt, lastNonopt, optind);
        firstNonopt := firstNonopt + (optind - lastNonopt);
      } else if firstNonopt == lastNonopt {
        firstNonopt := optind;
      }
    }

    static lemma EndRead(optstring: string, rest: Args)
      requires rest != [] && rest[0] == "--"
      ensures Sorted(optstring, rest) == (["--"], rest[1..]) && Sorted(optstring, []) == ([], [])
    {
    }

    static lemma SkipRead(optstring: string, rest: Args)
      requires rest != [] && NonOption(rest[0])
      ensures
        var (o, n) := Sorted(optstring, rest[1..]);
        Sorted(optstring, rest) == (o, [rest[0]] + n)
      ensures Reports(optstring, rest) == Reports(optstring, rest[1..])
    {
      assert rest[..1] == [rest[0]];
    }

    /** To the next element; true at the end of the scan. */
    method NextElement() returns (end: bool)
      requires Valid() && nextchar == ""
      modifies `optind, `firstNonopt, `lastNonopt, `nextchar, `opts, `nons, argv
      ensures end ==> Finished() && Reports(optstring, args) == reported
      ensures !end ==> Valid() && nextchar != "" && optind >= old(optind)
      ensures !end && optind == old(optind) ==> |nextchar| < old(Left())
    {
      hide Sorted, Reports, CharReports, AddsUp;
      Gather();
      Skip();
      ReadsElement(optstring, argv[optind..]);
      assert optind < argv.Length ==> argv[optind..][0] == argv[optind] && argv[optind..][1..] == argv[optind + 1..];
      if optind != argv.Length && argv[optind] == "--" {
        EndOptions();
      }
      end := optind == argv.Length;
      if end {
        assert reported + [] == reported;
        AllRead();
        Conclude();
      } else {
        nextchar := argv[optind][1..];
      }
    }

    /** At the end optind goes back to the non-options that were moved. */
    method Conclude()
      requires Laid() && optind == lastNonopt == argv.Length
      requires Sorted(optstring, args) == (opts, nons) && argv[..] == [name] + opts + nons && firstNonopt == 1 + |opts|
      modifies `optind
      ensures Finished()
    {
      hide Sorted;
      if firstNonopt != lastNonopt {
        optind := firstNonopt;
      }
    }

    static lemma ReadsElement(optstring: string, rest: Args)
      ensures rest == [] || rest[0] == "--" ==> Reports(optstring, rest) == []
      ensures
        rest != [] && IsOption(rest[0]) ==>
          Reports(optstring, rest) == CharReports(optstring, rest[0][1..], rest[1..])
    {
    }

    lemma AllRead()
      requires Laid() && AddsUp() && optind == lastNonopt == argv.Length
      ensures Sorted(optstring, args) == (opts, nons)
      ensures argv[..] == [name] + opts + nons && firstNonopt == 1 + |opts|
    {
      assert argv[optind..] == [];
      assert opts + [] == opts && nons + [] == nons;
    }

    /** The next short option character; None at the end, '?' or ':' for errors. */
    method Next() returns (c: Option<char>)
      requires Valid()
      modifies this, argv
      ensures c.None? ==> Finished() && reported == old(reported) == Reports(optstring, args)
      ensures c.Some? ==> Valid() && (optind > old(optind) || (optind == old(optind) && Left() < old(Left())))
      ensures c.Some? ==> reported == old(reported) + [(c.value, optarg)]
    {
      hide Sorted, WantsNext, Reports, CharReports, Finished;
      optarg := None;
      if nextchar == "" {
        var end := NextElement();
        if end {
          return None;
        }
      }
      var opt := ReportChar();
      return Some(opt);
    }

    method ReportChar() returns (c: char)
      requires Valid() && nextchar != "" && optarg == None
      modifies `optind, `nextchar, `optarg, `opts, `reported
      ensures Valid() && reported == old(reported) + [(c, optarg)]
      ensures optind > old(optind) || (optind == old(optind) && 0 < |nextchar| < old(|nextchar|))
    {
      assert optind <= argv.Length;
      hide Reports, Ready, Coming, Reported;
      c := TakeChar();
      Record(c);
    }

    ghost method Record(c: char)
      requires Ready() && optind <= argv.Length && Reports(optstring, args) == reported + ([(c, optarg)] + Coming())
      modifies `reported
      ensures Valid() && reported == old(reported) + [(c, optarg)]
    {
      hide Reports, Ready, Coming;
      assert reported + ([(c, optarg)] + Coming()) == reported + [(c, optarg)] + Coming();
      reported := reported + [(c, optarg)];
    }

    /** Look at the next short option character, and take its argument. */
    method TakeChar() returns (c: char)
      requires Valid() && nextchar != "" && optarg == None
      modifies `optind, `nextchar, `optarg, `opts
      ensures Ready() && optind <= argv.Length && old(Coming()) == [(c, optarg)] + Coming()
      ensures optind > old(optind) || (optind == old(optind) && 0 < |nextchar| < old(|nextchar|))
      ensures (c, optarg) == Reported(optstring, old(nextchar), None, argv[old(optind) + 1..])
    {
      hide Sorted, Index, WantsNext, Reports, CharReports, Reported, IsOption;
      ghost var element, chars, rest := optind, nextchar, argv[optind + 1..];
      assert argv[optind..][0] == argv[optind];
      CharRead(optstring, chars, rest);
      EndOfElement(optstring, rest);
      TakenIs(optstring, chars, argv[optind..]);
      assert optind + 1 < argv.Length ==> rest[1..] == argv[optind + 2..];
      c := ReadChar();
      if nextchar == "" {
        Commit(element);
      }
    }

    /** Is the element read on after the first of these characters? */
    static predicate GoesOn(optstring: string, chars: string)
      requires chars != ""
    {
      (!Known(optstring, chars[0]) || Colons(optstring, chars[0]) == 0) && |chars| > 1
    }

    /** How many elements are passed when it is not. */
    static function Passed(optstring: string, chars: string, rest: Args): nat
      requires chars != ""
    {
      if Known(optstring, chars[0]) && Colons(optstring, chars[0]) == 1 && |chars| == 1 && rest != [] then 2 else 1
    }

    static lemma TakenIs(optstring: string, chars: string, args: Args)
      requires args != [] && IsOption(args[0]) && chars != ""
      requires WantsNext(optstring, chars) == WantsNext(optstring, args[0][1..])
      ensures GoesOn(optstring, chars) ==> WantsNext(optstring, chars[1..]) == WantsNext(optstring, chars)
      ensures !GoesOn(optstring, chars) ==> Passed(optstring, chars, args[1..]) == Taken(optstring, args)
    {
      WantsFirst(optstring, chars);
      hide Index, WantsNext, IsOption;
    }

    method ReadChar() returns (c: char)
      requires nextchar != "" && optind < argv.Length
      modifies `optind, `nextchar, `optarg
      ensures (c, optarg) == Reported(optstring, old(nextchar), old(optarg), argv[old(optind) + 1..])
      ensures GoesOn(optstring, old(nextchar)) ==> nextchar == old(nextchar)[1..] && optind == old(optind)
      ensures
        !GoesOn(optstring, old(nextchar)) ==>
          nextchar == "" && optind == old(optind) + Passed(optstring, old(nextchar), argv[old(optind) + 1..])
    {
      hide Index;
      c := nextchar[0];
      nextchar := nextchar[1..];
      if nextchar == "" {
        optind := optind + 1;
      }
      if !Known(optstring, c) {
        c := '?';
      } else if Colons(optstring, c) == 2 {
        if nextchar != "" {
          optarg := Some(nextchar);
          optind := optind + 1;
        } else {
          optarg := None;
        }
        nextchar := "";
      } else if Colons(optstring, c) == 1 {
        if nextchar != "" {
          optarg := Some(nextchar);
          optind := optind + 1;
        } else if optind == argv.Length {
          c := if optstring[0] == ':' then ':' else '?';
        } else {
          optarg := Some(argv[optind]);
          optind := optind + 1;
        }
        nextchar := "";
      }
    }

    static lemma CharRead(optstring: string, chars: string, rest: Args)
      requires chars != ""
      ensures
        CharReports(optstring, chars, rest) ==
          [Reported(optstring, chars, None, rest)]
          + if !Known(optstring, chars[0]) || Colons(optstring, chars[0]) == 0 then
              CharReports(optstring, chars[1..], rest)
            else if Colons(optstring, chars[0]) == 1 && |chars| == 1 && rest != [] then Reports(optstring, rest[1..])
            else Reports(optstring, rest)
    {
    }

    static lemma EndOfElement(optstring: string, rest: Args)
      ensures CharReports(optstring, "", rest) == Reports(optstring, rest)
    {
    }

    /** The option that starts at `element` has been read. */
    ghost method Commit(element: nat)
      requires 1 <= firstNonopt <= lastNonopt <= element < optind <= argv.Length && argv[0] == name
      requires opts == argv[1..firstNonopt] + argv[lastNonopt..element] && nons == argv[firstNonopt..lastNonopt]
      requires var (o, n) := Sorted(optstring, argv[element..]); Sorted(optstring, args) == (opts + o, nons + n)
      requires IsOption(argv[element]) && optind == element + Taken(optstring, argv[element..])
      modifies `opts
      ensures Laid() && AddsUp()
    {
      hide Sorted, Taken, IsOption;
      var rest := argv[element..];
      OptionRead(optstring, rest);
      var k := optind - element;
      assert rest[k..] == argv[optind..] && rest[..k] == argv[element..optind];
      var o := Sorted(optstring, rest[k..]).0;
      assert opts + (rest[..k] + o) == opts + rest[..k] + o;
      opts := opts + rest[..k];
      assert argv[lastNonopt..element] + argv[element..optind] == argv[lastNonopt..optind];
    }

    static lemma WantsFirst(optstring: string, chars: string)
      requires chars != ""
      ensures WantsNext(optstring, "") == false
      ensures WantsNext(optstring, chars) ==
        if !Known(optstring, chars[0]) || Colons(optstring, chars[0]) == 0 then WantsNext(optstring, chars[1..])
        else Colons(optstring, chars[0]) == 1 && |chars| == 1
    {
    }

    static lemma OptionRead(optstring: string, rest: Args)
      requires rest != [] && IsOption(rest[0])
      ensures
        var k := Taken(optstring, rest);
        var (o, n) := Sorted(optstring, rest[k..]);
        Sorted(optstring, rest) == (rest[..k] + o, n)
    {
      hide Taken;
    }
  }

  /** Calling getopt until it returns -1 reports what reading the arguments in order
      should, and sorts them: options and their arguments first, then the others, each
      in their old order. */
  method ScanAll(argv: array<string>, optstring: string) returns (optind: nat, reports: seq<Report>)
    requires argv.Length >= 1
    modifies argv
    ensures
      var (o, n) := Sorted(optstring, old(argv[1..]));
      argv[..] == [old(argv[0])] + o + n && optind == 1 + |o|
    ensures reports == Reports(optstring, old(argv[1..]))
  {
    hide Sorted, Reports;
    var s := new Scanner(argv, optstring);
    reports := [];
    while true
      invariant s.Valid() && fresh(s) && s.argv == argv && s.optstring == optstring
      invariant s.args == old(argv[1..]) && s.name == old(argv[0]) && s.reported == reports
      decreases argv.Length - s.optind, s.Left()
    {
      var c := s.Next();
      if c.None? {
        return s.optind, reports;
      }
      reports := reports + [(c.value, s.optarg)];
    }
  }
}
