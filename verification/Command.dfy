/** Command lines as text: splitting into words, joining, and completion. */
module Command {
  import opened Options

  type Words = seq<string>

  /** isspace in the C locale. */
  predicate IsSpace(c: char) {
    c == ' ' || c == '\t' || c == '\n' || c == '\r' || c as int == 11 || c as int == 12
  }

  /** The blank, and the five control characters from tab to carriage return. */
  lemma SpaceCodes(c: char)
    ensures IsSpace(c) <==> c as int == 32 || 9 <= c as int <= 13
  {
  }

  predicate IsWord(w: string) {
    w != "" && forall i | 0 <= i < |w| :: !IsSpace(w[i])
  }

  // ---- argv_concat ----

  function Joined(words: Words): string {
    if words == [] then ""
    else if |words| == 1 then words[0]
    else words[0] + " " + Joined(words[1..])
  }

  lemma {:induction false} JoinedLast(words: Words, last: string)
    requires words != []
    ensures Joined(words + [last]) == Joined(words) + " " + last
  {
    if |words| == 1 {
      assert (words + [last])[1..] == [last];
    } else {
      JoinedLast(words[1..], last);
      assert (words + [last])[1..] == words[1..] + [last];
      assert words[0] + " " + (Joined(words[1..]) + " " + last) == words[0] + " " + Joined(words[1..]) + " " + last;
    }
  }

  /** argv_concat: None when there is no argument from `shift` on. */
  method ArgvConcat(argv: Words, shift: nat) returns (str: Option<string>)
    ensures str == if shift < |argv| then Some(Joined(argv[shift..])) else None
  {
    str := None;
    var i := shift;
    while i < |argv|
      invariant shift <= i && (i == shift ==> str == None)
      invariant shift < i ==> i <= |argv| && str == Some(Joined(argv[shift..i]))
      decreases |argv| - i
    {
      if i == shift {
        str := Some(argv[i]);
        assert argv[shift..i + 1] == [argv[i]];
      } else {
        JoinedLast(argv[shift..i], argv[i]);
        assert argv[shift..i + 1] == argv[shift..i] + [argv[i]];
        str := Some(str.value + " " + argv[i]);
      }
      i := i + 1;
    }
    assert shift < |argv| ==> argv[shift..i] == argv[shift..];
  }

  // ---- cmd_make_strvec ----

  /** The first position from i on that is, or is not, white space. */
  function Until(s: string, i: nat, space: bool): (j: nat)
    requires i <= |s|
    ensures i <= j <= |s|
    ensures forall k | i <= k < j :: IsSpace(s[k]) != space
    ensures j < |s| ==> IsSpace(s[j]) == space
    decreases |s| - i
  {
    if i == |s| || IsSpace(s[i]) == space then i else Until(s, i + 1, space)
  }

  /** The words of a line, from i on. */
  function Split(s: string, i: nat): Words
    requires i <= |s|
    decreases |s| - i
  {
    var start := Until(s, i, false);
    if start == |s| then [] else [s[start..Until(s, start, true)]] + Split(s, Until(s, start, true))
  }

  /** Every word is one, and together they are all that is not white space. */
  lemma {:induction false} SplitIsComplete(s: string, i: nat)
    requires i <= |s|
    ensures forall w | w in Split(s, i) :: IsWord(w)
    ensures Letters(s[i..]) == Concatenated(Split(s, i))
    decreases |s| - i
  {
    hide Letters, Concatenated, Split, Until, IsWord, IsSpace;
    var start := Until(s, i, false);
    var end := Until(s, start, true);
    SplitStep(s, i);
    WordBetween(s, i, start, end);
    if start < |s| {
      SplitIsComplete(s, end);
    }
  }

  /** White space up to start, and then letters up to end. */
  lemma WordBetween(s: string, i: nat, start: nat, end: nat)
    requires i <= start <= end <= |s|
    requires forall k | i <= k < start :: IsSpace(s[k])
    requires forall k | start <= k < end :: !IsSpace(s[k])
    ensures Letters(s[i..]) == s[start..end] + Letters(s[end..])
    ensures start < end ==> IsWord(s[start..end])
  {
    hide Letters, IsSpace;
    LettersOfSpace(s[i..start]);
    LettersOfWord(s[start..end]);
    LettersConcat(s[i..start], s[start..]);
    LettersConcat(s[start..end], s[end..]);
    assert s[i..] == s[i..start] + s[start..] && s[start..] == s[start..end] + s[end..];
  }

  lemma SplitStep(s: string, i: nat)
    requires i <= |s|
    ensures
      var start := Until(s, i, false);
      var end := Until(s, start, true);
      if start < |s|
      then
        && start < end && Split(s, i) == [s[start..end]] + Split(s, end)
        && Concatenated(Split(s, i)) == s[start..end] + Concatenated(Split(s, end))
      else Split(s, i) == [] && Concatenated(Split(s, i)) == "" && s[start..end] + s[end..] == "" && Letters("") == ""
  {
    var start := Until(s, i, false);
    if start < |s| {
      assert Split(s, i)[1..] == Split(s, Until(s, start, true));
    }
  }

  function Letters(s: string): string {
    if s == "" then "" else (if IsSpace(s[0]) then "" else [s[0]]) + Letters(s[1..])
  }

  function Concatenated(words: Words): string {
    if words == [] then "" else words[0] + Concatenated(words[1..])
  }

  lemma LettersStep(x: string)
    requires x != ""
    ensures Letters(x) == (if IsSpace(x[0]) then "" else [x[0]]) + Letters(x[1..])
  {
  }

  lemma {:induction false} LettersConcat(x: string, y: string)
    ensures Letters(x + y) == Letters(x) + Letters(y)
  {
    if x == "" {
      assert x + y == y;
    } else {
      LettersStep(x);
      LettersStep(x + y);
      hide Letters, IsSpace;
      LettersConcat(x[1..], y);
      assert (x + y)[1..] == x[1..] + y;
    }
  }

  lemma {:induction false} LettersOfSpace(x: string)
    requires forall i | 0 <= i < |x| :: IsSpace(x[i])
    ensures Letters(x) == ""
  {
    if x != "" {
      LettersOfSpace(x[1..]);
    }
  }

  lemma {:induction false} LettersOfWord(x: string)
    requires forall i | 0 <= i < |x| :: !IsSpace(x[i])
    ensures Letters(x) == x
  {
    if x != "" {
      LettersOfWord(x[1..]);
    }
  }

  /** cmd_make_strvec: None for an empty line and for a comment. */
  method MakeStrvec(line: string) returns (words: Option<Words>)
    ensures
      var start := Until(line, 0, false);
      words == if start == |line| || line[start] == '!' || line[start] == '#' then None else Some(Split(line, 0))
  {
    var cp := SkipTo(line, 0, false);
    if cp == |line| || line[cp] == '!' || line[cp] == '#' {
      return None;
    }
    var strvec: Words := [];
    assert Split(line, 0) == Split(line, cp) by { UntilAgain(line, 0, false); }
    while cp < |line|
      invariant cp <= |line| && strvec + Split(line, cp) == Split(line, 0)
      invariant cp < |line| ==> !IsSpace(line[cp])
      decreases |line| - cp
    {
      var start := cp;
      cp := SkipTo(line, cp, true);
      assert Split(line, start) == [line[start..cp]] + Split(line, cp);
      strvec := strvec + [line[start..cp]];
      ghost var end := cp;
      cp := SkipTo(line, cp, false);
      UntilAgain(line, end, false);
      assert Split(line, end) == Split(line, cp);
    }
    SplitNothing(line);
    assert strvec + [] == strvec;
    words := Some(strvec);
  }

  lemma SplitNothing(s: string)
    ensures Split(s, |s|) == []
  {
  }

  lemma UntilAgain(s: string, i: nat, space: bool)
    requires i <= |s|
    ensures Until(s, Until(s, i, space), space) == Until(s, i, space)
  {
  }

  method SkipTo(s: string, i: nat, space: bool) returns (j: nat)
    requires i <= |s|
    ensures j == Until(s, i, space)
  {
    j := i;
    while j < |s| && IsSpace(s[j]) != space
      invariant i <= j <= |s| && Until(s, j, space) == Until(s, i, space)
    {
      j := j + 1;
    }
  }

  /** A word at the front of what is left of a line. */
  lemma SplitWord(front: string, w: string, rest: string)
    requires IsWord(w) && (rest != "" ==> IsSpace(rest[0]))
    ensures var line := front + w + rest; Split(line, |front|) == [w] + Split(line, |front| + |w|)
  {
    var line := front + w + rest;
    var start, end := |front|, |front| + |w|;
    assert forall k | start <= k < end :: line[k] == w[k - start];
    assert rest != "" ==> line[end] == rest[0];
    UntilIs(line, start, start, false);
    UntilIs(line, start, end, true);
    assert line[start..end] == w;
  }

  lemma JoinedFirst(words: Words)
    ensures
      Joined(words) == if words == [] then "" else words[0] + if |words| == 1 then "" else " " + Joined(words[1..])
  {
  }

  /** Joining words and splitting the line gives the words back. */
  lemma {:induction false} SplitJoined(words: Words, front: string)
    requires forall w | w in words :: IsWord(w)
    ensures Split(front + Joined(words), |front|) == words
    decreases |words|
  {
    hide Split, Until, IsWord, Joined;
    JoinedFirst(words);
    if words == [] {
      assert front + Joined(words) == front;
      SplitNothing(front);
    } else {
      var w := words[0];
      assert w in words;
      if |words| == 1 {
        assert front + Joined(words) == front + w + "";
        SplitWord(front, w, "");
        SplitNothing(front + w + "");
      } else {
        var rest := Joined(words[1..]);
        var front1 := front + w + " ";
        SplitWord(front, w, " " + rest);
        assert front + Joined(words) == front + w + (" " + rest) == front1 + rest;
        assert forall v | v in words[1..] :: v in words;
        SplitJoined(words[1..], front1);
        SkipOneSpace(front1 + rest, |front| + |w|);
      }
    }
  }

  lemma SkipOneSpace(s: string, i: nat)
    requires i < |s| && IsSpace(s[i])
    ensures Split(s, i) == Split(s, i + 1)
  {
  }

  lemma {:induction false} UntilIs(s: string, i: nat, j: nat, space: bool)
    requires i <= j <= |s| && (forall k | i <= k < j :: IsSpace(s[k]) != space) && (j < |s| ==> IsSpace(s[j]) == space)
    ensures Until(s, i, space) == j
  {
  }

  /** argv_concat and cmd_make_strvec are inverse to each other on words. */
  method JoinAndSplit(words: Words) returns (again: Option<Words>)
    requires words != [] && forall w | w in words :: IsWord(w)
    requires words[0] != "" && words[0][0] != '!' && words[0][0] != '#'
    ensures again == Some(words)
  {
    var line := ArgvConcat(words, 0);
    assert words[0..] == words;
    assert "" + Joined(words) == Joined(words);
    SplitJoined(words, "");
    assert words[0] in words;
    assert Joined(words)[0] == words[0][0];
    UntilIs(Joined(words), 0, 0, false);
    again := MakeStrvec(line.value);
  }

  // ---- cmd_lcd ----

  /** How far two strings agree. */
  function Agreement(x: string, y: string): (n: nat)
    ensures n <= |x| && n <= |y| && x[..n] == y[..n]
    ensures n < |x| && n < |y| ==> x[n] != y[n]
  {
    if x == "" || y == "" || x[0] != y[0] then 0 else
      var n := 1 + Agreement(x[1..], y[1..]);
      assert x[..n] == [x[0]] + x[1..][..n - 1] && y[..n] == [y[0]] + y[1..][..n - 1];
      n
  }

  lemma {:induction false} AgreementIs(x: string, y: string, n: nat)
    requires n <= |x| && n <= |y| && x[..n] == y[..n] && (n < |x| && n < |y| ==> x[n] != y[n])
    ensures n == Agreement(x, y)
  {
    if n > 0 {
      assert x[0] == x[..n][0] == y[..n][0] == y[0];
      assert x[1..][..n - 1] == x[..n][1..] && y[1..][..n - 1] == y[..n][1..];
      AgreementIs(x[1..], y[1..], n - 1);
    }
  }

  /** Do all strings start with the first n characters of the first one? */
  predicate Share(matched: seq<string>, n: nat) {
    && matched != [] && n <= |matched[0]|
    && forall i | 0 <= i < |matched| :: n <= |matched[i]| && matched[i][..n] == matched[0][..n]
  }

  /** cmd_lcd, on the strings up to the null pointer: with two or more of them, the
      length of their longest common prefix. */
  method CmdLcd(matched: seq<string>) returns (lcd: int)
    ensures |matched| < 2 ==> lcd == 0
    ensures |matched| >= 2 ==> lcd >= 0 && Share(matched, lcd) && !Share(matched, lcd + 1)
  {
    if |matched| < 2 {
      return 0;
    }
    lcd := -1;
    var i := 1;
    ghost var low := 0;
    while i < |matched|
      invariant 1 <= i <= |matched| && (lcd < 0 <==> i == 1) && -1 <= lcd
      invariant i > 1 ==> Share(matched[..i], lcd)
      invariant i > 1 ==> 0 <= low < i - 1 && lcd == Agreement(matched[low], matched[low + 1])
    {
      var j := Compare(matched[i - 1], matched[i]);
      ShareMore(matched, i, if lcd < 0 then j else lcd, j);
      if lcd < 0 {
        lcd := j;
        low := i - 1;
      } else {
        if lcd > j {
          lcd := j;
          low := i - 1;
        }
      }
      i := i + 1;
    }
    assert matched[..i] == matched;
    LowestPair(matched, low, lcd);
  }

  /** The comparison of two neighbours. */
  method Compare(s1: string, s2: string) returns (j: nat)
    ensures j == Agreement(s1, s2)
  {
    j := 0;
    while j < |s1| && j < |s2|
      invariant j <= |s1| && j <= |s2| && s1[..j] == s2[..j]
    {
      if s1[j] != s2[j] {
        break;
      }
      j := j + 1;
    }
    AgreementIs(s1, s2, j);
  }

  lemma ShareMore(matched: seq<string>, i: nat, lcd: nat, j: nat)
    requires 1 <= i < |matched| && j == Agreement(matched[i - 1], matched[i])
    requires if i == 1 then lcd == j else Share(matched[..i], lcd)
    ensures Share(matched[..i + 1], if lcd < j then lcd else j)
  {
    var n := if lcd < j then lcd else j;
    forall k | 0 <= k < i + 1
      ensures n <= |matched[k]| && matched[k][..n] == matched[0][..n]
    {
      if i == 1 {
        assert matched[1][..n] == matched[1][..j][..n] && matched[0][..n] == matched[0][..j][..n];
      } else {
        assert matched[..i][i - 1] == matched[i - 1];
        assert matched[i - 1][..n] == matched[i - 1][..lcd][..n] == matched[0][..lcd][..n];
        assert matched[i][..n] == matched[i][..j][..n] == matched[i - 1][..j][..n];
        if k < i {
          assert matched[..i][k] == matched[k];
          assert matched[k][..n] == matched[k][..lcd][..n];
        }
      }
    }
  }

  lemma LowestPair(matched: seq<string>, low: nat, n: nat)
    requires low + 1 < |matched| && n == Agreement(matched[low], matched[low + 1])
    ensures !Share(matched, n + 1)
  {
    var (x, y) := (matched[low], matched[low + 1]);
    if n < |x| && n < |y| {
      assert x[..n + 1][n] != y[..n + 1][n];
    }
  }

  // ---- cmd_complete_command ----

  /** Words of a command definition that stand for an argument. */
  predicate IsArgument(dst: string) {
    dst != "" && (dst[0] == '[' || 'A' <= dst[0] <= 'Z' || dst[0] == '<' || dst[0] == '.')
  }

  /** cmd_entry_function; src is None behind the last word of the line. */
  predicate Entry(src: Option<string>, dst: string) {
    !IsArgument(dst) && (src.None? || src.value <= dst)
  }

  datatype Status = NothingToDo | NoMatch | FullMatch | CompleteMatch | ListMatch

  /** The second half of cmd_complete_command: `words` are the words that the commands
      which fit so far have at this place. */
  method Complete(src: Option<string>, words: Words) returns (status: Status, shown: Words)
    ensures forall w :: w in Candidates(src, words) <==>
              && w in words && (src.None? || src.value <= w)
              && !(w != "" && (w[0] == '[' || 'A' <= w[0] <= 'Z' || w[0] == '<' || w[0] == '.'))
    ensures forall i, j | 0 <= i < j < |Candidates(src, words)| ::
              FirstAt(words, Candidates(src, words)[i]) < FirstAt(words, Candidates(src, words)[j])
    ensures status == NothingToDo <==> Candidates(src, words) == [] && src.None?
    ensures status == NoMatch <==> Candidates(src, words) == [] && src.Some?
    ensures status == FullMatch <==> |Candidates(src, words)| == 1
    ensures status in {FullMatch, ListMatch} ==> shown == Candidates(src, words)
    ensures status in {NothingToDo, NoMatch} ==> shown == []
    ensures status == CompleteMatch <==>
              |Candidates(src, words)| > 1 && src.Some? && Share(Candidates(src, words), |src.value| + 1)
    ensures status == CompleteMatch ==>
              && |shown| == 1 && src.value <= shown[0] && src.value != shown[0]
              && (forall w | w in Candidates(src, words) :: shown[0] <= w)
              && Share(Candidates(src, words), |shown[0]|) && !Share(Candidates(src, words), |shown[0]| + 1)
  {
    var matched := Collect(src, words);
    CandidatesMeans(src, words);
    CandidatesInOrder(src, words);
    assert matched != [] ==> matched[0] in matched;
    hide Candidates, FirstAt, Share;
    if matched == [] {
      status := if src.None? then NothingToDo else NoMatch;
      return status, [];
    }
    if |matched| == 1 {
      return FullMatch, matched;
    }
    if src.Some? {
      var lcd := CmdLcd(matched);
      if lcd != 0 {
        if |src.value| < lcd {
          Extends(matched, src.value, lcd);
          ShareLess(matched, |src.value| + 1, lcd);
          var lcdstr := matched[0][..lcd];
          return CompleteMatch, [lcdstr];
        }
      }
      ShareLess(matched, lcd + 1, |src.value| + 1);
    }
    return ListMatch, matched;
  }

  lemma Extends(matched: Words, word: string, lcd: nat)
    requires Share(matched, lcd) && |word| < lcd && word <= matched[0]
    ensures
      var lcdstr := matched[0][..lcd];
      && |lcdstr| == lcd && word <= lcdstr && word != lcdstr
      && forall w | w in matched :: lcdstr <= w
  {
    var lcdstr := matched[0][..lcd];
    forall w | w in matched
      ensures lcdstr <= w
    {
      var i :| 0 <= i < |matched| && matched[i] == w;
      assert w[..lcd] == lcdstr;
    }
  }

  lemma ShareLess(matched: seq<string>, n: nat, m: nat)
    requires n <= m
    ensures Share(matched, m) ==> Share(matched, n)
  {
    if Share(matched, m) {
      forall i | 0 <= i < |matched|
        ensures n <= |matched[i]| && matched[i][..n] == matched[0][..n]
      {
        assert matched[i][..n] == matched[i][..m][..n] && matched[0][..n] == matched[0][..m][..n];
      }
    }
  }

  /** The candidates, each once, in the order in which they are found. */
  function Candidates(src: Option<string>, words: Words): (r: Words)
    decreases |words|
  {
    if words == [] then []
    else
      var r := Candidates(src, words[..|words| - 1]);
      var w := words[|words| - 1];
      if Entry(src, w) && w !in r then r + [w] else r
  }

  predicate Distinct(r: Words) {
    forall i, j | 0 <= i < j < |r| :: r[i] != r[j]
  }

  lemma {:induction false} CandidatesMeans(src: Option<string>, words: Words)
    ensures forall w :: w in Candidates(src, words) <==> w in words && Entry(src, w)
    ensures Distinct(Candidates(src, words))
    decreases |words|
  {
    if words != [] {
      var front := words[..|words| - 1];
      CandidatesMeans(src, front);
      var (w, r) := (words[|words| - 1], Candidates(src, front));
      assert words == front + [w];
      if Entry(src, w) && w !in r {
        var more := Candidates(src, words);
        assert more == r + [w];
        forall i, j | 0 <= i < j < |more|
          ensures more[i] != more[j]
        {
          assert more[i] == r[i] && r[i] in r;
          assert j < |r| ==> more[j] == r[j];
        }
      }
    }
  }

  /** Where w is first, or the number of words. */
  function FirstAt(words: Words, w: string): nat {
    if words == [] || words[0] == w then 0 else 1 + FirstAt(words[1..], w)
  }

  lemma {:induction false} FirstAtFront(front: Words, last: string, w: string)
    ensures FirstAt(front + [last], w) == FirstAt(front, w) + if w in front || last == w then 0 else 1
    ensures w in front ==> FirstAt(front, w) < |front|
    ensures w !in front ==> FirstAt(front, w) == |front|
  {
    if front == [] {
      assert (front + [last])[1..] == [];
    } else if front[0] != w {
      FirstAtFront(front[1..], last, w);
      assert (front + [last])[1..] == front[1..] + [last];
    }
  }

  predicate InOrder(words: Words, r: Words) {
    forall i, j | 0 <= i < j < |r| :: FirstAt(words, r[i]) < FirstAt(words, r[j])
  }

  lemma {:induction false} CandidatesInOrder(src: Option<string>, words: Words)
    ensures InOrder(words, Candidates(src, words))
    decreases |words|
  {
    if words != [] {
      var front, w := words[..|words| - 1], words[|words| - 1];
      var (r0, r) := (Candidates(src, front), Candidates(src, words));
      CandidatesInOrder(src, front);
      CandidatesMeans(src, front);
      assert words == front + [w];
      hide Entry;
      forall i, j | 0 <= i < j < |r|
        ensures FirstAt(words, r[i]) < FirstAt(words, r[j])
      {
        FirstAtFront(front, w, r[i]);
        FirstAtFront(front, w, r[j]);
        assert r[i] == r0[i] && r0[i] in r0 && r0[i] in front;
        if j < |r0| {
          assert r[j] == r0[j] && r0[j] in r0 && r0[j] in front;
          assert FirstAt(front, r0[i]) < FirstAt(front, r0[j]);
        } else {
          assert r[j] == w && w !in front;
        }
      }
    }
  }

  method Collect(src: Option<string>, words: Words) returns (matched: Words)
    ensures matched == Candidates(src, words)
  {
    matched := [];
    for i := 0 to |words|
      invariant matched == Candidates(src, words[..i])
    {
      assert words[..i + 1][..i] == words[..i];
      if Entry(src, words[i]) && words[i] !in matched {
        matched := matched + [words[i]];
      }
    }
    assert words[..|words|] == words;
  }
}
