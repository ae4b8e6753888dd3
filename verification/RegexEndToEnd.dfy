/** A pattern's text, compiled and searched for. */
module RegexEndToEnd {
  import opened Octets
  import opened RegexSyntax
  import opened RegexEmit
  import opened RegexCompile
  import opened RegexBuffer
  import opened RegexHalts
  import opened RegexSearch

  /** Compiling a proper pattern succeeds, and searching with the compiled code finds
      the first position at which the machine matches; where its results are exact,
      the first position at which the pattern, by its meaning, matches. */
  method CompileAndSearch(pops: bool, ghost alt: Alt, text: seq<Token>, withFastmap: bool, s: Bytes, startpos: int,
      range: int)
    returns (error: CompileError, pos: int)
    requires Proper(alt) && text == AltText(alt)
    ensures error == NoError && FirstHit(Finding(pops, alt, s), s, startpos, range, pos)
    ensures !(0 <= startpos <= |s|) ==> pos == -1
    ensures 0 <= startpos <= |s| && range >= 0 ==>
      if pos == -1 then forall q | startpos <= q <= startpos + range && q <= |s| :: q !in Finding(pops, alt, s)
      else
        && startpos <= pos <= startpos + range && pos <= |s| && pos in Finding(pops, alt, s)
        && forall q | startpos <= q < pos :: q !in Finding(pops, alt, s)
    ensures 0 <= startpos <= |s| && range < 0 ==>
      if pos == -1 then forall q | startpos + range <= q <= startpos && 0 <= q :: q !in Finding(pops, alt, s)
      else
        && startpos + range <= pos <= startpos && 0 <= pos && pos in Finding(pops, alt, s)
        && forall q | pos < q <= startpos :: q !in Finding(pops, alt, s)
    ensures IsExact(pops, alt) && 0 <= startpos <= |s| && range >= 0 ==>
      if pos == -1 then forall q | startpos <= q <= startpos + range && q <= |s| :: q !in Matching(alt, s)
      else
        && startpos <= pos <= startpos + range && pos <= |s| && pos in Matching(alt, s)
        && forall q | startpos <= q < pos :: q !in Matching(alt, s)
    ensures IsExact(pops, alt) && 0 <= startpos <= |s| && range < 0 ==>
      if pos == -1 then forall q | startpos + range <= q <= startpos && 0 <= q :: q !in Matching(alt, s)
      else
        && startpos + range <= pos <= startpos && 0 <= pos && pos in Matching(alt, s)
        && forall q | pos < q <= startpos :: q !in Matching(alt, s)
  {
    hide AltCode, AltText, FirstHit, Finding, Matching, AltLoops, IsExact, RegexCompile.Run;
    var c := new Compilation();
    CompileIsAltCode(alt);
    error := c.Compile(text);
    var code := new Byte[c.b](i requires 0 <= i < c.b <= c.buffer.Length reads c, c.buffer => c.buffer[i]);
    assert code[..] == c.Contents();
    var fastmap: array?<bool> := null;
    if withFastmap {
      fastmap := new bool[256];
    }
    var pattern := new PatternBuffer(pops, alt, code, fastmap);
    pos := pattern.Search(s, startpos, range);
  }

  /** On every proper pattern, searching with a fastmap and without one agree. */
  method SearchBothWays(pops: bool, ghost alt: Alt, text: seq<Token>, s: Bytes, startpos: int, range: int)
    returns (pos: int, pos1: int)
    requires Proper(alt) && text == AltText(alt)
    ensures pos == pos1
  {
    hide AltText, Proper, IsExact, FirstHit, Finding, Matching;
    var error;
    error, pos := CompileAndSearch(pops, alt, text, true, s, startpos, range);
    error, pos1 := CompileAndSearch(pops, alt, text, false, s, startpos, range);
    FirstHitIsOne(Finding(pops, alt, s), s, startpos, range, pos, pos1);
  }
}
