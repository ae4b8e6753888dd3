/** The bytecode of a pattern, by recursion on the pattern: the layout that the
    comments of regex.c draw, which its one-pass compiler has to arrive at. */
module RegexEmit {
  import opened Octets
  import opened RegexSyntax

  // ---- Two-byte numbers ----

  /** STORE_NUMBER: the low byte, then the arithmetic shift, both truncated. */
  function Low(n: int): Byte { (n % 256) as Byte }
  function High(n: int): Byte { (n / 256 % 256) as Byte }

  /** EXTRACT_NUMBER: the second byte is sign-extended. */
  function Extract(low: Byte, high: Byte): int {
    low as int + (if high < 128 then high as int else high as int - 256) * 256
  }

  /** The two-byte format holds exactly the 16-bit signed integers. */
  lemma StoreExtract(n: int)
    ensures Extract(Low(n), High(n)) == n <==> -0x8000 <= n < 0x8000
  {
  }

  function Op1(op: Byte, arg: int): (r: Bytes)
    ensures |r| == 3
  {
    [op, Low(arg), High(arg)]
  }

  // ---- Bracket bitmaps ----

  /** The bit with weight 2^j: `n & (1 << j)`. */
  predicate HasBit(n: nat, j: nat) {
    if j == 0 then n % 2 == 1 else HasBit(n / 2, j - 1)
  }

  function Pow2(k: nat): nat {
    if k == 0 then 1 else 2 * Pow2(k - 1)
  }

  /** `n | (1 << j)` on a k-bit number. */
  function SetBit(n: nat, j: nat, k: nat): (r: nat)
    requires j < k && n < Pow2(k)
    ensures r < Pow2(k)
  {
    if j == 0 then n / 2 * 2 + 1 else 2 * SetBit(n / 2, j - 1, k - 1) + n % 2
  }

  lemma {:induction false} SetBitSets(n: nat, j: nat, k: nat, i: nat)
    requires j < k && n < Pow2(k)
    ensures HasBit(SetBit(n, j, k), i) <==> i == j || HasBit(n, i)
  {
    if j > 0 && i > 0 {
      SetBitSets(n / 2, j - 1, k - 1, i - 1);
    }
  }

  lemma {:induction false} ZeroHasNoBit(j: nat)
    ensures !HasBit(0, j)
  {
    if j > 0 {
      ZeroHasNoBit(j - 1);
    }
  }

  /** Is c in the set of a bitmap, as the charset commands test it? */
  predicate InMap(bitmap: Bytes, c: Byte) {
    c as int < 8 * |bitmap| && HasBit(bitmap[c as int / 8] as nat, c as int % 8)
  }

  /** SET_LIST_BIT on a full 32-byte map. */
  function SetListBit(bitmap: Bytes, c: Byte): (r: Bytes)
    requires |bitmap| == 32
    ensures |r| == 32
    ensures forall x: Byte :: InMap(r, x) <==> x == c || InMap(bitmap, x)
  {
    var q, j := c as int / 8, c as int % 8;
    assert Pow2(8) == 256 by { assert Pow2(4) == 16; }
    var was := bitmap[q] as nat;
    var b := SetBit(was, j, 8);
    assert forall i: nat :: HasBit(b, i) <==> i == j || HasBit(was, i) by {
      forall i: nat
        ensures HasBit(b, i) <==> i == j || HasBit(was, i)
      {
        SetBitSets(was, j, 8, i);
      }
    }
    bitmap[q := b as Byte]
  }

  /** The map with the bits of `chars`, set one after the other. */
  function Bitmap(chars: Bytes): (bitmap: Bytes)
    ensures |bitmap| == 32
    ensures forall x: Byte :: InMap(bitmap, x) <==> x in chars
  {
    if chars == [] then
      assert forall j: nat :: !HasBit(0, j) by { forall j: nat { ZeroHasNoBit(j); } }
      seq(32, _ => 0)
    else SetListBit(Bitmap(chars[..|chars| - 1]), chars[|chars| - 1])
  }

  /** Dropping the zero bytes at the end of the map. */
  function Trim(bitmap: Bytes): (r: Bytes)
    ensures |r| <= |bitmap|
    ensures forall x: Byte :: InMap(r, x) <==> InMap(bitmap, x)
  {
    if bitmap == [] || bitmap[|bitmap| - 1] != 0 then bitmap
    else
      assert forall j: nat :: !HasBit(0, j) by { forall j: nat { ZeroHasNoBit(j); } }
      Trim(bitmap[..|bitmap| - 1])
  }

  // ---- Groups ----

  function AtomGroups(a: Atom): nat {
    match a case Group(alt) => 1 + AltGroups(alt) case _ => 0
  }

  function PieceGroups(p: Piece): nat {
    match p case Once(a) => AtomGroups(a) case Rep(q, _) => PieceGroups(q)
  }

  function BranchGroups(b: Branch): nat {
    match b case End => 0 case Then(p, rest) => PieceGroups(p) + BranchGroups(rest)
  }

  function AltGroups(alt: Alt): nat {
    match alt case Only(b) => BranchGroups(b) case Or(b, others) => BranchGroups(b) + AltGroups(others)
  }

  // ---- Emission; n groups have been opened before ----

  function AtomCode(a: Atom, n: nat): Bytes
    decreases a, 0
  {
    match a
    case Lit(c) => [EXACTN, 1, c]
    case Dot => [ANYCHAR]
    case Bracket(neg, chars) =>
      var bitmap := Trim(Bitmap(chars));
      [if neg then CHARSET_NOT else CHARSET, |bitmap| as Byte] + bitmap
    case Group(alt) =>
      StartGroup(n + 1, AltGroups(alt)) + AltCode(alt, n + 1) + EndAlt(alt) + StopGroup(n + 1, AltGroups(alt))
  }

  /** Groups past MAX_REGNUM get no register commands. */
  function StartGroup(r: nat, inner: nat): Bytes {
    if r <= MAX_REGNUM then [START_MEMORY, r as Byte, (inner % 256) as Byte] else []
  }

  function StopGroup(r: nat, inner: nat): Bytes {
    if r <= MAX_REGNUM then [STOP_MEMORY, r as Byte, (inner % 256) as Byte] else []
  }

  /** A group with alternatives ends by pushing a dummy failure point. */
  function EndAlt(alt: Alt): Bytes {
    if alt.Or? then [PUSH_DUMMY_FAILURE] else []
  }

  function PieceCode(p: Piece, n: nat): Bytes
    decreases p, 1
  {
    BaseIsInside(p);
    RepCode(AtomCode(Base(p), n), ZeroTimesOk(p), ManyTimesOk(p))
  }

  /** The jumps around the code of a repeated atom. */
  function RepCode(body: Bytes, zero: bool, many: bool): Bytes {
    if many && zero then
      Op1(ON_FAILURE_JUMP, |body| + 3) + body + Op1(MAYBE_POP_JUMP, -(|body| + 6))
    else if many then
      Op1(DUMMY_FAILURE_JUMP, 3) + Op1(ON_FAILURE_JUMP, |body| + 3) + body + Op1(MAYBE_POP_JUMP, -(|body| + 6))
    else if zero then
      Op1(ON_FAILURE_JUMP, |body|) + body
    else body
  }

  lemma {:induction false} BaseIsInside(p: Piece)
    ensures Base(p) < p
    ensures AtomGroups(Base(p)) == PieceGroups(p)
  {
    if p.Rep? {
      BaseIsInside(p.inner);
    }
  }

  /** The literals at the front of a branch that share one exactn command, and
      the rest: a literal that is repeated, or a 256th one, starts its own. */
  function LitRun(b: Branch, room: nat): (r: (Bytes, Branch))
    ensures |r.0| <= room && (r.0 == [] ==> r.1 == b)
    ensures r.1 == b || r.1 < b
    ensures b.Then? && b.first.Once? && b.first.atom.Lit? && room > 0 ==> r.0 != [] && r.1 < b
  {
    if room > 0 && b.Then? && b.first.Once? && b.first.atom.Lit? then
      var (cs, rest) := LitRun(b.rest, room - 1);
      ([b.first.atom.c] + cs, rest)
    else ([], b)
  }

  lemma {:induction false} LitRunGroups(b: Branch, room: nat)
    ensures BranchGroups(LitRun(b, room).1) == BranchGroups(b)
  {
    if room > 0 && b.Then? && b.first.Once? && b.first.atom.Lit? {
      LitRunGroups(b.rest, room - 1);
      assert PieceGroups(b.first) == AtomGroups(b.first.atom) == 0;
    }
  }

  function BranchCode(b: Branch, n: nat): Bytes
    decreases b, 0
  {
    match b
    case End => []
    case Then(p, rest) =>
      if p.Once? && p.atom.Lit? then
        var (cs, after) := LitRun(b, 255);
        [EXACTN, |cs| as Byte] + cs + BranchCode(after, n)
      else PieceCode(p, n) + BranchCode(rest, n + PieceGroups(p))
  }

  /** From after an alternative's jump_past_alt to where it lands: the next
      alternative's jump_past_alt, or the end of the last alternative. */
  function PastAlt(others: Alt, n: nat): nat
    decreases others, 0
  {
    match others
    case Only(b) => |BranchCode(b, n)|
    case Or(b, _) => 3 + |BranchCode(b, n)|
  }

  function AltCode(alt: Alt, n: nat): Bytes
    decreases alt, 1
  {
    match alt
    case Only(b) => BranchCode(b, n)
    case Or(b, others) =>
      var code := BranchCode(b, n);
      Op1(ON_FAILURE_JUMP, |code| + 3) + code + Op1(JUMP_PAST_ALT, PastAlt(others, n + BranchGroups(b)))
        + AltCode(others, n + BranchGroups(b))
  }
}
