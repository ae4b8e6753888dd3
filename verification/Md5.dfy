/** The MD5 context of md5.c: a message may be fed in pieces of any size, and the
    digest is the one RFC 1321 gives for the whole message. */
module Md5 {
  import opened Octets
  import opened Md5Words

  // ---- RFC 1321, section 3.4 ----

  /** The four words A, B, C, D. */
  datatype Chain = Chain(a: Word, b: Word, c: Word, d: Word)

  /** T[i + 1] of the RFC, the integer part of 2^32 times abs(sin(i + 1)). */
  function T(i: nat): Word
    requires i < 64
  {
    var table: seq<seq<Word>> := [
      [ 0xd76aa478, 0xe8c7b756, 0x242070db, 0xc1bdceee, 0xf57c0faf, 0x4787c62a, 0xa8304613, 0xfd469501,
        0x698098d8, 0x8b44f7af, 0xffff5bb1, 0x895cd7be, 0x6b901122, 0xfd987193, 0xa679438e, 0x49b40821 ],
      [ 0xf61e2562, 0xc040b340, 0x265e5a51, 0xe9b6c7aa, 0xd62f105d, 0x02441453, 0xd8a1e681, 0xe7d3fbc8,
        0x21e1cde6, 0xc33707d6, 0xf4d50d87, 0x455a14ed, 0xa9e3e905, 0xfcefa3f8, 0x676f02d9, 0x8d2a4c8a ],
      [ 0xfffa3942, 0x8771f681, 0x6d9d6122, 0xfde5380c, 0xa4beea44, 0x4bdecfa9, 0xf6bb4b60, 0xbebfbc70,
        0x289b7ec6, 0xeaa127fa, 0xd4ef3085, 0x04881d05, 0xd9d4d039, 0xe6db99e5, 0x1fa27cf8, 0xc4ac5665 ],
      [ 0xf4292244, 0x432aff97, 0xab9423a7, 0xfc93a039, 0x655b59c3, 0x8f0ccc92, 0xffeff47d, 0x85845dd1,
        0x6fa87e4f, 0xfe2ce6e0, 0xa3014314, 0x4e0811a1, 0xf7537e82, 0xbd3af235, 0x2ad7d2bb, 0xeb86d391 ]];
    table[i / 16][i % 16]
  }

  /** The shift of operation i, which repeats every four operations of a round. */
  function Shift(i: nat): (s: nat)
    requires i < 64
    ensures 0 < s < 32 && IsShift(s)
  {
    var shifts := [[7, 12, 17, 22], [5, 9, 14, 20], [4, 11, 16, 23], [6, 10, 15, 21]];
    shifts[i / 16][i % 4]
  }

  /** The word of the block that operation i uses. */
  function Index(i: nat): (k: nat)
    requires i < 64
    ensures k < 16
  {
    if i < 16 then i
    else if i < 32 then (1 + 5 * (i - 16)) % 16
    else if i < 48 then (5 + 3 * (i - 32)) % 16
    else 7 * (i - 48) % 16
  }

  function RoundFunction(i: nat, x: Word, y: Word, z: Word): Word {
    if i < 16 then F(x, y, z) else if i < 32 then G(x, y, z) else if i < 48 then H(x, y, z) else I(x, y, z)
  }

  /** Operation i, with the word it changes in front.  The words then take turns. */
  function Operation(c: Chain, x: seq<Word>, i: nat): Chain
    requires |x| == 16 && i < 64
  {
    Chain(c.d, Plus(c.b, Rotate(Sum(c.a, RoundFunction(i, c.b, c.c, c.d), x[Index(i)], T(i)), Shift(i))), c.b, c.c)
  }

  function Sum(a: Word, f: Word, x: Word, t: Word): Word {
    Plus(Plus(Plus(a, f), x), t)
  }

  function Operations(c: Chain, x: seq<Word>, n: nat): Chain
    requires |x| == 16 && n <= 64
  {
    if n == 0 then c else Operation(Operations(c, x, n - 1), x, n - 1)
  }

  /** Word j of a block, low-order byte first. */
  function WordAt(bytes: Bytes, j: nat): Word
    requires 4 * j + 4 <= |bytes|
  {
    FourBytes(Bits(bytes[4 * j]), Bits(bytes[4 * j + 1]), Bits(bytes[4 * j + 2]), Bits(bytes[4 * j + 3]))
  }

  /** Four bytes as a number, low-order byte first. */
  function Value4(b: Bytes): nat
    requires |b| == 4
  {
    b[0] as nat + 0x100 * b[1] as nat + 0x1_0000 * b[2] as nat + 0x100_0000 * b[3] as nat
  }

  /** Word j of a block is the number that its bytes stand for. */
  lemma WordIsValue(bytes: Bytes, j: nat)
    requires 4 * j + 4 <= |bytes|
    ensures Number(WordAt(bytes, j)) == Value4(bytes[4 * j..4 * j + 4])
  {
    hide Number, FourBytes, Bits;
    NumberOfBytes(bytes[4 * j], bytes[4 * j + 1], bytes[4 * j + 2], bytes[4 * j + 3]);
  }

  function WordsOf(block: Bytes): (x: seq<Word>)
    requires |block| == 64
    ensures |x| == 16
  {
    seq(16, j requires 0 <= j < 16 => WordAt(block, j))
  }

  function Add(c: Chain, c1: Chain): Chain {
    Chain(Plus(c.a, c1.a), Plus(c.b, c1.b), Plus(c.c, c1.c), Plus(c.d, c1.d))
  }

  function Block(c: Chain, block: Bytes): Chain
    requires |block| == 64
  {
    Add(Operations(c, WordsOf(block), 64), c)
  }

  predicate Whole(bytes: Bytes) {
    |bytes| % 64 == 0
  }

  lemma OneLess(bytes: Bytes)
    requires Whole(bytes) && bytes != []
    ensures |bytes| >= 64 && Whole(bytes[64..])
  {
  }

  /** All blocks of a message, one after the other. */
  function Blocks(c: Chain, bytes: Bytes): Chain
    requires Whole(bytes)
    decreases |bytes|
  {
    if bytes == [] then c
    else
      OneLess(bytes);
      Blocks(Block(c, bytes[..64]), bytes[64..])
  }

  lemma {:induction false} BlocksConcat(c: Chain, x: Bytes, y: Bytes)
    requires Whole(x) && Whole(y)
    ensures Whole(x + y) && Blocks(c, x + y) == Blocks(Blocks(c, x), y)
    decreases |x|
  {
    hide Block;
    if x == [] {
      assert x + y == y;
    } else {
      BlocksConcat(Block(c, x[..64]), x[64..], y);
      assert (x + y)[..64] == x[..64] && (x + y)[64..] == x[64..] + y;
    }
  }

  // ---- Sections 3.1 to 3.3 and 3.5 ----

  const INITIAL := Chain(0x67452301, 0xefcdab89, 0x98badcfe, 0x10325476)

  function Low4(n: nat): (r: Bytes)
    ensures |r| == 4
  {
    [(n % 256) as Byte, (n / 0x100 % 256) as Byte, (n / 0x10000 % 256) as Byte, (n / 0x1000000 % 256) as Byte]
  }

  lemma DivideTwice(n: nat, weight: nat)
    requires weight == 0x100 || weight == 0x1_0000
    ensures n / (weight * 0x100) == n / weight / 0x100
  {
    assert weight == 0x100 ==> n / 0x1_0000 == n / 0x100 / 0x100;
    assert weight == 0x1_0000 ==> n / 0x100_0000 == n / 0x1_0000 / 0x100;
  }

  lemma Low4Value(n: nat)
    ensures Value4(Low4(n)) == n % WORD
  {
    DivideTwice(n, 0x100);
    DivideTwice(n, 0x1_0000);
    var q := n / 0x100_0000;
    assert q / 0x100 == n / WORD;
  }

  /** Low-order byte first, the eight bytes are n modulo 2^64. */
  lemma Low8Value(n: nat)
    ensures
      var r := Low8(n);
      && r[0] as nat + 0x100 * r[1] as nat + 0x1_0000 * r[2] as nat + 0x100_0000 * r[3] as nat
         + WORD * (r[4] as nat + 0x100 * r[5] as nat + 0x1_0000 * r[6] as nat + 0x100_0000 * r[7] as nat)
         == n % (WORD * WORD)
  {
    Low4Value(n);
    Low4Value(n / WORD);
    hide Low4;
    var (x, y) := (Low4(n), Low4(n / WORD));
    var r := Low8(n);
    assert r == x + y;
    TwoWords(n);
  }

  lemma TwoWords(n: nat)
    ensures n % (WORD * WORD) == n % WORD + WORD * (n / WORD % WORD)
  {
    var (q, low) := (n / WORD, n % WORD);
    var (k, high) := (q / WORD, q % WORD);
    assert n == k * (WORD * WORD) + (WORD * high + low);
    assert WORD * high + low < WORD * WORD;
  }

  lemma Quotient(k: nat, y: nat)
    requires y < WORD
    ensures (k * WORD + y) / WORD == k
  {
  }

  /** Only the low-order 32 bits count. */
  lemma Low4Periodic(y: nat, k: nat)
    ensures Low4(k * WORD + y) == Low4(y)
  {
    DigitPeriodic(y, k, 1);
    DigitPeriodic(y, k, 0x100);
    DigitPeriodic(y, k, 0x10000);
    DigitPeriodic(y, k, 0x1000000);
  }

  lemma DigitPeriodic(y: nat, k: nat, unit: nat)
    requires unit == 1 || unit == 0x100 || unit == 0x10000 || unit == 0x1000000
    ensures (k * WORD + y) / unit % 256 == y / unit % 256
  {
    if unit == 1 {
      Modulo(k * 0x1000000, y);
    } else if unit == 0x100 {
      assert (k * WORD + y) / 0x100 == k * 0x1000000 + y / 0x100;
      Modulo(k * 0x10000, y / 0x100);
    } else if unit == 0x10000 {
      assert (k * WORD + y) / 0x10000 == k * 0x10000 + y / 0x10000;
      Modulo(k * 0x100, y / 0x10000);
    } else {
      assert (k * WORD + y) / 0x1000000 == k * 0x100 + y / 0x1000000;
      Modulo(k, y / 0x1000000);
    }
  }

  lemma Modulo(k: nat, y: nat)
    ensures (k * 256 + y) % 256 == y % 256
  {
  }

  /** The low-order eight bytes of n. */
  function Low8(n: nat): (r: Bytes)
    ensures |r| == 8
  {
    Low4(n) + Low4(n / 0x1_0000_0000)
  }

  function Zeros(n: nat): (r: Bytes)
    ensures |r| == n
  {
    seq(n, _ => 0)
  }

  /** The number of bytes appended before the length: at least one, and as few as
      make the whole a multiple of 64. */
  function PadLength(n: nat): (pad: nat)
    ensures 1 <= pad <= 64 && FillsBlocks(n, pad)
  {
    if n % 64 < 56 then 56 - n % 64 else 120 - n % 64
  }

  predicate FillsBlocks(n: nat, pad: nat) {
    (n + pad + 8) % 64 == 0
  }

  lemma PadIsShortest(n: nat, k: nat)
    requires 1 <= k < PadLength(n)
    ensures !FillsBlocks(n, k)
  {
  }

  function Padded(m: Bytes): (r: Bytes)
    ensures Whole(r)
  {
    m + ([0x80] + Zeros(PadLength(|m|) - 1)) + Low8(8 * |m|)
  }

  function WordBytes(w: Word): (r: Bytes)
    ensures |r| == 4
  {
    [ByteOf(w), ByteOf(w >> 8), ByteOf(w >> 16), ByteOf(w >> 24)]
  }

  /** Writing a word and reading it back. */
  lemma WordRoundTrip(w: Word)
    ensures WordAt(WordBytes(w), 0) == w
  {
    ApartAndTogether(w);
    hide FourBytes, Bits, ByteOf;
  }

  /** Reading a word and writing it back. */
  lemma BytesRoundTrip(bytes: Bytes)
    requires |bytes| == 4
    ensures WordBytes(WordAt(bytes, 0)) == bytes
  {
    TogetherAndApart(bytes[0], bytes[1], bytes[2], bytes[3]);
    hide FourBytes, Bits, ByteOf;
  }

  /** The bytes of a word are its value, low-order byte first. */
  lemma WordBytesValue(w: Word)
    ensures Value4(WordBytes(w)) == Number(w)
  {
    WordRoundTrip(w);
    hide WordBytes, WordAt, Value4, Number;
    var bytes := WordBytes(w);
    WordIsValue(bytes, 0);
    assert bytes[4 * 0..4 * 0 + 4] == bytes;
  }

  function Output(c: Chain): (r: Bytes)
    ensures |r| == 16
  {
    WordBytes(c.a) + WordBytes(c.b) + WordBytes(c.c) + WordBytes(c.d)
  }

  /** The MD5 message digest of m. */
  function Digest(m: Bytes): Bytes {
    Output(Blocks(INITIAL, Padded(m)))
  }

  // ---- The context ----

  const WORD := 0x1_0000_0000

  /** The byte count in two words, after one `+=` and its carry. */
  function CountAfter(low: nat, high: nat, len: nat): (nat, nat) {
    var sum := (low + len) % WORD;
    (sum, if sum < len then (high + 1) % WORD else high)
  }

  /** The two words count the bytes modulo 2^64, for any length of less than 2^32,
      and for a longer one only while the sum stays below 2^33. */
  lemma CountsBytes(low: nat, high: nat, len: nat)
    requires low < WORD && high < WORD && len < WORD * WORD
    ensures
      var (l, h) := CountAfter(low, high, len);
      (l + h * WORD) % (WORD * WORD) == (low + high * WORD + len) % (WORD * WORD) <==>
          len < WORD || low + len < 2 * WORD
  {
  }

  lemma CountFits(low: nat, high: nat, len: nat)
    requires low < WORD && high < WORD && len < WORD
    ensures
      var (l, h) := CountAfter(low, high, len);
      l < WORD && h < WORD && l + h * WORD < WORD * WORD
  {
  }

  lemma SumModulo(n: nat, len: nat)
    ensures (n % (WORD * WORD) + len) % (WORD * WORD) == (n + len) % (WORD * WORD)
  {
  }

  lemma CountStays(low: nat, high: nat, len: nat, n: nat)
    requires low < WORD && high < WORD && len < WORD && low + high * WORD == n % (WORD * WORD)
    ensures
      var (l, h) := CountAfter(low, high, len);
      l < WORD && h < WORD && l + h * WORD == (n + len) % (WORD * WORD)
  {
    CountsBytes(low, high, len);
    CountFits(low, high, len);
    hide CountAfter;
    var (l, h) := CountAfter(low, high, len);
    SumModulo(n, len);
    assert (l + h * WORD) % (WORD * WORD) == l + h * WORD;
  }

  /** `OP`: the macros of md5.c for operation i. */
  function MacroFunction(i: nat, b: Word, c: Word, d: Word): Word {
    if i < 16 then FF(b, c, d) else if i < 32 then FG(b, c, d) else if i < 48 then FH(b, c, d) else FI(b, c, d)
  }

  lemma MacroIsRoundFunction(i: nat, b: Word, c: Word, d: Word)
    ensures MacroFunction(i, b, c, d) == RoundFunction(i, b, c, d)
  {
    MacrosAgree(b, c, d);
    hide FF, FG, FH, FI, F, G, H, I;
  }

  lemma MacroIsOperation(c: Chain, x: seq<Word>, i: nat)
    requires |x| == 16 && i < 64
    ensures
      var sum := Sum(c.a, MacroFunction(i, c.b, c.c, c.d), x[Index(i)], T(i));
      Chain(c.d, Plus(Cyclic(sum, Shift(i)), c.b), c.b, c.c) == Operation(c, x, i)
  {
    hide MacroFunction, RoundFunction, Shift, Cyclic, Index, T, IsShift, Plus, Rotate, Sum;
    MacroIsRoundFunction(i, c.b, c.c, c.d);
    var sum := Sum(c.a, MacroFunction(i, c.b, c.c, c.d), x[Index(i)], T(i));
    CyclicRotates(sum, Shift(i));
    PlusCommutes(Cyclic(sum, Shift(i)), c.b);
  }

  /** md5_ctx, with the bytes fed so far. */
  class Context {
    var a: Word
    var b: Word
    var c: Word
    var d: Word
    var low: nat
    var high: nat
    var buflen: nat
    const buffer: array<Byte>
    ghost var message: Bytes

    ghost function Done(): nat
      reads this
    {
      if buflen <= |message| then |message| - buflen else 0
    }

    ghost function Words(): Chain
      reads this
    {
      Chain(a, b, c, d)
    }

    /** All but the staged bytes have been processed, in whole blocks; at most one
        block is staged, and the count is that of the processed bytes. */
    ghost predicate Valid()
      reads this, buffer
    {
      && buffer.Length == 128 && buflen <= 64 && buflen <= |message|
      && low < WORD && high < WORD && low + high * WORD == Done() % (WORD * WORD)
      && Whole(message[..Done()]) && Words() == Blocks(INITIAL, message[..Done()])
      && buffer[..buflen] == message[Done()..]
    }

    /** md5_init_ctx */
    constructor ()
      ensures Valid() && message == [] && fresh(buffer)
    {
      a, b, c, d := 0x67452301, 0xefcdab89, 0x98badcfe, 0x10325476;
      low, high := 0, 0;
      buflen := 0;
      buffer := new Byte[128];
      message := [];
    }

    /** The byte count, with its carry. */
    method Count(len: nat)
      modifies `low, `high
      ensures (low, high) == CountAfter(old(low), old(high), len)
    {
      low := (low + len) % WORD;
      if low < len {
        high := (high + 1) % WORD;
      }
    }

    /** md5_process_block */
    method ProcessBlock(data: Bytes)
      requires Whole(data) && |data| < WORD
      modifies `a, `b, `c, `d, `low, `high
      ensures Words() == Blocks(old(Words()), data)
      ensures (low, high) == CountAfter(old(low), old(high), |data|)
    {
      hide Block, Operation;
      Count(|data|);
      ghost var l, h := low, high;
      var off := 0;
      while off < |data|
        invariant low == l && high == h
        invariant 0 <= off <= |data| && Whole(data[off..])
        invariant Blocks(Words(), data[off..]) == Blocks(old(Words()), data)
      {
        OneLess(data[off..]);
        assert data[off..][..64] == data[off..off + 64] && data[off..][64..] == data[off + 64..];
        DoBlock(data[off..off + 64]);
        off := off + 64;
      }
      assert data[off..] == [];
    }

    /** The 64 operations on one block; the words take turns. */
    method DoBlock(block: Bytes)
      requires |block| == 64
      modifies `a, `b, `c, `d
      ensures Words() == Block(old(Words()), block)
    {
      hide Operation, WordsOf, Index, Shift, T, MacroFunction, Cyclic, Plus, Sum;
      var x := WordsOf(block);
      var aa, bb, cc, dd := a, b, c, d;
      for i := 0 to 64
        invariant Words() == old(Words())
        invariant Chain(aa, bb, cc, dd) == Operations(old(Words()), x, i)
      {
        MacroIsOperation(Chain(aa, bb, cc, dd), x, i);
        aa := Sum(aa, MacroFunction(i, bb, cc, dd), x[Index(i)], T(i));
        aa := Cyclic(aa, Shift(i));
        aa := Plus(aa, bb);
        aa, bb, cc, dd := dd, aa, bb, cc;
      }
      a, b, c, d := Plus(aa, a), Plus(bb, b), Plus(cc, c), Plus(dd, d);
    }

    /** Copies into the buffer from position `at` on. */
    method Stage(at: nat, data: Bytes)
      requires at + |data| <= buffer.Length
      modifies buffer
      ensures buffer[..at] == old(buffer[..at]) && buffer[at..at + |data|] == data
    {
      forall i | 0 <= i < |data| {
        buffer[at + i] := data[i];
      }
    }

    /** md5_process_bytes, first part: top up the staged bytes, and process what
        then are whole blocks. */
    method TopUp(data: Bytes) returns (rest: Bytes)
      requires Valid() && buflen > 0 && |data| < WORD
      modifies this, buffer
      ensures Valid() && message + rest == old(message) + data && |rest| <= |data|
      ensures rest != [] ==> buflen == 0
    {
      hide Blocks, Block;
      var leftOver := buflen;
      var add := if 128 - leftOver > |data| then |data| else 128 - leftOver;
      Stage(leftOver, data[..add]);
      buflen := buflen + add;
      message := message + data[..add];
      rest := data[add..];
      StagedMore(old(message), old(Done()), old(buffer[..buflen]), data[..add]);
      assert buffer[..buflen] == old(buffer[..buflen]) + data[..add];
      assert message + rest == old(message) + data by { assert data == data[..add] + data[add..]; }
      if leftOver + add > 64 {
        Drain();
      }
    }

    /** The staged bytes with more behind them. */
    static lemma StagedMore(message: Bytes, done: nat, staged: Bytes, more: Bytes)
      requires done <= |message| && staged == message[done..]
      ensures (message + more)[..done] == message[..done] && (message + more)[done..] == staged + more
    {
    }

    static lemma StagedSplit(m: Bytes, done: nat, staged: Bytes, buflen: nat, n: nat)
      requires done <= |m| && n <= buflen <= |staged| && staged[..buflen] == m[done..]
      ensures m[..done + n] == m[..done] + staged[..n] && m[done + n..] == staged[n..buflen]
    {
      assert m[done..][..n] == staged[..buflen][..n];
      assert m[done + n..] == m[done..][n..] == staged[..buflen][n..];
    }

    /** Process the whole blocks that are staged, and move what is left to the
        front. */
    method Drain()
      requires buffer.Length == 128 && 64 < buflen <= 128 && buflen <= |message|
      requires low < WORD && high < WORD && low + high * WORD == Done() % (WORD * WORD)
      requires Whole(message[..Done()]) && Words() == Blocks(INITIAL, message[..Done()])
      requires buffer[..buflen] == message[Done()..]
      modifies this, buffer
      ensures Valid() && message == old(message) && (old(buflen) == 128 ==> buflen == 0)
    {
      hide Blocks, Block;
      var n := if buflen == 128 then 128 else 64;
      var left := buflen - n;
      ghost var done := Done();
      CountStays(low, high, n, done);
      BlocksConcat(INITIAL, message[..done], buffer[..n]);
      StagedSplit(message, done, buffer[..], buflen, n);
      ProcessBlock(buffer[..n]);
      Stage(0, buffer[n..n + left]);
      buflen := left;
    }

    /** md5_process_bytes */
    method ProcessBytes(data: Bytes)
      requires Valid() && |data| < WORD
      modifies this, buffer
      ensures Valid() && message == old(message) + data
    {
      hide Blocks, Block;
      var rest := data;
      if buflen != 0 {
        rest := TopUp(data);
      }
      if |rest| > 64 {
        var n := |rest| / 64 * 64;
        WholeBlocks(rest[..n]);
        rest := rest[n..];
      }
      if |rest| > 0 {
        Keep(rest);
      }
    }

    /** What is less than a block, or a single block, waits in the buffer. */
    method Keep(rest: Bytes)
      requires Valid() && buflen == 0 && |rest| <= 64
      modifies `buflen, `message, buffer
      ensures Valid() && message == old(message) + rest
    {
      hide Blocks, Block;
      Stage(0, rest);
      buflen := |rest|;
      StagedMore(message, |message|, [], rest);
      message := message + rest;
    }

    /** Blocks that come straight from the caller, with nothing staged. */
    method WholeBlocks(data: Bytes)
      requires Valid() && buflen == 0 && Whole(data) && |data| < WORD
      modifies `a, `b, `c, `d, `low, `high, `message
      ensures Valid() && message == old(message) + data && buflen == 0
    {
      hide Blocks, Block;
      CountStays(low, high, |data|, |message|);
      assert message[..Done()] == message;
      BlocksConcat(INITIAL, message, data);
      ProcessBlock(data);
      message := message + data;
      assert message[..Done()] == message;
    }

    /** md5_finish_ctx; the context is not used again. */
    method Finish() returns (digest: Bytes)
      requires Valid()
      modifies this, buffer
      ensures digest == Digest(old(message))
    {
      hide Blocks, Block, Output, Low8, Zeros;
      ghost var done, m, staged := Done(), message, buffer[..buflen];
      CountStays(low, high, buflen, done);
      Count(buflen);
      var pad := if buflen >= 56 then 64 + 56 - buflen else 56 - buflen;
      var end := PutTail(pad, |m|);
      PaddedTail(m, done, staged, pad);
      BlocksConcat(INITIAL, m[..done], buffer[..end]);
      ProcessBlock(buffer[..end]);
      digest := Output(Chain(a, b, c, d));
    }

    /** The padding and the length in bits, behind the staged bytes. */
    method PutTail(pad: nat, ghost n: nat) returns (end: nat)
      requires 1 <= pad && buflen + pad + 8 <= buffer.Length
      requires low < WORD && high < WORD && low + high * WORD == n % (WORD * WORD)
      modifies buffer
      ensures end == buflen + pad + 8
      ensures buffer[..end] == old(buffer[..buflen]) + ([0x80] + Zeros(pad - 1)) + Low8(8 * n)
    {
      hide Low8, Low4, Zeros;
      var fill := [0x80] + Zeros(pad - 1);
      Stage(buflen, fill);
      assert buffer[..buflen + pad] == old(buffer[..buflen]) + fill;
      var length := Low4(low * 8 % WORD) + Low4(high * 8 % WORD + low / 0x2000_0000);
      Stage(buflen + pad, length);
      LengthWords(low, high, n);
      end := buflen + pad + 8;
      assert buffer[..end] == old(buffer[..buflen]) + fill + length;
    }

    /** `SWAP (total[0] << 3)` and `SWAP ((total[1] << 3) | (total[0] >> 29))`: the
        two shifted parts have no bits in common. */
    static lemma LengthWords(low: nat, high: nat, n: nat)
      requires low < WORD && high < WORD && low + high * WORD == n % (WORD * WORD)
      ensures Low4(low * 8 % WORD) + Low4(high * 8 % WORD + low / 0x2000_0000) == Low8(8 * n)
    {
      hide Low4;
      var q, carry := n / (WORD * WORD), low / 0x2000_0000;
      assert n == q * WORD * WORD + high * WORD + low;
      assert 8 * low == carry * WORD + low * 8 % WORD;
      var upper := 8 * q * WORD + 8 * high + carry;
      assert 8 * n == upper * WORD + low * 8 % WORD;
      assert 8 * n / WORD == upper by { Quotient(upper, low * 8 % WORD); }
      Low4Periodic(low * 8 % WORD, upper);
      var over := high * 8 / WORD;
      assert 8 * high == over * WORD + high * 8 % WORD;
      assert upper == (8 * q + over) * WORD + (high * 8 % WORD + carry);
      Low4Periodic(high * 8 % WORD + carry, 8 * q + over);
    }

    static lemma PaddedTail(m: Bytes, done: nat, staged: Bytes, pad: nat)
      requires done <= |m| && Whole(m[..done]) && staged == m[done..] && |staged| <= 64
      requires pad == if |staged| >= 56 then 120 - |staged| else 56 - |staged|
      ensures Whole(staged + ([0x80] + Zeros(pad - 1)) + Low8(8 * |m|))
      ensures Padded(m) == m[..done] + (staged + ([0x80] + Zeros(pad - 1)) + Low8(8 * |m|))
    {
      hide Low8, Zeros;
      assert pad == PadLength(|m|);
      assert m == m[..done] + staged;
    }
  }

  /** md5_buffer */
  method DigestOf(data: Bytes) returns (digest: Bytes)
    requires |data| < WORD
    ensures digest == Digest(data)
  {
    var ctx := new Context();
    ctx.ProcessBytes(data);
    assert [] + data == data;
    digest := ctx.Finish();
  }

  function Joined(pieces: seq<Bytes>): Bytes {
    if pieces == [] then [] else Joined(pieces[..|pieces| - 1]) + pieces[|pieces| - 1]
  }

  lemma JoinedNext(pieces: seq<Bytes>, i: nat)
    requires i < |pieces|
    ensures Joined(pieces[..i + 1]) == Joined(pieces[..i]) + pieces[i]
  {
    assert pieces[..i + 1][..i] == pieces[..i];
  }

  /** However a message is cut into pieces, the digest is that of the message. */
  method DigestOfPieces(pieces: seq<Bytes>) returns (digest: Bytes)
    requires forall i | 0 <= i < |pieces| :: |pieces[i]| < WORD
    ensures digest == Digest(Joined(pieces))
  {
    hide Digest, Blocks, Whole;
    var ctx := new Context();
    assert Joined(pieces[..0]) == [];
    for i := 0 to |pieces|
      invariant ctx.Valid() && fresh(ctx) && fresh(ctx.buffer) && ctx.message == Joined(pieces[..i])
    {
      JoinedNext(pieces, i);
      ctx.ProcessBytes(pieces[i]);
    }
    assert pieces[..|pieces|] == pieces;
    digest := ctx.Finish();
  }
}
