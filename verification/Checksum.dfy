/** in_cksum: the Internet checksum of RFC 1071. */
module Checksum {
  import opened Octets

  /** A 16-bit word in memory, low-order byte first. */
  function WordAt(b: Bytes, i: nat): (w: nat)
    requires i + 1 < |b|
    ensures w <= 0xffff
  {
    b[i] as nat + 256 * b[i + 1] as nat
  }

  // ---- RFC 1071, section 1 ----

  /** Addition of two words with the carry added back at the low end. */
  function AddWords(x: nat, y: nat): (z: nat)
    requires x <= 0xffff && y <= 0xffff
    ensures z <= 0xffff
  {
    if x + y > 0xffff then x + y - 0xffff else x + y
  }

  /** The ones-complement sum of the words; an odd byte is padded with a zero. */
  function OnesComplementSum(b: Bytes): (sum: nat)
    ensures sum <= 0xffff
  {
    if |b| == 0 then 0
    else if |b| == 1 then b[0] as nat
    else AddWords(WordAt(b, 0), OnesComplementSum(b[2..]))
  }

  /** An odd byte counts as if a zero came behind it. */
  lemma {:induction false} OddByteIsPadded(b: Bytes)
    requires |b| % 2 == 1
    ensures OnesComplementSum(b) == OnesComplementSum(b + [0])
    decreases |b|
  {
    if |b| > 1 {
      OddByteIsPadded(b[2..]);
      assert (b + [0])[2..] == b[2..] + [0];
    } else {
      assert (b + [0])[2..] == [];
    }
  }

  /** The example of RFC 1071, section 3: the sum is stored as dd f2. */
  lemma RfcExample()
    ensures OnesComplementSum([0x00, 0x01, 0xf2, 0x03, 0xf4, 0xf5, 0xf6, 0xf7]) == 0xdd + 0x100 * 0xf2
  {
    var b: Bytes := [0x00, 0x01, 0xf2, 0x03, 0xf4, 0xf5, 0xf6, 0xf7];
    assert b[2..] == [0xf2, 0x03, 0xf4, 0xf5, 0xf6, 0xf7] && b[2..][2..] == [0xf4, 0xf5, 0xf6, 0xf7];
    assert b[2..][2..][2..] == [0xf6, 0xf7] && b[2..][2..][2..][2..] == [];
  }

  // ---- The accumulator ----

  /** What is added up before the carries are folded back. */
  function Sum(b: Bytes): (sum: nat)
    ensures sum <= 0xffff * ((|b| + 1) / 2)
  {
    if |b| == 0 then 0
    else if |b| == 1 then b[0] as nat
    else WordAt(b, 0) + Sum(b[2..])
  }

  /** A sum with all its carries added back. */
  function Carried(n: nat): (r: nat)
    ensures r <= 0xffff
  {
    if n == 0 then 0 else if n % 0xffff == 0 then 0xffff else n % 0xffff
  }

  lemma CarriedPlus(x: nat, y: nat)
    ensures AddWords(Carried(x), Carried(y)) == Carried(x + y)
  {
    var p, q := x / 0xffff, y / 0xffff;
    assert x == 0xffff * p + x % 0xffff && y == 0xffff * q + y % 0xffff;
    Modulus(p + q, x % 0xffff + y % 0xffff);
  }

  lemma Modulus(k: nat, r: nat)
    ensures (0xffff * k + r) % 0xffff == r % 0xffff
  {
  }

  lemma CarriedWord(w: nat)
    requires w <= 0xffff
    ensures Carried(w) == w
  {
  }

  /** Carries may be added back at every word or once at the end. */
  lemma {:induction false} SumsAgree(b: Bytes)
    ensures OnesComplementSum(b) == Carried(Sum(b))
  {
    hide Carried, WordAt, AddWords;
    if |b| <= 1 {
      CarriedWord(Sum(b));
    } else {
      CarriedWord(WordAt(b, 0));
      SumsAgree(b[2..]);
      CarriedPlus(WordAt(b, 0), Sum(b[2..]));
    }
  }

  /** The two folds and the final `~`, truncated to 16 bits. */
  function Folded(sum: nat): (answer: nat)
    ensures answer <= 0xffff
  {
    var once := sum / 0x10000 + sum % 0x10000;
    var twice := once + once / 0x10000;
    0xffff - twice % 0x10000
  }

  /** Two folds are enough exactly when the second one produces no carry of its
      own; the accumulator is a signed long. */
  lemma TwoFolds(sum: nat)
    requires sum < 0x8000_0000_0000_0000
    ensures
      var once := sum / 0x10000 + sum % 0x10000;
      Folded(sum) == 0xffff - Carried(sum) <==> once / 0x10000 + once % 0x10000 <= 0xffff
  {
    var hi, lo := sum / 0x10000, sum % 0x10000;
    var once := hi + lo;
    var q, r := once / 0x10000, once % 0x10000;
    assert sum == 0xffff * hi + once && once == 0xffff * q + (q + r);
    Modulus(hi, once);
    Modulus(q, q + r);
    assert sum % 0xffff == (q + r) % 0xffff;
    LowHalf(q, q + r);
    CarriedOrNot(sum, q + r);
  }

  lemma LowHalf(q: nat, t: nat)
    ensures (0x10000 * q + t) % 0x10000 == t % 0x10000
  {
  }

  lemma CarriedOrNot(sum: nat, t: nat)
    requires sum % 0xffff == t % 0xffff && (sum == 0 <==> t == 0) && t < 0xffff * 0x10000
    ensures t % 0x10000 == Carried(sum) <==> t <= 0xffff
  {
    if t > 0xffff {
      var a, b := t / 0x10000, t % 0x10000;
      assert t == 0xffff * a + (a + b) && 0 < a < 0xffff;
      Modulus(a, a + b);
      assert (a + b) % 0xffff ==
        if a + b < 0xffff then a + b else if a + b < 0x1fffe then a + b - 0xffff else a + b - 0x1fffe;
    }
  }

  // ---- in_cksum ----

  method InCksum(b: Bytes) returns (answer: nat)
    requires |b| <= 131074
    ensures answer == 0xffff - OnesComplementSum(b)
  {
    var sum: nat, at: nat, nbytes := 0, 0, |b|;
    while nbytes > 1
      invariant 0 <= nbytes && at + nbytes == |b| && sum + Sum(b[at..]) == Sum(b)
    {
      assert b[at..][2..] == b[at + 2..];
      sum := sum + WordAt(b, at);
      at := at + 2;
      nbytes := nbytes - 2;
    }
    if nbytes == 1 {
      sum := sum + b[at] as nat;
    }
    assert sum == Sum(b);
    SumsAgree(b);
    TwoFolds(sum);
    sum := sum / 0x10000 + sum % 0x10000;
    sum := sum + sum / 0x10000;
    answer := 0xffff - sum % 0x10000;
  }

  /** Putting a word where there was zero adds it to the sum. */
  lemma {:induction false} StoredWord(b: Bytes, at: nat, w: nat)
    requires at % 2 == 0 && at + 1 < |b| && b[at] == b[at + 1] == 0 && w <= 0xffff
    ensures Sum(b[at := (w % 256) as Byte][at + 1 := (w / 256) as Byte]) == Sum(b) + w
  {
    var r := b[at := (w % 256) as Byte][at + 1 := (w / 256) as Byte];
    if at == 0 {
      assert r[2..] == b[2..];
    } else {
      StoredWord(b[2..], at - 2, w);
      assert r[2..] == b[2..][at - 2 := (w % 256) as Byte][at - 1 := (w / 256) as Byte];
    }
  }

  /** A packet that carries its checksum, in an aligned field that was zero, has the
      checksum 0. */
  method StoreAndCheck(b: Bytes, at: nat) returns (stored: Bytes, check: nat)
    requires |b| <= 131074 && at % 2 == 0 && at + 1 < |b| && b[at] == b[at + 1] == 0
    ensures |stored| == |b| && forall i | 0 <= i < |b| && i != at && i != at + 1 :: stored[i] == b[i]
    ensures WordAt(stored, at) == 0xffff - OnesComplementSum(b)
    ensures check == 0
  {
    var answer := InCksum(b);
    stored := b[at := (answer % 256) as Byte][at + 1 := (answer / 256) as Byte];
    check := InCksum(stored);
    StoredWord(b, at, answer);
    SumsAgree(b);
    SumsAgree(stored);
    Completed(Sum(b));
  }

  lemma Completed(sum: nat)
    ensures Carried(sum + (0xffff - Carried(sum))) == 0xffff
  {
    CarriedPlus(sum, 0xffff - Carried(sum));
    assert sum == 0xffff * (sum / 0xffff) + sum % 0xffff;
  }
}
