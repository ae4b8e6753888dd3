/** Byte-level prefix algebra: the functions of prefix.c that the routing table
    rests on, each proved against the bits of the address, most significant
    bit of the first byte first. */
module Prefix {

  datatype Family = Unspec | Inet | Inet6

  /** `struct prefix`.  `bytes` is the 16-byte address union followed by the one
      byte that check_bit reads when asked for the bit just past a 128-bit
      address; nothing is assumed about that last byte. */
  datatype Prefix = Prefix(family: Family, prefixlen: nat, bytes: seq<bv8>)

  const STORAGE: nat := 17

  /** Number of address bytes that prefix_copy copies for a family. */
  function AddrBytes(f: Family): nat {
    match f
    case Unspec => 8
    case Inet => 4
    case Inet6 => 16
  }

  predicate WellFormed(p: Prefix) {
    |p.bytes| == STORAGE && p.prefixlen <= 8 * AddrBytes(p.family)
  }

  /** Bit k of a byte, counted from the most significant. */
  predicate BitOfByte(b: bv8, k: nat)
    requires k < 8
  {
    b & UnitMask(k) != 0
  }

  function UnitMask(k: nat): bv8
    requires k < 8
  {
    if k == 0 then 0x80 else if k == 1 then 0x40 else if k == 2 then 0x20 else if k == 3 then 0x10
    else if k == 4 then 0x08 else if k == 5 then 0x04 else if k == 6 then 0x02 else 0x01
  }

  /** `maskbit[s]`: the first s bits of a byte. */
  function MaskBit(s: nat): bv8
    requires s <= 8
  {
    if s == 0 then 0x00 else if s == 1 then 0x80 else if s == 2 then 0xc0 else if s == 3 then 0xe0
    else if s == 4 then 0xf0 else if s == 5 then 0xf8 else if s == 6 then 0xfc else if s == 7 then 0xfe else 0xff
  }

  predicate BitAt(bytes: seq<bv8>, i: nat)
    requires i < 8 * |bytes|
  {
    BitOfByte(bytes[i / 8], i % 8)
  }

  /** The meaning of a prefix: its first `prefixlen` bits. */
  function Key(p: Prefix): (bits: seq<bool>)
    requires WellFormed(p)
    ensures |bits| == p.prefixlen
  {
    seq(p.prefixlen, i requires 0 <= i < p.prefixlen => BitAt(p.bytes, i))
  }

  lemma MaskAgrees(a: bv8, b: bv8, s: nat)
    requires s <= 8
    ensures MaskBit(s) & (a ^ b) == 0 <==> forall k: nat | k < s :: BitOfByte(a, k) == BitOfByte(b, k)
  {
    assert forall k: nat | k < 8 ::
      BitOfByte(a, k) == BitOfByte(b, k) <==> (a ^ b) & UnitMask(k) == 0 by {
      forall k: nat | k < 8
        ensures BitOfByte(a, k) == BitOfByte(b, k) <==> (a ^ b) & UnitMask(k) == 0
      {
        XorBit(a, b, k);
      }
    }
    MaskCovers(a ^ b, s);
  }

  lemma XorBit(a: bv8, b: bv8, k: nat)
    requires k < 8
    ensures BitOfByte(a, k) == BitOfByte(b, k) <==> (a ^ b) & UnitMask(k) == 0
  {
    XorMask(a, b, UnitMask(k));
    assert a & UnitMask(k) == 0 || a & UnitMask(k) == UnitMask(k);
    assert b & UnitMask(k) == 0 || b & UnitMask(k) == UnitMask(k);
  }

  lemma XorMask(a: bv8, b: bv8, m: bv8)
    ensures a & m == b & m <==> (a ^ b) & m == 0
  {
  }

  lemma XorZero(a: bv8, b: bv8)
    ensures a ^ b == 0 <==> a == b
  {
  }

  lemma MaskCovers(d: bv8, s: nat)
    requires s <= 8
    ensures MaskBit(s) & d == 0 <==> forall k: nat | k < s :: d & UnitMask(k) == 0
  {
    assert UnitMask(0) == 0x80 && UnitMask(1) == 0x40 && UnitMask(2) == 0x20 && UnitMask(3) == 0x10
        && UnitMask(4) == 0x08 && UnitMask(5) == 0x04 && UnitMask(6) == 0x02 && UnitMask(7) == 0x01;
    if s == 0 {} else if s == 1 {} else if s == 2 {} else if s == 3 {}
    else if s == 4 {} else if s == 5 {} else if s == 6 {} else if s == 7 {} else {}
  }

  /** Moving route_common's one-bit mask on by one position. */
  lemma NextBit(diff: bv8, k: nat)
    requires k < 8 && MaskBit(k) & diff == 0 && UnitMask(k) & diff == 0
    ensures MaskBit(k + 1) & diff == 0
    ensures k < 7 ==> UnitMask(k) >> 1 == UnitMask(k + 1)
  {
    MaskCovers(diff, k);
    MaskCovers(diff, k + 1);
  }

  lemma FirstBit(diff: bv8)
    ensures UnitMask(0) == 0x80 && MaskBit(0) & diff == 0
    ensures MaskBit(8) & diff == diff
  {
  }

  lemma MaskedBit(a: bv8, s: nat, k: nat)
    requires s <= 8 && k < 8
    ensures BitOfByte(a & MaskBit(s), k) == (k < s && BitOfByte(a, k))
  {
    if s == 0 {} else if s == 1 {} else if s == 2 {} else if s == 3 {}
    else if s == 4 {} else if s == 5 {} else if s == 6 {} else if s == 7 {} else {}
  }

  /** Bits are counted from the highest one: bit k is set exactly when the byte, shifted
      left by k, is at least 128. */
  lemma HighestBitFirst(b: bv8, k: nat)
    requires k < 8
    ensures BitOfByte(b, k) <==> (b << k) >= 128
  {
    if k == 0 {} else if k == 1 {} else if k == 2 {} else if k == 3 {}
    else if k == 4 {} else if k == 5 {} else if k == 6 {} else {}
  }

  /** Two bytes are equal exactly when all eight bits agree. */
  lemma ByteExtensional(a: bv8, b: bv8)
    ensures a == b <==> forall k: nat | k < 8 :: BitOfByte(a, k) == BitOfByte(b, k)
  {
    MaskAgrees(a, b, 8);
    assert 0xff & (a ^ b) == 0 <==> a == b;
  }

  /** The bits below `len`, grouped as whole bytes and the rest of one byte. */
  predicate BitsAgree(a: seq<bv8>, b: seq<bv8>, len: nat)
    requires len <= 8 * |a| && len <= 8 * |b|
  {
    forall i: nat | i < len :: BitAt(a, i) == BitAt(b, i)
  }

  lemma BytesAgree(a: seq<bv8>, b: seq<bv8>, len: nat)
    requires len < 8 * |a| && len < 8 * |b|
    ensures BitsAgree(a, b, len) <==>
              && (forall k: nat | k < len / 8 :: a[k] == b[k])
              && MaskBit(len % 8) & (a[len / 8] ^ b[len / 8]) == 0
  {
    hide MaskBit, BitOfByte;
    var q, s := len / 8, len % 8;
    MaskAgrees(a[q], b[q], s);
    if BitsAgree(a, b, len) {
      forall k: nat | k <= q
        ensures forall j: nat | j < 8 && 8 * k + j < len :: BitOfByte(a[k], j) == BitOfByte(b[k], j)
        ensures k < q ==> a[k] == b[k]
      {
        forall j: nat | j < 8 && 8 * k + j < len
          ensures BitOfByte(a[k], j) == BitOfByte(b[k], j)
        {
          assert (8 * k + j) / 8 == k && (8 * k + j) % 8 == j;
          assert BitAt(a, 8 * k + j) == BitAt(b, 8 * k + j);
        }
        ByteExtensional(a[k], b[k]);
      }
    } else {
      var i: nat :| i < len && BitAt(a, i) != BitAt(b, i);
      if i / 8 == q {
        assert i % 8 < s;
      } else {
        assert i / 8 < q;
      }
    }
  }

  lemma KeysAgree(n: Prefix, p: Prefix)
    requires WellFormed(n) && WellFormed(p) && n.prefixlen <= p.prefixlen
    ensures Key(n) <= Key(p) <==> BitsAgree(n.bytes, p.bytes, n.prefixlen)
  {
    if Key(n) <= Key(p) {
      forall i: nat | i < n.prefixlen
        ensures BitAt(n.bytes, i) == BitAt(p.bytes, i)
      {
        assert Key(n)[i] == Key(p)[i];
      }
    }
  }

  /** prefix_match: does n's network contain p's? */
  method PrefixMatch(n: Prefix, p: Prefix) returns (r: bool)
    requires WellFormed(n) && WellFormed(p)
    ensures r <==> Key(n) <= Key(p)
  {
    if n.prefixlen > p.prefixlen {
      return false;
    }
    KeysAgree(n, p);
    BytesAgree(n.bytes, p.bytes, n.prefixlen);
    r := SameHead(n.bytes, p.bytes, n.prefixlen);
  }

  /** The comparison shared by prefix_match and prefix_cmp: first the partial
      byte under its mask, then the whole bytes from the last to the first. */
  method SameHead(np: seq<bv8>, pp: seq<bv8>, prefixlen: nat) returns (r: bool)
    requires prefixlen < 8 * |np| && prefixlen < 8 * |pp|
    ensures r <==> BitsAgree(np, pp, prefixlen)
  {
    var offset, shift := prefixlen / 8, prefixlen % 8;
    BytesAgree(np, pp, prefixlen);
    if shift != 0 {
      if MaskBit(shift) & (np[offset] ^ pp[offset]) != 0 {
        return false;
      }
    } else {
      MaskAgrees(np[offset], pp[offset], 0);
    }
    while offset != 0
      invariant offset <= prefixlen / 8
      invariant forall k: nat | offset <= k < prefixlen / 8 :: np[k] == pp[k]
    {
      offset := offset - 1;
      if np[offset] != pp[offset] {
        return false;
      }
    }
    return true;
  }

  /** prefix_cmp: 0 exactly when family, length and network bits coincide. */
  method PrefixCmp(p1: Prefix, p2: Prefix) returns (r: int)
    requires WellFormed(p1) && WellFormed(p2)
    ensures r == 0 || r == 1
    ensures r == 0 <==> p1.family == p2.family && Key(p1) == Key(p2)
  {
    if p1.family != p2.family || p1.prefixlen != p2.prefixlen {
      return 1;
    }
    KeysAgree(p1, p2);
    assert Key(p1) <= Key(p2) <==> Key(p1) == Key(p2);
    var same := SameHead(p1.bytes, p2.bytes, p1.prefixlen);
    return if same then 0 else 1;
  }

  /** check_bit; the value read just past a full-length address is arbitrary. */
  function CheckBit(p: Prefix, prefixlen: nat): (bit: nat)
    requires WellFormed(p) && prefixlen <= 128
    ensures bit == 0 || bit == 1
    ensures prefixlen < p.prefixlen ==> (bit == 1 <==> Key(p)[prefixlen])
  {
    ShiftedBit(p.bytes[prefixlen / 8], prefixlen % 8);
    ((p.bytes[prefixlen / 8] >> (7 - prefixlen % 8)) & 1) as nat
  }

  lemma ShiftedBit(b: bv8, k: nat)
    requires k < 8
    ensures (b >> (7 - k)) & 1 == 0 || (b >> (7 - k)) & 1 == 1
    ensures (b >> (7 - k)) & 1 == 1 <==> BitOfByte(b, k)
  {
    if k == 0 {} else if k == 1 {} else if k == 2 {} else if k == 3 {}
    else if k == 4 {} else if k == 5 {} else if k == 6 {} else {}
  }

  /** prefix_copy into a zeroed structure: only the family's address bytes. */
  function PrefixCopy(src: Prefix): (dest: Prefix)
    requires WellFormed(src)
    ensures WellFormed(dest) && dest.family == src.family
    ensures Key(dest) == Key(src)
  {
    var n := AddrBytes(src.family);
    var dest := src.(bytes := src.bytes[..n] + seq(STORAGE - n, _ => 0));
    assert BitsAgree(src.bytes, dest.bytes, src.prefixlen);
    KeysAgree(src, dest);
    dest
  }

  /** apply_mask_ipv4 and apply_mask_ipv6 on an address of 4 or 16 bytes: the
      network bits stay, every host bit becomes zero. */
  method ApplyMask(pnt: array<bv8>, prefixlen: nat)
    requires prefixlen <= 8 * pnt.Length
    modifies pnt
    ensures forall i: nat | i < 8 * pnt.Length :: BitAt(pnt[..], i) == (i < prefixlen && BitAt(old(pnt[..]), i))
  {
    hide BitOfByte, MaskBit, BitAt;
    ghost var was := pnt[..];
    var index := prefixlen / 8;
    if index < pnt.Length {
      var offset := prefixlen % 8;
      pnt[index] := pnt[index] & MaskBit(offset);
      ghost var masked := pnt[index];
      index := index + 1;
      while index < pnt.Length
        invariant prefixlen / 8 < index <= pnt.Length
        invariant forall k: nat | k < prefixlen / 8 :: pnt[k] == was[k]
        invariant pnt[prefixlen / 8] == masked
        invariant forall k: nat | prefixlen / 8 < k < index :: pnt[k] == 0
      {
        pnt[index] := 0;
        index := index + 1;
      }
      BitsMasked(was, pnt[..], prefixlen);
    }
  }

  lemma BitsMasked(a: seq<bv8>, r: seq<bv8>, len: nat)
    requires |a| == |r| && len < 8 * |a|
    requires forall k: nat | k < |a| ::
               r[k] == if k < len / 8 then a[k] else if k == len / 8 then a[k] & MaskBit(len % 8) else 0
    ensures forall i: nat | i < 8 * |a| :: BitAt(r, i) == (i < len && BitAt(a, i))
  {
    hide BitOfByte, MaskBit;
    forall i: nat | i < 8 * |a|
      ensures BitAt(r, i) == (i < len && BitAt(a, i))
    {
      MaskedBit(a[len / 8], len % 8, i % 8);
      ZeroBit(i % 8);
    }
  }

  lemma ZeroBit(k: nat)
    requires k < 8
    ensures !BitOfByte(0, k)
  {
  }

  /** masklen2ip and masklen2ip6: a netmask whose first masklen bits are one. */
  method MaskLenToIp(masklen: nat, netmask: array<bv8>)
    requires masklen <= 8 * netmask.Length
    modifies netmask
    ensures IsNetmask(netmask[..], masklen)
  {
    assert MaskBit(0) == 0;
    hide BitAt, BitOfByte, MaskBit;
    forall k | 0 <= k < netmask.Length {
      netmask[k] := 0;
    }
    var pnt, offset, bit := 0, masklen / 8, masklen % 8;
    while offset != 0
      invariant 0 <= offset && pnt + offset == masklen / 8
      invariant forall k: nat | k < netmask.Length :: netmask[k] == if k < pnt then 0xff else 0
    {
      netmask[pnt] := 0xff;
      pnt := pnt + 1;
      offset := offset - 1;
    }
    if bit != 0 {
      netmask[pnt] := MaskBit(bit);
    }
    OnesFirst(netmask[..], masklen);
  }

  lemma OnesFirst(r: seq<bv8>, len: nat)
    requires len <= 8 * |r|
    requires forall k: nat | k < |r| ::
               r[k] == if k < len / 8 then 0xff else if k == len / 8 then MaskBit(len % 8) else 0
    ensures forall i: nat | i < 8 * |r| :: BitAt(r, i) == (i < len)
  {
    assert MaskBit(len % 8) == 0xff & MaskBit(len % 8);
    hide BitOfByte, MaskBit;
    forall i: nat | i < 8 * |r|
      ensures BitAt(r, i) == (i < len)
    {
      MaskedBit(0xff, len % 8, i % 8);
      AllOnes(i % 8);
    }
  }

  lemma AllOnes(k: nat)
    requires k < 8
    ensures BitOfByte(0xff, k) && !BitOfByte(0, k)
  {
  }

  predicate IsNetmask(mask: seq<bv8>, masklen: nat)
    requires masklen <= 8 * |mask|
  {
    forall i: nat | i < 8 * |mask| :: BitAt(mask, i) == (i < masklen)
  }

  ghost predicate Sequential(mask: seq<bv8>) {
    exists m: nat | m <= 8 * |mask| :: IsNetmask(mask, m)
  }

  /** ip_masklen and ip6_masklen, on the sequential netmasks their comment
      assumes: the length that masklen2ip turns back into this mask. */
  method IpMaskLen(netmask: seq<bv8>) returns (len: nat)
    requires Sequential(netmask)
    ensures len <= 8 * |netmask| && IsNetmask(netmask, len)
  {
    ghost var masklen: nat :| masklen <= 8 * |netmask| && IsNetmask(netmask, masklen);
    len := 0;
    var pnt := 0;
    while pnt < |netmask| && netmask[pnt] == 0xff
      invariant pnt <= |netmask| && len == 8 * pnt <= masklen
    {
      assert BitAt(netmask, 8 * pnt + 7) by { AllOnes(7); }
      len := len + 8;
      pnt := pnt + 1;
    }
    if pnt < |netmask| {
      var val := netmask[pnt];
      ghost var rest := NetmaskByte(netmask, masklen, pnt);
      while val != 0
        invariant 0 <= rest <= 7 && val == MaskBit(rest) && len + rest == masklen
        decreases rest
      {
        ShiftOut(rest);
        len := len + 1;
        val := val << 1;
        rest := rest - 1;
      }
      NonZeroMask(rest);
    }
  }

  lemma ShiftOut(s: nat)
    requires s <= 7 && MaskBit(s) != 0
    ensures s > 0 && MaskBit(s) << 1 == MaskBit(s - 1)
  {
    if s == 0 {} else if s == 1 {} else if s == 2 {} else if s == 3 {}
    else if s == 4 {} else if s == 5 {} else if s == 6 {} else {}
  }

  lemma NonZeroMask(s: nat)
    requires s <= 7 && MaskBit(s) == 0
    ensures s == 0
  {
  }

  /** The first byte of a netmask that is not all ones. */
  lemma NetmaskByte(mask: seq<bv8>, masklen: nat, k: nat) returns (s: nat)
    requires masklen <= 8 * |mask| && IsNetmask(mask, masklen)
    requires k < |mask| && 8 * k <= masklen && mask[k] != 0xff
    ensures s <= 7 && mask[k] == MaskBit(s) && 8 * k + s == masklen
  {
    s := masklen - 8 * k;
    if s > 7 {
      forall j: nat | j < 8
        ensures BitOfByte(mask[k], j) == BitOfByte(0xff, j)
      {
        assert BitAt(mask, 8 * k + j);
        AllOnes(j);
      }
      ByteExtensional(mask[k], 0xff);
      assert false;
    }
    forall j: nat | j < 8
      ensures BitOfByte(mask[k], j) == BitOfByte(MaskBit(s), j)
    {
      assert BitAt(mask, 8 * k + j) == (8 * k + j < masklen);
      MaskedBit(0xff, s, j);
      AllOnes(j);
      assert 0xff & MaskBit(s) == MaskBit(s);
    }
    ByteExtensional(mask[k], MaskBit(s));
  }

  /** A netmask has one length and a length has one netmask, so masklen2ip and
      ip_masklen undo each other in both directions. */
  lemma NetmaskUnique(x: seq<bv8>, y: seq<bv8>, m: nat, n: nat)
    requires |x| == |y| && m <= 8 * |x| && n <= 8 * |x|
    requires IsNetmask(x, m) && IsNetmask(y, n)
    ensures x == y <==> m == n
  {
    if m < n {
      assert !BitAt(x, m) && BitAt(y, m);
    } else if n < m {
      assert BitAt(x, n) && !BitAt(y, n);
    } else {
      forall k: nat | k < |x|
        ensures x[k] == y[k]
      {
        forall j: nat | j < 8
          ensures BitOfByte(x[k], j) == BitOfByte(y[k], j)
        {
          assert BitAt(x, 8 * k + j) == BitAt(y, 8 * k + j);
        }
        ByteExtensional(x[k], y[k]);
      }
    }
  }
}
