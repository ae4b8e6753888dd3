/** The path-compressed routing trie of table.c, on the heap.

    A node's key is the bit string of its prefix.  The shape of the trie is
    stated flat, over the set of its nodes: whenever one node's key is a proper
    prefix of another's, the link chosen by the next bit leads towards it.  */
module RouteTable {
  import opened Options
  import opened Prefix

  type Bits = seq<bool>

  class RouteNode {
    const p: Prefix
    ghost const key: Bits
    var parent: RouteNode?
    var left: RouteNode?
    var right: RouteNode?
    var lock: nat
    var info: Option<int>

    /** route_node_set, and route_node_new with its prefix filled in. */
    constructor (prefix: Prefix)
      requires WellFormed(prefix)
      ensures p == prefix && key == Key(prefix)
      ensures parent == null && left == null && right == null && lock == 0 && info == None
    {
      p, key := prefix, Key(prefix);
      parent, left, right := null, null, null;
      lock, info := 0, None;
    }

    /** `link[bit]`, with link[0] the left link. */
    function Link(bit: bool): RouteNode?
      reads `left, `right
    {
      if bit then right else left
    }

    ghost predicate HasTwoChildren()
      reads `left, `right
    {
      left != null && right != null
    }

    /** Writes link[bit] and the child's parent pointer. */
    method SetLink(child: RouteNode)
      requires WellFormed(p) && WellFormed(child.p) && p.prefixlen < child.p.prefixlen
      requires key == Key(p) && child.key == Key(child.p)
      requires child != this
      modifies this`left, this`right, child`parent
      ensures |key| < |child.key|
      ensures left == if child.key[|key|] then old(left) else child
      ensures right == if child.key[|key|] then child else old(right)
      ensures child.parent == this
    {
      if CheckBit(child.p, p.prefixlen) == 0 {
        left := child;
      } else {
        right := child;
      }
      child.parent := this;
    }
  }

  /** A proper prefix. */
  ghost predicate Below(a: Bits, b: Bits) {
    a <= b && a != b
  }

  /** The reference for longest-prefix match: try q, then q with its last bit
      dropped, and so on. */
  function BestMatch(view: map<Bits, int>, q: Bits): Option<Bits> {
    if q in view then Some(q)
    else if q == [] then None
    else BestMatch(view, q[..|q| - 1])
  }

  /** The reference finds exactly the longest prefix of q that has info. */
  lemma {:induction false} BestMatchIsLongest(view: map<Bits, int>, q: Bits)
    ensures match BestMatch(view, q)
            case None => forall k | k in view :: !(k <= q)
            case Some(b) => b in view && b <= q && forall k | k in view && k <= q :: |k| <= |b|
  {
    if q !in view && q != [] {
      var shorter := q[..|q| - 1];
      BestMatchIsLongest(view, shorter);
      forall k | k in view && k <= q
        ensures k <= shorter
      {
        assert k != q;
      }
    }
  }

  lemma SamePrefix(a: Bits, b: Bits, q: Bits)
    requires a <= q && b <= q && |a| == |b|
    ensures a == b
  {
    assert a == q[..|a|] && b == q[..|b|];
  }

  /** An answer is determined by being the longest. */
  lemma BestMatchIs(view: map<Bits, int>, q: Bits, b: Bits)
    requires b in view && b <= q && forall k | k in view && k <= q :: |k| <= |b|
    ensures BestMatch(view, q) == Some(b)
  {
    BestMatchIsLongest(view, q);
    SamePrefix(BestMatch(view, q).value, b, q);
  }

  /** Giving k info changes the answers for the addresses under k only, and only
      where nothing longer matched. */
  lemma {:induction false} AnswersAfterSet(view: map<Bits, int>, k: Bits, v: int, q: Bits)
    ensures
      var (now, was) := (BestMatch(view[k := v], q), BestMatch(view, q));
      now == if k <= q && (was.None? || |was.value| <= |k|) then Some(k) else was
  {
    hide BestMatch;
    var view1, was := view[k := v], BestMatch(view, q);
    BestMatchIsLongest(view, q);
    BestMatchIsLongest(view1, q);
    if k <= q && (was.None? || |was.value| <= |k|) {
      BestMatchIs(view1, q, k);
    } else if was.Some? {
      BestMatchIs(view1, q, was.value);
    }
  }

  /** Taking the info of k away changes only answers that were k. */
  lemma {:induction false} AnswersAfterClear(view: map<Bits, int>, k: Bits, q: Bits)
    requires BestMatch(view, q) != Some(k)
    ensures BestMatch(view - {k}, q) == BestMatch(view, q)
  {
    hide BestMatch;
    var was := BestMatch(view, q);
    BestMatchIsLongest(view, q);
    BestMatchIsLongest(view - {k}, q);
    if was.Some? {
      BestMatchIs(view - {k}, q, was.value);
    }
  }

  /** route_common: the longest common prefix of n and p, however many bits n
      itself has. */
  method RouteCommon(n: Prefix, p: Prefix) returns (q: Prefix)
    requires WellFormed(n) && WellFormed(p) && !(Key(n) <= Key(p))
    ensures WellFormed(q) && q.family == p.family
    ensures Key(q) <= Key(p) && Below(Key(q), Key(n))
    ensures |Key(q)| < |Key(p)| ==> Key(p)[|Key(q)|] != Key(n)[|Key(q)|]
  {
    hide Key, UnitMask, BitAt, BitOfByte, MaskBit, BitsAgree;
    var i, newp := CommonWholeBytes(n.bytes, p.bytes, p.prefixlen);
    var len := i * 8;
    var s: nat := 0;
    if len != p.prefixlen {
      newp, s := CommonLastByte(n.bytes, p.bytes, newp, i, p.prefixlen - len);
      len := len + s;
    }
    q := Prefix(p.family, len, newp);
    CommonBytes(n, p, q, i, s);
    CommonBits(n, p, q);
  }

  /** The byte where the common prefix ends. */
  method CommonLastByte(np: seq<bv8>, pp: seq<bv8>, newp: seq<bv8>, i: nat, room: nat) returns (r: seq<bv8>, k: nat)
    requires i < |np| == |pp| == |newp| && (room < 8 || np[i] != pp[i])
    ensures k <= room && k < 8 && |r| == |newp|
    ensures forall j: nat | j < i :: r[j] == newp[j]
    ensures r[i] == np[i] & MaskBit(k)
    ensures MaskBit(k) & (np[i] ^ pp[i]) == 0
    ensures k < room ==> UnitMask(k) & (np[i] ^ pp[i]) != 0
  {
    hide MaskBit, UnitMask;
    XorZero(np[i], pp[i]);
    k := CommonBitsOfByte(np[i] ^ pp[i], room);
    r := newp[i := np[i] & MaskBit(k)];
  }

  /** The outer loop of route_common: copy whole bytes while they agree. */
  method CommonWholeBytes(np: seq<bv8>, pp: seq<bv8>, prefixlen: nat) returns (i: nat, newp: seq<bv8>)
    requires |np| == |pp| == STORAGE && prefixlen <= 128
    ensures i <= prefixlen / 8 && |newp| == STORAGE
    ensures forall k: nat | k < i :: np[k] == pp[k] == newp[k]
    ensures i < prefixlen / 8 ==> np[i] != pp[i]
  {
    newp := seq(STORAGE, _ => 0);
    i := 0;
    while i < prefixlen / 8 && np[i] == pp[i]
      invariant i <= prefixlen / 8 && |newp| == STORAGE
      invariant forall k: nat | k < i :: np[k] == pp[k] == newp[k]
    {
      newp := newp[i := np[i]];
      i := i + 1;
    }
  }

  /** The inner loop of route_common: how far the first differing byte agrees,
      but no further than p has room. */
  method CommonBitsOfByte(diff: bv8, room: nat) returns (k: nat)
    requires room < 8 || diff != 0
    ensures k <= room && k < 8
    ensures MaskBit(k) & diff == 0
    ensures k < room ==> UnitMask(k) & diff != 0
  {
    var mask: bv8 := 0x80;
    k := 0;
    FirstBit(diff);
    hide UnitMask, MaskBit;
    while k < room && mask & diff == 0
      invariant k <= room && k < 8 && mask == UnitMask(k)
      invariant MaskBit(k) & diff == 0
    {
      NextBit(diff, k);
      mask := mask >> 1;
      k := k + 1;
    }
  }

  lemma CommonBytes(n: Prefix, p: Prefix, q: Prefix, i: nat, s: nat)
    requires WellFormed(n) && WellFormed(p) && WellFormed(q)
    requires s < 8 && q.prefixlen == 8 * i + s <= p.prefixlen
    requires forall k: nat | k < i :: n.bytes[k] == p.bytes[k] == q.bytes[k]
    requires s > 0 ==> q.bytes[i] == n.bytes[i] & MaskBit(s) && MaskBit(s) & (n.bytes[i] ^ p.bytes[i]) == 0
    requires q.prefixlen < p.prefixlen ==> UnitMask(s) & (n.bytes[i] ^ p.bytes[i]) != 0
    ensures BitsAgree(n.bytes, p.bytes, q.prefixlen) && BitsAgree(q.bytes, n.bytes, q.prefixlen)
    ensures q.prefixlen < p.prefixlen ==> BitAt(n.bytes, q.prefixlen) != BitAt(p.bytes, q.prefixlen)
  {
    hide MaskBit, BitOfByte, UnitMask;
    forall k: nat | k < s
      ensures BitOfByte(q.bytes[i], k) == BitOfByte(n.bytes[i], k)
    {
      MaskedBit(n.bytes[i], s, k);
    }
    MaskAgrees(q.bytes[i], n.bytes[i], s);
    MaskAgrees(n.bytes[i], p.bytes[i], 0);
    BytesAgree(n.bytes, p.bytes, q.prefixlen);
    BytesAgree(q.bytes, n.bytes, q.prefixlen);
    XorBit(n.bytes[i], p.bytes[i], s);
  }

  /** The bits compared so far agree, so do the bits kept, and unless p ran out
      the next bit differs. */
  lemma CommonBits(n: Prefix, p: Prefix, q: Prefix)
    requires WellFormed(n) && WellFormed(p) && WellFormed(q) && q.prefixlen <= p.prefixlen
    requires !(Key(n) <= Key(p))
    requires BitsAgree(n.bytes, p.bytes, q.prefixlen) && BitsAgree(q.bytes, n.bytes, q.prefixlen)
    requires q.prefixlen < p.prefixlen ==> BitAt(n.bytes, q.prefixlen) != BitAt(p.bytes, q.prefixlen)
    ensures Key(q) <= Key(p) && Below(Key(q), Key(n))
    ensures |Key(q)| < |Key(p)| ==> Key(p)[|Key(q)|] != Key(n)[|Key(q)|]
  {
    if n.prefixlen <= q.prefixlen {
      KeysAgree(n, p);
    }
    KeysAgree(q, p);
    KeysAgree(q, n);
  }

  /** Pre-order on keys: a prefix before what extends it, 0 before 1. */
  predicate Lex(a: Bits, b: Bits) {
    if b == [] then false
    else if a == [] then true
    else if a[0] == b[0] then Lex(a[1..], b[1..])
    else b[0]
  }

  lemma {:induction false} LexTotal(a: Bits, b: Bits)
    ensures !(Lex(a, b) && Lex(b, a)) && !Lex(a, a)
    ensures a != b ==> Lex(a, b) || Lex(b, a)
    ensures Below(a, b) ==> Lex(a, b)
    decreases |a|
  {
    if a != [] {
      LexTotal(a[1..], a[1..]);
      if b != [] {
        LexTotal(a[1..], b[1..]);
        assert a == [a[0]] + a[1..] && b == [b[0]] + b[1..];
      }
    }
  }

  lemma {:induction false} LexTransitive(a: Bits, b: Bits, c: Bits)
    requires Lex(a, b) && Lex(b, c)
    ensures Lex(a, c)
  {
    if a != [] && a[0] == b[0] == c[0] {
      LexTransitive(a[1..], b[1..], c[1..]);
    }
  }

  /** Nothing that extends u compares differently from u with a key outside u. */
  lemma {:induction false} LexOutside(u: Bits, x: Bits, m: Bits)
    requires u <= x && !(u <= m)
    ensures Lex(x, m) == Lex(u, m)
    ensures Lex(m, x) == Lex(m, u)
    decreases |u|
  {
    if m != [] && u[0] == m[0] {
      assert u == [u[0]] + u[1..] && m == [m[0]] + m[1..] && x == [x[0]] + x[1..];
      LexOutside(u[1..], x[1..], m[1..]);
    }
  }

  /** What lies on the 0 side of u comes before what lies on its 1 side. */
  lemma {:induction false} LexSides(u: Bits, x: Bits, y: Bits)
    requires Below(u, x) && Below(u, y) && !x[|u|] && y[|u|]
    ensures Lex(x, y)
    decreases |u|
  {
    if u != [] {
      LexSides(u[1..], x[1..], y[1..]);
    }
  }

  /** next is the one of `nodes` that follows node in pre-order, null if none does. */
  ghost predicate Follows(nodes: set<RouteNode>, node: RouteNode, next: RouteNode?) {
    if next == null then forall m | m in nodes :: !Lex(node.key, m.key)
    else
      && next in nodes && Lex(node.key, next.key)
      && forall m | m in nodes && m != next && Lex(node.key, m.key) :: Lex(next.key, m.key)
  }

  /** A walk over `nodes` that has done `visited` and stands on `node`. */
  ghost predicate Walked(nodes: set<RouteNode>, visited: seq<RouteNode>, node: RouteNode?) {
    && (forall i, j | 0 <= i < j < |visited| :: Lex(visited[i].key, visited[j].key))
    && (forall i | 0 <= i < |visited| :: visited[i] in nodes && (node != null ==> Lex(visited[i].key, node.key)))
    && (forall m | m in nodes :: m in visited || (node != null && (m == node || Lex(node.key, m.key))))
  }

  lemma WalkStarts(nodes: set<RouteNode>, first: RouteNode?)
    requires first == null ==> nodes == {}
    requires first != null ==> first in nodes && forall m | m in nodes && m != first :: Lex(first.key, m.key)
    ensures Walked(nodes, [], first)
  {
  }

  lemma WalkEnds(nodes: set<RouteNode>, visited: seq<RouteNode>)
    requires Walked(nodes, visited, null)
    ensures forall n :: n in visited <==> n in nodes
    ensures forall i, j | 0 <= i < j < |visited| :: Lex(visited[i].key, visited[j].key)
  {
  }

  lemma WalkOn(nodes: set<RouteNode>, visited: seq<RouteNode>, node: RouteNode, next: RouteNode?)
    requires Walked(nodes, visited, node) && node in nodes && Follows(nodes, node, next)
    ensures Walked(nodes, visited + [node], next)
    ensures next != null ==> next !in visited + [node]
  {
    if next != null {
      LexTotal(next.key, next.key);
      forall i | 0 <= i < |visited|
        ensures Lex(visited[i].key, next.key)
      {
        LexTransitive(visited[i].key, node.key, next.key);
      }
    }
  }

  class RouteTable {
    var top: RouteNode?
    ghost var nodes: set<RouteNode>

    ghost predicate Keys()
      reads `nodes
    {
      && (forall n :: n in nodes ==> WellFormed(n.p) && n.key == Key(n.p))
      && (forall m, n :: m in nodes && n in nodes && m.key == n.key ==> m == n)
    }

    /** Links and parent pointers mirror each other, and a link leads to a
        longer prefix inside its owner's, on the side of the next bit. */
    ghost predicate Links()
      reads `top, `nodes, nodes`left, nodes`right, nodes`parent
    {
      && (top == null ==> nodes == {})
      && (top != null ==> top in nodes && top.parent == null)
      && (forall n {:trigger n.left} {:trigger n.right} :: n in nodes ==>
            LinkOk(n, n.left, false) && LinkOk(n, n.right, true))
      && (forall n {:trigger n.parent} :: n in nodes ==>
            if n.parent == null then n == top
            else n.parent in nodes && (n.parent.left == n || n.parent.right == n))
    }

    ghost predicate LinkOk(n: RouteNode, child: RouteNode?, bit: bool)
      reads `nodes, nodes`parent
    {
      child != null ==>
        child in nodes && child.parent == n && Below(n.key, child.key) && child.key[|n.key|] == bit
    }

    /** Every node lies on the way down from the top along its own bits. */
    ghost predicate Reach()
      reads `top, `nodes, nodes`left, nodes`right
    {
      && (forall n :: n in nodes && top != null ==> top.key <= n.key)
      && (forall m, n {:trigger Below(m.key, n.key)} :: m in nodes && n in nodes && Below(m.key, n.key) ==>
            var c := m.Link(n.key[|m.key|]); c != null && c.key <= n.key)
    }

    ghost predicate Canonical(exempt: set<RouteNode>)
      reads `nodes, nodes`left, nodes`right, nodes`lock, nodes`info
    {
      forall n :: n in nodes && n !in exempt && n.lock == 0 ==> n.HasTwoChildren() && n.info == None
    }

    ghost predicate Shape()
      reads `top, `nodes, nodes`left, nodes`right, nodes`parent
    {
      Keys() && Links() && Reach()
    }

    ghost predicate Valid()
      reads this, nodes
    {
      Shape() && Canonical({})
    }

    /** route_table_init */
    constructor ()
      ensures Valid() && nodes == {} && fresh(this)
    {
      top, nodes := null, {};
    }

    /** What the table means: the info stored under each prefix. */
    ghost function View(): map<Bits, int>
      reads `nodes, nodes`info
      requires Keys()
    {
      map n | n in nodes && n.info.Some? :: n.key := n.info.value
    }

    lemma TopIsAbove()
      requires Shape()
      ensures top == null ==> nodes == {}
      ensures top != null ==> top in nodes && forall m | m in nodes :: top.key <= m.key
    {
    }

    /** Taking one more lock leaves the table as it was. */
    method LockNode(node: RouteNode)
      requires Valid() && node in nodes
      modifies node`lock
      ensures Valid() && View() == old(View())
      ensures node.lock == old(node.lock) + 1
    {
      hide Keys, Links, Reach;
      node.lock := node.lock + 1;
    }

    /** One step of the three walks down from the top: on to the link chosen by
        p's next bit.  Every node that contains p and is not above `node` is
        below the node stepped to. */
    method StepTowards(node: RouteNode, p: Prefix) returns (next: RouteNode?)
      requires Shape() && WellFormed(p) && node in nodes && node.key <= Key(p)
      ensures next != null ==> next in nodes && |node.key| < |next.key|
      ensures forall m | m in nodes && m.key <= Key(p) && node.key <= m.key ::
                m == node || (next != null && next.key <= m.key)
      ensures |node.key| < |Key(p)| ==> next == node.Link(Key(p)[|node.key|])
    {
      next := if CheckBit(p, node.p.prefixlen) == 0 then node.left else node.right;
      hide Reach;
      assert next == node.Link(CheckBit(p, node.p.prefixlen) == 1);
      forall m | m in nodes && m.key <= Key(p) && node.key <= m.key && m != node
        ensures next != null && next.key <= m.key
      {
        Towards(node, m);
        assert m.key[|node.key|] == Key(p)[|node.key|];
      }
    }

    lemma Towards(m: RouteNode, n: RouteNode)
      requires Shape() && m in nodes && n in nodes && m.key <= n.key && m != n
      ensures Below(m.key, n.key)
      ensures var c := m.Link(n.key[|m.key|]);
              c != null && c in nodes && c.key <= n.key && c.parent == m && Below(m.key, c.key)
    {
      assert Below(m.key, n.key);
      var c := m.Link(n.key[|m.key|]);
      assert c == m.left || c == m.right;
    }

    /** The loop condition of the walks: node is there and contains p. */
    method Contains(node: RouteNode?, p: Prefix) returns (r: bool)
      requires Shape() && WellFormed(p) && (node != null ==> node in nodes)
      ensures r <==> node != null && node.key <= Key(p)
    {
      if node == null || node.p.prefixlen > p.prefixlen {
        return false;
      }
      r := PrefixMatch(node.p, p);
    }

    /** The walk of route_node_match: the longest node with info containing p. */
    method FindMatch(p: Prefix) returns (matched: RouteNode?)
      requires Shape() && WellFormed(p)
      ensures matched == null ==> forall m | m in nodes && m.info.Some? :: !(m.key <= Key(p))
      ensures matched != null ==> matched in nodes && matched.info.Some? && matched.key <= Key(p)
      ensures matched != null ==> forall m | m in nodes && m.info.Some? && m.key <= Key(p) :: |m.key| <= |matched.key|
    {
      hide *;
      matched := null;
      var node := top;
      TopIsAbove();
      var go := Contains(node, p);
      while go
        invariant node != null ==> node in nodes
        invariant go <==> node != null && node.key <= Key(p)
        invariant matched != null ==> matched in nodes && matched.info.Some? && matched.key <= Key(p)
        invariant matched != null && node != null ==> |matched.key| < |node.key|
        invariant forall m | m in nodes && m.info.Some? && m.key <= Key(p) ::
            (node != null && node.key <= m.key) || (matched != null && |m.key| <= |matched.key|)
        decreases if node == null then 0 else |Key(p)| + 129 - |node.key|
      {
        if node.info.Some? {
          matched := node;
        }
        node := StepTowards(node, p);
        go := Contains(node, p);
      }
    }

    lemma MatchAnswers(matched: RouteNode?, q: Bits)
      requires Keys()
      requires matched == null ==> forall m | m in nodes && m.info.Some? :: !(m.key <= q)
      requires matched != null ==> matched in nodes && matched.info.Some? && matched.key <= q
      requires matched != null ==> forall m | m in nodes && m.info.Some? && m.key <= q :: |m.key| <= |matched.key|
      ensures BestMatch(View(), q) == if matched == null then None else Some(matched.key)
    {
      BestMatchIsLongest(View(), q);
      if matched != null {
        assert matched.key in View();
      }
    }

    /** route_node_match */
    method NodeMatch(p: Prefix) returns (matched: RouteNode?)
      requires Valid() && WellFormed(p)
      modifies nodes`lock
      ensures Valid() && View() == old(View())
      ensures matched == null <==> BestMatch(View(), Key(p)) == None
      ensures matched != null ==> matched in nodes && BestMatch(View(), Key(p)) == Some(matched.key)
      ensures forall n | n in nodes :: n.lock == old(n.lock) + if n == matched then 1 else 0
    {
      hide Key, Keys, Links, Reach, Canonical;
      matched := FindMatch(p);
      MatchAnswers(matched, Key(p));
      if matched != null {
        LockNode(matched);
      }
    }

    /** route_node_lookup */
    method NodeLookup(p: Prefix) returns (found: RouteNode?)
      requires Valid() && WellFormed(p)
      modifies nodes`lock
      ensures Valid() && View() == old(View())
      ensures found == null <==> Key(p) !in View()
      ensures found != null ==> found in nodes && found.info.Some? && found.key == Key(p)
      ensures forall n | n in nodes :: n.lock == old(n.lock) + if n == found then 1 else 0
    {
      found := FindExact(p);
      if found != null {
        LockNode(found);
      }
    }

    method FindExact(p: Prefix) returns (found: RouteNode?)
      requires Shape() && WellFormed(p)
      ensures found == null <==> Key(p) !in View()
      ensures found != null ==> found in nodes && found.info.Some? && found.key == Key(p)
    {
      hide Key, Links, Reach;
      var node := top;
      TopIsAbove();
      var go := Contains(node, p);
      while go
        invariant node != null ==> node in nodes
        invariant go <==> node != null && node.key <= Key(p)
        invariant forall m | m in nodes && m.info.Some? && m.key == Key(p) :: node != null && node.key <= m.key
        decreases if node == null then 0 else |Key(p)| + 129 - |node.key|
      {
        if node.p.prefixlen == p.prefixlen && node.info.Some? {
          assert node.key == Key(p);
          return node;
        }
        node := StepTowards(node, p);
        go := Contains(node, p);
      }
      return null;
    }

    /** The leaf case of route_node_get: hang a new node on a free link. */
    method InsertLeaf(up: RouteNode?, p: Prefix) returns (leaf: RouteNode)
      requires Shape() && WellFormed(p)
      requires FreeLink(up, Key(p))
      modifies this, nodes`left, nodes`right
      ensures Shape() && fresh(leaf) && nodes == old(nodes) + {leaf}
      ensures leaf.key == Key(p) && leaf.p.family == p.family && leaf.lock == 0 && leaf.info == None
      ensures forall n | n in old(nodes) :: old(n.HasTwoChildren()) ==> n.HasTwoChildren()
      ensures up != null && old(up.left != null || up.right != null) ==> up.HasTwoChildren()
    {
      hide Keys, Links, Reach, Shape, FreeLink, Key;
      ghost var q := Key(p);
      LeafReady(up, q);
      leaf := new RouteNode(PrefixCopy(p));
      assert up != null ==> up.key <= leaf.key;
      if up != null {
        up.SetLink(leaf);
      } else {
        top := leaf;
      }
      nodes := nodes + {leaf};
      LeafShape(up, leaf, q);
    }

    lemma LeafReady(up: RouteNode?, q: Bits)
      requires Shape() && FreeLink(up, q)
      ensures up != null ==>
        up in nodes && WellFormed(up.p) && up.key == Key(up.p) && |up.key| == up.p.prefixlen && |up.key| < |q| &&
            Below(up.key, q)
        && (if q[|up.key|] then up.right == null else up.left == null)
    {
    }

    /** What InsertLeaf writes, and nothing else. */
    twostate predicate LeafLinked(new up: RouteNode?, new leaf: RouteNode)
      reads this, nodes
    {
      && leaf !in old(nodes) && nodes == old(nodes) + {leaf}
      && leaf.left == null && leaf.right == null && leaf.parent == up
      && top == (if up == null then leaf else old(top))
      && (forall n | n in old(nodes) && n != up :: n.left == old(n.left) && n.right == old(n.right))
      && (forall n | n in old(nodes) :: n.parent == old(n.parent))
      && (up != null ==> up in old(nodes) && Below(up.key, leaf.key))
      && (up != null ==> up.left == if leaf.key[|up.key|] then old(up.left) else leaf)
      && (up != null ==> up.right == if leaf.key[|up.key|] then leaf else old(up.right))
    }

    twostate lemma LeafShape(new up: RouteNode?, new leaf: RouteNode, new q: Bits)
      requires WellFormed(leaf.p) && leaf.key == Key(leaf.p)
      requires leaf.key == q && old(Shape())
      requires LeafLinked(up, leaf)
      requires old(FreeLink(up, q))
      ensures Shape()
    {
      LeafReach(up, leaf, q);
      LeafLinks(up, leaf, q);
      LeafKeys(up, leaf, q);
    }

    twostate lemma LeafKeys(new up: RouteNode?, new leaf: RouteNode, new q: Bits)
      requires leaf.key == q && old(Shape())
      requires LeafLinked(up, leaf)
      requires old(FreeLink(up, q))
      requires WellFormed(leaf.p) && leaf.key == Key(leaf.p)
      ensures Keys()
    {
      KeyIsNew(up, q);
    }

    twostate lemma LeafLinks(new up: RouteNode?, new leaf: RouteNode, new q: Bits)
      requires leaf.key == q && old(Shape())
      requires LeafLinked(up, leaf)
      requires old(FreeLink(up, q))
      ensures Links()
    {
      hide Reach, Keys;
    }

    /** Where the walk for q ends without a node: q has no node and nothing is
        on its side of `up`. */
    ghost predicate FreeLink(up: RouteNode?, q: Bits)
      reads `top, `nodes, up, nodes
    {
      if up == null then top == null
      else up in nodes && Below(up.key, q) && up.Link(q[|up.key|]) == null
    }

    /** Nodes comparable with q are at or above `up`. */
    twostate lemma KeyIsNew(new up: RouteNode?, new q: Bits)
      requires up != null ==> up in old(nodes)
      requires old(Shape())
      requires old(FreeLink(up, q))
      ensures forall n | n in old(nodes) :: !(q <= n.key)
      ensures forall n | n in old(nodes) && n.key <= q :: up != null && n.key <= up.key
      ensures up == null ==> old(nodes) == {}
      ensures old(top) != null ==> old(top) in old(nodes)
    {
      forall n | n in old(nodes)
        ensures !(q <= n.key)
        ensures n.key <= q ==> up != null && n.key <= up.key
      {
        if up.key <= n.key && n != up {
          OldTowards(up, n);
        }
      }
    }

    twostate lemma OldTowards(new m: RouteNode, new n: RouteNode)
      requires m in old(nodes) && n in old(nodes) && m != n && m.key <= n.key
      requires old(Shape())
      ensures Below(m.key, n.key)
      ensures var c := old(m.Link(n.key[|m.key|]));
              c != null && c in old(nodes) && c.key <= n.key && old(c.parent) == m && Below(m.key, c.key)
    {
      assert Below(m.key, n.key);
      var c := old(m.Link(n.key[|m.key|]));
      assert c == old(m.left) || c == old(m.right);
    }

    twostate lemma LeafReach(new up: RouteNode?, new leaf: RouteNode, new q: Bits)
      requires leaf.key == q && old(Shape())
      requires LeafLinked(up, leaf)
      requires old(FreeLink(up, q))
      ensures Reach()
    {
      hide Keys, Links;
      KeyIsNew(up, q);
      forall m, n | m in nodes && n in nodes && Below(m.key, n.key)
        ensures var c := m.Link(n.key[|m.key|]); c != null && c.key <= n.key
      {
        assert m != leaf;
        if n != leaf {
          OldTowards(m, n);
        } else if m != up {
          OldTowards(m, up);
        }
      }
    }
  
    /** The split case of route_node_get: a new node for the common prefix goes
        in above `node`, in place of `node` under `up`. */
    method InsertBranch(up: RouteNode?, node: RouteNode, p: Prefix) returns (branch: RouteNode)
      requires Shape() && WellFormed(p)
      requires Departs(up, node, Key(p))
      modifies this, nodes`left, nodes`right, nodes`parent
      ensures Shape() && fresh(branch) && nodes == old(nodes) + {branch}
      ensures branch.key <= Key(p) && branch.p.family == p.family && branch.lock == 0 && branch.info == None
      ensures FreeLink(branch, Key(p)) || branch.key == Key(p)
      ensures branch.left != null || branch.right != null
      ensures forall n | n in old(nodes) :: n.HasTwoChildren() <==> old(n.HasTwoChildren())
    {
      hide Keys, Links, Reach, Shape, Key;
      ghost var q := Key(p);
      BranchReady(up, node, q);
      var common := RouteCommon(node.p, p);
      branch := new RouteNode(common);
      branch.SetLink(node);
      if up != null {
        assert up.key <= branch.key by { BranchKey(up.key, branch.key, node.key, q); }
        up.SetLink(branch);
      } else {
        top := branch;
      }
      nodes := nodes + {branch};
      BranchShape(up, node, branch, q);
    }

    /** Where the walk for q ends at a node that does not contain q. */
    ghost predicate Departs(up: RouteNode?, node: RouteNode, q: Bits)
      reads `top, `nodes, up, nodes
    {
      && node in nodes && !(node.key <= q)
      && if up == null then node == top
         else up in nodes && Below(up.key, q) && up.Link(q[|up.key|]) == node
    }

    lemma BranchReady(up: RouteNode?, node: RouteNode, q: Bits)
      requires Shape() && Departs(up, node, q)
      ensures WellFormed(node.p) && node.key == Key(node.p) && node.parent == up
      ensures up != null ==> WellFormed(up.p) && up.key == Key(up.p) && Below(up.key, node.key)
      ensures up != null ==> up in nodes && up != node && Below(up.key, q) && node.key[|up.key|] == q[|up.key|]
    {
      if up != null {
        assert node == up.left || node == up.right;
      }
    }

    lemma BranchKey(a: Bits, c: Bits, n: Bits, q: Bits)
      requires Below(a, n) && Below(a, q) && n[|a|] == q[|a|]
      requires c <= q && Below(c, n) && (|c| < |q| ==> q[|c|] != n[|c|])
      ensures Below(a, c) && c[|a|] == q[|a|]
    {
    }
  
    /** What InsertBranch writes, and nothing else. */
    twostate predicate BranchLinked(new up: RouteNode?, new node: RouteNode, new branch: RouteNode)
      reads this, nodes
    {
      && branch !in old(nodes) && nodes == old(nodes) + {branch} && node in old(nodes)
      && Below(branch.key, node.key)
      && branch.parent == up && node.parent == branch
      && branch.left == (if node.key[|branch.key|] then null else node)
      && branch.right == (if node.key[|branch.key|] then node else null)
      && (forall n | n in old(nodes) && n != node :: n.parent == old(n.parent))
      && top == (if up == null then branch else old(top))
      && (forall n | n in old(nodes) && n != up :: n.left == old(n.left) && n.right == old(n.right))
      && (up != null ==> up in old(nodes) && Below(up.key, branch.key))
      && (up != null ==> up.left == if branch.key[|up.key|] then old(up.left) else branch)
      && (up != null ==> up.right == if branch.key[|up.key|] then branch else old(up.right))
    }

    twostate lemma BranchShape(new up: RouteNode?, new node: RouteNode, new branch: RouteNode, new q: Bits)
      requires WellFormed(branch.p) && branch.key == Key(branch.p)
      requires BranchLinked(up, node, branch)
      requires old(Shape())
      requires branch.key <= q
      requires old(Departs(up, node, q))
      ensures Shape()
    {
      BranchReach(up, node, branch, q);
      BranchLinks(up, node, branch, q);
      BranchKeys(up, node, branch, q);
    }

    /** Every old node that meets branch's key from above is at or above `up`,
        and every one inside it is inside `node`. */
    twostate lemma AroundBranch(new up: RouteNode?, new node: RouteNode, new c: Bits, new q: Bits)
      requires node in old(nodes) && (up != null ==> up in old(nodes))
      requires old(Shape())
      requires c <= q && Below(c, node.key) && (up != null ==> Below(up.key, c))
      requires old(Departs(up, node, q))
      ensures forall n | n in old(nodes) && n.key <= c :: up != null && n.key <= up.key
      ensures forall n | n in old(nodes) && c <= n.key :: node.key <= n.key
    {
      forall n | n in old(nodes)
        ensures n.key <= c ==> up != null && n.key <= up.key
        ensures c <= n.key ==> node.key <= n.key
      {
        if up != null && n != up && up.key <= n.key {
          OldTowards(up, n);
        }
      }
    }

    twostate lemma BranchKeys(new up: RouteNode?, new node: RouteNode, new branch: RouteNode, new q: Bits)
      requires WellFormed(branch.p) && branch.key == Key(branch.p)
      requires BranchLinked(up, node, branch)
      requires old(Shape())
      requires branch.key <= q
      requires old(Departs(up, node, q))
      ensures Keys()
    {
      AroundBranch(up, node, branch.key, q);
    }

    twostate lemma BranchLinks(new up: RouteNode?, new node: RouteNode, new branch: RouteNode, new q: Bits)
      requires BranchLinked(up, node, branch)
      requires old(Shape())
      requires branch.key <= q
      requires old(Departs(up, node, q))
      ensures Links()
    {
      hide Reach, Keys;
    }

    twostate lemma BranchReach(new up: RouteNode?, new node: RouteNode, new branch: RouteNode, new q: Bits)
      requires BranchLinked(up, node, branch)
      requires old(Shape())
      requires branch.key <= q
      requires old(Departs(up, node, q))
      ensures Reach()
    {
      hide Keys;
      AroundBranch(up, node, branch.key, q);
      forall m, n | m in nodes && n in nodes && Below(m.key, n.key)
        ensures var c := m.Link(n.key[|m.key|]); c != null && c.key <= n.key
      {
        if m in old(nodes) && n in old(nodes) {
          OldTowards(m, n);
        } else if m != branch && m != up {
          OldTowards(m, up);
        }
      }
    }
  
    /** The walk of route_node_get: the node for p, or where it has to go. */
    method FindPlace(p: Prefix) returns (found: bool, up: RouteNode?, at: RouteNode?)
      requires Shape() && WellFormed(p)
      ensures found ==> at != null && at in nodes && at.key == Key(p)
      ensures !found ==> forall m | m in nodes :: m.key != Key(p)
      ensures !found ==> if at == null then FreeLink(up, Key(p)) else Departs(up, at, Key(p))
    {
      hide Keys, Links, Reach, Key;
      found, up, at := false, null, top;
      TopIsAbove();
      var go := Contains(at, p);
      while go
        invariant at != null ==> at in nodes
        invariant go <==> at != null && at.key <= Key(p)
        invariant up == null ==> at == top
        invariant up != null ==> up in nodes && Below(up.key, Key(p)) && up.Link(Key(p)[|up.key|]) == at
        invariant forall m | m in nodes && m.key == Key(p) :: at != null && at.key <= m.key
        decreases if at == null then 0 else |Key(p)| + 129 - |at.key|
      {
        NodeKey(at);
        if at.p.prefixlen == p.prefixlen {
          assert at.key == Key(p);
          return true, up, at;
        }
        up := at;
        at := StepTowards(at, p);
        go := Contains(at, p);
      }
    }

    /** route_node_get: find or make the node for p and take a lock on it.  No
        info and no other node's lock changes, and a node for p that is already
        there is returned as it is. */
    method NodeGet(p: Prefix) returns (node: RouteNode)
      requires Valid() && WellFormed(p)
      modifies this, nodes`left, nodes`right, nodes`parent, nodes`lock
      ensures Valid() && View() == old(View())
      ensures node in nodes && node.key == Key(p)
      ensures old(nodes) <= nodes && fresh(nodes - old(nodes)) && |nodes - old(nodes)| <= 2
      ensures forall n | n in nodes && n != node ::
                n.lock == (if n in old(nodes) then old(n.lock) else 0)
      ensures node.lock == (if node in old(nodes) then old(node.lock) else 0) + 1
      ensures forall n | n in nodes && n !in old(nodes) :: n.p.family == p.family
      ensures (exists n :: n in old(nodes) && n.key == Key(p)) ==> nodes == old(nodes)
    {
      hide Keys, Links, Reach, Key, FreeLink, Departs, Shape, Canonical;
      var found, up, at := FindPlace(p);
      if found {
        node := at;
      } else if at == null {
        node := InsertLeaf(up, p);
      } else {
        node := InsertPair(up, at, p);
      }
      node.lock := node.lock + 1;
      GetKeeps(node);
    }

    /** The split case as a whole: the branching node and, unless that is
        already p's own, p's node below it. */
    method InsertPair(up: RouteNode?, at: RouteNode, p: Prefix) returns (node: RouteNode)
      requires Shape() && WellFormed(p)
      requires Departs(up, at, Key(p))
      modifies this, nodes`left, nodes`right, nodes`parent
      ensures Shape() && old(nodes) <= nodes && fresh(nodes - old(nodes)) && |nodes - old(nodes)| <= 2
      ensures node in nodes && node !in old(nodes) && node.key == Key(p)
      ensures forall n | n in nodes && n !in old(nodes) ::
                n.lock == 0 && n.info == None && (n == node || n.HasTwoChildren())
      ensures forall n | n in nodes && n !in old(nodes) :: n.p.family == p.family
      ensures forall n | n in old(nodes) :: old(n.HasTwoChildren()) ==> n.HasTwoChildren()
    {
      hide Keys, Links, Reach, Key, FreeLink, Departs, Shape;
      var branch := InsertBranch(up, at, p);
      NodeKey(branch);
      if branch.p.prefixlen != p.prefixlen {
        node := InsertLeaf(branch, p);
        assert nodes - old(nodes) == {branch, node};
      } else {
        node := branch;
        assert nodes - old(nodes) == {branch};
      }
    }

    /** New nodes carry no info and are either locked or branching. */
    twostate lemma GetKeeps(new node: RouteNode)
      requires old(Valid()) && Shape() && old(nodes) <= nodes && node in nodes && node.lock > 0
      requires forall n | n in old(nodes) :: old(n.HasTwoChildren()) ==> n.HasTwoChildren()
      requires forall n | n in old(nodes) :: n.info == old(n.info) && n.lock >= old(n.lock)
      requires forall n | n in nodes && n !in old(nodes) :: n.info == None && (n == node || n.HasTwoChildren())
      ensures Valid() && View() == old(View())
    {
      hide Links, Reach;
    }

    lemma NodeKey(n: RouteNode)
      requires Shape() && n in nodes
      ensures WellFormed(n.p) && n.key == Key(n.p) && |n.key| == n.p.prefixlen
    {
    }
  
    /** The relinking of route_node_delete: a node with at most one child is
        taken out and the child, if any, takes its place. */
    method Unlink(node: RouteNode)
      requires Shape() && node in nodes && !node.HasTwoChildren()
      modifies this, nodes`left, nodes`right, nodes`parent
      ensures Shape() && nodes == old(nodes) - {node}
      ensures Unlinked(node)
    {
      hide Keys, Reach, Shape;
      UnlinkReady(node);
      var child := if node.left != null then node.left else node.right;
      var parent := node.parent;
      if child != null {
        child.parent := parent;
      }
      if parent != null {
        if parent.left == node {
          parent.left := child;
        } else {
          parent.right := child;
        }
      } else {
        top := child;
      }
      nodes := nodes - {node};
      UnlinkShape(node);
    }

    lemma UnlinkReady(node: RouteNode)
      requires Shape() && node in nodes
      ensures Links() && (node.parent != null ==> node.parent in nodes && |node.parent.key| < |node.key|)
    {
      if node.parent != null {
        assert node == node.parent.left || node == node.parent.right;
      }
    }

    /** What Unlink writes, and nothing else. */
    twostate predicate Unlinked(new node: RouteNode)
      requires node in old(nodes)
      reads this, nodes
    {
      var child := old(if node.left != null then node.left else node.right);
      var parent := old(node.parent);
      && nodes == old(nodes) - {node}
      && (child != null ==> child in nodes && child.parent == parent)
      && (forall n | n in nodes && n != child :: n.parent == old(n.parent))
      && (forall n | n in nodes && n != parent :: n.left == old(n.left) && n.right == old(n.right))
      && (parent == null ==> top == child)
      && (parent != null ==> parent in nodes && top == old(top))
      && (parent != null ==> parent.left == if old(parent.left) == node then child else old(parent.left))
      && (parent != null ==> parent.right == if old(parent.left) == node then old(parent.right) else child)
    }

    twostate lemma UnlinkShape(new node: RouteNode)
      requires node in old(nodes) && old(Shape()) && !old(node.HasTwoChildren())
      requires Unlinked(node)
      ensures Shape()
    {
      UnlinkLinks(node);
      UnlinkReach(node);
    }

    twostate lemma UnlinkLinks(new node: RouteNode)
      requires node in old(nodes) && old(Shape()) && !old(node.HasTwoChildren())
      requires Unlinked(node)
      ensures Links()
    {
      hide Keys;
      var child := old(if node.left != null then node.left else node.right);
      var parent := old(node.parent);
      if parent != null {
        assert old(parent.left) == node || old(parent.right) == node;
        assert old(parent.left) != old(parent.right);
        if child != null {
          assert child == old(node.left) || child == old(node.right);
          assert Below(parent.key, child.key) && child.key[|parent.key|] == node.key[|parent.key|];
        }
      }
      forall n | n in nodes
        ensures top != null
      {
        if parent == null {
          OldTowards(node, n);
        }
      }
      forall n | n in nodes
        ensures LinkOk(n, n.left, false) && LinkOk(n, n.right, true)
      {
      }
      forall n | n in nodes
        ensures if n.parent == null then n == top
                else n.parent in nodes && (n.parent.left == n || n.parent.right == n)
      {
      }
    }

    twostate lemma UnlinkReach(new node: RouteNode)
      requires node in old(nodes) && old(Shape()) && !old(node.HasTwoChildren())
      requires Unlinked(node)
      ensures Reach()
    {
      hide Keys;
      forall m, n | m in nodes && n in nodes && Below(m.key, n.key)
        ensures var c := m.Link(n.key[|m.key|]); c != null && c.key <= n.key
      {
        OldTowards(m, n);
        if old(m.Link(n.key[|m.key|])) == node {
          OldTowards(node, n);
        }
      }
      forall n | n in nodes
        ensures top != null && top.key <= n.key
      {
        if old(node.parent) == null {
          OldTowards(node, n);
        }
      }
    }

    /** route_node_delete: drop an unheld node unless it still branches, and
        then its parent if that was kept only to branch here. */
    method NodeDelete(node: RouteNode)
      requires Shape() && Canonical({node})
      requires node in nodes && node.lock == 0 && node.info == None
      modifies this, nodes`left, nodes`right, nodes`parent
      ensures Valid() && View() == old(View())
      ensures old(node.HasTwoChildren()) ==>
                nodes == old(nodes) && top == old(top) && forall n | n in nodes :: unchanged(n)
      ensures old(!node.HasTwoChildren() && (node.left != null || node.right != null)) ==>
                nodes == old(nodes) - {node}
      ensures old(node.left == null && node.right == null) ==>
                nodes == old(nodes) - {node} - old(if node.parent != null &&
                    node.parent.lock == 0 then {node.parent} else {})
      decreases |node.key|
    {
      hide Keys, Links, Reach, Shape;
      if node.left != null && node.right != null {
        return;
      }
      var parent := node.parent;
      UnlinkReady(node);
      Unlink(node);

      if parent != null && parent.lock == 0 {
        NodeDelete(parent);
      }
    }
  
    /** route_unlock_node: give one lock back; the last one deletes the node. */
    method UnlockNode(node: RouteNode)
      requires Valid() && node in nodes && node.lock > 0
      requires node.lock == 1 ==> node.info == None
      modifies this, nodes`left, nodes`right, nodes`parent, node`lock
      ensures Valid() && View() == old(View())
      ensures nodes <= old(nodes)
      ensures forall n | n in old(nodes) && n !in nodes :: n.lock == 0
      ensures node.lock == old(node.lock) - 1
      ensures old(node.lock > 1 || node.HasTwoChildren()) ==> SameTree()
    {
      hide Keys, Links, Reach;
      node.lock := node.lock - 1;
      if node.lock == 0 {
        NodeDelete(node);
      }
    }

    /** The caller's assignment to `info`, made while it holds the node. */
    method SetInfo(node: RouteNode, info: Option<int>)
      requires Valid() && node in nodes && node.lock > 0
      modifies node`info
      ensures Valid()
      ensures View() == match info case Some(v) => old(View())[node.key := v] case None => old(View()) - {node.key}
    {
      hide Links, Reach;
      node.info := info;
    }

    /** route_top */
    method Top() returns (first: RouteNode?)
      requires Valid()
      modifies nodes`lock
      ensures Valid() && View() == old(View())
      ensures first == null <==> nodes == {}
      ensures first != null ==> first in nodes && forall m | m in nodes && m != first :: Lex(first.key, m.key)
      ensures forall n | n in nodes :: n.lock == old(n.lock) + if n == first then 1 else 0
    {
      hide Keys, Links, Reach;
      TopIsAbove();
      first := top;
      if first != null {
        LockNode(first);
        forall m | m in nodes && m != first
          ensures Lex(first.key, m.key)
        {
          DistinctKeys(first, m);
          LexTotal(first.key, m.key);
        }
      }
    }

    lemma DistinctKeys(m: RouteNode, n: RouteNode)
      requires Shape() && m in nodes && n in nodes && m != n
      ensures m.key != n.key
    {
    }

    lemma ParentOf(node: RouteNode)
      requires Shape() && node in nodes && node.parent != null
      ensures
        var p := node.parent;
        p in nodes && Below(p.key, node.key) && p.left != p.right && node == p.Link(node.key[|p.key|])
    {
      var p := node.parent;
      assert node == p.left || node == p.right;
      assert p.left != p.right;
    }

    lemma FirstChildFollows(start: RouteNode, c: RouteNode)
      requires Shape() && start in nodes
      requires c == if start.left != null then start.left else start.right
      ensures Follows(nodes, start, c)
    {
      assert c in nodes && Below(start.key, c.key) && c == start.Link(c.key[|start.key|]);
      hide Keys, Links, Reach, Shape;
      LexTotal(start.key, c.key);
      forall m | m in nodes && m != c && Lex(start.key, m.key)
        ensures Lex(c.key, m.key)
      {
        LexTotal(start.key, m.key);
        if start.key <= m.key {
          Towards(start, m);
          if start.Link(m.key[|start.key|]) == c {
            DistinctKeys(c, m);
            LexTotal(c.key, m.key);
          } else {
            LexSides(start.key, c.key, m.key);
          }
        } else {
          LexOutside(start.key, c.key, m.key);
        }
      }
    }

    lemma NothingBelow(start: RouteNode)
      requires Shape() && start in nodes && start.left == null && start.right == null
      ensures forall m | m in nodes && start.key <= m.key :: !Lex(start.key, m.key)
    {
      hide Keys, Links, Reach, Shape;
      forall m | m in nodes && start.key <= m.key
        ensures !Lex(start.key, m.key)
      {
        LexTotal(start.key, m.key);
        if m != start {
          Towards(start, m);
        }
      }
    }

    lemma SiblingFollows(start: RouteNode, node: RouteNode)
      requires Shape() && start in nodes && node in nodes && node.key <= start.key
      requires forall m | m in nodes && node.key <= m.key :: !Lex(start.key, m.key)
      requires node.parent != null && node.parent.left == node && node.parent.right != null
      ensures Follows(nodes, start, node.parent.right)
    {
      var p := node.parent;
      var sib := p.right;
      assert sib in nodes && Below(p.key, sib.key) && sib.key[|p.key|];
      ParentOf(node);
      hide Keys, Links, Reach, Shape;
      LexSides(p.key, start.key, sib.key);
      forall m | m in nodes && m != sib && Lex(start.key, m.key)
        ensures Lex(sib.key, m.key)
      {
        if p.key <= m.key {
          LexTotal(p.key, start.key);
          LexTotal(m.key, start.key);
          Towards(p, m);
          DistinctKeys(sib, m);
          LexTotal(sib.key, m.key);
        } else {
          LexOutside(p.key, start.key, m.key);
          LexOutside(p.key, sib.key, m.key);
        }
      }
    }

    lemma NothingAfter(start: RouteNode, node: RouteNode)
      requires Shape() && start in nodes && node in nodes && node.key <= start.key
      requires forall m | m in nodes && node.key <= m.key :: !Lex(start.key, m.key)
      requires node.parent != null && !(node.parent.left == node && node.parent.right != null)
      ensures forall m | m in nodes && node.parent.key <= m.key :: !Lex(start.key, m.key)
    {
      var p := node.parent;
      ParentOf(node);
      hide Keys, Links, Reach, Shape;
      forall m | m in nodes && p.key <= m.key
        ensures !Lex(start.key, m.key)
      {
        LexTotal(start.key, m.key);
        LexTotal(p.key, start.key);
        if m != p {
          Towards(p, m);
          if p.Link(m.key[|p.key|]) != node {
            LexSides(p.key, m.key, start.key);
          }
        }
      }
    }

    /** The search of route_next: down to a child if there is one, otherwise up
        until a right sibling is found. */
    method FindNext(start: RouteNode) returns (next: RouteNode?)
      requires Shape() && start in nodes
      ensures Follows(nodes, start, next)
    {
      hide Keys, Links, Reach, Shape;
      if start.left != null {
        FirstChildFollows(start, start.left);
        return start.left;
      }
      if start.right != null {
        FirstChildFollows(start, start.right);
        return start.right;
      }
      var node := start;
      NothingBelow(start);
      while node.parent != null
        invariant node in nodes && node.key <= start.key
        invariant forall m | m in nodes && node.key <= m.key :: !Lex(start.key, m.key)
        decreases |node.key|
      {
        ParentOf(node);
        if node.parent.left == node && node.parent.right != null {
          SiblingFollows(start, node);
          return node.parent.right;
        }
        NothingAfter(start, node);
        node := node.parent;
      }
      OrphanIsTop(node);
      return null;
    }

    lemma OrphanIsTop(node: RouteNode)
      requires Shape() && node in nodes && node.parent == null
      ensures node == top && forall m | m in nodes :: node.key <= m.key
    {
    }
  
    /** route_next: move the walker's lock from node to the node after it. */
    method Next(node: RouteNode) returns (next: RouteNode?)
      requires Valid() && node in nodes && node.lock > 0
      requires node.lock == 1 ==> node.info == None
      modifies this, nodes`left, nodes`right, nodes`parent, nodes`lock
      ensures Valid() && View() == old(View())
      ensures Follows(old(nodes), node, next)
      ensures next != null ==> next in nodes
      ensures nodes <= old(nodes)
      ensures forall n | n in old(nodes) ::
                n.lock == old(n.lock) + (if n == next then 1 else 0) - (if n == node then 1 else 0)
      ensures old(node.lock > 1 || node.HasTwoChildren()) ==> SameTree()
    {
      hide Keys, Links, Reach, Shape, Canonical;
      next := FindNext(node);
      LexTotal(node.key, node.key);
      if next != null {
        LockNode(next);
      }
      UnlockNode(node);
    }
  
    twostate predicate SameTree()
      reads this, nodes
    {
      && nodes == old(nodes) && top == old(top)
      && forall n | n in nodes :: n.left == old(n.left) && n.right == old(n.right) && n.parent == old(n.parent)
    }

    /** The walk `for (node = route_top (t); node; node = route_next (node))`:
        every node once, in pre-order, with one extra lock on the node the walk
        stands on and everything as before at the end. */
    method Walk() returns (visited: seq<RouteNode>)
      requires Valid()
      modifies this, nodes`left, nodes`right, nodes`parent, nodes`lock
      ensures Valid() && View() == old(View()) && SameTree()
      ensures forall n | n in nodes :: n.lock == old(n.lock)
      ensures forall n :: n in visited <==> n in nodes
      ensures forall i, j | 0 <= i < j < |visited| :: Lex(visited[i].key, visited[j].key)
    {
      hide Keys, Links, Reach, Lex, Walked;
      visited := [];
      var node := Top();
      ghost var left := nodes;
      WalkStarts(nodes, node);
      while node != null
        invariant Valid() && View() == old(View()) && SameTree()
        invariant Walked(nodes, visited, node)
        invariant node != null ==> node in nodes
        invariant forall n | n in nodes :: n.lock == old(n.lock) + if n == node then 1 else 0
        invariant forall n | n in nodes :: n in left || n in visited
        invariant node != null ==> node !in visited
        decreases left
      {
        var here := node;
        assert here.lock == 1 ==> old(here.lock) == 0;
        node := Next(node);
        WalkOn(nodes, visited, here, node);
        visited, left := visited + [here], left - {here};
      }
      WalkEnds(nodes, visited);
    }

    /** The order of the walk is pre-order: a node, then all that is below its
        left link, then all that is below its right link. */
    lemma LexIsPreOrder(n: RouteNode, l: RouteNode, r: RouteNode)
      requires Shape() && n in nodes && l in nodes && r in nodes
      requires n.left != null && n.left.key <= l.key && n.right != null && n.right.key <= r.key
      ensures Lex(n.key, l.key) && Lex(l.key, r.key) && Lex(n.key, r.key)
    {
      LexTotal(n.key, l.key);
      LexTotal(n.key, r.key);
      LexSides(n.key, l.key, r.key);
    }

    /** With k nodes held there are at most 2k - 1 nodes in all. */
    lemma AtMostTwiceHeld()
      requires Valid() && nodes != {}
      ensures |nodes| <= 2 * |set n | n in nodes && n.lock > 0| - 1
    {
      var held := set n | n in nodes && n.lock > 0;
      var stubs := nodes - held;
      hide Keys, Reach;
      StubsHaveTwo(stubs);
      hide Shape, Links, Valid, ChildrenOf;
      Children(stubs);
      CountParts(nodes, held, top, ChildrenOf(stubs));
    }

    static lemma CountParts(nodes: set<RouteNode>, held: set<RouteNode>, top: RouteNode, below: set<RouteNode>)
      requires held <= nodes && top in nodes && below <= nodes - {top} && |below| == 2 * |nodes - held|
      ensures |nodes| <= 2 * |held| - 1
    {
      CardinalityLe(below, nodes - {top});
      assert nodes == held + (nodes - held);
    }

    lemma StubsHaveTwo(stubs: set<RouteNode>)
      requires Valid() && nodes != {} && stubs <= nodes && forall n | n in stubs :: n.lock == 0
      ensures Shape() && top != null && top in nodes && ChildrenOf(stubs) <= nodes - {top}
      ensures forall n | n in stubs :: n.HasTwoChildren()
    {
      hide Keys, Reach;
    }

    ghost function ChildrenOf(s: set<RouteNode>): set<RouteNode>
      reads `nodes, nodes`parent
    {
      set c | c in nodes && c.parent != null && c.parent in s
    }

    lemma OwnChildren(n: RouteNode)
      requires Shape() && n in nodes && n.HasTwoChildren()
      ensures n.left != n.right && n.left in nodes && n.right in nodes
      ensures forall c | c in nodes :: c.parent == n <==> c == n.left || c == n.right
    {
      hide Keys, Reach;
    }

    lemma {:induction false} Children(s: set<RouteNode>)
      requires Shape() && s <= nodes && forall n | n in s :: n.HasTwoChildren()
      ensures |ChildrenOf(s)| == 2 * |s|
    {
      hide Keys, Links, Reach, Shape;
      if s == {} {
        assert ChildrenOf(s) == {};
      } else {
        var n :| n in s;
        var rest := s - {n};
        Children(rest);
        OwnChildren(n);
        assert ChildrenOf(s) == ChildrenOf(rest) + {n.left, n.right};
        assert ChildrenOf(rest) * {n.left, n.right} == {};
      }
    }
  }

  lemma {:induction false} CardinalityLe<T>(a: set<T>, b: set<T>)
    requires a <= b
    ensures |a| <= |b|
  {
    assert b == a + (b - a);
  }
}
