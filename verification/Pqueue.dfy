/** The priority queue of pqueue.c: a heap in an array that doubles. */
module Pqueue {

  const PQUEUE_INIT_ARRAYSIZE: nat := 32

  function Parent(i: nat): (p: nat)
    requires i > 0
    ensures p < i && (i == 2 * p + 1 || i == 2 * p + 2)
  {
    (i - 1) / 2
  }

  /** A total preorder, as cmp has to give one. */
  ghost predicate Preorder<T(!new)>(cmp: (T, T) -> int) {
    && (forall a, b :: cmp(a, b) < 0 <==> cmp(b, a) > 0)
    && (forall a, b, c :: cmp(a, b) <= 0 && cmp(b, c) <= 0 ==> cmp(a, c) <= 0)
  }

  /** Node i is not above its parent. */
  predicate InOrder<T>(cmp: (T, T) -> int, s: seq<T>, i: nat)
    requires 0 < i < |s|
  {
    cmp(s[Parent(i)], s[i]) <= 0
  }

  ghost predicate Heap<T(!new)>(cmp: (T, T) -> int, s: seq<T>) {
    forall i | 0 < i < |s| :: InOrder(cmp, s, i)
  }

  /** The first element of a heap comes before all others. */
  lemma {:induction false} RootIsFirst<T(!new)>(cmp: (T, T) -> int, s: seq<T>, i: nat)
    requires Preorder(cmp) && Heap(cmp, s) && i < |s|
    ensures cmp(s[0], s[i]) <= 0
  {
    if i > 0 {
      RootIsFirst(cmp, s, Parent(i));
      assert InOrder(cmp, s, i);
    } else {
      assert cmp(s[0], s[0]) <= 0;
    }
  }

  function Swap<T>(s: seq<T>, i: nat, j: nat): (r: seq<T>)
    requires i < |s| && j < |s|
    ensures |r| == |s|
  {
    s[i := s[j]][j := s[i]]
  }

  lemma SwapKeepsAll<T>(s: seq<T>, i: nat, j: nat)
    requires i < |s| && j < |s|
    ensures multiset(Swap(s, i, j)) == multiset(s)
  {
  }

  // ---- Trickling up ----

  /** A heap but for node k and its parent; what is below k is also below that
      parent. */
  ghost predicate HeapBut<T(!new)>(cmp: (T, T) -> int, s: seq<T>, k: nat) {
    && (forall i | 0 < i < |s| && i != k :: InOrder(cmp, s, i))
    && (forall i | 0 < i < |s| && Parent(i) == k && k > 0 :: cmp(s[Parent(k)], s[i]) <= 0)
  }

  lemma UpStep<T(!new)>(cmp: (T, T) -> int, s: seq<T>, k: nat)
    requires Preorder(cmp) && HeapBut(cmp, s, k) && 0 < k < |s| && cmp(s[k], s[Parent(k)]) < 0
    ensures HeapBut(cmp, Swap(s, k, Parent(k)), Parent(k))
  {
    var p := Parent(k);
    var r := Swap(s, k, p);
    forall i | 0 < i < |r| && i != p
      ensures InOrder(cmp, r, i)
    {
      if i != k {
        assert InOrder(cmp, s, i);
      }
    }
    forall i | 0 < i < |r| && Parent(i) == p && p > 0
      ensures cmp(r[Parent(p)], r[i]) <= 0
    {
      assert InOrder(cmp, s, p);
      if i != k {
        assert InOrder(cmp, s, i);
      }
    }
  }

  lemma UpDone<T(!new)>(cmp: (T, T) -> int, s: seq<T>, k: nat)
    requires Preorder(cmp) && HeapBut(cmp, s, k) && k < |s| && (k == 0 || cmp(s[k], s[Parent(k)]) >= 0)
    ensures Heap(cmp, s)
  {
    forall i | 0 < i < |s|
      ensures InOrder(cmp, s, i)
    {
    }
  }

  // ---- Trickling down ----

  /** A heap but for node k and its children, which are below the parent of k. */
  ghost predicate HeapAround<T(!new)>(cmp: (T, T) -> int, s: seq<T>, k: nat) {
    && (forall i | 0 < i < |s| && Parent(i) != k :: InOrder(cmp, s, i))
    && (forall i | 0 < i < |s| && Parent(i) == k && k > 0 :: cmp(s[Parent(k)], s[i]) <= 0)
  }

  /** The child that is to move up. */
  ghost predicate FirstChild<T(!new)>(cmp: (T, T) -> int, s: seq<T>, k: nat, which: nat) {
    && 0 < which < |s| && Parent(which) == k
    && forall i | 0 < i < |s| && Parent(i) == k :: cmp(s[which], s[i]) <= 0
  }

  lemma DownStep<T(!new)>(cmp: (T, T) -> int, s: seq<T>, k: nat, which: nat)
    requires Preorder(cmp) && HeapAround(cmp, s, k) && k < |s| && FirstChild(cmp, s, k, which) &&
      cmp(s[which], s[k]) <= 0
    ensures HeapAround(cmp, Swap(s, k, which), which)
  {
    var r := Swap(s, k, which);
    forall i | 0 < i < |r| && Parent(i) != which
      ensures InOrder(cmp, r, i)
    {
      if Parent(i) != k && i != k {
        assert InOrder(cmp, s, i);
      }
    }
    forall i | 0 < i < |r| && Parent(i) == which
      ensures cmp(r[Parent(which)], r[i]) <= 0
    {
      assert InOrder(cmp, s, i);
    }
  }

  lemma DownDone<T(!new)>(cmp: (T, T) -> int, s: seq<T>, k: nat, which: nat)
    requires Preorder(cmp) && HeapAround(cmp, s, k) && k < |s|
    requires 2 * k + 1 >= |s| || (FirstChild(cmp, s, k, which) && cmp(s[which], s[k]) > 0)
    ensures Heap(cmp, s)
  {
    forall i | 0 < i < |s|
      ensures InOrder(cmp, s, i)
    {
      if Parent(i) == k {
        assert cmp(s[k], s[which]) <= 0 && cmp(s[which], s[i]) <= 0;
      }
    }
  }

  lemma ChildrenOf<T(!new)>(cmp: (T, T) -> int, s: seq<T>, k: nat, which: nat)
    requires Preorder(cmp) && 2 * k + 1 < |s|
    requires which == if 2 * k + 2 < |s| && cmp(s[2 * k + 1], s[2 * k + 2]) > 0 then 2 * k + 2 else 2 * k + 1
    ensures FirstChild(cmp, s, k, which)
  {
    assert Parent(which) == k;
    forall i | 0 < i < |s| && Parent(i) == k
      ensures cmp(s[which], s[i]) <= 0
    {
      assert i == 2 * k + 1 || i == 2 * k + 2;
    }
  }

  /** struct pqueue */
  class Queue<T(0, !new, ==)> {
    const cmp: (T, T) -> int
    var items: array<T>
    var size: nat

    ghost function Items(): seq<T>
      reads this, items
    {
      if size <= items.Length then items[..size] else []
    }

    ghost predicate Valid()
      reads this, items
    {
      Preorder(cmp) && size < items.Length && items.Length >= PQUEUE_INIT_ARRAYSIZE && Heap(cmp, Items())
    }

    /** pqueue_create */
    constructor (cmp: (T, T) -> int)
      requires Preorder(cmp)
      ensures Valid() && Items() == [] && fresh(items) && this.cmp == cmp
    {
      this.cmp := cmp;
      items := new T[PQUEUE_INIT_ARRAYSIZE];
      size := 0;
    }

    /** The array with tmp in the open place: what the loops below work on. */
    static ghost function Filled(u: seq<T>, open: nat, tmp: T): seq<T>
      requires open < |u|
    {
      u[open := tmp]
    }

    static lemma MoveUp(cmp: (T, T) -> int, u: seq<T>, k: nat, tmp: T)
      requires 0 < k < |u| && Preorder(cmp) && HeapBut(cmp, Filled(u, k, tmp), k) && cmp(tmp, u[Parent(k)]) < 0
      ensures
        var r := Filled(u[k := u[Parent(k)]], Parent(k), tmp);
        HeapBut(cmp, r, Parent(k)) && multiset(r) == multiset(Filled(u, k, tmp))
    {
      hide Preorder, HeapBut, Swap, Filled;
      SwapFilled(u, k, Parent(k), tmp);
      UpStep(cmp, Filled(u, k, tmp), k);
      SwapKeepsAll(Filled(u, k, tmp), k, Parent(k));
    }

    static lemma StopUp(cmp: (T, T) -> int, u: seq<T>, k: nat, tmp: T)
      requires k < |u| && Preorder(cmp) && HeapBut(cmp, Filled(u, k, tmp), k) && (k > 0 ==> cmp(tmp, u[Parent(k)]) >= 0)
      ensures Heap(cmp, Filled(u, k, tmp))
    {
      hide Preorder, HeapBut, Heap;
      UpDone(cmp, u[k := tmp], k);
    }

    method TrickleUp(start: nat)
      requires Preorder(cmp) && start < items.Length && HeapBut(cmp, items[..start + 1], start)
      modifies items
      ensures Heap(cmp, items[..start + 1]) && multiset(items[..start + 1]) == multiset(old(items[..start + 1]))
    {
      hide Preorder, HeapBut, Heap, Filled;
      var index: nat, tmp := start, items[start];
      ghost var n, all := start + 1, multiset(items[..start + 1]);
      FilledAlready(items[..n], index);
      while index > 0 && cmp(tmp, items[Parent(index)]) < 0
        invariant index < n
        invariant HeapBut(cmp, Filled(items[..n], index, tmp), index)
        invariant multiset(Filled(items[..n], index, tmp)) == all
      {
        var p := Parent(index);
        ghost var u := items[..n];
        MoveUp(cmp, u, index, tmp);
        items[index] := items[p];
        assert items[..n] == u[index := u[p]];
        index := p;
      }
      ghost var u := items[..n];
      StopUp(cmp, u, index, tmp);
      items[index] := tmp;
      FilledIs(u, index, tmp);
      assert items[..n] == u[index := tmp];
    }

    static lemma FilledAlready(u: seq<T>, k: nat)
      requires k < |u|
      ensures Filled(u, k, u[k]) == u
    {
    }

    static lemma FilledIs(u: seq<T>, k: nat, tmp: T)
      requires k < |u|
      ensures Filled(u, k, tmp) == u[k := tmp]
    {
    }

    static lemma MoveDown(cmp: (T, T) -> int, u: seq<T>, k: nat, which: nat, tmp: T)
      requires k < |u| && which < |u| && Preorder(cmp) && HeapAround(cmp, Filled(u, k, tmp), k)
      requires FirstChild(cmp, Filled(u, k, tmp), k, which) && cmp(u[which], tmp) <= 0
      ensures
        var r := Filled(u[k := u[which]], which, tmp);
        HeapAround(cmp, r, which) && multiset(r) == multiset(Filled(u, k, tmp))
    {
      assert Parent(which) == k && which != k;
      hide Preorder, HeapAround, FirstChild, Swap, Filled;
      SwapFilled(u, k, which, tmp);
      DownStep(cmp, Filled(u, k, tmp), k, which);
      SwapKeepsAll(Filled(u, k, tmp), k, which);
    }

    /** Moving the open place is swapping. */
    static lemma SwapFilled(u: seq<T>, k: nat, other: nat, tmp: T)
      requires k < |u| && other < |u| && k != other
      ensures |Filled(u, k, tmp)| == |u| && Filled(u, k, tmp)[k] == tmp && Filled(u, k, tmp)[other] == u[other]
      ensures Swap(Filled(u, k, tmp), k, other) == Filled(u[k := u[other]], other, tmp)
    {
    }

    static lemma FirstOf(cmp: (T, T) -> int, u: seq<T>, k: nat, which: nat, tmp: T)
      requires Preorder(cmp) && k < |u| && 2 * k + 1 < |u|
      requires which == if 2 * k + 2 < |u| && cmp(u[2 * k + 1], u[2 * k + 2]) > 0 then 2 * k + 2 else 2 * k + 1
      ensures FirstChild(cmp, Filled(u, k, tmp), k, which)
    {
      hide Preorder, FirstChild;
      ChildrenOf(cmp, u[k := tmp], k, which);
    }

    static lemma StopDown(cmp: (T, T) -> int, u: seq<T>, k: nat, which: nat, tmp: T)
      requires Preorder(cmp) && k < |u| && HeapAround(cmp, Filled(u, k, tmp), k)
      requires 2 * k + 1 >= |u| ||
        (which < |u| && which != k && FirstChild(cmp, Filled(u, k, tmp), k, which) && cmp(u[which], tmp) > 0)
      ensures Heap(cmp, Filled(u, k, tmp))
    {
      hide Preorder, HeapAround, FirstChild, Heap;
      DownDone(cmp, u[k := tmp], k, which);
    }

    method TrickleDown()
      requires Preorder(cmp) && 0 < size <= items.Length && HeapAround(cmp, items[..size], 0)
      modifies items
      ensures Heap(cmp, items[..size]) && multiset(items[..size]) == multiset(old(items[..size]))
    {
      hide Preorder, HeapAround, Heap, FirstChild, Filled;
      var index: nat, tmp := 0, items[0];
      var which: nat := 0;
      ghost var all := multiset(items[..size]);
      FilledAlready(items[..size], index);
      while index < size / 2
        invariant index < size
        invariant HeapAround(cmp, Filled(items[..size], index, tmp), index)
        invariant multiset(Filled(items[..size], index, tmp)) == all
        decreases size - index
      {
        ghost var u := items[..size];
        var l, r := 2 * index + 1, 2 * index + 2;
        which := if r < size && cmp(items[l], items[r]) > 0 then r else l;
        FirstOf(cmp, u, index, which, tmp);
        if cmp(items[which], tmp) > 0 {
          break;
        }
        MoveDown(cmp, u, index, which, tmp);
        items[index] := items[which];
        assert items[..size] == u[index := u[which]];
        index := which;
      }
      ghost var u := items[..size];
      StopDown(cmp, u, index, which, tmp);
      items[index] := tmp;
      FilledIs(u, index, tmp);
      assert items[..size] == u[index := tmp];
    }

    /** pqueue_expand */
    method Expand()
      requires Valid()
      modifies `items
      ensures Valid() && fresh(items) && items.Length == 2 * old(items.Length) && Items() == old(Items())
    {
      hide Preorder, Heap;
      var more := new T[2 * items.Length];
      forall i | 0 <= i < items.Length {
        more[i] := items[i];
      }
      ghost var all := Items();
      items := more;
      assert Items() == all;
    }

    /** pqueue_enqueue */
    method Enqueue(data: T)
      requires Valid()
      modifies this, items
      ensures Valid() && multiset(Items()) == multiset(old(Items())) + multiset{data}
      ensures items == old(items) || fresh(items)
    {
      if size + 2 >= items.Length {
        Expand();
      }
      Append(data);
    }

    /** The rest of pqueue_enqueue, once there is room. */
    method Append(data: T)
      requires Valid() && size + 1 < items.Length
      modifies `size, items
      ensures Valid() && multiset(Items()) == multiset(old(Items())) + multiset{data}
    {
      hide Preorder, Heap, HeapBut;
      ghost var before := Items();
      AppendedHeap(cmp, before, data);
      items[size] := data;
      assert items[..size + 1] == before + [data];
      TrickleUp(size);
      size := size + 1;
    }

    static lemma AppendedHeap(cmp: (T, T) -> int, s: seq<T>, data: T)
      requires Heap(cmp, s)
      ensures HeapBut(cmp, s + [data], |s|) && multiset(s + [data]) == multiset(s) + multiset{data}
    {
      forall i | 0 < i < |s + [data]| && i != |s|
        ensures InOrder(cmp, s + [data], i)
      {
        assert InOrder(cmp, s, i);
      }
    }

    /** pqueue_dequeue: the caller must not dequeue from an empty queue. */
    method Dequeue() returns (data: T)
      requires Valid() && size > 0
      modifies this, items
      ensures Valid() && multiset(old(Items())) == multiset(Items()) + multiset{data}
      ensures forall x | x in old(Items()) :: cmp(data, x) <= 0
      ensures size == old(size) - 1 && items == old(items)
    {
      hide Preorder, Heap;
      ghost var before := Items();
      RootIsFirstOfAll(cmp, before);
      data := items[0];
      size := size - 1;
      items[0] := items[size];
      if size > 0 {
        SettleRoot(before);
      } else {
        assert before == [data];
        EmptyHeap(cmp);
      }
    }

    /** The last element, which has been moved to the root, trickles down. */
    method SettleRoot(ghost before: seq<T>)
      requires Preorder(cmp) && 0 < size < items.Length && |before| == size + 1 && Heap(cmp, before)
      requires items[..size] == before[..size][0 := before[size]]
      modifies items
      ensures Heap(cmp, items[..size]) && multiset(before) == multiset(items[..size]) + multiset{before[0]}
    {
      hide Preorder, Heap, HeapAround;
      LastToFront(cmp, before);
      TrickleDown();
    }

    static lemma RootIsFirstOfAll(cmp: (T, T) -> int, s: seq<T>)
      requires Preorder(cmp) && Heap(cmp, s) && s != []
      ensures forall x | x in s :: cmp(s[0], x) <= 0
    {
      hide Preorder, Heap;
      forall x | x in s
        ensures cmp(s[0], x) <= 0
      {
        var i: nat :| i < |s| && s[i] == x;
        RootIsFirst(cmp, s, i);
      }
    }

    static lemma EmptyHeap(cmp: (T, T) -> int)
      ensures Heap(cmp, [])
    {
    }

    static lemma LastToFront(cmp: (T, T) -> int, s: seq<T>)
      requires Heap(cmp, s) && |s| > 1
      ensures
        var r := s[..|s| - 1][0 := s[|s| - 1]];
        HeapAround(cmp, r, 0) && multiset(s) == multiset(r) + multiset{s[0]}
    {
      var r := s[..|s| - 1][0 := s[|s| - 1]];
      forall i | 0 < i < |r| && Parent(i) != 0
        ensures InOrder(cmp, r, i)
      {
        assert InOrder(cmp, s, i);
      }
      assert s == [s[0]] + s[1..|s| - 1] + [s[|s| - 1]];
      assert r == [s[|s| - 1]] + s[1..|s| - 1];
    }
  }

  ghost predicate InSequence<T(!new)>(cmp: (T, T) -> int, s: seq<T>) {
    forall i, j | 0 <= i < j < |s| :: cmp(s[i], s[j]) <= 0
  }

  /** Draining the queue gives all of its elements in order. */
  method Drain<T(0, !new, ==)>(q: Queue<T>) returns (sorted: seq<T>)
    requires q.Valid()
    modifies q, q.items
    ensures multiset(sorted) == multiset(old(q.Items())) && InSequence(q.cmp, sorted)
  {
    hide Heap;
    sorted := [];
    while q.size > 0
      invariant q.Valid() && q.items == old(q.items) && InSequence(q.cmp, sorted)
      invariant multiset(sorted) + multiset(q.Items()) == multiset(old(q.Items()))
      invariant forall x, y | x in sorted && y in q.Items() :: q.cmp(x, y) <= 0
      decreases q.size
    {
      ghost var rest := q.Items();
      var x := q.Dequeue();
      forall y | y in q.Items()
        ensures y in rest
      {
        assert multiset(rest)[y] >= multiset(q.Items())[y] > 0;
      }
      assert x in rest by { assert multiset(rest)[x] > 0; }
      sorted := sorted + [x];
    }
    assert q.Items() == [];
  }
}
