/**
 * The doubly linked list of range nodes (`List` in lib.rs).  The nodes live
 * in a `MemPool<Node>`; the list itself holds only `first` and `last`, and
 * every link update is a store through a node pointer into the pool.  The
 * ghost sequence `order` is the list read from `first` to `last`.
 *
 * The red-black links (`left`, `right`, `color`) of a source node are kept
 * in the `RedBlack.Tree` value instead (see rangetree.dfy), so an arena node
 * here holds only `next`, `prev` and the range.
 */
module RangeList {
  import opened MemPoolElem
  import opened Spans

  /** A list node as stored in the pool: links and the inclusive range `[min, max]`. */
  datatype Node = Node(next: Ptr, prev: Ptr, range: Span)

  /** `Node::default()`. */
  function Blank(): Node
  {
    Node(Null, Null, Span(0, 0))
  }

  /** `MemElemUtils::free_ptr_get`: the free chain runs through `next`. */
  function FreeLink(n: Node): Ptr
  {
    n.next
  }

  /** `MemElemUtils::free_ptr_set`: link to `p`, and tag the node as freed by pointing `prev` at itself. */
  function FreeRelink(n: Node, self: Ptr, p: Ptr): (r: Node)
    ensures FreeLink(r) == p && r.prev == self && r.range == n.range
  {
    n.(next := p, prev := self)
  }

  /** The address before position `i`, `Null` before the first. */
  function Pred(s: seq<Ptr>, i: nat): Ptr
  {
    if 0 < i <= |s| then s[i - 1] else Null
  }

  /** The list invariant: `next`/`prev` of every node name its neighbours in `order`. */
  ghost predicate Linked(chunks: seq<seq<Node>>, order: seq<Ptr>, first: Ptr, last: Ptr)
  {
    && first == (if order == [] then Null else order[0])
    && last == (if order == [] then Null else order[|order| - 1])
    && (forall i :: 0 <= i < |order| ==> InChunks(chunks, order[i]))
    && NoDup(order)
    && (forall i {:trigger Elem(chunks, order[i])} :: 0 <= i < |order| ==>
          Elem(chunks, order[i]).next == Succ(order, i) && Elem(chunks, order[i]).prev == Pred(order, i))
  }

  /** A position of `p` in `s`; in a list without repeats, its only one. */
  ghost function IndexOf(s: seq<Ptr>, p: Ptr): (r: nat)
    requires p in s
    ensures r < |s| && s[r] == p
  {
    var i :| 0 <= i < |s| && s[i] == p; i
  }

  /** The two neighbours of position `i`. */
  function Neighbours(s: seq<Ptr>, i: nat): set<Ptr>
  {
    {Pred(s, i), Succ(s, i)}
  }

  /** A node with its two neighbours. */
  function Around(s: seq<Ptr>, i: nat): set<Ptr>
    requires i < |s|
  {
    Neighbours(s, i) + {s[i]}
  }

  /**
   * What a list operation may do to the pool: no element moves, no range
   * changes, and only the elements in `touched` get new links.
   */
  ghost predicate Framed(c1: seq<seq<Node>>, c2: seq<seq<Node>>, touched: set<Ptr>)
  {
    SameShape(c1, c2) && RangesKept(c1, c2) && OthersKept(c1, c2, touched)
  }

  /** No chunk grows, shrinks or disappears. */
  ghost predicate SameShape(c1: seq<seq<Node>>, c2: seq<seq<Node>>)
  {
    && |c2| == |c1|
    && (forall k :: 0 <= k < |c1| ==> |c2[k]| == |c1[k]|)
    && (forall q {:trigger InChunks(c2, q)} :: InChunks(c1, q) ==> InChunks(c2, q))
  }

  /** Every element keeps its range. */
  ghost predicate RangesKept(c1: seq<seq<Node>>, c2: seq<seq<Node>>)
    requires SameShape(c1, c2)
  {
    forall q {:trigger Elem(c2, q)} :: InChunks(c1, q) ==> Elem(c2, q).range == Elem(c1, q).range
  }

  /** Every element outside `touched` is unchanged. */
  ghost predicate OthersKept(c1: seq<seq<Node>>, c2: seq<seq<Node>>, touched: set<Ptr>)
    requires SameShape(c1, c2)
  {
    forall q {:trigger Elem(c2, q)} :: InChunks(c1, q) && q !in touched ==> Elem(c2, q) == Elem(c1, q)
  }

  /** The store `(*p).next = x`. */
  method SetNext(pool: MemPool<Node>, p: Ptr, x: Ptr, ghost base: seq<seq<Node>>, ghost touched: set<Ptr>)
    requires pool.Valid() && pool.Live(p) && Framed(base, pool.chunks, touched)
    modifies pool
    ensures pool.Valid() && pool.free == old(pool.free) && pool.chain == old(pool.chain)
    ensures pool.chunks == Store(old(pool.chunks), p, old(pool.Get(p)).(next := x))
    ensures Framed(base, pool.chunks, touched + {p})
  {
    var n := pool.Get(p);
    pool.Write(p, n.(next := x));
  }

  /** The store `(*p).prev = x`. */
  method SetPrev(pool: MemPool<Node>, p: Ptr, x: Ptr, ghost base: seq<seq<Node>>, ghost touched: set<Ptr>)
    requires pool.Valid() && pool.Live(p) && Framed(base, pool.chunks, touched)
    modifies pool
    ensures pool.Valid() && pool.free == old(pool.free) && pool.chain == old(pool.chain)
    ensures pool.chunks == Store(old(pool.chunks), p, old(pool.Get(p)).(prev := x))
    ensures Framed(base, pool.chunks, touched + {p})
  {
    var n := pool.Get(p);
    pool.Write(p, n.(prev := x));
  }

  /**
   * The stores that put `node` between `pred` and `succ`, positions `i - 1`
   * and `i` of `o`: `node.next = succ`, `node.prev = pred`, `pred.next = node`
   * and `succ.prev = node`, the last two only where there is a neighbour.
   */
  method Link(pool: MemPool<Node>, ghost o: seq<Ptr>, ghost i: nat, node: Ptr, pred: Ptr, succ: Ptr)
    requires pool.Valid() && Linked(pool.chunks, o, if o == [] then Null else o[0], if o == [] then Null else o[|o| - 1])
    requires i <= |o| && pred == Pred(o, i) && succ == (if i < |o| then o[i] else Null)
    requires pool.Live(node) && node !in o && forall k :: 0 <= k < |o| ==> o[k] !in pool.chain
    modifies pool
    ensures pool.Valid() && pool.free == old(pool.free) && pool.chain == old(pool.chain)
    ensures var n := InsertAt(o, i, node);
      && Linked(pool.chunks, n, n[0], n[|n| - 1]) && IndexOf(n, node) == i
      && Framed(old(pool.chunks), pool.chunks, Around(n, i))
      && forall k :: 0 <= k < |n| ==> n[k] !in pool.chain
  {
    ghost var c0 := pool.chunks;
    FramedRefl(c0);
    SetNext(pool, node, succ, c0, {});
    SetPrev(pool, node, pred, c0, {node});
    assert Elem(pool.chunks, node) == Elem(c0, node).(next := succ, prev := pred);
    LinkNeighbours(pool, c0, o, i, node, pred, succ);
  }

  /** The second half of `Link`: the neighbours' stores `pred.next = node` and `succ.prev = node`. */
  method LinkNeighbours(pool: MemPool<Node>, ghost c0: seq<seq<Node>>, ghost o: seq<Ptr>, ghost i: nat, node: Ptr, pred: Ptr, succ: Ptr)
    requires pool.Valid() && Linked(c0, o, if o == [] then Null else o[0], if o == [] then Null else o[|o| - 1])
    requires i <= |o| && pred == Pred(o, i) && succ == (if i < |o| then o[i] else Null)
    requires InChunks(c0, node) && node !in o && node !in pool.chain && forall k :: 0 <= k < |o| ==> o[k] !in pool.chain
    requires Framed(c0, pool.chunks, {node})
    requires Elem(pool.chunks, node) == Elem(c0, node).(next := succ, prev := pred)
    modifies pool
    ensures pool.Valid() && pool.free == old(pool.free) && pool.chain == old(pool.chain)
    ensures var n := InsertAt(o, i, node);
      && Linked(pool.chunks, n, n[0], n[|n| - 1]) && IndexOf(n, node) == i
      && Framed(c0, pool.chunks, Around(n, i))
      && forall k :: 0 <= k < |n| ==> n[k] !in pool.chain
  {
    ghost var c1 := pool.chunks;
    if pred != Null {
      assert pred == o[i - 1] && pred != node;
      SetNext(pool, pred, node, c0, {node});
      assert Elem(pool.chunks, pred) == Elem(c0, pred).(next := node);
    }
    ghost var c2 := pool.chunks;
    if succ != Null {
      assert succ == o[i] && succ != node;
      if pred != Null {
        NoDupAt(o, i - 1, i);
      }
      SetPrev(pool, succ, node, c0, {node, pred});
      assert Elem(pool.chunks, succ) == Elem(c0, succ).(prev := node);
      if pred != Null {
        assert Elem(pool.chunks, pred) == Elem(c2, pred);
      }
    }
    assert Elem(pool.chunks, node) == Elem(c1, node);
    LinkedInsert(c0, pool.chunks, o, i, node, {node, pred, succ});
    InsertOffChain(o, i, node, pool.chain);
  }

  /** The one node of a list that was empty: its links are already null. */
  lemma LinkFirst(pool: MemPool<Node>, node: Ptr)
    requires pool.Valid() && pool.Live(node)
    requires pool.Get(node).next == Null && pool.Get(node).prev == Null
    ensures Linked(pool.chunks, [node], node, node) && IndexOf([node], node) == 0
    ensures Framed(pool.chunks, pool.chunks, Around([node], 0)) && node !in pool.chain
  {
    FramedRefl(pool.chunks);
    LinkedInsert(pool.chunks, pool.chunks, [], 0, node, {});
    assert InsertAt([], 0, node) == [node];
  }

  /** The two stores of `remove` that unlink position `i`: `next.prev = prev` and `prev.next = next`. */
  method Unlink(pool: MemPool<Node>, ghost o: seq<Ptr>, ghost i: nat, prev: Ptr, next: Ptr)
    requires pool.Valid() && Linked(pool.chunks, o, if o == [] then Null else o[0], if o == [] then Null else o[|o| - 1])
    requires i < |o| && prev == Pred(o, i) && next == Succ(o, i)
    requires forall k :: 0 <= k < |o| ==> o[k] !in pool.chain
    modifies pool
    ensures pool.Valid() && pool.free == old(pool.free) && pool.chain == old(pool.chain)
    ensures RemoveStores(old(pool.chunks), pool.chunks, o, i)
  {
    ghost var c0 := pool.chunks;
    FramedRefl(c0);
    LinkedNeighbours(c0, o, i);
    if next != Null {
      SetPrev(pool, next, prev, c0, {});
    }
    if next != Null && prev != Null {
      NoDupAt(o, i - 1, i + 1);
    }
    ghost var c1 := pool.chunks;
    if prev != Null {
      SetNext(pool, prev, next, c0, {next} - {Null});
      assert Elem(pool.chunks, prev) == Elem(c0, prev).(next := next);
    }
    if next != Null {
      assert next != prev;
      assert Elem(pool.chunks, next) == Elem(c1, next);
      assert Elem(pool.chunks, next) == Elem(c0, next).(prev := prev);
    }
    FramedMono(c0, pool.chunks, {next, prev} - {Null}, Neighbours(o, i));
  }

  /** The ranges of the nodes, in list order. */
  ghost function RangesOf(chunks: seq<seq<Node>>, order: seq<Ptr>): (r: seq<Span>)
    requires forall i :: 0 <= i < |order| ==> InChunks(chunks, order[i])
    ensures |r| == |order| && forall i :: 0 <= i < |order| ==> r[i] == Elem(chunks, order[i]).range
  {
    if order == [] then [] else [Elem(chunks, order[0]).range] + RangesOf(chunks, order[1..])
  }

  class List {
    var first: Ptr
    var last: Ptr
    /** The nodes from `first` to `last`. */
    ghost var order: seq<Ptr>

    /** The list is linked through the pool, and none of its nodes is on the free chain. */
    ghost predicate Valid(pool: MemPool<Node>)
      reads this, pool
    {
      && pool.Valid()
      && Linked(pool.chunks, order, first, last)
      && (forall i :: 0 <= i < |order| ==> order[i] !in pool.chain)
    }

    constructor ()
      ensures first == Null && last == Null && order == []
    {
      first := Null;
      last := Null;
      order := [];
    }

    /** `push_front`. */
    method PushFront(pool: MemPool<Node>, node: Ptr)
      requires Valid(pool) && pool.Live(node) && node !in order
      requires pool.Get(node).next == Null && pool.Get(node).prev == Null
      modifies this, pool
      ensures Valid(pool) && order == [node] + old(order)
      ensures pool.free == old(pool.free) && pool.chain == old(pool.chain)
      ensures Framed(old(pool.chunks), pool.chunks, Around(order, 0))
    {
      ghost var o := order;
      if first != Null {
        Link(pool, o, 0, node, Null, first);
      } else {
        LinkFirst(pool, node);
        last := node;
      }
      first := node;
      assert InsertAt(o, 0, node) == [node] + o;
      order := [node] + order;
    }

    /** `push_back`. */
    method PushBack(pool: MemPool<Node>, node: Ptr)
      requires Valid(pool) && pool.Live(node) && node !in order
      requires pool.Get(node).next == Null && pool.Get(node).prev == Null
      modifies this, pool
      ensures Valid(pool) && order == old(order) + [node]
      ensures pool.free == old(pool.free) && pool.chain == old(pool.chain)
      ensures Framed(old(pool.chunks), pool.chunks, Around(order, |order| - 1))
    {
      ghost var o := order;
      if first != Null {
        Link(pool, o, |o|, node, last, Null);
      } else {
        LinkFirst(pool, node);
        first := node;
      }
      last := node;
      assert InsertAt(o, |o|, node) == o + [node];
      order := order + [node];
    }

    /** `push_after`: insert `node` after `prev`, or at the front when `prev` is null. */
    method PushAfter(pool: MemPool<Node>, prev: Ptr, node: Ptr)
      requires Valid(pool) && pool.Live(node) && node !in order
      requires prev == Null || prev in order
      requires first == Null ==> pool.Get(node).next == Null && pool.Get(node).prev == Null
      modifies this, pool
      ensures Valid(pool)
      ensures order == PushedAfter(old(order), prev, node)
      ensures pool.free == old(pool.free) && pool.chain == old(pool.chain)
      ensures node in order && Framed(old(pool.chunks), pool.chunks, Around(order, IndexOf(order, node)))
    {
      ghost var o := order;
      InsertAtEnds(o, node);
      if first == Null {
        LinkFirst(pool, node);
        first := node;
        last := node;
      } else if prev == Null {
        Link(pool, o, 0, node, Null, first);
        first := node;
      } else {
        ghost var i := IndexOf(o, prev);
        LinkedNeighbours(pool.chunks, o, i);
        IndexOfEnds(o, prev);
        if last == prev {
          last := node;
        }
        var after := pool.Get(prev).next;
        Link(pool, o, i + 1, node, prev, after);
      }
      order := PushedAfter(o, prev, node);
    }

    /** `push_before`: insert `node` before `next`, or at the back when `next` is null. */
    method PushBefore(pool: MemPool<Node>, next: Ptr, node: Ptr)
      requires Valid(pool) && pool.Live(node) && node !in order
      requires next == Null || next in order
      requires first == Null ==> pool.Get(node).next == Null && pool.Get(node).prev == Null
      modifies this, pool
      ensures Valid(pool)
      ensures order == PushedBefore(old(order), next, node)
      ensures pool.free == old(pool.free) && pool.chain == old(pool.chain)
      ensures node in order && Framed(old(pool.chunks), pool.chunks, Around(order, IndexOf(order, node)))
    {
      ghost var o := order;
      InsertAtEnds(o, node);
      if first == Null {
        LinkFirst(pool, node);
        first := node;
        last := node;
      } else if next == Null {
        Link(pool, o, |o|, node, last, Null);
        last := node;
      } else {
        ghost var i := IndexOf(o, next);
        LinkedNeighbours(pool.chunks, o, i);
        IndexOfEnds(o, next);
        if first == next {
          first := node;
        }
        var before := pool.Get(next).prev;
        Link(pool, o, i, node, before, next);
      }
      order := PushedBefore(o, next, node);
    }

    /** `remove`: unlink `node`; its own links are left as they were. */
    method Remove(pool: MemPool<Node>, node: Ptr)
      requires Valid(pool) && node in order
      modifies this, pool
      ensures Valid(pool)
      ensures var i := IndexOf(old(order), node);
        && order == old(order)[..i] + old(order)[i + 1..]
        && Framed(old(pool.chunks), pool.chunks, Neighbours(old(order), i))
      ensures pool.free == old(pool.free) && pool.chain == old(pool.chain)
    {
      ghost var c0, o := pool.chunks, order;
      ghost var i := IndexOf(o, node);
      LinkedNeighbours(c0, o, i);
      var n := pool.Get(node);
      var f, l := first, last;
      if l == node {
        l := n.prev;
      }
      if f == node {
        f := n.next;
      }
      assert f == if o[0] == o[i] then Succ(o, i) else o[0];
      assert l == if o[|o| - 1] == o[i] then Pred(o, i) else o[|o| - 1];
      first, last, order := f, l, o[..i] + o[i + 1..];
      Unlink(pool, o, i, n.prev, n.next);
      RemoveFinal(c0, pool.chunks, o, i, pool.chain);
    }

    /** `clear`: forget all nodes (the pool is cleared separately). */
    method Clear(ghost pool: MemPool<Node>)
      requires pool.Valid()
      modifies this
      ensures Valid(pool) && order == []
    {
      first := Null;
      last := Null;
      order := [];
    }
  }

  /** The node order after `push_after(prev, node)`: right after `prev`, or first when `prev` is null. */
  ghost function PushedAfter(o: seq<Ptr>, prev: Ptr, node: Ptr): seq<Ptr>
    requires prev == Null || prev in o
  {
    if o == [] then [node]
    else if prev == Null then [node] + o
    else InsertAt(o, IndexOf(o, prev) + 1, node)
  }

  /** The node order after `push_before(next, node)`: right before `next`, or last when `next` is null. */
  ghost function PushedBefore(o: seq<Ptr>, next: Ptr, node: Ptr): seq<Ptr>
    requires next == Null || next in o
  {
    if o == [] then [node]
    else if next == Null then o + [node]
    else InsertAt(o, IndexOf(o, next), node)
  }

  /** Inserting at either end. */
  lemma InsertAtEnds(o: seq<Ptr>, x: Ptr)
    ensures InsertAt(o, 0, x) == [x] + o && InsertAt(o, |o|, x) == o + [x]
    ensures InsertAt([], 0, x) == [x]
  {
  }

  /** `s` with `x` inserted at position `i`. */
  function InsertAt(s: seq<Ptr>, i: nat, x: Ptr): (r: seq<Ptr>)
    requires i <= |s|
    ensures |r| == |s| + 1 && r[i] == x
  {
    s[..i] + [x] + s[i..]
  }

  // =====================================================================
  // Lemmas
  // =====================================================================

  /** In a linked list, a node's `next` names the node whose `prev` names it back. */
  lemma LinkedConsistent(chunks: seq<seq<Node>>, order: seq<Ptr>, first: Ptr, last: Ptr, i: nat)
    requires Linked(chunks, order, first, last) && i < |order|
    ensures Elem(chunks, order[i]).next != Null ==>
      Elem(chunks, order[i]).next in order && Elem(chunks, Elem(chunks, order[i]).next).prev == order[i]
    ensures Elem(chunks, order[i]).prev != Null ==>
      Elem(chunks, order[i]).prev in order && Elem(chunks, Elem(chunks, order[i]).prev).next == order[i]
    ensures Elem(chunks, order[i]).next == Null <==> order[i] == last
    ensures Elem(chunks, order[i]).prev == Null <==> order[i] == first
  {
    NoDupPairs(order);
    if i + 1 < |order| {
      assert order[i] != order[|order| - 1];
      assert Elem(chunks, order[i + 1]).prev == Pred(order, i + 1);
    }
    if i > 0 {
      assert order[i] != order[0];
      assert Elem(chunks, order[i - 1]).next == Succ(order, i - 1);
    }
  }

  /** The neighbours of position `i`, as read from the node there. */
  lemma LinkedNeighbours(chunks: seq<seq<Node>>, order: seq<Ptr>, i: nat)
    requires Linked(chunks, order, if order == [] then Null else order[0], if order == [] then Null else order[|order| - 1])
    requires i < |order|
    ensures Elem(chunks, order[i]).next == Succ(order, i) && Elem(chunks, order[i]).prev == Pred(order, i)
    ensures Succ(order, i) != Null ==> InChunks(chunks, Succ(order, i)) && Succ(order, i) == order[i + 1]
    ensures Pred(order, i) != Null ==> InChunks(chunks, Pred(order, i)) && Pred(order, i) == order[i - 1]
    ensures Succ(order, i) == Null <==> i == |order| - 1
    ensures Pred(order, i) == Null <==> i == 0
  {
  }

  /** A member of a list without repeats is at its front, or back, exactly when its position says so. */
  lemma IndexOfEnds(s: seq<Ptr>, p: Ptr)
    requires NoDup(s) && p in s
    ensures s[0] == p <==> IndexOf(s, p) == 0
    ensures s[|s| - 1] == p <==> IndexOf(s, p) == |s| - 1
  {
    NoDupPairs(s);
    IndexOfUnique(s, 0);
    IndexOfUnique(s, |s| - 1);
  }

  lemma IndexOfUnique(s: seq<Ptr>, i: nat)
    requires i < |s| && forall a, b :: 0 <= a < b < |s| ==> s[a] != s[b]
    ensures IndexOf(s, s[i]) == i
  {
  }

  lemma FramedRefl(c: seq<seq<Node>>)
    ensures Framed(c, c, {})
  {
  }

  /** A wider touched set frames as well. */
  lemma FramedMono(c1: seq<seq<Node>>, c2: seq<seq<Node>>, t1: set<Ptr>, t2: set<Ptr>)
    requires Framed(c1, c2, t1) && t1 <= t2
    ensures Framed(c1, c2, t2)
  {
  }

  /** Inserting an address not in a list without repeats gives a list without repeats. */
  lemma InsertDistinct(o: seq<Ptr>, i: nat, node: Ptr)
    requires i <= |o| && node !in o && NoDup(o)
    ensures var n := InsertAt(o, i, node); NoDup(n) && IndexOf(n, node) == i
  {
    var n := InsertAt(o, i, node);
    NoDupPairs(o);
    forall a, b | 0 <= a < b < |n| ensures n[a] != n[b] {
      if a != i && b != i {
        assert n[a] == o[if a < i then a else a - 1] && n[b] == o[if b < i then b else b - 1];
      }
    }
    IndexOfUnique(n, i);
    PairsNoDup(n);
  }

  /** The facts about the pool that an insertion at position `i` establishes. */
  ghost predicate InsertStores(c0: seq<seq<Node>>, c: seq<seq<Node>>, o: seq<Ptr>, i: nat, node: Ptr)
    requires i <= |o| && InChunks(c0, node)
    requires forall k :: 0 <= k < |o| ==> InChunks(c0, o[k])
  {
    && Framed(c0, c, {Pred(o, i), node, if i < |o| then o[i] else Null})
    && Elem(c, node).next == (if i < |o| then o[i] else Null) && Elem(c, node).prev == Pred(o, i)
    && (i > 0 ==> Elem(c, o[i - 1]) == Elem(c0, o[i - 1]).(next := node))
    && (i < |o| ==> Elem(c, o[i]) == Elem(c0, o[i]).(prev := node))
  }

  /** Position `k` of the list after an insertion at `i` is linked. */
  lemma InsertLinkAt(c0: seq<seq<Node>>, c: seq<seq<Node>>, o: seq<Ptr>, i: nat, node: Ptr, k: nat)
    requires Linked(c0, o, if o == [] then Null else o[0], if o == [] then Null else o[|o| - 1])
    requires i <= |o| && InChunks(c0, node) && node !in o
    requires InsertStores(c0, c, o, i, node)
    requires k <= |o|
    ensures var n := InsertAt(o, i, node);
      InChunks(c, n[k]) && Elem(c, n[k]).next == Succ(n, k) && Elem(c, n[k]).prev == Pred(n, k)
  {
    var n := InsertAt(o, i, node);
    NoDupPairs(o);
    if k < i {
      var q := o[k];
      assert n[k] == q;
      if k < i - 1 { assert q != o[i - 1]; assert n[k + 1] == o[k + 1]; }
      if i < |o| { assert q != o[i]; }
      assert Elem(c0, q).next == Succ(o, k) && Elem(c0, q).prev == Pred(o, k);
      if k > 0 { assert n[k - 1] == o[k - 1]; }
    } else if k > i {
      var q := o[k - 1];
      assert n[k] == q;
      if i > 0 { assert q != o[i - 1]; }
      if k - 1 > i { assert q != o[i]; assert n[k - 1] == o[k - 2]; }
      assert Elem(c0, q).next == Succ(o, k - 1) && Elem(c0, q).prev == Pred(o, k - 1);
      if k < |o| { assert n[k + 1] == o[k]; }
    } else {
      assert n[k] == node;
      if i < |o| { assert n[k + 1] == o[i]; }
      if i > 0 { assert n[k - 1] == o[i - 1]; }
    }
  }

  /**
   * Inserting `node` at position `i` of `o`: the pool holds the old links
   * except that `node` and its two new neighbours point at each other.
   */
  lemma LinkedInsert(c0: seq<seq<Node>>, c: seq<seq<Node>>, o: seq<Ptr>, i: nat, node: Ptr, touched: set<Ptr>)
    requires Linked(c0, o, if o == [] then Null else o[0], if o == [] then Null else o[|o| - 1])
    requires i <= |o| && InChunks(c0, node) && node !in o
    requires Framed(c0, c, touched) && touched <= {Pred(o, i), node, if i < |o| then o[i] else Null}
    requires Elem(c, node).next == (if i < |o| then o[i] else Null) && Elem(c, node).prev == Pred(o, i)
    requires i > 0 ==> Elem(c, o[i - 1]) == Elem(c0, o[i - 1]).(next := node)
    requires i < |o| ==> Elem(c, o[i]) == Elem(c0, o[i]).(prev := node)
    ensures var n := InsertAt(o, i, node);
      Linked(c, n, n[0], n[|n| - 1]) && IndexOf(n, node) == i && Framed(c0, c, Around(n, i))
  {
    var n := InsertAt(o, i, node);
    FramedMono(c0, c, touched, {Pred(o, i), node, if i < |o| then o[i] else Null});
    InsertLinks(c0, c, o, i, node);
    InsertDistinct(o, i, node);
    assert Around(n, i) == {Pred(o, i), node, if i < |o| then o[i] else Null};
  }

  lemma InsertLinks(c0: seq<seq<Node>>, c: seq<seq<Node>>, o: seq<Ptr>, i: nat, node: Ptr)
    requires Linked(c0, o, if o == [] then Null else o[0], if o == [] then Null else o[|o| - 1])
    requires i <= |o| && InChunks(c0, node) && node !in o
    requires InsertStores(c0, c, o, i, node)
    ensures var n := InsertAt(o, i, node);
      forall k {:trigger Elem(c, n[k])} :: 0 <= k < |n| ==>
        InChunks(c, n[k]) && Elem(c, n[k]).next == Succ(n, k) && Elem(c, n[k]).prev == Pred(n, k)
  {
    var n := InsertAt(o, i, node);
    forall k | 0 <= k < |n| ensures InChunks(c, n[k]) && Elem(c, n[k]).next == Succ(n, k) && Elem(c, n[k]).prev == Pred(n, k) {
      InsertLinkAt(c0, c, o, i, node, k);
    }
  }

  /** Dropping position `i` of a list without repeats. */
  lemma RemoveDistinct(o: seq<Ptr>, i: nat)
    requires i < |o| && NoDup(o)
    ensures NoDup(o[..i] + o[i + 1..])
  {
    var n := o[..i] + o[i + 1..];
    NoDupPairs(o);
    forall a, b | 0 <= a < b < |n| ensures n[a] != n[b] {
      assert n[a] == o[if a < i then a else a + 1] && n[b] == o[if b < i then b else b + 1];
    }
    PairsNoDup(n);
  }

  /** The facts about the pool that unlinking position `i` establishes. */
  ghost predicate RemoveStores(c0: seq<seq<Node>>, c: seq<seq<Node>>, o: seq<Ptr>, i: nat)
    requires i < |o| && forall k :: 0 <= k < |o| ==> InChunks(c0, o[k])
  {
    && Framed(c0, c, Neighbours(o, i))
    && (i > 0 ==> Elem(c, o[i - 1]) == Elem(c0, o[i - 1]).(next := Succ(o, i)))
    && (i + 1 < |o| ==> Elem(c, o[i + 1]) == Elem(c0, o[i + 1]).(prev := Pred(o, i)))
  }

  /** Inserting a node that is off the free chain into a list that is off it. */
  lemma InsertOffChain(o: seq<Ptr>, i: nat, node: Ptr, chain: seq<Ptr>)
    requires i <= |o| && node !in chain && forall k :: 0 <= k < |o| ==> o[k] !in chain
    ensures var n := InsertAt(o, i, node); forall k :: 0 <= k < |n| ==> n[k] !in chain
  {
    var n := InsertAt(o, i, node);
    forall k | 0 <= k < |n| ensures n[k] !in chain {
      if k != i {
        assert n[k] == o[if k < i then k else k - 1];
      }
    }
  }

  /** The ends of a list after unlinking position `i`, and its nodes stay off the free chain. */
  lemma RemoveEnds(o: seq<Ptr>, i: nat, chain: seq<Ptr>)
    requires i < |o| && forall k :: 0 <= k < |o| ==> o[k] !in chain
    ensures var r := o[..i] + o[i + 1..];
      && (r == [] <==> |o| == 1)
      && (i + 1 < |o| ==> r[|r| - 1] == o[|o| - 1])
      && (i > 0 ==> r[0] == o[0])
      && (0 < i == |o| - 1 ==> r[|r| - 1] == o[i - 1])
      && (i == 0 < |o| - 1 ==> r[0] == o[1])
      && forall k :: 0 <= k < |r| ==> r[k] !in chain
  {
    var r := o[..i] + o[i + 1..];
    forall k | 0 <= k < |r| ensures r[k] !in chain {
      assert r[k] == o[if k < i then k else k + 1];
    }
  }

  /** After unlinking position `i`, the rest is linked with the ends `remove` assigns, and stays off the free chain. */
  lemma RemoveFinal(c0: seq<seq<Node>>, c: seq<seq<Node>>, o: seq<Ptr>, i: nat, chain: seq<Ptr>)
    requires Linked(c0, o, if o == [] then Null else o[0], if o == [] then Null else o[|o| - 1])
    requires i < |o| && RemoveStores(c0, c, o, i)
    requires forall k :: 0 <= k < |o| ==> o[k] !in chain
    ensures var r := o[..i] + o[i + 1..];
      && Linked(c, r, if o[0] == o[i] then Succ(o, i) else o[0], if o[|o| - 1] == o[i] then Pred(o, i) else o[|o| - 1])
      && forall k :: 0 <= k < |r| ==> r[k] !in chain
  {
    LinkedRemove(c0, c, o, i);
    RemoveEnds(o, i, chain);
    NoDupPairs(o);
    IndexOfUnique(o, i);
  }

  /** Position `k` of the list after unlinking position `i` is linked. */
  lemma RemoveLinkAt(c0: seq<seq<Node>>, c: seq<seq<Node>>, o: seq<Ptr>, i: nat, k: nat)
    requires Linked(c0, o, if o == [] then Null else o[0], if o == [] then Null else o[|o| - 1])
    requires i < |o| && RemoveStores(c0, c, o, i)
    requires k + 1 < |o|
    ensures var n := o[..i] + o[i + 1..];
      InChunks(c, n[k]) && Elem(c, n[k]).next == Succ(n, k) && Elem(c, n[k]).prev == Pred(n, k)
  {
    var n := o[..i] + o[i + 1..];
    NoDupPairs(o);
    if k < i {
      var q := o[k];
      assert n[k] == q;
      if k > 0 { assert n[k - 1] == o[k - 1]; }
      if k + 1 < i { assert n[k + 1] == o[k + 1]; } else if k + 1 < |n| { assert n[k + 1] == o[k + 2]; }
      if k < i - 1 { assert q != o[i - 1]; }
      if i + 1 < |o| { assert q != o[i + 1]; }
      assert Elem(c0, q).next == Succ(o, k) && Elem(c0, q).prev == Pred(o, k);
    } else {
      var q := o[k + 1];
      assert n[k] == q;
      if k > i { assert n[k - 1] == o[k]; } else if k > 0 { assert n[k - 1] == o[k - 1]; }
      if k + 1 < |n| { assert n[k + 1] == o[k + 2]; }
      if i > 0 { assert q != o[i - 1]; }
      if k > i { assert q != o[i + 1]; }
      assert Elem(c0, q).next == Succ(o, k + 1) && Elem(c0, q).prev == Pred(o, k + 1);
    }
  }

  /** Unlinking position `i` of `o`: its two neighbours point at each other. */
  lemma LinkedRemove(c0: seq<seq<Node>>, c: seq<seq<Node>>, o: seq<Ptr>, i: nat)
    requires Linked(c0, o, if o == [] then Null else o[0], if o == [] then Null else o[|o| - 1])
    requires i < |o| && RemoveStores(c0, c, o, i)
    ensures var n := o[..i] + o[i + 1..];
      Linked(c, n, if n == [] then Null else n[0], if n == [] then Null else n[|n| - 1])
  {
    var n := o[..i] + o[i + 1..];
    RemoveDistinct(o, i);
    forall k | 0 <= k < |n| ensures InChunks(c, n[k]) && Elem(c, n[k]).next == Succ(n, k) && Elem(c, n[k]).prev == Pred(n, k) {
      RemoveLinkAt(c0, c, o, i, k);
    }
  }
}
