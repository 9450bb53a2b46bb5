/**
 * `RangeTree` (lib.rs): the untaken values of the inclusive domain
 * `[lo, hi]` as a doubly linked list of disjoint, non-adjacent ranges in
 * ascending order, with every list node also indexed by a red-black tree
 * keyed on the range minimum.  The nodes live in a `MemPool<Node>`.
 *
 * `Untaken()` is the list read as a sequence of spans; every operation is
 * specified by what it does to that sequence (see spans.dfy), and keeps
 * the tree's in-order walk equal to the list.
 */
module RangeTrees {
  import opened Wrappers
  import opened MemPoolElem
  import opened Spans
  import opened RangeList
  import opened RedBlack
  import opened RangeIndex

  /** The pool's chunk size, `MemPool::new(1024)` in `new_empty`. */
  const ChunkSize: nat := 1024

  /** `new_node`: an unlinked node holding `sp`. */
  function NewNode(sp: Span): Node
  {
    RangeList.Node(Null, Null, sp)
  }

  class RangeTree {
    /** `range[0]`: the least value of the domain. */
    const lo: int
    /** `range[1]`: the greatest value of the domain. */
    const hi: int
    const list: List
    const pool: MemPool<Node>
    /** `root`: the index over the list nodes, keyed on `range[0]`. */
    var root: Tree<Ptr>

    /** The list is linked, and the tree indexes exactly its nodes, in list order. */
    ghost predicate Core()
      reads this, list, pool
    {
      && list.Valid(pool) && pool.chunkSize == ChunkSize && lo <= hi
      && Inorder(root) == list.order && IsLlrb(root)
    }

    /** The untaken ranges, in list order. */
    ghost function Untaken(): seq<Span>
      reads list, pool
      requires list.Valid(pool)
    {
      RangesOf(pool.chunks, list.order)
    }

    /** `Core`, and the ranges are ascending, disjoint, non-adjacent and within the domain. */
    ghost predicate Valid()
      reads this, list, pool
    {
      Core() && WellFormed(Untaken(), lo, hi)
    }

    /** `new(range, full)`: nothing untaken when `full`, else the whole domain. */
    constructor (lo: int, hi: int, full: bool)
      requires lo <= hi
      ensures Valid() && this.lo == lo && this.hi == hi
      ensures Untaken() == if full then [] else [Span(lo, hi)]
      ensures fresh(list) && fresh(pool)
    {
      this.lo := lo;
      this.hi := hi;
      list := new List();
      pool := new MemPool(ChunkSize, FreeLink, FreeRelink, Blank());
      root := Leaf;
      new;
      if !full {
        NodeAddFront(Span(lo, hi));
      }
    }

    /** `clear(full)`: as a fresh `new(range, full)`; the pool keeps only its first chunk. */
    method Clear(full: bool)
      requires Valid()
      modifies this, list, pool
      ensures Valid()
      ensures Untaken() == if full then [] else [Span(lo, hi)]
      ensures full ==> pool.chunks == [[]] && pool.chain == []
    {
      list.Clear(pool);
      root := Leaf;
      pool.Clear();
      if !full {
        NodeAddFront(Span(lo, hi));
      }
    }

    // -------------------------------------------------------------------
    // Node bookkeeping
    // -------------------------------------------------------------------

    /** `node_alloc(new_node(sp))`: a node for `sp` from the pool, not yet in the list. */
    method NodeAlloc(sp: Span) returns (p: Ptr)
      requires Core()
      modifies pool
      ensures Core() && Untaken() == old(Untaken())
      ensures pool.Live(p) && pool.Get(p) == NewNode(sp) && p !in list.order
    {
      ghost var c0, chain0, free0 := pool.chunks, pool.chain, pool.free;
      p := pool.AllocElemFrom(NewNode(sp));
      if free0 == Null {
        AllocFresh(c0, ChunkSize, NewNode(sp), list.order, list.first, list.last);
      } else {
        AllocReused(c0, chain0, NewNode(sp), list.order, list.first, list.last);
      }
    }

    /**
     * `tree_insert`: index `node`, already linked into the list at position
     * `j` of the order `o` the tree holds.
     */
    method TreeInsert(node: Ptr, ghost o: seq<Ptr>, ghost j: nat)
      requires list.Valid(pool) && pool.chunkSize == ChunkSize && lo <= hi
      requires IsLlrb(root) && Inorder(root) == o
      requires j <= |o| && list.order == InsertAt(o, j, node)
      requires WellFormed(Untaken(), lo, hi)
      modifies this
      ensures Valid() && Untaken() == old(Untaken())
    {
      assert this as object != list as object && this as object != pool as object;
      ghost var c, n := pool.chunks, list.order;
      TreeInsertAt(root, c, o, j, node, n, lo, hi);
      root := InsertRoot(root, node, KeyOf(pool.chunks));
      assert pool.chunks == c && list.order == n && Inorder(root) == n && IsLlrb(root);
      assert list.Valid(pool) && pool.chunkSize == ChunkSize;
      assert Core();
    }

    /** `tree_remove`: drop `node` from the index. */
    method TreeRemove(node: Ptr)
      requires list.Valid(pool) && IsLlrb(root) && Inorder(root) == list.order && node in list.order
      requires Increasing(list.order, KeyOf(pool.chunks))
      modifies this
      ensures var i := IndexOf(list.order, node);
        IsLlrb(root) && Inorder(root) == list.order[..i] + list.order[i + 1..]
    {
      assert this as object != list as object && this as object != pool as object;
      TreeRemoveAt(root, pool.chunks, list.order, IndexOf(list.order, node));
      root := RemoveRoot(root, node, KeyOf(pool.chunks));
    }

    /** `node_add_front(sp)`. */
    method NodeAddFront(sp: Span)
      requires Core() && WellFormed([sp] + Untaken(), lo, hi)
      modifies this, list, pool
      ensures Valid() && Untaken() == [sp] + old(Untaken())
    {
      assert this as object != list as object && this as object != pool as object;
      var node := NodeAlloc(sp);
      ghost var o, c1 := list.order, pool.chunks;
      list.PushFront(pool, node);
      PushedFront(c1, pool.chunks, o, node, Around(list.order, 0));
      TreeInsert(node, o, 0);
    }

    /** `node_add_back(sp)`. */
    method NodeAddBack(sp: Span)
      requires Core() && WellFormed(Untaken() + [sp], lo, hi)
      modifies this, list, pool
      ensures Valid() && Untaken() == old(Untaken()) + [sp]
    {
      assert this as object != list as object && this as object != pool as object;
      var node := NodeAlloc(sp);
      ghost var o, c1 := list.order, pool.chunks;
      list.PushBack(pool, node);
      PushedBack(c1, pool.chunks, o, node, Around(list.order, |list.order| - 1));
      TreeInsert(node, o, |o|);
    }

    /** `node_add_after(prev, sp)`: a new node right after the list node `prev`. */
    method NodeAddAfter(prev: Ptr, sp: Span)
      requires Core() && prev in list.order
      requires var i := IndexOf(list.order, prev);
        WellFormed(Untaken()[..i + 1] + [sp] + Untaken()[i + 1..], lo, hi)
      modifies this, list, pool
      ensures var i := IndexOf(old(list.order), prev);
        Valid() && Untaken() == old(Untaken()[..i + 1] + [sp] + Untaken()[i + 1..])
    {
      ghost var i := IndexOf(list.order, prev);
      assert InChunks(pool.chunks, list.order[i]);
      assert this as object != list as object && this as object != pool as object;
      var node := NodeAlloc(sp);
      ghost var o, c1 := list.order, pool.chunks;
      list.PushAfter(pool, prev, node);
      PushedAt(c1, pool.chunks, o, i + 1, node, Around(list.order, IndexOf(list.order, node)));
      TreeInsert(node, o, i + 1);
    }

    /** `node_add_before(next, sp)`: a new node right before the list node `next`. */
    method NodeAddBefore(next: Ptr, sp: Span)
      requires Core() && next in list.order
      requires var i := IndexOf(list.order, next);
        WellFormed(Untaken()[..i] + [sp] + Untaken()[i..], lo, hi)
      modifies this, list, pool
      ensures var i := IndexOf(old(list.order), next);
        Valid() && Untaken() == old(Untaken()[..i] + [sp] + Untaken()[i..])
    {
      ghost var i := IndexOf(list.order, next);
      assert InChunks(pool.chunks, list.order[i]);
      assert this as object != list as object && this as object != pool as object;
      var node := NodeAlloc(sp);
      ghost var o, c1 := list.order, pool.chunks;
      list.PushBefore(pool, next, node);
      PushedAt(c1, pool.chunks, o, i, node, Around(list.order, IndexOf(list.order, node)));
      TreeInsert(node, o, i);
    }

    /** `node_remove(node)`: unindex, unlink and free `node`. */
    method NodeRemove(node: Ptr)
      requires Core() && node in list.order
      requires Increasing(list.order, KeyOf(pool.chunks))
      requires var i := IndexOf(list.order, node);
        WellFormed(Untaken()[..i] + Untaken()[i + 1..], lo, hi)
      modifies this, list, pool
      ensures var i := IndexOf(old(list.order), node);
        Valid() && Untaken() == old(Untaken()[..i] + Untaken()[i + 1..])
      ensures pool.free == node
    {
      assert this as object != list as object && this as object != pool as object;
      assert list as object != pool as object;
      ghost var o, c0, i := list.order, pool.chunks, IndexOf(list.order, node);
      TreeRemove(node);
      assert InChunks(pool.chunks, list.order[i]);
      list.Remove(pool, node);
      assert list.order == o[..i] + o[i + 1..];
      RemovedRanges(c0, pool.chunks, o, i, Neighbours(o, i));
      RemovedAbsent(o, i);
      NodeFree(node);
    }

    /** `node_free(node)`: return an unlinked node to the pool. */
    method NodeFree(node: Ptr)
      requires list.Valid(pool) && pool.Live(node) && node !in list.order
      modifies pool
      ensures list.Valid(pool) && Untaken() == old(Untaken())
      ensures pool.free == node
    {
      ghost var c1 := pool.chunks;
      pool.FreeElem(node);
      StoreOutside(c1, list.order, list.first, list.last, node, pool.relink(Elem(c1, node), node, old(pool.free)));
    }

    /** A store through a list node, `(*node).range = sp`. */
    method WriteRange(node: Ptr, sp: Span)
      requires Core() && node in list.order
      modifies pool
      ensures Core()
      ensures Untaken() == old(Untaken())[IndexOf(list.order, node) := sp]
    {
      assert this as object != pool as object && list as object != pool as object;
      ghost var o, c0, i := list.order, pool.chunks, IndexOf(list.order, node);
      var n := pool.Get(node);
      StoreRange(c0, o, list.first, list.last, i, sp);
      pool.Write(node, n.(range := sp));
      assert list.order == o && Linked(pool.chunks, o, list.first, list.last);
      assert list.Valid(pool) && pool.chunkSize == ChunkSize;
      assert Core();
    }

    // -------------------------------------------------------------------
    // Lookups
    // -------------------------------------------------------------------

    /**
     * `find_node_from_value(v)`: the list node whose range holds `v`, found
     * through the tree as the node of greatest key not above `v`; it is the
     * node the list scan finds first, and `Null` when no range holds `v`.
     */
    method FindNodeFromValue(v: int) returns (p: Ptr)
      requires Valid()
      ensures p == AtIndex(list.order, FindIndex(Untaken(), v))
      ensures p != Null <==> Covers(Untaken(), v)
      ensures p != Null ==> p in list.order && InChunks(pool.chunks, p) && Contains(pool.Get(p).range, v)
      ensures p != Null ==> IndexOf(list.order, p) == FindIndex(Untaken(), v).value
    {
      ghost var o, c := list.order, pool.chunks;
      LowerFinds(c, o, root, lo, hi, v);
      ghost var f := FindIndex(RangesOf(c, o), v);
      var n := GetOrLower(root, v, KeyOf(pool.chunks));
      if n.Some? && v >= pool.Get(n.value).range.min && v <= pool.Get(n.value).range.max {
        p := n.value;
        assert p == AtIndex(o, f);
      } else {
        p := Null;
        assert p == AtIndex(o, f);
      }
    }

    /**
     * `find_node_pair_around_value(v)`: the list nodes just below and just
     * above `v`, as `PairAround` gives them on the list, `Null` standing for
     * no node.  The source dereferences the first node, and for `v` equal
     * to its minimum it dereferences that node's null `prev`: both are
     * excluded.
     */
    method FindNodePairAroundValue(v: int) returns (prev: Ptr, next: Ptr)
      requires Valid() && list.first != Null
      requires v != pool.Get(list.first).range.min
      ensures Untaken() != []
      ensures prev == AtIndex(list.order, PairAround(Untaken(), v).0)
      ensures next == AtIndex(list.order, PairAround(Untaken(), v).1)
    {
      ghost var o, c, s := list.order, pool.chunks, Untaken();
      var f := pool.Get(list.first);
      var l := pool.Get(list.last);
      assert f.range == s[0] && l.range == s[|s| - 1];
      if v < f.range.min {
        return Null, list.first;
      } else if v > l.range.max {
        return list.last, Null;
      }
      TreePair(c, o, list.first, list.last, root, lo, hi, v);
      var n := GetOrUpper(root, v, KeyOf(pool.chunks));
      prev, next := Null, Null;
      if n.Some? {
        var nextNode := pool.Get(n.value);
        var prevNode := pool.Get(nextNode.prev);
        if prevNode.range.max < v && nextNode.range.min > v {
          prev, next := nextNode.prev, n.value;
        }
      }
    }

    // -------------------------------------------------------------------
    // Taking values
    // -------------------------------------------------------------------

    /**
     * `take_impl(v, node)`: take `v` out of the range of `node`, which holds
     * it, by raising its minimum, lowering its maximum, removing it when it
     * holds `v` alone, or splitting it in two around `v`.
     */
    method TakeImpl(v: int, node: Ptr)
      requires Valid() && node in list.order
      requires Contains(Untaken()[IndexOf(list.order, node)], v)
      modifies this, list, pool
      ensures Valid()
      ensures Untaken() == TakeAt(old(Untaken()), IndexOf(old(list.order), node), v)
    {
      assert this as object != list as object && this as object != pool as object;
      assert list as object != pool as object;
      ghost var s, i := Untaken(), IndexOf(list.order, node);
      TakeAtSpec(s, lo, hi, i, v);
      var sp := pool.Get(node).range;
      assert sp == s[i];
      if sp.min == v {
        if sp.max != v {
          WriteRange(node, Span(v + 1, sp.max));
          assert Untaken() == TakeAt(s, i, v);
        } else {
          SpansOrder(pool.chunks, list.order, lo, hi);
          NodeRemove(node);
          assert Untaken() == TakeAt(s, i, v);
        }
      } else if sp.max == v {
        WriteRange(node, Span(sp.min, v - 1));
        assert Untaken() == TakeAt(s, i, v);
      } else {
        TakeSplit(v, node);
      }
    }

    /** The last case of `take_impl`: `v` strictly inside the range of `node` splits it in two. */
    method TakeSplit(v: int, node: Ptr)
      requires Valid() && node in list.order
      requires var sp := Untaken()[IndexOf(list.order, node)]; sp.min < v < sp.max
      modifies this, list, pool
      ensures Valid()
      ensures Untaken() == TakeAt(old(Untaken()), IndexOf(old(list.order), node), v)
    {
      assert list as object != pool as object;
      ghost var s, i := Untaken(), IndexOf(list.order, node);
      TakeAtSpec(s, lo, hi, i, v);
      TakeSplitShape(s, i, v);
      var sp := pool.Get(node).range;
      assert sp == s[i];
      WriteRange(node, Span(sp.min, v - 1));
      assert Untaken() == s[i := Span(s[i].min, v - 1)] && IndexOf(list.order, node) == i;
      NodeAddAfter(node, Span(v + 1, sp.max));
    }

    /**
     * `take(v)`: take a value that is not yet taken.  The source only
     * debug-asserts that `v` is untaken and would dereference a null node
     * otherwise, so it is required.
     */
    method Take(v: int)
      requires Valid() && Covers(Untaken(), v)
      modifies this, list, pool
      ensures Valid()
      ensures Untaken() == TakeAt(old(Untaken()), FindIndex(old(Untaken()), v).value, v)
      ensures forall u :: Covers(Untaken(), u) <==> old(Covers(Untaken(), u)) && u != v
    {
      assert this as object != list as object && this as object != pool as object;
      assert list as object != pool as object;
      ghost var s := Untaken();
      ghost var k := FindIndex(s, v).value;
      TakeAtSpec(s, lo, hi, k, v);
      var node := FindNodeFromValue(v);
      assert node in list.order && IndexOf(list.order, node) == k;
      assert Untaken() == s && Contains(s[k], v);
      TakeImpl(v, node);
    }

    /**
     * `retake(v)`: take `v` when it is untaken, answering whether it was;
     * a taken `v` leaves everything as it was.
     */
    method Retake(v: int) returns (added: bool)
      requires Valid()
      modifies this, list, pool
      ensures Valid()
      ensures added == old(Covers(Untaken(), v))
      ensures added ==> Untaken() == TakeAt(old(Untaken()), FindIndex(old(Untaken()), v).value, v)
      ensures !added ==> Untaken() == old(Untaken())
      ensures forall u :: Covers(Untaken(), u) <==> old(Covers(Untaken(), u)) && u != v
    {
      assert list as object != pool as object;
      ghost var s, o := Untaken(), list.order;
      var node := FindNodeFromValue(v);
      if node != Null {
        ghost var k := FindIndex(s, v).value;
        IndexOfAt(o, k);
        TakeAtSpec(s, lo, hi, k, v);
        TakeImpl(v, node);
        assert Untaken() == TakeAt(s, k, v);
        added := true;
      } else {
        assert Untaken() == s && !Covers(s, v);
        added := false;
      }
    }

    /**
     * `take_any()`: take the least untaken value, the minimum of the first
     * range, or answer `None` when every value is taken.
     */
    method TakeAny() returns (r: Option<int>)
      requires Valid()
      modifies this, list, pool
      ensures Valid()
      ensures r.None? <==> old(Untaken()) == []
      ensures r.Some? ==> r.value == old(Untaken())[0].min
      ensures r.Some? ==> old(Covers(Untaken(), r.value))
      ensures r.Some? ==> forall u :: old(Covers(Untaken(), u)) ==> r.value <= u
      ensures r.Some? ==> Untaken() == TakeAt(old(Untaken()), 0, r.value)
      ensures r.None? ==> Untaken() == old(Untaken())
    {
      ghost var s := Untaken();
      if list.first != Null {
        TakeAnyLeast(s, lo, hi);
        var v := TakeFirst();
        r := Some(v);
      } else {
        r := None;
      }
    }

    /** The non-empty case of `take_any`: raise the first minimum, or drop the first node. */
    method TakeFirst() returns (v: int)
      requires Valid() && list.first != Null
      modifies this, list, pool
      ensures Valid() && old(Untaken()) != []
      ensures v == old(Untaken())[0].min
      ensures Untaken() == TakeAt(old(Untaken()), 0, v)
    {
      assert this as object != list as object && this as object != pool as object;
      assert list as object != pool as object;
      ghost var s, o := Untaken(), list.order;
      var node := list.first;
      var sp := pool.Get(node).range;
      assert sp == s[0] && node in o && IndexOf(o, node) == 0;
      v := sp.min;
      assert Contains(Untaken()[IndexOf(list.order, node)], v);
      TakeImpl(v, node);
    }

    // -------------------------------------------------------------------
    // Queries
    // -------------------------------------------------------------------

    /** `has(v)`: `v` is untaken; values outside the domain count as untaken. */
    method Has(v: int) returns (b: bool)
      requires Valid()
      ensures b <==> v < lo || v > hi || Covers(Untaken(), v)
    {
      if v < lo || v > hi {
        return true;
      }
      var node := FindNodeFromValue(v);
      b := node != Null;
    }

    /** `is_empty()`: nothing is taken, the one range being the whole domain. */
    method IsEmpty() returns (b: bool)
      requires Valid()
      ensures b == Spans.IsEmpty(Untaken(), lo, hi)
      ensures b <==> forall u :: lo <= u <= hi ==> Covers(Untaken(), u)
    {
      IsEmptySpec(Untaken(), lo, hi);
      if list.first == Null {
        return false;
      }
      var sp := pool.Get(list.first).range;
      b := list.first == list.last && lo == sp.min && hi == sp.max;
      if |list.order| > 1 {
        NoDupAt(list.order, 0, |list.order| - 1);
      }
    }

    /** `is_full()`: every value is taken, the list being empty. */
    method IsFull() returns (b: bool)
      requires Valid()
      ensures b <==> Untaken() == []
      ensures b <==> forall u :: lo <= u <= hi ==> !Covers(Untaken(), u)
    {
      IsFullSpec(Untaken(), lo, hi);
      b := list.first == Null;
    }

    // -------------------------------------------------------------------
    // Releasing values
    // -------------------------------------------------------------------

    /**
     * `release(v)`: give back a taken value.  The source only
     * debug-asserts that `v` was taken; here that is the precondition.
     */
    method Release(v: int)
      requires Valid() && lo <= v <= hi && !Covers(Untaken(), v)
      modifies this, list, pool
      ensures Valid()
      ensures Untaken() == ReleaseSpans(old(Untaken()), v)
      ensures forall u :: Covers(Untaken(), u) <==> old(Covers(Untaken(), u)) || u == v
    {
      ghost var s := Untaken();
      var prev, next := Null, Null;
      if list.first != Null {
        assert pool.Get(list.first).range == s[0] && !Contains(s[0], v);
        prev, next := FindNodePairAroundValue(v);
      } else {
        assert s == [];
      }
      ReleaseAt(v, prev, next);
      ReleaseSpec(s, lo, hi, v);
    }

    /** The four cases of `release`, given the nodes around `v`. */
    method ReleaseAt(v: int, prev: Ptr, next: Ptr)
      requires Valid() && lo <= v <= hi && !Covers(Untaken(), v)
      requires Untaken() == [] ==> prev == Null && next == Null
      requires Untaken() != [] ==> prev == AtIndex(list.order, PairAround(Untaken(), v).0)
      requires Untaken() != [] ==> next == AtIndex(list.order, PairAround(Untaken(), v).1)
      modifies this, list, pool
      ensures Valid() && Untaken() == ReleaseSpans(old(Untaken()), v)
    {
      ghost var s := Untaken();
      ReleaseSpec(s, lo, hi, v);
      if s != [] {
        ReleaseNodes(pool.chunks, list.order, s, lo, hi, v, prev, next);
      }
      var touchPrev := prev != Null && pool.Get(prev).range.max + 1 == v;
      var touchNext := next != Null && pool.Get(next).range.min - 1 == v;
      assert touchPrev == (prev != Null && Untaken()[IndexOf(list.order, prev)].max + 1 == v);
      assert touchNext == (next != Null && Untaken()[IndexOf(list.order, next)].min - 1 == v);
      if touchPrev || touchNext {
        ReleaseTouching(v, prev, next, touchPrev, touchNext, ReleaseSpans(s, v));
      } else {
        ReleaseApart(v, prev, next, ReleaseSpans(s, v));
      }
    }

    /** Cases 1 to 3 of `release`: `v` is next to the span of `prev`, of `next`, or of both. */
    method ReleaseTouching(v: int, prev: Ptr, next: Ptr, touchPrev: bool, touchNext: bool, ghost t: seq<Span>)
      requires Valid() && WellFormed(t, lo, hi) && (touchPrev || touchNext)
      requires touchPrev ==> prev in list.order && Untaken()[IndexOf(list.order, prev)].max + 1 == v
      requires touchNext ==> next in list.order && Untaken()[IndexOf(list.order, next)].min - 1 == v
      requires touchPrev && touchNext ==> var p := IndexOf(list.order, prev);
        IndexOf(list.order, next) == p + 1 < |list.order|
        && t == Untaken()[..p] + [Span(Untaken()[p].min, Untaken()[p + 1].max)] + Untaken()[p + 2..]
      requires touchPrev && !touchNext ==> var p := IndexOf(list.order, prev);
        t == Untaken()[p := Span(Untaken()[p].min, v)]
      requires !touchPrev && touchNext ==> var n := IndexOf(list.order, next);
        t == Untaken()[n := Span(v, Untaken()[n].max)]
      modifies this, list, pool
      ensures Valid() && Untaken() == t
    {
      if touchPrev && touchNext {
        // case 1
        ghost var s, p := Untaken(), IndexOf(list.order, prev);
        assert t == s[..p] + [Span(s[p].min, s[p + 1].max)] + s[p + 2..];
        ReleaseMerge(v, prev, next, p);
        assert Untaken() == t;
      } else if touchPrev {
        // case 2
        var sp := pool.Get(prev).range;
        ReleaseGrow(prev, Span(sp.min, v), t);
      } else {
        // case 3
        var sp := pool.Get(next).range;
        ReleaseGrow(next, Span(v, sp.max), t);
      }
    }

    /** Cases 2 and 3 of `release`: the span of `node` grows by one value at one end. */
    method ReleaseGrow(node: Ptr, sp: Span, ghost t: seq<Span>)
      requires Valid() && node in list.order && WellFormed(t, lo, hi)
      requires t == Untaken()[IndexOf(list.order, node) := sp]
      modifies pool
      ensures Valid() && Untaken() == t
    {
      WriteRange(node, sp);
    }

    /** Case 4 of `release`: `v` becomes a span of its own, placed by whichever neighbour there is. */
    method ReleaseApart(v: int, prev: Ptr, next: Ptr, ghost t: seq<Span>)
      requires Core() && WellFormed(t, lo, hi)
      requires prev != Null ==> prev in list.order && var p := IndexOf(list.order, prev);
        t == Untaken()[..p + 1] + [Span(v, v)] + Untaken()[p + 1..]
      requires prev == Null && next != Null ==> next in list.order && var n := IndexOf(list.order, next);
        t == Untaken()[..n] + [Span(v, v)] + Untaken()[n..]
      requires prev == Null && next == Null ==> t == Untaken() + [Span(v, v)]
      modifies this, list, pool
      ensures Valid() && Untaken() == t
    {
      if prev != Null {
        NodeAddAfter(prev, Span(v, v));
      } else if next != Null {
        NodeAddBefore(next, Span(v, v));
      } else {
        NodeAddBack(Span(v, v));
      }
    }

    /** Case 1 of `release`: `v` fills the one-value gap between `prev` and `next`. */
    method ReleaseMerge(v: int, prev: Ptr, next: Ptr, ghost p: nat)
      requires Valid() && p + 1 < |list.order| && list.order[p] == prev && list.order[p + 1] == next
      requires Untaken()[p].max + 1 == v && Untaken()[p + 1].min - 1 == v
      requires var s := Untaken();
        WellFormed(s[..p] + [Span(s[p].min, s[p + 1].max)] + s[p + 2..], lo, hi)
      modifies this, list, pool
      ensures Valid()
      ensures var s := old(Untaken());
        Untaken() == s[..p] + [Span(s[p].min, s[p + 1].max)] + s[p + 2..]
    {
      assert this as object != list as object && this as object != pool as object;
      ghost var s, o := Untaken(), list.order;
      IndexOfAt(o, p);
      var sp := Span(pool.Get(prev).range.min, pool.Get(next).range.max);
      assert sp == Span(s[p].min, s[p + 1].max);
      WriteRange(prev, sp);
      RemoveJoined(next, p, s, sp);
    }

    /**
     * The rest of case 1: the span at `p` has been widened to `sp`, over the
     * span of `next` at `p + 1`, which now goes.
     */
    method RemoveJoined(next: Ptr, ghost p: nat, ghost s: seq<Span>, ghost sp: Span)
      requires Core() && p + 1 < |list.order| == |s| && list.order[p + 1] == next
      requires WellFormed(s, lo, hi) && Untaken() == s[p := sp] && sp.min == s[p].min
      requires WellFormed(s[..p] + [sp] + s[p + 2..], lo, hi)
      modifies this, list, pool
      ensures Valid() && Untaken() == s[..p] + [sp] + s[p + 2..]
    {
      assert this as object != list as object && this as object != pool as object;
      assert list as object != pool as object;
      IndexOfAt(list.order, p + 1);
      WidenedKeys(pool.chunks, list.order, s, lo, hi, p, sp);
      MergeShape(s, p, sp);
      NodeRemove(next);
    }

    // -------------------------------------------------------------------
    // Listing the ranges
    // -------------------------------------------------------------------

    /**
     * `ranges_taken_as_vec()`: the taken values as inclusive ranges, read off
     * the list: the part of the domain before the first span, the gap after
     * each span but the last, and the part after the last span.
     */
    method RangesTakenAsVec() returns (r: seq<Span>)
      requires Valid()
      ensures r == Gaps(Untaken(), lo, hi)
      ensures WellFormed(r, lo, hi)
      ensures forall u :: Covers(r, u) <==> lo <= u <= hi && !Covers(Untaken(), u)
    {
      ghost var s := Untaken();
      GapsSpec(s, lo, hi);
      var empty := IsEmpty();
      if empty {
        r := [];
        assert Gaps(s, lo, hi) == [];
      } else if list.first == Null {
        r := [Span(lo, hi)];
        assert s == [];
      } else {
        r := GapsOfList();
      }
    }

    /**
     * `ranges_taken_as_vec` on a non-empty list: the part of the domain below
     * the first span, the gaps between spans, the part above the last span.
     */
    method GapsOfList() returns (r: seq<Span>)
      requires Linked(pool.chunks, list.order, list.first, list.last) && list.first != Null
      ensures r == Gaps(RangesOf(pool.chunks, list.order), lo, hi)
    {
      ghost var s := RangesOf(pool.chunks, list.order);
      var f := pool.Get(list.first);
      var l := pool.Get(list.last);
      assert f.range == s[0] && l.range == s[|s| - 1];
      var before: seq<Span> := [];
      if f.range.min != lo {
        before := [Span(lo, f.range.min - 1)];
      }
      var inner := InnerGapsOfList();
      var after: seq<Span> := [];
      if l.range.max != hi {
        after := [Span(l.range.max + 1, hi)];
      }
      r := before + inner + after;
      GapsParts(s, lo, hi, before, after);
    }

    /** The loop of `ranges_taken_as_vec`: the gap between each node and the next. */
    method InnerGapsOfList() returns (r: seq<Span>)
      requires list.order != [] && list.first == list.order[0]
      requires forall i :: 0 <= i < |list.order| ==> InChunks(pool.chunks, list.order[i])
      requires forall i :: 0 <= i < |list.order| ==> Elem(pool.chunks, list.order[i]).next == Succ(list.order, i)
      ensures r == InnerGaps(RangesOf(pool.chunks, list.order))
    {
      ghost var o, s := list.order, RangesOf(pool.chunks, list.order);
      r := [];
      var prev := list.first;
      var next := pool.Get(prev).next;
      ghost var k := 0;
      assert s[0..] == s;
      while next != Null
        invariant k < |o| && prev == o[k] && next == Succ(o, k)
        invariant r + InnerGaps(s[k..]) == InnerGaps(s)
        decreases |o| - k
      {
        assert k + 1 < |o| && next == o[k + 1];
        var p := pool.Get(prev);
        var n := pool.Get(next);
        assert p.range == s[k] && n.range == s[k + 1];
        ghost var r0 := r;
        r := r + [Span(p.range.max + 1, n.range.min - 1)];
        InnerGapsStep(s, k, r0, r);
        prev := next;
        next := n.next;
        k := k + 1;
      }
      InnerGapsDone(s, k, r);
    }

    /** `ranges_untaken_as_vec()`: the untaken ranges, read off the list from `first` on. */
    method RangesUntakenAsVec() returns (r: seq<Span>)
      requires Valid()
      ensures r == Untaken()
      ensures WellFormed(r, lo, hi)
    {
      ghost var s := Untaken();
      var empty := IsEmpty();
      r := [];
      if empty {
        r := r + [Span(lo, hi)];
      } else if list.first == Null {
        assert s == [];
      } else {
        r := RangesOfList();
      }
    }

    /** The loop of `ranges_untaken_as_vec()`: the range of every node, from `first` on. */
    method RangesOfList() returns (r: seq<Span>)
      requires list.order != [] && list.first == list.order[0]
      requires forall i :: 0 <= i < |list.order| ==> InChunks(pool.chunks, list.order[i])
      requires forall i :: 0 <= i < |list.order| ==> Elem(pool.chunks, list.order[i]).next == Succ(list.order, i)
      ensures r == RangesOf(pool.chunks, list.order)
    {
      ghost var o, c := list.order, pool.chunks;
      r := [];
      var node := list.first;
      ghost var k := 0;
      while node != Null
        invariant k <= |o| && node == (if k < |o| then o[k] else Null)
        invariant r == RangesOf(c, o)[..k]
        decreases |o| - k
      {
        assert k < |o| && node == o[k];
        var n := pool.Get(node);
        assert n == Elem(c, o[k]) && n.next == Succ(o, k);
        RangesPrefix(c, o, k);
        r := r + [n.range];
        node := n.next;
        k := k + 1;
      }
      assert RangesOf(c, o)[..k] == RangesOf(c, o);
    }
  }
}
