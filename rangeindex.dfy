/**
 * How the parts of a range tree fit together.  The list nodes live in the
 * pool; the red-black index is keyed by each node's `range[0]`, read from
 * the pool (`key_cmp` in lib.rs); and the spans of the range tree are the
 * ranges of the list nodes in list order.  The lemmas here carry facts
 * about a pool state over to the next one, and show that the tree lookups
 * of `find_node_from_value` and `find_node_pair_around_value` agree with
 * the list scans that specify them.
 */
module RangeIndex {
  import opened Wrappers
  import opened MemPoolElem
  import opened Spans
  import opened RangeList
  import opened RedBlack

  /** The key of a node: `range[0]`; an address outside the pool has none and gets 0. */
  function KeyOf(chunks: seq<seq<Node>>): Ptr -> int
  {
    p => if InChunks(chunks, p) then Elem(chunks, p).range.min else 0
  }

  /** The address at position `k`, or `Null` for no position. */
  function AtIndex(o: seq<Ptr>, k: Option<nat>): Ptr
  {
    if k.Some? && k.value < |o| then o[k.value] else Null
  }

  // ---------------------------------------------------------------------
  // Keys
  // ---------------------------------------------------------------------

  /** Keys ascend along the list whenever the span minima of a well-formed list do. */
  lemma IncreasingFromMins(c: seq<seq<Node>>, o: seq<Ptr>, t: seq<Span>, lo: int, hi: int)
    requires forall i :: 0 <= i < |o| ==> InChunks(c, o[i])
    requires WellFormed(t, lo, hi) && |t| == |o|
    requires forall i :: 0 <= i < |o| ==> RangesOf(c, o)[i].min == t[i].min
    ensures Increasing(o, KeyOf(c))
  {
    var s := RangesOf(c, o);
    forall i, j | 0 <= i < j < |o| ensures KeyOf(c)(o[i]) < KeyOf(c)(o[j]) {
      Separated(t, lo, hi, i, j);
      assert KeyOf(c)(o[i]) == s[i].min && KeyOf(c)(o[j]) == s[j].min;
    }
  }

  /** Widening a span without moving its minimum keeps the keys ascending. */
  lemma WidenedKeys(c: seq<seq<Node>>, o: seq<Ptr>, s: seq<Span>, lo: int, hi: int, p: nat, sp: Span)
    requires forall i :: 0 <= i < |o| ==> InChunks(c, o[i])
    requires WellFormed(s, lo, hi) && p < |s| == |o| && sp.min == s[p].min
    requires RangesOf(c, o) == s[p := sp]
    ensures Increasing(o, KeyOf(c))
  {
    assert forall i :: 0 <= i < |o| ==> RangesOf(c, o)[i].min == s[i].min;
    IncreasingFromMins(c, o, s, lo, hi);
  }

  /** One more node read off the list adds its range to the ranges read so far. */
  lemma RangesPrefix(c: seq<seq<Node>>, o: seq<Ptr>, k: nat)
    requires (forall i :: 0 <= i < |o| ==> InChunks(c, o[i])) && k < |o|
    ensures RangesOf(c, o)[..k + 1] == RangesOf(c, o)[..k] + [Elem(c, o[k]).range]
  {
    var s := RangesOf(c, o);
    assert s[..k + 1] == s[..k] + [s[k]];
  }

  /** The key of each list node is the minimum of its range. */
  lemma KeysAre(c: seq<seq<Node>>, o: seq<Ptr>)
    requires forall i :: 0 <= i < |o| ==> InChunks(c, o[i])
    ensures forall i :: 0 <= i < |o| ==> KeyOf(c)(o[i]) == RangesOf(c, o)[i].min
  {
  }

  /** A well-formed list of ranges orders the tree whose symmetric order is the list. */
  lemma SpansOrder(c: seq<seq<Node>>, o: seq<Ptr>, lo: int, hi: int)
    requires forall i :: 0 <= i < |o| ==> InChunks(c, o[i])
    requires WellFormed(RangesOf(c, o), lo, hi)
    ensures Increasing(o, KeyOf(c))
  {
    IncreasingFromMins(c, o, RangesOf(c, o), lo, hi);
  }

  /**
   * Ordered insertion puts `x` where the ascending keys say: if inserting
   * `x` at `j` keeps the keys ascending, `insert_root` inserts it at `j`.
   */
  lemma {:induction false} InsertSortedAt<R>(s: seq<R>, j: nat, x: R, key: R -> int)
    requires j <= |s| && Increasing(s[..j] + [x] + s[j..], key)
    ensures InsertSorted(s, x, key) == s[..j] + [x] + s[j..]
    decreases j
  {
    var t := s[..j] + [x] + s[j..];
    if j == 0 {
      assert t == [x] + s;
      if s != [] {
        assert t[0] == x && t[1] == s[0];
      }
    } else {
      var u := s[1..];
      assert t[0] == s[0] && t[j] == x;
      assert t[1..] == u[..j - 1] + [x] + u[j - 1..];
      IncreasingTail(t, key);
      InsertSortedAt(u, j - 1, x, key);
      assert t == [s[0]] + t[1..];
    }
  }

  /** Inserting at `j` with ascending keys: the rest ascends, and no key equals the new one. */
  lemma InsertKeys<R>(s: seq<R>, j: nat, x: R, key: R -> int)
    requires j <= |s| && Increasing(s[..j] + [x] + s[j..], key)
    ensures Increasing(s, key)
    ensures forall y :: y in s ==> key(y) != key(x)
  {
    var t := s[..j] + [x] + s[j..];
    assert forall k :: 0 <= k < |s| ==> s[k] == t[if k < j then k else k + 1];
    forall y | y in s ensures key(y) != key(x) {
      var k :| 0 <= k < |s| && s[k] == y;
      assert t[j] == x;
    }
  }

  // ---------------------------------------------------------------------
  // Ranges
  // ---------------------------------------------------------------------

  /** Every element keeps its range from `c1` to `c2`: the list's ranges are the same. */
  lemma RangesSame(c1: seq<seq<Node>>, c2: seq<seq<Node>>, o: seq<Ptr>)
    requires forall i :: 0 <= i < |o| ==> InChunks(c1, o[i])
    requires SameShape(c1, c2) && RangesKept(c1, c2)
    ensures forall i :: 0 <= i < |o| ==> InChunks(c2, o[i])
    ensures RangesOf(c2, o) == RangesOf(c1, o)
  {
    var a, b := RangesOf(c1, o), RangesOf(c2, o);
    assert forall i :: 0 <= i < |o| ==> a[i] == b[i];
  }

  /** The ranges after inserting `x` at position `j`. */
  lemma RangesInsert(c: seq<seq<Node>>, o: seq<Ptr>, j: nat, x: Ptr)
    requires j <= |o| && InChunks(c, x) && forall i :: 0 <= i < |o| ==> InChunks(c, o[i])
    ensures var n := InsertAt(o, j, x);
      && (forall i :: 0 <= i < |n| ==> InChunks(c, n[i]))
      && RangesOf(c, n) == RangesOf(c, o)[..j] + [Elem(c, x).range] + RangesOf(c, o)[j..]
  {
    var n := InsertAt(o, j, x);
    assert forall i :: 0 <= i < |n| ==> n[i] == if i < j then o[i] else if i == j then x else o[i - 1];
    var s, r := RangesOf(c, o), RangesOf(c, n);
    var t := s[..j] + [Elem(c, x).range] + s[j..];
    assert forall i :: 0 <= i < |n| ==> r[i] == t[i];
  }

  /** The ranges after dropping position `i`. */
  lemma RangesRemove(c: seq<seq<Node>>, o: seq<Ptr>, i: nat)
    requires i < |o| && forall k :: 0 <= k < |o| ==> InChunks(c, o[k])
    ensures var n := o[..i] + o[i + 1..];
      && (forall k :: 0 <= k < |n| ==> InChunks(c, n[k]))
      && RangesOf(c, n) == RangesOf(c, o)[..i] + RangesOf(c, o)[i + 1..]
  {
    var n := o[..i] + o[i + 1..];
    assert forall k :: 0 <= k < |n| ==> n[k] == o[if k < i then k else k + 1];
    var s, r := RangesOf(c, o), RangesOf(c, n);
    var t := s[..i] + s[i + 1..];
    assert forall k :: 0 <= k < |n| ==> r[k] == t[k];
  }

  /** A store into an element outside the list keeps the list linked and its ranges. */
  lemma StoreOutside(c: seq<seq<Node>>, o: seq<Ptr>, f: Ptr, l: Ptr, p: Ptr, v: Node)
    requires Linked(c, o, f, l) && InChunks(c, p) && p !in o
    ensures Linked(Store(c, p, v), o, f, l)
    ensures RangesOf(Store(c, p, v), o) == RangesOf(c, o)
  {
    var r := Store(c, p, v);
    forall i | 0 <= i < |o| ensures InChunks(r, o[i]) && Elem(r, o[i]) == Elem(c, o[i]) {
    }
    RangesSameElems(c, r, o);
  }

  /** A store of a new range into the node at position `i`. */
  lemma StoreRange(c: seq<seq<Node>>, o: seq<Ptr>, f: Ptr, l: Ptr, i: nat, sp: Span)
    requires Linked(c, o, f, l) && i < |o|
    ensures var r := Store(c, o[i], Elem(c, o[i]).(range := sp));
      && Linked(r, o, f, l)
      && RangesOf(r, o) == RangesOf(c, o)[i := sp]
  {
    var e := Elem(c, o[i]).(range := sp);
    var r := Store(c, o[i], e);
    assert Linked(r, o, f, l) by {
      StoreAt(c, o, i, e);
      LinksSame(c, r, o, f, l);
    }
    StoreRanges(c, o, i, sp);
  }

  /** Storing a new range into `o[i]` changes the list's ranges at `i` only. */
  lemma StoreRanges(c: seq<seq<Node>>, o: seq<Ptr>, i: nat, sp: Span)
    requires NoDup(o) && i < |o| && forall k :: 0 <= k < |o| ==> InChunks(c, o[k])
    ensures RangesOf(Store(c, o[i], Elem(c, o[i]).(range := sp)), o) == RangesOf(c, o)[i := sp]
  {
    var e := Elem(c, o[i]).(range := sp);
    StoreAt(c, o, i, e);
    var s, t := RangesOf(c, o), RangesOf(Store(c, o[i], e), o);
    assert forall k :: 0 <= k < |o| ==> t[k] == s[i := sp][k];
  }

  /** Nodes that keep their links keep the list linked. */
  lemma LinksSame(c1: seq<seq<Node>>, c2: seq<seq<Node>>, o: seq<Ptr>, f: Ptr, l: Ptr)
    requires Linked(c1, o, f, l)
    requires forall k :: 0 <= k < |o| ==> InChunks(c2, o[k])
    requires forall k :: 0 <= k < |o| ==> Elem(c2, o[k]).next == Elem(c1, o[k]).next && Elem(c2, o[k]).prev == Elem(c1, o[k]).prev
    ensures Linked(c2, o, f, l)
  {
  }

  /** After a store into `o[i]`, every other node of a list without repeats keeps its value. */
  lemma StoreAt(c: seq<seq<Node>>, o: seq<Ptr>, i: nat, e: Node)
    requires NoDup(o) && i < |o| && forall k :: 0 <= k < |o| ==> InChunks(c, o[k])
    ensures forall k :: 0 <= k < |o| ==> InChunks(Store(c, o[i], e), o[k])
    ensures forall k :: 0 <= k < |o| ==> Elem(Store(c, o[i], e), o[k]) == if k == i then e else Elem(c, o[k])
  {
    forall k | 0 <= k < |o| && k != i ensures o[k] != o[i] {
      if k < i { NoDupAt(o, k, i); } else { NoDupAt(o, i, k); }
    }
  }

  /** Elements of the list that keep their value keep the list's ranges. */
  lemma RangesSameElems(c1: seq<seq<Node>>, c2: seq<seq<Node>>, o: seq<Ptr>)
    requires forall i :: 0 <= i < |o| ==> InChunks(c1, o[i])
    requires forall i :: 0 <= i < |o| ==> InChunks(c2, o[i]) && Elem(c2, o[i]) == Elem(c1, o[i])
    ensures RangesOf(c2, o) == RangesOf(c1, o)
  {
    var a, b := RangesOf(c1, o), RangesOf(c2, o);
    assert forall i :: 0 <= i < |o| ==> a[i] == b[i];
  }

  /** A fresh allocation leaves the list linked, with its ranges, and off the pool's free chain. */
  lemma AllocFresh(c: seq<seq<Node>>, size: nat, v: Node, o: seq<Ptr>, f: Ptr, l: Ptr)
    requires Layout(c, size) && Linked(c, o, f, l)
    ensures var r := Appended(c, size, v);
      && Linked(r, o, f, l)
      && RangesOf(r, o) == RangesOf(c, o)
      && NextSlot(c, size) !in o
  {
    var r := Appended(c, size, v);
    AppendedSpec(c, size, v);
    forall i | 0 <= i < |o| ensures InChunks(r, o[i]) && Elem(r, o[i]) == Elem(c, o[i]) {
    }
    RangesSameElems(c, r, o);
  }

  /** Reusing the head of the free chain: the list is linked, keeps its ranges and stays off the rest of the chain. */
  lemma AllocReused(c: seq<seq<Node>>, chain: seq<Ptr>, v: Node, o: seq<Ptr>, f: Ptr, l: Ptr)
    requires Linked(c, o, f, l) && chain != [] && InChunks(c, chain[0])
    requires forall k :: 0 <= k < |o| ==> o[k] !in chain
    ensures Linked(Store(c, chain[0], v), o, f, l)
    ensures RangesOf(Store(c, chain[0], v), o) == RangesOf(c, o)
    ensures chain[0] !in o && forall k :: 0 <= k < |o| ==> o[k] !in chain[1..]
  {
    assert chain[0] in chain;
    StoreOutside(c, o, f, l, chain[0], v);
    forall k | 0 <= k < |o| ensures o[k] !in chain[1..] {
    }
  }

  /** Dropping position `i` of a list without repeats leaves `o[i]` out. */
  lemma RemovedAbsent(o: seq<Ptr>, i: nat)
    requires NoDup(o) && i < |o|
    ensures o[i] !in o[..i] + o[i + 1..]
  {
    NoDupPairs(o);
    var n := o[..i] + o[i + 1..];
    forall k | 0 <= k < |n| ensures n[k] != o[i] {
      assert n[k] == o[if k < i then k else k + 1];
    }
  }

  /** After `free_elem` of a node just unlinked, the other nodes are still off the free chain. */
  lemma FreedOffChain(o: seq<Ptr>, i: nat, chain: seq<Ptr>)
    requires NoDup(o) && i < |o| && forall k :: 0 <= k < |o| ==> o[k] !in chain
    ensures var n := o[..i] + o[i + 1..]; forall k :: 0 <= k < |n| ==> n[k] !in [o[i]] + chain
  {
    RemovedAbsent(o, i);
    var n := o[..i] + o[i + 1..];
    forall k | 0 <= k < |n| ensures n[k] !in [o[i]] + chain {
      assert n[k] == o[if k < i then k else k + 1];
    }
  }

  /** In a list without repeats, the position of `o[k]` is `k`. */
  lemma IndexOfAt(o: seq<Ptr>, k: nat)
    requires NoDup(o) && k < |o|
    ensures IndexOf(o, o[k]) == k
  {
    NoDupPairs(o);
    IndexOfUnique(o, k);
  }

  /**
   * A list push at position `j` that keeps every range adds only the new
   * node's range, at that position.
   */
  lemma PushedAt(c1: seq<seq<Node>>, c2: seq<seq<Node>>, o: seq<Ptr>, j: nat, x: Ptr, touched: set<Ptr>)
    requires j <= |o| && InChunks(c1, x) && forall i :: 0 <= i < |o| ==> InChunks(c1, o[i])
    requires Framed(c1, c2, touched)
    ensures var n := InsertAt(o, j, x);
      && (forall i :: 0 <= i < |n| ==> InChunks(c2, n[i]))
      && RangesOf(c2, n) == RangesOf(c1, o)[..j] + [Elem(c1, x).range] + RangesOf(c1, o)[j..]
  {
    var n := InsertAt(o, j, x);
    RangesInsert(c1, o, j, x);
    RangesSame(c1, c2, n);
  }

  /** `PushedAt` at the front. */
  lemma PushedFront(c1: seq<seq<Node>>, c2: seq<seq<Node>>, o: seq<Ptr>, x: Ptr, touched: set<Ptr>)
    requires InChunks(c1, x) && forall i :: 0 <= i < |o| ==> InChunks(c1, o[i])
    requires Framed(c1, c2, touched)
    ensures InsertAt(o, 0, x) == [x] + o
    ensures RangesOf(c2, [x] + o) == [Elem(c1, x).range] + RangesOf(c1, o)
  {
    assert InsertAt(o, 0, x) == [x] + o;
    assert RangesOf(c1, o)[..0] == [] && RangesOf(c1, o)[0..] == RangesOf(c1, o);
    PushedAt(c1, c2, o, 0, x, touched);
  }

  /** `PushedAt` at the back. */
  lemma PushedBack(c1: seq<seq<Node>>, c2: seq<seq<Node>>, o: seq<Ptr>, x: Ptr, touched: set<Ptr>)
    requires InChunks(c1, x) && forall i :: 0 <= i < |o| ==> InChunks(c1, o[i])
    requires Framed(c1, c2, touched)
    ensures InsertAt(o, |o|, x) == o + [x]
    ensures RangesOf(c2, o + [x]) == RangesOf(c1, o) + [Elem(c1, x).range]
  {
    assert InsertAt(o, |o|, x) == o + [x];
    assert RangesOf(c1, o)[..|o|] == RangesOf(c1, o) && RangesOf(c1, o)[|o|..] == [];
    PushedAt(c1, c2, o, |o|, x, touched);
  }

  /** A list removal that keeps every range drops only the removed node's range. */
  lemma RemovedRanges(c1: seq<seq<Node>>, c2: seq<seq<Node>>, o: seq<Ptr>, i: nat, touched: set<Ptr>)
    requires i < |o| && forall k :: 0 <= k < |o| ==> InChunks(c1, o[k])
    requires Framed(c1, c2, touched)
    ensures var n := o[..i] + o[i + 1..];
      && (forall k :: 0 <= k < |n| ==> InChunks(c2, n[k]))
      && RangesOf(c2, n) == RangesOf(c1, o)[..i] + RangesOf(c1, o)[i + 1..]
  {
    RangesRemove(c1, o, i);
    RangesSame(c1, c2, o[..i] + o[i + 1..]);
  }

  /** `tree_insert` of `node`, already linked at position `j` of a list whose ranges are well formed. */
  lemma TreeInsertAt(root: Tree<Ptr>, c: seq<seq<Node>>, o: seq<Ptr>, j: nat, node: Ptr, n: seq<Ptr>, lo: int, hi: int)
    requires IsLlrb(root) && Inorder(root) == o && j <= |o| && n == InsertAt(o, j, node)
    requires forall i :: 0 <= i < |n| ==> InChunks(c, n[i])
    requires WellFormed(RangesOf(c, n), lo, hi)
    ensures KeyAbsent(root, KeyOf(c)(node), KeyOf(c))
    ensures var r := InsertRoot(root, node, KeyOf(c)); IsLlrb(r) && Inorder(r) == n
  {
    SpansOrder(c, n, lo, hi);
    InsertKeys(o, j, node, KeyOf(c));
    InsertSortedAt(o, j, node, KeyOf(c));
  }

  /** `tree_remove` of the node at position `i` of a list in key order. */
  lemma TreeRemoveAt(root: Tree<Ptr>, c: seq<seq<Node>>, o: seq<Ptr>, i: nat)
    requires IsLlrb(root) && Inorder(root) == o && i < |o| && Increasing(o, KeyOf(c))
    ensures o[i] in Inorder(root)
    ensures var r := RemoveRoot(root, o[i], KeyOf(c)); IsLlrb(r) && Inorder(r) == o[..i] + o[i + 1..]
  {
    WithoutAt(o, i, KeyOf(c));
  }

  /** Any two spans of a well-formed list are separated. */
  lemma AllSeparated(s: seq<Span>, lo: int, hi: int)
    requires WellFormed(s, lo, hi)
    ensures forall i, j :: 0 <= i < j < |s| ==> s[i].max + 1 < s[j].min
  {
    forall i, j | 0 <= i < j < |s| ensures s[i].max + 1 < s[j].min {
      Separated(s, lo, hi, i, j);
    }
  }

  /**
   * The span of greatest minimum not above `v` holds `v` exactly when some
   * span does, and then it is the one the scan finds.
   */
  lemma LowerSpan(s: seq<Span>, lo: int, hi: int, v: int, k: nat)
    requires WellFormed(s, lo, hi) && k < |s| && s[k].min <= v
    requires forall j :: 0 <= j < |s| && s[j].min <= v ==> s[j].min <= s[k].min
    ensures FindIndex(s, v).Some? <==> Contains(s[k], v)
    ensures FindIndex(s, v).Some? ==> FindIndex(s, v) == Some(k)
  {
    AllSeparated(s, lo, hi);
  }

  /**
   * For `v` above the first minimum, the span of least minimum not below `v`
   * is not the first, and it and the span before it enclose `v` exactly when
   * the scan finds a gap holding `v`, which is then theirs.
   */
  lemma UpperSpan(s: seq<Span>, lo: int, hi: int, v: int, k: nat)
    requires WellFormed(s, lo, hi) && k < |s| && s[k].min >= v && s[0].min < v
    requires forall j :: 0 <= j < |s| && s[j].min >= v ==> s[j].min >= s[k].min
    ensures k > 0 && s[k - 1].min < v
    ensures GapFrom(s, v, 0).Some? <==> s[k - 1].max < v < s[k].min
    ensures GapFrom(s, v, 0).Some? ==> GapFrom(s, v, 0) == Some(k - 1)
  {
    AllSeparated(s, lo, hi);
  }

  /** With every minimum below `v`, no gap of the list holds `v`. */
  lemma NoUpperSpan(s: seq<Span>, lo: int, hi: int, v: int)
    requires WellFormed(s, lo, hi) && forall j :: 0 <= j < |s| ==> s[j].min < v
    ensures GapFrom(s, v, 0).None?
  {
  }

  /** A span is separated from every later one. */
  lemma SeparatedAfter(s: seq<Span>, lo: int, hi: int, i: nat)
    requires WellFormed(s, lo, hi) && i < |s|
    ensures forall j :: i < j < |s| ==> s[i].max + 1 < s[j].min
  {
    forall j | i < j < |s| ensures s[i].max + 1 < s[j].min {
      Separated(s, lo, hi, i, j);
    }
  }

  // ---------------------------------------------------------------------
  // Lookups through the tree
  // ---------------------------------------------------------------------

  /**
   * `find_node_from_value` through the tree: the node of greatest key not
   * above `v` holds `v` exactly when some span does, and then it is the node
   * the list scan finds.
   */
  lemma LowerFinds(c: seq<seq<Node>>, o: seq<Ptr>, root: Tree<Ptr>, lo: int, hi: int, v: int)
    requires forall i :: 0 <= i < |o| ==> InChunks(c, o[i])
    requires WellFormed(RangesOf(c, o), lo, hi) && Inorder(root) == o && NoDup(o)
    ensures Ordered(root, KeyOf(c))
    ensures var n := GetOrLower(root, v, KeyOf(c));
      n.Some? ==> n.value in o && InChunks(c, n.value)
    ensures var n, f := GetOrLower(root, v, KeyOf(c)), FindIndex(RangesOf(c, o), v);
      var p := AtIndex(o, f);
      && (n.Some? && Contains(Elem(c, n.value).range, v) ==>
          && p == n.value
          && f.Some? && IndexOf(o, n.value) == f.value)
      && (!(n.Some? && Contains(Elem(c, n.value).range, v)) ==> p == Null)
      && (p != Null <==> Covers(RangesOf(c, o), v))
  {
    SpansOrder(c, o, lo, hi);
    var k := LowerIndex(root, KeyOf(c), v);
    LowerAt(c, o, lo, hi, v, k);
    var f := FindIndex(RangesOf(c, o), v);
    if f.Some? && f.value < |o| {
      IndexOfAt(o, f.value);
    }
  }


  /** `get_or_lower` as a position in the symmetric order: the last key not above `v`, or -1. */
  lemma LowerIndex<R>(t: Tree<R>, key: R -> int, v: int) returns (k: int)
    requires Ordered(t, key)
    ensures var n, o := GetOrLower(t, v, key), Inorder(t);
      && -1 <= k < |o| && (n.Some? <==> 0 <= k)
      && (n.Some? ==> o[k] == n.value && key(o[k]) <= v)
      && (n.Some? ==> forall j :: 0 <= j < |o| && key(o[j]) <= v ==> key(o[j]) <= key(o[k]))
      && (n.None? ==> forall j :: 0 <= j < |o| ==> key(o[j]) > v)
  {
    var n, o := GetOrLower(t, v, key), Inorder(t);
    assert forall j :: 0 <= j < |o| ==> o[j] in Inorder(t);
    if n.Some? {
      k :| 0 <= k < |o| && o[k] == n.value;
    } else {
      k := -1;
    }
  }

  /** The position found by `get_or_lower` holds `v` exactly when the scan finds it there. */
  lemma LowerAt(c: seq<seq<Node>>, o: seq<Ptr>, lo: int, hi: int, v: int, k: int)
    requires forall i :: 0 <= i < |o| ==> InChunks(c, o[i])
    requires WellFormed(RangesOf(c, o), lo, hi) && -1 <= k < |o|
    requires k >= 0 ==> KeyOf(c)(o[k]) <= v
    requires k >= 0 ==> forall j :: 0 <= j < |o| && KeyOf(c)(o[j]) <= v ==> KeyOf(c)(o[j]) <= KeyOf(c)(o[k])
    requires k < 0 ==> forall j :: 0 <= j < |o| ==> KeyOf(c)(o[j]) > v
    ensures var f := FindIndex(RangesOf(c, o), v);
      && (k >= 0 && Contains(Elem(c, o[k]).range, v) <==> f.Some?)
      && (f.Some? ==> f.value == k)
  {
    KeysAre(c, o);
    if k >= 0 {
      LowerSpan(RangesOf(c, o), lo, hi, v, k);
    }
  }

  /**
   * `find_node_pair_around_value` through the tree, for a value inside the
   * list's extent and not the first minimum: the node of least key not below
   * `v` is not the first node, and it and its predecessor enclose `v`
   * exactly when the list scan finds a gap holding `v`, which is then theirs.
   */
  lemma UpperPairs(c: seq<seq<Node>>, o: seq<Ptr>, root: Tree<Ptr>, lo: int, hi: int, v: int)
    requires forall i :: 0 <= i < |o| ==> InChunks(c, o[i])
    requires WellFormed(RangesOf(c, o), lo, hi) && Inorder(root) == o
    requires o != [] && RangesOf(c, o)[0].min < v
    ensures Ordered(root, KeyOf(c))
    ensures var n := GetOrUpper(root, v, KeyOf(c));
      n.Some? ==> n.value in o && IndexOf(o, n.value) > 0
    ensures var n := GetOrUpper(root, v, KeyOf(c));
      var s, g := RangesOf(c, o), GapFrom(RangesOf(c, o), v, 0);
      && (g.Some? <==> n.Some? && s[IndexOf(o, n.value) - 1].max < v < s[IndexOf(o, n.value)].min)
      && (g.Some? ==> n == Some(o[g.value + 1]))
  {
    SpansOrder(c, o, lo, hi);
    var k := UpperIndex(root, KeyOf(c), v);
    UpperAt(c, o, lo, hi, v, k);
    var n := GetOrUpper(root, v, KeyOf(c));
    if k >= 0 {
      IncreasingIndex(o, KeyOf(c), k);
      assert n == Some(o[k]) && IndexOf(o, n.value) == k;
    } else {
      assert n.None?;
    }
  }

  /** In a sequence with increasing keys, the element at `k` is found at `k`. */
  lemma IncreasingIndex(o: seq<Ptr>, key: Ptr -> int, k: nat)
    requires Increasing(o, key) && k < |o|
    ensures IndexOf(o, o[k]) == k
  {
    var i := IndexOf(o, o[k]);
    assert key(o[i]) == key(o[k]);
  }

  /**
   * The pair `find_node_pair_around_value` reads off the tree, for a value
   * strictly above the first minimum and not above the last maximum: the
   * node `get_or_upper` finds and its `prev` are the pair `PairAround`
   * names when they enclose `v`, and otherwise `PairAround` names neither.
   */
  lemma TreePair(c: seq<seq<Node>>, o: seq<Ptr>, first: Ptr, last: Ptr, root: Tree<Ptr>, lo: int, hi: int, v: int)
    requires Linked(c, o, first, last)
    requires WellFormed(RangesOf(c, o), lo, hi) && Inorder(root) == o
    requires o != [] && RangesOf(c, o)[0].min < v <= RangesOf(c, o)[|o| - 1].max
    ensures Ordered(root, KeyOf(c))
    ensures var n := GetOrUpper(root, v, KeyOf(c));
      n.Some? ==> InChunks(c, n.value) && InChunks(c, Elem(c, n.value).prev)
    ensures var n, p := GetOrUpper(root, v, KeyOf(c)), PairAround(RangesOf(c, o), v);
      var found := n.Some? && Elem(c, Elem(c, n.value).prev).range.max < v && Elem(c, n.value).range.min > v;
      && (found ==> AtIndex(o, p.0) == Elem(c, n.value).prev && AtIndex(o, p.1) == n.value)
      && (!found ==> AtIndex(o, p.0) == Null && AtIndex(o, p.1) == Null)
  {
    PairAroundInside(RangesOf(c, o), v);
    UpperPairs(c, o, root, lo, hi, v);
    var n := GetOrUpper(root, v, KeyOf(c));
    if n.Some? {
      var k := IndexOf(o, n.value);
      PrevAt(c, o, first, last, k);
      var g := GapFrom(RangesOf(c, o), v, 0);
      if g.Some? {
        IndexOfAt(o, g.value + 1);
      }
    }
  }

  /**
   * The pointers the pair lookup returns for a value no span holds: a
   * pointer is non-null exactly when `PairAround` names a position, and then
   * it is the list node there, holding that span.
   */
  lemma PairNodes(c: seq<seq<Node>>, o: seq<Ptr>, lo: int, hi: int, v: int, prev: Ptr, next: Ptr)
    requires (forall i :: 0 <= i < |o| ==> InChunks(c, o[i])) && NoDup(o)
    requires WellFormed(RangesOf(c, o), lo, hi) && o != [] && !Covers(RangesOf(c, o), v)
    requires prev == AtIndex(o, PairAround(RangesOf(c, o), v).0)
    requires next == AtIndex(o, PairAround(RangesOf(c, o), v).1)
    ensures var s, p, n := RangesOf(c, o), PairAround(RangesOf(c, o), v).0, PairAround(RangesOf(c, o), v).1;
      && (prev != Null <==> p.Some?) && (next != Null <==> n.Some?)
      && (prev != Null || next != Null)
      && (p.Some? ==> p.value < |o| && prev in o && IndexOf(o, prev) == p.value
                      && InChunks(c, prev) && Elem(c, prev).range == s[p.value])
      && (n.Some? ==> n.value < |o| && next in o && IndexOf(o, next) == n.value
                      && InChunks(c, next) && Elem(c, next).range == s[n.value])
      && (p.Some? && n.Some? ==> n.value == p.value + 1)
  {
    var s := RangesOf(c, o);
    PairAroundSpec(s, lo, hi, v);
    var (p, n) := PairAround(s, v);
    if p.Some? { IndexOfAt(o, p.value); }
    if n.Some? { IndexOfAt(o, n.value); }
  }

  /**
   * What `release` does to the ranges, told by the touch tests on the nodes
   * around `v`, as the source's cases 1 to 4 branch on them.
   */
  lemma ReleaseNodes(c: seq<seq<Node>>, o: seq<Ptr>, s: seq<Span>, lo: int, hi: int, v: int, prev: Ptr, next: Ptr)
    requires (forall i :: 0 <= i < |o| ==> InChunks(c, o[i])) && NoDup(o) && s == RangesOf(c, o)
    requires WellFormed(s, lo, hi) && s != [] && !Covers(s, v)
    requires prev == AtIndex(o, PairAround(s, v).0)
    requires next == AtIndex(o, PairAround(s, v).1)
    ensures prev != Null ==> prev in o && InChunks(c, prev) && s[IndexOf(o, prev)] == Elem(c, prev).range
    ensures next != Null ==> next in o && InChunks(c, next) && s[IndexOf(o, next)] == Elem(c, next).range
    ensures prev != Null || next != Null
    ensures var tp := prev != Null && s[IndexOf(o, prev)].max + 1 == v;
      var tn := next != Null && s[IndexOf(o, next)].min - 1 == v;
      && (tp && tn ==> var p := IndexOf(o, prev);
            IndexOf(o, next) == p + 1 < |o| && ReleaseSpans(s, v) == s[..p] + [Span(s[p].min, s[p + 1].max)] + s[p + 2..])
      && (tp && !tn ==> var p := IndexOf(o, prev); ReleaseSpans(s, v) == s[p := Span(s[p].min, v)])
      && (!tp && tn ==> var n := IndexOf(o, next); ReleaseSpans(s, v) == s[n := Span(v, s[n].max)])
      && (!tp && !tn && prev != Null ==> var p := IndexOf(o, prev);
            ReleaseSpans(s, v) == s[..p + 1] + [Span(v, v)] + s[p + 1..])
      && (!tp && !tn && prev == Null ==> var n := IndexOf(o, next);
            ReleaseSpans(s, v) == s[..n] + [Span(v, v)] + s[n..])
  {
    PairNodes(c, o, lo, hi, v, prev, next);
    ReleaseCases(s, lo, hi, v);
  }

  /** The `prev` of the node at a position past the first is the node before it. */
  lemma PrevAt(c: seq<seq<Node>>, o: seq<Ptr>, first: Ptr, last: Ptr, k: nat)
    requires Linked(c, o, first, last) && 0 < k < |o|
    ensures Elem(c, o[k]).prev == o[k - 1] && InChunks(c, o[k - 1])
    ensures Elem(c, o[k - 1]).range == RangesOf(c, o)[k - 1] && Elem(c, o[k]).range == RangesOf(c, o)[k]
  {
    LinkedNeighbours(c, o, k);
  }



  /** `get_or_upper` as a position in the symmetric order: the first key not below `v`, or -1. */
  lemma UpperIndex<R>(t: Tree<R>, key: R -> int, v: int) returns (k: int)
    requires Ordered(t, key)
    ensures var n, o := GetOrUpper(t, v, key), Inorder(t);
      && -1 <= k < |o| && (n.Some? <==> 0 <= k)
      && (n.Some? ==> o[k] == n.value && key(o[k]) >= v)
      && (n.Some? ==> forall j :: 0 <= j < |o| && key(o[j]) >= v ==> key(o[j]) >= key(o[k]))
      && (n.None? ==> forall j :: 0 <= j < |o| ==> key(o[j]) < v)
  {
    var n, o := GetOrUpper(t, v, key), Inorder(t);
    assert forall j :: 0 <= j < |o| ==> o[j] in Inorder(t);
    if n.Some? {
      k :| 0 <= k < |o| && o[k] == n.value;
    } else {
      k := -1;
    }
  }

  /** The position found by `get_or_upper`, with the one before it, encloses `v` exactly when the scan finds that gap. */
  lemma UpperAt(c: seq<seq<Node>>, o: seq<Ptr>, lo: int, hi: int, v: int, k: int)
    requires forall i :: 0 <= i < |o| ==> InChunks(c, o[i])
    requires WellFormed(RangesOf(c, o), lo, hi) && -1 <= k < |o|
    requires o != [] && RangesOf(c, o)[0].min < v
    requires k >= 0 ==> KeyOf(c)(o[k]) >= v
    requires k >= 0 ==> forall j :: 0 <= j < |o| && KeyOf(c)(o[j]) >= v ==> KeyOf(c)(o[j]) >= KeyOf(c)(o[k])
    requires k < 0 ==> forall j :: 0 <= j < |o| ==> KeyOf(c)(o[j]) < v
    ensures k != 0
    ensures var s, g := RangesOf(c, o), GapFrom(RangesOf(c, o), v, 0);
      && (g.Some? <==> k > 0 && s[k - 1].max < v < s[k].min)
      && (g.Some? ==> g.value + 1 == k)
  {
    var s := RangesOf(c, o);
    KeysAre(c, o);
    if k >= 0 {
      UpperSpan(s, lo, hi, v, k);
    } else {
      NoUpperSpan(s, lo, hi, v);
    }
  }
}
