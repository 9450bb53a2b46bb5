/**
 * `MemPool` (mempool_elem.rs): many small allocations of one element type,
 * stored in fixed-size chunks, with freed elements threaded into a singly
 * linked free chain through the elements themselves.
 *
 * A raw element pointer is an address `At(chunk, slot)` into the chunk
 * storage; `Null` is the null pointer.  The element type's `MemElemUtils`
 * implementation is passed in as two functions: `link` (`free_ptr_get`) and
 * `relink` (`free_ptr_set`, which also receives the address of the element
 * it is applied to, because the range tree's nodes tag themselves with it).
 * `Default::default()` is passed in as `blank`.
 */
module MemPoolElem {

  /** An element address; `Null` is the null pointer. */
  datatype Ptr = Null | At(chunk: nat, slot: nat)

  /** `p` addresses an element that has been handed out at least once. */
  predicate InChunks<T>(chunks: seq<seq<T>>, p: Ptr)
  {
    p.At? && p.chunk < |chunks| && p.slot < |chunks[p.chunk]|
  }

  /** Dereference. */
  function Elem<T>(chunks: seq<seq<T>>, p: Ptr): T
    requires InChunks(chunks, p)
  {
    chunks[p.chunk][p.slot]
  }

  /** Store through a pointer: only the addressed element changes, no element moves. */
  function Store<T>(chunks: seq<seq<T>>, p: Ptr, v: T): (r: seq<seq<T>>)
    requires InChunks(chunks, p)
    ensures |r| == |chunks| && forall c :: 0 <= c < |r| ==> |r[c]| == |chunks[c]|
    ensures forall q {:trigger InChunks(r, q)} :: InChunks(chunks, q) ==> InChunks(r, q)
    ensures forall q {:trigger Elem(r, q)} :: InChunks(chunks, q) ==> Elem(r, q) == if q == p then v else Elem(chunks, q)
  {
    chunks[p.chunk := chunks[p.chunk][p.slot := v]]
  }

  /** The chunk layout: every chunk but the last is full. */
  ghost predicate Layout<T>(chunks: seq<seq<T>>, chunkSize: nat)
  {
    && |chunks| >= 1
    && (forall c :: 0 <= c < |chunks| - 1 ==> |chunks[c]| == chunkSize)
    && (chunkSize > 0 ==> |chunks[|chunks| - 1]| <= chunkSize)
  }

  /** Whether allocating a fresh element first opens a new chunk. */
  predicate LastFull<T>(chunks: seq<seq<T>>, chunkSize: nat)
    requires |chunks| >= 1
  {
    |chunks[|chunks| - 1]| == chunkSize
  }

  /** Where a fresh element goes: the next slot of the last chunk, or slot 0 of a new chunk. */
  function NextSlot<T>(chunks: seq<seq<T>>, chunkSize: nat): Ptr
    requires |chunks| >= 1
  {
    if LastFull(chunks, chunkSize) then At(|chunks|, 0)
    else At(|chunks| - 1, |chunks[|chunks| - 1]|)
  }

  /** Push `v` onto the last chunk, opening a new chunk first when the last one is full. */
  function Appended<T>(chunks: seq<seq<T>>, chunkSize: nat, v: T): seq<seq<T>>
    requires |chunks| >= 1
  {
    if LastFull(chunks, chunkSize) then chunks + [[v]]
    else chunks[|chunks| - 1 := chunks[|chunks| - 1] + [v]]
  }

  /**
   * A fresh allocation lands at `NextSlot`, keeps the layout, and leaves
   * every element handed out earlier at its address with its value: chunks
   * are never moved or compacted.
   */
  lemma AppendedSpec<T>(chunks: seq<seq<T>>, chunkSize: nat, v: T)
    requires Layout(chunks, chunkSize)
    ensures var r, p := Appended(chunks, chunkSize, v), NextSlot(chunks, chunkSize);
      && Layout(r, chunkSize)
      && !InChunks(chunks, p) && InChunks(r, p) && Elem(r, p) == v
      && (forall q :: InChunks(chunks, q) ==> InChunks(r, q) && Elem(r, q) == Elem(chunks, q))
      && (forall q :: InChunks(r, q) ==> q == p || InChunks(chunks, q))
      && |r| == |chunks| + (if LastFull(chunks, chunkSize) then 1 else 0)
  {
    var r, p := Appended(chunks, chunkSize, v), NextSlot(chunks, chunkSize);
    var n := |chunks| - 1;
    if LastFull(chunks, chunkSize) {
      assert forall c :: 0 <= c <= n ==> r[c] == chunks[c];
      assert r[n + 1] == [v];
    } else {
      assert forall c :: 0 <= c < n ==> r[c] == chunks[c];
      assert r[n] == chunks[n] + [v];
    }
  }

  /**
   * The free chain: `free` is its head, each element's `link` names the next
   * one, the last one links to `Null`, and no address appears twice.
   */
  ghost predicate IsChain<T>(chunks: seq<seq<T>>, chain: seq<Ptr>, free: Ptr, link: T -> Ptr)
  {
    && free == (if chain == [] then Null else chain[0])
    && (forall i :: 0 <= i < |chain| ==> InChunks(chunks, chain[i]))
    && NoDup(chain)
    && (forall i {:trigger Elem(chunks, chain[i])} :: 0 <= i < |chain| ==> link(Elem(chunks, chain[i])) == Succ(chain, i))
  }

  /** No address occurs twice. */
  ghost predicate NoDup(s: seq<Ptr>)
  {
    s == [] || (s[0] !in s[1..] && NoDup(s[1..]))
  }

  /** Without repeats, two positions hold two addresses. */
  lemma {:induction false} NoDupPairs(s: seq<Ptr>)
    requires NoDup(s)
    ensures forall a, b :: 0 <= a < b < |s| ==> s[a] != s[b]
  {
    if s != [] {
      NoDupPairs(s[1..]);
      forall a, b | 0 <= a < b < |s| ensures s[a] != s[b] {
        assert s[b] == s[1..][b - 1];
        if a > 0 {
          assert s[a] == s[1..][a - 1];
        }
      }
    }
  }

  /** One pair of positions of `NoDupPairs`. */
  lemma NoDupAt(s: seq<Ptr>, a: nat, b: nat)
    requires NoDup(s) && a < b < |s|
    ensures s[a] != s[b]
  {
    NoDupPairs(s);
  }

  /** Pairwise different addresses occur once each. */
  lemma {:induction false} PairsNoDup(s: seq<Ptr>)
    requires forall a, b :: 0 <= a < b < |s| ==> s[a] != s[b]
    ensures NoDup(s)
  {
    if s != [] {
      var t := s[1..];
      forall a, b | 0 <= a < b < |t| ensures t[a] != t[b] {
        assert t[a] == s[a + 1] && t[b] == s[b + 1];
      }
      PairsNoDup(t);
      forall k | 0 <= k < |t| ensures t[k] != s[0] {
        assert t[k] == s[k + 1];
      }
    }
  }

  /** The address after position `i` of an address sequence, `Null` after the last. */
  function Succ(s: seq<Ptr>, i: nat): Ptr
  {
    if i + 1 < |s| then s[i + 1] else Null
  }

  /** Storing into an element outside the chain keeps the chain. */
  lemma StoreKeepsChain<T>(chunks: seq<seq<T>>, chain: seq<Ptr>, free: Ptr, link: T -> Ptr, p: Ptr, v: T)
    requires IsChain(chunks, chain, free, link) && InChunks(chunks, p) && p !in chain
    ensures IsChain(Store(chunks, p, v), chain, free, link)
  {
    var r := Store(chunks, p, v);
    forall i | 0 <= i < |chain| ensures InChunks(r, chain[i]) && Elem(r, chain[i]) == Elem(chunks, chain[i]) {
      assert chain[i] != p;
    }
  }

  /** Popping the head leaves the rest of the chain, headed by the popped element's link. */
  lemma ChainTail<T>(chunks: seq<seq<T>>, chain: seq<Ptr>, free: Ptr, link: T -> Ptr)
    requires IsChain(chunks, chain, free, link) && free != Null
    ensures chain != [] && InChunks(chunks, free) && free !in chain[1..]
    ensures IsChain(chunks, chain[1..], link(Elem(chunks, free)), link)
  {
    var t := chain[1..];
    NoDupPairs(chain);
    assert chain[0] == free;
    assert link(Elem(chunks, chain[0])) == Succ(chain, 0);
    forall i | 0 <= i < |t| ensures t[i] != free {
      assert t[i] == chain[i + 1];
    }
    forall i | 0 <= i < |t| ensures InChunks(chunks, t[i]) && link(Elem(chunks, t[i])) == Succ(t, i) {
      assert t[i] == chain[i + 1];
      assert link(Elem(chunks, chain[i + 1])) == Succ(chain, i + 1);
    }
  }

  /** Pushing an element outside the chain, linked to the old head, makes it the new head. */
  lemma ChainPush<T>(chunks: seq<seq<T>>, chain: seq<Ptr>, free: Ptr, link: T -> Ptr, p: Ptr, v: T)
    requires IsChain(chunks, chain, free, link) && InChunks(chunks, p) && p !in chain && link(v) == free
    ensures IsChain(Store(chunks, p, v), [p] + chain, p, link)
  {
    var r, c := Store(chunks, p, v), [p] + chain;
    assert Elem(r, p) == v;
    assert c[1..] == chain;
    forall i | 0 <= i < |c| ensures InChunks(r, c[i]) && link(Elem(r, c[i])) == Succ(c, i) {
      if i > 0 {
        assert c[i] == chain[i - 1] && c[i] != p;
        assert link(Elem(chunks, chain[i - 1])) == Succ(chain, i - 1);
      }
    }
  }

  class MemPool<T(!new)> {
    /** Data storage, one sequence per chunk. */
    var chunks: seq<seq<T>>
    /** Number of elements per chunk. */
    const chunkSize: nat
    /** Head of the chain of freed elements. */
    var free: Ptr
    /** `free_ptr_get`. */
    const link: T -> Ptr
    /** `free_ptr_set`: element, its own address, new link. */
    const relink: (T, Ptr, Ptr) -> T
    /** `TElem::default()`. */
    const blank: T
    /** The free chain, head first. */
    ghost var chain: seq<Ptr>

    ghost predicate Valid()
      reads this
    {
      && Layout(chunks, chunkSize)
      && (forall e, s, p :: link(relink(e, s, p)) == p)
      && IsChain(chunks, chain, free, link)
    }

    /** Addresses handed out and not freed since. */
    ghost predicate Live(p: Ptr)
      reads this
    {
      InChunks(chunks, p) && p !in chain
    }

    function Get(p: Ptr): T
      reads this
      requires InChunks(chunks, p)
    {
      Elem(chunks, p)
    }

    /** `new`: one empty chunk, empty free chain. */
    constructor (chunkSize: nat, link: T -> Ptr, relink: (T, Ptr, Ptr) -> T, blank: T)
      requires forall e, s, p :: link(relink(e, s, p)) == p
      ensures Valid()
      ensures chunks == [[]] && free == Null && chain == []
      ensures this.chunkSize == chunkSize && this.link == link && this.relink == relink && this.blank == blank
    {
      this.chunkSize := chunkSize;
      this.link := link;
      this.relink := relink;
      this.blank := blank;
      chunks := [[]];
      free := Null;
      chain := [];
    }

    /** `clear`: keep only the first chunk, emptied; forget the free chain. */
    method Clear()
      requires Valid()
      modifies this
      ensures Valid()
      ensures chunks == [[]] && free == Null && chain == []
    {
      chunks := [[]];
      free := Null;
      chain := [];
    }

    /** `alloc_elem`: reuse the most recently freed element, else append a default element. */
    method AllocElem() returns (p: Ptr)
      requires Valid()
      modifies this
      ensures Valid() && Live(p)
      ensures old(free) == Null ==>
        && p == NextSlot(old(chunks), chunkSize)
        && chunks == Appended(old(chunks), chunkSize, blank) && chain == []
      ensures old(free) != Null ==>
        p == old(free) && chunks == old(chunks) && chain == old(chain)[1..]
    {
      if free == Null {
        AppendedSpec(chunks, chunkSize, blank);
        p := NextSlot(chunks, chunkSize);
        chunks := Appended(chunks, chunkSize, blank);
      } else {
        ChainTail(chunks, chain, free, link);
        p := free;
        free := link(Get(p));
        chain := chain[1..];
      }
    }

    /** `alloc_elem_from`: as `alloc_elem`, storing `from` in the element. */
    method AllocElemFrom(from: T) returns (p: Ptr)
      requires Valid()
      modifies this
      ensures Valid() && Live(p) && Get(p) == from
      ensures old(free) == Null ==>
        && p == NextSlot(old(chunks), chunkSize)
        && chunks == Appended(old(chunks), chunkSize, from) && chain == []
      ensures old(free) != Null ==>
        p == old(free) && chunks == Store(old(chunks), p, from) && chain == old(chain)[1..]
    {
      if free == Null {
        AppendedSpec(chunks, chunkSize, from);
        p := NextSlot(chunks, chunkSize);
        chunks := Appended(chunks, chunkSize, from);
      } else {
        ChainTail(chunks, chain, free, link);
        p := free;
        free := link(Get(p));
        chain := chain[1..];
        StoreKeepsChain(chunks, chain, free, link, p, from);
        chunks := Store(chunks, p, from);
      }
    }

    /** `free_elem`: the element becomes the head of the free chain; nothing is released to the system. */
    method FreeElem(p: Ptr)
      requires Valid() && Live(p)
      modifies this
      ensures Valid()
      ensures free == p && chain == [p] + old(chain)
      ensures chunks == Store(old(chunks), p, relink(old(Get(p)), p, old(free)))
    {
      ChainPush(chunks, chain, free, link, p, relink(Get(p), p, free));
      chunks := Store(chunks, p, relink(Get(p), p, free));
      chain := [p] + chain;
      free := p;
    }

    /** A store through a pointer to a live element. */
    method Write(p: Ptr, v: T)
      requires Valid() && Live(p)
      modifies this
      ensures Valid()
      ensures chunks == Store(old(chunks), p, v) && free == old(free) && chain == old(chain)
    {
      StoreKeepsChain(chunks, chain, free, link, p, v);
      chunks := Store(chunks, p, v);
    }
  }
}
