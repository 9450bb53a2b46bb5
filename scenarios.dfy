/**
 * Worked runs of the pool and the range tree, following the scenarios of
 * tests_mempool.rs and tests/rangetree.rs: each method states the outcome
 * the scenario asserts, and the verifier derives it from the contracts of
 * the modelled operations alone.
 */
module Scenarios {
  import opened Wrappers
  import opened MemPoolElem
  import opened Spans
  import opened RangeTrees

  // ---------------------------------------------------------------------
  // test_mempool: 128 linked elements in chunks of 2, built and freed twice
  // ---------------------------------------------------------------------

  /** `TestElem`: a payload and the link that doubles as the free-chain link. */
  datatype TestElem = TestElem(value: int, link: Ptr)

  function TestLink(e: TestElem): Ptr { e.link }

  function TestRelink(e: TestElem, self: Ptr, p: Ptr): TestElem { e.(link := p) }

  const Total: nat := 128

  /** Where the `j`-th fresh allocation lands with chunks of 2. */
  function Addr(j: nat): Ptr
  {
    At(j / 2, j % 2)
  }

  /** The first `n` fresh addresses, in allocation order. */
  ghost function Addrs(n: nat): (r: seq<Ptr>)
    ensures |r| == n && forall j :: 0 <= j < n ==> r[j] == Addr(j)
  {
    if n == 0 then [] else Addrs(n - 1) + [Addr(n - 1)]
  }

  lemma AddrDistinct(j: nat, k: nat)
    requires j != k
    ensures Addr(j) != Addr(k)
  {
    assert j == 2 * (j / 2) + j % 2 && k == 2 * (k / 2) + k % 2;
  }

  /** The address allocated just before position `k` is not among the later ones. */
  lemma NotInTail(n: nat, k: nat)
    requires 1 <= k <= n
    ensures Addr(k - 1) !in Addrs(n)[k..]
  {
    forall m | k <= m < n ensures Addr(m) != Addr(k - 1) {
      AddrDistinct(m, k - 1);
    }
  }

  /** Elements `0 .. i - 1` hold their index and link to the element before. */
  ghost predicate Built(chunks: seq<seq<TestElem>>, i: nat)
  {
    forall j :: 0 <= j < i ==>
      && InChunks(chunks, Addr(j))
      && Elem(chunks, Addr(j)).value == j
      && (j > 0 ==> Elem(chunks, Addr(j)).link == Addr(j - 1))
  }

  /** The chunks after `i` fresh allocations from an empty pool. */
  ghost predicate FreshShape(chunks: seq<seq<TestElem>>, i: nat)
  {
    && Layout(chunks, 2)
    && |chunks| == (if i == 0 then 1 else (i + 1) / 2)
    && |chunks[|chunks| - 1]| == (if i == 0 then 0 else 2 - i % 2)
  }

  /** All 128 elements are in place: 64 full chunks. */
  ghost predicate Full(chunks: seq<seq<TestElem>>)
  {
    |chunks| == 64 && forall c :: 0 <= c < 64 ==> |chunks[c]| == 2
  }

  ghost predicate Setup(pool: MemPool<TestElem>)
    reads pool
  {
    pool.Valid() && pool.chunkSize == 2 && pool.link == TestLink && pool.relink == TestRelink
  }

  lemma FreshFull(chunks: seq<seq<TestElem>>)
    requires FreshShape(chunks, Total)
    ensures Full(chunks)
  {
  }

  /** One opening allocation moves the shape on by one element. */
  lemma FreshStep(chunks: seq<seq<TestElem>>, i: nat, v: TestElem)
    requires FreshShape(chunks, i)
    ensures NextSlot(chunks, 2) == Addr(i)
    ensures FreshShape(Appended(chunks, 2, v), i + 1)
  {
    AppendedSpec(chunks, 2, v);
  }

  /** A store through a pointer keeps the shape of the chunks. */
  lemma StoreShape(chunks: seq<seq<TestElem>>, p: Ptr, v: TestElem, i: nat)
    requires InChunks(chunks, p)
    ensures FreshShape(chunks, i) ==> FreshShape(Store(chunks, p, v), i)
    ensures Full(chunks) ==> Full(Store(chunks, p, v))
  {
    var r := Store(chunks, p, v);
    assert |r[|r| - 1]| == |chunks[|chunks| - 1]|;
  }

  /** Storing element `i` after `Built(i)` gives `Built(i + 1)`. */
  lemma BuiltStep(chunks: seq<seq<TestElem>>, i: nat, v: TestElem)
    requires Built(chunks, i) && InChunks(chunks, Addr(i))
    requires v.value == i && (i > 0 ==> v.link == Addr(i - 1))
    ensures Built(Store(chunks, Addr(i), v), i + 1)
  {
    forall j | 0 <= j < i ensures Addr(j) != Addr(i) {
      AddrDistinct(j, i);
    }
  }

  /** Storing into element `i` keeps `Built(i)`. */
  lemma BuiltKept(chunks: seq<seq<TestElem>>, i: nat, v: TestElem)
    requires Built(chunks, i + 1)
    ensures Built(Store(chunks, Addr(i), v), i)
  {
    forall j | 0 <= j < i ensures Addr(j) != Addr(i) {
      AddrDistinct(j, i);
    }
  }

  /** Freeing the element before position `k` extends the chain of later ones at the front. */
  lemma ChainFront(n: nat, k: nat)
    requires 1 <= k <= n
    ensures [Addr(k - 1)] + Addrs(n)[k..] == Addrs(n)[k - 1..]
  {
  }

  /**
   * The `i`-th allocation of a round lands at `Addr(i)`: a fresh slot when
   * the round opens the chunks, the head of the free chain otherwise.
   */
  method AllocAt(pool: MemPool<TestElem>, i: nat, ghost opening: bool) returns (a: Ptr)
    requires i < Total && Setup(pool) && Built(pool.chunks, i)
    requires opening ==> pool.chain == [] && FreshShape(pool.chunks, i)
    requires !opening ==> Full(pool.chunks) && pool.chain == Addrs(Total)[i..]
    modifies pool
    ensures a == Addr(i) && Setup(pool) && pool.Live(a) && Built(pool.chunks, i)
    ensures opening ==> pool.chain == [] && FreshShape(pool.chunks, i + 1)
    ensures !opening ==> Full(pool.chunks) && pool.chain == Addrs(Total)[i + 1..]
  {
    if opening {
      FreshStep(pool.chunks, i, pool.blank);
      AppendedSpec(pool.chunks, 2, pool.blank);
    } else {
      NotInTail(Total, i + 1);
      assert pool.chain[0] == Addr(i) && pool.chain[1..] == Addrs(Total)[i + 1..];
    }
    a := pool.AllocElem();
  }

  /**
   * One step of the allocation loop: allocate element `i`, store `i` in it
   * and, from the second element on, link it to the previous one.
   */
  method Place(pool: MemPool<TestElem>, i: nat, prev: Ptr, ghost opening: bool) returns (a: Ptr)
    requires i < Total && Setup(pool) && Built(pool.chunks, i) && (i > 0 ==> prev == Addr(i - 1))
    requires opening ==> pool.chain == [] && FreshShape(pool.chunks, i)
    requires !opening ==> Full(pool.chunks) && pool.chain == Addrs(Total)[i..]
    modifies pool
    ensures a == Addr(i) && Setup(pool) && Built(pool.chunks, i + 1)
    ensures opening ==> pool.chain == [] && FreshShape(pool.chunks, i + 1)
    ensures !opening ==> Full(pool.chunks) && pool.chain == Addrs(Total)[i + 1..]
  {
    a := AllocAt(pool, i, opening);
    var e := if i == 0 then pool.Get(a).(value := 0) else pool.Get(a).(value := i, link := prev);
    StoreShape(pool.chunks, a, e, i + 1);
    BuiltStep(pool.chunks, i, e);
    pool.Write(a, e);
  }

  /**
   * The allocation half of a round of `test_mempool`: allocate 128
   * elements, each storing its index and linked to the one before.  From
   * an empty pool this opens 64 chunks; from a pool whose free chain holds
   * all 128 addresses it reuses them, most recently freed first, and opens
   * none.
   */
  method Build(pool: MemPool<TestElem>) returns (a: Ptr)
    requires Setup(pool)
    requires (pool.chunks == [[]] && pool.chain == []) || (Full(pool.chunks) && pool.chain == Addrs(Total))
    modifies pool
    ensures Setup(pool) && Full(pool.chunks) && Built(pool.chunks, Total)
    ensures pool.chain == [] && a == Addr(Total - 1)
  {
    ghost var opening := pool.chain == [];
    a := Place(pool, 0, Null, opening);
    var i: nat := 1;
    while i < Total
      invariant 1 <= i <= Total && a == Addr(i - 1)
      invariant Setup(pool) && Built(pool.chunks, i)
      invariant opening ==> pool.chain == [] && FreshShape(pool.chunks, i)
      invariant !opening ==> Full(pool.chunks) && pool.chain == Addrs(Total)[i..]
      decreases Total - i
    {
      a := Place(pool, i, a, opening);
      i := i + 1;
    }
    if opening {
      FreshFull(pool.chunks);
    }
  }

  /**
   * One step of the release loop: element `k - 1` holds `k - 1`; read its
   * link, then free it onto the front of the chain.
   */
  method Retire(pool: MemPool<TestElem>, k: nat, a: Ptr) returns (next: Ptr)
    requires 0 < k <= Total && a == Addr(k - 1)
    requires Setup(pool) && Full(pool.chunks) && Built(pool.chunks, k)
    requires pool.chain == Addrs(Total)[k..]
    modifies pool
    ensures old(pool.Get(a)).value == k - 1 && (k > 1 ==> next == Addr(k - 2))
    ensures Setup(pool) && Full(pool.chunks) && Built(pool.chunks, k - 1)
    ensures pool.chain == Addrs(Total)[k - 1..]
  {
    assert pool.Get(a).value == k - 1;
    next := pool.Get(a).link;
    NotInTail(Total, k);
    var e := TestRelink(pool.Get(a), a, pool.free);
    StoreShape(pool.chunks, a, e, 0);
    BuiltKept(pool.chunks, k - 1, e);
    ChainFront(Total, k);
    pool.FreeElem(a);
  }

  /**
   * The release half of a round: walk back from the last element through
   * the links, check that each holds its index, and free it.  Every element
   * ends on the free chain, the first one allocated at its head, and the
   * chunks keep their shape.
   */
  method Unwind(pool: MemPool<TestElem>, last: Ptr)
    requires Setup(pool) && Full(pool.chunks) && Built(pool.chunks, Total)
    requires pool.chain == [] && last == Addr(Total - 1)
    modifies pool
    ensures Setup(pool) && Full(pool.chunks) && pool.chain == Addrs(Total)
  {
    var a := last;
    var k: nat := Total;
    while k > 0
      invariant k <= Total && (k > 0 ==> a == Addr(k - 1))
      invariant Setup(pool) && Full(pool.chunks) && Built(pool.chunks, k)
      invariant pool.chain == Addrs(Total)[k..]
      decreases k
    {
      a := Retire(pool, k, a);
      k := k - 1;
    }
  }

  /** One round of `test_mempool`: build the 128 linked elements, then free them all. */
  method Round(pool: MemPool<TestElem>)
    requires Setup(pool)
    requires (pool.chunks == [[]] && pool.chain == []) || (Full(pool.chunks) && pool.chain == Addrs(Total))
    modifies pool
    ensures Setup(pool) && Full(pool.chunks) && pool.chain == Addrs(Total)
  {
    var last := Build(pool);
    Unwind(pool, last);
  }

  /** `test_mempool`: two rounds; the pool ends with 64 full chunks and every element free. */
  method MemPoolScenario() returns (pool: MemPool<TestElem>)
    ensures Setup(pool) && Full(pool.chunks) && pool.chain == Addrs(Total)
  {
    pool := new MemPool(2, TestLink, TestRelink, TestElem(0, Null));
    Round(pool);
    Round(pool);
  }

  // ---------------------------------------------------------------------
  // test_basic_take_release: take, release and take again over [0, 10]
  // ---------------------------------------------------------------------

  /** Taking the least value of the first span shrinks it from below, or drops it when it held one value. */
  function WithoutLeast(sp: Span, rest: seq<Span>): seq<Span>
  {
    (if sp.min < sp.max then [Span(sp.min + 1, sp.max)] else []) + rest
  }

  lemma TakeFront(sp: Span, rest: seq<Span>)
    requires sp.min <= sp.max
    ensures TakeAt([sp] + rest, 0, sp.min) == WithoutLeast(sp, rest)
  {
  }

  /** `take_any` on a tree whose first untaken span is `sp`: it hands out `sp.min`. */
  method TakeLeast(r: RangeTree, sp: Span, rest: seq<Span>) returns (v: Option<int>)
    requires r.Valid() && r.Untaken() == [sp] + rest
    modifies r, r.list, r.pool
    ensures r.Valid() && v == Some(sp.min) && r.Untaken() == WithoutLeast(sp, rest)
  {
    assert sp == r.Untaken()[0];
    TakeFront(sp, rest);
    v := r.TakeAny();
  }

  /** `has(0)` while the one untaken span lies above 0: 0 is taken. */
  method HasZero(r: RangeTree, sp: Span) returns (b: bool)
    requires r.Valid() && r.lo == 0 && r.Untaken() == [sp] && sp.min > 0
    ensures !b
  {
    b := r.Has(0);
  }

  /** Releasing 0 below the one span `[2, 10]` adds a span of its own in front. */
  method ReleaseZero(r: RangeTree)
    requires r.Valid() && r.lo == 0 && r.hi == 10 && r.Untaken() == [Span(2, 10)]
    modifies r, r.list, r.pool
    ensures r.Valid() && r.Untaken() == [Span(0, 0)] + [Span(2, 10)]
  {
    assert ReleaseSpans([Span(2, 10)], 0) == [Span(0, 0)] + [Span(2, 10)];
    r.Release(0);
  }

  /** With `[2, 10]` untaken out of `[0, 10]`, the taken ranges are `[0, 1]`. */
  method RangesAfter(r: RangeTree) returns (taken: seq<Span>, untaken: seq<Span>)
    requires r.Valid() && r.lo == 0 && r.hi == 10 && r.Untaken() == [Span(2, 10)]
    ensures taken == [Span(0, 1)] && untaken == [Span(2, 10)]
  {
    assert Gaps([Span(2, 10)], 0, 10) == [Span(0, 1)];
    taken := r.RangesTakenAsVec();
    untaken := r.RangesUntakenAsVec();
  }

  /** A fresh tree over `[0, 10]`, nothing taken; `take_any` hands out 0, and 0 is then taken. */
  method Start() returns (r: RangeTree, first: Option<int>, hasFirst: bool)
    ensures fresh(r) && fresh(r.list) && fresh(r.pool)
    ensures r.Valid() && r.lo == 0 && r.hi == 10 && r.Untaken() == [Span(1, 10)]
    ensures first == Some(0) && !hasFirst
  {
    r := new RangeTree(0, 10, false);
    assert r.Untaken() == [Span(0, 10)] + [];
    first := TakeLeast(r, Span(0, 10), []);
    hasFirst := HasZero(r, Span(1, 10));
  }

  /** `take_any` hands out 1, then 0 is released again. */
  method Middle(r: RangeTree) returns (second: Option<int>)
    requires r.Valid() && r.lo == 0 && r.hi == 10 && r.Untaken() == [Span(1, 10)]
    modifies r, r.list, r.pool
    ensures r.Valid() && r.Untaken() == [Span(0, 0)] + [Span(2, 10)]
    ensures second == Some(1)
  {
    assert r.Untaken() == [Span(1, 10)] + [];
    second := TakeLeast(r, Span(1, 10), []);
    ReleaseZero(r);
  }

  /** `take_any` hands out the released 0, which is then taken; `[0, 1]` taken, `[2, 10]` untaken. */
  method Finish(r: RangeTree) returns (third: Option<int>, hasThird: bool, taken: seq<Span>, untaken: seq<Span>)
    requires r.Valid() && r.lo == 0 && r.hi == 10 && r.Untaken() == [Span(0, 0)] + [Span(2, 10)]
    modifies r, r.list, r.pool
    ensures third == Some(0) && !hasThird
    ensures taken == [Span(0, 1)] && untaken == [Span(2, 10)]
  {
    third := TakeLeast(r, Span(0, 0), [Span(2, 10)]);
    hasThird := HasZero(r, Span(2, 10));
    taken, untaken := RangesAfter(r);
  }

  /**
   * `test_basic_take_release`: over the domain [0, 10], nothing taken,
   * `take_any` hands out 0 and then 1; releasing 0 makes it the least
   * untaken value again, so the next `take_any` hands out 0 once more.
   * Afterwards 0 and 1 are the taken values and 2 to 10 the untaken ones.
   */
  method BasicTakeRelease() returns (first: Option<int>, second: Option<int>, third: Option<int>, hasFirst: bool, hasThird: bool, taken: seq<Span>, untaken: seq<Span>)
    ensures first == Some(0) && !hasFirst
    ensures second == Some(1)
    ensures third == Some(0) && !hasThird
    ensures taken == [Span(0, 1)] && untaken == [Span(2, 10)]
  {
    var r;
    r, first, hasFirst := Start();
    second := Middle(r);
    third, hasThird, taken, untaken := Finish(r);
  }
}
