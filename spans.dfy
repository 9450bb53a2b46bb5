/**
 * The abstract state of a range tree: the ascending list of its untaken
 * spans.  A `RangeTree` over the inclusive domain [lo, hi] keeps one list
 * node per maximal run of untaken values; every operation of lib.rs is
 * specified here as a function on that list, and its meaning (which values
 * are untaken afterwards) is proved about the function.
 */
module Spans {
  import opened Wrappers

  /** An inclusive range of values, `[min, max]` in the source. */
  datatype Span = Span(min: int, max: int)

  predicate Contains(sp: Span, v: int)
  {
    sp.min <= v <= sp.max
  }

  /**
   * The list invariant: every span non-empty and inside the domain, spans
   * ascending, and two neighbours always separated by at least one value
   * that is not in either (touching spans are merged by `release`).
   */
  ghost predicate WellFormed(s: seq<Span>, lo: int, hi: int)
  {
    && (forall i :: 0 <= i < |s| ==> lo <= s[i].min <= s[i].max <= hi)
    && (forall i :: 0 <= i < |s| - 1 ==> s[i].max + 1 < s[i + 1].min)
  }

  /** `v` lies in one of the spans. */
  ghost predicate Covers(s: seq<Span>, v: int)
  {
    exists i :: 0 <= i < |s| && Contains(s[i], v)
  }

  // ---------------------------------------------------------------------
  // Lookup
  // ---------------------------------------------------------------------

  /** The list scan of `find_node_from_value`: the first span containing `v`. */
  function FindIndex(s: seq<Span>, v: int): (r: Option<nat>)
    ensures r.Some? ==> r.value < |s| && Contains(s[r.value], v)
    ensures r.Some? ==> forall j :: 0 <= j < r.value ==> !Contains(s[j], v)
    ensures r.None? <==> !Covers(s, v)
  {
    if s == [] then None
    else if Contains(s[0], v) then Some(0)
    else
      var r := FindIndex(s[1..], v);
      assert forall j :: 1 <= j < |s| ==> s[j] == s[1..][j - 1];
      if r.Some? then Some(r.value + 1) else None
  }

  /** The list scan of `find_node_pair_around_value`: the first gap, from position `k` on, holding `v`. */
  function GapFrom(s: seq<Span>, v: int, k: nat): (r: Option<nat>)
    ensures r.Some? ==> k <= r.value && r.value + 1 < |s| && s[r.value].max < v < s[r.value + 1].min
    ensures r.None? ==> forall i :: k <= i < |s| - 1 ==> !(s[i].max < v < s[i + 1].min)
    decreases |s| - k
  {
    if k + 1 >= |s| then None
    else if s[k].max < v < s[k + 1].min then Some(k)
    else GapFrom(s, v, k + 1)
  }

  /**
   * `find_node_pair_around_value` on the list: the spans just below and just
   * above `v`, `None` standing for a null pointer.
   */
  function PairAround(s: seq<Span>, v: int): (Option<nat>, Option<nat>)
    requires s != []
  {
    if v < s[0].min then (None, Some(0))
    else if v > s[|s| - 1].max then (Some(|s| - 1), None)
    else
      var g := GapFrom(s, v, 0);
      if g.Some? then (Some(g.value), Some(g.value + 1)) else (None, None)
  }

  // ---------------------------------------------------------------------
  // Updates
  // ---------------------------------------------------------------------

  /** `take_impl` on the list: remove `v` from the span at `i` that holds it. */
  function TakeAt(s: seq<Span>, i: nat, v: int): seq<Span>
    requires i < |s| && Contains(s[i], v)
  {
    var sp := s[i];
    if sp.min == v then
      if sp.max != v then s[i := Span(v + 1, sp.max)] else s[..i] + s[i + 1..]
    else if sp.max == v then s[i := Span(sp.min, v - 1)]
    else s[..i] + [Span(sp.min, v - 1), Span(v + 1, sp.max)] + s[i + 1..]
  }

  /** `release` on the list, case by case as in the source. */
  function ReleaseSpans(s: seq<Span>, v: int): seq<Span>
  {
    if s == [] then [Span(v, v)]
    else
      var (p, n) := PairAround(s, v);
      var touchPrev := p.Some? && p.value < |s| && s[p.value].max + 1 == v;
      var touchNext := n.Some? && n.value < |s| && s[n.value].min - 1 == v;
      if touchPrev && touchNext then
        s[..p.value] + [Span(s[p.value].min, s[n.value].max)] + s[n.value + 1..]
      else if touchPrev then s[p.value := Span(s[p.value].min, v)]
      else if touchNext then s[n.value := Span(v, s[n.value].max)]
      else if p.Some? && p.value < |s| then s[..p.value + 1] + [Span(v, v)] + s[p.value + 1..]
      else if n.Some? && n.value < |s| then s[..n.value] + [Span(v, v)] + s[n.value..]
      else s + [Span(v, v)]
  }

  // ---------------------------------------------------------------------
  // The taken ranges
  // ---------------------------------------------------------------------

  /** The gaps between consecutive spans. */
  function InnerGaps(s: seq<Span>): seq<Span>
  {
    if |s| < 2 then [] else [Span(s[0].max + 1, s[1].min - 1)] + InnerGaps(s[1..])
  }

  /** The taken values as ranges: before the first span, between spans, after the last. */
  function Gaps(s: seq<Span>, lo: int, hi: int): seq<Span>
  {
    if s == [] then [Span(lo, hi)]
    else
      (if s[0].min != lo then [Span(lo, s[0].min - 1)] else [])
      + InnerGaps(s)
      + (if s[|s| - 1].max != hi then [Span(s[|s| - 1].max + 1, hi)] else [])
  }

  // =====================================================================
  // Lemmas
  // =====================================================================

  /** Spans further apart are separated too. */
  lemma {:induction false} Separated(s: seq<Span>, lo: int, hi: int, i: nat, j: nat)
    requires WellFormed(s, lo, hi) && i < j < |s|
    ensures s[i].max + 1 < s[j].min
    decreases j - i
  {
    if i + 1 < j {
      Separated(s, lo, hi, i + 1, j);
    }
  }

  /** In a well-formed list a value lies in at most one span. */
  lemma OnlySpan(s: seq<Span>, lo: int, hi: int, i: nat, v: int)
    requires WellFormed(s, lo, hi) && i < |s| && Contains(s[i], v)
    ensures forall j :: 0 <= j < |s| && j != i ==> !Contains(s[j], v)
  {
    forall j | 0 <= j < |s| && j != i ensures !Contains(s[j], v) {
      if j < i { Separated(s, lo, hi, j, i); } else { Separated(s, lo, hi, i, j); }
    }
  }

  /** The span found for `v` is the only one that holds it. */
  lemma FindIndexUnique(s: seq<Span>, lo: int, hi: int, i: nat, v: int)
    requires WellFormed(s, lo, hi) && i < |s| && Contains(s[i], v)
    ensures FindIndex(s, v) == Some(i)
  {
    OnlySpan(s, lo, hi, i, v);
  }

  /** Values covered by a list given piecewise. */
  lemma CoversConcat(a: seq<Span>, b: seq<Span>, v: int)
    ensures Covers(a + b, v) <==> Covers(a, v) || Covers(b, v)
  {
    if Covers(a + b, v) {
      var i :| 0 <= i < |a + b| && Contains((a + b)[i], v);
      if i >= |a| { assert (a + b)[i] == b[i - |a|]; }
    }
    if Covers(b, v) {
      var i :| 0 <= i < |b| && Contains(b[i], v);
      assert (a + b)[|a| + i] == b[i];
    }
    if Covers(a, v) {
      var i :| 0 <= i < |a| && Contains(a[i], v);
      assert (a + b)[i] == a[i];
    }
  }

  lemma CoversThree(a: seq<Span>, m: seq<Span>, b: seq<Span>, v: int)
    ensures Covers(a + m + b, v) <==> Covers(a, v) || Covers(m, v) || Covers(b, v)
  {
    CoversConcat(a + m, b, v);
    CoversConcat(a, m, v);
  }

  lemma CoversSingle(sp: Span, v: int)
    ensures Covers([sp], v) <==> Contains(sp, v)
  {
    if Contains(sp, v) { assert [sp][0] == sp; }
  }

  lemma CoversPair(x: Span, y: Span, v: int)
    ensures Covers([x, y], v) <==> Contains(x, v) || Contains(y, v)
  {
    assert [x, y] == [x] + [y];
    CoversConcat([x], [y], v);
    CoversSingle(x, v);
    CoversSingle(y, v);
  }

  lemma CoversTriple(x: Span, y: Span, z: Span, v: int)
    ensures Covers([x, y, z], v) <==> Contains(x, v) || Contains(y, v) || Contains(z, v)
  {
    assert [x, y, z] == [x] + [y, z];
    CoversConcat([x], [y, z], v);
    CoversSingle(x, v);
    CoversPair(y, z, v);
  }

  lemma WellFormedAppend(a: seq<Span>, b: seq<Span>, lo: int, hi: int)
    requires WellFormed(a, lo, hi) && WellFormed(b, lo, hi)
    requires a != [] && b != [] ==> a[|a| - 1].max + 1 < b[0].min
    ensures WellFormed(a + b, lo, hi)
  {
    var s := a + b;
    forall k | 0 <= k < |s| ensures lo <= s[k].min <= s[k].max <= hi {
      if k < |a| { assert s[k] == a[k]; } else { assert s[k] == b[k - |a|]; }
    }
    forall k | 0 <= k < |s| - 1 ensures s[k].max + 1 < s[k + 1].min {
      if k + 1 < |a| {
        assert s[k] == a[k] && s[k + 1] == a[k + 1];
      } else if k + 1 == |a| {
        assert s[k] == a[|a| - 1] && s[k + 1] == b[0];
      } else {
        assert s[k] == b[k - |a|] && s[k + 1] == b[k + 1 - |a|];
      }
    }
  }

  lemma WellFormedWiden(s: seq<Span>, lo: int, hi: int, lo': int, hi': int)
    requires WellFormed(s, lo, hi) && lo' <= lo && hi <= hi'
    ensures WellFormed(s, lo', hi')
  {
  }

  /** Cutting a well-formed list: the outer pieces stay well formed and keep to their side. */
  lemma Cut(s: seq<Span>, lo: int, hi: int, i: nat, j: nat)
    requires WellFormed(s, lo, hi) && i <= j <= |s|
    ensures s == s[..i] + s[i..j] + s[j..]
    ensures WellFormed(s[..i], lo, hi) && WellFormed(s[j..], lo, hi)
    ensures i > 0 ==> s[..i][|s[..i]| - 1] == s[i - 1]
    ensures j < |s| ==> s[j..][0] == s[j]
    ensures forall u :: Covers(s[..i], u) ==> i > 0 && u <= s[i - 1].max
    ensures forall u :: Covers(s[j..], u) ==> j < |s| && s[j].min <= u
  {
    CutLeft(s, lo, hi, i);
    CutRight(s, lo, hi, j);
    assert s == s[..i] + s[i..j] + s[j..];
  }

  /** The spans before `i` form a well-formed list that ends below span `i - 1`'s maximum. */
  lemma CutLeft(s: seq<Span>, lo: int, hi: int, i: nat)
    requires WellFormed(s, lo, hi) && i <= |s|
    ensures WellFormed(s[..i], lo, hi)
    ensures i > 0 ==> s[..i][|s[..i]| - 1] == s[i - 1]
    ensures forall u :: Covers(s[..i], u) ==> i > 0 && u <= s[i - 1].max
  {
    var a := s[..i];
    assert forall k :: 0 <= k < |a| ==> a[k] == s[k];
    forall u | Covers(a, u) ensures i > 0 && u <= s[i - 1].max {
      var k :| 0 <= k < |a| && Contains(a[k], u);
      if k < i - 1 { Separated(s, lo, hi, k, i - 1); }
    }
  }

  /** The spans from `j` on form a well-formed list that starts at span `j`'s minimum. */
  lemma CutRight(s: seq<Span>, lo: int, hi: int, j: nat)
    requires WellFormed(s, lo, hi) && j <= |s|
    ensures WellFormed(s[j..], lo, hi)
    ensures j < |s| ==> s[j..][0] == s[j]
    ensures forall u :: Covers(s[j..], u) ==> j < |s| && s[j].min <= u
  {
    var b := s[j..];
    assert forall k :: 0 <= k < |b| ==> b[k] == s[j + k];
    forall u | Covers(b, u) ensures j < |s| && s[j].min <= u {
      var k :| 0 <= k < |b| && Contains(b[k], u);
      if k > 0 { Separated(s, lo, hi, j, j + k); }
    }
  }

  /**
   * Replacing the slice `s[i..j]` by a well-formed list `m` lying within
   * [mlo, mhi], strictly apart from both neighbours.
   */
  lemma Splice(s: seq<Span>, lo: int, hi: int, i: nat, j: nat, m: seq<Span>, mlo: int, mhi: int)
    requires WellFormed(s, lo, hi) && i <= j <= |s|
    requires WellFormed(m, mlo, mhi) && lo <= mlo && mhi <= hi
    requires i > 0 ==> s[i - 1].max + 1 < mlo
    requires j < |s| ==> mhi + 1 < s[j].min
    ensures WellFormed(s[..i] + m + s[j..], lo, hi)
    ensures forall u :: Covers(s[..i] + m + s[j..], u) <==> Covers(s[..i], u) || Covers(m, u) || Covers(s[j..], u)
    ensures forall u :: Covers(s, u) <==> Covers(s[..i], u) || Covers(s[i..j], u) || Covers(s[j..], u)
    ensures forall u :: Covers(s[..i], u) ==> u + 1 < mlo
    ensures forall u :: Covers(s[j..], u) ==> mhi + 1 < u
  {
    Cut(s, lo, hi, i, j);
    var a, b := s[..i], s[j..];
    assert WellFormed(m, lo, hi);
    WellFormedAppend(a, m, lo, hi);
    if m == [] && i > 0 && j < |s| {
      Separated(s, lo, hi, i - 1, j);
    }
    if m != [] {
      assert (a + m)[|a + m| - 1] == m[|m| - 1];
    } else if i > 0 {
      assert a + m == a;
    }
    WellFormedAppend(a + m, b, lo, hi);
    forall u ensures Covers(a + m + b, u) <==> Covers(a, u) || Covers(m, u) || Covers(b, u) {
      CoversThree(a, m, b, u);
    }
    forall u ensures Covers(s, u) <==> Covers(a, u) || Covers(s[i..j], u) || Covers(b, u) {
      CoversThree(a, s[i..j], b, u);
    }
  }

  /** What `take_impl` puts in place of the span it takes `v` from. */
  function TakeMid(sp: Span, v: int): seq<Span>
  {
    if sp.min == v then (if sp.max != v then [Span(v + 1, sp.max)] else [])
    else if sp.max == v then [Span(sp.min, v - 1)]
    else [Span(sp.min, v - 1), Span(v + 1, sp.max)]
  }

  lemma TakeMidSpec(sp: Span, v: int)
    requires Contains(sp, v)
    ensures WellFormed(TakeMid(sp, v), sp.min, sp.max)
    ensures forall u :: Covers(TakeMid(sp, v), u) <==> Contains(sp, u) && u != v
  {
    var m := TakeMid(sp, v);
    forall u ensures Covers(m, u) <==> Contains(sp, u) && u != v {
      if |m| == 1 { CoversSingle(m[0], u); }
      if |m| == 2 { CoversPair(m[0], m[1], u); }
    }
  }

  lemma TakeAtSplice(s: seq<Span>, i: nat, v: int)
    requires i < |s| && Contains(s[i], v)
    ensures TakeAt(s, i, v) == s[..i] + TakeMid(s[i], v) + s[i + 1..]
    ensures s[i..i + 1] == [s[i]]
  {
    var sp := s[i];
    if (sp.min == v && sp.max != v) || (sp.min != v && sp.max == v) {
      assert TakeAt(s, i, v) == s[..i] + TakeMid(s[i], v) + s[i + 1..];
    }
  }

  /**
   * `take_impl` splitting a span: shrinking it to below `v` and adding the
   * part above `v` right after it.
   */
  lemma TakeSplitShape(s: seq<Span>, i: nat, v: int)
    requires i < |s| && s[i].min < v < s[i].max
    ensures var u := s[i := Span(s[i].min, v - 1)];
      u[..i + 1] + [Span(v + 1, s[i].max)] + u[i + 1..] == TakeAt(s, i, v)
  {
    var u := s[i := Span(s[i].min, v - 1)];
    assert u[..i + 1] == s[..i] + [Span(s[i].min, v - 1)];
    assert u[i + 1..] == s[i + 1..];
  }

  /**
   * `release` joining two spans: widening the span at `i` over the one at
   * `i + 1` and then dropping that one.
   */
  lemma MergeShape(s: seq<Span>, i: nat, sp: Span)
    requires i + 1 < |s|
    ensures var u := s[i := sp];
      u[..i + 1] + u[i + 2..] == s[..i] + [sp] + s[i + 2..]
  {
    var u := s[i := sp];
    assert u[..i + 1] == s[..i] + [sp];
    assert u[i + 2..] == s[i + 2..];
  }

  /** `take_impl` keeps the list well formed and takes exactly `v`. */
  lemma TakeAtSpec(s: seq<Span>, lo: int, hi: int, i: nat, v: int)
    requires WellFormed(s, lo, hi) && i < |s| && Contains(s[i], v)
    ensures WellFormed(TakeAt(s, i, v), lo, hi)
    ensures forall u :: Covers(TakeAt(s, i, v), u) <==> Covers(s, u) && u != v
  {
    var sp := s[i];
    TakeAtSplice(s, i, v);
    TakeMidSpec(sp, v);
    if i > 0 { Separated(s, lo, hi, i - 1, i); }
    Splice(s, lo, hi, i, i + 1, TakeMid(sp, v), sp.min, sp.max);
    forall u ensures Covers(TakeAt(s, i, v), u) <==> Covers(s, u) && u != v {
      CoversSingle(sp, u);
    }
  }

  /** The scan for a gap finds the one gap holding `v`. */
  lemma GapFound(s: seq<Span>, lo: int, hi: int, i: nat, v: int)
    requires WellFormed(s, lo, hi) && i + 1 < |s| && s[i].max < v < s[i + 1].min
    ensures GapFrom(s, v, 0) == Some(i)
  {
    var g := GapFrom(s, v, 0);
    if g != Some(i) {
      if g.Some? {
        var j := g.value;
        if j < i { Separated(s, lo, hi, j + 1, i); }
        if j > i { Separated(s, lo, hi, i + 1, j); }
      }
    }
  }

  /** A value between the first and last span that no span holds lies in some gap. */
  lemma {:induction false} Straddle(s: seq<Span>, lo: int, hi: int, v: int) returns (k: nat)
    requires WellFormed(s, lo, hi) && s != [] && !Covers(s, v) && s[0].min <= v <= s[|s| - 1].max
    ensures k + 1 < |s| && s[k].max < v < s[k + 1].min
  {
    assert !Contains(s[0], v) && !Contains(s[|s| - 1], v);
    k := 0;
    while !(v < s[k + 1].min)
      invariant k + 1 < |s| && s[k].max < v
      decreases |s| - k
    {
      assert !Contains(s[k + 1], v);
      k := k + 1;
    }
  }

  /**
   * For a value that is taken, `find_node_pair_around_value` finds the
   * nearest span below and the nearest span above; at most one is null.
   */
  lemma PairAroundSpec(s: seq<Span>, lo: int, hi: int, v: int)
    requires WellFormed(s, lo, hi) && s != [] && !Covers(s, v)
    ensures var (p, n) := PairAround(s, v);
      && (p.Some? || n.Some?)
      && (p.Some? ==> p.value < |s| && s[p.value].max < v)
      && (n.Some? ==> n.value < |s| && v < s[n.value].min)
      && (p.Some? && n.Some? ==> n.value == p.value + 1)
      && (p.None? ==> n == Some(0))
      && (n.None? ==> p == Some(|s| - 1))
  {
    if s[0].min <= v <= s[|s| - 1].max {
      var k := Straddle(s, lo, hi, v);
      GapFound(s, lo, hi, k, v);
    }
  }

  /** What `release` puts in place of the two spans around `v`. */
  function ReleaseMid(p: Span, n: Span, v: int): seq<Span>
  {
    if p.max + 1 == v && n.min - 1 == v then [Span(p.min, n.max)]
    else if p.max + 1 == v then [Span(p.min, v), n]
    else if n.min - 1 == v then [p, Span(v, n.max)]
    else [p, Span(v, v), n]
  }

  lemma ReleaseMidSpec(p: Span, n: Span, v: int)
    requires p.min <= p.max < v < n.min <= n.max
    ensures WellFormed(ReleaseMid(p, n, v), p.min, n.max)
    ensures forall u :: Covers(ReleaseMid(p, n, v), u) <==> Contains(p, u) || Contains(n, u) || u == v
  {
    var m := ReleaseMid(p, n, v);
    forall u ensures Covers(m, u) <==> Contains(p, u) || Contains(n, u) || u == v {
      if |m| == 1 { CoversSingle(m[0], u); }
      if |m| == 2 { CoversPair(m[0], m[1], u); }
      if |m| == 3 { CoversTriple(m[0], m[1], m[2], u); }
    }
  }

  /** Inside the extent of the spans, `PairAround` is the gap the scan finds, if any. */
  lemma PairAroundInside(s: seq<Span>, v: int)
    requires s != [] && s[0].min <= v <= s[|s| - 1].max
    ensures var g := GapFrom(s, v, 0);
      PairAround(s, v) == if g.Some? then (Some(g.value), Some((g.value + 1) as nat)) else (None, None)
  {
  }

  /** The cases of `release` on a list missing `v`, by which neighbours `v` touches. */
  lemma ReleaseCases(s: seq<Span>, lo: int, hi: int, v: int)
    requires WellFormed(s, lo, hi) && s != [] && !Covers(s, v)
    ensures var (p, n) := PairAround(s, v);
      var tp := p.Some? && p.value < |s| && s[p.value].max + 1 == v;
      var tn := n.Some? && n.value < |s| && s[n.value].min - 1 == v;
      && (p.Some? ==> p.value < |s|) && (n.Some? ==> n.value < |s|) && (p.Some? || n.Some?)
      && (tp && tn ==>
            && n.value == p.value + 1
            && ReleaseSpans(s, v) == s[..p.value] + [Span(s[p.value].min, s[p.value + 1].max)] + s[p.value + 2..])
      && (tp && !tn ==> ReleaseSpans(s, v) == s[p.value := Span(s[p.value].min, v)])
      && (!tp && tn ==> ReleaseSpans(s, v) == s[n.value := Span(v, s[n.value].max)])
      && (!tp && !tn && p.Some? ==> ReleaseSpans(s, v) == s[..p.value + 1] + [Span(v, v)] + s[p.value + 1..])
      && (!tp && !tn && p.None? ==> ReleaseSpans(s, v) == s[..n.value] + [Span(v, v)] + s[n.value..])
  {
    PairAroundSpec(s, lo, hi, v);
  }

  /** `release` keeps the list well formed and adds exactly `v`. */
  lemma ReleaseSpec(s: seq<Span>, lo: int, hi: int, v: int)
    requires WellFormed(s, lo, hi) && lo <= v <= hi && !Covers(s, v)
    ensures WellFormed(ReleaseSpans(s, v), lo, hi)
    ensures forall u :: Covers(ReleaseSpans(s, v), u) <==> Covers(s, u) || u == v
  {
    var r := ReleaseSpans(s, v);
    if s == [] {
      forall u ensures Covers(r, u) <==> u == v { CoversSingle(Span(v, v), u); }
    } else {
      PairAroundSpec(s, lo, hi, v);
      var (p, n) := PairAround(s, v);
      if p.Some? && n.Some? {
        ReleaseBetween(s, lo, hi, p.value, v);
      } else if n.Some? {
        ReleaseBefore(s, lo, hi, v);
      } else {
        ReleaseAfter(s, lo, hi, v);
      }
    }
  }

  /** `release` of a value between the spans at `i` and `i + 1`. */
  lemma ReleaseBetween(s: seq<Span>, lo: int, hi: int, i: nat, v: int)
    requires WellFormed(s, lo, hi) && i + 1 < |s| && s[i].max < v < s[i + 1].min
    requires PairAround(s, v).0 == Some(i) && PairAround(s, v).1 == Some(i + 1)
    ensures WellFormed(ReleaseSpans(s, v), lo, hi)
    ensures forall u :: Covers(ReleaseSpans(s, v), u) <==> Covers(s, u) || u == v
  {
    var P, N := s[i], s[i + 1];
    var m := ReleaseMid(P, N, v);
    ReleaseBetweenSplice(s, i, v);
    ReleaseMidSpec(P, N, v);
    if i > 0 { Separated(s, lo, hi, i - 1, i); }
    Splice(s, lo, hi, i, i + 2, m, P.min, N.max);
    forall u ensures Covers(ReleaseSpans(s, v), u) <==> Covers(s, u) || u == v {
      CoversPair(P, N, u);
    }
  }

  lemma ReleaseBetweenSplice(s: seq<Span>, i: nat, v: int)
    requires i + 1 < |s| && s[i].max < v < s[i + 1].min
    requires PairAround(s, v).0 == Some(i) && PairAround(s, v).1 == Some(i + 1)
    ensures ReleaseSpans(s, v) == s[..i] + ReleaseMid(s[i], s[i + 1], v) + s[i + 2..]
    ensures s[i..i + 2] == [s[i], s[i + 1]]
  {
    var P, N := s[i], s[i + 1];
    var r := ReleaseSpans(s, v);
    if P.max + 1 == v && N.min - 1 == v {
      assert r == s[..i] + [Span(P.min, N.max)] + s[i + 2..];
    } else if P.max + 1 == v {
      assert r == s[i := Span(P.min, v)];
      assert s == s[..i] + [P, N] + s[i + 2..];
    } else if N.min - 1 == v {
      assert r == s[i + 1 := Span(v, N.max)];
      assert s == s[..i] + [P, N] + s[i + 2..];
    } else {
      assert r == s[..i + 1] + [Span(v, v)] + s[i + 1..];
      assert s[..i + 1] == s[..i] + [P];
      assert s[i + 1..] == [N] + s[i + 2..];
    }
  }

  /** `release` of a value below the first span. */
  lemma ReleaseBefore(s: seq<Span>, lo: int, hi: int, v: int)
    requires WellFormed(s, lo, hi) && s != [] && lo <= v < s[0].min
    ensures WellFormed(ReleaseSpans(s, v), lo, hi)
    ensures forall u :: Covers(ReleaseSpans(s, v), u) <==> Covers(s, u) || u == v
  {
    var F := s[0];
    var m := if F.min - 1 == v then [Span(v, F.max)] else [Span(v, v), F];
    ReleaseBeforeShape(s, v);
    Splice(s, lo, hi, 0, 1, m, v, F.max);
    forall u ensures Covers(ReleaseSpans(s, v), u) <==> Covers(s, u) || u == v {
      CoversSingle(F, u);
      if |m| == 1 { CoversSingle(m[0], u); } else { CoversPair(m[0], m[1], u); }
    }
  }

  /** Releasing a value below the first span extends that span or puts a new one in front. */
  lemma ReleaseBeforeShape(s: seq<Span>, v: int)
    requires s != [] && v < s[0].min
    ensures var F := s[0];
      && s[0..1] == [F]
      && ReleaseSpans(s, v) == s[..0] + (if F.min - 1 == v then [Span(v, F.max)] else [Span(v, v), F]) + s[1..]
  {
    var F := s[0];
    assert PairAround(s, v) == (None, Some(0));
    assert s[0..1] == [F];
    assert s == [F] + s[1..];
  }

  /** `release` of a value above the last span. */
  lemma ReleaseAfter(s: seq<Span>, lo: int, hi: int, v: int)
    requires WellFormed(s, lo, hi) && s != [] && s[|s| - 1].max < v <= hi
    ensures WellFormed(ReleaseSpans(s, v), lo, hi)
    ensures forall u :: Covers(ReleaseSpans(s, v), u) <==> Covers(s, u) || u == v
  {
    var i := |s| - 1;
    var L := s[i];
    var m := if L.max + 1 == v then [Span(L.min, v)] else [L, Span(v, v)];
    assert s[0].min <= L.min by { if i > 0 { Separated(s, lo, hi, 0, i); } }
    ReleaseAfterShape(s, v);
    if i > 0 { Separated(s, lo, hi, i - 1, i); }
    Splice(s, lo, hi, i, i + 1, m, L.min, v);
    forall u ensures Covers(ReleaseSpans(s, v), u) <==> Covers(s, u) || u == v {
      CoversSingle(L, u);
      if |m| == 1 { CoversSingle(m[0], u); } else { CoversPair(m[0], m[1], u); }
    }
  }

  /** Releasing a value above the last span extends that span or appends a new one. */
  lemma ReleaseAfterShape(s: seq<Span>, v: int)
    requires s != [] && s[0].min <= s[|s| - 1].max < v
    ensures var i, L := |s| - 1, s[|s| - 1];
      && s[i..i + 1] == [L]
      && ReleaseSpans(s, v) == s[..i] + (if L.max + 1 == v then [Span(L.min, v)] else [L, Span(v, v)]) + s[i + 1..]
  {
    var i, L := |s| - 1, s[|s| - 1];
    assert PairAround(s, v) == (Some(i), None);
    assert s[i..i + 1] == [L];
    assert s[i + 1..] == [];
    if L.max + 1 == v {
      assert s[i := Span(L.min, v)] == s[..i] + [Span(L.min, v)];
    } else {
      assert s[..i + 1] == s[..i] + [L];
    }
  }

  // ---------------------------------------------------------------------
  // Release undoes take
  // ---------------------------------------------------------------------

  /** Every covered value lies between the first span's minimum and the last span's maximum. */
  lemma Bounds(s: seq<Span>, lo: int, hi: int)
    requires WellFormed(s, lo, hi) && s != []
    ensures forall u :: Covers(s, u) ==> s[0].min <= u <= s[|s| - 1].max
  {
    forall u | Covers(s, u) ensures s[0].min <= u <= s[|s| - 1].max {
      var k :| 0 <= k < |s| && Contains(s[k], u);
      if k > 0 { Separated(s, lo, hi, 0, k); }
      if k < |s| - 1 { Separated(s, lo, hi, k, |s| - 1); }
    }
  }

  /** `release(v)` right after `take(v)` gives back the list as it was. */
  lemma ReleaseTakeAt(s: seq<Span>, lo: int, hi: int, i: nat, v: int)
    requires WellFormed(s, lo, hi) && i < |s| && Contains(s[i], v)
    ensures ReleaseSpans(TakeAt(s, i, v), v) == s
  {
    var sp := s[i];
    if i > 0 { Separated(s, lo, hi, i - 1, i); }
    if i > 1 { Separated(s, lo, hi, 0, i - 1); }
    if i + 2 < |s| { Separated(s, lo, hi, i + 1, |s| - 1); }
    TakeAtSpec(s, lo, hi, i, v);
    if sp.min == v && sp.max != v {
      ReleaseRaisedMin(s, lo, hi, i, v);
    } else if sp.min == v {
      ReleaseRemoved(s, lo, hi, i, v);
    } else if sp.max == v {
      ReleaseLoweredMax(s, lo, hi, i, v);
    } else {
      ReleaseSplit(s, lo, hi, i, v);
    }
  }

  /** The span at `i` had lost its minimum `v`. */
  lemma ReleaseRaisedMin(s: seq<Span>, lo: int, hi: int, i: nat, v: int)
    requires WellFormed(s, lo, hi) && i < |s| && s[i].min == v < s[i].max
    requires i > 0 ==> s[0].min <= s[i - 1].max && s[i - 1].max + 1 < v
    requires i + 1 < |s| ==> s[i + 1].max <= s[|s| - 1].max
    ensures ReleaseSpans(s[i := Span(v + 1, s[i].max)], v) == s
  {
    var t := s[i := Span(v + 1, s[i].max)];
    assert v < t[i].max <= t[|t| - 1].max;
    if i == 0 {
      assert PairAround(t, v).0 == None && PairAround(t, v).1 == Some(0);
    } else {
      assert t[0] == s[0];
      assert WellFormed(t, lo, hi);
      GapFound(t, lo, hi, i - 1, v);
      assert PairAround(t, v).0 == Some(i - 1) && PairAround(t, v).1 == Some(i);
    }
    assert ReleaseSpans(t, v) == t[i := Span(v, s[i].max)];
  }

  /** The span at `i` had been the single value `v` and was removed. */
  lemma ReleaseRemoved(s: seq<Span>, lo: int, hi: int, i: nat, v: int)
    requires WellFormed(s, lo, hi) && i < |s| && s[i].min == v == s[i].max
    requires i > 0 ==> s[0].min <= s[i - 1].max && s[i - 1].max + 1 < v
    requires i + 1 < |s| ==> v + 1 < s[i + 1].min && s[i + 1].max <= s[|s| - 1].max
    ensures ReleaseSpans(s[..i] + s[i + 1..], v) == s
  {
    if |s| == 1 {
      assert s[..i] + s[i + 1..] == [];
      assert s == [Span(v, v)];
    } else if i == 0 {
      ReleaseRemovedFirst(s, v);
    } else if i == |s| - 1 {
      ReleaseRemovedLast(s, v);
    } else {
      ReleaseRemovedInner(s, lo, hi, i, v);
    }
  }

  lemma ReleaseRemovedFirst(s: seq<Span>, v: int)
    requires |s| > 1 && s[0] == Span(v, v) && v + 1 < s[1].min
    ensures ReleaseSpans(s[..0] + s[1..], v) == s
  {
    var t := s[1..];
    assert s[..0] + s[1..] == t;
    assert t[0] == s[1];
    assert PairAround(t, v).0 == None && PairAround(t, v).1 == Some(0);
    assert ReleaseSpans(t, v) == t[..0] + [Span(v, v)] + t[0..];
    assert [Span(v, v)] + t == s;
  }

  lemma ReleaseRemovedLast(s: seq<Span>, v: int)
    requires |s| > 1 && s[|s| - 1] == Span(v, v)
    requires s[0].min <= s[|s| - 2].max && s[|s| - 2].max + 1 < v
    ensures ReleaseSpans(s[..|s| - 1] + s[|s|..], v) == s
  {
    var i := |s| - 1;
    var t := s[..i];
    assert s[..i] + s[i + 1..] == t;
    assert t[0] == s[0] && t[|t| - 1] == s[i - 1];
    assert PairAround(t, v).0 == Some(i - 1) && PairAround(t, v).1 == None;
    assert ReleaseSpans(t, v) == t[..i] + [Span(v, v)] + t[i..];
    assert t + [Span(v, v)] == s;
  }

  lemma ReleaseRemovedInner(s: seq<Span>, lo: int, hi: int, i: nat, v: int)
    requires WellFormed(s, lo, hi) && 0 < i < |s| - 1 && s[i] == Span(v, v)
    requires s[0].min <= s[i - 1].max && s[i - 1].max + 1 < v
    requires v + 1 < s[i + 1].min && s[i + 1].max <= s[|s| - 1].max
    ensures ReleaseSpans(s[..i] + s[i + 1..], v) == s
  {
    var a, b := s[..i], s[i + 1..];
    var t := a + b;
    RemoveWellFormed(s, lo, hi, i);
    RemoveShape(s, i);
    GapFound(t, lo, hi, i - 1, v);
    ReleaseRemovedResult(t, a, b, v);
  }

  /** The neighbours and the ends of a list with its span `i` dropped. */
  lemma RemoveShape(s: seq<Span>, i: nat)
    requires 0 < i < |s| - 1
    ensures var a, b := s[..i], s[i + 1..]; var t := a + b;
      && |a| == i && |t| == |s| - 1
      && t[i - 1] == s[i - 1] && t[i] == s[i + 1]
      && t[0] == s[0] && t[|t| - 1] == s[|s| - 1]
      && a + [s[i]] + b == s
  {
    var a, b := s[..i], s[i + 1..];
    assert a + [s[i]] + b == s;
  }

  lemma ReleaseRemovedResult(t: seq<Span>, a: seq<Span>, b: seq<Span>, v: int)
    requires t == a + b && a != [] && b != []
    requires t[0].min <= v <= t[|t| - 1].max && GapFrom(t, v, 0) == Some(|a| - 1)
    requires t[|a| - 1].max + 1 < v && v + 1 < t[|a|].min
    ensures ReleaseSpans(t, v) == a + [Span(v, v)] + b
  {
    var i := |a|;
    assert PairAround(t, v).0 == Some(i - 1) && PairAround(t, v).1 == Some(i);
    assert ReleaseSpans(t, v) == t[..i] + [Span(v, v)] + t[i..];
    assert t[..i] == a && t[i..] == b;
  }

  /** Dropping one span keeps a list well formed. */
  lemma RemoveWellFormed(s: seq<Span>, lo: int, hi: int, i: nat)
    requires WellFormed(s, lo, hi) && i < |s|
    ensures WellFormed(s[..i] + s[i + 1..], lo, hi)
  {
    Cut(s, lo, hi, i, i + 1);
    if 0 < i < |s| - 1 { Separated(s, lo, hi, i - 1, i + 1); }
    WellFormedAppend(s[..i], s[i + 1..], lo, hi);
  }

  /** The span at `i` had lost its maximum `v`. */
  lemma ReleaseLoweredMax(s: seq<Span>, lo: int, hi: int, i: nat, v: int)
    requires WellFormed(s, lo, hi) && i < |s| && s[i].min < v == s[i].max
    requires i > 0 ==> s[0].min <= s[i - 1].max
    requires i + 1 < |s| ==> v + 1 < s[i + 1].min && s[i + 1].max <= s[|s| - 1].max
    ensures ReleaseSpans(s[i := Span(s[i].min, v - 1)], v) == s
  {
    var t := s[i := Span(s[i].min, v - 1)];
    assert t[0].min < v by { if i > 0 { assert t[0] == s[0]; } }
    if i == |s| - 1 {
      assert PairAround(t, v).0 == Some(i) && PairAround(t, v).1 == None;
    } else {
      assert WellFormed(t, lo, hi);
      GapFound(t, lo, hi, i, v);
      assert PairAround(t, v).0 == Some(i) && PairAround(t, v).1 == Some(i + 1);
    }
    assert ReleaseSpans(t, v) == t[i := Span(s[i].min, v)];
  }

  /** The span at `i` had been split around `v`. */
  lemma ReleaseSplit(s: seq<Span>, lo: int, hi: int, i: nat, v: int)
    requires WellFormed(s, lo, hi) && i < |s| && s[i].min < v < s[i].max
    requires i > 0 ==> s[0].min <= s[i - 1].max
    requires i + 1 < |s| ==> s[i + 1].max <= s[|s| - 1].max
    requires WellFormed(s[..i] + [Span(s[i].min, v - 1), Span(v + 1, s[i].max)] + s[i + 1..], lo, hi)
    ensures ReleaseSpans(s[..i] + [Span(s[i].min, v - 1), Span(v + 1, s[i].max)] + s[i + 1..], v) == s
  {
    var sp := s[i];
    var a, b := s[..i], s[i + 1..];
    var t := a + [Span(sp.min, v - 1), Span(v + 1, sp.max)] + b;
    assert t[i] == Span(sp.min, v - 1) && t[i + 1] == Span(v + 1, sp.max);
    assert t[0].min < v by { if i > 0 { assert t[0] == s[0]; } }
    assert v < t[|t| - 1].max by { if i + 1 < |s| { assert t[|t| - 1] == s[|s| - 1]; } }
    GapFound(t, lo, hi, i, v);
    ReleaseSplitResult(t, a, b, sp, v);
    assert a + [sp] + b == s;
  }

  lemma ReleaseSplitResult(t: seq<Span>, a: seq<Span>, b: seq<Span>, sp: Span, v: int)
    requires t == a + [Span(sp.min, v - 1), Span(v + 1, sp.max)] + b
    requires t[0].min <= v <= t[|t| - 1].max && GapFrom(t, v, 0) == Some(|a|)
    ensures ReleaseSpans(t, v) == a + [sp] + b
  {
    var i := |a|;
    assert t[i] == Span(sp.min, v - 1) && t[i + 1] == Span(v + 1, sp.max);
    assert PairAround(t, v).0 == Some(i) && PairAround(t, v).1 == Some(i + 1);
    assert ReleaseSpans(t, v) == t[..i] + [sp] + t[i + 2..];
    assert t[..i] == a && t[i + 2..] == b;
  }

  // ---------------------------------------------------------------------
  // Taken ranges, emptiness and fullness
  // ---------------------------------------------------------------------

  /**
   * Reading the gaps from the front: the gaps found so far, then the gaps of
   * the spans from `k` on, are all the gaps; one more step moves the gap
   * after span `k` from the second part to the first.
   */
  lemma InnerGapsStep(s: seq<Span>, k: nat, r: seq<Span>, r': seq<Span>)
    requires k + 1 < |s| && r + InnerGaps(s[k..]) == InnerGaps(s)
    requires r' == r + [Span(s[k].max + 1, s[k + 1].min - 1)]
    ensures r' + InnerGaps(s[k + 1..]) == InnerGaps(s)
  {
    InnerGapsDrop(s, k);
    AppendAssoc(r, [Span(s[k].max + 1, s[k + 1].min - 1)], InnerGaps(s[k + 1..]));
  }

  /** Once only the last span is left, the gaps found so far are all the gaps. */
  lemma InnerGapsDone(s: seq<Span>, k: nat, r: seq<Span>)
    requires k + 1 == |s| && r + InnerGaps(s[k..]) == InnerGaps(s)
    ensures r == InnerGaps(s)
  {
    assert |s[k..]| == 1;
    assert r + [] == r;
  }

  /** Concatenation of spans is associative. */
  lemma AppendAssoc(a: seq<Span>, b: seq<Span>, c: seq<Span>)
    ensures (a + b) + c == a + (b + c)
  {
  }

  /** Dropping the first `k` spans drops the first `k` gaps. */
  lemma InnerGapsDrop(s: seq<Span>, k: nat)
    requires k + 1 < |s|
    ensures InnerGaps(s[k..]) == [Span(s[k].max + 1, s[k + 1].min - 1)] + InnerGaps(s[k + 1..])
  {
    var t := s[k..];
    assert t[0] == s[k] && t[1] == s[k + 1];
    assert t[1..] == s[k + 1..];
  }

  /** The inner gap at position `i` lies between the spans at `i` and `i + 1`. */
  lemma {:induction false} InnerGapsAt(s: seq<Span>)
    requires s != []
    ensures |InnerGaps(s)| == |s| - 1
    ensures forall i :: 0 <= i < |s| - 1 ==> InnerGaps(s)[i] == Span(s[i].max + 1, s[i + 1].min - 1)
  {
    if |s| >= 2 {
      var t := s[1..];
      InnerGapsAt(t);
      assert InnerGaps(s) == [Span(s[0].max + 1, s[1].min - 1)] + InnerGaps(t);
      forall i | 1 <= i < |s| - 1
        ensures InnerGaps(s)[i] == Span(s[i].max + 1, s[i + 1].min - 1)
      {
        assert InnerGaps(s)[i] == InnerGaps(t)[i - 1];
        assert t[i - 1] == s[i] && t[i] == s[i + 1];
      }
    }
  }

  /** The inner gaps lie between the first and the last span. */
  lemma {:induction false} InnerGapsWellFormed(s: seq<Span>, lo: int, hi: int)
    requires WellFormed(s, lo, hi) && |s| >= 2
    ensures WellFormed(InnerGaps(s), s[0].max + 1, s[|s| - 1].min - 1)
  {
    var g := Span(s[0].max + 1, s[1].min - 1);
    var t := s[1..];
    assert InnerGaps(s) == [g] + InnerGaps(t);
    assert s[0].max + 1 < s[1].min;
    if |s| == 2 {
      assert InnerGaps(s) == [g];
    } else {
      Cut(s, lo, hi, 1, 1);
      InnerGapsWellFormed(t, lo, hi);
      assert t[0] == s[1] && t[|t| - 1] == s[|s| - 1];
      Separated(s, lo, hi, 1, |s| - 1);
      WellFormedWiden(InnerGaps(t), t[0].max + 1, t[|t| - 1].min - 1, s[0].max + 1, s[|s| - 1].min - 1);
      assert InnerGaps(t)[0].min == s[1].max + 1;
      WellFormedAppend([g], InnerGaps(t), s[0].max + 1, s[|s| - 1].min - 1);
    }
  }

  /** The inner gaps hold exactly the values between the first and last span that no span holds. */
  lemma {:induction false} InnerGapsCovers(s: seq<Span>, lo: int, hi: int)
    requires WellFormed(s, lo, hi) && |s| >= 2
    ensures forall u :: Covers(InnerGaps(s), u) <==> s[0].min <= u <= s[|s| - 1].max && !Covers(s, u)
  {
    var g := Span(s[0].max + 1, s[1].min - 1);
    var t := s[1..];
    assert s == [s[0]] + t;
    assert InnerGaps(s) == [g] + InnerGaps(t);
    assert s[0].min <= s[0].max && s[0].max + 1 < s[1].min <= s[1].max;
    if |s| == 2 {
      assert s == [s[0], s[1]];
      assert InnerGaps(s) == [g];
      forall u ensures Covers(InnerGaps(s), u) <==> s[0].min <= u <= s[1].max && !Covers(s, u) {
        CoversSingle(g, u);
        CoversPair(s[0], s[1], u);
      }
    } else {
      Cut(s, lo, hi, 1, 1);
      InnerGapsCovers(t, lo, hi);
      Bounds(t, lo, hi);
      Separated(s, lo, hi, 1, |s| - 1);
      assert t[0] == s[1] && t[|t| - 1] == s[|s| - 1];
      forall u ensures Covers(InnerGaps(s), u) <==> s[0].min <= u <= s[|s| - 1].max && !Covers(s, u) {
        CoversConcat([g], InnerGaps(t), u);
        CoversSingle(g, u);
        CoversConcat([s[0]], t, u);
        CoversSingle(s[0], u);
      }
    }
  }

  /** The taken ranges of a non-empty list: before the first span, between spans, after the last. */
  lemma GapsParts(s: seq<Span>, lo: int, hi: int, before: seq<Span>, after: seq<Span>)
    requires s != []
    requires before == if s[0].min != lo then [Span(lo, s[0].min - 1)] else []
    requires after == if s[|s| - 1].max != hi then [Span(s[|s| - 1].max + 1, hi)] else []
    ensures Gaps(s, lo, hi) == before + InnerGaps(s) + after
  {
  }

  /**
   * `ranges_taken_as_vec` lists the taken values: a well-formed list of
   * ranges within the domain holding exactly the values that no span holds.
   */
  lemma GapsSpec(s: seq<Span>, lo: int, hi: int)
    requires WellFormed(s, lo, hi) && lo <= hi
    ensures WellFormed(Gaps(s, lo, hi), lo, hi)
    ensures forall u :: Covers(Gaps(s, lo, hi), u) <==> lo <= u <= hi && !Covers(s, u)
  {
    if s == [] {
      forall u ensures Covers(Gaps(s, lo, hi), u) <==> lo <= u <= hi { CoversSingle(Span(lo, hi), u); }
    } else {
      GapsWellFormed(s, lo, hi);
      forall u ensures Covers(Gaps(s, lo, hi), u) <==> lo <= u <= hi && !Covers(s, u) {
        GapsCovers(s, lo, hi, u);
      }
    }
  }

  lemma GapsWellFormed(s: seq<Span>, lo: int, hi: int)
    requires WellFormed(s, lo, hi) && s != []
    ensures WellFormed(Gaps(s, lo, hi), lo, hi)
  {
    var f, l := s[0], s[|s| - 1];
    var A := if f.min != lo then [Span(lo, f.min - 1)] else [];
    var C := if l.max != hi then [Span(l.max + 1, hi)] else [];
    GapsParts(s, lo, hi, A, C);
    assert lo <= f.min <= f.max && l.min <= l.max <= hi;
    if |s| >= 2 {
      GapsInner(s, lo, hi);
      GapsPieces(Gaps(s, lo, hi), A, InnerGaps(s), C, lo, hi, f, l);
    } else {
      assert InnerGaps(s) == [] && f == l;
      GapsPieces(Gaps(s, lo, hi), A, [], C, lo, hi, f, l);
    }
  }

  /** With two spans or more, the inner gaps fill the room between the first and the last span. */
  lemma GapsInner(s: seq<Span>, lo: int, hi: int)
    requires WellFormed(s, lo, hi) && |s| >= 2
    ensures s[0].max + 1 < s[|s| - 1].min
    ensures WellFormed(InnerGaps(s), s[0].max + 1, s[|s| - 1].min - 1)
    ensures InnerGaps(s) != [] && InnerGaps(s)[0].min == s[0].max + 1
    ensures InnerGaps(s)[|InnerGaps(s)| - 1].max <= s[|s| - 1].min - 1
  {
    InnerGapsWellFormed(s, lo, hi);
    Separated(s, lo, hi, 0, |s| - 1);
    InnerGapsEnds(s, lo, hi);
  }

  lemma GapsPieces(r: seq<Span>, a: seq<Span>, b: seq<Span>, c: seq<Span>, lo: int, hi: int, f: Span, l: Span)
    requires r == a + b + c
    requires lo <= f.min <= f.max && l.min <= l.max <= hi
    requires a == if f.min != lo then [Span(lo, f.min - 1)] else []
    requires c == if l.max != hi then [Span(l.max + 1, hi)] else []
    requires b == [] ==> f == l
    requires b != [] ==> f.max + 1 < l.min && WellFormed(b, f.max + 1, l.min - 1)
    requires b != [] ==> b[0].min == f.max + 1 && b[|b| - 1].max <= l.min - 1
    ensures WellFormed(r, lo, hi)
  {
    if b != [] {
      WellFormedWiden(b, f.max + 1, l.min - 1, lo, hi);
    }
    WellFormedAppend3(a, b, c, lo, hi);
  }

  lemma InnerGapsEnds(s: seq<Span>, lo: int, hi: int)
    requires WellFormed(s, lo, hi) && |s| >= 2
    requires WellFormed(InnerGaps(s), s[0].max + 1, s[|s| - 1].min - 1)
    ensures InnerGaps(s) != [] && InnerGaps(s)[0].min == s[0].max + 1
    ensures InnerGaps(s)[|InnerGaps(s)| - 1].max <= s[|s| - 1].min - 1
  {
    assert InnerGaps(s) == [Span(s[0].max + 1, s[1].min - 1)] + InnerGaps(s[1..]);
  }

  lemma WellFormedAppend3(a: seq<Span>, b: seq<Span>, c: seq<Span>, lo: int, hi: int)
    requires WellFormed(a, lo, hi) && WellFormed(b, lo, hi) && WellFormed(c, lo, hi)
    requires a != [] && b != [] ==> a[|a| - 1].max + 1 < b[0].min
    requires b != [] && c != [] ==> b[|b| - 1].max + 1 < c[0].min
    requires a != [] && c != [] ==> a[|a| - 1].max + 1 < c[0].min
    ensures WellFormed(a + b + c, lo, hi)
  {
    WellFormedAppend(a, b, lo, hi);
    if b != [] { assert (a + b)[|a + b| - 1] == b[|b| - 1]; }
    else if a != [] { assert a + b == a; }
    WellFormedAppend(a + b, c, lo, hi);
  }

  lemma GapsCovers(s: seq<Span>, lo: int, hi: int, u: int)
    requires WellFormed(s, lo, hi) && s != []
    ensures Covers(Gaps(s, lo, hi), u) <==> lo <= u <= hi && !Covers(s, u)
  {
    var f, l := s[0], s[|s| - 1];
    var A := if f.min != lo then [Span(lo, f.min - 1)] else [];
    var B := InnerGaps(s);
    var C := if l.max != hi then [Span(l.max + 1, hi)] else [];
    assert Gaps(s, lo, hi) == A + B + C;
    assert lo <= f.min <= f.max && l.min <= l.max <= hi;
    Bounds(s, lo, hi);
    if |s| >= 2 {
      InnerGapsCovers(s, lo, hi);
    } else {
      assert B == [] && f == l;
    }
    CoversThree(A, B, C, u);
    if A != [] { CoversSingle(A[0], u); }
    if C != [] { CoversSingle(C[0], u); }
    if f.min <= u <= f.max { assert Contains(s[0], u); }
    if l.min <= u <= l.max { assert Contains(s[|s| - 1], u); }
  }

  /** `is_empty`: a single node spanning the whole domain. */
  predicate IsEmpty(s: seq<Span>, lo: int, hi: int)
  {
    |s| == 1 && s[0] == Span(lo, hi)
  }

  /** No value is taken exactly when the list is the one span of the whole domain. */
  lemma IsEmptySpec(s: seq<Span>, lo: int, hi: int)
    requires WellFormed(s, lo, hi) && lo <= hi
    ensures IsEmpty(s, lo, hi) <==> forall u :: lo <= u <= hi ==> Covers(s, u)
  {
    if IsEmpty(s, lo, hi) {
      forall u | lo <= u <= hi ensures Covers(s, u) { assert Contains(s[0], u); }
    } else {
      var u := Uncovered(s, lo, hi);
      assert lo <= u <= hi && !Covers(s, u);
    }
  }

  /** A taken value, when not the whole domain is one span. */
  lemma Uncovered(s: seq<Span>, lo: int, hi: int) returns (u: int)
    requires WellFormed(s, lo, hi) && lo <= hi && !IsEmpty(s, lo, hi)
    ensures lo <= u <= hi && !Covers(s, u)
  {
    if s == [] {
      u := lo;
    } else {
      var f, l := s[0], s[|s| - 1];
      if f.min != lo {
        u := lo;
      } else if |s| >= 2 {
        u := f.max + 1;
        assert f.max + 1 < s[1].min <= s[1].max <= hi;
      } else {
        assert f.max != hi && f == l;
        u := hi;
      }
      GapsCovers(s, lo, hi, u);
      if |s| >= 2 && f.min == lo {
        InnerGapsCovers(s, lo, hi);
        assert InnerGaps(s)[0] == Span(f.max + 1, s[1].min - 1);
        CoversConcat([Span(f.max + 1, s[1].min - 1)], InnerGaps(s[1..]), u);
        CoversSingle(Span(f.max + 1, s[1].min - 1), u);
      }
      var A := if f.min != lo then [Span(lo, f.min - 1)] else [];
      var C := if l.max != hi then [Span(l.max + 1, hi)] else [];
      CoversThree(A, InnerGaps(s), C, u);
      if A != [] { CoversSingle(A[0], u); }
      if C != [] { CoversSingle(C[0], u); }
    }
  }

  /** All values are taken exactly when the list is empty. */
  lemma IsFullSpec(s: seq<Span>, lo: int, hi: int)
    requires WellFormed(s, lo, hi)
    ensures s == [] <==> forall u :: lo <= u <= hi ==> !Covers(s, u)
  {
    if s != [] {
      var u := s[0].min;
      assert lo <= u <= hi;
      assert Contains(s[0], u);
      assert Covers(s, u);
    }
  }

  /** `take_any` takes the least untaken value: the minimum of the first span. */
  lemma TakeAnyLeast(s: seq<Span>, lo: int, hi: int)
    requires WellFormed(s, lo, hi) && s != []
    ensures Covers(s, s[0].min)
    ensures forall u :: Covers(s, u) ==> s[0].min <= u
  {
    assert Contains(s[0], s[0].min);
    Bounds(s, lo, hi);
  }
}
