/**
 * The left-leaning red-black tree (2-3 variant) that indexes the range nodes
 * by their lower bound.  The source links tree nodes through raw pointers and
 * rewrites `left`, `right` and `color` in place; here a tree is a value of
 * type `Tree<R>` whose nodes carry a reference `R` into the node arena, and
 * every rebalancing step is a function from the old shape to the new one.
 * Keys are read through `key: R -> int`, i.e. the lower bound stored in the
 * referenced arena node.
 */
module RedBlack {
  import opened Wrappers

  /** `RED` is `false` and `BLACK` is `true` in the source. */
  datatype Color = Red | Black

  datatype Tree<R> = Leaf | Node(color: Color, left: Tree<R>, ref: R, right: Tree<R>)

  function Toggle(c: Color): Color { if c == Red then Black else Red }

  // ---------------------------------------------------------------------
  // Abstract views and invariants
  // ---------------------------------------------------------------------

  /** The references of a tree in symmetric order. */
  function Inorder<R>(t: Tree<R>): seq<R>
  {
    match t
    case Leaf => []
    case Node(_, l, x, r) => Inorder(l) + [x] + Inorder(r)
  }

  /** Number of black nodes on the leftmost path (the black height when `Bal`). */
  ghost function BH<R>(t: Tree<R>): nat
  {
    match t
    case Leaf => 0
    case Node(c, l, _, _) => BH(l) + (if c == Black then 1 else 0)
  }

  /** Every path from a node down to a leaf crosses the same number of black nodes. */
  ghost predicate Bal<R>(t: Tree<R>)
  {
    match t
    case Leaf => true
    case Node(_, l, _, r) => Bal(l) && Bal(r) && BH(l) == BH(r)
  }

  /** Left-leaning colour discipline: no red right child, no red node with a red left child. */
  ghost predicate RedOk<R>(t: Tree<R>)
  {
    match t
    case Leaf => true
    case Node(c, l, _, r) => RedOk(l) && RedOk(r) && !IsRed(r) && (c == Red ==> !IsRed(l))
  }

  /** A valid tree root: balanced, left-leaning, black (or empty). */
  ghost predicate IsLlrb<R>(t: Tree<R>)
  {
    Bal(t) && RedOk(t) && !IsRed(t)
  }

  /** Keys strictly ascending along a sequence of references. */
  ghost predicate Increasing<R>(s: seq<R>, key: R -> int)
  {
    forall i, j :: 0 <= i < j < |s| ==> key(s[i]) < key(s[j])
  }

  /** Search-tree order: keys strictly ascending in symmetric order. */
  ghost predicate Ordered<R>(t: Tree<R>, key: R -> int)
  {
    Increasing(Inorder(t), key)
  }

  // ---------------------------------------------------------------------
  // Elementary operations
  // ---------------------------------------------------------------------

  /** A null pointer is black. */
  predicate IsRed<R>(t: Tree<R>)
  {
    t.Node? && t.color == Red
  }

  /** Three-way comparison of two keys. */
  function KeyCmp(k1: int, k2: int): (r: int)
    ensures r == 0 <==> k1 == k2
    ensures r == -1 <==> k1 < k2
    ensures r == 1 <==> k1 > k2
  {
    if k1 == k2 then 0 else if k1 < k2 then -1 else 1
  }

  function RotateLeft<R>(h: Tree<R>): (r: Tree<R>)
    requires h.Node? && h.right.Node?
    ensures r.Node? && r.left.Node? && r.color == h.color && r.left.color == Red
    ensures Inorder(r) == Inorder(h)
  {
    var x := h.right;
    Node(h.color, Node(Red, h.left, h.ref, x.left), x.ref, x.right)
  }

  function RotateRight<R>(h: Tree<R>): (r: Tree<R>)
    requires h.Node? && h.left.Node?
    ensures r.Node? && r.right.Node? && r.color == h.color && r.right.color == Red
    ensures Inorder(r) == Inorder(h)
  {
    var x := h.left;
    Node(h.color, x.left, x.ref, Node(Red, x.right, h.ref, h.right))
  }

  function FlipColor<R>(h: Tree<R>): (r: Tree<R>)
    requires h.Node? && h.left.Node? && h.right.Node?
    ensures r.Node? && r.left.Node? && r.right.Node?
    ensures Inorder(r) == Inorder(h)
  {
    Node(Toggle(h.color), h.left.(color := Toggle(h.left.color)), h.ref,
         h.right.(color := Toggle(h.right.color)))
  }

  /** Assuming `h` is red and `h.left`, `h.left.left` are black, make `h.left` or one of its children red. */
  function MoveRedToLeft<R>(h: Tree<R>): (r: Tree<R>)
    requires h.Node? && h.left.Node? && h.right.Node?
    ensures r.Node? && Inorder(r) == Inorder(h)
  {
    var f := FlipColor(h);
    if f.right.Node? && IsRed(f.right.left) then
      FlipColor(RotateLeft(f.(right := RotateRight(f.right))))
    else
      f
  }

  /** Assuming `h` is red and `h.right`, `h.right.left` are black, make `h.right` or one of its children red. */
  function MoveRedToRight<R>(h: Tree<R>): (r: Tree<R>)
    requires h.Node? && h.left.Node? && h.right.Node?
    ensures r.Node? && Inorder(r) == Inorder(h)
  {
    var f := FlipColor(h);
    if f.left.Node? && IsRed(f.left.left) then
      FlipColor(RotateRight(f))
    else
      f
  }

  /** The root recolouring at the end of `insert_root` and `remove_root`: a non-empty root turns black. */
  function SetBlack<R>(t: Tree<R>): (r: Tree<R>)
    ensures r.Node? <==> t.Node?
    ensures r.Node? ==> r.color == Black && r.left == t.left && r.ref == t.ref && r.right == t.right
    ensures Inorder(r) == Inorder(t)
  {
    if t.Node? then t.(color := Black) else t
  }

  // ---------------------------------------------------------------------
  // Insertion
  // ---------------------------------------------------------------------

  /** The three rebalancing steps at the end of `insert_recursive`. */
  function InsertFixup<R>(h: Tree<R>): (r: Tree<R>)
    requires h.Node?
    ensures r.Node? && Inorder(r) == Inorder(h)
  {
    var a := if IsRed(h.right) && !IsRed(h.left) then RotateLeft(h) else h;
    var b := if IsRed(a.left) && IsRed(a.left.left) then RotateRight(a) else a;
    if IsRed(b.left) && IsRed(b.right) then FlipColor(b) else b
  }

  /** No key of the tree equals `k`. */
  ghost predicate KeyAbsent<R>(t: Tree<R>, k: int, key: R -> int)
  {
    forall y :: y in Inorder(t) ==> key(y) != k
  }

  /** `insert_recursive`: the new node enters as a red leaf; an equal key is unreachable. */
  function InsertRec<R>(t: Tree<R>, x: R, key: R -> int): (r: Tree<R>)
    requires KeyAbsent(t, key(x), key)
    ensures r.Node?
  {
    if t.Leaf? then Node(Red, Leaf, x, Leaf)
    else
      var c := KeyCmp(key(x), key(t.ref));
      if c == -1 then InsertFixup(t.(left := InsertRec(t.left, x, key)))
      else if c == 1 then InsertFixup(t.(right := InsertRec(t.right, x, key)))
      else assert false; t
  }

  /** `insert_root`: insert, then colour the root black. */
  function InsertRoot<R>(t: Tree<R>, x: R, key: R -> int): (r: Tree<R>)
    requires KeyAbsent(t, key(x), key)
    ensures r.Node? && r.color == Black
    ensures IsLlrb(t) ==> IsLlrb(r)
    ensures Ordered(t, key) ==> Ordered(r, key) && Inorder(r) == InsertSorted(Inorder(t), x, key)
  {
    InsertRootOk(t, x, key);
    SetBlack(InsertRec(t, x, key))
  }

  /** Reference definition of ordered insertion into a sequence. */
  ghost function InsertSorted<R>(s: seq<R>, x: R, key: R -> int): seq<R>
  {
    if s == [] then [x]
    else if key(x) < key(s[0]) then [x] + s
    else [s[0]] + InsertSorted(s[1..], x, key)
  }

  // ---------------------------------------------------------------------
  // Removal
  // ---------------------------------------------------------------------

  function FixupRemove<R>(h: Tree<R>): (r: Tree<R>)
    requires h.Node?
    ensures r.Node? && Inorder(r) == Inorder(h)
  {
    var a := if IsRed(h.right) then RotateLeft(h) else h;
    var b := if IsRed(a.left) && IsRed(a.left.left) then RotateRight(a) else a;
    if IsRed(b.left) && IsRed(b.right) then FlipColor(b) else b
  }

  /**
   * What the deletion helpers need of their argument.  The colour of the top
   * node is deliberately unconstrained: none of the decisions read it, and the
   * root handed to `remove_root` may be a black node with black children.
   */
  ghost predicate PopPre<R>(h: Tree<R>)
  {
    h.Node? ==> Bal(h) && RedOk(h.left) && RedOk(h.right) && !IsRed(h.right)
  }

  /** `if left and left.left are black { node = move_red_to_left(node) }`, before descending left. */
  function BorrowLeft<R>(h: Tree<R>): (r: Tree<R>)
    requires PopPre(h) && h.Node?
    ensures r.Node? && Inorder(r) == Inorder(h)
  {
    if h.left.Node? && !IsRed(h.left) && !IsRed(h.left.left) then
      BorrowLeftShape(h);
      MoveRedToLeft(h)
    else h
  }

  /** `if is_red(left) { node = rotate_right(node) }`, before descending right. */
  function TiltRight<R>(h: Tree<R>): (r: Tree<R>)
    requires h.Node?
    ensures r.Node? && Inorder(r) == Inorder(h)
  {
    if IsRed(h.left) then RotateRight(h) else h
  }

  /** `if right and right.left are black { node = move_red_to_right(node) }`. */
  function BorrowRight<R>(h: Tree<R>): (r: Tree<R>)
    requires h.Node? && h.right.Node? && Bal(h)
    ensures r.Node? && Inorder(r) == Inorder(h)
  {
    if !IsRed(h.right) && !IsRed(h.right.left) then
      BlackSiblingExists(h);
      MoveRedToRight(h)
    else h
  }

  /** `pop_min_recursive`: detach the leftmost node; returns the rest and the detached reference. */
  function PopMin<R>(h: Tree<R>): (r: (Tree<R>, Option<R>))
    requires PopPre(h)
    ensures h.Leaf? ==> r == (Leaf, None)
    ensures h.Node? ==> r.1.Some? && Inorder(h) == [r.1.value] + Inorder(r.0)
    decreases |Inorder(h)|
  {
    if h.Leaf? then (Leaf, None)
    else if h.left.Leaf? then
      LeftLeafAlone(h);
      (Leaf, Some(h.ref))
    else
      var h1 := BorrowLeft(h);
      BorrowLeftShape(h);
      var (l, f) := PopMin(h1.left);
      PopParts(h1, l, f);
      (FixupRemove(h1.(left := l)), f)
  }

  /** Detaching the leftmost reference `f` of the left child detaches it from the whole tree. */
  lemma PopParts<R>(h: Tree<R>, l: Tree<R>, f: Option<R>)
    requires h.Node? && f.Some? && Inorder(h.left) == [f.value] + Inorder(l)
    ensures Inorder(h) == [f.value] + Inorder(h.(left := l))
  {
    assert Inorder(h) == ([f.value] + Inorder(l)) + [h.ref] + Inorder(h.right);
  }

  /** What `remove_recursive` needs: `x` is in the tree, the tree is ordered, the colours allow the descent. */
  ghost predicate RemovePre<R>(h: Tree<R>, x: R, key: R -> int)
  {
    && h.Node? && Bal(h) && RedOk(h.left) && RedOk(h.right)
    && Ordered(h, key) && x in Inorder(h)
    && (IsRed(h.right) ==> !IsRed(h.left) && key(x) >= key(h.ref))
  }

  /** `remove_recursive`: delete the node `x` from the subtree `h`. */
  function RemoveRec<R(==)>(h: Tree<R>, x: R, key: R -> int): (r: Tree<R>)
    requires RemovePre(h, x, key)
    decreases |Inorder(h)|
  {
    if h.Leaf? then Leaf
    else if KeyCmp(key(x), key(h.ref)) == -1 then
      RemoveLeftStep(h, x, key);
      var h1 := BorrowLeft(h);
      FixupRemove(h1.(left := RemoveRec(h1.left, x, key)))
    else
      RemoveRightStep(h, x, key);
      var h1 := TiltRight(h);
      if h1.ref == x && h1.right.Leaf? then Leaf
      else
        var h2 := BorrowRight(h1);
        if h2.ref == x then
          var (r, f) := PopMin(h2.right);
          FixupRemove(Node(h2.color, h2.left, f.value, r))
        else
          FixupRemove(h2.(right := RemoveRec(h2.right, x, key)))
  }

  /** `remove_root`: delete `x`, then colour the new root black. */
  function RemoveRoot<R(==)>(t: Tree<R>, x: R, key: R -> int): (r: Tree<R>)
    requires IsLlrb(t) && Ordered(t, key) && x in Inorder(t)
    ensures IsLlrb(r) && Ordered(r, key)
    ensures Inorder(r) == Without(Inorder(t), x)
  {
    RemoveRootOk(t, x, key);
    SetBlack(RemoveRec(t, x, key))
  }

  /** Reference definition: the sequence with every occurrence of `x` dropped. */
  ghost function Without<R>(s: seq<R>, x: R): seq<R>
  {
    if s == [] then [] else if s[0] == x then Without(s[1..], x) else [s[0]] + Without(s[1..], x)
  }

  // ---------------------------------------------------------------------
  // Lookup
  // ---------------------------------------------------------------------

  /** `get_or_lower_recursive`: the node of greatest key not above `k`. */
  function GetOrLowerRec<R>(n: Tree<R>, k: int, key: R -> int): (r: Option<R>)
    requires n.Node? && Ordered(n, key)
    ensures r.Some? ==> r.value in Inorder(n) && key(r.value) <= k
    ensures r.Some? ==> forall y :: y in Inorder(n) && key(y) <= k ==> key(y) <= key(r.value)
    ensures r.None? ==> forall y :: y in Inorder(n) ==> key(y) > k
  {
    OrderedSplit(n, key);
    var c := KeyCmp(key(n.ref), k);
    if c == 0 then Some(n.ref)
    else if c == -1 then
      if n.right.Node? then
        var t := GetOrLowerRec(n.right, k, key);
        if t.Some? then t else Some(n.ref)
      else Some(n.ref)
    else
      if n.left.Node? then GetOrLowerRec(n.left, k, key) else None
  }

  /** `get_or_lower`: as above, `None` for an empty tree. */
  function GetOrLower<R>(root: Tree<R>, k: int, key: R -> int): (r: Option<R>)
    requires Ordered(root, key)
    ensures r.Some? ==> r.value in Inorder(root) && key(r.value) <= k
    ensures r.Some? ==> forall y :: y in Inorder(root) && key(y) <= k ==> key(y) <= key(r.value)
    ensures r.None? ==> forall y :: y in Inorder(root) ==> key(y) > k
  {
    if root.Node? then GetOrLowerRec(root, k, key) else None
  }

  /** `get_or_upper_recursive`: the node of least key not below `k`. */
  function GetOrUpperRec<R>(n: Tree<R>, k: int, key: R -> int): (r: Option<R>)
    requires n.Node? && Ordered(n, key)
    ensures r.Some? ==> r.value in Inorder(n) && key(r.value) >= k
    ensures r.Some? ==> forall y :: y in Inorder(n) && key(y) >= k ==> key(y) >= key(r.value)
    ensures r.None? ==> forall y :: y in Inorder(n) ==> key(y) < k
  {
    OrderedSplit(n, key);
    var c := KeyCmp(key(n.ref), k);
    if c == 0 then Some(n.ref)
    else if c == 1 then
      if n.left.Node? then
        var t := GetOrUpperRec(n.left, k, key);
        if t.Some? then t else Some(n.ref)
      else Some(n.ref)
    else
      if n.right.Node? then GetOrUpperRec(n.right, k, key) else None
  }

  /** `get_or_upper`: as above, `None` for an empty tree. */
  function GetOrUpper<R>(root: Tree<R>, k: int, key: R -> int): (r: Option<R>)
    requires Ordered(root, key)
    ensures r.Some? ==> r.value in Inorder(root) && key(r.value) >= k
    ensures r.Some? ==> forall y :: y in Inorder(root) && key(y) >= k ==> key(y) >= key(r.value)
    ensures r.None? ==> forall y :: y in Inorder(root) ==> key(y) < k
  {
    if root.Node? then GetOrUpperRec(root, k, key) else None
  }

  // ---------------------------------------------------------------------
  // Balance check
  // ---------------------------------------------------------------------

  /** `is_balanced_recursive`: every path meets exactly `black` black nodes. */
  function BalancedRec<R>(t: Tree<R>, black: int): bool
  {
    if t.Leaf? then black == 0
    else
      var b := if !IsRed(t) then black - 1 else black;
      BalancedRec(t.left, b) && BalancedRec(t.right, b)
  }

  /** `is_balanced`: count the blacks on the leftmost path, then check all paths against it. */
  method IsBalanced<R>(root: Tree<R>) returns (b: bool)
    ensures b <==> Bal(root)
  {
    var black := 0;
    var node := root;
    while node.Node?
      invariant black + BH(node) == BH(root)
      decreases node
    {
      if !IsRed(node) {
        black := black + 1;
      }
      node := node.left;
    }
    b := BalancedRec(root, black);
    BalancedRecSpec(root, black);
  }

  // =====================================================================
  // Lemmas
  // =====================================================================

  lemma {:induction false} BalancedRecSpec<R>(t: Tree<R>, black: int)
    ensures BalancedRec(t, black) <==> Bal(t) && BH(t) == black
  {
    match t
    case Leaf =>
    case Node(c, l, _, r) =>
      var b := if !IsRed(t) then black - 1 else black;
      BalancedRecSpec(l, b);
      BalancedRecSpec(r, b);
  }

  /** Rotations are mutually inverse when the rotated link is red. */
  lemma RotateInverse<R>(h: Tree<R>)
    requires h.Node?
    ensures h.right.Node? && IsRed(h.right) ==> RotateRight(RotateLeft(h)) == h
    ensures h.left.Node? && IsRed(h.left) ==> RotateLeft(RotateRight(h)) == h
  {
  }

  /** Flipping the colours twice restores the node. */
  lemma FlipInvolution<R>(h: Tree<R>)
    requires h.Node? && h.left.Node? && h.right.Node?
    ensures FlipColor(FlipColor(h)) == h
  {
  }

  lemma {:induction false} OrderedSplit<R>(h: Tree<R>, key: R -> int)
    requires h.Node? && Ordered(h, key)
    ensures Ordered(h.left, key) && Ordered(h.right, key)
    ensures forall y :: y in Inorder(h.left) ==> key(y) < key(h.ref)
    ensures forall y :: y in Inorder(h.right) ==> key(h.ref) < key(y)
  {
    var a, b := Inorder(h.left), Inorder(h.right);
    var s := Inorder(h);
    assert s == a + [h.ref] + b;
    assert s[|a|] == h.ref;
    forall i, j | 0 <= i < j < |a| ensures key(a[i]) < key(a[j]) {
      assert a[i] == s[i] && a[j] == s[j];
    }
    forall i, j | 0 <= i < j < |b| ensures key(b[i]) < key(b[j]) {
      assert b[i] == s[|a| + 1 + i] && b[j] == s[|a| + 1 + j];
    }
    forall y | y in a ensures key(y) < key(h.ref) {
      var i :| 0 <= i < |a| && a[i] == y;
      assert s[i] == y;
    }
    forall y | y in b ensures key(h.ref) < key(y) {
      var i :| 0 <= i < |b| && b[i] == y;
      assert s[|a| + 1 + i] == y;
    }
  }

  /** Where a reference of an ordered tree can be, judged by its key. */
  lemma Locate<R>(h: Tree<R>, y: R, key: R -> int)
    requires h.Node? && Ordered(h, key) && y in Inorder(h)
    ensures key(y) < key(h.ref) ==> y in Inorder(h.left) && y !in Inorder(h.right)
    ensures key(y) == key(h.ref) ==> y == h.ref && y !in Inorder(h.left) && y !in Inorder(h.right)
    ensures key(y) > key(h.ref) ==> y in Inorder(h.right) && y !in Inorder(h.left)
  {
    OrderedSplit(h, key);
  }

  /** A black child forces a non-empty sibling. */
  lemma BlackSiblingExists<R>(h: Tree<R>)
    requires h.Node? && Bal(h)
    ensures h.left.Node? && !IsRed(h.left) ==> h.right.Node?
    ensures h.right.Node? && !IsRed(h.right) ==> h.left.Node?
  {
  }

  /** A node without left child has no right child either. */
  lemma LeftLeafAlone<R>(h: Tree<R>)
    requires PopPre(h) && h.Node? && h.left.Leaf?
    ensures h.right.Leaf?
  {
  }

  /** The shape produced by `move_red_to_left` when descending left. */
  lemma BorrowLeftShape<R>(h: Tree<R>)
    requires PopPre(h) && h.Node?
    ensures h.left.Node? && !IsRed(h.left) ==> h.right.Node?
    ensures h.left.Node? && !IsRed(h.left) && !IsRed(h.left.left) ==>
      var h1 := MoveRedToLeft(h);
      && Bal(h1) && h1.left.Node? && RedOk(h1.left) && RedOk(h1.right)
      && (IsRed(h1.left) || IsRed(h1.left.left))
      && Inorder(h.left) <= Inorder(h1.left)
      && (IsRed(h) ==> BH(h1) == BH(h) && (IsRed(h1) ==> !IsRed(h1.left) && !IsRed(h1.right)))
  {
    if h.left.Node? && !IsRed(h.left) && !IsRed(h.left.left) {
      var f := FlipColor(h);
      if f.right.Node? && IsRed(f.right.left) {
        var L, Rt, X := h.left, h.right, h.right.left;
        assert Bal(L) && Bal(Rt);
        var h1 := MoveRedToLeft(h);
        assert h1 == Node(h.color, Node(Black, L.(color := Red), h.ref, X.left), X.ref,
                          Node(Black, X.right, Rt.ref, Rt.right));
        assert BH(L) == BH(Rt) && BH(Rt) == BH(X) + 1 && BH(X) == BH(X.left);
        assert BH(L.(color := Red)) == BH(L.left) && BH(L) == BH(L.left) + 1;
        assert Bal(Rt) && Bal(X) && Bal(X.left) && Bal(X.right) && Bal(L.(color := Red));
        assert RedOk(X) && RedOk(X.left) && RedOk(X.right) && RedOk(Rt.right);
        assert Inorder(h1.left) == Inorder(h.left) + [h.ref] + Inorder(X.left);
      } else {
        var L, Rt := h.left, h.right;
        assert Bal(L) && Bal(Rt);
        assert Bal(L.(color := Red)) && Bal(Rt.(color := Red));
        assert BH(L.(color := Red)) + 1 == BH(L) && BH(Rt.(color := Red)) + 1 == BH(Rt);
        assert RedOk(Rt.(color := Red));
      }
    }
  }

  /** `rotate_right` before descending right: the shape it leaves. */
  lemma TiltRightShape<R>(h: Tree<R>)
    requires h.Node? && Bal(h) && RedOk(h.left) && RedOk(h.right) && (IsRed(h.right) ==> !IsRed(h.left))
    ensures var h1 := TiltRight(h);
      && Bal(h1) && BH(h1) == BH(h) && h1.color == h.color
      && RedOk(h1.left) && !IsRed(h1.left) && Inorder(h1.left) <= Inorder(h.left) && RedOk(h1.right)
      && (if IsRed(h.left) then
            && h1.ref == h.left.ref && h1.right.Node? && IsRed(h1.right) && h1.right.ref == h.ref
            && Inorder(h1.right) == Inorder(h.left.right) + [h.ref] + Inorder(h.right)
          else h1 == h)
  {
    if IsRed(h.left) {
      var h1 := RotateRight(h);
      assert Inorder(h.left) == Inorder(h.left.left) + [h.left.ref] + Inorder(h.left.right);
    }
  }

  /** `move_red_to_right` before descending right: the shape it leaves. */
  lemma BorrowRightShape<R>(h: Tree<R>)
    requires h.Node? && h.right.Node? && Bal(h) && RedOk(h.left) && !IsRed(h.left) && RedOk(h.right)
    ensures var h2 := BorrowRight(h);
      && Bal(h2) && RedOk(h2.left) && Inorder(h2.left) <= Inorder(h.left)
      && h2.right.Node? && Bal(h2.right) && RedOk(h2.right.left) && RedOk(h2.right.right)
      && (if !IsRed(h.right) && !IsRed(h.right.left) then
            if IsRed(h.left.left) then
              && h2.ref == h.left.ref && h2.color == h.color && BH(h2) == BH(h)
              && !IsRed(h2.left) && !IsRed(h2.right) && !IsRed(h2.right.left) && IsRed(h2.right.right)
              && h2.right.ref == h.ref
              && Inorder(h2.right) == Inorder(h.left.right) + [h.ref] + Inorder(h.right)
            else
              && h2.ref == h.ref && h2.color == Toggle(h.color) && (IsRed(h) ==> BH(h2) == BH(h))
              && IsRed(h2.left) && IsRed(h2.right) && RedOk(h2.right)
              && Inorder(h2.right) == Inorder(h.right)
          else h2 == h)
  {
    BlackSiblingExists(h);
    assert Bal(h.right) && RedOk(h.right);
    if !IsRed(h.right) && !IsRed(h.right.left) {
      if IsRed(h.left.left) {
        BorrowRightRotates(h);
      } else {
        BorrowRightFlips(h);
      }
    }
  }

  lemma BorrowRightRotates<R>(h: Tree<R>)
    requires h.Node? && h.right.Node? && h.left.Node? && Bal(h) && RedOk(h.left) && !IsRed(h.left) && RedOk(h.right)
    requires !IsRed(h.right) && !IsRed(h.right.left) && IsRed(h.left.left)
    ensures var h2 := MoveRedToRight(h);
      && Bal(h2) && RedOk(h2.left) && Inorder(h2.left) <= Inorder(h.left)
      && h2.right.Node? && Bal(h2.right) && RedOk(h2.right.left) && RedOk(h2.right.right)
      && h2.ref == h.left.ref && h2.color == h.color && BH(h2) == BH(h)
      && !IsRed(h2.left) && !IsRed(h2.right) && !IsRed(h2.right.left) && IsRed(h2.right.right)
      && h2.right.ref == h.ref
      && Inorder(h2.right) == Inorder(h.left.right) + [h.ref] + Inorder(h.right)
  {
    var L, Rt := h.left, h.right;
    var LL, LR := L.left, L.right;
    var h2 := MoveRedToRight(h);
    assert h2 == Node(h.color, LL.(color := Black), L.ref, Node(Black, LR, h.ref, Rt.(color := Red)));
    assert Bal(L) && Bal(Rt) && RedOk(Rt) && RedOk(L);
    assert Bal(Rt.(color := Red)) && RedOk(Rt.(color := Red)) && BH(Rt.(color := Red)) + 1 == BH(Rt);
    assert Bal(LL) && Bal(LR) && RedOk(LL) && RedOk(LR) && BH(LL) == BH(LR);
    assert Bal(LL.(color := Black)) && BH(LL.(color := Black)) == BH(LL) + 1;
    assert BH(L) == BH(LL) + 1;
    assert Inorder(L) == Inorder(LL) + [L.ref] + Inorder(LR);
  }

  lemma BorrowRightFlips<R>(h: Tree<R>)
    requires h.Node? && h.right.Node? && h.left.Node? && Bal(h) && RedOk(h.left) && !IsRed(h.left) && RedOk(h.right)
    requires !IsRed(h.right) && !IsRed(h.right.left) && !IsRed(h.left.left)
    ensures var h2 := MoveRedToRight(h);
      && Bal(h2) && RedOk(h2.left) && Inorder(h2.left) == Inorder(h.left)
      && h2.right.Node? && Bal(h2.right) && RedOk(h2.right.left) && RedOk(h2.right.right)
      && h2.ref == h.ref && h2.color == Toggle(h.color) && (IsRed(h) ==> BH(h2) == BH(h))
      && IsRed(h2.left) && IsRed(h2.right) && RedOk(h2.right)
      && Inorder(h2.right) == Inorder(h.right)
  {
    var L, Rt := h.left, h.right;
    var h2 := MoveRedToRight(h);
    assert h2 == Node(Toggle(h.color), L.(color := Red), h.ref, Rt.(color := Red));
    assert Bal(L) && Bal(Rt) && RedOk(Rt) && RedOk(L);
    assert Bal(L.(color := Red)) && Bal(Rt.(color := Red)) && RedOk(Rt.(color := Red)) && RedOk(L.(color := Red));
    assert BH(L.(color := Red)) + 1 == BH(L) && BH(Rt.(color := Red)) + 1 == BH(Rt);
  }

  /** The descent to the left keeps `remove_recursive`'s precondition. */
  lemma RemoveLeftStep<R>(h: Tree<R>, x: R, key: R -> int)
    requires RemovePre(h, x, key) && key(x) < key(h.ref)
    ensures PopPre(h) && RemovePre(BorrowLeft(h).left, x, key)
  {
    Locate(h, x, key);
    BorrowLeftShape(h);
    var h1 := BorrowLeft(h);
    OrderedSplit(h1, key);
  }

  /** The descent to the right keeps `remove_recursive`'s precondition. */
  lemma RemoveRightStep<R>(h: Tree<R>, x: R, key: R -> int)
    requires RemovePre(h, x, key) && key(x) >= key(h.ref)
    ensures var h1 := TiltRight(h);
      && (h1.ref == x ==> h1 == h)
      && (h1.ref == x && h1.right.Leaf? ==> h1.left.Leaf?)
      && (!(h1.ref == x && h1.right.Leaf?) ==>
            && h1.right.Node? && Bal(h1)
            && var h2 := BorrowRight(h1);
               && x !in Inorder(h2.left)
               && (h2.ref == x ==> PopPre(h2.right) && RedOk(h2.right) && (IsRed(h2.right) || IsRed(h2.right.left)))
               && (h2.ref != x ==> RemovePre(h2.right, x, key)))
  {
    Locate(h, x, key);
    OrderedSplit(h, key);
    TiltRightShape(h);
    var h1 := TiltRight(h);
    if IsRed(h.left) {
      assert h1.ref in Inorder(h.left);
    }
    if !(h1.ref == x && h1.right.Leaf?) {
      assert h1.right.Node?;
      BorrowRightShape(h1);
      var h2 := BorrowRight(h1);
      assert Inorder(h2) == Inorder(h);
      OrderedSplit(h2, key);
      assert x !in Inorder(h2.left);
      if !IsRed(h1.right) && !IsRed(h1.right.left) && IsRed(h1.left.left) {
        assert h2.ref in Inorder(h.left);
      }
      if IsRed(h.left) {
        assert h2.ref in Inorder(h.left);
      }
    }
  }

  /** The three rebalancing steps of `fixup_remove` restore the colour discipline. */
  lemma FixupRemoveOk<R>(t: Tree<R>)
    requires t.Node? && Bal(t) && RedOk(t.left) && RedOk(t.right)
    requires !(IsRed(t) && (IsRed(t.left) || IsRed(t.right)))
    ensures var r := FixupRemove(t);
      && Bal(r) && RedOk(r) && BH(r) == BH(t)
      && (IsRed(r) <==> IsRed(t) || (IsRed(t.left) && IsRed(t.right)))
  {
  }

  /** A node the deletion can enter: left-leaning with a red top or red left child, or a black node leaning right. */
  ghost predicate Proper<R>(h: Tree<R>)
  {
    h.Node? && ((RedOk(h) && (IsRed(h) || IsRed(h.left))) || (!IsRed(h) && IsRed(h.right)))
  }

  lemma {:induction false} PopMinBalance<R>(h: Tree<R>)
    requires PopPre(h) && h.Node? && RedOk(h) && (IsRed(h) || IsRed(h.left))
    ensures var r := PopMin(h).0;
      Bal(r) && RedOk(r) && BH(r) == BH(h) && (IsRed(r) ==> IsRed(h))
    decreases |Inorder(h)|
  {
    if h.left.Node? {
      BorrowLeftShape(h);
      var h1 := BorrowLeft(h);
      PopMinBalance(h1.left);
      var l := PopMin(h1.left).0;
      FixupRemoveOk(h1.(left := l));
    } else {
      LeftLeafAlone(h);
    }
  }

  lemma {:induction false} RemoveRecBalance<R>(h: Tree<R>, x: R, key: R -> int)
    requires RemovePre(h, x, key) && Proper(h)
    ensures var r := RemoveRec(h, x, key);
      Bal(r) && RedOk(r) && BH(r) == BH(h) && (IsRed(r) ==> IsRed(h))
    decreases |Inorder(h)|, 1
  {
    if KeyCmp(key(x), key(h.ref)) == -1 {
      RemoveBalanceLeft(h, x, key);
    } else {
      RemoveBalanceRight(h, x, key);
    }
  }

  lemma {:induction false} RemoveBalanceLeft<R>(h: Tree<R>, x: R, key: R -> int)
    requires RemovePre(h, x, key) && Proper(h) && key(x) < key(h.ref)
    ensures var r := RemoveRec(h, x, key);
      Bal(r) && RedOk(r) && BH(r) == BH(h) && (IsRed(r) ==> IsRed(h))
    decreases |Inorder(h)|, 0
  {
    RemoveLeftStep(h, x, key);
    BorrowLeftShape(h);
    Locate(h, x, key);
    var h1 := BorrowLeft(h);
    RemoveRecBalance(h1.left, x, key);
    FixupRemoveOk(h1.(left := RemoveRec(h1.left, x, key)));
  }

  lemma {:induction false} RemoveBalanceRight<R>(h: Tree<R>, x: R, key: R -> int)
    requires RemovePre(h, x, key) && Proper(h) && key(x) >= key(h.ref)
    ensures var r := RemoveRec(h, x, key);
      Bal(r) && RedOk(r) && BH(r) == BH(h) && (IsRed(r) ==> IsRed(h))
    decreases |Inorder(h)|, 0
  {
    RemoveRightStep(h, x, key);
    TiltRightShape(h);
    var h1 := TiltRight(h);
    if !(h1.ref == x && h1.right.Leaf?) {
      BorrowRightShape(h1);
      var h2 := BorrowRight(h1);
      if h2.ref == x {
        PopMinBalance(h2.right);
        var p := PopMin(h2.right);
        FixupRemoveOk(Node(h2.color, h2.left, p.1.value, p.0));
      } else {
        RemoveRecBalance(h2.right, x, key);
        FixupRemoveOk(h2.(right := RemoveRec(h2.right, x, key)));
      }
    }
  }

  /** Recolouring the top node of a tree. */
  function Tog<R>(t: Tree<R>): Tree<R>
  {
    if t.Node? then t.(color := Toggle(t.color)) else t
  }

  /** None of the deletion's decisions read the colour of the node they start from. */
  lemma ToggleCommutesRotate<R>(h: Tree<R>)
    requires h.Node?
    ensures h.right.Node? ==> RotateLeft(Tog(h)) == Tog(RotateLeft(h))
    ensures h.left.Node? ==> RotateRight(Tog(h)) == Tog(RotateRight(h))
    ensures h.left.Node? && h.right.Node? ==> FlipColor(Tog(h)) == Tog(FlipColor(h))
    ensures TiltRight(Tog(h)) == Tog(TiltRight(h))
  {
  }

  lemma ToggleCommutesFixup<R>(h: Tree<R>)
    requires h.Node?
    ensures FixupRemove(Tog(h)) == Tog(FixupRemove(h))
  {
    ToggleCommutesRotate(h);
    var a := if IsRed(h.right) then RotateLeft(h) else h;
    ToggleCommutesRotate(a);
    var b := if IsRed(a.left) && IsRed(a.left.left) then RotateRight(a) else a;
    ToggleCommutesRotate(b);
  }

  lemma ToggleCommutesBorrow<R>(h: Tree<R>)
    requires h.Node?
    ensures PopPre(h) ==> BorrowLeft(Tog(h)) == Tog(BorrowLeft(h))
    ensures h.right.Node? && Bal(h) ==> BorrowRight(Tog(h)) == Tog(BorrowRight(h))
  {
    if h.left.Node? && h.right.Node? {
      ToggleCommutesRotate(h);
      var f := FlipColor(h);
      ToggleCommutesRotate(f);
      if f.left.Node? && IsRed(f.left.left) {
        ToggleCommutesRotate(RotateRight(f));
      }
      if f.right.Node? && IsRed(f.right.left) {
        var g := f.(right := RotateRight(f.right));
        ToggleCommutesRotate(g);
        ToggleCommutesRotate(RotateLeft(g));
      }
    }
  }

  lemma RemoveRecToggle<R>(h: Tree<R>, x: R, key: R -> int)
    requires RemovePre(h, x, key)
    ensures RemovePre(Tog(h), x, key)
    ensures RemoveRec(Tog(h), x, key) == Tog(RemoveRec(h, x, key))
  {
    var g := Tog(h);
    assert Inorder(g) == Inorder(h);
    ToggleCommutesRotate(h);
    ToggleCommutesBorrow(h);
    if KeyCmp(key(x), key(h.ref)) == -1 {
      RemoveLeftStep(h, x, key);
      var h1 := BorrowLeft(h);
      ToggleCommutesFixup(h1.(left := RemoveRec(h1.left, x, key)));
    } else {
      RemoveRightStep(h, x, key);
      var h1 := TiltRight(h);
      if !(h1.ref == x && h1.right.Leaf?) {
        ToggleCommutesBorrow(h1);
        var h2 := BorrowRight(h1);
        if h2.ref == x {
          var p := PopMin(h2.right);
          ToggleCommutesFixup(Node(h2.color, h2.left, p.1.value, p.0));
        } else {
          ToggleCommutesFixup(h2.(right := RemoveRec(h2.right, x, key)));
        }
      }
    }
  }

  lemma {:induction false} WithoutConcat<R>(a: seq<R>, b: seq<R>, x: R)
    ensures Without(a + b, x) == Without(a, x) + Without(b, x)
  {
    if a == [] {
      assert a + b == b;
    } else {
      assert (a + b)[0] == a[0] && (a + b)[1..] == a[1..] + b;
      WithoutConcat(a[1..], b, x);
    }
  }

  lemma {:induction false} WithoutAbsent<R>(s: seq<R>, x: R)
    requires x !in s
    ensures Without(s, x) == s
  {
    if s != [] {
      WithoutAbsent(s[1..], x);
    }
  }

  /** Everything left after dropping `x` was there before and is not `x`. */
  lemma {:induction false} WithoutSubset<R>(s: seq<R>, x: R)
    ensures forall y :: y in Without(s, x) ==> y in s && y != x
  {
    if s != [] {
      WithoutSubset(s[1..], x);
    }
  }

  lemma {:induction false} WithoutIncreasing<R>(s: seq<R>, x: R, key: R -> int)
    requires Increasing(s, key)
    ensures Increasing(Without(s, x), key)
  {
    if s != [] {
      assert Increasing(s[1..], key) by {
        forall i, j | 0 <= i < j < |s| - 1 ensures key(s[1..][i]) < key(s[1..][j]) {
          assert s[1..][i] == s[i + 1] && s[1..][j] == s[j + 1];
        }
      }
      WithoutIncreasing(s[1..], x, key);
      WithoutSubset(s[1..], x);
      var w := Without(s[1..], x);
      if s[0] != x {
        forall y | y in w ensures key(s[0]) < key(y) {
          var k :| 0 <= k < |s[1..]| && s[1..][k] == y;
          assert s[k + 1] == y;
        }
        var v := [s[0]] + w;
        forall i, j | 0 <= i < j < |v| ensures key(v[i]) < key(v[j]) {
          assert v[j] == w[j - 1] && v[j] in w;
          if i > 0 {
            assert v[i] == w[i - 1];
          }
        }
      }
    }
  }

  /** In an ordered sequence each reference occurs once, so dropping `s[i]` leaves exactly the rest. */
  lemma WithoutAt<R>(s: seq<R>, i: nat, key: R -> int)
    requires Increasing(s, key) && i < |s|
    ensures Without(s, s[i]) == s[..i] + s[i + 1..]
  {
    IncreasingApart(s, i, key);
    WithoutCut(s[..i], s[i], s[i + 1..]);
  }

  /** In an ordered sequence, `s[i]` occurs neither before nor after position `i`. */
  lemma IncreasingApart<R>(s: seq<R>, i: nat, key: R -> int)
    requires Increasing(s, key) && i < |s|
    ensures s == s[..i] + [s[i]] + s[i + 1..]
    ensures s[i] !in s[..i] && s[i] !in s[i + 1..]
  {
    var x := s[i];
    var a, b := s[..i], s[i + 1..];
    assert s == (a + [x]) + b;
    forall k | 0 <= k < |a| ensures a[k] != x {
      assert a[k] == s[k] && key(s[k]) < key(s[i]);
    }
    forall k | 0 <= k < |b| ensures b[k] != x {
      assert b[k] == s[i + 1 + k] && key(s[i]) < key(s[i + 1 + k]);
    }
  }

  /** Dropping `x` from a sequence where it occurs once, between `a` and `b`, leaves `a + b`. */
  lemma WithoutCut<R>(a: seq<R>, x: R, b: seq<R>)
    requires x !in a && x !in b
    ensures Without(a + [x] + b, x) == a + b
  {
    WithoutParts(a, x, b, x);
    WithoutSingle(x);
    WithoutAbsent(a, x);
    WithoutAbsent(b, x);
    assert a + [] == a;
  }

  lemma WithoutSingle<R>(x: R)
    ensures Without([x], x) == []
  {
    assert [x][0] == x && [x][1..] == [];
  }

  lemma WithoutOther<R>(y: R, x: R)
    requires x != y
    ensures Without([y], x) == [y]
  {
    assert [y][0] == y && [y][1..] == [];
  }

  lemma WithoutParts<R>(a: seq<R>, y: R, b: seq<R>, x: R)
    ensures Without(a + [y] + b, x) == Without(a, x) + Without([y], x) + Without(b, x)
  {
    WithoutConcat(a + [y], b, x);
    WithoutConcat(a, [y], x);
  }

  lemma WithoutInLeft<R>(t: Tree<R>, x: R, key: R -> int)
    requires t.Node? && Ordered(t, key) && x in Inorder(t.left)
    ensures Without(Inorder(t), x) == Without(Inorder(t.left), x) + [t.ref] + Inorder(t.right)
  {
    OrderedSplit(t, key);
    WithoutParts(Inorder(t.left), t.ref, Inorder(t.right), x);
    WithoutOther(t.ref, x);
    WithoutAbsent(Inorder(t.right), x);
  }

  lemma WithoutInRight<R>(t: Tree<R>, x: R, key: R -> int)
    requires t.Node? && Ordered(t, key) && x in Inorder(t.right)
    ensures Without(Inorder(t), x) == Inorder(t.left) + [t.ref] + Without(Inorder(t.right), x)
  {
    OrderedSplit(t, key);
    WithoutParts(Inorder(t.left), t.ref, Inorder(t.right), x);
    WithoutOther(t.ref, x);
    WithoutAbsent(Inorder(t.left), x);
  }

  lemma WithoutTop<R>(t: Tree<R>, key: R -> int)
    requires t.Node? && Ordered(t, key)
    ensures Without(Inorder(t), t.ref) == Inorder(t.left) + Inorder(t.right)
  {
    var a, x, b := Inorder(t.left), t.ref, Inorder(t.right);
    OrderedSplit(t, key);
    assert x !in a && x !in b;
    WithoutCut(a, x, b);
  }

  lemma {:induction false} RemoveRecInorder<R>(h: Tree<R>, x: R, key: R -> int)
    requires RemovePre(h, x, key)
    ensures Inorder(RemoveRec(h, x, key)) == Without(Inorder(h), x)
    decreases |Inorder(h)|, 1
  {
    if KeyCmp(key(x), key(h.ref)) == -1 {
      RemoveInorderLeft(h, x, key);
    } else {
      RemoveInorderRight(h, x, key);
    }
  }

  lemma {:induction false} RemoveInorderLeft<R>(h: Tree<R>, x: R, key: R -> int)
    requires RemovePre(h, x, key) && key(x) < key(h.ref)
    ensures Inorder(RemoveRec(h, x, key)) == Without(Inorder(h), x)
    decreases |Inorder(h)|, 0
  {
    RemoveLeftStep(h, x, key);
    var h1 := BorrowLeft(h);
    var l := RemoveRec(h1.left, x, key);
    assert RemoveRec(h, x, key) == FixupRemove(h1.(left := l));
    RemoveRecInorder(h1.left, x, key);
    WithoutInLeft(h1, x, key);
  }

  lemma {:induction false} RemoveInorderRight<R>(h: Tree<R>, x: R, key: R -> int)
    requires RemovePre(h, x, key) && key(x) >= key(h.ref)
    ensures Inorder(RemoveRec(h, x, key)) == Without(Inorder(h), x)
    decreases |Inorder(h)|, 0
  {
    RemoveRightStep(h, x, key);
    var h1 := TiltRight(h);
    if h1.ref == x && h1.right.Leaf? {
      assert Inorder(h) == [x];
      WithoutSingle(x);
    } else {
      var h2 := BorrowRight(h1);
      assert Ordered(h2, key);
      assert Inorder(h2) == Inorder(h);
      if h2.ref == x {
        var p := PopMin(h2.right);
        assert RemoveRec(h, x, key) == FixupRemove(Node(h2.color, h2.left, p.1.value, p.0));
        PopTop(h2, p.0, p.1);
        WithoutTop(h2, key);
      } else {
        var r := RemoveRec(h2.right, x, key);
        assert RemoveRec(h, x, key) == FixupRemove(h2.(right := r));
        RemoveRecInorder(h2.right, x, key);
        WithoutInRight(h2, x, key);
      }
    }
  }

  /** Replacing the top by the minimum `f` detached from the right child keeps the other references in order. */
  lemma PopTop<R>(h: Tree<R>, r: Tree<R>, f: Option<R>)
    requires h.Node? && f.Some? && Inorder(h.right) == [f.value] + Inorder(r)
    ensures Inorder(Node(h.color, h.left, f.value, r)) == Inorder(h.left) + Inorder(h.right)
  {
    assert Inorder(h.left) + [f.value] + Inorder(r) == Inorder(h.left) + ([f.value] + Inorder(r));
  }

  /** `remove_root` keeps a valid, ordered tree and removes exactly `x`. */
  lemma RemoveRootOk<R>(t: Tree<R>, x: R, key: R -> int)
    requires IsLlrb(t) && Ordered(t, key) && x in Inorder(t)
    ensures RemovePre(t, x, key)
    ensures var r := SetBlack(RemoveRec(t, x, key));
      IsLlrb(r) && Ordered(r, key) && Inorder(r) == Without(Inorder(t), x)
  {
    RemoveRecInorder(t, x, key);
    WithoutIncreasing(Inorder(t), x, key);
    if IsRed(t.left) {
      RemoveRecBalance(t, x, key);
    } else {
      RemoveRecToggle(t, x, key);
      RemoveRecBalance(Tog(t), x, key);
      assert SetBlack(RemoveRec(t, x, key)) == SetBlack(RemoveRec(Tog(t), x, key));
    }
  }

  // ---------------------------------------------------------------------
  // Insertion lemmas
  // ---------------------------------------------------------------------

  lemma KeyAbsentParts<R>(t: Tree<R>, k: int, key: R -> int)
    requires t.Node? && KeyAbsent(t, k, key)
    ensures KeyAbsent(t.left, k, key) && KeyAbsent(t.right, k, key) && key(t.ref) != k
  {
    assert Inorder(t) == Inorder(t.left) + [t.ref] + Inorder(t.right);
  }

  /**
   * Inserting below a black node yields a left-leaning tree (possibly with a
   * red top); below a red node, a red top whose left child may be red too,
   * which the parent's rebalancing repairs.  Black height never changes.
   */
  lemma {:induction false} InsertRecBalance<R>(t: Tree<R>, x: R, key: R -> int)
    requires KeyAbsent(t, key(x), key) && Bal(t) && RedOk(t)
    ensures var r := InsertRec(t, x, key);
      && Bal(r) && BH(r) == BH(t)
      && (!IsRed(t) ==> RedOk(r))
      && (IsRed(t) ==> IsRed(r) && RedOk(r.left) && RedOk(r.right) && !IsRed(r.right))
  {
    if t.Node? {
      KeyAbsentParts(t, key(x), key);
      if key(x) < key(t.ref) {
        InsertRecBalance(t.left, x, key);
        InsertFixupLeft(t.(left := InsertRec(t.left, x, key)), t);
      } else {
        InsertRecBalance(t.right, x, key);
        InsertFixupRight(t.(right := InsertRec(t.right, x, key)), t);
      }
    }
  }

  lemma InsertFixupLeft<R>(h: Tree<R>, t: Tree<R>)
    requires t.Node? && Bal(t) && RedOk(t) && h.Node? && h.color == t.color && h.right == t.right
    requires Bal(h.left) && BH(h.left) == BH(t.left) && h.left.Node?
    requires !IsRed(t.left) ==> RedOk(h.left)
    requires IsRed(t.left) ==> IsRed(h.left) && RedOk(h.left.left) && RedOk(h.left.right) && !IsRed(h.left.right)
    ensures var r := InsertFixup(h);
      && Bal(r) && BH(r) == BH(t)
      && (!IsRed(t) ==> RedOk(r))
      && (IsRed(t) ==> IsRed(r) && RedOk(r.left) && RedOk(r.right) && !IsRed(r.right))
  {
    assert Bal(t.right) && RedOk(t.right);
    if IsRed(h.left) && IsRed(h.left.left) {
      var L := h.left;
      var b := RotateRight(h);
      assert b == Node(h.color, L.left, L.ref, Node(Red, L.right, h.ref, h.right));
      assert Bal(L.left) && Bal(L.right) && BH(L.left) == BH(L.right);
      assert Bal(L.left.(color := Black)) && BH(L.left.(color := Black)) == BH(L.left) + 1;
    }
  }

  lemma InsertFixupRight<R>(h: Tree<R>, t: Tree<R>)
    requires t.Node? && Bal(t) && RedOk(t) && h.Node? && h.color == t.color && h.left == t.left
    requires Bal(h.right) && BH(h.right) == BH(t.right) && h.right.Node? && RedOk(h.right)
    ensures var r := InsertFixup(h);
      && Bal(r) && BH(r) == BH(t)
      && (!IsRed(t) ==> RedOk(r))
      && (IsRed(t) ==> IsRed(r) && RedOk(r.left) && RedOk(r.right) && !IsRed(r.right))
  {
    assert Bal(t.left) && RedOk(t.left);
    if IsRed(h.right) && !IsRed(h.left) {
      var X := h.right;
      var a := RotateLeft(h);
      assert a == Node(h.color, Node(Red, h.left, h.ref, X.left), X.ref, X.right);
      assert Bal(X.left) && Bal(X.right) && BH(X.left) == BH(X.right);
    } else if IsRed(h.right) {
      var L, X := h.left, h.right;
      assert Bal(L.(color := Black)) && BH(L.(color := Black)) == BH(L) + 1;
      assert Bal(X.(color := Black)) && BH(X.(color := Black)) == BH(X) + 1;
    }
  }

  /** Inserting ahead of a suffix whose first key is above `x`'s. */
  lemma {:induction false} InsertSortedPrefix<R>(a: seq<R>, c: seq<R>, x: R, key: R -> int)
    requires c != [] && key(x) < key(c[0])
    ensures InsertSorted(a + c, x, key) == InsertSorted(a, x, key) + c
  {
    if a == [] {
      assert a + c == c;
    } else {
      assert (a + c)[0] == a[0] && (a + c)[1..] == a[1..] + c;
      if key(x) >= key(a[0]) {
        InsertSortedPrefix(a[1..], c, x, key);
      }
    }
  }

  /** Inserting past a prefix whose keys are all below `x`'s. */
  lemma {:induction false} InsertSortedSuffix<R>(a: seq<R>, b: seq<R>, x: R, key: R -> int)
    requires forall y :: y in a ==> key(y) < key(x)
    ensures InsertSorted(a + b, x, key) == a + InsertSorted(b, x, key)
  {
    if a == [] {
      assert a + b == b;
    } else {
      assert (a + b)[0] == a[0] && (a + b)[1..] == a[1..] + b;
      assert a[0] in a;
      InsertSortedSuffix(a[1..], b, x, key);
    }
  }

  /** Ordered insertion adds exactly one occurrence of `x`. */
  lemma {:induction false} InsertSortedElems<R>(s: seq<R>, x: R, key: R -> int)
    ensures multiset(InsertSorted(s, x, key)) == multiset(s) + multiset{x}
  {
    if s != [] && key(x) >= key(s[0]) {
      InsertSortedElems(s[1..], x, key);
      assert s == [s[0]] + s[1..];
    }
  }

  lemma IncreasingTail<R>(s: seq<R>, key: R -> int)
    requires s != [] && Increasing(s, key)
    ensures Increasing(s[1..], key)
    ensures forall y :: y in s[1..] ==> key(s[0]) < key(y)
  {
    var t := s[1..];
    forall i, j | 0 <= i < j < |t| ensures key(t[i]) < key(t[j]) {
      assert t[i] == s[i + 1] && t[j] == s[j + 1];
    }
    forall y | y in t ensures key(s[0]) < key(y) {
      var k :| 0 <= k < |t| && t[k] == y;
      assert s[k + 1] == y;
    }
  }

  lemma IncreasingCons<R>(y: R, w: seq<R>, key: R -> int)
    requires Increasing(w, key) && forall z :: z in w ==> key(y) < key(z)
    ensures Increasing([y] + w, key)
  {
    var v := [y] + w;
    forall i, j | 0 <= i < j < |v| ensures key(v[i]) < key(v[j]) {
      assert v[j] == w[j - 1] && v[j] in w;
      if i > 0 {
        assert v[i] == w[i - 1];
      }
    }
  }

  /** Ordered insertion of an absent key keeps keys ascending. */
  lemma {:induction false} InsertSortedIncreasing<R>(s: seq<R>, x: R, key: R -> int)
    requires Increasing(s, key) && forall y :: y in s ==> key(y) != key(x)
    ensures Increasing(InsertSorted(s, x, key), key)
  {
    if s == [] {
      IncreasingCons(x, [], key);
    } else if key(x) < key(s[0]) {
      IncreasingTail(s, key);
      IncreasingCons(x, s, key);
    } else {
      var t := s[1..];
      assert s[0] in s;
      IncreasingTail(s, key);
      InsertSortedIncreasing(t, x, key);
      InsertSortedElems(t, x, key);
      var w := InsertSorted(t, x, key);
      forall z | z in w ensures key(s[0]) < key(z) {
        assert z in multiset(w);
      }
      IncreasingCons(s[0], w, key);
    }
  }

  /** `insert_recursive` places `x` at its ordered position. */
  lemma {:induction false} InsertRecInorder<R>(t: Tree<R>, x: R, key: R -> int)
    requires KeyAbsent(t, key(x), key) && Ordered(t, key)
    ensures Inorder(InsertRec(t, x, key)) == InsertSorted(Inorder(t), x, key)
    decreases |Inorder(t)|, 1
  {
    if t.Node? {
      KeyAbsentParts(t, key(x), key);
      if key(x) < key(t.ref) {
        InsertInorderLeft(t, x, key);
      } else {
        InsertInorderRight(t, x, key);
      }
    }
  }

  lemma {:induction false} InsertInorderLeft<R>(t: Tree<R>, x: R, key: R -> int)
    requires KeyAbsent(t, key(x), key) && Ordered(t, key) && t.Node? && key(x) < key(t.ref)
    ensures Inorder(InsertRec(t, x, key)) == InsertSorted(Inorder(t), x, key)
    decreases |Inorder(t)|, 0
  {
    KeyAbsentParts(t, key(x), key);
    OrderedSplit(t, key);
    var a, y, b := Inorder(t.left), t.ref, Inorder(t.right);
    var l := InsertRec(t.left, x, key);
    assert InsertRec(t, x, key) == InsertFixup(t.(left := l));
    InsertRecInorder(t.left, x, key);
    InsertSortedLeftPart(a, y, b, x, key);
  }

  lemma {:induction false} InsertInorderRight<R>(t: Tree<R>, x: R, key: R -> int)
    requires KeyAbsent(t, key(x), key) && Ordered(t, key) && t.Node? && key(x) > key(t.ref)
    ensures Inorder(InsertRec(t, x, key)) == InsertSorted(Inorder(t), x, key)
    decreases |Inorder(t)|, 0
  {
    KeyAbsentParts(t, key(x), key);
    OrderedSplit(t, key);
    var a, y, b := Inorder(t.left), t.ref, Inorder(t.right);
    var r := InsertRec(t.right, x, key);
    assert InsertRec(t, x, key) == InsertFixup(t.(right := r));
    InsertRecInorder(t.right, x, key);
    InsertSortedRightPart(a, y, b, x, key);
  }

  lemma InsertSortedLeftPart<R>(a: seq<R>, y: R, b: seq<R>, x: R, key: R -> int)
    requires key(x) < key(y)
    ensures InsertSorted(a + [y] + b, x, key) == InsertSorted(a, x, key) + [y] + b
  {
    var yb := [y] + b;
    assert yb[0] == y;
    assert a + [y] + b == a + yb;
    InsertSortedPrefix(a, yb, x, key);
  }

  lemma InsertSortedRightPart<R>(a: seq<R>, y: R, b: seq<R>, x: R, key: R -> int)
    requires key(y) < key(x) && forall z :: z in a ==> key(z) < key(x)
    ensures InsertSorted(a + [y] + b, x, key) == a + [y] + InsertSorted(b, x, key)
  {
    var ay := a + [y];
    assert forall z :: z in ay ==> key(z) < key(x);
    InsertSortedSuffix(ay, b, x, key);
  }

  lemma InsertRootOk<R>(t: Tree<R>, x: R, key: R -> int)
    requires KeyAbsent(t, key(x), key)
    ensures IsLlrb(t) ==> IsLlrb(SetBlack(InsertRec(t, x, key)))
    ensures Ordered(t, key) ==>
      var r := SetBlack(InsertRec(t, x, key));
      Ordered(r, key) && Inorder(r) == InsertSorted(Inorder(t), x, key)
  {
    if IsLlrb(t) {
      InsertRecBalance(t, x, key);
    }
    if Ordered(t, key) {
      InsertRecInorder(t, x, key);
      InsertSortedIncreasing(Inorder(t), x, key);
    }
  }
}
