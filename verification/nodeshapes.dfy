/** The dictionary's nodes on the heap (`node_t`) and a ghost mirror of the
    tree they form. A `Shape` names the node objects in tree order; the
    dictionary's invariant says that every node's `left` and `right` fields
    point at the roots of its subtrees in the shape. All reasoning about how
    one pointer update changes the tree is done here, on shapes, without the
    heap. */
module NodeShapes {
  import opened CStrings
  import opened WordTree

  /** `node_t`: a word (never changed after the node is made) and two
      child pointers. */
  class Node {
    const word: string
    var left: Node?
    var right: Node?

    constructor (w: string)
      ensures word == w && left == null && right == null
    {
      word := w;
      left := null;
      right := null;
    }
  }

  datatype Shape = Empty | Cell(left: Shape, node: Node, right: Shape)

  function NodesOf(s: Shape): set<Node>
  {
    match s
    case Empty => {}
    case Cell(l, n, r) => NodesOf(l) + {n} + NodesOf(r)
  }

  /** The pointer that refers to the shape: NULL for an empty tree. */
  function Top(s: Shape): Node?
  {
    match s
    case Empty => null
    case Cell(_, n, _) => n
  }

  /** The words of the shape, as a tree value. */
  function Abs(s: Shape): Tree
  {
    match s
    case Empty => Nil
    case Cell(l, n, r) => Branch(Abs(l), n.word, Abs(r))
  }

  /** No node object occurs twice: the nodes form a tree, not a graph. */
  ghost predicate Distinct(s: Shape)
  {
    match s
    case Empty => true
    case Cell(l, n, r) =>
      && Distinct(l) && Distinct(r)
      && n !in NodesOf(l) && n !in NodesOf(r)
      && NodesOf(l) !! NodesOf(r)
  }

  /** The subtree whose root is the node `n` (empty when `n` is absent). */
  function Sub(s: Shape, n: Node): Shape
  {
    match s
    case Empty => Empty
    case Cell(l, m, r) =>
      if m == n then s
      else if n in NodesOf(l) then Sub(l, n)
      else Sub(r, n)
  }

  /** `s` with the subtree whose root is `n` replaced by `x`. */
  function ReplaceSub(s: Shape, n: Node, x: Shape): Shape
  {
    match s
    case Empty => Empty
    case Cell(l, m, r) =>
      if m == n then x
      else if n in NodesOf(l) then Cell(ReplaceSub(l, n, x), m, r)
      else Cell(l, m, ReplaceSub(r, n, x))
  }

  function Kid(s: Shape, toLeft: bool): Shape
  {
    match s
    case Empty => Empty
    case Cell(l, _, r) => if toLeft then l else r
  }

  function WithKid(s: Shape, toLeft: bool, x: Shape): Shape
    requires s.Cell?
  {
    if toLeft then Cell(x, s.node, s.right) else Cell(s.left, s.node, x)
  }

  /** The node the shape puts as `n`'s left (`toLeft`) or right child. */
  function Child(s: Shape, n: Node, toLeft: bool): Node?
  {
    Top(Kid(Sub(s, n), toLeft))
  }

  /** The heap agrees with the shape: each node's child pointers are the
      roots of its subtrees. */
  ghost predicate Linked(s: Shape)
    reads NodesOf(s)
  {
    forall n | n in NodesOf(s) :: n.left == Child(s, n, true) && n.right == Child(s, n, false)
  }

  /** Insertion of the node `nn` by the `strcmp` walk, on shapes. */
  function ShapeInsert(s: Shape, nn: Node): Shape
  {
    match s
    case Empty => Cell(Empty, nn, Empty)
    case Cell(l, m, r) =>
      var c := Strcmp(nn.word, m.word);
      if c == 0 then s
      else if c < 0 then Cell(ShapeInsert(l, nn), m, r)
      else Cell(l, m, ShapeInsert(r, nn))
  }

  // ---------------------------------------------------------------------

  /** Inserting a node into the shape inserts its word into the tree. */
  lemma {:induction false} AbsShapeInsert(s: Shape, nn: Node)
    ensures Abs(ShapeInsert(s, nn)) == TreeInsert(Abs(s), nn.word)
  {
    match s
    case Empty =>
    case Cell(l, m, r) =>
      AbsShapeInsert(l, nn);
      AbsShapeInsert(r, nn);
  }

  /** With distinct nodes, the tree has one node per node object. */
  lemma {:induction false} SizeIsNodeCount(s: Shape)
    requires Distinct(s)
    ensures Size(Abs(s)) == |NodesOf(s)|
  {
    match s
    case Empty =>
    case Cell(l, n, r) =>
      SizeIsNodeCount(l);
      SizeIsNodeCount(r);
      assert (NodesOf(l) + {n}) !! NodesOf(r);
      assert |NodesOf(l) + {n}| == |NodesOf(l)| + 1;
  }

  lemma {:induction false} WordOfNode(s: Shape, n: Node)
    requires n in NodesOf(s)
    ensures n.word in Words(Abs(s))
  {
    match s
    case Cell(l, m, r) =>
      if n != m {
        if n in NodesOf(l) { WordOfNode(l, n); } else { WordOfNode(r, n); }
      }
  }

  /** A node of the shape roots a subtree that lies inside the shape. */
  lemma {:induction false} SubFound(s: Shape, n: Node)
    requires n in NodesOf(s)
    ensures Sub(s, n).Cell? && Sub(s, n).node == n
    ensures NodesOf(Sub(s, n)) <= NodesOf(s)
    ensures Distinct(s) ==> Distinct(Sub(s, n))
  {
    match s
    case Cell(l, m, r) =>
      if m != n {
        if n in NodesOf(l) { SubFound(l, n); } else { SubFound(r, n); }
      }
  }

  /** Following a child pointer from the subtree at `c` reaches the subtree
      at that child. */
  lemma {:induction false} DescendSub(s: Shape, c: Node, toLeft: bool)
    requires Distinct(s) && c in NodesOf(s)
    requires Kid(Sub(s, c), toLeft).Cell?
    ensures Kid(Sub(s, c), toLeft).node in NodesOf(s)
    ensures Sub(s, Kid(Sub(s, c), toLeft).node) == Kid(Sub(s, c), toLeft)
  {
    match s
    case Cell(l, m, r) =>
      var d := Kid(Sub(s, c), toLeft).node;
      if m == c {
        if toLeft { assert d == l.node && d != m; } else { assert d == r.node && d != m && d !in NodesOf(l); }
      } else if c in NodesOf(l) {
        DescendSub(l, c, toLeft);
        assert d != m;
      } else {
        DescendSub(r, c, toLeft);
        assert d != m && d !in NodesOf(l);
      }
  }

  /** Putting `x` below `c` is the same as putting `x` in place of the
      subtree at `c`'s child. */
  lemma {:induction false} DescendReplace(s: Shape, c: Node, toLeft: bool, x: Shape)
    requires Distinct(s) && c in NodesOf(s)
    requires Kid(Sub(s, c), toLeft).Cell?
    ensures ReplaceSub(s, c, WithKid(Sub(s, c), toLeft, x)) == ReplaceSub(s, Kid(Sub(s, c), toLeft).node, x)
  {
    match s
    case Cell(l, m, r) =>
      var d := Kid(Sub(s, c), toLeft).node;
      if m == c {
        if toLeft { assert d == l.node && d != m; } else { assert d == r.node && d != m && d !in NodesOf(l); }
      } else if c in NodesOf(l) {
        DescendReplace(l, c, toLeft, x);
        DescendSub(l, c, toLeft);
        assert d != m;
      } else {
        DescendReplace(r, c, toLeft, x);
        DescendSub(r, c, toLeft);
        assert d != m && d !in NodesOf(l);
      }
  }

  /** Putting a subtree back where it was changes nothing. */
  lemma {:induction false} ReplaceSelf(s: Shape, c: Node)
    requires c in NodesOf(s)
    ensures ReplaceSub(s, c, Sub(s, c)) == s
  {
    match s
    case Cell(l, m, r) =>
      if m != c {
        if c in NodesOf(l) { ReplaceSelf(l, c); } else { ReplaceSelf(r, c); }
      }
  }

  /** Hanging a fresh leaf `nn` on the empty side of `c` adds exactly `nn`,
      keeps the nodes distinct and the root in place, makes `nn` the child
      of `c` on that side, and leaves every other child pointer of the
      shape as it was. */
  lemma {:induction false} AttachLeaf(s: Shape, c: Node, toLeft: bool, nn: Node)
    requires Distinct(s) && c in NodesOf(s) && nn !in NodesOf(s)
    requires Sub(s, c).Cell? && Kid(Sub(s, c), toLeft) == Empty
    ensures
      var s' := ReplaceSub(s, c, WithKid(Sub(s, c), toLeft, Cell(Empty, nn, Empty)));
      && NodesOf(s') == NodesOf(s) + {nn}
      && Distinct(s')
      && Top(s') == Top(s)
      && Child(s', c, toLeft) == nn
      && Child(s', c, !toLeft) == Child(s, c, !toLeft)
      && Child(s', nn, true) == null && Child(s', nn, false) == null
      && forall m, b | m in NodesOf(s) && m != c :: Child(s', m, b) == Child(s, m, b)
  {
    SubFound(s, c);
    var leaf := Cell(Empty, nn, Empty);
    match s
    case Cell(l, m, r) =>
      var s' := ReplaceSub(s, c, WithKid(Sub(s, c), toLeft, leaf));
      if m == c {
        assert s' == WithKid(s, toLeft, leaf);
        if toLeft {
          assert l == Empty;
          assert Sub(s', nn) == leaf;
        } else {
          assert r == Empty && nn !in NodesOf(l);
          assert Sub(s', nn) == leaf;
        }
        forall m', b | m' in NodesOf(s) && m' != c ensures Child(s', m', b) == Child(s, m', b) {
          if toLeft {
            assert m' in NodesOf(r) && m' !in NodesOf(leaf);
          } else {
            assert m' in NodesOf(l);
          }
        }
      } else if c in NodesOf(l) {
        AttachLeaf(l, c, toLeft, nn);
        var l' := ReplaceSub(l, c, WithKid(Sub(l, c), toLeft, leaf));
        assert s' == Cell(l', m, r);
        assert Sub(s', c) == Sub(l', c) && Sub(s', nn) == Sub(l', nn);
        forall m', b | m' in NodesOf(s) && m' != c ensures Child(s', m', b) == Child(s, m', b) {
          if m' == m {
            assert Sub(s', m) == s' && Sub(s, m) == s;
            assert Top(l') == Top(l);
          } else if m' in NodesOf(l) {
            assert Child(l', m', b) == Child(l, m', b);
            assert Sub(s', m') == Sub(l', m') && Sub(s, m') == Sub(l, m');
          } else {
            assert m' in NodesOf(r) && m' !in NodesOf(l');
            assert Sub(s', m') == Sub(r, m') && Sub(s, m') == Sub(r, m');
          }
        }
      } else {
        AttachLeaf(r, c, toLeft, nn);
        var r' := ReplaceSub(r, c, WithKid(Sub(r, c), toLeft, leaf));
        assert s' == Cell(l, m, r');
        assert c in NodesOf(r) && nn !in NodesOf(l);
        assert Sub(s', c) == Sub(r', c) && Sub(s', nn) == Sub(r', nn);
        forall m', b | m' in NodesOf(s) && m' != c ensures Child(s', m', b) == Child(s, m', b) {
          if m' == m {
            assert Sub(s', m) == s' && Sub(s, m) == s;
            assert Top(r') == Top(r);
          } else if m' in NodesOf(l) {
            assert Sub(s', m') == Sub(l, m') && Sub(s, m') == Sub(l, m');
          } else {
            assert m' in NodesOf(r);
            assert Child(r', m', b) == Child(r, m', b);
            assert Sub(s', m') == Sub(r', m') && Sub(s, m') == Sub(r, m');
          }
        }
      }
  }

  /** The `strcmp` walk meets an equal word at `c`: insertion changes
      nothing, and the word is stored. */
  lemma InsertMeetsEqual(s: Shape, c: Node, nn: Node)
    requires Distinct(s) && c in NodesOf(s)
    requires Strcmp(nn.word, c.word) == 0
    requires ShapeInsert(s, nn) == ReplaceSub(s, c, ShapeInsert(Sub(s, c), nn))
    ensures Abs(ShapeInsert(s, nn)) == Abs(s) == TreeInsert(Abs(s), nn.word)
    ensures nn.word in Words(Abs(s))
  {
    SubFound(s, c);
    ReplaceSelf(s, c);
    AbsShapeInsert(s, nn);
    WordOfNode(s, c);
  }

  /** The `strcmp` walk steps from `c` to its child on one side: the child
      is a node of the shape and the insertion still happens below it. */
  lemma InsertDescends(s: Shape, c: Node, toLeft: bool, nn: Node)
    requires Distinct(s) && c in NodesOf(s)
    requires Kid(Sub(s, c), toLeft).Cell?
    requires toLeft <==> Strcmp(nn.word, c.word) < 0
    requires Strcmp(nn.word, c.word) != 0
    requires ShapeInsert(s, nn) == ReplaceSub(s, c, ShapeInsert(Sub(s, c), nn))
    ensures Kid(Sub(s, c), toLeft).node in NodesOf(s)
    ensures Sub(s, Kid(Sub(s, c), toLeft).node) == Kid(Sub(s, c), toLeft)
    ensures ShapeInsert(s, nn) ==
              ReplaceSub(s, Kid(Sub(s, c), toLeft).node, ShapeInsert(Sub(s, Kid(Sub(s, c), toLeft).node), nn))
  {
    SubFound(s, c);
    DescendSub(s, c, toLeft);
    DescendReplace(s, c, toLeft, ShapeInsert(Kid(Sub(s, c), toLeft), nn));
  }

  /** After `parent`'s empty child pointer on one side is set to a fresh
      leaf `nn`, the heap agrees with the shape that has `nn` hanging
      there. */
  lemma LinkedAfterAttach(s: Shape, parent: Node, toLeft: bool, nn: Node)
    requires Distinct(s) && parent in NodesOf(s) && nn !in NodesOf(s)
    requires Sub(s, parent).Cell? && Kid(Sub(s, parent), toLeft) == Empty
    requires nn.left == null && nn.right == null
    requires toLeft ==> parent.left == nn && parent.right == Child(s, parent, false)
    requires !toLeft ==> parent.right == nn && parent.left == Child(s, parent, true)
    requires forall m | m in NodesOf(s) && m != parent :: m.left == Child(s, m, true) && m.right == Child(s, m, false)
    ensures Linked(ReplaceSub(s, parent, WithKid(Sub(s, parent), toLeft, Cell(Empty, nn, Empty))))
  {
    var s' := ReplaceSub(s, parent, WithKid(Sub(s, parent), toLeft, Cell(Empty, nn, Empty)));
    AttachLeaf(s, parent, toLeft, nn);
    forall m | m in NodesOf(s') ensures m.left == Child(s', m, true) && m.right == Child(s', m, false) {
      if m != nn && m != parent {
        assert Child(s', m, true) == Child(s, m, true) && Child(s', m, false) == Child(s, m, false);
      }
    }
  }

  /** Hanging a fresh leaf where the `strcmp` walk falls off inserts a word
      that was not stored: the tree stays a search tree and grows by one. */
  lemma AttachInserts(s: Shape, parent: Node, toLeft: bool, nn: Node)
    requires Distinct(s) && parent in NodesOf(s) && nn !in NodesOf(s)
    requires Sub(s, parent).Cell? && Kid(Sub(s, parent), toLeft) == Empty
    requires SearchTree(Abs(s))
    requires ShapeInsert(s, nn) == ReplaceSub(s, parent, WithKid(Sub(s, parent), toLeft, Cell(Empty, nn, Empty)))
    ensures Distinct(ShapeInsert(s, nn)) && NodesOf(ShapeInsert(s, nn)) == NodesOf(s) + {nn}
    ensures Top(ShapeInsert(s, nn)) == Top(s)
    ensures Abs(ShapeInsert(s, nn)) == TreeInsert(Abs(s), nn.word)
    ensures SearchTree(Abs(ShapeInsert(s, nn)))
    ensures Size(Abs(ShapeInsert(s, nn))) == Size(Abs(s)) + 1
    ensures nn.word !in Words(Abs(s))
  {
    var s' := ShapeInsert(s, nn);
    AttachLeaf(s, parent, toLeft, nn);
    AbsShapeInsert(s, nn);
    InsertKeepsOrder(Abs(s), nn.word);
    SizeIsNodeCount(s);
    SizeIsNodeCount(s');
    InsertSize(Abs(s), nn.word);
  }

  // ---------------------------------------------------------------------
  // Post-order teardown

  /** The order in which `free_post_order` releases the nodes: left
      subtree, right subtree, then the node itself. */
  function PostOrder(s: Shape): seq<Node>
  {
    match s
    case Empty => []
    case Cell(l, n, r) => PostOrder(l) + PostOrder(r) + [n]
  }

  /** Every entry of the listing is a node of the shape, every node of the
      shape is listed, and there is one entry per tree node. */
  lemma {:induction false} PostOrderMembers(s: Shape)
    ensures forall k :: 0 <= k < |PostOrder(s)| ==> PostOrder(s)[k] in NodesOf(s)
    ensures forall n | n in NodesOf(s) :: n in PostOrder(s)
    ensures |PostOrder(s)| == Size(Abs(s))
  {
    match s
    case Empty =>
    case Cell(l, n, r) =>
      PostOrderMembers(l);
      PostOrderMembers(r);
      PostOrderParts(l, n, r);
  }

  /** Where each position of a post-order listing comes from. */
  lemma PostOrderParts(l: Shape, n: Node, r: Shape)
    ensures |PostOrder(Cell(l, n, r))| == |PostOrder(l)| + |PostOrder(r)| + 1
    ensures forall k :: 0 <= k < |PostOrder(l)| ==> PostOrder(Cell(l, n, r))[k] == PostOrder(l)[k]
    ensures forall k :: |PostOrder(l)| <= k < |PostOrder(l)| + |PostOrder(r)| ==>
              PostOrder(Cell(l, n, r))[k] == PostOrder(r)[k - |PostOrder(l)|]
    ensures PostOrder(Cell(l, n, r))[|PostOrder(l)| + |PostOrder(r)|] == n
  {
  }

  /** The teardown releases every node of the tree exactly once. */
  lemma {:induction false} PostOrderOnce(s: Shape)
    requires Distinct(s)
    ensures forall k :: 0 <= k < |PostOrder(s)| ==> PostOrder(s)[k] in NodesOf(s)
    ensures forall n | n in NodesOf(s) :: n in PostOrder(s)
    ensures forall i, j :: 0 <= i < j < |PostOrder(s)| ==> PostOrder(s)[i] != PostOrder(s)[j]
    ensures |PostOrder(s)| == |NodesOf(s)|
  {
    PostOrderMembers(s);
    SizeIsNodeCount(s);
    PostOrderDistinct(s);
  }

  lemma {:induction false} PostOrderDistinct(s: Shape)
    requires Distinct(s)
    ensures forall i, j :: 0 <= i < j < |PostOrder(s)| ==> PostOrder(s)[i] != PostOrder(s)[j]
  {
    match s
    case Empty =>
    case Cell(l, n, r) =>
      PostOrderDistinct(l);
      PostOrderDistinct(r);
      PostOrderMembers(l);
      PostOrderMembers(r);
      PostOrderParts(l, n, r);
      var pl, pr, p := PostOrder(l), PostOrder(r), PostOrder(s);
      forall i, j | 0 <= i < j < |p| ensures p[i] != p[j] {
        if j < |pl| {
          assert p[i] == pl[i] && p[j] == pl[j];
        } else if j < |pl| + |pr| {
          if i < |pl| {
            assert p[i] == pl[i] && pl[i] in NodesOf(l);
            assert p[j] == pr[j - |pl|] && pr[j - |pl|] in NodesOf(r);
          } else {
            assert p[i] == pr[i - |pl|] && p[j] == pr[j - |pl|];
          }
        } else if i < |pl| {
          assert p[i] == pl[i] && pl[i] in NodesOf(l);
        } else {
          assert p[i] == pr[i - |pl|] && pr[i - |pl|] in NodesOf(r);
        }
      }
  }

  /** The teardown releases a node only after every node below it. */
  lemma {:induction false} PostOrderChildrenFirst(s: Shape)
    requires Distinct(s)
    ensures forall i, j ::
              (0 <= i < |PostOrder(s)| && 0 <= j < |PostOrder(s)| && PostOrder(s)[j] in NodesOf(Sub(s, PostOrder(s)[i])))
              ==> j <= i
  {
    match s
    case Empty =>
    case Cell(l, n, r) =>
      PostOrderChildrenFirst(l);
      PostOrderChildrenFirst(r);
      PostOrderMembers(l);
      PostOrderMembers(r);
      PostOrderParts(l, n, r);
      var pl, pr, p := PostOrder(l), PostOrder(r), PostOrder(s);
      forall i, j | 0 <= i < |p| && 0 <= j < |p| && p[j] in NodesOf(Sub(s, p[i])) ensures j <= i {
        if i < |pl| {
          ChildrenFirstLeft(l, n, r, i, j);
        } else if i < |pl| + |pr| {
          ChildrenFirstRight(l, n, r, i, j);
        }
      }
  }

  lemma ChildrenFirstLeft(l: Shape, n: Node, r: Shape, i: nat, j: nat)
    requires Distinct(Cell(l, n, r))
    requires i < |PostOrder(l)| && j < |PostOrder(Cell(l, n, r))|
    requires PostOrder(Cell(l, n, r))[j] in NodesOf(Sub(Cell(l, n, r), PostOrder(Cell(l, n, r))[i]))
    requires forall i, j ::
               (0 <= i < |PostOrder(l)| && 0 <= j < |PostOrder(l)| && PostOrder(l)[j] in NodesOf(Sub(l, PostOrder(l)[i])))
               ==> j <= i
    ensures j <= i
  {
    var s := Cell(l, n, r);
    PostOrderMembers(l);
    PostOrderParts(l, n, r);
    var x := PostOrder(s)[i];
    assert x == PostOrder(l)[i] && x in NodesOf(l);
    SubFound(l, x);
    assert Sub(s, x) == Sub(l, x);
    LeftPosition(l, n, r, j);
  }

  lemma ChildrenFirstRight(l: Shape, n: Node, r: Shape, i: nat, j: nat)
    requires Distinct(Cell(l, n, r))
    requires |PostOrder(l)| <= i < |PostOrder(l)| + |PostOrder(r)| && j < |PostOrder(Cell(l, n, r))|
    requires PostOrder(Cell(l, n, r))[j] in NodesOf(Sub(Cell(l, n, r), PostOrder(Cell(l, n, r))[i]))
    requires forall i, j ::
               (0 <= i < |PostOrder(r)| && 0 <= j < |PostOrder(r)| && PostOrder(r)[j] in NodesOf(Sub(r, PostOrder(r)[i])))
               ==> j <= i
    ensures j <= i
  {
    var s := Cell(l, n, r);
    PostOrderMembers(r);
    PostOrderParts(l, n, r);
    var x := PostOrder(s)[i];
    assert x == PostOrder(r)[i - |PostOrder(l)|] && x in NodesOf(r);
    assert x != n && x !in NodesOf(l);
    SubFound(r, x);
    assert Sub(s, x) == Sub(r, x);
    RightPosition(l, n, r, j);
  }

  /** A node of the left subtree is listed among the left subtree's
      entries. */
  lemma LeftPosition(l: Shape, n: Node, r: Shape, j: nat)
    requires Distinct(Cell(l, n, r))
    requires j < |PostOrder(Cell(l, n, r))| && PostOrder(Cell(l, n, r))[j] in NodesOf(l)
    ensures j < |PostOrder(l)| && PostOrder(Cell(l, n, r))[j] == PostOrder(l)[j]
  {
    PostOrderMembers(r);
    PostOrderParts(l, n, r);
    var p, pl, pr := PostOrder(Cell(l, n, r)), PostOrder(l), PostOrder(r);
    forall k | |pl| <= k < |pl| + |pr| ensures p[k] !in NodesOf(l) {
      assert p[k] == pr[k - |pl|] && pr[k - |pl|] in NodesOf(r);
    }
  }

  /** A node of the right subtree is listed among the right subtree's
      entries. */
  lemma RightPosition(l: Shape, n: Node, r: Shape, j: nat)
    requires Distinct(Cell(l, n, r))
    requires j < |PostOrder(Cell(l, n, r))| && PostOrder(Cell(l, n, r))[j] in NodesOf(r)
    ensures |PostOrder(l)| <= j < |PostOrder(l)| + |PostOrder(r)|
    ensures PostOrder(Cell(l, n, r))[j] == PostOrder(r)[j - |PostOrder(l)|]
  {
    PostOrderMembers(l);
    PostOrderParts(l, n, r);
    var p, pl := PostOrder(Cell(l, n, r)), PostOrder(l);
    forall k | 0 <= k < |pl| ensures p[k] !in NodesOf(r) {
      assert p[k] == pl[k] && pl[k] in NodesOf(l);
    }
  }
}
