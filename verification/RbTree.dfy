/** rtree.c: rotations, the two fixups and the removal of a node with two children, on nodes in the heap. */
module RbTree {
  import opened RbShape
  import opened RbBalance
  import opened RbRemove

  /** `rtree_t`. mem records the fields of every node the tree may use, so that what the code writes can be followed as
      one map. */
  class RTree {
    var root: Node?
    ghost var mem: Memory

    /** mem is what the heap holds. */
    ghost predicate Valid()
      reads this, mem.Keys
    {
      forall n: Node :: n in mem ==>
        n.black == mem[n].black && n.left == mem[n].left && n.right == mem[n].right && n.parent == mem[n].parent
    }

    constructor ()
      ensures root == null && mem == map[] && Valid()
    {
      root := null;
      mem := map[];
    }

    // ----------------------------------------------------------------------- single writes

    method SetLeft(n: Node, v: Node?)
      requires Valid() && n in mem
      modifies this`mem, n`left
      ensures Valid() && root == old(root) && mem.Keys == old(mem.Keys) && mem == WithLeft(old(mem), n, v)
    {
      n.left := v;
      mem := mem[n := mem[n].(left := v)];
    }

    method SetRight(n: Node, v: Node?)
      requires Valid() && n in mem
      modifies this`mem, n`right
      ensures Valid() && root == old(root) && mem.Keys == old(mem.Keys) && mem == WithRight(old(mem), n, v)
    {
      n.right := v;
      mem := mem[n := mem[n].(right := v)];
    }

    /** rb_set_parent */
    method SetParent(n: Node, v: Node?)
      requires Valid() && n in mem
      modifies this`mem, n`parent
      ensures Valid() && root == old(root) && mem.Keys == old(mem.Keys) && mem == WithParent(old(mem), n, v)
    {
      n.parent := v;
      mem := mem[n := mem[n].(parent := v)];
    }

    /** rb_set_color */
    method SetColor(n: Node, black: bool)
      requires Valid() && n in mem
      modifies this`mem, n`black
      ensures Valid() && root == old(root) && mem == old(mem)[n := old(mem)[n].(black := black)]
    {
      n.black := black;
      mem := mem[n := mem[n].(black := black)];
    }

    // ----------------------------------------------------------------------- in terms of trees

    /** The top of the subtree at the end of a path painted. */
    method Paint(n: Node, black: bool, ghost path: Path, ghost t: Tree)
      requires Valid() && Holds(mem, root, path, t) && t.Branch? && t.node == n
      modifies this`mem, n`black
      ensures Valid() && mem.Keys == old(mem.Keys) && Holds(mem, root, path, t.(black := black))
    {
      Painted(mem, root, path, t, black);
      SetColor(n, black);
    }

    lemma Look(n: Node)
      requires Valid() && n in mem
      ensures mem[n] == Fields(n.black, n.left, n.right, n.parent)
    {
    }

    /** `child`, if there is one, gets a parent. */
    method Adopt(child: Node?, v: Node)
      requires Valid() && (child != null ==> child in mem)
      modifies this`mem, child
      ensures Valid() && root == old(root) && mem.Keys == old(mem.Keys) && mem == WithParent(old(mem), child, v)
    {
      if child != null {
        SetParent(child, v);
      }
    }

    /** n' in the place of n below a parent, or as the root: as the left rotation finds out which child n is. */
    method Replace(n: Node, n': Node, parent: Node?)
      requires Valid() && (parent != null ==> parent in mem)
      modifies this, parent
      ensures Valid() && root == (if parent == null then n' else old(root))
      ensures mem.Keys == old(mem.Keys) && mem == WithChild(old(mem), parent, n, n')
    {
      if parent == null {
        root := n';
      } else if parent.left == n {
        SetLeft(parent, n');
      } else {
        SetRight(parent, n');
      }
    }

    /** The same as the right rotation finds out. */
    method ReplaceRight(n: Node, n': Node, parent: Node?)
      requires Valid() && (parent != null ==> parent in mem && (parent.right == n <==> parent.left != n))
      modifies this, parent
      ensures Valid() && root == (if parent == null then n' else old(root))
      ensures mem.Keys == old(mem.Keys) && mem == WithChild(old(mem), parent, n, n')
    {
      if parent == null {
        root := n';
      } else if parent.right == n {
        SetRight(parent, n');
      } else {
        SetLeft(parent, n');
      }
    }

    /** _rtree_left_rotate: what it writes. */
    method WriteLeft(x: Node)
      requires Valid() && x in mem && x.right != null && x.right in mem && x.right != x
      requires x.parent != null ==> x.parent in mem && x.parent != x && x.parent != x.right
      requires var b := x.right.left; b != null ==> b in mem && b != x && b != x.right && b != x.parent
      modifies this, x, x.right, x.right.left, x.parent
      ensures Valid() && root == if old(x.parent) == null then old(x.right) else old(root)
      ensures mem == LeftWrites(old(mem), x, old(x.right), old(x.right.left), old(x.parent))
    {
      var y := x.right;
      var xparent := x.parent;
      hide Valid, WithLeft, WithRight, WithParent, WithChild;
      SetRight(x, y.left);
      Adopt(y.left, x);
      SetParent(y, xparent);
      Replace(x, y, xparent);
      SetLeft(y, x);
      SetParent(x, y);
    }

    /** _rtree_right_rotate: what it writes. */
    method WriteRight(y: Node)
      requires Valid() && y in mem && y.left != null && y.left in mem && y.left != y
      requires y.parent != null ==> y.parent in mem && y.parent != y && y.parent != y.left
      requires y.parent != null ==> (y.parent.right == y <==> y.parent.left != y)
      requires var b := y.left.right; b != null ==> b in mem && b != y && b != y.left && b != y.parent
      modifies this, y, y.left, y.left.right, y.parent
      ensures Valid() && root == if old(y.parent) == null then old(y.left) else old(root)
      ensures mem == RightWrites(old(mem), y, old(y.left), old(y.left.right), old(y.parent))
    {
      var x := y.left;
      var yparent := y.parent;
      hide Valid, WithLeft, WithRight, WithParent, WithChild;
      SetLeft(y, x.right);
      Adopt(x.right, y);
      SetParent(x, yparent);
      ReplaceRight(y, x, yparent);
      SetRight(x, y);
      SetParent(y, x);
    }

    /** _rtree_left_rotate: what it does to the tree. */
    method LeftRotate(x: Node, ghost path: Path, ghost t: Tree)
      requires Valid() && Holds(mem, root, path, t) && LeanRight(t) && t.node == x
      modifies this, mem.Keys
      ensures Valid() && mem.Keys == old(mem.Keys) && Holds(mem, root, path, RotatedLeft(t))
    {
      BeforeLeft(mem, root, path, t);
      LeftWritten(mem, root, path, t);
      Look(x);
      Look(x.right);
      hide Holds, LeftWrites;
      WriteLeft(x);
    }

    /** _rtree_right_rotate: what it does to the tree. */
    method RightRotate(y: Node, ghost path: Path, ghost t: Tree)
      requires Valid() && Holds(mem, root, path, t) && LeanLeft(t) && t.node == y
      modifies this, mem.Keys
      ensures Valid() && mem.Keys == old(mem.Keys) && Holds(mem, root, path, RotatedRight(t))
    {
      BeforeRight(mem, root, path, t);
      RightWritten(mem, root, path, t);
      Look(y);
      Look(y.left);
      if y.parent != null {
        Look(y.parent);
      }
      hide Holds, RightWrites;
      WriteRight(y);
    }

    /** The node that a step passes, painted. */
    method PaintParent(n: Node, black: bool, ghost rest: Path, ghost s: Step, ghost t: Tree)
      requires Valid() && Holds(mem, root, [s] + rest, t) && s.node == n
      modifies this`mem, n`black
      ensures Valid() && mem.Keys == old(mem.Keys) && Holds(mem, root, [s.(black := black)] + rest, t)
    {
      HoldsDown(mem, root, rest, s, t);
      Paint(n, black, rest, Join(s, t));
      HoldsDown(mem, root, rest, s.(black := black), t);
    }

    /** The top of the sibling painted. */
    method PaintOther(n: Node, black: bool, ghost rest: Path, ghost s: Step, ghost t: Tree)
      requires Valid() && Holds(mem, root, [s] + rest, t) && s.other.Branch? && s.other.node == n
      modifies this`mem, n`black
      ensures Valid() && mem.Keys == old(mem.Keys)
      ensures Holds(mem, root, [s.(other := s.other.(black := black))] + rest, t)
    {
      ghost var o := Step(!s.isLeft, s.black, s.node, t);
      ghost var painted := s.other.(black := black);
      HoldsDown(mem, root, rest, s, t);
      HoldsDown(mem, root, rest, o, s.other);
      Paint(n, black, [o] + rest, s.other);
      HoldsDown(mem, root, rest, o, painted);
      HoldsDown(mem, root, rest, s.(other := painted), t);
    }

    // ----------------------------------------------------------------------- insertion

    /** Case 1: a red uncle. */
    method PushUp(uncle: Node, parent: Node, gparent: Node, ghost s: Step, ghost q: Step, ghost rest: Path, ghost t: Tree)
      requires Valid() && Holds(mem, root, [s] + ([q] + rest), t)
      requires q.other.Branch? && q.other.node == uncle && s.node == parent && q.node == gparent
      modifies this, mem.Keys
      ensures Valid() && mem.Keys == old(mem.Keys)
      ensures Holds(mem, root, rest, Pushed(s, q, t))
    {
      ghost var q', s' := q.(other := Black(q.other)), s.(black := true);
      BeforePaint(mem, root, s, q, rest, t);
      hide Holds, Valid, Black;
      HoldsDown(mem, root, [q] + rest, s, t);
      PaintOther(uncle, true, rest, q, Join(s, t));
      HoldsDown(mem, root, [q'] + rest, s, t);
      PaintParent(parent, true, [q'] + rest, s, t);
      HoldsDown(mem, root, [q'] + rest, s', t);
      HoldsDown(mem, root, rest, q', Join(s', t));
      Paint(gparent, false, rest, Join(q', Join(s', t)));
    }

    /** Case 3 under a left child: parent black, grandparent red, right rotation of the grandparent. */
    method TurnOverRight(parent: Node, gparent: Node, ghost q: Step, ghost rest: Path, ghost p: Tree)
      requires Valid() && Holds(mem, root, [q] + rest, p) && q.isLeft && p.Branch?
      requires p.node == parent && q.node == gparent
      modifies this, mem.Keys
      ensures Valid() && mem.Keys == old(mem.Keys)
      ensures Holds(mem, root, [TurnedOver(q, p)] + rest, p.left)
    {
      ghost var q', p' := q.(black := false), p.(black := true);
      ghost var turned := Step(true, true, p.node, Branch(false, p.right, q.node, q.other));
      BeforePaintTop(mem, root, q, rest, p);
      hide Holds, Valid;
      Paint(parent, true, [q] + rest, p);
      PaintParent(gparent, false, rest, q, p');
      HoldsDown(mem, root, rest, q', p');
      RightRotate(gparent, rest, Join(q', p'));
      HoldsDown(mem, root, rest, turned, p.left);
    }

    /** Case 3 under a right child. */
    method TurnOverLeft(parent: Node, gparent: Node, ghost q: Step, ghost rest: Path, ghost p: Tree)
      requires Valid() && Holds(mem, root, [q] + rest, p) && !q.isLeft && p.Branch?
      requires p.node == parent && q.node == gparent
      modifies this, mem.Keys
      ensures Valid() && mem.Keys == old(mem.Keys)
      ensures Holds(mem, root, [TurnedOver(q, p)] + rest, p.right)
    {
      ghost var q', p' := q.(black := false), p.(black := true);
      ghost var turned := Step(false, true, p.node, Branch(false, q.other, q.node, p.left));
      BeforePaintTop(mem, root, q, rest, p);
      hide Holds, Valid;
      Paint(parent, true, [q] + rest, p);
      PaintParent(gparent, false, rest, q, p');
      HoldsDown(mem, root, rest, q', p');
      LeftRotate(gparent, rest, Join(q', p'));
      HoldsDown(mem, root, rest, turned, p.right);
    }

    lemma BeforePaint(m: Memory, root: Node?, s: Step, q: Step, rest: Path, t: Tree)
      requires Holds(m, root, [s] + ([q] + rest), t)
      ensures s.node in m && q.node in m && (q.other.Branch? ==> q.other.node in m)
    {
      InMemory(m, root, [s] + ([q] + rest), t);
      assert ([s] + ([q] + rest))[1..] == [q] + rest;
      assert PathNodes([q] + rest) == {q.node} + Nodes(q.other) + PathNodes(([q] + rest)[1..]);
    }

    lemma BeforePaintTop(m: Memory, root: Node?, q: Step, rest: Path, p: Tree)
      requires Holds(m, root, [q] + rest, p) && p.Branch?
      ensures q.node in m && p.node in m
    {
      InMemory(m, root, [q] + rest, p);
    }

    /** One turn of the insertion loop, the parent being a left child. */
    method InsertLeft(n: Node, ghost s: Step, ghost q: Step, ghost rest: Path, ghost t: Tree)
        returns (node: Node, ghost path: Path, ghost x: Tree)
      requires Valid() && Holds(mem, root, [s] + ([q] + rest), t) && t.Branch? && t.node == n && q.isLeft
      requires Inserting([s] + ([q] + rest), t) && !s.black
      modifies this, mem.Keys
      ensures Valid() && mem.Keys == old(mem.Keys) && Holds(mem, root, path, x) && x.Branch? && x.node == node
      ensures Inserting(path, x) && |path| < |rest| + 2
      ensures OrderAround(path, InOrder(x)) == OrderAround([s] + ([q] + rest), InOrder(t))
    {
      node := n;
      Neighbours(mem, root, s, q, rest, t);
      Look(node);
      var parent := node.parent;
      Look(parent);
      var gparent := parent.parent;
      Look(gparent);
      var uncle := gparent.right;
      if uncle != null {
        Look(uncle);
      }
      if uncle != null && !uncle.black {
        PushedUp(s, q, rest, t);
        hide Inserting, Valid, Holds;
        PushUp(uncle, parent, gparent, s, q, rest, t);
        return gparent, rest, Pushed(s, q, t);
      }
      TurnedOverKeeps(s, q, rest, t);
      OutwardKeeps(s, q, rest, t);
      HoldsDown(mem, root, [q] + rest, s, t);
      hide Inserting, Valid, Holds, Fits, Balanced, BlackHeight;
      if parent.right == node {
        LeftRotate(parent, [q] + rest, Join(s, t));
        uncle := parent;
        parent := node;
        node := uncle;
      }
      TurnOverRight(parent, gparent, q, rest, Outward(s, q, t));
      path, x := [TurnedOver(q, Outward(s, q, t))] + rest, Outer(q, Outward(s, q, t));
    }

    /** One turn of the insertion loop, the parent being a right child. */
    method InsertRight(n: Node, ghost s: Step, ghost q: Step, ghost rest: Path, ghost t: Tree)
        returns (node: Node, ghost path: Path, ghost x: Tree)
      requires Valid() && Holds(mem, root, [s] + ([q] + rest), t) && t.Branch? && t.node == n && !q.isLeft
      requires Inserting([s] + ([q] + rest), t) && !s.black
      modifies this, mem.Keys
      ensures Valid() && mem.Keys == old(mem.Keys) && Holds(mem, root, path, x) && x.Branch? && x.node == node
      ensures Inserting(path, x) && |path| < |rest| + 2
      ensures OrderAround(path, InOrder(x)) == OrderAround([s] + ([q] + rest), InOrder(t))
    {
      node := n;
      Neighbours(mem, root, s, q, rest, t);
      Look(node);
      var parent := node.parent;
      Look(parent);
      var gparent := parent.parent;
      Look(gparent);
      var uncle := gparent.left;
      if uncle != null {
        Look(uncle);
      }
      if uncle != null && !uncle.black {
        PushedUp(s, q, rest, t);
        hide Inserting, Valid, Holds;
        PushUp(uncle, parent, gparent, s, q, rest, t);
        return gparent, rest, Pushed(s, q, t);
      }
      TurnedOverKeeps(s, q, rest, t);
      OutwardKeeps(s, q, rest, t);
      HoldsDown(mem, root, [q] + rest, s, t);
      hide Inserting, Valid, Holds, Fits, Balanced, BlackHeight;
      if parent.left == node {
        RightRotate(parent, [q] + rest, Join(s, t));
        uncle := parent;
        parent := node;
        node := uncle;
      }
      TurnOverLeft(parent, gparent, q, rest, Outward(s, q, t));
      path, x := [TurnedOver(q, Outward(s, q, t))] + rest, Outer(q, Outward(s, q, t));
    }

    /** _rtree_insert_fixup: from a tree whose only fault may be a red node under a red parent to a red-black tree with
        the same nodes in the same order, its links consistent. */
    method InsertFixup(start: Node, ghost path0: Path, ghost t0: Tree) returns (ghost whole: Tree)
      requires Valid() && Holds(mem, root, path0, t0) && Inserting(path0, t0) && t0.node == start
      modifies this, mem.Keys
      ensures Valid() && mem.Keys == old(mem.Keys) && Holds(mem, root, [], whole) && RedBlack(whole)
      ensures InOrder(whole) == OrderAround(path0, InOrder(t0))
    {
      var node := start;
      ghost var path, t := path0, t0;
      Above(node, path, t);
      while node.parent != null && !node.parent.black
        invariant Valid() && mem.Keys == old(mem.Keys) && Holds(mem, root, path, t) && Inserting(path, t)
        invariant t.node == node && OrderAround(path, InOrder(t)) == OrderAround(path0, InOrder(t0))
        invariant node.parent == Up(path) && (path != [] ==> path[0].node.black == path[0].black)
        decreases |path|
      {
        node, path, t := InsertTurn(node, path, t);
        Above(node, path, t);
      }
      Inserted(path, t);
      HoldsPlug(mem, root, path, t);
      whole := Plug(path, t);
      Paint(root, true, [], whole);
      whole := whole.(black := true);
    }

    lemma Above(node: Node, path: Path, t: Tree)
      requires Valid() && Holds(mem, root, path, t) && t.Branch? && t.node == node
      ensures node.parent == Up(path) && (path != [] ==> path[0].node.black == path[0].black)
    {
      ParentOf(mem, root, path, t);
      Look(node);
      if path != [] {
        HoldsUp(mem, root, path, t);
        ParentOf(mem, root, path[1..], Join(path[0], t));
        Look(path[0].node);
      }
    }

    /** One turn of the insertion loop. */
    method InsertTurn(n: Node, ghost path0: Path, ghost t: Tree) returns (node: Node, ghost path: Path, ghost x: Tree)
      requires Valid() && Holds(mem, root, path0, t) && t.Branch? && t.node == n
      requires Inserting(path0, t) && path0 != [] && !path0[0].black
      modifies this, mem.Keys
      ensures Valid() && mem.Keys == old(mem.Keys) && Holds(mem, root, path, x) && x.Branch? && x.node == node
      ensures Inserting(path, x) && |path| < |path0| && OrderAround(path, InOrder(x)) == OrderAround(path0, InOrder(t))
    {
      ghost var s, q, rest := path0[0], path0[1], path0[2..];
      assert path0 == [s] + ([q] + rest);
      Neighbours(mem, root, s, q, rest, t);
      Look(n);
      var parent := n.parent;
      Look(parent);
      var gparent := parent.parent;
      Look(gparent);
      hide Holds, Valid, Inserting, OrderAround, InOrder;
      if parent == gparent.left {
        node, path, x := InsertLeft(n, s, q, rest, t);
      } else {
        node, path, x := InsertRight(n, s, q, rest, t);
      }
    }

    // ----------------------------------------------------------------------- deletion

    /** A child of the sibling painted black. */
    method PaintNephew(n: Node, ghost isLeft: bool, ghost rest: Path, ghost s: Step, ghost t: Tree)
      requires Valid() && Holds(mem, root, [s] + rest, t) && s.other.Branch?
      requires var c := if isLeft then s.other.left else s.other.right; c.Branch? && c.node == n
      modifies this`mem, n`black
      ensures Valid() && mem.Keys == old(mem.Keys)
      ensures
        var w := s.other;
        var w' := if isLeft then w.(left := Black(w.left)) else w.(right := Black(w.right));
        Holds(mem, root, [s.(other := w')] + rest, t)
    {
      ghost var w, a := s.other, Across(s, t);
      ghost var c := if isLeft then w.left else w.right;
      ghost var x := Step(isLeft, w.black, w.node, if isLeft then w.right else w.left);
      HoldsAcross(mem, root, rest, s, t);
      HoldsDown(mem, root, [a] + rest, x, c);
      Paint(n, true, [x] + ([a] + rest), c);
      HoldsDown(mem, root, [a] + rest, x, Black(c));
      HoldsAcross(mem, root, rest, s.(other := Join(x, Black(c))), t);
    }

    /** Case 1, its colours: the red sibling black, the parent red. */
    method PaintLowered(other: Node, parent: Node, ghost s: Step, ghost rest: Path, ghost t: Tree)
      requires Valid() && Holds(mem, root, [s] + rest, t) && s.other.Branch? && s.other.node == other && s.node == parent
      modifies this`mem, other`black, parent`black
      ensures Valid() && mem.Keys == old(mem.Keys)
      ensures Holds(mem, root, rest, Join(s.(other := Black(s.other), black := false), t))
    {
      ghost var s' := s.(other := s.other.(black := true));
      hide Holds, Valid;
      PaintOther(other, true, rest, s, t);
      PaintParent(parent, false, rest, s', t);
      HoldsDown(mem, root, rest, s'.(black := false), t);
    }

    lemma HoldsDown2(path: Path, s: Step, q: Step, t: Tree)
      ensures Holds(mem, root, [s] + ([q] + path), t) <==> Holds(mem, root, path, Join(q, Join(s, t)))
    {
      HoldsDown(mem, root, [q] + path, s, t);
      HoldsDown(mem, root, path, q, Join(s, t));
    }

    /** Case 1 on the left: a red sibling. */
    method LowerLeft(other: Node, parent: Node, ghost s: Step, ghost rest: Path, ghost t: Tree)
      requires Valid() && Holds(mem, root, [s] + rest, t) && s.isLeft && s.other.Branch? && s.black
      requires s.other.node == other && s.node == parent
      modifies this, mem.Keys
      ensures Valid() && mem.Keys == old(mem.Keys)
      ensures Holds(mem, root, [Lowered(s)[0]] + ([Lowered(s)[1]] + rest), t)
    {
      Sidelong(mem, root, s, rest, t);
      hide Holds, Valid;
      PaintLowered(other, parent, s, rest, t);
      LeftRotate(parent, rest, Join(s.(other := Black(s.other), black := false), t));
      HoldsDown2(rest, Lowered(s)[0], Lowered(s)[1], t);
    }

    /** Case 1 on the right. */
    method LowerRight(other: Node, parent: Node, ghost s: Step, ghost rest: Path, ghost t: Tree)
      requires Valid() && Holds(mem, root, [s] + rest, t) && !s.isLeft && s.other.Branch? && s.black
      requires s.other.node == other && s.node == parent
      modifies this, mem.Keys
      ensures Valid() && mem.Keys == old(mem.Keys)
      ensures Holds(mem, root, [Lowered(s)[0]] + ([Lowered(s)[1]] + rest), t)
    {
      Sidelong(mem, root, s, rest, t);
      hide Holds, Valid;
      PaintLowered(other, parent, s, rest, t);
      RightRotate(parent, rest, Join(s.(other := Black(s.other), black := false), t));
      HoldsDown2(rest, Lowered(s)[0], Lowered(s)[1], t);
    }

    /** Case 3 on the left: the sibling's left child red, the right one not. */
    method TurnInLeft(other: Node, ghost s: Step, ghost rest: Path, ghost t: Tree)
      requires Valid() && Holds(mem, root, [s] + rest, t) && LeanLeft(s.other) && s.other.node == other
      modifies this, mem.Keys
      ensures Valid() && mem.Keys == old(mem.Keys) && Holds(mem, root, [s.(other := TurnedIn(s.other))] + rest, t)
    {
      ghost var s' := s.(other := s.other.(left := Black(s.other.left)));
      ghost var s'' := s'.(other := s'.other.(black := false));
      Sidelong(mem, root, s, rest, t);
      Look(other);
      hide Holds, Valid;
      PaintNephew(other.left, true, rest, s, t);
      PaintOther(other, false, rest, s', t);
      HoldsAcross(mem, root, rest, s'', t);
      RightRotate(other, [Across(s, t)] + rest, s''.other);
      HoldsAcross(mem, root, rest, s.(other := TurnedIn(s.other)), t);
    }

    /** Case 3 on the right. */
    method TurnInRight(other: Node, ghost s: Step, ghost rest: Path, ghost t: Tree)
      requires Valid() && Holds(mem, root, [s] + rest, t) && LeanRight(s.other) && s.other.node == other
      modifies this, mem.Keys
      ensures Valid() && mem.Keys == old(mem.Keys) && Holds(mem, root, [s.(other := TurnedInRight(s.other))] + rest, t)
    {
      ghost var s' := s.(other := s.other.(right := Black(s.other.right)));
      ghost var s'' := s'.(other := s'.other.(black := false));
      Sidelong(mem, root, s, rest, t);
      Look(other);
      hide Holds, Valid;
      PaintNephew(other.right, false, rest, s, t);
      PaintOther(other, false, rest, s', t);
      HoldsAcross(mem, root, rest, s'', t);
      LeftRotate(other, [Across(s, t)] + rest, s''.other);
      HoldsAcross(mem, root, rest, s.(other := TurnedInRight(s.other)), t);
    }

    /** Case 4, its colours: the sibling the parent's, the parent and the far nephew black. */
    method PaintTaken(other: Node, parent: Node, nephew: Node, ghost s: Step, ghost rest: Path, ghost t: Tree)
      requires Valid() && Holds(mem, root, [s] + rest, t) && s.other.Branch? && s.other.node == other && s.node == parent
      requires var c := if s.isLeft then s.other.right else s.other.left; c.Branch? && c.node == nephew
      modifies this`mem, other`black, parent`black, nephew`black
      ensures Valid() && mem.Keys == old(mem.Keys)
      ensures
        var w := s.other.(black := s.black);
        var w' := if s.isLeft then w.(right := Black(w.right)) else w.(left := Black(w.left));
        Holds(mem, root, rest, Join(s.(black := true, other := w'), t))
    {
      ghost var s1 := s.(other := s.other.(black := s.black));
      ghost var s2 := s1.(black := true);
      ghost var w := s2.other;
      ghost var w' := if s.isLeft then w.(right := Black(w.right)) else w.(left := Black(w.left));
      Sidelong(mem, root, s, rest, t);
      Look(parent);
      hide Holds, Valid;
      PaintOther(other, parent.black, rest, s, t);
      PaintParent(parent, true, rest, s1, t);
      PaintNephew(nephew, !s.isLeft, rest, s2, t);
      HoldsDown(mem, root, rest, s2.(other := w'), t);
    }

    /** Case 4 on the left: the sibling's right child red. */
    method TakeLeft(other: Node, parent: Node, ghost s: Step, ghost rest: Path, ghost t: Tree)
      requires Valid() && Holds(mem, root, [s] + rest, t) && s.isLeft && LeanRight(s.other)
      requires s.other.node == other && s.node == parent
      modifies this, mem.Keys
      ensures Valid() && mem.Keys == old(mem.Keys) && Holds(mem, root, rest, Taken(s, t))
    {
      ghost var w := s.other.(black := s.black, right := Black(s.other.right));
      Sidelong(mem, root, s, rest, t);
      Look(other);
      hide Holds, Valid;
      PaintTaken(other, parent, other.right, s, rest, t);
      LeftRotate(parent, rest, Join(s.(black := true, other := w), t));
    }

    /** Case 4 on the right. */
    method TakeRight(other: Node, parent: Node, ghost s: Step, ghost rest: Path, ghost t: Tree)
      requires Valid() && Holds(mem, root, [s] + rest, t) && !s.isLeft && LeanLeft(s.other)
      requires s.other.node == other && s.node == parent
      modifies this, mem.Keys
      ensures Valid() && mem.Keys == old(mem.Keys) && Holds(mem, root, rest, Taken(s, t))
    {
      ghost var w := s.other.(black := s.black, left := Black(s.other.left));
      Sidelong(mem, root, s, rest, t);
      Look(other);
      hide Holds, Valid;
      PaintTaken(other, parent, other.left, s, rest, t);
      RightRotate(parent, rest, Join(s.(black := true, other := w), t));
    }

    /** Cases 2, 3 and 4 on the left: a black sibling. */
    method SettleLeft(parent: Node, ghost s: Step, ghost rest: Path, ghost t: Tree)
        returns (node: Node?, parent': Node?, ghost path: Path, ghost x: Tree)
      requires Valid() && Holds(mem, root, [s] + rest, t) && s.isLeft && s.node == parent
      requires Short([s] + rest, t) && !Red(t) && s.other.Branch? && s.other.black
      modifies this, mem.Keys
      ensures Valid() && mem.Keys == old(mem.Keys) && Holds(mem, root, path, x) && Short(path, x)
      ensures node == Top(x) && (path != [] ==> parent' == path[0].node)
      ensures path == [] || (path == rest && (Red(x) <==> !s.black))
      ensures OrderAround(path, InOrder(x)) == OrderAround([s] + rest, InOrder(t))
    {
      Sidelong(mem, root, s, rest, t);
      Look(parent);
      var other := parent.right;
      Look(other);
      if other.left != null { Look(other.left); }
      if other.right != null { Look(other.right); }
      if (other.left == null || other.left.black) && (other.right == null || other.right.black) {
        PaintedShort(s, rest, t);
        hide Holds, Valid, Short, OrderAround, InOrder;
        PaintOther(other, false, rest, s, t);
        x := Join(s.(other := s.other.(black := false)), t);
        HoldsDown(mem, root, rest, s.(other := s.other.(black := false)), t);
        path, node, parent' := rest, parent, parent.parent;
        return;
      }
      ghost var q := s;
      TurnedInShort(s, rest, t);
      hide Holds, Valid, Short, OrderAround, InOrder;
      if other.right == null || other.right.black {
        TurnInLeft(other, s, rest, t);
        q := s.(other := TurnedIn(s.other));
        Sidelong(mem, root, q, rest, t);
        Look(parent);
        other := parent.right;
      }
      TakenEnds(q, rest, t);
      TakeLeft(other, parent, q, rest, t);
      HoldsPlug(mem, root, rest, Taken(q, t));
      path, x := [], Plug(rest, Taken(q, t));
      AtRoot(mem, root, path, x);
      node, parent' := root, parent;
    }

    /** Cases 2, 3 and 4 on the right: a black sibling. */
    method SettleRight(parent: Node, ghost s: Step, ghost rest: Path, ghost t: Tree)
        returns (node: Node?, parent': Node?, ghost path: Path, ghost x: Tree)
      requires Valid() && Holds(mem, root, [s] + rest, t) && !s.isLeft && s.node == parent
      requires Short([s] + rest, t) && !Red(t) && s.other.Branch? && s.other.black
      modifies this, mem.Keys
      ensures Valid() && mem.Keys == old(mem.Keys) && Holds(mem, root, path, x) && Short(path, x)
      ensures node == Top(x) && (path != [] ==> parent' == path[0].node)
      ensures path == [] || (path == rest && (Red(x) <==> !s.black))
      ensures OrderAround(path, InOrder(x)) == OrderAround([s] + rest, InOrder(t))
    {
      Sidelong(mem, root, s, rest, t);
      Look(parent);
      var other := parent.left;
      Look(other);
      if other.left != null { Look(other.left); }
      if other.right != null { Look(other.right); }
      if (other.left == null || other.left.black) && (other.right == null || other.right.black) {
        PaintedShort(s, rest, t);
        hide Holds, Valid, Short, OrderAround, InOrder;
        PaintOther(other, false, rest, s, t);
        x := Join(s.(other := s.other.(black := false)), t);
        HoldsDown(mem, root, rest, s.(other := s.other.(black := false)), t);
        path, node, parent' := rest, parent, parent.parent;
        return;
      }
      ghost var q := s;
      TurnedInShort(s, rest, t);
      hide Holds, Valid, Short, OrderAround, InOrder;
      if other.left == null || other.left.black {
        TurnInRight(other, s, rest, t);
        q := s.(other := TurnedInRight(s.other));
        Sidelong(mem, root, q, rest, t);
        Look(parent);
        other := parent.left;
      }
      TakenEnds(q, rest, t);
      TakeRight(other, parent, q, rest, t);
      HoldsPlug(mem, root, rest, Taken(q, t));
      path, x := [], Plug(rest, Taken(q, t));
      AtRoot(mem, root, path, x);
      node, parent' := root, parent;
    }

    /** One turn of the deletion loop. */
    method DeleteTurn(node: Node?, parent: Node, ghost path0: Path, ghost t: Tree)
        returns (node': Node?, parent': Node?, ghost path: Path, ghost x: Tree)
      requires Valid() && Holds(mem, root, path0, t) && path0 != [] && path0[0].node == parent && Top(t) == node
      requires Short(path0, t) && !Red(t)
      modifies this, mem.Keys
      ensures Valid() && mem.Keys == old(mem.Keys) && Holds(mem, root, path, x) && Short(path, x)
      ensures node' == Top(x) && (path != [] ==> parent' == path[0].node)
      ensures path == [] || |path| < |path0| || Red(x)
      ensures OrderAround(path, InOrder(x)) == OrderAround(path0, InOrder(t))
    {
      ghost var s, rest := path0[0], path0[1..];
      assert path0 == [s] + rest;
      Sibling(path0, t);
      Sidelong(mem, root, s, rest, t);
      Look(parent);
      if parent.left == node {
        var other := parent.right;
        Look(other);
        if !other.black {
          LoweredShort(s, rest, t);
          hide Holds, Valid, Short, OrderAround, InOrder;
          LowerLeft(other, parent, s, rest, t);
          node', parent', path, x := SettleLeft(parent, Lowered(s)[0], [Lowered(s)[1]] + rest, t);
        } else {
          hide Holds, Valid, Short, OrderAround, InOrder;
          node', parent', path, x := SettleLeft(parent, s, rest, t);
        }
      } else {
        var other := parent.left;
        Look(other);
        if !other.black {
          LoweredShort(s, rest, t);
          hide Holds, Valid, Short, OrderAround, InOrder;
          LowerRight(other, parent, s, rest, t);
          node', parent', path, x := SettleRight(parent, Lowered(s)[0], [Lowered(s)[1]] + rest, t);
        } else {
          hide Holds, Valid, Short, OrderAround, InOrder;
          node', parent', path, x := SettleRight(parent, s, rest, t);
        }
      }
    }

    lemma TopBlack(node: Node?, path: Path, t: Tree)
      requires Valid() && Holds(mem, root, path, t) && Top(t) == node
      ensures node == root <==> path == []
      ensures node != null ==> node in mem && node.black == t.black
      ensures (node == null || node.black) <==> !Red(t)
    {
      AtRoot(mem, root, path, t);
      if node != null {
        ParentOf(mem, root, path, t);
        Look(node);
      }
    }

    /** _rtree_delete_fixup: from a tree whose only fault is one missing black at `node` under `parent` (and a red top of
        that subtree, or at it) to a red-black tree with the same nodes in the same order, its links consistent. */
    method DeleteFixup(node0: Node?, parent0: Node?, ghost path0: Path, ghost t0: Tree) returns (ghost whole: Tree)
      requires Valid() && Holds(mem, root, path0, t0) && Short(path0, t0) && node0 == Top(t0) && parent0 == Up(path0)
      modifies this, mem.Keys
      ensures Valid() && mem.Keys == old(mem.Keys) && Holds(mem, root, [], whole) && RedBlack(whole)
      ensures InOrder(whole) == OrderAround(path0, InOrder(t0))
    {
      var node, parent := node0, parent0;
      ghost var path, t := path0, t0;
      TopBlack(node, path, t);
      hide Holds, Valid, Short, OrderAround, InOrder;
      while (node == null || node.black) && node != root
        invariant Valid() && mem.Keys == old(mem.Keys) && Holds(mem, root, path, t) && Short(path, t)
        invariant node == Top(t) && (path != [] ==> parent == path[0].node)
        invariant node == root <==> path == []
        invariant (node == null || node.black) <==> !Red(t)
        invariant OrderAround(path, InOrder(t)) == OrderAround(path0, InOrder(t0))
        decreases if Red(t) then 0 else |path| + 1
      {
        node, parent, path, t := DeleteTurn(node, parent, path, t);
        TopBlack(node, path, t);
      }
      whole := FinishDelete(node, path, t);
    }

    /** `if (node) rb_set_black(node)` */
    method FinishDelete(node: Node?, ghost path: Path, ghost t: Tree) returns (ghost whole: Tree)
      requires Valid() && Holds(mem, root, path, t) && Short(path, t) && node == Top(t) && (path == [] || Red(t))
      modifies this, mem.Keys
      ensures Valid() && mem.Keys == old(mem.Keys) && Holds(mem, root, [], whole) && RedBlack(whole)
      ensures InOrder(whole) == OrderAround(path, InOrder(t))
    {
      ShortEnds(path, t);
      OrderOfPlug(path, Black(t));
      TopBlack(node, path, t);
      hide Holds, Valid, Short;
      if node != null {
        Paint(node, true, path, t);
      }
      HoldsPlug(mem, root, path, Black(t));
      whole := Plug(path, Black(t));
    }

    // ----------------------------------------------------------------------- removal

    method Unhook(node: Node, replace: Node, child: Node?, parent: Node)
      requires Valid() && replace in mem && parent in mem && (child != null ==> child in mem)
      requires node.right != null && node.right in mem && node != replace && node != parent && node != child
      modifies this, replace, parent, child, node.right
      ensures Valid() && root == old(root) && mem == UnhookWrites(old(mem), replace, child, parent, old(node.right))
    {
      hide Valid;
      Adopt(child, parent);
      SetLeft(parent, child);
      SetRight(replace, node.right);
      SetParent(node.right, replace);
    }

    method Takeover(node: Node, replace: Node)
      requires Valid() && replace in mem && node.left != null && node.left in mem && node != replace
      modifies this, replace, node.left
      ensures Valid() && root == old(root)
      ensures mem == TakeoverWrites(old(mem), replace, old(node.parent), old(node.black), old(node.left))
    {
      hide Valid;
      SetParent(replace, node.parent);
      SetColor(replace, node.black);
      SetLeft(replace, node.left);
      SetParent(node.left, replace);
    }

    /** The writes of rb_remove for a node with two children, up to the fixup. */
    method WriteRemoval(node: Node, replace: Node, ghost p: Places) returns (child: Node?, parent: Node?, color: bool)
      requires Valid() && Apart(mem, p) && p.z == node && p.r == replace
      requires mem[node] == Fields(node.black, p.l, p.w, p.up) && mem[replace] == Fields(replace.black, null, p.c, p.q)
      modifies this, mem.Keys
      ensures Valid() && root == (if p.up == null then p.r else old(root)) && mem == RemovalWrites(old(mem), p)
      ensures child == p.c && parent == (if p.q == p.z then p.r else p.q) && color == old(mem)[p.r].black
    {
      Look(node);
      Look(replace);
      hide Valid, UnhookWrites, TakeoverWrites, WithChild;
      parent := node.parent;
      Replace(node, replace, parent);
      child := replace.right;
      parent := replace.parent;
      color := replace.black;
      if parent == node {
        parent := replace;
      } else {
        Unhook(node, replace, child, parent);
      }
      Takeover(node, replace);
    }

    /** rb_remove of a node with two children: a red-black tree again, with consistent links, the nodes in their order
        but the one removed. */
    method RemoveTwoChildren(node: Node, ghost path: Path, ghost t: Tree) returns (ghost whole: Tree)
      requires Valid() && Holds(mem, root, path, t) && t.Branch? && t.node == node && node.left != null && node.right != null
      requires RedBlack(Plug(path, t))
      modifies this, mem.Keys
      ensures Valid() && mem.Keys == old(mem.Keys) && Holds(mem, root, [], whole) && RedBlack(whole)
      ensures TwoChildren(t) && InOrder(whole) == OrderAround(path, InOrder(t.left) + InOrder(t.right))
      ensures InOrder(Plug(path, t)) == OrderAround(path, InOrder(t.left) + [node] + InOrder(t.right))
    {
      Children(node, path, t);
      OrderOfPlug(path, t);
      OrderAfterRemoval(path, t);
      var child, parent, color := TakeOut(node, path, t);
      AfterRemoval(mem, root, path, t);
      hide Valid, Holds, OrderAround, InOrder, RedBlack, Least, Succeeded, Place;
      if color {
        whole := DeleteFixup(child, parent, Place(path, t), Least(t.right).right);
      } else {
        HoldsPlug(mem, root, path, Succeeded(t));
        whole := Plug(path, Succeeded(t));
      }
    }

    /** The successor found and put in the node's place: what rb_remove does before the fixup. */
    method TakeOut(node: Node, ghost path: Path, ghost t: Tree) returns (child: Node?, parent: Node?, color: bool)
      requires Valid() && Holds(mem, root, path, t) && TwoChildren(t) && t.node == node
      modifies this, mem.Keys
      ensures Valid() && mem.Keys == old(mem.Keys) && Holds(mem, root, path, Succeeded(t))
      ensures var r := Least(t.right);
        && child == Top(r.right) && color == r.black
        && parent == if t.right.left.Leaf? then r.node else LeastParent(t.right, node)
    {
      Children(node, path, t);
      RemovalWritten(mem, root, path, t);
      PlacesApart(mem, root, path, t);
      var replace := FindLeast(node, path, t);
      Look(node);
      Look(replace);
      hide Valid, Holds, RemovalWrites, Apart, Least, Succeeded, LeastParent;
      child, parent, color := WriteRemoval(node, replace, PlacesIn(path, t));
    }

    lemma Children(node: Node, path: Path, t: Tree)
      requires Valid() && Holds(mem, root, path, t) && t.Branch? && t.node == node
      ensures node in mem && node.left == Top(t.left) && node.right == Top(t.right)
    {
      ParentOf(mem, root, path, t);
      Look(node);
    }

    /** The successor: from the right child down the left ones. */
    method FindLeast(node: Node, ghost path: Path, ghost t: Tree) returns (replace: Node)
      requires Valid() && Holds(mem, root, path, t) && TwoChildren(t) && t.node == node
      ensures replace == Least(t.right).node && replace in mem
    {
      Children(node, path, t);
      replace := node.right;
      ghost var sub := t.right;
      assert At(mem, sub, node);
      while replace.left != null
        invariant sub.Branch? && replace == sub.node && Least(sub) == Least(t.right)
        invariant replace in mem && replace.left == Top(sub.left) && At(mem, sub.left, replace)
        decreases sub
      {
        replace := replace.left;
        sub := sub.left;
        assert At(mem, sub.left, replace);
      }
    }
  }
}
