/** Trees of nodes with parent pointers: the shape that a memory holds, seen whole or from one place in it. */
module RbShape {

  /** `struct $rnode`, with the colour in a field of its own. */
  class Node {
    var black: bool
    var left: Node?
    var right: Node?
    var parent: Node?

    constructor ()
      ensures !black && left == null && right == null && parent == null
    {
      black, left, right, parent := false, null, null, null;
    }
  }

  /** The fields of a node, and the nodes of a memory with their fields. */
  datatype Fields = Fields(black: bool, left: Node?, right: Node?, parent: Node?)

  type Memory = map<Node, Fields>

  datatype Tree = Leaf | Branch(black: bool, left: Tree, node: Node, right: Tree)

  function Top(t: Tree): Node? {
    if t.Leaf? then null else t.node
  }

  function Nodes(t: Tree): set<Node> {
    if t.Leaf? then {} else Nodes(t.left) + {t.node} + Nodes(t.right)
  }

  function InOrder(t: Tree): seq<Node> {
    if t.Leaf? then [] else InOrder(t.left) + [t.node] + InOrder(t.right)
  }

  /** No node twice. */
  predicate Distinct(t: Tree) {
    t.Leaf? ||
    (Distinct(t.left) && Distinct(t.right) && t.node !in Nodes(t.left) && t.node !in Nodes(t.right) && Nodes(t.left) !! Nodes(t.right))
  }

  /** The memory holds t, its top node pointing to p as its parent. */
  ghost predicate At(m: Memory, t: Tree, p: Node?) {
    t.Leaf? ||
    (&& t.node in m && m[t.node] == Fields(t.black, Top(t.left), Top(t.right), p)
     && At(m, t.left, t.node) && At(m, t.right, t.node))
  }

  // ------------------------------------------------------------------------- places

  /** A step on the way up from a subtree: which child it is, its parent, and the parent's other subtree. */
  datatype Step = Step(isLeft: bool, black: bool, node: Node, other: Tree)

  /** The steps from a subtree to the root, innermost first. */
  type Path = seq<Step>

  function Join(s: Step, t: Tree): Tree {
    if s.isLeft then Branch(s.black, t, s.node, s.other) else Branch(s.black, s.other, s.node, t)
  }

  /** The whole tree. */
  function Plug(path: Path, t: Tree): Tree {
    if path == [] then t else Plug(path[1..], Join(path[0], t))
  }

  function Up(path: Path): Node? {
    if path == [] then null else path[0].node
  }

  function PathNodes(path: Path): set<Node> {
    if path == [] then {} else {path[0].node} + Nodes(path[0].other) + PathNodes(path[1..])
  }

  predicate PathDistinct(path: Path) {
    path == [] ||
    (&& PathDistinct(path[1..]) && Distinct(path[0].other) && path[0].node !in Nodes(path[0].other)
     && path[0].node !in PathNodes(path[1..]) && Nodes(path[0].other) !! PathNodes(path[1..]))
  }

  /** The memory holds everything around a subtree with top n. */
  ghost predicate Around(m: Memory, root: Node?, path: Path, n: Node?) {
    if path == [] then root == n
    else
      var s := path[0];
      && s.node in m
      && m[s.node] == Fields(s.black, if s.isLeft then n else Top(s.other), if s.isLeft then Top(s.other) else n, Up(path[1..]))
      && At(m, s.other, s.node) && Around(m, root, path[1..], s.node)
  }

  /** The memory holds the tree with this root that has t at the end of the path. */
  ghost predicate Holds(m: Memory, root: Node?, path: Path, t: Tree) {
    && At(m, t, Up(path)) && Around(m, root, path, Top(t))
    && Distinct(t) && PathDistinct(path) && Nodes(t) !! PathNodes(path)
  }

  /** Looking from one place or from the one above it is the same. */
  lemma HoldsUp(m: Memory, root: Node?, path: Path, t: Tree)
    requires path != []
    ensures Holds(m, root, path, t) <==> Holds(m, root, path[1..], Join(path[0], t))
  {
  }

  lemma HoldsDown(m: Memory, root: Node?, path: Path, s: Step, t: Tree)
    ensures Holds(m, root, [s] + path, t) <==> Holds(m, root, path, Join(s, t))
  {
    HoldsUp(m, root, [s] + path, t);
    assert ([s] + path)[1..] == path;
  }

  lemma {:induction false} HoldsPlug(m: Memory, root: Node?, path: Path, t: Tree)
    ensures Holds(m, root, path, t) <==> Holds(m, root, [], Plug(path, t))
    decreases |path|
  {
    if path != [] {
      HoldsUp(m, root, path, t);
      HoldsPlug(m, root, path[1..], Join(path[0], t));
    }
  }

  /** Only the root has no parent above it. */
  lemma {:induction false} RootOnPath(m: Memory, root: Node?, path: Path, n: Node?)
    requires Around(m, root, path, n) && path != []
    ensures root != null && root in PathNodes(path)
    decreases |path|
  {
    if |path| > 1 {
      RootOnPath(m, root, path[1..], path[0].node);
    } else {
      assert Around(m, root, [], path[0].node);
    }
  }

  lemma AtRoot(m: Memory, root: Node?, path: Path, t: Tree)
    requires Holds(m, root, path, t)
    ensures Top(t) == root <==> path == []
  {
    if path != [] {
      RootOnPath(m, root, path, Top(t));
    }
  }

  lemma {:induction false} AtInMemory(m: Memory, t: Tree, p: Node?)
    requires At(m, t, p)
    ensures Nodes(t) <= m.Keys
  {
    if t.Branch? {
      AtInMemory(m, t.left, t.node);
      AtInMemory(m, t.right, t.node);
    }
  }

  lemma {:induction false} InMemory(m: Memory, root: Node?, path: Path, t: Tree)
    requires Holds(m, root, path, t)
    ensures Nodes(t) <= m.Keys && PathNodes(path) <= m.Keys
    decreases |path|
  {
    AtInMemory(m, t, Up(path));
    if path != [] {
      HoldsUp(m, root, path, t);
      InMemory(m, root, path[1..], Join(path[0], t));
    }
  }

  // ------------------------------------------------------------------------- what a write leaves alone

  lemma {:induction false} AtFrame(m: Memory, m': Memory, t: Tree, p: Node?)
    requires At(m, t, p) && forall n :: n in Nodes(t) ==> n in m' && n in m && m'[n] == m[n]
    ensures At(m', t, p)
  {
    if t.Branch? {
      AtFrame(m, m', t.left, t.node);
      AtFrame(m, m', t.right, t.node);
    }
  }

  /** A subtree whose top got another parent. */
  lemma AtMoved(m: Memory, m': Memory, t: Tree, p: Node?, p': Node?)
    requires At(m, t, p) && Distinct(t)
    requires forall n :: n in Nodes(t) && n != Top(t) ==> n in m' && n in m && m'[n] == m[n]
    requires t.Branch? ==> t.node in m' && m'[t.node] == m[t.node].(parent := p')
    ensures At(m', t, p')
  {
    if t.Branch? {
      AtFrame(m, m', t.left, t.node);
      AtFrame(m, m', t.right, t.node);
    }
  }

  lemma {:induction false} AroundFrame(m: Memory, m': Memory, root: Node?, path: Path, n: Node?)
    requires Around(m, root, path, n)
    requires forall k :: k in PathNodes(path) ==> k in m' && k in m && m'[k] == m[k]
    ensures Around(m', root, path, n)
    decreases |path|
  {
    if path != [] {
      AtFrame(m, m', path[0].other, path[0].node);
      AroundFrame(m, m', root, path[1..], path[0].node);
    }
  }

  /** The fields of a parent whose child n became n'. */
  function Relinked(f: Fields, isLeft: bool, n: Node?): Fields {
    if isLeft then f.(left := n) else f.(right := n)
  }

  /** Another top at the end of the path. */
  lemma AroundReplaced(m: Memory, m': Memory, root: Node?, root': Node?, path: Path, n: Node?, n': Node?)
    requires Around(m, root, path, n) && PathDistinct(path)
    requires forall k :: k in PathNodes(path) && k != Up(path) ==> k in m' && k in m && m'[k] == m[k]
    requires path != [] ==> path[0].node in m' && m'[path[0].node] == Relinked(m[path[0].node], path[0].isLeft, n')
    requires root' == if path == [] then n' else root
    ensures Around(m', root', path, n')
  {
    if path != [] {
      AtFrame(m, m', path[0].other, path[0].node);
      AroundFrame(m, m', root, path[1..], path[0].node);
    }
  }

  // ------------------------------------------------------------------------- rotations

  predicate LeanRight(t: Tree) { t.Branch? && t.right.Branch? }

  predicate LeanLeft(t: Tree) { t.Branch? && t.left.Branch? }

  function RotatedLeft(t: Tree): Tree
    requires LeanRight(t)
  {
    var y := t.right;
    Branch(y.black, Branch(t.black, t.left, t.node, y.left), y.node, y.right)
  }

  function RotatedRight(t: Tree): Tree
    requires LeanLeft(t)
  {
    var x := t.left;
    Branch(x.black, x.left, x.node, Branch(t.black, x.right, t.node, t.right))
  }

  lemma RotationKeepsOrder(t: Tree)
    ensures LeanRight(t) ==> InOrder(RotatedLeft(t)) == InOrder(t)
    ensures LeanLeft(t) ==> InOrder(RotatedRight(t)) == InOrder(t)
  {
    if LeanRight(t) {
      var a, x, b, y, c := InOrder(t.left), [t.node], InOrder(t.right.left), [t.right.node], InOrder(t.right.right);
      assert a + x + (b + y + c) == (a + x + b) + y + c;
    }
    if LeanLeft(t) {
      var a, x, b, y, c := InOrder(t.left.left), [t.left.node], InOrder(t.left.right), [t.node], InOrder(t.right);
      assert (a + x + b) + y + c == a + x + (b + y + c);
    }
  }

  lemma RotationKeepsNodes(t: Tree)
    requires Distinct(t)
    ensures LeanRight(t) ==> Nodes(RotatedLeft(t)) == Nodes(t) && Distinct(RotatedLeft(t))
    ensures LeanLeft(t) ==> Nodes(RotatedRight(t)) == Nodes(t) && Distinct(RotatedRight(t))
  {
    if LeanRight(t) {
      var y := t.right;
      assert Nodes(t) == Nodes(t.left) + {t.node} + Nodes(y) && Nodes(y) == Nodes(y.left) + {y.node} + Nodes(y.right);
      assert Distinct(y) && Distinct(Branch(t.black, t.left, t.node, y.left));
    }
    if LeanLeft(t) {
      var x := t.left;
      assert Nodes(t) == Nodes(x) + {t.node} + Nodes(t.right) && Nodes(x) == Nodes(x.left) + {x.node} + Nodes(x.right);
      assert Distinct(x) && Distinct(Branch(t.black, x.right, t.node, t.right));
    }
  }

  /** What a rotation does to the memory: m' is m but for the two nodes, the subtree that changes sides and the parent. */
  ghost predicate Turned(m: Memory, m': Memory, path: Path, top: Node, top': Node, moved: Tree) {
    && (forall k :: k in m && k != top && k != top' && k != Top(moved) && k != Up(path) ==> k in m' && m'[k] == m[k])
    && (moved.Branch? ==> moved.node in m && moved.node in m' && m'[moved.node] == m[moved.node].(parent := top))
    && (path != [] ==>
          var p := path[0].node;
          p in m && p in m' && m'[p] == Relinked(m[p], path[0].isLeft, top'))
  }

  lemma TurnedLeft(m: Memory, m': Memory, root: Node?, root': Node?, path: Path, t: Tree)
    requires Holds(m, root, path, t) && LeanRight(t) && Turned(m, m', path, t.node, t.right.node, t.right.left)
    requires root' == if path == [] then t.right.node else root
    requires t.node in m && t.node in m' && m'[t.node] == m[t.node].(right := Top(t.right.left), parent := t.right.node)
    requires t.right.node in m && t.right.node in m' && m'[t.right.node] == m[t.right.node].(left := t.node, parent := Up(path))
    ensures Holds(m', root', path, RotatedLeft(t))
  {
    var y := t.right;
    RotationKeepsNodes(t);
    InMemory(m, root, path, t);
    assert At(m, y, t.node) && Distinct(y) && Nodes(t) == Nodes(t.left) + {t.node} + Nodes(y);
    assert Nodes(y) == Nodes(y.left) + {y.node} + Nodes(y.right);
    assert At(m', Branch(t.black, t.left, t.node, y.left), y.node) by {
      AtFrame(m, m', t.left, t.node);
      AtMoved(m, m', y.left, y.node, t.node);
    }
    assert At(m', y.right, y.node) by {
      AtFrame(m, m', y.right, y.node);
    }
    AroundReplaced(m, m', root, root', path, t.node, y.node);
  }

  lemma TurnedRight(m: Memory, m': Memory, root: Node?, root': Node?, path: Path, t: Tree)
    requires Holds(m, root, path, t) && LeanLeft(t) && Turned(m, m', path, t.node, t.left.node, t.left.right)
    requires root' == if path == [] then t.left.node else root
    requires t.node in m && t.node in m' && m'[t.node] == m[t.node].(left := Top(t.left.right), parent := t.left.node)
    requires t.left.node in m && t.left.node in m' && m'[t.left.node] == m[t.left.node].(right := t.node, parent := Up(path))
    ensures Holds(m', root', path, RotatedRight(t))
  {
    var x := t.left;
    RotationKeepsNodes(t);
    InMemory(m, root, path, t);
    assert At(m, x, t.node) && Distinct(x) && Nodes(t) == Nodes(x) + {t.node} + Nodes(t.right);
    assert Nodes(x) == Nodes(x.left) + {x.node} + Nodes(x.right);
    assert At(m', Branch(t.black, x.right, t.node, t.right), x.node) by {
      AtFrame(m, m', t.right, t.node);
      AtMoved(m, m', x.right, x.node, t.node);
    }
    assert At(m', x.left, x.node) by {
      AtFrame(m, m', x.left, x.node);
    }
    AroundReplaced(m, m', root, root', path, t.node, x.node);
  }

  /** The parent of a subtree's top, and which child of it the top is. */
  lemma ParentOf(m: Memory, root: Node?, path: Path, t: Tree)
    requires Holds(m, root, path, t) && t.Branch?
    ensures t.node in m && m[t.node] == Fields(t.black, Top(t.left), Top(t.right), Up(path))
    ensures path == [] <==> Up(path) == null
    ensures path != [] ==>
      var p := path[0].node;
      p in m && p !in Nodes(t) && (m[p].left == t.node <==> path[0].isLeft) && (m[p].right == t.node <==> !path[0].isLeft)
  {
    if path != [] {
      assert Nodes(path[0].other) !! Nodes(t);
    }
  }

  /** The three nodes of a left rotation and the parent above them are four. */
  lemma BeforeLeft(m: Memory, root: Node?, path: Path, t: Tree)
    requires Holds(m, root, path, t) && LeanRight(t)
    ensures var x, y, b, p := t.node, t.right.node, Top(t.right.left), Up(path);
      && x in m && y in m && x != y && m[x].right == y && m[x].parent == p && m[y].left == b
      && (b != null ==> b in m && b != x && b != y)
      && (p != null ==> path != [] && p in m && p != x && p != y && p != b && (m[p].left == x <==> path[0].isLeft))
      && (p == null ==> path == [])
  {
    ParentOf(m, root, path, t);
    InMemory(m, root, path, t);
    assert Nodes(t) == Nodes(t.left) + {t.node} + Nodes(t.right) && Distinct(t.right) && At(m, t.right, t.node);
    assert Nodes(t.right) == Nodes(t.right.left) + {t.right.node} + Nodes(t.right.right);
    if t.right.left.Branch? {
      assert t.right.left.node in Nodes(t.right.left);
    }
  }

  lemma BeforeRight(m: Memory, root: Node?, path: Path, t: Tree)
    requires Holds(m, root, path, t) && LeanLeft(t)
    ensures var y, x, b, p := t.node, t.left.node, Top(t.left.right), Up(path);
      && x in m && y in m && x != y && m[y].left == x && m[y].parent == p && m[x].right == b
      && (b != null ==> b in m && b != x && b != y)
      && (p != null ==> path != [] && p in m && p != x && p != y && p != b && (m[p].left == y <==> path[0].isLeft) && (m[p].right == y <==> m[p].left != y))
      && (p == null ==> path == [])
  {
    ParentOf(m, root, path, t);
    InMemory(m, root, path, t);
    assert Nodes(t) == Nodes(t.left) + {t.node} + Nodes(t.right) && Distinct(t.left) && At(m, t.left, t.node);
    assert Nodes(t.left) == Nodes(t.left.left) + {t.left.node} + Nodes(t.left.right);
    if t.left.right.Branch? {
      assert t.left.right.node in Nodes(t.left.right);
    }
  }

  function WithParent(m: Memory, n: Node?, v: Node?): Memory
    requires n != null ==> n in m
  {
    if n == null then m else m[n := m[n].(parent := v)]
  }

  function WithLeft(m: Memory, n: Node, v: Node?): Memory
    requires n in m
  {
    m[n := m[n].(left := v)]
  }

  function WithRight(m: Memory, n: Node, v: Node?): Memory
    requires n in m
  {
    m[n := m[n].(right := v)]
  }

  /** n' in the place of n below p. */
  function WithChild(m: Memory, p: Node?, n: Node?, n': Node?): Memory
    requires p != null ==> p in m
  {
    if p == null then m else m[p := Relinked(m[p], m[p].left == n, n')]
  }

  /** The six writes of a left rotation of x below p, y its right child, b the child that changes sides. */
  function LeftWrites(m: Memory, x: Node, y: Node, b: Node?, p: Node?): (m': Memory)
    requires x in m && y in m && (b != null ==> b in m) && (p != null ==> p in m)
    ensures m'.Keys == m.Keys
  {
    WithParent(WithLeft(WithChild(WithParent(WithParent(WithRight(m, x, b), b, x), y, p), p, x, y), y, x), x, y)
  }

  function RightWrites(m: Memory, y: Node, x: Node, b: Node?, p: Node?): (m': Memory)
    requires x in m && y in m && (b != null ==> b in m) && (p != null ==> p in m)
    ensures m'.Keys == m.Keys
  {
    WithParent(WithRight(WithChild(WithParent(WithParent(WithLeft(m, y, b), b, y), x, p), p, y, x), x, y), y, x)
  }

  lemma LeftWritesFields(m: Memory, x: Node, y: Node, b: Node?, p: Node?)
    requires x in m && y in m && x != y && (b != null ==> b in m && b != x && b != y)
    requires p != null ==> p in m && p != x && p != y && p != b
    ensures var m' := LeftWrites(m, x, y, b, p);
      && m'[x] == m[x].(right := b, parent := y) && m'[y] == m[y].(left := x, parent := p)
      && (b != null ==> m'[b] == m[b].(parent := x)) && (p != null ==> m'[p] == Relinked(m[p], m[p].left == x, y))
      && forall k :: k in m && k != x && k != y && k != b && k != p ==> m'[k] == m[k]
  {
  }

  lemma RightWritesFields(m: Memory, y: Node, x: Node, b: Node?, p: Node?)
    requires x in m && y in m && x != y && (b != null ==> b in m && b != x && b != y)
    requires p != null ==> p in m && p != x && p != y && p != b
    ensures var m' := RightWrites(m, y, x, b, p);
      && m'[y] == m[y].(left := b, parent := x) && m'[x] == m[x].(right := y, parent := p)
      && (b != null ==> m'[b] == m[b].(parent := y)) && (p != null ==> m'[p] == Relinked(m[p], m[p].left == y, x))
      && forall k :: k in m && k != x && k != y && k != b && k != p ==> m'[k] == m[k]
  {
  }

  lemma LeftWritten(m: Memory, root: Node?, path: Path, t: Tree)
    requires Holds(m, root, path, t) && LeanRight(t)
    requires var b, p := Top(t.right.left), Up(path);
      t.node in m && t.right.node in m && (b != null ==> b in m) && (p != null ==> p in m)
    ensures var x, y, b, p := t.node, t.right.node, Top(t.right.left), Up(path);
      Holds(LeftWrites(m, x, y, b, p), if p == null then y else root, path, RotatedLeft(t))
  {
    var x, y, b, p := t.node, t.right.node, Top(t.right.left), Up(path);
    var m' := LeftWrites(m, x, y, b, p);
    BeforeLeft(m, root, path, t);
    LeftWritesFields(m, x, y, b, p);
    hide Holds, LeftWrites;
    TurnedLeft(m, m', root, if p == null then y else root, path, t);
  }

  lemma RightWritten(m: Memory, root: Node?, path: Path, t: Tree)
    requires Holds(m, root, path, t) && LeanLeft(t)
    requires var b, p := Top(t.left.right), Up(path);
      t.node in m && t.left.node in m && (b != null ==> b in m) && (p != null ==> p in m)
    ensures var y, x, b, p := t.node, t.left.node, Top(t.left.right), Up(path);
      Holds(RightWrites(m, y, x, b, p), if p == null then x else root, path, RotatedRight(t))
  {
    var y, x, b, p := t.node, t.left.node, Top(t.left.right), Up(path);
    var m' := RightWrites(m, y, x, b, p);
    BeforeRight(m, root, path, t);
    RightWritesFields(m, y, x, b, p);
    hide Holds, RightWrites;
    TurnedRight(m, m', root, if p == null then x else root, path, t);
  }

  /** The top of a subtree painted. */
  lemma Painted(m: Memory, root: Node?, path: Path, t: Tree, black: bool)
    requires Holds(m, root, path, t) && t.Branch?
    ensures t.node in m && Holds(m[t.node := m[t.node].(black := black)], root, path, t.(black := black))
  {
    InMemory(m, root, path, t);
    assert Nodes(t) == Nodes(t.left) + {t.node} + Nodes(t.right);
    var m' := m[t.node := m[t.node].(black := black)];
    AtFrame(m, m', t.left, t.node);
    AtFrame(m, m', t.right, t.node);
    AroundFrame(m, m', root, path, t.node);
  }

  // ------------------------------------------------------------------------- order

  /** The in-order sequence of a whole tree from that of a subtree. */
  function OrderAround(path: Path, mid: seq<Node>): seq<Node> {
    if path == [] then mid
    else
      OrderAround(path[1..],
                  if path[0].isLeft then mid + [path[0].node] + InOrder(path[0].other)
                  else InOrder(path[0].other) + [path[0].node] + mid)
  }

  lemma {:induction false} OrderOfPlug(path: Path, t: Tree)
    ensures InOrder(Plug(path, t)) == OrderAround(path, InOrder(t))
    decreases |path|
  {
    if path != [] {
      OrderOfPlug(path[1..], Join(path[0], t));
    }
  }

  lemma OrderJoin(path: Path, s: Step, t: Tree)
    ensures OrderAround([s] + path, InOrder(t)) == OrderAround(path, InOrder(Join(s, t)))
  {
    assert ([s] + path)[1..] == path;
  }

  /** The nodes that the fixups look at from a subtree: its top, the parent, the grandparent and the uncle. */
  lemma Neighbours(m: Memory, root: Node?, s: Step, q: Step, rest: Path, t: Tree)
    requires Holds(m, root, [s] + ([q] + rest), t) && t.Branch?
    ensures t.node in m && s.node in m && q.node in m && m[t.node].parent == s.node && m[s.node].parent == q.node
    ensures m[s.node].black == s.black && (m[s.node].right == t.node <==> !s.isLeft) && (m[s.node].left == t.node <==> s.isLeft)
    ensures (m[q.node].left == s.node <==> q.isLeft) && Top(q.other) == if q.isLeft then m[q.node].right else m[q.node].left
    ensures q.other.Branch? ==> q.other.node in m && m[q.other.node].black == q.other.black
  {
    ParentOf(m, root, [s] + ([q] + rest), t);
    HoldsDown(m, root, [q] + rest, s, t);
    ParentOf(m, root, [q] + rest, Join(s, t));
    HoldsDown(m, root, rest, q, Join(s, t));
    ParentOf(m, root, rest, Join(q, Join(s, t)));
  }

  /** From a step, its parent's other subtree seen as the place instead. */
  function Across(s: Step, t: Tree): Step {
    Step(!s.isLeft, s.black, s.node, t)
  }

  lemma HoldsAcross(m: Memory, root: Node?, path: Path, s: Step, t: Tree)
    ensures Holds(m, root, [s] + path, t) <==> Holds(m, root, [Across(s, t)] + path, s.other)
  {
    HoldsDown(m, root, path, s, t);
    HoldsDown(m, root, path, Across(s, t), s.other);
  }

  /** The nodes that the deletion fixup looks at: the parent, the sibling and its children. */
  lemma Sidelong(m: Memory, root: Node?, s: Step, rest: Path, t: Tree)
    requires Holds(m, root, [s] + rest, t) && s.other.Branch?
    ensures var w := s.other;
      && s.node in m && m[s.node].black == s.black && m[s.node].parent == Up(rest)
      && Top(t) == (if s.isLeft then m[s.node].left else m[s.node].right)
      && w.node == (if s.isLeft then m[s.node].right else m[s.node].left)
      && Top(t) != w.node
      && w.node in m && m[w.node] == Fields(w.black, Top(w.left), Top(w.right), s.node)
      && (w.left.Branch? ==> w.left.node in m && m[w.left.node].black == w.left.black)
      && (w.right.Branch? ==> w.right.node in m && m[w.right.node].black == w.right.black)
  {
    assert ([s] + rest)[1..] == rest;
    assert At(m, s.other.left, s.other.node) && At(m, s.other.right, s.other.node);
    assert s.other.node in Nodes(s.other);
  }
}
