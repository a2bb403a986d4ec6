/** Taking the least node out of a subtree, and putting it in the place of another: what rb_remove does to the shape. */
module RbRemove {
  import opened RbShape
  import opened RbBalance

  /** The subtree with the least node on top. */
  function Least(t: Tree): Tree
    requires t.Branch?
    ensures Least(t).Branch? && Least(t).left.Leaf?
  {
    if t.left.Leaf? then t else Least(t.left)
  }

  /** Its parent, p being the parent of the whole. */
  function LeastParent(t: Tree, p: Node): Node
    requires t.Branch?
  {
    if t.left.Leaf? then p else LeastParent(t.left, t.node)
  }

  /** Its right subtree in its place. */
  function WithoutLeast(t: Tree): Tree
    requires t.Branch?
  {
    if t.left.Leaf? then t.right else Branch(t.black, WithoutLeast(t.left), t.node, t.right)
  }

  /** The way up from that place. */
  function Spot(t: Tree): Path
    requires t.Branch?
  {
    if t.left.Leaf? then [] else Spot(t.left) + [Step(true, t.black, t.node, t.right)]
  }

  lemma {:induction false} LeastOrder(t: Tree)
    requires t.Branch?
    ensures InOrder(t) == [Least(t).node] + InOrder(WithoutLeast(t))
  {
    if t.left.Branch? {
      LeastOrder(t.left);
      assert [Least(t).node] + InOrder(WithoutLeast(t.left)) + [t.node] + InOrder(t.right) ==
             [Least(t).node] + (InOrder(WithoutLeast(t.left)) + [t.node] + InOrder(t.right));
    }
  }

  lemma {:induction false} HoldsSpot(m: Memory, root: Node?, path: Path, t: Tree)
    requires t.Branch?
    ensures Holds(m, root, path, WithoutLeast(t)) <==> Holds(m, root, Spot(t) + path, Least(t).right)
    decreases t
  {
    if t.left.Leaf? {
      assert Spot(t) + path == path;
    } else {
      var s := Step(true, t.black, t.node, t.right);
      HoldsSpot(m, root, [s] + path, t.left);
      HoldsDown(m, root, path, s, WithoutLeast(t.left));
      assert Spot(t.left) + ([s] + path) == Spot(t) + path;
    }
  }

  lemma {:induction false} PlugSpot(path: Path, t: Tree)
    requires t.Branch?
    ensures Plug(path, t) == Plug(Spot(t) + path, Least(t))
    ensures Plug(path, WithoutLeast(t)) == Plug(Spot(t) + path, Least(t).right)
    decreases t
  {
    if t.left.Leaf? {
      assert Spot(t) + path == path;
    } else {
      var s := Step(true, t.black, t.node, t.right);
      PlugSpot([s] + path, t.left);
      assert Spot(t.left) + ([s] + path) == Spot(t) + path && ([s] + path)[1..] == path;
    }
  }

  // ------------------------------------------------------------------------- balance

  /** Paths that differ only in the nodes on them. */
  predicate SameShape(a: Path, b: Path) {
    |a| == |b| && forall i :: 0 <= i < |a| ==> a[i].(node := b[i].node) == b[i]
  }

  lemma {:induction false} FitsShape(a: Path, b: Path, h: nat)
    requires SameShape(a, b) && Fits(a, h)
    ensures Fits(b, h)
    decreases |a|
  {
    if a != [] {
      FitsShape(a[1..], b[1..], h + (if a[0].black then 1 else 0));
      assert a[0].(node := b[0].node) == b[0];
      if |a| > 1 {
        assert a[1].(node := b[1].node) == b[1];
      }
    }
  }

  /** The tree with node's right subtree without its least node, that node in node's place and colour: balanced if the
      least was red, else short of a black where it was. */
  lemma RemovalBalance(path: Path, t: Tree)
    requires t.Branch? && t.right.Branch? && RedBlack(Plug(path, t))
    ensures var r := Least(t.right); var s := Step(false, t.black, r.node, t.left);
      && (r.black ==> Short(Spot(t.right) + ([s] + path), r.right))
      && (!r.black ==> RedBlack(Plug([s] + path, WithoutLeast(t.right))))
  {
    var r := Least(t.right);
    var s, q := Step(false, t.black, r.node, t.left), Step(false, t.black, t.node, t.left);
    var here, there := Spot(t.right) + ([s] + path), Spot(t.right) + ([q] + path);
    assert ([q] + path)[1..] == path;
    PlugSpot([q] + path, t.right);
    PlugFits(there, r);
    assert SameShape(there, here);
    FitsShape(there, here, BlackHeight(r));
    if !r.black {
      assert r.right.Leaf?;
      FitsPlug(here, r.right);
      PlugSpot([s] + path, t.right);
    }
  }

  // ------------------------------------------------------------------------- links

  /** What the least node's memory says, and which nodes are which. */
  lemma {:induction false} LeastFacts(m: Memory, t: Tree, p: Node)
    requires t.Branch? && At(m, t, p) && Distinct(t)
    ensures var r := Least(t);
      && r.node in Nodes(t) && r.node in m && m[r.node] == Fields(r.black, null, Top(r.right), LeastParent(t, p))
      && (r.right.Branch? ==> Top(r.right) in Nodes(t) && Top(r.right) != r.node)
      && (t.left.Branch? ==>
            && LeastParent(t, p) in Nodes(t) && LeastParent(t, p) != r.node && LeastParent(t, p) != Top(r.right)
            && r.node != t.node && Top(r.right) != t.node)
      && Nodes(WithoutLeast(t)) == Nodes(t) - {r.node} && Distinct(WithoutLeast(t))
  {
    assert Nodes(t) == Nodes(t.left) + {t.node} + Nodes(t.right);
    if t.left.Branch? {
      LeastFacts(m, t.left, t.node);
    } else if t.right.Branch? {
      assert t.right.node in Nodes(t.right);
    }
  }

  /** A node of a subtree that loses its least: the place's parent q gets c as left child, c gets q as its parent, the
      top of the subtree gets p'. */
  function Lifted(f: Fields, n: Node, q: Node, c: Node?, top: Node, p': Node): Fields {
    var f1 := if n == q then f.(left := c) else f;
    var f2 := if n == c then f1.(parent := q) else f1;
    if n == top then f2.(parent := p') else f2
  }

  lemma {:induction false} WithoutLeastHeld(m: Memory, m': Memory, t: Tree, p: Node, p': Node)
    requires t.Branch? && t.left.Branch? && At(m, t, p) && Distinct(t)
    requires var r := Least(t);
      forall n :: n in Nodes(t) && n != r.node ==>
        n in m && n in m' && m'[n] == Lifted(m[n], n, LeastParent(t, p), Top(r.right), t.node, p')
    ensures At(m', WithoutLeast(t), p')
  {
    var r, q, l := Least(t), LeastParent(t, p), t.left;
    assert Nodes(t) == Nodes(l) + {t.node} + Nodes(t.right);
    LeastFacts(m, t, p);
    LeastFacts(m, l, t.node);
    AtFrame(m, m', t.right, t.node);
    if l.left.Branch? {
      WithoutLeastHeld(m, m', l, t.node, t.node);
    } else {
      assert Nodes(l) == {l.node} + Nodes(l.right);
      AtMoved(m, m', l.right, l.node, t.node);
    }
  }

  predicate TwoChildren(t: Tree) {
    t.Branch? && t.left.Branch? && t.right.Branch?
  }

  /** The node's place taken by the least node of its right subtree. */
  function Succeeded(t: Tree): Tree
    requires TwoChildren(t)
  {
    Branch(t.black, t.left, Least(t.right).node, WithoutLeast(t.right))
  }

  // ------------------------------------------------------------------------- writes

  function WithBlack(m: Memory, n: Node, black: bool): Memory
    requires n in m
  {
    m[n := m[n].(black := black)]
  }

  /** The places of the nodes that the removal of z writes to: r, the least below its right child w, with r's parent q and
      right child c, z's left child l, and the node above z. */
  datatype Places = Places(z: Node, r: Node, c: Node?, q: Node, l: Node, w: Node, up: Node?)

  predicate Apart(m: Memory, p: Places) {
    && p.z in m && p.r in m && p.q in m && p.l in m && p.w in m && (p.c != null ==> p.c in m) && (p.up != null ==> p.up in m)
    && p.r != p.z && p.l != p.z && p.l != p.r && p.q != p.r && p.q != p.l && p.c != p.r && p.c != p.l && p.c != p.q && p.c != p.z
    && p.w != p.l && p.w != p.z && p.w != p.c
    && p.up != p.z && p.up != p.r && p.up != p.l && p.up != p.q && p.up != p.w && (p.up != null ==> p.up != p.c)
    && (p.q != p.z ==> p.w != p.r)
  }

  /** The least node r leaves its parent q to its child c, and gets the right child w. */
  function UnhookWrites(m: Memory, r: Node, c: Node?, q: Node, w: Node): (m': Memory)
    requires r in m && q in m && w in m && (c != null ==> c in m)
    ensures m'.Keys == m.Keys
  {
    WithParent(WithRight(WithLeft(WithParent(m, c, q), q, c), r, w), w, r)
  }

  /** r gets the removed node's parent, colour and left child. */
  function TakeoverWrites(m: Memory, r: Node, up: Node?, black: bool, l: Node): (m': Memory)
    requires r in m && l in m
    ensures m'.Keys == m.Keys
  {
    WithParent(WithLeft(WithBlack(WithParent(m, r, up), r, black), r, l), l, r)
  }

  /** The writes in their order. */
  function RemovalWrites(m: Memory, p: Places): (m': Memory)
    requires Apart(m, p)
    ensures m'.Keys == m.Keys
  {
    var m1 := WithChild(m, p.up, p.z, p.r);
    var m2 := if p.q == p.z then m1 else UnhookWrites(m1, p.r, p.c, p.q, p.w);
    TakeoverWrites(m2, p.r, p.up, m[p.z].black, p.l)
  }

  /** The memory m' after the writes, node by node. */
  ghost predicate Rewritten(m: Memory, m': Memory, p: Places)
    requires Apart(m, p)
  {
    && m'.Keys == m.Keys
    && m'[p.r] == Fields(m[p.z].black, p.l, if p.q == p.z then m[p.r].right else p.w, p.up)
    && m'[p.l] == m[p.l].(parent := p.r)
    && (p.up != null ==> m'[p.up] == Relinked(m[p.up], m[p.up].left == p.z, p.r))
    && forall n :: n in m && n != p.r && n != p.l && n != p.up ==>
         m'[n] == if p.q == p.z then m[n] else Lifted(m[n], n, p.q, p.c, p.w, p.r)
  }

  lemma RemovalRewrites(m: Memory, p: Places)
    requires Apart(m, p)
    ensures Rewritten(m, RemovalWrites(m, p), p)
  {
  }

  /** The places in a tree are apart, and what the memory says of them. */
  lemma PlacesApart(m: Memory, root: Node?, path: Path, t: Tree)
    requires TwoChildren(t) && Holds(m, root, path, t)
    ensures Apart(m, PlacesIn(path, t))
    ensures var p := PlacesIn(path, t);
      && m[p.z] == Fields(t.black, p.l, p.w, p.up) && m[p.r] == Fields(Least(t.right).black, null, p.c, p.q)
      && (p.q == p.z <==> t.right.left.Leaf?) && (path != [] ==> (m[p.up].left == p.z <==> path[0].isLeft))
  {
    assert Nodes(t) == Nodes(t.left) + {t.node} + Nodes(t.right);
    assert At(m, t.left, t.node) && At(m, t.right, t.node) && Distinct(t.right) && Distinct(t.left);
    assert t.left.node in Nodes(t.left) && t.right.node in Nodes(t.right);
    LeastFacts(m, t.right, t.node);
    InMemory(m, root, path, t);
    ParentOf(m, root, path, t);
  }

  function PlacesIn(path: Path, t: Tree): Places
    requires TwoChildren(t)
  {
    var r := Least(t.right);
    Places(t.node, r.node, Top(r.right), LeastParent(t.right, t.node), t.left.node, t.right.node, Up(path))
  }

  /** The memory m held t at the end of the path; m' is m after the writes that remove t's top. */
  ghost predicate Removed(m: Memory, m': Memory, root: Node?, path: Path, t: Tree) {
    TwoChildren(t) && Holds(m, root, path, t) && Apart(m, PlacesIn(path, t)) && Rewritten(m, m', PlacesIn(path, t))
  }

  lemma LeftRewritten(m: Memory, m': Memory, root: Node?, path: Path, t: Tree)
    requires Removed(m, m', root, path, t)
    ensures At(m', t.left, Least(t.right).node)
  {
    var r := Least(t.right);
    assert Nodes(t) == Nodes(t.left) + {t.node} + Nodes(t.right) && t.left.node in Nodes(t.left);
    assert At(m, t.left, t.node) && At(m, t.right, t.node) && Distinct(t.right) && Distinct(t.left);
    LeastFacts(m, t.right, t.node);
    InMemory(m, root, path, t);
    assert path != [] ==> Up(path) in PathNodes(path);
    assert t.right.node in Nodes(t.right);
    AtMoved(m, m', t.left, t.node, r.node);
  }

  lemma RightRewritten(m: Memory, m': Memory, root: Node?, path: Path, t: Tree)
    requires Removed(m, m', root, path, t)
    ensures At(m', WithoutLeast(t.right), Least(t.right).node)
  {
    var r, w := Least(t.right), t.right;
    assert Nodes(t) == Nodes(t.left) + {t.node} + Nodes(w) && t.left.node in Nodes(t.left);
    assert At(m, w, t.node) && Distinct(w);
    LeastFacts(m, w, t.node);
    InMemory(m, root, path, t);
    assert path != [] ==> Up(path) in PathNodes(path);
    if w.left.Leaf? {
      assert Nodes(w) == {w.node} + Nodes(w.right);
      AtFrame(m, m', w.right, r.node);
    } else {
      WithoutLeastHeld(m, m', w, t.node, r.node);
    }
  }

  lemma AroundRewritten(m: Memory, m': Memory, root: Node?, root': Node?, path: Path, t: Tree)
    requires Removed(m, m', root, path, t) && root' == if path == [] then Least(t.right).node else root
    ensures Around(m', root', path, Least(t.right).node)
  {
    var r := Least(t.right);
    PlacesApart(m, root, path, t);
    assert Nodes(t) == Nodes(t.left) + {t.node} + Nodes(t.right) && t.left.node in Nodes(t.left);
    assert At(m, t.right, t.node) && Distinct(t.right) && t.right.node in Nodes(t.right);
    LeastFacts(m, t.right, t.node);
    InMemory(m, root, path, t);
    AroundReplaced(m, m', root, root', path, t.node, r.node);
  }

  lemma SucceededNodes(m: Memory, t: Tree, p: Node?)
    requires TwoChildren(t) && At(m, t, p) && Distinct(t)
    ensures Distinct(Succeeded(t)) && Nodes(Succeeded(t)) == Nodes(t) - {t.node}
  {
    assert Nodes(t) == Nodes(t.left) + {t.node} + Nodes(t.right);
    LeastFacts(m, t.right, t.node);
  }

  lemma RewrittenHolds(m: Memory, m': Memory, root: Node?, root': Node?, path: Path, t: Tree)
    requires Removed(m, m', root, path, t) && root' == if path == [] then Least(t.right).node else root
    ensures Holds(m', root', path, Succeeded(t))
  {
    LeftRewritten(m, m', root, path, t);
    RightRewritten(m, m', root, path, t);
    AroundRewritten(m, m', root, root', path, t);
    SucceededNodes(m, t, Up(path));
    ParentOf(m, root, path, t);
    LeastFacts(m, t.right, t.node);
    hide Distinct, PathDistinct, Nodes, PathNodes, Least, WithoutLeast, Apart, LeastParent;
  }

  lemma RemovalWritten(m: Memory, root: Node?, path: Path, t: Tree)
    requires TwoChildren(t) && Holds(m, root, path, t)
    ensures Apart(m, PlacesIn(path, t))
    ensures var root' := if path == [] then Least(t.right).node else root;
      Holds(RemovalWrites(m, PlacesIn(path, t)), root', path, Succeeded(t))
  {
    var p := PlacesIn(path, t);
    PlacesApart(m, root, path, t);
    RemovalRewrites(m, p);
    hide RemovalWrites, Holds, Apart, Rewritten, PlacesIn;
    RewrittenHolds(m, RemovalWrites(m, p), root, if path == [] then p.r else root, path, t);
  }

  // ------------------------------------------------------------------------- afterwards

  lemma {:induction false} SpotParent(t: Tree, p: Node, path: Path)
    requires t.Branch?
    ensures Up(Spot(t) + path) == if t.left.Leaf? then Up(path) else LeastParent(t, p)
    decreases t
  {
    if t.left.Branch? {
      var s := Step(true, t.black, t.node, t.right);
      SpotParent(t.left, t.node, [s] + path);
      assert Spot(t.left) + ([s] + path) == Spot(t) + path;
    } else {
      assert Spot(t) + path == path;
    }
  }

  /** The way up from where the least node was, in the tree without the removed one. */
  function Place(path: Path, t: Tree): Path
    requires TwoChildren(t)
  {
    Spot(t.right) + ([Step(false, t.black, Least(t.right).node, t.left)] + path)
  }

  /** Where the fixup begins, and what is left to do there. */
  lemma AfterRemoval(m: Memory, root: Node?, path: Path, t: Tree)
    requires TwoChildren(t) && Holds(m, root, path, Succeeded(t)) && RedBlack(Plug(path, t))
    ensures var r := Least(t.right);
      && Holds(m, root, Place(path, t), r.right)
      && Up(Place(path, t)) == (if t.right.left.Leaf? then r.node else LeastParent(t.right, t.node))
      && (r.black ==> Short(Place(path, t), r.right))
      && (!r.black ==> RedBlack(Plug(path, Succeeded(t))))
  {
    var r := Least(t.right);
    var s := Step(false, t.black, r.node, t.left);
    HoldsDown(m, root, path, s, WithoutLeast(t.right));
    HoldsSpot(m, root, [s] + path, t.right);
    SpotParent(t.right, t.node, [s] + path);
    RemovalBalance(path, t);
    assert ([s] + path)[1..] == path;
  }

  /** The order without the removed node. */
  lemma OrderAfterRemoval(path: Path, t: Tree)
    requires TwoChildren(t)
    ensures OrderAround(Place(path, t), InOrder(Least(t.right).right)) == OrderAround(path, InOrder(t.left) + InOrder(t.right))
    ensures InOrder(Plug(path, Succeeded(t))) == OrderAround(path, InOrder(t.left) + InOrder(t.right))
  {
    var s := Step(false, t.black, Least(t.right).node, t.left);
    LeastOrder(t.right);
    assert InOrder(Succeeded(t)) == InOrder(t.left) + InOrder(t.right);
    OrderOfPlug(path, Succeeded(t));
    PlugSpot([s] + path, t.right);
    assert ([s] + path)[1..] == path;
    OrderOfPlug(Place(path, t), Least(t.right).right);
  }
}
