/** Red-black balance of a tree seen from one place in it, and what each case of the two fixups does to it. */
module RbBalance {
  import opened RbShape

  /** Black nodes on the way down, along the left. */
  function BlackHeight(t: Tree): nat {
    if t.Leaf? then 0 else BlackHeight(t.left) + (if t.black then 1 else 0)
  }

  predicate Red(t: Tree) {
    t.Branch? && !t.black
  }

  function Black(t: Tree): Tree {
    if t.Leaf? then t else t.(black := true)
  }

  /** Equal black heights everywhere, no red node with a red child. */
  predicate Balanced(t: Tree) {
    t.Leaf? ||
    (&& BlackHeight(t.left) == BlackHeight(t.right) && Balanced(t.left) && Balanced(t.right)
     && (!t.black ==> !Red(t.left) && !Red(t.right)))
  }

  /** A red-black tree: balanced, with a black root. */
  predicate RedBlack(t: Tree) {
    Balanced(t) && !Red(t)
  }

  /** A subtree of black height h at the end of the path leaves the heights equal, and the red nodes on the path have no
      red neighbour there and are not the root. */
  predicate Fits(path: Path, h: nat) {
    path == [] ||
    var s := path[0];
    && Balanced(s.other) && BlackHeight(s.other) == h
    && (!s.black ==> !Red(s.other) && |path| > 1 && path[1].black)
    && Fits(path[1..], h + (if s.black then 1 else 0))
  }

  lemma {:induction false} FitsPlug(path: Path, t: Tree)
    requires Fits(path, BlackHeight(t)) && Balanced(t) && (Red(t) ==> path != [] && path[0].black)
    ensures RedBlack(Plug(path, t))
    decreases |path|
  {
    if path != [] {
      FitsPlug(path[1..], Join(path[0], t));
    }
  }

  /** Every place in a red-black tree fits what is there. */
  lemma {:induction false} PlugFits(path: Path, t: Tree)
    requires RedBlack(Plug(path, t))
    ensures Fits(path, BlackHeight(t)) && Balanced(t) && (Red(t) ==> path != [] && path[0].black)
    decreases |path|
  {
    if path != [] {
      PlugFits(path[1..], Join(path[0], t));
    }
  }

  /** The longest way down has at most twice the nodes of the black height, plus one below a red top. */
  function Height(t: Tree): nat {
    if t.Leaf? then 0 else 1 + (if Height(t.left) > Height(t.right) then Height(t.left) else Height(t.right))
  }

  function Size(t: Tree): nat {
    if t.Leaf? then 0 else Size(t.left) + 1 + Size(t.right)
  }

  function Pow2(n: nat): nat {
    if n == 0 then 1 else 2 * Pow2(n - 1)
  }

  /** What the balance is for: a way down is at most twice the black height long (plus one from a red top), and a tree
      of black height h has at least 2^h - 1 nodes. */
  lemma {:induction false} BalanceBounds(t: Tree)
    requires Balanced(t)
    ensures Height(t) <= 2 * BlackHeight(t) + (if Red(t) then 1 else 0)
    ensures Pow2(BlackHeight(t)) <= Size(t) + 1
  {
    if t.Branch? {
      BalanceBounds(t.left);
      BalanceBounds(t.right);
    }
  }

  // ------------------------------------------------------------------------- insertion

  /** Where insertion stands: a red subtree, balanced in itself, that fits but may have a red parent. */
  ghost predicate Inserting(path: Path, t: Tree) {
    Red(t) && Balanced(t) && Fits(path, BlackHeight(t))
  }

  /** A red leaf where a red-black tree has none. */
  lemma StartInserting(path: Path, node: Node)
    requires RedBlack(Plug(path, Leaf))
    ensures Inserting(path, Branch(false, Leaf, node, Leaf))
  {
    PlugFits(path, Leaf);
  }

  /** Case 1: the grandparent's subtree with its two children painted black and itself red. */
  function Pushed(s: Step, q: Step, t: Tree): Tree {
    Join(q.(black := false, other := Black(q.other)), Join(s.(black := true), t))
  }

  lemma PushedUp(s: Step, q: Step, rest: Path, t: Tree)
    requires Inserting([s] + ([q] + rest), t) && !s.black && Red(q.other)
    ensures Inserting(rest, Pushed(s, q, t))
    ensures OrderAround(rest, InOrder(Pushed(s, q, t))) == OrderAround([s] + ([q] + rest), InOrder(t))
  {
    assert ([s] + ([q] + rest))[1..] == [q] + rest && ([q] + rest)[1..] == rest;
    assert Fits([q] + rest, BlackHeight(t)) && q.black;
    var u, p := Black(q.other), Join(s.(black := true), t);
    assert Balanced(u) && BlackHeight(u) == BlackHeight(t) + 1 && InOrder(u) == InOrder(q.other);
    assert Balanced(p) && BlackHeight(p) == BlackHeight(t) + 1 && InOrder(p) == InOrder(Join(s, t));
    OrderJoin([q] + rest, s, t);
    OrderJoin(rest, q, Join(s, t));
  }

  /** The parent's subtree with the red node on the outer side. */
  function Outward(s: Step, q: Step, t: Tree): Tree
    requires t.Branch?
  {
    if s.isLeft == q.isLeft then Join(s, t) else if q.isLeft then RotatedLeft(Join(s, t)) else RotatedRight(Join(s, t))
  }

  /** Case 3: the parent p black on top, the grandparent red below it on the other side. */
  function TurnedOver(q: Step, p: Tree): Step
    requires p.Branch?
  {
    if q.isLeft then Step(true, true, p.node, Branch(false, p.right, q.node, q.other))
    else Step(false, true, p.node, Branch(false, q.other, q.node, p.left))
  }

  /** The child of p on the outer side. */
  function Outer(q: Step, p: Tree): Tree
    requires p.Branch?
  {
    if q.isLeft then p.left else p.right
  }

  lemma OutwardKeeps(s: Step, q: Step, rest: Path, t: Tree)
    requires Inserting([s] + ([q] + rest), t) && !s.black
    ensures var p := Outward(s, q, t);
      && p.Branch? && !p.black && Red(Outer(q, p)) && Balanced(p.left) && Balanced(p.right)
      && BlackHeight(p.left) == BlackHeight(p.right) == BlackHeight(t) && !Red(if q.isLeft then p.right else p.left)
      && q.black && Fits([q] + rest, BlackHeight(t))
      && OrderAround([q] + rest, InOrder(p)) == OrderAround([s] + ([q] + rest), InOrder(t))
  {
    assert ([s] + ([q] + rest))[1..] == [q] + rest && ([q] + rest)[1..] == rest;
    OrderJoin([q] + rest, s, t);
    RotationKeepsOrder(Join(s, t));
  }

  lemma TurnedOverKeeps(s: Step, q: Step, rest: Path, t: Tree)
    requires Inserting([s] + ([q] + rest), t) && !s.black && !Red(q.other)
    ensures var p := Outward(s, q, t); var path, n := [TurnedOver(q, p)] + rest, Outer(q, p);
      Inserting(path, n) && OrderAround(path, InOrder(n)) == OrderAround([s] + ([q] + rest), InOrder(t))
  {
    OutwardKeeps(s, q, rest, t);
    var p := Outward(s, q, t);
    var x, n := TurnedOver(q, p), Outer(q, p);
    assert ([x] + rest)[1..] == rest && ([q] + rest)[1..] == rest;
    OrderJoin(rest, x, n);
    OrderJoin(rest, q, p);
    RotationKeepsOrder(Join(q.(black := false), p.(black := true)));
  }

  lemma {:induction false} PlugBranch(path: Path, t: Tree)
    requires t.Branch?
    ensures Plug(path, t).Branch?
    decreases |path|
  {
    if path != [] {
      PlugBranch(path[1..], Join(path[0], t));
    }
  }

  /** Once the parent is black, or there is none, painting the root black completes the tree. */
  lemma Inserted(path: Path, t: Tree)
    requires Inserting(path, t) && (path == [] || path[0].black)
    ensures Plug(path, t).Branch? && RedBlack(Black(Plug(path, t)))
    ensures InOrder(Black(Plug(path, t))) == OrderAround(path, InOrder(t))
  {
    PlugBranch(path, t);
    OrderOfPlug(path, t);
    if path != [] {
      FitsPlug(path, t);
    }
  }

  // ------------------------------------------------------------------------- deletion

  /** Where deletion stands: the subtree is one black short of fitting; its top may be red below a red parent or with a
      red child, as it will be painted. */
  ghost predicate Short(path: Path, t: Tree) {
    Balanced(Black(t)) && Fits(path, BlackHeight(t) + 1)
  }

  lemma ShortEnds(path: Path, t: Tree)
    requires Short(path, t) && (path == [] || Red(t))
    ensures RedBlack(Plug(path, Black(t)))
  {
    if path != [] {
      FitsPlug(path, Black(t));
    }
  }

  /** There is a sibling, and a red one has a black parent and black children that are there. */
  lemma Sibling(path: Path, t: Tree)
    requires Short(path, t) && path != []
    ensures path[0].other.Branch?
    ensures Red(path[0].other) ==>
      var o := path[0].other; path[0].black && o.left.Branch? && o.right.Branch? && o.left.black && o.right.black
  {
  }

  /** Case 1 on the left: below the red sibling, now black on top, the parent is red and the sibling another. */
  function Lowered(s: Step): Path
    requires s.other.Branch?
  {
    var o := s.other;
    if s.isLeft then [Step(true, false, s.node, o.left), Step(true, true, o.node, o.right)]
    else [Step(false, false, s.node, o.right), Step(false, true, o.node, o.left)]
  }

  lemma LoweredShort(s: Step, rest: Path, t: Tree)
    requires Short([s] + rest, t) && Red(s.other)
    ensures s.black && !Lowered(s)[0].black && Lowered(s)[0].other.Branch? && Lowered(s)[0].other.black
    ensures Lowered(s)[0].node == s.node && Lowered(s)[0].isLeft == s.isLeft
    ensures Short([Lowered(s)[0]] + ([Lowered(s)[1]] + rest), t)
    ensures OrderAround([Lowered(s)[0]] + ([Lowered(s)[1]] + rest), InOrder(t)) == OrderAround([s] + rest, InOrder(t))
  {
    var o, x, y := s.other, Lowered(s)[0], Lowered(s)[1];
    Sibling([s] + rest, t);
    assert ([s] + rest)[1..] == rest && ([y] + rest)[1..] == rest && ([x] + ([y] + rest))[1..] == [y] + rest;
    assert Balanced(o) && BlackHeight(o.left) == BlackHeight(o.right) == BlackHeight(t) + 1;
    assert Fits([y] + rest, BlackHeight(t) + 1);
    OrderJoin(rest, s, t);
    OrderJoin([y] + rest, x, t);
    OrderJoin(rest, y, Join(x, t));
    LoweredOrder(s, t);
  }

  lemma LoweredOrder(s: Step, t: Tree)
    requires s.other.Branch?
    ensures InOrder(Join(Lowered(s)[1], Join(Lowered(s)[0], t))) == InOrder(Join(s, t))
  {
    RotationKeepsOrder(Join(s, t));
  }

  /** Neither child is red. */
  predicate NoRedChild(t: Tree) {
    t.Branch? && !Red(t.left) && !Red(t.right)
  }

  /** Case 2: the sibling red, the parent's subtree is what is short. */
  lemma PaintedShort(s: Step, rest: Path, t: Tree)
    requires Short([s] + rest, t) && !Red(t) && !Red(s.other) && NoRedChild(s.other)
    ensures Short(rest, Join(s.(other := s.other.(black := false)), t))
    ensures OrderAround(rest, InOrder(Join(s.(other := s.other.(black := false)), t))) == OrderAround([s] + rest, InOrder(t))
  {
    OrderJoin(rest, s, t);
    assert InOrder(s.other.(black := false)) == InOrder(s.other);
    assert ([s] + rest)[1..] == rest;
    assert Balanced(s.other.(black := false));
  }

  /** Case 3 on the left: the sibling's red child turned above it, painted black, the sibling red. */
  function TurnedIn(w: Tree): Tree
    requires LeanLeft(w)
  {
    Branch(true, w.left.left, w.left.node, Branch(false, w.left.right, w.node, w.right))
  }

  function TurnedInRight(w: Tree): Tree
    requires LeanRight(w)
  {
    Branch(true, Branch(false, w.left, w.node, w.right.left), w.right.node, w.right.right)
  }

  lemma TurnedInOrder(w: Tree)
    ensures LeanLeft(w) ==> InOrder(TurnedIn(w)) == InOrder(w)
    ensures LeanRight(w) ==> InOrder(TurnedInRight(w)) == InOrder(w)
  {
    RotationKeepsOrder(w);
  }

  lemma TurnedInShort(s: Step, rest: Path, t: Tree)
    requires Short([s] + rest, t) && s.other.Branch? && s.other.black
    ensures Red(s.other.left) && !Red(s.other.right) ==>
      var x := s.(other := TurnedIn(s.other));
      Short([x] + rest, t) && OrderAround([x] + rest, InOrder(t)) == OrderAround([s] + rest, InOrder(t))
    ensures Red(s.other.right) && !Red(s.other.left) ==>
      var x := s.(other := TurnedInRight(s.other));
      Short([x] + rest, t) && OrderAround([x] + rest, InOrder(t)) == OrderAround([s] + rest, InOrder(t))
  {
    TurnedInOrder(s.other);
    OrderJoin(rest, s, t);
    var w := s.other;
    assert ([s] + rest)[1..] == rest;
    assert Balanced(w) && Balanced(w.left) && Balanced(w.right);
    if Red(w.left) && !Red(w.right) {
      var x := s.(other := TurnedIn(w));
      assert ([x] + rest)[1..] == rest;
      OrderJoin(rest, x, t);
      assert Balanced(x.other.right);
    }
    if Red(w.right) && !Red(w.left) {
      var x := s.(other := TurnedInRight(w));
      assert ([x] + rest)[1..] == rest;
      OrderJoin(rest, x, t);
      assert Balanced(x.other.left);
    }
  }

  /** Case 4: the sibling takes the parent's place and colour above two black nodes, and nothing is short. */
  function Taken(s: Step, t: Tree): Tree
    requires s.other.Branch?
  {
    var w := s.other;
    if s.isLeft then Branch(s.black, Branch(true, t, s.node, w.left), w.node, Black(w.right))
    else Branch(s.black, Black(w.left), w.node, Branch(true, w.right, s.node, t))
  }

  lemma TakenOrder(s: Step, t: Tree)
    requires s.other.Branch?
    ensures InOrder(Taken(s, t)) == InOrder(Join(s, t))
  {
    RotationKeepsOrder(Join(s, t));
    assert InOrder(Black(s.other.right)) == InOrder(s.other.right) && InOrder(Black(s.other.left)) == InOrder(s.other.left);
  }

  lemma TakenEnds(s: Step, rest: Path, t: Tree)
    requires Short([s] + rest, t) && !Red(t) && s.other.Branch? && s.other.black
    requires Red(if s.isLeft then s.other.right else s.other.left)
    ensures Short([], Plug(rest, Taken(s, t))) && Plug(rest, Taken(s, t)).Branch?
    ensures OrderAround([], InOrder(Plug(rest, Taken(s, t)))) == OrderAround([s] + rest, InOrder(t))
  {
    OrderOfPlug(rest, Taken(s, t));
    OrderJoin(rest, s, t);
    TakenOrder(s, t);
    PlugBranch(rest, Taken(s, t));
    assert ([s] + rest)[1..] == rest;
    var w, x := s.other, Taken(s, t);
    assert Balanced(w) && Balanced(w.left) && Balanced(w.right);
    assert BlackHeight(w.left) == BlackHeight(w.right) == BlackHeight(t);
    assert Balanced(x.left) && Balanced(x.right);
    assert BlackHeight(x) == BlackHeight(t) + 1 + (if s.black then 1 else 0);
    FitsPlug(rest, x);
  }
}
