/** list.c: a doubly linked list with head, tail and length, as the sequence of its nodes. */
module LinkedList {

  type Value(==, !new)

  class ListNode {
    var prev: ListNode?
    var next: ListNode?
    const value: Value

    constructor (value: Value)
      ensures this.value == value
    {
      this.value := value;
    }
  }

  /** The node at a position, null outside the list. */
  ghost function NodeAt(nodes: seq<ListNode>, i: int): ListNode? {
    if 0 <= i < |nodes| then nodes[i] else null
  }

  ghost predicate Distinct(nodes: seq<ListNode>) {
    forall i, j :: 0 <= i < j < |nodes| ==> nodes[i] != nodes[j]
  }

  /** The node at a position has its neighbours'. */
  ghost predicate LinkAt(nodes: seq<ListNode>, i: nat)
    requires i < |nodes|
    reads nodes
  {
    nodes[i].prev == NodeAt(nodes, i - 1) && nodes[i].next == NodeAt(nodes, i + 1)
  }

  /** The nodes' links are those of the sequence. */
  ghost predicate Linked(nodes: seq<ListNode>)
    reads nodes
  {
    Distinct(nodes) && forall i {:trigger LinkAt(nodes, i)} :: 0 <= i < |nodes| ==> LinkAt(nodes, i)
  }

  class List {
    var head: ListNode?
    var tail: ListNode?
    var len: nat
    ghost var nodes: seq<ListNode>

    ghost predicate Valid()
      reads this, nodes
    {
      len == |nodes| && head == NodeAt(nodes, 0) && tail == NodeAt(nodes, |nodes| - 1) && Linked(nodes)
    }

    /** listCreate */
    constructor ()
      ensures Valid() && nodes == []
    {
      head, tail, len := null, null, 0;
      nodes := [];
    }

    /** listAddNodeToHead */
    method AddNodeToHead(value: Value)
      requires Valid()
      modifies this, head
      ensures Valid() && |nodes| > 0 && fresh(nodes[0]) && nodes[0].value == value && nodes[1..] == old(nodes)
    {
      var node := new ListNode(value);
      if len == 0 {
        head, tail := node, node;
        node.prev, node.next := null, null;
      } else {
        node.prev := null;
        node.next := head;
        head.prev := node;
        head := node;
      }
      len := len + 1;
      nodes := [node] + nodes;
      forall j: nat | j < |nodes|
        ensures LinkAt(nodes, j)
      {
        assert j > 0 ==> old(LinkAt(nodes, j - 1));
      }
    }

    /** listAddNodeToTail */
    method AddNodeToTail(value: Value)
      requires Valid()
      modifies this, tail
      ensures Valid() && |nodes| > 0 && fresh(nodes[|nodes| - 1]) && nodes[|nodes| - 1].value == value
      ensures nodes[..|nodes| - 1] == old(nodes)
    {
      var node := new ListNode(value);
      if len == 0 {
        head, tail := node, node;
        node.prev, node.next := null, null;
      } else {
        node.prev := tail;
        node.next := null;
        tail.next := node;
        tail := node;
      }
      len := len + 1;
      nodes := nodes + [node];
      forall j: nat | j < |nodes|
        ensures LinkAt(nodes, j)
      {
        assert j < old(|nodes|) ==> old(LinkAt(nodes, j));
      }
    }

    /** listInsertNode, before or after the node at position i. */
    method InsertNode(oldNode: ListNode, value: Value, after: bool, ghost i: nat) returns (node: ListNode)
      requires Valid() && i < |nodes| && nodes[i] == oldNode
      modifies this, oldNode, oldNode.prev, oldNode.next
      ensures fresh(node) && node.value == value && Valid()
      ensures var at := if after then i + 1 else i; nodes == old(nodes[..at]) + [node] + old(nodes[at..])
    {
      assert LinkAt(nodes, i) && (i > 0 ==> LinkAt(nodes, i - 1)) && (i + 1 < |nodes| ==> LinkAt(nodes, i + 1));
      node := new ListNode(value);
      if after {
        node.prev := oldNode;
        node.next := oldNode.next;
        if tail == oldNode {
          tail := node;
        }
      } else {
        node.next := oldNode;
        node.prev := oldNode.prev;
        if head == oldNode {
          head := node;
        }
      }
      SpliceIn(node, if after then i + 1 else i);
    }

    /** The end of listInsertNode: the neighbours' links and the length. */
    method SpliceIn(node: ListNode, ghost at: nat)
      requires at <= |nodes| == len && Linked(nodes) && nodes != [] && node !in nodes
      requires node.prev == NodeAt(nodes, at - 1) && node.next == NodeAt(nodes, at)
      requires head == (if at == 0 then node else nodes[0]) && tail == if at == |nodes| then node else nodes[|nodes| - 1]
      modifies this`len, this`nodes, node.prev, node.next
      ensures Valid() && nodes == old(nodes[..at]) + [node] + old(nodes[at..])
    {
      if node.prev != null {
        node.prev.next := node;
      }
      if node.next != null {
        node.next.prev := node;
      }
      len := len + 1;
      nodes := nodes[..at] + [node] + nodes[at..];
      forall j: nat | j < |nodes|
        ensures LinkAt(nodes, j)
      {
        assert j < at ==> old(LinkAt(nodes, j));
        assert j > at ==> old(LinkAt(nodes, j - 1));
      }
    }

    /** listDelNode */
    method DelNode(node: ListNode, ghost i: nat)
      requires Valid() && i < |nodes| && nodes[i] == node
      modifies this, node.prev, node.next
      ensures Valid() && nodes == old(nodes[..i] + nodes[i + 1..])
    {
      assert LinkAt(nodes, i) && (i > 0 ==> LinkAt(nodes, i - 1)) && (i + 1 < |nodes| ==> LinkAt(nodes, i + 1));
      if node.prev != null {
        node.prev.next := node.next;
      } else {
        head := node.next;
      }
      if node.next != null {
        node.next.prev := node.prev;
      } else {
        tail := node.prev;
      }
      len := len - 1;
      nodes := nodes[..i] + nodes[i + 1..];
      forall j: nat | j < |nodes|
        ensures LinkAt(nodes, j)
      {
        assert old(LinkAt(nodes, if j < i then j else j + 1));
      }
    }

    /** listPopNodeFromHead */
    method PopNodeFromHead() returns (node: ListNode?)
      requires Valid()
      modifies this, nodes
      ensures Valid() && node == NodeAt(old(nodes), 0) && nodes == if old(nodes) == [] then [] else old(nodes[1..])
    {
      node := head;
      if node != null {
        assert LinkAt(nodes, 0);
        DelNode(node, 0);
      }
    }

    /** listPopNodeFromTail */
    method PopNodeFromTail() returns (node: ListNode?)
      requires Valid()
      modifies this, nodes
      ensures Valid() && node == NodeAt(old(nodes), |old(nodes)| - 1)
      ensures nodes == if old(nodes) == [] then [] else old(nodes[..|nodes| - 1])
    {
      node := tail;
      if node != null {
        assert LinkAt(nodes, |nodes| - 1);
        DelNode(node, |nodes| - 1);
      }
    }

    /** listIndex */
    method Index(index: int) returns (n: ListNode?)
      requires Valid()
      ensures n == NodeAt(nodes, if index < 0 then |nodes| + index else index)
    {
      if index < 0 {
        var k := -index - 1;
        n := tail;
        ghost var at := |nodes| - 1;
        while k != 0 && n != null
          invariant k >= 0 && -1 <= at < |nodes| && n == NodeAt(nodes, at) && (at >= 0 ==> at - k == |nodes| + index)
          invariant at == -1 ==> |nodes| + index <= -1
          decreases k
        {
          assert LinkAt(nodes, at);
          n := n.prev;
          k, at := k - 1, at - 1;
        }
      } else {
        var k := index;
        n := head;
        ghost var at := 0;
        while k != 0 && n != null
          invariant k >= 0 && 0 <= at <= |nodes| && n == NodeAt(nodes, at) && at + k == index
          decreases k
        {
          assert LinkAt(nodes, at);
          n := n.next;
          k, at := k - 1, at + 1;
        }
      }
    }

    /** listRotate */
    method Rotate()
      requires Valid()
      modifies this, nodes
      ensures Valid() && nodes == Rotated(old(nodes))
    {
      if len <= 1 {
        return;
      }
      assert LinkAt(nodes, |nodes| - 1) && LinkAt(nodes, |nodes| - 2) && LinkAt(nodes, 0);
      var last := tail;
      tail := last.prev;
      tail.next := null;
      head.prev := last;
      last.prev := null;
      last.next := head;
      head := last;
      nodes := Rotated(nodes);
      forall j: nat | j < |nodes|
        ensures LinkAt(nodes, j)
      {
        assert j > 0 ==> old(LinkAt(nodes, j - 1));
      }
    }

    /** listJoin: o ends up empty. When o is empty already, l keeps its tail only if it is empty too. */
    method Join(o: List)
      requires Valid() && o.Valid() && o != this && forall i, j :: 0 <= i < |nodes| && 0 <= j < |o.nodes| ==> nodes[i] != o.nodes[j]
      modifies this, o, tail, o.head
      ensures o.Valid() && o.nodes == [] && nodes == old(nodes + o.nodes)
      ensures Valid() <==> old(o.nodes) != [] || old(nodes) == []
    {
      if o.head != null {
        o.head.prev := tail;
      }
      if tail != null {
        tail.next := o.head;
      } else {
        head := o.head;
      }
      tail := o.tail;
      len := len + o.len;
      o.head, o.tail, o.len := null, null, 0;
      ghost var n := |nodes|;
      nodes := nodes + o.nodes;
      o.nodes := [];
      forall j: nat | j < |nodes|
        ensures LinkAt(nodes, j)
      {
        assert j < n ==> old(LinkAt(nodes, j));
        assert j >= n ==> old(LinkAt(o.nodes, j - n));
      }
    }
  }

  function Rotated<A>(s: seq<A>): seq<A> {
    if |s| <= 1 then s else [s[|s| - 1]] + s[..|s| - 1]
  }

  function RotatedTimes<A>(s: seq<A>, n: nat): seq<A> {
    if n == 0 then s else Rotated(RotatedTimes(s, n - 1))
  }

  lemma {:induction false} RotatedTimesIs<A>(s: seq<A>, n: nat)
    requires n <= |s|
    ensures RotatedTimes(s, n) == s[|s| - n..] + s[..|s| - n]
  {
    if n > 0 {
      RotatedTimesIs(s, n - 1);
      var r := RotatedTimes(s, n - 1);
      assert r == s[|s| - n + 1..] + s[..|s| - n + 1];
      if |s| > 1 {
        assert r[|r| - 1] == s[|s| - n] && r[..|r| - 1] == s[|s| - n + 1..] + s[..|s| - n];
      }
    }
  }

  /** Rotating a list as often as it is long gives it back. */
  lemma RotationsCycle<A>(s: seq<A>)
    ensures RotatedTimes(s, |s|) == s
  {
    RotatedTimesIs(s, |s|);
  }

  /** listIter: the next node, and the direction. */
  class Iter {
    var next: ListNode?
    const fromHead: bool

    /** The iterator comes to position i next, the one before it having been returned. */
    ghost predicate ComesTo(nodes: seq<ListNode>, i: int)
      reads this
    {
      -1 <= i <= |nodes| && next == NodeAt(nodes, i)
    }

    /** listGetIterator */
    constructor (list: List, fromHead: bool)
      requires list.Valid()
      ensures this.fromHead == fromHead && ComesTo(list.nodes, if fromHead then 0 else |list.nodes| - 1)
    {
      next := if fromHead then list.head else list.tail;
      this.fromHead := fromHead;
    }

    /** listNext */
    method Next(ghost nodes: seq<ListNode>, ghost i: int) returns (current: ListNode?)
      requires Linked(nodes) && ComesTo(nodes, i)
      modifies this
      ensures current == NodeAt(nodes, i)
      ensures ComesTo(nodes, if current == null then i else if fromHead then i + 1 else i - 1)
    {
      current := next;
      if current != null {
        assert LinkAt(nodes, i);
        next := if fromHead then current.next else current.prev;
      }
    }

    /** Deleting the node just returned leaves the iterator where it was going, in the shorter list. */
    lemma SurvivesDeletion(nodes: seq<ListNode>, i: nat)
      requires i < |nodes| && ComesTo(nodes, if fromHead then i + 1 else i - 1)
      ensures ComesTo(nodes[..i] + nodes[i + 1..], if fromHead then i else i - 1)
    {
    }
  }

  // ------------------------------------------------------------------------- a whole iteration

  function Reversed(s: seq<ListNode>): (r: seq<ListNode>)
    ensures |r| == |s|
  {
    seq(|s|, i requires 0 <= i < |s| => s[|s| - 1 - i])
  }

  /** The order in which an iterator comes to the nodes. */
  function Directed(s: seq<ListNode>, fromHead: bool): (r: seq<ListNode>)
    ensures |r| == |s| {
    if fromHead then s else Reversed(s)
  }

  /** Those of s that are not gone. */
  function Kept(s: seq<ListNode>, gone: seq<bool>): seq<ListNode>
    requires |s| <= |gone|
  {
    if s == [] then []
    else Kept(s[..|s| - 1], gone) + (if gone[|s| - 1] then [] else [s[|s| - 1]])
  }

  lemma KeptNext(s: seq<ListNode>, x: ListNode, gone: seq<bool>)
    requires |s| < |gone|
    ensures Kept(s + [x], gone) == Kept(s, gone) + (if gone[|s|] then [] else [x])
  {
    assert (s + [x])[..|s|] == s;
  }

  /** The list when the first j nodes in the iterator's order have been returned, those gone deleted. */
  ghost function ListAt(was: seq<ListNode>, j: nat, fromHead: bool, gone: seq<bool>): seq<ListNode>
    requires j <= |was| == |gone|
  {
    if fromHead then Kept(was[..j], gone) + was[j..]
    else was[..|was| - j] + Reversed(Kept(Reversed(was)[..j], gone))
  }

  /** The position of the node that is returned next. */
  ghost function PlaceAt(was: seq<ListNode>, j: nat, fromHead: bool, gone: seq<bool>): int
    requires j <= |was| == |gone|
  {
    if fromHead then |Kept(was[..j], gone)| else |was| - j - 1
  }

  /** One turn: the node at that place is the next in order, and what becomes of the list and of the place after it. */
  lemma TurnAt(was: seq<ListNode>, j: nat, fromHead: bool, gone: seq<bool>)
    requires j < |was| == |gone|
    ensures var now, i, n := ListAt(was, j, fromHead, gone), PlaceAt(was, j, fromHead, gone), Directed(was, fromHead)[j];
      && 0 <= i < |now| && now[i] == n
      && ListAt(was, j + 1, fromHead, gone) == (if gone[j] then now[..i] + now[i + 1..] else now)
      && PlaceAt(was, j + 1, fromHead, gone) == (if fromHead then (if gone[j] then i else i + 1) else i - 1)
  {
    if fromHead {
      TurnForward(was, j, gone);
    } else {
      TurnBackward(was, j, gone);
    }
  }

  lemma TurnForward(was: seq<ListNode>, j: nat, gone: seq<bool>)
    requires j < |was| == |gone|
    ensures var k := Kept(was[..j], gone); var now := k + was[j..];
      && |k| < |now| && now[|k|] == was[j]
      && Kept(was[..j + 1], gone) + was[j + 1..] == (if gone[j] then now[..|k|] + now[|k| + 1..] else now)
      && |Kept(was[..j + 1], gone)| == |k| + (if gone[j] then 0 else 1)
  {
    assert was[..j + 1] == was[..j] + [was[j]];
    KeptNext(was[..j], was[j], gone);
    hide Kept;
    assert was[j..] == [was[j]] + was[j + 1..];
  }

  lemma TurnBackward(was: seq<ListNode>, j: nat, gone: seq<bool>)
    requires j < |was| == |gone|
    ensures var o, i := Reversed(was), |was| - j - 1; var k := Kept(o[..j], gone); var now := was[..i + 1] + Reversed(k);
      && now[i] == o[j]
      && was[..i] + Reversed(Kept(o[..j + 1], gone)) == (if gone[j] then now[..i] + now[i + 1..] else now)
  {
    var o, i := Reversed(was), |was| - j - 1;
    var k := Kept(o[..j], gone);
    assert o[..j + 1] == o[..j] + [o[j]];
    KeptNext(o[..j], o[j], gone);
    hide Kept;
    assert o[j] == was[i] && was[..i + 1] == was[..i] + [o[j]];
    if !gone[j] {
      assert Reversed(k + [o[j]]) == [o[j]] + Reversed(k);
      assert was[..i] + ([o[j]] + Reversed(k)) == was[..i + 1] + Reversed(k);
    }
  }

  lemma IterationEnds(was: seq<ListNode>, fromHead: bool, gone: seq<bool>)
    requires |was| == |gone|
    ensures ListAt(was, 0, fromHead, gone) == was && PlaceAt(was, 0, fromHead, gone) == (if fromHead then 0 else |was| - 1)
    ensures ListAt(was, |was|, fromHead, gone) == Directed(Kept(Directed(was, fromHead), gone), fromHead)
    ensures NodeAt(ListAt(was, |was|, fromHead, gone), PlaceAt(was, |was|, fromHead, gone)) == null
    ensures |Directed(was, fromHead)| == |was|
  {
    var o := Directed(was, fromHead);
    assert o[..0] == [] && o[..|was|] == o;
    assert Reversed([]) == [];
  }

  /** The iterator has returned the node at position i, or the end, and comes to the one after it next. */
  ghost predicate Returned(list: List, iter: Iter, node: ListNode?, i: int)
    reads iter, list
  {
    node == NodeAt(list.nodes, i) && (node != null ==> iter.ComesTo(list.nodes, if iter.fromHead then i + 1 else i - 1))
  }

  /** What the caller does with a node that listNext returned, and the next call. */
  method TurnOver(list: List, iter: Iter, node: ListNode, delete: bool, ghost i: nat) returns (next: ListNode?)
    requires list.Valid() && i < |list.nodes| && list.nodes[i] == node && Returned(list, iter, node, i)
    modifies iter, list, node.prev, node.next
    ensures list.Valid() && list.nodes == (if delete then old(list.nodes[..i] + list.nodes[i + 1..]) else old(list.nodes))
    ensures Returned(list, iter, next, if !iter.fromHead then i - 1 else if delete then i else i + 1)
  {
    ghost var now := list.nodes;
    if delete {
      list.DelNode(node, i);
      iter.SurvivesDeletion(now, i);
    }
    next := iter.Next(list.nodes, if !iter.fromHead then i - 1 else if delete then i else i + 1);
  }

  lemma {:induction false} KeptAmong(s: seq<ListNode>, gone: seq<bool>, x: ListNode)
    requires |s| <= |gone| && x in Kept(s, gone)
    ensures x in s
  {
    if x in Kept(s[..|s| - 1], gone) {
      KeptAmong(s[..|s| - 1], gone, x);
    }
  }

  /** The list never holds a node that was not in it. */
  lemma ListAtAmong(was: seq<ListNode>, j: nat, fromHead: bool, gone: seq<bool>, x: ListNode)
    requires j <= |was| == |gone| && x in ListAt(was, j, fromHead, gone)
    ensures x in was
  {
    var o := Directed(was, fromHead);
    assert x in o ==> x in was;
    if x in Kept(o[..j], gone) {
      KeptAmong(o[..j], gone, x);
    }
  }

  lemma NeighboursAmong(list: List, was: seq<ListNode>, j: nat, fromHead: bool, gone: seq<bool>, i: nat)
    requires list.Valid() && j <= |was| == |gone| && list.nodes == ListAt(was, j, fromHead, gone) && i < |list.nodes|
    ensures var n := list.nodes[i]; (n.prev != null ==> n.prev in was) && (n.next != null ==> n.next in was)
  {
    assert LinkAt(list.nodes, i);
    var n := list.nodes[i];
    hide ListAt, Linked;
    if n.prev != null {
      assert n.prev == list.nodes[i - 1];
      ListAtAmong(was, j, fromHead, gone, n.prev);
    }
    if n.next != null {
      assert n.next == list.nodes[i + 1];
      ListAtAmong(was, j, fromHead, gone, n.next);
    }
  }

  /** The iteration after j nodes have been returned, with `node` as the answer of the last call. */
  ghost predicate Iterating(list: List, iter: Iter, node: ListNode?, was: seq<ListNode>, j: nat, gone: seq<bool>)
    reads iter, list, list.nodes
  {
    && list.Valid() && j <= |was| == |gone| && list.nodes == ListAt(was, j, iter.fromHead, gone)
    && Returned(list, iter, node, PlaceAt(was, j, iter.fromHead, gone))
  }

  /** One turn of the loop. */
  method IterateTurn(list: List, iter: Iter, node: ListNode, delete: bool, ghost was: seq<ListNode>, ghost j: nat, ghost gone: seq<bool>)
      returns (next: ListNode?)
    requires Iterating(list, iter, node, was, j, gone) && j < |was| && delete == gone[j]
    modifies iter, list, was
    ensures Iterating(list, iter, next, was, j + 1, gone)
  {
    hide ListAt, PlaceAt, Directed, Kept, List.Valid, Returned;
    ghost var i := PlaceAt(was, j, iter.fromHead, gone);
    TurnAt(was, j, iter.fromHead, gone);
    NodeReturned(list, iter, node, i);
    NeighboursAmong(list, was, j, iter.fromHead, gone, i);
    next := TurnOver(list, iter, node, delete, i);
  }

  lemma NodeReturned(list: List, iter: Iter, node: ListNode?, i: int)
    requires Returned(list, iter, node, i)
    ensures node == NodeAt(list.nodes, i)
  {
  }

  /** The answer is the next node in order, null just when all have been returned. */
  lemma IteratingNode(list: List, iter: Iter, node: ListNode?, was: seq<ListNode>, j: nat, gone: seq<bool>)
    requires Iterating(list, iter, node, was, j, gone)
    ensures |Directed(was, iter.fromHead)| == |was|
    ensures node == if j < |was| then Directed(was, iter.fromHead)[j] else null
    ensures list.Valid() && j <= |was| == |gone| && list.nodes == ListAt(was, j, iter.fromHead, gone)
  {
    IterationEnds(was, iter.fromHead, gone);
    if j < |was| {
      TurnAt(was, j, iter.fromHead, gone);
    }
  }

  /** listGetIterator and the first call. */
  method StartIterating(list: List, fromHead: bool, ghost gone: seq<bool>) returns (iter: Iter, node: ListNode?)
    requires list.Valid() && |gone| == |list.nodes|
    ensures fresh(iter) && iter.fromHead == fromHead && Iterating(list, iter, node, list.nodes, 0, gone)
  {
    hide ListAt, PlaceAt;
    iter := new Iter(list, fromHead);
    IterationEnds(list.nodes, fromHead, gone);
    node := iter.Next(list.nodes, PlaceAt(list.nodes, 0, fromHead, gone));
  }

  /** The usage of listNext that list.c allows: a loop over the list in either direction, in which the caller may delete the
      node just returned. Every node there was is returned once, in order, and those not deleted are what is left. */
  method IterateDeleting(list: List, fromHead: bool, gone: seq<bool>) returns (returned: seq<ListNode>)
    requires list.Valid() && |gone| == |list.nodes|
    modifies list, list.nodes
    ensures list.Valid() && returned == Directed(old(list.nodes), fromHead)
    ensures list.nodes == Directed(Kept(returned, gone), fromHead)
  {
    hide ListAt, PlaceAt, Directed, Kept, Iterating, List.Valid;
    ghost var was, order := list.nodes, Directed(list.nodes, fromHead);
    IterationEnds(was, fromHead, gone);
    var iter, node := StartIterating(list, fromHead, gone);
    returned := [];
    IteratingNode(list, iter, node, was, 0, gone);
    while node != null
      invariant |returned| <= |was| == |gone| == |order| && returned == order[..|returned|]
      invariant fresh(iter) && iter.fromHead == fromHead && Iterating(list, iter, node, was, |returned|, gone)
      decreases |was| - |returned|
    {
      IteratingNode(list, iter, node, was, |returned|, gone);
      var next := IterateTurn(list, iter, node, gone[|returned|], was, |returned|, gone);
      returned := returned + [node];
      node := next;
    }
    IteratingNode(list, iter, node, was, |returned|, gone);
  }
}
