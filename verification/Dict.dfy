/** The dictionary in its own form: bucket arrays, entries linked through `next`, and methods that update
    them in place. Every method is proved to compute the function of DictModel it implements. */
module Dict {
  import opened Words
  import opened DictModel
  import opened DictInvariant
  import DictRuns
  import ScanModel

  /** `dictEntry`. The ghost fields name the bucket that holds the entry. */
  class Entry {
    const key: Key
    var val: Value
    var next: Entry?
    ghost var home: array<Entry?>
    ghost var slot: nat

    constructor (key: Key, val: Value, next: Entry?, ghost home: array<Entry?>, ghost slot: nat)
      ensures this.key == key && this.val == val && this.next == next && this.home == home && this.slot == slot
    {
      this.key, this.val, this.next, this.home, this.slot := key, val, next, home, slot;
    }
  }

  /** `dictht` */
  datatype HashTable = HashTable(table: array?<Entry?>, size: nat, sizemask: Word, used: nat)

  type Chains = seq<seq<Entry>>

  /** The pointer to entry i of a chain. */
  ghost function EntryAt(c: seq<Entry>, i: nat): Entry? {
    if i < |c| then c[i] else null
  }

  /** Entry j of chain c holds pair j of p and points to the next entry of c. */
  ghost predicate LinkOk(a: array<Entry?>, i: nat, c: seq<Entry>, p: Chain, j: nat)
    requires j < |c| == |p|
    reads c[j]
  {
    && c[j].home == a && c[j].slot == i && c[j].key == p[j].key && c[j].val == p[j].val
    && c[j].next == EntryAt(c, j + 1)
  }

  ghost predicate NoRepeats(c: seq<Entry>) {
    forall j, k :: 0 <= j < k < |c| ==> c[j] != c[k]
  }

  /** The entries of c are linked in order, carry the pairs of p and belong to bucket i of a. */
  ghost predicate ChainLinked(a: array<Entry?>, i: nat, c: seq<Entry>, p: Chain)
    reads c
  {
    && |c| == |p| && NoRepeats(c)
    && forall j {:trigger c[j]} {:trigger LinkOk(a, i, c, p, j)} :: 0 <= j < |c| ==> LinkOk(a, i, c, p, j)
  }

  ghost predicate Within(nodes: Chains, repr: set<Entry>) {
    forall i, j :: 0 <= i < |nodes| && 0 <= j < |nodes[i]| ==> nodes[i][j] in repr
  }

  /** Every bucket of the array but one is a linked chain that carries the model's. */
  ghost predicate BucketsLinkedExcept(a: array<Entry?>, nodes: Chains, buckets: seq<Chain>, repr: set<Entry>, x: int)
    requires Within(nodes, repr)
    reads a, repr
  {
    && a.Length == |nodes| == |buckets|
    && forall i {:trigger nodes[i]} :: 0 <= i < |nodes| && i != x ==>
         a[i] == EntryAt(nodes[i], 0) && ChainLinked(a, i, nodes[i], buckets[i])
  }

  ghost predicate TableLinkedExcept(ht: HashTable, nodes: Chains, t: Table, repr: set<Entry>, x: int)
    requires Within(nodes, repr)
    reads ht.table, repr
  {
    && ht.size == t.Size() && ht.used == t.used && ht.sizemask == MaskOf(ht.size)
    && (ht.table == null <==> ht.size == 0)
    && (ht.table == null ==> nodes == [])
    && (ht.table != null ==> BucketsLinkedExcept(ht.table, nodes, t.buckets, repr, x))
  }

  ghost predicate TableLinked(ht: HashTable, nodes: Chains, t: Table, repr: set<Entry>)
    requires Within(nodes, repr)
    reads ht.table, repr
  {
    TableLinkedExcept(ht, nodes, t, repr, -1)
  }

  /** The entry is in a chain of either table. */
  ghost predicate Among(e: Entry, nodes0: Chains, nodes1: Chains) {
    (exists i :: 0 <= i < |nodes0| && e in nodes0[i]) || (exists i :: 0 <= i < |nodes1| && e in nodes1[i])
  }

  ghost predicate AllAmong(nodes: Chains, nodes0: Chains, nodes1: Chains, gone: Entry?) {
    forall i, j :: 0 <= i < |nodes| && 0 <= j < |nodes[i]| && nodes[i][j] != gone ==> Among(nodes[i][j], nodes0, nodes1)
  }

  /** The entries that were in the chains still are, but for one. */
  ghost predicate Stay(was0: Chains, was1: Chains, nodes0: Chains, nodes1: Chains, gone: Entry?) {
    AllAmong(was0, nodes0, nodes1, gone) && AllAmong(was1, nodes0, nodes1, gone)
  }

  lemma StaySame(nodes0: Chains, nodes1: Chains, gone: Entry?)
    ensures Stay(nodes0, nodes1, nodes0, nodes1, gone)
  {
  }

  /** Entries of either table may move to the other's place only when that was empty. */
  lemma StayInstalled(was0: Chains, was1: Chains, nodes0: Chains, nodes1: Chains)
    requires (was0 == [] || nodes0 == was0) && (was1 == [] || nodes1 == was1)
    ensures Stay(was0, was1, nodes0, nodes1, null)
  {
  }

  lemma StayAmong(e: Entry, was0: Chains, was1: Chains, nodes0: Chains, nodes1: Chains, gone: Entry?)
    requires Stay(was0, was1, nodes0, nodes1, gone) && Among(e, was0, was1) && e != gone
    ensures Among(e, nodes0, nodes1)
  {
  }

  lemma StayTwice(a0: Chains, a1: Chains, b0: Chains, b1: Chains, c0: Chains, c1: Chains, gone: Entry?)
    requires Stay(a0, a1, b0, b1, null) && Stay(b0, b1, c0, c1, gone)
    ensures Stay(a0, a1, c0, c1, gone)
  {
    hide Among;
    forall i, j | 0 <= i < |a0| && 0 <= j < |a0[i]| && a0[i][j] != gone
      ensures Among(a0[i][j], c0, c1)
    {
      StayAmong(a0[i][j], b0, b1, c0, c1, gone);
    }
    forall i, j | 0 <= i < |a1| && 0 <= j < |a1[i]| && a1[i][j] != gone
      ensures Among(a1[i][j], c0, c1)
    {
      StayAmong(a1[i][j], b0, b1, c0, c1, gone);
    }
  }

  /** One more entry at the head of a chain. */
  ghost function Headed(nodes: Chains, i: nat, e: Entry): Chains
    requires i < |nodes|
  {
    nodes[i := [e] + nodes[i]]
  }

  lemma StayHeaded(nodes0: Chains, nodes1: Chains, i: nat, e: Entry)
    ensures i < |nodes0| ==> Stay(nodes0, nodes1, Headed(nodes0, i, e), nodes1, null)
    ensures i < |nodes1| ==> Stay(nodes0, nodes1, nodes0, Headed(nodes1, i, e), null)
  {
    if i < |nodes0| {
      InHeaded(nodes0, i, e);
    }
    if i < |nodes1| {
      InHeaded(nodes1, i, e);
    }
  }

  lemma InHeaded(nodes: Chains, i: nat, e: Entry)
    requires i < |nodes|
    ensures forall k, j :: 0 <= k < |nodes| && 0 <= j < |nodes[k]| ==> nodes[k][j] in Headed(nodes, i, e)[k]
  {
  }

  lemma StayWithout(nodes0: Chains, nodes1: Chains, i: nat, j: nat)
    ensures i < |nodes0| && j < |nodes0[i]| ==> Stay(nodes0, nodes1, Without(nodes0, i, j), nodes1, nodes0[i][j])
    ensures i < |nodes1| && j < |nodes1[i]| ==> Stay(nodes0, nodes1, nodes0, Without(nodes1, i, j), nodes1[i][j])
  {
    if i < |nodes0| && j < |nodes0[i]| {
      InWithout(nodes0, i, j);
    }
    if i < |nodes1| && j < |nodes1[i]| {
      InWithout(nodes1, i, j);
    }
  }

  lemma InWithout(nodes: Chains, i: nat, j: nat)
    requires i < |nodes| && j < |nodes[i]|
    ensures forall k, l :: 0 <= k < |nodes| && 0 <= l < |nodes[k]| && nodes[k][l] != nodes[i][j] ==>
      nodes[k][l] in Without(nodes, i, j)[k]
  {
    forall k, l | 0 <= k < |nodes| && 0 <= l < |nodes[k]| && nodes[k][l] != nodes[i][j]
      ensures nodes[k][l] in Without(nodes, i, j)[k]
    {
      if k == i {
        var c := Without(nodes, i, j)[i];
        assert c[if l < j then l else l - 1] == nodes[i][l];
      }
    }
  }

  lemma {:induction false} FindPlace(c: seq<Entry>, p: Chain, j: nat, key: Key)
    requires |c| == |p| && j <= |p|
    requires forall k :: 0 <= k < j ==> p[k].key != key
    ensures j == |p| ==> Find(p, key) == None && Unlink(p, key) == p
    ensures j < |p| && p[j].key == key ==> Find(p, key) == Some(p[j].val)
    ensures j < |p| && p[j].key == key ==> Unlink(p, key) == p[..j] + p[j + 1..]
    ensures forall v :: j < |p| && p[j].key == key ==> SetVal(p, key, v) == p[j := Pair(key, v)]
  {
    if j > 0 {
      forall k | 0 <= k < j - 1 ensures p[1..][k].key != key {
        assert p[k + 1].key != key;
      }
      FindPlace(c[1..], p[1..], j - 1, key);
      if j < |p| {
        assert p[..j] == [p[0]] + p[1..][..j - 1];
      }
    }
  }

  /** The loop over a chain shared by dictFind, _dictKeyIndex and dictGenericDelete. */
  method SearchChain(a: array<Entry?>, idx: nat, key: Key, ghost c: seq<Entry>, ghost p: Chain)
    returns (he: Entry?, prevHe: Entry?, ghost j: nat)
    requires idx < a.Length && a[idx] == EntryAt(c, 0) && ChainLinked(a, idx, c, p)
    ensures j <= |c| && (he == null <==> j == |c|) && (forall k :: 0 <= k < j ==> p[k].key != key)
    ensures j < |c| ==> he == c[j] && p[j].key == key
    ensures prevHe == if j == 0 then null else c[j - 1]
  {
    he, prevHe, j := a[idx], null, 0;
    while he != null
      invariant j <= |c| && he == EntryAt(c, j)
      invariant prevHe == if j == 0 then null else c[j - 1]
      invariant forall k :: 0 <= k < j ==> p[k].key != key
      decreases |c| - j
    {
      assert he == c[j] && LinkOk(a, idx, c, p, j);
      if key == he.key {
        return;
      }
      prevHe := he;
      he := he.next;
      j := j + 1;
    }
  }

  /** `de->next = table[idx]; table[idx] = de` for an entry that is in no chain of the array. */
  method LinkAtHead(a: array<Entry?>, idx: nat, de: Entry, ghost nodes: Chains, ghost buckets: seq<Chain>, ghost repr: set<Entry>)
    requires Within(nodes, repr) && BucketsLinkedExcept(a, nodes, buckets, repr, -1) && idx < a.Length
    requires forall i :: 0 <= i < |nodes| ==> de !in nodes[i]
    requires de in repr
    modifies a, de
    ensures de.val == old(de.val) && de.home == a
    ensures Within(nodes[idx := [de] + nodes[idx]], repr)
    ensures BucketsLinkedExcept(a, nodes[idx := [de] + nodes[idx]], buckets[idx := [Pair(de.key, de.val)] + buckets[idx]], repr, -1)
  {
    ghost var c, q := [de] + nodes[idx], [Pair(de.key, de.val)] + buckets[idx];
    de.next := a[idx];
    a[idx] := de;
    de.home, de.slot := a, idx;
    assert c[1..] == nodes[idx];
    forall j | 0 <= j < |c| ensures LinkOk(a, idx, c, q, j) {
      if j > 0 {
        assert old(LinkOk(a, idx, nodes[idx], buckets[idx], j - 1));
      }
    }
    assert ChainLinked(a, idx, c, q);
    forall i | 0 <= i < |nodes| && i != idx ensures a[i] == EntryAt(nodes[i], 0) && ChainLinked(a, i, nodes[i], buckets[i]) {
      assert old(ChainLinked(a, i, nodes[i], buckets[i]));
    }
  }

  /** The entries of c from place i on are still linked to each other, as in bucket x of a. */
  ghost predicate RestLinked(a: array<Entry?>, x: nat, c: seq<Entry>, p: Chain, i: nat)
    requires |c| == |p|
    reads c
  {
    && NoRepeats(c)
    && forall j {:trigger c[j]} {:trigger LinkOk(a, x, c, p, j)} :: i <= j < |c| ==> LinkOk(a, x, c, p, j)
  }

  /** Moves entry i of the chain of bucket x of one array to the head of bucket h of another. */
  method MoveLink(a0: array<Entry?>, a1: array<Entry?>, x: nat, h: nat, de: Entry,
                  ghost nodes0: Chains, ghost buckets0: seq<Chain>, ghost nodes1: Chains, ghost buckets1: seq<Chain>,
                  ghost repr: set<Entry>, ghost c: seq<Entry>, ghost p: Chain, ghost i: nat)
    requires a0 != a1 && x < a0.Length && h < a1.Length && i < |c| == |p| && de == c[i] && de in repr
    requires Within(nodes0, repr) && BucketsLinkedExcept(a0, nodes0, buckets0, repr, x)
    requires Within(nodes1, repr) && BucketsLinkedExcept(a1, nodes1, buckets1, repr, -1)
    requires RestLinked(a0, x, c, p, i)
    modifies a1, de
    ensures BucketsLinkedExcept(a0, nodes0, buckets0, repr, x) && RestLinked(a0, x, c, p, i + 1)
    ensures Within(nodes1[h := [de] + nodes1[h]], repr)
    ensures BucketsLinkedExcept(a1, nodes1[h := [de] + nodes1[h]], buckets1[h := [p[i]] + buckets1[h]], repr, -1)
  {
    assert LinkOk(a0, x, c, p, i);
    forall k | 0 <= k < |nodes1| ensures de !in nodes1[k] {
      assert ChainLinked(a1, k, nodes1[k], buckets1[k]);
    }
    forall k | 0 <= k < |nodes0| && k != x ensures de !in nodes0[k] {
      assert ChainLinked(a0, k, nodes0[k], buckets0[k]);
    }
    LinkAtHead(a1, h, de, nodes1, buckets1, repr);
    forall k | 0 <= k < |nodes0| && k != x ensures ChainLinked(a0, k, nodes0[k], buckets0[k]) {
      assert old(ChainLinked(a0, k, nodes0[k], buckets0[k]));
    }
    forall j | i + 1 <= j < |c| ensures LinkOk(a0, x, c, p, j) {
      assert old(LinkOk(a0, x, c, p, j));
    }
  }

  /** Entry j of list i dropped. */
  function Without<T>(lists: seq<seq<T>>, i: nat, j: nat): seq<seq<T>>
    requires i < |lists| && j < |lists[i]|
  {
    lists[i := lists[i][..j] + lists[i][j + 1..]]
  }

  /** `table[idx] = he->next` for the first entry of the bucket. */
  method UnlinkFirst(a: array<Entry?>, idx: nat, he: Entry, ghost nodes: Chains, ghost buckets: seq<Chain>,
                  ghost other: array?<Entry?>, ghost nodes': Chains, ghost buckets': seq<Chain>,
                  ghost repr: set<Entry>)
    requires Within(nodes, repr) && BucketsLinkedExcept(a, nodes, buckets, repr, -1) && idx < a.Length
    requires Within(nodes', repr) && (other != null ==> other != a && BucketsLinkedExcept(other, nodes', buckets', repr, -1))
    requires 0 < |nodes[idx]| && he == nodes[idx][0]
    modifies a
    ensures he.val == old(he.val)
    ensures |nodes[idx]| == |buckets[idx]| && Within(Without(nodes, idx, 0), repr)
    ensures BucketsLinkedExcept(a, Without(nodes, idx, 0), Without(buckets, idx, 0), repr, -1)
    ensures other != null ==> BucketsLinkedExcept(other, nodes', buckets', repr, -1)
  {
    ghost var c, p := nodes[idx], buckets[idx];
    assert ChainLinked(a, idx, c, p);
    assert LinkOk(a, idx, c, p, 0);
    WithoutPlace(nodes, idx, 0, repr);
    hide Within;
    ghost var c', p' := c[..0] + c[1..], p[..0] + p[1..];
    a[idx] := he.next;
    forall k | 0 <= k < |c'| ensures LinkOk(a, idx, c', p', k) {
      assert old(LinkOk(a, idx, c, p, k + 1));
    }
    assert ChainLinked(a, idx, c', p');
    forall i | 0 <= i < |nodes| && i != idx ensures a[i] == EntryAt(nodes[i], 0) && ChainLinked(a, i, nodes[i], buckets[i]) {
      assert old(ChainLinked(a, i, nodes[i], buckets[i]));
    }
    if other != null {
      forall i | 0 <= i < |nodes'| ensures other[i] == EntryAt(nodes'[i], 0) && ChainLinked(other, i, nodes'[i], buckets'[i]) {
        assert old(ChainLinked(other, i, nodes'[i], buckets'[i]));
      }
    }
  }

  /** `prevHe->next = he->next` for a later entry. */
  method UnlinkLater(ghost a: array<Entry?>, ghost idx: nat, he: Entry, prevHe: Entry, ghost nodes: Chains, ghost buckets: seq<Chain>,
                  ghost other: array?<Entry?>, ghost nodes': Chains, ghost buckets': seq<Chain>,
                  ghost repr: set<Entry>, ghost j: nat)
    requires Within(nodes, repr) && BucketsLinkedExcept(a, nodes, buckets, repr, -1) && idx < a.Length
    requires Within(nodes', repr) && (other != null ==> other != a && BucketsLinkedExcept(other, nodes', buckets', repr, -1))
    requires 0 < j < |nodes[idx]| && he == nodes[idx][j] && prevHe == nodes[idx][j - 1]
    modifies prevHe
    ensures he.val == old(he.val)
    ensures |nodes[idx]| == |buckets[idx]| && Within(Without(nodes, idx, j), repr)
    ensures BucketsLinkedExcept(a, Without(nodes, idx, j), Without(buckets, idx, j), repr, -1)
    ensures other != null ==> BucketsLinkedExcept(other, nodes', buckets', repr, -1)
  {
    ghost var c, p := nodes[idx], buckets[idx];
    assert ChainLinked(a, idx, c, p);
    assert LinkOk(a, idx, c, p, j) && LinkOk(a, idx, c, p, j - 1);
    WithoutPlace(nodes, idx, j, repr);
    hide Within;
    ghost var c', p' := c[..j] + c[j + 1..], p[..j] + p[j + 1..];
    prevHe.next := he.next;
    forall k | 0 <= k < |c'| ensures LinkOk(a, idx, c', p', k) {
      assert old(LinkOk(a, idx, c, p, if k < j then k else k + 1));
    }
    assert ChainLinked(a, idx, c', p');
    forall i | 0 <= i < |nodes| && i != idx ensures a[i] == EntryAt(nodes[i], 0) && ChainLinked(a, i, nodes[i], buckets[i]) {
      assert old(ChainLinked(a, i, nodes[i], buckets[i]));
    }
    if other != null {
      forall i | 0 <= i < |nodes'| ensures other[i] == EntryAt(nodes'[i], 0) && ChainLinked(other, i, nodes'[i], buckets'[i]) {
        assert old(ChainLinked(other, i, nodes'[i], buckets'[i]));
      }
    }
  }

  /** Takes entry j of the chain of bucket idx out of it; the other array is left alone. */
  method UnlinkAt(a: array<Entry?>, idx: nat, he: Entry, prevHe: Entry?, ghost nodes: Chains, ghost buckets: seq<Chain>,
                  ghost other: array?<Entry?>, ghost nodes': Chains, ghost buckets': seq<Chain>,
                  ghost repr: set<Entry>, ghost j: nat)
    requires Within(nodes, repr) && BucketsLinkedExcept(a, nodes, buckets, repr, -1) && idx < a.Length
    requires Within(nodes', repr) && (other != null ==> other != a && BucketsLinkedExcept(other, nodes', buckets', repr, -1))
    requires j < |nodes[idx]| && he == nodes[idx][j] && prevHe == if j == 0 then null else nodes[idx][j - 1]
    modifies a, prevHe
    ensures he.val == old(he.val)
    ensures |nodes[idx]| == |buckets[idx]| && Within(Without(nodes, idx, j), repr)
    ensures BucketsLinkedExcept(a, Without(nodes, idx, j), Without(buckets, idx, j), repr, -1)
    ensures other != null ==> BucketsLinkedExcept(other, nodes', buckets', repr, -1)
  {
    assert j > 0 ==> nodes[idx][j - 1] in repr;
    hide Within, BucketsLinkedExcept, Without;
    if prevHe != null {
      UnlinkLater(a, idx, he, prevHe, nodes, buckets, other, nodes', buckets', repr, j);
    } else {
      UnlinkFirst(a, idx, he, nodes, buckets, other, nodes', buckets', repr);
    }
  }

  lemma WithoutPlace(nodes: Chains, idx: nat, j: nat, repr: set<Entry>)
    requires idx < |nodes| && j < |nodes[idx]| && NoRepeats(nodes[idx]) && Within(nodes, repr)
    ensures var c' := nodes[idx][..j] + nodes[idx][j + 1..];
      NoRepeats(c') && Within(Without(nodes, idx, j), repr)
  {
    var c' := nodes[idx][..j] + nodes[idx][j + 1..];
    forall k | 0 <= k < |c'| ensures c'[k] == nodes[idx][if k < j then k else k + 1] && c'[k] in repr {
      assert nodes[idx][if k < j then k else k + 1] in repr;
    }
  }

  /** Sets the value of entry j of the chain of bucket idx; the other array, if there is one, is left alone. */
  method SetValAt(he: Entry, v: Value, ghost a: array<Entry?>, ghost idx: nat, ghost nodes: Chains, ghost buckets: seq<Chain>,
                  ghost other: array?<Entry?>, ghost nodes': Chains, ghost buckets': seq<Chain>,
                  ghost repr: set<Entry>, ghost j: nat)
    requires Within(nodes, repr) && BucketsLinkedExcept(a, nodes, buckets, repr, -1) && idx < a.Length
    requires Within(nodes', repr) && (other != null ==> other != a && BucketsLinkedExcept(other, nodes', buckets', repr, -1))
    requires j < |nodes[idx]| && he == nodes[idx][j]
    modifies he`val
    ensures he.val == v && |nodes[idx]| == |buckets[idx]|
    ensures BucketsLinkedExcept(a, nodes, buckets[idx := buckets[idx][j := Pair(he.key, v)]], repr, -1)
    ensures other != null ==> BucketsLinkedExcept(other, nodes', buckets', repr, -1)
  {
    ghost var c, p := nodes[idx], buckets[idx];
    assert ChainLinked(a, idx, c, p);
    assert LinkOk(a, idx, c, p, j);
    he.val := v;
    ghost var p' := p[j := Pair(he.key, v)];
    forall k | 0 <= k < |c| ensures LinkOk(a, idx, c, p', k) {
      assert old(LinkOk(a, idx, c, p, k));
    }
    assert ChainLinked(a, idx, c, p');
    forall i | 0 <= i < |nodes| && i != idx ensures a[i] == EntryAt(nodes[i], 0) && ChainLinked(a, i, nodes[i], buckets[i]) {
      assert old(ChainLinked(a, i, nodes[i], buckets[i]));
    }
    if other != null {
      forall i | 0 <= i < |nodes'| ensures other[i] == EntryAt(nodes'[i], 0) && ChainLinked(other, i, nodes'[i], buckets'[i]) {
        assert old(ChainLinked(other, i, nodes'[i], buckets'[i]));
      }
    }
  }

  /** A new entry at the head of a bucket; the other array, if there is one, is left alone. */
  method NewLinked(a: array<Entry?>, idx: nat, key: Key, v: Value, ghost nodes: Chains, ghost buckets: seq<Chain>,
                   ghost other: array?<Entry?>, ghost nodes': Chains, ghost buckets': seq<Chain>, ghost repr: set<Entry>)
    returns (entry: Entry)
    requires Within(nodes, repr) && BucketsLinkedExcept(a, nodes, buckets, repr, -1) && idx < a.Length
    requires Within(nodes', repr) && (other != null ==> other != a && BucketsLinkedExcept(other, nodes', buckets', repr, -1))
    modifies a
    ensures fresh(entry) && entry.val == v && entry.key == key && |nodes| == |buckets| == a.Length
    ensures Within(nodes', repr + {entry}) && Within(nodes[idx := [entry] + nodes[idx]], repr + {entry})
    ensures BucketsLinkedExcept(a, nodes[idx := [entry] + nodes[idx]], buckets[idx := [Pair(key, v)] + buckets[idx]], repr + {entry}, -1)
    ensures other != null ==> BucketsLinkedExcept(other, nodes', buckets', repr + {entry}, -1)
    ensures |nodes[idx]| == |buckets[idx]|
  {
    assert ChainLinked(a, idx, nodes[idx], buckets[idx]);
    entry := new Entry(key, v, null, a, idx);
    forall i | 0 <= i < |nodes| ensures ChainLinked(a, i, nodes[i], buckets[i]) {
      assert old(ChainLinked(a, i, nodes[i], buckets[i]));
    }
    LinkAtHead(a, idx, entry, nodes, buckets, repr + {entry});
    if other != null {
      forall i | 0 <= i < |nodes'| ensures other[i] == EntryAt(nodes'[i], 0) && ChainLinked(other, i, nodes'[i], buckets'[i]) {
        assert old(ChainLinked(other, i, nodes'[i], buckets'[i]));
      }
    }
  }

  method ClearBucket(a: array<Entry?>, x: nat, ghost nodes: Chains, ghost buckets: seq<Chain>, ghost repr: set<Entry>)
    requires x < a.Length && Within(nodes, repr) && BucketsLinkedExcept(a, nodes, buckets, repr, x)
    modifies a
    ensures Within(nodes[x := []], repr)
    ensures BucketsLinkedExcept(a, nodes[x := []], buckets[x := []], repr, -1)
  {
    a[x] := null;
    forall k | 0 <= k < |nodes| && k != x ensures ChainLinked(a, k, nodes[k], buckets[k]) {
      assert old(ChainLinked(a, k, nodes[k], buckets[k]));
    }
  }

  class Dict {
    const hashFunction: HashFunction
    var ht0: HashTable
    var ht1: HashTable
    var rehashidx: int
    var iterators: nat
    var canResize: bool

    ghost var model: State
    ghost var nodes0: Chains
    ghost var nodes1: Chains
    ghost var repr: set<Entry>

    /** The heap carries the model, whether or not the model keeps its invariant. */
    ghost predicate Linked()
      reads this, repr, ht0.table, ht1.table
    {
      && Within(nodes0, repr) && Within(nodes1, repr)
      && TableLinked(ht0, nodes0, model.ht0, repr) && TableLinked(ht1, nodes1, model.ht1, repr)
      && (ht0.table == null || ht0.table != ht1.table)
      && rehashidx == model.rehashidx && iterators == model.iterators && canResize == model.canResize
    }

    ghost predicate Valid()
      reads this, repr, ht0.table, ht1.table
    {
      Linked() && Inv(hashFunction, model)
    }

    /** dictCreate */
    constructor (hashFunction: HashFunction)
      ensures Valid() && model == INITIAL && fresh(repr) && this.hashFunction == hashFunction
      ensures ht0.table == null && ht1.table == null
    {
      this.hashFunction := hashFunction;
      ht0, ht1 := HashTable(null, 0, ZERO, 0), HashTable(null, 0, ZERO, 0);
      rehashidx, iterators, canResize := -1, 0, true;
      model, nodes0, nodes1, repr := INITIAL, [], [], {};
      new;
      DictRuns.InitialOk(hashFunction);
      MakeLinked();
      hide *;
    }

    predicate IsRehashing()
      reads this
    {
      rehashidx != -1
    }

    /** In the middle of moving the bucket at rehashidx: entries c[..i] are in the new table, which carries t1;
        the others are still linked to each other. */
    ghost predicate Moving(m0: State, c: seq<Entry>, p: Chain, i: nat, t1: Table)
      requires 0 <= m0.rehashidx < m0.ht0.Size() && m0.ht1.Size() > 0
      reads this, repr, ht0.table, ht1.table
    {
      && Within(nodes0, repr) && Within(nodes1, repr)
      && model == m0 && rehashidx == m0.rehashidx && iterators == m0.iterators && canResize == m0.canResize
      && ht0.table != null && ht1.table != null && ht0.table != ht1.table
      && |nodes0| == m0.ht0.Size() && c == nodes0[rehashidx] && p == m0.ht0.buckets[rehashidx] && i <= |c| == |p|
      && ht0.size == m0.ht0.Size() && ht0.sizemask == MaskOf(ht0.size) && ht0.used + i == m0.ht0.used
      && BucketsLinkedExcept(ht0.table, nodes0, m0.ht0.buckets, repr, rehashidx)
      && RestLinked(ht0.table, rehashidx, c, p, i)
      && t1.Size() > 0 && TableLinked(ht1, nodes1, t1, repr)
      && MoveChain(hashFunction, p[i..], t1) == MoveChain(hashFunction, p, m0.ht1)
    }

    /** One turn of the inner loop of dictRehash. */
    method MoveEntry(de: Entry, ghost m0: State, ghost c: seq<Entry>, ghost p: Chain, ghost i: nat, ghost t1: Table)
      returns (nextde: Entry?, ghost t2: Table)
      requires 0 <= m0.rehashidx < m0.ht0.Size() && m0.ht1.Size() > 0
      requires Moving(m0, c, p, i, t1) && i < |c| && de == c[i] && ht0.used > 0
      modifies this, de, ht1.table
      ensures repr == old(repr) && ht0.table == old(ht0.table) && ht1.table == old(ht1.table)
      ensures Moving(m0, c, p, i + 1, t2) && nextde == EntryAt(c, i + 1)
    {
      assert LinkOk(ht0.table, rehashidx, c, p, i);
      nextde := de.next;
      var h := ToNat(And(hashFunction(de.key), ht1.sizemask));
      assert h == Slot(hashFunction(p[i].key), t1.Size());
      assert p[i..][0] == p[i] && p[i..][1..] == p[i + 1..];
      MoveLink(ht0.table, ht1.table, rehashidx, h, de, nodes0, m0.ht0.buckets, nodes1, t1.buckets, repr, c, p, i);
      nodes1 := nodes1[h := [de] + nodes1[h]];
      ht0 := ht0.(used := ht0.used - 1);
      ht1 := ht1.(used := ht1.used + 1);
      t2 := Push(hashFunction, t1, p[i]);
    }

    /** The inner loop of dictRehash: relinks every entry of the bucket at rehashidx into the new table. */
    method MoveEntries()
      requires Linked() && Core(hashFunction, model) && IsRehashing() && rehashidx < ht0.size
      modifies this, repr, ht0.table, ht1.table
      ensures Linked() && model == MoveBucket(hashFunction, old(model)) && repr == old(repr)
      ensures ht0.table == old(ht0.table) && ht1.table == old(ht1.table)
    {
      ghost var m0, p, c := model, model.ht0.buckets[rehashidx], nodes0[rehashidx];
      ghost var t1, i := model.ht1, 0;
      ClearBucketOk(hashFunction, model.ht0, rehashidx);
      assert ChainLinked(ht0.table, rehashidx, c, p);
      var de := ht0.table[rehashidx];
      while de != null
        invariant repr == old(repr) && ht0.table == old(ht0.table) && ht1.table == old(ht1.table)
        invariant Moving(m0, c, p, i, t1) && de == EntryAt(c, i)
        decreases |c| - i
      {
        de, t1 := MoveEntry(de, m0, c, p, i, t1);
        i := i + 1;
      }
      assert p[i..] == [];
      CloseBucket(m0, c, p, t1);
    }

    /** `d->ht[0].table[d->rehashidx] = NULL; d->rehashidx++` */
    method CloseBucket(ghost m0: State, ghost c: seq<Entry>, ghost p: Chain, ghost t1: Table)
      requires 0 <= m0.rehashidx < m0.ht0.Size() && m0.ht1.Size() > 0
      requires Moving(m0, c, p, |p|, t1) && t1 == MoveChain(hashFunction, p, m0.ht1) && |p| <= m0.ht0.used
      modifies this, ht0.table
      ensures Linked() && model == MoveBucket(hashFunction, m0) && repr == old(repr)
      ensures ht0.table == old(ht0.table) && ht1.table == old(ht1.table)
    {
      hide MaskOf, MoveChain, RestLinked, ChainLinked;
      ClearBucket(ht0.table, rehashidx, nodes0, m0.ht0.buckets, repr);
      nodes0 := nodes0[rehashidx := []];
      rehashidx := rehashidx + 1;
      model := MoveBucket(hashFunction, model);
      MakeLinked();
      hide *;
    }

    ghost function Footprint(): set<object>
      reads this
    {
      var entries: set<object> := repr;
      var tables: set<object> := (if ht0.table == null then {} else {ht0.table}) + (if ht1.table == null then {} else {ht1.table});
      {this} + entries + tables
    }

    /** The heap between two turns of dictRehash. */
    ghost predicate MidRehash()
      reads this, repr, ht0.table, ht1.table
    {
      Linked() && Core(hashFunction, model) && IsRehashing()
    }

    /** `while(d->ht[0].table[d->rehashidx] == NULL) { d->rehashidx++; if (--empty_visits == 0) return 1; }` */
    method SkipEmpty(n: int, emptyVisits0: int) returns (emptyVisits: int, exhausted: bool)
      requires MidRehash() && ht0.used != 0 && n != 0
      modifies this`rehashidx, this`model
      ensures MidRehash() && ht0.used != 0 && rehashidx >= old(rehashidx)
      ensures exhausted ==> Inv(hashFunction, model) && RehashLoop(hashFunction, old(model), n, emptyVisits0) == (model, true)
      ensures !exhausted ==> rehashidx < ht0.size && model.ht0.buckets[rehashidx] != []
      ensures !exhausted ==>
        RehashLoop(hashFunction, model, n, emptyVisits) == RehashLoop(hashFunction, old(model), n, emptyVisits0)
    {
      hide TableOk, EmptyBelow, Disjoint, BucketsLinkedExcept, Within, MoveBucket;
      assert ht0.used == model.ht0.used && rehashidx == model.rehashidx;
      hide Linked;
      emptyVisits := emptyVisits0;
      RehashIndexInRange(hashFunction, model);
      NullBucket();
      ArrayLength(0);
      while ht0.table[rehashidx] == null
        invariant MidRehash() && ht0.used != 0 && old(rehashidx) <= rehashidx < ht0.size
        invariant ht0.table != null && ht0.table.Length == ht0.size == model.ht0.Size()
        invariant ht0.used == model.ht0.used && rehashidx == model.rehashidx
        invariant RehashLoop(hashFunction, model, n, emptyVisits) == RehashLoop(hashFunction, old(model), n, emptyVisits0)
        decreases ht0.size - rehashidx
      {
        NullBucket();
        SkipBucketOk(hashFunction, model);
        Advance();
        emptyVisits := emptyVisits - 1;
        if emptyVisits == 0 {
          return emptyVisits, true;
        }
        RehashIndexInRange(hashFunction, model);
      }
      NullBucket();
      exhausted := false;
    }

    method Advance()
      requires Linked()
      modifies this`rehashidx, this`model
      ensures Linked() && rehashidx == old(rehashidx) + 1 && model == old(model).(rehashidx := old(model).rehashidx + 1)
    {
      model, rehashidx := model.(rehashidx := rehashidx + 1), rehashidx + 1;
      MakeLinked();
      hide *;
    }

    lemma NullBucket()
      requires Linked() && 0 <= rehashidx < ht0.size
      ensures ht0.table != null && rehashidx < ht0.table.Length && ht0.size == model.ht0.Size()
      ensures ht0.table[rehashidx] == null <==> model.ht0.buckets[rehashidx] == []
      ensures rehashidx == model.rehashidx && ht0.used == model.ht0.used
    {
      assert ChainLinked(ht0.table, rehashidx, nodes0[rehashidx], model.ht0.buckets[rehashidx]);
    }

    /** One turn of the outer loop of dictRehash. */
    method RehashTurn(n: int, emptyVisits0: int) returns (emptyVisits: int, exhausted: bool)
      requires MidRehash() && ht0.used != 0 && n != 0
      modifies this, repr, ht0.table, ht1.table
      ensures repr == old(repr) && ht0.table == old(ht0.table) && ht1.table == old(ht1.table)
      ensures MidRehash() && rehashidx >= old(rehashidx) && ht0.size == old(ht0.size)
      ensures exhausted ==> Inv(hashFunction, model) && RehashLoop(hashFunction, old(model), n, emptyVisits0) == (model, true)
      ensures !exhausted ==> rehashidx > old(rehashidx)
      ensures !exhausted ==>
        RehashLoop(hashFunction, model, n - 1, emptyVisits) == RehashLoop(hashFunction, old(model), n, emptyVisits0)
    {
      hide TableOk, EmptyBelow, Disjoint;
      emptyVisits, exhausted := SkipEmpty(n, emptyVisits0);
      if !exhausted {
        MoveBucketOk(hashFunction, model);
        MoveEntries();
      }
    }

    /** The end of dictRehash. */
    method FinishRehash() returns (more: bool)
      requires MidRehash()
      modifies this
      ensures Valid() && (model, more) == DictModel.FinishRehash(old(model))
      ensures repr == old(repr) && Footprint() <= old(Footprint())
    {
      FinishRehashOk(hashFunction, model);
      hide TableOk, EmptyBelow, Disjoint;
      if ht0.used == 0 {
        ht0, nodes0 := ht1, nodes1;
        ht1, nodes1 := HashTable(null, 0, ZERO, 0), [];
        rehashidx := -1;
        model := DictModel.FinishRehash(model).0;
        return false;
      }
      return true;
    }

    /** dictRehash */
    method Rehash(n: int) returns (more: bool)
      requires Valid()
      modifies Footprint()
      ensures Valid() && (model, more) == DictModel.Rehash(hashFunction, old(model), n)
      ensures repr == old(repr) && Footprint() <= old(Footprint())
    {
      hide TableOk, EmptyBelow, Disjoint, BucketsLinkedExcept;
      if !IsRehashing() {
        return false;
      }
      var left, emptyVisits, exhausted := n, n * 10, false;
      while left != 0 && ht0.used != 0
        invariant MidRehash() && repr == old(repr) && ht0.table == old(ht0.table) && ht1.table == old(ht1.table)
        invariant RehashLoop(hashFunction, model, left, emptyVisits) == RehashLoop(hashFunction, old(model), n, n * 10)
        decreases ht0.size - rehashidx
      {
        emptyVisits, exhausted := RehashTurn(left, emptyVisits);
        if exhausted {
          return true;
        }
        left := left - 1;
      }
      more := FinishRehash();
    }

    /** `if (dictIsRehashing(d)) _dictRehashStep(d)` */
    method RehashStep()
      requires Valid()
      modifies Footprint()
      ensures Valid() && model == DictModel.RehashStep(hashFunction, old(model))
      ensures repr == old(repr) && Footprint() <= old(Footprint())
      ensures old(iterators) > 0 ==> nodes0 == old(nodes0) && nodes1 == old(nodes1)
    {
      if IsRehashing() && iterators == 0 {
        var _ := Rehash(1);
      }
    }

    /** _dictNextPower */
    static method NextPower(size: nat) returns (i: nat)
      ensures i == DictModel.NextPower(size)
    {
      if size >= LONG_MAX {
        return LONG_MAX;
      }
      i := INITIAL_SIZE;
      while i < size
        invariant i > 0 && NextPowerFrom(i, size) == NextPowerFrom(INITIAL_SIZE, size)
        decreases size - i
      {
        i := i * 2;
      }
    }

    /** dictExpand */
    method Expand(size: nat) returns (ok: bool)
      requires Valid() && size <= MAX_SIZE
      modifies this
      ensures Valid() && (model, ok) == DictModel.Expand(old(model), size)
      ensures repr == old(repr) && fresh(Footprint() - old(Footprint()))
      ensures Stay(old(nodes0), old(nodes1), nodes0, nodes1, null)
    {
      hide TableOk, EmptyBelow, Disjoint;
      DictRuns.NextPowerOk(size);
      DictRuns.ExpandOk(hashFunction, model, size);
      StaySame(nodes0, nodes1, null);
      hide Stay;
      var realsize := NextPower(size);
      if IsRehashing() || ht0.used > size {
        return false;
      }
      if realsize == ht0.size {
        return false;
      }
      hide DictModel.NextPower;
      Install(realsize, DictModel.Expand(model, size).0);
      StayInstalled(old(nodes0), old(nodes1), nodes0, nodes1);
      return true;
    }

    /** An empty table, its buckets all null. */
    method NewTable(size: nat) returns (n: HashTable, ghost nodes: Chains)
      requires size > 0
      ensures n.table != null && fresh(n.table) && n.size == size && |nodes| == size && forall i :: 0 <= i < size ==> nodes[i] == []
      ensures TableLinked(n, nodes, EmptyTable(size), repr)
    {
      var table := new Entry?[size](i => null);
      n := HashTable(table, size, MaskOf(size), 0);
      nodes := seq(size, i => []);
    }

    /** The end of dictExpand: an empty table becomes the only one, or the target of a rehash. */
    method Install(realsize: nat, ghost target: State)
      requires Linked() && !IsRehashing() && model.ht1 == EMPTY && realsize > 0
      requires target == if model.ht0.Size() == 0 then model.(ht0 := EmptyTable(realsize))
        else model.(ht1 := EmptyTable(realsize), rehashidx := 0)
      modifies this
      ensures Linked() && model == target && repr == old(repr) && fresh(Footprint() - old(Footprint()))
      ensures (old(nodes0) == [] || nodes0 == old(nodes0)) && old(nodes1) == []
    {
      var n, nodes := NewTable(realsize);
      hide BucketsLinkedExcept, MaskOf, EmptyTable;
      if ht0.table == null {
        model, ht0, nodes0 := target, n, nodes;
      } else {
        model, ht1, nodes1, rehashidx := target, n, nodes, 0;
      }
      MakeLinked();
      hide *;
    }

    /** dictResize */
    method Resize() returns (ok: bool)
      requires Valid() && model.Used() <= MAX_SIZE
      modifies this
      ensures Valid() && (model, ok) == DictModel.Resize(old(model))
      ensures repr == old(repr) && fresh(Footprint() - old(Footprint()))
    {
      if !canResize || IsRehashing() {
        return false;
      }
      var minimal := ht0.used;
      if minimal < INITIAL_SIZE {
        minimal := INITIAL_SIZE;
      }
      ok := Expand(minimal);
    }

    /** _dictExpandIfNeeded */
    method ExpandIfNeeded() returns (ok: bool)
      requires Valid() && model.Used() <= DictRuns.MAX_KEYS
      modifies this
      ensures Valid() && (model, ok) == DictModel.ExpandIfNeeded(old(model))
      ensures repr == old(repr) && fresh(Footprint() - old(Footprint()))
      ensures Stay(old(nodes0), old(nodes1), nodes0, nodes1, null)
    {
      StaySame(nodes0, nodes1, null);
      hide Stay;
      if IsRehashing() {
        return true;
      }
      if ht0.size == 0 {
        ok := Expand(INITIAL_SIZE);
        return;
      }
      if ht0.used >= ht0.size && (canResize || ht0.used / ht0.size > FORCE_RESIZE_RATIO) {
        ok := Expand(ht0.used * 2);
        return;
      }
      return true;
    }

    ghost function NodesOf(table: nat): Chains
      reads this
    {
      if table == 0 then nodes0 else nodes1
    }

    ghost function ArrayOf(table: nat): array?<Entry?>
      reads this
    {
      if table == 0 then ht0.table else ht1.table
    }

    ghost function ModelOf(table: nat): Table
      reads this
    {
      if table == 0 then model.ht0 else model.ht1
    }

    /** Entry he is at place j of the chain of key's bucket in the given table. */
    ghost predicate At(table: nat, key: Key, j: nat, he: Entry)
      reads this
    {
      var t, nodes := ModelOf(table), NodesOf(table);
      && t.Size() > 0 && |nodes| == t.Size()
      && var c, p := nodes[Slot(hashFunction(key), t.Size())], Bucket(hashFunction, t, key);
      && j < |c| == |p| && c[j] == he && he in repr && p[j].key == key == he.key
      && (forall k :: 0 <= k < j ==> p[k].key != key)
    }

    /** Searches the bucket of a key in one of the two tables. */
    method SearchTable(table: nat, key: Key) returns (idx: nat, he: Entry?, prevHe: Entry?, ghost j: nat)
      requires Valid() && table <= 1 && ModelOf(table).Size() > 0
      ensures idx == Slot(hashFunction(key), ModelOf(table).Size())
      ensures he == null ==> DictModel.Lookup(hashFunction, ModelOf(table), key) == None
      ensures he != null ==> At(table, key, j, he) && DictModel.Lookup(hashFunction, ModelOf(table), key) == Some(he.val)
      ensures he != null ==> prevHe == if j == 0 then null else NodesOf(table)[idx][j - 1]
    {
      var ht := if table == 0 then ht0 else ht1;
      var h := Narrow(hashFunction(key));
      idx := ToNat(And(h, ht.sizemask));
      NarrowedSlot(table, key);
      hide Inv, Slot, Narrow, DictModel.Find, DictModel.Unlink, DictModel.SetVal;
      ghost var c, p := NodesOf(table)[idx], Bucket(hashFunction, ModelOf(table), key);
      assert ChainLinked(ht.table, idx, c, p);
      he, prevHe, j := SearchChain(ht.table, idx, key, c, p);
      FindPlace(c, p, j, key);
      if he != null {
        assert LinkOk(ht.table, idx, c, p, j);
      }
    }

    lemma NarrowedSlot(table: nat, key: Key)
      requires Valid() && table <= 1 && ModelOf(table).Size() > 0
      ensures ToNat(And(Narrow(hashFunction(key)), (if table == 0 then ht0 else ht1).sizemask))
           == Slot(hashFunction(key), ModelOf(table).Size())
    {
      var size := ModelOf(table).Size();
      assert PowerSize(size);
      var b :| 2 <= b <= 31 && size == Pow2(b);
      NarrowKeepsSlot(hashFunction(key), b);
    }

    /** dictFind */
    method Find(key: Key) returns (he: Entry?)
      requires Valid()
      modifies Footprint()
      ensures Valid() && repr == old(repr) && Footprint() <= old(Footprint())
      ensures FindOp(hashFunction, old(model), key) == (model, if he == null then None else Some(he.val))
      ensures he != null ==> he in repr && he.key == key
      ensures old(iterators) > 0 ==> Stay(old(nodes0), old(nodes1), nodes0, nodes1, null)
    {
      StaySame(nodes0, nodes1, null);
      hide Inv, Lookup, DictModel.RehashStep, Linked, At, Stay;
      TablesNonEmpty();
      if ht0.used + ht1.used == 0 {
        return null;
      }
      RehashStepOk(hashFunction, model);
      RehashStep();
      TablesNonEmpty();
      ghost var n0, n1 := nodes0, nodes1;
      var table := 0;
      while table <= 1
        invariant Valid() && table <= 2 && repr == old(repr) && Footprint() <= old(Footprint())
        invariant nodes0 == n0 && nodes1 == n1
        invariant model == DictModel.RehashStep(hashFunction, old(model)) && old(model.Used()) > 0
        invariant model.ht0.Size() > 0 && (model.Rehashing() ==> model.ht1.Size() > 0) && rehashidx == model.rehashidx
        invariant table > 0 ==> model.Rehashing() && Lookup(hashFunction, model.ht0, key) == None
        invariant table > 1 ==> Lookup(hashFunction, model.ht1, key) == None
      {
        var idx, prevHe;
        ghost var j;
        idx, he, prevHe, j := SearchTable(table, key);
        if he != null {
          KnownEntry(table, key, j, he);
          return;
        }
        if !IsRehashing() {
          return null;
        }
        table := table + 1;
      }
      return null;
    }

    /** With entries about, the tables that will be searched have buckets. */
    lemma TablesNonEmpty()
      requires Valid()
      ensures Shaped(model) && ht0.used == model.ht0.used && ht1.used == model.ht1.used && rehashidx == model.rehashidx
      ensures model.Used() > 0 || model.Rehashing() ==> model.ht0.Size() > 0
      ensures model.Rehashing() ==> model.ht1.Size() > 0
    {
      CountEmpty(model.ht0.buckets);
      CountEmpty(model.ht1.buckets);
    }

    lemma NodesSizes()
      requires Linked()
      ensures |nodes0| == model.ht0.Size() && |nodes1| == model.ht1.Size()
      ensures rehashidx == model.rehashidx && iterators == model.iterators
    {
    }

    /** Where an entry of the chains is, in the heap and in the model. */
    lemma FindAmong(e: Entry) returns (table: nat, i: nat, j: nat)
      requires Linked() && Among(e, nodes0, nodes1)
      ensures table <= 1 && i < |NodesOf(table)| == ModelOf(table).Size() && j < |NodesOf(table)[i]| == |ModelOf(table).buckets[i]|
      ensures NodesOf(table)[i][j] == e && ModelOf(table).buckets[i][j].key == e.key
    {
      hide NoRepeats;
      NodesSizes();
      if i' :| 0 <= i' < |nodes0| && e in nodes0[i'] {
        table, i := 0, i';
      } else {
        table := 1;
        i :| 0 <= i < |nodes1| && e in nodes1[i];
      }
      j :| 0 <= j < |NodesOf(table)[i]| && NodesOf(table)[i][j] == e;
      var a := if table == 0 then ht0.table else ht1.table;
      assert ChainLinked(a, i, NodesOf(table)[i], ModelOf(table).buckets[i]);
      assert LinkOk(a, i, NodesOf(table)[i], ModelOf(table).buckets[i], j);
    }

    /** _dictKeyIndex: -1 with the existing entry, or the index of the bucket that takes the key. */
    method KeyIndex(key: Key) returns (index: int, existing: Entry?, table: nat, ghost j: nat)
      requires Valid() && model.Used() <= DictRuns.MAX_KEYS
      modifies this
      ensures Valid() && repr == old(repr) && fresh(Footprint() - old(Footprint()))
      ensures Stay(old(nodes0), old(nodes1), nodes0, nodes1, null)
      ensures FindIndex(hashFunction, old(model), key) == (model, if index == -1 then Existing else Free)
      ensures index == -1 <==> existing != null
      ensures existing != null ==> table <= 1 && At(table, key, j, existing)
      ensures index != -1 ==> table == (if IsRehashing() then 1 else 0) && ModelOf(table).Size() > 0
      ensures index != -1 ==> index == Slot(hashFunction(key), ModelOf(table).Size())
    {
      hide Inv, Lookup, DictModel.ExpandIfNeeded, Linked, Stay;
      existing, table, j := null, 0, 0;
      DictRuns.ExpandIfNeededOk(hashFunction, model);
      var ok := ExpandIfNeeded();
      if !ok {
        assert false;
      }
      TablesNonEmpty();
      ghost var fp, n0, n1 := Footprint(), nodes0, nodes1;
      index := 0;
      var t := 0;
      while t <= 1
        invariant Valid() && t <= 2 && repr == old(repr) && Footprint() == fp && nodes0 == n0 && nodes1 == n1
        invariant model == DictModel.ExpandIfNeeded(old(model)).0
        invariant model.ht0.Size() > 0 && (model.Rehashing() ==> model.ht1.Size() > 0) && rehashidx == model.rehashidx
        invariant t > 0 ==> model.Rehashing() && Lookup(hashFunction, model.ht0, key) == None
        invariant t > 1 ==> Lookup(hashFunction, model.ht1, key) == None && table == 1
        invariant t > 1 ==> index == Slot(hashFunction(key), model.ht1.Size())
        invariant existing == null && index >= 0
      {
        var prevHe;
        index, existing, prevHe, j := SearchTable(t, key);
        table := t;
        if existing != null {
          return -1, existing, table, j;
        }
        if !IsRehashing() {
          return;
        }
        t := t + 1;
      }
    }

    /** The second half of dictAddRaw: the entry goes to the table that takes insertions. */
    method InsertNew(key: Key, v: Value, index: nat) returns (entry: Entry)
      requires Valid() && ModelOf(if IsRehashing() then 1 else 0).Size() > 0
      requires index == Slot(hashFunction(key), ModelOf(if IsRehashing() then 1 else 0).Size())
      modifies this, ht0.table, ht1.table
      ensures Linked() && model == Insert(hashFunction, old(model), Pair(key, v)) && entry.val == v
      ensures fresh(entry) && repr == old(repr) + {entry} && At(if old(IsRehashing()) then 1 else 0, key, 0, entry)
      ensures ht0.table == old(ht0.table) && ht1.table == old(ht1.table)
      ensures Stay(old(nodes0), old(nodes1), nodes0, nodes1, null)
    {
      TablesNonEmpty();
      hide Inv, Insert, Slot, Linked, Stay, At;
      if IsRehashing() {
        entry := InsertIntoNew(key, v, index);
      } else {
        entry := InsertIntoOnly(key, v, index);
      }
    }

    /** dictAddRaw: the new entry, its value still arbitrary, or null and the existing entry. */
    method AddRaw(key: Key) returns (entry: Entry?, existing: Entry?, table: nat, ghost j: nat)
      requires Valid() && model.Used() < DictRuns.MAX_KEYS
      modifies Footprint()
      ensures Valid() && old(repr) <= repr && fresh(Footprint() - old(Footprint()))
      ensures entry != null ==> DictModel.AddRaw(hashFunction, old(model), Pair(key, entry.val)) == (model, Free)
      ensures entry == null ==>
        FindIndex(hashFunction, DictModel.RehashStep(hashFunction, old(model)), key) == (model, Existing)
      ensures old(iterators) > 0 ==> Stay(old(nodes0), old(nodes1), nodes0, nodes1, null)
      ensures table <= 1 && (if entry != null then At(table, key, j, entry) else existing != null && At(table, key, j, existing))
    {
      hide Inv, DictModel.RehashStep, FindIndex, Insert, Slot, LookupBoth, Linked, Stay;
      TablesNonEmpty();
      DictRuns.FindIndexOk(hashFunction, model, key);
      RehashStepOk(hashFunction, model);
      RehashStep();
      var index: int;
      index, existing, table, j := KeyIndex(key);
      if index == -1 {
        entry := null;
        return;
      }
      ghost var n0, n1 := nodes0, nodes1;
      var v: Value := *;
      DictRuns.InsertOk(hashFunction, model, Pair(key, v));
      entry := InsertNew(key, v, index);
      j := 0;
      if old(iterators) > 0 {
        StayTwice(old(nodes0), old(nodes1), n0, n1, nodes0, nodes1, null);
      }
    }

    lemma ArrayLength(table: nat)
      requires Linked() && ModelOf(table).Size() > 0
      ensures var ht := if table == 0 then ht0 else ht1; ht.table != null && ht.table.Length == ModelOf(table).Size()
    {
    }

    /** The second half of dictAddRaw, while rehashing: a new entry at the head of its bucket in the new table. */
    method InsertIntoNew(key: Key, v: Value, index: nat) returns (entry: Entry)
      requires Linked() && Shaped(model) && IsRehashing() && index == Slot(hashFunction(key), model.ht1.Size())
      modifies this, ht1.table
      ensures Linked() && model == Insert(hashFunction, old(model), Pair(key, v)) && entry.val == v
      ensures fresh(entry) && repr == old(repr) + {entry} && At(1, key, 0, entry)
      ensures ht0.table == old(ht0.table) && ht1.table == old(ht1.table)
      ensures Stay(old(nodes0), old(nodes1), nodes0, nodes1, null)
    {
      hide Slot, BucketsLinkedExcept;
      ArrayLength(1);
      entry := NewLinked(ht1.table, index, key, v, nodes1, model.ht1.buckets, ht0.table, nodes0, model.ht0.buckets, repr);
      StayHeaded(nodes0, nodes1, index, entry);
      hide Stay;
      nodes1 := Headed(nodes1, index, entry);
      ht1 := ht1.(used := ht1.used + 1);
      repr := repr + {entry};
      model := Insert(hashFunction, model, Pair(key, v));
    }

    /** The same when not rehashing, in the only table. */
    method InsertIntoOnly(key: Key, v: Value, index: nat) returns (entry: Entry)
      requires Linked() && Shaped(model) && !IsRehashing()
      requires model.ht0.Size() > 0 && index == Slot(hashFunction(key), model.ht0.Size())
      modifies this, ht0.table
      ensures Linked() && model == Insert(hashFunction, old(model), Pair(key, v)) && entry.val == v
      ensures fresh(entry) && repr == old(repr) + {entry} && At(0, key, 0, entry)
      ensures ht0.table == old(ht0.table) && ht1.table == old(ht1.table)
      ensures Stay(old(nodes0), old(nodes1), nodes0, nodes1, null)
    {
      hide Slot, BucketsLinkedExcept;
      ArrayLength(0);
      entry := NewLinked(ht0.table, index, key, v, nodes0, model.ht0.buckets, ht1.table, nodes1, model.ht1.buckets, repr);
      StayHeaded(nodes0, nodes1, index, entry);
      hide Stay;
      nodes0 := Headed(nodes0, index, entry);
      ht0 := ht0.(used := ht0.used + 1);
      repr := repr + {entry};
      model := Insert(hashFunction, model, Pair(key, v));
    }

    /** What overwriting the value of the entry at a known place does to the model. */
    lemma SetExistingAt(table: nat, key: Key, j: nat, he: Entry, v: Value)
      requires Valid() && table <= 1 && At(table, key, j, he)
      ensures var t, idx := ModelOf(table), Slot(hashFunction(key), ModelOf(table).Size());
        && t.Size() > 0 && |NodesOf(table)| == t.Size() && j < |NodesOf(table)[idx]| == |t.buckets[idx]|
        && NodesOf(table)[idx][j] == he && he in repr
        && var t' := t.(buckets := t.buckets[idx := t.buckets[idx][j := Pair(key, v)]]);
        && Inv(hashFunction, SetExisting(hashFunction, model, Pair(key, v)))
        && SetExisting(hashFunction, model, Pair(key, v)) == if table == 0 then model.(ht0 := t') else model.(ht1 := t')
    {
      var p := Bucket(hashFunction, ModelOf(table), key);
      FindPlace(NodesOf(table)[Slot(hashFunction(key), ModelOf(table).Size())], p, j, key);
      assert Lookup(hashFunction, ModelOf(table), key).Some?;
      DictRuns.SetExistingOk(hashFunction, model, Pair(key, v));
    }

    /** dictSetVal on an entry of ht[0], and of ht[1]. */
    method SetValIn0(he: Entry, v: Value, ghost idx: nat, ghost j: nat, ghost t: Table)
      requires Linked() && ht0.table != null && idx < |nodes0| == model.ht0.Size()
      requires j < |nodes0[idx]| == |model.ht0.buckets[idx]| && nodes0[idx][j] == he
      requires t == model.ht0.(buckets := model.ht0.buckets[idx := model.ht0.buckets[idx][j := Pair(he.key, v)]])
      modifies this`model, he`val
      ensures Linked() && model == old(model).(ht0 := t) && he.val == v
    {
      ArrayLength(0);
      hide BucketsLinkedExcept, Within;
      ghost var buckets := model.ht0.buckets;
      model := model.(ht0 := t);
      SetValAt(he, v, ht0.table, idx, nodes0, buckets, ht1.table, nodes1, model.ht1.buckets, repr, j);
      MakeLinked();
      hide *;
    }

    method SetValIn1(he: Entry, v: Value, ghost idx: nat, ghost j: nat, ghost t: Table)
      requires Linked() && ht1.table != null && idx < |nodes1| == model.ht1.Size()
      requires j < |nodes1[idx]| == |model.ht1.buckets[idx]| && nodes1[idx][j] == he
      requires t == model.ht1.(buckets := model.ht1.buckets[idx := model.ht1.buckets[idx][j := Pair(he.key, v)]])
      modifies this`model, he`val
      ensures Linked() && model == old(model).(ht1 := t) && he.val == v
    {
      ArrayLength(1);
      hide BucketsLinkedExcept, Within;
      ghost var buckets := model.ht1.buckets;
      model := model.(ht1 := t);
      SetValAt(he, v, ht1.table, idx, nodes1, buckets, ht0.table, nodes0, model.ht0.buckets, repr, j);
      MakeLinked();
      hide *;
    }

    /** dictSetVal on an entry of the dictionary. */
    method SetVal(he: Entry, v: Value, table: nat, ghost j: nat)
      requires Valid() && table <= 1 && At(table, he.key, j, he)
      modifies this`model, he`val
      ensures Valid() && he.val == v && model == SetExisting(hashFunction, old(model), Pair(he.key, v))
    {
      SetExistingAt(table, he.key, j, he, v);
      ArrayLength(table);
      hide Inv, Slot, BucketsLinkedExcept, DictModel.SetVal, SetExisting, At, Bucket, TableLinked;
      ghost var idx := Slot(hashFunction(he.key), ModelOf(table).Size());
      ghost var t := ModelOf(table);
      ghost var u := t.(buckets := t.buckets[idx := t.buckets[idx][j := Pair(he.key, v)]]);
      if table == 0 {
        SetValIn0(he, v, idx, j, u);
      } else {
        SetValIn1(he, v, idx, j, u);
      }
    }

    lemma MakeLinked()
      requires Within(nodes0, repr) && Within(nodes1, repr)
      requires TableLinked(ht0, nodes0, model.ht0, repr) && TableLinked(ht1, nodes1, model.ht1, repr)
      requires ht0.table == null || ht0.table != ht1.table
      requires rehashidx == model.rehashidx && iterators == model.iterators && canResize == model.canResize
      ensures Linked()
    {
    }

    /** dictAdd */
    method Add(key: Key, val: Value) returns (ok: bool)
      requires Valid() && model.Used() < DictRuns.MAX_KEYS
      modifies Footprint()
      ensures Valid() && old(repr) <= repr && fresh(Footprint() - old(Footprint()))
      ensures old(iterators) > 0 ==> Stay(old(nodes0), old(nodes1), nodes0, nodes1, null)
      ensures DictModel.AddRaw(hashFunction, old(model), Pair(key, val)) == (model, if ok then Free else Existing)
    {
      var entry, existing, table;
      ghost var j;
      hide Inv, Linked, DictModel.RehashStep, FindIndex, SetExisting, At, Insert, DictModel.AddRaw, DictModel.Replace, Stay;
      TablesNonEmpty();
      ReplaceByAddRaw(hashFunction, model, Pair(key, val));
      entry, existing, table, j := AddRaw(key);
      hide Footprint;
      if entry == null {
        return false;
      }
      AddThenSet(hashFunction, old(model), key, entry.val, val);
      KnownEntry(table, key, j, entry);
      SetVal(entry, val, table, j);
      return true;
    }

    lemma KnownEntry(table: nat, key: Key, j: nat, he: Entry)
      requires At(table, key, j, he)
      ensures he in repr && he.key == key
    {
    }

    /** dictReplace; the entry to overwrite exists whenever the key was not added. */
    method Replace(key: Key, val: Value) returns (isNew: bool)
      requires Valid() && model.Used() < DictRuns.MAX_KEYS
      modifies Footprint()
      ensures Valid() && old(repr) <= repr && fresh(Footprint() - old(Footprint()))
      ensures old(iterators) > 0 ==> Stay(old(nodes0), old(nodes1), nodes0, nodes1, null)
      ensures DictModel.Replace(hashFunction, old(model), Pair(key, val)) == (model, isNew)
    {
      var entry, existing, table;
      ghost var j;
      hide Inv, Linked, DictModel.RehashStep, FindIndex, SetExisting, At, Insert, DictModel.AddRaw, DictModel.Replace, Stay;
      TablesNonEmpty();
      ReplaceByAddRaw(hashFunction, model, Pair(key, val));
      entry, existing, table, j := AddRaw(key);
      hide Footprint;
      if entry != null {
        AddThenSet(hashFunction, old(model), key, entry.val, val);
        KnownEntry(table, key, j, entry);
        SetVal(entry, val, table, j);
        return true;
      }
      KnownEntry(table, key, j, existing);
      SetVal(existing, val, table, j);
      return false;
    }

    /** `prevHe->next = he->next` or `table[idx] = he->next`, then `used--`, in ht[0]. */
    method RemoveFromOld(idx: nat, he: Entry, prevHe: Entry?, ghost j: nat, ghost t: Table)
      requires Linked() && ht0.table != null && idx < |nodes0| == model.ht0.Size()
      requires j < |nodes0[idx]| == |model.ht0.buckets[idx]| && nodes0[idx][j] == he && model.ht0.used > 0
      requires prevHe == if j == 0 then null else nodes0[idx][j - 1]
      requires t == Table(Without(model.ht0.buckets, idx, j), model.ht0.used - 1)
      modifies this, ht0.table, prevHe
      ensures Linked() && repr == old(repr) && ht0.table == old(ht0.table) && ht1.table == old(ht1.table)
      ensures nodes0 == Without(old(nodes0), idx, j) && nodes1 == old(nodes1)
      ensures model == old(model).(ht0 := t) && he.val == old(he.val)
    {
      ArrayLength(0);
      hide BucketsLinkedExcept, Without, Within;
      ghost var nodes, buckets := nodes0, model.ht0.buckets;
      nodes0, ht0, model := Without(nodes, idx, j), ht0.(used := ht0.used - 1), model.(ht0 := t);
      UnlinkAt(ht0.table, idx, he, prevHe, nodes, buckets, ht1.table, nodes1, model.ht1.buckets, repr, j);
      MakeLinked();
      hide *;
    }

    /** The same in ht[1]. */
    method RemoveFromNew(idx: nat, he: Entry, prevHe: Entry?, ghost j: nat, ghost t: Table)
      requires Linked() && ht1.table != null && idx < |nodes1| == model.ht1.Size()
      requires j < |nodes1[idx]| == |model.ht1.buckets[idx]| && nodes1[idx][j] == he && model.ht1.used > 0
      requires prevHe == if j == 0 then null else nodes1[idx][j - 1]
      requires t == Table(Without(model.ht1.buckets, idx, j), model.ht1.used - 1)
      modifies this, ht1.table, prevHe
      ensures Linked() && repr == old(repr) && ht0.table == old(ht0.table) && ht1.table == old(ht1.table)
      ensures nodes1 == Without(old(nodes1), idx, j) && nodes0 == old(nodes0)
      ensures model == old(model).(ht1 := t) && he.val == old(he.val)
    {
      ArrayLength(1);
      hide BucketsLinkedExcept, Without, Within;
      ghost var nodes, buckets := nodes1, model.ht1.buckets;
      nodes1, ht1, model := Without(nodes, idx, j), ht1.(used := ht1.used - 1), model.(ht1 := t);
      UnlinkAt(ht1.table, idx, he, prevHe, nodes, buckets, ht0.table, nodes0, model.ht0.buckets, repr, j);
      MakeLinked();
      hide *;
    }

    lemma RemovedBucket(table: nat, key: Key, j: nat, he: Entry)
      requires TableOk(hashFunction, ModelOf(table)) && table <= 1 && At(table, key, j, he)
      ensures var t, idx := ModelOf(table), Slot(hashFunction(key), ModelOf(table).Size());
        && t.Size() > 0 && t.used > 0 && |NodesOf(table)| == t.Size()
        && j < |NodesOf(table)[idx]| == |t.buckets[idx]| && NodesOf(table)[idx][j] == he && he in repr
        && RemoveFrom(hashFunction, t, key) == Table(Without(t.buckets, idx, j), t.used - 1)
    {
      var t, idx := ModelOf(table), Slot(hashFunction(key), ModelOf(table).Size());
      FindPlace(NodesOf(table)[idx], t.buckets[idx], j, key);
      RemoveOk(hashFunction, t, key);
    }

    /** The loop over the tables in dictGenericDelete. */
    method SearchBoth(key: Key) returns (table: nat, idx: nat, he: Entry?, prevHe: Entry?, ghost j: nat)
      requires Valid() && model.ht0.Size() > 0 && (model.Rehashing() ==> model.ht1.Size() > 0)
      ensures table <= 1 && (table == 1 ==> model.Rehashing() && DictModel.Lookup(hashFunction, model.ht0, key) == None)
      ensures he == null ==> LookupBoth(hashFunction, model, key) == None
      ensures he != null ==> At(table, key, j, he) && DictModel.Lookup(hashFunction, ModelOf(table), key) == Some(he.val)
      ensures he != null ==> idx == Slot(hashFunction(key), ModelOf(table).Size())
      ensures he != null ==> prevHe == if j == 0 then null else NodesOf(table)[idx][j - 1]
    {
      hide Inv, DictModel.Lookup, Slot, At, Linked;
      TablesNonEmpty();
      table := 0;
      idx, he, prevHe, j := SearchTable(0, key);
      if he == null && IsRehashing() {
        table := 1;
        idx, he, prevHe, j := SearchTable(1, key);
      }
    }

    /** dictGenericDelete after the rehash step. */
    method RemoveKey(key: Key) returns (he: Entry?)
      requires Valid() && model.ht0.Size() > 0 && (model.Rehashing() ==> model.ht1.Size() > 0)
      modifies Footprint()
      ensures Linked() && repr == old(repr) && Footprint() == old(Footprint()) && (he != null ==> he.key == key)
      ensures Stay(old(nodes0), old(nodes1), nodes0, nodes1, he)
      ensures he == null ==> LookupBoth(hashFunction, old(model), key) == None && model == old(model)
      ensures he != null && DictModel.Lookup(hashFunction, old(model).ht0, key).Some? ==>
        && DictModel.Lookup(hashFunction, old(model).ht0, key) == Some(he.val)
        && model == old(model).(ht0 := RemoveFrom(hashFunction, old(model).ht0, key))
      ensures he != null && DictModel.Lookup(hashFunction, old(model).ht0, key).None? ==>
        && old(model).Rehashing() && DictModel.Lookup(hashFunction, old(model).ht1, key) == Some(he.val)
        && old(model).ht1.Size() > 0 && model == old(model).(ht1 := RemoveFrom(hashFunction, old(model).ht1, key))
    {
      StaySame(nodes0, nodes1, null);
      hide Inv, DictModel.Lookup, RemoveFrom, Linked, Slot, At, LookupBoth, Stay;
      var table, idx, prevHe;
      ghost var j;
      table, idx, he, prevHe, j := SearchBoth(key);
      if he != null {
        KnownEntry(table, key, j, he);
        PreviousKnown(table, key, j, he);
        RemoveFound(table, key, idx, he, prevHe, j);
      }
    }

    /** dictGenericDelete */
    method GenericDelete(key: Key) returns (he: Entry?)
      requires Valid()
      modifies Footprint()
      ensures Valid() && repr == old(repr) && Footprint() <= old(Footprint())
      ensures DictModel.Delete(hashFunction, old(model), key) == (model, if he == null then None else Some(he.val))
      ensures he != null ==> he.key == key
      ensures old(iterators) > 0 ==> Stay(old(nodes0), old(nodes1), nodes0, nodes1, he)
    {
      TablesNonEmpty();
      StaySame(nodes0, nodes1, null);
      DictRuns.DeleteOk(hashFunction, model, key);
      DeleteBySearch(hashFunction, model, key);
      RehashStepOk(hashFunction, model);
      hide Inv, DictModel.Lookup, DictModel.RehashStep, RemoveFrom, Linked, LookupBoth, DictModel.Delete, Stay;
      if UsedUp() {
        return null;
      }
      RehashStep();
      TablesNonEmpty();
      he := RemoveKey(key);
    }

    predicate UsedUp()
      reads this
    {
      ht0.used == 0 && ht1.used == 0
    }

    lemma PreviousKnown(table: nat, key: Key, j: nat, he: Entry)
      requires Linked() && table <= 1 && At(table, key, j, he)
      ensures var t, nodes := ModelOf(table), NodesOf(table);
        && t.Size() > 0 && |nodes| == t.Size() && j < |nodes[Slot(hashFunction(key), t.Size())]|
        && (j > 0 ==> nodes[Slot(hashFunction(key), t.Size())][j - 1] in repr)
    {
    }

    method RemoveFound(table: nat, key: Key, idx: nat, he: Entry, prevHe: Entry?, ghost j: nat)
      requires Valid() && table <= 1 && At(table, key, j, he)
      requires idx == Slot(hashFunction(key), ModelOf(table).Size())
      requires prevHe == if j == 0 then null else NodesOf(table)[idx][j - 1]
      modifies this, ht0.table, ht1.table, prevHe
      ensures Linked() && repr == old(repr) && he.val == old(he.val)
      ensures ht0.table == old(ht0.table) && ht1.table == old(ht1.table)
      ensures Stay(old(nodes0), old(nodes1), nodes0, nodes1, he)
      ensures table == 0 ==> model == old(model).(ht0 := RemoveFrom(hashFunction, old(model).ht0, key))
      ensures table == 1 ==> model == old(model).(ht1 := RemoveFrom(hashFunction, old(model).ht1, key))
    {
      RemovedBucket(table, key, j, he);
      StayWithout(nodes0, nodes1, idx, j);
      ArrayLength(table);
      hide Inv, At, RemoveFrom, Linked, Slot, Without, Stay;
      if table == 0 {
        RemoveFromOld(idx, he, prevHe, j, RemoveFrom(hashFunction, model.ht0, key));
      } else {
        RemoveFromNew(idx, he, prevHe, j, RemoveFrom(hashFunction, model.ht1, key));
      }
    }

    /** `while (de) { fn(privdata, de); de = next; }`: what the callback is given. */
    method EmitBucket(table: nat, idx: nat) returns (out: seq<Pair>)
      requires Valid() && table <= 1 && idx < ModelOf(table).Size()
      ensures Valid() && out == ModelOf(table).buckets[idx]
    {
      hide Inv;
      ArrayLength(table);
      var a := if table == 0 then ht0.table else ht1.table;
      ghost var c, p, j := NodesOf(table)[idx], ModelOf(table).buckets[idx], 0;
      assert ChainLinked(a, idx, c, p);
      hide Linked, BucketsLinkedExcept;
      var de := a[idx];
      out := [];
      while de != null
        invariant Linked() && j <= |c| && de == EntryAt(c, j) && out == p[..j]
        decreases |c| - j
      {
        assert LinkOk(a, idx, c, p, j);
        out := out + [Pair(de.key, de.val)];
        de := de.next;
        j := j + 1;
      }
      assert p[..j] == p;
    }

    /** The do-while loop of dictScan over the larger table. */
    method ScanExpansions(table: nat, v0: Word, m0: Word, m1: Word, ghost k0: nat) returns (v: Word, out: seq<Pair>)
      requires Valid() && table <= 1 && PowerSize(ModelOf(table).Size())
      requires k0 <= ScanModel.Rank(ModelOf(table).Size()) <= WIDTH
      requires m0 == LowMask(k0) && m1 == MaskOf(ModelOf(table).Size())
      ensures var (slots, last) := ScanModel.Expansions(ModelOf(table).Size(), v0, k0);
        Valid() && v == last && out == ScanModel.Gather(ModelOf(table), slots)
    {
      hide Inv, Linked, PowerSize, Slot, LowMask, MaskOf, ScanModel.NextExpansion, ScanModel.Rank, Pow2, And, Xor;
      ghost var t, size := ModelOf(table), ModelOf(table).Size();
      ghost var k1 := ScanModel.Rank(size);
      v, out := v0, [];
      var again := true;
      while again
        invariant Valid()
        invariant again ==> out + ScanModel.Gather(t, ScanModel.Expansions(size, v, k0).0) == ScanModel.Gather(t, ScanModel.Expansions(size, v0, k0).0)
        invariant again ==> ScanModel.Expansions(size, v, k0).1 == ScanModel.Expansions(size, v0, k0).1
        invariant !again ==> out == ScanModel.Gather(t, ScanModel.Expansions(size, v0, k0).0) && v == ScanModel.Expansions(size, v0, k0).1
        decreases again, Pow2(k1 - k0) - ScanModel.Middle(v, k0, k1)
      {
        var idx := ToNat(And(v, m1));
        SlotInRange(v, size);
        var es := EmitBucket(table, idx);
        var v' := Or(And(Increment(Or(v, m0)), Not(m0)), And(v, m0));
        ExpansionStep(t, v, k0);
        assert v' == ScanModel.NextExpansion(v, LowMask(k0)) by { UnfoldNextExpansion(v, m0); }
        again := And(v', Xor(m0, m1)) != ZERO;
        if again {
          AppendAssociates(out, es, ScanModel.Gather(t, ScanModel.Expansions(size, v', k0).0));
        }
        out, v := out + es, v';
      }
    }

    lemma SlotInRange(v: Word, size: nat)
      requires PowerSize(size)
      ensures ToNat(And(v, MaskOf(size))) == Slot(v, size) < size
    {
      ScanModel.PowerRank(size);
    }

    lemma UnfoldNextExpansion(v: Word, m0: Word)
      ensures Or(And(Increment(Or(v, m0)), Not(m0)), And(v, m0)) == ScanModel.NextExpansion(v, m0)
    {
    }

    lemma AppendAssociates(a: seq<Pair>, b: seq<Pair>, c: seq<Pair>)
      ensures a + b + c == a + (b + c)
    {
    }

    /** One turn of the loop, on the model. */
    lemma ExpansionStep(t: Table, v: Word, k0: nat)
      requires PowerSize(t.Size()) && k0 <= ScanModel.Rank(t.Size()) <= WIDTH
      ensures Slot(v, t.Size()) < t.Size()
      ensures var v' := ScanModel.NextExpansion(v, LowMask(k0)); var k1 := ScanModel.Rank(t.Size());
        var (slots, last) := ScanModel.Expansions(t.Size(), v, k0);
        && (And(v', Xor(LowMask(k0), MaskOf(t.Size()))) == ZERO ==>
             ScanModel.Gather(t, slots) == t.buckets[Slot(v, t.Size())] && last == v')
        && (And(v', Xor(LowMask(k0), MaskOf(t.Size()))) != ZERO ==>
             && ScanModel.Gather(t, slots) == t.buckets[Slot(v, t.Size())] + ScanModel.Gather(t, ScanModel.Expansions(t.Size(), v', k0).0)
             && last == ScanModel.Expansions(t.Size(), v', k0).1
             && Pow2(k1 - k0) - ScanModel.Middle(v', k0, k1) < Pow2(k1 - k0) - ScanModel.Middle(v, k0, k1)
             && ScanModel.Middle(v', k0, k1) < Pow2(k1 - k0))
    {
      hide Slot, LowMask, MaskOf, Pow2, ScanModel.Middle, PowerSize, ScanModel.Rank, And, Xor, ScanModel.NextExpansion;
      ScanModel.PowerRank(t.Size());
      var k1 := ScanModel.Rank(t.Size());
      var v' := ScanModel.NextExpansion(v, LowMask(k0));
      ScanModel.NextExpansionMiddle(v, k0, k1);
      ScanModel.NextExpansionMiddle(v', k0, k1);
      ScanModel.NoMiddleBits(v', k0, k1);
      var slots := ScanModel.Expansions(t.Size(), v, k0).0;
      assert slots[0] == Slot(v, t.Size());
      if And(v', Xor(LowMask(k0), MaskOf(t.Size()))) == ZERO {
        assert slots[1..] == [];
      } else {
        assert slots[1..] == ScanModel.Expansions(t.Size(), v', k0).0;
      }
    }

    /** dictScan: the entries handed to the callback, and the next cursor. */
    method Scan(v0: Word) returns (v: Word, out: seq<Pair>)
      requires Valid()
      ensures (v, out) == ScanModel.Scan(hashFunction, model, v0)
    {
      TablesNonEmpty();
      if ht0.used + ht1.used == 0 {
        return ZERO, [];
      }
      ScanModel.NonEmptyTables(hashFunction, model);
      TableSizes();
      hide Inv, Linked, LowMask, MaskOf, Slot, PowerSize, ScanModel.Rank, ScanModel.Expansions, ScanModel.Gather;
      v := v0;
      var m0;
      if !IsRehashing() {
        ScanModel.PowerRank(ht0.size);
        m0 := ht0.sizemask;
        SlotInRange(v, ht0.size);
        out := EmitBucket(0, ToNat(And(v, m0)));
      } else {
        var t0, t1 := 0, 1;
        if ht0.size > ht1.size {
          t0, t1 := 1, 0;
        }
        m0 := if t0 == 0 then ht0.sizemask else ht1.sizemask;
        var m1 := if t1 == 0 then ht0.sizemask else ht1.sizemask;
        ghost var size0, size1 := ModelOf(t0).Size(), ModelOf(t1).Size();
        ScanModel.PowerRank(size0);
        ScanModel.PowerRank(size1);
        ScanModel.RankMonotone(size0, size1);
        SlotInRange(v, size0);
        var first := EmitBucket(t0, ToNat(And(v, m0)));
        var rest;
        v, rest := ScanExpansions(t1, v, m0, m1, ScanModel.Rank(size0));
        out := first + rest;
      }
      v := Or(v, Not(m0));
      v := Rev(v);
      v := Increment(v);
      v := Rev(v);
    }

    lemma TableSizes()
      requires Linked()
      ensures ht0.size == model.ht0.Size() && ht0.sizemask == MaskOf(ht0.size)
      ensures ht1.size == model.ht1.Size() && ht1.sizemask == MaskOf(ht1.size)
    {
    }
  }

  /** dictGenericDelete in terms of where the search after the rehash step ends. */
  lemma DeleteBySearch(h: HashFunction, s: State, key: Key)
    requires Shaped(s)
    ensures s.ht0.used == 0 && s.ht1.used == 0 ==> DictModel.Delete(h, s, key) == (s, None)
    ensures !(s.ht0.used == 0 && s.ht1.used == 0) ==>
      var s1, d := DictModel.RehashStep(h, s), DictModel.Delete(h, s, key);
      && (LookupBoth(h, s1, key) == None ==> d == (s1, None))
      && (Lookup(h, s1.ht0, key).Some? ==>
          && s1.ht0.Size() > 0
          && d == (s1.(ht0 := RemoveFrom(h, s1.ht0, key)), Lookup(h, s1.ht0, key)))
      && (s1.Rehashing() && Lookup(h, s1.ht0, key).None? && Lookup(h, s1.ht1, key).Some? ==>
          && s1.ht1.Size() > 0
          && d == (s1.(ht1 := RemoveFrom(h, s1.ht1, key)), Lookup(h, s1.ht1, key)))
  {
  }

  lemma ReplaceByAddRaw(h: HashFunction, s: State, p: Pair)
    requires Shaped(s)
    ensures FindIndex(h, DictModel.RehashStep(h, s), p.key).1 == Existing ==>
      DictModel.AddRaw(h, s, p) == FindIndex(h, DictModel.RehashStep(h, s), p.key)
    ensures DictModel.AddRaw(h, s, p).1 == Free ==> DictModel.Replace(h, s, p) == (DictModel.AddRaw(h, s, p).0, true)
    ensures FindIndex(h, DictModel.RehashStep(h, s), p.key).1 == Existing ==>
      DictModel.Replace(h, s, p) == (SetExisting(h, FindIndex(h, DictModel.RehashStep(h, s), p.key).0, p), false)
  {
  }

  /** Setting the value after dictAddRaw is adding with that value. */
  lemma AddThenSet(h: HashFunction, s: State, key: Key, v0: Value, v: Value)
    requires Inv(h, s) && s.Used() < DictRuns.MAX_KEYS
    requires DictModel.AddRaw(h, s, Pair(key, v0)).1 == Free
    ensures DictModel.AddRaw(h, s, Pair(key, v)) == (SetExisting(h, DictModel.AddRaw(h, s, Pair(key, v0)).0, Pair(key, v)), Free)
  {
    var (s1, idx) := FindIndex(h, DictModel.RehashStep(h, s), key);
    DictRuns.FindIndexOk(h, s, key);
    SetAfterInsert(h, s1, key, v0, v);
  }

  lemma SetAfterInsert(h: HashFunction, s: State, key: Key, v0: Value, v: Value)
    requires Inv(h, s) && LookupBoth(h, s, key).None?
    requires if s.Rehashing() then s.ht1.Size() > 0 else s.ht0.Size() > 0
    ensures SetExisting(h, Insert(h, s, Pair(key, v0)), Pair(key, v)) == Insert(h, s, Pair(key, v))
  {
    var t := if s.Rehashing() then s.ht1 else s.ht0;
    var b := Bucket(h, t, key);
    var c := [Pair(key, v0)] + b;
    assert DictModel.SetVal(c, key, v) == [Pair(key, v)] + b;
    assert Lookup(h, Push(h, t, Pair(key, v0)), key).Some?;
    assert Bucket(h, Push(h, t, Pair(key, v0)), key) == c;
  }
}
