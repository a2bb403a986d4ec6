/** dictNext and dictReleaseIterator on the linked heap, each proved to compute its function in SafeIteration. */
module DictIterator {
  import opened Words
  import opened DictModel
  import opened DictInvariant
  import SafeIteration
  import Dict

  /** `dictIterator` */
  class DictIter {
    const d: Dict.Dict
    const safe: bool
    var table: nat
    var index: int
    var entry: Dict.Entry?
    var nextEntry: Dict.Entry?

    function KeyOf(e: Dict.Entry?): Option<Key> {
      if e == null then None else Some(e.key)
    }

    ghost function Model(): SafeIteration.Iter
      reads this
    {
      SafeIteration.Iter(table, index, safe, KeyOf(entry), KeyOf(nextEntry))
    }

    /** Standing on an entry, the iterator is inside its table, and nextEntry is in the current bucket. */
    ghost predicate Placed()
      reads this, d
    {
      && table <= 1 && index >= -1 && (index == -1 ==> table == 0 && entry == null)
      && (table == 1 ==> d.IsRehashing())
      && (entry != null ==>
            && index < d.ModelOf(table).Size() == |d.NodesOf(table)|
            && (nextEntry != null ==> nextEntry in d.NodesOf(table)[index]))
    }

    /** dictGetIterator and dictGetSafeIterator */
    constructor (d: Dict.Dict, safe: bool)
      requires d.Valid()
      ensures this.d == d && Placed() && Model() == SafeIteration.GetIterator(safe)
    {
      this.d, this.safe, table, index, entry, nextEntry := d, safe, 0, -1, null, null;
    }

    /** An entry of the current bucket, its place in the model's chain, and its successor. */
    lemma EntryPlace(e: Dict.Entry)
      requires d.Valid() && table <= 1 && 0 <= index < d.ModelOf(table).Size() == |d.NodesOf(table)|
      requires e in d.NodesOf(table)[index]
      ensures var p, c := d.ModelOf(table).buckets[index], d.NodesOf(table)[index];
        var n := SafeIteration.Place(p, e.key);
        && n < |p| == |c| && c[n] == e && e.next == Dict.EntryAt(c, n + 1)
        && SafeIteration.KeyAt(p, n + 1) == KeyOf(e.next)
    {
      hide Inv, Dict.Dict.Linked, SafeIteration.Place, Dict.ChainLinked;
      var p, c := d.ModelOf(table).buckets[index], d.NodesOf(table)[index];
      BucketLinked();
      var n :| 0 <= n < |c| && c[n] == e;
      LinkedPlace(if table == 0 then d.ht0.table else d.ht1.table, c, p, n);
    }

    lemma LinkedPlace(a: array<Dict.Entry?>, c: seq<Dict.Entry>, p: Chain, n: nat)
      requires 0 <= index < a.Length && Dict.ChainLinked(a, index, c, p) && Distinct(p) && n < |c|
      ensures SafeIteration.Place(p, c[n].key) == n < |p| == |c| && c[n].next == Dict.EntryAt(c, n + 1)
      ensures SafeIteration.KeyAt(p, n + 1) == KeyOf(c[n].next)
    {
      assert Dict.LinkOk(a, index, c, p, n);
      SafeIteration.PlaceDistinct(p, n);
      if n + 1 < |c| {
        assert Dict.LinkOk(a, index, c, p, n + 1);
      }
    }

    /** The current bucket's chain in the heap is the model's, whose keys are distinct. */
    lemma BucketLinked()
      requires d.Valid() && table <= 1 && 0 <= index < d.ModelOf(table).Size() == |d.NodesOf(table)|
      ensures var a := if table == 0 then d.ht0.table else d.ht1.table;
        && a != null && index < a.Length
        && Dict.ChainLinked(a, index, d.NodesOf(table)[index], d.ModelOf(table).buckets[index])
        && Distinct(d.ModelOf(table).buckets[index])
    {
      hide InBucket, Distinct;
    }

    lemma CurrentHead()
      requires d.Valid() && table <= 1 && 0 <= index < d.ModelOf(table).Size()
      ensures var a := if table == 0 then d.ht0.table else d.ht1.table;
        && a != null && index < a.Length && |d.NodesOf(table)| == d.ModelOf(table).Size()
        && a[index] == Dict.EntryAt(d.NodesOf(table)[index], 0)
        && KeyOf(a[index]) == SafeIteration.KeyAt(d.ModelOf(table).buckets[index], 0)
    {
      var p, c := d.ModelOf(table).buckets[index], d.NodesOf(table)[index];
      var a := if table == 0 then d.ht0.table else d.ht1.table;
      assert Dict.ChainLinked(a, index, c, p);
      if c != [] {
        assert Dict.LinkOk(a, index, c, p, 0);
      }
    }

    lemma NextInBucket(e: Dict.Entry)
      requires d.Valid() && table <= 1 && 0 <= index < d.ModelOf(table).Size() == |d.NodesOf(table)|
      requires e in d.NodesOf(table)[index]
      ensures e.next != null ==> e.next in d.NodesOf(table)[index]
    {
      EntryPlace(e);
      hide Dict.Dict.Linked, Inv;
    }

    /** `iter->nextEntry = iter->entry->next` */
    method Enter()
      requires d.Valid() && table <= 1 && (table == 1 ==> d.IsRehashing())
      requires 0 <= index < d.ModelOf(table).Size() == |d.NodesOf(table)|
      requires entry != null ==> entry in d.NodesOf(table)[index]
      modifies this`nextEntry
      ensures Placed() && Model() == SafeIteration.Enter(d.model, old(Model()))
    {
      hide Dict.Dict.Linked, Inv, SafeIteration.Place;
      if entry != null {
        EntryPlace(entry);
        NextInBucket(entry);
        nextEntry := entry.next;
      }
    }

    /** `iter->index++` and the tests after it; true means the loop is left. */
    method StepIndex() returns (end: bool)
      requires d.Valid() && Placed() && entry == null
      modifies this`index, this`table
      ensures d.Valid() && table <= 1 && index >= 0 && (table == 1 ==> d.IsRehashing())
      ensures !end ==> index < d.ModelOf(table).Size()
      ensures var t, i, s := old(table), old(index) + 1, d.model;
        && end == (i >= SafeIteration.TableOf(s, t).Size() && !(s.Rehashing() && t == 0))
        && (if i < SafeIteration.TableOf(s, t).Size() || end then table == t && index == i else table == 1 && index == 0)
    {
      d.TableSizes();
      d.TablesNonEmpty();
      hide Inv;
      index := index + 1;
      if index >= (if table == 0 then d.ht0.size else d.ht1.size) {
        if d.IsRehashing() && table == 0 {
          table := table + 1;
          index := 0;
        } else {
          return true;
        }
      }
      return false;
    }

    /** `iter->entry = ht->table[iter->index]`, and on to the test of `iter->entry`. */
    method EnterBucket()
      requires d.Valid() && table <= 1 && 0 <= index < d.ModelOf(table).Size() && (table == 1 ==> d.IsRehashing())
      modifies this`entry, this`nextEntry
      ensures d.Valid() && Placed()
      ensures var it := old(Model());
        Model() == SafeIteration.Enter(d.model, it.(entry := SafeIteration.KeyAt(SafeIteration.CurrentBucket(d.model, it), 0)))
    {
      hide SafeIteration.Enter, SafeIteration.Place, Inv, Dict.TableLinked, Dict.Within;
      CurrentHead();
      entry := if table == 0 then d.ht0.table[index] else d.ht1.table[index];
      Enter();
    }

    /** A turn that stands on no entry. */
    method TurnToBucket() returns (end: bool)
      requires d.Valid() && Placed() && entry == null
      modifies this, d`iterators, d`model
      ensures d.Valid() && Placed() && (d.model, Model(), end) == SafeIteration.Turn(old(d.model), old(Model()))
    {
      hide Inv, SafeIteration.Enter, Dict.Dict.Linked;
      if index == -1 && table == 0 && safe {
        CountIn();
      }
      end := StepIndex();
      if !end {
        EnterBucket();
      }
    }

    /** A turn that stands on an entry. */
    method TurnOnEntry()
      requires d.Valid() && Placed() && entry != null
      modifies this
      ensures d.Valid() && Placed() && table == old(table) && index == old(index)
      ensures Model() == SafeIteration.Enter(d.model, old(Model()).(entry := old(Model()).nextEntry))
    {
      hide Inv, SafeIteration.Enter;
      d.TableSizes();
      entry := nextEntry;
      Enter();
    }

    /** One turn of the loop of dictNext. */
    method Turn() returns (end: bool)
      requires d.Valid() && Placed()
      modifies this, d`iterators, d`model
      ensures d.Valid() && Placed() && (d.model, Model(), end) == SafeIteration.Turn(old(d.model), old(Model()))
    {
      hide Inv, SafeIteration.Enter, Dict.Dict.Linked;
      if entry == null {
        end := TurnToBucket();
      } else {
        TurnOnEntry();
        end := false;
      }
    }

    /** `iter->d->iterators++` */
    method CountIn()
      requires d.Valid()
      modifies d`iterators, d`model
      ensures d.Valid() && d.model == old(d.model).(iterators := old(d.model).iterators + 1)
    {
      d.iterators := d.iterators + 1;
      d.model := d.model.(iterators := d.iterators);
    }

    /** dictNext */
    method Next() returns (e: Dict.Entry?)
      requires d.Valid() && Placed()
      modifies this, d`iterators, d`model
      ensures d.Valid() && Placed() && (d.model, Model(), KeyOf(e)) == SafeIteration.Next(old(d.model), old(Model()))
    {
      hide Inv, Dict.Dict.Linked, SafeIteration.Turn, SafeIteration.Enter;
      while true
        invariant d.Valid() && Placed()
        invariant SafeIteration.Next(d.model, Model()) == SafeIteration.Next(old(d.model), old(Model()))
        decreases 1 - table, SafeIteration.TableOf(d.model, table).Size() - index, if entry != null then 1 else 0
      {
        SafeIteration.TurnDescends(d.model, Model());
        var end := Turn();
        if end {
          return null;
        }
        if entry != null {
          return entry;
        }
      }
    }

    // ----------------------------------------------------------------------- calls of the caller in between

    /** The pointers of a sound iterator are right when the chain it stands in holds nextEntry. */
    lemma PlacedAgain()
      requires d.Valid() && SafeIteration.IterOk(d.model, Model())
      requires entry != null && nextEntry != null ==> Dict.Among(nextEntry, d.nodes0, d.nodes1)
      ensures Placed()
    {
      hide Inv, Dict.Dict.Linked;
      d.NodesSizes();
      if entry != null && nextEntry != null {
        var t, i, j := d.FindAmong(nextEntry);
        SafeIteration.ResidentIsHome(d.hashFunction, d.model, t, i, j);
        var c := SafeIteration.CurrentBucket(d.model, Model());
        SafeIteration.ResidentIsHome(d.hashFunction, d.model, table, index, SafeIteration.Place(c, nextEntry.key));
      }
    }

    /** nextEntry is in a chain. */
    lemma NextAmong()
      requires d.Valid() && Placed() && entry != null && nextEntry != null
      ensures Dict.Among(nextEntry, d.nodes0, d.nodes1)
    {
    }

    /** Between two calls: the dictionary is linked, the iterator sound and, once started, counted in. */
    ghost predicate Ready()
      reads this, d, d.repr, d.ht0.table, d.ht1.table
    {
      d.Valid() && Placed() && SafeIteration.Standing(d.hashFunction, d.model, Model())
    }

    /** What the caller's call makes of the dictionary and the iterator. */
    ghost function Stepped(op: SafeIteration.CallerOp): (State, SafeIteration.Iter)
      requires Ready()
      reads this, d, d.repr, d.ht0.table, d.ht1.table
    {
      SafeIteration.CallerStep(d.hashFunction, d.model, Model(), op)
    }

    /** The dictionary after a call other than dictNext: where the iterator goes next is still there. */
    lemma ReadyAgain(s: State, op: SafeIteration.CallerOp)
      requires d.Valid() && SafeIteration.Standing(d.hashFunction, s, Model())
      requires op != SafeIteration.Advance && SafeIteration.CallBounded(s, op)
      requires d.model == SafeIteration.CallerStep(d.hashFunction, s, Model(), op).0
      requires entry != null && nextEntry != null ==> Dict.Among(nextEntry, d.nodes0, d.nodes1)
      ensures Ready() && SafeIteration.CallerStep(d.hashFunction, s, Model(), op) == (d.model, Model())
    {
      SafeIteration.CallerStepSound(d.hashFunction, s, Model(), op);
      hide Dict.Dict.Linked, Inv, SafeIteration.CallerStep, Placed;
      PlacedAgain();
    }

    /** What is known of nextEntry. */
    lemma LookNext()
      requires Ready()
      ensures entry != null && nextEntry != null ==>
        Dict.Among(nextEntry, d.nodes0, d.nodes1) && entry.key != nextEntry.key && d.iterators > 0
    {
      hide Inv, Dict.Dict.Linked;
      d.NodesSizes();
      if entry != null && nextEntry != null {
        NextAmong();
      }
    }

    /** dictNext of a sound iterator. */
    method Advance() returns (e: Dict.Entry?)
      requires Ready()
      modifies this, d`iterators, d`model
      ensures Ready() && d.Footprint() == old(d.Footprint()) && (d.model, Model()) == old(Stepped(SafeIteration.Advance))
      ensures KeyOf(e) == SafeIteration.Next(old(d.model), old(Model())).2
    {
      SafeIteration.NextSound(d.hashFunction, d.model, Model());
      hide Inv, Dict.Dict.Linked, SafeIteration.Next, SafeIteration.Standing;
      e := Next();
    }

    /** No dictionary operation writes to the iterator. */
    lemma Outside()
      ensures this !in d.Footprint()
    {
    }

    /** What a call other than dictNext does to the dictionary. */
    lemma LookCall(op: SafeIteration.CallerOp)
      requires Ready() && op != SafeIteration.Advance
      ensures d.Valid() && Shaped(d.model) && Stepped(op).0 == Interrupted(d.hashFunction, d.model, op, KeyOf(entry))
    {
      hide AddRaw, Replace, FindOp, Delete, Dict.Dict.Linked;
    }

    /** A call other than dictNext. */
    method Interrupt(op: SafeIteration.CallerOp)
      requires Ready() && op != SafeIteration.Advance && SafeIteration.CallBounded(d.model, op)
      modifies d.Footprint()
      ensures Ready() && fresh(d.Footprint() - old(d.Footprint())) && (d.model, Model()) == old(Stepped(op))
    {
      Outside();
      LookNext();
      LookCall(op);
      LookReady();
      LookStepped(op);
      hide Ready, Stepped, SafeIteration.Standing, Dict.Dict.Valid, SafeIteration.CallerStep, SafeIteration.CallBounded, Dict.Among,
        Dict.Stay, Interrupted;
      ghost var s := d.model;
      ghost var next := if entry == null then null else nextEntry;
      Perform(d, op, KeyOf(entry), next);
      ReadyAgain(s, op);
    }

    /** One call of the iterating caller. */
    method Call(op: SafeIteration.CallerOp) returns (e: Dict.Entry?)
      requires Ready() && SafeIteration.CallBounded(d.model, op)
      modifies this, d.Footprint()
      ensures Ready() && fresh(d.Footprint() - old(d.Footprint())) && (d.model, Model()) == old(Stepped(op))
      ensures op == SafeIteration.Advance ==> KeyOf(e) == SafeIteration.Next(old(d.model), old(Model())).2
    {
      hide Ready, Stepped, SafeIteration.CallBounded, SafeIteration.Next;
      e := null;
      if op == SafeIteration.Advance {
        e := Advance();
      } else {
        Interrupt(op);
      }
    }

    /** `while ((de = dictNext(iter)) != NULL) …`: the caller's calls in their order, up to the first dictNext that returns
        NULL. */
    method Run(calls: seq<SafeIteration.CallerOp>) returns (keys: seq<Key>, ended: bool)
      requires Ready() && SafeIteration.CallsBounded(d.hashFunction, d.model, Model(), calls)
      modifies this, d.Footprint()
      ensures Ready() && fresh(d.Footprint() - old(d.Footprint()))
      ensures SafeIteration.Others(d.model, Model()) == SafeIteration.Others(old(d.model), old(Model()))
      ensures (keys, ended) == SafeIteration.Iterate(d.hashFunction, old(d.model), old(Model()), calls)
    {
      hide Ready, Inv, Model, KeyOf, Stepped, Dict.Dict.Valid, SafeIteration.Standing, SafeIteration.CallsBounded, SafeIteration.Iterate,
        SafeIteration.Resumed, SafeIteration.CallerStep, SafeIteration.CallBounded, SafeIteration.Next, SafeIteration.Others;
      ghost var h, all := d.hashFunction, SafeIteration.Iterate(d.hashFunction, d.model, Model(), calls);
      SafeIteration.IterateFrom(all);
      assert calls[0..] == calls;
      keys, ended := [], false;
      var i := 0;
      while i < |calls|
        invariant i <= |calls| && Ready() && fresh(d.Footprint() - old(d.Footprint()))
        invariant SafeIteration.Others(d.model, Model()) == SafeIteration.Others(old(d.model), old(Model()))
        invariant SafeIteration.CallsBounded(h, d.model, Model(), calls[i..])
        invariant SafeIteration.Resumed(keys, SafeIteration.Iterate(h, d.model, Model(), calls[i..])) == all
      {
        LookReady();
        LookStepped(calls[i]);
        SafeIteration.IterateStep(h, d.model, Model(), calls[i..], keys);
        SafeIteration.StepSound(h, d.model, Model(), calls[i]);
        assert calls[i..][0] == calls[i] && calls[i..][1..] == calls[i + 1..];
        var e := Call(calls[i]);
        if calls[i] == SafeIteration.Advance {
          LookKey(e);
          if e == null {
            return keys, true;
          }
          keys := keys + [e.key];
        }
        i := i + 1;
      }
      LookReady();
      SafeIteration.IterateNone(h, d.model, Model(), calls[i..], keys);
    }

    lemma LookReady()
      requires Ready()
      ensures d.Valid() && SafeIteration.Standing(d.hashFunction, d.model, Model())
    {
    }

    lemma LookStepped(op: SafeIteration.CallerOp)
      requires Ready()
      ensures Stepped(op) == SafeIteration.CallerStep(d.hashFunction, d.model, Model(), op)
    {
    }

    lemma LookKey(e: Dict.Entry?)
      ensures KeyOf(e) == if e == null then None else Some(e.key)
    {
    }

    /** dictReleaseIterator */
    method Release()
      requires d.Valid() && ((index != -1 || table != 0) && safe ==> d.iterators > 0)
      modifies d`iterators, d`model
      ensures d.Valid() && d.model == SafeIteration.Release(old(d.model), Model())
    {
      hide InBucket, Distinct, Dict.BucketsLinkedExcept, Dict.Within, MaskOf;
      if !(index == -1 && table == 0) && safe {
        d.iterators := d.iterators - 1;
        d.model := d.model.(iterators := d.iterators);
      }
    }
  }

  /** The dictionary after a call other than dictNext, the entry last returned having the key. */
  function Interrupted(h: HashFunction, s: State, op: SafeIteration.CallerOp, last: Option<Key>): State
    requires Shaped(s)
  {
    match op
    case Advance => s
    case AddEntry(p) => AddRaw(h, s, Pair(p.key, p.val)).0
    case PutEntry(p) => Replace(h, s, Pair(p.key, p.val)).0
    case FindEntry(k) => FindOp(h, s, k).0
    case DeleteLast => if last.Some? then Delete(h, s, last.value).0 else s
  }

  /** Such a call; the entry `next`, being another than the one deleted, stays linked. */
  method Perform(d: Dict.Dict, op: SafeIteration.CallerOp, last: Option<Key>, ghost next: Dict.Entry?)
    requires d.Valid() && Shaped(d.model) && op != SafeIteration.Advance && SafeIteration.CallBounded(d.model, op)
    requires next != null ==> d.iterators > 0 && Dict.Among(next, d.nodes0, d.nodes1) && (last.Some? ==> next.key != last.value)
    modifies d.Footprint()
    ensures d.Valid() && fresh(d.Footprint() - old(d.Footprint()))
    ensures d.model == Interrupted(d.hashFunction, old(d.model), op, last)
    ensures next != null ==> Dict.Among(next, d.nodes0, d.nodes1)
  {
    hide Dict.Dict.Valid, Shaped, AddRaw, Replace, FindOp, Delete, Dict.Stay, Dict.Among;
    ghost var n0, n1 := d.nodes0, d.nodes1;
    var he: Dict.Entry? := null;
    match op {
      case AddEntry(p) => var _ := d.Add(p.key, p.val);
      case PutEntry(p) => var _ := d.Replace(p.key, p.val);
      case FindEntry(k) => var _ := d.Find(k);
      case DeleteLast =>
        if last.None? {
          return;
        }
        he := d.GenericDelete(last.value);
    }
    if next != null {
      Dict.StayAmong(next, n0, n1, d.nodes0, d.nodes1, he);
    }
  }

  lemma InvOf(d: Dict.Dict)
    requires d.Valid()
    ensures Inv(d.hashFunction, d.model)
  {
  }

  lemma ReadyAtStart(iter: DictIter)
    requires iter.d.Valid() && iter.Placed() && iter.Model() == SafeIteration.GetIterator(true)
    ensures iter.Ready() && SafeIteration.Others(iter.d.model, iter.Model()) == iter.d.iterators
  {
    SafeIteration.FreshStanding(iter.d.hashFunction, iter.d.model);
  }

  lemma ReadyAtEnd(iter: DictIter)
    requires iter.Ready()
    ensures iter.d.Valid() && iter.safe && ((iter.index != -1 || iter.table != 0) ==> iter.d.iterators > 0)
    ensures SafeIteration.Release(iter.d.model, iter.Model()).iterators == SafeIteration.Others(iter.d.model, iter.Model())
  {
    iter.d.NodesSizes();
    hide Inv, Dict.Dict.Linked;
  }

  /** A whole safe iteration over d with the caller's calls between, and the iterator released: every key that stays in the
      dictionary is returned exactly once when dictNext has reported the end, and no iterator is left counted in. */
  method Iterate(d: Dict.Dict, calls: seq<SafeIteration.CallerOp>) returns (keys: seq<Key>, ended: bool)
    requires d.Valid() && SafeIteration.CallsBounded(d.hashFunction, d.model, SafeIteration.GetIterator(true), calls)
    modifies d.Footprint()
    ensures d.Valid() && fresh(d.Footprint() - old(d.Footprint())) && d.model.iterators == old(d.iterators)
    ensures (keys, ended) == SafeIteration.Iterate(d.hashFunction, old(d.model), SafeIteration.GetIterator(true), calls)
    ensures forall k ::
      ended && SafeIteration.StaysPresent(d.hashFunction, old(d.model), SafeIteration.GetIterator(true), calls, k) ==>
        SafeIteration.Occurrences(keys, k) == 1
  {
    hide SafeIteration.Iterate, SafeIteration.StaysPresent, SafeIteration.Occurrences, SafeIteration.CallsBounded,
      SafeIteration.Others, SafeIteration.Release, Inv, Dict.Dict.Valid, DictIter.Ready, DictIter.Placed, DictIter.Model;
    ghost var h, s := d.hashFunction, d.model;
    InvOf(d);
    var iter := new DictIter(d, true);
    ReadyAtStart(iter);
    keys, ended := iter.Run(calls);
    ReadyAtEnd(iter);
    iter.Release();
    ExactlyOnce(h, s, calls, keys, ended);
  }

  lemma ExactlyOnce(h: HashFunction, s: State, calls: seq<SafeIteration.CallerOp>, keys: seq<Key>, ended: bool)
    requires Inv(h, s) && SafeIteration.CallsBounded(h, s, SafeIteration.GetIterator(true), calls)
    requires (keys, ended) == SafeIteration.Iterate(h, s, SafeIteration.GetIterator(true), calls)
    ensures forall k :: ended && SafeIteration.StaysPresent(h, s, SafeIteration.GetIterator(true), calls, k) ==>
      SafeIteration.Occurrences(keys, k) == 1
  {
    hide *;
    forall k | ended && SafeIteration.StaysPresent(h, s, SafeIteration.GetIterator(true), calls, k)
      ensures SafeIteration.Occurrences(keys, k) == 1
    {
      SafeIteration.SafeIterationExactlyOnce(h, s, calls, k);
    }
  }
}
