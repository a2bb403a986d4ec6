/** memory_pool.c: columns of blocks of one size, each with a stack of its free blocks. The lock makes each region one step. */
module MemoryPool {

  /** memory_pool_colume. Blocks are numbered from the start of the column's memory; an address is a number. */
  class Column {
    const addrStart: int
    const blockLen: nat
    const totalCount: nat
    const header: array<int>
    var remainCount: nat
    /** The numbers of the blocks on the stack, of those handed out, and of those that FREE gave to the system. */
    ghost var stack: seq<nat>
    ghost var live: set<nat>
    ghost var lost: set<nat>
    /** Whether remain_count has ever been 0. */
    ghost var drained: bool

    ghost predicate Valid()
      reads this, header
    {
      && blockLen > 0 && totalCount > 0 && header.Length == totalCount
      && |stack| == remainCount <= totalCount
      && (forall i :: 0 <= i < remainCount ==> header[i] == Address(stack[i]))
      && Partitioned()
      && (forall b :: b in lost ==> !Returns(b)) && (0 in stack ==> stack[0] == 0)
      && (!drained ==> 0 in stack) && (!drained && blockLen > 1 ==> lost == {})
    }

    /** Every block is on the stack once, or handed out, or lost. */
    ghost predicate Partitioned()
      reads this
    {
      && (forall i, j :: 0 <= i < j < |stack| ==> stack[i] != stack[j])
      && (forall b :: b in stack ==> b !in live && b !in lost)
      && live !! lost
      && forall b: nat :: b < totalCount <==> b in stack || b in live || b in lost
    }

    function Address(b: nat): int {
      addrStart + b * blockLen
    }

    /** addr_end: the last byte of the column. */
    function AddrEnd(): int {
      addrStart + blockLen * totalCount - 1
    }

    /** The test of FREE. */
    predicate Recognizes(buffer: int) {
      addrStart < buffer < AddrEnd()
    }

    /** The blocks that FREE finds the column of: all but the base, and but the last one if blocks are one byte long. */
    predicate Returns(b: nat) {
      b != 0 && (blockLen > 1 || b + 1 < totalCount)
    }

    /** The whole column's memory has gone back to the system: the base block's address is what malloc gave for all of it. */
    ghost predicate Released()
      reads this
    {
      0 in lost
    }

    /** MALLOC_INIT for one column */
    constructor (addrStart: int, blockLen: nat, totalCount: nat)
      requires blockLen > 0 && totalCount > 0
      ensures Valid() && fresh(header) && live == {} && lost == {} && remainCount == totalCount && !drained
      ensures this.addrStart == addrStart && this.blockLen == blockLen && this.totalCount == totalCount
    {
      this.addrStart, this.blockLen, this.totalCount := addrStart, blockLen, totalCount;
      remainCount := totalCount;
      var h := new int[totalCount];
      for j := 0 to totalCount
        invariant forall i :: 0 <= i < j ==> h[i] == addrStart + i * blockLen
      {
        h[j] := addrStart + j * blockLen;
      }
      header := h;
      stack := seq(totalCount, i => i);
      live, lost, drained := {}, {}, false;
      new;
      assert forall i :: 0 <= i < totalCount ==> stack[i] == i;
      forall b: nat
        ensures b < totalCount <==> b in stack
      {
        if b < totalCount {
          assert stack[b] == b;
        }
      }
    }

    /** The locked region of MALLOC: the top of the stack is handed out. */
    method Take() returns (buffer: int, ghost b: nat)
      requires Valid() && remainCount > 0
      modifies this
      ensures Valid() && remainCount == old(remainCount) - 1 && lost == old(lost)
      ensures b < totalCount && b !in old(live) && live == old(live) + {b} && buffer == Address(b)
      ensures b == 0 ==> remainCount == 0
      ensures drained <==> old(drained) || remainCount == 0
    {
      buffer := header[remainCount - 1];
      b := stack[remainCount - 1];
      ghost var was := stack;
      remainCount := remainCount - 1;
      stack := stack[..remainCount];
      live := live + {b};
      drained := drained || remainCount == 0;
      assert was == stack + [b];
      assert forall x :: x in was <==> x in stack || x == b;
      assert b !in stack;
    }

    /** The locked region of FREE: a block handed out goes back on the stack. */
    method Give(buffer: int, ghost b: nat)
      requires Valid() && b in live && buffer == Address(b) && Returns(b)
      modifies this, header
      ensures Valid() && remainCount == old(remainCount) + 1 && live == old(live) - {b} && lost == old(lost)
      ensures drained == old(drained)
    {
      StackRoom(b);
      ghost var was := stack;
      header[remainCount] := buffer;
      remainCount := remainCount + 1;
      stack := stack + [b];
      live := live - {b};
    }

    /** A block that FREE does not recognize goes to the system's free; the base block takes the whole column with it. */
    ghost method Lose(b: nat)
      requires Valid() && b in live && !Returns(b)
      modifies this
      ensures Valid() && live == old(live) - {b} && lost == old(lost) + {b} && remainCount == old(remainCount)
      ensures drained == old(drained) && (Released() <==> old(Released()) || b == 0)
    {
      live := live - {b};
      lost := lost + {b};
    }

    /** A column of blocks of at least two bytes whose remain_count has never been 0: no block is lost, the base block is never
        handed out and stays at the bottom of the stack, the blocks on the stack and those handed out are all there are, and
        FREE takes each one handed out back. */
    lemma NeverDrained()
      requires Valid() && !drained && blockLen > 1
      ensures lost == {} && !Released() && header[0] == addrStart && 0 !in live
      ensures forall b: nat :: b < totalCount <==> b in stack || b in live
      ensures forall b :: b in stack ==> b !in live
      ensures forall b :: b in live ==> b < totalCount && Recognizes(Address(b))
    {
      forall b | b in live
        ensures b < totalCount && Recognizes(Address(b))
      {
        RecognizesExactly(b);
      }
    }

    /** There is room on the stack while a block is handed out. */
    lemma StackRoom(b: nat)
      requires Valid() && b in live
      ensures remainCount < totalCount
    {
      var all, onStack := UpTo(totalCount), set i | i in stack;
      Counts(stack, onStack);
      assert onStack <= all - {b};
      Subset(onStack, all - {b});
    }

    /** The test of FREE on the address of a block; no block lies across the column's end. */
    lemma RecognizesExactly(b: nat)
      requires blockLen > 0 && b < totalCount
      ensures Recognizes(Address(b)) <==> Returns(b)
      ensures addrStart <= Address(b) && Address(b) + blockLen - 1 <= AddrEnd()
    {
      Product(b, totalCount, blockLen);
      if blockLen == 1 {
        assert b * 1 == b && 1 * totalCount == totalCount;
      }
    }

    /** Two blocks have no byte in common. */
    lemma BlocksApart(a: nat, b: nat)
      requires a < b
      ensures Address(a) + blockLen <= Address(b)
    {
      Product(a, b, blockLen);
    }
  }

  lemma {:induction false} Product(a: nat, b: nat, n: nat)
    requires a < b
    ensures a * n + n <= b * n && 0 <= a * n && b * n == n * b && (a > 0 ==> n <= a * n)
  {
    assert (b - a - 1) * n >= 0;
    assert b * n == a * n + n + (b - a - 1) * n;
    if a > 0 {
      assert (a - 1) * n >= 0;
      assert a * n == n + (a - 1) * n;
    }
  }

  lemma {:induction false} Counts(s: seq<nat>, m: set<nat>)
    requires (forall i, j :: 0 <= i < j < |s| ==> s[i] != s[j]) && m == set x | x in s
    ensures |m| == |s|
  {
    if s != [] {
      var t := s[..|s| - 1];
      assert s == t + [s[|s| - 1]];
      Counts(t, m - {s[|s| - 1]});
    }
  }

  /** The numbers below n. */
  ghost function UpTo(n: nat): (m: set<nat>)
    ensures |m| == n && forall i: nat :: i in m <==> i < n
  {
    if n == 0 then {} else UpTo(n - 1) + {n - 1}
  }

  lemma {:induction false} Subset(a: set<nat>, b: set<nat>)
    requires a <= b
    ensures |a| <= |b|
    decreases |a|
  {
    if a != {} {
      var x :| x in a;
      Subset(a - {x}, b - {x});
    }
  }

  /** The pool: columns whose memories do not overlap. */
  class Pool {
    const columns: seq<Column>

    ghost predicate Valid()
      reads this, columns, Headers()
    {
      && columns != []
      && (forall i :: 0 <= i < |columns| ==> columns[i].Valid())
      && (forall i, j :: 0 <= i < j < |columns| ==> columns[i] != columns[j] && columns[i].header != columns[j].header)
      && (forall i, j :: 0 <= i < |columns| && 0 <= j < |columns| && i != j ==> Apart(columns[i], columns[j]))
    }

    ghost function Headers(): set<object> {
      set i | 0 <= i < |columns| :: columns[i].header
    }

    /** MALLOC_INIT, the system having given each column memory of its own. */
    constructor (columns: seq<Column>)
      requires columns != [] && forall i :: 0 <= i < |columns| ==> columns[i].Valid()
      requires forall i, j :: 0 <= i < j < |columns| ==> columns[i] != columns[j] && columns[i].header != columns[j].header
      requires forall i, j :: 0 <= i < |columns| && 0 <= j < |columns| && i != j ==> Apart(columns[i], columns[j])
      ensures Valid() && this.columns == columns
    {
      this.columns := columns;
    }

    /** The first column that is wide enough and not used up, the number of columns when there is none: the system is asked. */
    ghost function Chosen(size: nat, i: nat): (c: nat)
      requires i <= |columns|
      reads columns
      ensures i <= c <= |columns|
      ensures forall k :: i <= k < c ==> size > columns[k].blockLen || columns[k].remainCount == 0
      ensures c < |columns| ==> size <= columns[c].blockLen && columns[c].remainCount > 0
      decreases |columns| - i
    {
      if i == |columns| || (size <= columns[i].blockLen && columns[i].remainCount > 0) then i else Chosen(size, i + 1)
    }

    /** MALLOC; `fromSystem` is what malloc gives. A block of the first column that will do, at least as long as asked for
        and not handed out before; the column's base block is the last that it hands out. */
    method Malloc(size: nat, fromSystem: int) returns (buffer: int, ghost c: nat, ghost b: nat)
      requires Valid()
      modifies columns
      ensures Valid() && c <= |columns|
      ensures c == if size > columns[|columns| - 1].blockLen then |columns| else old(Chosen(size, 0))
      ensures size <= columns[|columns| - 1].blockLen ==>
        forall i :: 0 <= i < c ==> size > columns[i].blockLen || old(columns[i].remainCount) == 0
      ensures c == |columns| ==> buffer == fromSystem && forall i :: 0 <= i < |columns| ==> Unchanged(i, old(Snapshot()))
      ensures c < |columns| ==>
        && size <= columns[c].blockLen && b < columns[c].totalCount && buffer == columns[c].Address(b)
        && b !in old(columns[c].live) && columns[c].live == old(columns[c].live) + {b} && columns[c].lost == old(columns[c].lost)
        && (b == 0 ==> columns[c].remainCount == 0)
        && (columns[c].drained <==> old(columns[c].drained) || columns[c].remainCount == 0)
        && forall i :: 0 <= i < |columns| && i != c ==> Unchanged(i, old(Snapshot()))
    {
      b := 0;
      if size > columns[|columns| - 1].blockLen {
        return fromSystem, |columns|, 0;
      }
      var i := 0;
      while i < |columns|
        invariant i <= |columns| && Valid() && Chosen(size, i) == old(Chosen(size, 0)) && Snapshot() == old(Snapshot())
      {
        if size <= columns[i].blockLen && columns[i].remainCount > 0 {
          buffer, b := columns[i].Take();
          return buffer, i, b;
        }
        i := i + 1;
      }
      return fromSystem, |columns|, 0;
    }

    ghost function Snapshot(): seq<(set<nat>, set<nat>, nat, bool)>
      reads columns
    {
      seq(|columns|, i requires 0 <= i < |columns| reads columns =>
        (columns[i].live, columns[i].lost, columns[i].remainCount, columns[i].drained))
    }

    ghost predicate Unchanged(i: nat, was: seq<(set<nat>, set<nat>, nat, bool)>)
      requires i < |columns|
      reads columns
    {
      i < |was| && was[i] == (columns[i].live, columns[i].lost, columns[i].remainCount, columns[i].drained)
    }

    /** What FREE may be called with: block b of column c, handed out, or, c being the number of columns, an address outside
        the memory of all columns, as the system gives them. */
    ghost predicate HandedOut(buffer: int, c: nat, b: nat)
      reads this, columns
    {
      if c < |columns| then b in columns[c].live && buffer == columns[c].Address(b)
      else c == |columns| && forall i :: 0 <= i < |columns| ==> !(columns[i].addrStart <= buffer <= columns[i].AddrEnd())
    }

    /** FREE: a block handed out goes back to its own column, but for those that no column recognizes. These are given to the
        system's free, as everything that is no block of the pool. */
    method Free(buffer: int, ghost c: nat, ghost b: nat) returns (flag: bool)
      requires Valid() && HandedOut(buffer, c, b)
      modifies columns, Headers()
      ensures Valid() && (flag <==> c < |columns| && columns[c].Returns(b))
      ensures c < |columns| ==>
        && columns[c].drained == old(columns[c].drained) && (!columns[c].drained && columns[c].blockLen > 1 ==> flag)
        && columns[c].live == old(columns[c].live) - {b}
        && columns[c].lost == old(columns[c].lost) + (if flag then {} else {b})
        && columns[c].remainCount == old(columns[c].remainCount) + (if flag then 1 else 0)
        && (columns[c].Released() <==> old(columns[c].Released()) || b == 0)
      ensures forall i :: 0 <= i < |columns| && i != c ==> Unchanged(i, old(Snapshot()))
    {
      var i := ColumnOf(buffer, c, b);
      if i < |columns| {
        columns[i].Give(buffer, b);
        return true;
      }
      if c < |columns| {
        columns[c].Lose(b);
      }
      return false;
    }

    /** The search of FREE: the block's own column, or none. */
    method ColumnOf(buffer: int, ghost c: nat, ghost b: nat) returns (i: nat)
      requires Valid() && HandedOut(buffer, c, b)
      ensures i == if c < |columns| && columns[c].Returns(b) then c else |columns|
    {
      i := 0;
      hide Valid, HandedOut, Column.Recognizes;
      while i < |columns| && !columns[i].Recognizes(buffer)
        invariant i <= |columns| && (i > c ==> !columns[c].Returns(b))
      {
        NotPassed(buffer, c, b, i);
        i := i + 1;
      }
      if i < |columns| {
        OwnColumn(buffer, c, b, i);
      }
    }

    /** The search does not pass the column of a block that it recognizes. */
    lemma NotPassed(buffer: int, c: nat, b: nat, i: nat)
      requires Valid() && HandedOut(buffer, c, b) && i < |columns| && !columns[i].Recognizes(buffer)
      ensures i == c ==> !columns[c].Returns(b)
    {
      if i == c {
        columns[c].RecognizesExactly(b);
      }
    }

    /** No other column takes the block for its own. */
    lemma OwnColumn(buffer: int, c: nat, b: nat, i: nat)
      requires Valid() && HandedOut(buffer, c, b) && i < |columns| && columns[i].Recognizes(buffer)
      ensures i == c && columns[c].Returns(b)
    {
      if c < |columns| {
        columns[c].RecognizesExactly(b);
      }
    }

    /** In every run of Malloc and Free from the initial pool (both keep Valid), as long as no column's remain_count has been 0:
        nothing is lost, stack and live blocks alone make up each column, and every live block goes back where it came from. */
    lemma Conserved()
      requires Valid() && forall i :: 0 <= i < |columns| ==> !columns[i].drained && columns[i].blockLen > 1
      ensures forall i :: 0 <= i < |columns| ==>
        && columns[i].lost == {} && columns[i].header[0] == columns[i].addrStart
        && (forall b: nat :: b < columns[i].totalCount <==> b in columns[i].stack || b in columns[i].live)
        && (forall b :: b in columns[i].stack ==> b !in columns[i].live)
      ensures forall i, b, j :: 0 <= i < |columns| && b in columns[i].live && 0 <= j < |columns| ==>
        (columns[j].Recognizes(columns[i].Address(b)) <==> j == i)
    {
      forall i | 0 <= i < |columns|
        ensures columns[i].lost == {} && columns[i].header[0] == columns[i].addrStart
        ensures forall b: nat :: b < columns[i].totalCount <==> b in columns[i].stack || b in columns[i].live
        ensures forall b :: b in columns[i].stack ==> b !in columns[i].live
        ensures forall b, j :: b in columns[i].live && 0 <= j < |columns| ==>
          (columns[j].Recognizes(columns[i].Address(b)) <==> j == i)
      {
        columns[i].NeverDrained();
        forall b, j | b in columns[i].live && 0 <= j < |columns|
          ensures columns[j].Recognizes(columns[i].Address(b)) <==> j == i
        {
          if columns[j].Recognizes(columns[i].Address(b)) {
            OwnColumn(columns[i].Address(b), i, b, j);
          }
        }
      }
    }
  }

  predicate Apart(a: Column, b: Column) {
    a.AddrEnd() < b.addrStart || b.AddrEnd() < a.addrStart
  }
}
