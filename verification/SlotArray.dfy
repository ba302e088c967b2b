/** `SlotArray`: slots handed out and taken back in constant time, with the free list threaded through
    the value array itself. */
module SlotArrays {
  import opened Bytes
  import Seqs

  /** A place in the array: the next free slot, or the value of a live one. */
  datatype Cell<T> = Link(next: Option<nat>) | Full(value: T)

  /** `list` is what one meets following the links from `first`. */
  ghost predicate Threads<T>(cells: seq<Cell<T>>, first: Option<nat>, list: seq<nat>)
    decreases list
  {
    if list == [] then first == None
    else
      && first == Some(list[0]) && list[0] < |cells| && cells[list[0]].Link?
      && Threads(cells, cells[list[0]].next, list[1..])
  }

  /** The links determine the list: there is no second reading and no cycle. */
  lemma {:induction false} ThreadsOnce<T>(cells: seq<Cell<T>>, first: Option<nat>, a: seq<nat>, b: seq<nat>)
    requires Threads(cells, first, a) && Threads(cells, first, b)
    ensures a == b
    decreases |a|
  {
    if a != [] && b != [] {
      ThreadsOnce(cells, cells[a[0]].next, a[1..], b[1..]);
      assert a == [a[0]] + a[1..] && b == [b[0]] + b[1..];
    }
  }

  lemma {:induction false} ThreadsFrame<T>(cells: seq<Cell<T>>, i: nat, cell: Cell<T>, first: Option<nat>,
          list: seq<nat>)
    requires Threads(cells, first, list) && i < |cells| && i !in list
    ensures Threads(cells[i := cell], first, list)
    decreases list
  {
    if list != [] {
      ThreadsFrame(cells, i, cell, cells[list[0]].next, list[1..]);
    }
  }

  function LinkAt(list: seq<nat>, k: nat): Option<nat> { if k + 1 < |list| then Some(list[k + 1]) else None }

  /** A free slot holds the link to the next one. */
  lemma {:induction false} ThreadsNext<T>(cells: seq<Cell<T>>, first: Option<nat>, list: seq<nat>, k: nat)
    requires Threads(cells, first, list) && k < |list|
    ensures list[k] < |cells| && cells[list[k]] == Link(LinkAt(list, k))
    decreases k
  {
    if k > 0 {
      ThreadsNext(cells, cells[list[0]].next, list[1..], k - 1);
    }
  }

  /** The initial list: every slot in order. */
  function Count(from: nat, n: nat): (s: seq<nat>)
    requires from <= n
    ensures |s| == n - from && forall i :: 0 <= i < |s| ==> s[i] == from + i
    decreases n - from
  {
    if from == n then [] else [from] + Count(from + 1, n)
  }

  lemma {:induction false} CountThreads<T>(cells: seq<Cell<T>>, from: nat, n: nat)
    requires from <= n == |cells|
    requires forall i :: 0 <= i < n ==> cells[i] == Link(if i + 1 < n then Some(i + 1) else None)
    ensures Threads(cells, if from < n then Some(from) else None, Count(from, n))
    decreases n - from
  {
    if from < n {
      CountThreads(cells, from + 1, n);
      assert Count(from, n)[1..] == Count(from + 1, n);
    }
  }

  // ----- what the array stands for -----

  /** The free slots in the order they will be handed out, and the values of the live ones. */
  datatype Slots<T> = Slots(free: seq<nat>, live: map<nat, T>) {
    ghost predicate Partition(size: nat) {
      && Seqs.Distinct(free) && (forall id: nat :: id < size <==> id in free || id in live)
      && (forall id :: id in free ==> id !in live)
    }

    function Alloc(value: T): (Option<nat>, Slots<T>) {
      if free == [] then (None, this) else (Some(free[0]), Slots(free[1..], live[free[0] := value]))
    }

    function Free(id: nat): Slots<T> { Slots([id] + free, live - {id}) }
  }

  /** An allocation takes a free slot, which then has the value, and leaves the others as they are; it fails exactly
      when no slot is free. */
  lemma AllocExact<T>(s: Slots<T>, value: T, size: nat)
    requires s.Partition(size)
    ensures var (r, t) := s.Alloc(value);
      && (r.None? <==> forall id: nat :: id < size ==> id in s.live) && (r.None? ==> t == s)
      && (r.Some? ==> r.value < size && r.value !in s.live && t.live == s.live[r.value := value])
      && (r.Some? ==> forall id: nat :: id in t.free <==> id in s.free && id != r.value)
  {
    if s.free != [] {
      assert s.free[0] in s.free;
      assert forall id :: id in s.free <==> id == s.free[0] || id in s.free[1..];
      assert s.free[0] !in s.free[1..] by { assert forall k :: 1 <= k < |s.free| ==> s.free[k] != s.free[0]; }
    }
  }

  /** The slot freed last is the first to be handed out again, and then only its value has changed. */
  lemma LastFreedFirst<T>(s: Slots<T>, id: nat, value: T)
    requires id in s.live
    ensures var (r, t) := s.Free(id).Alloc(value); r == Some(id) && t.free == s.free && t.live == s.live[id := value]
    ensures s.Free(id).live == s.live - {id}
  {
  }

  lemma CountPartition<T>(size: nat)
    ensures var s: Slots<T> := Slots(Count(0, size), map[]); s.Partition(size)
  {
    forall id: nat | id < size ensures id in Count(0, size) {
      assert Count(0, size)[id] == id;
    }
  }

  datatype Op<T> = Alloc(value: T) | Free(id: nat) | Set(id: nat, value: T)

  function Step<T>(s: Slots<T>, op: Op<T>): Slots<T> {
    match op
    case Alloc(value) => s.Alloc(value).1
    case Free(id) => s.Free(id)
    case Set(id, value) => Slots(s.free, s.live[id := value])
  }

  /** Only live slots may be freed or written. */
  predicate Proper<T>(s: Slots<T>, op: Op<T>) { (op.Free? || op.Set?) ==> op.id in s.live }

  ghost predicate ProperRun<T>(s: Slots<T>, ops: seq<Op<T>>, n: nat)
    requires n <= |ops|
  {
    n > 0 ==> ProperRun(s, ops, n - 1) && Proper(After(s, ops, n - 1), ops[n - 1])
  }

  function After<T>(s: Slots<T>, ops: seq<Op<T>>, n: nat): Slots<T>
    requires n <= |ops|
  {
    if n == 0 then s else Step(After(s, ops, n - 1), ops[n - 1])
  }

  lemma StepKeeps<T>(s: Slots<T>, op: Op<T>, size: nat)
    requires s.Partition(size) && Proper(s, op)
    ensures Step(s, op).Partition(size)
  {
    if op.Alloc? && s.free != [] {
      assert forall id :: id in s.free <==> id == s.free[0] || id in s.free[1..];
      assert s.free[0] !in s.free[1..] by { assert forall k :: 1 <= k < |s.free| ==> s.free[k] != s.free[0]; }
      assert Seqs.Distinct(s.free[1..]);
    } else if op.Free? {
      assert op.id !in s.free;
      assert Seqs.Distinct([op.id] + s.free);
    }
  }

  /** Over any proper run every slot is free or live and never both. */
  lemma {:induction false} RunKeeps<T>(s: Slots<T>, ops: seq<Op<T>>, n: nat, size: nat)
    requires s.Partition(size) && n <= |ops| && ProperRun(s, ops, n)
    ensures After(s, ops, n).Partition(size)
  {
    if n > 0 {
      RunKeeps(s, ops, n - 1, size);
      StepKeeps(After(s, ops, n - 1), ops[n - 1], size);
    }
  }

  /** A live slot keeps its value until it is freed or written, and is never handed out again before. */
  lemma {:induction false} LiveValueStays<T>(s: Slots<T>, ops: seq<Op<T>>, n: nat, size: nat, id: nat)
    requires s.Partition(size) && n <= |ops| && ProperRun(s, ops, n) && id in s.live
    requires forall k :: 0 <= k < n && (ops[k].Free? || ops[k].Set?) ==> ops[k].id != id
    ensures id in After(s, ops, n).live && After(s, ops, n).live[id] == s.live[id]
    ensures After(s, ops, n).free != [] ==> After(s, ops, n).free[0] != id
  {
    if n > 0 {
      LiveValueStays(s, ops, n - 1, size, id);
      RunKeeps(s, ops, n - 1, size);
    }
    RunKeeps(s, ops, n, size);
  }

  /** Freeing a slot that is not live breaks the books: it is then listed twice. */
  lemma FreeTwice<T>(s: Slots<T>, id: nat, size: nat)
    requires s.Partition(size)
    ensures s.Free(id).Partition(size) <==> id in s.live
  {
    var t := s.Free(id);
    if id in s.live {
      StepKeeps(s, Op<T>.Free(id), size);
    } else if id >= size {
      assert t.free[0] == id;
    } else {
      var k :| 0 <= k < |s.free| && s.free[k] == id;
      assert t.free[0] == id && t.free[k + 1] == id;
    }
  }

  /** Writing to a slot that is not live breaks the books: it is then free and live. */
  lemma SetFree<T>(s: Slots<T>, id: nat, value: T, size: nat)
    requires s.Partition(size)
    ensures Step(s, Op.Set(id, value)).Partition(size) <==> id in s.live
  {
    if id in s.live { StepKeeps(s, Op.Set(id, value), size); }
  }

  class SlotArray<T(0)> {
    var cells: array<Cell<T>>
    var firstFree: Option<nat>
    var numFree: nat
    ghost const size: nat
    ghost var slots: Slots<T>

    ghost predicate Valid()
      reads this, cells
    {
      && cells.Length == (if size == 0 then 1 else size)
      && slots.Partition(size) && |slots.free| == numFree
      && (forall id :: id in slots.live ==> cells[id] == Full(slots.live[id]))
      && (size > 0 ==> Threads(cells[..], firstFree, slots.free))
    }

    /** For size 0 the array still has one cell, which is never handed out. */
    constructor (size: nat)
      ensures Valid() && this.size == size && fresh(cells)
      ensures slots == Slots(Count(0, size), map[])
    {
      this.size := size;
      numFree, firstFree := size, Some(0);
      slots := Slots(Count(0, size), map[]);
      // build free list in array
      var a := new Cell<T>[if size == 0 then 1 else size];
      for i := 0 to a.Length - 1
        invariant forall k :: 0 <= k < i ==> a[k] == Link(Some(k + 1))
      {
        a[i] := Link(Some(i + 1));
      }
      a[a.Length - 1] := Link(None);
      cells := a;
      new;
      CountPartition<T>(size);
      if size > 0 {
        CountThreads(cells[..], 0, size);
      }
    }

    /** Allocate a slot: None exactly when all are live. */
    method Alloc(value: T) returns (id: Option<nat>)
      requires Valid()
      modifies this`firstFree, this`numFree, this`slots, cells
      ensures Valid() && (id, slots) == old(slots).Alloc(value)
      ensures id == None <==> |old(slots).free| == 0
    {
      // no slot free
      if numFree == 0 { return None; }
      StepKeeps(slots, Op.Alloc(value), size);
      ghost var list := slots.free;
      assert list[0] in list && list[0] < size;
      var slot := firstFree.value;
      ThreadsFrame(cells[..], slot, Full(value), cells[slot].next, list[1..]) by {
        assert forall k :: 1 <= k < |list| ==> list[k] != list[0];
      }
      // update free
      numFree := numFree - 1;
      if numFree == 0 {
        firstFree := None;
      } else {
        firstFree := cells[slot].next;
      }
      // set value
      cells[slot] := Full(value);
      slots := slots.Alloc(value).1;
      id := Some(slot);
    }

    /** Free slot; it should be live, which is not checked. */
    method Free(id: nat)
      requires Valid() && id < cells.Length
      modifies this`firstFree, this`numFree, this`slots, cells
      ensures slots == old(slots).Free(id) && (Valid() <==> id in old(slots).live)
    {
      FreeTwice(slots, id, size);
      if id in slots.live { ThreadsFrame(cells[..], id, Link(firstFree), firstFree, slots.free); }
      cells[id] := Link(firstFree);
      firstFree := Some(id);
      numFree := numFree + 1;
      slots := slots.Free(id);
      assert slots.free[1..] == old(slots.free);
    }

    /** Read slot: the value of a live one, the link to the next free slot of a free one. */
    method Get(id: nat) returns (cell: Cell<T>)
      requires Valid() && id < cells.Length
      ensures id in slots.live ==> cell == Full(slots.live[id])
      ensures forall k :: 0 <= k < |slots.free| && slots.free[k] == id ==> cell == Link(LinkAt(slots.free, k))
    {
      cell := cells[id];
      forall k | 0 <= k < |slots.free| && slots.free[k] == id
        ensures cell == Link(LinkAt(slots.free, k))
      {
        assert slots.free[k] in slots.free;
        ThreadsNext(cells[..], firstFree, slots.free, k);
      }
    }

    /** Write slot; it should be live, which is not checked. */
    method Set(id: nat, value: T)
      requires Valid() && id < cells.Length
      modifies this`slots, cells
      ensures slots == old(Slots(slots.free, slots.live[id := value])) && (Valid() <==> id in old(slots).live)
    {
      SetFree(slots, id, value, size);
      if id in slots.live { ThreadsFrame(cells[..], id, Full(value), firstFree, slots.free); }
      cells[id] := Full(value);
      slots := Slots(slots.free, slots.live[id := value]);
    }
  }
}
