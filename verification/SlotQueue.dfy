/** The slot queue of lcs_queue.c: a ring of fixed-size entries inside one byte block,
    filled in place through the pointer that `QueueTail` hands out. */
module SlotQueue {
  import opened Bytes

  type Entry = seq<byte>

  // ------------------------------------------------------------------
  // The abstract first-in first-out queue
  // ------------------------------------------------------------------

  /** The value a queue stands for: its capacity in slots and the live entries, oldest first. */
  datatype Fifo<T> = Fifo(capacity: nat, entries: seq<T>) {
    /** What `QueueFull` answers: the queue counts as full at capacity (or when unusable). */
    predicate Full() {
      capacity == 0 || |entries| >= capacity
    }

    /** What `QueueWrite` really needs: one slot is always kept back. */
    predicate HasRoom() {
      |entries| + 1 < capacity
    }

    predicate Bounded() {
      |entries| <= if capacity == 0 then 0 else capacity - 1
    }

    function Write(x: T): Fifo<T> {
      if HasRoom() then this.(entries := entries + [x]) else this
    }

    function DropHead(): Fifo<T> {
      if |entries| == 0 then this else this.(entries := entries[1..])
    }

    function Flush(): Fifo<T> {
      this.(entries := [])
    }
  }

  /** One client action. `Fill` writes the reserved tail slot without committing it. */
  datatype Op<T> = Fill(x: T) | Put(y: T) | Drop | Clear

  function Step<T>(q: Fifo<T>, op: Op<T>): Fifo<T> {
    match op
    case Fill(_) => q
    case Put(y) => q.Write(y)
    case Drop => q.DropHead()
    case Clear => q.Flush()
  }

  function Run<T>(q: Fifo<T>, ops: seq<Op<T>>): Fifo<T>
    decreases |ops|
  {
    if ops == [] then q else Run(Step(q, ops[0]), ops[1..])
  }

  /** The entry one action adds, if it is accepted. */
  function In<T>(q: Fifo<T>, op: Op<T>): seq<T> {
    if op.Put? && q.HasRoom() then [op.y] else []
  }

  /** The entries one action removes, oldest first. */
  function Out<T>(q: Fifo<T>, op: Op<T>): seq<T> {
    match op
    case Drop => if q.entries == [] then [] else [q.entries[0]]
    case Clear => q.entries
    case _ => []
  }

  /** The entries accepted during a run, in the order in which they were written. */
  function Accepted<T>(q: Fifo<T>, ops: seq<Op<T>>): seq<T>
    decreases |ops|
  {
    if ops == [] then [] else In(q, ops[0]) + Accepted(Step(q, ops[0]), ops[1..])
  }

  /** The entries that left during a run (dropped or flushed), in the order in which they left. */
  function Gone<T>(q: Fifo<T>, ops: seq<Op<T>>): seq<T>
    decreases |ops|
  {
    if ops == [] then [] else Out(q, ops[0]) + Gone(Step(q, ops[0]), ops[1..])
  }

  lemma StepConserves<T>(q: Fifo<T>, op: Op<T>)
    ensures q.entries + In(q, op) == Out(q, op) + Step(q, op).entries
  {
    if op.Drop? && q.entries != [] {
      assert q.entries == [q.entries[0]] + q.entries[1..];
    }
  }

  lemma Regroup<T>(here: seq<T>, i: seq<T>, o: seq<T>, next: seq<T>, a: seq<T>, g: seq<T>, rest: seq<T>)
    requires here + i == o + next && next + a == g + rest
    ensures here + (i + a) == (o + g) + rest
  {
    assert here + (i + a) == (here + i) + a == o + (next + a);
  }

  /** Over every run the queue is first-in first-out and loses nothing it accepted: what was there
      plus what came in is what went out plus what is left, in order; and it never holds more than
      capacity - 1 entries. */
  lemma {:induction false} FifoOverRuns<T>(q: Fifo<T>, ops: seq<Op<T>>)
    requires q.Bounded()
    ensures Run(q, ops).Bounded() && Run(q, ops).capacity == q.capacity
    ensures q.entries + Accepted(q, ops) == Gone(q, ops) + Run(q, ops).entries
    decreases |ops|
  {
    if ops == [] {
      assert q.entries + [] == q.entries;
    } else {
      var next := Step(q, ops[0]);
      FifoOverRuns(next, ops[1..]);
      StepConserves(q, ops[0]);
      hide Step, In, Out;
      Regroup(q.entries, In(q, ops[0]), Out(q, ops[0]), next.entries,
              Accepted(next, ops[1..]), Gone(next, ops[1..]), Run(q, ops).entries);
    }
  }

  /** `QueueFull` answering "no" does not promise the write: the write goes through exactly when the
      queue is neither full nor down to the slot that is kept back. */
  lemma NotFullIsNotEnough<T>(q: Fifo<T>, x: T)
    requires q.Bounded()
    ensures q.Write(x).entries == q.entries + [x] <==> (!q.Full() && |q.entries| != q.capacity - 1)
    ensures q.capacity > 0 && |q.entries| == q.capacity - 1 ==> !q.Full() && q.Write(x) == q
  {
    assert |q.entries + [x]| == |q.entries| + 1;
  }

  // ------------------------------------------------------------------
  // The pointer ring
  // ------------------------------------------------------------------

  /** Where slot i starts, stepping one entry size at a time as the pointers do. */
  function Offset(i: nat, size: nat): nat {
    if i == 0 then 0 else Offset(i - 1, size) + size
  }

  lemma {:induction false} OffsetIsProduct(i: nat, size: nat)
    ensures Offset(i, size) == size * i
  {
    if i > 0 {
      OffsetIsProduct(i - 1, size);
      assert size * i == size * (i - 1) + size;
    }
  }

  lemma {:induction false} SlotsApart(i: nat, j: nat, size: nat)
    requires i < j
    ensures Offset(i, size) + size <= Offset(j, size)
    decreases j
  {
    if i < j - 1 { SlotsApart(i, j - 1, size); }
  }

  lemma SlotInside(i: nat, size: nat, capacity: nat)
    requires i < capacity
    ensures Offset(i, size) + size == Offset(i + 1, size) <= Offset(capacity, size)
    ensures size > 0 ==> (Offset(i + 1, size) == Offset(capacity, size) <==> i + 1 == capacity)
  {
    if i + 1 < capacity { SlotsApart(i + 1, capacity, size); }
  }

  function Wrapped(i: nat, capacity: nat): nat {
    if i < capacity then i else i - capacity
  }

  /** A block of memory cut into `capacity` slots of `size` bytes. */
  ghost predicate Block(mem: seq<byte>, size: nat, capacity: nat) {
    |mem| == Offset(capacity, size)
  }

  ghost function Slot(mem: seq<byte>, size: nat, capacity: nat, i: nat): Entry
    requires Block(mem, size, capacity) && i < capacity
  {
    SlotInside(i, size, capacity);
    mem[Offset(i, size)..Offset(i, size) + size]
  }

  /** The n slots that follow slot `first` around the ring. */
  ghost function Ring(mem: seq<byte>, size: nat, capacity: nat, first: nat, n: nat): (r: seq<Entry>)
    requires Block(mem, size, capacity)
    requires n <= capacity && (n > 0 ==> first < capacity)
    ensures |r| == n
    ensures forall k :: 0 <= k < n ==> r[k] == Slot(mem, size, capacity, Wrapped(first + k, capacity))
  {
    seq(n, k requires 0 <= k < n => Slot(mem, size, capacity, Wrapped(first + k, capacity)))
  }

  lemma RingGrows(mem: seq<byte>, size: nat, capacity: nat, first: nat, n: nat)
    requires Block(mem, size, capacity) && first < capacity && n < capacity
    ensures Ring(mem, size, capacity, first, n + 1)
         == Ring(mem, size, capacity, first, n) + [Slot(mem, size, capacity, Wrapped(first + n, capacity))]
  {}

  lemma RingShrinks(mem: seq<byte>, size: nat, capacity: nat, first: nat, n: nat)
    requires Block(mem, size, capacity) && first < capacity && 0 < n < capacity
    ensures Ring(mem, size, capacity, Wrapped(first + 1, capacity), n - 1)
         == Ring(mem, size, capacity, first, n)[1..]
  {
    var r := Ring(mem, size, capacity, first, n)[1..];
    var r' := Ring(mem, size, capacity, Wrapped(first + 1, capacity), n - 1);
    forall k | 0 <= k < n - 1 ensures r[k] == r'[k] {
      assert Wrapped(first + (k + 1), capacity) == Wrapped(Wrapped(first + 1, capacity) + k, capacity);
    }
  }

  /** The slot behind the live ones is not a live one, so filling it changes no live entry. */
  lemma FillKeepsRing(mem: seq<byte>, mem': seq<byte>, size: nat, capacity: nat, first: nat, n: nat,
                      t: nat, entry: Entry)
    requires Block(mem, size, capacity) && Block(mem', size, capacity)
    requires first < capacity && n < capacity && t == Wrapped(first + n, capacity) && |entry| == size
    requires Offset(t, size) + size <= |mem|
    requires mem' == mem[..Offset(t, size)] + entry + mem[Offset(t, size) + size..]
    ensures Slot(mem', size, capacity, t) == entry
    ensures Ring(mem', size, capacity, first, n) == Ring(mem, size, capacity, first, n)
  {
    forall k | 0 <= k < n
      ensures Ring(mem', size, capacity, first, n)[k] == Ring(mem, size, capacity, first, n)[k]
    {
      var i := Wrapped(first + k, capacity);
      SlotInside(i, size, capacity);
      if i < t { SlotsApart(i, t, size); } else { SlotsApart(t, i, size); }
    }
  }

  class Queue {
    var data: array<byte>
    const entrySize: nat
    const capacity: nat
    var entries: nat
    // head and tail are the C pointers, as offsets from the start of data
    var head: nat
    var tail: nat
    var headIndex: nat
    var tailIndex: nat

    /** The check every C operation starts with. */
    predicate Usable() {
      capacity != 0 && entrySize != 0
    }

    ghost predicate Valid()
      reads this
    {
      && data.Length == Offset(capacity, entrySize)
      && head == Offset(headIndex, entrySize)
      && tail == Offset(tailIndex, entrySize)
      && if Usable() then
           && entries < capacity
           && headIndex < capacity
           && tailIndex == Wrapped(headIndex + entries, capacity)
         else entries == 0
    }

    /** The abstract queue this ring stands for; an unusable ring has capacity 0. */
    ghost function Model(): Fifo<Entry>
      requires Valid()
      reads this, data
    {
      Fifo(if Usable() then capacity else 0, Ring(data[..], entrySize, capacity, headIndex, entries))
    }

    /** The contents of the slot behind `QueueTail`. */
    ghost function TailSlot(): Entry
      requires Valid() && Usable()
      reads this, data
    {
      Slot(data[..], entrySize, capacity, tailIndex)
    }

    /** `QueueInit`. */
    constructor (entrySize: nat, queueCapacity: nat)
      ensures Valid() && fresh(data)
      ensures this.entrySize == entrySize && this.capacity == queueCapacity
      ensures Model() == Fifo(if Usable() then queueCapacity else 0, [])
    {
      this.entrySize, this.capacity := entrySize, queueCapacity;
      data := new byte[entrySize * queueCapacity](_ => 0);
      entries, head, tail, headIndex, tailIndex := 0, 0, 0, 0, 0;
      OffsetIsProduct(queueCapacity, entrySize);
    }

    /** `QueueFull`. */
    method IsFull() returns (full: bool)
      requires Valid()
      ensures full == Model().Full()
    {
      full := !Usable() || entries >= capacity;
    }

    /** `QueueTail`: the offset of the slot the client may fill, or -1. */
    method Tail() returns (slot: int)
      requires Valid()
      ensures slot == -1 <==> Model().Full()
      ensures slot != -1 ==> slot == tail && slot + entrySize <= data.Length
    {
      if !Usable() { return -1; }
      SlotInside(tailIndex, entrySize, capacity);
      slot := if entries < capacity then tail else -1;
    }

    /** `QueuePeek`: the offset of the oldest entry, or -1. */
    method Peek() returns (slot: int)
      requires Valid()
      ensures slot == -1 <==> Model().entries == []
      ensures slot != -1 ==> 0 <= slot && slot + entrySize <= data.Length
                             && data[slot..slot + entrySize] == Model().entries[0]
    {
      if !Usable() { return -1; }
      SlotInside(headIndex, entrySize, capacity);
      slot := if entries != 0 then head else -1;
    }

    /** A client filling the slot behind `QueueTail` with a whole entry: no live entry changes. */
    method FillTail(entry: Entry)
      requires Valid() && Usable() && |entry| == entrySize
      modifies data
      ensures Valid() && Model() == old(Model())
      ensures TailSlot() == entry
    {
      SlotInside(tailIndex, entrySize, capacity);
      ghost var mem := data[..];
      CopyIn(data, tail, entry);
      FillKeepsRing(mem, data[..], entrySize, capacity, headIndex, entries, tailIndex, entry);
    }

    /** `QueueWrite`: commits the tail slot, unless only the reserved slot is left. */
    method Write()
      requires Valid()
      modifies this`entries, this`tail, this`tailIndex
      ensures Valid()
      ensures Usable() ==> Model() == old(Model()).Write(old(TailSlot()))
      ensures !Usable() ==> Model() == old(Model())
    {
      if !Usable() { return; }
      if entries >= capacity - 1 { return; }
      SlotInside(tailIndex, entrySize, capacity);
      RingGrows(data[..], entrySize, capacity, headIndex, entries);
      OffsetIsProduct(capacity, entrySize);
      entries := entries + 1;
      tail := tail + entrySize;
      tailIndex := tailIndex + 1;
      if tail == entrySize * capacity {
        tail := 0;
        tailIndex := 0;
      }
    }

    /** `QueueDropHead`. */
    method DropHead()
      requires Valid()
      modifies this`entries, this`head, this`headIndex
      ensures Valid() && Model() == old(Model()).DropHead()
    {
      if !Usable() { return; }
      if entries == 0 { return; }
      SlotInside(headIndex, entrySize, capacity);
      RingShrinks(data[..], entrySize, capacity, headIndex, entries);
      OffsetIsProduct(capacity, entrySize);
      entries := entries - 1;
      head := head + entrySize;
      headIndex := headIndex + 1;
      if head == entrySize * capacity {
        head := 0;
        headIndex := 0;
      }
    }

    /** `QueueFlush`. */
    method Flush()
      requires Valid()
      modifies this`entries, this`head, this`tail, this`headIndex, this`tailIndex
      ensures Valid() && Model() == old(Model()).Flush()
    {
      if !Usable() { return; }
      head, tail, headIndex, tailIndex, entries := 0, 0, 0, 0, 0;
    }
  }
}
