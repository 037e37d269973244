/** `ts_buffer<T>` read sequentially: a circular array of `capacity + 1`
    slots where `head` is the next write position and `tail` the next read
    position. One slot always stays unused so that the two indices alone tell
    an empty buffer from a full one. The locks and the full-buffer wait loop
    are not modelled; `Push` instead requires a buffer that is not full. */
module RingBuffer {
  import opened Wrappers

  datatype Ring<T> = Ring(slots: seq<T>, head: int, tail: int)

  /** Both indices point into the slot array. */
  predicate Valid<T>(r: Ring<T>) {
    |r.slots| >= 1 && 0 <= r.head < |r.slots| && 0 <= r.tail < |r.slots|
  }

  /** The capacity the buffer was built with (`_capacity` minus the spare slot). */
  function Capacity<T>(r: Ring<T>): int {
    |r.slots| - 1
  }

  /** `_isEmpty(h, t)`: the indices coincide. */
  predicate IsEmpty<T>(r: Ring<T>) {
    r.head - r.tail == 0
  }

  /** `_isFull(h, t)`: once tail is unwrapped past head it is exactly one ahead. */
  predicate IsFull<T>(r: Ring<T>) {
    var t := if r.head > r.tail then r.tail + |r.slots| else r.tail;
    t - r.head == 1
  }

  /** Index successor around the ring: `if (i == _capacity - 1) i = 0; else i++`. */
  function Advance(i: int, n: int): int {
    if i == n - 1 then 0 else i + 1
  }

  /** `Advance` is the successor modulo the number of slots. */
  lemma AdvanceIsMod(i: int, n: int)
    requires 0 <= i < n
    ensures Advance(i, n) == (i + 1) % n
  {
    if i == n - 1 {
      assert (i + 1) % n == n % n == 0;
    } else {
      assert (i + 1) % n == i + 1;
    }
  }

  /** Number of items held: the distance from tail forward to head. */
  function Count<T>(r: Ring<T>): int {
    if r.head >= r.tail then r.head - r.tail else r.head + |r.slots| - r.tail
  }

  /** Slot holding the item `i` places after the oldest one. */
  function SlotOf<T>(r: Ring<T>, i: nat): nat
    requires Valid(r) && i < |r.slots|
  {
    if r.tail + i < |r.slots| then r.tail + i else r.tail + i - |r.slots|
  }

  /** The abstract FIFO content: items from the oldest (at tail) to the newest. */
  function Contents<T>(r: Ring<T>): (q: seq<T>)
    requires Valid(r)
    ensures |q| == Count(r)
  {
    seq(Count(r), i requires 0 <= i < Count(r) => r.slots[SlotOf(r, i)])
  }

  /** The constructor: `capacity + 1` slots and both indices at 0. `blank`
      stands for the default-initialised elements of `new T[capacity + 1]`. */
  function New<T>(capacity: nat, blank: T): (r: Ring<T>)
    ensures Valid(r) && Capacity(r) == capacity
    ensures r.head == 0 && r.tail == 0
    ensures IsEmpty(r) && Contents(r) == []
  {
    Ring(seq(capacity + 1, _ => blank), 0, 0)
  }

  /** `push(item)` once space is available: the item goes into the slot at
      head, head advances around the ring, tail is untouched, and the call
      reports success. */
  function Push<T>(r: Ring<T>, item: T): (p: (Ring<T>, bool))
    requires Valid(r) && !IsFull(r)
    ensures p.1
    ensures Valid(p.0)
    ensures p.0.slots == r.slots[r.head := item]
    ensures p.0.head == (r.head + 1) % |r.slots| && p.0.tail == r.tail
  {
    AdvanceIsMod(r.head, |r.slots|);
    (Ring(r.slots[r.head := item], Advance(r.head, |r.slots|), r.tail), true)
  }

  /** What `pop(&item)` leaves behind: whether it succeeded, the value of
      `*item` afterwards and the buffer afterwards. */
  datatype Popped<T> = Popped(ok: bool, item: T, ring: Ring<T>)

  /** `pop(&item)`: on an empty buffer it fails and changes neither the
      indices nor `*item`; otherwise it copies the slot at tail into `*item`
      and advances tail around the ring. */
  function Pop<T>(r: Ring<T>, item: T): (p: Popped<T>)
    requires Valid(r)
    ensures Valid(p.ring)
    ensures p.ok <==> !IsEmpty(r)
    ensures !p.ok ==> p.item == item && p.ring == r
    ensures p.ok ==> p.item == r.slots[r.tail] && p.ring.slots == r.slots
    ensures p.ok ==> p.ring.head == r.head && p.ring.tail == (r.tail + 1) % |r.slots|
  {
    AdvanceIsMod(r.tail, |r.slots|);
    if IsEmpty(r) then Popped(false, item, r)
    else Popped(true, r.slots[r.tail], Ring(r.slots, r.head, Advance(r.tail, |r.slots|)))
  }

  /** The occupancy never exceeds the capacity, and it is the head-to-tail
      distance taken modulo the number of slots. */
  lemma Occupancy<T>(r: Ring<T>)
    requires Valid(r)
    ensures 0 <= Count(r) <= Capacity(r)
    ensures Count(r) == (r.head - r.tail) % |r.slots|
  {
    var n := |r.slots|;
    if r.head >= r.tail {
      assert (r.head - r.tail) % n == r.head - r.tail;
    } else {
      assert r.head - r.tail == (r.head + n - r.tail) - n;
      assert (r.head - r.tail) % n == r.head + n - r.tail;
    }
  }

  /** Empty exactly when nothing is held. */
  lemma EmptyIff<T>(r: Ring<T>)
    requires Valid(r)
    ensures IsEmpty(r) <==> Count(r) == 0
    ensures IsEmpty(r) ==> Contents(r) == []
  {
  }

  /** Full exactly when head is one step behind tail, which is when the buffer
      holds `capacity` items. This needs a capacity of at least one: see
      `ZeroCapacityLosesPush`. */
  lemma FullIff<T>(r: Ring<T>)
    requires Valid(r) && Capacity(r) >= 1
    ensures IsFull(r) <==> (r.head + 1) % |r.slots| == r.tail
    ensures IsFull(r) <==> Count(r) == Capacity(r)
  {
    AdvanceIsMod(r.head, |r.slots|);
    if r.head == |r.slots| - 1 {
      assert IsFull(r) <==> r.tail == 0;
    } else {
      assert IsFull(r) <==> r.tail == r.head + 1;
    }
  }

  /** With capacity 0 the single slot makes `_isFull` always false, so a push
      is accepted, reports success, and leaves the buffer empty: the item is
      lost. */
  lemma ZeroCapacityLosesPush<T>(blank: T, item: T)
    ensures !IsFull(New(0, blank))
    ensures Push(New(0, blank), item).1
    ensures Contents(Push(New(0, blank), item).0) == []
  {
  }

  /** FIFO, producer side: a push appends its item to the abstract content. */
  lemma PushAppends<T>(r: Ring<T>, item: T)
    requires Valid(r) && Capacity(r) >= 1 && !IsFull(r)
    ensures Contents(Push(r, item).0) == Contents(r) + [item]
  {
    var r' := Push(r, item).0;
    FullIff(r);
    assert r'.head == Advance(r.head, |r.slots|);
    assert Count(r') == Count(r) + 1;
    forall i | 0 <= i < Count(r)
      ensures Contents(r')[i] == Contents(r)[i]
    {
      assert SlotOf(r', i) == SlotOf(r, i) != r.head;
    }
    assert SlotOf(r', Count(r)) == r.head;
  }

  /** FIFO, consumer side: a successful pop yields the oldest item and drops
      it from the abstract content. */
  lemma PopTakesFront<T>(r: Ring<T>, item: T)
    requires Valid(r) && !IsEmpty(r)
    ensures Contents(r) != []
    ensures Pop(r, item).item == Contents(r)[0]
    ensures Contents(Pop(r, item).ring) == Contents(r)[1..]
  {
    var r' := Pop(r, item).ring;
    assert Count(r') == Count(r) - 1;
    forall i | 0 <= i < Count(r')
      ensures Contents(r')[i] == Contents(r)[i + 1]
    {
      assert SlotOf(r', i) == SlotOf(r, i + 1);
    }
  }

  /** One operation a sequential caller may perform on the buffer. */
  datatype Op<T> = PushOp(item: T) | PopOp

  /** Every push in `ops` happens while fewer than `cap` items are held,
      starting from `n` held items: the condition under which the source's
      wait loop in `push` ends without another thread's help. */
  predicate PushesFit<T>(ops: seq<Op<T>>, n: nat, cap: nat) {
    ops == [] ||
    match ops[0]
    case PushOp(_) => n < cap && PushesFit(ops[1..], n + 1, cap)
    case PopOp => PushesFit(ops[1..], if n == 0 then 0 else n - 1, cap)
  }

  /** Reference behaviour: a plain FIFO queue. Each pop reports the item it
      removed, or `None` when the queue was empty. */
  function RunQueue<T>(q: seq<T>, ops: seq<Op<T>>): (seq<T>, seq<Option<T>>)
    decreases |ops|
  {
    if ops == [] then (q, [])
    else match ops[0]
      case PushOp(x) => RunQueue(q + [x], ops[1..])
      case PopOp =>
        if q == [] then
          var (q', out) := RunQueue(q, ops[1..]); (q', [None] + out)
        else
          var (q', out) := RunQueue(q[1..], ops[1..]); (q', [Some(q[0])] + out)
  }

  /** The ring buffer driven by the same operations; `item` is the caller's
      `*item` variable, which a failed pop leaves as it was. */
  function RunRing<T>(r: Ring<T>, item: T, ops: seq<Op<T>>): (res: (Ring<T>, seq<Option<T>>))
    requires Valid(r) && PushesFit(ops, Count(r), Capacity(r))
    ensures Valid(res.0)
    decreases |ops|
  {
    if ops == [] then (r, [])
    else match ops[0]
      case PushOp(x) =>
        FullIff(r);
        RunRing(Push(r, x).0, item, ops[1..])
      case PopOp =>
        var p := Pop(r, item);
        var (r', out) := RunRing(p.ring, p.item, ops[1..]);
        (r', [if p.ok then Some(p.item) else None] + out)
  }

  /** The buffer refines the FIFO queue: for every admissible sequence of
      operations, the pops report the same items in the same order and the
      final content is the final queue. */
  lemma {:induction false} RingRefinesQueue<T>(r: Ring<T>, item: T, ops: seq<Op<T>>)
    requires Valid(r) && PushesFit(ops, Count(r), Capacity(r))
    ensures RunRing(r, item, ops).1 == RunQueue(Contents(r), ops).1
    ensures Contents(RunRing(r, item, ops).0) == RunQueue(Contents(r), ops).0
    decreases |ops|
  {
    if ops != [] {
      match ops[0]
      case PushOp(x) =>
        FullIff(r);
        PushAppends(r, x);
        RingRefinesQueue(Push(r, x).0, item, ops[1..]);
      case PopOp =>
        var p := Pop(r, item);
        if p.ok {
          PopTakesFront(r, item);
        }
        RingRefinesQueue(p.ring, p.item, ops[1..]);
    }
  }
}
