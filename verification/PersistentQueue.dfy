/** The persistent ring queue. */
module PersistentQueue {
  import opened Pmem
  import opened RingArithmetic

  // ----- Objects: struct Queue, struct QueueEntry

  const ENTRY_TYPE: Layout := Layout(1, 1, 8, 0)
  const ENTRY: Obj := ENTRY_TYPE.Object(8)
  const RING_TYPE: Layout := Layout(2, 3, 24, 16)

  function Ring(capacity: nat): Obj {
    Obj(2, capacity + 3)
  }

  /** `sizeof(struct Queue) + capacity * sizeof(TOID(struct QueueEntry))` in 64-bit arithmetic. */
  function RingBytes(capacity: nat): nat {
    Wrap(24 + capacity * 16)
  }

  /** A capacity that is safe to ask for: the byte size of its queue does not wrap around, or wraps to a
      size that cannot be allocated either. */
  predicate Fits(capacity: nat) {
    24 + capacity * 16 < WORD_RANGE || RingBytes(capacity) > MAX_ALLOC_SIZE
  }

  /** A capacity that can be allocated is safe exactly when there is room for all its slots. */
  lemma RoomIffFits(capacity: nat)
    requires RingBytes(capacity) <= MAX_ALLOC_SIZE
    ensures Fits(capacity) <==> RING_TYPE.Object(RingBytes(capacity)) == Ring(capacity)
    ensures RING_TYPE.Words(RingBytes(capacity)) < 3 ==> !Fits(capacity)
  {
    var bytes := 24 + capacity * 16;
    if bytes < WORD_RANGE {
      assert RingBytes(capacity) == bytes && (bytes - 24) / 16 == capacity;
    } else {
      assert RingBytes(capacity) < bytes;
      assert (RingBytes(capacity) - 24) / 16 < capacity;
    }
  }

  /** The least unsafe capacities: the object is allocated with 8 bytes, which is too small even for the
      counters, or has the counters but no slot. */
  lemma UnfitExample()
    ensures !Fits(0xfff_ffff_ffff_ffff) && RingBytes(0xfff_ffff_ffff_ffff) == 8
    ensures !Fits(0x1000_0000_0000_0000) && RING_TYPE.Object(RingBytes(0x1000_0000_0000_0000)) == Ring(0)
  {
  }

  function FrontLoc(q: Oid): Loc { Loc(q, 0) }
  function BackLoc(q: Oid): Loc { Loc(q, 1) }
  function CapacityLoc(q: Oid): Loc { Loc(q, 2) }
  function SlotLoc(q: Oid, i: nat): Loc { Loc(q, i + 3) }
  function ValueLoc(e: Oid): Loc { Loc(e, 0) }

  // ----- Meaning

  ghost predicate Header(h: Heap, q: Oid) {
    && q in h.objs
    && 0 <= h.At(CapacityLoc(q)) < WORD_RANGE && h.objs[q] == Ring(h.At(CapacityLoc(q)))
    && 0 <= h.At(FrontLoc(q)) < WORD_RANGE && 0 <= h.At(BackLoc(q)) < WORD_RANGE
  }

  /** queue_size */
  function Size(h: Heap, q: Oid): nat {
    Wrap(h.At(BackLoc(q)) - h.At(FrontLoc(q)))
  }

  function Unsigned(w: Word): nat {
    if w < 0 then 0 else w
  }

  function Capacity(h: Heap, q: Oid): nat {
    Unsigned(h.At(CapacityLoc(q)))
  }

  function Front(h: Heap, q: Oid): nat {
    Unsigned(h.At(FrontLoc(q)))
  }

  /** The slot for the `j`-th oldest entry; for `j` the size, the slot of the next one. */
  function Slot(h: Heap, q: Oid, j: nat): Loc {
    SlotLoc(q, Pos(Capacity(h, q), Front(h, q), j))
  }

  /** The handle of the `j`-th oldest entry. */
  function Handle(h: Heap, q: Oid, j: nat): Oid {
    h.At(Slot(h, q, j))
  }

  /** The live entries, oldest first. */
  ghost function Window(h: Heap, q: Oid): seq<Oid> {
    seq(Size(h, q), j requires j >= 0 => Handle(h, q, j))
  }

  /** The queue invariant: the live slots hold distinct entry objects. */
  ghost predicate Wf(h: Heap, q: Oid) {
    && h.Ok() && Header(h, q)
    && Size(h, q) <= h.At(CapacityLoc(q))
    && (forall i, j | 0 <= i < j < Size(h, q) :: Handle(h, q, i) != Handle(h, q, j))
    && (forall j | 0 <= j < Size(h, q) :: Owned(h, Handle(h, q, j)))
  }

  ghost predicate Owned(h: Heap, o: Oid) {
    o in h.objs && h.objs[o] == ENTRY
  }

  /** The values in the queue, oldest first. */
  ghost function Contents(h: Heap, q: Oid): seq<Word> {
    seq(Size(h, q), j requires j >= 0 => h.At(ValueLoc(Handle(h, q, j))))
  }

  /** The entry objects that the queue owns. */
  ghost function Live(h: Heap, q: Oid): set<Oid> {
    set o | o in Window(h, q)
  }

  /** Everything in the pool that is not the queue's: allocated objects and what they hold. */
  ghost function Rest(h: Heap, q: Oid): Heap {
    h.Without({q} + Live(h, q))
  }

  /** What a heap says about one queue and about everything else in the pool. */
  datatype Queue = Queue(capacity: nat, front: nat, values: seq<Word>, live: seq<Oid>, rest: Heap)

  ghost function QueueOf(h: Heap, q: Oid): Queue {
    Queue(Capacity(h, q), Front(h, q), Contents(h, q), Window(h, q), Rest(h, q))
  }

  lemma HeaderInHeap(h: Heap, q: Oid)
    requires h.Ok() && Header(h, q)
    ensures FrontLoc(q) in h.mem && BackLoc(q) in h.mem && CapacityLoc(q) in h.mem
    ensures forall i | 0 <= i < h.At(CapacityLoc(q)) :: SlotLoc(q, i) in h.mem
  {
  }

  // ----- Enqueue

  /** The heap after an entry was allocated, filled and put in the given slot. */
  ghost predicate AppendedAt(h0: Heap, h: Heap, q: Oid, slot: Loc, e: Oid, data: Word) {
    && e !in h0.objs && h.Ok() && h.objs == h0.objs[e := ENTRY]
    && (forall l | l in h0.mem && l != BackLoc(q) && l != slot :: h.At(l) == h0.At(l))
    && h.At(BackLoc(q)) == Wrap(h0.At(BackLoc(q)) + 1)
    && h.At(slot) == e
    && h.At(ValueLoc(e)) == data
  }

  /** The given slot is the one after the live window. */
  ghost predicate Appended(h0: Heap, h: Heap, q: Oid, e: Oid, data: Word) {
    AppendedAt(h0, h, q, Slot(h0, q, Size(h0, q)), e, data)
  }

  lemma AppendedHeader(h0: Heap, h: Heap, q: Oid, e: Oid, data: Word)
    requires Wf(h0, q) && Size(h0, q) < Capacity(h0, q) && Appended(h0, h, q, e, data)
    ensures Header(h, q) && Capacity(h, q) == Capacity(h0, q) && Front(h, q) == Front(h0, q)
    ensures Size(h, q) == Size(h0, q) + 1
    ensures Handle(h, q, Size(h0, q)) == e
  {
    HeaderInHeap(h0, q);
    SizeUp(h0.At(FrontLoc(q)), h0.At(BackLoc(q)));
  }

  /** A live slot that is not the one of the old `back` still holds its entry. */
  lemma AppendedHandle(h0: Heap, h: Heap, q: Oid, e: Oid, data: Word, j: nat)
    requires Wf(h0, q) && Size(h0, q) < Capacity(h0, q) && Appended(h0, h, q, e, data) && j < Size(h0, q)
    ensures
      var c, f := Capacity(h0, q), Front(h0, q);
      && Header(h, q)
      && Handle(h, q, j) == (if Pos(c, f, j) == Pos(c, f, Size(h0, q)) then e else Handle(h0, q, j))
      && Owned(h0, Handle(h0, q, j)) && h.At(ValueLoc(Handle(h0, q, j))) == h0.At(ValueLoc(Handle(h0, q, j)))
  {
    HeaderInHeap(h0, q);
    AppendedHeader(h0, h, q, e, data);
    assert ValueLoc(Handle(h0, q, j)) in h0.mem by {
      assert Owned(h0, Handle(h0, q, j));
    }
  }

  lemma AppendedKeeps(h0: Heap, h: Heap, q: Oid, e: Oid, data: Word, j: nat)
    requires Wf(h0, q) && Size(h0, q) < Capacity(h0, q) && Appended(h0, h, q, e, data) && j < Size(h0, q)
    requires Safe(Capacity(h0, q), Front(h0, q), Size(h0, q))
    ensures Header(h, q) && Handle(h, q, j) == Handle(h0, q, j) && Owned(h0, Handle(h0, q, j))
    ensures h.At(ValueLoc(Handle(h, q, j))) == h0.At(ValueLoc(Handle(h0, q, j)))
  {
    CollidesIffUnsafe(Capacity(h0, q), Front(h0, q), Size(h0, q));
    assert Pos(Capacity(h0, q), Front(h0, q), j) != Pos(Capacity(h0, q), Front(h0, q), Size(h0, q));
    AppendedHandle(h0, h, q, e, data, j);
  }

  lemma AppendedContents(h0: Heap, h: Heap, q: Oid, e: Oid, data: Word)
    requires Wf(h0, q) && Size(h0, q) < Capacity(h0, q) && Appended(h0, h, q, e, data)
    requires Safe(Capacity(h0, q), Front(h0, q), Size(h0, q))
    ensures Header(h, q) && Contents(h, q) == Contents(h0, q) + [data] && Window(h, q) == Window(h0, q) + [e]
  {
    AppendedHeader(h0, h, q, e, data);
    forall j: nat | j < Size(h0, q)
      ensures Handle(h, q, j) == Handle(h0, q, j)
      ensures h.At(ValueLoc(Handle(h, q, j))) == h0.At(ValueLoc(Handle(h0, q, j)))
    {
      AppendedKeeps(h0, h, q, e, data, j);
    }
  }

  /** A queue by its window. */
  lemma WfByWindow(h: Heap, q: Oid)
    requires h.Ok() && Header(h, q) && Size(h, q) <= h.At(CapacityLoc(q))
    requires forall i, j | 0 <= i < j < |Window(h, q)| :: Window(h, q)[i] != Window(h, q)[j]
    requires forall o :: o in Window(h, q) ==> Owned(h, o)
    ensures Wf(h, q)
  {
    forall j | 0 <= j < Size(h, q)
      ensures Handle(h, q, j) == Window(h, q)[j] && Owned(h, Handle(h, q, j))
    {
      assert Window(h, q)[j] in Window(h, q);
    }
    forall i, j | 0 <= i < j < Size(h, q)
      ensures Handle(h, q, i) != Handle(h, q, j)
    {
      assert Window(h, q)[i] != Window(h, q)[j];
    }
  }

  lemma WindowOfWf(h: Heap, q: Oid)
    requires Wf(h, q)
    ensures forall i, j | 0 <= i < j < |Window(h, q)| :: Window(h, q)[i] != Window(h, q)[j]
    ensures forall o :: o in Window(h, q) ==> Owned(h, o)
  {
    forall i, j | 0 <= i < j < |Window(h, q)|
      ensures Window(h, q)[i] != Window(h, q)[j]
    {
      assert Handle(h, q, i) != Handle(h, q, j);
    }
    forall o | o in Window(h, q)
      ensures Owned(h, o)
    {
      var j :| 0 <= j < |Window(h, q)| && Window(h, q)[j] == o;
      assert Owned(h, Handle(h, q, j));
    }
  }

  /** Nothing outside the queue changes but for the entry that joins it. */
  lemma AppendedRest(h0: Heap, h: Heap, q: Oid, slot: Loc, e: Oid, data: Word, es: set<Oid>)
    requires h0.Ok() && q in h0.objs && slot.oid == q && AppendedAt(h0, h, q, slot, e, data)
    ensures h.Without({q} + (es + {e})) == h0.Without({q} + es)
  {
    assert h.objs - ({q} + (es + {e})) == h0.objs - ({q} + es);
    RestSame(h0, h, {q} + es, {q} + (es + {e}));
  }

  /** A safe enqueue appends the value and its entry. */
  lemma AppendedSafe(h0: Heap, h: Heap, q: Oid, e: Oid, data: Word)
    requires Wf(h0, q) && Size(h0, q) < Capacity(h0, q) && Appended(h0, h, q, e, data)
    requires Safe(Capacity(h0, q), Front(h0, q), Size(h0, q))
    ensures Wf(h, q) && Contents(h, q) == Contents(h0, q) + [data] && Window(h, q) == Window(h0, q) + [e]
    ensures Rest(h, q) == Rest(h0, q)
  {
    AppendedHeader(h0, h, q, e, data);
    AppendedContents(h0, h, q, e, data);
    WindowOfWf(h0, q);
    assert forall o :: o in Window(h, q) ==> o in Window(h0, q) || o == e;
    assert forall o :: Owned(h, o) <==> Owned(h0, o) || o == e;
    WfByWindow(h, q);
    assert Live(h, q) == Live(h0, q) + {e};
    AppendedRest(h0, h, q, Slot(h0, q, Size(h0, q)), e, data, Live(h0, q));
  }

  /** An unsafe one leaves two live slots with the same handle. */
  lemma AppendedUnsafe(h0: Heap, h: Heap, q: Oid, e: Oid, data: Word)
    requires Wf(h0, q) && Size(h0, q) < Capacity(h0, q) && Appended(h0, h, q, e, data)
    requires !Safe(Capacity(h0, q), Front(h0, q), Size(h0, q))
    ensures !Wf(h, q)
  {
    var c, f, n := Capacity(h0, q), Front(h0, q), Size(h0, q);
    CollidesIffUnsafe(c, f, n);
    var j: nat :| j < n && Pos(c, f, j) == Pos(c, f, n);
    AppendedHeader(h0, h, q, e, data);
    AppendedHandle(h0, h, q, e, data, j);
    assert Handle(h, q, j) == Handle(h, q, n);
  }

  // ----- Dequeue

  /** The heap after the oldest entry was freed and `front` moved on. */
  ghost predicate Dropped(h0: Heap, h: Heap, q: Oid) {
    var e := Handle(h0, q, 0);
    && h.Ok() && h.objs == h0.objs - {e}
    && (forall l | l in h0.mem && l.oid != e && l != FrontLoc(q) :: h.At(l) == h0.At(l))
    && h.At(FrontLoc(q)) == Wrap(h0.At(FrontLoc(q)) + 1)
  }

  lemma DroppedHeader(h0: Heap, h: Heap, q: Oid)
    requires Wf(h0, q) && 0 < Size(h0, q) && Dropped(h0, h, q)
    ensures Header(h, q) && Size(h, q) == Size(h0, q) - 1 && Capacity(h, q) == Capacity(h0, q)
    ensures Front(h, q) == Wrap(Front(h0, q) + 1)
  {
    HeaderInHeap(h0, q);
    assert Owned(h0, Handle(h0, q, 0));
    SizeDown(h0.At(FrontLoc(q)), h0.At(BackLoc(q)));
  }

  lemma DroppedHandle(h0: Heap, h: Heap, q: Oid, j: nat)
    requires Wf(h0, q) && 0 < Size(h0, q) && Dropped(h0, h, q) && j + 1 < Size(h0, q)
    ensures Header(h, q) && Handle(h, q, j) == Handle(h0, q, j + 1)
    ensures h.At(ValueLoc(Handle(h, q, j))) == h0.At(ValueLoc(Handle(h0, q, j + 1)))
  {
    DroppedHeader(h0, h, q);
    PosShift(Capacity(h0, q), Front(h0, q), j);
    var l := SlotLoc(q, Pos(Capacity(h0, q), Front(h0, q), j + 1));
    assert Owned(h0, Handle(h0, q, 0));
    assert l in h0.mem && h.At(l) == h0.At(l);
    assert Owned(h0, Handle(h0, q, j + 1)) && Handle(h0, q, 0) != Handle(h0, q, j + 1);
    assert ValueLoc(Handle(h0, q, j + 1)) in h0.mem;
  }

  lemma DroppedContents(h0: Heap, h: Heap, q: Oid)
    requires Wf(h0, q) && 0 < Size(h0, q) && Dropped(h0, h, q)
    ensures Header(h, q) && Contents(h, q) == Contents(h0, q)[1..] && Window(h, q) == Window(h0, q)[1..]
  {
    DroppedHeader(h0, h, q);
    forall j: nat | j < Size(h, q)
      ensures Handle(h, q, j) == Handle(h0, q, j + 1)
      ensures h.At(ValueLoc(Handle(h, q, j))) == h0.At(ValueLoc(Handle(h0, q, j + 1)))
    {
      DroppedHandle(h0, h, q, j);
    }
  }

  /** Nothing outside the queue changes when an entry leaves it. */
  lemma DroppedRest(h0: Heap, h: Heap, q: Oid, es: set<Oid>)
    requires h0.Ok() && q in h0.objs && Dropped(h0, h, q) && Handle(h0, q, 0) in es
    ensures h.Without({q} + (es - {Handle(h0, q, 0)})) == h0.Without({q} + es)
  {
    var dead := {q} + (es - {Handle(h0, q, 0)});
    assert h.objs - dead == h0.objs - ({q} + es);
    RestSame(h0, h, {q} + es, dead);
  }

  lemma DroppedWf(h0: Heap, h: Heap, q: Oid)
    requires Wf(h0, q) && 0 < Size(h0, q) && Dropped(h0, h, q)
    ensures Wf(h, q) && Contents(h, q) == Contents(h0, q)[1..] && Window(h, q) == Window(h0, q)[1..]
    ensures Rest(h, q) == Rest(h0, q)
  {
    DroppedHeader(h0, h, q);
    DroppedContents(h0, h, q);
    WindowOfWf(h0, q);
    var w, e := Window(h0, q), Window(h0, q)[0];
    assert w == [e] + w[1..];
    assert forall o :: o in w[1..] <==> o in w && o != e;
    assert forall o :: Owned(h, o) <==> Owned(h0, o) && o != e;
    WfByWindow(h, q);
    assert Live(h, q) == Live(h0, q) - {e};
    DroppedRest(h0, h, q, Live(h0, q));
  }

  // ----- The operations

  lemma AppendedIntro(h0: Heap, a: Heap, q: Oid, slot: Loc, e: Oid, data: Word)
    requires h0.Ok() && BackLoc(q) in h0.mem && slot in h0.mem && slot != BackLoc(q)
    requires Extends(h0.Write(BackLoc(q), Wrap(h0.At(BackLoc(q)) + 1)), a, e, ENTRY)
    ensures AppendedAt(h0, a.Write(ValueLoc(e), data).Write(slot, e), q, slot, e, data)
  {
    var h1 := h0.Write(BackLoc(q), Wrap(h0.At(BackLoc(q)) + 1));
    assert slot.oid != e && q != e;
    assert BackLoc(q) in h1.mem && slot in h1.mem;
    assert ValueLoc(e) in a.mem && slot in a.mem && BackLoc(q) in a.mem;
    forall l | l in h0.mem && l != BackLoc(q) && l != slot
      ensures a.Write(ValueLoc(e), data).Write(slot, e).At(l) == h0.At(l)
    {
      assert l in h1.mem && l.oid != e;
    }
  }

  /** The first half of the transaction of queue_enqueue: the counter, and the allocation of the entry. */
  method EnqueueAlloc(pool: Pool, q: Oid) returns (ok: bool, e: Oid)
    requires pool.Idle() && BackLoc(q) in pool.heap.mem
    modifies pool
    ensures pool.TxAfter(ok) && pool.base == old(pool.heap) && pool.past == old(pool.images) && pool.freed == {}
    ensures ok ==> e in pool.born
    ensures ok ==> Extends(pool.base.Write(BackLoc(q), Wrap(pool.base.At(BackLoc(q)) + 1)), pool.heap, e, ENTRY)
  {
    e := OID_NULL;
    ok := pool.Begin();
    if !ok { return; }
    ok := pool.AddField(BackLoc(q));
    if !ok { return; }
    pool.Store(BackLoc(q), Wrap(pool.Read(BackLoc(q)) + 1));
    ok, e := pool.Alloc(ENTRY_TYPE, 8, false);
  }

  /** The second half: the value and the slot. */
  method EnqueueStore(pool: Pool, slot: Loc, e: Oid, data: Word) returns (ok: bool)
    requires pool.Working() && slot in pool.heap.mem && ValueLoc(e) in pool.heap.mem && e in pool.born
    modifies pool
    ensures pool.TxAfter(ok) && pool.base == old(pool.base) && pool.past == old(pool.past)
    ensures pool.freed == old(pool.freed)
    ensures ok ==> pool.heap == old(pool.heap).Write(ValueLoc(e), data).Write(slot, e)
  {
    pool.Store(ValueLoc(e), data);
    ok := pool.AddField(slot);
    if !ok { return; }
    pool.Store(slot, e);
  }

  /** The transaction of queue_enqueue. */
  method EnqueueWork(pool: Pool, q: Oid, slot: Loc, data: Word) returns (ok: bool, e: Oid)
    requires pool.Idle() && BackLoc(q) in pool.heap.mem && slot in pool.heap.mem && slot != BackLoc(q)
    modifies pool
    ensures pool.TxAfter(ok) && pool.base == old(pool.heap) && pool.past == old(pool.images) && pool.freed == {}
    ensures ok ==> AppendedAt(pool.base, pool.heap, q, slot, e, data)
  {
    ok, e := EnqueueAlloc(pool, q);
    if !ok { return; }
    ghost var a := pool.heap;
    AppendedIntro(pool.base, a, q, slot, e, data);
    assert ValueLoc(e) in a.mem && slot in a.mem;
    ok := EnqueueStore(pool, slot, e, data);
  }

  /** What a successful enqueue does: one object more is in use, and no cell outside the queue changes. When
      the next slot is not a live one, the value is appended with its entry and nothing else changes; when
      it is, the queue is broken. */
  ghost predicate Enqueued(h0: Heap, h: Heap, q: Oid, data: Word, e: Oid) {
    && e !in h0.objs && h.objs == h0.objs[e := ENTRY]
    && Capacity(h0, q) > 0
    && (forall l | l in h0.mem && l.oid != q :: h.At(l) == h0.At(l))
    && (Wf(h, q) <==> Safe(Capacity(h0, q), Front(h0, q), Size(h0, q)))
    && (Wf(h, q) ==>
          QueueOf(h, q) == QueueOf(h0, q).(values := Contents(h0, q) + [data], live := Window(h0, q) + [e]))
  }

  /** What a successful dequeue does: the oldest value goes, and with it its entry and nothing else. */
  ghost predicate Dequeued(h0: Heap, h: Heap, q: Oid)
    requires Size(h0, q) > 0
  {
    && Wf(h, q)
    && h.objs == h0.objs - {Window(h0, q)[0]}
    && QueueOf(h, q) == QueueOf(h0, q).(
         front := Wrap(Front(h0, q) + 1), values := Contents(h0, q)[1..], live := Window(h0, q)[1..])
  }

  /** The slot that queue_enqueue will fill. */
  method NextSlot(pool: Pool, q: Oid) returns (slot: Loc)
    requires pool.Idle() && Wf(pool.heap, q) && Size(pool.heap, q) < Capacity(pool.heap, q)
    ensures slot == Slot(pool.heap, q, Size(pool.heap, q)) && slot in pool.heap.mem && slot != BackLoc(q)
  {
    HeaderInHeap(pool.heap, q);
    var front, back, capacity := pool.Read(FrontLoc(q)), pool.Read(BackLoc(q)), pool.Read(CapacityLoc(q));
    assert capacity > 0;
    SizeUp(front, back);
    slot := SlotLoc(q, back % capacity);
  }

  method IsFull(pool: Pool, q: Oid) returns (full: bool)
    requires pool.Idle() && Wf(pool.heap, q)
    ensures full <==> Size(pool.heap, q) == Capacity(pool.heap, q)
    ensures BackLoc(q) in pool.heap.mem
  {
    HeaderInHeap(pool.heap, q);
    var size := QueueSize(pool, q);
    full := size == pool.Read(CapacityLoc(q));
  }

  /** queue_enqueue: -1 exactly without a queue, when it is full or when a primitive fails. When it does not,
      the value is appended, unless the next slot is a live one; then the queue is broken. */
  method Enqueue(pool: Pool, q: Oid, data: Word) returns (ret: int, ghost e: Oid)
    requires pool.Idle() && (q != OID_NULL ==> Wf(pool.heap, q))
    modifies pool
    ensures pool.Idle() && (ret == 0 || ret == -1)
    ensures ret == -1 <==> q == OID_NULL || Size(old(pool.heap), q) == Capacity(old(pool.heap), q) || pool.refused
    ensures ret == -1 ==> pool.heap == old(pool.heap)
    ensures ret == 0 ==> Enqueued(old(pool.heap), pool.heap, q, data, e)
    ensures Recovers(old(pool.images), pool.images, old(pool.heap), pool.heap)
  {
    e := OID_NULL;
    if q == OID_NULL { return -1, e; }
    var full := IsFull(pool, q);
    if full { return -1, e; }
    var slot := NextSlot(pool, q);
    var ok;
    ok, e := EnqueueWork(pool, q, slot, data);
    if !ok {
      pool.Abort();
      return -1, e;
    }
    EnqueueOutcome(pool.base, pool.heap, q, e, data);
    WithoutNone(pool.heap);
    pool.Commit();
    ret := 0;
  }

  lemma EnqueueOutcome(h0: Heap, h: Heap, q: Oid, e: Oid, data: Word)
    requires Wf(h0, q) && Size(h0, q) < Capacity(h0, q) && Appended(h0, h, q, e, data)
    ensures Enqueued(h0, h, q, data, e)
  {
    AppendedHeader(h0, h, q, e, data);
    HeaderInHeap(h0, q);
    if Safe(Capacity(h0, q), Front(h0, q), Size(h0, q)) {
      AppendedSafe(h0, h, q, e, data);
    } else {
      AppendedUnsafe(h0, h, q, e, data);
    }
  }

  /** queue_size */
  method QueueSize(pool: Pool, q: Oid) returns (n: nat)
    requires pool.Idle() && Wf(pool.heap, q)
    ensures n == |Contents(pool.heap, q)|
  {
    HeaderInHeap(pool.heap, q);
    n := Wrap(pool.Read(BackLoc(q)) - pool.Read(FrontLoc(q)));
  }

  /** The transaction of queue_dequeue. */
  method DequeueWork(pool: Pool, q: Oid, slot: Loc) returns (ok: bool)
    requires pool.Idle() && FrontLoc(q) in pool.heap.mem && slot in pool.heap.mem && slot != FrontLoc(q)
    requires pool.heap.At(slot) in pool.heap.objs
    modifies pool
    ensures pool.TxAfter(ok) && pool.base == old(pool.heap) && pool.past == old(pool.images)
    ensures ok ==> pool.heap.Without(pool.freed) == DequeuedHeap(pool.base, q, slot)
  {
    ok := pool.Begin();
    if !ok { return; }
    ok := pool.AddField(FrontLoc(q));
    if !ok { return; }
    pool.Store(FrontLoc(q), Wrap(pool.Read(FrontLoc(q)) + 1));
    ok := pool.Free(pool.Read(slot));
  }

  /** queue_dequeue: -1 exactly without a queue, when it is empty or when a primitive fails. */
  method Dequeue(pool: Pool, q: Oid) returns (ret: int)
    requires pool.Idle() && (q != OID_NULL ==> Wf(pool.heap, q))
    modifies pool
    ensures pool.Idle() && (ret == 0 || ret == -1)
    ensures ret == -1 <==> q == OID_NULL || Size(old(pool.heap), q) == 0 || pool.refused
    ensures ret == -1 ==> pool.heap == old(pool.heap)
    ensures ret == 0 ==> Dequeued(old(pool.heap), pool.heap, q)
    ensures Recovers(old(pool.images), pool.images, old(pool.heap), pool.heap)
  {
    if q == OID_NULL { return -1; }
    HeaderInHeap(pool.heap, q);
    var size := QueueSize(pool, q);
    if size == 0 { return -1; }
    ghost var h0 := pool.heap;
    var pos := pool.Read(FrontLoc(q)) % pool.Read(CapacityLoc(q));
    assert SlotLoc(q, pos) == Slot(h0, q, 0);
    assert Owned(h0, Handle(h0, q, 0));
    var ok := DequeueWork(pool, q, SlotLoc(q, pos));
    if !ok {
      pool.Abort();
      return -1;
    }
    pool.Commit();
    DequeueOutcome(h0, pool.heap, q);
    ret := 0;
  }

  /** The stores of queue_dequeue, and the free. */
  function DequeuedHeap(h: Heap, q: Oid, slot: Loc): Heap {
    h.Write(FrontLoc(q), Wrap(h.At(FrontLoc(q)) + 1)).Without({h.At(slot)})
  }

  lemma DequeueOutcome(h0: Heap, h: Heap, q: Oid)
    requires Wf(h0, q) && 0 < Size(h0, q) && h == DequeuedHeap(h0, q, Slot(h0, q, 0))
    ensures Dequeued(h0, h, q)
  {
    DroppedIntro(h0, h, q);
    DroppedHeader(h0, h, q);
    DroppedWf(h0, h, q);
  }

  lemma DroppedIntro(h0: Heap, h: Heap, q: Oid)
    requires Wf(h0, q) && 0 < Size(h0, q) && h == DequeuedHeap(h0, q, Slot(h0, q, 0))
    ensures Dropped(h0, h, q)
  {
    HeaderInHeap(h0, q);
    assert Owned(h0, Handle(h0, q, 0));
  }

  // ----- Creation

  /** queue_new with queue_constructor: an empty queue with its handle where the caller wants it, exactly when
      the capacity is safe. The slots hold anything. The constructor stores outside of the object exactly when
      that is too small for the counters, which takes a capacity that is not safe. */
  method New(pool: Pool, dest: Dest, capacity: nat) returns (ok: bool, wild: bool, q: Oid)
    requires pool.Idle() && DestOk(pool.heap, dest) && capacity < WORD_RANGE
    modifies pool
    ensures wild ==> !Fits(capacity) && RING_TYPE.Words(RingBytes(capacity)) < 3
    ensures !wild && ok ==> RING_TYPE.Words(RingBytes(capacity)) >= 3
    ensures !wild ==> pool.Idle() && (ok <==> !pool.refused)
    ensures !wild ==> Recovers(old(pool.images), pool.images, old(pool.heap), pool.heap)
    ensures !wild && !ok ==> pool.heap == old(pool.heap)
    ensures !wild && ok ==> q !in old(pool.heap).objs && (Wf(pool.heap, q) <==> Fits(capacity))
    ensures !wild && ok && Fits(capacity) ==>
        QueueOf(pool.heap, q) == Queue(capacity, 0, [], [], Stored(old(pool.heap), dest, q))
  {
    ghost var h0 := pool.heap;
    ok, wild, q := pool.AllocAtomic(RING_TYPE, RingBytes(capacity), [0, 0, capacity], dest);
    if RingBytes(capacity) <= MAX_ALLOC_SIZE { RoomIffFits(capacity); }
    if !wild && ok {
      NewFields(Stored(h0, dest, q), pool.heap, q, capacity);
    }
  }

  lemma NewFields(h0: Heap, h: Heap, q: Oid, capacity: nat)
    requires h0.Ok() && capacity < WORD_RANGE && RingBytes(capacity) <= MAX_ALLOC_SIZE
    requires Extends(h0, h, q, RING_TYPE.Object(RingBytes(capacity)))
    requires h.At(FrontLoc(q)) == 0 && h.At(BackLoc(q)) == 0 && h.At(CapacityLoc(q)) == capacity
    ensures Wf(h, q) <==> Fits(capacity)
    ensures Fits(capacity) ==> QueueOf(h, q) == Queue(capacity, 0, [], [], h0)
  {
    RoomIffFits(capacity);
    assert Live(h, q) == {};
    assert h.objs - {q} == h0.objs - {};
    RestSame(h0, h, {}, {q});
    WithoutNone(h0);
    assert {q} + {} == {q};
  }

  // ----- A queue that breaks

  /** Three slots and one entry, written to the last counter value before the counters wrap. */
  function Brink(): Heap {
    Heap(
      map[FrontLoc(1) := WORD_RANGE - 1, BackLoc(1) := 0, CapacityLoc(1) := 3,
          SlotLoc(1, 0) := 2, SlotLoc(1, 1) := 0, SlotLoc(1, 2) := 0, ValueLoc(2) := 7],
      map[1 := Ring(3), 2 := ENTRY])
  }

  ghost predicate OnBrink(b: Heap, q: Oid, e: Oid) {
    && b.Ok() && q != e && b.objs == map[q := Ring(3), e := ENTRY]
    && b.At(FrontLoc(q)) == WORD_RANGE - 1 && b.At(BackLoc(q)) == 0 && b.At(CapacityLoc(q)) == 3
    && b.At(SlotLoc(q, 0)) == e
  }

  lemma BrinkExists()
    ensures OnBrink(Brink(), 1, 2)
  {
  }

  lemma BrinkWindow(b: Heap, q: Oid, e: Oid)
    requires OnBrink(b, q, e)
    ensures Size(b, q) == 1 && Capacity(b, q) == 3 && Front(b, q) == WORD_RANGE - 1 && Handle(b, q, 0) == e
  {
    UnsafeExample();
  }

  /** A queue whose next successful enqueue breaks it. */
  lemma BrinkBreaks(b: Heap, q: Oid, e: Oid, h: Heap, f: Oid, data: Word)
    requires OnBrink(b, q, e)
    ensures Wf(b, q) && |Contents(b, q)| == 1 && !Safe(Capacity(b, q), Front(b, q), Size(b, q))
    ensures Enqueued(b, h, q, data, f) ==> !Wf(h, q)
  {
    BrinkWindow(b, q, e);
    UnsafeExample();
  }
}
