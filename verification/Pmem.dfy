/** Persistent memory with undo-log transactions, as promised by the libpmemobj headers.

    The heap is a map from cells to words. A transaction snapshots cells into an undo log before it
    writes them, and keeps apart the objects it allocated and the objects it wants freed. What a power
    failure leaves behind is an `Image`, and `Recover` is what opening the pool again makes of it.
    `Pool.images` is the history of all images the medium has held, one for each primitive step, so a
    statement about every entry of that history is a statement about every crash point. */
module Pmem {

  type Oid = int
  type Word = int

  const OID_NULL: Oid := 0
  /** Object offsets and counters are 64 bits wide. */
  const WORD_RANGE: int := 0x1_0000_0000_0000_0000
  /** Unsigned 64-bit arithmetic. */
  function Wrap(x: int): (w: int)
    ensures 0 <= w < WORD_RANGE && (x - w) % WORD_RANGE == 0
    ensures 0 <= x < WORD_RANGE ==> w == x
  {
    x % 0x1_0000_0000_0000_0000
  }

  /** PMEMOBJ_MAX_ALLOC_SIZE */
  const MAX_ALLOC_SIZE: int := 0x3_FFDF_FFC0

  datatype Loc = Loc(oid: Oid, off: nat)

  /** The type number and the number of words of an allocated object. */
  datatype Obj = Obj(typeNum: nat, words: nat)

  /** How a type lies in memory: `head` words in the first `headBytes` bytes, and then words of `itemBytes`
      bytes each for as long as there is room. */
  datatype Layout = Layout(typeNum: nat, head: nat, headBytes: nat, itemBytes: nat) {
    /** The whole words of an object of that many bytes; one that is too small for its head has none. */
    function Words(bytes: nat): nat {
      if bytes < headBytes then 0
      else if itemBytes == 0 then head
      else head + (bytes - headBytes) / itemBytes
    }

    function Object(bytes: nat): Obj {
      Obj(typeNum, Words(bytes))
    }
  }

  datatype Heap = Heap(mem: map<Loc, Word>, objs: map<Oid, Obj>) {

    /** Exactly the words of the allocated objects can be accessed. */
    ghost predicate Ok() {
      && (forall l :: l in mem <==> l.oid in objs && l.off < objs[l.oid].words)
      && (forall o :: o in objs ==> 0 < o < WORD_RANGE)
    }

    function At(l: Loc): Word {
      if l in mem then mem[l] else 0
    }

    function Write(l: Loc, w: Word): Heap {
      this.(mem := mem[l := w])
    }

    /** The cells of `o` become `init` and `o` becomes an allocated object. */
    function With(o: Oid, obj: Obj, init: seq<Word>): Heap
      requires |init| == obj.words
    {
      Heap(mem + Cells(o, init), objs[o := obj])
    }

    function Without(dead: set<Oid>): Heap {
      Heap(map l | l in mem && l.oid !in dead :: mem[l], objs - dead)
    }
  }

  /** Where the handle of a new object goes: to a variable of the program or to a cell of the pool. */
  datatype Dest = Variable | Cell(loc: Loc)

  predicate DestOk(h: Heap, d: Dest) {
    d.Cell? ==> d.loc in h.mem
  }

  function Stored(h: Heap, d: Dest, o: Oid): Heap {
    match d
    case Variable => h
    case Cell(l) => h.Write(l, o)
  }

  /** The heap `h` is `h0` with one object more. */
  ghost predicate Extends(h0: Heap, h: Heap, o: Oid, obj: Obj) {
    && o !in h0.objs && h.Ok() && h.objs == h0.objs[o := obj]
    && forall l | l in h0.mem :: h.At(l) == h0.At(l)
  }

  ghost predicate Zeroed(h: Heap, o: Oid) {
    forall l: Loc | l.oid == o :: h.At(l) == 0
  }

  function Cells(o: Oid, init: seq<Word>): map<Loc, Word> {
    map i | 0 <= i < |init| :: Loc(o, i) := init[i]
  }

  /** One snapshot: a cell and what it held. */
  datatype Record = Record(loc: Loc, was: Word)

  function Logged(log: seq<Record>): set<Loc> {
    set r | r in log :: r.loc
  }

  /** The snapshots of `n` words of an object. */
  function Snapshots(h: Heap, o: Oid, off: nat, n: nat): seq<Record> {
    seq(n, i requires 0 <= i < n => Record(Loc(o, off + i), h.At(Loc(o, off + i))))
  }

  /** Rolls a log back over the memory, the newest snapshot first. */
  function Replay(log: seq<Record>, mem: map<Loc, Word>): map<Loc, Word> {
    if log == [] then mem
    else
      var r := log[|log| - 1];
      Replay(log[..|log| - 1], mem[r.loc := r.was])
  }

  /** What the medium holds: the heap, the undo log and the objects the open transaction allocated.
      Frees take effect at commit, so they leave no trace here. */
  datatype Image = Image(heap: Heap, log: seq<Record>, born: set<Oid>)

  /** What a pool holds after it is opened on the image. */
  function Recover(im: Image): Heap {
    Heap(Replay(im.log, im.heap.mem), im.heap.objs).Without(im.born)
  }

  /** The history `images` continues `past`, and a power failure at any later point leads to `h` or `h'`. */
  ghost predicate Recovers(past: seq<Image>, images: seq<Image>, h: Heap, h': Heap) {
    && past <= images
    && forall k | |past| <= k < |images| :: Recover(images[k]) == h || Recover(images[k]) == h'
  }

  /** A cell the open transaction is free to write. */
  predicate Covered(im: Image, l: Loc) {
    l.oid in im.born || l in Logged(im.log)
  }

  ghost predicate ImageOk(im: Image) {
    && im.heap.Ok()
    && Logged(im.log) <= im.heap.mem.Keys
    && im.born <= im.heap.objs.Keys
  }

  // ----- Rolling back

  lemma LoggedAppend(log: seq<Record>, more: seq<Record>)
    ensures Logged(log + more) == Logged(log) + Logged(more)
  {
  }

  lemma LoggedLast(log: seq<Record>)
    requires log != []
    ensures Logged(log) == Logged(log[..|log| - 1]) + {log[|log| - 1].loc}
  {
    assert log == log[..|log| - 1] + [log[|log| - 1]];
    LoggedAppend(log[..|log| - 1], [log[|log| - 1]]);
  }

  lemma {:induction false} ReplayKeys(log: seq<Record>, mem: map<Loc, Word>)
    ensures Replay(log, mem).Keys == mem.Keys + Logged(log)
    decreases |log|
  {
    if log != [] {
      var r := log[|log| - 1];
      LoggedLast(log);
      ReplayKeys(log[..|log| - 1], mem[r.loc := r.was]);
    }
  }

  /** Rolling back does not look at the cells that were logged. */
  lemma {:induction false} ReplayIgnoresLogged(log: seq<Record>, m1: map<Loc, Word>, m2: map<Loc, Word>,
                                               drop: set<Oid>)
    requires m1.Keys == m2.Keys
    requires forall l :: l in m1 && l.oid !in drop && l !in Logged(log) ==> m1[l] == m2[l]
    ensures Replay(log, m1).Keys == Replay(log, m2).Keys
    ensures forall l :: l in Replay(log, m1) && l.oid !in drop ==> Replay(log, m1)[l] == Replay(log, m2)[l]
    decreases |log|
  {
    if log != [] {
      var r := log[|log| - 1];
      LoggedLast(log);
      ReplayIgnoresLogged(log[..|log| - 1], m1[r.loc := r.was], m2[r.loc := r.was], drop);
    }
  }

  /** Snapshots of current values change nothing that rolling back gives. */
  lemma {:induction false} ReplaySnapshots(log: seq<Record>, more: seq<Record>, mem: map<Loc, Word>)
    requires forall r :: r in more ==> r.loc in mem && mem[r.loc] == r.was
    ensures Replay(log + more, mem) == Replay(log, mem)
    decreases |more|
  {
    if more == [] {
      assert log + more == log;
    } else {
      var n := |more| - 1;
      assert (log + more)[..|log + more| - 1] == log + more[..n];
      assert mem[more[n].loc := more[n].was] == mem;
      ReplaySnapshots(log, more[..n], mem);
    }
  }

  /** Rolling back leaves new cells alone. */
  lemma {:induction false} ReplayNewCells(log: seq<Record>, mem: map<Loc, Word>, cells: map<Loc, Word>)
    requires Logged(log) !! cells.Keys
    ensures Replay(log, mem + cells) == Replay(log, mem) + cells
    decreases |log|
  {
    if log != [] {
      var r := log[|log| - 1];
      LoggedLast(log);
      assert (mem + cells)[r.loc := r.was] == mem[r.loc := r.was] + cells;
      ReplayNewCells(log[..|log| - 1], mem[r.loc := r.was], cells);
    }
  }

  /** The promise of the undo log: whatever became of the covered cells, be it a program write, a store
      that reached the medium early or not at all, or a roll back cut short, recovery gives the same heap. */
  lemma {:induction false} RecoverIgnoresCovered(im: Image, mem: map<Loc, Word>)
    requires mem.Keys == im.heap.mem.Keys
    requires forall l :: l in mem && !Covered(im, l) ==> mem[l] == im.heap.mem[l]
    ensures Recover(im.(heap := im.heap.(mem := mem))) == Recover(im)
  {
    ReplayIgnoresLogged(im.log, mem, im.heap.mem, im.born);
  }

  lemma {:induction false} ReplayUnlogged(log: seq<Record>, mem: map<Loc, Word>, l: Loc)
    requires l in mem && l !in Logged(log)
    ensures l in Replay(log, mem) && Replay(log, mem)[l] == mem[l]
    decreases |log|
  {
    if log != [] {
      var r := log[|log| - 1];
      LoggedLast(log);
      ReplayUnlogged(log[..|log| - 1], mem[r.loc := r.was], l);
    }
  }

  /** A store is undone by recovery exactly when its cell is covered, or nothing was stored. */
  lemma StoreUndone(im: Image, l: Loc, w: Word)
    requires ImageOk(im) && l in im.heap.mem
    ensures Recover(im.(heap := im.heap.Write(l, w))) == Recover(im) <==> Covered(im, l) || im.heap.mem[l] == w
  {
    var mem := im.heap.mem[l := w];
    if Covered(im, l) {
      RecoverIgnoresCovered(im, mem);
    } else if im.heap.mem[l] == w {
      assert mem == im.heap.mem;
    } else {
      ReplayUnlogged(im.log, mem, l);
      ReplayUnlogged(im.log, im.heap.mem, l);
      assert Recover(im.(heap := im.heap.Write(l, w))).mem[l] == w;
      assert Recover(im).mem[l] == im.heap.mem[l];
    }
  }

  lemma SnapshotsCurrent(h: Heap, o: Oid, off: nat, n: nat)
    requires h.Ok() && o in h.objs && off + n <= h.objs[o].words
    ensures forall r :: r in Snapshots(h, o, off, n) ==> r.loc in h.mem && h.mem[r.loc] == r.was
    ensures forall i | off <= i < off + n :: Loc(o, i) in Logged(Snapshots(h, o, off, n))
  {
    var more := Snapshots(h, o, off, n);
    forall k | 0 <= k < |more|
      ensures more[k].loc in h.mem && h.mem[more[k].loc] == more[k].was
    {
      assert Loc(o, off + k) in h.mem && more[k].was == h.At(Loc(o, off + k));
    }
    forall i | off <= i < off + n
      ensures Loc(o, i) in Logged(more)
    {
      assert more[i - off] in more;
    }
  }

  lemma {:induction false} RecoverAfterSnapshots(im: Image, more: seq<Record>)
    requires forall r :: r in more ==> r.loc in im.heap.mem && im.heap.mem[r.loc] == r.was
    ensures Recover(im.(log := im.log + more)) == Recover(im)
  {
    ReplaySnapshots(im.log, more, im.heap.mem);
  }

  lemma {:induction false} RecoverAfterAlloc(im: Image, o: Oid, obj: Obj, init: seq<Word>)
    requires ImageOk(im) && o !in im.heap.objs && |init| == obj.words
    ensures Recover(Image(im.heap.With(o, obj, init), im.log, im.born + {o})) == Recover(im)
  {
    var after := Recover(Image(im.heap.With(o, obj, init), im.log, im.born + {o}));
    ReplayNewCells(im.log, im.heap.mem, Cells(o, init));
    ReplayKeys(im.log, im.heap.mem);
    assert after.objs == Recover(im).objs;
    assert after.mem == Recover(im).mem;
  }

  /** Two heaps that agree outside of what is taken away. */
  lemma RestSame(h: Heap, h': Heap, dead: set<Oid>, dead': set<Oid>)
    requires h.Ok() && h'.Ok()
    requires h'.objs - dead' == h.objs - dead
    requires forall l | l in h.mem && l.oid !in dead :: h'.At(l) == h.At(l)
    ensures h'.Without(dead') == h.Without(dead)
  {
    var a, b := h'.Without(dead'), h.Without(dead);
    forall l
      ensures l in a.mem <==> l in b.mem
    {
      assert l.oid in h'.objs - dead' <==> l.oid in h.objs - dead;
      assert l.oid in h.objs - dead ==> (h'.objs - dead')[l.oid] == (h.objs - dead)[l.oid];
    }
    assert a.mem == b.mem;
  }

  lemma WithoutNone(h: Heap)
    ensures h.Without({}) == h
  {
    assert h.Without({}).mem == h.mem;
    assert h.objs - {} == h.objs;
  }

  lemma RecoverIdle(h: Heap)
    ensures Recover(Image(h, [], {})) == h
  {
    WithoutNone(h);
  }

  lemma StoredOk(h: Heap, d: Dest, o: Oid)
    requires h.Ok() && DestOk(h, d)
    ensures Stored(h, d, o).Ok() && Stored(h, d, o).objs == h.objs
  {
  }

  lemma CellsAt(o: Oid, init: seq<Word>, l: Loc)
    ensures l in Cells(o, init) <==> l.oid == o && l.off < |init|
    ensures l in Cells(o, init) ==> Cells(o, init)[l] == init[l.off]
  {
    assert l == Loc(l.oid, l.off);
  }

  lemma WithExtends(h: Heap, o: Oid, obj: Obj, init: seq<Word>)
    requires h.Ok() && 0 < o < WORD_RANGE && o !in h.objs && |init| == obj.words
    ensures Extends(h, h.With(o, obj, init), o, obj)
    ensures forall i | 0 <= i < |init| :: h.With(o, obj, init).At(Loc(o, i)) == init[i]
  {
    var cells := Cells(o, init);
    forall l: Loc
      ensures l in cells <==> l.oid == o && l.off < |init|
      ensures l in cells ==> cells[l] == init[l.off]
    {
      CellsAt(o, init, l);
    }
  }

  lemma {:induction false} RecoverOk(im: Image)
    requires ImageOk(im)
    ensures Recover(im).Ok()
  {
    ReplayKeys(im.log, im.heap.mem);
  }

  /** The pool handle, with the state of its transaction. The ghost fields remember the heap and the
      history from before the transaction and whether every store so far was to a covered cell. */
  class Pool {
    var heap: Heap
    var log: seq<Record>
    var born: set<Oid>
    var freed: set<Oid>
    var inTx: bool
    var images: seq<Image>
    /** Whether the latest allocation or transaction failed, as errno tells. */
    var refused: bool

    ghost var base: Heap
    ghost var past: seq<Image>
    ghost var disciplined: bool

    function Now(): Image
      reads this
    {
      Image(heap, log, born)
    }

    /** A transaction that wrote covered cells only has not changed what recovery gives, at any point. */
    ghost predicate Valid()
      reads this
    {
      && ImageOk(Now())
      && freed <= heap.objs.Keys
      && (!inTx ==> log == [] && born == {} && freed == {})
      && (inTx && disciplined ==> Recover(Now()) == base && Recovers(past, images, base, base) && |past| < |images|)
    }

    ghost predicate Idle()
      reads this
    {
      Valid() && !inTx
    }

    /** Inside the transaction that started from `base`, with the discipline kept so far. */
    ghost predicate InTx()
      reads this
    {
      Valid() && inTx && disciplined
    }

    /** In the work stage: control leaves it as soon as a primitive fails. */
    ghost predicate Working()
      reads this
    {
      InTx() && !refused
    }

    /** Inside the transaction, in the work stage or, after a failure, on the way to ONABORT. */
    ghost predicate TxAfter(ok: bool)
      reads this
    {
      InTx() && (ok <==> !refused)
    }

    /** D_RO: only allocated cells can be read. */
    function Read(l: Loc): (w: Word)
      requires l in heap.mem
      reads this
      ensures w == heap.At(l)
    {
      heap.mem[l]
    }

    constructor ()
      ensures Idle() && heap == Heap(map[], map[]) && images == []
    {
      heap := Heap(map[], map[]);
      log, born, freed, inTx, images := [], {}, {}, false, [];
    }

    /** TX_BEGIN. Like every primitive of a transaction it may fail, and then the stage is ONABORT. */
    method Begin() returns (ok: bool)
      requires Idle()
      modifies this
      ensures TxAfter(ok) && heap == old(heap) && log == [] && born == {} && freed == {}
      ensures base == old(heap) && past == old(images)
    {
      ok := *;
      inTx := true;
      base, past, disciplined, refused := heap, images, true, !ok;
      images := images + [Now()];
      RecoverIdle(heap);
    }

    /** pmemobj_tx_add_range over `n` words of an object. */
    method AddRange(o: Oid, off: nat, n: nat) returns (ok: bool)
      requires Working()
      requires o in heap.objs && off + n <= heap.objs[o].words
      modifies this
      ensures TxAfter(ok) && base == old(base) && past == old(past)
      ensures heap == old(heap) && born == old(born) && freed == old(freed)
      ensures Logged(old(log)) <= Logged(log)
      ensures ok ==> forall i | off <= i < off + n :: Loc(o, i) in Logged(log)
    {
      ok := *;
      if ok {
        SnapshotsCurrent(heap, o, off, n);
        RecoverAfterSnapshots(Now(), Snapshots(heap, o, off, n));
        LoggedAppend(log, Snapshots(heap, o, off, n));
        log := log + Snapshots(heap, o, off, n);
      }
      refused := !ok;
      images := images + [Now()];
    }

    /** TX_ADD_FIELD and TX_ADD_DIRECT: the snapshot of a single field. */
    method AddField(l: Loc) returns (ok: bool)
      requires Working() && l in heap.mem
      modifies this
      ensures TxAfter(ok) && base == old(base) && past == old(past)
      ensures heap == old(heap) && born == old(born) && freed == old(freed)
      ensures Logged(old(log)) <= Logged(log)
      ensures ok ==> l in Logged(log)
    {
      ok := AddRange(l.oid, l.off, 1);
    }

    /** A store through D_RW or a direct pointer. Nothing stops a store to a cell that is not covered,
        but then nothing is known about recovery any more. */
    method Store(l: Loc, w: Word)
      requires Valid() && l in heap.mem
      modifies this
      ensures Valid() && inTx == old(inTx) && refused == old(refused) && base == old(base) && past == old(past)
      ensures heap == old(heap).Write(l, w) && log == old(log) && born == old(born) && freed == old(freed)
      ensures disciplined <==> old(disciplined) && Covered(old(Now()), l)
    {
      if Covered(Now(), l) {
        RecoverIgnoresCovered(Now(), heap.mem[l := w]);
      }
      disciplined := disciplined && Covered(Now(), l);
      heap := heap.Write(l, w);
      images := images + [Now()];
    }

    /** TX_NEW, TX_ZNEW and TX_ZALLOC. The object is new, has room for what its bytes have room for and, unless
        it is zeroed, holds anything. */
    method Alloc(layout: Layout, bytes: nat, zeroed: bool) returns (ok: bool, o: Oid)
      requires Working()
      modifies this
      ensures TxAfter(ok) && base == old(base) && past == old(past)
      ensures log == old(log) && freed == old(freed)
      ensures !ok ==> o == OID_NULL && heap == old(heap) && born == old(born)
      ensures ok ==> Extends(old(heap), heap, o, layout.Object(bytes)) && born == old(born) + {o}
      ensures ok ==> bytes <= MAX_ALLOC_SIZE
      ensures ok && zeroed ==> Zeroed(heap, o)
    {
      ok, o := false, OID_NULL;
      var willing: bool := *;
      if willing && bytes <= MAX_ALLOC_SIZE {
        if place: Oid :| 0 < place < WORD_RANGE && place !in heap.objs {
          var junk: seq<Word> := *;
          var n := layout.Words(bytes);
          var init := seq(n, i requires 0 <= i < n => if zeroed || |junk| <= i then 0 else junk[i]);
          Place(place, layout.Object(bytes), init);
          return true, place;
        }
      }
      refused := true;
      images := images + [Now()];
    }

    /** An object comes into being inside the transaction. */
    method Place(o: Oid, obj: Obj, init: seq<Word>)
      requires Working() && 0 < o < WORD_RANGE && o !in heap.objs && |init| == obj.words
      modifies this
      ensures Working() && base == old(base) && past == old(past)
      ensures log == old(log) && freed == old(freed) && born == old(born) + {o}
      ensures heap == old(heap).With(o, obj, init) && heap.Ok()
    {
      RecoverAfterAlloc(Now(), o, obj, init);
      heap, born := heap.With(o, obj, init), born + {o};
      images := images + [Now()];
    }

    /** TX_FREE: the object goes when the transaction commits. */
    method Free(o: Oid) returns (ok: bool)
      requires Working() && o in heap.objs && o !in freed
      modifies this
      ensures TxAfter(ok) && base == old(base) && past == old(past)
      ensures heap == old(heap) && log == old(log) && born == old(born)
      ensures freed == if ok then old(freed) + {o} else old(freed)
    {
      ok := *;
      if ok {
        freed := freed + {o};
      }
      refused := !ok;
      images := images + [Now()];
    }

    /** The end of TX_STAGE_WORK: the writes stay, the frees happen and the log is dropped, all at once. */
    method Commit()
      requires Working()
      modifies this
      ensures Idle() && !refused && heap == old(heap).Without(old(freed))
      ensures Recovers(old(past), images, old(base), heap)
    {
      heap := heap.Without(freed);
      log, born, freed, inTx := [], {}, {}, false;
      images := images + [Now()];
      RecoverIdle(heap);
    }

    /** TX_STAGE_ONABORT: the same roll back that recovery performs. */
    method Abort()
      requires InTx() && refused
      modifies this
      ensures Idle() && refused && heap == old(base)
      ensures Recovers(old(past), images, old(base), heap)
    {
      RecoverOk(Now());
      heap := Recover(Now());
      log, born, freed, inTx := [], {}, {}, false;
      images := images + [Now()];
      RecoverIdle(heap);
    }

    /** POBJ_ALLOC: an atomic allocation outside transactions. The constructor sets the first words; the
        object exists with these set and its handle stored, or not at all. With `wild` it was given an object
        that is too small, the constructor stored outside of it, and nothing is known any more. */
    method AllocAtomic(layout: Layout, bytes: nat, fields: seq<Word>, dest: Dest)
      returns (ok: bool, wild: bool, o: Oid)
      requires Idle() && DestOk(heap, dest)
      modifies this
      ensures wild ==> |fields| > layout.Words(bytes) && bytes <= MAX_ALLOC_SIZE
      ensures !wild ==> Idle() && (ok <==> !refused) && Recovers(old(images), images, old(heap), heap)
      ensures !wild && !ok ==> o == OID_NULL && heap == old(heap)
      ensures !wild && ok ==> o !in old(heap).objs && bytes <= MAX_ALLOC_SIZE && |fields| <= layout.Words(bytes)
      ensures !wild && ok ==> Stored(old(heap), dest, o).Ok()
      ensures !wild && ok ==> Extends(Stored(old(heap), dest, o), heap, o, layout.Object(bytes))
      ensures !wild && ok ==> forall i | 0 <= i < |fields| :: heap.At(Loc(o, i)) == fields[i]
    {
      ok, wild, o := false, false, OID_NULL;
      var willing: bool := *;
      if willing && bytes <= MAX_ALLOC_SIZE {
        if place: Oid :| 0 < place < WORD_RANGE && place !in heap.objs {
          var n := layout.Words(bytes);
          if n < |fields| { return true, true, place; }
          var junk: seq<Word> := *;
          var init := seq(n, i requires 0 <= i < n =>
            if i < |fields| then fields[i] else if i < |junk| then junk[i] else 0);
          StoredOk(heap, dest, place);
          WithExtends(Stored(heap, dest, place), place, layout.Object(bytes), init);
          Become(Stored(heap, dest, place).With(place, layout.Object(bytes), init));
          return true, false, place;
        }
      }
      Become(heap);
      refused := true;
    }

    /** The pool holds another heap, all at once. */
    method Become(h: Heap)
      requires Idle() && h.Ok()
      modifies this
      ensures Idle() && !refused && heap == h && Recovers(old(images), images, old(heap), heap)
    {
      heap, refused := h, false;
      images := images + [Now()];
      RecoverIdle(heap);
    }

    /** The process is killed inside the transaction, and the pool is opened again. */
    method Die()
      requires InTx() && refused
      modifies this
      ensures Idle() && refused && heap == old(base)
      ensures Recovers(old(past), images, old(base), heap)
    {
      Abort();
    }

    /** The power failed when the medium held image `k`, and the pool was opened again. */
    method Reopen(k: nat)
      requires k < |images| && Recover(images[k]).Ok()
      modifies this
      ensures Idle() && heap == Recover(old(images)[k])
      ensures Recovers(old(images), images, heap, heap)
    {
      heap := Recover(images[k]);
      log, born, freed, inTx := [], {}, {}, false;
      images := images + [Now()];
      RecoverIdle(heap);
    }
  }
}
