/** The pooled, mutable message record and its process-wide free list. */
module Messages {
  import opened Base

  const FLAG_IN_USE: bv32 := 1
  const FLAG_ASYNCHRONOUS: bv32 := 2
  const FLAGS_TO_CLEAR_ON_COPY_FROM: bv32 := FLAG_IN_USE
  const MAX_POOL_SIZE: nat := 50

  // ---------------------------------------------------------------------
  // The `state` bit mask. JavaScript's bitwise operators work on 32-bit
  // integers, so the mask is a bv32.

  predicate InUseBit(state: bv32) {
    state & FLAG_IN_USE == FLAG_IN_USE
  }

  predicate AsynchronousBit(state: bv32) {
    state & FLAG_ASYNCHRONOUS != 0
  }

  /** `state |= FLAG_IN_USE`: sets the in-use bit and no other. */
  function WithInUse(state: bv32): (r: bv32)
    ensures r & FLAG_IN_USE == FLAG_IN_USE
    ensures r & FLAG_ASYNCHRONOUS == state & FLAG_ASYNCHRONOUS
    ensures r & !FLAG_IN_USE == state & !FLAG_IN_USE
  {
    state | FLAG_IN_USE
  }

  /** Marking a message in use twice is marking it once. */
  lemma InUseIdempotent(state: bv32)
    ensures WithInUse(WithInUse(state)) == WithInUse(state)
  {
  }

  /** Setting the in-use bit leaves the asynchronous bit as it was. */
  lemma MarkedBits(state: bv32)
    ensures InUseBit(WithInUse(state))
    ensures AsynchronousBit(WithInUse(state)) == AsynchronousBit(state)
  {
  }

  /** The bit operation of `setAsynchronous(b)`: the asynchronous bit becomes
      `b`, every other bit, the in-use bit included, is kept. */
  function WithAsynchronous(state: bv32, b: bool): (r: bv32)
    ensures r & FLAG_ASYNCHRONOUS == if b then FLAG_ASYNCHRONOUS else 0
    ensures r & FLAG_IN_USE == state & FLAG_IN_USE
    ensures r & !FLAG_ASYNCHRONOUS == state & !FLAG_ASYNCHRONOUS
  {
    if b then state | FLAG_ASYNCHRONOUS else state & !FLAG_ASYNCHRONOUS
  }

  /** Setting the asynchronous bit leaves the in-use bit as it was. */
  lemma FlaggedBits(state: bv32, b: bool)
    ensures AsynchronousBit(WithAsynchronous(state, b)) == b
    ensures InUseBit(WithAsynchronous(state, b)) == InUseBit(state)
  {
  }

  /** `state & ~FLAGS_TO_CLEAR_ON_COPY_FROM`: a copy is never in use, and
      keeps every other bit of the original. */
  function CopiedState(state: bv32): (r: bv32)
    ensures r & FLAG_IN_USE == 0
    ensures r & FLAG_ASYNCHRONOUS == state & FLAG_ASYNCHRONOUS
    ensures r & !FLAG_IN_USE == state & !FLAG_IN_USE
  {
    state & !FLAGS_TO_CLEAR_ON_COPY_FROM
  }

  // ---------------------------------------------------------------------
  // Field values.

  /** The `data` payload: a JavaScript Map, compared by reference. Keys and
      values are abstracted to strings and integers. */
  class DataMap {
    var entries: map<string, int>

    constructor (entries: map<string, int>)
      ensures this.entries == entries
    {
      this.entries := entries;
    }
  }

  /** The externally visible fields of a message, in the shape of the
      options object that `update` takes. */
  datatype Fields = Fields(
    when: int, state: bv32, what: int, arg1: int, arg2: int,
    data: DataMap?, obj: Ref, replyTo: Ref, target: Ref, callback: Ref)

  /** The defaults of `update`, which are also the values `clearForRecycle`
      writes. */
  const CLEARED := Fields(0, 0, 0, 0, 0, null, Null, Null, Null, Null)

  /** What `copyFrom(src)` writes: the routable fields of `src` with the
      in-use bit cleared, and `update`'s defaults for the rest. */
  function CopyOf(src: Fields): (r: Fields)
    ensures r.when == 0 && r.state & FLAG_IN_USE == 0
    ensures r.state & FLAG_ASYNCHRONOUS == src.state & FLAG_ASYNCHRONOUS
    ensures r.target == Null && r.callback == Null
    ensures r.what == src.what && r.arg1 == src.arg1 && r.arg2 == src.arg2
    ensures r.obj == src.obj && r.data == src.data && r.replyTo == src.replyTo
  {
    CLEARED.(state := CopiedState(src.state), what := src.what, arg1 := src.arg1,
             arg2 := src.arg2, obj := src.obj, data := src.data, replyTo := src.replyTo)
  }

  // ---------------------------------------------------------------------

  /** A message. The intrusive `next` link is not a field here: the free
      list and a queue's chain are sequences of messages in link order. */
  class Message {
    var when: int
    var state: bv32
    var what: int
    var arg1: int
    var arg2: int
    var data: DataMap?
    var obj: Ref
    var replyTo: Ref
    var target: Ref
    var callback: Ref

    function View(): Fields
      reads this
    {
      Fields(when, state, what, arg1, arg2, data, obj, replyTo, target, callback)
    }

    /** `new Message()`: the defaults, except that `data` is a new empty map. */
    constructor ()
      ensures fresh(data) && data.entries == map[]
      ensures View() == CLEARED.(data := data)
    {
      when, state, what, arg1, arg2 := 0, 0, 0, 0, 0;
      obj, replyTo, target, callback := Null, Null, Null, Null;
      data := new DataMap(map[]);
    }

    /** `update(f)`: every field takes the value `f` gives it. */
    method Update(f: Fields)
      modifies this
      ensures View() == f
    {
      when, state, what, arg1, arg2 := f.when, f.state, f.what, f.arg1, f.arg2;
      data, obj, replyTo, target, callback := f.data, f.obj, f.replyTo, f.target, f.callback;
    }

    method ClearForRecycle()
      modifies this
      ensures View() == CLEARED
    {
      state, when, what, arg1, arg2 := 0, 0, 0, 0, 0;
      callback, replyTo, target, data, obj := Null, Null, Null, null, Null;
    }

    /** `copyFrom(src)`. A null `src` stands for any argument that is not a
        Message, which changes nothing. `src` may be this message itself. */
    method CopyFrom(src: Message?)
      modifies this
      ensures src == null ==> View() == old(View())
      ensures src != null ==> View() == CopyOf(old(src.View()))
    {
      if src != null {
        Update(CopyOf(src.View()));
      }
    }

    predicate IsInUse()
      reads this
    {
      InUseBit(state)
    }

    predicate IsAsynchronous()
      reads this
    {
      AsynchronousBit(state)
    }

    method MarkInUse()
      modifies this
      ensures IsInUse() && IsAsynchronous() == old(IsAsynchronous())
      ensures View() == old(View()).(state := WithInUse(old(state)))
    {
      MarkedBits(state);
      state := WithInUse(state);
    }

    method SetAsynchronous(b: bool)
      modifies this
      ensures IsAsynchronous() == b && IsInUse() == old(IsInUse())
      ensures View() == old(View()).(state := WithAsynchronous(old(state), b))
    {
      FlaggedBits(state, b);
      state := WithAsynchronous(state, b);
    }

    /** `recycle()`: clears every field, then pushes this message onto the
        free list unless the list already holds MAX_POOL_SIZE messages. A
        message already on the list would close it into a cycle. */
    method Recycle(pool: Pool)
      requires pool.Valid() && this !in pool.free
      modifies this, pool
      ensures pool.Valid()
      ensures View() == CLEARED
      ensures old(pool.size) < MAX_POOL_SIZE ==> pool.free == [this] + old(pool.free)
      ensures old(pool.size) >= MAX_POOL_SIZE ==> pool.free == old(pool.free)
    {
      ClearForRecycle();
      if pool.size < MAX_POOL_SIZE {
        pool.free := [this] + pool.free;
        pool.size := pool.size + 1;
      }
    }
  }

  /** The module-level free list: `free` is `sPool` followed along `next`,
      `size` is `sPoolSize`. A list that ends in `null` holds each message
      once. */
  class Pool {
    var free: seq<Message>
    var size: nat

    ghost predicate Valid()
      reads this
    {
      size == |free| && size <= MAX_POOL_SIZE &&
      forall i, j :: 0 <= i < j < |free| ==> free[i] != free[j]
    }

    constructor ()
      ensures Valid() && free == []
    {
      free, size := [], 0;
    }
  }

  /** `Message.obtain()`: the head of the free list when there is one,
      detached and otherwise untouched; a new message when there is none. */
  method Obtain(pool: Pool) returns (m: Message)
    requires pool.Valid()
    modifies pool
    ensures pool.Valid() && m !in pool.free
    ensures old(pool.free) != [] ==>
      m == old(pool.free[0]) && pool.free == old(pool.free[1..]) && pool.size == old(pool.size) - 1
    ensures old(pool.free) == [] ==>
      fresh(m) && fresh(m.data) && m.data.entries == map[] &&
      m.View() == CLEARED.(data := m.data) && pool.free == []
  {
    if pool.free != [] {
      m := pool.free[0];
      pool.free := pool.free[1..];
      pool.size := pool.size - 1;
    } else {
      m := new Message();
    }
  }

  /** `Message.obtain(template)` for a Message template: the routable fields
      are copied, `data` into a new map; `when` and `state` are whatever the
      obtained message already held (all zero for a recycled one). */
  method ObtainCopy(pool: Pool, orig: Message) returns (m: Message)
    requires pool.Valid()
    modifies pool, pool.free
    ensures pool.Valid() && m !in pool.free
    ensures old(pool.free) != [] ==>
      m == old(pool.free[0]) && pool.free == old(pool.free[1..]) &&
      m.when == old(m.when) && m.state == old(m.state) &&
      (old(orig.data) == null ==> m.data == old(m.data))
    ensures old(pool.free) == [] ==>
      fresh(m) && pool.free == [] && m.when == 0 && m.state == 0 &&
      (old(orig.data) == null ==> fresh(m.data) && m.data.entries == map[])
    ensures m.what == old(orig.what) && m.arg1 == old(orig.arg1) && m.arg2 == old(orig.arg2)
    ensures m.obj == old(orig.obj) && m.replyTo == old(orig.replyTo)
    ensures m.target == old(orig.target) && m.callback == old(orig.callback)
    ensures old(orig.data) != null ==> fresh(m.data) && m.data.entries == old(orig.data.entries)
    ensures forall x :: x in pool.free ==> x.View() == old(x.View())
  {
    ghost var wasFree := pool.free;
    m := Obtain(pool);
    var src := orig.View();
    m.what, m.arg1, m.arg2, m.obj, m.replyTo := src.what, src.arg1, src.arg2, src.obj, src.replyTo;
    if src.data != null {
      m.data := new DataMap(src.data.entries);
    }
    m.target, m.callback := src.target, src.callback;
  }

  /** `Message.obtain(options)` for a plain options object: `update` with
      the options, so every field the options leave out takes its default. */
  method ObtainWith(pool: Pool, f: Fields) returns (m: Message)
    requires pool.Valid()
    modifies pool, pool.free
    ensures pool.Valid() && m !in pool.free
    ensures old(pool.free) != [] ==> m == old(pool.free[0]) && pool.free == old(pool.free[1..])
    ensures old(pool.free) == [] ==> fresh(m) && pool.free == []
    ensures m.View() == f
    ensures forall x :: x in pool.free ==> x.View() == old(x.View())
  {
    m := Obtain(pool);
    m.Update(f);
  }

  /** A recycled message that is obtained again shows none of its former
      field values. */
  method RecycleThenObtain(pool: Pool, m: Message) returns (r: Message)
    requires pool.Valid() && pool.size < MAX_POOL_SIZE && m !in pool.free
    modifies pool, m
    ensures pool.Valid() && pool.free == old(pool.free)
    ensures r == m && r.View() == CLEARED
  {
    m.Recycle(pool);
    r := Obtain(pool);
  }
}
