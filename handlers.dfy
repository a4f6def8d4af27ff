/** Message handlers: how a delivered message is routed, how messages are
    handed to a queue, and the Messenger and BlockingRunnable helpers built
    on them. The bodies of user callbacks are not modelled: what they answer
    is a parameter. */
module Handlers {
  import opened Base
  import opened Messages
  import opened QueueSpec
  import opened Queue
  import Broadcast
  import BroadcastSpec

  /** The default schedule time of a handler, in milliseconds. */
  const SCHEDULE_TIME: int := 200

  // ---------------------------------------------------------------------
  // Routing a delivered message.

  /** Who `dispatchMessage` hands a message to. */
  datatype Route =
    | Dropped          // there is no message
    | RunCallback      // the message's own runnable, through handleCallback
    | HandlerCallback  // the handler's mCallback.handleMessage
    | HandleMessage    // the handler's own handleMessage

  /** The priority order of `dispatchMessage`: the message's runnable first,
      then the handler's callback object, then the handler itself.
      `hasCallback` says whether the handler was built with a callback. */
  function RouteOf(msg: Option<Fields>, hasCallback: bool): (r: Route)
    ensures r == Dropped <==> msg.None?
    ensures r == RunCallback <==> msg.Some? && msg.value.callback != Null
    ensures r == HandlerCallback <==> msg.Some? && msg.value.callback == Null && hasCallback
    ensures r == HandleMessage <==> msg.Some? && msg.value.callback == Null && !hasCallback
  {
    match msg
    case None => Dropped
    case Some(f) =>
      if f.callback != Null then RunCallback
      else if hasCallback then HandlerCallback
      else HandleMessage
  }

  /** What the user code reached by a dispatch answers: the runnable's
      `run`, the callback object's `handleMessage` and the handler's own
      `handleMessage`. */
  datatype Answers = Answers(run: bool, callbackHandles: bool, handles: bool)

  /** The answer of the default `handleMessage`. */
  const DEFAULT_HANDLES := true

  /** `handleCallback(msg)`: the runnable's answer for a message that
      dispatch hands to its runnable, false for any other message or none. */
  function HandleCallback(msg: Option<Fields>, run: bool): (r: bool)
    ensures RouteOf(msg, false) == RunCallback ==> r == run
    ensures RouteOf(msg, false) != RunCallback ==> !r
  {
    msg.Some? && msg.value.callback != Null && run
  }

  /** `dispatchMessage(msg)`: the answer of whoever RouteOf picks. */
  function DispatchAnswer(msg: Option<Fields>, hasCallback: bool, a: Answers): (r: bool)
  {
    match RouteOf(msg, hasCallback)
    case Dropped => false
    case RunCallback => HandleCallback(msg, a.run)
    case HandlerCallback => a.callbackHandles
    case HandleMessage => a.handles
  }

  /** Without a message the answer is false; a message with a runnable is
      answered as `handleCallback` answers it, whatever the handler has. */
  lemma DispatchOfRunnable(msg: Option<Fields>, hasCallback: bool, a: Answers)
    ensures msg.None? ==> !DispatchAnswer(msg, hasCallback, a)
    ensures msg.Some? && msg.value.callback != Null ==>
      DispatchAnswer(msg, hasCallback, a) == HandleCallback(msg, a.run) == a.run
  {
  }

  /** A handler built without a callback object and with the default
      `handleMessage` accepts every message that has no runnable. */
  lemma DefaultHandlerAccepts(f: Fields, a: Answers)
    requires f.callback == Null && a.handles == DEFAULT_HANDLES
    ensures DispatchAnswer(Some(f), false, a)
  {
  }

  // ---------------------------------------------------------------------
  // Sending.

  /** The time `sendMessageDelayed` asks for: `now + delayMillis`, where a
      negative delay counts as none. */
  function DueAt(now: int, delay: int): (t: int)
    ensures delay >= 0 ==> t == now + delay
    ensures delay < 0 ==> t == now
  {
    if delay < 0 then now else now + delay
  }

  /** The selector a runnable reference stands for in the queue's scans. */
  function CallbackSelector(cb: Ref): (sel: Selector)
    ensures sel.NoSelector? <==> cb == Null
    ensures sel.Callback? ==> cb == Obj(sel.id)
  {
    if cb == Null then NoSelector else Callback(cb.id)
  }

  /** A message handler bound to a queue. The handler itself is the
      reference `Obj(id)`. */
  class MessageHandler {
    const id: nat
    const queue: MessageQueue?  // mQueue: never reassigned
    const hasCallback: bool     // mCallback is set
    var asynchronous: bool      // mAsynchronous
    var scheduleTime: int       // mScheduleTime

    function Self(): Ref {
      Obj(id)
    }

    /** The chain of the handler's queue, empty when there is none. */
    function Chain(): seq<Message>
      reads queue
    {
      if queue == null then [] else queue.messages
    }

    /** The handler's queue is well formed and shares no message with the
        free list. */
    ghost predicate Ready(pool: Pool)
      reads this, queue, pool
    {
      pool.Valid() &&
      (queue != null ==> queue.Valid() && queue.Apart(pool))
    }

    constructor (id: nat, queue: MessageQueue?, hasCallback: bool, asynchronous: bool, scheduleTime: int)
      ensures this.id == id && this.queue == queue && this.hasCallback == hasCallback
      ensures this.asynchronous == asynchronous && this.scheduleTime == scheduleTime
    {
      this.id, this.queue, this.hasCallback := id, queue, hasCallback;
      this.asynchronous, this.scheduleTime := asynchronous, scheduleTime;
    }

    /** The outcome of sending a message whose fields were `before`, with
        the asynchronous flag `async`: the queue took it retargeted at this
        handler. */
    ghost predicate Sent(msg: Message, when: int, async: bool, before: Fields, s: Snapshot, r: Result<bool>)
      requires queue != null
      reads queue, msg
    {
      queue.Took(msg, when, Retargeted(before, async), s, r)
    }

    /** Every message in the chain but `msg` was in it before and kept
        its fields. */
    twostate predicate KeptBut(new msg: Message)
      reads queue, Chain()
    {
      forall m :: m in Chain() && m != msg ==> m in old(Chain()) && m.View() == old(m.View())
    }

    /** The queue's snapshot at `now`; an empty one without a queue. */
    ghost function Snap(now: int): Snapshot
      reads queue, Chain()
    {
      if queue == null then Snapshot([], 0, false, false) else queue.Snap(now)
    }

    /** What a send of a message with fields `before` leaves, when the
        queue's snapshot was `s` and the free list after taking the message
        was `free0`: the handler still ready; without a queue a `false`
        answer and the free list as it was; with one, the message sent
        (`Sent`) and the free list recycled (`Pooled`). */
    ghost predicate Posted(before: Fields, now: int, pool: Pool, free0: seq<Message>, s: Snapshot,
                           r: Result<bool>, m: Message, step: Step)
      reads this, queue, pool, m
    {
      Ready(pool) &&
      (queue == null ==> r == Ok(false) && pool.free == free0) &&
      (queue != null ==>
        Sent(m, now, asynchronous, before, s, r) && Pooled(pool, free0, m, asynchronous, before, s, step))
    }

    /** The free list a send of `msg` leaves, when it was `free0` before:
        what `enqueueMessage` recycles (see `Recycled`). */
    ghost predicate Pooled(pool: Pool, free0: seq<Message>, msg: Message, async: bool, before: Fields, s: Snapshot, step: Step)
      requires queue != null
      reads queue, pool
    {
      queue.Freed(pool, free0, msg, Retargeted(before, async), s, step)
    }

    /** The fields of a message once `enqueueMessage` has made this handler
        its target and set its asynchronous flag. */
    function Retargeted(before: Fields, async: bool): (f: Fields)
      ensures f.target == Self() && f.when == before.when
      ensures f.state & FLAG_ASYNCHRONOUS == (if async then FLAG_ASYNCHRONOUS else 0)
      ensures f.state & FLAG_IN_USE == before.state & FLAG_IN_USE
    {
      before.(target := Self(), state := WithAsynchronous(before.state, async))
    }

    /** `enqueueMessage(queue, msg, when, atFront)`: the handler becomes the
        target, the asynchronous flag is the handler's unless the message
        goes to the front, then the queue takes the message. */
    method EnqueueMessage(q: MessageQueue, msg: Message, when: int, atFront: bool, now: int, pool: Pool)
      returns (r: Result<bool>, step: Step)
      requires q.Valid() && pool.Valid() && q.Apart(pool) && msg !in pool.free
      requires msg in q.messages ==> msg.when != 0
      modifies q`messages, q`quiting, q`waiters, q.messages, msg, pool
      ensures q.Valid() && pool.Valid() && q.Apart(pool)
      ensures q.Took(msg, when, Retargeted(old(msg.View()), !atFront && asynchronous), old(q.Snap(when)), r)
      ensures q.Freed(pool, old(pool.free), msg, Retargeted(old(msg.View()), !atFront && asynchronous), old(q.Snap(when)), step)
      ensures forall m :: m in q.messages && m != msg ==> m in old(q.messages) && m.View() == old(m.View())
      ensures old(msg.when) == 0 && !old(q.quiting) ==>
        var chain := InsertAt(old(q.messages), old(q.PosFor(when)), msg);
        Stepped(q.messages, q.quiting, q.disposed, q.waiters, step, r, chain,
                old(LinkedHead(q, msg, when, !atFront && asynchronous)), chain[0].View(),
                old(q.looperRunning), old(q.waiters), now)
    {
      ghost var s0, free0 := q.Snap(when), pool.free;
      ghost var before := Retargeted(msg.View(), !atFront && asynchronous);
      ghost var head := LinkedHead(q, msg, when, !atFront && asynchronous);
      msg.target := Self();
      msg.SetAsynchronous(if atFront then false else asynchronous);
      assert msg.View() == before;
      WhensKept(q.messages);
      assert q.Snap(when) == s0;
      assert q.Accepts(msg) == (msg.when == 0 && !q.quiting);
      assert q.Accepts(msg) ==> q.HeadAfter(msg, when) == head;
      r, step := q.EnqueueMessage(msg, when, now, pool);
      assert q.Took(msg, when, before, s0, r);
      assert q.Freed(pool, free0, msg, before, s0, step);
    }

    /** The head of the chain once `msg`, retargeted at this handler with
        the asynchronous flag `async`, is linked at its position. */
    ghost function LinkedHead(q: MessageQueue, msg: Message, when: int, async: bool): (f: Fields)
      reads q, q.messages, msg
      ensures q.PosFor(when) == 0 ==> f.target == Self() && f.when == when && f.state & FLAG_IN_USE == FLAG_IN_USE
      ensures q.PosFor(when) != 0 ==> f == q.messages[0].View()
    {
      var linked := Retargeted(msg.View(), async);
      if q.PosFor(when) == 0 then linked.(when := when, state := WithInUse(linked.state))
      else q.messages[0].View()
    }

    /** `sendMessageAtTime(msg, uptimeMillis)`: false without a queue. */
    method SendMessageAtTime(msg: Message, uptimeMillis: int, now: int, pool: Pool) returns (r: Result<bool>, step: Step)
      requires Ready(pool) && msg !in pool.free
      requires msg in Chain() ==> msg.when != 0
      modifies queue, Chain(), msg, pool
      ensures Ready(pool)
      ensures queue == null ==> r == Ok(false) && msg.View() == old(msg.View()) && pool.free == old(pool.free)
      ensures queue != null ==> Sent(msg, uptimeMillis, asynchronous, old(msg.View()), old(queue.Snap(uptimeMillis)), r)
      ensures queue != null ==> Pooled(pool, old(pool.free), msg, asynchronous, old(msg.View()), old(queue.Snap(uptimeMillis)), step)
      ensures forall m :: m in Chain() && m != msg ==> m in old(Chain()) && m.View() == old(m.View())
    {
      if queue == null {
        return Ok(false), NothingDue;
      }
      r, step := EnqueueMessage(queue, msg, uptimeMillis, false, now, pool);
    }

    /** `sendMessageAtFrontOfQueue(msg)`: time 0, never asynchronous. */
    method SendMessageAtFrontOfQueue(msg: Message, now: int, pool: Pool) returns (r: Result<bool>, step: Step)
      requires Ready(pool) && msg !in pool.free
      requires msg in Chain() ==> msg.when != 0
      modifies queue, Chain(), msg, pool
      ensures Ready(pool)
      ensures queue == null ==> r == Ok(false) && msg.View() == old(msg.View()) && pool.free == old(pool.free)
      ensures queue != null ==> Sent(msg, 0, false, old(msg.View()), old(queue.Snap(0)), r)
      ensures queue != null ==> Pooled(pool, old(pool.free), msg, false, old(msg.View()), old(queue.Snap(0)), step)
      ensures forall m :: m in Chain() && m != msg ==> m in old(Chain()) && m.View() == old(m.View())
    {
      if queue == null {
        return Ok(false), NothingDue;
      }
      r, step := EnqueueMessage(queue, msg, 0, true, now, pool);
    }

    /** `sendMessageDelayed(msg, delayMillis)` at time `now`: a negative
        delay counts as none. */
    method SendMessageDelayed(msg: Message, delayMillis: int, now: int, pool: Pool) returns (r: Result<bool>, step: Step)
      requires Ready(pool) && msg !in pool.free
      requires msg in Chain() ==> msg.when != 0
      modifies queue, Chain(), msg, pool
      ensures Ready(pool)
      ensures queue == null ==> r == Ok(false) && msg.View() == old(msg.View()) && pool.free == old(pool.free)
      ensures queue != null ==> Sent(msg, DueAt(now, delayMillis), asynchronous, old(msg.View()), old(queue.Snap(DueAt(now, delayMillis))), r)
      ensures queue != null ==> Pooled(pool, old(pool.free), msg, asynchronous, old(msg.View()), old(queue.Snap(DueAt(now, delayMillis))), step)
      ensures forall m :: m in Chain() && m != msg ==> m in old(Chain()) && m.View() == old(m.View())
    {
      r, step := SendMessageAtTime(msg, DueAt(now, delayMillis), now, pool);
    }

    /** `sendMessage(msg)`: due at once. */
    method SendMessage(msg: Message, now: int, pool: Pool) returns (r: Result<bool>, step: Step)
      requires Ready(pool) && msg !in pool.free
      requires msg in Chain() ==> msg.when != 0
      modifies queue, Chain(), msg, pool
      ensures Ready(pool)
      ensures queue == null ==> r == Ok(false) && msg.View() == old(msg.View()) && pool.free == old(pool.free)
      ensures queue != null ==> Sent(msg, now, asynchronous, old(msg.View()), old(queue.Snap(now)), r)
      ensures queue != null ==> Pooled(pool, old(pool.free), msg, asynchronous, old(msg.View()), old(queue.Snap(now)), step)
      ensures forall m :: m in Chain() && m != msg ==> m in old(Chain()) && m.View() == old(m.View())
    {
      r, step := SendMessageDelayed(msg, 0, now, pool);
    }

    /** `getPostMessage({callback, obj: token})`. */
    method GetPostMessage(callback: Ref, token: Ref, pool: Pool) returns (m: Message)
      requires Ready(pool)
      modifies pool, pool.free
      ensures Ready(pool) && m !in Chain() && m !in pool.free
      ensures m.View() == CLEARED.(callback := callback, obj := token)
      ensures queue != null ==> unchanged(queue) && Whens(queue.messages) == old(Whens(queue.messages))
      ensures fresh(m) || (old(pool.free) != [] && m == old(pool.free[0]))
      ensures pool.free == if old(pool.free) == [] then [] else old(pool.free[1..])
      ensures forall x :: x in pool.free ==> x.View() == old(x.View())
      ensures forall x :: x in Chain() ==> x.View() == old(x.View())
    {
      m := ObtainWith(pool, CLEARED.(callback := callback, obj := token));
      if queue != null {
        WhensUnchanged(queue.messages);
      }
    }

    /** `Message.obtain({what})`, the message of the `sendEmptyMessage`
        family. */
    method GetEmptyMessage(what: int, pool: Pool) returns (m: Message)
      requires Ready(pool)
      modifies pool, pool.free
      ensures Ready(pool) && m !in Chain() && m !in pool.free
      ensures m.View() == CLEARED.(what := what)
      ensures queue != null ==> unchanged(queue) && Whens(queue.messages) == old(Whens(queue.messages))
      ensures fresh(m) || (old(pool.free) != [] && m == old(pool.free[0]))
      ensures pool.free == if old(pool.free) == [] then [] else old(pool.free[1..])
      ensures forall x :: x in pool.free ==> x.View() == old(x.View())
      ensures forall x :: x in Chain() ==> x.View() == old(x.View())
    {
      m := ObtainWith(pool, CLEARED.(what := what));
      if queue != null {
        WhensUnchanged(queue.messages);
      }
    }

    /** `post(callback, token)`: a message carrying the runnable and the token, due at once. */
    method Post(callback: Ref, token: Ref, now: int, pool: Pool) returns (r: Result<bool>, step: Step, m: Message)
      requires Ready(pool)
      modifies queue, Chain(), pool, pool.free
      ensures Ready(pool)
      ensures queue == null ==>
        r == Ok(false) && m.View() == CLEARED.(callback := callback, obj := token) &&
        pool.free == old(if pool.free == [] then [] else pool.free[1..])
      ensures queue != null ==> Sent(m, now, asynchronous, CLEARED.(callback := callback, obj := token), old(queue.Snap(now)), r)
      ensures queue != null ==>
        Pooled(pool, old(if pool.free == [] then [] else pool.free[1..]), m, asynchronous, CLEARED.(callback := callback, obj := token), old(queue.Snap(now)), step)
      ensures forall x :: x in Chain() && x != m ==> x in old(Chain()) && x.View() == old(x.View())
    {
      ghost var s0 := if queue == null then Snapshot([], 0, false, false) else queue.Snap(now);
      m := GetPostMessage(callback, token, pool);
      assert queue != null ==> queue.Snap(now) == s0;
      ghost var f := m.View();
      assert DueAt(now, 0) == now;
      ghost var free1 := pool.free;
      r, step := SendMessageDelayed(m, 0, now, pool);
      assert queue != null ==> Sent(m, now, asynchronous, f, s0, r) && Pooled(pool, free1, m, asynchronous, f, s0, step);
    }

    /** `postAtFrontOfQueue(callback, token)`. */
    method PostAtFrontOfQueue(callback: Ref, token: Ref, now: int, pool: Pool) returns (r: Result<bool>, step: Step, m: Message)
      requires Ready(pool)
      modifies queue, Chain(), pool, pool.free
      ensures Ready(pool)
      ensures queue == null ==>
        r == Ok(false) && m.View() == CLEARED.(callback := callback, obj := token) &&
        pool.free == old(if pool.free == [] then [] else pool.free[1..])
      ensures queue != null ==> Sent(m, 0, false, CLEARED.(callback := callback, obj := token), old(queue.Snap(0)), r)
      ensures queue != null ==>
        Pooled(pool, old(if pool.free == [] then [] else pool.free[1..]), m, false, CLEARED.(callback := callback, obj := token), old(queue.Snap(0)), step)
      ensures forall x :: x in Chain() && x != m ==> x in old(Chain()) && x.View() == old(x.View())
    {
      ghost var s0 := if queue == null then Snapshot([], 0, false, false) else queue.Snap(0);
      m := GetPostMessage(callback, token, pool);
      assert queue != null ==> queue.Snap(0) == s0;
      ghost var free1 := pool.free;
      r, step := SendMessageAtFrontOfQueue(m, now, pool);
      assert queue != null ==>
        Sent(m, 0, false, CLEARED.(callback := callback, obj := token), s0, r) &&
        Pooled(pool, free1, m, false, CLEARED.(callback := callback, obj := token), s0, step);
    }

    /** `postAtTime(callback, uptimeMillis, token)`. */
    method PostAtTime(callback: Ref, uptimeMillis: int, token: Ref, now: int, pool: Pool) returns (r: Result<bool>, step: Step, m: Message)
      requires Ready(pool)
      modifies queue, Chain(), pool, pool.free
      ensures Ready(pool)
      ensures queue == null ==>
        r == Ok(false) && m.View() == CLEARED.(callback := callback, obj := token) &&
        pool.free == old(if pool.free == [] then [] else pool.free[1..])
      ensures queue != null ==> Sent(m, uptimeMillis, asynchronous, CLEARED.(callback := callback, obj := token), old(queue.Snap(uptimeMillis)), r)
      ensures queue != null ==>
        Pooled(pool, old(if pool.free == [] then [] else pool.free[1..]), m, asynchronous, CLEARED.(callback := callback, obj := token), old(queue.Snap(uptimeMillis)), step)
      ensures forall x :: x in Chain() && x != m ==> x in old(Chain()) && x.View() == old(x.View())
    {
      ghost var s0 := if queue == null then Snapshot([], 0, false, false) else queue.Snap(uptimeMillis);
      m := GetPostMessage(callback, token, pool);
      assert queue != null ==> queue.Snap(uptimeMillis) == s0;
      ghost var free1 := pool.free;
      r, step := SendMessageAtTime(m, uptimeMillis, now, pool);
      assert queue != null ==>
        Sent(m, uptimeMillis, asynchronous, CLEARED.(callback := callback, obj := token), s0, r) &&
        Pooled(pool, free1, m, asynchronous, CLEARED.(callback := callback, obj := token), s0, step);
    }

    /** `postDelayed(callback, delayMillis, token)`. */
    method PostDelayed(callback: Ref, delayMillis: int, token: Ref, now: int, pool: Pool) returns (r: Result<bool>, step: Step, m: Message)
      requires Ready(pool)
      modifies queue, Chain(), pool, pool.free
      ensures Ready(pool)
      ensures queue == null ==>
        r == Ok(false) && m.View() == CLEARED.(callback := callback, obj := token) &&
        pool.free == old(if pool.free == [] then [] else pool.free[1..])
      ensures queue != null ==> Sent(m, DueAt(now, delayMillis), asynchronous, CLEARED.(callback := callback, obj := token), old(queue.Snap(DueAt(now, delayMillis))), r)
      ensures queue != null ==>
        Pooled(pool, old(if pool.free == [] then [] else pool.free[1..]), m, asynchronous, CLEARED.(callback := callback, obj := token), old(queue.Snap(DueAt(now, delayMillis))), step)
      ensures forall x :: x in Chain() && x != m ==> x in old(Chain()) && x.View() == old(x.View())
    {
      ghost var s0 := if queue == null then Snapshot([], 0, false, false) else queue.Snap(DueAt(now, delayMillis));
      m := GetPostMessage(callback, token, pool);
      assert queue != null ==> queue.Snap(DueAt(now, delayMillis)) == s0;
      ghost var free1 := pool.free;
      r, step := SendMessageDelayed(m, delayMillis, now, pool);
      assert queue != null ==>
        Sent(m, DueAt(now, delayMillis), asynchronous, CLEARED.(callback := callback, obj := token), s0, r) &&
        Pooled(pool, free1, m, asynchronous, CLEARED.(callback := callback, obj := token), s0, step);
    }

    /** `sendEmptyMessage(what)`. */
    method SendEmptyMessage(what: int, now: int, pool: Pool) returns (r: Result<bool>, step: Step, m: Message)
      requires Ready(pool)
      modifies queue, Chain(), pool, pool.free
      ensures Ready(pool)
      ensures queue == null ==>
        r == Ok(false) && m.View() == CLEARED.(what := what) &&
        pool.free == old(if pool.free == [] then [] else pool.free[1..])
      ensures queue != null ==> Sent(m, now, asynchronous, CLEARED.(what := what), old(queue.Snap(now)), r)
      ensures queue != null ==>
        Pooled(pool, old(if pool.free == [] then [] else pool.free[1..]), m, asynchronous, CLEARED.(what := what), old(queue.Snap(now)), step)
      ensures forall x :: x in Chain() && x != m ==> x in old(Chain()) && x.View() == old(x.View())
    {
      ghost var s0 := if queue == null then Snapshot([], 0, false, false) else queue.Snap(now);
      m := GetEmptyMessage(what, pool);
      assert queue != null ==> queue.Snap(now) == s0;
      assert DueAt(now, 0) == now;
      ghost var free1 := pool.free;
      r, step := SendMessageDelayed(m, 0, now, pool);
      assert queue != null ==>
        Sent(m, now, asynchronous, CLEARED.(what := what), s0, r) &&
        Pooled(pool, free1, m, asynchronous, CLEARED.(what := what), s0, step);
    }

    /** `sendEmptyMessageAtFrontOfQueue(what)`. */
    method SendEmptyMessageAtFrontOfQueue(what: int, now: int, pool: Pool) returns (r: Result<bool>, step: Step, m: Message)
      requires Ready(pool)
      modifies queue, Chain(), pool, pool.free
      ensures Ready(pool)
      ensures queue == null ==>
        r == Ok(false) && m.View() == CLEARED.(what := what) &&
        pool.free == old(if pool.free == [] then [] else pool.free[1..])
      ensures queue != null ==> Sent(m, 0, false, CLEARED.(what := what), old(queue.Snap(0)), r)
      ensures queue != null ==>
        Pooled(pool, old(if pool.free == [] then [] else pool.free[1..]), m, false, CLEARED.(what := what), old(queue.Snap(0)), step)
      ensures forall x :: x in Chain() && x != m ==> x in old(Chain()) && x.View() == old(x.View())
    {
      ghost var s0 := if queue == null then Snapshot([], 0, false, false) else queue.Snap(0);
      m := GetEmptyMessage(what, pool);
      assert queue != null ==> queue.Snap(0) == s0;
      ghost var free1 := pool.free;
      r, step := SendMessageAtFrontOfQueue(m, now, pool);
      assert queue != null ==>
        Sent(m, 0, false, CLEARED.(what := what), s0, r) &&
        Pooled(pool, free1, m, false, CLEARED.(what := what), s0, step);
    }

    /** `sendEmptyMessageAtTime(what, uptimeMillis)`. */
    method SendEmptyMessageAtTime(what: int, uptimeMillis: int, now: int, pool: Pool) returns (r: Result<bool>, step: Step, m: Message)
      requires Ready(pool)
      modifies queue, Chain(), pool, pool.free
      ensures Ready(pool)
      ensures queue == null ==>
        r == Ok(false) && m.View() == CLEARED.(what := what) &&
        pool.free == old(if pool.free == [] then [] else pool.free[1..])
      ensures queue != null ==> Sent(m, uptimeMillis, asynchronous, CLEARED.(what := what), old(queue.Snap(uptimeMillis)), r)
      ensures queue != null ==>
        Pooled(pool, old(if pool.free == [] then [] else pool.free[1..]), m, asynchronous, CLEARED.(what := what), old(queue.Snap(uptimeMillis)), step)
      ensures forall x :: x in Chain() && x != m ==> x in old(Chain()) && x.View() == old(x.View())
    {
      ghost var s0 := if queue == null then Snapshot([], 0, false, false) else queue.Snap(uptimeMillis);
      m := GetEmptyMessage(what, pool);
      assert queue != null ==> queue.Snap(uptimeMillis) == s0;
      ghost var free1 := pool.free;
      r, step := SendMessageAtTime(m, uptimeMillis, now, pool);
      assert queue != null ==>
        Sent(m, uptimeMillis, asynchronous, CLEARED.(what := what), s0, r) &&
        Pooled(pool, free1, m, asynchronous, CLEARED.(what := what), s0, step);
    }

    /** `sendEmptyMessageDelayed(what, delayMillis)`. */
    method SendEmptyMessageDelayed(what: int, delayMillis: int, now: int, pool: Pool) returns (r: Result<bool>, step: Step, m: Message)
      requires Ready(pool)
      modifies queue, Chain(), pool, pool.free
      ensures Ready(pool)
      ensures queue == null ==>
        r == Ok(false) && m.View() == CLEARED.(what := what) &&
        pool.free == old(if pool.free == [] then [] else pool.free[1..])
      ensures queue != null ==> Sent(m, DueAt(now, delayMillis), asynchronous, CLEARED.(what := what), old(queue.Snap(DueAt(now, delayMillis))), r)
      ensures queue != null ==>
        Pooled(pool, old(if pool.free == [] then [] else pool.free[1..]), m, asynchronous, CLEARED.(what := what), old(queue.Snap(DueAt(now, delayMillis))), step)
      ensures forall x :: x in Chain() && x != m ==> x in old(Chain()) && x.View() == old(x.View())
    {
      ghost var s0 := if queue == null then Snapshot([], 0, false, false) else queue.Snap(DueAt(now, delayMillis));
      m := GetEmptyMessage(what, pool);
      assert queue != null ==> queue.Snap(DueAt(now, delayMillis)) == s0;
      ghost var free1 := pool.free;
      r, step := SendMessageDelayed(m, delayMillis, now, pool);
      assert queue != null ==>
        Sent(m, DueAt(now, delayMillis), asynchronous, CLEARED.(what := what), s0, r) &&
        Pooled(pool, free1, m, asynchronous, CLEARED.(what := what), s0, step);
    }

    /** `obtainMessage(options)`: the options, with the handler as the
        target when they name none. */
    method ObtainMessage(f: Fields, pool: Pool) returns (m: Message)
      requires Ready(pool)
      modifies pool, pool.free
      ensures Ready(pool) && m !in Chain() && m !in pool.free
      ensures m.target != Null
      ensures m.target == (if f.target == Null then Self() else f.target)
      ensures m.View().(target := f.target) == f
      ensures queue != null ==> unchanged(queue) && Whens(queue.messages) == old(Whens(queue.messages))
      ensures fresh(m) || (old(pool.free) != [] && m == old(pool.free[0]))
      ensures pool.free == if old(pool.free) == [] then [] else old(pool.free[1..])
      ensures forall x :: x in pool.free ==> x.View() == old(x.View())
      ensures forall x :: x in Chain() ==> x.View() == old(x.View())
    {
      m := ObtainWith(pool, if f.target == Null then f.(target := Self()) else f);
      if queue != null {
        WhensUnchanged(queue.messages);
      }
    }

    /** `hasMessages(what, token)`. Without a queue, reading it throws. */
    method HasMessages(what: int, token: Ref) returns (r: Result<bool>)
      ensures queue == null ==> r == Err(TypeError)
      ensures queue != null ==>
        r == Ok(exists i :: 0 <= i < |queue.messages| && Matches(queue.messages[i].View(), Self(), What(what), token))
    {
      if queue == null {
        return Err(TypeError);
      }
      var b := queue.HasMessages(Self(), What(what), token);
      r := Ok(b);
    }

    /** `hasCallbacks(callback)`: any object. */
    method HasCallbacks(callback: Ref) returns (r: Result<bool>)
      ensures queue == null ==> r == Err(TypeError)
      ensures queue != null ==>
        r == Ok(callback != Null &&
                exists i :: 0 <= i < |queue.messages| && queue.messages[i].target == Self() &&
                  queue.messages[i].callback == callback)
    {
      if queue == null {
        return Err(TypeError);
      }
      var b := queue.HasMessages(Self(), CallbackSelector(callback), Null);
      r := Ok(b);
    }

    /** `removeCallbacks(callback, token)`: the callback path of the
        queue's `removeMessages`. */
    method RemoveCallbacks(callback: Ref, token: Ref, pool: Pool) returns (r: Result<()>)
      requires Ready(pool)
      modifies queue, Chain(), pool
      ensures Ready(pool)
      ensures forall m :: m in Chain() ==> m in old(Chain()) && m.View() == old(m.View())
      ensures queue != null ==> queue.quiting == old(queue.quiting) && queue.looperRunning == old(queue.looperRunning)
      ensures queue == null ==> r == Err(TypeError) && pool.free == old(pool.free)
      ensures queue != null && callback == Null ==>
        r == Ok(()) && queue.messages == old(queue.messages) && pool.free == old(pool.free)
      ensures queue != null && callback != Null ==>
        var split := old(RemoveCallbackSplit(queue.messages, Self(), callback.id, token));
        r == Ok(()) && queue.messages == split.kept && pool.free == PushedAll(old(pool.free), split.removed)
    {
      if queue == null {
        return Err(TypeError);
      }
      var _ := queue.RemoveMessages(Self(), CallbackSelector(callback), token, false, pool);
      r := Ok(());
    }

    /** `removeCallbacksAndMessages(token)`. */
    method RemoveCallbacksAndMessages(token: Ref, pool: Pool) returns (r: Result<()>)
      requires Ready(pool)
      modifies queue, Chain(), pool
      ensures Ready(pool)
      ensures forall m :: m in Chain() ==> m in old(Chain()) && m.View() == old(m.View())
      ensures queue == null ==> r == Err(TypeError) && pool.free == old(pool.free)
      ensures queue != null ==>
        var split := old(RemoveOwnedSplit(queue.messages, Self(), token));
        r == Ok(()) && queue.messages == split.kept && pool.free == PushedAll(old(pool.free), split.removed)
    {
      if queue == null {
        return Err(TypeError);
      }
      queue.RemoveCallbacksAndMessages(Self(), token, pool);
      r := Ok(());
    }

    /** `removeMessages(what, token)`: the numeric path, removing. */
    method RemoveMessages(what: int, token: Ref, pool: Pool) returns (r: Result<()>)
      requires Ready(pool)
      modifies queue, Chain(), pool
      ensures Ready(pool)
      ensures forall m :: m in Chain() ==> m in old(Chain()) && m.View() == old(m.View())
      ensures queue == null ==> r == Err(TypeError) && pool.free == old(pool.free)
      ensures queue != null ==>
        var split := old(RemoveWhatSplit(queue.messages, Self(), what, token));
        r == Ok(()) && queue.messages == split.kept && pool.free == PushedAll(old(pool.free), split.removed)
    {
      if queue == null {
        return Err(TypeError);
      }
      var _ := queue.RemoveMessages(Self(), What(what), token, true, pool);
      r := Ok(());
    }

    /** The queue side of a runnable's `notifyAll(msg)`: remove the
        runnable `Obj(cb)`'s posts without token, stamp TIMEOUT into `arg1`
        after a timeout, then send the message. Without a queue the removal
        throws. `mid` is the queue between the removal and the send. */
    method Notify(msg: Message, cb: nat, isTimeout: bool, now: int, pool: Pool)
      returns (r: Result<bool>, step: Step, ghost mid: Snapshot)
      requires Ready(pool) && msg !in pool.free
      requires queue != null && msg in queue.messages ==>
        msg.when != 0 && msg !in RemoveCallbackSplit(queue.messages, Self(), cb, Null).removed
      modifies queue, Chain(), msg, pool, pool.free
      ensures Ready(pool)
      ensures forall m :: m in Chain() && m != msg ==> m in old(Chain()) && m.View() == old(m.View())
      ensures queue == null ==> r == Err(TypeError) && msg.View() == old(msg.View()) && pool.free == old(pool.free)
      ensures queue != null ==>
        var split := old(RemoveCallbackSplit(queue.messages, Self(), cb, Null));
        mid.chain == split.kept && mid.pos == old(InsertPos(Whens(split.kept), now)) &&
        mid.quiting == old(queue.quiting) && mid.looper == old(queue.looperRunning) &&
        Sent(msg, now, asynchronous, Notified(old(msg.View()), isTimeout), mid, r) &&
        Pooled(pool, PushedAll(old(pool.free), split.removed), msg, asynchronous, Notified(old(msg.View()), isTimeout), mid, step)
    {
      ghost var v0 := msg.View();
      var removed;
      step := NothingDue;
      removed, mid := RemovePosts(cb, now, pool, msg);
      if removed.Err? {
        return Err(removed.error), step, mid;
      }
      ghost var free1 := pool.free;
      r, step := SendStamped(msg, isTimeout, now, pool, set m | m in old(Chain()));
      assert Sent(msg, now, asynchronous, Notified(v0, isTimeout), mid, r);
      assert Pooled(pool, free1, msg, asynchronous, Notified(v0, isTimeout), mid, step);
    }

    /** The `removeCallbacks(runnable)` of `notifyAll`, for the runnable
        `Obj(cb)` and no token; `mid` is the queue it leaves, as it stands
        for a message due at `now`. The message `msg` that is sent next is
        neither removed nor changed by it. */
    method RemovePosts(cb: nat, now: int, pool: Pool, ghost msg: Message) returns (r: Result<()>, ghost mid: Snapshot)
      requires Ready(pool) && msg !in pool.free
      requires queue != null && msg in queue.messages ==>
        msg.when != 0 && msg !in RemoveCallbackSplit(queue.messages, Self(), cb, Null).removed
      modifies queue, Chain(), pool
      ensures Ready(pool) && msg !in pool.free && msg.View() == old(msg.View())
      ensures msg in Chain() ==> msg.when != 0
      ensures forall m :: m in Chain() ==> m in old(Chain()) && m.View() == old(m.View())
      ensures queue == null ==> r == Err(TypeError) && pool.free == old(pool.free)
      ensures queue != null ==>
        var split := old(RemoveCallbackSplit(queue.messages, Self(), cb, Null));
        r == Ok(()) && mid == queue.Snap(now) && pool.free == PushedAll(old(pool.free), split.removed) &&
        mid.chain == split.kept && mid.pos == old(InsertPos(Whens(split.kept), now)) &&
        mid.quiting == old(queue.quiting) && mid.looper == old(queue.looperRunning)
    {
      mid := Snapshot([], 0, false, false);
      ghost var split := if queue == null then Split([], []) else RemoveCallbackSplit(queue.messages, Self(), cb, Null);
      if queue != null {
        PartsOfDistinct(split, queue.messages);
      }
      ghost var inChain := queue != null && msg in queue.messages;
      if inChain {
        assert msg in multiset(queue.messages) && msg !in multiset(split.removed);
        assert msg in split.kept;
      }
      r := RemoveCallbacks(Obj(cb), Null, pool);
      if r.Err? {
        return;
      }
      assert inChain ==> msg in queue.messages;
      PushedAllFrom(old(pool.free), split.removed);
      WhensUnchanged(split.kept);
      mid := queue.Snap(now);
    }

    /** The end of `notifyAll(msg)`: TIMEOUT in `arg1` after a timeout,
        then `sendMessage(msg)`. */
    method SendStamped(msg: Message, isTimeout: bool, now: int, pool: Pool, ghost chain: set<Message>)
      returns (r: Result<bool>, step: Step)
      requires Ready(pool) && msg !in pool.free && queue != null
      requires msg in Chain() ==> msg.when != 0
      requires forall m :: m in Chain() ==> m in chain
      modifies queue, chain, msg, pool
      ensures Ready(pool)
      ensures forall m :: m in Chain() && m != msg ==> m in old(Chain()) && m.View() == old(m.View())
      ensures Sent(msg, now, asynchronous, Notified(old(msg.View()), isTimeout), old(queue.Snap(now)), r)
      ensures Pooled(pool, old(pool.free), msg, asynchronous, Notified(old(msg.View()), isTimeout), old(queue.Snap(now)), step)
    {
      ghost var s0 := queue.Snap(now);
      msg.Update(Notified(msg.View(), isTimeout));
      WhensKept(queue.messages);
      assert queue.Snap(now) == s0;
      r, step := SendMessage(msg, now, pool);
    }

    /** The copy `Messenger.sendMessageTo` sends to this handler:
        `Message.obtain()`, then `copyFrom(msg)` and the reply address. */
    method ObtainReply(msg: Message, replyTo: Ref, pool: Pool) returns (m: Message)
      requires Ready(pool)
      modifies pool, pool.free
      ensures Ready(pool) && m !in Chain() && m !in pool.free
      ensures m.View() == CopyOf(old(msg.View())).(replyTo := replyTo)
      ensures queue != null ==> unchanged(queue) && Whens(queue.messages) == old(Whens(queue.messages))
      ensures fresh(m) || (old(pool.free) != [] && m == old(pool.free[0]))
      ensures pool.free == if old(pool.free) == [] then [] else old(pool.free[1..])
      ensures forall x :: x in pool.free ==> x.View() == old(x.View())
      ensures forall x :: x in Chain() ==> x.View() == old(x.View())
    {
      m := Obtain(pool);
      m.CopyFrom(msg);
      m.replyTo := replyTo;
      if queue != null {
        WhensUnchanged(queue.messages);
      }
    }

    /** `runWithScissors(callback, timeout, scheduleTime, token)`: a null
        callback and a negative timeout throw; only a NaN timeout runs the
        callback inline (answering whether it returned without throwing,
        `throws`); any other timeout, Infinity included, posts a new
        `BlockingRunnable` (the reference `Obj(rid)`) wrapping the
        callback. */
    method RunWithScissors(callback: Ref, timeout: Num, scheduleTime: Num, token: Ref, throws: bool,
                           rid: nat, now: int, pool: Pool)
      returns (r: Result<bool>, br: BlockingRunnable?, m: Message?, step: Step)
      requires Ready(pool)
      modifies queue, Chain(), pool, pool.free
      ensures Ready(pool)
      ensures forall x :: x in Chain() && x != m ==> x in old(Chain()) && x.View() == old(x.View())
      ensures callback == Null ==> r == Err(NullRunnable) && br == null && pool.free == old(pool.free)
      ensures callback != Null && Negative(timeout) ==>
        r == Err(NegativeTimeout) && br == null && pool.free == old(pool.free)
      ensures callback != Null && timeout == NaN ==> r == Ok(!throws) && br == null && pool.free == old(pool.free)
      ensures callback != Null && timeout != NaN && !Negative(timeout) ==>
        br != null && fresh(br) && br.Self() == Obj(rid) && br.task == callback && br.handler == this &&
        br.timeout == timeout && br.scheduleTime == scheduleTime && (!step.Delivered? ==> br.Waiting()) &&
        m != null &&
        Posted(CLEARED.(callback := Obj(rid), obj := token), now, pool,
               old(if pool.free == [] then [] else pool.free[1..]), old(Snap(now)), r, m, step)
    {
      br, m, step := null, null, NothingDue;
      if callback == Null {
        return Err(NullRunnable), br, m, step;
      }
      if Negative(timeout) {
        return Err(NegativeTimeout), br, m, step;
      }
      if timeout == NaN {
        return Ok(!throws), br, m, step;
      }
      br := new BlockingRunnable(rid, callback);
      r, step, m := br.PostAndWait(this, timeout, scheduleTime, token, now, pool);
    }

    /** `publish(msg)`, as written: `getBroadcaster()` calls
        `MessageBroadcaster.getInstance`, which the broadcaster does not
        define, so every call throws before anything is published. */
    method Publish(msg: Message) returns (r: Result<()>)
      ensures r == Err(TypeError)
    {
      r := Err(TypeError);
    }

    /** `subscribe(senderWhat, targetWhat)`, as written: throws like
        `Publish`. */
    method Subscribe(senderWhat: int, targetWhat: int) returns (r: Result<()>)
      ensures r == Err(TypeError)
    {
      r := Err(TypeError);
    }

    /** `unsubscribe(senderWhat, targetWhat)`, as written: throws like
        `Publish`. */
    method Unsubscribe(senderWhat: int, targetWhat: int) returns (r: Result<()>)
      ensures r == Err(TypeError)
    {
      r := Err(TypeError);
    }

    /** `publish(msg)` as intended, on the broadcaster `b`: the deliveries
        of `msg.what` that the broadcaster's table lists. */
    method PublishVia(b: Broadcast.Broadcaster, msg: Message) returns (sent: seq<BroadcastSpec.Delivery>, outcome: Result<()>)
      requires b.Valid()
      ensures BroadcastSpec.Plan(sent, outcome) == BroadcastSpec.Published(b.Table(), msg.what)
    {
      sent, outcome := b.Publish(msg.what);
    }

    /** `subscribe(senderWhat, targetWhat)` as intended: this handler is
        added to `b` under `senderWhat`. */
    method SubscribeVia(b: Broadcast.Broadcaster, senderWhat: int, targetWhat: int)
      requires b.Valid()
      modifies b, b.ring
      ensures b.Valid()
      ensures b.Table() == BroadcastSpec.Subscribed(old(b.Table()), senderWhat, Self(), targetWhat)
    {
      b.Subscribe(senderWhat, Self(), targetWhat);
    }

    /** `unsubscribe(senderWhat, targetWhat)` as intended. */
    method UnsubscribeVia(b: Broadcast.Broadcaster, senderWhat: int, targetWhat: int)
      requires b.Valid()
      modifies b.ring
      ensures b.Valid()
      ensures b.Table() == BroadcastSpec.Unsubscribed(old(b.Table()), senderWhat, Self(), targetWhat)
    {
      b.Unsubscribe(senderWhat, Self(), targetWhat);
    }
  }

  // ---------------------------------------------------------------------
  // Waiting for a posted runnable.

  /** A JavaScript number used as a timeout or an interval: NaN, one of
      the infinities, or a whole number of milliseconds. */
  datatype Num = NaN | NegInfinity | Infinity | Finite(ms: int)

  /** JavaScript's `n < 0`, false for NaN. */
  predicate Negative(n: Num) {
    n == NegInfinity || (n.Finite? && n.ms < 0)
  }

  /** The `what` of the message reporting a failed wait, and the `arg1`
      of a completion message after a timeout. */
  const ERROR: int := 0x0000_0000
  const TIMEOUT: int := 0xffff_ffff

  /** What `run` asks `wait` for: mode 0 waits once until a deadline,
      mode 1 polls every `interval` milliseconds. */
  datatype Wait = Until(deadline: int) | Every(interval: Num)

  /** The fields `notifyAll` sends: those of the message, with `arg1` set
      to TIMEOUT after a timeout. */
  function Notified(f: Fields, isTimeout: bool): (g: Fields)
    ensures g.(arg1 := f.arg1) == f
    ensures g.arg1 == (if isTimeout then TIMEOUT else f.arg1)
  {
    if isTimeout then f.(arg1 := TIMEOUT) else f
  }

  /** A runnable that wraps a task and reports on its handler once the
      task is done or timed out. It is the reference `Obj(id)`. The timer
      handle `mId` and the timers themselves are not modelled. */
  class BlockingRunnable {
    const id: nat
    var task: Ref
    var mode: int            // -1 before run, then 0 (deadline) or 1 (interval)
    var token: Ref
    var done: bool
    var timeout: Num
    var scheduleTime: Num
    var isTimeout: bool
    var handler: MessageHandler?

    function Self(): Ref {
      Obj(id)
    }

    /** The state `reset(task)` leaves. */
    predicate Waiting()
      reads this
    {
      mode == -1 && token == Null && !done && !isTimeout
    }

    /** `new BlockingRunnable(task)`, which calls `reset(task)`. */
    constructor (id: nat, task: Ref)
      ensures this.id == id && this.task == task && Waiting()
      ensures timeout == Infinity && scheduleTime == NaN && handler == null
    {
      this.id, this.task := id, task;
      mode, token, done := -1, Null, false;
      timeout, scheduleTime, isTimeout, handler := Infinity, NaN, false, null;
    }

    /** `runTask()`: the token the task is run with, none when the runnable
        is both done and timed out. */
    method RunTask() returns (call: Option<Ref>)
      ensures call.Some? <==> !(done && isTimeout)
      ensures call.Some? ==> call.value == token
    {
      if !done || !isTimeout {
        call := Some(token);
      } else {
        call := None;
      }
    }

    /** `postAndWait(h, timeout, scheduleTime, token)`: remember the
        handler and the limits, then post this runnable on `h`. */
    method PostAndWait(h: MessageHandler, timeout: Num, scheduleTime: Num, token: Ref, now: int, pool: Pool)
      returns (r: Result<bool>, step: Step, m: Message)
      requires h.Ready(pool)
      modifies this`handler, this`timeout, this`scheduleTime, h.queue, h.Chain(), pool, pool.free
      ensures handler == h && this.timeout == timeout && this.scheduleTime == scheduleTime
      ensures !step.Delivered? ==> Waiting() == old(Waiting())
      ensures h.KeptBut(m)
      ensures h.Posted(CLEARED.(callback := Self(), obj := token), now, pool,
                       old(if pool.free == [] then [] else pool.free[1..]), old(h.Snap(now)), r, m, step)
    {
      r, step, m := h.Post(Self(), token, now, pool);
      Hold(h, timeout, scheduleTime);
    }

    /** The writes `this.mHandler = h`, `this.mTimeout = timeout` and
        `this.mScheduleTime = scheduleTime`. */
    method Hold(h: MessageHandler, timeout: Num, scheduleTime: Num)
      modifies this`handler, this`timeout, this`scheduleTime
      ensures handler == h && this.timeout == timeout && this.scheduleTime == scheduleTime
    {
      handler, this.timeout, this.scheduleTime := h, timeout, scheduleTime;
    }

    /** `notifyAll(msg)`: mark the runnable done, then let the handler
        remove the runnable's posts, stamp the timeout and send `msg`
        (`Deliver`). Without a handler the call on it throws. */
    method NotifyAll(msg: Message, now: int, pool: Pool) returns (r: Result<bool>, step: Step, ghost mid: Snapshot)
      requires handler != null ==> handler.Ready(pool) && msg !in pool.free
      requires handler != null && handler.queue != null && msg in handler.queue.messages ==>
        msg.when != 0 && msg !in RemoveCallbackSplit(handler.queue.messages, handler.Self(), id, Null).removed
      modifies this`done, msg, pool, pool.free
      modifies if handler == null then {} else {handler.queue}
      modifies if handler == null then [] else handler.Chain()
      ensures done && handler == old(handler) && isTimeout == old(isTimeout)
      ensures timeout == old(timeout) && scheduleTime == old(scheduleTime)
      ensures Reported(old(handler), id, old(isTimeout), msg, now, pool, r, step, mid)
    {
      r, step, mid := Deliver(msg, now, pool);
      MarkDone();
    }

    /** The write `this.mDone = true`. */
    method MarkDone()
      modifies this`done
      ensures done
    {
      done := true;
    }

    /** What `notifyAll(msg)` leaves behind: without a handler the call
        on it throws; otherwise the handler is ready again and every
        other queued message kept its fields; without a queue the removal
        throws; otherwise the runnable's posts are removed and recycled,
        leaving the queue `mid`, and `msg`, stamped TIMEOUT after a
        timeout, is sent into it. */
    static twostate predicate Reported(h: MessageHandler?, id: nat, isTimeout: bool, msg: Message, now: int, pool: Pool,
                                       new r: Result<bool>, new step: Step, new mid: Snapshot)
      reads msg, pool
      reads if h == null then {} else {h, h.queue}
      reads if h == null then [] else h.Chain()
    {
      (h == null ==> r == Err(TypeError) && msg.View() == old(msg.View()) && pool.free == old(pool.free)) &&
      (h != null ==> h.Ready(pool) && h.KeptBut(msg)) &&
      (h != null && h.queue == null ==> r == Err(TypeError) && pool.free == old(pool.free)) &&
      (h != null && h.queue != null ==>
        var split := old(RemoveCallbackSplit(h.queue.messages, h.Self(), id, Null));
        mid.chain == split.kept && mid.pos == old(InsertPos(Whens(split.kept), now)) &&
        mid.quiting == old(h.queue.quiting) && mid.looper == old(h.queue.looperRunning) &&
        h.Sent(msg, now, h.asynchronous, Notified(old(msg.View()), isTimeout), mid, r) &&
        h.Pooled(pool, PushedAll(old(pool.free), split.removed), msg, h.asynchronous,
                 Notified(old(msg.View()), isTimeout), mid, step))
    }

    /** The part of `notifyAll` that follows setting `mDone`, which it does
        not read: the handler's `MessageHandler.Notify`, or TypeError when
        there is no handler. */
    method Deliver(msg: Message, now: int, pool: Pool) returns (r: Result<bool>, step: Step, ghost mid: Snapshot)
      requires handler != null ==> handler.Ready(pool) && msg !in pool.free
      requires handler != null && handler.queue != null && msg in handler.queue.messages ==>
        msg.when != 0 && msg !in RemoveCallbackSplit(handler.queue.messages, handler.Self(), id, Null).removed
      modifies msg, pool, pool.free
      modifies if handler == null then {} else {handler.queue}
      modifies if handler == null then [] else handler.Chain()
      ensures unchanged(this)
      ensures Reported(old(handler), id, old(isTimeout), msg, now, pool, r, step, mid)
    {
      mid, step := Snapshot([], 0, false, false), NothingDue;
      if handler == null {
        return Err(TypeError), step, mid;
      }
      r, step, mid := handler.Notify(msg, id, isTimeout, now, pool);
    }

    /** `run(h, token)`. The mode follows the timeout; the wait it asks
        for is `plan`, and what `wait` then did is the parameter `waited`
        (`Err` when it threw): the timers behind it are not modelled.
        Without a plan (there is no `h` to ask for its schedule time) or
        when the wait threw, the catch block runs (`Fail`) with the thrown
        value `error`. Otherwise the answer is the wait's. */
    method Run(h: MessageHandler?, token: Ref, now: int, waited: Result<bool>, error: Ref, pool: Pool)
      returns (r: Result<bool>, plan: Option<Wait>, ghost m: Message?, sent: Result<bool>, step: Step,
               ghost mid: Snapshot, ghost removed: seq<Message>)
      requires handler != null ==> handler.Ready(pool)
      modifies this`token, this`mode, this`isTimeout, this`done, pool, pool.free
      modifies if handler == null then {} else {handler.queue}
      modifies if handler == null then [] else handler.Chain()
      ensures this.token == token
      ensures mode == 0 || mode == 1
      ensures mode == 0 <==> timeout.Finite? && timeout.ms > 0
      ensures mode == 0 ==> plan == Some(Until(now + timeout.ms))
      ensures mode == 1 && scheduleTime != NaN ==> plan == Some(Every(scheduleTime))
      ensures mode == 1 && scheduleTime == NaN ==>
        plan == (if h == null then None else Some(Every(Finite(old(h.scheduleTime)))))
      ensures plan.Some? && waited.Ok? ==>
        r == waited && done == old(done) && isTimeout == old(isTimeout) && unchanged(pool) &&
        (handler != null ==> handler.Ready(pool)) &&
        (handler != null && handler.queue != null ==> unchanged(handler.queue))
      ensures plan.None? || waited.Err? ==>
        isTimeout && done == (old(handler) != null || old(done)) &&
        Failed(old(handler), error, now, pool, r, m, sent, step, mid, removed)
    {
      var chosen;
      chosen, plan := Choose(h, now);
      if plan.Some? && waited.Ok? {
        m, sent, step, mid, removed := null, Ok(false), NothingDue, Snapshot([], 0, false, false), [];
        r := waited;
      } else {
        r, m, sent, step, mid, removed := Fail(error, now, pool);
      }
      Arm(token, chosen);
    }

    /** The writes `this.mToken = token` and `this.mMode = chosen`. */
    method Arm(token: Ref, chosen: int)
      modifies this`token, this`mode
      ensures this.token == token && mode == chosen
    {
      this.token, mode := token, chosen;
    }

    /** The mode `run` picks for the timeout and the wait it asks for. */
    method Choose(h: MessageHandler?, now: int) returns (chosen: int, plan: Option<Wait>)
      ensures chosen == 0 || chosen == 1
      ensures chosen == 0 <==> timeout.Finite? && timeout.ms > 0
      ensures chosen == 0 ==> plan == Some(Until(now + timeout.ms))
      ensures chosen == 1 && scheduleTime != NaN ==> plan == Some(Every(scheduleTime))
      ensures chosen == 1 && scheduleTime == NaN ==>
        plan == (if h == null then None else Some(Every(Finite(h.scheduleTime))))
    {
      chosen := if timeout.Finite? && timeout.ms > 0 then 0 else 1;
      if chosen == 0 {
        plan := Some(Until(now + timeout.ms));
      } else if scheduleTime != NaN {
        plan := Some(Every(scheduleTime));
      } else if h != null {
        plan := Some(Every(Finite(h.scheduleTime)));
      } else {
        plan := None;
      }
    }

    /** The catch block of `run`: the runnable is timed out, and its
        handler is sent an ERROR message carrying the thrown value through
        `notifyAll`, which stamps it TIMEOUT; the answer is false unless
        that throws. Without a handler the catch block throws itself. */
    method Fail(error: Ref, now: int, pool: Pool)
      returns (r: Result<bool>, ghost m: Message?, sent: Result<bool>, step: Step, ghost mid: Snapshot,
               ghost removed: seq<Message>)
      requires handler != null ==> handler.Ready(pool)
      modifies this`isTimeout, this`done, pool, pool.free
      modifies if handler == null then {} else {handler.queue}
      modifies if handler == null then [] else handler.Chain()
      ensures isTimeout && done == (old(handler) != null || old(done))
      ensures handler == old(handler)
      ensures Failed(old(handler), error, now, pool, r, m, sent, step, mid, removed)
    {
      isTimeout := true;
      m, sent, step, mid, removed := null, Ok(false), NothingDue, Snapshot([], 0, false, false), [];
      if handler == null {
        return Err(TypeError), m, sent, step, mid, removed;
      }
      var n := handler.ObtainMessage(CLEARED.(what := ERROR, obj := error), pool);
      m := n;
      ghost var free1 := pool.free;
      if handler.queue != null {
        removed := RemoveCallbackSplit(handler.queue.messages, handler.Self(), id, Null).removed;
      }
      sent, step, mid := NotifyAll(n, now, pool);
      assert handler.queue != null ==>
        handler.Pooled(pool, PushedAll(free1, removed), n, handler.asynchronous, Failure(error, handler.Self()), mid, step);
      r := if sent.Err? then sent else Ok(false);
    }

    /** What the catch block of `run` leaves for the handler `h`: without
        one it throws; otherwise `h` is ready again and the ERROR message
        `m` came from the pool; without a queue the removal throws;
        otherwise the chain is split into the queue `mid` and the posts
        `removed`, which are recycled, and `m`, stamped TIMEOUT, is sent
        into `mid`. */
    static twostate predicate Failed(h: MessageHandler?, error: Ref, now: int, pool: Pool,
                                     new r: Result<bool>, new m: Message?, new sent: Result<bool>, new step: Step,
                                     new mid: Snapshot, new removed: seq<Message>)
      reads pool
      reads if h == null then {} else {h, h.queue}
      reads if m == null then {} else {m}
    {
      (h == null ==> r == Err(TypeError) && pool.free == old(pool.free)) &&
      (h != null ==> h.Ready(pool)) &&
      (h != null && h.queue == null ==>
        r == Err(TypeError) && pool.free == old(if pool.free == [] then [] else pool.free[1..])) &&
      (h != null && h.queue != null ==>
        m != null && r == (if sent.Err? then sent else Ok(false)) &&
        Partitions(Split(mid.chain, removed), old(h.queue.messages)) &&
        mid.quiting == old(h.queue.quiting) && mid.looper == old(h.queue.looperRunning) &&
        h.Sent(m, now, h.asynchronous, Failure(error, h.Self()), mid, sent) &&
        h.Pooled(pool, PushedAll(old(if pool.free == [] then [] else pool.free[1..]), removed), m,
                 h.asynchronous, Failure(error, h.Self()), mid, step))
    }
  }

  /** The message the catch block of `run` sends to the handler `h`:
      ERROR, the thrown value, and TIMEOUT in `arg1`. */
  function Failure(error: Ref, h: Ref): (f: Fields)
    ensures Notified(CLEARED.(what := ERROR, obj := error, target := h), true) == f
  {
    CLEARED.(what := ERROR, arg1 := TIMEOUT, obj := error, target := h)
  }

  // ---------------------------------------------------------------------
  // Messengers.

  /** A messenger bound to a handler, its binder (the field `handler` of
      the source). */
  class Messenger {
    var binder: MessageHandler?

    constructor (binder: MessageHandler?)
      ensures this.binder == binder
    {
      this.binder := binder;
    }

    /** `sendMessage(msg)`: through the binder, if any. The answer is
        what the binder's `sendMessage` returned, `None` when nothing was
        sent (the source discards the answer); `step` is what the
        binder's queue did. */
    method SendMessage(msg: Message, now: int, pool: Pool) returns (r: Option<Result<bool>>, step: Step)
      requires binder != null ==> binder.Ready(pool) && msg !in pool.free
      requires binder != null && msg in binder.Chain() ==> msg.when != 0
      modifies msg, pool
      modifies if binder == null then {} else {binder.queue}
      modifies if binder == null then [] else binder.Chain()
      ensures binder == old(binder)
      ensures binder == null ==> r == None && msg.View() == old(msg.View()) && pool.free == old(pool.free)
      ensures binder != null ==>
        binder.Ready(pool) &&
        forall m :: m in binder.Chain() && m != msg ==> m in old(binder.Chain()) && m.View() == old(m.View())
      ensures binder != null && binder.queue == null ==> r == Some(Ok(false)) && pool.free == old(pool.free)
      ensures binder != null && binder.queue != null ==>
        r.Some? && binder.Sent(msg, now, binder.asynchronous, old(msg.View()), old(binder.queue.Snap(now)), r.value) &&
        binder.Pooled(pool, old(pool.free), msg, binder.asynchronous, old(msg.View()), old(binder.queue.Snap(now)), step)
    {
      step := NothingDue;
      if binder == null {
        return None, step;
      }
      var sent;
      sent, step := binder.SendMessage(msg, now, pool);
      r := Some(sent);
    }

    /** `sendMessageTo(msg)`, where `target` is the handler `msg.target`
        refers to: a message for the binder goes through `SendMessage`;
        any other target gets a copy obtained from the pool, with the
        binder as `replyTo`. A missing target throws. */
    method SendMessageTo(msg: Message, target: MessageHandler?, now: int, pool: Pool)
      returns (r: Option<Result<bool>>, ghost copy: Message?, step: Step)
      requires msg.target == (if target == null then Null else target.Self())
      requires binder != null ==> binder.Ready(pool)
      requires binder != null && target == binder ==> msg !in pool.free
      requires binder != null && target == binder && msg in binder.Chain() ==> msg.when != 0
      requires target != null ==> target.Ready(pool)
      modifies msg, pool, pool.free
      modifies if binder == null then {} else {binder.queue}
      modifies if binder == null then [] else binder.Chain()
      modifies if target == null then {} else {target.queue}
      modifies if target == null then [] else target.Chain()
      ensures binder == null ==> r == None && msg.View() == old(msg.View()) && pool.free == old(pool.free)
      ensures binder != null && target != null ==> target.Ready(pool)
      ensures binder != null && target == binder ==>
        copy == null &&
        (forall m :: m in binder.Chain() && m != msg ==> m in old(binder.Chain()) && m.View() == old(m.View())) &&
        (binder.queue == null ==> r == Some(Ok(false)) && pool.free == old(pool.free)) &&
        (binder.queue != null ==>
          r.Some? && binder.Sent(msg, now, binder.asynchronous, old(msg.View()), old(binder.queue.Snap(now)), r.value) &&
          binder.Pooled(pool, old(pool.free), msg, binder.asynchronous, old(msg.View()), old(binder.queue.Snap(now)), step))
      ensures binder != null && target == null ==>
        r == Some(Err(TypeError)) && pool.free == old(if pool.free == [] then [] else pool.free[1..])
      ensures binder != null && target != null && target != binder ==>
        copy != null &&
        (forall m :: m in target.Chain() && m != copy ==> m in old(target.Chain()) && m.View() == old(m.View())) &&
        (target.queue == null ==> r == Some(Ok(false)) && pool.free == old(if pool.free == [] then [] else pool.free[1..])) &&
        (target.queue != null ==>
          r.Some? &&
          target.Sent(copy, now, target.asynchronous, CopyOf(old(msg.View())).(replyTo := binder.Self()),
                      old(target.queue.Snap(now)), r.value) &&
          target.Pooled(pool, old(if pool.free == [] then [] else pool.free[1..]), copy, target.asynchronous,
                        CopyOf(old(msg.View())).(replyTo := binder.Self()), old(target.queue.Snap(now)), step))
    {
      copy, step := null, NothingDue;
      if binder == null {
        return None, copy, step;
      }
      if target == binder {
        r, step := SendMessage(msg, now, pool);
        return;
      }
      ghost var f := CopyOf(msg.View()).(replyTo := binder.Self());
      r, copy, step := SendCopy(msg, target, binder.Self(), now, pool);
      assert target != null && target.queue != null ==> target.Sent(copy, now, target.asynchronous, f, old(target.queue.Snap(now)), r.value);
    }

    /** The copy path of `sendMessageTo`: a message obtained from the
        pool takes the fields of `msg` and the reply address, then goes to
        the target, which must exist. */
    method SendCopy(msg: Message, target: MessageHandler?, replyTo: Ref, now: int, pool: Pool)
      returns (r: Option<Result<bool>>, ghost copy: Message?, step: Step)
      requires pool.Valid()
      requires target != null ==> target.Ready(pool)
      modifies msg, pool, pool.free
      modifies if target == null then {} else {target.queue}
      modifies if target == null then [] else target.Chain()
      ensures target == null ==>
        r == Some(Err(TypeError)) && pool.free == old(if pool.free == [] then [] else pool.free[1..])
      ensures target != null ==>
        copy != null && target.Ready(pool) &&
        forall m :: m in target.Chain() && m != copy ==> m in old(target.Chain()) && m.View() == old(m.View())
      ensures target != null && target.queue == null ==>
        r == Some(Ok(false)) && pool.free == old(if pool.free == [] then [] else pool.free[1..])
      ensures target != null && target.queue != null ==>
        r.Some? &&
        target.Sent(copy, now, target.asynchronous, CopyOf(old(msg.View())).(replyTo := replyTo),
                    old(target.queue.Snap(now)), r.value) &&
        target.Pooled(pool, old(if pool.free == [] then [] else pool.free[1..]), copy, target.asynchronous,
                      CopyOf(old(msg.View())).(replyTo := replyTo), old(target.queue.Snap(now)), step)
    {
      step := NothingDue;
      if target == null {
        var m := Obtain(pool);
        m.CopyFrom(msg);
        m.replyTo := replyTo;
        return Some(Err(TypeError)), m, step;
      }
      ghost var s0 := if target.queue == null then Snapshot([], 0, false, false) else target.queue.Snap(now);
      ghost var f := CopyOf(msg.View()).(replyTo := replyTo);
      var m := target.ObtainReply(msg, replyTo, pool);
      copy := m;
      assert target.queue != null ==> target.queue.Snap(now) == s0;
      assert m.View() == f;
      var sent;
      sent, step := target.SendMessage(m, now, pool);
      r := Some(sent);
    }

    /** `publish(msg)`, as written: with a binder, `replyTo` defaults to
        the binder, then the binder's `publish` throws (see
        `MessageHandler.Publish`). */
    method Publish(msg: Message) returns (r: Result<()>)
      modifies msg
      ensures binder == null ==> r == Ok(()) && msg.View() == old(msg.View())
      ensures binder != null ==>
        r == Err(TypeError) &&
        msg.View() == old(msg.View()).(replyTo := if old(msg.replyTo) == Null then binder.Self() else old(msg.replyTo))
    {
      if binder == null {
        return Ok(());
      }
      if msg.replyTo == Null {
        msg.replyTo := binder.Self();
      }
      r := binder.Publish(msg);
    }

    /** `publish(msg)` as intended, on the broadcaster `b`: `replyTo`
        defaults to the binder, then `msg.what` is published. */
    method PublishVia(b: Broadcast.Broadcaster, msg: Message)
      returns (sent: seq<BroadcastSpec.Delivery>, outcome: Result<()>)
      requires b.Valid()
      modifies msg
      ensures binder == null ==> sent == [] && outcome == Ok(()) && msg.View() == old(msg.View())
      ensures binder != null ==>
        msg.View() == old(msg.View()).(replyTo := if old(msg.replyTo) == Null then binder.Self() else old(msg.replyTo)) &&
        BroadcastSpec.Plan(sent, outcome) == BroadcastSpec.Published(b.Table(), msg.what)
    {
      if binder == null {
        return [], Ok(());
      }
      if msg.replyTo == Null {
        msg.replyTo := binder.Self();
      }
      sent, outcome := binder.PublishVia(b, msg);
    }
  }
}
