/** The message queue: a chain of messages kept in `when` order, with the
    flags, waiter table and idle-handler list around it. `Date.now()` is the
    parameter `now`; the looper is the flag `looperRunning`; the timers of
    the waiter table are the set of `when` keys they were registered for. */
module Queue {
  import opened Base
  import opened Messages
  import opened QueueSpec

  /** What one `dispatchMessage` step did. */
  datatype Step =
    | NothingDue             // nextMessage() returned null
    | BarrierPopped          // a message without target was popped and handed back, not recycled
    | Delivered(msg: Fields) // msg.target.dispatchMessage(msg) was called with these fields, then msg was recycled

  /** Recycles `ms` one after the other, as the removal loops do. The
      messages are unlinked ones: none is on the free list, none twice. */
  method RecycleAll(ms: seq<Message>, pool: Pool)
    requires pool.Valid()
    requires forall i, j :: 0 <= i < j < |ms| ==> ms[i] != ms[j]
    requires forall i :: 0 <= i < |ms| ==> ms[i] !in pool.free
    modifies ms, pool
    ensures pool.Valid() && pool.free == PushedAll(old(pool.free), ms)
    ensures forall m :: m in ms ==> m.View() == CLEARED
  {
    var i := 0;
    while i < |ms|
      invariant 0 <= i <= |ms| && pool.Valid()
      invariant pool.free == PushedAll(old(pool.free), ms[..i])
      invariant forall k :: i <= k < |ms| ==> ms[k] !in pool.free
      invariant forall m :: m in ms[..i] ==> m.View() == CLEARED
    {
      assert ms[..i + 1][..i] == ms[..i];
      ms[i].Recycle(pool);
      i := i + 1;
    }
    assert ms[..i] == ms;
  }

  /** `s` without its first occurrence of `x`, as `indexOf` and `splice` leave it. */
  function RemoveFirst<T(==)>(s: seq<T>, x: T): (r: seq<T>)
    ensures x !in s ==> r == s
    ensures x in s ==> |r| == |s| - 1 && multiset(r) == multiset(s) - multiset{x}
  {
    if s == [] then []
    else if s[0] == x then (assert s == [s[0]] + s[1..]; s[1..])
    else (assert s == [s[0]] + s[1..]; [s[0]] + RemoveFirst(s[1..], x))
  }

  // ---------------------------------------------------------------------
  // The loops that walk a chain along `next` without changing it.

  /** The length of the leading run of messages that match. */
  method LeadingRun(c: seq<Message>, h: Ref, sel: Selector, token: Ref) returns (n: nat)
    ensures n == RunLength(c, h, sel, token)
  {
    n := 0;
    while n < |c| && Matches(c[n].View(), h, sel, token)
      invariant n <= |c| && n <= RunLength(c, h, sel, token)
    {
      n := n + 1;
    }
  }

  /** The length of the leading run of messages owned by `h` and `token`. */
  method LeadingOwnedRun(c: seq<Message>, h: Ref, token: Ref) returns (n: nat)
    ensures n == OwnedRunLength(c, h, token)
  {
    n := 0;
    while n < |c| && Owned(c[n].View(), h, token)
      invariant n <= |c| && n <= OwnedRunLength(c, h, token)
    {
      n := n + 1;
    }
  }

  /** Whether some message is owned by `h` and `token`: the early return of
      the numeric path of `removeMessages` when it is not to remove. */
  method AnyOwned(c: seq<Message>, h: Ref, token: Ref) returns (b: bool)
    ensures b == exists i :: 0 <= i < |c| && Owned(c[i].View(), h, token)
  {
    var i := 0;
    while i < |c|
      invariant i <= |c| && forall j :: 0 <= j < i ==> !Owned(c[j].View(), h, token)
    {
      if Owned(c[i].View(), h, token) {
        return true;
      }
      i := i + 1;
    }
    b := false;
  }

  /** The second loop of the numeric path of `removeMessages`, splitting
      instead of unlinking. */
  method ScanOwned(c: seq<Message>, h: Ref, token: Ref) returns (r: Split)
    ensures r == StripOwned(c, h, token)
  {
    var kept, removed := [], [];
    var i := 0;
    assert c[i..] == c;
    while i < |c|
      invariant i <= |c|
      invariant StripOwned(c, h, token).kept == kept + StripOwned(c[i..], h, token).kept
      invariant StripOwned(c, h, token).removed == removed + StripOwned(c[i..], h, token).removed
    {
      ghost var kept0, removed0 := kept, removed;
      if Owned(c[i].View(), h, token) {
        removed := removed + [c[i]];
      } else {
        kept := kept + [c[i]];
      }
      StripOwnedStep(c, i, h, token, kept0, removed0, kept, removed);
      i := i + 1;
    }
    assert c[i..] == [];
    r := Split(kept, removed);
  }

  /** The second loop of the callback path of `removeMessages`: `prev` is
      the object of the message the loop stands on. */
  method ScanCallbackTail(prevObj: Ref, c: seq<Message>, h: Ref, cb: nat, token: Ref) returns (r: Split)
    ensures r == StripCallbackTail(prevObj, c, h, cb, token)
  {
    var kept, removed := [], [];
    var prev := prevObj;
    var i := 0;
    assert c[i..] == c;
    while i < |c|
      invariant i <= |c|
      invariant StripCallbackTail(prevObj, c, h, cb, token).kept ==
        kept + StripCallbackTail(prev, c[i..], h, cb, token).kept
      invariant StripCallbackTail(prevObj, c, h, cb, token).removed ==
        removed + StripCallbackTail(prev, c[i..], h, cb, token).removed
    {
      ghost var prev0, kept0, removed0 := prev, kept, removed;
      if c[i].target == h && c[i].callback == Obj(cb) && ObjMatches(prev, token) {
        removed := removed + [c[i]];
      } else {
        kept := kept + [c[i]];
        prev := c[i].obj;
      }
      StripCallbackTailStep(prevObj, prev0, c, i, h, cb, token, kept0, removed0, prev, kept, removed);
      i := i + 1;
    }
    assert c[i..] == [];
    r := Split(kept, removed);
  }

  /** The numeric path of `removeMessages` without `doRemove`, which
      returns as soon as it meets a message it would remove. */
  method WouldRemoveWhat(c: seq<Message>, h: Ref, what: int, token: Ref) returns (b: bool)
    ensures b == (RemoveWhatSplit(c, h, what, token).removed != [])
  {
    var n := LeadingRun(c, h, What(what), token);
    if n > 0 {
      return true;
    }
    if c == [] {
      return false;
    }
    b := AnyOwned(c[1..], h, token);
    StripOwnedRemovesAny(c[1..], h, token);
  }

  /** The two loops of the numeric path of `removeMessages`. */
  method WhatSplitScan(c: seq<Message>, h: Ref, what: int, token: Ref) returns (split: Split)
    ensures split == RemoveWhatSplit(c, h, what, token)
  {
    var n := LeadingRun(c, h, What(what), token);
    var rest := Split([], []);
    if n < |c| {
      rest := ScanOwned(c[n + 1..], h, token);
      split := Split([c[n]] + rest.kept, c[..n] + rest.removed);
    } else {
      split := Split([], c);
    }
    RemoveWhatSplitUnfold(c, h, what, token, n, rest);
  }

  /** The two loops of the callback path of `removeMessages`. */
  method CallbackSplitScan(c: seq<Message>, h: Ref, cb: nat, token: Ref) returns (split: Split)
    ensures split == RemoveCallbackSplit(c, h, cb, token)
  {
    var n := LeadingRun(c, h, Callback(cb), token);
    var rest := Split([], []);
    if n < |c| {
      rest := ScanCallbackTail(c[n].obj, c[n + 1..], h, cb, token);
      split := Split([c[n]] + rest.kept, c[..n] + rest.removed);
    } else {
      split := Split([], c);
    }
    RemoveCallbackSplitUnfold(c, h, cb, token, n, rest);
  }

  /** The loop of `removeCallbacksAndMessages`. */
  method OwnedSplitScan(c: seq<Message>, h: Ref, token: Ref) returns (split: Split)
    ensures split == RemoveOwnedSplit(c, h, token)
  {
    if c == [] || !Owned(c[0].View(), h, token) {
      return Split(c, []);
    }
    var n := LeadingOwnedRun(c[1..], h, token);
    split := Split([c[0]] + c[1 + n..], c[1..1 + n]);
  }

  /** The `for (;;)` loop of `removeFuturMessages`: where the chain is cut. */
  method FutureCutScan(c: seq<Message>, now: int) returns (k: nat)
    ensures k == FutureCut(Whens(c), now)
  {
    if c == [] || c[0].when > now {
      return |c|;
    }
    ghost var ws := Whens(c);
    k := 1;
    while k < |c| && c[k].when <= now
      invariant 1 <= k <= |c| && k <= FutureCut(ws, now)
    {
      k := k + 1;
    }
  }

  /** What an enqueue at time `when` depends on in the queue it goes to: the
      chain, where `when` would be inserted, and the two flags. */
  datatype Snapshot = Snapshot(chain: seq<Message>, pos: nat, quiting: bool, looper: bool)

  /** What `enqueueMessage` did with `msg`, whose fields were `before`,
      when the queue stood as `s`, seen in the chain `ms`, the barrier flag
      and the message's fields `view` afterwards: each error leaves the
      chain and the message alone, a quitting queue recycles the message,
      otherwise the message is linked at `s.pos` and the head may then have
      been dispatched, which recycles it unless it is a barrier. */
  ghost predicate Outcome(ms: seq<Message>, quiting: bool, quitAllowed: bool, view: Fields,
                          msg: Message, when: int, before: Fields, s: Snapshot, r: Result<bool>)
  {
    s.pos <= |s.chain| &&
    var chain := InsertAt(s.chain, s.pos, msg);
    var accepted := before.when == 0 && (before.target != Null || quitAllowed);
    (before.when != 0 ==> r == Err(AlreadyInUse) && ms == s.chain && view == before) &&
    (before.when == 0 && before.target == Null && !quitAllowed ==>
       r == Err(QueueNotAllowedToQuit) && ms == s.chain && view == before) &&
    (accepted && s.quiting ==> r == Ok(false) && ms == s.chain && view == CLEARED) &&
    (accepted && !s.quiting ==>
       (r == Ok(true) || r == Err(TypeError)) && quiting == (before.target == Null) &&
       (ms == chain || ms == chain[1..]) &&
       (s.looper ==> r == Ok(true) && ms == chain) &&
       (msg in ms || before.target == Null ==> view == before.(when := when, state := WithInUse(before.state))) &&
       (msg !in ms && before.target != Null ==> view == CLEARED))
  }

  /** The dispatch step after an insertion into the chain `chain`, whose
      head had the fields `head` and has `first` now, when the looper was
      running or not (`looper`) and the waiter keys were `waiters0`: nothing
      when a looper will run or a barrier was enqueued; a timer for the head
      when it is not due yet, or a TypeError when the queue is disposed; the
      head popped when it is due, a barrier left as it is, a message
      delivered with its fields and then recycled. */
  ghost predicate Stepped(ms: seq<Message>, quiting: bool, disposed: bool, waiters: set<int>, step: Step,
                          r: Result<bool>, chain: seq<Message>, head: Fields, first: Fields,
                          looper: bool, waiters0: set<int>, now: int)
  {
    (looper || quiting ==> r == Ok(true) && step == NothingDue && ms == chain && waiters == waiters0) &&
    (!looper && !quiting && now < head.when ==>
       step == NothingDue && ms == chain &&
       (disposed ==> r == Err(TypeError) && waiters == waiters0) &&
       (!disposed ==> r == Ok(true) && waiters == waiters0 + {head.when})) &&
    (!looper && !quiting && now >= head.when ==>
       r == Ok(true) && chain != [] && ms == chain[1..] && waiters == waiters0 &&
       (head.target == Null ==> step == BarrierPopped) &&
       (head.target != Null ==> step == Delivered(head.(state := WithInUse(head.state))) && first == CLEARED))
  }

  /** The free list after `enqueueMessage`, which was `free0` before it:
      a queue that was quitting recycles the message it turns away, a
      dispatch step that delivered the head recycles that head, and
      nothing else reaches the list. */
  ghost predicate Recycled(free: seq<Message>, free0: seq<Message>, msg: Message, quitAllowed: bool,
                           before: Fields, s: Snapshot, step: Step)
  {
    s.pos <= |s.chain| &&
    var accepted := before.when == 0 && (before.target != Null || quitAllowed);
    free == if accepted && s.quiting then Pushed(free0, msg)
            else if step.Delivered? then Pushed(free0, InsertAt(s.chain, s.pos, msg)[0])
            else free0
  }

  /** The accepted path of Recycled: only a delivered head, the first
      message of the chain once `msg` is linked, reaches the free list. */
  lemma AcceptedRecycled(free: seq<Message>, free0: seq<Message>, msg: Message, quitAllowed: bool,
                         before: Fields, s: Snapshot, step: Step, chain: seq<Message>)
    requires s.pos <= |s.chain| && chain == InsertAt(s.chain, s.pos, msg) && !s.quiting
    requires free == if step.Delivered? then Pushed(free0, chain[0]) else free0
    ensures Recycled(free, free0, msg, quitAllowed, before, s, step)
  {
  }

  /** The accepted path of Outcome, from what the insertion and the
      dispatch step after it each promise. */
  lemma AcceptedOutcome(ms: seq<Message>, quiting: bool, quitAllowed: bool, view: Fields,
                        msg: Message, when: int, before: Fields, s: Snapshot, r: Result<bool>,
                        chain: seq<Message>, linked: Fields)
    requires s.pos <= |s.chain| && chain == InsertAt(s.chain, s.pos, msg)
    requires before.when == 0 && (before.target != Null || quitAllowed) && !s.quiting
    requires quiting == (before.target == Null)
    requires linked == before.(when := when, state := WithInUse(before.state))
    requires ms == chain || ms == chain[1..]
    requires r == Ok(true) || r == Err(TypeError)
    requires s.looper ==> r == Ok(true) && ms == chain
    requires msg in ms ==> view == linked
    requires msg !in ms && before.target == Null ==> view == linked.(state := WithInUse(linked.state))
    requires msg !in ms && before.target != Null ==> view == CLEARED
    ensures Outcome(ms, quiting, quitAllowed, view, msg, when, before, s, r)
  {
    InUseIdempotent(before.state);
  }

  class MessageQueue {
    var messages: seq<Message>  // mMessages, followed along `next`
    var quiting: bool           // mQuiting: set by a barrier, read by enqueue and nextMessage
    var quitting: bool          // mQuitting: set by quit
    const quitAllowed: bool
    var waiters: set<int>       // the keys of mWaiters whose timer is pending
    var idleHandlers: seq<Ref>
    var disposed: bool          // dispose() has set mWaiters and mIdleHandlers to null
    var looperRunning: bool     // mLooper is set and mLooper.isRunning()

    ghost predicate Valid()
      reads this
    {
      Distinct(messages)
    }

    /** No message is both on the free list and in the chain. */
    ghost predicate Apart(pool: Pool)
      reads this, pool
    {
      forall i :: 0 <= i < |pool.free| ==> pool.free[i] !in messages
    }

    constructor (quitAllowed: bool)
      ensures Valid() && messages == [] && this.quitAllowed == quitAllowed
      ensures !quiting && !quitting && !disposed && !looperRunning
      ensures waiters == {} && idleHandlers == []
    {
      messages, quiting, quitting, this.quitAllowed := [], false, false, quitAllowed;
      waiters, idleHandlers, disposed, looperRunning := {}, [], false, false;
    }

    /** `isIdle()`: nothing is due at `now`. */
    predicate IsIdle(now: int)
      reads this, messages
    {
      messages == [] || now < messages[0].when
    }

    /** In a chain kept in time order the queue is idle exactly when no
        message at all is due yet. */
    lemma IdleIffNothingDue(now: int)
      requires Sorted(Whens(messages))
      ensures IsIdle(now) <==> forall m :: m in messages ==> now < m.when
    {
      if messages != [] && now < messages[0].when {
        forall m | m in messages
          ensures now < m.when
        {
          var i :| 0 <= i < |messages| && messages[i] == m;
          assert Whens(messages)[0] <= Whens(messages)[i];
        }
      }
    }

    method AddIdleHandler(handler: Ref) returns (r: Result<()>)
      modifies this`idleHandlers
      ensures handler == Null ==> r == Err(NullIdleHandler) && idleHandlers == old(idleHandlers)
      ensures handler != Null && disposed ==> r == Err(TypeError) && idleHandlers == old(idleHandlers)
      ensures handler != Null && !disposed ==> r == Ok(()) && idleHandlers == old(idleHandlers) + [handler]
    {
      if handler == Null {
        return Err(NullIdleHandler);
      }
      if disposed {
        return Err(TypeError);
      }
      idleHandlers := idleHandlers + [handler];
      r := Ok(());
    }

    method RemoveIdleHandler(handler: Ref) returns (r: Result<()>)
      modifies this`idleHandlers
      ensures disposed ==> r == Err(TypeError) && idleHandlers == old(idleHandlers)
      ensures !disposed ==> r == Ok(()) && idleHandlers == RemoveFirst(old(idleHandlers), handler)
    {
      if disposed {
        return Err(TypeError);
      }
      idleHandlers := RemoveFirst(idleHandlers, handler);
      r := Ok(());
    }

    /** `dispose()`. */
    method Dispose()
      modifies this`disposed, this`waiters, this`idleHandlers, this`looperRunning
      ensures disposed && waiters == {} && idleHandlers == [] && !looperRunning
    {
      disposed, waiters, idleHandlers, looperRunning := true, {}, [], false;
    }

    /** `pullNextLocked(now)`: pops the head exactly when the queue is
        not idle (`IsIdle`), that is iff the head is due; otherwise
        registers a timer for the head's time unless one is pending. The
        waiter table is null once the queue is disposed, and reading it
        throws. */
    method PullNextLocked(now: int) returns (r: Result<Message?>)
      requires Valid()
      modifies this`messages, this`waiters
      ensures Valid()
      ensures !old(IsIdle(now)) ==>
        r.Ok? && r.value == old(messages[0]) && messages == old(messages[1..]) && waiters == old(waiters)
      ensures old(messages) == [] ==> r == Ok(null) && messages == [] && waiters == old(waiters)
      ensures r.Ok? && r.value != null ==> r.value !in messages
      ensures old(messages) != [] && old(IsIdle(now)) ==>
        messages == old(messages) &&
        (disposed ==> r == Err(TypeError) && waiters == old(waiters)) &&
        (!disposed ==> r == Ok(null) && waiters == old(waiters) + {messages[0].when})
    {
      if messages != [] {
        var msg := messages[0];
        if now >= msg.when {
          assert messages == [msg] + messages[1..];
          PartsOfDistinct(Split(messages[1..], [msg]), messages);
          messages := messages[1..];
          return Ok(msg);
        }
        if disposed {
          return Err(TypeError);
        }
        if msg.when !in waiters {
          waiters := waiters + {msg.when};
        }
      }
      r := Ok(null);
    }

    /** `nextMessage()`: nothing once a barrier has been enqueued; otherwise
        the due head, marked in use. The idle-handler loop after the pull
        is never entered, because the loop runs only while the pull
        returns a message, and returns it at once. */
    method NextMessage(now: int) returns (r: Result<Message?>)
      requires Valid()
      modifies this`messages, this`waiters, messages
      ensures Valid()
      ensures quiting ==> r == Ok(null) && messages == old(messages) && waiters == old(waiters)
      ensures !quiting && !old(IsIdle(now)) ==>
        r.Ok? && r.value == old(messages[0]) && messages == old(messages[1..]) && waiters == old(waiters) &&
        r.value.View() == old(r.value.View()).(state := WithInUse(old(r.value.state)))
      ensures !quiting && old(IsIdle(now)) ==>
        messages == old(messages) &&
        (old(messages) == [] ==> r == Ok(null) && waiters == old(waiters)) &&
        (old(messages) != [] && disposed ==> r == Err(TypeError) && waiters == old(waiters)) &&
        (old(messages) != [] && !disposed ==> r == Ok(null) && waiters == old(waiters) + {messages[0].when})
      ensures r.Ok? && r.value != null ==> r.value !in messages
      ensures forall m :: m in messages ==> m in old(messages) && m.View() == old(m.View())
    {
      if quiting {
        return Ok(null);
      }
      r := PullNextLocked(now);
      if r.Ok? && r.value != null {
        r.value.MarkInUse();
      }
    }

    /** `dispatchMessage()`: one step of the dispatch loop. A popped message
        with a target is handed to that target and then recycled; the
        target's answer is not used. */
    method DispatchMessage(now: int, pool: Pool) returns (r: Result<Step>)
      requires Valid() && pool.Valid() && Apart(pool)
      modifies this`messages, this`waiters, messages, pool
      ensures Valid() && pool.Valid() && Apart(pool)
      ensures quiting || old(IsIdle(now)) ==>
        messages == old(messages) && pool.free == old(pool.free) &&
        (quiting || old(messages) == [] ==> r == Ok(NothingDue) && waiters == old(waiters)) &&
        (!quiting && old(messages) != [] && disposed ==> r == Err(TypeError) && waiters == old(waiters)) &&
        (!quiting && old(messages) != [] && !disposed ==>
           r == Ok(NothingDue) && waiters == old(waiters) + {messages[0].when})
      ensures !quiting && !old(IsIdle(now)) ==>
        var head := old(messages[0]);
        messages == old(messages[1..]) && waiters == old(waiters) &&
        (old(head.target) == Null ==>
           r == Ok(BarrierPopped) && pool.free == old(pool.free) &&
           head.View() == old(head.View()).(state := WithInUse(old(head.state)))) &&
        (old(head.target) != Null ==>
           r == Ok(Delivered(old(head.View()).(state := WithInUse(old(head.state))))) &&
           head.View() == CLEARED && pool.free == Pushed(old(pool.free), head))
      ensures forall m :: m in messages ==> m in old(messages) && m.View() == old(m.View())
    {
      var next := NextMessage(now);
      if next.Err? {
        return Err(next.error);
      }
      var msg := next.value;
      if msg == null {
        return Ok(NothingDue);
      }
      if msg.target == Null {
        return Ok(BarrierPopped);
      }
      var f := msg.View();
      msg.Recycle(pool);
      r := Ok(Delivered(f));
    }

    /** The scan of `enqueueMessage` that finds where a message due at
        `when` goes. */
    method FindInsertPos(when: int) returns (k: nat)
      ensures k == InsertPos(Whens(messages), when)
    {
      var c := messages;
      ghost var ws := Whens(c);
      k := 0;
      if c == [] || when == 0 || when < c[0].when {
        return;
      }
      ghost var f := FirstAfter(ws, when);
      while k < |c| && c[k].when <= when
        invariant 0 <= k <= f
      {
        k := k + 1;
      }
      assert k < |c| ==> ws[k] > when;
    }

    /** The checks and the insertion of `enqueueMessage(msg, when)`, up to
        the dispatch step. */
    method Insert(msg: Message, when: int, pool: Pool) returns (r: Result<bool>)
      requires Valid() && pool.Valid() && Apart(pool) && msg !in pool.free
      requires msg in messages ==> msg.when != 0
      modifies this`messages, this`quiting, msg, pool
      ensures Valid() && pool.Valid() && Apart(pool)
      ensures old(msg.when) != 0 ==>
        r == Err(AlreadyInUse) && messages == old(messages) && quiting == old(quiting) &&
        msg.View() == old(msg.View()) && pool.free == old(pool.free)
      ensures old(msg.when) == 0 && old(msg.target) == Null && !quitAllowed ==>
        r == Err(QueueNotAllowedToQuit) && messages == old(messages) && quiting == old(quiting) &&
        msg.View() == old(msg.View()) && pool.free == old(pool.free)
      ensures old(msg.when) == 0 && (old(msg.target) != Null || quitAllowed) && old(quiting) ==>
        r == Ok(false) && messages == old(messages) && quiting &&
        msg.View() == CLEARED && pool.free == Pushed(old(pool.free), msg)
      ensures old(msg.when) == 0 && (old(msg.target) != Null || quitAllowed) && !old(quiting) ==>
        r == Ok(true) && quiting == (old(msg.target) == Null) && pool.free == old(pool.free) &&
        msg.View() == old(msg.View()).(when := when, state := WithInUse(old(msg.state))) &&
        messages == InsertAt(old(messages), old(PosFor(when)), msg)
      ensures forall m :: m in old(messages) ==> m.View() == old(m.View())
      ensures forall m :: m in messages && m != msg ==> m in old(messages)
    {
      if msg.when != 0 {
        return Err(AlreadyInUse);
      }
      if msg.target == Null && !quitAllowed {
        return Err(QueueNotAllowedToQuit);
      }
      if quiting {
        msg.Recycle(pool);
        return Ok(false);
      }
      quiting := msg.target == Null;
      Link(msg, when, pool);
      r := Ok(true);
    }

    /** The accepted path of `enqueueMessage`: `msg` is marked in use, gets
        its time and is linked where PosFor puts it. */
    method Link(msg: Message, when: int, pool: Pool)
      requires Valid() && msg !in messages && Apart(pool) && msg !in pool.free
      modifies this`messages, msg
      ensures Valid() && Apart(pool)
      ensures msg.View() == old(msg.View()).(when := when, state := WithInUse(old(msg.state)))
      ensures messages == InsertAt(old(messages), old(PosFor(when)), msg)
      ensures forall m :: m in old(messages) ==> m.View() == old(m.View())
      ensures forall m :: m in messages && m != msg ==> m in old(messages)
    {
      // The position depends only on the chain, so it is found first.
      var k := FindInsertPos(when);
      InsertKeepsDistinct(messages, k, msg);
      msg.MarkInUse();
      msg.when := when;
      messages := InsertAt(messages, k, msg);
    }

    /** The checks of `enqueueMessage` let `msg` into the chain. */
    predicate Accepts(msg: Message)
      reads this, msg
    {
      msg.when == 0 && (msg.target != Null || quitAllowed) && !quiting
    }

    /** Where `enqueueMessage` links a message due at `when`. */
    function PosFor(when: int): nat
      reads this, messages
    {
      InsertPos(Whens(messages), when)
    }

    /** The fields of the chain's head once `msg` is linked at `when`. */
    function HeadAfter(msg: Message, when: int): Fields
      reads this, messages, msg
    {
      if PosFor(when) == 0 then msg.View().(when := when, state := WithInUse(msg.state))
      else messages[0].View()
    }

    /** What the queue depends on when it takes a message due at `when`. */
    ghost function Snap(when: int): (s: Snapshot)
      reads this, messages
      ensures s.chain == messages && s.pos <= |s.chain|
    {
      Snapshot(messages, PosFor(when), quiting, looperRunning)
    }

    /** The free list `enqueueMessage` leaves, when it was `free0`. */
    ghost predicate Freed(pool: Pool, free0: seq<Message>, msg: Message, before: Fields, s: Snapshot, step: Step)
      reads pool
    {
      Recycled(pool.free, free0, msg, quitAllowed, before, s, step)
    }

    /** What `enqueueMessage` did with `msg`, whose fields were `before`,
        when the queue stood as `s`. */
    ghost predicate Took(msg: Message, when: int, before: Fields, s: Snapshot, r: Result<bool>)
      reads this, msg
    {
      Outcome(messages, quiting, quitAllowed, msg.View(), msg, when, before, s, r)
    }

    /** `enqueueMessage(msg, when)` at time `now`: the insertion, then one
        dispatch step unless a running looper will do it. A handler that
        re-enters the queue while the step runs is not modelled. */
    method EnqueueMessage(msg: Message, when: int, now: int, pool: Pool) returns (r: Result<bool>, step: Step)
      requires Valid() && pool.Valid() && Apart(pool) && msg !in pool.free
      requires msg in messages ==> msg.when != 0
      modifies this`messages, this`quiting, this`waiters, messages, msg, pool
      ensures Valid() && pool.Valid() && Apart(pool)
      ensures Took(msg, when, old(msg.View()), old(Snap(when)), r)
      ensures Freed(pool, old(pool.free), msg, old(msg.View()), old(Snap(when)), step)
      ensures forall m :: m in messages && m != msg ==> m in old(messages) && m.View() == old(m.View())
      ensures !old(Accepts(msg)) ==> step == NothingDue
      ensures old(Accepts(msg)) ==>
        var chain := InsertAt(old(messages), old(PosFor(when)), msg);
        Stepped(messages, quiting, disposed, waiters, step, r,
                chain, old(HeadAfter(msg, when)), chain[0].View(), old(looperRunning), old(waiters), now)
    {
      if Accepts(msg) {
        r, step := EnqueueAccepted(msg, when, now, pool);
      } else {
        r := Insert(msg, when, pool);
        step := NothingDue;
      }
    }

    /** `enqueueMessage` for a message the queue takes: the insertion and
        the dispatch step after it. */
    method EnqueueAccepted(msg: Message, when: int, now: int, pool: Pool) returns (r: Result<bool>, step: Step)
      requires Valid() && pool.Valid() && Apart(pool) && msg !in pool.free && msg !in messages && Accepts(msg)
      modifies this`messages, this`quiting, this`waiters, messages, msg, pool
      ensures Valid() && pool.Valid() && Apart(pool)
      ensures Took(msg, when, old(msg.View()), old(Snap(when)), r)
      ensures Freed(pool, old(pool.free), msg, old(msg.View()), old(Snap(when)), step)
      ensures forall m :: m in messages && m != msg ==> m in old(messages) && m.View() == old(m.View())
      ensures var chain := InsertAt(old(messages), old(PosFor(when)), msg);
        Stepped(messages, quiting, disposed, waiters, step, r,
                chain, old(HeadAfter(msg, when)), chain[0].View(), old(looperRunning), old(waiters), now)
    {
      ghost var pos := PosFor(when);
      ghost var chain := InsertAt(messages, pos, msg);
      ghost var head := HeadAfter(msg, when);
      ghost var v0, s0, free0 := msg.View(), Snap(when), pool.free;
      r := Insert(msg, when, pool);
      assert messages == chain && chain[pos] == msg && pool.free == free0;
      assert messages[0].View() == head;
      ghost var linked := msg.View();
      r, step := Settle(msg, pos, now, pool);
      assert messages == chain || messages == chain[1..];
      AcceptedRecycled(pool.free, free0, msg, quitAllowed, v0, s0, step, chain);
      AcceptedOutcome(messages, quiting, quitAllowed, msg.View(), msg, when, v0, s0, r, chain, linked);
    }

    /** The dispatch step that follows a successful insertion of `msg` at
        `pos`, unless a running looper will take it. */
    method Settle(ghost msg: Message, ghost pos: nat, now: int, pool: Pool) returns (r: Result<bool>, step: Step)
      requires Valid() && pool.Valid() && Apart(pool) && pos < |messages| && messages[pos] == msg
      modifies this`messages, this`waiters, messages, pool
      ensures Valid() && pool.Valid() && Apart(pool)
      ensures r == Ok(true) || r == Err(TypeError)
      ensures messages == old(messages) || messages == old(messages[1..])
      ensures forall m :: m in messages ==> m in old(messages) && m.View() == old(m.View())
      ensures pool.free == if step.Delivered? then Pushed(old(pool.free), old(messages[0])) else old(pool.free)
      ensures msg !in messages ==>
        pos == 0 &&
        (old(msg.target) == Null ==> msg.View() == old(msg.View()).(state := WithInUse(old(msg.state)))) &&
        (old(msg.target) != Null ==> msg.View() == CLEARED)
      ensures Stepped(messages, quiting, disposed, waiters, step, r,
                      old(messages), old(messages[0].View()), old(messages[0]).View(), old(looperRunning), old(waiters), now)
    {
      r, step := Ok(true), NothingDue;
      if !looperRunning {
        ghost var c := messages;
        var s := DispatchMessage(now, pool);
        if s.Err? {
          r := Err(s.error);
        } else {
          step := s.value;
        }
        if pos > 0 && messages == c[1..] {
          assert messages[pos - 1] == msg;
        }
        if messages == c {
          assert c[0] in messages;
        }
      }
    }

    /** `hasMessages(h, val, token)`: whether a message for `h` matches the
        selector and the object. */
    method HasMessages(h: Ref, sel: Selector, token: Ref) returns (r: bool)
      ensures r == (h != Null && exists i :: 0 <= i < |messages| && Matches(messages[i].View(), h, sel, token))
    {
      if h == Null {
        return false;
      }
      var i := 0;
      while i < |messages|
        invariant i <= |messages|
        invariant forall j :: 0 <= j < i ==> !Matches(messages[j].View(), h, sel, token)
      {
        if Matches(messages[i].View(), h, sel, token) {
          return true;
        }
        i := i + 1;
      }
      r := false;
    }

    /** Unlinks `split.removed` from a chain that `split` partitions, then
        recycles the removed messages in chain order. */
    method Unlink(split: Split, pool: Pool)
      requires Valid() && pool.Valid() && Apart(pool) && Partitions(split, messages)
      modifies this`messages, messages, pool
      ensures Valid() && pool.Valid() && Apart(pool)
      ensures messages == split.kept && pool.free == PushedAll(old(pool.free), split.removed)
      ensures forall m :: m in split.removed ==> m.View() == CLEARED
      ensures forall m :: m in messages ==> m in old(messages) && m.View() == old(m.View())
    {
      PartsOfDistinct(split, messages);
      DistinctAt(split.removed);
      ghost var c := messages;
      messages := split.kept;
      assert forall i :: 0 <= i < |split.removed| ==> split.removed[i] in c;
      RecycleAll(split.removed, pool);
      PushedAllFrom(old(pool.free), split.removed);
    }

    /** `removeMessages(h, val, token, doRemove)`. The numeric path removes
        the leading run of full matches and then every later message of `h`
        and `token` but the new head, whatever its `what`; without
        `doRemove` it only reports whether it would remove anything. The
        callback path ignores `doRemove`, compares the object of the message
        before each candidate, and answers whether the chain is left
        non-empty. */
    method RemoveMessages(h: Ref, sel: Selector, token: Ref, doRemove: bool, pool: Pool) returns (r: bool)
      requires Valid() && pool.Valid() && Apart(pool)
      modifies this`messages, messages, pool
      ensures Valid() && pool.Valid() && Apart(pool)
      ensures forall m :: m in messages ==> m in old(messages) && m.View() == old(m.View())
      ensures h == Null || sel.NoSelector? ==>
        !r && messages == old(messages) && pool.free == old(pool.free)
      ensures h != Null && sel.What? && !doRemove ==>
        messages == old(messages) && pool.free == old(pool.free) &&
        r == (old(RemoveWhatSplit(messages, h, sel.what, token)).removed != [])
      ensures h != Null && sel.What? && doRemove ==>
        var split := old(RemoveWhatSplit(messages, h, sel.what, token));
        messages == split.kept && r == (split.removed != []) &&
        pool.free == PushedAll(old(pool.free), split.removed) &&
        forall m :: m in split.removed ==> m.View() == CLEARED
      ensures h != Null && sel.Callback? ==>
        var split := old(RemoveCallbackSplit(messages, h, sel.id, token));
        messages == split.kept && r == (split.kept != []) &&
        pool.free == PushedAll(old(pool.free), split.removed) &&
        forall m :: m in split.removed ==> m.View() == CLEARED
    {
      if h == Null || sel.NoSelector? {
        return false;
      }
      if sel.What? && !doRemove {
        r := WouldRemoveWhat(messages, h, sel.what, token);
        return;
      }
      var split;
      if sel.What? {
        split := WhatSplitScan(messages, h, sel.what, token);
        r := split.removed != [];
      } else {
        split := CallbackSplitScan(messages, h, sel.id, token);
        r := split.kept != [];
      }
      Unlink(split, pool);
    }

    /** `removeCallbacksAndMessages(h, token)`: only when the head belongs
        to `h` and `token`, the run of such messages right after it. */
    method RemoveCallbacksAndMessages(h: Ref, token: Ref, pool: Pool)
      requires Valid() && pool.Valid() && Apart(pool)
      modifies this`messages, messages, pool
      ensures Valid() && pool.Valid() && Apart(pool)
      ensures forall m :: m in messages ==> m in old(messages) && m.View() == old(m.View())
      ensures h == Null ==> messages == old(messages) && pool.free == old(pool.free)
      ensures h != Null ==>
        var split := old(RemoveOwnedSplit(messages, h, token));
        messages == split.kept && pool.free == PushedAll(old(pool.free), split.removed) &&
        forall m :: m in split.removed ==> m.View() == CLEARED
    {
      if h == Null {
        return;
      }
      var split := OwnedSplitScan(messages, h, token);
      Unlink(split, pool);
    }

    /** `removeFuturMessages()` at time `now`: when the head is due, every
        message after the leading due ones is recycled; when it is not,
        nothing happens, because the call it makes then, `removeMessages()`
        without a handler, does nothing. */
    method RemoveFuturMessages(now: int, pool: Pool)
      requires Valid() && pool.Valid() && Apart(pool)
      modifies this`messages, messages, pool
      ensures Valid() && pool.Valid() && Apart(pool)
      ensures forall m :: m in messages ==> m in old(messages) && m.View() == old(m.View())
      ensures var k := old(FutureCut(Whens(messages), now));
        messages == old(messages[..k]) && pool.free == PushedAll(old(pool.free), old(messages[k..])) &&
        forall m :: m in old(messages[k..]) ==> m.View() == CLEARED
    {
      var c := messages;
      ghost var free := pool.free;
      if c != [] && c[0].when > now {
        var _ := RemoveMessages(Null, NoSelector, Null, false, pool);
        assert c[..|c|] == c && c[|c|..] == [];
        assert messages == c && pool.free == free;
        return;
      }
      var k := FutureCutScan(c, now);
      assert c == c[..k] + c[k..];
      Unlink(Split(c[..k], c[k..]), pool);
      assert messages == c[..k] && pool.free == PushedAll(free, c[k..]);
    }

    /** The removal step of `quit(safe)`. */
    method DropOnQuit(safe: bool, now: int, pool: Pool)
      requires Valid() && pool.Valid() && Apart(pool)
      modifies this`messages, messages, pool
      ensures Valid() && pool.Valid()
      ensures forall m :: m in messages ==> m in old(messages) && m.View() == old(m.View())
      ensures safe ==>
        var k := old(FutureCut(Whens(messages), now));
        messages == old(messages[..k]) && pool.free == PushedAll(old(pool.free), old(messages[k..]))
      ensures !safe ==> messages == old(messages) && pool.free == old(pool.free)
    {
      if safe {
        RemoveFuturMessages(now, pool);
      } else {
        var _ := RemoveMessages(Null, NoSelector, Null, false, pool);
      }
    }

    /** `quit(safe)` at time `now`. An unsafe quit removes nothing: it calls
        `removeMessages()` without a handler. Either way the queue is
        disposed. */
    method Quit(safe: bool, now: int, pool: Pool) returns (r: Result<()>)
      requires Valid() && pool.Valid() && Apart(pool)
      modifies this`quitting, this`messages, this`disposed, this`waiters, this`idleHandlers, this`looperRunning
      modifies messages, pool
      ensures Valid() && pool.Valid()
      ensures forall m :: m in messages ==> m in old(messages) && m.View() == old(m.View())
      ensures !quitAllowed ==>
        r == Err(QuitNotAllowed) && messages == old(messages) && pool.free == old(pool.free) &&
        quitting == old(quitting) && disposed == old(disposed) && waiters == old(waiters)
      ensures quitAllowed && old(quitting) ==>
        r == Ok(()) && messages == old(messages) && pool.free == old(pool.free) &&
        disposed == old(disposed) && waiters == old(waiters)
      ensures quitAllowed && !old(quitting) ==>
        r == Ok(()) && quitting && disposed && waiters == {} && idleHandlers == [] && !looperRunning
      ensures quitAllowed && !old(quitting) && safe ==>
        var k := old(FutureCut(Whens(messages), now));
        messages == old(messages[..k]) && pool.free == PushedAll(old(pool.free), old(messages[k..]))
      ensures quitAllowed && !old(quitting) && !safe ==>
        messages == old(messages) && pool.free == old(pool.free)
    {
      if !quitAllowed {
        return Err(QuitNotAllowed);
      }
      if quitting {
        return Ok(());
      }
      Shut(safe, now, pool);
      r := Ok(());
    }

    /** The part of `quit(safe)` past its two guards. */
    method Shut(safe: bool, now: int, pool: Pool)
      requires Valid() && pool.Valid() && Apart(pool)
      modifies this`quitting, this`messages, this`disposed, this`waiters, this`idleHandlers, this`looperRunning
      modifies messages, pool
      ensures Valid() && pool.Valid()
      ensures forall m :: m in messages ==> m in old(messages) && m.View() == old(m.View())
      ensures quitting && disposed && waiters == {} && idleHandlers == [] && !looperRunning
      ensures safe ==>
        var k := old(FutureCut(Whens(messages), now));
        messages == old(messages[..k]) && pool.free == PushedAll(old(pool.free), old(messages[k..]))
      ensures !safe ==> messages == old(messages) && pool.free == old(pool.free)
    {
      // The removals do not read the quitting flag, so it is set after
      // them here.
      DropOnQuit(safe, now, pool);
      ghost var kept, free := messages, pool.free;
      quitting := true;
      Dispose();
      assert messages == kept && pool.free == free;
    }

    /** The timer callback that `pullNextLocked` registers for time `when`,
        running at time `now`: when its key is still pending it runs one
        dispatch step unless a running looper will, then clears the key.
        The step cannot register the same key again, since the key is still
        set while it runs: a timer that fires before its message is due
        leaves that message with no timer. */
    method WaiterFired(when: int, now: int, pool: Pool) returns (r: Result<Step>)
      requires Valid() && pool.Valid() && Apart(pool)
      modifies this`messages, this`waiters, messages, pool
      ensures Valid() && pool.Valid() && Apart(pool)
      ensures forall m :: m in messages ==> m in old(messages) && m.View() == old(m.View())
      ensures disposed ==>
        r == Err(TypeError) && messages == old(messages) && waiters == old(waiters) && pool.free == old(pool.free)
      ensures !disposed ==> when !in waiters
      ensures !disposed && (when !in old(waiters) || looperRunning) ==>
        r == Ok(NothingDue) && messages == old(messages) && waiters == old(waiters) - {when} &&
        pool.free == old(pool.free)
      ensures !disposed && when in old(waiters) && !looperRunning && (quiting || old(IsIdle(now))) ==>
        r == Ok(NothingDue) && messages == old(messages) && pool.free == old(pool.free) &&
        waiters == (if quiting || messages == [] then old(waiters) else old(waiters) + {messages[0].when}) - {when}
      ensures !disposed && when in old(waiters) && !looperRunning && !quiting && !old(IsIdle(now)) ==>
        var head := old(messages[0]);
        messages == old(messages[1..]) && waiters == old(waiters) - {when} &&
        (old(head.target) == Null ==>
           r == Ok(BarrierPopped) && pool.free == old(pool.free) &&
           head.View() == old(head.View()).(state := WithInUse(old(head.state)))) &&
        (old(head.target) != Null ==>
           r == Ok(Delivered(old(head.View()).(state := WithInUse(old(head.state))))) &&
           head.View() == CLEARED && pool.free == Pushed(old(pool.free), head))
    {
      if disposed {
        return Err(TypeError);
      }
      if when !in waiters {
        return Ok(NothingDue);
      }
      r := Ok(NothingDue);
      if !looperRunning {
        r := DispatchMessage(now, pool);
      }
      waiters := waiters - {when};
    }
  }
}
