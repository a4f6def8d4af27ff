/** The count-down timer: a handler that re-sends one message kind to
    itself until a stop time, calling `onTick` on the way and `onFinish` at
    the end. The clock readings are parameters; the two callbacks are
    reported as `Callback` values in the order the timer calls them. */
module Timer {
  import opened Base
  import opened Messages
  import opened QueueSpec
  import opened Queue
  import opened Handlers

  /** The only `what` the timer sends. */
  const MSG := 1

  /** A call the timer makes into user code. */
  datatype Callback = OnTick(millisUntilFinished: int) | OnFinish

  /** A multiple of a positive `n` by a non-zero `k` is at least `n` away
      from zero. */
  lemma {:induction false} MulBounds(n: int, k: int)
    requires n > 0
    ensures k >= 1 ==> n * k >= n
    ensures k <= -1 ==> n * k <= -n
    decreases if k < 0 then -k else k
  {
    if k > 1 {
      MulBounds(n, k - 1);
      assert n * k == n * (k - 1) + n;
    } else if k < -1 {
      MulBounds(n, k + 1);
      assert n * k == n * (k + 1) - n;
    }
  }

  /** The remainder is the only one in `[0, n)`. */
  lemma ModUnique(a: int, n: int, q: int, r: int)
    requires n > 0 && 0 <= r < n && a == n * q + r
    ensures a % n == r
  {
    var q', r' := a / n, a % n;
    assert a == n * q' + r';
    MulBounds(n, q - q');
    assert n * (q - q') == n * q - n * q';
  }

  /** The reference result of the `while (delay < 0)` loop: the first of
      `delay`, `delay + interval`, `delay + 2 * interval`, … that is not
      negative, or `None` when the loop never ends. */
  function Normalized(delay: int, interval: int): (d: Option<int>)
    ensures d.None? <==> delay < 0 && interval <= 0
    ensures d.Some? ==> d.value >= 0
    ensures delay >= 0 ==> d == Some(delay)
    ensures delay < 0 && d.Some? ==> d.value < interval && (d.value - delay) % interval == 0
  {
    if delay >= 0 then Some(delay)
    else if interval <= 0 then None
    else
      var r := delay % interval;
      assert r - delay == interval * -(delay / interval) + 0;
      ModUnique(r - delay, interval, -(delay / interval), 0);
      Some(r)
  }

  /** The loop of `handleMessage` that moves a late tick forward by whole
      intervals until it is not in the past. It does not end when the
      delay is negative and the interval is not positive; the model then
      answers `None` instead of looping. */
  method NormalizeDelay(delay: int, interval: int) returns (d: Option<int>)
    ensures d == Normalized(delay, interval)
  {
    if delay < 0 && interval <= 0 {
      return None;
    }
    var x := delay;
    ghost var k := 0;
    while x < 0
      invariant x < 0 ==> interval > 0
      invariant x == delay + interval * k && k >= 0
      invariant delay < 0 ==> x < interval
      invariant delay >= 0 ==> x == delay
      decreases -x
    {
      x, k := x + interval, k + 1;
    }
    if delay < 0 {
      ModUnique(delay, interval, -k, x);
    }
    return Some(x);
  }

  /** What `handleMessage` does with the time left. */
  datatype Tick =
    | Finish                        // time is up: `onFinish`, nothing sent
    | Last(delay: int)              // less than an interval left: one message, due at the stop time
    | Next(left: int, delay: int)   // `onTick(left)`, then one message after `delay`
    | Hang(left: int)               // `onTick(left)`, then the loop never ends

  /** The decision of `handleMessage`, with `left` the milliseconds to the
      stop time when the message is handled and `elapsed` the time between
      that reading and the start of the tick. */
  function Decide(left: int, interval: int, elapsed: int): (k: Tick)
    ensures k.Finish? <==> left <= 0
    ensures k.Last? <==> 0 < left < interval
    ensures k.Last? ==> k.delay == left
    ensures k.Next? || k.Hang? ==> k.left == left && left > 0 && left >= interval
    ensures k.Next? ==> Normalized(elapsed + interval, interval) == Some(k.delay)
    ensures k.Hang? <==> left > 0 && left >= interval && Normalized(elapsed + interval, interval).None?
  {
    if left <= 0 then Finish
    else if left < interval then Last(left)
    else match Normalized(elapsed + interval, interval)
      case None => Hang(left)
      case Some(d) => Next(left, d)
  }

  /** The callbacks a decision makes. */
  function Calls(k: Tick): (c: seq<Callback>)
    ensures k.Last? <==> c == []
    ensures k.Finish? <==> c == [OnFinish]
    ensures k.Next? || k.Hang? ==> c == [OnTick(k.left)]
  {
    match k
    case Finish => [OnFinish]
    case Last(_) => []
    case Next(left, _) => [OnTick(left)]
    case Hang(left) => [OnTick(left)]
  }

  /** With a positive interval and a clock that does not run backwards the
      timer never hangs. The next message is due an interval after the tick
      started, pushed back by the time between the first reading `t` and the
      send's own reading `sendTime`, which includes the time `onTick` took. */
  lemma TickWithPositiveInterval(left: int, interval: int, t: int, tickStart: int, sendTime: int)
    requires interval > 0 && tickStart >= t
    ensures !Decide(left, interval, tickStart - t).Hang?
    ensures Decide(left, interval, tickStart - t).Next? ==>
      DueAt(sendTime, Decide(left, interval, tickStart - t).delay) == tickStart + interval + (sendTime - t)
  {
  }

  /** With time left and a negative interval the handler hangs exactly when
      the tick started less than one (negative) interval's length after the
      first reading; otherwise the loop does not run and the delay is
      `elapsed + interval`. */
  lemma NegativeIntervalHangs(left: int, interval: int, elapsed: int)
    requires left > 0 && interval < 0
    ensures Decide(left, interval, elapsed).Hang? <==> elapsed + interval < 0
    ensures elapsed + interval >= 0 ==> Decide(left, interval, elapsed) == Next(left, elapsed + interval)
  {
  }

  /** The last message is due at the stop time, pushed back by the time
      between the reading `t` that measured the time left and the send's
      own reading `sendTime`. */
  lemma LastDueAtStop(stopTime: int, interval: int, t: int, tickStart: int, sendTime: int)
    ensures Decide(stopTime - t, interval, tickStart - t).Last? ==>
      DueAt(sendTime, Decide(stopTime - t, interval, tickStart - t).delay) == stopTime + (sendTime - t)
  {
  }

  /** After `removeMessages(MSG)` no message of the timer's kind for the
      handler `h` is left in the chain. */
  lemma {:induction false} NoneLeft(c: seq<Message>, h: Ref)
    ensures forall m :: m in RemoveWhatSplit(c, h, MSG, Null).kept ==> !(m.target == h && m.what == MSG)
  {
    var kept := RemoveWhatSplit(c, h, MSG, Null).kept;
    forall m | m in kept
      ensures !(m.target == h && m.what == MSG)
    {
      var i :| 0 <= i < |kept| && kept[i] == m;
      if i == 0 {
        assert !Matches(m.View(), h, What(MSG), Null);
      } else {
        assert !Owned(m.View(), h, Null);
      }
    }
  }

  /** `new CountDownTimer({millisInFuture, countDownInterval})` with the
      handler it creates, which always has a queue of its own. */
  class CountDownTimer {
    const millisInFuture: int     // mMillisInFuture
    const interval: int           // mCountdownInterval
    var cancelled: bool           // mCancelled
    var stopTime: int             // mStopTimeInFuture
    const handler: MessageHandler // mHandler

    /** The handler's queue is there and well formed. */
    ghost predicate Valid(pool: Pool)
      reads handler, handler.queue, pool
    {
      handler.queue != null && handler.Ready(pool)
    }

    constructor (millisInFuture: int, interval: int, handler: MessageHandler)
      ensures this.millisInFuture == millisInFuture && this.interval == interval
      ensures this.handler == handler && !cancelled && stopTime == 0
    {
      this.millisInFuture := millisInFuture;
      this.interval := interval;
      this.handler := handler;
      cancelled := false;
      stopTime := 0;
    }

    /** The fields of the message the timer sends itself. */
    function TickFields(): Fields {
      CLEARED.(what := MSG, target := handler.Self())
    }

    /** `start()` at time `now`: nothing to count down calls `onFinish`
        at once; otherwise the stop time is fixed and the first message
        goes out at `sendTime`, the clock as `sendMessage` reads it again.
        `sent` is the outcome of sending it and `step` what the queue did
        next; when that step delivered the message, the handler's
        `handleMessage` would run inside `start()` and its calls are not
        in `calls`. */
    method Start(now: int, sendTime: int, pool: Pool)
      returns (sent: Option<Result<bool>>, calls: seq<Callback>, m: Message?, step: Step)
      requires Valid(pool)
      modifies this`cancelled, this`stopTime, handler.queue, handler.Chain(), pool, pool.free
      ensures !cancelled && Valid(pool)
      ensures millisInFuture <= 0 ==>
        sent == None && calls == [OnFinish] && stopTime == old(stopTime) && step == NothingDue &&
        unchanged(handler.queue, pool) && unchanged(handler.Chain())
      ensures millisInFuture > 0 ==>
        stopTime == now + millisInFuture && m != null && sent.Some? && (!step.Delivered? ==> calls == [])
      ensures millisInFuture > 0 ==>
        m != null && sent.Some? && handler.KeptBut(m) &&
        handler.Sent(m, sendTime, handler.asynchronous, TickFields(), old(handler.queue.Snap(sendTime)), sent.value) &&
        handler.Pooled(pool, old(if pool.free == [] then [] else pool.free[1..]), m, handler.asynchronous,
                       TickFields(), old(handler.queue.Snap(sendTime)), step)
    {
      if millisInFuture <= 0 {
        cancelled := false;
        return None, [OnFinish], null, NothingDue;
      }
      assert DueAt(sendTime, 0) == sendTime;
      var r, n, s := SendTick(0, sendTime, pool);
      Arm(now + millisInFuture, pool);
      return Some(r), [], n, s;
    }

    /** The writes `this.mCancelled = false` and
        `this.mStopTimeInFuture = stop` of `start()`. */
    method Arm(stop: int, ghost pool: Pool)
      modifies this`cancelled, this`stopTime
      ensures !cancelled && stopTime == stop
      ensures Valid(pool) == old(Valid(pool))
    {
      cancelled, stopTime := false, stop;
    }

    /** `h.sendMessageDelayed(h.obtainMessage({what: MSG}), delay)`, which
        is also what `sendMessage` does with a delay of 0. */
    method SendTick(delay: int, now: int, pool: Pool) returns (r: Result<bool>, m: Message, step: Step)
      requires Valid(pool)
      modifies handler.queue, handler.Chain(), pool, pool.free
      ensures Valid(pool) && handler.KeptBut(m)
      ensures handler.Sent(m, DueAt(now, delay), handler.asynchronous, TickFields(),
                           old(handler.queue.Snap(DueAt(now, delay))), r)
      ensures handler.Pooled(pool, old(if pool.free == [] then [] else pool.free[1..]), m, handler.asynchronous,
                             TickFields(), old(handler.queue.Snap(DueAt(now, delay))), step)
    {
      ghost var s0 := handler.queue.Snap(DueAt(now, delay));
      m := handler.ObtainMessage(CLEARED.(what := MSG), pool);
      assert handler.queue.Snap(DueAt(now, delay)) == s0;
      ghost var free1 := pool.free;
      r, step := handler.SendMessageDelayed(m, delay, now, pool);
      assert handler.Sent(m, DueAt(now, delay), handler.asynchronous, TickFields(), s0, r) &&
        handler.Pooled(pool, free1, m, handler.asynchronous, TickFields(), s0, step);
    }

    /** `cancel()`: marks the timer cancelled, removes its pending
        messages to the pool and calls `onFinish`. */
    method Cancel(pool: Pool) returns (calls: seq<Callback>)
      requires Valid(pool)
      modifies this`cancelled, handler.queue, handler.Chain(), pool
      ensures cancelled && Valid(pool)
      ensures calls == [OnFinish]
      ensures var split := old(RemoveWhatSplit(handler.queue.messages, handler.Self(), MSG, Null));
        handler.queue.messages == split.kept && pool.free == PushedAll(old(pool.free), split.removed)
      ensures forall m :: m in handler.queue.messages ==>
        m in old(handler.queue.messages) && m.View() == old(m.View()) && !(m.target == handler.Self() && m.what == MSG)
    {
      NoneLeft(handler.queue.messages, handler.Self());
      var _ := handler.RemoveMessages(MSG, Null, pool);
      cancelled := true;
      calls := [OnFinish];
    }

    /** The handler's `handleMessage` at time `t`, with `tickStart` the
        second reading of the clock taken just before `onTick` and
        `sendTime` the reading `sendMessageDelayed` takes. `handled` is
        `None` when the loop never ends. */
    method HandleMessage(t: int, tickStart: int, sendTime: int, pool: Pool)
      returns (handled: Option<Result<bool>>, calls: seq<Callback>, m: Message?, step: Step)
      requires Valid(pool)
      modifies handler.queue, handler.Chain(), pool, pool.free
      ensures Valid(pool)
      ensures var k := old(Decide(stopTime - t, interval, tickStart - t));
        calls == Calls(k) &&
        (k.Finish? ==> handled == Some(Ok(false))) &&
        (k.Hang? ==> handled == None) &&
        (k.Finish? || k.Hang? ==> step == NothingDue && unchanged(handler.queue, pool) && unchanged(handler.Chain())) &&
        (k.Last? || k.Next? ==>
          m != null && handled.Some? && handler.KeptBut(m) &&
          handler.Sent(m, DueAt(sendTime, k.delay), handler.asynchronous, TickFields(),
                       old(handler.queue.Snap(DueAt(sendTime, k.delay))), handled.value) &&
          handler.Pooled(pool, old(if pool.free == [] then [] else pool.free[1..]), m, handler.asynchronous,
                         TickFields(), old(handler.queue.Snap(DueAt(sendTime, k.delay))), step))
    {
      var k := Choose(t, tickStart);
      calls := Calls(k);
      if k.Finish? {
        return Some(Ok(false)), calls, null, NothingDue;
      } else if k.Hang? {
        return None, calls, null, NothingDue;
      }
      var r, n, s := SendTick(k.delay, sendTime, pool);
      handled, m, step := Some(r), n, s;
    }

    /** The branches of `handleMessage` up to the send: the time left, the
        comparison with the interval and the loop. */
    method Choose(t: int, tickStart: int) returns (k: Tick)
      ensures k == Decide(stopTime - t, interval, tickStart - t)
    {
      var left := stopTime - t;
      if left <= 0 {
        return Finish;
      }
      if left < interval {
        return Last(left);
      }
      var d := NormalizeDelay(tickStart + interval - t, interval);
      if d.None? {
        return Hang(left);
      }
      return Next(left, d.value);
    }
  }
}
