# hjs-message: a verified model of the message scheduler

This project models the core of `hjs-message`. It is a single-threaded message scheduler in the style of a Looper and Handler:

- **Messages and their pool.** Messages are mutable records with a flag word. They are recycled through a module-level free list of at most 50 entries.
- **The message queue.** A chain of messages is kept in `when` order. The queue inserts into it, pops due messages, registers timers for future ones, and removes messages by handler, `what`, runnable and token. It also quits.
- **Message handlers.** A handler routes a delivered message, stamps itself as the target and sets the asynchronous flag before handing a message to its queue. It offers the `send*`/`post*` family, `obtainMessage`, and the `has*`/`remove*` queries. Beside it sit the `BlockingRunnable` that `runWithScissors` posts and the `Messenger` that forwards messages to its binder.
- **The broadcaster.** It keeps a circular doubly-linked ring of registrations in ascending `senderWhat` order. Each registration has parallel `targets`/`targetWhats` arrays.
- **The count-down timer.** It re-sends one message kind to its own handler until a stop time.

## How the model is built

Every part that changes state in place is a Dafny `class`. Each such class is proved against specification functions on values:

- **Messages.** `Message` and `Pool` are classes. `Pool.free` is the free list read along `next`, and `View()` gives the fields of a message as a `Fields` value.
- **The queue.** `MessageQueue.messages` is the chain read along `next`. The removal scans are loops, each proved equal to a function on the chain in `QueueSpec` (`RemoveWhatSplit`, `RemoveCallbackSplit`, `RemoveOwnedSplit`, `FutureCut`, `InsertPos`).
- **Handler outcomes.** What a send does is stated once by `Queue.Outcome`, the enqueue result, and `Queue.Stepped`, the one dispatch step that follows. `MessageHandler.EnqueueMessage` states both for the retargeted message. The `send*`/`post*` methods above it state the enqueue result through `MessageHandler.Sent`, which is the `Outcome` half. Every send, post and removal above the queue also states that the handler stays ready (`MessageHandler.Ready`: its queue and the pool are well formed and share no message), that every other queued message keeps its fields (`MessageHandler.KeptBut`), and the free list it leaves (`MessageHandler.Pooled`, from `Queue.Recycled`).
- **The broadcaster.** `Broadcaster` keeps real `next`/`prev` pointers. A ghost `ring` lists the registrations along `next` from the anchor, and `Table()` gives their values. `Subscribe`, `Unsubscribe` and `Publish` are proved equal to `BroadcastSpec.Subscribed`, `Unsubscribed` and `Published`. Those functions' ordering and shape properties are proved as lemmas.

The environment is passed in as parameters:

- the clock (`now`, `t`, `tickStart`, `sendTime`: each reading of `Date.now()` is its own parameter);
- whether the looper is running (`looperRunning`). The source never sets `mLooper`, so in every queue it builds this is false and each send runs a dispatch step at once; the model keeps the flag so that both branches of lib/queue.js:75-79 are stated;
- what user code answers.

The table of pending `setTimeout` waiters is a set of keys (`waiters`). JavaScript references the model does not look inside are `Ref` values (`Null` or `Obj(id)`). Thrown exceptions are `Err` results.

## Model

| member | source | states |
|---|---|---|
| Messages.WithInUse | lib/message.js:94-96 | `state \| FLAG_IN_USE` sets the in-use bit and leaves the asynchronous bit and every other bit as they were |
| Messages.InUseIdempotent | lib/message.js:94-96 | marking a message in use twice is the same as marking it once |
| Messages.MarkedBits | lib/message.js:90-96 | after `markInUse`, `isInUse` holds and `isAsynchronous` is unchanged |
| Messages.WithAsynchronous | lib/message.js:163-169 | `setAsynchronous(b)` sets bit 2 exactly when `b` holds and leaves bit 1 and all other bits alone |
| Messages.FlaggedBits | lib/message.js:86-92 | after `setAsynchronous(b)`, `isAsynchronous()` is `b` and `isInUse()` is unchanged |
| Messages.CopiedState | lib/message.js:45 | the state `copyFrom` writes is never in use and keeps the asynchronous bit and all other bits |
| Messages.CopyOf | lib/message.js:42-54 | a copy has `when` 0, no target and no callback, is not in use, and shares `what`, `arg1`, `arg2`, `obj`, the same `data` map and `replyTo` with the source |
| Messages.Message.constructor | lib/message.js:13-27 | a new message has every default field and a new empty `data` map |
| Messages.Message.Update | lib/message.js:218-240 | after `update(f)` every field of the message is the one `f` gives |
| Messages.Message.ClearForRecycle | lib/message.js:29-40 | every field is zeroed or nulled |
| Messages.Message.CopyFrom | lib/message.js:42-54 | a non-message argument changes nothing; a message argument leaves exactly `CopyOf` its fields |
| Messages.Message.MarkInUse | lib/message.js:94-96 | the message becomes in use, its asynchronous flag and all other fields unchanged |
| Messages.Message.SetAsynchronous | lib/message.js:163-169 | `isAsynchronous()` becomes `b`, in use and all other fields unchanged |
| Messages.Message.Recycle | lib/message.js:136-143 | the message is cleared and pushed on the free list when it holds fewer than 50, the free list unchanged otherwise; the pool stays within 50 and holds each message at most once (a message already on it is not recycled again) |
| Messages.Pool.constructor | lib/message.js:8-9 | the free list starts empty |
| Messages.Obtain | lib/message.js:98-109 | with a non-empty free list the old head is returned and the list loses exactly that head; otherwise a fresh default message |
| Messages.ObtainCopy | lib/message.js:110-124 | the result is taken as `obtain()` takes it and gets the template's `what`, `arg1`, `arg2`, `obj`, `replyTo`, `target`, `callback` and a fresh copy of non-null `data` |
| Messages.ObtainWith | lib/message.js:125-128 | an options object: the result is taken from the pool or new and then has exactly the given fields |
| Messages.RecycleThenObtain | lib/message.js:98-109 | recycling into a pool with room and obtaining again gives back the same message with no trace of its former fields, the pool as before |
| QueueSpec.FirstAfter | lib/queue.js:84-87 | the index of the first time later than `w`; every time before it is at most `w` |
| QueueSpec.InsertPos | lib/queue.js:71-89 | a message due at 0 goes to the head; any other goes after every message due no later and before the first due later |
| QueueSpec.InsertAt | lib/queue.js:73-74 | the chain with the message inserted at the position, the rest in order on both sides |
| QueueSpec.InsertKeepsSorted | lib/queue.js:71-89 | inserting a message with a non-zero time at its position keeps a sorted chain sorted |
| QueueSpec.InsertIsStable | lib/queue.js:84-87 | messages with equal non-zero times stay first in, first out: an equal time already queued stays ahead of the new one |
| QueueSpec.Whens | lib/queue.js:84 | the due times of the chain, position by position |
| QueueSpec.PartsOfDistinct | lib/queue.js:267-327 | the kept and removed parts of a removal from a chain without duplicates are themselves without duplicates, disjoint and drawn from the chain |
| QueueSpec.InsertKeepsDistinct | lib/queue.js:71-89 | linking a message that is not yet in the chain keeps the chain free of duplicates |
| QueueSpec.RunLength | lib/queue.js:274-281 | the length of the leading run of full matches: every message in it matches, the next one does not |
| QueueSpec.OwnedRunLength | lib/queue.js:220-229 | the same for messages of the handler and token, whatever their `what` |
| QueueSpec.StripOwnedParts | lib/queue.js:282-299 | the second numeric loop keeps exactly the messages not owned by the handler and token and removes exactly the owned ones, in order |
| QueueSpec.StripOwnedRemovesAny | lib/queue.js:282-299 | that loop removes something iff some message is owned |
| QueueSpec.StripCallbackTailParts | lib/queue.js:310-325 | the second callback loop removes only messages for the handler and runnable, each judged by the object of the message kept before it |
| QueueSpec.RemoveWhatSplit | lib/queue.js:274-301 | numeric `removeMessages` partitions the chain; only messages of the handler and token go, the new head is not a full match, and no later kept message belongs to the handler and token, whatever its `what` |
| QueueSpec.RemoveCallbackSplit | lib/queue.js:302-326 | the callback path partitions the chain, removes only the handler's messages for that runnable, leaves a non-matching head, and empties the chain iff all of it is one leading run |
| QueueSpec.RemoveOwnedSplit | lib/queue.js:213-230 | `removeCallbacksAndMessages` partitions the chain and never removes the head; a head the handler and token do not own means nothing is removed |
| QueueSpec.FutureCut | lib/queue.js:239-265 | the chain is cut after the last due message when the head is due; a future or empty chain is not cut |
| QueueSpec.PushedAll | lib/message.js:136-143 | recycling a run of messages never lets the free list pass 50 and never shrinks it |
| QueueSpec.PushedAllFrom | lib/message.js:136-143 | recycling adds only the recycled messages to the free list |
| Queue.RecycleAll | lib/queue.js:296-299 | each removed message is cleared and the free list is as `PushedAll` gives it |
| Queue.RemoveFirst | lib/queue.js:232-237 | `indexOf` and `splice` remove one occurrence of the element when present and nothing otherwise |
| Queue.LeadingRun | lib/queue.js:274-281 | the head loop of numeric `removeMessages` stops after exactly `RunLength` messages |
| Queue.LeadingOwnedRun | lib/queue.js:220-229 | the loop of `removeCallbacksAndMessages` stops after exactly `OwnedRunLength` messages |
| Queue.AnyOwned | lib/queue.js:282-299 | the early `return true` scan answers whether some message is owned by the handler and token |
| Queue.ScanOwned | lib/queue.js:282-299 | the second numeric loop computes `StripOwned` |
| Queue.ScanCallbackTail | lib/queue.js:310-325 | the second callback loop computes `StripCallbackTail` |
| Queue.WouldRemoveWhat | lib/queue.js:274-301 | with `doRemove` false the answer is whether the removal would take anything |
| Queue.WhatSplitScan | lib/queue.js:274-301 | the two numeric loops compute `RemoveWhatSplit` |
| Queue.CallbackSplitScan | lib/queue.js:302-326 | the two callback loops compute `RemoveCallbackSplit` |
| Queue.OwnedSplitScan | lib/queue.js:213-230 | the loop of `removeCallbacksAndMessages` computes `RemoveOwnedSplit` |
| Queue.FutureCutScan | lib/queue.js:246-263 | the `for (;;)` scan of `removeFuturMessages` finds the cut `FutureCut` names |
| Queue.AcceptedOutcome | lib/queue.js:59-98 | an accepted insertion followed by its dispatch step meets what `enqueueMessage` promises |
| Queue.MessageQueue.constructor | lib/queue.js:18-25 | a new queue is empty, not quitting, not disposed, with no waiters and no idle handlers |
| Queue.MessageQueue.AddIdleHandler | lib/queue.js:27-32 | a null handler throws; on a disposed queue the push throws; otherwise the handler is appended |
| Queue.MessageQueue.RemoveIdleHandler | lib/queue.js:232-237 | the first occurrence is removed; a disposed queue throws |
| Queue.MessageQueue.IdleIffNothingDue | lib/queue.js:123-125 | on a chain in time order the queue is idle iff no message in it is due yet |
| Queue.MessageQueue.Dispose | lib/queue.js:46-50 | waiters, idle handlers and looper are dropped |
| Queue.MessageQueue.PullNextLocked | lib/queue.js:168-195 | the head is popped exactly when the queue is not idle (`IsIdle`), that is iff it is due; otherwise the chain is unchanged and the head's time joins the waiters (at most one per time), or reading the dropped table throws |
| Queue.MessageQueue.NextMessage | lib/queue.js:127-166 | nothing once a barrier was enqueued; otherwise the due head, marked in use, or null with a waiter registered |
| Queue.MessageQueue.DispatchMessage | lib/queue.js:34-44 | one step: nothing when nothing is due; a due barrier is popped and kept; a due message is popped and reported as `Delivered` with its fields, then recycled |
| Queue.MessageQueue.FindInsertPos | lib/queue.js:71-89 | the scan finds `InsertPos` of the chain's times |
| Queue.MessageQueue.Insert | lib/queue.js:52-98 | a message already timed and a target-less message on a queue that may not quit throw and change nothing; a quitting queue recycles the message and answers false; otherwise the message is marked in use and linked at `InsertPos` |
| Queue.MessageQueue.Link | lib/queue.js:69-89 | the message is marked in use, gets its time, and is linked at its position; no other message changes |
| Queue.MessageQueue.Snap | lib/queue.js:59-76 | the state an enqueue reads: the chain and the position it would take |
| Queue.MessageQueue.EnqueueMessage | lib/queue.js:52-98 | the full `enqueueMessage`: the error and quitting cases, the insertion at its position, and exactly one dispatch step when no looper runs (`Stepped`); the queue and the pool stay well formed and share no message, the other messages keep their fields, and the free list gains only the turned-away message or the delivered head (`Recycled`) |
| Queue.MessageQueue.EnqueueAccepted | lib/queue.js:69-97 | the accepted path: the insertion, then one dispatch step unless a looper runs (`Stepped`); queue and pool stay well formed and apart, the other messages keep their fields, and the free list gains only a delivered head |
| Queue.MessageQueue.Settle | lib/queue.js:75-78 | the dispatch step after an insertion: a due head is popped and, unless a barrier, delivered and recycled; a future head gets a waiter; queue and pool stay well formed and apart and the messages left keep their fields |
| Queue.MessageQueue.HasMessages | lib/queue.js:100-121 | false for a null handler; otherwise true iff some message in the chain matches handler, `what` or runnable, and token |
| Queue.MessageQueue.Unlink | lib/queue.js:290-299 | the chain becomes the kept part; the removed messages are cleared and recycled |
| Queue.MessageQueue.RemoveMessages | lib/queue.js:267-327 | nothing without a handler; numeric path as `RemoveWhatSplit`, or only the answer without `doRemove`; callback path as `RemoveCallbackSplit`, answering whether the chain is non-empty; kept messages untouched |
| Queue.MessageQueue.RemoveCallbacksAndMessages | lib/queue.js:213-230 | nothing without a handler; otherwise the chain becomes `RemoveOwnedSplit` and the removed messages are recycled |
| Queue.MessageQueue.RemoveFuturMessages | lib/queue.js:239-265 | when the head is due the chain keeps its due prefix and the future tail is recycled; otherwise nothing is removed |
| Queue.MessageQueue.DropOnQuit | lib/queue.js:205-209 | a safe quit removes as `removeFuturMessages`; an unsafe one removes nothing |
| Queue.MessageQueue.Quit | lib/queue.js:197-211 | throws when quitting is not allowed; does nothing once quitting; otherwise drops the future tail on a safe quit, nothing on an unsafe one, and disposes the queue |
| Queue.MessageQueue.Shut | lib/queue.js:201-210 | the queue is quitting and disposed after the removal step |
| Queue.MessageQueue.WaiterFired | lib/queue.js:178-189 | a pending timer runs one dispatch step unless a looper runs, then clears its key; a disposed queue throws; queue and pool stay well formed and apart, the messages left keep their fields, and the free list gains only a delivered head |
| BroadcastSpec.FirstAtLeastStops | lib/broadcast.js:87-92 | the scan from any position stops inside the ring, at the first key at least the searched one or after a full lap |
| BroadcastSpec.Lookup | lib/broadcast.js:87-92 | the scan from the anchor passes only smaller keys and stops at the first key at least the searched one, or at the anchor after a full lap |
| BroadcastSpec.LookupIs | lib/broadcast.js:87-92 | a position where the scan may stop is the one `Lookup` names |
| BroadcastSpec.LookupHit | lib/broadcast.js:57 | on an ascending ring the scan hits iff the key is registered |
| BroadcastSpec.SpliceIn | lib/broadcast.js:110-111 | `splice(n, 0, x)` inserts at `n`, or appends when `n` is past the end |
| BroadcastSpec.SpliceOut | lib/broadcast.js:134-135 | `splice(n, 1)` removes the element at `n`, nothing when `n` is past the end |
| BroadcastSpec.Inserted | lib/broadcast.js:98-101 | the ring with a registration spliced in at a position, the rest in order |
| BroadcastSpec.Added | lib/broadcast.js:110-111 | both arrays grow by one and the key is unchanged |
| BroadcastSpec.InsertIndex | lib/broadcast.js:93-106 | where a new key's registration lands along `next` from the anchor |
| BroadcastSpec.InsertIndexBetween | lib/broadcast.js:93-106 | every key before the new registration is smaller and every key after it larger |
| BroadcastSpec.LookupAt | lib/broadcast.js:87-93 | on an ascending ring the scan stops exactly at the key's registration |
| BroadcastSpec.SubscribeExisting | lib/broadcast.js:107-111 | subscribing to a registered key appends the handler and its `what` at the end of both arrays and changes nothing else |
| BroadcastSpec.SubscribeNewKey | lib/broadcast.js:94-111 | a new key in a non-empty ring is inserted in order with arrays of length 2 whose last slot is empty |
| BroadcastSpec.SubscribeMiss | lib/broadcast.js:93-111 | a missed key gets a new registration at its insertion point and the pair goes into its first slot |
| BroadcastSpec.SubscribeFirst | lib/broadcast.js:75-82 | the first subscription of an empty broadcaster creates exactly one registration with one pair |
| BroadcastSpec.InsertBetween | lib/broadcast.js:98-106 | a registration put between smaller and larger keys keeps the ring ascending and parallel and adds just its key |
| BroadcastSpec.SubscribeKeepsOrder | lib/broadcast.js:73-113 | after any subscribe the keys along `next` are strictly ascending, one registration per key, the arrays parallel, and the key set grows by the new key |
| BroadcastSpec.SubscribeMovesAnchor | lib/broadcast.js:102-105 | the anchor changes iff the new key is smaller than the anchor's, and then the anchor is the new key |
| BroadcastSpec.FirstPair | lib/broadcast.js:131-138 | the first slot holding the pair, or the length when none does |
| BroadcastSpec.UnsubscribeKeepsRing | lib/broadcast.js:115-140 | unsubscribing deletes no registration, changes no key, keeps the ring ascending and parallel, and changes nothing when no slot holds the pair |
| BroadcastSpec.RemovedShiftsWhats | lib/broadcast.js:128-136 | removing the target at `i` drops the last `what`: slots before `i` are unchanged and every later target moves down one slot and takes the `what` of the slot it moves into |
| BroadcastSpec.UnsubscribeShiftsWhats | lib/broadcast.js:134-135 | removing the first of two pairs leaves the second target with the first target's `what` |
| BroadcastSpec.PublishUnregistered | lib/broadcast.js:44-57 | publish to a key without a registration sends nothing |
| BroadcastSpec.DeliverAll | lib/broadcast.js:63-69 | with no empty slot the loop sends one copy per slot in index order, each with its slot's `what` |
| BroadcastSpec.PublishRegistered | lib/broadcast.js:57-70 | a registered key whose targets are all set sends each target its copy in index order and ends normally |
| BroadcastSpec.PublishAfterNewKey | lib/broadcast.js:94-97 | publishing to a key one handler subscribed to as a new key delivers to it, then throws on the empty slot |
| Broadcast.Registration.constructor | lib/broadcast.js:6-14 | key 0, empty arrays, no links |
| Broadcast.Views | lib/broadcast.js:24-42 | the values of the registrations along the ring, position by position |
| Broadcast.SpliceNext | lib/broadcast.js:98-100 | the `next` pointers still follow the ring with the new registration in it |
| Broadcast.SplicePrev | lib/broadcast.js:99-101 | the `prev` pointers still follow it backwards |
| Broadcast.Broadcaster.constructor | lib/broadcast.js:20-22 | a new broadcaster has no registrations |
| Broadcast.Broadcaster.Find | lib/broadcast.js:84-92 | the `do … while` scan stops at `Lookup`, and it hits iff the key is registered |
| Broadcast.Broadcaster.Subscribe | lib/broadcast.js:73-113 | the ring stays a valid, linked ring and its values become `Subscribed` of the old ones |
| Broadcast.Broadcaster.Start | lib/broadcast.js:75-82 | one registration linked to itself, with one pair |
| Broadcast.Broadcaster.AddTarget | lib/broadcast.js:110-111 | only that registration changes, by `Added` |
| Broadcast.Broadcaster.Link | lib/broadcast.js:94-106 | a fresh registration with one empty slot per array is spliced into the ring at its position |
| Broadcast.Broadcaster.Splice | lib/broadcast.js:98-105 | the ring is relinked with the new registration, the anchor moving only for a smaller key |
| Broadcast.Broadcaster.Unsubscribe | lib/broadcast.js:115-140 | the ring stays valid and its values become `Unsubscribed` of the old ones |
| Broadcast.Broadcaster.RemoveTarget | lib/broadcast.js:134-135 | only that registration changes, by removing the target at `i` and the last `what` |
| Broadcast.Broadcaster.Publish | lib/broadcast.js:44-71 | the copies sent and the outcome are `Published` of the ring |
| Handlers.RouteOf | lib/handler.js:267-276 | no message is dropped; a runnable comes first, then the handler's callback object, then the handler's own `handleMessage`, each iff the ones before do not apply |
| Handlers.HandleCallback | lib/handler.js:321-326 | for a message that `RouteOf` hands to its runnable the answer is the runnable's; for any other route, or no message, it is false |
| Handlers.DispatchOfRunnable | lib/handler.js:267-276 | without a message the answer is false; a message with a runnable gets the runnable's answer, whatever the handler has |
| Handlers.DefaultHandlerAccepts | lib/handler.js:328-330 | a handler without callback object and with the default `handleMessage` answers true for every message without a runnable |
| Handlers.DueAt | lib/handler.js:495-500 | a negative delay counts as none; otherwise the message is due `delay` after now |
| Handlers.CallbackSelector | lib/queue.js:105 | a null runnable selects nothing; any other selects the callback scan |
| Handlers.MessageHandler.constructor | lib/handler.js:234-254 | queue, callback object, asynchronous flag and schedule time as given |
| Handlers.MessageHandler.Retargeted | lib/handler.js:278-282 | the message becomes this handler's, its asynchronous bit is the flag, its in-use bit and time unchanged |
| Handlers.MessageHandler.LinkedHead | lib/queue.js:72-74 | the head after linking a retargeted message: the message itself, in use and due at its time, when it goes first; the old head otherwise |
| Handlers.MessageHandler.EnqueueMessage | lib/handler.js:278-282 | the queue takes the message retargeted, asynchronous iff not at the front and the handler is; when the queue accepts it, the dispatch step that follows is the one `Stepped` names for the chain with the message linked; queue and pool stay well formed and apart, the other messages keep their fields, and the free list is the one `Freed` gives |
| Handlers.MessageHandler.SendMessageAtTime | lib/handler.js:486-493 | false without a queue, the message and the free list untouched; otherwise the queue takes it at the given time; the handler stays ready, the other queued messages keep their fields, and the free list is the one `Pooled` gives |
| Handlers.MessageHandler.SendMessageAtFrontOfQueue | lib/handler.js:477-484 | false without a queue; otherwise taken at time 0 and never asynchronous; the handler stays ready, the other queued messages keep their fields, and the free list is the one `Pooled` gives |
| Handlers.MessageHandler.SendMessageDelayed | lib/handler.js:495-500 | taken at `DueAt(now, delay)`; the handler stays ready, the other queued messages keep their fields, and the free list is the one `Pooled` gives |
| Handlers.MessageHandler.SendMessage | lib/handler.js:473-475 | taken at `now`; the handler stays ready, the other queued messages keep their fields, and the free list is the one `Pooled` gives |
| Handlers.MessageHandler.GetPostMessage | lib/handler.js:303-315 | a message carrying exactly the runnable and the token, the free list's head or new, not in the chain; the free list loses exactly that head and the queued messages are untouched |
| Handlers.MessageHandler.GetEmptyMessage | lib/handler.js:454-471 | a message carrying exactly the `what`, the free list's head or new; the free list loses exactly that head and the queued messages are untouched |
| Handlers.MessageHandler.Post | lib/handler.js:358-360 | a message with the runnable and token is taken at `now`; the handler stays ready, the other queued messages keep their fields, and the free list is the one `Pooled` gives after the message's own slot is taken |
| Handlers.MessageHandler.PostAtFrontOfQueue | lib/handler.js:362-364 | taken at time 0 and not asynchronous; the handler stays ready, the other queued messages keep their fields, and the free list is the one `Pooled` gives after the message's own slot is taken |
| Handlers.MessageHandler.PostAtTime | lib/handler.js:366-368 | taken at the given time; the handler stays ready, the other queued messages keep their fields, and the free list is the one `Pooled` gives after the message's own slot is taken |
| Handlers.MessageHandler.PostDelayed | lib/handler.js:370-372 | taken at `DueAt(now, delay)`; the handler stays ready, the other queued messages keep their fields, and the free list is the one `Pooled` gives after the message's own slot is taken |
| Handlers.MessageHandler.SendEmptyMessage | lib/handler.js:454-456 | a message with only the `what` is taken at `now`; the handler stays ready, the other queued messages keep their fields, and the free list is the one `Pooled` gives after the message's own slot is taken |
| Handlers.MessageHandler.SendEmptyMessageAtFrontOfQueue | lib/handler.js:458-461 | taken at time 0 and not asynchronous; the handler stays ready, the other queued messages keep their fields, and the free list is the one `Pooled` gives after the message's own slot is taken |
| Handlers.MessageHandler.SendEmptyMessageAtTime | lib/handler.js:463-466 | taken at the given time; the handler stays ready, the other queued messages keep their fields, and the free list is the one `Pooled` gives after the message's own slot is taken |
| Handlers.MessageHandler.SendEmptyMessageDelayed | lib/handler.js:468-471 | taken at `DueAt(now, delay)`; the handler stays ready, the other queued messages keep their fields, and the free list is the one `Pooled` gives after the message's own slot is taken |
| Handlers.MessageHandler.ObtainMessage | lib/handler.js:340-356 | the options as given, with this handler as the target when they name none; the free list's head or new, the list losing exactly that head, the queued messages untouched |
| Handlers.MessageHandler.HasMessages | lib/handler.js:336-338 | throws without a queue; otherwise whether a message of this handler has the `what` and token |
| Handlers.MessageHandler.HasCallbacks | lib/handler.js:332-334 | throws without a queue; otherwise whether a message of this handler carries that non-null runnable |
| Handlers.MessageHandler.RemoveCallbacks | lib/handler.js:422-424 | throws without a queue; otherwise the chain becomes `RemoveCallbackSplit` and the removed messages are recycled; a null runnable removes nothing |
| Handlers.MessageHandler.RemoveCallbacksAndMessages | lib/handler.js:426-428 | throws without a queue; otherwise the chain becomes `RemoveOwnedSplit` and exactly the removed messages are recycled; the handler stays ready and the messages left keep their fields |
| Handlers.MessageHandler.RemoveMessages | lib/handler.js:430-432 | throws without a queue; otherwise the chain becomes `RemoveWhatSplit` and exactly the removed messages are recycled; the handler stays ready and the messages left keep their fields |
| Handlers.MessageHandler.Notify | lib/handler.js:51-55 | the runnable's posts are removed and recycled first, then the message, stamped TIMEOUT after a timeout, is taken by the queue as it stands after the removal; the handler stays ready, the other messages keep their fields, and the free list is `Pooled` after the removed posts |
| Handlers.MessageHandler.RemovePosts | lib/handler.js:51 | the chain becomes `RemoveCallbackSplit` for the runnable with no token |
| Handlers.MessageHandler.SendStamped | lib/handler.js:52-55 | `arg1` becomes TIMEOUT only after a timeout, then the message is sent at `now`; the handler stays ready, the other queued messages keep their fields, and the free list is the one `Pooled` gives |
| Handlers.MessageHandler.ObtainReply | lib/handler.js:185-187 | a pooled message that is `CopyOf` the original with the binder as `replyTo`; the free list loses exactly its head and the queued messages are untouched |
| Handlers.MessageHandler.RunWithScissors | lib/handler.js:434-452 | a null callback and a negative timeout throw; only a NaN timeout runs inline, answering whether it did not throw; any other timeout, Infinity included, posts a new `BlockingRunnable`, still waiting unless the step delivered it; the handler stays ready, the other messages keep their fields, and the free list is `Pooled` after the post's own slot is taken |
| Handlers.MessageHandler.Publish | lib/handler.js:418-420 | as written: always throws, since the broadcaster has no `getInstance` |
| Handlers.MessageHandler.Subscribe | lib/handler.js:517-519 | as written: always throws, for the same reason |
| Handlers.MessageHandler.Unsubscribe | lib/handler.js:531-533 | as written: always throws, for the same reason |
| Handlers.MessageHandler.PublishVia | lib/handler.js:418-420 | as intended: the broadcaster's deliveries for the message's `what` |
| Handlers.MessageHandler.SubscribeVia | lib/handler.js:517-519 | as intended: the broadcaster's table becomes `Subscribed` with this handler |
| Handlers.MessageHandler.UnsubscribeVia | lib/handler.js:531-533 | as intended: the table becomes `Unsubscribed` |
| Handlers.Notified | lib/handler.js:52-54 | only `arg1` changes, to TIMEOUT, and only after a timeout |
| Handlers.Failure | lib/handler.js:109-114 | the catch block's message is an ERROR carrying the thrown value, stamped TIMEOUT |
| Handlers.BlockingRunnable.constructor | lib/handler.js:36-39 | the state `reset` leaves: mode -1, no token, not done, not timed out, timeout Infinity, schedule time NaN, no handler |
| Handlers.BlockingRunnable.RunTask | lib/handler.js:119-123 | the task runs, with the token, iff the runnable is not both done and timed out |
| Handlers.BlockingRunnable.PostAndWait | lib/handler.js:75-80 | the handler and limits are remembered and the runnable is posted with the token; it stays waiting unless the step delivered it; the handler stays ready, the other messages keep their fields, and the free list is `Pooled` (`Posted`) |
| Handlers.BlockingRunnable.NotifyAll | lib/handler.js:49-56 | the runnable is done; its posts are removed, then the message, stamped TIMEOUT iff timed out, is sent; without a handler it throws; the handler stays ready, the other messages keep their fields, and the free list is `Pooled` after the removed posts (`Reported`) |
| Handlers.BlockingRunnable.Deliver | lib/handler.js:51-55 | the handler part of `notifyAll`: TypeError without a handler or queue; otherwise the removal of the runnable's posts and then the stamped send, with the pool and the other messages as for `NotifyAll` (`Reported`) |
| Handlers.BlockingRunnable.Run | lib/handler.js:101-117 | mode 0 iff the timeout is finite and positive, else 1; the wait asked for follows the mode; a wait that succeeds changes no message and no pool; a failed wait times out and reports an ERROR message through `notifyAll`, the handler staying ready and the free list `Pooled` (`Failed`) |
| Handlers.BlockingRunnable.Choose | lib/handler.js:104-108 | mode 0 iff the timeout is finite and positive; mode 0 waits until `now + timeout`; mode 1 polls at the runnable's schedule time, or the handler's when that is NaN |
| Handlers.BlockingRunnable.Fail | lib/handler.js:109-116 | the runnable is timed out and an ERROR message goes through `notifyAll`; the answer is false unless that throws; the runnable's posts leave the chain, the handler stays ready, and the free list is `Pooled` after them (`Failed`) |
| Handlers.Messenger.constructor | lib/handler.js:153-161 | the binder as given |
| Handlers.Messenger.SendMessage | lib/handler.js:176-180 | nothing without a binder; otherwise the binder sends the message at `now`; the binder stays ready, the other queued messages keep their fields, and the free list is the one `Pooled` gives |
| Handlers.Messenger.SendMessageTo | lib/handler.js:182-194 | nothing without a binder; a message for the binder goes through it; any other target gets a copy with the binder as `replyTo`; a missing target throws, after the copy's slot is taken from the free list; the target stays ready, its other messages keep their fields, and the free list is `Pooled` |
| Handlers.Messenger.SendCopy | lib/handler.js:185-188 | a pooled copy with the reply address goes to the target; a missing target throws, after the copy's slot is taken; the target stays ready, its other messages keep their fields, and the free list is `Pooled` |
| Handlers.Messenger.Publish | lib/handler.js:167-174 | nothing without a binder; otherwise `replyTo` is set only when missing, then the binder's publish throws |
| Handlers.Messenger.PublishVia | lib/handler.js:167-174 | as intended: `replyTo` set only when missing, then the broadcaster's deliveries for the `what` |
| Timer.Normalized | lib/timer.js:37-39 | the first of `delay`, `delay + interval`, … that is not negative: at least 0, below the interval when it moved, differing by a multiple of the interval; none iff a negative delay meets a non-positive interval |
| Timer.NormalizeDelay | lib/timer.js:37-39 | the `while (delay < 0)` loop computes `Normalized`, answering none where it would not end |
| Timer.Decide | lib/timer.js:26-41 | finish iff no time is left; one last message iff less than an interval is left, delayed by exactly the time left; otherwise a tick whose delay is `Normalized`, or a hang |
| Timer.Calls | lib/timer.js:30-35 | no callback iff the last message is sent; only `onFinish` iff time is up; exactly `onTick(left)` for a tick and for a hang |
| Timer.TickWithPositiveInterval | lib/timer.js:34-41 | with a positive interval and a clock that does not run back the timer never hangs; the next tick is due an interval after the tick started, pushed back by the time between the first clock reading and the send's own reading (which includes the time `onTick` ran) |
| Timer.NegativeIntervalHangs | lib/timer.js:37-39 | with time left and a negative interval the handler hangs iff `elapsed + interval < 0`; otherwise the delay is `elapsed + interval` |
| Timer.LastDueAtStop | lib/timer.js:28-33 | the last message is due at the stop time, pushed back by the time between the reading that measured the time left and the send's reading |
| Timer.NoneLeft | lib/timer.js:52 | after `removeMessages(MSG)` no message of the timer's kind for its handler is left |
| Timer.CountDownTimer.constructor | lib/timer.js:8-16 | the duration and interval as given, not cancelled |
| Timer.CountDownTimer.Start | lib/timer.js:66-75 | not cancelled and the handler ready; with nothing to count down `onFinish` is called and nothing changes; otherwise the stop time is `now + millisInFuture` and one MSG is sent at `sendTime`, the clock as `sendMessage` reads it, the other messages keeping their fields and the free list `Pooled`; no callback is made unless that send delivered the message at once |
| Timer.CountDownTimer.SendTick | lib/timer.js:33-40 | one MSG for this handler is sent at `DueAt(now, delay)`; the handler stays ready, the other messages keep their fields, and the free list is `Pooled` |
| Timer.CountDownTimer.Cancel | lib/timer.js:50-54 | cancelled, `onFinish` called, the handler ready; the chain is `RemoveWhatSplit` for MSG, the removed messages recycled, and no message of the timer's kind left for its handler |
| Timer.CountDownTimer.HandleMessage | lib/timer.js:25-44 | the callbacks are those of `Decide`; time up answers false and, like a hang, changes nothing; the last message and a tick send one MSG due at `DueAt(sendTime, delay)`, with `sendTime` the reading `sendMessageDelayed` takes, the other messages keeping their fields and the free list `Pooled` |
| Timer.CountDownTimer.Choose | lib/timer.js:28-39 | the decision is `Decide` of the time left and the time the tick started |

## Left out

- Host timers: the `setTimeout`/`clearTimeout` calls of `pullNextLocked` and the `wait`/`onWait` timers of `BlockingRunnable` (lib/handler.js:58-73, 125-146). `Date.now()` is a parameter. The waiter table is a set of keys. `WaiterFired` stands for the callback a timer runs. What `wait` did is the `waited` parameter of `BlockingRunnable.Run`.
- The `promise*` family and `createPromiseCallback` (lib/handler.js:216-230, 374-416) are left out because they rely on JavaScript promises. `promise` also calls an undefined `handleResult` (lib/handler.js:378).
- `serialize`/`deserialize`, `toString`, `getMessageName`, `dumpRegistrations` and all `console` logging are left out as diagnostics and JSON calls. The `getX`/`setX` accessors and `sendToTarget` are left out as well. So are `setMessenger`, `setScheduleTime`, `setSchedulerTime`, the default `Messenger` a handler builds, `Messenger.getBinder`/`setBinder`, and `Messenger.subscribe`/`unsubscribe`. Those two only forward to the handler's `subscribe`/`unsubscribe`, which throw as written (see Findings).
- Messages.ObtainCopy: the dead `m.flags = 0` write of `obtain` (lib/message.js:105) has no field in the model.
- The bodies of user code are parameters:
  - what a runnable, a callback object or a handler's `handleMessage` answers;
  - whether an inline `runWithScissors` callback throws;
  - the `onTick`/`onFinish` calls of the timer, reported as `Timer.Callback` values.
  A handler that re-enters the queue while a message is being delivered is not modelled.
- The idle-handler loop of `nextMessage` (lib/queue.js:143-163) cannot be entered, so only its early return is modelled.
- JavaScript numbers are unbounded integers. The timeout and interval of `BlockingRunnable` are `Num`, which has NaN and the infinities. The scheduler's times are integers, so NaN times are not modelled.
- Queue.MessageQueue.Shut: the removals run before `mQuitting` is set. They do not read that flag, so the final state is the same as in the source.
- Queue.MessageQueue.DispatchMessage: the delivery `msg.target.dispatchMessage(msg)` (lib/queue.js:40) is reported as the step `Delivered` with the message's fields. The code it would run is not followed: the routing is `Handlers.RouteOf` on its own, and the runnable, callback object or `handleMessage` it reaches is user code. No looper exists (`mLooper` is never set), so a send whose message is due at once delivers it inside the send call. The model stops there, which shows in three contracts:
  - Handlers.MessageHandler.RunWithScissors and Handlers.BlockingRunnable.PostAndWait promise a runnable that is still waiting only when the step did not deliver it. A delivered runnable would run `run(handler, token)` inside the post.
  - Timer.CountDownTimer.Start promises no callback only when the first message was not delivered at once. A delivered one would run `handleMessage`, which may call `onTick` or `onFinish` and send the next message.
  - The state these three leave is the state before any such nested call.
- Handlers.BlockingRunnable.PostAndWait, Handlers.BlockingRunnable.NotifyAll and Handlers.BlockingRunnable.Run write their own fields after the handler call, not before it as the source does. Those are `mHandler`, `mTimeout` and `mScheduleTime` in `postAndWait`, `mDone` in `notifyAll`, and `mToken` and `mMode` in `run`. In the source a synchronous delivery inside the call could reach the runnable, whose `run` reads `mTimeout`, `mScheduleTime` and `mHandler` (lib/handler.js:104-116). The model runs no delivered code (see Queue.MessageQueue.DispatchMessage), so nothing inside the call reads these fields, and the state after the call is the source's.
- Timer.CountDownTimer.Start writes `mCancelled` and `mStopTimeInFuture` after the first send, not before it. A first message delivered at once would run `handleMessage`, which reads the stop time, inside the send. The model does not run it (see above), so only the order differs.
- Timer.CountDownTimer.Cancel sets `mCancelled` after `removeMessages` rather than before. The removal does not read it.
- Handlers.BlockingRunnable.Fail and Handlers.BlockingRunnable.Run state less about the catch block's `notifyAll` than NotifyAll itself does. Their contract (`Failed`) says the runnable's posts and the chain left form a partition of the old chain. It does not say that the split is exactly `RemoveCallbackSplit`, where the ERROR message goes in the remaining chain, or that the other queued messages keep their fields. Handlers.BlockingRunnable.NotifyAll and Handlers.BlockingRunnable.Deliver state all three.
- Timer.CountDownTimer.HandleMessage: a tick whose delay loop never ends (a non-positive interval) answers `None` instead of hanging. The model assumes the handler's queue exists, as `MessageHandler.create` always builds one.
- Queue.MessageQueue.EnqueueMessage, Queue.MessageQueue.Insert and Handlers.MessageHandler.EnqueueMessage require that a message already in the chain has a non-zero `when`. A queued message with `when` 0 (one sent to the front) that is sent again would be linked to itself (lib/queue.js:72-74), and the chain would become a cycle. That case is not modelled. A queued message with a non-zero `when` is modelled: it is rejected with AlreadyInUse.
- Handlers.MessageHandler.SendMessageAtTime, Handlers.MessageHandler.SendMessageAtFrontOfQueue, Handlers.MessageHandler.SendMessageDelayed, Handlers.MessageHandler.SendMessage, Handlers.MessageHandler.SendStamped, Handlers.Messenger.SendMessage and Handlers.Messenger.SendMessageTo carry the same exclusion of a queued message with `when` 0.
- Messages.Message.Recycle requires that the message is not already on the free list. Recycling it twice makes the source's list a cycle (lib/message.js:139), after which `obtain` hands out the same object again and again. That state is not modelled. The same requirement is on every send: a message on the free list cannot be sent.
- Handlers.MessageHandler.Notify, Handlers.MessageHandler.RemovePosts, Handlers.BlockingRunnable.NotifyAll and Handlers.BlockingRunnable.Deliver exclude a message that is queued and is itself one of the runnable's posts. The removal step would recycle it before it is sent, and sending a recycled message is the case above.
- Handlers.MessageHandler.Sent states only the enqueue result (`Queue.Outcome`). Handlers.MessageHandler.Pooled adds the free list the dispatch step leaves. The rest of that step, which message is popped and which waiter is added (`Queue.Stepped`), is stated by Handlers.MessageHandler.EnqueueMessage and by the queue's own methods. The `send*`/`post*` methods, the runnable, the messenger and the timer do not state it.
- Broadcast.Broadcaster.Publish and BroadcastSpec.Published record each delivery as its target and its `what` only. Several things of lib/broadcast.js:63-68 are not modelled:
  - the other fields of each copy, which `copyFrom(msg)` gives (see `Messages.CopyOf`);
  - taking each copy from the pool, including the copy taken just before the throw on an empty slot;
  - the send into each target's queue.
- Timer.CountDownTimer.constructor: the stop time starts at 0. The source leaves it undefined before `start`.
- Broadcast.Registration.constructor: `targets` and `targetWhats` start as empty arrays. The source leaves them `null`, and every caller assigns both before use.
- Broadcast.Views: the ring's values stand for what `dumpRegistrations` walks. The printing is not modelled.

## Findings

| source | as written | input that shows it | evidently intended | confidence | as-written member | corrected member |
|---|---|---|---|---|---|---|
| lib/handler.js:284-286 | `getBroadcaster()` calls `MessageBroadcaster.getInstance()`, which `MessageBroadcaster` does not define, so `publish`, `subscribe` and `unsubscribe` of a handler (lib/handler.js:418-420, 517-519, 531-533) always throw a TypeError | any call, e.g. `handler.subscribe(1, 2)` | a shared broadcaster whose `publish`/`subscribe`/`unsubscribe` run with this handler | not executed | Handlers.MessageHandler.Publish | Handlers.MessageHandler.PublishVia |
| lib/handler.js:517-519 | `subscribe` throws through `getBroadcaster()` | `handler.subscribe(1, 2)` | the handler is added to the broadcaster's ring under the key | not executed | Handlers.MessageHandler.Subscribe | Handlers.MessageHandler.SubscribeVia |
| lib/handler.js:531-533 | `unsubscribe` throws through `getBroadcaster()` | `handler.unsubscribe(1, 2)` | the handler's pair is removed from the broadcaster's ring | not executed | Handlers.MessageHandler.Unsubscribe | Handlers.MessageHandler.UnsubscribeVia |
