/** The value-level rules of the message queue: where an enqueued message
    goes in the chain, which messages a scan matches, and which of them each
    removal operation takes out. The chain is a sequence of messages in
    `next` order, its head first. */
module QueueSpec {
  import opened Base
  import opened Messages

  // ---------------------------------------------------------------------
  // Ordering by `when`.

  predicate Sorted(ws: seq<int>) {
    forall i, j :: 0 <= i < j < |ws| ==> ws[i] <= ws[j]
  }

  /** The index of the first time in `ws` that is later than `w`, or `|ws|`
      when there is none: the node an enqueue scan stops at. */
  function FirstAfter(ws: seq<int>, w: int): (k: nat)
    ensures k <= |ws|
    ensures forall i :: 0 <= i < k ==> ws[i] <= w
    ensures k < |ws| ==> ws[k] > w
  {
    if ws == [] || ws[0] > w then 0 else 1 + FirstAfter(ws[1..], w)
  }

  /** The position `enqueueMessage` gives a message due at `w` in a chain
      whose due times are `ws`: the head when the chain is empty, when `w`
      is 0 or when `w` is earlier than the head; otherwise straight after
      the last of the leading nodes due no later than `w`. */
  function InsertPos(ws: seq<int>, w: int): (k: nat)
    ensures k <= |ws|
    ensures w == 0 ==> k == 0
    ensures w != 0 ==> (forall i :: 0 <= i < k ==> ws[i] <= w) && (k < |ws| ==> w < ws[k])
  {
    if ws == [] || w == 0 || w < ws[0] then 0 else FirstAfter(ws, w)
  }

  function InsertAt<T>(s: seq<T>, k: nat, x: T): (r: seq<T>)
    requires k <= |s|
    ensures |r| == |s| + 1 && r[k] == x
    ensures r[..k] == s[..k] && r[k + 1..] == s[k..]
  {
    s[..k] + [x] + s[k..]
  }

  /** Inserting keeps a sorted chain sorted, provided that a message sent
      for time 0 is not put in front of a negative time. */
  lemma InsertKeepsSorted(ws: seq<int>, w: int)
    requires Sorted(ws)
    requires w == 0 && ws != [] ==> ws[0] >= 0
    ensures Sorted(InsertAt(ws, InsertPos(ws, w), w))
  {
    var k := InsertPos(ws, w);
    var r := InsertAt(ws, k, w);
    forall i, j | 0 <= i < j < |r| ensures r[i] <= r[j] {
      if j == k {
        assert w != 0 ==> ws[i] <= w;
      } else if i == k {
        assert ws[j - 1] >= (if k < |ws| then ws[k] else w);
      } else {
        var i' := if i < k then i else i - 1;
        var j' := if j < k then j else j - 1;
        assert r[i] == ws[i'] && r[j] == ws[j'];
      }
    }
  }

  /** In a sorted chain, equal non-zero times stay first in, first out:
      the new message goes behind exactly the messages due no later than
      it, and in front of exactly those due later. */
  lemma InsertIsStable(ws: seq<int>, w: int, i: nat)
    requires Sorted(ws) && w != 0 && i < |ws|
    ensures var k := InsertPos(ws, w);
      var r := InsertAt(ws, k, w);
      (ws[i] <= w <==> i < k) && (i < k ==> r[i] == ws[i]) && (i >= k ==> r[i + 1] == ws[i])
  {
    var k := InsertPos(ws, w);
    if i >= k && k < |ws| {
      assert ws[k] <= ws[i];
    }
  }

  // ---------------------------------------------------------------------
  // Matching.

  /** A message is never compared by data: `what`, `callback`, `target` and
      `obj` are. */
  datatype Selector =
    | What(what: int)        // a number: matched against `what`
    | Callback(id: nat)      // a runnable: matched against `callback` by identity
    | NoSelector             // null or undefined, which no message matches

  /** `!object || m.obj === object`, with the `object` argument called `token` here. */
  predicate ObjMatches(obj: Ref, token: Ref) {
    token == Null || obj == token
  }

  /** The test of the second loop of the numeric `removeMessages` and of
      `removeCallbacksAndMessages`: the handler and the object, but neither
      `what` nor `callback`. */
  predicate Owned(f: Fields, h: Ref, token: Ref) {
    f.target == h && ObjMatches(f.obj, token)
  }

  /** The full test of `hasMessages` and of the head loops of `removeMessages`. */
  predicate Matches(f: Fields, h: Ref, sel: Selector, token: Ref) {
    Owned(f, h, token) &&
    match sel
    case What(w) => f.what == w
    case Callback(id) => f.callback == Obj(id)
    case NoSelector => false
  }

  // ---------------------------------------------------------------------
  // The chain.

  /** The due times of a chain, head first. */
  function Whens(c: seq<Message>): (ws: seq<int>)
    reads c
    ensures |ws| == |c| && forall i :: 0 <= i < |c| ==> ws[i] == c[i].when
  {
    if c == [] then [] else [c[0].when] + Whens(c[1..])
  }

  /** Recycling and relinking never change a message's `when` behind the
      chain's back: a chain whose messages keep their fields keeps its
      times. */
  twostate lemma {:induction false} WhensUnchanged(c: seq<Message>)
    requires forall i :: 0 <= i < |c| ==> c[i].View() == old(c[i].View())
    ensures Whens(c) == old(Whens(c))
  {
    if c != [] {
      WhensUnchanged(c[1..]);
    }
  }

  /** A chain whose messages keep their times keeps its times, whatever
      else changes in them. */
  twostate lemma {:induction false} WhensKept(c: seq<Message>)
    requires forall i :: 0 <= i < |c| ==> c[i].when == old(c[i].when)
    ensures Whens(c) == old(Whens(c))
  {
    if c != [] {
      WhensKept(c[1..]);
    }
  }

  /** No message is linked into the chain twice. */
  ghost predicate Distinct(c: seq<Message>) {
    forall m :: m in c ==> multiset(c)[m] == 1
  }

  /** What a removal does to a chain: the messages it keeps and those it
      takes out, each in chain order. */
  datatype Split = Split(kept: seq<Message>, removed: seq<Message>)

  ghost predicate Partitions(r: Split, c: seq<Message>) {
    multiset(r.kept) + multiset(r.removed) == multiset(c)
  }

  /** The two parts of a distinct chain are distinct and disjoint. */
  lemma PartsOfDistinct(r: Split, c: seq<Message>)
    requires Distinct(c) && Partitions(r, c)
    ensures Distinct(r.kept) && Distinct(r.removed)
    ensures forall m :: m in r.kept ==> m !in r.removed
    ensures forall m :: m in r.kept || m in r.removed ==> m in c
  {
    forall m | m in r.kept ensures multiset(r.kept)[m] == 1 && m !in r.removed && m in c {
      assert m in multiset(c);
    }
    forall m | m in r.removed ensures multiset(r.removed)[m] == 1 && m in c {
      assert m in multiset(c);
    }
  }

  /** In a distinct chain no message stands at two places. */
  lemma DistinctAt(c: seq<Message>)
    requires Distinct(c)
    ensures forall i, j :: 0 <= i < j < |c| ==> c[i] != c[j]
  {
    forall i, j | 0 <= i < j < |c|
      ensures c[i] != c[j]
    {
      assert c == c[..j] + c[j..];
      assert multiset(c)[c[j]] == multiset(c[..j])[c[j]] + multiset(c[j..])[c[j]];
      assert c[j..][0] == c[j];
      assert c[..j][i] == c[i];
    }
  }

  /** Inserting a message that is not in a distinct chain keeps it distinct. */
  lemma InsertKeepsDistinct(c: seq<Message>, k: nat, m: Message)
    requires Distinct(c) && m !in c && k <= |c|
    ensures Distinct(InsertAt(c, k, m))
    ensures multiset(InsertAt(c, k, m)) == multiset(c) + multiset{m}
    ensures forall x :: x in InsertAt(c, k, m) ==> x == m || x in c
  {
    assert c == c[..k] + c[k..];
    assert multiset(InsertAt(c, k, m)) == multiset(c) + multiset{m};
  }

  /** The number of leading messages that match. */
  function RunLength(c: seq<Message>, h: Ref, sel: Selector, token: Ref): (n: nat)
    reads c
    ensures n <= |c|
    ensures forall i :: 0 <= i < n ==> Matches(c[i].View(), h, sel, token)
    ensures n < |c| ==> !Matches(c[n].View(), h, sel, token)
  {
    if c != [] && Matches(c[0].View(), h, sel, token) then 1 + RunLength(c[1..], h, sel, token) else 0
  }

  /** The number of leading messages that belong to `h` and `token`. */
  function OwnedRunLength(c: seq<Message>, h: Ref, token: Ref): (n: nat)
    reads c
    ensures n <= |c|
    ensures forall i :: 0 <= i < n ==> Owned(c[i].View(), h, token)
    ensures n < |c| ==> !Owned(c[n].View(), h, token)
  {
    if c != [] && Owned(c[0].View(), h, token) then 1 + OwnedRunLength(c[1..], h, token) else 0
  }

  /** Takes out every message that belongs to `h` and `token`, whatever its
      `what`. */
  function StripOwned(c: seq<Message>, h: Ref, token: Ref): Split
    reads c
  {
    if c == [] then Split([], [])
    else
      var t := StripOwned(c[1..], h, token);
      if Owned(c[0].View(), h, token) then Split(t.kept, [c[0]] + t.removed)
      else Split([c[0]] + t.kept, t.removed)
  }

  /** StripOwned splits the chain into the messages `h` and `token` do not
      own and the ones they own. */
  lemma {:induction false} StripOwnedParts(c: seq<Message>, h: Ref, token: Ref)
    ensures var r := StripOwned(c, h, token);
      Partitions(r, c) &&
      (forall m :: m in r.removed ==> Owned(m.View(), h, token)) &&
      (forall m :: m in r.kept ==> !Owned(m.View(), h, token))
  {
    if c != [] {
      var t := StripOwned(c[1..], h, token);
      StripOwnedParts(c[1..], h, token);
      assert multiset(c) == multiset([c[0]]) + multiset(c[1..]) by {
        assert c == [c[0]] + c[1..];
      }
      if Owned(c[0].View(), h, token) {
        assert multiset([c[0]] + t.removed) == multiset([c[0]]) + multiset(t.removed);
      } else {
        assert multiset([c[0]] + t.kept) == multiset([c[0]]) + multiset(t.kept);
      }
    }
  }

  /** StripOwned takes something out exactly when some message is owned. */
  lemma {:induction false} StripOwnedRemovesAny(c: seq<Message>, h: Ref, token: Ref)
    ensures (StripOwned(c, h, token).removed != []) ==
      (exists i :: 0 <= i < |c| && Owned(c[i].View(), h, token))
  {
    if c != [] {
      StripOwnedRemovesAny(c[1..], h, token);
      if exists i :: 0 <= i < |c[1..]| && Owned(c[1..][i].View(), h, token) {
        var i :| 0 <= i < |c[1..]| && Owned(c[1..][i].View(), h, token);
        assert c[i + 1] == c[1..][i];
      }
      if exists i :: 0 <= i < |c| && Owned(c[i].View(), h, token) {
        var i :| 0 <= i < |c| && Owned(c[i].View(), h, token);
        if i > 0 {
          assert c[1..][i - 1] == c[i];
        }
      }
    }
  }

  /** The second loop of the callback path of `removeMessages`: a message
      for `h` and callback `cb` is taken out when the object of the last
      message kept before it, `prevObj`, matches `token`; its own object is
      not looked at. */
  function StripCallbackTail(prevObj: Ref, c: seq<Message>, h: Ref, cb: nat, token: Ref): Split
    reads c
    decreases |c|
  {
    if c == [] then Split([], [])
    else
      if c[0].target == h && c[0].callback == Obj(cb) && ObjMatches(prevObj, token) then
        var t := StripCallbackTail(prevObj, c[1..], h, cb, token);
        Split(t.kept, [c[0]] + t.removed)
      else
        var t := StripCallbackTail(c[0].obj, c[1..], h, cb, token);
        Split([c[0]] + t.kept, t.removed)
  }

  /** StripCallbackTail takes out only messages for `h` and `cb`, and with
      no token to compare it leaves none of them behind. */
  lemma {:induction false} StripCallbackTailParts(prevObj: Ref, c: seq<Message>, h: Ref, cb: nat, token: Ref)
    ensures var r := StripCallbackTail(prevObj, c, h, cb, token);
      Partitions(r, c) &&
      (forall m :: m in r.removed ==> m.target == h && m.callback == Obj(cb)) &&
      (token == Null ==> forall m :: m in r.kept ==> !Matches(m.View(), h, Callback(cb), token))
    decreases |c|
  {
    if c != [] {
      assert c == [c[0]] + c[1..];
      if c[0].target == h && c[0].callback == Obj(cb) && ObjMatches(prevObj, token) {
        StripCallbackTailParts(prevObj, c[1..], h, cb, token);
      } else {
        StripCallbackTailParts(c[0].obj, c[1..], h, cb, token);
      }
    }
  }

  /** The step of a loop that computes StripOwned(c) from the front: the
      parts found in `c[..i]`, followed by StripOwned of the rest, are the
      whole result. */
  lemma StripOwnedStep(c: seq<Message>, i: nat, h: Ref, token: Ref, kept: seq<Message>, removed: seq<Message>,
                        kept': seq<Message>, removed': seq<Message>)
    requires i < |c|
    requires StripOwned(c, h, token).kept == kept + StripOwned(c[i..], h, token).kept
    requires StripOwned(c, h, token).removed == removed + StripOwned(c[i..], h, token).removed
    requires Owned(c[i].View(), h, token) ==> kept' == kept && removed' == removed + [c[i]]
    requires !Owned(c[i].View(), h, token) ==> kept' == kept + [c[i]] && removed' == removed
    ensures StripOwned(c, h, token).kept == kept' + StripOwned(c[i + 1..], h, token).kept
    ensures StripOwned(c, h, token).removed == removed' + StripOwned(c[i + 1..], h, token).removed
  {
    var d := c[i..];
    assert d[0] == c[i] && d[1..] == c[i + 1..];
    StripOwnedUnfold(d, h, token);
    var rest := StripOwned(c[i + 1..], h, token);
    if Owned(c[i].View(), h, token) {
      assert StripOwned(d, h, token).removed == [c[i]] + rest.removed;
      assert removed + ([c[i]] + rest.removed) == removed + [c[i]] + rest.removed;
    } else {
      assert StripOwned(d, h, token).kept == [c[i]] + rest.kept;
      assert kept + ([c[i]] + rest.kept) == kept + [c[i]] + rest.kept;
    }
  }

  /** One unfolding of StripOwned on a non-empty chain. */
  lemma StripOwnedUnfold(d: seq<Message>, h: Ref, token: Ref)
    requires d != []
    ensures var t := StripOwned(d[1..], h, token);
      StripOwned(d, h, token) ==
        if Owned(d[0].View(), h, token) then Split(t.kept, [d[0]] + t.removed)
        else Split([d[0]] + t.kept, t.removed)
  {
  }

  /** The same for StripCallbackTail, whose loop also carries the object of
      the last message kept. */
  lemma StripCallbackTailStep(prevObj: Ref, prev: Ref, c: seq<Message>, i: nat, h: Ref, cb: nat, token: Ref,
                              kept: seq<Message>, removed: seq<Message>,
                              prev': Ref, kept': seq<Message>, removed': seq<Message>)
    requires i < |c|
    requires StripCallbackTail(prevObj, c, h, cb, token).kept ==
      kept + StripCallbackTail(prev, c[i..], h, cb, token).kept
    requires StripCallbackTail(prevObj, c, h, cb, token).removed ==
      removed + StripCallbackTail(prev, c[i..], h, cb, token).removed
    requires c[i].target == h && c[i].callback == Obj(cb) && ObjMatches(prev, token) ==>
      prev' == prev && kept' == kept && removed' == removed + [c[i]]
    requires !(c[i].target == h && c[i].callback == Obj(cb) && ObjMatches(prev, token)) ==>
      prev' == c[i].obj && kept' == kept + [c[i]] && removed' == removed
    ensures StripCallbackTail(prevObj, c, h, cb, token).kept ==
      kept' + StripCallbackTail(prev', c[i + 1..], h, cb, token).kept
    ensures StripCallbackTail(prevObj, c, h, cb, token).removed ==
      removed' + StripCallbackTail(prev', c[i + 1..], h, cb, token).removed
  {
    var d := c[i..];
    assert d[0] == c[i] && d[1..] == c[i + 1..];
    var rest := StripCallbackTail(prev', c[i + 1..], h, cb, token);
    if c[i].target == h && c[i].callback == Obj(cb) && ObjMatches(prev, token) {
      assert StripCallbackTail(prev, d, h, cb, token) == Split(rest.kept, [c[i]] + rest.removed);
      assert removed + ([c[i]] + rest.removed) == removed + [c[i]] + rest.removed;
    } else {
      assert StripCallbackTail(prev, d, h, cb, token) == Split([c[i]] + rest.kept, rest.removed);
      assert kept + ([c[i]] + rest.kept) == kept + [c[i]] + rest.kept;
    }
  }

  /** Cutting a chain around position `n`. */
  lemma CutAround(c: seq<Message>, n: nat)
    requires n < |c|
    ensures multiset(c) == multiset(c[..n]) + multiset([c[n]]) + multiset(c[n + 1..])
  {
    assert c == c[..n] + [c[n]] + c[n + 1..];
  }

  /** Every message of the leading run matches. */
  lemma RunMatches(c: seq<Message>, h: Ref, sel: Selector, token: Ref)
    ensures var n := RunLength(c, h, sel, token);
      forall m :: m in c[..n] ==> Matches(m.View(), h, sel, token)
  {
    var n := RunLength(c, h, sel, token);
    forall m | m in c[..n] ensures Matches(m.View(), h, sel, token) {
      var i :| 0 <= i < n && c[..n][i] == m;
    }
  }

  /** The numeric path of `removeMessages(h, what, token, true)`: the
      leading run of full matches goes, then every later message owned by
      `h` and `token` except the new head, whatever its `what`. */
  function RemoveWhatSplit(c: seq<Message>, h: Ref, what: int, token: Ref): (r: Split)
    reads c
    ensures Partitions(r, c)
    ensures forall m :: m in r.removed ==> Owned(m.View(), h, token)
    ensures r.kept != [] ==> !Matches(r.kept[0].View(), h, What(what), token)
    ensures forall i :: 1 <= i < |r.kept| ==> !Owned(r.kept[i].View(), h, token)
  {
    var n := RunLength(c, h, What(what), token);
    if n == |c| then
      assert c[..n] == c;
      Split([], c)
    else
      var t := StripOwned(c[n + 1..], h, token);
      StripOwnedParts(c[n + 1..], h, token);
      CutAround(c, n);
      RunMatches(c, h, What(what), token);
      Split([c[n]] + t.kept, c[..n] + t.removed)
  }

  /** RemoveWhatSplit unfolded once: what its two loops compute. */
  lemma RemoveWhatSplitUnfold(c: seq<Message>, h: Ref, what: int, token: Ref, n: nat, t: Split)
    requires n == RunLength(c, h, What(what), token)
    requires n < |c| ==> t == StripOwned(c[n + 1..], h, token)
    ensures RemoveWhatSplit(c, h, what, token) ==
      if n == |c| then Split([], c) else Split([c[n]] + t.kept, c[..n] + t.removed)
  {
  }

  /** The callback path of `removeMessages(h, cb, token)`: the leading run
      of full matches goes, then StripCallbackTail after the new head. */
  function RemoveCallbackSplit(c: seq<Message>, h: Ref, cb: nat, token: Ref): (r: Split)
    reads c
    ensures Partitions(r, c)
    ensures forall m :: m in r.removed ==> m.target == h && m.callback == Obj(cb)
    ensures r.kept != [] ==> !Matches(r.kept[0].View(), h, Callback(cb), token)
    ensures (r.kept == []) == (RunLength(c, h, Callback(cb), token) == |c|)
  {
    var n := RunLength(c, h, Callback(cb), token);
    if n == |c| then
      assert c[..n] == c;
      Split([], c)
    else
      var t := StripCallbackTail(c[n].obj, c[n + 1..], h, cb, token);
      StripCallbackTailParts(c[n].obj, c[n + 1..], h, cb, token);
      CutAround(c, n);
      RunMatches(c, h, Callback(cb), token);
      Split([c[n]] + t.kept, c[..n] + t.removed)
  }

  /** RemoveCallbackSplit unfolded once. */
  lemma RemoveCallbackSplitUnfold(c: seq<Message>, h: Ref, cb: nat, token: Ref, n: nat, t: Split)
    requires n == RunLength(c, h, Callback(cb), token)
    requires n < |c| ==> t == StripCallbackTail(c[n].obj, c[n + 1..], h, cb, token)
    ensures RemoveCallbackSplit(c, h, cb, token) ==
      if n == |c| then Split([], c) else Split([c[n]] + t.kept, c[..n] + t.removed)
  {
  }

  /** `removeCallbacksAndMessages(h, token)`: when the head belongs to `h`
      and `token`, the run of such messages straight after it goes; the
      head itself always stays. */
  function RemoveOwnedSplit(c: seq<Message>, h: Ref, token: Ref): (r: Split)
    reads c
    ensures Partitions(r, c)
    ensures forall m :: m in r.removed ==> Owned(m.View(), h, token)
    ensures c != [] ==> r.kept != [] && r.kept[0] == c[0]
    ensures c != [] && !Owned(c[0].View(), h, token) ==> r == Split(c, [])
  {
    if c != [] && Owned(c[0].View(), h, token) then
      var n := OwnedRunLength(c[1..], h, token);
      assert c == [c[0]] + c[1..1 + n] + c[1 + n..];
      Split([c[0]] + c[1 + n..], c[1..1 + n])
    else
      Split(c, [])
  }

  /** Where a safe quit at `now` cuts the chain: after the last of the
      leading due messages when the head is due, nowhere otherwise. */
  function FutureCut(ws: seq<int>, now: int): (k: nat)
    ensures k <= |ws|
    ensures (ws == [] || ws[0] > now) ==> k == |ws|
    ensures ws != [] && ws[0] <= now ==>
      1 <= k && (forall i :: 0 <= i < k ==> ws[i] <= now) && (k < |ws| ==> ws[k] > now)
  {
    if ws == [] || ws[0] > now then |ws| else FirstAfter(ws, now)
  }

  // ---------------------------------------------------------------------
  // Recycling a run of messages.

  /** The free list after `recycle()` has pushed `m` (dropped when full). */
  function Pushed(free: seq<Message>, m: Message): seq<Message> {
    if |free| < MAX_POOL_SIZE then [m] + free else free
  }

  /** The free list after recycling `ms` in order. */
  function PushedAll(free: seq<Message>, ms: seq<Message>): (r: seq<Message>)
    ensures |free| <= MAX_POOL_SIZE ==> |r| <= MAX_POOL_SIZE
    ensures |r| >= |free|
  {
    if ms == [] then free else Pushed(PushedAll(free, ms[..|ms| - 1]), ms[|ms| - 1])
  }

  /** Recycling adds no message but the recycled ones. */
  lemma {:induction false} PushedAllFrom(free: seq<Message>, ms: seq<Message>)
    ensures forall i :: 0 <= i < |PushedAll(free, ms)| ==> PushedAll(free, ms)[i] in free || PushedAll(free, ms)[i] in ms
  {
    if ms != [] {
      PushedAllFrom(free, ms[..|ms| - 1]);
    }
  }
}
