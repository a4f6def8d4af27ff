/** The broadcaster's registrations as values: the ring read along `next`
    from the anchor is a sequence of entries, and subscribe, unsubscribe
    and publish are functions on that sequence. */
module BroadcastSpec {
  import opened Base

  /** One registration: its key and its parallel `targets`/`targetWhats`
      arrays. `Null` and `None` are the empty slot that `new Array(1)`
      leaves (JavaScript's `undefined`). */
  datatype Entry = Entry(senderWhat: int, targets: seq<Ref>, whats: seq<Option<int>>)

  /** The keys rise strictly along the ring from the anchor, so there is one
      registration per key. */
  predicate Ascending(t: seq<Entry>)
  {
    forall i, j :: 0 <= i < j < |t| ==> t[i].senderWhat < t[j].senderWhat
  }

  /** Every registration's two arrays have the same length. */
  predicate Parallel(t: seq<Entry>)
  {
    forall i :: 0 <= i < |t| ==> |t[i].targets| == |t[i].whats|
  }

  predicate HasKey(t: seq<Entry>, key: int)
  {
    exists i :: 0 <= i < |t| && t[i].senderWhat == key
  }

  // ---------------------------------------------------------------------
  // The lookup scan.

  /** The first index from `i` on whose key is at least `key`, or 0 when
      the scan comes back to the anchor. */
  function FirstAtLeast(t: seq<Entry>, key: int, i: nat): (k: nat)
    requires i <= |t|
    decreases |t| - i
  {
    if i == |t| then 0
    else if t[i].senderWhat >= key then i
    else FirstAtLeast(t, key, i + 1)
  }

  lemma {:induction false} FirstAtLeastStops(t: seq<Entry>, key: int, i: nat)
    requires i <= |t| && t != []
    ensures FirstAtLeast(t, key, i) < |t|
    ensures FirstAtLeast(t, key, i) >= i ==> forall j :: i <= j < FirstAtLeast(t, key, i) ==> t[j].senderWhat < key
    ensures t[FirstAtLeast(t, key, i)].senderWhat >= key ||
            (FirstAtLeast(t, key, i) == 0 && forall j :: i <= j < |t| ==> t[j].senderWhat < key)
    decreases |t| - i
  {
    if i < |t| && t[i].senderWhat < key {
      FirstAtLeastStops(t, key, i + 1);
    }
  }

  /** Where the `do ... while (r !== start)` scan of subscribe, unsubscribe
      and publish stops: at the first registration whose key is at least
      `key`, or back at the anchor after a full lap when there is none. */
  function Lookup(t: seq<Entry>, key: int): (k: nat)
    requires t != []
    ensures k < |t|
    ensures forall j :: 0 <= j < k ==> t[j].senderWhat < key
    ensures t[k].senderWhat >= key || (k == 0 && forall j :: 0 <= j < |t| ==> t[j].senderWhat < key)
  {
    FirstAtLeastStops(t, key, 0);
    FirstAtLeast(t, key, 0)
  }

  lemma {:induction false} FirstAtLeastIs(t: seq<Entry>, key: int, i: nat, k: nat)
    requires i <= k < |t| && t[k].senderWhat >= key
    requires forall j :: i <= j < k ==> t[j].senderWhat < key
    ensures FirstAtLeast(t, key, i) == k
    decreases k - i
  {
    if i < k {
      FirstAtLeastIs(t, key, i + 1, k);
    }
  }

  lemma {:induction false} FirstAtLeastNone(t: seq<Entry>, key: int, i: nat)
    requires i <= |t| && forall j :: i <= j < |t| ==> t[j].senderWhat < key
    ensures FirstAtLeast(t, key, i) == 0
    decreases |t| - i
  {
    if i < |t| {
      FirstAtLeastNone(t, key, i + 1);
    }
  }

  /** An index where a scan may stop is the one Lookup names. */
  lemma LookupIs(t: seq<Entry>, key: int, k: nat)
    requires k < |t|
    requires forall j :: 0 <= j < k ==> t[j].senderWhat < key
    requires t[k].senderWhat >= key || (k == 0 && forall j :: 0 <= j < |t| ==> t[j].senderWhat < key)
    ensures Lookup(t, key) == k
  {
    if t[k].senderWhat >= key {
      FirstAtLeastIs(t, key, 0, k);
    } else {
      FirstAtLeastNone(t, key, 0);
    }
  }

  /** On an ascending ring the scan hits iff the key is registered. */
  lemma LookupHit(t: seq<Entry>, key: int)
    requires t != [] && Ascending(t)
    ensures t[Lookup(t, key)].senderWhat == key <==> HasKey(t, key)
  {
    if HasKey(t, key) {
      var i :| 0 <= i < |t| && t[i].senderWhat == key;
      LookupAt(t, key, i);
    }
  }

  // ---------------------------------------------------------------------
  // Array splicing.

  /** `s.splice(n, 0, x)`: `x` inserted at `n`, or appended when `n` is past
      the end. */
  function SpliceIn<T>(s: seq<T>, n: nat, x: T): (r: seq<T>)
    ensures |r| == |s| + 1
    ensures n <= |s| ==> r[n] == x && r[..n] == s[..n] && r[n + 1..] == s[n..]
    ensures n >= |s| ==> r == s + [x]
  {
    if n <= |s| then s[..n] + [x] + s[n..] else s + [x]
  }

  /** `s.splice(n, 1)`: the element at `n` removed, nothing when `n` is
      past the end. */
  function SpliceOut<T>(s: seq<T>, n: nat): (r: seq<T>)
    ensures n < |s| ==> |r| == |s| - 1 && r[..n] == s[..n] && r[n..] == s[n + 1..]
    ensures n >= |s| ==> r == s
  {
    if n < |s| then s[..n] + s[n + 1..] else s
  }

  /** `s` with `x` inserted at position `p`. */
  function Inserted<T>(s: seq<T>, p: nat, x: T): (u: seq<T>)
    requires p <= |s|
    ensures |u| == |s| + 1 && u[p] == x
    ensures forall i :: 0 <= i < p ==> u[i] == s[i]
    ensures forall i :: p < i <= |s| ==> u[i] == s[i - 1]
  {
    s[..p] + [x] + s[p..]
  }

  // ---------------------------------------------------------------------
  // subscribe

  /** The registration a new key starts from: `new Array(1)` for both
      arrays, one empty slot each. */
  function NewEntry(key: int): Entry
  {
    Entry(key, [Null], [None])
  }

  /** Both arrays of `e` with `(h, tw)` spliced in at `n`. */
  function Added(e: Entry, n: nat, h: Ref, tw: int): (r: Entry)
    ensures r.senderWhat == e.senderWhat
    ensures |r.targets| == |e.targets| + 1 && |r.whats| == |e.whats| + 1
  {
    e.(targets := SpliceIn(e.targets, n, h), whats := SpliceIn(e.whats, n, Some(tw)))
  }

  /** Where a new key's registration lands in the sequence read from the
      anchor: before the registration the scan stopped at, which is the end
      of the sequence when it stopped at the anchor, unless the anchor then
      moves to the new registration because its key is smaller. */
  function InsertIndex(t: seq<Entry>, key: int): (p: nat)
    requires t != []
    ensures p <= |t|
  {
    var k := Lookup(t, key);
    if k > 0 then k else if t[0].senderWhat > key then 0 else |t|
  }

  /** `subscribe(senderWhat, handler, targetWhat)` on the ring `t`. */
  function Subscribed(t: seq<Entry>, key: int, h: Ref, tw: int): seq<Entry>
  {
    if t == [] then [Entry(key, [h], [Some(tw)])]
    else
      var k := Lookup(t, key);
      if t[k].senderWhat == key then t[k := Added(t[k], |t[k].targets|, h, tw)]
      else
        var p := InsertIndex(t, key);
        Inserted(t, p, Added(NewEntry(key), 0, h, tw))
  }

  /** The index a new key takes lies between the smaller and the larger keys. */
  lemma InsertIndexBetween(t: seq<Entry>, key: int)
    requires t != [] && Ascending(t) && !HasKey(t, key)
    ensures forall j :: 0 <= j < InsertIndex(t, key) ==> t[j].senderWhat < key
    ensures forall j :: InsertIndex(t, key) <= j < |t| ==> t[j].senderWhat > key
  {
    var k := Lookup(t, key);
    if k == 0 && t[0].senderWhat > key {
      assert forall j :: 0 <= j < |t| ==> t[0].senderWhat <= t[j].senderWhat;
    }
  }

  /** On an ascending ring the scan stops exactly at the key's registration. */
  lemma LookupAt(t: seq<Entry>, key: int, i: nat)
    requires Ascending(t) && i < |t| && t[i].senderWhat == key
    ensures Lookup(t, key) == i
  {
    LookupIs(t, key, i);
  }

  /** Subscribing to a registered key appends `(h, tw)` at the end of both
      arrays and changes no other registration. */
  lemma SubscribeExisting(t: seq<Entry>, key: int, h: Ref, tw: int, i: nat)
    requires Ascending(t) && Parallel(t) && i < |t| && t[i].senderWhat == key
    ensures Subscribed(t, key, h, tw) == t[i := Entry(key, t[i].targets + [h], t[i].whats + [Some(tw)])]
  {
    LookupAt(t, key, i);
  }

  /** A new key in a non-empty ring is inserted where its order puts it,
      with arrays of length 2 whose last slot is empty. */
  lemma SubscribeNewKey(t: seq<Entry>, key: int, h: Ref, tw: int)
    requires t != [] && Ascending(t) && !HasKey(t, key)
    ensures Subscribed(t, key, h, tw) ==
      Inserted(t, InsertIndex(t, key), Entry(key, [h, Null], [Some(tw), None]))
  {
    LookupHit(t, key);
    assert SpliceIn([Null], 0, h) == [h, Null];
    assert SpliceIn([None], 0, Some(tw)) == [Some(tw), None];
  }

  /** A key the scan does not find gets a new entry at its insertion
      index, and `(h, tw)` goes into that entry's first slot. */
  lemma SubscribeMiss(t: seq<Entry>, key: int, h: Ref, tw: int)
    requires t != [] && t[Lookup(t, key)].senderWhat != key
    ensures var p := InsertIndex(t, key);
      Subscribed(t, key, h, tw) == Inserted(t, p, NewEntry(key))[p := Added(NewEntry(key), 0, h, tw)]
  {
    var p := InsertIndex(t, key);
    var u := Inserted(t, p, NewEntry(key))[p := Added(NewEntry(key), 0, h, tw)];
    var v := Inserted(t, p, Added(NewEntry(key), 0, h, tw));
    assert forall i :: 0 <= i < |u| ==> u[i] == v[i];
  }

  /** The first subscription of an empty broadcaster creates one
      registration holding exactly one pair. */
  lemma SubscribeFirst(key: int, h: Ref, tw: int)
    ensures Subscribed([], key, h, tw) == [Entry(key, [h], [Some(tw)])]
  {
  }

  /** An entry put between the smaller and the larger keys keeps a ring
      ascending and parallel, and adds its key to the registered ones. */
  lemma InsertBetween(t: seq<Entry>, p: nat, e: Entry)
    requires Ascending(t) && Parallel(t) && p <= |t| && |e.targets| == |e.whats|
    requires forall j :: 0 <= j < p ==> t[j].senderWhat < e.senderWhat
    requires forall j :: p <= j < |t| ==> t[j].senderWhat > e.senderWhat
    ensures Ascending(Inserted(t, p, e)) && Parallel(Inserted(t, p, e))
    ensures forall x :: HasKey(Inserted(t, p, e), x) <==> HasKey(t, x) || x == e.senderWhat
  {
    var u := Inserted(t, p, e);
    assert forall i :: 0 <= i < p ==> u[i] == t[i];
    assert forall i :: p < i < |u| ==> u[i] == t[i - 1];
    forall x | HasKey(t, x)
      ensures HasKey(u, x)
    {
      var i :| 0 <= i < |t| && t[i].senderWhat == x;
      if i < p { assert u[i] == t[i]; } else { assert u[i + 1] == t[i]; }
    }
    assert u[p] == e;
  }

  /** Subscribing keeps the keys strictly ascending (one registration per
      key) and the arrays parallel, and registers exactly the keys there
      were plus `key`. */
  lemma SubscribeKeepsOrder(t: seq<Entry>, key: int, h: Ref, tw: int)
    requires Ascending(t) && Parallel(t)
    ensures Ascending(Subscribed(t, key, h, tw)) && Parallel(Subscribed(t, key, h, tw))
    ensures forall x :: HasKey(Subscribed(t, key, h, tw), x) <==> HasKey(t, x) || x == key
  {
    var u := Subscribed(t, key, h, tw);
    if t == [] {
      assert u[0].senderWhat == key;
    } else if HasKey(t, key) {
      var i :| 0 <= i < |t| && t[i].senderWhat == key;
      SubscribeExisting(t, key, h, tw, i);
      assert forall j :: 0 <= j < |t| ==> u[j].senderWhat == t[j].senderWhat;
    } else {
      SubscribeNewKey(t, key, h, tw);
      InsertIndexBetween(t, key);
      InsertBetween(t, InsertIndex(t, key), Entry(key, [h, Null], [Some(tw), None]));
    }
  }

  /** The anchor moves only when a new key smaller than every key is
      subscribed, and then to that key. */
  lemma SubscribeMovesAnchor(t: seq<Entry>, key: int, h: Ref, tw: int)
    requires t != [] && Ascending(t) && Parallel(t)
    ensures Subscribed(t, key, h, tw)[0].senderWhat != t[0].senderWhat <==> key < t[0].senderWhat
    ensures key < t[0].senderWhat ==> Subscribed(t, key, h, tw)[0].senderWhat == key
  {
    if HasKey(t, key) {
      var i :| 0 <= i < |t| && t[i].senderWhat == key;
      SubscribeExisting(t, key, h, tw, i);
    } else {
      SubscribeNewKey(t, key, h, tw);
      InsertIndexBetween(t, key);
    }
  }

  // ---------------------------------------------------------------------
  // unsubscribe

  /** Slot `i` of `e` holds the pair `(h, tw)`. */
  predicate Pairs(e: Entry, i: nat, h: Ref, tw: int)
  {
    i < |e.targets| && e.targets[i] == h && i < |e.whats| && e.whats[i] == Some(tw)
  }

  /** The first slot holding `(h, tw)`, or the length of `targets` when none does. */
  function FirstPair(e: Entry, h: Ref, tw: int, i: nat): (n: nat)
    requires i <= |e.targets|
    ensures i <= n <= |e.targets|
    ensures n < |e.targets| ==> Pairs(e, n, h, tw)
    ensures forall j :: i <= j < n ==> !Pairs(e, j, h, tw)
    decreases |e.targets| - i
  {
    if i == |e.targets| then i
    else if Pairs(e, i, h, tw) then i
    else FirstPair(e, h, tw, i + 1)
  }

  /** A scan from `s` that passes no matching slot before `i` and stops at
      `i` (a match, or the end) finds `i`. */
  lemma {:induction false} FirstPairAt(e: Entry, h: Ref, tw: int, s: nat, i: nat)
    requires s <= i <= |e.targets|
    requires forall j :: s <= j < i ==> !Pairs(e, j, h, tw)
    requires i == |e.targets| || Pairs(e, i, h, tw)
    ensures FirstPair(e, h, tw, s) == i
    decreases i - s
  {
    if s < i {
      FirstPairAt(e, h, tw, s + 1, i);
    }
  }

  /** What unsubscribe does to a registration whose first matching slot is
      `i`: it removes `targets[i]` but the last element of `targetWhats`. */
  function Removed(e: Entry, i: nat): Entry
    requires i < |e.targets|
  {
    e.(targets := SpliceOut(e.targets, i), whats := SpliceOut(e.whats, |e.targets| - 1))
  }

  /** `unsubscribe(senderWhat, handler, targetWhat)` on the ring `t`. */
  function Unsubscribed(t: seq<Entry>, key: int, h: Ref, tw: int): seq<Entry>
  {
    if t == [] then t
    else
      var k := Lookup(t, key);
      if t[k].senderWhat != key then t
      else
        var i := FirstPair(t[k], h, tw, 0);
        if i == |t[k].targets| then t else t[k := Removed(t[k], i)]
  }

  /** Unsubscribing deletes no registration and changes no key, keeps the
      arrays parallel, and changes nothing when no slot holds the pair. */
  lemma UnsubscribeKeepsRing(t: seq<Entry>, key: int, h: Ref, tw: int)
    requires Ascending(t) && Parallel(t)
    ensures |Unsubscribed(t, key, h, tw)| == |t|
    ensures forall i :: 0 <= i < |t| ==> Unsubscribed(t, key, h, tw)[i].senderWhat == t[i].senderWhat
    ensures Ascending(Unsubscribed(t, key, h, tw)) && Parallel(Unsubscribed(t, key, h, tw))
    ensures (forall i, j :: 0 <= i < |t| && 0 <= j < |t[i].targets| && t[i].senderWhat == key ==> !Pairs(t[i], j, h, tw))
            ==> Unsubscribed(t, key, h, tw) == t
  {
    if t != [] {
      var k := Lookup(t, key);
      if t[k].senderWhat == key {
        var i := FirstPair(t[k], h, tw, 0);
        if i < |t[k].targets| {
          var e := Removed(t[k], i);
          assert |e.targets| == |e.whats|;
        }
      }
    }
  }

  /** On parallel arrays, removing slot `i` drops the last `targetWhat`
      instead of the `i`-th: the slots before `i` keep their pairs, and
      every target after `i` moves down one place and is paired with the
      `targetWhat` of the target that stood before it. */
  lemma RemovedShiftsWhats(e: Entry, i: nat)
    requires i < |e.targets| && |e.targets| == |e.whats|
    ensures |Removed(e, i).targets| == |Removed(e, i).whats| == |e.targets| - 1
    ensures Removed(e, i).whats == e.whats[..|e.whats| - 1]
    ensures forall j :: 0 <= j < i ==>
      Removed(e, i).targets[j] == e.targets[j] && Removed(e, i).whats[j] == e.whats[j]
    ensures forall j :: i <= j < |e.targets| - 1 ==>
      Removed(e, i).targets[j] == e.targets[j + 1] && Removed(e, i).whats[j] == e.whats[j]
  {
  }

  /** Unsubscribing removes the matching target but the last `targetWhat`:
      with `[h1, h2]` wanting `[1, 2]`, unsubscribing `(h1, 1)` leaves `h2`
      wanting `1`. */
  lemma UnsubscribeShiftsWhats(key: int)
    ensures Unsubscribed([Entry(key, [Obj(1), Obj(2)], [Some(1), Some(2)])], key, Obj(1), 1)
         == [Entry(key, [Obj(2)], [Some(1)])]
  {
    var e := Entry(key, [Obj(1), Obj(2)], [Some(1), Some(2)]);
    LookupAt([e], key, 0);
    assert Pairs(e, 0, Obj(1), 1);
    assert SpliceOut(e.targets, 0) == [Obj(2)];
    assert SpliceOut(e.whats, 1) == [Some(1)];
  }

  // ---------------------------------------------------------------------
  // publish

  /** One `t.sendMessage(m)` of publish: the target and the `what` the copy
      carries (`None`: the slot was empty). */
  datatype Delivery = Delivery(target: Ref, what: Option<int>)

  /** The deliveries publish makes and whether it ends normally. */
  datatype Plan = Plan(sent: seq<Delivery>, outcome: Result<()>)

  /** `whats[i]`, or the empty slot past the end. */
  function WhatAt(whats: seq<Option<int>>, i: nat): Option<int>
  {
    if i < |whats| then whats[i] else None
  }

  /** The sends of the publish loop from slot `i` on: one per slot in index
      order, until an empty target slot, whose `sendMessage` throws. */
  function DeliverFrom(targets: seq<Ref>, whats: seq<Option<int>>, i: nat): (p: Plan)
    requires i <= |targets|
    decreases |targets| - i
  {
    if i == |targets| then Plan([], Ok(()))
    else if targets[i] == Null then Plan([], Err(TypeError))
    else
      var rest := DeliverFrom(targets, whats, i + 1);
      Plan([Delivery(targets[i], WhatAt(whats, i))] + rest.sent, rest.outcome)
  }

  /** `publish(msg)` for a message whose `what` is `what`. */
  function Published(t: seq<Entry>, what: int): Plan
  {
    if t == [] then Plan([], Ok(()))
    else
      var k := Lookup(t, what);
      if t[k].senderWhat != what then Plan([], Ok(()))
      else DeliverFrom(t[k].targets, t[k].whats, 0)
  }

  /** Without a registration for the key, publish sends nothing. */
  lemma PublishUnregistered(t: seq<Entry>, what: int)
    requires Ascending(t) && !HasKey(t, what)
    ensures Published(t, what) == Plan([], Ok(()))
  {
    if t != [] {
      LookupHit(t, what);
    }
  }

  /** When no target slot from `i` on is empty, the loop sends one copy per
      slot, in index order, each carrying that slot's `what`. */
  lemma {:induction false} DeliverAll(targets: seq<Ref>, whats: seq<Option<int>>, i: nat)
    requires i <= |targets| && forall j :: i <= j < |targets| ==> targets[j] != Null
    ensures DeliverFrom(targets, whats, i).outcome == Ok(())
    ensures |DeliverFrom(targets, whats, i).sent| == |targets| - i
    ensures forall j :: i <= j < |targets| ==>
      DeliverFrom(targets, whats, i).sent[j - i] == Delivery(targets[j], WhatAt(whats, j))
    decreases |targets| - i
  {
    if i < |targets| {
      DeliverAll(targets, whats, i + 1);
    }
  }

  /** A registered key whose targets are all set sends each target its copy
      in index order. */
  lemma PublishRegistered(t: seq<Entry>, what: int, k: nat)
    requires Ascending(t) && k < |t| && t[k].senderWhat == what
    requires forall j :: 0 <= j < |t[k].targets| ==> t[k].targets[j] != Null
    ensures Published(t, what).outcome == Ok(())
    ensures |Published(t, what).sent| == |t[k].targets|
    ensures forall j :: 0 <= j < |t[k].targets| ==>
      Published(t, what).sent[j] == Delivery(t[k].targets[j], WhatAt(t[k].whats, j))
  {
    LookupAt(t, what, k);
    DeliverAll(t[k].targets, t[k].whats, 0);
  }

  /** Publishing to a key that was new when a single handler subscribed to
      it delivers to that handler, then fails on the empty slot. */
  lemma PublishAfterNewKey(t: seq<Entry>, key: int, h: Ref, tw: int)
    requires t != [] && Ascending(t) && Parallel(t) && !HasKey(t, key) && h != Null
    ensures Published(Subscribed(t, key, h, tw), key) == Plan([Delivery(h, Some(tw))], Err(TypeError))
  {
    SubscribeNewKey(t, key, h, tw);
    SubscribeKeepsOrder(t, key, h, tw);
    var u := Subscribed(t, key, h, tw);
    var p := InsertIndex(t, key);
    LookupAt(u, key, p);
    assert DeliverFrom([h, Null], [Some(tw), None], 1) == Plan([], Err(TypeError));
  }
}
