/** The message broadcaster: a circular doubly-linked ring of registrations
    kept in ascending `senderWhat` order from the anchor `mReg`. The ghost
    sequence `ring` is the ring read along `next` from the anchor; every
    operation is proved against the matching function of BroadcastSpec on
    the registrations' values. */
module Broadcast {
  import opened Base
  import opened BroadcastSpec

  /** A registration: one key and the parallel arrays of its targets. */
  class Registration {
    var senderWhat: int
    var targets: seq<Ref>
    var targetWhats: seq<Option<int>>
    var next: Registration?
    var prev: Registration?

    /** The constructor leaves both arrays unset; every caller assigns them
        before they are read, so they start empty here. */
    constructor ()
      ensures senderWhat == 0 && targets == [] && targetWhats == []
      ensures next == null && prev == null
    {
      senderWhat, targets, targetWhats, next, prev := 0, [], [], null, null;
    }

    function View(): Entry
      reads `senderWhat, `targets, `targetWhats
    {
      Entry(senderWhat, targets, targetWhats)
    }
  }

  /** The position after `i` on a ring of `n`. */
  function Succ(i: nat, n: nat): nat
    requires i < n
  {
    if i + 1 == n then 0 else i + 1
  }

  /** The position before `i` on a ring of `n`. */
  function Pred(i: nat, n: nat): nat
    requires i < n
  {
    if i == 0 then n - 1 else i - 1
  }

  /** The values of the registrations `rs`, in order. Only the data
      fields are read, so relinking `next` and `prev` leaves it alone. */
  ghost function Views(rs: seq<Registration>): (t: seq<Entry>)
    reads rs`senderWhat, rs`targets, rs`targetWhats
    ensures |t| == |rs|
    ensures forall i {:trigger t[i]} :: 0 <= i < |rs| ==> t[i] == rs[i].View()
  {
    if rs == [] then [] else Views(rs[..|rs| - 1]) + [rs[|rs| - 1].View()]
  }

  /** Splicing a registration into the ring splices its value into the
      table. */
  lemma {:induction false} ViewsInserted(rs: seq<Registration>, p: nat, x: Registration)
    requires p <= |rs|
    ensures Views(Inserted(rs, p, x)) == Inserted(Views(rs), p, x.View())
  {
    var u := Inserted(rs, p, x);
    forall i | 0 <= i < |u|
      ensures Views(u)[i] == Inserted(Views(rs), p, x.View())[i]
    {
      if i != p {
        assert u[i] == rs[Idx(i, p)];
      }
    }
  }

  /** Splicing a fresh element in keeps the elements distinct. */
  lemma {:induction false} DistinctInserted<T>(rs: seq<T>, p: nat, x: T)
    requires Distinct(rs) && x !in rs && p <= |rs|
    ensures Distinct(Inserted(rs, p, x))
  {
    var u := Inserted(rs, p, x);
    forall i, j | 0 <= i < j < |u|
      ensures u[i] != u[j]
    {
      if i != p && j != p {
        assert u[i] == rs[Idx(i, p)] && u[j] == rs[Idx(j, p)];
      }
    }
  }

  /** Where a registration is spliced in: before position `k`, which puts
      it at `k`, or, when `k` is the anchor, at the front or at the end. */
  predicate SpliceAt(p: nat, k: nat, n: nat)
  {
    k < n && (p == k || (k == 0 && (p == 0 || p == n)))
  }

  /** `rs` holds distinct elements. */
  predicate Distinct<T(==)>(rs: seq<T>)
  {
    forall i, j :: 0 <= i < j < |rs| ==> rs[i] != rs[j]
  }

  /** The position in `rs` of the element at `i != p` once an element is
      inserted at `p`. */
  function Idx(i: nat, p: nat): nat
    requires i != p
  {
    if i < p then i else i - 1
  }

  /** After splicing `x` in at `p`, before `rs[k]`: the element after
      position `i` is `rs[k]` for `x`, `x` for `rs[k]`'s former
      predecessor, and the former successor for every other element. */
  lemma NextAt<T>(rs: seq<T>, x: T, p: nat, k: nat, i: nat)
    requires SpliceAt(p, k, |rs|) && i < |rs| + 1
    ensures i == p ==> Inserted(rs, p, x)[i] == x
    ensures i != p ==> Idx(i, p) < |rs| && Inserted(rs, p, x)[i] == rs[Idx(i, p)]
    ensures Inserted(rs, p, x)[Succ(i, |rs| + 1)] ==
      if i == p then rs[k]
      else if Idx(i, p) == Pred(k, |rs|) then x
      else rs[Succ(Idx(i, p), |rs|)]
  {
    var n := |rs|;
    var u := Inserted(rs, p, x);
    if i < p {
      if i + 1 < p {
        assert Succ(i, n + 1) == i + 1 && u[i + 1] == rs[i + 1];
      } else {
        assert i == Pred(k, n) && Succ(i, n + 1) == p;
      }
    } else if i > p {
      if i < n {
        assert Succ(i, n + 1) == i + 1 && u[i + 1] == rs[i];
      } else if p > 0 {
        assert Succ(i, n + 1) == 0 && u[0] == rs[0];
      } else {
        assert i - 1 == Pred(k, n) && Succ(i, n + 1) == 0;
      }
    } else if p < n {
      assert Succ(i, n + 1) == p + 1 && u[p + 1] == rs[p];
    } else {
      assert Succ(i, n + 1) == 0 && u[0] == rs[0];
    }
  }

  /** The same splice seen along `prev`: the element before position `i`
      is `rs[k]`'s former predecessor for `x`, `x` for `rs[k]`, and the
      former predecessor for every other element. */
  lemma PrevAt<T>(rs: seq<T>, x: T, p: nat, k: nat, i: nat)
    requires SpliceAt(p, k, |rs|) && i < |rs| + 1
    ensures Inserted(rs, p, x)[Pred(i, |rs| + 1)] ==
      if i == p then rs[Pred(k, |rs|)]
      else if Idx(i, p) == k then x
      else rs[Pred(Idx(i, p), |rs|)]
  {
    var n := |rs|;
    var u := Inserted(rs, p, x);
    if i < p {
      if i == k {
        assert p == n && Pred(i, n + 1) == n;
      } else if i > 0 {
        assert Pred(i, n + 1) == i - 1 && u[i - 1] == rs[i - 1];
      } else {
        assert Pred(i, n + 1) == n && p < n && u[n] == rs[n - 1];
      }
    } else if i > p {
      if i - 1 == k {
        assert Pred(i, n + 1) == p;
      } else {
        assert i - 1 > p && Pred(i, n + 1) == i - 1 && u[i - 1] == rs[i - 2];
      }
    } else if p > 0 {
      assert Pred(i, n + 1) == p - 1 && Pred(k, n) == p - 1 && u[p - 1] == rs[p - 1];
    } else {
      assert k == 0 && Pred(k, n) == n - 1;
      assert Pred(i, n + 1) == n && u[n] == rs[n - 1];
    }
  }

  /** Each `next` of `rs` is the following registration, wrapping around. */
  ghost predicate NextLinked(rs: seq<Registration>)
    reads rs`next
  {
    forall i {:trigger rs[i].next} :: 0 <= i < |rs| ==> rs[i].next == rs[Succ(i, |rs|)]
  }

  /** Each `prev` of `rs` is the preceding registration, wrapping around. */
  ghost predicate PrevLinked(rs: seq<Registration>)
    reads rs`prev
  {
    forall i {:trigger rs[i].prev} :: 0 <= i < |rs| ==> rs[i].prev == rs[Pred(i, |rs|)]
  }

  /** The `next` half of splicing `nr` in before `r`, the registration at
      position `k`, whose predecessor is `pv`: `nr` takes position `p`. */
  method SpliceNext(ghost rs: seq<Registration>, pv: Registration, r: Registration, nr: Registration,
                    ghost k: nat, ghost p: nat)
    requires NextLinked(rs) && nr !in rs && SpliceAt(p, k, |rs|)
    requires r == rs[k] && pv == rs[Pred(k, |rs|)] && Distinct(rs)
    modifies pv`next, nr`next
    ensures NextLinked(Inserted(rs, p, nr))
  {
    nr.next := r;
    pv.next := nr;
    ghost var n := |rs|;
    ghost var u := Inserted(rs, p, nr);
    forall i | 0 <= i < |u|
      ensures u[i].next == u[Succ(i, |u|)]
    {
      NextAt(rs, nr, p, k, i);
      if i != p {
        var j := Idx(i, p);
        assert old(rs[j].next) == rs[Succ(j, n)];
        assert j == Pred(k, n) <==> rs[j] == pv;
      }
    }
  }

  /** The `prev` half of the same splice. */
  method SplicePrev(ghost rs: seq<Registration>, pv: Registration, r: Registration, nr: Registration,
                    ghost k: nat, ghost p: nat)
    requires PrevLinked(rs) && nr !in rs && SpliceAt(p, k, |rs|)
    requires r == rs[k] && pv == rs[Pred(k, |rs|)] && Distinct(rs)
    modifies r`prev, nr`prev
    ensures PrevLinked(Inserted(rs, p, nr))
  {
    nr.prev := pv;
    r.prev := nr;
    ghost var n := |rs|;
    ghost var u := Inserted(rs, p, nr);
    forall i | 0 <= i < |u|
      ensures u[i].prev == u[Pred(i, |u|)]
    {
      NextAt(rs, nr, p, k, i);
      PrevAt(rs, nr, p, k, i);
      if i != p {
        var j := Idx(i, p);
        assert old(rs[j].prev) == rs[Pred(j, n)];
        assert j == k <==> rs[j] == r;
      }
    }
  }

  class Broadcaster {
    var reg: Registration?            // mReg, the anchor
    ghost var ring: seq<Registration> // the ring along `next` from the anchor

    /** `ring` is a ring: distinct registrations, each `next` the following
        one and each `prev` the preceding one, wrapping around, starting at
        the anchor. */
    ghost predicate Linked()
      reads this, ring`next, ring`prev
    {
      (reg == null <==> ring == []) &&
      (ring != [] ==> reg == ring[0]) &&
      Distinct(ring) && NextLinked(ring) && PrevLinked(ring)
    }

    /** The registrations' values along the ring. */
    ghost function Table(): seq<Entry>
      reads this, ring`senderWhat, ring`targets, ring`targetWhats
    {
      Views(ring)
    }

    ghost predicate Valid()
      reads this, ring
    {
      Linked() && Ascending(Table()) && Parallel(Table())
    }

    constructor ()
      ensures Valid() && Table() == [] && reg == null
    {
      reg := null;
      ring := [];
    }

    /** The `do ... while (r !== start)` scan: walks `next` from the anchor
        to the first registration whose key is at least `key`, or back to
        the anchor. It is a hit iff the key is registered. */
    method Find(key: int) returns (r: Registration, ghost k: nat)
      requires Valid() && reg != null
      ensures k < |ring| && r == ring[k] && k == Lookup(Table(), key)
      ensures r.senderWhat == key <==> HasKey(Table(), key)
    {
      ghost var t := Table();
      r := reg;
      k := 0;
      while true
        invariant k < |ring| && r == ring[k]
        invariant forall j :: 0 <= j < k ==> t[j].senderWhat < key
        decreases |ring| - k
      {
        if r.senderWhat >= key {
          break;
        }
        r := r.next;
        if r == reg {
          assert Succ(k, |ring|) == 0;
          k := 0;
          break;
        }
        k := k + 1;
      }
      LookupIs(t, key, k);
      LookupHit(t, key);
    }

    /** `subscribe(senderWhat, handler, targetWhat)`. */
    method Subscribe(senderWhat: int, handler: Ref, targetWhat: int)
      requires Valid()
      modifies this, ring
      ensures Valid()
      ensures Table() == Subscribed(old(Table()), senderWhat, handler, targetWhat)
    {
      ghost var t := Table();
      if reg == null {
        Start(senderWhat, handler, targetWhat);
        return;
      }
      ghost var rs := ring;
      var r, k := Find(senderWhat);
      if r.senderWhat != senderWhat {
        ghost var p := InsertIndex(t, senderWhat);
        assert k > 0 ==> r != reg;
        r := Link(r, k, senderWhat, p);
        ViewsInserted(rs, p, r);
        assert Views(rs) == t;
        AddTarget(r, p, 0, handler, targetWhat);
        SubscribeMiss(t, senderWhat, handler, targetWhat);
      } else {
        assert t[k].targets == r.targets;
        AddTarget(r, k, |r.targets|, handler, targetWhat);
      }
      SubscribeKeepsOrder(t, senderWhat, handler, targetWhat);
    }

    /** `subscribe` on an empty broadcaster: one registration, linked to
        itself, becomes the anchor. */
    method Start(senderWhat: int, handler: Ref, targetWhat: int)
      requires reg == null && ring == []
      modifies this
      ensures Valid()
      ensures Table() == [Entry(senderWhat, [handler], [Some(targetWhat)])]
    {
      var r := new Registration();
      r.senderWhat := senderWhat;
      r.targets := [handler];
      r.targetWhats := [Some(targetWhat)];
      reg := r;
      r.next := r;
      r.prev := r;
      ring := [r];
    }

    /** The two `splice(n, 0, ...)` calls of `subscribe`: the target and its
        `what` go in at `n` on the registration at ring position `k`. */
    method AddTarget(r: Registration, ghost k: nat, n: nat, handler: Ref, targetWhat: int)
      requires Linked() && k < |ring| && r == ring[k]
      requires n <= |r.targets| && n <= |r.targetWhats|
      modifies r`targets, r`targetWhats
      ensures Linked()
      ensures Table() == old(Table())[k := Added(old(Table())[k], n, handler, targetWhat)]
    {
      ghost var t := Table();
      r.targets := SpliceIn(r.targets, n, handler);
      r.targetWhats := SpliceIn(r.targetWhats, n, Some(targetWhat));
      ghost var u := t[k := Added(t[k], n, handler, targetWhat)];
      forall i | 0 <= i < |ring|
        ensures Table()[i] == u[i]
      {
        if i != k {
          assert ring[i] != r;
        }
      }
    }

    /** The new registration of `subscribe` for a key the scan did not
        find, spliced into the ring before `r`, where the scan stopped; it
        becomes the anchor when `r` is the anchor and holds a larger key.
        Only links change on the registrations already there. */
    method Link(r: Registration, ghost k: nat, key: int, ghost p: nat) returns (nr: Registration)
      requires Linked() && k < |ring| && r == ring[k] && SpliceAt(p, k, |ring|)
      requires (r == reg && r.senderWhat > key) <==> p == 0
      modifies this, ring`next, ring`prev
      ensures Linked() && fresh(nr) && ring == Inserted(old(ring), p, nr)
      ensures nr.View() == NewEntry(key)
    {
      nr := new Registration();
      nr.senderWhat := key;
      nr.targets := [Null];
      nr.targetWhats := [None];
      Splice(r, k, nr, p);
    }

    /** The relinking half of `Link`: `nr` goes in before `r`, the
        registration at ring position `k`, taking position `p`. */
    method Splice(r: Registration, ghost k: nat, nr: Registration, ghost p: nat)
      requires Linked() && k < |ring| && r == ring[k] && SpliceAt(p, k, |ring|) && nr !in ring
      requires (r == reg && r.senderWhat > nr.senderWhat) <==> p == 0
      modifies this, ring`next, ring`prev, nr`next, nr`prev
      ensures Linked() && ring == Inserted(old(ring), p, nr)
    {
      ghost var rs := ring;
      var pv := r.prev;
      SpliceNext(rs, pv, r, nr, k, p);
      SplicePrev(rs, pv, r, nr, k, p);
      if r == reg && r.senderWhat > nr.senderWhat {
        reg := nr;
      }
      ring := Inserted(rs, p, nr);
      DistinctInserted(rs, p, nr);
      if p == 0 {
        assert reg == nr == ring[0];
      } else {
        assert reg == old(reg) == rs[0] == ring[0];
      }
    }

    /** `unsubscribe(senderWhat, handler, targetWhat)`: the first slot
        holding the pair loses its target, and the registration loses the
        last element of `targetWhats`. */
    method Unsubscribe(senderWhat: int, handler: Ref, targetWhat: int)
      requires Valid()
      modifies ring
      ensures Valid()
      ensures Table() == Unsubscribed(old(Table()), senderWhat, handler, targetWhat)
    {
      if reg == null {
        return;
      }
      ghost var t := Table();
      var r, k := Find(senderWhat);
      if r.senderWhat == senderWhat {
        var targets := r.targets;
        var whats := r.targetWhats;
        var oldLen := |targets|;
        var i := 0;
        while i < oldLen
          invariant i <= oldLen
          invariant forall j :: 0 <= j < i ==> !Pairs(t[k], j, handler, targetWhat)
        {
          if targets[i] == handler && i < |whats| && whats[i] == Some(targetWhat) {
            FirstPairAt(t[k], handler, targetWhat, 0, i);
            RemoveTarget(r, k, i);
            break;
          }
          i := i + 1;
        }
        if i == oldLen {
          FirstPairAt(t[k], handler, targetWhat, 0, i);
        }
      }
      UnsubscribeKeepsRing(t, senderWhat, handler, targetWhat);
    }

    /** The two `splice(..., 1)` calls of `unsubscribe` on the registration
        at ring position `k`: `targets` loses slot `i`, `targetWhats` its
        last slot. */
    method RemoveTarget(r: Registration, ghost k: nat, i: nat)
      requires Linked() && k < |ring| && r == ring[k] && i < |r.targets|
      modifies r`targets, r`targetWhats
      ensures Linked()
      ensures Table() == old(Table())[k := Removed(old(Table())[k], i)]
    {
      ghost var t := Table();
      var oldLen := |r.targets|;
      r.targets := SpliceOut(r.targets, i);
      r.targetWhats := SpliceOut(r.targetWhats, oldLen - 1);
      ghost var u := t[k := Removed(t[k], i)];
      forall j | 0 <= j < |ring|
        ensures Table()[j] == u[j]
      {
        if j != k {
          assert ring[j] != r;
        }
      }
    }

    /** `publish(msg)` for a message whose `what` is `what`: the copies it
        sends, in order, and whether it ends normally or throws at an
        empty target slot. Nothing of the broadcaster changes. */
    method Publish(what: int) returns (sent: seq<Delivery>, outcome: Result<()>)
      requires Valid()
      ensures Plan(sent, outcome) == Published(Table(), what)
    {
      sent, outcome := [], Ok(());
      if reg == null {
        return;
      }
      var r, k := Find(what);
      if r.senderWhat == what {
        var targets := r.targets;
        var whats := r.targetWhats;
        var n := |targets|;
        var i := 0;
        while i < n
          invariant i <= n
          invariant DeliverFrom(targets, whats, 0) ==
            Plan(sent + DeliverFrom(targets, whats, i).sent, DeliverFrom(targets, whats, i).outcome)
        {
          if targets[i] == Null {
            outcome := Err(TypeError);
            return;
          }
          sent := sent + [Delivery(targets[i], WhatAt(whats, i))];
          i := i + 1;
        }
      }
    }
  }
}
