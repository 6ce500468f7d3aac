/**
  The event pool of `conev.c`, poll build: events are added and deleted by callbacks while
  the batch of events that one `poll` call reported ready is still being walked.
*/
module Conev {
  import opened Wire
  import opened Links

  /** An `Id` is the index of a `struct eval` in `pool->items`. */
  datatype Eval = Eval(fd: int, index: int, modIter: nat, pair: Option<Id>)

  datatype Pollfd = Pollfd(fd: int, revents: int)

  /** Which events `del_event` closes and in which order: it follows the pair pointers until
      there is none or it leads to an event that is closed already. */
  ghost function Chain(items: seq<Eval>, live: set<Id>, v: Id): (c: seq<Id>)
    decreases |live|
  {
    if v !in live || v >= |items| then []
    else [v] + match items[v].pair case None => [] case Some(p) => Chain(items, live - {v}, p)
  }

  /** Each event on the chain is closed once, and only live events are. */
  lemma {:induction false} ChainOnce(items: seq<Eval>, live: set<Id>, v: Id)
    ensures forall i :: 0 <= i < |Chain(items, live, v)| ==> Chain(items, live, v)[i] in live
    ensures forall i, j :: 0 <= i < j < |Chain(items, live, v)| ==> Chain(items, live, v)[i] != Chain(items, live, v)[j]
    decreases |live|
  {
    if v in live && v < |items| && items[v].pair.Some? {
      ChainOnce(items, live - {v}, items[v].pair.value);
    }
  }

  /** The chain depends only on the pairs of the events it may visit. */
  lemma {:induction false} ChainSame(items: seq<Eval>, items': seq<Eval>, live: set<Id>, v: Id)
    requires |items| == |items'|
    requires forall e :: e in live && e < |items| ==>
               || items'[e].pair == items[e].pair
               || (items'[e].pair.None? && items[e].pair.Some? && items[e].pair.value !in live)
    ensures Chain(items', live, v) == Chain(items, live, v)
    decreases |live|
  {
    if v in live && v < |items| && items[v].pair.Some? {
      ChainSame(items, items', live - {v}, items[v].pair.value);
    }
  }

  /** Everything but the position is the same. */
  ghost predicate SameEvent(e: Eval, e': Eval) { e == e'.(index := e.index) }

  // ----- the tables of a pool as a value

  datatype Table = Table(count: nat, iters: nat, links: seq<Id>, items: seq<Eval>, pevents: seq<Pollfd>)

  ghost predicate Sized(t: Table) {
    |t.links| == |t.items| == |t.pevents| && t.count <= |t.items|
  }

  ghost predicate IsLive(t: Table, e: Id)
    requires Sized(t)
  {
    e < |t.items| && 0 <= t.items[e].index < t.count && t.links[t.items[e].index] == e
  }

  /** The events in use. */
  ghost function Live(t: Table): set<Id>
    requires Sized(t)
  {
    set e: Id | e < |t.items| && IsLive(t, e)
  }

  /** The live events that the last poll reported ready and that have not been returned yet. */
  ghost function Pending(t: Table): set<Id>
    requires Sized(t)
  {
    set e: Id | e < |t.items| && IsLive(t, e) && t.pevents[t.items[e].index].revents != 0
  }

  /** `links` is a permutation of the items. */
  ghost predicate Permuted(t: Table)
    requires Sized(t)
  {
    && (forall i :: 0 <= i < |t.links| ==> t.links[i] < |t.items|)
    && (forall i, j :: 0 <= i < j < |t.links| ==> t.links[i] != t.links[j])
  }

  /** The event in slot `i` knows its slot, and its slot polls its descriptor. */
  ghost predicate Placed(t: Table, i: nat)
    requires Sized(t) && i < t.count
  {
    && t.links[i] < |t.items|
    && var e := t.items[t.links[i]];
    && e.index == i && e.fd > 0 && e.fd == t.pevents[i].fd && e.modIter <= t.iters
  }

  /** An item that has been used: live, or closed with its descriptor gone. */
  ghost predicate Known(t: Table, e: Id)
    requires Sized(t)
  {
    e < |t.items| && t.items[e].modIter <= t.iters && (IsLive(t, e) || t.items[e].fd == -1)
  }

  /** The first `count` entries of the permutation `links` are the live events, each knowing its
      position, and no live event is paired with itself or with an item that was never used. */
  ghost predicate Valid(t: Table) {
    && Sized(t) && Permuted(t)
    && (forall i: nat :: i < t.count ==> Placed(t, i))
    && (forall e: Id :: IsLive(t, e) && t.items[e].pair.Some? ==> t.items[e].pair.value != e && Known(t, t.items[e].pair.value))
  }

  /** The batch, walked down from `offs`: every live event still marked ready lies at or below
      the cursor and predates the poll; in the part still to be walked, past `count` lie only
      items touched in this batch. */
  ghost predicate Batch(t: Table, offs: int)
    requires Valid(t)
  {
    && -1 <= offs < |t.items|
    && (forall i :: 0 <= i < t.count && t.pevents[i].revents != 0 ==> i <= offs && t.items[t.links[i]].modIter < t.iters)
    && (forall i :: t.count <= i <= offs ==> t.items[t.links[i]].modIter == t.iters)
  }

  /** After `add_event`. */
  ghost function Opened(t: Table, fd: int): Table
    requires Sized(t) && Permuted(t) && t.count < |t.items|
  {
    t.(items := t.items[t.links[t.count] := Eval(fd, t.count, t.iters, None)],
       pevents := t.pevents[t.count := Pollfd(fd, 0)],
       count := t.count + 1)
  }

  lemma OpenedLive(t: Table, fd: int)
    requires Valid(t) && t.count < |t.items| && fd > 0
    ensures var t', v := Opened(t, fd), t.links[t.count];
            && Sized(t') && !IsLive(t, v) && Live(t') == Live(t) + {v} && Pending(t') == Pending(t)
            && forall e: Id :: e < |t.items| ==> (IsLive(t', e) <==> IsLive(t, e) || e == v)
  {
    var t', v := Opened(t, fd), t.links[t.count];
    assert !IsLive(t, v);
    forall e: Id | e < |t.items| ensures IsLive(t', e) <==> IsLive(t, e) || e == v { }
  }

  lemma OpenedValid(t: Table, fd: int)
    requires Valid(t) && t.count < |t.items| && fd > 0
    ensures Valid(Opened(t, fd))
  {
    var t', v := Opened(t, fd), t.links[t.count];
    OpenedLive(t, fd);
    hide Live, Pending;
    forall i: nat | i < t'.count ensures Placed(t', i) {
      if i < t.count { assert Placed(t, i) && t.links[i] != v; }
    }
    forall e: Id | IsLive(t', e) && t'.items[e].pair.Some?
      ensures t'.items[e].pair.value != e && Known(t', t'.items[e].pair.value)
    {
      assert Known(t, t.items[e].pair.value);
    }
  }

  lemma OpenedBatch(t: Table, fd: int, offs: int)
    requires Valid(t) && Batch(t, offs) && t.count < |t.items| && fd > 0 && Valid(Opened(t, fd))
    ensures Batch(Opened(t, fd), offs)
  {
  }

  /** After the event in slot `t.items[v].index` has been closed and the last live event has
      taken its slot. */
  ghost function Closed(t: Table, v: Id): Table
    requires Sized(t) && Permuted(t) && IsLive(t, v)
  {
    var last, i := t.count - 1, t.items[v].index;
    var u := t.links[last];
    var gone := t.items[v := t.items[v].(fd := -1, modIter := t.iters)];
    if u == v then t.(items := gone, count := last)
    else t.(items := gone[u := gone[u].(index := i)],
            links := t.links[i := u][last := v],
            pevents := t.pevents[i := t.pevents[last]],
            count := last)
  }

  lemma ClosedPermuted(t: Table, v: Id)
    requires Valid(t) && IsLive(t, v)
    ensures Sized(Closed(t, v)) && Permuted(Closed(t, v))
  {
    var last, i := t.count - 1, t.items[v].index;
    assert Placed(t, last);
    var ls := Closed(t, v).links;
    forall j | 0 <= j < |ls| ensures ls[j] == t.links[if j == i then last else if j == last then i else j] { }
  }

  lemma ClosedLive(t: Table, v: Id)
    requires Valid(t) && IsLive(t, v)
    ensures var t' := Closed(t, v);
            && Sized(t') && (forall e: Id :: e < |t.items| ==> (IsLive(t', e) <==> IsLive(t, e) && e != v))
            && Live(t') == Live(t) - {v} && Pending(t') == Pending(t) - {v}
            && forall e: Id :: e < |t.items| && e != v ==> SameEvent(t'.items[e], t.items[e])
  {
    var t', last := Closed(t, v), t.count - 1;
    assert Placed(t, last) && Placed(t, t.items[v].index);
    ClosedPermuted(t, v);
    forall e: Id | e < |t.items|
      ensures IsLive(t', e) <==> IsLive(t, e) && e != v
      ensures e in Pending(t') <==> e in Pending(t) && e != v
    {
      if IsLive(t, e) { assert Placed(t, t.items[e].index); }
    }
  }

  lemma ClosedValid(t: Table, v: Id)
    requires Valid(t) && IsLive(t, v)
    ensures Valid(Closed(t, v))
  {
    var t', last := Closed(t, v), t.count - 1;
    ClosedPermuted(t, v);
    ClosedLive(t, v);
    assert Placed(t, last);
    hide Live, Pending;
    forall i: nat | i < t'.count ensures Placed(t', i) { assert Placed(t, i); }
    forall e: Id | IsLive(t', e) && t'.items[e].pair.Some?
      ensures t'.items[e].pair.value != e && Known(t', t'.items[e].pair.value)
    {
      assert IsLive(t, e) && Known(t, t.items[e].pair.value);
    }
  }

  lemma ClosedBatch(t: Table, v: Id, offs: int)
    requires Valid(t) && IsLive(t, v) && Batch(t, offs) && Valid(Closed(t, v))
    ensures Batch(Closed(t, v), offs)
  {
    var t', last := Closed(t, v), t.count - 1;
    assert Placed(t, last) && Placed(t, t.items[v].index);
    forall i | 0 <= i < t'.count && t'.pevents[i].revents != 0
      ensures i <= offs && t'.items[t'.links[i]].modIter < t'.iters
    {
      assert Placed(t', i) && Placed(t, i);
    }
  }

  /** After a callback has set a pair pointer. */
  ghost function Paired(t: Table, v: Id, pair: Option<Id>): Table
    requires v < |t.items|
  {
    t.(items := t.items[v := t.items[v].(pair := pair)])
  }

  lemma PairedValid(t: Table, v: Id, pair: Option<Id>, offs: int)
    requires Valid(t) && Batch(t, offs) && v < |t.items|
    requires IsLive(t, v) && pair.Some? ==> pair.value != v && Known(t, pair.value)
    ensures var t' := Paired(t, v, pair);
            Valid(t') && Batch(t', offs) && Live(t') == Live(t) && Pending(t') == Pending(t)
  {
    var t' := Paired(t, v, pair);
    forall i: nat | i < t'.count ensures Placed(t', i) { assert Placed(t, i); }
    forall e: Id | e < |t.items| ensures IsLive(t', e) <==> IsLive(t, e) { }
    forall e: Id | IsLive(t', e) && t'.items[e].pair.Some?
      ensures t'.items[e].pair.value != e && Known(t', t'.items[e].pair.value)
    {
      if e != v { assert Known(t, t.items[e].pair.value); }
    }
  }

  /** After a closed event and its pair have forgotten each other. */
  ghost function Unpaired(t: Table, v: Id): Table
    requires v < |t.items|
  {
    match t.items[v].pair
    case None => t
    case Some(p) => Paired(if p < |t.items| && t.items[p].pair == Some(v) then Paired(t, p, None) else t, v, None)
  }

  /** What `del_event` does to a table: the chain is no longer live and no longer pending, its
      members have neither a descriptor nor a pair, and every other event is as it was except
      perhaps for its slot. */
  ghost predicate Deleted(t: Table, v: Id, t': Table)
    requires Sized(t) && Sized(t')
  {
    && |t'.items| == |t.items| && t'.iters == t.iters && t'.count <= t.count
    && var c := Members(Chain(t.items, Live(t), v));
    && Live(t') == Live(t) - c && Pending(t') == Pending(t) - c
    && (forall e: Id :: e in c ==> e < |t.items| && t'.items[e].fd == -1 && t'.items[e].pair.None?)
    && (forall e: Id :: e < |t.items| && e in Live(t') ==> SameEvent(t'.items[e], t.items[e]))
    && (forall e: Id :: e < |t.items| && e !in Live(t) ==> Less(t'.items[e], t.items[e]))
  }

  /** The same descriptor, and no pair that was not there. */
  ghost predicate Less(e': Eval, e: Eval) { e'.fd == e.fd && (e'.pair == e.pair || e'.pair.None?) }

  /** `poll` fills in what is ready in the first entries of its array. */
  function Reported(pevents: seq<Pollfd>, revs: seq<int>): (r: seq<Pollfd>)
    requires |revs| <= |pevents|
  {
    seq(|pevents|, i requires 0 <= i < |pevents| =>
      if i < |revs| then pevents[i].(revents := revs[i]) else pevents[i])
  }

  /** After `poll` has filled in what is ready. */
  ghost function Polled(t: Table, revs: seq<int>): Table
    requires Sized(t) && |revs| == t.count
  {
    t.(iters := t.iters + 1,
       pevents := Reported(t.pevents, revs))
  }

  lemma PolledBatch(t: Table, revs: seq<int>)
    requires Valid(t) && |revs| == t.count
    ensures Valid(Polled(t, revs)) && Batch(Polled(t, revs), t.count - 1) && Live(Polled(t, revs)) == Live(t)
  {
    var t' := Polled(t, revs);
    forall i: nat | i < t'.count ensures Placed(t', i) { assert Placed(t, i); }
    forall e: Id | e < |t.items| ensures IsLive(t', e) <==> IsLive(t, e) { }
    forall e: Id | IsLive(t', e) && t'.items[e].pair.Some?
      ensures t'.items[e].pair.value != e && Known(t', t'.items[e].pair.value)
    {
      assert Known(t, t.items[e].pair.value);
    }
    forall i | 0 <= i < t'.count ensures t'.items[t'.links[i]].modIter < t'.iters { assert Placed(t, i); }
  }

  /** After the event in slot `i` has been handed out. */
  ghost function HandedOut(t: Table, i: nat): Table
    requires i < |t.pevents|
  {
    t.(pevents := t.pevents[i := t.pevents[i].(revents := 0)])
  }

  lemma HandedOutBatch(t: Table, i: nat)
    requires Valid(t) && i < t.count && Batch(t, i)
    ensures var t' := HandedOut(t, i);
            && Valid(t') && Batch(t', i - 1) && Live(t') == Live(t) && Pending(t') == Pending(t) - {t.links[i]}
            && (t.pevents[i].revents != 0 ==> t.links[i] in Pending(t))
  {
    var t' := HandedOut(t, i);
    assert Placed(t, i);
    forall j: nat | j < t'.count ensures Placed(t', j) { assert Placed(t, j); }
    forall e: Id | e < |t.items| ensures IsLive(t', e) <==> IsLive(t, e) { }
    forall e: Id | IsLive(t', e) && t'.items[e].pair.Some?
      ensures t'.items[e].pair.value != e && Known(t', t'.items[e].pair.value)
    {
      assert Known(t, t.items[e].pair.value);
    }
    forall e: Id | e < |t.items| ensures e in Pending(t') <==> e in Pending(t) && e != t.links[i] { }
  }

  /** Nothing is pending once the cursor has passed the first slot. */
  lemma NonePending(t: Table)
    requires Valid(t) && Batch(t, -1)
    ensures Pending(t) == {}
  {
  }

  // ----- deleting along the pair pointers

  lemma LiveOpen(t: Table, v: Id)
    requires Valid(t) && Known(t, v)
    ensures IsLive(t, v) <==> t.items[v].fd > 0
    ensures IsLive(t, v) ==> t.items[v].fd == t.pevents[t.items[v].index].fd
    ensures IsLive(t, v) ==> t.links[t.count - 1] < |t.items|
  {
    assert IsLive(t, v) ==> Placed(t, t.items[v].index) && Placed(t, t.count - 1);
  }

  lemma LiveKnown(t: Table, v: Id)
    requires Valid(t) && IsLive(t, v)
    ensures Known(t, v)
  {
    assert Placed(t, t.items[v].index);
  }

  lemma KnownOpen(t: Table, v: Id)
    requires Valid(t) && Known(t, v) && t.items[v].fd != -1
    ensures IsLive(t, v) && v in Live(t)
  {
  }

  lemma ChainUnfold(t: Table, v: Id)
    requires Sized(t) && v in Live(t)
    ensures v < |t.items|
    ensures Chain(t.items, Live(t), v)
         == [v] + match t.items[v].pair case None => [] case Some(p) => Chain(t.items, Live(t) - {v}, p)
  {
  }

  lemma DeletedNone(t: Table, v: Id)
    requires Valid(t) && Known(t, v) && t.items[v].fd == -1
    ensures Deleted(t, v, t) && Chain(t.items, Live(t), v) == []
  {
    LiveOpen(t, v);
  }

  /** What closing one event and unpairing it does. */
  ghost predicate Stepped(t: Table, v: Id, t': Table)
    requires Sized(t) && Sized(t')
  {
    && |t'.items| == |t.items| && t'.iters == t.iters && t'.count < t.count
    && v in Live(t) && Live(t') == Live(t) - {v} && Pending(t') == Pending(t) - {v}
    && v < |t.items| && t'.items[v].fd == -1 && t'.items[v].pair.None?
    && (forall e: Id :: e < |t.items| && e != v ==>
          || SameEvent(t'.items[e], t.items[e])
          || (t'.items[e].fd == t.items[e].fd && t.items[e].pair == Some(v) && t'.items[e].pair.None? && t.items[v].pair == Some(e)))
  }

  lemma UnpairedItems(t: Table, v: Id)
    requires Valid(t) && IsLive(t, v)
    ensures v < |Closed(t, v).items| && Sized(Unpaired(Closed(t, v), v))
    ensures Closed(t, v).items[v].pair == t.items[v].pair
    ensures var t' := Unpaired(Closed(t, v), v);
            && |t'.items| == |t.items| && t'.iters == t.iters && t'.count < t.count
            && t'.items[v].fd == -1 && t'.items[v].pair.None?
            && (forall e: Id :: e < |t.items| && e != v ==>
                  || SameEvent(t'.items[e], t.items[e])
                  || (t'.items[e].fd == t.items[e].fd && t.items[e].pair == Some(v) && t'.items[e].pair.None? && t.items[v].pair == Some(e)))
  {
    ClosedPermuted(t, v);
    assert Placed(t, t.count - 1);
  }

  lemma CloseStep(t: Table, v: Id, offs: int)
    requires Valid(t) && Batch(t, offs) && IsLive(t, v)
    ensures v < |Closed(t, v).items| && Closed(t, v).items[v].pair == t.items[v].pair
    ensures t.items[v].pair.Some? ==> t.items[v].pair.value < |t.items| && t.items[v].pair.value != v
    ensures var t' := Unpaired(Closed(t, v), v);
            && Valid(t') && Batch(t', offs) && Stepped(t, v, t')
            && (t.items[v].pair.Some? ==> Known(t', t.items[v].pair.value))
  {
    var t1 := Closed(t, v);
    var t' := Unpaired(t1, v);
    ClosedValid(t, v);
    ClosedLive(t, v);
    ClosedBatch(t, v, offs);
    UnpairedItems(t, v);
    LiveIn(t, v);
    if t.items[v].pair.Some? {
      var p := t.items[v].pair.value;
      PairKept(t, v);
      hide Valid, Batch, Live, Pending, Closed, Placed, Permuted, IsLive;
      var t2 := if t1.items[p].pair == Some(v) then Paired(t1, p, None) else t1;
      PairedValid(t1, p, None, offs);
      PairedValid(t2, v, None, offs);
      PairedKnown(t1, p, None, p);
      PairedKnown(t2, v, None, p);
    }
  }

  lemma LiveIn(t: Table, v: Id)
    requires Sized(t) && IsLive(t, v)
    ensures v in Live(t)
  {
  }

  lemma PairKept(t: Table, v: Id)
    requires Valid(t) && IsLive(t, v) && t.items[v].pair.Some?
    ensures var t' := Closed(t, v); Sized(t') && t.items[v].pair.value != v && Known(t', t.items[v].pair.value)
  {
    ClosedPermuted(t, v);
    ClosedLive(t, v);
    assert Known(t, t.items[v].pair.value);
  }

  lemma PairedKnown(t: Table, v: Id, pair: Option<Id>, e: Id)
    requires Sized(t) && v < |t.items| && Known(t, e)
    ensures Sized(Paired(t, v, pair)) && Known(Paired(t, v, pair), e)
  {
  }

  lemma DeletedLast(t: Table, v: Id, t': Table)
    requires Sized(t) && Sized(t') && Stepped(t, v, t') && t.items[v].pair.None?
    ensures Deleted(t, v, t') && Chain(t.items, Live(t), v) == [v]
  {
    hide Live, Pending;
    ChainUnfold(t, v);
    hide Chain;
    assert Members([v]) == {v};
  }

  lemma DeletedMore(t: Table, v: Id, t1: Table, t': Table)
    requires Sized(t) && Sized(t1) && Sized(t') && Stepped(t, v, t1) && t.items[v].pair.Some?
    requires t.items[v].pair.value < |t.items| && Deleted(t1, t.items[v].pair.value, t')
    ensures Chain(t.items, Live(t), v) == [v] + Chain(t1.items, Live(t1), t.items[v].pair.value)
    ensures Deleted(t, v, t')
  {
    ChainMore(t, v, t1);
    hide Chain, Live, Pending;
    var p := t.items[v].pair.value;
    var c, c1 := Members(Chain(t.items, Live(t), v)), Members(Chain(t1.items, Live(t1), p));
    assert c == {v} + c1;
    hide Members;
    assert Live(t') == Live(t) - c && Pending(t') == Pending(t) - c;
    forall e: Id | e in c ensures e < |t.items| && t'.items[e].fd == -1 && t'.items[e].pair.None? {
      assert e == v || e in c1;
    }
    forall e: Id | e < |t.items| && e in Live(t') ensures SameEvent(t'.items[e], t.items[e]) {
      assert e in Live(t1) && e != v;
    }
  }

  lemma ChainMore(t: Table, v: Id, t1: Table)
    requires Sized(t) && Sized(t1) && Stepped(t, v, t1) && t.items[v].pair.Some? && t.items[v].pair.value < |t.items|
    ensures var c, c1 := Chain(t.items, Live(t), v), Chain(t1.items, Live(t1), t.items[v].pair.value);
            && c == [v] + c1 && Members(c) == {v} + Members(c1) && Members(c1) <= Live(t1) && v !in Live(t1)
  {
    hide Live, Pending;
    var p := t.items[v].pair.value;
    ChainUnfold(t, v);
    ChainSame(t.items, t1.items, Live(t1), p);
    if p in Live(t1) { ChainUnfold(t1, p); }
    hide Chain;
    ChainOnce(t1.items, Live(t1), p);
    assert v !in Live(t1);
  }

  // ----- pair pointers in cycles

  /** The pair pointers of the live events run in cycles: a paired event leads to a live, paired
      event, and no two lead to the same one. */
  ghost predicate Cyclic(items: seq<Eval>, live: set<Id>) {
    && (forall e :: e in live ==> e < |items|)
    && (forall e {:trigger Leads(items, live, e)} :: e in live ==> Leads(items, live, e))
    && (forall e, f :: e in live && f in live && items[e].pair.Some? && items[e].pair == items[f].pair ==> e == f)
  }

  /** A pair of `e` is live and paired. */
  ghost predicate Leads(items: seq<Eval>, live: set<Id>, e: Id)
    requires e < |items|
  {
    items[e].pair.Some? ==>
      items[e].pair.value in live && items[e].pair.value < |items| && items[items[e].pair.value].pair.Some?
  }

  /** Consecutive events are paired, and the last one has no pair or one that is not left. */
  ghost predicate Follows(items: seq<Eval>, live: set<Id>, c: seq<Id>) {
    && (forall i :: 0 <= i < |c| ==> c[i] in live && c[i] < |items|)
    && (forall i, j :: 0 <= i && j == i + 1 && j < |c| ==> items[c[i]].pair == Some(c[j]))
    && (|c| > 0 && items[c[|c| - 1]].pair.Some? ==> items[c[|c| - 1]].pair.value !in live - Members(c))
  }

  lemma FollowsCons(items: seq<Eval>, live: set<Id>, v: Id, d: seq<Id>)
    requires v in live && v < |items| && items[v].pair.Some? && Follows(items, live - {v}, d)
    requires if d == [] then items[v].pair.value !in live - {v} else d[0] == items[v].pair.value
    ensures Follows(items, live, [v] + d)
  {
    var c := [v] + d;
    assert Members(c) == {v} + Members(d);
    assert c[|c| - 1] == if d == [] then v else d[|d| - 1];
    forall i, j | 0 <= i && j == i + 1 && j < |c| ensures items[c[i]].pair == Some(c[j]) {
      assert i > 0 ==> c[i] == d[i - 1] && c[j] == d[j - 1];
    }
  }

  lemma {:induction false} ChainLinks(items: seq<Eval>, live: set<Id>, v: Id)
    requires forall e :: e in live ==> e < |items|
    ensures Follows(items, live, Chain(items, live, v))
    ensures v in live ==> |Chain(items, live, v)| > 0 && Chain(items, live, v)[0] == v
    ensures v !in live ==> Chain(items, live, v) == []
    decreases |live|
  {
    if v in live && items[v].pair.Some? {
      var p := items[v].pair.value;
      ChainLinks(items, live - {v}, p);
      FollowsCons(items, live, v, Chain(items, live - {v}, p));
    }
  }

  /** The chain from an event on a cycle is the whole cycle. */
  lemma ChainIsCycle(items: seq<Eval>, live: set<Id>, v: Id)
    requires Cyclic(items, live) && v in live && items[v].pair.Some?
    ensures var c := Chain(items, live, v);
            |c| > 0 && c[0] == v && c[|c| - 1] < |items| && items[c[|c| - 1]].pair == Some(v)
  {
    var c := Chain(items, live, v);
    ChainLinks(items, live, v);
    ChainOnce(items, live, v);
    hide Chain;
    var last := c[|c| - 1];
    assert last in live && Leads(items, live, last);
    if |c| > 1 {
      assert c[|c| - 2] in live && Leads(items, live, c[|c| - 2]) && items[c[|c| - 2]].pair == Some(last);
    }
    var p := items[last].pair.value;
    assert p in Members(c);
    forall j | 0 < j < |c| ensures c[j] != p {
      assert c[j - 1] in live && items[c[j - 1]].pair == Some(c[j]);
    }
  }

  /** So nothing that stays live is paired with anything on the chain. */
  lemma ChainLeavesNone(items: seq<Eval>, live: set<Id>, v: Id, e: Id)
    requires Cyclic(items, live) && v in live && e in live && e !in Chain(items, live, v) && items[e].pair.Some?
    ensures items[e].pair.value !in Chain(items, live, v)
  {
    var c := Chain(items, live, v);
    var p := items[e].pair.value;
    ChainLinks(items, live, v);
    assert Leads(items, live, e);
    hide Chain;
    forall i | 0 < i < |c| ensures c[i] != p {
      assert c[i - 1] in c && items[c[i - 1]].pair == Some(c[i]);
    }
    if items[v].pair.Some? {
      ChainIsCycle(items, live, v);
      assert c[|c| - 1] in c;
    }
  }

  /** Deleting any event of a cycle closes the whole cycle and leaves the other cycles whole. */
  lemma DeletedCyclic(t: Table, v: Id, t': Table)
    requires Sized(t) && Sized(t') && Cyclic(t.items, Live(t)) && v in Live(t) && Deleted(t, v, t')
    ensures Cyclic(t'.items, Live(t'))
    ensures t.items[v].pair.Some? ==> t.items[v].pair.value !in Live(t')
    ensures forall e :: e in Live(t) && t.items[e].pair == Some(v) ==> e !in Live(t')
  {
    var c := Chain(t.items, Live(t), v);
    hide Live, Pending;
    ChainUnfold(t, v);
    assert v in Members(c);
    ChainLinks(t.items, Live(t), v);
    forall e | e in Live(t') && t.items[e].pair.Some? ensures t.items[e].pair.value in Live(t') && Leads(t'.items, Live(t'), e) {
      assert Leads(t.items, Live(t), e);
      ChainLeavesNone(t.items, Live(t), v, e);
    }
    if t.items[v].pair.Some? {
      ChainIsCycle(t.items, Live(t), v);
      assert |c| > 1 ==> t.items[v].pair == Some(c[1]) && c[1] in Members(c);
    }
  }

  ghost function After(ring: seq<Id>, i: nat): Id
    requires i < |ring|
  {
    if i + 1 < |ring| then ring[i + 1] else ring[0]
  }

  /** `items'` pairs each event of `ring` with the next one and leaves the other live events alone. */
  ghost predicate LinkedUp(items: seq<Eval>, items': seq<Eval>, live: set<Id>, ring: seq<Id>) {
    && |items'| == |items| && (forall e :: e in live ==> e < |items|) && (forall i :: 0 <= i < |ring| ==> ring[i] in live)
    && (forall i, j :: 0 <= i < j < |ring| ==> ring[i] != ring[j])
    && (forall i :: 0 <= i < |ring| ==> items[ring[i]].pair.None? && items'[ring[i]].pair == Some(After(ring, i)))
    && (forall e :: e in live && e !in ring ==> items'[e].pair == items[e].pair)
  }

  /** Where an event of the ring sits, and that its pair is in the ring, too. */
  lemma OnRing(items: seq<Eval>, items': seq<Eval>, live: set<Id>, ring: seq<Id>, e: Id) returns (i: nat)
    requires LinkedUp(items, items', live, ring) && e in ring
    ensures i < |ring| && ring[i] == e && e in live && e < |items| && items'[e].pair == Some(After(ring, i))
    ensures Leads(items', live, e) && items[e].pair.None?
  {
    i :| 0 <= i < |ring| && ring[i] == e;
    var j := if i + 1 < |ring| then i + 1 else 0;
    assert After(ring, i) == ring[j];
  }

  lemma OffRing(items: seq<Eval>, items': seq<Eval>, live: set<Id>, ring: seq<Id>, e: Id)
    requires Cyclic(items, live) && LinkedUp(items, items', live, ring) && e in live && e !in ring
    ensures e < |items| && items'[e].pair == items[e].pair && Leads(items', live, e)
    ensures items'[e].pair.Some? ==> items'[e].pair.value !in ring
  {
    assert Leads(items, live, e);
  }

  /** Linking unpaired events into a ring keeps everything in cycles. */
  lemma LinkedCyclic(items: seq<Eval>, items': seq<Eval>, live: set<Id>, ring: seq<Id>)
    requires Cyclic(items, live) && LinkedUp(items, items', live, ring)
    ensures Cyclic(items', live)
  {
    forall e | e in live ensures e < |items| && Leads(items', live, e) {
      if e in ring {
        var _ := OnRing(items, items', live, ring, e);
      } else {
        OffRing(items, items', live, ring, e);
      }
    }
    forall e, f | e in live && f in live && items'[e].pair.Some? && items'[e].pair == items'[f].pair ensures e == f {
      SamePair(items, items', live, ring, e, f);
    }
  }

  lemma SamePair(items: seq<Eval>, items': seq<Eval>, live: set<Id>, ring: seq<Id>, e: Id, f: Id)
    requires Cyclic(items, live) && LinkedUp(items, items', live, ring) && e in live && f in live
    requires items'[e].pair.Some? && items'[e].pair == items'[f].pair
    ensures e == f
  {
    var i, j := 0, 0;
    if e in ring { i := OnRing(items, items', live, ring, e); } else { OffRing(items, items', live, ring, e); }
    if f in ring { j := OnRing(items, items', live, ring, f); } else { OffRing(items, items', live, ring, f); }
    assert i < |ring| ==> After(ring, i) in ring;
    assert j < |ring| ==> After(ring, j) in ring;
  }

  lemma CyclicBound(items: seq<Eval>, live: set<Id>)
    requires Cyclic(items, live)
    ensures forall e :: e in live ==> e < |items|
  {
  }

  /** A TCP connection: client and remote are paired with each other. */
  lemma TcpCyclic(items: seq<Eval>, live: set<Id>, val: Id, pair: Id)
    requires Cyclic(items, live) && val in live && pair in live && val != pair
    requires items[val].pair.None? && items[pair].pair.None?
    ensures Cyclic(WithPair(WithPair(items, val, pair), pair, val), live)
  {
    hide Cyclic, WithPair;
    CyclicBound(items, live);
    var items' := WithPair(WithPair(items, val, pair), pair, val);
    LinkedCyclic(items, items', live, [val, pair]);
  }

  /** A UDP association: control connection to client socket to remote socket and back. */
  lemma UdpCyclic(items: seq<Eval>, live: set<Id>, val: Id, client: Id, pair: Id)
    requires Cyclic(items, live) && val in live && client in live && pair in live
    requires val != client && client != pair && val != pair
    requires items[val].pair.None? && items[client].pair.None? && items[pair].pair.None?
    ensures Cyclic(WithPair(WithPair(WithPair(items, val, client), client, pair), pair, val), live)
  {
    hide Cyclic, WithPair;
    CyclicBound(items, live);
    var items' := WithPair(WithPair(WithPair(items, val, client), client, pair), pair, val);
    LinkedCyclic(items, items', live, [val, client, pair]);
  }

  ghost function WithPair(items: seq<Eval>, v: Id, pair: Id): (r: seq<Eval>)
    requires v < |items|
    ensures |r| == |items| && r[v].pair == Some(pair)
    ensures forall e: Id :: e < |items| && e != v ==> r[e] == items[e]
  {
    items[v := items[v].(pair := Some(pair))]
  }

  // ----- one batch

  /** What happens between two polls, as seen by the event loop. */
  datatype Move = Add(id: Id) | Del(gone: set<Id>) | Hand(id: Id)

  datatype Stage = Stage(live: set<Id>, pending: set<Id>)

  /** How each operation moves the live and the pending events; that they do is part of the contract of
      `RunBatch` below. */
  ghost predicate Moved(s: Stage, m: Move, s': Stage) {
    match m
    case Add(v) => v !in s.live && s' == Stage(s.live + {v}, s.pending)
    case Del(gone) => gone <= s.live && s' == Stage(s.live - gone, s.pending - gone)
    case Hand(v) => v in s.pending && s' == Stage(s.live, s.pending - {v})
  }

  ghost predicate Ran(stages: seq<Stage>, moves: seq<Move>) {
    && |stages| == |moves| + 1 && stages[0].pending <= stages[0].live
    && forall i :: 0 <= i < |moves| ==> Moved(stages[i], moves[i], stages[i + 1])
  }

  ghost predicate Touches(m: Move, v: Id) {
    match m case Add(id) => id == v case Del(gone) => v in gone case Hand(id) => id == v
  }

  /** Pending at a stage means: ready at the poll and neither deleted, nor handed out since. */
  lemma {:induction false} PendingAt(stages: seq<Stage>, moves: seq<Move>, k: nat, v: Id)
    requires Ran(stages, moves) && k <= |moves|
    ensures stages[k].pending <= stages[k].live
    ensures v in stages[k].pending <==> v in stages[0].pending && forall i :: 0 <= i < k ==> !Touches(moves[i], v)
  {
    if k > 0 {
      PendingAt(stages, moves, k - 1, v);
      assert Moved(stages[k - 1], moves[k - 1], stages[k]);
    }
  }

  /** Over a whole batch: an event is handed out only if it was ready at the poll and was neither
      added, deleted nor handed out earlier in the batch; and once nothing is pending, every event
      that was ready has been handed out exactly once, unless it was deleted before its turn. */
  lemma BatchExactlyOnce(stages: seq<Stage>, moves: seq<Move>)
    requires Ran(stages, moves)
    ensures forall k, v :: 0 <= k < |moves| && moves[k] == Hand(v) ==>
              v in stages[0].pending && forall i :: 0 <= i < k ==> !Touches(moves[i], v)
    ensures stages[|moves|].pending == {} ==>
              forall v :: v in stages[0].pending ==>
                exists k :: 0 <= k < |moves| && Touches(moves[k], v) && !moves[k].Add?
                  && forall i :: 0 <= i < k ==> !Touches(moves[i], v)
  {
    forall k, v | 0 <= k < |moves| && moves[k] == Hand(v)
      ensures v in stages[0].pending && forall i :: 0 <= i < k ==> !Touches(moves[i], v)
    {
      assert Moved(stages[k], moves[k], stages[k + 1]);
      PendingAt(stages, moves, k, v);
    }
    if stages[|moves|].pending == {} {
      forall v | v in stages[0].pending
        ensures exists k :: 0 <= k < |moves| && Touches(moves[k], v) && !moves[k].Add?
                  && forall i :: 0 <= i < k ==> !Touches(moves[i], v)
      {
        PendingAt(stages, moves, |moves|, v);
        var k := FirstTouch(moves, v);
        PendingAt(stages, moves, k, v);
        assert Moved(stages[k], moves[k], stages[k + 1]);
        assert stages[k].pending <= stages[k].live;
      }
    }
  }

  lemma RanNothing(s: Stage)
    requires s.pending <= s.live
    ensures Ran([s], [])
  {
  }

  lemma RanMore(stages: seq<Stage>, moves: seq<Move>, m: Move, s: Stage)
    requires Ran(stages, moves) && Moved(stages[|moves|], m, s)
    ensures Ran(stages + [s], moves + [m])
  {
  }

  /** The events handed out, in order. */
  ghost function Hands(moves: seq<Move>): seq<Id> {
    if moves == [] then []
    else Hands(moves[..|moves| - 1]) + match moves[|moves| - 1] case Hand(v) => [v] case _ => []
  }

  /** Which move handed out which event. */
  lemma {:induction false} HandAt(moves: seq<Move>, k: nat) returns (i: nat)
    requires k < |moves| && moves[k].Hand?
    ensures i < |Hands(moves)| && Hands(moves)[i] == moves[k].id
  {
    var init := moves[..|moves| - 1];
    if k == |moves| - 1 {
      i := |Hands(init)|;
    } else {
      i := HandAt(init, k);
    }
  }

  lemma {:induction false} HandedAt(moves: seq<Move>, i: nat) returns (k: nat)
    requires i < |Hands(moves)|
    ensures k < |moves| && moves[k] == Hand(Hands(moves)[i])
    ensures i == |Hands(moves[..k])|
  {
    var init := moves[..|moves| - 1];
    if i < |Hands(init)| {
      k := HandedAt(init, i);
      assert init[..k] == moves[..k];
    } else {
      k := |moves| - 1;
    }
  }

  /** Each event is handed out at most once. */
  lemma HandsOnce(stages: seq<Stage>, moves: seq<Move>)
    requires Ran(stages, moves)
    ensures forall i, j :: 0 <= i < j < |Hands(moves)| ==> Hands(moves)[i] != Hands(moves)[j]
    ensures forall v :: v in Hands(moves) ==> v in stages[0].pending
  {
    BatchExactlyOnce(stages, moves);
    forall i, j | 0 <= i < j < |Hands(moves)| ensures Hands(moves)[i] != Hands(moves)[j] {
      var a := HandedAt(moves, i);
      var b := HandedAt(moves, j);
      assert Touches(moves[if a < b then a else b], Hands(moves)[if a < b then i else j]);
    }
    forall v | v in Hands(moves) ensures v in stages[0].pending {
      var i :| 0 <= i < |Hands(moves)| && Hands(moves)[i] == v;
      var a := HandedAt(moves, i);
    }
  }

  /** What was ready when the batch began has been handed out, or was deleted before its turn. */
  ghost predicate Served(pending: set<Id>, moves: seq<Move>) {
    forall v :: v in pending ==> v in Hands(moves) || DeletedFirst(moves, v)
  }

  ghost predicate DeletedFirst(moves: seq<Move>, v: Id) {
    exists k :: 0 <= k < |moves| && moves[k].Del? && v in moves[k].gone && forall i :: 0 <= i < k ==> !Touches(moves[i], v)
  }

  lemma ServedAll(stages: seq<Stage>, moves: seq<Move>)
    requires Ran(stages, moves) && stages[|moves|].pending == {}
    ensures Served(stages[0].pending, moves)
  {
    BatchExactlyOnce(stages, moves);
    forall v | v in stages[0].pending ensures v in Hands(moves) || DeletedFirst(moves, v) {
      var k :| 0 <= k < |moves| && Touches(moves[k], v) && !moves[k].Add? && forall i :: 0 <= i < k ==> !Touches(moves[i], v);
      if moves[k].Hand? {
        var i := HandAt(moves, k);
      }
    }
  }

  // ----- what the operations of the pool do, as moves

  ghost function StageOf(t: Table): Stage
    requires Sized(t)
  {
    Stage(Live(t), Pending(t))
  }

  lemma PendingLive(t: Table)
    requires Sized(t)
    ensures StageOf(t).pending <= StageOf(t).live
  {
  }

  lemma DeletedMoves(t: Table, v: Id, t': Table)
    requires Sized(t) && Sized(t') && Deleted(t, v, t')
    ensures Moved(StageOf(t), Del(Members(Chain(t.items, Live(t), v))), StageOf(t'))
  {
    ChainOnce(t.items, Live(t), v);
    hide Live, Pending, Chain;
  }

  lemma HandedMoves(t: Table, v: Id, typ: int, t': Table)
    requires Sized(t) && Sized(t') && Handed(t, t', v, typ) && Live(t') == Live(t)
    ensures Moved(StageOf(t), Hand(v), StageOf(t'))
  {
  }

  lemma FirstTouch(moves: seq<Move>, v: Id) returns (k: nat)
    requires exists i :: 0 <= i < |moves| && Touches(moves[i], v)
    ensures k < |moves| && Touches(moves[k], v) && forall i :: 0 <= i < k ==> !Touches(moves[i], v)
  {
    k := 0;
    while !Touches(moves[k], v)
      invariant k < |moves| && forall i :: 0 <= i < k ==> !Touches(moves[i], v)
      decreases |moves| - k
    {
      k := k + 1;
    }
  }

  /** Event `v` was pending and is handed out with what poll reported for it; nothing else is. */
  ghost predicate Handed(t: Table, t': Table, v: Id, typ: int)
    requires Sized(t) && Sized(t')
  {
    && v in Pending(t) && Pending(t') == Pending(t) - {v} && v < |t.items| && IsLive(t, v)
    && typ != 0 && typ == t.pevents[t.items[v].index].revents
    && t' == t.(pevents := t.pevents[t.items[v].index := t.pevents[t.items[v].index].(revents := 0)])
  }

  lemma CursorLow(t: Table, offs: int)
    requires Valid(t) && Batch(t, offs)
    ensures offs >= -1
  {
  }

  lemma CursorFacts(t: Table, i: nat)
    requires Valid(t) && Batch(t, i)
    ensures Sized(t) && i < |t.items| && t.links[i] < |t.items|
    ensures i >= t.count ==> t.items[t.links[i]].modIter == t.iters
    ensures t.items[t.links[i]].modIter == t.iters || t.pevents[i].revents == 0 ==> Batch(t, i - 1)
    ensures i < t.count ==> t.links[i] < |t.items| && t.items[t.links[i]].index == i && IsLive(t, t.links[i])
  {
    assert i < t.count ==> Placed(t, i);
  }

  // ----- what the callbacks ask for

  /** What a callback may ask of the pool. */
  datatype Callback = Open(fd: int) | Close(id: Id) | Link(id: Id, pair: Option<Id>)

  /** What a request does: an event with this descriptor takes the next free item, unless the pool is full; the chain
      from a live event is closed; a live event is linked to a live one, or unlinked. Anything else does
      nothing. */
  ghost predicate Called(t: Table, c: Callback, t': Table)
    requires Sized(t) && Sized(t')
  {
    match c
    case Open(fd) =>
      if fd > 0 && t.count < |t.items| && t.links[t.count] < |t.items| then
        && t'.items == t.items[t.links[t.count] := Eval(fd, t.count, t.iters, None)] && t'.count == t.count + 1
        && t'.pevents == t.pevents[t.count := Pollfd(fd, 0)] && t'.links == t.links && t'.iters == t.iters
      else t' == t
    case Close(v) =>
      if v < |t.items| && (IsLive(t, v) || (t.items[v].fd == -1 && t.items[v].modIter <= t.iters)) then Deleted(t, v, t') else t' == t
    case Link(v, pair) =>
      if v < |t.items| && IsLive(t, v) && pair != Some(v) && (pair.Some? ==> pair.value < |t.items| && IsLive(t, pair.value))
      then t' == t.(items := t.items[v := t.items[v].(pair := pair)])
      else t' == t
  }

  /** One thing that happens between two polls. */
  datatype Act = Gives(id: Id, typ: int) | Does(c: Callback)

  ghost predicate Acted(t: Table, a: Act, t': Table)
    requires Sized(t) && Sized(t')
  {
    match a case Gives(v, typ) => Handed(t, t', v, typ) case Does(c) => Called(t, c, t')
  }

  /** From table to table. */
  ghost predicate Traced(trace: seq<Table>, acts: seq<Act>) {
    && |trace| == |acts| + 1 && (forall i :: 0 <= i < |trace| ==> Sized(trace[i]))
    && forall i :: 0 <= i < |acts| ==> Acted(trace[i], acts[i], trace[i + 1])
  }

  lemma TracedMore(trace: seq<Table>, acts: seq<Act>, a: Act, t: Table)
    requires Traced(trace, acts) && Sized(t) && Acted(trace[|acts|], a, t)
    ensures Traced(trace + [t], acts + [a])
  {
    hide Acted;
    forall i | 0 <= i < |acts| + 1 ensures Acted((trace + [t])[i], (acts + [a])[i], (trace + [t])[i + 1]) {
      if i < |acts| { assert Acted(trace[i], acts[i], trace[i + 1]); }
    }
  }

  /** The requests of one callback, in their order. */
  ghost function Requests(cs: seq<Callback>): (acts: seq<Act>)
    ensures |acts| == |cs| && forall i :: 0 <= i < |cs| ==> acts[i] == Does(cs[i])
  {
    seq(|cs|, i requires 0 <= i < |cs| => Does(cs[i]))
  }

  /** Each event that is handed out, and behind it the requests of its callback. */
  ghost function Interleaved(given: seq<Act>, script: seq<seq<Callback>>): (acts: seq<Act>) {
    if given == [] then []
    else
      var n := |given| - 1;
      Interleaved(given[..n], script) + [given[n]] + if n < |script| then Requests(script[n]) else []
  }

  lemma InterleavedMore(given: seq<Act>, script: seq<seq<Callback>>, a: Act)
    ensures Interleaved(given + [a], script) == Interleaved(given, script) + [a] + if |given| < |script| then Requests(script[|given|]) else []
  {
    assert (given + [a])[..|given|] == given;
  }

  lemma RequestsMore(cs: seq<Callback>, k: nat)
    requires k < |cs|
    ensures Requests(cs[..k + 1]) == Requests(cs[..k]) + [Does(cs[k])]
  {
  }

  class Pool {
    const max: nat
    var count: nat
    var iters: nat
    var links: seq<Id>
    var items: seq<Eval>
    var pevents: seq<Pollfd>
    var offs: int                 // the cursor `i` of `loop_event`
    ghost var closed: seq<Id>     // everything ever closed, in order

    ghost function Tab(): (t: Table)
      reads this
    {
      Table(count, iters, links, items, pevents)
    }

    ghost predicate Ok()
      reads this
    {
      |items| == max && Valid(Tab()) && Batch(Tab(), offs)
    }

    /** `init_pool`; only the first item is cleared, the others hold whatever `malloc` left. */
    constructor (max: nat, garbage: seq<Eval>, pollGarbage: seq<Pollfd>)
      requires |garbage| == max && |pollGarbage| == max
      ensures Ok() && this.max == max && Live(Tab()) == {} && Pending(Tab()) == {} && closed == []
    {
      this.max := max;
      count, iters, offs := 0, 0, -1;
      links := seq(max, i => i);
      items := if max > 0 then garbage[0 := Eval(0, 0, 0, None)] else garbage;
      pevents := pollGarbage;
      closed := [];
      new;
      EmptyValid(Tab());
      hide Valid, Batch, Live, Pending;
    }

    /** `add_event` */
    method AddEvent(fd: int) returns (val: Option<Id>)
      requires Ok() && fd > 0
      modifies this`count, this`items, this`pevents
      ensures Ok() && Pending(Tab()) == old(Pending(Tab()))
      ensures val.None? <==> old(count) >= max
      ensures val.None? ==> Tab() == old(Tab())
      ensures val.Some? ==>
                && val.value < max && val.value !in old(Live(Tab())) && Live(Tab()) == old(Live(Tab())) + {val.value}
                && items == old(items)[val.value := Eval(fd, old(count), iters, None)]
                && Tab() == Opened(old(Tab()), fd)
    {
      if count >= max {
        return None;
      }
      hide Valid, Batch, Live, Pending;
      ValidSized(Tab());
      OpenedValid(Tab(), fd);
      OpenedLive(Tab(), fd);
      OpenedBatch(Tab(), fd, offs);
      var v := links[count];
      items := items[v := Eval(fd, count, iters, None)];
      pevents := pevents[count := Pollfd(fd, 0)];
      count := count + 1;
      assert Tab() == Opened(old(Tab()), fd);
      val := Some(v);
    }

    /** A callback links two live events, or unlinks one. */
    method SetPair(v: Id, pair: Option<Id>)
      requires Ok() && IsLive(Tab(), v) && (pair.Some? ==> pair.value != v && IsLive(Tab(), pair.value))
      modifies this`items
      ensures Ok() && Tab() == Paired(old(Tab()), v, pair)
      ensures Live(Tab()) == old(Live(Tab())) && Pending(Tab()) == old(Pending(Tab()))
    {
      if pair.Some? { LiveKnown(Tab(), pair.value); }
      PairedValid(Tab(), v, pair, offs);
      items := items[v := items[v].(pair := pair)];
      assert Tab() == Paired(old(Tab()), v, pair);
    }

    /** The first half of `del_event`: the descriptor is closed and the last event takes the slot. */
    method CloseOne(val: Id)
      requires Ok() && IsLive(Tab(), val)
      modifies this`count, this`items, this`links, this`pevents, this`closed
      ensures Ok() && closed == old(closed) + [val] && Tab() == Closed(old(Tab()), val)
    {
      hide Valid, Batch, Permuted, Placed;
      ValidSized(Tab());
      LiveKnown(Tab(), val);
      LiveOpen(Tab(), val);
      assert items[val].fd == pevents[items[val].index].fd;   // the assertion of the poll build
      ClosedValid(Tab(), val);
      ClosedBatch(Tab(), val, offs);
      closed := closed + [val];
      items := items[val := items[val].(fd := -1, modIter := iters)];
      count := count - 1;
      var ev := links[count];
      if ev != val {
        var index := items[val].index;
        links := links[index := ev];
        links := links[count := val];
        pevents := pevents[index := pevents[count]];
        items := items[ev := items[ev].(index := index)];
      }
      assert Tab() == Closed(old(Tab()), val);
    }

    /** The second half of `del_event`, up to the recursive call: the event and its pair forget
        each other. */
    method Unpair(val: Id) returns (e: Option<Id>)
      requires Ok() && val < max && (items[val].pair.Some? ==> items[val].pair.value < max && items[val].pair.value != val)
      modifies this`items
      ensures e == old(items[val].pair) && Tab() == Unpaired(old(Tab()), val)
    {
      e := items[val].pair;
      if e.Some? {
        if items[e.value].pair == Some(val) {
          items := items[e.value := items[e.value].(pair := None)];
        }
        items := items[val := items[val].(pair := None)];
      }
    }

    /** `del_event`: closes the event and then everything its pair pointers lead to, each once. */
    method DelEvent(val: Id)
      requires Ok() && Known(Tab(), val)
      modifies this`count, this`items, this`links, this`pevents, this`closed
      ensures Ok() && Deleted(old(Tab()), val, Tab())
      ensures closed == old(closed) + old(Chain(items, Live(Tab()), val))
      decreases count
    {
      ghost var t0 := Tab();
      hide Valid, Batch, Live, Pending, Placed, Permuted, Deleted, Closed, Unpaired, Chain, IsLive;
      LiveOpen(t0, val);
      assert items[val].fd >= -1 && items[val].modIter <= iters;   // the assertion of line 86
      if items[val].fd == -1 {
        DeletedNone(t0, val);
        return;
      }
      KnownOpen(t0, val);
      CloseStep(t0, val, offs);
      CloseOne(val);
      var e := Unpair(val);
      ghost var t1 := Tab();
      ValidSized(t0);
      ValidSized(t1);
      if e.Some? {
        DelEvent(e.value);
        ValidSized(Tab());
        DeletedMore(t0, val, t1, Tab());
      } else {
        DeletedLast(t0, val, t1);
      }
    }

    /** `poll` reports `revs`, and a new batch begins. */
    method Poll(revs: seq<int>)
      requires Ok() && |revs| == count
      modifies this`iters, this`pevents, this`offs
      ensures Ok() && offs == count - 1 && Tab() == Polled(old(Tab()), revs)
      ensures Live(Tab()) == old(Live(Tab()))
    {
      PolledBatch(Tab(), revs);
      ValidSized(Tab());
      hide Valid, Batch, Live;
      iters := iters + 1;
      pevents := Reported(pevents, revs);
      offs := count - 1;
      assert Tab() == Polled(old(Tab()), revs);
    }

    /** One walk down the rest of the batch, for the next event that is still to be handed out. */
    method Walk() returns (val: Option<Id>, typ: int)
      requires Ok()
      modifies this`pevents, this`offs
      ensures Ok() && iters == old(iters) && items == old(items) && count == old(count) && links == old(links)
      ensures Live(Tab()) == old(Live(Tab()))
      ensures val.None? ==> Tab() == old(Tab()) && offs == -1 && Pending(Tab()) == {}
      ensures val.Some? ==> Handed(old(Tab()), Tab(), val.value, typ)
    {
      hide Valid, Batch, Live, Pending, Placed;
      ValidSized(Tab());
      CursorLow(Tab(), offs);
      typ := 0;
      while offs >= 0
        invariant offs >= -1 && Ok() && Tab() == old(Tab())
        decreases offs + 1
      {
        var i := offs;
        CursorFacts(Tab(), i);
        typ := pevents[i].revents;
        if typ != 0 {
          var v := links[i];
          assert i < count || items[v].modIter == iters;   // the assertion of line 224
          if items[v].modIter != iters {
            HandedOutBatch(Tab(), i);
            HandOut(i);
            assert Handed(old(Tab()), Tab(), v, typ);
            return Some(v), typ;
          }
        }
        offs := i - 1;
      }
      NonePending(Tab());
      val := None;
    }

    method HandOut(i: nat)
      requires i < |pevents|
      modifies this`pevents, this`offs
      ensures Tab() == HandedOut(old(Tab()), i) && offs == i - 1
    {
      pevents := pevents[i := pevents[i].(revents := 0)];
      offs := i - 1;
    }

    /** `next_event`; `ret` and `revs` are what `poll` returns if it has to be called. The local
        cursor of the source is written back only when an event is returned; when none is, it
        stays where it was, and everything below it has been skipped for good. */
    method NextEvent(ret: int, revs: seq<int>) returns (val: Option<Id>, typ: int)
      requires Ok()
      requires ret > 0 ==> |revs| == count && exists i :: 0 <= i < count && revs[i] != 0
      modifies this`iters, this`pevents, this`offs
      ensures Ok() && Live(Tab()) == old(Live(Tab()))
      ensures old(Pending(Tab())) != {} ==> val.Some? && Handed(old(Tab()), Tab(), val.value, typ)
      ensures old(Pending(Tab())) == {} && ret <= 0 ==> val.None? && Tab() == old(Tab()) && offs == old(offs)
      ensures old(Pending(Tab())) == {} && ret > 0 ==>
                val.Some? && Handed(Polled(old(Tab()), revs), Tab(), val.value, typ)
    {
      hide Valid, Batch, Live, Pending, Polled;
      ValidSized(Tab());
      var was := offs;
      val, typ := Walk();
      if val.None? {
        if ret <= 0 {
          offs := was;
          return;
        }
        ReadyPending(Tab(), revs);
        Poll(revs);
        val, typ := Walk();
      }
    }

    /** Whether an item is one of the live events. */
    method InUse(v: Id) returns (r: bool)
      requires Ok()
      ensures r <==> v < max && IsLive(Tab(), v)
    {
      ValidSized(Tab());
      r := v < max && 0 <= items[v].index < count && links[items[v].index] == v;
    }

    /** What one callback does: it may add an event, delete one that it knows, and link live events. A
        callback never refers to an item that is not in use or closed, so such requests do nothing. */
    method Call(c: Callback, ghost stages: seq<Stage>, ghost moves: seq<Move>) returns (ghost stages': seq<Stage>, ghost moves': seq<Move>)
      requires Ok() && Ran(stages, moves) && stages[|moves|] == StageOf(Tab())
      modifies this`count, this`items, this`links, this`pevents, this`closed
      ensures Ok() && Ran(stages', moves') && stages'[|moves'|] == StageOf(Tab()) && stages'[0] == stages[0]
      ensures Hands(moves') == Hands(moves) && Pending(Tab()) <= old(Pending(Tab()))
      ensures Sized(Tab()) && Sized(old(Tab())) && Called(old(Tab()), c, Tab())
    {
      hide Valid, Batch, Live, Pending, Deleted, Chain, Ran, Permuted;
      ValidSized(Tab());
      stages', moves' := stages, moves;
      ghost var t := Tab();
      match c {
        case Open(fd) =>
          if fd > 0 {
            var v := AddEvent(fd);
            ValidSized(Tab());
            if v.Some? {
              stages', moves' := Record(stages, moves, Add(v.value), StageOf(Tab()));
            } else {
              assert StageOf(Tab()) == StageOf(t);
            }
          }
        case Close(v) =>
          var live := InUse(v);
          if v < max {
            CallableFacts(t, v);
          }
          if live || (v < max && items[v].fd == -1 && items[v].modIter <= iters) {
            DelEvent(v);
            ValidSized(Tab());
            DeletedMoves(t, v, Tab());
            MovedPending(StageOf(t), Del(Members(Chain(t.items, Live(t), v))), StageOf(Tab()));
            stages', moves' := Record(stages, moves, Del(Members(Chain(t.items, Live(t), v))), StageOf(Tab()));
          }
        case Link(v, pair) =>
          var a := InUse(v);
          var b := true;
          if pair.Some? {
            b := InUse(pair.value);
          }
          if a && b && pair != Some(v) {
            SetPair(v, pair);
            ValidSized(Tab());
            assert StageOf(Tab()) == StageOf(t);
          }
      }
    }

    /** The event loop from one poll to the next: events are handed out until none is pending, and after
        each of them `script` says what its callback does. Every event that was pending is handed out
        exactly once, unless it is deleted before its turn; nothing else is handed out, and nothing that
        was added, deleted or handed out before. What happens is nothing but that: each event with what poll
        has reported, and then what its callback asks for. */
    method RunBatch(script: seq<seq<Callback>>)
        returns (handed: seq<Id>, ghost stages: seq<Stage>, ghost moves: seq<Move>, ghost trace: seq<Table>, ghost given: seq<Act>)
      requires Ok()
      modifies this
      ensures Ok() && Pending(Tab()) == {}
      ensures Ran(stages, moves) && stages[0] == old(StageOf(Tab())) && stages[|moves|] == StageOf(Tab()) && handed == Hands(moves)
      ensures forall i, j :: 0 <= i < j < |handed| ==> handed[i] != handed[j]
      ensures forall v :: v in handed ==> v in old(Pending(Tab()))
      ensures Served(old(Pending(Tab())), moves)
      ensures forall k, v :: 0 <= k < |moves| && moves[k] == Hand(v) ==> forall i :: 0 <= i < k ==> !Touches(moves[i], v)
      ensures |given| == |handed| && forall i :: 0 <= i < |given| ==> given[i].Gives? && given[i].id == handed[i]
      ensures Traced(trace, Interleaved(given, script)) && trace[0] == old(Tab()) && trace[|trace| - 1] == Tab()
    {
      hide Valid, Batch, Live, Pending, Handed, Moved, Traced, Acted, Called, Interleaved, Requests;
      ValidSized(Tab());
      PendingLive(Tab());
      handed, stages, moves, trace, given := [], [StageOf(Tab())], [], [Tab()], [];
      RanNothing(StageOf(Tab()));
      TracedNothing(Tab(), script);
      ghost var acts := [];
      var turn := 0;
      while true
        invariant Ok() && Sized(Tab()) && Ran(stages, moves) && stages[0] == old(StageOf(Tab())) && stages[|moves|] == StageOf(Tab())
        invariant handed == Hands(moves) && |given| == |handed| && (if turn < |script| then |given| == turn else |given| >= turn)
        invariant forall i :: 0 <= i < |given| ==> given[i].Gives? && given[i].id == handed[i]
        invariant acts == Interleaved(given, script) && TracedTo(trace, acts, old(Tab()), Tab())
        decreases |Pending(Tab())|
      {
        ghost var t := Tab();
        var val, typ := Walk();
        ValidSized(Tab());
        if val.None? {
          break;
        }
        HandedMoves(t, val.value, typ, Tab());
        HandedLess(t, Tab(), val.value, typ);
        stages, moves := Record(stages, moves, Hand(val.value), StageOf(Tab()));
        GivesActed(t, val.value, typ, Tab());
        TracedOn(trace, acts, old(Tab()), t, Gives(val.value, typ), Tab());
        trace := trace + [Tab()];
        acts := acts + [Gives(val.value, typ)];
        InterleavedMore(given, script, Gives(val.value, typ));
        given := given + [Gives(val.value, typ)];
        ghost var acts0 := acts;
        handed := handed + [val.value];
        ghost var left := Pending(Tab());
        if turn < |script| {
          for i := 0 to |script[turn]|
            invariant Ok() && Sized(Tab()) && Ran(stages, moves) && stages[0] == old(StageOf(Tab())) && stages[|moves|] == StageOf(Tab())
            invariant handed == Hands(moves) && Pending(Tab()) <= left
            invariant acts == acts0 + Requests(script[turn][..i]) && TracedTo(trace, acts, old(Tab()), Tab())
          {
            ghost var t1 := Tab();
            stages, moves := Call(script[turn][i], stages, moves);
            ValidSized(Tab());
            DoesActed(t1, script[turn][i], Tab());
            TracedOn(trace, acts, old(Tab()), t1, Does(script[turn][i]), Tab());
            RequestsMore(script[turn], i);
            trace := trace + [Tab()];
            acts := acts + [Does(script[turn][i])];
          }
          assert script[turn][..|script[turn]|] == script[turn];
          turn := turn + 1;
        }
        SmallerSet(Pending(Tab()), left);
      }
      TracedIs(trace, acts, old(Tab()), Tab());
      BatchExactlyOnce(stages, moves);
      HandsOnce(stages, moves);
      ServedAll(stages, moves);
    }
  }

  lemma GivesActed(t: Table, v: Id, typ: int, t': Table)
    requires Sized(t) && Sized(t') && Handed(t, t', v, typ)
    ensures Acted(t, Gives(v, typ), t')
  {
  }

  lemma DoesActed(t: Table, c: Callback, t': Table)
    requires Sized(t) && Sized(t') && Called(t, c, t')
    ensures Acted(t, Does(c), t')
  {
  }

  lemma TracedIs(trace: seq<Table>, acts: seq<Act>, t0: Table, t: Table)
    requires TracedTo(trace, acts, t0, t)
    ensures Traced(trace, acts) && |trace| == |acts| + 1 && trace[0] == t0 && trace[|trace| - 1] == t
  {
  }

  ghost predicate TracedTo(trace: seq<Table>, acts: seq<Act>, t0: Table, t: Table) {
    |trace| == |acts| + 1 && Traced(trace, acts) && trace[0] == t0 && trace[|acts|] == t
  }

  lemma TracedNothing(t: Table, script: seq<seq<Callback>>)
    requires Sized(t)
    ensures TracedTo([t], [], t, t) && Interleaved([], script) == []
  {
  }

  lemma TracedOn(trace: seq<Table>, acts: seq<Act>, t0: Table, t: Table, a: Act, t': Table)
    requires TracedTo(trace, acts, t0, t) && Sized(t) && Sized(t') && Acted(t, a, t')
    ensures TracedTo(trace + [t'], acts + [a], t0, t')
  {
    hide Acted;
    TracedMore(trace, acts, a, t');
  }

  lemma Record(stages: seq<Stage>, moves: seq<Move>, m: Move, s: Stage) returns (stages': seq<Stage>, moves': seq<Move>)
    requires Ran(stages, moves) && Moved(stages[|moves|], m, s)
    ensures Ran(stages', moves') && stages'[|moves'|] == s && stages'[0] == stages[0]
    ensures Hands(moves') == Hands(moves) + match m case Hand(v) => [v] case _ => []
  {
    RanMore(stages, moves, m, s);
    stages', moves' := stages + [s], moves + [m];
    assert moves'[..|moves|] == moves;
  }

  lemma MovedPending(s: Stage, m: Move, s': Stage)
    requires Moved(s, m, s')
    ensures s'.pending <= s.pending
  {
  }

  lemma HandedLess(t: Table, t': Table, v: Id, typ: int)
    requires Sized(t) && Sized(t') && Handed(t, t', v, typ)
    ensures |Pending(t')| < |Pending(t)|
  {
    hide Pending;
    assert |Pending(t) - {v}| == |Pending(t)| - 1;
  }

  lemma SmallerSet(a: set<Id>, b: set<Id>)
    requires a <= b
    ensures |a| <= |b|
  {
    assert b == a + (b - a);
  }

  lemma CallableFacts(t: Table, v: Id)
    requires Valid(t) && v < |t.items|
    ensures Sized(t) && Permuted(t)
    ensures t.items[v].index < t.count && t.items[v].index >= 0 && t.links[t.items[v].index] == v ==> IsLive(t, v) && Known(t, v)
    ensures t.items[v].fd == -1 && t.items[v].modIter <= t.iters ==> Known(t, v)
  {
    if IsLive(t, v) { LiveKnown(t, v); }
  }

  lemma EmptyValid(t: Table)
    requires Sized(t) && t.count == 0 && forall i :: 0 <= i < |t.links| ==> t.links[i] == i
    ensures Valid(t) && Batch(t, -1) && Live(t) == {} && Pending(t) == {}
  {
  }

  lemma ValidSized(t: Table)
    requires Valid(t)
    ensures Sized(t) && Permuted(t)
  {
  }

  lemma ReadyPending(t: Table, revs: seq<int>)
    requires Valid(t) && |revs| == t.count && exists i :: 0 <= i < t.count && revs[i] != 0
    ensures Pending(Polled(t, revs)) != {}
  {
    var i :| 0 <= i < t.count && revs[i] != 0;
    assert Placed(t, i);
    assert t.links[i] in Pending(Polled(t, revs));
  }
}
