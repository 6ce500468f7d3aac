/**
  The timer list of `conev.c`: a doubly linked list threaded through the events, kept sorted by
  deadline so that the first entry is always the next one due.
*/
module Timers {
  import opened Wire
  import opened Links

  /** The `tv_ms`, `tv_prev` and `tv_next` fields of an event; a zero deadline means no timer. */
  datatype Timer = Timer(ms: int, prev: Option<Id>, next: Option<Id>)

  function NoTimer(): Timer { Timer(0, None, None) }

  /** The fields spell out the list `order`. */
  ghost predicate Threads(tv: seq<Timer>, order: seq<Id>) {
    && (forall i :: 0 <= i < |order| ==> order[i] < |tv| && tv[order[i]].ms != 0)
    && (forall i {:trigger Between(tv, order, i)} :: 0 <= i < |order| ==> Between(tv, order, i))
    && (forall e: Id :: e < |tv| && e !in order ==> tv[e] == NoTimer())
  }

  /** Entry `i` points to its two neighbours. */
  ghost predicate Between(tv: seq<Timer>, order: seq<Id>, i: nat)
    requires i < |order| && order[i] < |tv|
  {
    tv[order[i]].prev == Neighbour(order, i - 1) && tv[order[i]].next == Neighbour(order, i + 1)
  }

  /** What a wait for events brings. */
  datatype Poll = Ready(id: Id) | TimedOut | Failed

  ghost predicate Ascending(tv: seq<Timer>, order: seq<Id>) {
    && (forall i :: 0 <= i < |order| ==> order[i] < |tv|)
    && (forall i, j :: 0 <= i < j < |order| ==> tv[order[i]].ms <= tv[order[j]].ms)
  }

  ghost function Inserted(order: seq<Id>, k: nat, v: Id): seq<Id>
    requires k <= |order|
  {
    order[..k] + [v] + order[k..]
  }

  ghost function Dropped(order: seq<Id>, k: nat): seq<Id>
    requires k < |order|
  {
    order[..k] + order[k + 1..]
  }

  /** `tv'` is `tv` with `v` linked in between `prev` and `next`. */
  ghost predicate LinkedIn(tv: seq<Timer>, tv': seq<Timer>, v: Id, prev: Option<Id>, next: Option<Id>) {
    && |tv'| == |tv| && v < |tv| && tv'[v].ms != 0 && tv'[v].prev == prev && tv'[v].next == next
    && forall e: Id :: e < |tv| && e != v ==>
         tv'[e] == Timer(tv[e].ms, if next == Some(e) then Some(v) else tv[e].prev, if prev == Some(e) then Some(v) else tv[e].next)
  }

  /** `tv'` is `tv` with `v` taken out from between `prev` and `next`. */
  ghost predicate TakenOut(tv: seq<Timer>, tv': seq<Timer>, v: Id, prev: Option<Id>, next: Option<Id>) {
    && |tv'| == |tv| && v < |tv| && tv'[v] == NoTimer()
    && forall e: Id :: e < |tv| && e != v ==>
         tv'[e] == Timer(tv[e].ms, if next == Some(e) then prev else tv[e].prev, if prev == Some(e) then next else tv[e].next)
  }

  class TimerList {
    const max: nat
    var tv: seq<Timer>
    var tvStart: Option<Id>
    var tvEnd: Option<Id>
    ghost var order: seq<Id>     // the events with a timer, in list order

    ghost predicate Valid()
      reads this
    {
      && |tv| == max && Distinct(order) && Threads(tv, order) && Ascending(tv, order)
      && tvStart == Neighbour(order, 0) && tvEnd == Neighbour(order, |order| - 1)
    }

    constructor (max: nat)
      ensures Valid() && this.max == max && order == []
    {
      this.max := max;
      tv := seq(max, i => NoTimer());
      tvStart, tvEnd, order := None, None, [];
    }

    /** The loop of `set_timer`: from the end, past every deadline that is not earlier. */
    method FindPlace(deadline: int) returns (prev: Option<Id>, next: Option<Id>, ghost k: nat)
      requires Valid()
      ensures k <= |order| && prev == Neighbour(order, k - 1) && next == Neighbour(order, k)
      ensures forall i :: 0 <= i < k ==> tv[order[i]].ms < deadline
      ensures forall i :: k <= i < |order| ==> tv[order[i]].ms >= deadline
    {
      next, prev, k := None, tvEnd, |order|;
      while prev.Some? && tv[prev.value].ms >= deadline
        invariant k <= |order| && prev == Neighbour(order, k - 1) && next == Neighbour(order, k)
        invariant forall i :: k <= i < |order| ==> tv[order[i]].ms >= deadline
        decreases k
      {
        assert Between(tv, order, k - 1);
        next := prev;
        prev := tv[prev.value].prev;
        k := k - 1;
      }
    }

    /** The link edits of `set_timer`. */
    method LinkIn(val: Id, deadline: int, prev: Option<Id>, next: Option<Id>)
      requires val < |tv| && deadline != 0
      requires prev.Some? ==> prev.value < |tv| && prev.value != val && next != prev
      requires next.Some? ==> next.value < |tv| && next.value != val
      modifies this`tv, this`tvStart, this`tvEnd
      ensures LinkedIn(old(tv), tv, val, prev, next) && tv[val].ms == deadline
      ensures tvStart == if old(tvStart).None? || next == old(tvStart) then Some(val) else old(tvStart)
      ensures tvEnd == if old(tvEnd).None? || prev == old(tvEnd) then Some(val) else old(tvEnd)
    {
      tv := tv[val := Timer(deadline, prev, next)];
      if next.Some? {
        tv := tv[next.value := tv[next.value].(prev := Some(val))];
      }
      if prev.Some? {
        tv := tv[prev.value := tv[prev.value].(next := Some(val))];
      }
      if tvStart.None? || next == tvStart {
        tvStart := Some(val);
      }
      if tvEnd.None? || prev == tvEnd {
        tvEnd := Some(val);
      }
    }

    /** `set_timer`, with the deadline the clock and the delay give: an event that has a timer
        keeps it, any other takes its place in the order of the deadlines. */
    method SetTimer(val: Id, deadline: int)
      requires Valid() && val < max && deadline != 0
      modifies this
      ensures Valid()
      ensures val in old(order) ==> order == old(order) && tv == old(tv)
      ensures val !in old(order) ==>
                && tv[val].ms == deadline && (exists k: nat :: k <= |old(order)| && order == Inserted(old(order), k, val))
                && forall e: Id :: e < max && e != val ==> tv[e].ms == old(tv[e].ms)
    {
      hide Threads, Ascending, Distinct, Inserted, Neighbour, LinkedIn;
      ghost var tv0, order0 := tv, order;
      HasTimer(tv0, order0, val);
      if tv[val].ms != 0 {
        return;
      }
      var prev, next;
      ghost var k;
      prev, next, k := FindPlace(deadline);
      PlaceFacts(tv0, order0, k, val);
      LinkIn(val, deadline, prev, next);
      LinkedMs(tv0, tv, val, prev, next);
      order := Inserted(order, k, val);
      InsertedThreads(tv0, order0, k, val, tv);
      InsertedOrder(tv0, order0, k, val, deadline, tv);
      InsertedEnds(order0, k, val);
    }

    /** `remove_timer`: the event leaves the list, if it was there, and the order of the others
        stays. */
    method RemoveTimer(val: Id)
      requires Valid() && val < max
      modifies this
      ensures Valid() && tv[val] == NoTimer() && val !in order
      ensures val !in old(order) ==> order == old(order) && tv == old(tv)
      ensures forall k: nat :: k < |old(order)| && old(order)[k] == val ==> order == Dropped(old(order), k)
      ensures forall e: Id :: e < max && e != val ==> tv[e].ms == old(tv[e].ms)
    {
      hide Threads, Ascending, Distinct, Dropped, Neighbour, TakenOut;
      ghost var tv0, order0 := tv, order;
      PointsInside(tv, order, val);
      UnlinkFrom(val);
      TakenMs(tv0, tv, val, tv0[val].prev, tv0[val].next);
      if val in order0 {
        ghost var k := DroppedValid(tv0, order0, val, tv);
        order := Dropped(order0, k);
      } else {
        EndsIn(order0);
        NothingTaken(tv0, val, tv);
      }
    }

    /** The link edits of `remove_timer`. */
    method UnlinkFrom(val: Id)
      requires val < |tv|
      requires tv[val].prev.Some? ==> tv[val].prev.value < |tv| && tv[val].prev.value != val && tv[val].next != tv[val].prev
      requires tv[val].next.Some? ==> tv[val].next.value < |tv| && tv[val].next.value != val
      modifies this`tv, this`tvStart, this`tvEnd
      ensures TakenOut(old(tv), tv, val, old(tv[val].prev), old(tv[val].next))
      ensures tvStart == if old(tvStart) == Some(val) then old(tv[val].next) else old(tvStart)
      ensures tvEnd == if old(tvEnd) == Some(val) then old(tv[val].prev) else old(tvEnd)
    {
      var prev, next := tv[val].prev, tv[val].next;
      if prev.Some? {
        tv := tv[prev.value := tv[prev.value].(next := next)];
      }
      if next.Some? {
        tv := tv[next.value := tv[next.value].(prev := prev)];
      }
      if tvStart == Some(val) {
        tvStart := next;
      }
      if tvEnd == Some(val) {
        tvEnd := prev;
      }
      tv := tv[val := NoTimer()];
    }

    /** `next_event_tv` at time `now`, where `poll` is what the wait for events brings and `stale` says
        whether the type of the event before this one was a timeout. An event that is ready is handed
        out; otherwise the first timer is, if its deadline has passed, or the wait has timed out, or has
        failed without setting the type while that still says timeout. */
    method NextEventTv(now: int, poll: Poll, stale: bool) returns (val: Option<Id>, timeout: bool)
      requires Valid()
      modifies this
      ensures Valid()
      ensures var due := old(tvStart).Some? && (old(tv)[old(tvStart).value].ms <= now || poll.TimedOut? || (poll.Failed? && stale));
              if due then
                && timeout && val.Some? && old(order) == [val.value] + order
                && forall e: Id :: e in order ==> e < max && old(tv[val.value].ms) <= tv[e].ms
              else
                && order == old(order) && tv == old(tv) && val == (if poll.Ready? then Some(poll.id) else None)
                && timeout == (poll.TimedOut? || (poll.Failed? && stale))
    {
      StartIn(tv, order);
      val, timeout := None, stale;
      if tvStart.None? {
        val, timeout := Polled(poll, stale);
        return;
      }
      var ms := tv[tvStart.value].ms - now;
      if ms > 0 {
        val, timeout := Polled(poll, stale);
      } else {
        timeout := true;
      }
      if val.None? && tvStart.Some? && timeout {
        val := Expire();
      }
    }

    /** `next_event`, as far as timers go: on a failure it leaves the type alone. */
    method Polled(poll: Poll, stale: bool) returns (val: Option<Id>, timeout: bool)
      ensures val == if poll.Ready? then Some(poll.id) else None
      ensures timeout == match poll case Ready(_) => false case TimedOut => true case Failed => stale
    {
      match poll {
        case Ready(id) => val, timeout := Some(id), false;
        case TimedOut => val, timeout := None, true;
        case Failed => val, timeout := None, stale;
      }
    }

    /** The end of `next_event_tv`: the event with the first deadline is handed out, and no deadline left
        in the list is earlier. */
    method Expire() returns (val: Option<Id>)
      requires Valid()
      modifies this
      ensures Valid() && (val.None? <==> old(order) == [])
      ensures val.None? ==> order == old(order) && tv == old(tv)
      ensures val.Some? ==>
                && old(order) == [val.value] + order && val.value !in order
                && forall e: Id :: e in order ==> e < max && old(tv[val.value].ms) <= tv[e].ms
    {
      assert order != [] ==> Neighbour(order, 0).Some?;
      val := tvStart;
      if val.Some? {
        FirstDue(tv, order);
        hide Threads, Ascending, Distinct, Dropped, Neighbour;
        RemoveTimer(val.value);
      }
    }
  }

  lemma HasTimer(tv: seq<Timer>, order: seq<Id>, val: Id)
    requires Threads(tv, order) && val < |tv|
    ensures tv[val].ms != 0 <==> val in order
  {
  }

  lemma PlaceFacts(tv: seq<Timer>, order: seq<Id>, k: nat, val: Id)
    requires Distinct(order) && Threads(tv, order) && k <= |order| && val !in order
    ensures var prev, next := Neighbour(order, k - 1), Neighbour(order, k);
            && (prev.Some? ==> prev.value < |tv| && prev.value != val && next != prev)
            && (next.Some? ==> next.value < |tv| && next.value != val)
  {
  }

  lemma InsertedEnds(order: seq<Id>, k: nat, v: Id)
    requires k <= |order| && Distinct(order)
    ensures var o, first, last := Inserted(order, k, v), Neighbour(order, 0), Neighbour(order, |order| - 1);
            && Neighbour(o, 0) == (if first.None? || Neighbour(order, k) == first then Some(v) else first)
            && Neighbour(o, |o| - 1) == (if last.None? || Neighbour(order, k - 1) == last then Some(v) else last)
  {
  }

  lemma DroppedEnds(order: seq<Id>, k: nat)
    requires k < |order| && Distinct(order)
    ensures var o, first, last := Dropped(order, k), Neighbour(order, 0), Neighbour(order, |order| - 1);
            && Neighbour(o, 0) == (if first == Some(order[k]) then Neighbour(order, k + 1) else first)
            && Neighbour(o, |o| - 1) == (if last == Some(order[k]) then Neighbour(order, k - 1) else last)
  {
  }

  lemma DroppedValid(tv: seq<Timer>, order: seq<Id>, val: Id, tv': seq<Timer>) returns (k: nat)
    requires Distinct(order) && Threads(tv, order) && Ascending(tv, order) && val in order && val < |tv|
    requires TakenOut(tv, tv', val, tv[val].prev, tv[val].next)
    ensures k < |order| && order[k] == val && (forall j: nat :: j < |order| && order[j] == val ==> j == k)
    ensures var o, first, last := Dropped(order, k), Neighbour(order, 0), Neighbour(order, |order| - 1);
            && Distinct(o) && Threads(tv', o) && Ascending(tv', o) && val !in o
            && Neighbour(o, 0) == (if first == Some(val) then tv[val].next else first)
            && Neighbour(o, |o| - 1) == (if last == Some(val) then tv[val].prev else last)
  {
    k :| 0 <= k < |order| && order[k] == val;
    hide *;
    ThreadsAt(tv, order, k);
    BetweenIs(tv, order, k);
    OnlyPlace(order, k);
    TakenMs(tv, tv', val, tv[val].prev, tv[val].next);
    DroppedThreads(tv, order, k, tv');
    DroppedOrder(tv, order, k, tv');
    DroppedIn(order, k);
    DroppedEnds(order, k);
  }

  lemma BetweenIs(tv: seq<Timer>, order: seq<Id>, i: nat)
    requires i < |order| && order[i] < |tv| && Between(tv, order, i)
    ensures tv[order[i]].prev == Neighbour(order, i - 1) && tv[order[i]].next == Neighbour(order, i + 1)
  {
  }

  lemma TakenMs(tv: seq<Timer>, tv': seq<Timer>, v: Id, prev: Option<Id>, next: Option<Id>)
    requires TakenOut(tv, tv', v, prev, next)
    ensures |tv'| == |tv| && v < |tv| && tv'[v] == NoTimer()
    ensures forall e: Id :: e < |tv| && e != v ==> tv'[e].ms == tv[e].ms
  {
  }

  lemma LinkedMs(tv: seq<Timer>, tv': seq<Timer>, v: Id, prev: Option<Id>, next: Option<Id>)
    requires LinkedIn(tv, tv', v, prev, next)
    ensures |tv'| == |tv| && v < |tv| && forall e: Id :: e < |tv| && e != v ==> tv'[e].ms == tv[e].ms
  {
  }

  lemma NothingTaken(tv: seq<Timer>, v: Id, tv': seq<Timer>)
    requires v < |tv| && tv[v] == NoTimer() && TakenOut(tv, tv', v, None, None)
    ensures tv' == tv
  {
  }

  lemma StartIn(tv: seq<Timer>, order: seq<Id>)
    requires Threads(tv, order)
    ensures Neighbour(order, 0).Some? ==> Neighbour(order, 0).value < |tv| && order != []
    ensures Neighbour(order, 0).None? ==> order == []
  {
  }

  lemma FirstDue(tv: seq<Timer>, order: seq<Id>)
    requires Distinct(order) && Ascending(tv, order) && order != []
    ensures Neighbour(order, 0) == Some(order[0]) && order[0] < |tv| && order == [order[0]] + Dropped(order, 0)
    ensures forall e :: e in Dropped(order, 0) ==> e < |tv| && e != order[0] && tv[order[0]].ms <= tv[e].ms
  {
    assert Dropped(order, 0) == order[1..];
  }

  lemma EndsIn(order: seq<Id>)
    ensures Neighbour(order, 0).Some? ==> Neighbour(order, 0).value in order
    ensures Neighbour(order, |order| - 1).Some? ==> Neighbour(order, |order| - 1).value in order
  {
  }

  lemma OnlyPlace(order: seq<Id>, k: nat)
    requires k < |order| && Distinct(order)
    ensures forall j: nat :: j < |order| && order[j] == order[k] ==> j == k
  {
  }

  lemma InsertedAt(order: seq<Id>, k: nat, v: Id)
    requires k <= |order|
    ensures var o := Inserted(order, k, v);
            && |o| == |order| + 1
            && (forall i :: 0 <= i < k ==> o[i] == order[i])
            && o[k] == v
            && (forall i :: k < i < |o| ==> o[i] == order[i - 1])
  {
  }

  lemma InsertedIn(order: seq<Id>, k: nat, v: Id)
    requires k <= |order|
    ensures forall e :: e in Inserted(order, k, v) <==> e == v || e in order
  {
    assert order == order[..k] + order[k..];
  }

  lemma InsertedOrder(tv: seq<Timer>, order: seq<Id>, k: nat, v: Id, ms: int, tv': seq<Timer>)
    requires Distinct(order) && Ascending(tv, order) && k <= |order| && v < |tv| && v !in order
    requires forall i :: 0 <= i < k ==> tv[order[i]].ms < ms
    requires forall i :: k <= i < |order| ==> tv[order[i]].ms >= ms
    requires |tv'| == |tv| && tv'[v].ms == ms && forall e: Id :: e < |tv| && e != v ==> tv'[e].ms == tv[e].ms
    ensures var o := Inserted(order, k, v); Distinct(o) && Ascending(tv', o)
  {
    InsertedAt(order, k, v);
    hide Inserted;
    var o := Inserted(order, k, v);
    forall i, j | 0 <= i < j < |o| ensures o[i] != o[j] && o[i] < |tv| && o[j] < |tv| && tv'[o[i]].ms <= tv'[o[j]].ms {
    }
  }

  lemma InsertedThreads(tv: seq<Timer>, order: seq<Id>, k: nat, v: Id, tv': seq<Timer>)
    requires Distinct(order) && Threads(tv, order) && k <= |order| && v < |tv| && v !in order
    requires LinkedIn(tv, tv', v, Neighbour(order, k - 1), Neighbour(order, k))
    ensures Threads(tv', Inserted(order, k, v))
  {
    var o := Inserted(order, k, v);
    InsertedAt(order, k, v);
    InsertedIn(order, k, v);
    hide Inserted;
    forall i | 0 <= i < |o| ensures o[i] < |tv| && tv'[o[i]].ms != 0 && Between(tv', o, i) {
      InsertedBetween(tv, order, k, v, tv', i);
    }
  }

  lemma ThreadsAt(tv: seq<Timer>, order: seq<Id>, i: nat)
    requires Threads(tv, order) && i < |order|
    ensures order[i] < |tv| && order[i] in order && tv[order[i]].ms != 0 && Between(tv, order, i)
  {
  }

  lemma InsertedNeighbour(order: seq<Id>, k: nat, v: Id, i: int)
    requires k <= |order|
    ensures Neighbour(Inserted(order, k, v), i) == if i < k then Neighbour(order, i) else if i == k then Some(v) else Neighbour(order, i - 1)
  {
  }

  lemma InsertedBetween(tv: seq<Timer>, order: seq<Id>, k: nat, v: Id, tv': seq<Timer>, i: nat)
    requires Distinct(order) && Threads(tv, order) && k <= |order| && v < |tv| && v !in order && i <= |order|
    requires LinkedIn(tv, tv', v, Neighbour(order, k - 1), Neighbour(order, k))
    ensures var o := Inserted(order, k, v);
            && |o| == |order| + 1 && o[i] < |tv| && tv'[o[i]].ms != 0 && Between(tv', o, i)
  {
    hide Inserted, Neighbour, Distinct, Threads;
    var o := Inserted(order, k, v);
    InsertedAt(order, k, v);
    InsertedNeighbour(order, k, v, i - 1);
    InsertedNeighbour(order, k, v, i + 1);
    if i != k {
      var j := if i < k then i else i - 1;
      assert o[i] == order[j];
      ThreadsAt(tv, order, j);
      NeighbourIs(order, j, k);
      NeighbourIs(order, j, k - 1);
    }
  }

  lemma DroppedAt(order: seq<Id>, k: nat)
    requires k < |order|
    ensures var o := Dropped(order, k);
            && |o| == |order| - 1
            && (forall i :: 0 <= i < k ==> o[i] == order[i])
            && (forall i :: k <= i < |o| ==> o[i] == order[i + 1])
  {
  }

  lemma DroppedIn(order: seq<Id>, k: nat)
    requires k < |order| && Distinct(order)
    ensures forall e :: e in Dropped(order, k) <==> e != order[k] && e in order
  {
    assert order == order[..k] + [order[k]] + order[k + 1..];
  }

  lemma DroppedOrder(tv: seq<Timer>, order: seq<Id>, k: nat, tv': seq<Timer>)
    requires Distinct(order) && Ascending(tv, order) && k < |order|
    requires |tv'| == |tv| && forall e: Id :: e < |tv| && e != order[k] ==> tv'[e].ms == tv[e].ms
    ensures var o := Dropped(order, k); Distinct(o) && Ascending(tv', o)
  {
    DroppedAt(order, k);
    hide Dropped;
  }

  lemma DroppedThreads(tv: seq<Timer>, order: seq<Id>, k: nat, tv': seq<Timer>)
    requires Distinct(order) && Threads(tv, order) && k < |order|
    requires TakenOut(tv, tv', order[k], Neighbour(order, k - 1), Neighbour(order, k + 1))
    ensures Threads(tv', Dropped(order, k))
  {
    var o := Dropped(order, k);
    DroppedAt(order, k);
    DroppedIn(order, k);
    hide Dropped;
    forall i | 0 <= i < |o| ensures o[i] < |tv| && tv'[o[i]].ms != 0 && Between(tv', o, i) {
      DroppedBetween(tv, order, k, tv', i);
    }
  }

  lemma DroppedNeighbour(order: seq<Id>, k: nat, i: int)
    requires k < |order|
    ensures Neighbour(Dropped(order, k), i) == Neighbour(order, if i < k then i else i + 1)
  {
  }

  lemma DroppedBetween(tv: seq<Timer>, order: seq<Id>, k: nat, tv': seq<Timer>, i: nat)
    requires Distinct(order) && Threads(tv, order) && k < |order| && i < |order| - 1
    requires TakenOut(tv, tv', order[k], Neighbour(order, k - 1), Neighbour(order, k + 1))
    ensures var o := Dropped(order, k);
            && |o| == |order| - 1 && o[i] < |tv| && tv'[o[i]].ms != 0 && Between(tv', o, i)
  {
    var o := Dropped(order, k);
    var j := if i < k then i else i + 1;
    OnlyPlace(order, k);
    DroppedAt(order, k);
    hide Dropped, Neighbour, Distinct, Threads;
    DroppedNeighbour(order, k, i - 1);
    DroppedNeighbour(order, k, i + 1);
    assert o[i] == order[j];
    ThreadsAt(tv, order, j);
    NeighbourIs(order, j, k + 1);
    NeighbourIs(order, j, k - 1);
  }

  /** The links of an entry lead to other entries. */
  lemma PointsInside(tv: seq<Timer>, order: seq<Id>, val: Id)
    requires Distinct(order) && Threads(tv, order) && val < |tv|
    ensures tv[val].prev.Some? ==> tv[val].prev.value < |tv| && tv[val].prev.value != val && tv[val].next != tv[val].prev
    ensures tv[val].next.Some? ==> tv[val].next.value < |tv| && tv[val].next.value != val
    ensures val !in order ==> tv[val] == NoTimer()
  {
    NeighboursIn(tv, order, val);
  }

  /** Where the neighbours of an entry are. */
  lemma NeighboursIn(tv: seq<Timer>, order: seq<Id>, val: Id)
    requires Distinct(order) && Threads(tv, order) && val < |tv|
    ensures tv[val].prev.Some? ==> tv[val].prev.value < |tv| && tv[val].prev.value != val
    ensures tv[val].next.Some? ==> tv[val].next.value < |tv| && tv[val].next.value != val
    ensures tv[val].next.Some? ==> tv[val].next != tv[val].prev
    ensures val !in order ==> tv[val] == NoTimer()
    ensures forall k: nat :: k < |order| && order[k] == val ==>
              tv[val].prev == Neighbour(order, k - 1) && tv[val].next == Neighbour(order, k + 1)
  {
    if val in order {
      var k :| 0 <= k < |order| && order[k] == val;
      assert Between(tv, order, k);
    }
  }
}
