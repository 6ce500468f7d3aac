/**
  The groups of desync parameters of `extend.c`: a doubly linked list that triggers reorder, searched
  for the next group a client has not tried yet. With at most 31 groups the bits `1 << id` are all
  different, so that a mask of bits is a set of groups.
*/
module Groups {
  import opened Wire
  import opened Links

  const ON_RECONN: nat := 0     // bits of `auto_level`
  const NO_RECONN: nat := 1
  const SORT: nat := 2

  /** Entry `i` of the order points to its two neighbours. */
  ghost predicate Between(next: seq<Option<Id>>, prev: seq<Option<Id>>, order: seq<Id>, i: nat)
    requires i < |order| && order[i] < |next| && order[i] < |prev|
  {
    next[order[i]] == Neighbour(order, i + 1) && prev[order[i]] == Neighbour(order, i - 1)
  }

  ghost predicate Threaded(next: seq<Option<Id>>, prev: seq<Option<Id>>, order: seq<Id>) {
    && |next| == |prev| == |order| && (forall i :: 0 <= i < |order| ==> order[i] < |order|)
    && forall i {:trigger Between(next, prev, order, i)} :: 0 <= i < |order| ==> Between(next, prev, order, i)
  }

  ghost function Swapped(order: seq<Id>, i: nat, j: nat): seq<Id>
    requires i < |order| && j < |order|
  {
    order[i := order[j]][j := order[i]]
  }

  /** The links after `swop_groups`. */
  ghost predicate Relinked(next: seq<Option<Id>>, prev: seq<Option<Id>>, next': seq<Option<Id>>, prev': seq<Option<Id>>, c: Id, d: Id)
    requires |next| == |prev| && c < |next| && d < |next|
  {
    && |next'| == |prev'| == |next|
    && var touching := next[c] == Some(d);
    && next'[c] == next[d] && prev'[d] == prev[c]
    && next'[d] == (if touching then Some(c) else next[c]) && prev'[c] == (if touching then Some(d) else prev[d])
    && (forall e: Id {:trigger Repointed(next, prev, next', prev', c, d, e)} ::
          e < |next| && e != c && e != d ==> Repointed(next, prev, next', prev', c, d, e))
  }

  /** What becomes of the links of a third entry. */
  ghost predicate Repointed(next: seq<Option<Id>>, prev: seq<Option<Id>>, next': seq<Option<Id>>, prev': seq<Option<Id>>, c: Id, d: Id, e: Id)
    requires |next| == |prev| == |next'| == |prev'| && c < |next| && d < |next| && e < |next|
  {
    && next'[e] == (if prev[c] == Some(e) then Some(d) else if prev[d] == Some(e) then Some(c) else next[e])
    && prev'[e] == (if next[d] == Some(e) then Some(c) else if next[c] == Some(e) then Some(d) else prev[e])
  }

  lemma SwappedAt(order: seq<Id>, i: nat, j: nat, k: int)
    requires i < j < |order|
    ensures Neighbour(Swapped(order, i, j), k)
         == if k == i then Some(order[j]) else if k == j then Some(order[i]) else Neighbour(order, k)
  {
  }

  /** The entry that moves to the front. */
  lemma RelinkedFirst(next: seq<Option<Id>>, prev: seq<Option<Id>>, next': seq<Option<Id>>, prev': seq<Option<Id>>, order: seq<Id>, i: nat, j: nat)
    requires Distinct(order) && Threaded(next, prev, order) && i < j < |order|
    requires Relinked(next, prev, next', prev', order[i], order[j])
    ensures var o := Swapped(order, i, j); order[j] < |next'| == |prev'| && next'[order[j]] == Neighbour(o, i + 1) && prev'[order[j]] == Neighbour(o, i - 1)
  {
    hide Neighbour, Distinct, Swapped, Threaded;
    ThreadedAt(next, prev, order, i);
    ThreadedAt(next, prev, order, j);
    SwappedAt(order, i, j, i - 1);
    SwappedAt(order, i, j, i + 1);
    NeighbourIs(order, j, i + 1);
  }

  /** The entry that moves to the back. */
  lemma RelinkedSecond(next: seq<Option<Id>>, prev: seq<Option<Id>>, next': seq<Option<Id>>, prev': seq<Option<Id>>, order: seq<Id>, i: nat, j: nat)
    requires Distinct(order) && Threaded(next, prev, order) && i < j < |order|
    requires Relinked(next, prev, next', prev', order[i], order[j])
    ensures var o := Swapped(order, i, j); order[i] < |next'| == |prev'| && next'[order[i]] == Neighbour(o, j + 1) && prev'[order[i]] == Neighbour(o, j - 1)
  {
    hide Neighbour, Distinct, Swapped, Threaded;
    ThreadedAt(next, prev, order, i);
    ThreadedAt(next, prev, order, j);
    SwappedAt(order, i, j, j - 1);
    SwappedAt(order, i, j, j + 1);
    NeighbourIs(order, j, i + 1);
  }

  /** The entries that stay. */
  lemma RelinkedOther(next: seq<Option<Id>>, prev: seq<Option<Id>>, next': seq<Option<Id>>, prev': seq<Option<Id>>, order: seq<Id>, i: nat, j: nat, k: nat)
    requires Distinct(order) && Threaded(next, prev, order) && i < j < |order|
    requires Relinked(next, prev, next', prev', order[i], order[j])
    requires k < |order| && k != i && k != j
    ensures var o := Swapped(order, i, j); order[k] < |next'| == |prev'| && next'[order[k]] == Neighbour(o, k + 1) && prev'[order[k]] == Neighbour(o, k - 1)
  {
    hide Neighbour, Distinct, Swapped, Threaded;
    SwappedIs(order, i, j, k);
    ThreadedAt(next, prev, order, i);
    ThreadedAt(next, prev, order, j);
    ThreadedAt(next, prev, order, k);
    assert Repointed(next, prev, next', prev', order[i], order[j], order[k]);
    SwappedAt(order, i, j, k - 1);
    SwappedAt(order, i, j, k + 1);
    NeighbourIs(order, k, i - 1);
    NeighbourIs(order, k, i + 1);
    NeighbourIs(order, k, j - 1);
    NeighbourIs(order, k, j + 1);
  }

  lemma SwappedIs(order: seq<Id>, i: nat, j: nat, k: nat)
    requires Distinct(order) && i < j < |order| && k < |order|
    ensures var o := Swapped(order, i, j);
            && |o| == |order| && o[k] == (if k == i then order[j] else if k == j then order[i] else order[k])
            && (k != i && k != j ==> o[k] != order[i] && o[k] != order[j]) && order[i] != order[j]
  {
  }

  lemma ThreadedAt(next: seq<Option<Id>>, prev: seq<Option<Id>>, order: seq<Id>, i: nat)
    requires Threaded(next, prev, order) && i < |order|
    ensures |next| == |prev| == |order| && order[i] < |order|
    ensures next[order[i]] == Neighbour(order, i + 1) && prev[order[i]] == Neighbour(order, i - 1)
  {
    assert Between(next, prev, order, i);
  }

  lemma RelinkedThreaded(next: seq<Option<Id>>, prev: seq<Option<Id>>, next': seq<Option<Id>>, prev': seq<Option<Id>>, order: seq<Id>, i: nat, j: nat)
    requires Distinct(order) && Threaded(next, prev, order) && i < j < |order|
    requires Relinked(next, prev, next', prev', order[i], order[j])
    ensures Threaded(next', prev', Swapped(order, i, j))
  {
    var o := Swapped(order, i, j);
    ThreadedAt(next, prev, order, i);
    forall k | 0 <= k < |o| ensures o[k] < |order| && Between(next', prev', o, k) {
      SwappedIs(order, i, j, k);
      if k == i {
        RelinkedFirst(next, prev, next', prev', order, i, j);
      } else if k == j {
        RelinkedSecond(next, prev, next', prev', order, i, j);
      } else {
        RelinkedOther(next, prev, next', prev', order, i, j, k);
      }
    }
  }

  // ----- searching

  /** What makes a group eligible for a client, apart from its mask: its detect flags, and whether
      address, protocol and host fit. */
  datatype Wants = Wants(init: Option<Id>, detect: set<nat>, fits: Id -> bool)

  predicate Eligible(w: Wants, detect: set<nat>, d: Id) {
    (w.init == Some(d) || detect == {} || w.detect * detect != {}) && w.fits(d)
  }

  /** The list from position `a` on and round to it again. */
  ghost function Round(order: seq<Id>, a: nat): (ro: seq<Id>)
    requires a <= |order|
    ensures |ro| == |order| && forall j :: 0 <= j < |order| ==> ro[j] == order[if a + j < |order| then a + j else a + j - |order|]
  {
    order[a..] + order[..a]
  }

  /** The group at place `j` is outside the mask and eligible. */
  ghost predicate Wanted(ro: seq<Id>, detect: seq<set<nat>>, w: Wants, mask: set<Id>, j: nat)
    requires j < |ro|
  {
    ro[j] !in mask && ro[j] < |detect| && Eligible(w, detect[ro[j]], ro[j])
  }

  /** What a search that starts at place 0 of `ro` finds, and what it adds to the mask: the first group that is
      wanted, and all in front of it. */
  ghost predicate FirstWanted(ro: seq<Id>, detect: seq<set<nat>>, w: Wants, mask: set<Id>, r: Option<Id>, mask': set<Id>) {
    match r
    case None => mask' == mask + Members(ro) && forall j :: 0 <= j < |ro| ==> !Wanted(ro, detect, w, mask, j)
    case Some(d) =>
      exists j: nat :: j < |ro| && d == ro[j] && Wanted(ro, detect, w, mask, j) && mask' == mask + Members(ro[..j])
        && forall i :: 0 <= i < j ==> !Wanted(ro, detect, w, mask, i)
  }

  /** The group at position `k` suits a trigger: it has not been tried, it is without detect flags or has one of
      the trigger, and it does not wait for a reconnection that cannot be. */
  ghost predicate Suits(order: seq<Id>, detect: seq<set<nat>>, level: seq<set<nat>>, mask: set<Id>, type_: set<nat>, canReconn: bool, k: nat)
    requires k < |order|
  {
    && order[k] !in mask && order[k] < |detect| && order[k] < |level|
    && (detect[order[k]] == {} || detect[order[k]] * type_ != {}) && (0 in level[order[k]] ==> canReconn)
  }

  /** All groups that have been tried come before position `k`, and the one there has no detect flags. */
  ghost predicate GivesUp(order: seq<Id>, detect: seq<set<nat>>, mask: set<Id>, k: nat)
    requires k < |order|
  {
    mask <= Members(order[..k]) && order[k] < |detect| && detect[order[k]] == {}
  }

  /** The search ends at position `k`: the first at which a group suits or the search gives up, or the end. */
  ghost predicate EndsAt(order: seq<Id>, detect: seq<set<nat>>, level: seq<set<nat>>, mask: set<Id>, type_: set<nat>, canReconn: bool, k: nat) {
    && k <= |order|
    && (k < |order| ==> Suits(order, detect, level, mask, type_, canReconn, k) || GivesUp(order, detect, mask, k))
    && forall j :: 0 <= j < k ==> !Suits(order, detect, level, mask, type_, canReconn, j) && !GivesUp(order, detect, mask, j)
  }

  ghost function FoundAt(order: seq<Id>, detect: seq<set<nat>>, mask: set<Id>, k: nat): (found: Option<Id>)
    ensures found == if k < |order| && !GivesUp(order, detect, mask, k) then Some(order[k]) else None
  {
    if k < |order| && !GivesUp(order, detect, mask, k) then Some(order[k]) else None
  }

  lemma EndsOnce(order: seq<Id>, detect: seq<set<nat>>, level: seq<set<nat>>, mask: set<Id>, type_: set<nat>, canReconn: bool, k: nat, k': nat)
    requires EndsAt(order, detect, level, mask, type_, canReconn, k) && EndsAt(order, detect, level, mask, type_, canReconn, k')
    ensures k == k'
  {
  }

  /** So a group is found exactly if it is the first that suits, and the search has not given up at it or before. */
  lemma FoundIff(order: seq<Id>, detect: seq<set<nat>>, level: seq<set<nat>>, mask: set<Id>, type_: set<nat>, canReconn: bool, k: nat, i: nat)
    requires EndsAt(order, detect, level, mask, type_, canReconn, k) && Distinct(order) && i < |order|
    ensures FoundAt(order, detect, mask, k) == Some(order[i]) <==>
              && Suits(order, detect, level, mask, type_, canReconn, i)
              && (forall j :: 0 <= j < i ==> !Suits(order, detect, level, mask, type_, canReconn, j))
              && (forall j :: 0 <= j <= i ==> !GivesUp(order, detect, mask, j))
  {
    hide Suits, GivesUp;
    if k < |order| && !GivesUp(order, detect, mask, k) && order[k] == order[i] { assert i == k; }
  }

  class GroupList {
    const n: nat
    var head: Option<Id>                  // `params.dp`
    var next: seq<Option<Id>>
    var prev: seq<Option<Id>>
    var detect: seq<set<nat>>
    var autoLevel: seq<set<nat>>
    var pri: seq<int>
    var fullMask: set<Id>                 // `params.dp_full_mask`
    ghost var order: seq<Id>

    ghost predicate Valid()
      reads this
    {
      && |order| == n == |detect| == |autoLevel| == |pri| && 0 < n <= 31
      && Distinct(order) && Threaded(next, prev, order) && head == Neighbour(order, 0)
      && fullMask == Members(order)
    }

    /** `add_group`, for the whole command line: `n` groups in the order of their numbers. */
    constructor (n: nat, detect: seq<set<nat>>, autoLevel: seq<set<nat>>)
      requires 0 < n <= 31 && |detect| == |autoLevel| == n
      ensures Valid() && this.n == n && order == seq(n, i => i)
    {
      this.n := n;
      head := Some(0);
      next := seq(n, i => if i + 1 < n then Some(i + 1) else None);
      prev := seq(n, i => if i > 0 then Some(i - 1) else None);
      this.detect, this.autoLevel, pri := detect, autoLevel, seq(n, _ => 0);
      var ids: seq<Id> := seq(n, i => i);
      fullMask := set d | d in ids;
      order := ids;
    }

    /** The links part of `swop_groups`. */
    method Relink(dpc: Id, dpn: Id)
      requires |next| == |prev| && CanRelink(next, prev, dpc, dpn)
      modifies this`next, this`prev
      ensures Relinked(old(next), old(prev), next, prev, dpc, dpn)
    {
      ghost var next0, prev0 := next, prev;
      var cNext, cPrev := next[dpc], prev[dpc];
      next := next[dpc := next[dpn]];
      prev := prev[dpc := prev[dpn]];
      prev := prev[dpn := cPrev];
      next := next[dpn := cNext];
      if prev[dpn].Some? {
        next := next[prev[dpn].value := Some(dpn)];
      }
      if next[dpc].Some? {
        prev := prev[next[dpc].value := Some(dpc)];
      }
      if cNext != Some(dpn) {
        prev := prev[next[dpn].value := Some(dpn)];
        next := next[prev[dpc].value := Some(dpc)];
      } else {
        prev := prev[dpc := Some(dpn)];
        next := next[dpn := Some(dpc)];
      }
      forall e: Id | e < |next0| && e != dpc && e != dpn ensures Repointed(next0, prev0, next, prev, dpc, dpn, e) { }
    }

    /** `swop_groups`: the two groups change places, while detect flags and level stay where they are. */
    method Swop(dpc: Id, dpn: Id, ghost i: nat, ghost j: nat)
      requires Valid() && i < j < n && order[i] == dpc && order[j] == dpn
      modifies this`next, this`prev, this`detect, this`autoLevel, this`head, this`order
      ensures Valid() && order == Swapped(old(order), i, j)
      ensures ByPosition(old(order), old(detect), order, detect) && ByPosition(old(order), old(autoLevel), order, autoLevel)
    {
      hide Threaded, Distinct, Neighbour, Swapped, Relinked, CanRelink, ByPosition;
      SwopFacts(next, prev, order, i, j);
      RelinkFacts(order, i, j);
      ByPositionSwap(order, detect, i, j);
      ByPositionSwap(order, autoLevel, i, j);
      ghost var next0, prev0 := next, prev;
      Relink(dpc, dpn);
      RelinkedThreaded(next0, prev0, next, prev, order, i, j);
      detect := detect[dpc := detect[dpn]][dpn := detect[dpc]];
      autoLevel := autoLevel[dpc := autoLevel[dpn]][dpn := autoLevel[dpc]];
      if head == Some(dpc) {
        head := Some(dpn);
      }
      order := Swapped(order, i, j);
    }

    /** `find_dp`: the first eligible group outside the mask, from the client's own group on and round
        the list. Whatever it passes over is added to the mask. It ends: once round, all are. */
    method FindDp(client: Client, fits: Id -> bool) returns (r: Option<Id>)
      requires Valid() && client.mask <= fullMask && (client.dp.Some? ==> client.dp.value in fullMask)
      modifies client`mask
      ensures old(client.mask) <= client.mask <= fullMask
      ensures FirstWanted(Round(order, StartAt(order, client.dp)), detect, client.Wish(fits), old(client.mask), r, client.mask)
      ensures r.Some? ==> r.value in fullMask && r.value !in client.mask && r.value < n && Eligible(client.Wish(fits), detect[r.value], r.value)
      ensures forall d :: d in client.mask && d !in old(client.mask) ==> d < n && !Eligible(client.Wish(fits), detect[d], d)
      ensures r.None? ==> client.mask == fullMask
    {
      hide Threaded, Distinct, Members, Searched, Eligible, Wanted, FirstWanted;
      ghost var a := StartAt(order, client.dp);
      ghost var q, wrapped := 0, false;
      ghost var ro, w, mask0 := Round(order, a), client.Wish(fits), client.mask;
      var dp, initDp := client.dp, client.dp;
      MembersBound(next, prev, order);
      SearchedNone(ro, detect, w, client.mask);
      RoundMembers(order, a);
      while true
        invariant q <= n && dp == Neighbour(order, if wrapped then a + q - n else a + q) && (if wrapped then a + q >= n else a + q <= n)
        invariant mask0 <= client.mask <= fullMask && client.Wish(fits) == w
        invariant Searched(ro, detect, w, mask0, q, client.mask)
        decreases n - q
      {
        ghost var p := if wrapped then a + q - n else a + q;
        if dp.None? {
          wrapped, p := true, 0;
          dp := head;
        }
        if client.mask == fullMask {
          SearchedAll(ro, detect, w, mask0, q, client.mask, order, a);
          return None;
        }
        SearchedRoom(ro, detect, w, mask0, q, client.mask, order, a);
        assert p == (if wrapped then a + q - n else a + q) && dp == Neighbour(order, p);
        var d := dp.value;
        ThreadedAt(next, prev, order, p);
        IsMember(order, p);
        EligibleIs(w, detect[d], d);
        assert d == ro[q];
        if d !in client.mask
            && (initDp == Some(d) || detect[d] == {} || client.detect * detect[d] != {})
            && fits(d) {
          SearchedHit(ro, detect, w, mask0, q, client.mask);
          return Some(d);
        }
        SearchedMore(ro, detect, w, mask0, q, client.mask, order, a);
        client.mask := client.mask + {d};
        dp := next[d];
        q := q + 1;
      }
    }

    /** The loop of `on_trigger`: from the head of the list past every group that has been tried or
        will not do. */
    method NextGroup(client: Client, type_: set<nat>, canReconn: bool) returns (found: Option<Id>, unchecked: set<Id>, ghost k: nat)
      requires Valid() && client.mask <= fullMask
      modifies client`mask
      ensures k <= n && client.mask == old(client.mask) + Members(order[..k]) <= fullMask
      ensures unchecked == old(client.mask) - Members(order[..k])
      ensures EndsAt(order, detect, autoLevel, old(client.mask), type_, canReconn, k) && found == FoundAt(order, detect, old(client.mask), k)
      ensures found.Some? ==> k < n && found.value == order[k] && found.value !in client.mask
    {
      hide Threaded, Distinct, Suits, GivesUp;
      MembersBound(next, prev, order);
      ghost var mask0 := client.mask;
      unchecked, found, k := client.mask, None, 0;
      var dp := head;
      assert order[..0] == [];
      while dp.Some?
        invariant k <= n && dp == Neighbour(order, k) && found.None?
        invariant client.mask == old(client.mask) + Members(order[..k]) <= fullMask
        invariant unchecked == old(client.mask) - Members(order[..k])
        invariant forall j :: 0 <= j < k ==> !Suits(order, detect, autoLevel, mask0, type_, canReconn, j) && !GivesUp(order, detect, mask0, j)
        decreases n - k
      {
        var d := dp.value;
        ThreadedAt(next, prev, order, k);
        StepAt(order, detect, autoLevel, mask0, type_, canReconn, k, unchecked, client.mask);
        if unchecked == {} && detect[d] == {} {
          break;
        }
        if d !in client.mask && (detect[d] == {} || detect[d] * type_ != {}) && (ON_RECONN !in autoLevel[d] || canReconn) {
          found := Some(d);
          break;
        }
        unchecked := unchecked - {d};
        client.mask := client.mask + {d};
        MembersSnoc(order, 0, k);
        dp := next[d];
        k := k + 1;
      }
    }

    /** The middle of `on_trigger`: a group that failed oftener changes places with the one found. */
    method Resort(lav: Id, found: Option<Id>, unchecked: set<Id>, ghost k: nat)
      requires Valid() && lav in fullMask && k <= n && (lav !in unchecked ==> lav in Members(order[..k]))
      requires found.Some? ==> k < n && found.value == order[k]
      modifies this`next, this`prev, this`detect, this`autoLevel, this`head, this`order, this`pri
      ensures Valid() && Reordered(old(order), order, lav, found)
      ensures ByPosition(old(order), old(detect), order, detect) && ByPosition(old(order), old(autoLevel), order, autoLevel)
      ensures pri == old(pri)[lav := old(pri)[lav] + 1]
      ensures found.Some? && found.value < n ==>
                if SORT in old(autoLevel)[found.value] && old(pri)[lav] > old(pri)[found.value] && lav !in unchecked
                then k < n && exists i: nat :: i < k && old(order)[i] == lav && order == Swapped(old(order), i, k)
                else order == old(order) && detect == old(detect) && autoLevel == old(autoLevel)
      ensures found.None? ==> order == old(order) && detect == old(detect) && autoLevel == old(autoLevel)
    {
      MembersBound(next, prev, order);
      SamePositions(order, detect);
      SamePositions(order, autoLevel);
      hide Threaded, Distinct, Neighbour, Swapped, ByPosition;
      if found.Some? && SORT in autoLevel[found.value] && pri[lav] > pri[found.value] && lav !in unchecked {
        ghost var i :| 0 <= i < k && order[i] == lav;
        Swop(lav, found.value, i, k);
      }
      pri := pri[lav := pri[lav] + 1];
    }

    /** `on_trigger`, up to the reconnect: the client's own group and all that were passed over join
        its mask, and the group found is the first that suits. A group that has failed more often than the one
        found changes places with it, if it is earlier in the list and that one asks for it; never the other
        way round. Then the group found has the levels of the one that failed, also where they say
        whether to reconnect. */
    method OnTrigger(client: Client, type_: set<nat>, canReconn: bool, cacheMask: set<Id>)
        returns (found: Option<Id>, reconnect: bool, cacheMask': set<Id>, cacheDp: Option<Id>, ghost k: nat)
      requires Valid() && client.mask <= fullMask && client.dp.Some? && client.dp.value in fullMask
      modifies client`mask, client`detect, this`next, this`prev, this`detect, this`autoLevel, this`head, this`order, this`pri
      ensures Valid()
      ensures old(client.mask) + {client.dp.value} <= client.mask <= fullMask
      ensures found.Some? ==> found.value in fullMask && found.value !in client.mask
      ensures var tried := old(client.mask) + {client.dp.value};
              && EndsAt(old(order), old(detect), old(autoLevel), tried, type_, canReconn, k)
              && found == FoundAt(old(order), old(detect), tried, k)
              && client.mask == tried + Members(old(order)[..k])
      ensures client.detect == type_ && pri == if client.dp.value in cacheMask then old(pri) else old(pri)[client.dp.value := old(pri)[client.dp.value] + 1]
      ensures found.Some? ==> found.value < n && client.dp.value < n
      ensures var lav := client.dp.value;
              var changes := found.Some? && lav !in cacheMask && 2 in old(autoLevel)[found.value] && old(pri)[lav] > old(pri)[found.value]
                             && lav in Members(old(order)[..k]);
              && (if changes then k < n && exists i: nat :: i < k && old(order)[i] == lav && order == Swapped(old(order), i, k)
                  else order == old(order) && detect == old(detect) && autoLevel == old(autoLevel))
              && (reconnect <==> found.Some? && canReconn && 1 !in old(autoLevel)[if changes then lav else found.value])
      ensures Reordered(old(order), order, client.dp.value, found)
      ensures ByPosition(old(order), old(detect), order, detect) && ByPosition(old(order), old(autoLevel), order, autoLevel)
      ensures cacheDp == if found.Some? then found else head
      ensures cacheMask' == if found.Some? then cacheMask + client.mask else {}
    {
      hide Threaded, Distinct, Neighbour, Swapped, ByPosition, Reordered, Suits, GivesUp, EndsAt, Members;
      var lav := client.dp.value;
      MemberIn(order, lav);
      client.mask := client.mask + {lav};
      client.detect := type_;
      var unchecked;
      ghost var tried := client.mask;
      found, unchecked, k := NextGroup(client, type_, canReconn);
      MembersBound(next, prev, order);
      if k < n { IsMember(order, k); }
      SamePositions(order, detect);
      SamePositions(order, autoLevel);
      ghost var order0, level0 := order, autoLevel;
      if lav !in cacheMask {
        Resort(lav, found, unchecked, k);
        LevelsNow(order0, level0, order, autoLevel, k, lav);
      } else {
        NotReordered(order, lav, found);
      }
      if found.None? {
        return found, false, {}, head, k;
      }
      return found, NO_RECONN !in autoLevel[found.value] && canReconn, cacheMask + client.mask, found, k;
    }

    /** One client from its first connection to its last: as long as triggers reconnect it, it looks for
        a group again, and once more when its first data arrive. It may start with a mask from the cache.
        It is connected at most once per group that is not in that mask. */
    method Serve(client: Client, triggers: seq<Trigger>) returns (connections: nat)
      requires Valid() && client.mask <= fullMask && (client.dp.Some? ==> client.dp.value in fullMask)
      modifies client, this`next, this`prev, this`detect, this`autoLevel, this`head, this`order, this`pri
      ensures Valid() && connections + |old(client.mask)| <= n
    {
      hide Threaded, Distinct, Neighbour, Reordered, ByPosition;
      connections := 0;
      ghost var masks := [client.mask];
      MembersCount(order);
      StrictChain(masks, fullMask);
      while connections < |triggers|
        invariant Valid() && client.mask <= fullMask && (client.dp.Some? ==> client.dp.value in fullMask) && |fullMask| <= n
        invariant |masks| == connections + 1 && masks[0] == old(client.mask) && masks[connections] == client.mask
        invariant forall i :: 0 <= i < connections ==> masks[i] < masks[i + 1]
        invariant connections + |masks[0]| <= n
        decreases |triggers| - connections
      {
        var t := triggers[connections];
        var connected, reconnect := Attempt(client, t);
        if !connected {
          break;
        }
        ChainMore(masks, client.mask, fullMask);
        connections := connections + 1;
        masks := masks + [client.mask];
        if !reconnect {
          break;
        }
      }
    }

    /** One connection and its end: a group is looked for, again at the first data, and joins the mask when the
        connection fails. */
    method Attempt(client: Client, t: Trigger) returns (connected: bool, reconnect: bool)
      requires Valid() && client.mask <= fullMask && (client.dp.Some? ==> client.dp.value in fullMask)
      modifies client, this`next, this`prev, this`detect, this`autoLevel, this`head, this`order, this`pri
      ensures Valid() && old(client.mask) <= client.mask <= fullMask && (client.dp.Some? ==> client.dp.value in fullMask)
      ensures connected ==> old(client.mask) < client.mask
      ensures connected <==> exists j :: 0 <= j < n && Wanted(Round(old(order), StartAt(old(order), old(client.dp))), old(detect), old(client.Wish(t.fits)), old(client.mask), j)
      ensures reconnect ==> t.canReconn
      ensures !connected ==> !reconnect
    {
      hide Threaded, Distinct, Neighbour, Reordered, ByPosition, Wanted, FirstWanted, EndsAt, FoundAt, Suits, GivesUp, Members, Eligible, Swapped;
      connected, reconnect := false, false;
      ghost var ro, w, mask0 := Round(order, StartAt(order, client.dp)), client.Wish(t.fits), client.mask;
      var dp := FindDp(client, t.fits);
      SomeWanted(ro, detect, w, mask0, dp, client.mask);
      if dp.None? {
        return;
      }
      client.dp := dp;
      connected := true;
      if t.setup.Some? {
        var again := FindDp(client, t.setup.value);
        if again.None? {
          assert dp.value !in old(client.mask) && dp.value in client.mask;
          return;
        }
        client.dp := again;
      }
      ghost var last := client.dp.value;
      var next, cacheMask, cacheDp;
      ghost var k;
      next, reconnect, cacheMask, cacheDp, k := OnTrigger(client, t.type_, t.canReconn, t.cacheMask);
      assert last !in old(client.mask) && last in client.mask;
    }
  }

  /** What makes a client's connection fail, and what is known then; `setup` is what fits once its first data
      have been seen, if they have. */
  datatype Trigger = Trigger(fits: Id -> bool, setup: Option<Id -> bool>, type_: set<nat>, canReconn: bool, cacheMask: set<Id>)

  lemma ChainMore(masks: seq<set<Id>>, mask: set<Id>, all: set<Id>)
    requires masks != [] && masks[|masks| - 1] < mask <= all
    requires forall i :: 0 <= i < |masks| - 1 ==> masks[i] < masks[i + 1]
    ensures |masks| + |masks[0]| <= |all|
  {
    StrictChain(masks + [mask], all);
  }

  /** The order is as before, or the client's group has changed places with one found behind it. */
  ghost predicate Reordered(o: seq<Id>, o': seq<Id>, dp: Id, found: Option<Id>) {
    || o' == o
    || exists i: nat, j: nat :: i < j < |o| && o' == Swapped(o, i, j) && o[i] == dp && found == Some(o[j])
  }

  /** After the change the group at position `k` has the levels of the other one. */
  lemma LevelsNow(order: seq<Id>, level: seq<set<nat>>, order': seq<Id>, level': seq<set<nat>>, k: nat, lav: Id)
    requires Distinct(order) && ByPosition(order, level, order', level')
    ensures forall i: nat :: i < k < |order| && order[i] == lav && order' == Swapped(order, i, k) ==>
              order[k] < |level'| && lav < |level| && level'[order[k]] == level[lav]
  {
    hide Distinct;
    forall i: nat | i < k < |order| && order[i] == lav && order' == Swapped(order, i, k)
      ensures order[k] < |level'| && lav < |level| && level'[order[k]] == level[lav]
    {
      assert order'[i] == order[k] by { SwappedFirst(order, i, k); }
    }
  }

  lemma SwappedFirst(order: seq<Id>, i: nat, k: nat)
    requires i < k < |order|
    ensures |Swapped(order, i, k)| == |order| && Swapped(order, i, k)[i] == order[k]
  {
  }

  lemma NotReordered(o: seq<Id>, dp: Id, found: Option<Id>)
    ensures Reordered(o, o, dp, found)
  {
  }

  lemma {:induction false} MembersCount(order: seq<Id>)
    ensures |Members(order)| <= |order|
  {
    if order != [] {
      var init := order[..|order| - 1];
      MembersCount(init);
      assert order == init + [order[|order| - 1]];
      assert Members(order) == Members(init) + {order[|order| - 1]};
    }
  }

  /** A client connection, as far as the choice of its group goes. */
  class Client {
    var dp: Option<Id>
    var mask: set<Id>
    var detect: set<nat>

    ghost function Wish(fits: Id -> bool): (w: Wants)
      reads this
    {
      Wants(dp, detect, fits)
    }
  }

  ghost function StartAt(order: seq<Id>, dp: Option<Id>): (p: nat)
    requires dp.Some? ==> dp.value in Members(order)
    ensures p <= |order| && dp == Neighbour(order, p)
  {
    if dp.None? then |order| else var p :| 0 <= p < |order| && order[p] == dp.value; p
  }

  lemma MembersBound(next: seq<Option<Id>>, prev: seq<Option<Id>>, order: seq<Id>)
    requires Threaded(next, prev, order)
    ensures forall d :: d in Members(order) ==> d < |order|
    ensures forall k :: 0 <= k < |order| ==> order[k] < |order|
    ensures |next| == |order|
  {
  }

  lemma MembersSnoc(order: seq<Id>, a: nat, p: nat)
    requires p < |order|
    ensures a <= p ==> Members(order[a..p + 1]) == Members(order[a..p]) + {order[p]}
  {
    if a <= p {
      assert order[a..p + 1] == order[a..p] + [order[p]];
    }
  }

  /** The first `q` groups from the start of the search have been passed and joined the mask. */
  ghost predicate Searched(ro: seq<Id>, detect: seq<set<nat>>, w: Wants, mask: set<Id>, q: nat, mask': set<Id>) {
    && q <= |ro| && mask' == mask + Members(ro[..q])
    && (forall i :: 0 <= i < q ==> !Wanted(ro, detect, w, mask, i))
    && forall d :: d in mask' && d !in mask ==> d < |detect| ==> !Eligible(w, detect[d], d)
  }

  lemma SearchedNone(ro: seq<Id>, detect: seq<set<nat>>, w: Wants, mask: set<Id>)
    ensures Searched(ro, detect, w, mask, 0, mask)
  {
    assert ro[..0] == [];
  }

  lemma RoundMembers(order: seq<Id>, a: nat)
    requires a <= |order|
    ensures Members(Round(order, a)) == Members(order)
    ensures Distinct(order) ==> Distinct(Round(order, a))
  {
    var ro := Round(order, a);
    assert order == order[..a] + order[a..];
    forall d ensures d in ro <==> d in order { }
  }

  /** Once the mask is full there is nothing wanted any more: what has not been passed was in it from the start. */
  lemma SearchedAll(ro: seq<Id>, detect: seq<set<nat>>, w: Wants, mask: set<Id>, q: nat, mask': set<Id>, order: seq<Id>, a: nat)
    requires Searched(ro, detect, w, mask, q, mask') && a <= |order| && ro == Round(order, a) && Distinct(order) && mask' == Members(order) && mask <= mask'
    ensures FirstWanted(ro, detect, w, mask, None, mask')
    ensures forall d :: d in mask' && d !in mask ==> d < |detect| ==> !Eligible(w, detect[d], d)
  {
    RoundMembers(order, a);
    hide Eligible;
    forall j | 0 <= j < |ro| ensures !Wanted(ro, detect, w, mask, j) {
      assert ro[j] in Members(ro) && Members(ro) == mask';
      if j >= q { NotAmong(ro, q, j); }
    }
  }

  lemma MemberIn(order: seq<Id>, d: Id)
    ensures d in Members(order) <==> d in order
  {
  }

  lemma SomeWanted(ro: seq<Id>, detect: seq<set<nat>>, w: Wants, mask: set<Id>, r: Option<Id>, mask': set<Id>)
    requires FirstWanted(ro, detect, w, mask, r, mask')
    ensures r.Some? <==> exists j :: 0 <= j < |ro| && Wanted(ro, detect, w, mask, j)
  {
    hide Wanted;
  }

  lemma NotAmong(order: seq<Id>, q: nat, j: nat)
    requires Distinct(order) && q <= j < |order|
    ensures order[j] !in order[..q]
  {
    assert forall i :: 0 <= i < q ==> order[..q][i] == order[i];
  }

  lemma SearchedRoom(ro: seq<Id>, detect: seq<set<nat>>, w: Wants, mask: set<Id>, q: nat, mask': set<Id>, order: seq<Id>, a: nat)
    requires Searched(ro, detect, w, mask, q, mask') && a <= |order| && ro == Round(order, a) && mask' != Members(order) && mask' <= Members(order)
    ensures q < |ro|
  {
    RoundMembers(order, a);
    assert ro[..|ro|] == ro;
  }

  lemma SearchedHit(ro: seq<Id>, detect: seq<set<nat>>, w: Wants, mask: set<Id>, q: nat, mask': set<Id>)
    requires Searched(ro, detect, w, mask, q, mask') && q < |ro| && ro[q] !in mask' && ro[q] < |detect| && Eligible(w, detect[ro[q]], ro[q])
    ensures FirstWanted(ro, detect, w, mask, Some(ro[q]), mask')
    ensures forall d :: d in mask' && d !in mask ==> d < |detect| ==> !Eligible(w, detect[d], d)
  {
    hide Eligible;
    assert Wanted(ro, detect, w, mask, q);
  }

  lemma SearchedMore(ro: seq<Id>, detect: seq<set<nat>>, w: Wants, mask: set<Id>, q: nat, mask': set<Id>, order: seq<Id>, a: nat)
    requires Searched(ro, detect, w, mask, q, mask') && q < |ro| && ro[q] < |detect| && (ro[q] in mask' || !Eligible(w, detect[ro[q]], ro[q]))
    requires a <= |order| && ro == Round(order, a) && Distinct(order)
    ensures Searched(ro, detect, w, mask, q + 1, mask' + {ro[q]})
  {
    RoundMembers(order, a);
    hide Eligible;
    assert ro[..q + 1] == ro[..q] + [ro[q]];
    NotAmong(ro, q, q);
  }

  /** What the tests of the loop say at position `k`. */
  lemma StepAt(order: seq<Id>, detect: seq<set<nat>>, level: seq<set<nat>>, mask: set<Id>, type_: set<nat>, canReconn: bool, k: nat, unchecked: set<Id>, mask': set<Id>)
    requires k < |order| && order[k] < |detect| && order[k] < |level| && Distinct(order)
    requires unchecked == mask - Members(order[..k]) && mask' == mask + Members(order[..k])
    ensures GivesUp(order, detect, mask, k) <==> unchecked == {} && detect[order[k]] == {}
    ensures Suits(order, detect, level, mask, type_, canReconn, k) <==>
              order[k] !in mask' && (detect[order[k]] == {} || detect[order[k]] * type_ != {}) && (ON_RECONN !in level[order[k]] || canReconn)
  {
    NotAmong(order, k, k);
    if unchecked == {} {
      forall d | d in mask ensures d in Members(order[..k]) { assert d !in unchecked; }
    }
  }

  lemma IsMember(order: seq<Id>, p: nat)
    requires p < |order|
    ensures order[p] in Members(order)
  {
  }

  lemma EligibleIs(w: Wants, detect: set<nat>, d: Id)
    ensures Eligible(w, detect, d) <==> (w.init == Some(d) || detect == {} || w.detect * detect != {}) && w.fits(d)
  {
  }

  /** The same things stand at the same positions. */
  ghost predicate ByPosition<T(!new)>(order: seq<Id>, a: seq<T>, order': seq<Id>, a': seq<T>) {
    && |order'| == |order| && |a'| == |a| && (forall k :: 0 <= k < |order| ==> order[k] < |a| && order'[k] < |a|)
    && forall k :: 0 <= k < |order| ==> a'[order'[k]] == a[order[k]]
  }

  lemma ByPositionSwap<T(!new)>(order: seq<Id>, a: seq<T>, i: nat, j: nat)
    requires Distinct(order) && i < j < |order| && (forall k :: 0 <= k < |order| ==> order[k] < |a|)
    ensures ByPosition(order, a, Swapped(order, i, j), a[order[i] := a[order[j]]][order[j] := a[order[i]]])
  {
  }

  lemma RelinkFacts(order: seq<Id>, i: nat, j: nat)
    requires Distinct(order) && i < j < |order|
    ensures |Swapped(order, i, j)| == |order| && Distinct(Swapped(order, i, j)) && Members(Swapped(order, i, j)) == Members(order)
    ensures Neighbour(Swapped(order, i, j), 0) == (if Neighbour(order, 0) == Some(order[i]) then Some(order[j]) else Neighbour(order, 0))
  {
    var o := Swapped(order, i, j);
    forall d ensures d in o <==> d in order {
      if d in order {
        var k :| 0 <= k < |order| && order[k] == d;
        assert o[if k == i then j else if k == j then i else k] == d;
      }
    }
  }

  /** Where the neighbours of an earlier and a later entry are. */
  ghost predicate CanRelink(next: seq<Option<Id>>, prev: seq<Option<Id>>, c: Id, d: Id)
    requires |next| == |prev|
  {
    && c < |next| && d < |next| && c != d
    && next[c].Some? && next[c].value < |next| && next[c].value != c
    && prev[d].Some? && prev[d].value < |next| && prev[d].value != d && (prev[d].value == c <==> next[c].value == d)
    && (prev[c].Some? ==> prev[c].value < |next| && prev[c].value != c && prev[c].value != d && prev[c] != prev[d])
    && (next[d].Some? ==> next[d].value < |next| && next[d].value != c && next[d].value != d && next[d] != next[c])
  }

  lemma SwopFacts(next: seq<Option<Id>>, prev: seq<Option<Id>>, order: seq<Id>, i: nat, j: nat)
    requires Distinct(order) && Threaded(next, prev, order) && i < j < |order|
    ensures |next| == |prev| == |order| && CanRelink(next, prev, order[i], order[j])
    ensures forall k :: 0 <= k < |order| ==> order[k] < |order|
  {
    ThreadedAt(next, prev, order, i);
    ThreadedAt(next, prev, order, j);
  }

  lemma SamePositions<T(!new)>(order: seq<Id>, a: seq<T>)
    requires forall k :: 0 <= k < |order| ==> order[k] < |a|
    ensures ByPosition(order, a, order, a)
  {
  }

  /** Sets that grow strictly inside another are at most as many as that has members, and one. */
  lemma {:induction false} StrictChain(masks: seq<set<Id>>, all: set<Id>)
    requires masks != [] && masks[|masks| - 1] <= all
    requires forall i :: 0 <= i < |masks| - 1 ==> masks[i] < masks[i + 1]
    ensures |masks| - 1 + |masks[0]| <= |all|
    decreases |masks|
  {
    if |masks| == 1 {
      Subset(masks[0], all);
    } else {
      StrictChain(masks[1..], all);
      Subset(masks[0], masks[1]);
    }
  }

  lemma Subset(a: set<Id>, b: set<Id>)
    requires a <= b
    ensures |a| <= |b| && (a < b ==> |a| < |b|)
  {
    assert b == a + (b - a);
  }
}
