/**
  Which connections a VMess service keeps track of, and what becomes of those of removed users:
  `UpdateUsers`, `trackConnection` and `trackedConnection` of `service.go`. Each step below is one
  stretch of code that runs under the lock, or one that touches only what is local.
*/
module Service {

  type Conn = nat

  // ----- the table of tracked connections

  type Table<!U> = map<U, set<Conn>>

  function Of<U>(conns: Table<U>, user: U): (r: set<Conn>) {
    if user in conns then conns[user] else {}
  }

  /** `trackConnection`, when the revision still holds. */
  function WithConn<U>(conns: Table<U>, user: U, c: Conn): (r: Table<U>) {
    conns[user := Of(conns, user) + {c}]
  }

  /** `remove`: a user without connections has no entry. */
  function WithoutConn<U>(conns: Table<U>, user: U, c: Conn): (r: Table<U>) {
    var left := Of(conns, user) - {c};
    if left == {} then conns - {user} else conns[user := left]
  }

  /** The entries an update keeps. */
  function Kept<U>(conns: Table<U>, users: set<U>): (r: Table<U>) {
    map u | u in conns && u in users :: conns[u]
  }

  /** The connections an update drops. */
  ghost function Victims<U>(conns: Table<U>, users: set<U>): (r: set<Conn>) {
    set u, c | u in conns && u !in users && c in conns[u] :: c
  }

  /** What these tables say of each user. */
  lemma TableSays<U>(conns: Table<U>, user: U, c: Conn, users: set<U>, v: U)
    ensures Of(WithConn(conns, user, c), v) == if v == user then Of(conns, user) + {c} else Of(conns, v)
    ensures Of(WithoutConn(conns, user, c), v) == if v == user then Of(conns, user) - {c} else Of(conns, v)
    ensures user in WithConn(conns, user, c) && (user in WithoutConn(conns, user, c) <==> Of(conns, user) - {c} != {})
    ensures v != user ==> (v in WithConn(conns, user, c) <==> v in conns) && (v in WithoutConn(conns, user, c) <==> v in conns)
    ensures (v in Kept(conns, users) <==> v in conns && v in users) && (v in users ==> Of(Kept(conns, users), v) == Of(conns, v))
    ensures c in Victims(conns, users) <==> exists u :: u in conns && u !in users && c in conns[u]
    ensures forall d :: d in Of(conns, v) <==> v in conns && d in conns[v]
  {
  }

  // ----- all interleavings

  /** Where a connection has got to: it has found its user under some revision; it was turned away
      because that revision had passed; or it has been entered. */
  datatype Phase<U> = Authenticated(user: U, revision: nat) | Rejected | Tracked(user: U)

  /** `removed` are the connections whose `once` has fired, `closed` those whose socket is closed.
      Each update that has let go of the lock has a list of connections it has still to close;
      `dropped` is what that list was at first. */
  datatype State<!U> = State(
    users: set<U>, revision: nat, conns: Table<U>,
    phase: map<Conn, Phase<U>>, removed: set<Conn>, closed: set<Conn>,
    lists: seq<seq<Conn>>, dropped: seq<set<Conn>>)

  datatype Step<!U> =
    | Authenticate(c: Conn, user: U)
    | Track(c: Conn)
    | Remove(c: Conn)
    | Shut(c: Conn)
    | Update(users: set<U>, order: seq<Conn>)
    | RemoveFirst(job: nat)
    | ShutFirst(job: nat)

  ghost function Start<U>(): State<U> {
    State({}, 0, map[], map[], {}, {}, [], [])
  }

  /** `remove`, through `once`. */
  ghost function Once<U>(s: State<U>, c: Conn): State<U>
    requires c in s.phase && s.phase[c].Tracked?
  {
    if c in s.removed then s
    else s.(conns := WithoutConn(s.conns, s.phase[c].user, c), removed := s.removed + {c})
  }

  ghost predicate Lists(order: seq<Conn>, victims: set<Conn>) {
    && (forall i, j :: 0 <= i < j < |order| ==> order[i] != order[j])
    && (forall c :: c in order <==> c in victims)
  }

  ghost predicate Enabled<U>(s: State<U>, a: Step<U>) {
    match a
    case Authenticate(c, user) => c !in s.phase && user in s.users
    case Track(c) => c in s.phase && s.phase[c].Authenticated?
    case Remove(c) => c in s.phase && s.phase[c].Tracked?
    case Shut(c) => c in s.phase && s.phase[c].Tracked? && c in s.removed
    case Update(users, order) => Lists(order, Victims(s.conns, users))
    case RemoveFirst(job) => job < |s.lists| && s.lists[job] != [] && s.lists[job][0] in s.phase && s.phase[s.lists[job][0]].Tracked?
    case ShutFirst(job) => job < |s.lists| && s.lists[job] != [] && s.lists[job][0] in s.removed
  }

  ghost function Do<U>(s: State<U>, a: Step<U>): State<U>
    requires Enabled(s, a)
  {
    match a
    case Authenticate(c, user) => s.(phase := s.phase[c := Authenticated(user, s.revision)])
    case Track(c) =>
      var p := s.phase[c];
      if p.revision != s.revision then s.(phase := s.phase[c := Rejected])
      else s.(phase := s.phase[c := Tracked(p.user)], conns := WithConn(s.conns, p.user, c))
    case Remove(c) => Once(s, c)
    case Shut(c) => s.(closed := s.closed + {c})
    case Update(users, order) =>
      s.(users := users, revision := s.revision + 1, conns := Kept(s.conns, users),
         lists := s.lists + [order], dropped := s.dropped + [Victims(s.conns, users)])
    case RemoveFirst(job) => Once(s, s.lists[job][0])
    case ShutFirst(job) =>
      s.(closed := s.closed + {s.lists[job][0]}, lists := s.lists[job := s.lists[job][1..]])
  }

  /** Connection `c` was dropped by some update. */
  ghost predicate WasDropped<U>(s: State<U>, c: Conn) {
    exists j :: 0 <= j < |s.dropped| && c in s.dropped[j]
  }

  /** The table lists exactly the connections that were entered and neither removed nor dropped, under
      their own user, who is a user now; and no entry is empty. */
  ghost predicate TableOk<U>(s: State<U>) {
    && (forall u :: u in s.conns ==> u in s.users && s.conns[u] != {})
    && (forall u, c :: u in s.conns && c in s.conns[u] ==> c in s.phase && s.phase[c] == Tracked(u) && c !in s.removed)
    && (forall c :: c in s.phase && s.phase[c].Tracked? ==>
          c in Of(s.conns, s.phase[c].user) || c in s.removed || WasDropped(s, c))
  }

  /** Nobody holds a revision from the future, and the current one vouches for its user. */
  ghost predicate PhaseOk<U>(s: State<U>) {
    && (forall c :: c in s.phase && s.phase[c].Authenticated? ==>
          s.phase[c].revision <= s.revision && (s.phase[c].revision == s.revision ==> s.phase[c].user in s.users))
    && (forall c :: c in s.removed ==> c in s.phase && s.phase[c].Tracked?)
  }

  /** What an update dropped is closed, or still on its list. */
  ghost predicate ListOk<U>(s: State<U>, j: nat)
    requires j < |s.lists| && j < |s.dropped|
  {
    && (forall c :: c in s.dropped[j] ==> c in s.lists[j] || c in s.closed)
    && (forall c :: c in s.lists[j] ==> c in s.phase && s.phase[c].Tracked?)
  }

  ghost predicate Inv<U>(s: State<U>) {
    && TableOk(s) && PhaseOk(s) && |s.lists| == |s.dropped|
    && forall j: nat :: j < |s.lists| ==> ListOk(s, j)
  }

  lemma StartInv<U>()
    ensures Inv<U>(Start())
  {
  }

  lemma OnceTable<U>(s: State<U>, c: Conn)
    requires Inv(s) && c in s.phase && s.phase[c].Tracked?
    ensures Inv(Once(s, c))
  {
    var s' := Once(s, c);
    forall d | d in s'.phase && s'.phase[d].Tracked?
      ensures d in Of(s'.conns, s'.phase[d].user) || d in s'.removed || WasDropped(s', d)
    {
      assert WasDropped(s, d) ==> WasDropped(s', d);
    }
    forall j: nat | j < |s'.lists| ensures ListOk(s', j) { assert ListOk(s, j); }
  }

  lemma TrackTable<U>(s: State<U>, c: Conn)
    requires Inv(s) && Enabled(s, Track(c))
    ensures Inv(Do(s, Track(c)))
  {
    var s' := Do(s, Track(c));
    forall d | d in s'.phase && s'.phase[d].Tracked?
      ensures d in Of(s'.conns, s'.phase[d].user) || d in s'.removed || WasDropped(s', d)
    {
      assert WasDropped(s, d) ==> WasDropped(s', d);
    }
    forall j: nat | j < |s'.lists| ensures ListOk(s', j) { assert ListOk(s, j); }
  }

  lemma UpdateTable<U>(s: State<U>, users: set<U>, order: seq<Conn>)
    requires Inv(s) && Enabled(s, Update(users, order))
    ensures Inv(Do(s, Update(users, order)))
  {
    var s' := Do(s, Update(users, order));
    var n := |s.dropped|;
    forall d | d in s'.phase && s'.phase[d].Tracked?
      ensures d in Of(s'.conns, s'.phase[d].user) || d in s'.removed || WasDropped(s', d)
    {
      if WasDropped(s, d) {
        var j :| 0 <= j < n && d in s.dropped[j];
        assert s'.dropped[j] == s.dropped[j];
      } else if d !in s.removed {
        assert s'.dropped[n] == Victims(s.conns, users);
      }
    }
    forall j: nat | j < |s'.lists| ensures ListOk(s', j) {
      if j < n { assert ListOk(s, j); }
    }
  }

  lemma OtherTable<U>(s: State<U>, a: Step<U>)
    requires Inv(s) && Enabled(s, a) && (a.Authenticate? || a.Shut? || a.ShutFirst?)
    ensures Inv(Do(s, a))
  {
    var s' := Do(s, a);
    forall d | d in s'.phase && s'.phase[d].Tracked?
      ensures d in Of(s'.conns, s'.phase[d].user) || d in s'.removed || WasDropped(s', d)
    {
      assert WasDropped(s, d) ==> WasDropped(s', d);
    }
    forall j: nat | j < |s'.lists| ensures ListOk(s', j) { assert ListOk(s, j); }
  }

  /** Every step keeps the invariant. */
  lemma StepInv<U>(s: State<U>, a: Step<U>)
    requires Inv(s) && Enabled(s, a)
    ensures Inv(Do(s, a))
  {
    hide Inv;
    match a
    case Track(c) => TrackTable(s, c);
    case Remove(c) => OnceTable(s, c);
    case RemoveFirst(job) => OnceTable(s, s.lists[job][0]);
    case Update(users, order) => UpdateTable(s, users, order);
    case _ => OtherTable(s, a);
  }

  /** A run: each state follows from the one before by an enabled step. */
  ghost predicate Run<U>(states: seq<State<U>>, steps: seq<Step<U>>) {
    && |states| == |steps| + 1 && states[0] == Start()
    && forall i :: 0 <= i < |steps| ==> Enabled(states[i], steps[i]) && states[i + 1] == Do(states[i], steps[i])
  }

  /** The invariant holds in every state of every run. */
  lemma {:induction false} RunInv<U>(states: seq<State<U>>, steps: seq<Step<U>>, k: nat)
    requires Run(states, steps) && k < |states|
    ensures Inv(states[k])
  {
    hide Inv, Do, Enabled;
    if k == 0 {
      StartInv<U>();
    } else {
      RunInv(states, steps, k - 1);
      StepInv(states[k - 1], steps[k - 1]);
    }
  }

  /** A connection that found its user under a revision that has passed, or was turned away. */
  ghost predicate Stale<U>(s: State<U>, c: Conn) {
    && c in s.phase
    && (s.phase[c].Rejected? || (s.phase[c].Authenticated? && s.phase[c].revision < s.revision))
  }

  lemma StaleStays<U>(s: State<U>, a: Step<U>, c: Conn)
    requires Enabled(s, a) && Stale(s, c)
    ensures Stale(Do(s, a), c)
  {
  }

  lemma StaleUnlisted<U>(s: State<U>, c: Conn)
    requires Inv(s)
    ensures Stale(s, c) ==> forall u :: u in s.conns ==> c !in s.conns[u]
  {
  }

  /** Once an update has intervened, a connection authenticated before it is never entered, in any
      continuation of the run. */
  lemma {:induction false} StaleNeverTracked<U>(states: seq<State<U>>, steps: seq<Step<U>>, i: nat, k: nat, c: Conn)
    requires Run(states, steps) && i <= k < |states| && Stale(states[i], c)
    ensures Stale(states[k], c) && forall u :: u in states[k].conns ==> c !in states[k].conns[u]
    decreases k
  {
    hide Inv, Do, Enabled, Stale;
    RunInv(states, steps, k);
    StaleUnlisted(states[k], c);
    if k > i {
      StaleNeverTracked(states, steps, i, k - 1, c);
      StaleStays(states[k - 1], steps[k - 1], c);
    }
  }

  /** An update drops every connection of a removed user that is still in the table, and none of a
      user who stays; the dropped ones are on its list, and when its list is worked off, whatever
      happened in between, all of them are closed. */
  lemma UpdateCloses<U>(states: seq<State<U>>, steps: seq<Step<U>>, i: nat, k: nat)
    requires Run(states, steps) && i < |steps| && steps[i].Update? && i < k < |states|
    ensures var j := |states[i].dropped|;
            && j < |states[k].dropped| && j < |states[k].lists|
            && (forall c :: c in states[k].dropped[j] <==>
                  exists u :: u in states[i].conns && u !in steps[i].users && c in states[i].conns[u])
            && (states[k].lists[j] == [] ==> states[k].dropped[j] <= states[k].closed)
  {
    var j := |states[i].dropped|;
    RunInv(states, steps, i);
    DroppedStays(states, steps, i, k);
    RunInv(states, steps, k);
    assert ListOk(states[k], j);
  }

  /** What an update dropped is on record from then on. */
  lemma {:induction false} DroppedStays<U>(states: seq<State<U>>, steps: seq<Step<U>>, i: nat, k: nat)
    requires Run(states, steps) && i < |steps| && steps[i].Update? && i < k < |states|
    ensures var j := |states[i].dropped|;
            j < |states[k].dropped| && states[k].dropped[j] == Victims(states[i].conns, steps[i].users)
    decreases k
  {
    if k > i + 1 {
      DroppedStays(states, steps, i, k - 1);
    }
    assert Enabled(states[k - 1], steps[k - 1]) && states[k] == Do(states[k - 1], steps[k - 1]);
  }

  /** No update is ever stuck: the first connection on its list can be removed, and then closed. */
  lemma ListMovesOn<U>(states: seq<State<U>>, steps: seq<Step<U>>, k: nat, j: nat)
    requires Run(states, steps) && k < |states| && j < |states[k].lists| && states[k].lists[j] != []
    ensures Enabled(states[k], RemoveFirst(j)) && Enabled(Do(states[k], RemoveFirst(j)), ShutFirst(j))
    ensures |Do(Do(states[k], RemoveFirst(j)), ShutFirst(j)).lists[j]| == |states[k].lists[j]| - 1
  {
    RunInv(states, steps, k);
    assert ListOk(states[k], j);
    assert states[k].lists[j][0] in states[k].lists[j];
  }

  // ----- the service that the program updates

  class TrackedService<U(==)> {
    var users: set<U>
    var userRevision: nat
    var connections: Table<U>
    var once: set<Conn>          // the connections whose `once` has fired

    constructor ()
      ensures users == {} && userRevision == 0 && connections == map[] && once == {}
    {
      users, userRevision, connections, once := {}, 0, map[], {};
    }

    /** `trackConnection` */
    method TrackConnection(user: U, revision: nat, c: Conn) returns (loaded: bool)
      modifies this`connections
      ensures loaded <==> revision == userRevision
      ensures connections == if loaded then WithConn(old(connections), user, c) else old(connections)
    {
      if revision != userRevision {
        return false;
      }
      var conns: set<Conn> := {};
      if user in connections {
        conns := connections[user];
      } else {
        connections := connections[user := {}];
      }
      conns := conns + {c};
      connections := connections[user := conns];
      return true;
    }

    /** `trackedConnection.remove` */
    method Remove(user: U, c: Conn)
      modifies this`connections, this`once
      ensures c in old(once) ==> connections == old(connections) && once == old(once)
      ensures c !in old(once) ==> connections == WithoutConn(old(connections), user, c) && once == old(once) + {c}
    {
      if c in once {
        return;
      }
      once := once + {c};
      var conns: set<Conn> := {};
      if user in connections {
        conns := connections[user] - {c};
        connections := connections[user := conns];
      }
      if |conns| == 0 {
        connections := connections - {user};
      }
    }

    /** The part of `UpdateUsers` that runs under the lock: the table is swapped, the revision counts
        up, and the connections of removed users are taken out of the table and listed. */
    method SwapUsers(newUsers: set<U>) returns (removed: seq<Conn>)
      requires forall u, v :: u in connections && v in connections && u != v ==> connections[u] !! connections[v]
      modifies this`users, this`userRevision, this`connections
      ensures users == newUsers && userRevision == old(userRevision) + 1
      ensures connections == Kept(old(connections), newUsers)
      ensures Lists(removed, Victims(old(connections), newUsers))
    {
      users := newUsers;
      userRevision := userRevision + 1;
      removed := [];
      var todo := connections.Keys;
      while todo != {}
        invariant users == newUsers && userRevision == old(userRevision) + 1 && todo <= old(connections).Keys
        invariant connections == map u | u in old(connections) && (u in todo || u in newUsers) :: old(connections)[u]
        invariant forall i, j :: 0 <= i < j < |removed| ==> removed[i] != removed[j]
        invariant forall c :: c in removed <==> exists u :: u in old(connections) && u !in todo && u !in newUsers && c in old(connections)[u]
        decreases |todo|
      {
        var user :| user in todo;
        if user !in newUsers {
          removed := ListAll(connections[user], removed);
          connections := connections - {user};
        }
        todo := todo - {user};
      }
    }

    /** The inner loop: all members of a set behind what is listed already. */
    method ListAll(conns: set<Conn>, start: seq<Conn>) returns (r: seq<Conn>)
      requires forall i, j :: 0 <= i < j < |start| ==> start[i] != start[j]
      requires forall c :: c in start ==> c !in conns
      ensures forall i, j :: 0 <= i < j < |r| ==> r[i] != r[j]
      ensures forall c :: c in r <==> c in start || c in conns
    {
      r := start;
      var todo := conns;
      while todo != {}
        invariant todo <= conns
        invariant forall i, j :: 0 <= i < j < |r| ==> r[i] != r[j]
        invariant forall c :: c in r <==> c in start || (c in conns && c !in todo)
        decreases |todo|
      {
        var c :| c in todo;
        r := r + [c];
        todo := todo - {c};
      }
    }
  }
}
