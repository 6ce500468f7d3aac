/**
  How a QUIC connection and its handshake goroutine take turns: `quic.go`, with the channel operations
  as steps of two processes. A receive from an unbuffered channel is one step of both sides; a receive
  from a closed channel is a step of the receiver alone.
*/
module Quic {

  import opened Wire

  /** Events as `NextEvent` returns them. `Taken` is the zero event that is left behind in the list. */
  datatype Event = Write(level: nat, data: bytes) | Other(kind: nat) | Taken

  /** The calls that hand the turn to the goroutine by reading from `signalc`. */
  datatype Call = HandleData | NextEvent | SetTransportParameters

  /** What is settled when the connection is made: whether it is a client, and whether session events
      are enabled. */
  datatype Config = Config(client: bool, sessionEvents: bool)

  /** Where the user of the connection is. */
  datatype User =
    | Idle                  // between calls
    | Starting              // in `Start`, reading from `blockedc`
    | Signalling(call: Call)  // reading from `signalc`
    | Blocking(call: Call)  // reading from `blockedc`
    | Appending             // at the end of `HandleData`, after the handshake
    | Closing               // in `Close`, draining `blockedc`

  /** Where the handshake goroutine is. */
  datatype Goroutine =
    | NotStarted
    | Working
    | Offering              // in the first select of `quicWaitForSignal`, sending on `blockedc`
    | Parked                // in the second, sending on `signalc`
    | Unwinding             // cancelled, on its way out
    | BlockedClosed         // has closed `blockedc`
    | BothClosed            // has closed `signalc`, too, and still holds the handshake lock
    | Exited

  /** Who is where. `resuming`: the goroutine is inside `quicResumeSession`. `ignored`: that call has come
      back with an error, which a client does not look at. */
  datatype Control = Control(
    config: Config, user: User, go: Goroutine, started: bool, cancelled: bool,
    waitingForDrain: bool, resuming: bool, ignored: bool)

  /** What the two share, and a record of what has passed between them. */
  datatype Data = Data(
    readbuf: Option<bytes>, appended: bytes,
    events: seq<Event>, nextEvent: nat,
    given: bytes,           // all that `HandleData` has been given at the right level
    emitted: seq<Token>,    // all that the handshake has emitted
    returned: seq<Token>)   // all that `NextEvent` has returned

  datatype State = State(ctl: Control, data: Data)

  datatype Step =
    | CallStart(minVersionOk: bool)
    | CallHandleData(rightLevel: bool, data: bytes)
    | CallNextEvent
    | CallSetParameters
    | CallClose
    | Cancel                // by whoever holds the context
    | ReceiveSignal
    | SignalWasClosed
    | ReceiveBlocked
    | BlockedWasClosed
    | AppendRest
    | Emit(event: Event)
    | ResumeSession         // emits an event and waits until it has been taken
    | Wait
    | Finish(last: seq<Event>)
    | NoticeCancel
    | Unwound
    | CloseSignal
    | Return

  // ----- events

  /** What an event stands for, byte by byte. */
  datatype Token = Byte(level: nat, b: byte) | Sign(kind: nat)

  ghost function Tokens(e: Event): seq<Token> {
    match e
    case Write(level, data) => seq(|data|, i requires 0 <= i < |data| => Byte(level, data[i]))
    case Other(kind) => [Sign(kind)]
    case Taken => []
  }

  ghost function AllTokens(es: seq<Event>): seq<Token> {
    if es == [] then [] else AllTokens(es[..|es| - 1]) + Tokens(es[|es| - 1])
  }

  /** Appending an event; crypto data goes into the last event if that is crypto data of the same
      level, as in `quicWriteCryptoData`. */
  function Pushed(events: seq<Event>, e: Event): (r: seq<Event>) {
    if e.Write? && events != [] && events[|events| - 1].Write? && events[|events| - 1].level == e.level
    then events[..|events| - 1] + [Write(e.level, events[|events| - 1].data + e.data)]
    else events + [e]
  }

  function PushedAll(events: seq<Event>, es: seq<Event>): (r: seq<Event>)
    decreases |es|
  {
    if es == [] then events else PushedAll(Pushed(events, es[0]), es[1..])
  }

  ghost predicate TakenUpTo(events: seq<Event>, n: nat) {
    n <= |events| && forall i :: 0 <= i < n ==> events[i] == Taken
  }

  // ----- the steps

  ghost function Start(config: Config): State {
    State(Control(config, Idle, NotStarted, false, false, false, false, false), Data(None, [], [], 0, [], [], []))
  }

  ghost predicate SignalOpen(g: Goroutine) { !g.BothClosed? && !g.Exited? }

  ghost predicate BlockedOpen(g: Goroutine) { SignalOpen(g) && !g.BlockedClosed? }

  ghost predicate Can(c: Control, a: Step) {
    match a
    case CallStart(_) => c.user.Idle?
    case CallHandleData(_, _) => c.user.Idle?
    case CallNextEvent => c.user.Idle?
    case CallSetParameters => c.user.Idle?
    case CallClose => c.user.Idle?
    case Cancel => true
    case ReceiveSignal => c.user.Signalling? && c.go.Parked?
    case SignalWasClosed => c.user.Signalling? && !SignalOpen(c.go)
    case ReceiveBlocked => (c.user.Starting? || c.user.Blocking? || c.user.Closing?) && c.go.Offering?
    case BlockedWasClosed => (c.user.Starting? || c.user.Blocking? || c.user.Closing?) && !BlockedOpen(c.go)
    case AppendRest => c.user.Appending? && c.go.Exited?
    case Emit(e) => c.go.Working? && !c.resuming && !e.Taken?
    case ResumeSession => c.go.Working? && !c.resuming && c.config.sessionEvents
    case Wait => c.go.Working?
    case Finish(last) => c.go.Working? && !c.resuming && Taken !in last
    case NoticeCancel => c.cancelled && (c.go.Offering? || c.go.Parked?)
    case Unwound => c.go.Unwinding?
    case CloseSignal => c.go.BlockedClosed?
    case Return => c.go.BothClosed?
  }

  ghost predicate Enabled(s: State, a: Step) { Can(s.ctl, a) }

  const RESUME_KIND: nat := 0

  /** Where a step leads; `drained` says that every event in the list has been returned. */
  ghost function Steer(c: Control, drained: bool, a: Step): Control
    requires Can(c, a)
  {
    match a
    case CallStart(minVersionOk) =>
      if c.started then c
      else if !minVersionOk then c.(started := true)
      else c.(started := true, go := Working, user := Starting)
    case CallHandleData(rightLevel, _) => if rightLevel then c.(user := Signalling(HandleData)) else c
    case CallNextEvent =>
      if drained && c.waitingForDrain then c.(waitingForDrain := false, user := Signalling(NextEvent)) else c
    case CallSetParameters => if c.started then c.(user := Signalling(SetTransportParameters)) else c
    case CallClose => if c.go.NotStarted? then c else c.(cancelled := true, user := Closing)
    case Cancel => c.(cancelled := true)
    case ReceiveSignal => c.(go := Working, user := Blocking(c.user.call), resuming := c.resuming && c.waitingForDrain)
    case SignalWasClosed => c.(user := Blocking(c.user.call))
    case ReceiveBlocked => c.(go := Parked, user := if c.user.Closing? then Closing else Idle)
    case BlockedWasClosed => c.(user := if c.user == Blocking(HandleData) then Appending else Idle)
    case AppendRest => c.(user := Idle)
    case Emit(_) => c
    case ResumeSession => c.(waitingForDrain := true, resuming := true, go := Offering)
    case Wait => c.(go := Offering)
    case Finish(_) => c.(go := BlockedClosed)
    case NoticeCancel =>
      if c.resuming && c.config.client then c.(go := Working, resuming := false, ignored := true)
      else c.(go := Unwinding, resuming := false)
    case Unwound => c.(go := BlockedClosed)
    case CloseSignal => c.(go := BothClosed)
    case Return => c.(go := Exited)
  }

  /** What a step does to what is shared. */
  ghost function Change(d: Data, c: Control, a: Step): Data {
    match a
    case CallHandleData(rightLevel, data) => if rightLevel then d.(readbuf := Some(data), given := d.given + data) else d
    case CallNextEvent => if Drained(d) && c.waitingForDrain then d else Popped(d)
    case ReceiveSignal => Received(d)
    case ReceiveBlocked => if c.user == Blocking(NextEvent) then Popped(d) else d
    case BlockedWasClosed => if c.user == Blocking(NextEvent) then Popped(d) else d
    case AppendRest => Received(d)
    case Emit(e) => Emitted(d, [e])
    case ResumeSession => Emitted(d, [Other(RESUME_KIND)])
    case Finish(last) => Emitted(d, last)
    case _ => d
  }

  ghost function Do(s: State, a: Step): State
    requires Enabled(s, a)
  {
    State(Steer(s.ctl, Drained(s.data), a), Change(s.data, s.ctl, a))
  }

  ghost predicate Drained(d: Data) { d.nextEvent >= |d.events| }

  /** `hand.Write(readbuf)`, and the buffer is given up. */
  ghost function Received(d: Data): Data {
    d.(appended := d.appended + Held(d), readbuf := None)
  }

  ghost function Held(d: Data): bytes { if d.readbuf.Some? then d.readbuf.value else [] }

  /** The end of `NextEvent`. */
  ghost function Popped(d: Data): Data {
    if Drained(d) then d.(events := [], nextEvent := 0)
    else d.(returned := d.returned + Tokens(d.events[d.nextEvent]),
            events := d.events[d.nextEvent := Taken], nextEvent := d.nextEvent + 1)
  }

  ghost function Emitted(d: Data, es: seq<Event>): Data {
    d.(events := PushedAll(d.events, es), emitted := d.emitted + AllTokens(es))
  }

  // ----- what every run keeps

  /** The turns: while the goroutine works, the user waits for it on `blockedc`; and between calls the
      goroutine is parked, or cancelled, or done. A client that has ignored a cancellation is exempt. */
  ghost predicate Turns(c: Control) {
    && (c.go.Working? || c.go.Offering? ==> c.user.Starting? || c.user.Blocking? || c.ignored)
    && (c.user.Starting? || c.user.Blocking? ==> !c.go.NotStarted? && !c.go.Parked?)
    && (c.user.Closing? ==> !c.go.NotStarted? && c.cancelled)
    && (c.user.Appending? ==> !BlockedOpen(c.go))
    && (c.go.Unwinding? || c.ignored ==> c.cancelled)
    && (!c.go.NotStarted? ==> c.started)
    && (c.waitingForDrain ==> !c.go.NotStarted?)
  }

  /** Who is inside `quicResumeSession`, and what that says about the session on offer. */
  ghost predicate Offers(c: Control) {
    && (c.resuming ==> c.config.sessionEvents && (c.go.Working? || c.go.Offering? || c.go.Parked?))
    && (c.ignored ==> c.config.client && c.config.sessionEvents)
    && (c.waitingForDrain && !c.ignored && (c.go.Working? || c.go.Offering? || c.go.Parked?) ==> c.resuming)
  }

  /** Every byte given has been appended once and in order, but for those of the call in progress. */
  ghost predicate BytesOk(d: Data, c: Control) {
    && d.given == d.appended + Held(d)
    && (d.readbuf.Some? ==> c.user == Signalling(HandleData) || c.user == Blocking(HandleData) || c.user.Appending?)
    && (c.user == Blocking(HandleData) && d.readbuf.Some? ==> !SignalOpen(c.go))
  }

  /** What was emitted has been returned, or is waiting in the list. */
  ghost predicate EventsOk(d: Data) {
    TakenUpTo(d.events, d.nextEvent) && d.emitted == d.returned + AllTokens(d.events)
  }

  ghost predicate Inv(s: State) {
    Turns(s.ctl) && Offers(s.ctl) && BytesOk(s.data, s.ctl) && EventsOk(s.data)
  }

  lemma {:induction false} AllTokensConcat(a: seq<Event>, b: seq<Event>)
    ensures AllTokens(a + b) == AllTokens(a) + AllTokens(b)
    decreases |b|
  {
    hide Tokens;
    if b == [] {
      assert a + b == a;
    } else {
      var init := b[..|b| - 1];
      AllTokensConcat(a, init);
      assert (a + b)[..|a + b| - 1] == a + init;
    }
  }

  lemma PushedTokens(events: seq<Event>, e: Event, n: nat)
    requires TakenUpTo(events, n)
    ensures TakenUpTo(Pushed(events, e), n)
    ensures AllTokens(Pushed(events, e)) == AllTokens(events) + Tokens(e)
  {
    var r := Pushed(events, e);
    if |r| == |events| {
      var last := events[|events| - 1];
      assert r[..|r| - 1] == events[..|events| - 1];
      assert Tokens(Write(e.level, last.data + e.data)) == Tokens(last) + Tokens(e);
    } else {
      assert r[..|r| - 1] == events;
    }
  }

  lemma {:induction false} PushedAllTokens(events: seq<Event>, es: seq<Event>, n: nat)
    requires TakenUpTo(events, n)
    ensures TakenUpTo(PushedAll(events, es), n)
    ensures AllTokens(PushedAll(events, es)) == AllTokens(events) + AllTokens(es)
    decreases |es|
  {
    hide Tokens, TakenUpTo, Pushed;
    if es != [] {
      PushedTokens(events, es[0], n);
      PushedAllTokens(Pushed(events, es[0]), es[1..], n);
      OneToken(es[0]);
      AllTokensConcat([es[0]], es[1..]);
      assert [es[0]] + es[1..] == es;
    }
  }

  lemma OneToken(e: Event)
    ensures AllTokens([e]) == Tokens(e)
  {
    hide Tokens;
    assert [e][..0] == [];
    assert AllTokens([e]) == AllTokens([e][..0]) + Tokens(e);
  }

  /** Taken events stand for nothing. */
  lemma {:induction false} TakenTokens(events: seq<Event>, n: nat)
    requires TakenUpTo(events, n)
    ensures AllTokens(events[..n]) == []
  {
    if n > 0 {
      assert events[..n][..n - 1] == events[..n - 1];
      TakenTokens(events, n - 1);
    }
  }

  /** Returning the next event takes its tokens off the front of those that wait. */
  lemma PoppedEvents(d: Data)
    requires EventsOk(d)
    ensures EventsOk(Popped(d))
  {
    hide AllTokens, Tokens;
    var es, n := d.events, d.nextEvent;
    TakenTokens(es, n);
    if n >= |es| {
      assert es[..n] == es;
      AllTokensNone();
    } else {
      Parts(es, n, es[n]);
      Parts(es, n, Taken);
      assert es[n := es[n]] == es;
      TakenNothing();
      var tail := AllTokens(es[n + 1..]);
      assert AllTokens(es) == Tokens(es[n]) + tail && AllTokens(es[n := Taken]) == tail;
      assert d.returned + (Tokens(es[n]) + tail) == (d.returned + Tokens(es[n])) + tail;
    }
  }

  lemma AllTokensNone()
    ensures AllTokens([]) == []
  {
  }

  lemma TakenNothing()
    ensures Tokens(Taken) == []
  {
  }

  /** The tokens of a list with one event replaced. */
  lemma Parts(es: seq<Event>, n: nat, e: Event)
    requires n < |es|
    ensures AllTokens(es[n := e]) == AllTokens(es[..n]) + Tokens(e) + AllTokens(es[n + 1..])
  {
    hide AllTokens, Tokens;
    assert es[n := e] == es[..n] + [e] + es[n + 1..];
    AllTokensConcat(es[..n] + [e], es[n + 1..]);
    AllTokensConcat(es[..n], [e]);
    OneToken(e);
  }

  lemma StepEvents(d: Data, c: Control, a: Step)
    requires EventsOk(d)
    ensures EventsOk(Change(d, c, a))
  {
    hide AllTokens, Tokens, PushedAll, TakenUpTo, Popped, Held;
    match a
    case Emit(e) => PushedAllTokens(d.events, [e], d.nextEvent);
    case ResumeSession => PushedAllTokens(d.events, [Other(RESUME_KIND)], d.nextEvent);
    case Finish(last) => PushedAllTokens(d.events, last, d.nextEvent);
    case CallNextEvent => PoppedEvents(d);
    case ReceiveBlocked => PoppedEvents(d);
    case BlockedWasClosed => PoppedEvents(d);
    case _ =>
  }

  lemma StepTurns(c: Control, drained: bool, a: Step)
    requires Turns(c) && Offers(c) && Can(c, a)
    ensures Turns(Steer(c, drained, a)) && Offers(Steer(c, drained, a))
  {
  }

  lemma StepBytes(d: Data, c: Control, drained: bool, a: Step)
    requires Turns(c) && BytesOk(d, c) && Can(c, a)
    ensures BytesOk(Change(d, c, a), Steer(c, drained, a))
  {
    hide AllTokens, PushedAll, Tokens;
  }

  /** Every step keeps the invariant. */
  lemma StepInv(s: State, a: Step)
    requires Inv(s) && Enabled(s, a)
    ensures Inv(Do(s, a))
  {
    hide Turns, Offers, BytesOk, EventsOk, Can, Steer, Change;
    StepEvents(s.data, s.ctl, a);
    StepTurns(s.ctl, Drained(s.data), a);
    StepBytes(s.data, s.ctl, Drained(s.data), a);
  }

  ghost predicate Run(states: seq<State>, steps: seq<Step>) {
    && |states| == |steps| + 1 && states[0] == Start(states[0].ctl.config)
    && forall i :: 0 <= i < |steps| ==> Enabled(states[i], steps[i]) && states[i + 1] == Do(states[i], steps[i])
  }

  lemma {:induction false} RunInv(states: seq<State>, steps: seq<Step>, k: nat)
    requires Run(states, steps) && k < |states|
    ensures Inv(states[k])
  {
    if k > 0 {
      RunInv(states, steps, k - 1);
      hide Inv;
      StepInv(states[k - 1], steps[k - 1]);
    }
  }

  // ----- turns between calls, one owner, and draining

  /** The goroutine between calls: not started, parked, done, or cancelled and on its way out. */
  ghost predicate AtRest(s: State) {
    s.ctl.user.Idle? ==> s.ctl.go.NotStarted? || s.ctl.go.Parked? || !BlockedOpen(s.ctl.go) || (s.ctl.go.Unwinding? && s.ctl.cancelled)
  }

  /** The steps that touch the read buffer or the list of events, by side. */
  ghost predicate GoroutineTouches(a: Step) { a.Emit? || a.ResumeSession? || a.Finish? }

  ghost predicate UserTouches(s: State, a: Step) {
    || a.CallHandleData? || a.CallNextEvent? || a.AppendRest?
    || (a.BlockedWasClosed? && s.ctl.user == Blocking(NextEvent))
  }

  /** Read buffer and events have one owner at a time: never are steps of both sides possible. */
  ghost predicate OneOwner(s: State) {
    forall a, b :: Enabled(s, a) && GoroutineTouches(a) ==> !(Enabled(s, b) && UserTouches(s, b))
  }

  /** The handshake does not go on while an offered session has not been taken. */
  ghost predicate Drains(s: State) {
    forall a :: Enabled(s, a) && GoroutineTouches(a) ==> !s.ctl.waitingForDrain
  }

  ghost predicate WellBehaved(s: State) { AtRest(s) && OneOwner(s) && Drains(s) }

  /** The one thing that must not happen: a client is cancelled while it offers a session. */
  ghost predicate Exposed(s: State) { s.ctl.config.client && s.ctl.resuming && s.ctl.cancelled }

  lemma NotIgnored(s: State)
    requires Inv(s) && !s.ctl.ignored
    ensures WellBehaved(s)
  {
    hide EventsOk, BytesOk;
  }

  /** What exposes a run can be seen in it before anything is ignored. */
  lemma {:induction false} UnexposedRun(states: seq<State>, steps: seq<Step>, k: nat)
    requires Run(states, steps) && k < |states| && forall i :: 0 <= i < k ==> !Exposed(states[i])
    ensures !states[k].ctl.ignored
  {
    hide Do, Enabled, Exposed;
    if k > 0 {
      UnexposedRun(states, steps, k - 1);
      StepConfig(states[k - 1], steps[k - 1]);
    }
  }

  lemma StepConfig(s: State, a: Step)
    requires Enabled(s, a)
    ensures Do(s, a).ctl.config == s.ctl.config
    ensures !s.ctl.ignored && !Exposed(s) ==> !Do(s, a).ctl.ignored
  {
    hide Change;
  }

  /** As long as no client is cancelled while it offers a session, the goroutine is at rest between
      calls, buffer and events have one owner, and sessions are taken before the handshake goes on. */
  lemma UnexposedBehaves(states: seq<State>, steps: seq<Step>, k: nat)
    requires Run(states, steps) && k < |states| && forall i :: 0 <= i < k ==> !Exposed(states[i])
    ensures WellBehaved(states[k])
  {
    hide Inv, WellBehaved, Run;
    RunInv(states, steps, k);
    UnexposedRun(states, steps, k);
    NotIgnored(states[k]);
  }

  /** `cancels` says whether the caller may cancel while a session is on offer. */
  ghost predicate Permitted(config: Config, cancels: bool, states: seq<State>, steps: seq<Step>) {
    && Run(states, steps) && states[0].ctl.config == config
    && (!cancels ==> forall i :: 0 <= i < |states| ==> !(states[i].ctl.resuming && states[i].ctl.cancelled))
  }

  lemma Unexposed(config: Config, cancels: bool, states: seq<State>, steps: seq<Step>, i: nat)
    requires Permitted(config, cancels, states, steps) && !(config.client && config.sessionEvents && cancels) && i < |states|
    ensures !Exposed(states[i])
  {
    RunInv(states, steps, i);
    SameConfig(states, steps, i);
  }

  lemma {:induction false} SameConfig(states: seq<State>, steps: seq<Step>, k: nat)
    requires Run(states, steps) && k < |states|
    ensures states[k].ctl.config == states[0].ctl.config
  {
    hide Do, Enabled;
    if k > 0 {
      SameConfig(states, steps, k - 1);
      StepConfig(states[k - 1], steps[k - 1]);
    }
  }

  /** A client that offers a session, parks, and is cancelled between calls: it ignores the error and goes
      on with the handshake, although the session has not been taken, while its user is between calls. */
  lemma IgnoredCancel(config: Config) returns (states: seq<State>, steps: seq<Step>)
    requires config.client && config.sessionEvents
    ensures Permitted(config, true, states, steps) && |states| > 0
    ensures var s := states[|states| - 1];
            && s.ctl.user.Idle? && s.ctl.go.Working? && s.ctl.waitingForDrain
            && Enabled(s, Emit(Other(1))) && Enabled(s, CallNextEvent)
            && !AtRest(s) && !OneOwner(s) && !Drains(s)
  {
    hide Change, AtRest, OneOwner, Drains, Can, Steer;
    var s0 := Start(config);
    Launches(s0);
    var s1 := Do(s0, CallStart(true));
    Offered(s1);
    var s2 := Do(s1, ResumeSession);
    TurnTaken(s2);
    var s3 := Do(s2, ReceiveBlocked);
    Cancelled(s3);
    var s4 := Do(s3, Cancel);
    CancelIgnored(s4);
    var s5 := Do(s4, NoticeCancel);
    states, steps := [s0, s1, s2, s3, s4, s5], [CallStart(true), ResumeSession, ReceiveBlocked, Cancel, NoticeCancel];
    IgnoredIsBad(s5);
  }

  lemma Launches(s: State)
    requires s.ctl.user.Idle? && !s.ctl.started
    ensures Enabled(s, CallStart(true)) && Do(s, CallStart(true)).ctl == s.ctl.(started := true, go := Working, user := Starting)
  {
    hide Change;
  }

  lemma Offered(s: State)
    requires s.ctl.go.Working? && !s.ctl.resuming && s.ctl.config.sessionEvents
    ensures Enabled(s, ResumeSession) && Do(s, ResumeSession).ctl == s.ctl.(waitingForDrain := true, resuming := true, go := Offering)
  {
    hide Change;
  }

  lemma TurnTaken(s: State)
    requires s.ctl.user.Starting? && s.ctl.go.Offering?
    ensures Enabled(s, ReceiveBlocked) && Do(s, ReceiveBlocked).ctl == s.ctl.(go := Parked, user := Idle)
  {
    hide Change;
  }

  lemma Cancelled(s: State)
    ensures Enabled(s, Cancel) && Do(s, Cancel).ctl == s.ctl.(cancelled := true)
  {
    hide Change;
  }

  lemma CancelIgnored(s: State)
    requires s.ctl.cancelled && s.ctl.go.Parked? && s.ctl.resuming && s.ctl.config.client
    ensures Enabled(s, NoticeCancel) && Do(s, NoticeCancel).ctl == s.ctl.(go := Working, resuming := false, ignored := true)
  {
    hide Change;
  }

  lemma IgnoredIsBad(s: State)
    requires s.ctl.user.Idle? && s.ctl.go.Working? && !s.ctl.resuming && s.ctl.waitingForDrain
    ensures Enabled(s, Emit(Other(1))) && Enabled(s, CallNextEvent)
    ensures !AtRest(s) && !OneOwner(s) && !Drains(s)
  {
    assert Enabled(s, Emit(Other(1))) && GoroutineTouches(Emit(Other(1)));
    assert Enabled(s, CallNextEvent) && UserTouches(s, CallNextEvent);
  }

  /** So all runs of a connection are well-behaved if and only if it is a server, or session events are
      off, or it is never cancelled while a session is on offer. */
  lemma BehavesIff(config: Config, cancels: bool)
    ensures (forall states, steps, k :: Permitted(config, cancels, states, steps) && 0 <= k < |states| ==> WellBehaved(states[k]))
       <==> !(config.client && config.sessionEvents && cancels)
  {
    if config.client && config.sessionEvents && cancels {
      var states, steps := IgnoredCancel(config);
      assert !WellBehaved(states[|states| - 1]);
    } else {
      forall states, steps, k | Permitted(config, cancels, states, steps) && 0 <= k < |states| ensures WellBehaved(states[k]) {
        forall i | 0 <= i < k ensures !Exposed(states[i]) { Unexposed(config, cancels, states, steps, i); }
        UnexposedBehaves(states, steps, k);
      }
    }
  }

  /** Between calls every byte given at the right level has been appended, once and in order, cancelled or
      not. */
  lemma BetweenCalls(states: seq<State>, steps: seq<Step>, k: nat)
    requires Run(states, steps) && k < |states| && states[k].ctl.user.Idle?
    ensures states[k].data.appended == states[k].data.given && states[k].data.readbuf.None?
  {
    RunInv(states, steps, k);
  }

  /** An offered session counts as taken only when every event so far has been returned. */
  lemma DrainedBeforeResume(states: seq<State>, steps: seq<Step>, k: nat)
    requires Run(states, steps) && k < |steps|
    requires states[k].ctl.waitingForDrain && !states[k + 1].ctl.waitingForDrain
    ensures steps[k].CallNextEvent? && states[k].data.returned == states[k].data.emitted
  {
    hide Inv, Do, Enabled;
    RunInv(states, steps, k);
    DrainStep(states[k], steps[k]);
  }

  lemma DrainStep(s: State, a: Step)
    requires Inv(s) && Enabled(s, a) && s.ctl.waitingForDrain && !Do(s, a).ctl.waitingForDrain
    ensures a.CallNextEvent? && s.data.returned == s.data.emitted
  {
    hide AllTokens, PushedAll, Tokens;
    TakenTokens(s.data.events, s.data.nextEvent);
    assert s.data.nextEvent >= |s.data.events| ==> s.data.events[..s.data.nextEvent] == s.data.events;
  }

  // ----- no deadlock

  /** A step of the two processes within a call. */
  ghost predicate Inner(a: Step) {
    !a.CallStart? && !a.CallHandleData? && !a.CallNextEvent? && !a.CallSetParameters? && !a.CallClose? && !a.Cancel?
  }

  ghost function UserRank(u: User): nat {
    match u
    case Idle => 0
    case Appending => 10
    case Starting => 20
    case Blocking(_) => 20
    case Closing => 30
    case Signalling(_) => 40
  }

  ghost function GoroutineRank(g: Goroutine): nat {
    match g
    case Working => 8
    case Offering => 7
    case Parked => 6
    case Unwinding => 5
    case BlockedClosed => 4
    case BothClosed => 3
    case Exited => 2
    case NotStarted => 0
  }

  ghost function Rank(s: State): nat {
    UserRank(s.ctl.user) + GoroutineRank(s.ctl.go) + if s.ctl.resuming then 10 else 0
  }

  /** Within a call every step but those that emit an event and go on brings its end closer. */
  lemma InnerDescends(s: State, a: Step)
    requires Inv(s) && Enabled(s, a) && Inner(a) && !a.Emit? && !a.ResumeSession?
    ensures Rank(Do(s, a)) < Rank(s)
  {
    hide BytesOk, EventsOk, Change;
  }

  /** A call gets stuck exactly when it reads from `signalc` and no goroutine was ever started: in
      every other state within a call there is a step to take. */
  lemma StuckIff(states: seq<State>, steps: seq<Step>, k: nat)
    requires Run(states, steps) && k < |states| && !states[k].ctl.user.Idle?
    ensures (forall a :: Inner(a) ==> !Enabled(states[k], a)) <==> states[k].ctl.user.Signalling? && states[k].ctl.go.NotStarted?
  {
    RunInv(states, steps, k);
    var s := states[k];
    if !(s.ctl.user.Signalling? && s.ctl.go.NotStarted?) {
      var a := match s.ctl.go
        case Working => Wait
        case Offering => if s.ctl.user.Starting? || s.ctl.user.Blocking? || s.ctl.user.Closing? then ReceiveBlocked else NoticeCancel
        case Unwinding => Unwound
        case BlockedClosed => CloseSignal
        case BothClosed => Return
        case Exited => if s.ctl.user.Signalling? then SignalWasClosed else if s.ctl.user.Appending? then AppendRest else BlockedWasClosed
        case Parked => if s.ctl.user.Signalling? then ReceiveSignal else NoticeCancel
        case NotStarted => Wait;
      assert Inner(a);
      assert Enabled(s, a);
    }
  }

  /** What a caller has to observe: `HandleData` only after a `Start` that launched the handshake, and
      no `SetTransportParameters` after one that did not. */
  ghost predicate WellUsed(s: State, a: Step) {
    && (a.CallHandleData? && a.rightLevel ==> !s.ctl.go.NotStarted?)
    && (a.CallSetParameters? && s.ctl.started ==> !s.ctl.go.NotStarted?)
  }

  /** Then no call ever deadlocks, not after a cancellation or the end of the handshake either; and
      a call that does not observe it gets stuck. */
  lemma {:induction false} NoDeadlock(states: seq<State>, steps: seq<Step>, k: nat)
    requires Run(states, steps) && k < |states|
    requires forall i :: 0 <= i < k ==> WellUsed(states[i], steps[i])
    ensures !(states[k].ctl.user.Signalling? && states[k].ctl.go.NotStarted?)
    ensures !states[k].ctl.user.Idle? ==> exists a :: Inner(a) && Enabled(states[k], a)
  {
    hide Inv, Do, Enabled, WellUsed, Inner;
    if k > 0 {
      NoDeadlock(states, steps, k - 1);
      RunInv(states, steps, k - 1);
      WellUsedStep(states[k - 1], steps[k - 1]);
    }
    if !states[k].ctl.user.Idle? { StuckIff(states, steps, k); }
  }

  lemma WellUsedStep(s: State, a: Step)
    requires Inv(s) && Enabled(s, a) && WellUsed(s, a) && !(s.ctl.user.Signalling? && s.ctl.go.NotStarted?)
    ensures var s' := Do(s, a); !(s'.ctl.user.Signalling? && s'.ctl.go.NotStarted?)
  {
    hide Change, EventsOk, BytesOk;
  }

  lemma MisuseSticks(s: State, a: Step)
    requires Inv(s) && Enabled(s, a) && !WellUsed(s, a)
    ensures var s' := Do(s, a); s'.ctl.user.Signalling? && s'.ctl.go.NotStarted? && forall b :: Inner(b) ==> !Enabled(s', b)
  {
  }
}
