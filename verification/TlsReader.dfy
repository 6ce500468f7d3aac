/**
  The receiving side of `conn.go`: `readRecordOrCCS` and `retryReadRecord`.
*/
module TlsReader {
  import opened Wire
  import opened TlsRecord

  const ALERT_TYPE: byte := 21
  const HANDSHAKE: byte := 22

  const LEVEL_WARNING: byte := 1
  const LEVEL_ERROR: byte := 2
  const CLOSE_NOTIFY: byte := 0

  const MAX_USELESS_RECORDS: nat := 32

  /** What one `Read` of the transport gives: bytes, or an error, and bytes with it perhaps. When nothing more
      arrives the peer has closed. */
  datatype Arrival = Chunk(data: bytes) | Trouble(data: bytes, temporary: bool)

  datatype Error =
    | PendingData
    | QuicTransport
    | NetError(temporary: bool)
    | Eof
    | UnexpectedEof
    | BadHeader
    | LocalAlert(alert: Alert)
    | RemoteAlert(code: byte)
    | TooManyIgnored

  datatype Result = Ok | Err(error: Error) | Panic

  /** What a successful call has done. */
  datatype Progress = Nothing | Grew(data: bytes) | Changed | Input(data: bytes)

  predicate Temporary(e: Error) { e.NetError? && e.temporary }

  /** What ended a call: a record, a read that failed, too many records that were ignored, or something that was
      amiss before. */
  datatype Cause = ByRecord | ByRead | ByLimit | Before

  // ----- the outcome of a record

  /** What is known when a record has been opened; `clear`: there is no cipher yet; `ready`: one has been
      prepared and may take over. */
  datatype Situation = Situation(vers: nat, complete: bool, handLeft: bool, expectCcs: bool, clear: bool, ready: bool)

  /** What is done about it. */
  datatype Verdict = Take(what: Progress) | Skip | Refuse(error: Error)

  /** The alert case of the switch. */
  function AlertVerdict(data: bytes, vers: nat): (v: Verdict) {
    if |data| != 2 then Refuse(LocalAlert(UnexpectedMessage))
    else if data[1] == CLOSE_NOTIFY then Refuse(Eof)
    else if vers == TLS13 then Refuse(RemoteAlert(data[1]))
    else if data[0] == LEVEL_WARNING then Skip
    else if data[0] == LEVEL_ERROR then Refuse(RemoteAlert(data[1]))
    else Refuse(LocalAlert(UnexpectedMessage))
  }

  function CcsVerdict(s: Situation, data: bytes): (v: Verdict) {
    if data != [1] then Refuse(LocalAlert(DecodeError))
    else if s.handLeft then Refuse(LocalAlert(UnexpectedMessage))
    else if s.vers == TLS13 && !s.complete then Skip
    else if !s.expectCcs then Refuse(LocalAlert(UnexpectedMessage))
    else if s.ready then Take(Changed) else Refuse(LocalAlert(InternalError))
  }

  /** The tests of `readRecordOrCCS` on an opened record, in their order. */
  function VerdictOf(s: Situation, data: bytes, typ: byte): (v: Verdict) {
    if |data| > MAX_PLAINTEXT then Refuse(LocalAlert(RecordOverflow))
    else if s.clear && typ == APPLICATION_DATA then Refuse(LocalAlert(UnexpectedMessage))
    else if s.vers == TLS13 && typ != HANDSHAKE && s.handLeft then Refuse(LocalAlert(UnexpectedMessage))
    else if typ == ALERT_TYPE then AlertVerdict(data, s.vers)
    else if typ == CHANGE_CIPHER_SPEC then CcsVerdict(s, data)
    else if typ == APPLICATION_DATA then
      if !s.complete || s.expectCcs then Refuse(LocalAlert(UnexpectedMessage))
      else if data == [] then Skip else Take(Input(data))
    else if typ == HANDSHAKE && data != [] && !s.expectCcs then Take(Grew(data))
    else Refuse(LocalAlert(UnexpectedMessage))
  }

  /** What keeps a record that is not a handshake message from being looked at. */
  ghost predicate Interleaved(s: Situation) { s.vers == TLS13 && s.handLeft }

  /** Exactly when a record makes progress, and which. */
  lemma TakenIff(s: Situation, data: bytes, typ: byte, what: Progress)
    ensures VerdictOf(s, data, typ) == Take(what) <==>
              match what
              case Nothing => false
              case Grew(d) => typ == 22 && d == data && 0 < |data| <= 16384 && !s.expectCcs
              case Input(d) => typ == 23 && d == data && 0 < |data| <= 16384 && s.complete && !s.expectCcs && !s.clear && !Interleaved(s)
              case Changed => typ == 20 && data == [1] && s.expectCcs && s.ready && !s.handLeft && (s.vers == 0x0304 ==> s.complete)
  {
  }

  /** Exactly when it is ignored. */
  lemma SkippedIff(s: Situation, data: bytes, typ: byte)
    ensures VerdictOf(s, data, typ) == Skip <==>
              || (typ == 21 && |data| == 2 && data[0] == 1 && data[1] != 0 && s.vers != 0x0304)
              || (typ == 20 && data == [1] && s.vers == 0x0304 && !s.complete && !s.handLeft)
              || (typ == 23 && data == [] && s.complete && !s.expectCcs && !s.clear && !Interleaved(s))
  {
  }

  /** Exactly which error is returned for which record. All other records that neither make progress nor are
      ignored are unexpected messages. */
  lemma RefusedIff(s: Situation, data: bytes, typ: byte, e: Error)
    ensures VerdictOf(s, data, typ) == Refuse(e) ==> e.LocalAlert? || e.RemoteAlert? || e == Eof
    ensures VerdictOf(s, data, typ) == Refuse(Eof) <==> typ == 21 && |data| == 2 && data[1] == 0 && !Interleaved(s)
    ensures forall code :: VerdictOf(s, data, typ) == Refuse(RemoteAlert(code)) <==>
              typ == 21 && |data| == 2 && code == data[1] != 0 && !Interleaved(s) && (s.vers == 0x0304 || data[0] == 2)
    ensures VerdictOf(s, data, typ) == Refuse(LocalAlert(RecordOverflow)) <==> |data| > 16384
    ensures VerdictOf(s, data, typ) == Refuse(LocalAlert(DecodeError)) <==> typ == 20 && data != [1] && |data| <= 16384 && !Interleaved(s)
    ensures VerdictOf(s, data, typ) == Refuse(LocalAlert(InternalError)) <==>
              typ == 20 && data == [1] && s.expectCcs && !s.ready && !s.handLeft && (s.vers == 0x0304 ==> s.complete)
    ensures VerdictOf(s, data, typ).Refuse? && VerdictOf(s, data, typ).error.LocalAlert? ==>
              VerdictOf(s, data, typ).error.alert in {RecordOverflow, DecodeError, InternalError, UnexpectedMessage}
  {
  }

  /** What a verdict never is. */
  lemma RefusedKind(s: Situation, data: bytes, typ: byte)
    ensures VerdictOf(s, data, typ) != Take(Nothing)
    ensures VerdictOf(s, data, typ).Refuse? ==> !Temporary(VerdictOf(s, data, typ).error)
  {
  }

  /** What comes of a record: a bad one is an alert, and on a good one the verdict stands; if its sequence number
      was the last, the counter panics. */
  ghost predicate Follows(s: Situation, o: Opening, r: Result, retry: bool, what: Progress) {
    match o
    case Fail(alert) => r == Err(LocalAlert(alert)) && !retry && what == Nothing
    case Plain(data, typ, half) =>
      if half.num >= Power(8) then r == Panic && !retry && what == Nothing
      else match VerdictOf(s, data, typ)
           case Take(w) => r == Ok && !retry && what == w
           case Skip => r == Ok && retry && what == Nothing
           case Refuse(e) => r == Err(e) && !retry && what == Nothing
  }

  lemma FollowsNot(s: Situation, o: Opening, outcome: Outcome, h: Half)
    requires Agrees(o, outcome, h) && !outcome.Got?
    ensures Follows(s, o, if outcome.Panicked? then Panic else Err(LocalAlert(outcome.alert)), false, Nothing)
  {
    hide Power;
  }

  lemma FollowsGot(s: Situation, o: Opening, data: bytes, typ: byte, h: Half)
    requires Agrees(o, Got(data, typ), h)
    ensures o.Plain? && o.data == data && o.typ == typ && o.half == h
    ensures forall r, retry, what :: Follows(s, o, r, retry, what) <==>
              match VerdictOf(s, data, typ)
              case Take(w) => r == Ok && !retry && what == w
              case Skip => r == Ok && retry && what == Nothing
              case Refuse(e) => r == Err(e) && !retry && what == Nothing
  {
    hide Power;
  }

  /** What it means that it follows. */
  lemma FollowsIff(s: Situation, o: Opening, r: Result, retry: bool, what: Progress)
    ensures Follows(s, o, r, retry, what) ==>
              && (o.Fail? ==> r == Err(LocalAlert(o.alert)) && what == Nothing)
              && (o.Plain? && o.half.num >= Power(8) ==> r == Panic && what == Nothing)
              && (o.Plain? && o.half.num < Power(8) ==>
                    && (forall w :: VerdictOf(s, o.data, o.typ) == Take(w) <==> r == Ok && !retry && what == w)
                    && (forall e :: VerdictOf(s, o.data, o.typ) == Refuse(e) <==> r == Err(e))
                    && (VerdictOf(s, o.data, o.typ) == Skip <==> retry))
  {
    hide Power;
    if o.Plain? { RefusedKind(s, o.data, o.typ); }
    hide VerdictOf;
  }

  /** From state `h` the records are all ignored in situation `s`, and lead to state `h'`. */
  ghost predicate Skips(h: Half, recs: seq<bytes>, s: Situation, h': Half)
    decreases |recs|
  {
    if recs == [] then h' == h
    else
      && Good(h) && |recs[0]| >= HEADER_LEN
      && var o := Opened(h, recs[0]);
      && o.Plain? && o.half.num < Power(8) && VerdictOf(s, o.data, o.typ) == Skip && Skips(o.half, recs[1..], s, h')
  }

  // ----- the header

  /** The tests on a record header: SSLv2, the version, what comes first on a connection, and the length. */
  function HeaderBad(hdr: bytes, vers: nat, haveVers: bool, complete: bool): (bad: bool)
    requires |hdr| == HEADER_LEN
  {
    var recordVers, n := hdr[1] as int * 256 + hdr[2], hdr[3] as int * 256 + hdr[4];
    || (!complete && hdr[0] == 0x80)
    || (haveVers && recordVers != if vers == TLS13 then TLS12 else vers)
    || (!haveVers && ((hdr[0] != ALERT_TYPE && hdr[0] != HANDSHAKE) || recordVers >= 0x1000))
    || (vers == TLS13 && n > MAX_CIPHERTEXT_13) || n > MAX_CIPHERTEXT
  }

  lemma HeaderBadIff(hdr: bytes, vers: nat, haveVers: bool, complete: bool)
    requires |hdr| == HEADER_LEN
    ensures !HeaderBad(hdr, vers, haveVers, complete) <==>
              && (hdr[0] == 0x80 ==> complete)
              && Value(hdr[3..5]) <= (if vers == 0x0304 then 16640 else 18432)
              && if haveVers then Value(hdr[1..3]) == (if vers == 0x0304 then 0x0303 else vers)
                 else hdr[0] in {21, 22} && Value(hdr[1..3]) < 0x1000
  {
    ValueTwo(hdr[1], hdr[2]);
    ValueTwo(hdr[3], hdr[4]);
    assert hdr[1..3] == [hdr[1], hdr[2]] && hdr[3..5] == [hdr[3], hdr[4]];
  }

  /** The bytes of a run of arrivals. */
  ghost function DataOf(net: seq<Arrival>): bytes {
    if net == [] then [] else DataOf(net[..|net| - 1]) + net[|net| - 1].data
  }

  /** `k` reads have been made, each because there were too few bytes still; the last one alone may have failed. */
  ghost predicate ReadSoFar(raw: bytes, net: seq<Arrival>, n: nat, k: nat, failed: bool) {
    && k <= |net| && (failed ==> k > 0 && net[k - 1].Trouble?)
    && (forall j :: 0 <= j < k ==> |raw| + |DataOf(net[..j])| < n)
    && forall j :: 0 <= j < (if failed then k - 1 else k) ==> !net[j].Trouble?
  }

  lemma ReadNothing(raw: bytes, net: seq<Arrival>, n: nat)
    ensures ReadSoFar(raw, net, n, 0, false) && raw + DataOf(net[..0]) == raw
  {
  }

  lemma ReadMore(raw: bytes, net: seq<Arrival>, n: nat, k: nat)
    requires ReadSoFar(raw, net, n, k, false) && k < |net| && |raw| + |DataOf(net[..k])| < n
    ensures ReadSoFar(raw, net, n, k + 1, net[k].Trouble?)
  {
    hide DataOf;
  }

  lemma Appended(a: bytes, b: bytes, c: bytes)
    ensures a + b + c == a + (b + c)
  {
  }

  lemma DataMore(net: seq<Arrival>, k: nat)
    requires k < |net|
    ensures DataOf(net[..k + 1]) == DataOf(net[..k]) + net[k].data
  {
    assert net[..k + 1][..k] == net[..k];
  }

  /** The input begins with a whole record whose header passes the tests. */
  ghost predicate Whole(raw: bytes, vers: nat, haveVers: bool, complete: bool) {
    |raw| >= HEADER_LEN && !HeaderBad(raw[..HEADER_LEN], vers, haveVers, complete) && |raw| >= HEADER_LEN + Value(raw[3..5])
  }

  ghost function FirstOf(raw: bytes): bytes
    requires |raw| >= HEADER_LEN && |raw| >= HEADER_LEN + Value(raw[3..5])
  {
    raw[..HEADER_LEN + Value(raw[3..5])]
  }

  class Conn {
    const inn: HalfConn
    var vers: nat
    var haveVers: bool
    var quic: bool
    var handshakeComplete: bool
    var rawInput: bytes
    var hand: bytes
    var input: bytes
    var retryCount: nat
    var err: Option<Error>
    var net: seq<Arrival>
    ghost var taken: bytes         // all the transport has delivered
    ghost var log: seq<bytes>      // the records taken off the input

    ghost predicate Valid()
      reads this, inn, inn.seqno
    {
      && inn.Valid() && inn.Prepared()
      && (err.None? ==> retryCount <= MAX_USELESS_RECORDS)
      && Flatten(log) + rawInput == taken
    }

    constructor (inn: HalfConn, vers: nat, haveVers: bool, quic: bool, net: seq<Arrival>)
      requires inn.Valid() && inn.Prepared()
      ensures Valid() && this.inn == inn && err == None && hand == input == [] && log == []
    {
      this.inn, this.vers, this.haveVers, this.quic, this.net := inn, vers, haveVers, quic, net;
      handshakeComplete, retryCount, err := false, 0, None;
      rawInput, hand, input, taken, log := [], [], [], [], [];
    }

    /** `readFromUntil`: it reads as long as there are fewer than `n` bytes, and keeps all that comes. It fails
        with the first error of the transport, that of a read which has given enough included, and when
        the peer closes too early. */
    method ReadFromUntil(n: nat) returns (e: Option<Error>, ghost k: nat)
      modifies this`rawInput, this`net, this`taken
      requires Flatten(log) + rawInput == taken
      ensures Flatten(log) + rawInput == taken
      ensures ReadSoFar(old(rawInput), old(net), n, k, e.Some? && e.value.NetError?) && net == old(net)[k..]
      ensures k <= |old(net)| && rawInput == old(rawInput) + DataOf(old(net)[..k])
      ensures e.None? ==> |rawInput| >= n
      ensures |old(rawInput)| >= n ==> e.None? && k == 0 && net == old(net) && rawInput == old(rawInput)
      ensures e.Some? ==> if e.value == UnexpectedEof then net == [] && |rawInput| < n
                          else k > 0 && old(net)[k - 1].Trouble? && e.value == NetError(old(net)[k - 1].temporary)
    {
      k := 0;
      ghost var raw0, net0 := rawInput, net;
      ReadNothing(raw0, net0, n);
      hide Flatten, DataOf, ReadSoFar;
      while |rawInput| < n
        invariant k <= |net0| && net == net0[k..] && rawInput == raw0 + DataOf(net0[..k])
        invariant Flatten(log) + rawInput == taken
        invariant ReadSoFar(raw0, net0, n, k, false) && (|raw0| >= n ==> k == 0)
        decreases |net|
      {
        if net == [] {
          return Some(UnexpectedEof), k;
        }
        var a := net[0];
        net := net[1..];
        DataMore(net0, k);
        ReadMore(raw0, net0, n, k);
        Appended(Flatten(log), rawInput, a.data);
        Appended(raw0, DataOf(net0[..k]), a.data);
        rawInput := rawInput + a.data;
        taken := taken + a.data;
        k := k + 1;
        if a.Trouble? {
          return Some(NetError(a.temporary)), k;
        }
      }
      return None, k;
    }

    /** `setErrorLocked` */
    method SetError(e: Error) returns (r: Result)
      modifies this`err
      ensures r == Err(e) && err == Some(e)
    {
      err := Some(e);
      r := Err(e);
    }

    /** An error of the transport is recorded unless it is temporary. */
    method NetTrouble(e: Error) returns (r: Result)
      modifies this`err
      ensures r == Err(e) && err == if Temporary(e) then old(err) else Some(e)
    {
      if !Temporary(e) {
        err := Some(e);
      }
      r := Err(e);
    }

    /** The first half of `readRecordOrCCS`: one whole record off the input, or an error. A record that is there is
        taken without reading; a header that does not pass is an error at once. */
    method TakeRecord() returns (r: Result, record: bytes)
      requires Valid() && err.None?
      modifies this`rawInput, this`net, this`taken, this`err, this`log
      ensures Valid() && r != Panic
      ensures r.Ok? ==> log == old(log) + [record] && err.None? && HEADER_LEN <= |record| <= HEADER_LEN + 0xFFFF
      ensures r.Ok? ==> Value(record[3..5]) == |record| - HEADER_LEN && !HeaderBad(record[..HEADER_LEN], vers, haveVers, handshakeComplete)
      ensures Behind(net, old(net))
      ensures r.Ok? ==> |net| <= |old(net)| && record + rawInput == old(rawInput) + DataOf(old(net)[..|old(net)| - |net|])
      ensures r.Err? ==> log == old(log) && err == (if Temporary(r.error) then None else Some(r.error)) && FailedRead(r.error)
      ensures Whole(old(rawInput), vers, haveVers, handshakeComplete) ==>
                r == Ok && net == old(net) && record == FirstOf(old(rawInput)) && rawInput == old(rawInput)[|record|..]
      ensures |old(rawInput)| >= HEADER_LEN && HeaderBad(old(rawInput)[..HEADER_LEN], vers, haveVers, handshakeComplete) ==>
                r == Err(BadHeader) && net == old(net) && rawInput == old(rawInput)
    {
      hide Good, Flatten, Power, Be, DataOf, HeaderBad, ReadSoFar, Value, Behind;
      record := [];
      ghost var raw0, net0 := rawInput, net;
      var n;
      ghost var k;
      r, n, k := TakeHeader();
      BehindBoth(net0, k, 0);
      if r.Err? {
        return;
      }
      ghost var raw1 := rawInput;
      r, record := TakeBody(n);
      SameHead(raw1, if r.Ok? then record else rawInput);
      BodyAfter(raw0, net0, k, net, record, rawInput, r.Ok?);
    }

    /** The five bytes of the header. */
    method TakeHeader() returns (r: Result, n: nat, ghost k: nat)
      requires Valid() && err.None?
      modifies this`rawInput, this`net, this`taken, this`err
      ensures Valid() && r != Panic && k <= |old(net)| && net == old(net)[k..] && rawInput == old(rawInput) + DataOf(old(net)[..k])
      ensures r.Ok? ==>
                && err.None? && |rawInput| >= HEADER_LEN && n == Value(rawInput[3..5]) <= 0xFFFF
                && !HeaderBad(rawInput[..HEADER_LEN], vers, haveVers, handshakeComplete)
      ensures r.Err? ==> err == (if Temporary(r.error) then None else Some(r.error)) && FailedRead(r.error)
      ensures |old(rawInput)| >= HEADER_LEN ==>
                && k == 0 && net == old(net) && rawInput == old(rawInput)
                && r == if HeaderBad(old(rawInput)[..HEADER_LEN], vers, haveVers, handshakeComplete) then Err(BadHeader) else Ok
    {
      hide Good, Flatten, Power, Be, DataOf, HeaderBad, ReadSoFar, Value;
      n := 0;
      var e;
      e, k := ReadFromUntil(HEADER_LEN);
      if e.Some? {
        r := NetTrouble(if e.value == UnexpectedEof && |rawInput| == 0 then Eof else e.value);
        return;
      }
      var hdr := rawInput[..HEADER_LEN];
      assert rawInput[3..5] == hdr[3..5];
      var ok;
      ok, n := CheckHeader(hdr);
      r := Ok;
      if !ok {
        r := SetError(BadHeader);
      }
    }

    /** The rest of the record, once its header has been read. */
    method TakeBody(n: nat) returns (r: Result, record: bytes)
      requires Valid() && err.None? && |rawInput| >= HEADER_LEN && n == Value(rawInput[3..5]) <= 0xFFFF
      modifies this`rawInput, this`net, this`taken, this`err, this`log
      ensures Valid() && r != Panic && |net| <= |old(net)| && Behind(net, old(net))
      ensures r.Ok? ==>
                && err.None? && log == old(log) + [record] && |record| == HEADER_LEN + n && record[..HEADER_LEN] == old(rawInput)[..HEADER_LEN]
                && record + rawInput == old(rawInput) + DataOf(old(net)[..|old(net)| - |net|])
      ensures r.Err? ==>
                && log == old(log) && err == (if Temporary(r.error) then None else Some(r.error)) && record == []
                && |rawInput| >= HEADER_LEN && rawInput[..HEADER_LEN] == old(rawInput)[..HEADER_LEN]
                && (if r.error.NetError? then exists a :: a in old(net) && a == Trouble(a.data, r.error.temporary)
                    else r.error == UnexpectedEof && net == [] && |rawInput| < HEADER_LEN + n)
      ensures |old(rawInput)| >= HEADER_LEN + n ==>
                r == Ok && net == old(net) && record == old(rawInput)[..HEADER_LEN + n] && rawInput == old(rawInput)[HEADER_LEN + n..]
    {
      hide Good, Flatten, Power, Be, DataOf, ReadSoFar, Value;
      record := [];
      ghost var raw0, net0 := rawInput, net;
      var e;
      ghost var m;
      e, m := ReadFromUntil(HEADER_LEN + n);
      BehindBoth(net0, m, 0);
      KeepsHead(raw0, DataOf(net0[..m]));
      if e.Some? {
        assert e.value.NetError? ==> net0[m - 1] in net0;
        r := NetTrouble(e.value);
        return;
      }
      r := Ok;
      record := rawInput[..HEADER_LEN + n];
      FlattenSnoc(log, record);
      assert rawInput == record + rawInput[HEADER_LEN + n..];
      rawInput := rawInput[HEADER_LEN + n..];
      log := log + [record];
    }

    /** The tests on the header, with the alerts they end in. */
    method CheckHeader(hdr: bytes) returns (ok: bool, n: nat)
      requires |hdr| == HEADER_LEN
      ensures ok == !HeaderBad(hdr, vers, haveVers, handshakeComplete) && n == Value(hdr[3..5]) <= 0xFFFF
    {
      ValueTwo(hdr[3], hdr[4]);
      assert hdr[3..5] == [hdr[3], hdr[4]];
      var typ := hdr[0];
      n := hdr[3] as int * 256 + hdr[4];
      if !handshakeComplete && typ == 0x80 {
        return false, n;
      }
      var recordVers := hdr[1] as int * 256 + hdr[2];
      var expectedVers := if vers == TLS13 then TLS12 else vers;
      if haveVers && recordVers != expectedVers {
        return false, n;
      }
      if !haveVers && ((typ != ALERT_TYPE && typ != HANDSHAKE) || recordVers >= 0x1000) {
        return false, n;
      }
      return !((vers == TLS13 && n > MAX_CIPHERTEXT_13) || n > MAX_CIPHERTEXT), n;
    }

    /** Why no record could be taken: the header does not pass, the transport has failed, or the peer has closed,
        inside a record or, as `Eof`, in front of one. */
    twostate predicate FailedRead(e: Error)
      reads this
    {
      match e
      case BadHeader => |rawInput| >= HEADER_LEN && HeaderBad(rawInput[..HEADER_LEN], vers, haveVers, handshakeComplete)
      case Eof => rawInput == [] && net == []
      case UnexpectedEof => rawInput != [] && net == [] && !Whole(rawInput, vers, haveVers, handshakeComplete)
      case NetError(temporary) => exists a :: a in old(net) && a == Trouble(a.data, temporary)
      case _ => false
    }

    /** The alert case: what an alert means, or that it is to be ignored. */
    method OnAlert(data: bytes) returns (ignore: bool, e: Error)
      ensures AlertVerdict(data, vers) == if ignore then Skip else Refuse(e)
    {
      ignore, e := false, LocalAlert(UnexpectedMessage);
      if |data| != 2 {
        return;
      }
      if data[1] == CLOSE_NOTIFY {
        e := Eof;
      } else if vers == TLS13 {
        e := RemoteAlert(data[1]);
      } else if data[0] == LEVEL_WARNING {
        ignore := true;
      } else if data[0] == LEVEL_ERROR {
        e := RemoteAlert(data[1]);
      }
    }

    /** The ChangeCipherSpec case. */
    method OnCcs(data: bytes, expectCcs: bool) returns (r: Result, retry: bool, ghost what: Progress)
      requires Valid() && err.None?
      modifies this`err, inn, inn.seqno
      ensures Valid()
      ensures match CcsVerdict(old(Here(expectCcs)), data)
              case Take(w) => r == Ok && !retry && what == w && err.None?
              case Skip => r == Ok && retry && what == Nothing && err.None? && Here(expectCcs) == old(Here(expectCcs))
              case Refuse(e) => r == Err(e) && !retry && what == Nothing && err == Some(e)
      ensures what == Changed || what == Nothing
      ensures what.Changed? ==> inn.Now() == Half(old(inn.version), old(inn.nextCipher), old(inn.nextMac), 0)
      ensures !what.Changed? ==> inn.Now() == old(inn.Now()) && inn.nextCipher == old(inn.nextCipher) && inn.nextMac == old(inn.nextMac)
    {
      hide Flatten, Good, Value, Power;
      r, retry, what := Ok, false, Nothing;
      if |data| != 1 || data[0] != 1 {
        r := SetError(LocalAlert(DecodeError));
      } else if |hand| > 0 {
        r := SetError(LocalAlert(UnexpectedMessage));
      } else if vers == TLS13 && !handshakeComplete {
        retry := true;
      } else if !expectCcs {
        r := SetError(LocalAlert(UnexpectedMessage));
      } else {
        var ok := inn.Change();
        if ok {
          what := Changed;
        } else {
          r := SetError(LocalAlert(InternalError));
        }
      }
    }

    ghost function Here(expectCcs: bool): (s: Situation)
      reads this, inn
    {
      Situation(vers, handshakeComplete, |hand| > 0, expectCcs, inn.cipher.NoCipher?, !inn.nextCipher.NoCipher? && inn.version != TLS13)
    }

    /** The second half of `readRecordOrCCS`: what is done about a record is what the verdict says, and nothing
        else changes. */
    method Process(data: bytes, typ: byte, expectCcs: bool, ghost o: Opening) returns (r: Result, retry: bool, ghost what: Progress)
      requires Valid() && err.None? && input == []
      requires o.Plain? && o.data == data && o.typ == typ && o.half == inn.Now()
      modifies this`err, this`hand, this`input, this`retryCount, inn, inn.seqno
      ensures Valid()
      ensures match VerdictOf(old(Here(expectCcs)), data, typ)
              case Take(w) => r == Ok && !retry && what == w && err.None?
              case Skip => r == Ok && retry && what == Nothing && err.None? && retryCount == old(retryCount)
              case Refuse(e) => r == Err(e) && !retry && what == Nothing && err == Some(e)
      ensures retry ==> Here(expectCcs) == old(Here(expectCcs))
      ensures what.Grew? || what.Input? ==> retryCount == 0
      ensures retryCount == 0 || retryCount == old(retryCount)
      ensures hand == old(hand) + (if what.Grew? then what.data else [])
      ensures input == if what.Input? then what.data else []
      ensures what.Changed? ==> inn.Now() == Half(old(inn.version), old(inn.nextCipher), old(inn.nextMac), 0)
      ensures !what.Changed? ==> inn.Now() == old(inn.Now()) && inn.nextCipher == old(inn.nextCipher) && inn.nextMac == old(inn.nextMac)
    {
      hide Flatten, Good, Value, Power, AlertVerdict, CcsVerdict;
      retry, what := false, Nothing;
      if |data| > MAX_PLAINTEXT {
        r := SetError(LocalAlert(RecordOverflow));
        return;
      }
      if inn.cipher.NoCipher? && typ == APPLICATION_DATA {
        r := SetError(LocalAlert(UnexpectedMessage));
        return;
      }
      if typ != ALERT_TYPE && typ != CHANGE_CIPHER_SPEC && |data| > 0 {
        retryCount := 0;
      }
      if vers == TLS13 && typ != HANDSHAKE && |hand| > 0 {
        r := SetError(LocalAlert(UnexpectedMessage));
        return;
      }
      r := Ok;
      if typ == ALERT_TYPE {
        var ignore, e := OnAlert(data);
        if ignore {
          retry := true;
        } else {
          r := SetError(e);
        }
      } else if typ == CHANGE_CIPHER_SPEC {
        r, retry, what := OnCcs(data, expectCcs);
      } else if typ == APPLICATION_DATA {
        if !handshakeComplete || expectCcs {
          r := SetError(LocalAlert(UnexpectedMessage));
        } else if |data| == 0 {
          retry := true;
        } else {
          input := data;
          what := Input(data);
        }
      } else if typ == HANDSHAKE {
        if |data| == 0 || expectCcs {
          r := SetError(LocalAlert(UnexpectedMessage));
        } else {
          hand := hand + data;
          what := Grew(data);
        }
      } else {
        r := SetError(LocalAlert(UnexpectedMessage));
      }
    }

    /** What a call has changed if it made this progress: the handshake buffer grows by the data, or the input is
        set to them, or the prepared cipher takes over at record zero; and nothing else. */
    twostate predicate Advances(what: Progress, after: Half)
      reads this, inn, inn.seqno
    {
      && hand == old(hand) + (if what.Grew? then what.data else [])
      && input == (if what.Input? then what.data else [])
      && (what.Grew? || what.Input? ==> retryCount == 0 && inn.Now() == after)
      && (if what.Changed? then inn.Now() == Half(after.version, old(inn.nextCipher), old(inn.nextMac), 0)
          else inn.nextCipher == old(inn.nextCipher) && inn.nextMac == old(inn.nextMac))
    }

    /** How a call ends that has looked for a record, with room for so many to be ignored: by the first record that
        is not, and what follows from it is the verdict on it; or because reading one has failed, or more
        have been ignored than there was room for. The records are taken off in order. */
    twostate predicate Ended(log0: seq<bytes>, s: Situation, room: int, r: Result, what: Progress, skipped: seq<bytes>, last: bytes, mid: Half, cause: Cause)
      reads this, inn, inn.seqno
    {
      && (if cause.ByRecord? then
            && log == log0 + skipped + [last] && |last| >= HEADER_LEN && Good(mid) && |skipped| <= room
            && Follows(s, Opened(mid, last), r, false, what)
            && (r.Ok? ==> err.None? && Advances(what, if what.Changed? then mid else Opened(mid, last).half))
          else if cause.ByRead? then log == log0 + skipped && |skipped| <= room && r.Err? && FailedRead(r.error)
          else cause.ByLimit? && log == log0 + skipped && |skipped| == room + 1 && r == Err(TooManyIgnored))
      && Skips(old(inn.Now()), skipped, s, mid) && Behind(net, old(net))
      && (!r.Ok? ==> what == Nothing && hand == old(hand) && input == [])
      && (r.Err? ==> if Temporary(r.error) then err == old(err) else err == Some(r.error))
    }

    /** `readRecordOrCCS`. At most 32 records in a row are ignored. Exactly one of four things happens: the
        handshake buffer grows, the cipher changes, application data is set, or an error is returned. An error
        that is not temporary is there to stay. */
    method ReadRecordOrCcs(expectCcs: bool)
        returns (r: Result, ghost what: Progress, ghost skipped: seq<bytes>, ghost last: bytes, ghost mid: Half, ghost cause: Cause)
      requires Valid()
      modifies this`rawInput, this`net, this`taken, this`err, this`log, this`hand, this`input, this`retryCount, inn, inn.seqno
      ensures r != Panic ==> Valid()
      ensures cause.Before? <==> !(old(err).None? && old(input) == [] && !quic)
      ensures cause.Before? ==>
                && r == Err(if old(err).Some? then old(err).value else if old(input) != [] then PendingData else QuicTransport)
                && err == Some(r.error) && log == old(log) && hand == old(hand) && inn.Now() == old(inn.Now())
      ensures !cause.Before? ==> Ended(old(log), old(Here(expectCcs)), MAX_USELESS_RECORDS - old(retryCount), r, what, skipped, last, mid, cause)
      ensures !cause.Before? ==> FirstIs(old(rawInput), old(log), log, r)
      decreases if err.Some? then 0 else 1 + MAX_USELESS_RECORDS - retryCount, 3
    {
      hide Flatten, Good, Opened, Value, Power, Skips, VerdictOf, HeaderBad, Follows, DataOf, Behind, FirstOf, Whole, FirstIs;
      what, skipped, last, mid, cause := Nothing, [], [], inn.Now(), Before;
      if err.Some? {
        r := Err(err.value);
        return;
      }
      if |input| != 0 {
        r := SetError(PendingData);
        return;
      }
      input := [];
      if quic {
        r := SetError(QuicTransport);
        return;
      }
      r, what, skipped, last, mid, cause := NextRecord(expectCcs);
    }

    /** What is there at the start decides about the first record: if it is whole it is the one taken, and a bad
        header is an error at once. */
    ghost predicate FirstIs(raw: bytes, log0: seq<bytes>, log: seq<bytes>, r: Result)
      reads this
    {
      && (Whole(raw, vers, haveVers, handshakeComplete) ==> |log| > |log0| && log[|log0|] == FirstOf(raw))
      && (|raw| >= HEADER_LEN && HeaderBad(raw[..HEADER_LEN], vers, haveVers, handshakeComplete) ==> r == Err(BadHeader))
    }

    /** The same once nothing is amiss. */
    method NextRecord(expectCcs: bool)
        returns (r: Result, ghost what: Progress, ghost skipped: seq<bytes>, ghost last: bytes, ghost mid: Half, ghost cause: Cause)
      requires Valid() && err.None? && input == [] && !quic
      modifies this`rawInput, this`net, this`taken, this`err, this`log, this`hand, this`input, this`retryCount, inn, inn.seqno
      ensures r != Panic ==> Valid()
      ensures Ended(old(log), old(Here(expectCcs)), MAX_USELESS_RECORDS - old(retryCount), r, what, skipped, last, mid, cause) && !cause.Before?
      ensures FirstIs(old(rawInput), old(log), log, r)
      decreases if err.Some? then 0 else 1 + MAX_USELESS_RECORDS - retryCount, 2
    {
      hide Flatten, Good, Opened, Value, Power, Skips, VerdictOf, HeaderBad, Follows, DataOf, Behind, FirstOf, Whole;
      what, skipped, last, mid, cause := Nothing, [], [], inn.Now(), ByRead;
      ghost var log0, net0 := log, net;
      SkipsNone(inn.Now(), Here(expectCcs));
      var record;
      r, record := TakeRecord();
      if r.Err? {
        return;
      }
      ghost var net1 := net;
      r, what, skipped, last, mid, cause := HandleRecord(record, expectCcs, log0);
      BehindIn(net, net1, net0);
    }

    /** The same once a record has been taken. */
    method HandleRecord(record: bytes, expectCcs: bool, ghost log0: seq<bytes>)
        returns (r: Result, ghost what: Progress, ghost skipped: seq<bytes>, ghost last: bytes, ghost mid: Half, ghost cause: Cause)
      requires Valid() && err.None? && input == [] && !quic && HEADER_LEN <= |record| <= HEADER_LEN + 0xFFFF && log == log0 + [record]
      modifies this`rawInput, this`net, this`taken, this`err, this`log, this`hand, this`input, this`retryCount, inn, inn.seqno
      ensures r != Panic ==> Valid()
      ensures Ended(log0, old(Here(expectCcs)), MAX_USELESS_RECORDS - old(retryCount), r, what, skipped, last, mid, cause) && !cause.Before?
      ensures old(log) <= log
      decreases if err.Some? then 0 else 1 + MAX_USELESS_RECORDS - retryCount, 1
    {
      hide Flatten, Good, Opened, Value, Power, Skips, VerdictOf, HeaderBad, Follows, DataOf, Behind, FirstOf, Whole;
      ghost var h, s := inn.Now(), Here(expectCcs);
      SkipsNone(h, s);
      BehindSelf(net);
      what, skipped, last, mid, cause := Nothing, [], record, h, ByRecord;
      var retry;
      r, retry, what := OnRecord(record, expectCcs);
      LogMore(log0, record, [], []);
      if retry {
        SkipsMore(h, record, s);
        r, what, skipped, last, mid, cause := Retry(expectCcs);
        LogMore(log0, record, skipped, last);
        skipped := [record] + skipped;
      }
    }

    /** A record that has been taken off the input is opened and acted on. */
    method OnRecord(record: bytes, expectCcs: bool) returns (r: Result, retry: bool, ghost what: Progress)
      requires Valid() && err.None? && input == [] && HEADER_LEN <= |record| <= HEADER_LEN + 0xFFFF
      modifies this`err, this`hand, this`input, this`retryCount, inn, inn.seqno
      ensures r != Panic ==> Valid()
      ensures Good(old(inn.Now())) && Follows(old(Here(expectCcs)), Opened(old(inn.Now()), record), r, retry, what)
      ensures r.Err? ==> !Temporary(r.error) && err == Some(r.error)
      ensures !r.Ok? ==> !retry && what == Nothing && hand == old(hand) && input == []
      ensures r.Ok? ==> err.None? && (retry <==> what == Nothing) && Opened(old(inn.Now()), record).Plain?
      ensures retry ==>
                && inn.Now() == Opened(old(inn.Now()), record).half && retryCount == old(retryCount) && Here(expectCcs) == old(Here(expectCcs))
                && hand == old(hand) && input == [] && inn.nextCipher == old(inn.nextCipher) && inn.nextMac == old(inn.nextMac)
      ensures what != Nothing ==> Advances(what, if what.Changed? then old(inn.Now()) else Opened(old(inn.Now()), record).half)
    {
      hide Flatten, Good, Opened, Value, Power, VerdictOf, Follows, Agrees;
      retry, what := false, Nothing;
      ghost var o, s := Opened(inn.Now(), record), Here(expectCcs);
      var outcome := inn.Decrypt(record);
      match outcome {
        case Panicked =>
          FollowsNot(s, o, outcome, inn.Now());
          r := Panic;
        case Failed(alert) =>
          FollowsNot(s, o, outcome, inn.Now());
          r := SetError(LocalAlert(alert));
        case Got(data, typ) =>
          FollowsGot(s, o, data, typ, inn.Now());
          assert Here(expectCcs) == s;
          RefusedKind(s, data, typ);
          r, retry, what := Process(data, typ, expectCcs, o);
      }
    }

    /** `retryReadRecord`: the record is counted, and after 32 of them the connection is given up. */
    method Retry(expectCcs: bool)
        returns (r: Result, ghost what: Progress, ghost skipped: seq<bytes>, ghost last: bytes, ghost mid: Half, ghost cause: Cause)
      requires Valid() && err.None? && input == [] && !quic
      modifies this`rawInput, this`net, this`taken, this`err, this`log, this`hand, this`input, this`retryCount, inn, inn.seqno
      ensures r != Panic ==> Valid()
      ensures Ended(old(log), old(Here(expectCcs)), MAX_USELESS_RECORDS - old(retryCount) - 1, r, what, skipped, last, mid, cause) && !cause.Before?
      ensures old(log) <= log
      decreases if err.Some? then 0 else 1 + MAX_USELESS_RECORDS - retryCount, 0
    {
      hide Flatten, Good, Opened, Value, Power, Skips, VerdictOf, HeaderBad, Follows, DataOf, Behind, FirstOf, Whole, FirstIs;
      what, skipped, last, mid, cause := Nothing, [], [], inn.Now(), ByLimit;
      SkipsNone(inn.Now(), Here(expectCcs));
      BehindSelf(net);
      retryCount := retryCount + 1;
      if retryCount > MAX_USELESS_RECORDS {
        r := SetError(TooManyIgnored);
        return;
      }
      r, what, skipped, last, mid, cause := ReadRecordOrCcs(expectCcs);
    }
  }

  /** Header and body together. */
  lemma BodyAfter(raw: bytes, net: seq<Arrival>, k: nat, net': seq<Arrival>, record: bytes, raw': bytes, ok: bool)
    requires k <= |net| && Behind(net', net[k..])
    requires ok ==> record + raw' == raw + DataOf(net[..k]) + DataOf(net[k..][..|net[k..]| - |net'|])
    ensures Behind(net', net) && (ok ==> record + raw' == raw + DataOf(net[..|net| - |net'|]))
    ensures forall a :: a in net[k..] ==> a in net
  {
    hide DataOf;
    TwoReads(raw, net, k, |net[k..]| - |net'|);
  }

  lemma KeepsHead(raw: bytes, more: bytes)
    requires |raw| >= HEADER_LEN
    ensures (raw + more)[..HEADER_LEN] == raw[..HEADER_LEN]
  {
  }

  lemma SameHead(a: bytes, b: bytes)
    requires |a| >= HEADER_LEN && |b| >= HEADER_LEN && a[..HEADER_LEN] == b[..HEADER_LEN]
    ensures a[3..5] == b[3..5]
  {
    assert a[3..5] == a[..HEADER_LEN][3..5] && b[3..5] == b[..HEADER_LEN][3..5];
  }

  lemma LogMore(log: seq<bytes>, rec: bytes, skipped: seq<bytes>, last: bytes)
    ensures log + [rec] + skipped == log + ([rec] + skipped)
    ensures log + [rec] + skipped + [last] == log + ([rec] + skipped) + [last]
  {
  }

  /** What is left of the arrivals. */
  ghost predicate Behind(net: seq<Arrival>, net0: seq<Arrival>) {
    |net| <= |net0| && net == net0[|net0| - |net|..]
  }

  lemma BehindIn(net: seq<Arrival>, net1: seq<Arrival>, net0: seq<Arrival>)
    requires Behind(net, net1) && Behind(net1, net0)
    ensures Behind(net, net0) && forall a :: a in net1 ==> a in net0
  {
  }

  lemma BehindBoth(net: seq<Arrival>, k: nat, m: nat)
    requires k <= |net| && m <= |net[k..]|
    ensures Behind(net[k..], net) && Behind(net[k..][m..], net)
  {
  }

  lemma TwoReads(raw: bytes, net: seq<Arrival>, k: nat, m: nat)
    requires k <= |net| && m <= |net[k..]|
    ensures raw + DataOf(net[..k]) + DataOf(net[k..][..m]) == raw + DataOf(net[..k + m])
  {
    DataSplit(net[..k + m], k);
    assert net[..k + m][..k] == net[..k] && net[..k + m][k..] == net[k..][..m];
  }

  lemma {:induction false} DataSplit(net: seq<Arrival>, k: nat)
    requires k <= |net|
    ensures DataOf(net) == DataOf(net[..k]) + DataOf(net[k..])
    decreases |net|
  {
    if k == |net| {
      assert net[..k] == net && net[k..] == [];
    } else {
      var init := net[..|net| - 1];
      DataSplit(init, k);
      assert init[..k] == net[..k] && net[k..][..|net| - 1 - k] == init[k..];
    }
  }

  lemma BehindSelf(net: seq<Arrival>)
    ensures Behind(net, net)
  {
  }

  lemma SkipsNone(h: Half, s: Situation)
    ensures Skips(h, [], s, h)
  {
  }

  lemma SkipsMore(h: Half, rec: bytes, s: Situation)
    requires Good(h) && |rec| >= HEADER_LEN && Follows(s, Opened(h, rec), Ok, true, Nothing)
    ensures Opened(h, rec).Plain?
    ensures forall recs, h' :: Skips(Opened(h, rec).half, recs, s, h') ==> Skips(h, [rec] + recs, s, h')
  {
    hide Opened, Good;
    RefusedKind(s, Opened(h, rec).data, Opened(h, rec).typ);
    hide VerdictOf;
    forall recs, h' | Skips(Opened(h, rec).half, recs, s, h') ensures Skips(h, [rec] + recs, s, h') {
      assert ([rec] + recs)[1..] == recs;
    }
  }
}
