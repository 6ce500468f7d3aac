/**
  The sender of `desync.c`: it cuts a buffer at chosen positions, sends the pieces in different ways,
  and can stop after any piece and be called again later for the rest.

  The model follows one buffer from its first call to its last, so that the bytes sent in this round
  and the offset into the buffer are the same number.
*/
module Desync {
  import opened Wire

  datatype Mode = Split | Oob | Disorder | Disoob

  /** A `struct part`: `pos` is what `gen_offset` makes of its position, `r` and `s` say how often and
      at what distance it is repeated, `start` is the flag that exempts it from being skipped. */
  datatype Part = Part(pos: int, r: int, s: int, mode: Mode, start: bool)

  datatype Stop = Stop(pos: int, mode: Mode, start: bool)

  /** What the socket makes of a piece: it takes some of its bytes, it would block, or it fails. */
  datatype Answer = Took(count: nat) | Again | Failure

  // ----- which stops

  function StopOf(p: Part, k: int): (s: Stop) { Stop(p.pos + p.s * k, p.mode, p.start) }

  function Copies(p: Part): (n: nat) { if p.r <= 1 then 1 else p.r }

  /** The stops of a part from the `k`-th copy on. */
  ghost function From(p: Part, k: nat, n: nat): seq<Stop>
    requires k <= n
    decreases n - k
  {
    if k == n then [] else [StopOf(p, k)] + From(p, k + 1, n)
  }

  ghost function Expand(parts: seq<Part>): (r: seq<Stop>) {
    if parts == [] then [] else From(parts[0], 0, Copies(parts[0])) + Expand(parts[1..])
  }

  /** What the loop variables `i`, `r` and `part` have still to go through. */
  ghost function Remaining(parts: seq<Part>, i: nat, part: Part, r: int): seq<Stop>
    requires i <= |parts| && r <= part.r
  {
    (if r > 0 then From(part, part.r - r, part.r) else []) + Expand(parts[i..])
  }

  /** Taking the next part if the current one is used up, and one round of the loop. */
  lemma RemainingStep(parts: seq<Part>, i: nat, part: Part, r: int)
    requires i <= |parts| && r <= part.r && (r > 0 || i < |parts|)
    ensures var part', r', i' := if r <= 0 then parts[i] else part, if r <= 0 then parts[i].r else r, if r <= 0 then i + 1 else i;
            && r' - 1 <= part'.r
            && Remaining(parts, i, part, r) == [StopOf(part', part'.r - r')] + Remaining(parts, i', part', r' - 1)
  {
    if r <= 0 {
      var p := parts[i];
      assert parts[i..][1..] == parts[i + 1..];
      assert Expand(parts[i..]) == From(p, 0, Copies(p)) + Expand(parts[i + 1..]);
      if p.r <= 1 {
        assert From(p, 1, 1) == [];
      }
    }
  }

  lemma RemainingEmpty(parts: seq<Part>, i: nat, part: Part, r: int)
    requires i <= |parts| && r <= part.r && !(r > 0 || i < |parts|)
    ensures Remaining(parts, i, part, r) == []
  {
    assert parts[i..] == [];
  }

  // ----- the sender

  function Least(a: int, b: int): (r: int) { if a <= b then a else b }

  /** What the socket answers to the `k`-th piece and to the rest, whether it has data queued after
      the `k`-th piece, and whether the error number that an earlier call has left behind is EAGAIN. */
  datatype Socket = Socket(answer: nat -> Answer, notSent: nat -> bool, waitSend: bool, last: Answer, stale: bool)

  ghost predicate Takes(a: Answer, len: nat) { a.Took? && a.count > len }

  /** The socket takes every piece of a buffer of `n` bytes whole. */
  ghost predicate Whole(sock: Socket, n: nat) {
    (forall k :: Takes(sock.answer(k), n)) && Takes(sock.last, n)
  }

  /** How the bytes that were counted as sent relate to those that were: `lost` of them were not, and if
      there are none, the rest are exactly the bytes from `from` to `to`. */
  ghost predicate Accounts(data: bytes, sent0: bytes, lost0: nat, sent: bytes, lost: nat, from: nat, to: nat)
    requires from <= to <= |data|
  {
    && sent0 <= sent && lost >= lost0 && |sent| + lost == |sent0| + lost0 + (to - from)
    && (lost == lost0 ==> sent == sent0 + data[from..to])
  }

  lemma AccountsMore(data: bytes, sent0: bytes, lost0: nat, sent: bytes, lost: nat, from: nat, to: nat, taken: nat, to': nat)
    requires from <= to <= |data| && to + taken <= to' <= |data| && Accounts(data, sent0, lost0, sent, lost, from, to)
    ensures Accounts(data, sent0, lost0, sent + data[to..to + taken], lost + (to' - to - taken), from, to')
  {
    if lost + (to' - to - taken) == lost0 {
      assert data[from..to'] == data[from..to] + data[to..to'];
    }
  }

  /** Where the last call left off: the stops up to the one it ended at lie at or before the offset. */
  ghost predicate LeftOff(stops: seq<Stop>, partSent: nat, offset: nat, n: nat) {
    && partSent <= |stops| && (offset == 0 && n > 0 ==> partSent == 0)
    && forall j :: 0 <= j < partSent ==> Least(stops[j].pos, n) <= offset
  }

  /** A call ended at the piece of stop `partSent`, having sent none of it or a part. */
  ghost predicate EndedAt(stops: seq<Stop>, partSent: nat, offset: nat, n: nat) {
    1 <= partSent <= |stops| && Least(stops[partSent - 1].pos, n) >= offset
  }

  /** How much of that piece is missing: this much the next call takes for sent. */
  ghost function Missing(stops: seq<Stop>, partSent: nat, offset: nat, n: nat): (k: nat) {
    if 1 <= partSent <= |stops| && Least(stops[partSent - 1].pos, n) > offset
    then Least(stops[partSent - 1].pos, n) - offset else 0
  }

  /** How much of the rest, sent from `at` on, the socket leaves behind. */
  ghost function Unsent(last: Answer, at: nat, n: nat): (k: nat)
    requires at <= n
  {
    if last.Took? && last.count < n - at then n - at - last.count else 0
  }

  ghost predicate Positive(stops: seq<Stop>) { forall j :: 0 <= j < |stops| ==> stops[j].pos > 0 }

  /** No stop is exempt from being skipped. */
  ghost predicate NoStart(stops: seq<Stop>) { forall j :: 0 <= j < |stops| ==> !stops[j].start }

  predicate OutOfBand(m: Mode) { m == Oob || m == Disoob }

  /** A piece that is sent out of band and ends at the end of the data. */
  ghost predicate Tight(stop: Stop, n: nat) { OutOfBand(stop.mode) && stop.pos >= n }

  /** There is a byte behind every piece that is sent out of band: the buffer is not full, or all these
      pieces end before its end. */
  ghost predicate Room(stops: seq<Stop>, n: nat, size: nat) {
    n < size || forall j :: 0 <= j < |stops| ==> !Tight(stops[j], n)
  }

  ghost function FirstTight(stops: seq<Stop>, n: nat): (k: nat)
    ensures k <= |stops| && (k < |stops| ==> Tight(stops[k], n)) && forall j :: 0 <= j < k ==> !Tight(stops[j], n)
  {
    if stops == [] || Tight(stops[0], n) then 0 else 1 + FirstTight(stops[1..], n)
  }

  /** Where the piece of stop `k` begins if all before it have been sent. */
  ghost function Before(stops: seq<Stop>, k: nat, n: nat): (at: int)
    requires k <= |stops|
  {
    if k == 0 then 0 else Least(stops[k - 1].pos, n)
  }

  /** What the error number says after a piece has come out as -1: a piece out of band without a byte behind it
      never gets to the socket, and a call that succeeds leaves the number as it was. */
  predicate Blocked(a: Answer, refused: bool, stale: bool) { if refused || a.Took? then stale else a.Again? }

  ghost predicate Ascending(stops: seq<Stop>) { forall i, j :: 0 <= i < j < |stops| ==> stops[i].pos <= stops[j].pos }

  /** Nothing makes a call wait. */
  ghost predicate Quiet(sock: Socket) { !sock.waitSend && forall k :: !sock.notSent(k) }

  /** The first call for a buffer, whose stops come in ascending order. */
  ghost predicate Fresh(stops: seq<Stop>, partSent: nat, offset: nat, n: nat) {
    offset == 0 && partSent == 0 && n > 0 && Positive(stops) && Ascending(stops)
  }

  /** The first call, and the socket would block at the first piece. */
  ghost predicate Refused(stops: seq<Stop>, partSent: nat, offset: nat, sock: Socket) {
    offset == 0 && partSent == 0 && stops != [] && stops[0].pos > 0 && sock.answer(1).Again?
  }

  /** The stops so far had room, and have led to the last of them. */
  ghost predicate HadRoom(stops: seq<Stop>, curr: nat, n: nat, size: nat, lp: nat) {
    && curr <= |stops| && lp == Before(stops, curr, n)
    && (n < size || forall j :: 0 <= j < curr ==> !Tight(stops[j], n))
  }

  lemma PieceRoom(stops: seq<Stop>, k: nat, n: nat, size: nat, sock: Socket, lp: nat, pos: nat)
    requires k < |stops| && lp <= pos <= n <= size && pos == Least(stops[k].pos, n)
    ensures Whole(sock, n) ==> Takes(sock.answer(k + 1), pos - lp)
    ensures Room(stops, n, size) && OutOfBand(stops[k].mode) ==> pos < size
    ensures HadRoom(stops, k, n, size, lp) && (OutOfBand(stops[k].mode) ==> pos < size) ==> HadRoom(stops, k + 1, n, size, pos)
  {
  }

  lemma RoomAtStart(stops: seq<Stop>, partSent: nat, offset: nat, n: nat, size: nat)
    ensures Fresh(stops, partSent, offset, n) ==> HadRoom(stops, 0, n, size, offset)
  {
  }

  lemma RoomAtEnd(stops: seq<Stop>, n: nat, size: nat, lp: nat)
    requires HadRoom(stops, |stops|, n, size, lp)
    ensures Room(stops, n, size)
  {
  }

  lemma FreshFacts(stops: seq<Stop>, partSent: nat, offset: nat, n: nat)
    requires Fresh(stops, partSent, offset, n)
    ensures offset == 0 && partSent == 0
  {
  }

  lemma FreshGoesOn(stops: seq<Stop>, k: nat, n: nat, size: nat, lp: nat)
    requires Fresh(stops, 0, 0, n) && k < |stops| && HadRoom(stops, k, n, size, lp)
    ensures stops[k].pos >= lp && stops[k].pos > 0
  {
  }

  // ----- the books of the loop over the stops

  /** Without start flags, the stops before the one the last call ended at are passed over, and there
      exactly what was missing of its piece is lost. */
  ghost predicate Booking(stops: seq<Stop>, n: nat, offset: nat, partSkip: nat, curr: nat, lp: nat, gain: int) {
    NoStart(stops) ==> if curr < partSkip then lp == offset && gain == 0 else gain == Missing(stops, partSkip, offset, n)
  }

  /** If the last call left off cleanly, nothing is lost and every stop so far lies behind. */
  ghost predicate CleanBooking(stops: seq<Stop>, n: nat, offset: nat, partSkip: nat, curr: nat, lp: nat, gain: int) {
    Positive(stops) && LeftOff(stops, partSkip, offset, n) && curr <= |stops| ==>
      gain == 0 && forall j :: 0 <= j < curr ==> Least(stops[j].pos, n) <= lp
  }

  ghost predicate Books(stops: seq<Stop>, n: nat, offset: nat, partSkip: nat, curr: nat, lp: nat, gain: int) {
    Booking(stops, n, offset, partSkip, curr, lp, gain) && CleanBooking(stops, n, offset, partSkip, curr, lp, gain)
  }

  lemma BooksOpen(stops: seq<Stop>, n: nat, offset: nat, partSkip: nat)
    ensures Books(stops, n, offset, partSkip, 0, offset, 0)
  {
  }

  /** The tests of the loop that pass over a stop. */
  predicate PassedOver(stop: Stop, offset: nat, curr: nat, partSkip: nat) {
    (((offset != 0 && stop.pos < offset) || curr < partSkip) && !stop.start) || (offset != 0 && stop.pos < offset)
  }

  lemma BooksPass(stops: seq<Stop>, n: nat, offset: nat, partSkip: nat, curr: nat, lp: nat, gain: int)
    requires Books(stops, n, offset, partSkip, curr, lp, gain) && curr < |stops| && offset <= lp <= n
    requires PassedOver(stops[curr], offset, curr + 1, partSkip)
    ensures Books(stops, n, offset, partSkip, curr + 1, lp, gain)
  {
  }

  lemma BooksSend(stops: seq<Stop>, n: nat, offset: nat, partSkip: nat, curr: nat, lp: nat, gain: int, pos: nat)
    requires Books(stops, n, offset, partSkip, curr, lp, gain) && curr < |stops| && offset <= lp <= pos <= n
    requires !PassedOver(stops[curr], offset, curr + 1, partSkip) && pos == Least(stops[curr].pos, n) && stops[curr].pos >= lp
    ensures Books(stops, n, offset, partSkip, curr + 1, pos, gain + if curr + 1 == partSkip then pos - lp else 0)
    ensures Positive(stops) && LeftOff(stops, partSkip, offset, n) ==>
              LeftOff(stops, curr + 1, pos, n) && gain + (if curr + 1 == partSkip then pos - lp else 0) == 0
    ensures NoStart(stops) ==> gain + (if curr + 1 == partSkip then pos - lp else 0) == Missing(stops, partSkip, offset, n)
  {
  }

  lemma BooksBreak(stops: seq<Stop>, n: nat, offset: nat, partSkip: nat, curr: nat, lp: nat, gain: int)
    requires Books(stops, n, offset, partSkip, curr, lp, gain) && curr < |stops| && offset <= lp <= n
    requires !PassedOver(stops[curr], offset, curr + 1, partSkip) && stops[curr].pos < lp
    ensures NoStart(stops) ==> gain == Missing(stops, partSkip, offset, n)
    ensures Positive(stops) && LeftOff(stops, partSkip, offset, n) ==> gain == 0
  {
  }

  lemma BooksEnd(stops: seq<Stop>, n: nat, offset: nat, partSkip: nat, lp: nat, gain: int)
    requires Books(stops, n, offset, partSkip, |stops|, lp, gain)
    ensures NoStart(stops) ==> gain == Missing(stops, partSkip, offset, n)
    ensures Positive(stops) && LeftOff(stops, partSkip, offset, n) ==> gain == 0
  {
  }

  /** What the loop keeps from stop to stop; `gain` is what it has lost so far. */
  ghost predicate Standing(stops: seq<Stop>, n: nat, offset: nat, partSkip: nat, sock: Socket, size: nat, curr: nat, lp: nat, gain: int) {
    && Books(stops, n, offset, partSkip, curr, lp, gain) && (curr == 0 ==> lp == offset)
    && (Fresh(stops, partSkip, offset, n) && Whole(sock, n) ==> HadRoom(stops, curr, n, size, lp))
    && (Refused(stops, partSkip, offset, sock) ==> curr == 0)
  }

  /** The call has come to the first piece without room: it fails, or with a stale error number counts what it
      has sent so far, and the next call takes the piece for sent. */
  ghost predicate Halted(stops: seq<Stop>, n: nat, sock: Socket, ret: int, partSent: nat) {
    var k := FirstTight(stops, n);
    k < |stops| && partSent == k + 1 && ret == if sock.stale then Before(stops, k, n) else -1
  }

  /** How the loop can come out. */
  ghost predicate Came(stops: seq<Stop>, n: nat, offset: nat, partSkip: nat, sock: Socket, size: nat,
                       ended: bool, ret: int, wait: bool, partSent: nat, gain: int) {
    && (ended && !wait && ret >= 0 ==> EndedAt(stops, partSent, offset + ret, n))
    && (NoStart(stops) ==> gain == Missing(stops, partSkip, offset, n))
    && (Positive(stops) && LeftOff(stops, partSkip, offset, n) ==> gain == 0 && (wait ==> ret >= 0 && LeftOff(stops, partSent, offset + ret, n)))
    && (Whole(sock, n) && Room(stops, n, size) ==> (ended <==> wait))
    && (Whole(sock, n) && Quiet(sock) && Fresh(stops, partSkip, offset, n) && !Room(stops, n, size) ==> ended && Halted(stops, n, sock, ret, partSent))
    && (Whole(sock, n) && sock.stale ==> ret >= 0)
    && (Refused(stops, partSkip, offset, sock) && Room(stops, n, size) ==> ended && ret == 0 && !wait && partSent == 1)
    && (Quiet(sock) ==> !wait)
  }

  lemma StandingOpen(stops: seq<Stop>, n: nat, offset: nat, partSkip: nat, sock: Socket, size: nat)
    ensures Standing(stops, n, offset, partSkip, sock, size, 0, offset, 0)
  {
    BooksOpen(stops, n, offset, partSkip);
    RoomAtStart(stops, partSkip, offset, n, size);
  }

  lemma StandingPass(stops: seq<Stop>, n: nat, offset: nat, partSkip: nat, sock: Socket, size: nat, curr: nat, lp: nat, gain: int)
    requires Standing(stops, n, offset, partSkip, sock, size, curr, lp, gain) && curr < |stops| && offset <= lp <= n
    requires PassedOver(stops[curr], offset, curr + 1, partSkip)
    ensures Standing(stops, n, offset, partSkip, sock, size, curr + 1, lp, gain)
  {
    BooksPass(stops, n, offset, partSkip, curr, lp, gain);
    hide Books;
  }

  lemma CameBreak(stops: seq<Stop>, n: nat, offset: nat, partSkip: nat, sock: Socket, size: nat, curr: nat, lp: nat, gain: int, partSent: nat)
    requires Standing(stops, n, offset, partSkip, sock, size, curr, lp, gain) && curr < |stops| && offset <= lp <= n
    requires !PassedOver(stops[curr], offset, curr + 1, partSkip) && stops[curr].pos < lp
    ensures Came(stops, n, offset, partSkip, sock, size, false, 0, false, partSent, gain)
  {
    BooksBreak(stops, n, offset, partSkip, curr, lp, gain);
    if Fresh(stops, partSkip, offset, n) && Whole(sock, n) {
      FreshFacts(stops, partSkip, offset, n);
      FreshGoesOn(stops, curr, n, size, lp);
    }
    hide Books, Missing, LeftOff, Room, NoStart, Whole, HadRoom;
  }

  /** The facts about a stop at which a piece is sent, or taken for sent. */
  ghost predicate Sends(stops: seq<Stop>, n: nat, offset: nat, partSkip: nat, sock: Socket, size: nat, curr: nat, lp: nat, gain: int, pos: nat) {
    && Standing(stops, n, offset, partSkip, sock, size, curr, lp, gain) && curr < |stops| && offset <= lp <= pos <= n <= size
    && !PassedOver(stops[curr], offset, curr + 1, partSkip) && pos == Least(stops[curr].pos, n) && stops[curr].pos >= lp
  }

  lemma StandingSend(stops: seq<Stop>, n: nat, offset: nat, partSkip: nat, sock: Socket, size: nat, curr: nat, lp: nat, gain: int, pos: nat)
    requires Sends(stops, n, offset, partSkip, sock, size, curr, lp, gain, pos)
    requires curr + 1 != partSkip ==> !sock.answer(curr + 1).Again? && (OutOfBand(stops[curr].mode) ==> pos < size)
    ensures Standing(stops, n, offset, partSkip, sock, size, curr + 1, pos, gain + if curr + 1 == partSkip then pos - lp else 0)
  {
    BooksSend(stops, n, offset, partSkip, curr, lp, gain, pos);
    PieceRoom(stops, curr, n, size, sock, lp, pos);
    if Fresh(stops, partSkip, offset, n) { FreshFacts(stops, partSkip, offset, n); }
    hide Books, HadRoom, Fresh, Whole;
  }

  /** A piece of which `s` bytes were taken, or none if `s` is -1. */
  lemma CameShort(stops: seq<Stop>, n: nat, offset: nat, partSkip: nat, sock: Socket, size: nat, curr: nat, lp: nat, gain: int, pos: nat, s: int, ret: int)
    requires Sends(stops, n, offset, partSkip, sock, size, curr, lp, gain, pos) && curr + 1 != partSkip
    requires -1 <= s < pos - lp || s == -1
    requires ret == if s >= 0 then lp + s - offset
                    else if Blocked(sock.answer(curr + 1), OutOfBand(stops[curr].mode) && pos == size, sock.stale) then lp - offset else -1
    requires Takes(sock.answer(curr + 1), pos - lp) && (OutOfBand(stops[curr].mode) ==> pos < size) ==> s == pos - lp
    requires sock.answer(curr + 1).Again? ==> s == -1
    requires OutOfBand(stops[curr].mode) && pos == size ==> s == -1
    ensures Came(stops, n, offset, partSkip, sock, size, true, ret, false, curr + 1, gain)
  {
    BooksSend(stops, n, offset, partSkip, curr, lp, gain, pos);
    PieceRoom(stops, curr, n, size, sock, lp, pos);
    if Whole(sock, n) && Fresh(stops, partSkip, offset, n) {
      FreshFacts(stops, partSkip, offset, n);
      if !Room(stops, n, size) {
        FirstHere(stops, curr, n, size, lp, pos);
      }
    }
    hide Books, Missing, LeftOff, Room, NoStart, Whole, HadRoom, Fresh, Positive, FirstTight, Before;
  }

  lemma FirstHere(stops: seq<Stop>, curr: nat, n: nat, size: nat, lp: nat, pos: nat)
    requires HadRoom(stops, curr, n, size, lp) && curr < |stops| && n <= size && pos == size == Least(stops[curr].pos, n)
    requires OutOfBand(stops[curr].mode)
    ensures FirstTight(stops, n) == curr && Before(stops, curr, n) == lp
  {
  }

  lemma CameWait(stops: seq<Stop>, n: nat, offset: nat, partSkip: nat, sock: Socket, size: nat, curr: nat, lp: nat, gain: int, pos: nat)
    requires Sends(stops, n, offset, partSkip, sock, size, curr, lp, gain, pos)
    requires sock.notSent(curr + 1) || sock.waitSend
    requires curr + 1 != partSkip ==> !sock.answer(curr + 1).Again?
    ensures Came(stops, n, offset, partSkip, sock, size, true, pos - offset, true, curr + 1, gain + if curr + 1 == partSkip then pos - lp else 0)
  {
    BooksSend(stops, n, offset, partSkip, curr, lp, gain, pos);
    hide Books, Missing, LeftOff, Room, NoStart, Whole, HadRoom, Fresh, Positive;
  }

  lemma CameEnd(stops: seq<Stop>, n: nat, offset: nat, partSkip: nat, sock: Socket, size: nat, lp: nat, gain: int, partSent: nat)
    requires Standing(stops, n, offset, partSkip, sock, size, |stops|, lp, gain)
    ensures Came(stops, n, offset, partSkip, sock, size, false, 0, false, partSent, gain)
  {
    BooksEnd(stops, n, offset, partSkip, lp, gain);
    if Fresh(stops, partSkip, offset, n) && Whole(sock, n) { RoomAtEnd(stops, n, size, lp); }
    hide Books, Missing, LeftOff, Room, NoStart, Whole, HadRoom, Fresh, Positive;
  }

  // ----- what the socket is given

  /** One call of `send`: the bytes, and whether the last of them goes out of band. */
  datatype Sent = Sent(given: bytes, oob: bool)

  ghost function Slice(data: bytes, from: int, to: int): bytes { if 0 <= from <= to <= |data| then data[from..to] else [] }

  /** The piece of stop `k`, from the end of the one before to its own position, with the marker behind it if it
      goes out of band. */
  ghost function PieceOf(data: bytes, mark: byte, stops: seq<Stop>, n: nat, k: nat): (e: Sent)
    requires k < |stops|
  {
    var oob := stops[k].mode == Oob || stops[k].mode == Disoob;
    Sent(Slice(data, if k == 0 then 0 else Least(stops[k - 1].pos, n), Least(stops[k].pos, n)) + (if oob then [mark] else []), oob)
  }

  /** The buffer cut at the stops from `i` to `j`. */
  ghost function Cuts(data: bytes, mark: byte, stops: seq<Stop>, n: nat, i: nat, j: nat): (log: seq<Sent>)
    requires i <= j <= |stops|
    ensures |log| == j - i && forall t :: 0 <= t < j - i ==> log[t] == PieceOf(data, mark, stops, n, i + t)
  {
    seq(j - i, t requires 0 <= t < j - i => PieceOf(data, mark, stops, n, i + t))
  }

  /** The marker bytes of the stops from `i` to `j` that go out of band. */
  ghost function Marks(stops: seq<Stop>, mark: byte, i: nat, j: nat): (m: bytes)
    requires i <= j <= |stops|
    decreases j
  {
    if i == j then [] else Marks(stops, mark, i, j - 1) + if OutOfBand(stops[j - 1].mode) then [mark] else []
  }

  /** The stops come in ascending order, and none that the call resumes behind is exempt from being skipped. */
  ghost predicate Tidy(stops: seq<Stop>, p: nat) { Positive(stops) && Ascending(stops) && (p == 0 || NoStart(stops)) }

  /** The calls so far have come to stop `p`, whose piece may be missing a part. */
  ghost predicate Tracked(stops: seq<Stop>, p: nat, offset: nat, n: nat) {
    && n > 0 && p <= |stops|
    && if p == 0 then offset == 0 else Before(stops, p - 1, n) <= offset <= Before(stops, p, n)
  }

  /** What has been given so far in a call that began at stop `p` and has gone through `curr` stops. */
  ghost predicate Logged(data: bytes, mark: byte, stops: seq<Stop>, n: nat, offset: nat, p: nat, curr: nat, lp: nat, log0: seq<Sent>, log: seq<Sent>) {
    Tidy(stops, p) && Tracked(stops, p, offset, n) && curr <= |stops| ==>
      if curr < p then lp == offset && log == log0
      else lp == (if curr == 0 then 0 else Before(stops, curr, n)) && log == log0 + Cuts(data, mark, stops, n, p, curr)
  }

  /** And how many markers have gone out if every piece is taken whole. */
  ghost predicate Marked(mark: byte, stops: seq<Stop>, n: nat, offset: nat, p: nat, sock: Socket, curr: nat, oob0: bytes, oob: bytes) {
    Tidy(stops, p) && Tracked(stops, p, offset, n) && curr <= |stops| && Whole(sock, n) ==>
      oob == oob0 + if curr < p then [] else Marks(stops, mark, p, curr)
  }

  /** How the loop leaves the log: cut at the stops up to the one it ended at, or up to the one before if that
      has no byte behind it. */
  ghost predicate LogEnds(data: bytes, mark: byte, stops: seq<Stop>, n: nat, offset: nat, p: nat, sock: Socket, ended: bool, wait: bool, lp: nat, to: int, partSent: nat,
                          log0: seq<Sent>, log: seq<Sent>, oob0: bytes, oob: bytes) {
    Tidy(stops, p) && Tracked(stops, p, offset, n) ==>
      exists k: nat :: p <= k <= |stops| && log == log0 + Cuts(data, mark, stops, n, p, k)
        && (ended ==> 0 < partSent <= |stops| && k == if partSent > p && Tight(stops[partSent - 1], n) && n == |data| then partSent - 1 else if partSent > p then partSent else p)
        && (!ended ==> k == |stops| && lp == Before(stops, k, n))
        && (ended && to >= offset ==> Tracked(stops, partSent, to, n))
        && (wait ==> to == Before(stops, k, n) && (Whole(sock, n) ==> k == partSent))
        && (Whole(sock, n) ==> oob == oob0 + Marks(stops, mark, p, k))
  }

  /** What is given behind the last stop. */
  ghost function Rest(data: bytes, stops: seq<Stop>, n: nat): (log: seq<Sent>)
    ensures log == if Before(stops, |stops|, n) < n then [Sent(Slice(data, Before(stops, |stops|, n), n), false)] else []
  {
    if Before(stops, |stops|, n) < n then [Sent(Slice(data, Before(stops, |stops|, n), n), false)] else []
  }

  /** What a call that began at stop `p` has given: the pieces from there up to some stop, each with its mode, and
      behind the last one the rest. A call that has not gone through all of them leaves off at the
      one it ended at. */
  ghost predicate CallLog(data: bytes, mark: byte, stops: seq<Stop>, n: nat, offset: nat, p: nat, sock: Socket, ret: int, wait: bool, partSent: nat,
                          log0: seq<Sent>, log: seq<Sent>, oob0: bytes, oob: bytes) {
    Tidy(stops, p) && Tracked(stops, p, offset, n) ==>
      exists k: nat, all: bool :: CallLogAt(data, mark, stops, n, offset, p, sock, ret, wait, partSent, log0, log, oob0, oob, k, all)
  }

  ghost predicate CallLogAt(data: bytes, mark: byte, stops: seq<Stop>, n: nat, offset: nat, p: nat, sock: Socket, ret: int, wait: bool, partSent: nat,
                            log0: seq<Sent>, log: seq<Sent>, oob0: bytes, oob: bytes, k: nat, all: bool) {
    && p <= k <= |stops| && (all ==> k == |stops| && !wait)
    && log == log0 + Cuts(data, mark, stops, n, p, k) + (if all then Rest(data, stops, n) else [])
    && (!all && ret >= 0 ==> Tracked(stops, partSent, offset + ret, n))
    && (wait ==> offset + ret == Before(stops, k, n) && (Whole(sock, n) ==> k == partSent))
    && (Whole(sock, n) ==> oob == oob0 + Marks(stops, mark, p, k) && (Room(stops, n, |data|) ==> all || wait))
  }

  lemma CallEnded(data: bytes, mark: byte, stops: seq<Stop>, n: nat, offset: nat, p: nat, sock: Socket, ret: int, wait: bool, lp: nat, partSent: nat,
                  log0: seq<Sent>, log: seq<Sent>, oob0: bytes, oob: bytes)
    requires LogEnds(data, mark, stops, n, offset, p, sock, true, wait, lp, offset + ret, partSent, log0, log, oob0, oob)
    requires Whole(sock, n) && Room(stops, n, |data|) ==> wait
    ensures CallLog(data, mark, stops, n, offset, p, sock, ret, wait, partSent, log0, log, oob0, oob)
  {
    hide Tidy, Tracked, Cuts, Marks, Whole, Room;
    if Tidy(stops, p) && Tracked(stops, p, offset, n) {
      var k: nat :| p <= k <= |stops| && log == log0 + Cuts(data, mark, stops, n, p, k)
        && (offset + ret >= offset ==> Tracked(stops, partSent, offset + ret, n))
        && (wait ==> offset + ret == Before(stops, k, n) && (Whole(sock, n) ==> k == partSent))
        && (Whole(sock, n) ==> oob == oob0 + Marks(stops, mark, p, k));
      assert CallLogAt(data, mark, stops, n, offset, p, sock, ret, wait, partSent, log0, log, oob0, oob, k, false);
    }
  }

  lemma CallThrough(data: bytes, mark: byte, stops: seq<Stop>, n: nat, offset: nat, p: nat, sock: Socket, ret: int, to: int, lp: nat, partSent: nat,
                    log0: seq<Sent>, log: seq<Sent>, oob0: bytes, oob: bytes, log': seq<Sent>)
    requires LogEnds(data, mark, stops, n, offset, p, sock, false, false, lp, to, partSent, log0, log, oob0, oob)
    requires lp <= n <= |data| && log' == if lp < n then log + [Sent(data[lp..n], false)] else log
    ensures CallLog(data, mark, stops, n, offset, p, sock, ret, false, partSent, log0, log', oob0, oob)
  {
    hide Tidy, Tracked, Cuts, Marks, Whole, Room;
    if Tidy(stops, p) && Tracked(stops, p, offset, n) {
      var k: nat :| p <= k <= |stops| && log == log0 + Cuts(data, mark, stops, n, p, k)
        && k == |stops| && lp == Before(stops, k, n) && (Whole(sock, n) ==> oob == oob0 + Marks(stops, mark, p, k));
      assert CallLogAt(data, mark, stops, n, offset, p, sock, ret, false, partSent, log0, log', oob0, oob, k, true);
    }
  }

  /** What the calls so far have given. */
  ghost predicate GivenSoFar(data: bytes, mark: byte, stops: seq<Stop>, n: nat, total: nat, partSent: nat, waiting: bool,
                             log0: seq<Sent>, log: seq<Sent>, oob0: bytes, oob: bytes) {
    if waiting then Tracked(stops, partSent, total, n) && total == Before(stops, partSent, n)
                    && log == log0 + Cuts(data, mark, stops, n, 0, partSent) && oob == oob0 + Marks(stops, mark, 0, partSent)
    else log == log0 + Cuts(data, mark, stops, n, 0, |stops|) + Rest(data, stops, n) && oob == oob0 + Marks(stops, mark, 0, |stops|)
  }

  lemma GivenIs(data: bytes, mark: byte, stops: seq<Stop>, n: nat, total: nat, partSent: nat, waiting: bool,
                log0: seq<Sent>, log: seq<Sent>, oob0: bytes, oob: bytes)
    requires GivenSoFar(data, mark, stops, n, total, partSent, waiting, log0, log, oob0, oob)
    ensures if waiting then partSent <= |stops| && total == Before(stops, partSent, n)
                    && log == log0 + Cuts(data, mark, stops, n, 0, partSent) && oob == oob0 + Marks(stops, mark, 0, partSent)
            else log == log0 + Cuts(data, mark, stops, n, 0, |stops|) + Rest(data, stops, n) && oob == oob0 + Marks(stops, mark, 0, |stops|)
  {
  }

  lemma GivenNothing(data: bytes, mark: byte, stops: seq<Stop>, n: nat, log: seq<Sent>, oob: bytes)
    ensures n > 0 ==> GivenSoFar(data, mark, stops, n, 0, 0, true, log, log, oob, oob)
  {
  }

  lemma GivenMore(data: bytes, mark: byte, stops: seq<Stop>, n: nat, total: nat, p: nat, sock: Socket, ret: int, wait: bool, partSent: nat,
                  log0: seq<Sent>, log1: seq<Sent>, log: seq<Sent>, oob0: bytes, oob1: bytes, oob: bytes)
    requires n > 0 && Positive(stops) && Ascending(stops) && NoStart(stops) && Whole(sock, n) && Room(stops, n, |data|)
    requires GivenSoFar(data, mark, stops, n, total, p, true, log0, log1, oob0, oob1)
    requires CallLog(data, mark, stops, n, total, p, sock, ret, wait, partSent, log1, log, oob1, oob) && (wait ==> ret >= 0)
    ensures ret >= 0 ==> GivenSoFar(data, mark, stops, n, total + ret, partSent, wait, log0, log, oob0, oob)
  {
    assert Tidy(stops, p);
    hide Tidy, Tracked, Cuts, Marks, Whole, Room, Positive, Ascending, NoStart, Before, Rest;
    var k: nat, all: bool :| CallLogAt(data, mark, stops, n, total, p, sock, ret, wait, partSent, log1, log, oob1, oob, k, all);
    CutsJoin(data, mark, stops, n, p, k);
    Grouped(log0, Cuts(data, mark, stops, n, 0, p), Cuts(data, mark, stops, n, p, k));
    Grouped(oob0, Marks(stops, mark, 0, p), Marks(stops, mark, p, k));
    if !all { assert log == log1 + Cuts(data, mark, stops, n, p, k); }
  }

  lemma {:induction false} CutsJoin(data: bytes, mark: byte, stops: seq<Stop>, n: nat, p: nat, k: nat)
    requires p <= k <= |stops|
    ensures Cuts(data, mark, stops, n, 0, p) + Cuts(data, mark, stops, n, p, k) == Cuts(data, mark, stops, n, 0, k)
    ensures Marks(stops, mark, 0, p) + Marks(stops, mark, p, k) == Marks(stops, mark, 0, k)
  {
    if p < k {
      CutsJoin(data, mark, stops, n, p, k - 1);
      Grouped(Marks(stops, mark, 0, p), Marks(stops, mark, p, k - 1), if OutOfBand(stops[k - 1].mode) then [mark] else []);
    }
  }

  lemma LoggedOpen(data: bytes, mark: byte, stops: seq<Stop>, n: nat, offset: nat, p: nat, sock: Socket, log: seq<Sent>, oob: bytes)
    ensures Logged(data, mark, stops, n, offset, p, 0, offset, log, log) && Marked(mark, stops, n, offset, p, sock, 0, oob, oob)
  {
  }

  lemma LoggedPass(data: bytes, mark: byte, stops: seq<Stop>, n: nat, offset: nat, p: nat, sock: Socket, curr: nat, lp: nat,
                   log0: seq<Sent>, log: seq<Sent>, oob0: bytes, oob: bytes)
    requires Logged(data, mark, stops, n, offset, p, curr, lp, log0, log) && Marked(mark, stops, n, offset, p, sock, curr, oob0, oob)
    requires curr < |stops| && PassedOver(stops[curr], offset, curr + 1, p)
    ensures Logged(data, mark, stops, n, offset, p, curr + 1, lp, log0, log) && Marked(mark, stops, n, offset, p, sock, curr + 1, oob0, oob)
  {
    hide Cuts, Marks, Whole;
    if Tidy(stops, p) && Tracked(stops, p, offset, n) { PassedEarly(stops, n, offset, p, curr); }
  }

  lemma PassedEarly(stops: seq<Stop>, n: nat, offset: nat, p: nat, curr: nat)
    requires Tidy(stops, p) && Tracked(stops, p, offset, n) && curr < |stops| && PassedOver(stops[curr], offset, curr + 1, p)
    ensures curr + 1 < p
  {
  }

  /** What a piece adds to the log: nothing if it is taken for sent, or has no byte behind it for the marker. */
  ghost function StepLog(data: bytes, mark: byte, lp: nat, pos: nat, mode: Mode, resumed: bool): (log: seq<Sent>)
    requires lp <= pos <= |data|
    ensures log == if resumed || (OutOfBand(mode) && pos == |data|) then []
                   else [Sent(data[lp..pos] + (if mode == Oob || mode == Disoob then [mark] else []), mode == Oob || mode == Disoob)]
  {
    if resumed || (OutOfBand(mode) && pos == |data|) then []
    else [Sent(data[lp..pos] + (if mode == Oob || mode == Disoob then [mark] else []), mode == Oob || mode == Disoob)]
  }

  /** A stop that is not passed over is the one the last call ended at, or lies behind it, and never before what
      has been sent. */
  lemma SentLate(stops: seq<Stop>, n: nat, offset: nat, p: nat, curr: nat, lp: nat, data: bytes, mark: byte, log0: seq<Sent>, log: seq<Sent>)
    requires Tidy(stops, p) && Tracked(stops, p, offset, n) && curr < |stops| && !PassedOver(stops[curr], offset, curr + 1, p)
    requires Logged(data, mark, stops, n, offset, p, curr, lp, log0, log)
    ensures curr + 1 >= p && stops[curr].pos >= lp && stops[curr].pos > 0
  {
    hide Cuts;
    assert !stops[curr].start || p == 0;
    if curr > 0 { assert stops[curr - 1].pos <= stops[curr].pos; }
  }

  lemma CutsMore(data: bytes, mark: byte, stops: seq<Stop>, n: nat, p: nat, curr: nat)
    requires p <= curr < |stops|
    ensures Cuts(data, mark, stops, n, p, curr + 1) == Cuts(data, mark, stops, n, p, curr) + [PieceOf(data, mark, stops, n, curr)]
    ensures Marks(stops, mark, p, curr + 1) == Marks(stops, mark, p, curr) + if OutOfBand(stops[curr].mode) then [mark] else []
  {
  }

  lemma LoggedSend(data: bytes, mark: byte, stops: seq<Stop>, n: nat, offset: nat, p: nat, sock: Socket, curr: nat, lp: nat, pos: nat,
                   log0: seq<Sent>, log: seq<Sent>, oob0: bytes, oob: bytes, log': seq<Sent>, oob': bytes)
    requires Logged(data, mark, stops, n, offset, p, curr, lp, log0, log) && Marked(mark, stops, n, offset, p, sock, curr, oob0, oob)
    requires curr < |stops| && !PassedOver(stops[curr], offset, curr + 1, p) && lp <= pos == Least(stops[curr].pos, n) && n <= |data|
    requires curr + 1 != p && OutOfBand(stops[curr].mode) ==> pos < |data|
    requires log' == log + StepLog(data, mark, lp, pos, stops[curr].mode, curr + 1 == p)
    requires Whole(sock, n) ==> oob' == oob + if curr + 1 != p && OutOfBand(stops[curr].mode) then [mark] else []
    ensures Logged(data, mark, stops, n, offset, p, curr + 1, pos, log0, log') && Marked(mark, stops, n, offset, p, sock, curr + 1, oob0, oob')
  {
    if Tidy(stops, p) && Tracked(stops, p, offset, n) {
      SentLate(stops, n, offset, p, curr, lp, data, mark, log0, log);
      hide Whole, Tidy, Tracked, PassedOver;
      if curr + 1 == p {
        NoCuts(data, mark, stops, n, p);
      } else {
        CutsMore(data, mark, stops, n, p, curr);
        hide Cuts, Marks;
        assert [PieceOf(data, mark, stops, n, curr)] == StepLog(data, mark, lp, pos, stops[curr].mode, false);
        Grouped(log0, Cuts(data, mark, stops, n, p, curr), [PieceOf(data, mark, stops, n, curr)]);
        Grouped(oob0, Marks(stops, mark, p, curr), if OutOfBand(stops[curr].mode) then [mark] else []);
      }
    }
  }

  lemma Grouped<T>(a: seq<T>, b: seq<T>, c: seq<T>)
    ensures a + b + c == a + (b + c)
  {
  }

  lemma NoCuts(data: bytes, mark: byte, stops: seq<Stop>, n: nat, p: nat)
    requires p <= |stops|
    ensures Cuts(data, mark, stops, n, p, p) == [] && Marks(stops, mark, p, p) == []
  {
  }

  /** The call ends at stop `curr`: its piece was given, if there was room, or taken for sent. */
  lemma LogEndsAt(data: bytes, mark: byte, stops: seq<Stop>, n: nat, offset: nat, p: nat, sock: Socket, curr: nat, lp: nat, pos: nat, wait: bool, lp': nat, to: int,
                  log0: seq<Sent>, log: seq<Sent>, oob0: bytes, oob: bytes, log': seq<Sent>, oob': bytes)
    requires Logged(data, mark, stops, n, offset, p, curr, lp, log0, log) && Marked(mark, stops, n, offset, p, sock, curr, oob0, oob)
    requires curr < |stops| && !PassedOver(stops[curr], offset, curr + 1, p) && lp <= pos == Least(stops[curr].pos, n) && n <= |data|
    requires log' == log + StepLog(data, mark, lp, pos, stops[curr].mode, curr + 1 == p)
    requires Whole(sock, n) && (curr + 1 != p && OutOfBand(stops[curr].mode) ==> pos < |data|) ==>
               oob' == oob + if curr + 1 != p && OutOfBand(stops[curr].mode) then [mark] else []
    requires curr + 1 != p && OutOfBand(stops[curr].mode) && pos == |data| ==> oob' == oob && !wait
    requires to >= offset ==> lp <= to <= pos
    requires curr + 1 == p || wait ==> to == pos
    ensures LogEnds(data, mark, stops, n, offset, p, sock, true, wait, lp', to, curr + 1, log0, log', oob0, oob')
  {
    if Tidy(stops, p) && Tracked(stops, p, offset, n) {
      SentLate(stops, n, offset, p, curr, lp, data, mark, log0, log);
      if curr + 1 != p && OutOfBand(stops[curr].mode) && pos == |data| {
        assert log' == log;
        assert p <= curr && log' == log0 + Cuts(data, mark, stops, n, p, curr);
      } else {
        LoggedSend(data, mark, stops, n, offset, p, sock, curr, lp, pos, log0, log, oob0, oob, log', oob');
        assert p <= curr + 1 && log' == log0 + Cuts(data, mark, stops, n, p, curr + 1);
      }
    }
  }

  /** The same when the socket has taken `s` bytes of the piece, or -1: with whole pieces that is only so where
      there is no byte behind it. */
  lemma LogEndsShort(data: bytes, mark: byte, stops: seq<Stop>, n: nat, offset: nat, p: nat, sock: Socket, curr: nat, lp: nat, pos: nat, s: int, to: int,
                     log0: seq<Sent>, log: seq<Sent>, oob0: bytes, oob: bytes, log': seq<Sent>, oob': bytes)
    requires Logged(data, mark, stops, n, offset, p, curr, lp, log0, log) && Marked(mark, stops, n, offset, p, sock, curr, oob0, oob)
    requires curr < |stops| && !PassedOver(stops[curr], offset, curr + 1, p) && lp <= pos == Least(stops[curr].pos, n) && n <= |data|
    requires log' == log + StepLog(data, mark, lp, pos, stops[curr].mode, curr + 1 == p)
    requires (s != pos - lp || s < 0) && curr + 1 != p && (to >= offset ==> lp <= to <= pos)
    requires Takes(sock.answer(curr + 1), pos - lp) && (OutOfBand(stops[curr].mode) ==> pos < |data|) ==> s == pos - lp
    requires OutOfBand(stops[curr].mode) && pos == |data| ==> oob' == oob
    ensures LogEnds(data, mark, stops, n, offset, p, sock, true, false, lp, to, curr + 1, log0, log', oob0, oob')
  {
    hide Logged, Marked, LogEnds, PassedOver, StepLog;
    WholeTakes(sock, n, curr + 1, pos - lp);
    LogEndsAt(data, mark, stops, n, offset, p, sock, curr, lp, pos, false, lp, to, log0, log, oob0, oob, log', oob');
  }

  lemma WholeTakes(sock: Socket, n: nat, k: nat, len: int)
    requires len <= n
    ensures Whole(sock, n) ==> 0 <= len ==> Takes(sock.answer(k), len)
  {
  }

  lemma LogEndsBehind(data: bytes, mark: byte, stops: seq<Stop>, n: nat, offset: nat, p: nat, sock: Socket, lp: nat, partSent: nat,
                      log0: seq<Sent>, log: seq<Sent>, oob0: bytes, oob: bytes)
    requires Logged(data, mark, stops, n, offset, p, |stops|, lp, log0, log) && Marked(mark, stops, n, offset, p, sock, |stops|, oob0, oob)
    ensures LogEnds(data, mark, stops, n, offset, p, sock, false, false, lp, offset, partSent, log0, log, oob0, oob)
  {
    if Tidy(stops, p) && Tracked(stops, p, offset, n) {
      assert p <= |stops| && log == log0 + Cuts(data, mark, stops, n, p, |stops|);
    }
  }

  lemma LogBreaks(data: bytes, mark: byte, stops: seq<Stop>, n: nat, offset: nat, p: nat, sock: Socket, curr: nat, lp: nat, lp': nat, partSent: nat,
                  log0: seq<Sent>, log: seq<Sent>, oob0: bytes, oob: bytes)
    requires Logged(data, mark, stops, n, offset, p, curr, lp, log0, log)
    requires curr < |stops| && !PassedOver(stops[curr], offset, curr + 1, p) && stops[curr].pos < lp
    ensures LogEnds(data, mark, stops, n, offset, p, sock, false, false, lp', offset, partSent, log0, log, oob0, oob)
  {
    if Tidy(stops, p) && Tracked(stops, p, offset, n) {
      SentLate(stops, n, offset, p, curr, lp, data, mark, log0, log);
    }
  }

  /** What becomes of the loop after one stop. */
  datatype Turn = Proceed | Break | End

  class Sender {
    const data: array<byte>        // `buff->data`
    const parts: seq<Part>
    const oobChar: byte
    var partSent: nat
    var sent: bytes                // what the socket has taken in band
    var oob: bytes                 // and out of band
    ghost var lost: nat            // bytes counted as sent that the socket never took
    ghost var log: seq<Sent>       // what each `send` was given

    constructor (data: array<byte>, parts: seq<Part>, oobChar: byte)
      ensures this.data == data && this.parts == parts && partSent == 0 && sent == oob == [] && lost == 0 && log == []
    {
      this.data, this.parts, this.oobChar := data, parts, oobChar;
      partSent, sent, oob, lost, log := 0, [], [], 0, [];
    }

    /** The system call: how many of the bytes were taken, or -1; of those that go out of band, the last one does,
        if it is taken. */
    method Give(p: bytes, outOfBand: bool, a: Answer) returns (s: int)
      modifies this`sent, this`oob, this`log
      ensures s == if a.Took? then Least(a.count, |p|) else -1
      ensures log == old(log) + [Sent(p, outOfBand)]
      ensures if outOfBand && s > 0 then sent == old(sent) + p[..s - 1] && oob == old(oob) + [p[s - 1]]
              else sent == old(sent) + p[..if s < 0 then 0 else s] && oob == old(oob)
    {
      log := log + [Sent(p, outOfBand)];
      if !a.Took? {
        return -1;
      }
      s := Least(a.count, |p|);
      if outOfBand && s > 0 {
        sent := sent + p[..s - 1];
        oob := oob + [p[s - 1]];
      } else {
        sent := sent + p[..s];
      }
    }

    /** `send` of a part of the buffer. */
    method Send(lp: nat, pos: nat, a: Answer) returns (s: int)
      requires lp <= pos <= data.Length
      modifies this`sent, this`oob, this`log
      ensures s == if a.Took? then Least(a.count, pos - lp) else -1
      ensures sent == old(sent) + data[lp..lp + (if s < 0 then 0 else s)] && oob == old(oob)
      ensures log == old(log) + [Sent(data[lp..pos], false)]
    {
      s := Give(data[lp..pos], false, a);
      assert s >= 0 ==> data[lp..pos][..s] == data[lp..lp + s];
    }

    /** `send_oob`: one byte more is sent than the piece has, the last of them out of band; the byte it
        displaces in the buffer is put back. `again` is what the error number says afterwards. */
    method SendOob(lp: nat, pos: nat, a: Answer, stale: bool) returns (s: int, again: bool)
      requires lp <= pos <= data.Length
      modifies this`sent, this`oob, this`log, data
      ensures data[..] == old(data[..]) && s <= pos - lp && s >= -1
      ensures a.Took? && a.count > pos - lp && pos < data.Length ==> s == pos - lp && oob == old(oob) + [oobChar]
      ensures pos == data.Length || a.Again? ==> s == -1 && oob == old(oob)
      ensures s == -1 ==> again == Blocked(a, pos == data.Length, stale)
      ensures sent == old(sent) + data[lp..lp + (if s < 0 then 0 else s)]
      ensures log == old(log) + if pos == data.Length then [] else [Sent(data[lp..pos] + [oobChar], true)]
    {
      ghost var before := data[..];
      again := stale;
      if data.Length <= pos {
        return -1, again;
      }
      if !a.Took? {
        again := a.Again?;
      }
      var rchar := data[pos];
      data[pos] := oobChar;
      assert data[lp..pos + 1] == data[lp..pos] + [oobChar] && data[lp..pos] == before[lp..pos];
      var len := Give(data[lp..pos + 1], true, a);
      s := if len > 0 then len - 1 else -1;
      assert len > 0 ==> data[lp..pos + 1][..len - 1] == before[lp..lp + (len - 1)];
      data[pos] := rchar;
      assert data[..] == before;
    }

    /** One piece, sent as its mode says, or counted as sent because the last call ended with it. */
    method Piece(lp: nat, pos: nat, mode: Mode, a: Answer, stale: bool, resumed: bool) returns (s: int, again: bool)
      requires lp <= pos <= data.Length
      modifies this`sent, this`oob, this`lost, this`log, data
      ensures data[..] == old(data[..]) && -1 <= s <= pos - lp && lost >= old(lost)
      ensures resumed ==> s == pos - lp && sent == old(sent) && lost == old(lost) + (pos - lp)
      ensures !resumed ==> sent == old(sent) + data[lp..lp + (if s < 0 then 0 else s)] && lost == old(lost)
      ensures Takes(a, pos - lp) && (OutOfBand(mode) ==> pos < data.Length) ==> s == pos - lp
      ensures !resumed && OutOfBand(mode) && pos == data.Length ==> s == -1
      ensures !resumed && a.Again? ==> s == -1
      ensures s == -1 ==> again == Blocked(a, OutOfBand(mode) && pos == data.Length, stale)
      ensures log == old(log) + StepLog(data[..], oobChar, lp, pos, mode, resumed)
      ensures Takes(a, pos - lp) && !resumed && OutOfBand(mode) && pos < data.Length ==> oob == old(oob) + [oobChar]
      ensures resumed || !OutOfBand(mode) || pos == data.Length ==> oob == old(oob)
    {
      again := stale;
      if resumed {
        s := pos - lp;
        lost := lost + (pos - lp);
      } else if OutOfBand(mode) {
        s, again := SendOob(lp, pos, a, stale);
      } else {
        assert data[..][lp..pos] + [] == data[lp..pos];
        s := Send(lp, pos, a);
        if !a.Took? {
          again := a.Again?;
        }
      }
    }

    /** The same, with the books kept. */
    method Booked(lp: nat, pos: nat, mode: Mode, a: Answer, stale: bool, resumed: bool, ghost offset: nat, ghost sent0: bytes, ghost lost0: nat)
        returns (s: int, again: bool)
      requires offset <= lp <= pos <= data.Length && Accounts(data[..], sent0, lost0, sent, lost, offset, lp)
      modifies this`sent, this`oob, this`lost, this`log, data
      ensures data[..] == old(data[..]) && -1 <= s <= pos - lp
      ensures Accounts(data[..], sent0, lost0, sent, lost, offset, if s < 0 then lp else lp + s)
      ensures lost == (if resumed then old(lost) + (pos - lp) else old(lost)) && (resumed ==> s == pos - lp)
      ensures Takes(a, pos - lp) && (OutOfBand(mode) ==> pos < data.Length) ==> s == pos - lp
      ensures !resumed && OutOfBand(mode) && pos == data.Length ==> s == -1
      ensures !resumed && a.Again? ==> s == -1 && sent == old(sent)
      ensures s == -1 ==> again == Blocked(a, OutOfBand(mode) && pos == data.Length, stale)
      ensures log == old(log) + StepLog(data[..], oobChar, lp, pos, mode, resumed)
      ensures Takes(a, pos - lp) && !resumed && OutOfBand(mode) && pos < data.Length ==> oob == old(oob) + [oobChar]
      ensures resumed || !OutOfBand(mode) || pos == data.Length ==> oob == old(oob)
    {
      hide Accounts;
      s, again := Piece(lp, pos, mode, a, stale, resumed);
      ghost var taken := if resumed || s < 0 then 0 else s;
      AccountsMore(data[..], sent0, lost0, old(sent), old(lost), offset, lp, taken, if s < 0 then lp else lp + s);
      assert sent == old(sent) + data[lp..lp + taken];
    }

    /** The next stop, from the loop variables. */
    method NextStop(i: nat, r: int, part: Part, ghost curr: nat) returns (i': nat, r': int, part': Part, stop: Stop)
      requires i <= |parts| && r <= part.r && (r > 0 || i < |parts|)
      requires curr <= |Expand(parts)| && Expand(parts)[curr..] == Remaining(parts, i, part, r)
      ensures i' <= |parts| && r' <= part'.r && curr < |Expand(parts)| && stop == Expand(parts)[curr]
      ensures Expand(parts)[curr + 1..] == Remaining(parts, i', part', r')
    {
      hide Expand, From, Remaining;
      RemainingStep(parts, i, part, r);
      i', r', part' := i, r, part;
      if r' <= 0 {
        part' := parts[i'];
        r' := part'.r;
        i' := i' + 1;
      }
      stop := StopOf(part', part'.r - r');
      ghost var stops := Expand(parts);
      assert stops[curr] == stops[curr..][0] && stops[curr + 1..] == stops[curr..][1..];
      r' := r' - 1;
    }

    /** One round of the loop of `desync`, for the stop with number `curr`. */
    method OneStop(n: nat, offset: nat, sock: Socket, stop: Stop, curr: nat, partSkip: nat, lp: nat,
                   ghost stops: seq<Stop>, ghost sent0: bytes, ghost lost0: nat, ghost log0: seq<Sent>, ghost oob0: bytes)
        returns (turn: Turn, ret: int, wait: bool, lp': nat)
      requires curr <= |stops| && 1 <= curr
      requires Logged(data[..], oobChar, stops, n, offset, partSkip, curr - 1, lp, log0, log) && Marked(oobChar, stops, n, offset, partSkip, sock, curr - 1, oob0, oob)
      requires offset <= lp <= n <= data.Length && 1 <= curr <= |stops| && stop == stops[curr - 1]
      requires Accounts(data[..], sent0, lost0, sent, lost, offset, lp)
      requires Standing(stops, n, offset, partSkip, sock, data.Length, curr - 1, lp, lost - lost0)
      modifies this`partSent, this`sent, this`oob, this`lost, this`log, data
      ensures data[..] == old(data[..]) && -1 <= ret <= n - offset && offset <= lp' <= n
      ensures ret >= 0 || turn != End ==> Accounts(data[..], sent0, lost0, sent, lost, offset, if turn == End then offset + ret else lp')
      ensures turn == Proceed ==> Standing(stops, n, offset, partSkip, sock, data.Length, curr, lp', lost - lost0)
      ensures turn != Proceed ==> Came(stops, n, offset, partSkip, sock, data.Length, turn == End, ret, wait, partSent, lost - lost0)
      ensures wait ==> turn == End && ret >= 0
      ensures turn == Proceed ==>
                Logged(data[..], oobChar, stops, n, offset, partSkip, curr, lp', log0, log) && Marked(oobChar, stops, n, offset, partSkip, sock, curr, oob0, oob)
      ensures turn != Proceed ==> LogEnds(data[..], oobChar, stops, n, offset, partSkip, sock, turn == End, wait, lp', offset + ret, partSent, log0, log, oob0, oob)
    {
      hide Accounts, Standing, Came, Books, Missing, LeftOff, Room, HadRoom, Fresh, NoStart, Positive, Whole, Refused, Blocked, FirstTight, Before,
           Logged, Marked, LogEnds;
      ghost var gain := lost - lost0;
      turn, ret, wait, lp' := Proceed, 0, false, lp;
      var pos := stop.pos;
      if ((offset != 0 && pos < offset) || curr < partSkip) && !stop.start {
        StandingPass(stops, n, offset, partSkip, sock, data.Length, curr - 1, lp, gain);
        LoggedPass(data[..], oobChar, stops, n, offset, partSkip, sock, curr - 1, lp, log0, log, oob0, oob);
        return;
      }
      if offset != 0 && pos < offset {
        StandingPass(stops, n, offset, partSkip, sock, data.Length, curr - 1, lp, gain);
        LoggedPass(data[..], oobChar, stops, n, offset, partSkip, sock, curr - 1, lp, log0, log, oob0, oob);
        return;
      }
      if pos < 0 || pos < lp {
        CameBreak(stops, n, offset, partSkip, sock, data.Length, curr - 1, lp, gain, partSent);
        LogBreaks(data[..], oobChar, stops, n, offset, partSkip, sock, curr - 1, lp, lp', partSent, log0, log, oob0, oob);
        turn := Break;
        return;
      }
      if pos > n {
        pos := n;
      }
      turn, ret, wait, lp' := SendAt(n, offset, sock, stop.mode, pos, curr, partSkip, lp, stops, sent0, lost0, log0, oob0);
    }

    /** The piece up to `pos`: sent, or taken for sent, and what follows from that. */
    method SendAt(n: nat, offset: nat, sock: Socket, mode: Mode, pos: nat, curr: nat, partSkip: nat, lp: nat,
                  ghost stops: seq<Stop>, ghost sent0: bytes, ghost lost0: nat, ghost log0: seq<Sent>, ghost oob0: bytes)
        returns (turn: Turn, ret: int, wait: bool, lp': nat)
      requires curr <= |stops| && 1 <= curr
      requires Logged(data[..], oobChar, stops, n, offset, partSkip, curr - 1, lp, log0, log) && Marked(oobChar, stops, n, offset, partSkip, sock, curr - 1, oob0, oob)
      requires 1 <= curr <= |stops| && mode == stops[curr - 1].mode
      requires Sends(stops, n, offset, partSkip, sock, data.Length, curr - 1, lp, lost - lost0, pos)
      requires Accounts(data[..], sent0, lost0, sent, lost, offset, lp)
      modifies this`partSent, this`sent, this`oob, this`lost, this`log, data
      ensures data[..] == old(data[..]) && -1 <= ret <= n - offset && offset <= lp' <= n
      ensures ret >= 0 || turn != End ==> Accounts(data[..], sent0, lost0, sent, lost, offset, if turn == End then offset + ret else lp')
      ensures turn == Proceed ==> Standing(stops, n, offset, partSkip, sock, data.Length, curr, lp', lost - lost0)
      ensures turn != Proceed ==> Came(stops, n, offset, partSkip, sock, data.Length, turn == End, ret, wait, partSent, lost - lost0)
      ensures wait ==> turn == End && ret >= 0
      ensures turn == Proceed ==>
                Logged(data[..], oobChar, stops, n, offset, partSkip, curr, lp', log0, log) && Marked(oobChar, stops, n, offset, partSkip, sock, curr, oob0, oob)
      ensures turn != Proceed ==> LogEnds(data[..], oobChar, stops, n, offset, partSkip, sock, turn == End, wait, lp', offset + ret, partSent, log0, log, oob0, oob)
    {
      hide Accounts, Standing, Came, Blocked, PassedOver, Least, Logged, Marked, LogEnds;
      ghost var gain := lost - lost0;
      turn, ret, wait, lp' := Proceed, 0, false, lp;
      ghost var log1, oob1 := log, oob;
      var s, again := Booked(lp, pos, mode, sock.answer(curr), sock.stale, curr == partSkip, offset, sent0, lost0);
      partSent := curr;
      if s < 0 {
        turn, ret := End, if again then lp - offset else -1;
        LogEndsShort(data[..], oobChar, stops, n, offset, partSkip, sock, curr - 1, lp, pos, s, offset + ret, log0, log1, oob0, oob1, log, oob);
        CameShort(stops, n, offset, partSkip, sock, data.Length, curr - 1, lp, gain, pos, s, ret);
        return;
      }
      if s != pos - lp {
        turn, ret := End, lp + s - offset;
        LogEndsShort(data[..], oobChar, stops, n, offset, partSkip, sock, curr - 1, lp, pos, s, offset + ret, log0, log1, oob0, oob1, log, oob);
        CameShort(stops, n, offset, partSkip, sock, data.Length, curr - 1, lp, gain, pos, s, ret);
        return;
      }
      if sock.notSent(curr) || (sock.waitSend && curr > partSkip) {
        turn, ret, wait := End, pos - offset, true;
        LogEndsAt(data[..], oobChar, stops, n, offset, partSkip, sock, curr - 1, lp, pos, true, lp', pos, log0, log1, oob0, oob1, log, oob);
        CameWait(stops, n, offset, partSkip, sock, data.Length, curr - 1, lp, gain, pos);
        return;
      }
      StandingSend(stops, n, offset, partSkip, sock, data.Length, curr - 1, lp, gain, pos);
      LoggedSend(data[..], oobChar, stops, n, offset, partSkip, sock, curr - 1, lp, pos, log0, log1, oob0, oob1, log, oob);
      lp' := pos;
    }

    /** The loop of `desync`: it either ends the call or reaches the rest of the buffer at `lp`. */
    method SendStops(n: nat, offset: nat, sock: Socket) returns (ended: bool, ret: int, wait: bool, lp: nat)
      requires offset <= n <= data.Length
      modifies this`partSent, this`sent, this`oob, this`lost, this`log, data
      ensures data[..] == old(data[..]) && -1 <= ret <= n - offset && offset <= lp <= n && (wait ==> ended && ret >= 0)
      ensures ret >= 0 || !ended ==> Accounts(data[..], old(sent), old(lost), sent, lost, offset, if ended then offset + ret else lp)
      ensures Came(Expand(parts), n, offset, old(partSent), sock, data.Length, ended, ret, wait, partSent, lost - old(lost))
      ensures LogEnds(data[..], oobChar, Expand(parts), n, offset, old(partSent), sock, ended, wait, lp, offset + ret, partSent, old(log), log, old(oob), oob)
    {
      hide Expand, Remaining, Accounts, Standing, Came, Logged, Marked, LogEnds;
      ghost var stops, sent0, lost0, log0, oob0 := Expand(parts), sent, lost, log, oob;
      LoggedOpen(data[..], oobChar, stops, n, offset, partSent, sock, log, oob);
      var partSkip := partSent;
      var part := Part(0, 0, 0, Split, false);
      var i: nat, r: int, curr: nat := 0, 0, 0;
      ended, ret, wait, lp := false, 0, false, offset;
      AtStart(parts, part);
      AccountsNothing(data[..], sent, lost, offset);
      StandingOpen(stops, n, offset, partSkip, sock, data.Length);
      while r > 0 || i < |parts|
        invariant i <= |parts| && r <= part.r && curr <= |stops| && stops[curr..] == Remaining(parts, i, part, r)
        invariant offset <= lp <= n && data[..] == old(data[..])
        invariant Accounts(data[..], sent0, lost0, sent, lost, offset, lp)
        invariant Standing(stops, n, offset, partSkip, sock, data.Length, curr, lp, lost - lost0)
        invariant Logged(data[..], oobChar, stops, n, offset, partSkip, curr, lp, log0, log) && Marked(oobChar, stops, n, offset, partSkip, sock, curr, oob0, oob)
        decreases |stops| - curr
      {
        var stop, turn;
        i, r, part, stop := NextStop(i, r, part, curr);
        curr := curr + 1;
        turn, ret, wait, lp := OneStop(n, offset, sock, stop, curr, partSkip, lp, stops, sent0, lost0, log0, oob0);
        if turn != Proceed {
          ended := turn == End;
          return;
        }
      }
      ret, wait := 0, false;
      RemainingEmpty(parts, i, part, r);
      assert |stops[curr..]| == |stops| - curr;
      CameEnd(stops, n, offset, partSkip, sock, data.Length, lp, lost - lost0, partSent);
      LogEndsBehind(data[..], oobChar, stops, n, offset, partSkip, sock, lp, partSent, log0, log, oob0, oob);
    }

    /** `desync`, once the buffer is in shape: what it returns counts exactly the bytes it has sent or
        taken for sent.

        Without start flags it loses exactly what was missing of the piece the last call ended at, which
        is never offered again, and what the socket leaves behind of the rest, sent from `at` on.
        With start flags nothing of a piece is lost if the last call left off cleanly.

        A socket that takes every piece whole makes no call fail if there is room behind the pieces
        that go out of band; and a fresh buffer is then sent or left waiting. Without room such a call comes
        to the first piece that lacks it, unless something makes it wait before. There it fails, if the
        error number left behind is not EAGAIN; and if it is, it returns what it has sent, which
        may be everything, and the piece is counted as begun.

        What it gives to the socket is the buffer cut at its stops, from where the last call left off, each
        piece in its own way, and then the rest. */
    method Desync(n: nat, offset: nat, sock: Socket) returns (ret: int, wait: bool, ghost at: nat)
      requires offset <= n <= data.Length
      modifies this`partSent, this`sent, this`oob, this`lost, this`log, data
      ensures data[..] == old(data[..]) && -1 <= ret <= n - offset && at <= n && (Quiet(sock) ==> !wait)
      ensures ret >= 0 ==> Accounts(data[..], old(sent), old(lost), sent, lost, offset, offset + ret)
      ensures at < n ==> offset <= at && !wait && (sock.last.Took? ==> offset + ret == n)
      ensures NoStart(Expand(parts)) ==>
                lost == old(lost) + Missing(Expand(parts), old(partSent), offset, n) + Unsent(sock.last, at, n)
      ensures Positive(Expand(parts)) && LeftOff(Expand(parts), old(partSent), offset, n) ==>
                lost == old(lost) + Unsent(sock.last, at, n) && (wait ==> ret >= 0 && LeftOff(Expand(parts), partSent, offset + ret, n))
      ensures ret >= 0 && !wait && at == n && offset + ret < n ==> EndedAt(Expand(parts), partSent, offset + ret, n)
      ensures Whole(sock, n) && Room(Expand(parts), n, data.Length) ==> ret >= 0 && (wait || offset + ret == n)
      ensures Whole(sock, n) && Quiet(sock) && Fresh(Expand(parts), old(partSent), offset, n) ==>
                (ret == -1 <==> !Room(Expand(parts), n, data.Length) && !sock.stale)
      ensures Whole(sock, n) && Quiet(sock) && Fresh(Expand(parts), old(partSent), offset, n) && !Room(Expand(parts), n, data.Length) ==>
                at == n && Halted(Expand(parts), n, sock, ret, partSent)
      ensures Whole(sock, n) && sock.stale ==> ret >= 0
      ensures Refused(Expand(parts), old(partSent), offset, sock) && Room(Expand(parts), n, data.Length) ==> ret == 0 && !wait && partSent == 1
      ensures CallLog(data[..], oobChar, Expand(parts), n, offset, old(partSent), sock, ret, wait, partSent, old(log), log, old(oob), oob)
    {
      hide Expand, Accounts, Whole, LeftOff, EndedAt, Missing, Positive, NoStart, Room, Fresh, Refused, FirstTight, Before, LogEnds, CallLog, Rest;
      var ended, lp;
      ghost var p, log0, oob0 := partSent, log, oob;
      ended, ret, wait, lp := SendStops(n, offset, sock);
      at := n;
      if ended {
        CallEnded(data[..], oobChar, Expand(parts), n, offset, p, sock, ret, wait, lp, partSent, log0, log, oob0, oob);
        return;
      }
      wait := false;
      ghost var log1, to := log, offset + ret;
      if lp < n {
        at := lp;
        ghost var sent1, lost1 := sent, lost;
        var s := Send(lp, n, sock.last);
        if Whole(sock, n) { WholeLast(sock, n); }
        AccountsMore(data[..], old(sent), old(lost), sent1, lost1, offset, lp, if s < 0 then 0 else s, if s < 0 then lp else n);
        assert data[..][lp..n] == data[lp..n];
        if s < 0 {
          ret := if sock.last.Again? then lp - offset else -1;
          CallThrough(data[..], oobChar, Expand(parts), n, offset, p, sock, ret, to, lp, partSent, log0, log1, oob0, oob, log);
          return;
        }
        lost := lost + (n - lp - s);
      }
      CallThrough(data[..], oobChar, Expand(parts), n, offset, p, sock, n - offset, to, lp, partSent, log0, log1, oob0, oob, log);
      return n - offset, false, at;
    }

    /** The caller's loop: one fresh buffer, and as many calls as `socks` has answers for. If every
        socket takes what it is offered whole, and there is room, then whatever the pattern of waits, what has
        been sent in band is at each moment exactly the part of the buffer the return values add up to,
        and the buffer itself is as it was; and when no call is left waiting, it is the whole buffer. If the stops
        are in order and none is exempt from being skipped, then the socket has been given exactly the buffer
        cut at the stops, each piece in its own way, however often it had to be resumed, with one marker out
        of band for each that asks for it. */
    method SendBuffer(n: nat, socks: seq<Socket>) returns (total: nat, waiting: bool)
      requires n <= data.Length && partSent == 0
      requires Positive(Expand(parts)) && Room(Expand(parts), n, data.Length)
      requires forall i :: 0 <= i < |socks| ==> Whole(socks[i], n)
      modifies this`partSent, this`sent, this`oob, this`lost, this`log, data
      ensures data[..] == old(data[..]) && total <= n
      ensures sent == old(sent) + data[..total]
      ensures !waiting ==> total == n
      ensures NoStart(Expand(parts)) && Ascending(Expand(parts)) && n > 0 ==>
                var stops := Expand(parts);
                if waiting then partSent <= |stops| && total == Before(stops, partSent, n)
                                && log == old(log) + Cuts(data[..], oobChar, stops, n, 0, partSent) && oob == old(oob) + Marks(stops, oobChar, 0, partSent)
                else log == old(log) + Cuts(data[..], oobChar, stops, n, 0, |stops|) + Rest(data[..], stops, n)
                     && oob == old(oob) + Marks(stops, oobChar, 0, |stops|)
    {
      hide Expand, Whole, LeftOff, Positive, Room, Missing, NoStart, CallLog, Cuts, Marks, Rest, Before, Ascending, Tracked, GivenSoFar;
      LeftOffFresh(Expand(parts), n);
      GivenNothing(data[..], oobChar, Expand(parts), n, log, oob);
      total, waiting := 0, true;
      var i := 0;
      while i < |socks| && waiting
        invariant i <= |socks| && total <= n && data[..] == old(data[..])
        invariant sent == old(sent) + data[..total] && lost == old(lost)
        invariant waiting ==> LeftOff(Expand(parts), partSent, total, n)
        invariant !waiting ==> total == n
        invariant NoStart(Expand(parts)) && Ascending(Expand(parts)) && n > 0 ==>
                    GivenSoFar(data[..], oobChar, Expand(parts), n, total, partSent, waiting, old(log), log, old(oob), oob)
      {
        ghost var p, total0, log0, oob0 := partSent, total, log, oob;
        WholeLast(socks[i], n);
        var ret;
        ghost var at;
        ret, waiting, at := Desync(n, total, socks[i]);
        assert data[..total + ret] == data[..total] + data[total..total + ret];
        total := total + ret;
        if NoStart(Expand(parts)) && Ascending(Expand(parts)) && n > 0 {
          GivenMore(data[..], oobChar, Expand(parts), n, total0, p, socks[i], ret, waiting, partSent, old(log), log0, log, old(oob), oob0, oob);
        }
        i := i + 1;
      }
      if NoStart(Expand(parts)) && Ascending(Expand(parts)) && n > 0 {
        GivenIs(data[..], oobChar, Expand(parts), n, total, partSent, waiting, old(log), log, old(oob), oob);
      }
    }

    /** The first piece is refused once, and after that everything is taken whole: the return values add
        up to the length of the buffer, but the bytes of that piece were never sent. */
    method RefusedOnce(n: nat, refusing: Socket, taking: Socket) returns (first: int, second: int)
      requires 0 < n <= data.Length && partSent == 0
      requires NoStart(Expand(parts)) && Room(Expand(parts), n, data.Length)
      requires Refused(Expand(parts), 0, 0, refusing) && Whole(taking, n) && Quiet(taking)
      modifies this`partSent, this`sent, this`oob, this`lost, this`log, data
      ensures data[..] == old(data[..]) && first == 0 && second == n && |sent| < |old(sent)| + n && sent != old(sent) + data[..n]
      ensures Expand(parts)[0].pos <= n ==> lost == old(lost) + Expand(parts)[0].pos
    {
      hide Expand, Whole, Room, NoStart, Quiet;
      ghost var at;
      var wait;
      first, wait, at := Desync(n, 0, refusing);
      second, wait, at := Desync(n, 0, taking);
      WholeLast(taking, n);
    }

    /** A fresh buffer in which a piece out of band has no byte behind it, and EAGAIN left behind: the call
        returns what lies before that piece, and if that is not everything the next call counts all the
        rest as sent, although none of it ever was. */
    method StaleOnce(n: nat, sock: Socket) returns (first: int, second: int)
      requires 0 < n <= data.Length && partSent == 0
      requires NoStart(Expand(parts)) && Positive(Expand(parts)) && Ascending(Expand(parts)) && !Room(Expand(parts), n, data.Length)
      requires Whole(sock, n) && Quiet(sock) && sock.stale
      modifies this`partSent, this`sent, this`oob, this`lost, this`log, data
      ensures data[..] == old(data[..]) && 0 <= first <= n && first + second == n
      ensures var stops := Expand(parts); first == Before(stops, FirstTight(stops, n), n)
      ensures sent == old(sent) + data[..first] && lost == old(lost) + second
    {
      hide Expand, Whole, Room, NoStart, Quiet, Positive, Ascending;
      ghost var at;
      var wait;
      first, wait, at := Desync(n, 0, sock);
      second := 0;
      WholeLast(sock, n);
      assert data[..] == old(data[..]) && data[0..first] == data[..first];
      if first < n {
        second, wait, at := Desync(n, first, sock);
      }
    }
  }

  /** A buffer of which nothing has been sent has been left off cleanly. */
  lemma LeftOffFresh(stops: seq<Stop>, n: nat)
    ensures LeftOff(stops, 0, 0, n)
  {
  }

  lemma AtStart(parts: seq<Part>, part: Part)
    requires part.r == 0
    ensures Remaining(parts, 0, part, 0) == Expand(parts)
  {
    assert parts[0..] == parts;
  }

  lemma AccountsNothing(data: bytes, sent: bytes, lost: nat, at: nat)
    requires at <= |data|
    ensures Accounts(data, sent, lost, sent, lost, at, at)
  {
  }

  lemma WholeLast(sock: Socket, n: nat)
    requires Whole(sock, n)
    ensures Takes(sock.last, n)
  {
  }
}