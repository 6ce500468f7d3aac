/**
  The chunk codec of VMess: the stacks that `protocol.go` builds out of the length layers of
  `chunk_length_stream.go` and `chunk_length_aead.go`, the sealing layer of `chunk_aead.go`, the
  checksum layer of `chunk_stream_checksum.go` and the stream cipher under it.
*/
module Vmess {
  import opened Wire

  const OVERHEAD: nat := 16          // CipherOverhead
  const MAX_PADDING: nat := 64        // MaxPaddingSize
  const WRITE_CHUNK_SIZE: nat := 15000
  const READ_CHUNK_SIZE: nat := 16384

  const LEGACY: byte := 1
  const AES_128_GCM: byte := 3
  const CHACHA20_POLY1305: byte := 4
  const NO_SECURITY: byte := 5

  const OPTION_CHUNK_STREAM: nat := 1
  const OPTION_CHUNK_MASKING: nat := 4
  const OPTION_GLOBAL_PADDING: nat := 8
  const OPTION_AUTHENTICATED_LENGTH: nat := 16

  // ----- which layers

  datatype Aead = AesGcm | ChachaPoly

  datatype Body = Bare | Checksummed | Sealed(aead: Aead)

  /** How the length of a chunk is written: in the clear, perhaps masked, or sealed. */
  datatype LengthLayer = Open | Auth(aead: Aead)

  /** The layers between a caller and the connection. The mask and the padding length are drawn from
      one key stream, which both layers share. */
  datatype Stack = Stack(body: Body, length: LengthLayer, masking: bool, padding: bool, stream: bool)

  datatype Choice = Chunked(stack: Stack) | Unchunked | Panic

  predicate Has(option: byte, bit: nat)
    requires bit > 0
  {
    BitAt(option, bit)
  }

  /** `CreateReader` */
  function ReaderStack(security: byte, option: byte): (c: Choice) {
    if security == NO_SECURITY then
      if Has(option, OPTION_CHUNK_STREAM) then
        var padding := Has(option, OPTION_GLOBAL_PADDING);
        if Has(option, OPTION_AUTHENTICATED_LENGTH) then Chunked(Stack(Bare, Auth(AesGcm), false, padding, false))
        else Chunked(Stack(Bare, Open, Has(option, OPTION_CHUNK_MASKING), padding, false))
      else Unchunked
    else if security == LEGACY then
      if Has(option, OPTION_CHUNK_STREAM) then
        Chunked(Stack(Checksummed, Open, Has(option, OPTION_CHUNK_MASKING), Has(option, OPTION_GLOBAL_PADDING), true))
      else Unchunked
    else if security == AES_128_GCM then
      var padding := Has(option, OPTION_GLOBAL_PADDING);
      if Has(option, OPTION_AUTHENTICATED_LENGTH) then Chunked(Stack(Sealed(AesGcm), Auth(AesGcm), false, padding, false))
      else Chunked(Stack(Sealed(AesGcm), Open, Has(option, OPTION_CHUNK_MASKING), padding, false))
    else if security == CHACHA20_POLY1305 then
      var padding := Has(option, OPTION_GLOBAL_PADDING);
      if Has(option, OPTION_AUTHENTICATED_LENGTH) then Chunked(Stack(Sealed(ChachaPoly), Auth(ChachaPoly), false, padding, false))
      else Chunked(Stack(Sealed(ChachaPoly), Open, Has(option, OPTION_CHUNK_MASKING), padding, false))
    else Panic
  }

  // ----- keys and state

  /** What the two ends agree on. `mask` is the stream cipher: the next byte of its key stream, given
      the ciphertext so far. */
  datatype Keys = Keys(
    shake: nat -> byte,
    lengthSeal: (Aead, bytes, bytes) -> bytes, lengthOpen: (Aead, bytes, bytes) -> Option<bytes>,
    seal: (Aead, bytes, bytes) -> bytes, open: (Aead, bytes, bytes) -> Option<bytes>,
    mask: bytes -> byte,
    sum: bytes -> bytes)

  ghost predicate Sound(k: Keys) {
    && (forall a, n, p :: |k.lengthSeal(a, n, p)| == |p| + OVERHEAD && k.lengthOpen(a, n, k.lengthSeal(a, n, p)) == Some(p))
    && (forall a, n, p :: |k.seal(a, n, p)| == |p| + OVERHEAD && k.open(a, n, k.seal(a, n, p)) == Some(p))
    && (forall a, n, c :: k.lengthOpen(a, n, c).Some? ==> |c| >= OVERHEAD && |k.lengthOpen(a, n, c).value| == |c| - OVERHEAD)
    && (forall a, n, c :: k.open(a, n, c).Some? ==> |c| >= OVERHEAD && |k.open(a, n, c).value| == |c| - OVERHEAD)
    && (forall p :: |k.sum(p)| == 4)
  }

  /** What changes from chunk to chunk: the place in the shared key stream, the counters of the two
      AEAD layers, and what has passed through the stream cipher. The nonces are kept without their
      first two bytes, which hold the counter. */
  datatype State = State(pos: nat, lengthNonce: bytes, lengthCount: nat, nonce: bytes, count: nat, history: bytes)

  ghost predicate Ready(st: State) {
    st.lengthCount < 0x10000 && st.count < 0x10000
  }

  /** `PutUint16(nonce, count)` */
  function Counted(nonce: bytes, count: nat): (r: bytes)
  {
    Be(count, 2) + nonce
  }

  /** What is drawn from the key stream for one chunk: the padding length first, then the mask. */
  datatype Draw = Draw(padding: nat, mask: bytes, pos: nat)

  function Drawn(stack: Stack, shake: nat -> byte, pos: nat): (d: Draw)
    ensures d.padding < MAX_PADDING && |d.mask| == 2
  {
    var padding := if stack.padding then (shake(pos) as int * 256 + shake(pos + 1)) % MAX_PADDING else 0;
    var next := if stack.padding then pos + 2 else pos;
    if stack.masking && !stack.length.Auth? then Draw(padding, [shake(next), shake(next + 1)], next + 2)
    else Draw(padding, [0, 0], next)
  }

  // ----- writing one chunk

  /** The sealing or checksum layer. */
  function Framed(body: Body, k: Keys, st: State, data: bytes): (r: bytes)
    requires Ready(st)
  {
    match body
    case Bare => data
    case Checksummed => k.sum(data) + data
    case Sealed(a) => k.seal(a, Counted(st.nonce, st.count), data)
  }

  function Xor2(a: bytes, b: bytes): (r: bytes)
    requires |a| == |b| == 2
    ensures |r| == 2
  {
    [Xor(a[0], b[0]), Xor(a[1], b[1])]
  }

  /** The length field: of the body and its padding, in sixteen bits, masked or sealed. */
  function LengthField(stack: Stack, k: Keys, st: State, d: Draw, n: nat): (r: bytes)
    requires Ready(st) && |d.mask| == 2
  {
    if stack.length.Auth? then
      k.lengthSeal(stack.length.aead, Counted(st.lengthNonce, st.lengthCount), Be((n + d.padding + 0x10000 - OVERHEAD) % 0x10000, 2))
    else if stack.masking then Xor2(Be((n + d.padding) % 0x10000, 2), d.mask)
    else Be((n + d.padding) % 0x10000, 2)
  }

  /** The stream cipher: each byte is masked according to the ciphertext before it. */
  function Cfb(mask: bytes -> byte, history: bytes, p: bytes): (c: bytes)
    ensures |c| == |p|
    decreases |p|
  {
    if p == [] then [] else
      var first := Xor(p[0], mask(history));
      [first] + Cfb(mask, history + [first], p[1..])
  }

  function Uncfb(mask: bytes -> byte, history: bytes, c: bytes): (p: bytes)
    ensures |p| == |c|
  {
    seq(|c|, i requires 0 <= i < |c| => UncfbAt(mask, history, c, i))
  }

  function UncfbAt(mask: bytes -> byte, history: bytes, c: bytes, i: nat): (b: byte)
    requires i < |c|
  {
    Xor(c[i], mask(history + c[..i]))
  }

  function Next(stack: Stack, st: State, pos: nat, passed: bytes): (r: State) {
    State(pos,
          st.lengthNonce, if stack.length.Auth? then (st.lengthCount + 1) % 0x10000 else st.lengthCount,
          st.nonce, if stack.body.Sealed? then (st.count + 1) % 0x10000 else st.count,
          if stack.stream then st.history + passed else st.history)
  }

  /** What one non-empty chunk looks like on the wire; `random` fills the padding. */
  function Encoded(stack: Stack, k: Keys, st: State, data: bytes, random: bytes): (wire: bytes)
    requires Ready(st) && |random| >= MAX_PADDING
  {
    var d, framed := Drawn(stack, k.shake, st.pos), Framed(stack.body, k, st, data);
    var plain := LengthField(stack, k, st, d, |framed|) + framed + random[..d.padding];
    Passed(stack.stream, k.mask, st.history, plain)
  }

  function After(stack: Stack, k: Keys, st: State, wire: bytes): (r: State) {
    Next(stack, st, Drawn(stack, k.shake, st.pos).pos, wire)
  }

  // ----- reading one chunk

  datatype Error = ShortBuffer | Truncated | BadLength | BadSeal | BadChecksum

  datatype Chunk = Data(data: bytes, rest: bytes, st: State) | End | Bad(error: Error) | Crash

  /** What the sealing or checksum layer makes of a chunk. A chunk with a checksum that is too short to hold
      one is sliced beyond its end, which panics. */
  datatype Unframing = Clear(data: bytes) | Rejected(error: Error) | OutOfBounds

  /** The length of body and padding, as the reader works it out from the length field. */
  function LengthOf(stack: Stack, k: Keys, st: State, d: Draw, field: bytes): (n: Option<nat>)
    requires Ready(st) && Sound(k) && |d.mask| == 2 && |field| == if stack.length.Auth? then 2 + OVERHEAD else 2
  {
    if stack.length.Auth? then
      match k.lengthOpen(stack.length.aead, Counted(st.lengthNonce, st.lengthCount), field)
      case None => None
      case Some(p) => Some((p[0] as int * 256 + p[1] + OVERHEAD) % 0x10000)
    else
      var p := if stack.masking then Xor2(field, d.mask) else field;
      Some(p[0] as int * 256 + p[1])
  }

  /** The sealing or checksum layer, on the way back. */
  function Unframed(body: Body, k: Keys, st: State, framed: bytes): (r: Unframing)
    requires Ready(st)
  {
    match body
    case Bare => Clear(framed)
    case Checksummed =>
      if |framed| < 4 then OutOfBounds
      else if k.sum(framed[4..]) == framed[..4] then Clear(framed[4..]) else Rejected(BadChecksum)
    case Sealed(a) =>
      match k.open(a, Counted(st.nonce, st.count), framed)
      case None => Rejected(BadSeal)
      case Some(data) => Clear(data)
  }

  function FieldLen(stack: Stack): (n: nat) {
    if stack.length.Auth? then 2 + OVERHEAD else 2
  }

  /** What a read into a buffer of `room` bytes makes of what is on the wire. */
  function Decoded(stack: Stack, k: Keys, st: State, wire: bytes, room: nat): (r: Chunk)
    requires Ready(st) && Sound(k)
  {
    var plain := if stack.stream then Uncfb(k.mask, st.history, wire) else wire;
    var d, m := Drawn(stack, k.shake, st.pos), FieldLen(stack);
    if stack.length.Auth? && room < m then Bad(ShortBuffer)
    else if |plain| < m then Bad(Truncated)
    else DecodedBody(stack, k, st, wire, room, plain, d, LengthOf(stack, k, st, d, plain[..m]))
  }

  /** The rest of the chunk, once the length is known. */
  function DecodedBody(stack: Stack, k: Keys, st: State, wire: bytes, room: nat, plain: bytes, d: Draw, length: Option<nat>): (r: Chunk)
    requires Ready(st) && |plain| == |wire| >= FieldLen(stack)
  {
    var m := FieldLen(stack);
    match length
    case None => Bad(BadSeal)
    case Some(n) =>
      if n < d.padding then Bad(BadLength)
      else if n == d.padding then End
      else if room < n - d.padding then Bad(ShortBuffer)
      else if |plain| < m + n then Bad(Truncated)
      else
        Delivered(stack, k, st, wire, m + n, Unframed(stack.body, k, st, plain[m..m + n - d.padding]))
  }

  /** What becomes of a chunk that takes the first `n` bytes of the wire. */
  function Delivered(stack: Stack, k: Keys, st: State, wire: bytes, n: nat, u: Unframing): (r: Chunk)
    requires Ready(st) && n <= |wire|
  {
    match u
    case Rejected(e) => Bad(e)
    case OutOfBounds => Crash
    case Clear(data) => Data(data, wire[n..], After(stack, k, st, wire[..n]))
  }

  // ----- reading undoes writing

  lemma {:induction false} UncfbCfb(mask: bytes -> byte, history: bytes, p: bytes)
    ensures Uncfb(mask, history, Cfb(mask, history, p)) == p
    decreases |p|
  {
    hide Xor;
    if p != [] {
      var c := Cfb(mask, history, p);
      var first := c[0];
      var tail := Cfb(mask, history + [first], p[1..]);
      UncfbCfb(mask, history + [first], p[1..]);
      assert c == [first] + tail;
      forall i | 0 <= i < |p| ensures UncfbAt(mask, history, c, i) == p[i] {
        if i == 0 {
          assert c[..0] == [] && history + [] == history;
          XorTwice(p[0], mask(history));
        } else {
          assert history + c[..i] == (history + [first]) + tail[..i - 1];
          assert Uncfb(mask, history + [first], tail)[i - 1] == p[1..][i - 1];
        }
      }
    }
  }

  /** What comes later on the wire does not matter. */
  lemma UncfbPrefix(mask: bytes -> byte, history: bytes, c: bytes, rest: bytes)
    ensures Uncfb(mask, history, c + rest)[..|c|] == Uncfb(mask, history, c)
  {
    hide Xor;
    forall i | 0 <= i < |c| ensures (c + rest)[..i] == c[..i] { }
  }

  lemma Xor2Twice(a: bytes, b: bytes)
    requires |a| == |b| == 2
    ensures Xor2(Xor2(a, b), b) == a
  {
    XorTwice(a[0], b[0]);
    XorTwice(a[1], b[1]);
  }

  lemma OverheadCancels(n: nat)
    ensures ((n + 0x10000 - OVERHEAD) % 0x10000 + OVERHEAD) % 0x10000 == n % 0x10000
  {
  }

  /** The sixteen-bit length survives masking and sealing; subtracting the overhead and adding it
      again cancels, also where it wraps. */
  lemma LengthBack(stack: Stack, k: Keys, st: State, d: Draw, n: nat)
    requires Ready(st) && Sound(k) && |d.mask| == 2
    ensures var f := LengthField(stack, k, st, d, n);
            |f| == FieldLen(stack) && LengthOf(stack, k, st, d, f) == Some((n + d.padding) % 0x10000)
  {
    hide Drawn, Xor, Be, Counted;
    var m := (n + d.padding) % 0x10000;
    if stack.length.Auth? {
      var s := (n + d.padding + 0x10000 - OVERHEAD) % 0x10000;
      TwoBytes(s);
      OverheadCancels(n + d.padding);
    } else {
      TwoBytes(m);
      if stack.masking { Xor2Twice(Be(m, 2), d.mask); }
    }
  }

  lemma UnframedFramed(body: Body, k: Keys, st: State, data: bytes)
    requires Ready(st) && Sound(k)
    ensures Unframed(body, k, st, Framed(body, k, st, data)) == Clear(data)
    ensures |Framed(body, k, st, data)| == |data| + FrameLen(body)
  {
    if body.Checksummed? {
      assert (k.sum(data) + data)[4..] == data && (k.sum(data) + data)[..4] == k.sum(data);
    }
  }

  function FrameLen(body: Body): (n: nat) {
    match body case Bare => 0 case Checksummed => 4 case Sealed(_) => OVERHEAD
  }

  /** The parts of a chunk on the wire, in the clear. */
  lemma PlainParts(stack: Stack, k: Keys, st: State, data: bytes, random: bytes, rest: bytes)
    requires Ready(st) && Sound(k) && |random| >= MAX_PADDING
    ensures var wire := Encoded(stack, k, st, data, random);
            var d, framed := Drawn(stack, k.shake, st.pos), Framed(stack.body, k, st, data);
            var m := FieldLen(stack);
            var plain := if stack.stream then Uncfb(k.mask, st.history, wire + rest) else wire + rest;
            && |wire| == m + |framed| + d.padding && |plain| == |wire| + |rest|
            && plain[..m] == LengthField(stack, k, st, d, |framed|)
            && plain[m..m + |framed|] == framed
  {
    var wire := Encoded(stack, k, st, data, random);
    var d, framed := Drawn(stack, k.shake, st.pos), Framed(stack.body, k, st, data);
    LengthBack(stack, k, st, d, |framed|);
    var field := LengthField(stack, k, st, d, |framed|);
    hide LengthField, Drawn, Framed, Uncfb, Cfb, Sound, Counted, FieldLen;
    var clear := field + framed + random[..d.padding];
    if stack.stream {
      UncfbCfb(k.mask, st.history, clear);
      UncfbPrefix(k.mask, st.history, wire, rest);
    }
    var plain := if stack.stream then Uncfb(k.mask, st.history, wire + rest) else wire + rest;
    assert plain[..|clear|] == clear;
    HeadParts(plain, field, framed, random[..d.padding]);
  }

  lemma HeadParts(plain: bytes, a: bytes, b: bytes, c: bytes)
    requires |plain| >= |a + b + c| && plain[..|a + b + c|] == a + b + c
    ensures plain[..|a|] == a && plain[|a|..|a| + |b|] == b
  {
    var head := plain[..|a + b + c|];
    assert plain[..|a|] == head[..|a|];
    assert plain[|a|..|a| + |b|] == head[|a|..|a| + |b|];
  }

  /** Whether a chunk fits: with its padding it stays below the sixteen bits of the length field. */
  predicate Fits(stack: Stack, k: Keys, st: State, n: nat) {
    n + FrameLen(stack.body) + Drawn(stack, k.shake, st.pos).padding < 0x10000
  }

  /** A reader in the same state gets back the chunk, takes exactly its bytes off the wire, and ends
      in the state the writer ended in. */
  lemma ReadBack(stack: Stack, k: Keys, st: State, data: bytes, random: bytes, rest: bytes, room: nat)
    requires Ready(st) && Sound(k) && |random| >= MAX_PADDING && data != []
    requires Fits(stack, k, st, |data|) && room >= |data| + FrameLen(stack.body) && room >= FieldLen(stack)
    ensures var wire := Encoded(stack, k, st, data, random);
            Decoded(stack, k, st, wire + rest, room) == Data(data, rest, After(stack, k, st, wire))
  {
    hide Encoded, Drawn, Framed, Unframed, Uncfb, LengthOf, LengthField, After, Sound;
    var wire := Encoded(stack, k, st, data, random);
    var d, framed := Drawn(stack, k.shake, st.pos), Framed(stack.body, k, st, data);
    PlainParts(stack, k, st, data, random, rest);
    LengthBack(stack, k, st, d, |framed|);
    UnframedFramed(stack.body, k, st, data);
    assert (wire + rest)[..|wire|] == wire && (wire + rest)[|wire|..] == rest;
  }

  /** A chunk that does not fit is never read back, whatever follows it on the wire: its length has
      wrapped. */
  lemma WrappedLost(stack: Stack, k: Keys, st: State, data: bytes, random: bytes, rest: bytes, room: nat)
    requires Ready(st) && Sound(k) && |random| >= MAX_PADDING && !Fits(stack, k, st, |data|)
    ensures var r := Decoded(stack, k, st, Encoded(stack, k, st, data, random) + rest, room);
            r.Data? ==> r.data != data
  {
    hide Encoded, Drawn, Framed, Unframed, Uncfb, LengthOf, LengthField, After, Sound, Decoded;
    var d, framed := Drawn(stack, k.shake, st.pos), Framed(stack.body, k, st, data);
    var wire := Encoded(stack, k, st, data, random) + rest;
    PlainParts(stack, k, st, data, random, rest);
    LengthBack(stack, k, st, d, |framed|);
    UnframedFramed(stack.body, k, st, data);
    if stack.length.Auth? && room < FieldLen(stack) {
      BadNow(stack, k, st, wire, room, ShortBuffer);
    } else {
      var plain := if stack.stream then Uncfb(k.mask, st.history, wire) else wire;
      var n := (|framed| + d.padding) % 0x10000;
      DecodedLength(stack, k, st, wire, room, Some(n));
      if d.padding < n && FieldLen(stack) + n <= |plain| {
        UnframedLength(stack.body, k, st, plain[FieldLen(stack)..FieldLen(stack) + n - d.padding]);
      }
    }
  }

  lemma UnframedLength(body: Body, k: Keys, st: State, framed: bytes)
    requires Ready(st) && Sound(k)
    ensures var u := Unframed(body, k, st, framed); u.Clear? ==> |u.data| + FrameLen(body) == |framed|
  {
  }

  /** Reading panics exactly when a chunk with a checksum announces, and the wire holds, a body of one to three
      bytes. */
  lemma CrashIff(stack: Stack, k: Keys, st: State, wire: bytes, room: nat)
    requires Ready(st) && Sound(k)
    ensures var plain := if stack.stream then Uncfb(k.mask, st.history, wire) else wire;
            var d, m := Drawn(stack, k.shake, st.pos), FieldLen(stack);
            Decoded(stack, k, st, wire, room).Crash? <==>
              && stack.body.Checksummed? && m <= |plain| && !(stack.length.Auth? && room < m)
              && var n := LengthOf(stack, k, st, d, plain[..m]);
              && n.Some? && d.padding < n.value < d.padding + 4 && n.value - d.padding <= room && m + n.value <= |plain|
  {
    hide Drawn, LengthOf, Uncfb, After, Sound;
  }

  // ----- whole streams

  /** A list of chunks on the wire, one after the other. */
  ghost function EncodedAll(stack: Stack, k: Keys, st: State, chunks: seq<bytes>, random: seq<bytes>): (wire: bytes)
    requires Ready(st) && |random| == |chunks| && forall r :: r in random ==> |r| >= MAX_PADDING
    decreases |chunks|
  {
    if chunks == [] then [] else
      var first := Encoded(stack, k, st, chunks[0], random[0]);
      first + EncodedAll(stack, k, After(stack, k, st, first), chunks[1..], random[1..])
  }

  /** The state after that. */
  ghost function AfterAll(stack: Stack, k: Keys, st: State, chunks: seq<bytes>, random: seq<bytes>): (r: State)
    requires Ready(st) && |random| == |chunks| && forall r :: r in random ==> |r| >= MAX_PADDING
    ensures Ready(r)
    decreases |chunks|
  {
    if chunks == [] then st else
      AfterAll(stack, k, After(stack, k, st, Encoded(stack, k, st, chunks[0], random[0])), chunks[1..], random[1..])
  }

  datatype Reading = Reading(chunks: seq<bytes>, st: State)

  /** Reading until the wire is empty. */
  ghost function DecodedAll(stack: Stack, k: Keys, st: State, wire: bytes, room: nat): (r: Option<Reading>)
    requires Ready(st) && Sound(k)
    decreases |wire|
  {
    if wire == [] then Some(Reading([], st)) else
      match Decoded(stack, k, st, wire, room)
      case End => None
      case Bad(_) => None
      case Crash => None
      case Data(data, rest, st') =>
        if |rest| >= |wire| || !Ready(st') then None else
          match DecodedAll(stack, k, st', rest, room)
          case None => None
          case Some(more) => Some(Reading([data] + more.chunks, more.st))
  }

  /** No chunk is empty and each fits where it comes. */
  ghost predicate FitAll(stack: Stack, k: Keys, pos: nat, chunks: seq<bytes>)
    decreases |chunks|
  {
    chunks == [] ||
    (&& chunks[0] != [] && |chunks[0]| + FrameLen(stack.body) + Drawn(stack, k.shake, pos).padding < 0x10000
     && FitAll(stack, k, Drawn(stack, k.shake, pos).pos, chunks[1..]))
  }

  /** For every stack, the reader recovers exactly the chunks that were written, and all counters and
      key streams end where the writer's did. */
  lemma {:induction false} ReadBackAll(stack: Stack, k: Keys, st: State, chunks: seq<bytes>, random: seq<bytes>, room: nat)
    requires Ready(st) && Sound(k) && |random| == |chunks| && forall r :: r in random ==> |r| >= MAX_PADDING
    requires FitAll(stack, k, st.pos, chunks) && room >= FieldLen(stack)
    requires forall c :: c in chunks ==> |c| + FrameLen(stack.body) <= room
    ensures DecodedAll(stack, k, st, EncodedAll(stack, k, st, chunks, random), room)
         == Some(Reading(chunks, AfterAll(stack, k, st, chunks, random)))
    decreases |chunks|
  {
    hide Decoded, Encoded, Sound, Drawn, After, FrameLen, FieldLen, Ready;
    if chunks != [] {
      FitsFirst(stack, k, st, chunks[0]);
      var first := Encoded(stack, k, st, chunks[0], random[0]);
      AfterFacts(stack, k, st, first);
      var st' := After(stack, k, st, first);
      var rest := EncodedAll(stack, k, st', chunks[1..], random[1..]);
      ReadBack(stack, k, st, chunks[0], random[0], rest, room);
      EncodedSome(stack, k, st, chunks[0], random[0]);
      ReadBackAll(stack, k, st', chunks[1..], random[1..], room);
      assert chunks == [chunks[0]] + chunks[1..];
    }
  }

  lemma AfterFacts(stack: Stack, k: Keys, st: State, wire: bytes)
    requires Ready(st)
    ensures Ready(After(stack, k, st, wire)) && After(stack, k, st, wire).pos == Drawn(stack, k.shake, st.pos).pos
  {
  }

  lemma FitsFirst(stack: Stack, k: Keys, st: State, data: bytes)
    ensures Fits(stack, k, st, |data|) <==> |data| + FrameLen(stack.body) + Drawn(stack, k.shake, st.pos).padding < 0x10000
  {
  }

  lemma EncodedSome(stack: Stack, k: Keys, st: State, data: bytes, random: bytes)
    requires Ready(st) && Sound(k) && |random| >= MAX_PADDING
    ensures Encoded(stack, k, st, data, random) != []
  {
    PlainParts(stack, k, st, data, random, []);
  }

  // ----- the stacks the options choose

  /** `CreateWriter`, and whether it cuts what is written into chunks of at most 15000 bytes first. */
  function WriterStack(security: byte, option: byte): (c: Choice) {
    if security == NO_SECURITY then
      if !Has(option, OPTION_CHUNK_STREAM) then Unchunked
      else if Has(option, OPTION_AUTHENTICATED_LENGTH) then
        Chunked(Stack(Bare, Auth(AesGcm), false, Has(option, OPTION_GLOBAL_PADDING), false))
      else
        Chunked(Stack(Bare, Open, Has(option, OPTION_CHUNK_MASKING), Has(option, OPTION_GLOBAL_PADDING), false))
    else if security == LEGACY then
      if !Has(option, OPTION_CHUNK_STREAM) then Unchunked
      else Chunked(Stack(Checksummed, Open, Has(option, OPTION_CHUNK_MASKING), Has(option, OPTION_GLOBAL_PADDING), true))
    else if security == AES_128_GCM then
      if Has(option, OPTION_AUTHENTICATED_LENGTH) then
        Chunked(Stack(Sealed(AesGcm), Auth(AesGcm), false, Has(option, OPTION_GLOBAL_PADDING), false))
      else
        Chunked(Stack(Sealed(AesGcm), Open, Has(option, OPTION_CHUNK_MASKING), Has(option, OPTION_GLOBAL_PADDING), false))
    else if security == CHACHA20_POLY1305 then
      if Has(option, OPTION_AUTHENTICATED_LENGTH) then
        Chunked(Stack(Sealed(ChachaPoly), Auth(ChachaPoly), false, Has(option, OPTION_GLOBAL_PADDING), false))
      else
        Chunked(Stack(Sealed(ChachaPoly), Open, Has(option, OPTION_CHUNK_MASKING), Has(option, OPTION_GLOBAL_PADDING), false))
    else Panic
  }

  predicate Cuts(security: byte) { security != NO_SECURITY }

  /** `bufio.NewChunkWriter`: one write becomes chunks of at most 15000 bytes. */
  function Cut(data: bytes): (chunks: seq<bytes>)
    ensures Flatten(chunks) == data
    ensures forall c :: c in chunks ==> 0 < |c| <= WRITE_CHUNK_SIZE
    ensures forall i :: 0 <= i < |chunks| - 1 ==> |chunks[i]| == 15000
    decreases |data|
  {
    if data == [] then []
    else if |data| <= WRITE_CHUNK_SIZE then [data]
    else [data[..WRITE_CHUNK_SIZE]] + Cut(data[WRITE_CHUNK_SIZE..])
  }

  lemma {:induction false} CutFits(stack: Stack, k: Keys, pos: nat, chunks: seq<bytes>)
    requires forall c :: c in chunks ==> 0 < |c| <= WRITE_CHUNK_SIZE
    ensures FitAll(stack, k, pos, chunks)
    decreases |chunks|
  {
    if chunks != [] {
      CutFits(stack, k, Drawn(stack, k.shake, pos).pos, chunks[1..]);
    }
  }

  /** Which layers a security type and an option byte choose. */
  lemma StackSays(security: byte, option: byte)
    ensures var c, bit := WriterStack(security, option), (n: nat) requires n > 0 => option as nat / n % 2 == 1;
            && (c.Panic? <==> security !in {1, 3, 4, 5}) && (c.Unchunked? <==> security in {1, 5} && !bit(1))
            && (c.Chunked? ==>
                  && c.stack.body == (if security == 5 then Bare else if security == 1 then Checksummed
                                      else if security == 3 then Sealed(AesGcm) else Sealed(ChachaPoly))
                  && c.stack.length == (if security == 1 || !bit(16) then Open else if security == 4 then Auth(ChachaPoly) else Auth(AesGcm))
                  && (c.stack.masking <==> bit(4) && c.stack.length.Open?) && (c.stack.padding <==> bit(8)) && (c.stack.stream <==> security == 1))
    ensures Cuts(security) <==> security != 5
  {
  }

  lemma SameStacks(security: byte, option: byte)
    ensures ReaderStack(security, option) == WriterStack(security, option)
  {
    hide Has;
  }

  /** Whatever the security type and the option byte, as soon as there are chunks: reader and writer
      stacks are the same layers; and where the writer cuts, any data comes back as it was, read in
      16384-byte buffers. */
  lemma AnyOptions(security: byte, option: byte, k: Keys, st: State, data: bytes, random: seq<bytes>)
    requires Ready(st) && Sound(k) && |random| == |Cut(data)| && forall r :: r in random ==> |r| >= MAX_PADDING
    ensures ReaderStack(security, option) == WriterStack(security, option)
    ensures WriterStack(security, option).Chunked? && Cuts(security) ==>
              var stack := WriterStack(security, option).stack;
              var r := DecodedAll(stack, k, st, EncodedAll(stack, k, st, Cut(data), random), READ_CHUNK_SIZE);
              r.Some? && Flatten(r.value.chunks) == data && r.value.st == AfterAll(stack, k, st, Cut(data), random)
  {
    SameStacks(security, option);
    hide ReaderStack, WriterStack, Has, Encoded, Sound;
    if WriterStack(security, option).Chunked? && Cuts(security) {
      var stack := WriterStack(security, option).stack;
      CutFits(stack, k, st.pos, Cut(data));
      ReadBackAll(stack, k, st, Cut(data), random, READ_CHUNK_SIZE);
    }
  }

  // ----- the writer and the reader that the program updates

  class Writer {
    const stack: Stack
    const keys: Keys
    var pos: nat
    var lengthNonce: bytes
    var lengthCount: nat
    var nonce: bytes
    var count: nat
    var history: bytes
    var conn: bytes      // everything written to the connection

    ghost predicate Valid()
      reads this
    {
      |lengthNonce| >= 2 && |nonce| >= 2 && Ready(Now()) && Sound(keys)
    }

    ghost function Now(): (st: State)
      reads this
      requires |lengthNonce| >= 2 && |nonce| >= 2
    {
      State(pos, lengthNonce[2..], lengthCount, nonce[2..], count, history)
    }

    constructor (stack: Stack, keys: Keys, lengthNonce: bytes, nonce: bytes, history: bytes)
      requires |lengthNonce| >= 2 && |nonce| >= 2 && Sound(keys)
      ensures Valid() && Now() == State(0, lengthNonce[2..], 0, nonce[2..], 0, history)
      ensures this.stack == stack && this.keys == keys && conn == []
    {
      this.stack, this.keys := stack, keys;
      pos, this.lengthNonce, lengthCount, this.nonce, count, this.history := 0, lengthNonce, 0, nonce, 0, history;
      conn := [];
    }

    /** A sixteen-bit number off the shared key stream. */
    method Hash() returns (a: byte, b: byte)
      modifies this`pos
      ensures a == keys.shake(old(pos)) && b == keys.shake(old(pos) + 1) && pos == old(pos) + 2
    {
      a, b := keys.shake(pos), keys.shake(pos + 1);
      pos := pos + 2;
    }

    /** `AEADWriter.WriteBuffer` and `StreamChecksumWriter.Write` */
    method Frame(data: bytes) returns (p: bytes)
      requires Valid()
      modifies this`nonce, this`count
      ensures Valid() && p == Framed(stack.body, keys, old(Now()), data)
      ensures Now() == old(Now()).(count := if stack.body.Sealed? then (old(count) + 1) % 0x10000 else old(count))
    {
      match stack.body {
        case Bare =>
          p := data;
        case Checksummed =>
          p := keys.sum(data) + data;
        case Sealed(a) =>
          nonce := Be(count, 2) + nonce[2..];
          p := keys.seal(a, nonce, data);
          count := (count + 1) % 0x10000;
      }
    }

    /** The length layers, `StreamChunkWriter.Write` and `AEADChunkWriter.Write`, up to the padding. */
    method Length(p: bytes) returns (field: bytes, paddingLen: nat)
      requires Valid()
      modifies this`pos, this`lengthNonce, this`lengthCount
      ensures Valid() && field == LengthField(stack, keys, old(Now()), Drawn(stack, keys.shake, old(pos)), |p|)
      ensures paddingLen == Drawn(stack, keys.shake, old(pos)).padding
      ensures Now() == old(Now()).(pos := Drawn(stack, keys.shake, old(pos)).pos,
                                   lengthCount := if stack.length.Auth? then (old(lengthCount) + 1) % 0x10000 else old(lengthCount))
    {
      hide Be, Xor, Sound;
      var dataLen := |p| % 0x10000;
      paddingLen := 0;
      if stack.padding {
        var a, b := Hash();
        paddingLen := (a as int * 256 + b) % MAX_PADDING;
        AddWrapped(|p|, paddingLen);
        dataLen := (dataLen + paddingLen) % 0x10000;
      }
      if stack.length.Auth? {
        WrapTwice(|p| + paddingLen);
        dataLen := (dataLen + 0x10000 - OVERHEAD) % 0x10000;
        lengthNonce := Be(lengthCount, 2) + lengthNonce[2..];
        field := keys.lengthSeal(stack.length.aead, lengthNonce, Be(dataLen, 2));
        lengthCount := (lengthCount + 1) % 0x10000;
      } else {
        field := Be(dataLen, 2);
        if stack.masking {
          var a, b := Hash();
          field := Xor2(field, [a, b]);
        }
      }
    }

    /** What goes to the connection passes the stream cipher first, if there is one. */
    method Put(p: bytes)
      modifies this`conn, this`history
      ensures var c := Passed(stack.stream, keys.mask, old(history), p);
              conn == old(conn) + c && history == (if stack.stream then old(history) + c else old(history))
    {
      var c := p;
      if stack.stream {
        c := Cfb(keys.mask, history, p);
        history := history + c;
      }
      conn := conn + c;
    }

    /** One write through the whole stack. An empty write to a bare length layer is dropped. */
    method Write(data: bytes, random: bytes)
      requires Valid() && |random| >= MAX_PADDING
      modifies this
      ensures Valid()
      ensures stack.body.Bare? && data == [] ==> conn == old(conn) && Now() == old(Now())
      ensures !(stack.body.Bare? && data == []) ==>
                var wire := Encoded(stack, keys, old(Now()), data, random);
                conn == old(conn) + wire && Now() == After(stack, keys, old(Now()), wire)
    {
      if stack.body.Bare? && |data| == 0 {
        return;
      }
      WriteChunk(data, random);
    }

    /** The same, for a chunk that is not dropped. */
    method WriteChunk(data: bytes, random: bytes)
      requires Valid() && |random| >= MAX_PADDING
      modifies this
      ensures Valid()
      ensures var wire := Encoded(stack, keys, old(Now()), data, random);
              conn == old(conn) + wire && Now() == After(stack, keys, old(Now()), wire)
    {
      hide LengthField, Framed, Drawn, Cfb, Sound, Counted, Encoded, Passed;
      ghost var st := Now();
      var p := Frame(data);
      LengthFieldSame(stack, keys, st, Now(), Drawn(stack, keys.shake, st.pos), |p|);
      var field, paddingLen := Length(p);
      PutChunk(field, p, random[..paddingLen]);
      EncodedIs(stack, keys, st, data, random, p, field);
    }

    /** The three writes of a length layer. */
    method PutChunk(field: bytes, p: bytes, padding: bytes)
      modifies this`conn, this`history
      ensures var c := Passed(stack.stream, keys.mask, old(history), field + p + padding);
              conn == old(conn) + c && history == (if stack.stream then old(history) + c else old(history))
    {
      hide Passed;
      ghost var c := PutTogether(stack.stream, keys.mask, history, field, p, padding);
      Put(field);
      Put(p);
      if |padding| > 0 {
        Put(padding);
      } else {
        PutNothing(stack.stream, keys.mask, history, padding);
      }
      assert conn == old(conn) + c;
    }
  }

  lemma EncodedIs(stack: Stack, k: Keys, st: State, data: bytes, random: bytes, p: bytes, field: bytes)
    requires Ready(st) && |random| >= MAX_PADDING && p == Framed(stack.body, k, st, data)
    requires field == LengthField(stack, k, st, Drawn(stack, k.shake, st.pos), |p|)
    ensures Encoded(stack, k, st, data, random)
         == Passed(stack.stream, k.mask, st.history, field + p + random[..Drawn(stack, k.shake, st.pos).padding])
  {
  }

  /** The length field does not depend on the sealing layer. */
  lemma LengthFieldSame(stack: Stack, k: Keys, st: State, st': State, d: Draw, n: nat)
    requires Ready(st) && Ready(st') && |d.mask| == 2 && st' == st.(count := st'.count)
    ensures LengthField(stack, k, st, d, n) == LengthField(stack, k, st', d, n)
  {
  }

  function Passed(stream: bool, mask: bytes -> byte, history: bytes, p: bytes): (c: bytes) {
    if stream then Cfb(mask, history, p) else p
  }

  /** Three writes in a row are one. */
  lemma PutTogether(stream: bool, mask: bytes -> byte, history: bytes, a: bytes, b: bytes, c: bytes) returns (all: bytes)
    ensures all == Passed(stream, mask, history, a + b + c)
    ensures var a' := Passed(stream, mask, history, a);
            var h1 := if stream then history + a' else history;
            var b' := Passed(stream, mask, h1, b);
            var h2 := if stream then h1 + b' else h1;
            var c' := Passed(stream, mask, h2, c);
            && all == a' + b' + c' && (stream ==> h2 + c' == history + all)
  {
    hide Cfb;
    all := Passed(stream, mask, history, a + b + c);
    if stream {
      CfbSplit(mask, history, a, b);
      CfbSplit(mask, history, a + b, c);
      var a' := Cfb(mask, history, a);
      var b' := Cfb(mask, history + a', b);
      assert history + (a' + b') == history + a' + b';
    }
  }

  lemma PutNothing(stream: bool, mask: bytes -> byte, history: bytes, p: bytes)
    requires p == []
    ensures Passed(stream, mask, history, p) == [] && history + [] == history
  {
  }

  lemma AddWrapped(n: nat, m: nat)
    ensures (n % 0x10000 + m) % 0x10000 == (n + m) % 0x10000
  {
  }

  lemma WrapTwice(n: nat)
    ensures (n % 0x10000 + 0x10000 - OVERHEAD) % 0x10000 == (n + 0x10000 - OVERHEAD) % 0x10000
  {
  }

  lemma {:induction false} CfbSplit(mask: bytes -> byte, history: bytes, a: bytes, b: bytes)
    ensures var c := Cfb(mask, history, a); Cfb(mask, history, a + b) == c + Cfb(mask, history + c, b)
    decreases |a|
  {
    hide Xor;
    if a == [] {
      assert a + b == b && history + [] == history;
    } else {
      var first := Xor(a[0], mask(history));
      CfbSplit(mask, history + [first], a[1..], b);
      assert (a + b)[1..] == a[1..] + b;
      var c := Cfb(mask, history + [first], a[1..]);
      assert history + ([first] + c) == history + [first] + c;
    }
  }

  datatype Outcome = Got(data: bytes) | Eof | Failed(error: Error) | Panicked

  /** A read has come out as the chunk on the wire says. */
  ghost predicate Agrees(c: Chunk, r: Outcome, wire: bytes, st: State) {
    match c
    case Data(data, rest, st') => r == Got(data) && wire == rest && st == st'
    case End => r == Eof
    case Bad(e) => r == Failed(e)
    case Crash => r == Panicked
  }

  class Reader {
    const stack: Stack
    const keys: Keys
    var pos: nat
    var lengthNonce: bytes
    var lengthCount: nat
    var nonce: bytes
    var count: nat
    var history: bytes
    var wire: bytes      // what the connection has still to give

    ghost predicate Valid()
      reads this
    {
      |lengthNonce| >= 2 && |nonce| >= 2 && Ready(Now()) && Sound(keys)
    }

    ghost function Now(): (st: State)
      reads this
      requires |lengthNonce| >= 2 && |nonce| >= 2
    {
      State(pos, lengthNonce[2..], lengthCount, nonce[2..], count, history)
    }

    constructor (stack: Stack, keys: Keys, lengthNonce: bytes, nonce: bytes, history: bytes, wire: bytes)
      requires |lengthNonce| >= 2 && |nonce| >= 2 && Sound(keys)
      ensures Valid() && Now() == State(0, lengthNonce[2..], 0, nonce[2..], 0, history)
      ensures this.stack == stack && this.keys == keys && this.wire == wire
    {
      this.stack, this.keys := stack, keys;
      pos, this.lengthNonce, lengthCount, this.nonce, count, this.history := 0, lengthNonce, 0, nonce, 0, history;
      this.wire := wire;
    }

    method Hash() returns (a: byte, b: byte)
      modifies this`pos
      ensures a == keys.shake(old(pos)) && b == keys.shake(old(pos) + 1) && pos == old(pos) + 2
    {
      a, b := keys.shake(pos), keys.shake(pos + 1);
      pos := pos + 2;
    }

    /** `io.ReadFull` on what lies below the length layer. */
    method ReadFull(n: nat) returns (ok: bool, p: bytes)
      modifies this`wire, this`history
      ensures ok <==> n <= |old(wire)|
      ensures ok ==>
                && p == (if stack.stream then Uncfb(keys.mask, old(history), old(wire)[..n]) else old(wire)[..n])
                && wire == old(wire)[n..]
                && history == if stack.stream then old(history) + old(wire)[..n] else old(history)
    {
      ok, p := n <= |wire|, [];
      if ok {
        p := wire[..n];
        if stack.stream {
          p := Uncfb(keys.mask, history, p);
          history := history + wire[..n];
        }
        wire := wire[n..];
      }
    }

    /** The padding length, if padding is on. */
    method Padding() returns (paddingLen: nat)
      modifies this`pos
      ensures paddingLen == Drawn(stack, keys.shake, old(pos)).padding
      ensures pos == if stack.padding then old(pos) + 2 else old(pos)
    {
      paddingLen := 0;
      if stack.padding {
        var a, b := Hash();
        paddingLen := (a as int * 256 + b) % MAX_PADDING;
      }
    }

    /** The length field, undone by `AEADChunkReader.Read` or `StreamChunkReader.Read`; the padding is
        drawn before the mask here, too. */
    method Length(field: bytes) returns (r: Option<nat>, paddingLen: nat)
      requires Valid() && |field| == FieldLen(stack)
      modifies this`pos, this`lengthNonce, this`lengthCount
      ensures Valid() && r == LengthOf(stack, keys, old(Now()), Drawn(stack, keys.shake, old(pos)), field)
      ensures r.Some? ==>
                && paddingLen == Drawn(stack, keys.shake, old(pos)).padding
                && Now() == old(Now()).(pos := Drawn(stack, keys.shake, old(pos)).pos,
                                        lengthCount := if stack.length.Auth? then (old(lengthCount) + 1) % 0x10000 else old(lengthCount))
    {
      LengthOpenLength(keys);
      hide Sound, Be, Xor;
      if stack.length.Auth? {
        lengthNonce := Be(lengthCount, 2) + lengthNonce[2..];
        lengthCount := (lengthCount + 1) % 0x10000;
        var unsealed := keys.lengthOpen(stack.length.aead, lengthNonce, field);
        if unsealed.None? {
          return None, 0;
        }
        var p := unsealed.value;
        paddingLen := Padding();
        r := Some((p[0] as int * 256 + p[1] + OVERHEAD) % 0x10000);
      } else {
        r, paddingLen := PlainLength(field);
      }
    }

    method PlainLength(field: bytes) returns (r: Option<nat>, paddingLen: nat)
      requires Valid() && !stack.length.Auth? && |field| == 2
      modifies this`pos
      ensures Valid() && r == LengthOf(stack, keys, old(Now()), Drawn(stack, keys.shake, old(pos)), field) && r.Some?
      ensures paddingLen == Drawn(stack, keys.shake, old(pos)).padding && pos == Drawn(stack, keys.shake, old(pos)).pos
    {
      hide Sound, Be, Xor;
      paddingLen := Padding();
      var p := field;
      if stack.masking {
        var a, b := Hash();
        p := Xor2(field, [a, b]);
      }
      r := Some(p[0] as int * 256 + p[1]);
    }

    /** The body is read, then the padding is read and dropped. */
    method ReadBody(dataLen: nat, paddingLen: nat) returns (ok: bool, p: bytes)
      modifies this`wire, this`history
      ensures ok <==> dataLen + paddingLen <= |old(wire)|
      ensures ok ==>
                && p == (if stack.stream then Uncfb(keys.mask, old(history), old(wire)[..dataLen]) else old(wire)[..dataLen])
                && wire == old(wire)[dataLen + paddingLen..]
                && history == if stack.stream then old(history) + old(wire)[..dataLen + paddingLen] else old(history)
    {
      hide Uncfb;
      ok, p := ReadFull(dataLen);
      if ok {
        var dropped;
        ok, dropped := ReadFull(paddingLen);
        if ok {
          ghost var w := old(wire);
          assert w[..dataLen] + w[dataLen..][..paddingLen] == w[..dataLen + paddingLen];
          assert old(history) + w[..dataLen] + w[dataLen..][..paddingLen] == old(history) + w[..dataLen + paddingLen];
        }
      }
    }

    /** `AEADReader.Read` and `StreamChecksumReader.Read`, on what the length layer has read. */
    method Unframe(framed: bytes) returns (r: Unframing)
      requires Valid()
      modifies this`nonce, this`count
      ensures Valid() && r == Unframed(stack.body, keys, old(Now()), framed)
      ensures r.Clear? ==>
                Now() == old(Now()).(count := if stack.body.Sealed? then (old(count) + 1) % 0x10000 else old(count))
    {
      match stack.body {
        case Bare =>
          r := Clear(framed);
        case Checksummed =>
          if |framed| < 4 {
            return OutOfBounds;
          }
          if keys.sum(framed[4..]) != framed[..4] {
            return Rejected(BadChecksum);
          }
          r := Clear(framed[4..]);
        case Sealed(a) =>
          nonce := Be(count, 2) + nonce[2..];
          count := (count + 1) % 0x10000;
          var data := keys.open(a, nonce, framed);
          r := if data.Some? then Clear(data.value) else Rejected(BadSeal);
      }
    }

    /** One read through the whole stack, into a buffer of `room` bytes. */
    method Read(room: nat) returns (r: Outcome)
      requires Valid()
      modifies this
      ensures Valid() && Agrees(Decoded(stack, keys, old(Now()), old(wire), room), r, wire, Now())
    {
      hide Sound, LengthOf, Unframed, Drawn, Uncfb, Be, Counted, Decoded, DecodedBody;
      ghost var st, w := Now(), wire;
      var m := if stack.length.Auth? then 2 + OVERHEAD else 2;
      if stack.length.Auth? && room < m {
        BadNow(stack, keys, st, w, room, ShortBuffer);
        return Failed(ShortBuffer);
      }
      UncfbHead(keys.mask, history, wire, m);
      var ok, field := ReadFull(m);
      if !ok {
        BadNow(stack, keys, st, w, room, Truncated);
        return Failed(Truncated);
      }
      LengthOfSame(stack, keys, st, Now(), Drawn(stack, keys.shake, st.pos), field);
      var n, paddingLen := Length(field);
      DecodedLength(stack, keys, st, w, room, n);
      if n.None? {
        return Failed(BadSeal);
      }
      r := ReadRest(n.value, paddingLen, room, st, w);
    }

    /** The upper layer, on a chunk that has been taken off the wire. */
    method Deliver(framed: bytes, ghost st: State, ghost w: bytes, ghost n: nat) returns (r: Outcome)
      requires Valid() && Ready(st) && n <= |w| && wire == w[n..]
      requires Now() == After(stack, keys, st, w[..n]).(count := st.count)
      modifies this`nonce, this`count
      ensures Valid() && Agrees(Delivered(stack, keys, st, w, n, Unframed(stack.body, keys, st, framed)), r, wire, Now())
    {
      hide Sound, Unframed, Drawn, Be, Counted;
      UnframedSame(stack.body, keys, st, Now(), framed);
      var data := Unframe(framed);
      match data {
        case Clear(d) => r := Got(d);
        case Rejected(e) => r := Failed(e);
        case OutOfBounds => r := Panicked;
      }
    }

    /** The rest of a chunk, once its length is known; `st` and `w` are state and wire before it. */
    method ReadRest(n: nat, paddingLen: nat, room: nat, ghost st: State, ghost w: bytes) returns (r: Outcome)
      requires Valid() && Ready(st) && FieldLen(stack) <= |w|
      requires wire == w[FieldLen(stack)..] && paddingLen == Drawn(stack, keys.shake, st.pos).padding
      requires Now() == Next(stack, st, Drawn(stack, keys.shake, st.pos).pos, w[..FieldLen(stack)]).(count := st.count)
      modifies this
      ensures Valid()
      ensures var plain := if stack.stream then Uncfb(keys.mask, st.history, w) else w;
              Agrees(DecodedBody(stack, keys, st, w, room, plain, Drawn(stack, keys.shake, st.pos), Some(n)), r, wire, Now())
    {
      hide Sound, LengthOf, Unframed, Drawn, Uncfb, Be, Counted, Decoded, Delivered;
      var m := FieldLen(stack);
      var dataLen: int := n as int - paddingLen;
      if dataLen < 0 {
        return Failed(BadLength);
      }
      if dataLen == 0 {
        return Eof;
      }
      if room < dataLen {
        return Failed(ShortBuffer);
      }
      UncfbPiece(keys.mask, st.history, w, m, dataLen);
      var ok, framed := ReadBody(dataLen, paddingLen);
      if !ok {
        return Failed(Truncated);
      }
      Rejoined(st.history, w, m, dataLen, paddingLen);
      r := Deliver(framed, st, w, m + n);
    }
  }

  /** A piece of the wire, deciphered where it stands. */
  lemma UncfbPiece(mask: bytes -> byte, history: bytes, c: bytes, i: nat, n: nat)
    ensures i + n <= |c| ==> Uncfb(mask, history + c[..i], c[i..i + n]) == Uncfb(mask, history, c)[i..i + n]
  {
    hide Xor;
    if i + n <= |c| {
      var piece := c[i..i + n];
      var there, here := Uncfb(mask, history, c)[i..i + n], Uncfb(mask, history + c[..i], piece);
      forall j | 0 <= j < n ensures here[j] == there[j] {
        assert history + c[..i] + piece[..j] == history + c[..i + j];
        assert there[j] == Uncfb(mask, history, c)[i + j];
      }
    }
  }

  lemma UncfbHead(mask: bytes -> byte, history: bytes, c: bytes, n: nat)
    ensures n <= |c| ==> Uncfb(mask, history, c[..n]) == Uncfb(mask, history, c)[..n]
  {
    if n <= |c| {
      UncfbPrefix(mask, history, c[..n], c[n..]);
      assert c[..n] + c[n..] == c;
    }
  }

  lemma BadNow(stack: Stack, k: Keys, st: State, w: bytes, room: nat, e: Error)
    requires Ready(st) && Sound(k)
    requires if stack.length.Auth? && room < FieldLen(stack) then e == ShortBuffer else |w| < FieldLen(stack) && e == Truncated
    ensures Decoded(stack, k, st, w, room) == Bad(e)
  {
    hide Uncfb, LengthOf;
  }

  lemma DecodedLength(stack: Stack, k: Keys, st: State, w: bytes, room: nat, n: Option<nat>)
    requires Ready(st) && Sound(k) && |w| >= FieldLen(stack) && !(stack.length.Auth? && room < FieldLen(stack))
    requires var plain := if stack.stream then Uncfb(k.mask, st.history, w) else w;
             LengthOf(stack, k, st, Drawn(stack, k.shake, st.pos), plain[..FieldLen(stack)]) == n
    ensures var plain := if stack.stream then Uncfb(k.mask, st.history, w) else w;
            Decoded(stack, k, st, w, room) == DecodedBody(stack, k, st, w, room, plain, Drawn(stack, k.shake, st.pos), n)
    ensures n.None? ==> Decoded(stack, k, st, w, room) == Bad(BadSeal)
  {
    hide Uncfb, LengthOf;
  }

  lemma Rejoined(history: bytes, w: bytes, m: nat, a: nat, b: nat)
    requires m + a + b <= |w|
    ensures w[m..][..a] == w[m..m + a] && w[m..][a + b..] == w[m + a + b..]
    ensures history + w[..m] + w[m..][..a + b] == history + w[..m + a + b]
  {
    assert w[..m] + w[m..][..a + b] == w[..m + a + b];
  }

  lemma UnframedSame(body: Body, k: Keys, st: State, st': State, framed: bytes)
    requires Ready(st) && Ready(st') && st'.nonce == st.nonce && st'.count == st.count
    ensures Unframed(body, k, st, framed) == Unframed(body, k, st', framed)
  {
  }

  lemma LengthOfSame(stack: Stack, k: Keys, st: State, st': State, d: Draw, field: bytes)
    requires Ready(st) && Ready(st') && Sound(k) && |d.mask| == 2 && |field| == FieldLen(stack) && st' == st.(history := st'.history)
    ensures LengthOf(stack, k, st, d, field) == LengthOf(stack, k, st', d, field)
  {
  }

  lemma LengthOpenLength(k: Keys)
    requires Sound(k)
    ensures forall a, n, c :: k.lengthOpen(a, n, c).Some? ==> |k.lengthOpen(a, n, c).value| == |c| - OVERHEAD
  {
  }
}
