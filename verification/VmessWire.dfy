/**
  The VMess chunk format, spelled out: what each chunk on the wire is in terms of the ciphers, the
  checksum and the key stream, and what a reader accepts. `Vmess` has both as computations that undo
  each other; here is which bytes the ciphers are given, so that two peers agree on more than that.
*/
module VmessWire {
  import opened Wire
  import opened Vmess

  /** The nonce of a chunk: two bytes that count, and the rest of the nonce the keys came with. */
  ghost function Nonce(count: nat, rest: bytes): (n: bytes)
    requires count < 0x10000
    ensures |n| == 2 + |rest| && Value(n[..2]) == count && n[2..] == rest
  {
    ValueBe(count, 2);
    assert Power(0) == 1 && Power(1) == 256 * Power(0) && Power(2) == 256 * Power(1);
    Be(count, 2) + rest
  }

  /** Two nonces that count differently differ. */
  lemma NonceDiffers(a: nat, b: nat, rest: bytes)
    requires a < 0x10000 && b < 0x10000 && a != b
    ensures Nonce(a, rest) != Nonce(b, rest)
  {
  }

  /** The length of the padding: six bits off the key stream, if there is padding. */
  ghost function PaddingLength(stack: Stack, k: Keys, st: State): (n: nat)
    ensures n < 64 && (stack.padding ==> n == (k.shake(st.pos) as int * 256 + k.shake(st.pos + 1)) % 64) && (!stack.padding ==> n == 0)
  {
    if stack.padding then (k.shake(st.pos) as int * 256 + k.shake(st.pos + 1)) % 64 else 0
  }

  /** Where the mask is taken from the key stream: behind the padding length. */
  ghost function MaskAt(stack: Stack, st: State): (at: nat)
    ensures at == if stack.padding then st.pos + 2 else st.pos
  {
    if stack.padding then st.pos + 2 else st.pos
  }

  /** The wire as the length layer sees it: through the stream cipher, if there is one, byte by byte. */
  ghost function Clear(stack: Stack, k: Keys, st: State, wire: bytes): (plain: bytes)
    ensures |plain| == |wire|
    ensures forall i :: 0 <= i < |wire| ==> plain[i] == if stack.stream then Xor(wire[i], k.mask(st.history + wire[..i])) else wire[i]
  {
    if stack.stream then Uncfb(k.mask, st.history, wire) else wire
  }

  /** The length field says that body and padding together have `n` bytes, in sixteen bits. */
  ghost predicate FieldSays(stack: Stack, k: Keys, st: State, field: bytes, n: nat)
    requires Ready(st)
  {
    match stack.length
    case Auth(a) =>
      && |field| == 18
      && exists p :: |p| == 2 && k.lengthOpen(a, Nonce(st.lengthCount, st.lengthNonce), field) == Some(p) && n == (Value(p) + 16) % 0x10000
    case Open =>
      && |field| == 2
      && var at := MaskAt(stack, st);
      && n == if stack.masking then Value([Xor(field[0], k.shake(at)), Xor(field[1], k.shake(at + 1))]) else Value(field)
  }

  /** The body carries these data. */
  ghost predicate BodySays(stack: Stack, k: Keys, st: State, body: bytes, data: bytes)
    requires Ready(st)
  {
    match stack.body
    case Bare => body == data
    case Checksummed => body == k.sum(data) + data
    case Sealed(a) => k.open(a, Nonce(st.count, st.nonce), body) == Some(data)
  }

  /** The state behind a chunk: each layer has counted once and drawn what it draws, and the stream cipher has
      seen the bytes. */
  ghost predicate Moved(stack: Stack, st: State, wire: bytes, st': State) {
    && st'.nonce == st.nonce && st'.lengthNonce == st.lengthNonce
    && st'.count == (if stack.body.Sealed? then (st.count + 1) % 0x10000 else st.count)
    && st'.lengthCount == (if stack.length.Auth? then (st.lengthCount + 1) % 0x10000 else st.lengthCount)
    && st'.pos == st.pos + (if stack.padding then 2 else 0) + (if stack.masking && stack.length.Open? then 2 else 0)
    && st'.history == if stack.stream then st.history + wire else st.history
  }

  lemma NonceIs(st: State)
    requires Ready(st)
    ensures Counted(st.nonce, st.count) == Nonce(st.count, st.nonce)
    ensures Counted(st.lengthNonce, st.lengthCount) == Nonce(st.lengthCount, st.lengthNonce)
  {
    TwoBytes(st.count);
  }

  lemma DrawnIs(stack: Stack, k: Keys, st: State)
    ensures var d := Drawn(stack, k.shake, st.pos);
            && d.padding == PaddingLength(stack, k, st)
            && (stack.masking && stack.length.Open? ==> d.mask == [k.shake(MaskAt(stack, st)), k.shake(MaskAt(stack, st) + 1)])
            && d.pos == st.pos + (if stack.padding then 2 else 0) + (if stack.masking && stack.length.Open? then 2 else 0)
  {
  }

  lemma MovedAfter(stack: Stack, k: Keys, st: State, wire: bytes)
    ensures Moved(stack, st, wire, After(stack, k, st, wire))
    ensures forall st' :: Moved(stack, st, wire, st') <==> st' == After(stack, k, st, wire)
  {
    DrawnIs(stack, k, st);
  }

  // ----- what is written

  /** A chunk on the wire: its length field, its body, and padding from the random bytes. */
  lemma WrittenSays(stack: Stack, k: Keys, st: State, data: bytes, random: bytes)
    requires Ready(st) && Sound(k) && |random| >= 64
    ensures var wire := Encoded(stack, k, st, data, random);
            var plain, m, pad := Clear(stack, k, st, wire), if stack.length.Auth? then 18 else 2, PaddingLength(stack, k, st);
            && |plain| >= m + pad
            && var body := plain[m..|plain| - pad];
            && FieldSays(stack, k, st, plain[..m], (|body| + pad) % 0x10000)
            && BodySays(stack, k, st, body, data)
            && (stack.body.Sealed? ==> body == k.seal(stack.body.aead, Nonce(st.count, st.nonce), data))
            && plain[|plain| - pad..] == random[..pad]
            && Moved(stack, st, wire, After(stack, k, st, wire))
  {
    var wire := Encoded(stack, k, st, data, random);
    var d, framed := Drawn(stack, k.shake, st.pos), Framed(stack.body, k, st, data);
    DrawnIs(stack, k, st);
    NonceIs(st);
    MovedAfter(stack, k, st, wire);
    PlainIs(stack, k, st, data, random);
    FieldWritten(stack, k, st, |framed|);
    BodyWritten(stack, k, st, data);
    hide Encoded, Drawn, Framed, LengthField, After, Uncfb, Moved, BodySays, FieldSays, Sound, PaddingLength;
    var plain, field, tail := Clear(stack, k, st, wire), LengthField(stack, k, st, d, |framed|), random[..d.padding];
    LengthBack(stack, k, st, d, |framed|);
    assert plain == field + framed + tail;
    assert plain[..|field|] == field && plain[|field|..|plain| - |tail|] == framed && plain[|plain| - |tail|..] == tail;
  }

  lemma PlainIs(stack: Stack, k: Keys, st: State, data: bytes, random: bytes)
    requires Ready(st) && |random| >= 64
    ensures var d, framed := Drawn(stack, k.shake, st.pos), Framed(stack.body, k, st, data);
            Clear(stack, k, st, Encoded(stack, k, st, data, random)) == LengthField(stack, k, st, d, |framed|) + framed + random[..d.padding]
  {
    var d, framed := Drawn(stack, k.shake, st.pos), Framed(stack.body, k, st, data);
    hide LengthField, Drawn, Framed, Uncfb, Cfb;
    UncfbCfb(k.mask, st.history, LengthField(stack, k, st, d, |framed|) + framed + random[..d.padding]);
  }

  lemma FieldWritten(stack: Stack, k: Keys, st: State, n: nat)
    requires Ready(st) && Sound(k)
    ensures var d := Drawn(stack, k.shake, st.pos);
            FieldSays(stack, k, st, LengthField(stack, k, st, d, n), (n + PaddingLength(stack, k, st)) % 0x10000)
  {
    var d := Drawn(stack, k.shake, st.pos);
    DrawnIs(stack, k, st);
    NonceIs(st);
    var m := (n + d.padding) % 0x10000;
    LengthBack(stack, k, st, d, n);
    FieldIff(stack, k, st, LengthField(stack, k, st, d, n), m);
  }

  /** What a reader makes of a length field is what the field says. */
  lemma FieldIff(stack: Stack, k: Keys, st: State, field: bytes, n: nat)
    requires Ready(st) && Sound(k) && |field| == if stack.length.Auth? then 18 else 2
    ensures LengthOf(stack, k, st, Drawn(stack, k.shake, st.pos), field) == Some(n) <==> FieldSays(stack, k, st, field, n)
  {
    DrawnIs(stack, k, st);
    NonceIs(st);
    hide Drawn, Xor, Counted, Nonce, MaskAt, Be, Power;
    match stack.length
    case Auth(a) =>
      var o := k.lengthOpen(a, Nonce(st.lengthCount, st.lengthNonce), field);
      if o.Some? {
        ValueTwo(o.value[0], o.value[1]);
        assert o.value == [o.value[0], o.value[1]];
      }
    case Open =>
      ValueTwo(field[0], field[1]);
      assert field == [field[0], field[1]];
      if stack.masking {
        var at := MaskAt(stack, st);
        ValueTwo(Xor(field[0], k.shake(at)), Xor(field[1], k.shake(at + 1)));
      }
  }

  lemma BodyWritten(stack: Stack, k: Keys, st: State, data: bytes)
    requires Ready(st) && Sound(k)
    ensures var body := Framed(stack.body, k, st, data);
            && BodySays(stack, k, st, body, data)
            && (stack.body.Sealed? ==> body == k.seal(stack.body.aead, Nonce(st.count, st.nonce), data))
  {
    NonceIs(st);
    hide Counted, Nonce;
  }

  // ----- what is accepted

  /** A reader accepts a chunk if and only if its buffer has room for field and body, the wire holds what the
      field announces, and the body says these data; it takes exactly that off the wire. */
  lemma AcceptedIff(stack: Stack, k: Keys, st: State, wire: bytes, room: nat, data: bytes, rest: bytes, st': State)
    requires Ready(st) && Sound(k)
    ensures Decoded(stack, k, st, wire, room) == Data(data, rest, st') <==>
              var m, pad := if stack.length.Auth? then 18 else 2, PaddingLength(stack, k, st);
              var plain := Clear(stack, k, st, wire);
              && (stack.length.Auth? ==> room >= 18) && m <= |plain|
              && exists n :: Takes(stack, k, st, wire, plain, m, pad, room, n, data, rest, st')
  {
    var m, pad, plain := FieldLen(stack), PaddingLength(stack, k, st), Clear(stack, k, st, wire);
    DrawnIs(stack, k, st);
    if !(stack.length.Auth? && room < m) && m <= |plain| {
      AcceptedFrom(stack, k, st, wire, plain, room, data, rest, st');
    }
    hide LengthOf, Drawn, After, Uncfb, Unframed;
  }

  ghost predicate Takes(stack: Stack, k: Keys, st: State, wire: bytes, plain: bytes, m: nat, pad: nat, room: nat, n: nat, data: bytes, rest: bytes, st': State)
    requires Ready(st)
  {
    && m <= |plain| == |wire| && FieldSays(stack, k, st, plain[..m], n)
    && pad < n <= pad + room && m + n <= |wire|
    && BodySays(stack, k, st, plain[m..m + n - pad], data)
    && rest == wire[m + n..] && Moved(stack, st, wire[..m + n], st')
  }

  lemma AcceptedFrom(stack: Stack, k: Keys, st: State, wire: bytes, plain: bytes, room: nat, data: bytes, rest: bytes, st': State)
    requires Ready(st) && Sound(k) && plain == Clear(stack, k, st, wire) && FieldLen(stack) <= |plain|
    requires stack.length.Auth? ==> room >= FieldLen(stack)
    ensures Decoded(stack, k, st, wire, room) == Data(data, rest, st') <==>
              exists n :: Takes(stack, k, st, wire, plain, FieldLen(stack), PaddingLength(stack, k, st), room, n, data, rest, st')
  {
    var m, pad := FieldLen(stack), PaddingLength(stack, k, st);
    var length := LengthOf(stack, k, st, Drawn(stack, k.shake, st.pos), plain[..m]);
    hide LengthOf, Drawn, After, Uncfb, Unframed, FieldSays, BodySays, Moved, Clear, FieldLen, PaddingLength, Sound, Decoded;
    if length.Some? { AcceptedAt(stack, k, st, wire, plain, room, length.value, data, rest, st'); }
    if length.None? { NotAccepted(stack, k, st, wire, room); }
    if n: nat :| Takes(stack, k, st, wire, plain, m, pad, room, n, data, rest, st') {
      FieldIs(stack, k, st, plain, n);
      assert length == Some(n);
    }
  }

  lemma FieldIs(stack: Stack, k: Keys, st: State, plain: bytes, n: nat)
    requires Ready(st) && Sound(k) && FieldLen(stack) <= |plain|
    ensures LengthOf(stack, k, st, Drawn(stack, k.shake, st.pos), plain[..FieldLen(stack)]) == Some(n) <==> FieldSays(stack, k, st, plain[..FieldLen(stack)], n)
  {
    FieldIff(stack, k, st, plain[..FieldLen(stack)], n);
  }

  lemma NotAccepted(stack: Stack, k: Keys, st: State, wire: bytes, room: nat)
    requires Ready(st) && Sound(k) && FieldLen(stack) <= |wire|
    requires LengthOf(stack, k, st, Drawn(stack, k.shake, st.pos), Clear(stack, k, st, wire)[..FieldLen(stack)]).None?
    ensures !Decoded(stack, k, st, wire, room).Data?
  {
    hide LengthOf, Drawn, Uncfb, Sound;
  }

  /** The same once the field has been read as `n`. */
  lemma AcceptedAt(stack: Stack, k: Keys, st: State, wire: bytes, plain: bytes, room: nat, n: nat, data: bytes, rest: bytes, st': State)
    requires Ready(st) && Sound(k) && plain == Clear(stack, k, st, wire) && FieldLen(stack) <= |plain|
    requires stack.length.Auth? ==> room >= FieldLen(stack)
    requires LengthOf(stack, k, st, Drawn(stack, k.shake, st.pos), plain[..FieldLen(stack)]) == Some(n)
    ensures Decoded(stack, k, st, wire, room) == Data(data, rest, st') <==>
              Takes(stack, k, st, wire, plain, FieldLen(stack), PaddingLength(stack, k, st), room, n, data, rest, st')
  {
    var m, pad := FieldLen(stack), PaddingLength(stack, k, st);
    DrawnIs(stack, k, st);
    FieldIs(stack, k, st, plain, n);
    if pad < n <= pad + room && m + n <= |wire| {
      hide *;
      AcceptedHere(stack, k, st, wire, plain, room, n, data, rest, st');
    } else {
      hide LengthOf, Drawn, After, Uncfb, Unframed, FieldSays, BodySays, Moved, MaskAt, Sound, Nonce;
    }
  }

  lemma AcceptedHere(stack: Stack, k: Keys, st: State, wire: bytes, plain: bytes, room: nat, n: nat, data: bytes, rest: bytes, st': State)
    requires Ready(st) && Sound(k) && plain == Clear(stack, k, st, wire) && FieldLen(stack) <= |plain|
    requires stack.length.Auth? ==> room >= FieldLen(stack)
    requires LengthOf(stack, k, st, Drawn(stack, k.shake, st.pos), plain[..FieldLen(stack)]) == Some(n) && FieldSays(stack, k, st, plain[..FieldLen(stack)], n)
    requires var pad := PaddingLength(stack, k, st); pad < n <= pad + room && FieldLen(stack) + n <= |wire|
    ensures Decoded(stack, k, st, wire, room) == Data(data, rest, st') <==>
              Takes(stack, k, st, wire, plain, FieldLen(stack), PaddingLength(stack, k, st), room, n, data, rest, st')
  {
    DrawnIs(stack, k, st);
    hide LengthOf, Drawn, Uncfb, Unframed, FieldSays, BodySays, Clear, FieldLen, PaddingLength, Sound, Decoded, Moved, MaskAt, Delivered, Nonce, After;
    var m, pad := FieldLen(stack), PaddingLength(stack, k, st);
    var body := plain[m..m + n - pad];
    var u := Unframed(stack.body, k, st, body);
    DecodedAs(stack, k, st, wire, plain, room, n);
    BodyIff(stack, k, st, body, data);
    DeliveredIff(stack, k, st, wire, m + n, u, data, rest, st');
  }

  lemma DeliveredIff(stack: Stack, k: Keys, st: State, wire: bytes, n: nat, u: Unframing, data: bytes, rest: bytes, st': State)
    requires Ready(st) && n <= |wire|
    ensures Delivered(stack, k, st, wire, n, u) == Data(data, rest, st') <==>
              u == Unframing.Clear(data) && rest == wire[n..] && Moved(stack, st, wire[..n], st')
  {
    MovedAfter(stack, k, st, wire[..n]);
    hide Moved, After;
  }

  lemma DecodedAs(stack: Stack, k: Keys, st: State, wire: bytes, plain: bytes, room: nat, n: nat)
    requires Ready(st) && Sound(k) && plain == Clear(stack, k, st, wire) && FieldLen(stack) <= |plain|
    requires stack.length.Auth? ==> room >= FieldLen(stack)
    requires LengthOf(stack, k, st, Drawn(stack, k.shake, st.pos), plain[..FieldLen(stack)]) == Some(n)
    requires var pad := Drawn(stack, k.shake, st.pos).padding; pad < n <= pad + room && FieldLen(stack) + n <= |wire|
    ensures var m, pad := FieldLen(stack), Drawn(stack, k.shake, st.pos).padding;
            Decoded(stack, k, st, wire, room) == Delivered(stack, k, st, wire, m + n, Unframed(stack.body, k, st, plain[m..m + n - pad]))
  {
    hide LengthOf, Drawn, After, Uncfb, Unframed, Sound, FieldLen, Delivered;
  }

  /** What the sealing or checksum layer lets through is what the body says; what it does not is rejected. */
  lemma BodyIff(stack: Stack, k: Keys, st: State, body: bytes, data: bytes)
    requires Ready(st) && Sound(k)
    ensures Unframed(stack.body, k, st, body) == Unframing.Clear(data) <==> BodySays(stack, k, st, body, data)
    ensures Unframed(stack.body, k, st, body) == Rejected(BadChecksum) <==> stack.body.Checksummed? && |body| >= 4 && k.sum(body[4..]) != body[..4]
    ensures Unframed(stack.body, k, st, body) == Rejected(BadSeal) <==>
              stack.body.Sealed? && k.open(stack.body.aead, Nonce(st.count, st.nonce), body) == None
  {
    NonceIs(st);
    hide Counted, Nonce;
    if stack.body.Checksummed? {
      if |body| >= 4 { assert body == body[..4] + body[4..]; }
      if body == k.sum(data) + data { assert body[..4] == k.sum(data) && body[4..] == data; }
    }
  }

  // ----- from chunk to chunk

  /** The state in front of the `i`-th chunk, and the wire around it. */
  lemma {:induction false} ChunkAt(stack: Stack, k: Keys, st: State, chunks: seq<bytes>, random: seq<bytes>, i: nat)
    requires Ready(st) && |random| == |chunks| && (forall r :: r in random ==> |r| >= MAX_PADDING) && i < |chunks|
    ensures var st_i := AfterAll(stack, k, st, chunks[..i], random[..i]);
            var one := Encoded(stack, k, st_i, chunks[i], random[i]);
            && EncodedAll(stack, k, st, chunks, random)
               == EncodedAll(stack, k, st, chunks[..i], random[..i]) + one
                  + EncodedAll(stack, k, After(stack, k, st_i, one), chunks[i + 1..], random[i + 1..])
    decreases i
  {
    hide Encoded, After;
    AfterReady(stack, k, st, chunks[..i], random[..i]);
    if i == 0 {
      assert chunks[..0] == [] && random[..0] == [];
    } else {
      var first := Encoded(stack, k, st, chunks[0], random[0]);
      AfterFacts(stack, k, st, first);
      var st1 := After(stack, k, st, first);
      ChunkAt(stack, k, st1, chunks[1..], random[1..], i - 1);
      Sliced(chunks, i);
      Sliced(random, i);
      var st_i := AfterAll(stack, k, st, chunks[..i], random[..i]);
      var one := Encoded(stack, k, st_i, chunks[i], random[i]);
      var pre := EncodedAll(stack, k, st1, chunks[1..][..i - 1], random[1..][..i - 1]);
      var post := EncodedAll(stack, k, After(stack, k, st_i, one), chunks[i + 1..], random[i + 1..]);
      assert EncodedAll(stack, k, st, chunks[..i], random[..i]) == first + pre;
      assert EncodedAll(stack, k, st, chunks, random) == first + (pre + one + post);
      Grouped(first, pre, one, post);
    }
  }

  lemma Sliced<T>(s: seq<T>, i: nat)
    requires 0 < i < |s|
    ensures s[..i][1..] == s[1..][..i - 1] && s[1..][i..] == s[i + 1..] && s[..i][0] == s[0] && s[1..][i - 1] == s[i]
  {
  }

  lemma Grouped(a: bytes, b: bytes, c: bytes, d: bytes)
    ensures a + (b + c + d) == a + b + c + d
  {
  }

  lemma AfterReady(stack: Stack, k: Keys, st: State, chunks: seq<bytes>, random: seq<bytes>)
    requires Ready(st) && |random| == |chunks| && forall r :: r in random ==> |r| >= MAX_PADDING
    ensures forall wire :: Ready(After(stack, k, AfterAll(stack, k, st, chunks, random), wire))
  {
  }

  /** Each layer counts its chunks. */
  lemma {:induction false} CountAt(stack: Stack, k: Keys, st: State, chunks: seq<bytes>, random: seq<bytes>)
    requires Ready(st) && |random| == |chunks| && forall r :: r in random ==> |r| >= MAX_PADDING
    ensures var r := AfterAll(stack, k, st, chunks, random);
            && r.nonce == st.nonce && r.lengthNonce == st.lengthNonce
            && (stack.body.Sealed? ==> r.count == (st.count + |chunks|) % 0x10000)
            && (stack.length.Auth? ==> r.lengthCount == (st.lengthCount + |chunks|) % 0x10000)
    decreases |chunks|
  {
    hide Encoded, Drawn;
    if chunks != [] {
      var first := Encoded(stack, k, st, chunks[0], random[0]);
      var st1 := After(stack, k, st, first);
      CountAt(stack, k, st1, chunks[1..], random[1..]);
      Wraps(st.count, |chunks|);
      Wraps(st.lengthCount, |chunks|);
    }
  }

  lemma Wraps(c: nat, n: nat)
    requires n > 0
    ensures ((c + 1) % 0x10000 + (n - 1)) % 0x10000 == (c + n) % 0x10000
  {
  }

  /** In a sealed stack the `i`-th chunk is sealed under the nonce that counts `i` on from the first, and its
      length under another that does; so no two chunks fewer than 65536 apart share a nonce. */
  lemma SealedUnder(stack: Stack, k: Keys, st: State, chunks: seq<bytes>, random: seq<bytes>, i: nat)
    requires Ready(st) && Sound(k) && |random| == |chunks| && (forall r :: r in random ==> |r| >= MAX_PADDING) && i < |chunks|
    ensures var st_i := AfterAll(stack, k, st, chunks[..i], random[..i]);
            SealedAs(stack, k, Clear(stack, k, st_i, Encoded(stack, k, st_i, chunks[i], random[i])), PaddingLength(stack, k, st_i),
                     Nonce((st.count + i) % 0x10000, st.nonce), Nonce((st.lengthCount + i) % 0x10000, st.lengthNonce), chunks[i])
  {
    hide Encoded, AfterAll, Clear, Nonce, PaddingLength, Sound, SealedAs, Value, Be, Power, EncodedAll;
    Randoms(random, i);
    CountAt(stack, k, st, chunks[..i], random[..i]);
    var st_i := AfterAll(stack, k, st, chunks[..i], random[..i]);
    assert random[i] in random;
    SealedNow(stack, k, st_i, chunks[i], random[i]);
    SealedSame(stack, k, Clear(stack, k, st_i, Encoded(stack, k, st_i, chunks[i], random[i])), PaddingLength(stack, k, st_i),
               st_i.count, (st.count + i) % 0x10000, st.nonce, st_i.lengthCount, (st.lengthCount + i) % 0x10000, st.lengthNonce, chunks[i]);
  }

  lemma Randoms(random: seq<bytes>, i: nat)
    requires i <= |random|
    ensures forall r :: r in random[..i] ==> r in random
    ensures forall r :: r in random[i..] ==> r in random
  {
  }

  lemma SealedSame(stack: Stack, k: Keys, plain: bytes, pad: nat, a: nat, b: nat, nonce: bytes, c: nat, d: nat, lengthNonce: bytes, data: bytes)
    requires a < 0x10000 && b < 0x10000 && c < 0x10000 && d < 0x10000
    requires (stack.body.Sealed? ==> a == b) && (stack.length.Auth? ==> c == d)
    requires SealedAs(stack, k, plain, pad, Nonce(a, nonce), Nonce(c, lengthNonce), data)
    ensures SealedAs(stack, k, plain, pad, Nonce(b, nonce), Nonce(d, lengthNonce), data)
  {
    hide Nonce;
  }

  /** What the length layer sees of a chunk: in a sealed stack its body is the data sealed under this nonce, and a
      sealed length under its own opens to the sixteen bits of body and padding, less the overhead. */
  ghost predicate SealedAs(stack: Stack, k: Keys, plain: bytes, pad: nat, nonce: bytes, lengthNonce: bytes, data: bytes) {
    var m := if stack.length.Auth? then 18 else 2;
    && |plain| >= m + pad
    && var body := plain[m..|plain| - pad];
    && (stack.body.Sealed? ==> body == k.seal(stack.body.aead, nonce, data))
    && (stack.length.Auth? ==>
          exists p :: |p| == 2 && (Value(p) + 16) % 0x10000 == (|body| + pad) % 0x10000
            && k.lengthOpen(stack.length.aead, lengthNonce, plain[..m]) == Some(p))
  }

  lemma SealedNow(stack: Stack, k: Keys, st: State, data: bytes, random: bytes)
    requires Ready(st) && Sound(k) && |random| >= 64
    ensures SealedAs(stack, k, Clear(stack, k, st, Encoded(stack, k, st, data, random)), PaddingLength(stack, k, st),
                     Nonce(st.count, st.nonce), Nonce(st.lengthCount, st.lengthNonce), data)
  {
    WrittenSays(stack, k, st, data, random);
    hide Encoded, Clear, Nonce, PaddingLength, Sound, BodySays, Moved, MaskAt;
  }

  lemma NoncesApart(st: State, i: nat, j: nat)
    requires i < j < i + 0x10000
    ensures Nonce((st.count + i) % 0x10000, st.nonce) != Nonce((st.count + j) % 0x10000, st.nonce)
    ensures Nonce((st.lengthCount + i) % 0x10000, st.lengthNonce) != Nonce((st.lengthCount + j) % 0x10000, st.lengthNonce)
  {
    Apart(st.count, i, j);
    Apart(st.lengthCount, i, j);
    NonceDiffers((st.count + i) % 0x10000, (st.count + j) % 0x10000, st.nonce);
    NonceDiffers((st.lengthCount + i) % 0x10000, (st.lengthCount + j) % 0x10000, st.lengthNonce);
  }

  lemma Apart(c: nat, i: nat, j: nat)
    requires i < j < i + 0x10000
    ensures (c + i) % 0x10000 != (c + j) % 0x10000
  {
  }
}
