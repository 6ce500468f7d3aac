/**
  The sending side of `conn.go`: how `writeRecordLocked` cuts data into records, and that a reader
  with matching state gets exactly the data back.
*/
module TlsWriter {
  import opened Wire
  import opened TlsRecord

  const TCP_MSS_ESTIMATE: nat := 1208
  const BOOST_THRESHOLD: nat := 128 * 1024

  // ----- what a reader makes of a list of records

  /** Opening the records in order from state `h` gives the `parts`, all of type `typ`, and leaves
      the reader in state `h'`. */
  ghost predicate Reads(h: Half, recs: seq<bytes>, typ: byte, parts: seq<bytes>, h': Half)
    decreases |recs|
  {
    if recs == [] then parts == [] && h' == h
    else
      && parts != [] && |recs[0]| >= HEADER_LEN && Good(h)
      && var o := Opened(h, recs[0]);
      && o.Plain? && o.typ == typ && o.data == parts[0] && Reads(o.half, recs[1..], typ, parts[1..], h')
  }

  lemma {:induction false} ReadsSnoc(h: Half, recs: seq<bytes>, typ: byte, parts: seq<bytes>, h1: Half, rec: bytes)
    requires Reads(h, recs, typ, parts, h1) && Good(h1) && |rec| >= HEADER_LEN
    requires Opened(h1, rec).Plain? && Opened(h1, rec).typ == typ
    ensures Reads(h, recs + [rec], typ, parts + [Opened(h1, rec).data], Opened(h1, rec).half)
    decreases |recs|
  {
    hide Opened, Good;
    var o := Opened(h1, rec);
    if recs == [] {
      assert (recs + [rec])[1..] == [] && (parts + [o.data])[1..] == [];
    } else {
      var o0 := Opened(h, recs[0]);
      ReadsSnoc(o0.half, recs[1..], typ, parts[1..], h1, rec);
      assert (recs + [rec])[1..] == recs[1..] + [rec];
      assert (parts + [o.data])[1..] == parts[1..] + [o.data];
    }
  }

  /** A reader and a writer with the same keys that have come equally far; records in the clear are
      counted by readers only, so there the numbers may differ. */
  ghost predicate Matches(w: Half, r: Half) {
    r == w.(num := r.num) && (w.cipher.NoCipher? || r.num == w.num)
  }

  /** What one record does to a matching reader. */
  lemma OpenMatching(w: Half, r: Half, typ: byte, vers: nat, payload: bytes, iv: bytes)
    requires Good(w) && Good(r) && Matches(w, r) && |payload| <= MAX_PLAINTEXT
    requires w.cipher.Cbc? ==> |iv| == ExplicitNonceLen(w)
    requires typ != 0 && r.num + 1 < Power(8)
    ensures var rec := Record(w, typ, vers, payload, iv);
            var o, w' := Opened(r, rec), WriteAfter(w, Body(w, typ, vers, payload, iv));
            && o.Plain? && o.typ == typ && o.data == payload
            && Matches(w', o.half) && r.num <= o.half.num <= r.num + 1
  {
    BodySame(w, r, typ, vers, payload, iv);
    OpenSealed(r, typ, vers, payload, iv);
    hide Opened, Body, Good;
  }

  lemma BodySame(w: Half, r: Half, typ: byte, vers: nat, payload: bytes, iv: bytes)
    requires Good(w) && Matches(w, r)
    ensures Installed(r.version, r.cipher, r.mac)
    ensures Body(r, typ, vers, payload, iv) == Body(w, typ, vers, payload, iv)
    ensures Record(r, typ, vers, payload, iv) == Record(w, typ, vers, payload, iv)
  {
  }

  /** How long the protected form of a payload is. */
  function Overhead(h: Half, n: nat): (k: nat)
    requires Installed(h.version, h.cipher, h.mac)
  {
    match h.cipher
    case NoCipher => 0
    case Stream(_, _) => h.mac.size
    case Cbc(blockSize, _, _, _) => ExplicitNonceLen(h) + h.mac.size + PadLen(n + h.mac.size, blockSize)
    case Aead(nonceLen, overhead, _, _) => nonceLen + overhead + if h.version == TLS13 then 1 else 0
  }

  lemma RecordLength(h: Half, typ: byte, vers: nat, payload: bytes, iv: bytes)
    requires Good(h) && (h.cipher.Cbc? ==> |iv| == ExplicitNonceLen(h))
    ensures |Record(h, typ, vers, payload, iv)| == HEADER_LEN + |payload| + Overhead(h, |payload|)
  {
    if h.cipher.Cbc? {
      CbcBody(h, typ, vers, payload, iv);
    }
  }

  lemma OverheadBound(h: Half, n: nat)
    requires Good(h) && n <= MAX_PLAINTEXT
    ensures n + Overhead(h, n) <= if h.version == TLS13 then MAX_CIPHERTEXT_13 else MAX_CIPHERTEXT
  {
    hide PadLen;
  }

  /** How much data fits into one TCP segment. */
  function SegmentPayload(h: Half, tls13: bool): (n: int)
    requires Installed(h.version, h.cipher, h.mac)
  {
    var room := TCP_MSS_ESTIMATE - HEADER_LEN - ExplicitNonceLen(h);
    var payload := match h.cipher
      case NoCipher => room
      case Stream(_, _) => room - h.mac.size
      case Cbc(blockSize, _, _, _) => room - room % blockSize - 1 - h.mac.size
      case Aead(_, overhead, _, _) => room - overhead;
    if tls13 then payload - 1 else payload
  }

  /** A record no larger than that does fit, headers, padding and all. */
  lemma FitsSegment(h: Half, typ: byte, vers: nat, payload: bytes, iv: bytes)
    requires Good(h) && (h.cipher.Cbc? ==> |iv| == ExplicitNonceLen(h))
    requires |payload| <= SegmentPayload(h, h.version == TLS13)
    ensures |Record(h, typ, vers, payload, iv)| <= TCP_MSS_ESTIMATE
  {
    RecordLength(h, typ, vers, payload, iv);
    if h.cipher.Cbc? {
      PaddedFits(|payload| + h.mac.size, h.cipher.blockSize, TCP_MSS_ESTIMATE - HEADER_LEN - ExplicitNonceLen(h));
    }
    hide PadLen, Record;
  }

  lemma PaddedFits(n: nat, blockSize: nat, room: nat)
    requires (blockSize == 8 || blockSize == 16) && n <= room - room % blockSize - 1
    ensures n + PadLen(n, blockSize) <= room
  {
    if blockSize == 8 {
      Fits8(n, room);
    } else {
      Fits16(n, room);
    }
  }

  lemma Fits8(n: nat, room: nat)
    requires n <= room - room % 8 - 1
    ensures n + (8 - n % 8) <= room
  {
  }

  lemma Fits16(n: nat, room: nat)
    requires n <= room - room % 16 - 1
    ensures n + (16 - n % 16) <= room
  {
  }

  lemma SegmentPayloadPositive(h: Half, tls13: bool)
    requires Installed(h.version, h.cipher, h.mac)
    ensures 1000 < SegmentPayload(h, tls13) < MAX_PLAINTEXT
  {
  }

  class Conn {
    const out: HalfConn
    const sizingDisabled: bool
    var vers: nat
    var bytesSent: nat
    var packetsSent: nat
    var buffering: bool
    var sendBuf: bytes
    var conn: bytes        // everything the transport has taken

    ghost predicate Valid()
      reads this, out, out.seqno
    {
      out.Valid() && out.Prepared() && (!buffering ==> sendBuf == [])
    }

    /** Everything written, whether or not it has left the buffer. */
    ghost function Wire(): (r: bytes)
      reads this
    {
      conn + sendBuf
    }

    constructor (out: HalfConn, sizingDisabled: bool, vers: nat)
      requires out.Valid() && out.Prepared()
      ensures Valid() && this.out == out && this.vers == vers && Wire() == []
    {
      this.out, this.sizingDisabled, this.vers := out, sizingDisabled, vers;
      bytesSent, packetsSent, buffering := 0, 0, false;
      sendBuf, conn := [], [];
    }

    /** `maxPayloadSizeForWrite` */
    method MaxPayloadSizeForWrite(typ: byte) returns (n: nat)
      requires out.Valid()
      modifies this`packetsSent
      ensures 0 < n <= MAX_PLAINTEXT
      ensures sizingDisabled || typ != APPLICATION_DATA || bytesSent >= BOOST_THRESHOLD ==> n == MAX_PLAINTEXT && packetsSent == old(packetsSent)
      ensures !(sizingDisabled || typ != APPLICATION_DATA || bytesSent >= BOOST_THRESHOLD) ==>
                && packetsSent == old(packetsSent) + 1
                && var size := SegmentPayload(out.Now(), vers == TLS13) * (old(packetsSent) + 1);
                   n == if old(packetsSent) > 1000 || size > MAX_PLAINTEXT then MAX_PLAINTEXT else size
    {
      if sizingDisabled || typ != APPLICATION_DATA {
        return MAX_PLAINTEXT;
      }
      if bytesSent >= BOOST_THRESHOLD {
        return MAX_PLAINTEXT;
      }
      SegmentPayloadPositive(out.Now(), vers == TLS13);
      var payloadBytes := SegmentPayload(Half(out.version, out.cipher, out.mac, 0), vers == TLS13);
      var pkt := packetsSent;
      packetsSent := packetsSent + 1;
      SegmentGrowth(payloadBytes, pkt);
      if pkt > 1000 {
        return MAX_PLAINTEXT;
      }
      n := payloadBytes * (pkt + 1);
      if n > MAX_PLAINTEXT {
        n := MAX_PLAINTEXT;
      }
    }

    /** `write` */
    method Write(data: bytes)
      requires !buffering ==> sendBuf == []
      modifies this`sendBuf, this`conn, this`bytesSent
      ensures Wire() == old(Wire()) + data && (!buffering ==> sendBuf == [])
      ensures conn == (if buffering then old(conn) else old(conn) + data)
      ensures bytesSent == if buffering then old(bytesSent) else old(bytesSent) + |data|
    {
      if buffering {
        sendBuf := sendBuf + data;
        assert Wire() == old(Wire()) + data;
      } else {
        conn := conn + data;
        bytesSent := bytesSent + |data|;
        assert Wire() == old(Wire()) + data;
      }
    }

    /** `flush`: what was buffered leaves in the order it was written. */
    method Flush()
      requires Valid()
      modifies this`sendBuf, this`conn, this`bytesSent, this`buffering
      ensures Valid() && Wire() == old(Wire()) && sendBuf == [] && conn == Wire()
      ensures buffering == (old(buffering) && old(sendBuf) == []) && bytesSent == old(bytesSent) + |old(sendBuf)|
    {
      if |sendBuf| > 0 {
        conn := conn + sendBuf;
        bytesSent := bytesSent + |sendBuf|;
        sendBuf := [];
        buffering := false;
      }
    }

    /** One round of the loop of `writeRecordLocked`: the record of its part, in the state of the writer, goes out,
        and the state moves on; `reader` is any matching state of the peer. */
    method WriteOne(typ: byte, part: bytes, iv: bytes, ghost reader: Half)
        returns (ok: bool, ghost rec: bytes, ghost reader': Half)
      requires Valid() && typ != 0 && |part| <= MAX_PLAINTEXT
      requires out.cipher.Cbc? ==> |iv| == ExplicitNonceLen(out.Now())
      requires Good(reader) && reader.num + 1 < Power(8) && Matches(out.Now(), reader)
      modifies out`cipher, out.seqno, this`sendBuf, this`conn, this`bytesSent
      ensures ok <==> old(out.cipher.NoCipher?) || old(out.Now()).num + 1 < Power(8)
      ensures bytesSent >= old(bytesSent)
      ensures ok ==>
                && Valid() && Wire() == old(Wire()) + rec
                && HEADER_LEN <= |rec| <= HEADER_LEN + (if out.version == TLS13 then MAX_CIPHERTEXT_13 else MAX_CIPHERTEXT)
                && var o := Opened(reader, rec);
                && o.Plain? && o.typ == typ && o.data == part && o.half == reader'
                && Matches(out.Now(), reader') && Good(reader') && reader.num <= reader'.num <= reader.num + 1
                && SameKind(out.Now(), old(out.Now()))
      ensures ok ==>
                && Installed(old(out.Now()).version, old(out.Now()).cipher, old(out.Now()).mac)
                && rec == Record(old(out.Now()), typ, RecordVersion(vers), part, iv)
                && out.Now() == WriteAfter(old(out.Now()), Body(old(out.Now()), typ, RecordVersion(vers), part, iv))
    {
      hide Opened, Power, Value, Be, Record, WriteAfter, Sound, Installed;
      ghost var w := out.Now();
      var recordVers := vers;
      if recordVers == 0 {
        recordVers := TLS10;
      } else if recordVers == TLS13 {
        recordVers := TLS12;
      }
      var hdr := Header(typ, recordVers, |part|);
      var r := out.Encrypt(hdr, part, iv, typ, recordVers);
      ok := r.Some?;
      if ok {
        rec := r.value;
        reader' := WroteOne(w, reader, typ, recordVers, part, iv, out.Now());
        hide *;
        Write(r.value);
      }
    }

    /** The loop of `writeRecordLocked`. */
    method WriteRecords(typ: byte, data: bytes, iv: nat -> bytes, ghost reader: Half)
        returns (n: nat, ok: bool, ghost recs: seq<bytes>, ghost parts: seq<bytes>, ghost reader': Half, ghost ws: seq<Half>)
      requires Valid() && typ != 0
      requires out.cipher.Cbc? ==> forall k :: |iv(k)| == ExplicitNonceLen(out.Now())
      requires Good(reader) && reader.num + |data| < Power(8) && Matches(out.Now(), reader)
      modifies this, out`cipher, out.seqno
      ensures vers == old(vers)
      ensures ok && Valid() && n == |data| && Matches(out.Now(), reader') && Good(reader')
      ensures Wire() == old(Wire()) + Flatten(recs) && Delivered(reader, recs, typ, parts, reader', data)
      ensures forall i :: 0 <= i < |recs| ==> |recs[i]| <= HEADER_LEN + (if out.version == TLS13 then MAX_CIPHERTEXT_13 else MAX_CIPHERTEXT)
      ensures SameKind(out.Now(), old(out.Now()))
      ensures Written(ws, recs, typ, vers, parts, iv) && ws[0] == old(out.Now()) && ws[|recs|] == out.Now()
      ensures sizingDisabled || typ != APPLICATION_DATA || old(bytesSent) >= BOOST_THRESHOLD ==>
                forall i :: 0 <= i < |parts| - 1 ==> |parts[i]| == MAX_PLAINTEXT
    {
      hide Good, Flatten, Reads, Opened, Power, ExplicitNonceLen, Delivered, Matches, Written, Record, Body, WriteAfter, SegmentPayload, Limited, Full,
           Installed, SameKind;
      SameKindSelf(out.Now());
      LimitedFull([], [], HEADER_LEN + if out.version == TLS13 then MAX_CIPHERTEXT_13 else MAX_CIPHERTEXT);
      n, ok, recs, parts, reader', ws := 0, true, [], [], reader, [out.Now()];
      DeliveredNothing(reader, typ);
      WrittenNothing(out.Now(), typ, vers, iv);
      assert Wire() == old(Wire()) + Flatten<byte>([]);
      var rest := data;
      while |rest| > 0
        invariant Valid() && vers == old(vers) && n + |rest| == |data| && rest == data[n..] && ok
        invariant Good(reader') && Matches(out.Now(), reader') && SameKind(out.Now(), old(out.Now()))
        invariant Delivered(reader, recs, typ, parts, reader', data[..n])
        invariant Wire() == old(Wire()) + Flatten(recs)
        invariant |ws| == |recs| + 1 && |parts| == |recs| && Written(ws, recs, typ, vers, parts, iv) && ws[0] == old(out.Now()) && ws[|recs|] == out.Now()
        invariant Flatten(parts) == data[..n] && bytesSent >= old(bytesSent)
        invariant sizingDisabled || typ != APPLICATION_DATA || old(bytesSent) >= BOOST_THRESHOLD ==>
                    Full(parts, |rest| == 0)
        invariant Limited(recs, HEADER_LEN + if out.version == TLS13 then MAX_CIPHERTEXT_13 else MAX_CIPHERTEXT)
      {
        var m := |rest|;
        var maxPayload := MaxPayloadSizeForWrite(typ);
        if m > maxPayload {
          m := maxPayload;
        }
        ghost var rec, next;
        DeliveredCount(reader, recs, typ, parts, reader', data[..n]);
        MatchesNum(out.Now(), reader');
        ok, rec, next := WriteOne(typ, rest[..m], iv(n), reader');
        WrittenMore(ws, recs, typ, vers, parts, iv, rest[..m], rec, out.Now());
        FlattenSnoc(parts, rest[..m]);
        ws := ws + [out.Now()];
        DeliveredMore(reader, recs, typ, parts, reader', data[..n], rec);
        FlattenSnoc(recs, rec);
        LimitedMore(recs, rec, HEADER_LEN + if out.version == TLS13 then MAX_CIPHERTEXT_13 else MAX_CIPHERTEXT);
        FullMore(parts, rest[..m], |rest| == m);
        recs, parts, reader' := recs + [rec], parts + [rest[..m]], next;
        assert data[..n] + rest[..m] == data[..n + m];
        n := n + m;
        rest := rest[m..];
      }
      assert data[..n] == data;
      LimitedFull(recs, parts, HEADER_LEN + if out.version == TLS13 then MAX_CIPHERTEXT_13 else MAX_CIPHERTEXT);
    }

    /** `writeRecordLocked` over a byte stream transport: after a ChangeCipherSpec message before
        TLS 1.3 the prepared cipher takes over from record zero, as it will at the reader. */
    method WriteRecordLocked(typ: byte, data: bytes, iv: nat -> bytes, ghost reader: Half)
        returns (n: nat, ok: bool, ghost recs: seq<bytes>, ghost parts: seq<bytes>, ghost reader': Half, ghost ws: seq<Half>)
      requires Valid() && typ != 0
      requires out.cipher.Cbc? ==> forall k :: |iv(k)| == ExplicitNonceLen(out.Now())
      requires Good(reader) && reader.num + |data| < Power(8) && Matches(out.Now(), reader)
      modifies this, out, out.seqno
      ensures Valid() && n == |data|
      ensures Wire() == old(Wire()) + Flatten(recs) && Delivered(reader, recs, typ, parts, reader', data)
      ensures forall i :: 0 <= i < |recs| ==> |recs[i]| <= HEADER_LEN + (if out.version == TLS13 then MAX_CIPHERTEXT_13 else MAX_CIPHERTEXT)
      ensures Written(ws, recs, typ, vers, parts, iv) && ws[0] == old(out.Now())
      ensures typ != CHANGE_CIPHER_SPEC || vers == TLS13 ==> ok && Matches(out.Now(), reader') && ws[|recs|] == out.Now()
      ensures typ == CHANGE_CIPHER_SPEC && vers != TLS13 ==>
                && (ok <==> !old(out.nextCipher).NoCipher? && out.version != TLS13)
                && (ok ==> out.Now() == Half(reader.version, old(out.nextCipher), old(out.nextMac), 0))
                && (!ok ==> Matches(out.Now(), reader'))
    {
      n, ok, recs, parts, reader', ws := WriteRecords(typ, data, iv, reader);
      hide Good, Flatten, Reads, Opened, Power, ExplicitNonceLen, Delivered, Written;
      if typ == CHANGE_CIPHER_SPEC && vers != TLS13 {
        ok := out.Change();
      }
    }
  }

  ghost predicate Limited(recs: seq<bytes>, n: nat) { forall i :: 0 <= i < |recs| ==> |recs[i]| <= n }

  /** All parts, or all but the last, are as long as they can be. */
  ghost predicate Full(parts: seq<bytes>, done: bool) {
    forall i :: 0 <= i < |parts| && (i < |parts| - 1 || !done) ==> |parts[i]| == MAX_PLAINTEXT
  }

  lemma LimitedMore(recs: seq<bytes>, rec: bytes, n: nat)
    requires Limited(recs, n) && |rec| <= n
    ensures Limited(recs + [rec], n)
  {
  }

  lemma FullMore(parts: seq<bytes>, part: bytes, done: bool)
    ensures Full(parts, false) && (done || |part| == MAX_PLAINTEXT) ==> Full(parts + [part], done)
  {
  }

  lemma LimitedFull(recs: seq<bytes>, parts: seq<bytes>, n: nat)
    ensures Limited(recs, n) ==> forall i :: 0 <= i < |recs| ==> |recs[i]| <= n
    ensures Full(parts, true) ==> forall i :: 0 <= i < |parts| - 1 ==> |parts[i]| == MAX_PLAINTEXT
    ensures Limited([], n) && Full([], false) && Full([], true)
  {
  }

  lemma SameKindSelf(h: Half)
    ensures SameKind(h, h)
    ensures forall a, b :: SameKind(a, b) ==> a.version == b.version && a.mac == b.mac && a.cipher.Cbc? == b.cipher.Cbc? && ExplicitNonceLen(a) == ExplicitNonceLen(b)
    ensures forall a, b, c :: SameKind(a, b) && SameKind(b, c) ==> SameKind(a, c)
  {
  }

  /** The version in the records of a connection. */
  ghost function RecordVersion(vers: nat): (v: nat)
    ensures v == if vers == 0 then 0x0301 else if vers == 0x0304 then 0x0303 else vers
  {
    if vers == 0 then TLS10 else if vers == TLS13 then TLS12 else vers
  }

  /** The records are those of the parts in their order, each in the state the one before has left, and
      each with the initialisation vector drawn where its part begins. */
  ghost predicate Written(ws: seq<Half>, recs: seq<bytes>, typ: byte, vers: nat, parts: seq<bytes>, iv: nat -> bytes) {
    && |ws| == |recs| + 1 == |parts| + 1
    && forall i :: 0 <= i < |recs| ==> WrittenAt(ws, recs, typ, vers, parts, iv, i)
  }

  ghost predicate WrittenAt(ws: seq<Half>, recs: seq<bytes>, typ: byte, vers: nat, parts: seq<bytes>, iv: nat -> bytes, i: nat)
    requires i < |recs| == |parts| == |ws| - 1
  {
    && Installed(ws[i].version, ws[i].cipher, ws[i].mac) && Good(ws[i]) && (ws[i].cipher.Cbc? ==> |iv(|Flatten(parts[..i])|)| == ExplicitNonceLen(ws[i]))
    && recs[i] == Record(ws[i], typ, RecordVersion(vers), parts[i], iv(|Flatten(parts[..i])|))
    && ws[i + 1] == WriteAfter(ws[i], Body(ws[i], typ, RecordVersion(vers), parts[i], iv(|Flatten(parts[..i])|)))
  }

  lemma WrittenNothing(w: Half, typ: byte, vers: nat, iv: nat -> bytes)
    ensures Written([w], [], typ, vers, [], iv)
  {
  }

  lemma WrittenMore(ws: seq<Half>, recs: seq<bytes>, typ: byte, vers: nat, parts: seq<bytes>, iv: nat -> bytes, part: bytes, rec: bytes, w': Half)
    requires Written(ws, recs, typ, vers, parts, iv)
    requires var w, v := ws[|recs|], iv(|Flatten(parts)|);
             && Installed(w.version, w.cipher, w.mac) && Good(w) && (w.cipher.Cbc? ==> |v| == ExplicitNonceLen(w))
             && rec == Record(w, typ, RecordVersion(vers), part, v) && w' == WriteAfter(w, Body(w, typ, RecordVersion(vers), part, v))
    ensures Written(ws + [w'], recs + [rec], typ, vers, parts + [part], iv)
  {
    hide Record, Body, WriteAfter, Installed, Good, ExplicitNonceLen, Flatten;
    var ws', recs', parts' := ws + [w'], recs + [rec], parts + [part];
    forall i | 0 <= i < |recs'| ensures WrittenAt(ws', recs', typ, vers, parts', iv, i) {
      assert parts'[..i] == parts[..i];
      if i < |recs| {
        assert WrittenAt(ws, recs, typ, vers, parts, iv, i);
      } else {
        assert parts[..i] == parts;
      }
    }
  }

  /** What has been written so far, and what a matching reader makes of it: it gets `parts`, none
      empty and none above the limit, which together are `data`. */
  ghost predicate Delivered(r: Half, recs: seq<bytes>, typ: byte, parts: seq<bytes>, r': Half, data: bytes) {
    && Reads(r, recs, typ, parts, r') && |recs| == |parts| <= |data| && Flatten(parts) == data
    && (forall i :: 0 <= i < |parts| ==> 0 < |parts[i]| <= MAX_PLAINTEXT)
    && r'.num <= r.num + |recs|
  }

  lemma DeliveredNothing(r: Half, typ: byte)
    ensures Delivered(r, [], typ, [], r, []) && Flatten<byte>([]) == []
  {
  }

  lemma DeliveredCount(r: Half, recs: seq<bytes>, typ: byte, parts: seq<bytes>, r': Half, data: bytes)
    requires Delivered(r, recs, typ, parts, r', data)
    ensures r'.num <= r.num + |data|
  {
  }

  lemma MatchesNum(w: Half, r: Half)
    requires Matches(w, r)
    ensures w.cipher.NoCipher? || r.num == w.num
  {
  }

  lemma DeliveredMore(r: Half, recs: seq<bytes>, typ: byte, parts: seq<bytes>, r1: Half, data: bytes, rec: bytes)
    requires Delivered(r, recs, typ, parts, r1, data) && Good(r1) && |rec| >= HEADER_LEN
    requires var o := Opened(r1, rec); o.Plain? && o.typ == typ && 0 < |o.data| <= MAX_PLAINTEXT && o.half.num <= r1.num + 1
    ensures var o := Opened(r1, rec); Delivered(r, recs + [rec], typ, parts + [o.data], o.half, data + o.data)
  {
    hide Opened, Good, Flatten, Reads;
    ReadsSnoc(r, recs, typ, parts, r1, rec);
    FlattenSnoc(parts, Opened(r1, rec).data);
  }

  /** Versions, MAC and kind of cipher never change while writing. */
  ghost predicate SameKind(h': Half, h: Half) {
    h'.version == h.version && h'.mac == h.mac && h'.cipher.NoCipher? == h.cipher.NoCipher?
    && h'.cipher.Cbc? == h.cipher.Cbc? && ExplicitNonceLen(h') == ExplicitNonceLen(h)
  }

  lemma WroteOne(w: Half, r: Half, typ: byte, vers: nat, part: bytes, iv: bytes, w': Half) returns (r': Half)
    requires Good(w) && Good(r) && Matches(w, r) && |part| <= MAX_PLAINTEXT && typ != 0 && r.num + 1 < Power(8)
    requires w.cipher.Cbc? ==> |iv| == ExplicitNonceLen(w)
    requires w' == WriteAfter(w, Body(w, typ, vers, part, iv)) && Good(w')
    ensures var rec := Record(w, typ, vers, part, iv);
            && HEADER_LEN <= |rec| <= HEADER_LEN + (if w.version == TLS13 then MAX_CIPHERTEXT_13 else MAX_CIPHERTEXT)
            && var o := Opened(r, rec);
            && o.Plain? && o.typ == typ && o.data == part && o.half == r'
            && Matches(w', r') && Good(r') && r.num <= r'.num <= r.num + 1 && SameKind(w', w)
  {
    RecordLength(w, typ, vers, part, iv);
    OverheadBound(w, |part|);
    OpenMatching(w, r, typ, vers, part, iv);
    hide Opened, Body, Overhead, Record;
    r' := Opened(r, Record(w, typ, vers, part, iv)).half;
  }

  lemma SegmentGrowth(payloadBytes: int, pkt: nat)
    requires payloadBytes > 0
    ensures payloadBytes * (pkt + 1) > 0
    ensures pkt > 1000 && payloadBytes > 1000 ==> payloadBytes * (pkt + 1) > MAX_PLAINTEXT
  {
  }
}
