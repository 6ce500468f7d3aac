/**
  What a record that opens must look like, in terms of the cipher and the MAC alone; and what sealing
  puts on the wire. `TlsRecord` has both as one computation each; here is what they amount to.
*/
module TlsSound {
  import opened Wire
  import opened TlsPadding
  import opened TlsRecord

  /** The tag that data of a record with these first three bytes must carry. */
  ghost function Tag(h: Half, first3: bytes, d: bytes): bytes
    requires h.mac.Mac?
  {
    h.mac.tag(Be(h.num, 8), first3 + Be(|d|, 2), d)
  }

  /** Data, its tag, and padding, as the MAC check takes them apart. */
  lemma CheckedIff(h: Half, record: bytes, p: bytes, padding: nat, ok: bool, d: bytes)
    requires Good(h) && h.mac.Mac? && |record| >= HEADER_LEN && h.mac.size + padding <= |p|
    ensures var o := Checked(h, record, p, padding, ok);
            && (o.Plain? && o.data == d <==> ok && |d| == |p| - h.mac.size - padding && p[..|p| - padding] == d + Tag(h, record[..3], d))
            && (o.Plain? ==> o.typ == record[0] && o.half == ReadAfter(h, record[HEADER_LEN..]))
            && (o.Fail? ==> o.alert == BadRecordMac)
  {
    hide ReadAfter, Be, Power;
    var n := |p| - h.mac.size - padding;
    var q := p[..|p| - padding];
    assert q == p[..n] + p[n..n + h.mac.size];
    if |d| == n && q == d + Tag(h, record[..3], d) {
      assert q[..n] == d && q[n..] == Tag(h, record[..3], d);
      assert p[..n] == q[..n] && p[n..n + h.mac.size] == q[n..];
    }
  }

  /** A record under a stream cipher opens to `d` if and only if it deciphers to `d` and the tag of `d`; and
      what does not is a bad MAC. */
  lemma StreamIff(h: Half, record: bytes, d: bytes)
    requires Good(h) && h.cipher.Stream? && |record| >= HEADER_LEN
    ensures var o, p := Opened(h, record), Keyed(h.cipher.key, h.cipher.pos, record[HEADER_LEN..]);
            && (o.Plain? && o.data == d <==> p == d + Tag(h, record[..3], d))
            && (o.Plain? ==> o.typ == record[0] && o.half == ReadAfter(h, record[HEADER_LEN..]))
            && (o.Fail? ==> o.alert == BadRecordMac)
  {
    hide Keyed, Power, ReadAfter, Be;
    var p := Keyed(h.cipher.key, h.cipher.pos, record[HEADER_LEN..]);
    if |p| < h.mac.size {
      assert |d + Tag(h, record[..3], d)| > |p|;
    } else {
      CheckedIff(h, record, p, 0, true, d);
      assert p[..|p| - 0] == p;
      if p == d + Tag(h, record[..3], d) { assert |p| == |d| + h.mac.size; }
    }
  }

  /** `k` bytes of the value one less. */
  ghost function PadBytes(k: nat): bytes
    requires 0 < k <= 256
  {
    seq(k, _ => (k - 1) as byte)
  }

  lemma PaddingIs(p: bytes)
    requires PaddingOk(p)
    ensures var k := p[|p| - 1] as int + 1; k <= |p| && p[|p| - k..] == PadBytes(k) && p == p[..|p| - k] + PadBytes(k)
  {
  }

  lemma PaddingFrom(q: bytes, k: nat)
    requires 0 < k <= 256
    ensures PaddingOk(q + PadBytes(k)) && (q + PadBytes(k))[|q| + k - 1] as int + 1 == k
  {
  }

  /** The padding reaches into where the tag should be. */
  ghost predicate Overlaps(h: Half, p: bytes)
    requires h.mac.Mac?
  {
    PaddingOk(p) && p[|p| - 1] as int + 1 + h.mac.size > |p|
  }

  /** A CBC record opens to `d` if and only if it is made of enough whole blocks and deciphers to `d`, the tag
      of `d`, and padding by the plain rule. The one exception: if the padding reaches into the tag, the
      data are taken to be empty, and the record opens if it begins with the tag of nothing. What does not
      open is a bad MAC. */
  lemma CbcIff(h: Half, record: bytes, d: bytes)
    requires Good(h) && h.cipher.Cbc? && |record| >= HEADER_LEN && WholeBlocks(h, record[HEADER_LEN..])
    ensures var o, p := Opened(h, record), Deciphered(h, record[HEADER_LEN..]);
            && (!Overlaps(h, p) ==> (o.Plain? && o.data == d <==> exists k :: 0 < k <= 256 && p == d + Tag(h, record[..3], d) + PadBytes(k)))
            && (Overlaps(h, p) ==> (o.Plain? && o.data == d <==> d == [] && p[..h.mac.size] == Tag(h, record[..3], [])))
            && (o.Plain? ==> o.typ == record[0] && o.half == ReadAfter(h, record[HEADER_LEN..]))
            && (o.Fail? ==> o.alert == BadRecordMac)
  {
    var p := Deciphered(h, record[HEADER_LEN..]);
    CbcOpened(h, record);
    CbcLong(h, record[HEADER_LEN..]);
    hide Deciphered, Power, Be, ReadAfter, WholeBlocks, OpenedCbc, PaddingOk, Sound;
    if Overlaps(h, p) {
      OverlapIff(h, record, p, d);
    } else if PaddingOk(p) {
      CbcPadded(h, record, p, d);
    } else {
      CheckedNever(h, record, p);
      forall k | 0 < k <= 256 ensures p != d + Tag(h, record[..3], d) + PadBytes(k) {
        PaddingFrom(d + Tag(h, record[..3], d), k);
      }
    }
  }

  lemma CheckedNever(h: Half, record: bytes, p: bytes)
    requires h.mac.Mac? && |record| >= HEADER_LEN
    ensures Checked(h, record, p, 1, false) == Fail(BadRecordMac)
  {
  }

  /** Enough whole blocks are longer than the tag. */
  lemma CbcLong(h: Half, payload: bytes)
    requires Good(h) && h.cipher.Cbc? && WholeBlocks(h, payload)
    ensures h.mac.Mac? && h.cipher.Cbc? && h.version != TLS13 && |Deciphered(h, payload)| > h.mac.size
  {
    hide Power;
  }

  lemma CbcPadded(h: Half, record: bytes, p: bytes, d: bytes)
    requires Good(h) && h.mac.Mac? && |record| >= HEADER_LEN && PaddingOk(p) && !Overlaps(h, p)
    ensures var o := Checked(h, record, p, p[|p| - 1] as int + 1, true);
            && (o.Plain? && o.data == d <==> exists k :: 0 < k <= 256 && p == d + Tag(h, record[..3], d) + PadBytes(k))
            && (o.Plain? ==> o.typ == record[0] && o.half == ReadAfter(h, record[HEADER_LEN..]))
            && (o.Fail? ==> o.alert == BadRecordMac)
  {
    var k := p[|p| - 1] as int + 1;
    PaddingIs(p);
    CheckedIff(h, record, p, k, true, d);
    TagSize(h, record[..3], d);
    hide Checked, PaddingOk, ReadAfter, Tag, Good;
    var q, tag := p[..|p| - k], Tag(h, record[..3], d);
    if q == d + tag {
      assert p == d + tag + PadBytes(k);
    }
    if j :| 0 < j <= 256 && p == d + tag + PadBytes(j) {
      PaddingFrom(d + tag, j);
      assert j == k;
      assert (d + tag + PadBytes(k))[..|d + tag|] == d + tag;
    }
  }

  lemma TagSize(h: Half, first3: bytes, d: bytes)
    requires Good(h) && h.mac.Mac?
    ensures |Tag(h, first3, d)| == h.mac.size
  {
  }

  lemma OverlapIff(h: Half, record: bytes, p: bytes, d: bytes)
    requires Good(h) && h.mac.Mac? && |record| >= HEADER_LEN && |p| > h.mac.size && Overlaps(h, p)
    ensures var o := Checked(h, record, p, p[|p| - 1] as int + 1, true);
            && (o.Plain? && o.data == d <==> d == [] && p[..h.mac.size] == Tag(h, record[..3], []))
            && (o.Plain? ==> o.typ == record[0] && o.half == ReadAfter(h, record[HEADER_LEN..]))
            && (o.Fail? ==> o.alert == BadRecordMac)
  {
    hide PaddingOk, Be, ReadAfter;
    assert p[..0] == [] && p[0..0 + h.mac.size] == p[..h.mac.size];
  }

  /** Records that are not made of enough whole blocks are refused. */
  lemma CbcRagged(h: Half, record: bytes)
    requires Good(h) && h.cipher.Cbc? && |record| >= HEADER_LEN
    ensures var body, n := record[HEADER_LEN..], if h.version >= TLS11 then h.cipher.blockSize else 0;
            |body| % h.cipher.blockSize != 0 || |body| < n + h.mac.size + 1 ==> Opened(h, record) == Fail(BadRecordMac)
  {
  }

  /** The nonce of an AEAD record: the sequence number, or what stands in front of its body. */
  ghost function NonceOf(h: Half, record: bytes): bytes
    requires h.cipher.Aead? && |record| >= HEADER_LEN + h.cipher.nonceLen
  {
    if h.cipher.nonceLen == 0 then Be(h.num, 8) else record[HEADER_LEN..HEADER_LEN + h.cipher.nonceLen]
  }

  /** The additional data: the header in TLS 1.3; before, the sequence number and a header with the
      length of the plaintext. */
  ghost function DataWith(h: Half, record: bytes, n: nat): bytes
    requires |record| >= HEADER_LEN
  {
    if h.version == TLS13 then record[..HEADER_LEN] else Be(h.num, 8) + record[..3] + Be(n, 2)
  }

  /** An AEAD record opens if and only if the cipher accepts it under the nonce and the additional data of this
      sequence number, to what the plaintext says: in TLS 1.3 it is data, a type that is not zero, and
      zeros; or it is empty. */
  lemma AeadIff(h: Half, record: bytes, d: bytes, t: byte)
    requires Good(h) && h.cipher.Aead? && |record| >= HEADER_LEN + h.cipher.nonceLen
    requires !(h.version == TLS13 && record[0] == CHANGE_CIPHER_SPEC)
    ensures var o, sealed := Opened(h, record), record[HEADER_LEN + h.cipher.nonceLen..];
            && (o.Plain? && o.data == d && o.typ == t <==>
                  if h.version != TLS13 then
                    t == record[0] && |sealed| >= h.cipher.overhead
                    && h.cipher.open(NonceOf(h, record), sealed, DataWith(h, record, |sealed| - h.cipher.overhead)) == Some(d)
                  else
                    record[0] == APPLICATION_DATA && exists zeros :: Says(h, record, sealed, d, t, zeros))
            && (o.Plain? ==> o.half == ReadAfter(h, record[HEADER_LEN..]))
  {
    hide Power, ReadAfter, Be;
    var c, payload := h.cipher, record[HEADER_LEN..];
    var sealed := payload[c.nonceLen..];
    assert sealed == record[HEADER_LEN + c.nonceLen..];
    assert payload[..c.nonceLen] == record[HEADER_LEN..HEADER_LEN + c.nonceLen];
    if h.version == TLS13 {
      var got := c.open(NonceOf(h, record), sealed, DataWith(h, record, 0));
      if got.Some? { UnwrappedIff(h, record, got.value, d, t); }
      if got.Some? && Unwrapped(h, record, got.value).Plain? && SaysPlain(got.value, d, t) {
        var zeros :| got.value == Spelled(d, t, zeros);
        assert Says(h, record, sealed, d, t, zeros);
      }
      if zeros :| Says(h, record, sealed, d, t, zeros) {
        assert got == Some(Spelled(d, t, zeros)) && SaysPlain(got.value, d, t);
      }
    }
  }

  /** A TLS 1.3 plaintext: the data, their type, and so many zeros. Without data and with a type that is
      application data there may be nothing at all. */
  ghost function Spelled(d: bytes, t: byte, zeros: int): bytes {
    if zeros < 0 && d == [] && t == APPLICATION_DATA then []
    else d + [t] + seq(if zeros < 0 then 0 else zeros, _ => 0)
  }

  ghost predicate SaysPlain(p: bytes, d: bytes, t: byte) {
    t != 0 && |p| <= MAX_PLAINTEXT + 1 && exists zeros :: p == Spelled(d, t, zeros)
  }

  ghost predicate Says(h: Half, record: bytes, sealed: bytes, d: bytes, t: byte, zeros: int)
    requires h.cipher.Aead? && |record| >= HEADER_LEN + h.cipher.nonceLen
  {
    && t != 0 && |Spelled(d, t, zeros)| <= MAX_PLAINTEXT + 1
    && h.cipher.open(NonceOf(h, record), sealed, DataWith(h, record, 0)) == Some(Spelled(d, t, zeros))
  }

  lemma UnwrappedIff(h: Half, record: bytes, p: bytes, d: bytes, t: byte)
    requires |record| >= HEADER_LEN && h.version == TLS13
    ensures var o := Unwrapped(h, record, p);
            o.Plain? && o.data == d && o.typ == t <==> record[0] == APPLICATION_DATA && SaysPlain(p, d, t)
  {
    hide ReadAfter;
    var i := LastNonzero(p);
    if record[0] == APPLICATION_DATA && |p| <= MAX_PLAINTEXT + 1 {
      if p == [] {
        if d == [] && t == APPLICATION_DATA { assert p == Spelled(d, t, -1); }
      } else if i >= 0 && d == p[..i] && t == p[i] {
        assert p == Spelled(d, t, |p| - 1 - i);
      }
      if SaysPlain(p, d, t) {
        var zeros :| p == Spelled(d, t, zeros);
        if p != [] {
          assert p[|d|] == t && forall j :: |d| < j < |p| ==> p[j] == 0;
          assert i == |d|;
          assert p[..i] == d;
        }
      }
    }
  }

  /** What sealing writes: the header says type, version and length, and the body deciphers, or opens under
      the nonce and the additional data of this sequence number, to the payload with its tag or its type. */
  lemma Sealed(h: Half, typ: byte, vers: nat, payload: bytes, iv: bytes)
    requires Good(h) && vers < 0x10000 && (h.cipher.Cbc? ==> |iv| == ExplicitNonceLen(h))
    requires |Body(h, typ, vers, payload, iv)| < 0x10000
    ensures var r := Record(h, typ, vers, payload, iv);
            var first3, body := [typ] + Be(vers, 2), r[HEADER_LEN..];
            && |r| >= HEADER_LEN && r[0] == (if h.version == TLS13 && h.cipher.Aead? then APPLICATION_DATA else typ)
            && Value(r[1..3]) == vers && Value(r[3..5]) == |r| - HEADER_LEN
            && match h.cipher
               case NoCipher => body == payload
               case Stream(key, pos) => Keyed(key, pos, body) == payload + Tag(h, first3, payload)
               case Cbc(blockSize, enc, dec, chained) =>
                 var n := if h.version >= TLS11 then blockSize else 0;
                 && |body| >= n && body[..n] == iv && |body| % blockSize == 0
                 && exists k :: 0 < k <= blockSize
                      && dec(if n > 0 then iv else chained, body[n..]) == payload + Tag(h, first3, payload) + PadBytes(k)
               case Aead(nonceLen, overhead, seal, open) =>
                 && |body| >= nonceLen && (nonceLen > 0 ==> body[..nonceLen] == Be(h.num, 8))
                 && open(Be(h.num, 8), body[nonceLen..], if h.version == TLS13 then r[..HEADER_LEN] else Be(h.num, 8) + first3 + Be(|payload|, 2))
                    == Some(if h.version == TLS13 then payload + [typ] else payload)
  {
    var body := Body(h, typ, vers, payload, iv);
    HeaderParts(OuterType(h, typ), vers, |body|, body);
    HeaderNumbers(OuterType(h, typ), vers, |body|, body);
    match h.cipher
    case NoCipher =>
    case Stream(key, pos) =>
      KeyedTwice(key, pos, Tagged(h, typ, vers, payload));
      TagOf(h, typ, vers, payload);
    case Cbc(blockSize, enc, dec, chained) =>
      SealedCbc(h, typ, vers, payload, iv);
    case Aead(nonceLen, overhead, seal, open) =>
      SealedAead(h, typ, vers, payload, iv);
  }

  lemma HeaderNumbers(typ: byte, vers: nat, n: nat, body: bytes)
    requires vers < 0x10000 && n < 0x10000
    ensures var r := Header(typ, vers, n) + body; r[0] == typ && Value(r[1..3]) == vers && Value(r[3..5]) == n && r[HEADER_LEN..] == body
  {
    var r := Header(typ, vers, n) + body;
    assert r[1..3] == Be(vers, 2) && r[3..5] == Be(n, 2);
    PowerTwo();
    ValueBe(vers, 2);
    ValueBe(n, 2);
  }

  lemma PowerTwo()
    ensures Power(2) == 0x10000
  {
    assert Power(0) == 1 && Power(1) == 256 * Power(0) && Power(2) == 256 * Power(1);
  }

  lemma TagOf(h: Half, typ: byte, vers: nat, payload: bytes)
    requires h.mac.Mac?
    ensures Tagged(h, typ, vers, payload) == payload + Tag(h, [typ] + Be(vers, 2), payload)
  {
    hide Be;
    assert Header(typ, vers, |payload|) == [typ] + Be(vers, 2) + Be(|payload|, 2);
  }

  lemma SealedCbc(h: Half, typ: byte, vers: nat, payload: bytes, iv: bytes)
    requires Good(h) && h.cipher.Cbc? && |iv| == ExplicitNonceLen(h)
    ensures var body, first3 := Body(h, typ, vers, payload, iv), [typ] + Be(vers, 2);
            var n := if h.version >= TLS11 then h.cipher.blockSize else 0;
            && |body| >= n && body[..n] == iv && |body| % h.cipher.blockSize == 0
            && exists k :: 0 < k <= h.cipher.blockSize
                 && h.cipher.dec(if n > 0 then iv else h.cipher.iv, body[n..]) == payload + Tag(h, first3, payload) + PadBytes(k)
  {
    var blockSize, t := h.cipher.blockSize, Tagged(h, typ, vers, payload);
    var p, body := Padded(t, blockSize), Body(h, typ, vers, payload, iv);
    TagOf(h, typ, vers, payload);
    CbcBody(h, typ, vers, payload, iv);
    CbcFacts(h, typ, vers, payload, iv);
    var k := PadLen(|t|, blockSize);
    assert p == t + PadBytes(k);
    BlocksAdd(|p|, |iv|, blockSize);
    BodyCbc(h, typ, vers, payload, iv);
    hide Tagged, Body, Padded, PadLen, Tag, PadBytes, Good, Header, Be;
    if |iv| > 0 {
      assert h.cipher.dec(iv, body[|iv|..]) == p;
    } else {
      assert body[0..] == body && body[..0] == iv;
      assert h.cipher.dec(h.cipher.iv, body) == p;
    }
  }

  lemma BodyCbc(h: Half, typ: byte, vers: nat, payload: bytes, iv: bytes)
    requires Good(h) && h.cipher.Cbc? && |iv| == ExplicitNonceLen(h)
    ensures var body := Body(h, typ, vers, payload, iv); |body| >= |iv| && body[..|iv|] == iv
    ensures |iv| == if h.version >= TLS11 then h.cipher.blockSize else 0
  {
    hide Padded, Tagged;
  }

  lemma SealedAead(h: Half, typ: byte, vers: nat, payload: bytes, iv: bytes)
    requires Good(h) && h.cipher.Aead?
    ensures var r := Record(h, typ, vers, payload, iv);
            var first3, body, nonceLen := [typ] + Be(vers, 2), Body(h, typ, vers, payload, iv), h.cipher.nonceLen;
            && |body| >= nonceLen && (nonceLen > 0 ==> body[..nonceLen] == Be(h.num, 8)) && r[HEADER_LEN..] == body
            && h.cipher.open(Be(h.num, 8), body[nonceLen..], if h.version == TLS13 then r[..HEADER_LEN] else Be(h.num, 8) + first3 + Be(|payload|, 2))
               == Some(if h.version == TLS13 then payload + [typ] else payload)
  {
    var body := Body(h, typ, vers, payload, iv);
    HeaderParts(OuterType(h, typ), vers, |body|, body);
    hide Be, Power;
    if h.version != TLS13 {
      var nonce := if h.cipher.nonceLen == 0 then [] else Be(h.num, 8);
      var ad := Be(h.num, 8) + Header(typ, vers, |payload|);
      assert ad == Be(h.num, 8) + ([typ] + Be(vers, 2)) + Be(|payload|, 2);
      var sealed := h.cipher.seal(Be(h.num, 8), payload, ad);
      assert body == nonce + sealed && body[|nonce|..] == sealed;
    } else {
      assert body[0..] == body;
    }
  }

  // ----- from record to record

  /** A record moves the state on: the sequence number by one, the key stream by the length of the body, and
      the last block of the body is the next initialisation vector. Nothing else changes. */
  lemma Moved(h: Half, body: bytes)
    requires Good(h)
    ensures var r := ReadAfter(h, body);
            && r.num == h.num + 1 && r.version == h.version && r.mac == h.mac
            && match h.cipher
               case NoCipher => r.cipher == NoCipher
               case Stream(key, pos) => r.cipher == Stream(key, pos + |body|)
               case Cbc(n, enc, dec, iv) => |body| >= n ==> r.cipher == Cbc(n, enc, dec, body[|body| - n..])
               case Aead(_, _, _, _) => r.cipher == h.cipher
    ensures WriteAfter(h, body) == if h.cipher.NoCipher? then h else ReadAfter(h, body)
  {
  }

  /** The states of a writer from record to record. */
  ghost predicate Writes(hs: seq<Half>, bodies: seq<bytes>) {
    |hs| == |bodies| + 1 && forall i :: 0 <= i < |bodies| ==> Good(hs[i]) && hs[i + 1] == WriteAfter(hs[i], bodies[i])
  }

  lemma {:induction false} Counted(hs: seq<Half>, bodies: seq<bytes>, i: nat)
    requires Writes(hs, bodies) && i < |hs| && !hs[0].cipher.NoCipher?
    ensures hs[i].num == hs[0].num + i && !hs[i].cipher.NoCipher?
  {
    if i > 0 {
      Counted(hs, bodies, i - 1);
      Moved(hs[i - 1], bodies[i - 1]);
    }
  }

  /** Under one key no sequence number, and so no nonce, is used for two records. */
  lemma NoncesDiffer(hs: seq<Half>, bodies: seq<bytes>, i: nat, j: nat)
    requires Writes(hs, bodies) && i < j < |bodies| && !hs[0].cipher.NoCipher?
    ensures Be(hs[i].num, 8) != Be(hs[j].num, 8) && Value(Be(hs[j].num, 8)) == hs[0].num + j
  {
    Counted(hs, bodies, i);
    Counted(hs, bodies, j);
    ValueBe(hs[i].num, 8);
    ValueBe(hs[j].num, 8);
  }
}
