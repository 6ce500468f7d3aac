/**
  One direction of the TLS record layer, `halfConn` of `conn.go`. The ciphers and the MAC are
  values of function type; all that is asked of them is that opening undoes sealing.
*/
module TlsRecord {
  import opened Wire
  import opened TlsPadding

  const TLS10: nat := 0x0301
  const TLS11: nat := 0x0302
  const TLS12: nat := 0x0303
  const TLS13: nat := 0x0304

  const CHANGE_CIPHER_SPEC: byte := 20
  const APPLICATION_DATA: byte := 23

  const HEADER_LEN: nat := 5
  const MAX_PLAINTEXT: nat := 16384
  const MAX_CIPHERTEXT: nat := 16384 + 2048
  const MAX_CIPHERTEXT_13: nat := 16384 + 256

  datatype Alert = BadRecordMac | RecordOverflow | UnexpectedMessage | DecodeError | InternalError

  /** `hc.cipher`, with whatever changes from record to record: the place in the key stream, or the
      chaining value. */
  datatype Cipher =
    | NoCipher
    | Stream(key: nat -> byte, pos: nat)
    | Cbc(blockSize: nat, enc: (bytes, bytes) -> bytes, dec: (bytes, bytes) -> bytes, iv: bytes)
    | Aead(nonceLen: nat, overhead: nat, seal: (bytes, bytes, bytes) -> bytes, open: (bytes, bytes, bytes) -> Option<bytes>)

  /** `hc.mac`: the tag of a sequence number, a header and some data. */
  datatype Mac = NoMac | Mac(size: nat, tag: (bytes, bytes, bytes) -> bytes)

  /** The state of a half connection as a value; `num` is the sequence number. */
  datatype Half = Half(version: nat, cipher: Cipher, mac: Mac, num: nat)

  /** What the key schedule ever installs: block and stream ciphers with a MAC, AEADs without one
      and with either an 8-byte explicit nonce or, in TLS 1.3 always, none. */
  ghost predicate Installed(version: nat, c: Cipher, mac: Mac) {
    match c
    case NoCipher => mac == NoMac
    case Stream(_, _) => version < TLS13 && mac.Mac? && 0 < mac.size <= 64
    case Cbc(blockSize, _, _, iv) => version < TLS13 && mac.Mac? && 0 < mac.size <= 64 && (blockSize == 8 || blockSize == 16) && |iv| == blockSize
    case Aead(nonceLen, overhead, _, _) =>
      && version <= TLS13 && mac == NoMac && 0 < overhead <= 24 && (nonceLen == 0 || nonceLen == 8) && (version == TLS13 ==> nonceLen == 0)
  }

  ghost predicate Sound(c: Cipher, mac: Mac) {
    && (mac.Mac? ==> forall n, h, d :: |mac.tag(n, h, d)| == mac.size)
    && match c
       case NoCipher => true
       case Stream(_, _) => true
       case Cbc(blockSize, enc, dec, _) =>
         && (forall iv, p :: |enc(iv, p)| == |p| && dec(iv, enc(iv, p)) == p)
         && (forall iv, p :: |dec(iv, p)| == |p|)
       case Aead(_, overhead, seal, open) =>
         && (forall n, p, ad :: |seal(n, p, ad)| == |p| + overhead && open(n, seal(n, p, ad), ad) == Some(p))
         && (forall n, p, ad :: open(n, p, ad).Some? ==> |p| >= overhead && |open(n, p, ad).value| == |p| - overhead)
  }

  ghost predicate Good(h: Half) {
    Installed(h.version, h.cipher, h.mac) && Sound(h.cipher, h.mac) && h.num < Power(8)
  }

  // ----- sealing, as a value

  function Header(typ: byte, vers: nat, n: nat): (r: bytes)
    ensures |r| == HEADER_LEN
  {
    [typ] + Be(vers, 2) + Be(n, 2)
  }

  function ExplicitNonceLen(h: Half): (n: nat) {
    match h.cipher
    case NoCipher => 0
    case Stream(_, _) => 0
    case Cbc(blockSize, _, _, _) => if h.version >= TLS11 then blockSize else 0
    case Aead(nonceLen, _, _, _) => nonceLen
  }

  function Keyed(key: nat -> byte, pos: nat, s: bytes): (r: bytes)
    ensures |r| == |s|
  {
    seq(|s|, i requires 0 <= i < |s| => Xor(s[i], key(pos + i)))
  }

  /** Padding to a whole number of blocks, at least one byte, each byte one less than their number. */
  function PadLen(n: nat, blockSize: nat): (k: nat)
    requires blockSize == 8 || blockSize == 16
    ensures 0 < k <= blockSize && (n + k) % blockSize == 0
  {
    Pad8(n);
    Pad16(n);
    if blockSize == 8 then 8 - n % 8 else 16 - n % 16
  }

  lemma Pad8(n: nat)
    ensures (n + (8 - n % 8)) % 8 == 0
  {
  }

  lemma Pad16(n: nat)
    ensures (n + (16 - n % 16)) % 16 == 0
  {
  }

  function Padded(s: bytes, blockSize: nat): (r: bytes)
    requires blockSize == 8 || blockSize == 16
    ensures |r| == |s| + PadLen(|s|, blockSize)
  {
    s + seq(PadLen(|s|, blockSize), _ => (PadLen(|s|, blockSize) - 1) as byte)
  }

  /** The payload and its MAC. */
  function Tagged(h: Half, typ: byte, vers: nat, payload: bytes): (r: bytes)
    requires h.mac.Mac?
  {
    payload + h.mac.tag(Be(h.num, 8), Header(typ, vers, |payload|), payload)
  }

  /** What follows the header of a record that carries `payload`; `iv` is drawn at random where the
      cipher needs an explicit one. */
  function Body(h: Half, typ: byte, vers: nat, payload: bytes, iv: bytes): (r: bytes)
    requires Installed(h.version, h.cipher, h.mac)
  {
    match h.cipher
    case NoCipher => payload
    case Stream(key, pos) => Keyed(key, pos, Tagged(h, typ, vers, payload))
    case Cbc(blockSize, enc, _, chained) =>
      var p := Padded(Tagged(h, typ, vers, payload), blockSize);
      if h.version >= TLS11 then iv + enc(iv, p) else enc(chained, p)
    case Aead(nonceLen, overhead, seal, _) =>
      if h.version == TLS13 then
        var p := payload + [typ];
        seal(Be(h.num, 8), p, Header(APPLICATION_DATA, vers, |p| + overhead))
      else
        (if nonceLen == 0 then [] else Be(h.num, 8))
        + seal(Be(h.num, 8), payload, Be(h.num, 8) + Header(typ, vers, |payload|))
  }

  function OuterType(h: Half, typ: byte): (r: byte) {
    if h.version == TLS13 && h.cipher.Aead? then APPLICATION_DATA else typ
  }

  function Record(h: Half, typ: byte, vers: nat, payload: bytes, iv: bytes): (r: bytes)
    requires Installed(h.version, h.cipher, h.mac)
  {
    var body := Body(h, typ, vers, payload, iv);
    Header(OuterType(h, typ), vers, |body|) + body
  }

  function LastBytes(s: bytes, n: nat): (r: bytes) {
    if |s| < n then s else s[|s| - n..]
  }

  /** The cipher once it has worked off a record with this body. */
  function Advanced(c: Cipher, body: bytes): (r: Cipher) {
    match c
    case NoCipher => c
    case Stream(key, pos) => Stream(key, pos + |body|)
    case Cbc(blockSize, enc, dec, _) => Cbc(blockSize, enc, dec, LastBytes(body, blockSize))
    case Aead(_, _, _, _) => c
  }

  /** A reader counts every record. */
  function ReadAfter(h: Half, body: bytes): (r: Half) {
    h.(cipher := Advanced(h.cipher, body), num := h.num + 1)
  }

  /** A writer does not count the ones it sends in the clear. */
  function WriteAfter(h: Half, body: bytes): (r: Half) {
    if h.cipher.NoCipher? then h else ReadAfter(h, body)
  }

  // ----- opening, as a value

  datatype Opening = Plain(data: bytes, typ: byte, half: Half) | Fail(alert: Alert)

  /** The type of a TLS 1.3 record is its last byte that is not zero. */
  function LastNonzero(s: bytes): (i: int)
    ensures -1 <= i < |s| && (i >= 0 ==> s[i] != 0) && forall j :: i < j < |s| ==> s[j] == 0
  {
    if s == [] then -1 else if s[|s| - 1] != 0 then |s| - 1 else LastNonzero(s[..|s| - 1])
  }

  /** The MAC check that ends the opening of a stream or block cipher record. */
  function Checked(h: Half, record: bytes, p: bytes, padding: nat, paddingOk: bool): (r: Opening)
    requires |record| >= HEADER_LEN && h.mac.Mac?
  {
    if |p| < h.mac.size then Fail(BadRecordMac)
    else
      var n := if |p| - h.mac.size - padding < 0 then 0 else |p| - h.mac.size - padding;
      var tag := h.mac.tag(Be(h.num, 8), record[..3] + Be(n, 2), p[..n]);
      if paddingOk && tag == p[n..n + h.mac.size]
      then Plain(p[..n], record[0], ReadAfter(h, record[HEADER_LEN..]))
      else Fail(BadRecordMac)
  }

  function RoundUp(a: nat, b: nat): (r: nat)
    requires b > 0
    ensures r >= a
  {
    a + (b - a % b) % b
  }

  /** The body of a CBC record has whole blocks, and enough of them. */
  predicate WholeBlocks(h: Half, payload: bytes)
    requires h.cipher.Cbc? && h.cipher.blockSize > 0 && h.mac.Mac?
  {
    |payload| % h.cipher.blockSize == 0 && |payload| >= ExplicitNonceLen(h) + RoundUp(h.mac.size + 1, h.cipher.blockSize)
  }

  function Deciphered(h: Half, payload: bytes): (p: bytes)
    requires h.cipher.Cbc? && |payload| >= ExplicitNonceLen(h)
  {
    var explicit := ExplicitNonceLen(h);
    if explicit > 0 then h.cipher.dec(payload[..explicit], payload[explicit..]) else h.cipher.dec(h.cipher.iv, payload)
  }

  function OpenedCbc(h: Half, record: bytes): (r: Opening)
    requires |record| >= HEADER_LEN && Good(h) && h.cipher.Cbc?
  {
    var payload := record[HEADER_LEN..];
    if !WholeBlocks(h, payload) then Fail(BadRecordMac)
    else
      var p := Deciphered(h, payload);
      var ok := PaddingOk(p);
      Checked(h, record, p, if ok then p[|p| - 1] as int + 1 else 1, ok)
  }

  lemma CbcInstalled(h: Half)
    requires Good(h) && h.cipher.Cbc?
    ensures h.mac.Mac? && h.cipher.blockSize > 0
  {
  }

  /** What a record with whole blocks deciphers to, and that the cipher can go on. */
  lemma CbcParts(h: Half, payload: bytes)
    requires Good(h) && h.cipher.Cbc? && WholeBlocks(h, payload) && |payload| <= 0xFFFF
    ensures 0 < |Deciphered(h, payload)| <= 0xFFFF && Good(h.(cipher := Advanced(h.cipher, payload)))
  {
    hide Power;
  }

  lemma CbcOpened(h: Half, record: bytes)
    requires |record| >= HEADER_LEN && Good(h) && h.cipher.Cbc? && WholeBlocks(h, record[HEADER_LEN..])
    ensures var p := Deciphered(h, record[HEADER_LEN..]);
            OpenedCbc(h, record) == Checked(h, record, p, if PaddingOk(p) then p[|p| - 1] as int + 1 else 1, PaddingOk(p))
  {
    hide Sound, Checked, PaddingOk, Deciphered, Power;
  }

  function OpenedAead(h: Half, record: bytes): (r: Opening)
    requires |record| >= HEADER_LEN && Good(h) && h.cipher.Aead?
  {
    var c, payload := h.cipher, record[HEADER_LEN..];
    if |payload| < c.nonceLen then Fail(BadRecordMac)
    else
      var nonce := if c.nonceLen == 0 then Be(h.num, 8) else payload[..c.nonceLen];
      var sealed := payload[c.nonceLen..];
      var ad := if h.version == TLS13 then record[..HEADER_LEN]
                else Be(h.num, 8) + record[..3] + Be(if |sealed| >= c.overhead then |sealed| - c.overhead else 0x10000 + |sealed| - c.overhead, 2);
      match c.open(nonce, sealed, ad)
      case None => Fail(BadRecordMac)
      case Some(p) => Unwrapped(h, record, p)
  }

  /** What a record says whose plaintext is `p`: in TLS 1.3 its type is inside. */
  function Unwrapped(h: Half, record: bytes, p: bytes): (r: Opening)
    requires |record| >= HEADER_LEN
  {
    var after := ReadAfter(h, record[HEADER_LEN..]);
    if h.version != TLS13 then Plain(p, record[0], after)
    else if record[0] != APPLICATION_DATA then Fail(UnexpectedMessage)
    else if |p| > MAX_PLAINTEXT + 1 then Fail(RecordOverflow)
    else if p == [] then Plain(p, record[0], after)
    else if LastNonzero(p) < 0 then Fail(UnexpectedMessage)
    else Plain(p[..LastNonzero(p)], p[LastNonzero(p)], after)
  }

  /** What a record says to a reader in state `h`. */
  function Opened(h: Half, record: bytes): (r: Opening)
    requires |record| >= HEADER_LEN && Good(h)
  {
    if h.version == TLS13 && record[0] == CHANGE_CIPHER_SPEC then Plain(record[HEADER_LEN..], record[0], h)
    else
      match h.cipher
      case NoCipher => Plain(record[HEADER_LEN..], record[0], ReadAfter(h, record[HEADER_LEN..]))
      case Stream(key, pos) => Checked(h, record, Keyed(key, pos, record[HEADER_LEN..]), 0, true)
      case Cbc(_, _, _, _) => OpenedCbc(h, record)
      case Aead(_, _, _, _) => OpenedAead(h, record)
  }

  // ----- opening undoes sealing

  lemma KeyedTwice(key: nat -> byte, pos: nat, s: bytes)
    ensures Keyed(key, pos, Keyed(key, pos, s)) == s
  {
    forall i | 0 <= i < |s| ensures Keyed(key, pos, Keyed(key, pos, s))[i] == s[i] {
      XorTwice(s[i], key(pos + i));
    }
  }

  lemma HeaderParts(typ: byte, vers: nat, n: nat, body: bytes)
    ensures var r := Header(typ, vers, n) + body;
            && |r| == HEADER_LEN + |body| && r[0] == typ && r[HEADER_LEN..] == body && r[..HEADER_LEN] == Header(typ, vers, n)
            && forall m: nat :: r[..3] + Be(m, 2) == Header(typ, vers, m)
  {
    var r := Header(typ, vers, n) + body;
    assert r[..3] == [typ] + Be(vers, 2);
  }

  /** A tagged payload, with the right padding to take off, passes the MAC check. */
  lemma CheckedTagged(h: Half, typ: byte, vers: nat, n: nat, payload: bytes, body: bytes, p: bytes, padding: nat)
    requires Good(h) && h.mac.Mac? && |p| == |payload| + h.mac.size + padding
    requires p[..|payload| + h.mac.size] == Tagged(h, typ, vers, payload)
    ensures Checked(h, Header(typ, vers, n) + body, p, padding, true) == Plain(payload, typ, ReadAfter(h, body))
  {
    HeaderParts(typ, vers, n, body);
    var t := Tagged(h, typ, vers, payload);
    assert p[..|payload|] == t[..|payload|] == payload;
    assert p[|payload|..|payload| + h.mac.size] == t[|payload|..];
  }

  /** The padding that sealing adds is good, and its last byte gives its length. */
  lemma PaddedOk(s: bytes, blockSize: nat)
    requires blockSize == 8 || blockSize == 16
    ensures var p, k := Padded(s, blockSize), PadLen(|s|, blockSize);
            PaddingOk(p) && p[|p| - 1] as int + 1 == k && p[..|s|] == s
  {
  }

  lemma RoundUpLeast(a: nat, b: nat, x: nat)
    requires (b == 8 || b == 16) && x % b == 0 && x >= a
    ensures RoundUp(a, b) <= x
  {
    if b == 8 {
      Up8(a, x);
    } else {
      Up16(a, x);
    }
  }

  lemma Up8(a: nat, x: nat)
    requires x % 8 == 0 && x >= a
    ensures a + (8 - a % 8) % 8 <= x
  {
  }

  lemma Up16(a: nat, x: nat)
    requires x % 16 == 0 && x >= a
    ensures a + (16 - a % 16) % 16 <= x
  {
  }

  lemma BlocksAdd(x: nat, explicit: nat, blockSize: nat)
    requires (blockSize == 8 || blockSize == 16) && x % blockSize == 0
    requires explicit == 0 || explicit == blockSize
    ensures (x + explicit) % blockSize == 0
  {
    if blockSize == 8 {
      assert x % 8 == 0 ==> (x + 8) % 8 == 0;
    } else {
      assert x % 16 == 0 ==> (x + 16) % 16 == 0;
    }
  }

  lemma CbcLength(n: nat, size: nat, explicit: nat, blockSize: nat)
    requires blockSize == 8 || blockSize == 16
    requires explicit == 0 || explicit == blockSize
    ensures var m := n + size + PadLen(n + size, blockSize) + explicit;
            m % blockSize == 0 && m >= explicit + RoundUp(size + 1, blockSize)
  {
    hide PadLen, RoundUp;
    var x := n + size + PadLen(n + size, blockSize);
    RoundUpLeast(size + 1, blockSize, x);
    BlocksAdd(x, explicit, blockSize);
  }

  /** What the body of a sealed CBC record looks like to the reader. */
  lemma CbcBody(h: Half, typ: byte, vers: nat, payload: bytes, iv: bytes)
    requires Good(h) && h.cipher.Cbc? && |iv| == ExplicitNonceLen(h)
    ensures var body, t := Body(h, typ, vers, payload, iv), Tagged(h, typ, vers, payload);
            var p := Padded(t, h.cipher.blockSize);
            && |body| == |iv| + |p| && |t| == |payload| + h.mac.size
            && (|iv| > 0 ==> h.cipher.dec(body[..|iv|], body[|iv|..]) == p)
            && (|iv| == 0 ==> h.cipher.dec(h.cipher.iv, body) == p)
  {
    var body, t := Body(h, typ, vers, payload, iv), Tagged(h, typ, vers, payload);
    var p := Padded(t, h.cipher.blockSize);
    hide Padded, PadLen, Tagged, Header;
    if |iv| > 0 {
      assert body[..|iv|] == iv && body[|iv|..] == h.cipher.enc(iv, p);
    }
  }

  lemma OpenSealedCbc(h: Half, typ: byte, vers: nat, payload: bytes, iv: bytes)
    requires Good(h) && h.cipher.Cbc? && |iv| == ExplicitNonceLen(h)
    ensures Opened(h, Record(h, typ, vers, payload, iv)) == Plain(payload, typ, ReadAfter(h, Body(h, typ, vers, payload, iv)))
  {
    hide *;
    CbcFacts(h, typ, vers, payload, iv);
    var body := Body(h, typ, vers, payload, iv);
    var t := Tagged(h, typ, vers, payload);
    CbcBody(h, typ, vers, payload, iv);
    var p := Padded(t, h.cipher.blockSize);
    HeaderParts(typ, vers, |body|, body);
    PaddedOk(t, h.cipher.blockSize);
    CbcLength(|payload|, h.mac.size, |iv|, h.cipher.blockSize);
    CheckedTagged(h, typ, vers, |body|, payload, body, p, |p| - |t|);
    OpenedCbcTo(h, Header(typ, vers, |body|) + body, p);
  }

  lemma CbcFacts(h: Half, typ: byte, vers: nat, payload: bytes, iv: bytes)
    requires Good(h) && h.cipher.Cbc?
    ensures Installed(h.version, h.cipher, h.mac) && h.mac.Mac? && (h.cipher.blockSize == 8 || h.cipher.blockSize == 16)
    ensures ExplicitNonceLen(h) == 0 || ExplicitNonceLen(h) == h.cipher.blockSize
    ensures Record(h, typ, vers, payload, iv) == Header(typ, vers, |Body(h, typ, vers, payload, iv)|) + Body(h, typ, vers, payload, iv)
  {
  }

  /** A record of whole blocks that decrypts to `p`, with good padding, is left to the MAC check. */
  lemma OpenedCbcTo(h: Half, record: bytes, p: bytes)
    requires Good(h) && h.cipher.Cbc? && |record| >= HEADER_LEN && PaddingOk(p) && h.cipher.blockSize > 0
    requires var body, n := record[HEADER_LEN..], ExplicitNonceLen(h);
             && |body| % h.cipher.blockSize == 0 && |body| >= n + RoundUp(h.mac.size + 1, h.cipher.blockSize)
             && (n > 0 ==> h.cipher.dec(body[..n], body[n..]) == p)
             && (n == 0 ==> h.cipher.dec(h.cipher.iv, body) == p)
    ensures Opened(h, record) == Checked(h, record, p, p[|p| - 1] as int + 1, true)
  {
    hide PaddingOk, Checked, RoundUp, Be, Sound;
  }

  lemma OpenSealedAead(h: Half, typ: byte, vers: nat, payload: bytes, iv: bytes)
    requires Good(h) && h.cipher.Aead? && |payload| <= MAX_PLAINTEXT
    requires h.version == TLS13 ==> typ != 0
    ensures Opened(h, Record(h, typ, vers, payload, iv)) == Plain(payload, typ, ReadAfter(h, Body(h, typ, vers, payload, iv)))
  {
    var body := Body(h, typ, vers, payload, iv);
    HeaderParts(OuterType(h, typ), vers, |body|, body);
    hide Header, Be;
    if h.version == TLS13 {
      var p := payload + [typ];
      assert LastNonzero(p) == |payload| && p[..|payload|] == payload;
    } else {
      var nonce := if h.cipher.nonceLen == 0 then [] else Be(h.num, 8);
      var sealed := h.cipher.seal(Be(h.num, 8), payload, Be(h.num, 8) + Header(typ, vers, |payload|));
      assert body == nonce + sealed;
      assert body[..|nonce|] == nonce && body[|nonce|..] == sealed;
      var r := Record(h, typ, vers, payload, iv);
      assert Be(h.num, 8) + r[..3] + Be(|payload|, 2) == Be(h.num, 8) + (r[..3] + Be(|payload|, 2));
    }
  }

  /** With matching state, a reader gets back the payload and the type of every record, whatever the
      cipher. In TLS 1.3 the type must not be zero, which reads as padding. */
  lemma OpenSealed(h: Half, typ: byte, vers: nat, payload: bytes, iv: bytes)
    requires Good(h) && |payload| <= MAX_PLAINTEXT && (h.cipher.Cbc? ==> |iv| == ExplicitNonceLen(h))
    requires h.version == TLS13 && h.cipher.Aead? ==> typ != 0
    ensures var r := Opened(h, Record(h, typ, vers, payload, iv));
            && r.Plain? && r.data == payload && r.typ == typ
            && ((h.version == TLS13 && h.cipher.NoCipher? && typ == CHANGE_CIPHER_SPEC) || r.half == ReadAfter(h, Body(h, typ, vers, payload, iv)))
  {
    match h.cipher
    case NoCipher =>
      HeaderParts(typ, vers, |payload|, payload);
    case Stream(key, pos) =>
      var body := Body(h, typ, vers, payload, iv);
      HeaderParts(typ, vers, |body|, body);
      KeyedTwice(key, pos, Tagged(h, typ, vers, payload));
      CheckedTagged(h, typ, vers, |body|, payload, body, Tagged(h, typ, vers, payload), 0);
    case Cbc(_, _, _, _) =>
      OpenSealedCbc(h, typ, vers, payload, iv);
    case Aead(_, _, _, _) =>
      OpenSealedAead(h, typ, vers, payload, iv);
  }

  /** In TLS 1.3 a record of type zero never comes back as it was sent. */
  lemma ZeroTypeLost(h: Half, vers: nat, payload: bytes, iv: bytes)
    requires Good(h) && h.cipher.Aead? && h.version == TLS13 && |payload| <= MAX_PLAINTEXT
    ensures var r := Opened(h, Record(h, 0, vers, payload, iv)); r.Fail? || r.typ != 0
  {
    var body := Body(h, 0, vers, payload, iv);
    HeaderParts(APPLICATION_DATA, vers, |body|, body);
  }

  // ----- the half connection that the program updates

  datatype Outcome = Got(data: bytes, typ: byte) | Failed(alert: Alert) | Panicked

  class HalfConn {
    var version: nat
    var cipher: Cipher
    var mac: Mac
    const seqno: array<byte>
    var nextCipher: Cipher
    var nextMac: Mac

    ghost predicate Valid()
      reads this, seqno
    {
      seqno.Length == 8 && Good(Now())
    }

    ghost function Now(): (h: Half)
      reads this, seqno
    {
      Half(version, cipher, mac, Value(seqno[..]))
    }

    constructor (version: nat)
      ensures Valid() && fresh(seqno) && Now() == Half(version, NoCipher, NoMac, 0) && nextCipher == NoCipher && nextMac == NoMac
    {
      this.version := version;
      cipher, mac, nextCipher, nextMac := NoCipher, NoMac, NoCipher, NoMac;
      seqno := new byte[8](_ => 0);
      new;
      ZeroValue(seqno[..]);
      BeValue(seqno[..]);
    }

    /** `incSeq`: adds one to the big-endian counter; all ones wrap to zero, and that panics. */
    method IncSeq() returns (ok: bool)
      requires seqno.Length == 8
      modifies seqno
      ensures ok <==> Value(old(seqno[..])) + 1 < Power(8)
      ensures Value(seqno[..]) == if ok then Value(old(seqno[..])) + 1 else 0
    {
      ghost var s0 := seqno[..];
      var i := 7;
      while i >= 0
        invariant -1 <= i < 8 && seqno.Length == 8
        invariant forall j :: 0 <= j <= i ==> seqno[j] == s0[j]
        invariant forall j :: i < j < 8 ==> s0[j] == 255 && seqno[j] == 0
      {
        seqno[i] := if seqno[i] == 255 then 0 else seqno[i] + 1;
        if seqno[i] != 0 {
          Carried(s0, seqno[..], i);
          return true;
        }
        i := i - 1;
      }
      AllOnes(s0);
      ZeroValue(seqno[..]);
      return false;
    }

    /** What has been prepared, if anything, is fit to be installed. */
    ghost predicate Prepared()
      reads this
    {
      !nextCipher.NoCipher? ==> Installed(version, nextCipher, nextMac) && Sound(nextCipher, nextMac)
    }

    /** `changeCipherSpec`: the prepared cipher takes over and the records count from zero. */
    method Change() returns (ok: bool)
      requires Valid() && Prepared()
      modifies this, seqno
      ensures Valid() && Prepared()
      ensures ok <==> !old(nextCipher).NoCipher? && version != TLS13
      ensures ok ==> Now() == Half(old(version), old(nextCipher), old(nextMac), 0) && nextCipher == NoCipher && nextMac == NoMac
      ensures !ok ==> Now() == old(Now()) && nextCipher == old(nextCipher) && nextMac == old(nextMac)
      ensures version == old(version)
    {
      if nextCipher.NoCipher? || version == TLS13 {
        return false;
      }
      cipher, mac := nextCipher, nextMac;
      nextCipher, nextMac := NoCipher, NoMac;
      for i := 0 to 8
        modifies seqno
        invariant forall j :: 0 <= j < i ==> seqno[j] == 0
      {
        seqno[i] := 0;
      }
      ZeroValue(seqno[..]);
      BeValue(seqno[..]);
      return true;
    }

    /** The padding loop of the CBC case of `encrypt`. */
    method Pad(dst: bytes, blockSize: nat) returns (r: bytes)
      requires blockSize == 8 || blockSize == 16
      ensures r == Padded(dst, blockSize)
    {
      var paddingLen := PadLen(|dst|, blockSize);
      r := dst;
      var i := |dst|;
      while i < |dst| + paddingLen
        invariant |dst| <= i <= |dst| + paddingLen
        invariant r == dst + seq(i - |dst|, _ => (paddingLen - 1) as byte)
      {
        r := r + [(paddingLen - 1) as byte];
        i := i + 1;
      }
    }

    /** The ciphers of `encrypt`: what goes after the header, and the cipher moves on. */
    method Seal(record: bytes, payload: bytes, iv: bytes, ghost typ: byte, ghost vers: nat) returns (hdr: bytes, body: bytes)
      requires Valid() && record == Header(typ, vers, |payload|) && !cipher.NoCipher?
      requires cipher.Cbc? ==> |iv| == ExplicitNonceLen(Now())
      modifies this`cipher
      ensures body == Body(old(Now()), typ, vers, payload, iv)
      ensures |hdr| == HEADER_LEN && hdr[..3] == Header(OuterType(old(Now()), typ), vers, 0)[..3]
      ensures cipher == Advanced(old(cipher), body) && cipher.NoCipher? == old(cipher.NoCipher?)
    {
      hdr := record;
      BeValue(seqno[..]);
      var num := seqno[..];
      match cipher {
        case Stream(key, pos) =>
          var tag := mac.tag(num, record, payload);
          body := Keyed(key, pos, payload);
          body := body + Keyed(key, pos + |payload|, tag);
          KeyedConcat(key, pos, payload, tag);
          cipher := Stream(key, pos + |payload| + |tag|);
        case Cbc(blockSize, enc, dec, chained) =>
          var tag := mac.tag(num, record, payload);
          var dst := Pad(payload + tag, blockSize);
          if version >= TLS11 {
            body := enc(iv, dst);
            cipher := Cbc(blockSize, enc, dec, LastBytes(body, blockSize));
            LastOfConcat(iv, body, blockSize);
            body := iv + body;
          } else {
            body := enc(chained, dst);
            cipher := Cbc(blockSize, enc, dec, LastBytes(body, blockSize));
          }
        case Aead(nonceLen, overhead, seal, open) =>
          var explicit := if nonceLen == 0 then [] else num;
          if version == TLS13 {
            var p := payload + [record[0]];
            var n := |payload| + 1 + overhead;
            hdr := [APPLICATION_DATA] + record[1..3] + Be(n, 2);
            assert record[1..3] == Be(vers, 2);
            assert hdr == Header(APPLICATION_DATA, vers, n);
            body := seal(num, p, hdr);
          } else {
            body := explicit + seal(num, payload, num + record);
          }
      }
    }

    /** `encrypt`: the finished record, unless the sequence number is used up. */
    method Encrypt(record: bytes, payload: bytes, iv: bytes, ghost typ: byte, ghost vers: nat) returns (r: Option<bytes>)
      requires Valid() && record == Header(typ, vers, |payload|)
      requires cipher.Cbc? ==> |iv| == ExplicitNonceLen(Now())
      modifies this`cipher, seqno
      ensures r.None? <==> !old(cipher).NoCipher? && old(Now()).num + 1 == Power(8)
      ensures r.Some? ==>
                && Valid() && r.value == Record(old(Now()), typ, vers, payload, iv)
                && Now() == WriteAfter(old(Now()), Body(old(Now()), typ, vers, payload, iv))
    {
      if cipher.NoCipher? {
        return Some(record + payload);
      }
      var hdr, body := Seal(record, payload, iv, typ, vers);
      ghost var outer := OuterType(old(Now()), typ);
      var n := |body|;
      HeaderParts(outer, vers, 0, []);
      assert Header(outer, vers, 0) + [] == Header(outer, vers, 0);
      BeValue(seqno[..]);
      AdvancedGood(old(Now()), typ, vers, payload, iv);
      var ok := IncSeq();
      r := if ok then Some(hdr[..3] + Be(n, 2) + body) else None;
    }

    /** The end of `decrypt`, for ciphers with a MAC. */
    method CheckMac(record: bytes, payload: bytes, paddingLen: nat, paddingGood: byte, ghost h: Half) returns (r: Outcome)
      requires Valid() && HEADER_LEN <= |record| && mac.Mac?
      requires paddingGood == 0 || paddingGood == 255
      requires h == Now().(cipher := h.cipher) && cipher == Advanced(h.cipher, record[HEADER_LEN..])
      modifies seqno
      ensures Valid() && Agrees(Checked(h, record, payload, paddingLen, paddingGood == 255), r, Now())
    {
      BeValue(seqno[..]);
      if |payload| < mac.size {
        return Failed(BadRecordMac);
      }
      var n := |payload| - mac.size - paddingLen;
      n := if n < 0 then 0 else n;
      var remoteMac := payload[n..n + mac.size];
      var localMac := mac.tag(seqno[..], record[..3] + Be(n, 2), payload[..n]);
      if !(localMac == remoteMac && paddingGood != 0) {
        return Failed(BadRecordMac);
      }
      var ok := IncSeq();
      BeValue(seqno[..]);
      return if ok then Got(payload[..n], record[0]) else Panicked;
    }

    /** The scan for the content type of a TLS 1.3 record. */
    method InnerType(p: bytes) returns (i: int)
      ensures i == LastNonzero(p)
    {
      i := |p| - 1;
      while i >= 0 && p[i] == 0
        invariant -1 <= i < |p| && LastNonzero(p) == LastNonzero(p[..i + 1])
      {
        assert p[..i + 1][..i] == p[..i];
        i := i - 1;
      }
    }

    method DecryptAead(record: bytes) returns (r: Outcome)
      requires Valid() && HEADER_LEN <= |record| <= HEADER_LEN + 0xFFFF && cipher.Aead?
      modifies seqno
      ensures Valid() && Agrees(OpenedAead(old(Now()), record), r, Now())
    {
      BeValue(seqno[..]);
      var payload := record[HEADER_LEN..];
      if |payload| < cipher.nonceLen {
        return Failed(BadRecordMac);
      }
      var nonce := payload[..cipher.nonceLen];
      if |nonce| == 0 {
        nonce := seqno[..];
      }
      payload := payload[cipher.nonceLen..];
      var ad;
      if version == TLS13 {
        ad := record[..HEADER_LEN];
      } else {
        var n := |payload| - cipher.overhead;
        ad := seqno[..] + record[..3] + Be(if n >= 0 then n else 0x10000 + n, 2);
      }
      var unsealed := cipher.open(nonce, payload, ad);
      if unsealed.None? {
        return Failed(BadRecordMac);
      }
      r := Unwrap(record, unsealed.value);
    }

    /** The end of the AEAD case: in TLS 1.3 the padding is removed and the type found. */
    method Unwrap(record: bytes, p: bytes) returns (r: Outcome)
      requires Valid() && HEADER_LEN <= |record| && cipher.Aead?
      modifies seqno
      ensures Valid() && Agrees(Unwrapped(old(Now()), record, p), r, Now())
    {
      hide Sound;
      BeValue(seqno[..]);
      var plaintext, typ := p, record[0];
      if version == TLS13 {
        if typ != APPLICATION_DATA {
          return Failed(UnexpectedMessage);
        }
        if |plaintext| > MAX_PLAINTEXT + 1 {
          return Failed(RecordOverflow);
        }
        if |plaintext| > 0 {
          var i := InnerType(plaintext);
          if i < 0 {
            return Failed(UnexpectedMessage);
          }
          typ := plaintext[i];
          plaintext := plaintext[..i];
        }
      }
      var ok := IncSeq();
      BeValue(seqno[..]);
      return if ok then Got(plaintext, typ) else Panicked;
    }

    method DecryptCbc(record: bytes) returns (r: Outcome)
      requires Valid() && HEADER_LEN <= |record| <= HEADER_LEN + 0xFFFF && cipher.Cbc?
      modifies this`cipher, seqno
      ensures Valid() && Agrees(OpenedCbc(old(Now()), record), r, Now()) && cipher.Cbc?
    {
      hide Good, PaddingOk, Checked, Be, Value, RoundUp, Power, OpenedCbc, Agrees;
      ghost var h := Now();
      CbcInstalled(h);
      var payload := record[HEADER_LEN..];
      var blockSize := cipher.blockSize;
      var explicit := if version >= TLS11 then blockSize else 0;
      if |payload| % blockSize != 0 || |payload| < explicit + RoundUp(mac.size + 1, blockSize) {
        CbcRefused(h, record);
        return Failed(BadRecordMac);
      }
      CbcParts(h, payload);
      CbcOpened(h, record);
      var p;
      if explicit > 0 {
        p := cipher.dec(payload[..explicit], payload[explicit..]);
      } else {
        p := cipher.dec(cipher.iv, payload);
      }
      cipher := cipher.(iv := LastBytes(payload, blockSize));
      var paddingLen, paddingGood := ExtractPadding(p);
      ShortPayloads(p);
      r := CheckMac(record, p, paddingLen, paddingGood, h);
    }

    /** `decrypt`: agrees with what the record says. */
    method Decrypt(record: bytes) returns (r: Outcome)
      requires Valid() && HEADER_LEN <= |record| <= HEADER_LEN + 0xFFFF
      modifies this`cipher, seqno
      ensures Valid() && Agrees(Opened(old(Now()), record), r, Now()) && cipher.NoCipher? == old(cipher).NoCipher?
    {
      hide Sound, PaddingOk, Checked, OpenedCbc, OpenedAead, Value, Be;
      BeValue(seqno[..]);
      if version == TLS13 && record[0] == CHANGE_CIPHER_SPEC {
        return Got(record[HEADER_LEN..], record[0]);
      }
      match cipher {
        case NoCipher =>
          var ok := IncSeq();
          BeValue(seqno[..]);
          return if ok then Got(record[HEADER_LEN..], record[0]) else Panicked;
        case Stream(key, pos) =>
          ghost var h := Now();
          var payload := Keyed(key, pos, record[HEADER_LEN..]);
          StreamMoved(h, |payload|);
          cipher := Stream(key, pos + |payload|);
          r := CheckMac(record, payload, 0, 255, h);
        case Cbc(_, _, _, _) =>
          r := DecryptCbc(record);
        case Aead(_, _, _, _) =>
          r := DecryptAead(record);
      }
    }
  }

  /** The outcome of `decrypt` is what the record says; the reader's state has moved on with it, or
      its sequence number was used up. */
  ghost predicate Agrees(o: Opening, r: Outcome, h: Half) {
    match o
    case Fail(alert) => r == Failed(alert)
    case Plain(data, typ, half) => if half.num < Power(8) then r == Got(data, typ) && h == half else r == Panicked
  }

  lemma StreamMoved(h: Half, n: nat)
    requires Good(h) && h.cipher.Stream?
    ensures Good(h.(cipher := Stream(h.cipher.key, h.cipher.pos + n)))
  {
  }

  lemma CbcRefused(h: Half, record: bytes)
    requires |record| >= HEADER_LEN && Good(h) && h.cipher.Cbc? && !WholeBlocks(h, record[HEADER_LEN..])
    ensures Agrees(OpenedCbc(h, record), Failed(BadRecordMac), h)
  {
    hide Sound, Power;
  }

  lemma {:induction false} ZeroValue(s: bytes)
    requires forall j :: 0 <= j < |s| ==> s[j] == 0
    ensures Value(s) == 0
  {
    if s != [] {
      ZeroValue(s[..|s| - 1]);
    }
  }

  lemma {:induction false} AllOnes(s: bytes)
    requires forall j :: 0 <= j < |s| ==> s[j] == 255
    ensures Value(s) + 1 == Power(|s|)
  {
    if s != [] {
      AllOnes(s[..|s| - 1]);
    }
  }

  /** A carry out of trailing 255s. */
  lemma {:induction false} Carried(s: bytes, t: bytes, i: nat)
    requires |s| == |t| && i < |s| && t[i] == s[i] as int + 1
    requires forall j :: 0 <= j < i ==> t[j] == s[j]
    requires forall j :: i < j < |s| ==> s[j] == 255 && t[j] == 0
    ensures Value(t) == Value(s) + 1 && Value(s) + 1 < Power(|s|)
  {
    BeValue(t);
    if i == |s| - 1 {
      assert s[..|s| - 1] == t[..|s| - 1];
    } else {
      Carried(s[..|s| - 1], t[..|s| - 1], i);
    }
  }

  lemma KeyedConcat(key: nat -> byte, pos: nat, s: bytes, t: bytes)
    ensures Keyed(key, pos, s + t) == Keyed(key, pos, s) + Keyed(key, pos + |s|, t)
  {
    hide Xor;
  }

  lemma LastOfConcat(s: bytes, t: bytes, n: nat)
    requires |t| >= n
    ensures LastBytes(s + t, n) == LastBytes(t, n)
  {
  }

  /** A half connection stays good while it works. */
  lemma AdvancedGood(h: Half, typ: byte, vers: nat, payload: bytes, iv: bytes)
    requires Good(h) && (h.cipher.Cbc? ==> |iv| == ExplicitNonceLen(h))
    ensures var c := Advanced(h.cipher, Body(h, typ, vers, payload, iv)); Installed(h.version, c, h.mac) && Sound(c, h.mac)
  {
    if h.cipher.Cbc? { CbcBody(h, typ, vers, payload, iv); }
  }
}
