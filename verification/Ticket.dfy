/**
  Session states as bytes: `SessionState.Bytes` and `ParseSessionState` of `ticket.go`, with the nested
  certificate list of `handshake_messages.go`.
*/
module Ticket {
  import opened Wire
  import opened Cursor
  import TlsRecord

  const STATUS_REQUEST: nat := 5       // extensionStatusRequest
  const STATUS_OCSP: byte := 1         // statusTypeOCSP
  const SCT: nat := 18                // extensionSCT

  // ----- what is printed

  /** A leaf certificate and its chain, with the OCSP response and the certificate timestamps that came
      with the leaf; nil and empty lists of timestamps are different things. */
  datatype Certs = Certs(raw: seq<bytes>, ocsp: Option<bytes>, scts: Option<seq<bytes>>)

  datatype Session = Session(
    version: nat, isClient: bool, cipherSuite: nat, createdAt: nat, secret: bytes, extra: seq<bytes>,
    extMasterSecret: bool, earlyData: bool, certs: Certs, chains: seq<seq<bytes>>, alpn: bytes,
    useBy: nat, ageAdd: nat)

  function OcspExt(ocsp: Option<bytes>): (r: bytes) {
    match ocsp
    case None => []
    case Some(o) => Be(STATUS_REQUEST, 2) + Prefixed(2, [STATUS_OCSP] + Prefixed(3, o))
  }

  function SctExt(scts: Option<seq<bytes>>): (r: bytes) {
    match scts
    case None => []
    case Some(s) => Be(SCT, 2) + Prefixed(2, Prefixed(2, PrefixedAll(2, s)))
  }

  /** The certificates from the `i`-th on; only the leaf has extensions. */
  function Entries(c: Certs, i: nat): (r: bytes)
    requires i <= |c.raw|
    decreases |c.raw| - i
  {
    if i == |c.raw| then []
    else Prefixed(3, c.raw[i]) + Prefixed(2, if i == 0 then OcspExt(c.ocsp) + SctExt(c.scts) else []) + Entries(c, i + 1)
  }

  /** Chains are written without their leaf. */
  function ChainBytes(chains: seq<seq<bytes>>): (r: bytes)
    requires forall i :: 0 <= i < |chains| ==> chains[i] != []
  {
    if chains == [] then [] else Prefixed(3, PrefixedAll(3, chains[0][1..])) + ChainBytes(chains[1..])
  }

  function Flag(b: bool): (r: bytes) { if b then [1] else [0] }

  function HasLimits(s: Session): (b: bool) { s.isClient && s.version >= TlsRecord.TLS13 }

  /** The fields from each point on, to the end. */
  function Limits(s: Session): (r: bytes) { if HasLimits(s) then Be(s.useBy, 8) + Be(s.ageAdd, 4) else [] }

  function FromAlpn(s: Session): (r: bytes) { (if s.earlyData then Prefixed(1, s.alpn) else []) + Limits(s) }

  function FromChains(s: Session): (r: bytes)
    requires forall i :: 0 <= i < |s.chains| ==> s.chains[i] != []
  {
    Prefixed(3, ChainBytes(s.chains)) + FromAlpn(s)
  }

  function FromFlags(s: Session): (r: bytes)
    requires forall i :: 0 <= i < |s.chains| ==> s.chains[i] != []
  {
    Flag(s.extMasterSecret) + (Flag(s.earlyData) + (Prefixed(3, Entries(s.certs, 0)) + FromChains(s)))
  }

  function FromSecret(s: Session): (r: bytes)
    requires forall i :: 0 <= i < |s.chains| ==> s.chains[i] != []
  {
    Prefixed(1, s.secret) + (Prefixed(3, PrefixedAll(3, s.extra)) + FromFlags(s))
  }

  /** `Bytes`, when nothing overflows its length field. */
  function Printed(s: Session): (r: bytes)
    requires forall i :: 0 <= i < |s.chains| ==> s.chains[i] != []
  {
    Be(s.version, 2) + ((if s.isClient then [2] else [1]) + (Be(s.cipherSuite, 2) + (Be(s.createdAt, 8) + FromSecret(s))))
  }

  /** The encoding, field by field. */
  lemma Layout(s: Session)
    requires forall i :: 0 <= i < |s.chains| ==> s.chains[i] != []
    ensures var one := if s.isClient then 2 else 1;
            var rest := (if s.earlyData then Be(|s.alpn|, 1) + s.alpn else []) + (if s.isClient && s.version >= 0x0304 then Be(s.useBy, 8) + Be(s.ageAdd, 4) else []);
            var extra, certs, chains := PrefixedAll(3, s.extra), Entries(s.certs, 0), ChainBytes(s.chains);
            Printed(s) == Be(s.version, 2) + [one] + Be(s.cipherSuite, 2) + Be(s.createdAt, 8) + (Be(|s.secret|, 1) + s.secret)
                          + (Be(|extra|, 3) + extra) + [if s.extMasterSecret then 1 else 0] + [if s.earlyData then 1 else 0]
                          + (Be(|certs|, 3) + certs) + (Be(|chains|, 3) + chains) + rest
  {
    hide Be, PrefixedAll, Entries, ChainBytes;
    var extra, certs, chains := PrefixedAll(3, s.extra), Entries(s.certs, 0), ChainBytes(s.chains);
    var a, b, c, d, e := Be(s.version, 2), [if s.isClient then 2 else 1], Be(s.cipherSuite, 2), Be(s.createdAt, 8), Prefixed(1, s.secret);
    var f, g, h, i, j := Prefixed(3, extra), Flag(s.extMasterSecret), Flag(s.earlyData), Prefixed(3, certs), Prefixed(3, chains);
    var k := FromAlpn(s);
    assert Printed(s) == a + (b + (c + (d + (e + (f + (g + (h + (i + (j + k)))))))));
    Flat5(f, g, h, i, j, k);
    Flat5(a, b, c, d, e, f + (g + (h + (i + (j + k)))));
    Flat6(a + b + c + d + e, f, g, h, i, j, k);
  }

  lemma Flat5(a: bytes, b: bytes, c: bytes, d: bytes, e: bytes, z: bytes)
    ensures a + (b + (c + (d + (e + z)))) == a + b + c + d + e + z
  {
  }

  lemma Flat6(x: bytes, f: bytes, g: bytes, h: bytes, i: bytes, j: bytes, k: bytes)
    ensures x + (f + (g + (h + (i + (j + k))))) == x + f + g + h + i + j + k
  {
    Flat5(f, g, h, i, j, k);
    assert x + (f + g + h + i + j + k) == x + f + g + h + i + j + k;
  }

  ghost predicate OcspFits(ocsp: Option<bytes>) { ocsp.Some? ==> |ocsp.value| < Power(3) && 4 + |ocsp.value| < Power(2) }

  ghost predicate SctsFit(scts: Option<seq<bytes>>) {
    scts.Some? ==> Short(2, scts.value) && 2 + |PrefixedAll(2, scts.value)| < Power(2)
  }

  ghost predicate CertsFit(c: Certs) {
    && Short(3, c.raw) && |Entries(c, 0)| < Power(3)
    && (c.raw != [] ==> OcspFits(c.ocsp) && SctsFit(c.scts) && |OcspExt(c.ocsp) + SctExt(c.scts)| < Power(2))
  }

  ghost predicate ChainsFit(chains: seq<seq<bytes>>) {
    && (forall i :: 0 <= i < |chains| ==> chains[i] != [])
    && (forall i :: 0 <= i < |chains| ==> Short(3, chains[i][1..]) && |PrefixedAll(3, chains[i][1..])| < Power(3))
  }

  /** The numbers are in the range of their types. */
  ghost predicate InRange(s: Session) {
    s.version < Power(2) && s.cipherSuite < Power(2) && s.createdAt < Power(8) && s.useBy < Power(8) && s.ageAdd < Power(4)
  }

  /** `Bytes` succeeds: no chain is empty and every length fits its field. */
  ghost predicate Printable(s: Session) {
    && |s.secret| < Power(1) && (s.earlyData ==> |s.alpn| < Power(1))
    && Short(3, s.extra) && |PrefixedAll(3, s.extra)| < Power(3)
    && CertsFit(s.certs) && ChainsFit(s.chains) && |ChainBytes(s.chains)| < Power(3)
  }

  // ----- certificates

  /** What `unmarshalCertificate` ever lets through. */
  ghost predicate Sensible(ocsp: Option<bytes>, scts: Option<seq<bytes>>) {
    (ocsp.Some? ==> ocsp.value != []) && (scts.Some? ==> scts.value != [] && NonEmpty(scts.value))
  }

  /** The body of an OCSP extension. */
  method ParseOcsp(data: bytes, ghost want: bytes) returns (ok: bool, ocsp: bytes)
    ensures ok ==> ocsp != []
    ensures data == [STATUS_OCSP] + Prefixed(3, want) && |want| < Power(3) && want != [] ==> ok && ocsp == want
  {
    hide TakePrefixed, Prefixed, Power;
    if data == [STATUS_OCSP] + Prefixed(3, want) && |want| < Power(3) {
      TakeBack([STATUS_OCSP], Prefixed(3, want));
      TakePrefixedBack(3, want, []);
      assert Prefixed(3, want) + [] == Prefixed(3, want);
    }
    ocsp := [];
    var status := Take(data, 1);
    if status.None? || status.value.head[0] != STATUS_OCSP {
      return false, ocsp;
    }
    var t := TakePrefixed(status.value.tail, 3);
    if t.None? || t.value.head == [] || t.value.tail != [] {
      return false, ocsp;
    }
    return true, t.value.head;
  }

  /** The body of a certificate timestamp extension. */
  method ParseScts(data: bytes, ghost want: seq<bytes>) returns (ok: bool, scts: seq<bytes>)
    ensures ok ==> scts != [] && NonEmpty(scts)
    ensures data == Prefixed(2, PrefixedAll(2, want)) && SctsFit(Some(want)) && want != [] && NonEmpty(want) ==> ok && scts == want
  {
    hide TakePrefixed, Prefixed, Power;
    if data == Prefixed(2, PrefixedAll(2, want)) && SctsFit(Some(want)) && want != [] && NonEmpty(want) {
      TakePrefixedBack(2, PrefixedAll(2, want), []);
      assert Prefixed(2, PrefixedAll(2, want)) + [] == Prefixed(2, PrefixedAll(2, want));
      PrefixedLonger(2);
    }
    scts := [];
    var t := TakePrefixed(data, 2);
    if t.None? || t.value.head == [] {
      return false, scts;
    }
    hide PrefixedAll;
    ok, scts := ReadAll(t.value.head, 2, true, want);
    ok := ok && t.value.tail == [];
  }

  /** The inner loop of `unmarshalCertificate`, for the leaf. */
  method ParseExtensions(exts: bytes, ghost o: Option<bytes>, ghost c: Option<seq<bytes>>) returns (ok: bool, ocsp: Option<bytes>, scts: Option<seq<bytes>>)
    ensures ok ==> Sensible(ocsp, scts)
    ensures exts == OcspExt(o) + SctExt(c) && OcspFits(o) && SctsFit(c) && Sensible(o, c) ==> ok && ocsp == o && scts == c
  {
    hide Prefixed, PrefixedAll, Power, Be, Ahead, Sensible, OcspExt, SctExt;
    ok, ocsp, scts := true, None, None;
    ghost var printed := exts == OcspExt(o) + SctExt(c) && OcspFits(o) && SctsFit(c) && Sensible(o, c);
    var rest := exts;
    NothingRead(o, c);
    while rest != []
      invariant Sensible(ocsp, scts)
      invariant printed ==> Ahead(o, c, ocsp, scts, rest)
      decreases |rest|
    {
      ghost var atOcsp, body, tail := false, [], [];
      if printed {
        atOcsp, body, tail := NextIs(o, c, ocsp, scts, rest);
      }
      var ext, data;
      ok, ext, data, rest := NextExtension(rest, if atOcsp then STATUS_REQUEST else SCT, body, tail);
      if !ok {
        return;
      }
      if ext == STATUS_REQUEST {
        var r;
        ok, r := ParseOcsp(data, if o.Some? then o.value else []);
        if !ok {
          return;
        }
        SensibleOcsp(ocsp, scts, r);
        ocsp := Some(r);
      } else if ext == SCT {
        var r;
        ok, r := ParseScts(data, if c.Some? then c.value else []);
        if !ok {
          return;
        }
        SensibleScts(ocsp, scts, r);
        scts := Some((if scts.Some? then scts.value else []) + r);
      }
    }
    if printed { AllRead(o, c, ocsp, scts); }
  }

  /** What is ahead, given what has been read: both extensions, the second one, or nothing. */
  ghost predicate Ahead(o: Option<bytes>, c: Option<seq<bytes>>, ocsp: Option<bytes>, scts: Option<seq<bytes>>, rest: bytes) {
    || (scts.None? && ocsp.None? && rest == OcspExt(o) + SctExt(c))
    || (scts.None? && ocsp == o && rest == SctExt(c))
    || (ocsp == o && scts == c && rest == [])
  }

  lemma NothingRead(o: Option<bytes>, c: Option<seq<bytes>>)
    ensures Ahead(o, c, None, None, OcspExt(o) + SctExt(c)) && Sensible(None, None)
  {
  }

  /** The next extension, what follows it, and what will be ahead then. */
  lemma NextIs(o: Option<bytes>, c: Option<seq<bytes>>, ocsp: Option<bytes>, scts: Option<seq<bytes>>, rest: bytes) returns (atOcsp: bool, body: bytes, tail: bytes)
    requires Ahead(o, c, ocsp, scts, rest) && rest != [] && OcspFits(o) && SctsFit(c) && Sensible(o, c)
    ensures rest == Be(if atOcsp then STATUS_REQUEST else SCT, 2) + Prefixed(2, body) + tail && |body| < Power(2)
    ensures STATUS_REQUEST < Power(2) && SCT < Power(2)
    ensures atOcsp ==> o.Some? && o.value != [] && |o.value| < Power(3) && body == [STATUS_OCSP] + Prefixed(3, o.value) && Ahead(o, c, o, scts, tail)
    ensures !atOcsp ==> c.Some? && c.value != [] && NonEmpty(c.value) && scts.None? && body == Prefixed(2, PrefixedAll(2, c.value)) && Ahead(o, c, ocsp, Some([] + c.value), tail)
  {
    BodyLen(o, c);
    PowerTwo();
    ExtLonger(o, c);
    hide Be, PrefixedAll;
    atOcsp := o.Some? && ocsp.None?;
    if atOcsp {
      body, tail := [STATUS_OCSP] + Prefixed(3, o.value), SctExt(c);
    } else {
      assert OcspExt(None) + SctExt(c) == SctExt(c);
      body, tail := Prefixed(2, PrefixedAll(2, c.value)), [];
      assert rest == SctExt(c) + [];
      assert [] + c.value == c.value;
    }
  }

  lemma SensibleOcsp(ocsp: Option<bytes>, scts: Option<seq<bytes>>, r: bytes)
    requires Sensible(ocsp, scts) && r != []
    ensures Sensible(Some(r), scts)
  {
  }

  lemma SensibleScts(ocsp: Option<bytes>, scts: Option<seq<bytes>>, r: seq<bytes>)
    requires Sensible(ocsp, scts) && r != [] && NonEmpty(r)
    ensures Sensible(ocsp, Some((if scts.Some? then scts.value else []) + r))
  {
  }

  lemma AllRead(o: Option<bytes>, c: Option<seq<bytes>>, ocsp: Option<bytes>, scts: Option<seq<bytes>>)
    requires Ahead(o, c, ocsp, scts, [])
    ensures ocsp == o && scts == c
  {
    ExtLonger(o, c);
  }

  lemma BodyLen(o: Option<bytes>, c: Option<seq<bytes>>)
    requires OcspFits(o) && SctsFit(c)
    ensures o.Some? ==> |[STATUS_OCSP] + Prefixed(3, o.value)| < Power(2)
    ensures c.Some? ==> |Prefixed(2, PrefixedAll(2, c.value))| < Power(2)
  {
  }

  lemma ExtLonger(o: Option<bytes>, c: Option<seq<bytes>>)
    ensures OcspExt(o) == [] <==> o.None?
    ensures SctExt(c) == [] <==> c.None?
    ensures OcspExt(o) + SctExt(c) == [] <==> o.None? && c.None?
  {
  }

  /** Extensions of other certificates must be well-formed and are ignored. */
  method SkipExtensions(exts: bytes) returns (ok: bool)
    ensures exts == [] ==> ok
  {
    ok := true;
    var rest := exts;
    while rest != []
      decreases |rest|
    {
      var ext, data;
      ok, ext, data, rest := NextExtension(rest, 0, [], []);
      if !ok {
        return;
      }
    }
  }

  ghost predicate Attached(c: Certs) { Sensible(c.ocsp, c.scts) && (c.raw == [] ==> c.ocsp.None? && c.scts.None?) }

  /** The outer loop of `unmarshalCertificate`. */
  method ParseEntries(list: bytes, ghost want: Certs) returns (ok: bool, c: Certs)
    ensures ok ==> Attached(c)
    ensures list == Entries(want, 0) && CertsFit(want) && Attached(want) ==> ok && c == want
  {
    hide Prefixed, PrefixedAll, Power, TakePrefixed, OcspExt, SctExt;
    ok, c := true, Certs([], None, None);
    ghost var printed := list == Entries(want, 0) && CertsFit(want) && Attached(want);
    var rest := list;
    while rest != []
      invariant Attached(c)
      invariant printed ==> |c.raw| <= |want.raw| && rest == Entries(want, |c.raw|) && c.raw == want.raw[..|c.raw|]
      invariant printed && c.raw != [] ==> c.ocsp == want.ocsp && c.scts == want.scts
      decreases |rest|
    {
      ghost var k := |c.raw|;
      ghost var exts := if k == 0 then OcspExt(want.ocsp) + SctExt(want.scts) else [];
      if printed {
        EntryBack(want, k);
      }
      var t := TakePrefixed(rest, 3);
      if t.None? {
        return false, c;
      }
      var u := TakePrefixed(t.value.tail, 2);
      if u.None? {
        return false, c;
      }
      if |c.raw| == 0 {
        var ocsp, scts;
        ok, ocsp, scts := ParseExtensions(u.value.head, want.ocsp, want.scts);
        c := Certs([t.value.head], ocsp, scts);
      } else {
        ok := SkipExtensions(u.value.head);
        c := c.(raw := c.raw + [t.value.head]);
      }
      if !ok {
        return;
      }
      rest := u.value.tail;
    }
    if printed { EntriesLonger(want, |c.raw|); }
  }

  /** One entry, read back. */
  lemma EntryBack(c: Certs, k: nat)
    requires CertsFit(c) && k <= |c.raw| && Entries(c, k) != []
    ensures k < |c.raw| && OcspFits(c.ocsp) && SctsFit(c.scts)
    ensures var exts := if k == 0 then OcspExt(c.ocsp) + SctExt(c.scts) else [];
            var tail := Prefixed(2, exts) + Entries(c, k + 1);
            TakePrefixed(Entries(c, k), 3) == Some(Taken(c.raw[k], tail)) && TakePrefixed(tail, 2) == Some(Taken(exts, Entries(c, k + 1)))
  {
    hide Prefixed, TakePrefixed, OcspExt, SctExt, PrefixedAll, Power;
    var exts := if k == 0 then OcspExt(c.ocsp) + SctExt(c.scts) else [];
    var tail := Prefixed(2, exts) + Entries(c, k + 1);
    assert Entries(c, k) == Prefixed(3, c.raw[k]) + tail;
    TakePrefixedBack(3, c.raw[k], tail);
    PowerTwo();
    TakePrefixedBack(2, exts, Entries(c, k + 1));
  }

  lemma EntriesLonger(c: Certs, k: nat)
    requires k <= |c.raw|
    ensures Entries(c, k) == [] <==> k == |c.raw|
  {
  }

  // ----- chains

  lemma ChainsAt(chains: seq<seq<bytes>>, k: nat)
    requires k <= |chains| && forall i :: 0 <= i < |chains| ==> chains[i] != []
    ensures ChainBytes(chains[k..]) == [] <==> k == |chains|
    ensures k < |chains| ==> ChainBytes(chains[k..]) == Prefixed(3, PrefixedAll(3, chains[k][1..])) + ChainBytes(chains[k + 1..])
  {
    if k < |chains| {
      assert chains[k..][1..] == chains[k + 1..];
    }
  }

  ghost predicate FromLeaf(chains: seq<seq<bytes>>, raw: seq<bytes>) {
    forall i :: 0 <= i < |chains| ==> chains[i] != [] && raw != [] && chains[i][0] == raw[0]
  }

  ghost predicate AllParse(parses: bytes -> bool, certs: seq<bytes>) { forall i :: 0 <= i < |certs| ==> parses(certs[i]) }

  /** `newCert` on each of them; an x509 certificate keeps the bytes it was made of. */
  method CheckCerts(parses: bytes -> bool, certs: seq<bytes>) returns (ok: bool)
    ensures ok <==> AllParse(parses, certs)
  {
    for i := 0 to |certs|
      invariant forall j :: 0 <= j < i ==> parses(certs[j])
    {
      if !parses(certs[i]) {
        return false;
      }
    }
    return true;
  }

  /** The loop over chains; each gets back its leaf, the first certificate of the session. */
  method ParseChains(list: bytes, raw: seq<bytes>, parses: bytes -> bool, ghost want: seq<seq<bytes>>) returns (ok: bool, chains: seq<seq<bytes>>)
    ensures ok ==> FromLeaf(chains, raw) && forall i :: 0 <= i < |chains| ==> AllParse(parses, chains[i][1..])
    ensures FromLeaf(want, raw) && ChainsFit(want) && list == ChainBytes(want) && (forall i :: 0 <= i < |want| ==> AllParse(parses, want[i][1..])) ==>
              ok && chains == want
  {
    hide Prefixed, PrefixedAll, Power, TakePrefixed, ChainBytes, AllParse, Short;
    ok, chains := true, [];
    ghost var printed := FromLeaf(want, raw) && ChainsFit(want) && list == ChainBytes(want) && forall i :: 0 <= i < |want| ==> AllParse(parses, want[i][1..]);
    assert want[0..] == want;
    var rest := list;
    while rest != []
      invariant FromLeaf(chains, raw) && forall i :: 0 <= i < |chains| ==> AllParse(parses, chains[i][1..])
      invariant printed ==> |chains| <= |want| && chains == want[..|chains|] && rest == ChainBytes(want[|chains|..])
      decreases |rest|
    {
      ghost var k := |chains|;
      if printed {
        ChainsAt(want, k);
        TakePrefixedBack(3, PrefixedAll(3, want[k][1..]), ChainBytes(want[k + 1..]));
      }
      var t := TakePrefixed(rest, 3);
      if t.None? || raw == [] {
        return false, chains;
      }
      var certs;
      ok, certs := ReadAll(t.value.head, 3, false, if printed then want[k][1..] else []);
      if !ok {
        return;
      }
      ok := CheckCerts(parses, certs);
      if !ok {
        return;
      }
      ghost var chain := [raw[0]] + certs;
      assert chain[1..] == certs;
      if printed { assert want[k] == [want[k][0]] + want[k][1..]; }
      chains := chains + [[raw[0]] + certs];
      rest := t.value.tail;
    }
    if printed { ChainsAt(want, |chains|); }
  }

  // ----- the session state

  /** What a session must be like to come back as it was: it has a secret; its chains start at its first
      certificate; a client has certificates; OCSP response and timestamps are absent or not empty,
      and absent without a certificate; what is not printed is zero; and its certificates parse. */
  ghost predicate Canonical(s: Session, parses: bytes -> bool) {
    && s.secret != [] && Attached(s.certs) && FromLeaf(s.chains, s.certs.raw) && (s.isClient ==> s.certs.raw != [])
    && (!s.earlyData ==> s.alpn == []) && (!HasLimits(s) ==> s.useBy == 0 && s.ageAdd == 0)
    && AllParse(parses, s.certs.raw) && forall i :: 0 <= i < |s.chains| ==> AllParse(parses, s.chains[i][1..])
  }

  /** A flag byte. */
  method ParseFlag(b: bytes) returns (ok: bool, flag: bool)
    requires |b| == 1
    ensures ok ==> b == Flag(flag)
    ensures b == [0] || b == [1] ==> ok
  {
    ok, flag := b[0] == 0 || b[0] == 1, b[0] == 1;
  }

  /** The fixed fields at the front. */
  method ParseFront(data: bytes, ghost want: Session) returns (ok: bool, s: Session, rest: bytes)
    ensures ok ==> s.version < Power(2)
    ensures ok ==> s == Session(s.version, s.isClient, s.cipherSuite, s.createdAt, [], [], false, false, Certs([], None, None), [], [], 0, 0)
    ensures InRange(want) && ChainsFit(want.chains) && data == Printed(want) ==>
              && ok && rest == FromSecret(want)
              && s.version == want.version && s.isClient == want.isClient && s.cipherSuite == want.cipherSuite && s.createdAt == want.createdAt
  {
    hide Power, Be, Value, FromSecret, Take;
    s, rest := Session(0, false, 0, 0, [], [], false, false, Certs([], None, None), [], [], 0, 0), data;
    ghost var printed := InRange(want) && ChainsFit(want.chains) && data == Printed(want);
    if printed {
      var typ := if want.isClient then [2] else [1];
      var r3 := Be(want.createdAt, 8) + FromSecret(want);
      var r2 := Be(want.cipherSuite, 2) + r3;
      TakeBack(Be(want.version, 2), typ + r2);
      TakeBack(typ, r2);
      TakeBack(Be(want.cipherSuite, 2), r3);
      TakeBack(Be(want.createdAt, 8), FromSecret(want));
      ValueBe(want.version, 2);
      ValueBe(want.cipherSuite, 2);
      ValueBe(want.createdAt, 8);
    }
    ok := false;
    var version := Take(rest, 2);
    if version.None? {
      return;
    }
    var typ := Take(version.value.tail, 1);
    if typ.None? || (typ.value.head != [1] && typ.value.head != [2]) {
      return;
    }
    var suite := Take(typ.value.tail, 2);
    if suite.None? {
      return;
    }
    var created := Take(suite.value.tail, 8);
    if created.None? {
      return;
    }
    TakeLen(rest, 2);
    BeValue(version.value.head);
    ok := true;
    s := s.(version := Value(version.value.head), isClient := typ.value.head == [2],
            cipherSuite := Value(suite.value.head), createdAt := Value(created.value.head));
    rest := created.value.tail;
  }

  /** Secret, extra data, flags and certificates. */
  method ParseMiddle(data: bytes, s0: Session, ghost want: Session) returns (ok: bool, s: Session, rest: bytes)
    ensures ok ==> s == s0.(secret := s.secret, extra := s.extra, extMasterSecret := s.extMasterSecret, earlyData := s.earlyData, certs := s.certs)
    ensures ok ==> s.secret != [] && Attached(s.certs)
    ensures Printable(want) && want.secret != [] && Attached(want.certs) && data == FromSecret(want) ==>
              && ok && rest == FromChains(want) && s.secret == want.secret && s.extra == want.extra
              && s.extMasterSecret == want.extMasterSecret && s.earlyData == want.earlyData && s.certs == want.certs
  {
    hide Power, Prefixed, PrefixedAll, TakePrefixed, Entries, FromChains, ChainBytes, Take;
    s, rest, ok := s0, data, false;
    ghost var printed := Printable(want) && want.secret != [] && Attached(want.certs) && data == FromSecret(want);
    ghost var list := PrefixedAll(3, want.extra);
    if printed {
      MiddleBack(want);
    }
    var secret := TakePrefixed(data, 1);
    if secret.None? {
      return;
    }
    var extra := TakePrefixed(secret.value.tail, 3);
    if extra.None? {
      return;
    }
    var ems := Take(extra.value.tail, 1);
    if ems.None? {
      return;
    }
    var early := Take(ems.value.tail, 1);
    if early.None? || secret.value.head == [] {
      return;
    }
    var certList := TakePrefixed(early.value.tail, 3);
    if certList.None? {
      return;
    }
    TakeLen(extra.value.tail, 1);
    TakeLen(ems.value.tail, 1);
    var certs, items, a, b;
    ok, certs := ParseEntries(certList.value.head, want.certs);
    if !ok {
      return;
    }
    ok, items := ReadAll(extra.value.head, 3, false, want.extra);
    if !ok {
      return;
    }
    ok, a := ParseFlag(ems.value.head);
    if !ok {
      return;
    }
    ok, b := ParseFlag(early.value.head);
    if !ok {
      return;
    }
    s := s.(secret := secret.value.head, extra := items, extMasterSecret := a, earlyData := b, certs := certs);
    rest := certList.value.tail;
  }

  lemma MiddleBack(w: Session)
    requires Printable(w)
    ensures var r4 := FromChains(w);
            var r3 := Prefixed(3, Entries(w.certs, 0)) + r4;
            var r2 := Flag(w.earlyData) + r3;
            var r1 := Flag(w.extMasterSecret) + r2;
            var r0 := Prefixed(3, PrefixedAll(3, w.extra)) + r1;
            && TakePrefixed(FromSecret(w), 1) == Some(Taken(w.secret, r0))
            && TakePrefixed(r0, 3) == Some(Taken(PrefixedAll(3, w.extra), r1))
            && Take(r1, 1) == Some(Taken(Flag(w.extMasterSecret), r2))
            && Take(r2, 1) == Some(Taken(Flag(w.earlyData), r3))
            && TakePrefixed(r3, 3) == Some(Taken(Entries(w.certs, 0), r4))
  {
    hide Power, Prefixed, PrefixedAll, TakePrefixed, Entries, FromChains, ChainBytes, Take;
    var r4 := FromChains(w);
    var r3 := Prefixed(3, Entries(w.certs, 0)) + r4;
    var r2 := Flag(w.earlyData) + r3;
    var r1 := Flag(w.extMasterSecret) + r2;
    TakePrefixedBack(1, w.secret, Prefixed(3, PrefixedAll(3, w.extra)) + r1);
    TakePrefixedBack(3, PrefixedAll(3, w.extra), r1);
    TakeBack(Flag(w.extMasterSecret), r2);
    TakeBack(Flag(w.earlyData), r3);
    TakePrefixedBack(3, Entries(w.certs, 0), r4);
  }

  /** What comes after the chains. */
  method ParseRear(data: bytes, s0: Session, ghost want: Session) returns (ok: bool, s: Session)
    requires s0.alpn == [] && s0.useBy == 0 && s0.ageAdd == 0
    ensures ok ==> s == s0.(alpn := s.alpn, useBy := s.useBy, ageAdd := s.ageAdd)
    ensures ok ==> (!s.earlyData ==> s.alpn == []) && (!HasLimits(s) ==> s.useBy == 0 && s.ageAdd == 0) && (s.isClient ==> s.certs.raw != [])
    ensures InRange(want) && Printable(want) && data == FromAlpn(want) && s0.earlyData == want.earlyData && HasLimits(s0) == HasLimits(want)
              && s0.isClient == want.isClient && s0.version == want.version && (want.isClient ==> s0.certs.raw != []) ==>
              && ok && (want.earlyData ==> s.alpn == want.alpn) && (HasLimits(want) ==> s.useBy == want.useBy && s.ageAdd == want.ageAdd)
  {
    hide Power, Prefixed, TakePrefixed, Take, PrefixedAll, Entries, ChainBytes, Be, Value;
    var rest := data;
    s, ok := s0, false;
    ghost var printed := InRange(want) && Printable(want) && data == FromAlpn(want) && s0.earlyData == want.earlyData && HasLimits(s0) == HasLimits(want);
    if printed {
      RearBack(want);
      assert !want.earlyData ==> [] + Limits(want) == Limits(want);
    }
    if s.earlyData {
      var alpn := TakePrefixed(rest, 1);
      if alpn.None? {
        return;
      }
      s := s.(alpn := alpn.value.head);
      rest := alpn.value.tail;
    }
    if !s.isClient {
      ok := rest == [];
      return;
    }
    if s.certs.raw == [] {
      return;
    }
    if s.version < TlsRecord.TLS13 {
      ok := rest == [];
      return;
    }
    var useBy := Take(rest, 8);
    if useBy.None? {
      return;
    }
    var ageAdd := Take(useBy.value.tail, 4);
    if ageAdd.None? || ageAdd.value.tail != [] {
      return;
    }
    s := s.(useBy := Value(useBy.value.head), ageAdd := Value(ageAdd.value.head));
    ok := true;
  }

  lemma RearBack(w: Session)
    requires InRange(w) && Printable(w)
    ensures w.earlyData ==> TakePrefixed(FromAlpn(w), 1) == Some(Taken(w.alpn, Limits(w)))
    ensures HasLimits(w) ==>
              && Take(Limits(w), 8) == Some(Taken(Be(w.useBy, 8), Be(w.ageAdd, 4)))
              && Take(Be(w.ageAdd, 4), 4) == Some(Taken(Be(w.ageAdd, 4), []))
              && Value(Be(w.useBy, 8)) == w.useBy && Value(Be(w.ageAdd, 4)) == w.ageAdd
  {
    hide Power, Prefixed, TakePrefixed, PrefixedAll, Entries, ChainBytes, Be, Value;
    if w.earlyData {
      TakePrefixedBack(1, w.alpn, Limits(w));
    }
    ValueBe(w.useBy, 8);
    ValueBe(w.ageAdd, 4);
    TakeBack(Be(w.useBy, 8), Be(w.ageAdd, 4));
    TakeBack(Be(w.ageAdd, 4), []);
    assert Be(w.ageAdd, 4) + [] == Be(w.ageAdd, 4);
  }

  /** `ParseSessionState`: what it returns is always canonical, and if it is given what `Bytes` prints of
      a canonical session, it returns that session. So exactly the canonical ones come back. */
  method ParseSessionState(data: bytes, parses: bytes -> bool, ghost want: Session) returns (r: Option<Session>)
    ensures r.Some? ==> Canonical(r.value, parses)
    ensures InRange(want) && Printable(want) && Canonical(want, parses) && data == Printed(want) ==> r == Some(want)
  {
    hide Power, Prefixed, PrefixedAll, TakePrefixed, Entries, ChainBytes, Printed, FromSecret, FromAlpn, InRange, AllParse, Attached, CertsFit, FromLeaf, Short;
    r := None;
    ghost var printed := InRange(want) && Printable(want) && Canonical(want, parses) && data == Printed(want);
    if printed {
      TakePrefixedBack(3, ChainBytes(want.chains), FromAlpn(want));
    }
    var ok, s, rest := ParseFront(data, want);
    if !ok {
      return;
    }
    ok, s, rest := ParseMiddle(rest, s, want);
    if !ok {
      return;
    }
    ok := CheckCerts(parses, s.certs.raw);
    if !ok {
      return;
    }
    var t := TakePrefixed(rest, 3);
    if t.None? {
      return;
    }
    var chains;
    ok, chains := ParseChains(t.value.head, s.certs.raw, parses, want.chains);
    if !ok {
      return;
    }
    ok, s := ParseRear(t.value.tail, s.(chains := chains), want);
    if !ok {
      return;
    }
    return Some(s);
  }

  /** A session without what `Bytes` leaves out: the protocol of a session that allows no early data, and
      the limits of one that is no TLS 1.3 client session. */
  function Forget(s: Session): (r: Session) {
    var t := if s.earlyData then s else s.(alpn := []);
    if HasLimits(s) then t else t.(useBy := 0, ageAdd := 0)
  }

  /** Any other session comes back without those, if it comes back at all. */
  lemma PrintedForget(s: Session)
    requires Printable(s) && InRange(s)
    ensures Printable(Forget(s)) && InRange(Forget(s)) && Printed(Forget(s)) == Printed(s)
  {
    hide Power;
    PowersPositive();
  }

  lemma PowersPositive()
    ensures Power(8) > 0 && Power(4) > 0
  {
  }

  // ----- the builder

  /** `AddUint24LengthPrefixed` around each of a list of strings. */
  method PrintAll(w: nat, items: seq<bytes>) returns (ok: bool, r: bytes)
    ensures ok <==> Short(w, items)
    ensures ok ==> r == PrefixedAll(w, items)
  {
    hide Power, Prefixed, PrefixedAll;
    ok, r := true, [];
    assert items[0..] == items;
    for i := 0 to |items|
      invariant forall j :: 0 <= j < i ==> |items[j]| < Power(w)
      invariant r + PrefixedAll(w, items[i..]) == PrefixedAll(w, items)
    {
      if |items[i]| >= Power(w) {
        return false, [];
      }
      PrefixedAllAt(w, items, i);
      assert r + (Prefixed(w, items[i]) + PrefixedAll(w, items[i + 1..])) == r + Prefixed(w, items[i]) + PrefixedAll(w, items[i + 1..]);
      r := r + Prefixed(w, items[i]);
    }
    PrefixedAllAt(w, items, |items|);
  }

  /** The extensions of the leaf. */
  method PrintExtensions(c: Certs) returns (ok: bool, r: bytes)
    ensures ok <==> OcspFits(c.ocsp) && SctsFit(c.scts) && |OcspExt(c.ocsp) + SctExt(c.scts)| < Power(2)
    ensures ok ==> r == OcspExt(c.ocsp) + SctExt(c.scts)
  {
    hide Power, Prefixed, PrefixedAll, Be;
    ok, r := false, [];
    if c.ocsp.Some? {
      if |c.ocsp.value| >= Power(3) || 4 + |c.ocsp.value| >= Power(2) {
        return;
      }
      r := Be(STATUS_REQUEST, 2) + Prefixed(2, [STATUS_OCSP] + Prefixed(3, c.ocsp.value));
    }
    if c.scts.Some? {
      var list;
      ok, list := PrintAll(2, c.scts.value);
      if !ok || 2 + |list| >= Power(2) {
        return false, r;
      }
      r := r + (Be(SCT, 2) + Prefixed(2, Prefixed(2, list)));
    }
    ok := |r| < Power(2);
  }

  /** `marshalCertificate` */
  method PrintEntries(c: Certs) returns (ok: bool, r: bytes)
    ensures ok <==> CertsFit(c)
    ensures ok ==> r == Entries(c, 0)
  {
    hide Power, Prefixed, OcspExt, SctExt, OcspFits, SctsFit;
    PowerTwo();
    ok, r := true, [];
    for i := 0 to |c.raw|
      invariant ok && forall j :: 0 <= j < i ==> |c.raw[j]| < Power(3)
      invariant i > 0 ==> OcspFits(c.ocsp) && SctsFit(c.scts) && |OcspExt(c.ocsp) + SctExt(c.scts)| < Power(2)
      invariant r + Entries(c, i) == Entries(c, 0)
    {
      var exts: bytes := [];
      if i == 0 {
        ok, exts := PrintExtensions(c);
      }
      if |c.raw[i]| >= Power(3) || !ok {
        return false, [];
      }
      var entry := Prefixed(3, c.raw[i]) + Prefixed(2, exts);
      assert r + (entry + Entries(c, i + 1)) == r + entry + Entries(c, i + 1);
      r := r + entry;
    }
    assert Entries(c, |c.raw|) == [];
    ok := |r| < Power(3);
  }

  method PrintChains(chains: seq<seq<bytes>>) returns (ok: bool, r: bytes)
    ensures ok <==> ChainsFit(chains) && |ChainBytes(chains)| < Power(3)
    ensures ok ==> r == ChainBytes(chains)
  {
    hide Power, Prefixed, PrefixedAll, Short, ChainBytes;
    ok, r := true, [];
    assert chains[0..] == chains;
    for i := 0 to |chains|
      invariant forall j :: 0 <= j < i ==> chains[j] != []
      invariant forall j :: 0 <= j < i ==> Short(3, chains[j][1..]) && |PrefixedAll(3, chains[j][1..])| < Power(3)
      invariant (forall j :: 0 <= j < |chains| ==> chains[j] != []) ==> r + ChainBytes(chains[i..]) == ChainBytes(chains)
    {
      if chains[i] == [] {
        return false, [];
      }
      var list;
      ok, list := PrintAll(3, chains[i][1..]);
      if !ok || |list| >= Power(3) {
        return false, [];
      }
      if forall j :: 0 <= j < |chains| ==> chains[j] != [] {
        ChainsAt(chains, i);
        assert r + (Prefixed(3, list) + ChainBytes(chains[i + 1..])) == r + Prefixed(3, list) + ChainBytes(chains[i + 1..]);
      }
      r := r + Prefixed(3, list);
    }
    ChainsAt(chains, |chains|);
    ok := |r| < Power(3);
  }

  /** `Bytes` */
  method Bytes(s: Session) returns (r: Option<bytes>)
    ensures r.Some? <==> Printable(s)
    ensures r.Some? ==> r.value == Printed(s)
  {
    hide Power, Prefixed, PrefixedAll, Short, Entries, ChainBytes, Be, CertsFit, Flag;
    var okExtra, extra := PrintAll(3, s.extra);
    var okCerts, certs := PrintEntries(s.certs);
    var okChains, chains := PrintChains(s.chains);
    if |s.secret| >= Power(1) || !okExtra || |extra| >= Power(3) || !okCerts || !okChains || (s.earlyData && |s.alpn| >= Power(1)) {
      return None;
    }
    var typ := if s.isClient then [2] else [1];
    var b := Be(s.version, 2) + typ + Be(s.cipherSuite, 2) + Be(s.createdAt, 8);
    Assoc4(Be(s.version, 2), typ, Be(s.cipherSuite, 2), Be(s.createdAt, 8), FromSecret(s));
    ghost var rest := FromFlags(s);
    Assoc2(b, Prefixed(1, s.secret), Prefixed(3, extra), rest);
    b := b + Prefixed(1, s.secret) + Prefixed(3, extra);
    Assoc4(b, Flag(s.extMasterSecret), Flag(s.earlyData), Prefixed(3, certs), FromChains(s));
    b := b + Flag(s.extMasterSecret) + Flag(s.earlyData) + Prefixed(3, certs);
    var alpn := if s.earlyData then Prefixed(1, s.alpn) else [];
    Assoc2(b, Prefixed(3, chains), alpn, Limits(s));
    b := b + Prefixed(3, chains) + alpn;
    if s.isClient && s.version >= TlsRecord.TLS13 {
      b := b + (Be(s.useBy, 8) + Be(s.ageAdd, 4));
    } else {
      assert b + [] == b;
    }
    return Some(b);
  }

  lemma Assoc2(a: bytes, b: bytes, c: bytes, d: bytes)
    ensures a + (b + (c + d)) == a + b + c + d
  {
  }

  lemma Assoc4(a: bytes, b: bytes, c: bytes, d: bytes, e: bytes)
    ensures a + (b + (c + (d + e))) == a + b + c + d + e
  {
    Assoc2(a, b, c, d + e);
    assert a + b + c + (d + e) == a + b + c + d + e;
  }
}
