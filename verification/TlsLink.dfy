/**
  Writer and reader of the record layer together: what `writeRecordLocked` puts on the wire is what
  `readRecordOrCCS` takes off it, record by record, and no nonce is used twice.
*/
module TlsLink {
  import opened Wire
  import opened TlsRecord
  import opened TlsSound
  import opened TlsWriter
  import opened TlsReader

  /** The header of every record written passes the tests of a reader with the same version, whatever comes
      after it, so that this record is the next it takes. Before there is a version only alerts and
      handshake messages are sent. */
  lemma WrittenTaken(ws: seq<Half>, recs: seq<bytes>, typ: byte, vers: nat, parts: seq<bytes>, iv: nat -> bytes, i: nat, rest: bytes, complete: bool)
    requires Written(ws, recs, typ, vers, parts, iv) && i < |recs| && |parts[i]| <= MAX_PLAINTEXT
    requires vers < 0x10000 && (vers == TLS13 ==> ws[i].version == TLS13)
    requires typ in {20, 21, 22, 23} && (vers == 0 ==> typ in {21, 22} && ws[i].cipher.NoCipher?)
    ensures Whole(recs[i] + rest, vers, vers != 0, complete) && FirstOf(recs[i] + rest) == recs[i]
  {
    hide Body, Record, Good, HeaderBad, Value, Be, Overhead;
    assert WrittenAt(ws, recs, typ, vers, parts, iv, i);
    var w, v, rv := ws[i], iv(|Flatten(parts[..i])|), RecordVersion(vers);
    var rec := recs[i];
    RecordLength(w, typ, rv, parts[i], v);
    OverheadBound(w, |parts[i]|);
    BodyLength(w, typ, rv, parts[i], v);
    Sealed(w, typ, rv, parts[i], v);
    var raw := rec + rest;
    assert raw[..HEADER_LEN] == rec[..HEADER_LEN] && raw[3..5] == rec[3..5] && raw[..HEADER_LEN][3..5] == rec[3..5] && raw[..HEADER_LEN][1..3] == rec[1..3];
    HeaderBadIff(raw[..HEADER_LEN], vers, vers != 0, complete);
    assert raw[..|rec|] == rec;
  }

  lemma BodyLength(h: Half, typ: byte, vers: nat, payload: bytes, iv: bytes)
    requires Good(h)
    ensures |Record(h, typ, vers, payload, iv)| == HEADER_LEN + |Body(h, typ, vers, payload, iv)|
  {
    hide Body;
  }

  /** Under one key no two of the records written have the same sequence number, and so no two the same
      nonce. */
  lemma WrittenNonces(ws: seq<Half>, recs: seq<bytes>, typ: byte, vers: nat, parts: seq<bytes>, iv: nat -> bytes, i: nat, j: nat)
    requires Written(ws, recs, typ, vers, parts, iv) && i < j < |recs| && !ws[0].cipher.NoCipher?
    ensures Be(ws[i].num, 8) != Be(ws[j].num, 8) && ws[i].num == ws[0].num + i
  {
    var bodies := BodiesOf(ws, recs, typ, vers, parts, iv, |recs|);
    hide Body, Record, Be, Good;
    assert ws[..|recs| + 1] == ws;
    NoncesDiffer(ws, bodies, i, j);
    TlsSound.Counted(ws, bodies, i);
  }

  lemma {:induction false} BodiesOf(ws: seq<Half>, recs: seq<bytes>, typ: byte, vers: nat, parts: seq<bytes>, iv: nat -> bytes, n: nat)
      returns (bodies: seq<bytes>)
    requires Written(ws, recs, typ, vers, parts, iv) && n <= |recs|
    ensures Writes(ws[..n + 1], bodies) && |bodies| == n
  {
    hide Body, Record, WriteAfter, Good;
    bodies := [];
    if n > 0 {
      var i := n - 1;
      bodies := BodiesOf(ws, recs, typ, vers, parts, iv, i);
      assert WrittenAt(ws, recs, typ, vers, parts, iv, i);
      var all := bodies + [Body(ws[i], typ, RecordVersion(vers), parts[i], iv(|Flatten(parts[..i])|))];
      forall j | 0 <= j < n ensures Good(ws[..n + 1][j]) && ws[..n + 1][j + 1] == WriteAfter(ws[..n + 1][j], all[j]) {
        if j < i { assert ws[..i + 1][j] == ws[j] && ws[..i + 1][j + 1] == ws[j + 1] && all[j] == bodies[j]; }
      }
      bodies := all;
    }
  }
}
