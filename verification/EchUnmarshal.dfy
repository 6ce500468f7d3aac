/**
  The end of `decodeInnerClientHello`: the reconstructed bytes are parsed by `unmarshal` of
  `handshake_messages.go` and checked, so that what the server goes on with are the fields of the inner
  hello. How one extension is parsed stays a parameter: `readable` says whether its bytes are in order.
*/
module EchUnmarshal {
  import opened Wire
  import opened Cursor
  import opened Ech
  import opened EchMarshal

  function NoFields(): (f: Fields) {
    Fields(None, None, None, None, None, None, None, None, None, None, None, None, None, None, None, None, None, None, None, None)
  }

  /** The types that `unmarshal` does not ignore. */
  predicate Known(typ: nat) { PlaceOf(typ) >= 0 || typ == PRE_SHARED_KEY }

  function Get(f: Fields, typ: nat): (body: Option<bytes>) {
    if typ == 0 then f.serverName else if typ == 11 then f.supportedPoints else if typ == 35 then f.sessionTicket
    else if typ == 0xff01 then f.renegotiation else if typ == 23 then f.extendedMasterSecret else if typ == 18 then f.scts
    else if typ == 42 then f.earlyData else if typ == 57 then f.quicParameters
    else if typ == ENCRYPTED_CLIENT_HELLO then f.encryptedClientHello else if typ == 5 then f.statusRequest
    else if typ == 10 then f.supportedCurves else if typ == 13 then f.signatureAlgorithms
    else if typ == 50 then f.signatureAlgorithmsCert else if typ == 16 then f.alpn else if typ == 43 then f.supportedVersions
    else if typ == 44 then f.cookie else if typ == 51 then f.keyShare else if typ == 45 then f.pskModes
    else if typ == 0xca34 then f.trustAnchors else if typ == PRE_SHARED_KEY then f.preSharedKey else None
  }

  /** The switch over the types. */
  function Set(f: Fields, typ: nat, body: bytes): (g: Fields) {
    var b := Some(body);
    if typ == 0 then f.(serverName := b) else if typ == 11 then f.(supportedPoints := b)
    else if typ == 35 then f.(sessionTicket := b) else if typ == 0xff01 then f.(renegotiation := b)
    else if typ == 23 then f.(extendedMasterSecret := b) else if typ == 18 then f.(scts := b)
    else if typ == 42 then f.(earlyData := b) else if typ == 57 then f.(quicParameters := b)
    else if typ == ENCRYPTED_CLIENT_HELLO then f.(encryptedClientHello := b) else if typ == 5 then f.(statusRequest := b)
    else if typ == 10 then f.(supportedCurves := b) else if typ == 13 then f.(signatureAlgorithms := b)
    else if typ == 50 then f.(signatureAlgorithmsCert := b) else if typ == 16 then f.(alpn := b)
    else if typ == 43 then f.(supportedVersions := b) else if typ == 44 then f.(cookie := b)
    else if typ == 51 then f.(keyShare := b) else if typ == 45 then f.(pskModes := b)
    else if typ == 0xca34 then f.(trustAnchors := b) else if typ == PRE_SHARED_KEY then f.(preSharedKey := b) else f
  }

  ghost function FieldsOf(es: seq<Ext>): (f: Fields) {
    if es == [] then NoFields() else Set(FieldsOf(es[..|es| - 1]), es[|es| - 1].typ, es[|es| - 1].data)
  }

  /** The first `k` extensions are accepted: no type twice, all that are known in order, and the pre-shared key
      only at the end. */
  ghost predicate AcceptedTo(es: seq<Ext>, readable: Ext -> bool, k: nat)
    requires k <= |es|
  {
    && (forall i, j :: 0 <= i < j < k ==> es[i].typ != es[j].typ)
    && (forall i :: 0 <= i < k && Known(es[i].typ) ==> readable(es[i]))
    && (forall i :: 0 <= i < k && es[i].typ == PRE_SHARED_KEY ==> i == |es| - 1)
  }

  ghost predicate Acceptable(es: seq<Ext>, readable: Ext -> bool) { AcceptedTo(es, readable, |es|) }

  /** The loop of `unmarshal` over the extensions. */
  method ReadAll(s: bytes, readable: Ext -> bool, ghost want: seq<Ext>) returns (r: Option<Fields>)
    ensures s == ExtBytes(want) && AllFit(want) ==>
              r == if Acceptable(want, readable) then Some(FieldsOf(want)) else None
  {
    hide ExtBytes, Prefixed, Power, Be, Set, Known, AllFit, FieldsOf;
    var f, rest, seen := NoFields(), s, {};
    ghost var printed := s == ExtBytes(want) && AllFit(want);
    ghost var k := 0;
    assert want[0..] == want && want[..0] == [];
    NothingYet();
    while rest != []
      invariant k <= |want|
      invariant printed ==> rest == ExtBytes(want[k..]) && f == FieldsOf(want[..k]) && AcceptedTo(want, readable, k)
      invariant printed ==> forall t :: t in seen <==> exists i :: 0 <= i < k && want[i].typ == t
      decreases |rest|
    {
      ghost var e := Ext(0, []);
      if printed {
        ExtBytesAt(want, k);
        ExtBytesAt(want, k + 1);
        e := want[k];
        FitAt(want, k);
        FieldsMore(want, k);
      }
      var ok, typ, data;
      ok, typ, data, rest := NextExtension(rest, e.typ, e.data, if printed then ExtBytes(want[k + 1..]) else []);
      if !ok || typ in seen {
        return None;
      }
      seen := seen + {typ};
      if typ == PRE_SHARED_KEY && rest != [] {
        return None;
      }
      if Known(typ) && !readable(Ext(typ, data)) {
        return None;
      }
      f := Set(f, typ, data);
      if printed { k := k + 1; }
    }
    if printed {
      ExtBytesAt(want, k);
      assert want[..k] == want;
    }
    return Some(f);
  }

  lemma NothingYet()
    ensures FieldsOf([]) == NoFields()
  {
  }

  lemma FitAt(es: seq<Ext>, k: nat)
    requires AllFit(es) && k < |es|
    ensures es[k].typ < Power(2) && |es[k].data| < Power(2)
  {
  }

  lemma FieldsMore(es: seq<Ext>, k: nat)
    requires k < |es|
    ensures FieldsOf(es[..k + 1]) == Set(FieldsOf(es[..k]), es[k].typ, es[k].data)
  {
    assert es[..k + 1][..k] == es[..k];
  }

  datatype Parsed = Parsed(front: bytes, sessionId: bytes, suites: bytes, compression: bytes, fields: Fields)

  /** `unmarshal` */
  method Unmarshal(data: bytes, readable: Ext -> bool, ghost h: Hello, ghost es: seq<Ext>) returns (r: Option<Parsed>)
    ensures data == HelloBytes(h) && HelloFits(h) && h.exts == ExtBytes(es) && AllFit(es) ==>
              r == if |h.suites| % 2 == 0 && Acceptable(es, readable)
                   then Some(Parsed(h.front, h.sessionId, h.suites, h.compression, FieldsOf(es))) else None
  {
    hide Power, ExtBytes, FromSession, Be, AllFit, Prefixed, TakePrefixed, FieldsOf, Acceptable;
    r := None;
    if |data| < 38 {
      return;
    }
    if data == HelloBytes(h) && HelloFits(h) {
      HelloFront(h);
      SessionBack(h, []);
    }
    var a := TakePrefixed(data[38..], 1);
    if a.None? {
      return;
    }
    var b := TakePrefixed(a.value.tail, 2);
    if b.None? || |b.value.head| % 2 != 0 {
      return;
    }
    var c := TakePrefixed(b.value.tail, 1);
    if c.None? {
      return;
    }
    var fields := NoFields();
    if c.value.tail != [] {
      var d := TakePrefixed(c.value.tail, 2);
      if d.None? || d.value.tail != [] {
        return;
      }
      var all := ReadAll(d.value.head, readable, es);
      if all.None? {
        return;
      }
      fields := all.value;
    }
    return Some(Parsed(data[4..38], a.value.head, b.value.head, c.value.head, fields));
  }

  lemma HelloFront(h: Hello)
    requires |h.front| == 34
    ensures |HelloBytes(h)| >= 38 && HelloBytes(h)[4..38] == h.front && HelloBytes(h)[38..] == FromSession(h) + []
    ensures |Prefixed(2, h.exts) + []| >= 2
  {
    hide FromSession, Be;
    HelloParts(h);
    var b := HelloBytes(h);
    assert b == [1] + Be(|Body(h)|, 3) + h.front + FromSession(h);
  }

  // ----- the fields of an inner hello

  lemma GetSet(f: Fields, typ: nat, body: bytes, t: nat)
    requires Known(t)
    ensures Get(Set(f, typ, body), t) == if t == typ then Some(body) else Get(f, t)
  {
  }

  lemma SameFields(f: Fields, g: Fields)
    requires forall t :: Known(t) ==> Get(f, t) == Get(g, t)
    ensures f == g
  {
    assert Known(0) && Known(11) && Known(35) && Known(0xff01) && Known(23) && Known(18) && Known(42) && Known(57);
    assert Known(ENCRYPTED_CLIENT_HELLO) && Known(5) && Known(10) && Known(13) && Known(50) && Known(16) && Known(43);
    assert Known(44) && Known(51) && Known(45) && Known(0xca34) && Known(PRE_SHARED_KEY);
  }

  /** What a field is, in terms of the extensions. */
  lemma {:induction false} FieldsGet(es: seq<Ext>, t: nat, d: bytes)
    requires DistinctTypes(es) && Known(t)
    ensures Get(FieldsOf(es), t) == Some(d) <==> Ext(t, d) in es
  {
    hide Get, Set, Known;
    if es == [] {
      NoneThere(t);
    } else {
      var n := |es| - 1;
      var init := es[..n];
      FieldsGet(init, t, d);
      GetSet(FieldsOf(init), es[n].typ, es[n].data, t);
      assert es == init + [es[n]];
      assert Ext(t, d) in init ==> es[n].typ != t;
    }
  }

  lemma NoneThere(t: nat)
    ensures Get(FieldsOf([]), t) == None
  {
  }

  /** The fields an inner hello has for the server: all but the four kinds that are left out. */
  function InnerFields(f: Fields): (g: Fields) {
    f.(supportedPoints := None, sessionTicket := None, renegotiation := None, extendedMasterSecret := None)
  }

  ghost function AllOf(i: Inner): seq<Ext> { i.plain + i.shared + i.last }

  /** Every slot holds the field of its type. */
  lemma SlotHolds(f: Fields, k: nat)
    requires k < |Slots(f)|
    ensures var s := Slots(f)[k]; PlaceOf(s.typ) == k && s.typ != PRE_SHARED_KEY
    ensures var s := Slots(f)[k]; Get(InnerFields(f), s.typ) == if s.kind.OuterOnly? then None else s.body
  {
  }

  lemma SlotOf(f: Fields, t: nat)
    requires PlaceOf(t) >= 0
    ensures PlaceOf(t) < |Slots(f)| && Slots(f)[PlaceOf(t)].typ == t
  {
  }

  lemma LastHolds(f: Fields)
    ensures PlaceOf(PRE_SHARED_KEY) < 0 && Get(InnerFields(f), PRE_SHARED_KEY) == f.preSharedKey
  {
  }

  /** The extensions of an inner hello are its fields, known to `unmarshal`. */
  lemma InnerHas(f: Fields, reordered: bool, e: Ext)
    ensures e in AllOf(InnerOf(f, reordered)) <==> Known(e.typ) && Get(InnerFields(f), e.typ) == Some(e.data)
  {
    hide Slots, Get, PlaceOf;
    Recovered(f, reordered, e);
    LastHolds(f);
    var ss := Slots(f);
    forall k | 0 <= k < |ss|
      ensures PlaceOf(ss[k].typ) == k && ss[k].typ != PRE_SHARED_KEY
      ensures Get(InnerFields(f), ss[k].typ) == if ss[k].kind.OuterOnly? then None else ss[k].body
    {
      SlotHolds(f, k);
    }
    if PlaceOf(e.typ) >= 0 { SlotOf(f, e.typ); }
  }

  lemma DisjointPicks(slots: seq<Slot>, want: Kind -> bool, other: Kind -> bool, a: Ext, b: Ext)
    requires DistinctSlots(slots) && a in Pick(slots, want) && b in Pick(slots, other) && forall k: Kind :: !(want(k) && other(k))
    ensures a.typ != b.typ
  {
    PickIn(slots, want, a);
    PickIn(slots, other, b);
  }

  lemma PickedTypes(f: Fields, want: Kind -> bool)
    ensures forall e :: e in Pick(Slots(f), want) ==> e.typ != PRE_SHARED_KEY
  {
    SlotsDistinct(f);
    hide Slots;
    forall e | e in Pick(Slots(f), want) ensures e.typ != PRE_SHARED_KEY { PickIn(Slots(f), want, e); }
  }

  /** Which extensions an inner hello refers to, by their types: the nine that the outer hello can share, of
      which the versions are written out if an order is given. */
  lemma SharedTypes(f: Fields, reordered: bool, t: nat)
    ensures t in Types(InnerOf(f, reordered).shared) <==> Get(f, t).Some? && (t in {5, 10, 13, 50, 44, 51, 45, 0xca34} || (t == 43 && !reordered))
  {
    SlotFields(f);
    SlotKinds(f, reordered);
    KnownPlaces();
    if PlaceOf(t) >= 0 { SlotOf(f, t); }
    hide Slots, Get, PlaceOf;
    TypeIn(f, Referred(reordered), t);
  }

  /** And which it writes out: those that are about the inner hello itself. */
  lemma PlainTypes(f: Fields, reordered: bool, t: nat)
    ensures t in Types(InnerOf(f, reordered).plain) <==> Get(f, t).Some? && (t in {0, 18, 42, 57, 0xfe0d, 16} || (t == 43 && reordered))
  {
    SlotFields(f);
    SlotKinds(f, reordered);
    KnownPlaces();
    if PlaceOf(t) >= 0 { SlotOf(f, t); }
    hide Slots, Get, PlaceOf;
    TypeIn(f, Wanted(true, reordered), t);
  }

  lemma SlotFields(f: Fields)
    ensures forall k :: 0 <= k < |Slots(f)| ==> Get(f, Slots(f)[k].typ) == Slots(f)[k].body && PlaceOf(Slots(f)[k].typ) == k
  {
  }

  lemma KnownPlaces()
    ensures forall t: nat :: t in {5, 10, 13, 50, 44, 51, 45, 0xca34, 43, 0, 18, 42, 57, 0xfe0d, 16} ==> PlaceOf(t) >= 0
  {
  }

  lemma SlotKinds(f: Fields, reordered: bool)
    ensures forall k :: 0 <= k < |Slots(f)| ==>
              var s := Slots(f)[k];
              && (Referred(reordered)(s.kind) <==> s.typ in {5, 10, 13, 50, 44, 51, 45, 0xca34} || (s.typ == 43 && !reordered))
              && (Wanted(true, reordered)(s.kind) <==> s.typ in {0, 18, 42, 57, 0xfe0d, 16} || (s.typ == 43 && reordered))
  {
  }

  lemma TypeIn(f: Fields, want: Kind -> bool, t: nat)
    ensures t in Types(Pick(Slots(f), want)) <==> exists k :: 0 <= k < |Slots(f)| && Slots(f)[k].typ == t && Slots(f)[k].body.Some? && want(Slots(f)[k].kind)
  {
    hide Slots;
    var es := Pick(Slots(f), want);
    if t in Types(es) {
      var i :| 0 <= i < |es| && es[i].typ == t;
      assert es[i] in es;
      PickIn(Slots(f), want, es[i]);
    }
    if k :| 0 <= k < |Slots(f)| && Slots(f)[k].typ == t && Slots(f)[k].body.Some? && want(Slots(f)[k].kind) {
      var e := Ext(t, Slots(f)[k].body.value);
      PickIn(Slots(f), want, e);
      var i :| 0 <= i < |es| && es[i] == e;
      assert Types(es)[i] == t;
    }
  }

  /** They are distinct, and the pre-shared key is the last. */
  lemma InnerInOrder(f: Fields, reordered: bool)
    ensures var es := AllOf(InnerOf(f, reordered));
            DistinctTypes(es) && forall k :: 0 <= k < |es| && es[k].typ == PRE_SHARED_KEY ==> k == |es| - 1
  {
    SlotsDistinct(f);
    hide Slots;
    var i := InnerOf(f, reordered);
    var a, b := i.plain, i.shared;
    PickDistinct(Slots(f), Wanted(true, reordered));
    PickDistinct(Slots(f), Referred(reordered));
    PickedTypes(f, Wanted(true, reordered));
    PickedTypes(f, Referred(reordered));
    forall x, y | 0 <= x < |a| && 0 <= y < |b| ensures a[x].typ != b[y].typ {
      DisjointPicks(Slots(f), Wanted(true, reordered), Referred(reordered), a[x], b[y]);
    }
    assert forall x :: 0 <= x < |a| ==> a[x] in a;
    assert forall y :: 0 <= y < |b| ==> b[y] in b;
  }

  /** All that is there is in order. */
  ghost predicate AllReadable(f: Fields, readable: Ext -> bool) {
    forall e: Ext :: Known(e.typ) && Get(f, e.typ) == Some(e.data) ==> readable(e)
  }

  /** Parsing the extensions of an inner hello, in whatever order, gives back its fields. */
  lemma SameBack(f: Fields, reordered: bool, readable: Ext -> bool, es: seq<Ext>)
    requires forall e :: e in es <==> e in AllOf(InnerOf(f, reordered))
    requires DistinctTypes(es) && forall k :: 0 <= k < |es| && es[k].typ == PRE_SHARED_KEY ==> k == |es| - 1
    ensures FieldsOf(es) == InnerFields(f) && (Acceptable(es, readable) <==> AllReadable(InnerFields(f), readable))
  {
    hide Slots, Get, Known, InnerOf, InnerFields;
    forall e: Ext ensures e in es <==> Known(e.typ) && Get(InnerFields(f), e.typ) == Some(e.data) { InnerHas(f, reordered, e); }
    forall t | Known(t) ensures Get(FieldsOf(es), t) == Get(InnerFields(f), t) {
      var a, b := Get(FieldsOf(es), t), Get(InnerFields(f), t);
      if a.Some? { FieldsGet(es, t, a.value); }
      if b.Some? { FieldsGet(es, t, b.value); }
    }
    SameFields(FieldsOf(es), InnerFields(f));
    if Acceptable(es, readable) {
      forall e: Ext | e in es ensures readable(e) {
        var k :| 0 <= k < |es| && es[k] == e;
      }
    }
  }

  lemma InnerBack(f: Fields, reordered: bool, readable: Ext -> bool)
    ensures var es := AllOf(InnerOf(f, reordered));
            FieldsOf(es) == InnerFields(f) && (Acceptable(es, readable) <==> AllReadable(InnerFields(f), readable))
  {
    hide Slots, InnerOf, InnerFields, FieldsOf, Acceptable, AllReadable;
    InnerInOrder(f, reordered);
    SameBack(f, reordered, readable, AllOf(InnerOf(f, reordered)));
  }

  /** A given order that names all that an inner hello refers to, each once. */
  ghost predicate NamesAll(us: seq<nat>, types: seq<nat>) {
    (forall t :: t in types ==> t in us) && forall i, j :: 0 <= i < j < |us| && us[i] in types ==> us[i] != us[j]
  }

  /** The extensions that come back for references in the order `us`. */
  ghost function GivenAll(f: Fields, us: seq<nat>): seq<Ext> {
    var i := InnerOf(f, true);
    i.plain + Carried(Compressed(Types(i.shared), Some(us)), ValueMap(i.shared)) + i.last
  }

  lemma {:induction false} FilterDistinct(us: seq<nat>, types: seq<nat>)
    requires forall i, j :: 0 <= i < j < |us| && us[i] in types ==> us[i] != us[j]
    ensures var r := Filter(us, types); forall i, j :: 0 <= i < j < |r| ==> r[i] != r[j]
  {
    if us != [] {
      var rest := us[1..];
      assert forall i :: 0 <= i < |rest| ==> rest[i] == us[i + 1];
      FilterDistinct(rest, types);
      assert us[0] in types ==> us[0] !in Filter(rest, types);
      var r := Filter(rest, types);
      assert [] + r == r;
      assert forall i :: 0 <= i < |r| ==> r[i] in r;
    }
  }

  lemma GivenSame(f: Fields, outer: seq<Ext>, us: seq<nat>)
    requires Agrees(outer, InnerOf(f, true).shared) && NamesAll(us, Types(InnerOf(f, true).shared))
    ensures forall e :: e in GivenAll(f, us) <==> e in AllOf(InnerOf(f, true))
  {
    hide InnerOf, Carried, Compressed, ValueMap, Types, NamesAll, Agrees;
    GivenFound(f, outer, us);
  }

  lemma GivenInOrder(f: Fields, outer: seq<Ext>, us: seq<nat>)
    requires Agrees(outer, InnerOf(f, true).shared) && NamesAll(us, Types(InnerOf(f, true).shared))
    ensures var es := GivenAll(f, us);
            DistinctTypes(es) && forall k :: 0 <= k < |es| && es[k].typ == PRE_SHARED_KEY ==> k == |es| - 1
  {
    GivenOnce(f, us);
    GivenFound(f, outer, us);
    InnerInOrder(f, true);
    PickedTypes(f, Wanted(true, true));
    PickedTypes(f, Referred(true));
    hide Carried, ValueMap, Filter, Types, Compressed, Slots, Pick, DistinctTypes;
    var i := InnerOf(f, true);
    Replaced(i.plain, i.shared, i.last, Carried(Compressed(Types(i.shared), Some(us)), ValueMap(i.shared)));
  }

  lemma GivenOnce(f: Fields, us: seq<nat>)
    requires NamesAll(us, Types(InnerOf(f, true).shared))
    ensures var i := InnerOf(f, true); DistinctTypes(Carried(Compressed(Types(i.shared), Some(us)), ValueMap(i.shared)))
  {
    hide InnerOf, ValueMap, Filter, Types;
    var i := InnerOf(f, true);
    FilterDistinct(us, Types(i.shared));
    var list := Compressed(Types(i.shared), Some(us));
    assert list == Filter(us, Types(i.shared));
    assert forall k :: 0 <= k < |list| ==> Carried(list, ValueMap(i.shared))[k].typ == list[k];
  }

  lemma GivenFound(f: Fields, outer: seq<Ext>, us: seq<nat>)
    requires Agrees(outer, InnerOf(f, true).shared) && NamesAll(us, Types(InnerOf(f, true).shared))
    ensures var i := InnerOf(f, true);
            forall e :: e in Carried(Compressed(Types(i.shared), Some(us)), ValueMap(i.shared)) <==> e in i.shared
  {
    hide InnerOf, Carried, Compressed, ValueMap, Types;
    DecodeGiven(f, outer, us);
  }

  ghost predicate Apart(a: seq<Ext>, b: seq<Ext>) { forall x, y :: x in a && y in b ==> x.typ != y.typ }

  lemma TakenApart(a: seq<Ext>, b: seq<Ext>)
    ensures DistinctTypes(a + b) <==> DistinctTypes(a) && DistinctTypes(b) && Apart(a, b)
  {
    var ab := a + b;
    if DistinctTypes(ab) {
      assert forall i :: 0 <= i < |a| ==> a[i] == ab[i];
      assert forall i :: 0 <= i < |b| ==> b[i] == ab[|a| + i];
      forall x, y | x in a && y in b ensures x.typ != y.typ {
        var i :| 0 <= i < |a| && a[i] == x;
        var j :| 0 <= j < |b| && b[j] == y;
        assert ab[i].typ != ab[|a| + j].typ;
      }
    }
    if DistinctTypes(a) && DistinctTypes(b) && Apart(a, b) {
      forall i, j | 0 <= i < j < |ab| ensures ab[i].typ != ab[j].typ {
        assert i < |a| ==> ab[i] == a[i] && a[i] in a;
        assert j >= |a| ==> ab[j] == b[j - |a|] && b[j - |a|] in b;
      }
    }
  }

  /** A part of a list, replaced by one with the same elements, each once. */
  lemma Replaced(a: seq<Ext>, b: seq<Ext>, c: seq<Ext>, b': seq<Ext>)
    requires DistinctTypes(a + b + c) && DistinctTypes(b') && forall e :: e in b' <==> e in b
    requires |c| <= 1 && (forall e :: e in a ==> e.typ != PRE_SHARED_KEY) && forall e :: e in b ==> e.typ != PRE_SHARED_KEY
    ensures DistinctTypes(a + b' + c)
    ensures forall k :: 0 <= k < |a + b' + c| && (a + b' + c)[k].typ == PRE_SHARED_KEY ==> k == |a + b' + c| - 1
  {
    hide DistinctTypes;
    TakenApart(a + b, c);
    TakenApart(a, b);
    TakenApart(a, b');
    TakenApart(a + b', c);
    var es := a + b' + c;
    assert forall k :: 0 <= k < |a + b'| ==> es[k] == (a + b')[k] && (a + b')[k] in a + b';
  }

  // ----- from client to server

  const INNER_KIND: bytes := [1]

  /** One version, TLS 1.3. */
  const ONLY_TLS13: bytes := [2, 3, 4]

  /** `decodeInnerClientHello` */
  method Decode(original: bytes, outerSessionId: bytes, encoded: bytes, readable: Ext -> bool,
                ghost outer: Hello, ghost es: seq<Ext>, ghost inner: Hello, ghost items: seq<Item>, ghost zeros: nat, ghost all: seq<Ext>)
      returns (r: Option<Parsed>)
    ensures Encodes(encoded, inner, items, zeros) && Carries(original, outerSessionId, outer, es) && Expanded(items, es).None? ==> r == None
    ensures Encodes(encoded, inner, items, zeros) && Carries(original, outerSessionId, outer, es) && Expanded(items, es) == Some(all) && AllFit(all) ==>
              var f := FieldsOf(all);
              r == if && HelloFits(Hello(inner.front, outer.sessionId, inner.suites, inner.compression, ExtBytes(all)))
                      && |inner.suites| % 2 == 0 && Acceptable(all, readable)
                      && f.encryptedClientHello == Some(INNER_KIND) && f.supportedVersions == Some(ONLY_TLS13)
                   then Some(Parsed(inner.front, outer.sessionId, inner.suites, inner.compression, f)) else None
  {
    hide ExtBytes, Expanded, AllFit, Encodes, Carries, HelloFits, HelloBytes, FieldsOf, Acceptable;
    r := None;
    var recon := DecodeInner(original, outerSessionId, encoded, outer, es, inner, items, zeros);
    if recon.None? {
      return;
    }
    var h := Unmarshal(recon.value, readable, Hello(inner.front, outer.sessionId, inner.suites, inner.compression, ExtBytes(all)), all);
    if h.None? || h.value.fields.encryptedClientHello != Some(INNER_KIND) || h.value.fields.supportedVersions != Some(ONLY_TLS13) {
      return;
    }
    r := h;
  }

  /** An inner hello, encoded and then decoded against an outer hello with the same values for the compressible
      fields, where lengths fit: the server accepts it exactly if all its extensions are in order, it is
      marked as an inner hello and offers TLS 1.3 alone; and then the server has every field of the
      inner hello, but for the four kinds that are left out of it, and the session id of the outer one. */
  method Convey(front: bytes, suites: bytes, compression: bytes, f: Fields, name: nat, maxNameLength: nat,
                original: bytes, sessionId: bytes, readable: Ext -> bool, ghost outer: Hello, ghost g: Fields)
      returns (sent: Option<bytes>, r: Option<Parsed>)
    requires |front| == 34 && f.encryptedClientHello.Some?
    requires SameShared(f, g, false) && Carries(original, sessionId, outer, OuterOf(g))
    ensures sent.Some? && HelloFits(Hello(front, outer.sessionId, suites, compression, ExtBytes(AllOf(InnerOf(f, false))))) ==>
              r == if && |suites| % 2 == 0 && AllReadable(InnerFields(f), readable)
                      && f.encryptedClientHello == Some(INNER_KIND) && f.supportedVersions == Some(ONLY_TLS13)
                   then Some(Parsed(front, outer.sessionId, suites, compression, InnerFields(f))) else None
  {
    hide Power, ItemBytes, ExtBytes, Items, Filter, FromSession, Expanded, Carries, Encodes, HelloFits, ItemsFit, InnerOf, OuterOf,
         FieldsOf, Acceptable, AllReadable, AllFit, Slots;
    DecodeDefault(f, g);
    InnerBack(f, false, readable);
    ghost var hello, items, zeros;
    sent, hello, items, zeros := EncodeInner(front, suites, compression, f, None, name, maxNameLength);
    r := None;
    if sent.Some? {
      AllFits(f, g, original, sessionId, outer);
      r := Decode(original, sessionId, sent.value, readable, outer, OuterOf(g), hello, items, zeros, AllOf(InnerOf(f, false)));
    }
  }

  /** The same with references in a given order, against an outer hello put together in any way that has the same
      values for what is referred to: if the order names all of it once, the outcome is the same as long as the
      references come forward in the outer hello; if they do not, the server rejects. */
  method ConveyGiven(front: bytes, suites: bytes, compression: bytes, f: Fields, us: seq<nat>, name: nat, maxNameLength: nat,
                     original: bytes, sessionId: bytes, readable: Ext -> bool, ghost outer: Hello, ghost os: seq<Ext>)
      returns (sent: Option<bytes>, r: Option<Parsed>)
    requires |front| == 34 && f.encryptedClientHello.Some?
    requires Agrees(os, InnerOf(f, true).shared) && Carries(original, sessionId, outer, os)
    ensures sent.Some? && !Forward(Compressed(Types(InnerOf(f, true).shared), Some(us)), Types(os)) ==> r == None
    ensures sent.Some? && Forward(Compressed(Types(InnerOf(f, true).shared), Some(us)), Types(os))
            && NamesAll(us, Types(InnerOf(f, true).shared))
            && HelloFits(Hello(front, outer.sessionId, suites, compression, ExtBytes(GivenAll(f, us)))) ==>
              r == if && |suites| % 2 == 0 && AllReadable(InnerFields(f), readable)
                      && f.encryptedClientHello == Some(INNER_KIND) && f.supportedVersions == Some(ONLY_TLS13)
                   then Some(Parsed(front, outer.sessionId, suites, compression, InnerFields(f))) else None
  {
    hide Power, ItemBytes, ExtBytes, Items, Filter, FromSession, Expanded, Carries, Encodes, HelloFits, ItemsFit, InnerOf,
         FieldsOf, Acceptable, AllReadable, AllFit, Slots, Forward, Types, Carried, ValueMap, NamesAll, Compressed, DistinctTypes, Agrees;
    DecodeGiven(f, os, us);
    ghost var hello, items, zeros;
    sent, hello, items, zeros := EncodeInner(front, suites, compression, f, Some(us), name, maxNameLength);
    r := None;
    if sent.Some? {
      if NamesAll(us, Types(InnerOf(f, true).shared)) {
        GivenSame(f, os, us);
        GivenInOrder(f, os, us);
        SameBack(f, true, readable, GivenAll(f, us));
        if Forward(Compressed(Types(InnerOf(f, true).shared), Some(us)), Types(os)) {
          GivenFits(f, us, original, sessionId, outer, os);
        }
      }
      r := Decode(original, sessionId, sent.value, readable, outer, os, hello, items, zeros, GivenAll(f, us));
    }
  }

  lemma GivenFits(f: Fields, us: seq<nat>, original: bytes, sessionId: bytes, outer: Hello, os: seq<Ext>)
    requires Agrees(os, InnerOf(f, true).shared) && Carries(original, sessionId, outer, os)
    requires var i := InnerOf(f, true); var list := Compressed(Types(i.shared), Some(us));
             Forward(list, Types(os)) && ItemsFit(Items(i, list)) && NamesAll(us, Types(i.shared))
    ensures AllFit(GivenAll(f, us))
  {
    GivenFound(f, os, us);
    hide Slots, InnerOf, ValueMap, Forward, Filter, Items, Compressed, NamesAll, Carried, Types, Agrees;
    var i := InnerOf(f, true);
    var list := Compressed(Types(i.shared), Some(us));
    ForwardIn(list, Types(os));
    FoundFits(list, ValueMap(i.shared), i.shared, os);
    KeptFit(i, list);
  }

  lemma FoundFits(list: seq<nat>, value: map<nat, bytes>, shared: seq<Ext>, os: seq<Ext>)
    requires (forall t :: t in list ==> t in Types(os)) && (forall e :: e in Carried(list, value) ==> e in shared)
    requires Agrees(os, shared) && AllFit(os)
    ensures AllFit(Carried(list, value))
  {
    hide Fit;
    var found := Carried(list, value);
    forall k | 0 <= k < |found| ensures Fit(found[k]) {
      assert list[k] in Types(os) && found[k] in shared;
      var j :| 0 <= j < |os| && Types(os)[j] == found[k].typ;
      var m :| 0 <= m < |shared| && shared[m] == found[k];
      assert os[j].data == shared[m].data && Fit(os[j]);
      assert os[j] == found[k];
    }
  }

  lemma {:induction false} ForwardIn(ts: seq<nat>, us: seq<nat>)
    requires Forward(ts, us)
    ensures forall t :: t in ts ==> t in us
    decreases |ts| + |us|
  {
    if ts != [] {
      if ts[0] == us[0] && Forward(ts[1..], us) {
        ForwardIn(ts[1..], us);
        assert forall t :: t in ts ==> t == ts[0] || t in ts[1..];
      } else {
        ForwardIn(ts, us[1..]);
      }
    }
  }

  lemma {:induction false} SubIn(ts: seq<nat>, us: seq<nat>)
    requires IsSub(ts, us)
    ensures forall t :: t in ts ==> t in us
    decreases |us|
  {
    if ts != [] {
      if ts[0] == us[0] && IsSub(ts[1..], us[1..]) {
        SubIn(ts[1..], us[1..]);
        assert forall t :: t in ts ==> t == ts[0] || t in ts[1..];
      } else {
        SubIn(ts, us[1..]);
      }
    }
  }

  /** Extensions that fitted one by one, or come from the outer hello, fit together. */
  lemma AllFits(f: Fields, g: Fields, original: bytes, sessionId: bytes, outer: Hello)
    requires SameShared(f, g, false) && Carries(original, sessionId, outer, OuterOf(g))
    requires ItemsFit(Items(InnerOf(f, false), Types(InnerOf(f, false).shared)))
    ensures AllFit(AllOf(InnerOf(f, false)))
  {
    OuterAgrees(f, g, false);
    DecodeDefault(f, g);
    hide Slots, InnerOf, OuterOf, Expanded;
    var i, os := InnerOf(f, false), OuterOf(g);
    SubIn(Types(i.shared), Types(os));
    forall k | 0 <= k < |i.shared| ensures Fit(i.shared[k]) {
      assert Types(i.shared)[k] in Types(os);
      var j :| 0 <= j < |os| && Types(os)[j] == i.shared[k].typ;
      assert os[j].data == i.shared[k].data && Fit(os[j]);
    }
    KeptFit(i, Types(i.shared));
  }

  lemma KeptFit(i: Inner, list: seq<nat>)
    requires ItemsFit(Items(i, list))
    ensures AllFit(i.plain) && AllFit(i.last)
  {
    var mid := if list == [] then [] else [Refer(list)];
    var items := Items(i, list);
    forall k | 0 <= k < |i.plain| ensures Fit(i.plain[k]) {
      assert items[k] == Keep(i.plain[k]) && ItemFits(items[k]);
    }
    forall k | 0 <= k < |i.last| ensures Fit(i.last[k]) {
      assert items[|i.plain| + |mid| + k] == Keep(i.last[k]) && ItemFits(items[|i.plain| + |mid| + k]);
    }
  }
}
