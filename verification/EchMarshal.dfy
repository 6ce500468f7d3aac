/**
  Which extensions a ClientHello is marshalled with, and in which order, by
  `marshalMsgReorderOuterExts` of `handshake_messages.go`: for an outer hello, for the inner hello of
  Encrypted Client Hello, and for an inner hello that refers to the outer extensions in a given order.
*/
module EchMarshal {
  import opened Wire
  import opened Cursor
  import opened Ech

  /** The extensions of a hello, each with the bytes it is marshalled to, if it is there at all. */
  datatype Fields = Fields(
    serverName: Option<bytes>, supportedPoints: Option<bytes>, sessionTicket: Option<bytes>,
    renegotiation: Option<bytes>, extendedMasterSecret: Option<bytes>, scts: Option<bytes>,
    earlyData: Option<bytes>, quicParameters: Option<bytes>, encryptedClientHello: Option<bytes>,
    statusRequest: Option<bytes>, supportedCurves: Option<bytes>, signatureAlgorithms: Option<bytes>,
    signatureAlgorithmsCert: Option<bytes>, alpn: Option<bytes>, supportedVersions: Option<bytes>,
    cookie: Option<bytes>, keyShare: Option<bytes>, pskModes: Option<bytes>, trustAnchors: Option<bytes>,
    preSharedKey: Option<bytes>)

  /** What the marshaller does with an extension: always write it; leave it out of inner hellos; replace it in
      inner hellos by a reference; or so only if no order of references is given. */
  datatype Kind = Plain | OuterOnly | Shared | Versions

  datatype Slot = Slot(typ: nat, body: Option<bytes>, kind: Kind)

  /** The extensions in the order of the marshaller, but for the pre-shared key, which comes last. */
  function Slots(f: Fields): (slots: seq<Slot>) {
    [ Slot(0, f.serverName, Plain),
      Slot(11, f.supportedPoints, OuterOnly),
      Slot(35, f.sessionTicket, OuterOnly),
      Slot(0xff01, f.renegotiation, OuterOnly),
      Slot(23, f.extendedMasterSecret, OuterOnly),
      Slot(18, f.scts, Plain),
      Slot(42, f.earlyData, Plain),
      Slot(57, f.quicParameters, Plain),
      Slot(ENCRYPTED_CLIENT_HELLO, f.encryptedClientHello, Plain),
      Slot(5, f.statusRequest, Shared),
      Slot(10, f.supportedCurves, Shared),
      Slot(13, f.signatureAlgorithms, Shared),
      Slot(50, f.signatureAlgorithmsCert, Shared),
      Slot(16, f.alpn, Plain),
      Slot(43, f.supportedVersions, Versions),
      Slot(44, f.cookie, Shared),
      Slot(51, f.keyShare, Shared),
      Slot(45, f.pskModes, Shared),
      Slot(0xca34, f.trustAnchors, Shared) ]
  }

  const PRE_SHARED_KEY: nat := 41

  /** Which extensions are written out, and which are referred to. */
  predicate Writes(k: Kind, echInner: bool, reordered: bool) {
    !echInner || k.Plain? || (k.Versions? && reordered)
  }

  predicate Refers(k: Kind, reordered: bool) { k.Shared? || (k.Versions? && !reordered) }

  /** The extensions in some of the slots. */
  function Pick(slots: seq<Slot>, want: Kind -> bool): (es: seq<Ext>) {
    if slots == [] then []
    else
      var first := slots[0];
      (if first.body.Some? && want(first.kind) then [Ext(first.typ, first.body.value)] else []) + Pick(slots[1..], want)
  }

  function Last(f: Fields): (es: seq<Ext>) {
    if f.preSharedKey.Some? then [Ext(PRE_SHARED_KEY, f.preSharedKey.value)] else []
  }

  function Wanted(echInner: bool, reordered: bool): Kind -> bool { k => Writes(k, echInner, reordered) }

  function Referred(reordered: bool): Kind -> bool { k => Refers(k, reordered) }

  /** An inner hello: what is written, what is referred to, and the pre-shared key. */
  function InnerOf(f: Fields, reordered: bool): (i: Inner) {
    Inner(Pick(Slots(f), Wanted(true, reordered)), Pick(Slots(f), Referred(reordered)), Last(f))
  }

  /** An outer hello: everything that is there. */
  function OuterOf(f: Fields): (es: seq<Ext>) {
    Pick(Slots(f), Wanted(false, false)) + Last(f)
  }

  /** The marshaller: one pass over the extensions, with the references collected on the side, put into
      order and written in front of the pre-shared key. */
  method Marshal(f: Fields, echInner: bool, outerExts: Option<seq<nat>>) returns (items: seq<Item>)
    ensures !echInner ==> items == Keeps(OuterOf(f))
    ensures echInner ==> items == Items(InnerOf(f, outerExts.Some?), Compressed(Types(InnerOf(f, outerExts.Some?).shared), outerExts))
  {
    hide Slots, Filter, Pick, Keeps, InnerOf, OuterOf, Compressed, Last, Types;
    TypesNone();
    var slots := Slots(f);
    var exts: seq<Ext>, echOuterExts: seq<nat> := [], [];
    ghost var shared: seq<Ext> := [];
    var reordered := outerExts.Some?;
    assert slots[0..] == slots;
    for i := 0 to |slots|
      invariant exts + Pick(slots[i..], Wanted(echInner, reordered)) == Pick(slots, Wanted(echInner, reordered))
      invariant echInner ==> shared + Pick(slots[i..], Referred(reordered)) == Pick(slots, Referred(reordered))
      invariant echOuterExts == Types(shared)
    {
      var slot := slots[i];
      PickAt(slots, i, Wanted(echInner, reordered), exts);
      PickAt(slots, i, Referred(reordered), shared);
      if slot.body.Some? {
        if Writes(slot.kind, echInner, reordered) {
          exts := exts + [Ext(slot.typ, slot.body.value)];
        }
        if echInner && Refers(slot.kind, reordered) {
          echOuterExts := echOuterExts + [slot.typ];
          TypesSnoc(shared, Ext(slot.typ, slot.body.value));
          shared := shared + [Ext(slot.typ, slot.body.value)];
        }
      }
    }
    PickNone(slots);
    assert exts + [] == exts && shared + [] == shared;
    if echInner {
      InnerIs(f, reordered, exts, shared);
      echOuterExts := Reorder(echOuterExts, outerExts);
    } else {
      OuterIs(f, reordered, exts);
    }
    items := Keeps(exts);
    assert items + [] == items;
    if echInner && |echOuterExts| > 0 {
      items := items + [Refer(echOuterExts)];
    }
    items := items + Keeps(Last(f));
  }

  lemma InnerIs(f: Fields, reordered: bool, exts: seq<Ext>, shared: seq<Ext>)
    requires exts == Pick(Slots(f), Wanted(true, reordered)) && shared == Pick(Slots(f), Referred(reordered))
    ensures InnerOf(f, reordered) == Inner(exts, shared, Last(f))
  {
  }

  lemma OuterIs(f: Fields, reordered: bool, exts: seq<Ext>)
    requires exts == Pick(Slots(f), Wanted(false, reordered))
    ensures Keeps(OuterOf(f)) == Keeps(exts) + Keeps(Last(f))
  {
    NotReordered(Slots(f), reordered);
    KeepsConcat(exts, Last(f));
  }

  lemma PickNone(slots: seq<Slot>)
    ensures forall want: Kind -> bool :: Pick(slots[|slots|..], want) == []
  {
  }

  lemma PickAt(slots: seq<Slot>, i: nat, want: Kind -> bool, front: seq<Ext>)
    requires i < |slots|
    ensures var rest := Pick(slots[i + 1..], want);
            front + Pick(slots[i..], want) ==
              if slots[i].body.Some? && want(slots[i].kind) then front + [Ext(slots[i].typ, slots[i].body.value)] + rest else front + rest
  {
    assert slots[i..][1..] == slots[i + 1..];
  }

  lemma TypesNone()
    ensures Types([]) == []
  {
  }

  lemma TypesSnoc(es: seq<Ext>, e: Ext)
    ensures Types(es + [e]) == Types(es) + [e.typ]
  {
  }

  lemma {:induction false} NotReordered(slots: seq<Slot>, reordered: bool)
    ensures Pick(slots, Wanted(false, reordered)) == Pick(slots, Wanted(false, false))
  {
    if slots != [] { NotReordered(slots[1..], reordered); }
  }

  lemma {:induction false} KeepsConcat(a: seq<Ext>, b: seq<Ext>)
    ensures Keeps(a + b) == Keeps(a) + Keeps(b)
  {
    var ab := a + b;
    assert |ab| == |a| + |b| && |Keeps(ab)| == |ab| && |Keeps(a)| == |a| && |Keeps(b)| == |b|;
    forall i | 0 <= i < |ab| ensures Keeps(ab)[i] == (Keeps(a) + Keeps(b))[i] {
      assert Keeps(ab)[i] == Keep(ab[i]);
    }
  }

  // ----- the order of outer and inner hellos

  /** The same extensions in the same places; what one refers to, the other has. */
  ghost predicate Parallel(xs: seq<Slot>, ys: seq<Slot>, want: Kind -> bool) {
    && |xs| == |ys|
    && forall i :: 0 <= i < |xs| ==>
         && xs[i].typ == ys[i].typ && xs[i].kind == ys[i].kind
         && (xs[i].body.Some? && want(xs[i].kind) ==> ys[i].body == xs[i].body)
  }

  /** The types an inner hello refers to are a part of the order of any outer hello that has them. */
  lemma {:induction false} PickSub(xs: seq<Slot>, ys: seq<Slot>, want: Kind -> bool, last: seq<Ext>)
    requires Parallel(xs, ys, want)
    ensures IsSub(Types(Pick(xs, want)), Types(Pick(ys, Wanted(false, false)) + last))
  {
    hide IsSub;
    if xs == [] {
      TypesNone();
      NothingSub(Types(Pick(ys, Wanted(false, false)) + last));
    } else {
      PickSub(xs[1..], ys[1..], want, last);
      PickTypes(xs, want, []);
      PickTypes(ys, Wanted(false, false), last);
      NoMore(Pick(xs, want));
      NoMore(Pick(xs[1..], want));
      var ts, us := Types(Pick(xs[1..], want)), Types(Pick(ys[1..], Wanted(false, false)) + last);
      hide Pick, Types;
      SubCons(ts, us, ys[0].typ);
    }
  }

  lemma PickTypes(slots: seq<Slot>, want: Kind -> bool, last: seq<Ext>)
    requires slots != []
    ensures var rest := Types(Pick(slots[1..], want) + last);
            Types(Pick(slots, want) + last) == if slots[0].body.Some? && want(slots[0].kind) then [slots[0].typ] + rest else rest
  {
    hide Types;
    var rest := Pick(slots[1..], want);
    if slots[0].body.Some? && want(slots[0].kind) {
      var e := Ext(slots[0].typ, slots[0].body.value);
      Regroup([e], rest, last);
      TypesCons(e, rest + last);
    } else {
      assert [] + rest == rest;
    }
  }

  lemma NoMore(es: seq<Ext>)
    ensures es + [] == es
  {
  }

  lemma Regroup(a: seq<Ext>, b: seq<Ext>, c: seq<Ext>)
    ensures a + b + c == a + (b + c)
  {
  }

  lemma TypesCons(e: Ext, es: seq<Ext>)
    ensures Types([e] + es) == [e.typ] + Types(es)
  {
  }

  lemma NothingSub(us: seq<nat>)
    ensures IsSub([], us)
  {
  }

  lemma SubCons(ts: seq<nat>, us: seq<nat>, t: nat)
    requires IsSub(ts, us)
    ensures IsSub(ts, [t] + us) && IsSub([t] + ts, [t] + us)
  {
    assert ([t] + us)[1..] == us && ([t] + ts)[1..] == ts;
  }

  /** The order of the extensions on the wire. */
  const ORDER: seq<nat> := [0, 11, 35, 0xff01, 23, 18, 42, 57, 0xfe0d, 5, 10, 13, 50, 16, 43, 44, 51, 45, 0xca34]

  lemma {:induction false} PickOrder(slots: seq<Slot>, us: seq<nat>, want: Kind -> bool)
    requires |us| == |slots| && forall i :: 0 <= i < |us| ==> us[i] == slots[i].typ
    ensures IsSub(Types(Pick(slots, want)), us)
  {
    if slots == [] {
      TypesNone();
      NothingSub(us);
    } else {
      PickOrder(slots[1..], us[1..], want);
      PickTypes(slots, want, []);
      NoMore(Pick(slots, want));
      NoMore(Pick(slots[1..], want));
      assert us == [us[0]] + us[1..];
      hide Pick, Types;
      SubCons(Types(Pick(slots[1..], want)), us[1..], us[0]);
    }
  }

  /** An outer hello has its extensions in this order, and an inner one both those it writes and those it refers
      to; the pre-shared key is behind them. */
  lemma InOrder(f: Fields, reordered: bool)
    ensures IsSub(Types(Pick(Slots(f), Wanted(false, reordered))), [0, 11, 35, 0xff01, 23, 18, 42, 57, 0xfe0d, 5, 10, 13, 50, 16, 43, 44, 51, 45, 0xca34])
    ensures IsSub(Types(InnerOf(f, reordered).plain), ORDER) && IsSub(Types(InnerOf(f, reordered).shared), ORDER)
    ensures OuterOf(f) == Pick(Slots(f), Wanted(false, false)) + (if f.preSharedKey.Some? then [Ext(41, f.preSharedKey.value)] else [])
  {
    hide Pick, IsSub;
    PickOrder(Slots(f), ORDER, Wanted(false, reordered));
    PickOrder(Slots(f), ORDER, Wanted(true, reordered));
    PickOrder(Slots(f), ORDER, Referred(reordered));
  }

  /** Where a picked extension comes from. */
  lemma {:induction false} PickIn(slots: seq<Slot>, want: Kind -> bool, e: Ext)
    ensures e in Pick(slots, want) <==>
              exists i :: 0 <= i < |slots| && slots[i].body == Some(e.data) && slots[i].typ == e.typ && want(slots[i].kind)
  {
    if slots != [] {
      PickIn(slots[1..], want, e);
      assert forall i :: 0 < i < |slots| ==> slots[1..][i - 1] == slots[i];
      if e in Pick(slots[1..], want) {
        var i :| 0 <= i < |slots[1..]| && slots[1..][i].body == Some(e.data) && slots[1..][i].typ == e.typ && want(slots[1..][i].kind);
        assert slots[i + 1] == slots[1..][i];
      }
    }
  }

  ghost predicate DistinctSlots(slots: seq<Slot>) {
    forall i, j :: 0 <= i < j < |slots| ==> slots[i].typ != slots[j].typ
  }

  lemma {:induction false} PickDistinct(slots: seq<Slot>, want: Kind -> bool)
    requires DistinctSlots(slots)
    ensures DistinctTypes(Pick(slots, want))
  {
    if slots != [] {
      PickDistinct(slots[1..], want);
      var rest := Pick(slots[1..], want);
      forall i | 0 <= i < |rest| ensures rest[i].typ != slots[0].typ {
        PickIn(slots[1..], want, rest[i]);
        var j :| 0 <= j < |slots[1..]| && slots[1..][j].typ == rest[i].typ;
        assert slots[j + 1] == slots[1..][j];
      }
    }
  }

  /** The place of a type, which shows that no two places have the same. */
  function PlaceOf(typ: nat): (i: int) {
    if typ == 0 then 0 else if typ == 11 then 1 else if typ == 35 then 2 else if typ == 0xff01 then 3
    else if typ == 23 then 4 else if typ == 18 then 5 else if typ == 42 then 6 else if typ == 57 then 7
    else if typ == ENCRYPTED_CLIENT_HELLO then 8 else if typ == 5 then 9 else if typ == 10 then 10
    else if typ == 13 then 11 else if typ == 50 then 12 else if typ == 16 then 13 else if typ == 43 then 14
    else if typ == 44 then 15 else if typ == 51 then 16 else if typ == 45 then 17 else if typ == 0xca34 then 18 else -1
  }

  lemma SlotsDistinct(f: Fields)
    ensures DistinctSlots(Slots(f)) && forall i :: 0 <= i < |Slots(f)| ==> Slots(f)[i].typ != PRE_SHARED_KEY && Slots(f)[i].typ < 0x10000
  {
    var slots := Slots(f);
    assert forall i :: 0 <= i < |slots| ==> PlaceOf(slots[i].typ) == i;
  }

  /** The outer hello has the same values for all that the inner one refers to. */
  ghost predicate SameShared(f: Fields, g: Fields, reordered: bool) {
    && (f.statusRequest.Some? ==> g.statusRequest == f.statusRequest)
    && (f.supportedCurves.Some? ==> g.supportedCurves == f.supportedCurves)
    && (f.signatureAlgorithms.Some? ==> g.signatureAlgorithms == f.signatureAlgorithms)
    && (f.signatureAlgorithmsCert.Some? ==> g.signatureAlgorithmsCert == f.signatureAlgorithmsCert)
    && (f.supportedVersions.Some? && !reordered ==> g.supportedVersions == f.supportedVersions)
    && (f.cookie.Some? ==> g.cookie == f.cookie)
    && (f.keyShare.Some? ==> g.keyShare == f.keyShare)
    && (f.pskModes.Some? ==> g.pskModes == f.pskModes)
    && (f.trustAnchors.Some? ==> g.trustAnchors == f.trustAnchors)
  }

  lemma SlotsParallel(f: Fields, g: Fields, reordered: bool)
    requires SameShared(f, g, reordered)
    ensures Parallel(Slots(f), Slots(g), Referred(reordered))
  {
  }

  /** So the extensions it has of these types are the inner hello's. */
  lemma OuterAgrees(f: Fields, g: Fields, reordered: bool)
    requires SameShared(f, g, reordered)
    ensures Agrees(OuterOf(g), InnerOf(f, reordered).shared)
    ensures DistinctTypes(InnerOf(f, reordered).shared) && ENCRYPTED_CLIENT_HELLO !in Types(InnerOf(f, reordered).shared)
  {
    SlotsParallel(f, g, reordered);
    SlotsDistinct(f);
    SharedPlain(f, reordered);
    hide Slots, Pick;
    var xs := Slots(f);
    var shared, outer := InnerOf(f, reordered).shared, OuterOf(g);
    PickDistinct(xs, Referred(reordered));
    forall k, i | 0 <= k < |outer| && 0 <= i < |shared| && outer[k].typ == shared[i].typ ensures outer[k].data == shared[i].data {
      assert shared[i] in shared && outer[k] in outer;
      SameValue(f, g, reordered, shared[i], outer[k]);
    }
  }

  lemma SameValue(f: Fields, g: Fields, reordered: bool, e: Ext, o: Ext)
    requires Parallel(Slots(f), Slots(g), Referred(reordered)) && e in InnerOf(f, reordered).shared && o in OuterOf(g) && o.typ == e.typ
    ensures o.data == e.data
  {
    SlotsDistinct(f);
    SlotsDistinct(g);
    hide Slots, Pick;
    var xs, ys := Slots(f), Slots(g);
    PickIn(xs, Referred(reordered), e);
    var a :| 0 <= a < |xs| && xs[a].body == Some(e.data) && xs[a].typ == e.typ && Referred(reordered)(xs[a].kind);
    assert o in Pick(ys, Wanted(false, false));
    PickIn(ys, Wanted(false, false), o);
    var b :| 0 <= b < |ys| && ys[b].body == Some(o.data) && ys[b].typ == o.typ;
    assert a == b;
  }

  lemma SharedPlain(f: Fields, reordered: bool)
    ensures ENCRYPTED_CLIENT_HELLO !in Types(InnerOf(f, reordered).shared)
  {
    KindOfEch(f);
    hide Slots;
    var shared := InnerOf(f, reordered).shared;
    forall i | 0 <= i < |shared| ensures shared[i].typ != ENCRYPTED_CLIENT_HELLO {
      assert shared[i] in shared;
      PickIn(Slots(f), Referred(reordered), shared[i]);
    }
  }

  lemma KindOfEch(f: Fields)
    ensures forall i :: 0 <= i < |Slots(f)| && Slots(f)[i].typ == ENCRYPTED_CLIENT_HELLO ==> Slots(f)[i].kind.Plain?
  {
    assert forall i :: 0 <= i < |Slots(f)| ==> PlaceOf(Slots(f)[i].typ) == i;
  }

  /** The compressed list is always a part of the order of the outer hello, so it is resolved to exactly the
      inner hello's extensions, in the order the inner hello would have been marshalled in. */
  lemma DecodeDefault(f: Fields, g: Fields)
    requires SameShared(f, g, false)
    ensures var i := InnerOf(f, false);
            && IsSub(Types(i.shared), Types(OuterOf(g)))
            && Expanded(Items(i, Compressed(Types(i.shared), None)), OuterOf(g)) == Some(i.plain + i.shared + i.last)
  {
    hide Slots;
    SlotsParallel(f, g, false);
    OuterAgrees(f, g, false);
    PickSub(Slots(f), Slots(g), Referred(false), Last(g));
    DecodeInOrder(InnerOf(f, false), OuterOf(g));
  }

  /** With references in any given order `us`, and an outer hello that was put together in any way: decoding
      succeeds exactly if those of the order that are referred to come forward in the outer hello, as they
      do in its own order. Then all comes back that the order names, so everything exactly if it names all
      that the inner hello refers to. */
  lemma DecodeGiven(f: Fields, outer: seq<Ext>, us: seq<nat>)
    requires Agrees(outer, InnerOf(f, true).shared)
    ensures var i := InnerOf(f, true);
            var list := Compressed(Types(i.shared), Some(us));
            var found := Carried(list, ValueMap(i.shared));
            && Expanded(Items(i, list), outer) == (if Forward(list, Types(outer)) then Some(i.plain + found + i.last) else None)
            && (us == Types(outer) ==> Forward(list, Types(outer)))
            && ((forall e :: e in found <==> e in i.shared) <==> (forall t :: t in Types(i.shared) ==> t in us))
  {
    hide Slots;
    SlotsDistinct(f);
    SharedPlain(f, true);
    PickDistinct(Slots(f), Referred(true));
    DecodeReordered(InnerOf(f, true), outer, us);
  }

  /** What comes back: every extension of the inner hello but the four that only make sense before TLS 1.3. */
  lemma Recovered(f: Fields, reordered: bool, e: Ext)
    ensures var i := InnerOf(f, reordered);
            e in i.plain + i.shared + i.last <==>
              || (exists k :: 0 <= k < |Slots(f)| && Slots(f)[k].body == Some(e.data) && Slots(f)[k].typ == e.typ && !Slots(f)[k].kind.OuterOnly?)
              || (f.preSharedKey == Some(e.data) && e.typ == PRE_SHARED_KEY)
  {
    hide Slots;
    PickIn(Slots(f), Wanted(true, reordered), e);
    PickIn(Slots(f), Referred(reordered), e);
  }

  // ----- from client to server

  /** `encodeInnerClientHelloReorderOuterExts`: the hello without header and session id, its shared extensions
      by reference, and zeros behind; `name` is the length of the server name. It fails exactly when a
      length does not fit its field. */
  method EncodeInner(front: bytes, suites: bytes, compression: bytes, f: Fields, outerExts: Option<seq<nat>>, name: nat, maxNameLength: nat)
      returns (r: Option<bytes>, ghost hello: Hello, ghost items: seq<Item>, ghost zeros: nat)
    requires |front| == 34 && f.encryptedClientHello.Some?
    ensures var i := InnerOf(f, outerExts.Some?); items == Items(i, Compressed(Types(i.shared), outerExts))
    ensures hello == Hello(front, [], suites, compression, ItemBytes(items))
    ensures r.Some? ==> Encodes(r.value, hello, items, zeros)
    ensures r.Some? <==> HelloFits(hello) && ItemsFit(items)
    ensures r.Some? ==>
              var gap := if name == 0 then maxNameLength + 9 else if name > maxNameLength then 0 else maxNameLength - name;
              && |r.value| == |Body(hello)| + zeros && zeros < 32 && (|r.value| + gap) % 32 == 0
              && forall i :: |Body(hello)| <= i < |r.value| ==> r.value[i] == 0
  {
    hide Power, ItemBytes, Items, Filter, FromSession, ItemsFit, HelloFits;
    var list := Marshal(f, true, outerExts);
    items := list;
    var h := Hello(front, [], suites, compression, ItemBytes(list));
    hello, zeros := h, 0;
    if !HelloFits(h) || !ItemsFit(list) {
      return None, hello, items, zeros;
    }
    BodyLen(h);
    var n := PaddingLen(|Body(h)|, NameGap(name, maxNameLength));
    PaddingRounds(|Body(h)|, NameGap(name, maxNameLength));
    zeros := n;
    r := Some(Body(h) + Zeros(n));
  }

  lemma BodyLen(h: Hello)
    requires HelloFits(h)
    ensures |Body(h)| > 0
  {
  }

  /** An inner hello, encoded and then decoded against an outer hello that carries the same values, comes back as
      the bytes of a hello with every field of the inner one and the session id of the outer one;
      provided only that lengths fit their fields. */
  method Transmit(front: bytes, suites: bytes, compression: bytes, f: Fields, name: nat, maxNameLength: nat,
                  original: bytes, sessionId: bytes, ghost outer: Hello, ghost g: Fields)
      returns (sent: Option<bytes>, r: Option<bytes>)
    requires |front| == 34 && f.encryptedClientHello.Some?
    requires SameShared(f, g, false) && Carries(original, sessionId, outer, OuterOf(g))
    ensures var i := InnerOf(f, false);
            var full := Hello(front, outer.sessionId, suites, compression, ExtBytes(i.plain + i.shared + i.last));
            sent.Some? && HelloFits(full) ==> r == Some(HelloBytes(full))
    ensures var items := Items(InnerOf(f, false), Types(InnerOf(f, false).shared));
            sent.Some? <==> HelloFits(Hello(front, [], suites, compression, ItemBytes(items))) && ItemsFit(items)
  {
    hide Power, ItemBytes, ExtBytes, Items, Filter, FromSession, Expanded, Carries, Encodes, HelloFits, ItemsFit, InnerOf, OuterOf;
    DecodeDefault(f, g);
    ghost var hello, items, zeros;
    sent, hello, items, zeros := EncodeInner(front, suites, compression, f, None, name, maxNameLength);
    r := None;
    if sent.Some? {
      r := DecodeInner(original, sessionId, sent.value, outer, OuterOf(g), hello, items, zeros);
    }
  }
}
