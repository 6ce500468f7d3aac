/**
  The encoded inner ClientHello of Encrypted Client Hello: how `handshake_messages.go` leaves out the
  extensions that the outer hello carries as well, and how `ech.go` puts them back. An extension is its
  type and its bytes; what the bytes mean is not looked at here.
*/
module Ech {
  import opened Wire
  import opened Cursor

  const OUTER_EXTENSIONS: nat := 0xfd00
  const ENCRYPTED_CLIENT_HELLO: nat := 0xfe0d

  datatype Ext = Ext(typ: nat, data: bytes)

  function ExtBytes(es: seq<Ext>): (r: bytes) {
    if es == [] then [] else Be(es[0].typ, 2) + Prefixed(2, es[0].data) + ExtBytes(es[1..])
  }

  predicate Fit(e: Ext) { e.typ < Power(2) && |e.data| < Power(2) }

  ghost predicate AllFit(es: seq<Ext>) { forall i :: 0 <= i < |es| ==> Fit(es[i]) }

  /** A ClientHello; `front` is its version and random. */
  datatype Hello = Hello(front: bytes, sessionId: bytes, suites: bytes, compression: bytes, exts: bytes)

  function FromSession(h: Hello): (r: bytes) {
    Prefixed(1, h.sessionId) + (Prefixed(2, h.suites) + (Prefixed(1, h.compression) + Prefixed(2, h.exts)))
  }

  /** A hello without its four-byte header. */
  function Body(h: Hello): (r: bytes) { h.front + FromSession(h) }

  function HelloBytes(h: Hello): (r: bytes) { [1] + Prefixed(3, Body(h)) }

  predicate HelloFits(h: Hello) {
    && |h.front| == 34 && |h.sessionId| < Power(1) && |h.suites| < Power(2) && |h.compression| < Power(1)
    && |h.exts| < Power(2) && |Body(h)| < Power(3)
  }

  /** The layout of a hello and of its extensions. */
  lemma HelloLayout(h: Hello)
    ensures var body := h.front + (Be(|h.sessionId|, 1) + h.sessionId) + (Be(|h.suites|, 2) + h.suites)
                        + (Be(|h.compression|, 1) + h.compression) + (Be(|h.exts|, 2) + h.exts);
            Body(h) == body && HelloBytes(h) == [1] + Be(|body|, 3) + body
  {
    hide Be;
    var a, b, c, d := Prefixed(1, h.sessionId), Prefixed(2, h.suites), Prefixed(1, h.compression), Prefixed(2, h.exts);
    assert h.front + (a + (b + (c + d))) == h.front + a + b + c + d;
    assert [1] + (Be(|Body(h)|, 3) + Body(h)) == [1] + Be(|Body(h)|, 3) + Body(h);
  }

  lemma ExtLayout(e: Ext, es: seq<Ext>)
    ensures ExtBytes([]) == [] && ExtBytes([e] + es) == Be(e.typ, 2) + (Be(|e.data|, 2) + e.data) + ExtBytes(es)
  {
    assert ([e] + es)[1..] == es;
  }

  // ----- leaving out what the outer hello has

  function TypeList(ts: seq<nat>): (r: bytes) {
    if ts == [] then [] else Be(ts[0], 2) + TypeList(ts[1..])
  }

  /** An extension of an encoded inner hello: one that is there, or a reference to some of the outer ones. */
  datatype Item = Keep(e: Ext) | Refer(types: seq<nat>)

  function ItemExt(i: Item): (e: Ext) {
    match i case Keep(e) => e case Refer(ts) => Ext(OUTER_EXTENSIONS, Prefixed(1, TypeList(ts)))
  }

  function ItemBytes(items: seq<Item>): (r: bytes) {
    if items == [] then [] else Be(ItemExt(items[0]).typ, 2) + Prefixed(2, ItemExt(items[0]).data) + ItemBytes(items[1..])
  }

  predicate ItemFits(i: Item) {
    && Fit(ItemExt(i))
    && match i
       case Keep(e) => e.typ != OUTER_EXTENSIONS
       case Refer(ts) => |TypeList(ts)| < Power(1) && forall k :: 0 <= k < |ts| ==> ts[k] < Power(2)
  }

  predicate ItemsFit(items: seq<Item>) { forall i :: 0 <= i < |items| ==> ItemFits(items[i]) }

  // ----- putting it back

  /** The first extension of this type from position `i` on. */
  function First(outer: seq<Ext>, i: nat, t: nat): (j: nat)
    requires i <= |outer|
    ensures i <= j <= |outer| && (j < |outer| ==> outer[j].typ == t) && forall k :: i <= k < j ==> outer[k].typ != t
    decreases |outer| - i
  {
    if i == |outer| || outer[i].typ == t then i else First(outer, i + 1, t)
  }

  /** The outer extensions a reference stands for: each is looked for from where the last was found. */
  function Select(outer: seq<Ext>, i: nat, ts: seq<nat>): (r: Option<seq<Ext>>)
    requires i <= |outer|
    decreases |ts|
  {
    if ts == [] then Some([])
    else if ts[0] == ENCRYPTED_CLIENT_HELLO then None
    else
      var j := First(outer, i, ts[0]);
      if j == |outer| then None
      else match Select(outer, j, ts[1..])
        case None => None
        case Some(es) => Some([outer[j]] + es)
  }

  /** The extensions that the items stand for. */
  function Expanded(items: seq<Item>, outer: seq<Ext>): (r: Option<seq<Ext>>) {
    if items == [] then Some([])
    else
      var first := match items[0] case Keep(e) => Some([e]) case Refer(ts) => Select(outer, 0, ts);
      match (first, Expanded(items[1..], outer))
      case (Some(a), Some(b)) => Some(a + b)
      case _ => None
  }

  lemma ExtBytesAt(es: seq<Ext>, k: nat)
    requires k <= |es|
    ensures ExtBytes(es[k..]) == [] <==> k == |es|
    ensures k < |es| ==> ExtBytes(es[k..]) == Be(es[k].typ, 2) + Prefixed(2, es[k].data) + ExtBytes(es[k + 1..])
  {
    if k < |es| { assert es[k..][1..] == es[k + 1..]; }
  }

  lemma {:induction false} ExtBytesConcat(a: seq<Ext>, b: seq<Ext>)
    ensures ExtBytes(a + b) == ExtBytes(a) + ExtBytes(b)
    decreases |a|
  {
    hide Prefixed, Be;
    if a == [] {
      assert a + b == b;
      assert [] + ExtBytes(b) == ExtBytes(b);
    } else {
      ExtBytesConcat(a[1..], b);
      assert (a + b)[0] == a[0] && (a + b)[1..] == a[1..] + b;
      var head := Be(a[0].typ, 2) + Prefixed(2, a[0].data);
      assert ExtBytes(a) == head + ExtBytes(a[1..]) && ExtBytes(a + b) == head + ExtBytes(a[1..] + b);
      hide ExtBytes;
      HeadOff(head, ExtBytes(a[1..]), ExtBytes(b));
    }
  }

  lemma HeadOff(a: bytes, b: bytes, c: bytes)
    ensures a + (b + c) == a + b + c
  {
  }

  lemma ItemBytesAt(items: seq<Item>, k: nat)
    requires k <= |items|
    ensures ItemBytes(items[k..]) == [] <==> k == |items|
    ensures k < |items| ==>
              var e := ItemExt(items[k]);
              ItemBytes(items[k..]) == Be(e.typ, 2) + Prefixed(2, e.data) + ItemBytes(items[k + 1..])
  {
    if k < |items| { assert items[k..][1..] == items[k + 1..]; }
  }

  lemma TypeListAt(ts: seq<nat>, k: nat)
    requires k <= |ts|
    ensures TypeList(ts[k..]) == [] <==> k == |ts|
    ensures k < |ts| ==> TypeList(ts[k..]) == Be(ts[k], 2) + TypeList(ts[k + 1..])
  {
    if k < |ts| { assert ts[k..][1..] == ts[k + 1..]; }
  }

  /** The loop of `extractRawExtensions`. */
  method ReadExtensions(s: bytes, ghost want: seq<Ext>) returns (ok: bool, es: seq<Ext>)
    ensures s == ExtBytes(want) && AllFit(want) ==> ok && es == want
  {
    hide ExtBytes, Prefixed, Power, Be;
    ok, es := true, [];
    var rest := s;
    ghost var printed := s == ExtBytes(want) && AllFit(want);
    assert want[0..] == want;
    while rest != []
      invariant printed ==> |es| <= |want| && es == want[..|es|] && rest == ExtBytes(want[|es|..])
      decreases |rest|
    {
      ghost var k := |es|;
      ghost var e := Ext(0, []);
      if printed {
        ExtBytesAt(want, k);
        e := want[k];
        assert Fit(e);
      }
      var typ, data;
      ok, typ, data, rest := NextExtension(rest, e.typ, e.data, if printed then ExtBytes(want[k + 1..]) else []);
      if !ok {
        return;
      }
      es := es + [Ext(typ, data)];
    }
    if printed { ExtBytesAt(want, |es|); }
  }

  /** The search for one type, from where the last one was found. */
  method Find(outer: seq<Ext>, from: nat, t: nat) returns (i: nat)
    requires from <= |outer|
    ensures i == First(outer, from, t)
  {
    i := from;
    while i < |outer| && outer[i].typ != t
      invariant from <= i <= |outer| && First(outer, from, t) == First(outer, i, t)
    {
      i := i + 1;
    }
  }

  /** The loop over a reference: what it refers to, appended to what has been rebuilt. */
  method Resolve(list: bytes, outer: seq<Ext>, recon: bytes, ghost ts: seq<nat>) returns (ok: bool, r: bytes)
    ensures list == TypeList(ts) && (forall k :: 0 <= k < |ts| ==> ts[k] < Power(2)) ==>
              (ok <==> Select(outer, 0, ts).Some?) && (ok ==> r == recon + ExtBytes(Select(outer, 0, ts).value))
  {
    hide TypeList, Power, Be, Prefixed, ExtBytes, Value, Select, First, Take;
    ok, r := true, recon;
    var rest := list;
    ghost var printed := list == TypeList(ts) && forall k :: 0 <= k < |ts| ==> ts[k] < Power(2);
    ghost var k, found := 0, [];
    var i := 0;
    assert ts[0..] == ts;
    NoBytes(recon);
    while rest != []
      invariant i <= |outer| && k <= |ts|
      invariant printed ==> rest == TypeList(ts[k..]) && r == recon + ExtBytes(found) && SelectedSoFar(outer, ts, k, found, i)
      decreases |rest|
    {
      if printed {
        TypeListAt(ts, k);
        TakeBack(Be(ts[k], 2), TypeList(ts[k + 1..]));
        ValueBe(ts[k], 2);
        SelectStep(outer, ts, k, found, i);
      }
      var t := Take(rest, 2);
      if t.None? {
        return false, r;
      }
      TakeShorter(rest);
      rest := t.value.tail;
      var typ := Value(t.value.head);
      if typ == ENCRYPTED_CLIENT_HELLO {
        return false, r;
      }
      i := Find(outer, i, typ);
      FirstBound(outer, i, typ);
      if i == |outer| {
        return false, r;
      }
      if printed {
        AppendExt(recon, found, outer[i]);
        found := found + [outer[i]];
        k := k + 1;
      }
      r := r + Be(outer[i].typ, 2) + Prefixed(2, outer[i].data);
    }
    if printed {
      TypeListAt(ts, k);
      SelectedAll(outer, ts, found, i);
    }
  }

  /** After `k` types, `found` has been selected and the search stands at `i`. */
  ghost predicate SelectedSoFar(outer: seq<Ext>, ts: seq<nat>, k: nat, found: seq<Ext>, i: nat)
    requires k <= |ts| && i <= |outer|
  {
    Select(outer, 0, ts) == match Select(outer, i, ts[k..]) case None => None case Some(more) => Some(found + more)
  }

  lemma NoBytes(recon: bytes)
    ensures recon == recon + ExtBytes([])
    ensures forall outer, ts :: SelectedSoFar(outer, ts, 0, [], 0)
  {
    forall outer: seq<Ext>, ts: seq<nat> ensures SelectedSoFar(outer, ts, 0, [], 0) {
      assert ts[0..] == ts;
      var s := Select(outer, 0, ts);
      assert s.Some? ==> [] + s.value == s.value;
    }
  }

  lemma SelectStep(outer: seq<Ext>, ts: seq<nat>, k: nat, found: seq<Ext>, i: nat)
    requires k < |ts| && i <= |outer| && SelectedSoFar(outer, ts, k, found, i)
    ensures ts[k] == ENCRYPTED_CLIENT_HELLO ==> Select(outer, 0, ts).None?
    ensures First(outer, i, ts[k]) <= |outer|
    ensures ts[k] != ENCRYPTED_CLIENT_HELLO && First(outer, i, ts[k]) == |outer| ==> Select(outer, 0, ts).None?
    ensures ts[k] != ENCRYPTED_CLIENT_HELLO && First(outer, i, ts[k]) < |outer| ==>
              SelectedSoFar(outer, ts, k + 1, found + [outer[First(outer, i, ts[k])]], First(outer, i, ts[k]))
  {
    assert ts[k..][0] == ts[k] && ts[k..][1..] == ts[k + 1..];
    var j := First(outer, i, ts[k]);
    if ts[k] != ENCRYPTED_CLIENT_HELLO && j < |outer| {
      var more := Select(outer, j, ts[k + 1..]);
      if more.Some? {
        assert found + ([outer[j]] + more.value) == found + [outer[j]] + more.value;
      }
    }
  }

  lemma FirstBound(outer: seq<Ext>, i: nat, t: nat)
    requires i <= |outer|
    ensures i <= First(outer, i, t) <= |outer|
  {
  }

  lemma SelectedAll(outer: seq<Ext>, ts: seq<nat>, found: seq<Ext>, i: nat)
    requires i <= |outer| && SelectedSoFar(outer, ts, |ts|, found, i)
    ensures Select(outer, 0, ts) == Some(found)
  {
    assert ts[|ts|..] == [] && found + [] == found;
  }

  lemma AppendExt(recon: bytes, found: seq<Ext>, e: Ext)
    ensures recon + ExtBytes(found + [e]) == recon + ExtBytes(found) + Be(e.typ, 2) + Prefixed(2, e.data)
  {
    hide Be, Prefixed;
    ExtBytesConcat(found, [e]);
    assert [e][1..] == [] && ExtBytes([]) == [];
    assert ExtBytes([e]) == Be(e.typ, 2) + Prefixed(2, e.data) + [];
  }

  lemma TakeShorter(s: bytes)
    requires s != []
    ensures Take(s, 2).Some? ==> |Take(s, 2).value.tail| < |s|
  {
  }

  /** After `k` items, `found` has been rebuilt. */
  ghost predicate ExpandedSoFar(outer: seq<Ext>, items: seq<Item>, k: nat, found: seq<Ext>)
    requires k <= |items|
  {
    Expanded(items, outer) == match Expanded(items[k..], outer) case None => None case Some(more) => Some(found + more)
  }

  ghost function ItemExts(outer: seq<Ext>, i: Item): Option<seq<Ext>> {
    match i case Keep(e) => Some([e]) case Refer(ts) => Select(outer, 0, ts)
  }

  lemma ExpandedStart(outer: seq<Ext>, items: seq<Item>)
    ensures ExpandedSoFar(outer, items, 0, []) && ExtBytes([]) == []
  {
    assert items[0..] == items;
    var s := Expanded(items, outer);
    assert s.Some? ==> [] + s.value == s.value;
  }

  lemma ExpandedStep(outer: seq<Ext>, items: seq<Item>, k: nat, found: seq<Ext>)
    requires k < |items| && ExpandedSoFar(outer, items, k, found)
    ensures var first := ItemExts(outer, items[k]);
            && (first.None? ==> Expanded(items, outer).None?)
            && (first.Some? ==> ExpandedSoFar(outer, items, k + 1, found + first.value))
  {
    assert items[k..][0] == items[k] && items[k..][1..] == items[k + 1..];
    var first, more := ItemExts(outer, items[k]), Expanded(items[k + 1..], outer);
    if first.Some? && more.Some? {
      assert found + (first.value + more.value) == found + first.value + more.value;
    }
  }

  lemma ExpandedEnd(outer: seq<Ext>, items: seq<Item>, found: seq<Ext>)
    requires ExpandedSoFar(outer, items, |items|, found)
    ensures Expanded(items, outer) == Some(found)
  {
    assert items[|items|..] == [] && found + [] == found;
  }

  /** The loop of `decodeInnerClientHello` over the extensions of the encoded hello. */
  method Rebuild(extensions: bytes, outer: seq<Ext>, ghost items: seq<Item>) returns (ok: bool, recon: bytes)
    ensures extensions == ItemBytes(items) && ItemsFit(items) ==>
              (ok <==> Expanded(items, outer).Some?) && (ok ==> recon == ExtBytes(Expanded(items, outer).value))
  {
    hide ItemBytes, TypeList, Power, Be, Prefixed, ExtBytes, Select, Expanded, ExpandedSoFar, TakePrefixed;
    ok, recon := true, [];
    var rest := extensions;
    ghost var printed := extensions == ItemBytes(items) && ItemsFit(items);
    ghost var k, found := 0, [];
    assert items[0..] == items;
    ExpandedStart(outer, items);
    while rest != []
      invariant k <= |items|
      invariant printed ==> rest == ItemBytes(items[k..]) && recon == ExtBytes(found) && ExpandedSoFar(outer, items, k, found)
      decreases |rest|
    {
      ghost var e, ts := Ext(0, []), [];
      if printed {
        ItemBytesAt(items, k);
        ExpandedStep(outer, items, k, found);
        assert ItemFits(items[k]);
        e := ItemExt(items[k]);
        if items[k].Refer? {
          ts := items[k].types;
          TakePrefixedBack(1, TypeList(ts), []);
          assert Prefixed(1, TypeList(ts)) + [] == Prefixed(1, TypeList(ts));
        } else {
          AppendExt([], found, e);
          PlusNothing(found + [e]);
          PlusNothing(found);
        }
      }
      var typ, data;
      ok, typ, data, rest := NextExtension(rest, e.typ, e.data, if printed then ItemBytes(items[k + 1..]) else []);
      if !ok {
        return;
      }
      if typ == OUTER_EXTENSIONS {
        var list := TakePrefixed(data, 1);
        if list.None? {
          return false, recon;
        }
        ok, recon := Resolve(list.value.head, outer, recon, ts);
        if !ok {
          return;
        }
        if printed { ExtBytesConcat(found, ItemExts(outer, items[k]).value); }
      } else {
        recon := recon + Be(typ, 2) + Prefixed(2, data);
      }
      if printed {
        found := found + ItemExts(outer, items[k]).value;
        k := k + 1;
      }
    }
    if printed {
      ItemBytesAt(items, k);
      ExpandedEnd(outer, items, found);
    }
  }

  lemma PlusNothing(es: seq<Ext>)
    ensures [] + ExtBytes(es) == ExtBytes(es)
  {
  }

  // ----- whole hellos

  /** The fields behind the random, read back. */
  lemma SessionBack(h: Hello, tail: bytes)
    requires HelloFits(h)
    ensures var r2 := Prefixed(2, h.exts) + tail;
            var r1 := Prefixed(1, h.compression) + r2;
            var r0 := Prefixed(2, h.suites) + r1;
            && TakePrefixed(FromSession(h) + tail, 1) == Some(Taken(h.sessionId, r0))
            && TakePrefixed(r0, 2) == Some(Taken(h.suites, r1))
            && TakePrefixed(r1, 1) == Some(Taken(h.compression, r2))
            && TakePrefixed(r2, 2) == Some(Taken(h.exts, tail))
  {
    hide Prefixed, TakePrefixed, Power;
    var r2 := Prefixed(2, h.exts) + tail;
    var r1 := Prefixed(1, h.compression) + r2;
    var r0 := Prefixed(2, h.suites) + r1;
    assert FromSession(h) + tail == Prefixed(1, h.sessionId) + r0;
    TakePrefixedBack(1, h.sessionId, r0);
    TakePrefixedBack(2, h.suites, r1);
    TakePrefixedBack(1, h.compression, r2);
    TakePrefixedBack(2, h.exts, tail);
  }

  /** The four length-prefixed fields of a hello. */
  method ReadFields(s: bytes, ghost h: Hello, ghost tail: bytes) returns (ok: bool, sessionId: bytes, suites: bytes, compression: bytes, exts: bytes, rest: bytes)
    ensures HelloFits(h) && s == FromSession(h) + tail ==>
              ok && sessionId == h.sessionId && suites == h.suites && compression == h.compression && exts == h.exts && rest == tail
  {
    hide Prefixed, TakePrefixed, Power, FromSession;
    if HelloFits(h) { SessionBack(h, tail); }
    ok, sessionId, suites, compression, exts, rest := false, [], [], [], [], s;
    var a := TakePrefixed(s, 1);
    if a.None? {
      return;
    }
    var b := TakePrefixed(a.value.tail, 2);
    if b.None? {
      return;
    }
    var c := TakePrefixed(b.value.tail, 1);
    if c.None? {
      return;
    }
    var d := TakePrefixed(c.value.tail, 2);
    if d.None? {
      return;
    }
    return true, a.value.head, b.value.head, c.value.head, d.value.head, d.value.tail;
  }

  /** `extractRawExtensions` */
  method ExtractRawExtensions(original: bytes, ghost outer: Hello, ghost es: seq<Ext>) returns (ok: bool, exts: seq<Ext>)
    ensures original == HelloBytes(outer) && HelloFits(outer) && outer.exts == ExtBytes(es) && AllFit(es) ==> ok && exts == es
  {
    hide Power, ExtBytes, FromSession, Be, AllFit;
    ok, exts := false, [];
    if |original| < 38 {
      return;
    }
    if original == HelloBytes(outer) && HelloFits(outer) {
      HelloParts(outer);
    }
    var sid, suites, compression, list, rest;
    ok, sid, suites, compression, list, rest := ReadFields(original[38..], outer, []);
    if ok {
      ok, exts := ReadExtensions(list, es);
    }
  }

  lemma HelloParts(h: Hello)
    requires |h.front| == 34
    ensures |HelloBytes(h)| >= 38 && HelloBytes(h)[38..] == FromSession(h) + []
  {
    hide FromSession, Be;
    var b := HelloBytes(h);
    assert b == [1] + Be(|Body(h)|, 3) + h.front + FromSession(h);
  }

  /** `decodeInnerClientHello`, up to the reconstructed bytes. */
  method DecodeInner(original: bytes, outerSessionId: bytes, encoded: bytes,
                     ghost outer: Hello, ghost es: seq<Ext>, ghost inner: Hello, ghost items: seq<Item>, ghost zeros: nat)
      returns (r: Option<bytes>)
    ensures Encodes(encoded, inner, items, zeros) && Carries(original, outerSessionId, outer, es) ==>
              var full := Expanded(items, es);
              if full.Some? && HelloFits(Hello(inner.front, outer.sessionId, inner.suites, inner.compression, ExtBytes(full.value)))
              then r == Some(HelloBytes(Hello(inner.front, outer.sessionId, inner.suites, inner.compression, ExtBytes(full.value))))
              else r == None
  {
    hide Power, ExtBytes, FromSession, ItemBytes, Be, Prefixed, Expanded, AllFit, ItemsFit;
    r := None;
    ghost var printed := Encodes(encoded, inner, items, zeros) && Carries(original, outerSessionId, outer, es);
    if |encoded| < 34 {
      return;
    }
    var front := encoded[..34];
    if printed { EncodedParts(encoded, inner, items, zeros); }
    var ok, sid, suites, compression, extensions, padding := ReadFields(encoded[34..], inner, Zeros(zeros));
    if !ok || sid != [] {
      return;
    }
    ok := AllZero(padding);
    if printed { ZerosZero(zeros); }
    if !ok {
      return;
    }
    var rawOuter;
    ok, rawOuter := ExtractRawExtensions(original, outer, es);
    if !ok {
      return;
    }
    var recon;
    ok, recon := Rebuild(extensions, rawOuter, items);
    if !ok {
      return;
    }
    var h := Hello(front, outerSessionId, suites, compression, recon);
    if |outerSessionId| >= Power(1) || |suites| >= Power(2) || |compression| >= Power(1) || |recon| >= Power(2) || |Body(h)| >= Power(3) {
      return;
    }
    return Some(HelloBytes(h));
  }

  function Zeros(n: nat): (r: bytes) { seq(n, _ => 0) }

  /** `encoded` is an inner hello in its encoded form: no session id, its extensions as `items`, and
      zeros behind. */
  ghost predicate Encodes(encoded: bytes, inner: Hello, items: seq<Item>, zeros: nat) {
    && HelloFits(inner) && inner.sessionId == [] && inner.exts == ItemBytes(items) && ItemsFit(items)
    && encoded == Body(inner) + Zeros(zeros)
  }

  /** `original` are the bytes of an outer hello with the extensions `es`. */
  ghost predicate Carries(original: bytes, sessionId: bytes, outer: Hello, es: seq<Ext>) {
    && HelloFits(outer) && outer.exts == ExtBytes(es) && AllFit(es)
    && original == HelloBytes(outer) && sessionId == outer.sessionId
  }

  lemma EncodedParts(encoded: bytes, inner: Hello, items: seq<Item>, zeros: nat)
    requires Encodes(encoded, inner, items, zeros)
    ensures |encoded| >= 34 && encoded[..34] == inner.front && encoded[34..] == FromSession(inner) + Zeros(zeros)
  {
    hide FromSession;
  }

  lemma ZerosZero(n: nat)
    ensures forall i :: 0 <= i < |Zeros(n)| ==> Zeros(n)[i] == 0
  {
  }

  method AllZero(s: bytes) returns (ok: bool)
    ensures ok <==> forall i :: 0 <= i < |s| ==> s[i] == 0
  {
    for i := 0 to |s|
      invariant forall j :: 0 <= j < i ==> s[j] == 0
    {
      if s[i] != 0 {
        return false;
      }
    }
    return true;
  }

  // ----- the order of the compressed extensions

  ghost function Types(es: seq<Ext>): seq<nat> { seq(|es|, i requires 0 <= i < |es| => es[i].typ) }

  /** `ts` is `us` with some left out. */
  ghost predicate IsSub(ts: seq<nat>, us: seq<nat>)
    decreases |us|
  {
    ts == [] || (us != [] && ((ts[0] == us[0] && IsSub(ts[1..], us[1..])) || IsSub(ts, us[1..])))
  }

  function Filter(us: seq<nat>, keep: seq<nat>): (r: seq<nat>)
    ensures forall t :: t in r <==> t in us && t in keep
  {
    if us == [] then [] else (if us[0] in keep then [us[0]] else []) + Filter(us[1..], keep)
  }

  lemma {:induction false} FilterSub(us: seq<nat>, keep: seq<nat>)
    ensures IsSub(Filter(us, keep), us)
  {
    if us != [] {
      FilterSub(us[1..], keep);
      var f := Filter(us[1..], keep);
      if us[0] in keep { assert ([us[0]] + f)[1..] == f; } else { assert [] + f == f; }
    }
  }

  /** The types are found going forward: each at the place of the one before or behind it. */
  ghost predicate Forward(ts: seq<nat>, us: seq<nat>)
    decreases |ts| + |us|
  {
    ts == [] || (us != [] && ((ts[0] == us[0] && Forward(ts[1..], us)) || Forward(ts, us[1..])))
  }

  lemma {:induction false} SubForward(ts: seq<nat>, us: seq<nat>)
    requires IsSub(ts, us)
    ensures Forward(ts, us)
    decreases |us|
  {
    if ts != [] {
      if ts[0] == us[0] && IsSub(ts[1..], us[1..]) {
        SubForward(ts[1..], us[1..]);
        assert ts[1..] != [] ==> Forward(ts[1..], us);
      } else {
        SubForward(ts, us[1..]);
      }
    }
  }

  lemma {:induction false} ForwardTail(ts: seq<nat>, us: seq<nat>)
    requires ts != [] && Forward(ts, us)
    ensures Forward(ts[1..], us)
    decreases |us|
  {
    if !(ts[0] == us[0] && Forward(ts[1..], us)) {
      ForwardTail(ts, us[1..]);
    }
  }

  /** What lies before the first hit does not matter. */
  lemma {:induction false} ForwardFrom(ts: seq<nat>, us: seq<nat>, i: nat, j: nat)
    requires ts != [] && i <= j <= |us| && forall k :: i <= k < j ==> us[k] != ts[0]
    ensures Forward(ts, us[i..]) <==> Forward(ts, us[j..])
    decreases j - i
  {
    if i < j {
      ForwardFrom(ts, us, i + 1, j);
      assert us[i..][1..] == us[i + 1..];
    }
  }

  /** Extensions of these types with these values. */
  ghost function Carried(ts: seq<nat>, value: map<nat, bytes>): (es: seq<Ext>) {
    seq(|ts|, k requires 0 <= k < |ts| => Ext(ts[k], if ts[k] in value then value[ts[k]] else []))
  }

  /** Types are found exactly if they come forward in the outer hello, whatever else it has in between; and if
      it carries these bytes for them, they are what is found. */
  lemma {:induction false} SelectForward(outer: seq<Ext>, i: nat, ts: seq<nat>, value: map<nat, bytes>)
    requires i <= |outer| && ENCRYPTED_CLIENT_HELLO !in ts
    requires forall t :: t in ts ==> t in value
    requires forall k :: 0 <= k < |outer| && outer[k].typ in ts ==> outer[k].data == value[outer[k].typ]
    ensures Select(outer, i, ts) == if Forward(ts, Types(outer)[i..]) then Some(Carried(ts, value)) else None
    decreases |ts|
  {
    var want := Carried(ts, value);
    if ts == [] {
      assert want == [];
    } else {
      var us, j := Types(outer), First(outer, i, ts[0]);
      ForwardFrom(ts, us, i, j);
      if j < |outer| {
        assert us[j..][0] == outer[j].typ;
        if Forward(ts, us[j..]) { ForwardTail(ts, us[j..]); }
        SelectForward(outer, j, ts[1..], value);
        assert ts[0] in ts;
        assert want == [outer[j]] + Carried(ts[1..], value);
      }
    }
  }

  // ----- encoding and decoding

  /** The extensions of an inner hello in the order they are marshalled: those that are written out, those
      that the outer hello is to carry, and the pre-shared key, which comes last. */
  datatype Inner = Inner(plain: seq<Ext>, shared: seq<Ext>, last: seq<Ext>)

  /** The types that are referred to: as they are marshalled, or in the given order. */
  function Compressed(types: seq<nat>, outerExts: Option<seq<nat>>): (list: seq<nat>) {
    match outerExts case None => types case Some(us) => Filter(us, types)
  }

  function Keeps(es: seq<Ext>): (r: seq<Item>)
    ensures |r| == |es| && forall i :: 0 <= i < |es| ==> r[i] == Keep(es[i])
  {
    if es == [] then [] else [Keep(es[0])] + Keeps(es[1..])
  }

  function Items(inner: Inner, list: seq<nat>): (items: seq<Item>) {
    Keeps(inner.plain) + (if list == [] then [] else [Refer(list)]) + Keeps(inner.last)
  }

  lemma {:induction false} ExpandedConcat(a: seq<Item>, b: seq<Item>, outer: seq<Ext>)
    ensures Expanded(a + b, outer) == match (Expanded(a, outer), Expanded(b, outer))
                                      case (Some(x), Some(y)) => Some(x + y)
                                      case _ => None
    decreases |a|
  {
    hide Select;
    if a == [] {
      assert a + b == b;
      var e := Expanded(b, outer);
      assert e.Some? ==> [] + e.value == e.value;
    } else {
      ExpandedConcat(a[1..], b, outer);
      assert (a + b)[1..] == a[1..] + b;
      var f, x, y := ItemExts(outer, a[0]), Expanded(a[1..], outer), Expanded(b, outer);
      if f.Some? && x.Some? && y.Some? {
        assert f.value + (x.value + y.value) == f.value + x.value + y.value;
      }
    }
  }

  lemma {:induction false} ExpandedKeeps(es: seq<Ext>, outer: seq<Ext>)
    ensures Expanded(Keeps(es), outer) == Some(es)
  {
    if es != [] {
      ExpandedKeeps(es[1..], outer);
      assert Keeps(es)[1..] == Keeps(es[1..]);
      assert [es[0]] + es[1..] == es;
    }
  }

  lemma ExpandedItems(inner: Inner, list: seq<nat>, outer: seq<Ext>)
    ensures var found := Select(outer, 0, list);
            Expanded(Items(inner, list), outer) == if found.Some? then Some(inner.plain + found.value + inner.last) else None
  {
    var mid := if list == [] then [] else [Refer(list)];
    ExpandedKeeps(inner.plain, outer);
    ExpandedKeeps(inner.last, outer);
    ExpandedConcat(Keeps(inner.plain), mid, outer);
    ExpandedConcat(Keeps(inner.plain) + mid, Keeps(inner.last), outer);
    var found := Select(outer, 0, list);
    if list != [] {
      assert mid[1..] == [] && Expanded([], outer) == Some([]);
      assert Expanded(mid, outer) == if found.Some? then Some(found.value + []) else None;
      assert found.Some? ==> found.value + [] == found.value;
    }
  }

  ghost predicate DistinctTypes(es: seq<Ext>) { forall i, j :: 0 <= i < j < |es| ==> es[i].typ != es[j].typ }

  ghost function ValueMap(es: seq<Ext>): map<nat, bytes> {
    if es == [] then map[] else ValueMap(es[..|es| - 1])[es[|es| - 1].typ := es[|es| - 1].data]
  }

  lemma {:induction false} ValueMapIs(es: seq<Ext>)
    requires DistinctTypes(es)
    ensures forall t :: t in ValueMap(es) <==> t in Types(es)
    ensures forall i :: 0 <= i < |es| ==> es[i].typ in ValueMap(es) && ValueMap(es)[es[i].typ] == es[i].data
  {
    if es != [] {
      var init := es[..|es| - 1];
      ValueMapIs(init);
      assert Types(es) == Types(init) + [es[|es| - 1].typ];
      forall i | 0 <= i < |es| ensures es[i].typ in ValueMap(es) && ValueMap(es)[es[i].typ] == es[i].data {
        if i < |es| - 1 { assert init[i] == es[i]; }
      }
    }
  }

  /** The outer hello carries, for every type that is shared, the bytes the inner hello has. */
  ghost predicate Agrees(outer: seq<Ext>, shared: seq<Ext>) {
    forall k, i :: 0 <= k < |outer| && 0 <= i < |shared| && outer[k].typ == shared[i].typ ==> outer[k].data == shared[i].data
  }

  /** Decoding undoes encoding exactly if the list of references comes forward in the outer extensions: what is
      found for it are the inner hello's own extensions of these types. */
  lemma Decompressed(inner: Inner, list: seq<nat>, outer: seq<Ext>)
    requires DistinctTypes(inner.shared) && Agrees(outer, inner.shared) && ENCRYPTED_CLIENT_HELLO !in Types(inner.shared)
    requires forall t :: t in list ==> t in Types(inner.shared)
    ensures Expanded(Items(inner, list), outer) ==
              if Forward(list, Types(outer)) then Some(inner.plain + Carried(list, ValueMap(inner.shared)) + inner.last) else None
    ensures forall e :: e in Carried(list, ValueMap(inner.shared)) <==> e in inner.shared && e.typ in list
  {
    var value := ValueMap(inner.shared);
    ValueMapIs(inner.shared);
    assert Types(outer)[0..] == Types(outer);
    forall k | 0 <= k < |outer| && outer[k].typ in list ensures outer[k].data == value[outer[k].typ] {
      var i :| 0 <= i < |inner.shared| && Types(inner.shared)[i] == outer[k].typ;
      assert inner.shared[i].typ == outer[k].typ;
    }
    SelectForward(outer, 0, list, value);
    ExpandedItems(inner, list, outer);
    forall e ensures e in Carried(list, value) <==> e in inner.shared && e.typ in list {
      CarriedIn(inner.shared, list, e);
    }
  }

  lemma CarriedIn(shared: seq<Ext>, list: seq<nat>, e: Ext)
    requires DistinctTypes(shared) && forall t :: t in list ==> t in Types(shared)
    ensures e in Carried(list, ValueMap(shared)) <==> e in shared && e.typ in list
  {
    ValueMapIs(shared);
    var es := Carried(list, ValueMap(shared));
    if e in es {
      var k :| 0 <= k < |es| && es[k] == e;
      assert list[k] in Types(shared);
      var i :| 0 <= i < |shared| && Types(shared)[i] == list[k];
      assert shared[i] == e;
    }
    if e in shared && e.typ in list {
      var k :| 0 <= k < |list| && list[k] == e.typ;
      assert es[k] == e;
    }
  }

  /** In the order in which they are marshalled: if the outer hello has them all in this order, the decoded
      hello has exactly the extensions of the inner one, in their order. */
  lemma DecodeInOrder(inner: Inner, outer: seq<Ext>)
    requires DistinctTypes(inner.shared) && Agrees(outer, inner.shared) && ENCRYPTED_CLIENT_HELLO !in Types(inner.shared)
    requires IsSub(Types(inner.shared), Types(outer))
    ensures Expanded(Items(inner, Types(inner.shared)), outer) == Some(inner.plain + inner.shared + inner.last)
  {
    SubForward(Types(inner.shared), Types(outer));
    Decompressed(inner, Types(inner.shared), outer);
    ValueMapIs(inner.shared);
    assert Carried(Types(inner.shared), ValueMap(inner.shared)) == inner.shared;
  }

  /** With references in a given order `us`: decoding succeeds exactly if they come forward in the outer hello, as
      they do in its own order; and then the decoded hello has the extensions of the inner one that are
      named, and so all of them exactly when all that are shared are named. */
  lemma DecodeReordered(inner: Inner, outer: seq<Ext>, us: seq<nat>)
    requires DistinctTypes(inner.shared) && Agrees(outer, inner.shared) && ENCRYPTED_CLIENT_HELLO !in Types(inner.shared)
    ensures var list := Compressed(Types(inner.shared), Some(us));
            var found := Carried(list, ValueMap(inner.shared));
            && Expanded(Items(inner, list), outer) == (if Forward(list, Types(outer)) then Some(inner.plain + found + inner.last) else None)
            && (us == Types(outer) ==> Forward(list, Types(outer)))
            && ((forall e :: e in found <==> e in inner.shared) <==> (forall t :: t in Types(inner.shared) ==> t in us))
  {
    var list := Compressed(Types(inner.shared), Some(us));
    if us == Types(outer) {
      FilterSub(us, Types(inner.shared));
      SubForward(list, us);
    }
    Decompressed(inner, list, outer);
    var found := Carried(list, ValueMap(inner.shared));
    assert forall e :: e in inner.shared ==> e.typ in Types(inner.shared) by { TypesIn(inner.shared); }
    hide Filter, Select, Expanded, Items, Forward;
    AllNamed(inner.shared, us, found);
  }

  lemma TypesIn(es: seq<Ext>)
    ensures forall e :: e in es ==> e.typ in Types(es)
  {
    forall e | e in es ensures e.typ in Types(es) {
      var i :| 0 <= i < |es| && es[i] == e;
      assert Types(es)[i] == e.typ;
    }
  }

  lemma AllNamed(shared: seq<Ext>, us: seq<nat>, found: seq<Ext>)
    requires forall e :: e in found <==> e in shared && e.typ in us
    ensures (forall e :: e in found <==> e in shared) <==> (forall t :: t in Types(shared) ==> t in us)
  {
    forall t ensures t in Types(shared) <==> exists e :: e in shared && e.typ == t {
      if e :| e in shared && e.typ == t {
        var i :| 0 <= i < |shared| && shared[i] == e;
        assert Types(shared)[i] == t;
      }
    }
  }

  lemma FilterNone(keep: seq<nat>)
    ensures Filter([], keep) == []
  {
  }

  lemma FilterAt(us: seq<nat>, keep: seq<nat>, i: nat, list: seq<nat>)
    requires i < |us|
    ensures list + Filter(us[i..], keep) == (if us[i] in keep then list + [us[i]] else list) + Filter(us[i + 1..], keep)
  {
    assert us[i..][1..] == us[i + 1..];
    var rest := Filter(us[i + 1..], keep);
    assert list + ([us[i]] + rest) == list + [us[i]] + rest && list + ([] + rest) == list + rest;
  }

  /** The reordering loop of `marshalMsgReorderOuterExts`. */
  method Reorder(types: seq<nat>, outerExts: Option<seq<nat>>) returns (list: seq<nat>)
    ensures list == Compressed(types, outerExts)
  {
    if outerExts.None? {
      return types;
    }
    list := [];
    hide Filter;
    var us := outerExts.value;
    assert us[0..] == us;
    for i := 0 to |us|
      invariant list + Filter(us[i..], types) == Filter(us, types)
    {
      FilterAt(us, types, i, list);
      if us[i] in types {
        list := list + [us[i]];
      }
    }
    FilterNone(types);
    assert us[|us|..] == [] && list + [] == list;
  }

  /** What the server name falls short of the longest one; without a name, what its extension would take. */
  function NameGap(name: nat, maxNameLength: nat): (l: nat) {
    if name == 0 then maxNameLength + 9 else if name > maxNameLength then 0 else maxNameLength - name
  }

  /** The zeros that are appended to an encoded hello of `n` bytes, given the gap `l`. */
  function PaddingLen(n: nat, l: nat): (r: nat)
    requires n > 0
    ensures r < 32
  {
    31 - (n + l - 1) % 32
  }

  /** The padding rule of section 6.1.3 of draft-ietf-tls-esni appends `l` bytes, too, so that the length is a
      multiple of 32. Here they are counted but not appended: the length is one only if `l` is. */
  lemma PaddingRounds(n: nat, l: nat)
    requires n > 0
    ensures (n + l + PaddingLen(n, l)) % 32 == 0
    ensures (n + PaddingLen(n, l)) % 32 == 0 <==> l % 32 == 0
  {
    var m, q, r := n + PaddingLen(n, l), (n + l - 1) / 32, l % 32;
    assert m + l == 32 * (q + 1);
    assert l == 32 * (l / 32) + r;
    assert m == 32 * (q + 1 - l / 32) - r;
    Multiple(q + 1, 0);
    Multiple(q + 1 - l / 32, r);
  }

  lemma Multiple(k: int, r: nat)
    requires r < 32
    ensures (32 * k - r) % 32 == 0 <==> r == 0
  {
    if r > 0 {
      assert 32 * k - r == 32 * (k - 1) + (32 - r);
    }
  }
}
