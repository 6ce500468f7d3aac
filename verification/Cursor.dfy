/**
  Strings behind their lengths, and the cursor that reads them, as the `cryptobyte` package provides
  them to the codecs of this project.
*/
module Cursor {
  import opened Wire

  /** A string behind its length in `w` bytes. */
  function Prefixed(w: nat, s: bytes): (r: bytes)
    ensures |r| == w + |s|
  {
    Be(|s|, w) + s
  }

  function PrefixedAll(w: nat, items: seq<bytes>): (r: bytes) {
    if items == [] then [] else Prefixed(w, items[0]) + PrefixedAll(w, items[1..])
  }

  ghost predicate Short(w: nat, items: seq<bytes>) { forall i :: 0 <= i < |items| ==> |items[i]| < Power(w) }

  ghost predicate NonEmpty(items: seq<bytes>) { forall i :: 0 <= i < |items| ==> items[i] != [] }

  datatype Taken = Taken(head: bytes, tail: bytes)

  /** `ReadUint8`, `ReadUint16` and so on: the next `n` bytes. */
  function Take(s: bytes, n: nat): (r: Option<Taken>)
    ensures r.Some? ==> s == r.value.head + r.value.tail && |r.value.head| == n
    ensures r.None? <==> |s| < n
  {
    if |s| < n then None else Some(Taken(s[..n], s[n..]))
  }

  /** `ReadUint24LengthPrefixed` and its like. */
  function TakePrefixed(s: bytes, w: nat): (r: Option<Taken>)
    ensures r.Some? ==> |r.value.tail| <= |s| - w
  {
    if |s| < w then None
    else
      var n := Value(s[..w]);
      if |s| - w < n then None else Some(Taken(s[w..w + n], s[w + n..]))
  }

  lemma TakeBack(head: bytes, tail: bytes)
    ensures Take(head + tail, |head|) == Some(Taken(head, tail))
  {
  }

  lemma TakePrefixedBack(w: nat, body: bytes, tail: bytes)
    requires |body| < Power(w)
    ensures TakePrefixed(Prefixed(w, body) + tail, w) == Some(Taken(body, tail))
  {
    var s := Prefixed(w, body) + tail;
    assert s[..w] == Be(|body|, w);
    ValueBe(|body|, w);
  }

  lemma PrefixedAllAt(w: nat, items: seq<bytes>, k: nat)
    requires k <= |items|
    ensures k == |items| ==> PrefixedAll(w, items[k..]) == []
    ensures k < |items| ==> PrefixedAll(w, items[k..]) == Prefixed(w, items[k]) + PrefixedAll(w, items[k + 1..])
  {
    if k < |items| {
      assert items[k..][1..] == items[k + 1..];
    }
  }

  /** A loop over length-prefixed strings until the input is used up. If the input prints `want`, the
      strings read are `want`. */
  method ReadAll(s: bytes, w: nat, nonEmpty: bool, ghost want: seq<bytes>) returns (ok: bool, items: seq<bytes>)
    requires w > 0
    ensures ok && nonEmpty ==> NonEmpty(items)
    ensures ok && s != [] ==> items != []
    ensures s == PrefixedAll(w, want) && Short(w, want) && (nonEmpty ==> NonEmpty(want)) ==> ok && items == want
  {
    hide PrefixedAll, Prefixed, TakePrefixed, Power;
    ok, items := true, [];
    var rest := s;
    ghost var printed := s == PrefixedAll(w, want) && Short(w, want) && (nonEmpty ==> NonEmpty(want));
    assert want[0..] == want && want[..0] == [];
    while rest != []
      invariant nonEmpty ==> NonEmpty(items)
      invariant rest != s ==> items != []
      invariant printed ==> |items| <= |want| && items == want[..|items|] && rest == PrefixedAll(w, want[|items|..])
      decreases |rest|
    {
      if printed {
        PrefixedAllAt(w, want, |items|);
        TakePrefixedBack(w, want[|items|], PrefixedAll(w, want[|items| + 1..]));
      }
      var t := TakePrefixed(rest, w);
      if t.None? || (nonEmpty && t.value.head == []) {
        return false, items;
      }
      items := items + [t.value.head];
      rest := t.value.tail;
    }
    if printed {
      PrefixedAllAt(w, want, |items|);
      PrefixedLonger(w);
    }
  }

  lemma PrefixedLonger(w: nat)
    requires w > 0
    ensures forall s :: Prefixed(w, s) != []
  {
  }

  /** One extension off the front. */
  method NextExtension(s: bytes, ghost ext: nat, ghost body: bytes, ghost tail: bytes) returns (ok: bool, ext': nat, body': bytes, rest: bytes)
    ensures ok ==> |rest| < |s|
    ensures s == Be(ext, 2) + Prefixed(2, body) + tail && ext < Power(2) && |body| < Power(2) ==> ok && ext' == ext && body' == body && rest == tail
  {
    hide TakePrefixed, Prefixed, Power, Be, Value;
    if s == Be(ext, 2) + Prefixed(2, body) + tail && ext < Power(2) && |body| < Power(2) {
      assert s == Be(ext, 2) + (Prefixed(2, body) + tail);
      TakeBack(Be(ext, 2), Prefixed(2, body) + tail);
      TakePrefixedBack(2, body, tail);
      ValueBe(ext, 2);
    }
    ext', body', rest := 0, [], s;
    var t := Take(s, 2);
    if t.None? {
      return false, ext', body', rest;
    }
    var u := TakePrefixed(t.value.tail, 2);
    if u.None? {
      return false, ext', body', rest;
    }
    return true, Value(t.value.head), u.value.head, u.value.tail;
  }

  lemma PowerTwo()
    ensures Power(2) == 0x10000 && Power(1) == 256 && Power(3) == 0x1000000
  {
    assert Power(0) == 1 && Power(1) == 256 * Power(0) && Power(2) == 256 * Power(1) && Power(3) == 256 * Power(2);
  }

  lemma TakeLen(s: bytes, n: nat)
    ensures Take(s, n).Some? ==> |Take(s, n).value.head| == n
  {
  }
}
