/**
  TLS record splitting: `part_tls` of `packets.c`, which cuts a record in two inside the send buffer,
  and the loop of `tamp` in `desync.c` that applies it at a list of positions.
*/
module TlsSplit {
  import opened Wire

  /** A record with the three header bytes `h` (type and version) and this fragment. */
  function Rec(h: bytes, f: bytes): (r: bytes)
    requires |h| == 3
    ensures |r| == 5 + |f|
  {
    h + Be(|f|, 2) + f
  }

  ghost function Recs(h: bytes, frags: seq<bytes>): (r: bytes)
    requires |h| == 3
  {
    if frags == [] then [] else Recs(h, frags[..|frags| - 1]) + Rec(h, frags[|frags| - 1])
  }

  /** The length field of the record at `lp`. */
  function SizeAt(b: bytes, lp: nat): (n: nat)
    requires lp + 5 <= |b|
  {
    b[lp + 3] as int * 256 + b[lp + 4]
  }

  /** What splitting leaves of the bytes of a record: header, first part, header again, second part. */
  function Halved(r: bytes, pos: nat): (h: bytes)
    requires 5 + pos <= |r| && pos <= SizeAt(r, 0)
    ensures |h| == |r| + 5
  {
    r[..3] + Be(pos, 2) + r[5..5 + pos] + r[..3] + Be(SizeAt(r, 0) - pos, 2) + r[5 + pos..]
  }

  lemma RecParts(h: bytes, f: bytes, extra: bytes)
    requires |h| == 3 && |f| < 0x10000
    ensures var r := Rec(h, f) + extra; |r| >= 5 && r[..3] == h && r[5..] == f + extra && SizeAt(r, 0) == |f|
  {
    var r := Rec(h, f) + extra;
    assert r[3..5] == Be(|f|, 2);
    ValueBe(|f|, 2);
    ValueTwo(r[3], r[4]);
    assert r[3..5] == [r[3], r[4]];
    assert Power(2) == 256 * Power(1) && Power(1) == 256 * Power(0);
  }

  /** Halving a record gives two records of the same type and version with the parts of its fragment, and
      leaves what is behind it. */
  lemma HalvedRec(h: bytes, f: bytes, extra: bytes, pos: nat)
    requires |h| == 3 && |f| < 0x10000 && pos <= |f|
    ensures var r := Rec(h, f) + extra;
            |r| >= 5 + pos && SizeAt(r, 0) == |f| && Halved(r, pos) == Rec(h, f[..pos]) + Rec(h, f[pos..]) + extra
  {
    RecParts(h, f, extra);
    var r := Rec(h, f) + extra;
    hide Be;
    assert r[5..5 + pos] == r[5..][..pos] == f[..pos];
    assert r[5 + pos..] == r[5..][pos..] == f[pos..] + extra;
  }

  /** `part_tls` on the record at `lp`, in a buffer that holds `n` bytes: it splits the fragment at
      `pos` and returns 5; or it returns 0, or, when the record is shorter than that, the number of
      bytes, and in both cases changes nothing. */
  method PartTls(buffer: array<byte>, lp: nat, n: nat, pos: int) returns (r: int)
    requires lp <= n <= buffer.Length
    modifies buffer
    ensures r == 0 <==> n - lp < 3 || buffer.Length - n < 5 || pos < 0 || lp + pos + 5 > n
    ensures r == 0 ==> buffer[..] == old(buffer[..])
    ensures r != 0 && SizeAt(old(buffer[..]), lp) < pos ==> r == n - lp && buffer[..] == old(buffer[..])
    ensures r != 0 && SizeAt(old(buffer[..]), lp) >= pos ==>
              r == 5 && buffer[..n + 5] == old(buffer[..lp]) + Halved(old(buffer[lp..n]), pos)
  {
    if n - lp < 3 || buffer.Length - n < 5 || pos < 0 || lp + pos + 5 > n {
      return 0;
    }
    var size := SizeAt(buffer[..], lp);
    if size < pos {
      return n - lp;
    }
    hide Be, Halved;
    ghost var b := buffer[..];
    var cut := lp + 5 + pos;
    MoveUp(buffer, lp, n, cut);
    PutSize(buffer, lp + 3, pos);
    PutSize(buffer, cut + 3, size - pos);
    Assembled(b, buffer[..], lp, n, pos);
    r := 5;
  }

  /** The `memmove` of the second part and the `memcpy` of the header. */
  method MoveUp(buffer: array<byte>, lp: nat, n: nat, cut: nat)
    requires lp + 5 <= cut <= n && n + 5 <= buffer.Length
    modifies buffer
    ensures forall i :: 0 <= i < cut ==> buffer[i] == old(buffer[i])
    ensures buffer[cut] == old(buffer[lp]) && buffer[cut + 1] == old(buffer[lp + 1]) && buffer[cut + 2] == old(buffer[lp + 2])
    ensures forall i :: cut + 5 <= i < n + 5 ==> buffer[i] == old(buffer[i - 5])
  {
    forall i | cut <= i < n { buffer[i + 5] := buffer[i]; }
    assert forall i :: cut + 5 <= i < n + 5 ==> buffer[i] == old(buffer[i - 5]);
    buffer[cut], buffer[cut + 1], buffer[cut + 2] := buffer[lp], buffer[lp + 1], buffer[lp + 2];
  }

  /** `SHTONA` */
  method PutSize(buffer: array<byte>, at: nat, size: nat)
    requires at + 2 <= buffer.Length && size < 0x10000
    modifies buffer
    ensures [buffer[at], buffer[at + 1]] == Be(size, 2)
    ensures forall i :: 0 <= i < buffer.Length && i != at && i != at + 1 ==> buffer[i] == old(buffer[i])
  {
    TwoBytes(size);
    buffer[at], buffer[at + 1] := size / 256, size % 256;
  }

  lemma Assembled(b: bytes, c: bytes, lp: nat, n: nat, pos: nat)
    requires lp + pos + 5 <= n && n + 5 <= |b| == |c| && pos <= SizeAt(b, lp)
    requires var cut := lp + 5 + pos;
             && (forall i :: 0 <= i < lp + 3 ==> c[i] == b[i]) && [c[lp + 3], c[lp + 4]] == Be(pos, 2)
             && (forall i :: lp + 5 <= i < cut ==> c[i] == b[i])
             && c[cut] == b[lp] && c[cut + 1] == b[lp + 1] && c[cut + 2] == b[lp + 2]
             && [c[cut + 3], c[cut + 4]] == Be(SizeAt(b, lp) - pos, 2)
             && (forall i :: cut + 5 <= i < n + 5 ==> c[i] == b[i - 5])
    ensures SizeAt(b[lp..n], 0) == SizeAt(b, lp)
    ensures c[..n + 5] == b[..lp] + Halved(b[lp..n], pos)
  {
    var cut, r := lp + 5 + pos, b[lp..n];
    hide Be, Halved;
    assert SizeAt(r, 0) == SizeAt(b, lp);
    Front(b, c, lp, n, pos, r);
    Back(b, c, cut, n, r, lp, SizeAt(b, lp) - pos);
    HalvedIs(r, pos);
    assert c[..n + 5] == c[..cut] + c[cut..n + 5];
    Appended(b[..lp], r[..3] + Be(pos, 2) + r[5..5 + pos], r[..3] + Be(SizeAt(r, 0) - pos, 2) + r[5 + pos..]);
  }

  lemma HalvedIs(r: bytes, pos: nat)
    requires 5 + pos <= |r| && pos <= SizeAt(r, 0)
    ensures Halved(r, pos) == (r[..3] + Be(pos, 2) + r[5..5 + pos]) + (r[..3] + Be(SizeAt(r, 0) - pos, 2) + r[5 + pos..])
  {
    hide Be;
    Regrouped(r[..3] + Be(pos, 2) + r[5..5 + pos], r[..3], Be(SizeAt(r, 0) - pos, 2), r[5 + pos..]);
  }

  lemma Appended(a: bytes, b: bytes, c: bytes)
    ensures a + b + c == a + (b + c)
  {
  }

  /** The second record: the header put in, its size, and the rest moved up. */
  lemma Back(b: bytes, c: bytes, cut: nat, n: nat, r: bytes, lp: nat, size: nat)
    requires lp + 5 <= cut <= n && n + 5 <= |b| == |c| && r == b[lp..n]
    requires c[cut] == b[lp] && c[cut + 1] == b[lp + 1] && c[cut + 2] == b[lp + 2] && [c[cut + 3], c[cut + 4]] == Be(size, 2)
    requires forall i :: cut + 5 <= i < n + 5 ==> c[i] == b[i - 5]
    ensures c[cut..n + 5] == r[..3] + Be(size, 2) + r[cut - lp..]
  {
    hide Be;
    Shifted(b, c, cut, n, r, lp);
    assert r[..3] == [c[cut], c[cut + 1], c[cut + 2]];
    assert c[cut..n + 5] == c[cut..cut + 5] + c[cut + 5..n + 5];
    assert c[cut..cut + 5] == r[..3] + Be(size, 2);
  }

  lemma Front(b: bytes, c: bytes, lp: nat, n: nat, pos: nat, r: bytes)
    requires lp + pos + 5 <= n && n <= |b| == |c| && r == b[lp..n]
    requires (forall i :: 0 <= i < lp + 3 ==> c[i] == b[i]) && [c[lp + 3], c[lp + 4]] == Be(pos, 2)
    requires forall i :: lp + 5 <= i < lp + 5 + pos ==> c[i] == b[i]
    ensures c[..lp + 5 + pos] == b[..lp] + (r[..3] + Be(pos, 2) + r[5..5 + pos])
  {
    hide Be;
    var cut := lp + 5 + pos;
    var p3, q3 := c[lp + 5..cut], r[5..5 + pos];
    forall k | 0 <= k < pos ensures p3[k] == q3[k] {
      assert q3[k] == r[5 + k] == b[lp + 5 + k];
    }
    assert c[..lp + 3] == b[..lp] + r[..3];
    assert c[..cut] == c[..lp + 3] + [c[lp + 3], c[lp + 4]] + p3;
  }

  lemma Shifted(b: bytes, c: bytes, cut: nat, n: nat, r: bytes, lp: nat)
    requires lp <= cut <= n && n + 5 <= |b| == |c| && r == b[lp..n] && forall i :: cut + 5 <= i < n + 5 ==> c[i] == b[i - 5]
    ensures c[cut + 5..n + 5] == r[cut - lp..]
  {
    var x, y := c[cut + 5..n + 5], r[cut - lp..];
    forall k | 0 <= k < |x| ensures x[k] == y[k] {
      assert y[k] == r[cut - lp + k] == b[cut + k];
    }
  }

  /** Where the record that is split next begins: behind the header put in by the last split. */
  function LastStart(positions: seq<int>, k: nat): (lp: int)
    requires k <= |positions|
  {
    if k == 0 then 0 else positions[k - 1] + 5
  }

  /** Fragments that make up `f`, in records of which the `j`-th ends where the `j`-th position asked. */
  ghost predicate Parted(h: bytes, f: bytes, positions: seq<int>, frags: seq<bytes>)
    requires |h| == 3
  {
    && 0 < |frags| <= |positions| + 1 && Flatten(frags) == f && |Recs(h, frags)| == 5 * |frags| + |f|
    && forall j :: 0 < j < |frags| ==> |Recs(h, frags[..j])| == LastStart(positions, j)
  }

  /** The buffer begins with a complete record. */
  ghost predicate Complete(b: bytes, h: bytes, f: bytes, extra: bytes)
    requires |h| == 3
  {
    |f| < 0x10000 && b == Rec(h, f) + extra
  }

  /** The first position, from the `k`-th on, that lies behind the end of the records when its turn comes. */
  ghost function OverlongFrom(positions: seq<int>, k: nat, size: nat): (r: nat)
    requires k <= |positions|
    ensures k <= r <= |positions| && (forall j :: k <= j < r ==> positions[j] <= 5 * j + size)
    ensures r < |positions| ==> positions[r] > 5 * r + size
    decreases |positions| - k
  {
    if k == |positions| || positions[k] > 5 * k + size then k else OverlongFrom(positions, k + 1, size)
  }

  ghost function FirstOverlong(positions: seq<int>, size: nat): (r: nat)
    ensures r <= |positions| && forall j :: 0 <= j < r ==> positions[j] <= 5 * j + size
    ensures r < |positions| ==> positions[r] > 5 * r + size
  {
    OverlongFrom(positions, 0, size)
  }

  /** The `j`-th round counts: its position is not before the last record, and neither bytes nor room run out. */
  predicate Counts(positions: seq<int>, j: nat, n0: nat, size: nat)
    requires j < |positions|
  {
    LastStart(positions, j) <= positions[j] && positions[j] + 5 <= n0 + 5 * j && n0 + 5 * j + 5 <= size
  }

  /** What `i` rounds have made of a complete record with `extra` bytes behind it. The rounds before the first
      overlong position have split; that one has changed nothing; and whatever later ones do, they do
      behind the records. */
  ghost predicate After(b: bytes, h: bytes, f: bytes, extra: bytes, positions: seq<int>, frags: seq<bytes>, i: nat)
    requires |h| == 3
  {
    && |f| < 0x10000 && i <= |positions| && |b| == 5 + |f| + |extra| + 5 * i
    && Parted(h, f, positions, frags) && |frags| == Least(i, FirstOverlong(positions, |f|)) + 1
    && Recs(h, frags) <= b && (i <= |frags| ==> Recs(h, frags) + extra <= b)
    && (i >= |frags| ==> LastStart(positions, i) >= |Recs(h, frags)|)
  }

  function Least(a: nat, b: nat): (r: nat) { if a <= b then a else b }

  /** The loop of `tamp` over split positions. Each round that counts adds five bytes, and the buffer is never
      overrun. If the buffer begins with a complete record, the rounds before the first overlong position
      leave a sequence of well-formed records with its fragment, and the same bytes behind. So all
      rounds that count split if and only if they stop before that position. There a round counts
      without changing anything, and later ones leave the records as they are. */
  method SplitAll(buffer: array<byte>, n0: nat, positions: seq<int>, ghost h: bytes, ghost f: bytes, ghost extra: bytes)
      returns (n: nat, ghost rounds: nat, ghost frags: seq<bytes>)
    requires n0 <= buffer.Length && |h| == 3
    modifies buffer
    ensures rounds <= |positions| && n == n0 + 5 * rounds <= buffer.Length
    ensures forall j :: 0 <= j < rounds ==> Counts(positions, j, n0, buffer.Length)
    ensures rounds < |positions| ==> !Counts(positions, rounds, n0, buffer.Length)
    ensures Complete(old(buffer[..n0]), h, f, extra) ==>
              && Parted(h, f, positions, frags) && Recs(h, frags) <= buffer[..n]
              && (|frags| - 1 == rounds <==> rounds <= FirstOverlong(positions, |f|))
              && (rounds <= FirstOverlong(positions, |f|) ==> buffer[..n] == Recs(h, frags) + extra)
              && (rounds == FirstOverlong(positions, |f|) + 1 ==> |frags| == rounds && buffer[..n - 5] == Recs(h, frags) + extra)
              && (extra == [] ==> rounds <= FirstOverlong(positions, |f|))
  {
    hide Rec, Recs, Halved, After, Complete, Parted;
    n, frags, rounds := n0, [f], 0;
    var i, lp := 0, 0;
    ghost var whole := Complete(buffer[..n0], h, f, extra);
    if whole { OneRec(buffer[..n0], h, f, extra, positions); }
    while i < |positions|
      invariant i <= |positions| && rounds == i && n == n0 + 5 * i <= buffer.Length
      invariant lp == LastStart(positions, i) && 0 <= lp <= n
      invariant forall j :: 0 <= j < i ==> Counts(positions, j, n0, buffer.Length)
      invariant whole ==> After(buffer[..n], h, f, extra, positions, frags, i)
      decreases |positions| - i
    {
      var pos := positions[i];
      if pos < lp {
        break;
      }
      var ok;
      ok, frags := SplitOne(buffer, n, lp, pos, i, whole, h, f, extra, positions, frags);
      if !ok {
        break;
      }
      n := n + 5;
      lp := pos + 5;
      i := i + 1;
      rounds := i;
    }
    if whole { AfterAll(buffer[..n], h, f, extra, positions, frags, i, n0, buffer.Length); }
  }

  /** One round of that loop. */
  method SplitOne(buffer: array<byte>, n: nat, lp: nat, pos: int, ghost i: nat, ghost whole: bool,
                  ghost h: bytes, ghost f: bytes, ghost extra: bytes, ghost positions: seq<int>, ghost frags: seq<bytes>)
      returns (ok: bool, ghost frags': seq<bytes>)
    requires lp <= n <= buffer.Length && |h| == 3 && i < |positions| && pos == positions[i] && lp == LastStart(positions, i) <= pos
    requires whole ==> After(buffer[..n], h, f, extra, positions, frags, i)
    modifies buffer
    ensures !ok <==> pos + 5 > n || buffer.Length - n < 5
    ensures !ok ==> buffer[..] == old(buffer[..]) && frags' == frags
    ensures ok && whole ==> After(buffer[..n + 5], h, f, extra, positions, frags', i + 1)
  {
    hide Rec, Recs, Halved, After, Parted, FirstOverlong;
    frags' := frags;
    ghost var b := buffer[..n];
    if whole && i <= FirstOverlong(positions, |f|) { LastRec(b, h, f, extra, positions, frags, i); }
    SizeHere(buffer[..], lp, n);
    assert buffer[lp..n] == b[lp..] && buffer[..lp] == b[..lp];
    var r := PartTls(buffer, lp, n, pos - lp);
    ok := r != 0;
    if ok && whole {
      if i < FirstOverlong(positions, |f|) {
        frags' := SplitLast(b, h, f, extra, positions, frags, i, pos - lp, buffer[..n + 5]);
      } else {
        assert i > FirstOverlong(positions, |f|) ==> buffer[..lp] == b[..lp] by { Kept(buffer[..], b, lp, n); }
        assert i == FirstOverlong(positions, |f|) ==> b <= buffer[..n + 5];
        Behind(b, h, f, extra, positions, frags, i, buffer[..n + 5]);
      }
    }
  }

  lemma SizeHere(b: bytes, lp: nat, n: nat)
    requires lp <= n <= |b|
    ensures lp + 5 <= n ==> SizeAt(b, lp) == SizeAt(b[lp..n], 0)
  {
  }

  /** At the start there is one record. */
  lemma OneRec(b: bytes, h: bytes, f: bytes, extra: bytes, positions: seq<int>)
    requires |h| == 3 && Complete(b, h, f, extra)
    ensures After(b, h, f, extra, positions, [f], 0)
  {
    RecsSnoc(h, [], f);
    assert [] + [f] == [f] && Recs(h, []) == [];
    assert Recs(h, [f]) == [] + Rec(h, f);
    assert [f][1..] == [] && Flatten<byte>([]) == [];
  }

  lemma {:induction false} FragBound(frags: seq<bytes>, j: nat)
    requires j < |frags|
    ensures |frags[j]| <= |Flatten(frags)|
  {
    if j > 0 { FragBound(frags[1..], j - 1); }
  }

  /** The last record while all rounds have split: where it begins, how long it is, and what its header says. */
  lemma LastRec(b: bytes, h: bytes, f: bytes, extra: bytes, positions: seq<int>, frags: seq<bytes>, i: nat)
    requires |h| == 3 && After(b, h, f, extra, positions, frags, i) && i <= FirstOverlong(positions, |f|)
    ensures |frags| == i + 1 && b == Recs(h, frags) + extra && |f| < 0x10000
    ensures var lp := LastStart(positions, i);
            && 0 <= lp && lp + 5 <= |b| && b[lp..] == Rec(h, frags[i]) + extra && |frags[i]| < 0x10000 && b[..lp] == Recs(h, frags[..i])
            && |frags[i]| == 5 * i + |f| - lp && SizeAt(b[lp..], 0) == |frags[i]|
  {
    hide Flatten, FirstOverlong, Rec;
    FragBound(frags, i);
    var init, last := frags[..i], frags[i];
    RecsSnoc(h, init, last);
    assert frags == init + [last];
    assert Recs(h, frags) + extra == Recs(h, init) + (Rec(h, last) + extra);
    assert i == 0 ==> init == [] && Recs(h, init) == [];
    RecParts(h, last, extra);
  }

  /** A round that splits the last record. */
  lemma SplitLast(b: bytes, h: bytes, f: bytes, extra: bytes, positions: seq<int>, frags: seq<bytes>, i: nat, p: nat, b': bytes)
      returns (frags': seq<bytes>)
    requires |h| == 3 && After(b, h, f, extra, positions, frags, i) && i < FirstOverlong(positions, |f|)
    requires var lp := LastStart(positions, i);
             && 0 <= lp <= |b| && p == positions[i] - lp && |b[lp..]| >= 5 + p && p <= SizeAt(b[lp..], 0)
             && b' == b[..lp] + Halved(b[lp..], p)
    ensures After(b', h, f, extra, positions, frags', i + 1)
  {
    hide Rec, Recs, Halved, Flatten, Parted, FirstOverlong;
    LastRec(b, h, f, extra, positions, frags, i);
    var init, last := frags[..i], frags[i];
    var x, y := last[..p], last[p..];
    assert frags == init + [last] && last == x + y;
    assert frags == init + [x + y];
    HalvedRec(h, last, extra, p);
    PartedMore(h, f, positions, init, x, y);
    frags' := init + [x, y];
    Regrouped(Recs(h, init), Rec(h, x), Rec(h, y), extra);
    assert |b'| == |b| + 5;
  }

  lemma PartedMore(h: bytes, f: bytes, positions: seq<int>, init: seq<bytes>, x: bytes, y: bytes)
    requires |h| == 3 && Parted(h, f, positions, init + [x + y]) && |init| < |positions|
    requires positions[|init|] == LastStart(positions, |init|) + |x|
    ensures Recs(h, init + [x, y]) == Recs(h, init) + Rec(h, x) + Rec(h, y)
    ensures Parted(h, f, positions, init + [x, y])
  {
    hide Rec, Recs, Flatten;
    var frags := init + [x + y];
    assert init + [x] + [y] == init + [x, y];
    RecsSnoc(h, init, x + y);
    RecsSnoc(h, init, x);
    RecsSnoc(h, init + [x], y);
    SameFlatten(init, x + y, x, y);
    assert frags[..|init|] == init;
    RecsNone(h);
    SplitBounds(h, positions, frags, x, y);
  }

  lemma RecsNone(h: bytes)
    requires |h| == 3
    ensures Recs(h, []) == []
  {
  }

  lemma Regrouped(a: bytes, b: bytes, c: bytes, d: bytes)
    ensures a + (b + c + d) == a + b + c + d
  {
  }

  /** A round behind the records leaves them alone. */
  lemma Behind(b: bytes, h: bytes, f: bytes, extra: bytes, positions: seq<int>, frags: seq<bytes>, i: nat, b': bytes)
    requires |h| == 3 && After(b, h, f, extra, positions, frags, i) && FirstOverlong(positions, |f|) <= i < |positions|
    requires LastStart(positions, i) <= positions[i] && |b'| == |b| + 5 && 0 <= LastStart(positions, i) <= |b|
    requires if i == FirstOverlong(positions, |f|) then b <= b' else b'[..LastStart(positions, i)] == b[..LastStart(positions, i)]
    ensures After(b', h, f, extra, positions, frags, i + 1)
  {
    hide Recs, Parted;
    var k, lp, recs := FirstOverlong(positions, |f|), LastStart(positions, i), Recs(h, frags);
    assert |recs| == 5 * |frags| + |f| by { PartedLen(h, f, positions, frags); }
    if i > k {
      assert recs == b[..|recs|] == b[..lp][..|recs|] == b'[..|recs|];
    }
  }

  lemma PartedLen(h: bytes, f: bytes, positions: seq<int>, frags: seq<bytes>)
    requires |h| == 3 && Parted(h, f, positions, frags)
    ensures |Recs(h, frags)| == 5 * |frags| + |f|
  {
  }

  lemma Kept(c: bytes, b: bytes, lp: nat, n: nat)
    requires lp <= n <= |c| && n == |b| && b[..lp] <= c
    ensures c[..lp] == b[..lp]
  {
  }

  /** What this comes to when the loop is done. */
  lemma AfterAll(b: bytes, h: bytes, f: bytes, extra: bytes, positions: seq<int>, frags: seq<bytes>, i: nat, n0: nat, size: nat)
    requires |h| == 3 && After(b, h, f, extra, positions, frags, i) && n0 == 5 + |f| + |extra|
    requires forall j :: 0 <= j < i ==> Counts(positions, j, n0, size)
    ensures var k := FirstOverlong(positions, |f|);
            && Parted(h, f, positions, frags) && Recs(h, frags) <= b && (|frags| - 1 == i <==> i <= k)
            && (i <= k ==> b == Recs(h, frags) + extra)
            && (i == k + 1 ==> |frags| == i && b[..|b| - 5] == Recs(h, frags) + extra)
            && (extra == [] ==> i <= k)
  {
    PartedLen(h, f, positions, frags);
    hide Parted, Recs;
    var k := FirstOverlong(positions, |f|);
    assert k < i ==> Counts(positions, k, n0, size);
  }

  /** The old ends are where they were, and the new one is where it was asked for. */
  lemma SplitBounds(h: bytes, positions: seq<int>, frags: seq<bytes>, x: bytes, y: bytes)
    requires |h| == 3 && 0 < |frags| <= |positions|
    requires forall j :: 0 < j < |frags| ==> |Recs(h, frags[..j])| == LastStart(positions, j)
    requires |Recs(h, frags[..|frags| - 1] + [x])| == LastStart(positions, |frags|)
    ensures var two := frags[..|frags| - 1] + [x, y];
            forall j :: 0 < j < |two| ==> |Recs(h, two[..j])| == LastStart(positions, j)
  {
    hide Recs;
    var k := |frags| - 1;
    var two := frags[..k] + [x, y];
    forall j | 0 < j < |two| ensures |Recs(h, two[..j])| == LastStart(positions, j) {
      if j <= k {
        assert two[..j] == frags[..j];
      } else {
        assert two[..j] == frags[..k] + [x];
      }
    }
  }

  lemma SameFlatten(init: seq<bytes>, last: bytes, x: bytes, y: bytes)
    requires last == x + y
    ensures Flatten(init + [x, y]) == Flatten(init + [last])
  {
    hide Flatten;
    FlattenSnoc(init, last);
    FlattenSnoc(init, x);
    FlattenSnoc(init + [x], y);
    assert init + [x, y] == init + [x] + [y];
    assert Flatten(init) + x + y == Flatten(init) + (x + y);
  }

  lemma RecsSnoc(h: bytes, frags: seq<bytes>, f: bytes)
    requires |h| == 3
    ensures Recs(h, frags + [f]) == Recs(h, frags) + Rec(h, f)
  {
    assert (frags + [f])[..|frags|] == frags;
  }
}
