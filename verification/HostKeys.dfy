/**
  Keys of a CMP_HOST pool: host names compared from the end by `host_cmp`, where a name and
  the names below it (`example.com`, `www.example.com`) compare equal.

  The tree needs a comparator whose signs are monotone along the stored order. For host
  names that is not always so; this module says exactly when it is, and when searches agree
  with a linear scan.
*/
module HostKeys {
  import opened Wire
  import opened KavlTree
  import opened KavlNodes

  type Name = seq<byte>

  const DOT: byte := 46

  /** The value of a plain `char`, which may be signed. */
  function Char(signed: bool, c: byte): int { if signed && c >= 128 then c as int - 256 else c }

  /** What `host_cmp` computes. */
  function HostCmp(signed: bool, p: Name, q: Name): int {
    if p == [] && q == [] then 0
    else if p == [] then (if q[|q| - 1] == DOT then 0 else -1)
    else if q == [] then (if p[|p| - 1] == DOT then 0 else 1)
    else if p[|p| - 1] != q[|q| - 1] then
      (if Char(signed, p[|p| - 1]) < Char(signed, q[|q| - 1]) then -1 else 1)
    else HostCmp(signed, p[..|p| - 1], q[..|q| - 1])
  }

  /** `host_cmp`: two cursors walk back from the ends of the names. */
  method CompareHosts(signed: bool, p: Name, q: Name) returns (r: int)
    ensures r == HostCmp(signed, p, q)
  {
    var len := if |q| < |p| then |q| else |p|;
    var pd, qd := |p|, |q|;
    assert p[..pd] == p && q[..qd] == q;
    while len > 0
      invariant 0 <= len <= pd && len <= qd && (len == pd || len == qd)
      invariant |p| - pd == |q| - qd
      invariant HostCmp(signed, p[..pd], q[..qd]) == HostCmp(signed, p, q)
    {
      len := len - 1;
      pd, qd := pd - 1, qd - 1;
      assert p[..pd + 1][..pd] == p[..pd] && q[..qd + 1][..qd] == q[..qd];
      if p[pd] != q[qd] {
        return if Char(signed, p[pd]) < Char(signed, q[qd]) then -1 else 1;
      }
    }
    if |p| == |q| { return 0; }
    var c := if |p| > |q| then p[pd - 1] else q[qd - 1];
    if c == DOT { return 0; }
    return if |p| > |q| then 1 else -1;
  }

  /** `q` is `p` or a name below it. */
  ghost predicate Under(p: Name, q: Name) {
    p == q || (|p| < |q| && q[|q| - |p|..] == p && q[|q| - |p| - 1] == DOT)
  }

  /** `host_cmp` is zero exactly for a name and a name below it. */
  lemma {:induction false} HostZero(signed: bool, p: Name, q: Name)
    ensures HostCmp(signed, p, q) == 0 <==> Under(p, q) || Under(q, p)
  {
    if p != [] && q != [] {
      var p', q' := p[..|p| - 1], q[..|q| - 1];
      assert p == p' + [p[|p| - 1]] && q == q' + [q[|q| - 1]];
      if p[|p| - 1] == q[|q| - 1] {
        HostZero(signed, p', q');
        UnderSnoc(p', q', p[|p| - 1]);
        UnderSnoc(q', p', p[|p| - 1]);
      } else {
        if |p| <= |q| { assert q[|q| - |p|..][|p| - 1] == q[|q| - 1]; }
        if |q| <= |p| { assert p[|p| - |q|..][|q| - 1] == p[|p| - 1]; }
      }
    } else {
      assert p[|p|..] == [] && q[|q|..] == [];
    }
  }

  lemma UnderSnoc(p: Name, q: Name, c: byte)
    ensures Under(p + [c], q + [c]) <==> Under(p, q)
  {
    if |p| < |q| {
      assert (q + [c])[|q| - |p|..] == q[|q| - |p|..] + [c];
      assert q[|q| - |p|..] + [c] == p + [c] <==> q[|q| - |p|..] == p by {
        if q[|q| - |p|..] + [c] == p + [c] {
          assert (q[|q| - |p|..] + [c])[..|p|] == q[|q| - |p|..] && (p + [c])[..|p|] == p;
        }
      }
    } else if |p| == |q| {
      if p + [c] == q + [c] { assert (p + [c])[..|p|] == p && (q + [c])[..|q|] == q; }
    }
  }

  lemma {:induction false} HostFlip(signed: bool, p: Name, q: Name)
    ensures HostCmp(signed, q, p) == -HostCmp(signed, p, q)
  {
    if p != [] && q != [] && p[|p| - 1] == q[|q| - 1] { HostFlip(signed, p[..|p| - 1], q[..|q| - 1]); }
  }

  /** Read from the end, the two names part at a place where one goes on with a character
      below the dot (such as a hyphen) and the other has ended or goes on with the dot. */
  ghost predicate Clash(signed: bool, a: Name, b: Name) {
    if a == [] && b == [] then false
    else if a == [] then Char(signed, b[|b| - 1]) < Char(signed, DOT)
    else if b == [] then Char(signed, a[|a| - 1]) < Char(signed, DOT)
    else if a[|a| - 1] != b[|b| - 1] then
      || (a[|a| - 1] == DOT && Char(signed, b[|b| - 1]) < Char(signed, DOT))
      || (b[|b| - 1] == DOT && Char(signed, a[|a| - 1]) < Char(signed, DOT))
    else Clash(signed, a[..|a| - 1], b[..|b| - 1])
  }

  /** Which queries are asked: all, or only names that are not empty. */
  ghost predicate Asked(empty: bool, x: Name) { empty || x != [] }

  /** A clash that such a query can run into: that of two names which part at their last characters shows in
      the empty query alone. */
  ghost predicate Clashes(signed: bool, empty: bool, a: Name, b: Name) {
    Clash(signed, a, b) && (empty || a == [] || b == [] || a[|a| - 1] == b[|b| - 1])
  }

  /** What a search needs of two neighbours `a` below `b`, for the query `x`. */
  ghost predicate Guided(signed: bool, x: Name, a: Name, b: Name) {
    && (HostCmp(signed, x, a) <= 0 ==> HostCmp(signed, x, b) <= 0)
    && (HostCmp(signed, x, a) < 0 ==> HostCmp(signed, x, b) < 0)
  }

  lemma {:induction false} NoClashGuides(signed: bool, x: Name, a: Name, b: Name)
    requires HostCmp(signed, a, b) < 0 && !Clash(signed, a, b)
    ensures Guided(signed, x, a, b)
  {
    if x != [] && a != [] && b != [] && a[|a| - 1] == b[|b| - 1] && x[|x| - 1] == a[|a| - 1] {
      NoClashGuides(signed, x[..|x| - 1], a[..|a| - 1], b[..|b| - 1]);
    }
  }

  lemma NoClashesGuides(signed: bool, empty: bool, x: Name, a: Name, b: Name)
    requires HostCmp(signed, a, b) < 0 && !Clashes(signed, empty, a, b) && Asked(empty, x)
    ensures Guided(signed, x, a, b)
  {
    if !Clash(signed, a, b) { NoClashGuides(signed, x, a, b); }
  }

  /** `x` matches one of the two names, but at the other it is sent away from it. */
  ghost predicate Misled(signed: bool, x: Name, a: Name, b: Name) {
    || (HostCmp(signed, x, a) < 0 && HostCmp(signed, x, b) == 0)
    || (HostCmp(signed, x, a) == 0 && HostCmp(signed, x, b) > 0)
  }

  /** For every clashing pair there is such a query. */
  lemma {:induction false} ClashMisleads(signed: bool, empty: bool, a: Name, b: Name) returns (x: Name)
    requires HostCmp(signed, a, b) < 0 && Clashes(signed, empty, a, b)
    ensures Misled(signed, x, a, b) && !Guided(signed, x, a, b) && Asked(empty, x)
    decreases |a|
  {
    if a == [] {
      x := [DOT];
      assert x[..0] == [];
    } else if a[|a| - 1] != b[|b| - 1] {
      x := [];
    } else {
      var y := ClashMisleads(signed, true, a[..|a| - 1], b[..|b| - 1]);
      x := y + [a[|a| - 1]];
      assert x[..|x| - 1] == y;
    }
  }

  /** The stored names in tree order, each strictly below the next. */
  ghost predicate Sorted(signed: bool, key: map<Ptr, Name>, ns: seq<Ptr>) {
    && (forall i :: 0 <= i < |ns| ==> ns[i] in key)
    && forall i, j :: 0 <= i < j < |ns| ==> HostCmp(signed, key[ns[i]], key[ns[j]]) < 0
  }

  function HostOrder(signed: bool): Cmp<Name> { (p: Name, q: Name) => HostCmp(signed, p, q) }

  /** The comparator is fit to search these names, for every query that is asked, if and only if no two of
      them clash in a way that it can run into. */
  lemma HostGuides(signed: bool, empty: bool, key: map<Ptr, Name>, ns: seq<Ptr>)
    requires Sorted(signed, key, ns)
    ensures (forall x :: Asked(empty, x) ==> Guides(key, HostOrder(signed), x, ns)) <==>
            (forall i, j :: 0 <= i < j < |ns| ==> !Clashes(signed, empty, key[ns[i]], key[ns[j]]))
  {
    hide HostCmp, Clashes;
    if forall i, j :: 0 <= i < j < |ns| ==> !Clashes(signed, empty, key[ns[i]], key[ns[j]]) {
      forall x | Asked(empty, x) ensures Guides(key, HostOrder(signed), x, ns) {
        forall i, j | 0 <= i < j < |ns| ensures Guided(signed, x, key[ns[i]], key[ns[j]]) {
          NoClashesGuides(signed, empty, x, key[ns[i]], key[ns[j]]);
        }
      }
    } else {
      var i, j :| 0 <= i < j < |ns| && Clashes(signed, empty, key[ns[i]], key[ns[j]]);
      var x := ClashMisleads(signed, empty, key[ns[i]], key[ns[j]]);
      assert !Guides(key, HostOrder(signed), x, ns);
    }
  }

  // ----- searches

  /** A tree that a pool over these names can have: balanced, each name once, in order. */
  ghost predicate PoolTree(signed: bool, key: map<Ptr, Name>, t: Tree) {
    Avl(t) && Distinct(t) && Objs(t) <= key.Keys && NULL !in Objs(t) && Sorted(signed, key, Nodes(t))
  }

  /** The name stored at `p` is the query's, or above or below it. */
  ghost predicate HostMatches(key: map<Ptr, Name>, x: Name, p: Ptr)
    requires p in key
  {
    Under(key[p], x) || Under(x, key[p])
  }

  /** A search agrees with a linear scan: it comes out empty exactly when no name matches, and what it
      finds matches. */
  ghost predicate Answers(signed: bool, key: map<Ptr, Name>, t: Tree, x: Name)
    requires Objs(t) <= key.Keys
  {
    var p := SearchIn(key, HostOrder(signed), x, t);
    && (p == NULL <==> forall o :: o in Objs(t) ==> !HostMatches(key, x, o))
    && (p != NULL ==> p in Objs(t) && HostMatches(key, x, p))
  }

  /** With signs in order a search ends at a match if there is one. */
  lemma {:induction false} GuidedSearch(signed: bool, key: map<Ptr, Name>, t: Tree, x: Name)
    requires Objs(t) <= key.Keys && NULL !in Objs(t) && Guides(key, HostOrder(signed), x, Nodes(t))
    ensures var p := SearchIn(key, HostOrder(signed), x, t);
            && (p == NULL <==> forall o :: o in Objs(t) ==> HostCmp(signed, x, key[o]) != 0)
            && (p != NULL ==> p in Objs(t) && HostCmp(signed, x, key[p]) == 0)
  {
    hide HostCmp;
    if t.N? {
      NodesObjs(t.l);
      NodesObjs(t.r);
      GuidesParts(key, HostOrder(signed), x, Nodes(t.l), t.o, Nodes(t.r));
      GuidedSearch(signed, key, t.l, x);
      GuidedSearch(signed, key, t.r, x);
      assert t.o in Objs(t);
      forall o | o in Objs(t.l) ensures HostCmp(signed, x, key[t.o]) > 0 ==> HostCmp(signed, x, key[o]) > 0 { assert o in Nodes(t.l); }
      forall o | o in Objs(t.r) ensures HostCmp(signed, x, key[t.o]) < 0 ==> HostCmp(signed, x, key[o]) < 0 { assert o in Nodes(t.r); }
    }
  }

  lemma GuidesParts(key: map<Ptr, Name>, cmp: Cmp<Name>, x: Name, a: seq<Ptr>, o: Ptr, b: seq<Ptr>)
    requires Guides(key, cmp, x, a + [o] + b)
    ensures Guides(key, cmp, x, a) && Guides(key, cmp, x, b) && o in key
    ensures cmp(x, key[o]) > 0 ==> forall q :: q in a ==> cmp(x, key[q]) > 0
    ensures cmp(x, key[o]) < 0 ==> forall q :: q in b ==> cmp(x, key[q]) < 0
  {
    var ns := a + [o] + b;
    GuidesPart(key, cmp, x, ns, a, 0);
    GuidesPart(key, cmp, x, ns, b, |a| + 1);
    assert ns[|a|] == o;
    forall q | q in a && cmp(x, key[o]) > 0 ensures cmp(x, key[q]) > 0 {
      var i :| 0 <= i < |a| && a[i] == q;
      assert ns[i] == q;
    }
    forall q | q in b && cmp(x, key[o]) < 0 ensures cmp(x, key[q]) < 0 {
      var i :| 0 <= i < |b| && b[i] == q;
      assert ns[|a| + 1 + i] == q;
    }
  }

  lemma GuidesPart(key: map<Ptr, Name>, cmp: Cmp<Name>, x: Name, ns: seq<Ptr>, part: seq<Ptr>, at: nat)
    requires Guides(key, cmp, x, ns) && at + |part| <= |ns| && forall i :: 0 <= i < |part| ==> part[i] == ns[at + i]
    ensures Guides(key, cmp, x, part)
  {
  }

  /** Without clashes every search in every tree over the names agrees with a linear scan. */
  lemma NoClashAnswers(signed: bool, empty: bool, key: map<Ptr, Name>, t: Tree, x: Name)
    requires PoolTree(signed, key, t) && Asked(empty, x)
    requires forall p, q :: p in key && q in key && HostCmp(signed, key[p], key[q]) < 0 ==> !Clashes(signed, empty, key[p], key[q])
    ensures Answers(signed, key, t, x)
  {
    HostGuides(signed, empty, key, Nodes(t));
    GuidedSearch(signed, key, t, x);
    hide HostCmp;
    forall o | o in Objs(t) ensures HostCmp(signed, x, key[o]) == 0 <==> HostMatches(key, x, o) {
      HostZero(signed, x, key[o]);
    }
  }

  /** For every pair of names that clash so there is a tree over the two, and a query, for which the search
      comes out empty although one of them matches. */
  lemma ClashMisses(signed: bool, empty: bool, key: map<Ptr, Name>, p: Ptr, q: Ptr) returns (t: Tree, x: Name)
    requires p in key && q in key && p != NULL && q != NULL
    requires HostCmp(signed, key[p], key[q]) < 0 && Clashes(signed, empty, key[p], key[q])
    ensures PoolTree(signed, key, t) && Objs(t) == {p, q} && Asked(empty, x)
    ensures SearchIn(key, HostOrder(signed), x, t) == NULL && (HostMatches(key, x, p) || HostMatches(key, x, q))
    ensures !Answers(signed, key, t, x)
  {
    var a, b := key[p], key[q];
    x := ClashMisleads(signed, empty, a, b);
    HostFlip(signed, a, a);
    assert p != q;
    HostZero(signed, x, a);
    HostZero(signed, x, b);
    hide HostCmp, Clash, Clashes, Guided, Under;
    LeafNodes(p);
    LeafNodes(q);
    if HostCmp(signed, x, a) < 0 {
      t := N(p, 1, 2, Nil, Leaf(q));
      assert Nodes(t) == Nodes(Nil) + [p] + Nodes(Leaf(q)) == [p, q];
    } else {
      t := N(q, -1, 2, Leaf(p), Nil);
      assert Nodes(t) == Nodes(Leaf(p)) + [q] + Nodes(Nil) == [p, q];
    }
    assert SearchIn(key, HostOrder(signed), x, t) == SearchIn(key, HostOrder(signed), x, Nil);
  }

  /** A CMP_HOST pool answers every query that is asked as a linear scan would, in every tree over some of its
      names, if and only if no two names clash: at all, if the empty name is asked for, and else in any way
      but by their last characters. */
  lemma HostAnswers(signed: bool, empty: bool, key: map<Ptr, Name>)
    requires NULL !in key
    ensures (forall t, x :: PoolTree(signed, key, t) && Asked(empty, x) ==> Answers(signed, key, t, x)) <==>
            (forall p, q :: p in key && q in key && HostCmp(signed, key[p], key[q]) < 0 ==> !Clashes(signed, empty, key[p], key[q]))
  {
    hide HostCmp, Clashes, Answers;
    if forall p, q :: p in key && q in key && HostCmp(signed, key[p], key[q]) < 0 ==> !Clashes(signed, empty, key[p], key[q]) {
      forall t, x | PoolTree(signed, key, t) && Asked(empty, x) ensures Answers(signed, key, t, x) {
        NoClashAnswers(signed, empty, key, t, x);
      }
    } else {
      var p, q :| p in key && q in key && HostCmp(signed, key[p], key[q]) < 0 && Clashes(signed, empty, key[p], key[q]);
      var t, x := ClashMisses(signed, empty, key, p, q);
    }
  }

  /** The clash at work: with `g` and `-g` stored and the longer name on top, a search for `.g`
      ends at nothing although that name is below the stored `g`. */
  lemma HostMiss(signed: bool) returns (key: map<Ptr, Name>, t: Tree, x: Name, p: Ptr)
    ensures Avl(t) && Distinct(t) && Objs(t) == key.Keys && Sorted(signed, key, Nodes(t))
    ensures p in key && Under(key[p], x)
    ensures SearchIn(key, HostOrder(signed), x, t) == NULL
  {
    var g: Name := [103];
    var b: Name := [45, 103];
    x := [46, 103];
    p := 2;
    key := map[2 := g, 3 := b];
    t := N(3, -1, 2, Leaf(2), Nil);
    HostValues(signed);
    LeafNodes(2);
    assert Nodes(t) == Nodes(Leaf(2)) + [3] + Nodes(Nil) == [2, 3];
    assert x[1..] == g;
    hide HostCmp;
    assert SearchIn(key, HostOrder(signed), x, t) == SearchIn(key, HostOrder(signed), x, Nil);
  }

  lemma HostValues(signed: bool)
    ensures HostCmp(signed, [103], [45, 103]) == -1 && HostCmp(signed, [46, 103], [45, 103]) == 1
  {
    var g: Name, b: Name, x: Name := [103], [45, 103], [46, 103];
    assert g[..0] == [] && b[..1] == [45] && x[..1] == [46];
  }
}
