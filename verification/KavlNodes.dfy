/**
  The linked side of `kavl.h`: find, insert and erase over nodes updated in
  place, with the 64-entry path stacks of the original.

  Memory is explicit: `Heads` maps the address of an element to the tree head
  embedded in it, and a store through a pointer is an update of that map.
*/
module KavlNodes {
  import opened KavlTree

  const NULL: Ptr := 0

  /** The address of the local variable `fake` of `kavl_erase`; no element lives there. */
  const FAKE: Ptr := 1

  datatype Head = Head(left: Ptr, right: Ptr, balance: int, size: int) {
    /** `p[d]`: false is index 0 (left), true is index 1 (right). */
    function Child(d: bool): Ptr { if d then right else left }

    function WithChild(d: bool, c: Ptr): Head { if d then this.(right := c) else this.(left := c) }
  }

  type Heads = map<Ptr, Head>

  /** The linked structure starting at `p` is exactly `t`, stored fields included. */
  ghost predicate Rep(h: Heads, p: Ptr, t: Tree)
    decreases t
  {
    match t
    case Nil => p == NULL
    case N(o, b, s, l, r) =>
      && p == o && o != NULL && o in h && h[o].balance == b && h[o].size == s
      && Rep(h, h[o].left, l) && Rep(h, h[o].right, r)
  }

  /** The nodes passed on the way along `ds`. */
  ghost function PathNodes(t: Tree, ds: seq<bool>): (ns: seq<Ptr>)
    requires Path(t, ds)
    ensures |ns| == |ds|
    decreases |ds|
  {
    if ds == [] then [] else [t.o] + PathNodes(Sub(t, ds[0]), ds[1..])
  }

  lemma {:induction false} PathNodesAppend(t: Tree, ds: seq<bool>, d: bool)
    requires Path(t, ds) && At(t, ds).N?
    ensures Path(t, ds + [d]) && PathNodes(t, ds + [d]) == PathNodes(t, ds) + [At(t, ds).o]
    decreases |ds|
  {
    AtAppend(t, ds, [d]);
    if ds == [] {
      assert ds + [d] == [d];
      assert [d][1..] == [];
    } else {
      assert (ds + [d])[0] == ds[0] && (ds + [d])[1..] == ds[1..] + [d];
      PathNodesAppend(Sub(t, ds[0]), ds[1..], d);
    }
  }

  lemma {:induction false} PathNodesAt(t: Tree, ds: seq<bool>, i: nat)
    requires Path(t, ds) && i < |ds|
    ensures Path(t, ds[..i]) && At(t, ds[..i]).N? && At(t, ds[..i]).o == PathNodes(t, ds)[i]
    ensures Path(At(t, ds[..i]), ds[i..]) && At(At(t, ds[..i]), ds[i..]) == At(t, ds)
    decreases |ds|
  {
    if i == 0 {
      assert ds[..0] == [] && ds[0..] == ds;
    } else {
      assert ds[..i][0] == ds[0] && ds[..i][1..] == ds[1..][..i - 1] && ds[i..] == ds[1..][i - 1..];
      PathNodesAt(Sub(t, ds[0]), ds[1..], i - 1);
    }
  }

  lemma {:induction false} PathNodesGraft(t: Tree, ds: seq<bool>, u: Tree, k: int)
    requires Path(t, ds)
    ensures Path(Graft(t, ds, u, k), ds) && PathNodes(Graft(t, ds, u, k), ds) == PathNodes(t, ds)
    decreases |ds|
  {
    if ds != [] { PathNodesGraft(Sub(t, ds[0]), ds[1..], u, k); }
  }

  lemma {:induction false} RepAt(h: Heads, p: Ptr, t: Tree, ds: seq<bool>)
    requires Rep(h, p, t) && Path(t, ds)
    ensures ds == [] ==> Rep(h, p, At(t, ds))
    ensures ds != [] ==> PathNodes(t, ds)[|ds| - 1] in h && Rep(h, h[PathNodes(t, ds)[|ds| - 1]].Child(ds[|ds| - 1]), At(t, ds))
    ensures At(t, ds).N? ==> Rep(h, At(t, ds).o, At(t, ds))
    decreases |ds|
  {
    if ds != [] { RepAt(h, h[t.o].Child(ds[0]), Sub(t, ds[0]), ds[1..]); }
  }

  lemma {:induction false} PathNodesIn(h: Heads, p: Ptr, t: Tree, ds: seq<bool>)
    requires Rep(h, p, t) && Path(t, ds)
    ensures forall i :: 0 <= i < |ds| ==> PathNodes(t, ds)[i] != NULL && PathNodes(t, ds)[i] in h
    decreases |ds|
  {
    if ds != [] { PathNodesIn(h, h[t.o].Child(ds[0]), Sub(t, ds[0]), ds[1..]); }
  }

  /** `h'` differs from `h` at most on `s`. */
  ghost predicate SameOutside(h: Heads, h': Heads, s: set<Ptr>) {
    forall o :: o in h && o !in s ==> o in h' && h'[o] == h[o]
  }

  lemma {:induction false} RepFrame(h: Heads, h': Heads, p: Ptr, t: Tree, s: set<Ptr>)
    requires Rep(h, p, t) && SameOutside(h, h', s) && Objs(t) !! s
    ensures Rep(h', p, t)
    decreases t
  {
    if t.N? {
      RepFrame(h, h', h[t.o].left, t.l, s);
      RepFrame(h, h', h[t.o].right, t.r, s);
    }
  }

  /** The one framing step behind every pointer update: outside the child towards `d`
      of the node at `ds` nothing changed, except that this node now links to `c`,
      which carries `u`. */
  lemma {:induction false} LinkRep(h: Heads, h': Heads, p: Ptr, t: Tree, ds: seq<bool>, d: bool, c: Ptr, u: Tree)
    requires Rep(h, p, t) && Distinct(t) && Path(t, ds) && At(t, ds).N? && Rep(h', c, u)
    requires SameOutside(h, h', Objs(Sub(At(t, ds), d)) + {At(t, ds).o})
    requires var q := At(t, ds).o; q in h && q in h' && h'[q] == h[q].WithChild(d, c)
    ensures Rep(h', p, Graft(t, ds, WithSub(At(t, ds), d, u), 0))
    decreases |ds|
  {
    var s := Objs(Sub(At(t, ds), d)) + {At(t, ds).o};
    if ds == [] {
      RepFrame(h, h', h[t.o].Child(!d), Sub(t, !d), s);
    } else {
      var e, v := ds[0], Sub(t, ds[0]);
      AtObjs(v, ds[1..]);
      RepFrame(h, h', h[t.o].Child(!e), Sub(t, !e), s);
      LinkRep(h, h', h[t.o].Child(e), v, ds[1..], d, c, u);
    }
  }

  /** Only the balance and size of the node at `ds` changed. */
  lemma {:induction false} FieldRep(h: Heads, p: Ptr, t: Tree, ds: seq<bool>, b: int, s: int)
    requires Rep(h, p, t) && Distinct(t) && Path(t, ds) && At(t, ds).N?
    ensures At(t, ds).o in h
    ensures var v := At(t, ds);
            Rep(h[v.o := h[v.o].(balance := b, size := s)], p, Graft(t, ds, v.(b := b, s := s), 0))
    decreases |ds|
  {
    RepAt(h, p, t, ds);
    var v := At(t, ds);
    var h' := h[v.o := h[v.o].(balance := b, size := s)];
    if ds == [] {
      RepFrame(h, h', h[t.o].left, t.l, {t.o});
      RepFrame(h, h', h[t.o].right, t.r, {t.o});
    } else {
      var e, w := ds[0], Sub(t, ds[0]);
      AtObjs(w, ds[1..]);
      RepFrame(h, h', h[t.o].Child(!e), Sub(t, !e), {v.o});
      FieldRep(h, h[t.o].Child(e), w, ds[1..], b, s);
    }
  }

  // ----- searching

  /** The comparator the tree is instantiated with; only the sign of its result is used. */
  type Cmp<!K> = (K, K) -> int

  /** The signs of the comparisons of `x` with the keys in order go from positive over
      zero to negative: all a search tree needs to know about its comparator. */
  ghost predicate Guides<K>(key: map<Ptr, K>, cmp: Cmp<K>, x: K, ns: seq<Ptr>) {
    && (forall i :: 0 <= i < |ns| ==> ns[i] in key)
    && forall i, j :: 0 <= i < j < |ns| ==>
         && (cmp(x, key[ns[i]]) <= 0 ==> cmp(x, key[ns[j]]) <= 0)
         && (cmp(x, key[ns[i]]) < 0 ==> cmp(x, key[ns[j]]) < 0)
  }

  /** `x` belongs at position `k` of `ns`: above everything before, below everything after. */
  ghost predicate Splits<K>(key: map<Ptr, K>, cmp: Cmp<K>, x: K, ns: seq<Ptr>, k: int) {
    && 0 <= k <= |ns|
    && (forall i :: 0 <= i < |ns| ==> ns[i] in key)
    && (forall i :: 0 <= i < k ==> cmp(x, key[ns[i]]) > 0)
    && (forall i :: k <= i < |ns| ==> cmp(x, key[ns[i]]) < 0)
  }

  /** `kavl_size_child` */
  function SizeChild(h: Heads, p: Ptr, d: bool): int
    requires p in h && (h[p].Child(d) != NULL ==> h[p].Child(d) in h)
  {
    if h[p].Child(d) != NULL then h[h[p].Child(d)].size else 0
  }

  /** Where a search stands after the steps `ds`: everything left behind on the left is
      smaller than `x`, everything on the right larger, and `cnt` counts the former. */
  ghost predicate Narrowed<K>(key: map<Ptr, K>, cmp: Cmp<K>, x: K, t: Tree, ds: seq<bool>, cnt: int) {
    && Path(t, ds)
    && AllUnder(key, cmp, x, Before(t, ds)) && AllOver(key, cmp, x, After(t, ds))
    && cnt == |Before(t, ds)|
  }

  ghost predicate AllUnder<K>(key: map<Ptr, K>, cmp: Cmp<K>, x: K, ns: seq<Ptr>) {
    forall o :: o in ns ==> o in key && cmp(x, key[o]) > 0
  }

  ghost predicate AllOver<K>(key: map<Ptr, K>, cmp: Cmp<K>, x: K, ns: seq<Ptr>) {
    forall o :: o in ns ==> o in key && cmp(x, key[o]) < 0
  }

  lemma Middle<K>(key: map<Ptr, K>, cmp: Cmp<K>, x: K, ns: seq<Ptr>, a: seq<Ptr>, o: Ptr, b: seq<Ptr>)
    requires Guides(key, cmp, x, ns) && ns == a + [o] + b
    ensures o in key && |a| < |ns| && ns[|a|] == o
    ensures cmp(x, key[o]) > 0 ==> AllUnder(key, cmp, x, a + [o])
    ensures cmp(x, key[o]) < 0 ==> AllOver(key, cmp, x, [o] + b)
  {
    assert ns[|a|] == o;
    forall y | y in a + [o] ensures y in key && (cmp(x, key[o]) > 0 ==> cmp(x, key[y]) > 0) {
      var i :| 0 <= i < |a| + 1 && (a + [o])[i] == y;
      assert ns[i] == y;
    }
    forall y | y in [o] + b ensures y in key && (cmp(x, key[o]) < 0 ==> cmp(x, key[y]) < 0) {
      var i :| 0 <= i < |b| + 1 && ([o] + b)[i] == y;
      assert ns[|a| + i] == y;
    }
  }

  lemma Turn<K>(key: map<Ptr, K>, cmp: Cmp<K>, x: K, t: Tree, ds: seq<bool>, cnt: int)
    requires Guides(key, cmp, x, Nodes(t)) && Narrowed(key, cmp, x, t, ds, cnt) && At(t, ds).N?
    ensures var v := At(t, ds);
            && v.o in key && 0 <= cnt + Count(v.l) < |Nodes(t)| && Nodes(t)[cnt + Count(v.l)] == v.o
            && var c := cmp(x, key[v.o]);
            && (c > 0 ==> Narrowed(key, cmp, x, t, ds + [true], cnt + Count(v.l) + 1))
            && (c < 0 ==> Narrowed(key, cmp, x, t, ds + [false], cnt))
  {
    var v := At(t, ds);
    hide *;
    TurnHere(key, cmp, x, t, ds, cnt);
    var c := cmp(x, key[v.o]);
    if c > 0 { TurnRight(key, cmp, x, t, ds, cnt); }
    if c < 0 { TurnLeft(key, cmp, x, t, ds, cnt); }
  }

  lemma TurnHere<K>(key: map<Ptr, K>, cmp: Cmp<K>, x: K, t: Tree, ds: seq<bool>, cnt: int)
    requires Guides(key, cmp, x, Nodes(t)) && Narrowed(key, cmp, x, t, ds, cnt) && At(t, ds).N?
    ensures var v := At(t, ds); v.o in key && 0 <= cnt + Count(v.l) < |Nodes(t)| && Nodes(t)[cnt + Count(v.l)] == v.o
  {
    var v := At(t, ds);
    hide *;
    NarrowedParts(key, cmp, x, t, ds, cnt);
    var pre, post := TurnParts(t, ds);
    Middle(key, cmp, x, Nodes(t), pre, v.o, post);
  }

  lemma TurnRight<K>(key: map<Ptr, K>, cmp: Cmp<K>, x: K, t: Tree, ds: seq<bool>, cnt: int)
    requires Guides(key, cmp, x, Nodes(t)) && Narrowed(key, cmp, x, t, ds, cnt) && At(t, ds).N?
    requires At(t, ds).o in key && cmp(x, key[At(t, ds).o]) > 0
    ensures Narrowed(key, cmp, x, t, ds + [true], cnt + Count(At(t, ds).l) + 1)
  {
    var v := At(t, ds);
    hide *;
    NarrowedParts(key, cmp, x, t, ds, cnt);
    var pre, post := TurnParts(t, ds);
    Middle(key, cmp, x, Nodes(t), pre, v.o, post);
    NarrowedIntro(key, cmp, x, t, ds + [true], cnt + Count(v.l) + 1);
  }

  lemma TurnLeft<K>(key: map<Ptr, K>, cmp: Cmp<K>, x: K, t: Tree, ds: seq<bool>, cnt: int)
    requires Guides(key, cmp, x, Nodes(t)) && Narrowed(key, cmp, x, t, ds, cnt) && At(t, ds).N?
    requires At(t, ds).o in key && cmp(x, key[At(t, ds).o]) < 0
    ensures Narrowed(key, cmp, x, t, ds + [false], cnt)
  {
    var v := At(t, ds);
    hide *;
    NarrowedParts(key, cmp, x, t, ds, cnt);
    var pre, post := TurnParts(t, ds);
    Middle(key, cmp, x, Nodes(t), pre, v.o, post);
    NarrowedIntro(key, cmp, x, t, ds + [false], cnt);
  }

  lemma NarrowedParts<K>(key: map<Ptr, K>, cmp: Cmp<K>, x: K, t: Tree, ds: seq<bool>, cnt: int)
    requires Narrowed(key, cmp, x, t, ds, cnt)
    ensures Path(t, ds) && AllUnder(key, cmp, x, Before(t, ds)) && AllOver(key, cmp, x, After(t, ds)) && cnt == |Before(t, ds)|
  {
  }

  lemma NarrowedIntro<K>(key: map<Ptr, K>, cmp: Cmp<K>, x: K, t: Tree, ds: seq<bool>, cnt: int)
    requires Path(t, ds) && AllUnder(key, cmp, x, Before(t, ds)) && AllOver(key, cmp, x, After(t, ds)) && cnt == |Before(t, ds)|
    ensures Narrowed(key, cmp, x, t, ds, cnt)
  {
  }

  /** The order around the node at `ds`, and what a step to either side leaves behind. */
  lemma TurnParts(t: Tree, ds: seq<bool>) returns (pre: seq<Ptr>, post: seq<Ptr>)
    requires Path(t, ds) && At(t, ds).N?
    ensures Path(t, ds + [true]) && Path(t, ds + [false])
    ensures Before(t, ds + [true]) == pre + [At(t, ds).o] && After(t, ds + [true]) == After(t, ds)
    ensures After(t, ds + [false]) == [At(t, ds).o] + post && Before(t, ds + [false]) == Before(t, ds)
    ensures Nodes(t) == pre + [At(t, ds).o] + post && |pre| == |Before(t, ds)| + Count(At(t, ds).l)
  {
    var v := At(t, ds);
    var b, a := Before(t, ds), After(t, ds);
    hide *;
    pre, post := b + Nodes(v.l), Nodes(v.r) + a;
    RootNodes(v);
    NodesSplit(t, ds);
    NodesCount(v.l);
    Regroup(b, Nodes(v.l), v.o, Nodes(v.r), a);
    BeforeAfterAppend(t, ds, true);
    BeforeAfterAppend(t, ds, false);
  }

  lemma RootNodes(v: Tree)
    requires v.N?
    ensures Nodes(v) == Nodes(v.l) + [v.o] + Nodes(v.r)
  {
  }

  lemma Regroup<X>(b: seq<X>, l: seq<X>, o: X, r: seq<X>, a: seq<X>)
    ensures b + (l + [o] + r) + a == (b + l) + [o] + (r + a)
    ensures [o] + r + a == [o] + (r + a)
  {
  }

  lemma AvlAt(t: Tree, ds: seq<bool>, d: bool)
    requires Avl(t) && Path(t, ds) && At(t, ds).N?
    ensures var v := At(t, ds); Count(Sub(v, d)) < Count(v) && Size(v.l) == Count(v.l) && |ds| + Height(v) <= Height(t)
    ensures Avl(At(t, ds)) && Height(At(t, ds)) > 0
  {
    AtAvl(t, ds);
  }

  /** One step of a search, at the node `p`. */
  lemma SearchStep<K>(key: map<Ptr, K>, h: Heads, x: K, cmp: Cmp<K>, t: Tree, ds: seq<bool>, p: Ptr, cnt: int)
    requires Avl(t) && Guides(key, cmp, x, Nodes(t)) && Narrowed(key, cmp, x, t, ds, cnt)
    requires At(t, ds).N? && Rep(h, p, At(t, ds))
    ensures p == At(t, ds).o && p in key && p in h && (h[p].left != NULL ==> h[p].left in h) && |ds| < Height(t)
    ensures 0 <= cnt + SizeChild(h, p, false) < |Nodes(t)| && Nodes(t)[cnt + SizeChild(h, p, false)] == p
    ensures cmp(x, key[p]) != 0 ==>
              var d := cmp(x, key[p]) > 0;
              && Path(t, ds + [d]) && Count(At(t, ds + [d])) < Count(At(t, ds)) && Rep(h, h[p].Child(d), At(t, ds + [d]))
              && Narrowed(key, cmp, x, t, ds + [d], if d then cnt + SizeChild(h, p, false) + 1 else cnt)
  {
    hide *;
    SearchHere(key, h, x, cmp, t, ds, p, cnt);
    NarrowedParts(key, cmp, x, t, ds, cnt);
    Turn(key, cmp, x, t, ds, cnt);
    StepDown(h, p, t, ds, cmp(x, key[p]) > 0);
  }

  lemma SearchHere<K>(key: map<Ptr, K>, h: Heads, x: K, cmp: Cmp<K>, t: Tree, ds: seq<bool>, p: Ptr, cnt: int)
    requires Avl(t) && Guides(key, cmp, x, Nodes(t)) && Narrowed(key, cmp, x, t, ds, cnt)
    requires At(t, ds).N? && Rep(h, p, At(t, ds))
    ensures p == At(t, ds).o && p in key && p in h && (h[p].left != NULL ==> h[p].left in h) && |ds| < Height(t)
    ensures SizeChild(h, p, false) == Count(At(t, ds).l)
    ensures 0 <= cnt + SizeChild(h, p, false) < |Nodes(t)| && Nodes(t)[cnt + SizeChild(h, p, false)] == p
  {
    hide *;
    NarrowedParts(key, cmp, x, t, ds, cnt);
    TurnHere(key, cmp, x, t, ds, cnt);
    NodeHere(h, p, t, ds);
  }

  /** The node at `ds`, its left child and the size of that. */
  lemma NodeHere(h: Heads, p: Ptr, t: Tree, ds: seq<bool>)
    requires Avl(t) && Path(t, ds) && At(t, ds).N? && Rep(h, p, At(t, ds))
    ensures p == At(t, ds).o && p in h && (h[p].left != NULL ==> h[p].left in h) && |ds| < Height(t)
    ensures SizeChild(h, p, false) == Count(At(t, ds).l)
  {
    var v := At(t, ds);
    hide Rep, Avl, Nodes, Height, Count, Size, SizeChild, At, Path;
    RepNode(h, p, v, false);
    AvlAt(t, ds, false);
  }

  lemma StepDown(h: Heads, p: Ptr, t: Tree, ds: seq<bool>, d: bool)
    requires Avl(t) && Path(t, ds) && At(t, ds).N? && Rep(h, p, At(t, ds))
    ensures p in h && Path(t, ds + [d]) && Count(At(t, ds + [d])) < Count(At(t, ds)) && Rep(h, h[p].Child(d), At(t, ds + [d]))
  {
    var v := At(t, ds);
    hide Rep, Avl, Height, Count, Size, SizeChild, At, Path;
    RepNode(h, p, v, d);
    AvlAt(t, ds, d);
    OneStep(v, d);
    AtAppend(t, ds, [d]);
  }

  lemma Arrived<K>(key: map<Ptr, K>, cmp: Cmp<K>, x: K, t: Tree, ds: seq<bool>, cnt: int)
    requires Narrowed(key, cmp, x, t, ds, cnt) && At(t, ds).Nil?
    ensures Splits(key, cmp, x, Nodes(t), cnt)
    ensures Nodes(t) == Before(t, ds) + After(t, ds)
  {
    NodesSplit(t, ds);
    assert Nodes(t) == Before(t, ds) + After(t, ds);
    forall i | 0 <= i < |Nodes(t)|
      ensures Nodes(t)[i] in key && (if i < cnt then cmp(x, key[Nodes(t)[i]]) > 0 else cmp(x, key[Nodes(t)[i]]) < 0)
    {
      if i < cnt { assert Nodes(t)[i] in Before(t, ds); } else { assert Nodes(t)[i] in After(t, ds); }
    }
  }

  /** Where the comparisons alone lead, whatever the comparator: the node a search stops at. */
  ghost function SearchIn<K>(key: map<Ptr, K>, cmp: Cmp<K>, x: K, t: Tree): Ptr
    requires Objs(t) <= key.Keys
  {
    if t.Nil? then NULL
    else
      var c := cmp(x, key[t.o]);
      if c < 0 then SearchIn(key, cmp, x, t.l) else if c > 0 then SearchIn(key, cmp, x, t.r) else t.o
  }

  lemma GuidesIn<K>(key: map<Ptr, K>, cmp: Cmp<K>, x: K, t: Tree)
    requires Guides(key, cmp, x, Nodes(t))
    ensures Objs(t) <= key.Keys
  {
    NodesObjs(t);
    forall o | o in Objs(t) ensures o in key { assert o in Nodes(t); }
  }

  lemma SearchInStep<K>(key: map<Ptr, K>, cmp: Cmp<K>, x: K, t: Tree, ds: seq<bool>)
    requires Objs(t) <= key.Keys && Path(t, ds)
    ensures Objs(At(t, ds)) <= key.Keys
    ensures var v := At(t, ds);
            v.N? && cmp(x, key[v.o]) != 0 ==>
              var d := cmp(x, key[v.o]) > 0;
              && Path(t, ds + [d]) && Objs(At(t, ds + [d])) <= key.Keys
              && SearchIn(key, cmp, x, v) == SearchIn(key, cmp, x, At(t, ds + [d]))
  {
    AtObjs(t, ds);
    if At(t, ds).N? {
      var v := At(t, ds);
      var d := cmp(x, key[v.o]) > 0;
      OneStep(v, d);
      AtAppend(t, ds, [d]);
      AtObjs(t, ds + [d]);
    }
  }

  /** `kavl_find`: the matching node and how many nodes are not above `x`. */
  method Find<K>(key: map<Ptr, K>, h: Heads, root: Ptr, x: K, cmp: Cmp<K>, ghost t: Tree) returns (p: Ptr, cnt: int)
    requires Rep(h, root, t) && Avl(t) && Guides(key, cmp, x, Nodes(t))
    ensures p == NULL ==> Splits(key, cmp, x, Nodes(t), cnt)
    ensures p != NULL ==> 0 < cnt <= |Nodes(t)| && Nodes(t)[cnt - 1] == p && p in key && cmp(x, key[p]) == 0
    ensures Objs(t) <= key.Keys && p == SearchIn(key, cmp, x, t)
  {
    p, cnt := root, 0;
    ghost var ds: seq<bool> := [];
    assert Narrowed(key, cmp, x, t, ds, cnt) && At(t, ds) == t;
    GuidesIn(key, cmp, x, t);
    hide Narrowed, Rep, Guides, Avl, Nodes, Count, At, Objs, Path, SearchIn, Splits, Height;
    while p != NULL
      invariant Path(t, ds) && Narrowed(key, cmp, x, t, ds, cnt)
      invariant Rep(h, p, At(t, ds))
      invariant Objs(At(t, ds)) <= key.Keys && SearchIn(key, cmp, x, At(t, ds)) == SearchIn(key, cmp, x, t)
      decreases Count(At(t, ds))
    {
      RepNull(h, p, At(t, ds));
      SearchInStep(key, cmp, x, t, ds);
      SearchStep(key, h, x, cmp, t, ds, p, cnt);
      var c := cmp(x, key[p]);
      if c >= 0 { cnt := cnt + SizeChild(h, p, false) + 1; }
      if c < 0 {
        p := h[p].left;
      } else if c > 0 {
        p := h[p].right;
      } else {
        return;
      }
      ds := ds + [c > 0];
    }
    RepNull(h, p, At(t, ds));
    Arrived(key, cmp, x, t, ds, cnt);
  }

  // ----- rotations

  lemma RepNull(h: Heads, p: Ptr, t: Tree)
    requires Rep(h, p, t)
    ensures p == NULL <==> t.Nil?
  {
  }

  /** One node of a linked tree and its links. */
  lemma RepNode(h: Heads, p: Ptr, t: Tree, d: bool)
    requires Rep(h, p, t) && t.N?
    ensures p == t.o && p != NULL && p in h && h[p].balance == t.b && h[p].size == t.s
    ensures Rep(h, h[p].Child(d), Sub(t, d)) && (h[p].Child(d) != NULL <==> Sub(t, d).N?)
    ensures Sub(t, d).N? ==> h[p].Child(d) == Sub(t, d).o && h[p].Child(d) in h
    ensures SizeChild(h, p, d) == Size(Sub(t, d))
  {
  }

  lemma DistinctNode(t: Tree, d: bool)
    requires Distinct(t) && t.N?
    ensures Distinct(Sub(t, d)) && Objs(Sub(t, d)) <= Objs(t)
    ensures t.o !in Objs(Sub(t, d)) && t.o in Objs(t) && Objs(Sub(t, d)) !! Objs(Sub(t, !d))
    ensures Sub(t, d).N? ==> Sub(t, d).o in Objs(Sub(t, d))
  {
  }

  /** `kavl_rotate1` */
  method Rotate1(h: Heads, p: Ptr, d: bool, ghost t: Tree) returns (h': Heads, q: Ptr)
    requires Rep(h, p, t) && Distinct(t) && t.N? && Sub(t, !d).N?
    ensures Rep(h', q, Rot1(t, d)) && q == Sub(t, !d).o
    ensures SameOutside(h, h', Objs(t)) && h'.Keys == h.Keys
  {
    h' := h;
    ghost var v := Sub(t, !d);
    RepNode(h, p, t, d);
    RepNode(h, p, t, !d);
    q := h'[p].Child(!d);
    RepNode(h, q, v, d);
    RepNode(h, q, v, !d);
    DistinctNode(t, !d);
    DistinctNode(v, d);
    DistinctNode(v, !d);
    var sizeP := h'[p].size;
    h' := h'[p := h'[p].(size := h'[p].size - (h'[q].size - SizeChild(h', q, d)))];
    h' := h'[q := h'[q].(size := sizeP)];
    h' := h'[p := h'[p].WithChild(!d, h'[q].Child(d))];
    h' := h'[q := h'[q].WithChild(d, p)];
    RepFrame(h, h', h[p].Child(d), Sub(t, d), {p, q});
    RepFrame(h, h', h[q].Child(d), Sub(v, d), {p, q});
    RepFrame(h, h', h[q].Child(!d), Sub(v, !d), {p, q});
  }

  /** The four subtrees below a double rotation survive it. */
  lemma Rotate2Parts(h: Heads, h': Heads, p: Ptr, q: Ptr, r: Ptr, d: bool, t: Tree)
    requires Rep(h, p, t) && Distinct(t) && t.N? && Sub(t, !d).N? && Sub(Sub(t, !d), d).N?
    requires q == Sub(t, !d).o && r == Sub(Sub(t, !d), d).o
    requires SameOutside(h, h', {p, q, r})
    ensures NULL !in {p, q, r} && p in h && q in h && r in h && p == t.o && {p, q, r} <= Objs(t)
    ensures Rep(h', h[p].Child(d), Sub(t, d))
    ensures Rep(h', h[q].Child(!d), Sub(Sub(t, !d), !d))
    ensures Rep(h', h[r].Child(d), Sub(Sub(Sub(t, !d), d), d))
    ensures Rep(h', h[r].Child(!d), Sub(Sub(Sub(t, !d), d), !d))
  {
    var v := Sub(t, !d);
    var w := Sub(v, d);
    RepNode(h, p, t, d);
    RepNode(h, p, t, !d);
    RepNode(h, q, v, d);
    RepNode(h, q, v, !d);
    RepNode(h, r, w, d);
    RepNode(h, r, w, !d);
    DistinctNode(t, !d);
    DistinctNode(v, d);
    DistinctNode(v, !d);
    DistinctNode(w, d);
    DistinctNode(w, !d);
    RepFrame(h, h', h[p].Child(d), Sub(t, d), {p, q, r});
    RepFrame(h, h', h[q].Child(!d), Sub(v, !d), {p, q, r});
    RepFrame(h, h', h[r].Child(d), Sub(w, d), {p, q, r});
    RepFrame(h, h', h[r].Child(!d), Sub(w, !d), {p, q, r});
  }

  lemma JoinRep(h: Heads, t: Tree, d: bool)
    requires t.N? && t.o != NULL && t.o in h && h[t.o].balance == t.b && h[t.o].size == t.s
    requires Rep(h, h[t.o].Child(d), Sub(t, d)) && Rep(h, h[t.o].Child(!d), Sub(t, !d))
    ensures Rep(h, t.o, t)
  {
  }

  lemma Rotate2Rep(h: Heads, h': Heads, d: bool, p: Tree, q: Tree, r: Tree, p': Tree, q': Tree, u: Tree)
    requires p.N? && Rep(h, p.o, p) && Distinct(p) && Sub(p, !d) == q && q.N? && Sub(q, d) == r && r.N?
    requires {p.o, q.o, r.o} <= h.Keys
    requires SameOutside(h, h', {p.o, q.o, r.o}) && {p.o, q.o, r.o} <= h'.Keys
    requires p'.N? && p'.o == p.o && Sub(p', d) == Sub(p, d) && Sub(p', !d) == Sub(r, d)
    requires q'.N? && q'.o == q.o && Sub(q', d) == Sub(r, !d) && Sub(q', !d) == Sub(q, !d)
    requires u.N? && u.o == r.o && Sub(u, d) == p' && Sub(u, !d) == q'
    requires h'[p.o] == h[p.o].WithChild(!d, h[r.o].Child(d)).(balance := p'.b, size := p'.s)
    requires h'[q.o] == h[q.o].WithChild(d, h[r.o].Child(!d)).(balance := q'.b, size := q'.s)
    requires h'[r.o] == Head(if d then q.o else p.o, if d then p.o else q.o, u.b, u.s)
    ensures Rep(h', r.o, u) && {p.o, q.o, r.o} <= Objs(p)
  {
    Rotate2Parts(h, h', p.o, q.o, r.o, d, p);
    JoinRep(h', p', d);
    JoinRep(h', q', d);
    JoinRep(h', u, d);
  }

  /** `kavl_rotate2` */
  method Rotate2(h: Heads, p: Ptr, d: bool, ghost t: Tree) returns (h': Heads, r: Ptr)
    requires Rep(h, p, t) && Distinct(t) && t.N? && Sub(t, !d).N? && Sub(Sub(t, !d), d).N?
    ensures Rep(h', r, Rot2(t, d))
    ensures SameOutside(h, h', Objs(t)) && h'.Keys == h.Keys
  {
    h' := h;
    ghost var v := Sub(t, !d);
    ghost var w := Sub(v, d);
    RepNode(h, p, t, !d);
    var q := h'[p].Child(!d);
    RepNode(h, q, v, d);
    r := h'[q].Child(d);
    RepNode(h, r, w, d);
    DistinctNode(t, !d);
    DistinctNode(v, d);
    var sizeX := SizeChild(h', r, d);
    h' := h'[r := h'[r].(size := h'[p].size)];
    h' := h'[p := h'[p].(size := h'[p].size - (h'[q].size - sizeX))];
    h' := h'[q := h'[q].(size := h'[q].size - (sizeX + 1))];
    h' := h'[p := h'[p].WithChild(!d, h'[r].Child(d))];
    h' := h'[r := h'[r].WithChild(d, p)];
    h' := h'[q := h'[q].WithChild(d, h'[r].Child(!d))];
    h' := h'[r := h'[r].WithChild(!d, q)];
    var b1 := if !d then 1 else -1;
    if h'[r].balance == b1 {
      h' := h'[q := h'[q].(balance := 0)];
      h' := h'[p := h'[p].(balance := -b1)];
    } else if h'[r].balance == 0 {
      h' := h'[p := h'[p].(balance := 0)];
      h' := h'[q := h'[q].(balance := 0)];
    } else {
      h' := h'[q := h'[q].(balance := b1)];
      h' := h'[p := h'[p].(balance := 0)];
    }
    h' := h'[r := h'[r].(balance := 0)];
    ghost var u := Rot2(t, d);
    Rotate2Rep(h, h', d, t, v, w, Sub(u, d), Sub(u, !d), u);
  }

  // ----- the loops over the path

  lemma AddSizeStep(h: Heads, p: Ptr, t: Tree, ds: seq<bool>, i: nat, k: int)
    requires Distinct(t) && Path(t, ds) && i < |ds| && Path(t, ds[..i])
    requires Rep(h, p, Graft(t, ds[..i], At(t, ds[..i]), k))
    ensures var o := PathNodes(t, ds)[i];
            && o in Objs(t) && o !in Objs(At(t, ds)) && o in h && Path(t, ds[..i + 1])
            && Rep(h[o := h[o].(size := h[o].size + k)], p, Graft(t, ds[..i + 1], At(t, ds[..i + 1]), k))
  {
    var es, u := ds[..i], At(t, ds[..i]);
    var g := Graft(t, es, u, k);
    AddSizeTree(t, ds, i, k);
    hide Distinct, Path, At, Graft, PathNodes, Objs;
    FieldRep(h, p, g, es, u.b, u.s + k);
    RepAt(h, p, g, es);
    assert h[u.o].balance == u.b && h[u.o].size == u.s;
    assert u.(s := u.s + k) == u.(b := u.b, s := u.s + k);
  }

  lemma AddSizeTree(t: Tree, ds: seq<bool>, i: nat, k: int)
    requires Distinct(t) && Path(t, ds) && i < |ds| && Path(t, ds[..i])
    ensures var es, u, o := ds[..i], At(t, ds[..i]), PathNodes(t, ds)[i];
            && u.N? && u.o == o && o in Objs(t) && o !in Objs(At(t, ds)) && Path(t, ds[..i + 1])
            && var g := Graft(t, es, u, k);
               && Distinct(g) && Path(g, es) && At(g, es) == u
               && Graft(t, ds[..i + 1], At(t, ds[..i + 1]), k) == Graft(g, es, u.(s := u.s + k), 0)
  {
    var es, d, u := ds[..i], ds[i], At(t, ds[..i]);
    PathNodesAt(t, ds, i);
    assert ds[..i + 1] == es + [d] && ds[i..][0] == d;
    OneDown(u, d, k);
    hide Distinct, Path, At, Graft, PathNodes, Objs;
    AtAppend(t, es, [d]);
    GraftAppend(t, es, [d], Sub(u, d), k);
    PathDistinct(t, es, ds[i..]);
    AtObjs(t, es);
    RootIn(u);
    GraftTwice(t, es, u, u.(s := u.s + k), k, 0);
    GraftDistinct(t, es, u, k);
  }

  lemma OneDown(u: Tree, d: bool, k: int)
    requires u.N?
    ensures Path(u, [d]) && At(u, [d]) == Sub(u, d) && Graft(u, [d], Sub(u, d), k) == u.(s := u.s + k)
  {
    assert [d][1..] == [];
  }

  lemma RootIn(u: Tree)
    requires u.N?
    ensures u.o in Objs(u)
  {
  }

  /** Adds `k` to the size of every node in `path[lo..hi]`, the nodes passed along `ds`. */
  method AddSizes(h: Heads, path: array<Ptr>, lo: nat, hi: nat, k: int, ghost p: Ptr, ghost t: Tree, ghost ds: seq<bool>)
    returns (h': Heads)
    requires Rep(h, p, t) && Distinct(t) && Path(t, ds)
    requires lo <= hi <= path.Length && path[lo..hi] == PathNodes(t, ds)
    ensures Rep(h', p, Graft(t, ds, At(t, ds), k))
    ensures SameOutside(h, h', Objs(t)) && h'.Keys == h.Keys
    ensures At(t, ds).N? ==> At(t, ds).o in h && h'[At(t, ds).o] == h[At(t, ds).o]
  {
    h' := h;
    var i := lo;
    GraftZero(t, ds, k);
    RepAt(h, p, t, ds);
    while i < hi
      invariant lo <= i <= hi
      invariant Path(t, ds[..i - lo])
      invariant Rep(h', p, Graft(t, ds[..i - lo], At(t, ds[..i - lo]), k))
      invariant SameOutside(h, h', Objs(t)) && h'.Keys == h.Keys
      invariant At(t, ds).N? ==> h'[At(t, ds).o] == h[At(t, ds).o]
    {
      assert path[i] == path[lo..hi][i - lo];
      AddSizeStep(h', p, t, ds, i - lo, k);
      h' := h'[path[i] := h'[path[i]].(size := h'[path[i]].size + k)];
      i := i + 1;
    }
    assert ds[..hi - lo] == ds;
  }

  lemma GraftZero(t: Tree, ds: seq<bool>, k: int)
    ensures ds[..0] == [] && Graft(t, ds[..0], At(t, ds[..0]), k) == t
  {
  }

  /** The link to the subtree at `ds` now leads to `c`, which carries `u`. */
  lemma PutRep(h: Heads, h': Heads, p: Ptr, t: Tree, ds: seq<bool>, c: Ptr, u: Tree)
    requires Rep(h, p, t) && Distinct(t) && Path(t, ds) && Rep(h', c, u)
    requires ds == [] || (
               var q := PathNodes(t, ds)[|ds| - 1];
               && q in h && q in h' && h'[q] == h[q].WithChild(ds[|ds| - 1], c)
               && SameOutside(h, h', Objs(At(t, ds)) + {q}))
    ensures Rep(h', if ds == [] then c else p, Graft(t, ds, u, 0))
  {
    if ds != [] {
      var n := |ds| - 1;
      var es, d := ds[..n], ds[n];
      assert ds == es + [d];
      PathNodesAt(t, ds, n);
      AtAppend(t, es, [d]);
      var v := At(t, es);
      assert At(v, [d]) == Sub(v, d) && Graft(v, [d], u, 0) == WithSub(v, d, u) by { assert [d][1..] == []; }
      GraftAppend(t, es, [d], u, 0);
      LinkRep(h, h', p, t, es, d, c, u);
    }
  }

  /** Moves the balances of the nodes on the way from `bp` to `x` towards the step taken. */
  method TiltBalances(h: Heads, bp: Ptr, x: Ptr, stack: array<bool>, ghost t: Tree, ghost es: seq<bool>) returns (h': Heads)
    requires Rep(h, bp, t) && Distinct(t) && Path(t, es) && At(t, es).N? && At(t, es).o == x
    requires |es| <= stack.Length && stack[..|es|] == es
    ensures Rep(h', bp, Tilt(t, es)) && SameOutside(h, h', Objs(t)) && h'.Keys == h.Keys
  {
    h' := h;
    var p, top := bp, 0;
    assert es[..0] == [];
    while p != x
      invariant 0 <= top <= |es| && Path(t, es[..top]) && At(t, es[..top]).N? && p == At(t, es[..top]).o
      invariant Rep(h', bp, Tilt(t, es[..top])) && SameOutside(h, h', Objs(t)) && h'.Keys == h.Keys
      decreases |es| - top
    {
      assert es[..|es|] == es;
      assert stack[top] == es[top];
      TiltBalanceStep(h', bp, t, es, top);
      if !stack[top] {
        h' := h'[p := h'[p].(balance := h'[p].balance - 1)];
      } else {
        h' := h'[p := h'[p].(balance := h'[p].balance + 1)];
      }
      p := h'[p].Child(stack[top]);
      top := top + 1;
    }
    assert top == |es| by {
      if top < |es| {
        assert es == es[..top] + es[top..];
        AtAppend(t, es[..top], es[top..]);
        PathDistinct(t, es[..top], es[top..]);
      }
    }
    assert es[..top] == es;
  }

  lemma TiltBalanceStep(h: Heads, bp: Ptr, t: Tree, es: seq<bool>, i: nat)
    requires Distinct(t) && Path(t, es) && At(t, es).N? && i < |es| && Path(t, es[..i])
    requires Rep(h, bp, Tilt(t, es[..i]))
    ensures At(t, es[..i]).N? && Path(t, es[..i + 1]) && At(t, es[..i + 1]).N?
    ensures var p := At(t, es[..i]).o;
            && p in h && p in Objs(t) && h[p].Child(es[i]) == At(t, es[..i + 1]).o
            && Rep(h[p := h[p].(balance := h[p].balance + Lean(es[i]))], bp, Tilt(t, es[..i + 1]))
  {
    var a, d := es[..i], es[i];
    var v := At(t, a);
    TiltTree(t, es, i);
    hide Distinct, Path, At, Objs, Tilt, Graft;
    RepAt(h, bp, Tilt(t, a), a);
    RepNode(h, v.o, v, d);
    FieldRep(h, bp, Tilt(t, a), a, v.b + Lean(d), v.s);
    assert v.(b := v.b + Lean(d), s := v.s) == v.(b := v.b + Lean(d));
  }

  lemma StillTree(v: Tree, fs: seq<bool>)
    requires Path(v, fs) && fs != [] && At(v, fs).N?
    ensures v.N? && Sub(v, fs[0]).N?
  {
    GraftUnder(v, fs, Nil, 0);
    AtTree(Sub(v, fs[0]), fs[1..]);
  }

  lemma AtTree(u: Tree, fs: seq<bool>)
    requires Path(u, fs) && At(u, fs).N?
    ensures u.N?
  {
  }

  lemma TiltTree(t: Tree, es: seq<bool>, i: nat)
    requires Distinct(t) && Path(t, es) && At(t, es).N? && i < |es| && Path(t, es[..i])
    ensures var a, d, v := es[..i], es[i], At(t, es[..i]);
            && v.N? && v.o in Objs(t) && Path(t, es[..i + 1]) && At(t, es[..i + 1]) == Sub(v, d) && Sub(v, d).N?
            && Distinct(Tilt(t, a)) && Path(Tilt(t, a), a) && At(Tilt(t, a), a) == v
            && Tilt(t, es[..i + 1]) == Graft(Tilt(t, a), a, v.(b := v.b + Lean(d)), 0)
  {
    hide Distinct, Path, At, Objs, Tilt, Graft, Nodes, PathNodes;
    var a, d := es[..i], es[i];
    PathNodesAt(t, es, i);
    var v := At(t, a);
    TiltNodes(t, a);
    TiltStep(t, a, d);
    AtObjs(t, a);
    RootIn(v);
    assert es[..i + 1] == a + [d];
    AtAppend(t, a, [d]);
    OneDown(v, d, 0);
    StillTree(v, es[i..]);
  }

  // ----- insertion

  /** The bookkeeping of the descent of `kavl_insert` after the steps `ds`: `path` holds the
      nodes passed, `stack` the steps from the last uneven node `bp` on, `bq` its parent. */
  ghost predicate Descent(root: Ptr, t: Tree, ds: seq<bool>, k: nat, path: seq<Ptr>, stack: seq<bool>,
                          q: Ptr, which: bool, bp: Ptr, bq: Ptr)
  {
    && Path(t, ds) && path == PathNodes(t, ds)
    && (if ds == [] then k == 0 && q == NULL && bp == root && bq == NULL && stack == []
        else
          && LastUneven(t, ds, k) && k < |ds| && q == path[|ds| - 1] && which == ds[|ds| - 1]
          && bp == path[k] && bq == (if k == 0 then NULL else path[k - 1]) && stack == ds[k..])
  }

  lemma DescentStep(root: Ptr, t: Tree, ds: seq<bool>, k: nat, path: seq<Ptr>, stack: seq<bool>,
                    q: Ptr, which: bool, bp: Ptr, bq: Ptr, d: bool)
    requires Descent(root, t, ds, k, path, stack, q, which, bp, bq) && At(t, ds).N? && (ds == [] ==> root == t.o)
    ensures var v := At(t, ds);
            if v.b != 0 then Descent(root, t, ds + [d], |ds|, path + [v.o], [d], v.o, d, v.o, q)
            else Descent(root, t, ds + [d], k, path + [v.o], stack + [d], v.o, d, bp, bq)
  {
    PathNodesAppend(t, ds, d);
    LastUnevenStep(t, ds, k, d);
    assert (ds + [d])[|ds|..] == [d];
    assert (ds + [d])[k..] == ds[k..] + [d];
  }

  /** Everything the descent has established after the steps `ds`, standing at `p`. */
  ghost predicate Descended<K>(key: map<Ptr, K>, h: Heads, root: Ptr, x: K, cmp: Cmp<K>, t: Tree, ds: seq<bool>, k: nat,
                            ps: seq<Ptr>, ss: seq<bool>, p: Ptr, q: Ptr, which: bool, bp: Ptr, bq: Ptr, cnt: int)
  {
    && Path(t, ds) && Narrowed(key, cmp, x, t, ds, cnt) && Rep(h, p, At(t, ds))
    && |ds| <= 45 && Descent(root, t, ds, k, ps, ss, q, which, bp, bq)
  }

  lemma DescendedStep<K>(key: map<Ptr, K>, h: Heads, root: Ptr, x: K, cmp: Cmp<K>, t: Tree, ds: seq<bool>, k: nat,
                      ps: seq<Ptr>, ss: seq<bool>, p: Ptr, q: Ptr, which: bool, bp: Ptr, bq: Ptr, cnt: int)
    requires Rep(h, root, t) && Avl(t) && Height(t) <= 45 && Guides(key, cmp, x, Nodes(t))
    requires Descended(key, h, root, x, cmp, t, ds, k, ps, ss, p, q, which, bp, bq, cnt) && p != NULL
    ensures p in key && p in h && |ds| < 45 && At(t, ds).N?
    ensures h[p].left != NULL ==> h[p].left in h
    ensures 0 <= cnt + SizeChild(h, p, false) < |Nodes(t)| && Nodes(t)[cnt + SizeChild(h, p, false)] == p
    ensures cmp(x, key[p]) != 0 ==>
              var d := cmp(x, key[p]) > 0;
              var cnt' := if d then cnt + SizeChild(h, p, false) + 1 else cnt;
              && Path(t, ds + [d]) && Count(At(t, ds + [d])) < Count(At(t, ds))
              && if h[p].balance != 0
                 then Descended(key, h, root, x, cmp, t, ds + [d], |ds|, ps + [p], [d], h[p].Child(d), p, d, p, q, cnt')
                 else Descended(key, h, root, x, cmp, t, ds + [d], k, ps + [p], ss + [d], h[p].Child(d), p, d, bp, bq, cnt')
  {
    RepNull(h, p, At(t, ds));
    if ds == [] { RepNode(h, root, t, true); }
    RepNode(h, p, At(t, ds), true);
    hide Narrowed, Rep, Guides, Avl, Descent, Nodes, Height, Count, SizeChild, At, Path;
    SearchStep(key, h, x, cmp, t, ds, p, cnt);
    DescentStep(root, t, ds, k, ps, ss, q, which, bp, bq, cmp(x, key[p]) > 0);
  }

  lemma DescendedStart<K>(key: map<Ptr, K>, h: Heads, root: Ptr, x: K, cmp: Cmp<K>, t: Tree)
    requires Rep(h, root, t)
    ensures Descended(key, h, root, x, cmp, t, [], 0, [], [], root, NULL, false, root, NULL, 0)
  {
  }

  method Descend<K>(key: map<Ptr, K>, h: Heads, root: Ptr, x: K, cmp: Cmp<K>,
                 stack: array<bool>, path: array<Ptr>, ghost t: Tree)
    returns (hit: Ptr, cnt: int, q: Ptr, which: bool, bp: Ptr, bq: Ptr, n: nat, ghost ds: seq<bool>, ghost k: nat)
    requires Rep(h, root, t) && Avl(t) && Count(t) < 0x1_0000_0000 && Guides(key, cmp, x, Nodes(t))
    requires stack.Length == 64 && path.Length == 64
    modifies stack, path
    ensures hit != NULL ==> 0 < cnt <= |Nodes(t)| && Nodes(t)[cnt - 1] == hit && hit in key && cmp(x, key[hit]) == 0
    ensures hit == NULL ==>
              && n == |ds| && k <= n <= 64
              && Descended(key, h, root, x, cmp, t, ds, k, path[..n], stack[..n - k], NULL, q, which, bp, bq, cnt)
  {
    hide Narrowed, Rep, Path, At, Guides, Avl, Descent, Height, Count, Nodes;
    bp, bq := root, NULL;
    which, cnt, n := false, 0, 0;
    var p, top := bp, 0;
    q := bq;
    ds, k := [], 0;
    DepthBound(t);
    DescendedStart(key, h, root, x, cmp, t);
    ghost var ps: seq<Ptr>, ss: seq<bool> := [], [];
    while p != NULL
      invariant n == |ds| && k <= n <= 45 && top == n - k
      invariant path[..n] == ps && stack[..top] == ss
      invariant Descended(key, h, root, x, cmp, t, ds, k, ps, ss, p, q, which, bp, bq, cnt)
      decreases Count(At(t, ds))
    {
      DescendedStep(key, h, root, x, cmp, t, ds, k, ps, ss, p, q, which, bp, bq, cnt);
      var c := cmp(x, key[p]);
      if c >= 0 { cnt := cnt + SizeChild(h, p, false) + 1; }
      if c == 0 {
        hit := p;
        return;
      }
      if h[p].balance != 0 {
        bq, bp, top, k := q, p, 0, n;
        ss := [];
      }
      which := c > 0;
      stack[top] := which;
      top := top + 1;
      path[n] := p;
      n := n + 1;
      ds := ds + [which];
      assert [] + [which] == [which];
      ps, ss := ps + [p], ss + [which];
      q := p;
      p := h[p].Child(which);
    }
    hit := NULL;
  }

  lemma LeafRep(h: Heads, x: Ptr)
    requires x != NULL && x in h && h[x] == Head(NULL, NULL, 0, 1)
    ensures Rep(h, x, Leaf(x))
  {
  }

  /** Linking a fresh leaf below the last node of the path. */
  lemma LinkLeaf(h: Heads, root: Ptr, t: Tree, ds: seq<bool>, x: Ptr)
    requires Rep(h, root, t) && Distinct(t) && Path(t, ds) && ds != [] && At(t, ds).Nil? && x != NULL && x !in Objs(t)
    ensures var q := PathNodes(t, ds)[|ds| - 1];
            && q in h && q in Objs(t) && q != x
            && Rep(h[x := Head(NULL, NULL, 0, 1)][q := h[q].WithChild(ds[|ds| - 1], x)], root, Graft(t, ds, Leaf(x), 0))
  {
    var n := |ds| - 1;
    PathNodesAt(t, ds, n);
    AtObjs(t, ds[..n]);
    var q := PathNodes(t, ds)[n];
    RepAt(h, root, t, ds);
    assert q in Objs(t);
    var h1 := h[x := Head(NULL, NULL, 0, 1)];
    RepFrame(h, h1, root, t, {x});
    var h2 := h1[q := h[q].WithChild(ds[n], x)];
    LeafRep(h2, x);
    PutRep(h1, h2, root, t, ds, x, Leaf(x));
  }

  /** The end of `kavl_insert`: one rotation or two if the last uneven node now leans by two. */
  method RebalanceAt(h: Heads, bp: Ptr, ghost v: Tree) returns (h': Heads, r: Ptr)
    requires Rep(h, bp, v) && Distinct(v) && v.N? && Rebalanceable(v) && (v.b <= -2 || v.b >= 2)
    ensures Rep(h', r, Rebalance(v)) && SameOutside(h, h', Objs(v)) && h'.Keys == h.Keys
  {
    var which := h[bp].balance < 0;
    var b1 := if !which then 1 else -1;
    RepNode(h, bp, v, !which);
    var q := h[bp].Child(!which);
    RepNode(h, q, Sub(v, !which), which);
    if h[q].balance == b1 {
      h', r := Rotate1(h, bp, which, v);
      ghost var w := Rot1(v, which);
      Rot1Nodes(v, which);
      RepNode(h', r, w, which);
      SetBalancesRep(h', w, which, 0, 0);
      h' := h'[q := h'[q].(balance := 0)];
      h' := h'[bp := h'[bp].(balance := 0)];
    } else {
      h', r := Rotate2(h, bp, which, v);
    }
  }

  lemma SetBalancesRep(h: Heads, w: Tree, d: bool, bq: int, bp: int)
    requires w.N? && Distinct(w) && Sub(w, d).N? && Rep(h, w.o, w)
    ensures var p := Sub(w, d).o;
            && w.o in h && p in h && {w.o, p} <= Objs(w) && w.o != p
            && Rep(h[w.o := h[w.o].(balance := bq)][p := h[p].(balance := bp)], w.o, SetBalances(w, d, bq, bp))
  {
    var v := Sub(w, d);
    RepNode(h, w.o, w, d);
    RepNode(h, w.o, w, !d);
    RepNode(h, v.o, v, d);
    RepNode(h, v.o, v, !d);
    DistinctNode(w, d);
    DistinctNode(v, d);
    DistinctNode(v, !d);
    var h' := h[w.o := h[w.o].(balance := bq)][v.o := h[v.o].(balance := bp)];
    RepFrame(h, h', h[w.o].Child(!d), Sub(w, !d), {w.o, v.o});
    RepFrame(h, h', h[v.o].Child(d), Sub(v, d), {w.o, v.o});
    RepFrame(h, h', h[v.o].Child(!d), Sub(v, !d), {w.o, v.o});
    JoinRep(h', v.(b := bp), d);
    JoinRep(h', SetBalances(w, d, bq, bp), d);
  }

  /** Balances below the last uneven node, then the rotation there. */
  method BalanceInsert(h: Heads, root: Ptr, x: Ptr, stack: array<bool>, bp: Ptr, bq: Ptr,
                       ghost t: Tree, ghost ds: seq<bool>, ghost k: nat)
    returns (h': Heads, root': Ptr)
    requires LastUneven(t, ds, k) && At(t, ds).Nil? && Avl(t) && Distinct(t) && x !in Objs(t)
    requires Rep(h, root, Graft(t, ds, Leaf(x), 1))
    requires |ds| - k <= stack.Length && stack[..|ds| - k] == ds[k..]
    requires bp == PathNodes(t, ds)[k] && bq == (if k == 0 then NULL else PathNodes(t, ds)[k - 1])
    ensures Rep(h', root', Inserted(t, ds, k, x)) && SameOutside(h, h', Objs(t) + {x}) && h'.Keys == h.Keys
  {
    hide Distinct, Avl, Height, Objs, Rebalanceable, LastUneven, Inserted, Graft, Count, Tilt, Linked, Tilted, Path, At;
    UnevenPath(t, ds, k);
    ghost var g, v := Linked(t, ds, k, x), Tilted(t, ds, k, x);
    ghost var full := Graft(t, ds, Leaf(x), 1);
    InsertPlace(t, ds, k, x);
    InsertedDistinct(t, ds, k, x);
    TiltedCorrect(t, ds, k, x);
    UnevenPlace(h, root, t, ds, k, x, bp, bq);
    h' := TiltBalances(h, bp, x, stack, g, ds[k..]);
    RepNode(h', bp, v, true);
    root' := root;
    if -2 < h'[bp].balance < 2 {
      PutRep(h, h', root, full, ds[..k], bp, v);
      return;
    }
    var r;
    h', r := RebalanceAt(h', bp, v);
    RebalanceNodes(v);
    if bq == NULL {
      root' := r;
    } else {
      ghost var h1 := h';
      h' := h'[bq := h'[bq].WithChild(bp != h'[bq].left, r)];
      RepFrame(h1, h', r, Rebalance(v), {bq});
    }
    PutRep(h, h', root, full, ds[..k], r, Rebalance(v));
  }

  /** Where the last uneven node and its parent sit in memory. */
  lemma UnevenPlace(h: Heads, root: Ptr, t: Tree, ds: seq<bool>, k: nat, x: Ptr, bp: Ptr, bq: Ptr)
    requires LastUneven(t, ds, k) && At(t, ds).Nil? && Distinct(t) && x !in Objs(t)
    requires Rep(h, root, Graft(t, ds, Leaf(x), 1))
    requires bp == PathNodes(t, ds)[k] && bq == (if k == 0 then NULL else PathNodes(t, ds)[k - 1])
    ensures var full, g, a := Graft(t, ds, Leaf(x), 1), Linked(t, ds, k, x), ds[..k];
            && Path(full, a) && Rep(h, bp, g) && bp == g.o
            && (k == 0 ==> a == [] && root == bp)
            && (k > 0 ==>
                  && bq == PathNodes(full, a)[k - 1] && bq in h && bq != NULL && h[bq].Child(ds[k - 1]) == bp
                  && h[bq].Child(!ds[k - 1]) != bp && bq in Objs(full) && bq !in Objs(g))
  {
    hide Distinct, Objs, LastUneven, Graft, Linked, Tilted, Inserted, Path, At, Rep, PathNodes;
    UnevenPath(t, ds, k);
    var full, g, a := Graft(t, ds, Leaf(x), 1), Linked(t, ds, k, x), ds[..k];
    InsertPlace(t, ds, k, x);
    InsertedDistinct(t, ds, k, x);
    PathNodesGraft(t, a, g, 1);
    RepAt(h, root, full, a);
    PathNodesAt(t, ds, k);
    if k == 0 {
      assert a == [];
    } else {
      var b, d := ds[..k - 1], ds[k - 1];
      assert a == b + [d] && a[..k - 1] == b && a[k - 1..] == [d];
      PathNodesAt(full, a, k - 1);
      PathNodesAt(t, ds, k - 1);
      PathNodesAt(t, a, k - 1);
      var q := At(full, b);
      OneStep(q, d);
      AtObjs(full, b);
      RepAt(h, root, full, b);
      RepNode(h, q.o, q, d);
      RepNode(h, q.o, q, !d);
      DistinctNode(q, d);
      DistinctNode(q, !d);
    }
  }

  /** The second half of `kavl_insert`: `x` is linked below the last node of the search path
      `ds`, the sizes and balances on the path are brought up to date, and one place rebalanced. */
  method LinkAndBalance(h: Heads, root: Ptr, x: Ptr, stack: array<bool>, path: array<Ptr>, n: nat,
                        q: Ptr, which: bool, bp: Ptr, bq: Ptr, ghost t: Tree, ghost ds: seq<bool>, ghost k: nat)
    returns (h': Heads, root': Ptr, ghost t': Tree)
    requires Rep(h, root, t) && Avl(t) && Distinct(t) && x != NULL && x !in Objs(t)
    requires Path(t, ds) && At(t, ds).Nil? && n == |ds| <= path.Length && k <= n && n - k <= stack.Length
    requires Descent(root, t, ds, k, path[..n], stack[..n - k], q, which, bp, bq)
    ensures Rep(h', root', t') && Avl(t') && Distinct(t') && SameOutside(h, h', Objs(t) + {x}) && h'.Keys == h.Keys + {x}
    ensures Nodes(t') == Before(t, ds) + [x] + After(t, ds) && Objs(t') == Objs(t) + {x}
  {
    hide Rep, Avl, Distinct, Nodes, Graft, Path, Height, PathNodes, Inserted, LastUneven, Objs, Before, After;
    h', root' := h, root;
    RepNull(h, root, t);
    LeafNodes(x);
    PathNodesIn(h, root, t, ds);
    h' := h'[x := Head(NULL, NULL, 0, 1)];
    if q == NULL {
      root' := x;
    } else {
      LinkLeaf(h, root, t, ds, x);
      h' := h'[q := h'[q].WithChild(which, x)];
    }
    if bp == NULL {
      LeafRep(h', x);
      NilNodes();
      t' := Leaf(x);
      return;
    }
    ghost var h1 := h';
    ghost var g := Graft(t, ds, Leaf(x), 0);
    NilNodes();
    GraftTwice(t, ds, Leaf(x), Leaf(x), 0, 1);
    PathNodesGraft(t, ds, Leaf(x), 0);
    GraftDistinct(t, ds, Leaf(x), 0);
    h' := AddSizes(h', path, 0, n, 1, root', g, ds);
    assert path[0..n] == path[..n];
    InsertedDistinct(t, ds, k, x);
    InsertedAvl(t, ds, k, x);
    InsertedNodes(t, ds, k, x);
    t' := Inserted(t, ds, k, x);
    h', root' := BalanceInsert(h', root', x, stack, bp, bq, t, ds, k);
  }

  lemma NilNodes()
    ensures Objs(Nil) == {} && Nodes(Nil) == [] && Before(Nil, []) == [] && After(Nil, []) == []
  {
  }

  /** `kavl_insert`: either the node that matches `x`, with nothing changed, or `x` itself,
      linked in at position `cnt` of the order; `t'` is the tree left behind. */
  method Insert<K>(key: map<Ptr, K>, h: Heads, root: Ptr, x: Ptr, cmp: Cmp<K>, ghost t: Tree)
    returns (h': Heads, root': Ptr, r: Ptr, cnt: int, ghost t': Tree)
    requires Rep(h, root, t) && Avl(t) && Distinct(t) && Count(t) + 1 < 0x1_0000_0000
    requires x != NULL && x !in Objs(t) && x in key && Guides(key, cmp, key[x], Nodes(t))
    ensures Rep(h', root', t') && Avl(t') && Distinct(t') && SameOutside(h, h', Objs(t) + {x}) && h'.Keys <= h.Keys + {x}
    ensures r == x ==>
              && Splits(key, cmp, key[x], Nodes(t), cnt)
              && Nodes(t') == Nodes(t)[..cnt] + [x] + Nodes(t)[cnt..] && Objs(t') == Objs(t) + {x}
    ensures r != x ==>
              && t' == t && h' == h && root' == root
              && 0 < cnt <= |Nodes(t)| && Nodes(t)[cnt - 1] == r && r in key && cmp(key[x], key[r]) == 0
  {
    h', root', t' := h, root, t;
    var stack, path := new bool[64], new Ptr[64];
    var q, which, bp, bq, n;
    ghost var ds, k;
    r, cnt, q, which, bp, bq, n, ds, k := Descend(key, h, root, key[x], cmp, stack, path, t);
    if r != NULL {
      NodesObjs(t);
      assert r in Nodes(t);
      return;
    }
    hide Rep, Avl, Distinct, Nodes, Graft, At, Path, Height, PathNodes, LastUneven, Splits, Guides, Objs, Before, After;
    r := x;
    RepNull(h, NULL, At(t, ds));
    Arrived(key, cmp, key[x], t, ds, cnt);
    assert Nodes(t)[..cnt] == Before(t, ds) && Nodes(t)[cnt..] == After(t, ds);
    h', root', t' := LinkAndBalance(h', root', x, stack, path, n, q, which, bp, bq, t, ds, k);
  }

  // ----- erasure

  /** Removes the balance defect at one node: returns what now stands in its place and
      whether the repair is over. */
  method RepairAt(h: Heads, q: Ptr, which: bool, ghost v: Tree) returns (h': Heads, c: Ptr, stop: bool)
    requires Rep(h, q, v) && Distinct(v) && v.N? && Path(v, [which]) && Short(v, [which])
    ensures var u := Corrected(v, which);
            && Rep(h', c, Repair(u, which)) && stop == Stops(u, which)
    ensures SameOutside(h, h', Objs(v))
  {
    ghost var u := Corrected(v, which);
    RepairAvl(v, which);
    var b1, b2 := 1, 2;
    if which { b1, b2 := -b1, -b2; }
    RepNode(h, q, v, !which);
    CorrectedRep(h, q, v, which);
    h' := h[q := h[q].(balance := h[q].balance + b1)];
    c := q;
    stop := false;
    if h'[q].balance == b1 {
      stop := true;
    } else if h'[q].balance == b2 {
      RepNode(h', q, u, !which);
      var r := h'[q].Child(!which);
      RepNode(h', r, Sub(u, !which), which);
      if h'[r].balance == -b1 {
        h', c := Rotate2(h', q, which, u);
      } else {
        h', c := Rotate1(h', q, which, u);
        ghost var w := Rot1(u, which);
        Rot1Nodes(u, which);
        RepNode(h', c, w, which);
        if h'[r].balance == 0 {
          SetBalancesRep(h', w, which, -b1, b1);
          h' := h'[r := h'[r].(balance := -b1)];
          h' := h'[q := h'[q].(balance := b1)];
          stop := true;
        } else {
          SetBalancesRep(h', w, which, 0, 0);
          h' := h'[r := h'[r].(balance := 0)];
          h' := h'[q := h'[q].(balance := 0)];
        }
      }
    }
  }

  lemma CorrectedRep(h: Heads, q: Ptr, v: Tree, d: bool)
    requires Rep(h, q, v) && Distinct(v) && v.N?
    ensures q in h && q in Objs(v)
    ensures Rep(h[q := h[q].(balance := h[q].balance - Lean(d))], q, Corrected(v, d))
    ensures Distinct(Corrected(v, d)) && Objs(Corrected(v, d)) == Objs(v)
  {
    FieldRep(h, q, v, [], v.b - Lean(d), v.s);
    SameShape(v, Corrected(v, d));
  }

  /** The node to repair next and its parent, in memory. */
  lemma RepairPlace(h: Heads, u: Tree, ws: seq<bool>, which: bool)
    requires Rep(h, FAKE, Hung(FAKE, u)) && Distinct(Hung(FAKE, u))
    requires Path(u, ws + [which]) && Short(u, ws + [which])
    ensures Path(u, ws) && At(u, ws).N? && Path(Hung(FAKE, u), [false] + ws)
    ensures var v, ns := At(u, ws), PathNodes(Hung(FAKE, u), [false] + ws);
            && Path(v, [which]) && Short(v, [which]) && Distinct(v) && Rep(h, v.o, v) && Objs(v) <= Objs(u)
            && ns[|ws|] in h && ns[|ws|] in Objs(u) + {FAKE} && ns[|ws|] !in Objs(v)
            && h[ns[|ws|]].Child(([false] + ws)[|ws|]) == v.o
            && Path(Hung(FAKE, u), [false] + ws + [which])
            && PathNodes(Hung(FAKE, u), [false] + ws + [which]) == ns + [v.o]
  {
    var H, es := Hung(FAKE, u), [false] + ws;
    AtAppend(u, ws, [which]);
    ShortAt(u, ws, [which]);
    HungPath(FAKE, u, ws);
    HungDistinct(FAKE, u);
    hide Distinct, Objs, Rep, Path, At, PathNodes, Short, Graft, Hung;
    AtObjs(u, ws);
    RepAt(h, FAKE, H, es);
    PathNodesAppend(H, es, which);
    PathNodesAt(H, es, |ws|);
    assert es[..|ws|] + es[|ws|..] == es && es[|ws|..] != [];
    AtObjs(H, es[..|ws|]);
    AtAppend(H, es[..|ws|], es[|ws|..]);
    PathDistinct(H, es[..|ws|], es[|ws|..]);
    NodeIn(At(H, es[..|ws|]));
  }

  lemma NodeIn(t: Tree)
    requires t.N?
    ensures t.o in Objs(t)
  {
  }

  lemma ShortNil(t: Tree)
    ensures Path(t, []) && (Short(t, []) <==> Avl(t))
  {
  }

  /** One repaired node linked back in. */
  lemma RepairLinked(h: Heads, h1: Heads, h': Heads, t: Tree, ws: seq<bool>, which: bool, c: Ptr)
    requires Rep(h, FAKE, Hung(FAKE, t)) && Distinct(Hung(FAKE, t))
    requires Path(t, ws + [which]) && Short(t, ws + [which]) && Path(t, ws) && At(t, ws).N?
    requires Rep(h1, c, Repair(Corrected(At(t, ws), which), which)) && SameOutside(h, h1, Objs(At(t, ws)))
    requires Path(Hung(FAKE, t), [false] + ws)
    requires var q := PathNodes(Hung(FAKE, t), [false] + ws)[|ws|];
             && q in h1
             && h' == if c == At(t, ws).o then h1 else h1[q := h1[q].WithChild(([false] + ws)[|ws|], c)]
    ensures var t' := RepairedAt(t, ws, which);
            && Rep(h', FAKE, Hung(FAKE, t'))
            && Path(Hung(FAKE, t'), [false] + ws)
            && PathNodes(Hung(FAKE, t'), [false] + ws) == PathNodes(Hung(FAKE, t), [false] + ws)
            && SameOutside(h, h', Objs(t) + {FAKE})
  {
    var H, es, v := Hung(FAKE, t), [false] + ws, At(t, ws);
    var u := Corrected(v, which);
    var w := Repair(u, which);
    RepairPlace(h, t, ws, which);
    RepairAvl(v, which);
    SameShape(v, u);
    assert RepairedAt(t, ws, which) == Graft(t, ws, w, 0);
    hide Distinct, Objs, Rep, Path, At, PathNodes, Short, Graft, Hung, Avl, Nodes, Repair, Corrected, Stops, Height, Count, Repairable, RecHeight, RepairedAt;
    RepairNodes(u, which);
    HungPath(FAKE, t, ws);
    HungDistinct(FAKE, t);
    PathNodesGraft(H, es, w, 0);
    var q := PathNodes(H, es)[|ws|];
    RepFrame(h1, h', c, w, {q});
    PutRep(h, h', FAKE, H, es, c, w);
  }

  /** The repair loop of `kavl_erase`: walks the path backwards from the place that lost a
      level until a subtree is back at its old height. */
  method RepairPath(h: Heads, path: array<Ptr>, dir: array<bool>, n: nat, ghost t: Tree, ghost es: seq<bool>)
    returns (h': Heads, ghost t': Tree)
    requires n == |es| + 1 <= path.Length && n <= dir.Length
    requires Leads(h, path[..n], dir[..n], t, es) && Short(t, es)
    ensures Rep(h', FAKE, Hung(FAKE, t')) && Avl(t') && Nodes(t') == Nodes(t) && Objs(t') == Objs(t) && Distinct(t')
    ensures SameOutside(h, h', Objs(t) + {FAKE})
  {
    hide Rep, Hung, Distinct, Path, Short, PathNodes, Avl, Nodes, Objs, At, Graft, Repair, Corrected, Stops, RepairedAt;
    h', t' := h, t;
    HungDistinct(FAKE, t);
    var d := n - 1;
    assert es[..d] == es && path[..d + 1] == path[..n];
    while d > 0
      invariant 0 <= d <= |es|
      invariant Rep(h', FAKE, Hung(FAKE, t')) && Distinct(Hung(FAKE, t'))
      invariant Path(t', es[..d]) && Short(t', es[..d]) && Path(Hung(FAKE, t'), [false] + es[..d])
      invariant path[..d + 1] == PathNodes(Hung(FAKE, t'), [false] + es[..d])
      invariant Nodes(t') == Nodes(t) && Objs(t') == Objs(t) && SameOutside(h, h', Objs(t) + {FAKE})
    {
      ghost var ws, which := es[..d - 1], es[d - 1];
      assert es[..d] == ws + [which] && [false] + es[..d] == [false] + ws + [which];
      RepairPlace(h', t', ws, which);
      HungDistinct(FAKE, t');
      ghost var v := At(t', ws);
      var q := path[d];
      assert q == path[..d + 1][d] == v.o && path[..d + 1][..d] == path[..d];
      assert path[d - 1] == path[..d][d - 1];
      assert dir[d] == dir[..n][d] == which && dir[d - 1] == dir[..n][d - 1] == ([false] + ws)[d - 1];
      ghost var h1 := h';
      var c, stop;
      h', c, stop := RepairAt(h', q, dir[d], v);
      ghost var h2 := h';
      if c != q {
        h' := h'[path[d - 1] := h'[path[d - 1]].WithChild(dir[d - 1], c)];
      }
      RepairLinked(h1, h2, h', t', ws, which, c);
      RepairedCorrect(t', ws, which);
      t' := RepairedAt(t', ws, which);
      HungDistinct(FAKE, t');
      d := d - 1;
      if stop { return; }
      assert ws == es[..d];
    }
    assert es[..0] == [];
    ShortNil(t');
    HungDistinct(FAKE, t');
  }

  /** The walk down the left spine below the node being erased; stops at the parent `q` of the first node `r`. */
  method WalkSpine(h: Heads, q0: Ptr, path: array<Ptr>, dir: array<bool>, d0: nat, ghost u: Tree)
    returns (q: Ptr, r: Ptr, d: nat)
    requires Rep(h, q0, u) && u.N? && u.l.N? && Avl(u)
    requires d0 + Height(u) <= path.Length && d0 + Height(u) <= dir.Length
    modifies path, dir
    ensures d == d0 + |LeftPath(u)| <= d0 + Height(u) && Path(u, LeftPath(u)) && At(u, LeftPath(u)).N?
    ensures path[..d0] == old(path[..d0]) && dir[..d0] == old(dir[..d0])
    ensures path[d0..d] == PathNodes(u, LeftPath(u)) && dir[d0..d] == LeftPath(u)
    ensures d0 < d && q == path[d - 1] && r == At(u, LeftPath(u)).o
  {
    q, d, r := q0, d0, NULL;
    ghost var zs := LeftPath(u);
    LeftPathEnds(u);
    AtAvl(u, zs);
    assert zs[..0] == [] && zs[..|zs|] == zs && zs != [];
    ghost var a: nat := 0;
    ghost var ps: seq<Ptr> := [];
    hide Rep, Path, At, Avl, Height, LeftPath, PathNodes;
    while true
      invariant d == d0 + a && a < |zs|
      invariant Path(u, zs[..a]) && Rep(h, q, At(u, zs[..a])) && ps == PathNodes(u, zs[..a])
      invariant path[..d0] == old(path[..d0]) && dir[..d0] == old(dir[..d0])
      invariant path[d0..d] == ps && dir[d0..d] == zs[..a]
      decreases |zs| - a
    {
      SpineStep(h, q, u, a);
      dir[d] := false;
      path[d] := q;
      assert path[d0..d + 1] == path[d0..d] + [q] && dir[d0..d + 1] == dir[d0..d] + [false];
      d, a, ps := d + 1, a + 1, ps + [q];
      r := h[q].left;
      if h[r].left == NULL { break; }
      q := r;
    }
  }

  lemma {:induction false} LeftPathFrom(t: Tree, a: nat)
    requires t.N? && a <= |LeftPath(t)|
    ensures Path(t, LeftPath(t)[..a]) && At(t, LeftPath(t)[..a]).N?
    ensures LeftPath(At(t, LeftPath(t)[..a])) == LeftPath(t)[a..]
    decreases a
  {
    var zs := LeftPath(t);
    if a == 0 {
      assert zs[..0] == [] && zs[0..] == zs;
    } else {
      LeftPathFrom(t.l, a - 1);
      assert zs == [false] + LeftPath(t.l);
      assert zs[..a][1..] == LeftPath(t.l)[..a - 1] && zs[a..] == LeftPath(t.l)[a - 1..];
    }
  }

  lemma SpineStep(h: Heads, q: Ptr, u: Tree, a: nat)
    requires u.N? && a < |LeftPath(u)| && Path(u, LeftPath(u)[..a]) && Rep(h, q, At(u, LeftPath(u)[..a]))
    ensures var zs := LeftPath(u);
            && !zs[a] && zs[..a + 1] == zs[..a] + [false]
            && q in h && h[q].left in h && h[q].left != NULL
            && Path(u, zs[..a + 1]) && At(u, zs[..a + 1]).N? && h[q].left == At(u, zs[..a + 1]).o
            && Rep(h, h[q].left, At(u, zs[..a + 1]))
            && (h[h[q].left].left == NULL <==> a + 1 == |zs|)
            && At(u, zs[..a]).N? && At(u, zs[..a]).o == q
            && PathNodes(u, zs[..a + 1]) == PathNodes(u, zs[..a]) + [q]
  {
    var zs := LeftPath(u);
    var v := At(u, zs[..a]);
    LeftPathFrom(u, a);
    LeftPathFrom(u, a + 1);
    LeftPathEnds(u);
    assert zs[..a + 1] == zs[..a] + [false];
    AtAppend(u, zs[..a], [false]);
    PathNodesAppend(u, zs[..a], false);
    OneStep(v, false);
    RepNode(h, q, v, false);
    RepNode(h, h[q].left, v.l, false);
    assert zs[a + 1..] == [] <==> a + 1 == |zs|;
  }

  lemma {:induction false} PathNodesConcat(t: Tree, ds: seq<bool>, es: seq<bool>)
    requires Path(t, ds) && Path(At(t, ds), es)
    ensures Path(t, ds + es) && PathNodes(t, ds + es) == PathNodes(t, ds) + PathNodes(At(t, ds), es)
    decreases |ds|
  {
    AtAppend(t, ds, es);
    if ds == [] {
      assert ds + es == es;
    } else {
      assert (ds + es)[0] == ds[0] && (ds + es)[1..] == ds[1..] + es;
      PathNodesConcat(Sub(t, ds[0]), ds[1..], es);
    }
  }

  /** The successor of an erased node `p` with a right subtree takes its place: the first node
      of the right subtree is cut out and given `p`'s children, balance and size. */
  method MoveUp(h: Heads, p: Ptr, path: array<Ptr>, dir: array<bool>, d0: nat, ghost v: Tree)
    returns (h': Heads, r: Ptr, d: nat)
    requires Rep(h, p, v) && v.N? && v.r.N? && Avl(v) && Distinct(v)
    requires d0 + Height(v) <= path.Length && d0 + Height(v) <= dir.Length
    modifies path, dir
    ensures d == d0 + |UnlinkedPath(v)| <= d0 + Height(v) && Path(Unlinked(v), UnlinkedPath(v))
    ensures Rep(h', r, Unlinked(v)) && SameOutside(h, h', Objs(v))
    ensures path[..d0] == old(path[..d0]) && dir[..d0] == old(dir[..d0])
    ensures path[d0..d] == PathNodes(Unlinked(v), UnlinkedPath(v)) && dir[d0..d] == UnlinkedPath(v)
  {
    hide Rep, Avl, Distinct, Objs, Unlinked, UnlinkedPath, Path, At, PathNodes, Height, SameOutside, LeftPath;
    h', d := h, d0;
    MoveUpPath(v);
    RepNode(h, p, v, true);
    RepNode(h, p, v, false);
    var q := h'[p].right;
    RepNode(h, q, v.r, false);
    if h'[q].left == NULL {
      r := q;
      h' := h'[q := h'[q].(left := h'[p].left)];
      h' := h'[q := h'[q].(balance := h'[p].balance)];
      path[d] := q;
      dir[d] := true;
      d := d + 1;
      h' := h'[q := h'[q].(size := h'[p].size - 1)];
      MoveUpNear(h, h', p, v);
      NearPath(v);
      assert path[d0..d] == [q] && dir[d0..d] == [true];
    } else {
      var e := d;
      d := d + 1;
      q, r, d := WalkSpine(h, q, path, dir, d, v.r);
      ghost var before := path[e + 1..d];
      h' := CutSuccessor(h, p, q, r, path, e + 1, d, v);
      path[e] := r;
      dir[e] := true;
      assert path[e + 1..d] == before;
      assert path[e..d] == [r] + path[e + 1..d] && dir[e..d] == [true] + dir[e + 1..d];
    }
  }

  lemma MoveUpPath(v: Tree)
    requires v.N? && v.r.N? && Avl(v)
    ensures var zs, w := LeftPath(v.r), Unlinked(v);
            && Path(v.r, zs) && At(v.r, zs).N? && UnlinkedPath(v) == [true] + zs && |zs| + 1 < Height(v) + 1
            && Path(w, [true] + zs) && PathNodes(w, [true] + zs) == [At(v.r, zs).o] + PathNodes(v.r, zs)
            && 1 + Height(v.r) <= Height(v) && Height(v.r) > 0 && Avl(v.r) && (v.r.l.N? ==> |zs| > 0)
  {
    var zs, w := LeftPath(v.r), Unlinked(v);
    LeftPathEnds(v.r);
    AtAvl(v.r, zs);
    PathNodesGraft(v.r, zs, At(v.r, zs).r, -1);
    assert ([true] + zs)[1..] == zs;
  }

  lemma NearPath(v: Tree)
    requires v.N? && v.r.N? && v.r.l.Nil?
    ensures UnlinkedPath(v) == [true] && Path(Unlinked(v), [true]) && PathNodes(Unlinked(v), [true]) == [v.r.o]
  {
    assert LeftPath(v.r) == [] && [true] + [] == [true] && [true][1..] == [];
  }

  /** The successor is the right child itself. */
  lemma MoveUpNear(h: Heads, h': Heads, p: Ptr, v: Tree)
    requires Rep(h, p, v) && v.N? && v.r.N? && v.r.l.Nil? && Distinct(v)
    requires var q := v.r.o;
             p in h && q in h && h' == h[q := h[q].(left := h[p].left, balance := h[p].balance, size := h[p].size - 1)]
    ensures Rep(h', v.r.o, Unlinked(v)) && SameOutside(h, h', Objs(v))
  {
    var q := v.r.o;
    DistinctNode(v, true);
    DistinctNode(v.r, true);
    RepFrame(h, h', h[p].left, v.l, {q});
    RepFrame(h, h', h[q].right, v.r.r, {q});
    assert LeftPath(v.r) == [];
    assert Unlinked(v) == N(q, v.b, v.s - 1, v.l, v.r.r);
  }

  /** The successor `r` lies further down, below `q`. */
  method CutSuccessor(h: Heads, p: Ptr, q: Ptr, r: Ptr, path: array<Ptr>, lo: nat, hi: nat, ghost v: Tree) returns (h': Heads)
    requires Rep(h, p, v) && v.N? && v.r.N? && v.r.l.N? && Distinct(v) && Path(v.r, LeftPath(v.r))
    requires lo < hi <= path.Length && path[lo..hi] == PathNodes(v.r, LeftPath(v.r)) && q == path[hi - 1]
    requires At(v.r, LeftPath(v.r)).N? && r == At(v.r, LeftPath(v.r)).o
    ensures Rep(h', r, Unlinked(v)) && SameOutside(h, h', Objs(v))
  {
    ghost var zs := LeftPath(v.r);
    ghost var s := At(v.r, zs);
    LeftPathEnds(v.r);
    CutPlace(h, p, v);
    assert q == path[lo..hi][|zs| - 1];
    h' := h[r := h[r].(left := h[p].left)];
    h' := h'[q := h'[q].(left := h'[r].right)];
    h' := h'[r := h'[r].(right := h'[p].right)];
    h' := h'[r := h'[r].(balance := h'[p].balance)];
    ghost var g := Graft(v.r, zs, s.r, 0);
    ghost var h1 := h';
    CutRep(h, h1, p, v);
    h' := AddSizes(h', path, lo, hi, -1, h[p].right, g, zs);
    ghost var h2 := h';
    h' := h'[r := h'[r].(size := h'[p].size - 1)];
    CutDone(h, h1, h2, h', p, v);
  }

  lemma CutPlace(h: Heads, p: Ptr, v: Tree)
    requires Rep(h, p, v) && v.N? && v.r.N? && v.r.l.N? && Distinct(v)
    ensures var zs := LeftPath(v.r);
            && zs != [] && Path(v.r, zs) && At(v.r, zs).N? && p == v.o && p != NULL && !zs[|zs| - 1]
            && var q, r := PathNodes(v.r, zs)[|zs| - 1], At(v.r, zs).o;
            && p in h && q in h && r in h && q != r && p != q && p != r && r != NULL && h[q].left == r
            && {p, q, r} <= Objs(v) && q in Objs(v.r) && r in Objs(v.r) && q !in Objs(At(v.r, zs))
            && Rep(h, h[p].right, v.r) && Rep(h, h[p].left, v.l) && Rep(h, r, At(v.r, zs))
  {
    var zs := LeftPath(v.r);
    LeftPathEnds(v.r);
    var n := |zs| - 1;
    assert zs == [false] + LeftPath(v.r.l);
    RepAt(h, h[p].right, v.r, zs);
    DistinctNode(v, true);
    PathNodesAt(v.r, zs, n);
    assert zs[n..] == [false] && zs[..n] + [false] == zs;
    hide LeftPath, Objs, Distinct, Path, At, PathNodes;
    AtObjs(v.r, zs);
    AtObjs(v.r, zs[..n]);
    NodeIn(At(v.r, zs));
    NodeIn(At(v.r, zs[..n]));
    NodeIn(v);
    PathDistinct(v.r, zs[..n], [false]);
    PathNodesIn(h, h[p].right, v.r, zs);
  }

  /** After the pointer surgery the right subtree is the old one without its first node. */
  lemma CutRep(h: Heads, h1: Heads, p: Ptr, v: Tree)
    requires Rep(h, p, v) && v.N? && v.r.N? && v.r.l.N? && Distinct(v)
    requires Path(v.r, LeftPath(v.r)) && LeftPath(v.r) != [] && At(v.r, LeftPath(v.r)).N?
    requires var zs := LeftPath(v.r);
             var q, r := PathNodes(v.r, zs)[|zs| - 1], At(v.r, zs).o;
             && p in h && q in h && r in h && q != r
             && h1 == h[r := h[r].(left := h[p].left, right := h[p].right, balance := h[p].balance)][q := h[q].(left := h[r].right)]
    ensures var g := Graft(v.r, LeftPath(v.r), At(v.r, LeftPath(v.r)).r, 0);
            && Rep(h1, h[p].right, g) && Distinct(g) && Objs(g) == Objs(v.r) - {At(v.r, LeftPath(v.r)).o}
            && Path(g, LeftPath(v.r)) && PathNodes(g, LeftPath(v.r)) == PathNodes(v.r, LeftPath(v.r))
            && At(g, LeftPath(v.r)) == At(v.r, LeftPath(v.r)).r
  {
    var zs := LeftPath(v.r);
    var s := At(v.r, zs);
    var q, r := PathNodes(v.r, zs)[|zs| - 1], s.o;
    CutPlace(h, p, v);
    RepNode(h, r, s, true);
    DistinctNode(v, true);
    AtObjs(v.r, zs);
    DistinctNode(s, true);
    LeftPathEnds(v.r);
    assert Objs(s) == {r} + Objs(s.r);
    hide LeftPath, Objs, Distinct, Path, At, PathNodes, Graft, Rep;
    RepFrame(h, h1, h[r].right, s.r, {q, r});
    PutRep(h, h1, h[p].right, v.r, zs, h[r].right, s.r);
    GraftDistinct(v.r, zs, s.r, 0);
    PathNodesGraft(v.r, zs, s.r, 0);
    GraftTwice(v.r, zs, s.r, s.r, 0, 0);
  }

  lemma UnlinkedFar(v: Tree)
    requires v.N? && v.r.N?
    ensures Path(v.r, LeftPath(v.r)) && At(v.r, LeftPath(v.r)).N?
    ensures var s := At(v.r, LeftPath(v.r));
            Unlinked(v) == N(s.o, v.b, v.s - 1, v.l, Graft(v.r, LeftPath(v.r), s.r, -1))
    ensures Distinct(v) ==> Unlinked(v).o !in Objs(Unlinked(v).r)
  {
    LeftPathEnds(v.r);
    if Distinct(v) {
      UnlinkedDistinct(v);
      DistinctNode(Unlinked(v), true);
    }
  }

  lemma CutDone(h: Heads, h1: Heads, h2: Heads, h': Heads, p: Ptr, v: Tree)
    requires Rep(h, p, v) && v.N? && v.r.N? && v.r.l.N? && Distinct(v)
    requires Path(v.r, LeftPath(v.r)) && LeftPath(v.r) != [] && At(v.r, LeftPath(v.r)).N?
    requires var zs := LeftPath(v.r);
             var s := At(v.r, zs);
             var q, r := PathNodes(v.r, zs)[|zs| - 1], s.o;
             var g := Graft(v.r, zs, s.r, 0);
             && p in h && q in h && r in h && q != r
             && h1 == h[r := h[r].(left := h[p].left, right := h[p].right, balance := h[p].balance)][q := h[q].(left := h[r].right)]
             && Path(g, zs) && Rep(h2, h[p].right, Graft(g, zs, At(g, zs), -1)) && SameOutside(h1, h2, Objs(g))
             && r in h2 && p in h2 && h' == h2[r := h2[r].(size := h2[p].size - 1)]
    ensures Rep(h', At(v.r, LeftPath(v.r)).o, Unlinked(v)) && SameOutside(h, h', Objs(v))
  {
    var zs := LeftPath(v.r);
    var s := At(v.r, zs);
    var q, r := PathNodes(v.r, zs)[|zs| - 1], s.o;
    hide LeftPath, Objs, Distinct, Path, At, PathNodes, Graft, Rep, Unlinked, SameOutside;
    CutPlace(h, p, v);
    CutRep(h, h1, p, v);
    DistinctNode(v, true);
    DistinctNode(v, false);
    var g := Graft(v.r, zs, s.r, 0);
    Touched(h, h1, {q, r});
    Touched(h2, h', {r});
    SameTrans(h, h1, h2, {q, r}, Objs(g), Objs(v));
    SameTrans(h, h2, h', Objs(v), {r}, Objs(v));
    RepFrame(h, h1, h[p].left, v.l, {q, r});
    RepFrame(h1, h2, h[p].left, v.l, Objs(g));
    RepFrame(h2, h', h[p].left, v.l, {r});
    CutJoin(h, h1, h2, h', p, v);
  }

  lemma CutJoin(h: Heads, h1: Heads, h2: Heads, h': Heads, p: Ptr, v: Tree)
    requires Rep(h, p, v) && v.N? && v.r.N? && v.r.l.N? && Distinct(v)
    requires Path(v.r, LeftPath(v.r)) && LeftPath(v.r) != [] && At(v.r, LeftPath(v.r)).N?
    requires var zs := LeftPath(v.r);
             var s := At(v.r, zs);
             var r := s.o;
             var g := Graft(v.r, zs, s.r, 0);
             && p in h && r in h && r in h1 && p in h1 && h1[r].left == h[p].left && h1[r].right == h[p].right && h1[r].balance == h[p].balance
             && h1[p] == h[p] && r !in Objs(g) && p !in Objs(g) && r != NULL && r != p
             && Path(g, zs) && Rep(h2, h[p].right, Graft(g, zs, At(g, zs), -1)) && SameOutside(h1, h2, Objs(g))
             && r in h2 && p in h2 && h' == h2[r := h2[r].(size := h2[p].size - 1)]
             && Rep(h', h[p].left, v.l)
    ensures Rep(h', At(v.r, LeftPath(v.r)).o, Unlinked(v))
  {
    var zs := LeftPath(v.r);
    var s := At(v.r, zs);
    var r := s.o;
    var w := Unlinked(v);
    hide LeftPath, Objs, Distinct, Path, At, PathNodes, Graft, Rep, Unlinked;
    UnlinkedFar(v);
    GraftTwice(v.r, zs, s.r, s.r, 0, -1);
    RepNode(h, p, v, true);
    assert h2[r] == h1[r] && h2[p] == h1[p];
    RepFrame(h2, h', h[p].right, w.r, {r});
    JoinRep(h', w, true);
  }

  lemma SameTrans(h: Heads, h1: Heads, h2: Heads, s1: set<Ptr>, s2: set<Ptr>, s: set<Ptr>)
    requires SameOutside(h, h1, s1) && SameOutside(h1, h2, s2) && s1 <= s && s2 <= s
    ensures SameOutside(h, h2, s)
  {
  }

  lemma Touched(h: Heads, h': Heads, s: set<Ptr>)
    requires h.Keys <= h'.Keys && forall o :: o in h && o !in s ==> h'[o] == h[o]
    ensures SameOutside(h, h', s)
  {
  }

  /** What takes the place of `p`: its left child, or its successor moved up. */
  method Detach(h: Heads, p: Ptr, path: array<Ptr>, dir: array<bool>, d0: nat, ghost v: Tree)
    returns (h': Heads, r: Ptr, d: nat)
    requires Rep(h, p, v) && v.N? && Avl(v) && Distinct(v)
    requires d0 + Height(v) <= path.Length && d0 + Height(v) <= dir.Length
    modifies path, dir
    ensures d == d0 + |UnlinkedPath(v)| <= d0 + Height(v) && Path(Unlinked(v), UnlinkedPath(v))
    ensures Rep(h', r, Unlinked(v)) && SameOutside(h, h', Objs(v))
    ensures path[..d0] == old(path[..d0]) && dir[..d0] == old(dir[..d0])
    ensures path[d0..d] == PathNodes(Unlinked(v), UnlinkedPath(v)) && dir[d0..d] == UnlinkedPath(v)
  {
    RepNode(h, p, v, true);
    RepNode(h, p, v, false);
    hide Rep, Avl, Distinct, Height, Unlinked, UnlinkedPath, Path, PathNodes, Objs;
    if h[p].right == NULL {
      UnlinkedNear(v);
      h', r, d := h, h[p].left, d0;
    } else {
      h', r, d := MoveUp(h, p, path, dir, d0, v);
    }
  }

  /** `path` and `dir` lead from the stack variable `fake` along `ds` through the tree `t` below it. */
  ghost predicate Leads(h: Heads, path: seq<Ptr>, dir: seq<bool>, t: Tree, ds: seq<bool>) {
    && Rep(h, FAKE, Hung(FAKE, t)) && Distinct(Hung(FAKE, t)) && Path(t, ds)
    && dir == [false] + ds && Path(Hung(FAKE, t), dir) && path == PathNodes(Hung(FAKE, t), dir)
  }

  /** Takes the node at `ds` out of the tree, leaving its subtree one level short along the
      path that `path` and `dir` now hold. */
  method UnlinkAt(h: Heads, p: Ptr, path: array<Ptr>, dir: array<bool>, d0: nat, ghost t: Tree, ghost ds: seq<bool>, ghost v: Tree)
    returns (h': Heads, d: nat)
    requires d0 == |ds| + 1 && d0 + Height(v) <= path.Length && d0 + Height(v) <= dir.Length
    requires Leads(h, path[..d0], dir[..d0], t, ds) && At(t, ds) == v && v.N? && p == v.o && Avl(v)
    modifies path, dir
    ensures SameOutside(h, h', Objs(t) + {FAKE})
    ensures d == d0 + |UnlinkedPath(v)| <= path.Length && d <= dir.Length
    ensures Path(t, ds) && Leads(h', path[..d], dir[..d], Graft(t, ds, Unlinked(v), 0), ds + UnlinkedPath(v))
  {
    ghost var w, es := Unlinked(v), UnlinkedPath(v);
    ghost var ps, ss := path[..d0], dir[..d0];
    hide Rep, Distinct, Path, At, PathNodes, Unlinked, UnlinkedPath, Graft, Objs, Avl, Height, SameOutside, Leads;
    UnlinkDistinct(h, ps, ss, t, ds);
    var q, e := path[d0 - 1], dir[d0 - 1];
    var r;
    h', r, d := Detach(h, p, path, dir, d0, v);
    UnlinkLeads(h, h', ps, ss, t, ds, r);
    h' := h'[q := h'[q].WithChild(e, r)];
    Slices(path[..], d0, d);
    Slices(dir[..], d0, d);
  }

  lemma Slices<T>(s: seq<T>, i: nat, j: nat)
    requires i <= j <= |s|
    ensures s[..j] == s[..i] + s[i..j]
  {
  }

  lemma UnlinkDistinct(h: Heads, path: seq<Ptr>, dir: seq<bool>, t: Tree, ds: seq<bool>)
    requires Leads(h, path, dir, t, ds) && At(t, ds).N? && Avl(At(t, ds))
    ensures Path(t, ds) && Distinct(At(t, ds)) && Rep(h, At(t, ds).o, At(t, ds))
  {
    UnlinkPlace(h, t, ds);
  }

  /** The path after the replacement of the node at `ds` has been linked in. */
  lemma UnlinkLeads(h: Heads, h1: Heads, path: seq<Ptr>, dir: seq<bool>, t: Tree, ds: seq<bool>, c: Ptr)
    requires Leads(h, path, dir, t, ds) && At(t, ds).N? && Avl(At(t, ds))
    requires Rep(h1, c, Unlinked(At(t, ds))) && SameOutside(h, h1, Objs(At(t, ds)))
    ensures Path(t, ds) && |path| == |ds| + 1 && |dir| == |ds| + 1 && path[|ds|] in h1
    ensures var w, es := Unlinked(At(t, ds)), UnlinkedPath(At(t, ds));
            var h' := h1[path[|ds|] := h1[path[|ds|]].WithChild(dir[|ds|], c)];
            && SameOutside(h, h', Objs(t) + {FAKE}) && Path(w, es)
            && Leads(h', path + PathNodes(w, es), dir + es, Graft(t, ds, w, 0), ds + es)
  {
    hide Rep, Hung, Distinct, Path, At, PathNodes, Unlinked, UnlinkedPath, Graft, Objs, Avl, SameOutside;
    UnlinkPlace(h, t, ds);
    UnlinkPath(t, ds);
    UnlinkLinked(h, h1, t, ds, c);
    assert [false] + (ds + UnlinkedPath(At(t, ds))) == dir + UnlinkedPath(At(t, ds));
  }

  lemma UnlinkLinked(h: Heads, h1: Heads, t: Tree, ds: seq<bool>, c: Ptr)
    requires Rep(h, FAKE, Hung(FAKE, t)) && Distinct(Hung(FAKE, t)) && Path(t, ds) && At(t, ds).N?
    requires Avl(At(t, ds)) && Path(Hung(FAKE, t), [false] + ds)
    requires Rep(h1, c, Unlinked(At(t, ds))) && SameOutside(h, h1, Objs(At(t, ds)))
    ensures var D := [false] + ds;
            var q := PathNodes(Hung(FAKE, t), D)[|ds|];
            && q in h1
            && var h' := h1[q := h1[q].WithChild(D[|ds|], c)];
            && Rep(h', FAKE, Hung(FAKE, Graft(t, ds, Unlinked(At(t, ds)), 0)))
            && SameOutside(h, h', Objs(t) + {FAKE})
  {
    var H, D, w := Hung(FAKE, t), [false] + ds, Unlinked(At(t, ds));
    hide Rep, Hung, Distinct, Path, At, PathNodes, Unlinked, Graft, Objs, Avl;
    UnlinkPlace(h, t, ds);
    var q := PathNodes(H, D)[|ds|];
    var h' := h1[q := h1[q].WithChild(D[|ds|], c)];
    RepFrame(h1, h', c, w, {q});
    PutRep(h, h', FAKE, H, D, c, w);
  }

  lemma UnlinkPlace(h: Heads, t: Tree, ds: seq<bool>)
    requires Rep(h, FAKE, Hung(FAKE, t)) && Distinct(Hung(FAKE, t)) && Path(t, ds) && At(t, ds).N?
    requires Avl(At(t, ds)) && Path(Hung(FAKE, t), [false] + ds)
    ensures var v := At(t, ds);
            var q := PathNodes(Hung(FAKE, t), [false] + ds)[|ds|];
            && Rep(h, v.o, v) && Distinct(v) && Objs(v) <= Objs(t) && At(Hung(FAKE, t), [false] + ds) == v
            && q in h && q in Objs(t) + {FAKE} && q !in Objs(v) && v.o in Objs(v)
            && Objs(Unlinked(v)) == Objs(v) - {v.o} && (v.r.Nil? ==> Unlinked(v) == v.l)
            && (forall u :: Graft(Hung(FAKE, t), [false] + ds, u, 0) == Hung(FAKE, Graft(t, ds, u, 0)))
            && Distinct(Hung(FAKE, Graft(t, ds, Unlinked(v), 0)))
  {
    var H, D, v := Hung(FAKE, t), [false] + ds, At(t, ds);
    HungPath(FAKE, t, ds);
    HungDistinct(FAKE, t);
    assert v.r.Nil? ==> Unlinked(v) == v.l;
    hide Rep, Hung, Distinct, Path, At, PathNodes, Unlinked, Graft, Objs, Avl;
    AtObjs(t, ds);
    UnlinkedDistinct(v);
    GraftDistinct(t, ds, Unlinked(v), 0);
    HungDistinct(FAKE, Graft(t, ds, Unlinked(v), 0));
    NodeIn(v);
    RepAt(h, FAKE, H, D);
    PathNodesIn(h, FAKE, H, D);
    PathNodesAt(H, D, |ds|);
    assert D == D[..|ds|] + D[|ds|..];
    AtAppend(H, D[..|ds|], D[|ds|..]);
    AtObjs(H, D[..|ds|]);
    NodeIn(At(H, D[..|ds|]));
    PathDistinct(H, D[..|ds|], D[|ds|..]);
  }

  lemma UnlinkedNear(v: Tree)
    requires v.N? && v.r.Nil?
    ensures Unlinked(v) == v.l && UnlinkedPath(v) == [] && Path(v.l, []) && PathNodes(v.l, []) == [] && Objs(v.l) <= Objs(v)
  {
  }

  lemma UnlinkPath(t: Tree, ds: seq<bool>)
    requires Path(t, ds) && At(t, ds).N? && Avl(At(t, ds)) && Path(Hung(FAKE, t), [false] + ds)
    ensures var w, es := Unlinked(At(t, ds)), UnlinkedPath(At(t, ds));
            var H := Hung(FAKE, Graft(t, ds, w, 0));
            && Path(H, [false] + ds + es) && Path(w, es) && Path(Graft(t, ds, w, 0), ds + es)
            && PathNodes(H, [false] + ds + es) == PathNodes(Hung(FAKE, t), [false] + ds) + PathNodes(w, es)
  {
    var v := At(t, ds);
    var w, es := Unlinked(v), UnlinkedPath(v);
    HungPath(FAKE, t, ds);
    UnlinkedShort(v);
    GraftTwice(t, ds, w, w, 0, 0);
    AtAppend(Graft(t, ds, w, 0), ds, es);
    hide Path, At, PathNodes, Graft, Hung, Unlinked, UnlinkedPath, Avl, Height, Count;
    GraftTwice(Hung(FAKE, t), [false] + ds, w, w, 0, 0);
    PathNodesGraft(Hung(FAKE, t), [false] + ds, w, 0);
    PathNodesConcat(Graft(Hung(FAKE, t), [false] + ds, w, 0), [false] + ds, es);
  }

  lemma LeadsStart<K>(key: map<Ptr, K>, h: Heads, x: K, cmp: Cmp<K>, t: Tree)
    requires Rep(h, FAKE, Hung(FAKE, t)) && Distinct(Hung(FAKE, t))
    ensures FAKE in h && Path(t, []) && At(t, []) == t && Rep(h, h[FAKE].left, At(t, [])) && Leads(h, [FAKE], [false], t, []) && Narrowed(key, cmp, x, t, [], 0)
  {
    assert [false] + [] == [false] && [false][1..] == [];
  }

  lemma LeadsExtend(h: Heads, path: seq<Ptr>, dir: seq<bool>, t: Tree, ds: seq<bool>, d: bool)
    requires Leads(h, path, dir, t, ds) && At(t, ds).N?
    ensures Path(t, ds + [d]) && Leads(h, path + [At(t, ds).o], dir + [d], t, ds + [d])
    ensures At(t, ds + [d]) == Sub(At(t, ds), d) && Rep(h, At(t, ds).o, At(t, ds))
  {
    var v, H := At(t, ds), Hung(FAKE, t);
    hide Rep, Hung, Distinct, Path, At, PathNodes;
    HungPath(FAKE, t, ds);
    RepAt(h, FAKE, H, dir);
    OneStep(v, d);
    AtAppend(t, ds, [d]);
    AtAppend(H, dir, [d]);
    PathNodesAppend(H, dir, d);
    assert [false] + (ds + [d]) == dir + [d];
  }

  /** The search of `kavl_erase`: the match with the path to it, or NULL if nothing matches. */
  method EraseSearch<K>(key: map<Ptr, K>, h: Heads, x: K, cmp: Cmp<K>, path: array<Ptr>, dir: array<bool>, ghost t: Tree)
    returns (p: Ptr, cnt: int, d: nat, ghost ds: seq<bool>)
    requires Rep(h, FAKE, Hung(FAKE, t)) && Distinct(Hung(FAKE, t)) && Avl(t) && Height(t) <= 45
    requires Guides(key, cmp, x, Nodes(t)) && path.Length == 64 && dir.Length == 64
    modifies path, dir
    ensures p == NULL ==> cnt == 0 && exists k :: Splits(key, cmp, x, Nodes(t), k)
    ensures p != NULL ==>
              && d == |ds| + 1 <= 64 && Leads(h, path[..d], dir[..d], t, ds) && At(t, ds).N? && p == At(t, ds).o
              && 0 < cnt <= |Nodes(t)| && Nodes(t)[cnt - 1] == p && p in key && cmp(x, key[p]) == 0
  {
    hide Rep, Hung, Distinct, Path, At, PathNodes, Avl, Guides, Nodes, Height, Count, Narrowed, Leads, Splits;
    LeadsStart(key, h, x, cmp, t);
    var c := -1;
    p, cnt, d, ds := FAKE, 0, 0, [];
    ghost var ps: seq<Ptr>, es: seq<bool> := [], [];
    LeadsPath(h, [FAKE], [false], t, []);
    while c != 0
      invariant p != NULL && 0 <= d <= 46 && path[..d] == ps && dir[..d] == es
      invariant d == 0 ==> p == FAKE && c == -1 && cnt == 0
      invariant d > 0 ==>
        && d == |ds| + 1 && Leads(h, ps, es, t, ds) && Path(t, ds) && At(t, ds).N? && p == At(t, ds).o && p in key
        && c == cmp(x, key[p]) && Narrowed(key, cmp, x, t, ds, cnt)
      invariant Path(t, ds)
      decreases if d == 0 then 1 else 0, Count(At(t, ds))
    {
      var which := c > 0;
      if d > 0 {
        LeadsExtend(h, ps, es, t, ds, which);
        SearchStep(key, h, x, cmp, t, ds, p, cnt);
      }
      if c > 0 { cnt := cnt + SizeChild(h, p, false) + 1; }
      dir[d] := which;
      path[d] := p;
      ds := if d == 0 then [] else ds + [which];
      d := d + 1;
      assert [] + [p] == [p] && [] + [which] == [which];
      ps, es := ps + [p], es + [which];
      p := h[p].Child(which);
      LeadsPath(h, ps, es, t, ds);
      RepNull(h, p, At(t, ds));
      if p == NULL {
        Arrived(key, cmp, x, t, ds, cnt);
        cnt := 0;
        return;
      }
      MatchIn(key, h, x, cmp, t, ds, p);
      c := cmp(x, key[p]);
    }
    LeadsExtend(h, ps, es, t, ds, false);
    SearchStep(key, h, x, cmp, t, ds, p, cnt);
    cnt := cnt + SizeChild(h, p, false) + 1;
  }

  lemma LeadsPath(h: Heads, path: seq<Ptr>, dir: seq<bool>, t: Tree, ds: seq<bool>)
    requires Leads(h, path, dir, t, ds)
    ensures Path(t, ds)
  {
  }

  lemma MatchIn<K>(key: map<Ptr, K>, h: Heads, x: K, cmp: Cmp<K>, t: Tree, ds: seq<bool>, p: Ptr)
    requires Guides(key, cmp, x, Nodes(t)) && Path(t, ds) && Rep(h, p, At(t, ds)) && p != NULL
    ensures At(t, ds).N? && p == At(t, ds).o && p in key
  {
    AtObjs(t, ds);
    NodesObjs(t);
    assert p in Objs(t);
    assert p in Nodes(t);
  }

  /** The tree left behind when the node at `ds` is erased, before the balances are repaired. */
  ghost function Shrunk(t: Tree, ds: seq<bool>): Tree
    requires Path(t, ds) && At(t, ds).N?
  {
    Graft(t, ds, Unlinked(At(t, ds)), -1)
  }

  lemma ShrunkShort(t: Tree, ds: seq<bool>)
    requires Path(t, ds) && At(t, ds).N? && Avl(t)
    ensures var es := ds + UnlinkedPath(At(t, ds)); Path(Shrunk(t, ds), es) && Short(Shrunk(t, ds), es)
  {
    hide Avl, Short, Path, At, Unlinked, UnlinkedPath, Graft, RecHeight, Height, Count;
    AtAvl(t, ds);
    UnlinkedShort(At(t, ds));
    var es := UnlinkedPath(At(t, ds));
    GraftShort(t, ds, Unlinked(At(t, ds)), es, ds + es);
  }

  lemma ShrunkNodes(t: Tree, ds: seq<bool>)
    requires Path(t, ds) && At(t, ds).N?
    ensures var v, k := At(t, ds), |Before(t, ds)| + Count(At(t, ds).l);
            && k < |Nodes(t)| && Nodes(t)[k] == v.o
            && Nodes(Shrunk(t, ds)) == Nodes(t)[..k] + Nodes(t)[k + 1..]
  {
    var b, l, r, e := ShrunkParts(t, ds);
    hide *;
    DropMiddle(Nodes(t), b, l, At(t, ds).o, r, e, Nodes(Shrunk(t, ds)));
  }

  lemma ShrunkParts(t: Tree, ds: seq<bool>) returns (b: seq<Ptr>, l: seq<Ptr>, r: seq<Ptr>, e: seq<Ptr>)
    requires Path(t, ds) && At(t, ds).N?
    ensures Nodes(t) == b + (l + [At(t, ds).o] + r) + e && Nodes(Shrunk(t, ds)) == b + (l + r) + e
    ensures |b| == |Before(t, ds)| && |l| == Count(At(t, ds).l)
  {
    var v := At(t, ds);
    var w := Unlinked(v);
    assert Shrunk(t, ds) == Graft(t, ds, w, -1);
    hide *;
    b, l, r, e := Before(t, ds), Nodes(v.l), Nodes(v.r), After(t, ds);
    RootNodes(v);
    NodesCount(v.l);
    NodesSplit(t, ds);
    NodesGraft(t, ds, w, -1);
    UnlinkedNodes(v);
  }

  lemma ShrunkDistinct(t: Tree, ds: seq<bool>)
    requires Path(t, ds) && At(t, ds).N? && Distinct(t)
    ensures Objs(Shrunk(t, ds)) == Objs(t) - {At(t, ds).o} && Distinct(Shrunk(t, ds))
  {
    var v := At(t, ds);
    hide Nodes, At, Path, Graft, Unlinked, Distinct, Objs;
    AtObjs(t, ds);
    NodeIn(v);
    UnlinkedDistinct(v);
    GraftDistinct(t, ds, Unlinked(v), -1);
  }

  lemma DropMiddle<X>(s: seq<X>, b: seq<X>, l: seq<X>, o: X, r: seq<X>, e: seq<X>, s': seq<X>)
    requires s == b + (l + [o] + r) + e && s' == b + (l + r) + e
    ensures var k := |b| + |l|; k < |s| && s[k] == o && s' == s[..k] + s[k + 1..]
  {
    var k := |b| + |l|;
    Regroup(b, l, o, r, e);
    assert s == (b + l) + [o] + (r + e);
    assert s[..k] == b + l && s[k + 1..] == r + e;
    assert b + (l + r) + e == (b + l) + (r + e);
  }

  /** Sizes on the path go down by one and the node at `ds` is taken out. */
  method TakeOut(h: Heads, root: Ptr, p: Ptr, path: array<Ptr>, dir: array<bool>, d0: nat, ghost t: Tree, ghost ds: seq<bool>)
    returns (h': Heads, d: nat)
    requires Avl(t) && Distinct(t) && FAKE !in Objs(t) && Height(t) <= 45 && path.Length == 64 && dir.Length == 64
    requires FAKE in h && h[FAKE] == Head(root, NULL, 0, 0)
    requires d0 == |ds| + 1 <= 64 && Leads(h, path[..d0], dir[..d0], t, ds) && At(t, ds).N? && p == At(t, ds).o
    modifies path, dir
    ensures Path(t, ds) && d == d0 + |UnlinkedPath(At(t, ds))| <= 64
    ensures Leads(h', path[..d], dir[..d], Shrunk(t, ds), ds + UnlinkedPath(At(t, ds)))
    ensures SameOutside(h, h', Objs(t) + {FAKE})
  {
    ghost var v := At(t, ds);
    hide Avl, Distinct, Height, Nodes, Objs, Path, At, Rep, Unlinked, UnlinkedPath, Graft, Leads, SameOutside;
    LeadsPath(h, path[..d0], dir[..d0], t, ds);
    AvlAt(t, ds, true);
    ErasePlace(h, path[..d0], dir[..d0], t, ds);
    assert path[1..d0] == path[..d0][1..];
    h' := AddSizes(h, path, 1, d0, -1, root, t, ds);
    EraseLeads(h, h', path[..d0], dir[..d0], t, ds);
    ghost var g := Graft(t, ds, v, -1);
    GraftTwice(t, ds, v, Unlinked(v), -1, 0);
    ghost var h1 := h';
    h', d := UnlinkAt(h', p, path, dir, d0, g, ds, v);
    SameTrans(h, h1, h', Objs(t), Objs(t) + {FAKE}, Objs(t) + {FAKE});
  }

  /** The second half of `kavl_erase`: the node at `ds` is taken out and the balances are
      repaired upwards. */
  method EraseAt(h: Heads, root: Ptr, p: Ptr, path: array<Ptr>, dir: array<bool>, d0: nat, ghost t: Tree, ghost ds: seq<bool>)
    returns (h': Heads, root': Ptr, ghost t': Tree)
    requires Avl(t) && Distinct(t) && FAKE !in Objs(t) && Height(t) <= 45 && path.Length == 64 && dir.Length == 64
    requires FAKE in h && h[FAKE] == Head(root, NULL, 0, 0)
    requires d0 == |ds| + 1 <= 64 && Leads(h, path[..d0], dir[..d0], t, ds) && At(t, ds).N? && p == At(t, ds).o
    modifies path, dir
    ensures Rep(h', root', t') && Avl(t') && Distinct(t') && Objs(t') == Objs(t) - {p} && FAKE !in h'
    ensures Path(t, ds) && Nodes(t') == Nodes(Shrunk(t, ds))
    ensures SameOutside(h, h', Objs(t) + {FAKE})
  {
    hide Avl, Distinct, Height, Nodes, Objs, Path, At, Rep, Short, UnlinkedPath, Leads, SameOutside, Shrunk, Hung;
    var d;
    h', d := TakeOut(h, root, p, path, dir, d0, t, ds);
    ghost var es := ds + UnlinkedPath(At(t, ds));
    ShrunkShort(t, ds);
    ShrunkDistinct(t, ds);
    ghost var h1 := h';
    h', t' := RepairPath(h', path, dir, d, Shrunk(t, ds), es);
    SameTrans(h, h1, h', Objs(t) + {FAKE}, Objs(Shrunk(t, ds)) + {FAKE}, Objs(t) + {FAKE});
    HungRoot(h', t');
    root' := h'[FAKE].left;
    Unhang(h', t', root');
    SameUnhang(h, h', Objs(t));
    h' := h' - {FAKE};
  }

  lemma HungRoot(h: Heads, t: Tree)
    requires Rep(h, FAKE, Hung(FAKE, t))
    ensures FAKE in h && Rep(h, h[FAKE].left, t)
  {
  }

  lemma SameUnhang(h: Heads, h': Heads, s: set<Ptr>)
    requires SameOutside(h, h', s + {FAKE})
    ensures SameOutside(h, h' - {FAKE}, s + {FAKE})
  {
  }

  lemma Unhang(h: Heads, t: Tree, root: Ptr)
    requires Rep(h, root, t) && FAKE !in Objs(t)
    ensures Rep(h - {FAKE}, root, t)
  {
    RepFrame(h, h - {FAKE}, root, t, {FAKE});
  }

  lemma ErasePlace(h: Heads, path: seq<Ptr>, dir: seq<bool>, t: Tree, ds: seq<bool>)
    requires Leads(h, path, dir, t, ds)
    ensures FAKE in h && Rep(h, h[FAKE].left, t) && Path(t, ds) && |path| > 0 && path[0] == FAKE && path[1..] == PathNodes(t, ds)
  {
    assert dir[1..] == ds;
  }

  /** The path still leads to the node after the sizes above it went down. */
  lemma EraseLeads(h: Heads, h': Heads, path: seq<Ptr>, dir: seq<bool>, t: Tree, ds: seq<bool>)
    requires Leads(h, path, dir, t, ds) && FAKE in h && FAKE !in Objs(t) && Distinct(t) && h[FAKE].right == NULL
    requires h[FAKE].balance == 0 && h[FAKE].size == 0
    requires SameOutside(h, h', Objs(t)) && Rep(h', h[FAKE].left, Graft(t, ds, At(t, ds), -1))
    ensures var g := Graft(t, ds, At(t, ds), -1);
            Leads(h', path, dir, g, ds) && At(g, ds) == At(t, ds) && Objs(g) == Objs(t)
  {
    var g := Graft(t, ds, At(t, ds), -1);
    GraftTwice(t, ds, At(t, ds), At(t, ds), -1, 0);
    AtObjs(t, ds);
    GraftDistinct(t, ds, At(t, ds), -1);
    HungDistinct(FAKE, g);
    PathNodesGraft(t, ds, At(t, ds), -1);
    assert dir[1..] == ds;
  }

  /** `kavl_erase` with a key: takes out the node that matches `x`, if there is one. */
  method Erase<K>(key: map<Ptr, K>, h: Heads, root: Ptr, x: K, cmp: Cmp<K>, ghost t: Tree)
    returns (h': Heads, root': Ptr, r: Ptr, cnt: int, ghost t': Tree)
    requires Rep(h, root, t) && Avl(t) && Distinct(t) && Count(t) < 0x1_0000_0000
    requires FAKE !in h && Guides(key, cmp, x, Nodes(t))
    ensures Rep(h', root', t') && Avl(t') && Distinct(t') && SameOutside(h, h', Objs(t)) && FAKE !in h'
    ensures r == NULL ==>
              && t' == t && h' == h && root' == root && cnt == 0
              && exists k :: Splits(key, cmp, x, Nodes(t), k)
    ensures r != NULL ==>
              && 0 < cnt <= |Nodes(t)| && Nodes(t)[cnt - 1] == r && r in key && cmp(x, key[r]) == 0
              && Nodes(t') == Nodes(t)[..cnt - 1] + Nodes(t)[cnt..] && Objs(t') == Objs(t) - {r}
  {
    hide Rep, Avl, Distinct, Nodes, Objs, Height, Count, Path, At, Leads, Guides, Hung, Splits, Shrunk, Before;
    h', root', t' := h, root, t;
    var path, dir := new Ptr[64], new bool[64];
    var d;
    ghost var ds;
    var h1 := h[FAKE := Head(root, NULL, 0, 0)];
    HangRep(h, h1, root, t);
    DepthBound(t);
    r, cnt, d, ds := EraseSearch(key, h1, x, cmp, path, dir, t);
    if r != NULL {
      LeadsPath(h1, path[..d], dir[..d], t, ds);
      ShrunkNodes(t, ds);
      SameNode(t, ds, cnt - 1);
      h', root', t' := EraseAt(h1, root, r, path, dir, d, t, ds);
    }
  }

  lemma HangRep(h: Heads, h1: Heads, root: Ptr, t: Tree)
    requires Rep(h, root, t) && Distinct(t) && FAKE !in h && h1 == h[FAKE := Head(root, NULL, 0, 0)]
    ensures Rep(h1, FAKE, Hung(FAKE, t)) && Distinct(Hung(FAKE, t)) && FAKE !in Objs(t)
  {
    RepIn(h, root, t);
    RepFrame(h, h1, root, t, {FAKE});
  }

  lemma {:induction false} RepIn(h: Heads, p: Ptr, t: Tree)
    requires Rep(h, p, t)
    ensures forall o :: o in Objs(t) ==> o in h && o != NULL
    decreases t
  {
    if t.N? {
      RepIn(h, h[t.o].left, t.l);
      RepIn(h, h[t.o].right, t.r);
    }
  }

  /** In a tree of distinct nodes a node has one position in the order. */
  lemma {:induction false} NodesDistinct(t: Tree, i: nat, j: nat)
    requires Distinct(t) && i < j < |Nodes(t)|
    ensures Nodes(t)[i] != Nodes(t)[j]
    decreases t
  {
    NodesObjs(t.l);
    NodesObjs(t.r);
    var n := |Nodes(t.l)|;
    assert Nodes(t) == Nodes(t.l) + [t.o] + Nodes(t.r);
    if j < n {
      NodesDistinct(t.l, i, j);
    } else if i > n {
      NodesDistinct(t.r, i - n - 1, j - n - 1);
    } else {
      if i < n { assert Nodes(t)[i] in Nodes(t.l); }
      if j > n { assert Nodes(t)[j] in Nodes(t.r); }
    }
  }

  lemma SameNode(t: Tree, ds: seq<bool>, k: nat)
    requires Distinct(t) && Path(t, ds) && At(t, ds).N? && k < |Nodes(t)| && Nodes(t)[k] == At(t, ds).o
    ensures k == |Before(t, ds)| + Count(At(t, ds).l)
  {
    hide Nodes, At, Path, Before, Count, Distinct;
    ShrunkNodes(t, ds);
    var j := |Before(t, ds)| + Count(At(t, ds).l);
    if k < j { NodesDistinct(t, k, j); } else if j < k { NodesDistinct(t, j, k); }
  }
}
