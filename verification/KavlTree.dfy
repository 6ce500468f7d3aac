/**
  The value side of the intrusive AVL tree of `kavl.h`.

  `Tree` mirrors a linked tree node by node, keeping the *stored* balance and
  size of each node next to its shape, so that a half-updated tree (linked but
  not yet counted, counted but not yet balanced) is a value like any other.
  Everything in this module is pure; `KavlNodes` ties it to memory.
*/
module KavlTree {
  /** Address of an element; 0 is the null pointer. */
  type Ptr = nat

  ghost const MAX_DEPTH := 64

  datatype Tree = Nil | N(o: Ptr, b: int, s: int, l: Tree, r: Tree)

  ghost function Sub(t: Tree, d: bool): Tree
    requires t.N?
  {
    if d then t.r else t.l
  }

  ghost function WithSub(t: Tree, d: bool, u: Tree): Tree
    requires t.N?
  {
    if d then t.(r := u) else t.(l := u)
  }

  ghost function Objs(t: Tree): set<Ptr> {
    if t.Nil? then {} else {t.o} + Objs(t.l) + Objs(t.r)
  }

  /** No node is linked twice. */
  ghost predicate Distinct(t: Tree) {
    t.N? ==>
      && Distinct(t.l) && Distinct(t.r)
      && t.o !in Objs(t.l) && t.o !in Objs(t.r)
      && Objs(t.l) !! Objs(t.r)
  }

  ghost function Height(t: Tree): nat {
    if t.Nil? then 0 else 1 + if Height(t.l) < Height(t.r) then Height(t.r) else Height(t.l)
  }

  ghost function Count(t: Tree): nat {
    if t.Nil? then 0 else Count(t.l) + 1 + Count(t.r)
  }

  /** The nodes in key order. */
  ghost function Nodes(t: Tree): seq<Ptr> {
    if t.Nil? then [] else Nodes(t.l) + [t.o] + Nodes(t.r)
  }

  /** `kavl_size`: the stored size, 0 for a missing tree. */
  ghost function Size(t: Tree): int {
    if t.Nil? then 0 else t.s
  }

  /** Every stored balance and size tells the truth, and no balance leaves -1..1. */
  ghost predicate Avl(t: Tree) {
    t.N? ==>
      && Avl(t.l) && Avl(t.r)
      && t.b == Height(t.r) - Height(t.l) && -1 <= t.b <= 1
      && t.s == Count(t)
  }

  // ----- paths

  ghost predicate Path(t: Tree, ds: seq<bool>) {
    ds == [] || (t.N? && Path(Sub(t, ds[0]), ds[1..]))
  }

  ghost function At(t: Tree, ds: seq<bool>): Tree
    requires Path(t, ds)
    decreases |ds|
  {
    if ds == [] then t else At(Sub(t, ds[0]), ds[1..])
  }

  /** `t` with the subtree at `ds` replaced by `u` and `k` added to every stored
      size on the way there. */
  ghost function Graft(t: Tree, ds: seq<bool>, u: Tree, k: int): Tree
    requires Path(t, ds)
    decreases |ds|
  {
    if ds == [] then u
    else WithSub(t.(s := t.s + k), ds[0], Graft(Sub(t, ds[0]), ds[1..], u, k))
  }

  ghost function Before(t: Tree, ds: seq<bool>): seq<Ptr>
    requires Path(t, ds)
    decreases |ds|
  {
    if ds == [] then []
    else if ds[0] then Nodes(t.l) + [t.o] + Before(t.r, ds[1..])
    else Before(t.l, ds[1..])
  }

  ghost function After(t: Tree, ds: seq<bool>): seq<Ptr>
    requires Path(t, ds)
    decreases |ds|
  {
    if ds == [] then []
    else if ds[0] then After(t.r, ds[1..])
    else After(t.l, ds[1..]) + [t.o] + Nodes(t.r)
  }

  lemma {:induction false} AtAppend(t: Tree, ds: seq<bool>, es: seq<bool>)
    ensures Path(t, ds + es) <==> Path(t, ds) && Path(At(t, ds), es)
    ensures Path(t, ds + es) ==> At(t, ds + es) == At(At(t, ds), es)
    decreases |ds|
  {
    if ds == [] {
      assert ds + es == es;
    } else {
      assert (ds + es)[0] == ds[0] && (ds + es)[1..] == ds[1..] + es;
      if t.N? { AtAppend(Sub(t, ds[0]), ds[1..], es); }
    }
  }

  lemma {:induction false} GraftAppend(t: Tree, ds: seq<bool>, es: seq<bool>, u: Tree, k: int)
    requires Path(t, ds) && Path(At(t, ds), es)
    ensures Path(t, ds + es)
    ensures Graft(t, ds + es, u, k) == Graft(t, ds, Graft(At(t, ds), es, u, k), k)
    decreases |ds|
  {
    AtAppend(t, ds, es);
    if ds == [] {
      assert ds + es == es;
    } else {
      assert (ds + es)[0] == ds[0] && (ds + es)[1..] == ds[1..] + es;
      GraftAppend(Sub(t, ds[0]), ds[1..], es, u, k);
    }
  }

  /** A path of one step. */
  lemma OneStep(t: Tree, d: bool)
    requires t.N?
    ensures Path(t, [d]) && At(t, [d]) == Sub(t, d)
    ensures forall u, k :: Graft(t, [d], u, k) == WithSub(t.(s := t.s + k), d, u)
  {
    assert [d][1..] == [];
  }

  lemma {:induction false} GraftTwice(t: Tree, ds: seq<bool>, u: Tree, v: Tree, j: int, k: int)
    requires Path(t, ds)
    ensures var w := Graft(t, ds, u, j);
            Path(w, ds) && At(w, ds) == u && Graft(w, ds, v, k) == Graft(t, ds, v, j + k)
    decreases |ds|
  {
    if ds != [] { GraftTwice(Sub(t, ds[0]), ds[1..], u, v, j, k); }
  }

  lemma {:induction false} GraftSame(t: Tree, ds: seq<bool>)
    requires Path(t, ds)
    ensures Graft(t, ds, At(t, ds), 0) == t
    decreases |ds|
  {
    if ds != [] { GraftSame(Sub(t, ds[0]), ds[1..]); }
  }

  lemma {:induction false} NodesSplit(t: Tree, ds: seq<bool>)
    requires Path(t, ds)
    ensures Nodes(t) == Before(t, ds) + Nodes(At(t, ds)) + After(t, ds)
    decreases |ds|
  {
    if ds != [] { NodesSplit(Sub(t, ds[0]), ds[1..]); }
  }

  lemma {:induction false} NodesGraft(t: Tree, ds: seq<bool>, u: Tree, k: int)
    requires Path(t, ds)
    ensures Nodes(Graft(t, ds, u, k)) == Before(t, ds) + Nodes(u) + After(t, ds)
    decreases |ds|
  {
    if ds != [] { NodesGraft(Sub(t, ds[0]), ds[1..], u, k); }
  }

  lemma AppendAssoc<X>(a: seq<X>, b: seq<X>, c: seq<X>, e: seq<X>)
    ensures a + (b + c + e) == (a + b) + c + e
    ensures (a + b) + c + e == a + (b + c + e)
  {
  }

  lemma {:induction false} BeforeAfterAppend(t: Tree, ds: seq<bool>, d: bool)
    requires Path(t, ds) && At(t, ds).N?
    ensures Path(t, ds + [d])
    ensures var v := At(t, ds);
            && Before(t, ds + [d]) == (if d then Before(t, ds) + Nodes(v.l) + [v.o] else Before(t, ds))
            && After(t, ds + [d]) == (if d then After(t, ds) else [v.o] + Nodes(v.r) + After(t, ds))
    decreases |ds|
  {
    AtAppend(t, ds, [d]);
    if ds == [] {
      assert ds + [d] == [d];
      assert [d][1..] == [];
    } else {
      assert (ds + [d])[0] == ds[0] && (ds + [d])[1..] == ds[1..] + [d];
      var u := Sub(t, ds[0]);
      var v := At(u, ds[1..]);
      BeforeAfterAppend(u, ds[1..], d);
      if ds[0] {
        AppendAssoc(Nodes(t.l) + [t.o], Before(u, ds[1..]), Nodes(v.l), [v.o]);
      } else {
        AppendAssoc([v.o] + Nodes(v.r), After(u, ds[1..]), [t.o], Nodes(t.r));
      }
    }
  }

  lemma {:induction false} NodesCount(t: Tree)
    ensures |Nodes(t)| == Count(t)
  {
    if t.N? { NodesCount(t.l); NodesCount(t.r); }
  }

  lemma {:induction false} NodesObjs(t: Tree)
    ensures forall o :: o in Nodes(t) <==> o in Objs(t)
  {
    if t.N? { NodesObjs(t.l); NodesObjs(t.r); }
  }

  lemma {:induction false} AtObjs(t: Tree, ds: seq<bool>)
    requires Path(t, ds)
    ensures Objs(At(t, ds)) <= Objs(t)
    ensures Distinct(t) ==> Distinct(At(t, ds))
    decreases |ds|
  {
    if ds != [] { AtObjs(Sub(t, ds[0]), ds[1..]); }
  }

  /** Nodes met at different depths of one path are different nodes. */
  lemma {:induction false} PathDistinct(t: Tree, ds: seq<bool>, es: seq<bool>)
    requires Distinct(t) && Path(t, ds) && es != []
    requires At(t, ds).N? && Path(At(t, ds), es)
    ensures At(t, ds).o !in Objs(At(At(t, ds), es))
    ensures Distinct(At(t, ds))
  {
    AtObjs(t, ds);
    AtObjs(Sub(At(t, ds), es[0]), es[1..]);
  }

  /** Replacing a subtree by one made of the same or of outside nodes keeps the links distinct. */
  lemma {:induction false} GraftDistinct(t: Tree, ds: seq<bool>, u: Tree, k: int)
    requires Distinct(t) && Path(t, ds) && Distinct(u)
    requires Objs(u) !! (Objs(t) - Objs(At(t, ds)))
    ensures Distinct(Graft(t, ds, u, k))
    ensures Objs(Graft(t, ds, u, k)) == Objs(t) - Objs(At(t, ds)) + Objs(u)
    decreases |ds|
  {
    if ds != [] {
      AtObjs(Sub(t, ds[0]), ds[1..]);
      GraftDistinct(Sub(t, ds[0]), ds[1..], u, k);
    }
  }

  lemma {:induction false} AtAvl(t: Tree, ds: seq<bool>)
    requires Path(t, ds) && Avl(t)
    ensures Avl(At(t, ds))
    ensures |ds| + Height(At(t, ds)) <= Height(t)
    decreases |ds|
  {
    if ds != [] { AtAvl(Sub(t, ds[0]), ds[1..]); }
  }

  /** One step down a path. */
  lemma GraftUnder(t: Tree, ds: seq<bool>, u: Tree, k: int)
    requires Path(t, ds) && ds != []
    ensures var g, d := Graft(t, ds, u, k), ds[0];
            && t.N? && Path(Sub(t, d), ds[1..]) && At(t, ds) == At(Sub(t, d), ds[1..])
            && g.N? && Sub(g, d) == Graft(Sub(t, d), ds[1..], u, k) && Sub(g, !d) == Sub(t, !d) && g.b == t.b && g.s == t.s + k && g.o == t.o
  {
  }

  lemma GraftHere(t: Tree, u: Tree, k: int)
    ensures Path(t, []) && At(t, []) == t && Graft(t, [], u, k) == u
  {
  }

  lemma AvlSame(t: Tree, g: Tree, d: bool, k: int)
    requires t.N? && g.N? && Avl(t) && Sub(g, !d) == Sub(t, !d) && g.b == t.b && g.s == t.s + k
    requires Avl(Sub(g, d)) && Height(Sub(g, d)) == Height(Sub(t, d)) && Count(Sub(g, d)) == Count(Sub(t, d)) + k
    ensures Avl(g) && Height(g) == Height(t) && Count(g) == Count(t) + k
  {
  }

  /** Swapping in a subtree of the same height and `k` more nodes, and adding `k`
      to the sizes above it, keeps every stored field true. */
  lemma {:induction false} GraftAvl(t: Tree, ds: seq<bool>, u: Tree, k: int)
    requires Path(t, ds) && Avl(t) && Avl(u)
    requires Height(u) == Height(At(t, ds)) && Count(u) == Count(At(t, ds)) + k
    ensures Avl(Graft(t, ds, u, k)) && Height(Graft(t, ds, u, k)) == Height(t)
    ensures Count(Graft(t, ds, u, k)) == Count(t) + k
    decreases |ds|
  {
    if ds != [] {
      GraftUnder(t, ds, u, k);
      assert Avl(Sub(t, ds[0]));
      hide Avl, Height, Count, Graft, At, Path;
      GraftAvl(Sub(t, ds[0]), ds[1..], u, k);
      AvlSame(t, Graft(t, ds, u, k), ds[0], k);
    }
  }

  // ----- the depth bound

  /** Fewest nodes an AVL tree of height `h` can have. */
  ghost function MinNodes(h: nat): nat {
    if h < 2 then h else MinNodes(h - 1) + MinNodes(h - 2) + 1
  }

  lemma {:induction false} MinNodesMonotone(h: nat, g: nat)
    requires h <= g
    ensures MinNodes(h) <= MinNodes(g)
    decreases g
  {
    if h < g { MinNodesMonotone(h, g - 1); }
  }

  lemma {:induction false} AvlMinNodes(t: Tree)
    requires Avl(t)
    ensures MinNodes(Height(t)) <= Count(t)
  {
    if t.N? {
      AvlMinNodes(t.l);
      AvlMinNodes(t.r);
      var h := Height(t);
      if h >= 2 {
        var lo := if Height(t.l) < Height(t.r) then Height(t.l) else Height(t.r);
        MinNodesMonotone(h - 2, lo);
      }
    }
  }

  lemma MinNodes46()
    ensures MinNodes(46) == 4807526975
  {
    assert MinNodes(8) == 54;
    assert MinNodes(16) == 2583;
    assert MinNodes(24) == 121392;
    assert MinNodes(32) == 5702886;
    assert MinNodes(40) == 267914295;
  }

  /** A tree whose size fits the 32-bit `size` field is at most 45 levels deep,
      well inside the 64-entry path stacks. */
  lemma DepthBound(t: Tree)
    requires Avl(t) && Count(t) < 0x1_0000_0000
    ensures Height(t) <= 45 < MAX_DEPTH - 2
  {
    if Height(t) >= 46 {
      AvlMinNodes(t);
      MinNodesMonotone(46, Height(t));
      MinNodes46();
    }
  }

  // ----- rotations

  /** One rotation at the root towards `d`: (a,(b,c)q)p => ((a,b)p,c)q; balances are left alone. */
  ghost function Rot1(p: Tree, d: bool): Tree
    requires p.N? && Sub(p, !d).N?
  {
    var q := Sub(p, !d);
    WithSub(q.(s := p.s), d,
            WithSub(p.(s := p.s - (q.s - Size(Sub(q, d)))), !d, Sub(q, d)))
  }

  /** Two rotations: (a,((b,c)r,e)q)p => ((a,b)p,(c,e)q)r; balances follow from r's. */
  ghost function Rot2(p: Tree, d: bool): Tree
    requires p.N? && Sub(p, !d).N? && Sub(Sub(p, !d), d).N?
  {
    var q := Sub(p, !d);
    var r := Sub(q, d);
    var x := Size(Sub(r, d));
    var b1 := if !d then 1 else -1;
    var bq := if r.b == b1 then 0 else if r.b == 0 then 0 else b1;
    var bp := if r.b == b1 then -b1 else 0;
    var p' := WithSub(p.(s := p.s - (q.s - x), b := bp), !d, Sub(r, d));
    var q' := WithSub(q.(s := q.s - (x + 1), b := bq), d, Sub(r, !d));
    WithSub(WithSub(r.(s := p.s, b := 0), d, p'), !d, q')
  }

  ghost function SetBalances(q: Tree, d: bool, bq: int, bp: int): Tree
    requires q.N? && Sub(q, d).N?
  {
    WithSub(q.(b := bq), d, Sub(q, d).(b := bp))
  }

  lemma Rot1Nodes(p: Tree, d: bool)
    requires p.N? && Sub(p, !d).N?
    ensures Nodes(Rot1(p, d)) == Nodes(p) && Objs(Rot1(p, d)) == Objs(p)
    ensures Distinct(p) ==> Distinct(Rot1(p, d))
  {
    Rot1Order(p, d);
    var q := Sub(p, !d);
    var t := Rot1(p, d);
    hide Nodes;
    assert Objs(p) == {p.o} + Objs(Sub(p, d)) + ({q.o} + Objs(Sub(q, d)) + Objs(Sub(q, !d)));
    assert Objs(t) == {q.o} + Objs(Sub(q, !d)) + ({p.o} + Objs(Sub(p, d)) + Objs(Sub(q, d)));
    if Distinct(p) { assert Distinct(q) && Distinct(Sub(t, d)); }
  }

  lemma Rot1Order(p: Tree, d: bool)
    requires p.N? && Sub(p, !d).N?
    ensures Nodes(Rot1(p, d)) == Nodes(p)
  {
    var q := Sub(p, !d);
    var t := Rot1(p, d);
    if d {
      assert Nodes(p) == (Nodes(q.l) + [q.o] + Nodes(q.r)) + [p.o] + Nodes(p.r);
      assert Nodes(t) == Nodes(q.l) + [q.o] + (Nodes(q.r) + [p.o] + Nodes(p.r));
    } else {
      assert Nodes(p) == Nodes(p.l) + [p.o] + (Nodes(q.l) + [q.o] + Nodes(q.r));
      assert Nodes(t) == (Nodes(p.l) + [p.o] + Nodes(q.l)) + [q.o] + Nodes(q.r);
    }
  }

  lemma Rot2Nodes(p: Tree, d: bool)
    requires p.N? && Sub(p, !d).N? && Sub(Sub(p, !d), d).N?
    ensures Nodes(Rot2(p, d)) == Nodes(p) && Objs(Rot2(p, d)) == Objs(p)
    ensures Distinct(p) ==> Distinct(Rot2(p, d))
  {
    // A double rotation is a rotation of the heavy child followed by one of the root,
    // as far as nodes and shape go.
    var q := Sub(p, !d);
    var q1 := Rot1(q, !d);
    var p1 := WithSub(p, !d, q1);
    Rot1Nodes(q, !d);
    assert Nodes(p1) == Nodes(p) && Objs(p1) == Objs(p) && (Distinct(p) ==> Distinct(p1));
    Rot1Nodes(p1, d);
    var t1 := Rot1(p1, d);
    var t2 := Rot2(p, d);
    SameShape(Sub(t1, d), Sub(t2, d));
    SameShape(Sub(t1, !d), Sub(t2, !d));
    SameShape(t1, t2);
  }

  /** Trees that differ only in the stored fields of their top two levels hold the same nodes. */
  lemma SameShape(t: Tree, u: Tree)
    requires t.N? && u.N? && t.o == u.o
    requires Nodes(t.l) == Nodes(u.l) && Objs(t.l) == Objs(u.l) && Distinct(t.l) == Distinct(u.l)
    requires Nodes(t.r) == Nodes(u.r) && Objs(t.r) == Objs(u.r) && Distinct(t.r) == Distinct(u.r)
    ensures Nodes(t) == Nodes(u) && Objs(t) == Objs(u) && Distinct(t) == Distinct(u)
  {
  }

  /** The root leans by two away from `d`, its heavy child does not lean back:
      one rotation restores balance; it lowers the tree unless the child was even. */
  lemma Rot1Avl(p: Tree, d: bool)
    requires p.N? && Avl(p.l) && Avl(p.r) && p.s == Count(p)
    requires Height(Sub(p, !d)) == Height(Sub(p, d)) + 2
    requires Sub(p, !d).b != (if d then 1 else -1)
    ensures var b1 := if d then -1 else 1;
            var even := Sub(p, !d).b == 0;
            var t := SetBalances(Rot1(p, d), d, if even then -b1 else 0, if even then b1 else 0);
            && Avl(t) && Height(t) == Height(p) - (if even then 0 else 1) && Count(t) == Count(p)
  {
  }

  /** The heavy child leans back: two rotations restore balance and lower the tree. */
  lemma Rot2Avl(p: Tree, d: bool)
    requires p.N? && Avl(p.l) && Avl(p.r) && p.s == Count(p)
    requires Height(Sub(p, !d)) == Height(Sub(p, d)) + 2
    requires Sub(p, !d).b == (if d then 1 else -1)
    ensures Sub(Sub(p, !d), d).N?
    ensures var t := Rot2(p, d); Avl(t) && Height(t) == Height(p) - 1 && Count(t) == Count(p)
  {
    hide Avl, Height, Count;
    Rot2Parts(p, d);
    var q := Sub(p, !d);
    var r := Sub(q, d);
    var h := Height(Sub(p, d));
    var t := Rot2(p, d);
    JoinAvl(Sub(t, d), !d, Sub(r, d), Sub(p, d), h);
    JoinAvl(Sub(t, !d), d, Sub(r, !d), Sub(q, !d), h);
    JoinAvl(t, d, Sub(t, d), Sub(t, !d), h + 1);
  }

  /** Heights and sizes of the four subtrees that a double rotation joins again. */
  lemma Rot2Parts(p: Tree, d: bool)
    requires p.N? && Avl(p.l) && Avl(p.r) && p.s == Count(p)
    requires Height(Sub(p, !d)) == Height(Sub(p, d)) + 2
    requires Sub(p, !d).b == (if d then 1 else -1)
    ensures Sub(p, !d).N? && Sub(Sub(p, !d), d).N?
    ensures var q := Sub(p, !d); var r := Sub(q, d); var h := Height(Sub(p, d));
            && Avl(Sub(p, d)) && Avl(Sub(r, d)) && Avl(Sub(r, !d)) && Avl(Sub(q, !d)) && Height(Sub(q, !d)) == h && Height(p) == h + 3
            && h - 1 <= Height(Sub(r, d)) <= h && h - 1 <= Height(Sub(r, !d)) <= h && (Height(Sub(r, d)) == h || Height(Sub(r, !d)) == h)
            && r.b == (if d then Height(Sub(r, d)) - Height(Sub(r, !d)) else Height(Sub(r, !d)) - Height(Sub(r, d)))
            && p.s == Count(p) == Count(Sub(p, d)) + 1 + q.s && q.s == Count(Sub(q, !d)) + 1 + r.s
            && r.s == Count(Sub(r, d)) + 1 + Count(Sub(r, !d)) && Size(Sub(r, d)) == Count(Sub(r, d))
  {
    var q := Sub(p, !d);
    var r := Sub(q, d);
    assert Avl(q) && Height(q) >= 2;
    assert Avl(r) && Avl(Sub(r, d)) && Avl(Sub(r, !d)) && Avl(Sub(q, !d));
  }

  /** A node over an AVL tree of height `h` and one of height `h` or `h - 1`. */
  lemma JoinAvl(t: Tree, d: bool, u: Tree, v: Tree, h: nat)
    requires t.N? && Sub(t, d) == u && Sub(t, !d) == v
    requires Avl(u) && Avl(v) && Height(v) == h && h - 1 <= Height(u) <= h
    requires t.s == Count(u) + 1 + Count(v)
    requires t.b == if d then Height(u) - h else h - Height(u)
    ensures Avl(t) && Height(t) == h + 1 && Count(t) == t.s
  {
  }

  // ----- insertion below the last unbalanced node

  ghost function Lean(d: bool): int { if d then 1 else -1 }

  /** Every stored balance on the way along `ds` moved towards the step taken. */
  ghost function Tilt(t: Tree, ds: seq<bool>): Tree
    requires Path(t, ds)
    decreases |ds|
  {
    if ds == [] then t
    else WithSub(t.(b := t.b + Lean(ds[0])), ds[0], Tilt(Sub(t, ds[0]), ds[1..]))
  }

  ghost predicate AllEven(t: Tree, ds: seq<bool>)
    requires Path(t, ds)
    decreases |ds|
  {
    ds == [] || (t.b == 0 && AllEven(Sub(t, ds[0]), ds[1..]))
  }

  ghost function Leaf(x: Ptr): Tree { N(x, 0, 1, Nil, Nil) }

  lemma LeafNodes(x: Ptr)
    ensures Nodes(Leaf(x)) == [x] && Objs(Leaf(x)) == {x} && Avl(Leaf(x)) && Distinct(Leaf(x))
  {
    assert Nodes(Leaf(x)) == Nodes(Nil) + [x] + Nodes(Nil);
  }

  /** Linking `x` below a path of even nodes and tilting them makes the tree one
      taller and leaves it an AVL tree. */
  lemma {:induction false} EvenInsert(t: Tree, ds: seq<bool>, x: Ptr)
    requires Path(t, ds) && Avl(t) && At(t, ds) == Nil && AllEven(t, ds)
    ensures var g := Graft(t, ds, Leaf(x), 1);
            && Path(g, ds)
            && var u := Tilt(g, ds);
            && Avl(u) && Height(u) == Height(t) + 1 && Count(u) == Count(t) + 1
            && (ds != [] ==> u.N? && u.b == Lean(ds[0]))
            && (ds == [] ==> u == Leaf(x))
    decreases |ds|
  {
    GraftTwice(t, ds, Leaf(x), Leaf(x), 1, 0);
    if ds != [] { EvenInsert(Sub(t, ds[0]), ds[1..], x); }
  }

  lemma {:induction false} TiltNodes(t: Tree, ds: seq<bool>)
    requires Path(t, ds)
    ensures Nodes(Tilt(t, ds)) == Nodes(t) && Objs(Tilt(t, ds)) == Objs(t)
    ensures Distinct(t) ==> Distinct(Tilt(t, ds))
    ensures Path(Tilt(t, ds), ds) && At(Tilt(t, ds), ds) == At(t, ds)
    decreases |ds|
  {
    if ds != [] { TiltNodes(Sub(t, ds[0]), ds[1..]); }
  }

  /** Tilting one more node of the path. */
  lemma {:induction false} TiltStep(t: Tree, ds: seq<bool>, d: bool)
    requires Path(t, ds) && At(t, ds).N?
    ensures Path(t, ds + [d]) && Path(Tilt(t, ds), ds)
    ensures var v := At(t, ds);
            Tilt(t, ds + [d]) == Graft(Tilt(t, ds), ds, v.(b := v.b + Lean(d)), 0)
    decreases |ds|
  {
    AtAppend(t, ds, [d]);
    TiltNodes(t, ds);
    if ds == [] {
      assert ds + [d] == [d];
      assert [d][1..] == [];
    } else {
      assert (ds + [d])[0] == ds[0] && (ds + [d])[1..] == ds[1..] + [d];
      TiltStep(Sub(t, ds[0]), ds[1..], d);
    }
  }

  /** The children a rotation at `u` needs are there. */
  ghost predicate Rebalanceable(u: Tree)
    requires u.N?
  {
    && (u.b < -1 ==> u.l.N? && (u.l.b != -1 ==> u.l.r.N?))
    && (u.b > 1 ==> u.r.N? && (u.r.b != 1 ==> u.r.l.N?))
  }

  /** What `kavl_insert` does at the last unbalanced node `u` of the search path
      once the sizes and balances below it are updated. */
  ghost function Rebalance(u: Tree): Tree
    requires u.N?
  {
    if -2 < u.b < 2 || !Rebalanceable(u) then u
    else
      var d := u.b < 0;
      if Sub(u, !d).b == (if d then -1 else 1) then SetBalances(Rot1(u, d), d, 0, 0) else Rot2(u, d)
  }

  lemma RebalanceInsert(u: Tree, es: seq<bool>, x: Ptr)
    requires u.N? && Avl(u) && Path(u, es) && es != [] && At(u, es) == Nil
    requires AllEven(Sub(u, es[0]), es[1..])
    ensures var g := Graft(u, es, Leaf(x), 1);
            && Path(g, es)
            && var v := Tilt(g, es);
            && v.N? && Rebalanceable(v)
            && Avl(Rebalance(v)) && Count(Rebalance(v)) == Count(u) + 1
            && (u.b != 0 ==> Height(Rebalance(v)) == Height(u))
  {
    var d := es[0];
    GraftTwice(u, es, Leaf(x), Leaf(x), 1, 0);
    EvenInsert(Sub(u, d), es[1..], x);
    hide Rebalance, Rebalanceable, AllEven;
    var v := Tilt(Graft(u, es, Leaf(x), 1), es);
    assert Sub(v, !d) == Sub(u, !d) && Avl(Sub(v, d));
    assert v.b == u.b + Lean(d) && v.s == u.s + 1 && Height(Sub(v, d)) == Height(Sub(u, d)) + 1;
    assert v.s == Count(v);
    LeaningInsert(v, d);
  }

  lemma LeaningInsert(v: Tree, d: bool)
    requires v.N? && Avl(v.l) && Avl(v.r) && v.s == Count(v)
    requires v.b == Height(v.r) - Height(v.l) && -2 <= v.b <= 2
    requires v.b != 0 ==> (v.b > 0) == d
    requires v.b != 0 && Count(Sub(v, d)) > 1 ==> Sub(v, d).b != 0
    ensures Rebalanceable(v) && Avl(Rebalance(v)) && Count(Rebalance(v)) == Count(v)
    ensures Height(Rebalance(v)) == Height(v) - (if -2 < v.b < 2 then 0 else 1)
  {
    if v.b < -1 || v.b > 1 {
      assert Height(Sub(v, d)) == Height(Sub(v, !d)) + 2;
      assert Sub(v, d).N? && Sub(v, d).b != 0 && -1 <= Sub(v, d).b <= 1;
      hide Avl, Count, Height;
      if Sub(v, d).b == Lean(d) { Rot1Avl(v, !d); } else { Rot2Avl(v, !d); }
    }
  }

  lemma RebalanceNodes(v: Tree)
    requires v.N? && Rebalanceable(v)
    ensures Nodes(Rebalance(v)) == Nodes(v) && Objs(Rebalance(v)) == Objs(v)
    ensures Distinct(v) ==> Distinct(Rebalance(v))
  {
    if v.b <= -2 || v.b >= 2 {
      var d := v.b < 0;
      if Sub(v, !d).b == (if d then -1 else 1) {
        Rot1Nodes(v, d);
        var w := Rot1(v, d);
        SameShape(Sub(w, d), Sub(w, d).(b := 0));
        SameShape(w, SetBalances(w, d, 0, 0));
      } else {
        Rot2Nodes(v, d);
      }
    }
  }

  lemma {:induction false} AllEvenAppend(t: Tree, ds: seq<bool>, d: bool)
    requires Path(t, ds) && AllEven(t, ds) && At(t, ds).N? && At(t, ds).b == 0
    ensures Path(t, ds + [d]) && AllEven(t, ds + [d])
    decreases |ds|
  {
    AtAppend(t, ds, [d]);
    if ds == [] {
      assert ds + [d] == [d];
      assert [d][1..] == [];
    } else {
      assert (ds + [d])[0] == ds[0] && (ds + [d])[1..] == ds[1..] + [d];
      AllEvenAppend(Sub(t, ds[0]), ds[1..], d);
    }
  }

  /** Node `ds[..k]` is the last unbalanced one on the search path `ds`, or the root. */
  ghost predicate LastUneven(t: Tree, ds: seq<bool>, k: nat) {
    && Path(t, ds) && k < |ds|
    && Path(t, ds[..k]) && At(t, ds[..k]).N? && (k > 0 ==> At(t, ds[..k]).b != 0)
    && Path(Sub(At(t, ds[..k]), ds[k]), ds[k + 1..]) && AllEven(Sub(At(t, ds[..k]), ds[k]), ds[k + 1..])
  }

  lemma LastUnevenStep(t: Tree, ds: seq<bool>, k: nat, d: bool)
    requires Path(t, ds) && At(t, ds).N? && (if ds == [] then k == 0 else LastUneven(t, ds, k))
    ensures LastUneven(t, ds + [d], if At(t, ds).b != 0 then |ds| else k)
  {
    AtAppend(t, ds, [d]);
    var es := ds + [d];
    if At(t, ds).b != 0 || ds == [] {
      assert es[..|ds|] == ds && es[|ds| + 1..] == [];
    } else {
      var v := Sub(At(t, ds[..k]), ds[k]);
      assert es[..k] == ds[..k] && es[k + 1..] == ds[k + 1..] + [d];
      assert ds == ds[..k] + ([ds[k]] + ds[k + 1..]);
      AtAppend(t, ds[..k], [ds[k]] + ds[k + 1..]);
      assert ([ds[k]] + ds[k + 1..])[1..] == ds[k + 1..];
      AllEvenAppend(v, ds[k + 1..], d);
    }
  }

  /** The subtree at the last uneven node with `x` linked and counted below it. */
  ghost function Linked(t: Tree, ds: seq<bool>, k: nat, x: Ptr): Tree
    requires LastUneven(t, ds, k)
  {
    UnevenPath(t, ds, k);
    Graft(At(t, ds[..k]), ds[k..], Leaf(x), 1)
  }

  /** The same with the balances moved. */
  ghost function Tilted(t: Tree, ds: seq<bool>, k: nat, x: Ptr): (v: Tree)
    requires LastUneven(t, ds, k)
    ensures v.N?
  {
    UnevenPath(t, ds, k);
    GraftTwice(At(t, ds[..k]), ds[k..], Leaf(x), Leaf(x), 1, 0);
    Tilt(Linked(t, ds, k, x), ds[k..])
  }

  /** The tree `kavl_insert` leaves behind: sizes raised along the whole search path,
      balances moved below the last uneven node, that node rebalanced. */
  ghost function Inserted(t: Tree, ds: seq<bool>, k: nat, x: Ptr): Tree
    requires LastUneven(t, ds, k)
  {
    Graft(t, ds[..k], Rebalance(Tilted(t, ds, k, x)), 1)
  }

  lemma UnevenPath(t: Tree, ds: seq<bool>, k: nat)
    requires LastUneven(t, ds, k)
    ensures k < |ds| && ds[k..] != [] && ds == ds[..k] + ds[k..]
    ensures Path(t, ds) && Path(t, ds[..k]) && At(t, ds[..k]).N?
    ensures Path(At(t, ds[..k]), ds[k..]) && At(At(t, ds[..k]), ds[k..]) == At(t, ds)
  {
    assert ds == ds[..k] + ds[k..];
    AtAppend(t, ds[..k], ds[k..]);
  }

  /** The whole tree is the part above the last uneven node with `Linked` below. */
  lemma InsertPlace(t: Tree, ds: seq<bool>, k: nat, x: Ptr)
    requires LastUneven(t, ds, k)
    ensures var full, g := Graft(t, ds, Leaf(x), 1), Linked(t, ds, k, x);
            && full == Graft(t, ds[..k], g, 1) && Path(full, ds[..k]) && At(full, ds[..k]) == g
            && Path(g, ds[k..]) && At(g, ds[k..]) == Leaf(x) && g.N? && g.o == At(t, ds[..k]).o
            && Tilted(t, ds, k, x) == Tilt(g, ds[k..])
            && Graft(full, ds[..k], Rebalance(Tilted(t, ds, k, x)), 0) == Inserted(t, ds, k, x)
  {
    UnevenPath(t, ds, k);
    var g := Linked(t, ds, k, x);
    GraftAppend(t, ds[..k], ds[k..], Leaf(x), 1);
    GraftTwice(At(t, ds[..k]), ds[k..], Leaf(x), Leaf(x), 1, 0);
    GraftTwice(t, ds[..k], g, Rebalance(Tilted(t, ds, k, x)), 1, 0);
  }

  lemma TiltedCorrect(t: Tree, ds: seq<bool>, k: nat, x: Ptr)
    requires LastUneven(t, ds, k) && At(t, ds).Nil? && Avl(t)
    ensures var u, v := At(t, ds[..k]), Tilted(t, ds, k, x);
            && Rebalanceable(v) && Avl(Rebalance(v)) && Count(Rebalance(v)) == Count(u) + 1
            && (k > 0 ==> Height(Rebalance(v)) == Height(u))
  {
    UnevenPath(t, ds, k);
    AtAvl(t, ds[..k]);
    assert ds[k..][0] == ds[k] && ds[k..][1..] == ds[k + 1..];
    RebalanceInsert(At(t, ds[..k]), ds[k..], x);
  }

  /** Insertion keeps every stored field true. */
  lemma InsertedAvl(t: Tree, ds: seq<bool>, k: nat, x: Ptr)
    requires LastUneven(t, ds, k) && At(t, ds).Nil? && Avl(t)
    ensures Avl(Inserted(t, ds, k, x)) && Count(Inserted(t, ds, k, x)) == Count(t) + 1
  {
    TiltedCorrect(t, ds, k, x);
    if k > 0 {
      GraftAvl(t, ds[..k], Rebalance(Tilted(t, ds, k, x)), 1);
    } else {
      assert ds[..k] == [];
    }
  }

  /** Insertion puts exactly the new node in between. */
  lemma InsertedNodes(t: Tree, ds: seq<bool>, k: nat, x: Ptr)
    requires LastUneven(t, ds, k)
    ensures Nodes(Inserted(t, ds, k, x)) == Before(t, ds) + [x] + After(t, ds)
  {
    var g, v := Linked(t, ds, k, x), Tilted(t, ds, k, x);
    InsertPlace(t, ds, k, x);
    UnevenPath(t, ds, k);
    LeafNodes(x);
    assert Inserted(t, ds, k, x) == Graft(t, ds[..k], Rebalance(v), 1);
    assert !Rebalanceable(v) ==> Rebalance(v) == v;
    hide Inserted, Graft, Tilt, Rebalance, Nodes, Linked, Tilted, LastUneven, Rebalanceable, At, Path, Before, After;
    TiltNodes(g, ds[k..]);
    if Rebalanceable(v) { RebalanceNodes(v); }
    NodesGraft(t, ds[..k], Rebalance(v), 1);
    NodesGraft(t, ds[..k], g, 1);
    NodesGraft(t, ds, Leaf(x), 1);
  }

  lemma NilObjs(t: Tree)
    requires t.Nil?
    ensures Objs(t) == {}
  {
  }

  lemma LinkedDistinct(t: Tree, ds: seq<bool>, k: nat, x: Ptr)
    requires LastUneven(t, ds, k) && Distinct(t) && x !in Objs(t) && At(t, ds).Nil?
    ensures var u, g, v := At(t, ds[..k]), Linked(t, ds, k, x), Tilted(t, ds, k, x);
            && Distinct(g) && Distinct(v) && Objs(v) == Objs(g) == Objs(u) + {x} && Objs(u) <= Objs(t)
  {
    var u, g := At(t, ds[..k]), Linked(t, ds, k, x);
    InsertPlace(t, ds, k, x);
    UnevenPath(t, ds, k);
    AtObjs(t, ds[..k]);
    LeafNodes(x);
    NilObjs(At(t, ds));
    hide Objs, Distinct, Graft, At, Path, Nodes, Leaf, Tilt, LastUneven;
    GraftDistinct(u, ds[k..], Leaf(x), 1);
    TiltNodes(g, ds[k..]);
  }

  lemma InsertedDistinct(t: Tree, ds: seq<bool>, k: nat, x: Ptr)
    requires LastUneven(t, ds, k) && Distinct(t) && x !in Objs(t) && At(t, ds).Nil?
    ensures var g, v := Linked(t, ds, k, x), Tilted(t, ds, k, x);
            && Distinct(g) && Distinct(v) && Objs(v) == Objs(g) == Objs(At(t, ds[..k])) + {x}
    ensures var full := Graft(t, ds, Leaf(x), 1); Distinct(full) && Objs(full) == Objs(t) + {x}
    ensures Objs(At(t, ds[..k])) <= Objs(t)
    ensures Distinct(Inserted(t, ds, k, x)) && Objs(Inserted(t, ds, k, x)) == Objs(t) + {x}
  {
    var v := Tilted(t, ds, k, x);
    LinkedDistinct(t, ds, k, x);
    UnevenPath(t, ds, k);
    LeafNodes(x);
    NilObjs(At(t, ds));
    hide Objs, Distinct, Graft, At, Path, Rebalance, Rebalanceable, Nodes, Leaf, LastUneven, Tilted, Linked;
    GraftDistinct(t, ds, Leaf(x), 1);
    if Rebalanceable(v) { RebalanceNodes(v); } else { NotRebalanced(v); }
    GraftDistinct(t, ds[..k], Rebalance(v), 1);
  }

  lemma NotRebalanced(v: Tree)
    requires v.N? && !Rebalanceable(v)
    ensures Rebalance(v) == v
  {
  }

  // ----- erasure: a subtree that came out one level short

  /** The height `t` had before the subtree at `ds` lost one level. */
  ghost function RecHeight(t: Tree, ds: seq<bool>): nat
    requires Path(t, ds)
    decreases |ds|
  {
    if ds == [] then Height(t) + 1
    else
      Over(RecHeight(Sub(t, ds[0]), ds[1..]), Height(Sub(t, !ds[0])))
  }

  /** The root's own fields, when its child towards `d` counts as `h` levels tall. */
  ghost predicate CountsAs(t: Tree, d: bool, h: int)
    requires t.N?
  {
    && Avl(Sub(t, !d))
    && t.b == (if d then h - Height(t.l) else Height(t.r) - h)
    && -1 <= t.b <= 1
    && t.s == Count(t)
  }

  ghost function Over(h: nat, g: nat): nat { 1 + if h < g then g else h }

  /** An AVL tree except that the balances along `ds` still count the subtree at
      `ds` as one level taller than it is. */
  ghost predicate Short(t: Tree, ds: seq<bool>)
    requires Path(t, ds)
    decreases |ds|
  {
    if ds == [] then Avl(t)
    else
      && Short(Sub(t, ds[0]), ds[1..])
      && CountsAs(t, ds[0], RecHeight(Sub(t, ds[0]), ds[1..]))
  }

  lemma ShortCons(t: Tree, d: bool, ds: seq<bool>)
    requires t.N? && Path(Sub(t, d), ds)
    ensures Path(t, [d] + ds)
    ensures Short(t, [d] + ds) <==> Short(Sub(t, d), ds) && CountsAs(t, d, RecHeight(Sub(t, d), ds))
    ensures RecHeight(t, [d] + ds) == Over(RecHeight(Sub(t, d), ds), Height(Sub(t, !d)))
  {
    assert ([d] + ds)[1..] == ds;
  }

  lemma {:induction false} ShortAt(t: Tree, ds: seq<bool>, es: seq<bool>)
    requires Path(t, ds + es) && Short(t, ds + es)
    ensures Path(t, ds) && Path(At(t, ds), es) && Short(At(t, ds), es)
    decreases |ds|
  {
    AtAppend(t, ds, es);
    if ds == [] {
      assert ds + es == es;
    } else {
      assert (ds + es)[0] == ds[0] && (ds + es)[1..] == ds[1..] + es;
      ShortAt(Sub(t, ds[0]), ds[1..], es);
    }
  }

  /** Replacing a subtree by one that is short along `es` makes the whole tree short along `ds + es`. */
  lemma {:induction false} GraftShort(t: Tree, ds: seq<bool>, w: Tree, es: seq<bool>, fs: seq<bool>)
    requires fs == ds + es
    requires Avl(t) && Path(t, ds) && Path(w, es) && Short(w, es)
    requires RecHeight(w, es) == Height(At(t, ds)) && Count(w) == Count(At(t, ds)) - 1
    ensures var g := Graft(t, ds, w, -1);
            && Path(g, fs) && Short(g, fs)
            && RecHeight(g, fs) == Height(t) && Count(g) == Count(t) - 1
    decreases |ds|
  {
    hide Short, RecHeight, Avl, Height, Count, Graft, At, Path;
    if ds == [] {
      GraftHere(t, w, -1);
      assert fs == es;
    } else {
      assert fs[1..] == ds[1..] + es && fs == [ds[0]] + fs[1..];
      var d := ds[0];
      GraftUnder(t, ds, w, -1);
      AvlRoot(t, d);
      GraftShort(Sub(t, d), ds[1..], w, es, fs[1..]);
      ShortAbove(t, d, Graft(t, ds, w, -1), fs[1..]);
    }
  }

  lemma ShortAbove(t: Tree, d: bool, g: Tree, xs: seq<bool>)
    requires t.N? && Avl(t) && g.N? && g.s == t.s - 1 && g.b == t.b && Sub(g, !d) == Sub(t, !d)
    requires Path(Sub(g, d), xs) && Short(Sub(g, d), xs)
    requires RecHeight(Sub(g, d), xs) == Height(Sub(t, d)) && Count(Sub(g, d)) == Count(Sub(t, d)) - 1
    ensures Path(g, [d] + xs) && Short(g, [d] + xs)
    ensures RecHeight(g, [d] + xs) == Height(t) && Count(g) == Count(t) - 1
  {
    ShortCons(g, d, xs);
    AvlRoot(t, d);
    assert Count(g) == Count(Sub(g, d)) + 1 + Count(Sub(g, !d));
  }

  lemma AvlRoot(t: Tree, d: bool)
    requires t.N?
    ensures Avl(t) <==> Avl(Sub(t, d)) && CountsAs(t, d, Height(Sub(t, d)))
    ensures Height(t) == Over(Height(Sub(t, d)), Height(Sub(t, !d)))
    ensures Count(t) == Count(Sub(t, d)) + 1 + Count(Sub(t, !d))
  {
  }

  /** One step of the repair: the subtree at `ds` has been made an AVL tree again.
      If it is back at its old height the whole tree is repaired, and if it is one
      level lower the shortage has moved up to `ds`. */
  lemma {:induction false} ShortRepair(t: Tree, ds: seq<bool>, es: seq<bool>, v: Tree)
    requires Path(t, ds + es) && Short(t, ds + es)
    requires Path(t, ds) && Path(At(t, ds), es)
    requires Avl(v) && Count(v) == Count(At(t, ds))
    requires Height(v) == RecHeight(At(t, ds), es) || Height(v) + 1 == RecHeight(At(t, ds), es)
    ensures var g := Graft(t, ds, v, 0);
            && Path(g, ds) && Count(g) == Count(t)
            && (Height(v) == RecHeight(At(t, ds), es) ==> Avl(g) && Height(g) == RecHeight(t, ds + es))
            && (Height(v) + 1 == RecHeight(At(t, ds), es) ==> Short(g, ds) && RecHeight(g, ds) == RecHeight(t, ds + es))
    decreases |ds|
  {
    hide Short, RecHeight, Avl, Height, Count, Graft, At, Path, CountsAs;
    if ds == [] {
      GraftHere(t, v, 0);
      ShortHere(v);
      assert ds + es == es;
    } else {
      var d := ds[0];
      assert ds + es == [d] + (ds[1..] + es) && ds == [d] + ds[1..];
      assert (ds + es)[1..] == ds[1..] + es;
      GraftUnder(t, ds, v, 0);
      PathCons(t, d, ds[1..] + es);
      ShortCons(t, d, ds[1..] + es);
      ShortRepair(Sub(t, d), ds[1..], es, v);
      RepairAbove(t, d, ds[1..] + es, Graft(t, ds, v, 0), ds[1..]);
    }
  }

  lemma PathCons(t: Tree, d: bool, ds: seq<bool>)
    requires t.N?
    ensures Path(t, [d] + ds) <==> Path(Sub(t, d), ds)
  {
    assert ([d] + ds)[1..] == ds;
  }

  lemma ShortHere(v: Tree)
    ensures Path(v, []) && (Short(v, []) <==> Avl(v)) && RecHeight(v, []) == Height(v) + 1
  {
  }

  lemma RepairAbove(t: Tree, d: bool, xs: seq<bool>, g: Tree, ds: seq<bool>)
    requires t.N? && Path(Sub(t, d), xs) && CountsAs(t, d, RecHeight(Sub(t, d), xs))
    requires g.N? && g.s == t.s && g.b == t.b && Sub(g, !d) == Sub(t, !d)
    requires Count(Sub(g, d)) == Count(Sub(t, d)) && Path(Sub(g, d), ds)
    ensures Path(g, [d] + ds) && Path(t, [d] + xs) && Count(g) == Count(t)
    ensures Avl(Sub(g, d)) && Height(Sub(g, d)) == RecHeight(Sub(t, d), xs) ==>
              Avl(g) && Height(g) == RecHeight(t, [d] + xs)
    ensures Short(Sub(g, d), ds) && RecHeight(Sub(g, d), ds) == RecHeight(Sub(t, d), xs) ==>
              Short(g, [d] + ds) && RecHeight(g, [d] + ds) == RecHeight(t, [d] + xs)
  {
    ShortCons(t, d, xs);
    ShortCons(g, d, ds);
    AvlRoot(g, d);
    AvlRoot(t, d);
  }

  /** The node above a short subtree, after its balance has been corrected. */
  ghost function Corrected(v: Tree, d: bool): (u: Tree)
    requires v.N?
    ensures u.N?
  {
    v.(b := v.b - Lean(d))
  }

  /** The children a rotation at `u` towards `d` needs are there. */
  ghost predicate Repairable(u: Tree, d: bool)
    requires u.N?
  {
    u.b == -2 * Lean(d) ==> Sub(u, !d).N? && (Sub(u, !d).b == Lean(d) ==> Sub(Sub(u, !d), d).N?)
  }

  /** What the repair loop of `kavl_erase` makes of a node with corrected balance. */
  ghost function Repair(u: Tree, d: bool): Tree
    requires u.N?
  {
    if u.b != -2 * Lean(d) || !Repairable(u, d) then u
    else if Sub(u, !d).b == Lean(d) then Rot2(u, d)
    else if Sub(u, !d).b == 0 then SetBalances(Rot1(u, d), d, Lean(d), -Lean(d))
    else SetBalances(Rot1(u, d), d, 0, 0)
  }

  /** Whether the loop stops after this node. */
  ghost predicate Stops(u: Tree, d: bool)
    requires u.N?
  {
    u.b == -Lean(d) || (u.b == -2 * Lean(d) && Sub(u, !d).N? && Sub(u, !d).b == 0)
  }

  lemma RepairAvl(v: Tree, d: bool)
    requires v.N? && Path(v, [d]) && Short(v, [d])
    ensures var u := Corrected(v, d);
            && Repairable(u, d)
            && Avl(Repair(u, d)) && Count(Repair(u, d)) == Count(v)
            && Height(Repair(u, d)) + (if Stops(u, d) then 0 else 1) == RecHeight(v, [d])
  {
    assert [d][1..] == [];
    assert RecHeight(Sub(v, d), []) == Height(Sub(v, d)) + 1;
    var u := Corrected(v, d);
    assert Avl(Sub(u, d)) && Avl(Sub(u, !d));
    if u.b == -2 * Lean(d) {
      assert Height(Sub(u, !d)) == Height(Sub(u, d)) + 2 && u.s == Count(u) == Count(v) && Height(u) == RecHeight(v, [d]);
      assert Sub(u, !d).N? && -1 <= Sub(u, !d).b <= 1;
      hide Avl, Count, Height, RecHeight, Short;
      if Sub(u, !d).b == Lean(d) { Rot2Avl(u, d); } else { Rot1Avl(u, d); }
    }
  }

  lemma RepairNodes(u: Tree, d: bool)
    requires u.N? && Repairable(u, d)
    ensures Nodes(Repair(u, d)) == Nodes(u) && Objs(Repair(u, d)) == Objs(u)
    ensures Distinct(u) ==> Distinct(Repair(u, d))
  {
    if u.b == -2 * Lean(d) {
      if Sub(u, !d).b == Lean(d) {
        Rot2Nodes(u, d);
      } else {
        Rot1Nodes(u, d);
        var w := Rot1(u, d);
        var w' := Repair(u, d);
        SameShape(Sub(w, d), Sub(w', d));
        SameShape(w, w');
      }
    }
  }

  /** The tree after the node at `ws` has been repaired. */
  ghost function RepairedAt(t: Tree, ws: seq<bool>, d: bool): Tree
    requires Path(t, ws) && At(t, ws).N?
  {
    Graft(t, ws, Repair(Corrected(At(t, ws), d), d), 0)
  }

  /** One step of the repair loop keeps the nodes; it ends the shortage or moves it up. */
  lemma RepairedCorrect(t: Tree, ws: seq<bool>, d: bool)
    requires Path(t, ws + [d]) && Short(t, ws + [d]) && Path(t, ws) && At(t, ws).N?
    ensures var t' := RepairedAt(t, ws, d);
            && Nodes(t') == Nodes(t) && Path(t', ws)
            && (if Stops(Corrected(At(t, ws), d), d) then Avl(t') else Short(t', ws))
    ensures Distinct(t) ==> Distinct(RepairedAt(t, ws, d)) && Objs(RepairedAt(t, ws, d)) == Objs(t)
  {
    var v := At(t, ws);
    var u := Corrected(v, d);
    var w := Repair(u, d);
    ShortAt(t, ws, [d]);
    RepairAvl(v, d);
    SameShape(v, u);
    hide Short, Repair, RecHeight, Avl, Path, Count, Nodes, Height, At, Graft, Distinct, Objs, Repairable, Corrected;
    RepairNodes(u, d);
    ShortRepair(t, ws, [d], w);
    NodesGraft(t, ws, w, 0);
    NodesSplit(t, ws);
    if Distinct(t) {
      AtObjs(t, ws);
      GraftDistinct(t, ws, w, 0);
    }
  }

  // ----- erasure: taking a node out

  /** The way to the first node of a tree. */
  ghost function LeftPath(t: Tree): seq<bool>
    requires t.N?
  {
    if t.l.Nil? then [] else [false] + LeftPath(t.l)
  }

  lemma {:induction false} LeftPathEnds(t: Tree)
    requires t.N?
    ensures var zs := LeftPath(t);
            && Path(t, zs) && At(t, zs).N? && At(t, zs).l.Nil?
            && Before(t, zs) == []
            && Nodes(t) == [At(t, zs).o] + Nodes(At(t, zs).r) + After(t, zs)
            && (forall i :: 0 <= i < |zs| ==> !zs[i])
  {
    if t.l.N? {
      LeftPathEnds(t.l);
      assert ([false] + LeftPath(t.l))[1..] == LeftPath(t.l);
    }
    NodesSplit(t, LeftPath(t));
  }

  /** The tree that takes the place of `v` when its root node is taken out: the left
      subtree if there is no right one, otherwise the successor moved to the root. */
  ghost function Unlinked(v: Tree): Tree
    requires v.N?
  {
    if v.r.Nil? then v.l
    else
      LeftPathEnds(v.r);
      var zs := LeftPath(v.r);
      var r := At(v.r, zs);
      N(r.o, v.b, v.s - 1, v.l, Graft(v.r, zs, r.r, -1))
  }

  /** The path in `Unlinked(v)` to the place that lost a level. */
  ghost function UnlinkedPath(v: Tree): seq<bool>
    requires v.N?
  {
    if v.r.Nil? then [] else [true] + LeftPath(v.r)
  }

  lemma UnlinkedShort(v: Tree)
    requires v.N? && Avl(v)
    ensures var w, es := Unlinked(v), UnlinkedPath(v);
            && Path(w, es) && Short(w, es)
            && RecHeight(w, es) == Height(v) && Count(w) == Count(v) - 1
  {
    if v.r.N? {
      var zs, w := LeftPath(v.r), Unlinked(v);
      LeftPathEnds(v.r);
      var r := At(v.r, zs);
      AtAvl(v.r, zs);
      assert Height(r) == Height(r.r) + 1 && Count(r) == Count(r.r) + 1 && Avl(r.r);
      AvlRoot(v, true);
      assert w.N? && w.b == v.b && w.s == v.s - 1 && w.l == v.l && w.r == Graft(v.r, zs, r.r, -1);
      assert RecHeight(r.r, []) == Height(r.r) + 1 && Short(r.r, []);
      hide Avl, Height, Count, Graft, At, LeftPath, Path, Short, RecHeight, Unlinked;
      GraftShort(v.r, zs, r.r, [], zs);
      ShortAbove(v, true, w, zs);
    }
  }

  lemma UnlinkedNodes(v: Tree)
    requires v.N?
    ensures Nodes(Unlinked(v)) == Nodes(v.l) + Nodes(v.r)
  {
    if v.r.N? {
      var zs, w := LeftPath(v.r), Unlinked(v);
      LeftPathEnds(v.r);
      var r := At(v.r, zs);
      assert w.N? && w.o == r.o && w.l == v.l && w.r == Graft(v.r, zs, r.r, -1);
      assert Nodes(w) == Nodes(w.l) + [w.o] + Nodes(w.r);
      hide Nodes, Graft, At, Path, LeftPath, Unlinked, Before, After;
      NodesGraft(v.r, zs, r.r, -1);
      Prepended(Nodes(v.l), r.o, Nodes(r.r), After(v.r, zs));
    }
  }

  lemma Prepended<X>(a: seq<X>, o: X, b: seq<X>, c: seq<X>)
    ensures a + [o] + ([] + b + c) == a + ([o] + b + c)
  {
  }

  lemma UnlinkedDistinct(v: Tree)
    requires v.N? && Distinct(v)
    ensures Distinct(Unlinked(v)) && Objs(Unlinked(v)) == Objs(v) - {v.o}
  {
    if v.r.N? {
      var zs := LeftPath(v.r);
      LeftPathEnds(v.r);
      var r := At(v.r, zs);
      AtObjs(v.r, zs);
      assert Objs(r) == {r.o} + Objs(r.r) && r.o !in Objs(r.r);
      GraftDistinct(v.r, zs, r.r, -1);
      RootDistinct(v, Unlinked(v));
    }
  }

  lemma RootDistinct(v: Tree, w: Tree)
    requires v.N? && w.N? && Distinct(v) && w.l == v.l && Distinct(w.r)
    requires w.o in Objs(v.r) && Objs(w.r) == Objs(v.r) - {w.o}
    ensures Distinct(w) && Objs(w) == Objs(v) - {v.o}
  {
  }

  // ----- the stack variable above the root

  /** The tree hung below the local variable `fake` of `kavl_erase`. */
  ghost function Hung(fake: Ptr, t: Tree): Tree { N(fake, 0, 0, t, Nil) }

  lemma HungPath(fake: Ptr, t: Tree, ds: seq<bool>)
    requires Path(t, ds)
    ensures Path(Hung(fake, t), [false] + ds) && At(Hung(fake, t), [false] + ds) == At(t, ds)
    ensures forall u :: Graft(Hung(fake, t), [false] + ds, u, 0) == Hung(fake, Graft(t, ds, u, 0))
  {
    assert ([false] + ds)[1..] == ds;
  }

  lemma HungDistinct(fake: Ptr, t: Tree)
    ensures Distinct(Hung(fake, t)) <==> Distinct(t) && fake !in Objs(t)
    ensures Objs(Hung(fake, t)) == Objs(t) + {fake}
  {
  }
}
