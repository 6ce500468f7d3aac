/**
  `mpool.c` for CMP_BITS and CMP_HOST pools: an index of prefixes kept in a kavl tree whose comparator
  treats a key and the keys it covers as equal. For bit strings these are their extensions, for host
  names the names below them.
*/
module Mpool {
  import opened BitKeys
  import opened KavlTree
  import opened KavlNodes
  import opened HostKeys

  /** `struct elem`, with its `cmp_type`. */
  datatype Key = BitsKey(bits: BitKey) | HostKey(name: Name)

  type Elems = map<Ptr, Key>

  /** The `len` of an element, in bits or in characters. */
  function Len(k: Key): (n: nat) {
    match k case BitsKey(b) => b.len case HostKey(n) => |n|
  }

  /** `scmp`, within one pool. */
  function Compare(signed: bool, p: Key, q: Key): int {
    if p.BitsKey? && q.BitsKey? then BitCmp(signed, p.bits, q.bits)
    else if p.HostKey? && q.HostKey? then HostCmp(signed, p.name, q.name)
    else 0
  }

  function Scmp(signed: bool): Cmp<Key> { (p: Key, q: Key) => Compare(signed, p, q) }

  ghost predicate SameKind(p: Key, q: Key) { p.HostKey? == q.HostKey? }

  /** One code is a prefix of the other. */
  ghost predicate Akin<T(!new)>(a: seq<T>, b: seq<T>) { a <= b || b <= a }

  /** What is compared: the bits of a bit string; a name from its end, closed with a dot. A key covers another
      one exactly if its code is a prefix of the other's. */
  ghost function Code(k: Key): (s: seq<int>)
    ensures |s| == Len(k) + if k.HostKey? then 1 else 0
  {
    match k
    case BitsKey(b) => seq(b.len, i requires 0 <= i < b.len => if Bits(b)[i] then 1 else 0)
    case HostKey(n) => NameCode(n)
  }

  ghost function NameCode(n: Name): (s: seq<int>)
    ensures |s| == |n| + 1
  {
    if n == [] then [DOT as int] else [n[|n| - 1] as int] + NameCode(n[..|n| - 1])
  }

  /** A name is another one, or above it, exactly if its code is a prefix of the other's. */
  lemma {:induction false} UnderCode(p: Name, q: Name)
    ensures Under(p, q) <==> NameCode(p) <= NameCode(q)
  {
    if p != [] && q != [] {
      var p', q' := p[..|p| - 1], q[..|q| - 1];
      assert p == p' + [p[|p| - 1]] && q == q' + [q[|q| - 1]];
      CodeCons(p[|p| - 1] as int, NameCode(p'), q[|q| - 1] as int, NameCode(q'));
      if p[|p| - 1] == q[|q| - 1] {
        UnderCode(p', q');
        UnderSnoc(p', q', p[|p| - 1]);
      } else if |p| <= |q| {
        assert q[|q| - |p|..][|p| - 1] == q[|q| - 1];
      }
    } else if p == [] {
      assert q[|q|..] == [];
      assert NameCode(p) == [DOT as int];
      if q != [] {
        var c := [q[|q| - 1] as int] + NameCode(q[..|q| - 1]);
        assert NameCode(q) == c && c[0] == q[|q| - 1] as int;
        if q[|q| - 1] == DOT { assert c == NameCode(p) + c[1..]; }
      }
    }
  }

  lemma CodeCons(a: int, s: seq<int>, b: int, t: seq<int>)
    ensures [a] + s <= [b] + t <==> a == b && s <= t
  {
    assert ([a] + s)[0] == a && ([b] + t)[0] == b && ([a] + s)[1..] == s && ([b] + t)[1..] == t;
    if a == b && s <= t {
      assert [b] + t == [a] + s + t[|s|..];
    }
    if [a] + s <= [b] + t {
      assert s == ([b] + t)[..|s| + 1][1..] == t[..|s|];
    }
  }

  lemma BitsCode(p: BitKey, q: BitKey)
    ensures Bits(p) <= Bits(q) <==> Code(BitsKey(p)) <= Code(BitsKey(q))
  {
    var a, b, c, d := Bits(p), Bits(q), Code(BitsKey(p)), Code(BitsKey(q));
    hide Bits;
    if c <= d {
      forall i | 0 <= i < |a| ensures a[i] == b[i] { assert c[i] == d[i]; }
    }
    if a <= b {
      forall i | 0 <= i < |c| ensures c[i] == d[i] { assert a[i] == b[i]; }
    }
  }

  /** Keys compare equal exactly if one covers the other. */
  lemma CompareZero(signed: bool, p: Key, q: Key)
    requires SameKind(p, q)
    ensures Compare(signed, p, q) == 0 <==> Akin(Code(p), Code(q))
  {
    hide Code, HostCmp, BitCmp, Bits;
    if p.HostKey? {
      HostZero(signed, p.name, q.name);
      UnderCode(p.name, q.name);
      UnderCode(q.name, p.name);
      CodeIs(p);
      CodeIs(q);
    } else {
      BitCmpIsLex(signed, p.bits, q.bits);
      LexZero(Bits(p.bits), Bits(q.bits));
      BitsCode(p.bits, q.bits);
      BitsCode(q.bits, p.bits);
    }
  }

  lemma CodeIs(k: Key)
    ensures k.HostKey? ==> Code(k) == NameCode(k.name)
  {
  }

  lemma CompareFlip(signed: bool, p: Key, q: Key)
    ensures Compare(signed, q, p) == -Compare(signed, p, q)
  {
    hide HostCmp, BitCmp, Bits;
    if p.BitsKey? && q.BitsKey? {
      BitCmpIsLex(signed, p.bits, q.bits);
      BitCmpIsLex(signed, q.bits, p.bits);
      LexFlip(Bits(p.bits), Bits(q.bits));
    } else if p.HostKey? && q.HostKey? {
      HostFlip(signed, p.name, q.name);
    }
  }

  /** Whether two keys can be in one pool: bit strings always, names if they do not clash. */
  ghost predicate Agree(signed: bool, a: Key, b: Key) {
    SameKind(a, b) && (a.HostKey? ==> !Clash(signed, a.name, b.name) && !Clash(signed, b.name, a.name))
  }

  lemma CompareGuides(signed: bool, x: Key, a: Key, b: Key)
    requires SameKind(x, a) && Agree(signed, a, b) && Compare(signed, a, b) < 0
    ensures Compare(signed, x, a) <= 0 ==> Compare(signed, x, b) <= 0
    ensures Compare(signed, x, a) < 0 ==> Compare(signed, x, b) < 0
  {
    hide HostCmp, BitCmp, Bits, Clash;
    if x.HostKey? {
      NoClashGuides(signed, x.name, a.name, b.name);
    } else {
      BitCmpIsLex(signed, a.bits, b.bits);
      BitCmpIsLex(signed, x.bits, a.bits);
      BitCmpIsLex(signed, x.bits, b.bits);
      LexGuides(Bits(x.bits), Bits(a.bits), Bits(b.bits));
    }
  }

  /** The elements in the order of the tree, each strictly below the next. */
  ghost predicate Ordered(signed: bool, key: Elems, ns: seq<Ptr>) {
    && (forall i :: 0 <= i < |ns| ==> ns[i] in key)
    && forall i, j :: 0 <= i < j < |ns| ==> Compare(signed, key[ns[i]], key[ns[j]]) < 0
  }

  /** All keys can be in one pool. */
  ghost predicate Agreeing(signed: bool, key: Elems) {
    forall p, q :: p in key && q in key ==> Agree(signed, key[p], key[q])
  }

  /** `x` can be added to them. */
  ghost predicate Joins(signed: bool, key: Elems, x: Key) {
    forall p :: p in key ==> Agree(signed, x, key[p])
  }

  ghost predicate OfKind(host: bool, key: Elems) { forall p :: p in key ==> key[p].HostKey? == host }

  lemma OrderedGuides(signed: bool, key: Elems, ns: seq<Ptr>, x: Key)
    requires Ordered(signed, key, ns) && Agreeing(signed, key) && OfKind(x.HostKey?, key)
    ensures Guides(key, Scmp(signed), x, ns)
  {
    hide Compare, Agree;
    forall i, j | 0 <= i < j < |ns|
      ensures (Compare(signed, x, key[ns[i]]) <= 0 ==> Compare(signed, x, key[ns[j]]) <= 0)
           && (Compare(signed, x, key[ns[i]]) < 0 ==> Compare(signed, x, key[ns[j]]) < 0)
    {
      CompareGuides(signed, x, key[ns[i]], key[ns[j]]);
    }
  }

  lemma OrderedInsert(signed: bool, key: Elems, ns: seq<Ptr>, e: Ptr, k: int)
    requires Ordered(signed, key, ns) && e in key && Splits(key, Scmp(signed), key[e], ns, k)
    ensures Ordered(signed, key, ns[..k] + [e] + ns[k..])
  {
    hide Compare;
    var x := key[e];
    var ms := ns[..k] + [e] + ns[k..];
    forall i | 0 <= i < |ns| ensures if i < k then Compare(signed, key[ns[i]], x) < 0 else Compare(signed, x, key[ns[i]]) < 0 {
      CompareFlip(signed, x, key[ns[i]]);
    }
    forall i, j | 0 <= i < j < |ms| ensures Compare(signed, key[ms[i]], key[ms[j]]) < 0 {
      assert ms[i] == if i < k then ns[i] else if i == k then e else ns[i - 1];
      assert ms[j] == if j < k then ns[j] else if j == k then e else ns[j - 1];
    }
  }

  lemma OrderedRemove(signed: bool, key: Elems, ns: seq<Ptr>, k: nat)
    requires Ordered(signed, key, ns) && k < |ns|
    ensures Ordered(signed, key, ns[..k] + ns[k + 1..])
  {
    hide Compare;
    var ms := ns[..k] + ns[k + 1..];
    forall i, j | 0 <= i < j < |ms| ensures Compare(signed, key[ms[i]], key[ms[j]]) < 0 {
      assert ms[i] == if i < k then ns[i] else ns[i + 1];
      assert ms[j] == if j < k then ns[j] else ns[j + 1];
    }
  }

  /** No stored key covers another one. */
  ghost predicate PrefixFree(key: Elems) {
    forall p, q :: p in key && q in key && p != q ==> !Akin(Code(key[p]), Code(key[q]))
  }

  lemma OrderedPair(signed: bool, key: Elems, ns: seq<Ptr>, i: nat, j: nat)
    requires Ordered(signed, key, ns) && Agreeing(signed, key) && i < |ns| && j < |ns| && i != j
    ensures !Akin(Code(key[ns[i]]), Code(key[ns[j]]))
  {
    var a, b := key[ns[i]], key[ns[j]];
    assert Agree(signed, a, b) && if i < j then Compare(signed, a, b) < 0 else Compare(signed, b, a) < 0;
    hide Compare, Code, Akin, Clash;
    CompareZero(signed, a, b);
    CompareFlip(signed, a, b);
  }

  lemma OrderedPrefixFree(signed: bool, key: Elems, ns: seq<Ptr>)
    requires Ordered(signed, key, ns) && Agreeing(signed, key) && forall p :: p in key ==> p in ns
    ensures PrefixFree(key)
  {
    hide Akin, Code, Ordered, Agreeing;
    forall p, q | p in key && q in key && p != q ensures !Akin(Code(key[p]), Code(key[q])) {
      var i :| 0 <= i < |ns| && ns[i] == p;
      var j :| 0 <= j < |ns| && ns[j] == q;
      OrderedPair(signed, key, ns, i, j);
    }
  }

  lemma SameKeys(signed: bool, key: Elems, key': Elems, ns: seq<Ptr>)
    requires Ordered(signed, key, ns) && forall i :: 0 <= i < |ns| ==> ns[i] in key' && key'[ns[i]] == key[ns[i]]
    ensures Ordered(signed, key', ns)
  {
    hide Compare;
  }

  /** What a linear scan for `x` would find. */
  ghost predicate Matches(key: Elems, x: Key, p: Ptr) { p in key && Akin(Code(x), Code(key[p])) }

  lemma MatchAt(signed: bool, key: Elems, x: Key, p: Ptr)
    requires p in key && OfKind(x.HostKey?, key)
    ensures Scmp(signed)(x, key[p]) == 0 <==> Matches(key, x, p)
  {
    CompareZero(signed, x, key[p]);
  }

  lemma NoMatch(signed: bool, key: Elems, x: Key, ns: seq<Ptr>, k: int)
    requires OfKind(x.HostKey?, key) && Splits(key, Scmp(signed), x, ns, k)
    ensures 0 <= k <= |ns| && forall p :: p in ns && p in key ==> !Matches(key, x, p)
  {
    forall p | p in ns && p in key ensures !Matches(key, x, p) {
      var i :| 0 <= i < |ns| && ns[i] == p;
      MatchAt(signed, key, x, p);
    }
  }

  /** `struct mphdr` with the elements it owns. */
  class Mphdr {
    const signed: bool        // whether plain `char` is signed
    const host: bool          // whether `cmp_type` is CMP_HOST or CMP_BITS
    var count: nat
    var root: Ptr
    var key: Elems            // len and data of every allocated element
    var head: Heads           // the tree heads embedded in them
    ghost var tree: Tree

    /** Every element except those in `loose` (allocated, not linked yet) is in the tree. */
    ghost predicate Holds(loose: set<Ptr>)
      reads this
    {
      && Rep(head, root, tree) && Avl(tree) && Distinct(tree) && FAKE !in head
      && Objs(tree) == key.Keys - loose && loose <= key.Keys && NULL !in key && FAKE !in key
      && count == Count(tree) < 0x1_0000_0000
      && Ordered(signed, key, Nodes(tree)) && Agreeing(signed, key) && OfKind(host, key)
    }

    /** `e` has just been linked and is not counted yet; nothing else matches its key. */
    ghost predicate Linked(e: Ptr)
      reads this
    {
      && Rep(head, root, tree) && Avl(tree) && Distinct(tree) && FAKE !in head && NULL !in key && FAKE !in key
      && Objs(tree) == key.Keys && Count(tree) == count + 1 && Ordered(signed, key, Nodes(tree)) && Agreeing(signed, key) && OfKind(host, key)
      && e in key && forall p :: p in key && p != e ==> !Matches(key, key[e], p)
    }

    ghost predicate Valid()
      reads this
    {
      Holds({})
    }

    /** `mem_pool` */
    constructor (signed: bool, host: bool)
      ensures Valid() && key == map[] && this.signed == signed && this.host == host
    {
      this.signed, this.host := signed, host;
      count, root, key, head := 0, NULL, map[], map[];
      tree := Nil;
    }

    /** `mem_get`: finds an element exactly when a linear scan would find one. */
    method Get(x: Key) returns (p: Ptr)
      requires Valid() && x.HostKey? == host
      ensures p == NULL <==> forall q :: q in key ==> !Matches(key, x, q)
      ensures p != NULL ==> Matches(key, x, p)
    {
      hide Rep, Avl, Distinct, Nodes, Ordered, Splits, Guides, Akin, Agreeing, OfKind, Code;
      OrderedGuides(signed, key, Nodes(tree), x);
      NodesObjs(tree);
      var cnt;
      p, cnt := Find(key, head, root, x, Scmp(signed), tree);
      if p == NULL {
        NoMatch(signed, key, x, Nodes(tree), cnt);
      } else {
        MatchAt(signed, key, x, p);
      }
    }

    /** `check_host`, once the name is known: a hit counts only if it is not longer. That is so exactly if a
        stored name is the one asked for or above it; a hit below it never hides one above it. */
    method CheckHost(x: Name) returns (r: bool)
      requires Valid() && host
      ensures r <==> x != [] && exists q :: q in key && key[q].HostKey? && Under(key[q].name, x)
      ensures r <==> x != [] && Covers(key, Code(HostKey(x)))
    {
      if x == [] {
        return false;
      }
      hide Akin, Code, Under, PrefixFree, Rep, Avl, Distinct, Nodes, Ordered, Agreeing;
      ghost var k := HostKey(x);
      PoolPrefixFree(signed, key, tree);
      CoversUnder(key, x);
      var p := Get(HostKey(x));
      if p == NULL {
        NoCover(key, k);
        return false;
      }
      CoverHit(key, k, p);
      r := Len(key[p]) <= |x|;
    }

    /** `mem_delete` while the elements in `loose` are not linked. */
    method DeleteAmong(x: Key, ghost loose: set<Ptr>)
      requires Holds(loose) && x.HostKey? == host
      modifies this
      ensures Holds(loose) && count <= old(count)
      ensures if forall q :: q in old(key) && q !in loose ==> !Matches(old(key), x, q)
              then key == old(key)
              else exists e :: e !in loose && Matches(old(key), x, e) && key == old(key) - {e}
    {
      hide Rep, Avl, Distinct, Nodes, Objs, Splits, Guides, Akin, SameOutside, Matches, Ordered, Count, Agreeing, OfKind, Code;
      ghost var ns := Nodes(tree);
      OrderedGuides(signed, key, ns, x);
      NodesObjs(tree);
      var h', root', e, cnt;
      ghost var t';
      h', root', e, cnt, t' := Erase(key, head, root, x, Scmp(signed), tree);
      if e == NULL {
        ghost var k :| Splits(key, Scmp(signed), x, ns, k);
        NoMatch(signed, key, x, ns, k);
        return;
      }
      MatchAt(signed, key, x, e);
      EraseCount(tree, t', cnt - 1);
      OrderedRemove(signed, key, ns, cnt - 1);
      FreedRep(h', root', t', e);
      FreedOrdered(signed, key, t', e);
      head, root, tree := h', root', t';
      // destroy_elem
      FewerAgree(signed, host, key, e);
      key := key - {e};
      head := head - {e};
      count := count - 1;
    }

    /** Links `e`, or finds an element that compares equal to it. */
    method Link(e: Ptr) returns (v: Ptr)
      requires Holds({e}) && count + 1 < 0x1_0000_0000
      modifies this
      ensures key == old(key) && v in key && e in key && count == old(count) && key[v].HostKey? == host
      ensures v != e ==> Holds({e}) && Matches(key, key[e], v)
      ensures v == e ==> Linked(e)
    {
      hide Rep, Avl, Distinct, Nodes, Splits, Guides, Akin, SameOutside, Matches, Ordered, Count, Agreeing, OfKind, Code;
      ghost var ns := Nodes(tree);
      KindAt(host, key);
      OrderedGuides(signed, key, ns, key[e]);
      NodesObjs(tree);
      var cnt;
      var h', root';
      ghost var t';
      h', root', v, cnt, t' := Insert(key, head, root, e, Scmp(signed), tree);
      if v == e {
        NoMatch(signed, key, key[e], ns, cnt);
        OrderedInsert(signed, key, ns, e, cnt);
        InsertCount(tree, t', e, cnt);
        RepNull(h', root', t');
      } else {
        MatchAt(signed, key, key[e], v);
      }
      head, root, tree := h', root', t';
    }

    /** `mem_add`; `cell` is what `calloc` returned for the new element. A name must not clash with a
        stored one. */
    method Add(x: Key, cell: Ptr) returns (r: Ptr)
      requires Valid() && count + 1 < 0x1_0000_0000 && x.HostKey? == host && Joins(signed, key, x)
      requires cell == NULL || (cell != FAKE && cell !in key)
      modifies this
      ensures Valid()
      ensures cell == NULL ==> r == NULL && key == old(key)
      ensures cell != NULL ==> Added(old(key), x, cell, key, r)
    {
      if cell == NULL {
        r := NULL;
        return;
      }
      ghost var was := key;
      var e := cell;
      Allocate(e, x);
      hide Holds, Linked, Adding, PrefixFree, Matches, Covered, Kept;
      r := MakeRoom(e, was);
      if e != r {
        AddingCovered(was, key, x, e, r);
        Destroy(e);
      } else {
        CountIn(e);
        AddingDone(was, key, x, e);
      }
    }

    /** Links `e`, deleting every longer element that is in its way. */
    method MakeRoom(e: Ptr, ghost was: Elems) returns (r: Ptr)
      requires Holds({e}) && e in key && count + 1 < 0x1_0000_0000 && Adding(was, key, key[e], e) && PrefixFree(was)
      modifies this
      ensures e in key && r in key && key[e] == old(key[e]) && Adding(was, key, key[e], e)
      ensures e == r ==> Linked(e) && count + 1 < 0x1_0000_0000
      ensures e != r ==> Holds({e}) && Matches(key, key[e], r) && !(Len(key[e]) < Len(key[r]))
    {
      hide Holds, Linked, Adding, PrefixFree, Matches;
      ghost var x := key[e];
      r := Link(e);
      while e != r && Len(key[e]) < Len(key[r])
        invariant r in key && e in key && key[r].HostKey? == host && key[e] == x && count + 1 < 0x1_0000_0000
        invariant Adding(was, key, x, e)
        invariant if e == r then Linked(e) else Holds({e}) && Matches(key, x, r)
        decreases |key|
      {
        OnlyItself(was, key, x, e, r);
        AddingDrop(was, key, x, e, r);
        ghost var before, gone := key, r;
        DeleteAmong(key[r], {e});
        assert key == before - {gone};
        r := Link(e);
      }
    }

    /** The new element, filled in but not linked. */
    method Allocate(e: Ptr, x: Key)
      requires Valid() && e != NULL && e != FAKE && e !in key && x.HostKey? == host && Joins(signed, key, x)
      modifies this`key
      ensures Holds({e}) && e in key && key == old(key)[e := x] && Adding(old(key), key, x, e) && PrefixFree(old(key))
    {
      PoolPrefixFree(signed, key, tree);
      JoinedAgree(signed, key, x, e);
      key := key[e := x];
      LooseOrdered(signed, old(key), key, tree, e);
    }

    /** `destroy_elem` of an element that is not linked. */
    method Destroy(e: Ptr)
      requires Holds({e})
      modifies this`key, this`head
      ensures Valid() && key == old(key) - {e}
    {
      FreedRep(head, root, tree, e);
      FreedOrdered(signed, key, tree, e);
      FewerAgree(signed, host, key, e);
      key := key - {e};
      head := head - {e};
    }

    method CountIn(e: Ptr)
      requires Linked(e) && count + 1 < 0x1_0000_0000
      modifies this`count
      ensures Valid() && e in key && forall p :: p in key && p != e ==> !Matches(key, key[e], p)
    {
      count := count + 1;
    }

    /** `mem_delete`: takes out one element that a linear scan would find, if there is one. */
    method Delete(x: Key)
      requires Valid() && x.HostKey? == host
      modifies this
      ensures Valid()
      ensures if forall q :: q in old(key) ==> !Matches(old(key), x, q)
              then key == old(key)
              else exists e :: Matches(old(key), x, e) && key == old(key) - {e}
    {
      DeleteAmong(x, {});
    }
  }

  /** `x` properly covers `y`. */
  ghost predicate Shorter(x: Key, y: Key) { Code(x) <= Code(y) && |Code(x)| < |Code(y)| }

  /** The elements `mem_add` keeps: those that `x` does not properly cover. */
  ghost function Kept(key: Elems, x: Key): Elems {
    map p | p in key && !Shorter(x, key[p]) :: key[p]
  }

  /** Some stored key covers `x`. */
  ghost predicate Covered(key: Elems, x: Key) { exists p :: p in key && Code(key[p]) <= Code(x) }

  /** What `mem_add` does to a pool whose keys are prefix-free. */
  ghost predicate Added(key: Elems, x: Key, e: Ptr, key': Elems, r: Ptr) {
    if Covered(key, x) then key' == key && r in key && Code(key[r]) <= Code(x)
    else key' == Kept(key, x)[e := x] && r == e
  }

  /** Where the loop of `mem_add` stands: `key` is `was` with some keys that `x` covers
      gone and the element `e` for `x` itself added. */
  ghost predicate Adding(was: Elems, key: Elems, x: Key, e: Ptr) {
    && e !in was && e in key && key[e] == x && (forall p :: p in was ==> SameKind(x, was[p]))
    && (forall p :: p in key && p != e ==> p in was && key[p] == was[p])
    && (forall p :: p in was && p !in key ==> Shorter(x, was[p]))
  }

  lemma KindAt(host: bool, key: Elems)
    requires OfKind(host, key)
    ensures forall p :: p in key ==> key[p].HostKey? == host
  {
  }

  lemma JoinedAgree(signed: bool, key: Elems, x: Key, e: Ptr)
    requires Agreeing(signed, key) && Joins(signed, key, x)
    ensures Agreeing(signed, key[e := x])
  {
    if x.HostKey? { NoSelfClash(signed, x.name); }
    hide Clash;
  }

  lemma {:induction false} NoSelfClash(signed: bool, a: Name)
    ensures !Clash(signed, a, a)
  {
    if a != [] { NoSelfClash(signed, a[..|a| - 1]); }
  }

  lemma FewerAgree(signed: bool, host: bool, key: Elems, e: Ptr)
    requires Agreeing(signed, key) && OfKind(host, key)
    ensures Agreeing(signed, key - {e}) && OfKind(host, key - {e})
  {
    hide Agree;
  }

  /** Codes are as long as the keys say. */
  lemma CodeLen(x: Key, y: Key)
    requires SameKind(x, y)
    ensures Len(x) < Len(y) <==> |Code(x)| < |Code(y)|
  {
  }

  lemma AddingDone(was: Elems, key: Elems, x: Key, e: Ptr)
    requires Adding(was, key, x, e)
    requires forall p :: p in key && p != e ==> !Matches(key, x, p)
    ensures !Covered(was, x) && key == Kept(was, x)[e := x]
  {
    hide Code;
    forall p | p in was ensures !(Code(was[p]) <= Code(x)) && (p in key <==> !Shorter(x, was[p])) {
      if p in key { assert !Matches(key, x, p); }
      CodeLen(x, was[p]);
    }
    assert key == Kept(was, x)[e := x];
  }

  lemma AddingCovered(was: Elems, key: Elems, x: Key, e: Ptr, v: Ptr)
    requires Adding(was, key, x, e) && PrefixFree(was)
    requires v in key && v != e && Matches(key, x, v) && !(Len(x) < Len(key[v]))
    ensures Covered(was, x) && key - {e} == was && Code(was[v]) <= Code(x)
  {
    hide Code;
    assert v in was && SameKind(x, was[v]);
    CodeLen(x, was[v]);
    assert Code(was[v]) <= Code(x);
    forall p | p in was ensures p in key {
      if p !in key {
        assert v in was && v != p;
        PrefixTrans(Code(was[v]), Code(x), Code(was[p]));
      }
    }
  }

  lemma PrefixTrans(a: seq<int>, b: seq<int>, c: seq<int>)
    requires a <= b <= c
    ensures a <= c
  {
  }

  lemma InsertCount(t: Tree, t': Tree, e: Ptr, k: int)
    requires 0 <= k <= |Nodes(t)| && Nodes(t') == Nodes(t)[..k] + [e] + Nodes(t)[k..]
    ensures Count(t') == Count(t) + 1 && t'.N?
  {
    NodesCount(t);
    NodesCount(t');
  }

  lemma EraseCount(t: Tree, t': Tree, k: nat)
    requires k < |Nodes(t)| && Nodes(t') == Nodes(t)[..k] + Nodes(t)[k + 1..]
    ensures Count(t') == Count(t) - 1
  {
    NodesCount(t);
    NodesCount(t');
  }

  lemma FreedRep(h: Heads, root: Ptr, t: Tree, e: Ptr)
    requires Rep(h, root, t) && e !in Objs(t)
    ensures Rep(h - {e}, root, t)
  {
    RepFrame(h, h - {e}, root, t, {e});
  }

  lemma FreedOrdered(signed: bool, key: Elems, t: Tree, e: Ptr)
    requires Ordered(signed, key, Nodes(t)) && e !in Objs(t)
    ensures Ordered(signed, key - {e}, Nodes(t))
  {
    NodesObjs(t);
    forall i | 0 <= i < |Nodes(t)| ensures Nodes(t)[i] != e { assert Nodes(t)[i] in Nodes(t); }
    SameKeys(signed, key, key - {e}, Nodes(t));
  }

  /** The keys of a pool are prefix-free. */
  lemma PoolPrefixFree(signed: bool, key: Elems, t: Tree)
    requires Ordered(signed, key, Nodes(t)) && Agreeing(signed, key) && Objs(t) == key.Keys
    ensures PrefixFree(key)
  {
    NodesObjs(t);
    OrderedPrefixFree(signed, key, Nodes(t));
  }

  lemma LooseOrdered(signed: bool, key: Elems, key': Elems, t: Tree, e: Ptr)
    requires Ordered(signed, key, Nodes(t)) && e !in key && e in key' && key' == key[e := key'[e]]
    ensures Ordered(signed, key', Nodes(t))
  {
    SameKeys(signed, key, key', Nodes(t));
  }

  /** While `mem_add` runs, the element in its way is the only one its own key finds. */
  lemma OnlyItself(was: Elems, key: Elems, x: Key, e: Ptr, r: Ptr)
    requires Adding(was, key, x, e) && PrefixFree(was)
    requires r in key && r != e && Matches(key, x, r) && Len(x) < Len(key[r])
    ensures Matches(key, key[r], r) && forall p :: p != e && Matches(key, key[r], p) ==> p == r
  {
  }

  lemma AddingDrop(was: Elems, key: Elems, x: Key, e: Ptr, r: Ptr)
    requires Adding(was, key, x, e)
    requires r in key && r != e && Matches(key, x, r) && Len(x) < Len(key[r])
    ensures Adding(was, key - {r}, x, e) && |key - {r}| < |key|
  {
    assert (key - {r}).Keys == key.Keys - {r};
  }

  // ----- what runs of mem_add and mem_delete do

  /** Some stored key covers what has the code `s`. */
  ghost predicate Covers(key: Elems, s: seq<int>) { exists p :: p in key && Code(key[p]) <= s }

  lemma CoversUnder(key: Elems, x: Name)
    requires OfKind(true, key)
    ensures Covers(key, Code(HostKey(x))) <==> exists q :: q in key && key[q].HostKey? && Under(key[q].name, x)
  {
    hide Under, Code;
    CodeIs(HostKey(x));
    forall q | q in key ensures key[q].HostKey? && (Code(key[q]) <= Code(HostKey(x)) <==> Under(key[q].name, x)) {
      CodeIs(key[q]);
      UnderCode(key[q].name, x);
    }
  }

  lemma NoCover(key: Elems, x: Key)
    requires forall q :: q in key ==> !Matches(key, x, q)
    ensures !Covers(key, Code(x))
  {
    hide Code;
    assert forall q :: q in key ==> !(Code(key[q]) <= Code(x));
  }

  /** With no stored key covering another one, any hit tells whether there is one that covers the query. */
  lemma CoverHit(key: Elems, x: Key, p: Ptr)
    requires PrefixFree(key) && OfKind(x.HostKey?, key) && Matches(key, x, p)
    ensures Covers(key, Code(x)) <==> Len(key[p]) <= Len(x)
  {
    CodeLen(x, key[p]);
    CodeLen(key[p], x);
    hide Code;
    if Covers(key, Code(x)) {
      var q :| q in key && Code(key[q]) <= Code(x);
      if |Code(x)| < |Code(key[p])| {
        PrefixTrans(Code(key[q]), Code(x), Code(key[p]));
        assert false;
      }
    }
  }

  /** `mem_add` makes what is covered exactly what was and what the new key covers, and keeps the keys
      prefix-free. */
  lemma AddedCover(key: Elems, x: Key, e: Ptr, key': Elems, r: Ptr, s: seq<int>)
    requires PrefixFree(key) && e !in key && Added(key, x, e, key', r)
    ensures PrefixFree(key')
    ensures Covers(key', s) <==> Covers(key, s) || Code(x) <= s
    ensures r in key' && Code(key'[r]) <= Code(x)
  {
    hide Code;
    if Covered(key, x) {
      if Code(x) <= s { PrefixTrans(Code(key[r]), Code(x), s); }
    } else {
      AddedFree(key, x, e, key');
      if Covers(key, s) {
        var p :| p in key && Code(key[p]) <= s;
        if Shorter(x, key[p]) {
          PrefixTrans(Code(x), Code(key[p]), s);
        } else {
          assert p in key' && Code(key'[p]) <= s;
        }
      }
      if Code(x) <= s { assert e in key' && Code(key'[e]) <= s; }
    }
  }

  lemma AddedFree(key: Elems, x: Key, e: Ptr, key': Elems)
    requires PrefixFree(key) && e !in key && !Covered(key, x) && key' == Kept(key, x)[e := x]
    ensures PrefixFree(key')
  {
    hide Code;
    forall p, q | p in key' && q in key' && p != q ensures !Akin(Code(key'[p]), Code(key'[q])) {
      if p == e {
        assert q in key && !(Code(key[q]) <= Code(x)) && !Shorter(x, key[q]);
      } else if q == e {
        assert p in key && !(Code(key[p]) <= Code(x)) && !Shorter(x, key[p]);
      }
    }
  }

  datatype Op = AddOp(x: Key, e: Ptr, r: Ptr) | DeleteOp(x: Key)

  ghost predicate Step(key: Elems, op: Op, key': Elems) {
    match op
    case AddOp(x, e, r) => e !in key && Added(key, x, e, key', r)
    case DeleteOp(x) =>
      if forall q :: q in key ==> !Matches(key, x, q) then key' == key
      else exists e :: Matches(key, x, e) && key' == key - {e}
  }

  ghost predicate Run(keys: seq<Elems>, ops: seq<Op>) {
    && |keys| == |ops| + 1 && keys[0] == map[]
    && forall i :: 0 <= i < |ops| ==> Step(keys[i], ops[i], keys[i + 1])
  }

  lemma RunPrefix(keys: seq<Elems>, ops: seq<Op>)
    requires Run(keys, ops) && |ops| > 0
    ensures var n := |ops| - 1; Run(keys[..n + 1], ops[..n]) && Step(keys[n], ops[n], keys[n + 1])
  {
    var n := |ops| - 1;
    forall i | 0 <= i < n ensures Step(keys[..n + 1][i], ops[..n][i], keys[..n + 1][i + 1]) {
      assert Step(keys[i], ops[i], keys[i + 1]);
    }
    assert Step(keys[n], ops[n], keys[n + 1]);
  }

  /** Whatever is added and deleted, in whatever order, the stored keys stay prefix-free. */
  lemma {:induction false} RunPrefixFree(keys: seq<Elems>, ops: seq<Op>)
    requires Run(keys, ops)
    ensures PrefixFree(keys[|ops|])
    decreases |ops|
  {
    if |ops| > 0 {
      var n := |ops| - 1;
      RunPrefix(keys, ops);
      RunPrefixFree(keys[..n + 1], ops[..n]);
      match ops[n]
      case AddOp(x, e, r) => AddedCover(keys[n], x, e, keys[n + 1], r, []);
      case DeleteOp(x) =>
    }
  }

  /** Some of the keys added covers what has the code `s`. */
  ghost predicate AddsCover(ops: seq<Op>, s: seq<int>) {
    exists i :: 0 <= i < |ops| && ops[i].AddOp? && Code(ops[i].x) <= s
  }

  lemma AddsCoverSnoc(ops: seq<Op>, s: seq<int>)
    requires |ops| > 0
    ensures var n := |ops| - 1; AddsCover(ops, s) <==> AddsCover(ops[..n], s) || (ops[n].AddOp? && Code(ops[n].x) <= s)
  {
    hide Code;
    var n := |ops| - 1;
    assert forall i :: 0 <= i < n ==> ops[..n][i] == ops[i];
  }

  /** A pool that was only added to covers exactly what the keys added cover. */
  lemma {:induction false} AddRunCover(keys: seq<Elems>, ops: seq<Op>, s: seq<int>)
    requires Run(keys, ops) && forall i :: 0 <= i < |ops| ==> ops[i].AddOp?
    ensures Covers(keys[|ops|], s) <==> AddsCover(ops, s)
    decreases |ops|
  {
    hide Code, PrefixFree;
    if |ops| > 0 {
      var n := |ops| - 1;
      RunPrefix(keys, ops);
      hide Covers, Run, AddsCover;
      AddRunCover(keys[..n + 1], ops[..n], s);
      RunPrefixFree(keys[..n + 1], ops[..n]);
      AddedCover(keys[n], ops[n].x, ops[n].e, keys[n + 1], ops[n].r, s);
      AddsCoverSnoc(ops, s);
    }
  }

  /** So a host pool that was only added to covers exactly the names at or below one that was added. */
  lemma HostRunCover(keys: seq<Elems>, ops: seq<Op>, q: Name)
    requires Run(keys, ops) && forall i :: 0 <= i < |ops| ==> ops[i].AddOp? && ops[i].x.HostKey?
    ensures Covers(keys[|ops|], Code(HostKey(q))) <==> exists i :: 0 <= i < |ops| && Under(ops[i].x.name, q)
  {
    hide Under, Code, Covers, Run;
    AddRunCover(keys, ops, Code(HostKey(q)));
    forall i | 0 <= i < |ops| ensures Code(ops[i].x) <= Code(HostKey(q)) <==> Under(ops[i].x.name, q) {
      UnderCode(ops[i].x.name, q);
      CodeIs(ops[i].x);
      CodeIs(HostKey(q));
    }
  }
}
