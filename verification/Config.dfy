/** The configuration tree as a finite map from paths to values. */
module ConfigTree {
  import opened Bytes
  import opened Nodes
  import opened Paths

  /** Names and values of the nodes of a tree, and the list below each node; the list at the top is
      the one below null. */
  datatype Tree = Tree(kids: map<Node?, seq<Node>>, name: map<Node, Ident>, value: map<Node, Meta>)

  /** Stored form of a path element. */
  function NameOf(e: Name): Ident {
    Ident(UTF8, e + [0])
  }

  function Kids(t: Tree, n: Node?): seq<Node> {
    if n in t.kids then t.kids[n] else []
  }

  predicate HasName(t: Tree, n: Node, e: Name) {
    n in t.name && t.name[n] == NameOf(e)
  }

  /** First node of a list with the name. */
  function Pick(t: Tree, ns: seq<Node>, e: Name): (r: Node?)
    ensures r == null <==> forall n :: n in ns ==> !HasName(t, n, e)
    ensures r != null ==> r in ns && HasName(t, r, e)
  {
    if ns == [] then null else if HasName(t, ns[0], e) then ns[0] else Pick(t, ns[1..], e)
  }

  /** The list below a path: empty if the path has no node. */
  function ListAt(t: Tree, es: seq<Name>): seq<Node> {
    if es == [] then Kids(t, null) else
    var k := |es| - 1;
    var n := Pick(t, ListAt(t, es[..k]), es[k]);
    if n == null then [] else Kids(t, n)
  }

  /** The node of a path. */
  function Find(t: Tree, es: seq<Name>): Node? {
    if es == [] then null else Pick(t, ListAt(t, es[..|es| - 1]), es[|es| - 1])
  }

  datatype Entry = Missing | Entry(value: Meta)

  /** The value of a path: the map the tree stands for. */
  function Lookup(t: Tree, es: seq<Name>): Entry {
    var n := Find(t, es);
    if n == null || n !in t.value then Missing else Entry(t.value[n])
  }

  /** Every list holds nodes of the tree, with different names; no node is in two lists. */
  ghost predicate WellFormed(t: Tree) {
    null in t.kids && t.name.Keys == t.value.Keys && (forall n :: n in t.name ==> n in t.kids) &&
    (forall n :: n in t.kids ==> n == null || n in t.name) &&
    (forall p :: p in t.kids ==> List(t, t.kids[p])) &&
    forall p, q, n :: p in t.kids && q in t.kids && n in t.kids[p] && n in t.kids[q] ==> p == q
  }

  ghost predicate List(t: Tree, ns: seq<Node>) {
    (forall n :: n in ns ==> n in t.name) && forall n, m :: n in ns && m in ns && n != m ==> !SameName(t, n, m)
  }

  predicate SameName(t: Tree, n: Node, m: Node) {
    n in t.name && m in t.name && t.name[n] == t.name[m]
  }

  lemma NameOfInjective(e: Name, e': Name)
    requires NameOf(e) == NameOf(e')
    ensures e == e'
  {
    assert e == (e + [0])[..|e|] && e' == (e' + [0])[..|e'|];
  }

  lemma FindStep(t: Tree, es: seq<Name>, e: Name)
    ensures Find(t, es + [e]) == Pick(t, ListAt(t, es), e)
    ensures ListAt(t, es + [e]) == if Find(t, es + [e]) == null then [] else Kids(t, Find(t, es + [e]))
  {
    assert (es + [e])[..|es|] == es;
  }

  lemma Snoc(es: seq<Name>) returns (init: seq<Name>, e: Name)
    requires es != []
    ensures es == init + [e] && |init| < |es|
  {
    init, e := es[..|es| - 1], es[|es| - 1];
  }

  /** The list below a path is the child list of its node. */
  lemma ListOf(t: Tree, es: seq<Name>)
    ensures ListAt(t, es) == if es != [] && Find(t, es) == null then [] else Kids(t, Find(t, es))
  {}

  lemma FindIn(t: Tree, es: seq<Name>)
    requires WellFormed(t) && Find(t, es) != null
    ensures es != [] && Find(t, es) in t.kids && Find(t, es) in t.name
  {
    var init, e := Snoc(es);
    FindStep(t, init, e);
    ListOf(t, init);
    ListsOf(t, init);
  }

  lemma {:induction false} ListsOf(t: Tree, es: seq<Name>)
    requires WellFormed(t)
    ensures List(t, ListAt(t, es))
  {
    if es == [] {
      assert List(t, Kids(t, null));
    } else {
      var init, e := Snoc(es);
      FindStep(t, init, e);
      ListsOf(t, init);
      var n := Find(t, es);
      if n != null {
        assert n in ListAt(t, init);
        assert List(t, Kids(t, n));
      }
    }
  }

  /** A node has one path. */
  lemma {:induction false} OnePath(t: Tree, p: seq<Name>, q: seq<Name>)
    requires WellFormed(t) && Find(t, p) != null && Find(t, p) == Find(t, q)
    ensures p == q
    decreases |p|
  {
    var n := Find(t, p);
    var p', e := Snoc(p);
    var q', f := Snoc(q);
    FindStep(t, p', e);
    FindStep(t, q', f);
    NameOfInjective(e, f);
    ListOf(t, p');
    ListOf(t, q');
    assert n in Kids(t, Find(t, p')) && n in Kids(t, Find(t, q'));
    if Find(t, p') != null {
      OnePath(t, p', q');
    }
  }

  lemma {:induction false} PickSame(t: Tree, t': Tree, ns: seq<Node>, e: Name)
    requires forall n :: n in ns ==> n in t.name && n in t'.name && t.name[n] == t'.name[n]
    ensures Pick(t, ns, e) == Pick(t', ns, e)
  {
    if ns != [] {
      assert ns[0] in ns;
      PickSame(t, t', ns[1..], e);
    }
  }

  lemma {:induction false} PickSnoc(t: Tree, ns: seq<Node>, n: Node, e: Name)
    ensures Pick(t, ns + [n], e) ==
            if Pick(t, ns, e) != null then Pick(t, ns, e) else if HasName(t, n, e) then n else null
  {
    if ns != [] {
      assert (ns + [n])[0] == ns[0] && (ns + [n])[1..] == ns[1..] + [n];
      PickSnoc(t, ns[1..], n, e);
    }
  }

  /** A new node `n` with name `e` and no value at the end of the list below a node. */
  function Grow(t: Tree, owner: Node?, n: Node, e: Name): Tree {
    Tree(t.kids[owner := Kids(t, owner) + [n]][n := []], t.name[n := NameOf(e)], t.value[n := None])
  }

  /** The element `e` is missing below the path `es`, and `n` is not a node yet. */
  ghost predicate Absent(t: Tree, es: seq<Name>, e: Name, n: Node) {
    WellFormed(t) && n !in t.kids && n !in t.name && (es != [] ==> Find(t, es) != null) && Find(t, es + [e]) == null
  }

  lemma GrowKids(t: Tree, owner: Node?, n: Node, e: Name, p: Node?)
    requires owner in t.kids && n !in t.kids
    ensures Kids(Grow(t, owner, n, e), p) == if p == owner then Kids(t, p) + [n] else Kids(t, p)
    ensures p in Grow(t, owner, n, e).kids <==> p in t.kids || p == n
  {}

  lemma ListSame(t: Tree, t': Tree, ns: seq<Node>)
    requires List(t, ns) && forall n :: n in t.name ==> n in t'.name && t'.name[n] == t.name[n]
    ensures List(t', ns)
  {}

  lemma ListSnoc(t: Tree, ns: seq<Node>, n: Node)
    requires List(t, ns) && n in t.name && forall m :: m in ns ==> !SameName(t, m, n)
    ensures List(t, ns + [n])
  {}

  lemma KidsList(t: Tree, p: Node?)
    requires WellFormed(t)
    ensures List(t, Kids(t, p))
  {}

  lemma GrowList(t: Tree, es: seq<Name>, n: Node, e: Name, p: Node?)
    requires Absent(t, es, e, n)
    ensures List(Grow(t, Find(t, es), n, e), Kids(Grow(t, Find(t, es), n, e), p))
  {
    var owner := Find(t, es);
    if owner != null { FindIn(t, es); }
    var t' := Grow(t, owner, n, e);
    GrowKids(t, owner, n, e, p);
    KidsList(t, p);
    ListSame(t, t', Kids(t, p));
    FindStep(t, es, e);
    ListOf(t, es);
    hide Kids, List, Find;
    if p == owner {
      forall m | m in Kids(t, p) ensures !SameName(t', m, n) {
        assert !HasName(t, m, e);
        NotListed(t, n, p);
      }
      ListSnoc(t', Kids(t, p), n);
    }
  }

  /** Growing keeps the tree well-formed. */
  lemma GrowWellFormed(t: Tree, es: seq<Name>, n: Node, e: Name)
    requires Absent(t, es, e, n)
    ensures WellFormed(Grow(t, Find(t, es), n, e))
  {
    var owner := Find(t, es);
    if owner != null { FindIn(t, es); }
    var t' := Grow(t, owner, n, e);
    forall p | p in t'.kids ensures List(t', t'.kids[p]) {
      GrowList(t, es, n, e, p);
    }
    forall p, q, m | p in t'.kids && q in t'.kids && m in t'.kids[p] && m in t'.kids[q] ensures p == q {
      GrowKids(t, owner, n, e, p);
      GrowKids(t, owner, n, e, q);
      NotListed(t, n, p);
      NotListed(t, n, q);
    }
  }

  lemma NotListed(t: Tree, n: Node, p: Node?)
    requires WellFormed(t) && n !in t.name
    ensures n !in Kids(t, p)
  {
    if p in t.kids {
      assert List(t, t.kids[p]);
    }
  }

  lemma SameSnoc(q: seq<Name>, f: Name, es: seq<Name>, e: Name)
    ensures q + [f] == es + [e] <==> q == es && f == e
  {
    if q + [f] == es + [e] {
      assert q == (q + [f])[..|q|] == es && f == (q + [f])[|q|];
    }
  }

  lemma GrowPick(t: Tree, es: seq<Name>, n: Node, e: Name, q: seq<Name>, f: Name)
    requires Absent(t, es, e, n)
    requires ListAt(Grow(t, Find(t, es), n, e), q) == if q == es then ListAt(t, q) + [n] else ListAt(t, q)
    ensures Find(Grow(t, Find(t, es), n, e), q + [f]) == if q + [f] == es + [e] then n else Find(t, q + [f])
  {
    hide Find, ListAt, WellFormed, Pick, Kids;
    var t' := Grow(t, Find(t, es), n, e);
    FindStep(t, q, f);
    FindStep(t', q, f);
    FindStep(t, es, e);
    ListsOf(t, q);
    ListOf(t, q);
    NotListed(t, n, Find(t, q));
    PickSame(t, t', ListAt(t, q), f);
    PickSnoc(t', ListAt(t, q), n, f);
    SameSnoc(q, f, es, e);
    if f != e && NameOf(e) == NameOf(f) {
      NameOfInjective(e, f);
    }
  }

  /** Growing adds exactly one path. */
  lemma {:induction false} GrowFind(t: Tree, es: seq<Name>, n: Node, e: Name, q: seq<Name>)
    requires Absent(t, es, e, n)
    ensures var t' := Grow(t, Find(t, es), n, e);
            Find(t', q) == (if q == es + [e] then n else Find(t, q)) &&
            ListAt(t', q) == if q == es then ListAt(t, q) + [n] else ListAt(t, q)
    decreases |q|
  {
    var owner := Find(t, es);
    if owner != null { FindIn(t, es); }
    var t' := Grow(t, owner, n, e);
    ListOf(t, q);
    ListOf(t', q);
    GrowKids(t, owner, n, e, Find(t, q));
    if q != [] {
      var q', f := Snoc(q);
      GrowFind(t, es, n, e, q');
      GrowPick(t, es, n, e, q', f);
      if Find(t, q) == owner && owner != null { OnePath(t, q, es); }
    }
  }

  function Store(t: Tree, n: Node, v: Meta): Tree {
    t.(value := t.value[n := v])
  }

  lemma {:induction false} StoreFind(t: Tree, n: Node, v: Meta, q: seq<Name>)
    ensures Find(Store(t, n, v), q) == Find(t, q) && ListAt(Store(t, n, v), q) == ListAt(t, q)
    decreases |q|
  {
    if q != [] {
      var q', f := Snoc(q);
      StoreFind(t, n, v, q');
      FindStep(t, q', f);
      FindStep(Store(t, n, v), q', f);
      StorePick(t, n, v, ListAt(t, q'), f);
    }
  }

  lemma {:induction false} StorePick(t: Tree, n: Node, v: Meta, ns: seq<Node>, e: Name)
    ensures Pick(Store(t, n, v), ns, e) == Pick(t, ns, e)
  {
    if ns != [] {
      StorePick(t, n, v, ns[1..], e);
    }
  }

  lemma StoreWellFormed(t: Tree, n: Node, v: Meta)
    requires WellFormed(t) && n in t.name
    ensures WellFormed(Store(t, n, v))
  {
    forall p | p in t.kids ensures List(Store(t, n, v), t.kids[p]) {
      ListSame(t, Store(t, n, v), t.kids[p]);
    }
  }

  /** Nodes without value were made for the missing paths up to `p`; nothing else changed. */
  ghost predicate Extended(t: Tree, t': Tree, p: seq<Name>) {
    forall q :: Lookup(t', q) == if Lookup(t, q) == Missing && q != [] && q <= p then Entry(None) else Lookup(t, q)
  }

  /** The path `p` has the value `v`, the missing paths before it have nodes without value, and every
      other path is as it was. */
  ghost predicate Assigned(t: Tree, t': Tree, p: seq<Name>, v: Meta) {
    forall q :: Lookup(t', q) ==
                if q == p then Entry(v)
                else if Lookup(t, q) == Missing && q != [] && q <= p then Entry(None)
                else Lookup(t, q)
  }

  lemma FindLookup(t: Tree, q: seq<Name>)
    requires WellFormed(t)
    ensures Find(t, q) == null <==> Lookup(t, q) == Missing
  {
    if Find(t, q) != null {
      FindIn(t, q);
    }
  }

  lemma PrefixSnoc(q: seq<Name>, es: seq<Name>, e: Name)
    ensures q <= es + [e] <==> q <= es || q == es + [e]
  {
    if q <= es + [e] && |q| <= |es| {
      assert q == (es + [e])[..|q|] == es[..|q|];
    }
  }

  /** One more node on the way. */
  lemma ExtendMore(t0: Tree, t: Tree, es: seq<Name>, e: Name, n: Node)
    requires Extended(t0, t, es) && Absent(t, es, e, n)
    ensures Extended(t0, Grow(t, Find(t, es), n, e), es + [e])
  {
    var t' := Grow(t, Find(t, es), n, e);
    GrowWellFormed(t, es, n, e);
    forall q ensures Lookup(t', q) ==
                     if Lookup(t0, q) == Missing && q != [] && q <= es + [e] then Entry(None) else Lookup(t0, q)
    {
      GrowFind(t, es, n, e, q);
      FindLookup(t, q);
      FindLookup(t', q);
      PrefixSnoc(q, es, e);
      GrowLookup(t, es, n, e, q);
    }
  }

  lemma GrowLookup(t: Tree, es: seq<Name>, n: Node, e: Name, q: seq<Name>)
    requires Absent(t, es, e, n)
    ensures Lookup(Grow(t, Find(t, es), n, e), q) == if q == es + [e] then Entry(None) else Lookup(t, q)
  {
    GrowFind(t, es, n, e, q);
    FindLookup(t, q);
    if Find(t, q) != null {
      FindIn(t, q);
    }
  }

  /** The value at the end of the way. */
  lemma StoreAssigns(t0: Tree, t: Tree, p: seq<Name>, v: Meta)
    requires Extended(t0, t, p) && WellFormed(t) && Find(t, p) != null
    ensures Assigned(t0, Store(t, Find(t, p), v), p, v)
  {
    hide Find, ListAt, WellFormed;
    var n := Find(t, p);
    FindIn(t, p);
    forall q ensures Lookup(Store(t, n, v), q) == if q == p then Entry(v) else Lookup(t, q) {
      StoreFind(t, n, v, q);
      if Find(t, q) == n {
        OnePath(t, p, q);
      }
    }
  }
}

/** Query and assignment on the linked nodes of a configuration. */
module Config {
  import opened Bytes
  import opened Nodes
  import opened Paths
  import opened ConfigTree

  /** One node of the heap is as the tree says. */
  ghost predicate Mirrors(t: Tree, n: Node)
    requires n in t.name
    reads t.name.Keys
  {
    n in t.value && n.ident == t.name[n] && n.meta == t.value[n] &&
    n.kids == Kids(t, n) && Inside(t.name.Keys, n.kids) && Family(n.kids, n)
  }

  /** The linked nodes are the tree. */
  ghost predicate Represents(t: Tree)
    reads t.name.Keys
  {
    WellFormed(t) && Inside(t.name.Keys, Kids(t, null)) && Linked(Kids(t, null), null) &&
    forall n :: n in t.name ==> Mirrors(t, n)
  }

  lemma ListFamily(t: Tree, p: Node?)
    requires Represents(t) && (p == null || p in t.name)
    ensures Family(Kids(t, p), p) && Inside(t.name.Keys, Kids(t, p))
  {
    if p != null {
      assert Mirrors(t, p);
    }
  }

  lemma {:induction false} NoMatch(ns: seq<Node>, key: Key, k: nat, n: Node)
    requires k <= |ns| && Count(ns, key, k) == 0 && n in ns[..k]
    ensures !Match(key, n)
  {
    if n in ns[..k - 1] {
      NoMatch(ns, key, k - 1, n);
    } else {
      assert ns[..k] == ns[..k - 1] + [ns[k - 1]];
    }
  }

  /** Locating by name in the heap is picking from the list of the tree. */
  lemma Located(t: Tree, p: Node?, e: Name, r: Node?, j: nat)
    requires Represents(t) && (p == null || p in t.name)
    requires IsMatch(Kids(t, p), Key.Named(NameOf(e)), 0, r, j)
    ensures r == Pick(t, Kids(t, p), e)
  {
    hide Represents, Family, Pick, Kids, WellFormed;
    var ns := Kids(t, p);
    ListFamily(t, p);
    RepresentsWellFormed(t);
    KidsList(t, p);
    var picked := Pick(t, ns, e);
    if r == null {
      if picked != null {
        MatchName(t, picked, e);
        assert ns[..|ns|] == ns;
        NoMatch(ns, Key.Named(NameOf(e)), |ns|, picked);
      }
    } else {
      MatchName(t, r, e);
    }
  }

  lemma MatchName(t: Tree, n: Node, e: Name)
    requires Represents(t) && n in t.name
    ensures Match(Key.Named(NameOf(e)), n) <==> HasName(t, n, e)
  {
    assert Mirrors(t, n);
  }

  lemma RepresentsWellFormed(t: Tree)
    requires Represents(t)
    ensures WellFormed(t)
  {}

  /** A text path does not need its cached length. */
  lemma Uncached(d: seq<byte>, es: seq<Name>, sep: byte, first: nat)
    requires Packed(d, es, false, sep, first)
    ensures Packed(d, es, false, sep, 0)
  {}

  /** The list at the top. */
  lemma QueryStart(t: Tree, es: seq<Name>)
    ensures Find(t, []) == null && ListAt(t, []) == Kids(t, null)
    ensures es != [] && Kids(t, null) == [] ==> Find(t, es[..1]) == null
  {}

  /** One element further: the node, */
  lemma StepFind(t: Tree, es: seq<Name>, k: nat)
    requires k < |es|
    ensures Find(t, es[..k + 1]) == Pick(t, ListAt(t, es[..k]), es[k])
    ensures var n := Find(t, es[..k + 1]); ListAt(t, es[..k + 1]) == if n == null then [] else Kids(t, n)
  {
    hide Find, ListAt, Pick, Kids;
    assert es[..k + 1] == es[..k] + [es[k]];
    FindStep(t, es[..k], es[k]);
  }

  /** its list in the heap, */
  lemma StepNode(t: Tree, es: seq<Name>, k: nat)
    requires Represents(t) && k < |es| && Find(t, es[..k + 1]) != null
    ensures var n := Find(t, es[..k + 1]); n in t.name && n.children == At(Kids(t, n), 0)
  {
    hide Represents, WellFormed, Find, Kids;
    RepresentsWellFormed(t);
    FindIn(t, es[..k + 1]);
    ListFamily(t, Find(t, es[..k + 1]));
  }

  /** and nothing below an empty list. */
  lemma StepLeaf(t: Tree, es: seq<Name>, k: nat)
    requires k + 1 < |es| && ListAt(t, es[..k + 1]) == []
    ensures Find(t, es[..k + 2]) == null
  {
    StepFind(t, es, k + 1);
  }

  lemma QueryStep(t: Tree, es: seq<Name>, k: nat)
    requires Represents(t) && k < |es|
    ensures var n := Find(t, es[..k + 1]);
            n == Pick(t, ListAt(t, es[..k]), es[k]) &&
            (n != null ==> n in t.name && ListAt(t, es[..k + 1]) == Kids(t, n) && n.children == At(Kids(t, n), 0)) &&
            (n != null && Kids(t, n) == [] && k + 1 < |es| ==> Find(t, es[..k + 2]) == null)
  {
    hide Represents, Find, ListAt, Pick, Kids;
    StepFind(t, es, k);
    var n := Find(t, es[..k + 1]);
    if n != null {
      StepNode(t, es, k);
      if k + 1 < |es| && Kids(t, n) == [] {
        StepLeaf(t, es, k);
      }
    }
  }

  /** What holds after `k` elements: `pre` is their node and `conf` the first one below it. */
  ghost predicate Descended(t: Tree, es: seq<Name>, k: nat, pre: Node?, conf: Node?)
    reads t.name.Keys
  {
    k <= |es| && Represents(t) && pre == Find(t, es[..k]) && (pre == null <==> k == 0) && (pre != null ==> pre in t.name) &&
    ListAt(t, es[..k]) == Kids(t, pre) && conf == At(Kids(t, pre), 0)
  }

  lemma DescendStart(t: Tree, es: seq<Name>, root: Node?)
    requires Represents(t) && root == At(Kids(t, null), 0)
    ensures Descended(t, es, 0, null, root) && Find(t, es[..0]) == null
    ensures es != [] && root == null ==> Find(t, es[..1]) == null
  {
    hide Represents;
    assert es[..0] == [];
    QueryStart(t, es);
  }

  /** One element: its node, or nothing if there is none. */
  method Descend(conf: Node, name: seq<byte>, ghost t: Tree, ghost es: seq<Name>, ghost k: nat, ghost pre: Node?)
      returns (n: Node?)
    requires Descended(t, es, k, pre, conf) && k < |es| && es[k] == name
    ensures n == Find(t, es[..k + 1])
    ensures n != null ==> Descended(t, es, k + 1, n, n.children)
    ensures n != null && n.children == null && k + 1 < |es| ==> Find(t, es[..k + 2]) == null
  {
    hide Represents, WellFormed, Find, ListAt, Kids, Pick;
    ListFamily(t, pre);
    ghost var j;
    n, j := Locate(conf, 1, Key.Named(Ident(UTF8, name + [0])), Kids(t, pre), pre, 0);
    Located(t, pre, name, n, j);
    QueryStep(t, es, k);
  }

  /** Finds the longest part of a text path that has a node; the path keeps the elements behind. */
  method Query(root: Node?, path: Path, ghost t: Tree, ghost es: seq<Name>) returns (pre: Node?, ghost k: nat)
    requires Represents(t) && root == At(Kids(t, null), 0) && path.Holds(es) && !path.binary
    modifies path`off, path`len, path`first
    ensures k <= |es| && pre == Find(t, es[..k]) && (pre == null <==> k == 0)
    ensures k < |es| ==> Find(t, es[..k + 1]) == null
    ensures path.Holds(es[k..]) && (path.len == 0 <==> k == |es|)
  {
    hide Packed, Descended, Find, Represents, Kids;
    pre, k := null, 0;
    assert es[0..] == es;
    DescendStart(t, es, root);
    HoldsEmpty(path, es);
    if root == null || path.len == 0 { return; }
    var conf: Node := root;
    var off, len := path.off, path.len;
    while true
      invariant k <= |es| && path.Holds(es[k..]) && path.off == off && path.len == len
      invariant pre == Find(t, es[..k]) && (pre == null <==> k == 0) && Descended(t, es, k, pre, conf)
      decreases |es| - k
    {
      HoldsEmpty(path, es[k..]);
      Uncached(path.base[off..off + len], es[k..], path.sep, path.first);
      var clen := path.Next(es[k..]);
      if clen < 0 { return; }
      var n := Descend(conf, path.base[off..off + clen], t, es, k, pre);
      if n == null {
        path.off, path.len := off, len;
        return;
      }
      assert es[k..][1..] == es[k + 1..];
      pre, k := n, k + 1;
      HoldsEmpty(path, es[k..]);
      if n.children == null { return; }
      conf := n.children;
      off, len := path.off, path.len;
    }
  }

  lemma HoldsEmpty(p: Path, es: seq<Name>)
    requires p.Holds(es)
    ensures p.len == 0 <==> es == []
  {
    PackedEmpty(p.base[p.off..p.off + p.len], es, p.binary, p.sep, p.first);
  }

  /** A node that was just made for a path element. */
  ghost predicate Blank(n: Node, e: Name)
    reads n
  {
    Detached(n) && n.children == null && n.kids == [] && n.ident == NameOf(e) && n.meta == None
  }

  /** Links a detached node at the end of a list. */
  method LinkLast(owner: Node?, first: Node?, next: Node, ghost ns: seq<Node>)
    requires Family(ns, owner) && first == At(ns, 0) && next !in ns && next != owner && Detached(next)
    modifies next, ns, if owner == null then {} else {owner}
    ensures Family(ns + [next], owner) && OnlyLinks(next)
    ensures forall n :: n in ns ==> n.children == old(n.children) && n.kids == old(n.kids)
    ensures forall n :: n in ns ==> n.ident == old(n.ident) && n.meta == old(n.meta)
    ensures owner != null ==> OnlyChildren(owner)
  {
    if first == null {
      next.parent := owner;
      if owner != null {
        owner.children := next;
      }
      assert Link([next], owner, 0);
    } else {
      forall s | IsSlot(ns, Any, 0, s) ensures s == |ns| {
        SlotByPosition(ns, 0, s);
      }
      hide Linked, IsSlot;
      ghost var s := InsertNode(first, 0, next, Any, ns, owner);
      assert InsertAt(ns, s, next) == ns + [next];
    }
  }

  /** The same within a tree: all other lists keep their links. */
  method LinkBelow(owner: Node?, first: Node?, next: Node, ghost t: Tree)
    requires Represents(t) && owner in t.kids && first == At(Kids(t, owner), 0)
    requires next !in t.kids && next !in t.name && Detached(next)
    modifies t.name.Keys, next
    ensures Family(Kids(t, owner) + [next], owner) && OnlyLinks(next)
    ensures forall p :: p in t.kids && p != owner ==> Family(Kids(t, p), p)
    ensures forall n :: n in t.name ==> n.ident == old(n.ident) && n.meta == old(n.meta)
    ensures forall n :: n in t.name ==> n.kids == if n == owner then Kids(t, owner) + [next] else old(n.kids)
  {
    hide Represents, Kids;
    ghost var ns := Kids(t, owner);
    ListWhole(t, owner);
    forall p | p in t.kids ensures Whole(t, p) {
      ListWhole(t, p);
    }
    LinkLast(owner, first, next, ns);
    if owner != null {
      owner.kids := ns + [next];
    }
    forall p | p in t.kids && p != owner ensures Family(Kids(t, p), p) {
      ghost var ms := Kids(t, p);
      assert old(Whole(t, p));
      forall k | 0 <= k < |ms| ensures Link(ms, p, k) {
        assert old(Link(ms, p, k));
        assert ms[k] !in ns && ms[k] != next;
      }
    }
  }

  /** Makes a new node the last one below `owner`. */
  method Attach(owner: Node?, first: Node?, next: Node, ghost t: Tree, ghost e: Name)
    requires Represents(t) && owner in t.kids && first == At(Kids(t, owner), 0)
    requires next !in t.kids && Blank(next, e) && WellFormed(Grow(t, owner, next, e))
    modifies t.name.Keys, next
    ensures Represents(Grow(t, owner, next, e))
  {
    hide WellFormed, Represents, Kids, Grow, Family;
    RepresentsWellFormed(t);
    NotNode(t, next);
    ListWhole(t, owner);
    forall n | n in t.name ensures Labelled(t, n) && n.kids == Kids(t, n) {
      NodeLabelled(t, n);
    }
    LinkBelow(owner, first, next, t);
    AttachRepresents(t, owner, next, e);
  }

  lemma NotNode(t: Tree, n: Node)
    requires WellFormed(t) && n !in t.kids
    ensures n !in t.name
  {}

  ghost predicate Whole(t: Tree, p: Node?)
    reads t.name.Keys
  {
    (p == null || p in t.name) && Inside(t.name.Keys, Kids(t, p)) && Family(Kids(t, p), p) &&
    forall n :: n in Kids(t, p) ==> n.parent == p
  }

  lemma ListWhole(t: Tree, p: Node?)
    requires Represents(t) && p in t.kids
    ensures Whole(t, p)
  {
    ListFamily(t, p);
    ParentOf(Kids(t, p), p);
  }

  ghost predicate Labelled(t: Tree, n: Node)
    reads n
  {
    n in t.name && n in t.value && n.ident == t.name[n] && n.meta == t.value[n]
  }

  lemma NodeLabelled(t: Tree, n: Node)
    requires Represents(t) && n in t.name
    ensures Labelled(t, n) && n.kids == Kids(t, n)
  {
    assert Mirrors(t, n);
  }

  lemma NoKids(n: Node)
    requires n.children == null
    ensures Family([], n)
  {}

  lemma FamilyLinked(ns: seq<Node>, p: Node?)
    requires Family(ns, p)
    ensures Linked(ns, p)
  {}

  lemma NodesListed(t: Tree)
    requires WellFormed(t)
    ensures forall n :: n in t.name ==> n in t.value && n in t.kids
    ensures null in t.kids
  {}

  lemma AttachRepresents(t: Tree, owner: Node?, next: Node, e: Name)
    requires WellFormed(t) && WellFormed(Grow(t, owner, next, e)) && owner in t.kids && next !in t.kids
    requires forall p :: p in t.kids && p != owner ==> Family(Kids(t, p), p)
    requires Family(Kids(t, owner) + [next], owner)
    requires forall n :: n in t.name ==>
               Labelled(t, n) && n.kids == if n == owner then Kids(t, owner) + [next] else Kids(t, n)
    requires next.children == null && next.kids == [] && next.ident == NameOf(e) && next.meta == None
    ensures Represents(Grow(t, owner, next, e))
  {
    hide WellFormed, Family;
    var t' := Grow(t, owner, next, e);
    forall p | p in t'.kids ensures Family(Kids(t', p), p) && Inside(t'.name.Keys, Kids(t', p)) {
      GrowKids(t, owner, next, e, p);
      KidsList(t', p);
      if p == next { NoKids(next); }
    }
    NodesListed(t');
    FamilyLinked(Kids(t', null), null);
    forall n | n in t'.name ensures Mirrors(t', n) {
      GrowKids(t, owner, next, e, n);
    }
  }

  const ID_MAX := 0xffff

  /** Creates the node for one missing element, unless its name is too long for an identifier. */
  method Extend(conf: Node?, first: Node?, name: seq<byte>, ghost t: Tree, ghost es: seq<Name>) returns (next: Node?)
    requires Represents(t) && conf == Find(t, es) && (es != [] ==> conf != null)
    requires first == At(Kids(t, conf), 0) && Find(t, es + [name]) == null
    modifies t.name.Keys
    ensures next == null <==> |name| + 1 > ID_MAX
    ensures next == null ==> Represents(t)
    ensures next != null ==>
              fresh(next) && next.children == null && Absent(t, es, name, next) &&
              Represents(Grow(t, conf, next, name))
  {
    hide Represents, WellFormed, Find, Kids, Grow;
    if |name| + 1 > ID_MAX { return null; }
    RepresentsWellFormed(t);
    OwnerIn(t, es);
    var n := new Node(Ident(UTF8, name + [0]), None);
    NewIsAbsent(t, es, name, n);
    GrowWellFormed(t, es, n, name);
    Attach(conf, first, n, t, name);
    next := n;
    GrownChildren(t, conf, n, name);
  }

  lemma OwnerIn(t: Tree, es: seq<Name>)
    requires WellFormed(t)
    ensures Find(t, es) in t.kids
  {
    if Find(t, es) != null {
      FindIn(t, es);
    }
  }

  lemma NewIsAbsent(t: Tree, es: seq<Name>, e: Name, n: Node)
    requires WellFormed(t) && n !in t.name && (es != [] ==> Find(t, es) != null) && Find(t, es + [e]) == null
    ensures Absent(t, es, e, n) && n !in t.kids
  {}

  lemma GrownChildren(t: Tree, owner: Node?, n: Node, e: Name)
    requires Represents(Grow(t, owner, n, e))
    ensures n.children == null
  {
    NodeLabelled(Grow(t, owner, n, e), n);
    ListFamily(Grow(t, owner, n, e), n);
  }

  /** What holds while nodes are made: `t` has all nodes up to `k` elements, and none of the next. */
  ghost predicate Making(t0: Tree, t: Tree, es: seq<Name>, k: nat, conf: Node?) {
    k <= |es| && WellFormed(t) && Extended(t0, t, es[..k]) && conf == Find(t, es[..k]) && (k > 0 ==> conf != null) &&
    (k < |es| ==> Find(t, es[..k + 1]) == null)
  }

  /** Nothing is below a missing node. */
  lemma NothingBelow(t: Tree, es: seq<Name>, e: Name)
    requires es != [] && Find(t, es) == null
    ensures Find(t, es + [e]) == null
  {
    FindStep(t, es, e);
    ListOf(t, es);
  }

  lemma MakeOne(t0: Tree, t: Tree, es: seq<Name>, k: nat, conf: Node?, n: Node)
    requires Making(t0, t, es, k, conf) && k < |es| && Absent(t, es[..k], es[k], n)
    ensures Making(t0, Grow(t, conf, n, es[k]), es, k + 1, n)
  {
    hide Extended, WellFormed, Find, Grow, Absent;
    assert es[..k + 1] == es[..k] + [es[k]];
    GrowWellFormed(t, es[..k], n, es[k]);
    ExtendMore(t0, t, es[..k], es[k], n);
    GrowFind(t, es[..k], n, es[k], es[..k + 1]);
    if k + 1 < |es| {
      assert es[..k + 2] == es[..k + 1] + [es[k + 1]];
      NothingBelow(t, es[..k + 1], es[k + 1]);
      GrowFind(t, es[..k], n, es[k], es[..k + 2]);
    }
  }

  /** The elements before the first missing one exist already. */
  lemma {:induction false} MakeStart(t: Tree, es: seq<Name>, k: nat)
    requires WellFormed(t) && k <= |es| && (k > 0 ==> Find(t, es[..k]) != null)
    ensures Extended(t, t, es[..k])
  {
    if k > 0 {
      assert es[..k] == es[..k - 1] + [es[k - 1]];
      FindStep(t, es[..k - 1], es[k - 1]);
      ListOf(t, es[..k - 1]);
      MakeStart(t, es, k - 1);
      FindLookup(t, es[..k]);
      forall q ensures Lookup(t, q) == Missing && q != [] && q <= es[..k] ==> q <= es[..k - 1] {
        PrefixSnoc(q, es[..k - 1], es[k - 1]);
      }
    }
  }

  lemma HeadOf(t: Tree, owner: Node?, n: Node, e: Name)
    requires owner in t.kids && n !in t.kids && null in t.kids
    ensures At(Kids(Grow(t, owner, n, e), null), 0) ==
            if owner == null && Kids(t, null) == [] then n else At(Kids(t, null), 0)
    ensures Kids(Grow(t, owner, n, e), n) == []
  {
    GrowKids(t, owner, n, e, null);
    GrowKids(t, owner, n, e, n);
  }

  lemma AbsentIn(t: Tree, es: seq<Name>, e: Name, n: Node)
    requires Absent(t, es, e, n)
    ensures Find(t, es) in t.kids && n !in t.kids && null in t.kids
  {
    OwnerIn(t, es);
  }

  /** Makes the missing nodes of a path, up to the first element whose name is too long. */
  method Create(base: Node?, conf0: Node?, path: Path, ghost t0: Tree, ghost es: seq<Name>, ghost k0: nat)
      returns (root: Node?, r: Node?, ghost t: Tree, ghost k: nat)
    requires Represents(t0) && base == At(Kids(t0, null), 0) && Making(t0, t0, es, k0, conf0) && k0 < |es|
    requires path.Holds(es[k0..])
    modifies path`off, path`len, path`first, t0.name.Keys
    ensures Represents(t) && root == At(Kids(t, null), 0) && forall n :: n in t.name ==> n in t0.name || fresh(n)
    ensures k0 <= k <= |es| && Making(t0, t, es, k, Find(t, es[..k]))
    ensures if r == null then k < |es| && |es[k]| + 1 > ID_MAX else k == |es| && r == Find(t, es)
    ensures forall i :: k0 <= i < k ==> |es[i]| + 1 <= ID_MAX
  {
    hide Packed, Represents, WellFormed, Find, Kids, Making, Absent, Grow;
    root, t, k, r := base, t0, k0, null;
    var conf, first := conf0, base;
    if conf != null {
      FirstOf(t, es, k, conf);
      first := conf.children;
    }
    MakingOwner(t, t, es, k, conf);
    while true
      invariant Represents(t) && root == At(Kids(t, null), 0) && Making(t0, t, es, k, conf)
      invariant k0 <= k < |es| && first == At(Kids(t, conf), 0) && path.Holds(es[k..]) && r == null
      invariant forall n :: n in t.name ==> n in t0.name || fresh(n)
      invariant forall i :: k0 <= i < k ==> |es[i]| + 1 <= ID_MAX
      decreases |es| - k
    {
      MakingOwner(t0, t, es, k, conf);
      var off := path.off;
      var clen := path.Next(es[k..]);
      var name := path.base[off..off + clen];
      assert name == es[k];
      var next := Extend(conf, first, name, t, es[..k]);
      if next == null { return; }
      MakeOne(t0, t, es, k, conf, next);
      AbsentIn(t, es[..k], es[k], next);
      HeadOf(t, conf, next, es[k]);
      if conf == null && first == null { root := next; }
      GrowNames(t, conf, next, es[k]);
      t := Grow(t, conf, next, es[k]);
      conf, k := next, k + 1;
      assert es[k - 1..][1..] == es[k..];
      HoldsEmpty(path, es[k..]);
      MakingOwner(t0, t, es, k, conf);
      if path.len == 0 {
        assert es[..k] == es;
        return root, next, t, k;
      }
      first := next.children;
    }
  }

  lemma GrowNames(t: Tree, owner: Node?, n: Node, e: Name)
    ensures forall m :: m in Grow(t, owner, n, e).name ==> m in t.name || m == n
  {}

  lemma MakingOwner(t0: Tree, t: Tree, es: seq<Name>, k: nat, conf: Node?)
    requires Making(t0, t, es, k, conf)
    ensures k <= |es| && conf == Find(t, es[..k]) && (k > 0 ==> conf != null) && (es[..k] != [] ==> conf != null)
    ensures conf == null ==> k == 0
    ensures k < |es| ==> Find(t, es[..k] + [es[k]]) == null
  {
    if k < |es| {
      assert es[..k + 1] == es[..k] + [es[k]];
    }
    FindIs(t, es[..k]);
  }

  lemma FindIs(t: Tree, es: seq<Name>)
    ensures es == [] ==> Find(t, es) == null
  {}

  lemma FirstOf(t: Tree, es: seq<Name>, k: nat, conf: Node)
    requires Represents(t) && Making(t, t, es, k, conf)
    ensures conf.children == At(Kids(t, conf), 0)
  {
    FindIn(t, es[..k]);
    ListFamily(t, conf);
  }

  /** A value to assign; without one a new node stays empty and an old one gets the default metatype. */
  datatype Val = NoValue | Value(v: int)

  function Stored(val: Val, existed: bool): Meta {
    if val.Value? then Of(val.v) else if existed then Default else None
  }

  method SetMeta(n: Node, v: Meta, ghost t: Tree)
    requires Represents(t) && n in t.name
    modifies n`meta
    ensures Represents(Store(t, n, v)) && Kids(Store(t, n, v), null) == Kids(t, null)
  {
    hide WellFormed;
    ghost var t' := Store(t, n, v);
    StoreWellFormed(t, n, v);
    n.meta := v;
    forall m | m in t'.name ensures Mirrors(t', m) {
      assert old(Mirrors(t, m));
      forall k | 0 <= k < |m.kids| ensures Link(m.kids, m, k) {
        assert old(Link(m.kids, m, k));
      }
    }
    ghost var top := Kids(t, null);
    forall k | 0 <= k < |top| ensures Link(top, null, k) {
      assert old(Link(top, null, k));
    }
  }

  /** Nodes are made for elements that fit only. */
  ghost predicate AllFit(t: Tree, es: seq<Name>, m: nat) {
    m <= |es| && forall i :: 0 <= i < m ==> Fit(t, es, i)
  }

  ghost predicate Fit(t: Tree, es: seq<Name>, i: nat)
    requires i < |es|
  {
    |es[i]| + 1 <= ID_MAX || Lookup(t, es[..i + 1]) != Missing
  }

  class Root {
    var head: Node?
    ghost var t: Tree

    ghost predicate Valid()
      reads this, t.name.Keys
    {
      Represents(t) && head == At(Kids(t, null), 0)
    }

    constructor ()
      ensures Valid() && t.name == map[] && forall q :: Lookup(t, q) == Missing
    {
      head := null;
      t := Tree(map[null := []], map[], map[]);
    }

    /** Value of a path. */
    method Get(dest: Path, ghost es: seq<Name>) returns (entry: Entry)
      requires Valid() && dest.Holds(es) && !dest.binary
      ensures entry == Lookup(t, es)
    {
      hide Packed, Represents, WellFormed, Find;
      var path := Copy(dest, es);
      var n; ghost var k;
      n, k := Query(head, path, t, es);
      RepresentsWellFormed(t);
      FindLookup(t, es);
      if n == null || path.len != 0 {
        Unfound(t, es, k);
        return Missing;
      }
      assert es[..k] == es;
      FindIn(t, es);
      NodeLabelled(t, n);
      return Entry(n.meta);
    }

    /** Assigns a value: update or create along the path. */
    method Assign(dest: Path, val: Val, ghost es: seq<Name>) returns (r: Node?, ghost m: nat)
      requires Valid() && dest.Holds(es) && !dest.binary
      modifies this, t.name.Keys
      ensures Valid() && forall n :: n in t.name ==> n in old(t.name) || fresh(n)
      ensures Outcome(old(t), t, es, val, r, m)
      ensures r != null && val.Value? ==> Lookup(t, es) == Entry(Of(val.v))
      ensures r != null && val.NoValue? ==>
                Lookup(t, es) == if old(Lookup(t, es)) == Missing then Entry(None) else Entry(Default)
      ensures r != null ==>
                forall q :: q != es ==>
                  Lookup(t, q) ==
                  if old(Lookup(t, q)) == Missing && q != [] && q <= es then Entry(None) else old(Lookup(t, q))
    {
      hide Packed, Represents, Outcome, Kids, Lookup;
      var root; ghost var t';
      root, r, t', m := AssignTo(head, dest, val, t, es);
      if r != null { OutcomeValues(t, t', es, val, r, m); }
      head, t := root, t';
    }
  }

  /** The result of an assignment.  With success the path has the value and nothing else changed but
      for the new nodes on the way; on failure there are only the new nodes, if any. */
  ghost predicate Outcome(t0: Tree, t: Tree, es: seq<Name>, val: Val, r: Node?, m: nat) {
    m <= |es| && AllFit(t0, es, m) &&
    if r != null then
      r == Find(t, es) && m == |es| && Assigned(t0, t, es, Stored(val, Lookup(t0, es) != Missing))
    else
      Extended(t0, t, es[..m]) &&
      (m == |es| <==> es == []) && (m < |es| ==> Lookup(t0, es[..m + 1]) == Missing && |es[m]| + 1 > ID_MAX)
  }

  /** What is stored in the end: a value always, the default for an old node without one. */
  lemma OutcomeValues(t0: Tree, t: Tree, es: seq<Name>, val: Val, r: Node?, m: nat)
    requires Outcome(t0, t, es, val, r, m) && r != null
    ensures val.Value? ==> Lookup(t, es) == Entry(Of(val.v))
    ensures val.NoValue? ==> Lookup(t, es) == if Lookup(t0, es) == Missing then Entry(None) else Entry(Default)
    ensures forall q :: q != es ==>
              Lookup(t, q) == if Lookup(t0, q) == Missing && q != [] && q <= es then Entry(None) else Lookup(t0, q)
  {
    hide Lookup;
  }

  method AssignTo(base: Node?, dest: Path, val: Val, ghost t0: Tree, ghost es: seq<Name>)
      returns (root: Node?, r: Node?, ghost t: Tree, ghost m: nat)
    requires Represents(t0) && base == At(Kids(t0, null), 0) && dest.Holds(es) && !dest.binary
    modifies t0.name.Keys
    ensures Represents(t) && root == At(Kids(t, null), 0) && forall n :: n in t.name ==> n in t0.name || fresh(n)
    ensures Outcome(t0, t, es, val, r, m)
  {
    hide Packed, Represents, WellFormed, Find, Kids, Making, Outcome;
    var path := Copy(dest, es);
    ghost var k;
    root, t := base, t0;
    r, k := Query(base, path, t, es);
    RepresentsWellFormed(t);
    if r != null && path.len == 0 {
      assert es[..k] == es;
      m := k;
      UpdateOutcome(t, es, val);
      var v := Stored(val, true);
      SetMeta(r, v, t);
      t := Store(t, r, v);
      return;
    }
    if path.len == 0 {
      NothingOutcome(t, val);
      m := 0;
      return;
    }
    Begun(t, es, k);
    root, r, t, m := Create(base, r, path, t0, es, k);
    RepresentsWellFormed(t);
    MakingFits(t0, es, k, m);
    if r == null {
      CreatedSome(t0, t, es, m, val);
    } else {
      assert es[..m] == es;
      Below(t0, es, k + 1);
      FindLookup(t0, es);
      CreatedAll(t0, t, es, val);
      FindIn(t, es);
      var v := Stored(val, false);
      SetMeta(r, v, t);
      t := Store(t, r, v);
    }
  }

  /** Update of a node that exists. */
  lemma UpdateOutcome(t: Tree, es: seq<Name>, val: Val)
    requires WellFormed(t) && Find(t, es) != null
    ensures Find(t, es) in t.name
    ensures Outcome(t, Store(t, Find(t, es), Stored(val, true)), es, val, Find(t, es), |es|)
  {
    hide WellFormed, Find, Assigned, Extended;
    var v := Stored(val, true);
    FindIn(t, es);
    FindLookup(t, es);
    assert es[..|es|] == es;
    MakeStart(t, es, |es|);
    StoreAssigns(t, t, es, v);
    StoreFind(t, Find(t, es), v, es);
    forall i | 0 <= i < |es| ensures Fit(t, es, i) {
      FoundAbove(t, es, i + 1);
      FindLookup(t, es[..i + 1]);
    }
  }

  /** Above a node there are nodes. */
  lemma FoundAbove(t: Tree, es: seq<Name>, k: nat)
    requires Find(t, es) != null && 0 < k <= |es|
    ensures Find(t, es[..k]) != null
  {
    if Find(t, es[..k]) == null {
      Below(t, es, k);
    }
  }

  lemma NothingOutcome(t: Tree, val: Val)
    ensures Outcome(t, t, [], val, null, 0)
  {}

  lemma Begun(t: Tree, es: seq<Name>, k: nat)
    requires WellFormed(t) && k < |es| && (k > 0 ==> Find(t, es[..k]) != null) && Find(t, es[..k + 1]) == null
    ensures Making(t, t, es, k, Find(t, es[..k]))
  {
    MakeStart(t, es, k);
  }

  /** A name that is too long ends the creation of nodes. */
  lemma CreatedSome(t0: Tree, t: Tree, es: seq<Name>, m: nat, val: Val)
    requires m < |es| && Making(t0, t, es, m, Find(t, es[..m])) && AllFit(t0, es, m) && |es[m]| + 1 > ID_MAX
    ensures Outcome(t0, t, es, val, null, m)
  {
    hide Find;
    var q := es[..m + 1];
    FindLookup(t, q);
    assert Lookup(t, q) == Missing;
  }

  /** All nodes were made, and the last one gets the value. */
  lemma CreatedAll(t0: Tree, t: Tree, es: seq<Name>, val: Val)
    requires es != [] && Making(t0, t, es, |es|, Find(t, es)) && AllFit(t0, es, |es|) && Lookup(t0, es) == Missing
    ensures Outcome(t0, Store(t, Find(t, es), Stored(val, false)), es, val, Find(t, es), |es|)
  {
    hide WellFormed, Find, Extended, Assigned;
    assert es[..|es|] == es;
    var v := Stored(val, false);
    StoreAssigns(t0, t, es, v);
    StoreFind(t, Find(t, es), v, es);
  }

  lemma MakingFits(t0: Tree, es: seq<Name>, k: nat, m: nat)
    requires k <= m <= |es| && Making(t0, t0, es, k, Find(t0, es[..k]))
    requires forall i :: k <= i < m ==> |es[i]| + 1 <= ID_MAX
    ensures AllFit(t0, es, m)
  {
    hide WellFormed, Find, Extended;
    forall i | 0 <= i < k ensures Fit(t0, es, i) {
      assert es[..k][..i + 1] == es[..i + 1];
      FoundAbove(t0, es[..k], i + 1);
      FindLookup(t0, es[..i + 1]);
    }
  }

  lemma Unfound(t: Tree, es: seq<Name>, k: nat)
    requires k <= |es| && (k < |es| ==> Find(t, es[..k + 1]) == null) && (k == |es| ==> es == [])
    ensures Find(t, es) == null
  {
    if k < |es| {
      Below(t, es, k + 1);
    }
  }

  lemma {:induction false} Below(t: Tree, es: seq<Name>, k: nat)
    requires 0 < k <= |es| && Find(t, es[..k]) == null
    ensures Find(t, es) == null
    decreases |es| - k
  {
    if k < |es| {
      assert es[..k + 1] == es[..k] + [es[k]];
      NothingBelow(t, es[..k], es[k]);
      Below(t, es, k + 1);
    } else {
      assert es[..k] == es;
    }
  }

  method Copy(p: Path, ghost es: seq<Name>) returns (q: Path)
    requires p.Holds(es)
    ensures fresh(q) && q.Holds(es) && q.binary == p.binary
  {
    q := new Path(p.binary, p.sep, p.assign);
    q.base, q.off, q.len, q.first := p.base, p.off, p.len, p.first;
  }
}

/** Runs of assignments refine updates of a finite map. */
module ConfigRun {
  import opened Bytes
  import opened Nodes
  import opened Paths
  import opened ConfigTree
  import opened Config

  /** A finite map from paths to values. */
  type Values = map<seq<Name>, Meta>

  function Prefixes(p: seq<Name>): set<seq<Name>> {
    set k | 0 < k <= |p| :: p[..k]
  }

  /** Entries without value for the missing prefixes of a path. */
  function Fill(m: Values, p: seq<Name>): Values {
    map q | q in m.Keys + Prefixes(p) :: if q in m then m[q] else None
  }

  /** Elements before the first one that is too long for an identifier. */
  function Usable(es: seq<Name>): (n: nat)
    ensures n <= |es| && (n < |es| ==> |es[n]| + 1 > ID_MAX) && forall i :: 0 <= i < n ==> |es[i]| + 1 <= ID_MAX
  {
    if es == [] || |es[0]| + 1 > ID_MAX then 0 else 1 + Usable(es[1..])
  }

  /** What an assignment does to the map. */
  function Effect(m: Values, es: seq<Name>, val: Val): Values {
    var n := Usable(es);
    if es == [] || n < |es| then Fill(m, es[..n]) else Fill(m, es)[es := Stored(val, es in m)]
  }

  ghost predicate Refines(t: Tree, m: Values) {
    forall q :: Agrees(t, m, q)
  }

  ghost predicate Agrees(t: Tree, m: Values, q: seq<Name>) {
    if q in m then Lookup(t, q) == Entry(m[q]) && Usable(q) == |q| else Lookup(t, q) == Missing
  }

  lemma FillAt(m: Values, p: seq<Name>, q: seq<Name>)
    ensures q in Fill(m, p) <==> q in m || (q != [] && q <= p)
    ensures q in Fill(m, p) ==> Fill(m, p)[q] == if q in m then m[q] else None
  {
    if q != [] && q <= p {
      assert q == p[..|q|];
    }
  }

  lemma UsablePrefix(p: seq<Name>, q: seq<Name>)
    requires q <= p && |q| <= Usable(p)
    ensures Usable(q) == |q|
  {
    forall i | 0 <= i < |q| ensures |q[i]| + 1 <= ID_MAX {
      assert q[i] == p[i];
    }
  }

  lemma FillRefines(t0: Tree, t: Tree, p: seq<Name>, m: Values)
    requires Refines(t0, m) && Extended(t0, t, p) && Usable(p) == |p|
    ensures Refines(t, Fill(m, p))
  {
    var m' := Fill(m, p);
    hide Lookup, Usable, Fill;
    forall q ensures Agrees(t, m', q) {
      assert Agrees(t0, m, q);
      FillAt(m, p, q);
      if q != [] && q <= p {
        UsablePrefix(p, q);
      }
    }
  }

  lemma PutRefines(t0: Tree, t: Tree, p: seq<Name>, v: Meta, m: Values)
    requires Refines(t0, m) && Assigned(t0, t, p, v) && p != [] && Usable(p) == |p|
    ensures Refines(t, Fill(m, p)[p := v])
  {
    var m' := Fill(m, p)[p := v];
    hide Lookup, Usable, Fill;
    forall q ensures Agrees(t, m', q) {
      assert Agrees(t0, m, q);
      FillAt(m, p, q);
      if q != [] && q <= p {
        UsablePrefix(p, q);
      }
    }
  }

  /** All elements that got nodes were short enough. */
  lemma FitUsable(t: Tree, es: seq<Name>, k: nat, m: Values)
    requires Refines(t, m) && AllFit(t, es, k)
    ensures k <= Usable(es)
  {
    forall i | 0 <= i < k ensures |es[i]| + 1 <= ID_MAX {
      var q := es[..i + 1];
      assert Fit(t, es, i) && Agrees(t, m, q) && q[i] == es[i];
    }
  }

  /** An assignment refines its effect on the map, and succeeds exactly if the path is not empty and
      all names fit. */
  lemma AssignRefines(t0: Tree, t: Tree, es: seq<Name>, val: Val, r: Node?, k: nat, m: Values)
    requires Refines(t0, m) && Outcome(t0, t, es, val, r, k)
    ensures Refines(t, Effect(m, es, val))
    ensures r != null <==> es != [] && Usable(es) == |es|
  {
    hide Refines, Assigned, Extended, Fill;
    FitUsable(t0, es, k, m);
    RefinesAt(t0, m, es);
    if r == null {
      assert k == Usable(es);
      UsablePrefix(es, es[..k]);
      FillRefines(t0, t, es[..k], m);
    } else {
      FoundNotEmpty(t, es);
      PutRefines(t0, t, es, Stored(val, es in m), m);
    }
  }

  lemma RefinesAt(t: Tree, m: Values, es: seq<Name>)
    requires Refines(t, m)
    ensures Agrees(t, m, es)
  {}

  lemma FoundNotEmpty(t: Tree, es: seq<Name>)
    requires Find(t, es) != null
    ensures es != []
  {}

  function Effects(m: Values, ops: seq<(seq<byte>, Val)>, sep: byte, assign: byte): Values
    decreases |ops|
  {
    if ops == [] then m
    else Effects(Effect(m, Split(UpTo(ops[0].0, assign), sep), ops[0].1), ops[1..], sep, assign)
  }

  /** Assignment `i` is the last one to the path of a text, and has a value. */
  ghost predicate LastValue(ops: seq<(seq<byte>, Val)>, i: nat, ask: seq<byte>, sep: byte, assign: byte) {
    i < |ops| && ops[i].1.Value? && PathOf(ops[i].0, sep, assign) == PathOf(ask, sep, assign) &&
    forall j :: i < j < |ops| ==> PathOf(ops[j].0, sep, assign) != PathOf(ask, sep, assign)
  }

  function PathOf(text: seq<byte>, sep: byte, assign: byte): seq<Name> {
    Split(UpTo(text, assign), sep)
  }

  /** Assignments to other paths keep an entry. */
  lemma {:induction false} EffectsKeep(m: Values, ops: seq<(seq<byte>, Val)>, q: seq<Name>, sep: byte, assign: byte)
    requires q in m && forall j :: 0 <= j < |ops| ==> PathOf(ops[j].0, sep, assign) != q
    ensures q in Effects(m, ops, sep, assign) && Effects(m, ops, sep, assign)[q] == m[q]
    decreases |ops|
  {
    if ops != [] {
      var es := PathOf(ops[0].0, sep, assign);
      assert es != q;
      EffectKeeps(m, es, ops[0].1, q);
      hide Effect, PathOf;
      EffectsKeep(Effect(m, Split(UpTo(ops[0].0, assign), sep), ops[0].1), ops[1..], q, sep, assign);
    }
  }

  lemma EffectKeeps(m: Values, es: seq<Name>, val: Val, q: seq<Name>)
    requires q in m && q != es
    ensures q in Effect(m, es, val) && Effect(m, es, val)[q] == m[q]
  {}

  /** The last value assigned to a path is what the map holds. */
  lemma {:induction false} LastKept(m: Values, ops: seq<(seq<byte>, Val)>, i: nat, ask: seq<byte>, sep: byte, assign: byte)
    requires LastValue(ops, i, ask, sep, assign)
    requires var q := PathOf(ask, sep, assign); forall k :: 0 <= k < |q| ==> |q[k]| < 0xffff
    ensures var q, m' := PathOf(ask, sep, assign), Effects(m, ops, sep, assign);
            q in m' && m'[q] == Of(ops[i].1.v)
    decreases |ops|
  {
    var q := PathOf(ask, sep, assign);
    var m1 := Effect(m, Split(UpTo(ops[0].0, assign), sep), ops[0].1);
    if i == 0 {
      assert m1 == Effect(m, q, ops[0].1);
      ValueEffect(m, q, ops[0].1.v);
      hide Effect, PathOf;
      EffectsKeep(m1, ops[1..], q, sep, assign);
    } else {
      hide Effect, PathOf;
      LastKept(m1, ops[1..], i - 1, ask, sep, assign);
    }
  }

  lemma ValueEffect(m: Values, q: seq<Name>, v: int)
    requires q != [] && forall k :: 0 <= k < |q| ==> |q[k]| < 0xffff
    ensures q in Effect(m, q, Value(v)) && Effect(m, q, Value(v))[q] == Of(v)
  {}

  /** After any run of assignments to text paths, asking for a path gives what the map holds; that is
      the last value assigned to it, if that had one. */
  method Play(ops: seq<(seq<byte>, Val)>, ask: seq<byte>, sep: byte, assign: byte) returns (entry: Entry)
    ensures var m, q := Effects(map[], ops, sep, assign), PathOf(ask, sep, assign);
            entry == if q in m then Entry(m[q]) else Missing
    ensures (forall k :: 0 <= k < |PathOf(ask, sep, assign)| ==> |PathOf(ask, sep, assign)[k]| < 0xffff) ==>
              forall i: nat :: LastValue(ops, i, ask, sep, assign) ==> entry == Entry(Of(ops[i].1.v))
  {
    hide Packed, Represents, Outcome, Kids, Effect, Lookup;
    var root := new Root();
    ghost var m: Values := map[];
    NothingRefines(root.t);
    assert ops[0..] == ops;
    for i := 0 to |ops|
      invariant fresh(root) && root.Valid() && (forall n :: n in root.t.name ==> fresh(n)) && Refines(root.t, m)
      invariant Effects(map[], ops, sep, assign) == Effects(m, ops[i..], sep, assign)
    {
      assert ops[i..][0] == ops[i] && ops[i..][1..] == ops[i + 1..];
      ghost var es := Split(UpTo(ops[i].0, assign), sep);
      var path, elems := SetPath(ops[i].0, 0, sep, assign);
      ghost var t0 := root.t;
      var r; ghost var k;
      r, k := root.Assign(path, ops[i].1, es);
      AssignRefines(t0, root.t, es, ops[i].1, r, k, m);
      m := Effect(m, es, ops[i].1);
    }
    assert ops[|ops|..] == [];
    var path, elems := SetPath(ask, 0, sep, assign);
    entry := root.Get(path, Split(UpTo(ask, assign), sep));
    RefinesAt(root.t, m, Split(UpTo(ask, assign), sep));
    if forall k :: 0 <= k < |PathOf(ask, sep, assign)| ==> |PathOf(ask, sep, assign)[k]| < 0xffff {
      forall i: nat | LastValue(ops, i, ask, sep, assign) ensures entry == Entry(Of(ops[i].1.v)) {
        LastKept(map[], ops, i, ask, sep, assign);
      }
    }
  }

  lemma NothingRefines(t: Tree)
    requires forall q :: Lookup(t, q) == Missing
    ensures Refines(t, map[])
  {}
}
