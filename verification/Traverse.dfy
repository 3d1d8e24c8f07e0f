/** The levels of a node forest: what level-order traversal has to visit, and when. */
module Levels {
  import opened Nodes

  /** The child list of every node. */
  type Shape = map<Node, seq<Node>>

  function Kids(K: Shape, n: Node): seq<Node> {
    if n in K then K[n] else []
  }

  /** The children of the first `j` nodes of a list, in order. */
  function Below(K: Shape, ns: seq<Node>, j: nat): seq<Node>
    requires j <= |ns|
  {
    if j == 0 then [] else Below(K, ns, j - 1) + Kids(K, ns[j - 1])
  }

  /** The nodes `k` generations below a list. */
  function Level(K: Shape, ns: seq<Node>, k: nat): seq<Node> {
    if k == 0 then ns else var up := Level(K, ns, k - 1); Below(K, up, |up|)
  }

  lemma {:induction false} BelowPrefix(K: Shape, ns: seq<Node>, i: nat, j: nat)
    requires i <= j <= |ns|
    ensures Below(K, ns, i) <= Below(K, ns, j)
  {
    if i < j {
      BelowPrefix(K, ns, i, j - 1);
    }
  }

  /** Child `o` of node `j` follows all children of the nodes before. */
  lemma BelowAt(K: Shape, ns: seq<Node>, j: nat, o: nat)
    requires j < |ns| && o < |Kids(K, ns[j])|
    ensures |Below(K, ns, j)| + o < |Below(K, ns, |ns|)|
    ensures Below(K, ns, |ns|)[|Below(K, ns, j)| + o] == Kids(K, ns[j])[o]
  {
    BelowPrefix(K, ns, j + 1, |ns|);
    var upto, all := Below(K, ns, j), Below(K, ns, |ns|);
    assert upto + Kids(K, ns[j]) <= all;
    hide *;
    assert all[|upto| + o] == (upto + Kids(K, ns[j]))[|upto| + o];
  }

  /** Every place below a list belongs to one child of one node. */
  lemma {:induction false} Owner(K: Shape, ns: seq<Node>, m: nat, i: nat) returns (j: nat, o: nat)
    requires m <= |ns| && i < |Below(K, ns, m)|
    ensures j < m && o < |Kids(K, ns[j])| && i == |Below(K, ns, j)| + o
    ensures Below(K, ns, m)[i] == Kids(K, ns[j])[o]
  {
    if i < |Below(K, ns, m - 1)| {
      j, o := Owner(K, ns, m - 1, i);
    } else {
      j, o := m - 1, i - |Below(K, ns, m - 1)|;
    }
  }

  /** A descent from a list to a node, one child at a time. */
  predicate Descent(K: Shape, ns: seq<Node>, path: seq<Node>) {
    var k := |path| - 1;
    if k <= 0 then k == 0 && path[0] in ns
    else path[k] in Kids(K, path[k - 1]) && Descent(K, ns, path[..k])
  }

  lemma ParentIn(K: Shape, ns: seq<Node>, k: nat, n: Node) returns (p: Node)
    requires k > 0 && n in Level(K, ns, k)
    ensures p in Level(K, ns, k - 1) && p in K && n in K[p]
  {
    var up := Level(K, ns, k - 1);
    var i :| 0 <= i < |Level(K, ns, k)| && Level(K, ns, k)[i] == n;
    var j, o := Owner(K, up, |up|, i);
    p := up[j];
  }

  lemma {:induction false} LevelHasDescent(K: Shape, ns: seq<Node>, k: nat, n: Node) returns (path: seq<Node>)
    requires n in Level(K, ns, k)
    ensures Descent(K, ns, path) && |path| == k + 1 && path[k] == n
  {
    hide Level;
    RootsFirst(K, ns);
    if k == 0 {
      path := [n];
    } else {
      var p := ParentIn(K, ns, k, n);
      var above := LevelHasDescent(K, ns, k - 1, p);
      path := above + [n];
      assert path[..k] == above;
    }
  }

  lemma ChildIn(K: Shape, ns: seq<Node>, k: nat, p: Node, n: Node)
    requires k > 0 && p in Level(K, ns, k - 1) && n in Kids(K, p)
    ensures n in Level(K, ns, k)
  {
    var up := Level(K, ns, k - 1);
    var j :| 0 <= j < |up| && up[j] == p;
    var o :| 0 <= o < |Kids(K, p)| && Kids(K, p)[o] == n;
    BelowAt(K, up, j, o);
  }

  lemma {:induction false} DescentHasLevel(K: Shape, ns: seq<Node>, path: seq<Node>)
    requires Descent(K, ns, path)
    ensures path[|path| - 1] in Level(K, ns, |path| - 1)
    decreases |path|
  {
    var k := |path| - 1;
    if k > 0 {
      DescentHasLevel(K, ns, path[..k]);
      ChildIn(K, ns, k, path[k - 1], path[k]);
    }
  }

  /** No cycles: a rank that falls from every node to its children. */
  predicate Ranked(K: Shape, rank: map<Node, nat>) {
    rank.Keys == K.Keys && forall p :: p in K ==> Falls(rank, p, K[p])
  }

  predicate Falls(rank: map<Node, nat>, p: Node, ns: seq<Node>) {
    p in rank && forall c :: c in ns ==> c in rank && rank[c] < rank[p]
  }

  /** Child lists without duplicates that share no node. */
  ghost predicate Tree(K: Shape) {
    (forall p :: p in K ==> NoDup(K[p])) &&
    forall p, q, c :: p in K && q in K && c in K[p] && c in K[q] ==> p == q
  }

  /** A list of roots: a node above one of them is above them all. */
  predicate Roots(K: Shape, rank: map<Node, nat>, ns: seq<Node>) {
    (forall n :: n in ns ==> n in rank) && forall p, c :: p in K && c in ns && c in K[p] ==> Falls(rank, p, ns)
  }

  /** Each generation costs rank. */
  lemma {:induction false} LevelRank(K: Shape, rank: map<Node, nat>, ns: seq<Node>, k: nat, n: Node) returns (root: Node)
    requires Ranked(K, rank) && (forall n :: n in ns ==> n in rank) && n in Level(K, ns, k)
    ensures root in ns && n in rank && rank[n] + k <= rank[root]
  {
    if k == 0 {
      root := n;
    } else {
      var p := ParentIn(K, ns, k, n);
      root := LevelRank(K, rank, ns, k - 1, p);
      assert Falls(rank, p, K[p]);
    }
  }

  lemma OneParent(K: Shape, p: Node, q: Node, c: Node)
    requires Tree(K) && c in Kids(K, p) && c in Kids(K, q)
    ensures p == q
  {}

  lemma RootsFirst(K: Shape, ns: seq<Node>)
    ensures Level(K, ns, 0) == ns
  {}

  /** No root is below a root. */
  lemma RootsOnTop(K: Shape, rank: map<Node, nat>, ns: seq<Node>, k: nat, n: Node)
    requires Ranked(K, rank) && Roots(K, rank, ns) && n in ns && n in Level(K, ns, k)
    ensures k == 0
  {
    hide Level, Ranked;
    if k > 0 {
      var q := ParentIn(K, ns, k, n);
      var root := LevelRank(K, rank, ns, k - 1, q);
    }
  }

  /** No node is on two levels. */
  lemma {:induction false} LevelsApart(K: Shape, rank: map<Node, nat>, ns: seq<Node>, j: nat, k: nat, n: Node)
    requires Ranked(K, rank) && Tree(K) && Roots(K, rank, ns)
    requires n in Level(K, ns, j) && n in Level(K, ns, k)
    ensures j == k
  {
    hide Level, Ranked, Tree, Roots;
    RootsFirst(K, ns);
    if j == 0 {
      RootsOnTop(K, rank, ns, k, n);
    } else if k == 0 {
      RootsOnTop(K, rank, ns, j, n);
    } else {
      var p := ParentIn(K, ns, j, n);
      var q := ParentIn(K, ns, k, n);
      OneParent(K, p, q, n);
      LevelsApart(K, rank, ns, j - 1, k - 1, p);
    }
  }

  lemma BelowNoDup(K: Shape, up: seq<Node>)
    requires Tree(K) && NoDup(up)
    ensures NoDup(Below(K, up, |up|))
  {
    hide Below;
    var here := Below(K, up, |up|);
    forall a, b | 0 <= a < b < |here| ensures here[a] != here[b] {
      var j, o := Owner(K, up, |up|, a);
      var l, m := Owner(K, up, |up|, b);
      if here[a] == here[b] {
        OneParent(K, up[j], up[l], here[a]);
      }
    }
  }

  /** No node is twice on a level. */
  lemma {:induction false} LevelNoDup(K: Shape, ns: seq<Node>, k: nat)
    requires Tree(K) && NoDup(ns)
    ensures NoDup(Level(K, ns, k))
  {
    if k > 0 {
      LevelNoDup(K, ns, k - 1);
      BelowNoDup(K, Level(K, ns, k - 1));
    }
  }

  /** The leaf filter of the traversal flags. */
  predicate Shown(K: Shape, flags: nat, n: Node) {
    if Kids(K, n) != [] then flags / 2 % 2 == 1 else flags % 2 == 1
  }

  datatype Visit = Visit(node: Node, depth: nat)

  /** Visits of the first `j` nodes of one level. */
  function Row(K: Shape, flags: nat, depth: nat, ns: seq<Node>, j: nat): seq<Visit>
    requires j <= |ns|
  {
    if j == 0 then []
    else Row(K, flags, depth, ns, j - 1) + if Shown(K, flags, ns[j - 1]) then [Visit(ns[j - 1], depth)] else []
  }

  /** Visits of the first `k` levels. */
  function Rows(K: Shape, flags: nat, depth: nat, ns: seq<Node>, k: nat): seq<Visit> {
    if k == 0 then []
    else var here := Level(K, ns, k - 1);
         Rows(K, flags, depth, ns, k - 1) + Row(K, flags, depth + k - 1, here, |here|)
  }

  /** One level: what is visited. */
  lemma {:induction false} RowVisits(K: Shape, flags: nat, depth: nat, ns: seq<Node>, j: nat, v: Visit)
    requires j <= |ns|
    ensures v in Row(K, flags, depth, ns, j) <==> v.depth == depth && v.node in ns[..j] && Shown(K, flags, v.node)
  {
    if j > 0 {
      RowVisits(K, flags, depth, ns, j - 1, v);
      assert ns[..j] == ns[..j - 1] + [ns[j - 1]];
      assert v.node in ns[..j] <==> v.node in ns[..j - 1] || v.node == ns[j - 1];
      assert v in Row(K, flags, depth, ns, j) <==>
          v in Row(K, flags, depth, ns, j - 1) || (Shown(K, flags, ns[j - 1]) && v == Visit(ns[j - 1], depth));
    }
  }

  /** No node is visited twice, and never after a deeper one. */
  predicate Once(vs: seq<Visit>) {
    forall a, b :: 0 <= a < b < |vs| ==> Before(vs[a], vs[b])
  }

  predicate Before(v: Visit, w: Visit) {
    v.node != w.node && v.depth <= w.depth
  }

  lemma OnceConcat(vs: seq<Visit>, ws: seq<Visit>)
    requires Once(vs) && Once(ws) && forall v, w :: v in vs && w in ws ==> Before(v, w)
    ensures Once(vs + ws)
  {
    forall a, b | 0 <= a < b < |vs + ws| ensures Before((vs + ws)[a], (vs + ws)[b]) {
      if a < |vs| <= b {
        assert vs[a] in vs && ws[b - |vs|] in ws;
      }
    }
  }

  lemma {:induction false} RowOnce(K: Shape, flags: nat, depth: nat, ns: seq<Node>, j: nat)
    requires j <= |ns| && NoDup(ns)
    ensures Once(Row(K, flags, depth, ns, j))
  {
    if j > 0 {
      RowOnce(K, flags, depth, ns, j - 1);
      var last := if Shown(K, flags, ns[j - 1]) then [Visit(ns[j - 1], depth)] else [];
      forall v, w | v in Row(K, flags, depth, ns, j - 1) && w in last ensures Before(v, w) {
        RowVisits(K, flags, depth, ns, j - 1, v);
        assert w == last[0];
      }
      OnceConcat(Row(K, flags, depth, ns, j - 1), last);
    }
  }

  lemma {:induction false} RowsVisit(K: Shape, flags: nat, depth: nat, ns: seq<Node>, k: nat, v: Visit)
    ensures v in Rows(K, flags, depth, ns, k) <==>
              depth <= v.depth < depth + k && v.node in Level(K, ns, v.depth - depth) && Shown(K, flags, v.node)
  {
    hide Level, Row, Shown;
    if k > 0 {
      var here := Level(K, ns, k - 1);
      RowsVisit(K, flags, depth, ns, k - 1, v);
      RowVisits(K, flags, depth + k - 1, here, |here|, v);
      assert here[..|here|] == here;
    }
  }

  lemma {:induction false} RowsOnce(K: Shape, rank: map<Node, nat>, flags: nat, depth: nat, ns: seq<Node>, k: nat)
    requires Ranked(K, rank) && Tree(K) && Roots(K, rank, ns) && NoDup(ns)
    ensures Once(Rows(K, flags, depth, ns, k))
  {
    hide Level, Row, Shown, Once, Ranked, Tree, Roots, NoDup;
    if k > 0 {
      var here := Level(K, ns, k - 1);
      var rows, row := Rows(K, flags, depth, ns, k - 1), Row(K, flags, depth + k - 1, here, |here|);
      RowsOnce(K, rank, flags, depth, ns, k - 1);
      LevelNoDup(K, ns, k - 1);
      RowOnce(K, flags, depth + k - 1, here, |here|);
      assert here[..|here|] == here;
      forall v, w | v in rows && w in row ensures Before(v, w) {
        RowsVisit(K, flags, depth, ns, k - 1, v);
        RowVisits(K, flags, depth + k - 1, here, |here|, w);
        if v.node == w.node {
          LevelsApart(K, rank, ns, v.depth - depth, k - 1, v.node);
        }
      }
      OnceConcat(rows, row);
    } else {
      NothingOnce();
    }
  }

  lemma NothingOnce()
    ensures Once([])
  {}

  /** Breadth first: each node that can be reached is visited once if the flags show it, level by
      level, with the length of the descent to it as its depth. */
  lemma LevelOrderVisits(K: Shape, rank: map<Node, nat>, flags: nat, depth: nat, ns: seq<Node>, height: nat, n: Node, k: nat)
    requires Ranked(K, rank) && Tree(K) && Roots(K, rank, ns) && NoDup(ns)
    requires forall n :: n in ns ==> rank[n] < height
    ensures Once(Rows(K, flags, depth, ns, height))
    ensures Visit(n, depth + k) in Rows(K, flags, depth, ns, height) <==>
              Shown(K, flags, n) && exists path :: Descent(K, ns, path) && |path| == k + 1 && path[k] == n
  {
    hide Level, Rows, Once, Descent, Tree, Ranked;
    RowsVisit(K, flags, depth, ns, height, Visit(n, depth + k));
    RowsOnce(K, rank, flags, depth, ns, height);
    if n in Level(K, ns, k) {
      var path := LevelHasDescent(K, ns, k, n);
      var root := LevelRank(K, rank, ns, k, n);
    }
    forall path | Descent(K, ns, path) && |path| == k + 1 && path[k] == n ensures n in Level(K, ns, k) {
      DescentHasLevel(K, ns, path);
    }
  }

  /** No level is left at the height. */
  lemma NoLevel(K: Shape, rank: map<Node, nat>, ns: seq<Node>, k: nat)
    requires Ranked(K, rank) && (forall n :: n in ns ==> n in rank && rank[n] < k)
    ensures Level(K, ns, k) == []
  {
    if Level(K, ns, k) != [] {
      var root := LevelRank(K, rank, ns, k, Level(K, ns, k)[0]);
    }
  }

  /** Below an empty level there is nothing to visit. */
  lemma {:induction false} RowsEnd(K: Shape, flags: nat, depth: nat, ns: seq<Node>, k: nat, height: nat)
    requires k <= height && Level(K, ns, k) == []
    ensures Level(K, ns, height) == [] && Rows(K, flags, depth, ns, height) == Rows(K, flags, depth, ns, k)
  {
    if k < height {
      RowsEnd(K, flags, depth, ns, k, height - 1);
    }
  }

  lemma {:induction false} RowsGrow(K: Shape, flags: nat, depth: nat, ns: seq<Node>, k: nat, height: nat)
    requires k <= height
    ensures Rows(K, flags, depth, ns, k) <= Rows(K, flags, depth, ns, height)
  {
    hide Level, Row;
    if k < height {
      RowsGrow(K, flags, depth, ns, k, height - 1);
    }
  }

  lemma {:induction false} RowGrows(K: Shape, flags: nat, depth: nat, ns: seq<Node>, j: nat)
    requires j <= |ns|
    ensures Row(K, flags, depth, ns, j) <= Row(K, flags, depth, ns, |ns|)
    decreases |ns| - j
  {
    if j < |ns| {
      RowGrows(K, flags, depth, ns, j + 1);
    }
  }
}

/** Level-order traversal by climbing a bounded number of parents, without a queue. */
module Traverse {
  import opened Nodes
  import opened Levels

  /** The nodes are linked as the shape says. */
  ghost predicate Describes(K: Shape)
    reads K.Keys
  {
    forall n :: n in K ==> Described(K, n)
  }

  ghost predicate Described(K: Shape, n: Node)
    requires n in K
    reads K.Keys
  {
    K[n] == n.kids && Inside(K.Keys, n.kids) && Family(n.kids, n)
  }

  /** A traversal starts inside a complete sibling list. */
  datatype Scene = Scene(K: Shape, list: seq<Node>, parent: Node?, first: nat)

  ghost predicate Ready(c: Scene)
    reads c.K.Keys, c.list
  {
    Describes(c.K) && c.first <= |c.list| && Inside(c.K.Keys, c.list) && Linked(c.list, c.parent) &&
    (c.parent != null ==> c.parent in c.K && c.list == c.K[c.parent])
  }

  /** The nodes from the start of the traversal to the end of the list. */
  function Start(c: Scene): seq<Node> {
    if c.first <= |c.list| then c.list[c.first..] else []
  }

  /** The nodes `k` generations below. */
  function Tier(c: Scene, k: nat): seq<Node> {
    Level(c.K, Start(c), k)
  }

  lemma FamiliesDisjoint(K: Shape)
    requires Describes(K)
    ensures Tree(K)
  {
    forall p, q, c | p in K && q in K && c in K[p] && c in K[q] ensures p == q {
      assert Described(K, p) && Described(K, q);
      ParentOf(p.kids, p);
      ParentOf(q.kids, q);
    }
    forall p | p in K ensures NoDup(K[p]) {
      assert Described(K, p);
    }
  }

  lemma StartIsRoots(c: Scene, rank: map<Node, nat>)
    requires Ready(c) && Ranked(c.K, rank)
    ensures Roots(c.K, rank, Start(c)) && NoDup(Start(c))
  {
    var ns := Start(c);
    ParentOf(c.list, c.parent);
    forall p, n | p in c.K && n in ns && n in c.K[p] ensures Falls(rank, p, ns) {
      assert Described(c.K, p);
      ParentOf(p.kids, p);
      assert n in c.list;
      assert Falls(rank, p, c.K[p]);
    }
  }

  lemma NextRoot(c: Scene, i: nat)
    requires Ready(c) && i < |Start(c)|
    ensures Start(c)[i].next == At(Start(c), i + 1)
  {
    assert Link(c.list, c.parent, c.first + i);
  }

  lemma NextChild(c: Scene, p: Node, o: nat)
    requires Ready(c) && o < |Kids(c.K, p)|
    ensures Kids(c.K, p)[o].next == At(Kids(c.K, p), o + 1) && Kids(c.K, p)[o].parent == p
  {
    assert Described(c.K, p);
    assert Link(p.kids, p, o);
  }

  lemma FirstChild(c: Scene, k: nat, p: Node)
    requires Ready(c) && p in Tier(c, k)
    ensures p.children == At(Kids(c.K, p), 0)
  {
    TierInside(c, k);
    assert Described(c.K, p);
  }

  lemma {:induction false} TierInside(c: Scene, k: nat)
    requires Ready(c)
    ensures Inside(c.K.Keys, Tier(c, k))
  {
    if k > 0 {
      forall n | n in Tier(c, k) ensures n in c.K {
        var p := ParentIn(c.K, Start(c), k, n);
        assert Described(c.K, p);
      }
    }
  }

  /** The sibling of a child is its successor on the level; the last child is followed by the first
      place of the next node. */
  lemma Successor(K: Shape, ns: seq<Node>, j: nat, o: nat)
    requires j < |ns| && o < |Kids(K, ns[j])|
    ensures o + 1 < |Kids(K, ns[j])| ==>
              At(Below(K, ns, |ns|), |Below(K, ns, j)| + o + 1) == Kids(K, ns[j])[o + 1]
    ensures o + 1 == |Kids(K, ns[j])| ==> |Below(K, ns, j)| + o + 1 == |Below(K, ns, j + 1)|
  {
    if o + 1 < |Kids(K, ns[j])| {
      BelowAt(K, ns, j, o + 1);
    }
  }

  /** The first place of a node holds its first child; without children it is passed on. */
  lemma Arrival(K: Shape, ns: seq<Node>, j: nat)
    requires j < |ns|
    ensures Kids(K, ns[j]) != [] ==> At(Below(K, ns, |ns|), |Below(K, ns, j)|) == Kids(K, ns[j])[0]
    ensures Kids(K, ns[j]) == [] ==> |Below(K, ns, j)| == |Below(K, ns, j + 1)|
  {
    if Kids(K, ns[j]) != [] {
      BelowAt(K, ns, j, 0);
    }
  }

  lemma TierBelow(c: Scene, k: nat)
    ensures Tier(c, 0) == Start(c)
    ensures k > 0 ==> Tier(c, k) == Below(c.K, Tier(c, k - 1), |Tier(c, k - 1)|)
  {}

  /** The next node on the same level, climbing at most `up` parents: exactly the successor on the
      level, so that the nodes before and behind the start list are never entered. */
  method SameLevel(start: Node?, up: nat, ghost c: Scene, ghost i: nat) returns (r: Node?)
    requires Ready(c) && start == At(Tier(c, up), i)
    ensures r == At(Tier(c, up), i + 1)
    decreases up
  {
    hide Tier, Below, Ready, Kids;
    if start == null { return null; }
    TierBelow(c, up);
    if up == 0 {
      NextRoot(c, i);
      return start.next;
    }
    ghost var above := Tier(c, up - 1);
    ghost var j, o := Owner(c.K, above, |above|, i);
    NextChild(c, above[j], o);
    Successor(c.K, above, j, o);
    if start.next != null { return start.next; }
    var n: Node := start.parent;
    while true
      invariant j < |above| && n == above[j] && i + 1 == |Below(c.K, above, j + 1)|
      decreases |above| - j
    {
      var m := SameLevel(n, up - 1, c, j);
      j := j + 1;
      if m == null { return null; }
      FirstChild(c, up - 1, m);
      Arrival(c.K, above, j);
      if m.children != null { return m.children; }
      n := m;
    }
  }

  /** First node of the next level. */
  method SubLevel(start: Node?, up: nat, ghost c: Scene) returns (r: Node?)
    requires Ready(c) && start == At(Tier(c, up), 0)
    ensures r == At(Tier(c, up + 1), 0)
  {
    hide Tier, Ready, Kids;
    ghost var i, here := 0, Tier(c, up);
    r := start;
    TierBelow(c, up + 1);
    while r != null
      invariant i <= |here| && r == At(here, i) && Below(c.K, here, i) == []
      decreases |here| - i
    {
      FirstChild(c, up, r);
      Arrival(c.K, here, i);
      if r.children != null { return r.children; }
      r := SameLevel(r, up, c, i);
      i := i + 1;
    }
  }

  /** The handler's answer depends on the calls made so far; non-zero ends the traversal. */
  type Handler = seq<Visit> -> bool

  /** All calls answered with zero. */
  ghost predicate Quiet(h: Handler, calls: seq<Visit>) {
    forall m :: 0 < m <= |calls| ==> !h(calls[..m])
  }

  /** The calls follow a list of visits up to the first non-zero answer, which names the result. */
  ghost predicate Follows(all: seq<Visit>, h: Handler, calls: seq<Visit>, r: Node?) {
    calls <= all &&
    if r == null then calls == all && Quiet(h, calls)
    else calls != [] && h(calls) && r == calls[|calls| - 1].node && Quiet(h, calls[..|calls| - 1])
  }

  lemma QuietMore(h: Handler, calls: seq<Visit>, v: Visit)
    requires Quiet(h, calls) && !h(calls + [v])
    ensures Quiet(h, calls + [v])
  {
    forall m | 0 < m <= |calls| + 1 ensures !h((calls + [v])[..m]) {
      if m <= |calls| {
        assert (calls + [v])[..m] == calls[..m];
      } else {
        assert (calls + [v])[..m] == calls + [v];
      }
    }
  }

  lemma ShownBy(c: Scene, k: nat, flags: nat, n: Node)
    requires Ready(c) && n in Tier(c, k)
    ensures Shown(c.K, flags, n) == if n.children != null then flags / 2 % 2 == 1 else flags % 2 == 1
  {
    FirstChild(c, k, n);
  }

  lemma Stops(all: seq<Visit>, h: Handler, calls: seq<Visit>, v: Visit)
    requires Quiet(h, calls) && h(calls + [v]) && calls + [v] <= all
    ensures Follows(all, h, calls + [v], v.node)
  {
    assert (calls + [v])[..|calls|] == calls;
  }

  /** Visits one level. */
  method TraverseTier(first: Node?, flags: nat, depth: nat, up: nat, h: Handler, before: seq<Visit>, ghost c: Scene)
      returns (r: Node?, calls: seq<Visit>)
    requires Ready(c) && first == At(Tier(c, up), 0) && Quiet(h, before)
    ensures var all := before + Row(c.K, flags, depth, Tier(c, up), |Tier(c, up)|);
            if r == null then calls == all && Quiet(h, calls) else Follows(all, h, calls, r)
  {
    hide Tier, Ready, Shown, Quiet, Follows;
    calls := before;
    ghost var i, here := 0, Tier(c, up);
    var curr := first;
    while curr != null
      invariant i <= |here| && curr == At(here, i) && Quiet(h, calls)
      invariant calls == before + Row(c.K, flags, depth, here, i)
      decreases |here| - i
    {
      ShownBy(c, up, flags, curr);
      ghost var was := calls;
      if (if curr.children != null then flags / 2 % 2 == 1 else flags % 2 == 1) {
        calls := calls + [Visit(curr, depth)];
        assert calls == before + Row(c.K, flags, depth, here, i + 1);
        if h(calls) {
          RowGrows(c.K, flags, depth, here, i + 1);
          Stops(before + Row(c.K, flags, depth, here, |here|), h, was, Visit(curr, depth));
          return curr, calls;
        }
        QuietMore(h, was, Visit(curr, depth));
      }
      if curr.next == null {
        curr := SameLevel(curr, up, c, i);
      } else {
        NextOnTier(c, up, i);
        curr := curr.next;
      }
      i := i + 1;
    }
    r := null;
  }

  /** A sibling is the successor on the level. */
  lemma NextOnTier(c: Scene, up: nat, i: nat)
    requires Ready(c) && i < |Tier(c, up)| && Tier(c, up)[i].next != null
    ensures Tier(c, up)[i].next == At(Tier(c, up), i + 1)
  {
    hide Tier, Below, Ready, Kids;
    TierBelow(c, up);
    if up == 0 {
      NextRoot(c, i);
    } else {
      var above := Tier(c, up - 1);
      var j, o := Owner(c.K, above, |above|, i);
      NextChild(c, above[j], o);
      Successor(c.K, above, j, o);
    }
  }

  lemma NoTier(c: Scene, rank: map<Node, nat>, height: nat)
    requires Ranked(c.K, rank) && forall n :: n in Start(c) ==> n in rank && rank[n] < height
    ensures Tier(c, height) == []
  {
    NoLevel(c.K, rank, Start(c), height);
  }

  lemma RowsTier(c: Scene, flags: nat, depth: nat, k: nat)
    ensures Rows(c.K, flags, depth, Start(c), k + 1) ==
              Rows(c.K, flags, depth, Start(c), k) + Row(c.K, flags, depth + k, Tier(c, k), |Tier(c, k)|)
  {}

  lemma TiersEnd(c: Scene, flags: nat, depth: nat, k: nat, height: nat)
    requires k <= height && Tier(c, k) == []
    ensures Rows(c.K, flags, depth, Start(c), height) == Rows(c.K, flags, depth, Start(c), k)
  {
    RowsEnd(c.K, flags, depth, Start(c), k, height);
  }

  /** Level order: the calls follow the visits of all levels below the start list. */
  method TraverseLevel(node: Node?, flags: nat, depth: nat, h: Handler, ghost c: Scene, ghost rank: map<Node, nat>, ghost height: nat)
      returns (r: Node?, calls: seq<Visit>)
    requires Ready(c) && node == At(Start(c), 0) && Ranked(c.K, rank)
    requires forall n :: n in Start(c) ==> n in rank && rank[n] < height
    ensures Follows(Rows(c.K, flags, depth, Start(c), height), h, calls, r)
  {
    hide Ready, Tier, Start, Ranked, Row;
    calls := [];
    TierBelow(c, 0);
    NoTier(c, rank, height);
    var up, d, first := 0, depth, node;
    while first != null
      invariant up <= height && first == At(Tier(c, up), 0) && d == depth + up
      invariant calls == Rows(c.K, flags, depth, Start(c), up) && Quiet(h, calls)
      decreases height - up
    {
      r, calls := TraverseTier(first, flags, d, up, h, calls, c);
      RowsTier(c, flags, depth, up);
      RowsGrow(c.K, flags, depth, Start(c), up + 1, height);
      if r != null { return; }
      first := SubLevel(first, up, c);
      up := up + 1;
      d := d + 1;
    }
    TiersEnd(c, flags, depth, up, height);
    r := null;
  }

  /** What a complete traversal visits: every node below the start list that the flags show, once, level
      by level, with its distance from the list as depth. */
  lemma TraversalVisits(c: Scene, rank: map<Node, nat>, flags: nat, depth: nat, height: nat, n: Node, k: nat)
    requires Ready(c) && Ranked(c.K, rank)
    requires forall n :: n in Start(c) ==> n in rank && rank[n] < height
    ensures Once(Rows(c.K, flags, depth, Start(c), height))
    ensures Visit(n, depth + k) in Rows(c.K, flags, depth, Start(c), height) <==>
              Shown(c.K, flags, n) && exists path :: Descent(c.K, Start(c), path) && |path| == k + 1 && path[k] == n
  {
    hide *;
    SceneDescribed(c);
    FamiliesDisjoint(c.K);
    StartIsRoots(c, rank);
    LevelOrderVisits(c.K, rank, flags, depth, Start(c), height, n, k);
  }

  lemma SceneDescribed(c: Scene)
    requires Ready(c)
    ensures Describes(c.K)
  {}
}
