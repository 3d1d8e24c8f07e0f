/** Nodes: doubly linked siblings with parent and child links, positional and named insertion. */
module Nodes {
  import opened Bytes

  datatype Ident = Ident(charset: nat, data: seq<byte>)

  const UTF8 := 1

  /** The metatype of a node: none, the default instance, or one that holds a value. */
  datatype Meta = None | Default | Of(value: int)

  class Node {
    var next: Node?
    var prev: Node?
    var parent: Node?
    var children: Node?
    var ident: Ident
    var meta: Meta

    /** The child list the links stand for. */
    ghost var kids: seq<Node>

    constructor (ident: Ident, meta: Meta)
      ensures next == null && prev == null && parent == null && children == null && kids == []
      ensures this.ident == ident && this.meta == meta
    {
      next, prev, parent, children, kids := null, null, null, null, [];
      this.ident, this.meta := ident, meta;
    }
  }

  ghost predicate NoDup(ns: seq<Node>) {
    forall i, j :: 0 <= i < j < |ns| ==> ns[i] != ns[j]
  }

  function At(ns: seq<Node>, i: int): Node? {
    if 0 <= i < |ns| then ns[i] else null
  }

  /** The links of one sibling. */
  ghost predicate Link(ns: seq<Node>, parent: Node?, i: nat)
    requires i < |ns|
    reads ns
  {
    ns[i].prev == At(ns, i - 1) && ns[i].next == At(ns, i + 1) && ns[i].parent == parent
  }

  /** A complete sibling list below `parent` (or a list without parent). */
  ghost predicate Linked(ns: seq<Node>, parent: Node?)
    reads ns
  {
    NoDup(ns) && forall i :: 0 <= i < |ns| ==> Link(ns, parent, i)
  }

  /** The list and the child link of its parent. */
  ghost predicate Family(ns: seq<Node>, parent: Node?)
    reads ns, if parent == null then {} else {parent}
  {
    Linked(ns, parent) && (parent != null ==> parent !in ns && parent.children == At(ns, 0))
  }

  function InsertAt(ns: seq<Node>, i: nat, node: Node): seq<Node>
    requires i <= |ns|
  {
    ns[..i] + [node] + ns[i..]
  }

  /** Node `pos` steps away: back for negative positions, the last node for 0, otherwise the n-th
      counted from the given node. */
  method Pos(node: Node, pos: int, ghost ns: seq<Node>, ghost parent: Node?, ghost i: nat) returns (r: Node?)
    requires Linked(ns, parent) && i < |ns| && ns[i] == node
    ensures r == At(ns, if pos < 0 then i + pos else if pos > 0 then i + pos - 1 else |ns| - 1)
  {
    r := node;
    ghost var k: int := i;
    if pos < 0 {
      var left := pos;
      while left != 0 && r != null
        invariant left <= 0 && k == i + pos - left && -1 <= k < |ns| && r == At(ns, k)
        decreases -left
      {
        assert Link(ns, parent, k);
        left := left + 1;
        r, k := r.prev, k - 1;
      }
    } else if pos > 0 {
      var left := pos - 1;
      while left != 0 && r != null
        invariant left >= 0 && k == i + pos - 1 - left && 0 <= k <= |ns| && r == At(ns, k)
        decreases left
      {
        assert Link(ns, parent, k);
        left := left - 1;
        r, k := r.next, k + 1;
      }
    } else {
      assert Link(ns, parent, k);
      while r.next != null
        invariant 0 <= k < |ns| && r == ns[k] && Link(ns, parent, k)
        decreases |ns| - k
      {
        r, k := r.next, k + 1;
        assert Link(ns, parent, k);
      }
    }
  }

  lemma InsertIndex(ns: seq<Node>, i: nat, node: Node)
    requires i <= |ns| && node !in ns && NoDup(ns)
    ensures var ms := InsertAt(ns, i, node);
            && |ms| == |ns| + 1 && NoDup(ms) && ms[i] == node
            && (forall k :: 0 <= k < i ==> ms[k] == ns[k])
            && (forall k :: i < k < |ms| ==> ms[k] == ns[k - 1])
  {
    var ms := InsertAt(ns, i, node);
    forall j, k | 0 <= j < k < |ms| ensures ms[j] != ms[k] {
      var j', k' := if j < i then j else j - 1, if k < i then k else k - 1;
      assert j != i ==> ms[j] == ns[j'];
      assert k != i ==> ms[k] == ns[k'];
    }
  }

  /** The links of a sibling list around a node that is being put at index `i`. */
  ghost predicate Spliced(ns: seq<Node>, i: nat, node: Node, parent: Node?)
    requires i <= |ns|
    reads ns, node
  {
    node.prev == At(ns, i - 1) && node.next == At(ns, i) && node.parent == parent &&
    forall k :: 0 <= k < |ns| ==> Beside(ns, i, node, parent, k)
  }

  ghost predicate Beside(ns: seq<Node>, i: nat, node: Node, parent: Node?, k: nat)
    requires k < |ns|
    reads ns
  {
    ns[k].parent == parent &&
    ns[k].prev == (if k == i then node else At(ns, k - 1)) &&
    ns[k].next == (if k == i - 1 then node else At(ns, k + 1))
  }

  lemma SplicedLinked(ns: seq<Node>, i: nat, node: Node, parent: Node?)
    requires i <= |ns| && NoDup(ns) && node !in ns && Spliced(ns, i, node, parent)
    ensures Linked(InsertAt(ns, i, node), parent)
  {
    var ms := InsertAt(ns, i, node);
    InsertIndex(ns, i, node);
    hide InsertAt;
    forall k | 0 <= k < |ms| ensures Link(ms, parent, k) {
      if k < i {
        assert Beside(ns, i, node, parent, k);
      } else if k > i {
        assert Beside(ns, i, node, parent, k - 1);
      }
    }
  }

  /** Everything but the sibling links and the parent link is left alone. */
  twostate predicate OnlyLinks(n: Node)
    reads n
  {
    n.children == old(n.children) && n.ident == old(n.ident) && n.meta == old(n.meta) && n.kids == old(n.kids)
  }

  /** Everything but the child link is left alone. */
  twostate predicate OnlyChildren(n: Node)
    reads n
  {
    n.next == old(n.next) && n.prev == old(n.prev) && n.parent == old(n.parent) &&
    n.ident == old(n.ident) && n.meta == old(n.meta) && n.kids == old(n.kids)
  }

  /** Links `insert` behind `position`. */
  method After(position: Node, insert: Node, ghost ns: seq<Node>, ghost parent: Node?, ghost i: nat)
    requires Family(ns, parent) && i < |ns| && ns[i] == position && insert !in ns && insert != parent
    modifies insert, ns
    ensures Family(InsertAt(ns, i + 1, insert), parent)
    ensures OnlyLinks(insert)
    ensures forall n :: n in ns ==> n.children == old(n.children) && n.kids == old(n.kids)
    ensures forall n :: n in ns ==> n.ident == old(n.ident) && n.meta == old(n.meta)
  {
    assert Link(ns, parent, i);
    insert.prev := position;
    insert.next := position.next;
    position.next := insert;
    insert.parent := position.parent;
    if insert.next != null {
      insert.next.prev := insert;
    }
    ghost var j := i + 1;
    forall k | 0 <= k < |ns| ensures Beside(ns, j, insert, parent, k) {
      assert old(Link(ns, parent, k));
    }
    SplicedLinked(ns, i + 1, insert, parent);
  }

  /** Links `insert` before `position`. */
  method Before(position: Node, insert: Node, ghost ns: seq<Node>, ghost parent: Node?, ghost i: nat)
    requires Family(ns, parent) && i < |ns| && ns[i] == position && insert !in ns && insert != parent
    modifies insert, ns, if parent == null then {} else {parent}
    ensures Family(InsertAt(ns, i, insert), parent)
    ensures OnlyLinks(insert)
    ensures forall n :: n in ns ==> n.children == old(n.children) && n.kids == old(n.kids)
    ensures forall n :: n in ns ==> n.ident == old(n.ident) && n.meta == old(n.meta)
    ensures parent != null ==> OnlyChildren(parent)
  {
    assert Link(ns, parent, i);
    insert.prev := position.prev;
    insert.next := position;
    position.prev := insert;
    insert.parent := position.parent;
    if insert.prev != null {
      insert.prev.next := insert;
    } else if insert.parent != null {
      insert.parent.children := insert;
    }
    forall k | 0 <= k < |ns| ensures Beside(ns, i, insert, parent, k) {
      assert old(Link(ns, parent, k));
    }
    SplicedLinked(ns, i, insert, parent);
  }

  /** With the guards of the source: nothing happens without both nodes, or with the same one. */
  method InsertAfter(position: Node?, insert: Node?, ghost ns: seq<Node>, ghost parent: Node?, ghost i: nat) returns (r: Node?)
    requires position != null && insert != null && insert != position ==>
               Family(ns, parent) && i < |ns| && ns[i] == position && insert !in ns && insert != parent
    modifies if insert == null then {} else {insert}, ns
    ensures r == insert
    ensures if position == null || insert == null || insert == position
            then unchanged(ns) && (insert != null ==> unchanged(insert))
            else Family(InsertAt(ns, i + 1, insert), parent) && OnlyLinks(insert)
  {
    hide InsertAt;
    if insert == null { return null; }
    if position == null || insert == position { return insert; }
    After(position, insert, ns, parent, i);
    return insert;
  }

  method InsertBefore(position: Node?, insert: Node?, ghost ns: seq<Node>, ghost parent: Node?, ghost i: nat) returns (r: Node?)
    requires position != null && insert != null && insert != position ==>
               Family(ns, parent) && i < |ns| && ns[i] == position && insert !in ns && insert != parent
    modifies if insert == null then {} else {insert}, ns, if parent == null then {} else {parent}
    ensures r == insert
    ensures if position == null || insert == null || insert == position
            then unchanged(ns) && (insert != null ==> unchanged(insert)) && (parent != null ==> unchanged(parent))
            else Family(InsertAt(ns, i, insert), parent) && OnlyLinks(insert)
  {
    hide InsertAt;
    if insert == null { return null; }
    if position == null || insert == position { return insert; }
    Before(position, insert, ns, parent, i);
    return insert;
  }

  function RemoveAt(ns: seq<Node>, i: nat): seq<Node>
    requires i < |ns|
  {
    ns[..i] + ns[i + 1..]
  }

  /** The links of the siblings that stay when the node at index `i` is taken out. */
  ghost predicate Bypassed(ns: seq<Node>, i: nat, parent: Node?, k: nat)
    requires i < |ns| && k < |ns|
    reads ns
  {
    ns[k].parent == parent &&
    ns[k].prev == At(ns, if k == i + 1 then i - 1 else k - 1) &&
    ns[k].next == At(ns, if k == i - 1 then i + 1 else k + 1)
  }

  lemma BypassedLinked(ns: seq<Node>, i: nat, parent: Node?)
    requires i < |ns| && NoDup(ns)
    requires forall k :: 0 <= k < |ns| && k != i ==> Bypassed(ns, i, parent, k)
    ensures Linked(RemoveAt(ns, i), parent)
  {
    var ms := RemoveAt(ns, i);
    forall k | 0 <= k < |ms| ensures Link(ms, parent, k) {
      assert Bypassed(ns, i, parent, if k < i then k else k + 1);
    }
  }

  /** Takes a node out of its list and out of its parent. */
  method Unlink(curr: Node, ghost ns: seq<Node>, ghost parent: Node?, ghost i: nat) returns (next: Node?)
    requires Family(ns, parent) && i < |ns| && ns[i] == curr
    modifies ns, if parent == null then {} else {parent}
    ensures next == At(ns, i + 1) && Family(RemoveAt(ns, i), parent)
    ensures curr.parent == null && curr.next == null && curr.prev == null
    ensures forall n :: n in ns ==> n.children == old(n.children) && n.kids == old(n.kids)
    ensures forall n :: n in ns ==> n.ident == old(n.ident) && n.meta == old(n.meta)
    ensures parent != null ==> OnlyChildren(parent)
  {
    assert Link(ns, parent, i);
    next := curr.next;
    if next != null {
      next.prev := curr.prev;
    }
    if curr.prev != null {
      curr.prev.next := next;
    } else if curr.parent != null {
      curr.parent.children := next;
    }
    curr.parent, curr.next, curr.prev := null, null, null;
    forall k | 0 <= k < |ns| && k != i ensures Bypassed(ns, i, parent, k) {
      assert old(Link(ns, parent, k));
    }
    BypassedLinked(ns, i, parent);
  }

  /** Taking out an inserted node restores the list. */
  lemma InsertThenRemove(ns: seq<Node>, i: nat, node: Node)
    requires i <= |ns|
    ensures RemoveAt(InsertAt(ns, i, node), i) == ns
  {}

  datatype Key = Any | Named(ident: Ident)

  predicate Match(key: Key, n: Node)
    reads n
  {
    key.Any? || n.ident == key.ident
  }

  /** Matching nodes among the first `k`. */
  ghost function Count(ns: seq<Node>, key: Key, k: nat): (c: nat)
    requires k <= |ns|
    reads ns
    ensures c <= k
  {
    if k == 0 then 0 else Count(ns, key, k - 1) + if Match(key, ns[k - 1]) then 1 else 0
  }

  lemma {:induction false} CountAny(ns: seq<Node>, k: nat)
    requires k <= |ns|
    ensures Count(ns, Any, k) == k
  {
    if k > 0 {
      CountAny(ns, k - 1);
    }
  }

  lemma {:induction false} CountGrows(ns: seq<Node>, key: Key, j: nat, k: nat)
    requires j <= k <= |ns|
    ensures Count(ns, key, j) <= Count(ns, key, k)
  {
    if j < k {
      CountGrows(ns, key, j, k - 1);
    }
  }

  /** The match that a search from index `i` asks for, counted from the start of the list. */
  ghost function Wanted(ns: seq<Node>, key: Key, i: nat, pos: int): int
    requires i <= |ns|
    reads ns
  {
    if pos > 0 then Count(ns, key, i) + pos - 1
    else if pos < 0 then Count(ns, key, i) + pos
    else Count(ns, key, |ns|) - 1
  }

  /** `r` is the match number `t`, at index `j`, or null if there is none. */
  ghost predicate IsMatch(ns: seq<Node>, key: Key, t: int, r: Node?, j: nat)
    reads ns
  {
    if r == null then t < 0 || t >= Count(ns, key, |ns|)
    else j < |ns| && r == ns[j] && Match(key, r) && Count(ns, key, j) == t
  }

  /** Last node of a list. */
  method LastNode(curr: Node, ghost ns: seq<Node>, ghost parent: Node?, ghost i: nat) returns (n: Node, ghost k: nat)
    requires Linked(ns, parent) && i < |ns| && ns[i] == curr
    ensures k + 1 == |ns| && n == ns[k]
  {
    n, k := curr, i;
    assert Link(ns, parent, k);
    while n.next != null
      invariant k < |ns| && n == ns[k] && Link(ns, parent, k)
      decreases |ns| - k
    {
      n, k := n.next, k + 1;
      assert Link(ns, parent, k);
    }
  }

  /** Searches back, starting with the predecessor. */
  method LocateBack(curr: Node, pos: int, key: Key, ghost ns: seq<Node>, ghost parent: Node?, ghost i: nat)
      returns (r: Node?, ghost k: nat)
    requires Linked(ns, parent) && i < |ns| && ns[i] == curr && pos < 0
    ensures IsMatch(ns, key, Count(ns, key, i) + pos, r, k)
    ensures r == null <==> Count(ns, key, i) + pos < 0
  {
    var left := pos;
    k := i;
    assert Link(ns, parent, k);
    var n := curr;
    while n.prev != null
      invariant k < |ns| && n == ns[k] && left < 0 && Link(ns, parent, k)
      invariant Count(ns, key, k) + left == Count(ns, key, i) + pos
      decreases k
    {
      n, k := n.prev, k - 1;
      assert Link(ns, parent, k);
      if Match(key, n) {
        left := left + 1;
        if left == 0 { return n, k; }
      }
    }
    return null, k;
  }

  /** Searches forward, starting with the given node. */
  method LocateForward(curr: Node, pos: int, key: Key, ghost ns: seq<Node>, ghost parent: Node?, ghost i: nat)
      returns (r: Node?, ghost k: nat)
    requires Linked(ns, parent) && i < |ns| && ns[i] == curr && pos > 0
    ensures IsMatch(ns, key, Count(ns, key, i) + pos - 1, r, k)
    ensures r == null <==> Count(ns, key, i) + pos - 1 >= Count(ns, key, |ns|)
  {
    var left := pos;
    k := i;
    assert Link(ns, parent, k);
    var n := curr;
    while true
      invariant k < |ns| && n == ns[k] && left > 0 && Link(ns, parent, k)
      invariant Count(ns, key, k) + left == Count(ns, key, i) + pos
      decreases |ns| - k
    {
      if Match(key, n) {
        left := left - 1;
        if left == 0 {
          CountGrows(ns, key, k + 1, |ns|);
          return n, k;
        }
      }
      if n.next == null { return null, k; }
      n, k := n.next, k + 1;
      assert Link(ns, parent, k);
    }
  }

  /** Finds the n-th match forwards, backwards or from the end. */
  method Locate(curr: Node, pos: int, key: Key, ghost ns: seq<Node>, ghost parent: Node?, ghost i: nat)
      returns (r: Node?, ghost j: nat)
    requires Linked(ns, parent) && i < |ns| && ns[i] == curr
    ensures IsMatch(ns, key, Wanted(ns, key, i, pos), r, j)
    ensures r != null <==> 0 <= Wanted(ns, key, i, pos) < Count(ns, key, |ns|)
    ensures r != null ==> r in ns && Match(key, r)
    ensures r != null ==> j < |ns| && r == ns[j]
    ensures r != null && pos > 0 ==> Count(ns, key, j) == Count(ns, key, i) + pos - 1
    ensures r != null && pos < 0 ==> Count(ns, key, j) == Count(ns, key, i) + pos
    ensures r != null && pos == 0 ==> Count(ns, key, j) == Count(ns, key, |ns|) - 1
  {
    if pos > 0 {
      r, j := LocateForward(curr, pos, key, ns, parent, i);
    } else if pos < 0 {
      r, j := LocateBack(curr, pos, key, ns, parent, i);
    } else {
      var n; ghost var k;
      n, k := LastNode(curr, ns, parent, i);
      if Match(key, n) { return n, k; }
      r, j := LocateBack(n, -1, key, ns, parent, k);
    }
    MatchCounts(ns, key, Wanted(ns, key, i, pos), r, j);
  }

  /** The node the insertion strategy asks for: by position, or by position among equal identifiers. */
  method GetNode(curr: Node, pos: int, key: Key, ghost ns: seq<Node>, ghost parent: Node?, ghost i: nat)
      returns (r: Node?, ghost j: nat)
    requires Linked(ns, parent) && i < |ns| && ns[i] == curr
    ensures IsMatch(ns, key, Wanted(ns, key, i, pos), r, j)
    ensures Exact(ns, key, Wanted(ns, key, i, pos), r, j)
    ensures r != null ==> r in ns && Match(key, r)
  {
    if key.Any? {
      r := Pos(curr, pos, ns, parent, i);
      CountAny(ns, i);
      CountAny(ns, |ns|);
      j := 0;
      if r != null {
        j := Wanted(ns, key, i, pos);
        CountAny(ns, j);
      }
    } else {
      r, j := Locate(curr, pos, key, ns, parent, i);
    }
    MatchCounts(ns, key, Wanted(ns, key, i, pos), r, j);
  }

  /** The same, with the condition under which there is such a match. */
  ghost predicate Exact(ns: seq<Node>, key: Key, t: int, r: Node?, j: nat)
    reads ns
  {
    (r != null <==> 0 <= t < Count(ns, key, |ns|)) &&
    (r != null ==> j < |ns| && r == ns[j] && Match(key, ns[j]) && Count(ns, key, j) == t)
  }

  /** Number of matches before the new node: one less than a positive position, counted from the end
      for negative ones, all of them for 0. */
  function Rank(pos: int, m: nat): nat {
    if pos > 0 then (if pos - 1 < m then pos - 1 else m)
    else if pos == 0 then m
    else if m + pos > 0 then m + pos else 0
  }

  /** The side of its neighbour the node goes to: behind it at the end and for negative positions inside. */
  predicate Behind(pos: int, m: nat) {
    pos == 0 || pos > m || (pos < 0 && m + pos > 0)
  }

  /** The place a node is put at: at its rank, next to a match, or at the end if nothing matches. */
  ghost predicate IsSlot(ns: seq<Node>, key: Key, pos: int, s: nat)
    reads ns
  {
    s <= |ns| &&
    var m := Count(ns, key, |ns|);
    Count(ns, key, s) == Rank(pos, m) &&
    if m == 0 then s == |ns|
    else if Behind(pos, m) then s > 0 && Match(key, ns[s - 1])
    else s < |ns| && Match(key, ns[s])
  }

  lemma SlotBefore(ns: seq<Node>, key: Key, pos: int, j: nat)
    requires j < |ns| && Match(key, ns[j]) && Count(ns, key, j) == Rank(pos, Count(ns, key, |ns|))
    requires !Behind(pos, Count(ns, key, |ns|))
    ensures IsSlot(ns, key, pos, j)
  {
    CountGrows(ns, key, j + 1, |ns|);
  }

  lemma SlotAfter(ns: seq<Node>, key: Key, pos: int, j: nat)
    requires j < |ns| && Match(key, ns[j]) && Count(ns, key, j) + 1 == Rank(pos, Count(ns, key, |ns|))
    requires Behind(pos, Count(ns, key, |ns|))
    ensures IsSlot(ns, key, pos, j + 1)
  {
    CountGrows(ns, key, j + 1, |ns|);
  }

  lemma MatchCounts(ns: seq<Node>, key: Key, t: int, r: Node?, j: nat)
    requires IsMatch(ns, key, t, r, j)
    ensures Exact(ns, key, t, r, j)
  {
    if r != null {
      CountGrows(ns, key, j + 1, |ns|);
    }
  }

  /** Searches on from the first or last match: the match of the rank, or the one at the other end. */
  method Candidate(first: Node, start: Node, pos: int, key: Key, ghost ns: seq<Node>, ghost parent: Node?, ghost j0: nat)
      returns (cand: Node, after: bool, ghost j: nat)
    requires Linked(ns, parent) && j0 < |ns| && ns[j0] == start && ns[0] == first && pos != 0 && pos != 1
    requires Count(ns, key, |ns|) > 0 && Count(ns, key, j0) == if pos > 0 then 0 else Count(ns, key, |ns|) - 1
    ensures IsNeighbour(ns, key, pos, cand, after, j)
  {
    FromStart(ns, key);
    hide Count, Linked, IsMatch, Match;
    var c: Node?;
    c, j := GetNode(start, pos, key, ns, parent, j0);
    after := pos < 0;
    if c == null {
      c, j := GetNode(first, if pos < 0 then 1 else 0, key, ns, parent, 0);
      after := pos > 0;
    }
    cand := c;
  }

  lemma FromStart(ns: seq<Node>, key: Key)
    ensures Count(ns, key, 0) == 0
  {}

  /** A match next to the slot of the rank. */
  ghost predicate IsNeighbour(ns: seq<Node>, key: Key, pos: int, cand: Node, after: bool, j: nat)
    reads ns
  {
    j < |ns| && cand == ns[j] && Match(key, ns[j]) && after == Behind(pos, Count(ns, key, |ns|)) &&
    Count(ns, key, j) + (if after then 1 else 0) == Rank(pos, Count(ns, key, |ns|))
  }

  lemma NeighbourSlot(ns: seq<Node>, key: Key, pos: int, cand: Node, after: bool, j: nat)
    requires IsNeighbour(ns, key, pos, cand, after, j)
    ensures j < |ns| && cand == ns[j] && IsSlot(ns, key, pos, if after then j + 1 else j)
  {
    hide Count, IsSlot, Match;
    if after { SlotAfter(ns, key, pos, j); } else { SlotBefore(ns, key, pos, j); }
  }

  /** Chooses the neighbour of a new node and the side it goes to. */
  method Choose(first: Node, pos: int, key: Key, ghost ns: seq<Node>, ghost parent: Node?)
      returns (tmp: Node, after: bool, ghost j: nat)
    requires Linked(ns, parent) && ns != [] && ns[0] == first
    ensures j < |ns| && tmp == ns[j] && IsSlot(ns, key, pos, if after then j + 1 else j)
  {
    FromStart(ns, key);
    hide Count, IsSlot, Linked, IsMatch, Match;
    var start; ghost var j0;
    start, j0 := GetNode(first, if pos > 0 then 1 else 0, key, ns, parent, 0);
    if start == null {
      SlotEnd(ns, key, pos);
      tmp, j := LastNode(first, ns, parent, 0);
      return tmp, true, j;
    }
    if pos == 0 || pos == 1 {
      tmp, after, j := start, pos < 1, j0;
      assert IsNeighbour(ns, key, pos, tmp, after, j);
    } else {
      tmp, after, j := Candidate(first, start, pos, key, ns, parent, j0);
    }
    NeighbourSlot(ns, key, pos, tmp, after, j);
  }

  lemma SlotEnd(ns: seq<Node>, key: Key, pos: int)
    requires Count(ns, key, |ns|) == 0
    ensures IsSlot(ns, key, pos, |ns|)
  {}

  /** Inserts a node into a list: the list with the node at its slot, all links consistent. */
  method InsertNode(first: Node, pos: int, node: Node, key: Key, ghost ns: seq<Node>, ghost parent: Node?)
      returns (ghost s: nat)
    requires Family(ns, parent) && ns != [] && ns[0] == first && node !in ns && node != parent
    modifies node, ns, if parent == null then {} else {parent}
    ensures s <= |ns| && old(IsSlot(ns, key, pos, s)) && Family(InsertAt(ns, s, node), parent)
    ensures OnlyLinks(node)
    ensures forall n :: n in ns ==> n.children == old(n.children) && n.kids == old(n.kids)
    ensures forall n :: n in ns ==> n.ident == old(n.ident) && n.meta == old(n.meta)
    ensures parent != null ==> OnlyChildren(parent)
  {
    var tmp, after; ghost var j;
    tmp, after, j := Choose(first, pos, key, ns, parent);
    if after {
      After(tmp, node, ns, parent, j);
      s := j + 1;
    } else {
      Before(tmp, node, ns, parent, j);
      s := j;
    }
  }

  /** By position the slot is the index itself: at the end for 0, counted from 1 for positive positions,
      and from the end for negative ones. */
  lemma SlotByPosition(ns: seq<Node>, pos: int, s: nat)
    requires IsSlot(ns, Any, pos, s)
    ensures pos == 0 ==> s == |ns|
    ensures pos > 0 ==> s == if pos - 1 < |ns| then pos - 1 else |ns|
    ensures pos < 0 ==> s == if |ns| + pos > 0 then |ns| + pos else 0
  {
    CountAny(ns, s);
    CountAny(ns, |ns|);
  }

  /** By name the same holds among the equal identifiers: `before` of them precede the new node, which goes
      directly before or behind one of them, or to the end of the list without any. */
  lemma {:induction false} SlotByName(ns: seq<Node>, key: Key, pos: int, s: nat, node: Node)
    requires IsSlot(ns, key, pos, s) && Match(key, node)
    ensures var before, n := Count(InsertAt(ns, s, node), key, s), Count(ns, key, |ns|);
            && before == Count(ns, key, s)
            && (pos == 0 ==> before == n)
            && (pos > 0 ==> before == if pos - 1 < n then pos - 1 else n)
            && (pos < 0 ==> before == if n + pos > 0 then n + pos else 0)
            && (n == 0 ==> s == |ns|)
            && (n > 0 && (0 < pos <= n || pos + n <= 0) ==> s < |ns| && Match(key, ns[s]))
            && (n > 0 && (pos > n || pos <= 0 < pos + n) ==> s > 0 && Match(key, ns[s - 1]))
  {
    SamePrefix(ns, InsertAt(ns, s, node), key, s);
  }

  lemma {:induction false} SamePrefix(ns: seq<Node>, ms: seq<Node>, key: Key, k: nat)
    requires k <= |ns| && k <= |ms| && ns[..k] == ms[..k]
    ensures Count(ns, key, k) == Count(ms, key, k)
  {
    if k > 0 {
      assert ns[k - 1] == ns[..k][k - 1] == ms[k - 1];
      assert ns[..k - 1] == ns[..k][..k - 1] && ms[..k - 1] == ms[..k][..k - 1];
      SamePrefix(ns, ms, key, k - 1);
    }
  }

  /** A well-linked forest: every node's child list is complete and consistent. */
  ghost predicate Forest(S: set<Node>)
    reads S
  {
    forall n :: n in S ==> Inside(S, n.kids) && Family(n.kids, n)
  }

  ghost predicate Inside(S: set<Node>, ns: seq<Node>) {
    forall n :: n in ns ==> n in S
  }

  ghost predicate Detached(n: Node)
    reads n
  {
    n.parent == null && n.next == null && n.prev == null
  }

  /** Inserts a detached node below `parent`. */
  method InsertChild(parent: Node, pos: int, node: Node, key: Key, ghost S: set<Node>) returns (ghost s: nat)
    requires Forest(S) && parent in S && node in S && node != parent && Detached(node)
    modifies S
    ensures Forest(S)
    ensures s <= |old(parent.kids)| && old(IsSlot(parent.kids, key, pos, s)) && parent.kids == InsertAt(old(parent.kids), s, node)
    ensures forall n :: n in S && n != parent ==> n.kids == old(n.kids)
    ensures forall n :: n in S ==> n.ident == old(n.ident) && n.meta == old(n.meta)
  {
    hide InsertAt, IsSlot, Count;
    ghost var ns := parent.kids;
    NotChild(S, parent, node);
    ParentOf(ns, parent);
    s := LinkChild(parent, pos, node, key, ns);
    parent.kids := InsertAt(ns, s, node);
    InsideInsert(S, ns, s, node);
    forall n | n in S && n != parent ensures Family(n.kids, n) && Inside(S, n.kids) {
      assert old(Family(n.kids, n)) && old(Inside(S, n.kids));
      forall k | 0 <= k < |n.kids| ensures Link(n.kids, n, k) {
        assert old(Link(n.kids, n, k));
        assert n.kids[k] !in ns && n.kids[k] != node;
      }
    }
  }

  /** Insertion by position: the new child list. */
  method InsertChildAt(parent: Node, pos: int, node: Node, ghost S: set<Node>)
    requires Forest(S) && parent in S && node in S && node != parent && Detached(node)
    modifies S
    ensures Forest(S)
    ensures var ns := old(parent.kids);
            && (pos == 0 || pos > |ns| ==> parent.kids == ns + [node])
            && (0 < pos <= |ns| ==> parent.kids == ns[..pos - 1] + [node] + ns[pos - 1..])
            && (-|ns| < pos < 0 ==> parent.kids == ns[..|ns| + pos] + [node] + ns[|ns| + pos..])
            && (pos <= -|ns| && pos < 0 ==> parent.kids == [node] + ns)
    ensures forall n :: n in S && n != parent ==> n.kids == old(n.kids)
  {
    hide Forest, IsSlot;
    ghost var ns := parent.kids;
    forall s: nat | IsSlot(ns, Any, pos, s) ensures IsIndex(|ns|, pos, s) {
      SlotByPosition(ns, pos, s);
    }
    ghost var s := InsertChild(parent, pos, node, Any, S);
    assert ns[..0] == [] && ns[|ns|..] == [] && ns[..|ns|] == ns && ns[0..] == ns;
  }

  ghost predicate IsIndex(n: nat, pos: int, s: nat) {
    s == if pos == 0 || pos > n then n else if pos > 0 then pos - 1 else if n + pos > 0 then n + pos else 0
  }

  ghost predicate NextTo(ns: seq<Node>, id: Ident, pos: int, n: nat, s: nat)
    requires s <= |ns|
    reads ns
  {
    (n == 0 ==> s == |ns|) &&
    (n > 0 && (0 < pos <= n || pos + n <= 0) ==> s < |ns| && ns[s].ident == id) &&
    (n > 0 && (pos > n || pos <= 0 < pos + n) ==> s > 0 && ns[s - 1].ident == id)
  }

  /** Insertion by name: the new child list, and how many equal identifiers precede the new node. */
  method InsertChildNamed(parent: Node, pos: int, node: Node, ghost S: set<Node>) returns (ghost s: nat)
    requires Forest(S) && parent in S && node in S && node != parent && Detached(node)
    modifies S
    ensures Forest(S) && s <= |old(parent.kids)|
    ensures parent.kids == old(parent.kids)[..s] + [node] + old(parent.kids)[s..]
    ensures var before, n := old(Count(parent.kids, Named(node.ident), s)), old(Count(parent.kids, Named(node.ident), |parent.kids|));
            && (pos == 0 ==> before == n)
            && (pos > 0 ==> before == if pos - 1 < n then pos - 1 else n)
            && (pos < 0 ==> before == if n + pos > 0 then n + pos else 0)
            && (n == 0 ==> s == |old(parent.kids)|)
            && (n > 0 && (0 < pos <= n || pos + n <= 0) ==> s < |old(parent.kids)| && old(parent.kids[s].ident) == node.ident)
            && (n > 0 && (pos > n || pos <= 0 < pos + n) ==> s > 0 && old(parent.kids[s - 1].ident) == node.ident)
    ensures forall n :: n in S && n != parent ==> n.kids == old(n.kids)
  {
    hide Forest, IsSlot, Count;
    var key := Named(node.ident);
    ghost var ns := parent.kids;
    ghost var n := Count(ns, key, |ns|);
    forall s: nat | IsSlot(ns, key, pos, s) ensures s <= |ns| && IsIndex(n, pos, Count(ns, key, s)) && NextTo(ns, node.ident, pos, n, s) {
      SlotInList(ns, key, pos, s);
      SlotByName(ns, key, pos, s, node);
    }
    s := InsertChild(parent, pos, node, key, S);
  }

  lemma SlotInList(ns: seq<Node>, key: Key, pos: int, s: nat)
    requires IsSlot(ns, key, pos, s)
    ensures s <= |ns|
  {}

  /** Takes a child out of its forest. */
  method RemoveChild(parent: Node, node: Node, ghost S: set<Node>, ghost i: nat) returns (next: Node?)
    requires Forest(S) && parent in S && i < |parent.kids| && parent.kids[i] == node
    modifies S
    ensures Forest(S) && Detached(node) && next == At(old(parent.kids), i + 1)
    ensures parent.kids == RemoveAt(old(parent.kids), i)
    ensures forall n :: n in S && n != parent ==> n.kids == old(n.kids)
    ensures forall n :: n in S ==> n.ident == old(n.ident) && n.meta == old(n.meta)
  {
    hide RemoveAt;
    ghost var ns := parent.kids;
    ParentOf(ns, parent);
    next := Unlink(node, ns, parent, i);
    parent.kids := RemoveAt(ns, i);
    InsideRemove(S, ns, i);
    forall n | n in S && n != parent ensures Family(n.kids, n) && Inside(S, n.kids) {
      assert old(Family(n.kids, n)) && old(Inside(S, n.kids));
      forall k | 0 <= k < |n.kids| ensures Link(n.kids, n, k) {
        assert old(Link(n.kids, n, k));
        assert n.kids[k] !in ns;
      }
    }
  }

  lemma InsideRemove(S: set<Node>, ns: seq<Node>, i: nat)
    requires Inside(S, ns) && i < |ns|
    ensures Inside(S, RemoveAt(ns, i))
  {}

  lemma SlotInside(ns: seq<Node>, s: nat, node: Node)
    requires s <= |ns|
    ensures s < |InsertAt(ns, s, node)| && InsertAt(ns, s, node)[s] == node
  {}

  /** Inserting a child and unlinking it leaves every child list of the forest as it was. */
  method InsertAndRemove(parent: Node, pos: int, node: Node, key: Key, ghost S: set<Node>)
    requires Forest(S) && parent in S && node in S && node != parent && Detached(node)
    modifies S
    ensures Forest(S) && Detached(node)
    ensures forall n :: n in S ==> n.kids == old(n.kids)
  {
    hide InsertAt, RemoveAt, IsSlot, Forest, Count;
    ghost var ns := parent.kids;
    ghost var s := InsertChild(parent, pos, node, key, S);
    SlotInside(ns, s, node);
    var next := RemoveChild(parent, node, S, s);
    InsertThenRemove(ns, s, node);
  }

  lemma InsideInsert(S: set<Node>, ns: seq<Node>, s: nat, node: Node)
    requires Inside(S, ns) && node in S && s <= |ns|
    ensures Inside(S, InsertAt(ns, s, node))
  {}

  /** The links of an insertion below `parent`, which may not have children yet. */
  method LinkChild(parent: Node, pos: int, node: Node, key: Key, ghost ns: seq<Node>) returns (ghost s: nat)
    requires Family(ns, parent) && node !in ns && node != parent && Detached(node)
    modifies node, ns, parent
    ensures s <= |ns| && old(IsSlot(ns, key, pos, s)) && Family(InsertAt(ns, s, node), parent)
    ensures OnlyLinks(node) && OnlyChildren(parent)
    ensures forall n :: n in ns ==> n.children == old(n.children) && n.kids == old(n.kids)
    ensures forall n :: n in ns ==> n.ident == old(n.ident) && n.meta == old(n.meta)
  {
    if parent.children == null {
      parent.children := node;
      node.parent := parent;
      s := 0;
    } else {
      s := InsertNode(parent.children, pos, node, key, ns, parent);
    }
  }

  lemma ParentOf(ns: seq<Node>, parent: Node?)
    requires Linked(ns, parent)
    ensures forall n :: n in ns ==> n.parent == parent
  {
    forall n | n in ns ensures n.parent == parent {
      var k :| 0 <= k < |ns| && ns[k] == n;
      assert Link(ns, parent, k);
    }
  }

  lemma NotChild(S: set<Node>, parent: Node, node: Node)
    requires Forest(S) && parent in S && node.parent == null
    ensures node !in parent.kids
  {
    forall k | 0 <= k < |parent.kids| ensures parent.kids[k] != node {
      assert Link(parent.kids, parent, k);
    }
  }
}
