/** Stable compaction in place: active elements move to the front and keep their order. */
module Compaction {

  function Filter<T(!new)>(s: seq<T>, on: T -> bool): seq<T> {
    if s == [] then []
    else Filter(s[..|s| - 1], on) + if on(s[|s| - 1]) then [s[|s| - 1]] else []
  }

  /** Largest key, or 0. */
  function Highest<T(!new)>(s: seq<T>, key: T -> nat): (h: nat)
    ensures forall i :: 0 <= i < |s| ==> key(s[i]) <= h
    ensures h == 0 || exists i :: 0 <= i < |s| && key(s[i]) == h
  {
    if s == [] then 0
    else
      var h := Highest(s[..|s| - 1], key);
      var k := key(s[|s| - 1]);
      assert forall i :: 0 <= i < |s| - 1 ==> s[i] == s[..|s| - 1][i];
      if k > h then k else h
  }

  /** Filtering keeps single active elements and is the same on parts: so it keeps the order. */
  lemma {:induction false} FilterConcat<T(!new)>(a: seq<T>, b: seq<T>, on: T -> bool)
    ensures Filter(a + b, on) == Filter(a, on) + Filter(b, on)
    decreases |b|
  {
    if b == [] {
      assert a + b == a;
    } else {
      var k := |b| - 1;
      assert (a + b)[..|a| + k] == a + b[..k];
      FilterConcat(a, b[..k], on);
    }
  }

  lemma FilterOne<T(!new)>(x: T, on: T -> bool)
    ensures Filter([x], on) == if on(x) then [x] else []
    ensures Filter([], on) == []
  {}

  lemma Snoc<T(!new)>(s: seq<T>, i: nat, on: T -> bool, key: T -> nat)
    requires i < |s|
    ensures Filter(s[..i + 1], on) == Filter(s[..i], on) + if on(s[i]) then [s[i]] else []
    ensures Highest(s[..i + 1], key) == var h := Highest(s[..i], key); if key(s[i]) > h then key(s[i]) else h
  {
    assert s[..i + 1][..i] == s[..i];
  }

  /** The state `t` of the array before element `i`, if it was `s`: `to` is the first free place, or
      negative if there is none. */
  ghost predicate Packed<T(!new)>(t: seq<T>, s: seq<T>, i: nat, to: int, rem: nat, on: T -> bool) {
    |t| == |s| && i <= |s| && rem == (if to < 0 then i else to) && rem <= i && (to >= 0 ==> rem < i) &&
    t[..rem] == Filter(s[..i], on) && (forall j :: rem <= j < i ==> !on(t[j])) && t[i..] == s[i..]
  }

  lemma SkipStep<T(!new)>(t: seq<T>, s: seq<T>, i: nat, to: int, rem: nat, on: T -> bool)
    requires Packed(t, s, i, to, rem, on) && i < |s| && !on(s[i])
    ensures Packed(t, s, i + 1, if to < 0 then i else to, rem, on)
  {
    assert s[..i + 1][..i] == s[..i];
    assert t[i] == t[i..][0];
    assert t[i + 1..] == t[i..][1..];
  }

  lemma KeepStep<T(!new)>(t: seq<T>, s: seq<T>, i: nat, to: int, rem: nat, on: T -> bool)
    requires Packed(t, s, i, to, rem, on) && i < |s| && on(s[i]) && to < 0
    ensures Packed(t, s, i + 1, to, rem + 1, on)
  {
    assert s[..i + 1][..i] == s[..i];
    assert t[i] == t[i..][0] == s[i];
    assert t[i + 1..] == t[i..][1..];
    assert t[..i + 1] == t[..i] + [s[i]];
  }

  lemma MoveStep<T(!new)>(t: seq<T>, s: seq<T>, i: nat, to: int, rem: nat, on: T -> bool, x: T)
    requires Packed(t, s, i, to, rem, on) && i < |s| && on(s[i]) && to >= 0 && !on(x)
    ensures Packed(t[to := s[i]][i := x], s, i + 1, to + 1, rem + 1, on)
  {
    var t' := t[to := s[i]][i := x];
    assert s[..i + 1][..i] == s[..i];
    assert t'[i + 1..] == t[i..][1..];
    assert t'[..to + 1] == t[..to] + [s[i]];
  }

  lemma Unread<T(!new)>(t: seq<T>, s: seq<T>, i: nat, to: int, rem: nat, on: T -> bool)
    requires Packed(t, s, i, to, rem, on) && i < |s|
    ensures t[i] == s[i] && to < i
    ensures forall j :: to < j < i ==> to >= 0 ==> !on(t[j])
  {
    assert t[i] == t[i..][0];
  }

  /** The smallest free place of `to` to `i`, where `i` counts as free. */
  method NextFree<T>(a: array<T>, to: nat, i: nat, on: T -> bool) returns (free: nat)
    requires to <= i <= a.Length
    ensures to <= free <= i && (free < i ==> !on(a[free])) && forall j :: to <= j < free ==> on(a[j])
  {
    free := to;
    while free < i && on(a[free])
      invariant to <= free <= i && forall j :: to <= j < free ==> on(a[j])
    {
      free := free + 1;
    }
  }

  /** Moves element `i` to the free place, and finds the next one. */
  method MoveDown<T(!new)>(a: array<T>, len: nat, i: nat, to: nat, on: T -> bool, off: T -> T, ghost s: seq<T>, ghost rem: nat)
      returns (free: nat)
    requires i < len <= a.Length && len == |s| && on(s[i]) && !on(off(s[i])) && Packed(a[..len], s, i, to, rem, on)
    modifies a
    ensures Packed(a[..len], s, i + 1, free, rem + 1, on) && a[len..] == old(a[len..])
  {
    hide Packed, Filter;
    ghost var t := a[..len];
    Unread(t, s, i, to, rem, on);
    MoveStep(t, s, i, to, rem, on, off(s[i]));
    assert a[i] == t[i];
    a[to] := a[i];
    a[i] := off(a[i]);
    assert a[..len] == t[to := s[i]][i := off(s[i])];
    ghost var next := to + 1;
    assert next < i ==> !on(t[next]) && a[next] == t[next];
    free := NextFree(a, to + 1, i, on);
  }

  /** Moves the active elements of the first `len` to the front; `off` makes an element inactive.
      Also gives the highest key among all elements. */
  method Compact<T(!new)>(a: array<T>, len: nat, on: T -> bool, off: T -> T, key: T -> nat) returns (rem: nat, high: nat)
    requires len <= a.Length && forall x :: !on(off(x))
    modifies a
    ensures rem <= len && a[..rem] == Filter(old(a[..len]), on)
    ensures (forall j :: rem <= j < len ==> !on(a[j])) && a[len..] == old(a[len..])
    ensures high == Highest(old(a[..len]), key)
  {
    hide Packed, Filter, Highest;
    ghost var s := a[..len];
    var to := -1;
    rem, high := 0, 0;
    PackedStart(s, on, key);
    for i := 0 to len
      invariant Packed(a[..len], s, i, to, rem, on) && a[len..] == old(a[len..]) && high == Highest(s[..i], key)
    {
      Snoc(s, i, on, key);
      Unread(a[..len], s, i, to, rem, on);
      assert a[i] == a[..len][i];
      high := if key(a[i]) > high then key(a[i]) else high;
      if !on(a[i]) {
        SkipStep(a[..len], s, i, to, rem, on);
        to := if to < 0 then i else to;
        continue;
      }
      if to < 0 {
        KeepStep(a[..len], s, i, to, rem, on);
        rem := rem + 1;
        continue;
      }
      to := MoveDown(a, len, i, to, on, off, s, rem);
      rem := rem + 1;
    }
    PackedEnd(a[..len], s, to, rem, on);
  }

  lemma PackedStart<T(!new)>(s: seq<T>, on: T -> bool, key: T -> nat)
    ensures Packed(s, s, 0, -1, 0, on) && Highest(s[..0], key) == 0
  {}

  lemma PackedEnd<T(!new)>(t: seq<T>, s: seq<T>, to: int, rem: nat, on: T -> bool)
    requires Packed(t, s, |s|, to, rem, on)
    ensures rem <= |s| && t[..rem] == Filter(s, on) && forall j :: rem <= j < |s| ==> !on(t[j])
    ensures s[..|s|] == s
  {
    assert s[..|s|] == s;
  }

  /** Compaction of pointers, 0 being free. */
  method ArrayCompact(base: array<nat>, len: nat) returns (rem: nat)
    requires len <= base.Length
    modifies base
    ensures rem <= len && base[..rem] == Filter(old(base[..len]), (p: nat) => p != 0)
    ensures (forall j :: rem <= j < len ==> base[j] == 0) && base[len..] == old(base[len..])
  {
    var high;
    rem, high := Compact(base, len, (p: nat) => p != 0, (p: nat) => 0, (p: nat) => 0);
  }
}

/** Tables of commands: what is registered for an id. */
module CommandTables {
  import opened Compaction

  const UINTPTR_MAX := 0xffff_ffff_ffff_ffff

  type word = x: nat | x <= UINTPTR_MAX

  /** A handler of 0 marks an unused entry. */
  datatype Command = Command(id: word, cmd: nat, arg: nat)

  const UNUSED := Command(0, 0, 0)

  predicate On(c: Command) {
    c.cmd != 0
  }

  datatype Slot = Free | Taken(cmd: nat, arg: nat)

  predicate Serves(c: Command, id: nat) {
    On(c) && c.id == id
  }

  /** What is registered for an id. */
  function Lookup(cs: seq<Command>, id: nat): Slot {
    if cs == [] then Free
    else
      var c := cs[|cs| - 1];
      if Serves(c, id) then Taken(c.cmd, c.arg) else Lookup(cs[..|cs| - 1], id)
  }

  /** Each id has at most one active entry. */
  ghost predicate Unique(cs: seq<Command>) {
    forall i, j :: 0 <= i < j < |cs| && On(cs[i]) && On(cs[j]) ==> cs[i].id != cs[j].id
  }

  type Pair = (nat, nat)

  function PairOf(c: Command): multiset<Pair> {
    if On(c) then multiset{(c.cmd, c.arg)} else multiset{}
  }

  /** The active handlers with their arguments. */
  function Pairs(cs: seq<Command>): multiset<Pair> {
    if cs == [] then multiset{} else Pairs(cs[..|cs| - 1]) + PairOf(cs[|cs| - 1])
  }

  lemma {:induction false} LookupFree(cs: seq<Command>, id: nat)
    ensures Lookup(cs, id) == Free <==> forall i :: 0 <= i < |cs| ==> !Serves(cs[i], id)
  {
    if cs != [] {
      var init := cs[..|cs| - 1];
      LookupFree(init, id);
      assert forall i :: 0 <= i < |init| ==> init[i] == cs[i];
    }
  }

  lemma {:induction false} LookupAt(cs: seq<Command>, i: nat, id: nat)
    requires Unique(cs) && i < |cs| && Serves(cs[i], id)
    ensures Lookup(cs, id) == Taken(cs[i].cmd, cs[i].arg)
  {
    var last := |cs| - 1;
    if i < last {
      LookupAt(cs[..last], i, id);
    }
  }

  /** Replacing one entry changes what is registered for its old and its new id alone. */
  lemma ChangeLookup(cs: seq<Command>, i: nat, c: Command, q: nat)
    requires Unique(cs) && i < |cs| && Unique(cs[i := c])
    ensures Lookup(cs[i := c], q) ==
            if Serves(c, q) then Taken(c.cmd, c.arg) else if Serves(cs[i], q) then Free else Lookup(cs, q)
  {
    var cs' := cs[i := c];
    LookupFree(cs, q);
    LookupFree(cs', q);
    if Serves(c, q) {
      LookupAt(cs', i, q);
    } else if Lookup(cs, q) != Free {
      var j :| 0 <= j < |cs| && Serves(cs[j], q);
      if j != i {
        LookupAt(cs, j, q);
        assert cs'[j] == cs[j];
        LookupAt(cs', j, q);
      }
    }
  }

  lemma ChangeUnique(cs: seq<Command>, i: nat, c: Command)
    requires Unique(cs) && i < |cs|
    requires On(c) ==> forall j :: 0 <= j < |cs| && j != i ==> !Serves(cs[j], c.id)
    ensures Unique(cs[i := c])
  {}

  lemma SnocUnique(cs: seq<Command>, c: Command)
    requires Unique(cs) && (On(c) ==> forall j :: 0 <= j < |cs| ==> !Serves(cs[j], c.id))
    ensures Unique(cs + [c])
  {}

  lemma {:induction false} ChangePairs(cs: seq<Command>, i: nat, c: Command)
    requires i < |cs|
    ensures Pairs(cs[i := c]) + PairOf(cs[i]) == Pairs(cs) + PairOf(c)
  {
    hide PairOf;
    var last := |cs| - 1;
    var init, z := cs[..last], cs[last];
    assert cs == init + [z];
    if i < last {
      ChangePairs(init, i, c);
      assert cs[i := c] == init[i := c] + [z];
      SnocPairs(init[i := c], z, 0);
      SnocPairs(init, z, 0);
      var before, after := Pairs(init), Pairs(init[i := c]);
      assert after + PairOf(z) + PairOf(cs[i]) == after + PairOf(cs[i]) + PairOf(z);
      assert before + PairOf(c) + PairOf(z) == before + PairOf(z) + PairOf(c);
    } else {
      assert cs[i := c] == init + [c];
      SnocPairs(init, c, 0);
      SnocPairs(init, z, 0);
    }
  }

  lemma SnocPairs(cs: seq<Command>, c: Command, q: nat)
    ensures Pairs(cs + [c]) == Pairs(cs) + PairOf(c)
    ensures Lookup(cs + [c], q) == if Serves(c, q) then Taken(c.cmd, c.arg) else Lookup(cs, q)
  {
    assert (cs + [c])[..|cs|] == cs;
  }

  lemma {:induction false} FilterUnique(cs: seq<Command>)
    requires Unique(cs)
    ensures Unique(Filter(cs, On)) && forall x :: x in Filter(cs, On) ==> x in cs
  {
    if cs != [] {
      var init, c := cs[..|cs| - 1], cs[|cs| - 1];
      FilterUnique(init);
      var kept := Filter(init, On);
      if On(c) {
        forall j | 0 <= j < |kept| ensures !Serves(kept[j], c.id) {
          assert kept[j] in init;
        }
        SnocUnique(kept, c);
      }
    }
  }

  /** Compaction loses nothing. */
  lemma {:induction false} FilterKeeps(cs: seq<Command>, q: nat)
    ensures Pairs(Filter(cs, On)) == Pairs(cs) && Lookup(Filter(cs, On), q) == Lookup(cs, q)
  {
    hide Pairs, Lookup, PairOf;
    if cs != [] {
      var init, c := cs[..|cs| - 1], cs[|cs| - 1];
      FilterKeeps(init, q);
      assert cs == init + [c];
      SnocPairs(init, c, q);
      if On(c) {
        SnocPairs(Filter(init, On), c, q);
      } else {
        OffPairs(c, Pairs(init));
        assert Filter(cs, On) == Filter(init, On);
      }
    }
  }

  lemma OffPairs(c: Command, m: multiset<Pair>)
    requires !On(c)
    ensures m + PairOf(c) == m
  {}
}

/** Command tables in memory: registration, unique ids, finalisation. */
module Commands {
  import opened Compaction
  import opened CommandTables

  const BAD_ARGUMENT := -0x1
  const BAD_OPERATION := -0x4

  /** The default handler of reserved commands. */
  const LOG_REPLY := 1

  /** Position of the active command with an id, or -1. */
  method Find(cs: seq<Command>, id: nat) returns (r: int)
    ensures -1 <= r < |cs| && (r >= 0 ==> Serves(cs[r], id)) && (r < 0 <==> Lookup(cs, id) == Free)
  {
    LookupFree(cs, id);
    for i := 0 to |cs|
      invariant forall j :: 0 <= j < i ==> !Serves(cs[j], id)
    {
      if cs[i].cmd != 0 && id == cs[i].id { return i; }
    }
    return -1;
  }

  /** Position of the first unused command, or -1. */
  method Empty(cs: seq<Command>) returns (r: int)
    ensures -1 <= r < |cs| && (r >= 0 ==> !On(cs[r])) && forall j :: 0 <= j < (if r < 0 then |cs| else r) ==> On(cs[j])
  {
    for i := 0 to |cs|
      invariant forall j :: 0 <= j < i ==> On(cs[j])
    {
      if cs[i].cmd == 0 { return i; }
    }
    return -1;
  }

  /** The null calls to all active handlers. */
  method NullCalls(cs: seq<Command>) returns (calls: seq<Pair>)
    ensures multiset(calls) == Pairs(cs)
  {
    calls := [];
    for i := 0 to |cs|
      invariant multiset(calls) == Pairs(cs[..i])
    {
      assert cs[..i + 1][..i] == cs[..i];
      if cs[i].cmd != 0 {
        calls := calls + [(cs[i].cmd, cs[i].arg)];
      }
    }
    assert cs[..|cs|] == cs;
  }

  /** The ids of `k` bytes: without sign, as far as a pointer holds them. */
  function MaxId(k: nat): nat {
    match k
    case 0 => 0
    case 1 => 0x7f
    case 2 => 0x7fff
    case 3 => 0x7fff_ffff / 0x100
    case 4 => 0x7fff_ffff
    case 5 => 0x7fff_ffff_ffff_ffff / 0x100_0000
    case 6 => 0x7fff_ffff_ffff_ffff / 0x1_0000
    case 7 => 0x7fff_ffff_ffff_ffff / 0x100
    case _ => 0x7fff_ffff_ffff_ffff
  }

  function Pow2(n: nat): nat {
    if n == 0 then 1 else 2 * Pow2(n - 1)
  }

  lemma {:induction false} MaxIdIs(k: nat)
    requires 1 <= k <= 8
    ensures MaxId(k) == Pow2(8 * k - 1) - 1
  {
    assert Pow2(7) == 0x80;
    if k > 1 {
      MaxIdIs(k - 1);
      Pow2Byte(8 * k - 9);
    }
  }

  lemma MaxIdBounds(k: nat)
    requires k > 0
    ensures 0 < MaxId(k) < UINTPTR_MAX
  {}

  lemma Pow2Byte(n: nat)
    ensures Pow2(n + 8) == 0x100 * Pow2(n)
  {
    assert Pow2(n + 2) == 4 * Pow2(n);
    assert Pow2(n + 4) == 4 * Pow2(n + 2);
    assert Pow2(n + 6) == 4 * Pow2(n + 4);
  }

  /** Lowest id that is not active, or 0. */
  method FreeId(cs: seq<Command>, max: nat) returns (id: nat)
    ensures id <= max && (id > 0 ==> Lookup(cs, id) == Free)
    ensures forall i :: 0 < i < (if id == 0 then max + 1 else id) ==> Lookup(cs, i) != Free
  {
    id := 1;
    while id <= max
      invariant 1 <= id <= max + 1 && forall i :: 0 < i < id ==> Lookup(cs, i) != Free
    {
      var r := Find(cs, id);
      if r < 0 { return; }
      id := id + 1;
    }
    id := 0;
  }

  /** Only what is registered for the id of `c` changes, to `c`. */
  ghost predicate Sets(cs: seq<Command>, cs': seq<Command>, c: Command) {
    Unique(cs') && forall q :: SetsAt(cs, cs', c, q)
  }

  ghost predicate SetsAt(cs: seq<Command>, cs': seq<Command>, c: Command, q: nat) {
    Lookup(cs', q) == if q != c.id then Lookup(cs, q) else if On(c) then Taken(c.cmd, c.arg) else Free
  }

  function Null(slot: Slot): seq<Pair> {
    if slot == Free then [] else [(slot.cmd, slot.arg)]
  }

  /** Nothing is lost: what was registered is active or had its null call. */
  ghost predicate Accounted(registered: multiset<Pair>, calls: seq<Pair>, cs: seq<Command>) {
    registered == multiset(calls) + Pairs(cs)
  }

  lemma Replaced(cs: seq<Command>, i: nat, c: Command, reg: multiset<Pair>, calls: seq<Pair>)
    requires Unique(cs) && i < |cs| && Serves(cs[i], c.id) && Accounted(reg, calls, cs)
    ensures Sets(cs, cs[i := c], c) && Lookup(cs, c.id) == Taken(cs[i].cmd, cs[i].arg)
    ensures Accounted(reg + PairOf(c), calls + Null(Lookup(cs, c.id)), cs[i := c])
  {
    hide PairOf;
    ChangeUnique(cs, i, c);
    var cs' := cs[i := c];
    forall q ensures SetsAt(cs, cs', c, q) {
      ChangeLookup(cs, i, c, q);
    }
    LookupAt(cs, i, c.id);
    ChangePairs(cs, i, c);
    hide Pairs, Lookup;
    NullPair(cs[i], calls);
    Balance(Pairs(cs), Pairs(cs[i := c]), PairOf(cs[i]), PairOf(c), multiset(calls));
  }

  lemma NullPair(c: Command, calls: seq<Pair>)
    requires On(c)
    ensures multiset(calls + Null(Taken(c.cmd, c.arg))) == multiset(calls) + PairOf(c)
  {}

  lemma Balance(a: multiset<Pair>, b: multiset<Pair>, out: multiset<Pair>, put: multiset<Pair>, calls: multiset<Pair>)
    requires b + out == a + put
    ensures calls + a + put == calls + out + b
  {
    assert calls + a + put == calls + (a + put);
    assert calls + out + b == calls + (b + out);
  }

  lemma Filled(cs: seq<Command>, i: nat, c: Command, reg: multiset<Pair>, calls: seq<Pair>)
    requires Unique(cs) && i < |cs| && !On(cs[i]) && Lookup(cs, c.id) == Free && Accounted(reg, calls, cs)
    ensures Sets(cs, cs[i := c], c) && Accounted(reg + PairOf(c), calls, cs[i := c])
  {
    LookupFree(cs, c.id);
    ChangeUnique(cs, i, c);
    var cs' := cs[i := c];
    forall q ensures SetsAt(cs, cs', c, q) {
      ChangeLookup(cs, i, c, q);
    }
    ChangePairs(cs, i, c);
    OffPairs(cs[i], Pairs(cs[i := c]));
  }

  lemma Appended(cs: seq<Command>, c: Command, reg: multiset<Pair>, calls: seq<Pair>)
    requires Unique(cs) && Lookup(cs, c.id) == Free && Accounted(reg, calls, cs)
    ensures Sets(cs, cs + [c], c) && Accounted(reg + PairOf(c), calls, cs + [c])
  {
    LookupFree(cs, c.id);
    SnocUnique(cs, c);
    forall q ensures SetsAt(cs, cs + [c], c, q) {
      SnocPairs(cs, c, q);
    }
    SnocPairs(cs, c, 0);
  }

  function IdOf(c: Command): nat {
    c.id
  }

  function Switched(c: Command): Command {
    c.(cmd := 0)
  }

  /** The successor of the highest id wraps around. */
  ghost predicate Wraps(cs: seq<Command>) {
    Highest(cs, IdOf) >= UINTPTR_MAX
  }

  /** No id of the range is left. */
  ghost predicate Exhausted(cs: seq<Command>, max: nat) {
    forall i :: 0 < i <= max ==> Lookup(cs, i) != Free
  }

  function Reply(id: word): Command {
    Command(id, LOG_REPLY, id)
  }

  /** A new id: the successor of the highest id of all entries, which may wrap around to 0, and behind
      the range the lowest id that is not active. */
  ghost predicate NewId(cs: seq<Command>, max: nat, id: nat) {
    var high := Highest(cs, IdOf);
    if high >= UINTPTR_MAX then id == 0
    else if high < max then id == high + 1
    else IsLowest(cs, max, id)
  }

  ghost predicate IsLowest(cs: seq<Command>, max: nat, id: nat) {
    0 < id <= max && Lookup(cs, id) == Free && forall i :: 0 < i < id ==> Lookup(cs, i) != Free
  }

  /** Unless it wrapped around a new id is in the range and not active. */
  lemma NewIdFree(cs: seq<Command>, max: nat, id: nat)
    requires NewId(cs, max, id) && !Wraps(cs)
    ensures 0 < id <= max && Lookup(cs, id) == Free
  {
    if Highest(cs, IdOf) < max {
      AboveHighest(cs, id);
    }
  }

  /** An id above the highest one is not active. */
  lemma AboveHighest(cs: seq<Command>, id: nat)
    requires id > Highest(cs, IdOf)
    ensures Lookup(cs, id) == Free
  {
    LookupFree(cs, id);
    assert forall i :: 0 <= i < |cs| ==> IdOf(cs[i]) <= Highest(cs, IdOf);
  }

  lemma Compacted(cs: seq<Command>, reg: multiset<Pair>, calls: seq<Pair>)
    requires Unique(cs) && Accounted(reg, calls, cs)
    ensures Unique(Filter(cs, On)) && Accounted(reg, calls, Filter(cs, On))
    ensures forall q :: Lookup(Filter(cs, On), q) == Lookup(cs, q)
  {
    FilterUnique(cs);
    forall q ensures Lookup(Filter(cs, On), q) == Lookup(cs, q) {
      FilterKeeps(cs, q);
    }
    FilterKeeps(cs, 0);
  }

  /** A compacted table with one more entry. */
  lemma Reserved(cs: seq<Command>, id: word, reg: multiset<Pair>, calls: seq<Pair>)
    requires Unique(cs) && Accounted(reg, calls, cs) && Lookup(cs, id) == Free
    ensures Sets(cs, Filter(cs, On) + [Reply(id)], Reply(id))
    ensures Accounted(reg + PairOf(Reply(id)), calls, Filter(cs, On) + [Reply(id)])
  {
    Compacted(cs, reg, calls);
    Appended(Filter(cs, On), Reply(id), reg, calls);
  }

  /** A table, with the null calls made so far. */
  class Table {
    var buf: array?<Command>
    var used: nat
    var typed: bool
    var calls: seq<Pair>

    /** All handlers that were ever registered and not taken back. */
    ghost var registered: multiset<Pair>

    ghost predicate Fits()
      reads this
    {
      if buf == null then used == 0 else used <= buf.Length
    }

    function Contents(): seq<Command>
      requires Fits()
      reads this, buf
    {
      if buf == null then [] else buf[..used]
    }

    /** Ids are unique, and every registered handler is active or had its null call. */
    ghost predicate Valid()
      reads this, buf
    {
      Fits() && Unique(Contents()) && Accounted(registered, calls, Contents())
    }

    constructor ()
      ensures Valid() && Contents() == [] && calls == [] && registered == multiset{} && buf == null && !typed
    {
      buf, used, typed, calls, registered := null, 0, false, [], multiset{};
    }

    /** Makes room for `n` more entries. */
    method Room(n: nat, memory: bool) returns (ok: bool)
      requires Fits()
      modifies this`buf
      ensures Fits() && Contents() == old(Contents()) && (buf == old(buf) || fresh(buf))
      ensures ok ==> buf != null && used + n <= buf.Length
      ensures !ok ==> !memory && buf == old(buf)
    {
      if buf != null && used + n <= buf.Length { return true; }
      if !memory { return false; }
      var old' := Contents();
      var next := new Command[used + n](i => if 0 <= i < |old'| then old'[i] else UNUSED);
      buf := next;
      assert buf[..used] == old';
      return true;
    }

    /** Puts an entry behind the others. */
    method Append(c: Command, memory: bool) returns (ok: bool)
      requires Fits()
      modifies this`buf, this`used, buf
      ensures Fits() && (buf == old(buf) || fresh(buf))
      ensures if ok then Contents() == old(Contents()) + [c] else !memory && Contents() == old(Contents())
    {
      ok := Room(1, memory);
      if ok {
        buf[used] := c;
        used := used + 1;
      }
    }

    /** Replaces an entry. */
    method Put(i: nat, c: Command)
      requires Fits() && i < |Contents()|
      modifies buf
      ensures Fits() && Contents() == old(Contents())[i := c]
    {
      buf[i] := c;
    }

    /** Registers, replaces or deletes a command: only its own id is affected, and a handler that was
        there gets its null call. */
    method Register(id: word, cmd: nat, arg: nat, memory: bool) returns (r: int)
      requires Valid()
      modifies this, buf
      ensures Valid() && (buf == old(buf) || fresh(buf))
      ensures old(Lookup(Contents(), id)) != Free ==> r == if cmd != 0 then 0 else 2
      ensures old(Lookup(Contents(), id)) == Free && r >= 0 ==>
                r == if exists i :: 0 <= i < |old(Contents())| && !On(old(Contents())[i]) then 0 else 1
      ensures |Contents()| == |old(Contents())| + if r == 1 then 1 else 0
      ensures r < 0 ==> !memory && r == BAD_OPERATION
      ensures r < 0 ==> Contents() == old(Contents()) && calls == old(calls) && registered == old(registered)
      ensures r >= 0 ==> Sets(old(Contents()), Contents(), Command(id, cmd, arg))
      ensures r >= 0 ==> registered == old(registered) + PairOf(Command(id, cmd, arg))
      ensures r >= 0 ==> calls == old(calls) + Null(Lookup(old(Contents()), id))
    {
      hide Sets, Accounted, Unique, Lookup, PairOf;
      ghost var cs := Contents();
      var c := Command(id, cmd, arg);
      var i := Find(Contents(), id);
      if i >= 0 {
        Replaced(cs, i, c, registered, calls);
        SetsUnique(cs, cs[i := c], c);
        calls := calls + [(buf[i].cmd, buf[i].arg)];
        registered := registered + PairOf(c);
        Put(i, c);
        return if cmd != 0 then 0 else 2;
      }
      if buf == null {
        typed := memory;
      } else {
        var e := Empty(Contents());
        if e >= 0 {
          Filled(cs, e, c, registered, calls);
          SetsUnique(cs, cs[e := c], c);
          registered := registered + PairOf(c);
          Put(e, c);
          return 0;
        }
      }
      var ok := Append(c, memory);
      if !ok { return BAD_OPERATION; }
      Appended(cs, c, registered, calls);
      SetsUnique(cs, cs + [c], c);
      registered := registered + PairOf(c);
      return 1;
    }

    /** A new raw table. */
    method First(k: nat)
      requires Valid() && buf == null && k > 0
      modifies this
      ensures Valid() && fresh(buf) && !typed && calls == old(calls) && Takes([], Contents(), k, 0) && !Wraps([])
      ensures registered == old(registered) + PairOf(Contents()[0]) && |Contents()| == 8
      ensures From([], Contents(), 0)
    {
      hide Unique, Accounted, PairOf, Takes, Wraps;
      var next := new Command[8](i => if i == 0 then Reply(1) else UNUSED);
      FirstReserved(next[..], registered, calls, k);
      buf, used, typed := next, 8, false;
      assert Contents() == next[..];
      registered := registered + PairOf(Reply(1));
    }

    /** Compacts the table. */
    method Pack() returns (high: nat)
      requires Valid() && buf != null
      modifies this`used, buf
      ensures Valid() && Contents() == Filter(old(Contents()), On) && high == Highest(old(Contents()), IdOf)
      ensures forall q :: Lookup(Contents(), q) == Lookup(old(Contents()), q)
    {
      hide Unique, Accounted, Lookup, Filter, Highest;
      Compacted(Contents(), registered, calls);
      used, high := Compact(buf, used, On, Switched, IdOf);
    }

    /** Reserves an id of `k` bytes: the active entries keep their order, and the new one goes behind
        them.  Position of the entry, or -1. */
    method Reserve(k: nat, memory: bool) returns (r: int)
      requires Valid()
      modifies this, buf
      ensures Fits() && calls == old(calls) && (buf == old(buf) || fresh(buf))
      ensures Valid() <==> r < 0 || !Wraps(old(Contents())) || Lookup(old(Contents()), 0) == Free
      ensures r >= 0 ==> Takes(old(Contents()), Contents(), k, r) && registered == old(registered) + PairOf(Contents()[r])
      ensures r < 0 ==> registered == old(registered) && Filter(Contents(), On) == Filter(old(Contents()), On)
      ensures r >= 0 ==> r < |Contents()| && Contents()[r].cmd == LOG_REPLY && Contents()[r].arg == Contents()[r].id
      ensures r >= 0 && Highest(old(Contents()), IdOf) < MaxId(k) ==>
                Contents()[r].id == Highest(old(Contents()), IdOf) + 1
      ensures r >= 0 && MaxId(k) <= Highest(old(Contents()), IdOf) < UINTPTR_MAX ==>
                IsLowest(old(Contents()), MaxId(k), Contents()[r].id)
      ensures (r >= 0 ==> k > 0) && (typed ==> old(typed))
      ensures From(old(Contents()), Contents(), r)
      ensures k > 0 && r < 0 ==>
                old(typed && buf != null) || !memory || (!Wraps(old(Contents())) && Exhausted(old(Contents()), MaxId(k)))
    {
      hide Unique, Accounted, Lookup, PairOf, Filter, NewId, Exhausted, Wraps, Sets, Takes, MaxId, From, Highest;
      ghost var cs := Contents();
      FromFilter(cs, UNUSED);
      if k == 0 { return -1; }
      var max := MaxId(k);
      MaxIdBounds(k);
      if buf == null {
        if !memory { return -1; }
        First(k);
        TakesNew(cs, Contents(), k, 0);
        return 0;
      }
      var high := Pack();
      FilterTwice(cs);
      var found, id := ChooseId(Contents(), high, max, cs);
      if !found { return -1; }
      if typed { return -1; }
      var c := Reply(id);
      var ok := Append(c, memory);
      if !ok { return -1; }
      Entered(cs, id, registered, calls, k);
      TakesNew(cs, Contents(), k, used - 1);
      FromFilter(cs, c);
      registered := registered + PairOf(c);
      return used - 1;
    }
  
    /** The owner of a reserved entry switches it off, without a null call. */
    method Release(id: word) returns (r: int)
      requires Valid()
      modifies this`registered, buf
      ensures Valid() && calls == old(calls)
      ensures r < 0 <==> old(Lookup(Contents(), id)) == Free
      ensures r < 0 ==> Contents() == old(Contents()) && registered == old(registered)
      ensures r >= 0 ==>
                r < |old(Contents())| && Serves(old(Contents())[r], id) &&
                Contents() == old(Contents())[r := Switched(old(Contents())[r])] &&
                Sets(old(Contents()), Contents(), Command(id, 0, 0)) &&
                registered + PairOf(old(Contents())[r]) == old(registered)
    {
      hide Unique, Accounted, Lookup, PairOf, Sets;
      ghost var cs := Contents();
      r := Find(Contents(), id);
      if r >= 0 {
        SwitchedOff(cs, r, registered, calls);
        SetsUnique(cs, cs[r := Switched(cs[r])], Command(id, 0, 0));
        registered := registered - PairOf(cs[r]);
        Put(r, Switched(buf[r]));
      }
    }

    /** All active handlers get their null call, and the table is empty. */
    method Clear()
      requires Valid()
      modifies this`used, this`calls
      ensures Valid() && Contents() == [] && registered == multiset(calls) && old(calls) <= calls
      ensures multiset(calls[|old(calls)|..]) == Pairs(old(Contents()))
    {
      ghost var cs := Contents();
      if buf == null {
        return;
      }
      var out := NullCalls(Contents());
      calls := calls + out;
      used := 0;
      assert calls[|old(calls)|..] == out;
      assert multiset(calls) == multiset(old(calls)) + multiset(out);
    }
  }

  lemma SwitchedOff(cs: seq<Command>, i: nat, reg: multiset<Pair>, calls: seq<Pair>)
    requires Unique(cs) && i < |cs| && On(cs[i]) && Accounted(reg, calls, cs)
    ensures var cs' := cs[i := Switched(cs[i])];
            && Sets(cs, cs', Command(cs[i].id, 0, 0)) && PairOf(cs[i]) <= reg
            && Accounted(reg - PairOf(cs[i]), calls, cs')
  {
    hide Unique, Pairs, PairOf;
    var c := Switched(cs[i]);
    ChangeUnique(cs, i, c);
    var off := Command(cs[i].id, 0, 0);
    var cs' := cs[i := c];
    forall q ensures SetsAt(cs, cs', off, q) {
      ChangeLookup(cs, i, c, q);
    }
    ChangePairs(cs, i, c);
    OffPairs(c, Pairs(cs));
    BalanceOff(Pairs(cs), Pairs(cs[i := c]), PairOf(cs[i]), multiset(calls));
  }

  lemma BalanceOff(a: multiset<Pair>, b: multiset<Pair>, out: multiset<Pair>, calls: multiset<Pair>)
    requires b + out == a
    ensures out <= calls + a && calls + a - out == calls + b
  {}

  lemma TakesNew(cs: seq<Command>, cs': seq<Command>, k: nat, r: nat)
    requires Takes(cs, cs', k, r) && k > 0
    ensures r < |cs'| && cs'[r].cmd == LOG_REPLY && cs'[r].arg == cs'[r].id
    ensures Highest(cs, IdOf) < MaxId(k) ==> cs'[r].id == Highest(cs, IdOf) + 1
    ensures MaxId(k) <= Highest(cs, IdOf) < UINTPTR_MAX ==> IsLowest(cs, MaxId(k), cs'[r].id)
  {
    MaxIdBounds(k);
  }

  /** The entries come from another table, but for unused ones and the one at `r`. */
  ghost predicate From(cs: seq<Command>, cs': seq<Command>, r: int) {
    r < |cs'| && forall c :: c in cs' ==> c in cs || c == UNUSED || (r >= 0 && c == cs'[r])
  }

  lemma FromFilter(cs: seq<Command>, c: Command)
    requires Unique(cs)
    ensures From(cs, cs, -1) && From(cs, Filter(cs, On), -1) && From(cs, Filter(cs, On) + [c], |Filter(cs, On)|)
  {
    FilterUnique(cs);
  }

  /** A reservation: the compacted table with a new entry, which alone changes what is registered. */
  ghost predicate Takes(cs: seq<Command>, cs': seq<Command>, k: nat, r: nat) {
    r < |cs'| && cs'[r] == Reply(cs'[r].id) && NewId(cs, MaxId(k), cs'[r].id) &&
    Filter(cs', On) == Filter(cs, On) + [cs'[r]] &&
    (Lookup(cs, cs'[r].id) == Free ==> Sets(cs, cs', cs'[r]))
  }

  lemma {:induction false} FilterTwice(cs: seq<Command>)
    ensures Filter(Filter(cs, On), On) == Filter(cs, On)
  {
    if cs != [] {
      var init, c := cs[..|cs| - 1], cs[|cs| - 1];
      FilterTwice(init);
      FilterSnoc(Filter(init, On), c);
      assert !On(c) ==> Filter(cs, On) == Filter(init, On);
    }
  }

  lemma FilterSnoc(cs: seq<Command>, c: Command)
    ensures Filter(cs + [c], On) == Filter(cs, On) + if On(c) then [c] else []
  {
    assert (cs + [c])[..|cs|] == cs;
  }

  /** The entry behind a compacted table; it spoils the table exactly if its id is in use. */
  lemma Entered(cs: seq<Command>, id: word, reg: multiset<Pair>, calls: seq<Pair>, k: nat)
    requires Unique(cs) && Accounted(reg, calls, cs) && NewId(cs, MaxId(k), id)
    ensures var cs' := Filter(cs, On) + [Reply(id)];
            && Takes(cs, cs', k, |cs'| - 1)
            && (Unique(cs') && Accounted(reg + PairOf(Reply(id)), calls, cs') <==> !Wraps(cs) || Lookup(cs, 0) == Free)
  {
    if !Wraps(cs) { NewIdFree(cs, MaxId(k), id); }
    assert Wraps(cs) ==> id == 0;
    hide Accounted, Wraps;
    var kept := Filter(cs, On);
    var cs' := kept + [Reply(id)];
    FilterTwice(cs);
    FilterSnoc(kept, Reply(id));
    if Lookup(cs, id) == Free {
      Reserved(cs, id, reg, calls);
    } else {
      FilterKeeps(cs, id);
      LookupFree(kept, id);
      var i :| 0 <= i < |kept| && Serves(kept[i], id);
      assert cs'[i] == kept[i] && cs'[|kept|] == Reply(id);
    }
  }

  /** The first reservation makes eight entries. */
  lemma FirstReserved(cs: seq<Command>, reg: multiset<Pair>, calls: seq<Pair>, k: nat)
    requires |cs| == 8 && cs[0] == Reply(1) && (forall i :: 0 < i < 8 ==> cs[i] == UNUSED) && k > 0
    requires Accounted(reg, calls, [])
    ensures Unique(cs) && Accounted(reg + PairOf(Reply(1)), calls, cs) && Takes([], cs, k, 0) && !Wraps([])
  {
    Appended([], Reply(1), reg, calls);
    assert [] + [Reply(1)] == [Reply(1)];
    Padded(Reply(1), 7);
    assert cs == [Reply(1)] + seq(7, _ => UNUSED);
    hide Pairs, Lookup, Filter;
    assert Filter([], On) == [];
  }

  lemma {:induction false} Padded(c: Command, n: nat)
    requires On(c)
    ensures var cs := [c] + seq(n, _ => UNUSED);
            Filter(cs, On) == [c] && Pairs(cs) == Pairs([c]) && forall q :: Lookup(cs, q) == Lookup([c], q)
  {
    var cs := [c] + seq(n, _ => UNUSED);
    if n == 0 {
      assert cs == [c];
      assert [c][..0] == [];
    } else {
      Padded(c, n - 1);
      assert cs[..n] == [c] + seq(n - 1, _ => UNUSED);
    }
  }

  /** Chooses the id of a new command; `kept` are the active entries of `cs`. */
  method ChooseId(kept: seq<Command>, high: nat, max: nat, ghost cs: seq<Command>) returns (found: bool, id: word)
    requires high == Highest(cs, IdOf) && 0 < max < UINTPTR_MAX && forall q :: Lookup(kept, q) == Lookup(cs, q)
    ensures found ==> NewId(cs, max, id)
    ensures high < max ==> found && id == high + 1
    ensures found && max <= high < UINTPTR_MAX ==> IsLowest(cs, max, id)
    ensures !found <==> !Wraps(cs) && Exhausted(cs, max)
  {
    id := (high + 1) % (UINTPTR_MAX + 1);
    if id > max {
      id := FreeId(kept, max);
      return id > 0, id;
    }
    found := true;
    if high < UINTPTR_MAX {
      AboveHighest(cs, id);
    }
  }

  lemma SetsUnique(cs: seq<Command>, cs': seq<Command>, c: Command)
    requires Sets(cs, cs', c)
    ensures Unique(cs')
  {}

  /** A dispatcher: a command table and a handler for unknown ids. */
  class Dispatch {
    const table: Table
    var def: nat
    var err: Pair
    var errCalls: seq<Pair>

    constructor (unknown: nat)
      ensures fresh(table) && table.Valid() && table.Contents() == [] && table.calls == [] && table.registered == multiset{}
      ensures table.buf == null && def == 0 && err == (unknown, 0) && errCalls == []
    {
      table := new Table();
      def, err, errCalls := 0, (unknown, 0), [];
    }

    /** Registers a command for an unused id, or takes one away. */
    method Set(id: word, cmd: nat, arg: nat, memory: bool) returns (r: int)
      requires table.Valid()
      modifies table, table.buf
      ensures table.Valid() && (table.buf == old(table.buf) || fresh(table.buf))
      ensures r < 0 ==> table.Contents() == old(table.Contents()) && table.calls == old(table.calls)
      ensures r < 0 ==> table.registered == old(table.registered)
      ensures (cmd == 0) == (old(Lookup(table.Contents(), id)) == Free) ==> r == BAD_ARGUMENT
      ensures (cmd == 0) != (old(Lookup(table.Contents(), id)) == Free) ==>
                r >= 0 || (r == BAD_OPERATION && !memory && cmd != 0)
      ensures cmd == 0 && r >= 0 ==> r < |old(table.Contents())| && Serves(old(table.Contents())[r], id)
      ensures r >= 0 ==>
                Sets(old(table.Contents()), table.Contents(), Command(id, cmd, arg)) &&
                table.registered == old(table.registered) + PairOf(Command(id, cmd, arg)) &&
                table.calls == old(table.calls) + Null(Lookup(old(table.Contents()), id))
    {
      hide Unique, Accounted, Lookup, Sets;
      ghost var cs := table.Contents();
      var pos := Find(table.Contents(), id);
      if cmd == 0 {
        if pos < 0 { return BAD_ARGUMENT; }
        var c := Command(id, 0, 0);
        Replaced(cs, pos, c, table.registered, table.calls);
        SetsUnique(cs, cs[pos := c], c);
        SetsOff(cs, cs[pos := c], id, arg);
        table.calls := table.calls + [(table.buf[pos].cmd, table.buf[pos].arg)];
        table.Put(pos, c);
        OffPairs(c, table.registered);
        return pos;
      }
      if pos >= 0 { return BAD_ARGUMENT; }
      r := table.Register(id, cmd, arg, memory);
    }

    /** Closes the dispatcher: every handler ever registered has had its null call, exactly once. */
    method Fini()
      requires table.Valid()
      modifies this, table
      ensures table.Valid() && table.Contents() == [] && table.buf == null && err.0 == 0 && def == 0
      ensures table.registered == old(table.registered) == multiset(table.calls) && old(table.calls) <= table.calls
      ensures multiset(table.calls[|old(table.calls)|..]) == Pairs(old(table.Contents()))
      ensures errCalls == old(errCalls) + if old(err).0 != 0 then [old(err)] else []
    {
      hide Unique, Accounted, Lookup, Pairs;
      def := 0;
      table.Clear();
      table.buf, table.used := null, 0;
      if err.0 != 0 {
        errCalls := errCalls + [err];
        err := (0, 0);
      }
    }
  }

  lemma SetsOff(cs: seq<Command>, cs': seq<Command>, id: word, arg: nat)
    requires Sets(cs, cs', Command(id, 0, 0))
    ensures Sets(cs, cs', Command(id, 0, arg))
  {
    forall q ensures SetsAt(cs, cs', Command(id, 0, arg), q) {
      assert SetsAt(cs, cs', Command(id, 0, 0), q);
    }
  }

  /** Use of a dispatcher: registration or removal, replacement in its table, and closing it. */
  datatype Use =
    | Set(id: word, cmd: nat, arg: nat, memory: bool)
    | Replace(id: word, cmd: nat, arg: nat, memory: bool)
    | Close

  /** What is registered, by id. */
  type Handlers = map<nat, Pair>

  /** The answer to one use: registration is for free ids, removal for used ones, replacement for all;
      otherwise only memory for a new entry can be missing. */
  predicate Answers(m: Handlers, u: Use, r: int) {
    match u
    case Set(id, cmd, _, memory) =>
      if (cmd == 0) == (id !in m) then r == BAD_ARGUMENT
      else r >= 0 || (r == BAD_OPERATION && !memory && cmd != 0)
    case Replace(id, cmd, _, memory) =>
      if id in m then r == (if cmd != 0 then 0 else 2) else r >= 0 || (r == BAD_OPERATION && !memory)
    case Close => r == 0
  }

  /** What is registered after it. */
  function After(m: Handlers, u: Use, r: int): Handlers {
    if u.Close? then map[]
    else if r < 0 then m
    else if u.cmd == 0 then m - {u.id}
    else m[u.id := (u.cmd, u.arg)]
  }

  /** The pair it registers. */
  function Adds(u: Use, r: int): multiset<Pair> {
    if !u.Close? && r >= 0 && u.cmd != 0 then multiset{(u.cmd, u.arg)} else multiset{}
  }

  /** The null calls it makes: to the handler that was there, or to all when it closes. */
  ghost function Nulls(m: Handlers, u: Use, r: int): multiset<Pair> {
    if u.Close? then Values(m)
    else if r >= 0 && u.id in m then multiset{m[u.id]}
    else multiset{}
  }

  ghost function Values(m: Handlers): multiset<Pair> {
    if m == map[] then multiset{} else var id :| id in m; Values(m - {id}) + multiset{m[id]}
  }

  lemma ValuesFirst(m: Handlers) returns (first: nat)
    requires m != map[]
    ensures first in m && Values(m) == Values(m - {first}) + multiset{m[first]}
  {
    first :| first in m && Values(m) == Values(m - {first}) + multiset{m[first]};
  }

  lemma {:induction false} ValuesLess(m: Handlers, id: nat)
    requires id in m
    ensures Values(m) == Values(m - {id}) + multiset{m[id]}
    decreases |m|
  {
    hide Values;
    var first := ValuesFirst(m);
    if first != id {
      var a, b := m - {first}, m - {id};
      assert |a| < |m| && |b| < |m|;
      ValuesLess(a, id);
      ValuesLess(b, first);
      assert a - {id} == b - {first};
      Commute(Values(a - {id}), m[id], m[first]);
    }
  }

  lemma Commute(a: multiset<Pair>, x: Pair, y: Pair)
    ensures a + multiset{x} + multiset{y} == a + multiset{y} + multiset{x}
  {}

  lemma ValuesPut(m: Handlers, id: nat, pair: Pair)
    ensures Values(m[id := pair]) == Values(m - {id}) + multiset{pair}
  {
    hide Values;
    ValuesLess(m[id := pair], id);
    assert m[id := pair] - {id} == m - {id};
  }

  /** What is registered after a run with the answers `rs`. */
  function Run(uses: seq<Use>, rs: seq<int>): Handlers
    requires |uses| == |rs|
  {
    if uses == [] then map[] else var k := |uses| - 1; After(Run(uses[..k], rs[..k]), uses[k], rs[k])
  }

  /** All pairs that were registered in a run. */
  function Registered(uses: seq<Use>, rs: seq<int>): multiset<Pair>
    requires |uses| == |rs|
  {
    if uses == [] then multiset{} else var k := |uses| - 1; Registered(uses[..k], rs[..k]) + Adds(uses[k], rs[k])
  }

  /** All null calls of a run. */
  ghost function Finalised(uses: seq<Use>, rs: seq<int>): multiset<Pair>
    requires |uses| == |rs|
  {
    if uses == [] then multiset{}
    else var k := |uses| - 1; Finalised(uses[..k], rs[..k]) + Nulls(Run(uses[..k], rs[..k]), uses[k], rs[k])
  }

  lemma UseBalance(m: Handlers, u: Use, r: int)
    ensures Values(m) + Adds(u, r) == Nulls(m, u, r) + Values(After(m, u, r))
  {
    hide Values;
    NoValues();
    if !u.Close? && r >= 0 {
      var rest := Values(m - {u.id});
      if u.id in m {
        ValuesLess(m, u.id);
        Swap(rest, m[u.id], Adds(u, r));
      } else {
        assert m - {u.id} == m;
      }
      if u.cmd != 0 {
        ValuesPut(m, u.id, (u.cmd, u.arg));
      }
    }
  }

  lemma Swap(rest: multiset<Pair>, x: Pair, more: multiset<Pair>)
    ensures rest + multiset{x} + more == multiset{x} + (rest + more)
  {}

  /** Over every run each registered pair is active or had its null call, and after a close each had
      exactly one. */
  lemma {:induction false} FinalisedOnce(uses: seq<Use>, rs: seq<int>)
    requires |uses| == |rs|
    ensures Registered(uses, rs) == Finalised(uses, rs) + Values(Run(uses, rs))
    ensures uses != [] && uses[|uses| - 1].Close? ==> Registered(uses, rs) == Finalised(uses, rs)
  {
    hide Values, Adds, Nulls;
    NoValues();
    if uses != [] {
      var k := |uses| - 1;
      FinalisedOnce(uses[..k], rs[..k]);
      var m := Run(uses[..k], rs[..k]);
      UseBalance(m, uses[k], rs[k]);
      Regroup(Finalised(uses[..k], rs[..k]), Values(m), Adds(uses[k], rs[k]), Nulls(m, uses[k], rs[k]), Values(Run(uses, rs)));
    }
  }

  lemma Regroup(f: multiset<Pair>, v: multiset<Pair>, add: multiset<Pair>, null': multiset<Pair>, v': multiset<Pair>)
    requires v + add == null' + v'
    ensures f + v + add == f + null' + v'
  {
    assert f + v + add == f + (v + add);
    assert f + null' + v' == f + (null' + v');
  }

  lemma NoValues()
    ensures Values(map[]) == multiset{}
  {}

  /** The table holds exactly what is registered. */
  ghost predicate Registers(cs: seq<Command>, m: Handlers) {
    forall q :: RegistersAt(cs, m, q)
  }

  ghost predicate RegistersAt(cs: seq<Command>, m: Handlers, q: nat) {
    Lookup(cs, q) == if q in m then Taken(m[q].0, m[q].1) else Free
  }

  lemma RegistersSets(cs: seq<Command>, cs': seq<Command>, c: Command, m: Handlers)
    requires Registers(cs, m) && Sets(cs, cs', c)
    ensures Registers(cs', if On(c) then m[c.id := (c.cmd, c.arg)] else m - {c.id})
  {
    var m' := if On(c) then m[c.id := (c.cmd, c.arg)] else m - {c.id};
    forall q ensures RegistersAt(cs', m', q) {
      assert RegistersAt(cs, m, q) && SetsAt(cs, cs', c, q);
    }
  }

  lemma {:induction false} RegistersValues(cs: seq<Command>, m: Handlers)
    requires Unique(cs) && Registers(cs, m)
    ensures Pairs(cs) == Values(m)
  {
    hide Values;
    NoValues();
    if cs == [] {
      RegistersNone(m);
    } else {
      var init, c := cs[..|cs| - 1], cs[|cs| - 1];
      assert cs == init + [c];
      SnocPairs(init, c, c.id);
      RegistersInit(init, c, m);
      hide Pairs;
      if On(c) {
        RegistersValues(init, m - {c.id});
        ValuesLess(m, c.id);
      } else {
        RegistersValues(init, m);
        OffPairs(c, Pairs(init));
      }
    }
  }

  lemma RegistersNone(m: Handlers)
    requires Registers([], m)
    ensures m == map[]
  {
    forall q ensures q !in m {
      assert RegistersAt([], m, q);
    }
  }

  /** What the entries before the last one register. */
  lemma RegistersInit(init: seq<Command>, c: Command, m: Handlers)
    requires Unique(init + [c]) && Registers(init + [c], m)
    ensures Unique(init)
    ensures if On(c) then c.id in m && m[c.id] == (c.cmd, c.arg) && Registers(init, m - {c.id}) else Registers(init, m)
  {
    var cs := init + [c];
    assert forall i :: 0 <= i < |init| ==> cs[i] == init[i];
    assert RegistersAt(cs, m, c.id);
    SnocPairs(init, c, c.id);
    LookupFree(init, c.id);
    var m' := if On(c) then m - {c.id} else m;
    forall q ensures RegistersAt(init, m', q) {
      assert RegistersAt(cs, m, q);
      SnocPairs(init, c, q);
      if On(c) && q == c.id {
        forall i | 0 <= i < |init| ensures !Serves(init[i], c.id) {
          assert cs[i] == init[i] && cs[|init|] == c;
        }
      }
    }
  }

  /** One use with its answer, its null calls and the table it leaves: ids stay unique. */
  ghost predicate Stepped(m: Handlers, u: Use, r: int, calls: seq<Pair>, table: seq<Command>) {
    Answers(m, u, r) && multiset(calls) == Nulls(m, u, r) && Unique(table) && Registers(table, After(m, u, r))
  }

  /** A use that sets one id. */
  lemma SetSteps(m: Handlers, u: Use, r: int, cs: seq<Command>, cs': seq<Command>)
    requires !u.Close? && Answers(m, u, r) && Registers(cs, m)
    requires r < 0 ==> cs' == cs && Unique(cs)
    requires r >= 0 ==> Sets(cs, cs', Command(u.id, u.cmd, u.arg))
    ensures Stepped(m, u, r, if r >= 0 then Null(Lookup(cs, u.id)) else [], cs')
  {
    assert RegistersAt(cs, m, u.id);
    if r >= 0 {
      RegistersSets(cs, cs', Command(u.id, u.cmd, u.arg), m);
    }
  }

  lemma CloseSteps(m: Handlers, calls: seq<Pair>, cs: seq<Command>)
    requires Registers(cs, m) && Unique(cs) && multiset(calls) == Pairs(cs)
    ensures Stepped(m, Close, 0, calls, [])
  {
    RegistersValues(cs, m);
    NothingRegistered();
  }

  lemma NothingRegistered()
    ensures Registers([], map[]) && Unique([])
  {
    forall q ensures RegistersAt([], map[], q) {}
  }

  lemma RegisteredAt(cs: seq<Command>, m: Handlers, q: nat)
    requires Registers(cs, m)
    ensures q in m <==> Lookup(cs, q) != Free
  {
    assert RegistersAt(cs, m, q);
  }

  /** One use of a dispatcher. */
  method Apply(d: Dispatch, u: Use, ghost m: Handlers) returns (r: int, calls: seq<Pair>, table: seq<Command>)
    requires d.table.Valid() && Registers(d.table.Contents(), m)
    modifies d, d.table, d.table.buf
    ensures d.table.Valid() && (d.table.buf == null || d.table.buf == old(d.table.buf) || fresh(d.table.buf))
    ensures table == d.table.Contents() && Stepped(m, u, r, calls, table)
    ensures if u.Close? then d.err.0 == 0 else d.err == old(d.err)
    ensures d.errCalls == old(d.errCalls) + if u.Close? && old(d.err).0 != 0 then [old(d.err)] else []
  {
    hide Accounted, Registers, Sets, Stepped, Unique, Pairs, Lookup, Nulls;
    ghost var cs := d.table.Contents();
    var n := |d.table.calls|;
    RegisteredAt(cs, m, if u.Close? then 0 else u.id);
    match u {
      case Set(id, cmd, arg, memory) =>
        r := d.Set(id, cmd, arg, memory);
      case Replace(id, cmd, arg, memory) =>
        r := d.table.Register(id, cmd, arg, memory);
      case Close =>
        d.Fini();
        r := 0;
    }
    table, calls := d.table.Contents(), d.table.calls[n..];
    if u.Close? {
      CloseSteps(m, calls, cs);
    } else {
      assert calls == if r >= 0 then Null(Lookup(cs, u.id)) else [];
      SetSteps(m, u, r, cs, table);
    }
  }

  /** The null calls of all steps. */
  ghost function Total(calls: seq<seq<Pair>>): multiset<Pair> {
    if calls == [] then multiset{} else Total(calls[..|calls| - 1]) + multiset(calls[|calls| - 1])
  }

  /** The answers, null calls and tables of a run are those of the map of handlers, step by step. */
  ghost predicate Played(uses: seq<Use>, rs: seq<int>, calls: seq<seq<Pair>>, tables: seq<seq<Command>>) {
    |rs| == |calls| == |tables| == |uses| &&
    forall i :: 0 <= i < |uses| ==> Stepped(Run(uses[..i], rs[..i]), uses[i], rs[i], calls[i], tables[i])
  }

  lemma PlayedMore(uses: seq<Use>, rs: seq<int>, calls: seq<seq<Pair>>, tables: seq<seq<Command>>,
                   u: Use, r: int, null': seq<Pair>, table: seq<Command>)
    requires Played(uses, rs, calls, tables) && Stepped(Run(uses, rs), u, r, null', table)
    ensures Played(uses + [u], rs + [r], calls + [null'], tables + [table])
    ensures Run(uses + [u], rs + [r]) == After(Run(uses, rs), u, r)
  {
    hide Stepped;
    var us, rs' := uses + [u], rs + [r];
    assert us[..|uses|] == uses && rs'[..|uses|] == rs;
    forall i | 0 <= i < |us|
      ensures Stepped(Run(us[..i], rs'[..i]), us[i], rs'[i], (calls + [null'])[i], (tables + [table])[i])
    {
      if i < |uses| {
        assert us[..i] == uses[..i] && rs'[..i] == rs[..i];
      }
    }
  }

  /** The null calls of a run are those of the map of handlers. */
  lemma {:induction false} TotalIs(uses: seq<Use>, rs: seq<int>, calls: seq<seq<Pair>>, tables: seq<seq<Command>>)
    requires Played(uses, rs, calls, tables)
    ensures Total(calls) == Finalised(uses, rs)
    decreases |uses|
  {
    hide Nulls;
    if uses != [] {
      var k := |uses| - 1;
      assert Stepped(Run(uses[..k], rs[..k]), uses[k], rs[k], calls[k], tables[k]);
      hide Stepped;
      forall i | 0 <= i < k
        ensures Stepped(Run(uses[..k][..i], rs[..k][..i]), uses[..k][i], rs[..k][i], calls[..k][i], tables[..k][i])
      {
        assert uses[..k][..i] == uses[..i] && rs[..k][..i] == rs[..i];
      }
      TotalIs(uses[..k], rs[..k], calls[..k], tables[..k]);
      StepRegisters(Run(uses[..k], rs[..k]), uses[k], rs[k], calls[k], tables[k]);
    }
  }

  predicate Closed(uses: seq<Use>) {
    exists i :: 0 <= i < |uses| && uses[i].Close?
  }

  lemma ClosedMore(uses: seq<Use>, u: Use)
    ensures Closed(uses + [u]) <==> Closed(uses) || u.Close?
  {
    var us := uses + [u];
    if Closed(uses) {
      var i :| 0 <= i < |uses| && uses[i].Close?;
      assert us[i].Close?;
    }
    if u.Close? {
      assert us[|uses|].Close?;
    }
  }

  /** Over every run: the answers, null calls and tables are those of the map of handlers, step by step,
      with unique ids throughout; and a run that ends with a close has given every pair it registered
      exactly one null call. */
  method PlayDispatch(uses: seq<Use>, unknown: nat)
      returns (rs: seq<int>, calls: seq<seq<Pair>>, tables: seq<seq<Command>>, errCalls: seq<Pair>)
    ensures Played(uses, rs, calls, tables)
    ensures uses != [] && uses[|uses| - 1].Close? ==> Total(calls) == Registered(uses, rs)
    ensures errCalls == if unknown != 0 && Closed(uses) then [(unknown, 0)] else []
  {
    hide Registers, Unique, Accounted, Stepped, Pairs, Played, Closed, Run;
    var d := new Dispatch(unknown);
    NothingRegistered();
    rs, calls, tables := [], [], [];
    NothingPlayed();
    for i := 0 to |uses|
      invariant fresh(d) && fresh(d.table) && (d.table.buf == null || fresh(d.table.buf)) && d.table.Valid()
      invariant |rs| == i && Registers(d.table.Contents(), Run(uses[..i], rs)) && Played(uses[..i], rs, calls, tables)
      invariant if Closed(uses[..i]) then d.err.0 == 0 else d.err == (unknown, 0)
      invariant d.errCalls == if unknown != 0 && Closed(uses[..i]) then [(unknown, 0)] else []
    {
      ghost var m := Run(uses[..i], rs);
      var r, null', table := Apply(d, uses[i], m);
      StepRegisters(m, uses[i], r, null', table);
      PlayedMore(uses[..i], rs, calls, tables, uses[i], r, null', table);
      ClosedMore(uses[..i], uses[i]);
      assert uses[..i + 1] == uses[..i] + [uses[i]];
      rs, calls, tables := rs + [r], calls + [null'], tables + [table];
    }
    assert uses[..|uses|] == uses;
    TotalIs(uses, rs, calls, tables);
    FinalisedOnce(uses, rs);
    errCalls := d.errCalls;
  }

  lemma NothingPlayed()
    ensures Played([], [], [], []) && Run([], []) == map[] && !Closed([])
  {}

  lemma StepRegisters(m: Handlers, u: Use, r: int, calls: seq<Pair>, table: seq<Command>)
    requires Stepped(m, u, r, calls, table)
    ensures Registers(table, After(m, u, r)) && multiset(calls) == Nulls(m, u, r)
  {}

  /** Use of a table of reserved ids: the owner of an id releases it. */
  datatype Step = Reserve(memory: bool) | Release(id: word)

  /** The active ids after a run, from the ids it got (0 if none). */
  function Live(steps: seq<Step>, got: seq<nat>): set<nat>
    requires |steps| == |got|
  {
    if steps == [] then {} else var n := |steps| - 1; NextLive(Live(steps[..n], got[..n]), steps[n], got[n])
  }

  function NextLive(live: set<nat>, step: Step, got: nat): set<nat> {
    match step
    case Reserve(_) => if got > 0 then live + {got} else live
    case Release(id) => live - {id}
  }

  /** An id that was reserved is in the range and not active; there is none only if no memory or no
      inactive id is left. */
  predicate Unused(got: nat, live: set<nat>, max: nat, memory: bool) {
    if got > 0 then got <= max && got !in live
    else !memory || forall id :: 0 < id <= max ==> id in live
  }

  ghost predicate InRange(cs: seq<Command>, max: nat) {
    forall c :: c in cs ==> c.id <= max && (On(c) ==> c.id > 0)
  }

  ghost predicate Shows(cs: seq<Command>, live: set<nat>) {
    forall id :: Shown(cs, live, id)
  }

  ghost predicate Shown(cs: seq<Command>, live: set<nat>, id: nat) {
    Lookup(cs, id) != Free <==> id in live
  }

  lemma NoWrap(cs: seq<Command>, max: nat)
    requires InRange(cs, max) && max < UINTPTR_MAX
    ensures !Wraps(cs)
  {
    assert forall i :: 0 <= i < |cs| ==> cs[i] in cs && IdOf(cs[i]) == cs[i].id;
  }

  lemma ReserveShows(cs: seq<Command>, cs': seq<Command>, live: set<nat>, k: nat, r: nat)
    requires Shows(cs, live) && Takes(cs, cs', k, r) && !Wraps(cs)
    ensures r < |cs'| && Unused(cs'[r].id, live, MaxId(k), true) && cs'[r].id > 0 && Shows(cs', live + {cs'[r].id})
  {
    var id := cs'[r].id;
    NewIdFree(cs, MaxId(k), id);
    assert Shown(cs, live, id);
    forall q ensures Shown(cs', live + {id}, q) {
      assert Shown(cs, live, q) && SetsAt(cs, cs', cs'[r], q);
    }
  }

  lemma SameShows(cs: seq<Command>, cs': seq<Command>, live: set<nat>)
    requires Shows(cs, live) && Filter(cs', On) == Filter(cs, On)
    ensures Shows(cs', live)
  {
    forall q ensures Shown(cs', live, q) {
      assert Shown(cs, live, q);
      FilterKeeps(cs, q);
      FilterKeeps(cs', q);
    }
  }

  lemma ReleaseShows(cs: seq<Command>, cs': seq<Command>, live: set<nat>, id: word)
    requires Shows(cs, live) && Sets(cs, cs', Command(id, 0, 0))
    ensures Shows(cs', live - {id})
  {
    forall q ensures Shown(cs', live - {id}, q) {
      assert Shown(cs, live, q) && SetsAt(cs, cs', Command(id, 0, 0), q);
    }
  }

  lemma ExhaustedShows(cs: seq<Command>, live: set<nat>, max: nat)
    requires Shows(cs, live) && Exhausted(cs, max)
    ensures Unused(0, live, max, true)
  {
    forall id | 0 < id <= max ensures id in live {
      assert Shown(cs, live, id);
    }
  }

  lemma NothingShown()
    ensures Shows([], {}) && Live([], []) == {}
  {
    forall id ensures Shown([], {}, id) {}
  }

  /** One step on a table of reserved ids. */
  method Take(t: Table, k: nat, step: Step, ghost live: set<nat>) returns (id: nat)
    requires t.Valid() && !t.typed && k > 0 && Shows(t.Contents(), live) && InRange(t.Contents(), MaxId(k))
    modifies t, t.buf
    ensures t.Valid() && !t.typed && (t.buf == old(t.buf) || fresh(t.buf))
    ensures Shows(t.Contents(), NextLive(live, step, id)) && InRange(t.Contents(), MaxId(k))
    ensures step.Reserve? ==> Unused(id, live, MaxId(k), step.memory)
  {
    hide Unique, Accounted, Lookup, Sets, Pairs, Takes, MaxId, Wraps, Exhausted, Shows, Filter;
    MaxIdBounds(k);
    ghost var cs := t.Contents();
    NoWrap(cs, MaxId(k));
    id := 0;
    match step {
      case Reserve(memory) =>
        var r := t.Reserve(k, memory);
        if r >= 0 {
          ReserveShows(cs, t.Contents(), live, k, r);
          id := t.Contents()[r].id;
        } else {
          SameShows(cs, t.Contents(), live);
          if memory { ExhaustedShows(cs, live, MaxId(k)); }
        }
      case Release(id') =>
        var r := t.Release(id');
        if r < 0 {
          NotLive(cs, live, id');
        } else {
          ReleaseShows(cs, t.Contents(), live, id');
        }
    }
  }

  lemma NotLive(cs: seq<Command>, live: set<nat>, id: nat)
    requires Shows(cs, live) && Lookup(cs, id) == Free
    ensures live - {id} == live
  {
    assert Shown(cs, live, id);
  }

  /** Over every run on a table of reserved ids: each id that is handed out is in the range of `k`
      bytes and not in use, and with memory it fails only if all of them are. */
  method PlayIds(k: nat, steps: seq<Step>) returns (got: seq<nat>)
    requires k > 0
    ensures |got| == |steps|
    ensures forall i :: 0 <= i < |steps| && steps[i].Reserve? ==>
              Unused(got[i], Live(steps[..i], got[..i]), MaxId(k), steps[i].memory)
  {
    hide Unique, Accounted, MaxId, Shows, Unused;
    var t := new Table();
    got := [];
    ghost var live: set<nat> := {};
    NothingShown();
    for i := 0 to |steps|
      invariant fresh(t) && (t.buf == null || fresh(t.buf)) && t.Valid() && !t.typed
      invariant |got| == i && live == Live(steps[..i], got) && Shows(t.Contents(), live) && InRange(t.Contents(), MaxId(k))
      invariant forall j :: 0 <= j < i && steps[j].Reserve? ==>
                  Unused(got[j], Live(steps[..j], got[..j]), MaxId(k), steps[j].memory)
    {
      var id := Take(t, k, steps[i], live);
      live := NextLive(live, steps[i], id);
      assert steps[..i + 1][..i] == steps[..i] && (got + [id])[..i] == got;
      assert forall j :: 0 <= j < i ==> (got + [id])[..j] == got[..j];
      assert got[..i] == got;
      got := got + [id];
    }
  }
}
