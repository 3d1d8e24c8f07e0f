/** Scatter lists: memory in several parts, read and written as one run of bytes. */
module Scatter {
  import opened Bytes

  /** The parts do not overlap. */
  ghost predicate Distinct(parts: seq<array<byte>>) {
    forall i, j :: 0 <= i < j < |parts| ==> parts[i] != parts[j]
  }

  ghost function Snap(parts: seq<array<byte>>): (s: seq<seq<byte>>)
    reads parts
    ensures |s| == |parts|
  {
    seq(|parts|, i requires 0 <= i < |parts| reads parts => parts[i][..])
  }

  /** All bytes of the list, in order. */
  ghost function Flat(parts: seq<array<byte>>): seq<byte>
    reads parts
  {
    Concat(Snap(parts))
  }

  /** Bytes in the first `k` parts. */
  function Before(parts: seq<array<byte>>, k: nat): nat
    requires k <= |parts|
  {
    if k == 0 then 0 else Before(parts, k - 1) + parts[k - 1].Length
  }

  lemma {:induction false} ConcatApp(a: seq<seq<byte>>, b: seq<seq<byte>>)
    ensures Concat(a + b) == Concat(a) + Concat(b)
  {
    if a == [] {
      assert a + b == b;
    } else {
      assert (a + b)[0] == a[0] && (a + b)[1..] == a[1..] + b;
      ConcatApp(a[1..], b);
    }
  }

  lemma {:induction false} BeforeLen(parts: seq<array<byte>>, k: nat)
    requires k <= |parts|
    ensures |Concat(Snap(parts)[..k])| == Before(parts, k)
  {
    if k > 0 {
      BeforeLen(parts, k - 1);
      var s := Snap(parts);
      assert s[..k] == s[..k - 1] + [s[k - 1]];
      ConcatApp(s[..k - 1], [s[k - 1]]);
      assert Concat([s[k - 1]]) == s[k - 1] + Concat([]);
    }
  }

  /** The part `k` and what lies before and behind it. */
  lemma FlatSplit(parts: seq<array<byte>>, k: nat)
    requires k < |parts|
    ensures var s := Snap(parts);
            Flat(parts) == Concat(s[..k]) + parts[k][..] + Concat(s[k + 1..])
    ensures |Concat(Snap(parts)[..k])| == Before(parts, k)
    ensures Before(parts, k) + parts[k].Length == Before(parts, k + 1) <= |Flat(parts)|
  {
    var s := Snap(parts);
    BeforeLen(parts, k);
    assert s == s[..k] + ([s[k]] + s[k + 1..]);
    ConcatApp(s[..k], [s[k]] + s[k + 1..]);
    ConcatApp([s[k]], s[k + 1..]);
    assert Concat([s[k]]) == s[k] + Concat([]);
  }

  lemma FlatEnd(parts: seq<array<byte>>)
    ensures Before(parts, |parts|) == |Flat(parts)|
  {
    BeforeLen(parts, |parts|);
    assert Snap(parts)[..|parts|] == Snap(parts);
  }

  lemma FlatRest(parts: seq<array<byte>>, k: nat)
    requires k <= |parts|
    ensures Before(parts, k) <= |Flat(parts)| && Flat(parts[k..]) == Flat(parts)[Before(parts, k)..]
  {
    var s := Snap(parts);
    BeforeLen(parts, k);
    assert s == s[..k] + s[k..];
    ConcatApp(s[..k], s[k..]);
    assert Snap(parts[k..]) == s[k..];
  }

  /** A place in a scatter list, as `mpt::message` keeps it: `used` bytes at `base + off`, then the
      parts of `cont`. */
  datatype Cursor = Cursor(base: array?<byte>, off: nat, used: nat, cont: seq<array<byte>>)

  /** The cursor stands at byte `p` of the list. */
  ghost predicate At(parts: seq<array<byte>>, c: Cursor, p: nat) {
    var k := |parts| - |c.cont|;
    k >= 0 && c.cont == parts[k..] &&
    (c.used > 0 ==> k > 0 && c.base == parts[k - 1] && c.off + c.used == parts[k - 1].Length) &&
    p + c.used == Before(parts, k)
  }

  /** The byte under the cursor. */
  lemma AtByte(parts: seq<array<byte>>, c: Cursor, p: nat)
    requires At(parts, c, p) && c.used > 0
    ensures p < |Flat(parts)| && Flat(parts)[p] == c.base[c.off]
  {
    var k := |parts| - |c.cont| - 1;
    FlatSplit(parts, k);
    assert p == Before(parts, k) + c.off;
  }

  lemma AtEnd(parts: seq<array<byte>>, c: Cursor, p: nat)
    requires At(parts, c, p) && c.used == 0 && c.cont == []
    ensures p == |Flat(parts)|
  {
    FlatEnd(parts);
  }

  lemma AtBound(parts: seq<array<byte>>, c: Cursor, p: nat)
    requires At(parts, c, p)
    ensures p <= |Flat(parts)|
  {
    FlatRest(parts, |parts| - |c.cont|);
  }

  /** Entering the next part. */
  function Enter(c: Cursor): Cursor
    requires c.cont != []
  {
    Cursor(c.cont[0], 0, c.cont[0].Length, c.cont[1..])
  }

  lemma EnterAt(parts: seq<array<byte>>, c: Cursor, p: nat)
    requires At(parts, c, p) && c.cont != []
    ensures At(parts, Enter(c), p + c.used)
  {
    var k := |parts| - |c.cont|;
    assert c.cont[1..] == parts[k + 1..];
  }

  method NextPart(ghost parts: seq<array<byte>>, c: Cursor, ghost p: nat) returns (c': Cursor)
    requires At(parts, c, p)
    ensures At(parts, c', p) && (c'.used == 0 ==> c'.cont == [])
    ensures c.used > 0 ==> c' == c
  {
    c' := c;
    while c'.used == 0 && c'.cont != []
      invariant At(parts, c', p) && (c.used > 0 ==> c' == c)
      decreases |c'.cont|
    {
      EnterAt(parts, c', p);
      c' := Enter(c');
    }
  }

  function Advance(c: Cursor, n: nat): Cursor
    requires n <= c.used
  {
    Cursor(c.base, c.off + n, c.used - n, c.cont)
  }

  /** Reads one byte, skipping empty parts; fails at the end of the list. */
  method GetByte(ghost parts: seq<array<byte>>, c: Cursor, ghost p: nat) returns (ok: bool, c': Cursor, val: byte)
    requires At(parts, c, p)
    ensures ok <==> p < |Flat(parts)|
    ensures ok ==> val == Flat(parts)[p] && At(parts, c', p + 1)
  {
    c' := NextPart(parts, c, p);
    if c'.used == 0 {
      AtEnd(parts, c', p);
      return false, c', 0;
    }
    AtByte(parts, c', p);
    ok, val := true, c'.base[c'.off];
    c' := Advance(c', 1);
  }

  lemma ConcatSet(s: seq<seq<byte>>, k: nat, o: nat, x: byte, row: seq<byte>)
    requires k < |s| && o < |s[k]| && row == s[k][o := x]
    ensures var p := |Concat(s[..k])| + o;
            p < |Concat(s)| && Concat(s[k := row]) == Concat(s)[p := x]
  {
    var t := s[k := row];
    assert s == s[..k] + ([s[k]] + s[k + 1..]) && t == s[..k] + ([t[k]] + s[k + 1..]);
    ConcatApp(s[..k], [s[k]] + s[k + 1..]);
    ConcatApp(s[..k], [t[k]] + s[k + 1..]);
    ConcatApp([s[k]], s[k + 1..]);
    ConcatApp([t[k]], s[k + 1..]);
    assert Concat([s[k]]) == s[k] && Concat([t[k]]) == t[k];
  }

  /** Writes one byte, skipping empty parts. */
  method PutByte(ghost parts: seq<array<byte>>, c: Cursor, ghost p: nat, val: byte) returns (c': Cursor)
    requires Distinct(parts) && At(parts, c, p) && p < |Flat(parts)|
    modifies parts
    ensures At(parts, c', p + 1) && Flat(parts) == old(Flat(parts))[p := val]
  {
    c' := NextPart(parts, c, p);
    if c'.used == 0 {
      AtEnd(parts, c', p);
      assert false;
    }
    ghost var k := |parts| - |c'.cont| - 1;
    ghost var s := Snap(parts);
    ghost var row: seq<byte> := s[k][c'.off := val];
    ConcatSet(s, k, c'.off, val, row);
    BeforeLen(parts, k);
    c'.base[c'.off] := val;
    assert Snap(parts) == s[k := row];
    c' := Advance(c', 1);
  }
}
