/** Counted buffers and the arrays that share them: copy on write. */
module Buffers {
  import opened Bytes
  import opened RefCounts

  const HEADER := 64
  const PART := 128

  /** Space of a buffer for `len` bytes: whole parts, header included. */
  function Rounded(len: nat): (size: nat)
    ensures len <= size < len + 128 && (size + 64) % 128 == 0
  {
    ((len + HEADER - 1) / PART + 1) * PART - HEADER
  }

  /** Raw data with a count of the arrays that hold it. */
  class Buffer {
    const mem: array<byte>
    var used: nat
    var ref: nat
    ghost var freed: bool

    ghost predicate Valid()
      reads this
    {
      !freed && used <= mem.Length && 0 < ref <= REF_MAX
    }

    ghost function Data(): seq<byte>
      requires Valid()
      reads this, mem
    {
      mem[..used]
    }

    constructor (len: nat)
      ensures Valid() && fresh(mem) && mem.Length == Rounded(len) && used == 0 && ref == 1
    {
      mem := new byte[Rounded(len)];
      used, ref, freed := 0, 1, false;
    }

    method Unref()
      requires Valid()
      modifies this`ref, this`freed
      ensures ref == old(ref) - 1 && freed == (ref == 0)
    {
      ref := Lower(ref);
      if ref != 0 { return; }
      freed := true;
    }

    method AddRef() returns (r: nat)
      requires Valid()
      modifies this`ref
      ensures Valid() && (ref, r) == Raise(old(ref))
    {
      r := Raise(ref).1;
      ref := Raise(ref).0;
    }

    /** A buffer of one's own with the data: this one if nobody shares it and it is large enough.  A
        shared buffer loses its reference even if the copy does not fit. */
    method Detach(len: nat, memory: bool) returns (next: Buffer?)
      requires Valid()
      modifies this`ref, this`freed
      ensures old(ref) == 1 && len <= mem.Length ==> next == this && Valid() && ref == 1
      ensures !(old(ref) == 1 && len <= mem.Length) && !memory ==> next == null && Valid() && ref == old(ref)
      ensures !(old(ref) == 1 && len <= mem.Length) && memory ==>
                && ref == old(ref) - 1 && freed == (ref == 0)
                && (next == null <==> ref > 0 && used > Rounded(len))
                && (next != null ==>
                      fresh(next) && fresh(next.mem) && next.Valid() && next.ref == 1 &&
                      next.mem.Length == Rounded(len) && next.Data() == mem[..used])
    {
      if ref < 2 && len <= mem.Length { return this; }
      if !memory { return null; }
      next := new Buffer(len);
      ref := Lower(ref);
      if ref != 0 {
        if used > next.mem.Length { return null; }
        CopyIn(next.mem, mem, used);
        next.used := used;
      } else {
        var add := if used > len then len else used;
        CopyIn(next.mem, mem, add);
        next.used := add;
        freed := true;
      }
    }

    /** Opens a gap of `len` bytes at `pos`, behind zeros if that is behind the data. */
    method Insert(pos: nat, len: nat) returns (ok: bool)
      requires Valid()
      modifies this`used, mem
      ensures Valid()
      ensures ok <==> (if pos < old(used) then old(used) else pos) + len <= mem.Length
      ensures ok ==> Inserted(old(Data()), Data(), pos, len)
      ensures !ok ==> Data() == old(Data())
    {
      var total, keep := pos + len, 0;
      if pos < used {
        total, keep := used + len, used - pos;
      }
      if total == 0 { return true; }
      if total > mem.Length { return false; }
      var was := used;
      used := total;
      if keep > 0 {
        forall i | 0 <= i < keep { mem[total - keep + i] := mem[pos + i]; }
      }
      if pos > was {
        forall i | was <= i < pos { mem[i] := 0; }
      }
      return true;
    }
  }

  method CopyIn(to: array<byte>, from: array<byte>, n: nat)
    requires n <= to.Length && n <= from.Length && to != from
    modifies to
    ensures to[..n] == from[..n]
  {
    forall i | 0 <= i < n { to[i] := from[i]; }
  }

  function Extent(used: nat, pos: nat): nat {
    if pos < used then used else pos
  }

  /** Data with zeros up to `pos`. */
  function Padded(s: seq<byte>, pos: nat): seq<byte> {
    if pos <= |s| then s else s + Zeros(pos - |s|)
  }

  lemma PaddedIs(s: seq<byte>, pos: nat)
    ensures |Padded(s, pos)| == if pos <= |s| then |s| else pos
    ensures forall k :: 0 <= k < |Padded(s, pos)| ==> Padded(s, pos)[k] == if k < |s| then s[k] else 0
  {}

  /** `t` is `s` with `len` bytes more at `pos`; what they are is left open. */
  ghost predicate Inserted(s: seq<byte>, t: seq<byte>, pos: nat, len: nat) {
    var p := Padded(s, pos);
    |t| == |p| + len && t[..pos] == p[..pos] && t[pos + len..] == p[pos..]
  }
}

/** Arrays that hold counted buffers. */
module Arrays {
  import opened Bytes
  import opened RefCounts
  import opened Buffers

  const BAD_OPERATION := -0x4
  const LONG_MAX := 0x7fff_ffff_ffff_ffff
  const SIZE_MAX := 0xffff_ffff_ffff_ffff

  class Array {
    var buf: Buffer?

    constructor ()
      ensures buf == null
    {
      buf := null;
    }
  }

  /** Which buffer each array holds. */
  type Holding = map<Array, Buffer?>

  ghost function Holders(H: Holding, b: Buffer): set<Array> {
    set a | a in H && H[a] == b
  }

  ghost function BufsOf(H: Holding): set<Buffer> {
    set a | a in H && H[a] != null :: H[a]
  }

  /** The count of a buffer is the number of arrays that hold it. */
  ghost predicate Counted(H: Holding, b: Buffer)
    reads b
  {
    b.Valid() && b.ref == |Holders(H, b)|
  }

  /** No two buffers share memory. */
  ghost predicate Separate(H: Holding) {
    forall a, c :: a in H && c in H && H[a] != H[c] ==> Apart(H[a], H[c])
  }

  ghost predicate Apart(b: Buffer?, c: Buffer?) {
    b != null && c != null ==> b.mem != c.mem
  }

  ghost predicate Owned(H: Holding)
    reads H.Keys, BufsOf(H)
  {
    Separate(H) && forall a :: a in H ==> a.buf == H[a] && (H[a] != null ==> Counted(H, H[a]))
  }

  ghost function Content(b: Buffer?): seq<byte>
    requires b != null ==> b.Valid()
    reads b, if b == null then {} else {b.mem}
  {
    if b == null then [] else b.Data()
  }

  /** An array that takes another buffer. */
  lemma Moved(H: Holding, arr: Array, next: Buffer?, b: Buffer)
    requires arr in H
    ensures var H' := H[arr := next];
            |Holders(H', b)| ==
            if next == H[arr] || (b != next && b != H[arr]) then |Holders(H, b)|
            else if b == next then |Holders(H, b)| + 1
            else |Holders(H, b)| - 1
  {
    var H' := H[arr := next];
    if next == H[arr] {
      assert H' == H;
    } else if b == next {
      assert Holders(H', b) == Holders(H, b) + {arr};
    } else if b == H[arr] {
      assert arr in Holders(H, b) && Holders(H', b) == Holders(H, b) - {arr};
    } else {
      assert Holders(H', b) == Holders(H, b);
    }
  }

  lemma Holds(H: Holding, a: Array, b: Buffer)
    requires a in H && H[a] == b
    ensures |Holders(H, b)| > 0
  {
    assert a in Holders(H, b);
  }

  /** A buffer with one holder is not shared. */
  lemma Alone(H: Holding, a: Array, c: Array, b: Buffer)
    requires a in H && c in H && H[a] == H[c] == b && |Holders(H, b)| == 1
    ensures a == c
  {
    var rest := Holders(H, b) - {a};
    assert a in Holders(H, b) && |rest| == 0;
    assert c !in rest;
  }

  lemma NewBuffer(H: Holding, arr: Array, next: Buffer)
    requires arr in H && (forall a :: a in H ==> H[a] != next && Apart(H[a], next)) && Separate(H)
    ensures |Holders(H[arr := next], next)| == 1 && Separate(H[arr := next])
  {
    assert Holders(H[arr := next], next) == {arr};
  }

  /** Makes the buffer of an array private, with room for `len` bytes. */
  method Private(arr: Array, len: nat, memory: bool, ghost H: Holding) returns (ok: bool)
    requires Owned(H) && arr in H && arr.buf != null && arr.buf.used <= len
    modifies arr, arr.buf
    ensures Owned(H[arr := arr.buf]) && (ok || !memory) && arr.buf != null && Content(arr.buf) == old(Content(arr.buf))
    ensures ok ==> arr.buf.ref == 1 && len <= arr.buf.mem.Length
    ensures !ok ==> arr.buf == old(arr.buf)
    ensures arr.buf == old(arr.buf) || (fresh(arr.buf) && fresh(arr.buf.mem))
    ensures forall a :: a in H && a != arr && H[a] != null ==> H[a].Valid() && Content(H[a]) == old(Content(H[a]))
  {
    hide Holders, Separate;
    assert H[arr := arr.buf] == H;
    var b := arr.buf;
    var next := b.Detach(len, memory);
    if next == null { return false; }
    if next == b { return true; }
    NewBuffer(H, arr, next);
    forall a | a in H && a != arr && H[a] != null ensures H[a].Valid() && Counted(H[arr := next], H[a]) {
      assert old(Counted(H, H[a]));
      Moved(H, arr, next, H[a]);
      Holds(H[arr := next], a, H[a]);
    }
    arr.buf := next;
    ok := true;
  }

  /** Other arrays do not hold a private buffer or its memory. */
  lemma PrivateApart(H: Holding, arr: Array)
    requires Owned(H) && arr in H && arr.buf != null && arr.buf.ref == 1
    ensures forall a :: a in H && a != arr && H[a] != null ==> H[a] != arr.buf && H[a].mem != arr.buf.mem
  {
    forall a | a in H && a != arr && H[a] != null ensures H[a] != arr.buf && H[a].mem != arr.buf.mem {
      assert Counted(H, H[arr]);
      if H[a] == arr.buf {
        Alone(H, arr, a, arr.buf);
      }
      assert Apart(H[a], H[arr]);
    }
  }

  /** Opens a gap in a private buffer with enough room. */
  method Open(arr: Array, pos: nat, len: nat, ghost H: Holding)
    requires Owned(H) && arr in H && arr.buf != null && arr.buf.ref == 1
    requires Extent(arr.buf.used, pos) + len <= arr.buf.mem.Length
    modifies arr.buf`used, arr.buf.mem
    ensures Owned(H) && Inserted(old(Content(arr.buf)), Content(arr.buf), pos, len)
    ensures forall a :: a in H && a != arr && H[a] != null ==> H[a].Valid() && Content(H[a]) == old(Content(H[a]))
  {
    hide Holders, Separate, Inserted;
    PrivateApart(H, arr);
    assert Counted(H, H[arr]);
    var ok := arr.buf.Insert(pos, len);
    forall a | a in H && H[a] != null ensures Counted(H, H[a]) {
      assert old(Counted(H, H[a]));
    }
  }

  /** Writes into a private buffer. */
  method Write(arr: Array, off: nat, bytes: seq<byte>, ghost H: Holding)
    requires Owned(H) && arr in H && arr.buf != null && arr.buf.ref == 1 && off + |bytes| <= arr.buf.used
    modifies arr.buf.mem
    ensures Owned(H)
    ensures Content(arr.buf) == old(Content(arr.buf))[..off] + bytes + old(Content(arr.buf))[off + |bytes|..]
    ensures forall a :: a in H && a != arr && H[a] != null ==> H[a].Valid() && Content(H[a]) == old(Content(H[a]))
  {
    hide Holders, Separate;
    PrivateApart(H, arr);
    assert Counted(H, H[arr]);
    var mem := arr.buf.mem;
    forall i | 0 <= i < |bytes| { mem[off + i] := bytes[i]; }
    assert Content(arr.buf) == old(Content(arr.buf))[..off] + bytes + old(Content(arr.buf))[off + |bytes|..];
  }

  /** A new buffer for an array without one. */
  method Fill(arr: Array, zeros: nat, total: nat, ghost H: Holding)
    requires Owned(H) && arr in H && arr.buf == null && zeros <= total
    modifies arr
    ensures arr.buf != null && fresh(arr.buf) && fresh(arr.buf.mem) && Owned(H[arr := arr.buf]) && arr.buf.ref == 1
    ensures |Content(arr.buf)| == total && Content(arr.buf)[..zeros] == Zeros(zeros)
    ensures forall a :: a in H && a != arr && H[a] != null ==> H[a].Valid() && Content(H[a]) == old(Content(H[a]))
  {
    hide Holders, Separate;
    var b := new Buffer(total);
    forall i | 0 <= i < zeros { b.mem[i] := 0; }
    b.used := total;
    NewBuffer(H, arr, b);
    forall a | a in H && a != arr && H[a] != null ensures H[a].Valid() && Counted(H[arr := b], H[a]) {
      assert old(Counted(H, H[a]));
      Moved(H, arr, b, H[a]);
    }
    arr.buf := b;
  }

  /** Opens a gap in the data of one array. */
  method Insert(arr: Array, pos: nat, len: nat, memory: bool, ghost H: Holding) returns (ok: bool)
    requires Owned(H) && arr in H && pos <= LONG_MAX
    modifies arr, arr.buf, if arr.buf == null then {} else {arr.buf.mem}
    ensures Owned(H[arr := arr.buf]) && (ok || !memory || pos + len > LONG_MAX)
    ensures !ok ==> arr.buf == old(arr.buf) && Content(arr.buf) == old(Content(arr.buf))
    ensures ok ==> arr.buf != null && arr.buf.ref == 1 && Inserted(old(Content(arr.buf)), Content(arr.buf), pos, len)
    ensures arr.buf == old(arr.buf) || (fresh(arr.buf) && fresh(arr.buf.mem))
    ensures forall a :: a in H && a != arr && H[a] != null ==> H[a].Valid() && Content(H[a]) == old(Content(H[a]))
  {
    hide Holders, Separate;
    assert H[arr := arr.buf] == H;
    if len > LONG_MAX - pos { return false; }
    if arr.buf == null {
      if !memory { return false; }
      Fill(arr, pos, pos + len, H);
      return true;
    }
    assert Counted(H, H[arr]);
    var used := Extent(arr.buf.used, pos);
    if used + len <= arr.buf.mem.Length && arr.buf.ref <= 1 {
      Open(arr, pos, len, H);
      return true;
    }
    ok := Private(arr, used + len, memory, H);
    if ok {
      Open(arr, pos, len, H[arr := arr.buf]);
    }
  }

  /** Access to `len` bytes at `off` of a private buffer; missing data are zeros. */
  method Slice(arr: Array, off: nat, len: nat, memory: bool, ghost H: Holding) returns (ok: bool)
    requires Owned(H) && arr in H && off <= SIZE_MAX
    modifies arr, arr.buf, if arr.buf == null then {} else {arr.buf.mem}
    ensures Owned(H[arr := arr.buf]) && (ok || !memory || off + len > SIZE_MAX)
    ensures !ok ==> arr.buf == old(arr.buf) && Content(arr.buf) == old(Content(arr.buf))
    ensures ok ==> arr.buf != null && arr.buf.ref == 1 && Content(arr.buf) == Padded(old(Content(arr.buf)), off + len)
    ensures arr.buf == old(arr.buf) || (fresh(arr.buf) && fresh(arr.buf.mem))
    ensures forall a :: a in H && a != arr && H[a] != null ==> H[a].Valid() && Content(H[a]) == old(Content(H[a]))
  {
    hide Holders, Separate;
    assert H[arr := arr.buf] == H;
    if len > SIZE_MAX - off { return false; }
    var total := off + len;
    if arr.buf == null {
      if !memory { return false; }
      Fill(arr, total, total, H);
      return true;
    }
    assert Counted(H, H[arr]);
    var used := arr.buf.used;
    var size := if total < used then used else total;
    if total > arr.buf.mem.Length || arr.buf.ref > 1 {
      ok := Private(arr, size, memory, H);
      if !ok { return; }
    }
    if total > used {
      Extend(arr, used, total - used, H[arr := arr.buf]);
    }
    return true;
  }

  /** Zeros behind the data of a private buffer. */
  method Extend(arr: Array, used: nat, missing: nat, ghost H: Holding)
    requires Owned(H) && arr in H && arr.buf != null && arr.buf.ref == 1 && used == arr.buf.used
    requires used + missing <= arr.buf.mem.Length
    modifies arr.buf`used, arr.buf.mem
    ensures Owned(H) && Content(arr.buf) == Padded(old(Content(arr.buf)), used + missing)
    ensures forall a :: a in H && a != arr && H[a] != null ==> H[a].Valid() && Content(H[a]) == old(Content(H[a]))
  {
    hide Holders, Separate;
    assert Counted(H, H[arr]);
    Open(arr, used, missing, H);
    assert Counted(H, H[arr]);
    Write(arr, used, Zeros(missing), H);
  }

  /** Takes the buffer of another array, or none, and lets go of the old one. */
  method Clone(arr: Array, from: Array?, ghost H: Holding) returns (r: int)
    requires Owned(H) && arr in H && (from != null ==> from in H && (from.buf != null || from.buf == arr.buf))
    modifies arr, arr.buf, if from == null then null else from.buf
    ensures Owned(H[arr := arr.buf])
    ensures r < 0 ==> r == BAD_OPERATION && arr.buf == old(arr.buf) && |H| >= REF_MAX
    ensures r >= 0 ==> arr.buf == if from == null then null else old(from.buf)
    ensures r >= 0 && arr.buf != old(arr.buf) ==>
              r == (if arr.buf != null then 1 else 0) + if old(arr.buf) != null then 2 else 0
    ensures forall a :: a in H && (a != arr || arr.buf == old(arr.buf)) && H[a] != null ==>
              H[a].Valid() && Content(H[a]) == old(Content(H[a]))
  {
    hide Holders, Separate;
    assert H[arr := arr.buf] == H;
    var next: Buffer? := null;
    if from != null {
      next := from.buf;
      if next == arr.buf { return 0; }
      assert Counted(H, H[from]);
      FewHolders(H, next);
      var n := next.AddRef();
      if n == 0 { return BAD_OPERATION; }
    }
    r := Rebind(arr, next, H);
  }

  /** The count of a buffer that has one reference more for an array to come. */
  ghost predicate Expected(H: Holding, b: Buffer, next: Buffer?)
    reads b
  {
    b.Valid() && b.ref == |Holders(H, b)| + if b == next then 1 else 0
  }

  /** The second half: the array takes the buffer, and the old one loses a reference. */
  method Rebind(arr: Array, next: Buffer?, ghost H: Holding) returns (r: int)
    requires Separate(H) && arr in H && (next == null || exists a :: a in H && H[a] == next)
    requires forall a :: a in H ==> a.buf == H[a] && (H[a] != null ==> H[a].Valid() && Expected(H, H[a], next))
    requires next == arr.buf ==> next == null
    modifies arr, arr.buf
    ensures arr.buf == next && Owned(H[arr := next])
    ensures next != old(arr.buf) ==> r == (if next != null then 1 else 0) + if old(arr.buf) != null then 2 else 0
    ensures r >= 0
    ensures forall a :: a in H && (a != arr || next == old(arr.buf)) && H[a] != null ==>
              H[a].Valid() && Content(H[a]) == old(Content(H[a]))
  {
    hide Holders, Separate;
    var buf := arr.buf;
    arr.buf := next;
    r := if next != null then 1 else 0;
    if buf != null {
      assert old(Expected(H, buf, next));
      buf.Unref();
      r := if next != null then 3 else 2;
    }
    SeparateMove(H, arr, next);
    ghost var H' := H[arr := next];
    forall a | a in H' && H'[a] != null ensures Counted(H', H'[a]) {
      Moved(H, arr, next, H'[a]);
      if a != arr {
        assert old(Expected(H, H[a], next));
        Holds(H', a, H[a]);
      }
    }
  }

  lemma FewHolders(H: Holding, b: Buffer)
    ensures |Holders(H, b)| <= |H|
  {
    Subset(Holders(H, b), H.Keys);
  }

  lemma {:induction false} Subset(X: set<Array>, Y: set<Array>)
    requires X <= Y
    ensures |X| <= |Y|
  {
    if X != {} {
      var x :| x in X;
      Subset(X - {x}, Y - {x});
    }
  }

  /** Taking over a buffer keeps memory separate. */
  lemma SeparateMove(H: Holding, arr: Array, next: Buffer?)
    requires Separate(H) && arr in H && (next == null || exists a :: a in H && H[a] == next)
    ensures Separate(H[arr := next])
  {
    var H' := H[arr := next];
    forall a, c | a in H' && c in H' && H'[a] != H'[c] ensures Apart(H'[a], H'[c]) {
      if next != null {
        var f :| f in H && H[f] == next;
        assert a == arr && c != arr ==> Apart(H[f], H[c]);
        assert c == arr && a != arr ==> Apart(H[a], H[f]);
      }
    }
  }
}

/** Runs on arrays that share buffers behave like runs on separate sequences. */
module ArrayRun {
  import opened Bytes
  import opened RefCounts
  import opened Buffers
  import opened Arrays

  /** An array takes the data of another one, drops its data, or has bytes overwritten or inserted,
      with or without memory for a new buffer. */
  datatype Op =
    | Copy(to: nat, from: nat)
    | Drop(at: nat)
    | Over(at: nat, pos: nat, bytes: seq<byte>, memory: bool)
    | Put(at: nat, pos: nat, bytes: seq<byte>, memory: bool)

  /** Arguments that the operations accept, for `n` arrays. */
  predicate Accepted(op: Op, n: nat) {
    match op
    case Copy(to, from) => to < n && from < n
    case Drop(at) => at < n
    case Over(at, pos, bytes, _) => at < n && pos + |bytes| <= SIZE_MAX
    case Put(at, pos, bytes, _) => at < n && pos + |bytes| <= LONG_MAX
  }

  /** An operation fails only for its arguments or for lack of memory. */
  predicate Explained(op: Op, n: nat, ok: bool) {
    (ok ==> Accepted(op, n)) && (!ok && Accepted(op, n) ==> (op.Over? || op.Put?) && !op.memory)
  }

  /** The same on a sequence for each array; a failed operation changes nothing. */
  function Model(m: seq<seq<byte>>, op: Op, ok: bool): seq<seq<byte>> {
    if !ok || !Accepted(op, |m|) then m else
    match op
    case Copy(to, from) => m[to := m[from]]
    case Drop(at) => m[at := []]
    case Over(at, pos, bytes, _) =>
      var p := Padded(m[at], pos + |bytes|);
      m[at := p[..pos] + bytes + p[pos + |bytes|..]]
    case Put(at, pos, bytes, _) =>
      var p := Padded(m[at], pos);
      m[at := p[..pos] + bytes + p[pos..]]
  }

  function Models(m: seq<seq<byte>>, ops: seq<Op>, oks: seq<bool>): seq<seq<byte>>
    requires |ops| == |oks|
  {
    if ops == [] then m
    else var k := |ops| - 1; Model(Models(m, ops[..k], oks[..k]), ops[k], oks[k])
  }

  ghost function Space(H: Holding): set<object> {
    (set a | a in H :: a as object) + (set a | a in H && H[a] != null :: H[a] as object) +
    set a | a in H && H[a] != null :: H[a].mem as object
  }

  ghost predicate Listed(arrays: seq<Array>, H: Holding) {
    (forall i :: 0 <= i < |arrays| ==> arrays[i] in H) && forall i, j :: 0 <= i < j < |arrays| ==> arrays[i] != arrays[j]
  }

  /** The arrays hold the sequences. */
  ghost predicate World(arrays: seq<Array>, H: Holding, m: seq<seq<byte>>)
    reads H.Keys, Space(H)
  {
    Listed(arrays, H) && |arrays| == |m| && Owned(H) &&
    forall i :: 0 <= i < |m| ==> Has(H, arrays[i], m[i])
  }

  ghost predicate Has(H: Holding, a: Array, s: seq<byte>)
    reads Space(H)
  {
    a in H && (H[a] != null ==> H[a].Valid()) && Content(H[a]) == s
  }

  lemma SpaceOf(H: Holding, a: Array)
    requires a in H
    ensures a in Space(H) && (H[a] != null ==> H[a] in Space(H) && H[a].mem in Space(H))
  {}

  lemma SpaceMove(H: Holding, a: Array, b: Buffer?)
    requires a in H
    ensures forall o :: o in Space(H[a := b]) ==> o in Space(H) || (b != null && (o == b || o == b.mem))
  {}

  /** Inserts bytes into one array. */
  method DoPut(arrays: seq<Array>, at: nat, pos: nat, bytes: seq<byte>, memory: bool, ghost H: Holding, ghost m: seq<seq<byte>>)
      returns (ok: bool, ghost H': Holding)
    requires World(arrays, H, m) && at < |arrays| && pos + |bytes| <= LONG_MAX
    modifies Space(H)
    ensures World(arrays, H', Model(m, Put(at, pos, bytes, memory), ok)) && H'.Keys == H.Keys && (ok || !memory)
    ensures forall o :: o in Space(H') ==> o in Space(H) || fresh(o)
  {
    hide Space, Owned, Padded;
    var arr := arrays[at];
    OwnedAt(H, arr);
    SpaceOf(H, arr);
    assert Has(H, arr, m[at]);
    ok := Insert(arr, pos, |bytes|, memory, H);
    H' := H[arr := arr.buf];
    OwnedAt(H', arr);
    if ok {
      GapUsed(m[at], Content(arr.buf), pos, |bytes|);
      Write(arr, pos, bytes, H');
    }
    SpaceMove(H, arr, arr.buf);
    OwnedAt(H', arr);
    assert ok ==> Content(arr.buf) == Padded(m[at], pos)[..pos] + bytes + Padded(m[at], pos)[pos..];
    forall j | 0 <= j < |m| && j != at ensures Has(H', arrays[j], m[j]) {
      assert old(Has(H, arrays[j], m[j]));
    }
  }

  lemma OwnedAt(H: Holding, a: Array)
    requires Owned(H) && a in H
    ensures a.buf == H[a] && (H[a] != null ==> H[a].Valid())
  {
    assert H[a] != null ==> Counted(H, H[a]);
  }

  lemma GapUsed(s: seq<byte>, t: seq<byte>, pos: nat, len: nat)
    requires Inserted(s, t, pos, len)
    ensures pos <= |Padded(s, pos)| && pos + len <= |t|
  {}

  /** Overwrites bytes of one array, behind zeros if need be. */
  method DoOver(arrays: seq<Array>, at: nat, pos: nat, bytes: seq<byte>, memory: bool, ghost H: Holding, ghost m: seq<seq<byte>>)
      returns (ok: bool, ghost H': Holding)
    requires World(arrays, H, m) && at < |arrays| && pos + |bytes| <= SIZE_MAX
    modifies Space(H)
    ensures World(arrays, H', Model(m, Over(at, pos, bytes, memory), ok)) && H'.Keys == H.Keys && (ok || !memory)
    ensures forall o :: o in Space(H') ==> o in Space(H) || fresh(o)
  {
    hide Space, Owned, Padded;
    var arr := arrays[at];
    OwnedAt(H, arr);
    SpaceOf(H, arr);
    assert Has(H, arr, m[at]);
    PaddedLong(m[at], pos + |bytes|);
    ok := Slice(arr, pos, |bytes|, memory, H);
    H' := H[arr := arr.buf];
    OwnedAt(H', arr);
    if ok {
      Write(arr, pos, bytes, H');
    }
    SpaceMove(H, arr, arr.buf);
    OwnedAt(H', arr);
    forall j | 0 <= j < |m| && j != at ensures Has(H', arrays[j], m[j]) {
      assert old(Has(H, arrays[j], m[j]));
    }
  }

  lemma PaddedLong(s: seq<byte>, n: nat)
    ensures |Padded(s, n)| >= n
  {}

  /** One array takes the buffer of another, or none. */
  method DoCopy(arrays: seq<Array>, to: nat, from: Array?, ghost i: nat, ghost H: Holding, ghost m: seq<seq<byte>>)
      returns (ghost H': Holding)
    requires World(arrays, H, m) && to < |arrays| && |H| < REF_MAX
    requires from != null ==> i < |arrays| && from == arrays[i] && from.buf != null
    modifies Space(H)
    ensures World(arrays, H', m[to := if from == null then [] else m[i]]) && H'.Keys == H.Keys
    ensures forall o :: o in Space(H') ==> o in Space(H) || fresh(o)
  {
    hide Space, Owned;
    var arr := arrays[to];
    OwnedAt(H, arr);
    SpaceOf(H, arr);
    if from != null {
      OwnedAt(H, from);
      SpaceOf(H, from);
      assert Has(H, from, m[i]);
    }
    var r := Clone(arr, from, H);
    H' := H[arr := arr.buf];
    OwnedAt(H', arr);
    SpaceMove(H, arr, arr.buf);
    if from != null {
      assert old(from.buf) == H[from] == arr.buf;
      Shares(H, arr, from);
    }
    forall j | 0 <= j < |m| && j != to ensures Has(H', arrays[j], m[j]) {
      assert old(Has(H, arrays[j], m[j]));
    }
  }

  lemma Shares(H: Holding, a: Array, f: Array)
    requires a in H && f in H
    ensures forall o :: o in Space(H[a := H[f]]) ==> o in Space(H)
  {}

  /** One operation on arrays that may share buffers. */
  method Do(arrays: seq<Array>, op: Op, ghost H: Holding, ghost m: seq<seq<byte>>) returns (ok: bool, ghost H': Holding)
    requires World(arrays, H, m) && |H| < REF_MAX
    modifies Space(H)
    ensures World(arrays, H', Model(m, op, ok)) && H'.Keys == H.Keys && Explained(op, |arrays|, ok)
    ensures forall o :: o in Space(H') ==> o in Space(H) || fresh(o)
  {
    hide Space, Owned, Listed, Padded;
    ok, H' := Accepted(op, |arrays|), H;
    if !ok { return; }
    match op {
      case Copy(to, from) =>
        assert Has(H, arrays[from], m[from]);
        ListedAt(arrays, H, from);
        if arrays[from].buf == null {
          H' := DoCopy(arrays, to, null, 0, H, m);
        } else {
          H' := DoCopy(arrays, to, arrays[from], from, H, m);
        }
      case Drop(at) =>
        H' := DoCopy(arrays, at, null, 0, H, m);
      case Over(at, pos, bytes, memory) =>
        ok, H' := DoOver(arrays, at, pos, bytes, memory, H, m);
      case Put(at, pos, bytes, memory) =>
        ok, H' := DoPut(arrays, at, pos, bytes, memory, H, m);
    }
  }

  lemma ListedAt(arrays: seq<Array>, H: Holding, i: nat)
    requires Listed(arrays, H) && Owned(H) && i < |arrays|
    ensures arrays[i] in H && arrays[i].buf == H[arrays[i]]
  {
    OwnedAt(H, arrays[i]);
  }

  /** Copy on write is not visible: after any run each array holds what its own sequence would, and
      operations fail only for their arguments or for lack of memory. */
  method Play(n: nat, ops: seq<Op>) returns (oks: seq<bool>, contents: seq<seq<byte>>)
    requires n < REF_MAX
    ensures |oks| == |ops| && forall i :: 0 <= i < |ops| ==> Explained(ops[i], n, oks[i])
    ensures contents == Models(seq(n, _ => []), ops, oks)
  {
    hide Owned, Space, World, Model, Explained;
    var arrays; ghost var H;
    arrays, H := Create(n);
    ghost var m: seq<seq<byte>> := seq(n, _ => []);
    WorldSize(arrays, H, m);
    oks := [];
    for i := 0 to |ops|
      invariant World(arrays, H, m) && |arrays| == n && |H| == n && |oks| == i && m == Models(seq(n, _ => []), ops[..i], oks)
      invariant forall j :: 0 <= j < i ==> Explained(ops[j], n, oks[j])
      invariant forall o :: o in Space(H) ==> fresh(o)
    {
      ghost var keys := H.Keys;
      var ok;
      ok, H := Do(arrays, ops[i], H, m);
      assert |H.Keys| == |keys|;
      m := Model(m, ops[i], ok);
      assert ops[..i + 1][..i] == ops[..i] && (oks + [ok])[..i] == oks;
      oks := oks + [ok];
    }
    assert ops[..|ops|] == ops;
    contents := ReadAll(arrays, H, m);
  }

  lemma WorldSize(arrays: seq<Array>, H: Holding, m: seq<seq<byte>>)
    requires World(arrays, H, m)
    ensures |arrays| == |m|
  {}

  method Create(n: nat) returns (arrays: seq<Array>, ghost H: Holding)
    ensures World(arrays, H, seq(n, _ => [])) && |H| == n && forall o :: o in Space(H) ==> fresh(o)
  {
    arrays, H := [], map[];
    for i := 0 to n
      invariant |arrays| == i == |H| && Listed(arrays, H)
      invariant forall a :: a in H ==> a in arrays && H[a] == null && fresh(a) && a.buf == null
    {
      var a := new Array();
      arrays, H := arrays + [a], H[a := null];
    }
  }

  method ReadAll(arrays: seq<Array>, ghost H: Holding, ghost m: seq<seq<byte>>) returns (contents: seq<seq<byte>>)
    requires World(arrays, H, m)
    ensures contents == m
  {
    hide Owned, Space;
    contents := [];
    for i := 0 to |arrays|
      invariant World(arrays, H, m) && contents == m[..i]
    {
      assert Has(H, arrays[i], m[i]);
      ListedAt(arrays, H, i);
      var b := arrays[i].buf;
      contents := contents + [if b == null then [] else b.mem[..b.used]];
    }
  }
}
