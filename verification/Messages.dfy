/** Messages: readers over a scatter list, which behave as if the parts were one piece. */
module Messages {
  import opened Bytes
  import opened Scatter

  function Min(a: int, b: int): int {
    if a <= b then a else b
  }

  /** Taking `n` bytes of the current part. */
  lemma AtWindow(parts: seq<array<byte>>, c: Cursor, p: nat, n: nat)
    requires At(parts, c, p) && 0 < n <= c.used
    ensures c.base != null && c.off + n <= c.base.Length
    ensures p + n <= |Flat(parts)| && Flat(parts)[p..p + n] == c.base[c.off..c.off + n]
    ensures At(parts, Advance(c, n), p + n)
  {
    var k := |parts| - |c.cont| - 1;
    FlatSplit(parts, k);
    assert p == Before(parts, k) + c.off;
  }

  /** `n` bytes from byte `p` on have been read into `data`. */
  ghost predicate Reading(parts: seq<array<byte>>, all: seq<byte>, p: nat, c: Cursor, n: nat, data: seq<byte>) {
    At(parts, c, p + n) && p + n <= |all| && data == all[p..p + n]
  }

  /** Takes `k` more bytes of the current part. */
  method TakePiece(ghost parts: seq<array<byte>>, ghost p: nat, c: Cursor, n: nat, data: seq<byte>, k: nat)
      returns (c': Cursor, n': nat, data': seq<byte>)
    requires Reading(parts, Flat(parts), p, c, n, data) && k <= c.used
    ensures Reading(parts, Flat(parts), p, c', n', data')
    ensures n' == n + k && c'.cont == c.cont && c'.used == c.used - k
  {
    if k == 0 { return c, n, data; }
    AtWindow(parts, c, p + n, k);
    data' := data + c.base[c.off..c.off + k];
    c', n' := Advance(c, k), n + k;
  }

  /** Entering the next non-empty part while reading. */
  lemma ReadingOn(parts: seq<array<byte>>, p: nat, c: Cursor, n: nat, data: seq<byte>)
    requires Reading(parts, Flat(parts), p, c, n, data) && c.used == 0
    ensures c.cont != [] ==> Reading(parts, Flat(parts), p, Enter(c), n, data)
    ensures c.cont == [] ==> p + n == |Flat(parts)|
  {
    if c.cont == [] {
      AtEnd(parts, c, p + n);
    } else {
      EnterAt(parts, c, p + n);
    }
  }

  /** The reading loop: whole parts while more is wanted than the current part has, then a piece. */
  method ReadLoop(ghost parts: seq<array<byte>>, c: Cursor, ghost p: nat, len: nat)
      returns (c': Cursor, n: nat, data: seq<byte>)
    requires Reading(parts, Flat(parts), p, c, 0, [])
    ensures Reading(parts, Flat(parts), p, c', n, data)
    ensures n == len || (n < len && p + n == |Flat(parts)| && c'.used == 0 && c'.cont == [])
  {
    hide Reading, Flat;
    c', n, data := c, 0, [];
    while len - n > c'.used
      invariant n <= len && Reading(parts, Flat(parts), p, c', n, data)
      decreases |c'.cont|
    {
      c', n, data := TakePiece(parts, p, c', n, data, c'.used);
      ReadingOn(parts, p, c', n, data);
      if c'.cont == [] { return; }
      c' := Enter(c');
    }
    c', n, data := TakePiece(parts, p, c', n, data, len - n);
  }

  /** Consumes up to `len` bytes and moves on to the next non-empty part. */
  method ReadFrom(ghost parts: seq<array<byte>>, c: Cursor, ghost p: nat, len: nat)
      returns (c': Cursor, n: nat, data: seq<byte>)
    requires At(parts, c, p)
    ensures p <= |Flat(parts)| && n == Min(len, |Flat(parts)| - p)
    ensures At(parts, c', p + n) && data == Flat(parts)[p..p + n]
    ensures c'.used == 0 ==> c'.cont == []
  {
    AtBound(parts, c, p);
    c', n, data := ReadLoop(parts, c, p, len);
    c' := NextPart(parts, c', p + n);
  }

  class Message {
    var at: Cursor
    ghost var parts: seq<array<byte>>
    ghost var p: nat

    /** The message is what its list holds from byte `p` on. */
    ghost predicate Valid()
      reads this
    {
      At(parts, at, p)
    }

    ghost function Rest(): seq<byte>
      reads this, parts
      requires Valid()
    {
      AtBound(parts, at, p);
      Flat(parts)[p..]
    }

    constructor (source: seq<array<byte>>)
      ensures Valid() && parts == source && p == 0 && at == Cursor(null, 0, 0, source)
    {
      at := Cursor(null, 0, 0, source);
      parts := source;
      p := 0;
    }

    /** Consumes up to `len` bytes and hands them out. */
    method Read(len: nat) returns (n: nat, data: seq<byte>)
      requires Valid()
      modifies this
      ensures Valid() && parts == old(parts)
      ensures n == Min(len, |old(Rest())|) && p == old(p) + n && Rest() == old(Rest())[n..]
      ensures data == old(Rest())[..n]
      ensures at.used == 0 ==> at.cont == []
    {
      var c;
      c, n, data := ReadFrom(parts, at, p, len);
      at, p := c, p + n;
    }
  }

  const SSIZE_MAX := 0x7fff_ffff_ffff_ffff

  ghost predicate NoneIn(s: seq<byte>, lo: int, hi: int, fcn: byte -> bool) {
    forall q :: 0 <= q < |s| && lo <= q < hi ==> !fcn(s[q])
  }

  ghost predicate IsFirst(s: seq<byte>, fcn: byte -> bool, r: int) {
    if r == -2 then NoneIn(s, 0, |s|, fcn) else 0 <= r < |s| && fcn(s[r]) && NoneIn(s, 0, r, fcn)
  }

  ghost predicate IsLast(s: seq<byte>, fcn: byte -> bool, r: int) {
    if r == -2 then NoneIn(s, 0, |s|, fcn) else 0 <= r < |s| && fcn(s[r]) && NoneIn(s, r + 1, |s|, fcn)
  }

  /** The bytes of part `i` inside the whole. */
  lemma PartBytes(parts: seq<array<byte>>, i: nat)
    requires i < |parts|
    ensures Before(parts, i) + parts[i].Length == Before(parts, i + 1) <= |Flat(parts)|
    ensures forall q :: Before(parts, i) <= q < Before(parts, i + 1) ==> Flat(parts)[q] == parts[i][q - Before(parts, i)]
  {
    FlatSplit(parts, i);
  }

  /** Adds the lengths of the first `i` parts, giving up when the sum exceeds the result type. */
  method Offset(parts: seq<array<byte>>, i: nat, start: nat) returns (r: int)
    requires i <= |parts|
    ensures r == if start + Before(parts, i) > SSIZE_MAX && i > 0 then -1 else start + Before(parts, i)
  {
    r := start;
    var n := 0;
    while n < i
      invariant n <= i && r == start + Before(parts, n) && (n > 0 ==> r <= SSIZE_MAX)
    {
      r := r + parts[n].Length;
      if r > SSIZE_MAX {
        BeforeGrows(parts, n + 1, i);
        return -1;
      }
      n := n + 1;
    }
  }

  lemma {:induction false} BeforeGrows(parts: seq<array<byte>>, k: nat, n: nat)
    requires k <= n <= |parts|
    ensures Before(parts, k) <= Before(parts, n)
  {
    if k < n {
      BeforeGrows(parts, k, n - 1);
    }
  }

  /** First byte accepted by `fcn`, searched part by part. */
  method MemFcn(parts: seq<array<byte>>, fcn: byte -> bool) returns (r: int)
    ensures r != -1 ==> IsFirst(Flat(parts), fcn, r)
    ensures r == -1 ==> |Flat(parts)| >= SSIZE_MAX
  {
    hide Flat;
    var i := 0;
    while i < |parts|
      invariant i <= |parts| && NoneIn(Flat(parts), 0, Before(parts, i), fcn)
    {
      PartBytes(parts, i);
      var pos := 0;
      while pos < parts[i].Length
        invariant pos <= parts[i].Length && NoneIn(Flat(parts), 0, Before(parts, i) + pos, fcn)
      {
        if fcn(parts[i][pos]) {
          r := Offset(parts, i, pos + 1);
          return if r < 0 then -1 else r - 1;
        }
        pos := pos + 1;
      }
      i := i + 1;
    }
    FlatEnd(parts);
    r := -2;
  }

  /** Last byte accepted by `fcn`. */
  method MemRFcn(parts: seq<array<byte>>, fcn: byte -> bool) returns (r: int)
    ensures r != -1 ==> IsLast(Flat(parts), fcn, r)
    ensures r == -1 ==> |Flat(parts)| >= SSIZE_MAX
  {
    hide Flat;
    FlatEnd(parts);
    var i: nat := |parts|;
    while i > 0
      invariant i <= |parts| && NoneIn(Flat(parts), Before(parts, i), |Flat(parts)|, fcn)
    {
      i := i - 1;
      PartBytes(parts, i);
      var pos: nat := parts[i].Length;
      while pos > 0
        invariant pos <= parts[i].Length && NoneIn(Flat(parts), Before(parts, i) + pos, |Flat(parts)|, fcn)
      {
        pos := pos - 1;
        if fcn(parts[i][pos]) {
          r := Offset(parts, i, pos);
          return;
        }
      }
    }
    r := -2;
  }

  /** First occurrence of a byte in one part, as the C library finds it. */
  method PartChr(part: array<byte>, tok: byte) returns (r: int)
    ensures r == -1 ==> forall k :: 0 <= k < part.Length ==> part[k] != tok
    ensures r != -1 ==> 0 <= r < part.Length && part[r] == tok && forall k :: 0 <= k < r ==> part[k] != tok
  {
    r := 0;
    while r < part.Length
      invariant 0 <= r <= part.Length && forall k :: 0 <= k < r ==> part[k] != tok
    {
      if part[r] == tok { return; }
      r := r + 1;
    }
    r := -1;
  }

  function Is(tok: byte): byte -> bool {
    b => b == tok
  }

  /** First occurrence of a byte. */
  method MemChr(parts: seq<array<byte>>, tok: byte) returns (r: int)
    ensures r != -1 ==> IsFirst(Flat(parts), Is(tok), r)
    ensures r == -1 ==> |Flat(parts)| >= SSIZE_MAX
  {
    hide Flat;
    var i := 0;
    while i < |parts|
      invariant i <= |parts| && NoneIn(Flat(parts), 0, Before(parts, i), Is(tok))
    {
      PartBytes(parts, i);
      var pos := PartChr(parts[i], tok);
      if pos >= 0 {
        r := Offset(parts, i, pos);
        return;
      }
      i := i + 1;
    }
    FlatEnd(parts);
    r := -2;
  }

  /** Last occurrence of a byte: the same search as for a function. */
  method MemRChr(parts: seq<array<byte>>, tok: byte) returns (r: int)
    ensures r != -1 ==> IsLast(Flat(parts), Is(tok), r)
    ensures r == -1 ==> |Flat(parts)| >= SSIZE_MAX
  {
    r := MemRFcn(parts, Is(tok));
  }

  /** Token scan of one run of bytes: `quote` is the open escape character or 0, `prev` the previous
      byte.  Without tokens the first visible byte is searched for. */
  datatype Tokens = Visible | AnyOf(toks: set<byte>)

  predicate Found(t: Tokens, space: byte -> bool, c: byte) {
    if t.Visible? then !space(c) else c in t.toks
  }

  function Finds(t: Tokens, space: byte -> bool): byte -> bool {
    (b: byte) => Found(t, space, b)
  }

  function Scan(s: seq<byte>, i: nat, quote: byte, prev: byte, t: Tokens, space: byte -> bool, esc: set<byte>): int
    requires i <= |s|
    decreases |s| - i
  {
    if i == |s| then -2
    else if quote != 0 then
      Scan(s, i + 1, if s[i] == quote && prev != 0x5c then 0 else quote, s[i], t, space, esc)
    else if s[i] in esc then Scan(s, i + 1, s[i], prev, t, space, esc)
    else if Found(t, space, s[i]) then i
    else Scan(s, i + 1, 0, s[i], t, space, esc)
  }

  /** The token scan carries its escape state across parts: it finds what it would find in one piece. */
  method MemTok(parts: seq<array<byte>>, t: Tokens, space: byte -> bool, esc: set<byte>) returns (r: int)
    requires 0 !in esc
    ensures r != -1 ==> r == Scan(Flat(parts), 0, 0, 0x20, t, space, esc)
    ensures r == -1 ==> |Flat(parts)| > SSIZE_MAX
  {
    hide Flat;
    var i, quote: byte, prev: byte := 0, 0, 0x20;
    assert Before(parts, 0) == 0;
    while i < |parts|
      invariant i <= |parts| && Before(parts, i) <= |Flat(parts)| && (esc == {} ==> quote == 0)
      invariant Scan(Flat(parts), 0, 0, 0x20, t, space, esc) == Scan(Flat(parts), Before(parts, i), quote, prev, t, space, esc)
    {
      PartBytes(parts, i);
      var pos := 0;
      while pos < parts[i].Length
        invariant pos <= parts[i].Length && (esc == {} ==> quote == 0)
        invariant Scan(Flat(parts), 0, 0, 0x20, t, space, esc) ==
                  Scan(Flat(parts), Before(parts, i) + pos, quote, prev, t, space, esc)
      {
        var c := parts[i][pos];
        if esc != {} && quote != 0 {
          if c == quote && prev != 0x5c { quote := 0; }
          prev := c;
        } else if esc != {} && c in esc {
          quote := c;
        } else if Found(t, space, c) {
          r := Offset(parts, i, pos);
          return;
        } else {
          prev := c;
        }
        pos := pos + 1;
      }
      i := i + 1;
    }
    FlatEnd(parts);
    r := -2;
  }

  /** Total length of a message. */
  method Length(ghost parts: seq<array<byte>>, c: Cursor, ghost p: nat) returns (len: nat)
    requires At(parts, c, p)
    ensures p + len == |Flat(parts)|
  {
    len := c.used;
    var left := 0;
    ghost var k := |parts| - |c.cont|;
    while left < |c.cont|
      invariant left <= |c.cont| && p + len == Before(parts, k + left)
    {
      len := len + c.cont[left].Length;
      left := left + 1;
    }
    FlatEnd(parts);
  }

  /** Without escape characters the scan is a plain search. */
  lemma {:induction false} ScanPlain(s: seq<byte>, i: nat, prev: byte, t: Tokens, space: byte -> bool)
    requires i <= |s|
    ensures var r := Scan(s, i, 0, prev, t, space, {});
            if r == -2 then NoneIn(s, i, |s|, Finds(t, space))
            else i <= r < |s| && Found(t, space, s[r]) && NoneIn(s, i, r, Finds(t, space))
    decreases |s| - i
  {
    if i < |s| && !Found(t, space, s[i]) {
      ScanPlain(s, i + 1, s[i], t, space);
    }
  }

  /** Byte `q` does not close the escape: it is another byte, or a backslash precedes it. */
  ghost predicate Inside(s: seq<byte>, i: nat, prev: byte, quote: byte, q: nat)
    requires i <= q < |s|
  {
    s[q] != quote || (if q == i then prev else s[q - 1]) == 0x5c
  }

  /** A scan that starts inside an escape never stops before the escape is closed. */
  lemma {:induction false} ScanQuoted(s: seq<byte>, i: nat, quote: byte, prev: byte, t: Tokens, space: byte -> bool, esc: set<byte>, k: nat)
    requires i <= k <= |s| && quote != 0
    requires forall q :: i <= q < k ==> Inside(s, i, prev, quote, q)
    ensures var r := Scan(s, i, quote, prev, t, space, esc); r == -2 || r >= k
    decreases k - i
  {
    if i < k {
      assert Inside(s, i, prev, quote, i);
      var j, last := i + 1, s[i];
      forall q | j <= q < k ensures Inside(s, j, last, quote, q) {
        assert Inside(s, i, prev, quote, q);
      }
      ScanQuoted(s, i + 1, quote, s[i], t, space, esc, k);
    } else {
      ScanStays(s, i, quote, prev, t, space, esc);
    }
  }

  /** Behind the byte that closes an escape the scan goes on as from outside. */
  lemma {:induction false} ScanCloses(s: seq<byte>, i: nat, quote: byte, prev: byte, t: Tokens, space: byte -> bool,
                                      esc: set<byte>, k: nat)
    requires i <= k < |s| && quote != 0
    requires forall q :: i <= q < k ==> Inside(s, i, prev, quote, q)
    requires s[k] == quote && (if k == i then prev else s[k - 1]) != 0x5c
    ensures Scan(s, i, quote, prev, t, space, esc) == Scan(s, k + 1, 0, quote, t, space, esc)
    decreases k - i
  {
    if i < k {
      assert Inside(s, i, prev, quote, i);
      var j, last := i + 1, s[i];
      forall q | j <= q < k ensures Inside(s, j, last, quote, q) {
        assert Inside(s, i, prev, quote, q);
      }
      ScanCloses(s, j, quote, last, t, space, esc, k);
    }
  }

  /** Outside escapes the first byte that opens one or is searched for decides. */
  lemma {:induction false} ScanDecides(s: seq<byte>, i: nat, prev: byte, t: Tokens, space: byte -> bool, esc: set<byte>, k: nat)
    requires i <= k <= |s| && forall q :: i <= q < k ==> s[q] !in esc && !Found(t, space, s[q])
    ensures k == |s| ==> Scan(s, i, 0, prev, t, space, esc) == -2
    ensures k < |s| && s[k] !in esc && Found(t, space, s[k]) ==> Scan(s, i, 0, prev, t, space, esc) == k
    ensures k < |s| && s[k] in esc ==>
              Scan(s, i, 0, prev, t, space, esc) ==
              Scan(s, k + 1, s[k], if k == i then prev else s[k - 1], t, space, esc)
    decreases k - i
  {
    if i < k {
      ScanDecides(s, i + 1, s[i], t, space, esc, k);
    }
  }

  /** A closed escape is skipped: it opens at `a`, is closed at `b`, and hides what is between. */
  lemma ScanSkips(s: seq<byte>, i: nat, prev: byte, t: Tokens, space: byte -> bool, esc: set<byte>, a: nat, b: nat)
    requires i <= a < b < |s| && s[a] in esc && s[b] == s[a] != 0
    requires forall q :: i <= q < a ==> s[q] !in esc && !Found(t, space, s[q])
    requires forall q :: a < q < b ==> s[q] != s[a]
    requires (if b == a + 1 then (if a == i then prev else s[a - 1]) else s[b - 1]) != 0x5c
    ensures Scan(s, i, 0, prev, t, space, esc) == Scan(s, b + 1, 0, s[a], t, space, esc)
  {
    hide Scan;
    var before := if a == i then prev else s[a - 1];
    ScanDecides(s, i, prev, t, space, esc, a);
    ScanCloses(s, a + 1, s[a], before, t, space, esc, b);
  }

  lemma {:induction false} ScanStays(s: seq<byte>, i: nat, quote: byte, prev: byte, t: Tokens, space: byte -> bool, esc: set<byte>)
    requires i <= |s|
    ensures var r := Scan(s, i, quote, prev, t, space, esc); r == -2 || i <= r < |s|
    decreases |s| - i
  {
    if i < |s| {
      if quote != 0 {
        ScanStays(s, i + 1, if s[i] == quote && prev != 0x5c then 0 else quote, s[i], t, space, esc);
      } else if s[i] in esc {
        ScanStays(s, i + 1, s[i], prev, t, space, esc);
      } else if !Found(t, space, s[i]) {
        ScanStays(s, i + 1, 0, s[i], t, space, esc);
      }
    }
  }

  /** Writes a run of bytes at the cursor. */
  method PutRun(ghost parts: seq<array<byte>>, c: Cursor, ghost p: nat, data: seq<byte>) returns (c': Cursor)
    requires Distinct(parts) && At(parts, c, p) && p + |data| <= |Flat(parts)|
    modifies parts
    ensures At(parts, c', p + |data|)
    ensures Flat(parts) == old(Flat(parts)[..p]) + data + old(Flat(parts)[p + |data|..])
  {
    hide At, Flat;
    c' := c;
    ghost var all := Flat(parts);
    for i := 0 to |data|
      invariant At(parts, c', p + i) && Flat(parts) == all[..p] + data[..i] + all[p + i..]
    {
      c' := PutByte(parts, c', p + i, data[i]);
    }
  }

  lemma Copied(all: seq<byte>, was: seq<byte>, r: nat, n: nat)
    requires r + n <= |all| && r + n <= |was|
    ensures var t := all[..r] + was[r..];
            t[..r] + all[r..r + n] + t[r + n..] == all[..r + n] + was[r + n..]
  {}

  /** The copy loop: `len` bytes, or for a negative `len` until one side is exhausted. */
  method CopyParts(len: int, src: seq<array<byte>>, dest: seq<array<byte>>) returns (r: nat)
    requires Distinct(dest) && forall i, j :: 0 <= i < |src| && 0 <= j < |dest| ==> src[i] != dest[j]
    modifies dest
    ensures Flat(src) == old(Flat(src))
    ensures r <= |Flat(src)| && r <= |old(Flat(dest))| && Flat(dest) == Flat(src)[..r] + old(Flat(dest))[r..]
    ensures (len >= 0 && r == len) || ((len < 0 || r < len) && (r == |Flat(src)| || r == |old(Flat(dest))|))
  {
    hide At, Flat;
    ghost var all, was := Flat(src), Flat(dest);
    FirstCursor(src);
    FirstCursor(dest);
    var from, to := Cursor(null, 0, 0, src), Cursor(null, 0, 0, dest);
    r := 0;
    while r != len
      invariant r <= |all| && r <= |was| && (len >= 0 ==> r <= len)
      invariant At(src, from, r) && At(dest, to, r)
      invariant Flat(dest) == all[..r] + was[r..] && Flat(src) == all
      decreases |all| - r, |from.cont|, |to.cont|
    {
      if from.used == 0 {
        if from.cont == [] {
          AtEnd(src, from, r);
          return;
        }
        EnterAt(src, from, r);
        from := Enter(from);
      } else if to.used == 0 {
        if to.cont == [] {
          AtEnd(dest, to, r);
          return;
        }
        EnterAt(dest, to, r);
        to := Enter(to);
      } else {
        var n := if from.used < to.used then from.used else to.used;
        if 0 <= len && len - r < n { n := len - r; }
        AtWindow(src, from, r, n);
        AtWindow(dest, to, r, n);
        to := PutRun(dest, to, r, from.base[from.off..from.off + n]);
        Copied(all, was, r, n);
        from := Advance(from, n);
        r := r + n;
      }
    }
  }

  /** Copies between scatter lists, checking a positive length against both sides first. */
  method MemCpy(len: int, src: seq<array<byte>>, dest: seq<array<byte>>) returns (r: int)
    requires Distinct(dest) && forall i, j :: 0 <= i < |src| && 0 <= j < |dest| ==> src[i] != dest[j]
    modifies dest
    ensures Flat(src) == old(Flat(src))
    ensures var s, d := old(Flat(src)), old(Flat(dest));
            if src == [] || dest == [] then r == 0 && Flat(dest) == d
            else if len > |s| then r == -1 && Flat(dest) == d
            else if len > |d| then r == -2 && Flat(dest) == d
            else
              r == (if len >= 0 then len else Min(|s|, |d|)) &&
              Flat(dest) == s[..r] + d[r..]
  {
    hide At, Flat;
    if src == [] || dest == [] { return 0; }
    if len > 0 {
      FirstCursor(src);
      var n := Length(src, Cursor(null, 0, 0, src), 0);
      if len > n { return -1; }
      FirstCursor(dest);
      n := Length(dest, Cursor(null, 0, 0, dest), 0);
      if len > n { return -2; }
    }
    r := CopyParts(len, src, dest);
  }

  lemma FirstCursor(parts: seq<array<byte>>)
    ensures At(parts, Cursor(null, 0, 0, parts), 0)
  {}
}
