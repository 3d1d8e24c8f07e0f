/** NUL-separated argument lists: a message turned into an array of arguments, and the slice that
    steps through them. */
module Arguments {
  import opened Bytes
  import opened Scatter
  import opened Messages

  const MISSING_DATA := -0x10

  /** Length of the first argument: up to the first NUL, or everything. */
  function ArgLen(s: seq<byte>): (n: nat)
    ensures n <= |s| && (n < |s| ==> s[n] == 0)
  {
    if s == [] || s[0] == 0 then 0 else 1 + ArgLen(s[1..])
  }

  lemma {:induction false} ArgLenFirst(s: seq<byte>, n: nat)
    requires n <= |s| && NoZero(s[..n]) && (n < |s| ==> s[n] == 0)
    ensures ArgLen(s) == n
  {
    if n > 0 {
      assert s[0] == s[..n][0];
      assert s[1..][..n - 1] == s[..n][1..];
      ArgLenFirst(s[1..], n - 1);
    }
  }

  lemma {:induction false} ArgNoZero(s: seq<byte>)
    ensures NoZero(s[..ArgLen(s)])
  {
    if s != [] && s[0] != 0 {
      ArgNoZero(s[1..]);
      var n := ArgLen(s);
      forall i | 0 <= i < n ensures s[..n][i] != 0 {
        assert i > 0 ==> s[i] == s[1..][..n - 1][i - 1];
      }
    }
  }

  /** The array form: the message with a final NUL ensured. */
  function Closed(m: seq<byte>): seq<byte> {
    if m == [] || m[|m| - 1] == 0 then m else m + [0]
  }

  /** Nothing is lost, and at most one NUL added, which is needed. */
  lemma ClosedIs(m: seq<byte>)
    ensures m <= Closed(m) && |Closed(m)| <= |m| + 1
    ensures m != [] ==> Closed(m)[|Closed(m)| - 1] == 0
    ensures Closed(m) == m <==> m == [] || m[|m| - 1] == 0
  {}

  function Count(s: seq<byte>): nat {
    if s == [] then 0 else (if s[0] == 0 then 1 else 0) + Count(s[1..])
  }

  lemma {:induction false} CountApp(a: seq<byte>, b: seq<byte>)
    ensures Count(a + b) == Count(a) + Count(b)
  {
    if a == [] {
      assert a + b == b;
    } else {
      assert (a + b)[0] == a[0] && (a + b)[1..] == a[1..] + b;
      CountApp(a[1..], b);
    }
  }

  lemma {:induction false} CountNone(s: seq<byte>)
    requires NoZero(s)
    ensures Count(s) == 0
  {
    if s != [] {
      CountNone(s[1..]);
    }
  }

  /** What remains behind the first argument and its separator. */
  function Behind(s: seq<byte>): seq<byte> {
    if ArgLen(s) < |s| then s[ArgLen(s) + 1..] else []
  }

  lemma ClosedSplit(s: seq<byte>)
    requires s != []
    ensures Closed(s) == s[..ArgLen(s)] + [0] + Closed(Behind(s))
  {
    hide ArgLen;
    var n := ArgLen(s);
    if n == |s| {
      ArgNoZero(s);
      assert s[..n] == s;
    } else {
      assert s == s[..n] + [0] + Behind(s);
      assert Behind(s) != [] ==> s[|s| - 1] == Behind(s)[|Behind(s)| - 1];
    }
  }

  lemma CountArg(s: seq<byte>)
    ensures Count(s[..ArgLen(s)] + [0]) == 1
  {
    ArgNoZero(s);
    CountNone(s[..ArgLen(s)]);
    CountApp(s[..ArgLen(s)], [0]);
    assert Count([0]) == 1 + Count([]);
  }

  /** The array so far, completed by the rest of the message, is the array of the message. */
  ghost predicate Collected(all: seq<byte>, content: seq<byte>, narg: nat, rest: seq<byte>) {
    Closed(all) == content + Closed(rest) && narg == Count(content)
  }

  lemma CollectArg(all: seq<byte>, content: seq<byte>, narg: nat, rest: seq<byte>)
    requires Collected(all, content, narg, rest) && rest != []
    ensures Collected(all, content + rest[..ArgLen(rest)] + [0], narg + 1, Behind(rest))
  {
    hide ArgLen, Closed, Count, Behind;
    var arg := rest[..ArgLen(rest)] + [0];
    ClosedSplit(rest);
    CountArg(rest);
    CountApp(content, arg);
    assert content + rest[..ArgLen(rest)] + [0] == content + arg;
    assert content + (arg + Closed(Behind(rest))) == content + arg + Closed(Behind(rest));
  }

  lemma CollectEnds(all: seq<byte>, content: seq<byte>, narg: nat)
    ensures Collected(all, content, narg, []) ==> content == Closed(all) && narg == Count(content)
    ensures Collected(all, [], 0, all)
  {
    assert content + Closed([]) == content;
    assert [] + Closed(all) == Closed(all);
  }

  /** First NUL in a window of one part. */
  method WindowChr(base: array<byte>, off: nat, n: nat) returns (r: nat)
    requires off + n <= base.Length
    ensures r <= n && NoZero(base[off..off + r]) && (r < n ==> base[off + r] == 0)
  {
    r := 0;
    while r < n
      invariant r <= n && NoZero(base[off..off + r])
    {
      if base[off + r] == 0 { return; }
      r := r + 1;
    }
  }

  lemma ArgHead(head: seq<byte>, tail: seq<byte>, r: nat)
    requires r < |head| && NoZero(head[..r]) && head[r] == 0
    ensures ArgLen(head + tail) == r
  {
    assert (head + tail)[..r] == head[..r];
    ArgLenFirst(head + tail, r);
  }

  lemma ArgTail(head: seq<byte>, tail: seq<byte>, r: int)
    requires NoZero(head) && IsFirst(tail, Is(0), r)
    ensures ArgLen(head + tail) == |head| + if r == -2 then |tail| else r
  {
    var n := if r == -2 then |tail| else r;
    assert NoZero(tail[..n]) by {
      forall i | 0 <= i < n ensures tail[..n][i] != 0 {
        assert !Is(0)(tail[i]);
      }
    }
    assert (head + tail)[..|head| + n] == head + tail[..n];
    ArgLenFirst(head + tail, |head| + n);
  }

  /** The rest of the list: what is left of the current part, then the other parts. */
  lemma AtRest(parts: seq<array<byte>>, c: Cursor, p: nat)
    requires At(parts, c, p) && c.used > 0
    ensures c.base != null && c.off + c.used <= c.base.Length && p <= |Flat(parts)|
    ensures Flat(parts)[p..] == c.base[c.off..c.off + c.used] + Flat(c.cont)
  {
    AtWindow(parts, c, p, c.used);
    FlatRest(parts, |parts| - |c.cont|);
  }

  /** Length of the next argument at a cursor: the rest of the current part, then the other parts. */
  method NextArg(ghost parts: seq<array<byte>>, c: Cursor, ghost p: nat) returns (r: nat)
    requires At(parts, c, p) && c.used > 0 && |Flat(parts)| < SSIZE_MAX
    ensures p <= |Flat(parts)| && r == ArgLen(Flat(parts)[p..])
  {
    hide Flat, At, ArgLen, IsFirst;
    AtRest(parts, c, p);
    ghost var head := c.base[c.off..c.off + c.used];
    r := WindowChr(c.base, c.off, c.used);
    assert head[..r] == c.base[c.off..c.off + r];
    if r < c.used {
      ArgHead(head, Flat(c.cont), r);
      return;
    }
    var more := MemChr(c.cont, 0);
    var len := Length(parts, c, p);
    r := if more >= 0 then c.used + more else len;
    ArgTail(head, Flat(c.cont), more);
    FirstRange(Flat(c.cont), more);
  }

  lemma FirstRange(s: seq<byte>, r: int)
    requires IsFirst(s, Is(0), r)
    ensures r == -2 || r >= 0
  {}

  /** Length of the next argument, skipping empty parts; fails at the end of the message. */
  method Argv(msg: Message) returns (r: int)
    requires msg.Valid() && |Flat(msg.parts)| < SSIZE_MAX
    modifies msg
    ensures msg.Valid() && msg.parts == old(msg.parts) && msg.p == old(msg.p) && msg.Rest() == old(msg.Rest())
    ensures r == if msg.Rest() == [] then MISSING_DATA else ArgLen(msg.Rest())
  {
    var c := NextPart(msg.parts, msg.at, msg.p);
    msg.at := c;
    if c.used == 0 {
      AtEnd(msg.parts, c, msg.p);
      return MISSING_DATA;
    }
    AtByte(msg.parts, c, msg.p);
    r := NextArg(msg.parts, c, msg.p);
  }

  /** Reads the next argument and skips its separator. */
  method TakeArg(msg: Message) returns (ok: bool, data: seq<byte>)
    requires msg.Valid() && |Flat(msg.parts)| < SSIZE_MAX
    modifies msg
    ensures msg.Valid() && msg.parts == old(msg.parts) && (ok <==> old(msg.Rest()) != [])
    ensures ok ==> data == old(msg.Rest())[..ArgLen(old(msg.Rest()))] && msg.Rest() == Behind(old(msg.Rest()))
  {
    hide Flat, ArgLen;
    var len := Argv(msg);
    if len < 0 { return false, []; }
    var n, skip, sep;
    n, data := msg.Read(len);
    skip, sep := msg.Read(1);
    ok := true;
  }

  /** The argument array of a message and the number of its arguments. */
  method ArrayMessage(msg: Message) returns (narg: nat, content: seq<byte>)
    requires msg.Valid() && |Flat(msg.parts)| < SSIZE_MAX
    modifies msg
    ensures content == Closed(old(msg.Rest())) && narg == Count(content)
  {
    hide Collected, Flat, Closed, Count, ArgLen, Behind;
    narg, content := 0, [];
    ghost var all := msg.Rest();
    CollectEnds(all, [], 0);
    while true
      invariant msg.Valid() && msg.parts == old(msg.parts) && |Flat(msg.parts)| < SSIZE_MAX
      invariant Collected(all, content, narg, msg.Rest())
      decreases |msg.Rest()|
    {
      ghost var rest := msg.Rest();
      var ok, data := TakeArg(msg);
      if !ok { break; }
      CollectArg(all, content, narg, rest);
      BehindShorter(rest);
      content, narg := content + data + [0], narg + 1;
    }
    CollectEnds(all, content, narg);
  }

  lemma BehindShorter(s: seq<byte>)
    requires s != []
    ensures |Behind(s)| < |s|
  {}

  /** Length of the first segment: an argument with its terminator, or an unterminated rest. */
  function SegLen(s: seq<byte>): (n: nat)
    requires s != []
    ensures 0 < n <= |s|
  {
    if ArgLen(s) < |s| then ArgLen(s) + 1 else |s|
  }

  /** A segment ends with its first NUL, or with the array. */
  lemma SegLenIs(s: seq<byte>)
    requires s != []
    ensures var n := SegLen(s); NoZero(s[..n - 1]) && (s[n - 1] == 0 || n == |s|)
  {
    ArgNoZero(s);
    assert forall k :: 0 <= k < ArgLen(s) ==> s[..ArgLen(s)][k] == s[k];
  }

  /** The segments of an array. */
  function Segments(s: seq<byte>): seq<seq<byte>>
    decreases |s|
  {
    if s == [] then [] else [s[..SegLen(s)]] + Segments(s[SegLen(s)..])
  }

  /** The segments cut the array into consecutive pieces. */
  lemma {:induction false} SegmentsCover(s: seq<byte>)
    ensures Concat(Segments(s)) == s
    decreases |s|
  {
    if s != [] {
      hide SegLen;
      var n := SegLen(s);
      SegmentsCover(s[n..]);
      var rest := Segments(s[n..]);
      assert Segments(s) == [s[..n]] + rest;
      hide Segments;
      assert ([s[..n]] + rest)[1..] == rest;
      assert s[..n] + s[n..] == s;
    }
  }

  ghost predicate IsArgument(a: seq<byte>) {
    a != [] && a[|a| - 1] == 0 && NoZero(a[..|a| - 1])
  }

  lemma FirstArgument(s: seq<byte>)
    requires s != [] && s[|s| - 1] == 0
    ensures var n := SegLen(s);
            IsArgument(s[..n]) && Count(s[..n]) == 1 && (n < |s| ==> s[n..][|s| - n - 1] == 0)
  {
    var k := ArgLen(s);
    ArgNoZero(s);
    assert k < |s|;
    CountArg(s);
    assert s[..k + 1] == s[..k] + [0] && s[..k + 1][..k] == s[..k];
  }

  /** In an array made from a message every segment is one NUL-terminated argument, and there are as
      many as the conversion counted. */
  lemma {:induction false} SegmentsAreArguments(s: seq<byte>)
    requires s == [] || s[|s| - 1] == 0
    ensures |Segments(s)| == Count(s)
    ensures forall i :: 0 <= i < |Segments(s)| ==> IsArgument(Segments(s)[i])
    decreases |s|
  {
    if s != [] {
      hide SegLen, IsArgument, Count;
      var n := SegLen(s);
      FirstArgument(s);
      SegmentsAreArguments(s[n..]);
      CountApp(s[..n], s[n..]);
      assert s == s[..n] + s[n..];
    }
  }

  datatype Step = Missing | Done | Text | Raw

  /** A slice of an array of characters. */
  class Slice {
    const data: seq<byte>
    var off: nat
    var len: nat

    constructor (data: seq<byte>)
      ensures this.data == data && off == 0 && len == 0
    {
      this.data, off, len := data, 0, 0;
    }

    /** Advances to the next argument. */
    method Next() returns (r: Step)
      modifies this
      ensures old(off + len) <= |data| ==>
              var rest := data[old(off + len)..];
              if rest == [] then
                off == old(off + len) && len == 0 && r == if old(len) != 0 then Done else Missing
              else
                off == old(off + len) && len == SegLen(rest) && r == if len == |rest| && rest[len - 1] != 0 then Raw else Text
      ensures old(off + len) > |data| ==> r == Missing && unchanged(this)
    {
      var left := |data| - off;
      if left < 0 { return Missing; }
      if len != 0 {
        left := left - len;
        if left == 0 {
          off, len := off + len, 0;
          return Done;
        }
      }
      if left < 1 { return Missing; }
      var base := off + len;
      var k := ArgLen(data[base..]);
      ghost var rest := data[base..];
      r := if k < left then Text else Raw;
      off, len := base, if k < left then k + 1 else left;
      if k == left {
        ArgNoZero(rest);
        assert rest[..k] == rest;
      }
    }
  }

  /** Stepping a slice through an array yields exactly its segments. */
  method Walk(data: seq<byte>) returns (segs: seq<seq<byte>>)
    ensures segs == Segments(data)
  {
    hide SegLen;
    var s := new Slice(data);
    segs := [];
    assert data[0..] == data;
    while true
      invariant s.data == data && s.off + s.len <= |data|
      invariant Segments(data) == segs + Segments(data[s.off + s.len..])
      decreases |data| - s.off - s.len
    {
      ghost var was := segs;
      var r := s.Next();
      if r == Done || r == Missing { return; }
      segs := segs + [data[s.off..s.off + s.len]];
      Stepped(was, data, s.off, s.len);
    }
  }

  lemma Stepped(was: seq<seq<byte>>, data: seq<byte>, off: nat, n: nat)
    requires off < |data| && n == SegLen(data[off..])
    ensures was + Segments(data[off..]) == was + [data[off..off + n]] + Segments(data[off + n..])
  {
    hide SegLen;
    assert data[off..][..n] == data[off..off + n] && data[off..][n..] == data[off + n..];
  }
}
