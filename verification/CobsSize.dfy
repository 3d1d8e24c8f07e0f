/** How many bytes an encoded message takes, and how much room makes the encoder calls succeed. */
module CobsSize {
  import opened Bytes
  import opened CobsFormat
  import opened CobsEncoder
  import opened CobsEncode

  /** Data bytes of a full block: 254, with zero pairs 222. */
  function BlockData(v: Variant): nat {
    MaxLen(v) - 1
  }

  /** Finished bytes plus the open block with its code. */
  function Extent(e: Enc): nat {
    |e.fin| + |e.open| + 1
  }

  /** An extra byte is spent only when a block fills up, and that uses `BlockData` input bytes. */
  ghost predicate Thrifty(v: Variant, e: Enc, n: nat, e': Enc) {
    BlockData(v) * (Extent(e') - Extent(e) - n) + |e'.open| <= |e.open| + n
  }

  lemma {:induction false} ChunkThrifty(v: Variant, e: Enc, chunk: seq<byte>)
    requires |e.open| + 1 < MaxLen(v)
    ensures Thrifty(v, e, |chunk|, Chunk(v, e, chunk))
    decreases |chunk|
  {
    if chunk != [] {
      var (e', n) := Take(v, e, chunk);
      assert Thrifty(v, e, n, e');
      ChunkThrifty(v, e', chunk[n..]);
    }
  }

  lemma {:induction false} ChunksThrifty(v: Variant, e: Enc, chunks: seq<seq<byte>>)
    requires |e.open| + 1 < MaxLen(v)
    ensures Thrifty(v, e, |Concat(chunks)|, Chunks(v, e, chunks))
    decreases |chunks|
  {
    if chunks != [] {
      ChunkThrifty(v, e, chunks[0]);
      ChunksThrifty(v, Chunk(v, e, chunks[0]), chunks[1..]);
    }
  }

  function Bound(v: Variant, n: nat): nat {
    n + n / BlockData(v) + 2
  }

  lemma ThriftyBound(v: Variant, fin: seq<byte>, n: nat, e: Enc)
    requires Thrifty(v, Enc(fin, false, []), n, e)
    ensures Extent(e) + 1 <= |fin| + Bound(v, n)
  {
    var extra := Extent(e) - |fin| - 1 - n;
    if v.zpe {
      assert 222 * extra <= n;
    } else {
      assert 254 * extra <= n;
    }
  }

  /** Size bound: n input bytes, in any chunks, take at most n + n / BlockData + 2 bytes. */
  lemma SizeBound(v: Variant, fin: seq<byte>, chunks: seq<seq<byte>>)
    ensures var n := |Concat(chunks)|;
            |Terminate(v, Chunks(v, Enc(fin, false, []), chunks))| <= |fin| + n + n / (if v.zpe then 222 else 254) + 2
  {
    ChunksThrifty(v, Enc(fin, false, []), chunks);
    ThriftyBound(v, fin, |Concat(chunks)|, Chunks(v, Enc(fin, false, []), chunks));
  }

  /** One more byte completes the block and opens the next. */
  lemma {:induction false} Completes(v: Variant, e: Enc, m: seq<byte>, k: nat)
    requires |e.open| + 1 < MaxLen(v) && k < |m| && m[k] != 0
    requires |Chunk(v, e, m[..k]).open| + 2 == MaxLen(v)
    ensures Extent(Chunk(v, e, m[..k + 1])) == |Chunk(v, e, m[..k]).fin| + MaxLen(v) + 1
    decreases |m|
  {
    if k == 0 {
      assert m[..1] == [m[0]];
      var (e', n) := Take(v, e, m[..1]);
      assert m[..1][n..] == [];
    } else {
      var (e', n) := Take(v, e, m[..k]);
      TakePrefix(v, e, m[..k + 1], k);
      assert m[..k + 1][..k] == m[..k];
      assert m[..k][n..] == m[n..][..k - n] && m[..k + 1][n..] == m[n..][..k - n + 1];
      Completes(v, e', m[n..], k - n);
    }
  }

  lemma {:induction false} PrefixExtent(v: Variant, e: Enc, m: seq<byte>, r: nat)
    requires |e.open| + 1 < MaxLen(v) && r <= |m|
    ensures Extent(Chunk(v, e, m[..r])) <= Extent(Chunk(v, e, m))
    decreases |m|
  {
    if m != [] {
      var (e', n) := Take(v, e, m);
      if r < n {
        assert Extent(Chunk(v, e, m[..r])) <= Extent(e') by {
          if r == 1 {
            assert m[..1][1..] == [];
          }
        }
        PrefixExtent(v, e', m[n..], 0);
      } else {
        TakePrefix(v, e, m, r);
        assert m[..r][n..] == m[n..][..r - n];
        PrefixExtent(v, e', m[n..], r - n);
      }
    }
  }

  /** Room for the encoded message is all a data call needs: no part of the message fills the buffer
      and no block ends exactly at its end. */
  lemma FitsSuffice(v: Variant, e: Enc, m: seq<byte>, size: nat)
    requires |e.open| + 1 < MaxLen(v) && Extent(Chunk(v, e, m)) < size
    ensures !ExactFill(v, e, m, size)
    ensures forall r :: 0 <= r <= |m| ==> Extent(Chunk(v, e, m[..r])) < size
  {
    forall r | 0 <= r <= |m| ensures Extent(Chunk(v, e, m[..r])) < size {
      PrefixExtent(v, e, m, r);
    }
    forall k: nat ensures !FillsAt(v, e, m, size, k) {
      if FillsAt(v, e, m, size, k) {
        Completes(v, e, m, k);
        assert false;
      }
    }
  }

  /** A buffer of the bound's size lets one data call consume everything and termination succeed. */
  lemma RoomSuffices(v: Variant, fin: seq<byte>, m: seq<byte>, size: nat)
    requires size >= |fin| + |m| + |m| / (if v.zpe then 222 else 254) + 2
    ensures var e := Enc(fin, false, []);
            && !ExactFill(v, e, m, size)
            && (forall r :: 0 <= r <= |m| ==> Extent(Chunk(v, e, m[..r])) < size)
  {
    var e := Enc(fin, false, []);
    ChunkThrifty(v, e, m);
    ThriftyBound(v, fin, |m|, Chunk(v, e, m));
    FitsSuffice(v, e, m, size);
  }

  lemma TakeNoZero(v: Variant, e: Enc, chunk: seq<byte>)
    requires Valid(v, e) && chunk != []
    ensures var e' := Take(v, e, chunk).0;
            Valid(v, e') && e.fin <= e'.fin && NoZero(e'.fin[|e.fin|..])
  {}

  /** No zero byte appears before the terminator, and the inlined form is one byte shorter. */
  lemma {:induction false} ChunkNoZero(v: Variant, e: Enc, chunk: seq<byte>)
    requires Valid(v, e)
    ensures var e' := Chunk(v, e, chunk);
            Valid(v, e') && e.fin <= e'.fin && NoZero(e'.fin[|e.fin|..])
    decreases |chunk|
  {
    if chunk != [] {
      var (e', n) := Take(v, e, chunk);
      TakeNoZero(v, e, chunk);
      hide Take;
      ChunkNoZero(v, e', chunk[n..]);
      var e'' := Chunk(v, e', chunk[n..]);
      assert e''.fin[|e.fin|..] == e'.fin[|e.fin|..] + e''.fin[|e'.fin|..];
    }
  }

  lemma {:induction false} ChunksNoZero(v: Variant, e: Enc, chunks: seq<seq<byte>>)
    requires Valid(v, e)
    ensures var e' := Chunks(v, e, chunks);
            Valid(v, e') && e.fin <= e'.fin && NoZero(e'.fin[|e.fin|..])
    decreases |chunks|
  {
    if chunks != [] {
      var e' := Chunk(v, e, chunks[0]);
      ChunkNoZero(v, e, chunks[0]);
      ChunksNoZero(v, e', chunks[1..]);
      var e'' := Chunks(v, e', chunks[1..]);
      assert e''.fin[|e.fin|..] == e'.fin[|e.fin|..] + e''.fin[|e'.fin|..];
    }
  }

  lemma OneTerminator(v: Variant, fin: seq<byte>, chunks: seq<seq<byte>>)
    ensures var wire := Terminate(v, Chunks(v, Enc(fin, false, []), chunks));
            fin < wire && wire[|wire| - 1] == 0 && NoZero(wire[|fin|..|wire| - 1])
  {
    var e := Chunks(v, Enc(fin, false, []), chunks);
    ChunksNoZero(v, Enc(fin, false, []), chunks);
    LastNoZero(v, e.open);
    hide *;
    var wire := e.fin + Last(v, e.open) + [0];
    assert wire[|fin|..|wire| - 1] == e.fin[|fin|..] + Last(v, e.open);
    JoinNoZero(e.fin[|fin|..], Last(v, e.open));
    IsTerminate(v, e);
  }

  lemma IsTerminate(v: Variant, e: Enc)
    requires |e.open| + 1 < MaxLen(v)
    ensures Terminate(v, e) == e.fin + Last(v, e.open) + [0]
  {}

  lemma JoinNoZero(a: seq<byte>, b: seq<byte>)
    requires NoZero(a) && NoZero(b)
    ensures NoZero(a + b)
  {}

  lemma LastNoZero(v: Variant, open: seq<byte>)
    requires NoZero(open) && |open| + 1 < MaxLen(v)
    ensures NoZero(Last(v, open)) && Last(v, open) != []
  {}

  /** The last data byte is larger than the code of its block, but no code of a zero pair. */
  predicate Saves(v: Variant, open: seq<byte>) {
    var n := |open|;
    v.tail && n > 0 && n + 1 < open[n - 1] && (v.zpe ==> open[n - 1] <= 0xdf)
  }

  /** Tail inlining does not touch the data calls and saves exactly one byte or none. */
  lemma {:induction false} TailSavesOne(v: Variant, e: Enc, chunks: seq<seq<byte>>)
    requires |e.open| + 1 < MaxLen(v)
    ensures var r := v.(tail := false);
            var e' := Chunks(v, e, chunks);
            && e' == Chunks(r, e, chunks)
            && |Terminate(v, e')| == |Terminate(r, e')| - if Saves(v, e'.open) then 1 else 0
    decreases |chunks|
  {
    if chunks != [] {
      ChunkTail(v, e, chunks[0]);
      TailSavesOne(v, Chunk(v, e, chunks[0]), chunks[1..]);
    }
  }

  lemma {:induction false} ChunkTail(v: Variant, e: Enc, chunk: seq<byte>)
    requires |e.open| + 1 < MaxLen(v)
    ensures Chunk(v, e, chunk) == Chunk(v.(tail := false), e, chunk)
    decreases |chunk|
  {
    if chunk != [] {
      var (e', n) := Take(v, e, chunk);
      assert Take(v.(tail := false), e, chunk) == (e', n);
      ChunkTail(v, e', chunk[n..]);
    }
  }

  /** Without zeros in the input the bound is met exactly. */
  lemma {:induction false} NoZeroExtent(v: Variant, e: Enc, m: seq<byte>)
    requires |e.open| + 1 < MaxLen(v) && NoZero(m)
    ensures var e' := Chunk(v, e, m);
            BlockData(v) * (Extent(e') - Extent(e) - |m|) + |e'.open| == |e.open| + |m|
    decreases |m|
  {
    if m != [] {
      var (e', n) := Take(v, e, m);
      assert BlockData(v) * (Extent(e') - Extent(e) - 1) + |e'.open| == |e.open| + 1;
      NoZeroExtent(v, e', m[n..]);
    }
  }

  const PLAIN := Variant(false, false)

  function Wire(m: seq<byte>): seq<byte> {
    Terminate(PLAIN, Chunk(PLAIN, Enc([], false, []), m))
  }

  lemma NoZeroWire(m: seq<byte>)
    requires NoZero(m)
    ensures |Wire(m)| == Bound(PLAIN, |m|)
  {
    var e := Chunk(PLAIN, Enc([], false, []), m);
    NoZeroExtent(PLAIN, Enc([], false, []), m);
    var extra := Extent(e) - 1 - |m|;
    assert 254 * extra + |e.open| == |m|;
    TerminateRegular(PLAIN, e);
  }

  /** The buffer the Lua binding reserves is sufficient for all messages of a length exactly while
      n / 254 exceeds n / 255 by no more than two. */
  lemma ReserveSuffices(n: nat)
    ensures (forall m: seq<byte> :: |m| == n ==> |Wire(m)| <= n + n / 255 + 4) <==> n / 254 - n / 255 <= 2
  {
    forall m: seq<byte> | |m| == n ensures |Wire(m)| <= Bound(PLAIN, n) {
      ChunkThrifty(PLAIN, Enc([], false, []), m);
      ThriftyBound(PLAIN, [], n, Chunk(PLAIN, Enc([], false, []), m));
      TerminateRegular(PLAIN, Chunk(PLAIN, Enc([], false, []), m));
    }
    var ones: seq<byte> := seq(n, _ => 1);
    NoZeroWire(ones);
  }

  /** A block that ends exactly at the end of the buffer: 254 non-zero bytes and 255 bytes of room. */
  lemma ExactFillOccurs(m: seq<byte>)
    requires |m| == 254 && NoZero(m)
    ensures ExactFill(PLAIN, Enc([], false, []), m, 255)
  {
    var e := Chunk(PLAIN, Enc([], false, []), m[..253]);
    NoZeroExtent(PLAIN, Enc([], false, []), m[..253]);
    assert FillsAt(PLAIN, Enc([], false, []), m, 255, 253);
  }

  /** A zero pair cut by a chunk boundary takes one byte more than the same pair in one chunk. */
  lemma PairAcrossChunks(tail: bool, e: Enc)
    requires 1 <= |e.open| <= 30
    ensures var v := Variant(true, tail);
            Extent(Chunk(v, Chunk(v, e, [0]), [0])) == Extent(Chunk(v, e, [0, 0])) + 1
  {
    var v := Variant(true, tail);
    TakesAll(v, e, [0, 0]);
    TakesAll(v, e, [0]);
    TakesAll(v, Close(e, |e.open| + 1), [0]);
  }

  lemma TakesAll(v: Variant, e: Enc, chunk: seq<byte>)
    requires |e.open| + 1 < MaxLen(v) && chunk != [] && Take(v, e, chunk).1 == |chunk|
    ensures Chunk(v, e, chunk) == Take(v, e, chunk).0
  {
    assert chunk[|chunk|..] == [];
  }

  /** The Lua binding's encoder: one data call and one terminating call on a buffer of its own. */
  method EncodeReserved(from: seq<byte>) returns (ok: bool, out: seq<byte>)
    ensures ok <==> from != [] && |Wire(from)| <= |from| + |from| / 255 + 4
    ensures ok ==> out == Wire(from)
  {
    var size := |from| + |from| / 255 + 4;
    var to := new byte[size];
    var s := new Encoder();
    ghost var e := s.View(to);
    assert e == Enc([], false, []);
    TerminateRegular(PLAIN, Chunk(PLAIN, e, from));
    if |Wire(from)| <= size {
      FitsSuffice(PLAIN, e, from, size);
    }
    ok, out := false, [];
    var take := s.Encode(PLAIN, to, size, Data(from));
    if take < 0 { return; }
    assert take == |from| ==> from[..take] == from && s.View(to) == Chunk(PLAIN, e, from);
    var done := s.Encode(PLAIN, to, size, Finish);
    if done < 0 || take != |from| { return; }
    return true, to[..s.done];
  }

  /** Data bytes that fit into the open block are added to it. */
  lemma {:induction false} OpenGrows(v: Variant, e: Enc, m: seq<byte>)
    requires NoZero(m) && |e.open| + |m| + 1 < MaxLen(v)
    ensures Chunk(v, e, m) == Enc(e.fin, e.begun || m != [], e.open + m)
    decreases |m|
  {
    if m == [] {
      assert e.open + m == e.open;
    } else {
      OpenGrows(v, Enc(e.fin, true, e.open + [m[0]]), m[1..]);
      assert e.open + [m[0]] + m[1..] == e.open + m;
    }
  }

  /** The bytes of a short message without zeros: its last byte in place of the code where that is larger
      than the code, and for zero pairs at most 0xdf. */
  lemma ShortWire(v: Variant, m: seq<byte>)
    requires NoZero(m) && m != [] && |m| < if v.zpe then 222 else 254
    ensures var wire, k := Terminate(v, Chunk(v, Enc([], false, []), m)), |m| - 1;
            wire == if v.tail && |m| + 1 < m[k] && (v.zpe ==> m[k] <= 0xdf) then [m[k]] + m[..k] + [0] else [|m| + 1] + m + [0]
  {
    hide Chunk, Terminate;
    var e, k := Enc([], true, m), |m| - 1;
    OpenGrows(v, Enc([], false, []), m);
    assert [] + m == m;
    if v.tail {
      TailBytes(v, e);
      NoPrefix([m[k]] + m[..k] + [0]);
      NoPrefix([|m| + 1] + m + [0]);
    } else {
      assert v.(tail := false) == v;
      TerminateRegular(v, e);
      NoPrefix([|m| + 1] + m);
    }
  }

  lemma NoPrefix(s: seq<byte>)
    ensures [] + s == s
  {}

  /** A zero ends the block with its code in front. */
  lemma ZeroWire(v: Variant, fin: seq<byte>, m: seq<byte>)
    requires NoZero(m) && |m| < if v.zpe then 222 else 254
    ensures Chunk(v, Enc(fin, false, []), m + [0]) == Enc(fin + [|m| + 1] + m, true, [])
  {
    ChunkOn(v, Enc(fin, false, []), m, [0]);
    var e := Enc(fin, m != [], m);
    assert [] + m == m;
    assert Take(v, e, [0]) == (Close(e, |m| + 1), 1);
    TakesAll(v, e, [0]);
  }

  /** A block that is full ends with the largest regular code in front. */
  lemma FullWire(v: Variant, fin: seq<byte>, m: seq<byte>)
    requires NoZero(m) && |m| == if v.zpe then 222 else 254
    ensures Chunk(v, Enc(fin, false, []), m) == Enc(fin + [if v.zpe then 0xdf else 0xff] + m, true, [])
  {
    var k := |m| - 1;
    assert m == m[..k] + [m[k]] && [] + m[..k] == m[..k];
    ChunkOn(v, Enc(fin, false, []), m[..k], [m[k]]);
    var e := Enc(fin, true, m[..k]);
    assert Take(v, e, [m[k]]) == (Close(Enc(fin, true, m), MaxLen(v)), 1);
    TakesAll(v, e, [m[k]]);
  }

  /** Behind data bytes that fit the encoder goes on with the block that they fill. */
  lemma {:induction false} ChunkOn(v: Variant, e: Enc, m: seq<byte>, rest: seq<byte>)
    requires NoZero(m) && |e.open| + |m| + 1 < MaxLen(v)
    ensures Chunk(v, e, m + rest) == Chunk(v, Enc(e.fin, e.begun || m != [], e.open + m), rest)
    decreases |m|
  {
    if m == [] {
      assert m + rest == rest && e.open + m == e.open;
    } else {
      assert (m + rest)[0] == m[0] && (m + rest)[1..] == m[1..] + rest;
      ChunkOn(v, Enc(e.fin, true, e.open + [m[0]]), m[1..], rest);
      assert e.open + [m[0]] + m[1..] == e.open + m;
    }
  }

  /** Two zeros make a pair exactly behind 1 to 30 data bytes of a block, with zero pairs; the code is then
      raised by 0xdf. */
  lemma PairExactly(v: Variant, e: Enc)
    requires |e.open| < if v.zpe then 222 else 254
    ensures var k := |e.open|;
            Chunk(v, e, [0, 0]) ==
            if v.zpe && 1 <= k <= 30 then Enc(e.fin + [k + 1 + 0xdf] + e.open, true, [])
            else Enc(e.fin + [k + 1] + e.open + [1], true, [])
  {
    var k := |e.open|;
    var zeros: seq<byte> := [0, 0];
    if v.zpe && 1 <= k <= 30 {
      assert Take(v, e, zeros) == (Close(e, k + 1 + 0xdf), 2);
      TakesAll(v, e, zeros);
    } else {
      var e' := Close(e, k + 1);
      assert Take(v, e, zeros) == (e', 1) && zeros[1..] == [0];
      assert Take(v, e', [0]) == (Close(e', 1), 1);
      TakesAll(v, e', [0]);
      assert e'.fin + [1] + [] == e'.fin + [1];
    }
  }

  /** A data call that fills a vector of four bytes. */
  method FillVector(v: Variant, mem: array<byte>) returns (s: Encoder)
    requires mem.Length > 4
    modifies mem
    ensures fresh(s) && s.done == 0 && s.scratch == 4 && mem[1..4] == [1, 1, 1]
  {
    hide Pushed, Terminate, Inline;
    s := new Encoder();
    ghost var e := s.View(mem);
    assert e == Enc([], false, []);
    var n := s.Encode(v, mem, 4, Data([1, 1, 1]));
    FullVector(v, s.View(mem), n);
  }

  lemma FullVector(v: Variant, view: Enc, n: int)
    requires Pushed(v, Enc([], false, []), [1, 1, 1], 4, view, n) && view.begun
    ensures view == Enc([], true, [1, 1, 1])
  {
    var e, m: seq<byte> := Enc([], false, []), [1, 1, 1];
    forall k: nat ensures !FillsAt(v, e, m, 4, k) {
      if k < 3 { OpenGrows(v, e, m[..k]); }
    }
    OpenGrows(v, e, m[..n]);
    assert m[..3] == m && [] + m == m;
  }

  /** On the full vector the tail variants write the terminator behind it... */
  method TailOverrun(v: Variant, mem: array<byte>) returns (r: int)
    requires mem.Length > 4 && v.tail
    modifies mem
    ensures r == 0 && mem[..5] == [4, 1, 1, 1, 0]
  {
    hide Pushed;
    var s := FillVector(v, mem);
    assert s.View(mem) == Enc([], true, [1, 1, 1]);
    r := s.Encode(v, mem, 4, Finish);
  }

  /** ... where the regular ones ask for room. */
  method RegularRefuses(v: Variant, mem: array<byte>) returns (r: int)
    requires mem.Length > 4 && !v.tail
    modifies mem
    ensures r == MISSING_BUFFER
  {
    hide Pushed, Terminate, Inline;
    var s := FillVector(v, mem);
    r := s.Encode(v, mem, 4, Finish);
  }
}
