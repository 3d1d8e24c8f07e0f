/** The encoder: what one call makes of a chunk, and why the result reads back. */
module CobsEncoder {
  import opened Bytes
  import opened CobsFormat

  /** Encoded bytes: `fin` are the finished blocks of all messages so far, `open` the data of the
      block being filled.  `begun` tells an empty open block from no message at all. */
  datatype Enc = Enc(fin: seq<byte>, begun: bool, open: seq<byte>)

  ghost predicate Valid(v: Variant, e: Enc) {
    NoZero(e.open) && |e.open| + 1 < MaxLen(v)
  }

  function Close(e: Enc, code: byte): Enc {
    Enc(e.fin + [code] + e.open, true, [])
  }

  /** A zero pair is only seen inside one chunk, and only after 1 to 30 data bytes. */
  predicate Pair(v: Variant, open: seq<byte>, chunk: seq<byte>) {
    v.zpe && 1 < |open| + 1 < 32 && |chunk| > 1 && chunk[0] == 0 && chunk[1] == 0
  }

  /** Takes one byte (a zero pair: two bytes) off the chunk. */
  function Take(v: Variant, e: Enc, chunk: seq<byte>): (r: (Enc, nat))
    requires chunk != [] && |e.open| + 1 < MaxLen(v)
    ensures 0 < r.1 <= |chunk| && |r.0.open| + 1 < MaxLen(v)
  {
    var code := |e.open| + 1;
    if chunk[0] != 0 then
      var e' := Enc(e.fin, true, e.open + [chunk[0]]);
      (if code + 1 == MaxLen(v) then Close(e', MaxLen(v)) else e', 1)
    else if Pair(v, e.open, chunk) then
      (Close(e, code + MaxLen(v)), 2)
    else
      (Close(e, code), 1)
  }

  function Chunk(v: Variant, e: Enc, chunk: seq<byte>): (r: Enc)
    requires |e.open| + 1 < MaxLen(v)
    ensures |r.open| + 1 < MaxLen(v)
    decreases |chunk|
  {
    if chunk == [] then e
    else
      var (e', n) := Take(v, e, chunk);
      Chunk(v, e', chunk[n..])
  }

  /** The last data byte can stand for the code: read as a code it promises more data than follows. */
  predicate Inline(v: Variant, open: seq<byte>) {
    v.tail && open != [] && var end := open[|open| - 1]; |open| + 1 < end <= MaxLen(v)
  }

  /** The last block as it is sent. */
  function Last(v: Variant, open: seq<byte>): seq<byte>
    requires |open| + 1 < MaxLen(v)
  {
    if Inline(v, open) then [open[|open| - 1]] + open[..|open| - 1] else [|open| + 1] + open
  }

  function Terminate(v: Variant, e: Enc): seq<byte>
    requires |e.open| + 1 < MaxLen(v)
  {
    e.fin + Last(v, e.open) + [0]
  }

  /** After the finished blocks the reader has everything but the open block, and owes the zeros of
      the last finished one. */
  ghost predicate Carries(v: Variant, e: Enc, msgs: seq<seq<byte>>, m: seq<byte>) {
    NoZero(e.open) && (!e.begun ==> e.open == []) &&
    var s := Run(v, INIT, e.fin);
    s.Going? && s.msgs == msgs &&
    if s.cur.code == 0 then s.cur == START && m == e.open
    else
      e.begun &&
      s.cur.pos == LenData(v, s.cur.code) &&
      m == s.cur.out + Zeros(LenZero(v, s.cur.code, 1)) + e.open
  }

  /** Reading the code and the data of the open block. */
  lemma OpenRead(v: Variant, e: Enc, msgs: seq<seq<byte>>, m: seq<byte>, code: byte)
    requires Carries(v, e, msgs, m) && code != 0
    requires |e.open| <= LenData(v, code)
    ensures Run(v, INIT, e.fin + [code] + e.open) == Going(msgs, Reader(code, |e.open|, m))
  {
    var s := Run(v, INIT, e.fin);
    var out := if s.cur.code == 0 then [] else s.cur.out + Zeros(LenZero(v, s.cur.code, 1));
    RunConcat(v, INIT, e.fin, [code]);
    RunOne(v, s, code);
    assert Step(v, s, code) == Going(msgs, Reader(code, 0, out)) by {
      if s.cur.code != 0 {
        assert LenZero(v, s.cur.code, code) == LenZero(v, s.cur.code, 1);
      }
    }
    RunConcat(v, INIT, e.fin + [code], e.open);
    RunData(v, msgs, Reader(code, 0, out), e.open);
    assert out + e.open == m;
  }

  lemma CloseCarries(v: Variant, e: Enc, msgs: seq<seq<byte>>, m: seq<byte>, code: byte)
    requires Carries(v, e, msgs, m) && code != 0 && LenData(v, code) == |e.open|
    ensures Carries(v, Close(e, code), msgs, m + Zeros(LenZero(v, code, 1)))
  {
    OpenRead(v, e, msgs, m, code);
  }

  lemma TakeCarries(v: Variant, e: Enc, msgs: seq<seq<byte>>, m: seq<byte>, chunk: seq<byte>)
    requires Valid(v, e) && Carries(v, e, msgs, m) && chunk != []
    ensures var (e', n) := Take(v, e, chunk);
            Valid(v, e') && e'.begun && Carries(v, e', msgs, m + chunk[..n])
  {
    var code := |e.open| + 1;
    if chunk[0] != 0 {
      assert chunk[..1] == [chunk[0]];
      var e' := Enc(e.fin, true, e.open + [chunk[0]]);
      assert Carries(v, e', msgs, m + [chunk[0]]);
      if code + 1 == MaxLen(v) {
        CloseCarries(v, e', msgs, m + [chunk[0]], MaxLen(v));
        assert m + [chunk[0]] + Zeros(0) == m + [chunk[0]];
      }
    } else if Pair(v, e.open, chunk) {
      CloseCarries(v, e, msgs, m, code + MaxLen(v));
      assert Zeros(2) == chunk[..2];
    } else {
      CloseCarries(v, e, msgs, m, code);
      assert Zeros(1) == chunk[..1];
    }
  }

  lemma {:induction false} ChunkCarries(v: Variant, e: Enc, msgs: seq<seq<byte>>, m: seq<byte>, chunk: seq<byte>)
    requires Valid(v, e) && Carries(v, e, msgs, m)
    ensures var e' := Chunk(v, e, chunk);
            Valid(v, e') && Carries(v, e', msgs, m + chunk) && (chunk != [] ==> e'.begun)
    decreases |chunk|
  {
    hide Carries;
    if chunk == [] {
      assert m + chunk == m;
    } else {
      var (e', n) := Take(v, e, chunk);
      TakeCarries(v, e, msgs, m, chunk);
      ChunkCarries(v, e', msgs, m + chunk[..n], chunk[n..]);
      assert m + chunk[..n] + chunk[n..] == m + chunk;
    }
  }

  /** Without its last data byte an open block carries the message without its last byte. */
  lemma ShortCarries(v: Variant, e: Enc, msgs: seq<seq<byte>>, m: seq<byte>)
    requires Valid(v, e) && Carries(v, e, msgs, m) && e.open != []
    ensures var k := |e.open| - 1;
            && m != [] && m == m[..|m| - 1] + [e.open[k]]
            && Carries(v, Enc(e.fin, true, e.open[..k]), msgs, m[..|m| - 1])
  {
    hide Run;
    var k := |e.open| - 1;
    assert e.open == e.open[..k] + [e.open[k]];
    var s := Run(v, INIT, e.fin);
    if s.cur.code != 0 {
      var pre := s.cur.out + Zeros(LenZero(v, s.cur.code, 1));
      assert m[..|m| - 1] == pre + e.open[..k];
    }
  }

  /** The terminator behind a block that was read up to byte `pos`. */
  lemma EndReads(v: Variant, msgs: seq<seq<byte>>, wire: seq<byte>, code: byte, pos: nat, m: seq<byte>)
    requires code != 0 && Run(v, INIT, wire) == Going(msgs, Reader(code, pos, m))
    ensures pos == LenData(v, code) && !IsPair(v, code) ==> Run(v, INIT, wire + [0]) == Going(msgs + [m], START)
    ensures pos < LenData(v, code) && v.tail ==> Run(v, INIT, wire + [0]) == Going(msgs + [m + [code]], START)
  {
    RunConcat(v, INIT, wire, [0]);
    RunOne(v, Going(msgs, Reader(code, pos, m)), 0);
    hide Run;
    assert m + Zeros(0) == m;
  }

  /** A code that stands for a zero pair. */
  predicate IsPair(v: Variant, code: byte) {
    v.zpe && code >= 0xe0
  }

  /** Termination with the last byte inlined. */
  lemma InlineReads(v: Variant, e: Enc, msgs: seq<seq<byte>>, m: seq<byte>)
    requires Valid(v, e) && Carries(v, e, msgs, m) && Inline(v, e.open)
    ensures Run(v, INIT, Terminate(v, e)) == Going(msgs + [m], START)
  {
    hide Run, Carries;
    var k := |e.open| - 1;
    var end, short := e.open[k], Enc(e.fin, true, e.open[..k]);
    ShortCarries(v, e, msgs, m);
    OpenRead(v, short, msgs, m[..|m| - 1], end);
    EndReads(v, msgs, e.fin + [end] + short.open, end, k, m[..|m| - 1]);
    assert e.fin + [end] + short.open == e.fin + Last(v, e.open);
  }

  /** Termination with the code of the block. */
  lemma RegularReads(v: Variant, e: Enc, msgs: seq<seq<byte>>, m: seq<byte>)
    requires Valid(v, e) && Carries(v, e, msgs, m) && !Inline(v, e.open)
    ensures Run(v, INIT, Terminate(v, e)) == Going(msgs + [m], START)
  {
    hide Run, Carries;
    var code := |e.open| + 1;
    OpenRead(v, e, msgs, m, code);
    EndReads(v, msgs, e.fin + [code] + e.open, code, |e.open|, m);
    assert e.fin + [code] + e.open == e.fin + Last(v, e.open);
  }

  /** Termination completes exactly the message carried, whether or not its last byte is inlined. */
  lemma TerminateReads(v: Variant, e: Enc, msgs: seq<seq<byte>>, m: seq<byte>)
    requires Valid(v, e) && Carries(v, e, msgs, m)
    ensures Run(v, INIT, Terminate(v, e)) == Going(msgs + [m], START)
  {
    hide Run, Carries, Terminate;
    if Inline(v, e.open) {
      InlineReads(v, e, msgs, m);
    } else {
      RegularReads(v, e, msgs, m);
    }
  }

  /** The chunks of one message, one call each. */
  function Chunks(v: Variant, e: Enc, chunks: seq<seq<byte>>): (r: Enc)
    requires |e.open| + 1 < MaxLen(v)
    ensures |r.open| + 1 < MaxLen(v)
    decreases |chunks|
  {
    if chunks == [] then e else Chunks(v, Chunk(v, e, chunks[0]), chunks[1..])
  }

  /** A stream of messages, each given by its chunks, encoded one after the other. */
  function Stream(v: Variant, fin: seq<byte>, stream: seq<seq<seq<byte>>>): seq<byte>
    decreases |stream|
  {
    if stream == [] then fin
    else Stream(v, Terminate(v, Chunks(v, Enc(fin, false, []), stream[0])), stream[1..])
  }

  lemma {:induction false} ChunksCarry(v: Variant, e: Enc, msgs: seq<seq<byte>>, m: seq<byte>, chunks: seq<seq<byte>>)
    requires Valid(v, e) && Carries(v, e, msgs, m)
    ensures var e' := Chunks(v, e, chunks);
            Valid(v, e') && Carries(v, e', msgs, m + Concat(chunks))
    decreases |chunks|
  {
    hide Carries;
    if chunks == [] {
      assert m + Concat(chunks) == m;
    } else {
      ChunkCarries(v, e, msgs, m, chunks[0]);
      ChunksCarry(v, Chunk(v, e, chunks[0]), msgs, m + chunks[0], chunks[1..]);
      assert m + chunks[0] + Concat(chunks[1..]) == m + Concat(chunks);
    }
  }

  function Messages(stream: seq<seq<seq<byte>>>): (r: seq<seq<byte>>)
    ensures |r| == |stream|
  {
    seq(|stream|, i requires 0 <= i < |stream| => Concat(stream[i]))
  }

  /** Stream round trip: however the messages are cut into chunks, the automaton reads exactly the
      messages, in order, and is back at a message start. */
  lemma {:induction false} StreamRoundTrip(v: Variant, fin: seq<byte>, msgs: seq<seq<byte>>, stream: seq<seq<seq<byte>>>)
    requires Run(v, INIT, fin) == Going(msgs, START)
    ensures Run(v, INIT, Stream(v, fin, stream)) == Going(msgs + Messages(stream), START)
    decreases |stream|
  {
    if stream == [] {
      assert msgs + Messages(stream) == msgs;
    } else {
      var e := Enc(fin, false, []);
      var e' := Chunks(v, e, stream[0]);
      ChunksCarry(v, e, msgs, [], stream[0]);
      assert [] + Concat(stream[0]) == Concat(stream[0]);
      TerminateReads(v, e', msgs, Concat(stream[0]));
      StreamRoundTrip(v, Terminate(v, e'), msgs + [Concat(stream[0])], stream[1..]);
      assert msgs + [Concat(stream[0])] + Messages(stream[1..]) == msgs + Messages(stream);
    }
  }

  /** The same for a whole stream. */
  lemma StreamReads(v: Variant, stream: seq<seq<seq<byte>>>)
    ensures Run(v, INIT, Stream(v, [], stream)) == Going(Messages(stream), START)
  {
    hide Stream, Messages;
    StreamRoundTrip(v, [], [], stream);
    assert [] + Messages(stream) == Messages(stream);
  }
}
