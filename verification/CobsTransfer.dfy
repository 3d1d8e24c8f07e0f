/** A caller of the decoder: it decodes a buffer in place until nothing is left, and makes room when the
    decoder asks for it. */
module CobsReceive {
  import opened Bytes
  import opened Scatter
  import opened CobsFormat
  import opened CobsEncoder
  import opened CobsDecoder
  import opened CobsCall
  import opened CobsRun
  import opened CobsRoom
  import opened CobsScatter

  /** A gap in front of every code that was read lasts until zeros use it up, and by then data was
      decoded: the loop stops early only for zeros. */
  lemma {:induction false} GapLoop(v: Variant, mem: seq<byte>, base: nat, w: nat, r: nat, code: byte, pos: nat)
    requires base <= w <= r <= |mem| && code != 0
    requires w == r ==> w > base && pos >= LenData(v, code)
    ensures var o := Loop(v, mem, w, r, code, pos);
            && (o.ret == 0 ==> o.r == |mem|) && (o.ret == MISSING_BUFFER ==> o.w > base)
            && (o.ret == 1 ==> o.code == 0)
    decreases |mem| - r, if pos < 258 then 258 - pos else 0
  {
    if r < |mem| {
      if pos < LenData(v, code) {
        if mem[r] != 0 {
          GapLoop(v, mem[w := mem[r]], base, w + 1, r + 1, code, pos + 1);
        }
      } else if pos < LenData(v, code) + LenZero(v, code, mem[r]) {
        if w < r {
          GapLoop(v, mem[w := 0], base, w + 1, r, code, pos + 1);
        }
      } else if mem[r] != 0 {
        GapLoop(v, mem, base, w, r + 1, mem[r], 0);
      }
    }
  }

  /** Between messages, or after the decoder asked for room and got it. */
  ghost predicate Served(v: Variant, mem: seq<byte>, s: State) {
    Placed(mem, s) &&
    (s.code == 0 || (!Fresh(s) && s.curr < |mem| && 0 < Need(v, s.code, s.pos, mem[s.curr]) <= Gap(s)))
  }

  /** What a served caller may rely on. */
  ghost predicate Serves(mem: seq<byte>, s: State, res: Result) {
    (res.ret == 0 ==> res.s.curr == |mem|) && (res.ret != 0 ==> res.s.curr > s.curr) &&
    (res.ret == 1 ==> res.s.code == 0) && (res.ret == MISSING_BUFFER ==> !Fresh(res.s))
  }

  lemma ServedStart(v: Variant, mem: seq<byte>, s: State, shift: nat)
    requires Placed(mem, s) && s.code == 0 && shift <= Gap(s) && Fresh(s)
    ensures Serves(mem, s, Call(v, mem, s, shift)) || Call(v, mem, s, shift).ret == BAD_VALUE
  {
    hide Loop;
    var dpos := Begin(s, shift);
    if s.curr < |mem| && mem[s.curr] != 0 {
      GapLoop(v, mem, dpos, dpos, s.curr + 1, mem[s.curr], 0);
    }
  }

  lemma ServedResume(v: Variant, mem: seq<byte>, s: State, shift: nat)
    requires Served(v, mem, s) && s.code != 0 && shift <= Gap(s)
    ensures Serves(mem, s, Call(v, mem, s, shift)) || Call(v, mem, s, shift).ret == MISSING_DATA
  {
    hide Loop;
    var w := s.dpos + s.dlen;
    GapLoop(v, mem, s.dpos, w, s.curr, s.code, s.pos);
    LoopMoves(v, mem, w, s.curr, s.code, s.pos);
  }

  /** A call of a served decoder: it consumes input unless there is none, it wants more input only
      then, and it asks for room only with data decoded. */
  lemma ServedCall(v: Variant, mem: seq<byte>, s: State, shift: nat, f: Feed)
    requires Served(v, mem, s) && Holds(v, mem, s, f) && shift <= Gap(s) && !Run(v, f, mem[s.curr..]).Broken?
    ensures Correct(v, mem, s, f, Call(v, mem, s, shift)) && Serves(mem, s, Call(v, mem, s, shift))
  {
    hide Run, Correct, Call;
    CallCorrect(v, mem, s, shift, f);
    CorrectReturns(v, mem, s, f, Call(v, mem, s, shift));
    if s.code != 0 {
      ServedResume(v, mem, s, shift);
    } else {
      ServedStart(v, mem, s, shift);
    }
  }

  lemma CorrectReturns(v: Variant, mem: seq<byte>, s: State, f: Feed, res: Result)
    requires s.curr <= |mem| && Correct(v, mem, s, f, res)
    ensures res.ret == 0 || res.ret == 1 || res.ret == MISSING_BUFFER
  {}

  lemma FlatOne(buf: array<byte>)
    ensures Flat([buf]) == buf[..]
  {
    assert Snap([buf]) == [buf[..]];
    assert Concat([buf[..]]) == buf[..] + Concat([]);
  }

  /** What holds between calls: the world of all bytes that will ever arrive, decoded so far. */
  ghost predicate Receiving(v: Variant, wire: seq<byte>, w: World) {
    Inv(v, w) && w.arrived == wire && Served(v, w.mem, w.s)
  }

  /** After a call the caller has a message, is done, or has to make room. */
  lemma Received(v: Variant, w: World, wire: seq<byte>, shift: nat)
    requires Receiving(v, wire, w) && shift <= Gap(w.s) && !Run(v, INIT, wire).Broken?
    ensures var res := Answer(v, w, shift);
            var w' := Apply(v, w, Decode(shift));
            && (res.ret == 0 || res.ret == 1 || res.ret == MISSING_BUFFER) && Placed(res.mem, res.s)
            && w'.mem == res.mem && w'.s == res.s && w'.arrived == wire
            && w'.got == (if res.ret == 1 then w.got + [res.mem[res.s.dpos..res.s.dpos + res.s.dlen]] else w.got)
            && (res.ret == 0 ==> Inv(v, w') && Unread(w') == [])
            && (res.ret == 1 ==> Receiving(v, wire, w') && |Unread(w')| < |Unread(w)|)
            && (res.ret == MISSING_BUFFER ==>
                  |Unread(w')| < |Unread(w)| &&
                  forall pad: seq<byte> :: |pad| == 8 ==> Receiving(v, wire, Apply(v, w', Insert(pad))))
  {
    hide Run, Call, Sync;
    DecodeInv(v, w, shift);
    ReadRest(v, w);
    ServedCall(v, w.mem, w.s, shift, Read(v, w));
    var w' := Apply(v, w, Decode(shift));
    if Answer(v, w, shift).ret == MISSING_BUFFER {
      forall pad: seq<byte> | |pad| == 8 ensures Receiving(v, wire, Apply(v, w', Insert(pad))) {
        InsertInv(v, w', pad);
        var w'' := Apply(v, w', Insert(pad));
        assert w''.mem[w''.s.curr] == w'.mem[w'.s.curr];
      }
    }
  }

  /** One call on a single buffer at some address. */
  method CallOnce(v: Variant, d: Decoder, buf: array<byte>, addr: nat, ghost w: World) returns (ret: int, ghost shift: nat)
    requires d.Valid() && w.mem == buf[..] && w.s == d.View() && Placed(w.mem, w.s)
    modifies d, buf
    ensures d.Valid() && shift <= Gap(w.s) && Result(buf[..], d.View(), ret) == Answer(v, w, shift)
  {
    hide Flat, Shift, Call;
    FlatOne(buf);
    shift := Shift([buf], [addr], d.View());
    if v.tail {
      ret := d.DecodeTail(v, [buf], [addr]);
    } else {
      ret := d.Decode(v, [buf], [addr]);
    }
    FlatOne(buf);
  }

  /** Makes room for 8 bytes at the input position. */
  method MakeRoom(d: Decoder, buf: array<byte>, ghost v: Variant, ghost w: World)
      returns (next: array<byte>, ghost pad: seq<byte>)
    requires d.Valid() && w.mem == buf[..] && w.s == d.View() && Placed(w.mem, w.s)
    modifies d`curr
    ensures fresh(next) && d.Valid() && |pad| == 8
    ensures var w' := Apply(v, w, Insert(pad)); next[..] == w'.mem && d.View() == w'.s
  {
    var curr := d.curr;
    pad := seq(8, _ => 0);
    next := new byte[buf.Length + 8](i requires 0 <= i < buf.Length + 8 reads buf =>
      if i < curr then buf[i] else if i < curr + 8 then 0 else buf[i - 8]);
    d.curr := d.curr + 8;
    assert next[..] == buf[..][..curr] + pad + buf[..][curr..];
  }

  /** Decodes everything that was received: exactly the messages the bytes stand for, in order, for
      every variant, wherever the buffers lie in memory. */
  method Receive(v: Variant, wire: seq<byte>, where: nat -> nat, ghost msgs: seq<seq<byte>>) returns (got: seq<seq<byte>>)
    requires Run(v, INIT, wire) == Going(msgs, START)
    ensures got == msgs
  {
    hide Run, Inv, Apply, Answer, Served, Receiving;
    var buf := new byte[|wire|](i requires 0 <= i < |wire| => wire[i]);
    var d := new Decoder();
    var calls := 0;
    got := [];
    ghost var w := World(wire, FIRST, [], wire);
    ReceiveStart(v, wire);
    assert buf[..] == wire;
    while true
      invariant fresh(d) && fresh(buf) && d.Valid() && w.mem == buf[..] && w.s == d.View() && w.got == got
      invariant Receiving(v, wire, w) && w.s.curr <= |w.mem|
      decreases |Unread(w)|
    {
      ReceivingPlaced(v, wire, w);
      var ret; ghost var shift;
      ret, shift := CallOnce(v, d, buf, where(calls), w);
      Received(v, w, wire, shift);
      w := Apply(v, w, Decode(shift));
      calls := calls + 1;
      if ret == 0 {
        Delivered(v, w, wire, msgs);
        return;
      }
      if ret == 1 {
        got := got + [buf[d.pos..d.pos + d.len]];
        continue;
      }
      ghost var pad;
      buf, pad := MakeRoom(d, buf, v, w);
      RoomKeeps(v, w, pad);
      w := Apply(v, w, Insert(pad));
    }
  }

  lemma ReceiveStart(v: Variant, wire: seq<byte>)
    ensures Receiving(v, wire, World(wire, FIRST, [], wire)) && Unread(World(wire, FIRST, [], wire)) == wire
  {}

  lemma ReceivingPlaced(v: Variant, wire: seq<byte>, w: World)
    requires Receiving(v, wire, w)
    ensures Placed(w.mem, w.s) && w.arrived == wire && Inv(v, w)
  {}

  lemma RoomKeeps(v: Variant, w: World, pad: seq<byte>)
    requires Placed(w.mem, w.s)
    ensures var w' := Apply(v, w, Insert(pad));
            w'.s.curr <= |w'.mem| && Unread(w') == Unread(w) && w'.got == w.got
  {}
}

/** From messages to messages: the encoder called once for every chunk, and the caller of the decoder. */
module CobsTransfer {
  import opened Bytes
  import opened CobsFormat
  import opened CobsEncoder
  import opened CobsEncode
  import opened CobsSize
  import CobsReceive

  /** Room for a stream of messages. */
  function Room(v: Variant, stream: seq<seq<seq<byte>>>): nat {
    if stream == [] then 0 else Bound(v, |Concat(stream[0])|) + Room(v, stream[1..])
  }

  /** Only the first message may be empty: behind others the encoder does not encode it. */
  predicate Solid(stream: seq<seq<seq<byte>>>) {
    forall i :: 0 < i < |stream| ==> Concat(stream[i]) != []
  }

  /** The bytes of a buffer with room for a message have room for its first chunks. */
  lemma ChunkRoom(v: Variant, fin: seq<byte>, chunks: seq<seq<byte>>, i: nat, size: nat)
    requires i <= |chunks| && |fin| + Bound(v, |Concat(chunks)|) <= size
    ensures Extent(Chunks(v, Enc(fin, false, []), chunks[..i])) < size
  {
    var some := chunks[..i];
    ChunksThrifty(v, Enc(fin, false, []), some);
    ThriftyBound(v, fin, |Concat(some)|, Chunks(v, Enc(fin, false, []), some));
    ConcatPrefix(chunks, i);
  }

  lemma {:induction false} ConcatPrefix(chunks: seq<seq<byte>>, i: nat)
    requires i <= |chunks|
    ensures |Concat(chunks[..i])| <= |Concat(chunks)|
  {
    if i > 0 {
      assert chunks[..i][1..] == chunks[1..][..i - 1];
      ConcatPrefix(chunks[1..], i - 1);
    }
  }

  lemma {:induction false} ChunksSnoc(v: Variant, e: Enc, chunks: seq<seq<byte>>, i: nat)
    requires |e.open| + 1 < MaxLen(v) && i < |chunks|
    ensures Chunks(v, e, chunks[..i + 1]) == Chunk(v, Chunks(v, e, chunks[..i]), chunks[i])
    decreases i
  {
    if i == 0 {
      assert chunks[..1][1..] == [] && chunks[..0] == [];
    } else {
      assert chunks[..i + 1][1..] == chunks[1..][..i] && chunks[..i][1..] == chunks[1..][..i - 1];
      ChunksSnoc(v, Chunk(v, e, chunks[0]), chunks[1..], i - 1);
    }
  }

  /** A call with room takes the whole chunk. */
  lemma TakesChunk(v: Variant, e: Enc, chunk: seq<byte>, size: nat, view: Enc, r: int)
    requires |e.open| + 1 < MaxLen(v) && Extent(Chunk(v, e, chunk)) < size
    requires view.begun && Pushed(v, e, chunk, size, view, r)
    ensures r == |chunk| && view == Chunk(v, e, chunk)
  {
    FitsSuffice(v, e, chunk, size);
    assert Extent(Chunk(v, e, chunk[..r])) < size;
    assert chunk[..|chunk|] == chunk;
  }

  /** A message has begun as soon as one of its bytes was encoded. */
  lemma {:induction false} ChunkBegun(v: Variant, e: Enc, chunk: seq<byte>)
    requires |e.open| + 1 < MaxLen(v)
    ensures Chunk(v, e, chunk).begun <==> e.begun || chunk != []
    decreases |chunk|
  {
    if chunk != [] {
      var (e', n) := Take(v, e, chunk);
      ChunkBegun(v, e', chunk[n..]);
    }
  }

  lemma {:induction false} ChunksBegun(v: Variant, e: Enc, chunks: seq<seq<byte>>)
    requires |e.open| + 1 < MaxLen(v)
    ensures Chunks(v, e, chunks).begun <==> e.begun || Concat(chunks) != []
    decreases |chunks|
  {
    if chunks != [] {
      ChunkBegun(v, e, chunks[0]);
      ChunksBegun(v, Chunk(v, e, chunks[0]), chunks[1..]);
    }
  }

  /** One chunk: an empty one is refused and changes nothing. */
  method SendChunk(v: Variant, s: Encoder, buf: array<byte>, chunk: seq<byte>, ghost e: Enc)
    requires s.Fits(v, buf.Length) && s.View(buf) == e && Extent(e) < buf.Length && Extent(Chunk(v, e, chunk)) < buf.Length
    modifies s, buf
    ensures s.Fits(v, buf.Length) && s.View(buf) == Chunk(v, e, chunk)
  {
    hide Pushed, Terminate, Chunk;
    var r := s.Encode(v, buf, buf.Length, Data(chunk));
    if chunk == [] {
      NoChunk(v, e);
    } else {
      TakesChunk(v, e, chunk, buf.Length, s.View(buf), r);
    }
  }

  lemma NoChunk(v: Variant, e: Enc)
    requires |e.open| + 1 < MaxLen(v)
    ensures Chunk(v, e, []) == e
  {}

  /** One message: a call for each chunk, and one to finish. */
  method SendMessage(v: Variant, s: Encoder, buf: array<byte>, chunks: seq<seq<byte>>, ghost fin: seq<byte>)
    requires s.Fits(v, buf.Length) && s.scratch == 0 && buf[..s.done] == fin
    requires Concat(chunks) != [] || fin == []
    requires |fin| + Bound(v, |Concat(chunks)|) <= buf.Length
    modifies s, buf
    ensures s.Fits(v, buf.Length) && s.scratch == 0
    ensures buf[..s.done] == Terminate(v, Chunks(v, Enc(fin, false, []), chunks))
  {
    hide Pushed, Terminate, Bound, Inline, Concat, Chunks, Chunk;
    ghost var e := Enc(fin, false, []);
    assert s.View(buf) == e && chunks[..0] == [];
    NoChunks(v, e);
    for i := 0 to |chunks|
      invariant s.Fits(v, buf.Length) && s.View(buf) == Chunks(v, e, chunks[..i])
    {
      ChunksSnoc(v, e, chunks, i);
      ChunkRoom(v, fin, chunks, i, buf.Length);
      ChunkRoom(v, fin, chunks, i + 1, buf.Length);
      SendChunk(v, s, buf, chunks[i], s.View(buf));
    }
    assert chunks[..|chunks|] == chunks;
    ChunkRoom(v, fin, chunks, |chunks|, buf.Length);
    ChunksBegun(v, e, chunks);
    Untouched(v, e, chunks);
    var r := s.Encode(v, buf, buf.Length, Finish);
  }

  lemma NoChunks(v: Variant, e: Enc)
    requires |e.open| + 1 < MaxLen(v)
    ensures Chunks(v, e, []) == e
  {}

  /** Without bytes nothing is encoded. */
  lemma {:induction false} Untouched(v: Variant, e: Enc, chunks: seq<seq<byte>>)
    requires |e.open| + 1 < MaxLen(v)
    ensures Concat(chunks) == [] ==> Chunks(v, e, chunks) == e
    decreases |chunks|
  {
    if chunks != [] && Concat(chunks) == [] {
      assert chunks[0] == [] && Concat(chunks[1..]) == [];
      Untouched(v, e, chunks[1..]);
    }
  }

  /** All messages of a stream, into a buffer with room. */
  method SendAll(v: Variant, stream: seq<seq<seq<byte>>>) returns (wire: seq<byte>)
    requires Solid(stream)
    ensures wire == Stream(v, [], stream)
  {
    var buf := new byte[Room(v, stream)];
    var s := new Encoder();
    ghost var fin: seq<byte> := [];
    assert stream[0..] == stream;
    for i := 0 to |stream|
      invariant fresh(s) && fresh(buf) && s.Fits(v, buf.Length) && s.scratch == 0
      invariant buf[..s.done] == fin && (fin == [] ==> i == 0)
      invariant |fin| + Room(v, stream[i..]) <= buf.Length
      invariant Stream(v, fin, stream[i..]) == Stream(v, [], stream)
    {
      assert stream[i..][0] == stream[i] && stream[i..][1..] == stream[i + 1..];
      SizeBound(v, fin, stream[i]);
      SendMessage(v, s, buf, stream[i], fin);
      fin := buf[..s.done];
    }
    assert stream[|stream|..] == [];
    wire := buf[..s.done];
  }

  /** The round trip, for all four variants: any messages in any chunks, encoded, and decoded in place
      from buffers anywhere in memory, come out as they went in. */
  method Transfer(v: Variant, stream: seq<seq<seq<byte>>>, where: nat -> nat) returns (got: seq<seq<byte>>)
    requires Solid(stream)
    ensures got == Messages(stream)
  {
    hide Stream, Messages, Run;
    var wire := SendAll(v, stream);
    StreamReads(v, stream);
    got := CobsReceive.Receive(v, wire, where, Messages(stream));
  }
}
