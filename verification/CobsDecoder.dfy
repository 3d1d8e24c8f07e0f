/** The decoder call on flat memory: input is read at `r` and the decoded bytes are written, into
    the same memory, at `w`.  The scatter list of the real call is the subject of CobsScatter. */
module CobsDecoder {
  import opened Bytes
  import opened CobsFormat

  const BAD_ARGUMENT := -0x1
  const BAD_VALUE := -0x2
  const MISSING_DATA := -0x10
  const MISSING_BUFFER := -0x11

  datatype Out = Out(mem: seq<byte>, w: nat, r: nat, code: byte, pos: nat, ret: int)

  /** One memory access per step.  The gap `r - w` is the source's `proc`. */
  function Loop(v: Variant, mem: seq<byte>, w: nat, r: nat, code: byte, pos: nat): (o: Out)
    requires w <= r <= |mem|
    ensures w <= o.w <= o.r <= |o.mem| == |mem| && r <= o.r && (o.ret == MISSING_DATA ==> o.r < |mem| && o.code != 0)
    ensures (pos <= 255 ==> o.pos <= 255) && (o.code == 0 ==> o.pos == 0)
    decreases |mem| - r, if pos < 258 then 258 - pos else 0
  {
    if code == 0 then Out(mem, w, r, 0, 0, 1)
    else if r == |mem| then Out(mem, w, r, code, pos, 0)
    else if pos < LenData(v, code) then
      if mem[r] == 0 then Out(mem, w, r, code, pos, MISSING_DATA)
      else if w == r then Out(mem, w, r, code, pos, 0)
      else Loop(v, mem[w := mem[r]], w + 1, r + 1, code, pos + 1)
    else if pos < LenData(v, code) + LenZero(v, code, mem[r]) then
      if w == r then Out(mem, w, r, code, pos, MISSING_BUFFER)
      else Loop(v, mem[w := 0], w + 1, r, code, pos + 1)
    else Loop(v, mem, w, r + 1, mem[r], 0)
  }

  /** The tail variants turn a zero inside a block into the inlined last byte. */
  function Tail(v: Variant, o: Out): Out
    requires o.ret == MISSING_DATA ==> o.w < |o.mem|
  {
    if v.tail && o.ret == MISSING_DATA then Out(o.mem[o.w := o.code], o.w + 1, o.r + 1, 0, 0, 1) else o
  }

  /** The decoder holds what the automaton read, plus zeros written ahead for a code it has seen but
      not consumed. */
  ghost predicate Sync(v: Variant, cur: Reader, code: byte, pos: nat, out: seq<byte>, unread: seq<byte>) {
    code != 0 && cur.code == code && cur.pos <= LenData(v, code) && cur.pos <= pos && cur.pos <= |cur.out| &&
    out == cur.out + Zeros(pos - cur.pos) &&
    (cur.pos < pos ==>
      cur.pos == LenData(v, code) && unread != [] && pos <= LenData(v, code) + LenZero(v, code, unread[0]))
  }

  /** Gap the decoder needs to get past the next byte. */
  function Need(v: Variant, code: byte, pos: nat, next: byte): nat
    requires code != 0
  {
    if pos < LenData(v, code) then (if next == 0 then 0 else 1)
    else if pos < LenData(v, code) + LenZero(v, code, next) then LenData(v, code) + LenZero(v, code, next) - pos
    else 0
  }

  /** What a run of the loop leaves unchanged, and what it stops for. */
  ghost predicate Stopped(v: Variant, mem: seq<byte>, base: nat, r: nat, o: Out) {
    base <= o.w <= o.r && r <= o.r <= |mem| == |o.mem| &&
    o.mem[..base] == mem[..base] && o.mem[o.r..] == mem[o.r..] &&
    (o.ret == 1 || o.code != 0) &&
    match o.ret
    case 1 => o.code == 0 && o.pos == 0
    case 0 => o.r == |mem| || (o.w == o.r && o.pos < LenData(v, o.code) && mem[o.r] != 0)
    case -0x10 => o.r < |mem| && mem[o.r] == 0 && o.pos < LenData(v, o.code)
    case -0x11 => o.w == o.r < |mem| && o.pos >= LenData(v, o.code) && Need(v, o.code, o.pos, mem[o.r]) > 0
    case _ => false
  }

  ghost predicate Reads(v: Variant, msgs: seq<seq<byte>>, f: Feed, base: nat, o: Out)
    requires base <= o.w <= |o.mem| && o.r <= |o.mem|
  {
    if o.ret == 1 then f == Going(msgs + [o.mem[base..o.w]], START)
    else f.Going? && f.msgs == msgs && Sync(v, f.cur, o.code, o.pos, o.mem[base..o.w], o.mem[o.r..])
  }

  lemma SyncData(v: Variant, mem: seq<byte>, base: nat, w: nat, r: nat, code: byte, pos: nat,
                 msgs: seq<seq<byte>>, cur: Reader)
    requires base <= w < r < |mem| && Sync(v, cur, code, pos, mem[base..w], mem[r..])
    requires pos < LenData(v, code) && mem[r] != 0
    ensures var mem' := mem[w := mem[r]];
            var cur' := Reader(code, pos + 1, cur.out + [mem[r]]);
            && Step(v, Going(msgs, cur), mem[r]) == Going(msgs, cur')
            && Sync(v, cur', code, pos + 1, mem'[base..w + 1], mem'[r + 1..])
  {
    var mem' := mem[w := mem[r]];
    assert mem'[base..w + 1] == mem[base..w] + [mem[r]];
    assert cur.out + Zeros(0) == cur.out;
    assert (cur.out + [mem[r]]) + Zeros(0) == cur.out + [mem[r]];
  }

  lemma SyncZero(v: Variant, mem: seq<byte>, base: nat, w: nat, r: nat, code: byte, pos: nat, cur: Reader)
    requires base <= w < r < |mem| && Sync(v, cur, code, pos, mem[base..w], mem[r..])
    requires LenData(v, code) <= pos < LenData(v, code) + LenZero(v, code, mem[r])
    ensures var mem' := mem[w := 0];
            Sync(v, cur, code, pos + 1, mem'[base..w + 1], mem'[r..])
  {
    var mem' := mem[w := 0];
    assert mem'[base..w + 1] == mem[base..w] + [0];
    assert Zeros(pos - cur.pos) + [0] == Zeros(pos + 1 - cur.pos);
    assert cur.out + Zeros(pos - cur.pos) + [0] == cur.out + (Zeros(pos - cur.pos) + [0]);
  }

  lemma SyncNext(v: Variant, out: seq<byte>, unread: seq<byte>, code: byte, pos: nat,
                 msgs: seq<seq<byte>>, cur: Reader)
    requires unread != [] && Sync(v, cur, code, pos, out, unread)
    requires pos >= LenData(v, code) + LenZero(v, code, unread[0])
    ensures var b := unread[0];
            Step(v, Going(msgs, cur), b) ==
              if b == 0 then Going(msgs + [out], START) else Going(msgs, Reader(b, 0, out))
    ensures unread[0] != 0 ==> Sync(v, Reader(unread[0], 0, out), unread[0], 0, out, unread[1..])
  {
    assert Owed(v, cur, unread[0]) == pos - cur.pos;
    assert out + Zeros(0) == out;
  }

  /** A step that leaves memory from `r'` on and below `base` alone keeps the loop's promises. */
  lemma StoppedStep(v: Variant, mem: seq<byte>, mem': seq<byte>, base: nat, r: nat, r': nat, o: Out)
    requires r <= r' <= |mem| == |mem'| && base <= |mem| && mem'[..base] == mem[..base] && mem'[r'..] == mem[r'..]
    requires Stopped(v, mem', base, r', o)
    ensures Stopped(v, mem, base, r, o)
  {
    assert mem[o.r..] == mem[r'..][o.r - r'..];
    assert mem'[o.r..] == mem'[r'..][o.r - r'..];
    assert o.r < |mem| ==> mem[o.r] == mem[o.r..][0] && mem'[o.r] == mem'[o.r..][0];
  }

  lemma Consumed(v: Variant, s: Feed, mem: seq<byte>, mem': seq<byte>, r: nat, end: nat)
    requires r < end <= |mem| == |mem'| && mem'[r + 1..] == mem[r + 1..]
    ensures Run(v, s, mem[r..end]) == Run(v, Step(v, s, mem[r]), mem'[r + 1..end])
  {
    assert mem[r..end][1..] == mem[r + 1..][..end - r - 1] == mem'[r + 1..][..end - r - 1] == mem'[r + 1..end];
  }

  /** From automaton state `cur` the loop ended in `o`, and did what the automaton does. */
  ghost predicate Follows(v: Variant, mem: seq<byte>, base: nat, r: nat, msgs: seq<seq<byte>>, cur: Reader, o: Out) {
    Stopped(v, mem, base, r, o) && Reads(v, msgs, Run(v, Going(msgs, cur), mem[r..o.r]), base, o)
  }

  /** A step that consumes the byte at `r`. */
  lemma FollowsByte(v: Variant, mem: seq<byte>, mem': seq<byte>, base: nat, r: nat, msgs: seq<seq<byte>>,
                    cur: Reader, cur': Reader, o: Out)
    requires base <= r < |mem| == |mem'| && mem'[..base] == mem[..base] && mem'[r + 1..] == mem[r + 1..]
    requires Step(v, Going(msgs, cur), mem[r]) == Going(msgs, cur')
    requires Follows(v, mem', base, r + 1, msgs, cur', o)
    ensures Follows(v, mem, base, r, msgs, cur, o)
  {
    StoppedStep(v, mem, mem', base, r, r + 1, o);
    Consumed(v, Going(msgs, cur), mem, mem', r, o.r);
  }

  /** A step that only writes. */
  lemma FollowsWrite(v: Variant, mem: seq<byte>, mem': seq<byte>, base: nat, r: nat, msgs: seq<seq<byte>>,
                     cur: Reader, o: Out)
    requires base <= r <= |mem| == |mem'| && mem'[..base] == mem[..base] && mem'[r..] == mem[r..]
    requires Follows(v, mem', base, r, msgs, cur, o)
    ensures Follows(v, mem, base, r, msgs, cur, o)
  {
    StoppedStep(v, mem, mem', base, r, r, o);
    assert mem'[r..o.r] == mem'[r..][..o.r - r] == mem[r..][..o.r - r] == mem[r..o.r];
  }

  /** The terminator. */
  lemma FollowsEnd(v: Variant, mem: seq<byte>, base: nat, w: nat, r: nat, msgs: seq<seq<byte>>, cur: Reader)
    requires base <= w <= r < |mem|
    requires Step(v, Going(msgs, cur), mem[r]) == Going(msgs + [mem[base..w]], START)
    ensures Follows(v, mem, base, r, msgs, cur, Out(mem, w, r + 1, 0, 0, 1))
  {
    assert mem[r..r + 1] == [mem[r]];
    RunOne(v, Going(msgs, cur), mem[r]);
  }

  /** The cases in which the loop ends without a message. */
  lemma FollowsStop(v: Variant, mem: seq<byte>, base: nat, w: nat, r: nat, code: byte, pos: nat,
                    msgs: seq<seq<byte>>, cur: Reader)
    requires base <= w <= r <= |mem| && Sync(v, cur, code, pos, mem[base..w], mem[r..])
    requires r == |mem| || (w == r && Need(v, code, pos, mem[r]) > 0) || (pos < LenData(v, code) && mem[r] == 0)
    ensures Follows(v, mem, base, r, msgs, cur, Loop(v, mem, w, r, code, pos))
  {
    assert mem[r..r] == [];
  }

  /** One step of the loop: a data byte. */
  lemma LoopData(v: Variant, mem: seq<byte>, w: nat, r: nat, code: byte, pos: nat)
    requires w < r < |mem| && code != 0 && pos < LenData(v, code) && mem[r] != 0
    ensures Loop(v, mem, w, r, code, pos) == Loop(v, mem[w := mem[r]], w + 1, r + 1, code, pos + 1)
  {}

  /** A zero of the block. */
  lemma LoopZero(v: Variant, mem: seq<byte>, w: nat, r: nat, code: byte, pos: nat)
    requires w < r < |mem| && code != 0 && LenData(v, code) <= pos < LenData(v, code) + LenZero(v, code, mem[r])
    ensures Loop(v, mem, w, r, code, pos) == Loop(v, mem[w := 0], w + 1, r, code, pos + 1)
  {}

  /** The next code. */
  lemma LoopNext(v: Variant, mem: seq<byte>, w: nat, r: nat, code: byte, pos: nat)
    requires w <= r < |mem| && code != 0 && pos >= LenData(v, code) + LenZero(v, code, mem[r])
    ensures Loop(v, mem, w, r, code, pos) == Loop(v, mem, w, r + 1, mem[r], 0)
  {}

  /** The stops within the data of a block. */
  lemma LoopStops(v: Variant, mem: seq<byte>, w: nat, r: nat, code: byte, pos: nat)
    requires w <= r <= |mem| && code != 0 && pos < LenData(v, code)
    ensures r == |mem| ==> Loop(v, mem, w, r, code, pos) == Out(mem, w, r, code, pos, 0)
    ensures r < |mem| && mem[r] == 0 ==> Loop(v, mem, w, r, code, pos) == Out(mem, w, r, code, pos, MISSING_DATA)
    ensures r < |mem| && mem[r] != 0 && w == r ==> Loop(v, mem, w, r, code, pos) == Out(mem, w, r, code, pos, 0)
  {}

  /** The end of the message, of the input, and of the room. */
  lemma LoopEnds(v: Variant, mem: seq<byte>, w: nat, r: nat, code: byte, pos: nat)
    requires w <= r <= |mem|
    ensures code == 0 ==> Loop(v, mem, w, r, code, pos) == Out(mem, w, r, 0, 0, 1)
    ensures code != 0 && r == |mem| ==> Loop(v, mem, w, r, code, pos) == Out(mem, w, r, code, pos, 0)
  {}

  /** In-place decoding follows the automaton: reading and writing the same memory, the loop leaves
      unread input alone and produces what the automaton makes of the bytes consumed. */
  lemma {:induction false} LoopFollows(v: Variant, mem: seq<byte>, base: nat, w: nat, r: nat, code: byte, pos: nat,
                    msgs: seq<seq<byte>>, cur: Reader)
    requires base <= w <= r <= |mem| && code != 0
    requires Sync(v, cur, code, pos, mem[base..w], mem[r..])
    ensures Follows(v, mem, base, r, msgs, cur, Loop(v, mem, w, r, code, pos))
    decreases |mem| - r, if pos < 258 then 258 - pos else 0
  {
    hide Follows, Sync, Step, Loop;
    var o := Loop(v, mem, w, r, code, pos);
    if r == |mem| || (w == r && Need(v, code, pos, mem[r]) > 0) || (pos < LenData(v, code) && mem[r] == 0) {
      FollowsStop(v, mem, base, w, r, code, pos, msgs, cur);
    } else if pos < LenData(v, code) {
      var mem' := mem[w := mem[r]];
      var cur' := Reader(code, pos + 1, cur.out + [mem[r]]);
      SyncData(v, mem, base, w, r, code, pos, msgs, cur);
      LoopData(v, mem, w, r, code, pos);
      LoopFollows(v, mem', base, w + 1, r + 1, code, pos + 1, msgs, cur');
      FollowsByte(v, mem, mem', base, r, msgs, cur, cur', o);
    } else if pos < LenData(v, code) + LenZero(v, code, mem[r]) {
      var mem' := mem[w := 0];
      SyncZero(v, mem, base, w, r, code, pos, cur);
      LoopZero(v, mem, w, r, code, pos);
      LoopFollows(v, mem', base, w + 1, r, code, pos + 1, msgs, cur);
      FollowsWrite(v, mem, mem', base, r, msgs, cur, o);
    } else {
      SyncNext(v, mem[base..w], mem[r..], code, pos, msgs, cur);
      LoopNext(v, mem, w, r, code, pos);
      if mem[r] == 0 {
        LoopEnds(v, mem, w, r + 1, 0, 0);
        FollowsEnd(v, mem, base, w, r, msgs, cur);
      } else {
        var cur' := Reader(mem[r], 0, mem[base..w]);
        assert mem[r..][1..] == mem[r + 1..];
        LoopFollows(v, mem, base, w, r + 1, mem[r], 0, msgs, cur');
        FollowsByte(v, mem, mem, base, r, msgs, cur, cur', o);
      }
    }
  }
}
