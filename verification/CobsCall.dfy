/** One decoder call, and every run of calls, arrivals and buffer insertions. */
module CobsCall {
  import opened Bytes
  import opened CobsFormat
  import opened CobsEncoder
  import opened CobsDecoder

  /** The fields of `decode_state`: the packed word, the input position and the decoded data. */
  datatype State = State(code: byte, pos: nat, curr: nat, dpos: nat, dlen: nat, msg: int)

  const FIRST := State(0, 0, 0, 0, 0, -1)

  ghost predicate Placed(mem: seq<byte>, s: State) {
    s.dpos + s.dlen <= s.curr <= |mem| && (s.msg == -1 || s.msg == s.dlen) && (s.code == 0 ==> s.pos == 0)
  }

  /** Space between the decoded data and the input. */
  function Gap(s: State): nat
    requires s.dpos + s.dlen <= s.curr
  {
    s.curr - s.dpos - s.dlen
  }

  /** A call starts new data, behind the old, unless a message is in progress. */
  predicate Fresh(s: State) {
    s.msg >= 0 || s.dlen == 0
  }

  datatype Result = Result(mem: seq<byte>, s: State, ret: int)

  /** `shift` bytes of the gap go to the alignment of new data. */
  function Begin(s: State, shift: nat): (dpos: nat) {
    if Fresh(s) then s.dpos + s.dlen + shift else s.dpos
  }

  function Call(v: Variant, mem: seq<byte>, s: State, shift: nat): (res: Result)
    requires Placed(mem, s) && shift <= Gap(s)
    ensures |res.mem| == |mem|
  {
    var dpos := Begin(s, shift);
    var w := if Fresh(s) then dpos else s.dpos + s.dlen;
    if s.code == 0 && s.curr == |mem| then
      Result(mem, State(0, 0, s.curr, dpos, w - dpos, -1), 0)
    else if s.code == 0 && mem[s.curr] == 0 then
      Result(mem, State(0, 0, s.curr + 1 - w, dpos, w - dpos, -1), BAD_VALUE)
    else
      var o := Tail(v, if s.code == 0 then Loop(v, mem, w, s.curr + 1, mem[s.curr], 0)
                       else Loop(v, mem, w, s.curr, s.code, s.pos));
      Result(o.mem, State(o.code, o.pos, o.r, dpos, o.w - dpos, if o.ret == 1 then o.w - dpos else -1), o.ret)
  }

  /** The decoder stands where the automaton does after the bytes consumed so far. */
  ghost predicate Holds(v: Variant, mem: seq<byte>, s: State, f: Feed) {
    Placed(mem, s) && f.Going? &&
    if s.code == 0 then f.cur == START && Fresh(s)
    else s.msg == -1 && Sync(v, f.cur, s.code, s.pos, mem[s.dpos..s.dpos + s.dlen], mem[s.curr..])
  }

  lemma {:induction false} BrokenStays(v: Variant, s: Feed, input: seq<byte>)
    requires s.Broken?
    ensures Run(v, s, input) == s
    decreases |input|
  {
    if input != [] {
      BrokenStays(v, s, input[1..]);
    }
  }

  lemma PrefixUnbroken(v: Variant, s: Feed, input: seq<byte>, n: nat)
    requires n <= |input| && !Run(v, s, input).Broken?
    ensures !Run(v, s, input[..n]).Broken?
  {
    assert input == input[..n] + input[n..];
    RunConcat(v, s, input[..n], input[n..]);
    if Run(v, s, input[..n]).Broken? {
      BrokenStays(v, Run(v, s, input[..n]), input[n..]);
    }
  }

  lemma RunNext(v: Variant, s: Feed, mem: seq<byte>, r: nat, end: nat)
    requires r <= end < |mem|
    ensures Run(v, s, mem[r..end + 1]) == Step(v, Run(v, s, mem[r..end]), mem[end])
  {
    assert mem[r..end + 1] == mem[r..end] + [mem[end]];
    RunConcat(v, s, mem[r..end], [mem[end]]);
    RunOne(v, Run(v, s, mem[r..end]), mem[end]);
  }

  /** A message cut short by a terminator ends, in the tail variants, with the byte that was read as
      its last code. */
  lemma TailFollows(v: Variant, mem: seq<byte>, base: nat, r: nat, msgs: seq<seq<byte>>, cur: Reader, o: Out)
    requires base <= r <= |mem| && Follows(v, mem, base, r, msgs, cur, o)
    requires !Run(v, Going(msgs, cur), mem[r..]).Broken?
    ensures Follows(v, mem, base, r, msgs, cur, Tail(v, o)) && Tail(v, o).ret != MISSING_DATA
  {
    if o.ret == MISSING_DATA {
      var s := Going(msgs, cur);
      var f := Run(v, s, mem[r..o.r]);
      RunNext(v, s, mem, r, o.r);
      assert mem[r..][..o.r + 1 - r] == mem[r..o.r + 1];
      PrefixUnbroken(v, s, mem[r..], o.r + 1 - r);
      hide Run;
      assert f.cur.out + Zeros(0) == f.cur.out;
      var t := Tail(v, o);
      assert t.mem[base..t.w] == o.mem[base..o.w] + [o.code];
      assert t.mem[t.r..] == o.mem[o.r..][1..] && mem[t.r..] == mem[o.r..][1..];
    }
  }

  /** What one call does, on input that does not break the format. */
  ghost predicate Correct(v: Variant, mem: seq<byte>, s: State, f: Feed, res: Result)
    requires s.curr <= |mem|
  {
    var s' := res.s;
    s.curr <= s'.curr <= |mem| == |res.mem| &&
    s'.dpos <= |mem| && res.mem[..s'.dpos] == mem[..s'.dpos] && res.mem[s'.curr..] == mem[s'.curr..] &&
    var f' := Run(v, f, mem[s.curr..s'.curr]);
    Holds(v, res.mem, s', f') &&
    match res.ret
    case 1 => s'.msg == s'.dlen && f' == Going(f.msgs + [res.mem[s'.dpos..s'.dpos + s'.dlen]], START)
    case 0 => f'.msgs == f.msgs &&
      (s'.curr == |mem| || (Gap(s') == 0 && s'.code != 0 && Need(v, s'.code, s'.pos, mem[s'.curr]) > 0))
    case -0x11 => f'.msgs == f.msgs &&
      s'.curr < |mem| && Gap(s') == 0 && s'.code != 0 && Need(v, s'.code, s'.pos, mem[s'.curr]) > 0
    case _ => false
  }

  lemma LoopCorrect(v: Variant, mem: seq<byte>, s: State, f: Feed, r: nat, dpos: nat, cur: Reader, o: Out)
    requires s.curr <= r <= |mem| && dpos <= r && f.Going?
    requires Run(v, f, mem[s.curr..r]) == Going(f.msgs, cur)
    requires Follows(v, mem, dpos, r, f.msgs, cur, o) && o.ret != MISSING_DATA
    ensures Correct(v, mem, s, f,
              Result(o.mem, State(o.code, o.pos, o.r, dpos, o.w - dpos, if o.ret == 1 then o.w - dpos else -1), o.ret))
  {
    hide Run, Sync;
    assert mem[s.curr..o.r] == mem[s.curr..r] + mem[r..o.r];
    RunConcat(v, f, mem[s.curr..r], mem[r..o.r]);
  }

  lemma CallStarts(v: Variant, mem: seq<byte>, s: State, shift: nat, f: Feed)
    requires Holds(v, mem, s, f) && shift <= Gap(s) && !Run(v, f, mem[s.curr..]).Broken?
    requires s.code == 0 && s.curr < |mem|
    ensures Correct(v, mem, s, f, Call(v, mem, s, shift))
  {
    hide Follows, Correct;
    var w := s.dpos + s.dlen + shift;
    var r, b := s.curr + 1, mem[s.curr];
    assert mem[s.curr..] == [b] + mem[r..] && mem[s.curr..r] == [b];
    RunConcat(v, f, [b], mem[r..]);
    RunOne(v, f, b);
    if b == 0 {
      BrokenStays(v, Step(v, f, b), mem[r..]);
      assert false;
    }
    var cur := Reader(b, 0, []);
    assert Step(v, f, b) == Going(f.msgs, cur);
    assert Sync(v, cur, b, 0, mem[w..w], mem[r..]) by {
      assert mem[w..w] == [] && [] + Zeros(0) == [];
    }
    LoopFollows(v, mem, w, w, r, b, 0, f.msgs, cur);
    var o := Loop(v, mem, w, r, b, 0);
    TailFollows(v, mem, w, r, f.msgs, cur, o);
    LoopCorrect(v, mem, s, f, r, w, cur, Tail(v, o));
  }

  lemma CallResumes(v: Variant, mem: seq<byte>, s: State, shift: nat, f: Feed)
    requires Holds(v, mem, s, f) && shift <= Gap(s) && !Run(v, f, mem[s.curr..]).Broken?
    requires s.code != 0
    ensures Correct(v, mem, s, f, Call(v, mem, s, shift))
  {
    hide Follows, Correct, Sync;
    var dpos := Begin(s, shift);
    var w := if Fresh(s) then dpos else s.dpos + s.dlen;
    assert mem[dpos..w] == mem[s.dpos..s.dpos + s.dlen];
    LoopFollows(v, mem, dpos, w, s.curr, s.code, s.pos, f.msgs, f.cur);
    var o := Loop(v, mem, w, s.curr, s.code, s.pos);
    TailFollows(v, mem, dpos, s.curr, f.msgs, f.cur, o);
    assert mem[s.curr..s.curr] == [];
    LoopCorrect(v, mem, s, f, s.curr, dpos, f.cur, Tail(v, o));
  }

  /** One call is correct: it follows the automaton over exactly the bytes it consumes, does not touch
      unread input or earlier data, and stops for a message, for more input or for lack of room. */
  lemma CallCorrect(v: Variant, mem: seq<byte>, s: State, shift: nat, f: Feed)
    requires Holds(v, mem, s, f) && shift <= Gap(s) && !Run(v, f, mem[s.curr..]).Broken?
    ensures Correct(v, mem, s, f, Call(v, mem, s, shift))
  {
    if s.code != 0 {
      CallResumes(v, mem, s, shift, f);
    } else if s.curr < |mem| {
      CallStarts(v, mem, s, shift, f);
    } else {
      assert mem[s.curr..s.curr] == [];
    }
  }
}
