/** When the in-place decoder has room: plain variants always, zero pairs with spare bytes, and the
    one way in which the alignment of new data takes the room away. */
module CobsRoom {
  import opened Bytes
  import opened CobsFormat
  import opened CobsEncoder
  import opened CobsDecoder
  import opened CobsCall
  import opened CobsRun

  /** The loop gets past the next byte exactly when the gap covers what that byte needs. */
  lemma {:induction false} LoopMoves(v: Variant, mem: seq<byte>, w: nat, r: nat, code: byte, pos: nat)
    requires w <= r < |mem| && code != 0 && !(pos < LenData(v, code) && mem[r] == 0)
    ensures Loop(v, mem, w, r, code, pos).r > r <==> Need(v, code, pos, mem[r]) <= r - w
    ensures Loop(v, mem, w, r, code, pos).r == r ==> Loop(v, mem, w, r, code, pos).ret != MISSING_DATA
    decreases LenData(v, code) + 2 - pos
  {
    if LenData(v, code) <= pos < LenData(v, code) + LenZero(v, code, mem[r]) && w < r {
      LoopMoves(v, mem[w := 0], w + 1, r, code, pos + 1);
    }
  }

  /** In the plain variants a code in hand always leaves a gap behind it. */
  lemma {:induction false} PlainLoop(v: Variant, mem: seq<byte>, w: nat, r: nat, code: byte, pos: nat)
    requires !v.zpe && code != 0 && w <= r <= |mem| && pos <= code
    requires if pos == code then r < |mem| else w < r
    ensures var o := Loop(v, mem, w, r, code, pos);
            && o.ret != MISSING_BUFFER && (o.ret == 0 ==> o.r == |mem|)
            && (o.code != 0 ==> o.w < o.r && o.pos < o.code)
    decreases |mem| - r, if pos < 258 then 258 - pos else 0
  {
    LoopEnds(v, mem, w, r, code, pos);
    if r < |mem| {
      if pos < LenData(v, code) {
        if mem[r] != 0 {
          LoopData(v, mem, w, r, code, pos);
          hide Loop;
          PlainLoop(v, mem[w := mem[r]], w + 1, r + 1, code, pos + 1);
        }
      } else if pos < LenData(v, code) + LenZero(v, code, mem[r]) {
        LoopZero(v, mem, w, r, code, pos);
        hide Loop;
        PlainLoop(v, mem[w := 0], w + 1, r, code, pos + 1);
      } else {
        LoopNext(v, mem, w, r, code, pos);
        LoopEnds(v, mem, w, r + 1, mem[r], 0);
        hide Loop;
        if mem[r] != 0 {
          PlainLoop(v, mem, w, r + 1, mem[r], 0);
        }
      }
    }
  }

  /** A held code has input space in front of it. */
  ghost predicate Snug(s: State) {
    s.code != 0 ==> s.dpos + s.dlen < s.curr && s.pos < s.code
  }

  /** The alignment uses up the whole gap while a code is held and nothing is decoded yet. */
  predicate Swallowed(s: State, shift: nat)
    requires s.dpos + s.dlen <= s.curr
  {
    s.code != 0 && Fresh(s) && shift == Gap(s)
  }

  /** In-place safety of the plain variants: unless the alignment swallows the gap of a held code, a
      call never asks for room and leaves a gap behind the next held code; when it wants more input
      it has consumed everything. */
  lemma PlainCall(v: Variant, mem: seq<byte>, s: State, shift: nat)
    requires !v.zpe && Placed(mem, s) && Snug(s) && shift <= Gap(s) && !Swallowed(s, shift)
    ensures var res := Call(v, mem, s, shift);
            && res.ret != MISSING_BUFFER && (res.ret == 0 ==> res.s.curr == |mem|)
            && (res.ret != BAD_VALUE ==> Snug(res.s))
  {
    var dpos := Begin(s, shift);
    var w := if Fresh(s) then dpos else s.dpos + s.dlen;
    if s.code != 0 {
      PlainLoop(v, mem, w, s.curr, s.code, s.pos);
    } else if s.curr < |mem| && mem[s.curr] != 0 {
      PlainLoop(v, mem, w, s.curr + 1, mem[s.curr], 0);
    }
  }

  /** Space a call has for data before the next unread byte. */
  function Room(s: State, shift: nat): int {
    s.curr - if Fresh(s) then Begin(s, shift) else s.dpos + s.dlen
  }

  /** The exact condition for progress, for all variants: with a held code and input waiting, a call
      consumes a byte if and only if the room left by the alignment covers what that byte needs. */
  lemma ProgressExactly(v: Variant, mem: seq<byte>, s: State, shift: nat, f: Feed)
    requires Holds(v, mem, s, f) && shift <= Gap(s)
    requires s.code != 0 && s.curr < |mem| && !Run(v, f, mem[s.curr..]).Broken?
    ensures Call(v, mem, s, shift).s.curr > s.curr <==> Need(v, s.code, s.pos, mem[s.curr]) <= Room(s, shift)
  {
    var w := s.curr - Room(s, shift);
    if s.pos < LenData(v, s.code) && mem[s.curr] == 0 {
      ZeroNeedsTail(v, mem, s, f);
    } else {
      LoopMoves(v, mem, w, s.curr, s.code, s.pos);
      hide Loop;
    }
  }

  /** In the plain variants only an alignment that swallows the gap of a held code stops the decoder. */
  lemma PlainProgress(v: Variant, mem: seq<byte>, s: State, shift: nat, f: Feed)
    requires !v.zpe && Holds(v, mem, s, f) && Snug(s) && shift <= Gap(s)
    requires s.code != 0 && s.curr < |mem| && !Run(v, f, mem[s.curr..]).Broken?
    ensures Call(v, mem, s, shift).s.curr > s.curr <==> !(Swallowed(s, shift) && mem[s.curr] != 0)
  {
    hide Call, Run;
    ProgressExactly(v, mem, s, shift, f);
    assert Fresh(s) ==> s.pos == 0;
  }

  /** A zero inside a block breaks the format unless tails are inlined. */
  lemma ZeroNeedsTail(v: Variant, mem: seq<byte>, s: State, f: Feed)
    requires Holds(v, mem, s, f) && s.code != 0 && s.curr < |mem| && !Run(v, f, mem[s.curr..]).Broken?
    requires s.pos < LenData(v, s.code) && mem[s.curr] == 0
    ensures v.tail
  {
    PrefixUnbroken(v, f, mem[s.curr..], 1);
    RunOne(v, f, 0);
    assert mem[s.curr..][..1] == [0];
  }

  /** No call of the run lets the alignment swallow the gap of a held code. */
  ghost predicate Roomy(v: Variant, w: World, evs: seq<Event>)
    decreases |evs|
  {
    evs == [] ||
    (Placed(w.mem, w.s) &&
     (evs[0].Decode? ==> evs[0].shift <= Gap(w.s) && !Swallowed(w.s, evs[0].shift)) &&
     Roomy(v, Apply(v, w, evs[0]), evs[1..]))
  }

  /** Every call returns a message, or asks for input when there is none left. */
  ghost predicate Answered(v: Variant, w: World, evs: seq<Event>)
    decreases |evs|
  {
    evs == [] ||
    (Placed(w.mem, w.s) &&
     (evs[0].Decode? ==>
       var res := Answer(v, w, evs[0].shift);
       res.ret == 1 || (res.ret == 0 && res.s.curr == |res.mem|)) &&
     Answered(v, Apply(v, w, evs[0]), evs[1..]))
  }

  lemma PlainStep(v: Variant, w: World, ev: Event)
    requires !v.zpe && Inv(v, w) && Snug(w.s) && !Run(v, INIT, w.arrived).Broken?
    requires ev.Decode? ==> ev.shift <= Gap(w.s) && !Swallowed(w.s, ev.shift)
    ensures Inv(v, Apply(v, w, ev)) && Snug(Apply(v, w, ev).s)
    ensures ev.Decode? ==>
              var res := Answer(v, w, ev.shift);
              res.ret == 1 || (res.ret == 0 && res.s.curr == |res.mem|)
  {
    hide Run, Call;
    match ev {
      case Arrive(bytes) => ArriveInv(v, w, bytes);
      case Insert(pad) => InsertInv(v, w, pad);
      case Decode(shift) =>
        DecodeInv(v, w, shift);
        PlainCall(v, w.mem, w.s, shift);
    }
  }

  /** In-place safety over whole runs of the plain variants. */
  lemma {:induction false} PlainRun(v: Variant, w: World, evs: seq<Event>)
    requires !v.zpe && Inv(v, w) && Snug(w.s) && Roomy(v, w, evs)
    requires !Run(v, INIT, w.arrived + Arrived(evs)).Broken?
    ensures Answered(v, w, evs) && Snug(Play(v, w, evs).s)
    decreases |evs|
  {
    hide Run, Call, Answer;
    if evs != [] {
      var w' := Apply(v, w, evs[0]);
      assert (w.arrived + Arrived(evs))[..|w.arrived|] == w.arrived;
      PrefixUnbroken(v, INIT, w.arrived + Arrived(evs), |w.arrived|);
      PlainStep(v, w, evs[0]);
      assert w'.arrived + Arrived(evs[1..]) == w.arrived + Arrived(evs);
      PlainRun(v, w', evs[1..]);
    }
  }

  /** The next byte is read as the code of a zero pair. */
  function PairCode(v: Variant, f: Feed, b: byte): nat {
    if f.Going? && IsPair(v, b) && (f.cur.code == 0 || f.cur.pos >= LenData(v, f.cur.code)) then 1 else 0
  }

  /** Zero-pair codes among the bytes read. */
  function Pairs(v: Variant, f: Feed, input: seq<byte>): nat
    decreases |input|
  {
    if input == [] then 0 else PairCode(v, f, input[0]) + Pairs(v, Step(v, f, input[0]), input[1..])
  }

  /** Decoded bytes, plus one for the code in hand and one more if it stands for a pair. */
  function Weight(v: Variant, r: Reader): nat {
    |r.out| + if r.code == 0 then 0 else if IsPair(v, r.code) then 2 else 1
  }

  /** Within a message the output outgrows the input only by the zero pairs read. */
  lemma {:induction false} OutputBound(v: Variant, f: Feed, input: seq<byte>)
    requires f.Going? && Run(v, f, input).Going? && Run(v, f, input).msgs == f.msgs
    ensures Weight(v, Run(v, f, input).cur) - Weight(v, f.cur) <= |input| + Pairs(v, f, input)
    decreases |input|
  {
    if input != [] {
      var f' := Step(v, f, input[0]);
      if f'.Broken? {
        BrokenStays(v, f', input[1..]);
        assert false;
      }
      MessagesGrow(v, f', input[1..]);
      OutputBound(v, f', input[1..]);
    }
  }

  /** Room left for the data of the current message, beyond what the automaton has read. */
  function Spare(v: Variant, s: State, shift: nat, f: Feed): int
    requires f.Going?
  {
    s.curr - Begin(s, shift) - Weight(v, f.cur)
  }

  /** The bytes a call consumes. */
  function Eaten(mem: seq<byte>, s: State, res: Result): seq<byte>
    requires s.curr <= res.s.curr <= |mem|
  {
    mem[s.curr..res.s.curr]
  }

  /** Within a message a call uses up at most one spare byte for each zero pair it reads. */
  lemma SpareStep(v: Variant, mem: seq<byte>, s: State, shift: nat, f: Feed)
    requires Holds(v, mem, s, f) && shift <= Gap(s) && !Run(v, f, mem[s.curr..]).Broken?
    requires Call(v, mem, s, shift).ret != 1
    ensures var res := Call(v, mem, s, shift);
            && s.curr <= res.s.curr <= |mem|
            && var f' := Run(v, f, Eaten(mem, s, res));
            && f'.Going? && f'.msgs == f.msgs
            && Spare(v, s, shift, f) - Pairs(v, f, Eaten(mem, s, res)) <= res.s.curr - res.s.dpos - Weight(v, f'.cur)
  {
    var res := Call(v, mem, s, shift);
    assert res.s.dpos == Begin(s, shift);
    CallCorrect(v, mem, s, shift, f);
    hide Call, Loop;
    OutputBound(v, f, mem[s.curr..res.s.curr]);
  }

  /** A decoder without room for the next byte has used up its spare bytes. */
  lemma NoRoom(v: Variant, mem: seq<byte>, s: State, f: Feed)
    requires Holds(v, mem, s, f) && s.code != 0 && s.curr < |mem| && Gap(s) == 0
    requires Need(v, s.code, s.pos, mem[s.curr]) > 0
    ensures s.curr - s.dpos < Weight(v, f.cur)
  {}

  /** Zero pairs need one spare byte each: a call that asks for room, from any state, has read more
      pair codes than there were spare bytes. */
  lemma SparePerPair(v: Variant, mem: seq<byte>, s: State, shift: nat, f: Feed)
    requires Holds(v, mem, s, f) && shift <= Gap(s) && !Run(v, f, mem[s.curr..]).Broken?
    requires Call(v, mem, s, shift).ret == MISSING_BUFFER
    ensures var res := Call(v, mem, s, shift);
            && s.curr <= res.s.curr <= |mem|
            && Pairs(v, f, Eaten(mem, s, res)) > Spare(v, s, shift, f)
  {
    hide Call, Run, Pairs;
    SpareStep(v, mem, s, shift, f);
    CallCorrect(v, mem, s, shift, f);
    var res := Call(v, mem, s, shift);
    NoRoom(v, res.mem, res.s, Run(v, f, Eaten(mem, s, res)));
  }

  /** Zero-pair codes up to the end of the current message. */
  function MessagePairs(v: Variant, f: Feed, input: seq<byte>): nat
    decreases |input|
  {
    if input == [] then 0
    else
      var f' := Step(v, f, input[0]);
      PairCode(v, f, input[0]) + if f'.msgs == f.msgs then MessagePairs(v, f', input[1..]) else 0
  }

  lemma {:induction false} MessagePairsSplit(v: Variant, f: Feed, a: seq<byte>, b: seq<byte>)
    requires Run(v, f, a).msgs == f.msgs
    ensures MessagePairs(v, f, a + b) == Pairs(v, f, a) + MessagePairs(v, Run(v, f, a), b)
    decreases |a|
  {
    if a == [] {
      assert a + b == b;
    } else {
      var f' := Step(v, f, a[0]);
      assert (a + b)[0] == a[0] && (a + b)[1..] == a[1..] + b;
      MessagesGrow(v, f', a[1..]);
      StepGrows(v, f, a[0]);
      MessagePairsSplit(v, f', a[1..], b);
    }
  }

  lemma StepGrows(v: Variant, f: Feed, b: byte)
    ensures f.msgs <= Step(v, f, b).msgs
  {}

  /** The bytes not consumed yet of all that will arrive. */
  ghost function Ahead(w: World, all: seq<byte>): seq<byte>
    requires w.s.curr <= |w.mem| && |Unread(w)| <= |w.arrived| <= |all|
  {
    all[|w.arrived| - |Unread(w)|..]
  }

  /** A message in progress has a spare byte for each pair code of its rest. */
  ghost predicate SpareInv(v: Variant, w: World, all: seq<byte>) {
    Inv(v, w) && w.arrived <= all &&
    (w.s.code != 0 ==>
       w.s.curr - w.s.dpos - Weight(v, Read(v, w).cur) >= MessagePairs(v, Read(v, w), Ahead(w, all)))
  }

  /** What the caller provides: when a call starts data, a spare byte for each pair code of the message. */
  ghost predicate Provided(v: Variant, w: World, all: seq<byte>, shift: nat)
    requires Inv(v, w) && w.arrived <= all
  {
    shift <= Gap(w.s) &&
    (Fresh(w.s) && (w.s.code == 0 || shift > 0) ==>
       Spare(v, w.s, shift, Read(v, w)) >= MessagePairs(v, Read(v, w), Ahead(w, all)))
  }

  lemma ProvidedSpare(v: Variant, w: World, all: seq<byte>, shift: nat)
    requires SpareInv(v, w, all) && Provided(v, w, all, shift)
    ensures Spare(v, w.s, shift, Read(v, w)) >= MessagePairs(v, Read(v, w), Ahead(w, all))
  {
    hide Run, MessagePairs;
  }

  /** What is ahead splits into the bytes a call consumes and what is ahead then. */
  lemma AheadSplit(v: Variant, w: World, all: seq<byte>, res: Result)
    requires Inv(v, w) && w.arrived <= all && Correct(v, w.mem, w.s, Read(v, w), res)
    ensures var w' := Took(w, res);
            && w'.s.curr <= |w'.mem| && |Unread(w')| <= |w'.arrived|
            && Ahead(w, all) == Eaten(w.mem, w.s, res) + Ahead(w', all)
            && Read(v, w') == Run(v, Read(v, w), Eaten(w.mem, w.s, res))
  {
    hide Run, Read, Holds, Correct;
    TookRead(v, w, res);
    CorrectMoves(v, w, res);
    var n := |w.arrived| - |Unread(w)|;
    RestSplit(w.arrived, all, n, w.mem, w.s.curr, res.s.curr);
  }

  lemma CorrectMoves(v: Variant, w: World, res: Result)
    requires Inv(v, w) && Correct(v, w.mem, w.s, Read(v, w), res)
    ensures w.s.curr <= res.s.curr <= |w.mem| == |res.mem|
  {
    hide Run, Read, Holds;
  }

  lemma RestSplit(arrived: seq<byte>, all: seq<byte>, n: nat, mem: seq<byte>, curr: nat, curr': nat)
    requires arrived <= all && n <= |arrived| && curr <= curr' <= |mem| && arrived[n..] == mem[curr..]
    ensures n + curr' - curr <= |all| && all[n..] == mem[curr..curr'] + all[n + curr' - curr..]
  {
    var k := curr' - curr;
    assert |arrived[n..]| == |mem[curr..]|;
    assert mem[curr..curr'] == mem[curr..][..k] == arrived[n..][..k] == all[n..n + k];
  }

  /** The spare bytes last as long as the message does. */
  lemma SpareKept(v: Variant, w: World, all: seq<byte>, shift: nat)
    requires SpareInv(v, w, all) && Provided(v, w, all, shift) && !Run(v, INIT, w.arrived).Broken?
    requires Answer(v, w, shift).ret != 1
    ensures var w' := Apply(v, w, Decode(shift));
            && Inv(v, w') && w'.arrived == w.arrived
            && w'.s.curr - w'.s.dpos - Weight(v, Read(v, w').cur) >= MessagePairs(v, Read(v, w'), Ahead(w', all))
  {
    var f := Read(v, w);
    DecodeInv(v, w, shift);
    ReadRest(v, w);
    ProvidedSpare(v, w, all, shift);
    hide Run, Read, Call, Correct, Holds, MessagePairs, Pairs, Weight, Ahead;
    var res := Answer(v, w, shift);
    SpareStep(v, w.mem, w.s, shift, f);
    AheadSplit(v, w, all, res);
    MessagePairsSplit(v, f, Eaten(w.mem, w.s, res), Ahead(Took(w, res), all));
  }

  /** One call with the spare bytes provided: a message, or all input consumed. */
  lemma PairCall(v: Variant, w: World, all: seq<byte>, shift: nat)
    requires SpareInv(v, w, all) && Provided(v, w, all, shift) && !Run(v, INIT, w.arrived).Broken?
    ensures SpareInv(v, Apply(v, w, Decode(shift)), all)
    ensures var res := Answer(v, w, shift);
            res.ret == 1 || (res.ret == 0 && res.s.curr == |res.mem|)
  {
    DecodeInv(v, w, shift);
    var res := Answer(v, w, shift);
    var w' := Apply(v, w, Decode(shift));
    if res.ret == 1 {
      DoneHolds(v, w, res);
    } else {
      SpareKept(v, w, all, shift);
      StallNeeds(v, w, res);
      hide Run, Read, Call, Correct, MessagePairs;
      if res.s.curr < |res.mem| {
        NoRoom(v, res.mem, res.s, Read(v, w'));
      }
    }
  }

  lemma DoneHolds(v: Variant, w: World, res: Result)
    requires Inv(v, w) && Correct(v, w.mem, w.s, Read(v, w), res) && res.ret == 1
    ensures res.s.code == 0
  {
    hide Run, Read;
  }

  /** A call that leaves input without a message wanted room for the next byte. */
  lemma StallNeeds(v: Variant, w: World, res: Result)
    requires Inv(v, w) && Correct(v, w.mem, w.s, Read(v, w), res) && res.ret != 1
    ensures Placed(res.mem, res.s) && (res.ret == 0 || res.ret == MISSING_BUFFER)
    ensures res.ret == MISSING_BUFFER ==> res.s.curr < |res.mem|
    ensures res.s.curr < |res.mem| ==>
              res.s.code != 0 && Gap(res.s) == 0 && Need(v, res.s.code, res.s.pos, res.mem[res.s.curr]) > 0
  {
    hide Run, Read, Sync;
    if res.s.curr < |res.mem| {
      assert res.mem[res.s.curr..][0] == w.mem[res.s.curr..][0];
    }
  }

  /** The caller provides spare bytes throughout a run. */
  ghost predicate Spared(v: Variant, w: World, all: seq<byte>, evs: seq<Event>)
    decreases |evs|
  {
    evs == [] ||
    (Inv(v, w) && w.arrived <= all &&
     (evs[0].Decode? ==> Provided(v, w, all, evs[0].shift)) &&
     Spared(v, Apply(v, w, evs[0]), all, evs[1..]))
  }

  lemma SpareArrive(v: Variant, w: World, all: seq<byte>, bytes: seq<byte>)
    requires SpareInv(v, w, all) && w.arrived + bytes <= all
    ensures SpareInv(v, Apply(v, w, Arrive(bytes)), all)
  {
    ArriveInv(v, w, bytes);
    var w' := Apply(v, w, Arrive(bytes));
    assert Read(v, w') == Read(v, w) by {
      var n := |w.arrived| - |Unread(w)|;
      assert w'.arrived[..n] == w.arrived[..n];
    }
    hide Run, Read, Inv, MessagePairs;
    assert Ahead(w', all) == Ahead(w, all);
  }

  lemma SpareInsert(v: Variant, w: World, all: seq<byte>, pad: seq<byte>)
    requires SpareInv(v, w, all)
    ensures SpareInv(v, Apply(v, w, Insert(pad)), all)
  {
    InsertInv(v, w, pad);
    var w' := Apply(v, w, Insert(pad));
    assert Unread(w') == Unread(w);
    assert Read(v, w') == Read(v, w);
    hide Run, Read, Inv, MessagePairs;
  }

  /** In-place safety over whole runs of all variants: with a spare byte for each zero pair of a message
      when its data starts, no call asks for room, and calls stop only for lack of input. */
  lemma {:induction false} PairRun(v: Variant, w: World, all: seq<byte>, evs: seq<Event>)
    requires SpareInv(v, w, all) && all == w.arrived + Arrived(evs) && Spared(v, w, all, evs)
    requires !Run(v, INIT, all).Broken?
    ensures Answered(v, w, evs) && SpareInv(v, Play(v, w, evs), all)
    decreases |evs|
  {
    hide Run, Call, Answer, SpareInv, Provided, Inv;
    SpareHas(v, w, all);
    if evs != [] {
      var w' := Apply(v, w, evs[0]);
      assert all[..|w.arrived|] == w.arrived;
      PrefixUnbroken(v, INIT, all, |w.arrived|);
      match evs[0] {
        case Arrive(bytes) =>
          assert w.arrived + bytes == all[..|w.arrived| + |bytes|];
          SpareArrive(v, w, all, bytes);
        case Insert(pad) => SpareInsert(v, w, all, pad);
        case Decode(shift) => PairCall(v, w, all, shift);
      }
      assert w'.arrived + Arrived(evs[1..]) == all;
      PairRun(v, w', all, evs[1..]);
    }
  }

  /** The invariant of the run holds at the start, for everything that may arrive. */
  lemma SpareStart(v: Variant, all: seq<byte>)
    ensures SpareInv(v, EMPTY, all)
  {
    EmptyInv(v);
  }

  lemma SpareHas(v: Variant, w: World, all: seq<byte>)
    requires SpareInv(v, w, all)
    ensures Inv(v, w) && w.arrived <= all && Placed(w.mem, w.s)
  {}

  /** A data byte and a zero pair, `n` times, as it is sent. */
  function PairBlocks(x: byte, n: nat): seq<byte> {
    if n == 0 then [1, 0] else [0xe1, x] + PairBlocks(x, n - 1)
  }

  function Triples(x: byte, n: nat): seq<byte> {
    if n == 0 then [] else [x, 0, 0] + Triples(x, n - 1)
  }

  /** That is what the encoder makes of it. */
  lemma {:induction false} PairWire(v: Variant, fin: seq<byte>, begun: bool, x: byte, n: nat)
    requires v.zpe && x != 0
    ensures Terminate(v, Chunk(v, Enc(fin, begun, []), Triples(x, n))) == fin + PairBlocks(x, n)
    decreases n
  {
    var e, m := Enc(fin, begun, []), Triples(x, n);
    if n > 0 {
      var e1 := Enc(fin, true, [x]);
      assert m[1..] == [0, 0] + Triples(x, n - 1) && m[1..][2..] == Triples(x, n - 1);
      assert m[0] == x && e.open + [x] == [x];
      assert Take(v, e, m) == (e1, 1);
      assert Take(v, e1, m[1..]) == (Close(e1, 0xe1), 2);
      PairWire(v, fin + [0xe1] + [x], true, x, n - 1);
      assert fin + [0xe1] + [x] + PairBlocks(x, n - 1) == fin + PairBlocks(x, n);
    }
  }

  /** It counts as `n` pairs. */
  lemma {:induction false} PairsCounted(v: Variant, f: Feed, x: byte, n: nat)
    requires v.zpe && x != 0 && f.Going? && (f.cur.code == 0 || f.cur.pos >= LenData(v, f.cur.code))
    ensures MessagePairs(v, f, PairBlocks(x, n)) == n
    decreases n
  {
    var wire := PairBlocks(x, n);
    var f' := Step(v, f, wire[0]);
    var f'' := Step(v, f', wire[1]);
    assert wire[1..][0] == wire[1] && wire[1..][1..] == wire[2..];
    if n == 0 {
      assert wire[2..] == [];
    } else {
      assert wire[2..] == PairBlocks(x, n - 1);
      PairsCounted(v, f'', x, n - 1);
    }
  }

  /** The loop gets through `n` such blocks exactly with a gap of more than `n` behind the first code. */
  lemma {:induction false} PairLoop(v: Variant, mem: seq<byte>, w: nat, r: nat, x: byte, n: nat)
    requires v.zpe && x != 0 && n > 0 && w < r <= |mem| && mem[r..] == [x] + PairBlocks(x, n - 1)
    ensures Loop(v, mem, w, r, 0xe1, 0).ret == if r - w > n then 1 else MISSING_BUFFER
    decreases n, 1
  {
    var rest := PairBlocks(x, n - 1);
    assert mem[r] == mem[r..][0] && mem[r + 1..] == mem[r..][1..] == rest;
    var m1 := mem[w := x];
    var m2 := m1[w + 1 := 0];
    assert m1[r + 1..] == rest;
    assert m1[r + 1] == m1[r + 1..][0];
    assert Loop(v, mem, w, r, 0xe1, 0) == Loop(v, m1, w + 1, r + 1, 0xe1, 1) == Loop(v, m2, w + 2, r + 1, 0xe1, 2);
    assert m2[r + 1..] == rest && m2[r + 1] == rest[0];
    if w + 1 < r {
      var m3 := m2[w + 2 := 0];
      assert m3[r + 1..] == rest && m3[r + 1] == rest[0];
      assert Loop(v, m2, w + 2, r + 1, 0xe1, 2) == Loop(v, m3, w + 3, r + 1, 0xe1, 3) == Loop(v, m3, w + 3, r + 2, rest[0], 0);
      assert m3[r + 2..] == rest[1..];
      PairNext(v, m3, w + 3, r + 2, x, n);
    }
  }

  /** The next block, or the last code and the terminator. */
  lemma PairNext(v: Variant, mem: seq<byte>, w: nat, r: nat, x: byte, n: nat)
    requires v.zpe && x != 0 && n > 0 && w < r <= |mem| && mem[r..] == PairBlocks(x, n - 1)[1..]
    ensures Loop(v, mem, w, r, PairBlocks(x, n - 1)[0], 0).ret == if r - w > n - 1 then 1 else MISSING_BUFFER
    decreases n, 0
  {
    if n == 1 {
      assert mem[r] == mem[r..][0] == 0;
      assert Loop(v, mem, w, r, 1, 0) == Loop(v, mem, w, r + 1, 0, 0);
    } else {
      PairLoop(v, mem, w, r, x, n - 1);
    }
  }

  /** One spare byte for each pair is exactly what is needed. */
  lemma SpareExactly(v: Variant, mem: seq<byte>, s: State, shift: nat, x: byte, n: nat)
    requires v.zpe && x != 0 && Placed(mem, s) && s.code == 0 && Fresh(s) && shift <= Gap(s)
    requires n > 0 && mem[s.curr..] == PairBlocks(x, n)
    ensures Call(v, mem, s, shift).ret == if Gap(s) - shift >= n then 1 else MISSING_BUFFER
  {
    assert mem[s.curr] == mem[s.curr..][0] == 0xe1;
    assert mem[s.curr + 1..] == mem[s.curr..][1..];
    PairLoop(v, mem, Begin(s, shift), s.curr + 1, x, n);
    hide Loop;
  }
}
