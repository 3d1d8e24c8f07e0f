/** Whole runs of the decoder: bytes arrive in any pieces, the caller makes room wherever it likes,
    and decodes whenever it likes. */
module CobsRun {
  import opened Bytes
  import opened CobsFormat
  import opened CobsEncoder
  import opened CobsDecoder
  import opened CobsCall

  /** Memory, decoder state, the messages returned so far and all bytes that arrived so far. */
  datatype World = World(mem: seq<byte>, s: State, got: seq<seq<byte>>, arrived: seq<byte>)

  const EMPTY := World([], FIRST, [], [])

  /** `Insert` puts bytes of any content at the input position and moves the position behind them. */
  datatype Event = Arrive(bytes: seq<byte>) | Insert(pad: seq<byte>) | Decode(shift: nat)

  ghost function Answer(v: Variant, w: World, shift: nat): Result
    requires Placed(w.mem, w.s)
  {
    Call(v, w.mem, w.s, if shift <= Gap(w.s) then shift else Gap(w.s))
  }

  ghost function Apply(v: Variant, w: World, ev: Event): World {
    if !Placed(w.mem, w.s) then w else
    match ev
    case Arrive(bytes) => w.(mem := w.mem + bytes, arrived := w.arrived + bytes)
    case Insert(pad) =>
      w.(mem := w.mem[..w.s.curr] + pad + w.mem[w.s.curr..], s := w.s.(curr := w.s.curr + |pad|))
    case Decode(shift) => Took(w, Answer(v, w, shift))
  }

  /** The world after a call. */
  ghost function Took(w: World, res: Result): World {
    var got := if res.ret == 1 && Placed(res.mem, res.s)
               then w.got + [res.mem[res.s.dpos..res.s.dpos + res.s.dlen]] else w.got;
    World(res.mem, res.s, got, w.arrived)
  }

  ghost function Play(v: Variant, w: World, evs: seq<Event>): World
    decreases |evs|
  {
    if evs == [] then w else Play(v, Apply(v, w, evs[0]), evs[1..])
  }

  /** The bytes an event brings. */
  function Brings(ev: Event): seq<byte> {
    if ev.Arrive? then ev.bytes else []
  }

  function Arrived(evs: seq<Event>): seq<byte> {
    if evs == [] then [] else Brings(evs[0]) + Arrived(evs[1..])
  }

  function Unread(w: World): seq<byte>
    requires w.s.curr <= |w.mem|
  {
    w.mem[w.s.curr..]
  }

  /** The bytes that arrived are the bytes consumed followed by the unread ones, and the decoder and
      its messages are where the automaton is after the consumed bytes. */
  ghost predicate Inv(v: Variant, w: World) {
    w.s.curr <= |w.mem| && |Unread(w)| <= |w.arrived| &&
    w.arrived[|w.arrived| - |Unread(w)|..] == Unread(w) &&
    Holds(v, w.mem, w.s, Read(v, w)) && w.got == Read(v, w).msgs
  }

  /** The automaton after the bytes consumed so far. */
  ghost function Read(v: Variant, w: World): Feed
    requires w.s.curr <= |w.mem| && |Unread(w)| <= |w.arrived|
  {
    Run(v, INIT, w.arrived[..|w.arrived| - |Unread(w)|])
  }

  lemma ArriveInv(v: Variant, w: World, bytes: seq<byte>)
    requires Inv(v, w)
    ensures Inv(v, Apply(v, w, Arrive(bytes)))
  {
    hide Run;
    var w' := Apply(v, w, Arrive(bytes));
    var n := |w.arrived| - |Unread(w)|;
    assert w'.arrived[..n] == w.arrived[..n];
    assert Unread(w') == Unread(w) + bytes == w.arrived[n..] + bytes == w'.arrived[n..];
    assert w'.mem[w.s.dpos..w.s.dpos + w.s.dlen] == w.mem[w.s.dpos..w.s.dpos + w.s.dlen];
  }

  lemma InsertInv(v: Variant, w: World, pad: seq<byte>)
    requires Inv(v, w)
    ensures Inv(v, Apply(v, w, Insert(pad)))
  {
    hide Run;
    var w' := Apply(v, w, Insert(pad));
    assert Unread(w') == Unread(w);
    assert w'.mem[w.s.dpos..w.s.dpos + w.s.dlen] == w.mem[w.s.dpos..w.s.dpos + w.s.dlen];
  }

  /** Consuming `k` unread bytes moves the split of the bytes that arrived by `k`. */
  lemma SplitMoves(v: Variant, arrived: seq<byte>, n: nat, mem: seq<byte>, mem': seq<byte>, curr: nat, curr': nat)
    requires curr <= curr' <= |mem| == |mem'| && n <= |arrived| && arrived[n..] == mem[curr..]
    requires mem'[curr'..] == mem[curr'..]
    ensures var k := curr' - curr;
            && n + k <= |arrived| && arrived[n + k..] == mem'[curr'..]
            && Run(v, INIT, arrived[..n + k]) == Run(v, Run(v, INIT, arrived[..n]), mem[curr..curr'])
  {
    hide Run;
    var k := curr' - curr;
    assert |arrived[n..]| == |mem[curr..]|;
    assert mem[curr..curr'] == mem[curr..][..k] == arrived[n..n + k];
    assert arrived[..n + k] == arrived[..n] + arrived[n..n + k];
    RunConcat(v, INIT, arrived[..n], arrived[n..n + k]);
    assert mem'[curr'..] == mem[curr..][k..] == arrived[n..][k..] == arrived[n + k..];
  }

  /** What arrived reads as what was consumed, then the rest. */
  lemma ReadRest(v: Variant, w: World)
    requires Inv(v, w)
    ensures Run(v, INIT, w.arrived) == Run(v, Read(v, w), Unread(w))
  {
    hide Run, Holds;
    var n := |w.arrived| - |Unread(w)|;
    assert w.arrived == w.arrived[..n] + Unread(w);
    RunConcat(v, INIT, w.arrived[..n], Unread(w));
  }

  /** A correct call moves the split of what arrived. */
  lemma TookRead(v: Variant, w: World, res: Result)
    requires Inv(v, w) && Correct(v, w.mem, w.s, Read(v, w), res)
    ensures var w' := Took(w, res);
            && w'.s.curr <= |w'.mem| && |Unread(w')| <= |w'.arrived|
            && w'.arrived[|w'.arrived| - |Unread(w')|..] == Unread(w')
            && Read(v, w') == Run(v, Read(v, w), w.mem[w.s.curr..res.s.curr])
  {
    hide Run, Holds;
    var n := |w.arrived| - |Unread(w)|;
    SplitMoves(v, w.arrived, n, w.mem, res.mem, w.s.curr, res.s.curr);
  }

  lemma TookInv(v: Variant, w: World, res: Result)
    requires Inv(v, w) && Correct(v, w.mem, w.s, Read(v, w), res)
    ensures Inv(v, Took(w, res))
  {
    TookRead(v, w, res);
    hide Run, Read, Sync;
  }

  lemma DecodeInv(v: Variant, w: World, shift: nat)
    requires Inv(v, w) && !Run(v, INIT, w.arrived).Broken?
    ensures Correct(v, w.mem, w.s, Read(v, w), Answer(v, w, shift))
    ensures Inv(v, Apply(v, w, Decode(shift)))
  {
    hide Run, Call, Correct;
    ReadRest(v, w);
    CallCorrect(v, w.mem, w.s, if shift <= Gap(w.s) then shift else Gap(w.s), Read(v, w));
    TookInv(v, w, Answer(v, w, shift));
  }

  lemma ApplyInv(v: Variant, w: World, ev: Event)
    requires Inv(v, w) && !Run(v, INIT, w.arrived).Broken?
    ensures Inv(v, Apply(v, w, ev)) && Apply(v, w, ev).arrived == w.arrived + Brings(ev)
  {
    hide Run, Call;
    match ev {
      case Arrive(bytes) => ArriveInv(v, w, bytes);
      case Insert(pad) => InsertInv(v, w, pad);
      case Decode(shift) => DecodeInv(v, w, shift);
    }
  }

  /** Every run keeps the invariant as long as the bytes that arrived do not break the format. */
  lemma {:induction false} PlayInv(v: Variant, w: World, evs: seq<Event>)
    requires Inv(v, w) && !Run(v, INIT, w.arrived + Arrived(evs)).Broken?
    ensures Inv(v, Play(v, w, evs)) && Play(v, w, evs).arrived == w.arrived + Arrived(evs)
    decreases |evs|
  {
    hide Run, Inv, Apply;
    if evs == [] {
      assert w.arrived + Arrived(evs) == w.arrived;
    } else {
      var w' := Apply(v, w, evs[0]);
      assert (w.arrived + Arrived(evs))[..|w.arrived|] == w.arrived;
      PrefixUnbroken(v, INIT, w.arrived + Arrived(evs), |w.arrived|);
      ApplyInv(v, w, evs[0]);
      assert w'.arrived + Arrived(evs[1..]) == w.arrived + Arrived(evs);
      PlayInv(v, w', evs[1..]);
    }
  }

  lemma {:induction false} MessagesGrow(v: Variant, s: Feed, input: seq<byte>)
    ensures s.msgs <= Run(v, s, input).msgs
    decreases |input|
  {
    if input != [] {
      MessagesGrow(v, Step(v, s, input[0]), input[1..]);
    }
  }

  lemma EmptyInv(v: Variant)
    ensures Inv(v, EMPTY)
  {}

  lemma Delivered(v: Variant, w: World, all: seq<byte>, msgs: seq<seq<byte>>)
    requires Inv(v, w) && w.arrived <= all && Run(v, INIT, all) == Going(msgs, START)
    ensures w.got <= msgs
    ensures Unread(w) == [] ==> w.got == Run(v, INIT, w.arrived).msgs
  {
    hide Run, Holds;
    var n := |w.arrived| - |Unread(w)|;
    assert all == all[..n] + all[n..] && all[..n] == w.arrived[..n];
    RunConcat(v, INIT, all[..n], all[n..]);
    MessagesGrow(v, Run(v, INIT, all[..n]), all[n..]);
    if Unread(w) == [] {
      assert w.arrived[..n] == w.arrived;
    }
  }

  /** Safety and completeness over every run: the messages returned are always the first of the
      messages encoded, whatever prefix of the stream has arrived and however; once everything that
      arrived is consumed they are all messages completed by then. */
  lemma RunDelivers(v: Variant, stream: seq<seq<seq<byte>>>, evs: seq<Event>)
    requires Arrived(evs) <= Stream(v, [], stream)
    ensures var w := Play(v, EMPTY, evs);
            && Inv(v, w)
            && w.got <= Messages(stream)
            && (Unread(w) == [] ==> w.got == Run(v, INIT, Arrived(evs)).msgs)
            && (Unread(w) == [] && Arrived(evs) == Stream(v, [], stream) ==> w.got == Messages(stream))
  {
    hide Play, Stream, Messages, Inv, Run, Arrived, Unread;
    var all, some := Stream(v, [], stream), Arrived(evs);
    StreamReads(v, stream);
    assert some == all[..|some|];
    PrefixUnbroken(v, INIT, all, |some|);
    EmptyInv(v);
    assert EMPTY.arrived + some == some;
    PlayInv(v, EMPTY, evs);
    Delivered(v, Play(v, EMPTY, evs), all, Messages(stream));
  }
}
