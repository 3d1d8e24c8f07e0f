/** Reference counts that stop at the largest value of their type. */
module RefCounts {
  const REF_MAX := 0xffff_ffff_ffff_ffff

  /** The new count and the result, 0 if the count cannot be raised. */
  function Raise(count: nat): (nat, nat) {
    if count == 0 || count >= REF_MAX then (count, 0) else (count + 1, count + 1)
  }

  /** A count is raised by one unless it is 0 or the largest value of 64 bits. */
  lemma RaiseIs(count: nat)
    ensures Raise(count) == if 0 < count < 0xffff_ffff_ffff_ffff then (count + 1, count + 1) else (count, 0)
    ensures Lower(count) == if count > 0 then count - 1 else 0
  {}

  /** The new count; a count of 0 stays. */
  function Lower(count: nat): nat {
    if count == 0 then 0 else count - 1
  }
}

/** The right to reply: it moves between a context and its deferred copies. */
module ReplyRights {
  import opened Bytes
  import opened RefCounts

  const BAD_ARGUMENT := -0x1
  const BAD_VALUE := -0x2

  /** An id that may be answered; no bytes if there is none.  The serial number tells accepted ids
      apart that have the same bytes. */
  datatype Right = Right(serial: nat, id: seq<byte>)

  /** A call of the send function. */
  datatype Call = Call(serial: nat, id: seq<byte>, ok: bool)

  /** The id with the reply flag in its first byte. */
  function Flag(id: seq<byte>): seq<byte> {
    if id == [] then [] else [if id[0] < 0x80 then id[0] + 0x80 else id[0]] + id[1..]
  }

  function Clear(id: seq<byte>): seq<byte> {
    if id == [] then [] else [id[0] % 0x80] + id[1..]
  }

  datatype Sending = Sending(ret: int, right: Right, calls: seq<Call>)

  /** Replies with a right: what is left of it, and the call this makes. */
  function Send(send: bool, target: bool, r: Right, answer: int): Sending {
    if r.id == [] then Sending(BAD_ARGUMENT, r, [])
    else if !send then Sending(0, r.(id := []), [])
    else if !target then Sending(0, r, [])
    else if answer >= 0 then Sending(answer, r.(id := []), [Call(r.serial, Flag(r.id), true)])
    else Sending(answer, r.(id := Clear(Flag(r.id))), [Call(r.serial, Flag(r.id), false)])
  }

  /** A context with its owners, the deferred copies by number, all ids it accepted and all calls. */
  datatype System = System(max: nat, target: bool, send: bool, count: nat, own: Right, owners: nat,
                           copies: map<nat, Right>, made: nat, ids: seq<seq<byte>>, log: seq<Call>)

  datatype Event =
    | Accept(id: seq<byte>)
    | Reply(answer: int)
    | Defer(memory: bool)
    | Late(copy: nat, msg: bool, answer: int)
    | AddRef
    | Unref(answer: int)

  function Start(max: nat, send: bool, target: bool): System {
    System(max, target, send, 1, Right(0, []), 1, map[], 0, [], [])
  }

  /** One event; only an owner can use the context, and only a copy that exists can be answered. */
  function Step(s: System, e: Event): System {
    if e.Late? then (if e.copy in s.copies then Answered(s, e.copy, e.msg, e.answer) else s)
    else if s.owners == 0 then s
    else
      match e
      case Accept(id) => if |id| > s.max then s else s.(own := Right(|s.ids|, id), ids := s.ids + [id])
      case Reply(answer) =>
        var r := Send(s.send, s.target, s.own, answer);
        s.(own := r.right, log := s.log + r.calls)
      case Defer(memory) =>
        if s.own.id == [] || Raise(s.count).1 == 0 || !memory then s
        else s.(count := s.count + 1, copies := s.copies[s.made := s.own], made := s.made + 1, own := s.own.(id := []))
      case AddRef => if Raise(s.count).1 == 0 then s else s.(count := s.count + 1, owners := s.owners + 1)
      case Unref(answer) => Released(s, answer)
      case Late(_, _, _) => s
  }

  /** A deferred copy replies; it is gone unless a message could not be sent. */
  function Answered(s: System, k: nat, msg: bool, answer: int): System
    requires k in s.copies
  {
    var r := Send(s.send, s.target, s.copies[k], answer);
    if r.ret < 0 && msg then s.(copies := s.copies[k := r.right], log := s.log + r.calls)
    else s.(copies := s.copies - {k}, count := Lower(s.count), log := s.log + r.calls)
  }

  /** An owner lets go: the others cannot send any more; the last reference answers what is open. */
  function Released(s: System, answer: int): System {
    var s' := s.(count := Lower(s.count), owners := if s.owners == 0 then 0 else s.owners - 1);
    if Lower(s.count) != 0 then s'.(send := false)
    else if s.send && s.own.id != [] then
      s'.(own := s.own.(id := []), log := s.log + Send(s.send, s.target, s.own, answer).calls)
    else s'.(own := s.own.(id := []))
  }

  /** The bytes of a held id: as accepted, but for a flag that a failed call removed. */
  predicate SameId(held: seq<byte>, id: seq<byte>) {
    held == id || (id != [] && id[0] >= 0x80 && held == Clear(id))
  }

  predicate Unsent(log: seq<Call>, serial: nat) {
    forall c :: c in log && c.serial == serial ==> !c.ok
  }

  /** A right in someone's hands: for an id that was accepted and not yet answered. */
  predicate Open(s: System, r: Right) {
    r.id != [] && r.serial < |s.ids| && SameId(r.id, s.ids[r.serial]) && Unsent(s.log, r.serial)
  }

  predicate Apart(s: System, k: nat, l: nat)
    requires k in s.copies && l in s.copies
  {
    s.copies[k].serial != s.copies[l].serial
  }

  /** Each accepted id has at most one holder. */
  ghost predicate Linear(s: System) {
    (s.own.id != [] ==> Open(s, s.own)) &&
    (forall k :: k in s.copies ==> k < s.made && Open(s, s.copies[k])) &&
    (forall k :: k in s.copies && s.own.id != [] ==> s.copies[k].serial != s.own.serial) &&
    forall k, l :: k in s.copies && l in s.copies && k != l ==> Apart(s, k, l)
  }

  predicate Genuine(s: System, c: Call) {
    c.serial < |s.ids| && s.ids[c.serial] != [] && c.id == Flag(s.ids[c.serial])
  }

  /** Calls are for accepted ids, with the flag set; none follows one that succeeded. */
  ghost predicate Logged(s: System) {
    (forall c :: c in s.log ==> Genuine(s, c)) &&
    forall i, j :: 0 <= i < j < |s.log| && s.log[i].serial == s.log[j].serial ==> !s.log[i].ok
  }

  /** The count is the number of owners and copies. */
  predicate Counted(s: System) {
    s.count == s.owners + |s.copies| && s.count <= REF_MAX
  }

  ghost predicate Inv(s: System) {
    Linear(s) && Logged(s) && Counted(s)
  }

  lemma StartInv(max: nat, send: bool, target: bool)
    ensures Inv(Start(max, send, target))
  {}

  lemma FlagClear(id: seq<byte>)
    ensures Flag(Clear(id)) == Flag(id) && Clear(Flag(id)) == Clear(id)
    ensures id != [] && id[0] < 0x80 ==> Clear(id) == id
    ensures |Flag(id)| == |Clear(id)| == |id|
  {}

  /** What sending does to one right: afterwards it is open and no call succeeded, or it is gone. */
  lemma SendOpen(s: System, r: Right, answer: int)
    requires Open(s, r) && Logged(s)
    ensures var o := Send(s.send, s.target, r, answer);
            && o.right.serial == r.serial
            && (o.right.id != [] ==> SameId(o.right.id, s.ids[r.serial]) && forall c :: c in o.calls ==> !c.ok)
            && |o.calls| <= 1 && forall c :: c in o.calls ==> c.serial == r.serial && Genuine(s, c)
    ensures Logged(s.(log := s.log + Send(s.send, s.target, r, answer).calls))
  {
    FlagClear(r.id);
    FlagClear(s.ids[r.serial]);
    var o := Send(s.send, s.target, r, answer);
    assert forall c :: c in o.calls ==> c.serial == r.serial && Genuine(s, c);
    assert |o.calls| <= 1;
    hide Logged;
    LoggedMore(s, r.serial, o.calls);
  }

  /** One more call for an id that was not answered. */
  lemma LoggedMore(s: System, serial: nat, calls: seq<Call>)
    requires Logged(s) && Unsent(s.log, serial) && |calls| <= 1
    requires forall c :: c in calls ==> c.serial == serial && Genuine(s, c)
    ensures Logged(s.(log := s.log + calls))
  {
    var s' := s.(log := s.log + calls);
    forall c | c in s'.log ensures Genuine(s', c) {
      assert Genuine(s, c);
    }
    forall i, j | 0 <= i < j < |s'.log| && s'.log[i].serial == s'.log[j].serial ensures !s'.log[i].ok {
      if j >= |s.log| {
        assert s'.log[i] in s.log;
      }
    }
  }

  /** A longer log keeps other rights open. */
  lemma StillOpen(s: System, s': System, r: Right, serial: nat, calls: seq<Call>)
    requires Open(s, r) && s'.ids == s.ids && s'.log == s.log + calls
    requires forall c :: c in calls ==> c.serial == serial
    requires r.serial != serial || forall c :: c in calls ==> !c.ok
    ensures Open(s', r)
  {}

  lemma AcceptInv(s: System, id: seq<byte>)
    requires Inv(s) && s.owners > 0
    ensures Inv(Step(s, Accept(id)))
  {
    if |id| <= s.max {
      var s' := Step(s, Accept(id));
      forall c | c in s'.log ensures Genuine(s', c) && c.serial < |s.ids| {
        assert Genuine(s, c);
      }
      forall k | k in s'.copies ensures Open(s', s'.copies[k]) {
        assert Open(s, s.copies[k]);
      }
      forall k, l | k in s'.copies && l in s'.copies && k != l ensures Apart(s', k, l) {
        assert Apart(s, k, l);
      }
    }
  }

  lemma ReplyInv(s: System, answer: int)
    requires Inv(s) && s.owners > 0
    ensures Inv(Step(s, Reply(answer)))
  {
    var s' := Step(s, Reply(answer));
    if s.own.id != [] {
      SendOpen(s, s.own, answer);
      var r := Send(s.send, s.target, s.own, answer);
      Relogged(s, s');
      forall k | k in s'.copies ensures Open(s', s'.copies[k]) {
        StillOpen(s, s', s.copies[k], s.own.serial, r.calls);
      }
      forall k, l | k in s'.copies && l in s'.copies && k != l ensures Apart(s', k, l) {
        assert Apart(s, k, l);
      }
    }
  }

  /** The log is judged by the accepted ids alone. */
  lemma Relogged(s: System, s': System)
    requires Logged(s.(log := s'.log)) && s'.ids == s.ids
    ensures Logged(s')
  {
    forall c | c in s'.log ensures Genuine(s', c) {
      assert Genuine(s.(log := s'.log), c);
    }
  }

  lemma DeferInv(s: System, memory: bool)
    requires Inv(s) && s.owners > 0
    ensures Inv(Step(s, Defer(memory)))
  {
    var s' := Step(s, Defer(memory));
    if s' != s {
      Relogged(s, s');
      forall k | k in s'.copies ensures k < s'.made && Open(s', s'.copies[k]) {
        assert Open(s, s'.copies[k]);
      }
      forall k, l | k in s'.copies && l in s'.copies && k != l ensures Apart(s', k, l) {
        assert k != s.made && l != s.made ==> Apart(s, k, l);
      }
    }
  }

  lemma LateLinear(s: System, k: nat, r: Sending, s': System)
    requires Linear(s) && k in s.copies && s'.ids == s.ids && s'.own == s.own && s'.made == s.made
    requires s'.copies == (if r.right.id == [] then s.copies - {k} else s.copies[k := r.right]) || s'.copies == s.copies - {k}
    requires s'.log == s.log + r.calls && r.right.serial == s.copies[k].serial
    requires r.right.id != [] ==> SameId(r.right.id, s.ids[r.right.serial]) && forall c :: c in r.calls ==> !c.ok
    requires forall c :: c in r.calls ==> c.serial == r.right.serial
    ensures Linear(s')
  {
    hide Send, SameId;
    var own := s.copies[k];
    assert Open(s, own);
    if s.own.id != [] {
      StillOpen(s, s', s.own, own.serial, r.calls);
    }
    forall l | l in s'.copies ensures l < s'.made && Open(s', s'.copies[l]) {
      if l != k {
        assert Apart(s, k, l);
        StillOpen(s, s', s.copies[l], own.serial, r.calls);
      }
    }
    forall l, m | l in s'.copies && m in s'.copies && l != m ensures Apart(s', l, m) {
      assert Apart(s, l, m);
    }
  }

  lemma LateInv(s: System, k: nat, msg: bool, answer: int)
    requires Inv(s) && k in s.copies
    ensures Inv(Answered(s, k, msg, answer))
  {
    hide Linear, Logged, Flag, Genuine, SameId;
    var s' := Answered(s, k, msg, answer);
    CopyOpen(s, k);
    var r := Send(s.send, s.target, s.copies[k], answer);
    SendOpen(s, s.copies[k], answer);
    assert r.ret < 0 && msg ==> r.right.id != [] by { FlagClear(s.copies[k].id); }
    Relogged(s, s');
    LateLinear(s, k, r, s');
  }

  lemma CopyOpen(s: System, k: nat)
    requires Linear(s) && k in s.copies
    ensures Open(s, s.copies[k])
  {}

  /** The holders are judged by ids, log and rights alone. */
  lemma Relinked(s: System, s': System)
    requires Linear(s) && s'.ids == s.ids && s'.log == s.log && s'.own == s.own && s'.copies == s.copies && s'.made == s.made
    ensures Linear(s')
  {
    forall k | k in s'.copies ensures Open(s', s'.copies[k]) {
      assert Open(s, s.copies[k]);
    }
    forall k, l | k in s'.copies && l in s'.copies && k != l ensures Apart(s', k, l) {
      assert Apart(s, k, l);
    }
  }

  lemma UnrefInv(s: System, answer: int)
    requires Inv(s) && s.owners > 0
    ensures Inv(Released(s, answer))
  {
    hide Linear, Logged;
    var s' := Released(s, answer);
    if Lower(s.count) != 0 {
      Relogged(s, s');
      Relinked(s, s');
    } else {
      assert |s.copies| == 0;
      LastReleased(s, answer);
    }
  }

  /** With the last reference no copy is left. */
  lemma LastReleased(s: System, answer: int)
    requires Linear(s) && Logged(s) && s.copies == map[] && Lower(s.count) == 0
    ensures Linear(Released(s, answer)) && Logged(Released(s, answer))
  {
    var s' := Released(s, answer);
    if s.own.id != [] {
      SendOpen(s, s.own, answer);
    }
    hide Send;
    Relogged(s, s');
  }

  lemma AddRefInv(s: System)
    requires Inv(s) && s.owners > 0
    ensures Inv(Step(s, AddRef))
  {
    hide Linear, Logged;
    var s' := Step(s, AddRef);
    Relogged(s, s');
    Relinked(s, s');
  }

  lemma StepInv(s: System, e: Event)
    requires Inv(s)
    ensures Inv(Step(s, e))
  {
    hide Inv, Send;
    if e.Late? {
      if e.copy in s.copies { LateInv(s, e.copy, e.msg, e.answer); }
    } else if s.owners > 0 {
      match e {
        case Accept(id) => AcceptInv(s, id);
        case Reply(answer) => ReplyInv(s, answer);
        case Defer(memory) => DeferInv(s, memory);
        case Unref(answer) => UnrefInv(s, answer);
        case AddRef => AddRefInv(s);
        case Late(_, _, _) =>
      }
    }
  }

  function Run(s: System, es: seq<Event>): System {
    if es == [] then s else Step(Run(s, es[..|es| - 1]), es[|es| - 1])
  }

  lemma {:induction false} RunInv(s: System, es: seq<Event>)
    requires Inv(s)
    ensures Inv(Run(s, es))
    decreases |es|
  {
    if es != [] {
      RunInv(s, es[..|es| - 1]);
      StepInv(Run(s, es[..|es| - 1]), es[|es| - 1]);
    }
  }

  /** Over every run each accepted id is answered successfully at most once, with its own bytes. */
  lemma AnsweredOnce(max: nat, send: bool, target: bool, es: seq<Event>, i: nat, j: nat)
    requires var log := Run(Start(max, send, target), es).log; i < |log| && j < |log|
    ensures var s := Run(Start(max, send, target), es);
            && (s.log[i].ok && s.log[j].ok && s.log[i].serial == s.log[j].serial ==> i == j)
            && s.log[i].serial < |s.ids| && s.log[i].id == Flag(s.ids[s.log[i].serial])
  {
    StartInv(max, send, target);
    RunInv(Start(max, send, target), es);
    var s := Run(Start(max, send, target), es);
    assert s.log[i] in s.log;
  }

  /** Over every run no id has two holders, no answered id has one, and the context lives while a
      deferred copy does. */
  lemma HeldOnce(max: nat, send: bool, target: bool, es: seq<Event>, k: nat, l: nat)
    ensures var s := Run(Start(max, send, target), es);
            && s.count == s.owners + |s.copies|
            && (k in s.copies ==> s.count > 0 && Unsent(s.log, s.copies[k].serial))
            && (k in s.copies && l in s.copies && k != l ==> s.copies[k].serial != s.copies[l].serial)
            && (k in s.copies && s.own.id != [] ==> s.copies[k].serial != s.own.serial)
            && (s.own.id != [] ==> Unsent(s.log, s.own.serial))
  {
    StartInv(max, send, target);
    RunInv(Start(max, send, target), es);
    var s := Run(Start(max, send, target), es);
    if k in s.copies && l in s.copies && k != l {
      assert Apart(s, k, l);
    }
    if k in s.copies {
      assert Open(s, s.copies[k]);
    }
  }

  /** All outcomes of a reply.  An open right with a send function and a target makes exactly one call,
      for its own id with the top bit of the first byte set, and is gone exactly if that succeeds. */
  lemma SendExactly(send: bool, target: bool, r: Right, answer: int)
    ensures var o := Send(send, target, r, answer);
            && (r.id == [] ==> o == Sending(-0x1, r, []))
            && (r.id != [] && !send ==> o == Sending(0, Right(r.serial, []), []))
            && (r.id != [] && send && !target ==> o == Sending(0, r, []))
            && (r.id != [] && send && target ==>
                  && o.ret == answer
                  && o.calls == [Call(r.serial, [r.id[0] % 0x80 + 0x80] + r.id[1..], answer >= 0)]
                  && o.right == Right(r.serial, if answer >= 0 then [] else [r.id[0] % 0x80] + r.id[1..]))
  {
    FlagLiteral(r.id);
  }

  lemma FlagLiteral(id: seq<byte>)
    ensures id != [] ==> Flag(id) == [id[0] % 0x80 + 0x80] + id[1..] && Clear(Flag(id)) == [id[0] % 0x80] + id[1..]
  {}

  /** An owner's reply is sent. */
  lemma ReplySent(s: System, answer: int)
    requires s.owners > 0 && s.own.id != [] && s.send && s.target
    ensures var s' := Step(s, Reply(answer));
            && s'.log == s.log + [Call(s.own.serial, [s.own.id[0] % 0x80 + 0x80] + s.own.id[1..], answer >= 0)]
            && (s'.own.id == [] <==> answer >= 0) && s'.own.serial == s.own.serial && s'.copies == s.copies
  {
    SendExactly(s.send, s.target, s.own, answer);
    hide Send;
  }

  /** A late reply is sent; the copy stays exactly if a message could not be. */
  lemma LateSent(s: System, k: nat, msg: bool, answer: int)
    requires k in s.copies && s.copies[k].id != [] && s.send && s.target
    ensures var r, s' := s.copies[k], Step(s, Late(k, msg, answer));
            && s'.log == s.log + [Call(r.serial, [r.id[0] % 0x80 + 0x80] + r.id[1..], answer >= 0)]
            && (k in s'.copies <==> answer < 0 && msg) && s'.own == s.own
            && (k in s'.copies ==> s'.copies[k] == Right(r.serial, [r.id[0] % 0x80] + r.id[1..]))
            && forall l :: l != k ==> (l in s'.copies <==> l in s.copies) && (l in s.copies ==> s'.copies[l] == s.copies[l])
  {
    SendExactly(s.send, s.target, s.copies[k], answer);
    hide Send;
  }

  /** The last reference answers what is open; before that the others only lose the send function. */
  lemma UnrefSent(s: System, answer: int)
    requires s.owners > 0 && s.own.id != [] && s.send
    ensures var s' := Step(s, Unref(answer));
            && (s.count == 1 && s.target ==>
                  s'.log == s.log + [Call(s.own.serial, [s.own.id[0] % 0x80 + 0x80] + s.own.id[1..], answer >= 0)])
            && (s.count > 1 ==> s'.log == s.log && !s'.send && s'.own == s.own && s'.count == s.count - 1)
  {
    SendExactly(s.send, s.target, s.own, answer);
    hide Send;
  }

  /** A call that fails leaves the right as it was, exactly if its flag was not set before. */
  lemma FailedSendKeeps(r: Right, answer: int)
    requires r.id != [] && answer < 0
    ensures Send(true, true, r, answer).right == r <==> r.id[0] < 0x80
  {
    FlagClear(r.id);
    assert r.id[0] >= 0x80 ==> Clear(r.id)[0] != r.id[0];
  }
}

/** Reply contexts and their deferred copies as objects that are freed. */
module Replies {
  import opened Bytes
  import opened RefCounts
  import opened ReplyRights

  /** Memory to take an id from, or a null pointer. */
  datatype Data = Null | Given(bytes: seq<byte>)

  /** Storage of an id. */
  class ReplyData {
    const max: nat
    var len: nat
    var val: seq<byte>
    ghost var serial: nat

    ghost predicate Valid()
      reads this
    {
      len <= max <= |val| && 0 < |val|
    }

    ghost function Content(): Right
      requires Valid()
      reads this
    {
      Right(serial, val[..len])
    }

    constructor (max: nat)
      ensures Valid() && this.max == max && Content() == Right(0, [])
    {
      this.max, len, serial := max, 0, 0;
      val := Zeros(if max < 4 then 4 else max);
    }

    /** Stores an id of `size` bytes, zeros without data. */
    method Put(size: nat, data: Data, ghost serial: nat) returns (r: int)
      requires Valid() && (data.Given? ==> size <= |data.bytes|)
      modifies this
      ensures Valid() && r == if size > max then BAD_VALUE else max - size
      ensures if size > max then unchanged(this)
              else Content() == Right(serial, if data.Given? then data.bytes[..size] else Zeros(size))
    {
      if size > max { return BAD_VALUE; }
      val := (if data.Given? then data.bytes[..size] else Zeros(size)) + val[size..];
      len := size;
      this.serial := serial;
      r := max - size;
    }
  }

  class Context {
    const target: bool
    const data: ReplyData
    var send: bool
    var count: nat
    ghost var freed: bool

    constructor (max: nat, send: bool, target: bool)
      ensures !freed && count == 1 && this.send == send && this.target == target
      ensures fresh(data) && data.Valid() && data.max == max && data.Content() == Right(0, [])
    {
      this.send, this.target, count, freed := send, target, 1, false;
      data := new ReplyData(max);
    }

    /** Replies with an id, the context's own or a deferred one; `out` is what the send function gets. */
    method Send(rd: ReplyData, answer: int) returns (ret: int, out: seq<byte>, ghost calls: seq<Call>)
      requires !freed && rd.Valid()
      modifies rd
      ensures rd.Valid() && Sending(ret, rd.Content(), calls) == ReplyRights.Send(send, target, old(rd.Content()), answer)
      ensures var id := old(rd.Content().id);
              out == if id != [] && send && target then [id[0] % 0x80 + 0x80] + id[1..] else []
      ensures calls == if out == [] then [] else [Call(old(rd.serial), out, answer >= 0)]
    {
      out, calls := [], [];
      if rd.len == 0 { return BAD_ARGUMENT, out, calls; }
      FlagLiteral(rd.Content().id);
      if !send {
        rd.len := 0;
        return 0, out, calls;
      }
      if !target { return 0, out, calls; }
      ghost var id := rd.val[..rd.len];
      rd.val := rd.val[0 := if rd.val[0] < 0x80 then rd.val[0] + 0x80 else rd.val[0]];
      out := rd.val[..rd.len];
      assert out == Flag(id);
      ret, calls := answer, [Call(rd.serial, out, answer >= 0)];
      if ret >= 0 {
        rd.len := 0;
      } else {
        rd.val := rd.val[0 := rd.val[0] % 0x80];
        assert rd.val[..rd.len] == Clear(Flag(id));
      }
    }

    method AddRef() returns (r: nat)
      requires !freed
      modifies this`count
      ensures (count, r) == Raise(old(count))
      ensures 0 < old(count) < 0xffff_ffff_ffff_ffff ==> r == count == old(count) + 1
    {
      r := Raise(count).1;
      count := Raise(count).0;
    }

    /** An owner lets go. */
    method Unref(answer: int) returns (out: seq<byte>, ghost calls: seq<Call>)
      requires !freed && data.Valid() && count > 0
      modifies this`send, this`count, this`freed, data
      ensures data.Valid() && count == old(count) - 1 && freed == (count == 0) && send == (old(send) && count == 0)
      ensures count != 0 ==> data.Content() == old(data.Content()) && calls == []
      ensures count == 0 && old(send && data.Content().id != []) ==>
                calls == ReplyRights.Send(old(send), target, old(data.Content()), answer).calls
      ensures count == 0 && !old(send && data.Content().id != []) ==> calls == []
      ensures var id := old(data.Content().id);
              out == if count == 0 && old(send) && target && id != [] then [id[0] % 0x80 + 0x80] + id[1..] else []
      ensures calls == if out == [] then [] else [Call(old(data.serial), out, answer >= 0)]
    {
      out, calls := [], [];
      count := Lower(count);
      if count != 0 {
        send := false;
        return;
      }
      if send && data.len != 0 {
        var ret;
        ret, out, calls := Send(data, answer);
      }
      freed := true;
    }

    /** A deferred copy lets go. */
    method Detach()
      requires !freed && count > 0
      modifies this`count, this`freed
      ensures count == old(count) - 1 && freed == (count == 0)
    {
      count := Lower(count);
      if count != 0 { return; }
      freed := true;
    }

    /** Hands the id over to a deferred copy. */
    method Defer(memory: bool) returns (def: Deferred?)
      requires !freed && data.Valid()
      modifies this`count, data
      ensures data.Valid()
      ensures def == null <==> old(data.Content().id) == [] || Raise(old(count)).1 == 0 || !memory
      ensures def == null ==> count == old(count) && data.Content() == old(data.Content())
      ensures def != null ==>
                && fresh(def) && fresh(def.data) && def.base == this && !def.freed && def.data.Valid()
                && def.data.Content() == old(data.Content()) && count == old(count) + 1
                && data.Content() == old(data.Content()).(id := [])
    {
      if data.len == 0 { return null; }
      if Raise(count).1 == 0 { return null; }
      count := Raise(count).0;
      if !memory {
        count := Lower(count);
        return null;
      }
      def := new Deferred(this, data);
      data.len := 0;
    }
  }

  class Deferred {
    const base: Context
    const data: ReplyData
    ghost var freed: bool

    constructor (base: Context, from: ReplyData)
      requires from.Valid()
      ensures this.base == base && fresh(data) && data.Valid() && data.Content() == from.Content() && !freed
    {
      this.base, freed := base, false;
      data := new ReplyData(from.max);
      new;
      data.len, data.val, data.serial := from.len, from.val, from.serial;
    }

    /** The late reply: the copy is gone unless a message could not be sent. */
    method Reply(msg: bool, answer: int) returns (ret: int, out: seq<byte>, ghost calls: seq<Call>)
      requires !freed && !base.freed && base.count > 0 && data.Valid() && data != base.data
      modifies this`freed, data, base`count, base`freed
      ensures data.Valid()
      ensures var o := ReplyRights.Send(base.send, base.target, old(data.Content()), answer);
              && calls == o.calls && data.Content() == o.right && freed == !(o.ret < 0 && msg)
              && ret == if o.ret < 0 && !msg then 0 else o.ret
      ensures calls == if out == [] then [] else [Call(old(data.serial), out, answer >= 0)]
      ensures var id := old(data.Content().id);
              out == if id != [] && base.send && base.target then [id[0] % 0x80 + 0x80] + id[1..] else []
      ensures if freed then base.count == old(base.count) - 1 && base.freed == (base.count == 0)
              else base.count == old(base.count) && !base.freed
    {
      ret, out, calls := base.Send(data, answer);
      if ret < 0 {
        if msg { return; }
        ret := 0;
      }
      base.Detach();
      freed := true;
    }
  }

  ghost predicate Copied(ctx: Context, d: Deferred, r: Right)
    reads d, d.data
  {
    !d.freed && d.base == ctx && d.data.Valid() && d.data.Content() == r && d.data != ctx.data
  }

  ghost function Storage(copies: map<nat, Deferred>): set<object> {
    (set k | k in copies :: copies[k] as object) + set k | k in copies :: copies[k].data as object
  }

  /** The objects are in the state of the system; the context is freed when nothing refers to it. */
  ghost predicate Matches(ctx: Context, copies: map<nat, Deferred>, s: System)
    reads ctx, ctx.data, Storage(copies)
  {
    ContextMatches(ctx, s) && CopiesMatch(ctx, copies, s.copies)
  }

  ghost predicate ContextMatches(ctx: Context, s: System)
    reads ctx, ctx.data
  {
    ctx.data.Valid() && ctx.target == s.target && ctx.data.max == s.max &&
    ctx.count == s.count && ctx.freed == (s.count == 0) &&
    (s.count > 0 ==> ctx.send == s.send && ctx.data.Content() == s.own)
  }

  ghost predicate CopiesMatch(ctx: Context, copies: map<nat, Deferred>, rights: map<nat, Right>)
    reads Storage(copies)
  {
    copies.Keys == rights.Keys && Separate(copies) && forall k :: k in copies ==> Copied(ctx, copies[k], rights[k])
  }

  /** One copy is changed or gone. */
  lemma CopyChanged(ctx: Context, copies: map<nat, Deferred>, rights: map<nat, Right>, k: nat, r: Right)
    requires copies.Keys == rights.Keys && Separate(copies) && k in copies
    requires forall l :: l in copies && l != k ==> Copied(ctx, copies[l], rights[l])
    ensures Copied(ctx, copies[k], r) ==> CopiesMatch(ctx, copies, rights[k := r])
    ensures CopiesMatch(ctx, copies - {k}, rights - {k})
  {}

  lemma CopyAdded(ctx: Context, copies: map<nat, Deferred>, rights: map<nat, Right>, k: nat, d: Deferred, r: Right)
    requires copies.Keys == rights.Keys && Separate(copies[k := d]) && k !in copies && Copied(ctx, d, r)
    requires forall l :: l in copies ==> Copied(ctx, copies[l], rights[l])
    ensures CopiesMatch(ctx, copies[k := d], rights[k := r])
  {}

  ghost predicate Separate(copies: map<nat, Deferred>) {
    forall k, l :: k in copies && l in copies && k != l ==> copies[k] != copies[l] && copies[k].data != copies[l].data
  }

  /** A late reply. */
  method Late(ctx: Context, copies: map<nat, Deferred>, k: nat, msg: bool, answer: int, ghost s: System)
      returns (copies': map<nat, Deferred>, out: seq<byte>)
    requires Inv(s) && Matches(ctx, copies, s) && k in copies
    modifies ctx, ctx.data, Storage(copies)
    ensures Matches(ctx, copies', Answered(s, k, msg, answer)) && Storage(copies') <= Storage(copies)
    ensures Added(s.log, Answered(s, k, msg, answer).log, out, answer)
  {
    hide Inv, Storage, ReplyRights.Send, Separate;
    CopyCounts(s, k);
    ghost var rights := s.copies;
    var d := copies[k];
    StorageOf(copies, k);
    assert Copied(ctx, d, s.copies[k]);
    var ret; ghost var calls;
    ret, out, calls := d.Reply(msg, answer);
    forall l | l in copies && l != k ensures Copied(ctx, copies[l], s.copies[l]) {
      assert old(Copied(ctx, copies[l], s.copies[l]));
    }
    CopyChanged(ctx, copies, rights, k, d.data.Content());
    hide CopiesMatch;
    copies' := if ret < 0 then copies else copies - {k};
  }

  lemma StorageOf(copies: map<nat, Deferred>, k: nat)
    requires k in copies
    ensures copies[k] in Storage(copies) && copies[k].data in Storage(copies) && Storage(copies - {k}) <= Storage(copies)
    ensures Separate(copies) ==>
              Separate(copies - {k}) &&
              forall l :: l in copies && l != k ==> copies[l] != copies[k] && copies[l].data != copies[k].data
  {}

  /** The log grows by the call whose id is `out`, if there was one. */
  ghost predicate Added(log: seq<Call>, log': seq<Call>, out: seq<byte>, answer: int) {
    if out == [] then log' == log
    else |log'| == |log| + 1 && log <= log' && log'[|log|].id == out && log'[|log|].ok == (answer >= 0)
  }

  lemma CopyCounts(s: System, k: nat)
    requires Inv(s) && k in s.copies
    ensures s.count > 0
  {}

  /** Deferring: the copy gets the next number. */
  method MakeCopy(ctx: Context, copies: map<nat, Deferred>, made: nat, memory: bool, ghost s: System)
      returns (copies': map<nat, Deferred>, made': nat)
    requires Inv(s) && Matches(ctx, copies, s) && s.owners > 0 && made == s.made
    modifies ctx, ctx.data
    ensures Matches(ctx, copies', Step(s, Defer(memory))) && made' == Step(s, Defer(memory)).made
    ensures forall o :: o in Storage(copies') ==> o in Storage(copies) || fresh(o)
  {
    hide Inv, Storage, Separate;
    OwnerCounts(s);
    copies', made' := copies, made;
    var d := ctx.Defer(memory);
    if d != null {
      forall k | k in copies ensures Copied(ctx, copies[k], s.copies[k]) {
        assert old(Copied(ctx, copies[k], s.copies[k]));
      }
      copies', made' := copies[made := d], made + 1;
      StorageAdd(copies, made, d);
      CopyAdded(ctx, copies, s.copies, made, d, d.data.Content());
    }
  }

  lemma StorageAdd(copies: map<nat, Deferred>, k: nat, d: Deferred)
    requires Separate(copies) && forall l :: l in copies ==> copies[l] != d && copies[l].data != d.data
    ensures Separate(copies[k := d])
    ensures forall o :: o in Storage(copies[k := d]) ==> o in Storage(copies) || o == d || o == d.data
  {}

  /** Everything else an owner can do, on the context. */
  method OwnContext(ctx: Context, e: Event, ghost s: System) returns (out: seq<byte>)
    requires ContextMatches(ctx, s) && s.owners > 0 && s.count > 0 && !e.Late? && !e.Defer?
    modifies ctx, ctx.data
    ensures ContextMatches(ctx, Step(s, e))
    ensures Added(s.log, Step(s, e).log, out, if e.Reply? || e.Unref? then e.answer else 0)
  {
    hide ReplyRights.Send;
    out := [];
    match e {
      case Accept(id) =>
        var r := ctx.data.Put(|id|, Given(id), |s.ids|);
      case Reply(answer) =>
        var ret; ghost var calls;
        ret, out, calls := ctx.Send(ctx.data, answer);
      case AddRef =>
        var r := ctx.AddRef();
      case Unref(answer) =>
        ghost var calls;
        out, calls := ctx.Unref(answer);
      case _ =>
    }
  }

  /** The same with the deferred copies, which it does not touch. */
  method Own(ctx: Context, copies: map<nat, Deferred>, e: Event, ghost s: System) returns (out: seq<byte>)
    requires Inv(s) && Matches(ctx, copies, s) && s.owners > 0 && !e.Late? && !e.Defer?
    modifies ctx, ctx.data
    ensures Matches(ctx, copies, Step(s, e))
    ensures Added(s.log, Step(s, e).log, out, if e.Reply? || e.Unref? then e.answer else 0)
  {
    hide Inv, Storage, ReplyRights.Send, Separate, ContextMatches, Added;
    OwnerCounts(s);
    out := OwnContext(ctx, e, s);
    forall k | k in copies ensures Copied(ctx, copies[k], s.copies[k]) {
      assert old(Copied(ctx, copies[k], s.copies[k]));
    }
  }

  lemma OwnerCounts(s: System)
    requires Inv(s)
    ensures s.owners > 0 ==> s.count > 0
    ensures s.made !in s.copies
  {}

  /** What the send function saw. */
  function Seen(log: seq<Call>): seq<(seq<byte>, bool)> {
    if log == [] then [] else Seen(log[..|log| - 1]) + [(log[|log| - 1].id, log[|log| - 1].ok)]
  }

  lemma SeenMore(log: seq<Call>, log': seq<Call>, out: seq<byte>, answer: int)
    requires Added(log, log', out, answer)
    ensures Seen(log') == if out == [] then Seen(log) else Seen(log) + [(out, answer >= 0)]
  {
    if out != [] {
      assert log'[..|log|] == log;
    }
  }

  /** One event on the objects. */
  method Do(ctx: Context, copies: map<nat, Deferred>, owners: nat, made: nat, e: Event, ghost s: System)
      returns (copies': map<nat, Deferred>, owners': nat, made': nat, out: seq<byte>, answer: int)
    requires Inv(s) && Matches(ctx, copies, s) && owners == s.owners && made == s.made
    modifies ctx, ctx.data, Storage(copies)
    ensures var s' := Step(s, e);
            Matches(ctx, copies', s') && owners' == s'.owners && made' == s'.made && Added(s.log, s'.log, out, answer)
    ensures forall o :: o in Storage(copies') ==> o in Storage(copies) || fresh(o)
  {
    hide Inv, Storage, Matches, ReplyRights.Send;
    MatchesKeys(ctx, copies, s);
    copies', owners', made', out, answer := copies, owners, made, [], 0;
    if e.Late? {
      if e.copy in copies {
        copies', out := Late(ctx, copies, e.copy, e.msg, e.answer, s);
        answer := e.answer;
      }
    } else if owners > 0 {
      if e.Defer? {
        copies', made' := MakeCopy(ctx, copies, made, e.memory, s);
      } else {
        var count := ctx.count;
        out := Own(ctx, copies, e, s);
        answer := if e.Reply? || e.Unref? then e.answer else 0;
        if e.Unref? {
          owners' := owners - 1;
        } else if e.AddRef? && Raise(count).1 != 0 {
          owners' := owners + 1;
        }
      }
    }
  }

  lemma MatchesKeys(ctx: Context, copies: map<nat, Deferred>, s: System)
    requires Matches(ctx, copies, s)
    ensures copies.Keys == s.copies.Keys && ctx.count == s.count
  {}

  /** Over every run the objects do what the system does, and nothing is used after it was freed. */
  method Play(max: nat, send: bool, target: bool, es: seq<Event>) returns (seen: seq<(seq<byte>, bool)>)
    ensures seen == Seen(Run(Start(max, send, target), es).log)
  {
    hide Inv, Storage, Matches, Step, Added;
    var ctx := new Context(max, send, target);
    var copies: map<nat, Deferred>, owners, made := map[], 1, 0;
    ghost var s := Start(max, send, target);
    StartInv(max, send, target);
    StartMatches(ctx, s);
    seen := [];
    for i := 0 to |es|
      invariant s == Run(Start(max, send, target), es[..i]) && seen == Seen(s.log)
      invariant Inv(s) && Matches(ctx, copies, s) && owners == s.owners && made == s.made
      invariant fresh(ctx) && fresh(ctx.data) && forall o :: o in Storage(copies) ==> fresh(o)
    {
      assert es[..i + 1][..i] == es[..i];
      var out, answer;
      copies, owners, made, out, answer := Do(ctx, copies, owners, made, es[i], s);
      SeenMore(s.log, Step(s, es[i]).log, out, answer);
      StepInv(s, es[i]);
      s := Step(s, es[i]);
      if out != [] {
        seen := seen + [(out, answer >= 0)];
      }
    }
    assert es[..|es|] == es;
  }

  lemma StartMatches(ctx: Context, s: System)
    requires ctx.data.Valid() && ctx.data.Content() == Right(0, []) && ctx.count == 1 && !ctx.freed
    requires s == Start(ctx.data.max, ctx.send, ctx.target)
    ensures Matches(ctx, map[], s) && Storage(map[]) == {}
  {}
}
