/** The decoder call over a scatter list, with the alignment of new data: the loops of the source,
    proved to compute `Call` on the concatenated memory. */
module CobsScatter {
  import opened Bytes
  import opened Scatter
  import opened Messages
  import opened CobsFormat
  import opened CobsDecoder
  import opened CobsCall

  /** Read position `r` and write position `w`, both inside the list. */
  ghost predicate Located(parts: seq<array<byte>>, dst: Cursor, src: Cursor, w: nat, r: nat)
    reads parts
  {
    w <= r <= |Flat(parts)| && At(parts, dst, w) && At(parts, src, r)
  }

  /** The data part of a block.  `mlen` bytes of the message are decoded behind `base`, and `proc` more
      bytes lie before the input.  `ret` is 2 when the block's data is complete. */
  method DataBlock(v: Variant, ghost parts: seq<array<byte>>, dst0: Cursor, src0: Cursor, ghost base: nat, mlen0: nat, proc: nat,
                   code: byte, pos0: nat)
      returns (dst: Cursor, src: Cursor, mlen: nat, pos: nat, ret: int)
    requires Distinct(parts) && code != 0 && Located(parts, dst0, src0, base + mlen0, base + mlen0 + proc)
    modifies parts
    ensures mlen0 <= mlen && |Flat(parts)| == old(|Flat(parts)|) && Located(parts, dst, src, base + mlen, base + mlen + proc)
    ensures Loop(v, old(Flat(parts)), base + mlen0, base + mlen0 + proc, code, pos0) ==
            Loop(v, Flat(parts), base + mlen, base + mlen + proc, code, pos)
    ensures ret == 2 ==> pos >= LenData(v, code)
    ensures ret != 2 ==> Loop(v, Flat(parts), base + mlen, base + mlen + proc, code, pos) ==
                         Out(Flat(parts), base + mlen, base + mlen + proc, code, pos, ret)
  {
    hide At, Flat, LenData, Loop;
    dst, src, mlen, pos, ret := dst0, src0, mlen0, pos0, 2;
    while pos < LenData(v, code)
      invariant mlen0 <= mlen && |Flat(parts)| == old(|Flat(parts)|)
      invariant Located(parts, dst, src, base + mlen, base + mlen + proc) && ret == 2
      invariant Loop(v, old(Flat(parts)), base + mlen0, base + mlen0 + proc, code, pos0) ==
                Loop(v, Flat(parts), base + mlen, base + mlen + proc, code, pos)
      decreases LenData(v, code) - pos
    {
      LoopStops(v, Flat(parts), base + mlen, base + mlen + proc, code, pos);
      var ok, src', val := GetByte(parts, src, base + mlen + proc);
      if !ok { return dst, src, mlen, pos, 0; }
      if val == 0 { return dst, src, mlen, pos, MISSING_DATA; }
      if proc == 0 { return dst, src, mlen, pos, 0; }
      LoopData(v, Flat(parts), base + mlen, base + mlen + proc, code, pos);
      dst := PutByte(parts, dst, base + mlen, val);
      src, mlen, pos := src', mlen + 1, pos + 1;
    }
  }

  /** The zeros of a block once the next code is known. */
  method ZeroRun(v: Variant, ghost parts: seq<array<byte>>, dst0: Cursor, ghost src: Cursor, ghost base: nat,
                 mlen0: nat, proc0: nat, code: byte, pos0: nat, next: byte)
      returns (dst: Cursor, mlen: nat, proc: nat, pos: nat, ok: bool)
    requires Distinct(parts) && code != 0 && Located(parts, dst0, src, base + mlen0, base + mlen0 + proc0)
    requires base + mlen0 + proc0 < |Flat(parts)| && Flat(parts)[base + mlen0 + proc0] == next && pos0 >= LenData(v, code)
    modifies parts
    ensures mlen + proc == mlen0 + proc0 && |Flat(parts)| == old(|Flat(parts)|)
    ensures Located(parts, dst, src, base + mlen, base + mlen + proc)
    ensures base + mlen + proc < |Flat(parts)| && Flat(parts)[base + mlen + proc] == next && pos >= LenData(v, code)
    ensures Loop(v, old(Flat(parts)), base + mlen0, base + mlen0 + proc0, code, pos0) ==
            Loop(v, Flat(parts), base + mlen, base + mlen + proc, code, pos)
    ensures ok ==> pos >= LenData(v, code) + LenZero(v, code, next)
    ensures !ok ==> Loop(v, Flat(parts), base + mlen, base + mlen + proc, code, pos) ==
                    Out(Flat(parts), base + mlen, base + mlen + proc, code, pos, MISSING_BUFFER)
  {
    hide At, Flat, LenData, LenZero;
    dst, mlen, proc, pos, ok := dst0, mlen0, proc0, pos0, true;
    while pos < LenData(v, code) + LenZero(v, code, next)
      invariant mlen + proc == mlen0 + proc0 && |Flat(parts)| == old(|Flat(parts)|) && ok
      invariant Located(parts, dst, src, base + mlen, base + mlen + proc)
      invariant base + mlen + proc < |Flat(parts)| && Flat(parts)[base + mlen + proc] == next && pos >= LenData(v, code)
      invariant Loop(v, old(Flat(parts)), base + mlen0, base + mlen0 + proc0, code, pos0) ==
                Loop(v, Flat(parts), base + mlen, base + mlen + proc, code, pos)
      decreases LenData(v, code) + LenZero(v, code, next) - pos
    {
      if proc == 0 { return dst, mlen, proc, pos, false; }
      dst := PutByte(parts, dst, base + mlen, 0);
      mlen, proc, pos := mlen + 1, proc - 1, pos + 1;
    }
  }

  /** All blocks up to the end of the message, of the input or of the room. */
  method Blocks(v: Variant, ghost parts: seq<array<byte>>, dst0: Cursor, src0: Cursor, ghost base: nat, mlen0: nat, proc0: nat,
                code0: byte, pos0: nat)
      returns (mlen: nat, proc: nat, code: byte, pos: nat, ret: int)
    requires Distinct(parts) && Located(parts, dst0, src0, base + mlen0, base + mlen0 + proc0)
    modifies parts
    ensures Loop(v, old(Flat(parts)), base + mlen0, base + mlen0 + proc0, code0, pos0) ==
            Out(Flat(parts), base + mlen, base + mlen + proc, code, pos, ret)
  {
    hide At, Flat, LenData, LenZero, Loop;
    var dst, src := dst0, src0;
    mlen, proc, code, pos := mlen0, proc0, code0, pos0;
    while code != 0
      invariant |Flat(parts)| == old(|Flat(parts)|) && Located(parts, dst, src, base + mlen, base + mlen + proc)
      invariant Loop(v, old(Flat(parts)), base + mlen0, base + mlen0 + proc0, code0, pos0) ==
                Loop(v, Flat(parts), base + mlen, base + mlen + proc, code, pos)
      decreases |Flat(parts)| - (base + mlen + proc)
    {
      dst, src, mlen, pos, ret := DataBlock(v, parts, dst, src, base, mlen, proc, code, pos);
      if ret != 2 { return; }
      LoopEnds(v, Flat(parts), base + mlen, base + mlen + proc, code, pos);
      var ok, src', next := GetByte(parts, src, base + mlen + proc);
      if !ok { return mlen, proc, code, pos, 0; }
      dst, mlen, proc, pos, ok := ZeroRun(v, parts, dst, src, base, mlen, proc, code, pos, next);
      if !ok { return mlen, proc, code, pos, MISSING_BUFFER; }
      LoopNext(v, Flat(parts), base + mlen, base + mlen + proc, code, pos);
      src, proc, code, pos := src', proc + 1, next, 0;
    }
    LoopEnds(v, Flat(parts), base + mlen, base + mlen + proc, code, pos);
    return mlen, proc, 0, 0, 1;
  }

  /** Address of byte `p` and number of bytes left in its part. */
  function Where(parts: seq<array<byte>>, addr: seq<nat>, p: nat): (nat, nat)
    requires |addr| == |parts|
    decreases |parts|
  {
    if parts == [] then (0, 0)
    else if p < parts[0].Length then (addr[0] + p, parts[0].Length - p)
    else Where(parts[1..], addr[1..], p - parts[0].Length)
  }

  lemma {:induction false} WhereSkips(parts: seq<array<byte>>, addr: seq<nat>, k: nat, p: nat)
    requires |addr| == |parts| && k <= |parts| && p >= Before(parts, k)
    ensures Where(parts, addr, p) == Where(parts[k..], addr[k..], p - Before(parts, k))
    decreases k
  {
    if k == 0 {
      assert parts[0..] == parts && addr[0..] == addr;
    } else {
      WhereSkips(parts, addr, k - 1, p);
      assert parts[k - 1..][1..] == parts[k..] && addr[k - 1..][1..] == addr[k..];
    }
  }

  lemma WhereAt(parts: seq<array<byte>>, addr: seq<nat>, c: Cursor, p: nat)
    requires |addr| == |parts| && At(parts, c, p) && (c.used == 0 ==> c.cont == [])
    ensures c.used > 0 ==> |c.cont| < |parts| && Where(parts, addr, p) == (addr[|parts| - |c.cont| - 1] + c.off, c.used)
    ensures c.used == 0 ==> Where(parts, addr, p) == (0, 0)
  {
    var k := |parts| - |c.cont|;
    if c.used > 0 {
      assert Before(parts, k) == Before(parts, k - 1) + parts[k - 1].Length;
      WhereSkips(parts, addr, k - 1, p);
    } else {
      WhereSkips(parts, addr, k, p);
      assert parts[k..] == [];
    }
  }

  /** The shift of new data: the largest alignment of at most 16 for which the part has room and the
      misalignment of the address fits into the gap. */
  function Align(addr: nat, used: nat, gap: nat, align: nat): (post: nat)
    ensures post <= gap
    decreases align
  {
    if align <= 1 then 0
    else if used < align / 2 || gap < addr % align then Align(addr, used, gap, align / 2)
    else addr % align
  }

  /** The shift belongs to the largest power of two up to 16 that meets both tests. */
  lemma AlignLargest(addr: nat, used: nat, gap: nat)
    ensures Align(addr, used, gap, 16) ==
            if used >= 8 && addr % 16 <= gap then addr % 16
            else if used >= 4 && addr % 8 <= gap then addr % 8
            else if used >= 2 && addr % 4 <= gap then addr % 4
            else if used >= 1 && addr % 2 <= gap then addr % 2
            else 0
  {
    assert Align(addr, used, gap, 1) == 0;
    assert Align(addr, used, gap, 2) == if used < 1 || gap < addr % 2 then 0 else addr % 2;
    assert Align(addr, used, gap, 4) == if used < 2 || gap < addr % 4 then Align(addr, used, gap, 2) else addr % 4;
    assert Align(addr, used, gap, 8) == if used < 4 || gap < addr % 8 then Align(addr, used, gap, 4) else addr % 8;
  }

  method AlignShift(addr: nat, used: nat, gap: nat) returns (post: nat)
    ensures post == Align(addr, used, gap, 16)
    ensures post == if used >= 8 && addr % 16 <= gap then addr % 16
                    else if used >= 4 && addr % 8 <= gap then addr % 8
                    else if used >= 2 && addr % 4 <= gap then addr % 4
                    else if used >= 1 && addr % 2 <= gap then addr % 2
                    else 0
  {
    AlignLargest(addr, used, gap);
    var align := 16;
    while align > 1
      invariant align >= 1 && Align(addr, used, gap, 16) == Align(addr, used, gap, align)
      decreases align
    {
      post := addr % align;
      if used < align / 2 || gap < post {
        align := align / 2;
        continue;
      }
      return;
    }
    post := 0;
  }

  /** The shift a call makes: none while a message is in progress. */
  function Shift(parts: seq<array<byte>>, addr: seq<nat>, s: State): (shift: nat)
    requires |addr| == |parts| && s.dpos + s.dlen <= s.curr
    ensures shift <= Gap(s)
  {
    if !Fresh(s) then 0
    else var (a, used) := Where(parts, addr, s.dpos + s.dlen); Align(a, used, Gap(s), 16)
  }

  lemma {:induction false} LoopTail(v: Variant, mem: seq<byte>, w: nat, r: nat, code: byte, pos: nat)
    requires w <= r <= |mem|
    ensures Loop(v, mem, w, r, code, pos) == Loop(v.(tail := false), mem, w, r, code, pos)
    decreases |mem| - r, if pos < 258 then 258 - pos else 0
  {
    if code != 0 && r < |mem| {
      if pos < LenData(v, code) {
        if mem[r] != 0 && w < r {
          LoopTail(v, mem[w := mem[r]], w + 1, r + 1, code, pos + 1);
        }
      } else if pos < LenData(v, code) + LenZero(v, code, mem[r]) {
        if w < r {
          LoopTail(v, mem[w := 0], w + 1, r, code, pos + 1);
        }
      } else {
        LoopTail(v, mem, w, r + 1, mem[r], 0);
      }
    }
  }

  /** Finds the place for decoded data: behind the previous data, moved by the shift when new data
      begins. */
  method Place(source: seq<array<byte>>, addr: seq<nat>, s: State)
      returns (ok: bool, dst: Cursor, start: nat, ghost at: nat)
    requires |addr| == |source|
    ensures ok <==> s.dpos + s.dlen <= s.curr && s.dpos + s.dlen <= |Flat(source)|
    ensures ok ==> start == Begin(s, Shift(source, addr, s)) && At(source, dst, at)
    ensures ok ==> at == Min(if Fresh(s) then start else s.dpos + s.dlen, |Flat(source)|)
  {
    hide Flat, At, Where, Align;
    var dlen := s.dpos + s.dlen;
    dst, start, at := Cursor(null, 0, 0, source), s.dpos, 0;
    if dlen > s.curr { return false, dst, start, at; }
    FirstAt(source);
    var n, data;
    dst, n, data := ReadFrom(source, dst, 0, dlen);
    if n < dlen { return false, dst, start, at; }
    ok, at := true, dlen;
    if Fresh(s) {
      WhereAt(source, addr, dst, dlen);
      var a := if dst.used == 0 then 0 else addr[|source| - |dst.cont| - 1] + dst.off;
      var post := AlignShift(a, dst.used, s.curr - dlen);
      dst, n, data := ReadFrom(source, dst, dlen, post);
      start, at := dlen + post, at + n;
    }
  }

  lemma FirstAt(source: seq<array<byte>>)
    ensures At(source, Cursor(null, 0, 0, source), 0)
  {}

  /** The input position is behind the memory, but the alignment of new data reaches it: there is no
      space left between data and input in which the source would notice. */
  ghost predicate Lost(source: seq<array<byte>>, addr: seq<nat>, s: State)
    requires |addr| == |source|
    reads source
  {
    s.dpos + s.dlen <= |Flat(source)| < s.curr && Shift(source, addr, s) == Gap(s)
  }

  /** The state with the previous message dropped and new data placed. */
  function Dropped(s: State, shift: nat): State {
    s.(dpos := Begin(s, shift), dlen := if Fresh(s) then 0 else s.dlen, msg := -1)
  }

  lemma ShiftNone(source: seq<array<byte>>, addr: seq<nat>, s: State)
    requires |addr| == |source|
    ensures s.dpos + s.dlen <= s.curr && !Fresh(s) ==> Shift(source, addr, s) == 0
  {}

  /** The outcomes of a call of a variant without inlined tails. */
  lemma CallParts(v: Variant, mem: seq<byte>, s: State, shift: nat)
    requires !v.tail && Placed(mem, s) && shift <= Gap(s)
    ensures var at := Dropped(s, shift);
            var w := at.dpos + at.dlen;
            && w <= s.curr
            && (s.code == 0 && s.curr == |mem| ==> Call(v, mem, s, shift) == Result(mem, at, 0))
            && (s.code == 0 && s.curr < |mem| && mem[s.curr] == 0 ==>
                  Call(v, mem, s, shift) == Result(mem, at.(curr := s.curr + 1 - w), BAD_VALUE))
            && (s.code == 0 && s.curr < |mem| && mem[s.curr] != 0 ==>
                  Call(v, mem, s, shift) == Ended(at.dpos, Loop(v, mem, w, s.curr + 1, mem[s.curr], 0)))
            && (s.code != 0 ==> Call(v, mem, s, shift) == Ended(at.dpos, Loop(v, mem, w, s.curr, s.code, s.pos)))
  {
    hide Loop;
  }

  /** The state that the loop leaves. */
  function Ended(dpos: nat, o: Out): Result
    requires dpos <= o.w
  {
    Result(o.mem, State(o.code, o.pos, o.r, dpos, o.w - dpos, if o.ret == 1 then o.w - dpos else -1), o.ret)
  }

  /** Finds both positions, exactly when they are inside the memory or the input position is lost. */
  method Locate(source: seq<array<byte>>, addr: seq<nat>, s: State)
      returns (ok: bool, dst: Cursor, src: Cursor, s': State)
    requires |addr| == |source|
    ensures ok <==> s.dpos + s.dlen <= s.curr <= |Flat(source)| || Lost(source, addr, s)
    ensures ok ==> s' == Dropped(s, Shift(source, addr, s))
    ensures ok && s.curr <= |Flat(source)| ==> Located(source, dst, src, s'.dpos + s'.dlen, s.curr)
    ensures ok && s.curr > |Flat(source)| ==>
              s'.dpos + s'.dlen == s.curr && Located(source, dst, src, |Flat(source)|, |Flat(source)|)
    ensures !ok ==> s'.code == s.code && s'.pos == s.pos && (s'.msg == -1 || s' == s)
  {
    hide Flat, At, Shift;
    ShiftNone(source, addr, s);
    var start; ghost var at;
    s' := s;
    ok, dst, start, at := Place(source, addr, s);
    src := dst;
    if !ok { return; }
    s' := s.(dpos := start, dlen := if Fresh(s) then 0 else s.dlen, msg := -1);
    var proc := s.curr - (s'.dpos + s'.dlen);
    var n, data;
    src, n, data := ReadFrom(source, dst, at, proc);
    ok := n >= proc;
  }

  /** The blocks from a place in the message on, and the state they leave. */
  method Continue(v: Variant, source: seq<array<byte>>, dst: Cursor, src: Cursor, ghost base: nat, s: State,
                  mlen0: nat, proc0: nat, code0: byte, pos0: nat)
      returns (s': State, ret: int)
    requires Distinct(source) && Located(source, dst, src, base + mlen0, base + mlen0 + proc0)
    modifies source
    ensures var o := Loop(v, old(Flat(source)), base + mlen0, base + mlen0 + proc0, code0, pos0);
            && Flat(source) == o.mem && ret == o.ret && base <= o.w <= o.r
            && s' == State(o.code, o.pos, s.dpos + (o.r - base), s.dpos, o.w - base, if ret == 1 then o.w - base else -1)
  {
    hide Flat, At, Loop;
    var mlen, proc, code, pos;
    mlen, proc, code, pos, ret := Blocks(v, source, dst, src, base, mlen0, proc0, code0, pos0);
    s' := State(code, pos, s.dpos + mlen + proc, s.dpos, mlen, if ret == 1 then mlen else -1);
  }

  /** The call on unpacked state. */
  method DecodeAt(v: Variant, source: seq<array<byte>>, addr: seq<nat>, s: State) returns (s': State, ret: int)
    requires !v.tail && Distinct(source) && |addr| == |source|
    requires s.pos <= 255 && (s.code == 0 ==> s.pos == 0) && (s.msg == -1 || s.msg == s.dlen)
    modifies source
    ensures s'.pos <= 255 && (s'.code == 0 ==> s'.pos == 0) && (s'.msg == -1 || s'.msg == s'.dlen)
    ensures !old(Placed(Flat(source), s)) ==> Flat(source) == old(Flat(source))
    ensures !old(Placed(Flat(source), s)) && !old(Lost(source, addr, s)) ==> ret == BAD_ARGUMENT
    ensures old(Lost(source, addr, s)) ==> ret == 0 && s' == Dropped(s, Shift(source, addr, s))
    ensures old(Placed(Flat(source), s)) ==>
            Result(Flat(source), s', ret) == Call(v, old(Flat(source)), s, Shift(source, addr, s))
  {
    hide Flat, At, Loop, Shift, Call, Fresh;
    if Placed(Flat(source), s) { CallParts(v, Flat(source), s, Shift(source, addr, s)); }
    var ok, dst, src, at;
    ok, dst, src, at := Locate(source, addr, s);
    if !ok { return at, BAD_ARGUMENT; }
    ghost var base := if s.curr <= |Flat(source)| then at.dpos else |Flat(source)| - at.dlen;
    var code, proc := s.code, s.curr - (at.dpos + at.dlen);
    if code == 0 {
      ok, src, code := GetByte(source, src, base + at.dlen + proc);
      if !ok { return at, 0; }
      proc := proc + 1;
      if code == 0 {
        return at.(curr := proc), BAD_VALUE;
      }
    }
    LoopEnds(v, Flat(source), base + at.dlen, base + at.dlen + proc, code, s.pos);
    s', ret := Continue(v, source, dst, src, base, at, at.dlen, proc, code, s.pos);
  }

  class Decoder {
    var ctx: nat
    var curr: nat
    var pos: nat
    var len: nat
    var msg: int

    /** The packed word holds the code and the position in its block. */
    ghost function View(): State
      reads this
    {
      State(ctx % 0x100, ctx / 0x100, curr, pos, len, msg)
    }

    ghost predicate Valid()
      reads this
    {
      ctx < 0x10000 && (ctx % 0x100 == 0 ==> ctx == 0) && (msg == -1 || msg == len)
    }

    constructor ()
      ensures Valid() && View() == FIRST
    {
      ctx, curr, pos, len, msg := 0, 0, 0, 0, -1;
    }

    /** One decoder call of a variant without inlined tails. */
    method Decode(v: Variant, source: seq<array<byte>>, addr: seq<nat>) returns (ret: int)
      requires Valid() && !v.tail && Distinct(source) && |addr| == |source|
      modifies this, source
      ensures !old(Placed(Flat(source), View())) ==> Flat(source) == old(Flat(source))
      ensures !old(Placed(Flat(source), View())) && !old(Lost(source, addr, View())) ==> ret == BAD_ARGUMENT
      ensures old(Lost(source, addr, View())) ==>
              Valid() && ret == 0 && View() == Dropped(old(View()), old(Shift(source, addr, View())))
      ensures old(Placed(Flat(source), View())) ==>
              Valid() &&
              Result(Flat(source), View(), ret) == Call(v, old(Flat(source)), old(View()), old(Shift(source, addr, View())))
    {
      hide Call, Flat, Shift;
      var s;
      s, ret := DecodeAt(v, source, addr, State(ctx % 0x100, ctx / 0x100, curr, pos, len, msg));
      ctx, curr, pos, len, msg := s.pos * 0x100 + s.code, s.curr, s.dpos, s.dlen, s.msg;
      assert ctx % 0x100 == s.code && ctx / 0x100 == s.pos;
    }

    /** One decoder call of a variant with inlined tails: the regular call, then the last byte. */
    method DecodeTail(v: Variant, source: seq<array<byte>>, addr: seq<nat>) returns (ret: int)
      requires Valid() && v.tail && Distinct(source) && |addr| == |source|
      modifies this, source
      ensures !old(Placed(Flat(source), View())) ==> Flat(source) == old(Flat(source))
      ensures !old(Placed(Flat(source), View())) && !old(Lost(source, addr, View())) ==> ret == BAD_ARGUMENT
      ensures old(Lost(source, addr, View())) ==>
              Valid() && ret == 0 && View() == Dropped(old(View()), old(Shift(source, addr, View())))
      ensures old(Placed(Flat(source), View())) ==>
              Valid() &&
              Result(Flat(source), View(), ret) == Call(v, old(Flat(source)), old(View()), old(Shift(source, addr, View())))
    {
      hide Flat, At, Call, Shift;
      ghost var s, mem, shift := View(), Flat(source), 0;
      if Placed(Flat(source), View()) {
        shift := Shift(source, addr, View());
        CallTail(v, mem, s, shift);
      }
      ret := Decode(v.(tail := false), source, addr);
      if ret == MISSING_DATA && ctx != 0 {
        FirstAt(source);
        var c, n, data := ReadFrom(source, Cursor(null, 0, 0, source), 0, pos + len);
        c := PutByte(source, c, pos + len, ctx % 0x100);
        len := len + 1;
        ctx, curr, msg, ret := 0, curr + 1, len, 1;
      }
    }
  }

  /** What the tail wrapper makes of a regular call. */
  ghost function WithTail(res: Result): Result
    requires res.ret == MISSING_DATA ==> res.s.dpos + res.s.dlen < |res.mem|
  {
    if res.ret != MISSING_DATA then res
    else
      var w := res.s.dpos + res.s.dlen;
      Result(res.mem[w := res.s.code],
             State(0, 0, res.s.curr + 1, res.s.dpos, res.s.dlen + 1, res.s.dlen + 1), 1)
  }

  lemma CallTail(v: Variant, mem: seq<byte>, s: State, shift: nat)
    requires v.tail && Placed(mem, s) && shift <= Gap(s)
    ensures var res := Call(v.(tail := false), mem, s, shift);
            && (res.ret == MISSING_DATA ==> res.s.dpos + res.s.dlen < |mem| && res.s.code != 0)
            && Call(v, mem, s, shift) == WithTail(res)
  {
    hide Loop;
    var w := if Fresh(s) then Begin(s, shift) else s.dpos + s.dlen;
    if s.code != 0 {
      LoopTail(v, mem, w, s.curr, s.code, s.pos);
    } else if s.curr < |mem| && mem[s.curr] != 0 {
      LoopTail(v, mem, w, s.curr + 1, mem[s.curr], 0);
    }
  }

  /** The alignment can take the gap of a held code: a buffer at an odd address whose first byte
      arrived alone.  The call on the rest makes no progress, and neither does any later one. */
  lemma AlignmentStalls(mem: seq<byte>, addr: nat)
    requires |mem| >= 8 && mem[0] >= 2 && mem[1] != 0 && addr % 16 == 1
    ensures var v := Variant(false, false);
            var held := State(mem[0], 0, 1, 0, 0, -1);
            var stuck := held.(dpos := 1);
            && Call(v, mem[..1], FIRST, 0) == Result(mem[..1], held, 0)
            && Align(addr, |mem|, Gap(held), 16) == 1
            && Call(v, mem, held, 1) == Result(mem, stuck, 0)
            && Call(v, mem, stuck, 0) == Result(mem, stuck, 0)
  {
  }
}
