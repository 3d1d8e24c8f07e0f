/** The encoder call itself: one loop over a chunk, writing into a bounded buffer. */
module CobsEncode {
  import opened Bytes
  import opened CobsFormat
  import opened CobsEncoder

  const BAD_ARGUMENT := -0x1
  const BAD_VALUE := -0x2
  const MISSING_BUFFER := -0x11

  datatype Input = Finish | Data(bytes: seq<byte>)

  function Size(e: Enc): nat {
    |e.fin| + if e.begun then |e.open| + 1 else 0
  }

  lemma {:induction false} SizeGrows(v: Variant, e: Enc, chunk: seq<byte>)
    requires |e.open| + 1 < MaxLen(v) && e.begun
    ensures Size(Chunk(v, e, chunk)) >= Size(e)
    decreases |chunk|
  {
    if chunk != [] {
      var (e', n) := Take(v, e, chunk);
      SizeGrows(v, e', chunk[n..]);
    }
  }

  /** The block that `chunk[k]` completes ends exactly at the end of the buffer. */
  ghost predicate FillsAt(v: Variant, e: Enc, chunk: seq<byte>, size: nat, k: nat)
    requires |e.open| + 1 < MaxLen(v)
  {
    k < |chunk| && chunk[k] != 0 &&
    var e' := Chunk(v, e, chunk[..k]);
    |e'.open| + 2 == MaxLen(v) && |e'.fin| + MaxLen(v) == size
  }

  ghost predicate ExactFill(v: Variant, e: Enc, chunk: seq<byte>, size: nat)
    requires |e.open| + 1 < MaxLen(v)
  {
    exists k :: FillsAt(v, e, chunk, size, k)
  }

  /** `cur` is the state after the first `k` bytes, also when the chunk ends early. */
  ghost predicate Reached(v: Variant, e: Enc, chunk: seq<byte>, k: nat, cur: Enc)
    requires |e.open| + 1 < MaxLen(v)
  {
    k <= |chunk| && |cur.open| + 1 < MaxLen(v) && cur.begun &&
    forall j :: k <= j <= |chunk| ==> Chunk(v, e, chunk[..j]) == Chunk(v, cur, chunk[k..j])
  }

  lemma ReachedAt(v: Variant, e: Enc, chunk: seq<byte>, k: nat, cur: Enc)
    requires |e.open| + 1 < MaxLen(v) && Reached(v, e, chunk, k, cur)
    ensures Chunk(v, e, chunk[..k]) == cur
  {
    assert chunk[k..k] == [];
    assert Chunk(v, e, chunk[..k]) == Chunk(v, cur, chunk[k..k]);
  }

  /** The first byte begins the message. */
  lemma Begins(v: Variant, e: Enc, chunk: seq<byte>)
    requires |e.open| + 1 < MaxLen(v) && chunk != []
    ensures Chunk(v, e.(begun := true), chunk) == Chunk(v, e, chunk)
  {
    assert Take(v, e.(begun := true), chunk) == Take(v, e, chunk);
  }

  lemma FillsBegun(v: Variant, e: Enc, chunk: seq<byte>, size: nat)
    requires |e.open| + 1 < MaxLen(v)
    ensures ExactFill(v, e, chunk, size) == ExactFill(v, e.(begun := true), chunk, size)
  {
    forall k: nat ensures FillsAt(v, e, chunk, size, k) == FillsAt(v, e.(begun := true), chunk, size, k) {
      if 0 < k <= |chunk| {
        Begins(v, e, chunk[..k]);
      }
    }
  }

  /** What `Take` does depends only on the bytes it takes. */
  lemma TakePrefix(v: Variant, e: Enc, chunk: seq<byte>, j: nat)
    requires |e.open| + 1 < MaxLen(v) && chunk != [] && Take(v, e, chunk).1 <= j <= |chunk|
    ensures Take(v, e, chunk[..j]) == Take(v, e, chunk)
  {}

  lemma ReachedNext(v: Variant, e: Enc, chunk: seq<byte>, k: nat, cur: Enc)
    requires |e.open| + 1 < MaxLen(v) && Reached(v, e, chunk, k, cur) && k < |chunk|
    ensures var (e', n) := Take(v, cur, chunk[k..]);
            Reached(v, e, chunk, k + n, e')
  {
    var (e', n) := Take(v, cur, chunk[k..]);
    forall j | k + n <= j <= |chunk|
      ensures Chunk(v, e, chunk[..j]) == Chunk(v, e', chunk[k + n..j])
    {
      TakePrefix(v, cur, chunk[k..], j - k);
      assert chunk[k..j] == chunk[k..][..j - k] && chunk[k..j][n..] == chunk[k + n..j];
    }
  }

  /** Once the buffer is full no later block can end exactly at its end. */
  lemma FullNeverFills(v: Variant, e: Enc, chunk: seq<byte>, k: nat, cur: Enc, size: nat)
    requires |e.open| + 1 < MaxLen(v) && Reached(v, e, chunk, k, cur) && Size(cur) == size
    ensures forall j :: j >= k ==> !FillsAt(v, e, chunk, size, j)
  {
    forall j | j >= k ensures !FillsAt(v, e, chunk, size, j) {
      if j < |chunk| {
        assert Chunk(v, e, chunk[..j]) == Chunk(v, cur, chunk[k..j]);
        SizeGrows(v, cur, chunk[k..j]);
      }
    }
  }

  /** `cur` is what the buffer holds when its open block of `code` bytes ends at `dst`. */
  ghost predicate At(buf: seq<byte>, dst: nat, code: nat, cur: Enc) {
    0 < code <= dst <= |buf| &&
    cur == Enc(buf[..dst - code], true, buf[dst - code + 1..dst])
  }

  /** The saved `done` and `scratch` and the loop's `dst` and `code` describe the same bytes. */
  lemma AtState(s: seq<byte>, dst: nat, code: nat, cur: Enc)
    requires 0 < code <= dst <= |s| && cur.begun
    ensures At(s, dst, code, cur) <==> cur.fin == s[..dst - code] && cur.open == s[dst - code + 1..dst]
  {}

  /** The zero-byte macro: closes the block, for a zero pair with a raised code. */
  method PutZero(v: Variant, buf: array<byte>, dst: nat, code: nat, rest: seq<byte>, ghost cur: Enc) returns (n: nat)
    requires At(buf[..], dst, code, cur) && code < MaxLen(v) && dst < buf.Length
    requires rest != [] && rest[0] == 0
    modifies buf
    ensures n == Take(v, cur, rest).1
    ensures At(buf[..], dst + 1, 1, Take(v, cur, rest).0)
    ensures buf[dst..] == old(buf[dst..])
  {
    if v.zpe && code > 1 && code < 32 && |rest| > 1 && rest[1] == 0 {
      buf[dst - code] := code + MaxLen(v);
      n := 2;
    } else {
      buf[dst - code] := code;
      n := 1;
    }
    ghost var c := buf[dst - code];
    assert Take(v, cur, rest).0 == Close(cur, c);
    assert buf[..dst] == cur.fin + [c] + cur.open;
  }

  /** A data byte; a block it completes is closed and an empty one begun.  When that block ends
      exactly at the end of the vector the byte is taken back, but not the space it used. */
  method PutByte(v: Variant, buf: array<byte>, size: nat, dst0: nat, code0: nat, rest: seq<byte>, ghost cur: Enc)
      returns (dst: nat, code: nat, ok: bool)
    requires At(buf[..], dst0, code0, cur) && code0 < MaxLen(v) && dst0 < size <= buf.Length
    requires rest != [] && rest[0] != 0
    modifies buf
    ensures !ok <==> code0 + 1 == MaxLen(v) && dst0 + 1 == size
    ensures Take(v, cur, rest).1 == 1
    ensures ok ==> code < MaxLen(v) && dst <= size && At(buf[..], dst, code, Take(v, cur, rest).0)
    ensures !ok ==> dst == dst0 && code == code0
    ensures buf[size..] == old(buf[size..])
  {
    buf[dst0] := rest[0];
    dst, code, ok := dst0 + 1, code0 + 1, true;
    ghost var e := cur.(open := cur.open + [rest[0]]);
    assert At(buf[..], dst, code, e);
    if code == MaxLen(v) {
      if dst == size {
        code, dst, ok := code - 1, dst - 1, false;
        buf[dst - code] := code;
        return;
      }
      buf[dst - code] := code;
      assert buf[..dst] == e.fin + [code] + e.open;
      dst, code := dst + 1, 1;
    }
  }

  ghost predicate Progress(v: Variant, b: Enc, data: seq<byte>, size: nat, src: nat, cur: Enc)
    requires |b.open| + 1 < MaxLen(v)
  {
    Reached(v, b, data, src, cur) && forall j :: 0 <= j < src ==> !FillsAt(v, b, data, size, j)
  }

  lemma ProgressStart(v: Variant, b: Enc, data: seq<byte>, size: nat)
    requires |b.open| + 1 < MaxLen(v) && b.begun
    ensures Progress(v, b, data, size, 0, b)
  {
    assert forall j :: 0 <= j <= |data| ==> data[0..j] == data[..j];
  }

  lemma ProgressNext(v: Variant, b: Enc, data: seq<byte>, size: nat, src: nat, cur: Enc)
    requires |b.open| + 1 < MaxLen(v) && Progress(v, b, data, size, src, cur) && src < |data|
    ensures |cur.open| + 1 < MaxLen(v)
    ensures FillsAt(v, b, data, size, src) <==>
            data[src] != 0 && |cur.open| + 2 == MaxLen(v) && |cur.fin| + MaxLen(v) == size
    ensures var (e', n) := Take(v, cur, data[src..]);
            !FillsAt(v, b, data, size, src) ==> Progress(v, b, data, size, src + n, e')
  {
    ReachedAt(v, b, data, src, cur);
    ReachedNext(v, b, data, src, cur);
    var (e', n) := Take(v, cur, data[src..]);
    if n == 2 {
      assert data[src + 1] == 0;
    }
  }

  lemma ProgressDone(v: Variant, b: Enc, data: seq<byte>, size: nat, src: nat, cur: Enc)
    requires |b.open| + 1 < MaxLen(v) && Progress(v, b, data, size, src, cur)
    requires src == |data| || Size(cur) == size
    ensures Chunk(v, b, data[..src]) == cur && !ExactFill(v, b, data, size)
  {
    ReachedAt(v, b, data, src, cur);
    if Size(cur) == size {
      FullNeverFills(v, b, data, src, cur, size);
    }
  }

  /** What a data call achieves: the state stands for the consumed bytes exactly when no block ends at
      the end of the buffer; then it stops only at the end of the chunk or of the buffer. */
  ghost predicate Pushed(v: Variant, e: Enc, data: seq<byte>, size: nat, view: Enc, r: int)
    requires |e.open| + 1 < MaxLen(v)
  {
    0 <= r <= |data| &&
    (view == Chunk(v, e, data[..r]) <==> !ExactFill(v, e, data, size)) &&
    if ExactFill(v, e, data, size) then r < |data| else 0 < r && (r == |data| || Size(view) == size)
  }

  /** The data loop: `code` bytes of the current block end at `dst`, the rest of the vector is free. */
  method Fill(v: Variant, buf: array<byte>, size: nat, dst0: nat, code0: nat, data: seq<byte>, ghost b: Enc)
      returns (dst: nat, code: nat, src: nat, ghost view: Enc)
    requires At(buf[..], dst0, code0, b) && code0 < MaxLen(v) && dst0 < size <= buf.Length && data != []
    modifies buf
    ensures 0 < code < MaxLen(v) && code <= dst <= size
    ensures view.begun && At(buf[..], dst, code, view) && Pushed(v, b, data, size, view, src)
    ensures buf[size..] == old(buf[size..])
  {
    hide Progress, Take, Chunk, ExactFill, FillsAt, MaxLen;
    var ok := true;
    dst, code, src := dst0, code0, 0;
    ghost var cur := b;
    ProgressStart(v, b, data, size);
    while src < |data| && dst < size
      invariant src <= |data| && code < MaxLen(v) && dst <= size && buf[size..] == old(buf[size..])
      invariant At(buf[..], dst, code, cur) && Progress(v, b, data, size, src, cur)
      invariant src == 0 ==> dst < size
      decreases |data| - src
    {
      var rest := data[src..];
      ProgressNext(v, b, data, size, src, cur);
      ghost var t := Take(v, cur, rest);
      if rest[0] == 0 {
        ghost var behind := buf[dst..];
        var n := PutZero(v, buf, dst, code, rest, cur);
        assert buf[size..] == behind[size - dst..];
        dst, code, src := dst + 1, 1, src + n;
      } else {
        dst, code, ok := PutByte(v, buf, size, dst, code, rest, cur);
        if !ok {
          Spoils(v, b, data, size, src);
          dst := dst + 1;
          view := Enc(buf[..dst - code], true, buf[dst - code + 1..dst]);
          return;
        }
        src := src + 1;
      }
      cur := t.0;
    }
    buf[dst - code] := code;
    view := cur;
    ProgressDone(v, b, data, size, src, cur);
  }

  lemma Spoils(v: Variant, b: Enc, data: seq<byte>, size: nat, src: nat)
    requires |b.open| + 1 < MaxLen(v) && FillsAt(v, b, data, size, src)
    ensures ExactFill(v, b, data, size) && |Chunk(v, b, data[..src]).fin| == size - MaxLen(v)
  {}

  /** It does not matter to a data call whether the message had begun before. */
  lemma SameView(v: Variant, e: Enc, data: seq<byte>, size: nat, src: nat, view: Enc)
    requires |e.open| + 1 < MaxLen(v) && view.begun
    requires Pushed(v, e.(begun := true), data, size, view, src)
    ensures Pushed(v, e, data, size, view, src)
  {
    FillsBegun(v, e, data, size);
    if src > 0 {
      Begins(v, e, data[..src]);
    }
  }

  lemma TerminateRegular(v: Variant, e: Enc)
    requires |e.open| + 1 < MaxLen(v)
    ensures Terminate(v.(tail := false), e) == e.fin + ([|e.open| + 1] + e.open) + [0]
    ensures |Terminate(v.(tail := false), e)| == |e.fin| + |e.open| + 2
  {}

  /** Writes a code over the open block's first byte and a terminator behind its last. */
  method WriteEnd(buf: array<byte>, dst: nat, code: nat, first: byte)
    requires 0 < code && dst + code < buf.Length
    modifies buf
    ensures buf[..dst + code + 1] == old(buf[..dst]) + ([first] + old(buf[dst + 1..dst + code])) + [0]
    ensures buf[dst + code] == 0 && buf[dst + code + 1..] == old(buf[dst + code + 1..])
  {
    buf[dst], buf[dst + code] := first, 0;
  }

  /** The same inside a vector, for the block that `e` has open. */
  method EndBlock(buf: array<byte>, size: nat, dst: nat, code: nat, first: byte, ghost e: Enc)
    requires 0 < code && dst + code < size <= buf.Length && e.fin == buf[..dst] && e.open == buf[dst + 1..dst + code]
    modifies buf
    ensures buf[..dst + code + 1] == e.fin + ([first] + e.open) + [0] && buf[size..] == old(buf[size..])
  {
    WriteEnd(buf, dst, code, first);
    Beyond(old(buf[..]), buf[..], dst + code + 1, size);
  }

  lemma ShorterDiffers(s: seq<byte>, n: nat, k: nat)
    requires k <= n <= |s|
    ensures s[..k] == s[..n] <==> k == n
  {
    assert |s[..k]| == k && |s[..n]| == n;
  }

  /** Ends a block with its last byte in place of the code. */
  method EndInline(v: Variant, buf: array<byte>, dst: nat, code: nat, ghost e: Enc)
    requires 0 < code && dst + code < buf.Length && e.fin == buf[..dst] && e.open == buf[dst + 1..dst + code + 1]
    requires |e.open| + 1 < MaxLen(v) && Inline(v, e.open)
    modifies buf
    ensures buf[..dst + code + 1] == Terminate(v, e) && buf[dst + code + 1..] == old(buf[dst + code + 1..])
    ensures buf[dst + code] == 0
  {
    InlineTerminate(v, e);
    hide Terminate, Inline;
    assert e.open[..code - 1] == buf[dst + 1..dst + code] && e.open[code - 1] == buf[dst + code];
    WriteEnd(buf, dst, code, buf[dst + code]);
  }

  /** Ends a block with its code. */
  method EndRegular(v: Variant, buf: array<byte>, dst: nat, code: nat, ghost e: Enc)
    requires 0 < code && dst + code < buf.Length && e.fin == buf[..dst] && e.open == buf[dst + 1..dst + code]
    requires |e.open| + 1 < MaxLen(v) && !Inline(v, e.open)
    modifies buf
    ensures buf[..dst + code + 1] == Terminate(v, e) && buf[dst + code + 1..] == old(buf[dst + code + 1..])
    ensures buf[dst + code] == 0
  {
    CodeTerminate(v, e);
    hide Terminate, Inline;
    WriteEnd(buf, dst, code, code);
  }

  /** The bytes of the terminated open block: its last data byte in place of the code where that is larger
      than the code, and for zero pairs no larger than the largest regular code. */
  lemma TailBytes(v: Variant, e: Enc)
    requires v.tail && |e.open| + 1 < MaxLen(v)
    ensures var n := |e.open|;
            var inlined := n > 0 && n + 1 < e.open[n - 1] && (v.zpe ==> e.open[n - 1] <= 0xdf);
            Terminate(v, e) == e.fin + (if inlined then [e.open[n - 1]] + e.open[..n - 1] + [0] else [n + 1] + e.open + [0])
  {
    var n := |e.open|;
    if n > 0 && n + 1 < e.open[n - 1] && (v.zpe ==> e.open[n - 1] <= 0xdf) {
      InlineTerminate(v, e);
    } else {
      CodeTerminate(v, e);
    }
  }

  /** The same in memory: where the encoded bytes end, and the last block. */
  lemma TailLiteral(v: Variant, was: seq<byte>, now: seq<byte>, dst: nat, c: nat, end: nat, e: Enc)
    requires v.tail && 0 < c < MaxLen(v) && dst + c <= |was| && e.fin == was[..dst] && e.open == was[dst + 1..dst + c]
    requires end <= |now| && now[..end] == Terminate(v, e)
    ensures var b, data := was[dst + c - 1], was[dst + 1..dst + c];
            if c > 1 && c < b && (v.zpe ==> b <= 0xdf)
            then end == dst + c && now[dst..end] == [b] + data[..c - 2] + [0]
            else end == dst + c + 1 && now[dst..end] == [c] + data + [0]
  {
    TailBytes(v, e);
    OpenBlock(was, dst, c, e.open);
    hide Terminate;
    assert |e.fin| == dst && |e.open| == c - 1 && now[dst..end] == now[..end][dst..];
  }

  /** Ends the open block, in a vector of `size` bytes of memory. */
  method EndTail(v: Variant, buf: array<byte>, size: nat, dst: nat, code0: nat, ghost e: Enc) returns (r: int, end: nat)
    requires v.tail && 0 < code0 < MaxLen(v) && dst <= size <= buf.Length && dst + code0 < buf.Length
    requires e.fin == buf[..dst] && e.open == buf[dst + 1..dst + code0]
    modifies buf
    ensures r == 0 || r == BAD_VALUE
    ensures r < 0 ==> unchanged(buf)
    ensures r == BAD_VALUE <==> dst == size && !Inline(v, e.open)
    ensures r == 0 ==> end == dst + code0 + (if Inline(v, e.open) then 0 else 1)
    ensures r == 0 ==> end <= buf.Length && buf[..end] == Terminate(v, e) && buf[end - 1] == 0
    ensures r == 0 ==> buf[end..] == old(buf[..])[end..]
  {
    hide Terminate, MaxLen;
    var code := code0;
    r, end := BAD_VALUE, 0;
    OpenBlock(buf[..], dst, code, e.open);
    if code > 1 && code < buf[dst + code - 1] <= MaxLen(v) {
      code := code - 1;
      EndInline(v, buf, dst, code, e);
    } else {
      if size <= dst { return; }
      EndRegular(v, buf, dst, code, e);
    }
    r, end := 0, dst + code + 1;
  }

  lemma InlineTerminate(v: Variant, e: Enc)
    requires |e.open| + 1 < MaxLen(v) && Inline(v, e.open)
    ensures var k := |e.open| - 1; k >= 0 && Terminate(v, e) == e.fin + ([e.open[k]] + e.open[..k]) + [0]
  {}

  lemma CodeTerminate(v: Variant, e: Enc)
    requires |e.open| + 1 < MaxLen(v) && !Inline(v, e.open)
    ensures Terminate(v, e) == e.fin + ([|e.open| + 1] + e.open) + [0]
  {}

  class Encoder {
    var ctx: int
    var done: nat
    var scratch: nat

    /** The encoded bytes the state stands for. */
    ghost function View(buf: array<byte>): Enc
      reads this, buf
      requires done + scratch <= buf.Length
    {
      Enc(buf[..][..done], scratch != 0, if scratch == 0 then [] else buf[..][done + 1..done + scratch])
    }

    /** The open block is inside a vector of `size` bytes. */
    ghost predicate Fits(v: Variant, size: nat)
      reads this
    {
      scratch < MaxLen(v) && done + scratch <= size
    }

    constructor ()
      ensures ctx == 0 && done == 0 && scratch == 0
    {
      ctx, done, scratch := 0, 0, 0;
    }

    method Reset()
      modifies this
      ensures ctx == 0 && done == 0 && scratch == 0
    {
      ctx, done, scratch := 0, 0, 0;
    }

    /** A data call.  The vector is the first `size` bytes of memory. */
    method Push(v: Variant, buf: array<byte>, size: nat, data: seq<byte>) returns (r: int)
      requires Fits(v, size) && size <= buf.Length && data != []
      modifies this, buf
      ensures r == MISSING_BUFFER <==> old(done + scratch) + (if old(scratch) == 0 then 1 else 0) >= size
      ensures r < 0 ==> r == MISSING_BUFFER && unchanged(this) && unchanged(buf)
      ensures r >= 0 ==> Fits(v, size) && scratch != 0 && Pushed(v, old(View(buf)), data, size, View(buf), r)
      ensures r >= 0 ==> ctx == old(ctx) + (done + scratch) - old(done + scratch)
      ensures buf[size..] == old(buf[size..])
    {
      hide Pushed, At;
      var code, left := scratch, size - done;
      if code != 0 {
        left := left - code;
        if left == 0 { return MISSING_BUFFER; }
      } else {
        code := 1;
        if left <= 1 { return MISSING_BUFFER; }
        left := left - 1;
      }
      ghost var e := View(buf);
      var dst, src; ghost var view;
      AtState(buf[..], size - left, code, e.(begun := true));
      dst, code, src, view := Fill(v, buf, size, size - left, code, data, e.(begun := true));
      ctx := ctx + (dst - done - scratch);
      done, scratch := dst - code, code;
      r := src;
      AtState(buf[..], dst, code, view);
      assert View(buf) == view;
      SameView(v, e, data, size, src, view);
    }

    /** Regular termination.  The empty message sets `done` instead of raising it: the result is the
        encoded empty message exactly when nothing was encoded before. */
    method Finish(v: Variant, buf: array<byte>, size: nat) returns (r: int)
      requires Fits(v, size) && size <= buf.Length
      modifies this, buf
      ensures r == MISSING_BUFFER <==> old(done) + (if old(scratch) == 0 then 1 else old(scratch)) >= size
      ensures r == MISSING_BUFFER ==> unchanged(this) && unchanged(buf)
      ensures r == MISSING_BUFFER || (r == 0 && ctx == 0 && scratch == 0 && done <= size)
      ensures r == 0 ==>
              (buf[..done] == Terminate(v.(tail := false), old(View(buf))) <==>
               old(scratch) != 0 || old(done) == 0)
      ensures buf[size..] == old(buf[size..])
    {
      hide Terminate;
      ghost var e := View(buf);
      TerminateRegular(v, e);
      var code, left, dst := scratch, size - done, done;
      if code >= left { return MISSING_BUFFER; }
      if code == 0 {
        if left < 2 { return MISSING_BUFFER; }
        EndBlock(buf, size, dst, 1, 1, e);
        assert [1] + e.open == [1];
        done := 2;
        ShorterDiffers(buf[..], dst + 2, 2);
      } else {
        EndBlock(buf, size, dst, code, code, e);
        done := done + code + 1;
      }
      ctx, scratch, r := 0, 0, 0;
    }

    /** Termination with the last byte inlined where possible.  The source checks only that the open
        block starts inside the vector: the encoded bytes end inside it exactly if the last byte is
        inlined or there is room for the terminator, and otherwise memory behind it is written. */
    method FinishTail(v: Variant, buf: array<byte>, size: nat) returns (r: int)
      requires v.tail && 0 < scratch < MaxLen(v) && size <= buf.Length && (done <= size ==> done + scratch < buf.Length)
      modifies this, buf
      ensures r == 0 || r == BAD_ARGUMENT || r == BAD_VALUE
      ensures r < 0 ==> unchanged(this) && unchanged(buf)
      ensures r == BAD_ARGUMENT <==> old(done) > size
      ensures r == BAD_VALUE <==> old(done) == size && !Inline(v, old(View(buf)).open)
      ensures r == 0 ==> ctx == 0 && scratch == 0 && done <= buf.Length && buf[..done] == Terminate(v, old(View(buf)))
      ensures r == 0 ==> buf[done..] == old(buf[..])[done..]
      ensures r == 0 ==> (done <= size <==> old(done + scratch) + (if Inline(v, old(View(buf)).open) then 0 else 1) <= size)
      ensures r == 0 ==>
              var c, b := old(scratch), old(buf[done + scratch - 1]);
              var data := old(buf[done + 1..done + scratch]);
              if c > 1 && c < b && (v.zpe ==> b <= 0xdf)
              then done == old(done) + c && buf[old(done)..done] == [b] + data[..c - 2] + [0]
              else done == old(done) + c + 1 && buf[old(done)..done] == [c] + data + [0]
      ensures r == 0 && old(done + scratch) <= size ==>
              buf[size..] == if done <= size then old(buf[size..]) else [0] + old(buf[size + 1..])
    {
      hide Terminate, MaxLen, Inline;
      if done > size { return BAD_ARGUMENT; }
      ghost var e, was := View(buf), buf[..];
      var end;
      r, end := EndTail(v, buf, size, done, scratch, e);
      if r < 0 { return; }
      TailLiteral(v, was, buf[..], done, scratch, end, e);
      Behind(was, buf[..], end, size);
      ctx, done, scratch := 0, end, 0;
    }

    /** One encoder call of any of the four variants, on the first `size` bytes of memory; without memory
        `cobs` is null. */
    method Encode(v: Variant, cobs: array?<byte>, size: nat, base: Input) returns (r: int)
      requires scratch < MaxLen(v) && (cobs != null ==> size <= cobs.Length)
      requires cobs != null && TailEnd(v, base) && done <= size ==> done + scratch < cobs.Length
      modifies this, if cobs == null then {} else {cobs}
      ensures cobs == null ==> r == if done == 0 && scratch == 0 && size == 0 then MISSING_BUFFER else BAD_ARGUMENT
      ensures r < 0 ==> unchanged(this) && (cobs != null ==> unchanged(cobs))
      ensures cobs != null && !old(TailEnd(v, base)) && !old(Fits(v, size)) ==> r == BAD_ARGUMENT
      ensures cobs != null && !old(TailEnd(v, base)) ==> cobs[size..] == old(cobs[size..])
      ensures cobs != null && old(Fits(v, size)) && base == Data([]) ==> r == BAD_VALUE
      ensures cobs != null && old(Fits(v, size)) && base.Data? && base.bytes != [] ==>
              if old(done + scratch) + (if old(scratch) == 0 then 1 else 0) >= size then r == MISSING_BUFFER else r >= 0
      ensures r >= 0 && base.Data? ==> old(Fits(v, size)) && Fits(v, size) && scratch != 0
      ensures r >= 0 && base.Data? ==> Pushed(v, old(View(cobs)), base.bytes, size, View(cobs), r)
      ensures r >= 0 ==> ctx == if base.Data? then old(ctx) + (done + scratch) - old(done + scratch) else 0
      ensures cobs != null && old(Fits(v, size)) && base.Finish? && !old(TailEnd(v, base)) ==>
              if old(done) + (if old(scratch) == 0 then 1 else old(scratch)) >= size then r == MISSING_BUFFER else r >= 0
      ensures r >= 0 ==> cobs != null && old(done + scratch) <= cobs.Length
      ensures r >= 0 && base.Finish? ==> r == 0 && scratch == 0 && done <= cobs.Length
      ensures r >= 0 && base.Finish? ==>
              (cobs[..done] == Terminate(v, old(View(cobs))) <==> old(scratch) != 0 || old(done) == 0)
      ensures cobs != null && old(TailEnd(v, base)) ==> (r == BAD_ARGUMENT <==> old(done) > size)
      ensures cobs != null && old(TailEnd(v, base)) ==>
              (r < 0 && r != BAD_ARGUMENT <==> old(done) == size && !Inline(v, old(View(cobs)).open))
      ensures r >= 0 && base.Finish? ==>
              (done <= size <==>
               !old(TailEnd(v, base)) || old(done + scratch) + (if Inline(v, old(View(cobs)).open) then 0 else 1) <= size)
      ensures r >= 0 && old(TailEnd(v, base)) ==> cobs[done..] == old(cobs[..])[done..]
      ensures r >= 0 && old(TailEnd(v, base)) ==>
              var c, b := old(scratch), old(cobs[done + scratch - 1]);
              done == old(done) + if c > 1 && c < b && (v.zpe ==> b <= 0xdf) then c else c + 1
      ensures r >= 0 && old(TailEnd(v, base)) && old(Fits(v, size)) ==>
              cobs[size..] == if done <= size then old(cobs[size..]) else [0] + old(cobs[size + 1..])
    {
      hide Pushed, Terminate, Inline;
      if cobs == null {
        return if scratch != 0 || done != 0 || size != 0 then BAD_ARGUMENT else MISSING_BUFFER;
      }
      if base.Finish? && v.tail && scratch != 0 {
        r := FinishTail(v, cobs, size);
        return;
      }
      if done > size || scratch > size - done { return BAD_ARGUMENT; }
      if base.Data? {
        if base.bytes == [] { return BAD_VALUE; }
        r := Push(v, cobs, size, base.bytes);
      } else {
        r := Finish(v, cobs, size);
        SameTerminate(v, old(View(cobs)));
      }
    }

    /** Termination that the tail variants do themselves. */
    ghost predicate TailEnd(v: Variant, base: Input)
      reads this
    {
      v.tail && base.Finish? && scratch != 0
    }
  }

  lemma Beyond(a: seq<byte>, b: seq<byte>, k: nat, size: nat)
    requires k <= size <= |a| == |b| && a[k..] == b[k..]
    ensures a[size..] == b[size..]
  {
    assert a[size..] == a[k..][size - k..] && b[size..] == b[k..][size - k..];
  }

  /** What is behind a vector when the bytes up to `k` were written, the last one being zero. */
  lemma Behind(a: seq<byte>, b: seq<byte>, k: nat, size: nat)
    requires 0 < k <= |a| == |b| && size <= |a| && a[k..] == b[k..] && b[k - 1] == 0
    ensures k <= size ==> b[size..] == a[size..]
    ensures k == size + 1 ==> b[size..] == [0] + a[k..]
  {
    if k <= size {
      Beyond(a, b, k, size);
    } else if k == size + 1 {
      assert b[size..] == [b[size]] + b[k..];
    }
  }

  lemma OpenBlock(s: seq<byte>, dst: nat, code: nat, open: seq<byte>)
    requires 0 < code && dst + code <= |s| && open == s[dst + 1..dst + code]
    ensures |open| == code - 1
    ensures code > 1 ==> open[|open| - 1] == s[dst + code - 1] && open[..|open| - 1] == s[dst + 1..dst + code - 1]
  {}

  lemma SameTerminate(v: Variant, e: Enc)
    requires |e.open| + 1 < MaxLen(v) && (v.tail ==> e.open == [])
    ensures Terminate(v, e) == Terminate(v.(tail := false), e)
  {}
}
