/** The wire format of the four COBS variants, as an automaton that reads one byte at a time.

    The automaton is the reference the encoder and the in-place decoder are compared with: it has
    no buffer, no positions in memory and no notion of a call.  A block is a code byte followed by
    `LenData` data bytes; the zeros a block stands for are known only when the next code is seen. */
module CobsFormat {
  import opened Bytes

  /** `zpe`: codes from 0xe0 stand for a zero pair.  `tail`: the last data byte may replace the code. */
  datatype Variant = Variant(zpe: bool, tail: bool)

  function MaxLen(v: Variant): byte {
    if v.zpe then 0xdf else 0xff
  }

  function LenData(v: Variant, code: byte): nat
    requires code != 0
  {
    if v.zpe && code > 0xdf then code - 0xe0 else code - 1
  }

  function LenZero(v: Variant, code: byte, next: byte): nat {
    if v.zpe && code >= 0xe0 then 2 else if code < MaxLen(v) && next != 0 then 1 else 0
  }

  /** The packed word `pos * 0x100 + code` of the decoder state and the data decoded so far.
      Code 0 means that no message has begun. */
  datatype Reader = Reader(code: byte, pos: nat, out: seq<byte>)

  const START := Reader(0, 0, [])

  datatype Feed = Going(msgs: seq<seq<byte>>, cur: Reader) | Broken(msgs: seq<seq<byte>>)

  const INIT := Going([], START)

  /** Zeros the current block still owes when the next code is `b`. */
  function Owed(v: Variant, r: Reader, b: byte): nat
    requires r.code != 0
  {
    var all := LenData(v, r.code) + LenZero(v, r.code, b);
    if r.pos < all then all - r.pos else 0
  }

  function Step(v: Variant, s: Feed, b: byte): Feed {
    match s
    case Broken(_) => s
    case Going(msgs, r) =>
      if r.code == 0 then
        if b == 0 then Broken(msgs) else Going(msgs, Reader(b, 0, r.out))
      else if r.pos < LenData(v, r.code) then
        if b != 0 then Going(msgs, Reader(r.code, r.pos + 1, r.out + [b]))
        else if v.tail then Going(msgs + [r.out + [r.code]], START)
        else Broken(msgs)
      else
        var out := r.out + Zeros(Owed(v, r, b));
        if b == 0 then Going(msgs + [out], START) else Going(msgs, Reader(b, 0, out))
  }

  function Run(v: Variant, s: Feed, input: seq<byte>): Feed
    decreases |input|
  {
    if input == [] then s else Run(v, Step(v, s, input[0]), input[1..])
  }

  /** Where the input is cut does not matter to the automaton. */
  lemma {:induction false} RunConcat(v: Variant, s: Feed, a: seq<byte>, b: seq<byte>)
    ensures Run(v, s, a + b) == Run(v, Run(v, s, a), b)
    decreases |a|
  {
    if a == [] {
      assert a + b == b;
    } else {
      assert (a + b)[0] == a[0] && (a + b)[1..] == a[1..] + b;
      RunConcat(v, Step(v, s, a[0]), a[1..], b);
    }
  }

  lemma RunOne(v: Variant, s: Feed, b: byte)
    ensures Run(v, s, [b]) == Step(v, s, b)
  {
    assert [b][1..] == [];
    assert Run(v, Step(v, s, b), []) == Step(v, s, b);
  }

  /** Data bytes of a block are taken over one by one. */
  lemma {:induction false} RunData(v: Variant, msgs: seq<seq<byte>>, r: Reader, data: seq<byte>)
    requires r.code != 0 && r.pos + |data| <= LenData(v, r.code) && NoZero(data)
    ensures Run(v, Going(msgs, r), data) == Going(msgs, Reader(r.code, r.pos + |data|, r.out + data))
    decreases |data|
  {
    if data == [] {
      assert r.out + data == r.out;
    } else {
      var r' := Reader(r.code, r.pos + 1, r.out + [data[0]]);
      assert Step(v, Going(msgs, r), data[0]) == Going(msgs, r');
      RunData(v, msgs, r', data[1..]);
      assert r'.out + data[1..] == r.out + data;
    }
  }
}
