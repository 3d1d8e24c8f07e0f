/** Paths: packed lists of elements, as separated text or in binary form with a length before and
    behind every element. */
module Paths {
  import opened Bytes

  const BAD_VALUE := -0x2
  const BAD_OPERATION := -0x4
  const MISSING_DATA := -0x10

  type Name = seq<byte>

  /** Text form: a separator behind every element but the last, which is followed by `last`. */
  function Text(es: seq<Name>, sep: byte, last: byte): seq<byte> {
    if es == [] then []
    else es[0] + [if |es| == 1 then last else sep] + Text(es[1..], sep, last)
  }

  /** Binary form: behind every element its own length and the length of the next; the last element
      is followed by `last` instead. */
  function Binary(es: seq<Name>, last: byte): seq<byte>
    requires Short(es)
  {
    if es == [] then []
    else es[0] + [|es[0]|, if |es| == 1 then last else |es[1]|] + Binary(es[1..], last)
  }

  /** Elements whose length fits into a byte. */
  predicate Short(es: seq<Name>) {
    forall i :: 0 <= i < |es| ==> |es[i]| <= 255
  }

  /** No element contains the separator. */
  predicate Separable(es: seq<Name>, sep: byte) {
    forall i :: 0 <= i < |es| ==> sep !in es[i]
  }

  lemma {:induction false} TextSnoc(es: seq<Name>, e: Name, sep: byte, last: byte)
    ensures Text(es + [e], sep, last) == Text(es, sep, sep) + e + [last]
  {
    if es == [] {
      assert [] + [e] == [e] && [e][1..] == [];
      assert Text([e], sep, last) == e + [last] + Text([], sep, last);
    } else {
      assert (es + [e])[0] == es[0] && (es + [e])[1..] == es[1..] + [e];
      TextSnoc(es[1..], e, sep, last);
      assert Text(es, sep, sep) == es[0] + [sep] + Text(es[1..], sep, sep);
      assert es[0] + [sep] + (Text(es[1..], sep, sep) + e + [last]) == es[0] + [sep] + Text(es[1..], sep, sep) + e + [last];
    }
  }

  lemma {:induction false} BinarySnoc(es: seq<Name>, e: Name, last: byte)
    requires Short(es) && |e| <= 255
    ensures Binary(es + [e], last) == Binary(es, |e|) + e + [|e|, last]
  {
    if es == [] {
      assert [] + [e] == [e] && [e][1..] == [];
      assert Binary([e], last) == e + [|e|, last] + Binary([], last);
    } else {
      var all := es + [e];
      assert all[0] == es[0] && all[1..] == es[1..] + [e];
      assert |es| > 1 ==> all[1] == es[1];
      BinarySnoc(es[1..], e, last);
      var n := if |es| == 1 then |e| else |es[1]|;
      var head: seq<byte> := es[0] + [|es[0]|, n];
      assert Binary(es, |e|) == head + Binary(es[1..], |e|);
      assert Binary(all, last) == head + Binary(all[1..], last);
      hide Binary;
      Regroup(head, Binary(es[1..], |e|), e, [|e|, last]);
    }
  }

  lemma Regroup(a: seq<byte>, b: seq<byte>, c: seq<byte>, d: seq<byte>)
    ensures a + (b + c + d) == a + b + c + d
  {}

  /** Only the last byte of the packed form depends on `last`. */
  lemma {:induction false} TextLast(es: seq<Name>, sep: byte, last: byte, last': byte)
    requires es != []
    ensures var t, t' := Text(es, sep, last), Text(es, sep, last');
            |t| == |t'| > 0 && t[|t| - 1] == last && t' == t[|t| - 1 := last']
  {
    var k := |es| - 1;
    assert es == es[..k] + [es[k]];
    TextSnoc(es[..k], es[k], sep, last);
    TextSnoc(es[..k], es[k], sep, last');
  }

  lemma {:induction false} BinaryLast(es: seq<Name>, last: byte, last': byte)
    requires es != [] && Short(es)
    ensures var t, t' := Binary(es, last), Binary(es, last');
            |t| == |t'| > 1 && t[|t| - 1] == last && t[|t| - 2] == |es[|es| - 1]| && t' == t[|t| - 1 := last']
  {
    var k := |es| - 1;
    assert es == es[..k] + [es[k]];
    BinarySnoc(es[..k], es[k], last);
    BinarySnoc(es[..k], es[k], last');
  }

  /** `d` is the packed form of `es`, and `first` the cached length of the first element. */
  ghost predicate Packed(d: seq<byte>, es: seq<Name>, binary: bool, sep: byte, first: nat) {
    (d == [] <==> es == []) &&
    if binary then
      Short(es) && (es != [] ==> d == Binary(es, d[|d| - 1]) && first == |es[0]|)
    else
      Separable(es, sep) && (es != [] ==> d == Text(es, sep, d[|d| - 1]) && (first == 0 || first == |es[0]|))
  }

  lemma TextHead(es: seq<Name>, sep: byte, last: byte)
    requires es != []
    ensures var t := Text(es, sep, last);
            |es[0]| < |t| && t[..|es[0]|] == es[0] && t[|es[0]| + 1..] == Text(es[1..], sep, last)
    ensures |es| > 1 ==> Text(es, sep, last)[|es[0]|] == sep
    ensures |es| == 1 ==> |Text(es, sep, last)| == |es[0]| + 1
  {}

  lemma BinaryHead(es: seq<Name>, last: byte)
    requires es != [] && Short(es)
    ensures var t := Binary(es, last);
            |es[0]| + 2 <= |t| && t[..|es[0]|] == es[0] && t[|es[0]| + 2..] == Binary(es[1..], last)
    ensures |es| > 1 ==> Binary(es, last)[|es[0]| + 1] == |es[1]|
    ensures |es| == 1 ==> |Binary(es, last)| == |es[0]| + 2
  {}

  lemma TextSize(es: seq<Name>, sep: byte, last: byte)
    ensures Text(es, sep, last) == [] <==> es == []
  {}

  lemma BinarySize(es: seq<Name>, last: byte)
    requires Short(es)
    ensures Binary(es, last) == [] <==> es == []
  {}

  /** Length of the first text element: up to the first separator before the final byte. */
  method FindSep(d: seq<byte>, sep: byte) returns (n: nat)
    requires d != []
    ensures n < |d| && sep !in d[..n] && (n < |d| - 1 ==> d[n] == sep)
  {
    n := 0;
    while n < |d| - 1 && d[n] != sep
      invariant n < |d| && sep !in d[..n]
    {
      n := n + 1;
    }
  }

  lemma FirstElement(es: seq<Name>, sep: byte, last: byte, n: nat)
    requires es != [] && Separable(es, sep)
    requires var t := Text(es, sep, last); n < |t| && sep !in t[..n] && (n < |t| - 1 ==> t[n] == sep)
    ensures n == |es[0]|
  {
    TextHead(es, sep, last);
  }

  /** Consuming the first element leaves the packed form of the others. */
  lemma NextPacked(d: seq<byte>, es: seq<Name>, binary: bool, sep: byte, first: nat)
    requires Packed(d, es, binary, sep, first) && es != []
    ensures var n := |es[0]|;
            if binary then
              n + 2 <= |d| && d[..n] == es[0] && Packed(d[n + 2..], es[1..], binary, sep, d[n + 1])
            else
              n + 1 <= |d| && d[..n] == es[0] && Packed(d[n + 1..], es[1..], binary, sep, 0)
  {
    var n := |es[0]|;
    if binary {
      BinaryHead(es, d[|d| - 1]);
      BinarySize(es[1..], d[|d| - 1]);
    } else {
      TextHead(es, sep, d[|d| - 1]);
      TextSize(es[1..], sep, d[|d| - 1]);
    }
  }

  class Path {
    var base: seq<byte>
    var off: nat
    var len: nat
    var first: nat
    const binary: bool
    const sep: byte
    const assign: byte

    ghost predicate Holds(es: seq<Name>)
      reads this
    {
      off + len <= |base| && Packed(base[off..off + len], es, binary, sep, first)
    }

    constructor (binary: bool, sep: byte, assign: byte)
      ensures this.binary == binary && this.sep == sep && this.assign == assign
      ensures base == [] && off == 0 && len == 0 && first == 0 && Holds([])
    {
      this.binary, this.sep, this.assign := binary, sep, assign;
      base, off, len, first := [], 0, 0, 0;
    }

    /** Consumes the first element and returns its length. */
    method Next(ghost es: seq<Name>) returns (r: int)
      requires Holds(es)
      modifies this`off, this`len, this`first
      ensures es == [] ==> r == MISSING_DATA && unchanged(this)
      ensures es != [] ==>
              Holds(es[1..]) && r == |es[0]| && old(off) + r <= |base| && base[old(off)..old(off) + r] == es[0]
      ensures es != [] && !binary ==> first == 0
    {
      hide Packed;
      PackedEmpty(base[off..off + len], es, binary, sep, first);
      if len == 0 { return MISSING_DATA; }
      var n, skip, next := NextOf(base[off..off + len], es, binary, sep, first);
      SubSlices(base, off, len, n, skip);
      r, off, len, first := n, off + skip, len - skip, next;
    }

    /** Makes the `add` bytes behind the path its next element.  Exactly when the cached length of a
        long first text element is truncated to something else, the path no longer holds it. */
    method Add(add: nat, ghost es: seq<Name>) returns (r: int)
      requires Holds(es) && off == 0
      modifies this`base, this`len, this`first
      ensures r == BAD_VALUE || r == 0
      ensures r == BAD_VALUE <==> !Addable(old(base), old(len), add, binary, sep)
      ensures r == BAD_VALUE ==> unchanged(this)
      ensures r == 0 ==> 0 < len <= |base| && base[len - 1] == if binary then 0 else assign
      ensures r == 0 ==> len == old(len) + add + if binary then 2 else 1
      ensures r == 0 ==>
              var e := old(base)[old(len)..old(len) + add];
              (Holds(es + [e]) <==> binary || es != [] || add <= 255 || add % 0x100 == 0)
    {
      hide Packed;
      var base', len', first';
      assert base[..len] == base[off..off + len];
      r, base', len', first' := AddOf(base, len, add, es, binary, sep, assign, first);
      base, len, first := base', len', first';
      assert base[..len] == base[off..off + len];
    }

    /** Removes the last element and all bytes behind the path. */
    method Del(ghost es: seq<Name>) returns (r: int)
      requires Holds(es) && off == 0
      modifies this`base, this`len, this`first
      ensures es == [] ==> r == MISSING_DATA && unchanged(this)
      ensures es != [] ==> r == |es[|es| - 1]| && Holds(es[..|es| - 1]) && |base| == len
    {
      hide Packed;
      assert base[..len] == base[off..off + len];
      PackedEmpty(base[..len], es, binary, sep, first);
      if len == 0 { return MISSING_DATA; }
      var part, keep := DelOf(base[..len], es, binary, sep, first);
      assert base[..len][..keep] == base[..keep];
      r, base, len := part, base[..keep], keep;
      if len == 0 { first := 0; }
      assert base[off..off + len] == base;
    }
  }

  predicate Addable(base: seq<byte>, len: nat, add: nat, binary: bool, sep: byte) {
    len + add <= |base| && if binary then add <= 255 else sep !in base[len..len + add]
  }

  /** The packed form with one more element. */
  lemma AddBinary(d: seq<byte>, es: seq<Name>, e: Name, sep: byte, first: nat, last: byte)
    requires Packed(d, es, true, sep, first) && |e| <= 255
    ensures var kept := if es == [] then [] else d[|d| - 1 := |e| as byte];
            Packed(kept + e + [|e|, last], es + [e], true, sep, if es != [] then first else |e|)
  {
    hide Binary;
    BinarySnoc(es, e, last);
    if es != [] {
      BinaryLast(es, d[|d| - 1], |e|);
      assert (es + [e])[0] == es[0];
    } else {
      BinarySize(es, |e|);
    }
  }

  lemma AddText(d: seq<byte>, es: seq<Name>, e: Name, sep: byte, first: nat, last: byte)
    requires Packed(d, es, false, sep, first) && sep !in e
    ensures var kept := if es == [] then [] else d[|d| - 1 := sep];
            var first' := if es != [] then first else |e| % 0x100;
            Packed(kept + e + [last], es + [e], false, sep, first') <==> es != [] || |e| <= 255 || |e| % 0x100 == 0
  {
    hide Text;
    TextSnoc(es, e, sep, last);
    if es != [] {
      TextLast(es, sep, d[|d| - 1], sep);
      assert (es + [e])[0] == es[0];
    } else {
      TextSize(es, sep, sep);
    }
  }

  /** The bytes after the last byte is replaced and `tail` is written behind the new element. */
  lemma Rewritten(base: seq<byte>, wide: seq<byte>, len: nat, add: nat, x: byte, tail: seq<byte>, base': seq<byte>)
    requires len + add <= |base| && base <= wide && len + add + |tail| <= |wide| == |base'|
    requires forall i :: 0 <= i < len + add ==> base'[i] == if i == len - 1 then x else wide[i]
    requires forall i :: 0 <= i < |tail| ==> base'[len + add + i] == tail[i]
    ensures base'[..len + add + |tail|] == (if len == 0 then [] else base[..len][len - 1 := x]) + base[len..len + add] + tail
  {
    var kept := if len == 0 then [] else base[..len][len - 1 := x];
    var t := kept + base[len..len + add] + tail;
    forall i | 0 <= i < |t| ensures base'[i] == t[i] {
      if i >= len + add {
        assert base'[len + add + (i - len - add)] == tail[i - len - add];
      }
    }
  }

  method AddOf(base: seq<byte>, len: nat, add: nat, ghost es: seq<Name>, binary: bool, sep: byte, assign: byte, first: nat)
      returns (r: int, base': seq<byte>, len': nat, first': nat)
    requires len <= |base| && Packed(base[..len], es, binary, sep, first)
    ensures r == BAD_VALUE || r == 0
    ensures r == BAD_VALUE <==> !Addable(base, len, add, binary, sep)
    ensures r == BAD_VALUE ==> base' == base && len' == len && first' == first
    ensures r == 0 ==> len' == len + add + (if binary then 2 else 1) && len' <= |base'|
    ensures r == 0 ==> base'[len' - 1] == if binary then 0 else assign
    ensures r == 0 ==>
            len' <= |base'| &&
            (Packed(base'[..len'], es + [base[len..len + add]], binary, sep, first') <==>
             binary || es != [] || add <= 255 || add % 0x100 == 0)
  {
    hide Packed;
    r, base', len', first' := BAD_VALUE, base, len, first;
    if |base| - len < add { return; }
    var post := |base| - len - add;
    ghost var e := base[len..len + add];
    PackedEmpty(base[..len], es, binary, sep, first);
    if binary {
      if add > 255 { return; }
      if post < 2 { base' := base' + Zeros(2 - post); }
      ghost var wide := base';
      if len != 0 { base' := base'[len - 1 := add]; } else { first' := add; }
      len' := len + add;
      base' := base'[len' := add][len' + 1 := 0];
      len' := len' + 2;
      AddBinary(base[..len], es, e, sep, first, 0);
      Rewritten(base, wide, len, add, add, [add, 0], base');
    } else {
      if sep in base[len..len + add] { return; }
      if post < 1 { base' := base' + [0]; }
      ghost var wide := base';
      if len != 0 { base' := base'[len - 1 := sep]; } else { first' := add % 0x100; }
      len' := len + add;
      base' := base'[len' := assign];
      len' := len' + 1;
      AddText(base[..len], es, e, sep, first, assign);
      Rewritten(base, wide, len, add, sep, [assign], base');
    }
    r := 0;
  }

  /** The packed form without its last element: its length, and that it is a prefix. */
  lemma DelBinary(d: seq<byte>, es: seq<Name>, sep: byte, first: nat)
    requires Packed(d, es, true, sep, first) && es != []
    ensures var k := |es| - 1;
            var n := |d| - |es[k]| - 2;
            && n >= 0 && Packed(d[..n], es[..k], true, sep, if n == 0 then 0 else first)
            && d[|d| - 2] == |es[k]| && (if n == 0 then first else d[n - 1]) == |es[k]|
  {
    var k := |es| - 1;
    var init, e := es[..k], es[k];
    assert es == init + [e];
    BinarySnoc(init, e, d[|d| - 1]);
    BinarySize(init, |e|);
    var n := |d| - |e| - 2;
    assert d[..n] == Binary(init, |e|);
    if init != [] {
      BinaryLast(init, |e|, |e|);
      assert init[0] == es[0];
    }
  }

  lemma DelText(d: seq<byte>, es: seq<Name>, sep: byte, first: nat)
    requires Packed(d, es, false, sep, first) && es != []
    ensures var k := |es| - 1;
            var n := |d| - |es[k]| - 1;
            && n >= 0 && Packed(d[..n], es[..k], false, sep, if n == 0 then 0 else first)
            && (n > 0 ==> d[n - 1] == sep) && sep !in d[n..|d| - 1]
  {
    var k := |es| - 1;
    var init, e := es[..k], es[k];
    assert es == init + [e];
    TextSnoc(init, e, sep, d[|d| - 1]);
    TextSize(init, sep, sep);
    var n := |d| - |e| - 1;
    assert d[..n] == Text(init, sep, sep) && d[n..|d| - 1] == e;
    if init != [] {
      TextLast(init, sep, sep, sep);
      assert init[0] == es[0];
    }
  }

  method DelOf(d: seq<byte>, ghost es: seq<Name>, binary: bool, sep: byte, first: nat) returns (part: nat, keep: nat)
    requires Packed(d, es, binary, sep, first) && es != []
    ensures part == |es[|es| - 1]| && keep <= |d| && Packed(d[..keep], es[..|es| - 1], binary, sep, if keep == 0 then 0 else first)
  {
    hide Packed;
    PackedEmpty(d, es, binary, sep, first);
    if binary {
      DelBinary(d, es, sep, first);
      part := d[|d| - 2];
      keep := |d| - (part + 2);
    } else {
      DelText(d, es, sep, first);
      ghost var n := |d| - |es[|es| - 1]| - 1;
      part, keep := 0, |d| - 1;
      while keep != 0 && d[keep - 1] != sep
        invariant n <= keep < |d| && part + keep + 1 == |d|
      {
        part, keep := part + 1, keep - 1;
      }
    }
  }

  lemma SubSlices(base: seq<byte>, off: nat, len: nat, n: nat, skip: nat)
    requires n <= skip <= len && off + len <= |base|
    ensures base[off..off + len][..n] == base[off..off + n] && base[off..off + len][skip..] == base[off + skip..off + len]
  {}

  /** Length of the first element, bytes to skip, and the length to cache for the next. */
  method NextOf(d: seq<byte>, ghost es: seq<Name>, binary: bool, sep: byte, first: nat)
      returns (n: nat, skip: nat, next: nat)
    requires Packed(d, es, binary, sep, first) && es != []
    ensures n == |es[0]| && n <= skip <= |d| && d[..n] == es[0] && Packed(d[skip..], es[1..], binary, sep, next)
    ensures !binary ==> next == 0
  {
    hide Packed;
    PackedEmpty(d, es, binary, sep, first);
    NextPacked(d, es, binary, sep, first);
    FirstCached(d, es, binary, sep, first);
    if binary {
      n, skip, next := first, first + 2, d[first + 1];
    } else if first != 0 {
      n, skip, next := first, first + 1, 0;
    } else {
      n := FindSep(d, sep);
      PackedFirst(d, es, sep, first, n);
      skip, next := n + 1, 0;
    }
  }

  lemma PackedEmpty(d: seq<byte>, es: seq<Name>, binary: bool, sep: byte, first: nat)
    requires Packed(d, es, binary, sep, first)
    ensures d == [] <==> es == []
  {}

  lemma FirstCached(d: seq<byte>, es: seq<Name>, binary: bool, sep: byte, first: nat)
    requires Packed(d, es, binary, sep, first) && es != []
    ensures first == |es[0]| || (!binary && first == 0)
  {}

  lemma PackedFirst(d: seq<byte>, es: seq<Name>, sep: byte, first: nat, n: nat)
    requires Packed(d, es, false, sep, first) && es != []
    requires n < |d| && sep !in d[..n] && (n < |d| - 1 ==> d[n] == sep)
    ensures n == |es[0]|
  {
    FirstElement(es, sep, d[|d| - 1], n);
  }

  /** The elements of a text without its final byte. */
  function Split(t: seq<byte>, sep: byte): (es: seq<Name>)
    ensures es != []
  {
    if t == [] then [[]]
    else
      var rest := Split(t[1..], sep);
      if t[0] == sep then [[]] + rest else [[t[0]] + rest[0]] + rest[1..]
  }

  lemma TextCons(x: byte, rest: seq<Name>, sep: byte, last: byte)
    requires rest != []
    ensures Text([[x] + rest[0]] + rest[1..], sep, last) == [x] + Text(rest, sep, last)
    ensures Text([[]] + rest, sep, last) == [sep] + Text(rest, sep, last)
  {
    var es := [[x] + rest[0]] + rest[1..];
    assert es[1..] == rest[1..] && es[0] == [x] + rest[0];
    var end := if |rest| == 1 then last else sep;
    assert [x] + rest[0] + [end] + Text(rest[1..], sep, last) == [x] + (rest[0] + [end] + Text(rest[1..], sep, last));
    assert ([[]] + rest)[1..] == rest;
  }

  lemma {:induction false} SplitText(t: seq<byte>, sep: byte, last: byte)
    ensures Text(Split(t, sep), sep, last) == t + [last] && Separable(Split(t, sep), sep)
  {
    if t == [] {
      assert Text([[]], sep, last) == [] + [last] + Text([], sep, last);
    } else {
      var rest := Split(t[1..], sep);
      SplitText(t[1..], sep, last);
      TextCons(t[0], rest, sep, last);
      hide Text;
      assert t + [last] == [t[0]] + (t[1..] + [last]);
    }
  }

  /** Text before the first assign byte. */
  function UpTo(t: seq<byte>, assign: byte): seq<byte> {
    if t == [] || t[0] == assign then [] else [t[0]] + UpTo(t[1..], assign)
  }

  lemma {:induction false} UpToIs(t: seq<byte>, assign: byte, n: nat)
    requires n <= |t| && assign !in t[..n] && (n < |t| ==> t[n] == assign)
    ensures UpTo(t, assign) == t[..n]
  {
    if n > 0 {
      assert t[0] == t[..n][0] && t[1..][..n - 1] == t[..n][1..];
      UpToIs(t[1..], assign, n - 1);
      assert t[..n] == [t[0]] + t[1..][..n - 1];
    }
  }

  lemma {:induction false} SplitFirst(t: seq<byte>, sep: byte, n: nat)
    requires n <= |t| && sep !in t[..n] && (n < |t| ==> t[n] == sep)
    ensures Split(t, sep)[0] == t[..n]
  {
    if n > 0 {
      assert t[0] == t[..n][0] && t[1..][..n - 1] == t[..n][1..];
      SplitFirst(t[1..], sep, n - 1);
      assert t[..n] == [t[0]] + t[1..][..n - 1];
    }
  }

  /** Reads a text path: `plen` bytes of it are used, `first` is the length of its first element if
      that ends at a separator and fits into a byte. */
  method SetOf(val: seq<byte>, sep: byte, assign: byte) returns (plen: nat, add: nat, first: nat, elem: nat)
    ensures plen + add == |UpTo(val, assign)| + 1 && plen <= |val|
    ensures first == 0 || first == |Split(UpTo(val, assign), sep)[0]|
    ensures elem == Seps(UpTo(val, assign), sep) + if assign in val then 1 else 0
  {
    plen, add, first, elem := 0, 1, 0, 0;
    while plen < |val|
      invariant plen <= |val| && assign !in val[..plen] && elem == Seps(val[..plen], sep)
      invariant elem == 0 ==> first == 0 && sep !in val[..plen]
      invariant elem > 0 ==> first < plen && sep !in val[..first] && val[first] == sep
    {
      var curr := val[plen];
      SepsSnoc(val, plen, sep);
      plen := plen + 1;
      if curr == assign {
        add, elem := 0, elem + 1;
        UpToIs(val, assign, plen - 1);
        if first > 0 { FirstIs(val, sep, plen - 1, first); }
        if first > 255 { first := 0; }
        return;
      }
      if curr == sep {
        if elem == 0 { first := plen - 1; }
        elem := elem + 1;
      }
    }
    UpToIs(val, assign, |val|);
    if first > 0 { FirstIs(val, sep, |val|, first); }
    if first > 255 { first := 0; }
  }

  /** Separators in a text. */
  function Seps(t: seq<byte>, sep: byte): nat {
    if t == [] then 0 else (if t[0] == sep then 1 else 0) + Seps(t[1..], sep)
  }

  lemma {:induction false} SepsSnoc(t: seq<byte>, n: nat, sep: byte)
    requires n < |t|
    ensures Seps(t[..n + 1], sep) == Seps(t[..n], sep) + if t[n] == sep then 1 else 0
    decreases n
  {
    if n == 0 {
      assert t[..1][1..] == [] && t[..0] == [];
    } else {
      assert t[..n + 1][1..] == t[1..][..n] && t[..n][1..] == t[1..][..n - 1];
      SepsSnoc(t[1..], n - 1, sep);
    }
  }

  lemma {:induction false} SplitSize(t: seq<byte>, sep: byte)
    ensures |Split(t, sep)| == Seps(t, sep) + 1
  {
    if t != [] {
      SplitSize(t[1..], sep);
    }
  }

  lemma FirstIs(val: seq<byte>, sep: byte, n: nat, first: nat)
    requires first < n <= |val| && sep !in val[..first] && val[first] == sep
    ensures |Split(val[..n], sep)[0]| == first
  {
    assert val[..n][..first] == val[..first];
    SplitFirst(val[..n], sep, first);
  }

  /** A text path set from a string holds the elements of the text before the assign byte.  `beyond`
      is the byte of memory behind the string.  The count leaves out an element at the end of it. */
  method SetPath(val: seq<byte>, beyond: byte, sep: byte, assign: byte) returns (p: Path, n: nat)
    ensures n == |Split(UpTo(val, assign), sep)| - if assign in val then 0 else 1
    ensures fresh(p) && p.Holds(Split(UpTo(val, assign), sep)) && !p.binary && p.sep == sep && p.off == 0
  {
    p := new Path(false, sep, assign);
    var plen, add, first, elem := SetOf(val, sep, assign);
    n := elem;
    SplitSize(UpTo(val, assign), sep);
    p.base, p.len, p.first := val + [beyond], plen + add, first;
    ghost var t := UpTo(val, assign);
    UpToPrefix(val, assign);
    assert p.base[..p.len] == t + [p.base[|t|]];
    SplitText(t, sep, p.base[|t|]);
  }

  lemma {:induction false} UpToPrefix(t: seq<byte>, assign: byte)
    ensures UpTo(t, assign) <= t
  {
    if t != [] && t[0] != assign {
      UpToPrefix(t[1..], assign);
    }
  }

  /** Iterating over a copy of a path yields exactly its elements. */
  method Iterate(p: Path, ghost es: seq<Name>) returns (out: seq<Name>)
    requires p.Holds(es)
    ensures out == es
  {
    hide Packed;
    var q := new Path(p.binary, p.sep, p.assign);
    q.base, q.off, q.len, q.first := p.base, p.off, p.len, p.first;
    out := [];
    ghost var rest := es;
    while true
      invariant fresh(q) && q.Holds(rest) && out + rest == es
      decreases |rest|
    {
      var off := q.off;
      var n := q.Next(rest);
      if n < 0 { break; }
      out := out + [q.base[off..off + n]];
      rest := rest[1..];
    }
  }

  /** A run of changes: a caller writes bytes behind the path and adds the first of them as an
      element, or removes the last element. */
  datatype Op = Push(elem: Name, more: seq<byte>) | Pop

  function Model(es: seq<Name>, op: Op, binary: bool, sep: byte): seq<Name> {
    match op
    case Push(elem, _) => if !binary && sep in elem then es else es + [elem]
    case Pop => if es == [] then es else es[..|es| - 1]
  }

  function Models(es: seq<Name>, ops: seq<Op>, binary: bool, sep: byte): seq<Name>
    decreases |ops|
  {
    if ops == [] then es else Models(Model(es, ops[0], binary, sep), ops[1..], binary, sep)
  }

  /** One change. */
  method Do(p: Path, op: Op, ghost es: seq<Name>)
    requires p.off == 0 && p.Holds(es) && (op.Push? ==> |op.elem| <= 255)
    modifies p
    ensures p.off == 0 && p.Holds(Model(es, op, p.binary, p.sep))
  {
    hide Packed;
    match op {
      case Push(elem, more) =>
        var base := p.base[..p.len] + elem + more;
        assert base[0..p.len] == p.base[0..p.len] && base[p.len..p.len + |elem|] == elem;
        p.base := base;
        var r := p.Add(|elem|, es);
      case Pop =>
        var r := p.Del(es);
    }
  }

  /** After any run, with elements of at most 255 bytes, iterating the path yields the element list. */
  method Play(ops: seq<Op>, binary: bool, sep: byte, assign: byte) returns (out: seq<Name>)
    requires forall i :: 0 <= i < |ops| && ops[i].Push? ==> |ops[i].elem| <= 255
    ensures out == Models([], ops, binary, sep)
  {
    hide Packed, Model;
    var p := new Path(binary, sep, assign);
    ghost var es: seq<Name> := [];
    assert ops[0..] == ops;
    for i := 0 to |ops|
      invariant fresh(p) && p.binary == binary && p.sep == sep && p.off == 0 && p.Holds(es)
      invariant Models([], ops, binary, sep) == Models(es, ops[i..], binary, sep)
    {
      assert ops[i..][0] == ops[i] && ops[i..][1..] == ops[i + 1..];
      Do(p, ops[i], es);
      es := Model(es, ops[i], binary, sep);
    }
    assert ops[|ops|..] == [];
    out := Iterate(p, es);
  }
}
