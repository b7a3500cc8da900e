/** The environment block of another process, read page by page and converted to UTF-8. */
module Environ {

  type unit = x: int | 0 <= x < 0x1_0000
  type byte = x: int | 0 <= x < 256
  type point = x: int | 0 <= x < 0x11_0000

  // ------------------------------------------------------------------ UTF-16 and UTF-8

  predicate High(u: int) { 0xd800 <= u < 0xdc00 }
  predicate Low(u: int) { 0xdc00 <= u < 0xe000 }

  function Pair(h: unit, l: unit): (c: point)
    requires High(h) && Low(l)
    ensures 0x1_0000 <= c
  {
    0x1_0000 + (h - 0xd800) * 0x400 + (l - 0xdc00)
  }

  /** Code points of UTF-16 text; a surrogate without its other half stands for itself. */
  function Points(w: seq<unit>): (cs: seq<point>) {
    if w == [] then []
    else if High(w[0]) && |w| > 1 && Low(w[1]) then [Pair(w[0], w[1])] + Points(w[2..])
    else [w[0]] + Points(w[1..])
  }

  /** One code point in one to four bytes. */
  function Encode(c: point): (b: seq<byte>) {
    if c < 0x80 then [c]
    else if c < 0x800 then [0xc0 + c / 0x40, 0x80 + c % 0x40]
    else if c < 0x1_0000 then [0xe0 + c / 0x1000, 0x80 + c / 0x40 % 0x40, 0x80 + c % 0x40]
    else [0xf0 + c / 0x4_0000, 0x80 + c / 0x1000 % 0x40, 0x80 + c / 0x40 % 0x40, 0x80 + c % 0x40]
  }

  function EncodeAll(cs: seq<point>): (b: seq<byte>) {
    if cs == [] then [] else Encode(cs[0]) + EncodeAll(cs[1..])
  }

  function Utf8(w: seq<unit>): (b: seq<byte>) {
    EncodeAll(Points(w))
  }

  /** The code point at the front of UTF-8 text and the bytes it takes: section 3 of RFC 3629. */
  function Decode(b: seq<byte>): (r: (int, nat)) {
    var x, y, z, w: int :=
      if |b| > 0 then b[0] else 0, if |b| > 1 then b[1] % 0x40 else 0, if |b| > 2 then b[2] % 0x40 else 0, if |b| > 3 then b[3] % 0x40 else 0;
    if |b| >= 1 && x < 0x80 then (x, 1)
    else if |b| >= 2 && 0xc2 <= x < 0xe0 then ((x - 0xc0) * 0x40 + y, 2)
    else if |b| >= 3 && 0xe0 <= x < 0xf0 then ((x - 0xe0) * 0x1000 + y * 0x40 + z, 3)
    else if |b| >= 4 && 0xf0 <= x < 0xf5 then ((x - 0xf0) * 0x4_0000 + y * 0x1000 + z * 0x40 + w, 4)
    else (0, 0)
  }

  lemma Sextets(c: nat)
    ensures c == c / 0x40 * 0x40 + c % 0x40
    ensures c / 0x40 == c / 0x1000 * 0x40 + c / 0x40 % 0x40
    ensures c / 0x1000 == c / 0x4_0000 * 0x40 + c / 0x1000 % 0x40
  {
  }

  lemma Tail(x: nat)
    requires x < 0x40
    ensures (0x80 + x) % 0x40 == x
  {
  }

  /** Every code point is read back from its bytes, whatever follows, in the fewest bytes. */
  lemma EncodeDecodes(c: point, b: seq<byte>)
    requires Encode(c) <= b
    ensures Decode(b) == (c, |Encode(c)|)
    ensures |Encode(c)| == if c < 0x80 then 1 else if c < 0x800 then 2 else if c < 0x1_0000 then 3 else 4
  {
    Sextets(c);
    Tail(c % 0x40);
    Tail(c / 0x40 % 0x40);
    Tail(c / 0x1000 % 0x40);
    var e := Encode(c);
    assert b[0] == e[0];
    if c >= 0x80 { assert b[1] == e[1]; }
    if c >= 0x800 { assert b[2] == e[2]; }
    if c >= 0x1_0000 { assert b[3] == e[3]; }
  }

  /** A code point in UTF-16: section 2.1 of RFC 2781. */
  function Units(c: point): (w: seq<unit>) {
    if c < 0x1_0000 then [c] else [0xd800 + (c - 0x1_0000) / 0x400, 0xdc00 + (c - 0x1_0000) % 0x400]
  }

  function AllUnits(cs: seq<point>): (w: seq<unit>) {
    if cs == [] then [] else Units(cs[0]) + AllUnits(cs[1..])
  }

  predicate Scalars(cs: seq<point>) {
    forall c :: c in cs ==> !High(c) && !Low(c)
  }

  /** Text that was well-formed comes out as its code points. */
  lemma {:induction false} PointsOfText(cs: seq<point>)
    requires Scalars(cs)
    ensures Points(AllUnits(cs)) == cs
  {
    if cs != [] {
      assert cs[0] in cs;
      assert forall c :: c in cs[1..] ==> c in cs;
      PointsOfText(cs[1..]);
      PointsOfOne(cs[0], AllUnits(cs[1..]));
      assert cs == [cs[0]] + cs[1..];
    }
  }

  lemma PointsOfOne(c: point, rest: seq<unit>)
    requires !High(c) && !Low(c)
    ensures Points(Units(c) + rest) == [c] + Points(rest)
  {
    var u := Units(c);
    var w := u + rest;
    if c < 0x1_0000 {
      assert w[1..] == rest && w[0] == c;
    } else {
      assert w[2..] == rest && w[0] == u[0] && w[1] == u[1];
    }
  }

  /** Without a high surrogate in front of a low one every unit stands for itself. */
  lemma {:induction false} PointsLone(w: seq<unit>)
    requires forall i {:trigger w[i]} :: 0 < i < |w| ==> !(0xd800 <= w[i - 1] < 0xdc00 && 0xdc00 <= w[i] < 0xe000)
    ensures |Points(w)| == |w| && forall i {:trigger w[i]} :: 0 <= i < |w| ==> Points(w)[i] == w[i]
  {
    if w != [] {
      var rest := w[1..];
      assert forall i {:trigger rest[i]} :: 0 <= i < |rest| ==> rest[i] == w[i + 1];
      assert forall i {:trigger w[i]} :: 0 < i < |w| ==> w[i] == rest[i - 1];
      PointsLone(rest);
    }
  }

  /** Well-formed text comes out as the encodings of its code points, and they are read back. */
  lemma Utf8OfText(cs: seq<point>)
    requires Scalars(cs)
    ensures Utf8(AllUnits(cs)) == EncodeAll(cs) && DecodeAll(Utf8(AllUnits(cs))) == cs
  {
    PointsOfText(cs);
    DecodesAll(cs);
  }

  /** The code points of UTF-8 text, one after another. */
  function DecodeAll(b: seq<byte>): (cs: seq<int>)
    decreases |b|
  {
    var (c, n) := Decode(b);
    if n == 0 || n > |b| then [] else [c] + DecodeAll(b[n..])
  }

  lemma {:induction false} DecodesAll(cs: seq<point>)
    ensures DecodeAll(EncodeAll(cs)) == cs
  {
    hide Encode, Decode;
    if cs != [] {
      var b, rest := EncodeAll(cs), EncodeAll(cs[1..]);
      assert b == Encode(cs[0]) + rest;
      EncodeDecodes(cs[0], b);
      DecodesAll(cs[1..]);
      assert b[|Encode(cs[0])|..] == rest;
      assert cs == [cs[0]] + cs[1..];
    } else {
      DecodeNone();
    }
  }

  lemma DecodeNone()
    ensures Decode([]) == (0, 0)
  {
  }

  /** Text may be converted in two parts anywhere but inside a surrogate pair. */
  lemma {:induction false} Utf8Split(a: seq<unit>, b: seq<unit>)
    requires a == [] || b == [] || !(High(a[|a| - 1]) && Low(b[0]))
    ensures Utf8(a + b) == Utf8(a) + Utf8(b)
    decreases |a|
  {
    hide Utf8, Encode, Pair;
    Utf8None();
    if a == [] {
      assert a + b == b;
    } else if b == [] {
      assert a + b == a;
    } else if High(a[0]) && |a| > 1 && Low(a[1]) {
      Utf8Split(a[2..], b);
      assert (a + b)[2..] == a[2..] + b;
      Utf8Pair(a);
      Utf8Pair(a + b);
    } else {
      Utf8Split(a[1..], b);
      assert (a + b)[1..] == a[1..] + b;
      Utf8One(a);
      Utf8One(a + b);
    }
  }

  lemma Utf8None()
    ensures Utf8([]) == []
  {
  }

  lemma Utf8Pair(w: seq<unit>)
    requires |w| > 1 && High(w[0]) && Low(w[1])
    ensures Utf8(w) == Encode(Pair(w[0], w[1])) + Utf8(w[2..])
  {
    hide Encode, Pair;
  }

  lemma Utf8One(w: seq<unit>)
    requires w != [] && !(High(w[0]) && |w| > 1 && Low(w[1]))
    ensures Utf8(w) == Encode(w[0]) + Utf8(w[1..])
  {
    hide Encode;
  }

  // ------------------------------------------------------------------ the whole block at once

  /** Where the first string of a block ends. */
  function Length(w: seq<unit>): (n: nat)
    ensures n <= |w| && (forall i {:trigger w[i]} :: 0 <= i < n ==> w[i] != 0) && (n < |w| ==> w[n] == 0)
  {
    if w == [] || w[0] == 0 then 0
    else
      var n := Length(w[1..]) + 1;
      assert forall i {:trigger w[i]} :: 1 <= i < n ==> w[i] == w[1..][i - 1];
      n
  }

  /** Each string and a NUL; an empty string ends the block, and a string cut short is ended. */
  function Batch(w: seq<unit>): (b: seq<byte>) {
    var n := Length(w);
    if n == 0 then []
    else Utf8(w[..n]) + [0] + if n < |w| then Batch(w[n + 1..]) else []
  }

  /** Strings as a block holds them, and as they are to come out. */
  ghost function Block(ss: seq<seq<unit>>): (w: seq<unit>) {
    if ss == [] then [] else ss[0] + [0] + Block(ss[1..])
  }

  ghost function Listed(ss: seq<seq<unit>>): (b: seq<byte>) {
    if ss == [] then [] else Utf8(ss[0]) + [0] + Listed(ss[1..])
  }

  /** What an end of a block adds: nothing when it is empty or starts with a NUL, else the string cut
      short and its NUL. */
  ghost function Ended(tail: seq<unit>): (b: seq<byte>) {
    if tail == [] || tail[0] == 0 then [] else Utf8(tail) + [0]
  }

  /** A block's strings come out each with its NUL; an empty string ends the block whatever follows, and
      so does the end of what there is, a last string cut short getting its NUL. */
  lemma {:induction false} BatchStrings(ss: seq<seq<unit>>, tail: seq<unit>)
    requires forall i {:trigger ss[i]} :: 0 <= i < |ss| ==> ss[i] != [] && 0 !in ss[i]
    requires tail == [] || tail[0] == 0 || 0 !in tail
    ensures Batch(Block(ss) + tail) == Listed(ss) + Ended(tail)
    decreases |ss|
  {
    hide Utf8, Ended, Batch;
    if ss == [] {
      assert Block(ss) + tail == tail && Listed(ss) + Ended(tail) == Ended(tail);
      BatchEnd(tail);
    } else {
      var s, rest := ss[0], ss[1..];
      var more := Block(rest) + tail;
      assert forall i {:trigger rest[i]} :: 0 <= i < |rest| ==> rest[i] == ss[i + 1];
      assert Block(ss) + tail == s + [0] + more;
      BatchOne(s, more);
      BatchStrings(rest, tail);
      assert Utf8(s) + [0] + (Listed(rest) + Ended(tail)) == (Utf8(s) + [0] + Listed(rest)) + Ended(tail);
    }
  }

  lemma BatchEnd(tail: seq<unit>)
    requires tail == [] || tail[0] == 0 || 0 !in tail
    ensures Batch(tail) == Ended(tail)
  {
    hide Utf8;
    if tail != [] && tail[0] != 0 {
      StringLength(tail, []);
      assert tail + [] == tail && tail[..|tail|] == tail;
    }
  }

  lemma BatchOne(s: seq<unit>, more: seq<unit>)
    requires s != [] && 0 !in s
    ensures Batch(s + [0] + more) == Utf8(s) + [0] + Batch(more)
  {
    hide Utf8;
    var w := s + [0] + more;
    assert w == s + ([0] + more);
    StringLength(s, [0] + more);
    assert w[..|s|] == s && w[|s| + 1..] == more;
  }

  lemma {:induction false} StringLength(s: seq<unit>, rest: seq<unit>)
    requires 0 !in s && (rest == [] || rest[0] == 0)
    ensures Length(s + rest) == |s|
  {
    if s == [] {
      assert s + rest == rest;
    } else {
      assert (s + rest)[1..] == s[1..] + rest && s[0] in s;
      StringLength(s[1..], rest);
    }
  }

  // ------------------------------------------------------------------ one unit at a time

  datatype Carry = None | Some(high: unit)

  datatype State = State(out: seq<byte>, carry: Carry, bound: bool, done: bool)

  function Flushed(s: State): (out: seq<byte>) {
    s.out + if s.carry.Some? then Utf8([s.carry.high]) else []
  }

  function Fresh(out: seq<byte>, u: unit): (s: State) {
    if High(u) then State(out, Some(u), false, false) else State(out + Utf8([u]), None, false, false)
  }

  function Feed(s: State, u: unit): (r: State) {
    if s.done then s
    else if u == 0 then
      if s.bound && s.carry.None? then s.(done := true) else State(Flushed(s) + [0], None, true, false)
    else if s.carry.Some? && Low(u) then State(s.out + Utf8([s.carry.high, u]), None, false, false)
    else Fresh(Flushed(s), u)
  }

  function Feeds(s: State, w: seq<unit>): (r: State)
    decreases |w|
  {
    if w == [] then s else Feeds(Feed(s, w[0]), w[1..])
  }

  function Final(s: State): (out: seq<byte>) {
    Flushed(s) + if !s.done && !s.bound then [0] else []
  }

  lemma {:induction false} FeedsSplit(s: State, a: seq<unit>, b: seq<unit>)
    ensures Feeds(s, a + b) == Feeds(Feeds(s, a), b)
    decreases |a|
  {
    if a == [] {
      assert a + b == b;
    } else {
      FeedsSplit(Feed(s, a[0]), a[1..], b);
      assert (a + b)[1..] == a[1..] + b;
    }
  }

  lemma {:induction false} FeedsDone(s: State, w: seq<unit>)
    requires s.done
    ensures Feeds(s, w) == s
    decreases |w|
  {
    if w != [] { FeedsDone(s, w[1..]); }
  }

  predicate NoZero(w: seq<unit>) {
    forall i {:trigger w[i]} :: 0 <= i < |w| ==> w[i] != 0
  }

  /** What a run of units within a string adds: all of it, but for a high surrogate at its end. */
  function Run(out: seq<byte>, w: seq<unit>): (s: State)
    requires w != []
  {
    var n := |w| - 1;
    if High(w[n]) then State(out + Utf8(w[..n]), Some(w[n]), false, false) else State(out + Utf8(w), None, false, false)
  }

  lemma {:induction false} FeedsRun(s: State, w: seq<unit>)
    requires w != [] && NoZero(w) && s.carry.None? && !s.done
    ensures Feeds(s, w) == Run(s.out, w)
    decreases |w|
  {
    hide Utf8;
    Utf8None();
    var n := |w| - 1;
    assert w[0] != 0;
    assert w[..1] == [w[0]] && s.out + [] == s.out;
    if n == 0 {
      assert w == [w[0]] && w[1..] == [];
    } else {
      assert w[1] == w[1..][0] && w[1] != 0;
      var f := Feed(s, w[0]);
      if High(w[0]) && Low(w[1]) {
        var s2 := State(s.out + Utf8([w[0], w[1]]), None, false, false);
        assert w[1..][1..] == w[2..];
        assert Feed(f, w[1]) == s2;
        assert Feeds(f, w[1..]) == Feeds(s2, w[2..]);
        PairThenRun(s, w);
        if n > 1 { FeedsRun(s2, w[2..]); }
      } else {
        var s1 := State(s.out + Utf8([w[0]]), None, false, false);
        assert Feed(f, w[1]) == Feed(s1, w[1]);
        assert Feeds(f, w[1..]) == Feeds(s1, w[1..]);
        FeedsRun(s1, w[1..]);
        OneThenRun(s, w);
      }
    }
  }

  lemma OneThenRun(s: State, w: seq<unit>)
    requires |w| > 1 && !(High(w[0]) && Low(w[1]))
    ensures Run(s.out + Utf8([w[0]]), w[1..]) == Run(s.out, w)
  {
    hide Utf8;
    Utf8None();
    var n := |w| - 1;
    var r := w[1..];
    assert w == [w[0]] + r && w[..n] == [w[0]] + r[..n - 1];
    Utf8Split([w[0]], r);
    Utf8Split([w[0]], r[..n - 1]);
  }

  lemma PairThenRun(s: State, w: seq<unit>)
    requires |w| > 1 && High(w[0]) && Low(w[1])
    ensures |w| == 2 ==> Run(s.out, w) == State(s.out + Utf8([w[0], w[1]]), None, false, false)
    ensures |w| > 2 ==> Run(s.out + Utf8([w[0], w[1]]), w[2..]) == Run(s.out, w)
  {
    hide Utf8;
    Utf8None();
    var n := |w| - 1;
    var r := w[2..];
    assert w == [w[0], w[1]] + r;
    if n == 1 {
      assert w == [w[0], w[1]];
    } else {
      assert w[..n] == [w[0], w[1]] + r[..n - 2];
      Utf8Split([w[0], w[1]], r);
      Utf8Split([w[0], w[1]], r[..n - 2]);
    }
  }

  /** Fed one unit after another, a block comes out as it does at once. */
  lemma {:induction false} FeedsBatch(out: seq<byte>, w: seq<unit>)
    ensures Final(Feeds(State(out, None, true, false), w)) == out + Batch(w)
    decreases |w|
  {
    hide Utf8;
    var s, n := State(out, None, true, false), Length(w);
    if n == 0 {
      if w != [] {
        FeedsDone(Feed(s, w[0]), w[1..]);
      }
      assert out + [] == out;
    } else {
      var run := w[..n];
      FeedsRun(s, run);
      FeedsSplit(s, run, w[n..]);
      assert w == run + w[n..];
      RunFlushed(out, run);
      if n < |w| {
        assert w[n..][0] == 0 && w[n..][1..] == w[n + 1..];
        FeedsBatch(out + Utf8(run) + [0], w[n + 1..]);
        assert out + Utf8(run) + [0] + Batch(w[n + 1..]) == out + (Utf8(run) + [0] + Batch(w[n + 1..]));
      } else {
        assert w[n..] == [];
        assert out + Utf8(run) + [0] == out + (Utf8(run) + [0] + []);
      }
    }
  }

  lemma RunFlushed(out: seq<byte>, w: seq<unit>)
    requires w != []
    ensures Flushed(Run(out, w)) == out + Utf8(w)
  {
    hide Utf8;
    var n := |w| - 1;
    if High(w[n]) {
      Utf8Split(w[..n], [w[n]]);
      assert w == w[..n] + [w[n]];
      assert out + Utf8(w[..n]) + Utf8([w[n]]) == out + Utf8(w);
    }
  }

  // ------------------------------------------------------------------ page by page

  /** Output that only grows. */
  class Buffer {
    var data: seq<byte>

    constructor ()
      ensures data == []
    {
      data := [];
    }

    method Put(b: seq<byte>)
      modifies this
      ensures data == old(data) + b
    {
      data := data + b;
    }

    /** UTF-16 text appended as UTF-8. */
    method PutUtf8(w: seq<unit>)
      modifies this
      ensures data == old(data) + Utf8(w)
    {
      hide Utf8, Encode, Pair;
      Utf8None();
      var i := 0;
      assert w[0..] == w;
      while i < |w|
        invariant 0 <= i <= |w| && data + Utf8(w[i..]) == old(data) + Utf8(w)
      {
        var c: int := w[i];
        ghost var rest := w[i..];
        assert rest[1..] == w[i + 1..];
        if High(c) && i + 1 < |w| && Low(w[i + 1]) {
          assert rest[2..] == w[i + 2..];
          Utf8Pair(rest);
          c := Pair(w[i], w[i + 1]);
          i := i + 1;
        } else {
          Utf8One(rest);
        }
        PutPoint(c);
        i := i + 1;
      }
      assert w[i..] == [] && data + [] == data;
    }

    method PutPoint(c: point)
      modifies this
      ensures data == old(data) + Encode(c)
    {
      if c < 0x80 {
        Put([c]);
      } else if c < 0x800 {
        Put([0xc0 + c / 0x40, 0x80 + c % 0x40]);
      } else if c < 0x1_0000 {
        Put([0xe0 + c / 0x1000, 0x80 + c / 0x40 % 0x40, 0x80 + c % 0x40]);
      } else {
        Put([0xf0 + c / 0x4_0000, 0x80 + c / 0x1000 % 0x40, 0x80 + c / 0x40 % 0x40, 0x80 + c % 0x40]);
      }
    }

    /** The strings of one page from unit i on. */
    method PutPage(page: seq<unit>, start: nat, bound0: bool) returns (carry: Carry, bound: bool, done: bool)
      requires start <= |page|
      modifies this
      ensures Feeds(State(old(data), None, bound0, false), page[start..]) == State(data, carry, bound, done)
      ensures (carry.Some? ==> !bound) && (done ==> bound && carry.None?)
    {
      hide Utf8, Feeds, Feed, Run;
      carry, bound, done := None, bound0, false;
      ghost var s := State(data, None, bound0, false);
      var i := start;
      while i < |page|
        invariant start <= i <= |page| && !done && (carry.Some? ==> i == |page| && !bound)
        invariant Feeds(State(data, carry, bound, false), page[i..]) == Feeds(s, page[start..])
      {
        ghost var rest := page[i..];
        if page[i] == 0 {
          FeedZero(data, bound, rest);
          assert rest[1..] == page[i + 1..];
          if bound {
            done := true;
            return;
          }
          Put([0]);
          bound := true;
          i := i + 1;
        } else {
          var j := i;
          while j < |page| && page[j] != 0
            invariant i <= j <= |page| && (j == i ==> page[i] != 0) && NoZero(page[i..j])
          {
            assert page[i..j + 1] == page[i..j] + [page[j]];
            j := j + 1;
          }
          assert rest == page[i..j] + page[j..];
          FeedsSplit(State(data, None, bound, false), page[i..j], page[j..]);
          FeedsRun(State(data, None, bound, false), page[i..j]);
          RunAtEdge(data, page, i, j);
          var end := j;
          if j == |page| && High(page[j - 1]) {
            end := j - 1;
            carry := Some(page[end]);
          }
          PutUtf8(page[i..end]);
          bound := false;
          i := j;
        }
      }
      FeedsNone(State(data, carry, bound, false));
      assert page[i..] == [];
    }

    /** One page, with the surrogate the page before it may have left. */
    method PutNextPage(page: seq<unit>, carry0: Carry, bound0: bool) returns (carry: Carry, bound: bool, done: bool)
      requires carry0.Some? ==> !bound0
      modifies this
      ensures page != [] ==> Feeds(State(old(data), carry0, bound0, false), page) == State(data, carry, bound, done)
      ensures page == [] ==> data == Flushed(State(old(data), carry0, bound0, false)) && carry.None? && bound == bound0 && !done
      ensures (carry.Some? ==> !bound) && (done ==> bound && carry.None?)
    {
      hide Utf8, Feeds, Feed;
      var start := 0;
      assert page[0..] == page && data + [] == data;
      if carry0.Some? {
        if |page| > 0 { CarryIn(data, carry0.high, page); }
        if |page| > 0 && Low(page[0]) {
          PutUtf8([carry0.high, page[0]]);
          start := 1;
        } else {
          PutUtf8([carry0.high]);
        }
      }
      FeedsNone(State(data, None, bound0, false));
      carry, bound, done := PutPage(page, start, bound0);
    }
  }

  lemma FeedsNone(s: State)
    ensures Feeds(s, []) == s
  {
  }

  lemma FeedZero(out: seq<byte>, bound: bool, w: seq<unit>)
    requires w != [] && w[0] == 0
    ensures Feeds(State(out, None, bound, false), w)
         == if bound then State(out, None, true, true) else Feeds(State(out + [0], None, true, false), w[1..])
  {
    assert out + [] == out;
    if bound { FeedsDone(State(out, None, true, true), w[1..]); }
  }

  /** A run that does not reach the edge of its page needs nothing carried over: a NUL follows. */
  lemma RunAtEdge(out: seq<byte>, page: seq<unit>, i: nat, j: nat)
    requires i < j <= |page| && (j < |page| ==> page[j] == 0)
    ensures Feeds(Run(out, page[i..j]), page[j..])
         == if j == |page| && High(page[j - 1]) then Feeds(State(out + Utf8(page[i..j - 1]), Some(page[j - 1]), false, false), page[j..])
            else Feeds(State(out + Utf8(page[i..j]), None, false, false), page[j..])
  {
    hide Utf8;
    var w := page[i..j];
    assert w[..|w| - 1] == page[i..j - 1] && w[|w| - 1] == page[j - 1];
    if j < |page| {
      assert page[j..][0] == 0;
      RunFlushed(out, w);
      assert out + Utf8(w) + [] == out + Utf8(w);
      assert Feed(Run(out, w), 0) == Feed(State(out + Utf8(w), None, false, false), 0);
    }
  }

  const CAP := 0x10_0000

  /** The size of the block; without one, or with an absurd one, a megabyte. */
  function BlockSize(known: bool, size: nat): (n: nat) {
    if !known || size > CAP then CAP else size
  }

  /** How many bytes are read when those below `mapped` can be. */
  function Reach(off: nat, size: nat, mapped: nat, page: nat): (n: nat)
    requires 0 < page && off <= size
    ensures off <= n <= size && (mapped >= size ==> n == size)
    ensures n > off ==> n <= mapped
    decreases size - off
  {
    if off < size then
      var want := if size - off < page then size - off else page;
      if off + want <= mapped then Reach(off + want, size, mapped, page) else off
    else off
  }

  /** A carried surrogate meets the first unit of the next page. */
  lemma CarryIn(out: seq<byte>, high: unit, w: seq<unit>)
    requires w != []
    ensures var s := State(out, Some(high), false, false);
            Feeds(s, w) == if Low(w[0]) then Feeds(State(out + Utf8([high, w[0]]), None, false, false), w[1..])
                           else Feeds(State(out + Utf8([high]), None, false, false), w)
  {
    hide Utf8;
    var s, t := State(out, Some(high), false, false), State(out + Utf8([high]), None, false, false);
    assert t.out + [] == t.out;
    assert !Low(w[0]) ==> Feed(s, w[0]) == Feed(t, w[0]);
  }

  /** The environment of another process: the part of the block that can be read, converted as if
      it had been read at once, whatever the page size. */
  method GenEnviron(b: Buffer, mem: seq<unit>, mapped: nat, known: bool, size0: nat, pageBytes: nat)
    requires 0 < pageBytes && pageBytes % 2 == 0 && mapped <= 2 * |mem|
    modifies b
    ensures var size := if !known || size0 > 0x10_0000 then 0x10_0000 else size0;
            var read := if size <= mapped then size else WholePages(mapped, pageBytes);
            b.data == old(b.data) + Batch(mem[..read / 2])
  {
    hide Batch, Reach, WholePages;
    var size := BlockSize(known, size0);
    ReachIs(0, size, mapped, pageBytes);
    PutPages(b, mem, mapped, size, pageBytes);
  }

  /** The pages of a block one after another, with what each leaves to the next. */
  method PutPages(b: Buffer, mem: seq<unit>, mapped: nat, size: nat, pageBytes: nat)
    requires 0 < pageBytes && pageBytes % 2 == 0 && mapped <= 2 * |mem|
    modifies b
    ensures b.data == old(b.data) + Batch(mem[..Reach(0, size, mapped, pageBytes) / 2])
  {
    hide Utf8, Feeds, Feed, Batch, Reach, Flushed;
    var off: nat := 0;
    var carry, bound, done := None, true, false;
    ghost var s, total := State(b.data, None, true, false), Reach(0, size, mapped, pageBytes);
    FeedsNone(s);
    assert mem[..0] == [];
    while !done && off < size
      invariant off <= size && off <= 2 * |mem| && (off < size ==> off % 2 == 0)
      invariant !done ==> Reach(off, size, mapped, pageBytes) == total && off <= total
      invariant !done && off < size ==> Feeds(s, mem[..off / 2]) == State(b.data, carry, bound, false)
      invariant !done ==> Final(Feeds(s, mem[..off / 2])) == Final(State(b.data, carry, bound, false))
      invariant done ==> carry.None? && Final(Feeds(s, mem[..total / 2])) == b.data
      invariant carry.Some? ==> !bound
      decreases size - off, !done
    {
      var want := if size - off < pageBytes then size - off else pageBytes;
      ReachStep(off, size, mapped, pageBytes);
      if off + want > mapped { break; }
      var nw := want / 2;
      var page := mem[off / 2..off / 2 + nw];
      ghost var was := State(b.data, carry, bound, false);
      carry, bound, done := b.PutNextPage(page, carry, bound);
      PageStep(s, mem, off, want);
      if nw == 0 {
        FeedsNone(was);
        FinalIs(was);
        FinalIs(State(b.data, carry, bound, false));
      }
      if done { DoneEarly(s, mem, (off + want) / 2, total / 2, b.data); }
      off := off + want;
    }
    ReachEnds(size, mapped, pageBytes);
    FinalIs(State(b.data, carry, bound, false));
    if carry.Some? { b.PutUtf8([carry.high]); }
    if !done && !bound { b.Put([0]); }
    FeedsBatch(s.out, mem[..total / 2]);
    assert b.data + [] == b.data;
  }

  lemma PageStep(s: State, mem: seq<unit>, off: nat, want: nat)
    requires off % 2 == 0 && off + want <= 2 * |mem|
    ensures Feeds(s, mem[..(off + want) / 2]) == Feeds(Feeds(s, mem[..off / 2]), mem[off / 2..off / 2 + want / 2])
  {
    var n := off / 2;
    assert (off + want) / 2 == n + want / 2;
    assert mem[..n + want / 2] == mem[..n] + mem[n..n + want / 2];
    FeedsSplit(s, mem[..n], mem[n..n + want / 2]);
  }

  /** How many bytes the whole pages below n take. */
  function WholePages(n: nat, page: nat): (r: nat)
    requires 0 < page
    ensures r <= n < r + page
  {
    if n < page then 0 else page + WholePages(n - page, page)
  }

  /** Everything is read, or all whole pages below the first address that cannot be. */
  lemma {:induction false} ReachIs(off: nat, size: nat, mapped: nat, page: nat)
    requires 0 < page && off <= size && off <= mapped
    ensures Reach(off, size, mapped, page) == if size <= mapped then size else off + WholePages(mapped - off, page)
    decreases size - off
  {
    if off < size && off + page <= mapped && size - off >= page { ReachIs(off + page, size, mapped, page); }
  }

  lemma ReachStep(off: nat, size: nat, mapped: nat, page: nat)
    requires 0 < page && off < size
    ensures var want := if size - off < page then size - off else page;
            if off + want <= mapped then
              Reach(off, size, mapped, page) == Reach(off + want, size, mapped, page) && off + want <= Reach(off, size, mapped, page)
            else Reach(off, size, mapped, page) == off
  {
  }

  lemma ReachEnds(size: nat, mapped: nat, page: nat)
    requires 0 < page
    ensures Reach(size, size, mapped, page) == size
  {
  }

  lemma FinalIs(s: State)
    ensures Final(s) == Flushed(s) + if !s.done && !s.bound then [0] else []
    ensures Flushed(s) == if s.carry.Some? then s.out + Utf8([s.carry.high]) else s.out
    ensures Flushed(s) + [] == Flushed(s)
  {
    hide Utf8;
    assert s.out + [] == s.out;
  }

  lemma DoneEarly(s: State, mem: seq<unit>, n: nat, m: nat, out: seq<byte>)
    requires n <= m <= |mem| && Feeds(s, mem[..n]) == State(out, None, true, true)
    ensures Final(Feeds(s, mem[..m])) == out
  {
    FeedsSplit(s, mem[..n], mem[n..m]);
    assert mem[..m] == mem[..n] + mem[n..m];
    FeedsDone(State(out, None, true, true), mem[n..m]);
    assert out + [] + [] == out;
  }
}
