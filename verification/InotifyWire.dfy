/** Change records as they go through the pipe. */
module InotifyWire {
  import opened LittleEndian

  const NAME_MAX := 255
  const ALIGN := 16

  /** One record; the name holds no NUL. */
  datatype Record = Record(wd: int, mask: nat, name: seq<byte>)

  predicate Good(r: Record) {
    -1 <= r.wd < 0x8000_0000 && r.mask < 0x1_0000_0000 && |r.name| <= NAME_MAX && 0 !in r.name
  }

  /** The name's length with its padding, at least one NUL. */
  function Padded(n: nat): (len: nat)
    ensures n == 0 <==> len == 0
    ensures n > 0 ==> n < len <= n + ALIGN
  {
    if n == 0 then 0 else (n + 1 + ALIGN - 1) / ALIGN * ALIGN
  }

  function Zeros(n: nat): (b: seq<byte>)
    ensures |b| == n && forall i {:trigger b[i]} :: 0 <= i < n ==> b[i] == 0
  {
    seq(n, _ => 0)
  }

  function Header(wd: int, mask: nat, len: nat): (b: seq<byte>)
    requires -1 <= wd
    ensures |b| == 16
  {
    Bytes(if wd < 0 then 0xffff_ffff else wd, 4) + Bytes(mask, 4) + Bytes(0, 4) + Bytes(len, 4)
  }

  predicate AllGood(rs: seq<Record>) {
    forall i {:trigger rs[i]} :: 0 <= i < |rs| ==> Good(rs[i])
  }

  function Wire(r: Record): (b: seq<byte>)
    requires Good(r)
  {
    Header(r.wd, r.mask, Padded(|r.name|)) + r.name + Zeros(Padded(|r.name|) - |r.name|)
  }

  function WireAll(rs: seq<Record>): (b: seq<byte>)
    requires AllGood(rs)
  {
    if rs == [] then [] else WireAll(rs[..|rs| - 1]) + Wire(rs[|rs| - 1])
  }

  /** The name in a field padded with NULs. */
  function Trim(b: seq<byte>): (n: seq<byte>) {
    if b == [] || b[0] == 0 then [] else [b[0]] + Trim(b[1..])
  }

  /** The records a reader finds in a run of bytes. */
  function Parse(b: seq<byte>): (rs: seq<Record>)
    decreases |b|
  {
    if |b| < 16 then []
    else
      var wd, len := Value(b[..4]), Value(b[12..16]);
      if 16 + len > |b| then []
      else
        [Record(if wd >= 0x8000_0000 then wd - 0x1_0000_0000 else wd, Value(b[4..8]), Trim(b[16..16 + len]))] + Parse(b[16 + len..])
  }

  lemma {:induction false} TrimZeros(n: seq<byte>, k: nat)
    requires 0 !in n && (n == [] || k > 0)
    ensures Trim(n + Zeros(k)) == n
  {
    if n == [] {
      assert n + Zeros(k) == Zeros(k);
    } else {
      assert n[0] in n && forall x :: x in n[1..] ==> x in n;
      assert (n + Zeros(k))[1..] == n[1..] + Zeros(k);
      TrimZeros(n[1..], k);
    }
  }

  lemma HeaderValues(wd: int, mask: nat, len: nat, b: seq<byte>)
    requires -1 <= wd < 0x8000_0000 && mask < 0x1_0000_0000 && len < 0x1_0000_0000 && Header(wd, mask, len) <= b
    ensures Value(b[..4]) == (if wd < 0 then 0xffff_ffff else wd) && Value(b[4..8]) == mask && Value(b[12..16]) == len
  {
    Limits();
    var h, w := Header(wd, mask, len), if wd < 0 then 0xffff_ffff else wd;
    ValueBytes(w, 4);
    ValueBytes(mask, 4);
    ValueBytes(len, 4);
    assert b[..4] == h[..4] == Bytes(w, 4);
    assert b[4..8] == h[4..8] == Bytes(mask, 4);
    assert b[12..16] == h[12..16] == Bytes(len, 4);
  }

  /** Where a record's fields are: descriptor, mask, a zero cookie, the length of what follows, and the
      name with NULs up to a multiple of 16, at least one. */
  lemma WireLayout(r: Record)
    requires Good(r)
    ensures var b, n := Wire(r), |r.name|;
            var len := if n == 0 then 0 else (n + 16) / 16 * 16;
            && |b| == 16 + len
            && Value(b[..4]) == (if r.wd < 0 then 0xffff_ffff else r.wd) && Value(b[4..8]) == r.mask
            && b[8..12] == [0, 0, 0, 0] && Value(b[12..16]) == len
            && b[16..16 + n] == r.name && forall i {:trigger b[i]} :: 16 + n <= i < |b| ==> b[i] == 0
  {
    hide Value, Zeros, Padded, Header;
    var n, len := |r.name|, Padded(|r.name|);
    PaddedIs(n);
    var h, field := Header(r.wd, r.mask, len), r.name + Zeros(len - n);
    var b := h + field;
    assert b == Wire(r) && b[..16] == h;
    HeaderValues(r.wd, r.mask, len, b);
    NoCookie(r.wd, r.mask, len);
    assert b[8..12] == h[8..12] && b[16..16 + n] == r.name;
    forall i {:trigger b[i]} | 16 + n <= i < |b|
      ensures b[i] == 0
    {
      assert b[i] == field[i - 16] == Zeros(len - n)[i - 16 - n];
    }
  }

  lemma PaddedIs(n: nat)
    ensures Padded(n) == if n == 0 then 0 else (n + 16) / 16 * 16
  {
  }

  lemma NoCookie(wd: int, mask: nat, len: nat)
    requires -1 <= wd
    ensures Header(wd, mask, len)[8..12] == [0, 0, 0, 0]
  {
    hide Bytes;
    var a, b, c, d := Bytes(if wd < 0 then 0xffff_ffff else wd, 4), Bytes(mask, 4), Bytes(0, 4), Bytes(len, 4);
    assert (a + b + c + d)[8..12] == c;
    ZeroWord();
  }

  lemma ZeroWord()
    ensures Bytes(0, 4) == [0, 0, 0, 0]
  {
    assert Bytes(0, 1) == [0];
    assert Bytes(0, 2) == [0, 0];
    assert Bytes(0, 3) == [0, 0, 0];
  }

  lemma ParseWire(r: Record, rest: seq<byte>)
    requires Good(r)
    ensures Parse(Wire(r) + rest) == [r] + Parse(rest)
  {
    hide Trim, Value, Header, Zeros, Padded;
    var n, len := |r.name|, Padded(|r.name|);
    var h, field, b := Header(r.wd, r.mask, len), r.name + Zeros(len - n), Wire(r) + rest;
    assert b == h + (field + rest);
    assert b[..16] == h;
    HeaderValues(r.wd, r.mask, len, b);
    assert b[16..16 + len] == field;
    TrimZeros(r.name, len - n);
    assert b[16 + len..] == rest;
  }

  /** Whatever whole records were written, the reader finds exactly them. */
  lemma {:induction false} ParseWireAll(rs: seq<Record>, rest: seq<byte>)
    requires AllGood(rs)
    ensures Parse(WireAll(rs) + rest) == rs + Parse(rest)
  {
    hide Parse, Wire, Good;
    if rs == [] {
      assert WireAll(rs) + rest == rest;
    } else {
      var n := |rs| - 1;
      assert Good(rs[n]) && AllGood(rs[..n]);
      ParseWire(rs[n], rest);
      ParseWireAll(rs[..n], Wire(rs[n]) + rest);
      assert WireAll(rs) + rest == WireAll(rs[..n]) + (Wire(rs[n]) + rest);
      assert rs + Parse(rest) == rs[..n] + ([rs[n]] + Parse(rest));
    }
  }
}
