/** Control messages: the Linux and the BSD layout, and the conversion both ways. */
module Cmsg {

  import opened LittleEndian
  import opened HostTables

  // ------------------------------------------------------------------ the layouts

  /** One control message; level and type are 32-bit words. */
  datatype Entry = Entry(level: nat, kind: nat, payload: seq<byte>)

  /** A header is a length word, a level and a type; entries start at multiples of align. */
  datatype Format = Format(lenBytes: nat, align: nat)

  const LINUX := Format(8, 8)

  function Bsd(xnu: bool): (f: Format) {
    Format(4, if xnu then 4 else 8)
  }

  predicate Good(f: Format) {
    (f.lenBytes == 4 || f.lenBytes == 8) && (f.align == 4 || f.align == 8)
  }

  function Head(f: Format): (n: nat) {
    f.lenBytes + 8
  }

  function AlignUp(f: Format, n: nat): (r: nat)
    requires Good(f)
    ensures n <= r < n + f.align
  {
    if f.align == 4 then (n + 3) / 4 * 4 else (n + 7) / 8 * 8
  }

  function Space(f: Format, e: Entry): (n: nat)
    requires Good(f)
  {
    AlignUp(f, Head(f) + |e.payload|)
  }

  function Size(f: Format, es: seq<Entry>): (n: nat)
    requires Good(f)
  {
    if es == [] then 0 else Size(f, es[..|es| - 1]) + Space(f, es[|es| - 1])
  }

  lemma {:induction false} SizeSplit(f: Format, a: seq<Entry>, b: seq<Entry>)
    requires Good(f)
    ensures Size(f, a + b) == Size(f, a) + Size(f, b)
    decreases |b|
  {
    if b == [] {
      assert a + b == a;
    } else {
      SizeSplit(f, a, b[..|b| - 1]);
      assert (a + b)[..|a + b| - 1] == a + b[..|b| - 1];
    }
  }

  /** The length word at the front of a buffer when it describes a whole entry in it. */
  predicate Starts(f: Format, b: seq<byte>)
    requires Good(f)
  {
    Head(f) <= |b| && Head(f) <= Value(b[..f.lenBytes]) <= |b|
  }

  function First(f: Format, b: seq<byte>): (e: Entry)
    requires Good(f) && Starts(f, b)
    ensures |e.payload| == Value(b[..f.lenBytes]) - Head(f)
  {
    Entry(Value(b[f.lenBytes..f.lenBytes + 4]), Value(b[f.lenBytes + 4..f.lenBytes + 8]), b[Head(f)..Value(b[..f.lenBytes])])
  }

  function Rest(f: Format, b: seq<byte>): (r: seq<byte>)
    requires Good(f) && Starts(f, b)
    ensures |r| < |b|
  {
    var step := AlignUp(f, Value(b[..f.lenBytes]));
    if step <= |b| then b[step..] else []
  }

  /** The entries of a control buffer; a header that does not describe an entry ends it. */
  function Parse(f: Format, b: seq<byte>): (es: seq<Entry>)
    requires Good(f)
    decreases |b|
  {
    if Starts(f, b) then [First(f, b)] + Parse(f, Rest(f, b)) else []
  }

  /** The Linux layout: a 64-bit length with its 16-byte header in it, level at 8, type at 12, payload
      from 16, the next entry at a multiple of 8. */
  lemma LinuxLayout(b: seq<byte>)
    ensures Parse(LINUX, b) ==
              if |b| < 16 || Value(b[..8]) < 16 || |b| < Value(b[..8]) then []
              else
                var len := Value(b[..8]);
                var step := (len + 7) / 8 * 8;
                [Entry(Value(b[8..12]), Value(b[12..16]), b[16..len])] + Parse(LINUX, if step <= |b| then b[step..] else [])
    ensures forall e: Entry {:trigger Space(LINUX, e)} :: Space(LINUX, e) == (16 + |e.payload| + 7) / 8 * 8
  {
    hide Value;
  }

  /** The BSD layout: a 32-bit length with its 12-byte header in it, level at 4, type at 8, payload
      from 12, the next entry at a multiple of 4 on XNU and of 8 elsewhere. */
  lemma BsdLayout(xnu: bool, b: seq<byte>)
    ensures Parse(Bsd(xnu), b) ==
              if |b| < 12 || Value(b[..4]) < 12 || |b| < Value(b[..4]) then []
              else
                var len := Value(b[..4]);
                var step := if xnu then (len + 3) / 4 * 4 else (len + 7) / 8 * 8;
                [Entry(Value(b[4..8]), Value(b[8..12]), b[12..len])] + Parse(Bsd(xnu), if step <= |b| then b[step..] else [])
    ensures forall e: Entry {:trigger Space(Bsd(xnu), e)} ::
              Space(Bsd(xnu), e) == if xnu then (12 + |e.payload| + 3) / 4 * 4 else (12 + |e.payload| + 7) / 8 * 8
  {
    hide Value;
  }

  function Header(f: Format, e: Entry): (h: seq<byte>)
    ensures |h| == Head(f)
  {
    Bytes(Head(f) + |e.payload|, f.lenBytes) + Bytes(e.level, 4) + Bytes(e.kind, 4)
  }

  /** c is an entry followed by whatever bytes align the next one. */
  predicate Chunk(f: Format, e: Entry, c: seq<byte>)
    requires Good(f)
  {
    |c| == Space(f, e) && c[..Head(f) + |e.payload|] == Header(f, e) + e.payload
  }

  predicate Words(f: Format, e: Entry) {
    e.level < Limit(4) && e.kind < Limit(4) && Head(f) + |e.payload| < Limit(f.lenBytes)
  }

  lemma HeaderValues(f: Format, e: Entry, b: seq<byte>)
    requires Good(f) && Words(f, e) && Header(f, e) <= b
    ensures Value(b[..f.lenBytes]) == Head(f) + |e.payload|
    ensures Value(b[f.lenBytes..f.lenBytes + 4]) == e.level && Value(b[f.lenBytes + 4..f.lenBytes + 8]) == e.kind
  {
    ValueBytes(Head(f) + |e.payload|, f.lenBytes);
    ValueBytes(e.level, 4);
    ValueBytes(e.kind, 4);
    var h := Header(f, e);
    assert b[..f.lenBytes] == h[..f.lenBytes] == Bytes(Head(f) + |e.payload|, f.lenBytes);
    assert b[f.lenBytes..f.lenBytes + 4] == h[f.lenBytes..f.lenBytes + 4] == Bytes(e.level, 4);
    assert b[f.lenBytes + 4..f.lenBytes + 8] == h[f.lenBytes + 4..f.lenBytes + 8] == Bytes(e.kind, 4);
  }

  /** An entry written in front of a buffer is its first entry. */
  lemma ParseChunk(f: Format, e: Entry, c: seq<byte>, rest: seq<byte>)
    requires Good(f) && Words(f, e) && Chunk(f, e, c)
    ensures Parse(f, c + rest) == [e] + Parse(f, rest)
  {
    hide Value, Header, AlignUp, Words;
    var b := c + rest;
    var len := Head(f) + |e.payload|;
    assert b[..len] == c[..len] == Header(f, e) + e.payload;
    assert Header(f, e) == b[..Head(f)];
    HeaderValues(f, e, b);
    assert b[Head(f)..len] == b[..len][Head(f)..] == e.payload;
    assert b[|c|..] == rest;
  }

  /** b is the chunks of the entries one after another. */
  predicate Stream(f: Format, es: seq<Entry>, b: seq<byte>)
    requires Good(f)
  {
    if es == [] then b == []
    else
      var n := |es| - 1;
      var k := |b| - Space(f, es[n]);
      k >= 0 && Words(f, es[n]) && Stream(f, es[..n], b[..k]) && Chunk(f, es[n], b[k..])
  }

  lemma {:induction false} StreamSize(f: Format, es: seq<Entry>, b: seq<byte>)
    requires Good(f) && Stream(f, es, b)
    ensures |b| == Size(f, es)
    decreases |es|
  {
    hide Words, Chunk, Space;
    if es != [] {
      var n := |es| - 1;
      StreamSize(f, es[..n], b[..|b| - Space(f, es[n])]);
    }
  }

  lemma {:induction false} StreamParses(f: Format, es: seq<Entry>, b: seq<byte>, rest: seq<byte>)
    requires Good(f) && Stream(f, es, b)
    ensures Parse(f, b + rest) == es + Parse(f, rest)
    decreases |es|
  {
    hide Chunk, Words, Parse, Space;
    if es == [] {
      assert b + rest == rest;
    } else {
      var n := |es| - 1;
      var k := |b| - Space(f, es[n]);
      ParseChunk(f, es[n], b[k..], rest);
      StreamParses(f, es[..n], b[..k], b[k..] + rest);
      assert b + rest == b[..k] + (b[k..] + rest);
      assert es + Parse(f, rest) == es[..n] + ([es[n]] + Parse(f, rest));
    }
  }

  lemma StreamGrows(f: Format, es: seq<Entry>, b: seq<byte>, e: Entry, c: seq<byte>)
    requires Good(f) && Stream(f, es, b) && Words(f, e) && Chunk(f, e, c)
    ensures Stream(f, es + [e], b + c)
  {
    hide Words, Header;
    assert (es + [e])[..|es|] == es;
    assert (b + c)[..|b|] == b && (b + c)[|b|..] == c;
  }

  // ------------------------------------------------------------------ translating levels and types

  const LIN_SOL_SOCKET := 1
  const LIN_IPPROTO_IP := 0
  const LIN_IPPROTO_IPV6 := 41

  /** The host's SOL_SOCKET and the tables of IP and IPv6 options. */
  datatype Tables = Tables(solSocket: nat, ip: seq<Opt<nat>>, ipv6: seq<Opt<nat>>)

  predicate GoodTables(t: Tables) {
    && t.solSocket < Limit(4)
    && (forall o: Opt<nat> {:trigger o in t.ip} :: o in t.ip ==> o.lin < Limit(4) && o.host < Limit(4))
    && (forall o: Opt<nat> {:trigger o in t.ipv6} :: o in t.ipv6 ==> o.lin < Limit(4) && o.host < Limit(4))
  }

  function Forth(t: Tables, e: Entry): (r: Entry) {
    if e.level == LIN_SOL_SOCKET then e.(level := t.solSocket)
    else if e.level == LIN_IPPROTO_IP then e.(kind := Lookup(t.ip, e.kind))
    else if e.level == LIN_IPPROTO_IPV6 then e.(kind := Lookup(t.ipv6, e.kind))
    else e
  }

  function Back(t: Tables, e: Entry): (r: Entry) {
    if e.level == t.solSocket then e.(level := LIN_SOL_SOCKET)
    else if e.level == LIN_IPPROTO_IP then e.(kind := LookupBack(t.ip, e.kind))
    else if e.level == LIN_IPPROTO_IPV6 then e.(kind := LookupBack(t.ipv6, e.kind))
    else e
  }

  function AllForth(t: Tables, es: seq<Entry>): (r: seq<Entry>)
    ensures |r| == |es|
  {
    seq(|es|, i requires 0 <= i < |es| => Forth(t, es[i]))
  }

  function AllBack(t: Tables, es: seq<Entry>): (r: seq<Entry>)
    ensures |r| == |es|
  {
    seq(|es|, i requires 0 <= i < |es| => Back(t, es[i]))
  }

  /** host is the value of the first row that lists lin, or lin itself. */
  ghost predicate RowFor(table: seq<Opt<nat>>, lin: nat, host: nat) {
    && (forall i {:trigger table[i]} :: 0 <= i < |table| && table[i].lin == lin && (forall j :: 0 <= j < i ==> table[j].lin != lin) ==>
          host == table[i].host)
    && ((forall i {:trigger table[i]} :: 0 <= i < |table| ==> table[i].lin != lin) ==> host == lin)
  }

  ghost predicate RowBack(table: seq<Opt<nat>>, host: nat, lin: nat) {
    && (forall i {:trigger table[i]} :: 0 <= i < |table| && table[i].host == host && (forall j :: 0 <= j < i ==> table[j].host != host) ==>
          lin == table[i].lin)
    && ((forall i {:trigger table[i]} :: 0 <= i < |table| ==> table[i].host != host) ==> lin == host)
  }

  /** h is the Linux entry e in the host's terms: SOL_SOCKET by the host's number, the types of the
      IP levels by their tables, everything else as it is. */
  ghost predicate HostEntry(t: Tables, e: Entry, h: Entry) {
    && h.payload == e.payload
    && h.level == (if e.level == 1 then t.solSocket else e.level)
    && (if e.level == 0 then RowFor(t.ip, e.kind, h.kind)
        else if e.level == 41 then RowFor(t.ipv6, e.kind, h.kind)
        else h.kind == e.kind)
  }

  /** e is the host's entry h in Linux terms. */
  ghost predicate LinuxEntry(t: Tables, h: Entry, e: Entry) {
    && e.payload == h.payload
    && e.level == (if h.level == t.solSocket then 1 else h.level)
    && (if h.level == t.solSocket then e.kind == h.kind
        else if h.level == 0 then RowBack(t.ip, h.kind, e.kind)
        else if h.level == 41 then RowBack(t.ipv6, h.kind, e.kind)
        else e.kind == h.kind)
  }

  lemma EntryMeans(t: Tables, e: Entry)
    ensures HostEntry(t, e, Forth(t, e)) && LinuxEntry(t, e, Back(t, e))
  {
    LookupFirst(t.ip, e.kind);
    LookupFirst(t.ipv6, e.kind);
    LookupBackFirst(t.ip, e.kind);
    LookupBackFirst(t.ipv6, e.kind);
  }

  lemma AllEntriesMean(t: Tables, es: seq<Entry>)
    ensures forall i {:trigger es[i]} :: 0 <= i < |es| ==> HostEntry(t, es[i], AllForth(t, es)[i]) && LinuxEntry(t, es[i], AllBack(t, es)[i])
  {
    hide HostEntry, LinuxEntry, Forth, Back;
    forall i {:trigger es[i]} | 0 <= i < |es|
      ensures HostEntry(t, es[i], AllForth(t, es)[i]) && LinuxEntry(t, es[i], AllBack(t, es)[i])
    {
      EntryMeans(t, es[i]);
    }
  }

  /** Either way, as the converter is told. */
  function Over(t: Tables, back: bool, e: Entry): (r: Entry) {
    if back then Back(t, e) else Forth(t, e)
  }

  function AllOver(t: Tables, back: bool, es: seq<Entry>): (r: seq<Entry>)
    ensures |r| == |es|
  {
    if back then AllBack(t, es) else AllForth(t, es)
  }

  lemma OverMore(t: Tables, back: bool, es: seq<Entry>, e: Entry)
    ensures AllOver(t, back, es + [e]) == AllOver(t, back, es) + [Over(t, back, e)]
  {
    hide Back, Forth;
  }

  lemma OverPrefix(t: Tables, back: bool, es: seq<Entry>, n: nat)
    requires n <= |es|
    ensures AllOver(t, back, es)[..n] == AllOver(t, back, es[..n])
    ensures n < |es| ==> AllOver(t, back, es)[n] == Over(t, back, es[n])
  {
    hide Back, Forth;
  }

  /** Whether an entry's level and type come back from a trip to the host. */
  predicate Returns(t: Tables, e: Entry) {
    e.level == LIN_SOL_SOCKET ||
    (e.level != t.solSocket
     && (e.level == LIN_IPPROTO_IP ==> Listed(t.ip, e.kind))
     && (e.level == LIN_IPPROTO_IPV6 ==> Listed(t.ipv6, e.kind)))
  }

  /** A list of messages is what it was after the trip exactly when each entry returns: a raw level
      that is the host's SOL_SOCKET does not, nor does a raw type that the table has as a host's. */
  lemma RoundTrip(t: Tables, es: seq<Entry>)
    requires Injective(t.ip) && Injective(t.ipv6)
    ensures AllBack(t, AllForth(t, es)) == es <==> forall e: Entry {:trigger e in es} :: e in es ==> Returns(t, e)
  {
    hide Listed, Lookup, LookupBack, Injective;
    assert (forall e: Entry {:trigger e in es} :: e in es ==> Returns(t, e)) <== forall i {:trigger es[i]} :: 0 <= i < |es| ==> Returns(t, es[i]);
    forall i {:trigger es[i]} | 0 <= i < |es|
      ensures Back(t, Forth(t, es[i])) == es[i] <==> Returns(t, es[i])
    {
      LookupReturns(t.ip, es[i].kind);
      LookupReturns(t.ipv6, es[i].kind);
    }
    var r := AllBack(t, AllForth(t, es));
    assert forall i {:trigger es[i]} {:trigger r[i]} :: 0 <= i < |es| ==> r[i] == Back(t, Forth(t, es[i]));
    assert r == es <==> forall i {:trigger es[i]} :: 0 <= i < |es| ==> Returns(t, es[i]) by {
      assert r == es <==> forall i {:trigger es[i]} {:trigger r[i]} :: 0 <= i < |es| ==> r[i] == es[i];
    }
    assert forall i {:trigger es[i]} :: 0 <= i < |es| ==> es[i] in es;
  }

  /** Host SOL_SOCKET 0xffff, as on the BSDs, and an entry that carries 0xffff as its raw level. */
  lemma RawLevelLost(payload: seq<byte>)
    ensures var t := Tables(0xffff, [], []);
            Back(t, Forth(t, Entry(0xffff, 1, payload))) == Entry(LIN_SOL_SOCKET, 1, payload)
  {
  }

  // ------------------------------------------------------------------ the two converters

  method PutBytes(dst: array<byte>, at: nat, b: seq<byte>)
    requires at + |b| <= dst.Length
    modifies dst
    ensures dst[at..at + |b|] == b && dst[..at] == old(dst[..at])
  {
    ghost var was := dst[..];
    forall i | 0 <= i < |b| { dst[at + i] := b[i]; }
    assert dst[..at] == was[..at];
  }

  /** Writes one entry; the bytes that align the next one are left as they are. */
  method PutEntry(f: Format, e: Entry, dst: array<byte>, at: nat)
    requires Good(f) && at + Space(f, e) <= dst.Length
    modifies dst
    ensures dst[..at] == old(dst[..at]) && Chunk(f, e, dst[at..at + Space(f, e)])
  {
    PutBytes(dst, at, Header(f, e) + e.payload);
    assert dst[at..at + Space(f, e)][..Head(f) + |e.payload|] == dst[at..at + Head(f) + |e.payload|];
  }

  /** What has been converted, and what is left of the source. */
  ghost predicate Converted(f: Format, g: Format, t: Tables, back: bool, all: seq<Entry>, left: seq<byte>, done: seq<Entry>, out: seq<byte>)
    requires Good(f) && Good(g)
  {
    && all == done + Parse(f, left)
    && Stream(g, AllOver(t, back, done), out)
  }

  lemma ConvertedStep(f: Format, g: Format, t: Tables, back: bool, all: seq<Entry>, left: seq<byte>, done: seq<Entry>, out: seq<byte>, c: seq<byte>)
    requires Good(f) && Good(g) && Converted(f, g, t, back, all, left, done, out) && Starts(f, left)
    requires var e := Over(t, back, First(f, left)); Words(g, e) && Chunk(g, e, c)
    ensures Converted(f, g, t, back, all, Rest(f, left), done + [First(f, left)], out + c)
  {
    hide Chunk, Words, Stream, First, Starts, Rest, Over, AllOver, Parse, Good;
    var e := First(f, left);
    ParseStep(f, left);
    OverMore(t, back, done, e);
    StreamGrows(g, AllOver(t, back, done), out, Over(t, back, e), c);
    assert done + ([e] + Parse(f, Rest(f, left))) == done + [e] + Parse(f, Rest(f, left));
  }

  lemma ParseStep(f: Format, b: seq<byte>)
    requires Good(f) && Starts(f, b)
    ensures Parse(f, b) == [First(f, b)] + Parse(f, Rest(f, b))
  {
    hide First, Rest, Starts;
  }

  lemma TranslatedWords(f: Format, g: Format, t: Tables, back: bool, b: seq<byte>, cap: nat)
    requires Good(f) && Good(g) && GoodTables(t) && Starts(f, b) && cap < Limit(4)
    ensures var e := Over(t, back, First(f, b)); Space(g, e) <= cap ==> Words(g, e)
  {
    ValueBelow(b[f.lenBytes..f.lenBytes + 4]);
    ValueBelow(b[f.lenBytes + 4..f.lenBytes + 8]);
    Limits();
    hide Limit, Value;
  }

  function Left(src: seq<byte>, si: nat): (b: seq<byte>) {
    if si <= |src| then src[si..] else []
  }

  lemma LeftRest(f: Format, src: seq<byte>, si: nat)
    requires Good(f) && si <= |src| && Starts(f, src[si..])
    ensures Rest(f, src[si..]) == Left(src, si + AlignUp(f, Value(src[si..][..f.lenBytes])))
  {
  }

  lemma SizeOne(f: Format, e: Entry)
    requires Good(f)
    ensures Size(f, [e]) == Space(f, e)
  {
    assert [e][..0] == [];
  }

  lemma ParseFirst(f: Format, b: seq<byte>)
    requires Good(f) && Starts(f, b)
    ensures Parse(f, b) == [First(f, b)] + Parse(f, Rest(f, b))
  {
  }

  /** Stopping where the next entry does not fit stops before the whole fits. */
  lemma DoesNotFit(f: Format, g: Format, t: Tables, back: bool, all: seq<Entry>, left: seq<byte>, done: seq<Entry>, out: seq<byte>)
    requires Good(f) && Good(g) && Converted(f, g, t, back, all, left, done, out) && Starts(f, left)
    ensures var e := Over(t, back, First(f, left));
            var es := AllOver(t, back, all);
            && |done| < |es| && es[..|done|] == AllOver(t, back, done)
            && |out| == Size(g, es[..|done|]) && |out| + Space(g, e) == Size(g, es[..|done| + 1]) <= Size(g, es)
  {
    hide Stream, First, Starts, Space, Over, AllOver, Parse, Size, AlignUp;
    var e, n := Over(t, back, First(f, left)), |done|;
    var es := AllOver(t, back, all);
    StreamSize(g, AllOver(t, back, done), out);
    ParseFirst(f, left);
    assert all[n] == First(f, left) && all[..n] == done;
    OverPrefix(t, back, all, n);
    assert es[..n + 1] == es[..n] + [e];
    assert es == es[..n + 1] + es[n + 1..];
    SizeSplit(g, es[..n + 1], es[n + 1..]);
    SizeSplit(g, es[..n], [e]);
    SizeOne(g, e);
  }

  lemma AllDone(f: Format, g: Format, t: Tables, back: bool, all: seq<Entry>, left: seq<byte>, done: seq<Entry>, out: seq<byte>)
    requires Good(f) && Good(g) && Converted(f, g, t, back, all, left, done, out)
    ensures var es := AllOver(t, back, done); |out| == Size(g, es) && Parse(g, out) == es
    ensures !Starts(f, left) ==> done == all
    ensures |done| <= |all| && AllOver(t, back, all)[..|done|] == AllOver(t, back, done)
  {
    hide Stream, Parse, AllOver, Starts, Size;
    EndsParse(f, left);
    EndsParse(g, []);
    assert |all| == |done| + |Parse(f, left)| && all[..|done|] == done;
    OverPrefix(t, back, all, |done|);
    var es := AllOver(t, back, done);
    StreamSize(g, es, out);
    StreamParses(g, es, out, []);
    assert out + [] == out && es + Parse(g, []) == es;
  }

  lemma EndsParse(f: Format, b: seq<byte>)
    requires Good(f)
    ensures !Starts(f, b) ==> Parse(f, b) == []
    ensures !Starts(f, [])
  {
  }

  /** One turn of either converter: the translated entry goes behind what is converted. */
  method PutNext(f: Format, g: Format, ghost t: Tables, ghost back: bool, ghost all: seq<Entry>, ghost left: seq<byte>,
                 ghost done: seq<Entry>, e: Entry, dst: array<byte>, di: nat) returns (next: nat)
    requires Good(f) && Good(g) && GoodTables(t) && Starts(f, left) && dst.Length < Limit(4)
    requires e == Over(t, back, First(f, left))
    requires di + Space(g, e) <= dst.Length && Converted(f, g, t, back, all, left, done, dst[..di])
    modifies dst
    ensures next == di + Space(g, e) && Converted(f, g, t, back, all, Rest(f, left), done + [First(f, left)], dst[..next])
  {
    hide Starts, First, Rest, Converted, Words, Chunk, Limit, GoodTables, Space, Back, Forth;
    TranslatedWords(f, g, t, back, left, dst.Length);
    ghost var out := dst[..di];
    PutEntry(g, e, dst, di);
    next := di + Space(g, e);
    ConvertedStep(f, g, t, back, all, left, done, out, dst[di..next]);
    assert dst[..next] == out + dst[di..next];
  }

  /** One entry read field by field. */
  method ReadEntry(f: Format, src: seq<byte>, si: nat, len: nat) returns (e: Entry)
    requires Good(f) && si + Head(f) <= |src| && Starts(f, src[si..]) && len == Value(src[si..si + f.lenBytes])
    ensures e == First(f, src[si..])
  {
    hide Value, Starts, First;
    StartsAt(f, src, si);
    var at := si + f.lenBytes;
    e := Entry(Value(src[at..at + 4]), Value(src[at + 4..at + 8]), src[si + Head(f)..si + len]);
  }

  /** The loop of both converters: entries go over one by one until one does not fit. */
  method Convert(f: Format, g: Format, t: Tables, back: bool, src: seq<byte>, dst: array<byte>) returns (di: nat, fits: bool, ghost k: nat)
    requires Good(f) && Good(g) && GoodTables(t) && dst.Length < Limit(4)
    modifies dst
    ensures var es := AllOver(t, back, Parse(f, src));
            && k <= |es| && di <= dst.Length && di == Size(g, es[..k]) && Parse(g, dst[..di]) == es[..k]
            && (fits ==> k == |es|)
            && (!fits ==> k < |es| && dst.Length < Size(g, es[..k + 1]) <= Size(g, es))
  {
    hide Starts, First, Rest, Converted, Words, Chunk, Limit, GoodTables, Parse, Size, Space, AllOver, AlignUp, Good;
    var si: nat := 0;
    di := 0;
    ghost var all, done := Parse(f, src), [];
    NothingConverted(f, g, t, back, src);
    assert src[0..] == src && dst[..0] == [];
    while si + Head(f) <= |src|
      invariant di <= dst.Length && Converted(f, g, t, back, all, Left(src, si), done, dst[..di])
    {
      StartsAt(f, src, si);
      var len := Value(src[si..si + f.lenBytes]);
      if len < Head(f) || len > |src| - si { break; }
      var e := ReadEntry(f, src, si, len);
      var r := Over(t, back, e);
      DoesNotFit(f, g, t, back, all, src[si..], done, dst[..di]);
      if Space(g, r) > dst.Length - di {
        AllDone(f, g, t, back, all, Left(src, si), done, dst[..di]);
        return di, false, |done|;
      }
      di := PutNext(f, g, t, back, all, src[si..], done, r, dst, di);
      LeftRest(f, src, si);
      done := done + [e];
      si := si + AlignUp(f, len);
    }
    AllDone(f, g, t, back, all, Left(src, si), done, dst[..di]);
    ShortEnds(f, src, si);
    return di, true, |done|;
  }

  /** Linux layout to BSD layout: -1 exactly when the whole does not fit, else a buffer that holds
      the same messages with levels and types translated. */
  method CmsgsToBsd(t: Tables, xnu: bool, src: seq<byte>, dst: array<byte>) returns (r: int)
    requires GoodTables(t) && dst.Length < Limit(4)
    modifies dst
    ensures var es := AllForth(t, Parse(LINUX, src));
            var g := Bsd(xnu);
            && (r == -1 <==> Size(g, es) > dst.Length)
            && (r != -1 ==> 0 <= r <= dst.Length && r == Size(g, es) && Parse(g, dst[..r]) == es)
    ensures r >= 0 ==>
              var es, hs := Parse(LINUX, src), Parse(Bsd(xnu), dst[..r]);
              |hs| == |es| && forall i {:trigger es[i]} :: 0 <= i < |es| ==> HostEntry(t, es[i], hs[i])
  {
    hide Parse, Size, AllForth, HostEntry, LinuxEntry;
    AllEntriesMean(t, Parse(LINUX, src));
    var di, fits, k := Convert(LINUX, Bsd(xnu), t, false, src, dst);
    ghost var es := AllForth(t, Parse(LINUX, src));
    assert es[..|es|] == es;
    r := if fits then di else -1;
  }

  /** BSD layout to Linux layout: as many leading messages as fit, cut at an entry boundary. */
  method CmsgsToLinuxLayout(t: Tables, xnu: bool, src: seq<byte>, dst: array<byte>) returns (r: nat, ghost k: nat)
    requires GoodTables(t) && dst.Length < Limit(4)
    modifies dst
    ensures var es := AllBack(t, Parse(Bsd(xnu), src));
            && k <= |es| && r <= dst.Length && r == Size(LINUX, es[..k]) && Parse(LINUX, dst[..r]) == es[..k]
            && (k < |es| ==> Size(LINUX, es[..k + 1]) > dst.Length)
    ensures var hs, es := Parse(Bsd(xnu), src), Parse(LINUX, dst[..r]);
            |es| == k <= |hs| && forall i {:trigger hs[i]} :: 0 <= i < k ==> LinuxEntry(t, hs[i], es[i])
  {
    hide Parse, Size, AllBack, HostEntry, LinuxEntry;
    AllEntriesMean(t, Parse(Bsd(xnu), src));
    var fits;
    r, fits, k := Convert(Bsd(xnu), LINUX, t, true, src, dst);
  }

  lemma NothingConverted(f: Format, g: Format, t: Tables, back: bool, src: seq<byte>)
    requires Good(f) && Good(g)
    ensures Converted(f, g, t, back, Parse(f, src), src, [], [])
  {
    assert AllBack(t, []) == [] && AllForth(t, []) == [];
    assert [] + Parse(f, src) == Parse(f, src);
  }

  lemma ShortEnds(f: Format, src: seq<byte>, si: nat)
    requires Good(f)
    ensures si + Head(f) > |src| ==> !Starts(f, Left(src, si))
  {
  }

  /** The first entry at si, read field by field. */
  lemma StartsAt(f: Format, src: seq<byte>, si: nat)
    requires Good(f) && si + Head(f) <= |src|
    ensures Left(src, si) == src[si..] && src[si..][..f.lenBytes] == src[si..si + f.lenBytes]
    ensures Starts(f, src[si..]) <==> Head(f) <= Value(src[si..si + f.lenBytes]) <= |src| - si
    ensures Starts(f, src[si..]) ==>
              First(f, src[si..]) == Entry(Value(src[si + f.lenBytes..si + f.lenBytes + 4]), Value(src[si + f.lenBytes + 4..si + f.lenBytes + 8]),
                                           src[si + Head(f)..si + Value(src[si..si + f.lenBytes])])
  {
    hide Value;
    var b := src[si..];
    assert b[..f.lenBytes] == src[si..si + f.lenBytes];
    assert b[f.lenBytes..f.lenBytes + 4] == src[si + f.lenBytes..si + f.lenBytes + 4];
    assert b[f.lenBytes + 4..f.lenBytes + 8] == src[si + f.lenBytes + 4..si + f.lenBytes + 8];
    if Starts(f, b) {
      var len := Value(b[..f.lenBytes]);
      assert b[Head(f)..len] == src[si + Head(f)..si + len];
    }
  }

  /** There and back with room for everything, on either alignment: the same messages come out
      exactly when each of them returns. */
  method ThereAndBack(t: Tables, xnu: bool, src: seq<byte>, mid: array<byte>, out: array<byte>) returns (r: nat)
    requires GoodTables(t) && Injective(t.ip) && Injective(t.ipv6)
    requires mid != out && mid.Length < Limit(4) && out.Length < Limit(4)
    requires Size(Bsd(xnu), AllForth(t, Parse(LINUX, src))) <= mid.Length
    requires Size(LINUX, AllBack(t, AllForth(t, Parse(LINUX, src)))) <= out.Length
    modifies mid, out
    ensures r <= out.Length
    ensures Parse(LINUX, out[..r]) == Parse(LINUX, src) <==> forall e: Entry {:trigger e in Parse(LINUX, src)} :: e in Parse(LINUX, src) ==> Returns(t, e)
  {
    hide Parse, Size, AllForth, AllBack, Returns;
    var n := CmsgsToBsd(t, xnu, src, mid);
    ghost var k;
    r, k := CmsgsToLinuxLayout(t, xnu, mid[..n], out);
    ghost var es := AllBack(t, AllForth(t, Parse(LINUX, src)));
    PrefixFits(LINUX, es, k);
    assert es[..|es|] == es;
    RoundTrip(t, Parse(LINUX, src));
  }

  lemma PrefixFits(f: Format, es: seq<Entry>, k: nat)
    requires Good(f)
    ensures k < |es| ==> Size(f, es[..k + 1]) <= Size(f, es)
  {
    hide Size;
    if k < |es| {
      SizeSplit(f, es[..k + 1], es[k + 1..]);
      assert es == es[..k + 1] + es[k + 1..];
    }
  }
}
