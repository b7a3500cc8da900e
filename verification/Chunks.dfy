/** Boundary-tagged chunks of one segment: the bits and feet in memory, and the tiling they stand for. */
module Chunks {

  /** A chunk head: the size, whether the chunk before is in use, whether this one is. */
  datatype Head = Head(size: int, pinuse: bool, cinuse: bool)

  /** A chunk as the tiling sees it. */
  datatype Tile = Tile(size: int, used: bool)

  type Tiles = map<int, Tile>
  type Heads = map<int, Head>
  type Feet = map<int, int>

  ghost predicate Closed(end: int, t: Tiles, a: int)
    requires a in t
  {
    a + t[a].size < end ==> a + t[a].size in t
  }

  ghost predicate Tiling(base: int, end: int, t: Tiles) {
    && base in t
    && (forall a {:trigger t[a]} | a in t :: base <= a && t[a].size > 0 && a + t[a].size <= end)
    && (forall a {:trigger Closed(end, t, a)} | a in t :: Closed(end, t, a))
    && (forall a, b {:trigger t[a], t[b]} | a in t && b in t && a < b :: a + t[a].size <= b)
  }

  ghost predicate Coalesced(t: Tiles) {
    forall a, b {:trigger t[a], t[b]} | a in t && b in t && !t[a].used && a + t[a].size == b :: t[b].used
  }

  ghost predicate TagAt(end: int, top: int, t: Tiles, head: Heads, foot: Feet, a: int)
    requires a in t
  {
    && a in head
    && head[a].size == t[a].size
    && head[a].cinuse == t[a].used
    && (a + t[a].size < end ==> a + t[a].size in head && head[a + t[a].size].pinuse == t[a].used)
    && (!t[a].used && a != top ==> a + t[a].size in foot && foot[a + t[a].size] == t[a].size)
  }

  ghost predicate Tagged(base: int, end: int, top: int, t: Tiles, head: Heads, foot: Feet) {
    && base in head && head[base].pinuse
    && (forall a {:trigger TagAt(end, top, t, head, foot, a)} | a in t :: TagAt(end, top, t, head, foot, a))
  }

  ghost function Fuse(t: Tiles, lo: int, hi: int, used: bool): Tiles {
    map a | a in t && !(lo < a < hi) :: if a == lo then Tile(hi - lo, used) else t[a]
  }

  lemma FuseTiling(base: int, end: int, t: Tiles, lo: int, hi: int, used: bool)
    requires Tiling(base, end, t)
    requires lo in t && lo < hi && (hi in t || hi == end)
    ensures Tiling(base, end, Fuse(t, lo, hi, used))
  {
    var u := Fuse(t, lo, hi, used);
    forall a {:trigger Closed(end, u, a)} | a in u
      ensures Closed(end, u, a)
    {
      assert Closed(end, t, a);
    }
  }

  /** What is written when the chunks from lo to hi become one. */
  ghost predicate FuseWrites(end: int, top: int, lo: int, hi: int, used: bool, head: Heads, foot: Feet, head': Heads, foot': Feet) {
    && lo in head && lo in head' && head'[lo] == Head(hi - lo, head[lo].pinuse, used)
    && (hi < end ==> hi in head && hi in head' && head'[hi] == head[hi].(pinuse := used))
    && (forall x {:trigger head'[x]} {:trigger head[x]} | x in head && x != lo && x != hi :: x in head' && head'[x] == head[x])
    && (!used && !(lo <= top < hi) ==> hi in foot' && foot'[hi] == hi - lo)
    && (forall x {:trigger foot'[x]} {:trigger foot[x]} | x in foot && x != hi :: x in foot' && foot'[x] == foot[x])
  }

  lemma FuseTagged(base: int, end: int, top: int, t: Tiles, lo: int, hi: int, used: bool,
                   head: Heads, foot: Feet, head': Heads, foot': Feet)
    requires Tiling(base, end, t) && Tagged(base, end, top, t, head, foot)
    requires lo in t && lo < hi && (hi in t || hi == end)
    requires FuseWrites(end, top, lo, hi, used, head, foot, head', foot')
    ensures Tagged(base, end, if lo <= top < hi then lo else top, Fuse(t, lo, hi, used), head', foot')
  {
    var u := Fuse(t, lo, hi, used);
    var top' := if lo <= top < hi then lo else top;
    assert TagAt(end, top, t, head, foot, lo);
    forall a {:trigger TagAt(end, top', u, head', foot', a)} | a in u
      ensures TagAt(end, top', u, head', foot', a)
    {
      if a != lo {
        assert TagAt(end, top, t, head, foot, a);
        assert t[a].size > 0 && t[lo].size > 0;
        FuseTagAt(end, top, t, lo, hi, used, head, foot, head', foot', a);
      }
    }
  }

  /** The tags of a chunk outside the stretch. */
  lemma FuseTagAt(end: int, top: int, t: Tiles, lo: int, hi: int, used: bool, head: Heads, foot: Feet, head': Heads, foot': Feet, a: int)
    requires FuseWrites(end, top, lo, hi, used, head, foot, head', foot')
    requires a in t && TagAt(end, top, t, head, foot, a) && 0 < t[a].size && (a + t[a].size <= lo || hi <= a) && lo < hi && a + t[a].size <= end
    requires a in Fuse(t, lo, hi, used) && Fuse(t, lo, hi, used)[a] == t[a]
    ensures TagAt(end, if lo <= top < hi then lo else top, Fuse(t, lo, hi, used), head', foot', a)
  {
  }

  lemma FuseCoalesced(base: int, end: int, t: Tiles, lo: int, hi: int, used: bool)
    requires Tiling(base, end, t) && lo in t && lo < hi && (hi in t || hi == end)
    requires Coalesced(t)
    requires used || ((hi in t ==> t[hi].used) && forall a {:trigger t[a]} | a in t && a + t[a].size == lo :: t[a].used)
    ensures Coalesced(Fuse(t, lo, hi, used))
  {
  }

  ghost function Cut(t: Tiles, a: int, k: int, used: bool): Tiles
    requires a in t
  {
    t[a := Tile(k, true)][a + k := Tile(t[a].size - k, used)]
  }

  lemma CutTiling(base: int, end: int, t: Tiles, a: int, k: int, used: bool)
    requires Tiling(base, end, t)
    requires a in t && 0 < k < t[a].size
    ensures a + k !in t
    ensures Tiling(base, end, Cut(t, a, k, used))
  {
    CutApart(base, end, t, a, k, used);
    CutClosed(base, end, t, a, k, used);
    hide Cut, Closed;
  }

  lemma CutClosed(base: int, end: int, t: Tiles, a: int, k: int, used: bool)
    requires Tiling(base, end, t)
    requires a in t && 0 < k < t[a].size
    ensures var u := Cut(t, a, k, used);
            && base in u
            && (forall x {:trigger u[x]} | x in u :: base <= x && u[x].size > 0 && x + u[x].size <= end)
            && (forall x {:trigger Closed(end, u, x)} | x in u :: Closed(end, u, x))
  {
    var u := Cut(t, a, k, used);
    assert base <= a && a + t[a].size <= end;
    forall x {:trigger Closed(end, u, x)} | x in u
      ensures Closed(end, u, x)
    {
      assert Closed(end, t, if x == a + k then a else x);
    }
  }

  lemma CutApart(base: int, end: int, t: Tiles, a: int, k: int, used: bool)
    requires Tiling(base, end, t)
    requires a in t && 0 < k < t[a].size
    ensures a + k !in t
    ensures forall x, y {:trigger Cut(t, a, k, used)[x], Cut(t, a, k, used)[y]} |
              x in Cut(t, a, k, used) && y in Cut(t, a, k, used) && x < y :: x + Cut(t, a, k, used)[x].size <= y
  {
    assert forall x {:trigger t[x]} | x in t :: x <= a || a + t[a].size <= x;
  }

  /** What is written when a chunk is cut after its first k bytes. */
  ghost predicate CutWrites(end: int, top: int, a: int, hi: int, k: int, used: bool, head: Heads, foot: Feet, head': Heads, foot': Feet) {
    && a in head && a in head' && head'[a] == Head(k, head[a].pinuse, true)
    && a + k in head' && head'[a + k] == Head(hi - a - k, true, used)
    && (hi < end ==> hi in head && hi in head' && head'[hi] == head[hi].(pinuse := used))
    && (!used && top != a ==> hi in foot' && foot'[hi] == hi - a - k)
    && (forall x {:trigger head'[x]} {:trigger head[x]} | x in head && x !in {a, a + k, hi} :: x in head' && head'[x] == head[x])
    && (forall x {:trigger foot'[x]} {:trigger foot[x]} | x in foot && x != hi :: x in foot' && foot'[x] == foot[x])
  }

  lemma CutTagged(base: int, end: int, top: int, t: Tiles, a: int, k: int, used: bool,
                  head: Heads, foot: Feet, head': Heads, foot': Feet)
    requires Tiling(base, end, t) && Tagged(base, end, top, t, head, foot)
    requires a in t && 0 < k < t[a].size
    requires CutWrites(end, top, a, a + t[a].size, k, used, head, foot, head', foot')
    ensures Tagged(base, end, if a == top then a + k else top, Cut(t, a, k, used), head', foot')
  {
    var u := Cut(t, a, k, used);
    var top' := if a == top then a + k else top;
    assert TagAt(end, top, t, head, foot, a);
    forall x {:trigger TagAt(end, top', u, head', foot', x)} | x in u
      ensures TagAt(end, top', u, head', foot', x)
    {
      if x != a && x != a + k {
        assert TagAt(end, top, t, head, foot, x);
        assert t[x].size > 0 && t[a].size > 0;
        CutTagAt(end, top, t, a, k, used, head, foot, head', foot', x);
      }
    }
  }

  /** The tags of a chunk other than the one cut. */
  lemma CutTagAt(end: int, top: int, t: Tiles, a: int, k: int, used: bool, head: Heads, foot: Feet, head': Heads, foot': Feet, x: int)
    requires a in t && 0 < k < t[a].size && CutWrites(end, top, a, a + t[a].size, k, used, head, foot, head', foot')
    requires x in t && TagAt(end, top, t, head, foot, x) && 0 < t[x].size && (x + t[x].size <= a || a + t[a].size <= x) && x + t[x].size <= end
    ensures TagAt(end, if a == top then a + k else top, Cut(t, a, k, used), head', foot', x)
  {
  }

  lemma CutCoalesced(base: int, end: int, t: Tiles, a: int, k: int, used: bool)
    requires Tiling(base, end, t) && Coalesced(t)
    requires a in t && 0 < k < t[a].size
    requires !used ==> forall b {:trigger t[b]} | b in t && a + t[a].size == b :: t[b].used
    ensures Coalesced(Cut(t, a, k, used))
  {
  }

  ghost predicate Filed(min: int, end: int, t: Tiles, top: int, topsize: int, dv: int, dvsize: int,
                        binned: map<int, int>, loose: set<int>) {
    && top in t && t[top] == Tile(topsize, false) && top + topsize == end
    && (if dv == 0 then dvsize == 0 else dv in t && t[dv] == Tile(dvsize, false) && dv != top && dv !in loose)
    && (forall a {:trigger binned[a]} {:trigger a in binned} | a in binned ::
          a in t && t[a] == Tile(binned[a], false) && a != dv && a != top && a !in loose)
    && (forall a {:trigger t[a]} | a in t && a != top ::
          t[a].size >= min && (!t[a].used ==> a == dv || a in binned || a in loose))
  }

  /** Something ends where a chunk other than the first begins. */
  lemma {:induction false} Predecessor(base: int, end: int, t: Tiles, b: int, x: int) returns (a: int)
    requires Tiling(base, end, t)
    requires b in t && x in t && x < b
    ensures a in t && a + t[a].size == b
    decreases b - x
  {
    if x + t[x].size == b {
      a := x;
    } else {
      assert Closed(end, t, x);
      a := Predecessor(base, end, t, b, x + t[x].size);
    }
  }

  datatype State = State(top: int, topsize: int, dv: int, dvsize: int, head: Heads, foot: Feet, binned: map<int, int>)

  /** The least chunk size and the bounds of the segment. */
  datatype Segment = Segment(min: int, base: int, end: int)

  ghost predicate FiledIn(g: Segment, s: State, t: Tiles, loose: set<int>) {
    Filed(g.min, g.end, t, s.top, s.topsize, s.dv, s.dvsize, s.binned, loose)
  }

  ghost predicate Ok(g: Segment, s: State, t: Tiles) {
    && 0 < g.base && 0 < g.min
    && Tiling(g.base, g.end, t)
    && Coalesced(t)
    && Tagged(g.base, g.end, s.top, t, s.head, s.foot)
    && FiledIn(g, s, t, {})
  }

  /** The tiles and their tags after one chunk was cut in two. */
  lemma CutTiles(g: Segment, s: State, t: Tiles, a: int, k: int, used: bool, s': State)
    requires Ok(g, s, t) && a in t && 0 < k < t[a].size
    requires CutWrites(g.end, s.top, a, a + t[a].size, k, used, s.head, s.foot, s'.head, s'.foot)
    requires used || a == s.top || (a + t[a].size in t && t[a + t[a].size].used)
    requires s'.top == if a == s.top then a + k else s.top
    ensures a + k !in t
    ensures var t' := Cut(t, a, k, used); Tiling(g.base, g.end, t') && Coalesced(t') && Tagged(g.base, g.end, s'.top, t', s'.head, s'.foot)
  {
    CutEnd(g, s, t, a, used);
    hide Tiling, Coalesced, Tagged, FiledIn, CutWrites, Cut;
    CutTiling(g.base, g.end, t, a, k, used);
    CutCoalesced(g.base, g.end, t, a, k, used);
    CutTagged(g.base, g.end, s.top, t, a, k, used, s.head, s.foot, s'.head, s'.foot);
  }

  /** No free chunk follows the free part of a chunk cut in two. */
  lemma CutEnd(g: Segment, s: State, t: Tiles, a: int, used: bool)
    requires Ok(g, s, t) && a in t
    requires used || a == s.top || (a + t[a].size in t && t[a + t[a].size].used)
    ensures !used ==> forall b {:trigger t[b]} | b in t && a + t[a].size == b :: t[b].used
  {
    hide Coalesced, Tagged;
    if a == s.top { EndIsOutside(g, s, t); }
  }

  lemma EndIsOutside(g: Segment, s: State, t: Tiles)
    requires Ok(g, s, t)
    ensures g.end !in t
  {
    hide Coalesced, Tagged, FiledIn;
    assert forall a {:trigger a in t} | a in t :: t[a].size > 0 && a + t[a].size <= g.end;
  }

  lemma FreeNeedsUsed(g: Segment, s: State, t: Tiles, q: int)
    requires Ok(g, s, t) && q in t && !t[q].used
    ensures q in s.head && s.head[q] == Head(t[q].size, true, false)
  {
    assert TagAt(g.end, s.top, t, s.head, s.foot, q);
    if q != g.base {
      var r := Predecessor(g.base, g.end, t, q, g.base);
      assert TagAt(g.end, s.top, t, s.head, s.foot, r);
    }
  }

  ghost function Back(s: State, p: int): (lo: int)
    requires p in s.head
  {
    if !s.head[p].pinuse && p in s.foot then p - s.foot[p] else p
  }

  ghost function Next(s: State, p: int): (next: int)
    requires p in s.head
  {
    p + s.head[p].size
  }

  ghost function Ahead(s: State, p: int): (hi: int)
    requires p in s.head
  {
    var next := Next(s, p);
    if next in s.head && !s.head[next].cinuse then next + s.head[next].size else next
  }

  lemma LastIsTop(g: Segment, s: State, t: Tiles, p: int)
    requires Ok(g, s, t) && p in t && p != s.top
    ensures p + t[p].size in t && p + t[p].size <= s.top < g.end
  {
    assert t[s.top].size > 0;
    assert Closed(g.end, t, p);
  }

  /** What the chunk after a chunk in use looks like, from the bits. */
  lemma After(g: Segment, s: State, t: Tiles, p: int)
    requires Ok(g, s, t) && p in t && t[p].used
    ensures p < s.top && p != s.dv && p in s.head && s.head[p] == Head(t[p].size, s.head[p].pinuse, true) && t[p].size > 0
    ensures var next := Next(s, p);
            && next in t && next in s.head && s.head[next] == Head(t[next].size, true, t[next].used) && t[next].size > 0
            && Ahead(s, p) == (if t[next].used then next else next + t[next].size)
            && next <= s.top && (next == s.top ==> !t[next].used)
  {
    assert t[s.top].size > 0;
    LastIsTop(g, s, t, p);
    assert TagAt(g.end, s.top, t, s.head, s.foot, p);
    assert TagAt(g.end, s.top, t, s.head, s.foot, p + t[p].size);
  }

  /** What follows the free chunk after it. */
  lemma Beyond(g: Segment, s: State, t: Tiles, p: int)
    requires Ok(g, s, t) && p in t && t[p].used
    ensures p in s.head && Next(s, p) in t
    ensures var hi := Ahead(s, p);
            if Next(s, p) == s.top then hi == g.end && hi !in t else
            hi in t && hi <= s.top && t[hi].used && hi in s.head && s.head[hi].pinuse == t[Next(s, p)].used && hi < g.end
  {
    After(g, s, t, p);
    var next := Next(s, p);
    if next != s.top {
      LastIsTop(g, s, t, next);
      assert TagAt(g.end, s.top, t, s.head, s.foot, next);
      if t[next].used { assert t[next].size > 0; }
    }
  }

  /** What the chunk before it looks like, from its previous-in-use bit and the foot before it. */
  lemma Before(g: Segment, s: State, t: Tiles, p: int)
    requires Ok(g, s, t) && p in t && t[p].used
    ensures p in s.head
    ensures var lo := Back(s, p);
            && lo in t && lo in s.head && s.head[lo].pinuse && 0 < lo <= p
            && (lo != p ==> p in s.foot && s.foot[p] == p - lo && t[lo] == Tile(p - lo, false) && !s.head[p].pinuse)
            && (lo == p ==> s.head[p].pinuse)
            && (forall a {:trigger t[a]} | a in t && a + t[a].size == lo :: t[a].used)
  {
    After(g, s, t, p);
    if p != g.base {
      var q := Predecessor(g.base, g.end, t, p, g.base);
      assert TagAt(g.end, s.top, t, s.head, s.foot, q);
      if !t[q].used {
        FreeNeedsUsed(g, s, t, q);
      }
    }
  }

  /** Freed(s, p) merges the bytes from Back to Ahead and files them where the pieces belong. */
  ghost function Freed(s: State, p: int): (s': State)
    requires p in s.head && Back(s, p) in s.head
  {
    var lo, next, hi := Back(s, p), Next(s, p), Ahead(s, p);
    var unbinned := s.binned - {lo, next};
    if next == s.top then
      s.(top := lo, topsize := hi - lo,
         dv := if s.dv == lo then 0 else s.dv, dvsize := if s.dv == lo then 0 else s.dvsize,
         head := s.head[lo := Head(hi - lo, true, false)], binned := unbinned)
    else
      var marked := if hi == next && next in s.head then s.head[next := s.head[next].(pinuse := false)] else s.head;
      var s1 := s.(head := marked[lo := Head(hi - lo, true, false)], foot := s.foot[hi := hi - lo]);
      if s.dv != 0 && lo <= s.dv < hi then s1.(dv := lo, dvsize := hi - lo, binned := unbinned)
      else s1.(binned := unbinned[lo := hi - lo])
  }

  /** lo and hi bound the free chunk that giving chunk back makes: the chunk with the free chunks on
      both sides. */
  ghost predicate Spans(t: Tiles, chunk: int, lo: int, hi: int) {
    && lo in t && chunk in t && lo <= chunk < hi
    && (lo == chunk || (!t[lo].used && lo + t[lo].size == chunk))
    && (lo == chunk ==> forall a {:trigger t[a]} | a in t && a + t[a].size == chunk :: t[a].used)
    && (var next := chunk + t[chunk].size; next in t && hi == if t[next].used then next else next + t[next].size)
  }

  /** The bytes from lo to hi become one free chunk: top at the end of the segment, else the victim
      when the victim is part of it, else a chunk in a bin; nothing outside is filed anew. */
  ghost predicate Refiled(end: int, s: State, s': State, lo: int, hi: int) {
    var absorbed := s.dv != 0 && lo <= s.dv < hi;
    && s'.top == (if hi == end then lo else s.top) && s'.topsize == (if hi == end then hi - lo else s.topsize)
    && s'.dv == (if !absorbed then s.dv else if hi == end then 0 else lo)
    && s'.dvsize == (if !absorbed then s.dvsize else if hi == end then 0 else hi - lo)
    && (forall a {:trigger a in s'.binned} {:trigger a in s.binned} :: !(lo <= a < hi) ==>
          (a in s'.binned <==> a in s.binned) && (a in s.binned ==> s'.binned[a] == s.binned[a]))
    && (forall a {:trigger a in s'.binned} :: lo <= a < hi && a in s'.binned ==> a == lo)
    && (lo in s'.binned <==> hi != end && !absorbed)
    && (lo in s'.binned ==> s'.binned[lo] == hi - lo)
  }

  lemma FreedRefiled(end: int, s: State, p: int)
    requires p in s.head && Back(s, p) in s.head && Back(s, p) <= p < Next(s, p) <= Ahead(s, p) && 0 < Back(s, p)
    requires Next(s, p) == s.top <==> Ahead(s, p) == end
    requires forall a {:trigger a in s.binned} | a in s.binned :: Back(s, p) <= a < Ahead(s, p) ==> a == Back(s, p) || a == Next(s, p)
    requires Next(s, p) == s.top && Back(s, p) <= s.dv < Ahead(s, p) ==> s.dv == Back(s, p)
    requires (s.dv == 0 ==> s.dvsize == 0) && (s.dv != 0 ==> s.dv !in s.binned)
    requires Next(s, p) == Ahead(s, p) ==> Next(s, p) !in s.binned
    ensures Refiled(end, s, Freed(s, p), Back(s, p), Ahead(s, p))
  {
    hide Back, Next, Ahead;
  }

  lemma FreedSpans(g: Segment, s: State, t: Tiles, p: int)
    requires Ok(g, s, t) && p in t && t[p].used
    ensures p in s.head && Spans(t, p, Back(s, p), Ahead(s, p))
  {
    After(g, s, t, p);
    Beyond(g, s, t, p);
    Before(g, s, t, p);
    hide Ok, Tiling, Coalesced, Tagged, FiledIn;
  }

  lemma FreedMeans(g: Segment, s: State, t: Tiles, p: int)
    requires Ok(g, s, t) && p in t && t[p].used
    ensures p in s.head && Back(s, p) in s.head
    ensures Spans(t, p, Back(s, p), Ahead(s, p)) && Refiled(g.end, s, Freed(s, p), Back(s, p), Ahead(s, p))
  {
    FreedSpans(g, s, t, p);
    After(g, s, t, p);
    Beyond(g, s, t, p);
    Before(g, s, t, p);
    Between(g, s, t, p);
    Unlink(g, s, t, {});
    DvNotTop(g, s, t);
    NoVictim(g, s, t);
    hide Ok, Tiling, Coalesced, Tagged, FiledIn, Freed, Spans, Refiled;
    FreedRefiled(g.end, s, p);
  }

  lemma NoVictim(g: Segment, s: State, t: Tiles)
    requires Ok(g, s, t)
    ensures s.dv == 0 ==> s.dvsize == 0
  {
  }

  lemma FreedTiles(g: Segment, s: State, t: Tiles, p: int)
    requires Ok(g, s, t) && p in t && t[p].used
    ensures p in s.head && Back(s, p) in s.head && Back(s, p) in t
    ensures var t' := Fuse(t, Back(s, p), Ahead(s, p), false);
            && Tiling(g.base, g.end, t')
            && Coalesced(t')
            && Tagged(g.base, g.end, Freed(s, p).top, t', Freed(s, p).head, Freed(s, p).foot)
  {
    hide Tiling, Coalesced, Tagged, Filed;
    After(g, s, t, p);
    Beyond(g, s, t, p);
    Before(g, s, t, p);
    var lo, hi, s' := Back(s, p), Ahead(s, p), Freed(s, p);
    FuseTiling(g.base, g.end, t, lo, hi, false);
    FuseCoalesced(g.base, g.end, t, lo, hi, false);
    FuseTagged(g.base, g.end, s.top, t, lo, hi, false, s.head, s.foot, s'.head, s'.foot);
  }

  lemma FuseFiled(min: int, base: int, end: int, t: Tiles, top: int, topsize: int, dv: int, dvsize: int, binned: map<int, int>,
                  loose: set<int>, lo: int, hi: int, top': int, topsize': int, dv': int, dvsize': int, loose': set<int>)
    requires Tiling(base, end, t) && Filed(min, end, t, top, topsize, dv, dvsize, binned, loose)
    requires 0 < base && 0 < min && lo in t && lo + min <= hi && (hi in t || hi == end)
    requires forall a {:trigger a in binned} | a in binned :: !(lo <= a < hi)
    requires forall a {:trigger a in loose} | a in loose :: lo <= a < hi
    requires if lo <= top < hi then top' == lo && topsize' == hi - lo && hi == end else top' == top && topsize' == topsize
    requires if lo <= dv < hi
             then if top' == lo then dv' == 0 && dvsize' == 0 else dv' == lo && dvsize' == hi - lo
             else dv' == dv && dvsize' == dvsize
    requires loose' == if lo == top' || lo == dv' then {} else {lo}
    ensures Filed(min, end, Fuse(t, lo, hi, false), top', topsize', dv', dvsize', binned, loose')
  {
    var u := Fuse(t, lo, hi, false);
    assert forall x {:trigger u[x]} {:trigger x in u} | x in u && x != lo :: x in t && u[x] == t[x] && !(lo <= x < hi);
    assert forall x {:trigger t[x]} {:trigger x in t} | x in t && !(lo <= x < hi) :: x in u && u[x] == t[x];
    assert top' in u && u[top'] == Tile(topsize', false);
  }

  lemma Between(g: Segment, s: State, t: Tiles, p: int)
    requires Ok(g, s, t) && p in t && t[p].used
    ensures p in s.head && p in t && Next(s, p) in t
    ensures forall a {:trigger a in t} | a in t && Back(s, p) <= a < Ahead(s, p) :: a in {Back(s, p), p, Next(s, p)}
  {
    hide Coalesced, Tagged, FiledIn;
    After(g, s, t, p);
    Before(g, s, t, p);
    var lo, next, hi := Back(s, p), Next(s, p), Ahead(s, p);
    forall a {:trigger a in t} | a in t && lo <= a < hi
      ensures a in {lo, p, next}
    {
      assert t[a].size > 0 && t[lo].size > 0;
    }
  }

  lemma Unlink(g: Segment, s: State, t: Tiles, d: set<int>)
    requires FiledIn(g, s, t, {})
    ensures Filed(g.min, g.end, t, s.top, s.topsize, s.dv, s.dvsize, s.binned - d, set x | x in d && x in s.binned)
    ensures forall a {:trigger a in s.binned} | a in s.binned :: a in t && !t[a].used
    ensures s.dv != 0 ==> s.dv in t && !t[s.dv].used && s.dv != s.top
  {
  }

  lemma Insert(min: int, end: int, t: Tiles, top: int, topsize: int, dv: int, dvsize: int,
               binned: map<int, int>, p: int)
    requires Filed(min, end, t, top, topsize, dv, dvsize, binned, {p})
    requires p in t && !t[p].used && p != dv && p != top
    ensures Filed(min, end, t, top, topsize, dv, dvsize, binned[p := t[p].size], {})
  {
  }

  lemma FreedFiled(g: Segment, s: State, t: Tiles, p: int)
    requires Ok(g, s, t) && p in t && t[p].used
    ensures p in s.head && Back(s, p) in s.head && Back(s, p) in t
    ensures FiledIn(g, Freed(s, p), Fuse(t, Back(s, p), Ahead(s, p), false), {})
  {
    hide Tiling, Coalesced, Tagged, Filed;
    After(g, s, t, p);
    Beyond(g, s, t, p);
    Before(g, s, t, p);
    Between(g, s, t, p);
    var lo, next, hi, s' := Back(s, p), Next(s, p), Ahead(s, p), Freed(s, p);
    Unlink(g, s, t, {lo, next});
    var loose := set x | x in {lo, next} && x in s.binned;
    var unbinned := s.binned - {lo, next};
    var loose' := if lo == s'.top || lo == s'.dv then {} else {lo};
    FuseFiled(g.min, g.base, g.end, t, s.top, s.topsize, s.dv, s.dvsize, unbinned, loose, lo, hi,
              s'.top, s'.topsize, s'.dv, s'.dvsize, loose');
    if loose' == {lo} {
      Insert(g.min, g.end, Fuse(t, lo, hi, false), s'.top, s'.topsize, s'.dv, s'.dvsize, unbinned, lo);
    }
  }

  /** Freeing keeps the heap well formed and takes exactly the chunk from those in use. */
  lemma FreedOk(g: Segment, s: State, t: Tiles, p: int)
    requires Ok(g, s, t) && p in t && t[p].used
    ensures p in s.head && Back(s, p) in s.head && Back(s, p) in t
    ensures Ok(g, Freed(s, p), Fuse(t, Back(s, p), Ahead(s, p), false))
    ensures Live(Fuse(t, Back(s, p), Ahead(s, p), false)) == Live(t) - {p}
  {
    hide Tiling, Coalesced, Tagged, FiledIn;
    FreedTiles(g, s, t, p);
    FreedFiled(g, s, t, p);
    After(g, s, t, p);
    Before(g, s, t, p);
    Between(g, s, t, p);
  }

  ghost function Live(t: Tiles): map<int, int> {
    map a | a in t && t[a].used :: t[a].size
  }

  // ------------------------------------------------------------------ taking a chunk

  /** A free chunk below top handed out whole. */
  ghost function Whole(s: State, a: int): (s': State)
    requires a in s.head
  {
    var hi := Next(s, a);
    var h1 := s.head[a := Head(s.head[a].size, true, true)];
    s.(head := if hi in h1 then h1[hi := h1[hi].(pinuse := true)] else h1,
       binned := s.binned - {a},
       dv := if s.dv == a then 0 else s.dv, dvsize := if s.dv == a then 0 else s.dvsize)
  }

  /** The first nb bytes of a free chunk below top handed out; what is left becomes the
      designated victim, or goes to a bin. */
  ghost function Front(s: State, a: int, nb: int, toDv: bool): (s': State)
    requires a in s.head
  {
    var r, rsize := a + nb, s.head[a].size - nb;
    var s1 := s.(head := s.head[a := Head(nb, true, true)][r := Head(rsize, true, false)], foot := s.foot[a + s.head[a].size := rsize]);
    if s.dv == a then s1.(dv := r, dvsize := rsize)
    else if toDv then s1.(dv := r, dvsize := rsize,
                          binned := if s.dv == 0 then s.binned - {a} else (s.binned - {a})[s.dv := s.dvsize])
    else s1.(binned := (s.binned - {a})[r := rsize])
  }

  /** The first nb bytes of the top chunk handed out. */
  ghost function OffTop(s: State, nb: int): (s': State) {
    var r := s.top + nb;
    s.(top := r, topsize := s.topsize - nb, head := s.head[s.top := Head(nb, true, true)][r := Head(s.topsize - nb, true, false)])
  }

  lemma WholeOk(g: Segment, s: State, t: Tiles, a: int)
    requires Ok(g, s, t) && a in t && !t[a].used && a != s.top
    ensures a in s.head && s.head[a].size == t[a].size
    ensures Ok(g, Whole(s, a), Fuse(t, a, a + t[a].size, true))
    ensures Live(Fuse(t, a, a + t[a].size, true)) == Live(t)[a := t[a].size]
  {
    hide Tiling, Coalesced, Tagged, FiledIn;
    FreeNeedsUsed(g, s, t, a);
    WholeTiles(g, s, t, a);
    WholeFiled(g, s, t, a);
    Alone(g, s, t, a);
  }

  lemma Alone(g: Segment, s: State, t: Tiles, a: int)
    requires Ok(g, s, t) && a in t
    ensures t[a].size > 0
    ensures forall x {:trigger x in t} | x in t && a < x :: a + t[a].size <= x
  {
    forall x {:trigger x in t} | x in t && a < x
      ensures a + t[a].size <= x
    {
      assert t[x].size > 0;
    }
  }

  lemma WholeTiles(g: Segment, s: State, t: Tiles, a: int)
    requires Ok(g, s, t) && a in t && !t[a].used && a != s.top && a in s.head && s.head[a] == Head(t[a].size, true, false)
    ensures var t' := Fuse(t, a, a + t[a].size, true);
            Tiling(g.base, g.end, t') && Coalesced(t') && Tagged(g.base, g.end, s.top, t', Whole(s, a).head, s.foot)
  {
    var hi := a + t[a].size;
    LastIsTop(g, s, t, a);
    assert t[a].size > 0;
    assert TagAt(g.end, s.top, t, s.head, s.foot, a);
    assert hi in s.head;
    hide Tiling, Coalesced, Tagged, FiledIn, TagAt;
    FuseTiling(g.base, g.end, t, a, hi, true);
    FuseCoalesced(g.base, g.end, t, a, hi, true);
    FuseTagged(g.base, g.end, s.top, t, a, hi, true, s.head, s.foot, Whole(s, a).head, s.foot);
  }

  lemma WholeFiled(g: Segment, s: State, t: Tiles, a: int)
    requires Ok(g, s, t) && a in t && !t[a].used && a != s.top && a in s.head && s.head[a].size == t[a].size
    ensures FiledIn(g, Whole(s, a), Fuse(t, a, a + t[a].size, true), {})
  {
    Alone(g, s, t, a);
    ZeroOutside(g, s, t);
    hide Tiling, Coalesced, Tagged;
    var t', s' := Fuse(t, a, a + t[a].size, true), Whole(s, a);
    assert forall x {:trigger t'[x]} | x in t' && x != a :: x in t && t'[x] == t[x];
    assert forall x {:trigger t[x]} {:trigger x in t} | x in t && x != a :: x in t' && t'[x] == t[x];
    assert s'.binned == s.binned - {a} && s'.top == s.top;
  }

  lemma FrontTiles(g: Segment, s: State, t: Tiles, a: int, nb: int, toDv: bool)
    requires Ok(g, s, t) && a in t && !t[a].used && a != s.top && 0 < nb < t[a].size
    requires a in s.head && s.head[a] == Head(t[a].size, true, false)
    ensures var t' := Cut(t, a, nb, false); var s' := Front(s, a, nb, toDv);
            a + nb !in t && Tiling(g.base, g.end, t') && Coalesced(t') && Tagged(g.base, g.end, s.top, t', s'.head, s'.foot)
  {
    AfterFree(g, s, t, a);
    hide Ok, Tiling, Coalesced, Tagged, Cut;
    CutTiles(g, s, t, a, nb, false, Front(s, a, nb, toDv));
  }

  /** What follows a free chunk below top. */
  lemma AfterFree(g: Segment, s: State, t: Tiles, a: int)
    requires Ok(g, s, t) && a in t && !t[a].used && a != s.top
    ensures 0 < t[a].size
    ensures var hi := a + t[a].size; hi in t && t[hi].used && hi in s.head && !s.head[hi].pinuse && hi < g.end
  {
    LastIsTop(g, s, t, a);
    assert t[a].size > 0;
    assert TagAt(g.end, s.top, t, s.head, s.foot, a);
    assert TagAt(g.end, s.top, t, s.head, s.foot, a + t[a].size);
  }

  lemma FrontFiled(g: Segment, s: State, t: Tiles, a: int, nb: int, toDv: bool)
    requires FiledIn(g, s, t, {}) && 0 < g.min && 0 !in t
    requires a in t && 0 < a && !t[a].used && a != s.top && g.min <= nb && nb + g.min <= t[a].size && a + nb !in t
    requires a in s.head && s.head[a].size == t[a].size
    ensures FiledIn(g, Front(s, a, nb, toDv), Cut(t, a, nb, false), {})
  {
    var r, rsize, s' := a + nb, t[a].size - nb, Front(s, a, nb, toDv);
    var t' := Cut(t, a, nb, false);
    assert forall x {:trigger t'[x]} | x in t' && x != a && x != r :: x in t && t'[x] == t[x];
    assert forall x {:trigger t[x]} {:trigger x in t} | x in t && x != a :: x in t' && t'[x] == t[x] && x != r;
    if s.dv == a {
    } else if toDv {
      if s.dv != 0 { assert s'.binned == (s.binned - {a})[s.dv := s.dvsize]; } else { assert s'.binned == s.binned - {a}; }
    } else {
      assert s'.binned == (s.binned - {a})[r := rsize];
    }
  }

  lemma FrontOk(g: Segment, s: State, t: Tiles, a: int, nb: int, toDv: bool)
    requires Ok(g, s, t) && a in t && !t[a].used && a != s.top && g.min <= nb && nb + g.min <= t[a].size
    ensures a in s.head && s.head[a].size == t[a].size
    ensures Ok(g, Front(s, a, nb, toDv), Cut(t, a, nb, false))
    ensures Live(Cut(t, a, nb, false)) == Live(t)[a := nb]
  {
    hide Tiling, Coalesced, Tagged, FiledIn, Cut, Live;
    FreeNeedsUsed(g, s, t, a);
    FrontTiles(g, s, t, a, nb, toDv);
    ZeroOutside(g, s, t);
    FrontFiled(g, s, t, a, nb, toDv);
    CutLive(t, a, nb, false);
  }

  lemma Positive(g: Segment, s: State, t: Tiles, p: int)
    requires Ok(g, s, t) && p in t
    ensures 0 < g.base <= p < g.end && 0 < t[p].size && p + t[p].size <= g.end
  {
  }

  lemma OffTopTiles(g: Segment, s: State, t: Tiles, nb: int)
    requires Ok(g, s, t) && 0 < nb < s.topsize
    ensures s.top in t && t[s.top] == Tile(s.topsize, false)
    ensures var t' := Cut(t, s.top, nb, false);
            s.top + nb !in t && Tiling(g.base, g.end, t') && Coalesced(t') && Tagged(g.base, g.end, s.top + nb, t', OffTop(s, nb).head, s.foot)
  {
    TopFree(g, s, t);
    hide Ok, Tiling, Coalesced, Tagged, Cut;
    CutTiles(g, s, t, s.top, nb, false, OffTop(s, nb));
  }

  lemma TopFree(g: Segment, s: State, t: Tiles)
    requires Ok(g, s, t)
    ensures s.top in t && t[s.top] == Tile(s.topsize, false) && s.top + s.topsize == g.end
    ensures s.top in s.head && s.head[s.top] == Head(s.topsize, true, false)
  {
    hide Tiling, Coalesced, Tagged;
    FreeNeedsUsed(g, s, t, s.top);
  }

  lemma OffTopFiled(g: Segment, s: State, t: Tiles, nb: int)
    requires FiledIn(g, s, t, {}) && 0 !in t && 0 < s.top && 0 < g.min <= nb < s.topsize && s.top + nb !in t
    ensures FiledIn(g, OffTop(s, nb), Cut(t, s.top, nb, false), {})
  {
    var t' := Cut(t, s.top, nb, false);
    assert forall x {:trigger t'[x]} | x in t' && x != s.top && x != s.top + nb :: x in t && t'[x] == t[x];
    assert forall x {:trigger t[x]} {:trigger x in t} | x in t && x != s.top :: x in t' && t'[x] == t[x] && x != s.top + nb;
  }

  lemma ZeroOutside(g: Segment, s: State, t: Tiles)
    requires Ok(g, s, t)
    ensures 0 !in t && forall x {:trigger x in t} | x in t :: 0 < x
  {
    hide Coalesced, Tagged, FiledIn;
    assert forall a {:trigger a in t} | a in t :: t[a].size > 0 && g.base <= a;
  }

  /** Cutting a chunk changes what is in use at the chunk and at the cut alone. */
  lemma CutLive(t: Tiles, a: int, k: int, used: bool)
    requires a in t && 0 < k && a + k !in t
    ensures Live(Cut(t, a, k, used)) == if used then Live(t)[a := k][a + k := t[a].size - k] else Live(t)[a := k]
  {
  }

  lemma OffTopOk(g: Segment, s: State, t: Tiles, nb: int)
    requires Ok(g, s, t) && g.min <= nb < s.topsize
    ensures s.top in t && t[s.top] == Tile(s.topsize, false)
    ensures Ok(g, OffTop(s, nb), Cut(t, s.top, nb, false))
    ensures Live(Cut(t, s.top, nb, false)) == Live(t)[s.top := nb]
  {
    hide Tiling, Coalesced, Tagged, FiledIn, Cut, Live;
    TopFree(g, s, t);
    OffTopTiles(g, s, t, nb);
    ZeroOutside(g, s, t);
    OffTopFiled(g, s, t, nb);
    CutLive(t, s.top, nb, false);
  }

  // ------------------------------------------------------------------ resizing in place

  /** A chunk in use split in two chunks in use. */
  ghost function Split(s: State, p: int, nb: int): (s': State)
    requires p in s.head
  {
    var r, hi := p + nb, Next(s, p);
    var h1 := s.head[p := s.head[p].(size := nb)][r := Head(s.head[p].size - nb, true, true)];
    s.(head := if hi in h1 then h1[hi := h1[hi].(pinuse := true)] else h1)
  }

  /** The free chunk after p, which is not top, taken into p. */
  ghost function Absorbed(s: State, p: int): (s': State)
    requires p in s.head && Next(s, p) in s.head
  {
    var next, hi := Next(s, p), Next(s, p) + s.head[Next(s, p)].size;
    var h1 := s.head[p := s.head[p].(size := hi - p)];
    s.(head := if hi in h1 then h1[hi := h1[hi].(pinuse := true)] else h1,
       binned := s.binned - {next},
       dv := if s.dv == next then 0 else s.dv, dvsize := if s.dv == next then 0 else s.dvsize)
  }

  /** p grown or shrunk to nb at the front of the designated victim after it. */
  ghost function IntoDv(s: State, p: int, nb: int): (s': State)
    requires p in s.head && Next(s, p) in s.head
  {
    var hi, r := Next(s, p) + s.head[Next(s, p)].size, p + nb;
    var h1 := s.head[p := s.head[p].(size := nb)][r := Head(hi - r, true, false)];
    s.(head := if hi in h1 then h1[hi := h1[hi].(pinuse := false)] else h1,
       foot := s.foot[hi := hi - r], dv := r, dvsize := hi - r)
  }

  /** p grown to nb at the front of the top chunk after it. */
  ghost function IntoTop(s: State, p: int, nb: int): (s': State)
    requires p in s.head
  {
    var r := p + nb;
    var rsize := s.head[p].size + s.topsize - nb;
    s.(head := s.head[p := s.head[p].(size := nb)][r := Head(rsize, true, false)], top := r, topsize := rsize)
  }

  lemma SplitTiles(g: Segment, s: State, t: Tiles, p: int, nb: int)
    requires Ok(g, s, t) && p in t && t[p].used && 0 < nb < t[p].size
    ensures p in s.head && s.head[p].size == t[p].size
    ensures var t' := Cut(t, p, nb, true);
            p + nb !in t && Tiling(g.base, g.end, t') && Coalesced(t') && Tagged(g.base, g.end, s.top, t', Split(s, p, nb).head, s.foot)
  {
    After(g, s, t, p);
    hide Ok, Tiling, Coalesced, Tagged, Cut;
    CutTiles(g, s, t, p, nb, true, Split(s, p, nb));
  }

  lemma SplitFiled(g: Segment, s: State, t: Tiles, p: int, nb: int)
    requires FiledIn(g, s, t, {}) && p in t && t[p].used && g.min <= nb && nb + g.min <= t[p].size && p + nb !in t && p in s.head
    ensures FiledIn(g, Split(s, p, nb), Cut(t, p, nb, true), {})
  {
    var t' := Cut(t, p, nb, true);
    assert forall x {:trigger t'[x]} | x in t' && x != p && x != p + nb :: x in t && t'[x] == t[x];
    assert forall x {:trigger t[x]} {:trigger x in t} | x in t && x != p :: x in t' && t'[x] == t[x] && x != p + nb;
  }

  lemma SplitOk(g: Segment, s: State, t: Tiles, p: int, nb: int)
    requires Ok(g, s, t) && p in t && t[p].used && g.min <= nb && nb + g.min <= t[p].size
    ensures p in s.head && s.head[p].size == t[p].size
    ensures p + nb !in t && Ok(g, Split(s, p, nb), Cut(t, p, nb, true))
    ensures Live(Cut(t, p, nb, true)) == Live(t)[p := nb][p + nb := t[p].size - nb]
  {
    hide Tiling, Coalesced, Tagged, FiledIn, Cut, Live;
    SplitTiles(g, s, t, p, nb);
    SplitFiled(g, s, t, p, nb);
    CutLive(t, p, nb, true);
  }

  /** A chunk in use with a free chunk after it, and where that one ends. */
  ghost predicate Growable(g: Segment, s: State, t: Tiles, p: int)
    requires Ok(g, s, t)
  {
    p in t && t[p].used && p in s.head && Next(s, p) in t && !t[Next(s, p)].used
  }

  lemma GrowTiles(g: Segment, s: State, t: Tiles, p: int, head': Heads)
    requires Ok(g, s, t) && Growable(g, s, t, p)
    ensures Next(s, p) in s.head && Ahead(s, p) == Next(s, p) + s.head[Next(s, p)].size == Next(s, p) + t[Next(s, p)].size
    ensures p in s.head && Ahead(s, p) > p
    ensures var hi := Ahead(s, p);
            var t' := Fuse(t, p, hi, true);
            && Tiling(g.base, g.end, t') && Coalesced(t')
            && (head' == s.head[p := s.head[p].(size := hi - p)] && hi == g.end ==>
                  Tagged(g.base, g.end, if s.top == Next(s, p) then p else s.top, t', head', s.foot))
            && (hi in s.head && head' == s.head[p := s.head[p].(size := hi - p)][hi := s.head[hi].(pinuse := true)] ==>
                  Tagged(g.base, g.end, if s.top == Next(s, p) then p else s.top, t', head', s.foot))
  {
    After(g, s, t, p);
    Beyond(g, s, t, p);
    hide Ok, Tiling, Coalesced, Tagged, Fuse, FuseWrites;
    GrowTagged(g, s, t, p, head');
    FuseTiling(g.base, g.end, t, p, Ahead(s, p), true);
    FuseCoalesced(g.base, g.end, t, p, Ahead(s, p), true);
  }

  lemma GrowTagged(g: Segment, s: State, t: Tiles, p: int, head': Heads)
    requires Tiling(g.base, g.end, t) && Tagged(g.base, g.end, s.top, t, s.head, s.foot)
    requires p in t && p in s.head && s.head[p].cinuse && Next(s, p) in t && p < Next(s, p) < Ahead(s, p)
    requires s.top == Next(s, p) || s.top < p || Ahead(s, p) <= s.top
    requires Ahead(s, p) in t || Ahead(s, p) == g.end
    ensures var hi := Ahead(s, p);
            var t', top' := Fuse(t, p, hi, true), if s.top == Next(s, p) then p else s.top;
            && (head' == s.head[p := s.head[p].(size := hi - p)] && hi == g.end ==>
                  Tagged(g.base, g.end, top', t', head', s.foot))
            && (hi in s.head && head' == s.head[p := s.head[p].(size := hi - p)][hi := s.head[hi].(pinuse := true)] ==>
                  Tagged(g.base, g.end, top', t', head', s.foot))
  {
    hide Tiling, Tagged, Fuse;
    var hi := Ahead(s, p);
    if head' == s.head[p := s.head[p].(size := hi - p)] && hi == g.end {
      FuseTagged(g.base, g.end, s.top, t, p, hi, true, s.head, s.foot, head', s.foot);
    }
    if hi in s.head && head' == s.head[p := s.head[p].(size := hi - p)][hi := s.head[hi].(pinuse := true)] {
      FuseTagged(g.base, g.end, s.top, t, p, hi, true, s.head, s.foot, head', s.foot);
    }
  }

  lemma FuseUsedFiled(min: int, end: int, t: Tiles, top: int, topsize: int, dv: int, dvsize: int, binned: map<int, int>,
                      p: int, next: int, hi: int, dv': int, dvsize': int)
    requires Filed(min, end, t, top, topsize, dv, dvsize, binned, {})
    requires 0 !in t && p in t && next in t && 0 < p < next < hi && t[p].used && !t[next].used && next != top && next == p + t[p].size
    requires forall x {:trigger x in t} | x in t && p <= x < hi :: x == p || x == next
    requires dv' == (if dv == next then 0 else dv) && dvsize' == (if dv == next then 0 else dvsize)
    ensures Filed(min, end, Fuse(t, p, hi, true), top, topsize, dv', dvsize', binned - {next}, {})
  {
    var t' := Fuse(t, p, hi, true);
    assert forall x {:trigger t'[x]} | x in t' && x != p :: x in t && t'[x] == t[x];
    assert forall x {:trigger t[x]} {:trigger x in t} | x in t && x != p && x != next :: x in t' && t'[x] == t[x];
  }

  lemma Covering(g: Segment, s: State, t: Tiles, p: int)
    requires Ok(g, s, t) && p in t && t[p].used
    ensures p in s.head && Next(s, p) in s.head && Next(s, p) in t
    ensures 0 !in t && 0 < p < Next(s, p) <= Ahead(s, p) && Next(s, p) == p + t[p].size
    ensures forall x {:trigger x in t} | x in t && p <= x < Ahead(s, p) :: x == p || x == Next(s, p)
  {
    After(g, s, t, p);
    Between(g, s, t, p);
    Positive(g, s, t, p);
    Before(g, s, t, p);
    assert forall a {:trigger a in t} | a in t :: t[a].size > 0 && g.base <= a;
  }

  lemma AbsorbedOk(g: Segment, s: State, t: Tiles, p: int)
    requires Ok(g, s, t) && Growable(g, s, t, p) && Next(s, p) != s.top
    ensures Next(s, p) in s.head && p in t
    ensures Ok(g, Absorbed(s, p), Fuse(t, p, Ahead(s, p), true))
    ensures Live(Fuse(t, p, Ahead(s, p), true)) == Live(t)[p := Ahead(s, p) - p]
  {
    hide Tiling, Coalesced, Tagged, Filed;
    After(g, s, t, p);
    Beyond(g, s, t, p);
    Covering(g, s, t, p);
    GrowTiles(g, s, t, p, Absorbed(s, p).head);
    FuseUsedFiled(g.min, g.end, t, s.top, s.topsize, s.dv, s.dvsize, s.binned, p, Next(s, p), Ahead(s, p),
                  Absorbed(s, p).dv, Absorbed(s, p).dvsize);
  }

  /** p regrown to nb over the designated victim behind it, the rest staying the victim. */
  lemma IntoDvOk(g: Segment, s: State, t: Tiles, p: int, nb: int)
    requires Ok(g, s, t) && Growable(g, s, t, p) && s.dv == Next(s, p) && g.min <= nb && nb + g.min <= Ahead(s, p) - p
    ensures Next(s, p) in s.head && p in t
    ensures var t' := Cut(Fuse(t, p, Ahead(s, p), true), p, nb, false);
            Ok(g, IntoDv(s, p, nb), t') && Live(t') == Live(t)[p := nb]
  {
    hide Tiling, Coalesced, Tagged, FiledIn;
    DvNotTop(g, s, t);
    Covering(g, s, t, p);
    AbsorbedOk(g, s, t, p);
    After(g, s, t, p);
    Beyond(g, s, t, p);
    var t1, s1 := Fuse(t, p, Ahead(s, p), true), Absorbed(s, p);
    ReleaseTail(g, s1, t1, p, nb);
    assert s.binned - {s.dv} == s.binned;
    assert IntoDv(s, p, nb) == TailToDv(s1, p, nb);
  }

  lemma DvNotTop(g: Segment, s: State, t: Tiles)
    requires Ok(g, s, t)
    ensures s.dv != 0 ==> s.dv in t && s.dv != s.top && t[s.dv] == Tile(s.dvsize, false) && s.dv !in s.binned
  {
  }

  /** The tail of a chunk in use, from nb on, made the designated victim. */
  ghost function TailToDv(s: State, p: int, nb: int): (s': State)
    requires p in s.head
  {
    var hi, r := Next(s, p), p + nb;
    var h1 := s.head[p := s.head[p].(size := nb)][r := Head(hi - r, true, false)];
    s.(head := if hi in h1 then h1[hi := h1[hi].(pinuse := false)] else h1,
       foot := s.foot[hi := hi - r], dv := r, dvsize := hi - r)
  }

  lemma ReleaseTailTiles(g: Segment, s: State, t: Tiles, p: int, nb: int)
    requires Ok(g, s, t) && p in t && t[p].used && 0 < nb < t[p].size
    requires p + t[p].size in t && t[p + t[p].size].used
    ensures p in s.head
    ensures var t' := Cut(t, p, nb, false); var s' := TailToDv(s, p, nb);
            p + nb !in t && Tiling(g.base, g.end, t') && Coalesced(t') && Tagged(g.base, g.end, s.top, t', s'.head, s'.foot)
  {
    After(g, s, t, p);
    hide Ok, Tiling, Coalesced, Tagged, Cut;
    CutTiles(g, s, t, p, nb, false, TailToDv(s, p, nb));
  }

  lemma ReleaseTailFiled(g: Segment, s: State, t: Tiles, p: int, nb: int)
    requires FiledIn(g, s, t, {}) && p in t && t[p].used && s.dv == 0 && g.min <= nb && nb + g.min <= t[p].size && p + nb !in t
    requires p in s.head && s.head[p].size == t[p].size && 0 < p && 0 < nb && 0 !in t
    ensures FiledIn(g, TailToDv(s, p, nb), Cut(t, p, nb, false), {})
  {
    assert p + nb !in s.binned;
    var t' := Cut(t, p, nb, false);
    assert forall x {:trigger t'[x]} | x in t' && x != p && x != p + nb :: x in t && t'[x] == t[x];
    assert forall x {:trigger t[x]} {:trigger x in t} | x in t && x != p :: x in t' && t'[x] == t[x] && x != p + nb;
  }

  lemma ReleaseTail(g: Segment, s: State, t: Tiles, p: int, nb: int)
    requires Ok(g, s, t) && p in t && t[p].used && s.dv == 0 && g.min <= nb && nb + g.min <= t[p].size
    requires p + t[p].size in t && t[p + t[p].size].used
    ensures p in s.head
    ensures Ok(g, TailToDv(s, p, nb), Cut(t, p, nb, false))
    ensures Live(Cut(t, p, nb, false)) == Live(t)[p := nb]
  {
    hide Tiling, Tagged, Coalesced, FiledIn, Cut, Live;
    ReleaseTailTiles(g, s, t, p, nb);
    After(g, s, t, p);
    ZeroOutside(g, s, t);
    ReleaseTailFiled(g, s, t, p, nb);
    CutLive(t, p, nb, false);
  }

  lemma IntoTopTiles(g: Segment, s: State, t: Tiles, p: int, nb: int)
    requires Ok(g, s, t) && Growable(g, s, t, p) && s.top == Next(s, p) && 0 < nb < t[p].size + s.topsize
    ensures p in t && Ahead(s, p) == g.end == p + t[p].size + s.topsize
    ensures var t' := Cut(Fuse(t, p, g.end, true), p, nb, false); var s' := IntoTop(s, p, nb);
            Tiling(g.base, g.end, t') && Coalesced(t') && Tagged(g.base, g.end, s'.top, t', s'.head, s.foot)
  {
    hide Ok, Tiling, Coalesced, Tagged, Fuse, Cut, Growable, IntoTop, CutWrites, Ahead;
    TopBehind(g, s, t, p);
    OverTop(g, s, t, p);
    IntoTopWrites(s, p, nb, g.end);
    CutLast(g, Fuse(t, p, g.end, true), p, nb, s.head[p := s.head[p].(size := g.end - p)], s.foot, IntoTop(s, p, nb).head);
  }

  /** p grown over all of top. */
  lemma OverTop(g: Segment, s: State, t: Tiles, p: int)
    requires Ok(g, s, t) && Growable(g, s, t, p) && s.top == Next(s, p)
    ensures p in s.head
    ensures var t1 := Fuse(t, p, g.end, true);
            && Tiling(g.base, g.end, t1) && Coalesced(t1)
            && Tagged(g.base, g.end, p, t1, s.head[p := s.head[p].(size := g.end - p)], s.foot)
  {
    TopBehind(g, s, t, p);
    hide Ok, Tiling, Coalesced, Tagged, Fuse, Growable;
    GrowTiles(g, s, t, p, s.head[p := s.head[p].(size := g.end - p)]);
  }

  lemma IntoTopWrites(s: State, p: int, nb: int, end: int)
    requires p in s.head && s.head[p].cinuse && 0 < nb && p + s.head[p].size + s.topsize == end
    ensures var s' := IntoTop(s, p, nb);
            && s'.top == p + nb && s'.foot == s.foot
            && CutWrites(end, p, p, end, nb, false, s.head[p := s.head[p].(size := end - p)], s.foot, s'.head, s'.foot)
  {
  }

  lemma TopBehind(g: Segment, s: State, t: Tiles, p: int)
    requires Ok(g, s, t) && Growable(g, s, t, p) && s.top == Next(s, p)
    ensures p in t && Ahead(s, p) == g.end == p + t[p].size + s.topsize
    ensures p in s.head && s.head[p].size == t[p].size && s.head[p].cinuse && s.top in s.head && p < s.top < g.end && g.end !in t
    ensures var t1 := Fuse(t, p, g.end, true); p in t1 && t1[p] == Tile(g.end - p, true) && g.end !in t1
  {
    After(g, s, t, p);
    Beyond(g, s, t, p);
    EndIsOutside(g, s, t);
    TopFree(g, s, t);
    hide Ok, Tiling, Coalesced, Tagged, FiledIn;
  }

  /** The last chunk, in use and reaching the end of the segment, cut so that top is behind it. */
  lemma CutLast(g: Segment, t: Tiles, p: int, nb: int, head: Heads, foot: Feet, head': Heads)
    requires Tiling(g.base, g.end, t) && Coalesced(t) && Tagged(g.base, g.end, p, t, head, foot)
    requires p in t && t[p] == Tile(g.end - p, true) && g.end !in t && 0 < nb < g.end - p
    requires CutWrites(g.end, p, p, g.end, nb, false, head, foot, head', foot)
    ensures var t' := Cut(t, p, nb, false); Tiling(g.base, g.end, t') && Coalesced(t') && Tagged(g.base, g.end, p + nb, t', head', foot)
  {
    hide Tiling, Coalesced, Tagged, Cut, CutWrites;
    CutTiling(g.base, g.end, t, p, nb, false);
    CutCoalesced(g.base, g.end, t, p, nb, false);
    CutTagged(g.base, g.end, p, t, p, nb, false, head, foot, head', foot);
  }

  lemma IntoTopFiled(min: int, end: int, t: Tiles, top: int, topsize: int, dv: int, dvsize: int, binned: map<int, int>, p: int, nb: int)
    requires Filed(min, end, t, top, topsize, dv, dvsize, binned, {})
    requires p in t && t[p].used && 0 < p < top && top == p + t[p].size && min <= nb && 0 < nb < end - p
    requires forall x {:trigger x in t} | x in t && p <= x < end :: x == p || x == top
    requires forall x {:trigger x in t} | x in t :: x < end
    ensures var t' := Cut(Fuse(t, p, end, true), p, nb, false);
            Filed(min, end, t', p + nb, end - p - nb, dv, dvsize, binned, {}) && Live(t') == Live(t)[p := nb]
  {
    var t1 := Fuse(t, p, end, true);
    assert forall x {:trigger t1[x]} {:trigger x in t1} | x in t1 && x != p :: x in t && t1[x] == t[x] && x < p;
    assert forall x {:trigger t[x]} {:trigger x in t} | x in t && x != p && x != top :: x in t1 && t1[x] == t[x] && x < p;
  }

  lemma BelowEnd(g: Segment, s: State, t: Tiles)
    requires Ok(g, s, t)
    ensures forall x {:trigger x in t} | x in t :: x < g.end
  {
    assert forall x {:trigger x in t} | x in t :: t[x].size > 0;
  }

  /** p regrown to nb over the top chunk behind it. */
  lemma IntoTopOk(g: Segment, s: State, t: Tiles, p: int, nb: int)
    requires Ok(g, s, t) && Growable(g, s, t, p) && s.top == Next(s, p) && g.min <= nb < t[p].size + s.topsize
    ensures p in t && Ahead(s, p) == g.end
    ensures var t' := Cut(Fuse(t, p, g.end, true), p, nb, false);
            Ok(g, IntoTop(s, p, nb), t') && Live(t') == Live(t)[p := nb]
  {
    hide Tiling, Coalesced, Tagged, Filed, Fuse, Cut, Live;
    After(g, s, t, p);
    IntoTopTiles(g, s, t, p, nb);
    Covering(g, s, t, p);
    BelowEnd(g, s, t);
    IntoTopFiled(g.min, g.end, t, s.top, s.topsize, s.dv, s.dvsize, s.binned, p, nb);
  }

  /** The chunk in use after p joined to p. */
  ghost function Joined(s: State, p: int): (s': State)
    requires p in s.head && Next(s, p) in s.head
  {
    var hi := Next(s, p) + s.head[Next(s, p)].size;
    var h1 := s.head[p := s.head[p].(size := hi - p)];
    s.(head := if hi in h1 then h1[hi := h1[hi].(pinuse := true)] else h1)
  }

  lemma JoinedFiled(min: int, end: int, t: Tiles, top: int, topsize: int, dv: int, dvsize: int, binned: map<int, int>,
                    p: int, next: int, hi: int)
    requires Filed(min, end, t, top, topsize, dv, dvsize, binned, {})
    requires p in t && next in t && p < next < hi && t[p].used && t[next].used && next == p + t[p].size && 0 < t[next].size && hi == next + t[next].size
    requires forall x {:trigger x in t} | x in t && p < x < hi :: x == next
    ensures Filed(min, end, Fuse(t, p, hi, true), top, topsize, dv, dvsize, binned, {})
    ensures Live(Fuse(t, p, hi, true)) == Live(t)[p := hi - p] - {next}
  {
    var t' := Fuse(t, p, hi, true);
    assert forall x {:trigger t'[x]} {:trigger x in t'} | x in t' && x != p :: x in t && t'[x] == t[x];
    assert forall x {:trigger t[x]} {:trigger x in t} | x in t && x != p && x != next :: x in t' && t'[x] == t[x];
  }

  lemma JoinedWrites(s: State, p: int, end: int)
    requires p in s.head && s.head[p].cinuse && Next(s, p) in s.head && 0 < s.head[p].size && 0 < s.head[Next(s, p)].size
    requires var hi := Next(s, p) + s.head[Next(s, p)].size; hi in s.head && s.head[hi].pinuse
    ensures var hi := Next(s, p) + s.head[Next(s, p)].size;
            FuseWrites(end, s.top, p, hi, true, s.head, s.foot, Joined(s, p).head, s.foot)
  {
  }

  lemma JoinedOk(g: Segment, s: State, t: Tiles, p: int)
    requires Ok(g, s, t) && p in t && t[p].used && p in s.head && Next(s, p) in t && t[Next(s, p)].used
    ensures Next(s, p) in s.head && Next(s, p) == p + t[p].size
    ensures var hi := Next(s, p) + t[Next(s, p)].size;
            && Ok(g, Joined(s, p), Fuse(t, p, hi, true))
            && Live(Fuse(t, p, hi, true)) == Live(t)[p := hi - p] - {Next(s, p)}
  {
    hide Tiling, Coalesced, Tagged, Filed, FuseWrites, Fuse;
    After(g, s, t, p);
    var next := Next(s, p);
    After(g, s, t, next);
    Alone(g, s, t, p);
    Alone(g, s, t, next);
    var hi := next + t[next].size;
    FuseTiling(g.base, g.end, t, p, hi, true);
    FuseCoalesced(g.base, g.end, t, p, hi, true);
    JoinedWrites(s, p, g.end);
    FuseTagged(g.base, g.end, s.top, t, p, hi, true, s.head, s.foot, Joined(s, p).head, s.foot);
    JoinedFiled(g.min, g.end, t, s.top, s.topsize, s.dv, s.dvsize, s.binned, p, next, hi);
  }

  // ------------------------------------------------------------------ the segment as a whole

  /** The chunks met walking the segment from a by their sizes. */
  ghost function Walk(t: Tiles, end: int, a: int): seq<int>
    decreases end - a
  {
    if a in t && a < end && 0 < t[a].size then [a] + Walk(t, end, a + t[a].size) else []
  }

  ghost function Bytes(t: Tiles, w: seq<int>, used: bool): int {
    if w == [] then 0
    else (if w[0] in t && t[w[0]].used == used then t[w[0]].size else 0) + Bytes(t, w[1..], used)
  }

  lemma {:induction false} WalkReaches(base: int, end: int, t: Tiles, a: int, x: int)
    requires Tiling(base, end, t) && a in t && x in t && a <= x
    ensures x in Walk(t, end, a)
    decreases end - a
  {
    assert t[a].size > 0 && t[x].size > 0;
    var w := Walk(t, end, a + t[a].size);
    assert Walk(t, end, a) == [a] + w;
    if a < x {
      assert Closed(end, t, a);
      WalkReaches(base, end, t, a + t[a].size, x);
    }
  }

  lemma {:induction false} WalkBytes(base: int, end: int, t: Tiles, a: int)
    requires Tiling(base, end, t) && (a in t || a == end)
    ensures Bytes(t, Walk(t, end, a), true) + Bytes(t, Walk(t, end, a), false) == end - a
    decreases end - a
  {
    if a in t {
      assert t[a].size > 0;
      assert Closed(end, t, a);
      WalkBytes(base, end, t, a + t[a].size);
      var w := Walk(t, end, a + t[a].size);
      assert ([a] + w)[1..] == w;
    }
  }

  /** Walking from the first chunk meets every chunk, and the bytes in use and the bytes free
      always add up to the segment. */
  lemma BytesConserved(g: Segment, s: State, t: Tiles)
    requires Ok(g, s, t)
    ensures forall a {:trigger a in t} :: a in t <==> a in Walk(t, g.end, g.base)
    ensures Bytes(t, Walk(t, g.end, g.base), true) + Bytes(t, Walk(t, g.end, g.base), false) == g.end - g.base
  {
    WalkBytes(g.base, g.end, t, g.base);
    WalkOnlyTiles(t, g.end, g.base);
    forall a {:trigger a in t} | a in t
      ensures a in Walk(t, g.end, g.base)
    {
      assert t[a].size > 0;
      WalkReaches(g.base, g.end, t, g.base, a);
    }
  }

  lemma {:induction false} WalkOnlyTiles(t: Tiles, end: int, a: int)
    ensures forall x {:trigger x in Walk(t, end, a)} :: x in Walk(t, end, a) ==> x in t
    decreases end - a
  {
    if a in t && a < end && 0 < t[a].size {
      WalkOnlyTiles(t, end, a + t[a].size);
    }
  }
}
