/** The allocator over one segment: malloc, free, realloc in place, aligned and bulk allocation. */
module Dlmalloc {
  import opened Chunks
  import TreeBins

  /** What the word size and the chunk layout fix. */
  datatype Sizes = Sizes(word: nat, align: nat, min: nat, large: nat, bits: nat)

  ghost predicate Multiple(m: nat, a: nat) {
    exists i: nat :: m == i * a
  }

  ghost predicate GoodSizes(k: Sizes) {
    && 0 < k.word < k.min
    && 1 < k.align
    && Multiple(k.min, k.align)
    && Multiple(k.large, k.align)
    && k.align <= k.min
    && k.min + k.align <= k.large
    && 0 < k.bits
    && k.large + 4 * k.min + k.align < TreeBins.Pow2(k.bits)
    && 8 * k.min <= TreeBins.Pow2(k.bits)
  }

  function RoundUp(x: nat, a: nat): (r: nat)
    requires 0 < a
  {
    (x + a - 1) / a * a
  }

  lemma RoundUpBounds(x: nat, a: nat)
    requires 0 < a
    ensures x <= RoundUp(x, a) < x + a
  {
    var q := (x + a - 1) / a;
    assert x + a - 1 == q * a + (x + a - 1) % a;
  }

  /** A multiple of a less than a below another reaches it. */
  lemma MultipleReaches(p: int, q: int, a: nat)
    requires 0 < a && q * a - a < p * a
    ensures q * a <= p * a
  {
    if p < q { StepDown(p, q, a); } else { Scaled(q, p, a); }
  }

  lemma Scaled(p: int, q: int, a: nat)
    requires p <= q
    ensures p * a <= q * a
  {
    assert 0 <= (q - p) * a;
    assert (q - p) * a == q * a - p * a;
  }

  lemma StepDown(p: int, q: int, a: nat)
    requires p < q
    ensures p * a <= q * a - a
  {
    Scaled(p, q - 1, a);
    assert (q - 1) * a == q * a - a;
  }

  lemma RoundUpReaches(x: nat, a: nat, m: nat)
    requires 0 < a && Multiple(m, a) && m - a < x
    ensures m <= RoundUp(x, a)
  {
    var i: nat :| m == i * a;
    RoundUpBounds(x, a);
    MultipleReaches((x + a - 1) / a, i, a);
  }

  function Pad(k: Sizes, bytes: nat): (nb: nat)
    requires 0 < k.align
  {
    RoundUp(bytes + k.word, k.align)
  }

  function RequestToSize(k: Sizes, bytes: nat): (nb: nat)
    requires 0 < k.align
  {
    if bytes + k.word + 1 < k.min then k.min else Pad(k, bytes)
  }

  predicate IsSmallRequest(k: Sizes, bytes: nat) {
    bytes + k.word + k.align <= k.large
  }

  predicate IsTooBig(k: Sizes, bytes: nat) {
    bytes + 4 * k.min >= TreeBins.Pow2(k.bits)
  }

  lemma RequestBounds(k: Sizes, bytes: nat)
    requires GoodSizes(k)
    ensures k.min <= RequestToSize(k, bytes)
    ensures bytes + k.word <= RequestToSize(k, bytes)
    ensures RequestToSize(k, bytes) == k.min || RequestToSize(k, bytes) < bytes + k.word + k.align
    ensures IsSmallRequest(k, bytes) ==> RequestToSize(k, bytes) < k.large
    ensures !IsSmallRequest(k, bytes) ==> k.large <= RequestToSize(k, bytes)
    ensures !IsTooBig(k, bytes) ==> RequestToSize(k, bytes) < TreeBins.Pow2(k.bits)
  {
    hide Multiple, RoundUp;
    RoundUpBounds(bytes + k.word, k.align);
    if bytes + k.word + 1 >= k.min { RoundUpReaches(bytes + k.word, k.align, k.min); }
    if !IsSmallRequest(k, bytes) { RoundUpReaches(bytes + k.word, k.align, k.large); }
  }

  /** The padded request is the least multiple of the alignment that holds the bytes with their
      overhead and is a least chunk or more. */
  lemma RequestIsLeast(k: Sizes, bytes: nat, m: nat)
    requires GoodSizes(k)
    ensures var r := RequestToSize(k, bytes); Multiple(r, k.align) && bytes + k.word <= r && k.min <= r
    ensures Multiple(m, k.align) && bytes + k.word <= m && k.min <= m ==> RequestToSize(k, bytes) <= m
  {
    RequestBounds(k, bytes);
    var x := bytes + k.word;
    if x + 1 >= k.min {
      assert Pad(k, bytes) == (x + k.align - 1) / k.align * k.align;
      if Multiple(m, k.align) && x <= m {
        var i: nat :| m == i * k.align;
        RoundUpBounds(x, k.align);
        MultipleReaches(i, (x + k.align - 1) / k.align, k.align);
      }
    }
  }

  // ------------------------------------------------------------------ which chunk serves a request

  /** Nothing in the heap serves a request: it is above the largest there may be, or every binned
      chunk and the victim are smaller than its padded size, and top not bigger. */
  ghost predicate Refused(k: Sizes, s: State, bytes: nat)
    requires 0 < k.align
  {
    bytes + 4 * k.min >= TreeBins.Pow2(k.bits) ||
    var nb := RequestToSize(k, bytes);
    (forall a {:trigger s.binned[a]} | a in s.binned :: s.binned[a] < nb) && s.dvsize < nb && s.topsize <= nb
  }

  /** A chunk of a given size is cut for nb bytes, and what is left over is filed: as top again, as the
      victim when it was cut from the victim or for a small request, else in a bin; less than a least
      chunk is handed out with the rest. */
  ghost predicate Cuts(k: Sizes, s: State, s': State, p: int, size: int, nb: int, small: bool, got: int) {
    var rest := size - nb;
    if p == s.top then
      got == nb && s'.top == p + nb && s'.topsize == rest && s'.dv == s.dv && s'.dvsize == s.dvsize && s'.binned == s.binned
    else if rest < k.min then
      && got == size && s'.top == s.top && s'.topsize == s.topsize && s'.binned == s.binned - {p}
      && s'.dv == (if p == s.dv then 0 else s.dv) && s'.dvsize == (if p == s.dv then 0 else s.dvsize)
    else
      && got == nb && s'.top == s.top && s'.topsize == s.topsize
      && s'.dv == (if p == s.dv || small then p + nb else s.dv) && s'.dvsize == (if p == s.dv || small then rest else s.dvsize)
      && s'.binned == (if p == s.dv then s.binned
                       else if !small then (s.binned - {p})[p + nb := rest]
                       else if s.dv == 0 then s.binned - {p} else (s.binned - {p})[s.dv := s.dvsize])
  }

  lemma CarvedCuts(k: Sizes, g: Segment, s: State, t: Tiles, nb: int, small: bool, p: int)
    requires Ok(g, s, t) && Chosen(k, s, nb, small, p) && p != 0 && g.min == k.min
    ensures p in t && p in s.head && s.head[p].size == t[p].size
    ensures Cuts(k, s, Carved(k, s, p, nb, small), p, t[p].size, nb, small, CarvedSize(k, s, t, p, nb))
  {
    hide Ok, Chosen;
    ChosenIsFree(k, g, s, t, nb, small, p);
    DvNotTop(g, s, t);
    assert s.dv != 0 ==> s.binned - {s.dv} == s.binned;
  }

  lemma RefusedBig(k: Sizes, s: State, bytes: nat)
    requires 0 < k.align && bytes + 4 * k.min >= TreeBins.Pow2(k.bits)
    ensures Refused(k, s, bytes)
  {
  }

  /** Nothing is chosen exactly when nothing serves the request. */
  lemma ChosenNone(k: Sizes, s: State, bytes: nat, small: bool, p: int)
    requires 0 < k.align && s.top != 0 && bytes + 4 * k.min < TreeBins.Pow2(k.bits)
    requires Chosen(k, s, RequestToSize(k, bytes), small, p)
    ensures p == 0 <==> Refused(k, s, bytes)
  {
  }

  /** A small bin filed under the size, or the next bin when that one is empty. */
  ghost predicate Remainderless(k: Sizes, s: State, nb: int, size: int) {
    size < k.large && (size == nb || (size == nb + k.word && forall a | a in s.binned :: s.binned[a] != nb))
  }

  ghost predicate NoBinFits(s: State, nb: int) {
    forall a {:trigger s.binned[a]} | a in s.binned :: s.binned[a] < nb
  }

  ghost predicate LeastBin(s: State, nb: int, p: int) {
    p in s.binned && nb <= s.binned[p] && forall a {:trigger s.binned[a]} | a in s.binned && nb <= s.binned[a] :: s.binned[p] <= s.binned[a]
  }

  /** p is the chunk a request for nb bytes is cut from; 0 when nothing in the heap serves it. */
  ghost predicate Chosen(k: Sizes, s: State, nb: int, small: bool, p: int) {
    if p == 0 then
      NoBinFits(s, nb) && s.dvsize < nb && s.topsize <= nb
    else if p == s.top then
      NoBinFits(s, nb) && s.dvsize < nb < s.topsize
    else if p == s.dv then
      nb <= s.dvsize &&
      if small then forall a {:trigger s.binned[a]} | a in s.binned :: !Remainderless(k, s, nb, s.binned[a])
      else forall a {:trigger s.binned[a]} | a in s.binned && nb <= s.binned[a] :: s.dvsize <= s.binned[a]
    else
      p in s.binned && nb <= s.binned[p] &&
      if small then
        Remainderless(k, s, nb, s.binned[p]) || (s.dvsize < nb && LeastBin(s, nb, p))
      else
        LeastBin(s, nb, p) && (s.dvsize < nb || s.binned[p] < s.dvsize)
  }

  /** The bins do not serve the request, or not better than the designated victim. */
  ghost predicate Passed(k: Sizes, s: State, nb: int, small: bool) {
    if nb <= s.dvsize then
      if small then forall a {:trigger s.binned[a]} | a in s.binned :: !Remainderless(k, s, nb, s.binned[a])
      else forall a {:trigger s.binned[a]} | a in s.binned && nb <= s.binned[a] :: s.dvsize <= s.binned[a]
    else NoBinFits(s, nb)
  }

  lemma PassedThenChosen(k: Sizes, s: State, nb: int, small: bool)
    requires Passed(k, s, nb, small) && s.dv != s.top && s.top != 0 && (s.dv == 0 ==> s.dvsize == 0) && 0 < nb
    ensures Chosen(k, s, nb, small, if nb <= s.dvsize then s.dv else if nb < s.topsize then s.top else 0)
  {
  }

  /** The heap after nb bytes are cut from the front of p. */
  ghost function Carved(k: Sizes, s: State, p: int, nb: int, small: bool): (s': State)
    requires p in s.head
  {
    if p == s.top then OffTop(s, nb)
    else if s.head[p].size - nb < k.min then Whole(s, p)
    else Front(s, p, nb, small)
  }

  ghost function CarvedTiles(k: Sizes, s: State, t: Tiles, p: int, nb: int): (t': Tiles)
    requires p in t
  {
    if p != s.top && t[p].size - nb < k.min then Fuse(t, p, p + t[p].size, true) else Cut(t, p, nb, false)
  }

  ghost function CarvedSize(k: Sizes, s: State, t: Tiles, p: int, nb: int): int
    requires p in t
  {
    if p != s.top && t[p].size - nb < k.min then t[p].size else nb
  }

  lemma ChosenIsFree(k: Sizes, g: Segment, s: State, t: Tiles, nb: int, small: bool, p: int)
    requires Ok(g, s, t) && Chosen(k, s, nb, small, p) && p != 0
    ensures p in t && !t[p].used && p in s.head && s.head[p] == Head(t[p].size, true, false)
    ensures nb <= t[p].size && (p == s.top ==> nb < t[p].size && t[p].size == s.topsize)
  {
    hide Tiling, Coalesced, Tagged;
    assert p in t && !t[p].used;
    FreeNeedsUsed(g, s, t, p);
  }

  lemma ChosenMin(g: Segment, s: State, t: Tiles)
    requires Ok(g, s, t)
    ensures 0 < g.min
  {
  }

  /** Cutting a request from the chosen chunk keeps the heap well formed and adds one chunk in
      use, big enough and less than a least chunk too big. */
  lemma CarvedOk(k: Sizes, g: Segment, s: State, t: Tiles, nb: int, small: bool, p: int)
    requires Ok(g, s, t) && Chosen(k, s, nb, small, p) && p != 0 && g.min == k.min && k.min <= nb
    ensures p in t && !t[p].used && p in s.head
    ensures Ok(g, Carved(k, s, p, nb, small), CarvedTiles(k, s, t, p, nb))
    ensures nb <= CarvedSize(k, s, t, p, nb) < nb + k.min
    ensures Live(CarvedTiles(k, s, t, p, nb)) == Live(t)[p := CarvedSize(k, s, t, p, nb)]
    ensures p in CarvedTiles(k, s, t, p, nb) && CarvedTiles(k, s, t, p, nb)[p].size == CarvedSize(k, s, t, p, nb)
    ensures p !in Live(t)
  {
    hide Ok, Chosen;
    ChosenIsFree(k, g, s, t, nb, small, p);
    assert 0 < k.min by { ChosenMin(g, s, t); }
    if p == s.top {
      assert s.topsize == t[p].size;
      OffTopOk(g, s, t, nb);
    } else if t[p].size - nb < k.min {
      WholeOk(g, s, t, p);
    } else {
      FrontOk(g, s, t, p, nb, small);
    }
  }

  /** Nothing in the heap is as big as the largest word. */
  lemma TooBigFails(k: Sizes, g: Segment, s: State, t: Tiles, nb: int, small: bool, p: int)
    requires Ok(g, s, t) && g.end < TreeBins.Pow2(k.bits) && Chosen(k, s, nb, small, p) && p != 0
    ensures nb < TreeBins.Pow2(k.bits) - 1
  {
    hide Tiling, Coalesced, Tagged;
    ChosenIsFree(k, g, s, t, nb, small, p);
    Positive(g, s, t, p);
  }

  // ------------------------------------------------------------------ the macros that write chunk heads

  function SetInuseAndPinuse(head: Heads, p: int, size: int): (h: Heads) {
    var h1 := head[p := Head(size, true, true)];
    if p + size in h1 then h1[p + size := h1[p + size].(pinuse := true)] else h1
  }

  function SetInuse(head: Heads, p: int, size: int): (h: Heads) {
    var pinuse := p in head && head[p].pinuse;
    var h1 := head[p := Head(size, pinuse, true)];
    h1[p + size := if p + size in h1 then h1[p + size].(pinuse := true) else Head(0, true, false)]
  }

  function ClearPinuse(head: Heads, p: int): (h: Heads) {
    if p in head then head[p := head[p].(pinuse := false)] else head
  }

  lemma {:induction false} LeastExists(m: map<int, int>, candidates: set<int>, x: int) returns (p: int)
    requires x in candidates && candidates <= m.Keys
    ensures p in candidates && forall a {:trigger a in candidates} | a in candidates :: m[p] <= m[a]
    decreases candidates
  {
    p := x;
    if y :| y in candidates - {x} {
      var q := LeastExists(m, candidates - {x}, y);
      if m[q] < m[p] { p := q; }
      assert forall a {:trigger a in candidates} | a in candidates :: a == x || a in candidates - {x};
    } else {
      assert forall a {:trigger a in candidates} | a in candidates :: a == x || a in candidates - {x};
    }
  }

  /** The candidate with the smallest size. */
  method LeastOf(m: map<int, int>, candidates: set<int>, x: int) returns (p: int)
    requires x in candidates && candidates <= m.Keys
    ensures p in candidates && forall a {:trigger a in candidates} | a in candidates :: m[p] <= m[a]
  {
    ghost var q := LeastExists(m, candidates, x);
    p :| p in candidates && forall a | a in candidates :: m[p] <= m[a];
  }

  /** The tree bins hold exactly the large chunks. */
  ghost predicate InTries(k: Sizes, l: TreeBins.Layout, tries: seq<TreeBins.Trie>, binned: map<int, int>) {
    && TreeBins.GoodBins(l, tries)
    && l.bits == k.bits
    && l.first[0] == k.large
    && (forall a, size {:trigger TreeBins.Binned(tries, a, size)} ::
          TreeBins.Binned(tries, a, size) <==> a in binned && binned[a] == size && k.large <= size)
  }

  /** Every well-formed heap has tree bins that hold exactly its large chunks, whatever the layout. */
  lemma TriesExist(k: Sizes, g: Segment, s: State, t: Tiles, l: TreeBins.Layout) returns (tries: seq<TreeBins.Trie>)
    requires GoodSizes(k) && Ok(g, s, t) && g.end < TreeBins.Pow2(k.bits)
    requires TreeBins.Fits(l) && l.bits == k.bits && l.first[0] == k.large
    ensures InTries(k, l, tries, s.binned)
  {
    var large := map a | a in s.binned && k.large <= s.binned[a] :: s.binned[a];
    forall a {:trigger large[a]} | a in large
      ensures large[a] < TreeBins.Pow2(k.bits)
    {
      Positive(g, s, t, a);
    }
    tries := TreeBins.BinsFor(l, large);
  }

  /** There is such a layout for all sizes: a single bin. */
  lemma LayoutExists(k: Sizes)
    requires GoodSizes(k)
    ensures var l := TreeBins.Layout(k.bits, [k.large], [0], [0]);
            TreeBins.Fits(l) && l.bits == k.bits && l.first[0] == k.large
  {
    var l := TreeBins.Layout(k.bits, [k.large], [0], [0]);
    assert TreeBins.Pow2(0) == 1;
    assert TreeBins.Low(l, 0) == 0;
  }

  /** Comparing remainders as unsigned words decides between the tree chunk and the victim. */
  lemma LargeChoice(k: Sizes, s: State, l: TreeBins.Layout, tries: seq<TreeBins.Trie>, nb: int, v: TreeBins.Trie, rsize: int)
    requires InTries(k, l, tries, s.binned) && 0 < nb < TreeBins.Pow2(k.bits) && 0 <= s.dvsize < TreeBins.Pow2(k.bits)
    requires v.Node? ==> TreeBins.Binned(tries, v.addr, v.size) && nb <= v.size < TreeBins.Pow2(k.bits) && rsize == v.size - nb
    requires forall a, size :: TreeBins.Binned(tries, a, size) && nb <= size ==> v.Node? && v.size <= size
    requires k.large <= nb && 0 !in s.binned && s.top !in s.binned && s.dv !in s.binned
    ensures v.Node? && rsize < TreeBins.Minus(k.bits, s.dvsize, nb) ==>
              Chosen(k, s, nb, false, v.addr) && v.addr in s.binned && s.binned[v.addr] == v.size
    ensures !(v.Node? && rsize < TreeBins.Minus(k.bits, s.dvsize, nb)) ==> Passed(k, s, nb, false)
  {
    assert forall a {:trigger s.binned[a]} | a in s.binned && nb <= s.binned[a] :: TreeBins.Binned(tries, a, s.binned[a]);
  }

  lemma NoTrees(k: Sizes, s: State, l: TreeBins.Layout, tries: seq<TreeBins.Trie>)
    requires InTries(k, l, tries, s.binned) && !TreeBins.AnyTree(tries)
    ensures forall a {:trigger s.binned[a]} | a in s.binned :: s.binned[a] < k.large
  {
    assert forall a {:trigger s.binned[a]} | a in s.binned && k.large <= s.binned[a] :: TreeBins.Binned(tries, a, s.binned[a]);
  }

  lemma NothingBinned(k: Sizes, s: State, l: TreeBins.Layout, tries: seq<TreeBins.Trie>, nb: int)
    requires InTries(k, l, tries, s.binned) && k.large <= nb
    requires TreeBins.AnyTree(tries) ==> forall a {:trigger a in s.binned} | a in s.binned :: s.binned[a] < nb
    ensures NoBinFits(s, nb) && Passed(k, s, nb, false)
  {
    assert forall a {:trigger s.binned[a]} | a in s.binned && nb <= s.binned[a] :: TreeBins.Binned(tries, a, s.binned[a]);
  }

  lemma MinOf(k: Sizes)
    requires GoodSizes(k)
    ensures 0 < k.min
  {
  }

  class Heap {
    const k: Sizes
    const g: Segment
    var top: int
    var topsize: int
    var dv: int
    var dvsize: int
    var head: Heads
    var foot: Feet
    var binned: map<int, int>
    ghost var tiles: Tiles

    ghost function S(): State
      reads this
    {
      State(top, topsize, dv, dvsize, head, foot, binned)
    }

    ghost predicate Valid()
      reads this
    {
      GoodSizes(k) && k.min == g.min && g.end < TreeBins.Pow2(k.bits) && Ok(g, S(), tiles)
    }

    /** A fresh segment is one free chunk, held as top. */
    constructor (k: Sizes, g: Segment)
      requires GoodSizes(k) && k.min == g.min && 0 < g.base < g.end < TreeBins.Pow2(k.bits)
      ensures this.k == k && this.g == g && Valid() && Live(tiles) == map[] && binned == map[]
    {
      hide GoodSizes;
      this.k, this.g := k, g;
      top, topsize, dv, dvsize := g.base, g.end - g.base, 0, 0;
      head, foot, binned := map[g.base := Head(g.end - g.base, true, false)], map[], map[];
      tiles := map[g.base := Tile(g.end - g.base, false)];
      new;
      assert Closed(g.end, tiles, g.base) && TagAt(g.end, top, tiles, head, foot, g.base);
      MinOf(k);
    }

    /** Takes the best fitting large chunk if it beats the designated victim; 0 otherwise. */
    method TmallocLarge(nb: int, l: TreeBins.Layout, tries: seq<TreeBins.Trie>) returns (p: int)
      requires Valid() && InTries(k, l, tries, binned) && k.large <= nb < TreeBins.Pow2(k.bits)
      modifies this
      ensures p == 0 ==> S() == old(S()) && Passed(k, S(), nb, false)
      ensures p != 0 ==> old(Chosen(k, S(), nb, false, p)) && p in old(head) && S() == Carved(k, old(S()), p, nb, false)
      ensures tiles == old(tiles)
    {
      hide Ok, TreeBins.GoodBins;
      var v, rsize := TreeBins.BestFit(l, tries, nb);
      DvBounds();
      LargeChoice(k, S(), l, tries, nb, v, rsize);
      if v.Node? && rsize < TreeBins.Minus(k.bits, dvsize, nb) {
        p := v.addr;
        hide Chosen;
        var r := p + nb;
        binned := binned - {p};
        if rsize < k.min {
          head := SetInuseAndPinuse(head, p, rsize + nb);
        } else {
          head := head[p := Head(nb, true, true)];
          head, foot := head[r := Head(rsize, true, false)], foot[r + rsize := rsize];
          binned := binned[r := rsize];
        }
      } else {
        p := 0;
      }
    }

    lemma DvBounds()
      requires Valid()
      ensures 0 <= dvsize < TreeBins.Pow2(k.bits) - 1 && 0 < topsize < TreeBins.Pow2(k.bits)
      ensures dv !in binned && (dv == 0 <==> dvsize == 0) && dv != top
      ensures 0 !in binned && top !in binned && top != 0 && top in head && head[top] == Head(topsize, true, false)
      ensures dv != 0 ==> dv in head && head[dv] == Head(dvsize, true, false)
      ensures forall a {:trigger a in binned} | a in binned ::
                a in head && head[a] == Head(binned[a], true, false) && binned[a] < TreeBins.Pow2(k.bits) - 1
    {
      assert 0 !in tiles;
      assert tiles[top].size > 0;
      if dv != 0 { assert tiles[dv].size > 0; FreeNeedsUsed(g, S(), tiles, dv); }
      FreeNeedsUsed(g, S(), tiles, top);
      forall a {:trigger a in binned} | a in binned
        ensures a in head && head[a] == Head(binned[a], true, false) && binned[a] < TreeBins.Pow2(k.bits) - 1
      {
        FreeNeedsUsed(g, S(), tiles, a);
      }
    }

    /** Cuts a small request from a binned chunk; what is left replaces the designated victim. */
    method SplitBinned(p: int, nb: int)
      requires Valid() && p in binned && k.min <= nb <= binned[p]
      modifies this
      ensures p in old(head) && S() == Carved(k, old(S()), p, nb, true)
      ensures tiles == old(tiles)
    {
      hide Ok;
      DvBounds();
      var rsize := binned[p] - nb;
      binned := binned - {p};
      if rsize < k.min {
        head := SetInuseAndPinuse(head, p, rsize + nb);
      } else {
        var r := p + nb;
        head := head[p := Head(nb, true, true)];
        head, foot := head[r := Head(rsize, true, false)], foot[r + rsize := rsize];
        if dvsize != 0 { binned := binned[dv := dvsize]; }
        dv, dvsize := r, rsize;
      }
    }

    /** Takes the smallest large chunk for a small request. */
    method TmallocSmall(nb: int, l: TreeBins.Layout, tries: seq<TreeBins.Trie>) returns (p: int)
      requires k.min <= nb < k.large && TreeBins.AnyTree(tries) && InTries(k, l, tries, binned)
      requires forall a {:trigger binned[a]} | a in binned && nb <= binned[a] :: k.large <= binned[a]
      requires Valid()
      modifies this
      ensures old(LeastBin(S(), nb, p)) && p in old(head) && S() == Carved(k, old(S()), p, nb, true)
      ensures tiles == old(tiles)
    {
      assert forall a {:trigger binned[a]} | a in binned && nb <= binned[a] :: TreeBins.Binned(tries, a, binned[a]);
      hide Ok;
      var v, rsize := TreeBins.LeastFit(l, tries, nb);
      p := v.addr;
      SplitBinned(p, nb);
    }

    /** Cuts a request from the designated victim. */
    method FromDv(nb: int, small: bool)
      requires Valid() && k.min <= nb <= dvsize
      modifies this
      ensures old(dv) in old(head) && S() == Carved(k, old(S()), old(dv), nb, small)
      ensures tiles == old(tiles)
    {
      hide Ok;
      DvBounds();
      assert binned - {dv} == binned;
      var rsize, p := dvsize - nb, dv;
      if rsize >= k.min {
        dv := p + nb;
        dvsize := rsize;
        head, foot := head[dv := Head(rsize, true, false)], foot[dv + rsize := rsize];
        head := head[p := Head(nb, true, true)];
      } else {
        var dvs := dvsize;
        dvsize := 0;
        dv := 0;
        head := SetInuseAndPinuse(head, p, dvs);
      }
    }

    /** Cuts a request from the top chunk. */
    method FromTop(nb: int, small: bool)
      requires Valid() && k.min <= nb < topsize
      modifies this
      ensures old(top) in old(head) && S() == Carved(k, old(S()), old(top), nb, small)
      ensures tiles == old(tiles)
    {
      hide Ok;
      DvBounds();
      var p, rsize := top, topsize - nb;
      topsize := rsize;
      top := p + nb;
      head := head[top := Head(rsize, true, false)];
      head := head[p := Head(nb, true, true)];
    }

    /** Cuts a small request from the least binned chunk that fits, when the victim does not. */
    method FromBins(nb: int, l: TreeBins.Layout, tries: seq<TreeBins.Trie>) returns (p: int)
      requires k.min <= nb < k.large && dvsize < nb && InTries(k, l, tries, binned)
      requires Valid()
      modifies this
      ensures p == 0 ==> S() == old(S()) && NoBinFits(S(), nb)
      ensures p != 0 ==> old(LeastBin(S(), nb, p)) && p in old(head) && S() == Carved(k, old(S()), p, nb, true)
      ensures tiles == old(tiles)
    {
      hide Ok, Multiple;
      DvBounds();
      p := 0;
      var fitting := set a | a in binned && nb <= binned[a] < k.large;
      if x :| x in fitting {
        p := LeastOf(binned, fitting, x);
        assert forall a {:trigger binned[a]} | a in binned && nb <= binned[a] :: a in fitting || k.large <= binned[a];
        SplitBinned(p, nb);
      } else if TreeBins.AnyTree(tries) {
        assert forall a {:trigger binned[a]} | a in binned && nb <= binned[a] :: a !in fitting;
        p := TmallocSmall(nb, l, tries);
      } else {
        NoTrees(k, S(), l, tries);
        assert forall a {:trigger binned[a]} | a in binned && nb <= binned[a] :: a !in fitting;
      }
    }

    /** What a small request tries before the designated victim. */
    method ServeSmall(nb: int, l: TreeBins.Layout, tries: seq<TreeBins.Trie>) returns (p: int)
      requires k.min <= nb < k.large && InTries(k, l, tries, binned)
      requires Valid()
      modifies this
      ensures p == 0 ==> S() == old(S()) && Passed(k, S(), nb, true)
      ensures p != 0 ==> old(Chosen(k, S(), nb, true, p)) && p in old(head) && S() == Carved(k, old(S()), p, nb, true)
      ensures tiles == old(tiles)
    {
      hide Ok, Multiple, InTries;
      DvBounds();
      p := 0;
      var size := if exists a :: a in binned && binned[a] == nb then nb else nb + k.word;
      if a :| a in binned && binned[a] == size && size < k.large {
        p := a;
        binned := binned - {p};
        head := SetInuseAndPinuse(head, p, size);
      } else if nb > dvsize {
        p := FromBins(nb, l, tries);
      }
    }

    /** Serves a request from the bins, the designated victim or top, in that order of preference. */
    method Serve(nb: int, small: bool, l: TreeBins.Layout, tries: seq<TreeBins.Trie>) returns (p: int)
      requires k.min <= nb && InTries(k, l, tries, binned)
      requires if small then nb < k.large else k.large <= nb < TreeBins.Pow2(k.bits)
      requires Valid()
      modifies this
      ensures old(Chosen(k, S(), nb, small, p))
      ensures p == 0 ==> S() == old(S())
      ensures p != 0 ==> p in old(head) && S() == Carved(k, old(S()), p, nb, small)
      ensures tiles == old(tiles)
    {
      hide Ok, Multiple, Chosen, Passed, TreeBins.GoodBins;
      DvBounds();
      p := 0;
      if small {
        p := ServeSmall(nb, l, tries);
      } else if nb < TreeBins.Pow2(k.bits) - 1 && TreeBins.AnyTree(tries) {
        p := TmallocLarge(nb, l, tries);
      } else {
        NothingBinned(k, S(), l, tries, nb);
      }
      if p == 0 {
        PassedThenChosen(k, S(), nb, small);
        if nb <= dvsize {
          p := dv;
          FromDv(nb, small);
        } else if nb < topsize {
          p := top;
          FromTop(nb, small);
        }
      }
    }

    /** Cuts a chunk for a request out of the heap; 0 means the request goes to the system. */
    method Malloc(bytes: nat, l: TreeBins.Layout, tries: seq<TreeBins.Trie>) returns (p: int)
      requires InTries(k, l, tries, binned)
      requires Valid()
      modifies this
      ensures Valid()
      ensures var nb := if IsTooBig(k, bytes) then TreeBins.Pow2(k.bits) - 1 else RequestToSize(k, bytes);
              && old(Chosen(k, S(), nb, IsSmallRequest(k, bytes), p))
              && (p == 0 ==> S() == old(S()) && Live(tiles) == old(Live(tiles)))
              && (p != 0 ==>
                    && p in old(head) && S() == Carved(k, old(S()), p, nb, IsSmallRequest(k, bytes))
                    && p in tiles && p !in old(Live(tiles)) && bytes + k.word <= nb <= tiles[p].size < nb + k.min
                    && Live(tiles) == old(Live(tiles))[p := tiles[p].size])
      ensures 0 < k.align && (p == 0 <==> Refused(k, old(S()), bytes))
      ensures p != 0 ==>
                p in old(tiles) && !old(tiles[p].used)
                && Cuts(k, old(S()), S(), p, old(tiles[p].size), RequestToSize(k, bytes), bytes + k.word + k.align <= k.large, tiles[p].size)
    {
      hide Ok, Multiple, RoundUp, InTries, Carved, Chosen, Refused, Cuts;
      RequestBounds(k, bytes);
      TopThere();
      MinPositive();
      var small := IsSmallRequest(k, bytes);
      var nb := if IsTooBig(k, bytes) then TreeBins.Pow2(k.bits) - 1 else RequestToSize(k, bytes);
      ghost var s, t := S(), tiles;
      p := Serve(nb, small, l, tries);
      if bytes + 4 * k.min < TreeBins.Pow2(k.bits) { ChosenNone(k, s, bytes, small, p); } else { RefusedBig(k, s, bytes); }
      if p != 0 {
        TooBigFails(k, g, s, t, nb, small, p);
        CarvedOk(k, g, s, t, nb, small, p);
        CarvedCuts(k, g, s, t, nb, small, p);
        ChosenIsFree(k, g, s, t, nb, small, p);
        tiles := CarvedTiles(k, s, t, p, nb);
        hide Live, CarvedTiles, CarvedSize;
      }
    }

    lemma TopThere()
      requires Valid()
      ensures top != 0
    {
      DvBounds();
    }

    /** The bits around a chunk in use, as the code reads them. */
    lemma Around(p: int)
      requires Valid() && p in tiles && tiles[p].used
      ensures p in head && head[p].cinuse && p != dv && p !in binned && p < top
      ensures Back(S(), p) in head && (if head[p].pinuse then Back(S(), p) == p else p in foot && Back(S(), p) == p - foot[p] && foot[p] > 0)
      ensures !head[p].pinuse && Back(S(), p) != dv ==> Back(S(), p) in binned
      ensures Next(S(), p) in head && head[Next(S(), p)].pinuse && Next(S(), p) > p && head[Next(S(), p)].size > 0
      ensures Next(S(), p) == top ==> !head[top].cinuse && head[top].size == topsize
      ensures !head[Next(S(), p)].cinuse && Next(S(), p) != top && Next(S(), p) != dv ==> Next(S(), p) in binned
      ensures head[Next(S(), p)].cinuse ==> Next(S(), p) !in binned && Next(S(), p) != dv
      ensures Next(S(), p) == dv ==> head[dv].size == dvsize && !head[dv].cinuse
      ensures dv != 0 ==> dv == Back(S(), p) || dv == Next(S(), p) || dv < Back(S(), p) || Ahead(S(), p) <= dv
      ensures Next(S(), p) != top ==> Ahead(S(), p) in head
      ensures Ahead(S(), p) == (if head[Next(S(), p)].cinuse then Next(S(), p) else Next(S(), p) + head[Next(S(), p)].size)
      ensures Next(S(), p) in tiles && tiles[Next(S(), p)].used == head[Next(S(), p)].cinuse && tiles[p].size == head[p].size
      ensures 0 < Back(S(), p) && top !in binned && dv !in binned && (head[Next(S(), p)].cinuse ==> Next(S(), p) < top)
    {
      DvBounds();
      After(g, S(), tiles, p);
      Beyond(g, S(), tiles, p);
      Before(g, S(), tiles, p);
      Between(g, S(), tiles, p);
      Positive(g, S(), tiles, top);
      hide Tiling, Coalesced, Tagged, TreeBins.Pow2;
    }

    /** Gives a chunk back, merged with the free chunks beside it. */
    method Dispose(chunk: int)
      requires chunk in tiles && tiles[chunk].used
      requires Valid()
      modifies this
      ensures Valid()
      ensures chunk in old(head) && old(Back(S(), chunk)) in old(head) && S() == Freed(old(S()), chunk)
      ensures Live(tiles) == old(Live(tiles)) - {chunk}
      ensures exists lo, hi :: Spans(old(tiles), chunk, lo, hi) && Refiled(g.end, old(S()), S(), lo, hi)
    {
      hide Ok, GoodSizes, Spans, Refiled;
      Around(chunk);
      FreedOk(g, S(), tiles, chunk);
      FreedMeans(g, S(), tiles, chunk);
      ghost var t' := Fuse(tiles, Back(S(), chunk), Ahead(S(), chunk), false);
      Consolidate(chunk);
      tiles := t';
    }

    /** The writes to heads, feet, bins, victim and top that giving a chunk back makes. */
    method Consolidate(chunk: int)
      requires chunk in tiles && tiles[chunk].used
      requires Valid()
      modifies `top, `topsize, `dv, `dvsize, `head, `foot, `binned
      ensures chunk in old(head) && old(Back(S(), chunk)) in old(head) && S() == Freed(old(S()), chunk)
    {
      hide Ok, GoodSizes;
      Around(chunk);
      var top, topsize, dv, dvsize := this.top, this.topsize, this.dv, this.dvsize;
      var head, foot, binned := this.head, this.foot, this.binned;
      var p, psize := chunk, head[chunk].size;
      var next := p + psize;
      label done: {
        if !head[p].pinuse {
          var prevsize := foot[p];
          p := p - prevsize;
          psize := psize + prevsize;
          if p != dv {
            binned := binned - {p};
          } else if head[next].pinuse && head[next].cinuse {
            dvsize := psize;
            head := ClearPinuse(head, next);
            head, foot := head[p := Head(psize, true, false)], foot[p + psize := psize];
            break done;
          }
        }
        if !head[next].cinuse {
          if next == top {
            topsize := topsize + psize;
            top := p;
            head := head[p := Head(topsize, true, false)];
            if p == dv {
              dv := 0;
              dvsize := 0;
            }
            break done;
          } else if next == dv {
            dvsize := dvsize + psize;
            dv := p;
            head, foot := head[p := Head(dvsize, true, false)], foot[p + dvsize := dvsize];
            break done;
          } else {
            var nsize := head[next].size;
            psize := psize + nsize;
            binned := binned - {next};
            head, foot := head[p := Head(psize, true, false)], foot[p + psize := psize];
            if p == dv {
              dvsize := psize;
              break done;
            }
          }
        } else {
          head := ClearPinuse(head, next);
          head, foot := head[p := Head(psize, true, false)], foot[p + psize := psize];
        }
        binned := binned[p := psize];
      }
      ghost var lo := Back(S(), chunk);
      assert binned == if lo in binned then (this.binned - {lo, next})[lo := psize] else this.binned - {lo, next};
      assert State(top, topsize, dv, dvsize, head, foot, binned) == Freed(S(), chunk);
      this.top, this.topsize, this.dv, this.dvsize := top, topsize, dv, dvsize;
      this.head, this.foot, this.binned := head, foot, binned;
    }

    /** Splits a chunk in use in two. */
    method SplitUsed(p: int, nb: int)
      requires p in tiles && tiles[p].used && k.min <= nb && nb + k.min <= tiles[p].size
      requires Valid()
      modifies `head, `tiles
      ensures Valid()
      ensures p in tiles && tiles[p] == Tile(nb, true) && p + nb !in old(Live(tiles))
      ensures p + nb in tiles && tiles[p + nb] == Tile(old(tiles[p].size) - nb, true)
      ensures Live(tiles) == old(Live(tiles))[p := nb][p + nb := old(tiles[p].size) - nb]
    {
      hide Ok, GoodSizes;
      Around(p);
      SplitOk(g, S(), tiles, p, nb);
      var rsize := head[p].size - nb;
      var h := SetInuse(head, p, nb);
      h := SetInuse(h, p + nb, rsize);
      assert S().(head := h) == Split(S(), p, nb);
      head := h;
      tiles := Cut(tiles, p, nb, true);
    }

    /** Takes the free chunk after p, which is not top, into p. */
    method AbsorbNext(p: int)
      requires p in tiles && tiles[p].used && p in head && Next(S(), p) in tiles && !tiles[Next(S(), p)].used && Next(S(), p) != top
      requires Valid()
      modifies `head, `tiles, `dv, `dvsize, `binned
      ensures Valid()
      ensures p in tiles && tiles[p] == Tile(old(Ahead(S(), p)) - p, true)
      ensures Live(tiles) == old(Live(tiles))[p := old(Ahead(S(), p)) - p]
    {
      hide Ok, GoodSizes;
      Around(p);
      AbsorbedOk(g, S(), tiles, p);
      ghost var s' := Absorbed(S(), p);
      var next := p + head[p].size;
      var newsize := head[p].size + head[next].size;
      if next == dv {
        dvsize := 0;
        dv := 0;
      } else {
        binned := binned - {next};
      }
      head := SetInuse(head, p, newsize);
      tiles := Fuse(tiles, p, p + newsize, true);
      assert S() == s';
    }

    /** Gives back what lies behind the first nb bytes of a chunk in use. */
    method ReleaseTail(p: int, nb: int)
      requires p in tiles && tiles[p].used && k.min <= nb && nb + k.min <= tiles[p].size
      requires Valid()
      modifies this
      ensures Valid()
      ensures p in tiles && tiles[p] == Tile(nb, true) && Live(tiles) == old(Live(tiles))[p := nb]
    {
      hide Ok, GoodSizes;
      SplitUsed(p, nb);
      Dispose(p + nb);
      assert p in Live(tiles);
    }

    /** Resizes a chunk without moving it; false when it cannot grow where it is. */
    method TryRealloc(p: int, nb: int) returns (ok: bool)
      requires p in tiles && tiles[p].used && k.min <= nb
      requires Valid()
      modifies this
      ensures Valid()
      ensures ok <==> old(var next := p + tiles[p].size;
                          || nb <= tiles[p].size
                          || (next == top && nb < tiles[p].size + topsize)
                          || (next != top && next in tiles && !tiles[next].used && nb <= tiles[p].size + tiles[next].size))
      ensures !ok ==> S() == old(S()) && tiles == old(tiles)
      ensures ok ==> p in tiles && nb <= tiles[p].size < nb + k.min && Live(tiles) == old(Live(tiles))[p := tiles[p].size]
    {
      hide Ok, Fuse, Cut, GoodSizes;
      Around(p);
      InSegment(p);
      InSegment(Next(S(), p));
      MinPositive();
      var oldsize := head[p].size;
      var next := p + oldsize;
      ok := false;
      if oldsize >= nb {
        var rsize := oldsize - nb;
        if rsize >= k.min { ReleaseTail(p, nb); }
        ok := true;
      } else if next == top {
        if oldsize + topsize > nb {
          GrowIntoTop(p, nb);
          ok := true;
        }
      } else if next == dv {
        if oldsize + dvsize >= nb {
          if oldsize + dvsize - nb >= k.min {
            GrowIntoDv(p, nb);
          } else {
            AbsorbNext(p);
          }
          ok := true;
        }
      } else if !head[next].cinuse {
        var nextsize := head[next].size;
        if oldsize + nextsize >= nb {
          var rsize := oldsize + nextsize - nb;
          AbsorbNext(p);
          if rsize >= k.min { ReleaseTail(p, nb); }
          ok := true;
        }
      }
      assert ok ==> p in Live(tiles);
    }

    lemma InSegment(p: int)
      requires Valid() && p in tiles
      ensures 0 < p < p + tiles[p].size < TreeBins.Pow2(k.bits) && p in head && head[p].size == tiles[p].size
    {
      assert TagAt(g.end, top, tiles, head, foot, p);
    }

    /** No chunk in use before p was cut lies inside p. */
    lemma Interior(p: int, before: map<int, int>)
      requires Valid() && p in tiles && p !in before && before.Keys <= Live(tiles).Keys
      ensures forall a {:trigger a in before} :: a in before ==> !(p <= a < p + tiles[p].size)
    {
      hide Coalesced, Tagged, FiledIn, GoodSizes;
      assert forall a {:trigger a in before} :: a in before ==> a in Live(tiles) && tiles[a].size > 0;
    }

    lemma MinPositive()
      requires Valid()
      ensures 0 < k.word < k.min && 0 < k.align <= k.min && 0 < k.bits && 8 * k.min <= TreeBins.Pow2(k.bits)
    {
    }

    /** p grown over the front of top. */
    method GrowIntoTop(p: int, nb: int)
      requires p in tiles && tiles[p].used && p in head && Next(S(), p) == top && k.min <= nb < tiles[p].size + topsize
      requires Valid()
      modifies `head, `tiles, `top, `topsize
      ensures Valid()
      ensures top == p + nb && topsize == old(tiles[p].size + topsize) - nb
      ensures p in tiles && tiles[p] == Tile(nb, true) && Live(tiles) == old(Live(tiles))[p := nb]
    {
      hide Ok, GoodSizes;
      Around(p);
      TopIsFree();
      IntoTopOk(g, S(), tiles, p, nb);
      MinPositive();
      var newtopsize := head[p].size + topsize - nb;
      var newtop := p + nb;
      var h := SetInuse(head, p, nb);
      h := h[newtop := Head(newtopsize, true, false)];
      assert State(newtop, newtopsize, dv, dvsize, h, foot, binned) == IntoTop(S(), p, nb);
      ghost var t' := Cut(Fuse(tiles, p, g.end, true), p, nb, false);
      assert p in t' && t'[p] == Tile(nb, true);
      head, top, topsize := h, newtop, newtopsize;
      tiles := t';
    }

    lemma TopIsFree()
      requires Valid()
      ensures top in tiles && !tiles[top].used
      ensures dv != 0 ==> dv in tiles && !tiles[dv].used
      ensures forall a {:trigger a in binned} | a in binned :: a in tiles && !tiles[a].used
    {
    }

    /** p grown over the front of the designated victim, which keeps the rest. */
    method GrowIntoDv(p: int, nb: int)
      requires p in tiles && tiles[p].used && p in head && Next(S(), p) == dv && dv != top && k.min <= nb
      requires nb + k.min <= Ahead(S(), p) - p
      requires Valid()
      modifies `head, `foot, `tiles, `dv, `dvsize
      ensures Valid()
      ensures dv == p + nb && dvsize == old(tiles[p].size + dvsize) - nb
      ensures p in tiles && tiles[p] == Tile(nb, true) && Live(tiles) == old(Live(tiles))[p := nb]
    {
      hide Ok, GoodSizes, Live, Tiling, Coalesced, Tagged, Filed;
      Around(p);
      TopIsFree();
      IntoDvOk(g, S(), tiles, p, nb);
      MinPositive();
      var dsize := head[p].size + dvsize - nb;
      var r := p + nb;
      var n := r + dsize;
      var h := SetInuse(head, p, nb);
      var f := foot[n := dsize];
      h := h[r := Head(dsize, true, false)];
      h := ClearPinuse(h, n);
      assert State(top, topsize, r, dsize, h, f, binned) == IntoDv(S(), p, nb);
      ghost var t' := Cut(Fuse(tiles, p, n, true), p, nb, false);
      assert p in t' && t'[p] == Tile(nb, true);
      head, foot, dv, dvsize := h, f, r, dsize;
      tiles := t';
    }

    /** Joins the chunk in use after p to p. */
    method JoinNext(p: int)
      requires p in tiles && tiles[p].used && p in head && Next(S(), p) in tiles && tiles[Next(S(), p)].used
      requires Valid()
      modifies `head, `tiles
      ensures Valid()
      ensures p in tiles && tiles[p].used
      ensures Live(tiles) == old(Live(tiles))[p := tiles[p].size] - {old(Next(S(), p))}
    {
      hide Ok, GoodSizes;
      Around(p);
      JoinedOk(g, S(), tiles, p);
      var next := p + head[p].size;
      var newsize := head[next].size + head[p].size;
      Around(next);
      var h := SetInuse(head, p, newsize);
      assert S().(head := h) == Joined(S(), p);
      ghost var t' := Fuse(tiles, p, p + newsize, true);
      assert p in t' && t'[p].used;
      head := h;
      tiles := t';
    }
  }
}
