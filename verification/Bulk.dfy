/** Aligned, bulk and array allocation on top of one heap. */
module Bulk {
  import opened Chunks
  import opened Dlmalloc
  import TreeBins

  // ------------------------------------------------------------------ aligned allocation

  function Log2(x: nat): (n: nat)
    requires 0 < x
    ensures TreeBins.Pow2(n) <= x < TreeBins.Pow2(n + 1)
  {
    if x == 1 then 0 else Log2(x / 2) + 1
  }

  /** The alignment actually used: two shifted left by the index of the top bit, in a word. */
  function RoundAlignment(k: Sizes, alignment: nat): (a: nat)
    requires 1 < k.min
  {
    var least := if alignment < k.min then k.min else alignment;
    var n := Log2(least - 1) + 1;
    if n < k.bits then TreeBins.Pow2(n) else 0
  }

  lemma Pow2Increasing(m: nat, n: nat)
    requires m <= n
    ensures TreeBins.Pow2(m) <= TreeBins.Pow2(n)
    decreases n - m
  {
    if m < n { Pow2Increasing(m, n - 1); }
  }

  /** Rounding to a power of two reaches the alignment asked for, and stays below twice it,
      exactly when the alignment is not above the top bit of a word. */
  lemma RoundAlignmentWorks(k: Sizes, alignment: nat)
    requires 1 < k.min && 0 < k.bits
    ensures var least := if alignment < k.min then k.min else alignment;
            least <= TreeBins.Pow2(k.bits - 1) <==>
              least <= RoundAlignment(k, alignment) < 2 * least && exists n: nat :: RoundAlignment(k, alignment) == TreeBins.Pow2(n)
  {
    var least := if alignment < k.min then k.min else alignment;
    var n := Log2(least - 1) + 1;
    var half := TreeBins.Pow2(k.bits - 1);
    hide Log2, GoodSizes;
    if n < k.bits {
      Pow2Increasing(n, k.bits - 1);
      assert TreeBins.Pow2(n) == 2 * TreeBins.Pow2(n - 1);
    } else {
      Pow2Increasing(k.bits - 1, n - 1);
    }
  }

  /** The start of the body of a chunk. */
  function Mem(k: Sizes, p: int): (mem: int) {
    p + 2 * k.word
  }

  lemma AlignedIsMultiple(x: nat, a: nat)
    requires 0 < a
    ensures Multiple(RoundUp(x, a), a) && Multiple(RoundUp(x, a) + a, a)
  {
    var q := (x + a - 1) / a;
    assert RoundUp(x, a) == q * a;
    assert q * a + a == (q + 1) * a;
  }

  /** Gives back what lies before an aligned spot of a chunk that leaves room for nb bytes after
      any such spot. */
  method AlignFront(h: Heap, p: int, a: nat, nb: nat) returns (q: int)
    requires p in h.tiles && h.tiles[p].used && h.k.min <= a && h.k.min <= nb && nb + a + h.k.min <= h.tiles[p].size
    requires h.Valid()
    modifies h
    ensures h.Valid()
    ensures q in h.tiles && h.tiles[q].used && (q == p || q !in old(Live(h.tiles)))
    ensures Live(h.tiles) == (old(Live(h.tiles)) - {p})[q := h.tiles[q].size]
    ensures nb <= h.tiles[q].size && (q == p || p + h.k.min <= q) && Multiple(Mem(h.k, q), a)
  {
    hide Ok, Multiple, RoundUp, GoodSizes;
    var k := h.k;
    h.MinPositive();
    h.InSegment(p);
    var mem := Mem(k, p);
    AlignedIsMultiple(mem, a);
    q := p;
    if RoundUp(mem, a) != mem {
      RoundUpBounds(mem, a);
      var br := RoundUp(mem, a) - 2 * k.word;
      var pos := if br - p >= k.min then br else br + a;
      var leadsize := pos - p;
      h.SplitUsed(p, leadsize);
      h.Dispose(p);
      q := pos;
      assert q in Live(h.tiles);
    }
  }

  /** Gives back what lies after the first nb bytes, when that is more than a least chunk. */
  method TrimTail(h: Heap, p: int, nb: nat)
    requires p in h.tiles && h.tiles[p].used && h.k.min <= nb <= h.tiles[p].size
    requires h.Valid()
    modifies h
    ensures h.Valid()
    ensures p in h.tiles && h.tiles[p].used && nb <= h.tiles[p].size <= nb + h.k.min
    ensures Live(h.tiles) == old(Live(h.tiles))[p := h.tiles[p].size]
  {
    hide Ok, GoodSizes;
    h.InSegment(p);
    h.MinPositive();
    var size := h.head[p].size;
    if size > nb + h.k.min { h.ReleaseTail(p, nb); }
    assert p in Live(h.tiles);
  }

  /** An alignment above the top bit of a word rounds to 0, any other to a least chunk or more. */
  lemma RoundsToZero(k: Sizes, alignment: nat)
    requires GoodSizes(k)
    ensures 1 < k.min
    ensures RoundAlignment(k, alignment) == 0 <==> 2 * alignment > TreeBins.Pow2(k.bits)
    ensures RoundAlignment(k, alignment) != 0 ==> k.min <= RoundAlignment(k, alignment)
    ensures 2 * RoundAlignment(k, alignment) <= TreeBins.Pow2(k.bits)
  {
    RoundAlignmentWorks(k, alignment);
    hide Log2, Multiple;
    var least := if alignment < k.min then k.min else alignment;
    var n := Log2(least - 1) + 1;
    if n < k.bits { Pow2Increasing(n, k.bits - 1); }
  }

  /** A chunk whose body is aligned; 0 when the heap cannot serve it. For an alignment
      that rounds to 0 the masks leave nothing of an address: the spot computed is that of a body at
      0, and the call is lost there, the chunk served still in use. */
  method Memalign(h: Heap, alignment: nat, bytes: nat, l: TreeBins.Layout, tries: seq<TreeBins.Trie>) returns (p: int, lost: bool)
    requires InTries(h.k, l, tries, h.binned)
    requires h.Valid()
    modifies h
    ensures h.Valid()
    ensures lost <==> p != 0 && 2 * alignment > TreeBins.Pow2(h.k.bits)
    ensures 1 < h.k.min && 0 < h.k.align
    ensures p == 0 ==> Live(h.tiles) == old(Live(h.tiles))
    ensures var a := RoundAlignment(h.k, alignment);
            p == 0 <==> bytes + a + 4 * h.k.min >= TreeBins.Pow2(h.k.bits)
                        || Refused(h.k, old(h.S()), RequestToSize(h.k, bytes) + a + h.k.min - h.k.word)
    ensures p != 0 ==>
              && p in h.tiles && p !in old(Live(h.tiles))
              && Live(h.tiles) == old(Live(h.tiles))[p := h.tiles[p].size]
    ensures p != 0 && !lost ==>
              && bytes + h.k.word <= h.tiles[p].size <= RequestToSize(h.k, bytes) + h.k.min
              && Multiple(p + 2 * h.k.word, RoundAlignment(h.k, alignment))
  {
    hide Ok, Multiple, RoundUp, InTries, Chosen, Carved, Log2, RoundAlignment, Refused, Cuts;
    h.MinPositive();
    var k := h.k;
    RoundsToZero(k, alignment);
    var a := RoundAlignment(k, alignment);
    lost := false;
    if bytes + a + 4 * k.min >= TreeBins.Pow2(k.bits) {
      p := 0;
      return;
    }
    RequestBounds(k, bytes);
    var nb := RequestToSize(k, bytes);
    var req := nb + a + k.min - k.word;
    RequestBounds(k, req);
    p := h.Malloc(req, l, tries);
    if p != 0 {
      assert p in Live(h.tiles);
      lost := a == 0;
      if !lost {
        h.InSegment(p);
        p := AlignFront(h, p, a, nb);
        TrimTail(h, p, nb);
      }
    }
  }

  // ------------------------------------------------------------------ several elements in one chunk

  function ElementSize(k: Sizes, sizes: seq<nat>, same: bool, i: nat): (size: nat)
    requires 0 < k.align && i < |sizes|
  {
    RequestToSize(k, if same then sizes[0] else sizes[i])
  }

  /** The bytes before element n. */
  function Contents(k: Sizes, sizes: seq<nat>, same: bool, n: nat): (size: nat)
    requires 0 < k.align && n <= |sizes|
  {
    if n == 0 then 0 else Contents(k, sizes, same, n - 1) + ElementSize(k, sizes, same, n - 1)
  }

  lemma {:induction false} ContentsGrow(k: Sizes, sizes: seq<nat>, same: bool, m: nat, n: nat)
    requires GoodSizes(k) && m < n <= |sizes|
    ensures Contents(k, sizes, same, m) + k.min <= Contents(k, sizes, same, n)
    decreases n
  {
    hide Multiple, RoundUp;
    RequestBounds(k, if same then sizes[0] else sizes[n - 1]);
    if m < n - 1 { ContentsGrow(k, sizes, same, m, n - 1); }
  }

  function ArraySize(k: Sizes, n: nat): (size: nat)
    requires 0 < k.align
  {
    RequestToSize(k, n * k.word)
  }

  /** A sum reduced to a word. */
  function Wrapped(total: nat, words: nat): (w: nat)
    requires 0 < words
    ensures w < words && (total < words <==> w == total)
  {
    if total < words then total else Wrapped(total - words, words)
  }

  /** The sum of the pieces' sizes. */
  function Total(k: Sizes, sizes: seq<nat>, same: bool, arrayGiven: bool): (size: nat)
    requires 0 < k.align
  {
    Contents(k, sizes, same, |sizes|) + if arrayGiven then 0 else ArraySize(k, |sizes|)
  }

  /** The same sum as the code computes it, in words. */
  function TotalWord(k: Sizes, sizes: seq<nat>, same: bool, arrayGiven: bool): (size: nat)
    requires 0 < k.align
  {
    var words := TreeBins.Pow2(k.bits);
    var behind := if arrayGiven then 0 else Wrapped(RequestToSize(k, Wrapped(|sizes| * k.word, words)), words);
    Wrapped(Wrapped(Contents(k, sizes, same, |sizes|), words) + behind, words)
  }

  /** The request for the aggregate chunk, an unsigned difference. */
  function AggregateRequest(k: Sizes, sizes: seq<nat>, same: bool, arrayGiven: bool): (req: nat)
    requires 0 < k.align && k.word <= TreeBins.Pow2(k.bits)
  {
    var size := TotalWord(k, sizes, same, arrayGiven);
    if size >= k.word then size - k.word else size - k.word + TreeBins.Pow2(k.bits)
  }

  lemma TotalFits(k: Sizes, sizes: seq<nat>, same: bool, arrayGiven: bool)
    requires GoodSizes(k) && 0 < |sizes| && Total(k, sizes, same, arrayGiven) < TreeBins.Pow2(k.bits)
    ensures TotalWord(k, sizes, same, arrayGiven) == Total(k, sizes, same, arrayGiven)
    ensures k.min <= Total(k, sizes, same, arrayGiven) && k.word <= TreeBins.Pow2(k.bits)
    ensures AggregateRequest(k, sizes, same, arrayGiven) == Total(k, sizes, same, arrayGiven) - k.word
  {
    hide Multiple, RoundUp, Contents, RequestToSize;
    var n := |sizes| * k.word;
    RequestBounds(k, n);
    assert Contents(k, sizes, same, 0) == 0 by { NoContents(k, sizes, same); }
    ContentsGrow(k, sizes, same, 0, |sizes|);
  }

  lemma NoContents(k: Sizes, sizes: seq<nat>, same: bool)
    requires 0 < k.align
    ensures Contents(k, sizes, same, 0) == 0
  {
  }

  /** A chunk that serves the aggregate request holds all the pieces exactly when the sum of
      their sizes does not wrap around a word. */
  lemma AggregateHoldsPieces(k: Sizes, sizes: seq<nat>, same: bool, arrayGiven: bool)
    requires GoodSizes(k) && 0 < |sizes| && !IsTooBig(k, AggregateRequest(k, sizes, same, arrayGiven))
    ensures Total(k, sizes, same, arrayGiven) <= RequestToSize(k, AggregateRequest(k, sizes, same, arrayGiven))
        <==> Total(k, sizes, same, arrayGiven) < TreeBins.Pow2(k.bits)
  {
    hide Multiple, RoundUp, Contents, TotalWord, Total;
    RequestBounds(k, AggregateRequest(k, sizes, same, arrayGiven));
    if Total(k, sizes, same, arrayGiven) < TreeBins.Pow2(k.bits) { TotalFits(k, sizes, same, arrayGiven); }
  }

  /** Two elements of half a word's range each: neither size wraps, the sum does, and the request is
      for a few least chunks. */
  lemma AggregateWraps(k: Sizes)
    requires GoodSizes(k)
    ensures k.word <= TreeBins.Pow2(k.bits)
    ensures var half := TreeBins.Pow2(k.bits - 1);
            var req := AggregateRequest(k, [half, half], false, true);
            && !WrapsAlone(k, [half, half], false, 0) && !WrapsAlone(k, [half, half], false, 1)
            && !IsTooBig(k, req) && RequestToSize(k, req) < 5 * k.min && TreeBins.Pow2(k.bits) < Total(k, [half, half], false, true)
  {
    hide Multiple, RoundUp, RequestToSize, Contents;
    var half, words := TreeBins.Pow2(k.bits - 1), TreeBins.Pow2(k.bits);
    assert words == 2 * half;
    var sizes, piece := [half, half], RequestToSize(k, half);
    RequestBounds(k, half);
    TwoElements(k, sizes);
    assert Wrapped(2 * piece, words) == 2 * piece - words;
    RequestBounds(k, 2 * piece - words - k.word);
  }

  lemma TwoElements(k: Sizes, sizes: seq<nat>)
    requires 0 < k.align && |sizes| == 2
    ensures Contents(k, sizes, false, 2) == RequestToSize(k, sizes[0]) + RequestToSize(k, sizes[1])
  {
    hide RequestToSize;
    assert Contents(k, sizes, false, 1) == Contents(k, sizes, false, 0) + ElementSize(k, sizes, false, 0);
  }

  /** The size of one element does not fit a word. */
  predicate WrapsAlone(k: Sizes, sizes: seq<nat>, same: bool, i: nat)
    requires 0 < k.align && i < |sizes|
  {
    TreeBins.Pow2(k.bits) <= ElementSize(k, sizes, same, i)
  }

  /** An element whose size wraps alone is given fewer bytes than it asked for. */
  lemma WrappedTooSmall(k: Sizes, sizes: seq<nat>, same: bool, i: nat)
    requires GoodSizes(k) && i < |sizes| && WrapsAlone(k, sizes, same, i)
    requires forall j {:trigger sizes[j]} :: 0 <= j < |sizes| ==> sizes[j] < TreeBins.Pow2(k.bits)
    ensures Wrapped(ElementSize(k, sizes, same, i), TreeBins.Pow2(k.bits)) < if same then sizes[0] else sizes[i]
  {
    hide Multiple, RoundUp, RequestToSize;
    RequestBounds(k, if same then sizes[0] else sizes[i]);
  }

  /** An element that needs more than the chunk has left, every one before it split off exactly. */
  ghost predicate Short(k: Sizes, sizes: seq<nat>, same: bool, size: nat, i: nat)
    requires 0 < k.align
  {
    && i < |sizes|
    && Contents(k, sizes, same, i) <= size < Contents(k, sizes, same, i) + ElementSize(k, sizes, same, i)
    && forall j: nat {:trigger WrapsAlone(k, sizes, same, j)} :: j < i ==> !WrapsAlone(k, sizes, same, j)
  }

  ghost predicate TooSmall(k: Sizes, sizes: seq<nat>, same: bool, arrayGiven: bool, size: nat)
    requires 0 < k.align
  {
    || (exists i :: Short(k, sizes, same, size, i))
    || (!arrayGiven && Contents(k, sizes, same, |sizes|) <= size < Contents(k, sizes, same, |sizes|) + ArraySize(k, |sizes|))
  }

  /** What is wrong once a chunk smaller than its pieces serves the request: some element needs more
      than is left for it, or the pointer array does. */
  lemma LostHow(k: Sizes, sizes: seq<nat>, same: bool, arrayGiven: bool, size: nat)
    requires 0 < k.align && size < Total(k, sizes, same, arrayGiven) && size < TreeBins.Pow2(k.bits)
    ensures TooSmall(k, sizes, same, arrayGiven, size)
  {
    hide Contents, ElementSize, ArraySize;
    if size < Contents(k, sizes, same, |sizes|) {
      var i := Crossing(k, sizes, same, |sizes|, size);
      forall j: nat {:trigger WrapsAlone(k, sizes, same, j)} | j < i
        ensures !WrapsAlone(k, sizes, same, j)
      {
        PieceBelow(k, sizes, same, j, i);
      }
      assert Short(k, sizes, same, size, i);
    }
  }

  lemma {:induction false} PieceBelow(k: Sizes, sizes: seq<nat>, same: bool, j: nat, i: nat)
    requires 0 < k.align && j < i <= |sizes|
    ensures ElementSize(k, sizes, same, j) <= Contents(k, sizes, same, i)
    decreases i
  {
    hide ElementSize;
    if j < i - 1 { PieceBelow(k, sizes, same, j, i - 1); }
  }

  lemma {:induction false} Crossing(k: Sizes, sizes: seq<nat>, same: bool, n: nat, size: nat) returns (i: nat)
    requires 0 < k.align && n <= |sizes| && size < Contents(k, sizes, same, n)
    ensures i < n && Contents(k, sizes, same, i) <= size < Contents(k, sizes, same, i) + ElementSize(k, sizes, same, i)
    decreases n
  {
    hide ElementSize;
    i := n - 1;
    if size < Contents(k, sizes, same, n - 1) { i := Crossing(k, sizes, same, n - 1, size); }
  }

  /** The chunks in use after the first i elements are laid out from p. */
  ghost function Laid(k: Sizes, sizes: seq<nat>, same: bool, p: int, live: map<int, int>, i: nat): map<int, int>
    requires 0 < k.align && i <= |sizes|
  {
    if i == 0 then live
    else Laid(k, sizes, same, p, live, i - 1)[p + Contents(k, sizes, same, i - 1) := ElementSize(k, sizes, same, i - 1)]
  }

  /** Every element is a chunk of its own size, ending where the next begins; nothing else changes. */
  lemma {:induction false} LaidSideBySide(k: Sizes, sizes: seq<nat>, same: bool, p: int, live: map<int, int>, i: nat)
    requires GoodSizes(k) && i <= |sizes|
    ensures forall j {:trigger Contents(k, sizes, same, j)} :: 0 <= j < i ==>
              && p + Contents(k, sizes, same, j) in Laid(k, sizes, same, p, live, i)
              && Laid(k, sizes, same, p, live, i)[p + Contents(k, sizes, same, j)] == ElementSize(k, sizes, same, j)
    ensures forall x {:trigger x in Laid(k, sizes, same, p, live, i)} :: (x < p || p + Contents(k, sizes, same, i) <= x) ==>
              && (x in Laid(k, sizes, same, p, live, i) <==> x in live)
              && (x in live ==> Laid(k, sizes, same, p, live, i)[x] == live[x])
  {
    hide GoodSizes, ElementSize, Contents;
    PositiveSizes(k);
    if i > 0 {
      LaidSideBySide(k, sizes, same, p, live, i - 1);
      ContentsGrow(k, sizes, same, i - 1, i);
      forall j {:trigger Contents(k, sizes, same, j)} | 0 <= j < i - 1
        ensures Contents(k, sizes, same, j) < Contents(k, sizes, same, i - 1)
      {
        ContentsGrow(k, sizes, same, j, i - 1);
      }
    }
  }

  lemma LaidNone(k: Sizes, sizes: seq<nat>, same: bool, p: int, t: Tiles)
    requires 0 < k.align && p in t && t[p].used
    ensures Contents(k, sizes, same, 0) == 0
    ensures Laid(k, sizes, same, p, Live(t), 0)[p := t[p].size] == Live(t)
  {
  }

  lemma LaidStep(k: Sizes, sizes: seq<nat>, same: bool, p: int, live: map<int, int>, i: nat, size: int)
    requires 0 < k.align && i < |sizes|
    ensures Contents(k, sizes, same, i + 1) == Contents(k, sizes, same, i) + ElementSize(k, sizes, same, i)
    ensures var at, piece := p + Contents(k, sizes, same, i), ElementSize(k, sizes, same, i);
            Laid(k, sizes, same, p, live, i)[at := size][at := piece] == Laid(k, sizes, same, p, live, i + 1)
  {
  }

  lemma PositiveSizes(k: Sizes)
    requires GoodSizes(k)
    ensures 0 < k.word < k.min && 0 < k.align
  {
  }

  /** Laying out the elements writes over whatever was said about the first of them. */
  lemma {:induction false} LaidOver(k: Sizes, sizes: seq<nat>, same: bool, p: int, live: map<int, int>, x: int, i: nat, y: int)
    requires 0 < k.align && i <= |sizes|
    ensures Laid(k, sizes, same, p, live[p := x], i)[p + Contents(k, sizes, same, i) := y]
         == Laid(k, sizes, same, p, live, i)[p + Contents(k, sizes, same, i) := y]
  {
    if i > 0 {
      LaidOver(k, sizes, same, p, live, x, i - 1, ElementSize(k, sizes, same, i - 1));
    }
  }

  /** Splits off the elements of an aggregate chunk one by one; the last takes what is left. */
  method SplitElements(h: Heap, sizes: seq<nat>, same: bool, p: int) returns (elements: seq<int>)
    requires 0 < |sizes| && 0 < h.k.align
    requires p in h.tiles && h.tiles[p].used && Contents(h.k, sizes, same, |sizes|) <= h.tiles[p].size
    requires h.Valid()
    modifies h
    ensures h.Valid()
    ensures |elements| == |sizes|
    ensures forall i {:trigger elements[i]} :: 0 <= i < |sizes| ==> elements[i] == p + Contents(h.k, sizes, same, i)
    ensures var n := |sizes| - 1;
            && elements[n] in h.tiles
            && h.tiles[elements[n]] == Tile(old(h.tiles[p].size) - Contents(h.k, sizes, same, n), true)
            && Live(h.tiles) == Laid(h.k, sizes, same, p, old(Live(h.tiles)), n)[elements[n] := h.tiles[elements[n]].size]
  {
    hide Ok, Multiple, RoundUp, IsTooBig, IsSmallRequest, GoodSizes, Live, RequestToSize, Laid, Contents, ElementSize;
    var k, n := h.k, |sizes|;
    var cur, i := p, 0;
    elements := [];
    ghost var size, live := h.tiles[p].size, Live(h.tiles);
    LaidNone(k, sizes, same, p, h.tiles);
    while i != n - 1
      invariant 0 <= i <= n - 1 && |elements| == i && h.Valid()
      invariant cur == p + Contents(k, sizes, same, i)
      invariant cur in h.tiles && h.tiles[cur] == Tile(size - Contents(k, sizes, same, i), true)
      invariant Live(h.tiles) == Laid(k, sizes, same, p, live, i)[cur := size - Contents(k, sizes, same, i)]
      invariant forall j {:trigger elements[j]} :: 0 <= j < i ==> elements[j] == p + Contents(k, sizes, same, j)
      decreases n - i
    {
      elements := elements + [cur];
      var piece := ElementSize(k, sizes, same, i);
      ContentsGrow(k, sizes, same, i, i + 1);
      ContentsGrow(k, sizes, same, i + 1, n);
      LaidStep(k, sizes, same, p, live, i, size - Contents(k, sizes, same, i));
      h.SplitUsed(cur, piece);
      cur := cur + piece;
      i := i + 1;
    }
    elements := elements + [cur];
  }

  lemma {:induction false} ContentsBelow(k: Sizes, sizes: seq<nat>, same: bool, n: nat)
    requires GoodSizes(k) && n <= |sizes|
    ensures forall i {:trigger Contents(k, sizes, same, i)} :: 0 <= i < n ==> Contents(k, sizes, same, i) < Contents(k, sizes, same, n)
  {
    hide Multiple;
    forall i {:trigger Contents(k, sizes, same, i)} | 0 <= i < n
      ensures Contents(k, sizes, same, i) < Contents(k, sizes, same, n)
    {
      ContentsGrow(k, sizes, same, i, n);
    }
  }

  /** What an array allocation leaves: the elements side by side, the pointer array behind them
      when it is not the caller's, and every other chunk as it was. */
  ghost predicate Allocated(k: Sizes, sizes: seq<nat>, same: bool, arrayGiven: bool, elements: seq<int>, arr: int,
                            before: map<int, int>, after: map<int, int>)
    requires 0 < k.align && 0 < |sizes|
  {
    var n := |sizes|;
    && |elements| == n
    && (forall i {:trigger elements[i]} :: 0 <= i < n ==>
          elements[i] == elements[0] + Contents(k, sizes, same, i) && elements[i] !in before && elements[i] in after)
    && ElementSize(k, sizes, same, n - 1) <= after[elements[n - 1]]
    && if arrayGiven then
      after == Laid(k, sizes, same, elements[0], before, n - 1)[elements[n - 1] := after[elements[n - 1]]]
    else
      && arr in after && arr == elements[0] + Contents(k, sizes, same, n) && arr !in before && ArraySize(k, n) <= after[arr]
      && after == Laid(k, sizes, same, elements[0], before[arr := after[arr]], n)
  }

  lemma ElementsIn(k: Sizes, sizes: seq<nat>, same: bool, p: int, live: map<int, int>, last: int)
    requires GoodSizes(k) && 0 < |sizes|
    ensures 0 < k.align && Contents(k, sizes, same, 0) == 0
    ensures var n := |sizes|;
            forall i {:trigger Contents(k, sizes, same, i)} :: 0 <= i < n ==>
              p + Contents(k, sizes, same, i) in
                Laid(k, sizes, same, p, live, n - 1)[p + Contents(k, sizes, same, n - 1) := last]
  {
    PositiveSizes(k);
    NoContents(k, sizes, same);
    hide GoodSizes, ElementSize, Laid, Contents;
    var n := |sizes|;
    forall i {:trigger Contents(k, sizes, same, i)} | 0 <= i < n
      ensures p + Contents(k, sizes, same, i) in
                Laid(k, sizes, same, p, live, n - 1)[p + Contents(k, sizes, same, n - 1) := last]
    {
      if i < n - 1 { LaidHolds(k, sizes, same, p, live, n - 1, i); }
    }
  }

  lemma LaidHolds(k: Sizes, sizes: seq<nat>, same: bool, p: int, live: map<int, int>, i: nat, j: nat)
    requires GoodSizes(k) && j < i <= |sizes|
    ensures 0 < k.align && p + Contents(k, sizes, same, j) in Laid(k, sizes, same, p, live, i)
  {
    LaidSideBySide(k, sizes, same, p, live, i);
    hide GoodSizes, ElementSize, Laid, Contents;
  }

  /** The elements are where they belong, in a stretch that held no chunk in use. */
  ghost predicate Placed(k: Sizes, sizes: seq<nat>, same: bool, p: int, size: int, elements: seq<int>, before: map<int, int>)
    requires 0 < k.align
  {
    && 0 < |sizes| == |elements|
    && Contents(k, sizes, same, |sizes|) <= size
    && (forall i {:trigger elements[i]} :: 0 <= i < |sizes| ==> elements[i] == p + Contents(k, sizes, same, i))
    && (forall a {:trigger a in before} :: a in before ==> !(p <= a < p + size))
  }

  lemma PlacedApart(k: Sizes, sizes: seq<nat>, same: bool, p: int, size: int, elements: seq<int>, before: map<int, int>)
    requires GoodSizes(k) && Placed(k, sizes, same, p, size, elements, before)
    ensures elements[0] == p
    ensures forall i {:trigger elements[i]} :: 0 <= i < |sizes| ==>
              elements[i] == p + Contents(k, sizes, same, i) && elements[i] !in before
  {
    hide GoodSizes, ElementSize;
    PositiveSizes(k);
    ContentsBelow(k, sizes, same, |sizes|);
    forall i {:trigger elements[i]} | 0 <= i < |sizes|
      ensures elements[i] !in before
    {
      assert Contents(k, sizes, same, i) < Contents(k, sizes, same, |sizes|);
    }
  }

  lemma AllocatedToCaller(k: Sizes, sizes: seq<nat>, same: bool, p: int, size: int, elements: seq<int>,
                          before: map<int, int>, after: map<int, int>, x: int, last: int)
    requires GoodSizes(k) && Placed(k, sizes, same, p, size, elements, before)
    requires last == size - Contents(k, sizes, same, |sizes| - 1)
    requires after == Laid(k, sizes, same, p, before[p := x], |sizes| - 1)[p + Contents(k, sizes, same, |sizes| - 1) := last]
    ensures 0 < k.align && Allocated(k, sizes, same, true, elements, 0, before, after)
  {
    hide GoodSizes, ElementSize, Laid, Contents;
    var n := |sizes|;
    PositiveSizes(k);
    LaidStep(k, sizes, same, p, before, n - 1, last);
    PlacedApart(k, sizes, same, p, size, elements, before);
    LaidOver(k, sizes, same, p, before, x, n - 1, last);
    ElementsIn(k, sizes, same, p, before, last);
  }

  lemma AllocatedWithArray(k: Sizes, sizes: seq<nat>, same: bool, p: int, size: int, elements: seq<int>, arr: int,
                           before: map<int, int>, after: map<int, int>, x: int, last: int)
    requires GoodSizes(k) && Placed(k, sizes, same, p, size, elements, before)
    requires arr == p + Contents(k, sizes, same, |sizes|) && arr < p + size
    requires ArraySize(k, |sizes|) <= size - Contents(k, sizes, same, |sizes|)
    requires last == Contents(k, sizes, same, |sizes|) - Contents(k, sizes, same, |sizes| - 1)
    requires after == Laid(k, sizes, same, p, before[arr := p + size - arr][p := x], |sizes| - 1)
                        [p + Contents(k, sizes, same, |sizes| - 1) := last]
    ensures 0 < k.align && Allocated(k, sizes, same, false, elements, arr, before, after)
  {
    hide GoodSizes, ElementSize, Laid, Contents, ArraySize;
    var n, live := |sizes|, before[arr := p + size - arr];
    PositiveSizes(k);
    LaidStep(k, sizes, same, p, live, n - 1, last);
    PlacedApart(k, sizes, same, p, size, elements, before);
    LaidOver(k, sizes, same, p, live, x, n - 1, last);
    ElementsIn(k, sizes, same, p, live, last);
    LaidSideBySide(k, sizes, same, p, live, n);
    assert after == Laid(k, sizes, same, p, live, n);
    assert arr in Laid(k, sizes, same, p, live, n) && after[arr] == p + size - arr;
  }

  /** Each element is a chunk of its own that holds its bytes and its overhead, and the next begins
      where it ends. */
  ghost predicate Seated(k: Sizes, sizes: seq<nat>, same: bool, elements: seq<int>, before: map<int, int>, after: map<int, int>) {
    && |elements| == |sizes|
    && (forall i {:trigger elements[i]} :: 0 <= i < |sizes| ==>
          elements[i] in after && elements[i] !in before && (if same then sizes[0] else sizes[i]) + k.word <= after[elements[i]])
    && (forall i, j {:trigger elements[i], elements[j]} :: 0 <= i && j == i + 1 < |sizes| ==> elements[i] + after[elements[i]] == elements[j])
  }

  /** Whatever was in use still is, and besides it exactly some new chunks. */
  ghost predicate Preserved(added: set<int>, before: map<int, int>, after: map<int, int>) {
    && (forall a {:trigger a in after} {:trigger a in before} :: a in after <==> a in before || a in added)
    && (forall a {:trigger after[a]} {:trigger before[a]} :: a in before ==> a in after && after[a] == before[a])
  }

  /** The elements side by side, the pointer array behind the last when it is not the caller's, and
      whatever was in use before as it was. */
  ghost predicate Arrayed(k: Sizes, sizes: seq<nat>, same: bool, arrayGiven: bool, elements: seq<int>, arr: int,
                          before: map<int, int>, after: map<int, int>)
    requires 0 < |sizes|
  {
    && Seated(k, sizes, same, elements, before, after)
    && Preserved((set a | a in elements) + (if arrayGiven then {} else {arr}), before, after)
    && (!arrayGiven ==>
          && arr in after && arr !in before && |sizes| * k.word + k.word <= after[arr]
          && elements[|sizes| - 1] + after[elements[|sizes| - 1]] == arr)
  }

  /** Laying out elements changes what is said at the elements alone. */
  lemma {:induction false} LaidOthers(k: Sizes, sizes: seq<nat>, same: bool, p: int, live: map<int, int>, i: nat, x: int)
    requires 0 < k.align && i <= |sizes|
    requires forall j {:trigger Contents(k, sizes, same, j)} :: 0 <= j < i ==> x != p + Contents(k, sizes, same, j)
    ensures x in Laid(k, sizes, same, p, live, i) <==> x in live
    ensures x in live ==> Laid(k, sizes, same, p, live, i)[x] == live[x]
  {
    hide ElementSize;
    if i > 0 {
      assert x != p + Contents(k, sizes, same, i - 1);
      LaidOthers(k, sizes, same, p, live, i - 1, x);
    }
  }

  lemma {:induction false} LaidKeys(k: Sizes, sizes: seq<nat>, same: bool, p: int, live: map<int, int>, i: nat, j: nat)
    requires GoodSizes(k) && j < i <= |sizes|
    ensures 0 < k.align
    ensures p + Contents(k, sizes, same, j) in Laid(k, sizes, same, p, live, i)
    ensures Laid(k, sizes, same, p, live, i)[p + Contents(k, sizes, same, j)] == ElementSize(k, sizes, same, j)
  {
    LaidSideBySide(k, sizes, same, p, live, i);
    hide GoodSizes, ElementSize, Laid, Contents;
  }

  lemma PieceHolds(k: Sizes, sizes: seq<nat>, same: bool, i: nat)
    requires GoodSizes(k) && i < |sizes|
    ensures 0 < k.align
    ensures (if same then sizes[0] else sizes[i]) + k.word <= ElementSize(k, sizes, same, i)
    ensures Contents(k, sizes, same, i + 1) == Contents(k, sizes, same, i) + ElementSize(k, sizes, same, i)
    ensures k.min <= ElementSize(k, sizes, same, i)
  {
    hide Multiple, RoundUp, RequestToSize;
    RequestBounds(k, if same then sizes[0] else sizes[i]);
  }

  lemma ArrayHolds(k: Sizes, n: nat)
    requires GoodSizes(k)
    ensures 0 < k.align && n * k.word + k.word <= ArraySize(k, n)
  {
    hide Multiple, RoundUp, RequestToSize;
    var bytes := n * k.word;
    RequestBounds(k, bytes);
  }

  /** The keys after laying out m elements, and what stands there. */
  lemma LaidMap(k: Sizes, sizes: seq<nat>, same: bool, p: int, live: map<int, int>, m: nat, elements: seq<int>)
    requires GoodSizes(k) && 0 < k.align && m == |elements| <= |sizes|
    requires forall i {:trigger elements[i]} :: 0 <= i < m ==> elements[i] == p + Contents(k, sizes, same, i)
    ensures var laid := Laid(k, sizes, same, p, live, m);
            && (forall i {:trigger elements[i]} :: 0 <= i < m ==> elements[i] in laid && laid[elements[i]] == ElementSize(k, sizes, same, i))
            && (forall a {:trigger a in laid} {:trigger a in live} :: a in laid <==> a in live || a in elements)
            && (forall a {:trigger laid[a]} {:trigger live[a]} :: a in live && a !in elements ==> a in laid && laid[a] == live[a])
  {
    hide GoodSizes, ElementSize, Contents, Laid, RequestToSize;
    var laid := Laid(k, sizes, same, p, live, m);
    forall i {:trigger elements[i]} | 0 <= i < m
      ensures elements[i] in laid && laid[elements[i]] == ElementSize(k, sizes, same, i)
    {
      LaidKeys(k, sizes, same, p, live, m, i);
    }
    forall a {:trigger a in laid} {:trigger a in live} | a !in elements
      ensures a in laid <==> a in live
      ensures a in live ==> laid[a] == live[a]
    {
      forall j {:trigger Contents(k, sizes, same, j)} | 0 <= j < m
        ensures a != p + Contents(k, sizes, same, j)
      {
        assert elements[j] in elements;
      }
      LaidOthers(k, sizes, same, p, live, m, a);
    }
  }

  /** Where element i begins and ends. */
  lemma PositionAt(k: Sizes, sizes: seq<nat>, same: bool, i: nat)
    requires GoodSizes(k) && i < |sizes|
    ensures 0 < k.align
    ensures Contents(k, sizes, same, i) + ElementSize(k, sizes, same, i) == Contents(k, sizes, same, i + 1)
    ensures (if same then sizes[0] else sizes[i]) + k.word <= ElementSize(k, sizes, same, i)
    ensures Contents(k, sizes, same, i) < Contents(k, sizes, same, |sizes|)
    ensures i < |sizes| - 1 ==> Contents(k, sizes, same, i) < Contents(k, sizes, same, |sizes| - 1)
  {
    hide GoodSizes, ElementSize, Contents, RequestToSize;
    PieceHolds(k, sizes, same, i);
    PositiveSizes(k);
    ContentsGrow(k, sizes, same, i, |sizes|);
    if i < |sizes| - 1 { ContentsGrow(k, sizes, same, i, |sizes| - 1); }
  }

  lemma ArrayedToCaller(k: Sizes, sizes: seq<nat>, same: bool, elements: seq<int>, before: map<int, int>, after: map<int, int>)
    requires GoodSizes(k) && 0 < k.align && 0 < |sizes| && Allocated(k, sizes, same, true, elements, 0, before, after)
    ensures Arrayed(k, sizes, same, true, elements, 0, before, after)
  {
    hide GoodSizes, ElementSize, Contents, Laid, RequestToSize, Preserved, Seated;
    var n, last := |sizes|, elements[|sizes| - 1];
    var most := elements[..n - 1];
    SeatedToCaller(k, sizes, same, elements, most, before, after);
    LaidMap(k, sizes, same, elements[0], before, n - 1, most);
    KeptWith((set a | a in most), last, before, Laid(k, sizes, same, elements[0], before, n - 1), after);
    OneMore(most, last, elements);
  }

  lemma OneMore(most: seq<int>, last: int, all: seq<int>)
    requires all == most + [last]
    ensures (set a | a in most) + {last} == (set a | a in all) + {}
  {
  }

  lemma SeatedToCaller(k: Sizes, sizes: seq<nat>, same: bool, elements: seq<int>, most: seq<int>, before: map<int, int>, after: map<int, int>)
    requires GoodSizes(k) && 0 < k.align && 0 < |sizes| && Allocated(k, sizes, same, true, elements, 0, before, after)
    requires |most| == |sizes| - 1 && forall i {:trigger most[i]} {:trigger elements[i]} :: 0 <= i < |most| ==> most[i] == elements[i]
    ensures Seated(k, sizes, same, elements, before, after)
  {
    hide GoodSizes, ElementSize, Contents, Laid, RequestToSize;
    var n, p := |sizes|, elements[0];
    LaidMap(k, sizes, same, p, before, n - 1, most);
    forall i {:trigger elements[i]} | 0 <= i < n
      ensures (if same then sizes[0] else sizes[i]) + k.word <= after[elements[i]]
      ensures i < n - 1 ==> after[elements[i]] == ElementSize(k, sizes, same, i)
    {
      PositionAt(k, sizes, same, i);
      if i < n - 1 { assert most[i] == elements[i] < elements[n - 1]; }
    }
    forall i, j {:trigger elements[i], elements[j]} | 0 <= i && j == i + 1 < n
      ensures elements[i] + after[elements[i]] == elements[j]
    {
      PositionAt(k, sizes, same, i);
    }
  }

  lemma KeptWith(added: set<int>, last: int, before: map<int, int>, laid: map<int, int>, after: map<int, int>)
    requires last in after && last !in before && after == laid[last := after[last]]
    requires forall a {:trigger a in laid} {:trigger a in before} :: a in laid <==> a in before || a in added
    requires forall a {:trigger laid[a]} {:trigger before[a]} :: a in before && a !in added ==> a in laid && laid[a] == before[a]
    requires forall a {:trigger a in added} :: a in added ==> a !in before
    ensures Preserved(added + {last}, before, after)
  {
  }

  lemma ArrayedWithArray(k: Sizes, sizes: seq<nat>, same: bool, elements: seq<int>, arr: int, before: map<int, int>, after: map<int, int>)
    requires GoodSizes(k) && 0 < k.align && 0 < |sizes| && Allocated(k, sizes, same, false, elements, arr, before, after)
    ensures Arrayed(k, sizes, same, false, elements, arr, before, after)
  {
    hide GoodSizes, ElementSize, Contents, Laid, RequestToSize, ArraySize, Preserved;
    var n := |sizes|;
    LaidMap(k, sizes, same, elements[0], before[arr := after[arr]], n, elements);
    ArrayHolds(k, n);
    forall i {:trigger elements[i]} | 0 <= i < n
      ensures (if same then sizes[0] else sizes[i]) + k.word <= after[elements[i]]
      ensures elements[i] != arr
    {
      PositionAt(k, sizes, same, i);
    }
    forall i, j {:trigger elements[i], elements[j]} | 0 <= i && j == i + 1 < n
      ensures elements[i] + after[elements[i]] == elements[j]
    {
      PositionAt(k, sizes, same, i);
    }
    PositionAt(k, sizes, same, n - 1);
    KeptTwice((set a | a in elements), arr, before, after);
  }

  lemma KeptTwice(added: set<int>, arr: int, before: map<int, int>, after: map<int, int>)
    requires arr in after && arr !in before && arr !in added
    requires var live := before[arr := after[arr]];
             && (forall a {:trigger a in after} {:trigger a in live} :: a in after <==> a in live || a in added)
             && (forall a {:trigger after[a]} {:trigger live[a]} :: a in live && a !in added ==> a in after && after[a] == live[a])
    requires forall a {:trigger a in added} :: a in added ==> a !in before
    ensures Preserved(added + {arr}, before, after)
  {
    var live := before[arr := after[arr]];
    assert forall a {:trigger a in live} {:trigger a in before} :: a in live <==> a in before || a == arr;
    assert forall a {:trigger before[a]} :: a in before ==> live[a] == before[a];
  }

  lemma UsedOf(t: Tiles, p: int)
    requires p in Live(t)
    ensures p in t && t[p].used
  {
  }

  lemma ArrayBounds(k: Sizes, n: nat)
    requires GoodSizes(k)
    ensures 0 < k.align && k.min <= ArraySize(k, n)
  {
    hide Multiple, RoundUp;
    RequestBounds(k, n * k.word);
  }

  /** One chunk split into elements, side by side; the pointer array, when it is not the
      caller's, takes what is left after them, else the last element does. When the sum of the sizes
      wraps, a chunk that serves the request is too small for its pieces, and the call is lost at the
      first of them that needs more than is left (LostHow). */
  method Ialloc(h: Heap, sizes: seq<nat>, same: bool, arrayGiven: bool, l: TreeBins.Layout, tries: seq<TreeBins.Trie>)
    returns (ok: bool, lost: bool, elements: seq<int>, arr: int)
    requires 0 < |sizes| && 0 < h.k.align
    requires InTries(h.k, l, tries, h.binned)
    requires h.Valid()
    modifies h
    ensures h.Valid()
    ensures h.k.word <= TreeBins.Pow2(h.k.bits) && (ok <==> !Refused(h.k, old(h.S()), AggregateRequest(h.k, sizes, same, arrayGiven)))
    ensures !ok ==> !lost && Live(h.tiles) == old(Live(h.tiles))
    ensures ok ==> (lost <==> TreeBins.Pow2(h.k.bits) <= Total(h.k, sizes, same, arrayGiven))
    ensures ok && !lost ==> Allocated(h.k, sizes, same, arrayGiven, elements, arr, old(Live(h.tiles)), Live(h.tiles))
    ensures ok && !lost ==> Arrayed(h.k, sizes, same, arrayGiven, elements, arr, old(Live(h.tiles)), Live(h.tiles))
    ensures lost ==>
              exists p {:trigger p in h.tiles} ::
                && p !in old(Live(h.tiles)) && p in h.tiles && 0 <= h.tiles[p].size
                && TooSmall(h.k, sizes, same, arrayGiven, h.tiles[p].size)
                && Live(h.tiles) == old(Live(h.tiles))[p := h.tiles[p].size]
  {
    hide Ok, Multiple, RoundUp, InTries, Chosen, Carved, GoodSizes, Allocated, IsTooBig, IsSmallRequest, Live, Total, TotalWord,
         AggregateRequest, TooSmall, Refused, Cuts, Arrayed;
    var k := h.k;
    arr, elements, lost := 0, [], false;
    h.MinPositive();
    var req := AggregateRequest(k, sizes, same, arrayGiven);
    if Total(k, sizes, same, arrayGiven) < TreeBins.Pow2(k.bits) { TotalFits(k, sizes, same, arrayGiven); }
    var p := h.Malloc(req, l, tries);
    ok := p != 0;
    if ok {
      UsedOf(h.tiles, p);
      h.InSegment(p);
      lost := h.head[p].size < Total(k, sizes, same, arrayGiven);
      if lost {
        LostHow(k, sizes, same, arrayGiven, h.tiles[p].size);
      } else {
        elements, arr := LayOut(h, sizes, same, arrayGiven, p, old(Live(h.tiles)));
      }
    }
  }

  /** The elements and the pointer array laid out in one chunk that was not in use before. */
  method LayOut(h: Heap, sizes: seq<nat>, same: bool, arrayGiven: bool, p: int, ghost before: map<int, int>)
    returns (elements: seq<int>, arr: int)
    requires 0 < |sizes| && 0 < h.k.align
    requires p in h.tiles && h.tiles[p].used && Total(h.k, sizes, same, arrayGiven) <= h.tiles[p].size
    requires p !in before && Live(h.tiles) == before[p := h.tiles[p].size]
    requires h.Valid()
    modifies h
    ensures h.Valid()
    ensures Allocated(h.k, sizes, same, arrayGiven, elements, arr, before, Live(h.tiles))
    ensures Arrayed(h.k, sizes, same, arrayGiven, elements, arr, before, Live(h.tiles))
  {
    hide Ok, Multiple, RoundUp, GoodSizes, Allocated, Arrayed, Contents, Laid, ElementSize, Live, ArraySize;
    var k, n := h.k, |sizes|;
    h.MinPositive();
    ContentsGrow(k, sizes, same, 0, n);
    ArrayBounds(k, n);
    h.Interior(p, before);
    arr := 0;
    ghost var total := h.tiles[p].size;
    var contents := Contents(k, sizes, same, n);
    if !arrayGiven {
      h.SplitUsed(p, contents);
      arr := p + contents;
      assert Live(h.tiles) == before[arr := p + total - arr][p := contents];
    }
    elements := SplitElements(h, sizes, same, p);
    if arrayGiven {
      AllocatedToCaller(k, sizes, same, p, total, elements, before, Live(h.tiles), total, h.tiles[elements[n - 1]].size);
      ArrayedToCaller(k, sizes, same, elements, before, Live(h.tiles));
    } else {
      AllocatedWithArray(k, sizes, same, p, total, elements, arr, before, Live(h.tiles), contents, h.tiles[elements[n - 1]].size);
      ArrayedWithArray(k, sizes, same, elements, arr, before, Live(h.tiles));
    }
  }

  // ------------------------------------------------------------------ freeing many chunks

  /** The chunks whose bodies a stretch of the array names; 0 names none. */
  ghost function Listed(k: Sizes, mems: seq<int>): set<int> {
    set x | x in mems && x != 0 :: x - 2 * k.word
  }

  ghost predicate NamedOnce(mems: seq<int>) {
    forall i, j {:trigger mems[i], mems[j]} :: 0 <= i < j < |mems| && mems[i] != 0 ==> mems[i] != mems[j]
  }

  lemma ListedRest(k: Sizes, mems: seq<int>)
    requires NamedOnce(mems) && 0 < |mems|
    ensures NamedOnce(mems[1..])
    ensures Listed(k, mems) == (if mems[0] == 0 then {} else {mems[0] - 2 * k.word}) + Listed(k, mems[1..])
    ensures mems[0] != 0 ==> mems[0] - 2 * k.word !in Listed(k, mems[1..])
  {
    assert mems == [mems[0]] + mems[1..];
    assert forall x {:trigger x in mems} {:trigger x in mems[1..]} :: x in mems <==> x == mems[0] || x in mems[1..];
    forall c {:trigger c in Listed(k, mems)}
      ensures c in Listed(k, mems) <==> c in (if mems[0] == 0 then {} else {mems[0] - 2 * k.word}) + Listed(k, mems[1..])
    {
      assert c in Listed(k, mems) <==> c + 2 * k.word in mems && c + 2 * k.word != 0;
      assert c in Listed(k, mems[1..]) <==> c + 2 * k.word in mems[1..] && c + 2 * k.word != 0;
    }
    forall x | x in mems[1..] && mems[0] != 0
      ensures x != mems[0]
    {
      var j :| 0 <= j < |mems| - 1 && mems[1..][j] == x;
      assert mems[j + 1] == x;
    }
  }

  /** Every chunk the array names is given back and nothing else; neighbours that follow each
      other in the array are joined first. */
  method BulkFree(h: Heap, mems: array<int>)
    requires NamedOnce(mems[..]) && Listed(h.k, mems[..]) <= Live(h.tiles).Keys
    requires h.Valid()
    modifies h, mems
    ensures h.Valid()
    ensures Live(h.tiles) == old(Live(h.tiles)) - old(Listed(h.k, mems[..]))
    ensures forall i {:trigger mems[i]} :: 0 <= i < mems.Length ==> mems[i] == 0
  {
    hide Ok, GoodSizes, Live, Listed, NamedOnce;
    var k := h.k;
    ghost var live, named := Live(h.tiles), Listed(k, mems[..]);
    var i := 0;
    assert mems[0..] == mems[..];
    while i != mems.Length
      invariant 0 <= i <= mems.Length && h.Valid()
      invariant NamedOnce(mems[i..]) && Listed(k, mems[i..]) <= Live(h.tiles).Keys
      invariant Live(h.tiles) - Listed(k, mems[i..]) == live - named
      invariant forall j {:trigger mems[j]} :: 0 <= j < i ==> mems[j] == 0
    {
      ghost var rest := mems[i..];
      ListedRest(k, rest);
      assert rest[1..] == mems[i + 1..];
      if mems[i] != 0 {
        var p := mems[i] - 2 * k.word;
        UsedOf(h.tiles, p);
        h.InSegment(p);
        mems[i] := 0;
        var next := p + h.head[p].size;
        if i + 1 != mems.Length && mems[i + 1] == Mem(k, next) {
          ListedRest(k, rest[1..]);
          assert rest[1..][1..] == mems[i + 2..];
          UsedOf(h.tiles, next);
          h.JoinNext(p);
          mems[i + 1] := Mem(k, p);
          Renamed(k, rest[1..], Mem(k, p));
          assert mems[i + 1..] == rest[1..][0 := Mem(k, p)];
        } else {
          h.Dispose(p);
        }
      }
      i := i + 1;
    }
    NoneListed(k);
  }

  lemma NoneListed(k: Sizes)
    ensures Listed(k, []) == {}
  {
  }

  /** Naming another chunk in the first place of a list. */
  lemma Renamed(k: Sizes, mems: seq<int>, m: int)
    requires NamedOnce(mems) && 0 < |mems| && mems[0] != 0 && m != 0 && m - 2 * k.word !in Listed(k, mems)
    ensures NamedOnce(mems[0 := m])
    ensures Listed(k, mems[0 := m]) == Listed(k, mems) - {mems[0] - 2 * k.word} + {m - 2 * k.word}
  {
    ListedRest(k, mems);
    var mems' := mems[0 := m];
    assert mems'[1..] == mems[1..];
    assert mems' == [m] + mems[1..];
    forall i, j {:trigger mems'[i], mems'[j]} | 0 <= i < j < |mems| && mems'[i] != 0
      ensures mems'[i] != mems'[j]
    {
      assert mems[j] in mems;
    }
    ListedRest(k, mems');
  }
}
