/** The tree bins of the allocator: an array of bitwise tries, one per size range, and the two
    searches that pick a chunk from them.  The code that inserts into and unlinks from a trie is
    not part of this model; a trie is anything that satisfies Placed. */
module TreeBins {

  /** A node is the first of the free chunks of its size; ring holds the others. */
  datatype Trie = Nil | Node(addr: int, size: nat, ring: set<int>, left: Trie, right: Trie)

  /** Bin i takes the sizes from first[i] up to first[i + 1].  Within a bin the bits of a size
      above the low bits - shift[i] are prefix[i], and shift[i] moves the next bit, which decides
      the first branch of the trie, to the top of a word. */
  datatype Layout = Layout(bits: nat, first: seq<nat>, shift: seq<nat>, prefix: seq<nat>)

  function Pow2(n: nat): (p: nat)
    ensures p > 0
  {
    if n == 0 then 1 else 2 * Pow2(n - 1)
  }

  ghost predicate Holds(t: Trie, addr: int, size: int) {
    t.Node? &&
    ((size == t.size && (addr == t.addr || addr in t.ring)) || Holds(t.left, addr, size) || Holds(t.right, addr, size))
  }

  /** The sizes of t lie in [lo, lo + 2^w), and each branch halves that range. */
  ghost predicate Placed(t: Trie, lo: int, w: nat) {
    t.Node? ==>
      && lo <= t.size < lo + Pow2(w)
      && (w == 0 ==> t.left.Nil? && t.right.Nil?)
      && (w > 0 ==> Placed(t.left, lo, w - 1) && Placed(t.right, lo + Pow2(w - 1), w - 1))
  }

  lemma PlacedBounds(t: Trie, lo: int, w: nat, addr: int, size: int)
    requires Placed(t, lo, w) && Holds(t, addr, size)
    ensures lo <= size < lo + Pow2(w)
  {
  }

  lemma BranchBounds(t: Trie, lo: int, w: nat)
    requires t.Node? && Placed(t, lo, w)
    ensures forall a, s {:trigger Holds(t.left, a, s)} :: Holds(t.left, a, s) ==>
              w > 0 && lo <= s < lo + Pow2(w - 1) && Holds(t, a, s)
    ensures forall a, s {:trigger Holds(t.right, a, s)} :: Holds(t.right, a, s) ==>
              w > 0 && lo + Pow2(w - 1) <= s < lo + Pow2(w) && Holds(t, a, s)
    ensures forall a, s {:trigger Holds(t, a, s)} :: Holds(t, a, s) ==>
              s == t.size || Holds(t.left, a, s) || Holds(t.right, a, s)
  {
    forall a, s | Holds(t.left, a, s)
      ensures w > 0 && lo <= s < lo + Pow2(w - 1)
    {
      PlacedBounds(t.left, lo, w - 1, a, s);
    }
    forall a, s | Holds(t.right, a, s)
      ensures w > 0 && lo + Pow2(w - 1) <= s < lo + Pow2(w)
    {
      PlacedBounds(t.right, lo + Pow2(w - 1), w - 1, a, s);
    }
  }

  ghost predicate GoodLayout(l: Layout) {
    && |l.first| == |l.shift| == |l.prefix| > 0
    && (forall i, j :: 0 <= i < j < |l.first| ==> l.first[i] < l.first[j])
    && (forall i {:trigger l.shift[i]} :: 0 <= i < |l.first| ==>
          l.first[i] < Pow2(l.bits) && l.shift[i] <= l.bits && l.prefix[i] < Pow2(l.shift[i]))
  }

  function Width(l: Layout, i: nat): (w: int)
    requires i < |l.shift|
  {
    l.bits - l.shift[i]
  }

  function Low(l: Layout, i: nat): (lo: int)
    requires i < |l.shift| == |l.prefix| && l.shift[i] <= l.bits
  {
    l.prefix[i] * Pow2(Width(l, i))
  }

  function Limit(l: Layout, i: nat): (hi: nat)
    requires i < |l.first|
  {
    if i + 1 < |l.first| then l.first[i + 1] else Pow2(l.bits)
  }

  /** The bins' ranges fit the layout. */
  ghost predicate Fits(l: Layout) {
    GoodLayout(l) && forall i {:trigger Low(l, i)} :: 0 <= i < |l.first| ==>
      Low(l, i) <= l.first[i] && Limit(l, i) <= Low(l, i) + Pow2(Width(l, i))
  }

  ghost predicate GoodBins(l: Layout, bins: seq<Trie>) {
    && Fits(l)
    && |bins| == |l.first|
    && (forall i {:trigger bins[i]} :: 0 <= i < |bins| ==> Placed(bins[i], Low(l, i), Width(l, i)))
    && (forall i, addr, size {:trigger Holds(bins[i], addr, size)} :: 0 <= i < |bins| && Holds(bins[i], addr, size) ==>
          l.first[i] <= size < Limit(l, i))
  }

  ghost predicate Binned(bins: seq<Trie>, addr: int, size: int) {
    exists i :: 0 <= i < |bins| && Holds(bins[i], addr, size)
  }

  function TreeIndex(l: Layout, nb: nat, i: nat := 0): (idx: nat)
    requires GoodLayout(l) && i < |l.first| && l.first[i] <= nb < Pow2(l.bits)
    ensures idx < |l.first| && l.first[idx] <= nb < Limit(l, idx)
    decreases |l.first| - i
  {
    if i + 1 < |l.first| && l.first[i + 1] <= nb then TreeIndex(l, nb, i + 1) else i
  }

  /** The least nonempty bin at or after i, or the number of bins. */
  function NextBin(bins: seq<Trie>, i: nat): (j: nat)
    requires i <= |bins|
    ensures i <= j <= |bins|
    ensures forall k :: i <= k < j ==> bins[k].Nil?
    ensures j < |bins| ==> bins[j].Node?
    decreases |bins| - i
  {
    if i == |bins| || bins[i].Node? then i else NextBin(bins, i + 1)
  }

  /** Whether the bitmap of nonempty tree bins has a bit set. */
  predicate AnyTree(bins: seq<Trie>) {
    NextBin(bins, 0) < |bins|
  }

  function LeftmostChild(t: Trie): (c: Trie)
    requires t.Node?
  {
    if t.left.Node? then t.left else t.right
  }

  lemma Pow2Split(n: nat, m: nat)
    requires m <= n
    ensures Pow2(n) == Pow2(m) * Pow2(n - m)
    decreases n - m
  {
    if m < n {
      Pow2Split(n - 1, m);
      assert Pow2(n) == 2 * Pow2(n - 1) && Pow2(n - m) == 2 * Pow2(n - m - 1);
      hide Pow2;
      Twice(Pow2(m), Pow2(n - m - 1));
    }
  }

  /** A word shifted left by one, its top bit lost. */
  function Double(bits: nat, x: nat): (y: nat)
    requires x < Pow2(bits)
    ensures y < Pow2(bits)
  {
    if 2 * x < Pow2(bits) then 2 * x else 2 * x - Pow2(bits)
  }

  function ShiftLeft(bits: nat, x: nat, n: nat): (y: nat)
    requires x < Pow2(bits)
    ensures y < Pow2(bits)
    decreases n
  {
    if n == 0 then x else ShiftLeft(bits, Double(bits, x), n - 1)
  }

  predicate TopBit(bits: nat, x: nat)
    requires 0 < bits
  {
    x >= Pow2(bits - 1)
  }

  function DropTop(m: nat, y: nat): (z: nat)
    requires m > 0 && y < Pow2(m)
    ensures z < Pow2(m - 1)
  {
    if y < Pow2(m - 1) then y else y - Pow2(m - 1)
  }

  /** A word whose top m bits spell y: its top bit is y's, and doubling drops it. */
  lemma DoubleStep(bits: nat, m: nat, k: nat, y: nat)
    requires m > 0 && m + k == bits && y < Pow2(m)
    ensures y * Pow2(k) < Pow2(bits)
    ensures TopBit(bits, y * Pow2(k)) <==> y >= Pow2(m - 1)
    ensures Double(bits, y * Pow2(k)) == DropTop(m, y) * Pow2(k + 1)
  {
    Pow2Split(bits - 1, k);
    HalfProduct(y, Pow2(m - 1), Pow2(k));
  }

  /** y is h or more plus a remainder below h, seen through a factor k. */
  lemma HalfProduct(y: nat, h: nat, k: nat)
    requires h > 0 && k > 0 && y < 2 * h
    ensures y < h ==> 0 <= y * k < k * h
    ensures y >= h ==> y * k == (y - h) * k + k * h && 0 <= (y - h) * k < k * h
    ensures y < h ==> y * (2 * k) == 2 * (y * k)
    ensures y >= h ==> (y - h) * (2 * k) == 2 * ((y - h) * k)
  {
    if y < h {
      Scale(y, h, k);
      Twice(y, k);
    } else {
      Scale(y - h, h, k);
      Twice(y - h, k);
      assert (y - h + h) * k == (y - h) * k + h * k;
    }
  }

  lemma Twice(a: int, k: int)
    ensures a * (2 * k) == 2 * (a * k)
  {
  }

  lemma Scale(a: nat, b: nat, k: nat)
    requires a < b && k > 0
    ensures a * k < k * b
  {
    assert (b - a) * k >= 1;
    assert (b - a) * k == b * k - a * k;
  }

  /** Shifting out the n bits of q leaves r alone at the top. */
  lemma {:induction false} ShiftOut(bits: nat, n: nat, w: nat, k: nat, q: nat, r: nat, y: nat)
    requires w + n + k == bits && q < Pow2(n) && r < Pow2(w) && y == q * Pow2(w) + r
    ensures y < Pow2(n + w)
    ensures y * Pow2(k) < Pow2(bits) && ShiftLeft(bits, y * Pow2(k), n) == r * Pow2(k + n)
    decreases n
  {
    if n == 0 {
      Pow2Split(bits, k);
      Scale(r, Pow2(w), Pow2(k));
    } else {
      Pow2Split(n - 1 + w, w);
      HalfProduct(q, Pow2(n - 1), Pow2(w));
      var q', y' := DropTop(n, q), DropTop(n, q) * Pow2(w) + r;
      ShiftOut(bits, n - 1, w, k + 1, q', r, y');
      DoubleStep(bits, n + w, k, y);
    }
  }

  /** Unsigned subtraction of words. */
  function Minus(bits: nat, a: nat, b: nat): (d: nat)
    requires a < Pow2(bits) && b < Pow2(bits)
  {
    if a >= b then a - b else a - b + Pow2(bits)
  }

  /** v is the best fit met so far; rsize is what it leaves over, or the negated request. */
  ghost predicate Tracked(bits: nat, root: Trie, nb: nat, v: Trie, rsize: nat) {
    && nb < Pow2(bits)
    && (v.Nil? ==> rsize == Pow2(bits) - nb)
    && (v.Node? ==> Holds(root, v.addr, v.size) && nb <= v.size < Pow2(bits) && rsize == v.size - nb)
  }

  /** Every fitting chunk of root is no better than v, or in t, or no better than all of t; and
      unless v is exact, everything in t fits. */
  ghost predicate Covered(root: Trie, nb: nat, v: Trie, t: Trie, lo: int, w: nat) {
    && (forall a, s {:trigger Holds(t, a, s)} :: Holds(t, a, s) ==>
          Holds(root, a, s) && (nb <= s || (v.Node? && v.size == nb)))
    && Placed(t, lo, w)
    && (forall a, s {:trigger Holds(root, a, s)} :: Holds(root, a, s) && nb <= s ==>
          (v.Node? && v.size <= s) || Holds(t, a, s) || (t.Node? && lo + Pow2(w) <= s))
  }

  ghost predicate Bounded(bits: nat, root: Trie) {
    forall a, s {:trigger Holds(root, a, s)} :: Holds(root, a, s) ==> 0 <= s < Pow2(bits)
  }

  /** Covered, with a second subtree rst set aside whose sizes are all above those of t. */
  ghost predicate Path(root: Trie, nb: nat, v: Trie, t: Trie, lo: int, w: nat, rst: Trie, rlo: int, rw: nat) {
    && Placed(t, lo, w)
    && Placed(rst, rlo, rw)
    && (rst.Node? ==> lo + Pow2(w) <= rlo)
    && (forall a, s {:trigger Holds(t, a, s)} :: Holds(t, a, s) ==> Holds(root, a, s))
    && (forall a, s {:trigger Holds(rst, a, s)} :: Holds(rst, a, s) ==> Holds(root, a, s))
    && (forall a, s {:trigger Holds(root, a, s)} :: Holds(root, a, s) && nb <= s ==>
          (v.Node? && v.size <= s) || Holds(t, a, s) || Holds(rst, a, s) || (rst.Node? && rlo + Pow2(rw) <= s))
  }

  /** Below the middle nothing on the right can be too small, and an untaken right subtree beats
      every one set aside before it. */
  lemma GoLeft(root: Trie, nb: nat, v: Trie, t: Trie, lo: int, w: nat, rst: Trie, rlo: int, rw: nat)
    requires Path(root, nb, v, t, lo, w, rst, rlo, rw) && t.Node? && w > 0
    requires nb <= t.size ==> v.Node? && v.size <= t.size
    ensures t.right.Node? ==> Path(root, nb, v, t.left, lo, w - 1, t.right, lo + Pow2(w - 1), w - 1)
    ensures t.right.Nil? ==> Path(root, nb, v, t.left, lo, w - 1, rst, rlo, rw)
  {
    BranchBounds(t, lo, w);
    forall a, s {:trigger Holds(root, a, s)} | Holds(root, a, s) && nb <= s
      ensures (v.Node? && v.size <= s) || Holds(t.left, a, s) || Holds(t.right, a, s) || (rst.Node? && lo + Pow2(w) <= s)
    {
      if Holds(rst, a, s) { PlacedBounds(rst, rlo, rw, a, s); }
    }
  }

  /** Above the middle nothing on the left fits. */
  lemma GoRight(root: Trie, nb: nat, v: Trie, t: Trie, lo: int, w: nat, rst: Trie, rlo: int, rw: nat)
    requires Path(root, nb, v, t, lo, w, rst, rlo, rw) && t.Node? && w > 0 && lo + Pow2(w - 1) <= nb
    requires nb <= t.size ==> v.Node? && v.size <= t.size
    ensures Path(root, nb, v, t.right, lo + Pow2(w - 1), w - 1, rst, rlo, rw)
  {
    BranchBounds(t, lo, w);
  }

  /** With nothing left below, the subtree set aside is the one to search. */
  lemma PathEnd(root: Trie, nb: nat, v: Trie, t: Trie, lo: int, w: nat, rst: Trie, rlo: int, rw: nat)
    requires Path(root, nb, v, t, lo, w, rst, rlo, rw) && t.Nil? && nb <= lo + Pow2(w)
    ensures Covered(root, nb, v, rst, rlo, rw)
  {
    forall a, s {:trigger Holds(rst, a, s)} | Holds(rst, a, s)
      ensures nb <= s
    {
      PlacedBounds(rst, rlo, rw, a, s);
    }
  }

  lemma BetterFit(root: Trie, nb: nat, v: Trie, t: Trie, lo: int, w: nat, rst: Trie, rlo: int, rw: nat)
    requires Path(root, nb, v, t, lo, w, rst, rlo, rw)
    requires t.Node? && (v.Node? ==> t.size <= v.size)
    ensures Path(root, nb, t, t, lo, w, rst, rlo, rw)
  {
  }

  function Taken(t: Trie, right: bool): (c: Trie)
    requires t.Node?
  {
    if right then t.right else t.left
  }

  function Aside(t: Trie, right: bool, rst: Trie): (r: Trie)
    requires t.Node?
  {
    if t.right.Node? && t.right != Taken(t, right) then t.right else rst
  }

  lemma Branch(root: Trie, nb: nat, v: Trie, t: Trie, lo: int, w: nat, rst: Trie, rlo: int, rw: nat, right: bool)
    returns (lo': int, w': nat, rlo': int, rw': nat)
    requires Path(root, nb, v, t, lo, w, rst, rlo, rw) && t.Node?
    requires nb <= t.size ==> v.Node? && v.size <= t.size
    requires w > 0 ==> (right <==> lo + Pow2(w - 1) <= nb)
    ensures Path(root, nb, v, Taken(t, right), lo', w', Aside(t, right, rst), rlo', rw')
    ensures w > 0 ==> w' == w - 1 && lo' == (if right then lo + Pow2(w - 1) else lo)
    ensures w == 0 ==> w' == 0 && lo' == lo && Taken(t, right).Nil?
  {
    lo', w', rlo', rw' := lo, w, rlo, rw;
    if w > 0 {
      if right {
        GoRight(root, nb, v, t, lo, w, rst, rlo, rw);
        lo' := lo + Pow2(w - 1);
      } else {
        GoLeft(root, nb, v, t, lo, w, rst, rlo, rw);
        if t.right.Node? {
          assert t.right.size >= lo + Pow2(w - 1);
          rlo', rw' := lo + Pow2(w - 1), w - 1;
        }
      }
      w' := w - 1;
    } else {
      assert forall a, s {:trigger Holds(t, a, s)} :: Holds(t, a, s) ==> s == t.size;
    }
  }

  /** sizebits holds the bits of nb still to be looked at, at the top of a word. */
  ghost predicate Aimed(bits: nat, sizebits: nat, nb: nat, lo: int, w: nat) {
    w <= bits && lo <= nb < lo + Pow2(w) && sizebits < Pow2(bits) && sizebits == (nb - lo) * Pow2(bits - w)
  }

  lemma AimedStep(bits: nat, sizebits: nat, nb: nat, lo: int, w: nat)
    requires 0 < bits && Aimed(bits, sizebits, nb, lo, w) && w > 0
    ensures TopBit(bits, sizebits) <==> lo + Pow2(w - 1) <= nb
    ensures Aimed(bits, Double(bits, sizebits), nb, if TopBit(bits, sizebits) then lo + Pow2(w - 1) else lo, w - 1)
  {
    DoubleStep(bits, w, bits - w, nb - lo);
  }

  /** Looks along the path of nb for the best fit, and ends on the subtree that can still beat
      it: the deepest right subtree not taken. */
  method Descend(bits: nat, root: Trie, nb: nat, sizebits0: nat, ghost lo0: int, ghost w0: nat)
    returns (v: Trie, rsize: nat, t: Trie, ghost lo: int, ghost w: nat)
    requires root.Node? && Placed(root, lo0, w0) && Bounded(bits, root)
    requires 0 < bits && 0 < nb < Pow2(bits) && Aimed(bits, sizebits0, nb, lo0, w0)
    ensures Tracked(bits, root, nb, v, rsize)
    ensures Covered(root, nb, v, t, lo, w)
  {
    v, rsize, t, lo, w := Nil, Pow2(bits) - nb, root, lo0, w0;
    var sizebits, rst := sizebits0, Nil;
    ghost var rlo, rw := 0, 0;
    while true
      invariant t.Node? && Aimed(bits, sizebits, nb, lo, w)
      invariant Tracked(bits, root, nb, v, rsize)
      invariant Path(root, nb, v, t, lo, w, rst, rlo, rw)
      decreases t
    {
      assert Holds(t, t.addr, t.size);
      var trem := Minus(bits, t.size, nb);
      if trem < rsize {
        BetterFit(root, nb, v, t, lo, w, rst, rlo, rw);
        v, rsize := t, trem;
        if rsize == 0 { return; }
      }
      if w > 0 { AimedStep(bits, sizebits, nb, lo, w); }
      var right := TopBit(bits, sizebits);
      lo, w, rlo, rw := Branch(root, nb, v, t, lo, w, rst, rlo, rw, right);
      var rt := t.right;
      t := if right then t.right else t.left;
      if rt.Node? && rt != t { rst := rt; }
      if t.Nil? {
        PathEnd(root, nb, v, t, lo, w, rst, rlo, rw);
        t, lo, w := rst, rlo, rw;
        return;
      }
      sizebits := Double(bits, sizebits);
    }
  }

  /** Follows the leftmost branches, along which the smallest size of t lies. */
  method Leftmost(bits: nat, ghost root: Trie, nb: nat, v0: Trie, rsize0: nat, t0: Trie, ghost lo0: int, ghost w0: nat)
    returns (v: Trie, rsize: nat)
    requires 0 < nb && Bounded(bits, root) && Tracked(bits, root, nb, v0, rsize0)
    requires Covered(root, nb, v0, t0, lo0, w0)
    ensures Tracked(bits, root, nb, v, rsize)
    ensures Covered(root, nb, v, Nil, 0, 0)
  {
    v, rsize := v0, rsize0;
    var t := t0;
    ghost var lo, w := lo0, w0;
    while t.Node?
      invariant Tracked(bits, root, nb, v, rsize)
      invariant Covered(root, nb, v, t, lo, w)
      decreases t
    {
      assert Holds(t, t.addr, t.size);
      var trem := Minus(bits, t.size, nb);
      lo, w := LeftmostStep(root, nb, v, t, lo, w);
      if trem < rsize {
        rsize := trem;
        v := t;
      }
      t := LeftmostChild(t);
    }
  }

  lemma LeftmostStep(root: Trie, nb: nat, v: Trie, t: Trie, lo: int, w: nat) returns (lo': int, w': nat)
    requires t.Node? && (Covered(root, nb, v, t, lo, w) || (v == t && Covered(root, nb, Nil, t, lo, w)))
    ensures (v.Node? && v.size <= t.size) || t.size < nb ==> Covered(root, nb, v, LeftmostChild(t), lo', w')
    ensures nb <= t.size && (v.Node? ==> t.size <= v.size) ==> Covered(root, nb, t, LeftmostChild(t), lo', w')
  {
    BranchBounds(t, lo, w);
    assert Holds(t, t.addr, t.size);
    lo', w' := lo, w;
    if w > 0 {
      lo', w' := if t.left.Node? then lo else lo + Pow2(w - 1), w - 1;
    }
  }

  lemma LimitOrder(l: Layout, i: nat, j: nat)
    requires GoodLayout(l) && i < |l.first| && j < |l.first|
    ensures i < j ==> Limit(l, i) <= l.first[j]
    ensures Limit(l, i) <= Pow2(l.bits)
  {
    assert i + 1 < j ==> l.first[i + 1] < l.first[j];
    assert i + 1 < |l.shift| ==> l.shift[i + 1] <= l.bits;
  }

  lemma BinBounded(l: Layout, bins: seq<Trie>, i: nat)
    requires GoodBins(l, bins) && i < |bins|
    ensures Bounded(l.bits, bins[i])
  {
    LimitOrder(l, i, i);
  }

  lemma WholeBin(l: Layout, bins: seq<Trie>, nb: nat, i: nat)
    requires GoodBins(l, bins) && i < |bins| && nb <= l.first[i]
    ensures Covered(bins[i], nb, Nil, bins[i], Low(l, i), Width(l, i))
  {
  }

  /** Searching the first bin at or after the request's own that holds anything fitting is enough. */
  lemma FirstBinDecides(l: Layout, bins: seq<Trie>, nb: nat, idx: nat, at: nat, v: Trie)
    requires GoodBins(l, bins) && idx <= at < |bins| && l.first[idx] <= nb < Limit(l, idx)
    requires v.Node? ==> Holds(bins[at], v.addr, v.size)
    requires Covered(bins[at], nb, v, Nil, 0, 0)
    requires forall j, a, s {:trigger Holds(bins[j], a, s)} :: idx <= j < at && Holds(bins[j], a, s) ==> s < nb
    requires v.Nil? ==> forall j {:trigger bins[j]} :: at < j < |bins| ==> bins[j].Nil?
    ensures forall a, s :: Binned(bins, a, s) && nb <= s ==> v.Node? && v.size <= s
  {
    forall a, s | Binned(bins, a, s) && nb <= s
      ensures v.Node? && v.size <= s
    {
      var i :| 0 <= i < |bins| && Holds(bins[i], a, s);
      LimitOrder(l, i, idx);
      LimitOrder(l, at, i);
    }
  }

  /** The start of the descent: the request shifted until its first undecided bit is on top. */
  lemma AimedAtStart(l: Layout, bins: seq<Trie>, nb: nat, idx: nat)
    requires GoodBins(l, bins) && idx < |bins| && l.first[idx] <= nb < Limit(l, idx) && nb < Pow2(l.bits)
    ensures Aimed(l.bits, ShiftLeft(l.bits, nb, l.shift[idx]), nb, Low(l, idx), Width(l, idx))
  {
    assert Pow2(0) == 1;
    assert Low(l, idx) <= nb;
    ShiftOut(l.bits, l.shift[idx], Width(l, idx), 0, l.prefix[idx], nb - Low(l, idx), nb);
  }

  /** The best fit over all the tree bins. */
  method BestFit(l: Layout, bins: seq<Trie>, nb: nat) returns (v: Trie, rsize: nat)
    requires GoodBins(l, bins) && 0 < l.bits && 0 < nb && l.first[0] <= nb < Pow2(l.bits)
    ensures v.Node? ==> Binned(bins, v.addr, v.size) && nb <= v.size < Pow2(l.bits) && rsize == v.size - nb
    ensures v.Nil? ==> rsize == Pow2(l.bits) - nb
    ensures forall a, s :: Binned(bins, a, s) && nb <= s ==> v.Node? && v.size <= s
  {
    var idx := TreeIndex(l, nb);
    v, rsize := Nil, Pow2(l.bits) - nb;
    var t := Nil;
    ghost var lo, w, at := 0, 0, idx;
    if bins[idx].Node? {
      BinBounded(l, bins, idx);
      AimedAtStart(l, bins, nb, idx);
      v, rsize, t, lo, w := Descend(l.bits, bins[idx], nb, ShiftLeft(l.bits, nb, l.shift[idx]), Low(l, idx), Width(l, idx));
    }
    if t.Nil? && v.Nil? {
      var i := NextBin(bins, idx + 1);
      if i < |bins| {
        t, lo, w, at := bins[i], Low(l, i), Width(l, i), i;
        LimitOrder(l, idx, i);
        WholeBin(l, bins, nb, i);
      }
    }
    BinBounded(l, bins, at);
    assert t.Node? ==> Holds(t, t.addr, t.size);
    v, rsize := Leftmost(l.bits, bins[at], nb, v, rsize, t, lo, w);
    FirstBinDecides(l, bins, nb, idx, at, v);
  }

  /** The smallest chunk of all, for a request below every size in the tree bins. */
  method LeastFit(l: Layout, bins: seq<Trie>, nb: nat) returns (v: Trie, rsize: nat)
    requires GoodBins(l, bins) && 0 < nb <= l.first[0] && AnyTree(bins)
    ensures v.Node? && Binned(bins, v.addr, v.size) && nb <= v.size && rsize == v.size - nb
    ensures forall a, s :: Binned(bins, a, s) ==> v.size <= s
  {
    var i := NextBin(bins, 0);
    v := bins[i];
    assert Holds(bins[i], v.addr, v.size);
    BinBounded(l, bins, i);
    assert nb <= l.first[i];
    WholeBin(l, bins, nb, i);
    ghost var lo, w := LeftmostStep(bins[i], nb, v, v, Low(l, i), Width(l, i));
    rsize := v.size - nb;
    v, rsize := Leftmost(l.bits, bins[i], nb, v, rsize, LeftmostChild(v), lo, w);
    FirstBinHoldsLeast(l, bins, nb, i, v);
  }

  lemma FirstBinHoldsLeast(l: Layout, bins: seq<Trie>, nb: nat, at: nat, v: Trie)
    requires GoodBins(l, bins) && at < |bins| && nb <= l.first[0]
    requires v.Node? && Holds(bins[at], v.addr, v.size)
    requires Covered(bins[at], nb, v, Nil, 0, 0)
    requires forall j {:trigger bins[j]} :: 0 <= j < at ==> bins[j].Nil?
    ensures forall a, s :: Binned(bins, a, s) ==> v.size <= s
  {
    forall a, s | Binned(bins, a, s)
      ensures v.size <= s
    {
      var i :| 0 <= i < |bins| && Holds(bins[i], a, s);
      LimitOrder(l, at, i);
      assert l.first[0] <= l.first[i];
    }
  }

  // ------------------------------------------------------------------ tries for any set of chunks

  /** A trie with one more chunk: on the ring of its size, or in a new leaf. */
  function Insert(t: Trie, lo: int, w: nat, addr: int, size: nat): (r: Trie)
    requires Placed(t, lo, w) && lo <= size < lo + Pow2(w)
    ensures Placed(r, lo, w) && r.Node?
  {
    match t
    case Nil => Node(addr, size, {}, Nil, Nil)
    case Node(a, s, ring, left, right) =>
      if size == s then t.(ring := ring + {addr})
      else if size < lo + Pow2(w - 1) then t.(left := Insert(left, lo, w - 1, addr, size))
      else t.(right := Insert(right, lo + Pow2(w - 1), w - 1, addr, size))
  }

  lemma {:induction false} InsertHolds(t: Trie, lo: int, w: nat, addr: int, size: nat, a: int, s: int)
    requires Placed(t, lo, w) && lo <= size < lo + Pow2(w)
    ensures Holds(Insert(t, lo, w, addr, size), a, s) <==> Holds(t, a, s) || (a == addr && s == size)
    decreases t
  {
    if t.Node? && size != t.size {
      if size < lo + Pow2(w - 1) {
        InsertHolds(t.left, lo, w - 1, addr, size, a, s);
      } else {
        InsertHolds(t.right, lo + Pow2(w - 1), w - 1, addr, size, a, s);
      }
    }
  }

  /** The tree bins with one more chunk. */
  lemma BinsWith(l: Layout, bins: seq<Trie>, addr: int, size: nat) returns (bins': seq<Trie>)
    requires GoodBins(l, bins) && l.first[0] <= size < Pow2(l.bits)
    ensures GoodBins(l, bins')
    ensures forall a, s {:trigger Binned(bins', a, s)} :: Binned(bins', a, s) <==> Binned(bins, a, s) || (a == addr && s == size)
  {
    var i := TreeIndex(l, size);
    var lo, w := Low(l, i), Width(l, i);
    var t := Insert(bins[i], lo, w, addr, size);
    bins' := bins[i := t];
    forall a, s {:trigger Holds(t, a, s)}
      ensures Holds(t, a, s) <==> Holds(bins[i], a, s) || (a == addr && s == size)
    {
      InsertHolds(bins[i], lo, w, addr, size, a, s);
    }
    forall a, s {:trigger Binned(bins', a, s)}
      ensures Binned(bins', a, s) <==> Binned(bins, a, s) || (a == addr && s == size)
    {
      if Binned(bins, a, s) {
        var j :| 0 <= j < |bins| && Holds(bins[j], a, s);
        assert Holds(bins'[j], a, s);
      }
      if a == addr && s == size { assert Holds(bins'[i], a, s); }
    }
  }

  /** For any chunks of sizes that belong in tree bins there are bins that hold exactly those. */
  lemma {:induction false} BinsFor(l: Layout, chunks: map<int, int>) returns (bins: seq<Trie>)
    requires Fits(l) && forall a {:trigger chunks[a]} :: a in chunks ==> l.first[0] <= chunks[a] < Pow2(l.bits)
    ensures GoodBins(l, bins)
    ensures forall a, s {:trigger Binned(bins, a, s)} :: Binned(bins, a, s) <==> a in chunks && chunks[a] == s
    decreases |chunks|
  {
    if a :| a in chunks {
      var fewer := chunks - {a};
      assert fewer.Keys == chunks.Keys - {a};
      var bins0 := BinsFor(l, fewer);
      bins := BinsWith(l, bins0, a, chunks[a]);
    } else {
      bins := seq(|l.first|, _ => Nil);
    }
  }
}
