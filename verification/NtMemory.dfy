/** Reservations on NT: reserving, committing through mprotect, and copying to a forked child. */
module NtMemory {

  datatype Access = NoAccess | ReadOnly | ReadWrite | Execute | ExecuteRead | ExecuteReadWrite | WriteCopy | ExecuteWriteCopy

  datatype Prot = Prot(access: Access, guard: bool)

  /** One page of an address space; data stands for its contents. */
  datatype Page = Free | Reserved(private: bool) | Committed(private: bool, prot: Prot, data: int)

  const RW := Prot(ReadWrite, false)
  const ZERO := 0

  type Pages = int -> Page

  /** What a query can tell of a page. */
  function Kind(p: Page): (k: Page) {
    if p.Committed? then p.(data := ZERO) else p
  }

  predicate Readable(p: Prot) {
    p.access in {ReadOnly, ReadWrite, ExecuteRead, ExecuteReadWrite, WriteCopy, ExecuteWriteCopy}
  }

  /** The pages from a to b are all reserved or committed. */
  predicate Reservation(pages: Pages, a: int, b: int) {
    forall x {:trigger pages(x)} :: a <= x < b ==> !pages(x).Free?
  }

  predicate Alike(pages: Pages, a: int, b: int) {
    forall x {:trigger pages(x)} :: a <= x < b ==> Kind(pages(x)) == Kind(pages(a))
  }

  function Map(pages: Pages, a: int, b: int, f: Page -> Page): (r: Pages) {
    x => if a <= x < b then f(pages(x)) else pages(x)
  }

  /** Only pages from a to b changed. */
  ghost predicate Elsewhere(before: Pages, after: Pages, a: int, b: int) {
    forall x {:trigger after(x)} {:trigger before(x)} :: !(a <= x < b) ==> after(x) == before(x)
  }

  ghost predicate Same(before: Pages, after: Pages) {
    forall x {:trigger after(x)} {:trigger before(x)} :: after(x) == before(x)
  }

  /** No page from a to b is dark. */
  predicate Answered(dark: int -> bool, a: int, b: int) {
    forall x {:trigger dark(x)} :: a <= x < b ==> !dark(x)
  }

  /** An address space. The pages no query answers for are dark; every other call may fail, and
      then does nothing. */
  class Space {
    const dark: int -> bool
    var pages: Pages
    /** How many calls the host refused of its own accord. */
    ghost var refusals: nat

    /** Some run of pages from p on that are all like p; fails exactly on a dark page. */
    method Query(p: int) returns (ok: bool, kind: Page, end: int)
      ensures ok <==> !dark(p)
      ensures p < end && kind == Kind(pages(p))
      ensures ok ==> Alike(pages, p, end) && Answered(dark, p, end)
    {
      ok := !dark(p);
      var n: int := *;
      kind := Kind(pages(p));
      end := p + 1;
      assert Alike(pages, p, end);
      if n > 0 && Alike(pages, p, end + n) && Answered(dark, p, end + n) { end := end + n; }
    }

    /** Whether the host is willing, and note of it when not. */
    method Willing() returns (ok: bool)
      modifies `refusals
      ensures refusals == old(refusals) + if ok then 0 else 1
    {
      ok := *;
      if !ok { refusals := refusals + 1; }
    }

    method Reserve(a: int, b: int) returns (ok: bool)
      requires a <= b
      modifies this
      ensures Elsewhere(old(pages), pages, a, b) && old(refusals) <= refusals
      ensures !ok ==> pages == old(pages) && (old(refusals) < refusals || exists x {:trigger pages(x)} :: a <= x < b && !pages(x).Free?)
      ensures ok ==> forall x {:trigger pages(x)} :: a <= x < b ==> old(pages)(x).Free? && pages(x) == Reserved(true)
    {
      ok := Willing();
      ok := ok && forall x | a <= x < b :: pages(x).Free?;
      if ok { pages := Map(pages, a, b, _ => Reserved(true)); }
    }

    /** Commits pages that are reserved, with zeros. */
    method Commit(a: int, b: int, prot: Prot) returns (ok: bool)
      requires forall x {:trigger pages(x)} :: a <= x < b ==> pages(x).Reserved?
      modifies this
      ensures Elsewhere(old(pages), pages, a, b) && old(refusals) <= refusals
      ensures !ok ==> pages == old(pages) && old(refusals) < refusals
      ensures ok ==> forall x {:trigger pages(x)} :: a <= x < b ==> pages(x) == Committed(old(pages)(x).private, prot, ZERO)
    {
      ok := Willing();
      if ok { pages := Map(pages, a, b, (p: Page) => if p.Reserved? then Committed(p.private, prot, ZERO) else p); }
    }

    /** Changes the protection of committed pages and tells that of the first. */
    method Protect(a: int, b: int, prot: Prot) returns (ok: bool, was: Prot)
      requires a < b
      modifies this
      ensures Elsewhere(old(pages), pages, a, b) && old(refusals) <= refusals
      ensures !ok ==> pages == old(pages) && (old(refusals) < refusals || exists x {:trigger pages(x)} :: a <= x < b && !pages(x).Committed?)
      ensures ok ==> old(pages)(a).Committed? && was == old(pages)(a).prot
      ensures ok ==> forall x {:trigger pages(x)} :: a <= x < b ==> old(pages)(x).Committed? && pages(x) == old(pages)(x).(prot := prot)
    {
      ok := Willing();
      ok := ok && forall x | a <= x < b :: pages(x).Committed?;
      was := RW;
      if ok {
        was := pages(a).prot;
        pages := Map(pages, a, b, (p: Page) => if p.Committed? then p.(prot := prot) else p);
      }
    }

    /** Fills committed pages with those of another space, which must be readable there. */
    method Write(a: int, b: int, from: Space) returns (ok: bool)
      requires this != from
      modifies this
      ensures Elsewhere(old(pages), pages, a, b) && old(refusals) <= refusals
      ensures forall x {:trigger pages(x)} :: pages(x) == old(pages)(x)
                || (old(pages)(x).Committed? && pages(x).Committed? && pages(x) == old(pages)(x).(data := pages(x).data))
      ensures ok ==> forall x {:trigger pages(x)} :: a <= x < b ==>
                && Legible(from.pages(x)) && old(pages)(x).Committed? && pages(x) == old(pages)(x).(data := from.pages(x).data)
      ensures !ok ==> old(refusals) < refusals || exists x {:trigger pages(x)} :: a <= x < b && !(Legible(from.pages(x)) && pages(x).Committed?)
    {
      ok := Willing();
      var fit := forall x | a <= x < b :: Legible(from.pages(x)) && pages(x).Committed?;
      if !fit {
        ghost var x :| a <= x < b && !(Legible(from.pages(x)) && pages(x).Committed?);
        assert pages(x) == old(pages)(x);
      }
      ok := ok && fit;
      if ok {
        var mine, other := pages, from.pages;
        pages := x => if a <= x < b && mine(x).Committed? && other(x).Committed? then mine(x).(data := other(x).data) else mine(x);
      }
    }
  }

  /** A page another process can be given the contents of: committed, with a protection that lets it be
      read and does not trap. */
  predicate Legible(p: Page) {
    p.Committed? && p.prot.access != NoAccess && p.prot.access != Execute && !p.prot.guard
  }

  // ------------------------------------------------------------------ mprotect

  /** A private page still reserved. */
  predicate Waiting(p: Page): (w: bool)
    ensures w <==> p == Reserved(true)
  {
    p.Reserved? && p.private
  }

  /** The pages after the private reserved ones of a range were committed, up to the first page no
      query answers for. */
  function Committing(pages: Pages, dark: int -> bool, addr: int, end: int, prot: Prot): (r: Pages) {
    x => if addr <= x < end && Waiting(pages(x)) && Answered(dark, addr, x + 1) then Committed(true, prot, ZERO) else pages(x)
  }

  ghost predicate NoneWaiting(pages: Pages, addr: int, end: int) {
    forall x {:trigger pages(x)} :: addr <= x < end ==> !Waiting(pages(x))
  }

  /** No page is left waiting exactly when every waiting page comes before the first dark one. */
  lemma CommittingLeaves(pages: Pages, dark: int -> bool, addr: int, end: int, prot: Prot)
    ensures NoneWaiting(Committing(pages, dark, addr, end, prot), addr, end)
        <==> forall x, d {:trigger pages(x), dark(d)} :: addr <= d <= x < end && dark(d) ==> !Waiting(pages(x))
    ensures Answered(dark, addr, end) ==> NoneWaiting(Committing(pages, dark, addr, end, prot), addr, end)
  {
    var after := Committing(pages, dark, addr, end, prot);
    if NoneWaiting(after, addr, end) {
      forall x, d {:trigger pages(x), dark(d)} | addr <= d <= x < end && dark(d)
        ensures !Waiting(pages(x))
      {
        assert !Waiting(after(x));
      }
    } else {
      var x :| addr <= x < end && Waiting(after(x));
      assert Waiting(pages(x)) && !Answered(dark, addr, x + 1);
      var d :| addr <= d < x + 1 && dark(d);
    }
  }

  /** Two reserved pages, the second of them dark: it is still waiting after an answer of 0. */
  lemma CommittingStops(prot: Prot)
    ensures Waiting(Committing(_ => Reserved(true), (x: int) => x == 1, 0, 2, prot)(1))
  {
    var dark := (x: int) => x == 1;
    assert dark(1) && !Answered(dark, 0, 2);
  }

  /** Commits the private pages of a range that are only reserved. The walk ends at the first page
      no query answers for, and the answer is success all the same. */
  method CommitNt(s: Space, addr: int, end: int, prot: Prot) returns (r: int)
    requires addr <= end
    modifies s
    ensures r == 0 || r == -1
    ensures Elsewhere(old(s.pages), s.pages, addr, end)
    ensures forall x {:trigger s.pages(x)} :: s.pages(x) == old(s.pages)(x)
              || (addr <= x < end && Waiting(old(s.pages)(x)) && s.pages(x) == Committed(true, prot, ZERO))
    ensures r == 0 ==> Same(Committing(old(s.pages), s.dark, addr, end, prot), s.pages)
    ensures r == 0 && Answered(s.dark, addr, end) ==> NoneWaiting(s.pages, addr, end)
    ensures r == -1 ==> old(s.refusals) < s.refusals && exists x {:trigger s.pages(x)} :: addr <= x < end && Waiting(s.pages(x)) && Answered(s.dark, addr, x + 1)
    ensures old(s.refusals) <= s.refusals
  {
    var p := addr;
    ghost var was := s.pages;
    while p < end
      invariant addr <= p <= end && Answered(s.dark, addr, p) && old(s.refusals) <= s.refusals
      invariant forall x {:trigger s.pages(x)} :: s.pages(x) == was(x)
                  || (addr <= x < p && Waiting(was(x)) && s.pages(x) == Committed(true, prot, ZERO))
      invariant NoneWaiting(s.pages, addr, p)
      decreases end - p
    {
      var ok, kind, re := s.Query(p);
      if !ok { break; }
      if re > end { re := end; }
      if kind == Reserved(true) {
        assert forall x {:trigger s.pages(x)} :: p <= x < re ==> Kind(s.pages(x)) == kind;
        var done := s.Commit(p, re, prot);
        if !done {
          assert Waiting(s.pages(p)) && Answered(s.dark, addr, p + 1);
          return -1;
        }
      }
      p := re;
    }
    assert p < end ==> s.dark(p);
    return 0;
  }

  /** A fresh reservation. */
  method ReserveNt(s: Space, addr: int, len: nat) returns (ok: bool)
    modifies s
    ensures Elsewhere(old(s.pages), s.pages, addr, addr + len)
    ensures ok ==> Reservation(s.pages, addr, addr + len)
    ensures !ok ==>
              s.pages == old(s.pages) && (old(s.refusals) < s.refusals || exists x {:trigger s.pages(x)} :: addr <= x < addr + len && !s.pages(x).Free?)
  {
    ok := s.Reserve(addr, addr + len);
  }

  /** mprotect on part of a reservation: what was only reserved is committed, contents stay, and
      the whole stays a reservation; on success every page of the part has the protection. */
  method Mprotect(s: Space, addr: int, end: int, prot: Prot, none: bool, lo: int, hi: int) returns (r: int)
    requires addr < end && lo <= addr && end <= hi && Reservation(s.pages, lo, hi)
    modifies s
    ensures Elsewhere(old(s.pages), s.pages, addr, end) && Reservation(s.pages, lo, hi)
    ensures forall x {:trigger s.pages(x)} :: old(s.pages)(x).Committed? ==> s.pages(x).Committed? && s.pages(x).data == old(s.pages)(x).data
    ensures r == 0 ==> forall x {:trigger s.pages(x)} :: addr <= x < end ==> s.pages(x).Committed? && s.pages(x).prot == prot
    ensures r != 0 ==>
              r == -1 && (old(s.refusals) < s.refusals || exists x {:trigger s.pages(x)} :: addr <= x < end && !s.pages(x).Committed?)
  {
    ghost var was := s.pages;
    if !none {
      var c := CommitNt(s, addr, end, prot);
      if c != 0 { return -1; }
    }
    var ok, old_ := s.Protect(addr, end, prot);
    r := if ok then 0 else -1;
  }

  // ------------------------------------------------------------------ fork

  /** The child has the page the parent has. */
  predicate Copied(parent: Page, child: Page) {
    if parent.Committed? then child.Committed? && child.prot == parent.prot && child.data == parent.data
    else child.Reserved?
  }

  /** Copies a reservation into a child; it fails only when a call is refused, the span is not free in
      the child or a page cannot be queried. On success the child agrees page
      by page and the parent is as it was; on failure the parent can at most have kept the
      protection that was set for reading. */
  method CopyReservation(parent: Space, child: Space, addr: int, end: int) returns (ok: bool)
    requires parent != child && addr <= end && Reservation(parent.pages, addr, end)
    modifies parent, child
    ensures Elsewhere(old(child.pages), child.pages, addr, end)
    ensures ok ==> Same(old(parent.pages), parent.pages) && Answered(parent.dark, addr, end)
    ensures !ok ==>
              || old(parent.refusals) < parent.refusals || old(child.refusals) < child.refusals || !Answered(parent.dark, addr, end)
              || exists x {:trigger old(child.pages)(x)} :: addr <= x < end && !old(child.pages)(x).Free?
    ensures ok ==> forall x {:trigger child.pages(x)} :: addr <= x < end ==> Copied(parent.pages(x), child.pages(x))
    ensures forall x {:trigger parent.pages(x)} :: parent.pages(x) == old(parent.pages)(x)
              || (addr <= x < end && old(parent.pages)(x).Committed? && parent.pages(x) == old(parent.pages)(x).(prot := RW))
  {
    ok := child.Reserve(addr, end);
    if !ok { return; }
    var p := addr;
    ghost var was, before := parent.pages, child.pages;
    while p < end
      invariant addr <= p <= end && ok && Answered(parent.dark, addr, p)
      invariant old(parent.refusals) <= parent.refusals && old(child.refusals) <= child.refusals
      invariant Same(was, parent.pages) && Elsewhere(before, child.pages, addr, end)
      invariant forall x {:trigger child.pages(x)} :: addr <= x < p ==> Copied(was(x), child.pages(x))
      invariant forall x {:trigger child.pages(x)} :: p <= x < end ==> child.pages(x) == Reserved(true)
      decreases end - p
    {
      var known, kind, re := parent.Query(p);
      if !known { return false; }
      if re > end { re := end; }
      assert forall x {:trigger parent.pages(x)} {:trigger was(x)} :: p <= x < re ==> Kind(was(x)) == kind;
      if kind.Committed? {
        ok := CopyRun(parent, child, p, re, kind.prot);
        if !ok { return; }
      }
      p := re;
    }
  }

  /** One committed run: committed in the child, read through a protection that allows it, and
      given the parent's protection. */
  method CopyRun(parent: Space, child: Space, p: int, re: int, prot: Prot) returns (ok: bool)
    requires parent != child && p < re
    requires forall x {:trigger parent.pages(x)} :: p <= x < re ==> parent.pages(x).Committed? && parent.pages(x).prot == prot
    requires forall x {:trigger child.pages(x)} :: p <= x < re ==> child.pages(x) == Reserved(true)
    modifies parent, child
    ensures Elsewhere(old(child.pages), child.pages, p, re)
    ensures old(parent.refusals) <= parent.refusals && old(child.refusals) <= child.refusals
    ensures !ok ==> old(parent.refusals) < parent.refusals || old(child.refusals) < child.refusals
    ensures ok ==> Same(old(parent.pages), parent.pages)
    ensures ok ==> forall x {:trigger child.pages(x)} :: p <= x < re ==> Copied(old(parent.pages)(x), child.pages(x))
    ensures forall x {:trigger parent.pages(x)} :: parent.pages(x) == old(parent.pages)(x)
              || (p <= x < re && parent.pages(x) == old(parent.pages)(x).(prot := RW))
  {
    var reprotect := !Readable(prot) || prot.guard;
    ok := child.Commit(p, re, RW);
    if !ok { return; }
    var was := prot;
    if reprotect {
      ok, was := parent.Protect(p, re, RW);
      if !ok { return; }
    }
    assert forall x {:trigger parent.pages(x)} {:trigger child.pages(x)} :: p <= x < re ==> Legible(parent.pages(x)) && child.pages(x).Committed?;
    ok := child.Write(p, re, parent);
    if reprotect {
      var back, dummy := parent.Protect(p, re, was);
      ok := back && ok;
    }
    if !ok { return; }
    if prot != RW {
      var dummy;
      ok, dummy := child.Protect(p, re, prot);
    }
  }

  // ------------------------------------------------------------------ which reservations fork copies

  /** One entry of the list of mappings; alloc marks the first piece of an allocation. */
  datatype Mapping = Mapping(addr: int, size: nat, alloc: bool, reserve: bool)

  /** Mappings in address order, none overlapping, none empty. */
  ghost predicate Ordered(maps: seq<Mapping>) {
    && (forall i {:trigger maps[i]} :: 0 <= i < |maps| ==> maps[i].size > 0)
    && forall i, j {:trigger maps[i], maps[j]} :: 0 <= i < j < |maps| ==> maps[i].addr + maps[i].size <= maps[j].addr
  }

  /** Where the allocation that starts in front of maps[i..] ends, pieces being joined from there. */
  function GroupEnd(maps: seq<Mapping>, i: nat, end: int): (e: int)
    requires i <= |maps|
    decreases |maps| - i
  {
    if i < |maps| && !maps[i].alloc && maps[i].addr == end then GroupEnd(maps, i + 1, end + maps[i].size) else end
  }

  /** maps[i] is the first piece of a reservation. */
  predicate Heads(maps: seq<Mapping>, i: nat) {
    i < |maps| && maps[i].alloc && maps[i].reserve
  }

  datatype Span = Span(addr: int, end: int)

  function SpanAt(maps: seq<Mapping>, i: nat): (s: Span)
    requires i < |maps|
  {
    Span(maps[i].addr, GroupEnd(maps, i + 1, maps[i].addr + maps[i].size))
  }

  /** The spans of the reservations that start in the first n mappings. */
  function Spans(maps: seq<Mapping>, n: nat): (s: seq<Span>)
    requires n <= |maps|
  {
    if n == 0 then [] else Spans(maps, n - 1) + if Heads(maps, n - 1) then [SpanAt(maps, n - 1)] else []
  }

  /** The pieces joined to an allocation end before the next allocation starts. */
  lemma {:induction false} GroupEnds(maps: seq<Mapping>, i: nat, end: int, k: nat)
    requires Ordered(maps) && i <= k < |maps| && maps[k].alloc && (i > 0 ==> end == maps[i - 1].addr + maps[i - 1].size)
    requires i > 0
    ensures GroupEnd(maps, i, end) <= maps[k].addr
    decreases |maps| - i
  {
    if i < |maps| && !maps[i].alloc && maps[i].addr == end {
      GroupEnds(maps, i + 1, end + maps[i].size, k);
    }
  }

  /** Piece x belongs to the allocation of the piece before it: it starts none of its own, and where
      that one ends. */
  ghost predicate Adjoins(maps: seq<Mapping>, x: int) {
    0 < x < |maps| && !maps[x].alloc && maps[x].addr == maps[x - 1].addr + maps[x - 1].size
  }

  /** The span of an allocation is its first piece and all that adjoin one another behind it, up to the
      next allocation or the first gap. */
  lemma SpanIs(maps: seq<Mapping>, i: nat) returns (n: nat)
    requires i < |maps|
    ensures i < n <= |maps| && SpanAt(maps, i) == Span(maps[i].addr, maps[n - 1].addr + maps[n - 1].size)
    ensures forall x {:trigger Adjoins(maps, x)} :: i < x < n ==> Adjoins(maps, x)
    ensures !Adjoins(maps, n)
  {
    n := GroupStops(maps, i + 1);
  }

  lemma {:induction false} GroupStops(maps: seq<Mapping>, i: nat) returns (n: nat)
    requires 0 < i <= |maps|
    ensures i <= n <= |maps| && GroupEnd(maps, i, maps[i - 1].addr + maps[i - 1].size) == maps[n - 1].addr + maps[n - 1].size
    ensures forall x {:trigger Adjoins(maps, x)} :: i <= x < n ==> Adjoins(maps, x)
    ensures !Adjoins(maps, n)
    decreases |maps| - i
  {
    n := i;
    if Adjoins(maps, i) { n := GroupStops(maps, i + 1); }
  }

  /** The spans are those of the reservations, each once, in address order and apart. */
  lemma {:induction false} SpansMean(maps: seq<Mapping>, n: nat)
    requires Ordered(maps) && n <= |maps|
    ensures forall s: Span {:trigger s in Spans(maps, n)} :: s in Spans(maps, n) <==>
              exists i :: 0 <= i < n && maps[i].alloc && maps[i].reserve && s == SpanAt(maps, i)
    ensures forall a, b {:trigger Spans(maps, n)[a], Spans(maps, n)[b]} :: 0 <= a < b < |Spans(maps, n)| ==> Spans(maps, n)[a].end <= Spans(maps, n)[b].addr
    decreases n
  {
    hide Ordered, GroupEnd;
    if n > 0 {
      SpansMean(maps, n - 1);
      var less := Spans(maps, n - 1);
      if Heads(maps, n - 1) {
        forall a {:trigger less[a]} | 0 <= a < |less|
          ensures less[a].end <= maps[n - 1].addr
        {
          assert less[a] in less;
          var i :| 0 <= i < n - 1 && maps[i].alloc && maps[i].reserve && less[a] == SpanAt(maps, i);
          GroupEnds(maps, i + 1, maps[i].addr + maps[i].size, n - 1);
        }
        assert Spans(maps, n) == less + [SpanAt(maps, n - 1)];
      }
    }
  }

  /** The mappings are scanned in order and each reservation is copied once, in one piece: its later
      pieces lie below the end of what was copied and are passed over. */
  method CopiedSpans(maps: seq<Mapping>) returns (copies: seq<Span>)
    requires Ordered(maps) && forall i {:trigger maps[i]} :: 0 <= i < |maps| ==> 0 <= maps[i].addr
    ensures copies == Spans(maps, |maps|)
    ensures forall s: Span {:trigger s in copies} :: s in copies <==>
              exists i :: 0 <= i < |maps| && maps[i].alloc && maps[i].reserve && s == SpanAt(maps, i)
    ensures forall a, b {:trigger copies[a], copies[b]} :: 0 <= a < b < |copies| ==> copies[a].end <= copies[b].addr
  {
    hide Ordered, GroupEnd;
    SpansMean(maps, |maps|);
    copies := [];
    var skipUntil, i := 0, 0;
    while i < |maps|
      invariant 0 <= i <= |maps| && copies == Spans(maps, i)
      invariant forall k {:trigger maps[k]} :: i <= k < |maps| && maps[k].alloc ==> skipUntil <= maps[k].addr
    {
      var m := maps[i];
      if m.addr < skipUntil {
      } else if m.alloc && m.reserve {
        var end, j := m.addr + m.size, i + 1;
        while j < |maps| && !maps[j].alloc && end == maps[j].addr
          invariant i < j <= |maps| && GroupEnd(maps, j, end) == GroupEnd(maps, i + 1, m.addr + m.size)
        {
          GroupStep(maps, j, end);
          end := end + maps[j].size;
          j := j + 1;
        }
        GroupStep(maps, j, end);
        copies := copies + [Span(m.addr, end)];
        skipUntil := end;
        forall k {:trigger maps[k]} | i + 1 <= k < |maps| && maps[k].alloc
          ensures skipUntil <= maps[k].addr
        {
          GroupEnds(maps, i + 1, m.addr + m.size, k);
        }
      }
      i := i + 1;
    }
  }

  lemma GroupStep(maps: seq<Mapping>, i: nat, end: int)
    requires i <= |maps|
    ensures GroupEnd(maps, i, end)
         == if i < |maps| && !maps[i].alloc && maps[i].addr == end then GroupEnd(maps, i + 1, end + maps[i].size) else end
  {
  }

  /** Every piece joined to a reservation lies in the span copied for it. */
  lemma {:induction false} PieceInside(maps: seq<Mapping>, i: nat, k: nat)
    requires Ordered(maps) && i < k < |maps|
    requires forall x {:trigger maps[x]} :: i < x <= k ==> !maps[x].alloc && maps[x].addr == maps[x - 1].addr + maps[x - 1].size
    ensures SpanAt(maps, i).addr <= maps[k].addr && maps[k].addr + maps[k].size <= SpanAt(maps, i).end
  {
    PieceReached(maps, i + 1, k);
    assert maps[i].addr + maps[i].size <= maps[k].addr;
  }

  lemma {:induction false} PieceReached(maps: seq<Mapping>, j: nat, k: nat)
    requires Ordered(maps) && 0 < j <= k < |maps|
    requires forall x {:trigger maps[x]} :: j <= x <= k ==> !maps[x].alloc && maps[x].addr == maps[x - 1].addr + maps[x - 1].size
    ensures maps[k].addr + maps[k].size <= GroupEnd(maps, j, maps[j - 1].addr + maps[j - 1].size)
    decreases k - j
  {
    if j < k { PieceReached(maps, j + 1, k); } else { GroupGrows(maps, k + 1, maps[k].addr + maps[k].size); }
  }

  lemma {:induction false} GroupGrows(maps: seq<Mapping>, i: nat, end: int)
    requires i <= |maps|
    ensures end <= GroupEnd(maps, i, end)
    decreases |maps| - i
  {
    if i < |maps| && !maps[i].alloc && maps[i].addr == end { GroupGrows(maps, i + 1, end + maps[i].size); }
  }
}
