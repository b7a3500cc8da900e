/** The table of pipe and socket pairs that tells which read end a write makes readable. */
module EpollPairs {

  const SLOTS := 32

  datatype Pair = Pair(r: int, w: int)

  const NONE := Pair(0, 0)

  predicate Names(p: Pair, fd: int) {
    p.w != 0 && (p.r == fd || p.w == fd)
  }

  function Count(s: seq<Pair>): (n: nat) {
    if s == [] then 0 else Count(s[..|s| - 1]) + if s[|s| - 1].w != 0 then 1 else 0
  }

  lemma {:induction false} CountUpdate(s: seq<Pair>, i: nat, p: Pair)
    requires i < |s|
    ensures Count(s[i := p]) == Count(s) - (if s[i].w != 0 then 1 else 0) + if p.w != 0 then 1 else 0
    ensures s[i].w != 0 ==> Count(s) > 0
  {
    var n := |s| - 1;
    if i < n {
      CountUpdate(s[..n], i, p);
      assert s[i := p][..n] == s[..n][i := p];
    } else {
      assert s[i := p][..n] == s[..n];
    }
  }

  lemma {:induction false} CountZero(s: seq<Pair>)
    ensures Count(s) == 0 <==> forall i {:trigger s[i]} :: 0 <= i < |s| ==> s[i].w == 0
  {
    if s != [] {
      var n := |s| - 1;
      CountZero(s[..n]);
      assert forall i {:trigger s[i]} :: 0 <= i < n ==> s[i] == s[..n][i];
    }
  }

  /** The last of the first n insertions that went to slot i. */
  function Latest(n: nat, i: nat): (k: nat)
    requires i < SLOTS && i < n
    ensures k < n && n <= k + SLOTS && k % SLOTS == i
  {
    n - 1 - (n - 1 - i) % SLOTS
  }

  lemma LatestUnique(n: nat, i: nat, k: nat)
    requires i < SLOTS && k < n <= k + SLOTS && k % SLOTS == i
    ensures i < n && Latest(n, i) == k
  {
  }

  /** What slot i holds after the insertions in queue. */
  function Held(queue: seq<Pair>, i: nat): (p: Pair)
    requires i < SLOTS
  {
    if i < |queue| then queue[Latest(|queue|, i)] else NONE
  }

  /** The insertions without the pairs that name a retired number. */
  function Retired(queue: seq<Pair>, fd: int): (q: seq<Pair>)
    ensures |q| == |queue|
  {
    seq(|queue|, k requires 0 <= k < |queue| => if Names(queue[k], fd) then NONE else queue[k])
  }

  /** The same pairs but for those that name one of some numbers. */
  ghost predicate Without(before: seq<Pair>, after: seq<Pair>, fds: set<int>) {
    |before| <= |after| && forall k {:trigger after[k]} {:trigger before[k]} :: 0 <= k < |before| ==>
      after[k] == if before[k].w != 0 && (before[k].r in fds || before[k].w in fds) then Pair(0, 0) else before[k]
  }

  predicate Usable(rfd: int, wfd: int) {
    rfd >= 0 && wfd > 0
  }

  function Inserted(queue: seq<Pair>, rfd: int, wfd: int): (q: seq<Pair>) {
    if Usable(rfd, wfd) then queue + [Pair(rfd, wfd)] else queue
  }

  class Table {
    const slots: array<Pair>
    var next: nat
    var live: int
    ghost var queue: seq<Pair>

    /** The slots hold the last 32 insertions, less the retired ones; the counter is the number of
        occupied slots; no two occupied slots share a write end. */
    ghost predicate Valid()
      reads this, slots
    {
      && slots.Length == SLOTS
      && next == |queue|
      && live == Count(slots[..])
      && (forall i {:trigger slots[i]} :: 0 <= i < SLOTS ==> slots[i] == Held(queue, i) && (slots[i].w == 0 || Usable(slots[i].r, slots[i].w)))
      && (forall i, j {:trigger slots[i], slots[j]} :: 0 <= i < j < SLOTS && slots[i].w != 0 ==> slots[i].w != slots[j].w)
    }

    constructor ()
      ensures Valid() && fresh(slots) && queue == []
    {
      slots := new Pair[SLOTS](_ => NONE);
      next, live, queue := 0, 0, [];
      new;
      CountZero(slots[..]);
    }

    /** Forgets the pairs that name a number. */
    method Drop(fd: int)
      requires Valid()
      modifies slots, `live, `queue
      ensures Valid() && queue == Retired(old(queue), fd)
      ensures forall i {:trigger slots[i]} :: 0 <= i < SLOTS ==>
                slots[i] == var p := old(slots[i]); if p.w != 0 && (p.r == fd || p.w == fd) then Pair(0, 0) else p
      ensures Without(old(queue), queue, {fd})
    {
      var i := 0;
      ghost var was := slots[..];
      while i < SLOTS
        invariant 0 <= i <= SLOTS
        invariant forall k {:trigger slots[k]} :: 0 <= k < SLOTS ==>
                    slots[k] == if k < i && Names(was[k], fd) then NONE else was[k]
        invariant live == Count(slots[..]) && queue == old(queue)
      {
        if slots[i].w != 0 && (slots[i].r == fd || slots[i].w == fd) {
          ghost var s := slots[..];
          CountUpdate(s, i, NONE);
          slots[i] := NONE;
          assert slots[..] == s[i := NONE];
          live := live - 1;
        }
        i := i + 1;
      }
      queue := Retired(queue, fd);
    }

    /** A number was just created: pairs that name it are about a closed descriptor. */
    method NoteNewFd(fd: int)
      requires Valid()
      modifies slots, `live, `queue
      ensures Valid() && queue == if fd >= 0 && old(live) > 0 then Retired(old(queue), fd) else old(queue)
    {
      if fd >= 0 {
        CountZero(slots[..]);
        if live != 0 { Drop(fd); }
      }
    }

    method Insert(rfd: int, wfd: int)
      requires Valid()
      requires Usable(rfd, wfd) ==> forall i {:trigger slots[i]} :: 0 <= i < SLOTS ==> slots[i].w != wfd
      modifies this, slots
      ensures Valid() && queue == Inserted(old(queue), rfd, wfd)
      ensures forall i {:trigger slots[i]} :: 0 <= i < SLOTS ==> slots[i] == old(slots[i]) || slots[i].w == wfd
    {
      if rfd < 0 || wfd <= 0 { return; }
      var i := next % SLOTS;
      next := next + 1;
      ghost var s := slots[..];
      CountUpdate(s, i, Pair(rfd, wfd));
      if slots[i].w != 0 { live := live - 1; }
      slots[i] := Pair(rfd, wfd);
      assert slots[..] == s[i := Pair(rfd, wfd)];
      live := live + 1;
      HeldAfterInsert(queue, Pair(rfd, wfd));
      queue := queue + [Pair(rfd, wfd)];
    }

    method NotePipe(rfd: int, wfd: int)
      requires Valid()
      modifies this, slots
      ensures Valid()
      ensures queue == if rfd < 0 || wfd < 0 then old(queue) else Inserted(Retired(Retired(old(queue), rfd), wfd), rfd, wfd)
      ensures 0 <= rfd && 0 < wfd ==>
                |queue| == |old(queue)| + 1 && queue[|queue| - 1] == Pair(rfd, wfd) && Without(old(queue), queue, {rfd, wfd})
    {
      if rfd < 0 || wfd < 0 { return; }
      Drop(rfd);
      Drop(wfd);
      Insert(rfd, wfd);
    }

    /** A socket pair: either end may be the one that is never read. */
    method NotePair(a: int, b: int)
      requires Valid() && a != b
      modifies this, slots
      ensures Valid()
      ensures queue == if a < 0 || b < 0 then old(queue) else Inserted(Inserted(Retired(Retired(old(queue), a), b), a, b), b, a)
      ensures 0 < a && 0 < b ==>
                && |queue| == |old(queue)| + 2 && Without(old(queue), queue, {a, b})
                && queue[|queue| - 2] == Pair(a, b) && queue[|queue| - 1] == Pair(b, a)
    {
      if a < 0 || b < 0 { return; }
      Drop(a);
      Drop(b);
      Insert(a, b);
      Insert(b, a);
    }

    /** The read end to re-arm after a write to wfd, or -1: any pair among the last 32 insertions
        that was not retired is found. */
    method ReadEnd(wfd: int) returns (rfd: int)
      requires Valid()
      ensures rfd >= 0 ==> wfd > 0 && exists k :: 0 <= k < |queue| && |queue| <= k + SLOTS && queue[k] == Pair(rfd, wfd)
      ensures forall k {:trigger queue[k]} :: 0 <= k < |queue| && |queue| <= k + SLOTS && queue[k].w == wfd && wfd > 0 ==> rfd == queue[k].r >= 0
      ensures rfd >= -1
    {
      rfd := -1;
      CountZero(slots[..]);
      forall k {:trigger queue[k]} | 0 <= k < |queue| && |queue| <= k + SLOTS
        ensures slots[k % SLOTS] == queue[k]
      {
        LatestUnique(|queue|, k % SLOTS, k);
      }
      if wfd <= 0 || live == 0 { return; }
      var i := 0;
      while i < SLOTS
        invariant 0 <= i <= SLOTS
        invariant forall k {:trigger slots[k]} :: 0 <= k < i ==> slots[k].w != wfd
      {
        if slots[i].w == wfd {
          assert queue[Latest(|queue|, i)] == Pair(slots[i].r, wfd);
          return slots[i].r;
        }
        i := i + 1;
      }
    }
  }

  lemma HeldAfterInsert(queue: seq<Pair>, p: Pair)
    ensures forall i {:trigger Held(queue + [p], i)} :: 0 <= i < SLOTS ==>
              Held(queue + [p], i) == if i == |queue| % SLOTS then p else Held(queue, i)
  {
    forall i {:trigger Held(queue + [p], i)} | 0 <= i < SLOTS
      ensures Held(queue + [p], i) == if i == |queue| % SLOTS then p else Held(queue, i)
    {
      if i == |queue| % SLOTS {
        LatestUnique(|queue| + 1, i, |queue|);
      } else if i < |queue| {
        LatestUnique(|queue| + 1, i, Latest(|queue|, i));
      }
    }
  }

  datatype Change = Insert(rfd: int, wfd: int) | Retire(fd: int)

  function Changed(queue: seq<Pair>, cs: seq<Change>): (q: seq<Pair>)
    decreases |cs|
  {
    if cs == [] then queue
    else
      match cs[0]
      case Insert(rfd, wfd) => Changed(Inserted(queue, rfd, wfd), cs[1..])
      case Retire(fd) => Changed(Retired(queue, fd), cs[1..])
  }

  function Insertions(cs: seq<Change>): (n: nat) {
    if cs == [] then 0 else (if cs[0].Insert? && Usable(cs[0].rfd, cs[0].wfd) then 1 else 0) + Insertions(cs[1..])
  }

  /** A pair none of whose numbers is retired is still found after up to 31 later insertions. */
  lemma {:induction false} StillFound(queue: seq<Pair>, k: nat, cs: seq<Change>)
    requires k < |queue| && forall c: Change {:trigger c in cs} :: c in cs && c.Retire? ==> !Names(queue[k], c.fd)
    ensures |Changed(queue, cs)| == |queue| + Insertions(cs) && Changed(queue, cs)[k] == queue[k]
    ensures Insertions(cs) < SLOTS && k == |queue| - 1 ==> |Changed(queue, cs)| <= k + SLOTS
    decreases |cs|
  {
    if cs != [] {
      assert cs[0] in cs;
      assert forall c: Change {:trigger c in cs[1..]} :: c in cs[1..] ==> c in cs;
      StillFound(if cs[0].Insert? then Inserted(queue, cs[0].rfd, cs[0].wfd) else Retired(queue, cs[0].fd), k, cs[1..]);
    }
  }
}
