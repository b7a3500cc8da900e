/** The table of emulated epoll sets: which set a descriptor number names. */
module EpollHandles {

  const MAX_SETS := 32
  const MAX_HANDLES := 8

  datatype Rec = Free | Live(handles: seq<int>, waker: int)

  predicate NoTwice(s: seq<int>) {
    forall i, j :: 0 <= i < j < |s| ==> s[i] != s[j]
  }

  predicate GoodRec(r: Rec) {
    r.Live? ==> 1 <= |r.handles| <= MAX_HANDLES && NoTwice(r.handles)
  }

  predicate Owns(r: Rec, fd: int) {
    r.Live? && fd in r.handles
  }

  /** Every live set has between one and eight handles, and no number names two live sets. */
  ghost predicate Good(sets: seq<Rec>) {
    && (forall i {:trigger sets[i]} :: 0 <= i < |sets| ==> GoodRec(sets[i]))
    && (forall i, j, fd {:trigger Owns(sets[i], fd), Owns(sets[j], fd)} ::
          0 <= i < |sets| && 0 <= j < |sets| && Owns(sets[i], fd) && Owns(sets[j], fd) ==> i == j)
  }

  /** The handles without fd, the last one moved into each gap. */
  function Purged(handles: seq<int>, fd: int, h: nat): (r: seq<int>)
    requires h <= |handles|
    decreases |handles| - h
  {
    if h == |handles| then handles
    else if handles[h] == fd then Purged(handles[h := handles[|handles| - 1]][..|handles| - 1], fd, h)
    else Purged(handles, fd, h + 1)
  }

  lemma {:induction false} PurgedMeans(handles: seq<int>, fd: int, h: nat)
    requires h <= |handles| && NoTwice(handles) && fd !in handles[..h]
    ensures var r := Purged(handles, fd, h);
            && NoTwice(r) && |r| <= |handles|
            && (forall x {:trigger x in r} {:trigger x in handles} :: x in r <==> x in handles && x != fd)
    decreases |handles| - h
  {
    if h == |handles| {
      assert handles[..h] == handles;
    } else if handles[h] == fd {
      var n := |handles| - 1;
      var less := handles[h := handles[n]][..n];
      assert forall x {:trigger x in less} {:trigger x in handles} :: x in less <==> x in handles && x != fd by {
        forall x | x in handles && x != fd
          ensures x in less
        {
          var i :| 0 <= i <= n && handles[i] == x;
          if i == n { assert less[h] == x; } else { assert less[i] == x; }
        }
      }
      PurgedMeans(less, fd, h);
    } else {
      assert handles[..h + 1] == handles[..h] + [handles[h]];
      PurgedMeans(handles, fd, h + 1);
    }
  }

  /** One set after a number turns out to belong to somebody else. */
  function Forgot(r: Rec, fd: int): (f: Rec) {
    if r.Free? then r
    else
      var handles := Purged(r.handles, fd, 0);
      if handles == [] && fd in r.handles then Free else Live(handles, r.waker)
  }

  /** One set after the sweep for sets all of whose handles are closed. */
  function Swept(r: Rec, open: set<int>): (f: Rec) {
    if r.Live? && (forall fd | fd in r.handles :: fd !in open) then Free else r
  }

  lemma ForgotMeans(r: Rec, fd: int)
    requires GoodRec(r)
    ensures GoodRec(Forgot(r, fd))
    ensures forall x {:trigger Owns(r, x)} {:trigger Owns(Forgot(r, fd), x)} :: Owns(Forgot(r, fd), x) <==> Owns(r, x) && x != fd
    ensures Follows(r, Forgot(r, fd))
    ensures Forgot(r, fd).Live? <==> r.Live? && exists x :: x in r.handles && x != fd
  {
    if r.Live? {
      PurgedMeans(r.handles, fd, 0);
      var h := Purged(r.handles, fd, 0);
      if h == [] { assert r.handles[0] in r.handles; assert r.handles[0] == fd; } else { assert h[0] in h; }
    }
  }

  /** A set only loses handles or goes away; its waker never changes. */
  predicate Follows(r: Rec, f: Rec) {
    (r.Free? ==> f.Free?) && (f.Live? ==> r.Live? && f.waker == r.waker)
  }

  predicate AllFollow(before: seq<Rec>, after: seq<Rec>) {
    |before| == |after| && forall i {:trigger before[i]} {:trigger after[i]} :: 0 <= i < |before| ==> Follows(before[i], after[i])
  }

  /** The wakers of the sets that went away, in table order. */
  function Lost(before: seq<Rec>, after: seq<Rec>): (wakers: seq<int>)
    requires |before| == |after|
  {
    if before == [] then []
    else
      var n := |before| - 1;
      Lost(before[..n], after[..n]) + if before[n].Live? && after[n].Free? then [before[n].waker] else []
  }

  /** Set k was there before and is not any more. */
  ghost predicate Gone(before: seq<Rec>, after: seq<Rec>, k: int) {
    0 <= k < |before| == |after| && before[k].Live? && after[k].Free?
  }

  /** How many sets with a waker went away. */
  ghost function GoneWith(before: seq<Rec>, after: seq<Rec>, waker: int): (n: nat) {
    |Wakers(before, after, waker)|
  }

  ghost function Wakers(before: seq<Rec>, after: seq<Rec>, waker: int): (ks: set<int>) {
    set k | 0 <= k < |before| && Gone(before, after, k) && before[k].waker == waker
  }

  /** Each waker is listed as many times as sets with it went away. */
  lemma {:induction false} LostCounts(before: seq<Rec>, after: seq<Rec>, waker: int)
    requires |before| == |after|
    ensures multiset(Lost(before, after))[waker] == GoneWith(before, after, waker)
  {
    if before != [] {
      var n := |before| - 1;
      LostCounts(before[..n], after[..n], waker);
      GoneOneMore(before, after, waker);
      hide GoneWith;
      var tail := if before[n].Live? && after[n].Free? then [before[n].waker] else [];
      assert Lost(before, after) == Lost(before[..n], after[..n]) + tail;
    }
  }

  lemma GoneOneMore(before: seq<Rec>, after: seq<Rec>, waker: int)
    requires |before| == |after| > 0
    ensures var n := |before| - 1;
            GoneWith(before, after, waker)
            == GoneWith(before[..n], after[..n], waker) + if before[n].Live? && after[n].Free? && before[n].waker == waker then 1 else 0
  {
    var n := |before| - 1;
    var b, a := before[..n], after[..n];
    var whole, less := Wakers(before, after, waker), Wakers(b, a, waker);
    forall k {:trigger k in less} {:trigger k in whole}
      ensures k in less <==> k in whole && k != n
    {
      if 0 <= k < n { assert b[k] == before[k] && a[k] == after[k]; }
    }
    hide Wakers;
    if n in whole {
      assert whole == less + {n};
    } else {
      assert whole == less;
    }
  }

  lemma QueueCounts(closes: seq<int>, before: seq<Rec>, after: seq<Rec>)
    requires |before| == |after|
    ensures forall w {:trigger multiset(closes + Lost(before, after))[w]} ::
              multiset(closes + Lost(before, after))[w] == multiset(closes)[w] + GoneWith(before, after, w)
  {
    hide GoneWith;
    forall w {:trigger multiset(closes + Lost(before, after))[w]}
      ensures multiset(closes + Lost(before, after))[w] == multiset(closes)[w] + GoneWith(before, after, w)
    {
      LostCounts(before, after, w);
    }
  }

  lemma {:induction false} LostTwice(a: seq<Rec>, b: seq<Rec>, c: seq<Rec>)
    requires AllFollow(a, b) && AllFollow(b, c)
    ensures multiset(Lost(a, b)) + multiset(Lost(b, c)) == multiset(Lost(a, c))
    ensures |Lost(a, b)| <= |a|
    decreases |a|
  {
    if a != [] {
      var n := |a| - 1;
      assert Follows(a[n], b[n]) && Follows(b[n], c[n]);
      hide Follows;
      LostTwice(a[..n], b[..n], c[..n]);
    }
  }

  /** A set keeps its handles but for some numbers, and is gone when it keeps none. */
  ghost predicate Loses(r: Rec, f: Rec, fds: set<int>) {
    && (f.Live? <==> r.Live? && exists x :: x in r.handles && x !in fds)
    && (f.Live? ==> f.waker == r.waker && forall x {:trigger x in f.handles} {:trigger x in r.handles} :: x in f.handles <==> x in r.handles && x !in fds)
  }

  lemma ForgotAll(before: seq<Rec>, after: seq<Rec>, fd: int)
    requires Good(before) && |after| == |before| && forall k {:trigger after[k]} :: 0 <= k < |before| ==> after[k] == Forgot(before[k], fd)
    ensures forall k {:trigger after[k]} {:trigger before[k]} :: 0 <= k < |before| ==> Loses(before[k], after[k], {fd})
  {
    hide Loses, Forgot;
    forall k {:trigger after[k]} {:trigger before[k]} | 0 <= k < |before|
      ensures Loses(before[k], after[k], {fd})
    {
      GoodHere(before, k);
      LosesOne(before[k], fd);
    }
  }

  lemma GoodHere(sets: seq<Rec>, k: nat)
    requires Good(sets) && k < |sets|
    ensures GoodRec(sets[k])
  {
  }

  lemma LosesOne(r: Rec, fd: int)
    requires GoodRec(r)
    ensures Loses(r, Forgot(r, fd), {fd})
  {
    ForgotMeans(r, fd);
    var f := Forgot(r, fd);
    assert f.Live? ==> r.Live? && forall x {:trigger x in f.handles} {:trigger x in r.handles} ::
      (x in f.handles <==> Owns(f, x)) && (x in r.handles <==> Owns(r, x));
  }

  /** The table while a set is created: the numbers of the new pipe forgotten, closed sets swept. */
  function Reclaimed(sets: seq<Rec>, r: int, w: int, open: set<int>): (s: seq<Rec>)
    ensures |s| == |sets|
  {
    seq(|sets|, i requires 0 <= i < |sets| => Swept(Forgot(Forgot(sets[i], r), w), open))
  }

  function FirstFree(sets: seq<Rec>): (i: int)
    ensures -1 <= i < |sets|
    ensures i >= 0 ==> sets[i].Free?
    ensures i < 0 ==> forall k {:trigger sets[k]} :: 0 <= k < |sets| ==> sets[k].Live?
    ensures forall k {:trigger sets[k]} :: 0 <= k < i ==> sets[k].Live?
  {
    if sets == [] then -1
    else if sets[0].Free? then 0
    else
      var i := FirstFree(sets[1..]);
      assert forall k {:trigger sets[k]} :: 1 <= k < |sets| ==> sets[k] == sets[1..][k - 1];
      if i < 0 then -1 else i + 1
  }

  method Purge(handles: seq<int>, fd: int) returns (r: seq<int>, hit: bool)
    ensures r == Purged(handles, fd, 0) && (hit <==> fd in handles)
  {
    r, hit := handles, false;
    var h := 0;
    while h < |r|
      invariant 0 <= h <= |r| && Purged(r, fd, h) == Purged(handles, fd, 0)
      invariant fd in handles <==> hit || fd in r[h..]
      decreases |r| - h
    {
      if r[h] == fd {
        r := r[h := r[|r| - 1]][..|r| - 1];
        hit := true;
      } else {
        h := h + 1;
      }
    }
  }

  class Table {
    const sets: array<Rec>

    ghost predicate Valid()
      reads this, sets
    {
      sets.Length == MAX_SETS && Good(sets[..])
    }

    constructor ()
      ensures Valid() && fresh(sets) && forall i {:trigger sets[i]} :: 0 <= i < sets.Length ==> sets[i].Free?
    {
      sets := new Rec[MAX_SETS](_ => Free);
    }

    /** The set a number names, or -1. */
    method SetByHandle(fd: int) returns (i: int)
      requires Valid()
      ensures -1 <= i < sets.Length
      ensures forall k {:trigger sets[k]} :: 0 <= k < sets.Length ==> (Owns(sets[k], fd) <==> k == i)
    {
      i := 0;
      while i < sets.Length
        invariant 0 <= i <= sets.Length
        invariant forall k {:trigger sets[k]} :: 0 <= k < i ==> !Owns(sets[k], fd)
      {
        if sets[i].Live? {
          var h := 0;
          while h < |sets[i].handles|
            invariant 0 <= h <= |sets[i].handles| && fd !in sets[i].handles[..h]
          {
            if sets[i].handles[h] == fd {
              assert Owns(sets[..][i], fd);
              assert forall k {:trigger sets[k]} :: 0 <= k < sets.Length && Owns(sets[k], fd) ==> Owns(sets[..][k], fd);
              return;
            }
            assert sets[i].handles[..h + 1] == sets[i].handles[..h] + [sets[i].handles[h]];
            h := h + 1;
          }
          assert sets[i].handles[..h] == sets[i].handles;
        }
        i := i + 1;
      }
      i := -1;
    }

    /** A descriptor number was duplicated: the copy names the same set, if there is room. */
    method NoteDup(oldfd: int, newfd: int)
      requires Valid()
      modifies sets
      ensures Valid()
      ensures var before := old(sets[..]);
              forall k {:trigger sets[k]} :: 0 <= k < sets.Length ==>
                sets[k] == if oldfd != newfd && Owns(before[k], oldfd) && |before[k].handles| < MAX_HANDLES
                              && (forall j {:trigger before[j]} :: 0 <= j < |before| ==> !Owns(before[j], newfd))
                           then before[k].(handles := before[k].handles + [newfd]) else before[k]
    {
      if oldfd == newfd { return; }
      var i := SetByHandle(oldfd);
      var taken := SetByHandle(newfd);
      ghost var before := sets[..];
      assert forall j {:trigger before[j]} :: 0 <= j < |before| ==>
        before[j] == sets[j] && (Owns(before[j], oldfd) <==> j == i) && (Owns(before[j], newfd) <==> j == taken);
      assert taken >= 0 ==> Owns(before[taken], newfd);
      if i >= 0 && taken < 0 && |sets[i].handles| < MAX_HANDLES {
        sets[i] := sets[i].(handles := sets[i].handles + [newfd]);
        Widened(before, i, newfd);
        assert sets[..] == before[i := sets[i]];
      }
    }

    /** Drops a number from whatever set claims it, retiring a set with its last handle. */
    method ForgetFd(fd: int, closes: seq<int>) returns (queue: seq<int>)
      requires Valid()
      modifies sets
      ensures Valid()
      ensures sets[..] == seq(MAX_SETS, i requires 0 <= i < MAX_SETS => Forgot(old(sets[..])[i], fd))
      ensures queue == closes + Lost(old(sets[..]), sets[..])
      ensures forall k {:trigger sets[k]} :: 0 <= k < MAX_SETS ==> Loses(old(sets[k]), sets[k], {fd})
      ensures forall w {:trigger multiset(queue)[w]} :: multiset(queue)[w] == multiset(closes)[w] + GoneWith(old(sets[..]), sets[..], w)
    {
      hide Good, Purged, Owns, Loses, GoneWith;
      queue := closes;
      ghost var before := sets[..];
      var i := 0;
      while i < MAX_SETS
        invariant 0 <= i <= MAX_SETS
        invariant forall k {:trigger sets[k]} :: 0 <= k < MAX_SETS ==> sets[k] == if k < i then Forgot(before[k], fd) else before[k]
        invariant queue == closes + Lost(before[..i], sets[..i])
      {
        ghost var soFar := sets[..i];
        if sets[i].Live? {
          var handles, hit := Purge(sets[i].handles, fd);
          if hit && handles == [] {
            queue := queue + [sets[i].waker];
            sets[i] := Free;
          } else {
            sets[i] := Live(handles, sets[i].waker);
          }
        }
        assert before[..i + 1][..i] == before[..i] && sets[..i + 1][..i] == soFar;
        i := i + 1;
      }
      hide Forgot;
      assert before[..MAX_SETS] == before && sets[..MAX_SETS] == sets[..];
      ForgotKeepsGood(before, sets[..], fd);
      ForgotAll(before, sets[..], fd);
      QueueCounts(closes, before, sets[..]);
    }

    /** Frees every set all of whose handles are closed. */
    method Sweep(open: set<int>, closes: seq<int>) returns (queue: seq<int>)
      requires Valid()
      modifies sets
      ensures Valid()
      ensures sets[..] == seq(MAX_SETS, i requires 0 <= i < MAX_SETS => Swept(old(sets[..])[i], open))
      ensures queue == closes + Lost(old(sets[..]), sets[..])
    {
      hide Good, Owns;
      queue := closes;
      ghost var before := sets[..];
      var i := 0;
      while i < MAX_SETS
        invariant 0 <= i <= MAX_SETS
        invariant forall k {:trigger sets[k]} :: 0 <= k < MAX_SETS ==> sets[k] == if k < i then Swept(before[k], open) else before[k]
        invariant queue == closes + Lost(before[..i], sets[..i])
      {
        ghost var soFar := sets[..i];
        if sets[i].Live? && forall fd | fd in sets[i].handles :: fd !in open {
          queue := queue + [sets[i].waker];
          sets[i] := Free;
        }
        assert before[..i + 1][..i] == before[..i] && sets[..i + 1][..i] == soFar;
        i := i + 1;
      }
      assert before[..MAX_SETS] == before && sets[..MAX_SETS] == sets[..];
      SweptKeepsGood(before, sets[..], open);
    }

    /** A new set on the pipe (r, w), or -1 when the table is full; closes are the wakers of the
        sets that went away, each once. */
    method Create(r: int, w: int, open: set<int>) returns (fd: int, closes: seq<int>)
      requires r >= 0 && w >= 0 && r != w
      requires Valid()
      modifies sets
      ensures Valid()
      ensures var before := old(sets[..]);
              var mid := Reclaimed(before, r, w, open);
              && |before| == |mid| && multiset(closes) == multiset(Lost(before, mid)) && |closes| <= 2 * MAX_SETS
              && (forall k {:trigger mid[k]} :: 0 <= k < |mid| ==>
                    (mid[k].Live? <==> before[k].Live? && exists x :: x in before[k].handles && x in open && x != r && x != w))
              && (forall waker {:trigger multiset(closes)[waker]} :: multiset(closes)[waker] == GoneWith(before, mid, waker))
              && (if FirstFree(mid) < 0 then fd == -1 && sets[..] == mid
                  else fd == r && sets[..] == mid[FirstFree(mid) := Live([r], w)])
    {
      hide Good, Forgot, Swept, AllFollow, Lost, Loses, GoneWith;
      ghost var a := sets[..];
      closes := ForgetFd(r, []);
      ghost var b := sets[..];
      ForgotKeepsGood(a, b, r);
      closes := ForgetFd(w, closes);
      ghost var c := sets[..];
      ForgotKeepsGood(b, c, w);
      closes := Sweep(open, closes);
      ghost var d := sets[..];
      SweptKeepsGood(c, d, open);
      assert d == Reclaimed(a, r, w, open);
      LostThrice(a, b, c, d);
      ReclaimedMeans(a, r, w, open);
      forall k {:trigger d[k]} | 0 <= k < |d|
        ensures d[k].Live? <==> a[k].Live? && exists x :: x in a[k].handles && x in open && x != r && x != w
      {
        ReclaimedExactly(a, r, w, open, k);
      }
      QueueCounts([], a, d);
      assert [] + Lost(a, d) == Lost(a, d);
      var i := FreeSlot();
      if i < 0 {
        fd := -1;
      } else {
        AddedKeepsGood(d, i, r, w);
        sets[i] := Live([r], w);
        assert sets[..] == d[i := Live([r], w)];
        fd := r;
      }
    }

    method FreeSlot() returns (i: int)
      ensures i == FirstFree(sets[..])
    {
      ghost var s := sets[..];
      i := 0;
      while i < sets.Length
        invariant 0 <= i <= sets.Length
        invariant FirstFree(s) == (if FirstFree(s[i..]) < 0 then -1 else i + FirstFree(s[i..]))
      {
        assert s[i..][1..] == s[i + 1..];
        if sets[i].Free? { return; }
        i := i + 1;
      }
      i := -1;
    }
  }

  lemma LostThrice(a: seq<Rec>, b: seq<Rec>, c: seq<Rec>, d: seq<Rec>)
    requires AllFollow(a, b) && AllFollow(b, c) && AllFollow(c, d)
    ensures multiset(Lost(a, b) + Lost(b, c) + Lost(c, d)) == multiset(Lost(a, d))
    ensures |Lost(a, b) + Lost(b, c) + Lost(c, d)| <= |a|
  {
    FollowTwice(a, b, c);
    LostTwice(a, b, c);
    FollowTwice(a, c, d);
    LostTwice(a, c, d);
    LostTwice(a, d, d);
    assert |multiset(Lost(a, d))| == |Lost(a, d)|;
    assert |multiset(Lost(a, b) + Lost(b, c) + Lost(c, d))| == |Lost(a, b) + Lost(b, c) + Lost(c, d)|;
  }

  lemma FollowTwice(a: seq<Rec>, b: seq<Rec>, c: seq<Rec>)
    requires AllFollow(a, b) && AllFollow(b, c)
    ensures AllFollow(a, c)
  {
    forall i {:trigger a[i]} {:trigger c[i]} | 0 <= i < |a|
      ensures Follows(a[i], c[i])
    {
      assert Follows(a[i], b[i]) && Follows(b[i], c[i]);
    }
  }

  /** Closing a set whose handles are all closed. */
  lemma SweptKeepsGood(before: seq<Rec>, after: seq<Rec>, open: set<int>)
    requires Good(before) && |after| == |before| && forall k {:trigger after[k]} :: 0 <= k < |before| ==> after[k] == Swept(before[k], open)
    ensures Good(after) && AllFollow(before, after)
  {
    assert forall k {:trigger after[k]} :: 0 <= k < |before| ==> GoodRec(before[k]);
    assert forall k, fd {:trigger Owns(after[k], fd)} :: 0 <= k < |before| && Owns(after[k], fd) ==> Owns(before[k], fd);
  }

  lemma AddedKeepsGood(sets: seq<Rec>, i: nat, r: int, w: int)
    requires Good(sets) && i < |sets| && forall k {:trigger sets[k]} :: 0 <= k < |sets| ==> !Owns(sets[k], r)
    ensures Good(sets[i := Live([r], w)])
  {
    var rec := Live([r], w);
    assert forall fd {:trigger Owns(rec, fd)} :: Owns(rec, fd) <==> fd == r;
    assert GoodRec(rec);
    hide GoodRec, Owns;
  }

  lemma ReclaimedMeans(before: seq<Rec>, r: int, w: int, open: set<int>)
    requires Good(before)
    ensures forall k {:trigger Reclaimed(before, r, w, open)[k]} :: 0 <= k < |before| ==> !Owns(Reclaimed(before, r, w, open)[k], r)
  {
    var after := Reclaimed(before, r, w, open);
    forall k {:trigger after[k]} | 0 <= k < |before|
      ensures !Owns(after[k], r)
    {
      ForgotMeans(before[k], r);
      ForgotMeans(Forgot(before[k], r), w);
    }
  }

  /** While a set is created, one stays exactly when it has a handle still open that is neither number
      of the new pipe; it then keeps its waker and all its other handles. */
  lemma ReclaimedExactly(before: seq<Rec>, r: int, w: int, open: set<int>, k: nat)
    requires Good(before) && k < |before|
    ensures var f, b := Reclaimed(before, r, w, open)[k], before[k];
            && (f.Live? <==> b.Live? && exists x :: x in b.handles && x in open && x != r && x != w)
            && (f.Live? ==> f.waker == b.waker && forall x {:trigger x in f.handles} {:trigger x in b.handles} ::
                              x in f.handles <==> x in b.handles && x != r && x != w)
  {
    var b := before[k];
    GoodHere(before, k);
    ForgotMeans(b, r);
    ForgotMeans(Forgot(b, r), w);
    LosesOne(b, r);
    LosesOne(Forgot(b, r), w);
  }

  /** Creating a set on the pipe (r, w): r names the new set alone, w names nothing, and a set with
      a handle still open keeps exactly its other handles. */
  lemma CreatedMeans(before: seq<Rec>, r: int, w: int, open: set<int>, k: nat)
    requires Good(before) && r != w && k < |before|
    ensures var mid := Reclaimed(before, r, w, open);
            var i := FirstFree(mid);
            i >= 0 ==>
              var after := mid[i := Live([r], w)];
              && (Owns(after[k], r) <==> k == i) && !Owns(after[k], w)
              && (forall x {:trigger Owns(before[k], x)} ::
                    Owns(before[k], x) && x in open && x != r && x != w ==>
                      k != i && after[k].Live? && after[k].waker == before[k].waker
                      && forall y {:trigger Owns(after[k], y)} :: Owns(after[k], y) <==> Owns(before[k], y) && y != r && y != w)
  {
    ForgotMeans(before[k], r);
    ForgotMeans(Forgot(before[k], r), w);
    ReclaimedMeans(before, r, w, open);
    var mid := Reclaimed(before, r, w, open);
    var f := Forgot(Forgot(before[k], r), w);
    assert mid[k] == Swept(f, open);
    forall x {:trigger Owns(before[k], x)} | Owns(before[k], x) && x in open && x != r && x != w
      ensures mid[k] == f && f.Live?
    {
      assert Owns(f, x);
    }
  }

  lemma Widened(before: seq<Rec>, i: nat, fd: int)
    requires Good(before) && i < |before| && before[i].Live? && |before[i].handles| < MAX_HANDLES
    requires forall j {:trigger before[j]} :: 0 <= j < |before| ==> !Owns(before[j], fd)
    ensures Good(before[i := before[i].(handles := before[i].handles + [fd])])
  {
    var r := before[i].(handles := before[i].handles + [fd]);
    var after := before[i := r];
    assert forall x {:trigger Owns(r, x)} :: Owns(r, x) <==> Owns(before[i], x) || x == fd;
    assert !Owns(before[i], fd);
    assert GoodRec(before[i]);
  }

  lemma ForgotKeepsGood(before: seq<Rec>, after: seq<Rec>, fd: int)
    requires Good(before) && |after| == |before| && forall k {:trigger after[k]} :: 0 <= k < |before| ==> after[k] == Forgot(before[k], fd)
    ensures Good(after) && AllFollow(before, after)
  {
    hide GoodRec, Follows, Owns, Forgot;
    forall k {:trigger after[k]} {:trigger before[k]} | 0 <= k < |before|
      ensures GoodRec(after[k]) && Follows(before[k], after[k])
      ensures forall x {:trigger Owns(after[k], x)} :: Owns(after[k], x) <==> Owns(before[k], x) && x != fd
    {
      ForgotMeans(before[k], fd);
    }
  }
}
