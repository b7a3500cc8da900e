/** The merge of two sorted directory listings into change events. */
module DirDiff {

  type Name = string

  datatype Kid = Kid(name: Name, ino: int, mtime: int, mtimeNs: int, size: int, mode: int, isdir: bool)

  datatype Kind = Modify | Attrib | Create | Delete

  datatype Event = Event(kind: Kind, isdir: bool, name: Name)

  /** strcmp's order: the first character that differs decides, an end comes first. */
  predicate Less(a: Name, b: Name) {
    b != "" && (a == "" || a[0] < b[0] || (a[0] == b[0] && Less(a[1..], b[1..])))
  }

  lemma {:induction false} LessTotal(a: Name, b: Name)
    ensures Less(a, b) || a == b || Less(b, a)
    ensures !(Less(a, b) && Less(b, a)) && !Less(a, a)
    decreases |a|
  {
    if a != "" {
      LessTotal(a[1..], a[1..]);
      if b != "" && a[0] == b[0] {
        LessTotal(a[1..], b[1..]);
        assert a == [a[0]] + a[1..] && b == [b[0]] + b[1..];
      }
    }
  }

  lemma {:induction false} LessTransitive(a: Name, b: Name, c: Name)
    requires Less(a, b) && Less(b, c)
    ensures Less(a, c)
    decreases |a|
  {
    if a != "" && a[0] == b[0] == c[0] { LessTransitive(a[1..], b[1..], c[1..]); }
  }

  /** A listing sorted by name, no name twice. */
  ghost predicate Sorted(l: seq<Kid>) {
    forall i, j {:trigger l[i], l[j]} :: 0 <= i < j < |l| ==> Less(l[i].name, l[j].name)
  }

  predicate Touched(o: Kid, p: Kid) {
    o.mtime != p.mtime || o.mtimeNs != p.mtimeNs || o.size != p.size
  }

  /** The events for a name in both listings. */
  function Kept(mask: set<Kind>, o: Kid, p: Kid): (es: seq<Event>) {
    if o.ino != p.ino then
      (if Delete in mask then [Event(Delete, p.isdir, o.name)] else [])
      + (if Create in mask then [Event(Create, p.isdir, p.name)] else [])
    else
      (if Touched(o, p) && Modify in mask then [Event(Modify, p.isdir, p.name)] else [])
      + (if o.mode != p.mode && Attrib in mask then [Event(Attrib, p.isdir, p.name)] else [])
  }

  /** The merge of what is left of the two listings. */
  function Diff(mask: set<Kind>, was: seq<Kid>, now: seq<Kid>): (es: seq<Event>)
    decreases |was| + |now|
  {
    if was == [] && now == [] then []
    else if now == [] || (was != [] && Less(was[0].name, now[0].name)) then
      (if Delete in mask then [Event(Delete, was[0].isdir, was[0].name)] else []) + Diff(mask, was[1..], now)
    else if was == [] || was[0].name != now[0].name then
      (if Create in mask then [Event(Create, now[0].isdir, now[0].name)] else []) + Diff(mask, was, now[1..])
    else Kept(mask, was[0], now[0]) + Diff(mask, was[1..], now[1..])
  }

  // ------------------------------------------------------------------ what the merge must say

  datatype Found = Missing | Found(kid: Kid)

  function Find(l: seq<Kid>, n: Name): (f: Found)
    ensures f.Found? ==> f.kid in l && f.kid.name == n
    ensures f.Missing? ==> forall k: Kid {:trigger k in l} :: k in l ==> k.name != n
  {
    assert l != [] ==> l == [l[0]] + l[1..];
    if l == [] then Missing else if l[0].name == n then Found(l[0]) else Find(l[1..], n)
  }

  /** An event that the change from one listing to the other calls for. */
  predicate Due(was: seq<Kid>, now: seq<Kid>, e: Event) {
    match (Find(was, e.name), Find(now, e.name))
    case (Missing, Missing) => false
    case (Found(o), Missing) => e.kind == Delete && e.isdir == o.isdir
    case (Missing, Found(p)) => e.kind == Create && e.isdir == p.isdir
    case (Found(o), Found(p)) =>
      e.isdir == p.isdir &&
      if o.ino != p.ino then e.kind == Delete || e.kind == Create
      else (e.kind == Modify && Touched(o, p)) || (e.kind == Attrib && o.mode != p.mode)
  }

  lemma SortedTail(l: seq<Kid>)
    requires Sorted(l) && l != []
    ensures Sorted(l[1..]) && Find(l[1..], l[0].name) == Missing
    ensures forall n: Name {:trigger Find(l, n)} {:trigger Find(l[1..], n)} :: Find(l, n) == if n == l[0].name then Found(l[0]) else Find(l[1..], n)
  {
    var r := l[1..];
    if Find(r, l[0].name).Found? {
      var k := Find(r, l[0].name).kid;
      var j :| 0 <= j < |r| && r[j] == k;
      assert l[j + 1] == k;
      LessTotal(l[0].name, k.name);
    }
  }

  /** A name before the first of a sorted listing is not in it. */
  lemma {:induction false} BeforeAll(l: seq<Kid>, n: Name)
    requires Sorted(l) && (l == [] || Less(n, l[0].name))
    ensures Find(l, n) == Missing
    decreases |l|
  {
    if l != [] {
      SortedTail(l);
      LessTotal(n, l[0].name);
      if |l| > 1 {
        assert l[1..][0] == l[1];
        LessTransitive(n, l[0].name, l[1].name);
      }
      BeforeAll(l[1..], n);
    }
  }

  lemma KeptDue(mask: set<Kind>, o: Kid, p: Kid, e: Event)
    requires o.name == p.name == e.name
    ensures e in Kept(mask, o, p) <==> e.kind in mask && Due([o], [p], e)
  {
    assert Find([o], e.name) == Found(o) && Find([p], e.name) == Found(p);
  }

  lemma KeptNames(mask: set<Kind>, o: Kid, p: Kid, e: Event)
    requires o.name == p.name
    ensures e in Kept(mask, o, p) ==> e.name == o.name
  {
  }

  lemma DueDelete(was: seq<Kid>, now: seq<Kid>, e: Event)
    requires Sorted(was) && was != [] && Find(now, was[0].name) == Missing
    ensures Due(was, now, e) <==> e == Event(Delete, was[0].isdir, was[0].name) || Due(was[1..], now, e)
  {
    SortedTail(was);
  }

  lemma DueCreate(was: seq<Kid>, now: seq<Kid>, e: Event)
    requires Sorted(now) && now != [] && Find(was, now[0].name) == Missing
    ensures Due(was, now, e) <==> e == Event(Create, now[0].isdir, now[0].name) || Due(was, now[1..], e)
  {
    SortedTail(now);
  }

  lemma DueKept(mask: set<Kind>, was: seq<Kid>, now: seq<Kid>, e: Event)
    requires Sorted(was) && Sorted(now) && was != [] && now != [] && was[0].name == now[0].name
    ensures e.kind in mask && Due(was, now, e) <==> e in Kept(mask, was[0], now[0]) || (e.kind in mask && Due(was[1..], now[1..], e))
  {
    hide Kept;
    SortedTail(was);
    SortedTail(now);
    KeptNames(mask, was[0], now[0], e);
    if e.name == was[0].name {
      KeptDue(mask, was[0], now[0], e);
      assert Find([was[0]], e.name) == Found(was[0]) && Find([now[0]], e.name) == Found(now[0]);
    }
  }

  /** The merge emits exactly the events that are due and asked for. */
  lemma {:induction false} DiffExact(mask: set<Kind>, was: seq<Kid>, now: seq<Kid>, e: Event)
    requires Sorted(was) && Sorted(now)
    ensures e in Diff(mask, was, now) <==> e.kind in mask && Due(was, now, e)
    decreases |was| + |now|
  {
    hide Kept, Less, Due, Sorted;
    if was != [] { SortedTail(was); }
    if now != [] { SortedTail(now); }
    if was == [] && now == [] {
      NothingDue(e);
    } else if now == [] || (was != [] && Less(was[0].name, now[0].name)) {
      BeforeAll(now, was[0].name);
      DueDelete(was, now, e);
      DiffExact(mask, was[1..], now, e);
    } else if was == [] || was[0].name != now[0].name {
      if was != [] { LessTotal(was[0].name, now[0].name); }
      BeforeAll(was, now[0].name);
      DueCreate(was, now, e);
      DiffExact(mask, was, now[1..], e);
    } else {
      DueKept(mask, was, now, e);
      DiffExact(mask, was[1..], now[1..], e);
    }
  }

  lemma NothingDue(e: Event)
    ensures !Due([], [], e)
  {
  }

  /** The directory bit of a DELETE is that of what went away exactly when nothing took its name, or
      something of the same sort did. */
  lemma DeletedSort(mask: set<Kind>, was: seq<Kid>, now: seq<Kid>, e: Event)
    requires Sorted(was) && Sorted(now) && e.kind == Delete && e in Diff(mask, was, now)
    ensures Find(was, e.name).Found?
    ensures e.isdir == Find(was, e.name).kid.isdir
        <==> Find(now, e.name).Missing? || Find(now, e.name).kid.isdir == Find(was, e.name).kid.isdir
  {
    DiffExact(mask, was, now, e);
  }

  /** A file replaced by a directory: the DELETE says a directory went away. */
  lemma FileToDirectory(was: Kid, now: Kid)
    requires was.name == now.name && was.ino != now.ino && !was.isdir && now.isdir
    ensures Diff(Full(), [was], [now]) == [Event(Delete, true, was.name), Event(Create, true, now.name)]
  {
    hide Less;
    LessTotal(was.name, now.name);
    assert [was][1..] == [] && [now][1..] == [];
    assert Diff(Full(), [], []) == [];
  }

  /** The listings agree on everything a watch can notice. */
  predicate Agree(was: seq<Kid>, now: seq<Kid>) {
    |was| == |now| && forall i {:trigger was[i]} {:trigger now[i]} :: 0 <= i < |was| ==>
      was[i].name == now[i].name && was[i].ino == now[i].ino && !Touched(was[i], now[i]) && was[i].mode == now[i].mode
  }

  function Full(): (mask: set<Kind>) {
    {Modify, Attrib, Create, Delete}
  }

  predicate SameKid(o: Kid, p: Kid) {
    o.name == p.name && o.ino == p.ino && !Touched(o, p) && o.mode == p.mode
  }

  lemma AgreeTails(was: seq<Kid>, now: seq<Kid>)
    ensures Agree(was, now) ==> (was == [] <==> now == [])
    ensures was != [] && now != [] ==> (Agree(was, now) <==> SameKid(was[0], now[0]) && Agree(was[1..], now[1..]))
  {
    if was != [] && now != [] {
      var r, t := was[1..], now[1..];
      assert forall i {:trigger r[i]} :: 0 <= i < |r| ==> r[i] == was[i + 1];
      assert forall i {:trigger t[i]} :: 0 <= i < |t| ==> t[i] == now[i + 1];
      assert forall i {:trigger was[i]} :: 1 <= i < |was| ==> was[i] == r[i - 1];
      assert forall i {:trigger now[i]} :: 1 <= i < |now| ==> now[i] == t[i - 1];
    }
  }

  lemma KeptSilent(o: Kid, p: Kid)
    requires o.name == p.name
    ensures Kept(Full(), o, p) == [] <==> SameKid(o, p)
  {
  }

  /** With a full mask nothing is said exactly when the listings agree. */
  lemma {:induction false} DiffEmpty(was: seq<Kid>, now: seq<Kid>)
    requires Sorted(was) && Sorted(now)
    ensures Diff(Full(), was, now) == [] <==> Agree(was, now)
    decreases |was| + |now|
  {
    hide Less, Kept, Agree, Sorted;
    AgreeTails(was, now);
    if was != [] { SortedTail(was); }
    if now != [] { SortedTail(now); }
    if was == [] && now == [] {
      NoneAgree();
    } else if now == [] || (was != [] && Less(was[0].name, now[0].name)) {
      if now != [] { LessTotal(was[0].name, now[0].name); }
    } else if was == [] || was[0].name != now[0].name {
    } else {
      KeptSilent(was[0], now[0]);
      DiffEmpty(was[1..], now[1..]);
    }
  }

  lemma NoneAgree()
    ensures Agree([], [])
  {
  }

  /** Nothing is said of a listing that stayed as it was. */
  lemma {:induction false} DiffSame(mask: set<Kind>, l: seq<Kid>)
    ensures Diff(mask, l, l) == []
  {
    hide Less;
    if l != [] {
      LessTotal(l[0].name, l[0].name);
      DiffSame(mask, l[1..]);
    }
  }

  /** Against an empty listing everything is new. */
  lemma {:induction false} DiffFromNone(mask: set<Kind>, l: seq<Kid>)
    ensures Create !in mask ==> Diff(mask, [], l) == []
    ensures Create in mask ==> |Diff(mask, [], l)| == |l|
    ensures Create in mask ==> forall i {:trigger l[i]} :: 0 <= i < |l| ==> Diff(mask, [], l)[i] == Event(Create, l[i].isdir, l[i].name)
  {
    if l != [] { DiffFromNone(mask, l[1..]); }
  }

  function NameSet(l: seq<Kid>): (s: set<Name>) {
    set k | k in l :: k.name
  }

  /** A reader that keeps the set of names follows the events in order. */
  function Replay(names: set<Name>, es: seq<Event>): (r: set<Name>)
    decreases |es|
  {
    if es == [] then names
    else
      match es[0].kind
      case Delete => Replay(names - {es[0].name}, es[1..])
      case Create => Replay(names + {es[0].name}, es[1..])
      case _ => Replay(names, es[1..])
  }

  /** No event deletes a name that is not there or creates one that is. */
  predicate Legal(names: set<Name>, es: seq<Event>)
    decreases |es|
  {
    es == [] ||
    match es[0].kind
    case Delete => es[0].name in names && Legal(names - {es[0].name}, es[1..])
    case Create => es[0].name !in names && Legal(names + {es[0].name}, es[1..])
    case _ => es[0].name in names && Legal(names, es[1..])
  }

  lemma {:induction false} ReplaySplit(names: set<Name>, a: seq<Event>, b: seq<Event>)
    ensures Replay(names, a + b) == Replay(Replay(names, a), b)
    ensures Legal(names, a + b) <==> Legal(names, a) && Legal(Replay(names, a), b)
    decreases |a|
  {
    if a == [] {
      assert a + b == b;
    } else {
      assert (a + b)[1..] == a[1..] + b;
      var next := match a[0].kind case Delete => names - {a[0].name} case Create => names + {a[0].name} case _ => names;
      ReplaySplit(next, a[1..], b);
    }
  }

  lemma ReplayKept(names: set<Name>, o: Kid, p: Kid)
    requires o.name == p.name && o.name in names
    ensures Replay(names, Kept(Full(), o, p)) == names && Legal(names, Kept(Full(), o, p))
  {
    assert names - {o.name} + {o.name} == names;
    ReplayOne(names, Event(Modify, p.isdir, p.name));
    ReplayOne(names, Event(Attrib, p.isdir, p.name));
    ReplayOne(names, Event(Delete, p.isdir, o.name));
    ReplayOne(names - {o.name}, Event(Create, p.isdir, p.name));
    if o.ino != p.ino {
      ReplaySplit(names, [Event(Delete, p.isdir, o.name)], [Event(Create, p.isdir, p.name)]);
    } else {
      var m := if Touched(o, p) then [Event(Modify, p.isdir, p.name)] else [];
      var c := if o.mode != p.mode then [Event(Attrib, p.isdir, p.name)] else [];
      ReplaySplit(names, m, c);
    }
  }

  lemma ReplayOne(names: set<Name>, e: Event)
    ensures Replay(names, [e]) == if e.kind.Delete? then names - {e.name} else if e.kind.Create? then names + {e.name} else names
    ensures Legal(names, [e]) <==> if e.kind.Create? then e.name !in names else e.name in names
  {
    assert [e][1..] == [];
  }

  /** Replaying a full diff on the old names, done being the names already settled, gives the new. */
  lemma {:induction false} ReplayDiff(done: set<Name>, was: seq<Kid>, now: seq<Kid>)
    requires Sorted(was) && Sorted(now) && done !! NameSet(was) && done !! NameSet(now)
    ensures Replay(done + NameSet(was), Diff(Full(), was, now)) == done + NameSet(now)
    ensures Legal(done + NameSet(was), Diff(Full(), was, now))
    decreases |was| + |now|
  {
    hide Kept, Less;
    if was != [] { SortedTail(was); NamesTail(was); }
    if now != [] { SortedTail(now); NamesTail(now); }
    if was == [] && now == [] {
    } else if now == [] || (was != [] && Less(was[0].name, now[0].name)) {
      BeforeAll(now, was[0].name);
      var e := Event(Delete, was[0].isdir, was[0].name);
      ReplaySplit(done + NameSet(was), [e], Diff(Full(), was[1..], now));
      assert done + NameSet(was) - {was[0].name} == done + NameSet(was[1..]);
      ReplayDiff(done, was[1..], now);
    } else if was == [] || was[0].name != now[0].name {
      if was != [] { LessTotal(was[0].name, now[0].name); }
      BeforeAll(was, now[0].name);
      var e := Event(Create, now[0].isdir, now[0].name);
      ReplaySplit(done + NameSet(was), [e], Diff(Full(), was, now[1..]));
      assert done + NameSet(was) + {now[0].name} == done + {now[0].name} + NameSet(was);
      ReplayDiff(done + {now[0].name}, was, now[1..]);
      assert done + {now[0].name} + NameSet(now[1..]) == done + NameSet(now);
    } else {
      var rest := Diff(Full(), was[1..], now[1..]);
      ReplayKept(done + NameSet(was), was[0], now[0]);
      ReplaySplit(done + NameSet(was), Kept(Full(), was[0], now[0]), rest);
      ReplayDiff(done + {was[0].name}, was[1..], now[1..]);
      assert done + {was[0].name} + NameSet(was[1..]) == done + NameSet(was);
      assert done + {now[0].name} + NameSet(now[1..]) == done + NameSet(now);
    }
  }

  lemma NamesTail(l: seq<Kid>)
    requires Sorted(l) && l != []
    ensures NameSet(l) == {l[0].name} + NameSet(l[1..]) && l[0].name !in NameSet(l[1..])
    ensures forall n: Name {:trigger n in NameSet(l)} :: n in NameSet(l) <==> Find(l, n).Found?
  {
    SortedTail(l);
    assert l == [l[0]] + l[1..];
  }

  /** Replaying a full diff on the old name set legally turns it into the new one. */
  lemma MergeReplays(was: seq<Kid>, now: seq<Kid>)
    requires Sorted(was) && Sorted(now)
    ensures Replay(NameSet(was), Diff(Full(), was, now)) == NameSet(now) && Legal(NameSet(was), Diff(Full(), was, now))
  {
    ReplayDiff({}, was, now);
    assert {} + NameSet(was) == NameSet(was) && {} + NameSet(now) == NameSet(now);
  }
}
