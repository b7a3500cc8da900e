/** One inotify instance: watches, the scan of each, and the event pipe. */
module Inotify {
  import opened DirDiff
  import opened InotifyWire
  import opened LittleEndian

  const IN_MODIFY := 0x2
  const IN_ATTRIB := 0x4
  const IN_CREATE := 0x100
  const IN_DELETE := 0x200
  const IN_DELETE_SELF := 0x400
  const IN_Q_OVERFLOW := 0x4000
  const IN_IGNORED := 0x8000
  const IN_ISDIR := 0x4000_0000
  const MAX_WATCHES := 8192

  datatype Flag = On(kind: Kind) | DeleteSelf | OtherEvent | OnlyDir | DontFollow | MaskCreate | MaskAdd

  datatype Watch = Watch(wd: int, path: string, mask: set<Flag>, isdir: bool, dropped: bool, kids: seq<Kid>, self: Kid)

  /** What a scan of a path sees. */
  datatype View = Gone | Unreadable | Listing(kids: seq<Kid>) | Stat(kid: Kid)

  datatype Error = EINVAL | EEXIST | ENOSPC | ENOTDIR

  datatype Result = Wd(wd: int) | Failed(error: Error)

  /** How a write to the pipe ends: whole, refused because the pipe is full, or the reader is gone. */
  datatype Outcome = Wrote | Refused | Broken

  function Kinds(mask: set<Flag>): (k: set<Kind>) {
    (if On(Modify) in mask then {Modify} else {}) + (if On(Attrib) in mask then {Attrib} else {})
    + (if On(Create) in mask then {Create} else {}) + (if On(Delete) in mask then {Delete} else {})
  }

  predicate AnyEvent(mask: set<Flag>) {
    exists f :: f in mask && (f.On? || f.DeleteSelf? || f.OtherEvent?)
  }

  function Bit(k: Kind): (m: nat) {
    match k case Modify => IN_MODIFY case Attrib => IN_ATTRIB case Create => IN_CREATE case Delete => IN_DELETE
  }

  function NameBytes(n: string): (b: seq<byte>)
    ensures |b| == (if |n| <= 255 then |n| else 255)
    ensures forall i {:trigger b[i]} :: 0 <= i < |b| ==> b[i] == n[i] as int % 256
  {
    seq(if |n| <= NAME_MAX then |n| else NAME_MAX, i requires 0 <= i < |n| => n[i] as int % 256)
  }

  /** A file name: bytes other than NUL. */
  predicate FileName(n: string) {
    forall i {:trigger n[i]} :: 0 <= i < |n| ==> n[i] as int % 256 != 0
  }

  predicate FileNames(l: seq<Kid>) {
    forall k: Kid {:trigger k in l} :: k in l ==> FileName(k.name)
  }

  function RecordOf(wd: int, e: Event): (r: Record) {
    Record(wd, Bit(e.kind) + if e.isdir then IN_ISDIR else 0, NameBytes(e.name))
  }

  function Records(wd: int, es: seq<Event>): (rs: seq<Record>)
    ensures |rs| == |es|
  {
    seq(|es|, i requires 0 <= i < |es| => RecordOf(wd, es[i]))
  }

  // ------------------------------------------------------------------ what a scan must say, in mask bits

  /** What a scan says of one name, by the bits of a record: 0x200 gone, 0x100 new, 0x2 touched, 0x4
      changed, and 0x4000_0000 for a directory. */
  ghost predicate Calls(mask: set<Flag>, was: seq<Kid>, now: seq<Kid>, n: string, bits: nat) {
    match (Find(was, n), Find(now, n))
    case (Missing, Missing) => false
    case (Found(o), Missing) => On(Delete) in mask && bits == 0x200 + if o.isdir then 0x4000_0000 else 0
    case (Missing, Found(p)) => On(Create) in mask && bits == 0x100 + if p.isdir then 0x4000_0000 else 0
    case (Found(o), Found(p)) =>
      var dir := if p.isdir then 0x4000_0000 else 0;
      if o.ino != p.ino then (On(Delete) in mask && bits == 0x200 + dir) || (On(Create) in mask && bits == 0x100 + dir)
      else
        || (On(Modify) in mask && bits == 0x2 + dir && (o.mtime != p.mtime || o.mtimeNs != p.mtimeNs || o.size != p.size))
        || (On(Attrib) in mask && bits == 0x4 + dir && o.mode != p.mode)
  }

  /** The records are exactly those the change from one listing to the other calls for. */
  ghost predicate Exactly(rs: seq<Record>, wd: int, mask: set<Flag>, was: seq<Kid>, now: seq<Kid>) {
    forall r: Record {:trigger r in rs} :: r in rs <==> exists n: string :: Calls(mask, was, now, n, r.mask) && r == Record(wd, r.mask, NameBytes(n))
  }

  lemma EventCalls(mask: set<Flag>, was: seq<Kid>, now: seq<Kid>, e: Event)
    ensures e.kind in Kinds(mask) && Due(was, now, e) ==> Calls(mask, was, now, e.name, Bit(e.kind) + if e.isdir then IN_ISDIR else 0)
  {
  }

  lemma CallsEvent(mask: set<Flag>, was: seq<Kid>, now: seq<Kid>, n: string, bits: nat) returns (e: Event)
    requires Calls(mask, was, now, n, bits)
    ensures e.name == n && bits == Bit(e.kind) + (if e.isdir then IN_ISDIR else 0) && e.kind in Kinds(mask) && Due(was, now, e)
  {
    var isdir := bits >= 0x4000_0000;
    var low := if isdir then bits - 0x4000_0000 else bits;
    e := Event(if low == 0x200 then Delete else if low == 0x100 then Create else if low == 0x2 then Modify else Attrib, isdir, n);
  }

  /** The records of a diff are exactly those called for. */
  lemma RecordsExactly(wd: int, mask: set<Flag>, was: seq<Kid>, now: seq<Kid>)
    requires Sorted(was) && Sorted(now)
    ensures Exactly(Records(wd, Diff(Kinds(mask), was, now)), wd, mask, was, now)
  {
    hide Diff, Due, Calls, Sorted, Kinds, NameBytes;
    var es := Diff(Kinds(mask), was, now);
    var rs := Records(wd, es);
    forall r: Record {:trigger r in rs}
      ensures r in rs <==> exists n: string :: Calls(mask, was, now, n, r.mask) && r == Record(wd, r.mask, NameBytes(n))
    {
      if r in rs {
        var i :| 0 <= i < |es| && r == rs[i] == RecordOf(wd, es[i]);
        DiffExact(Kinds(mask), was, now, es[i]);
        EventCalls(mask, was, now, es[i]);
      }
      if n: string :| Calls(mask, was, now, n, r.mask) && r == Record(wd, r.mask, NameBytes(n)) {
        var e := CallsEvent(mask, was, now, n, r.mask);
        DiffExact(Kinds(mask), was, now, e);
        var i :| 0 <= i < |es| && es[i] == e;
        assert rs[i] == RecordOf(wd, e) == r;
      }
    }
  }

  /** A reader that keeps the set of names follows records by their bits. */
  ghost function Follow(names: set<seq<byte>>, rs: seq<Record>): (r: set<seq<byte>>)
    decreases |rs|
  {
    if rs == [] then names
    else
      var bits := rs[0].mask % 0x4000_0000;
      Follow(if bits == 0x200 then names - {rs[0].name} else if bits == 0x100 then names + {rs[0].name} else names, rs[1..])
  }

  ghost function Cuts(names: set<string>): (bs: set<seq<byte>>) {
    set n | n in names :: NameBytes(n)
  }

  /** Following the records of events is replaying the events, for names that differ once cut. */
  lemma {:induction false} FollowReplays(wd: int, names: set<string>, es: seq<Event>, all: set<string>)
    requires names <= all && forall e: Event {:trigger e in es} :: e in es ==> e.name in all
    requires forall a, b {:trigger NameBytes(a), NameBytes(b)} :: a in all && b in all && NameBytes(a) == NameBytes(b) ==> a == b
    ensures Follow(Cuts(names), Records(wd, es)) == Cuts(Replay(names, es))
    decreases |es|
  {
    hide NameBytes;
    if es != [] {
      var e, rest := es[0], es[1..];
      assert e in es && forall x: Event {:trigger x in rest} :: x in rest ==> x in es;
      assert Records(wd, es)[1..] == Records(wd, rest) && Records(wd, es)[0] == RecordOf(wd, e);
      assert Cuts(names + {e.name}) == Cuts(names) + {NameBytes(e.name)};
      assert Cuts(names - {e.name}) == Cuts(names) - {NameBytes(e.name)};
      match e.kind
      case Delete => FollowReplays(wd, names - {e.name}, rest, all);
      case Create => FollowReplays(wd, names + {e.name}, rest, all);
      case _ => FollowReplays(wd, names, rest, all);
    }
  }

  lemma {:induction false} DiffNames(mask: set<Kind>, was: seq<Kid>, now: seq<Kid>, e: Event)
    requires Sorted(was) && Sorted(now) && e in Diff(mask, was, now)
    ensures e.name in NameSet(was) + NameSet(now)
  {
    DiffExact(mask, was, now, e);
  }

  /** With everything asked for, a reader that follows the records of one scan by their bits ends with
      the names of the new listing, for names that differ once cut to the longest a record holds. */
  lemma ScanFollowed(wd: int, mask: set<Flag>, was: seq<Kid>, now: seq<Kid>)
    requires Sorted(was) && Sorted(now) && {On(Modify), On(Attrib), On(Create), On(Delete)} <= mask
    requires forall a, b {:trigger NameBytes(a), NameBytes(b)} ::
               a in NameSet(was) + NameSet(now) && b in NameSet(was) + NameSet(now) && NameBytes(a) == NameBytes(b) ==> a == b
    ensures Follow(Cuts(NameSet(was)), Records(wd, Diff(Kinds(mask), was, now))) == Cuts(NameSet(now))
  {
    hide Diff, NameBytes, Sorted, Replay;
    assert Kinds(mask) == Full();
    var es := Diff(Full(), was, now);
    forall e: Event {:trigger e in es} | e in es
      ensures e.name in NameSet(was) + NameSet(now)
    {
      DiffNames(Full(), was, now, e);
    }
    MergeReplays(was, now);
    FollowReplays(wd, NameSet(was), es, NameSet(was) + NameSet(now));
  }

  /** What a scan of one watch must say, case by case. */
  ghost predicate Told(w: Watch, v: View, rs: seq<Record>) {
    match v
    case Unreadable => rs == []
    case Gone =>
      rs == (if DeleteSelf in w.mask then [Record(w.wd, 0x400, [])] else [])
            + (if !w.isdir || w.mask != {} then [Record(w.wd, 0x8000, [])] else [])
    case Listing(kids) => if w.isdir then Exactly(rs, w.wd, w.mask, w.kids, kids) else rs == []
    case Stat(k) =>
      if w.isdir then rs == []
      else if k.ino != w.self.ino then rs == if On(Attrib) in w.mask then [Record(w.wd, 0x4, [])] else []
      else
        rs == (if On(Modify) in w.mask && (k.mtime != w.self.mtime || k.mtimeNs != w.self.mtimeNs || k.size != w.self.size)
               then [Record(w.wd, 0x2, [])] else [])
              + (if On(Attrib) in w.mask && k.mode != w.self.mode then [Record(w.wd, 0x4, [])] else [])
  }

  /** What a scan leaves of a watch: gone, or with what it has just seen. */
  ghost predicate Became(w: Watch, v: View, w': Watch) {
    && w'.wd == w.wd && w'.path == w.path && w'.mask == w.mask && w'.isdir == w.isdir
    && w'.dropped == (w.dropped || v.Gone?)
    && w'.kids == (if w.isdir && v.Listing? then v.kids else w.kids)
    && w'.self == (if !w.isdir && v.Stat? then v.kid else w.self)
  }

  lemma ScanMeans(w: Watch, v: View)
    requires Sorted(w.kids) && SortedView(v)
    ensures Told(w, v, ScanDue(w, v)) && Became(w, v, Scanned(w, v))
  {
    hide Sorted, Exactly, Diff, Kinds, Records;
    if v.Listing? && w.isdir { RecordsExactly(w.wd, w.mask, w.kids, v.kids); }
  }

  /** No record says that this watch is gone. */
  ghost predicate Quiet(sent: seq<Record>, wd: int) {
    forall i {:trigger sent[i]} :: 0 <= i < |sent| && sent[i].mask == IN_IGNORED ==> sent[i].wd != wd
  }

  /** Once a watch is reported gone nothing more is said about it. */
  ghost predicate SilentAfterIgnored(sent: seq<Record>) {
    && (forall i {:trigger sent[i]} :: 0 <= i < |sent| && sent[i].mask == IN_IGNORED ==> sent[i].wd >= 1)
    && forall i, j {:trigger sent[i], sent[j]} :: 0 <= i < j < |sent| && sent[i].mask == IN_IGNORED ==> sent[j].wd != sent[i].wd
  }

  /** Records were added for one watch only. */
  ghost predicate Grew(before: seq<Record>, after: seq<Record>, wd: int) {
    |before| <= |after| && after[..|before|] == before && forall i {:trigger after[i]} :: |before| <= i < |after| ==> after[i].wd == wd
  }

  lemma GrewTwice(a: seq<Record>, b: seq<Record>, c: seq<Record>, wd: int)
    requires Grew(a, b, wd) && Grew(b, c, wd)
    ensures Grew(a, c, wd)
  {
    assert forall i {:trigger c[i]} :: 0 <= i < |b| ==> c[i] == c[..|b|][i];
    assert c[..|a|] == b[..|a|];
  }

  lemma QuietOthers(a: seq<Record>, b: seq<Record>, wd: int, other: int)
    requires Grew(a, b, wd) && Quiet(a, other) && other != wd
    ensures Quiet(b, other)
  {
    assert forall i {:trigger b[i]} :: 0 <= i < |a| ==> b[i] == b[..|a|][i] == a[i];
  }

  lemma GoodRecord(wd: int, mask: nat, name: string)
    requires -1 <= wd < 0x8000_0000 && mask < 0x1_0000_0000 && FileName(name)
    ensures Good(Record(wd, mask, NameBytes(name)))
  {
  }

  lemma GrewNone(sent: seq<Record>, wd: int)
    ensures Grew(sent, sent, wd)
  {
    assert sent[..|sent|] == sent;
  }

  lemma Appended(sent: seq<Record>, r: Record)
    requires AllGood(sent) && SilentAfterIgnored(sent) && Quiet(sent, r.wd) && Good(r) && (r.mask == IN_IGNORED ==> r.wd >= 1)
    ensures AllGood(sent + [r]) && SilentAfterIgnored(sent + [r]) && Grew(sent, sent + [r], r.wd)
    ensures WireAll(sent + [r]) == WireAll(sent) + Wire(r)
    ensures r.mask != IN_IGNORED ==> Quiet(sent + [r], r.wd)
  {
    hide Good, Wire;
    assert (sent + [r])[..|sent|] == sent;
  }

  /** A path has at most one live watch. */
  ghost predicate OwnPaths(ws: seq<Watch>) {
    forall i, j {:trigger ws[i], ws[j]} :: 0 <= i < j < |ws| && !ws[i].dropped && !ws[j].dropped ==> ws[i].path != ws[j].path
  }

  ghost predicate GoodWatch(w: Watch, nextWd: int, sent: seq<Record>) {
    1 <= w.wd < nextWd && Sorted(w.kids) && FileNames(w.kids) && (!w.dropped ==> Quiet(sent, w.wd))
  }

  /** Watches have descriptors of their own, handed out before, live ones paths of their own, and
      none still live was reported gone; nothing was ever said about a descriptor not handed out. */
  ghost predicate GoodWatches(ws: seq<Watch>, nextWd: int, sent: seq<Record>) {
    && (forall i {:trigger ws[i]} :: 0 <= i < |ws| ==> GoodWatch(ws[i], nextWd, sent))
    && (forall i, j {:trigger ws[i], ws[j]} :: 0 <= i < j < |ws| ==> ws[i].wd != ws[j].wd)
    && OwnPaths(ws)
    && (forall i {:trigger sent[i]} :: 0 <= i < |sent| ==> sent[i].wd < nextWd)
  }

  /** What a scan of one watch says when nothing stands in its way. */
  function ScanDue(w: Watch, v: View): (rs: seq<Record>) {
    match v
    case Unreadable => []
    case Gone =>
      (if DeleteSelf in w.mask then [Record(w.wd, IN_DELETE_SELF, [])] else [])
      + (if !w.isdir || w.mask != {} then [Record(w.wd, IN_IGNORED, [])] else [])
    case Listing(kids) => if w.isdir then Records(w.wd, Diff(Kinds(w.mask), w.kids, kids)) else []
    case Stat(k) =>
      if w.isdir then []
      else if k.ino != w.self.ino then
        if On(Attrib) in w.mask then [Record(w.wd, IN_ATTRIB, [])] else []
      else
        (if Touched(w.self, k) && On(Modify) in w.mask then [Record(w.wd, IN_MODIFY, [])] else [])
        + (if k.mode != w.self.mode && On(Attrib) in w.mask then [Record(w.wd, IN_ATTRIB, [])] else [])
  }

  function Scanned(w: Watch, v: View): (r: Watch) {
    match v
    case Unreadable => w
    case Gone => w.(dropped := true)
    case Listing(kids) => if w.isdir then w.(kids := kids) else w
    case Stat(k) => if w.isdir then w else w.(self := k)
  }

  predicate GoodView(v: View) {
    v.Listing? ==> FileNames(v.kids)
  }

  ghost predicate SortedView(v: View) {
    v.Listing? ==> Sorted(v.kids)
  }

  /** A scan of one watch leaves the others alone. */
  lemma ScannedKeeps(ws: seq<Watch>, i: nat, v: View, nextWd: int, before: seq<Record>, after: seq<Record>)
    requires GoodWatches(ws, nextWd, before) && i < |ws| && GoodView(v) && SortedView(v)
    requires Grew(before, after, ws[i].wd) && (v.Gone? || Quiet(after, ws[i].wd) || ws[i].dropped)
    ensures GoodWatches(ws[i := Scanned(ws[i], v)], nextWd, after)
  {
    hide Quiet, Grew, Sorted, FileNames;
    var ws' := ws[i := Scanned(ws[i], v)];
    assert GoodWatch(ws[i], nextWd, before);
    forall j {:trigger ws'[j]} | 0 <= j < |ws|
      ensures GoodWatch(ws'[j], nextWd, after)
    {
      assert GoodWatch(ws[j], nextWd, before);
      if j != i && !ws[j].dropped { QuietOthers(before, after, ws[i].wd, ws[j].wd); }
    }
    GrewBelow(before, after, ws[i].wd, nextWd);
  }

  lemma GrewBelow(before: seq<Record>, after: seq<Record>, wd: int, nextWd: int)
    requires Grew(before, after, wd) && wd < nextWd && forall i {:trigger before[i]} :: 0 <= i < |before| ==> before[i].wd < nextWd
    ensures forall i {:trigger after[i]} :: 0 <= i < |after| ==> after[i].wd < nextWd
  {
    assert forall i {:trigger after[i]} :: 0 <= i < |before| ==> after[i] == after[..|before|][i] == before[i];
  }

  class Instance {
    var dead: bool
    var overflow: bool
    var nextWd: int
    var watches: seq<Watch>
    /** Every record handed to write, those the pipe took, its bytes, and whether the reader is
        owed word of a record that was refused. */
    ghost var tried: seq<Record>
    ghost var sent: seq<Record>
    ghost var stream: seq<byte>
    ghost var owed: bool
    /** How each write to the pipe ended. */
    ghost var answers: seq<Outcome>

    ghost predicate Whole()
      reads `sent, `stream
    {
      AllGood(sent) && stream == WireAll(sent) && SilentAfterIgnored(sent)
    }

    ghost predicate PipeOk()
      reads `dead, `overflow, `sent, `stream, `owed
    {
      Whole() && (owed && !dead ==> overflow)
    }

    ghost predicate WatchesOk()
      reads this
    {
      1 <= nextWd < 0x8000_0000 && |watches| <= MAX_WATCHES && GoodWatches(watches, nextWd, sent)
    }

    ghost predicate Valid()
      reads this
    {
      PipeOk() && WatchesOk()
    }

    constructor ()
      ensures Valid() && watches == [] && sent == [] && nextWd == 1
    {
      dead, overflow, nextWd, watches := false, false, 1, [];
      tried, sent, stream, owed, answers := [], [], [], false, [];
    }

    /** One write to the pipe; the host decides how it ends. */
    method Write() returns (o: Outcome)
      modifies `answers
      ensures answers == old(answers) + [o]
    {
      o := *;
      answers := answers + [o];
    }

    /** Writes one record, whole or not at all. */
    method Emit(wd: int, mask: nat, name: string)
      requires Whole() && (owed && !dead && mask != IN_Q_OVERFLOW ==> overflow)
      requires Quiet(sent, wd) && -1 <= wd < 0x8000_0000 && mask < 0x1_0000_0000 && FileName(name) && (mask == IN_IGNORED ==> wd >= 1)
      modifies `dead, `overflow, `tried, `sent, `stream, `owed, `answers
      ensures PipeOk()
      ensures var r := Record(wd, mask, NameBytes(name));
              && tried == old(tried) + [r]
              && (sent == old(sent) || (sent == old(sent) + [r] && !old(dead) && overflow == old(overflow) && owed == (old(owed) && mask != IN_Q_OVERFLOW)))
              && (sent == old(sent) && !dead ==> owed && overflow)
      ensures old(dead) ==> dead && answers == old(answers) && sent == old(sent)
      ensures !old(dead) ==>
                && |answers| == |old(answers)| + 1 && answers[..|old(answers)|] == old(answers)
                && match answers[|old(answers)|] {
                     case Wrote => !dead && sent == old(sent) + [Record(wd, mask, NameBytes(name))]
                     case Refused => !dead && overflow && sent == old(sent)
                     case Broken => dead && sent == old(sent)
                   }
      ensures Grew(old(sent), sent, wd) && (mask != IN_IGNORED ==> Quiet(sent, wd))
    {
      hide AllGood, SilentAfterIgnored, Quiet, Grew, Wire, WireAll, NameBytes, FileName;
      ghost var r := Record(wd, mask, NameBytes(name));
      GoodRecord(wd, mask, name);
      GrewNone(sent, wd);
      tried := tried + [r];
      if dead { return; }
      var o := Write();
      match o
      case Wrote =>
        Appended(sent, r);
        sent := sent + [r];
        stream := stream + Wire(r);
        if mask == IN_Q_OVERFLOW { owed := false; }
      case Refused =>
        overflow := true;
        owed := true;
      case Broken =>
        dead := true;
    }
  
    /** The events between two listings, in step through both. */
    method Merge(wd: int, mask: set<Flag>, was: seq<Kid>, now: seq<Kid>)
      requires PipeOk() && Quiet(sent, wd) && 1 <= wd < 0x8000_0000 && FileNames(was) && FileNames(now)
      modifies `dead, `overflow, `tried, `sent, `stream, `owed, `answers
      ensures PipeOk() && Quiet(sent, wd) && Grew(old(sent), sent, wd) && (old(dead) ==> dead)
      ensures tried == old(tried) + Records(wd, Diff(Kinds(mask), was, now))
      ensures Sorted(was) && Sorted(now) ==> Exactly(tried[|old(tried)|..], wd, mask, was, now)
    {
      hide PipeOk, Quiet, Grew, NameBytes, FileName, FileNames, Kinds, Kept, Diff, Less, Records, Sorted, Exactly;
      if Sorted(was) && Sorted(now) { RecordsExactly(wd, mask, was, now); }
      ghost var kinds, es, start := Kinds(mask), [], sent;
      var i, j := 0, 0;
      GrewNone(sent, wd);
      RecordsSplit(wd, [], []);
      assert was[0..] == was && now[0..] == now;
      while i < |was| || j < |now|
        invariant 0 <= i <= |was| && 0 <= j <= |now|
        invariant PipeOk() && Quiet(sent, wd) && Grew(start, sent, wd) && (old(dead) ==> dead)
        invariant tried == old(tried) + Records(wd, es) && es + Diff(kinds, was[i..], now[j..]) == Diff(kinds, was, now)
        decreases |was| - i + |now| - j
      {
        ghost var more, sent0 := [], sent;
        more, i, j := MergeStep(wd, mask, was, now, i, j);
        GrewTwice(start, sent0, sent, wd);
        RecordsSplit(wd, es, more);
        assert es + more + Diff(kinds, was[i..], now[j..]) == es + (more + Diff(kinds, was[i..], now[j..]));
        es := es + more;
      }
      EndOfDiff(kinds, was[i..], now[j..]);
      assert es + [] == es;
    }

    /** The smaller of the two next names, or both when they are the same. */
    method MergeStep(wd: int, mask: set<Flag>, was: seq<Kid>, now: seq<Kid>, i: nat, j: nat) returns (ghost more: seq<Event>, i': nat, j': nat)
      requires PipeOk() && Quiet(sent, wd) && 1 <= wd < 0x8000_0000 && FileNames(was) && FileNames(now)
      requires i <= |was| && j <= |now| && (i < |was| || j < |now|)
      modifies `dead, `overflow, `tried, `sent, `stream, `owed, `answers
      ensures PipeOk() && Quiet(sent, wd) && Grew(old(sent), sent, wd) && (old(dead) ==> dead)
      ensures i <= i' <= |was| && j <= j' <= |now| && i + j < i' + j'
      ensures tried == old(tried) + Records(wd, more)
      ensures Diff(Kinds(mask), was[i..], now[j..]) == more + Diff(Kinds(mask), was[i'..], now[j'..])
    {
      hide PipeOk, Quiet, Grew, NameBytes, FileName, Kept, Diff, Less, Records;
      DiffStep(Kinds(mask), was, now, i, j);
      i', j' := i, j;
      assert i < |was| ==> was[i] in was;
      assert j < |now| ==> now[j] in now;
      if j == |now| || (i < |was| && Less(was[i].name, now[j].name)) {
        more := EmitIf(wd, On(Delete) in mask, Event(Delete, was[i].isdir, was[i].name));
        i' := i + 1;
      } else if i == |was| || was[i].name != now[j].name {
        more := EmitIf(wd, On(Create) in mask, Event(Create, now[j].isdir, now[j].name));
        j' := j + 1;
      } else {
        more := EmitKept(wd, mask, was[i], now[j]);
        i', j' := i + 1, j + 1;
      }
    }

    /** One event, when it is asked for. */
    method EmitIf(wd: int, asked: bool, e: Event) returns (ghost es: seq<Event>)
      requires PipeOk() && Quiet(sent, wd) && 1 <= wd < 0x8000_0000 && FileName(e.name)
      modifies `dead, `overflow, `tried, `sent, `stream, `owed, `answers
      ensures PipeOk() && Quiet(sent, wd) && Grew(old(sent), sent, wd) && (old(dead) ==> dead)
      ensures es == (if asked then [e] else []) && tried == old(tried) + Records(wd, es)
    {
      es := [];
      GrewNone(sent, wd);
      if asked {
        Emit(wd, Bit(e.kind) + if e.isdir then IN_ISDIR else 0, e.name);
        es := [e];
      }
    }

    /** A name in both listings: replaced, or perhaps changed. */
    method EmitKept(wd: int, mask: set<Flag>, o: Kid, p: Kid) returns (ghost es: seq<Event>)
      requires PipeOk() && Quiet(sent, wd) && 1 <= wd < 0x8000_0000 && FileName(o.name) && FileName(p.name)
      modifies `dead, `overflow, `tried, `sent, `stream, `owed, `answers
      ensures PipeOk() && Quiet(sent, wd) && Grew(old(sent), sent, wd) && (old(dead) ==> dead)
      ensures es == Kept(Kinds(mask), o, p) && tried == old(tried) + Records(wd, es)
    {
      hide PipeOk, Quiet, Grew, NameBytes, FileName, Records;
      if o.ino != p.ino {
        es := EmitTwo(wd, On(Delete) in mask, Event(Delete, p.isdir, o.name), On(Create) in mask, Event(Create, p.isdir, p.name));
      } else {
        es := EmitTwo(wd,
          (o.mtime != p.mtime || o.mtimeNs != p.mtimeNs || o.size != p.size) && On(Modify) in mask, Event(Modify, p.isdir, p.name),
          o.mode != p.mode && On(Attrib) in mask, Event(Attrib, p.isdir, p.name));
      }
    }

    /** Two events, each when it is asked for. */
    method EmitTwo(wd: int, asked: bool, e: Event, asked2: bool, e2: Event) returns (ghost es: seq<Event>)
      requires PipeOk() && Quiet(sent, wd) && 1 <= wd < 0x8000_0000 && FileName(e.name) && FileName(e2.name)
      modifies `dead, `overflow, `tried, `sent, `stream, `owed, `answers
      ensures PipeOk() && Quiet(sent, wd) && Grew(old(sent), sent, wd) && (old(dead) ==> dead)
      ensures es == (if asked then [e] else []) + (if asked2 then [e2] else []) && tried == old(tried) + Records(wd, es)
    {
      hide PipeOk, Quiet, Grew, NameBytes, FileName, Records;
      ghost var a := sent;
      ghost var first := EmitIf(wd, asked, e);
      ghost var b := sent;
      ghost var second := EmitIf(wd, asked2, e2);
      GrewTwice(a, b, sent, wd);
      RecordsSplit(wd, first, second);
      es := first + second;
    }

    /** One record about a watch itself, when it is asked for. */
    method EmitSelf(wd: int, asked: bool, mask: nat) returns (ghost rs: seq<Record>)
      requires PipeOk() && Quiet(sent, wd) && 1 <= wd < 0x8000_0000 && mask < 0x1_0000_0000
      modifies `dead, `overflow, `tried, `sent, `stream, `owed, `answers
      ensures PipeOk() && (mask != IN_IGNORED ==> Quiet(sent, wd)) && Grew(old(sent), sent, wd) && (old(dead) ==> dead)
      ensures rs == (if asked then [Record(wd, mask, [])] else []) && tried == old(tried) + rs
    {
      rs := [];
      GrewNone(sent, wd);
      if asked {
        assert NameBytes("") == [];
        Emit(wd, mask, "");
        rs := [Record(wd, mask, [])];
      }
    }

    /** Two records about a watch itself. */
    method EmitBoth(wd: int, asked: bool, mask: nat, asked2: bool, mask2: nat) returns (ghost rs: seq<Record>)
      requires PipeOk() && Quiet(sent, wd) && 1 <= wd < 0x8000_0000 && mask < 0x1_0000_0000 && mask2 < 0x1_0000_0000 && mask != IN_IGNORED
      modifies `dead, `overflow, `tried, `sent, `stream, `owed, `answers
      ensures PipeOk() && (mask2 != IN_IGNORED ==> Quiet(sent, wd)) && Grew(old(sent), sent, wd) && (old(dead) ==> dead)
      ensures rs == (if asked then [Record(wd, mask, [])] else []) + (if asked2 then [Record(wd, mask2, [])] else [])
      ensures tried == old(tried) + rs
    {
      hide PipeOk, Quiet, Grew;
      ghost var a := sent;
      ghost var first := EmitSelf(wd, asked, mask);
      ghost var b := sent;
      ghost var second := EmitSelf(wd, asked2, mask2);
      GrewTwice(a, b, sent, wd);
      rs := first + second;
    }

    /** Scans one watch. */
    method ScanWatch(i: nat, v: View)
      requires i < |watches| && !watches[i].dropped && GoodView(v) && SortedView(v)
      requires Valid()
      modifies `dead, `overflow, `tried, `sent, `stream, `owed, `answers, `watches
      ensures Valid() && (old(dead) ==> dead)
      ensures tried == old(tried) + ScanDue(old(watches[i]), v)
      ensures Told(old(watches[i]), v, tried[|old(tried)|..]) && |watches| == |old(watches)| && Became(old(watches[i]), v, watches[i])
      ensures watches == old(watches)[i := Scanned(old(watches[i]), v)]
    {
      hide PipeOk, Quiet, Grew, FileName, Sorted, Diff, Kinds, Records, Told, Became, Exactly;
      var w := watches[i];
      assert GoodWatch(w, nextWd, sent);
      ScanMeans(w, v);
      ghost var before := sent;
      GrewNone(sent, w.wd);
      match v {
        case Unreadable =>
        case Gone =>
          ghost var rs := EmitBoth(w.wd, DeleteSelf in w.mask, IN_DELETE_SELF, !w.isdir || w.mask != {}, IN_IGNORED);
          watches := watches[i := w.(dropped := true)];
        case Listing(kids) =>
          if w.isdir {
            Merge(w.wd, w.mask, w.kids, kids);
            watches := watches[i := w.(kids := kids)];
          }
        case Stat(k) =>
          if !w.isdir {
            if k.ino != w.self.ino {
              ghost var rs := EmitSelf(w.wd, On(Attrib) in w.mask, IN_ATTRIB);
            } else {
              ghost var rs := EmitBoth(w.wd, Touched(w.self, k) && On(Modify) in w.mask, IN_MODIFY,
                k.mode != w.self.mode && On(Attrib) in w.mask, IN_ATTRIB);
            }
            watches := watches[i := w.(self := k)];
          }
      }
      ScannedKeeps(old(watches), i, v, nextWd, before, sent);
      assert watches == old(watches)[i := Scanned(w, v)];
    }

    /** One pass of the scan thread: word of dropped events first, then every live watch, then the
        watches that went away are forgotten. */
    method ScanPass(views: seq<View>)
      requires |views| == |watches| && forall i {:trigger views[i]} :: 0 <= i < |views| ==> GoodView(views[i]) && SortedView(views[i])
      requires Valid()
      modifies `dead, `overflow, `tried, `sent, `stream, `owed, `answers, `watches
      ensures Valid() && (old(dead) ==> dead)
      ensures old(dead) ==> tried == old(tried) && watches == old(watches)
      ensures !old(dead) ==>
                && tried == old(tried) + (if old(overflow) then [Record(-1, 0x4000, [])] else []) + AllDue(old(watches), views, |views|)
                && watches == Alive(AllScanned(old(watches), views, |views|))
                && Passed(old(watches), views, watches)
                && AllTold(old(watches), views, old(tried) + (if old(overflow) then [Record(-1, 0x4000, [])] else []), tried)
    {
      hide PipeOk, GoodWatches, GoodView, SortedView, Scanned, ScanDue, Passed, AllTold;
      if dead { return; }
      SortedWatches(watches, nextWd, sent);
      PassMeans(watches, views);
      ghost var start := tried + (if overflow then [Record(-1, 0x4000, [])] else []);
      PassTold(watches, views, start);
      if overflow { TellOverflow(); }
      ghost var said := tried;
      ScanAll(views);
      assert old(overflow) ==> tried == old(tried) + ([Record(-1, IN_Q_OVERFLOW, [])] + AllDue(old(watches), views, |views|));
      Reap();
    }

    /** Every live watch in turn. */
    method ScanAll(views: seq<View>)
      requires |views| == |watches| && forall i {:trigger views[i]} :: 0 <= i < |views| ==> GoodView(views[i]) && SortedView(views[i])
      requires Valid()
      modifies `dead, `overflow, `tried, `sent, `stream, `owed, `answers, `watches
      ensures Valid() && (old(dead) ==> dead)
      ensures tried == old(tried) + AllDue(old(watches), views, |views|) && watches == AllScanned(old(watches), views, |views|)
    {
      hide PipeOk, GoodWatches, GoodView, SortedView, Scanned, ScanDue, Told, Became;
      var i := 0;
      ghost var said, ws := tried, watches;
      assert said + [] == said;
      while i < |watches|
        invariant 0 <= i <= |watches| == |views| && Valid() && (old(dead) ==> dead)
        invariant tried == said + AllDue(ws, views, i) && watches == AllScanned(ws, views, i)
      {
        assert watches[i] == watches[i..][0] == ws[i];
        if !watches[i].dropped { ScanWatch(i, views[i]); }
        i := i + 1;
        assert AllDue(ws, views, i) == AllDue(ws, views, i - 1) + if ws[i - 1].dropped then [] else ScanDue(ws[i - 1], views[i - 1]);
      }
    }

    /** Forgets the watches that went away. */
    method Reap()
      requires Valid()
      modifies `watches
      ensures Valid() && watches == Alive(old(watches))
      ensures forall w: Watch {:trigger w in watches} :: w in watches <==> w in old(watches) && !w.dropped
    {
      hide PipeOk, GoodWatches;
      ghost var all := watches;
      var i := 0;
      assert watches[..0] == [];
      while i < |watches|
        invariant 0 <= i <= |watches| && Valid()
        invariant Alive(watches[..i]) == watches[..i] && Alive(watches) == Alive(all)
        decreases |watches| - i
      {
        if !watches[i].dropped {
          AliveAt(watches, i);
          i := i + 1;
        } else {
          AliveWithout(watches, i);
          RemovedGood(watches, i, nextWd, sent);
          ghost var head := watches[..i];
          watches := watches[..i] + watches[i + 1..];
          assert watches[..i] == head;
        }
      }
      assert watches[..i] == watches;
      AliveMeans(all);
    }

    /** Tells the reader that records were dropped; when even that is refused, again next time. */
    method TellOverflow()
      requires Valid() && !dead && overflow
      modifies `dead, `overflow, `tried, `sent, `stream, `owed, `answers
      ensures Valid() && tried == old(tried) + [Record(-1, IN_Q_OVERFLOW, [])]
    {
      hide Grew, Quiet;
      NobodyGone(sent);
      assert NameBytes("") == [];
      ghost var before := sent;
      overflow := false;
      Emit(-1, IN_Q_OVERFLOW, "");
      OverflowKeeps(watches, nextWd, before, sent);
    }

    /** A watch on a path: the live one there is, or a new one that has seen its first listing. */
    method AddWatch(path: string, mask: set<Flag>, stat: Kid, first: View) returns (r: Result)
      requires GoodView(first) && SortedView(first) && nextWd < 0x7fff_ffff
      requires Valid()
      modifies `watches, `nextWd
      ensures Valid()
      ensures r.Failed? ==> watches == old(watches) && nextWd == old(nextWd)
      ensures r.Wd? && r.wd != old(nextWd) ==>
                && nextWd == old(nextWd) && |watches| == |old(watches)|
                && exists i :: 0 <= i < |watches| && r.wd == watches[i].wd && watches[i].path == path && !watches[i].dropped
                     && watches == old(watches)[i := old(watches)[i].(mask := if MaskAdd in mask then old(watches)[i].mask + mask else mask)]
      ensures r == Wd(old(nextWd)) ==> !Watching(old(watches), path)
      ensures r == Wd(old(nextWd)) ==>
                && nextWd == old(nextWd) + 1 && |watches| == |old(watches)| + 1 && watches[..|old(watches)|] == old(watches)
                && watches[|old(watches)|] ==
                     if stat.isdir then Fresh(old(nextWd), path, mask, stat, first)
                     else Watch(old(nextWd), path, mask, false, false, [], stat)
      ensures r == Wd(old(nextWd)) && |watches| == |old(watches)| + 1 ==>
                (watches[|old(watches)|].dropped <==> stat.isdir && first.Gone?)
      ensures var watched := exists w: Watch :: w in old(watches) && !w.dropped && w.path == path;
              if !exists f :: f in mask && (f.On? || f.DeleteSelf? || f.OtherEvent?) then r == Failed(EINVAL)
              else if OnlyDir in mask && !stat.isdir then r == Failed(ENOTDIR)
              else if watched && MaskCreate in mask then r == Failed(EEXIST)
              else if !watched && |old(watches)| >= 8192 then r == Failed(ENOSPC)
              else r.Wd? && (watched <==> r.wd != old(nextWd))
    {
      hide PipeOk, GoodWatches, Sorted, FileNames;
      if !AnyEvent(mask) { return Failed(EINVAL); }
      if OnlyDir in mask && !stat.isdir { return Failed(ENOTDIR); }
      var i := 0;
      while i < |watches|
        invariant 0 <= i <= |watches| && !Watching(watches[..i], path) && watches == old(watches) && nextWd == old(nextWd)
      {
        var w := watches[i];
        if !w.dropped && w.path == path {
          WatchingAt(watches, i, path);
          if MaskCreate in mask { return Failed(EEXIST); }
          var m := if MaskAdd in mask then w.mask + mask else mask;
          RemaskedGood(watches, i, m, nextWd, sent);
          watches := watches[i := w.(mask := m)];
          return Wd(w.wd);
        }
        NotWatchingAt(watches, i, path);
        i := i + 1;
      }
      assert watches[..i] == watches;
      if |watches| >= MAX_WATCHES { return Failed(ENOSPC); }
      ghost var ws := watches;
      var w := Watch(nextWd, path, {}, stat.isdir, false, [], stat);
      r := Wd(nextWd);
      NoneSorted();
      FreshWatchGood(watches, w, nextWd, sent);
      nextWd := nextWd + 1;
      if stat.isdir {
        SilentScan(w, first);
        w := Scanned(w, first);
      }
      FreshWatchGood(ws, w.(mask := mask), nextWd - 1, sent);
      watches := watches + [w.(mask := mask)];
    }

    /** The first listing: with an empty mask a scan says nothing, and a directory that went away
        in between is dropped without a word. */
    lemma SilentScan(w: Watch, first: View)
      requires w.isdir && w.mask == {}
      ensures ScanDue(w, first) == []
    {
      if first.Listing? {
        hide Sorted, FileNames;
        DiffUnasked(w.kids, first.kids);
        RecordsSplit(w.wd, [], []);
      }
    }

    /** Takes a watch away, saying so. */
    method RmWatch(wd: int) returns (r: Result)
      requires Valid()
      modifies `dead, `overflow, `tried, `sent, `stream, `owed, `answers, `watches
      ensures Valid() && (old(dead) ==> dead)
      ensures r == Wd(0) <==> exists i :: 0 <= i < |old(watches)| && old(watches)[i].wd == wd && !old(watches)[i].dropped
      ensures r != Wd(0) ==> r == Failed(EINVAL) && watches == old(watches) && tried == old(tried)
      ensures r == Wd(0) ==> tried == old(tried) + [Record(wd, 0x8000, [])]
      ensures r == Wd(0) ==> exists i :: 0 <= i < |old(watches)| && old(watches)[i].wd == wd && watches == old(watches)[..i] + old(watches)[i + 1..]
    {
      hide PipeOk, Sorted, FileNames, Grew;
      var i := 0;
      while i < |watches|
        invariant 0 <= i <= |watches|
        invariant forall k :: 0 <= k < i ==> watches[k].wd != wd || watches[k].dropped
      {
        if watches[i].wd == wd && !watches[i].dropped {
          ghost var before := sent;
          assert GoodWatch(watches[i], nextWd, sent);
          ghost var rs := EmitSelf(wd, true, IN_IGNORED);
          ScannedKeeps(watches, i, Gone, nextWd, before, sent);
          RemovedGood(watches[i := watches[i].(dropped := true)], i, nextWd, sent);
          watches := watches[..i] + watches[i + 1..];
          return Wd(0);
        }
        i := i + 1;
      }
      r := Failed(EINVAL);
    }

    /** The reader finds whole records and exactly those the pipe took; nothing about a watch comes
        after the word that it is gone; and while the reader is owed word of dropped records the
        next pass will try to give it. */
    lemma ReaderSees()
      requires Valid()
      ensures Parse(stream) == sent && SilentAfterIgnored(sent)
      ensures owed && !dead ==> overflow
    {
      ParseWireAll(sent, []);
      assert WireAll(sent) + [] == WireAll(sent) && sent + Parse([]) == sent;
    }
  }

  /** What AddWatch leaves of a fresh watch on a directory. */
  function Fresh(wd: int, path: string, mask: set<Flag>, stat: Kid, first: View): (w: Watch)
    requires stat.isdir
  {
    Scanned(Watch(wd, path, {}, true, false, [], stat), first).(mask := mask)
  }

  /** The first scan of a fresh watch says nothing of the listing the directory had when it was added
      exactly when that listing could be read then, or has nothing in it, or nobody asked to hear of
      what is created; else every name in it is announced as created. */
  lemma FreshSilent(wd: int, path: string, mask: set<Flag>, stat: Kid, first: View, kids: seq<Kid>)
    requires stat.isdir && (first == Listing(kids) || first.Unreadable?)
    ensures var due := ScanDue(Fresh(wd, path, mask, stat, first), Listing(kids));
            && (due == [] <==> first == Listing(kids) || kids == [] || On(Create) !in mask)
            && (due != [] ==> |due| == |kids| && forall i {:trigger kids[i]} :: 0 <= i < |kids| ==>
                  due[i] == RecordOf(wd, Event(Create, kids[i].isdir, kids[i].name)))
  {
    hide Diff;
    if first.Unreadable? { DiffFromNone(Kinds(mask), kids); } else { DiffSame(Kinds(mask), kids); }
  }

  predicate Watching(ws: seq<Watch>, path: string) {
    exists w: Watch :: w in ws && !w.dropped && w.path == path
  }

  lemma WatchingAt(ws: seq<Watch>, i: nat, path: string)
    requires i < |ws| && !ws[i].dropped && ws[i].path == path
    ensures Watching(ws, path)
  {
    assert ws[i] in ws;
  }

  lemma NotWatchingAt(ws: seq<Watch>, i: nat, path: string)
    requires i < |ws| && !Watching(ws[..i], path) && (ws[i].dropped || ws[i].path != path)
    ensures !Watching(ws[..i + 1], path)
  {
    assert ws[..i + 1] == ws[..i] + [ws[i]];
  }

  lemma RemaskedGood(ws: seq<Watch>, i: nat, m: set<Flag>, nextWd: int, sent: seq<Record>)
    requires GoodWatches(ws, nextWd, sent) && i < |ws|
    ensures GoodWatches(ws[i := ws[i].(mask := m)], nextWd, sent) && ws[i].wd < nextWd
  {
    assert GoodWatch(ws[i], nextWd, sent);
  }

  lemma NoneSorted()
    ensures Sorted([]) && FileNames([])
  {
  }

  lemma FreshWatchGood(ws: seq<Watch>, w: Watch, nextWd: int, sent: seq<Record>)
    requires GoodWatches(ws, nextWd, sent) && 1 <= nextWd == w.wd && Sorted(w.kids) && FileNames(w.kids)
    requires w.dropped || !Watching(ws, w.path)
    ensures GoodWatches(ws + [w], nextWd + 1, sent)
  {
    hide Sorted, FileNames;
    var ws' := ws + [w];
    forall j {:trigger ws'[j]} | 0 <= j < |ws'|
      ensures GoodWatch(ws'[j], nextWd + 1, sent)
    {
      if j < |ws| { assert GoodWatch(ws[j], nextWd, sent); }
    }
  }

  lemma {:induction false} DiffUnasked(was: seq<Kid>, now: seq<Kid>)
    ensures Diff({}, was, now) == []
    decreases |was| + |now|
  {
    hide Less;
    if was != [] { DiffUnasked(was[1..], now); }
    if now != [] { DiffUnasked(was, now[1..]); }
    if was != [] && now != [] { DiffUnasked(was[1..], now[1..]); }
  }

  lemma NobodyGone(sent: seq<Record>)
    requires SilentAfterIgnored(sent)
    ensures Quiet(sent, -1)
  {
  }

  lemma OverflowKeeps(ws: seq<Watch>, nextWd: int, before: seq<Record>, after: seq<Record>)
    requires GoodWatches(ws, nextWd, before) && Grew(before, after, -1) && 1 <= nextWd
    ensures GoodWatches(ws, nextWd, after)
  {
    hide Quiet, Grew, Sorted, FileNames;
    forall j {:trigger ws[j]} | 0 <= j < |ws|
      ensures GoodWatch(ws[j], nextWd, after)
    {
      assert GoodWatch(ws[j], nextWd, before);
      if !ws[j].dropped { QuietOthers(before, after, -1, ws[j].wd); }
    }
    GrewBelow(before, after, -1, nextWd);
  }

  lemma RecordsSplit(wd: int, a: seq<Event>, b: seq<Event>)
    ensures Records(wd, a + b) == Records(wd, a) + Records(wd, b)
    ensures Records(wd, []) == []
  {
  }

  lemma EndOfDiff(mask: set<Kind>, was: seq<Kid>, now: seq<Kid>)
    requires was == [] && now == []
    ensures Diff(mask, was, now) == []
  {
  }

  lemma DiffStep(mask: set<Kind>, was: seq<Kid>, now: seq<Kid>, i: nat, j: nat)
    requires i <= |was| && j <= |now| && (i < |was| || j < |now|)
    ensures var d := Diff(mask, was[i..], now[j..]);
            if j == |now| || (i < |was| && Less(was[i].name, now[j].name)) then
              d == (if Delete in mask then [Event(Delete, was[i].isdir, was[i].name)] else []) + Diff(mask, was[i + 1..], now[j..])
            else if i == |was| || was[i].name != now[j].name then
              d == (if Create in mask then [Event(Create, now[j].isdir, now[j].name)] else []) + Diff(mask, was[i..], now[j + 1..])
            else d == Kept(mask, was[i], now[j]) + Diff(mask, was[i + 1..], now[j + 1..])
  {
    hide Kept, Less;
    assert i < |was| ==> was[i..][1..] == was[i + 1..];
    assert j < |now| ==> now[j..][1..] == now[j + 1..];
  }

  /** What a pass says about the first n watches. */
  function AllDue(ws: seq<Watch>, views: seq<View>, n: nat): (rs: seq<Record>)
    requires n <= |ws| == |views|
  {
    if n == 0 then [] else AllDue(ws, views, n - 1) + if ws[n - 1].dropped then [] else ScanDue(ws[n - 1], views[n - 1])
  }

  function AllScanned(ws: seq<Watch>, views: seq<View>, n: nat): (r: seq<Watch>)
    requires n <= |ws| == |views|
    ensures |r| == |ws| && r[n..] == ws[n..]
  {
    if n == 0 then ws
    else
      var r := AllScanned(ws, views, n - 1);
      assert r[n - 1] == r[n - 1..][0] == ws[n - 1];
      assert r[n..] == r[n - 1..][1..] == ws[n - 1..][1..] == ws[n..];
      if ws[n - 1].dropped then r else r[n - 1 := Scanned(ws[n - 1], views[n - 1])]
  }

  function Alive(ws: seq<Watch>): (r: seq<Watch>) {
    if ws == [] then [] else (if ws[0].dropped then [] else [ws[0]]) + Alive(ws[1..])
  }

  lemma {:induction false} AliveSplit(a: seq<Watch>, b: seq<Watch>)
    ensures Alive(a + b) == Alive(a) + Alive(b)
    decreases |a|
  {
    if a == [] {
      assert a + b == b;
      assert Alive([]) == [] && [] + Alive(b) == Alive(b);
    } else {
      var rest := a[1..];
      AliveSplit(rest, b);
      assert (a + b)[1..] == rest + b && (a + b)[0] == a[0];
      var first := if a[0].dropped then [] else [a[0]];
      assert first + (Alive(rest) + Alive(b)) == (first + Alive(rest)) + Alive(b);
    }
  }

  lemma {:induction false} AliveMeans(ws: seq<Watch>)
    ensures forall w: Watch {:trigger w in Alive(ws)} :: w in Alive(ws) <==> w in ws && !w.dropped
    ensures (forall w: Watch {:trigger w in ws} :: w in ws ==> !w.dropped) ==> Alive(ws) == ws
  {
    if ws != [] {
      var rest := ws[1..];
      AliveMeans(rest);
      assert ws == [ws[0]] + rest;
      assert forall w: Watch {:trigger w in rest} :: w in rest ==> w in ws;
      assert ws[0] in ws;
    }
  }

  /** A pass scans every live watch and no other. */
  lemma {:induction false} AllScannedAt(ws: seq<Watch>, views: seq<View>, n: nat, i: nat)
    requires n <= |ws| == |views| && i < |ws|
    ensures AllScanned(ws, views, n)[i] == if i < n && !ws[i].dropped then Scanned(ws[i], views[i]) else ws[i]
  {
    hide Scanned;
    if n > 0 {
      AllScannedAt(ws, views, n - 1, i);
    }
  }

  /** What a pass says of watch i stands in one piece, with what it says of the watches before in front. */
  lemma {:induction false} AllDueAt(ws: seq<Watch>, views: seq<View>, n: nat, i: nat)
    requires i < n <= |ws| == |views| && !ws[i].dropped
    ensures AllDue(ws, views, i) + ScanDue(ws[i], views[i]) <= AllDue(ws, views, n)
  {
    hide ScanDue;
    if i < n - 1 { AllDueAt(ws, views, n - 1, i); }
  }

  /** After a pass the watches are those that were alive and are not gone, each with what was seen. */
  ghost predicate Passed(ws: seq<Watch>, views: seq<View>, ws': seq<Watch>)
    requires |ws| == |views|
  {
    && (forall i {:trigger views[i]} :: 0 <= i < |ws| && !ws[i].dropped && !views[i].Gone? ==> exists w :: w in ws' && Became(ws[i], views[i], w))
    && (forall w: Watch {:trigger w in ws'} :: w in ws' ==>
          exists i :: 0 <= i < |ws| && !ws[i].dropped && !views[i].Gone? && Became(ws[i], views[i], w))
  }

  /** rs stands in one piece in what was tried, behind start and some more. */
  ghost predicate Stands(start: seq<Record>, front: seq<Record>, rs: seq<Record>, tried: seq<Record>) {
    start + front + rs <= tried
  }

  /** What is to be told of a watch stands in one piece behind start. */
  ghost predicate ToldAfter(w: Watch, v: View, start: seq<Record>, tried: seq<Record>) {
    exists front, rs :: Told(w, v, rs) && Stands(start, front, rs, tried)
  }

  ghost predicate AllTold(ws: seq<Watch>, views: seq<View>, start: seq<Record>, tried: seq<Record>)
    requires |ws| == |views|
  {
    forall i {:trigger views[i]} :: 0 <= i < |views| && !ws[i].dropped ==> ToldAfter(ws[i], views[i], start, tried)
  }

  lemma ToldOne(w: Watch, v: View, start: seq<Record>, front: seq<Record>, rs: seq<Record>, due: seq<Record>)
    requires Told(w, v, rs) && front + rs <= due
    ensures ToldAfter(w, v, start, start + due)
  {
    hide Told;
    assert start + front + rs == start + (front + rs) && start + (front + rs) <= start + due;
    assert Stands(start, front, rs, start + due);
  }

  lemma PassTold(ws: seq<Watch>, views: seq<View>, start: seq<Record>)
    requires |ws| == |views| && forall i {:trigger views[i]} :: 0 <= i < |views| ==> SortedView(views[i])
    requires forall i {:trigger ws[i]} :: 0 <= i < |ws| ==> Sorted(ws[i].kids)
    ensures AllTold(ws, views, start, start + AllDue(ws, views, |views|))
  {
    hide Told, ToldAfter, Sorted, SortedView, ScanDue, AllDue;
    forall i {:trigger views[i]} | 0 <= i < |views| && !ws[i].dropped
      ensures ToldAfter(ws[i], views[i], start, start + AllDue(ws, views, |views|))
    {
      AllDueAt(ws, views, |views|, i);
      ScanMeans(ws[i], views[i]);
      ToldOne(ws[i], views[i], start, AllDue(ws, views, i), ScanDue(ws[i], views[i]), AllDue(ws, views, |views|));
    }
  }

  lemma SortedWatches(ws: seq<Watch>, nextWd: int, sent: seq<Record>)
    requires GoodWatches(ws, nextWd, sent)
    ensures forall i {:trigger ws[i]} :: 0 <= i < |ws| ==> Sorted(ws[i].kids)
  {
    hide Sorted;
    assert forall i {:trigger ws[i]} :: 0 <= i < |ws| ==> GoodWatch(ws[i], nextWd, sent);
  }

  lemma PassMeans(ws: seq<Watch>, views: seq<View>)
    requires |ws| == |views| && forall i {:trigger views[i]} :: 0 <= i < |views| ==> SortedView(views[i])
    requires forall i {:trigger ws[i]} :: 0 <= i < |ws| ==> Sorted(ws[i].kids)
    ensures Passed(ws, views, Alive(AllScanned(ws, views, |views|)))
  {
    hide Sorted, SortedView, Scanned, AllScanned, Alive, ScanDue, Told, Became;
    var mid := AllScanned(ws, views, |views|);
    AliveMeans(mid);
    forall i {:trigger views[i]} | 0 <= i < |ws|
      ensures mid[i] == (if ws[i].dropped then ws[i] else Scanned(ws[i], views[i]))
      ensures Became(ws[i], views[i], Scanned(ws[i], views[i])) && (mid[i].dropped <==> ws[i].dropped || views[i].Gone?)
    {
      AllScannedAt(ws, views, |views|, i);
      ScanMeans(ws[i], views[i]);
      BecameDropped(ws[i], views[i], Scanned(ws[i], views[i]));
    }
    forall w: Watch {:trigger w in Alive(mid)} | w in Alive(mid)
      ensures exists i :: 0 <= i < |ws| && !ws[i].dropped && !views[i].Gone? && Became(ws[i], views[i], w)
    {
      var i :| 0 <= i < |mid| && mid[i] == w;
      assert Became(ws[i], views[i], Scanned(ws[i], views[i]));
    }
    forall i {:trigger views[i]} | 0 <= i < |ws| && !ws[i].dropped && !views[i].Gone?
      ensures exists w :: w in Alive(mid) && Became(ws[i], views[i], w)
    {
      assert mid[i] in mid;
    }
  }

  lemma BecameDropped(w: Watch, v: View, w': Watch)
    ensures Became(w, v, w') ==> (w'.dropped <==> w.dropped || v.Gone?)
  {
  }

  lemma AliveOne(w: Watch)
    ensures Alive([w]) == if w.dropped then [] else [w]
  {
    assert [w][1..] == [];
  }

  lemma AliveAt(ws: seq<Watch>, i: nat)
    requires i < |ws| && !ws[i].dropped
    ensures Alive(ws[..i + 1]) == Alive(ws[..i]) + [ws[i]] && ws[..i + 1] == ws[..i] + [ws[i]]
  {
    hide Alive;
    AliveOne(ws[i]);
    AliveSplit(ws[..i], [ws[i]]);
    assert ws[..i + 1] == ws[..i] + [ws[i]];
  }

  lemma AliveWithout(ws: seq<Watch>, i: nat)
    requires i < |ws| && ws[i].dropped
    ensures Alive(ws[..i] + ws[i + 1..]) == Alive(ws)
  {
    AliveSplit(ws[..i], ws[i..]);
    AliveSplit(ws[..i], ws[i + 1..]);
    assert ws[i..][1..] == ws[i + 1..] && ws[i..][0] == ws[i];
    assert ws == ws[..i] + ws[i..] && [] + Alive(ws[i + 1..]) == Alive(ws[i + 1..]);
  }

  lemma RemovedGood(ws: seq<Watch>, i: nat, nextWd: int, sent: seq<Record>)
    requires GoodWatches(ws, nextWd, sent) && i < |ws|
    ensures GoodWatches(ws[..i] + ws[i + 1..], nextWd, sent)
  {
    hide GoodWatch;
  }
}
