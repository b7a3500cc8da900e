/** One waiter, any number of controllers and readers: the emulation as a transition system. */
module EpollWait {
  import opened EpollSet

  /** What a run has done to a descriptor's registration. */
  datatype Note =
    | Registers(fd: int)                        // ADD or MOD
    | Rearms(fd: int, dirs: set<Dir>)
    | Hands(fd: int, bits: set<Bit>)

  datatype Waiter =
    | Idle                                      // not in epoll_wait
    | Top                                       // about to rebuild the array
    | Parked(snap: seq<Slot>)                   // in poll with this array
    | Draining(snap: seq<Slot>, revents: seq<set<Bit>>)
    | Matching(snap: seq<Slot>, revents: seq<set<Bit>>)
    | Probing(snap: seq<Slot>, at: nat, dropped: nat)

  /** pending counts the threads that changed the list and have not written their byte yet. */
  datatype State = State(entries: seq<Entry>, pipe: nat, pending: nat, waiter: Waiter, max: nat, bad: nat, log: seq<Note>)

  datatype Event =
    | Control(epfd: int, op: Op, fd: int, req: Request, noMemory: bool)
    | ReadEnds(fd: int, rc: int, again: bool)
    | WriteEnds(fd: int, rc: int, want: int, again: bool)
    | PairWritten(rfd: int)                     // the other end of a recorded pair was written
    | Kick                                      // one pending byte is written
    | Enter(max: nat)
    | Snapshot
    | PollAnswers(waker: set<Bit>, revents: seq<set<Bit>>)
    | PollInterrupted(expired: bool)
    | PollBad
    | PollFails
    | DrainSome
    | DrainEnds(expired: bool)
    | Match(expired: bool)
    | Probe(gone: bool)
    | ProbeEnds

  function Initial(): (s: State) {
    State([], 0, 0, Idle, 1, 0, [])
  }

  predicate Enabled(s: State, e: Event) {
    match e
    case Control(_, _, _, _, _) => true
    case ReadEnds(_, _, _) => true
    case WriteEnds(_, _, _, _) => true
    case PairWritten(_) => true
    case Kick => s.pending > 0
    case Enter(max) => s.waiter.Idle? && max > 0
    case Snapshot => s.waiter.Top?
    case PollAnswers(waker, revents) => s.waiter.Parked? && |revents| == |s.waiter.snap|
    case PollInterrupted(_) => s.waiter.Parked?
    case PollBad => s.waiter.Parked?
    case PollFails => s.waiter.Parked?
    case DrainSome => s.waiter.Draining? && s.pipe > 0
    case DrainEnds(_) => s.waiter.Draining? && s.pipe == 0
    case Match(_) => s.waiter.Matching? && |s.waiter.revents| == |s.waiter.snap|
    case Probe(_) => s.waiter.Probing? && s.waiter.at < |s.waiter.snap|
    case ProbeEnds => s.waiter.Probing? && s.waiter.at == |s.waiter.snap|
  }

  function RearmCommit(s: State, fd: int, dirs: set<Dir>): (s': State) {
    var (entries, kick) := Rearmed(s.entries, fd, dirs);
    s.(entries := entries, pending := if kick then s.pending + 1 else s.pending, log := s.log + [Rearms(fd, dirs)])
  }

  function ControlCommit(s: State, epfd: int, op: Op, fd: int, req: Request, noMemory: bool): (s': State) {
    var (entries, r) := Controlled(s.entries, epfd, op, fd, req, noMemory);
    if r.Failed? then s
    else s.(entries := entries, pending := s.pending + 1, log := if op.Del? then s.log else s.log + [Registers(fd)])
  }

  function Notes(out: seq<Report>): (notes: seq<Note>) {
    if out == [] then [] else [Hands(out[0].fd, out[0].bits)] + Notes(out[1..])
  }

  function Silence(n: nat): (revents: seq<set<Bit>>) {
    seq(n, _ => {})
  }

  function After(s: State, e: Event, full: nat): (s': State)
    requires Enabled(s, e)
  {
    match e
    case Control(epfd, op, fd, req, noMemory) => ControlCommit(s, epfd, op, fd, req, noMemory)
    case ReadEnds(fd, rc, again) => if ReadRearms(rc, again) then RearmCommit(s, fd, {Reading}) else s
    case WriteEnds(fd, rc, want, again) => if WriteRearms(rc, want, again) then RearmCommit(s, fd, {Writing}) else s
    case PairWritten(rfd) => RearmCommit(s, rfd, {Reading})
    case Kick => s.(pending := s.pending - 1, pipe := if s.pipe < full then s.pipe + 1 else s.pipe)
    case Enter(max) => s.(waiter := Top, max := max, bad := 0)
    case Snapshot => s.(waiter := Parked(Slots(s.entries, |s.entries|)))
    case PollAnswers(waker, revents) =>
      s.(waiter := if In in waker then Draining(s.waiter.snap, revents) else Matching(s.waiter.snap, revents))
    case PollInterrupted(expired) =>
      s.(waiter := if expired then Matching(s.waiter.snap, Silence(|s.waiter.snap|)) else Top)
    case PollBad => s.(waiter := Probing(s.waiter.snap, 0, 0))
    case PollFails => s.(waiter := Idle)
    case DrainSome => s.(pipe := if s.pipe < 64 then 0 else s.pipe - 64)
    case DrainEnds(expired) =>
      s.(waiter := if (forall r | r in s.waiter.revents :: r == {}) && !expired then Top
                   else Matching(s.waiter.snap, s.waiter.revents))
    case Match(expired) => MatchCommit(s, expired)
    case Probe(gone) =>
      var fd := s.waiter.snap[s.waiter.at].fd;
      var i := Find(s.entries, fd);
      if gone && i >= 0
      then s.(entries := Removed(s.entries, i), waiter := Probing(s.waiter.snap, s.waiter.at + 1, s.waiter.dropped + 1))
      else s.(waiter := Probing(s.waiter.snap, s.waiter.at + 1, s.waiter.dropped))
    case ProbeEnds =>
      if s.waiter.dropped > 0 then s.(waiter := Top)
      else s.(waiter := if s.bad + 1 <= 8 then Top else Idle, bad := s.bad + 1)
  }

  function MatchCommit(s: State, expired: bool): (s': State)
    requires s.waiter.Matching? && |s.waiter.revents| == |s.waiter.snap|
  {
    var out := AtMost(Ready(s.entries, s.waiter.snap, s.waiter.revents), s.max);
    s.(entries := HandOutAll(s.entries, out), log := s.log + Notes(out), waiter := if out != [] || expired then Idle else Top)
  }

  // ------------------------------------------------------------------ what the notes say about an entry

  predicate Covers(bits: set<Bit>, d: Dir) {
    bits * {Err, Hup} != {} || (if d == Reading then bits * {In, Pri, RdHup} != {} else Out in bits)
  }

  /** An event covering the direction was handed out and nothing has armed it since. */
  predicate CoveredSince(log: seq<Note>, fd: int, d: Dir) {
    if log == [] then false
    else match log[|log| - 1] {
      case Registers(f) => if f == fd then false else CoveredSince(log[..|log| - 1], fd, d)
      case Rearms(f, dirs) => if f == fd && d in dirs then false else CoveredSince(log[..|log| - 1], fd, d)
      case Hands(f, bits) => if f == fd && Covers(bits, d) then true else CoveredSince(log[..|log| - 1], fd, d)
    }
  }

  /** The events handed out for a number since it was last registered. */
  function HandedSince(log: seq<Note>, fd: int): (n: nat) {
    if log == [] then 0
    else match log[|log| - 1] {
      case Registers(f) => if f == fd then 0 else HandedSince(log[..|log| - 1], fd)
      case Rearms(f, dirs) => HandedSince(log[..|log| - 1], fd)
      case Hands(f, bits) => HandedSince(log[..|log| - 1], fd) + if f == fd then 1 else 0
    }
  }

  predicate Arms(n: Note, fd: int, d: Dir) {
    n.fd == fd && (n.Registers? || (n.Rearms? && d in n.dirs))
  }

  /** Note i hands out an event covering the direction, and no later note arms it. */
  predicate CoveredAt(log: seq<Note>, fd: int, d: Dir, i: int) {
    && 0 <= i < |log| && log[i].Hands? && log[i].fd == fd && Covers(log[i].bits, d)
    && forall j {:trigger log[j]} :: i < j < |log| ==> !Arms(log[j], fd, d)
  }

  lemma CoveredAtExtends(log: seq<Note>, fd: int, d: Dir, i: int)
    requires log != [] && i < |log| - 1
    ensures CoveredAt(log, fd, d, i) <==> CoveredAt(log[..|log| - 1], fd, d, i) && !Arms(log[|log| - 1], fd, d)
  {
    hide Covers, Arms;
    assert forall j {:trigger log[j]} :: 0 <= j < |log| - 1 ==> log[j] == log[..|log| - 1][j];
  }

  lemma {:induction false} CoveredSinceMeans(log: seq<Note>, fd: int, d: Dir)
    ensures CoveredSince(log, fd, d) <==> exists i :: CoveredAt(log, fd, d, i)
  {
    if log != [] {
      var n, less := |log| - 1, log[..|log| - 1];
      CoveredSinceMeans(less, fd, d);
      assert CoveredAt(log, fd, d, n) <==> log[n].Hands? && log[n].fd == fd && Covers(log[n].bits, d);
      if i :| CoveredAt(less, fd, d, i) { CoveredAtExtends(log, fd, d, i); }
      if i :| CoveredAt(log, fd, d, i) && i < n { CoveredAtExtends(log, fd, d, i); }
    }
  }

  /** The armed directions of an entry are exactly what the run says they should be. */
  predicate Tracks(log: seq<Note>, e: Entry) {
    if LevelTriggered(e) then e.armed == Both()
    else if OneShot in e.events then HandedSince(log, e.fd) <= 1 && e.armed == if HandedSince(log, e.fd) == 0 then Both() else {}
    else
      && (Reading in e.armed <==> !CoveredSince(log, e.fd, Reading))
      && (Writing in e.armed <==> !CoveredSince(log, e.fd, Writing))
  }

  predicate Tracked(log: seq<Note>, entries: seq<Entry>) {
    forall e: Entry {:trigger e in entries} :: e in entries ==> Tracks(log, e)
  }

  /** One-shot entries in the array have had no event yet. */
  predicate Unspent(snap: seq<Slot>, entries: seq<Entry>) {
    forall slot: Slot, e: Entry {:trigger slot in snap, e in entries} ::
      slot in snap && e in entries && slot.fd == e.fd && OneShot in e.events ==> e.armed == Both()
  }

  predicate AllWatched(snap: seq<Slot>, entries: seq<Entry>) {
    forall e: Entry {:trigger e in entries} :: e in entries ==> Watched(snap, e)
  }

  predicate Holds(w: Waiter) {
    w.Parked? || w.Draining? || w.Matching?
  }

  ghost predicate Inv(s: State) {
    && Unique(s.entries)
    && Tracked(s.log, s.entries)
    && (Holds(s.waiter) ==> Distinct(s.waiter.snap) && Unspent(s.waiter.snap, s.entries))
    && (s.waiter.Matching? || s.waiter.Draining? ==> |s.waiter.revents| == |s.waiter.snap|)
    && (s.waiter.Parked? ==> s.pipe > 0 || s.pending > 0 || AllWatched(s.waiter.snap, s.entries))
  }

  lemma ControlKeeps(s: State, epfd: int, op: Op, fd: int, req: Request, noMemory: bool)
    requires Inv(s)
    ensures Inv(ControlCommit(s, epfd, op, fd, req, noMemory))
  {
    ControlledMeans(s.entries, epfd, op, fd, req, noMemory);
    var s' := ControlCommit(s, epfd, op, fd, req, noMemory);
    hide Watched;
    if s' != s {
      forall e: Entry {:trigger e in s'.entries} | e in s'.entries
        ensures Tracks(s'.log, e)
        ensures e in s.entries || e.armed == Both()
      {
        InRegistered(s'.entries, e);
        if !op.Del? {
          if e.fd == fd { OnlyOne(s'.entries, e, Entry(fd, req.events, req.data, Both())); }
          assert s'.log[..|s'.log| - 1] == s.log;
        }
      }
    }
  }

  lemma InRegistered(entries: seq<Entry>, e: Entry)
    requires e in entries
    ensures Registered(entries, e.fd)
  {
  }

  lemma OnlyOne(entries: seq<Entry>, a: Entry, b: Entry)
    requires Unique(entries) && a in entries && b in entries
    ensures a.fd == b.fd ==> a == b
  {
  }

  lemma RearmKeeps(s: State, fd: int, dirs: set<Dir>)
    requires Inv(s) && dirs <= Both()
    ensures Inv(RearmCommit(s, fd, dirs))
  {
    var s' := RearmCommit(s, fd, dirs);
    var i := Find(s.entries, fd);
    hide Watched;
    assert s'.log[..|s.log|] == s.log;
    if s'.entries != s.entries {
      ReplacedMeans(s.entries, i, s.entries[i].(armed := s.entries[i].armed + dirs));
    }
    forall e: Entry {:trigger e in s'.entries} | e in s'.entries
      ensures Tracks(s'.log, e)
    {
      if e in s.entries {
        assert Tracks(s.log, e);
        if e.fd == fd { OnlyOne(s.entries, e, s.entries[i]); }
      } else {
        assert s.entries[i] in s.entries;
        assert Tracks(s.log, s.entries[i]);
      }
    }
  }

  lemma HandKeeps(entries: seq<Entry>, log: seq<Note>, r: Report)
    requires Unique(entries) && Tracked(log, entries)
    requires forall e: Entry {:trigger e in entries} :: e in entries && e.fd == r.fd && OneShot in e.events ==> e.armed == Both()
    ensures Unique(HandOut(entries, r)) && Tracked(log + [Hands(r.fd, r.bits)], HandOut(entries, r))
  {
    var after, log', i := HandOut(entries, r), log + [Hands(r.fd, r.bits)], Find(entries, r.fd);
    assert log'[..|log|] == log;
    if i >= 0 {
      DisarmedKeeps(entries[i], r.bits);
      ReplacedMeans(entries, i, Disarmed(entries[i], r.bits));
      assert entries[i] in entries;
    }
    forall e: Entry {:trigger e in after} | e in after
      ensures Tracks(log', e)
    {
      if e in entries {
        assert Tracks(log, e);
        if e.fd == r.fd {
          assert i >= 0;
          OnlyOne(entries, e, entries[i]);
        }
      } else {
        assert Tracks(log, entries[i]);
      }
    }
  }

  lemma {:induction false} HandAllKeeps(entries: seq<Entry>, log: seq<Note>, out: seq<Report>)
    requires Unique(entries) && Tracked(log, entries) && DistinctReports(out)
    requires forall e: Entry, r: Report {:trigger e in entries, r in out} ::
               e in entries && r in out && e.fd == r.fd && OneShot in e.events ==> e.armed == Both()
    ensures Unique(HandOutAll(entries, out)) && Tracked(log + Notes(out), HandOutAll(entries, out))
    decreases |out|
  {
    hide Tracks, Disarmed;
    if out == [] {
      assert log + Notes(out) == log;
    } else {
      var r, rest := out[0], out[1..];
      assert r in out;
      HandKeeps(entries, log, r);
      var mid, log' := HandOut(entries, r), log + [Hands(r.fd, r.bits)];
      forall e: Entry, q: Report {:trigger e in mid, q in rest} | e in mid && q in rest && e.fd == q.fd && OneShot in e.events
        ensures e.armed == Both()
      {
        HandOutOthers(entries, r, e);
        assert q in out && q.fd != r.fd;
      }
      HandAllKeeps(mid, log', rest);
      assert log + Notes(out) == log' + Notes(rest);
    }
  }

  lemma HandOutOthers(entries: seq<Entry>, r: Report, e: Entry)
    requires Unique(entries) && e in HandOut(entries, r) && e.fd != r.fd
    ensures e in entries
  {
    var i := Find(entries, r.fd);
    if i >= 0 {
      DisarmedKeeps(entries[i], r.bits);
      ReplacedMeans(entries, i, Disarmed(entries[i], r.bits));
    }
  }

  lemma MatchKeeps(s: State, expired: bool)
    requires Inv(s) && s.waiter.Matching?
    ensures Inv(MatchCommit(s, expired))
  {
    var out := AtMost(Ready(s.entries, s.waiter.snap, s.waiter.revents), s.max);
    hide Ready, AtMost, HandOutAll, Notes, Tracked, Unspent;
    MatchUnspent(s);
    HandAllKeeps(s.entries, s.log, out);
  }

  /** What is about to be handed out is distinct, and a one-shot entry among it is still armed. */
  lemma MatchUnspent(s: State)
    requires Inv(s) && s.waiter.Matching?
    ensures var out := AtMost(Ready(s.entries, s.waiter.snap, s.waiter.revents), s.max);
            && DistinctReports(out)
            && forall e: Entry, r: Report {:trigger e in s.entries, r in out} ::
                 e in s.entries && r in out && e.fd == r.fd && OneShot in e.events ==> e.armed == Both()
  {
    var snap, revents := s.waiter.snap, s.waiter.revents;
    var ready := Ready(s.entries, snap, revents);
    var out := AtMost(ready, s.max);
    hide Tracks, Disarmed, Ready;
    ReadyMeans(s.entries, snap, revents);
    forall e: Entry, r: Report {:trigger e in s.entries, r in out} | e in s.entries && r in out && e.fd == r.fd && OneShot in e.events
      ensures e.armed == Both()
    {
      assert r in ready;
      var k :| 0 <= k < |snap| && snap[k].fd == r.fd && r.bits <= snap[k].events + {Err, Hup};
      assert snap[k] in snap;
    }
  }

  lemma SnapshotKeeps(s: State)
    requires Inv(s) && s.waiter.Top?
    ensures Inv(s.(waiter := Parked(Slots(s.entries, |s.entries|))))
  {
    hide Slots;
    var snap := Slots(s.entries, |s.entries|);
    SlotsMean(s.entries);
    forall slot: Slot, e: Entry {:trigger slot in snap, e in s.entries} |
      slot in snap && e in s.entries && slot.fd == e.fd && OneShot in e.events
      ensures e.armed == Both()
    {
      assert Asked(s.entries, slot);
      var x :| x in s.entries && Polled(x) && slot == Slot(x.fd, Wanted(x));
      OnlyOne(s.entries, e, x);
      assert Tracks(s.log, x);
    }
  }

  lemma ProbeKeeps(s: State, i: int, w: Waiter)
    requires Inv(s) && 0 <= i < |s.entries| && w.Probing?
    ensures Inv(s.(entries := Removed(s.entries, i), waiter := w))
  {
    hide Tracks;
    RemovedMeans(s.entries, i);
  }

  lemma AfterKeeps(s: State, e: Event, full: nat)
    requires Inv(s) && Enabled(s, e) && 0 < full
    ensures Inv(After(s, e, full))
  {
    hide Tracked, Unspent, AllWatched, Distinct, RearmCommit, ControlCommit, MatchCommit, Slots, Unique;
    match e
    case Control(epfd, op, fd, req, noMemory) => ControlKeeps(s, epfd, op, fd, req, noMemory);
    case ReadEnds(fd, _, _) => RearmKeeps(s, fd, {Reading});
    case WriteEnds(fd, _, _, _) => RearmKeeps(s, fd, {Writing});
    case PairWritten(rfd) => RearmKeeps(s, rfd, {Reading});
    case Snapshot => SnapshotKeeps(s);
    case Match(expired) => MatchKeeps(s, expired);
    case Probe(gone) =>
      var i := Find(s.entries, s.waiter.snap[s.waiter.at].fd);
      if gone && i >= 0 { ProbeKeeps(s, i, Probing(s.waiter.snap, s.waiter.at + 1, s.waiter.dropped + 1)); }
    case _ =>
  }

  // ------------------------------------------------------------------ whole runs

  /** The states a run goes through, for a waker pipe that holds `full` bytes. */
  ghost predicate Run(full: nat, states: seq<State>, events: seq<Event>) {
    && |states| == |events| + 1
    && states[0] == Initial()
    && forall i {:trigger events[i]} :: 0 <= i < |events| ==>
         Enabled(states[i], events[i]) && states[i + 1] == After(states[i], events[i], full)
  }

  lemma {:induction false} Reached(full: nat, states: seq<State>, events: seq<Event>, n: nat)
    requires 0 < full && Run(full, states, events) && n < |states|
    ensures Inv(states[n])
  {
    hide Inv, After;
    if n > 0 {
      Reached(full, states, events, n - 1);
      assert Enabled(states[n - 1], events[n - 1]);
      AfterKeeps(states[n - 1], events[n - 1], full);
    } else {
      InitialKeeps();
    }
  }

  lemma InitialKeeps()
    ensures Inv(Initial())
  {
  }

  /** No lost wakeup: whenever the waiter is in poll, every entry it should be polling is in its
      array with all the bits wanted now, or a wakeup is in the pipe or on its way there. */
  lemma NoLostWakeup(full: nat, states: seq<State>, events: seq<Event>, n: nat, e: Entry)
    requires 0 < full && Run(full, states, events) && n < |states|
    requires states[n].waiter.Parked? && e in states[n].entries
    ensures Listens(states[n].waiter.snap, e) || states[n].pipe > 0 || states[n].pending > 0
  {
    Reached(full, states, events, n);
    WatchedListens(states[n].waiter.snap, e);
  }

  /** es takes s to t. */
  ghost predicate Leads(s: State, es: seq<Event>, t: State, full: nat)
    decreases |es|
  {
    if es == [] then s == t else Enabled(s, es[0]) && Leads(After(s, es[0], full), es[1..], t, full)
  }

  lemma LeadsOn(s: State, e: Event, es: seq<Event>, t: State, full: nat)
    requires Enabled(s, e) && Leads(After(s, e, full), es, t, full)
    ensures Leads(s, [e] + es, t, full)
  {
    assert ([e] + es)[1..] == es;
  }

  /** A wakeup works: from poll, with a byte in the pipe or due, the bytes alone bring the waiter back
      to poll with an array that asks all it should. */
  lemma Wakes(s: State, full: nat) returns (es: seq<Event>, t: State)
    requires s.waiter.Parked? && (s.pipe > 0 || s.pending > 0) && 0 < full && Unique(s.entries)
    ensures Leads(s, es, t, full)
    ensures t.waiter.Parked? && t.pipe == 0 && t.entries == s.entries && t.log == s.log
    ensures forall e {:trigger e in t.entries} :: e in t.entries ==> Asks(t.waiter.snap, e)
    decreases s.pending
  {
    if s.pipe == 0 {
      var kicked := After(s, Kick, full);
      var es0;
      es0, t := Wakes(kicked, full);
      LeadsOn(s, Kick, es0, t, full);
      es := [Kick] + es0;
    } else {
      var answered := PollAnswers({In}, Silence(|s.waiter.snap|));
      var drained;
      es, drained := Drains(After(s, answered, full), full);
      t := After(drained, Snapshot, full);
      assert [Snapshot][1..] == [] && Leads(drained, [Snapshot], t, full);
      LeadsTwice(After(s, answered, full), es, drained, [Snapshot], t, full);
      LeadsOn(s, answered, es + [Snapshot], t, full);
      es := [answered] + (es + [Snapshot]);
      SlotsMean(s.entries);
    }
  }

  lemma {:induction false} LeadsTwice(s: State, es: seq<Event>, m: State, fs: seq<Event>, t: State, full: nat)
    requires Leads(s, es, m, full) && Leads(m, fs, t, full)
    ensures Leads(s, es + fs, t, full)
    decreases |es|
  {
    hide After, Enabled;
    if es == [] {
      assert es + fs == fs;
    } else {
      LeadsTwice(After(s, es[0], full), es[1..], m, fs, t, full);
      assert (es + fs)[1..] == es[1..] + fs;
    }
  }

  /** The pipe is read empty, and with nothing to hand out the waiter starts over. */
  lemma {:induction false} Drains(s: State, full: nat) returns (es: seq<Event>, t: State)
    requires s.waiter.Draining? && s.waiter.revents == Silence(|s.waiter.snap|)
    ensures Leads(s, es, t, full) && t == s.(pipe := 0, waiter := Top)
    decreases s.pipe
  {
    if s.pipe > 0 {
      var es0;
      es0, t := Drains(After(s, DrainSome, full), full);
      LeadsOn(s, DrainSome, es0, t, full);
      es := [DrainSome] + es0;
    } else {
      t := After(s, DrainEnds(false), full);
      es := [DrainEnds(false)];
      assert es[1..] == [];
    }
  }

  /** A read that ends with data or with nothing left arms the read side of an edge-triggered entry
      and owes a wakeup when that changed it; end of file and hard errors change nothing. */
  lemma ReadEndsArms(s: State, fd: int, rc: int, again: bool, full: nat)
    requires Unique(s.entries)
    ensures Armed(s, After(s, ReadEnds(fd, rc, again), full), fd, if rc > 0 || (rc == -1 && again) then {Reading} else {})
  {
    RearmedMeans(s.entries, fd, {Reading});
  }

  /** A write that ends short or with no room arms the write side; a full one does not. */
  lemma WriteEndsArms(s: State, fd: int, rc: int, want: int, again: bool, full: nat)
    requires Unique(s.entries)
    ensures Armed(s, After(s, WriteEnds(fd, rc, want, again), full), fd, if 0 < rc < want || (rc == -1 && again) then {Writing} else {})
  {
    RearmedMeans(s.entries, fd, {Writing});
  }

  /** A write to the other end of a recorded pair arms the read side. */
  lemma PairWrittenArms(s: State, rfd: int, full: nat)
    requires Unique(s.entries)
    ensures Armed(s, After(s, PairWritten(rfd), full), rfd, {Reading})
  {
    RearmedMeans(s.entries, rfd, {Reading});
  }

  ghost predicate Armed(s: State, t: State, fd: int, dirs: set<Dir>) {
    && |t.entries| == |s.entries| && t.waiter == s.waiter && t.pipe == s.pipe
    && t.pending == s.pending + (if t.entries != s.entries then 1 else 0)
    && forall i {:trigger t.entries[i]} {:trigger s.entries[i]} :: 0 <= i < |s.entries| ==>
         t.entries[i] == if s.entries[i].fd == fd && Et in s.entries[i].events && OneShot !in s.entries[i].events
                         then s.entries[i].(armed := s.entries[i].armed + dirs) else s.entries[i]
  }

  /** What a match hands out answers poll, in full unless maxevents cuts it off, and is noted. */
  lemma MatchDelivers(s: State, expired: bool, full: nat) returns (out: seq<Report>)
    requires Enabled(s, Match(expired)) && Unique(s.entries)
    ensures var t := After(s, Match(expired), full);
            && |out| <= s.max && Answers(s.entries, s.waiter.snap, s.waiter.revents, out, |out| < s.max)
            && t.waiter == (if out != [] || expired then Idle else Top)
            && |t.log| == |s.log| + |out| && t.log[..|s.log|] == s.log
            && forall i {:trigger out[i]} :: 0 <= i < |out| ==> t.log[|s.log| + i] == Hands(out[i].fd, out[i].bits)
  {
    hide Answers, Ready, HandOutAll;
    out := AtMost(Ready(s.entries, s.waiter.snap, s.waiter.revents), s.max);
    Handed(s.entries, s.waiter.snap, s.waiter.revents, out, s.max);
    NotesAt(out);
  }

  lemma {:induction false} NotesAt(out: seq<Report>)
    ensures |Notes(out)| == |out|
    ensures forall i {:trigger out[i]} :: 0 <= i < |out| ==> Notes(out)[i] == Hands(out[i].fd, out[i].bits)
  {
    if out != [] {
      NotesAt(out[1..]);
      assert forall i {:trigger out[i]} :: 1 <= i < |out| ==> out[i] == out[1..][i - 1];
    }
  }

  /** Arming never hides an event: a direction of an edge-triggered entry is disarmed exactly when
      an event covering it was handed out and neither a registration nor an I/O call that
      re-arms it has come since. */
  lemma DisarmedExactlyWhenHandedOut(full: nat, states: seq<State>, events: seq<Event>, n: nat, e: Entry, d: Dir)
    requires 0 < full && Run(full, states, events) && n < |states|
    requires e in states[n].entries && EdgeTriggered(e)
    ensures d !in e.armed <==> exists i :: CoveredAt(states[n].log, e.fd, d, i)
  {
    Reached(full, states, events, n);
    assert Tracks(states[n].log, e);
    CoveredSinceMeans(states[n].log, e.fd, d);
  }

  /** A one-shot entry has had at most one event since it was last added or modified, and is
      polled until it has had it. */
  lemma OneShotOnce(full: nat, states: seq<State>, events: seq<Event>, n: nat, e: Entry)
    requires 0 < full && Run(full, states, events) && n < |states|
    requires e in states[n].entries && OneShot in e.events
    ensures HandedSince(states[n].log, e.fd) <= 1
    ensures e.armed == if HandedSince(states[n].log, e.fd) == 0 then Both() else {}
  {
    Reached(full, states, events, n);
    assert Tracks(states[n].log, e);
  }

  /** An entry whose event was cut off, or that had none, stays armed as it was; the events handed
      out are bits the array asked for, or an error or hangup. */
  lemma CutOffStaysArmed(full: nat, states: seq<State>, events: seq<Event>, n: nat, k: nat)
    requires 0 < full && Run(full, states, events) && n < |events| && events[n].Match?
    requires k < |states[n].entries|
    ensures var s, s' := states[n], states[n + 1];
            && s.waiter.Matching? && |s.waiter.revents| == |s.waiter.snap| && |s'.entries| == |s.entries|
            && var out := AtMost(Ready(s.entries, s.waiter.snap, s.waiter.revents), s.max);
            && s'.log == s.log + Notes(out) && |out| <= s.max
            && ((forall i {:trigger out[i]} :: 0 <= i < |out| ==> out[i].fd != s.entries[k].fd) ==> s'.entries[k] == s.entries[k])
            && (forall r: Report {:trigger r in out} :: r in out ==>
                  exists slot: Slot :: slot in s.waiter.snap && slot.fd == r.fd && r.bits <= slot.events + {Err, Hup})
  {
    hide Run, Ready;
    RunStep(full, states, events, n);
    Reached(full, states, events, n);
    var s := states[n];
    var ready := Ready(s.entries, s.waiter.snap, s.waiter.revents);
    var out := AtMost(ready, s.max);
    ReadyMeans(s.entries, s.waiter.snap, s.waiter.revents);
    HandOutAllMeans(s.entries, out);
    forall r: Report {:trigger r in out} | r in out
      ensures exists slot: Slot :: slot in s.waiter.snap && slot.fd == r.fd && r.bits <= slot.events + {Err, Hup}
    {
      assert r in ready;
      var j :| 0 <= j < |s.waiter.snap| && s.waiter.snap[j].fd == r.fd && r.bits <= s.waiter.snap[j].events + {Err, Hup};
      assert s.waiter.snap[j] in s.waiter.snap;
    }
  }

  lemma RunStep(full: nat, states: seq<State>, events: seq<Event>, n: nat)
    requires Run(full, states, events) && n < |events|
    ensures |states| == |events| + 1
    ensures Enabled(states[n], events[n]) && states[n + 1] == After(states[n], events[n], full)
  {
  }
}
