/** One emulated epoll set: its interest list, what a wait polls, and what it hands out. */
module EpollSet {

  datatype Bit = In | Pri | Out | Err | Hup | RdHup | Nval | OneShot | Et

  datatype Dir = Reading | Writing

  datatype Entry = Entry(fd: int, events: set<Bit>, data: int, armed: set<Dir>)

  datatype Op = Add | Del | Mod | Other

  datatype Error = EINVAL | EFAULT | EEXIST | ENOENT | ENOMEM

  datatype Result = Done | Failed(error: Error)

  datatype Request = NoEvent | Event(events: set<Bit>, data: int)

  /** One slot of the array given to poll. */
  datatype Slot = Slot(fd: int, events: set<Bit>)

  /** One event handed to the caller; fd is known from the slot, the caller sees data. */
  datatype Report = Report(fd: int, bits: set<Bit>, data: int)

  function Both(): (d: set<Dir>) {
    {Reading, Writing}
  }

  predicate LevelTriggered(e: Entry) {
    Et !in e.events && OneShot !in e.events
  }

  predicate EdgeTriggered(e: Entry) {
    Et in e.events && OneShot !in e.events
  }

  function EffectiveArmed(e: Entry): (d: set<Dir>) {
    if LevelTriggered(e) then Both() else e.armed
  }

  function ToPoll(events: set<Bit>, armed: set<Dir>): (p: set<Bit>) {
    (if Reading in armed then events * {In, Pri, RdHup} else {}) + (if Writing in armed then events * {Out} else {})
  }

  function FromPoll(bits: set<Bit>): (e: set<Bit>) {
    bits * {In, Out, Pri, Err, Hup, RdHup} + (if Nval in bits then {Err} else {})
  }

  /** The bits of an entry that a wait polls for now. */
  function Wanted(e: Entry): (p: set<Bit>) {
    ToPoll(e.events, EffectiveArmed(e))
  }

  /** Whether an entry gets a slot at all. */
  predicate Polled(e: Entry) {
    Wanted(e) != {} || LevelTriggered(e)
  }

  /** What a wait should ask about an entry: every bit registered in a direction that is armed, all
      of them when it is level-triggered. */
  ghost predicate Wants(e: Entry, b: Bit) {
    && b in e.events && b in {In, Pri, RdHup, Out}
    && ((Et !in e.events && OneShot !in e.events) || (if b == Out then Writing else Reading) in e.armed)
  }

  lemma WantedMeans(e: Entry)
    ensures forall b {:trigger b in Wanted(e)} :: b in Wanted(e) <==> Wants(e, b)
    ensures Polled(e) <==> (Et !in e.events && OneShot !in e.events) || exists b :: Wants(e, b)
  {
    assert forall b {:trigger b in Wanted(e)} :: b in Wanted(e) <==> Wants(e, b);
    if b :| Wants(e, b) { assert b in Wanted(e); }
    if Wanted(e) != {} {
      var b :| b in Wanted(e);
      assert Wants(e, b);
    }
  }

  predicate Unique(entries: seq<Entry>) {
    forall i, j :: 0 <= i < j < |entries| ==> entries[i].fd != entries[j].fd
  }

  predicate Registered(entries: seq<Entry>, fd: int) {
    exists i :: 0 <= i < |entries| && entries[i].fd == fd
  }

  function Find(entries: seq<Entry>, fd: int): (i: int)
    ensures -1 <= i < |entries|
    ensures i >= 0 ==> entries[i].fd == fd
    ensures i < 0 <==> !Registered(entries, fd)
  {
    if entries == [] then -1
    else if entries[0].fd == fd then 0
    else
      var i := Find(entries[1..], fd);
      assert !Registered(entries[1..], fd) ==> !Registered(entries, fd) by {
        assert forall j :: 1 <= j < |entries| ==> entries[j] == entries[1..][j - 1];
      }
      if i < 0 then -1 else i + 1
  }

  function Removed(entries: seq<Entry>, i: int): (r: seq<Entry>)
    requires 0 <= i < |entries|
  {
    entries[i := entries[|entries| - 1]][..|entries| - 1]
  }

  lemma RemovedMeans(entries: seq<Entry>, i: int)
    requires Unique(entries) && 0 <= i < |entries|
    ensures Unique(Removed(entries, i))
    ensures forall e: Entry {:trigger e in entries} {:trigger e in Removed(entries, i)} :: e in Removed(entries, i) <==> e in entries && e != entries[i]
    ensures !Registered(Removed(entries, i), entries[i].fd)
  {
    var n, r := |entries| - 1, Removed(entries, i);
    forall e {:trigger e in r}
      ensures e in r <==> e in entries && e != entries[i]
    {
      if e in entries && e != entries[i] {
        var j :| 0 <= j <= n && entries[j] == e;
        if j < n { assert r[j] == e; } else { assert r[i] == e; }
      }
    }
  }

  lemma ReplacedMeans(entries: seq<Entry>, i: int, e: Entry)
    requires Unique(entries) && 0 <= i < |entries| && e.fd == entries[i].fd
    ensures Unique(entries[i := e])
    ensures forall x: Entry {:trigger x in entries} {:trigger x in entries[i := e]} :: x in entries[i := e] <==> (x in entries && x != entries[i]) || x == e
  {
    var r := entries[i := e];
    forall x {:trigger x in r}
      ensures x in r <==> (x in entries && x != entries[i]) || x == e
    {
      if x in entries && x != entries[i] {
        var j :| 0 <= j < |entries| && entries[j] == x;
        assert r[j] == x;
      }
      assert r[i] == e;
    }
  }

  // ------------------------------------------------------------------ epoll_ctl

  /** The interest list after a request, and the answer. */
  function Controlled(entries: seq<Entry>, epfd: int, op: Op, fd: int, req: Request, noMemory: bool): (r: (seq<Entry>, Result)) {
    if fd == epfd then (entries, Failed(EINVAL))
    else if (op.Add? || op.Mod?) && req.NoEvent? then (entries, Failed(EFAULT))
    else
      var i := Find(entries, fd);
      match op
      case Add =>
        if i >= 0 then (entries, Failed(EEXIST))
        else if noMemory then (entries, Failed(ENOMEM))
        else (entries + [Entry(fd, req.events, req.data, Both())], Done)
      case Mod =>
        if i < 0 then (entries, Failed(ENOENT))
        else (entries[i := Entry(fd, req.events, req.data, Both())], Done)
      case Del => if i < 0 then (entries, Failed(ENOENT)) else (Removed(entries, i), Done)
      case Other => (entries, Failed(EINVAL))
  }

  /** A request changes the registration of one number, or nothing when it fails; a number has
      one registration at most. */
  lemma ControlledMeans(entries: seq<Entry>, epfd: int, op: Op, fd: int, req: Request, noMemory: bool)
    requires Unique(entries)
    ensures var (after, r) := Controlled(entries, epfd, op, fd, req, noMemory);
            && Unique(after)
            && (r.Failed? ==> after == entries)
            && (r.Done? ==>
                  && fd != epfd
                  && (op.Add? <==> !Registered(entries, fd))
                  && (op.Del? <==> !Registered(after, fd))
                  && (forall e: Entry {:trigger e in entries} {:trigger e in after} :: e.fd != fd ==> (e in after <==> e in entries))
                  && (!op.Del? ==> req.Event? && Entry(fd, req.events, req.data, {Reading, Writing}) in after))
            && r == (if fd == epfd then Failed(EINVAL)
                     else if req.NoEvent? && (op.Add? || op.Mod?) then Failed(EFAULT)
                     else if op.Other? then Failed(EINVAL)
                     else if op.Add? && Registered(entries, fd) then Failed(EEXIST)
                     else if !op.Add? && !Registered(entries, fd) then Failed(ENOENT)
                     else if op.Add? && noMemory then Failed(ENOMEM)
                     else Done)
  {
    var i := Find(entries, fd);
    var after := Controlled(entries, epfd, op, fd, req, noMemory).0;
    if Controlled(entries, epfd, op, fd, req, noMemory).1.Done? {
      if op.Add? {
        assert after[|entries|].fd == fd;
      } else if op.Del? {
        RemovedMeans(entries, i);
      } else {
        ReplacedMeans(entries, i, Entry(fd, req.events, req.data, Both()));
        assert after[i].fd == fd;
      }
    }
  }

  // ------------------------------------------------------------------ re-arming

  /** The list after an I/O call showed that directions of fd must be watched again, and whether
      anything changed. ONESHOT entries re-arm through MOD alone. */
  function Rearmed(entries: seq<Entry>, fd: int, dirs: set<Dir>): (r: (seq<Entry>, bool)) {
    var i := Find(entries, fd);
    if i >= 0 && EdgeTriggered(entries[i]) && !(dirs <= entries[i].armed)
    then (entries[i := entries[i].(armed := entries[i].armed + dirs)], true)
    else (entries, false)
  }

  /** Exactly an edge-triggered entry for fd gains the directions; nothing else changes. */
  lemma RearmedMeans(entries: seq<Entry>, fd: int, dirs: set<Dir>)
    requires Unique(entries)
    ensures var (after, kick) := Rearmed(entries, fd, dirs);
            && |after| == |entries| && (kick <==> after != entries)
            && forall i {:trigger after[i]} {:trigger entries[i]} :: 0 <= i < |entries| ==>
                 after[i] == if entries[i].fd == fd && Et in entries[i].events && OneShot !in entries[i].events
                             then entries[i].(armed := entries[i].armed + dirs) else entries[i]
  {
    var i := Find(entries, fd);
    if i >= 0 {
      assert forall j {:trigger entries[j]} :: 0 <= j < |entries| && entries[j].fd == fd ==> j == i;
      if dirs <= entries[i].armed { assert entries[i].(armed := entries[i].armed + dirs) == entries[i]; }
    }
  }

  /** Whether a finished read re-arms: data as well as EAGAIN, not end of file or a hard error. */
  predicate ReadRearms(rc: int, again: bool) {
    rc > 0 || (rc == -1 && again)
  }

  /** Whether a finished write re-arms: a short write as well as EAGAIN. */
  predicate WriteRearms(rc: int, want: int, again: bool) {
    if rc > 0 then rc < want else rc == -1 && again
  }

  // ------------------------------------------------------------------ epoll_wait

  /** The slots for the first n entries. */
  function Slots(entries: seq<Entry>, n: nat): (snap: seq<Slot>)
    requires n <= |entries|
  {
    if n == 0 then []
    else Slots(entries, n - 1) + if Polled(entries[n - 1]) then [Slot(entries[n - 1].fd, Wanted(entries[n - 1]))] else []
  }

  predicate Distinct(snap: seq<Slot>) {
    forall i, j :: 0 <= i < j < |snap| ==> snap[i].fd != snap[j].fd
  }

  /** What the waiter polls for this descriptor includes everything it should. */
  predicate Watched(snap: seq<Slot>, e: Entry) {
    Polled(e) ==> exists i :: 0 <= i < |snap| && snap[i].fd == e.fd && Wanted(e) <= snap[i].events
  }

  /** A slot asks what some entry wants. */
  predicate Asked(entries: seq<Entry>, slot: Slot) {
    exists e :: e in entries && Polled(e) && slot == Slot(e.fd, Wanted(e))
  }

  /** The array asks at least what it should about an entry, and leaves it out only when it has
      nothing to ask and is not level-triggered. */
  ghost predicate Listens(snap: seq<Slot>, e: Entry) {
    (Et !in e.events && OneShot !in e.events) || (exists b :: Wants(e, b)) ==>
      exists i :: 0 <= i < |snap| && snap[i].fd == e.fd && forall b {:trigger b in snap[i].events} :: Wants(e, b) ==> b in snap[i].events
  }

  /** The array asks exactly what it should about an entry. */
  ghost predicate Asks(snap: seq<Slot>, e: Entry) {
    && Listens(snap, e)
    && (forall i {:trigger snap[i]} :: 0 <= i < |snap| && snap[i].fd == e.fd ==>
          && ((Et !in e.events && OneShot !in e.events) || exists b :: Wants(e, b))
          && forall b {:trigger b in snap[i].events} :: b in snap[i].events <==> Wants(e, b))
  }

  lemma WatchedListens(snap: seq<Slot>, e: Entry)
    ensures Watched(snap, e) <==> Listens(snap, e)
  {
    WantedMeans(e);
    if Listens(snap, e) && Polled(e) {
      var i :| 0 <= i < |snap| && snap[i].fd == e.fd && forall b {:trigger b in snap[i].events} :: Wants(e, b) ==> b in snap[i].events;
      assert Wanted(e) <= snap[i].events;
    }
  }

  lemma AskedExactly(entries: seq<Entry>, snap: seq<Slot>, e: Entry)
    requires Unique(entries) && e in entries && Watched(snap, e)
    requires forall slot {:trigger slot in snap} :: slot in snap ==> Asked(entries, slot)
    ensures Asks(snap, e)
  {
    WatchedListens(snap, e);
    WantedMeans(e);
    forall i {:trigger snap[i]} | 0 <= i < |snap| && snap[i].fd == e.fd
      ensures Polled(e) && snap[i].events == Wanted(e)
    {
      assert snap[i] in snap && Asked(entries, snap[i]);
    }
  }

  lemma {:induction false} SlotFor(entries: seq<Entry>, n: nat, i: nat) returns (k: nat)
    requires i < n <= |entries| && Polled(entries[i])
    ensures k < |Slots(entries, n)| && Slots(entries, n)[k] == Slot(entries[i].fd, Wanted(entries[i]))
  {
    hide Polled, Wanted;
    if i == n - 1 { k := |Slots(entries, n - 1)|; } else { k := SlotFor(entries, n - 1, i); }
  }

  lemma {:induction false} SlotFrom(entries: seq<Entry>, n: nat, k: nat) returns (i: nat)
    requires n <= |entries| && k < |Slots(entries, n)|
    ensures i < n && Polled(entries[i]) && Slots(entries, n)[k] == Slot(entries[i].fd, Wanted(entries[i]))
  {
    hide Polled, Wanted;
    if k == |Slots(entries, n - 1)| { i := n - 1; } else { i := SlotFrom(entries, n - 1, k); }
  }

  lemma {:induction false} SlotsDistinct(entries: seq<Entry>, n: nat)
    requires Unique(entries) && n <= |entries|
    ensures Distinct(Slots(entries, n))
  {
    hide Polled, Wanted;
    if n > 0 {
      SlotsDistinct(entries, n - 1);
      var less := Slots(entries, n - 1);
      forall k | 0 <= k < |less|
        ensures less[k].fd != entries[n - 1].fd
      {
        var i := SlotFrom(entries, n - 1, k);
      }
    }
  }

  /** A fresh array watches every entry in full and nothing else. */
  lemma SlotsMean(entries: seq<Entry>)
    requires Unique(entries)
    ensures var snap := Slots(entries, |entries|);
            && Distinct(snap)
            && (forall e {:trigger e in entries} :: e in entries ==> Watched(snap, e))
            && (forall slot {:trigger slot in snap} :: slot in snap ==> Asked(entries, slot))
            && (forall e {:trigger e in entries} :: e in entries ==> Asks(snap, e))
            && (forall slot {:trigger slot in snap} :: slot in snap ==> Registered(entries, slot.fd))
  {
    hide Polled, Wanted, Slots, Asks;
    var snap := Slots(entries, |entries|);
    SlotsDistinct(entries, |entries|);
    forall e {:trigger e in entries} | e in entries
      ensures Watched(snap, e)
    {
      if Polled(e) {
        var i :| 0 <= i < |entries| && entries[i] == e;
        var k := SlotFor(entries, |entries|, i);
      }
    }
    forall slot {:trigger slot in snap} | slot in snap
      ensures Asked(entries, slot)
    {
      var k :| 0 <= k < |snap| && snap[k] == slot;
      var i := SlotFrom(entries, |entries|, k);
      assert entries[i] in entries;
    }
    forall e {:trigger e in entries} | e in entries
      ensures Asks(snap, e)
    {
      AskedExactly(entries, snap, e);
    }
  }

  /** The bits of an answer that count as an event for a slot. */
  function Care(slot: Slot, revents: set<Bit>): (bits: set<Bit>) {
    revents * (slot.events + {Err, Hup, Nval})
  }

  predicate Hands(entries: seq<Entry>, slot: Slot, revents: set<Bit>) {
    Care(slot, revents) != {} && Find(entries, slot.fd) >= 0
  }

  /** An entry after the bits ev were handed out for it. */
  function Disarmed(e: Entry, ev: set<Bit>): (d: Entry) {
    if OneShot in e.events then e.(armed := {})
    else if Et in e.events then
      if ev * {Err, Hup} != {} then e.(armed := {})
      else
        e.(armed := e.armed - (if ev * {In, Pri, RdHup} != {} then {Reading} else {}) - (if Out in ev then {Writing} else {}))
    else e
  }

  /** What handing out bits leaves of an entry: a one-shot one is spent, an edge-triggered one loses
      the directions the bits speak of, an error or a hangup speaking of both. */
  ghost predicate LeftBy(e: Entry, bits: set<Bit>, d: Entry) {
    && d == e.(armed := d.armed)
    && (Reading in d.armed <==> Reading in e.armed && OneShot !in e.events && !(Et in e.events && bits * {In, Pri, RdHup, Err, Hup} != {}))
    && (Writing in d.armed <==> Writing in e.armed && OneShot !in e.events && !(Et in e.events && bits * {Out, Err, Hup} != {}))
  }

  lemma DisarmedMeans(e: Entry, bits: set<Bit>)
    ensures LeftBy(e, bits, Disarmed(e, bits))
  {
    if Out in bits { assert Out in bits * {Out, Err, Hup}; }
    if bits * {Out, Err, Hup} != {} { assert Out in bits || Err in bits || Hup in bits; }
    if Err in bits { assert Err in bits * {Err, Hup}; }
    if Hup in bits { assert Hup in bits * {Err, Hup}; }
    if bits * {In, Pri, RdHup, Err, Hup} != {} {
      var b :| b in bits * {In, Pri, RdHup, Err, Hup};
      assert b in bits * {In, Pri, RdHup} || b in bits * {Err, Hup};
    }
    if b :| b in bits * {In, Pri, RdHup} { assert b in bits * {In, Pri, RdHup, Err, Hup}; }
    if b :| b in bits * {Err, Hup} { assert b in bits * {In, Pri, RdHup, Err, Hup} && b in bits * {Out, Err, Hup}; }
  }

  /** A bit of an answer that counts: one asked for, or one poll may always report. */
  ghost predicate Counts(slot: Slot, revents: set<Bit>, b: Bit) {
    b in revents && (b in slot.events || b in {Err, Hup, Nval})
  }

  /** An event says what counts in the answer, with a bogus number spelled as an error, and carries
      the data its entry was registered with. */
  ghost predicate Reports(r: Report, e: Entry, slot: Slot, revents: set<Bit>) {
    && r.fd == slot.fd == e.fd && r.data == e.data
    && forall b {:trigger b in r.bits} :: b in r.bits <==>
         (b in {In, Out, Pri, RdHup, Err, Hup} && Counts(slot, revents, b)) || (b == Err && Nval in revents)
  }

  function ReportOf(entries: seq<Entry>, slot: Slot, revents: set<Bit>): (r: Report)
    requires Hands(entries, slot, revents)
  {
    Report(slot.fd, FromPoll(Care(slot, revents)), entries[Find(entries, slot.fd)].data)
  }

  function HandOut(entries: seq<Entry>, r: Report): (after: seq<Entry>) {
    var i := Find(entries, r.fd);
    if i >= 0 then entries[i := Disarmed(entries[i], r.bits)] else entries
  }

  function HandOutAll(entries: seq<Entry>, reports: seq<Report>): (after: seq<Entry>)
    decreases |reports|
  {
    if reports == [] then entries else HandOutAll(HandOut(entries, reports[0]), reports[1..])
  }

  /** The events an answer holds for the entries still registered, in slot order. */
  function Ready(entries: seq<Entry>, snap: seq<Slot>, answer: seq<set<Bit>>): (out: seq<Report>)
    requires |snap| == |answer|
  {
    if snap == [] then []
    else (if Hands(entries, snap[0], answer[0]) then [ReportOf(entries, snap[0], answer[0])] else [])
         + Ready(entries, snap[1..], answer[1..])
  }

  function AtMost(out: seq<Report>, max: nat): (r: seq<Report>) {
    if |out| <= max then out else out[..max]
  }

  /** Handing events out moves no entry and changes no registration. */
  predicate SameShape(a: seq<Entry>, b: seq<Entry>) {
    |a| == |b| && forall i {:trigger a[i]} {:trigger b[i]} :: 0 <= i < |a| ==> a[i] == b[i].(armed := a[i].armed)
  }

  lemma {:induction false} SameFind(a: seq<Entry>, b: seq<Entry>, fd: int)
    requires SameShape(a, b)
    ensures Find(a, fd) == Find(b, fd)
  {
    if a != [] { SameFind(a[1..], b[1..], fd); }
  }

  lemma {:induction false} HandOutAllShape(entries: seq<Entry>, reports: seq<Report>)
    ensures SameShape(HandOutAll(entries, reports), entries)
    decreases |reports|
  {
    if reports != [] { HandOutAllShape(HandOut(entries, reports[0]), reports[1..]); }
  }

  lemma {:induction false} HandOutAllAppend(entries: seq<Entry>, reports: seq<Report>, r: Report)
    ensures HandOutAll(entries, reports + [r]) == HandOut(HandOutAll(entries, reports), r)
    decreases |reports|
  {
    if reports == [] {
      assert [r][1..] == [];
    } else {
      HandOutAllAppend(HandOut(entries, reports[0]), reports[1..], r);
      assert (reports + [r])[1..] == reports[1..] + [r];
    }
  }

  predicate DistinctReports(reports: seq<Report>) {
    forall i, j :: 0 <= i < j < |reports| ==> reports[i].fd != reports[j].fd
  }

  /** Exactly the entries handed out are disarmed, each by the bits handed out for it. */
  lemma {:induction false} HandOutAllMeans(entries: seq<Entry>, reports: seq<Report>)
    requires Unique(entries) && DistinctReports(reports)
    ensures var after := HandOutAll(entries, reports);
            && |after| == |entries|
            && (forall i {:trigger after[i]} :: 0 <= i < |entries| && (forall k {:trigger reports[k]} :: 0 <= k < |reports| ==> reports[k].fd != entries[i].fd) ==>
                  after[i] == entries[i])
            && (forall i, k {:trigger after[i], reports[k]} :: 0 <= i < |entries| && 0 <= k < |reports| && reports[k].fd == entries[i].fd ==>
                  after[i] == Disarmed(entries[i], reports[k].bits))
    decreases |reports|
  {
    if reports != [] {
      var mid, rest, f := HandOut(entries, reports[0]), reports[1..], Find(entries, reports[0].fd);
      HandOutAllMeans(mid, rest);
      assert forall k {:trigger rest[k]} :: 0 <= k < |rest| ==> rest[k] == reports[k + 1];
      var after := HandOutAll(entries, reports);
      assert forall i {:trigger after[i]} :: 0 <= i < |entries| && i != f ==> mid[i] == entries[i] && reports[0].fd != entries[i].fd;
      forall i, k {:trigger after[i], reports[k]} | 0 <= i < |entries| && 0 <= k < |reports| && reports[k].fd == entries[i].fd
        ensures after[i] == Disarmed(entries[i], reports[k].bits)
      {
        if k > 0 { assert reports[k] == rest[k - 1]; }
      }
    }
  }

  /** What the events of an answer are: bits somebody asked for, or an error or hangup, on
      descriptors still registered, each at most once. */
  lemma {:induction false} ReadyMeans(entries: seq<Entry>, snap: seq<Slot>, answer: seq<set<Bit>>)
    requires |snap| == |answer| && Distinct(snap)
    ensures var out := Ready(entries, snap, answer);
            && DistinctReports(out)
            && (forall r: Report {:trigger r in out} :: r in out ==>
                  Registered(entries, r.fd)
                  && exists k :: 0 <= k < |snap| && snap[k].fd == r.fd && r.bits <= snap[k].events + {Err, Hup})
            && (forall k {:trigger snap[k]} :: 0 <= k < |snap| && Hands(entries, snap[k], answer[k]) ==>
                  ReportOf(entries, snap[k], answer[k]) in out)
  {
    if snap != [] {
      ReadyMeans(entries, snap[1..], answer[1..]);
      var out, rest := Ready(entries, snap, answer), Ready(entries, snap[1..], answer[1..]);
      forall r: Report {:trigger r in rest} | r in rest
        ensures r.fd != snap[0].fd
        ensures exists k :: 0 <= k < |snap| && snap[k].fd == r.fd && r.bits <= snap[k].events + {Err, Hup}
      {
        var k :| 0 <= k < |snap[1..]| && snap[1..][k].fd == r.fd && r.bits <= snap[1..][k].events + {Err, Hup};
        assert snap[k + 1].fd == r.fd;
      }
      forall k {:trigger snap[k]} | 0 <= k < |snap| && Hands(entries, snap[k], answer[k])
        ensures ReportOf(entries, snap[k], answer[k]) in out
      {
        if k > 0 { assert snap[1..][k - 1] == snap[k] && answer[1..][k - 1] == answer[k]; }
      }
      if Hands(entries, snap[0], answer[0]) {
        assert ReportOf(entries, snap[0], answer[0]).bits <= snap[0].events + {Err, Hup};
        assert forall j :: 0 <= j < |rest| ==> rest[j] in rest;
      }
    }
  }

  lemma ReportOfMeans(entries: seq<Entry>, slot: Slot, revents: set<Bit>)
    ensures Hands(entries, slot, revents) <==> Registered(entries, slot.fd) && exists b :: Counts(slot, revents, b)
    ensures Hands(entries, slot, revents) ==>
              exists e :: e in entries && Reports(ReportOf(entries, slot, revents), e, slot, revents)
  {
    if b :| Counts(slot, revents, b) { assert b in Care(slot, revents); }
    if Care(slot, revents) != {} {
      var b :| b in Care(slot, revents);
      assert Counts(slot, revents, b);
    }
    if Hands(entries, slot, revents) {
      var e := entries[Find(entries, slot.fd)];
      assert Reports(ReportOf(entries, slot, revents), e, slot, revents);
    }
  }

  /** Every event answers for a slot and a registered entry, and every slot with something that
      counts and an entry still registered has its event. */
  ghost predicate Answers(entries: seq<Entry>, snap: seq<Slot>, answer: seq<set<Bit>>, out: seq<Report>, all: bool)
    requires |snap| == |answer|
  {
    && (forall r: Report {:trigger r in out} :: r in out ==>
          exists k, e :: 0 <= k < |snap| && e in entries && Reports(r, e, snap[k], answer[k]))
    && (all ==> forall k {:trigger snap[k]} :: 0 <= k < |snap| && Registered(entries, snap[k].fd) && (exists b :: Counts(snap[k], answer[k], b)) ==>
          exists r: Report :: r in out && r.fd == snap[k].fd)
  }

  lemma {:induction false} ReadyAnswers(entries: seq<Entry>, snap: seq<Slot>, answer: seq<set<Bit>>)
    requires |snap| == |answer|
    ensures Answers(entries, snap, answer, Ready(entries, snap, answer), true)
  {
    hide Hands, ReportOf, Reports, Registered, Counts;
    if snap != [] {
      var rest := Ready(entries, snap[1..], answer[1..]);
      ReadyAnswers(entries, snap[1..], answer[1..]);
      ReportOfMeans(entries, snap[0], answer[0]);
      var out := Ready(entries, snap, answer);
      forall r: Report {:trigger r in out} | r in out
        ensures exists k, e :: 0 <= k < |snap| && e in entries && Reports(r, e, snap[k], answer[k])
      {
        if r in rest {
          var k, e :| 0 <= k < |snap[1..]| && e in entries && Reports(r, e, snap[1..][k], answer[1..][k]);
          assert snap[1..][k] == snap[k + 1] && answer[1..][k] == answer[k + 1];
        } else {
          assert r == ReportOf(entries, snap[0], answer[0]);
        }
      }
      forall k {:trigger snap[k]} | 0 <= k < |snap| && Registered(entries, snap[k].fd) && (exists b :: Counts(snap[k], answer[k], b))
        ensures exists r: Report :: r in out && r.fd == snap[k].fd
      {
        if k > 0 {
          assert snap[1..][k - 1] == snap[k] && answer[1..][k - 1] == answer[k];
          var r: Report :| r in rest && r.fd == snap[k].fd;
          assert r in out;
        } else {
          var r := ReportOf(entries, snap[0], answer[0]);
          ReportFd(entries, snap[0], answer[0]);
          assert r in out && r.fd == snap[0].fd;
        }
      }
    }
  }

  lemma ReportFd(entries: seq<Entry>, slot: Slot, revents: set<Bit>)
    ensures Hands(entries, slot, revents) ==> ReportOf(entries, slot, revents).fd == slot.fd
  {
  }

  /** An answer for slots that differ says at most one event of each entry. */
  lemma ReadyDistinct(entries: seq<Entry>, snap: seq<Slot>, answer: seq<set<Bit>>)
    requires |snap| == |answer| && Distinct(snap)
    ensures DistinctReports(Ready(entries, snap, answer))
  {
    ReadyMeans(entries, snap, answer);
  }

  lemma {:induction false} ReadyShape(a: seq<Entry>, b: seq<Entry>, slot: Slot, revents: set<Bit>)
    requires SameShape(a, b)
    ensures Hands(a, slot, revents) == Hands(b, slot, revents)
    ensures Hands(a, slot, revents) ==> ReportOf(a, slot, revents) == ReportOf(b, slot, revents)
  {
    SameFind(a, b, slot.fd);
  }

  class Set {
    var entries: seq<Entry>
    var cap: nat

    ghost predicate Valid()
      reads this
    {
      Unique(entries) && |entries| <= cap
    }

    constructor ()
      ensures Valid() && entries == []
    {
      entries, cap := [], 0;
    }

    method FindEntry(fd: int) returns (i: int)
      ensures i == Find(entries, fd)
    {
      for k := 0 to |entries|
        invariant !Registered(entries[..k], fd)
        invariant Find(entries, fd) == (if Find(entries[k..], fd) < 0 then -1 else k + Find(entries[k..], fd))
      {
        assert entries[k..][1..] == entries[k + 1..];
        if entries[k].fd == fd { return k; }
        assert entries[..k + 1] == entries[..k] + [entries[k]];
      }
      return -1;
    }

    /** epoll_ctl on this set; the caller's byte for the waiter follows when it succeeds. */
    method Ctl(epfd: int, op: Op, fd: int, req: Request, noMemory: bool) returns (r: Result)
      requires Valid()
      modifies this
      ensures Valid()
      ensures (entries, r) == Controlled(old(entries), epfd, op, fd, req, noMemory && |old(entries)| == old(cap))
    {
      ControlledMeans(entries, epfd, op, fd, req, noMemory && |entries| == cap);
      if fd == epfd { return Failed(EINVAL); }
      if (op.Add? || op.Mod?) && req.NoEvent? { return Failed(EFAULT); }
      var i := FindEntry(fd);
      match op
      case Add =>
        if i >= 0 { return Failed(EEXIST); }
        if |entries| == cap {
          if noMemory { return Failed(ENOMEM); }
          cap := if cap > 0 then cap * 2 else 8;
        }
        entries := entries + [Entry(fd, req.events, req.data, Both())];
        r := Done;
      case Mod =>
        if i < 0 { return Failed(ENOENT); }
        entries := entries[i := Entry(fd, req.events, req.data, Both())];
        r := Done;
      case Del =>
        if i < 0 { return Failed(ENOENT); }
        entries := entries[i := entries[|entries| - 1]];
        entries := entries[..|entries| - 1];
        r := Done;
      case Other =>
        r := Failed(EINVAL);
    }

    /** Re-arms directions of a descriptor; true when the waiter must be woken. */
    method Rearm(fd: int, dirs: set<Dir>) returns (kick: bool)
      requires Valid()
      modifies `entries
      ensures Valid()
      ensures (entries, kick) == Rearmed(old(entries), fd, dirs)
      ensures |entries| == |old(entries)| && (kick <==> entries != old(entries))
      ensures forall i {:trigger entries[i]} :: 0 <= i < |entries| ==>
                entries[i] == var e := old(entries)[i];
                              if e.fd == fd && Et in e.events && OneShot !in e.events then e.(armed := e.armed + dirs) else e
    {
      RearmedMeans(entries, fd, dirs);
      var e := FindEntry(fd);
      kick := false;
      if e >= 0 && Et in entries[e].events && OneShot !in entries[e].events {
        var neu := entries[e].armed + dirs;
        if neu != entries[e].armed {
          ReplacedMeans(entries, e, entries[e].(armed := neu));
          entries := entries[e := entries[e].(armed := neu)];
          kick := true;
        }
      }
    }

    /** The array for poll, rebuilt from the list. */
    method Snapshot() returns (snap: seq<Slot>)
      requires Valid()
      ensures snap == Slots(entries, |entries|)
      ensures Distinct(snap) && forall e {:trigger e in entries} :: e in entries ==> Asks(snap, e)
      ensures forall slot {:trigger slot in snap} :: slot in snap ==> Registered(entries, slot.fd)
    {
      snap := [];
      var i := 0;
      while i < |entries|
        invariant 0 <= i <= |entries| && snap == Slots(entries, i)
      {
        var ev := ToPoll(entries[i].events, EffectiveArmed(entries[i]));
        if !(ev == {} && (Et in entries[i].events || OneShot in entries[i].events)) {
          snap := snap + [Slot(entries[i].fd, ev)];
        }
        i := i + 1;
      }
      SlotsMean(entries);
    }

    /** Hands out at most max events of an answer, disarming what is handed out and nothing else. */
    method Match(snap: seq<Slot>, answer: seq<set<Bit>>, max: nat) returns (out: seq<Report>)
      requires Valid() && |snap| == |answer|
      modifies `entries
      ensures Valid()
      ensures out == AtMost(Ready(old(entries), snap, answer), max)
      ensures entries == HandOutAll(old(entries), out)
      ensures |out| <= max && Answers(old(entries), snap, answer, out, |out| < max)
      ensures Distinct(snap) ==>
                && DistinctReports(out) && |entries| == |old(entries)|
                && (forall i {:trigger entries[i]} :: 0 <= i < |entries| && (forall r: Report {:trigger r in out} :: r in out ==> r.fd != old(entries)[i].fd) ==>
                      entries[i] == old(entries)[i])
                && (forall i, r: Report {:trigger entries[i], r in out} :: 0 <= i < |entries| && r in out && r.fd == old(entries)[i].fd ==>
                      LeftBy(old(entries)[i], r.bits, entries[i]))
    {
      hide Disarmed, FromPoll, Ready, Registered, AtMost, Answers, LeftBy, Distinct, DistinctReports;
      out := [];
      ghost var was := entries;
      var i := 0;
      assert snap[0..] == snap && answer[0..] == answer;
      assert out + AtMost(Ready(was, snap, answer), max) == AtMost(Ready(was, snap, answer), max);
      while i < |snap| && |out| < max
        invariant 0 <= i <= |snap| && |out| <= max
        invariant out + AtMost(Ready(was, snap[i..], answer[i..]), max - |out|) == AtMost(Ready(was, snap, answer), max)
        invariant entries == HandOutAll(was, out) && Unique(entries) && |entries| == |was|
      {
        var bits := answer[i] * (snap[i].events + {Err, Hup, Nval});
        ReadyStep(was, snap, answer, i);
        HandOutAllShape(was, out);
        ReadyShape(entries, was, snap[i], answer[i]);
        if bits != {} {
          var e := FindEntry(snap[i].fd);
          if e >= 0 {
            var ev := FromPoll(bits);
            var r := Report(snap[i].fd, ev, entries[e].data);
            HandOutAllAppend(was, out, r);
            DisarmedKeeps(entries[e], ev);
            ReplacedMeans(entries, e, Disarmed(entries[e], ev));
            AtMostStep(out, r, Ready(was, snap[i + 1..], answer[i + 1..]), max);
            out := out + [r];
            var d := Disarm(entries[e], ev);
            entries := entries[e := d];
          }
        }
        i := i + 1;
      }
      ReadyEnds(was, snap[i..], answer[i..], max - |out|);
      Handed(was, snap, answer, out, max);
    }
  }

  lemma Handed(entries: seq<Entry>, snap: seq<Slot>, answer: seq<set<Bit>>, out: seq<Report>, max: nat)
    requires Unique(entries) && |snap| == |answer| && out == AtMost(Ready(entries, snap, answer), max)
    ensures |out| <= max && Answers(entries, snap, answer, out, |out| < max)
    ensures Distinct(snap) ==>
              var after := HandOutAll(entries, out);
              && DistinctReports(out) && |after| == |entries|
              && (forall i {:trigger after[i]} :: 0 <= i < |entries| && (forall r: Report {:trigger r in out} :: r in out ==> r.fd != entries[i].fd) ==>
                    after[i] == entries[i])
              && (forall i, r: Report {:trigger after[i], r in out} :: 0 <= i < |entries| && r in out && r.fd == entries[i].fd ==>
                    LeftBy(entries[i], r.bits, after[i]))
  {
    hide LeftBy, Reports, Ready, Registered, Counts, Disarmed, HandOutAll;
    ReadyAnswers(entries, snap, answer);
    var ready := Ready(entries, snap, answer);
    assert forall r: Report {:trigger r in out} :: r in out ==> r in ready;
    assert |out| < max ==> out == ready;
    if Distinct(snap) {
      ReadyDistinct(entries, snap, answer);
      HandOutAllMeans(entries, out);
      var after := HandOutAll(entries, out);
      forall i, r: Report {:trigger after[i], r in out} | 0 <= i < |entries| && r in out && r.fd == entries[i].fd
        ensures LeftBy(entries[i], r.bits, after[i])
      {
        DisarmedMeans(entries[i], r.bits);
        var k :| 0 <= k < |out| && out[k] == r;
        assert after[i] == Disarmed(entries[i], out[k].bits);
      }
      forall i {:trigger after[i]} | 0 <= i < |entries| && (forall r: Report {:trigger r in out} :: r in out ==> r.fd != entries[i].fd)
        ensures after[i] == entries[i]
      {
        assert forall k {:trigger out[k]} :: 0 <= k < |out| ==> out[k] in out;
      }
    }
  }

  /** The bits that stay armed in an entry after ev was handed out for it. */
  method Disarm(e: Entry, ev: set<Bit>) returns (d: Entry)
    ensures d == Disarmed(e, ev)
  {
    var armed := e.armed;
    if OneShot in e.events {
      armed := {};
    } else if Et in e.events {
      if ev * {Err, Hup} != {} {
        armed := {};
      } else {
        if ev * {In, Pri, RdHup} != {} { armed := armed - {Reading}; }
        if Out in ev { armed := armed - {Writing}; }
      }
    }
    d := e.(armed := armed);
  }

  lemma DisarmedKeeps(e: Entry, ev: set<Bit>)
    ensures Disarmed(e, ev) == e.(armed := Disarmed(e, ev).armed)
  {
  }

  lemma ReadyStep(entries: seq<Entry>, snap: seq<Slot>, answer: seq<set<Bit>>, i: nat)
    requires |snap| == |answer| && i < |snap|
    ensures Hands(entries, snap[i], answer[i]) ==>
              Ready(entries, snap[i..], answer[i..])
              == [ReportOf(entries, snap[i], answer[i])] + Ready(entries, snap[i + 1..], answer[i + 1..])
    ensures !Hands(entries, snap[i], answer[i]) ==>
              Ready(entries, snap[i..], answer[i..]) == Ready(entries, snap[i + 1..], answer[i + 1..])
  {
    assert snap[i..][1..] == snap[i + 1..] && answer[i..][1..] == answer[i + 1..];
  }

  lemma ReadyEnds(entries: seq<Entry>, snap: seq<Slot>, answer: seq<set<Bit>>, left: nat)
    requires |snap| == |answer|
    ensures snap == [] || left == 0 ==> AtMost(Ready(entries, snap, answer), left) == []
  {
  }

  lemma AtMostStep(out: seq<Report>, r: Report, rest: seq<Report>, max: nat)
    requires |out| < max
    ensures out + AtMost([r] + rest, max - |out|) == (out + [r]) + AtMost(rest, max - |out| - 1)
  {
  }
}
