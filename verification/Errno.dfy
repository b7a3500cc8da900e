/** The errno the Rust side sees: a translated copy, kept current through a sentinel. */
module Errno {
  import opened HostTables

  const SENTINEL := 0x5AFEE44E
  const EACCES := 13

  /** The host's errno of a thread and the copy handed to the Rust side. */
  datatype State = State(errno: int, copy: int)

  datatype Config = Config(table: seq<Opt<int>>, symlinkClassDisabled: int)

  predicate InTable(t: seq<Opt<int>>, host: int) {
    exists i :: 0 <= i < |t| && t[i].host == host
  }

  /** What the Rust side calls a host value. */
  function ToLinux(c: Config, host: int): (lin: int)
    ensures host == 0 ==> lin == 0
  {
    if host == 0 then 0
    else if InTable(c.table, host) then LookupBack(c.table, host)
    else if host == c.symlinkClassDisabled then EACCES
    else host
  }

  /** lin is what Linux calls a host error: the first table row for it says so, or nothing does. */
  ghost predicate Translates(c: Config, host: int, lin: int) {
    && (host == 0 ==> lin == 0)
    && (host != 0 ==> forall i {:trigger c.table[i]} ::
          0 <= i < |c.table| && c.table[i].host == host && (forall j :: 0 <= j < i ==> c.table[j].host != host) ==> lin == c.table[i].lin)
    && (host != 0 && (forall i {:trigger c.table[i]} :: 0 <= i < |c.table| ==> c.table[i].host != host) ==>
          lin == if host == c.symlinkClassDisabled then 13 else host)
  }

  lemma ToLinuxMeans(c: Config, host: int)
    ensures Translates(c, host, ToLinux(c, host))
  {
    LookupBackFirst(c.table, host);
  }

  /** A C call that fails with a host error some row lists, and then a visit: it reads that row's
      Linux value, whatever was there before. */
  lemma FailThenVisit(c: Config, s: State, host: int, i: nat)
    requires host != 0 && host != SENTINEL
    requires i < |c.table| && c.table[i].host == host && forall j :: 0 <= j < i ==> c.table[j].host != host
    ensures Reads(c, s, [Fails(host), Visit]) == [c.table[i].lin]
  {
    ToLinuxMeans(c, host);
    var ops := [Fails(host), Visit];
    assert ops[1..] == [Visit] && [Visit][1..] == [];
    assert Reads(c, s, ops) == [] + Reads(c, Do(c, s, ops[0]), [Visit]);
    assert Reads(c, Do(c, s, ops[0]), [Visit]) == [ToLinux(c, host)] + Reads(c, Visited(c, Do(c, s, ops[0])), []);
  }

  /** One thing that happens on a thread; a handler brackets whatever it does. */
  datatype Op =
    | Fails(host: int)           // the C side sets errno
    | Visit                      // the Rust side asks where errno is, and reads it
    | Sets(value: int)           // the Rust side asks where errno is, and writes it at once
    | Handler(body: seq<Op>)     // a handler behind a trampoline runs

  /** What the next visit will read. */
  function View(c: Config, s: State): (v: int) {
    if s.errno == SENTINEL then s.copy else ToLinux(c, s.errno)
  }

  function Visited(c: Config, s: State): (r: State) {
    State(SENTINEL, View(c, s))
  }

  function Do(c: Config, s: State, op: Op): (r: State)
    decreases op, 0
  {
    match op
    case Fails(host) => s.(errno := host)
    case Visit => Visited(c, s)
    case Sets(value) => Visited(c, s).(copy := value)
    case Handler(body) => Run(c, s, body).(errno := s.errno)
  }

  function Run(c: Config, s: State, ops: seq<Op>): (r: State)
    decreases ops, 1
  {
    if ops == [] then s else Run(c, Do(c, s, ops[0]), ops[1..])
  }

  /** No C code sets errno to the sentinel. */
  predicate Real(op: Op)
    decreases op, 0
  {
    match op
    case Fails(host) => host != SENTINEL
    case Handler(body) => AllReal(body)
    case _ => true
  }

  predicate AllReal(ops: seq<Op>)
    decreases ops, 1
  {
    ops == [] || (Real(ops[0]) && AllReal(ops[1..]))
  }

  // ------------------------------------------------------------------ one cell

  /** A cell that holds the last write, in the Rust side's coding; handlers pass it by. */
  function Cell(c: Config, v: int, ops: seq<Op>): (r: int)
    decreases |ops|
  {
    if ops == [] then v
    else
      match ops[0]
      case Fails(host) => Cell(c, ToLinux(c, host), ops[1..])
      case Sets(value) => Cell(c, value, ops[1..])
      case _ => Cell(c, v, ops[1..])
  }

  /** What each visit in a run reads. */
  function Reads(c: Config, s: State, ops: seq<Op>): (r: seq<int>)
    decreases |ops|
  {
    if ops == [] then []
    else (if ops[0].Visit? then [View(c, s)] else []) + Reads(c, Do(c, s, ops[0]), ops[1..])
  }

  function CellReads(c: Config, v: int, ops: seq<Op>): (r: seq<int>)
    decreases |ops|
  {
    if ops == [] then []
    else (if ops[0].Visit? then [v] else []) + CellReads(c, Cell(c, v, [ops[0]]), ops[1..])
  }

  /** A handler body that, entered with errno parked or not, never lets the Rust side touch its copy:
      it sets nothing there, and visits only while errno is still parked. */
  predicate Untouching(parked: bool, ops: seq<Op>)
    decreases ops, 1
  {
    ops == [] || (Spares(parked, ops[0]) && Untouching(StillParked(parked, ops[0]), ops[1..]))
  }

  predicate Spares(parked: bool, op: Op)
    decreases op, 0
  {
    match op
    case Fails(_) => true
    case Visit => parked
    case Sets(_) => false
    case Handler(body) => Untouching(parked, body)
  }

  /** Whether errno is parked at the sentinel after an operation. */
  function StillParked(parked: bool, op: Op): (r: bool) {
    match op
    case Fails(_) => false
    case Visit => true
    case Sets(_) => true
    case Handler(_) => parked
  }

  /** Every handler that runs in front of the next visit finds an error the C side set and nobody
      has read yet, or keeps its hands off the copy. */
  predicate Shielded(parked: bool, ops: seq<Op>)
    decreases |ops|
  {
    ops == [] || ((ops[0].Handler? ==> !parked || Spares(parked, ops[0])) && Shielded(StillParked(parked, ops[0]), ops[1..]))
  }

  lemma ParkedAfter(c: Config, s: State, op: Op)
    requires Real(op)
    ensures Do(c, s, op).errno == SENTINEL <==> StillParked(s.errno == SENTINEL, op)
  {
  }

  /** A body that keeps its hands off the copy leaves it as it was. */
  lemma {:induction false} UntouchingLeaves(c: Config, s: State, ops: seq<Op>)
    requires AllReal(ops) && Untouching(s.errno == SENTINEL, ops)
    ensures Run(c, s, ops).copy == s.copy
    decreases ops, 1
  {
    if ops != [] {
      ParkedAfter(c, s, ops[0]);
      SparesLeaves(c, s, ops[0]);
      UntouchingLeaves(c, Do(c, s, ops[0]), ops[1..]);
    }
  }

  lemma {:induction false} SparesLeaves(c: Config, s: State, op: Op)
    requires Real(op) && Spares(s.errno == SENTINEL, op)
    ensures Do(c, s, op).copy == s.copy
    decreases op, 0
  {
    if op.Handler? { UntouchingLeaves(c, s, op.body); }
  }

  /** What a body does to errno does not depend on the copy; and a body that touches the copy leaves
      a value that does not depend on what was there. */
  lemma {:induction false} TouchingForgets(c: Config, errno: int, v: int, w: int, ops: seq<Op>)
    requires AllReal(ops)
    ensures Run(c, State(errno, v), ops).errno == Run(c, State(errno, w), ops).errno
    ensures v == w || !Untouching(errno == SENTINEL, ops) ==> Run(c, State(errno, v), ops) == Run(c, State(errno, w), ops)
    decreases ops, 1
  {
    if ops != [] {
      TouchingOnce(c, errno, v, w, ops[0]);
      ParkedAfter(c, State(errno, v), ops[0]);
      var s, t := Do(c, State(errno, v), ops[0]), Do(c, State(errno, w), ops[0]);
      TouchingForgets(c, s.errno, s.copy, t.copy, ops[1..]);
    }
  }

  lemma {:induction false} TouchingOnce(c: Config, errno: int, v: int, w: int, op: Op)
    requires Real(op)
    ensures Do(c, State(errno, v), op).errno == Do(c, State(errno, w), op).errno
    ensures v == w || !Spares(errno == SENTINEL, op) ==> Do(c, State(errno, v), op) == Do(c, State(errno, w), op)
    decreases op, 0
  {
    if op.Handler? { TouchingForgets(c, errno, v, w, op.body); }
  }

  /** Handlers are invisible to the next visit exactly when errno is not parked as they start. */
  lemma HandlerInvisible(c: Config, s: State)
    ensures (forall body: seq<Op> {:trigger Handler(body)} :: AllReal(body) ==> View(c, Do(c, s, Handler(body))) == View(c, s))
        <==> s.errno != SENTINEL
  {
    if s.errno == SENTINEL {
      var body := [Sets(s.copy + 1)];
      assert body[1..] == [];
      assert AllReal(body[1..]) && Real(body[0]);
      assert Run(c, s, body) == Run(c, Do(c, s, body[0]), body[1..]) == Do(c, s, body[0]);
      assert View(c, Do(c, s, Handler(body))) != View(c, s);
    }
  }

  /** One handler is invisible wherever it runs exactly when it keeps its hands off the copy while
      errno is parked. */
  lemma BodyInvisible(c: Config, body: seq<Op>)
    requires AllReal(body)
    ensures (forall s: State {:trigger View(c, s)} :: View(c, Do(c, s, Handler(body))) == View(c, s)) <==> Untouching(true, body)
  {
    if Untouching(true, body) {
      forall s: State {:trigger View(c, s)}
        ensures View(c, Do(c, s, Handler(body))) == View(c, s)
      {
        if s.errno == SENTINEL { UntouchingLeaves(c, s, body); }
      }
    } else {
      var s, t := State(SENTINEL, 0), State(SENTINEL, 1);
      TouchingForgets(c, SENTINEL, 0, 1, body);
      assert View(c, s) != View(c, t);
      assert View(c, Do(c, s, Handler(body))) == View(c, Do(c, t, Handler(body)));
    }
  }

  /** The Rust side is not asked anything anywhere in a body, nested handlers included. */
  predicate Unread(ops: seq<Op>)
    decreases ops, 1
  {
    ops == [] || (UnreadOp(ops[0]) && Unread(ops[1..]))
  }

  predicate UnreadOp(op: Op)
    decreases op, 0
  {
    op.Fails? || (op.Handler? && Unread(op.body))
  }

  /** A handler that does not look at errno is invisible, however its calls fail and whatever
      handlers of that kind interrupt it. */
  lemma UnreadHandler(c: Config, s: State, body: seq<Op>)
    requires AllReal(body) && Unread(body)
    ensures View(c, Do(c, s, Handler(body))) == View(c, s)
  {
    UnreadUntouching(true, body);
    BodyInvisible(c, body);
  }

  lemma {:induction false} UnreadUntouching(parked: bool, ops: seq<Op>)
    requires Unread(ops)
    ensures Untouching(parked, ops)
    decreases ops
  {
    if ops != [] {
      if ops[0].Handler? { UnreadUntouching(parked, ops[0].body); }
      UnreadUntouching(StillParked(parked, ops[0]), ops[1..]);
    }
  }

  /** A handler that fails a call and reads the error, run right after a visit, is seen outside. */
  lemma HandlerSeen(c: Config, v: int)
    requires ToLinux(c, 2) != v
    ensures View(c, Do(c, State(SENTINEL, v), Handler([Fails(2), Visit]))) == ToLinux(c, 2) != View(c, State(SENTINEL, v))
  {
    var s := State(SENTINEL, v);
    assert [Fails(2), Visit][1..] == [Visit] && [Visit][1..] == [];
    assert Run(c, s, [Fails(2), Visit]) == Run(c, State(2, v), [Visit]) == Visited(c, State(2, v));
  }

  /** One step keeps the sentinel pair and the cell in agreement. */
  lemma StepAgrees(c: Config, s: State, op: Op)
    requires Real(op) && (op.Handler? ==> s.errno != SENTINEL || Spares(true, op))
    ensures View(c, Do(c, s, op)) == Cell(c, View(c, s), [op])
  {
    assert [op][1..] == [];
    if op.Handler? && s.errno == SENTINEL { SparesLeaves(c, s, op); }
  }

  /** Whatever the C side and the Rust side do in whatever order, each visit reads the translation
      of the last error the C side set since, or else what the Rust side last left there. */
  lemma {:induction false} ReadsLastWrite(c: Config, s: State, ops: seq<Op>)
    requires AllReal(ops) && Shielded(s.errno == SENTINEL, ops)
    ensures Reads(c, s, ops) == CellReads(c, View(c, s), ops)
    ensures View(c, Run(c, s, ops)) == Cell(c, View(c, s), ops)
    decreases |ops|
  {
    if ops != [] {
      var op, rest := ops[0], ops[1..];
      StepAgrees(c, s, op);
      ParkedAfter(c, s, op);
      ReadsLastWrite(c, Do(c, s, op), rest);
      CellStep(c, View(c, s), ops);
    }
  }

  lemma CellStep(c: Config, v: int, ops: seq<Op>)
    requires ops != []
    ensures Cell(c, v, ops) == Cell(c, Cell(c, v, [ops[0]]), ops[1..])
  {
    assert [ops[0]][1..] == [];
  }

  // ------------------------------------------------------------------ the code

  class Thread {
    const c: Config
    var errno: int
    var copy: int

    function S(): (s: State)
      reads this
    {
      State(errno, copy)
    }

    constructor (c: Config)
      ensures this.c == c && S() == State(0, 0)
    {
      this.c := c;
      errno, copy := 0, 0;
    }

    method HostToLinux(host: int) returns (lin: int)
      ensures lin == ToLinux(c, host)
    {
      if host == 0 { return 0; }
      var i := 0;
      while i < |c.table|
        invariant 0 <= i <= |c.table|
        invariant forall k :: 0 <= k < i ==> c.table[k].host != host
        invariant LookupBack(c.table, host) == LookupBack(c.table[i..], host)
      {
        assert c.table[i..][1..] == c.table[i + 1..];
        if c.table[i].host == host { return c.table[i].lin; }
        i := i + 1;
      }
      if host == c.symlinkClassDisabled { return EACCES; }
      return host;
    }

    /** The place the Rust side reads and writes; called afresh for every access. */
    method ErrnoLocation() returns (read: int)
      modifies this
      ensures S() == Visited(c, old(S())) && read == copy == View(c, old(S())) && errno == SENTINEL
      ensures old(errno) == SENTINEL ==> read == old(copy)
      ensures old(errno) != SENTINEL ==> Translates(c, old(errno), read)
    {
      ToLinuxMeans(c, errno);
      var host := errno;
      if host != SENTINEL {
        copy := HostToLinux(host);
      }
      errno := SENTINEL;
      read := copy;
    }

    /** A trampoline around a handler that does what body says. */
    method Trampoline(body: seq<Op>)
      modifies this
      ensures S() == Do(c, old(S()), Handler(body)) && errno == old(errno)
      decreases body, 2
    {
      var saved := errno;
      Perform(body);
      errno := saved;
    }

    method Perform(ops: seq<Op>)
      modifies this
      ensures S() == Run(c, old(S()), ops)
      decreases ops, 1
    {
      if ops != [] {
        match ops[0] {
          case Fails(host) => errno := host;
          case Visit => var v := ErrnoLocation();
          case Sets(value) =>
            var v := ErrnoLocation();
            copy := value;
          case Handler(body) => Trampoline(body);
        }
        Perform(ops[1..]);
      }
    }
  }
}
