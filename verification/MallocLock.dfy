/** The lock latch of the allocator: heap locks are skipped until a second thread is seen alive. */
module MallocLock {

  /** Where a thread is with respect to one heap's lock, one shared access at a time. */
  datatype Phase =
    | Outside
    | Asking(heap: int)                        // about to read the latch
    | Counting(heap: int)                      // read the latch unset; about to read the thread count
    | Latching(heap: int)                      // counted other threads; about to set the latch
    | Deciding(heap: int, alone: bool)         // about to read the latch for the answer
    | Waiting(heap: int)                       // told to lock; waiting for the mutex
    | Inside(heap: int, locked: bool)          // using the heap
    | Leaving(heap: int, locked: bool, release: bool)  // read the latch again to decide on the unlock

  /** Threads that can touch the heap, threads counted, the latch, and the owner of each mutex. */
  datatype State = State(threads: map<int, Phase>, counted: set<int>, latch: bool, owner: map<int, int>)

  datatype Event =
    | Create(parent: int, child: int)          // counted before it runs; never from inside malloc
    | Start(child: int)
    | Exit(thread: int)                        // stops touching the heap
    | Discount(thread: int)
    | Enter(thread: int, heap: int)
    | Move(thread: int)                        // the next access of the lock or the unlock

  function Initial(main: int): (s: State) {
    State(map[main := Outside], {main}, false, map[])
  }

  predicate Uses(p: Phase, heap: int) {
    (p.Inside? || p.Leaving?) && p.heap == heap
  }

  predicate Enabled(s: State, e: Event) {
    match e
    case Create(parent, child) => parent in s.threads && s.threads[parent] == Outside && child !in s.counted
    case Start(child) => child in s.counted && child !in s.threads
    case Exit(thread) => thread in s.threads && s.threads[thread] == Outside
    case Discount(thread) => thread in s.counted && thread !in s.threads
    case Enter(thread, heap) => thread in s.threads && s.threads[thread] == Outside
    case Move(thread) => thread in s.threads && match s.threads[thread] {
      case Outside => false
      case Waiting(heap) => heap !in s.owner
      case _ => true
    }
  }

  function Moved(s: State, t: int): (s': State)
    requires Enabled(s, Move(t))
  {
    match s.threads[t]
    case Asking(heap) => s.(threads := s.threads[t := if s.latch then Deciding(heap, false) else Counting(heap)])
    case Counting(heap) => s.(threads := s.threads[t := if |s.counted| > 1 then Latching(heap) else Deciding(heap, true)])
    case Latching(heap) => s.(threads := s.threads[t := Deciding(heap, false)], latch := true)
    case Deciding(heap, alone) => s.(threads := s.threads[t := if s.latch then Waiting(heap) else Inside(heap, false)])
    case Waiting(heap) => s.(threads := s.threads[t := Inside(heap, true)], owner := s.owner[heap := t])
    case Inside(heap, locked) => s.(threads := s.threads[t := Leaving(heap, locked, s.latch)])
    case Leaving(heap, locked, release) =>
      s.(threads := s.threads[t := Outside], owner := if release then s.owner - {heap} else s.owner)
  }

  function After(s: State, e: Event): (s': State)
    requires Enabled(s, e)
  {
    match e
    case Create(parent, child) => s.(counted := s.counted + {child})
    case Start(child) => s.(threads := s.threads[child := Outside])
    case Exit(thread) => s.(threads := s.threads - {thread})
    case Discount(thread) => s.(counted := s.counted - {thread})
    case Enter(thread, heap) => s.(threads := s.threads[thread := Asking(heap)])
    case Move(thread) => Moved(s, thread)
  }

  /** What each phase of one thread says about the shared state. */
  ghost predicate Sound(s: State, t: int)
    requires t in s.threads
  {
    match s.threads[t]
    case Deciding(heap, alone) => if alone then s.counted == {t} else s.latch
    case Waiting(heap) => s.latch
    case Inside(heap, locked) => if locked then s.latch && heap in s.owner && s.owner[heap] == t else !s.latch && s.counted == {t}
    case Leaving(heap, locked, release) =>
      release == locked && if locked then s.latch && heap in s.owner && s.owner[heap] == t else !s.latch && s.counted == {t}
    case _ => true
  }

  ghost predicate Inv(s: State) {
    && s.threads.Keys <= s.counted
    && (forall t {:trigger Sound(s, t)} | t in s.threads :: Sound(s, t))
    && (forall heap {:trigger s.owner[heap]} | heap in s.owner ::
          && s.owner[heap] in s.threads
          && Uses(s.threads[s.owner[heap]], heap)
          && s.threads[s.owner[heap]].locked)
  }

  lemma OneCounted(counted: set<int>, t: int)
    requires t in counted
    ensures |counted| <= 1 <==> counted == {t}
  {
    if |counted| <= 1 {
      assert |counted - {t}| == 0;
      assert counted == {t} + (counted - {t});
    }
  }

  lemma MovedKeeps(s: State, t: int)
    requires Inv(s) && Enabled(s, Move(t))
    ensures Inv(Moved(s, t))
  {
    var s' := Moved(s, t);
    OneCounted(s.counted, t);
    assert Sound(s, t);
    forall u {:trigger Sound(s', u)} | u in s'.threads
      ensures Sound(s', u)
    {
      assert Sound(s, u);
    }
  }

  lemma AfterKeeps(s: State, e: Event)
    requires Inv(s) && Enabled(s, e)
    ensures Inv(After(s, e))
  {
    if e.Move? {
      MovedKeeps(s, e.thread);
    } else {
      var s' := After(s, e);
      forall u {:trigger Sound(s', u)} | u in s'.threads
        ensures Sound(s', u)
      {
        if u in s.threads { assert Sound(s, u); }
      }
    }
  }

  /** The states a run goes through. */
  ghost predicate Run(main: int, states: seq<State>, events: seq<Event>) {
    && |states| == |events| + 1
    && states[0] == Initial(main)
    && forall i {:trigger events[i]} :: 0 <= i < |events| ==> Enabled(states[i], events[i]) && states[i + 1] == After(states[i], events[i])
  }

  /** In every interleaving, no two threads use one heap at once, and a thread on its way out of
      a heap unlocks it exactly when it locked it, whoever has come and gone in between. */
  lemma {:induction false} LatchIsSafe(main: int, states: seq<State>, events: seq<Event>, n: nat)
    requires Run(main, states, events) && n < |states|
    ensures var s := states[n];
            && (forall t, u, heap {:trigger Uses(s.threads[t], heap), Uses(s.threads[u], heap)} ::
                  t in s.threads && u in s.threads && Uses(s.threads[t], heap) && Uses(s.threads[u], heap) ==> t == u)
            && (forall t {:trigger s.threads[t]} :: t in s.threads && s.threads[t].Leaving? ==> s.threads[t].release == s.threads[t].locked)
            && (forall t {:trigger s.threads[t]} :: t in s.threads && s.threads[t].Leaving? && s.threads[t].release ==>
                  s.threads[t].heap in s.owner && s.owner[s.threads[t].heap] == t)
  {
    Reached(main, states, events, n);
    var s := states[n];
    assert forall t {:trigger s.threads[t]} :: t in s.threads ==> Sound(s, t);
  }

  lemma {:induction false} Reached(main: int, states: seq<State>, events: seq<Event>, n: nat)
    requires Run(main, states, events) && n < |states|
    ensures Inv(states[n])
  {
    if n > 0 {
      Reached(main, states, events, n - 1);
      assert Enabled(states[n - 1], events[n - 1]);
      AfterKeeps(states[n - 1], events[n - 1]);
    }
  }

  /** n moves of a thread take one state to another. */
  ghost predicate Moves(s: State, t: int, n: nat, s': State)
    decreases n
  {
    if n == 0 then s == s' else Enabled(s, Move(t)) && Moves(Moved(s, t), t, n - 1, s')
  }

  /** A thread alone goes through the lock and the unlock without touching the mutex or the latch. */
  lemma AloneSkips(s: State, t: int, heap: int)
    requires s.threads == map[t := Outside] && s.counted == {t} && !s.latch
    ensures var inside := s.(threads := map[t := Inside(heap, false)]);
            && Enabled(s, Enter(t, heap)) && Moves(After(s, Enter(t, heap)), t, 3, inside)
            && Moves(inside, t, 2, s)
  {
    var s1 := After(s, Enter(t, heap));
    var s2 := Moved(s1, t);
    var s3 := Moved(s2, t);
    var inside := Moved(s3, t);
    assert inside == s.(threads := map[t := Inside(heap, false)]);
    assert Moves(inside, t, 0, inside) && Moves(s3, t, 1, inside) && Moves(s2, t, 2, inside);
    var leaving := Moved(inside, t);
    assert Moved(leaving, t) == s;
    assert Moves(s, t, 0, s) && Moves(leaving, t, 1, s);
  }

  /** With a second thread counted the first access sets the latch and takes the mutex when it is free,
      and the unlock gives the mutex back. */
  lemma SecondLocks(s: State, t: int, heap: int)
    requires t in s.threads && s.threads[t] == Outside && |s.counted| > 1 && !s.latch && heap !in s.owner
    ensures var inside := s.(threads := s.threads[t := Inside(heap, true)], latch := true, owner := s.owner[heap := t]);
            && Enabled(s, Enter(t, heap)) && Moves(After(s, Enter(t, heap)), t, 5, inside)
            && Moves(inside, t, 2, s.(latch := true))
  {
    var s1 := After(s, Enter(t, heap));
    var s2 := Moved(s1, t);
    var s3 := Moved(s2, t);
    var s4 := Moved(s3, t);
    var s5 := Moved(s4, t);
    var inside := Moved(s5, t);
    assert inside == s.(threads := s.threads[t := Inside(heap, true)], latch := true, owner := s.owner[heap := t]);
    assert Moves(inside, t, 0, inside) && Moves(s5, t, 1, inside) && Moves(s4, t, 2, inside) && Moves(s3, t, 3, inside);
    assert Moves(s2, t, 4, inside);
    var leaving, left := Moved(inside, t), s.(latch := true);
    assert Moved(leaving, t) == left by { assert s.owner[heap := t] - {heap} == s.owner; }
    assert Moves(left, t, 0, left) && Moves(leaving, t, 1, left);
  }

  /** A thread created from inside malloc would break the answer: its creator, alone at the lock,
      leaves through an unlock of a mutex it never took. */
  lemma CreationInsideBreaks(main: int, child: int, heap: int)
    requires main != child
    ensures exists s: State ::
              && Inv(s) && s.threads == map[main := Inside(heap, false)]
              && var born := s.(counted := s.counted + {child}, threads := s.threads[child := Outside]);
                 var latched := After(After(After(After(born, Enter(child, heap)), Move(child)), Move(child)), Move(child));
                 Enabled(latched, Move(main)) && After(latched, Move(main)).threads[main] == Leaving(heap, false, true)
  {
    var s := State(map[main := Inside(heap, false)], {main}, false, map[]);
    assert Sound(s, main);
    var born := s.(counted := s.counted + {child}, threads := s.threads[child := Outside]);
    assert |{main, child}| == 2;
    var s1 := After(born, Enter(child, heap));
    var s2 := After(s1, Move(child));
    var s3 := After(s2, Move(child));
    assert s3.threads[child] == Latching(heap);
  }
}
