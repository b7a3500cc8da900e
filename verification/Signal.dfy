/** Signal dispositions: handler slots behind two trampolines, as a plain table. */
module Signal {
  import opened HostTables

  const MAXSIG := 65

  /** A handler as the program names it. */
  datatype Handler = Dfl | Ign | Err | User(id: int)

  datatype Slot = Empty | Filled(id: int)

  /** What the host is told to run. */
  datatype HostHandler = Raw(h: Handler) | Tramp1 | Tramp3

  datatype Entry = Entry(handler: HostHandler, mask: int, resetHand: bool)

  datatype Action = Action(handler: Handler, mask: int, siginfo: bool, resetHand: bool)

  /** What a query reports. */
  datatype Old = Old(handler: Handler, mask: int, resetHand: bool)

  datatype Request = Query | Set(act: Action)

  predicate InTable(sig: int) {
    0 < sig < MAXSIG
  }

  /** Unless a delivery reset the host, each slot is filled exactly when the host holds its trampoline. */
  predicate Agree(slot1: Slot, slot3: Slot, held: HostHandler, reset: bool) {
    && (slot1.Empty? || slot3.Empty?)
    && (reset ==> slot1.Filled? || slot3.Filled?)
    && (!reset ==> (slot1.Filled? <==> held == Tramp1) && (slot3.Filled? <==> held == Tramp3))
  }

  /** The program's handler behind what the host runs. */
  function Named(held: HostHandler, slot1: Slot, slot3: Slot): (h: Handler) {
    match held
    case Raw(h) => h
    case Tramp1 => if slot1.Filled? then User(slot1.id) else Dfl
    case Tramp3 => if slot3.Filled? then User(slot3.id) else Dfl
  }

  class Shim {
    const signals: seq<Opt<int>>
    const g1: array<Slot>
    const g3: array<Slot>
    var host: map<int, Entry>
    /** Signals whose delivery put the host back to the default on its own. */
    ghost var reset: set<int>

    ghost predicate Valid()
      reads this, g1, g3
    {
      && g1.Length == MAXSIG && g3.Length == MAXSIG && g1 != g3
      && (forall s {:trigger host[s]} :: s in host && !InTable(s) ==> host[s].handler.Raw?)
      && (forall s {:trigger s in reset} :: s in reset ==> InTable(s) && s in host && host[s].handler == Raw(Dfl))
      && (forall s {:trigger InTable(s)} :: InTable(s) ==> Agree(g1[s], g3[s], Held(s), s in reset))
    }

    /** What the host runs for a signal. */
    function Held(s: int): (h: HostHandler)
      reads this
    {
      if s in host then host[s].handler else Raw(Dfl)
    }

    function SlotAt(g: array<Slot>, s: int): (r: Slot)
      reads g
    {
      if 0 < s < g.Length then g[s] else Empty
    }

    /** The handler of a host signal: the plain table this all stands for. */
    function Current(s: int): (h: Handler)
      reads this, g1, g3
    {
      Named(Held(s), SlotAt(g1, s), SlotAt(g3, s))
    }

    constructor (signals: seq<Opt<int>>)
      ensures Valid() && host == map[] && reset == {} && fresh(g1) && fresh(g3)
      ensures forall s :: Current(s) == Dfl
    {
      this.signals := signals;
      g1 := new Slot[MAXSIG](_ => Empty);
      g3 := new Slot[MAXSIG](_ => Empty);
      host, reset := map[], {};
    }

    /** Fills the slots for a handler before the host is asked, so that a trampoline never runs
        without one. */
    method Stage(s: int, act: Action) returns (held: HostHandler)
      requires g1.Length == MAXSIG && g3.Length == MAXSIG && g1 != g3
      modifies g1, g3
      ensures forall t {:trigger g1[t]} :: 0 <= t < MAXSIG && t != s ==> g1[t] == old(g1[t])
      ensures forall t {:trigger g3[t]} :: 0 <= t < MAXSIG && t != s ==> g3[t] == old(g3[t])
      ensures !InTable(s) ==> held == Raw(act.handler) && g1[..] == old(g1[..]) && g3[..] == old(g3[..])
      ensures InTable(s) ==> Agree(g1[s], g3[s], held, false) && Named(held, g1[s], g3[s]) == act.handler && (held.Raw? <==> !act.handler.User?)
      ensures InTable(s) && act.handler.User? ==>
                && held == (if act.siginfo then Tramp3 else Tramp1)
                && g1[s] == (if act.siginfo then Empty else Filled(act.handler.id))
                && g3[s] == (if act.siginfo then Filled(act.handler.id) else Empty)
      ensures InTable(s) && !act.handler.User? ==> held == Raw(act.handler) && g1[s] == g3[s] == Empty
    {
      var h := act.handler;
      var slot := 0 < s < MAXSIG;
      if h == Dfl || h == Ign || h == Err || !slot {
        held := Raw(h);
        if slot { g1[s], g3[s] := Empty, Empty; }
      } else if act.siginfo {
        held := Tramp3;
        g3[s] := Filled(h.id);
        g1[s] := Empty;
      } else {
        held := Tramp1;
        g1[s] := Filled(h.id);
        g3[s] := Empty;
      }
    }

    /** sigaction, refused when the host says no: on success the new handler is in force and the old one reported; on failure
        nothing has changed. */
    method Sigaction(linSig: int, req: Request, refused: bool) returns (r: int, reported: Old)
      requires Valid()
      modifies `host, `reset, g1, g3
      ensures Valid() && r == if refused then -1 else 0
      ensures var s := Lookup(signals, linSig);
              r == 0 ==>
                && reported.mask == old(if s in host then host[s].mask else 0)
                && reported.resetHand == old(s in host && host[s].resetHand)
                && (req.Set? ==> s in host && host[s].mask == req.act.mask)
                && (req.Set? && InTable(s) && req.act.handler.User? ==> s in host && host[s].handler == if req.act.siginfo then Tramp3 else Tramp1)
      ensures var s := Lookup(signals, linSig);
              r == 0 ==> reported.handler == old(Current(s)) && Current(s) == (if req.Set? then req.act.handler else old(Current(s)))
      ensures var s := Lookup(signals, linSig);
              r == 0 && req.Set? ==>
                && s !in reset && s in host && host[s].resetHand == req.act.resetHand
                && (host[s].handler.Raw? <==> !InTable(s) || !req.act.handler.User?)
      ensures r == -1 || req.Query? ==> host == old(host) && reset == old(reset) && g1[..] == old(g1[..]) && g3[..] == old(g3[..])
      ensures forall t {:trigger Current(t)} :: t != Lookup(signals, linSig) ==> Current(t) == old(Current(t)) && (t in reset <==> t in old(reset))
    {
      hide Lookup, Agree, Named;
      var s := Lookup(signals, linSig);
      var slot := 0 < s < MAXSIG;
      var prev1 := if slot then g1[s] else Empty;
      var prev3 := if slot then g3[s] else Empty;
      ghost var s1, s3 := g1[..], g3[..];
      var held := Raw(Dfl);
      if req.Set? { held := Stage(s, req.act); }
      var was := if s in host then host[s] else Entry(Raw(Dfl), 0, false);
      if refused {
        if req.Set? && slot { g1[s], g3[s] := prev1, prev3; }
        assert g1[..] == s1 && g3[..] == s3;
        assert forall t {:trigger g1[t]} {:trigger g3[t]} :: 0 <= t < MAXSIG ==> g1[t] == s1[t] && g3[t] == s3[t];
        return -1, Old(Dfl, was.mask, was.resetHand);
      }
      if req.Set? {
        host := host[s := Entry(held, req.act.mask, req.act.resetHand)];
        reset := reset - {s};
        RawNamed(held, SlotAt(g1, s), SlotAt(g3, s));
      }
      reported := Old(Named(was.handler, prev1, prev3), was.mask, was.resetHand);
      r := 0;
    }

    lemma RawNamed(held: HostHandler, slot1: Slot, slot3: Slot)
      ensures held.Raw? ==> Named(held, slot1, slot3) == held.h
    {
    }

    /** A signal between calls: the handler in force is what runs, with the program's number for the
        signal; a one-time entry goes back to the default. */
    method Deliver(s: int) returns (ran: Handler, number: int)
      requires Valid()
      modifies `host, `reset
      ensures Valid() && ran == old(Current(s))
      ensures number == if old(s in host && !host[s].handler.Raw?) then LookupBack(signals, s) else s
      ensures old(s in host && !host[s].handler.Raw?) ==>
                && (forall i {:trigger signals[i]} :: 0 <= i < |signals| && signals[i].host == s && (forall j :: 0 <= j < i ==> signals[j].host != s) ==>
                      number == signals[i].lin)
                && ((forall i {:trigger signals[i]} :: 0 <= i < |signals| ==> signals[i].host != s) ==> number == s)
      ensures old(s in host && host[s].resetHand) ==> Current(s) == Dfl
      ensures !old(s in host && host[s].resetHand) ==> Current(s) == old(Current(s))
      ensures forall t {:trigger Current(t)} :: t != s ==> Current(t) == old(Current(t))
      ensures reset == old(reset) + if old(s in host && host[s].resetHand && !host[s].handler.Raw?) then {s} else {}
    {
      LookupBackFirst(signals, s);
      ran, number := Dfl, s;
      if s in host {
        var e := host[s];
        if e.resetHand {
          host := host[s := e.(handler := Raw(Dfl))];
          if !e.handler.Raw? { reset := reset + {s}; }
        }
        match e.handler
        case Raw(h) => ran := h;
        case Tramp1 =>
          ran := User(g1[s].id);
          number := LookupBack(signals, s);
        case Tramp3 =>
          ran := User(g3[s].id);
          number := LookupBack(signals, s);
      }
    }

    /** A slot is filled exactly when the host holds a trampoline, for every signal but those that a
        one-time delivery has reset since. */
    lemma FilledExactly(s: int)
      requires Valid() && InTable(s)
      ensures (g1[s].Filled? || g3[s].Filled? <==> !Held(s).Raw?) <==> s !in reset
    {
    }
  }

  /** Installing a one-time handler and having it delivered leaves its slot filled and the host
      without a trampoline. */
  method OneTimeLeavesSlot(shim: Shim, id: int, sig: int) returns (installed: bool)
    requires shim.Valid() && InTable(Lookup(shim.signals, sig))
    modifies shim, shim.g1, shim.g3
    ensures shim.Valid()
    ensures var s := Lookup(shim.signals, sig);
            installed && shim.Held(s).Raw? && (shim.g1[s].Filled? || shim.g3[s].Filled?)
  {
    var r, o := shim.Sigaction(sig, Set(Action(User(id), 0, false, true)), false);
    installed := r == 0;
    if installed {
      var ran, number := shim.Deliver(Lookup(shim.signals, sig));
      shim.FilledExactly(Lookup(shim.signals, sig));
    }
  }
}
