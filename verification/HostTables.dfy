/** The tables that pair a Linux constant with the host's, and lookups both ways. */
module HostTables {

  datatype Opt<T> = Opt(lin: T, host: T)

  function Lookup<T(==)>(t: seq<Opt<T>>, lin: T): (host: T)
    ensures host == lin || exists o: Opt<T> :: o in t && o.host == host
  {
    if t == [] then lin else if t[0].lin == lin then t[0].host else Lookup(t[1..], lin)
  }

  function LookupBack<T(==)>(t: seq<Opt<T>>, host: T): (lin: T)
    ensures lin == host || exists o: Opt<T> :: o in t && o.lin == lin
  {
    if t == [] then host else if t[0].host == host then t[0].lin else LookupBack(t[1..], host)
  }

  predicate Injective<T(==)>(t: seq<Opt<T>>) {
    forall i, j :: 0 <= i < j < |t| ==> t[i].lin != t[j].lin && t[i].host != t[j].host
  }

  /** A type is listed in a table, or is not a host value in it either. */
  predicate Listed<T(==)>(t: seq<Opt<T>>, kind: T) {
    (exists i :: 0 <= i < |t| && t[i].lin == kind) || (forall i :: 0 <= i < |t| ==> t[i].host != kind)
  }

  lemma {:induction false} LookupAmong<T>(t: seq<Opt<T>>, kind: T)
    ensures (exists i :: 0 <= i < |t| && t[i].lin == kind && t[i].host == Lookup(t, kind))
         || (Lookup(t, kind) == kind && forall i :: 0 <= i < |t| ==> t[i].lin != kind)
  {
    if t != [] && t[0].lin != kind {
      LookupAmong(t[1..], kind);
      assert forall i :: 1 <= i < |t| ==> t[i] == t[1..][i - 1];
      if i :| 0 <= i < |t[1..]| && t[1..][i].lin == kind && t[1..][i].host == Lookup(t[1..], kind) {
        assert t[i + 1].lin == kind;
      }
    }
  }

  lemma {:induction false} LookupBackAmong<T>(t: seq<Opt<T>>, host: T)
    ensures (exists i :: 0 <= i < |t| && t[i].host == host && t[i].lin == LookupBack(t, host))
         || (LookupBack(t, host) == host && forall i :: 0 <= i < |t| ==> t[i].host != host)
  {
    if t != [] && t[0].host != host {
      LookupBackAmong(t[1..], host);
      assert forall i :: 1 <= i < |t| ==> t[i] == t[1..][i - 1];
      if i :| 0 <= i < |t[1..]| && t[1..][i].host == host && t[1..][i].lin == LookupBack(t[1..], host) {
        assert t[i + 1].host == host;
      }
    }
  }

  /** The host value of the first row that lists a value, or the value itself. */
  lemma {:induction false} LookupFirst<T>(t: seq<Opt<T>>, lin: T)
    ensures forall i {:trigger t[i]} :: 0 <= i < |t| && t[i].lin == lin && (forall j :: 0 <= j < i ==> t[j].lin != lin) ==>
              Lookup(t, lin) == t[i].host
    ensures (forall i {:trigger t[i]} :: 0 <= i < |t| ==> t[i].lin != lin) ==> Lookup(t, lin) == lin
  {
    if t != [] && t[0].lin != lin {
      var r := t[1..];
      LookupFirst(r, lin);
      assert forall i :: 0 <= i < |r| ==> r[i] == t[i + 1];
      assert forall i {:trigger t[i]} :: 1 <= i < |t| ==> t[i] == r[i - 1];
      forall i {:trigger t[i]} | 0 <= i < |t| && t[i].lin == lin && (forall j :: 0 <= j < i ==> t[j].lin != lin)
        ensures Lookup(t, lin) == t[i].host
      {
        assert r[i - 1] == t[i];
      }
    }
  }

  /** The value of the first row with a host value, or the host value itself. */
  lemma {:induction false} LookupBackFirst<T>(t: seq<Opt<T>>, host: T)
    ensures forall i {:trigger t[i]} :: 0 <= i < |t| && t[i].host == host && (forall j :: 0 <= j < i ==> t[j].host != host) ==>
              LookupBack(t, host) == t[i].lin
    ensures (forall i {:trigger t[i]} :: 0 <= i < |t| ==> t[i].host != host) ==> LookupBack(t, host) == host
  {
    if t != [] && t[0].host != host {
      var r := t[1..];
      LookupBackFirst(r, host);
      assert forall i :: 0 <= i < |r| ==> r[i] == t[i + 1];
      assert forall i {:trigger t[i]} :: 1 <= i < |t| ==> t[i] == r[i - 1];
      forall i {:trigger t[i]} | 0 <= i < |t| && t[i].host == host && (forall j :: 0 <= j < i ==> t[j].host != host)
        ensures LookupBack(t, host) == t[i].lin
      {
        assert r[i - 1] == t[i];
      }
    }
  }

  /** Looking a type up and back gives it again exactly when the table lists it, or never mentions
      its value as a host's. */
  lemma LookupReturns<T>(t: seq<Opt<T>>, kind: T)
    requires Injective(t)
    ensures LookupBack(t, Lookup(t, kind)) == kind <==> Listed(t, kind)
  {
    hide Lookup, LookupBack;
    LookupAmong(t, kind);
    LookupBackAmong(t, Lookup(t, kind));
  }
}
