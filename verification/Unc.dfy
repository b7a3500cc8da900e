/** What follows a network share in a path: two resolvers of "..", and the registry of shares. */
module Unc {

  type Name = string

  predicate IsSlash(c: char) {
    c == '/' || c == '\\'
  }

  predicate Plain(n: Name) {
    n != "" && forall i {:trigger n[i]} :: 0 <= i < |n| ==> !IsSlash(n[i])
  }

  predicate AllPlain(ns: seq<Name>) {
    forall i {:trigger ns[i]} :: 0 <= i < |ns| ==> Plain(ns[i])
  }

  /** How many slashes s starts with. */
  function Slashes(s: string): (n: nat)
    ensures n <= |s| && (n < |s| ==> !IsSlash(s[n])) && forall i {:trigger s[i]} :: 0 <= i < n ==> IsSlash(s[i])
  {
    if s == "" || !IsSlash(s[0]) then 0
    else
      var n := Slashes(s[1..]) + 1;
      assert forall i {:trigger s[i]} :: 1 <= i < n ==> s[i] == s[1..][i - 1];
      n
  }

  /** How many characters come before the next slash. */
  function Run(s: string): (n: nat)
    ensures n <= |s| && (n < |s| ==> IsSlash(s[n])) && forall i {:trigger s[i]} :: 0 <= i < n ==> !IsSlash(s[i])
  {
    if s == "" || IsSlash(s[0]) then 0
    else
      var n := Run(s[1..]) + 1;
      assert forall i {:trigger s[i]} :: 1 <= i < n ==> s[i] == s[1..][i - 1];
      n
  }

  /** The first component, empty when there is none. */
  function First(s: string): (c: Name)
    ensures c == "" || Plain(c)
  {
    var b := Slashes(s);
    var r := s[b..];
    assert forall i {:trigger r[..Run(r)][i]} :: 0 <= i < Run(r) ==> r[..Run(r)][i] == r[i];
    r[..Run(r)]
  }

  /** What follows the first component. */
  function Rest(s: string): (r: string)
    ensures |r| + |First(s)| + Slashes(s) == |s| && (r != "" ==> IsSlash(r[0]))
    ensures First(s) == "" ==> r == ""
  {
    var b := Slashes(s);
    var r := s[b..];
    assert b < |s| ==> r[0] == s[b];
    r[Run(r)..]
  }

  /** The components of a path. */
  function Comps(s: string): (cs: seq<Name>)
    decreases |s|
  {
    if First(s) == "" then [] else [First(s)] + Comps(Rest(s))
  }

  datatype State = State(stack: seq<Name>, climbed: bool)

  /** One component resolved against the stack: ".." with nothing to pop is a climb. */
  function Push(s: State, c: Name): (r: State) {
    if c == "." then s
    else if c == ".." then
      if s.stack == [] then s.(climbed := true) else s.(stack := s.stack[..|s.stack| - 1])
    else s.(stack := s.stack + [c])
  }

  function Resolve(s: State, cs: seq<Name>): (r: State)
    decreases |cs|
  {
    if cs == [] then s else Resolve(Push(s, cs[0]), cs[1..])
  }

  lemma {:induction false} ResolveSplit(s: State, a: seq<Name>, b: seq<Name>)
    ensures Resolve(s, a + b) == Resolve(Resolve(s, a), b)
    decreases |a|
  {
    if a == [] {
      assert a + b == b;
    } else {
      assert (a + b)[1..] == a[1..] + b;
      ResolveSplit(Push(s, a[0]), a[1..], b);
    }
  }

  /** A name before ".." goes with it, "." does nothing, ".." against an empty stack is a climb and no
      more, and names alone pile up. These laws leave one resolution only. */
  lemma ResolveLaws(s: State, a: seq<Name>, c: Name, b: seq<Name>)
    ensures c != "." && c != ".." ==> Resolve(s, a + [c, ".."] + b) == Resolve(s, a + b)
    ensures Resolve(s, a + ["."] + b) == Resolve(s, a + b)
    ensures Resolve(s, a).stack == [] ==> Resolve(s, a + [".."] + b) == Resolve(State([], true), b)
    ensures (forall i {:trigger a[i]} :: 0 <= i < |a| ==> a[i] != "." && a[i] != "..") ==> Resolve(s, a) == s.(stack := s.stack + a)
  {
    var m := Resolve(s, a);
    ResolveSplit(s, a, b);
    ResolveSplit(s, a + [c, ".."], b);
    ResolveSplit(s, a, [c, ".."]);
    ResolveSplit(s, a + ["."], b);
    ResolveSplit(s, a, ["."]);
    ResolveSplit(s, a + [".."], b);
    ResolveSplit(s, a, [".."]);
    assert [c, ".."][1..] == [".."] && [".."][1..] == [] && ["."][1..] == [];
    assert (m.stack + [c])[..|m.stack|] == m.stack;
    NamesPile(s, a);
  }

  lemma {:induction false} NamesPile(s: State, a: seq<Name>)
    ensures (forall i {:trigger a[i]} :: 0 <= i < |a| ==> a[i] != "." && a[i] != "..") ==> Resolve(s, a) == s.(stack := s.stack + a)
    decreases |a|
  {
    if a != [] {
      NamesPile(Push(s, a[0]), a[1..]);
      assert forall i {:trigger a[1..][i]} :: 0 <= i < |a| - 1 ==> a[1..][i] == a[i + 1];
      assert s.stack + [a[0]] + a[1..] == s.stack + a;
    } else {
      assert s.stack + a == s.stack;
    }
  }

  /** A stack written out, each component behind a separator. */
  function Text(sep: char, stack: seq<Name>): (t: string) {
    if stack == [] then "" else Text(sep, stack[..|stack| - 1]) + [sep] + stack[|stack| - 1]
  }

  predicate Ordinary(c: Name) {
    Plain(c) && c != "." && c != ".."
  }

  /** Neither "." nor ".." survives, nothing else is lost, and the stack never goes below empty. */
  lemma {:induction false} ResolveClean(s: State, cs: seq<Name>)
    requires AllPlain(cs) && forall i {:trigger s.stack[i]} :: 0 <= i < |s.stack| ==> Ordinary(s.stack[i])
    ensures forall i {:trigger Resolve(s, cs).stack[i]} :: 0 <= i < |Resolve(s, cs).stack| ==> Ordinary(Resolve(s, cs).stack[i])
    decreases |cs|
  {
    if cs != [] {
      assert AllPlain(cs[1..]);
      ResolveClean(Push(s, cs[0]), cs[1..]);
    }
  }

  /** Some ".." meets an empty stack, starting from one of the given depth. */
  predicate Climbs(cs: seq<Name>, depth: nat)
    decreases |cs|
  {
    cs != [] &&
    if cs[0] == ".." then depth == 0 || Climbs(cs[1..], depth - 1)
    else Climbs(cs[1..], if cs[0] == "." then depth else depth + 1)
  }

  /** The climb is noticed exactly when some ".." meets an empty stack. */
  lemma {:induction false} ClimbedExactly(s: State, cs: seq<Name>)
    ensures Resolve(s, cs).climbed <==> s.climbed || Climbs(cs, |s.stack|)
    decreases |cs|
  {
    if cs != [] { ClimbedExactly(Push(s, cs[0]), cs[1..]); }
  }

  // ------------------------------------------------------------------ in place

  predicate EndsInSlash(s: string) {
    s != "" && IsSlash(s[|s| - 1])
  }

  /** What the normalizer must leave of a rest: the resolved stack, and a slash at its end when the
      rest had one and something is left. */
  function Normal(s: string): (t: string) {
    var stack := Resolve(State([], false), Comps(s)).stack;
    Text('\\', stack) + if EndsInSlash(s) && stack != [] then "\\" else ""
  }

  /** The rest is empty, starts with a separator, or with "." or "..": as it is behind a share. */
  predicate Follows(s: string) {
    s == "" || IsSlash(s[0]) || s[..Run(s)] == "." || s[..Run(s)] == ".."
  }

  /** Writing a separator at j and then moving n characters from i behind it keeps them exactly
      when the write is behind the read. */
  function Moved(p: string, j: nat, i: nat, n: nat): (r: string)
    requires j <= i && i + n < |p|
  {
    var q := p[j := '\\'];
    q[..j + 1] + q[i..i + n] + q[j + 1 + n..]
  }

  lemma MovedExactly(p: string, j: nat, i: nat, n: nat)
    requires j <= i && i + n < |p| && 0 < n && Plain(p[i..i + n])
    ensures Moved(p, j, i, n)[j..j + 1 + n] == "\\" + p[i..i + n] <==> j < i
  {
    var q := p[j := '\\'];
    var r := Moved(p, j, i, n);
    assert r[j..j + 1 + n] == "\\" + q[i..i + n];
    if j < i {
      assert q[i..i + n] == p[i..i + n];
    } else {
      assert q[i..i + n][0] == '\\';
      assert p[i..i + n][0] != '\\';
      assert ("\\" + q[i..i + n])[1] == '\\' && ("\\" + p[i..i + n])[1] == p[i..i + n][0];
    }
  }

  /** The scan's first move keeps its component, unless there is none to move, exactly when the rest
      is empty or starts with a separator, "." or "..". p is the rest and what the array holds
      behind it. */
  lemma FirstMoveKeeps(p: string, n: nat)
    requires n < |p|
    ensures var s := p[..n]; var c := First(s);
            Slashes(s) + |c| <= n
            && (Follows(s) <==> !Ordinary(c) || Moved(p, 0, Slashes(s), |c|)[..1 + |c|] == "\\" + c)
  {
    var s := p[..n];
    var c, b := First(s), Slashes(s);
    assert s[b..] == p[b..n] && |c| == Run(s[b..]) && c == p[b..b + |c|];
    if Ordinary(c) {
      MovedExactly(p, 0, b, |c|);
      assert b == 0 ==> s[b..] == s && s[..Run(s)] == c;
    } else if s != "" && b == 0 {
      assert s[b..] == s && s[..Run(s)] == c;
    }
  }

  /** The last component taken off text, as both resolvers do it: back to the separator, and over it. */
  function Popped(sep: char, t: string): (r: string)
    ensures |r| <= |t|
  {
    if t == "" then "" else if t[|t| - 1] == sep then t[..|t| - 1] else Popped(sep, t[..|t| - 1])
  }

  lemma {:induction false} PoppedText(sep: char, head: string, c: Name)
    requires sep !in c
    ensures Popped(sep, head + [sep] + c) == head
    decreases |c|
  {
    var t := head + [sep] + c;
    if c == "" {
      assert t[..|t| - 1] == head;
    } else {
      var d := c[..|c| - 1];
      assert t[..|t| - 1] == head + [sep] + d && t[|t| - 1] == c[|c| - 1];
      assert c[|c| - 1] in c;
      PoppedText(sep, head, d);
    }
  }

  method SkipSlashes(p: array<char>, n: nat, i: nat) returns (b: nat)
    requires i <= n <= p.Length
    ensures i <= b <= n && b == i + Slashes(p[i..n])
  {
    hide Slashes, IsSlash;
    ghost var s := p[i..n];
    b := i;
    while b < n && IsSlash(p[b])
      invariant i <= b <= n && Slashes(s) == b - i + Slashes(s[b - i..])
    {
      assert p[b] == s[b - i] && s[b - i..][1..] == s[b + 1 - i..];
      SlashStep(s[b - i..]);
      b := b + 1;
    }
    assert b < n ==> p[b] == s[b - i];
    SlashStep(s[b - i..]);
  }

  method SkipName(p: array<char>, n: nat, b: nat) returns (k: nat)
    requires b <= n <= p.Length
    ensures b <= k <= n && k == b + Run(p[b..n])
  {
    hide Run, IsSlash;
    ghost var r := p[b..n];
    k := b;
    while k < n && !IsSlash(p[k])
      invariant b <= k <= n && Run(r) == k - b + Run(r[k - b..])
    {
      assert p[k] == r[k - b] && r[k - b..][1..] == r[k + 1 - b..];
      RunStep(r[k - b..]);
      k := k + 1;
    }
    assert k < n ==> p[k] == r[k - b];
    RunStep(r[k - b..]);
  }

  /** Where the next component of the first n characters starts and ends. */
  method NextComp(p: array<char>, n: nat, i: nat) returns (b: nat, k: nat)
    requires i <= n <= p.Length
    ensures i <= b <= k <= n && b == i + Slashes(p[i..n]) && p[b..k] == First(p[i..n]) && k == n - |Rest(p[i..n])|
  {
    hide Slashes, Run, First, Rest, IsSlash;
    ghost var s := p[i..n];
    b := SkipSlashes(p, n, i);
    k := SkipName(p, n, b);
    assert p[b..n] == s[b - i..];
    FirstRest(s, b - i, k - b);
    Slices(p[..], i, n, b, k);
    assert p[..][i..n] == s && p[..][b..k] == p[b..k];
  }

  lemma Slices(full: string, i: nat, n: nat, b: nat, k: nat)
    requires i <= b <= k <= n <= |full|
    ensures full[i..n][b - i..k - i] == full[b..k]
  {
    var s := full[i..n];
    var inner, outer := s[b - i..k - i], full[b..k];
    forall x | 0 <= x < k - b
      ensures inner[x] == outer[x]
    {
      assert inner[x] == s[b - i + x] == full[b + x];
    }
  }

  lemma SlashStep(s: string)
    ensures Slashes(s) == if s != "" && IsSlash(s[0]) then Slashes(s[1..]) + 1 else 0
  {
  }

  lemma RunStep(s: string)
    ensures Run(s) == if s != "" && !IsSlash(s[0]) then Run(s[1..]) + 1 else 0
  {
  }

  lemma FirstRest(s: string, b: nat, n: nat)
    requires b == Slashes(s) && n == Run(s[b..])
    ensures b + n <= |s| && s[b..b + n] == First(s) && s[b + n..] == Rest(s)
  {
    hide Slashes, Run, Plain;
    SliceSlice(s, b, n);
  }

  lemma SliceSlice(s: string, b: nat, n: nat)
    requires b + n <= |s|
    ensures s[b..][..n] == s[b..b + n] && s[b..][n..] == s[b + n..]
  {
  }

  /** Takes the last component off the first j characters. */
  method PopBack(p: array<char>, j0: nat, base: nat, sep: char) returns (j: nat)
    requires base <= j0 <= p.Length
    ensures base <= j <= j0 && p[base..j] == Popped(sep, p[base..j0])
  {
    j := j0;
    ghost var t := p[base..j0];
    while j > base && p[j - 1] != sep
      invariant base <= j <= j0 && Popped(sep, p[base..j]) == Popped(sep, t)
    {
      assert p[base..j][..j - 1 - base] == p[base..j - 1];
      j := j - 1;
    }
    if j > base {
      assert p[base..j][..j - 1 - base] == p[base..j - 1];
      j := j - 1;
    }
    assert p[base..j] == Popped(sep, t);
  }

  /** Where the scan of a rest stands: what is done, what is left. */
  ghost predicate Midway(rest: string, i: nat, text: string, st: State) {
    && i <= |rest|
    && |text| <= i && (|text| == i ==> i == 0 || !IsSlash(rest[i - 1]))
    && text == Text('\\', st.stack) && AllPlain(st.stack)
    && Resolve(st, Comps(rest[i..])) == Resolve(State([], false), Comps(rest))
    && (0 < i < |rest| ==> IsSlash(rest[i]))
    && (i == 0 ==> st == State([], false))
  }

  lemma MidwayName(rest: string, i: nat, text: string, st: State, c: Name)
    requires Midway(rest, i, text, st) && i < |rest| && c == First(rest[i..]) && c != ""
    ensures var k := |rest| - |Rest(rest[i..])|;
            var text' := if c == "." then text else if c == ".." then Popped('\\', text) else text + "\\" + c;
            c == "." || c == ".." || |text| < k - |c| ==> Midway(rest, k, text', Push(st, c))
  {
    hide First, Rest, Slashes, Run, Plain, Resolve, Comps, Popped, Text, Push;
    var s := rest[i..];
    ResolveFirst(st, s);
    RestIs(rest, i);
    FirstPlain(s);
    PushText('\\', st, c);
    PopStack('\\', st.stack);
    PoppedShorter('\\', text);
  }

  lemma PoppedShorter(sep: char, t: string)
    ensures |Popped(sep, t)| <= |t| && (t != "" ==> |Popped(sep, t)| < |t|)
  {
  }

  lemma ResolveFirst(st: State, s: string)
    requires First(s) != ""
    ensures Resolve(st, Comps(s)) == Resolve(Push(st, First(s)), Comps(Rest(s)))
  {
    hide First, Rest, Push;
    assert Comps(s) == [First(s)] + Comps(Rest(s));
  }

  lemma MidwayClimb(rest: string, i: nat, text: string, st: State, c: Name)
    requires Midway(rest, i, text, st)
    ensures c == ".." && text == "" ==> Push(st, c).climbed
    ensures c != ".." || text != "" ==> Push(st, c).climbed == st.climbed
    ensures Popped('\\', "") == ""
  {
    TextEmpty('\\', st.stack);
  }

  lemma DotsSpelled(c: Name)
    ensures c == "." <==> |c| == 1 && c[0] == '.'
    ensures c == ".." <==> |c| == 2 && c[0] == '.' && c[1] == '.'
  {
  }

  lemma RestIs(rest: string, i: nat)
    requires i <= |rest|
    ensures var s := rest[i..]; var k := |rest| - |Rest(s)|;
            && i + Slashes(s) + |First(s)| == k && rest[k..] == Rest(s)
            && (k < |rest| ==> IsSlash(rest[k])) && (First(s) != "" ==> 0 < k && !IsSlash(rest[k - 1]))
            && rest[k - |First(s)|..k] == First(s)
  {
    hide Slashes, Run, First, Rest, Plain;
    var s := rest[i..];
    var k := |rest| - |Rest(s)|;
    FirstRest(s, Slashes(s), Run(s[Slashes(s)..]));
    assert rest[k..] == Rest(s);
    assert rest[k - |First(s)|..k] == First(s);
    if k < |rest| { assert rest[k] == Rest(s)[0]; }
    if First(s) != "" {
      assert rest[k - 1] == First(s)[|First(s)| - 1];
      PlainLast(First(s));
    }
  }

  lemma PlainLast(c: Name)
    requires Plain(c)
    ensures !IsSlash(c[|c| - 1])
  {
  }

  lemma PopStack(sep: char, stack: seq<Name>)
    requires AllPlain(stack) && IsSlash(sep)
    ensures Popped(sep, Text(sep, stack)) == if stack == [] then "" else Text(sep, stack[..|stack| - 1])
    ensures stack != [] ==> AllPlain(stack[..|stack| - 1])
  {
    if stack != [] {
      var n := |stack| - 1;
      assert Plain(stack[n]);
      NoSep(stack[n], sep);
      PoppedText(sep, Text(sep, stack[..n]), stack[n]);
    }
  }

  lemma NoSep(c: Name, sep: char)
    requires Plain(c) && IsSlash(sep)
    ensures sep !in c
  {
  }

  lemma TextEmpty(sep: char, stack: seq<Name>)
    ensures Text(sep, stack) == "" <==> stack == []
  {
  }

  lemma MidwayNone(rest: string, i: nat, text: string, st: State)
    requires Midway(rest, i, text, st) && First(rest[i..]) == ""
    ensures Midway(rest, |rest|, text, st) && Rest(rest[i..]) == "" && (i < |rest| ==> |text| < |rest|)
    ensures Resolve(State([], false), Comps(rest)) == st
  {
    hide Plain;
    RestIs(rest, i);
    assert rest[|rest|..] == "";
    if i < |rest| {
      assert Slashes(rest[i..]) == |rest| - i;
      assert rest[i..][|rest| - 1 - i] == rest[|rest| - 1];
    }
  }

  lemma MidwayStart(rest: string)
    ensures Midway(rest, 0, "", State([], false))
  {
    assert rest[0..] == rest;
  }

  /** The write position stays behind a component that is going to be moved. */
  lemma WriteBehind(rest: string, i: nat, text: string, st: State)
    requires Midway(rest, i, text, st) && i < |rest| && Follows(rest)
    ensures var c := First(rest[i..]); c != "" && c != "." && c != ".." ==> |text| < i + Slashes(rest[i..])
  {
    hide First, Run;
    var s := rest[i..];
    assert s[0] == rest[i];
    SlashStep(s);
    if i == 0 {
      assert s == rest;
      if !IsSlash(rest[0]) { FirstRest(s, 0, Run(s)); assert s[0..] == s; }
    }
  }

  lemma Finished(rest: string, text: string, st: State)
    requires Midway(rest, |rest|, text, st)
    ensures Normal(rest) == text + if EndsInSlash(rest) && text != "" then "\\" else ""
    ensures st.climbed <==> Climbs(Comps(rest), 0)
    ensures EndsInSlash(rest) ==> |text| < |rest|
  {
    hide Climbs;
    assert rest[|rest|..] == "";
    TextEmpty('\\', st.stack);
    ClimbedExactly(State([], false), Comps(rest));
    assert Comps("") == [];
  }

  /** A separator written at j and the characters from b to k moved behind it. */
  method Place(p: array<char>, n: nat, j: nat, b: nat, k: nat)
    requires j < b < k <= n < p.Length
    modifies p
    ensures p[..j + 1 + (k - b)] == old(p[..j]) + "\\" + old(p[b..k]) && p[k..n] == old(p[k..n])
  {
    ghost var was := p[..];
    p[j] := '\\';
    if j + 1 != b {
      forall x | 0 <= x < k - b { p[j + 1 + x] := p[b + x]; }
    }
    Placed(was, p[..], n, j, b, k);
  }

  lemma Placed(was: string, now: string, n: nat, j: nat, b: nat, k: nat)
    requires j < b < k <= n < |was| == |now|
    requires forall x {:trigger now[x]} :: 0 <= x < n ==>
               now[x] == if x < j || x >= j + 1 + (k - b) then was[x] else if x == j then '\\' else was[b + x - j - 1]
    ensures now[..j + 1 + (k - b)] == was[..j] + "\\" + was[b..k] && now[k..n] == was[k..n]
  {
  }

  /** One component handled: skipped, popped or moved. */
  method Turn(p: array<char>, n: nat, i: nat, j0: nat, ghost rest: string, ghost st: State) returns (k: nat, j: nat, climbs: bool, ghost st': State)
    requires i < n < p.Length && j0 <= i && |rest| == n && p[i..n] == rest[i..] && Follows(rest) && Midway(rest, i, p[..j0], st)
    modifies p
    ensures i < k <= n && j <= k && p[k..n] == rest[k..] && Midway(rest, k, p[..j], st')
    ensures st'.climbed <==> st.climbed || climbs
  {
    hide Comps, Midway, Popped, Resolve, First, Rest, Slashes, Run, Text, Push, Follows;
    var b;
    b, k := NextComp(p, n, i);
    ghost var c, text := First(rest[i..]), p[..j0];
    var len := k - b;
    j, climbs, st' := j0, false, st;
    ghost var was := p[i..n];
    assert p[k..n] == was[k - i..];
    if len == 0 {
      MidwayNone(rest, i, text, st);
    } else {
      MidwayName(rest, i, text, st, c);
      MidwayClimb(rest, i, text, st, c);
      WriteBehind(rest, i, text, st);
      DotsSpelled(c);
      assert p[b] == c[0] && (len == 2 ==> p[b + 1] == c[1]);
      st' := Push(st, c);
      if len == 1 && p[b] == '.' {
        assert c == ".";
      } else if len == 2 && p[b] == '.' && p[b + 1] == '.' {
        assert c == "..";
        if j > 0 {
          j := PopBack(p, j, 0, '\\');
        } else {
          climbs := true;
        }
      } else {
        Place(p, n, j, b, k);
        j := j + 1 + len;
      }
    }
  }

  /** Normalizes the first n characters in place; climbed when some ".." had nothing to pop. */
  method NormUncRest(p: array<char>, n: nat) returns (j: nat, climbed: bool)
    requires n < p.Length && Follows(p[..n])
    modifies p
    ensures j <= n && p[..j] == Normal(old(p[..n]))
    ensures climbed <==> Climbs(Comps(old(p[..n])), 0)
  {
    hide Comps, Midway, Normal, Follows, Climbs;
    ghost var rest := p[..n];
    ghost var st := State([], false);
    var i := 0;
    j := 0;
    climbed := false;
    var trailing := n > 0 && IsSlash(p[n - 1]);
    MidwayStart(rest);
    assert p[..0] == "";
    while i < n
      invariant 0 <= i <= n && j <= i && p[i..n] == rest[i..] && Midway(rest, i, p[..j], st)
      invariant climbed == st.climbed
      decreases n - i
    {
      var climbs;
      i, j, climbs, st := Turn(p, n, i, j, rest, st);
      climbed := climbed || climbs;
    }
    Finished(rest, p[..j], st);
    if trailing && j > 0 {
      ghost var text := p[..j];
      p[j] := '\\';
      j := j + 1;
      assert p[..j] == text + "\\";
    }
    p[j] := '\0';
  }

  // ------------------------------------------------------------------ what the result is

  lemma {:induction false} SlashesThenMore(a: string, b: string)
    requires Slashes(a) == |a|
    ensures Slashes(a + b) == |a| + Slashes(b)
    decreases |a|
  {
    if a == "" {
      assert a + b == b;
    } else {
      SlashStep(a);
      SlashStep(a + b);
      assert (a + b)[1..] == a[1..] + b;
      SlashesThenMore(a[1..], b);
    }
  }

  lemma {:induction false} SlashesBefore(a: string, b: string)
    requires Slashes(a) < |a|
    ensures Slashes(a + b) == Slashes(a)
    decreases |a|
  {
    SlashStep(a);
    SlashStep(a + b);
    if IsSlash(a[0]) {
      assert (a + b)[1..] == a[1..] + b;
      SlashesBefore(a[1..], b);
    }
  }

  lemma {:induction false} RunBefore(a: string, b: string)
    requires b != "" && IsSlash(b[0])
    ensures Run(a + b) == Run(a)
    decreases |a|
  {
    RunStep(a);
    RunStep(a + b);
    if a == "" {
      assert a + b == b;
    } else if !IsSlash(a[0]) {
      assert (a + b)[1..] == a[1..] + b;
      RunBefore(a[1..], b);
    }
  }

  /** Text in front of a slash keeps its first component. */
  lemma FirstBefore(a: string, b: string)
    requires b != "" && IsSlash(b[0]) && First(a) != ""
    ensures First(a + b) == First(a) && Rest(a + b) == Rest(a) + b
  {
    var n := Slashes(a);
    hide Slashes, Run, Plain, IsSlash;
    FirstRest(a, n, Run(a[n..]));
    SlashesBefore(a, b);
    RunBefore(a[n..], b);
    assert (a + b)[n..] == a[n..] + b;
    FirstRest(a + b, n, Run(a[n..]));
    var m := n + Run(a[n..]);
    assert (a + b)[n..m] == a[n..m] && (a + b)[m..] == a[m..] + b;
  }

  lemma SlashesAll(a: string)
    ensures First(a) == "" ==> Slashes(a) == |a|
  {
    var b := Slashes(a);
    if b < |a| { RunStep(a[b..]); }
  }

  /** Only slashes in front add nothing. */
  lemma CompsSkip(a: string, s: string)
    requires Slashes(a) == |a|
    ensures Comps(a + s) == Comps(s)
  {
    hide Slashes, Run, Plain;
    var n := Slashes(s);
    SlashesThenMore(a, s);
    assert (a + s)[|a| + n..] == s[n..];
    FirstRest(s, n, Run(s[n..]));
    FirstRest(a + s, |a| + n, Run(s[n..]));
    var m := n + Run(s[n..]);
    assert (a + s)[|a| + n..|a| + m] == s[n..m] && (a + s)[|a| + m..] == s[m..];
  }

  /** A path joined with a separator has the components of both parts. */
  lemma {:induction false} CompsJoin(a: string, sep: char, b: string)
    requires IsSlash(sep)
    ensures Comps(a + [sep] + b) == Comps(a) + Comps(b)
    decreases |a|
  {
    hide First, Rest, Run, Slashes, IsSlash, Plain;
    var s := [sep] + b;
    assert a + [sep] + b == a + s;
    if First(a) == "" {
      SlashesAll(a);
      SlashStep([sep]);
      SlashStep([sep][1..]);
      SlashesThenMore(a, [sep]);
      CompsSkip(a + [sep], b);
      assert [] + Comps(b) == Comps(b);
    } else {
      FirstBefore(a, s);
      CompsJoin(Rest(a), sep, b);
      assert Rest(a) + [sep] + b == Rest(a) + s;
      assert [First(a)] + (Comps(Rest(a)) + Comps(b)) == ([First(a)] + Comps(Rest(a))) + Comps(b);
    }
  }

  lemma {:induction false} RunAll(c: string)
    requires forall i {:trigger c[i]} :: 0 <= i < |c| ==> !IsSlash(c[i])
    ensures Run(c) == |c|
  {
    RunStep(c);
    if c != "" { RunAll(c[1..]); }
  }

  lemma CompsOne(c: Name)
    requires Plain(c)
    ensures Comps(c) == [c]
  {
    SlashStep(c);
    assert c[0..] == c;
    RunAll(c);
    FirstRest(c, 0, |c|);
    assert c[0..|c|] == c && c[|c|..] == "";
    CompsNone();
  }

  /** A path splits at either slash, and text without one is a component. */
  lemma CompsLaws(a: string, b: string, c: string)
    ensures Comps(a + "/" + b) == Comps(a) + Comps(b) && Comps(a + "\\" + b) == Comps(a) + Comps(b)
    ensures '/' !in c && '\\' !in c ==> Comps(c) == if c == "" then [] else [c]
  {
    CompsJoin(a, '/', b);
    CompsJoin(a, '\\', b);
    assert a + ['/'] + b == a + "/" + b && a + ['\\'] + b == a + "\\" + b;
    CompsNone();
    if c != "" && '/' !in c && '\\' !in c {
      assert forall i {:trigger c[i]} :: 0 <= i < |c| ==> c[i] in c;
      CompsOne(c);
    }
  }

  lemma CompsNone()
    ensures Comps("") == []
  {
  }

  /** Reading written components back. */
  lemma {:induction false} CompsText(sep: char, stack: seq<Name>, tail: string)
    requires IsSlash(sep) && AllPlain(stack) && (tail == "" || tail == [sep])
    ensures Comps(Text(sep, stack) + tail) == stack
    decreases |stack|, |tail|
  {
    hide Comps;
    CompsNone();
    if tail != "" {
      CompsText(sep, stack, "");
      CompsJoin(Text(sep, stack) + "", sep, "");
      assert Text(sep, stack) + tail == Text(sep, stack) + "" + [sep] + "";
    } else if stack != [] {
      var n := |stack| - 1;
      assert Plain(stack[n]);
      CompsText(sep, stack[..n], "");
      CompsOne(stack[n]);
      CompsJoin(Text(sep, stack[..n]) + "", sep, stack[n]);
      assert Text(sep, stack) + tail == Text(sep, stack[..n]) + "" + [sep] + stack[n];
      assert stack == stack[..n] + [stack[n]];
    } else {
      assert Text(sep, stack) + tail == "";
    }
  }

  predicate AllOrdinary(ns: seq<Name>) {
    forall i {:trigger ns[i]} :: 0 <= i < |ns| ==> Ordinary(ns[i])
  }

  lemma {:induction false} ResolveOrdinary(s: State, cs: seq<Name>)
    requires AllOrdinary(cs)
    ensures Resolve(s, cs) == State(s.stack + cs, s.climbed)
    decreases |cs|
  {
    if cs == [] {
      assert s.stack + cs == s.stack;
    } else {
      assert Ordinary(cs[0]) && AllOrdinary(cs[1..]);
      ResolveOrdinary(Push(s, cs[0]), cs[1..]);
      assert s.stack + [cs[0]] + cs[1..] == s.stack + cs;
    }
  }

  lemma {:induction false} CompsPlain(s: string)
    ensures AllPlain(Comps(s))
    decreases |s|
  {
    hide First, Rest, Plain;
    if First(s) != "" {
      FirstPlain(s);
      CompsPlain(Rest(s));
    }
  }

  lemma FirstPlain(s: string)
    ensures First(s) != "" ==> Plain(First(s))
  {
  }

  /** Normalizing twice is normalizing once, and a normal rest can be normalized in place. */
  lemma NormalAgain(s: string)
    ensures Normal(Normal(s)) == Normal(s) && Follows(Normal(s))
    ensures !Climbs(Comps(Normal(s)), 0)
  {
    var stack := Resolve(State([], false), Comps(s)).stack;
    CompsPlain(s);
    ResolveClean(State([], false), Comps(s));
    var tail := if EndsInSlash(s) && stack != [] then "\\" else "";
    CompsText('\\', stack, tail);
    ResolveOrdinary(State([], false), stack);
    ClimbedExactly(State([], false), stack);
    assert [] + stack == stack;
    NormalEnds(stack, tail);
  }

  lemma {:induction false} NormalEnds(stack: seq<Name>, tail: string)
    requires AllOrdinary(stack) && (tail == "" || (tail == "\\" && stack != []))
    ensures EndsInSlash(Text('\\', stack) + tail) <==> tail != ""
    ensures var t := Text('\\', stack) + tail; t == "" || t[0] == '\\'
  {
    if stack != [] {
      var n := |stack| - 1;
      assert Ordinary(stack[n]);
      PlainLast(stack[n]);
      TextHead(stack);
    }
  }

  /** What the normalizer leaves spells the resolved stack with backslashes alone: nothing when the stack
      is empty, else a backslash first, and one last exactly when the rest ended in a slash. */
  lemma NormalShape(s: string)
    ensures var t, stack := Normal(s), Resolve(State([], false), Comps(s)).stack;
            && Comps(t) == stack && '/' !in t
            && (stack == [] <==> t == "")
            && (t != "" ==> t[0] == '\\' && (t[|t| - 1] == '\\' <==> s != "" && (s[|s| - 1] == '/' || s[|s| - 1] == '\\')))
  {
    var stack := Resolve(State([], false), Comps(s)).stack;
    var tail := if EndsInSlash(s) && stack != [] then "\\" else "";
    CompsPlain(s);
    ResolveClean(State([], false), Comps(s));
    CompsText('\\', stack, tail);
    NormalEnds(stack, tail);
    NoForward(stack);
    if stack != [] { TextHead(stack); }
  }

  lemma {:induction false} NoForward(stack: seq<Name>)
    requires AllPlain(stack)
    ensures '/' !in Text('\\', stack)
  {
    if stack != [] {
      var n := |stack| - 1;
      assert Plain(stack[n]);
      NoForward(stack[..n]);
      assert forall i {:trigger stack[n][i]} :: 0 <= i < |stack[n]| ==> stack[n][i] != '/';
    }
  }

  lemma {:induction false} TextHead(stack: seq<Name>)
    requires stack != []
    ensures Text('\\', stack) != "" && Text('\\', stack)[0] == '\\'
  {
    if |stack| > 1 { TextHead(stack[..|stack| - 1]); }
  }

  // ------------------------------------------------------------------ the other resolver

  /** Whether every component fits when it is appended, with two characters to spare. */
  predicate Fits(s: State, cs: seq<Name>, base: nat, size: nat)
    decreases |cs|
  {
    cs == [] ||
    ((cs[0] == "." || cs[0] == ".." || base + |Text('/', s.stack)| + |cs[0]| + 2 <= size) && Fits(Push(s, cs[0]), cs[1..], base, size))
  }

  /** Every component fits exactly when each text on the way, after a component was appended, fits with
      a terminator behind it. */
  lemma {:induction false} FitsExactly(s: State, cs: seq<Name>, base: nat, size: nat)
    ensures Fits(s, cs, base, size) <==>
              forall m {:trigger cs[m]} :: 0 <= m < |cs| && cs[m] != "." && cs[m] != ".." ==>
                base + |Text('/', Resolve(s, cs[..m + 1]).stack)| + 1 <= size
    decreases |cs|
  {
    hide Text;
    if cs != [] {
      var c, rest := cs[0], cs[1..];
      FitsExactly(Push(s, c), rest, base, size);
      forall m {:trigger cs[m]} | 0 <= m < |cs|
        ensures Resolve(s, cs[..m + 1]) == Resolve(Push(s, c), rest[..m])
      {
        assert cs[..m + 1][1..] == rest[..m];
      }
      assert forall m {:trigger rest[m]} :: 0 <= m < |rest| ==> rest[m] == cs[m + 1];
      assert forall m {:trigger cs[m]} :: 1 <= m < |cs| ==> cs[m] == rest[m - 1];
      assert rest[..0] == [];
      TextMore(s, c);
    }
  }

  lemma TextMore(s: State, c: Name)
    ensures c != "." && c != ".." ==> |Text('/', Push(s, c).stack)| == |Text('/', s.stack)| + 1 + |c|
  {
    assert (s.stack + [c])[..|s.stack|] == s.stack;
  }

  lemma {:induction false} FitsSplit(s: State, a: seq<Name>, b: seq<Name>, base: nat, size: nat)
    ensures Fits(s, a + b, base, size) <==> Fits(s, a, base, size) && Fits(Resolve(s, a), b, base, size)
    decreases |a|
  {
    if a == [] {
      assert a + b == b;
    } else {
      assert (a + b)[1..] == a[1..] + b;
      FitsSplit(Push(s, a[0]), a[1..], b, base, size);
    }
  }

  /** The first component of what is left of a string, with the slashes before it skipped. */
  method NextPart(s: string, i: nat) returns (b: nat, k: nat)
    requires i <= |s|
    ensures i <= b <= k <= |s| && s[b..k] == First(s[i..]) && s[k..] == Rest(s[i..])
  {
    hide Slashes, Run, First, Rest;
    ghost var r := s[i..];
    b := SlashesEnd(s, i);
    k := RunEnd(s, b);
    assert r[b - i..] == s[b..];
    FirstRest(r, b - i, k - b);
    assert r[b - i..k - i] == s[b..k] && r[k - i..] == s[k..];
  }

  method SlashesEnd(s: string, i: nat) returns (b: nat)
    requires i <= |s|
    ensures i <= b <= |s| && b - i == Slashes(s[i..])
  {
    hide Slashes, IsSlash;
    b := i;
    while b < |s| && IsSlash(s[b])
      invariant i <= b <= |s| && Slashes(s[i..]) == b - i + Slashes(s[b..])
    {
      assert s[b..][1..] == s[b + 1..];
      SlashStep(s[b..]);
      b := b + 1;
    }
    SlashStep(s[b..]);
  }

  method RunEnd(s: string, b: nat) returns (k: nat)
    requires b <= |s|
    ensures b <= k <= |s| && k - b == Run(s[b..])
  {
    hide Run, IsSlash;
    k := b;
    while k < |s| && !IsSlash(s[k])
      invariant b <= k <= |s| && Run(s[b..]) == k - b + Run(s[k..])
    {
      assert s[k..][1..] == s[k + 1..];
      RunStep(s[k..]);
      k := k + 1;
    }
    RunStep(s[k..]);
  }

  /** Resolves one part onto what the buffer holds from base on. */
  method JoinPart(out: array<char>, base: nat, o0: nat, part: string, ghost st: State)
    returns (ok: bool, o: nat, trailing: bool)
    requires base <= o0 <= out.Length && out[base..o0] == Text('/', st.stack) && AllPlain(st.stack)
    modifies out
    ensures ok <==> Fits(st, Comps(part), base, out.Length)
    ensures ok ==> base <= o <= out.Length && out[..base] == old(out[..base]) && out[base..o] == Text('/', Resolve(st, Comps(part)).stack)
    ensures ok && part != "" ==> !trailing
    ensures AllPlain(Resolve(st, Comps(part)).stack)
  {
    hide Comps, Popped, Resolve, First, Rest, Slashes, Run, Text, Push, Plain, Fits;
    var i := 0;
    o, trailing, ok := o0, false, true;
    ghost var s, before := st, out[..base];
    assert part[0..] == part;
    ResolvePlain(st, part);
    while i < |part|
      invariant 0 <= i <= |part| && base <= o <= out.Length && out[..base] == before
      invariant out[base..o] == Text('/', s.stack) && AllPlain(s.stack)
      invariant Resolve(s, Comps(part[i..])) == Resolve(st, Comps(part))
      invariant Fits(s, Comps(part[i..]), base, out.Length) <==> Fits(st, Comps(part), base, out.Length)
      invariant i == |part| ==> !trailing
    {
      var b, k := NextPart(part, i);
      var len := k - b;
      PartStep(s, part[i..], base, out.Length);
      trailing := len > 0 && k < |part|;
      if len > 0 {
        FirstPlain(part[i..]);
        ok, o := PlaceComp(out, base, o, part[b..k], s);
        if !ok { return; }
        s := Push(s, part[b..k]);
      }
      i := k;
    }
    assert part[i..] == "";
    CompsNone();
    NothingLeft(s, base, out.Length);
  }

  /** One component resolved onto the buffer: "." does nothing, ".." takes one off, a name is put
      behind a slash when it fits. */
  method PlaceComp(out: array<char>, base: nat, o0: nat, c: string, ghost s: State) returns (ok: bool, o: nat)
    requires base <= o0 <= out.Length && out[base..o0] == Text('/', s.stack) && AllPlain(s.stack) && Plain(c)
    modifies out
    ensures out[..base] == old(out[..base])
    ensures ok <==> c == "." || c == ".." || base + |Text('/', s.stack)| + |c| + 2 <= out.Length
    ensures ok ==> base <= o <= out.Length && out[base..o] == Text('/', Push(s, c).stack)
    ensures AllPlain(Push(s, c).stack)
  {
    hide Popped, Text, Push;
    DotsSpelled(c);
    PopStack('/', s.stack);
    PushText('/', s, c);
    ok, o := true, o0;
    if |c| == 1 && c[0] == '.' {
    } else if |c| == 2 && c[0] == '.' && c[1] == '.' {
      o := PopBack(out, o, base, '/');
    } else {
      if o + |c| + 2 > out.Length { return false, o; }
      Append(out, base, o, c);
      o := o + 1 + |c|;
    }
  }

  lemma ResolvePlain(st: State, part: string)
    requires AllPlain(st.stack)
    ensures AllPlain(Resolve(st, Comps(part)).stack)
  {
    CompsPlain(part);
    StackPlain(st, Comps(part));
  }

  lemma {:induction false} StackPlain(st: State, cs: seq<Name>)
    requires AllPlain(st.stack) && AllPlain(cs)
    ensures AllPlain(Resolve(st, cs).stack)
    decreases |cs|
  {
    hide Plain;
    if cs != [] { StackPlain(Push(st, cs[0]), cs[1..]); }
  }

  lemma NothingLeft(s: State, base: nat, size: nat)
    ensures Fits(s, [], base, size) && Resolve(s, []) == s
  {
  }

  lemma PartStep(s: State, rest: string, base: nat, size: nat)
    ensures var c := First(rest);
            if c == "" then Comps(rest) == [] && Comps(Rest(rest)) == [] && Rest(rest) == ""
            else
              && Resolve(s, Comps(rest)) == Resolve(Push(s, c), Comps(Rest(rest)))
              && (Fits(s, Comps(rest), base, size) <==>
                    (c == "." || c == ".." || base + |Text('/', s.stack)| + |c| + 2 <= size) && Fits(Push(s, c), Comps(Rest(rest)), base, size))
  {
    hide First, Rest, Push, Text;
    CompsNone();
    if First(rest) == "" {
      RestNone(rest);
    } else {
      assert Comps(rest) == [First(rest)] + Comps(Rest(rest));
    }
  }

  lemma RestNone(rest: string)
    ensures First(rest) == "" ==> Rest(rest) == ""
  {
  }

  lemma PushText(sep: char, s: State, c: Name)
    requires AllPlain(s.stack) && Plain(c)
    ensures AllPlain(Push(s, c).stack)
    ensures Text(sep, Push(s, c).stack) ==
              if c == "." then Text(sep, s.stack)
              else if c == ".." then (if s.stack == [] then "" else Text(sep, s.stack[..|s.stack| - 1]))
              else Text(sep, s.stack) + [sep] + c
  {
    hide Plain;
    assert (s.stack + [c])[..|s.stack|] == s.stack;
  }

  method Append(out: array<char>, base: nat, o: nat, c: string)
    requires base <= o && o + 1 + |c| <= out.Length
    modifies out
    ensures out[..base] == old(out[..base]) && out[base..o + 1 + |c|] == old(out[base..o]) + "/" + c
  {
    ghost var was := out[..];
    out[o] := '/';
    forall x | 0 <= x < |c| { out[o + 1 + x] := c[x]; }
    assert out[..base] == was[..base];
    assert out[base..o + 1 + |c|] == was[base..o] + "/" + c;
  }

  /** A relative path joined onto a directory of a server: "//server" and the resolved stack. No
      slash is kept at the end, since the last turn of the scan clears the mark for it. */
  method JoinRel(server: string, rest: string, path: string, out: array<char>) returns (ok: bool, o: nat)
    modifies out
    ensures ok <==> |server| + 3 <= out.Length && Fits(State([], false), Comps(rest + "/" + path), |server| + 2, out.Length)
    ensures ok ==> o < out.Length && out[..o] == "//" + server + Text('/', Resolve(State([], false), Comps(rest + "/" + path)).stack)
  {
    hide Comps, Resolve, Text, Fits;
    ghost var start := State([], false);
    CompsJoin(rest, '/', path);
    ResolveSplit(start, Comps(rest), Comps(path));
    FitsSplit(start, Comps(rest), Comps(path), |server| + 2, out.Length);
    TextEmpty('/', start.stack);
    FitsRoom(start, Comps(rest) + Comps(path), |server| + 2, out.Length);
    if |server| + 3 > out.Length { return false, 0; }
    out[0], out[1] := '/', '/';
    forall i | 0 <= i < |server| { out[2 + i] := server[i]; }
    o := |server| + 2;
    var base := o;
    assert out[..base] == "//" + server;
    assert out[base..o] == "";
    TextEmpty('/', []);
    var trailing, trailing2;
    ok, o, trailing := JoinPart(out, base, o, rest, start);
    if !ok { return; }
    ghost var mid := Resolve(start, Comps(rest));
    ok, o, trailing2 := JoinPart(out, base, o, path, mid);
    if !ok { return; }
    assert out[..o] == out[..base] + out[base..o];
    out[o] := '\0';
  }

  lemma {:induction false} FitsRoom(s: State, cs: seq<Name>, base: nat, size: nat)
    ensures Fits(s, cs, base, size) && base + |Text('/', s.stack)| < size ==> base + |Text('/', Resolve(s, cs).stack)| < size
    decreases |cs|
  {
    if cs != [] {
      assert (s.stack + [cs[0]])[..|s.stack|] == s.stack;
      FitsRoom(Push(s, cs[0]), cs[1..], base, size);
    }
  }

  /** The two resolvers agree: what the normalizer leaves behind a share for the joined path is the
      stack the join writes out, up to the separator and a slash at the end. */
  lemma ResolversAgree(rest: string, path: string)
    ensures var s := rest + "/" + path;
            var stack := Resolve(Resolve(State([], false), Comps(rest)), Comps(path)).stack;
            && stack == Resolve(State([], false), Comps(s)).stack
            && (Normal(s) == Text('\\', stack) || Normal(s) == Text('\\', stack) + "\\")
            && Comps(Normal(s)) == Comps(Text('/', stack)) == stack
            && AllOrdinary(stack)
  {
    CompsJoin(rest, '/', path);
    ResolveSplit(State([], false), Comps(rest), Comps(path));
    CompsPlain(rest + "/" + path);
    ResolveClean(State([], false), Comps(rest + "/" + path));
    var s := rest + "/" + path;
    var stack := Resolve(State([], false), Comps(s)).stack;
    assert AllPlain(stack);
    CompsText('/', stack, "");
    CompsText('\\', stack, if EndsInSlash(s) && stack != [] then "\\" else "");
    assert Text('/', stack) + "" == Text('/', stack) && Text('\\', stack) + "" == Text('\\', stack);
  }
}
