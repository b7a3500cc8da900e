/** The registry of network shares a process has named. */
module UncRoots {
  import opened Unc

  const MAX_ROOTS := 16
  const ROOT_LEN := 256

  function Lower(c: char): (l: char) {
    if 'A' <= c <= 'Z' then (c as int + 32) as char else c
  }

  predicate SameChar(a: char, b: char): (same: bool)
    ensures same <==>
              || a == b || ((a == '/' || a == '\\') && (b == '/' || b == '\\'))
              || ('A' <= a <= 'Z' && b as int == a as int + 32) || ('A' <= b <= 'Z' && a as int == b as int + 32)
  {
    (IsSlash(a) && IsSlash(b)) || Lower(a) == Lower(b)
  }

  /** The same share, whichever slash and case it is spelled with. */
  predicate Same(a: string, b: string) {
    |a| == |b| && forall i {:trigger a[i]} {:trigger b[i]} :: 0 <= i < |a| ==> SameChar(a[i], b[i])
  }

  /** No separator from a to b. */
  ghost predicate Clear(p: string, a: int, b: int) {
    0 <= a <= b <= |p| && forall i {:trigger p[i]} :: a <= i < b ==> !IsSlash(p[i])
  }

  /** The first n characters are a server, a separator and a share, and end there. */
  ghost predicate IsRootAt(p: string, k: int, n: int) {
    && 0 < k && k + 1 < n <= |p| && n < ROOT_LEN
    && p[0] != '?' && p[0] != '.'
    && Clear(p, 0, k) && IsSlash(p[k]) && Clear(p, k + 1, n) && (n < |p| ==> IsSlash(p[n]))
    && p[k + 1..n] != "." && p[k + 1..n] != ".."
  }

  ghost predicate IsRoot(p: string, n: int) {
    exists k: int {:trigger IsRootAt(p, k, n)} :: 0 <= k <= |p| && IsRootAt(p, k, n)
  }

  /** The only place a root can be cut at. */
  lemma OnlyRoot(p: string, k: int, n: int, k': int, n': int)
    requires IsRootAt(p, k', n')
    requires Clear(p, 0, k) && k < |p| && IsSlash(p[k])
    requires k < n && Clear(p, k + 1, n) && (n < |p| ==> IsSlash(p[n]))
    ensures k' == k && n' == n
  {
  }

  /** The length of the "server/share" prefix, 0 when there is none. */
  method RootLen(p: string) returns (n: nat)
    ensures n > 0 ==> IsRoot(p, n)
    ensures n == 0 ==> forall m: nat {:trigger IsRoot(p, m)} :: !IsRoot(p, m)
    ensures forall m: nat {:trigger IsRoot(p, m)} :: IsRoot(p, m) ==> m == n
  {
    hide Plain;
    if p == "" || IsSlash(p[0]) || p[0] == '?' || p[0] == '.' {
      NoRoot(p);
      return 0;
    }
    var i := 0;
    while i < |p| && !IsSlash(p[i])
      invariant Clear(p, 0, i)
    {
      i := i + 1;
    }
    if i == |p| || i + 1 == |p| || IsSlash(p[i + 1]) {
      NoShare(p, i);
      return 0;
    }
    var k := i;
    i := i + 1;
    var share := i;
    while i < |p| && !IsSlash(p[i])
      invariant Clear(p, share, i)
    {
      i := i + 1;
    }
    forall k': int, m: int {:trigger IsRootAt(p, k', m)} | IsRootAt(p, k', m)
      ensures k' == k && m == i
    {
      OnlyRoot(p, k, i, k', m);
    }
    DotsSpelled(p[share..i]);
    if p[share] == '.' && (i - share == 1 || (i - share == 2 && p[share + 1] == '.')) { return 0; }
    if i < ROOT_LEN {
      assert IsRootAt(p, k, i);
      return i;
    }
    return 0;
  }

  lemma NoRoot(p: string)
    requires p == "" || IsSlash(p[0]) || p[0] == '?' || p[0] == '.'
    ensures forall m: nat {:trigger IsRoot(p, m)} :: !IsRoot(p, m)
  {
  }

  lemma NoShare(p: string, i: nat)
    requires Clear(p, 0, i) && (i < |p| ==> IsSlash(p[i])) && (i >= |p| - 1 || IsSlash(p[i + 1]))
    ensures forall m: nat {:trigger IsRoot(p, m)} :: !IsRoot(p, m)
  {
    forall k: int, m: int {:trigger IsRootAt(p, k, m)}
      ensures !IsRootAt(p, k, m)
    {
      AfterServer(p, i, k, m);
    }
  }

  lemma AfterServer(p: string, i: nat, k: int, m: int)
    requires Clear(p, 0, i) && (i < |p| ==> IsSlash(p[i]))
    ensures IsRootAt(p, k, m) ==> k == i && i + 1 < |p| && !IsSlash(p[i + 1])
  {
  }

  class Registry {
    var roots: seq<string>

    /** No share is remembered twice, whatever its spelling, and there is room for sixteen. */
    ghost predicate Valid()
      reads this
    {
      && |roots| <= MAX_ROOTS
      && (forall i {:trigger roots[i]} :: 0 <= i < |roots| ==> IsRoot(roots[i], |roots[i]|))
      && (forall i, j {:trigger roots[i], roots[j]} :: 0 <= i < j < |roots| ==> !Same(roots[i], roots[j]))
    }

    constructor ()
      ensures Valid() && roots == []
    {
      roots := [];
    }

    method Equals(root: string, p: string) returns (same: bool)
      ensures same <==> Same(root, p)
    {
      var i := 0;
      while i < |p|
        invariant 0 <= i <= |p| && i <= |root|
        invariant forall x {:trigger root[x]} {:trigger p[x]} :: 0 <= x < i ==> SameChar(root[x], p[x])
      {
        if i == |root| { return false; }
        if !SameChar(root[i], p[i]) { return false; }
        i := i + 1;
      }
      return |root| == |p|;
    }

    method Known(p: string) returns (known: bool)
      ensures known <==> exists i :: 0 <= i < |roots| && Same(roots[i], p)
    {
      var i := 0;
      while i < |roots|
        invariant 0 <= i <= |roots| && forall x {:trigger roots[x]} :: 0 <= x < i ==> !Same(roots[x], p)
      {
        var same := Equals(roots[i], p);
        if same { return true; }
        i := i + 1;
      }
      return false;
    }

    /** Remembers the share that a path starting with two separators names, once; any other path is
        ignored. */
    method Note(path: string)
      requires Valid()
      modifies this
      ensures Valid()
      ensures roots == old(roots)
           || (exists n: nat {:trigger IsRoot(path[2..], n)} :: n <= |path| - 2 && IsRoot(path[2..], n) && roots == old(roots) + [path[2..][..n]])
      ensures |path| >= 2 && IsSlash(path[0]) && IsSlash(path[1]) ==>
                forall n: nat {:trigger IsRoot(path[2..], n)} :: n <= |path| - 2 && IsRoot(path[2..], n) ==>
                  |old(roots)| == MAX_ROOTS || exists i {:trigger roots[i]} :: 0 <= i < |roots| && Same(roots[i], path[2..][..n])
      ensures !(|path| >= 2 && IsSlash(path[0]) && IsSlash(path[1])) ==> roots == old(roots)
    {
      hide IsRoot, Same;
      if |path| < 2 || !IsSlash(path[0]) || !IsSlash(path[1]) { return; }
      var p := path[2..];
      var n := RootLen(p);
      if n == 0 { return; }
      RootFits(p, n);
      var root := p[..n];
      var known := Known(root);
      if !known && |roots| < MAX_ROOTS {
        SameAsItself(root);
        roots := roots + [root];
        assert roots[|roots| - 1] == root;
      }
    }
  }

  lemma SameAsItself(a: string)
    ensures Same(a, a)
  {
  }

  lemma RootFits(p: string, n: nat)
    requires IsRoot(p, n)
    ensures n <= |p| && IsRoot(p[..n], n)
  {
    var k: int :| 0 <= k <= |p| && IsRootAt(p, k, n);
    assert p[..n][k + 1..n] == p[k + 1..n];
    assert IsRootAt(p[..n], k, n);
  }
}
