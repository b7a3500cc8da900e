/** The walk of realpath in its two buffers. */
module RealpathBuffers {
  import opened PathText
  import opened Realpath

  predicate CString(s: string) {
    '\0' !in s
  }

  /** How many slashes come first. */
  function SlashCount(s: string): (n: nat)
    ensures n <= |s|
  {
    if s != "" && s[0] == '/' then SlashCount(s[1..]) + 1 else 0
  }

  lemma SlashCountStep(s: string)
    ensures SlashCount(s) == if s != "" && s[0] == '/' then SlashCount(s[1..]) + 1 else 0
  {
  }

  lemma {:induction false} SkipIs(s: string)
    ensures Skip(s) == s[SlashCount(s)..]
  {
    if s != "" && s[0] == '/' {
      SkipIs(s[1..]);
      assert s[1..][SlashCount(s[1..])..] == s[SlashCount(s)..];
    }
  }

  /** What is on the stack once a slash the output needs is put before the rest. */
  function Pending(out: string, rest: string): (r: string) {
    if NeedsSlash(out) then "/" + rest else rest
  }

  lemma CompStep(s: string)
    ensures |Comp(s)| == if s == "" || s[0] == '/' then 0 else |Comp(s[1..])| + 1
  {
  }

  lemma CutStep(s: string)
    ensures Cut(s) == if s == "" || s[|s| - 1] == '/' then s else Cut(s[..|s| - 1])
  {
  }

  datatype Status = Running | Finished | Failed(error: Error)

  class Buffers {
    const max: nat
    const stack: array<char>
    const output: array<char>
    var p: nat
    var q: nat
    var nup: nat
    var links: nat
    var check: bool

    ghost predicate Valid()
      reads this, stack, output
    {
      && 2 <= max && stack.Length == max + 1 && output.Length == max && stack != output
      && p <= max && q < max && links < SYMLOOP_MAX
      && stack[max] == '\0' && CString(stack[p..max])
    }

    /** What the two buffers and the counters stand for. */
    ghost function S(): State
      requires Valid()
      reads this, stack, output
    {
      State(stack[p..max], output[..q], nup, links, check)
    }

    constructor (max: nat, filename: string)
      requires 2 <= max && |filename| < max && CString(filename)
      ensures Valid() && fresh(stack) && fresh(output)
      ensures this.max == max && S() == State(filename, "", 0, 0, false)
    {
      this.max := max;
      var l := |filename|;
      stack := new char[max + 1](i => if max - l <= i < max then (if 0 <= i - (max - l) < |filename| then filename[i - (max - l)] else '\0') else '\0');
      output := new char[max](_ => '\0');
      p, q, nup, links, check := max - l, 0, 0, 0, false;
      new;
      assert stack[p..max] == filename;
    }

    /** The slashes at the front of the stack. */
    method SlashLength() returns (n: nat)
      requires Valid()
      ensures p + n <= max && Skip(stack[p..max]) == stack[p..max][n..]
      ensures stack[p] != '/' ==> n == 0
    {
      hide Skip, CString, SlashCount;
      ghost var rest := stack[p..max];
      n := 0;
      assert rest[0..] == rest;
      while stack[p + n] == '/'
        invariant p + n <= max && SlashCount(rest) == n + SlashCount(rest[n..]) && (n > 0 ==> stack[p] == '/')
        decreases max - n
      {
        assert stack[p + n] == rest[n];
        assert rest[n..][1..] == rest[n + 1..];
        SlashCountStep(rest[n..]);
        n := n + 1;
      }
      assert p + n < max ==> stack[p + n] == rest[n];
      SlashCountStep(rest[n..]);
      SkipIs(rest);
    }

    /** The length of the first component. */
    method CompLength() returns (l: nat)
      requires Valid()
      ensures p + l <= max && l == |Comp(stack[p..max])|
    {
      hide Comp;
      ghost var rest := stack[p..max];
      l := 0;
      while stack[p + l] != '\0' && stack[p + l] != '/'
        invariant p + l <= max && |Comp(rest)| == l + |Comp(rest[l..])|
        decreases max - l
      {
        assert stack[p + l] == rest[l];
        assert rest[l..][1..] == rest[l + 1..];
        CompStep(rest[l..]);
        l := l + 1;
      }
      assert p + l < max ==> stack[p + l] == rest[l];
      CompStep(rest[l..]);
    }
  
    /** Puts a slash before the first component when the output needs one. */
    method PutSlash() returns (ok: bool, slash: nat)
      requires Valid()
      modifies `p, stack
      ensures ok <==> old(!(NeedsSlash(S().out) && |S().rest| == max))
      ensures ok ==> Valid() && S() == old(S()).(rest := Pending(old(S().out), old(S().rest)))
      ensures slash == if NeedsSlash(old(S().out)) then 1 else 0
    {
      slash := 0;
      ok := true;
      if q > 0 && output[q - 1] != '/' {
        slash := 1;
        if p == 0 { return false, 1; }
        ghost var rest := stack[p..max];
        stack[p - 1] := '/';
        p := p - 1;
        assert stack[p + 1..max] == rest;
        assert stack[p..max] == "/" + rest;
      }
    }

    /** Moves n characters from the stack to behind the output. */
    method Take(n: nat)
      requires Valid() && p + n <= max && q + n < max
      modifies `p, output
      ensures p == old(p) + n && Valid()
      ensures stack[p..max] == old(stack[p..max])[n..]
      ensures output[..q + n] == old(output[..q]) + old(stack[p..max])[..n]
      ensures output[..q] == old(output[..q])
      ensures stack[p - n..p] == output[q..q + n]
    {
      ghost var full := stack[..];
      Copy(stack, p, output, q, n);
      output[q + n] := '\0';
      p := p + n;
      assert stack[..] == full;
      Slices(full, p - n, n, max);
    }

    static lemma Slices(full: string, p: nat, n: nat, m: nat)
      requires p + n <= m <= |full|
      ensures full[p..m][..n] == full[p..p + n] && full[p..m][n..] == full[p + n..m]
    {
    }

    /** Moves the first component, l characters, behind the output, with a slash before it where
        one is needed; the output position stays. */
    method PutComponent(l: nat) returns (ok: bool, n: nat)
      requires Valid() && l == |Comp(stack[p..max])|
      modifies `p, stack, output
      ensures ok <==> old(!(NeedsSlash(S().out) && |S().rest| == max) && |Longer(S().out, Comp(S().rest))| < max)
      ensures ok ==> Valid() && S() == old(S()).(rest := old(Beyond(S().rest)))
      ensures ok ==> q + n < max && output[..q + n] == old(Longer(S().out, Comp(S().rest)))
      ensures ok ==> l <= n <= p && stack[p - n..p] == output[q..q + n]
    {
      hide NeedsSlash, Beyond, Comp, Longer, CString, Pending;
      ghost var s := S();
      var slash;
      ok, slash := PutSlash();
      n := l + slash;
      Cutting(s.out, s.rest);
      if !ok { return; }
      if q + n >= max { return false, n; }
      Take(n);
    }

    static lemma Cutting(out: string, rest: string)
      ensures var n := |Comp(rest)| + if NeedsSlash(out) then 1 else 0;
              && n <= |Pending(out, rest)| && |Longer(out, Comp(rest))| == |out| + n
              && out + Pending(out, rest)[..n] == Longer(out, Comp(rest)) && Pending(out, rest)[n..] == Beyond(rest)
    {
      hide Comp, NeedsSlash;
      var k := |Comp(rest)|;
      CompShape(rest);
      assert rest[..k] == Comp(rest);
      assert ("/" + rest)[..k + 1] == "/" + rest[..k] && ("/" + rest)[k + 1..] == rest[k..];
      assert out + ("/" + rest[..k]) == out + "/" + rest[..k] && out + "" == out;
    }

    static method Copy(src: array<char>, from: nat, dst: array<char>, to: nat, n: nat)
      requires src != dst && from + n <= src.Length && to + n <= dst.Length
      modifies dst
      ensures dst[..to + n] == old(dst[..to]) + src[from..from + n]
      ensures dst[..to] == old(dst[..to])
    {
      var i := 0;
      while i < n
        invariant 0 <= i <= n
        invariant dst[..to + i] == old(dst[..to]) + src[from..from + i]
      {
        dst[to + i] := src[from + i];
        i := i + 1;
      }
    }
  
    /** Takes the last component off the output. */
    method Drop()
      requires Valid()
      modifies `q
      ensures Valid() && S() == old(S()).(out := Up(old(S()).out))
    {
      hide Cut, CString;
      ghost var out := output[..q];
      assert out[..q] == out;
      while q > 0 && output[q - 1] != '/'
        invariant q <= old(q) && Cut(out[..q]) == Cut(out)
      {
        assert out[..q][..q - 1] == out[..q - 1];
        CutStep(out[..q]);
        q := q - 1;
      }
      CutStep(out[..q]);
      assert Cut(out) == out[..q] == output[..q];
      assert q > 0 ==> out[..q][0] == output[0] && out[..q][..q - 1] == out[..q - 1];
      if q > 1 && (q > 2 || output[0] != '/') { q := q - 1; }
      assert output[..q] == out[..q];
    }

    method SkipSlashes()
      requires Valid()
      modifies `p
      ensures p >= old(p) && Valid() && S() == old(S()).(rest := Skip(old(S()).rest))
    {
      var n := SlashLength();
      Advance(n);
    }

    /** Takes n characters off the stack. */
    method Advance(n: nat)
      requires Valid() && p + n <= max
      modifies `p
      ensures p == old(p) + n && Valid() && S() == old(S()).(rest := old(S()).rest[n..])
    {
      ghost var rest := stack[p..max];
      assert stack[p + n..max] == rest[n..];
      p := p + n;
    }

    /** readlink's answer in the free part of the stack, cut off where that part ends. */
    method Fill(target: string) returns (k: nat)
      requires Valid()
      modifies stack
      ensures k == if |target| <= p then |target| else p
      ensures Valid() && S() == old(S()) && stack[..k] == target[..k]
    {
      k := if |target| <= p then |target| else p;
      ghost var full := stack[..];
      forall i | 0 <= i < k { stack[i] := target[i]; }
      assert stack[p..max] == full[p..max];
    }

    static lemma ExpandedIs(target: string, rest: string)
      ensures target != "" ==> Expanded(target, rest) == target + if target[|target| - 1] == '/' then Skip(rest) else rest
    {
    }

    /** A link's text, at the bottom of the stack, put in front of the rest. */
    method Expand(k: nat, target: string)
      requires Valid() && 0 < k < p && k == |target| && stack[..k] == target && CString(target) && links + 1 < SYMLOOP_MAX
      modifies `p, `links, stack
      ensures Valid() && S() == old(S()).(rest := Expanded(target, old(S()).rest), links := old(links) + 1)
    {
      hide Skip, Expanded;
      ExpandedIs(target, stack[p..max]);
      assert stack[k - 1] == target[k - 1];
      if target[k - 1] == '/' { SkipSlashes(); }
      links := links + 1;
      Move(k);
    }

    /** What a link says put on the stack in front of the rest. */
    method Push(target: string) returns (r: Status)
      requires Valid() && CString(target)
      modifies `p, `links, stack
      ensures var o := Linked(max, old(S()), target);
              if o.Go? then r == Running && Valid() && S() == o.s else o.Stop? && r == Failed(o.error)
    {
      hide Skip, Expanded, CString;
      var k := Fill(target);
      if k == p { return Failed(ENAMETOOLONG); }
      if k == 0 { return Failed(ENOENT); }
      if links + 1 == SYMLOOP_MAX { return Failed(ELOOP); }
      Expand(k, target);
      r := Running;
    }

    /** The k characters at the bottom of the stack moved onto its top. */
    method Move(k: nat)
      requires Valid() && k <= p && CString(stack[..k])
      modifies `p, stack
      ensures Valid() && S() == old(S()).(rest := old(stack[..k]) + old(S().rest))
    {
      hide CString;
      ghost var head, rest := stack[..k], stack[p..max];
      p := p - k;
      MoveChars(stack, p, k, max);
      CStringJoin(head, rest);
    }

    static lemma CStringJoin(a: string, b: string)
      requires CString(a) && CString(b)
      ensures CString(a + b)
    {
    }

    /** The first k characters of an array copied further on, in front of what is there up to end. */
    static method MoveChars(a: array<char>, to: nat, k: nat, end: nat)
      requires to + k <= end < a.Length
      modifies a
      ensures a[to..end] == old(a[..k]) + old(a[to + k..end]) && a[end] == old(a[end])
    {
      ghost var full := a[..];
      forall i | 0 <= i < k { a[to + i] := a[i]; }
      assert a[to + k..end] == full[to + k..end];
      assert a[to..to + k] == full[..k];
      assert a[to..end] == a[to..to + k] + a[to + k..end];
    }

    /** A slash at the front of the stack starts the output over. */
    method Root()
      requires Valid() && stack[p] == '/'
      modifies this, output
      ensures Valid() && S() == State(Skip(old(S()).rest[1..]), "/", 0, old(links), false)
    {
      hide Skip;
      check, nup := false, 0;
      output[0] := '/';
      q := 1;
      assert output[..q] == "/";
      Advance(1);
      SkipSlashes();
    }

    /** Cancels the last component. */
    method Cancel(ghost c: Name, ghost out: string)
      requires Valid() && c == ".."
      modifies `p, `q, `check
      ensures Valid() && S() == Kept(old(S()), c, out)
    {
      hide Skip, Up, CString;
      check := false;
      Drop();
      SkipSlashes();
    }

    /** Keeps a component that is not a link; it must be a directory when more follows. */
    method Keep(l0: nat, l: nat, ghost c: Name)
      requires Valid() && q + l < max && l0 == |c| && c != ".."
      modifies `p, `q, `check
      ensures Valid() && S() == Kept(old(S()), c, old(output[..q + l]))
    {
      hide Skip, Up, CString;
      if l0 > 0 { q := q + l; }
      var end := AtEnd();
      check := !end;
      SkipSlashes();
    }

    method AtEnd() returns (end: bool)
      requires Valid()
      ensures end <==> p == max
    {
      assert p < max ==> stack[p] == stack[p..max][0];
      end := stack[p] == '\0';
    }

    /** What becomes of component c once it is behind the output. */
    method Decide(fs: Fs, cwd: seq<Name>, up: bool, l0: nat, l: nat, ghost c: Name) returns (r: Status)
      requires Valid() && CTexts(fs) && q + l < max && l0 == |c| && (up <==> c == "..")
      modifies this, stack
      ensures var o := Tried(fs, cwd, max, old(S()), c, old(output[..q + l]));
              if o.Go? then r == Running && Valid() && S() == o.s else o.Stop? && r == Failed(o.error)
    {
      hide Readlink, Skip, Up, NeedsSlash, Linked, Kept, CTexts, CString;
      if up && q <= 3 * nup {
        nup, q := nup + 1, q + l;
        SkipSlashes();
        return Running;
      }
      var a := if up && !check then NotLink else Readlink(fs, cwd, output[..q + l]);
      match a
      case Fails(e) => return Failed(e);
      case NotLink =>
        if up { Cancel(c, output[..q + l]); } else { Keep(l0, l, c); }
        r := Running;
      case Link(target) =>
        ReadlinkTexts(fs, cwd, output[..q + l]);
        r := Push(target);
    }

    static lemma TriedLong(fs: Fs, cwd: seq<Name>, max: nat, s: State, c: Name, out: string)
      requires s.links < SYMLOOP_MAX
      ensures |out| >= max ==> Tried(fs, cwd, max, s, c, out) == Stop(ENAMETOOLONG)
    {
    }

    /** The rest of a turn, for a component that is looked up. */
    method Handle(fs: Fs, cwd: seq<Name>, l0: nat) returns (r: Status)
      requires Valid() && CTexts(fs) && l0 == |Comp(stack[p..max])|
      modifies this, stack, output
      ensures var s := old(S());
              if NeedsSlash(s.out) && |s.rest| == max then r == Failed(ENAMETOOLONG)
              else
                var o := Tried(fs, cwd, max, s.(rest := Beyond(s.rest)), Comp(s.rest), Longer(s.out, Comp(s.rest)));
                if o.Go? then r == Running && Valid() && S() == o.s else o.Stop? && r == Failed(o.error)
    {
      hide Tried, Longer, NeedsSlash, Comp, Beyond, CTexts, CString;
      ghost var s := S();
      TriedLong(fs, cwd, max, s.(rest := Beyond(s.rest)), Comp(s.rest), Longer(s.out, Comp(s.rest)));
      var ok, l := PutComponent(l0);
      if !ok { return Failed(ENAMETOOLONG); }
      EndsInComp(s.out, s.rest);
      if l0 == 2 { LastTwo(stack, p, output, q + l, l); }
      var up := l0 == 2 && stack[p - 2] == '.' && stack[p - 1] == '.';
      r := Decide(fs, cwd, up, l0, l, Comp(s.rest));
    }

    static lemma LastTwo(a: array<char>, i: nat, b: array<char>, j: nat, n: nat)
      requires 2 <= n <= i <= a.Length && n <= j <= b.Length && a[i - n..i] == b[j - n..j]
      ensures a[i - 2] == b[..j][j - 2] && a[i - 1] == b[..j][j - 1]
    {
      assert a[i - n..i][n - 2] == b[j - n..j][n - 2] && a[i - n..i][n - 1] == b[j - n..j][n - 1];
    }

    static lemma EndsInComp(out: string, rest: string)
      ensures var r := Longer(out, Comp(rest));
              && (Comp(rest) == ".." ==> |Comp(rest)| == 2)
              && (|Comp(rest)| == 2 ==> |r| >= 2 && (Comp(rest) == ".." <==> r[|r| - 2] == '.' && r[|r| - 1] == '.'))
    {
      var c := Comp(rest);
      assert |c| == 2 && c[0] == '.' && c[1] == '.' ==> c == "..";
    }

    static lemma StepIs(fs: Fs, cwd: seq<Name>, max: nat, s: State)
      requires s.links < SYMLOOP_MAX
      ensures var c := Comp(s.rest);
              var o := Step(fs, cwd, max, s);
              if s.rest != "" && s.rest[0] == '/' then o == Go(State(Skip(s.rest[1..]), "/", 0, s.links, false))
              else if |c| == 0 && !s.check then o == Done
              else if |c| == 1 && s.rest[0] == '.' then o == Go(s.(rest := Skip(s.rest[1..])))
              else if NeedsSlash(s.out) && |s.rest| == max then o == Stop(ENAMETOOLONG)
              else o == Tried(fs, cwd, max, s.(rest := Beyond(s.rest)), c, Longer(s.out, c))
    {
      hide Readlink, Skip, Longer, NeedsSlash, Tried, Comp, Beyond;
      CompDot(s.rest);
      CompHead(s.rest);
    }

    static lemma CompDot(rest: string)
      ensures |Comp(rest)| == 0 <==> Comp(rest) == ""
      ensures |Comp(rest)| == 1 && rest[0] == '.' <==> Comp(rest) == "."
      ensures |Comp(rest)| == 1 ==> |rest| >= 1 && Beyond(rest) == rest[1..]
    {
      CompShape(rest);
    }

    /** One turn of the loop. */
    method Turn(fs: Fs, cwd: seq<Name>) returns (r: Status)
      requires Valid() && CTexts(fs)
      modifies this, stack, output
      ensures var o := Step(fs, cwd, max, old(S()));
              match o {
                case Go(_) => r == Running && Valid() && S() == o.s
                case Done => r == Finished && Valid() && S() == old(S())
                case Stop(e) => r == Failed(e)
              }
    {
      hide Readlink, Skip, Up, Longer, NeedsSlash, Tried, CTexts, Step, Comp, Beyond, CString;
      StepIs(fs, cwd, max, S());
      if stack[p] == '/' {
        Root();
        return Running;
      }
      var l0 := CompLength();
      if l0 == 0 && !check { return Finished; }
      if l0 == 1 && stack[p] == '.' {
        Advance(1);
        SkipSlashes();
        return Running;
      }
      r := Handle(fs, cwd, l0);
    }

    /** The loop; stops where the walk on text stops. */
    method Run(fs: Fs, cwd: seq<Name>) returns (r: Status)
      requires Valid() && CTexts(fs)
      modifies this, stack, output
      ensures var w := Walk(fs, cwd, max, old(S()));
              if w.Ok? then r == Finished && Valid() && S() == w.value else r == Failed(w.error)
    {
      hide Step, CTexts;
      r := Running;
      while r.Running?
        invariant r.Running? ==> Valid() && Walk(fs, cwd, max, S()) == Walk(fs, cwd, max, old(S()))
        invariant r.Finished? ==> Valid() && Walk(fs, cwd, max, old(S())) == Ok(S())
        invariant r.Failed? ==> Walk(fs, cwd, max, old(S())) == Err(r.error)
        decreases r.Running?, SYMLOOP_MAX - links, max - p, check
      {
        ghost var s := S();
        r := Turn(fs, cwd);
      }
    }

    /** One component off the first l characters of the stack. */
    method CancelOne(l0: nat) returns (l: nat)
      requires Valid() && l0 <= max
      ensures l <= l0 && stack[..l] == CwdUpOne(stack[..l0])
    {
      l := l0;
      ghost var dir := stack[..l0];
      assert dir[..l0] == dir;
      while l > 1 && stack[l - 1] != '/'
        invariant l <= l0 && CwdCut(dir[..l]) == CwdCut(dir) && (l0 <= 1 ==> l == l0)
      {
        assert dir[..l][..l - 1] == dir[..l - 1];
        l := l - 1;
      }
      assert dir[..l] == if l0 > 1 then CwdCut(dir) else dir;
      if l > 1 {
        assert dir[..l][..l - 1] == dir[..l - 1];
        l := l - 1;
      }
      assert stack[..l] == dir[..l];
    }

    /** Cancels leading ".." against the working directory, l characters at the bottom of the stack. */
    method CancelUp(l0: nat) returns (l: nat, at: nat)
      requires Valid() && 0 < l0 <= max
      ensures l <= l0 && stack[..l] == CwdUp(stack[..l0], nup) && at == Leading(nup, q)
    {
      hide CwdUpOne;
      l, at := l0, 0;
      var n := 0;
      while n < nup
        invariant n <= nup && l <= l0 && at == Leading(n, q)
        invariant CwdUp(stack[..l], nup - n) == CwdUp(stack[..l0], nup)
        decreases nup - n
      {
        l := CancelOne(l);
        at := at + 2;
        if at < q { at := at + 1; }
        n := n + 1;
      }
    }

    /** The working directory at the bottom of the empty stack. */
    method Getcwd(text: string)
      requires Valid() && p == max && |text| <= max
      modifies stack
      ensures Valid() && S() == old(S()) && stack[..|text|] == text
    {
      forall i | 0 <= i < |text| { stack[i] := text[i]; }
    }

    /** Puts the working directory in front of a relative output. */
    method JoinCwd(text: string) returns (r: Status)
      requires Valid() && p == max && 0 < |text| <= max && Leading(nup, q) <= q
      modifies `q, stack, output
      ensures var tail := old(S()).out[Leading(nup, old(q))..];
              var path := Under(CwdUp(text, nup), tail);
              if |path| + 1 >= max then r == Failed(ENAMETOOLONG) else r == Finished && q <= max && output[..q] == path
    {
      hide CwdUp, Leading, Under;
      Getcwd(text);
      var l, at := CancelUp(|text|);
      r := PutBefore(l, at);
    }

    /** Puts the first l characters of the stack before the output from at on. */
    method PutBefore(l0: nat, at: nat) returns (r: Status)
      requires Valid() && l0 <= max && at <= q
      modifies `q, stack, output
      ensures var path := Under(old(stack[..l0]), old(output[..q])[at..]);
              if |path| + 1 >= max then r == Failed(ENAMETOOLONG) else r == Finished && q <= max && output[..q] == path
    {
      var l := l0;
      ghost var dir, out := stack[..l0], output[..q];
      UnderAt(dir, out, at);
      assert 0 < l ==> stack[l - 1] == dir[l - 1];
      if q - at > 0 && l > 0 && stack[l - 1] != '/' {
        stack[l] := '/';
        l := l + 1;
        assert stack[..l] == dir + "/";
      }
      assert out[at..] == output[at..q];
      if l + (q - at) + 1 >= max { return Failed(ENAMETOOLONG); }
      Slide(l, at);
      q := l + q - at;
      r := Finished;
    }

    static lemma UnderAt(dir: string, out: string, at: nat)
      requires at <= |out|
      ensures Under(dir, out[at..]) == (if |out| - at > 0 && |dir| > 0 && dir[|dir| - 1] != '/' then dir + "/" else dir) + out[at..]
    {
      assert dir + "" == dir;
    }

    /** Moves the output from at on to start at l, and the first l characters of the stack before it. */
    method Slide(l: nat, at: nat)
      requires output.Length == max && stack.Length == max + 1 && stack != output && at <= q <= max && l + (q - at) <= max
      modifies output
      ensures output[..l + (q - at)] == stack[..l] + old(output[at..q])
    {
      ghost var was := output[..];
      forall i | 0 <= i < q - at { output[l + i] := output[at + i]; }
      forall i | 0 <= i < l { output[i] := stack[i]; }
      forall i | 0 <= i < l + (q - at)
        ensures output[i] == if i < l then stack[i] else was[at..q][i - l]
      {
      }
      assert was[at..q] == old(output[at..q]);
    }
  }

  lemma {:induction false} WalkEnds(fs: Fs, cwd: seq<Name>, max: nat, s: State)
    requires s.links < SYMLOOP_MAX
    ensures Walk(fs, cwd, max, s).Ok? ==> Walk(fs, cwd, max, s).value.rest == ""
    decreases SYMLOOP_MAX - s.links, |s.rest|, s.check
  {
    hide Step;
    DoneIsEmpty(fs, cwd, max, s);
    var o := Step(fs, cwd, max, s);
    if o.Go? { WalkEnds(fs, cwd, max, o.s); }
  }

  lemma DoneIsEmpty(fs: Fs, cwd: seq<Name>, max: nat, s: State)
    requires s.links < SYMLOOP_MAX
    ensures Step(fs, cwd, max, s).Done? ==> s.rest == ""
  {
    hide Readlink, Skip, Longer;
  }

  /** realpath in its two buffers does what the walk on text does; with RealpathMeans, what the
      plain resolver does. */
  method Call(fs: Fs, cwd: seq<Name>, got: Result<()>, max: nat, filename: string) returns (r: Result<string>)
    requires 2 <= max && CTexts(fs) && CString(filename) && Canonical(fs, cwd)
    requires got.Ok? ==> |Text(true, cwd)| <= max
    ensures r == Realpath.Realpath(fs, cwd, got, max, filename)
  {
    hide Walk, CTexts, Text, Canonical, Join;
    if filename == "" { return Err(ENOENT); }
    if |filename| >= max { return Err(ENAMETOOLONG); }
    if "/zip" <= filename && (|filename| == 4 || filename[4] == '/') { return Ok(filename); }
    var b := new Buffers(max, filename);
    ghost var s := b.S();
    var st := b.Run(fs, cwd);
    if st.Failed? { return Err(st.error); }
    WalkEnds(fs, cwd, max, s);
    if b.q > 0 && b.output[0] == '/' { return Ok(b.output[..b.q]); }
    if got.Err? { return Err(got.error); }
    TailFits(fs, cwd, max, s, b.S());
    TextTrue(cwd);
    st := b.JoinCwd(Text(true, cwd));
    r := if st.Failed? then Err(st.error) else Ok(b.output[..b.q]);
  }

  lemma TextTrue(cwd: seq<Name>)
    ensures Text(true, cwd) == "/" + Join(cwd) && Text(true, cwd) != ""
  {
  }

  lemma TailFits(fs: Fs, cwd: seq<Name>, max: nat, s: State, t: State)
    requires Canonical(fs, cwd) && s.rest != "" && s == State(s.rest, "", 0, 0, false) && Walk(fs, cwd, max, s) == Ok(t)
    requires t.out == "" || t.out[0] != '/'
    ensures Leading(t.nup, |t.out|) <= |t.out|
  {
    hide Walk, Resolve, Canonical, Leading;
    StartAgrees(fs, cwd, s.rest);
    var abs, names, done := WalkAgrees(fs, cwd, max, s, false, [], cwd);
    AgreesTail(cwd, t, abs, names, done);
  }

  lemma AgreesTail(cwd: seq<Name>, t: State, abs: bool, names: seq<Name>, done: seq<Name>)
    requires Agrees(cwd, t, abs, names, done) && (t.out == "" || t.out[0] != '/')
    ensures Leading(t.nup, |t.out|) <= |t.out|
  {
    hide Leading;
    GoodArePieces(abs, t.nup, names);
    TextSlash(abs, Full(abs, t.nup, names));
    TailMeans(t.nup, names);
    TextPlain(Dots(t.nup) + names);
  }

  lemma ReadlinkTexts(fs: Fs, cwd: seq<Name>, path: string)
    requires CTexts(fs)
    ensures Readlink(fs, cwd, path).Link? ==> CString(Readlink(fs, cwd, path).target)
  {
    hide Split, Lead;
  }

  /** Link targets are C strings. */
  ghost predicate CTexts(fs: Fs) {
    forall d: seq<Name> {:trigger fs.read(d)} :: fs.read(d).Link? ==> CString(fs.read(d).target)
  }
}
