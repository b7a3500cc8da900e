/** Symbolic link expansion: a resolver on components, the walk on text, and that they agree. */
module Realpath {
  import opened PathText

  datatype Error = ENOENT | ELOOP | ENAMETOOLONG | Host(errno: int)

  datatype Result<T> = Ok(value: T) | Err(error: Error)

  datatype Answer = NotLink | Link(target: string) | Fails(error: Error)

  /** A static file system: what readlink says about each absolute path without links or dots, and
      what it says when the path must be a directory. */
  datatype Fs = Fs(read: seq<Name> -> Answer, dir: seq<Name> -> Result<()>)

  const SYMLOOP_MAX := 40

  // ------------------------------------------------------------------ the plain resolver

  /** What follows the first component. */
  function Beyond(s: string): (r: string)
    ensures |r| + |Comp(s)| == |s|
  {
    s[|Comp(s)|..]
  }

  /** Pathname resolution one component at a time, from a directory that is itself resolved. */
  function Resolve(fs: Fs, rest: string, done: seq<Name>, links: nat, check: bool): (r: Result<seq<Name>>)
    requires links < SYMLOOP_MAX
    decreases SYMLOOP_MAX - links, |rest|
  {
    var c := Comp(rest);
    var after := Beyond(rest);
    if rest != "" && rest[0] == '/' then Resolve(fs, Skip(rest[1..]), [], links, false)
    else if c == "" then
      if check && fs.dir(done).Err? then Err(fs.dir(done).error) else Ok(done)
    else if c == "." then Resolve(fs, Skip(after), done, links, check)
    else if c == ".." then
      if check && fs.dir(done).Err? then Err(fs.dir(done).error)
      else Resolve(fs, Skip(after), Parent(done), links, false)
    else
      match fs.read(done + [c])
      case Fails(e) => Err(e)
      case NotLink => Resolve(fs, Skip(after), done + [c], links, after != "")
      case Link(target) =>
        if target == "" then Err(ENOENT)
        else if links + 1 == SYMLOOP_MAX then Err(ELOOP)
        else Resolve(fs, Expanded(target, after), done, links + 1, check)
  }

  /** A link's text put before what is still to be resolved. */
  function Expanded(target: string, after: string): (rest: string)
    requires target != ""
    ensures |rest| <= |target| + |after|
  {
    target + if target[|target| - 1] == '/' then Skip(after) else after
  }

  /** How much link text the resolver puts in front of the rest on its way. */
  function LinkText(fs: Fs, rest: string, done: seq<Name>, links: nat, check: bool): (n: nat)
    requires links < SYMLOOP_MAX
    decreases SYMLOOP_MAX - links, |rest|
  {
    var c := Comp(rest);
    var after := Beyond(rest);
    if rest != "" && rest[0] == '/' then LinkText(fs, Skip(rest[1..]), [], links, false)
    else if c == "" then 0
    else if c == "." then LinkText(fs, Skip(after), done, links, check)
    else if c == ".." then
      if check && fs.dir(done).Err? then 0 else LinkText(fs, Skip(after), Parent(done), links, false)
    else
      match fs.read(done + [c])
      case Fails(_) => 0
      case NotLink => LinkText(fs, Skip(after), done + [c], links, after != "")
      case Link(target) =>
        if target == "" || links + 1 == SYMLOOP_MAX then |target|
        else |target| + LinkText(fs, Expanded(target, after), done, links + 1, check)
  }

  /** Every name is a real name and no prefix names a link. */
  ghost predicate Canonical(fs: Fs, d: seq<Name>) {
    GoodNames(d) && forall i {:trigger d[..i]} :: 0 < i <= |d| ==> fs.read(d[..i]) == NotLink
  }

  lemma CanonicalPush(fs: Fs, d: seq<Name>, c: Name)
    requires Canonical(fs, d) && GoodName(c) && fs.read(d + [c]) == NotLink
    ensures Canonical(fs, d + [c])
  {
    forall i {:trigger (d + [c])[..i]} | 0 < i <= |d| + 1
      ensures fs.read((d + [c])[..i]) == NotLink
    {
      if i <= |d| { assert (d + [c])[..i] == d[..i]; } else { assert (d + [c])[..i] == d + [c]; }
    }
  }

  lemma CanonicalParent(fs: Fs, d: seq<Name>)
    requires Canonical(fs, d)
    ensures Canonical(fs, Parent(d))
  {
    forall i {:trigger Parent(d)[..i]} | 0 < i <= |Parent(d)|
      ensures fs.read(Parent(d)[..i]) == NotLink
    {
      assert Parent(d)[..i] == d[..i];
    }
  }

  /** What the resolver arrives at has no empty, "." or ".." component and no link in it. */
  lemma {:induction false} ResolveCanonical(fs: Fs, rest: string, done: seq<Name>, links: nat, check: bool)
    requires links < SYMLOOP_MAX && Canonical(fs, done)
    ensures Resolve(fs, rest, done, links, check).Ok? ==> Canonical(fs, Resolve(fs, rest, done, links, check).value)
    decreases SYMLOOP_MAX - links, |rest|
  {
    hide Canonical;
    var c := Comp(rest);
    var after := Beyond(rest);
    if rest != "" && rest[0] == '/' {
      NothingCanonical(fs);
      ResolveCanonical(fs, Skip(rest[1..]), [], links, false);
    } else if c == "" {
    } else if c == "." {
      ResolveCanonical(fs, Skip(after), done, links, check);
    } else if c == ".." {
      CanonicalParent(fs, done);
      ResolveCanonical(fs, Skip(after), Parent(done), links, false);
    } else {
      match fs.read(done + [c])
      case Fails(e) =>
      case NotLink =>
        CompShape(rest);
        CanonicalPush(fs, done, c);
        ResolveCanonical(fs, Skip(after), done + [c], links, after != "");
      case Link(target) =>
        if target != "" && links + 1 != SYMLOOP_MAX {
          ResolveCanonical(fs, Expanded(target, after), done, links + 1, check);
        }
    }
  }

  lemma NothingCanonical(fs: Fs)
    ensures Canonical(fs, [])
  {
  }

  // ------------------------------------------------------------------ what readlink says about text

  /** The directory a chain of components leads to when none of them is a link. */
  function Lead(base: seq<Name>, cs: seq<Name>): (d: seq<Name>) {
    if cs == [] then base
    else
      var d := Lead(base, cs[..|cs| - 1]);
      if cs[|cs| - 1] == ".." then Parent(d) else d + [cs[|cs| - 1]]
  }

  function DirAnswer(fs: Fs, d: seq<Name>): (a: Answer) {
    match fs.dir(d) case Ok(_) => NotLink case Err(e) => Fails(e)
  }

  /** readlink on a path whose directories are known not to be links; a path ending in a slash or
      in ".." names a directory. */
  function Readlink(fs: Fs, cwd: seq<Name>, path: string): (a: Answer) {
    var cs := Split(path);
    var base := if path != "" && path[0] == '/' then [] else cwd;
    if cs == [] || path[|path| - 1] == '/' then DirAnswer(fs, Lead(base, cs))
    else if cs[|cs| - 1] == ".." then DirAnswer(fs, Lead(base, cs[..|cs| - 1]))
    else fs.read(Lead(base, cs))
  }

  // ------------------------------------------------------------------ the walk

  /** The text still on the stack, the output, the leading ".." in it, the links seen, and whether
      the last component must be a directory. */
  datatype State = State(rest: string, out: string, nup: nat, links: nat, check: bool)

  datatype Outcome = Go(s: State) | Done | Stop(error: Error)

  /** The output without its last component. */
  function Cut(out: string): (r: string)
    ensures |r| <= |out|
  {
    if out == "" || out[|out| - 1] == '/' then out else Cut(out[..|out| - 1])
  }

  function Up(out: string): (r: string)
    ensures |r| <= |out|
  {
    var r := Cut(out);
    if |r| > 1 && (|r| > 2 || r[0] != '/') then r[..|r| - 1] else r
  }

  predicate NeedsSlash(out: string) {
    out != "" && out[|out| - 1] != '/'
  }

  /** The output with one more component, or with a slash at its end. */
  function Longer(out: string, c: Name): (r: string)
    ensures |r| <= |out| + 1 + |c|
  {
    out + (if NeedsSlash(out) then "/" else "") + c
  }

  /** One turn of the loop, with buffers that hold max bytes. */
  function Step(fs: Fs, cwd: seq<Name>, max: nat, s: State): (o: Outcome)
    requires s.links < SYMLOOP_MAX
    ensures o.Go? ==> o.s.links < SYMLOOP_MAX
    ensures o.Go? && o.s.links <= s.links ==> o.s.links == s.links
    ensures o.Go? && o.s.links <= s.links && |o.s.rest| >= |s.rest| ==> o.s.rest == s.rest && s.check && !o.s.check
  {
    var c := Comp(s.rest);
    var after := Beyond(s.rest);
    if s.rest != "" && s.rest[0] == '/' then Go(State(Skip(s.rest[1..]), "/", 0, s.links, false))
    else if c == "" && !s.check then Done
    else if c == "." then Go(s.(rest := Skip(after)))
    else if NeedsSlash(s.out) && |s.rest| == max then Stop(ENAMETOOLONG)
    else Tried(fs, cwd, max, s.(rest := after), c, Longer(s.out, c))
  }

  /** The turn once component c has been moved from the rest to behind the output. */
  function Tried(fs: Fs, cwd: seq<Name>, max: nat, s: State, c: Name, out: string): (o: Outcome)
    requires s.links < SYMLOOP_MAX
    ensures o.Go? && o.s.links <= s.links ==> o.s.links == s.links && o.s.rest == Skip(s.rest) && (c == "" && s.rest == "" ==> !o.s.check)
    ensures o.Go? ==> o.s.links < SYMLOOP_MAX
  {
    if |out| >= max then Stop(ENAMETOOLONG)
    else if c == ".." && |s.out| <= 3 * s.nup then Go(s.(rest := Skip(s.rest), out := out, nup := s.nup + 1))
    else
      match if c == ".." && !s.check then NotLink else Readlink(fs, cwd, out)
      case Fails(e) => Stop(e)
      case NotLink => Go(Kept(s, c, out))
      case Link(target) => Linked(max, s, target)
  }

  /** The state after a component that is not a link. */
  function Kept(s: State, c: Name, out: string): (s': State) {
    if c == ".." then s.(rest := Skip(s.rest), out := Up(s.out), check := false)
    else s.(rest := Skip(s.rest), out := if c != "" then out else s.out, check := s.rest != "")
  }

  /** The turn once readlink has given a target. */
  function Linked(max: nat, s: State, target: string): (o: Outcome)
    requires s.links < SYMLOOP_MAX
    ensures o.Go? ==> s.links < o.s.links < SYMLOOP_MAX
  {
    if |target| >= max - |s.rest| then Stop(ENAMETOOLONG)
    else if target == "" then Stop(ENOENT)
    else if s.links + 1 == SYMLOOP_MAX then Stop(ELOOP)
    else Go(s.(rest := Expanded(target, s.rest), links := s.links + 1))
  }

  function Walk(fs: Fs, cwd: seq<Name>, max: nat, s: State): (r: Result<State>)
    requires s.links < SYMLOOP_MAX
    decreases SYMLOOP_MAX - s.links, |s.rest|, s.check
  {
    match Step(fs, cwd, max, s)
    case Go(s') => Walk(fs, cwd, max, s')
    case Done => Ok(s)
    case Stop(e) => Err(e)
  }

  /** The working directory with n components taken off its end. */
  function CwdUp(cwd: string, n: nat): (d: string)
    ensures |d| <= |cwd|
    decreases n
  {
    if n == 0 then cwd else CwdUp(CwdUpOne(cwd), n - 1)
  }

  function CwdUpOne(cwd: string): (d: string)
    ensures |d| <= |cwd|
  {
    var cut := if |cwd| > 1 then CwdCut(cwd) else cwd;
    if |cut| > 1 then cut[..|cut| - 1] else cut
  }

  function CwdCut(cwd: string): (d: string)
    ensures |d| <= |cwd|
  {
    if |cwd| > 1 && cwd[|cwd| - 1] != '/' then CwdCut(cwd[..|cwd| - 1]) else cwd
  }

  /** Where the output goes on after n leading "..". */
  function Leading(n: nat, q: nat): (p: nat) {
    if n == 0 then 0
    else
      var p := Leading(n - 1, q) + 2;
      if p < q then p + 1 else p
  }

  /** The result of a walk: as it is when absolute, else joined to the working directory. */
  function Finish(cwd: string, max: nat, s: State): (r: Result<string>) {
    if s.out != "" && s.out[0] == '/' then Ok(s.out)
    else
      var dir := CwdUp(cwd, s.nup);
      var p := Leading(s.nup, |s.out|);
      var tail := if p <= |s.out| then s.out[p..] else "";
      if |Under(dir, tail)| + 1 >= max then Err(ENAMETOOLONG) else Ok(Under(dir, tail))
  }

  function Under(dir: string, tail: string): (r: string) {
    dir + (if tail != "" && NeedsSlash(dir) then "/" else "") + tail
  }

  predicate IsZip(filename: string): (zip: bool)
    ensures zip <==> filename == "/zip" || "/zip/" <= filename
  {
    "/zip" <= filename && (|filename| == 4 || filename[4] == '/')
  }

  /** The whole call; got is whether the working directory can be had. */
  function Realpath(fs: Fs, cwd: seq<Name>, got: Result<()>, max: nat, filename: string): (r: Result<string>) {
    if filename == "" then Err(ENOENT)
    else if |filename| >= max then Err(ENAMETOOLONG)
    else if IsZip(filename) then Ok(filename)
    else
      match Walk(fs, cwd, max, State(filename, "", 0, 0, false))
      case Err(e) => Err(e)
      case Ok(s) =>
        if got.Err? && (s.out == "" || s.out[0] != '/') then Err(got.error)
        else Finish("/" + Join(cwd), max, s)
  }

  // ------------------------------------------------------------------ the walk agrees with the resolver

  function Text(abs: bool, cs: seq<Name>): (s: string) {
    (if abs then "/" else "") + Join(cs)
  }

  function Dots(n: nat): (cs: seq<Name>)
    ensures |cs| == n && Pieces(cs) && forall c: Name {:trigger c in cs} :: c in cs ==> c == ".."
  {
    seq(n, _ => "..")
  }

  /** The directory n levels above another. */
  function Above(d: seq<Name>, n: nat): (p: seq<Name>) {
    if n == 0 then d else Parent(Above(d, n - 1))
  }

  lemma TextSlash(abs: bool, cs: seq<Name>)
    requires Pieces(cs)
    ensures NeedsSlash(Text(abs, cs)) <==> cs != []
    ensures (Text(abs, cs) != "" && Text(abs, cs)[0] == '/') <==> abs
  {
    if cs != [] { JoinEnds(cs); }
  }

  lemma TextPush(abs: bool, cs: seq<Name>, c: Name)
    requires Pieces(cs) && Piece(c)
    ensures Text(abs, cs + [c]) == Text(abs, cs) + (if cs != [] then "/" else "") + c
    ensures Text(abs, cs + [c]) == Longer(Text(abs, cs), c)
  {
    JoinAppend(cs, c);
    TextSlash(abs, cs);
  }

  /** Taking the last component off text undoes putting it there. */
  lemma TextUp(abs: bool, cs: seq<Name>, c: Name)
    requires Pieces(cs) && Piece(c)
    ensures Up(Text(abs, cs + [c])) == Text(abs, cs)
  {
    TextPush(abs, cs, c);
    TextSlash(abs, cs);
    var head := Text(abs, cs) + if cs != [] then "/" else "";
    assert Text(abs, cs + [c]) == head + c;
    CutTo(head, c);
    if cs != [] {
      assert head[..|head| - 1] == Text(abs, cs);
      JoinEnds(cs);
    }
  }

  lemma {:induction false} CutTo(head: string, c: string)
    requires '/' !in c && (head == "" || head[|head| - 1] == '/')
    ensures Cut(head + c) == head
  {
    if c == "" {
      assert head + c == head;
    } else {
      var n := |c| - 1;
      assert (head + c)[..|head| + n] == head + c[..n];
      assert (head + c)[|head| + n] == c[n] != '/';
      CutTo(head, c[..n]);
    }
  }

  lemma {:induction false} DotsLength(n: nat)
    ensures |Join(Dots(n))| == if n == 0 then 0 else 3 * n - 1
    decreases n
  {
    if n > 1 {
      assert Dots(n)[..n - 1] == Dots(n - 1);
      DotsLength(n - 1);
    }
  }

  /** Whether there is a component for ".." to cancel, told from lengths alone. */
  lemma {:induction false} NamesTold(n: nat, names: seq<Name>)
    requires Pieces(names)
    ensures |Join(Dots(n) + names)| <= 3 * n <==> names == []
    ensures names != [] ==> |Join(Dots(n) + names)| > 3 * n
    decreases |names|
  {
    DotsLength(n);
    if names == [] {
      assert Dots(n) + names == Dots(n);
    } else {
      var k := |names| - 1;
      assert names[k] in names;
      assert forall c: Name {:trigger c in names[..k]} :: c in names[..k] ==> c in names;
      assert Dots(n) + names == (Dots(n) + names[..k]) + [names[k]];
      JoinAppend(Dots(n) + names[..k], names[k]);
      if k > 0 { NamesTold(n, names[..k]); } else { assert Dots(n) + names[..k] == Dots(n); }
    }
  }

  lemma {:induction false} LeadNames(base: seq<Name>, names: seq<Name>)
    requires GoodNames(names)
    ensures Lead(base, names) == base + names
  {
    if names != [] {
      var n := |names| - 1;
      assert names[n] in names;
      assert forall c: Name :: c in names[..n] ==> c in names;
      LeadNames(base, names[..n]);
      assert base + names[..n] + [names[n]] == base + names;
    }
  }

  lemma {:induction false} LeadDots(base: seq<Name>, n: nat, names: seq<Name>)
    requires GoodNames(names)
    ensures Lead(base, Dots(n) + names) == Above(base, n) + names
    decreases n, |names|
  {
    if names != [] {
      var k := |names| - 1;
      assert names[k] in names;
      assert forall c: Name :: c in names[..k] ==> c in names;
      assert (Dots(n) + names)[..n + k] == Dots(n) + names[..k];
      LeadDots(base, n, names[..k]);
      assert Above(base, n) + names[..k] + [names[k]] == Above(base, n) + names;
    } else if n > 0 {
      assert Dots(n) + names == Dots(n);
      assert Dots(n)[..n - 1] == Dots(n - 1) + [];
      LeadDots(base, n - 1, []);
      assert Above(base, n) + [] == Above(base, n);
    } else {
      assert Dots(n) + names == [];
    }
  }

  /** The components of the output, leading ".." included. */
  function Full(abs: bool, nup: nat, names: seq<Name>): (cs: seq<Name>) {
    if abs then names else Dots(nup) + names
  }

  function Start(abs: bool, cwd: seq<Name>, nup: nat): (base: seq<Name>) {
    if abs then [] else Above(cwd, nup)
  }

  /** The output spells the directory the resolver is in. */
  predicate Agrees(cwd: seq<Name>, s: State, abs: bool, names: seq<Name>, done: seq<Name>) {
    && GoodNames(names)
    && (names == [] ==> !s.check)
    && (abs ==> s.nup == 0)
    && s.out == Text(abs, Full(abs, s.nup, names))
    && done == Start(abs, cwd, s.nup) + names
  }

  lemma GoodArePieces(abs: bool, nup: nat, names: seq<Name>)
    requires GoodNames(names)
    ensures Pieces(names) && Pieces(Full(abs, nup, names))
  {
  }

  function Origin(abs: bool, cwd: seq<Name>): (base: seq<Name>) {
    if abs then [] else cwd
  }

  lemma TextSplit(abs: bool, cs: seq<Name>)
    requires Pieces(cs)
    ensures Split(Text(abs, cs)) == cs
  {
    SplitJoin(cs);
    assert "" + Join(cs) == Join(cs);
  }

  lemma ReadlinkText(fs: Fs, cwd: seq<Name>, abs: bool, cs: seq<Name>, c: Name)
    requires Pieces(cs) && Piece(c)
    ensures Readlink(fs, cwd, Text(abs, cs + [c]))
         == if c == ".." then DirAnswer(fs, Lead(Origin(abs, cwd), cs)) else fs.read(Lead(Origin(abs, cwd), cs) + [c])
  {
    hide DirAnswer, Text, Split;
    var all := cs + [c];
    assert all[..|cs|] == cs && all[|cs|] == c;
    TextSplit(abs, all);
    TextSlash(abs, all);
  }

  lemma ReadlinkSlash(fs: Fs, cwd: seq<Name>, abs: bool, cs: seq<Name>)
    requires Pieces(cs) && cs != []
    ensures Readlink(fs, cwd, Text(abs, cs) + "/") == DirAnswer(fs, Lead(Origin(abs, cwd), cs))
  {
    hide DirAnswer, Lead, Text, Split;
    var out := Text(abs, cs);
    TextSplit(abs, cs);
    TextSlash(abs, cs);
    SplitTrailing(out);
    assert (out + "/")[0] == out[0];
  }

  /** What readlink says about the output with one more component. */
  lemma ReadlinkOf(fs: Fs, cwd: seq<Name>, abs: bool, nup: nat, names: seq<Name>, c: Name)
    requires GoodNames(names) && (abs ==> nup == 0)
    requires GoodName(c) || ((c == "" || c == "..") && names != [])
    ensures var out := Text(abs, Full(abs, nup, names));
            var done := Start(abs, cwd, nup) + names;
            Readlink(fs, cwd, Longer(out, c))
            == if GoodName(c) then fs.read(done + [c]) else DirAnswer(fs, done)
  {
    hide Readlink, Split, DirAnswer, NeedsSlash, Text;
    var cs := Full(abs, nup, names);
    var out := Text(abs, cs);
    GoodArePieces(abs, nup, names);
    TextSlash(abs, cs);
    assert Lead(Origin(abs, cwd), cs) == Start(abs, cwd, nup) + names by {
      if abs { LeadNames([], names); } else { LeadDots(cwd, nup, names); }
    }
    if c == "" {
      assert Longer(out, c) == out + "/";
      ReadlinkSlash(fs, cwd, abs, cs);
    } else {
      TextPush(abs, cs, c);
      ReadlinkText(fs, cwd, abs, cs, c);
      assert Longer(out, c) == Text(abs, cs + [c]);
    }
  }

  ghost predicate Same(fs: Fs, s: State, done: seq<Name>, s': State, done': seq<Name>)
    requires s.links < SYMLOOP_MAX && s'.links < SYMLOOP_MAX
  {
    Resolve(fs, s.rest, done, s.links, s.check) == Resolve(fs, s'.rest, done', s'.links, s'.check)
  }

  /** Buffers longer than this take all that is still to be walked. */
  function Room(fs: Fs, s: State, done: seq<Name>): (n: nat)
    requires s.links < SYMLOOP_MAX
    ensures |s.out| + 2 * |s.rest| < n
  {
    |s.out| + 2 * (|s.rest| + LinkText(fs, s.rest, done, s.links, s.check)) + 1
  }

  /** One turn of the loop leaves the walk where the resolver goes, or fails as it does, or for want
      of room. */
  ghost predicate Keeps(fs: Fs, cwd: seq<Name>, max: nat, s: State, done: seq<Name>, o: Outcome, abs: bool, names: seq<Name>,
                        done': seq<Name>)
    requires s.links < SYMLOOP_MAX
  {
    match o
    case Done => Resolve(fs, s.rest, done, s.links, s.check) == Ok(done)
    case Stop(e) => (e == ENAMETOOLONG && max <= Room(fs, s, done)) || Resolve(fs, s.rest, done, s.links, s.check) == Err(e)
    case Go(t) =>
      t.links < SYMLOOP_MAX && Agrees(cwd, t, abs, names, done') && Same(fs, s, done, t, done') && Room(fs, t, done') <= Room(fs, s, done)
  }

  /** A ".." in the walk: counted while only ".." lead, else a directory check and one name off. */
  lemma StepDotDot(fs: Fs, cwd: seq<Name>, max: nat, s: State, abs: bool, names: seq<Name>, done: seq<Name>)
    requires s.links < SYMLOOP_MAX && Agrees(cwd, s, abs, names, done)
    requires Comp(s.rest) == ".." && (s.rest == "" || s.rest[0] != '/')
    ensures !Step(fs, cwd, max, s).Done?
    ensures Keeps(fs, cwd, max, s, done, Step(fs, cwd, max, s), abs, if names == [] then [] else names[..|names| - 1], Parent(done))
  {
    hide Keeps, Agrees, Step;
    if names == [] { DotDotAlone(fs, cwd, max, s, abs, done); } else { DotDotAfter(fs, cwd, max, s, abs, names, done); }
  }

  lemma DotDotAlone(fs: Fs, cwd: seq<Name>, max: nat, s: State, abs: bool, done: seq<Name>)
    requires s.links < SYMLOOP_MAX && Agrees(cwd, s, abs, [], done)
    requires Comp(s.rest) == ".."
    ensures !Step(fs, cwd, max, s).Done?
    ensures Keeps(fs, cwd, max, s, done, Step(fs, cwd, max, s), abs, [], Parent(done))
  {
    hide Readlink, Split, Text, Join, GoodNames, Up, NeedsSlash, Skip, Expanded, Full, Start, Parent, Longer, Beyond, Resolve, LinkText, Step;
    var cs := Full(abs, s.nup, []);
    ResolveDotDot(fs, s.rest, done, s.links, s.check);
    DotsMore(abs, cwd, s.nup);
    GoodArePieces(abs, s.nup, []);
    TextPush(abs, cs, "..");
    ToldApart(abs, s.nup, []);
    if abs { StepUp(fs, cwd, max, s); } else { StepLeading(fs, cwd, max, s); }
  }

  lemma DotDotAfter(fs: Fs, cwd: seq<Name>, max: nat, s: State, abs: bool, names: seq<Name>, done: seq<Name>)
    requires s.links < SYMLOOP_MAX && Agrees(cwd, s, abs, names, done) && names != []
    requires Comp(s.rest) == ".."
    ensures !Step(fs, cwd, max, s).Done?
    ensures Keeps(fs, cwd, max, s, done, Step(fs, cwd, max, s), abs, names[..|names| - 1], Parent(done))
  {
    hide Readlink, Split, Text, Join, GoodNames, Up, NeedsSlash, Skip, Expanded, Full, Start, Parent, Longer, Beyond, Resolve, LinkText, Step,
         Keeps, DirAnswer, Comp;
    assert |s.out| > 3 * s.nup by { ToldApart(abs, s.nup, names); }
    assert Readlink(fs, cwd, Longer(s.out, Comp(s.rest))) == DirAnswer(fs, done) by { ReadlinkOf(fs, cwd, abs, s.nup, names, ".."); }
    NoLinkThere(fs, done);
    FewerNames(abs, cwd, s.nup, names);
    StepUp(fs, cwd, max, s);
    assert Agrees(cwd, Risen(s), abs, names[..|names| - 1], Parent(done));
    UpKeeps(fs, cwd, max, s, Step(fs, cwd, max, s), abs, names[..|names| - 1], done);
  }

  /** The state after a ".." that takes one name off the output. */
  function Risen(s: State): (t: State) {
    State(Skip(Beyond(s.rest)), Up(s.out), s.nup, s.links, false)
  }

  lemma NoLinkThere(fs: Fs, d: seq<Name>)
    ensures !DirAnswer(fs, d).Link?
  {
  }

  lemma UpKeeps(fs: Fs, cwd: seq<Name>, max: nat, s: State, o: Outcome, abs: bool, less: seq<Name>, done: seq<Name>)
    requires s.links < SYMLOOP_MAX && Comp(s.rest) == ".." && Agrees(cwd, Risen(s), abs, less, Parent(done))
    requires var a := DirAnswer(fs, done);
             || (o == Stop(ENAMETOOLONG) && max <= |s.out| + 2 * |s.rest| + 1)
             || (s.check && a.Fails? && o == Stop(a.error))
             || ((s.check ==> a == NotLink) && o == Go(Risen(s)))
    ensures Keeps(fs, cwd, max, s, done, o, abs, less, Parent(done))
  {
    hide Agrees, Resolve, LinkText, Comp, Risen, Parent;
    ResolveUp(fs, s, done);
  }

  lemma ResolveUp(fs: Fs, s: State, done: seq<Name>)
    requires s.links < SYMLOOP_MAX && Comp(s.rest) == ".."
    ensures var t := Risen(s);
            && |t.out| <= |s.out| && |t.rest| <= |s.rest| && t.links == s.links
            && Resolve(fs, s.rest, done, s.links, s.check)
               == (if s.check && fs.dir(done).Err? then Err(fs.dir(done).error) else Resolve(fs, t.rest, Parent(done), t.links, t.check))
            && LinkText(fs, s.rest, done, s.links, s.check)
               == (if s.check && fs.dir(done).Err? then 0 else LinkText(fs, t.rest, Parent(done), t.links, t.check))
  {
    hide Resolve, LinkText, Comp, Parent, Skip, Beyond, Up;
    ResolveDotDot(fs, s.rest, done, s.links, s.check);
  }

  lemma ResolveDotDot(fs: Fs, rest: string, done: seq<Name>, links: nat, check: bool)
    requires links < SYMLOOP_MAX && Comp(rest) == ".."
    ensures |rest| >= 2
    ensures Resolve(fs, rest, done, links, check)
         == if check && fs.dir(done).Err? then Err(fs.dir(done).error) else Resolve(fs, Skip(Beyond(rest)), Parent(done), links, false)
    ensures LinkText(fs, rest, done, links, check)
         == if check && fs.dir(done).Err? then 0 else LinkText(fs, Skip(Beyond(rest)), Parent(done), links, false)
  {
  }

  /** A component other than "." is put behind the output. */
  lemma StepTried(fs: Fs, cwd: seq<Name>, max: nat, s: State)
    requires s.links < SYMLOOP_MAX && Comp(s.rest) != "" && Comp(s.rest) != "."
    ensures Step(fs, cwd, max, s)
         == if NeedsSlash(s.out) && |s.rest| == max then Stop(ENAMETOOLONG)
            else Tried(fs, cwd, max, s.(rest := Beyond(s.rest)), Comp(s.rest), Longer(s.out, Comp(s.rest)))
  {
    CompHead(s.rest);
    hide Readlink, Up, Skip, NeedsSlash, Longer, Beyond, Comp, Tried;
  }

  lemma CompGood(s: string)
    requires s != "" && s[0] != '/' && Comp(s) != "." && Comp(s) != ".."
    ensures GoodName(Comp(s))
  {
    CompShape(s);
    CompHead(s);
  }

  lemma CompHead(s: string)
    ensures Comp(s) != "" ==> |Comp(s)| <= |s| && s[0] != '/'
    ensures Comp(s) == "" ==> s == "" || s[0] == '/'
  {
  }

  lemma StepLeading(fs: Fs, cwd: seq<Name>, max: nat, s: State)
    requires s.links < SYMLOOP_MAX && Comp(s.rest) == ".." && |s.out| <= 3 * s.nup
    ensures |s.rest| >= 2
    ensures (Step(fs, cwd, max, s) == Stop(ENAMETOOLONG) && max <= |s.out| + 2 * |s.rest| + 1)
         || Step(fs, cwd, max, s) == Go(State(Skip(Beyond(s.rest)), Longer(s.out, Comp(s.rest)), s.nup + 1, s.links, s.check))
  {
    hide Readlink, Up, Skip, NeedsSlash, Longer, Beyond, Comp, Step, Tried;
    var c := Comp(s.rest);
    StepTried(fs, cwd, max, s);
    assert |c| == 2;
    TriedLeading(fs, cwd, max, s.(rest := Beyond(s.rest)), c, Longer(s.out, c));
  }

  lemma TriedLeading(fs: Fs, cwd: seq<Name>, max: nat, s: State, c: Name, out: string)
    requires s.links < SYMLOOP_MAX && c == ".." && |s.out| <= 3 * s.nup
    ensures Tried(fs, cwd, max, s, c, out)
         == if |out| >= max then Stop(ENAMETOOLONG) else Go(s.(rest := Skip(s.rest), out := out, nup := s.nup + 1))
  {
    hide Readlink, Skip, Up, Kept, Linked;
  }

  lemma StepUp(fs: Fs, cwd: seq<Name>, max: nat, s: State)
    requires s.links < SYMLOOP_MAX && Comp(s.rest) == ".." && |s.out| > 3 * s.nup
    requires s.check ==> !Readlink(fs, cwd, Longer(s.out, Comp(s.rest))).Link?
    ensures |s.rest| >= 2
    ensures || (Step(fs, cwd, max, s) == Stop(ENAMETOOLONG) && max <= |s.out| + 2 * |s.rest| + 1)
            || (s.check && Readlink(fs, cwd, Longer(s.out, Comp(s.rest))).Fails? && Step(fs, cwd, max, s) == Stop(Readlink(fs, cwd, Longer(s.out, Comp(s.rest))).error))
            || ((s.check ==> Readlink(fs, cwd, Longer(s.out, Comp(s.rest))) == NotLink)
                && Step(fs, cwd, max, s) == Go(State(Skip(Beyond(s.rest)), Up(s.out), s.nup, s.links, false)))
  {
    hide Readlink, Up, Skip, NeedsSlash, Longer, Beyond, Comp, Step;
    StepTried(fs, cwd, max, s);
    assert |Comp(s.rest)| == 2;
  }

  lemma ToldApart(abs: bool, nup: nat, names: seq<Name>)
    requires GoodNames(names) && (abs ==> nup == 0)
    ensures |Text(abs, Full(abs, nup, names))| <= 3 * nup <==> names == [] && !abs
  {
    GoodArePieces(abs, nup, names);
    NamesTold(nup, names);
  }

  lemma DotsMore(abs: bool, cwd: seq<Name>, nup: nat)
    ensures GoodNames([])
    ensures !abs ==> Full(abs, nup, []) + [".."] == Full(abs, nup + 1, [])
    ensures !abs ==> Parent(Start(abs, cwd, nup) + []) == Start(abs, cwd, nup + 1) + []
    ensures abs ==> Start(abs, cwd, nup) == [] && Parent([]) == [] && Up(Text(abs, Full(abs, 0, []))) == Text(abs, Full(abs, 0, []))
  {
    assert Dots(nup) + [] + [".."] == Dots(nup + 1) + [];
    assert Start(abs, cwd, nup) + [] == Start(abs, cwd, nup);
    assert Join([]) == "";
  }

  lemma FewerNames(abs: bool, cwd: seq<Name>, nup: nat, names: seq<Name>)
    requires GoodNames(names) && names != []
    ensures GoodNames(names[..|names| - 1])
    ensures Up(Text(abs, Full(abs, nup, names))) == Text(abs, Full(abs, nup, names[..|names| - 1]))
    ensures Parent(Start(abs, cwd, nup) + names) == Start(abs, cwd, nup) + names[..|names| - 1]
  {
    var n := |names| - 1;
    var less := names[..n];
    assert forall c: Name :: c in less ==> c in names;
    assert names[n] in names;
    GoodArePieces(abs, nup, less);
    assert Full(abs, nup, names) == Full(abs, nup, less) + [names[n]];
    TextUp(abs, Full(abs, nup, less), names[n]);
    assert (Start(abs, cwd, nup) + names)[..|Start(abs, cwd, nup)| + n] == Start(abs, cwd, nup) + less;
  }

  /** The end of a walk that ended in a slash: the last component must be a directory. */
  lemma StepEnd(fs: Fs, cwd: seq<Name>, max: nat, s: State, abs: bool, names: seq<Name>, done: seq<Name>)
    requires s.links < SYMLOOP_MAX && Agrees(cwd, s, abs, names, done) && s.rest == ""
    ensures Keeps(fs, cwd, max, s, done, Step(fs, cwd, max, s), abs, names, done)
  {
    hide Readlink, Split, Text, Join, GoodNames, Up, NeedsSlash, Expanded, Full, Start, Parent;
    if s.check {
      ReadlinkOf(fs, cwd, abs, s.nup, names, "");
    }
  }

  lemma MoreNames(abs: bool, cwd: seq<Name>, nup: nat, names: seq<Name>, c: Name)
    requires GoodNames(names) && GoodName(c)
    ensures GoodNames(names + [c])
    ensures var out := Text(abs, Full(abs, nup, names));
            Longer(out, c) == Text(abs, Full(abs, nup, names + [c]))
    ensures Start(abs, cwd, nup) + names + [c] == Start(abs, cwd, nup) + (names + [c])
  {
    GoodArePieces(abs, nup, names);
    TextSlash(abs, Full(abs, nup, names));
    TextPush(abs, Full(abs, nup, names), c);
    assert Full(abs, nup, names + [c]) == Full(abs, nup, names) + [c];
  }

  /** The state after a name that is not a link, and after one that is. */
  function Pushed(s: State): (t: State) {
    State(Skip(Beyond(s.rest)), Longer(s.out, Comp(s.rest)), s.nup, s.links, Beyond(s.rest) != "")
  }

  function Followed(s: State, target: string): (t: State)
    requires target != ""
  {
    s.(rest := Expanded(target, Beyond(s.rest)), links := s.links + 1)
  }

  lemma ResolveName(fs: Fs, rest: string, done: seq<Name>, links: nat, check: bool)
    requires links < SYMLOOP_MAX && GoodName(Comp(rest))
    ensures var c := Comp(rest); var after := Beyond(rest);
            Resolve(fs, rest, done, links, check)
            == match fs.read(done + [c]) {
                 case Fails(e) => Err(e)
                 case NotLink => Resolve(fs, Skip(after), done + [c], links, after != "")
                 case Link(target) =>
                   if target == "" then Err(ENOENT)
                   else if links + 1 == SYMLOOP_MAX then Err(ELOOP)
                   else Resolve(fs, Expanded(target, after), done, links + 1, check)
               }
    ensures var c := Comp(rest); var after := Beyond(rest);
            LinkText(fs, rest, done, links, check)
            == match fs.read(done + [c]) {
                 case Fails(_) => 0
                 case NotLink => LinkText(fs, Skip(after), done + [c], links, after != "")
                 case Link(target) =>
                   if target == "" || links + 1 == SYMLOOP_MAX then |target|
                   else |target| + LinkText(fs, Expanded(target, after), done, links + 1, check)
               }
  {
    hide Skip, Expanded;
  }

  lemma ResolvePushed(fs: Fs, s: State, done: seq<Name>)
    requires s.links < SYMLOOP_MAX && GoodName(Comp(s.rest)) && fs.read(done + [Comp(s.rest)]) == NotLink
    ensures Resolve(fs, s.rest, done, s.links, s.check) == Resolve(fs, Pushed(s).rest, done + [Comp(s.rest)], s.links, Pushed(s).check)
    ensures LinkText(fs, s.rest, done, s.links, s.check) == LinkText(fs, Pushed(s).rest, done + [Comp(s.rest)], s.links, Pushed(s).check)
  {
    hide Skip, Expanded, Longer, Comp, GoodName, Beyond, Resolve, LinkText;
    ResolveName(fs, s.rest, done, s.links, s.check);
  }

  lemma ResolveFollowed(fs: Fs, s: State, done: seq<Name>, target: string)
    requires s.links < SYMLOOP_MAX && GoodName(Comp(s.rest)) && fs.read(done + [Comp(s.rest)]) == Link(target)
    ensures target == "" ==> Resolve(fs, s.rest, done, s.links, s.check) == Err(ENOENT)
    ensures target != "" && s.links + 1 == SYMLOOP_MAX ==> Resolve(fs, s.rest, done, s.links, s.check) == Err(ELOOP)
    ensures |target| <= LinkText(fs, s.rest, done, s.links, s.check)
    ensures target != "" && s.links + 1 < SYMLOOP_MAX ==>
              && Resolve(fs, s.rest, done, s.links, s.check) == Resolve(fs, Followed(s, target).rest, done, s.links + 1, s.check)
              && LinkText(fs, s.rest, done, s.links, s.check)
                 == |target| + LinkText(fs, Followed(s, target).rest, done, s.links + 1, s.check)
  {
    hide Skip, Expanded, Longer, Comp, GoodName, Beyond, Resolve, LinkText;
    ResolveName(fs, s.rest, done, s.links, s.check);
  }

  lemma ResolveFails(fs: Fs, s: State, done: seq<Name>, e: Error)
    requires s.links < SYMLOOP_MAX && GoodName(Comp(s.rest)) && fs.read(done + [Comp(s.rest)]) == Fails(e)
    ensures Resolve(fs, s.rest, done, s.links, s.check) == Err(e)
  {
    hide Skip, Expanded, Longer, Comp, GoodName, Beyond, Resolve, LinkText;
    ResolveName(fs, s.rest, done, s.links, s.check);
  }

  lemma PushedLengths(s: State)
    ensures Pushed(s).links == s.links
    ensures GoodName(Comp(s.rest)) ==> |Pushed(s).out| + 2 * |Pushed(s).rest| <= |s.out| + 2 * |s.rest|
  {
    hide Skip, Expanded, Longer, Comp, Beyond;
  }

  lemma StepPush(fs: Fs, cwd: seq<Name>, max: nat, s: State)
    requires s.links < SYMLOOP_MAX && GoodName(Comp(s.rest)) && s.rest[0] != '/'
    ensures Named(max, s, Readlink(fs, cwd, Longer(s.out, Comp(s.rest))), Step(fs, cwd, max, s))
  {
    hide Readlink, Up, Skip, Expanded, NeedsSlash, Longer, Beyond, Comp, Step, Tried;
    var c := Comp(s.rest);
    StepTried(fs, cwd, max, s);
    TriedName(fs, cwd, max, s.(rest := Beyond(s.rest)), c, Longer(s.out, c));
  }

  /** How a turn on a name ends when readlink answers a. */
  predicate Named(max: nat, s: State, a: Answer, o: Outcome)
    requires s.links < SYMLOOP_MAX
  {
    || (o == Stop(ENAMETOOLONG) && (max <= |s.out| + 2 * |s.rest| + 1 || (a.Link? && max <= |a.target| + |s.rest|)))
    || (a.Fails? && o == Stop(a.error))
    || (a.NotLink? && o == Go(Pushed(s)))
    || (a.Link? && a.target == "" && o == Stop(ENOENT))
    || (a.Link? && a.target != "" && s.links + 1 == SYMLOOP_MAX && o == Stop(ELOOP))
    || (a.Link? && a.target != "" && s.links + 1 < SYMLOOP_MAX && o == Go(Followed(s, a.target)))
  }

  lemma TriedName(fs: Fs, cwd: seq<Name>, max: nat, s: State, c: Name, out: string)
    requires s.links < SYMLOOP_MAX && c != "" && c != ".."
    ensures Tried(fs, cwd, max, s, c, out)
         == if |out| >= max then Stop(ENAMETOOLONG)
            else match Readlink(fs, cwd, out) {
              case Fails(e) => Stop(e)
              case NotLink => Go(s.(rest := Skip(s.rest), out := out, check := s.rest != ""))
              case Link(target) => Linked(max, s, target)
            }
  {
    hide Readlink, Skip, Up, Linked;
  }

  /** A name in the walk: kept, or replaced by what it links to. */
  lemma StepName(fs: Fs, cwd: seq<Name>, max: nat, s: State, abs: bool, names: seq<Name>, done: seq<Name>)
    requires s.links < SYMLOOP_MAX && Agrees(cwd, s, abs, names, done)
    requires GoodName(Comp(s.rest)) && s.rest[0] != '/'
    ensures !Step(fs, cwd, max, s).Done?
    ensures Keeps(fs, cwd, max, s, done, Step(fs, cwd, max, s), abs, names, done)
         || Keeps(fs, cwd, max, s, done, Step(fs, cwd, max, s), abs, names + [Comp(s.rest)], done + [Comp(s.rest)])
  {
    hide Readlink, Split, Text, Join, GoodNames, Up, NeedsSlash, Skip, Expanded, Full, Start, Parent, Longer, Beyond, Resolve, LinkText, Step,
         Comp, GoodName, Keeps;
    ReadlinkOf(fs, cwd, abs, s.nup, names, Comp(s.rest));
    MoreNames(abs, cwd, s.nup, names, Comp(s.rest));
    assert Agrees(cwd, Pushed(s), abs, names + [Comp(s.rest)], done + [Comp(s.rest)]);
    StepPush(fs, cwd, max, s);
    NameKeeps(fs, cwd, max, s, Step(fs, cwd, max, s), abs, names, done);
  }

  lemma NameKeeps(fs: Fs, cwd: seq<Name>, max: nat, s: State, o: Outcome, abs: bool, names: seq<Name>, done: seq<Name>)
    requires s.links < SYMLOOP_MAX && GoodName(Comp(s.rest)) && Agrees(cwd, s, abs, names, done)
    requires Agrees(cwd, Pushed(s), abs, names + [Comp(s.rest)], done + [Comp(s.rest)])
    requires Named(max, s, fs.read(done + [Comp(s.rest)]), o)
    ensures !o.Done?
    ensures Keeps(fs, cwd, max, s, done, o, abs, names, done)
         || Keeps(fs, cwd, max, s, done, o, abs, names + [Comp(s.rest)], done + [Comp(s.rest)])
  {
    hide Agrees, Resolve, LinkText, Comp, Pushed, Followed, GoodName;
    PushedLengths(s);
    match fs.read(done + [Comp(s.rest)])
    case Fails(e) => ResolveFails(fs, s, done, e);
    case NotLink => ResolvePushed(fs, s, done);
    case Link(target) =>
      ResolveFollowed(fs, s, done, target);
      if target != "" { FollowedAgrees(cwd, s, abs, names, done, target); }
  }

  lemma FollowedAgrees(cwd: seq<Name>, s: State, abs: bool, names: seq<Name>, done: seq<Name>, target: string)
    requires Agrees(cwd, s, abs, names, done) && target != ""
    ensures var t := Followed(s, target);
            Agrees(cwd, t, abs, names, done) && t.links == s.links + 1 && t.out == s.out && t.check == s.check && |t.rest| <= |target| + |s.rest|
  {
    hide Text, Full, Start, GoodNames, Expanded, Beyond;
  }

  /** A slash or a "." in the walk. */
  lemma StepPlain(fs: Fs, cwd: seq<Name>, max: nat, s: State, abs: bool, names: seq<Name>, done: seq<Name>)
    requires s.links < SYMLOOP_MAX && Agrees(cwd, s, abs, names, done)
    requires s.rest != "" && (s.rest[0] == '/' || Comp(s.rest) == ".")
    ensures Step(fs, cwd, max, s).Go?
    ensures s.rest[0] == '/' ==> Keeps(fs, cwd, max, s, done, Step(fs, cwd, max, s), true, [], [])
    ensures s.rest[0] != '/' ==> Keeps(fs, cwd, max, s, done, Step(fs, cwd, max, s), abs, names, done)
  {
    hide Readlink, Split, Text, Full, Start, NeedsSlash, Skip, Resolve, LinkText, Step, Comp, Beyond;
    StepSlash(fs, cwd, max, s);
    ResolveSlash(fs, s.rest, done, s.links, s.check);
    RootAgrees(cwd, s.links, Skip(s.rest[1..]));
  }

  lemma RootAgrees(cwd: seq<Name>, links: nat, rest: string)
    ensures Agrees(cwd, State(rest, "/", 0, links, false), true, [], [])
  {
    assert Text(true, Full(true, 0, [])) == "/";
  }

  lemma StepSlash(fs: Fs, cwd: seq<Name>, max: nat, s: State)
    requires s.links < SYMLOOP_MAX && s.rest != ""
    ensures s.rest[0] == '/' ==> Step(fs, cwd, max, s) == Go(State(Skip(s.rest[1..]), "/", 0, s.links, false))
    ensures s.rest[0] != '/' && Comp(s.rest) == "." ==> Step(fs, cwd, max, s) == Go(s.(rest := Skip(Beyond(s.rest))))
  {
    hide Readlink, Tried, Skip, Beyond, Comp, Longer, NeedsSlash;
  }

  lemma ResolveSlash(fs: Fs, rest: string, done: seq<Name>, links: nat, check: bool)
    requires links < SYMLOOP_MAX && rest != ""
    ensures rest[0] == '/' ==> Resolve(fs, rest, done, links, check) == Resolve(fs, Skip(rest[1..]), [], links, false)
    ensures rest[0] != '/' && Comp(rest) == "." ==> Resolve(fs, rest, done, links, check) == Resolve(fs, Skip(Beyond(rest)), done, links, check)
    ensures rest[0] == '/' ==> LinkText(fs, rest, done, links, check) == LinkText(fs, Skip(rest[1..]), [], links, false)
    ensures rest[0] != '/' && Comp(rest) == "." ==> LinkText(fs, rest, done, links, check) == LinkText(fs, Skip(Beyond(rest)), done, links, check)
  {
    hide Skip, Expanded;
  }

  /** The walk ends where the resolver does, or fails as it does, or for want of room. */
  lemma {:induction false} WalkAgrees(fs: Fs, cwd: seq<Name>, max: nat, s: State, abs: bool, names: seq<Name>, done: seq<Name>)
    returns (abs': bool, names': seq<Name>, done': seq<Name>)
    requires s.links < SYMLOOP_MAX && Agrees(cwd, s, abs, names, done)
    ensures var r, w := Resolve(fs, s.rest, done, s.links, s.check), Walk(fs, cwd, max, s);
            && (w.Err? ==> (w.error == ENAMETOOLONG && max <= Room(fs, s, done)) || r == Err(w.error))
            && (w.Ok? ==> Agrees(cwd, w.value, abs', names', done') && r == Ok(done') && |w.value.out| < Room(fs, s, done))
    decreases SYMLOOP_MAX - s.links, |s.rest|, s.check
  {
    hide Agrees, Resolve, Step, Room;
    abs', names', done' := abs, names, done;
    var c := Comp(s.rest);
    if s.rest == "" {
      StepEnd(fs, cwd, max, s, abs, names, done);
    } else if s.rest[0] == '/' || c == "." {
      StepPlain(fs, cwd, max, s, abs, names, done);
      if s.rest[0] == '/' { abs', names', done' := true, [], []; }
    } else if c == ".." {
      StepDotDot(fs, cwd, max, s, abs, names, done);
      names', done' := if names == [] then [] else names[..|names| - 1], Parent(done);
    } else {
      CompGood(s.rest);
      StepName(fs, cwd, max, s, abs, names, done);
      if !Keeps(fs, cwd, max, s, done, Step(fs, cwd, max, s), abs, names, done) {
        names', done' := names + [c], done + [c];
      }
    }
    match Step(fs, cwd, max, s)
    case Go(s') => abs', names', done' := WalkAgrees(fs, cwd, max, s', abs', names', done');
    case _ =>
  }

  // ------------------------------------------------------------------ the result

  lemma {:induction false} CwdCutIsCut(s: string)
    requires s != "" && s[0] == '/'
    ensures CwdCut(s) == Cut(s)
  {
    if s[|s| - 1] != '/' { CwdCutIsCut(s[..|s| - 1]); }
  }

  lemma CwdUpOneMeans(d: seq<Name>)
    requires GoodNames(d)
    ensures CwdUpOne(Text(true, d)) == Text(true, Parent(d))
  {
    hide Cut, CwdCut, Text;
    GoodArePieces(true, 0, d);
    if d != [] {
      var k := |d| - 1;
      assert d[k] in d && d == d[..k] + [d[k]];
      GoodArePieces(true, 0, d[..k]);
      TextUp(true, d[..k], d[k]);
      TextSlash(true, d);
      CwdCutIsCut(Text(true, d));
      CutShape(d[..k], d[k]);
      TextLong(d);
    } else {
      assert Text(true, d) == "/" by { TextRoot(); }
    }
  }

  lemma TextRoot()
    ensures Text(true, []) == "/"
  {
  }

  lemma TextLong(d: seq<Name>)
    requires Pieces(d) && d != []
    ensures |Text(true, d)| > 1
  {
    JoinEnds(d);
  }

  lemma {:induction false} CwdUpMeans(d: seq<Name>, n: nat)
    requires GoodNames(d)
    ensures CwdUp(Text(true, d), n) == Text(true, Above(d, n)) && GoodNames(Above(d, n))
    decreases n
  {
    hide CwdUpOne, Text, GoodNames;
    if n > 0 {
      AboveParent(d, n - 1);
      ParentGood(d);
      CwdUpOneMeans(d);
      CwdUpMeans(Parent(d), n - 1);
    }
  }

  lemma CutShape(cs: seq<Name>, c: Name)
    requires Pieces(cs) && Piece(c)
    ensures var r := Cut(Text(true, cs + [c]));
            |r| >= 1 && (|r| == 2 ==> r[0] != '/')
  {
    TextPush(true, cs, c);
    TextSlash(true, cs);
    var head := Text(true, cs) + if cs != [] then "/" else "";
    assert Text(true, cs + [c]) == head + c;
    CutTo(head, c);
    if cs != [] { JoinEnds(cs); }
  }

  lemma ParentGood(d: seq<Name>)
    requires GoodNames(d)
    ensures GoodNames(Parent(d))
  {
    if d != [] { assert forall c: Name :: c in d[..|d| - 1] ==> c in d; }
  }

  lemma {:induction false} AboveParent(d: seq<Name>, n: nat)
    ensures Above(Parent(d), n) == Above(d, n + 1)
  {
    if n > 0 { AboveParent(d, n - 1); }
  }

  lemma {:induction false} LeadingMeans(n: nat, q: nat)
    ensures q >= 3 * n ==> Leading(n, q) == 3 * n
    ensures q == 3 * n - 1 ==> Leading(n, q) == q
  {
    if n > 0 { LeadingMeans(n - 1, q); }
  }

  lemma {:induction false} JoinConcat(a: seq<Name>, b: seq<Name>)
    requires a != [] && b != []
    ensures Join(a + b) == Join(a) + "/" + Join(b)
    decreases |b|
  {
    hide Join;
    var n := |b| - 1;
    var head := b[..n];
    assert b == head + [b[n]] && a + b == (a + head) + [b[n]];
    JoinAppend(a + head, b[n]);
    JoinAppend(head, b[n]);
    if n == 0 {
      assert a + head == a;
    } else {
      JoinConcat(a, head);
      assert Join(a) + "/" + Join(head) + "/" + b[n] == Join(a) + "/" + (Join(head) + "/" + b[n]);
    }
  }

  /** The part of the output after its leading "..". */
  lemma TailMeans(nup: nat, names: seq<Name>)
    requires GoodNames(names)
    ensures var out := Join(Dots(nup) + names);
            var p := Leading(nup, |out|);
            p <= |out| && out[p..] == Join(names)
  {
    GoodArePieces(false, nup, names);
    NamesTold(nup, names);
    DotsLength(nup);
    var out := Join(Dots(nup) + names);
    LeadingMeans(nup, |out|);
    if names == [] {
      assert Dots(nup) + names == Dots(nup);
    } else if nup > 0 {
      JoinConcat(Dots(nup), names);
      assert out[3 * nup..] == Join(names);
    } else {
      assert Dots(nup) + names == names;
    }
  }

  /** A finished walk spells out the directory the resolver is in, when a relative one fits. */
  lemma FinishMeans(cwd: seq<Name>, max: nat, s: State, abs: bool, names: seq<Name>, done: seq<Name>)
    requires GoodNames(cwd) && Agrees(cwd, s, abs, names, done)
    ensures var text := Text(true, done);
            Finish(Text(true, cwd), max, s) == if !abs && |text| + 1 >= max then Err(ENAMETOOLONG) else Ok(text)
  {
    hide Text, Join, NeedsSlash, CwdUp, Leading, Above, Dots, Under;
    GoodArePieces(abs, s.nup, names);
    TextSlash(abs, Full(abs, s.nup, names));
    if !abs {
      CwdUpMeans(cwd, s.nup);
      TailMeans(s.nup, names);
      FinishJoin(Above(cwd, s.nup), names);
      TextPlain(Dots(s.nup) + names);
    } else {
      assert [] + names == names;
    }
  }

  lemma FinishFits(cwd: string, max: nat, s: State)
    requires |cwd| + |s.out| + 2 < max
    ensures Finish(cwd, max, s).Ok?
  {
  }

  lemma TextPlain(cs: seq<Name>)
    ensures Text(false, cs) == Join(cs)
  {
  }

  lemma FinishJoin(dir: seq<Name>, names: seq<Name>)
    requires GoodNames(dir) && GoodNames(names)
    ensures Under(Text(true, dir), Join(names)) == Text(true, dir + names)
  {
    GoodArePieces(true, 0, dir);
    TextSlash(true, dir);
    GoodArePieces(true, 0, names);
    if names == [] {
      assert dir + names == dir;
    } else {
      JoinEnds(names);
      if dir == [] { assert dir + names == names; } else { JoinConcat(dir, names); }
    }
  }

  lemma StartAgrees(fs: Fs, cwd: seq<Name>, filename: string)
    requires Canonical(fs, cwd)
    ensures GoodNames(cwd) && Agrees(cwd, State(filename, "", 0, 0, false), false, [], cwd)
  {
    assert Dots(0) + [] == [];
    assert Above(cwd, 0) + [] == cwd;
  }

  /** What realpath returns names the directory or file the plain resolver arrives at: absolute,
      without empty, "." or ".." components and without links; and when realpath fails, it wanted
      room, could not have the working directory, or the resolver fails the same way. */
  lemma RealpathMeans(fs: Fs, cwd: seq<Name>, got: Result<()>, max: nat, filename: string)
    requires Canonical(fs, cwd) && !IsZip(filename) && filename != ""
    ensures var r, d := Realpath(fs, cwd, got, max, filename), Resolve(fs, filename, cwd, 0, false);
            && (r.Ok? ==> d.Ok? && Canonical(fs, d.value) && r.value == "/" + Join(d.value))
            && (r.Err? ==> (r.error == ENAMETOOLONG && max <= Need(fs, cwd, filename)) || (got.Err? && r.error == got.error) || d == Err(r.error))
  {
    var s := State(filename, "", 0, 0, false);
    hide Resolve, Walk, Agrees, Finish, Join, IsZip, Canonical, LinkText;
    StartAgrees(fs, cwd, filename);
    var abs, names, done := WalkAgrees(fs, cwd, max, s, false, [], cwd);
    ResolveCanonical(fs, filename, cwd, 0, false);
    var w := Walk(fs, cwd, max, s);
    if w.Ok? {
      FinishMeans(cwd, max, w.value, abs, names, done);
      if max > Need(fs, cwd, filename) { FinishFits("/" + Join(cwd), max, w.value); }
    }
  }

  /** Twice the name and all link text met, behind the working directory. */
  function Need(fs: Fs, cwd: seq<Name>, filename: string): (n: nat) {
    |Join(cwd)| + Room(fs, State(filename, "", 0, 0, false), cwd) + 2
  }

  /** For every file system, name and working directory there is a size from which on the call
      answers exactly as the resolver does. */
  lemma RoomSuffices(fs: Fs, cwd: seq<Name>, max: nat, filename: string)
    requires Canonical(fs, cwd) && !IsZip(filename) && filename != "" && Need(fs, cwd, filename) < max
    ensures Realpath(fs, cwd, Ok(()), max, filename)
         == match Resolve(fs, filename, cwd, 0, false) { case Ok(d) => Ok("/" + Join(d)) case Err(e) => Err(e) }
  {
    hide Resolve, Realpath, Need, Canonical;
    RealpathMeans(fs, cwd, Ok(()), max, filename);
  }

  /** n turns of the loop take s to t. */
  ghost predicate Leads(fs: Fs, cwd: seq<Name>, max: nat, s: State, n: nat, t: State)
    requires s.links < SYMLOOP_MAX
    decreases n
  {
    if n == 0 then s == t else Step(fs, cwd, max, s).Go? && Leads(fs, cwd, max, Step(fs, cwd, max, s).s, n - 1, t)
  }

  /** The buffers are too short for what comes next: no room on the stack for a slash, or in the output
      for one more component and a terminator, or on the stack for a link's text in front of the rest;
      or the host itself says that a name is too long. */
  ghost predicate Cramped(fs: Fs, cwd: seq<Name>, max: nat, s: State) {
    var c, after := Comp(s.rest), Beyond(s.rest);
    var slash := if s.out != "" && s.out[|s.out| - 1] != '/' then "/" else "";
    var a := Readlink(fs, cwd, s.out + slash + c);
    || (slash != "" && |s.rest| == max)
    || |s.out| + |slash| + |c| + 1 > max
    || (a.Link? && |a.target| + |after| >= max)
    || a == Fails(ENAMETOOLONG)
  }

  lemma StepTooLong(fs: Fs, cwd: seq<Name>, max: nat, s: State)
    requires s.links < SYMLOOP_MAX && Step(fs, cwd, max, s) == Stop(ENAMETOOLONG)
    ensures Cramped(fs, cwd, max, s)
  {
    hide Readlink, Comp, Skip;
  }

  /** A walk that fails for want of room has come to a state that wants it. */
  lemma {:induction false} WalkTooLong(fs: Fs, cwd: seq<Name>, max: nat, s: State) returns (n: nat, t: State)
    requires s.links < SYMLOOP_MAX && Walk(fs, cwd, max, s) == Err(ENAMETOOLONG)
    ensures Leads(fs, cwd, max, s, n, t) && Cramped(fs, cwd, max, t)
    decreases SYMLOOP_MAX - s.links, |s.rest|, s.check
  {
    hide Cramped, Step;
    match Step(fs, cwd, max, s)
    case Go(s') =>
      n, t := WalkTooLong(fs, cwd, max, s');
      n := n + 1;
    case Done =>
    case Stop(e) =>
      StepTooLong(fs, cwd, max, s);
      n, t := 0, s;
  }

  /** realpath says that a name is too long only when it is, or the walk came to where the buffers are
      too short, or the joined result and its terminator do not fit. */
  lemma TooLongMeans(fs: Fs, cwd: seq<Name>, max: nat, filename: string)
    requires Canonical(fs, cwd) && !IsZip(filename) && Realpath(fs, cwd, Ok(()), max, filename) == Err(ENAMETOOLONG)
    ensures || |filename| >= max
            || (exists n, t :: Leads(fs, cwd, max, State(filename, "", 0, 0, false), n, t) && Cramped(fs, cwd, max, t))
            || (Resolve(fs, filename, cwd, 0, false).Ok? && |Join(Resolve(fs, filename, cwd, 0, false).value)| + 2 >= max)
  {
    hide Resolve, Walk, Agrees, Finish, Join, IsZip, Canonical, LinkText, Leads, Cramped;
    var s := State(filename, "", 0, 0, false);
    if |filename| < max {
      if Walk(fs, cwd, max, s).Err? {
        var n, t := WalkTooLong(fs, cwd, max, s);
      } else {
        StartAgrees(fs, cwd, filename);
        var abs, names, done := WalkAgrees(fs, cwd, max, s, false, [], cwd);
        FinishMeans(cwd, max, Walk(fs, cwd, max, s).value, abs, names, done);
      }
    }
  }

  /** A path that spells its own resolution. */
  ghost predicate Plain(path: string) {
    exists d: seq<Name> :: GoodNames(d) && path == "/" + Join(d)
  }

  /** Names below /zip are returned as they are: the result is free of dots and empty components
      for every file system exactly when the name is not below /zip or already is. */
  lemma ZipVerbatim(fs: Fs, cwd: seq<Name>, got: Result<()>, max: nat, filename: string)
    requires Canonical(fs, cwd) && Realpath(fs, cwd, got, max, filename).Ok?
    ensures Plain(Realpath(fs, cwd, got, max, filename).value) <==> !IsZip(filename) || Plain(filename)
  {
    hide Resolve, Walk, Finish;
    if !IsZip(filename) { RealpathMeans(fs, cwd, got, max, filename); }
  }

  lemma DotsInZip()
    ensures ".." in Split("/zip/..")
  {
    hide Split;
    SplitSlash("/zip", "..");
    assert "/zip" + "/" + ".." == "/zip/..";
  }

  lemma ZipDots(fs: Fs, cwd: seq<Name>, got: Result<()>)
    ensures Realpath(fs, cwd, got, 100, "/zip/..") == Ok("/zip/..") && !Plain("/zip/..")
  {
    hide Walk, Split;
    forall d: seq<Name> | GoodNames(d)
      ensures "/zip/.." != "/" + Join(d)
    {
      GoodArePieces(true, 0, d);
      SplitJoin(d);
      DotsInZip();
    }
  }
}
