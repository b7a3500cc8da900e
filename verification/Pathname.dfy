/** Pathname resolution over lists of components, with no text in it: what the resolver on text and so
    realpath amount to. */
module Pathname {
  import opened PathText
  import opened Realpath

  /** The components left, whether a slash follows the last of them, the directory reached, the links
      seen, and whether that directory was named with something behind it. A link's components take
      its place; from the root when it is absolute. */
  ghost function Follow(fs: Fs, cs: seq<Name>, slash: bool, done: seq<Name>, links: nat, check: bool): (r: Result<seq<Name>>)
    requires links < 40
    decreases 40 - links, |cs|
  {
    if cs == [] then
      if check && fs.dir(done).Err? then Err(fs.dir(done).error) else Ok(done)
    else
      var c, more := cs[0], cs[1..];
      if c == "." then Follow(fs, more, slash, done, links, check)
      else if c == ".." then
        if check && fs.dir(done).Err? then Err(fs.dir(done).error)
        else Follow(fs, more, slash, if done == [] then [] else done[..|done| - 1], links, false)
      else
        match fs.read(done + [c])
        case Fails(e) => Err(e)
        case NotLink => Follow(fs, more, slash, done + [c], links, more != [] || slash)
        case Link(target) =>
          if target == "" then Err(ENOENT)
          else if links + 1 == 40 then Err(ELOOP)
          else
            var absolute, ends := target[0] == '/', target[|target| - 1] == '/';
            Follow(fs, Split(target) + more, slash || (more == [] && ends), if absolute then [] else done, links + 1, check && !absolute)
  }

  predicate Trails(s: string) {
    s != "" && s[|s| - 1] == '/'
  }

  predicate Absolute(s: string) {
    s != "" && s[0] == '/'
  }

  /** Text splits at every slash, and text without one is a component: the components of a path. */
  lemma {:induction false} SplitLaws(a: string, b: string)
    ensures Split(a + "/" + b) == Split(a) + Split(b)
    ensures '/' !in a ==> Split(a) == if a == "" then [] else [a]
    decreases |a|
  {
    SplitTwo(a, "/" + b);
    assert a + "/" + b == a + ("/" + b) && ("/" + b)[1..] == b;
    if a != "" && '/' !in a { SplitOne(a); }
  }

  /** Splitting where a slash follows. */
  lemma {:induction false} SplitTwo(a: string, b: string)
    requires b == "" || b[0] == '/'
    ensures Split(a + b) == Split(a) + Split(b)
    decreases |a|
  {
    var s := a + b;
    if a == "" {
      assert s == b && [] + Split(b) == Split(b);
    } else if a[0] == '/' {
      assert s[1..] == a[1..] + b;
      SplitTwo(a[1..], b);
    } else {
      CompShape(a);
      var d := Comp(a);
      var rest := a[|d|..];
      assert a == d + rest && s == d + (rest + b);
      CompOf(d, rest + b);
      assert s[|d|..] == rest + b;
      SplitTwo(rest, b);
      assert [d] + (Split(rest) + Split(b)) == [d] + Split(rest) + Split(b);
    }
  }

  lemma {:induction false} SplitSkip(s: string)
    ensures Split(Skip(s)) == Split(s)
    ensures Split(s) == [] <==> Skip(s) == ""
    ensures Skip(s) != "" ==> Trails(Skip(s)) == Trails(s) && !Absolute(Skip(s))
    ensures Skip(s) == "" && s != "" ==> Trails(s)
  {
    if s != "" && s[0] == '/' {
      SplitSkip(s[1..]);
    }
  }

  /** The end of a link's text put before what follows it. */
  lemma ExpandedEnds(target: string, after: string)
    requires target != "" && (after == "" || after[0] == '/')
    ensures var e := Expanded(target, after);
            && Split(e) == Split(target) + Split(after)
            && e != "" && e[0] == target[0]
            && (Split(after) != [] ==> Trails(e) == Trails(after))
            && (Split(after) == [] ==> Trails(e) == (after != "" || Trails(target)))
  {
    SplitSkip(after);
    var tail := if Trails(target) then Skip(after) else after;
    assert Expanded(target, after) == target + tail;
    if Trails(target) {
      SplitTrailed(target, tail);
    } else {
      SplitTwo(target, after);
    }
  }

  lemma {:induction false} SplitTrailed(a: string, b: string)
    requires Trails(a)
    ensures Split(a + b) == Split(a) + Split(b)
  {
    var n := |a| - 1;
    SplitTwo(a[..n], "/" + b);
    SplitTwo(a[..n], "/");
    assert a + b == a[..n] + ("/" + b) && a == a[..n] + "/";
    assert ("/" + b)[1..] == b && "/"[1..] == "";
    assert Split(a[..n]) + [] == Split(a[..n]);
  }

  lemma SplitFirst(rest: string)
    requires rest != "" && rest[0] != '/'
    ensures Comp(rest) != "" && Split(rest) == [Comp(rest)] + Split(Beyond(rest)) && Split(rest)[1..] == Split(Beyond(rest))
    ensures Beyond(rest) == "" || Beyond(rest)[0] == '/'
    ensures Trails(rest) == Trails(Beyond(rest))
  {
    CompShape(rest);
    var c := Comp(rest);
    assert rest == c + Beyond(rest);
    if Beyond(rest) == "" { assert rest == c && c[|c| - 1] in c; }
  }

  lemma DoneIgnoresSlash(fs: Fs, a: bool, b: bool, done: seq<Name>, links: nat, check: bool)
    requires links < 40
    ensures Follow(fs, [], a, done, links, check) == Follow(fs, [], b, done, links, check)
  {
  }

  /** The resolver on text goes where the components lead. */
  lemma {:induction false} ResolveFollows(fs: Fs, rest: string, slash: bool, done: seq<Name>, links: nat, check: bool)
    requires links < SYMLOOP_MAX && (Split(rest) != [] ==> slash == Trails(rest))
    ensures Resolve(fs, rest, done, links, check)
         == Follow(fs, Split(rest), slash, if Absolute(rest) then [] else done, links, check && !Absolute(rest))
    decreases SYMLOOP_MAX - links, |rest|
  {
    if rest == "" {
    } else if rest[0] == '/' {
      SplitSkip(rest[1..]);
      ResolveSlash(fs, rest, done, links, check);
      ResolveFollows(fs, Skip(rest[1..]), slash, [], links, false);
    } else {
      SplitFirst(rest);
      FollowsOne(fs, rest, slash, done, links, check);
    }
  }

  lemma {:induction false} FollowsOne(fs: Fs, rest: string, slash: bool, done: seq<Name>, links: nat, check: bool)
    requires links < SYMLOOP_MAX && (Split(rest) != [] ==> slash == Trails(rest)) && rest != "" && rest[0] != '/'
    ensures Resolve(fs, rest, done, links, check) == Follow(fs, Split(rest), slash, done, links, check)
    decreases SYMLOOP_MAX - links, |rest|, 0
  {
    hide Resolve, Split, Skip, Expanded;
    SplitFirst(rest);
    var c, after := Comp(rest), Beyond(rest);
    var cs := Split(rest);
    SplitSkip(after);
    var next := Skip(after);
    if c == "." {
      ResolveSlash(fs, rest, done, links, check);
      ResolveFollows(fs, next, slash, done, links, check);
    } else if c == ".." {
      ResolveDotDot(fs, rest, done, links, check);
      ResolveFollows(fs, next, slash, Parent(done), links, false);
    } else {
      CompGood(rest);
      ResolveName(fs, rest, done, links, check);
      match fs.read(done + [c])
      case Fails(e) =>
      case NotLink =>
        ResolveFollows(fs, next, slash, done + [c], links, after != "");
      case Link(target) =>
        if target != "" && links + 1 != SYMLOOP_MAX {
          ExpandedEnds(target, after);
          ResolveFollows(fs, Expanded(target, after), slash || (cs[1..] == [] && Trails(target)), done, links + 1, check);
        }
    }
  }

  /** realpath gives the absolute spelling of where the components of the name lead, without empty,
      "." or ".." components and without links; when it fails, resolution fails the same way, or the
      working directory could not be had, or buffers no longer than Need were short of room. */
  lemma RealpathFollows(fs: Fs, cwd: seq<Name>, got: Result<()>, max: nat, filename: string)
    requires Canonical(fs, cwd) && !IsZip(filename) && filename != ""
    ensures var r := Realpath.Realpath(fs, cwd, got, max, filename);
            var d := Follow(fs, Split(filename), filename[|filename| - 1] == '/', if filename[0] == '/' then [] else cwd, 0, false);
            && (r.Ok? ==> d.Ok? && Canonical(fs, d.value) && r.value == "/" + Join(d.value))
            && (r.Err? ==> (r.error == ENAMETOOLONG && max <= Need(fs, cwd, filename)) || (got.Err? && r.error == got.error) || d == Err(r.error))
  {
    hide Resolve, Realpath.Realpath, Need, Canonical, Follow, Split;
    RealpathMeans(fs, cwd, got, max, filename);
    ResolveFollows(fs, filename, Trails(filename), cwd, 0, false);
  }
}
