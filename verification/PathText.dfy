/** Slash-separated text and the components in it. */
module PathText {

  type Name = string

  /** The text up to the first slash. */
  function Comp(s: string): (c: string)
    ensures |c| <= |s|
  {
    if s == "" || s[0] == '/' then "" else [s[0]] + Comp(s[1..])
  }

  lemma {:induction false} CompShape(s: string)
    ensures var c := Comp(s); c == s[..|c|] && '/' !in c && (|c| < |s| ==> s[|c|] == '/')
  {
    if s != "" && s[0] != '/' { CompShape(s[1..]); }
  }

  function Skip(s: string): (r: string)
    ensures |r| <= |s|
  {
    if s != "" && s[0] == '/' then Skip(s[1..]) else s
  }

  predicate GoodName(n: Name) {
    n != "" && '/' !in n && n != "." && n != ".."
  }

  predicate GoodNames(ns: seq<Name>) {
    forall n: Name :: n in ns ==> GoodName(n)
  }

  /** The components of a path, empty ones left out. */
  function Split(s: string): (cs: seq<Name>)
    decreases |s|
  {
    if s == "" then []
    else if s[0] == '/' then Split(s[1..])
    else [Comp(s)] + Split(s[|Comp(s)|..])
  }

  function Join(cs: seq<Name>): (s: string) {
    if cs == [] then ""
    else if |cs| == 1 then cs[0]
    else Join(cs[..|cs| - 1]) + "/" + cs[|cs| - 1]
  }

  predicate Piece(c: Name) {
    c != "" && '/' !in c
  }

  predicate Pieces(cs: seq<Name>) {
    forall c: Name {:trigger c in cs} :: c in cs ==> Piece(c)
  }

  lemma {:induction false} CompOf(c: Name, s: string)
    requires '/' !in c && (s == "" || s[0] == '/')
    ensures Comp(c + s) == c
  {
    if c != "" {
      CompOf(c[1..], s);
      assert (c + s)[1..] == c[1..] + s;
    } else {
      assert c + s == s;
    }
  }

  lemma SplitOne(c: Name)
    requires Piece(c)
    ensures Split(c) == [c]
  {
    CompOf(c, "");
    assert c + "" == c;
    assert c[|c|..] == "";
  }

  lemma {:induction false} SplitSlash(a: string, c: Name)
    requires Piece(c)
    ensures Split(a + "/" + c) == Split(a) + [c]
    decreases |a|
  {
    var s := a + "/" + c;
    if a == "" {
      assert s[1..] == c;
      SplitOne(c);
    } else if a[0] == '/' {
      assert s[1..] == a[1..] + "/" + c;
      SplitSlash(a[1..], c);
    } else {
      var d := Comp(a);
      var rest := a[|d|..];
      CompShape(a);
      assert a == d + rest && s == d + (rest + "/" + c);
      CompOf(d, rest + "/" + c);
      assert s[|d|..] == rest + "/" + c;
      SplitSlash(rest, c);
    }
  }

  /** A trailing slash adds no component. */
  lemma {:induction false} SplitTrailing(a: string)
    ensures Split(a + "/") == Split(a)
    decreases |a|
  {
    var s := a + "/";
    if a == "" {
      assert s[1..] == "";
    } else if a[0] == '/' {
      assert s[1..] == a[1..] + "/";
      SplitTrailing(a[1..]);
    } else {
      var d := Comp(a);
      var rest := a[|d|..];
      CompShape(a);
      assert a == d + rest && s == d + (rest + "/");
      CompOf(d, rest + "/");
      assert s[|d|..] == rest + "/";
      SplitTrailing(rest);
    }
  }

  lemma {:induction false} SplitJoin(cs: seq<Name>)
    requires Pieces(cs)
    ensures Split(Join(cs)) == cs
    ensures Split("/" + Join(cs)) == cs
  {
    assert ("/" + Join(cs))[1..] == Join(cs);
    if |cs| == 1 {
      assert cs[0] in cs;
      SplitOne(cs[0]);
    } else if |cs| > 1 {
      var n := |cs| - 1;
      assert cs[n] in cs;
      assert forall c: Name {:trigger c in cs[..n]} :: c in cs[..n] ==> c in cs;
      SplitJoin(cs[..n]);
      SplitSlash(Join(cs[..n]), cs[n]);
    }
  }

  lemma JoinAppend(cs: seq<Name>, c: Name)
    ensures Join(cs + [c]) == if cs == [] then c else Join(cs) + "/" + c
  {
    assert (cs + [c])[..|cs|] == cs;
  }

  /** Text made of components ends in no slash. */
  lemma {:induction false} JoinEnds(cs: seq<Name>)
    requires Pieces(cs) && cs != []
    ensures Join(cs) != "" && Join(cs)[|Join(cs)| - 1] != '/' && Join(cs)[0] != '/'
  {
    var n := |cs| - 1;
    assert cs[n] in cs;
    assert forall c: Name {:trigger c in cs[..n]} :: c in cs[..n] ==> c in cs;
    if n > 0 { JoinEnds(cs[..n]); }
  }

  function Parent(d: seq<Name>): (p: seq<Name>) {
    if d == [] then [] else d[..|d| - 1]
  }
}
