/** What normalize_path and the resolution of paths do, as laws between paths: of slashes, dots, pairs
    of dots and names, and nothing else. */
module PathLaws {
  import opened Common
  import opened Paths
  import opened Normalize

  // ----- where a path leads -----

  /** Of every absolute path: a name is appended. */
  lemma NameIsAppended(a: string, n: string)
    requires IsPlain(n)
    ensures ResolvePath(a + "/" + n) == ResolvePath(a) + [n]
  {
    ResolveBelow(a, n);
  }

  /** Nothing, or slashes only, is the root. */
  lemma {:induction false} SlashesAreRoot(a: string)
    requires forall c :: c in a ==> c == '/'
    ensures ResolvePath(a) == []
    decreases |a|
  {
    if a == "" {
    } else {
      assert a[0] in a && forall c :: c in a[1..] ==> c in a;
      SlashesAreRoot(a[1..]);
    }
  }

  lemma SlashesAreOne(a: string, b: string)
    ensures ResolvePath(a + "//" + b) == ResolvePath(a + "/" + b)
  {
    assert a + "//" + b == a + "/" + ("/" + b);
    ResolveComposes(a, "/" + b);
    ResolveComposes(a, b);
  }

  lemma DotIsSkipped(a: string, b: string)
    ensures ResolvePath(a + "/./" + b) == ResolvePath(a + "/" + b)
  {
    assert a + "/./" + b == a + "/." + "/" + b && a + "/." == a + "/" + ".";
    ResolveComposes(a + "/.", b);
    ResolveBelow(a, ".");
    ResolveComposes(a, b);
  }

  lemma UpRemovesName(a: string, n: string, b: string)
    requires IsPlain(n)
    ensures ResolvePath(a + "/" + n + "/../" + b) == ResolvePath(a + "/" + b)
  {
    var named := a + "/" + n;
    assert named + "/../" + b == named + "/.." + "/" + b && named + "/.." == named + "/" + "..";
    ResolveComposes(named + "/..", b);
    ResolveBelow(named, "..");
    ResolveBelow(a, n);
    assert Init(ResolvePath(a) + [n]) == ResolvePath(a);
    ResolveComposes(a, b);
  }

  lemma UpStaysAtRoot(b: string)
    ensures ResolvePath("/../" + b) == ResolvePath("/" + b)
  {
    assert "/../" + b == "/.." + "/" + b && "/.." == "" + "/" + ".." && "/" + b == "" + "/" + b;
    ResolveComposes("/..", b);
    ResolveBelow("", "..");
    ResolveComposes("", b);
  }

  // ----- the text of a normalised absolute path -----

  function WithSlash(t: string): string { if t != "" && Last(t) == '/' then t else t + "/" }

  lemma StateOf(path: string)
    ensures var s := FeedAll(State([], false), Components(path));
            Normal(path) == TextOf(s) && AllPlain(s.stack) && s.stack == ResolvePath(path)
  {
    FeedAllResolves(State([], false), Components(path));
    ResolvedIsPlain(path);
  }

  lemma OneMore(a: string, c: string)
    requires IsName(c)
    ensures FeedAll(State([], false), Components(a + "/" + c))
            == Feed(FeedAll(State([], false), Components(a)), c)
  {
    ComponentsSplit(a, c);
    ComponentsOfOne(c);
    FeedAllSnoc(State([], false), Components(a), c);
  }

  lemma RootIsSlash()
    ensures Normal("") == "/" && Normal("/") == "/"
  {
    assert "/"[1..] == "";
  }

  /** A name comes behind a slash, which is written unless one is there. */
  lemma NormalOfName(a: string, n: string)
    requires IsPlain(n)
    ensures Normal(a + "/" + n) == WithSlash(Normal(a)) + n
  {
    StateOf(a);
    OneMore(a, n);
    PushedText(FeedAll(State([], false), Components(a)), n);
    if Last(Normal(a)) == '/' { assert Normal(a) + "" == Normal(a); }
  }

  lemma NormalOfDot(a: string)
    ensures Normal(a + "/.") == Normal(a)
  {
    assert a + "/." == a + "/" + ".";
    OneMore(a, ".");
  }

  lemma NormalOfSlash(a: string)
    ensures Normal(a + "/") == Normal(a)
  {
    ComponentsSplit(a, "");
    assert a + "/" + "" == a + "/" && Components(a) + [] == Components(a);
  }

  /** A name and the pair of dots behind it leave the slash that was before the name. */
  lemma NormalOfUp(a: string, n: string)
    requires IsPlain(n)
    ensures Normal(a + "/" + n + "/..") == WithSlash(Normal(a))
  {
    var s := FeedAll(State([], false), Components(a));
    assert a + "/" + n + "/.." == a + "/" + n + "/" + "..";
    OneMore(a, n);
    OneMore(a + "/" + n, "..");
    StateOf(a);
    assert Init(s.stack + [n]) == s.stack;
    if s.stack != [] { RenderEnds(s.stack); }
    assert Normal(a + "/" + n + "/..") == AbsoluteText(s.stack, true);
    assert Render(s.stack) + "" == Render(s.stack);
  }

  lemma NormalOfRootUp(a: string)
    requires ResolvePath(a) == []
    ensures Normal(a + "/..") == "/"
  {
    assert a + "/.." == a + "/" + "..";
    OneMore(a, "..");
    StateOf(a);
  }

  // ----- the text of a normalised relative path -----

  lemma {:induction false} RelativeSnoc(stack: seq<string>, cs: seq<string>, c: string)
    ensures ResolveRelative(stack, cs + [c]) == PushRelative(ResolveRelative(stack, cs), c)
    decreases cs
  {
    if cs == [] {
      assert cs + [c] == [c] && [c][1..] == [];
    } else {
      assert (cs + [c])[1..] == cs[1..] + [c];
      RelativeSnoc(PushRelative(stack, cs[0]), cs[1..], c);
    }
  }

  lemma {:induction false} RelativeIsKept(stack: seq<string>, cs: seq<string>)
    requires AllKept(stack) && AllNames(cs)
    ensures AllKept(ResolveRelative(stack, cs))
    decreases cs
  {
    if cs == [] {
    } else {
      assert cs[0] in cs;
      RelativeIsKept(PushRelative(stack, cs[0]), cs[1..]);
    }
  }

  function RelativeStack(path: string): seq<string> { ResolveRelative([], Components(path)) }

  lemma DotIsEmpty(a: string)
    ensures AllKept(RelativeStack(a)) && (NormalRelative(a) == "." <==> RelativeStack(a) == [])
  {
    ComponentsAreNames(a);
    RelativeIsKept([], Components(a));
    if RelativeStack(a) != [] { JoinEnds(RelativeStack(a)); }
  }

  lemma OneMoreRelative(a: string, c: string)
    requires IsName(c)
    ensures RelativeStack(a + "/" + c) == PushRelative(RelativeStack(a), c)
  {
    ComponentsSplit(a, c);
    ComponentsOfOne(c);
    RelativeSnoc([], Components(a), c);
  }

  lemma RelativeOfOne(c: string)
    requires IsName(c)
    ensures RelativeStack(c) == PushRelative([], c)
  {
    ComponentsOfOne(c);
    RelativeSnoc([], [], c);
    assert [] + [c] == [c];
  }

  /** A name or a pair of dots alone is itself; a dot, or nothing, is a dot. */
  lemma RelativeOfName(n: string)
    requires IsPlain(n)
    ensures NormalRelative(n) == n && NormalRelative("..") == ".." && NormalRelative(".") == "." == NormalRelative("")
  {
    RelativeOfOne(n);
    RelativeOfOne("..");
    RelativeOfOne(".");
  }

  lemma RelativeOfMore(a: string, n: string)
    requires IsPlain(n)
    ensures NormalRelative(a + "/" + n) == if NormalRelative(a) == "." then n else NormalRelative(a) + "/" + n
  {
    DotIsEmpty(a);
    OneMoreRelative(a, n);
    assert Init(RelativeStack(a) + [n]) == RelativeStack(a);
  }

  lemma RelativeOfDot(a: string)
    ensures NormalRelative(a + "/.") == NormalRelative(a)
  {
    assert a + "/." == a + "/" + ".";
    OneMoreRelative(a, ".");
    assert RelativeStack(a + "/.") == RelativeStack(a);
  }

  lemma RelativeOfSlash(a: string)
    ensures NormalRelative(a + "/") == NormalRelative(a)
  {
    assert a + "/" == a + "/" + "";
    ComponentsSplit(a, "");
    assert Components(a) + [] == Components(a);
  }

  lemma RelativeOfUp(a: string, n: string)
    requires IsPlain(n)
    ensures NormalRelative(a + "/" + n + "/..") == NormalRelative(a)
  {
    assert a + "/" + n + "/.." == a + "/" + n + "/" + "..";
    OneMoreRelative(a, n);
    OneMoreRelative(a + "/" + n, "..");
    assert Init(RelativeStack(a) + [n]) == RelativeStack(a);
  }
}
