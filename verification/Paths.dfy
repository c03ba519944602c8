/** Lexical resolution of slash-separated paths (compare section 4.13 of POSIX.1-2017, Base
    Definitions): components, the stack they are folded onto, and the text of a stack. */
module Paths {
  import opened Common

  // ----- components -----

  /** Length of the text before the first slash. */
  function NameLength(s: string): (n: nat)
    ensures n <= |s| && '/' !in s[..n] && (n < |s| ==> s[n] == '/')
  {
    if s == "" || s[0] == '/' then 0 else 1 + NameLength(s[1..])
  }

  function Components(s: string): seq<string>
    decreases |s|
  {
    if s == "" then []
    else if s[0] == '/' then Components(s[1..])
    else var n := NameLength(s); [s[..n]] + Components(s[n..])
  }

  predicate IsName(c: string) { c != "" && '/' !in c }

  predicate AllNames(cs: seq<string>) { forall c :: c in cs ==> IsName(c) }

  /** What the stack of an absolute path consists of. */
  predicate IsPlain(c: string) { IsName(c) && c != "." && c != ".." }

  predicate AllPlain(cs: seq<string>) { forall c :: c in cs ==> IsPlain(c) }

  lemma {:induction false} ComponentsAreNames(s: string)
    ensures AllNames(Components(s))
    decreases |s|
  {
    if s == "" {
    } else if s[0] == '/' {
      ComponentsAreNames(s[1..]);
    } else {
      ComponentsAreNames(s[NameLength(s)..]);
    }
  }

  lemma {:induction false} NameLengthOfPrefix(a: string, b: string)
    requires '/' !in a && (b == "" || b[0] == '/')
    ensures NameLength(a + b) == |a|
  {
    if a == "" {
      assert a + b == b;
    } else {
      assert (a + b)[1..] == a[1..] + b;
      NameLengthOfPrefix(a[1..], b);
    }
  }

  lemma ComponentsOfName(a: string, b: string)
    requires IsName(a) && (b == "" || b[0] == '/')
    ensures Components(a + b) == [a] + Components(b)
  {
    NameLengthOfPrefix(a, b);
    assert (a + b)[..|a|] == a && (a + b)[|a|..] == b;
    assert (a + b)[0] == a[0] && a[0] in a;
  }

  /** A slash separates: the components of a text are those left of it and those right of it. */
  lemma {:induction false} ComponentsSplit(a: string, b: string)
    ensures Components(a + "/" + b) == Components(a) + Components(b)
    decreases |a|
  {
    var s := a + "/" + b;
    if a == "" {
      assert s[1..] == b;
    } else if a[0] == '/' {
      assert s[1..] == a[1..] + "/" + b;
      ComponentsSplit(a[1..], b);
    } else {
      var n := NameLength(a);
      var name, rest := a[..n], a[n..];
      assert name[0] == a[0];
      assert a == name + rest && s == name + (rest + "/" + b);
      ComponentsOfName(name, rest + "/" + b);
      ComponentsOfName(name, rest);
      ComponentsSplit(rest, b);
    }
  }

  lemma ComponentsOfOne(s: string)
    requires '/' !in s
    ensures Components(s) == if s == "" then [] else [s]
  {
    if s != "" {
      ComponentsOfName(s, "");
      assert s + "" == s;
    }
  }

  // ----- the stack -----

  /** Absolute paths: '.' is skipped, '..' pops and never leaves the root. */
  function Push(stack: seq<string>, c: string): seq<string> {
    if c == "." then stack
    else if c == ".." then if stack == [] then [] else Init(stack)
    else stack + [c]
  }

  function Resolve(stack: seq<string>, cs: seq<string>): seq<string>
    decreases cs
  {
    if cs == [] then stack else Resolve(Push(stack, cs[0]), cs[1..])
  }

  lemma ResolveOne(stack: seq<string>, c: string)
    ensures Resolve(stack, [c]) == Push(stack, c)
  {
    assert [c][1..] == [];
  }

  lemma {:induction false} ResolveAppend(stack: seq<string>, a: seq<string>, b: seq<string>)
    ensures Resolve(stack, a + b) == Resolve(Resolve(stack, a), b)
    decreases a
  {
    if a == [] {
      assert a + b == b;
    } else {
      assert (a + b)[1..] == a[1..] + b;
      ResolveAppend(Push(stack, a[0]), a[1..], b);
    }
  }

  lemma {:induction false} ResolveKeepsPlain(stack: seq<string>, cs: seq<string>)
    requires AllPlain(stack) && AllNames(cs)
    ensures AllPlain(Resolve(stack, cs))
    decreases cs
  {
    if cs == [] {
    } else {
      ResolveKeepsPlain(Push(stack, cs[0]), cs[1..]);
    }
  }

  /** Plain components are only ever pushed. */
  lemma {:induction false} ResolvePlain(stack: seq<string>, cs: seq<string>)
    requires AllPlain(cs)
    ensures Resolve(stack, cs) == stack + cs
    decreases cs
  {
    if cs == [] {
    } else {
      assert IsPlain(cs[0]);
      ResolvePlain(stack + [cs[0]], cs[1..]);
      assert stack + [cs[0]] + cs[1..] == stack + cs;
    }
  }

  // ----- the text of a stack -----

  function Render(stack: seq<string>): string {
    if stack == [] then "" else Render(Init(stack)) + "/" + Last(stack)
  }

  /** The buffer of normalize_path for an absolute path; a '..' leaves the slash before the name
      it removed. */
  function AbsoluteText(stack: seq<string>, slash: bool): string {
    if stack == [] then "/" else Render(stack) + (if slash then "/" else "")
  }

  lemma {:induction false} ComponentsOfRender(stack: seq<string>)
    requires AllNames(stack)
    ensures Components(Render(stack)) == stack
    ensures Components(Render(stack) + "/") == stack
  {
    if stack == [] {
    } else {
      var last := Last(stack);
      ComponentsOfRender(Init(stack));
      ComponentsSplit(Render(Init(stack)), last);
      ComponentsOfName(last, "");
      assert last + "" == last;
      assert Init(stack) + [last] == stack;
    }
    ComponentsSplit(Render(stack), "");
    assert Render(stack) + "/" + "" == Render(stack) + "/";
  }

  lemma ComponentsOfAbsoluteText(stack: seq<string>, slash: bool)
    requires AllNames(stack)
    ensures Components(AbsoluteText(stack, slash)) == stack
  {
    ComponentsOfRender(stack);
    assert Render(stack) + "" == Render(stack);
  }

  // ----- normalising an absolute path -----

  /** Fold state: the stack, and whether the text ends in a slash left by a '..'. */
  datatype State = State(stack: seq<string>, slash: bool)

  function Feed(s: State, c: string): State {
    State(Push(s.stack, c), if c == "." then s.slash else c == ".." && s.stack != [])
  }

  function FeedAll(s: State, cs: seq<string>): State
    decreases cs
  {
    if cs == [] then s else FeedAll(Feed(s, cs[0]), cs[1..])
  }

  function TextOf(s: State): string { AbsoluteText(s.stack, s.slash) }

  function Normal(path: string): string {
    TextOf(FeedAll(State([], false), Components(path)))
  }

  lemma {:induction false} FeedAllResolves(s: State, cs: seq<string>)
    ensures FeedAll(s, cs).stack == Resolve(s.stack, cs)
    decreases cs
  {
    if cs == [] {
    } else {
      FeedAllResolves(Feed(s, cs[0]), cs[1..]);
    }
  }

  function ResolvePath(path: string): seq<string> { Resolve([], Components(path)) }

  lemma ResolvedIsPlain(path: string)
    ensures AllPlain(ResolvePath(path))
  {
    ComponentsAreNames(path);
    ResolveKeepsPlain([], Components(path));
  }

  /** The last component that is not '.', or nothing. */
  function Effective(cs: seq<string>): string {
    if cs == [] then "" else if Last(cs) == "." then Effective(Init(cs)) else Last(cs)
  }

  lemma {:induction false} FeedAllSnoc(s: State, cs: seq<string>, c: string)
    ensures FeedAll(s, cs + [c]) == Feed(FeedAll(s, cs), c)
    decreases cs
  {
    if cs == [] {
      assert cs + [c] == [c] && [c][1..] == [];
    } else {
      assert (cs + [c])[1..] == cs[1..] + [c];
      FeedAllSnoc(Feed(s, cs[0]), cs[1..], c);
    }
  }

  /** A trailing slash appears exactly when the last effective component is a '..' and something is
      left to stand before it. */
  lemma {:induction false} SlashIff(cs: seq<string>)
    ensures var s := FeedAll(State([], false), cs);
            s.stack != [] ==> (s.slash <==> Effective(cs) == "..")
    decreases cs
  {
    if cs == [] {
    } else {
      SlashIff(Init(cs));
      FeedAllSnoc(State([], false), Init(cs), Last(cs));
      assert Init(cs) + [Last(cs)] == cs;
    }
  }

  /** Normalising an absolute path: the components of the result are the stack fold of the
      components of the path, and the text is a slash before each of them, plus one at the end
      exactly after a final '..' that leaves something. */
  lemma NormalForm(path: string)
    ensures Components(Normal(path)) == ResolvePath(path)
    ensures Normal(path) == AbsoluteText(ResolvePath(path), Effective(Components(path)) == "..")
  {
    FeedAllResolves(State([], false), Components(path));
    SlashIff(Components(path));
    ResolvedIsPlain(path);
    var s := FeedAll(State([], false), Components(path));
    ComponentsOfAbsoluteText(s.stack, s.slash);
  }

  /** Resolving a + "/" + b is resolving b from where a leads. */
  lemma ResolveComposes(a: string, b: string)
    ensures ResolvePath(a + "/" + b) == Resolve(ResolvePath(a), Components(b))
  {
    ComponentsSplit(a, b);
    ResolveAppend([], Components(a), Components(b));
  }

  /** One more name below a path. */
  lemma ResolveBelow(dir: string, last: string)
    requires '/' !in last
    ensures ResolvePath(dir + "/" + last) == if last == "" then ResolvePath(dir) else Push(ResolvePath(dir), last)
  {
    ResolveComposes(dir, last);
    ComponentsOfOne(last);
    ResolveOne(ResolvePath(dir), last);
  }

  /** Normalising again changes no component, and a third time changes no byte; the second time
      drops the trailing slash, if there is one. */
  lemma NormalIsStable(path: string)
    ensures ResolvePath(Normal(path)) == ResolvePath(path)
    ensures Normal(Normal(path)) == AbsoluteText(ResolvePath(path), false)
    ensures Normal(Normal(Normal(path))) == Normal(Normal(path))
    ensures Normal(Normal(path)) == Normal(path) <==>
              ResolvePath(path) == [] || Effective(Components(path)) != ".."
  {
    var r := ResolvePath(path);
    ResolvedIsPlain(path);
    NormalForm(path);
    ResolvePlain([], r);
    NormalForm(Normal(path));
    assert [] + r == r;
    if r != [] { assert IsPlain(Last(r)); }
    NormalForm(Normal(Normal(path)));
  }

  // ----- normalising a relative path -----

  /** Relative paths: a '..' with nothing to remove is kept, but a kept one can be removed again. */
  function PushRelative(stack: seq<string>, c: string): seq<string> {
    if c == "." then stack
    else if c == ".." && stack != [] then Init(stack)
    else stack + [c]
  }

  function ResolveRelative(stack: seq<string>, cs: seq<string>): seq<string>
    decreases cs
  {
    if cs == [] then stack else ResolveRelative(PushRelative(stack, cs[0]), cs[1..])
  }

  function Join(stack: seq<string>): string {
    if stack == [] then "" else if |stack| == 1 then stack[0] else Join(Init(stack)) + "/" + Last(stack)
  }

  function NormalRelative(path: string): string {
    var r := ResolveRelative([], Components(path));
    if r == [] then "." else Join(r)
  }

  /** Lexical resolution with every unmatched '..' kept: how many of them, and the names after. */
  datatype Climb = Climb(ups: nat, names: seq<string>)

  function ClimbBy(k: Climb, c: string): Climb {
    if c == "." then k
    else if c != ".." then k.(names := k.names + [c])
    else if k.names == [] then k.(ups := k.ups + 1)
    else k.(names := Init(k.names))
  }

  function ClimbAll(k: Climb, cs: seq<string>): Climb
    decreases cs
  {
    if cs == [] then k else ClimbAll(ClimbBy(k, cs[0]), cs[1..])
  }

  function Ups(n: nat): seq<string> { seq(n, _ => "..") }

  lemma {:induction false} RelativeIsParity(k: Climb, cs: seq<string>)
    ensures ResolveRelative(Ups(k.ups % 2) + k.names, cs)
            == var e := ClimbAll(k, cs); Ups(e.ups % 2) + e.names
    decreases cs
  {
    if cs == [] {
    } else {
      var c, k', stack := cs[0], ClimbBy(k, cs[0]), Ups(k.ups % 2) + k.names;
      assert PushRelative(stack, c) == Ups(k'.ups % 2) + k'.names;
      RelativeIsParity(k', cs[1..]);
    }
  }

  lemma UpsDiffer(a: nat, b: nat, names: seq<string>)
    requires Ups(a) + names == Ups(b) + names
    ensures a == b
  {
    assert |Ups(a) + names| == a + |names| && |Ups(b) + names| == b + |names|;
  }

  /** On relative paths the program keeps only the parity of the unmatched '..': its result is the
      lexical normal form exactly when there is at most one. */
  lemma RelativeIsLexicalIff(path: string)
    ensures var k := ClimbAll(Climb(0, []), Components(path));
            ResolveRelative([], Components(path)) == Ups(k.ups) + k.names <==> k.ups <= 1
  {
    var k := ClimbAll(Climb(0, []), Components(path));
    assert Ups(0) + [] == [];
    RelativeIsParity(Climb(0, []), Components(path));
    if Ups(k.ups % 2) + k.names == Ups(k.ups) + k.names { UpsDiffer(k.ups % 2, k.ups, k.names); }
  }

  /** "../.." comes out as ".". */
  lemma TwoUpsCancel()
    ensures NormalRelative("../..") == "."
  {
    var s := "../..";
    assert s == ".." + "/..";
    ComponentsOfName("..", "/..");
    assert "/.."[1..] == "..";
    ComponentsOfName("..", "");
    assert ".." + "" == "..";
    assert Components(s) == ["..", ".."];
    assert ["..", ".."][1..] == [".."];
  }
}
