/** normalize_path as it works: one output buffer, written forward and rewound in place. */
module Normalize {
  import opened Common
  import opened Paths

  lemma RenderEnds(stack: seq<string>)
    requires AllPlain(stack) && stack != []
    ensures |Render(stack)| >= 2 && Last(Render(stack)) != '/'
  {
    assert IsPlain(Last(stack));
    assert Last(Render(stack)) == Last(Last(stack));
  }

  lemma InitKeepsPlain(stack: seq<string>)
    requires AllPlain(stack) && stack != []
    ensures AllPlain(Init(stack)) && IsPlain(Last(stack))
  {
  }

  /** Rewind over the name `last`, and a slash behind it, down to the slash before it. */
  method RewindName(out: array<char>, at: nat, ghost front: string, ghost last: string, ghost tail: string)
    returns (i: nat)
    requires 1 < at <= out.Length && out[..at] == front + last + tail && (tail == "" || tail == "/")
    requires front != "" && Last(front) == '/' && last != "" && '/' !in last
    ensures 0 < i <= at && out[..i] == front
  {
    ghost var base := |front|;
    assert out[..at][base - 1] == '/';
    assert forall k :: base <= k < base + |last| ==> out[..at][k] == last[k - base] && last[k - base] in last;
    i := at - 1;
    while i > 1 && out[i - 1] != '/'
      invariant base <= i < at
    {
      i := i - 1;
    }
    assert out[..i] == out[..at][..base];
  }

  /** The last component of an absolute path is removed; the slash before it stays. */
  method RewindAbsolute(out: array<char>, at: nat, ghost s: State) returns (i: nat)
    requires 1 < at <= out.Length && AllPlain(s.stack) && out[..at] == TextOf(s)
    ensures 0 < i <= at && s.stack != [] && out[..i] == AbsoluteText(Init(s.stack), true)
  {
    ghost var front, last, tail := AbsoluteText(Init(s.stack), true), Last(s.stack), if s.slash then "/" else "";
    InitKeepsPlain(s.stack);
    assert TextOf(s) == front + last + tail;
    i := RewindName(out, at, front, last, tail);
  }

  predicate AllKept(cs: seq<string>) { forall c :: c in cs ==> IsName(c) && c != "." }

  lemma JoinEnds(stack: seq<string>)
    requires AllKept(stack) && stack != []
    ensures var t := Join(stack); var last := Last(stack);
            |t| >= |last| > 0 && t[|t| - |last|..] == last
            && |t| - |last| == (if |stack| == 1 then 0 else |Join(Init(stack))| + 1)
            && t[..|t| - |last|] == (if |stack| == 1 then "" else Join(Init(stack)) + "/")
            && Last(t) != '/' && !(Last(t) == '.' && (|t| < 2 || t[|t| - 2] == '/'))
  {
    var t, last := Join(stack), Last(stack);
    assert IsName(last) && last != ".";
    var k := |t| - |last|;
    assert forall m :: 0 <= m < |last| ==> t[k + m] == last[m];
    assert Last(t) == Last(last);
    if |last| == 1 { assert last == [last[0]]; } else { assert t[|t| - 2] == last[|last| - 2]; }
  }

  /** Rewind over the last component of a relative path and the slash before it. */
  method RewindRelative(out: array<char>, at: nat, ghost stack: seq<string>) returns (i: nat)
    requires 0 < at <= out.Length && AllKept(stack) && stack != [] && out[..at] == Join(stack)
    ensures i <= at && out[..i] == Join(Init(stack))
  {
    JoinEnds(stack);
    ghost var last := Last(stack);
    ghost var base := at - |last|;
    assert IsName(last);
    assert forall k :: base <= k < at ==>
      out[k] == out[..at][base..][k - base] == last[k - base] && last[k - base] in last;
    assert base > 0 ==> out[..at][..base][base - 1] == '/';
    i := at - 1;
    while i > 0 && out[i - 1] != '/'
      invariant base <= i < at
    {
      i := i - 1;
    }
    assert out[..i] == out[..at][..base];
    if i > 0 {
      i := i - 1;
      assert out[..i] == out[..at][..base][..i];
    }
    assert |stack| == 1 ==> Join(Init(stack)) == "";
  }

  method Append(out: array<char>, at: nat, text: string) returns (i: nat)
    requires at + |text| <= out.Length
    modifies out
    ensures i == at + |text| && out[..i] == old(out[..at]) + text
  {
    for k := 0 to |text|
      invariant out[..at] == old(out[..at]) && out[at..at + k] == text[..k]
    {
      out[at + k] := text[k];
    }
    i := at + |text|;
    assert out[..i] == out[..at] + out[at..i];
  }

  /** Append a name, after a slash unless the buffer is empty or ends in one. */
  method PutName(out: array<char>, at: nat, c: string) returns (i: nat)
    requires at + |c| <= out.Length && (at > 0 && out[at - 1] != '/' ==> at + |c| < out.Length)
    modifies out
    ensures i == at + |c| + (if at > 0 && old(out[at - 1]) != '/' then 1 else 0) <= out.Length
    ensures out[..i] == old(out[..at]) + (if at > 0 && old(out[at - 1]) != '/' then "/" else "") + c
  {
    i := at;
    if i > 0 && out[i - 1] != '/' { i := Append(out, i, "/"); }
    i := Append(out, i, c);
  }

  /** The rewind of an absolute path: at the root there is nothing to remove. */
  method PopAbsolute(out: array<char>, at: nat, ghost s: State) returns (i: nat)
    requires 0 < at <= out.Length && AllPlain(s.stack) && out[..at] == TextOf(s)
    ensures 0 < i <= at
    ensures AllPlain(Feed(s, "..").stack) && out[..i] == TextOf(Feed(s, ".."))
  {
    if at <= 1 {
      if s.stack != [] { RenderEnds(s.stack); }
      return at;
    }
    i := RewindAbsolute(out, at, s);
    InitKeepsPlain(s.stack);
  }

  lemma PushedText(s: State, c: string)
    requires AllPlain(s.stack) && IsPlain(c)
    ensures AllPlain(Feed(s, c).stack)
    ensures TextOf(Feed(s, c)) == TextOf(s) + (if Last(TextOf(s)) != '/' then "/" else "") + c
  {
    assert Init(s.stack + [c]) == s.stack && Last(s.stack + [c]) == c;
    assert Render([]) == "" && Render(s.stack + [c]) == Render(s.stack) + "/" + c;
    if s.stack != [] { RenderEnds(s.stack); }
    hide Render;
    assert Render(s.stack) + "" == Render(s.stack);
  }

  /** One component of an absolute path. */
  method FeedAbsolute(out: array<char>, at: nat, c: string, ghost s: State) returns (i: nat)
    requires 0 < at <= out.Length && AllPlain(s.stack) && out[..at] == TextOf(s) && IsName(c)
    requires at + |c| <= out.Length && (out[at - 1] != '/' ==> at + |c| < out.Length)
    modifies out
    ensures 0 < i <= at + |c| + (if old(out[at - 1]) != '/' then 1 else 0) && i <= out.Length
    ensures AllPlain(Feed(s, c).stack) && out[..i] == TextOf(Feed(s, c))
  {
    if |c| == 1 && c[0] == '.' {
      assert c == ".";
      return at;
    } else if |c| == 2 && c[0] == '.' && c[1] == '.' {
      assert c == "..";
      i := PopAbsolute(out, at, s);
    } else {
      assert Last(out[..at]) == out[at - 1];
      PushedText(s, c);
      i := PutName(out, at, c);
    }
  }

  /** One component of a relative path. */
  method FeedRelative(out: array<char>, at: nat, c: string, ghost stack: seq<string>) returns (i: nat)
    requires AllKept(stack) && at <= out.Length && out[..at] == Join(stack) && IsName(c)
    requires at + |c| <= out.Length && (at > 0 ==> at + |c| < out.Length)
    modifies out
    ensures i <= at + |c| + (if at > 0 then 1 else 0)
    ensures i <= out.Length
    ensures AllKept(PushRelative(stack, c)) && out[..i] == Join(PushRelative(stack, c))
  {
    if stack != [] { JoinEnds(stack); }
    if |c| == 1 && c[0] == '.' {
      return at;
    } else if |c| == 2 && c[0] == '.' && c[1] == '.' {
      assert c == "..";
      if at > 0 && !(out[at - 1] == '.' && (at < 2 || out[at - 2] == '/')) {
        i := RewindRelative(out, at, stack);
      } else {
        i := at;
        if i > 0 { assert false; }  // nothing kept ends in a '.' component
        i := Append(out, i, "..");
      }
    } else {
      i := PutName(out, at, c);
      assert Init(stack + [c]) == stack;
    }
  }

  /** What the buffer stands for while a path is read. */
  datatype Buffer = Absolute(s: State) | Relative(stack: seq<string>)

  ghost predicate BufferOk(b: Buffer) { if b.Absolute? then AllPlain(b.s.stack) else AllKept(b.stack) }

  function BufferText(b: Buffer): string { if b.Absolute? then TextOf(b.s) else Join(b.stack) }

  function BufferFeed(b: Buffer, c: string): Buffer {
    if b.Absolute? then Absolute(Feed(b.s, c)) else Relative(PushRelative(b.stack, c))
  }

  function BufferEnd(b: Buffer, cs: seq<string>): Buffer {
    if b.Absolute? then Absolute(FeedAll(b.s, cs)) else Relative(ResolveRelative(b.stack, cs))
  }

  method FeedBuffer(out: array<char>, at: nat, isAbsolute: bool, c: string, ghost b: Buffer) returns (i: nat)
    requires b.Absolute? == isAbsolute && BufferOk(b) && IsName(c)
    requires at <= out.Length && out[..at] == BufferText(b) && (isAbsolute ==> at > 0)
    requires at + |c| <= out.Length && (at > 0 && out[at - 1] != '/' ==> at + |c| < out.Length)
    modifies out
    ensures i <= at + |c| + (if at > 0 && old(out[at - 1]) != '/' then 1 else 0) && i <= out.Length
    ensures isAbsolute ==> i > 0
    ensures BufferOk(BufferFeed(b, c)) && out[..i] == BufferText(BufferFeed(b, c))
  {
    if isAbsolute {
      i := FeedAbsolute(out, at, c, b.s);
    } else {
      if b.stack != [] {
        JoinEnds(b.stack);
        assert Last(out[..at]) == out[at - 1];
      }
      i := FeedRelative(out, at, c, b.stack);
    }
  }

  function StartBuffer(path: string): Buffer {
    if path != "" && path[0] == '/' then Absolute(State([], false)) else Relative([])
  }

  /** The buffer holds `text` when path[..p] has been read; a component only starts behind a slash,
      so there is always room for the slash that may have to be written before it. */
  ghost predicate Reading(path: string, p: nat, text: string, b: Buffer) {
    && p <= |path|
    && (p == 0 ==> |text| == if b.Absolute? then 1 else 0)
    && (p > 0 ==> |text| <= p)
    && (p > 0 && path[p - 1] == '/' && text != "" && Last(text) != '/' ==> |text| < p)
    && (0 < p < |path| && path[p - 1] != '/' ==> path[p] == '/')
    && BufferOk(b) && text == BufferText(b) && (b.Absolute? ==> text != "")
    && BufferEnd(b, Components(path[p..])) == BufferEnd(StartBuffer(path), Components(path))
  }

  lemma ReadSlash(path: string, p: nat, text: string, b: Buffer)
    requires Reading(path, p, text, b) && p < |path| && path[p] == '/'
    ensures Reading(path, p + 1, text, b)
  {
    assert path[p..][1..] == path[p + 1..];
  }

  lemma ReadName(path: string, start: nat, p: nat, text: string, b: Buffer, c: string, now: string)
    requires Reading(path, start, text, b)
    requires start < p <= |path| && c == path[start..p] && '/' !in c && (p < |path| ==> path[p] == '/')
    requires BufferOk(BufferFeed(b, c)) && now == BufferText(BufferFeed(b, c)) && (b.Absolute? ==> now != "")
    requires |now| <= |text| + |c| + (if text != "" && Last(text) != '/' then 1 else 0)
    ensures Reading(path, p, now, BufferFeed(b, c))
  {
    var rest := Components(path[p..]);
    assert path[start..] == c + path[p..];
    ComponentsOfName(c, path[p..]);
    assert ([c] + rest)[1..] == rest;
    assert c[0] == path[start] && path[p - 1] == c[|c| - 1];
  }

  /** The inner loop: to the end of the component. */
  method NextName(path: string, start: nat) returns (p: nat, c: string)
    requires start < |path| && path[start] != '/'
    ensures start < p <= |path| && c == path[start..p] && '/' !in c && (p < |path| ==> path[p] == '/')
  {
    p := start;
    while p < |path| && path[p] != '/'
      invariant start <= p <= |path| && '/' !in path[start..p]
    {
      p := p + 1;
    }
    c := path[start..p];
  }

  /** A component goes into the buffer. */
  method ReadComponent(path: string, out: array<char>, p: nat, i: nat, isAbsolute: bool, ghost b: Buffer)
    returns (p': nat, i': nat, ghost b': Buffer)
    requires b.Absolute? == isAbsolute && out.Length == |path| + 2 && i <= out.Length
    requires p < |path| && path[p] != '/' && Reading(path, p, out[..i], b)
    modifies out
    ensures b'.Absolute? == isAbsolute && p < p' && i' <= out.Length && Reading(path, p', out[..i'], b')
  {
    ghost var text := out[..i];
    var c;
    p', c := NextName(path, p);
    assert text != "" ==> Last(text) == out[i - 1];
    i' := FeedBuffer(out, i, isAbsolute, c, b);
    b' := BufferFeed(b, c);
    ReadName(path, p, p', text, b, c, out[..i']);
  }

  /** One turn of the main loop: a slash is skipped, a component is read. */
  method ReadOne(path: string, out: array<char>, p: nat, i: nat, isAbsolute: bool, ghost b: Buffer)
    returns (p': nat, i': nat, ghost b': Buffer)
    requires b.Absolute? == isAbsolute && out.Length == |path| + 2 && i <= out.Length
    requires p < |path| && Reading(path, p, out[..i], b)
    modifies out
    ensures b'.Absolute? == isAbsolute && p < p' && i' <= out.Length && Reading(path, p', out[..i'], b')
  {
    if path[p] == '/' {
      ReadSlash(path, p, out[..i], b);
      p', i', b' := p + 1, i, b;
    } else {
      p', i', b' := ReadComponent(path, out, p, i, isAbsolute, b);
    }
  }

  /** The main loop: read the path component by component into the buffer. */
  method ReadPath(path: string, out: array<char>, isAbsolute: bool) returns (i: nat)
    requires isAbsolute == (path != "" && path[0] == '/') && out.Length == |path| + 2
    modifies out
    ensures var end := BufferEnd(StartBuffer(path), Components(path));
            i <= |path| && BufferOk(end) && out[..i] == BufferText(end) && (isAbsolute ==> i > 0)
  {
    ghost var b := StartBuffer(path);
    var p: nat := 0;
    i := 0;
    if isAbsolute { i := Append(out, i, "/"); }
    assert path[0..] == path;
    while p < |path|
      invariant i <= out.Length && b.Absolute? == isAbsolute && Reading(path, p, out[..i], b)
      decreases |path| - p
    {
      p, i, b := ReadOne(path, out, p, i, isAbsolute, b);
    }
    assert path[p..] == "";
  }

  /** normalize_path: the result is the text out[..len], terminated inside strlen + 2 bytes. */
  method NormalizePath(path: string) returns (out: array<char>, len: nat)
    ensures fresh(out) && out.Length == |path| + 2 && len <= |path| + 1 && out[len] == '\0'
    ensures out[..len] == if path != "" && path[0] == '/' then Normal(path) else NormalRelative(path)
  {
    out := new char[|path| + 2];
    var i := ReadPath(path, out, path != "" && path[0] == '/');
    ghost var end := BufferEnd(StartBuffer(path), Components(path));
    if end.Relative? && end.stack != [] { JoinEnds(end.stack); }
    if i == 0 { i := Append(out, i, "."); }
    out[i] := '\0';
    len := i;
  }
}
