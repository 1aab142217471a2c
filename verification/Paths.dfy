/** Path names: the reading of a path as a list of components, and the normalisation
    in place (normalize_path) against it. */
module Paths {

  // ---------------------------------------------------------------- components

  /** The length of the leading run without a slash. */
  function Span(s: string): (n: nat)
    ensures n <= |s|
    ensures '/' !in s[..n]
    ensures n < |s| ==> s[n] == '/'
  {
    if s == "" || s[0] == '/' then 0
    else
      var n := 1 + Span(s[1..]);
      assert s[..n] == [s[0]] + s[1..][..n - 1];
      n
  }

  /** The spans between slashes, from left to right. */
  function Components(s: string): seq<string>
    decreases |s|
  {
    if s == "" then []
    else if s[0] == '/' then Components(s[1..])
    else [s[..Span(s)]] + Components(s[Span(s)..])
  }

  predicate IsDot(c: string) { c == "." }
  predicate IsDotDot(c: string) { c == ".." }

  function Pop(stack: seq<string>): seq<string> {
    if stack == [] then [] else stack[..|stack| - 1]
  }

  /** Skip ".", let ".." remove a component, clamped at the root. */
  function Clamped(stack: seq<string>, comps: seq<string>): seq<string>
    decreases |comps|
  {
    if comps == [] then stack
    else
      var c := comps[0];
      Clamped(if IsDot(c) then stack else if IsDotDot(c) then Pop(stack) else stack + [c], comps[1..])
  }

  predicate Clean(c: string) {
    c != "" && '/' !in c && !IsDot(c) && !IsDotDot(c)
  }

  predicate AllClean(comps: seq<string>) {
    forall i :: 0 <= i < |comps| ==> Clean(comps[i])
  }

  lemma SpanPrefix(c: string, rest: string)
    requires '/' !in c && (rest == "" || rest[0] == '/')
    ensures Span(c + rest) == |c|
  {
    hide Span;
    var s := c + rest;
    var n := Span(s);
    forall i | 0 <= i < n ensures s[i] != '/' {
      assert s[i] == s[..n][i];
    }
    assert forall i :: 0 <= i < |c| ==> s[i] == c[i] && c[i] in c;
    assert rest != "" ==> s[|c|] == rest[0];
  }

  /** A component at the front of a path. */
  lemma ComponentsHead(c: string, rest: string)
    requires c != "" && '/' !in c && (rest == "" || rest[0] == '/')
    ensures Components(c + rest) == [c] + Components(rest)
  {
    SpanPrefix(c, rest);
    var s := c + rest;
    assert s[0] == c[0] && c[0] in c;
    assert s[..|c|] == c && s[|c|..] == rest;
  }

  // ------------------------------------------------- normalisation, as a function

  /** Every component followed by a slash. */
  function Tail(stack: seq<string>): string {
    if stack == [] then "" else stack[0] + "/" + Tail(stack[1..])
  }

  /** The directory prefix that the components spell. */
  function Dir(stack: seq<string>): string {
    "/" + Tail(stack)
  }

  /** What normalisation makes of the rest s of a path after the directory spelt by
      stack: the directories in the end and the file name after the last slash. */
  function Walk(stack: seq<string>, s: string): (seq<string>, string)
    decreases |s|
  {
    if s == "" then (stack, "")
    else if s[0] == '/' then Walk(stack, s[1..])
    else
      var n := Span(s);
      var c, rest := s[..n], s[n..];
      if IsDot(c) then Walk(stack, rest)
      else if IsDotDot(c) then Walk(Pop(stack), rest)
      else if rest == "" then (stack, c)
      else Walk(stack + [c], rest)
  }

  function Text(w: (seq<string>, string)): string {
    Dir(w.0) + w.1
  }

  /** normalize_path in path mode. */
  function Normalized(s: string): string {
    Text(Walk([], s))
  }

  lemma {:induction false} TailSnoc(stack: seq<string>, c: string)
    ensures Tail(stack + [c]) == Tail(stack) + c + "/"
  {
    if stack == [] {
      assert stack + [c] == [c] && [c][1..] == [];
      assert Tail([c]) == c + "/" + Tail([]);
    } else {
      assert (stack + [c])[0] == stack[0] && (stack + [c])[1..] == stack[1..] + [c];
      TailSnoc(stack[1..], c);
    }
  }

  lemma DirSnoc(stack: seq<string>, c: string)
    ensures Dir(stack + [c]) == Dir(stack) + c + "/"
  {
    TailSnoc(stack, c);
  }

  /** The walk computes the clamped fold, and keeps the stack clean. */
  lemma {:induction false} WalkIsClamped(stack: seq<string>, s: string)
    requires AllClean(stack)
    ensures var (dirs, file) := Walk(stack, s);
      && AllClean(dirs) && (file != "" ==> Clean(file))
      && Clamped(stack, Components(s)) == dirs + (if file == "" then [] else [file])
    decreases |s|
  {
    if s == "" {
      assert stack + [] == stack;
    } else if s[0] == '/' {
      WalkIsClamped(stack, s[1..]);
    } else {
      var n := Span(s);
      assert n > 0 by { assert s[0] == s[..1][0]; }
      var c, rest := s[..n], s[n..];
      var comps := Components(s);
      assert comps[0] == c && comps[1..] == Components(rest);
      if IsDot(c) {
        WalkIsClamped(stack, rest);
      } else if IsDotDot(c) {
        WalkIsClamped(Pop(stack), rest);
      } else if rest == "" {
        assert Components(rest) == [];
        assert Clamped(stack + [c], []) == stack + [c];
      } else {
        WalkIsClamped(stack + [c], rest);
      }
    }
  }

  lemma ComponentsSlash(rest: string)
    ensures Components("/" + rest) == Components(rest)
  {
    assert ("/" + rest)[1..] == rest;
  }

  lemma TailStep(stack: seq<string>, file: string)
    requires AllClean(stack) && stack != []
    ensures Tail(stack) + file == stack[0] + ("/" + (Tail(stack[1..]) + file))
    ensures Clean(stack[0]) && stack[0] != "" && '/' !in stack[0] && AllClean(stack[1..])
  {
    assert Clean(stack[0]);
  }

  /** Reading a normalised path gives the components it was made of. */
  lemma {:induction false} ComponentsOfTail(stack: seq<string>, file: string)
    requires AllClean(stack) && (file != "" ==> Clean(file))
    ensures Components(Tail(stack) + file) == stack + (if file == "" then [] else [file])
  {
    hide Components, AllClean;
    if stack == [] {
      assert Tail(stack) + file == file;
      assert Components("") == [] by { NoComponents(); }
      if file != "" {
        ComponentsHead(file, "");
        assert file + "" == file;
      }
    } else {
      var rest := Tail(stack[1..]) + file;
      TailStep(stack, file);
      ComponentsHead(stack[0], "/" + rest);
      ComponentsSlash(rest);
      ComponentsOfTail(stack[1..], file);
    }
  }

  lemma NoComponents()
    ensures Components("") == []
  {
  }

  lemma ComponentsOfText(stack: seq<string>, file: string)
    requires AllClean(stack) && (file != "" ==> Clean(file))
    ensures Components(Dir(stack) + file) == stack + (if file == "" then [] else [file])
  {
    ComponentsOfTail(stack, file);
    var t := Tail(stack) + file;
    assert Dir(stack) + file == "/" + t && ("/" + t)[1..] == t;
  }

  /** Normalisation yields exactly the components of the clamped fold. */
  lemma NormalizedComponents(s: string)
    ensures Components(Normalized(s)) == Clamped([], Components(s))
    ensures AllClean(Clamped([], Components(s)))
    ensures Normalized(s) != "" && Normalized(s)[0] == '/'
  {
    WalkIsClamped([], s);
    var (dirs, file) := Walk([], s);
    ComponentsOfText(dirs, file);
  }

  /** The walk over a clean component at the front. */
  lemma WalkComponent(stack: seq<string>, c: string, rest: string)
    requires Clean(c) && (rest == "" || rest[0] == '/')
    ensures Walk(stack, c + rest) == if rest == "" then (stack, c) else Walk(stack + [c], rest)
  {
    var s := c + rest;
    SpanPrefix(c, rest);
    assert s[0] == c[0] && c[0] in c;
    assert s[..|c|] == c && s[|c|..] == rest;
  }

  lemma WalkFile(stack: seq<string>, file: string)
    requires file != "" ==> Clean(file)
    ensures Walk(stack, file) == (stack, file)
  {
    if file != "" {
      WalkComponent(stack, file, "");
      assert file + "" == file;
    }
  }

  lemma WalkSlash(stack: seq<string>, t: string)
    ensures Walk(stack, "/" + t) == Walk(stack, t)
  {
    assert ("/" + t)[1..] == t;
  }

  lemma {:induction false} WalkOverTail(stack: seq<string>, more: seq<string>, file: string)
    requires AllClean(more) && (file != "" ==> Clean(file))
    ensures Walk(stack, Tail(more) + file) == (stack + more, file)
    decreases |more|
  {
    hide Walk, Span, Clean, AllClean;
    if more == [] {
      assert Tail(more) + file == file && stack + more == stack;
      WalkFile(stack, file);
    } else {
      var t := Tail(more[1..]) + file;
      TailStep(more, file);
      WalkComponent(stack, more[0], "/" + t);
      WalkSlash(stack + [more[0]], t);
      WalkOverTail(stack + [more[0]], more[1..], file);
      assert stack + [more[0]] + more[1..] == stack + more;
    }
  }

  /** Normalising twice is normalising once. */
  lemma Idempotent(s: string)
    ensures Normalized(Normalized(s)) == Normalized(s)
  {
    WalkIsClamped([], s);
    var (dirs, file) := Walk([], s);
    var t := Tail(dirs) + file;
    assert Normalized(s) == "/" + t && ("/" + t)[1..] == t;
    WalkOverTail([], dirs, file);
    assert [] + dirs == dirs;
  }

  /** The path names a directory: nothing, "." or ".." comes after its last slash. */
  predicate EndsInDirectory(s: string) {
    var n := |s|;
    || n == 0 || s[n - 1] == '/'
    || (s[n - 1] == '.' && (n == 1 || s[n - 2] == '/'))
    || (n >= 2 && s[n - 1] == '.' && s[n - 2] == '.' && (n == 2 || s[n - 3] == '/'))
  }

  lemma EndsBehind(s: string, k: nat)
    requires k < |s| && s[k] == '/'
    ensures EndsInDirectory(s) <==> EndsInDirectory(s[k..])
  {
    var r := s[k..];
    assert r[|r| - 1] == s[|s| - 1];
    assert |r| >= 2 ==> r[|r| - 2] == s[|s| - 2];
    assert |r| >= 3 ==> r[|r| - 3] == s[|s| - 3];
  }

  lemma EndsBehindSlash(s: string)
    requires s != "" && s[0] == '/'
    ensures EndsInDirectory(s) <==> EndsInDirectory(s[1..])
  {
    var r := s[1..];
    assert |r| >= 1 ==> r[|r| - 1] == s[|s| - 1];
    assert |r| >= 2 ==> r[|r| - 2] == s[|s| - 2];
    assert |r| >= 3 ==> r[|r| - 3] == s[|s| - 3];
  }

  lemma EndsComponent(c: string)
    requires c != "" && '/' !in c
    ensures EndsInDirectory(c) <==> IsDot(c) || IsDotDot(c)
  {
    assert forall i :: 0 <= i < |c| ==> c[i] in c;
  }

  lemma {:induction false} WalkEnds(stack: seq<string>, s: string)
    ensures Walk(stack, s).1 == "" <==> EndsInDirectory(s)
    decreases |s|
  {
    hide EndsInDirectory;
    if s == "" {
      assert EndsInDirectory("") by { EmptyEnds(); }
    } else if s[0] == '/' {
      EndsBehindSlash(s);
      WalkEnds(stack, s[1..]);
    } else {
      var n := Span(s);
      var c, rest := s[..n], s[n..];
      assert n > 0;
      if rest == "" {
        assert s == c;
        EndsComponent(c);
      } else {
        EndsBehind(s, n);
        WalkEnds(if IsDot(c) then stack else if IsDotDot(c) then Pop(stack) else stack + [c], rest);
      }
    }
  }

  lemma EmptyEnds()
    ensures EndsInDirectory("")
  {
  }

  /** The normalised path, spelt out: a slash and the resolved components with one slash
      between them, and one at the end exactly if the path names a directory. */
  lemma NormalizedText(s: string)
    ensures var comps := Clamped([], Components(s));
      && (EndsInDirectory(s) ==> Normalized(s) == "/" + Tail(comps))
      && (!EndsInDirectory(s) ==>
           comps != [] && Normalized(s) == "/" + Tail(comps[..|comps| - 1]) + comps[|comps| - 1])
  {
    hide EndsInDirectory, Walk, Components, Clamped;
    WalkEnds([], s);
    WalkIsClamped([], s);
    var (dirs, file) := Walk([], s);
    var comps := Clamped([], Components(s));
    if file == "" {
      assert comps == dirs && Dir(dirs) + "" == Dir(dirs);
    } else {
      assert comps[..|comps| - 1] == dirs && comps[|comps| - 1] == file;
    }
  }

  // ----------------------------------------------------- normalisation, in place

  /** A C string in a buffer: the text up to the terminating zero. */
  predicate Holds(a: seq<char>, len: nat) {
    len < |a| && a[len] == '\0' && '\0' !in a[..len]
  }

  /** What the rewrite still has to produce: the text written so far spells the
      directories of stack and the beginning part of a component; rest is unread. */
  function Remaining(stack: seq<string>, part: string, rest: string): string {
    var n := Span(rest);
    var c, tail := part + rest[..n], rest[n..];
    if tail == "" then Dir(stack) + c else Text(Walk(stack + [c], tail))
  }

  lemma LastClean(stack: seq<string>)
    requires AllClean(stack) && stack != []
    ensures Clean(stack[|stack| - 1])
  {
  }

  /** The position after which the directory above the one just written ends. */
  lemma DropLast(stack: seq<string>, out: string, q: nat)
    requires AllClean(stack) && stack != [] && out == Dir(stack)
    requires |Dir(Pop(stack))| <= q < |out|
    requires forall i :: q <= i < |out| - 1 ==> out[i] != '/'
    ensures q == |Dir(Pop(stack))| || out[q - 1] != '/'
    ensures out[..|Dir(Pop(stack))|] == Dir(Pop(stack)) && out[|Dir(Pop(stack))| - 1] == '/'
  {
    hide Dir, AllClean;
    var last := stack[|stack| - 1];
    LastClean(stack);
    assert stack == Pop(stack) + [last];
    DirSnoc(Pop(stack), last);
    DirEndsWithSlash(Pop(stack));
    var d := |Dir(Pop(stack))|;
    if q > d {
      assert out[q - 1] == last[q - 1 - d];
      assert last[q - 1 - d] in last;
    }
  }

  lemma {:induction false} DirEndsWithSlash(stack: seq<string>)
    ensures Dir(stack)[|Dir(stack)| - 1] == '/'
  {
    if stack != [] {
      var last := stack[|stack| - 1];
      assert stack == stack[..|stack| - 1] + [last];
      DirSnoc(stack[..|stack| - 1], last);
    }
  }

  /** In the buffer a, with the input orig: everything from p on is unread and
      untouched, and what has been written is spelt by stack and part. */
  ghost predicate Rewriting(a: seq<char>, orig: string, p: nat, q: nat, stack: seq<string>, part: string) {
    && |a| > |orig| && q <= p <= |orig|
    && a[p..|orig|] == orig[p..] && a[|orig|] == '\0'
    && AllClean(stack) && '/' !in part
    && a[..q] == Dir(stack) + part
  }

  /** Reading on: the unread input is what is left of the original. */
  lemma ReadOn(b: seq<char>, orig: string, p: nat, q: nat, stack: seq<string>, part: string, k: nat)
    requires Rewriting(b, orig, p, q, stack, part) && p + k <= |orig|
    ensures Rewriting(b, orig, p + k, q, stack, part)
    ensures orig[p..][k..] == orig[p + k..]
  {
    assert b[p + k..|orig|] == b[p..|orig|][k..];
  }

  lemma UnreadAt(b: seq<char>, orig: string, p: nat, q: nat, stack: seq<string>, part: string, i: nat)
    requires Rewriting(b, orig, p, q, stack, part) && p <= i < |orig|
    ensures b[i] == orig[i] == orig[p..][i - p]
  {
    assert b[i] == b[p..|orig|][i - p];
  }

  /** Dot, dot-dot, or anything else at the front of the unread input. */
  lemma WalkDots(stack: seq<string>, rest: string)
    requires rest != "" && rest[0] == '.'
    ensures var c := rest[..Span(rest)];
      && (|rest| == 1 || rest[1] == '/' <==> IsDot(c))
      && (|rest| >= 2 && rest[1] == '.' && (|rest| == 2 || rest[2] == '/') <==> IsDotDot(c))
      && (IsDot(c) ==> Walk(stack, rest) == Walk(stack, rest[1..]))
      && (IsDotDot(c) ==> Walk(stack, rest) == Walk(Pop(stack), rest[2..]))
  {
    var n := Span(rest);
    assert n >= 1;
    var c := rest[..n];
    if |rest| >= 2 && rest[1] != '/' { assert n >= 2; assert c[1] == rest[1]; }
    if |rest| >= 3 && rest[1] != '/' && rest[2] != '/' { assert n >= 3; assert |c| >= 3; }
    if |rest| == 1 || rest[1] == '/' { assert n == 1; assert c == "."; }
    if |rest| >= 2 && rest[1] == '.' && (|rest| == 2 || rest[2] == '/') { assert n == 2; assert c == ".."; }
  }

  lemma WalkNormal(stack: seq<string>, rest: string)
    requires rest == "" || (rest[0] != '/' && Clean(rest[..Span(rest)]))
    ensures Text(Walk(stack, rest)) == Remaining(stack, "", rest)
  {
    if rest != "" {
      var n := Span(rest);
      assert rest == rest[..n] + rest[n..];
      WalkComponent(stack, rest[..n], rest[n..]);
      assert "" + rest[..n] == rest[..n];
    } else {
      assert Dir(stack) + "" == Dir(stack);
    }
  }

  /** Step the write position back over the last directory written, if any. */
  method DropDirectory(a: array<char>, end: nat, ghost stack: seq<string>) returns (q: nat)
    requires end <= a.Length && AllClean(stack) && a[..end] == Dir(stack)
    ensures q <= end && a[..q] == Dir(Pop(stack))
  {
    q := end;
    if q > 1 {
      assert stack != [];
      ghost var d := |Dir(Pop(stack))|;
      DirGrows(stack);
      q := q - 1;
      while q > 0 && a[q - 1] != '/'
        invariant d <= q < end
        invariant forall i :: q <= i < end - 1 ==> a[..end][i] != '/'
      {
        DropLast(stack, a[..end], q);
        q := q - 1;
      }
      DropLast(stack, a[..end], q);
      assert a[..end][..d] == a[..d];
    } else {
      DirGrows(stack);
    }
  }

  lemma DirGrows(stack: seq<string>)
    requires AllClean(stack)
    ensures stack != [] ==> 1 <= |Dir(Pop(stack))| < |Dir(stack)| - 1
  {
    if stack != [] {
      var last := stack[|stack| - 1];
      assert stack == Pop(stack) + [last];
      DirSnoc(Pop(stack), last);
    }
  }

  lemma PopClean(stack: seq<string>)
    requires AllClean(stack)
    ensures AllClean(Pop(stack))
  {
  }

  /** After a slash has been written: skip slashes and dots, drop a directory for
      every dot-dot, and stop at a component to be copied or at the end. */
  method SkipDots(a: array<char>, ghost orig: string, from: nat, end: nat, ghost above: seq<string>)
    returns (p: nat, q: nat, ghost stack: seq<string>)
    requires Rewriting(a[..], orig, from, end, above, "") && '\0' !in orig
    ensures Rewriting(a[..], orig, p, q, stack, "") && from <= p
    ensures Text(Walk(stack, orig[p..])) == Text(Walk(above, orig[from..]))
    ensures p == |orig| || (orig[p] != '/' && Clean(orig[p..][..Span(orig[p..])]))
  {
    p, q, stack := from, end, above;
    var c := '/';
    while c == '/'
      invariant Rewriting(a[..], orig, p, q, stack, "") && from <= p
      invariant Text(Walk(stack, orig[p..])) == Text(Walk(above, orig[from..]))
      invariant c == '/' || c == (if p == |orig| then '\0' else orig[p])
      invariant c != '/' ==> p == |orig| || Clean(orig[p..][..Span(orig[p..])])
      decreases |orig| - p, if c == '/' then 1 else 0
    {
      p := SkipSlashes(a, orig, p, q, stack);
      c := a[p];
      assert a[..][p..|orig|] == orig[p..];
      assert p < |orig| ==> c == orig[p..][0];
      if c == '.' {
        p, q, c, stack := SkipDot(a, orig, p, q, stack);
      } else if p < |orig| {
        NotDotIsClean(orig[p..]);
      }
    }
  }

  lemma NotDotIsClean(rest: string)
    requires rest != "" && rest[0] != '/' && rest[0] != '.'
    ensures Clean(rest[..Span(rest)])
  {
    assert Span(rest) >= 1;
    assert rest[..Span(rest)][0] == rest[0];
  }

  method SkipSlashes(a: array<char>, ghost orig: string, from: nat, q: nat, ghost stack: seq<string>) returns (p: nat)
    requires Rewriting(a[..], orig, from, q, stack, "") && '\0' !in orig
    ensures Rewriting(a[..], orig, p, q, stack, "") && from <= p
    ensures Walk(stack, orig[p..]) == Walk(stack, orig[from..])
    ensures p == |orig| || orig[p] != '/'
    ensures from < |orig| && orig[from] == '/' ==> from < p
  {
    p := from;
    while a[p] == '/'
      invariant from <= p && Rewriting(a[..], orig, p, q, stack, "")
      invariant Walk(stack, orig[p..]) == Walk(stack, orig[from..])
      invariant from < |orig| && orig[from] == '/' && p == from ==> a[p] == '/'
      decreases |orig| - p
    {
      hide Span, Components, Dir, Clean;
      assert p < |orig|;
      assert a[..][p..|orig|][0] == orig[p..][0];
      assert orig[p..][1..] == orig[p + 1..];
      assert a[..][p + 1..|orig|] == a[..][p..|orig|][1..];
      p := p + 1;
    }
    assert p < |orig| ==> a[..][p..|orig|][0] == orig[p..][0];
  }

  /** The unread input starts with a dot. */
  method SkipDot(a: array<char>, ghost orig: string, from: nat, end: nat, ghost above: seq<string>)
    returns (p: nat, q: nat, c: char, ghost stack: seq<string>)
    requires Rewriting(a[..], orig, from, end, above, "") && '\0' !in orig
    requires from < |orig| && orig[from] == '.'
    ensures Rewriting(a[..], orig, p, q, stack, "") && from <= p
    ensures Walk(stack, orig[p..]) == Walk(above, orig[from..])
    ensures c == if p == |orig| then '\0' else orig[p]
    ensures p > from || (c == '.' && Clean(orig[p..][..Span(orig[p..])]))
    ensures p > from && p < |orig| ==> c == '/'
  {
    p, q, stack := from, end, above;
    ghost var rest := orig[from..];
    WalkDots(above, rest);
    hide Walk, Span, Components, Dir, Rewriting;
    UnreadDots(a[..], orig, from, end, above);
    if a[p + 1] == '\0' || a[p + 1] == '/' {
      ReadOn(a[..], orig, from, end, above, "", 1);
      p := p + 1;
    } else if a[p + 1] == '.' && (a[p + 2] == '\0' || a[p + 2] == '/') {
      ReadOn(a[..], orig, from, end, above, "", 2);
      p := p + 2;
      q := DropBelow(a, orig, p, q, stack);
      stack := Pop(stack);
    }
    c := a[p];
  }

  /** The characters that decide about a dot, the terminator included. */
  lemma UnreadDots(b: seq<char>, orig: string, p: nat, q: nat, stack: seq<string>)
    requires Rewriting(b, orig, p, q, stack, "") && p < |orig| && orig[p] == '.'
    ensures p + 1 < |b| && b[p] == '.'
    ensures b[p + 1] == if p + 1 == |orig| then '\0' else orig[p..][1]
    ensures p + 1 < |orig| ==> p + 2 < |b| && b[p + 2] == if p + 2 == |orig| then '\0' else orig[p..][2]
  {
    hide Dir;
    UnreadAt(b, orig, p, q, stack, "", p);
    if p + 1 < |orig| {
      UnreadAt(b, orig, p, q, stack, "", p + 1);
      if p + 2 < |orig| { UnreadAt(b, orig, p, q, stack, "", p + 2); }
    }
  }

  method DropBelow(a: array<char>, ghost orig: string, p: nat, end: nat, ghost stack: seq<string>) returns (q: nat)
    requires Rewriting(a[..], orig, p, end, stack, "")
    ensures Rewriting(a[..], orig, p, q, Pop(stack), "")
  {
    assert a[..][..end] == a[..end] && Dir(stack) + "" == Dir(stack);
    q := DropDirectory(a, end, stack);
    PopClean(stack);
    assert a[..][..q] == a[..q] && Dir(Pop(stack)) + "" == Dir(Pop(stack));
  }

  /** The copy of one character of a component. */
  lemma CopyPart(stack: seq<string>, part: string, rest: string)
    requires rest != "" && rest[0] != '/'
    ensures Remaining(stack, part + [rest[0]], rest[1..]) == Remaining(stack, part, rest)
  {
    var n := Span(rest);
    assert n == 1 + Span(rest[1..]);
    assert part + rest[..n] == (part + [rest[0]]) + rest[1..][..n - 1];
    assert rest[n..] == rest[1..][n - 1..];
  }

  /** The slash after a component. */
  lemma CopySlash(stack: seq<string>, part: string, rest: string)
    requires rest != "" && rest[0] == '/'
    ensures Remaining(stack, part, rest) == Text(Walk(stack + [part], rest[1..]))
  {
    assert Span(rest) == 0 && rest[..0] == "" && part + "" == part && rest[0..] == rest;
  }

  /** The character at p has been read; writing it at q, behind p, leaves the
      unread input alone. */
  lemma WriteBehind(b: seq<char>, orig: string, p: nat, q: nat, stack: seq<string>, part: string)
    requires p < |orig| && Rewriting(b, orig, p, q, stack, part)
    ensures var b' := b[q := orig[p]];
      && b[p] == orig[p]
      && b'[p + 1..|orig|] == orig[p + 1..] && b'[|orig|] == '\0'
      && b'[..q + 1] == Dir(stack) + (part + [orig[p]])
  {
    var b' := b[q := orig[p]];
    assert b[p..|orig|][0] == orig[p..][0];
    assert b'[p + 1..|orig|] == b[p..|orig|][1..] && orig[p + 1..] == orig[p..][1..];
    assert b'[..q + 1] == b[..q] + [orig[p]];
  }

  /** normalize_path in path mode, on a buffer that holds an absolute path: reading
      and writing one buffer, it leaves the normalised path in it. */
  method NormalizeInPlace(a: array<char>, len: nat) returns (n: nat)
    requires Holds(a[..], len) && len > 0 && a[0] == '/'
    modifies a
    ensures n <= len && a[n] == '\0'
    ensures a[..n] == Normalized(old(a[..len]))
    ensures a[len..] == old(a[len..])
  {
    hide Rewriting, Remaining, Walk, Text, Clean;
    ghost var orig := a[..len];
    // the leading slash is its own first copy
    var p: nat, q: nat := 1, 1;
    ghost var stack: seq<string>, part := [], "";
    AfterFirst(a[..], orig);
    p, q, stack := AfterSlash(a, orig, p, q, stack);
    ghost var result := Normalized(orig);
    InBounds(a[..], orig, p, q, stack, part);
    while p < len
      invariant p <= len && Rewriting(a[..], orig, p, q, stack, part) && a[len..] == old(a[len..])
      invariant Remaining(stack, part, orig[p..]) == result
      invariant p < len ==> Clean(part + orig[p..][..Span(orig[p..])])
      invariant part == "" && p < len ==> orig[p] != '/'
      decreases len - p
    {
      p, q, stack, part := CopyOne(a, orig, p, q, stack, part);
      InBounds(a[..], orig, p, q, stack, part);
    }
    AllRead(a[..], orig, p, q, stack, part);
    a[q] := '\0';
    n := q;
  }

  lemma AfterFirst(b: seq<char>, orig: string)
    requires |b| > |orig| > 0 && b[..|orig|] == orig && orig[0] == '/' && b[|orig|] == '\0'
    ensures Rewriting(b, orig, 1, 1, [], "") && Text(Walk([], orig[1..])) == Normalized(orig)
  {
    assert b[..1] == Dir([]) + "";
    assert b[1..|orig|] == orig[1..];
  }

  lemma AllRead(b: seq<char>, orig: string, p: nat, q: nat, stack: seq<string>, part: string)
    requires p == |orig| && Rewriting(b, orig, p, q, stack, part)
    ensures q <= |orig| < |b| && b[..q] == Remaining(stack, part, orig[p..])
  {
    assert orig[p..] == "" && part + "" == part;
  }

  /** What follows a slash: dots are skipped up to the next name. */
  method AfterSlash(a: array<char>, ghost orig: string, from: nat, end: nat, ghost above: seq<string>)
    returns (p: nat, q: nat, ghost stack: seq<string>)
    requires Rewriting(a[..], orig, from, end, above, "") && '\0' !in orig
    ensures from <= p && Rewriting(a[..], orig, p, q, stack, "")
    ensures Remaining(stack, "", orig[p..]) == Text(Walk(above, orig[from..]))
    ensures p < |orig| ==> orig[p] != '/' && Clean("" + orig[p..][..Span(orig[p..])])
  {
    hide Rewriting, Remaining, Walk, Text, Clean;
    p, q, stack := SkipDots(a, orig, from, end, above);
    InBounds(a[..], orig, p, q, stack, "");
    WalkNormal(stack, orig[p..]);
    if p < |orig| {
      assert "" + orig[p..][..Span(orig[p..])] == orig[p..][..Span(orig[p..])];
    }
  }

  lemma InBounds(b: seq<char>, orig: string, p: nat, q: nat, stack: seq<string>, part: string)
    requires Rewriting(b, orig, p, q, stack, part)
    ensures p <= |orig|
  {
  }

  lemma SlashSpan(rest: string)
    requires rest != "" && rest[0] == '/'
    ensures rest[..Span(rest)] == ""
  {
  }

  lemma PartSpan(begun: string, rest: string)
    requires rest != "" && rest[0] != '/'
    ensures begun + rest[..Span(rest)] == begun + [rest[0]] + rest[1..][..Span(rest[1..])]
  {
  }

  /** One turn of the outer loop: a character is copied behind the read position, and
      what is still unread stays as it was. */
  method CopyOne(a: array<char>, ghost orig: string, from: nat, end: nat, ghost above: seq<string>, ghost begun: string)
    returns (p: nat, q: nat, ghost stack: seq<string>, ghost part: string)
    requires from < |orig| && '\0' !in orig && Rewriting(a[..], orig, from, end, above, begun)
    requires Clean(begun + orig[from..][..Span(orig[from..])]) && (begun == "" ==> orig[from] != '/')
    modifies a
    ensures from < p && Rewriting(a[..], orig, p, q, stack, part)
    ensures Remaining(stack, part, orig[p..]) == Remaining(above, begun, orig[from..])
    ensures p < |orig| ==> Clean(part + orig[p..][..Span(orig[p..])])
    ensures part == "" && p < |orig| ==> orig[p] != '/'
    ensures a[|orig|..] == old(a[|orig|..])
  {
    hide Remaining, Walk, Text, Tail, Clean, Span, Dir;
    ghost var rest := orig[from..];
    WriteBehind(a[..], orig, from, end, above, begun);
    ghost var written := a[..][end := orig[from]];
    var c := a[from];
    a[end] := c;
    assert a[..] == written;
    p, q, stack := from + 1, end + 1, above;
    assert rest[1..] == orig[p..] && rest[0] == c;
    if c == '/' {
      CopySlash(above, begun, rest);
      SlashSpan(rest);
      assert begun + "" == begun;
      DirSnoc(above, begun);
      stack := above + [begun];
      assert Dir(stack) + "" == Dir(above) + (begun + [c]);
      p, q, stack := AfterSlash(a, orig, p, q, stack);
      part := "";
    } else {
      CopyPart(above, begun, rest);
      part := begun + [c];
      PartSpan(begun, rest);
    }
  }

  datatype Mode = NORM_NONE | NORM_ROOT | NORM_PATH

  /** normalize_path on a heap string, in each of its modes. */
  method NormalizePath(fn: string, mode: Mode) returns (r: string)
    requires '\0' !in fn
    ensures mode == NORM_NONE ==> r == fn
    ensures mode == NORM_ROOT ==> r == if fn != "" && fn[0] == '/' then fn else "/" + fn
    ensures mode == NORM_PATH ==> r == Normalized(fn)
  {
    r := fn;
    if mode == NORM_NONE {
      return;
    }
    if r == "" || r[0] != '/' {
      r := "/" + r;
    }
    if mode == NORM_PATH {
      var text := r;
      var a := new char[|text| + 1](i => if 0 <= i < |text| then text[i] else '\0');
      assert a[..|text|] == text;
      var n := NormalizeInPlace(a, |text|);
      r := a[..n];
      WalkSlash([], fn);
    }
  }
}
