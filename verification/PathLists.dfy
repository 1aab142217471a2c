/** parse_path, build_path and compare_paths: path names as lists of components,
    and the directory check of validate_access that is built from them. */
module PathLists {
  import opened Wrappers
  import opened Paths

  /** is_valid_char: everything but the control characters below the blank. */
  predicate Printable(s: string) {
    forall i :: 0 <= i < |s| ==> s[i] >= ' '
  }

  // -------------------------------------------------------------------- meaning

  /** Resolve components from left to right: "." stays, ".." ascends and must not
      leave the root; in strict mode neither may occur. */
  function Resolved(strict: bool, stack: seq<string>, comps: seq<string>): Option<seq<string>>
    decreases |comps|
  {
    if comps == [] then Some(stack)
    else
      var c := comps[0];
      if IsDot(c) then if strict then None else Resolved(strict, stack, comps[1..])
      else if IsDotDot(c) then
        if strict || stack == [] then None else Resolved(strict, Pop(stack), comps[1..])
      else Resolved(strict, stack + [c], comps[1..])
  }

  /** parse_path */
  function Parsed(path: string, strict: bool): Option<seq<string>> {
    if strict && (path == "" || path[0] != '/') then None
    else if !Printable(path) then None
    else Resolved(strict, [], Components(path))
  }

  /** How far below the root a list of components leads. */
  function Depth(comps: seq<string>): int {
    if comps == [] then 0
    else
      var c := comps[|comps| - 1];
      Depth(comps[..|comps| - 1]) + if IsDot(c) then 0 else if IsDotDot(c) then -1 else 1
  }

  /** The components lead above the root somewhere on the way. */
  ghost predicate Ascends(comps: seq<string>) {
    exists k :: 0 <= k <= |comps| && Depth(comps[..k]) < 0
  }

  lemma {:induction false} DepthCons(c: string, comps: seq<string>)
    ensures Depth([c] + comps) == Depth([c]) + Depth(comps)
  {
    if comps == [] {
      assert [c] + comps == [c];
    } else {
      var n := |comps| - 1;
      assert ([c] + comps)[..n + 1] == [c] + comps[..n] && ([c] + comps)[n + 1] == comps[n];
      DepthCons(c, comps[..n]);
    }
  }

  lemma DepthOne(c: string)
    ensures Depth([c]) == if IsDot(c) then 0 else if IsDotDot(c) then -1 else 1
  {
    assert [c][..0] == [] && Depth([]) == 0;
  }

  /** Resolution from a stack fails exactly when some prefix ascends above it. */
  lemma {:induction false} ResolvedFails(stack: seq<string>, comps: seq<string>)
    ensures Resolved(false, stack, comps).None? <==> exists k :: 0 <= k <= |comps| && |stack| + Depth(comps[..k]) < 0
    decreases |comps|
  {
    if comps == [] {
      assert comps[..0] == [];
    } else {
      var c, rest := comps[0], comps[1..];
      var stack' := if IsDot(c) then stack else if IsDotDot(c) then Pop(stack) else stack + [c];
      DepthOne(c);
      forall k | 0 <= k <= |rest| ensures Depth(comps[..k + 1]) == Depth([c]) + Depth(rest[..k]) {
        assert comps[..k + 1] == [c] + rest[..k];
        DepthCons(c, rest[..k]);
      }
      if IsDotDot(c) && stack == [] {
        assert comps[..1] == [c];
        assert |stack| + Depth(comps[..1]) < 0;
      } else {
        ResolvedFails(stack', rest);
        assert Resolved(false, stack, comps) == Resolved(false, stack', rest);
        assert |stack'| == |stack| + Depth([c]);
        assert comps[..0] == [];
        if k :| 0 <= k <= |rest| && |stack'| + Depth(rest[..k]) < 0 {
          assert |stack| + Depth(comps[..k + 1]) < 0;
        }
        if k :| 0 <= k <= |comps| && |stack| + Depth(comps[..k]) < 0 {
          assert k > 0;
          assert Depth(comps[..k - 1 + 1]) == Depth([c]) + Depth(rest[..k - 1]);
          assert |stack'| + Depth(rest[..k - 1]) < 0;
        }
      }
    }
  }

  /** When it succeeds the result is the clamped one: nothing had to be clamped. */
  lemma {:induction false} ResolvedIsClamped(stack: seq<string>, comps: seq<string>)
    requires Resolved(false, stack, comps).Some?
    ensures Resolved(false, stack, comps).value == Clamped(stack, comps)
    decreases |comps|
  {
    if comps != [] {
      var c := comps[0];
      ResolvedIsClamped(if IsDot(c) then stack else if IsDotDot(c) then Pop(stack) else stack + [c], comps[1..]);
    }
  }

  /** parse_path without strict: it fails exactly on a control character or on an
      ascent above the root, and otherwise gives the stack semantics of the path. */
  lemma ParseMeaning(path: string)
    ensures Parsed(path, false).None? <==> !Printable(path) || Ascends(Components(path))
    ensures Parsed(path, false).Some? ==> Parsed(path, false).value == Clamped([], Components(path))
  {
    var comps := Components(path);
    ResolvedFails([], comps);
    if Resolved(false, [], comps).Some? {
      ResolvedIsClamped([], comps);
    }
  }

  /** Strict parsing accepts a path as it stands or not at all. */
  lemma {:induction false} StrictResolved(stack: seq<string>, comps: seq<string>)
    ensures Resolved(true, stack, comps) ==
      if forall i :: 0 <= i < |comps| ==> !IsDot(comps[i]) && !IsDotDot(comps[i])
      then Some(stack + comps) else None
    decreases |comps|
  {
    if comps == [] {
      assert stack + comps == stack;
    } else {
      var c, rest := comps[0], comps[1..];
      assert comps == [c] + rest;
      if IsDot(c) || IsDotDot(c) {
        assert Resolved(true, stack, comps) == None;
      } else {
        StrictResolved(stack + [c], rest);
        assert stack + [c] + rest == stack + comps;
        assert forall i :: 1 <= i < |comps| ==> comps[i] == rest[i - 1];
        assert forall i :: 0 <= i < |rest| ==> rest[i] == comps[i + 1];
      }
    }
  }

  lemma StrictMeaning(path: string)
    requires AllClean(Components(path)) && Printable(path) && path != "" && path[0] == '/'
    ensures Parsed(path, true) == Some(Components(path))
  {
    StrictResolved([], Components(path));
    assert [] + Components(path) == Components(path);
  }

  /** Exactly: an absolute path without control characters and without "." and "..", which
      is read as its components. */
  lemma StrictExactly(path: string)
    ensures var comps := Components(path);
      Parsed(path, true) ==
        if path != "" && path[0] == '/' && (forall i :: 0 <= i < |path| ==> path[i] as int >= 32) &&
           "." !in comps && ".." !in comps
        then Some(comps) else None
  {
    StrictResolved([], Components(path));
    assert [] + Components(path) == Components(path);
  }

  // ----------------------------------------------- normalised paths always parse

  lemma {:induction false} PrintableTail(stack: seq<string>)
    requires forall i :: 0 <= i < |stack| ==> Printable(stack[i])
    ensures Printable(Tail(stack))
  {
    if stack != [] {
      PrintableTail(stack[1..]);
    }
  }

  lemma {:induction false} PrintableWalk(stack: seq<string>, s: string)
    requires Printable(s) && forall i :: 0 <= i < |stack| ==> Printable(stack[i])
    ensures var (dirs, file) := Walk(stack, s);
      Printable(file) && forall i :: 0 <= i < |dirs| ==> Printable(dirs[i])
    decreases |s|
  {
    if s == "" {
    } else if s[0] == '/' {
      PrintableWalk(stack, s[1..]);
    } else {
      var n := Span(s);
      assert n > 0;
      var c, rest := s[..n], s[n..];
      if IsDot(c) { PrintableWalk(stack, rest); }
      else if IsDotDot(c) { PrintableWalk(Pop(stack), rest); }
      else if rest != "" { PrintableWalk(stack + [c], rest); }
    }
  }

  /** A normalised path passes the strict parser with the components of the clamped
      fold; control characters are all that can stop it, and normalising a path
      without them brings none in. */
  lemma NormalizedParses(s: string)
    ensures Parsed(Normalized(s), true)
         == if Printable(Normalized(s)) then Some(Clamped([], Components(s))) else None
    ensures Printable(s) ==> Printable(Normalized(s))
  {
    NormalizedComponents(s);
    if Printable(Normalized(s)) {
      StrictMeaning(Normalized(s));
    }
    if Printable(s) {
      PrintableWalk([], s);
      PrintableTail(Walk([], s).0);
    }
  }

  // ------------------------------------------------------------ the parsing loop

  /** adjust_tail: the component just completed stays, or drops itself, or drops
      itself and the one before it. */
  method AdjustTail(dirs: seq<string>) returns (dropped: int, dirs': seq<string>)
    requires |dirs| > 0
    ensures var c, above := dirs[|dirs| - 1], dirs[..|dirs| - 1];
      && (IsDot(c) ==> dropped == 1 && dirs' == above)
      && (IsDotDot(c) ==> if above == [] then dropped == -1 else dropped == 2 && dirs' == Pop(above))
      && (!IsDot(c) && !IsDotDot(c) ==> dropped == 0 && dirs' == dirs)
  {
    var last := dirs[|dirs| - 1];
    var drop := 0;
    if |last| >= 1 && last[0] == '.' {
      if |last| == 1 {
        drop := 1;
      } else if last[1] == '.' && |last| == 2 {
        drop := 2;
      }
      if |dirs| < drop {
        return -1, dirs;
      }
    }
    assert drop == 1 ==> last == ".";
    assert drop == 2 ==> last == "..";
    dropped, dirs' := drop, dirs[..|dirs| - drop];
    assert drop == 2 ==> dirs[..|dirs| - 2] == Pop(dirs[..|dirs| - 1]);
  }

  /** The components still to come: begun is the beginning of the current one. */
  lemma ReadSlash(begun: string, rest: string)
    requires '/' !in begun
    ensures Components(begun + "/" + rest) == (if begun == "" then [] else [begun]) + Components(rest)
  {
    assert ("/" + rest)[1..] == rest;
    assert begun + "/" + rest == begun + ("/" + rest);
    if begun == "" {
      assert begun + ("/" + rest) == "/" + rest;
      assert [] + Components(rest) == Components(rest);
    } else {
      ComponentsHead(begun, "/" + rest);
    }
  }

  /** Take a complete component on the list, or find that the path is refused. */
  method Push(strict: bool, dirs: seq<string>, c: string, ghost rest: seq<string>)
    returns (ok: bool, dirs': seq<string>)
    ensures Resolved(strict, dirs, [c] + rest) == if ok then Resolved(strict, dirs', rest) else None
  {
    assert ([c] + rest)[1..] == rest;
    assert (dirs + [c])[..|dirs|] == dirs;
    var dropped;
    dropped, dirs' := AdjustTail(dirs + [c]);
    ok := !(dropped < 0 || (dropped > 0 && strict));
  }

  /** The first pass: no control character. */
  method ValidChars(path: string) returns (ok: bool)
    ensures ok == Printable(path)
  {
    for p := 0 to |path|
      invariant Printable(path[..p])
    {
      if path[p] < ' ' {
        return false;
      }
    }
    assert path[..|path|] == path;
    return true;
  }

  /** One character of the second pass. */
  method Scan(strict: bool, dirs: seq<string>, begun: string, c: char, ghost rest: string)
    returns (ok: bool, dirs': seq<string>, begun': string)
    requires '/' !in begun
    ensures '/' !in begun'
    ensures Resolved(strict, dirs, Components(begun + ([c] + rest)))
         == if ok then Resolved(strict, dirs', Components(begun' + rest)) else None
  {
    ok, dirs' := true, dirs;
    if c == '/' {
      ReadSlash(begun, rest);
      assert begun + ([c] + rest) == begun + "/" + rest;
      assert "" + rest == rest;
      hide Components, Resolved;
      if begun != "" {
        ok, dirs' := Push(strict, dirs, begun, Components(rest));
      } else {
        assert [] + Components(rest) == Components(rest);
      }
      begun' := "";
    } else {
      begun' := begun + [c];
      assert begun + ([c] + rest) == begun' + rest;
    }
  }

  /** parse_path: one pass to validate, one pass over the characters that cuts
      components at slashes and adjusts the list after each. */
  method ParsePath(path: string, strict: bool) returns (r: Option<seq<string>>)
    ensures r == Parsed(path, strict)
  {
    hide Components, Resolved;
    if strict && (path == "" || path[0] != '/') {
      return None;
    }
    var valid := ValidChars(path);
    if !valid {
      return None;
    }
    var dirs, begun := [], "";
    assert "" + path[0..] == path;
    for q := 0 to |path|
      invariant '/' !in begun
      invariant Resolved(strict, [], Components(path)) == Resolved(strict, dirs, Components(begun + path[q..]))
    {
      var ok;
      assert path[q..] == [path[q]] + path[q + 1..];
      ok, dirs, begun := Scan(strict, dirs, begun, path[q], path[q + 1..]);
      if !ok {
        return None;
      }
    }
    assert begun + path[|path|..] == begun;
    r := Close(strict, dirs, begun);
  }

  /** The component that the end of the path completes. */
  method Close(strict: bool, dirs: seq<string>, begun: string) returns (r: Option<seq<string>>)
    requires '/' !in begun
    ensures r == Resolved(strict, dirs, Components(begun))
  {
    var dirs' := dirs;
    if begun != "" {
      ComponentsHead(begun, "");
      assert begun + "" == begun;
      var ok;
      ok, dirs' := Push(strict, dirs, begun, []);
      if !ok {
        return None;
      }
    }
    return Some(dirs');
  }

  // -------------------------------------------------------------------- printing

  /** Every component preceded by a slash. */
  function Joined(dirs: seq<string>): string {
    if dirs == [] then "" else "/" + dirs[0] + Joined(dirs[1..])
  }

  function Trimmed(prefix: string): string {
    if prefix != "" && prefix[|prefix| - 1] == '/' then Trimmed(prefix[..|prefix| - 1]) else prefix
  }

  /** build_path */
  function Built(prefix: Option<string>, dirs: seq<string>): string {
    (if prefix.Some? then Trimmed(prefix.value) else "") + Joined(dirs)
  }

  /** k cuts off all slashes at the end of the prefix, and nothing else. */
  predicate CutsSlashes(prefix: string, k: nat) {
    && k <= |prefix| && (forall i :: k <= i < |prefix| ==> prefix[i] == '/')
    && (k == 0 || prefix[k - 1] != '/')
  }

  /** The text is empty for the empty list, and else a path that parses strictly to it. */
  predicate Spells(text: string, dirs: seq<string>) {
    if dirs == [] then text == "" else Parsed(text, true) == Some(dirs)
  }

  /** The name is the prefix without its trailing slashes, followed by the list. */
  ghost predicate Names(name: string, prefix: Option<string>, dirs: seq<string>) {
    if prefix.None? then Spells(name, dirs)
    else exists k :: 0 <= k <= |prefix.value| && NamesAfter(name, prefix.value, k, dirs)
  }

  predicate NamesAfter(name: string, prefix: string, k: nat, dirs: seq<string>)
    requires k <= |prefix|
  {
    CutsSlashes(prefix, k) && prefix[..k] <= name && Spells(name[k..], dirs)
  }

  lemma {:induction false} TrimmedCut(prefix: string) returns (k: nat)
    ensures CutsSlashes(prefix, k) && prefix[..k] == Trimmed(prefix)
  {
    if prefix != "" && prefix[|prefix| - 1] == '/' {
      k := TrimmedCut(prefix[..|prefix| - 1]);
      assert prefix[..|prefix| - 1][..k] == prefix[..k];
    } else {
      k := |prefix|;
    }
  }

  /** A list of the components that parsing yields. */
  predicate Parseable(dirs: seq<string>) {
    AllClean(dirs) && forall i :: 0 <= i < |dirs| ==> Printable(dirs[i])
  }

  lemma BuiltNames(prefix: Option<string>, dirs: seq<string>)
    requires Parseable(dirs)
    ensures Names(Built(prefix, dirs), prefix, dirs)
  {
    hide Parsed, Trimmed, CutsSlashes;
    BuildParses(dirs);
    var name, tail := Built(prefix, dirs), Joined(dirs);
    assert Built(None, dirs) == tail;
    if prefix.Some? {
      var k := TrimmedCut(prefix.value);
      assert name[k..] == tail;
      assert NamesAfter(name, prefix.value, k, dirs);
    }
  }

  lemma {:induction false} JoinedSnoc(dirs: seq<string>, c: string)
    ensures Joined(dirs + [c]) == Joined(dirs) + "/" + c
  {
    if dirs == [] {
      assert dirs + [c] == [c] && [c][1..] == [];
      assert Joined([c]) == "/" + c + Joined([]);
    } else {
      assert (dirs + [c])[0] == dirs[0] && (dirs + [c])[1..] == dirs[1..] + [c];
      JoinedSnoc(dirs[1..], c);
    }
  }

  /** The size pass: the NUL, the trimmed prefix, and a slash with each component. */
  method BuiltSize(prefix: Option<string>, dirs: seq<string>) returns (size: nat, prefixLen: nat)
    ensures size == |Built(prefix, dirs)| + 1
    ensures prefixLen == if prefix.Some? then |Trimmed(prefix.value)| else 0
    ensures prefix.Some? ==> prefixLen <= |prefix.value| && prefix.value[..prefixLen] == Trimmed(prefix.value)
  {
    size, prefixLen := 1, 0;
    if prefix.Some? {
      var s := prefix.value;
      prefixLen := |s|;
      assert s[..|s|] == s;
      while prefixLen > 0 && s[prefixLen - 1] == '/'
        invariant prefixLen <= |s| && Trimmed(s[..prefixLen]) == Trimmed(s)
      {
        assert s[..prefixLen][..prefixLen - 1] == s[..prefixLen - 1];
        prefixLen := prefixLen - 1;
      }
    }
    size := size + prefixLen;
    for d := 0 to |dirs|
      invariant size == 1 + prefixLen + |Joined(dirs[..d])|
    {
      JoinedSnoc(dirs[..d], dirs[d]);
      assert dirs[..d] + [dirs[d]] == dirs[..d + 1];
      size := size + |dirs[d]| + 1;
    }
    assert dirs[..|dirs|] == dirs;
  }

  /** Copy text into the buffer at q. */
  method Append(buf: array<char>, q: nat, text: string) returns (q': nat)
    requires q + |text| <= buf.Length
    modifies buf
    ensures q' == q + |text| && buf[..q'] == old(buf[..q]) + text
  {
    for i := 0 to |text|
      invariant buf[..q + i] == old(buf[..q]) + text[..i]
    {
      buf[q + i] := text[i];
      assert buf[..q + i + 1] == buf[..q + i] + [text[i]];
    }
    q' := q + |text|;
    assert text[..|text|] == text;
  }

  /** A slash and the component. */
  method AppendComponent(buf: array<char>, q: nat, c: string) returns (q': nat)
    requires q + |c| + 1 <= buf.Length
    modifies buf
    ensures q' == q + |c| + 1 && buf[..q'] == old(buf[..q]) + "/" + c
  {
    q' := Append(buf, q, "/");
    q' := Append(buf, q', c);
  }

  /** build_path: the buffer of the computed size is filled exactly, NUL included. */
  method BuildPath(prefix: Option<string>, dirs: seq<string>) returns (buf: array<char>)
    ensures fresh(buf) && buf.Length == |Built(prefix, dirs)| + 1
    ensures buf[..buf.Length - 1] == Built(prefix, dirs) && buf[buf.Length - 1] == '\0'
    ensures Parseable(dirs) ==> Names(buf[..buf.Length - 1], prefix, dirs)
  {
    hide Parseable, Names;
    var size, prefixLen := BuiltSize(prefix, dirs);
    buf := new char[size];
    var q: nat := 0;
    ghost var head := if prefix.Some? then Trimmed(prefix.value) else "";
    if prefixLen > 0 {
      q := Append(buf, 0, prefix.value[..prefixLen]);
    }
    assert buf[..q] == head;
    hide Joined, Trimmed;
    q := AppendAll(buf, q, dirs);
    assert q == size - 1;
    buf[q] := '\0';
    if Parseable(dirs) {
      BuiltNames(prefix, dirs);
    }
  }

  /** All components, each after a slash. */
  method AppendAll(buf: array<char>, start: nat, dirs: seq<string>) returns (q: nat)
    requires start + |Joined(dirs)| <= buf.Length
    modifies buf
    ensures q == start + |Joined(dirs)| && buf[..q] == old(buf[..start]) + Joined(dirs)
  {
    q := start;
    assert Joined(dirs[..0]) == "";
    hide Joined;
    ghost var head := buf[..start];
    for d := 0 to |dirs|
      invariant q == start + |Joined(dirs[..d])| <= buf.Length && buf[..q] == head + Joined(dirs[..d])
    {
      JoinedSnoc(dirs[..d], dirs[d]);
      assert dirs[..d] + [dirs[d]] == dirs[..d + 1];
      JoinedPrefix(dirs, d + 1);
      ghost var text := Joined(dirs[..d]);
      q := AppendComponent(buf, q, dirs[d]);
      assert head + text + "/" + dirs[d] == head + (text + "/" + dirs[d]);
    }
    assert dirs[..|dirs|] == dirs;
  }

  lemma {:induction false} JoinedAppend(a: seq<string>, b: seq<string>)
    ensures Joined(a + b) == Joined(a) + Joined(b)
  {
    if a == [] {
      assert a + b == b;
    } else {
      assert (a + b)[0] == a[0] && (a + b)[1..] == a[1..] + b;
      JoinedAppend(a[1..], b);
    }
  }

  lemma JoinedPrefix(dirs: seq<string>, d: nat)
    requires d <= |dirs|
    ensures |Joined(dirs[..d])| <= |Joined(dirs)|
  {
    assert dirs == dirs[..d] + dirs[d..];
    JoinedAppend(dirs[..d], dirs[d..]);
  }

  lemma {:induction false} ComponentsOfJoined(dirs: seq<string>)
    requires AllClean(dirs)
    ensures Components(Joined(dirs)) == dirs
  {
    if dirs != [] {
      var t := dirs[0] + Joined(dirs[1..]);
      assert Joined(dirs) == "/" + t && ("/" + t)[1..] == t;
      ComponentsHead(dirs[0], Joined(dirs[1..]));
      ComponentsOfJoined(dirs[1..]);
    }
  }

  lemma {:induction false} PrintableJoined(dirs: seq<string>)
    requires forall i :: 0 <= i < |dirs| ==> Printable(dirs[i])
    ensures Printable(Joined(dirs))
  {
    if dirs != [] {
      PrintableJoined(dirs[1..]);
    }
  }

  /** Printing a list and parsing it strictly gives the list back; the empty list is
      printed as the empty string, which is not an absolute path. */
  lemma BuildParses(dirs: seq<string>)
    requires AllClean(dirs) && forall i :: 0 <= i < |dirs| ==> Printable(dirs[i])
    ensures Parsed(Built(None, dirs), true) == if dirs == [] then None else Some(dirs)
  {
    assert Built(None, dirs) == Joined(dirs);
    if dirs != [] {
      ComponentsOfJoined(dirs);
      PrintableJoined(dirs);
      assert Joined(dirs)[0] == '/';
      StrictMeaning(Joined(dirs));
    }
  }

  /** And what strict parsing accepts has the components of its text, none of them to be
      resolved; printed and parsed again they are the same, but for the root alone. */
  lemma ParsedIsClean(path: string)
    requires Parsed(path, true).Some?
    ensures AllClean(Parsed(path, true).value)
    ensures Parsed(path, true).value == Components(path)
    ensures Components(path) != [] ==> Parsed(Built(None, Parsed(path, true).value), true) == Parsed(path, true)
  {
    StrictResolved([], Components(path));
    assert [] + Components(path) == Components(path);
    ComponentsAreSpans(path);
    ComponentsPrintable(path);
    BuildParses(Components(path));
  }

  lemma {:induction false} ComponentsPrintable(s: string)
    requires Printable(s)
    ensures forall i :: 0 <= i < |Components(s)| ==> Printable(Components(s)[i])
    decreases |s|
  {
    if s != "" {
      ComponentsPrintable(if s[0] == '/' then s[1..] else s[Span(s)..]);
    }
  }

  lemma {:induction false} ComponentsAreSpans(s: string)
    ensures forall i :: 0 <= i < |Components(s)| ==> Components(s)[i] != "" && '/' !in Components(s)[i]
    decreases |s|
  {
    if s != "" {
      if s[0] == '/' {
        ComponentsAreSpans(s[1..]);
      } else {
        assert Span(s) > 0;
        ComponentsAreSpans(s[Span(s)..]);
      }
    }
  }

  lemma ParsedIsParseable(path: string)
    requires Parsed(path, true).Some?
    ensures Parseable(Parsed(path, true).value)
  {
    ParsedIsClean(path);
    ComponentsPrintable(path);
  }

  // ------------------------------------------------------------------ containment

  /** compare_paths: bit 0 says that a is a prefix of b, bit 1 that b is one of a. */
  method ComparePaths(a: seq<string>, b: seq<string>) returns (r: nat)
    ensures r <= 3
    ensures r % 2 == 1 <==> a <= b
    ensures r >= 2 <==> b <= a
  {
    var i := 0;
    while true
      invariant i <= |a| && i <= |b| && a[..i] == b[..i]
      decreases |a| - i
    {
      if i == |a| {
        return if i < |b| then 1 else 3;
      } else if i == |b| {
        return 2;
      } else if a[i] != b[i] {
        return 0;
      }
      i := i + 1;
    }
  }

  /** The check of validate_access: a strictly valid path below one of the allowed
      directories, and the name that is then opened. */
  method CheckAccess(filename: string, allowed: seq<seq<string>>, prefix: Option<string>) returns (r: Option<string>)
    ensures r.Some? <==> Parsed(filename, true).Some? &&
                         exists i :: 0 <= i < |allowed| && allowed[i] <= Parsed(filename, true).value
    ensures r.Some? ==> r.value == Built(prefix, Parsed(filename, true).value)
    ensures r.Some? ==> Names(r.value, prefix, Parsed(filename, true).value)
  {
    hide Names;
    var pathlist := ParsePath(filename, true);
    if pathlist.None? {
      return None;
    }
    ParsedIsParseable(filename);
    for d := 0 to |allowed|
      invariant forall i :: 0 <= i < d ==> !(allowed[i] <= pathlist.value)
    {
      var r := ComparePaths(pathlist.value, allowed[d]);
      if r >= 2 {
        var buf := BuildPath(prefix, pathlist.value);
        return Some(buf[..buf.Length - 1]);
      }
    }
    return None;
  }

  /** Containment, as text: the name opened is the printed form of an allowed
      directory, followed by nothing or by a slash; no component of it is "." or
      "..", so it cannot lead out of that directory again. */
  lemma Contained(prefix: Option<string>, dir: seq<string>, filename: string)
    requires Parsed(filename, true).Some? && dir <= Parsed(filename, true).value
    ensures var path := Parsed(filename, true).value;
            var name, root := Built(prefix, path), Built(prefix, dir);
      && root <= name
      && (|name| > |root| ==> name[|root|] == '/')
      && AllClean(path)
  {
    hide Parsed, Components, AllClean, Joined, Trimmed;
    var path := Parsed(filename, true).value;
    var below := path[|dir|..];
    assert path == dir + below;
    JoinedAppend(dir, below);
    JoinedSlash(below);
    ParsedIsClean(filename);
    assert Built(prefix, path) == Built(prefix, dir) + Joined(below);
  }

  lemma JoinedSlash(dirs: seq<string>)
    ensures Joined(dirs) != "" ==> Joined(dirs)[0] == '/'
  {
  }
}
