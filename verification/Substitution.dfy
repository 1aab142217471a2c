/** The substitution of the remap engine: a replacement pattern expanded against
    the matches of a regular expression, measured first and written second. */
module Substitution {
  import opened Wrappers

  /** A match or group of regexec; (-1, -1) when it took no part. */
  datatype Match = Match(so: int, eo: int)

  const NoMatch := Match(-1, -1)

  /** Ten entries, each absent or inside the subject, the whole match present. */
  predicate InRange(pm: seq<Match>, length: nat) {
    && |pm| == 10
    && (forall i :: 0 <= i < 10 ==> pm[i].so == -1 || 0 <= pm[i].so <= pm[i].eo <= length)
  }

  const Cleared: seq<Match> :=
    [NoMatch, NoMatch, NoMatch, NoMatch, NoMatch, NoMatch, NoMatch, NoMatch, NoMatch, NoMatch]

  datatype Xform = Null | Lower | Upper

  /** The one-byte case transforms. */
  function Apply(x: Xform, c: char): char {
    match x
    case Null => c
    case Lower => if 'A' <= c <= 'Z' then c - 'A' + 'a' else c
    case Upper => if 'a' <= c <= 'z' then c - 'a' + 'A' else c
  }

  function Transformed(x: Xform, s: string): (t: string)
    ensures |t| == |s|
    ensures forall i :: 0 <= i < |s| ==> t[i] == Apply(x, s[i])
  {
    if s == "" then "" else [Apply(x, s[0])] + Transformed(x, s[1..])
  }

  /** xform_out goes up to a backslash or the end of the string. */
  function Plain(s: string): (n: nat)
    ensures n <= |s|
    ensures forall i :: 0 <= i < n ==> s[i] != '\\' && s[i] != '\0'
    ensures n < |s| ==> s[n] == '\\' || s[n] == '\0'
  {
    if s == "" || s[0] == '\\' || s[0] == '\0' then 0 else 1 + Plain(s[1..])
  }

  function Out(x: Xform, s: string): (t: string)
    ensures |t| == Plain(s)
  {
    Transformed(x, s[..Plain(s)])
  }

  type Macros = char -> Option<string>

  /** What one escape \c of the pattern puts out. */
  function Escape(x: Xform, c: char, input: string, pm: seq<Match>, macros: Macros): string
    requires InRange(pm, |input|)
  {
    if '0' <= c <= '9' then
      var m := pm[c as int - '0' as int];
      if m.so == -1 then "" else Out(x, input[m.so..m.eo])
    else if c == 'L' || c == 'U' || c == 'E' then ""
    else if c == '\\' then "\\"
    else if macros(c).Some? then Out(x, macros(c).value)
    else ""
  }

  function AfterEscape(x: Xform, c: char): Xform {
    if c == 'L' then Lower else if c == 'U' then Upper else if c == 'E' then Null else x
  }

  /** How much of the pattern an escape uses up: an unknown macro only loses its
      backslash. */
  predicate Known(c: char, macros: Macros) {
    '0' <= c <= '9' || c == 'L' || c == 'U' || c == 'E' || c == '\\' || macros(c).Some?
  }

  /** The expansion of a pattern, read from left to right. */
  function Expand(x: Xform, pattern: string, input: string, pm: seq<Match>, macros: Macros): string
    requires InRange(pm, |input|) && '\0' !in pattern
    decreases |pattern|
  {
    if pattern == "" then ""
    else if pattern[0] != '\\' then
      var n := Plain(pattern);
      assert n > 0;
      Out(x, pattern) + Expand(x, pattern[n..], input, pm, macros)
    else if |pattern| == 1 then "\\"
    else
      var c := pattern[1];
      Escape(x, c, input, pm, macros) +
      Expand(AfterEscape(x, c), pattern[if Known(c, macros) then 2 else 1..], input, pm, macros)
  }

  /** Where a substitution starts: at an offset of the subject, or on its own. */
  datatype Start = At(offset: nat) | MatchOnly

  /** The text before the match, the expansion, and the text after the match. */
  datatype Parts = Parts(before: string, middle: string, after: string)

  function Whole(p: Parts): string {
    p.before + p.middle + p.after
  }

  /** do_genmatchstring when there is a match, or in match-only mode. */
  function Substituted(pattern: string, ibuf: string, pm: seq<Match>, macros: Macros, start: Start): Parts
    requires '\0' !in pattern
    requires start.At? ==> start.offset <= |ibuf| && InRange(pm, |ibuf| - start.offset) && pm[0].so != -1
    requires start.MatchOnly? ==> InRange(pm, |ibuf|)
  {
    match start
    case MatchOnly => Parts("", Expand(Null, pattern, ibuf, pm, macros), "")
    case At(k) =>
      var input := ibuf[k..];
      Parts(ibuf[..k + pm[0].so], Expand(Null, pattern, input, pm, macros), input[pm[0].eo..])
  }

  // ------------------------------------------------------------- the two passes

  /** struct xform_state: measures when it has no buffer, writes when it has one. */
  class XformState {
    const out: array?<char>
    var pos: nat
    var len: nat
    var xform: Xform
    ghost var text: string    // what has been put out so far

    ghost predicate Valid()
      reads this, out
    {
      && len == |text|
      && (out != null ==> pos == len <= out.Length && out[..pos] == text)
    }

    /** Room for k more characters and the terminating zero. */
    predicate Room(k: nat)
      reads this
    {
      out != null ==> len + k < out.Length
    }

    constructor (out: array?<char>)
      ensures Valid() && this.out == out && text == "" && xform == Null
    {
      this.out := out;
      pos, len, xform, text := 0, 0, Null, "";
    }

    /** xsmemcpy */
    method MemCpy(from: string)
      requires Valid() && Room(|from|)
      modifies this, out
      ensures Valid() && text == old(text) + from && xform == old(xform)
      ensures out != null ==> out[pos] == '\0'
    {
      text := text + from;
      if out != null {
        CopyIn(from);
        out[pos] := '\0';
      }
      len := len + |from|;
    }

    method CopyIn(from: string)
      requires out != null && pos + |from| <= out.Length
      modifies this`pos, out
      ensures pos == old(pos) + |from| && out[..pos] == old(out[..pos]) + from
    {
      for i := 0 to |from|
        invariant pos == old(pos) + i && out[..pos] == old(out[..pos]) + from[..i]
      {
        out[pos] := from[i];
        pos := pos + 1;
        assert out[..pos] == out[..pos - 1] + [from[i]];
      }
      assert from[..|from|] == from;
    }

    /** xform_out, one byte at a time; returns how much of p it used. */
    method XformOut(p: string) returns (n: nat)
      requires Valid() && Room(Plain(p))
      modifies this, out
      ensures Valid() && n == Plain(p) && text == old(text) + Out(xform, p) && xform == old(xform)
    {
      n := 0;
      ghost var x, start := xform, text;
      assert Transformed(x, p[..0]) == "";
      hide Transformed, Apply, Plain;
      while n < |p| && p[n] != '\0' && p[n] != '\\'
        invariant n <= Plain(p)
        invariant Valid() && xform == x && Room(Plain(p) - n)
        invariant text == start + Transformed(x, p[..n])
      {
        TransformedSnoc(x, p[..n], p[n]);
        assert p[..n] + [p[n]] == p[..n + 1];
        PutOne(Apply(xform, p[n]));
        n := n + 1;
      }
      assert n == Plain(p);
      Terminate();
    }

    method Terminate()
      requires Valid() && Room(0)
      modifies out
      ensures Valid() && (out != null ==> out[pos] == '\0')
    {
      if out != null {
        out[pos] := '\0';
      }
    }

    method PutOne(c: char)
      requires Valid() && Room(1)
      modifies this`pos, this`len, this`text, out
      ensures Valid() && text == old(text) + [c] && len == old(len) + 1
    {
      text := text + [c];
      if out != null {
        out[pos] := c;
        pos := pos + 1;
        assert out[..pos] == old(out[..pos]) + [c];
      }
      len := len + 1;
    }
  }

  lemma {:induction false} TransformedSnoc(x: Xform, s: string, c: char)
    ensures Transformed(x, s + [c]) == Transformed(x, s) + [Apply(x, c)]
  {
    if s == "" {
      assert s + [c] == [c];
      assert [c][1..] == "";
    } else {
      assert (s + [c])[0] == s[0] && (s + [c])[1..] == s[1..] + [c];
      TransformedSnoc(x, s[1..], c);
    }
  }

  /** The arguments that do_genmatchstring is called with. */
  predicate Callable(pattern: string, ibuf: string, pm: seq<Match>, start: Start) {
    && '\0' !in pattern
    && (match start
        case At(k) => k <= |ibuf| && InRange(pm, |ibuf| - k)
        case MatchOnly => InRange(pm, |ibuf|))
  }

  /** The characters it produces.  Without a match the subject is copied together
      with its terminating zero, which is counted. */
  function Produced(pattern: string, ibuf: string, pm: seq<Match>, macros: Macros, start: Start): string
    requires Callable(pattern, ibuf, pm, start)
  {
    if start.At? && pm[0].so == -1 then ibuf + "\0"
    else Whole(Substituted(pattern, ibuf, pm, macros, start))
  }

  /** The pattern loop: puts out the expansion of what is left of the pattern. */
  method ExpandPattern(xs: XformState, pattern: string, input: string, pm: seq<Match>, macros: Macros)
    requires InRange(pm, |input|) && '\0' !in pattern
    requires xs.Valid() && xs.Room(|Expand(xs.xform, pattern, input, pm, macros)|)
    modifies xs, xs.out
    ensures xs.Valid() && xs.text == old(xs.text) + Expand(old(xs.xform), pattern, input, pm, macros)
  {
    ghost var goal := xs.text + Expand(xs.xform, pattern, input, pm, macros);
    var rest := pattern;
    while rest != ""
      invariant '\0' !in rest && xs.Valid()
      invariant goal == xs.text + Expand(xs.xform, rest, input, pm, macros)
      invariant xs.out != null ==> |goal| < xs.out.Length
      decreases |rest|
    {
      rest := ExpandOne(xs, rest, input, pm, macros);
    }
    assert goal == xs.text + "";
  }

  lemma ExpandPlain(x: Xform, pattern: string, input: string, pm: seq<Match>, macros: Macros)
    requires InRange(pm, |input|) && '\0' !in pattern && pattern != "" && pattern[0] != '\\'
    ensures Plain(pattern) > 0
    ensures Expand(x, pattern, input, pm, macros)
         == Out(x, pattern) + Expand(x, pattern[Plain(pattern)..], input, pm, macros)
  {
    hide Out, Escape, AfterEscape, Known;
  }

  lemma ExpandLast(x: Xform, pattern: string, input: string, pm: seq<Match>, macros: Macros)
    requires InRange(pm, |input|) && |pattern| == 1 && pattern[0] == '\\'
    ensures Expand(x, pattern, input, pm, macros) == "\\"
    ensures Expand(x, "", input, pm, macros) == ""
  {
  }

  lemma ExpandEscaped(x: Xform, pattern: string, input: string, pm: seq<Match>, macros: Macros)
    requires InRange(pm, |input|) && '\0' !in pattern && |pattern| > 1 && pattern[0] == '\\'
    ensures Expand(x, pattern, input, pm, macros)
         == Escape(x, pattern[1], input, pm, macros) +
            Expand(AfterEscape(x, pattern[1]), pattern[if Known(pattern[1], macros) then 2 else 1..], input, pm, macros)
  {
    hide Out, Escape, AfterEscape, Known;
  }

  /** One turn of the pattern loop. */
  method ExpandOne(xs: XformState, pattern: string, input: string, pm: seq<Match>, macros: Macros)
    returns (rest: string)
    requires InRange(pm, |input|) && '\0' !in pattern && pattern != ""
    requires xs.Valid() && xs.Room(|Expand(xs.xform, pattern, input, pm, macros)|)
    modifies xs, xs.out
    ensures xs.Valid() && '\0' !in rest && |rest| < |pattern|
    ensures xs.text + Expand(xs.xform, rest, input, pm, macros)
         == old(xs.text) + Expand(old(xs.xform), pattern, input, pm, macros)
  {
    hide Expand, Out, Escape, AfterEscape, Known;
    ghost var x := xs.xform;
    if pattern[0] != '\\' {
      ExpandPlain(x, pattern, input, pm, macros);
      var n := xs.XformOut(pattern);
      rest := pattern[n..];
      return;
    }
    if |pattern| == 1 {
      ExpandLast(x, pattern, input, pm, macros);
      xs.PutOne('\\');
      rest := "";
      return;
    }
    var c := pattern[1];
    ExpandEscaped(x, pattern, input, pm, macros);
    ExpandEscape(xs, c, input, pm, macros);
    rest := pattern[if Known(c, macros) then 2 else 1..];
  }

  /** The switch over the character after a backslash. */
  method ExpandEscape(xs: XformState, c: char, input: string, pm: seq<Match>, macros: Macros)
    requires InRange(pm, |input|)
    requires xs.Valid() && xs.Room(|Escape(xs.xform, c, input, pm, macros)|)
    modifies xs, xs.out
    ensures xs.Valid() && xs.text == old(xs.text) + Escape(old(xs.xform), c, input, pm, macros)
    ensures xs.xform == AfterEscape(old(xs.xform), c)
  {
    if '0' <= c <= '9' {
      var m := pm[c as int - '0' as int];
      if m.so != -1 {
        var n := xs.XformOut(input[m.so..m.eo]);
      }
    } else if c == 'L' {
      xs.xform := Lower;
    } else if c == 'U' {
      xs.xform := Upper;
    } else if c == 'E' {
      xs.xform := Null;
    } else if c == '\\' {
      xs.PutOne('\\');
    } else if macros(c).Some? {
      var n := xs.XformOut(macros(c).value);
    }
  }

  /** do_genmatchstring: the same code measures (without a buffer) and writes, and
      a buffer one longer than the measured length is never overrun. */
  method DoGenMatchString(buf: array?<char>, pattern: string, ibuf: string, pm: seq<Match>,
                          macros: Macros, start: Start)
    returns (len: nat, next: Option<nat>)
    requires Callable(pattern, ibuf, pm, start)
    requires buf != null ==> buf.Length == |Produced(pattern, ibuf, pm, macros, start)| + 1
    modifies buf
    ensures len == |Produced(pattern, ibuf, pm, macros, start)|
    ensures buf != null ==> buf[..len] == Produced(pattern, ibuf, pm, macros, start) && buf[len] == '\0'
    ensures next == if start.At? && pm[0].so == -1 then None
                    else var p := Substituted(pattern, ibuf, pm, macros, start); Some(|p.before| + |p.middle|)
  {
    var xs := new XformState(buf);
    if start.At? && pm[0].so == -1 {
      xs.MemCpy(ibuf + "\0");
      return xs.len, None;
    }
    ghost var parts := Substituted(pattern, ibuf, pm, macros, start);
    var input, after := ibuf, "";
    if start.At? {
      input := ibuf[start.offset..];
      after := input[pm[0].eo..];
      xs.MemCpy(ibuf[..start.offset + pm[0].so]);
    }
    assert xs.text == parts.before && xs.xform == Null;
    ExpandPattern(xs, pattern, input, pm, macros);
    next := Some(xs.len);
    xs.MemCpy(after);
    assert xs.text == Whole(parts);
    len := xs.len;
  }

  /** genmatchstring: measure, allocate, fill. */
  method GenMatchString(pattern: string, ibuf: string, pm: seq<Match>, macros: Macros, start: Start)
    returns (buf: array<char>, len: nat, next: Option<nat>)
    requires Callable(pattern, ibuf, pm, start)
    ensures len == |Produced(pattern, ibuf, pm, macros, start)| && buf.Length == len + 1
    ensures buf[..len] == Produced(pattern, ibuf, pm, macros, start) && buf[len] == '\0'
    ensures next == if start.At? && pm[0].so == -1 then None
                    else var p := Substituted(pattern, ibuf, pm, macros, start); Some(|p.before| + |p.middle|)
  {
    var measured, ignored := DoGenMatchString(null, pattern, ibuf, pm, macros, start);
    buf := new char[measured + 1];
    len, next := DoGenMatchString(buf, pattern, ibuf, pm, macros, start);
  }

  /** A substitution at an offset leaves the text before the offset alone and its
      expansion ends at or after it: under "gg" the offset only moves forward, and
      what lies before it is never altered again. */
  lemma PrefixKept(pattern: string, ibuf: string, pm: seq<Match>, macros: Macros, k: nat)
    requires Callable(pattern, ibuf, pm, At(k)) && pm[0].so != -1
    ensures var p := Substituted(pattern, ibuf, pm, macros, At(k));
      && |p.before| + |p.middle| >= k
      && ibuf[..k] <= Whole(p)
      && Whole(p)[|p.before| + |p.middle|..] == ibuf[k + pm[0].eo..]
  {
    var p := Substituted(pattern, ibuf, pm, macros, At(k));
    assert p.before[..k] == ibuf[..k];
    assert Whole(p)[..k] == p.before[..k];
    assert Whole(p)[|p.before| + |p.middle|..] == p.after;
  }

  lemma {:induction false} TransformedNull(s: string)
    ensures Transformed(Null, s) == s
  {
    if s != "" {
      TransformedNull(s[1..]);
    }
  }

  lemma PlainIsAll(s: string)
    requires '\0' !in s
    ensures Plain(s) == |s| <==> '\\' !in s
  {
    if Plain(s) == |s| {
      assert forall i :: 0 <= i < |s| ==> s[i] != '\\';
    } else {
      assert s[Plain(s)] in s;
    }
  }

  lemma ExpandGroupZero(input: string, pm: seq<Match>, macros: Macros)
    requires InRange(pm, |input|) && pm[0].so != -1
    ensures Expand(Null, "\\0", input, pm, macros)
         == input[pm[0].so..pm[0].eo][..Plain(input[pm[0].so..pm[0].eo])]
  {
    var pattern := "\\0";
    assert pattern[2..] == "";
    ExpandEscaped(Null, pattern, input, pm, macros);
    var m := input[pm[0].so..pm[0].eo];
    TransformedNull(m[..Plain(m)]);
    hide Transformed, Plain;
    assert Expand(Null, pattern[2..], input, pm, macros) == "";
  }

  /** One would expect that replacing a match by itself, "\\0", changes nothing.  It
      does so exactly when the matched text has no backslash: the copy of a group
      stops at the first one. */
  lemma ReplaceByItself(ibuf: string, pm: seq<Match>, macros: Macros, k: nat)
    requires Callable("\\0", ibuf, pm, At(k)) && pm[0].so != -1 && '\0' !in ibuf
    ensures Produced("\\0", ibuf, pm, macros, At(k)) == ibuf <==> '\\' !in ibuf[k + pm[0].so..k + pm[0].eo]
  {
    hide Expand, Plain;
    var input := ibuf[k..];
    var m := input[pm[0].so..pm[0].eo];
    assert m == ibuf[k + pm[0].so..k + pm[0].eo];
    ExpandGroupZero(input, pm, macros);
    PlainIsAll(m);
    var p := Substituted("\\0", ibuf, pm, macros, At(k));
    assert ibuf == p.before + m + p.after;
    if Plain(m) < |m| {
      assert |Whole(p)| < |ibuf|;
    } else {
      assert m[..Plain(m)] == m;
    }
  }
}
