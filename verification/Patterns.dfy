/** What a replacement pattern means: the text that a substitution puts between what
    stood before the match and what stood after it, piece by piece of the pattern. */
module Patterns {
  import opened Wrappers
  import opened Substitution

  predicate Matching(pattern: string, ibuf: string, pm: seq<Match>, start: Start) {
    Callable(pattern, ibuf, pm, start) && (start.At? ==> pm[0].so != -1)
  }

  /** The subject that the offsets of a match count from. */
  function Subject(ibuf: string, start: Start): string
    requires start.At? ==> start.offset <= |ibuf|
  {
    if start.At? then ibuf[start.offset..] else ibuf
  }

  function Before(ibuf: string, pm: seq<Match>, start: Start): string
    requires Matching("", ibuf, pm, start)
  {
    if start.At? then ibuf[..start.offset + pm[0].so] else ""
  }

  function After(ibuf: string, pm: seq<Match>, start: Start): string
    requires Matching("", ibuf, pm, start)
  {
    if start.At? then ibuf[start.offset + pm[0].eo..] else ""
  }

  /** The text that the pattern puts in the place of the match. */
  function Middle(pattern: string, ibuf: string, pm: seq<Match>, macros: Macros, start: Start): (m: string)
    requires Matching(pattern, ibuf, pm, start)
    ensures Produced(pattern, ibuf, pm, macros, start) == Before(ibuf, pm, start) + m + After(ibuf, pm, start)
  {
    MiddleIsExpansion(pattern, ibuf, pm, macros, start);
    var t := Produced(pattern, ibuf, pm, macros, start);
    t[|Before(ibuf, pm, start)|..|t| - |After(ibuf, pm, start)|]
  }

  lemma MiddleIsExpansion(pattern: string, ibuf: string, pm: seq<Match>, macros: Macros, start: Start)
    requires Matching(pattern, ibuf, pm, start)
    ensures var m := Expand(Null, pattern, Subject(ibuf, start), pm, macros);
      var t, b, a := Produced(pattern, ibuf, pm, macros, start), |Before(ibuf, pm, start)|, |After(ibuf, pm, start)|;
      && t == Before(ibuf, pm, start) + m + After(ibuf, pm, start)
      && 0 <= b <= |t| - a && t[b..|t| - a] == m
  {
    hide Expand;
    if start.At? {
      assert ibuf[start.offset..][pm[0].eo..] == ibuf[start.offset + pm[0].eo..];
    }
  }

  // ------------------------------------------------------- the expansion, in pieces

  lemma OutChar(x: Xform, p: string)
    requires p != "" && p[0] != '\\' && p[0] != '\0'
    ensures Plain(p) == 1 + Plain(p[1..]) && Out(x, p) == [Apply(x, p[0])] + Out(x, p[1..])
    ensures p[Plain(p)..] == p[1..][Plain(p[1..])..]
  {
    hide Apply;
    var rest, n := p[1..], Plain(p);
    assert p[..n][0] == p[0] && p[..n][1..] == rest[..n - 1];
  }

  /** Character by character. */
  lemma ExpandChar(x: Xform, p: string, input: string, pm: seq<Match>, macros: Macros)
    requires InRange(pm, |input|) && '\0' !in p && p != "" && p[0] != '\\'
    ensures Expand(x, p, input, pm, macros) == [Apply(x, p[0])] + Expand(x, p[1..], input, pm, macros)
  {
    hide Apply, Expand, Out, Plain;
    var rest := p[1..];
    ExpandPlain(x, p, input, pm, macros);
    assert p[0] in p;
    OutChar(x, p);
    OutStops(x, rest);
    if rest != "" && rest[0] != '\\' {
      ExpandPlain(x, rest, input, pm, macros);
    }
  }

  lemma OutStops(x: Xform, s: string)
    ensures s == "" || s[0] == '\\' ==> Out(x, s) == "" && Plain(s) == 0 && s[Plain(s)..] == s
  {
  }

  /** The pattern has no case switch and does not end within an escape. */
  predicate Steady(p: string, macros: Macros)
    decreases |p|
  {
    if p == "" then true
    else if p[0] != '\\' then Steady(p[1..], macros)
    else
      && |p| > 1 && p[1] != 'L' && p[1] != 'U' && p[1] != 'E'
      && if '0' <= p[1] <= '9' || p[1] == '\\' || macros(p[1]).Some? then Steady(p[2..], macros)
         else Steady(p[1..], macros)
  }

  lemma {:induction false} ExpandJoin(x: Xform, p: string, q: string, input: string, pm: seq<Match>, macros: Macros)
    requires InRange(pm, |input|) && '\0' !in p && '\0' !in q && Steady(p, macros)
    ensures Expand(x, p + q, input, pm, macros)
         == Expand(x, p, input, pm, macros) + Expand(x, q, input, pm, macros)
    decreases |p|
  {
    hide Expand, Apply, Escape, AfterEscape;
    if p == "" {
      assert p + q == q;
      ExpandEmpty(x, input, pm, macros);
    } else {
      assert (p + q)[0] == p[0] && (p + q)[1..] == p[1..] + q;
      if p[0] != '\\' {
        ExpandChar(x, p + q, input, pm, macros);
        ExpandChar(x, p, input, pm, macros);
        ExpandJoin(x, p[1..], q, input, pm, macros);
      } else {
        var k := SteadyEscape(x, p, macros);
        assert (p + q)[1] == p[1] && (p + q)[k..] == p[k..] + q;
        ExpandEscaped(x, p + q, input, pm, macros);
        ExpandEscaped(x, p, input, pm, macros);
        ExpandJoin(x, p[k..], q, input, pm, macros);
      }
    }
  }

  lemma ExpandEmpty(x: Xform, input: string, pm: seq<Match>, macros: Macros)
    requires InRange(pm, |input|)
    ensures Expand(x, "", input, pm, macros) == ""
  {
  }

  lemma SteadyEscape(x: Xform, p: string, macros: Macros) returns (k: nat)
    requires Steady(p, macros) && p != "" && p[0] == '\\'
    ensures |p| > 1 && k == (if Known(p[1], macros) then 2 else 1) && Steady(p[k..], macros)
    ensures AfterEscape(x, p[1]) == x
  {
    k := if Known(p[1], macros) then 2 else 1;
  }

  /** t is s with the case transform applied to every character. */
  predicate InCase(x: Xform, s: string, t: string) {
    |t| == |s| && forall i :: 0 <= i < |s| ==> t[i] == Apply(x, s[i])
  }

  lemma InCaseJoin(x: Xform, s: string, t: string, s': string, t': string)
    requires InCase(x, s, t) && InCase(x, s', t')
    ensures InCase(x, s + s', t + t')
  {
  }

  lemma EscapeInCase(x: Xform, c: char, input: string, pm: seq<Match>, macros: Macros)
    requires InRange(pm, |input|)
    ensures InCase(x, Escape(Null, c, input, pm, macros), Escape(x, c, input, pm, macros))
  {
  }

  lemma {:induction false} ExpandInCase(x: Xform, p: string, input: string, pm: seq<Match>, macros: Macros)
    requires InRange(pm, |input|) && '\0' !in p && Steady(p, macros)
    ensures InCase(x, Expand(Null, p, input, pm, macros), Expand(x, p, input, pm, macros))
    decreases |p|
  {
    hide Expand, Escape, InCase, AfterEscape, Apply;
    if p == "" {
      ExpandEmpty(x, input, pm, macros);
      ExpandEmpty(Null, input, pm, macros);
      NothingInCase(x);
    } else if p[0] != '\\' {
      ExpandChar(x, p, input, pm, macros);
      ExpandChar(Null, p, input, pm, macros);
      ExpandInCase(x, p[1..], input, pm, macros);
      OneInCase(x, p[0]);
      InCaseJoin(x, [p[0]], [Apply(x, p[0])], Expand(Null, p[1..], input, pm, macros),
                 Expand(x, p[1..], input, pm, macros));
    } else {
      var c := p[1];
      var k := SteadyEscape(x, p, macros);
      var k' := SteadyEscape(Null, p, macros);
      ExpandEscaped(x, p, input, pm, macros);
      ExpandEscaped(Null, p, input, pm, macros);
      ExpandInCase(x, p[k..], input, pm, macros);
      EscapeInCase(x, c, input, pm, macros);
      InCaseJoin(x, Escape(Null, c, input, pm, macros), Escape(x, c, input, pm, macros),
                 Expand(Null, p[k..], input, pm, macros), Expand(x, p[k..], input, pm, macros));
    }
  }

  lemma NothingInCase(x: Xform)
    ensures InCase(x, "", "")
  {
  }

  lemma OneInCase(x: Xform, c: char)
    ensures InCase(x, [c], [Apply(x, c)]) && Apply(Null, c) == c
  {
  }

  // -------------------------------------------------------------------- the meaning

  /** A pattern without a backslash stands for itself. */
  lemma {:induction false} PlainStands(p: string, ibuf: string, pm: seq<Match>, macros: Macros, start: Start)
    requires Matching(p, ibuf, pm, start) && '\\' !in p
    ensures Middle(p, ibuf, pm, macros, start) == p
  {
    MiddleIsExpansion(p, ibuf, pm, macros, start);
    PlainExpands(p, Subject(ibuf, start), pm, macros);
  }

  lemma {:induction false} PlainExpands(p: string, input: string, pm: seq<Match>, macros: Macros)
    requires InRange(pm, |input|) && '\0' !in p && '\\' !in p
    ensures Expand(Null, p, input, pm, macros) == p
  {
    if p != "" {
      ExpandChar(Null, p, input, pm, macros);
      PlainExpands(p[1..], input, pm, macros);
    }
  }

  /** s up to its first backslash or zero. */
  predicate Cut(s: string, n: nat) {
    && n <= |s| && (forall i :: 0 <= i < n ==> s[i] != '\\' && s[i] != '\0')
    && (n < |s| ==> s[n] == '\\' || s[n] == '\0')
  }

  lemma CutIsOut(s: string, n: nat)
    requires Cut(s, n)
    ensures Out(Null, s) == s[..n]
  {
    assert Plain(s) == n;
    TransformedNull(s[..n]);
  }

  lemma OneEscape(c: char, ibuf: string, pm: seq<Match>, macros: Macros, start: Start)
    requires Matching(['\\', c], ibuf, pm, start) && Known(c, macros)
    ensures InRange(pm, |Subject(ibuf, start)|)
    ensures Middle(['\\', c], ibuf, pm, macros, start) == Escape(Null, c, Subject(ibuf, start), pm, macros)
  {
    hide Escape, Out;
    MiddleIsExpansion(['\\', c], ibuf, pm, macros, start);
    ExpandEscaped(Null, ['\\', c], Subject(ibuf, start), pm, macros);
    assert ['\\', c][2..] == "";
  }

  /** A digit stands for the text of that group, up to a backslash in it; a group that took
      no part for nothing. */
  lemma GroupCopied(d: char, ibuf: string, pm: seq<Match>, macros: Macros, start: Start, n: nat)
    requires Matching(['\\', d], ibuf, pm, start) && '0' <= d <= '9'
    requires var g := pm[d as int - '0' as int];
      g.so != -1 ==> 0 <= g.so <= g.eo <= |Subject(ibuf, start)| && Cut(Subject(ibuf, start)[g.so..g.eo], n)
    ensures var g := pm[d as int - '0' as int];
      Middle(['\\', d], ibuf, pm, macros, start) ==
        if g.so == -1 then "" else Subject(ibuf, start)[g.so..g.eo][..n]
  {
    hide Expand, Plain, Out;
    OneEscape(d, ibuf, pm, macros, start);
    var g := pm[d as int - '0' as int];
    if g.so != -1 {
      CutIsOut(Subject(ibuf, start)[g.so..g.eo], n);
    }
  }

  /** In particular, a group without a backslash is copied as it is. */
  lemma WholeGroupCopied(d: char, ibuf: string, pm: seq<Match>, macros: Macros, k: nat)
    requires Matching(['\\', d], ibuf, pm, At(k)) && '0' <= d <= '9'
    requires var g := pm[d as int - '0' as int];
      g.so != -1 && 0 <= g.so <= g.eo <= |ibuf| - k
    requires var g := pm[d as int - '0' as int]; var t := ibuf[k + g.so..k + g.eo];
      '\\' !in t && '\0' !in t
    ensures var g := pm[d as int - '0' as int];
      Middle(['\\', d], ibuf, pm, macros, At(k)) == ibuf[k + g.so..k + g.eo]
  {
    hide Expand, Middle;
    var g := pm[d as int - '0' as int];
    var t := ibuf[k + g.so..k + g.eo];
    assert Subject(ibuf, At(k))[g.so..g.eo] == t && t[..|t|] == t;
    GroupCopied(d, ibuf, pm, macros, At(k), |t|);
  }

  /** A doubled backslash, and one at the end of the pattern, stands for a backslash. */
  lemma BackslashStands(ibuf: string, pm: seq<Match>, macros: Macros, start: Start)
    requires Matching("\\", ibuf, pm, start) && Matching("\\\\", ibuf, pm, start)
    ensures Middle("\\\\", ibuf, pm, macros, start) == "\\"
    ensures Middle("\\", ibuf, pm, macros, start) == "\\"
  {
    hide Expand, Middle, Out;
    assert ['\\', '\\'] == "\\\\";
    OneEscape('\\', ibuf, pm, macros, start);
    QuietSwitch("\\", ibuf, pm, macros, start);
    ExpandLast(Null, "\\", Subject(ibuf, start), pm, macros);
  }

  /** The characters that are not macros. */
  predicate Reserved(c: char) {
    '0' <= c <= '9' || c == 'L' || c == 'U' || c == 'E' || c == '\\'
  }

  /** A macro stands for its text, up to a backslash in it. */
  lemma MacroStands(c: char, ibuf: string, pm: seq<Match>, macros: Macros, start: Start, n: nat)
    requires Matching(['\\', c], ibuf, pm, start) && !Reserved(c)
    requires macros(c).Some? && Cut(macros(c).value, n)
    ensures Middle(['\\', c], ibuf, pm, macros, start) == macros(c).value[..n]
  {
    hide Expand, Plain, Out;
    OneEscape(c, ibuf, pm, macros, start);
    CutIsOut(macros(c).value, n);
  }

  /** A backslash before any other character is dropped. */
  lemma UnknownKept(c: char, q: string, ibuf: string, pm: seq<Match>, macros: Macros, start: Start)
    requires Matching(['\\', c] + q, ibuf, pm, start) && !Reserved(c) && macros(c).None?
    ensures Matching([c] + q, ibuf, pm, start)
    ensures Middle(['\\', c] + q, ibuf, pm, macros, start) == Middle([c] + q, ibuf, pm, macros, start)
  {
    hide Expand;
    var p := ['\\', c] + q;
    assert p[1..] == [c] + q;
    assert Matching([c] + q, ibuf, pm, start) by {
      assert forall x :: x in [c] + q ==> x in p;
    }
    MiddleIsExpansion(p, ibuf, pm, macros, start);
    MiddleIsExpansion([c] + q, ibuf, pm, macros, start);
    ExpandEscaped(Null, p, Subject(ibuf, start), pm, macros);
  }

  /** The pieces of a pattern are expanded one after the other. */
  lemma PiecesJoin(p: string, q: string, ibuf: string, pm: seq<Match>, macros: Macros, start: Start)
    requires Matching(p, ibuf, pm, start) && Matching(q, ibuf, pm, start) && Steady(p, macros)
    ensures Middle(p + q, ibuf, pm, macros, start)
         == Middle(p, ibuf, pm, macros, start) + Middle(q, ibuf, pm, macros, start)
  {
    hide Expand;
    MiddleIsExpansion(p + q, ibuf, pm, macros, start);
    MiddleIsExpansion(p, ibuf, pm, macros, start);
    MiddleIsExpansion(q, ibuf, pm, macros, start);
    ExpandJoin(Null, p, q, Subject(ibuf, start), pm, macros);
  }

  predicate Uppercased(s: string, t: string) {
    |t| == |s| && forall i :: 0 <= i < |s| ==> t[i] == if 'a' <= s[i] <= 'z' then s[i] - 'a' + 'A' else s[i]
  }

  predicate Lowercased(s: string, t: string) {
    |t| == |s| && forall i :: 0 <= i < |s| ==> t[i] == if 'A' <= s[i] <= 'Z' then s[i] - 'A' + 'a' else s[i]
  }

  lemma InCaseMeans(s: string, t: string)
    ensures InCase(Upper, s, t) ==> Uppercased(s, t)
    ensures InCase(Lower, s, t) ==> Lowercased(s, t)
  {
  }

  /** What follows "\U", up to the next switch, is the same text with its letters in upper
      case, and what follows "\L" with its letters in lower case. */
  lemma CaseSwitched(p: string, ibuf: string, pm: seq<Match>, macros: Macros, start: Start)
    requires Matching(p, ibuf, pm, start) && Steady(p, macros)
    ensures Matching("\\U" + p, ibuf, pm, start) && Matching("\\L" + p, ibuf, pm, start)
    ensures Uppercased(Middle(p, ibuf, pm, macros, start), Middle("\\U" + p, ibuf, pm, macros, start))
    ensures Lowercased(Middle(p, ibuf, pm, macros, start), Middle("\\L" + p, ibuf, pm, macros, start))
  {
    hide Expand, Middle, InCase, Uppercased, Lowercased, Steady;
    var input := Subject(ibuf, start);
    assert "\\U" == ['\\', 'U'] && "\\L" == ['\\', 'L'];
    SwitchExpands('U', p, ibuf, pm, macros, start);
    SwitchExpands('L', p, ibuf, pm, macros, start);
    QuietSwitch(p, ibuf, pm, macros, start);
    ExpandInCase(Upper, p, input, pm, macros);
    ExpandInCase(Lower, p, input, pm, macros);
    var m := Expand(Null, p, input, pm, macros);
    InCaseMeans(m, Expand(Upper, p, input, pm, macros));
    InCaseMeans(m, Expand(Lower, p, input, pm, macros));
  }

  lemma CasesApart(s: string, t: string)
    ensures Uppercased(s, t) ==> forall c :: c in t ==> !('a' <= c <= 'z')
    ensures Lowercased(s, t) ==> forall c :: c in t ==> !('A' <= c <= 'Z')
  {
    forall c | c in t
      ensures Uppercased(s, t) ==> !('a' <= c <= 'z')
      ensures Lowercased(s, t) ==> !('A' <= c <= 'Z')
    {
      var i :| 0 <= i < |t| && t[i] == c;
      if Uppercased(s, t) && 'a' <= s[i] <= 'z' {
        assert c as int == s[i] as int - 32;
      }
      if Lowercased(s, t) && 'A' <= s[i] <= 'Z' {
        assert c as int == s[i] as int + 32;
      }
    }
  }

  /** So no letter comes out of it in the other case. */
  lemma NoLetterInOtherCase(p: string, ibuf: string, pm: seq<Match>, macros: Macros, start: Start)
    requires Matching(p, ibuf, pm, start) && Steady(p, macros)
    ensures Matching("\\U" + p, ibuf, pm, start) && Matching("\\L" + p, ibuf, pm, start)
    ensures forall c :: c in Middle("\\U" + p, ibuf, pm, macros, start) ==> !('a' <= c <= 'z')
    ensures forall c :: c in Middle("\\L" + p, ibuf, pm, macros, start) ==> !('A' <= c <= 'Z')
  {
    hide Middle, Uppercased, Lowercased, Steady;
    CaseSwitched(p, ibuf, pm, macros, start);
    var m := Middle(p, ibuf, pm, macros, start);
    CasesApart(m, Middle("\\U" + p, ibuf, pm, macros, start));
    CasesApart(m, Middle("\\L" + p, ibuf, pm, macros, start));
  }

  lemma SwitchExpands(c: char, p: string, ibuf: string, pm: seq<Match>, macros: Macros, start: Start)
    requires Matching(p, ibuf, pm, start) && (c == 'U' || c == 'L' || c == 'E')
    ensures Middle(['\\', c] + p, ibuf, pm, macros, start)
         == Expand(if c == 'U' then Upper else if c == 'L' then Lower else Null, p, Subject(ibuf, start), pm, macros)
  {
    hide Expand;
    MiddleIsExpansion(['\\', c] + p, ibuf, pm, macros, start);
    ExpandEscaped(Null, ['\\', c] + p, Subject(ibuf, start), pm, macros);
    assert (['\\', c] + p)[2..] == p;
  }

  /** A switch lasts up to the next one, whichever it is, and "\E" ends it. */
  lemma SwitchLasts(c: char, p: string, d: char, q: string, ibuf: string, pm: seq<Match>, macros: Macros, start: Start)
    requires Matching(p, ibuf, pm, start) && Matching(q, ibuf, pm, start) && Steady(p, macros)
    requires (c == 'U' || c == 'L' || c == 'E') && (d == 'U' || d == 'L' || d == 'E')
    ensures Middle(['\\', c] + (p + (['\\', d] + q)), ibuf, pm, macros, start)
         == Middle(['\\', c] + p, ibuf, pm, macros, start) + Middle(['\\', d] + q, ibuf, pm, macros, start)
    ensures Middle("\\E" + q, ibuf, pm, macros, start) == Middle(q, ibuf, pm, macros, start)
  {
    hide Expand, Middle;
    var x := if c == 'U' then Upper else if c == 'L' then Lower else Null;
    var r, input := ['\\', d] + q, Subject(ibuf, start);
    SwitchExpands(c, p + r, ibuf, pm, macros, start);
    SwitchExpands(c, p, ibuf, pm, macros, start);
    SwitchExpands(d, q, ibuf, pm, macros, start);
    ExpandJoin(x, p, r, input, pm, macros);
    SwitchFromAny(x, d, q, input, pm, macros);
    SwitchFromAny(Null, d, q, input, pm, macros);
    SwitchExpands('E', q, ibuf, pm, macros, start);
    QuietSwitch(q, ibuf, pm, macros, start);
  }

  lemma SwitchFromAny(x: Xform, d: char, q: string, input: string, pm: seq<Match>, macros: Macros)
    requires InRange(pm, |input|) && '\0' !in q && (d == 'U' || d == 'L' || d == 'E')
    ensures Expand(x, ['\\', d] + q, input, pm, macros)
         == Expand(if d == 'U' then Upper else if d == 'L' then Lower else Null, q, input, pm, macros)
  {
    hide Expand;
    ExpandEscaped(x, ['\\', d] + q, input, pm, macros);
    assert (['\\', d] + q)[2..] == q;
  }

  lemma QuietSwitch(q: string, ibuf: string, pm: seq<Match>, macros: Macros, start: Start)
    requires Matching(q, ibuf, pm, start)
    ensures Middle(q, ibuf, pm, macros, start) == Expand(Null, q, Subject(ibuf, start), pm, macros)
  {
    hide Expand;
    MiddleIsExpansion(q, ibuf, pm, macros, start);
  }
}
