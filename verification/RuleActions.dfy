/** What the operations of a remap rule mean, stated over whole runs of the rule list:
    where the run goes on, with which text and how many steps left, or how it ends. */
module RuleActions {
  import opened Wrappers
  import opened Substitution
  import opened Remap
  import P = Patterns

  // --------------------------------------------------------- which rules take part

  /** A rule takes part unless it is a label or has no pattern, or it is marked for the
      other direction or the other address family. */
  lemma FitsExactly(env: Env, i: nat)
    requires i < |env.rules|
    ensures Fits(env, i) <==>
      var flags := env.rules[i].flags;
      && LABEL !in flags && NOREGEX !in flags
      && (RRQ in flags ==> env.mode == ReadRequest) && (WRQ in flags ==> env.mode == WriteRequest)
      && (IPV4 in flags ==> env.family == INET) && (IPV6 in flags ==> env.family == INET6)
  {
    var flags, bad := env.rules[i].flags, BadFlags(env);
    if Fits(env, i) {
      assert forall x :: x in bad ==> x !in flags;
      assert LABEL in bad && NOREGEX in bad;
      assert env.mode != ReadRequest ==> RRQ in bad;
      assert env.mode != WriteRequest ==> WRQ in bad;
      assert env.family != INET ==> IPV4 in bad;
      assert env.family != INET6 ==> IPV6 in bad;
    }
  }

  /** A rule fires where its expression matches, an inverse rule where it does not. */
  lemma FiresExactly(env: Env, i: nat, subject: string, notBol: bool)
    requires i < |env.rules|
    requires var m := env.exec(i, subject, notBol);
      m.Some? ==> InRange(m.value, |subject|) && m.value[0].so != -1
    ensures var m := env.exec(i, subject, notBol); var inverse := INVERSE in env.rules[i].flags;
      && (Fires(env, i, subject, notBol).Some? <==> (m.Some? <==> !inverse))
      && (!inverse ==> Fires(env, i, subject, notBol) == m)
  {
  }

  // ------------------------------------------------------------------ the rewriting

  /** s with the text of the match behind offset gg replaced by middle. */
  function Patched(s: string, pm: seq<Match>, gg: nat, middle: string): string
    requires gg <= |s| && InRange(pm, |s| - gg) && pm[0].so != -1
  {
    s[..gg + pm[0].so] + middle + s[gg + pm[0].eo..]
  }

  /** The expansion of the rule's pattern at a match. */
  function Middle(env: Env, i: nat, s: string, pm: seq<Match>, gg: nat): string
    requires Rewritable(env, i, s, pm, gg)
  {
    P.Middle(env.rules[i].pattern, s, pm, env.macros, At(gg))
  }

  lemma ReplacedIsPatched(env: Env, i: nat, s: string, pm: seq<Match>, gg: nat)
    requires Rewritable(env, i, s, pm, gg)
    ensures Whole(Replaced(env, i, s, pm, gg)) == Patched(s, pm, gg, Middle(env, i, s, pm, gg))
    ensures var p := Replaced(env, i, s, pm, gg);
      |p.before| == gg + pm[0].so && p.middle == Middle(env, i, s, pm, gg)
  {
    hide Expand;
    P.MiddleIsExpansion(env.rules[i].pattern, s, pm, env.macros, At(gg));
    assert s[gg..][pm[0].eo..] == s[gg + pm[0].eo..];
  }

  /** Without "g" a rule replaces one match and stops. */
  lemma RewritesOnce(env: Env, i: nat, s: string, pm: seq<Match>, gg: nat, left: nat)
    requires Rewritable(env, i, s, pm, gg) && GLOBAL !in env.rules[i].flags
    ensures Rewritten(env, i, s, pm, gg, left) == Rewrote(Patched(s, pm, gg, Middle(env, i, s, pm, gg)), left)
  {
    hide Replaced, Middle;
    ReplacedIsPatched(env, i, s, pm, gg);
  }

  /** With "g" it goes on at the next match, sought from the start, or under "gg" behind
      the replacement; each further match costs a step, and without one left there is none. */
  lemma RewritesOn(env: Env, i: nat, s: string, pm: seq<Match>, gg: nat, left: nat)
    requires Rewritable(env, i, s, pm, gg) && GLOBAL in env.rules[i].flags
    ensures var sed := SEDG in env.rules[i].flags; var mid := Middle(env, i, s, pm, gg);
      var text, k := Patched(s, pm, gg, mid), if sed then gg + pm[0].so + |mid| else 0;
      && k <= |text|
      && (sed && k == |text| ==> Rewritten(env, i, s, pm, gg, left) == Rewrote(text, left))
      && (!sed || k < |text| ==>
           var m := Fires(env, i, text[k..], k > 0);
           if m.None? then Rewritten(env, i, s, pm, gg, left) == Rewrote(text, left)
           else if left == 0 then Rewritten(env, i, s, pm, gg, left) == Expired
           else
             && Rewritable(env, i, text, m.value, k)
             && Rewritten(env, i, s, pm, gg, left) == Rewritten(env, i, text, m.value, k, left - 1))
  {
    hide Replaced, Fires, Middle;
    ReplacedIsPatched(env, i, s, pm, gg);
  }

  /** The rule no longer fires behind an offset of the text. */
  ghost predicate Exhausted(env: Env, i: nat, text: string) {
    exists k :: 0 <= k <= |text| && QuietFrom(env, i, text, k)
  }

  predicate QuietFrom(env: Env, i: nat, text: string, k: nat)
    requires k <= |text|
  {
    i < |env.rules| && (k == |text| || Fires(env, i, text[k..], k > 0).None?)
  }

  /** A rule with "g" that ends has left no match: none at all, or under "gg" none behind
      the last replacement. */
  lemma {:induction false} GlobalExhausts(env: Env, i: nat, s: string, pm: seq<Match>, gg: nat, left: nat)
    requires Rewritable(env, i, s, pm, gg) && GLOBAL in env.rules[i].flags
    requires Rewritten(env, i, s, pm, gg, left).Rewrote?
    ensures var text := Rewritten(env, i, s, pm, gg, left).text;
      if SEDG in env.rules[i].flags then Exhausted(env, i, text) else Fires(env, i, text, false).None?
    decreases left
  {
    hide Fires, Replaced, Middle;
    RewritesOn(env, i, s, pm, gg, left);
    var mid := Middle(env, i, s, pm, gg);
    var text := Patched(s, pm, gg, mid);
    if SEDG in env.rules[i].flags {
      var k := gg + pm[0].so + |mid|;
      if k == |text| || Fires(env, i, text[k..], k > 0).None? {
        assert QuietFrom(env, i, text, k);
      } else {
        GlobalExhausts(env, i, text, Fires(env, i, text[k..], k > 0).value, k, left - 1);
      }
    } else {
      assert text[0..] == text;
      if Fires(env, i, text, false).Some? {
        GlobalExhausts(env, i, text, Fires(env, i, text, false).value, 0, left - 1);
      }
    }
  }

  // --------------------------------------------------------------- what comes next

  /** Rule i fires on current with match m, and its rewriting leaves text and rest steps. */
  predicate FiresInto(env: Env, i: nat, current: string, left: nat, m: seq<Match>, text: string, rest: nat)
    requires ValidEnv(env) && i < |env.rules|
  {
    && Fits(env, i) && left > 0 && Fires(env, i, current, false) == Some(m)
    && if REWRITE in env.rules[i].flags
       then Rewritten(env, i, current, m, 0, left - 1) == Rewrote(text, rest)
       else text == current && rest == left - 1
  }

  /** A rule that fits but does not fire costs a step and hands the text on; with no step
      left, or none left for its rewriting, the run is dead. */
  lemma QuietRuleGoesOn(env: Env, i: nat, current: string, left: nat)
    requires ValidEnv(env) && i < |env.rules| && Fits(env, i)
    ensures left == 0 ==> RunFrom(env, i, current, left) == Run(Dead, 0)
    ensures left > 0 && Fires(env, i, current, false).None? ==>
      RunFrom(env, i, current, left) == RunFrom(env, i + 1, current, left - 1)
    ensures var m := Fires(env, i, current, false);
      left > 0 && REWRITE in env.rules[i].flags && m.Some? ==>
        (Rewritten(env, i, current, m.value, 0, left - 1).Expired? ==>
          RunFrom(env, i, current, left) == Run(Dead, 0))
  {
    hide Fires, Fits, Rewritten, Decided;
  }

  /** The end of the list ends the run with the text as it is. */
  lemma EndOfList(env: Env, current: string, left: nat)
    requires ValidEnv(env)
    ensures RunFrom(env, |env.rules|, current, left) == Run(Done(current), left)
  {
  }

  /** A rule that asks for a file under a name that is refused has no effect: the run goes
      on after it with the text that it found. */
  lemma RefusedFileGoesOn(env: Env, i: nat, current: string, left: nat, m: seq<Match>, text: string, rest: nat)
    requires ValidEnv(env) && i < |env.rules| && FiresInto(env, i, current, left, m, text, rest)
    requires HASFILE in env.rules[i].flags && env.rejects(text)
    ensures RunFrom(env, i, current, left) == RunFrom(env, i + 1, current, rest)
  {
    hide Fires, Fits, Rewritten, Message;
  }

  /** An exit, or a file that can be opened, ends the run with the rewritten text. */
  lemma ExitEnds(env: Env, i: nat, current: string, left: nat, m: seq<Match>, text: string, rest: nat)
    requires ValidEnv(env) && i < |env.rules| && FiresInto(env, i, current, left, m, text, rest)
    requires EXIT in env.rules[i].flags || (HASFILE in env.rules[i].flags && !env.rejects(text))
    ensures RunFrom(env, i, current, left) == Run(Done(text), rest)
  {
    hide Fires, Fits, Rewritten, Message;
    assert Sane(env.rules[i].flags);
  }

  /** The pattern of the rule, expanded by itself. */
  function Expansion(env: Env, i: nat, text: string, m: seq<Match>): string
    requires ValidEnv(env) && i < |env.rules| && InRange(m, |text|)
  {
    P.Middle(env.rules[i].pattern, text, m, env.macros, MatchOnly)
  }

  lemma MessageIsExpansion(env: Env, i: nat, text: string, m: seq<Match>)
    requires ValidEnv(env) && i < |env.rules| && InRange(m, |text|)
    ensures var t := Expansion(env, i, text, m);
      Message(env, i, text, m) == if t == "" then None else Some(t)
  {
    hide Expand;
    P.MiddleIsExpansion(env.rules[i].pattern, text, m, env.macros, MatchOnly);
    var t := Expand(Null, env.rules[i].pattern, text, m, env.macros);
    assert "" + t + "" == t;
  }

  /** An abort ends the run with the pattern's expansion for a message, if it is not empty. */
  lemma AbortEnds(env: Env, i: nat, current: string, left: nat, m: seq<Match>, text: string, rest: nat)
    requires ValidEnv(env) && i < |env.rules| && FiresInto(env, i, current, left, m, text, rest)
    requires ABORT in env.rules[i].flags
    ensures text == current
    ensures var t := Expansion(env, i, current, m);
      RunFrom(env, i, current, left) == Run(Aborted(if t == "" then None else Some(t)), rest)
  {
    hide Fires, Fits, Rewritten, Message, Expansion;
    assert Sane(env.rules[i].flags);
    MessageIsExpansion(env, i, current, m);
  }

  /** A restart takes the run back to the first rule with the rewritten text. */
  lemma RestartStartsOver(env: Env, i: nat, current: string, left: nat, m: seq<Match>, text: string, rest: nat)
    requires ValidEnv(env) && i < |env.rules| && FiresInto(env, i, current, left, m, text, rest)
    requires RESTART in env.rules[i].flags
    ensures RunFrom(env, i, current, left) == RunFrom(env, 0, text, rest)
  {
    hide Fires, Fits, Rewritten, Message;
    assert Sane(env.rules[i].flags);
  }

  predicate IsLabel(rule: Rule, name: string) {
    LABEL in rule.flags && rule.pattern == name
  }

  predicate NoLabel(rules: seq<Rule>, name: string) {
    forall k :: 0 <= k < |rules| ==> !IsLabel(rules[k], name)
  }

  predicate FirstLabel(rules: seq<Rule>, name: string, k: nat)
    requires k < |rules|
  {
    IsLabel(rules[k], name) && forall j :: 0 <= j < k ==> !IsLabel(rules[j], name)
  }

  /** A jump takes the run to the first label of the name that its pattern expands to; it
      is refused if and only if the name is empty or no label has it. */
  lemma JumpGoesToLabel(env: Env, i: nat, current: string, left: nat, m: seq<Match>, text: string, rest: nat)
    requires ValidEnv(env) && i < |env.rules| && FiresInto(env, i, current, left, m, text, rest)
    requires JUMP in env.rules[i].flags && RESTART !in env.rules[i].flags
    ensures text == current
    ensures var name := Expansion(env, i, current, m);
      && (name == "" || NoLabel(env.rules, name) ==> RunFrom(env, i, current, left) == Run(Refused, rest))
      && (forall k :: 0 <= k < |env.rules| && name != "" && FirstLabel(env.rules, name, k) ==>
           RunFrom(env, i, current, left) == RunFrom(env, k, current, rest))
  {
    hide Fires, Fits, Rewritten, Expansion, RunFrom;
    JumpDecides(env, i, current, left, m, text, rest);
  }

  lemma JumpDecides(env: Env, i: nat, current: string, left: nat, m: seq<Match>, text: string, rest: nat)
    requires ValidEnv(env) && i < |env.rules| && FiresInto(env, i, current, left, m, text, rest)
    requires JUMP in env.rules[i].flags && RESTART !in env.rules[i].flags
    ensures text == current
    ensures var name := Expansion(env, i, current, m); var k := FindLabel(env.rules, name, 0);
      RunFrom(env, i, current, left) ==
        if name == "" || k == |env.rules| then Run(Refused, rest) else RunFrom(env, k, current, rest)
  {
    hide Fires, Fits, Rewritten, Message, Expansion, FindLabel;
    assert Sane(env.rules[i].flags);
    MessageIsExpansion(env, i, current, m);
  }

  /** A rule with none of these hands the rewritten text to the next rule. */
  lemma PlainRuleGoesOn(env: Env, i: nat, current: string, left: nat, m: seq<Match>, text: string, rest: nat)
    requires ValidEnv(env) && i < |env.rules| && FiresInto(env, i, current, left, m, text, rest)
    requires env.rules[i].flags !! {HASFILE, ABORT, EXIT, RESTART, JUMP}
    ensures RunFrom(env, i, current, left) == RunFrom(env, i + 1, text, rest)
  {
    hide Fires, Fits, Rewritten, Message;
  }
}
