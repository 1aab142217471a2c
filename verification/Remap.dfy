/** The remap rule engine: rules with jumps, restarts and repeated rewrites, under
    a limit on the number of steps. */
module Remap {
  import opened Wrappers
  import opened Substitution

  datatype Flag =
    | REWRITE | GLOBAL | EXIT | RESTART | ABORT | INVERSE | IPV4 | IPV6
    | HASFILE | RRQ | WRQ | SEDG | JUMP | LABEL | NOREGEX

  /** pattern is the replacement, or the name of a label. */
  datatype Rule = Rule(flags: set<Flag>, pattern: string)

  /** The request: its direction and the address family of the client. */
  datatype Mode = ReadRequest | WriteRequest

  datatype Family = INET | INET6 | OTHER

  /** What the engine runs against: the rules, the request, regexec, the macros, and
      the test whether a name can be opened. */
  datatype Env = Env(
    rules: seq<Rule>, mode: Mode, family: Family,
    exec: (nat, string, bool) -> Option<seq<Match>>,
    macros: Macros,
    rejects: string -> bool)

  /** The combinations of operations that parseline refuses. */
  predicate Sane(flags: set<Flag>) {
    && !({REWRITE, INVERSE} <= flags) && !({REWRITE, ABORT} <= flags) && !({REWRITE, JUMP} <= flags)
    && !({ABORT, JUMP} <= flags) && !({ABORT, RESTART} <= flags) && !({EXIT, JUMP} <= flags)
    && !({EXIT, ABORT} <= flags) && !({EXIT, RESTART} <= flags) && !({EXIT, HASFILE} <= flags)
    && !({HASFILE, JUMP} <= flags) && !({HASFILE, ABORT} <= flags) && !({HASFILE, RESTART} <= flags)
  }

  predicate ValidEnv(env: Env) {
    forall i :: 0 <= i < |env.rules| ==> Sane(env.rules[i].flags) && '\0' !in env.rules[i].pattern
  }

  /** The flags of a rule that do not fit the request: neither labels nor rules for
      the other direction or another address family are executed. */
  function BadFlags(env: Env): set<Flag> {
    {LABEL, NOREGEX} +
    (if env.mode != ReadRequest then {RRQ} else {}) + (if env.mode != WriteRequest then {WRQ} else {}) +
    (if env.family != INET then {IPV4} else {}) + (if env.family != INET6 then {IPV6} else {})
  }

  /** The rule is for this request. */
  predicate Fits(env: Env, i: nat)
    requires i < |env.rules|
  {
    env.rules[i].flags !! BadFlags(env)
  }

  /** regexec on a subject; offsets outside it, which regexec does not return, count
      as no match. */
  function Matched(env: Env, i: nat, subject: string, notBol: bool): (m: Option<seq<Match>>)
    ensures m.Some? ==> InRange(m.value, |subject|) && m.value[0].so != -1
  {
    var m := env.exec(i, subject, notBol);
    if m.Some? && InRange(m.value, |subject|) && m.value[0].so != -1 then m else None
  }

  /** The rule fires, and with which match array; an inverse rule fires without one. */
  function Fires(env: Env, i: nat, subject: string, notBol: bool): (m: Option<seq<Match>>)
    requires i < |env.rules|
    ensures m.Some? ==> InRange(m.value, |subject|)
    ensures m.Some? && INVERSE !in env.rules[i].flags ==> m.value[0].so != -1
  {
    var m := Matched(env, i, subject, notBol);
    if INVERSE in env.rules[i].flags then if m.None? then Some(Cleared) else None else m
  }

  datatype Outcome =
    | Done(text: string)
    | Aborted(message: Option<string>)
    | Dead       // the step limit was reached
    | Refused    // a jump without a label to go to

  datatype Rewrite = Rewrote(text: string, left: nat) | Expired

  predicate Rewritable(env: Env, i: nat, s: string, pm: seq<Match>, gg: nat) {
    && ValidEnv(env) && i < |env.rules| && REWRITE in env.rules[i].flags
    && gg <= |s| && InRange(pm, |s| - gg) && pm[0].so != -1
  }

  /** One substitution of rule i on s, at the match pm behind offset gg. */
  function Replaced(env: Env, i: nat, s: string, pm: seq<Match>, gg: nat): Parts
    requires Rewritable(env, i, s, pm, gg)
  {
    Substituted(env.rules[i].pattern, s, pm, env.macros, At(gg))
  }

  /** Where the search goes on after it: behind the replacement for a sed-style
      rule, else at the start. */
  function NextOffset(env: Env, i: nat, p: Parts): (k: nat)
    requires i < |env.rules|
    ensures k <= |Whole(p)|
  {
    if SEDG in env.rules[i].flags then |p.before| + |p.middle| else 0
  }

  /** The rewriting loop of one rule, on the string s with the match at offset gg. */
  function Rewritten(env: Env, i: nat, s: string, pm: seq<Match>, gg: nat, left: nat): (r: Rewrite)
    requires Rewritable(env, i, s, pm, gg)
    ensures r.Rewrote? ==> r.left <= left
    decreases left
  {
    var flags := env.rules[i].flags;
    var p := Replaced(env, i, s, pm, gg);
    var text := Whole(p);
    var gg' := NextOffset(env, i, p);
    if GLOBAL !in flags || (SEDG in flags && gg' >= |text|) then Rewrote(text, left)
    else
      var m := Fires(env, i, text[gg'..], gg' > 0);
      if m.None? then Rewrote(text, left)
      else if left == 0 then Expired
      else Rewritten(env, i, text, m.value, gg', left - 1)
  }

  /** The pattern of an abort or jump rule expanded on its own; empty counts as none. */
  function Message(env: Env, i: nat, s: string, pm: seq<Match>): Option<string>
    requires ValidEnv(env) && i < |env.rules| && InRange(pm, |s|)
  {
    var t := Whole(Substituted(env.rules[i].pattern, s, pm, env.macros, MatchOnly));
    if t == "" then None else Some(t)
  }

  /** The first label of that name, from rule i on. */
  function FindLabel(rules: seq<Rule>, name: string, i: nat): (k: nat)
    requires i <= |rules|
    ensures i <= k <= |rules|
    ensures k < |rules| ==> LABEL in rules[k].flags && rules[k].pattern == name
    ensures forall j :: i <= j < k ==> !(LABEL in rules[j].flags && rules[j].pattern == name)
    decreases |rules| - i
  {
    if i == |rules| || (LABEL in rules[i].flags && rules[i].pattern == name) then i
    else FindLabel(rules, name, i + 1)
  }

  /** How a run ends, and how many steps it has left. */
  datatype Run = Run(outcome: Outcome, left: nat)

  /** The outcome once the rule has done its rewriting: stop, or go on at a rule. */
  datatype Turn = Stop(outcome: Outcome) | Go(rule: nat, text: string)

  /** What a rule that fired on current decides, given the rewritten text. */
  function Decided(env: Env, i: nat, current: string, pm: seq<Match>, text: string): (t: Turn)
    requires ValidEnv(env) && i < |env.rules| && InRange(pm, |current|)
    requires REWRITE !in env.rules[i].flags ==> text == current
    ensures t.Go? ==> t.rule <= |env.rules|
    ensures t.Stop? ==> !t.outcome.Dead?
  {
    var flags := env.rules[i].flags;
    if HASFILE in flags && env.rejects(text) then Go(i + 1, current)
    else if ABORT in flags then Stop(Aborted(Message(env, i, text, pm)))
    else if EXIT in flags || HASFILE in flags then Stop(Done(text))
    else if RESTART in flags then Go(0, text)
    else if JUMP in flags then
      var where := Message(env, i, text, pm);
      if where.None? then Stop(Refused)
      else
        var k := FindLabel(env.rules, where.value, 0);
        if k == |env.rules| then Stop(Refused) else Go(k, text)
    else Go(i + 1, text)
  }

  /** One rule: the run ends, or goes on at a rule with a text and fewer steps, or, past
      a rule that does not fit the request, with as many. */
  datatype Move = Ends(run: Run) | Continues(rule: nat, text: string, left: nat)

  function OneRule(env: Env, i: nat, current: string, left: nat): (v: Move)
    requires ValidEnv(env) && i < |env.rules|
    ensures v.Continues? ==> v.rule <= |env.rules| && (v.left < left || (v.left == left && v.rule == i + 1))
    ensures v.Ends? ==> v.run.left <= left && (v.run.outcome.Dead? ==> v.run.left == 0)
  {
    if !Fits(env, i) then Continues(i + 1, current, left)
    else if left == 0 then Ends(Run(Dead, 0))
    else
      var m := Fires(env, i, current, false);
      if m.None? then Continues(i + 1, current, left - 1)
      else
        var w := if REWRITE in env.rules[i].flags then Rewritten(env, i, current, m.value, 0, left - 1)
                 else Rewrote(current, left - 1);
        if w.Expired? then Ends(Run(Dead, 0))
        else
          match Decided(env, i, current, m.value, w.text)
          case Stop(outcome) => Ends(Run(outcome, w.left))
          case Go(k, text) => Continues(k, text, w.left)
  }

  /** rewrite_string from rule i on, with left steps to go: the measure is the steps
      left, and for rules that are skipped, the distance to the end of the list. */
  function RunFrom(env: Env, i: nat, current: string, left: nat): (r: Run)
    requires ValidEnv(env) && i <= |env.rules|
    ensures r.left <= left
    ensures r.outcome.Dead? ==> r.left == 0
    decreases left, |env.rules| - i
  {
    if i == |env.rules| then Run(Done(current), left)
    else
      match OneRule(env, i, current, left)
      case Ends(run) => run
      case Continues(k, text, rest) => RunFrom(env, k, text, rest)
  }

  /** The rules applied to a string, as rewrite_string applies them. */
  function Rewriting(env: Env, input: string, mapSteps: nat): Run
    requires ValidEnv(env)
  {
    RunFrom(env, 0, input, mapSteps)
  }

  // --------------------------------------------------------------------- the loops

  /** The loop over the substitutions of one rule. */
  method RewriteByRule(env: Env, i: nat, current: string, match0: seq<Match>, deadman: nat) returns (r: Rewrite)
    requires Rewritable(env, i, current, match0, 0)
    ensures r == Rewritten(env, i, current, match0, 0, deadman)
  {
    hide Fires, Expand;
    var rule := env.rules[i];
    var newstr, pm, ggoffset: nat, left: nat := current, match0, 0, deadman;
    while true
      invariant Rewritable(env, i, newstr, pm, ggoffset) && left <= deadman
      invariant Rewritten(env, i, newstr, pm, ggoffset, left) == Rewritten(env, i, current, match0, 0, deadman)
      decreases left
    {
      ghost var p := Replaced(env, i, newstr, pm, ggoffset);
      var buf, len, next := GenMatchString(rule.pattern, newstr, pm, env.macros, At(ggoffset));
      assert buf[..len] == Whole(p) && next == Some(|p.before| + |p.middle|);
      newstr, ggoffset := buf[..len], next.value;
      if GLOBAL !in rule.flags {
        return Rewrote(newstr, left);
      }
      if SEDG !in rule.flags {
        ggoffset := 0;
      } else if ggoffset >= len {
        return Rewrote(newstr, left);
      }
      var m := Fires(env, i, newstr[ggoffset..], ggoffset > 0);
      if m.None? {
        return Rewrote(newstr, left);
      }
      if left == 0 {
        return Expired;
      }
      pm, left := m.value, left - 1;
    }
  }

  /** The search for the label of a jump. */
  method LookUp(rules: seq<Rule>, name: string) returns (next: nat)
    ensures next == FindLabel(rules, name, 0)
  {
    next := 0;
    while next < |rules| && !(LABEL in rules[next].flags && rules[next].pattern == name)
      invariant next <= |rules|
      invariant FindLabel(rules, name, next) == FindLabel(rules, name, 0)
    {
      next := next + 1;
    }
  }

  /** The text of an abort or jump rule. */
  method MessageText(env: Env, i: nat, s: string, pm: seq<Match>) returns (text: Option<string>)
    requires ValidEnv(env) && i < |env.rules| && InRange(pm, |s|)
    ensures text == Message(env, i, s, pm)
  {
    hide Expand;
    var buf, len, next := GenMatchString(env.rules[i].pattern, s, pm, env.macros, MatchOnly);
    assert buf[..len] == Whole(Substituted(env.rules[i].pattern, s, pm, env.macros, MatchOnly));
    text := if len == 0 then None else Some(buf[..len]);
  }

  /** What happens after the rewriting of a rule that fired. */
  method Decide(env: Env, i: nat, current: string, pm: seq<Match>, newstr: string) returns (t: Turn)
    requires ValidEnv(env) && i < |env.rules| && InRange(pm, |current|)
    requires REWRITE !in env.rules[i].flags ==> newstr == current
    ensures t == Decided(env, i, current, pm, newstr)
  {
    hide Message, FindLabel;
    var flags := env.rules[i].flags;
    if HASFILE in flags && env.rejects(newstr) {
      return Go(i + 1, current);
    }
    var message: Option<string> := None;
    if ABORT in flags || JUMP in flags {
      message := MessageText(env, i, newstr, pm);
    }
    if ABORT in flags {
      return Stop(Aborted(message));
    }
    if EXIT in flags || HASFILE in flags {
      return Stop(Done(newstr));
    }
    var next := i + 1;
    if RESTART in flags {
      next := 0;
    } else if JUMP in flags {
      if message.None? {
        return Stop(Refused);
      }
      next := LookUp(env.rules, message.value);
      if next == |env.rules| {
        return Stop(Refused);
      }
    }
    t := Go(next, newstr);
  }

  /** What one rule does. */
  method ApplyRule(env: Env, i: nat, current: string, steps: nat) returns (v: Move)
    requires ValidEnv(env) && i < |env.rules|
    ensures v == OneRule(env, i, current, steps)
  {
    hide Fires, Decided, Rewritten;
    if !Fits(env, i) {
      return Continues(i + 1, current, steps);
    }
    if steps == 0 {
      return Ends(Run(Dead, 0));
    }
    var deadman := steps - 1;
    var m := Fires(env, i, current, false);
    if m.None? {
      return Continues(i + 1, current, deadman);
    }
    var w := Rewrote(current, deadman);
    if REWRITE in env.rules[i].flags {
      w := RewriteByRule(env, i, current, m.value, deadman);
    }
    if w.Expired? {
      return Ends(Run(Dead, 0));
    }
    var t := Decide(env, i, current, m.value, w.text);
    v := if t.Stop? then Ends(Run(t.outcome, w.left)) else Continues(t.rule, t.text, w.left);
  }

  /** rewrite_string: ends under every rule list, after at most mapSteps steps. */
  method RewriteString(env: Env, input: string, mapSteps: nat) returns (outcome: Outcome, steps: nat)
    requires ValidEnv(env)
    ensures steps <= mapSteps
    ensures Rewriting(env, input, mapSteps) == Run(outcome, mapSteps - steps)
  {
    hide OneRule;
    var current, deadman: nat, i: nat := input, mapSteps, 0;
    while i < |env.rules|
      invariant i <= |env.rules| && deadman <= mapSteps
      invariant RunFrom(env, i, current, deadman) == Rewriting(env, input, mapSteps)
      decreases deadman, |env.rules| - i
    {
      var v := ApplyRule(env, i, current, deadman);
      if v.Ends? {
        return v.run.outcome, mapSteps - v.run.left;
      }
      i, current, deadman := v.rule, v.text, v.left;
    }
    return Done(current), mapSteps - deadman;
  }

  // ---------------------------------------------------------------- the step limit

  /** More steps change nothing for a rewriting loop that did not run out of them. */
  lemma {:induction false} RewrittenMonotone(env: Env, i: nat, s: string, pm: seq<Match>, gg: nat, left: nat, more: nat)
    requires Rewritable(env, i, s, pm, gg) && Rewritten(env, i, s, pm, gg, left).Rewrote?
    ensures var r := Rewritten(env, i, s, pm, gg, left);
      Rewritten(env, i, s, pm, gg, left + more) == Rewrote(r.text, r.left + more)
    decreases left
  {
    hide Fires, Replaced;
    var flags := env.rules[i].flags;
    var p := Replaced(env, i, s, pm, gg);
    var text := Whole(p);
    var gg' := NextOffset(env, i, p);
    if GLOBAL !in flags || (SEDG in flags && gg' >= |text|) {
    } else {
      var m := Fires(env, i, text[gg'..], gg' > 0);
      if m.Some? {
        RewrittenMonotone(env, i, text, m.value, gg', left - 1, more);
      }
    }
  }

  lemma OneRuleMonotone(env: Env, i: nat, current: string, left: nat, more: nat)
    requires ValidEnv(env) && i < |env.rules|
    ensures var v := OneRule(env, i, current, left);
      v.Ends? && !v.run.outcome.Dead? ==>
        OneRule(env, i, current, left + more) == Ends(Run(v.run.outcome, v.run.left + more))
    ensures var v := OneRule(env, i, current, left);
      v.Continues? ==> OneRule(env, i, current, left + more) == Continues(v.rule, v.text, v.left + more)
  {
    hide Fires, Decided, Rewritten, Fits;
    var m := Fires(env, i, current, false);
    if left > 0 && m.Some? && REWRITE in env.rules[i].flags {
      if Rewritten(env, i, current, m.value, 0, left - 1).Rewrote? {
        RewrittenMonotone(env, i, current, m.value, 0, left - 1, more);
      }
    }
  }

  /** The step limit matters only when it strikes: a run that ends within it ends in
      the same way, after the same number of steps, under every higher limit. */
  lemma {:induction false} LimitOnlyStrikes(env: Env, i: nat, current: string, left: nat, more: nat)
    requires ValidEnv(env) && i <= |env.rules| && !RunFrom(env, i, current, left).outcome.Dead?
    ensures var r := RunFrom(env, i, current, left);
      RunFrom(env, i, current, left + more) == Run(r.outcome, r.left + more)
    decreases left, |env.rules| - i
  {
    hide OneRule;
    if i < |env.rules| {
      OneRuleMonotone(env, i, current, left, more);
      var v := OneRule(env, i, current, left);
      if v.Continues? {
        LimitOnlyStrikes(env, v.rule, v.text, v.left, more);
      }
    }
  }

  lemma OneRuleStraight(env: Env, i: nat, current: string, left: nat)
    requires ValidEnv(env) && i < |env.rules| && left > 0 && env.rules[i].flags !! {RESTART, JUMP, GLOBAL}
    ensures var v := OneRule(env, i, current, left);
      if v.Ends? then !v.run.outcome.Dead? else v.rule == i + 1 && v.left >= left - 1
  {
    hide Fires, Fits, Message, Replaced;
  }

  /** A list without jumps, restarts and repetition never needs more steps than it
      has rules. */
  lemma {:induction false} StraightLine(env: Env, i: nat, current: string, left: nat)
    requires ValidEnv(env) && i <= |env.rules| && left >= |env.rules| - i
    requires forall j :: 0 <= j < |env.rules| ==> env.rules[j].flags !! {RESTART, JUMP, GLOBAL}
    ensures !RunFrom(env, i, current, left).outcome.Dead?
    decreases |env.rules| - i
  {
    hide OneRule;
    if i < |env.rules| {
      OneRuleStraight(env, i, current, left);
      var v := OneRule(env, i, current, left);
      if v.Continues? {
        StraightLine(env, v.rule, v.text, v.left);
      }
    }
  }

  lemma OneRuleTested(env: Env, i: nat, current: string, left: nat)
    requires ValidEnv(env) && i < |env.rules| && (REWRITE in env.rules[i].flags ==> HASFILE in env.rules[i].flags)
    ensures var v := OneRule(env, i, current, left);
      if v.Continues? then v.text == current
      else v.run.outcome.Done? ==> v.run.outcome.text == current || !env.rejects(v.run.outcome.text)
  {
    hide Fires, Fits, Message, Rewritten;
  }

  /** If every rewriting rule asks for the file, the name that comes out is the one
      that went in, or one that can be opened. */
  lemma {:induction false} RewritesAreTested(env: Env, i: nat, current: string, left: nat)
    requires ValidEnv(env) && i <= |env.rules|
    requires forall j :: 0 <= j < |env.rules| && REWRITE in env.rules[j].flags ==> HASFILE in env.rules[j].flags
    ensures var r := RunFrom(env, i, current, left).outcome;
      r.Done? ==> r.text == current || !env.rejects(r.text)
    decreases left, |env.rules| - i
  {
    hide OneRule;
    if i < |env.rules| {
      OneRuleTested(env, i, current, left);
      var v := OneRule(env, i, current, left);
      if v.Continues? {
        RewritesAreTested(env, v.rule, v.text, v.left);
      }
    }
  }

  /** Rules that do not fit the request are passed over: the run is that of the next
      rule that fits, and costs no step. */
  lemma {:induction false} UnfitRulesSkipped(env: Env, i: nat, j: nat, current: string, left: nat)
    requires ValidEnv(env) && i <= j <= |env.rules|
    requires forall k :: i <= k < j ==> !Fits(env, k)
    ensures RunFrom(env, i, current, left) == RunFrom(env, j, current, left)
    decreases j - i
  {
    hide Fires, Fits, Rewritten, Decided;
    if i < j {
      UnfitRulesSkipped(env, i + 1, j, current, left);
    }
  }

  // --------------------------------------------------------------- sed-style rules

  lemma OffsetKept(env: Env, i: nat, s: string, pm: seq<Match>, gg: nat)
    requires Rewritable(env, i, s, pm, gg) && SEDG in env.rules[i].flags
    ensures var p := Replaced(env, i, s, pm, gg); var k := NextOffset(env, i, p);
      && s[..gg] <= p.before && p.before + p.middle == Whole(p)[..k]
  {
    hide Expand;
    var p := Replaced(env, i, s, pm, gg);
    assert p.before[..gg] == s[..gg];
  }

  /** Under "gg" the text before the moving offset is never altered again. */
  lemma {:induction false} BeforeOffsetKept(env: Env, i: nat, s: string, pm: seq<Match>, gg: nat, left: nat)
    requires Rewritable(env, i, s, pm, gg) && SEDG in env.rules[i].flags
    requires Rewritten(env, i, s, pm, gg, left).Rewrote?
    ensures var p := Replaced(env, i, s, pm, gg);
      s[..gg] <= p.before && p.before + p.middle <= Rewritten(env, i, s, pm, gg, left).text
    decreases left
  {
    hide Replaced, Fires, Whole, NextOffset;
    OffsetKept(env, i, s, pm, gg);
    var p := Replaced(env, i, s, pm, gg);
    var text, gg' := Whole(p), NextOffset(env, i, p);
    if GLOBAL in env.rules[i].flags && gg' < |text| {
      var m := Fires(env, i, text[gg'..], gg' > 0);
      if m.Some? {
        BeforeOffsetKept(env, i, text, m.value, gg', left - 1);
        var p' := Replaced(env, i, text, m.value, gg');
        assert text[..gg'] <= p'.before + p'.middle;
      }
    }
  }

  lemma TailLength(env: Env, i: nat, s: string, pm: seq<Match>, gg: nat)
    requires Rewritable(env, i, s, pm, gg) && SEDG in env.rules[i].flags
    ensures var p := Replaced(env, i, s, pm, gg); var k := NextOffset(env, i, p);
      |Whole(p)| - k == |s| - gg - pm[0].eo && Whole(p)[k..] == s[gg..][pm[0].eo..] && k >= gg
  {
    hide Expand;
    var p := Replaced(env, i, s, pm, gg);
    assert Whole(p)[|p.before| + |p.middle|..] == p.after;
  }

  /** The match ends where the search for it began, and the search after it is the same
      search once more: the same text, at the start of it or not. */
  predicate Repeats(env: Env, i: nat, s: string, pm: seq<Match>, gg: nat)
    requires Rewritable(env, i, s, pm, gg)
  {
    pm[0].eo == 0 && (gg > 0 || NextOffset(env, i, Replaced(env, i, s, pm, gg)) == 0)
  }

  /** A sed-style rule comes to such a match before it has gone through the text. */
  function Stalls(env: Env, i: nat, s: string, pm: seq<Match>, gg: nat): bool
    requires Rewritable(env, i, s, pm, gg) && SEDG in env.rules[i].flags
    decreases |s| - gg, if gg == 0 then 1 else 0
  {
    TailLength(env, i, s, pm, gg);
    var p := Replaced(env, i, s, pm, gg);
    var text, k := Whole(p), NextOffset(env, i, p);
    if GLOBAL !in env.rules[i].flags || k >= |text| then false
    else if Repeats(env, i, s, pm, gg) then true
    else
      var m := Fires(env, i, text[k..], k > 0);
      m.Some? && Stalls(env, i, text, m.value, k)
  }

  /** From a repeating match on the loop takes the same step for ever. */
  lemma {:induction false} RepeatingExpires(env: Env, i: nat, s: string, pm: seq<Match>, gg: nat, left: nat)
    requires Rewritable(env, i, s, pm, gg) && {SEDG, GLOBAL} <= env.rules[i].flags
    requires Fires(env, i, s[gg..], gg > 0) == Some(pm) && Repeats(env, i, s, pm, gg) && gg < |s|
    ensures Rewritten(env, i, s, pm, gg, left).Expired?
    decreases left
  {
    hide Fires, Replaced;
    TailLength(env, i, s, pm, gg);
    var p := Replaced(env, i, s, pm, gg);
    var text, k := Whole(p), NextOffset(env, i, p);
    assert text[k..] == s[gg..] && (k > 0 <==> gg > 0);
    if gg == 0 {
      assert text == text[0..] == s[0..] == s;
    }
    if left > 0 {
      RepeatingExpires(env, i, text, pm, k, left - 1);
    }
  }

  lemma {:induction false} StallingExpires(env: Env, i: nat, s: string, pm: seq<Match>, gg: nat, left: nat)
    requires Rewritable(env, i, s, pm, gg) && SEDG in env.rules[i].flags
    requires Fires(env, i, s[gg..], gg > 0) == Some(pm) && Stalls(env, i, s, pm, gg)
    ensures Rewritten(env, i, s, pm, gg, left).Expired?
    decreases left
  {
    hide Fires, Replaced, Repeats;
    TailLength(env, i, s, pm, gg);
    if Repeats(env, i, s, pm, gg) {
      RepeatingExpires(env, i, s, pm, gg, left);
    } else if left > 0 {
      var p := Replaced(env, i, s, pm, gg);
      var text, k := Whole(p), NextOffset(env, i, p);
      StallingExpires(env, i, text, Fires(env, i, text[k..], k > 0).value, k, left - 1);
    }
  }

  lemma {:induction false} NotStallingEnds(env: Env, i: nat, s: string, pm: seq<Match>, gg: nat, left: nat)
    requires Rewritable(env, i, s, pm, gg) && SEDG in env.rules[i].flags && !Stalls(env, i, s, pm, gg)
    requires left >= |s| - gg + (if gg == 0 then 1 else 0)
    ensures Rewritten(env, i, s, pm, gg, left).Rewrote?
    decreases left
  {
    hide Fires, Replaced;
    TailLength(env, i, s, pm, gg);
    var p := Replaced(env, i, s, pm, gg);
    var text, k := Whole(p), NextOffset(env, i, p);
    if GLOBAL in env.rules[i].flags && k < |text| {
      var m := Fires(env, i, text[k..], k > 0);
      if m.Some? {
        NotStallingEnds(env, i, text, m.value, k, left - 1);
      }
    }
  }

  /** A sed-style rule ends by itself, in at most one step per character and one more,
      if and only if it does not stall; if it stalls no step limit is enough. */
  lemma SedStyleEnds(env: Env, i: nat, s: string, pm: seq<Match>, gg: nat)
    requires Rewritable(env, i, s, pm, gg) && SEDG in env.rules[i].flags
    requires Fires(env, i, s[gg..], gg > 0) == Some(pm)
    ensures !Stalls(env, i, s, pm, gg) <==> exists left: nat :: Rewritten(env, i, s, pm, gg, left).Rewrote?
    ensures !Stalls(env, i, s, pm, gg) ==> Rewritten(env, i, s, pm, gg, |s| - gg + 1).Rewrote?
  {
    hide Fires, Replaced, Repeats, Rewritten;
    if Stalls(env, i, s, pm, gg) {
      forall left: nat ensures Rewritten(env, i, s, pm, gg, left).Expired? {
        StallingExpires(env, i, s, pm, gg, left);
      }
    } else {
      NotStallingEnds(env, i, s, pm, gg, |s| - gg + 1);
    }
  }

  /** There are rules that stall: one that matches nothing, everywhere, and replaces it
      by nothing, runs out of any number of steps on a string that is not empty. */
  lemma {:induction false} EmptyMatchExpires(env: Env, s: string, left: nat)
    requires ValidEnv(env) && env.rules == [Rule({REWRITE, GLOBAL, SEDG}, "")] && s != ""
    requires env.exec == ((i, t, b) => Some(Cleared[0 := Match(0, 0)]))
    ensures Rewritten(env, 0, s, Cleared[0 := Match(0, 0)], 0, left).Expired?
    decreases left
  {
    var pm := Cleared[0 := Match(0, 0)];
    assert env.rules[0].flags == {REWRITE, GLOBAL, SEDG};
    var p := Replaced(env, 0, s, pm, 0);
    assert p.before == "" && p.middle == "" && p.after == s;
    assert Whole(p) == s && s[0..] == s;
    assert Fires(env, 0, s, false) == Some(pm);
    if left > 0 {
      EmptyMatchExpires(env, s, left - 1);
    }
  }
}
