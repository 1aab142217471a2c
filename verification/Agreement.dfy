/** The option exchange from end to end: the client's request, the daemon's answer,
    and what both sides then use for the transfer. */
module Agreement {
  import opened Wrappers
  import opened Octets
  import opened Requests
  import opened Negotiation
  import Backoff
  import opened Client
  import D = Daemon

  /** How the daemon replies to a request for a file it can open. */
  datatype Reply =
    | Refused
    | Started(oack: Option<bytes>, segsize: nat, windowsize: nat, rollover: nat)

  const Fresh: Deal := Deal(Blank, 0, 0, 0, USEC_PER_SEC, Backoff.TIMEOUT_LIMIT * USEC_PER_SEC)

  /** The negotiation keeps every granted option answerable. */
  lemma StaysAnswerable(s: Settings, b: bytes, t: Table, t': Table)
    requires TableOk(b, t) && SameRequest(t, t')
    ensures Answerable(s, b, t')
    ensures forall o: Opt :: Granted(s, t', o) ==> Spelled(b, o, t'[o].clientAt)
  {
    hide SameName, ToUMax, Name;
    forall o: Opt | Granted(s, t', o) ensures Spelled(b, o, t'[o].clientAt) {
      assert EntryOk(b, o, t[o]);
    }
  }

  ghost predicate Servable(s: Settings, isRead: bool, b: bytes) {
    && Parsed(b).Accepted?
    && !(!isRead && Asked(s, Parsed(b).table, TSIZE) && Parsed(b).table[TSIZE].value > s.maxUpload)
  }

  /** What the daemon does with the table of an accepted request. */
  ghost function Dealt(s: Settings, isRead: bool, b: bytes): (d: Deal)
    requires ValidSettings(s) && Servable(s, isRead, b)
  {
    Negotiated(s, isRead, Parsed(b).mode, Fresh.(table := Parsed(b).table))
  }

  lemma {:induction false} ParsedUngranted(b: bytes, cp: nat, t: Table)
    requires cp <= |b| && NothingGranted(t) && OptionsFrom(b, cp, t).Some?
    ensures NothingGranted(OptionsFrom(b, cp, t).value)
    decreases |b| - cp
  {
    hide NulAt, Lookup, ToUMax;
    if cp < |b| && b[cp] != ZERO {
      var val := NulAt(b, cp) + 1;
      if val < |b| && b[val] != ZERO {
        ParsedUngranted(b, NulAt(b, val) + 1, WithOption(t, b, cp, val));
      }
    }
  }

  lemma TableUngranted(b: bytes)
    requires Parsed(b).Accepted?
    ensures NothingGranted(Parsed(b).table)
  {
    hide OptionsFrom, NothingGranted;
    assert NothingGranted(Blank) by { BlankUngranted(); }
    var m := NulAt(b, 0) + 1;
    ParsedUngranted(b, NulAt(b, m) + 1, Blank);
  }

  lemma BlankUngranted()
    ensures NothingGranted(Blank)
  {
  }

  /** For every request: what the daemon is about to answer it can answer. */
  lemma DealtAnswerable(s: Settings, isRead: bool, b: bytes)
    requires ValidSettings(s) && !s.rejectAll && Servable(s, isRead, b)
    ensures Answerable(s, b, Dealt(s, isRead, b).table)
    ensures var t := Dealt(s, isRead, b).table; forall o: Opt :: Granted(s, t, o) ==> Spelled(b, o, t[o].clientAt)
  {
    hide Negotiated, Spelled, Parsed, NothingGranted, TableOk, SameRequest;
    ParsedOk(b);
    TableUngranted(b);
    GrantsMatchTransfer(s, isRead, Parsed(b).mode, Fresh.(table := Parsed(b).table));
    StaysAnswerable(s, b, Parsed(b).table, Dealt(s, isRead, b).table);
  }

  /** Where a row stands in the request, and what is kept of it. */
  lemma RowKept(s: Settings, isRead: bool, b: bytes, o: Opt)
    requires ValidSettings(s) && !s.rejectAll && Servable(s, isRead, b)
    ensures var e, e' := Parsed(b).table[o], Dealt(s, isRead, b).table[o];
      EntryOk(b, o, e) && e'.req == e.req && e'.clientAt == e.clientAt && e'.text == e.text
  {
    hide Negotiated, EntryOk, Parsed, NothingGranted;
    ParsedOk(b);
    TableUngranted(b);
    GrantsMatchTransfer(s, isRead, Parsed(b).mode, Fresh.(table := Parsed(b).table));
  }

  /** A cookie is granted if and only if it is asked for, not refused and at most 255
      bytes long, and then the answer repeats the bytes of the request: the client's
      spelling of the name, and the value, byte for byte. */
  lemma CookieEchoed(s: Settings, isRead: bool, b: bytes)
    requires ValidSettings(s) && !s.rejectAll && Servable(s, isRead, b)
    ensures var asked, t := Parsed(b).table[COOKIE], Dealt(s, isRead, b).table;
      && (Granted(s, t, COOKIE) <==> asked.req && COOKIE !in s.refuse && |asked.text| - 1 <= 255)
      && (Granted(s, t, COOKIE) ==>
            && Spelled(b, COOKIE, asked.clientAt) && t[COOKIE].clientAt == asked.clientAt
            && var n := |Name(COOKIE)| + 1 + |asked.text|;
            && asked.clientAt + n <= |b| && Answer(b, t, COOKIE) == b[asked.clientAt..asked.clientAt + n])
  {
    hide Negotiated, Parsed, NothingGranted, SameRequest, SameName, ToUMax, Decimal;
    TableUngranted(b);
    GrantsMatchTransfer(s, isRead, Parsed(b).mode, Fresh.(table := Parsed(b).table));
    RowKept(s, isRead, b, COOKIE);
    var asked := Parsed(b).table[COOKIE];
    if asked.req {
      var at, n := asked.clientAt, |Name(COOKIE)| + 1;
      assert b[at..at + n + |asked.text|] == b[at..at + n] + b[at + n..at + n + |asked.text|];
    }
  }

  /** The daemon's reply to a request b, without its opcode. */
  ghost function Serve(s: Settings, isRead: bool, b: bytes): Reply
    requires ValidSettings(s)
  {
    if !Servable(s, isRead, b) then Refused
    else if s.rejectAll then Started(None, 0, 0, 0)
    else
      var d := Dealt(s, isRead, b);
      DealtAnswerable(s, isRead, b);
      var answers := Answers(s, b, d.table, 0);
      Started(if answers == [] then None else Some([0, 6] + answers), d.segsize, d.windowsize, d.rollover)
  }

  /** What the answer says about option o, if it is granted: the client's own spelling of
      its name, and the value, which for a cookie is the text of the request. */
  function Told(s: Settings, b: bytes, t: Table, o: Opt): bytes
    requires t[o].clientAt + |Name(o)| <= |b| || !Granted(s, t, o)
    requires t[o].text != [] || !Granted(s, t, o)
  {
    if !Granted(s, t, o) then []
    else
      var e := t[o];
      Pair(b[e.clientAt..e.clientAt + |Name(o)|],
           if o == COOKIE then e.text[..|e.text| - 1] else Decimal(e.value))
  }

  lemma ToldIsAnswer(s: Settings, isRead: bool, b: bytes, o: Opt)
    requires ValidSettings(s) && !s.rejectAll && Servable(s, isRead, b)
    ensures var t := Dealt(s, isRead, b).table;
      Granted(s, t, o) ==>
        && t[o].clientAt + |Name(o)| < |b| && t[o].text != []
        && Answer(b, t, o) == Told(s, b, t, o)
  {
    hide Parsed, Dealt, EntryOk;
    RowKept(s, isRead, b, o);
    ToldPair(s, b, Dealt(s, isRead, b).table, o, Parsed(b).table[o]);
  }

  lemma ToldPair(s: Settings, b: bytes, t: Table, o: Opt, e: Entry)
    requires EntryOk(b, o, e) && t[o].req == e.req && t[o].clientAt == e.clientAt && t[o].text == e.text
    ensures Granted(s, t, o) ==>
      && t[o].clientAt + |Name(o)| < |b| && t[o].text != []
      && Answer(b, t, o) == Told(s, b, t, o)
  {
    hide SameName, ToUMax, Decimal, Name;
    var n := |Name(o)|;
    if e.req {
      assert b[e.clientAt..e.clientAt + n + 1] == b[e.clientAt..e.clientAt + n] + [ZERO];
      assert e.text == e.text[..|e.text| - 1] + [ZERO];
    }
  }

  /** The OACK of any accepted request: all granted options and no others, each once, in
      the order of the table. */
  lemma OackSpelled(s: Settings, isRead: bool, b: bytes)
    requires ValidSettings(s) && !s.rejectAll && Servable(s, isRead, b)
    ensures var t := Dealt(s, isRead, b).table;
      && (forall o: Opt :: Granted(s, t, o) ==> t[o].clientAt + |Name(o)| < |b| && t[o].text != [])
      && var told := Told(s, b, t, BLKSIZE) + (Told(s, b, t, BLKSIZE2) + (Told(s, b, t, COOKIE) +
           (Told(s, b, t, ROLLOVER) + (Told(s, b, t, TIMEOUT) + (Told(s, b, t, TSIZE) +
           (Told(s, b, t, UTIMEOUT) + Told(s, b, t, WINDOWSIZE)))))));
         Serve(s, isRead, b) == Started(if told == [] then None else Some([0, 6] + told), Dealt(s, isRead, b).segsize,
                                        Dealt(s, isRead, b).windowsize, Dealt(s, isRead, b).rollover)
  {
    hide Negotiated, Parsed, Answers, Answer, Told, Granted, Dealt, Servable, Name;
    var t := Dealt(s, isRead, b).table;
    DealtAnswerable(s, isRead, b);
    forall o: Opt | Granted(s, t, o) ensures t[o].clientAt + |Name(o)| < |b| && t[o].text != [] {
      ToldIsAnswer(s, isRead, b, o);
    }
    AnswersTold(s, isRead, b);
  }

  lemma AnswersTold(s: Settings, isRead: bool, b: bytes)
    requires ValidSettings(s) && !s.rejectAll && Servable(s, isRead, b)
    requires var t := Dealt(s, isRead, b).table;
      && Answerable(s, b, t)
      && forall o: Opt :: Granted(s, t, o) ==> t[o].clientAt + |Name(o)| < |b| && t[o].text != []
    ensures var t := Dealt(s, isRead, b).table;
      Answers(s, b, t, 0) ==
        Told(s, b, t, BLKSIZE) + (Told(s, b, t, BLKSIZE2) + (Told(s, b, t, COOKIE) +
        (Told(s, b, t, ROLLOVER) + (Told(s, b, t, TIMEOUT) + (Told(s, b, t, TSIZE) +
        (Told(s, b, t, UTIMEOUT) + Told(s, b, t, WINDOWSIZE)))))))
  {
    hide Negotiated, Parsed, Answers, Answer, Told, Granted, Dealt, Servable, Name, Answerable;
    var t := Dealt(s, isRead, b).table;
    AnswersEnd(s, b, t);
    AnswerTold(s, isRead, b, 0);
    AnswerTold(s, isRead, b, 1);
    AnswerTold(s, isRead, b, 2);
    AnswerTold(s, isRead, b, 3);
    AnswerTold(s, isRead, b, 4);
    AnswerTold(s, isRead, b, 5);
    AnswerTold(s, isRead, b, 6);
    AnswerTold(s, isRead, b, 7);
    Chained([Answers(s, b, t, 0), Answers(s, b, t, 1), Answers(s, b, t, 2), Answers(s, b, t, 3), Answers(s, b, t, 4),
             Answers(s, b, t, 5), Answers(s, b, t, 6), Answers(s, b, t, 7), Answers(s, b, t, 8)],
            [Told(s, b, t, BLKSIZE), Told(s, b, t, BLKSIZE2), Told(s, b, t, COOKIE), Told(s, b, t, ROLLOVER),
             Told(s, b, t, TIMEOUT), Told(s, b, t, TSIZE), Told(s, b, t, UTIMEOUT), Told(s, b, t, WINDOWSIZE)]);
  }

  lemma Untold(s: Settings, b: bytes, t: Table, o: Opt)
    requires !Granted(s, t, o) || (t[o].clientAt + |Name(o)| <= |b| && t[o].text != [])
    ensures !Granted(s, t, o) ==> Told(s, b, t, o) == []
  {
  }

  lemma AnswerTold(s: Settings, isRead: bool, b: bytes, i: nat)
    requires ValidSettings(s) && !s.rejectAll && Servable(s, isRead, b) && i < |Order|
    ensures var t := Dealt(s, isRead, b).table; var o := Order[i];
      && Answerable(s, b, t)
      && (Granted(s, t, o) ==> t[o].clientAt + |Name(o)| < |b| && t[o].text != [])
      && Answers(s, b, t, i) == Told(s, b, t, o) + Answers(s, b, t, i + 1)
  {
    hide Negotiated, Parsed, Answers, Answer, Told, Granted, Dealt, Servable, Name;
    var t := Dealt(s, isRead, b).table;
    DealtAnswerable(s, isRead, b);
    ToldIsAnswer(s, isRead, b, Order[i]);
    AnswersStep(s, b, t, i);
    Untold(s, b, t, Order[i]);
  }

  lemma Chained(a: seq<bytes>, w: seq<bytes>)
    requires |w| == 8 && |a| == 9 && a[8] == [] && forall i :: 0 <= i < 8 ==> a[i] == w[i] + a[i + 1]
    ensures a[0] == w[0] + (w[1] + (w[2] + (w[3] + (w[4] + (w[5] + (w[6] + w[7]))))))
  {
    assert a[7] == w[7];
  }

  /** What the client makes of it: without an OACK the defaults hold. */
  ghost function Taken(c: ClientSettings, r: Reply): Option<OptReq>
    requires r.Started?
  {
    if r.oack.None? then Some(Defaults) else Understood(Wanted(c), r.oack.value)
  }

  /** Both ends cut the file in the same way. */
  ghost predicate Agreed(c: ClientSettings, r: Reply)
    requires r.Started?
  {
    && Taken(c, r).Some? && Taken(c, r).value.blksize == r.segsize && Taken(c, r).value.window == r.windowsize
    && r.rollover == 0
  }

  lemma NothingDealt(s: Settings, isRead: bool, b: bytes)
    requires ValidSettings(s) && s.rejectAll && Servable(s, isRead, b)
    ensures Dealt(s, isRead, b) == Fresh.(table := Parsed(b).table)
  {
    hide Parsed;
  }

  /** The request handler, from the packet to the answer. */
  method Handle(daemon: D.Daemon, isRead: bool, b: bytes) returns (r: Reply)
    requires ValidSettings(daemon.settings) && daemon.State() == Fresh
    modifies daemon
    ensures r == Serve(daemon.settings, isRead, b)
  {
    hide Parsed, Negotiated, Answers, Answerable, Granted;
    var s := daemon.settings;
    var p := daemon.ParseRequest(b);
    if !p.Accepted? {
      return Refused;
    }
    if !isRead {
      var ts := daemon.Requested(TSIZE);
      if ts.Some? && ts.value > s.maxUpload {
        return Refused;
      }
    }
    daemon.NegotiateOptions(isRead, p.mode);
    if s.rejectAll {
      NothingDealt(s, isRead, b);
      return Started(None, daemon.segsize, daemon.windowsize, daemon.rollover);
    }
    DealtAnswerable(s, isRead, b);
    assert daemon.State() == Dealt(s, isRead, b);
    var oack := daemon.BuildOack(b);
    return Started(if oack == null then None else Some(oack[..]), daemon.segsize, daemon.windowsize, daemon.rollover);
  }

  // ----------------------------------------------------------- the table of a client

  /** The table holds exactly what the client wants. */
  ghost predicate Holds(t: Table, r: OptReq) {
    && (forall o: Opt :: t[o].req <==> o in r.options)
    && (BLKSIZE in r.options ==> t[BLKSIZE].value == r.blksize)
    && (WINDOWSIZE in r.options ==> t[WINDOWSIZE].value == r.window)
    && (TSIZE in r.options ==> r.tsize == t[TSIZE].value)
  }

  lemma MaybeEntered(b: bytes, cp: nat, t: Table, asked: bool, o: Opt, n: nat, rest: bytes)
    returns (next: nat, t': Table)
    requires cp <= |b| && n <= UINTMAX && b[cp..] == Maybe(asked, o, n) + rest
    requires o != COOKIE
    ensures next <= |b| && b[next..] == rest && OptionsFrom(b, cp, t) == OptionsFrom(b, next, t')
    ensures Sets(t, t', asked, o, n)
  {
    hide OptionsFrom, Pair, Decimal, Name, Sets;
    if asked {
      PairEntered(b, cp, t, o, n, rest);
      next, t' := cp + |Name(o)| + |Decimal(n)| + 2, t[o := Entry(true, t[o].ack, cp, n, Decimal(n) + [ZERO])];
      RowSet(t, o, t'[o]);
    } else {
      next, t' := cp, t;
      assert Maybe(asked, o, n) + rest == rest;
      RowUnset(t, o, n);
    }
  }

  ghost predicate Sets(t: Table, t': Table, asked: bool, o: Opt, n: nat) {
    && (forall o': Opt :: o' != o ==> t'[o'] == t[o'])
    && (if asked then t'[o].req && t'[o].value == n else t'[o] == t[o])
  }

  lemma RowSet(t: Table, o: Opt, e: Entry)
    requires e.req
    ensures Sets(t, t[o := e], true, o, e.value)
  {
  }

  lemma RowUnset(t: Table, o: Opt, n: nat)
    ensures Sets(t, t, false, o, n)
  {
  }

  function Tsize(r: OptReq): nat {
    if r.tsize >= 0 then r.tsize else 0
  }

  lemma RowsHold(t1: Table, t2: Table, t3: Table, r: OptReq)
    requires Sets(Blank, t1, BLKSIZE in r.options, BLKSIZE, r.blksize)
    requires Sets(t1, t2, WINDOWSIZE in r.options, WINDOWSIZE, r.window)
    requires Sets(t2, t3, TSIZE in r.options, TSIZE, Tsize(r))
    requires r.options <= {BLKSIZE, WINDOWSIZE, TSIZE} && (TSIZE in r.options ==> r.tsize >= 0)
    ensures Holds(t3, r)
  {
    assert t3[BLKSIZE] == t2[BLKSIZE] == t1[BLKSIZE] && t3[WINDOWSIZE] == t2[WINDOWSIZE];
    assert t2[TSIZE] == t1[TSIZE] == Blank[TSIZE] && t1[WINDOWSIZE] == Blank[WINDOWSIZE];
    forall o: Opt ensures t3[o].req <==> o in r.options {
      assert Blank[o] == Unasked;
      if o !in {BLKSIZE, WINDOWSIZE, TSIZE} {
        assert t3[o] == t2[o] == t1[o] == Blank[o];
      }
    }
  }

  lemma OptionsTaken(b: bytes, cp: nat, c: ClientSettings)
    requires ValidClient(c) && cp <= |b| && b[cp..] == OptionBytes(Wanted(c))
    ensures OptionsFrom(b, cp, Blank).Some? && Holds(OptionsFrom(b, cp, Blank).value, Wanted(c))
  {
    hide OptionsFrom, Maybe, Holds, Sets, Wanted;
    WantedFacts(c);
    var r := Wanted(c);
    var third := Maybe(TSIZE in r.options, TSIZE, Tsize(r));
    var second := Maybe(WINDOWSIZE in r.options, WINDOWSIZE, r.window);
    var i1, t1 := MaybeEntered(b, cp, Blank, BLKSIZE in r.options, BLKSIZE, r.blksize, second + third);
    var i2, t2 := MaybeEntered(b, i1, t1, WINDOWSIZE in r.options, WINDOWSIZE, r.window, third);
    assert third + [] == third;
    var i3, t3 := MaybeEntered(b, i2, t2, TSIZE in r.options, TSIZE, Tsize(r), []);
    RowsHold(t1, t2, t3, r);
    NoMoreOptions(b, i3, t3);
  }

  lemma NoMoreOptions(b: bytes, cp: nat, t: Table)
    requires cp <= |b| && b[cp..] == []
    ensures OptionsFrom(b, cp, t) == Some(t)
  {
  }

  lemma TwoStrings(b: bytes, name: bytes, m: bytes, options: bytes)
    requires b == name + [ZERO] + (m + [ZERO] + options)
    requires name != [] && Plain(name) && m != [] && Plain(m)
    ensures var i := |name| + 1; var j := i + |m| + 1;
      && NulAt(b, 0) == i - 1 && i < |b| && NulAt(b, i) == j - 1 && j <= |b| && b[j..] == options
      && StringAt(b, i) == m && b[0] != ZERO && b[i] != ZERO
  {
    hide NulAt;
    assert b[0..] == name + [ZERO] + (m + [ZERO] + options);
    NulAfter(b, 0, name, m + [ZERO] + options);
    var i := |name| + 1;
    NulAfter(b, i, m, options);
    assert b[0] == name[0] && name[0] in name;
    assert b[i] == b[i..][0] == m[0] && m[0] in m;
  }

  /** The daemon reads back from the request what the client put into it. */
  lemma RequestRoundTrip(c: ClientSettings, name: bytes, mode: Mode)
    requires ValidClient(c) && name != [] && Plain(name) && MakeRequest(c, name, mode).Some?
    ensures var p := Parsed(MakeRequest(c, name, mode).value);
      p.Accepted? && p.mode == mode && Holds(p.table, Wanted(c))
  {
    hide OptionsFrom, Holds, OptionBytes, NulAt, FindMode, StringAt, ModeName;
    var b, m, options := MakeRequest(c, name, mode).value, ModeName(mode), OptionBytes(Wanted(c));
    TwoStrings(b, name, m, options);
    OptionsTaken(b, |name| + |m| + 2, c);
    ModeFound(mode);
  }

  lemma ModeFound(mode: Mode)
    ensures FindMode(ModeName(mode)) == Some(mode)
  {
  }

  // ---------------------------------------------------------- the answer for a client

  lemma SpellingIsPlain(name: bytes, spelled: bytes)
    requires SameName(name, spelled) && Plain(name)
    ensures Plain(spelled)
  {
    hide Fold;
    FoldZero();
    forall i | 0 <= i < |spelled| ensures spelled[i] != ZERO {
      assert name[i] in name && Fold(name[i]) == Fold(spelled[i]);
    }
  }

  lemma AnswerIsPair(b: bytes, t: Table, o: Opt)
    requires o != COOKIE && Spelled(b, o, t[o].clientAt)
    ensures var n := b[t[o].clientAt..t[o].clientAt + |Name(o)|];
      && Plain(n) && n != [] && SameName(Name(o), n)
      && Answer(b, t, o) == Pair(n, Decimal(t[o].value))
  {
    hide Decimal, Name, SameName;
    var at := t[o].clientAt;
    var n := b[at..at + |Name(o)|];
    SpellingIsPlain(Name(o), n);
    assert |n| == |Name(o)|;
    assert b[at..at + |Name(o)| + 1] == n + [ZERO];
  }

  /** The client after row i of the daemon's table. */
  ghost function AfterRow(s: Settings, t: Table, i: nat, ack: OptReq, req: OptReq): Option<OptReq>
    requires i < |Order|
  {
    if Granted(s, t, Order[i]) then AcceptValue(ack, req, Order[i], t[Order[i]].value) else Some(ack)
  }

  /** A row that the client takes, or that is not granted. */
  ghost predicate Proper(s: Settings, b: bytes, t: Table, i: nat)
    requires i < |Order|
  {
    var o := Order[i];
    Granted(s, t, o) ==> o in {BLKSIZE, WINDOWSIZE, TSIZE} && Spelled(b, o, t[o].clientAt) && t[o].value <= UINTMAX
  }

  lemma RowJudged(s: Settings, b: bytes, t: Table, i: nat, ack: OptReq, req: OptReq, p: bytes, cp: nat)
    returns (next: nat)
    requires i < |Order| && Answerable(s, b, t) && cp <= |p| && p[cp..] == Answers(s, b, t, i)
    requires Proper(s, b, t, i) && AfterRow(s, t, i, ack, req).Some?
    ensures next <= |p| && p[next..] == Answers(s, b, t, i + 1)
    ensures AcceptFrom(ack, req, p, cp) == AcceptFrom(AfterRow(s, t, i, ack, req).value, req, p, next)
  {
    hide Answer, Answers, Pair, Decimal, AcceptFrom, Accept, AcceptValue, Name, SameName;
    AnswersStep(s, b, t, i);
    var o, rest := Order[i], Answers(s, b, t, i + 1);
    if Granted(s, t, o) {
      AnswerIsPair(b, t, o);
      var n, v := b[t[o].clientAt..t[o].clientAt + |Name(o)|], Decimal(t[o].value);
      ValueJudged(ack, req, o, n, t[o].value);
      PairJudged(ack, req, p, cp, n, v, rest);
      next := cp + |n| + |v| + 2;
    } else {
      assert [] + rest == rest;
      next := cp;
    }
  }

  /** The rows that the client never asks for. */
  ghost predicate OnlyThree(s: Settings, t: Table) {
    forall o: Opt :: Granted(s, t, o) ==> o in {BLKSIZE, WINDOWSIZE, TSIZE}
  }

  /** What the client has after the whole answer: row 0, then tsize, then the window. */
  ghost function AfterAll(s: Settings, t: Table, req: OptReq): Option<OptReq> {
    var a := AfterRow(s, t, 0, Defaults, req);
    if a.None? then None
    else
      var a' := AfterRow(s, t, 5, a.value, req);
      if a'.None? then None else AfterRow(s, t, 7, a'.value, req)
  }

  /** Rows that are not granted leave no trace. */
  lemma {:induction false} RowsSkipped(s: Settings, b: bytes, t: Table, i: nat, j: nat)
    requires i <= j <= |Order| && Answerable(s, b, t)
    requires forall k :: i <= k < j ==> !Granted(s, t, Order[k])
    ensures Answers(s, b, t, i) == Answers(s, b, t, j)
    decreases j - i
  {
    hide Answer;
    if i < j {
      RowsSkipped(s, b, t, i + 1, j);
      AnswersStep(s, b, t, i);
    }
  }

  lemma AnswerJudged(s: Settings, b: bytes, t: Table, req: OptReq, p: bytes)
    requires Answerable(s, b, t) && OnlyThree(s, t) && p == [0, 6] + Answers(s, b, t, 0)
    requires Proper(s, b, t, 0) && Proper(s, b, t, 5) && Proper(s, b, t, 7) && AfterAll(s, t, req).Some?
    ensures AcceptFrom(Defaults, req, p, 2) == AfterAll(s, t, req)
  {
    hide Answers, AcceptFrom, Proper, AfterRow, Answerable;
    assert p[2..] == Answers(s, b, t, 0);
    var i1 := RowJudged(s, b, t, 0, Defaults, req, p, 2);
    var a1 := AfterRow(s, t, 0, Defaults, req).value;
    RowsSkipped(s, b, t, 1, 5);
    var i2 := RowJudged(s, b, t, 5, a1, req, p, i1);
    var a2 := AfterRow(s, t, 5, a1, req).value;
    RowsSkipped(s, b, t, 6, 7);
    var i3 := RowJudged(s, b, t, 7, a2, req, p, i2);
    AnswersEnd(s, b, t);
    AtEnd(AfterRow(s, t, 7, a2, req).value, req, p, i3);
  }

  lemma {:induction false} NoAnswer(s: Settings, b: bytes, t: Table, i: nat)
    requires i <= |Order| && Answerable(s, b, t) && Answers(s, b, t, i) == []
    ensures forall k :: i <= k < |Order| ==> !Granted(s, t, Order[k])
    decreases |Order| - i
  {
    if i < |Order| {
      AnswersStep(s, b, t, i);
      NoAnswer(s, b, t, i + 1);
    }
  }

  /** The grants as the client sees them: nothing but what it wants, in the range it
      accepts, and with the values of the transfer. */
  ghost predicate Fair(s: Settings, d: Deal, req: OptReq) {
    var t := d.table;
    && (forall o: Opt :: Granted(s, t, o) ==> o in req.options)
    && (if Granted(s, t, BLKSIZE) then t[BLKSIZE].value == d.segsize && MIN_SEGSIZE <= d.segsize <= req.blksize
        else d.segsize == SEGSIZE)
    && (if Granted(s, t, WINDOWSIZE) then t[WINDOWSIZE].value == d.windowsize && 1 <= d.windowsize <= req.window
        else d.windowsize == 1)
    && d.rollover == 0
    && (Granted(s, t, TSIZE) ==> t[TSIZE].value <= OFF_MAX)
  }

  lemma FairIsTaken(s: Settings, d: Deal, req: OptReq)
    requires Fair(s, d, req)
    ensures var a := AfterAll(s, d.table, req);
      && a.Some? && a.value.blksize == d.segsize && a.value.window == d.windowsize
      && a.value.tsize == if Granted(s, d.table, TSIZE) then d.table[TSIZE].value else -1
  {
    hide Granted;
    assert Order[0] == BLKSIZE && Order[5] == TSIZE && Order[7] == WINDOWSIZE;
  }

  /** The daemon deals fairly with every client. */
  lemma DealsFairly(s: Settings, isRead: bool, b: bytes, c: ClientSettings)
    requires ValidSettings(s) && !s.rejectAll && ValidClient(c)
    requires Servable(s, isRead, b) && Holds(Parsed(b).table, Wanted(c))
    ensures Fair(s, Dealt(s, isRead, b), Wanted(c))
  {
    hide Negotiated, Parsed, NothingGranted, BlksizeDone, WindowDone, GrantsBlksize, GrantsBlksize2, Holds;
    TableUngranted(b);
    var t := Parsed(b).table;
    var d0 := Fresh.(table := t);
    GrantsMatchTransfer(s, isRead, Parsed(b).mode, d0);
    HoldsSizes(t, Wanted(c));
    FairSize(s, d0, Wanted(c));
    FairWindow(s, d0, Wanted(c));
    OnlyWanted(s, t, Dealt(s, isRead, b).table, Wanted(c));
  }

  lemma HoldsSizes(t: Table, r: OptReq)
    requires Holds(t, r) && r.options <= {BLKSIZE, WINDOWSIZE, TSIZE}
    ensures !t[ROLLOVER].req && !t[BLKSIZE2].req && (TSIZE in r.options ==> r.tsize == t[TSIZE].value)
    ensures t[TSIZE].req <==> TSIZE in r.options
  {
  }

  lemma OnlyWanted(s: Settings, t: Table, t': Table, r: OptReq)
    requires Holds(t, r) && SameRequest(t, t')
    ensures forall o: Opt :: Granted(s, t', o) ==> o in r.options
  {
    forall o: Opt | Granted(s, t', o) ensures o in r.options {
      assert t'[o].req == t[o].req;
    }
  }

  lemma FairSize(s: Settings, d: Deal, r: OptReq)
    requires ValidSettings(s) && Holds(d.table, r) && r.options <= {BLKSIZE, WINDOWSIZE, TSIZE}
    ensures var size := BlksizeDone(s, d).segsize;
      && !GrantsBlksize2(s, d.table) && MIN_SEGSIZE <= size <= MAX_SEGSIZE
      && (if GrantsBlksize(s, d.table) then BLKSIZE in r.options && size <= r.blksize else size == SEGSIZE)
  {
    hide BlksizeDone, IsPower, Rounded;
    BlksizeDeal(s, d);
    GrantsAreAsked(s, d.table);
  }

  lemma FairWindow(s: Settings, d: Deal, r: OptReq)
    requires ValidSettings(s) && Holds(d.table, r)
    ensures BlksizeDone(s, d).segsize > 0
    ensures var w := WindowDone(s, BlksizeDone(s, d)).windowsize;
      w >= 1 && (w > 1 ==> WINDOWSIZE in r.options && w <= r.window)
  {
    hide BlksizeDone, WindowDone, GrantsBlksize, GrantsBlksize2;
    BlksizePositive(s, d);
    BlksizeStep(s, d);
    WindowDeal(s, BlksizeDone(s, d));
  }

  lemma OackUnderstood(s: Settings, isRead: bool, b: bytes, c: ClientSettings)
    requires ValidSettings(s) && !s.rejectAll && ValidClient(c)
    requires Servable(s, isRead, b) && Holds(Parsed(b).table, Wanted(c))
    ensures var r := Serve(s, isRead, b); var d := Dealt(s, isRead, b);
      && r.Started? && Taken(c, r).Some?
      && Taken(c, r).value.blksize == d.segsize && Taken(c, r).value.window == d.windowsize && d.rollover == 0
      && Taken(c, r).value.tsize == (if Granted(s, d.table, TSIZE) then d.table[TSIZE].value else -1)
  {
    hide Answers, Parsed, Holds, Servable, Negotiated, AfterAll, Answerable, AcceptFrom, Spelled, Dealt;
    DealsFairly(s, isRead, b, c);
    DealtAnswerable(s, isRead, b);
    var d, req := Dealt(s, isRead, b), Wanted(c);
    FairIsTaken(s, d, req);
    var answers := Answers(s, b, d.table, 0);
    if answers == [] {
      NoAnswer(s, b, d.table, 0);
      assert Order[0] == BLKSIZE && Order[5] == TSIZE && Order[7] == WINDOWSIZE;
      assert !Granted(s, d.table, Order[0]) && !Granted(s, d.table, Order[5]) && !Granted(s, d.table, Order[7]);
    } else {
      FairIsProper(s, b, d, req);
      var p := [0, 6] + answers;
      assert p[..2] == [0, 6];
      AnswerJudged(s, b, d.table, req, p);
    }
  }

  lemma FairIsProper(s: Settings, b: bytes, d: Deal, req: OptReq)
    requires Fair(s, d, req) && req.options <= {BLKSIZE, WINDOWSIZE, TSIZE}
    requires req.blksize <= MAX_SEGSIZE && req.window <= MAX_WINDOWSIZE
    requires forall o: Opt :: Granted(s, d.table, o) ==> Spelled(b, o, d.table[o].clientAt)
    ensures OnlyThree(s, d.table)
    ensures Proper(s, b, d.table, 0) && Proper(s, b, d.table, 5) && Proper(s, b, d.table, 7)
  {
    hide Spelled, Granted;
    assert Order[0] == BLKSIZE && Order[5] == TSIZE && Order[7] == WINDOWSIZE;
  }

  /** The two ends agree.  A request is refused only for a write that announces more
      than the daemon takes.  Otherwise client and daemon end up with the same block
      size, window and rollover, whatever the settings on both sides, exactly if the
      daemon is not told to ignore options altogether: then it starts with a block
      size and a window of 0, and the client with the defaults. */
  lemma EndsAgree(c: ClientSettings, s: Settings, isRead: bool, name: bytes, mode: Mode)
    requires ValidClient(c) && ValidSettings(s)
    requires name != [] && Plain(name) && MakeRequest(c, name, mode).Some?
    ensures var r := Serve(s, isRead, MakeRequest(c, name, mode).value);
      && (r.Refused? <==> !isRead && TSIZE in Wanted(c).options && TSIZE !in s.refuse && c.tsize > s.maxUpload)
      && (r.Started? ==> (Agreed(c, r) <==> !s.rejectAll))
      && (r.Started? && !s.rejectAll ==>
            Taken(c, r).value.tsize ==
              if TSIZE !in Wanted(c).options || TSIZE in s.refuse then -1
              else if !isRead then c.tsize
              else if mode == OCTET && c.tsize == 0 then s.fileSize else -1)
  {
    hide MakeRequest, Parsed, Negotiated, Understood, Answers;
    var b := MakeRequest(c, name, mode).value;
    RequestRoundTrip(c, name, mode);
    var t := Parsed(b).table;
    if Servable(s, isRead, b) && !s.rejectAll {
      TableUngranted(b);
      OackUnderstood(s, isRead, b, c);
      hide NothingGranted;
      GrantsMatchTransfer(s, isRead, mode, Fresh.(table := t));
    }
  }
}
