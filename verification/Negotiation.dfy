/** What the daemon grants: block size, window, transfer size, timeouts, rollover and
    cookie, each from the options that were asked for and the configured limits. */
module Negotiation {
  import opened Wrappers
  import opened Octets
  import opened Requests
  import opened Modular
  import Backoff

  const MIN_SEGSIZE := 8
  const SEGSIZE := 512
  const MAX_SEGSIZE := 65464
  const MAX_WINDOWSIZE := 32768
  const MAX_COOKIE := 255
  const USEC_PER_SEC := 1000000
  const MIN_TIMEOUT := 10000

  datatype Family = INET | INET6 | OTHER

  /** What a packet of that family needs besides the data. */
  function Headers(family: Family): nat {
    match family
    case INET => 20 + 8 + 4
    case INET6 => 40 + 8 + 4
    case OTHER => 0
  }

  /** tftp_max_blksize: a fixed size, or one below the MTU, which is None when it
      cannot be queried.  A size above the default never makes a packet exceed the
      MTU as adjusted by the setting. */
  function MaxBlksize(setting: int, family: Family, mtu: Option<nat>): (size: nat)
    ensures MIN_SEGSIZE <= size <= MAX_SEGSIZE
    ensures setting <= 0 ==> size >= SEGSIZE
    ensures MIN_SEGSIZE <= setting <= MAX_SEGSIZE ==> size == setting
    ensures setting <= 0 && mtu.Some? && size > SEGSIZE ==> size + Headers(family) <= mtu.value + setting
  {
    var wanted :=
      if setting <= 0 then
        var m := (if mtu.Some? then mtu.value else 1500) + setting - Headers(family);
        if m < SEGSIZE then SEGSIZE else m
      else if setting < MIN_SEGSIZE then MIN_SEGSIZE
      else setting;
    if wanted > MAX_SEGSIZE then MAX_SEGSIZE else wanted
  }

  /** Exactly: a positive setting is the size, kept within 8 and 65464; any other is added
      to the MTU, 1500 if it is not known, and what the headers need is taken off. */
  lemma MaxBlksizeExactly(setting: int, family: Family, mtu: Option<nat>)
    ensures var headers := if family == INET then 32 else if family == INET6 then 52 else 0;
      var fitting := (if mtu.Some? then mtu.value else 1500) + setting - headers;
      var wanted, least := if setting > 0 then setting else fitting, if setting > 0 then 8 else 512;
      MaxBlksize(setting, family, mtu) == if wanted < least then least else if wanted > 65464 then 65464 else wanted
  {
  }

  /** The configuration and the file: its size, and whether the mode converts. */
  datatype Settings = Settings(
    maxBlksize: nat, maxWindow: nat, maxWindowBytes: nat, maxUpload: nat,
    refuse: set<Opt>, rejectAll: bool, fileSize: nat)

  predicate ValidSettings(s: Settings) {
    && MIN_SEGSIZE <= s.maxBlksize <= MAX_SEGSIZE && 1 <= s.maxWindow <= MAX_WINDOWSIZE
    && s.fileSize <= OFF_MAX
  }

  /** The state the negotiation works on: the table and what the transfer will use. */
  datatype Deal = Deal(
    table: Table, segsize: nat, windowsize: nat, rollover: nat,
    rexmtval: nat, maxtimeout: nat)

  /** opt_requested */
  predicate Asked(s: Settings, t: Table, o: Opt) {
    t[o].req && o !in s.refuse
  }

  /** opt_granted */
  predicate Granted(s: Settings, t: Table, o: Opt) {
    t[o].ack && t[o].req && o !in s.refuse
  }

  function Grant(t: Table, o: Opt, value: nat): Table {
    t[o := t[o].(ack := true, value := value)]
  }

  // ----------------------------------------------------------------- powers of two

  /** Bitwise and. */
  function And(a: nat, b: nat): (r: nat)
    ensures r <= a && r <= b
  {
    if a == 0 || b == 0 then 0
    else 2 * And(a / 2, b / 2) + (if a % 2 == 1 && b % 2 == 1 then 1 else 0)
  }

  /** The largest power of two up to n. */
  function PowerBelow(n: nat): (p: nat)
    requires n > 0
    ensures 0 < p <= n < 2 * p
  {
    if n == 1 then 1 else 2 * PowerBelow(n / 2)
  }

  function Exp2(k: nat): nat {
    if k == 0 then 1 else 2 * Exp2(k - 1)
  }

  lemma {:induction false} PowerBelowIsPower(n: nat) returns (k: nat)
    requires n > 0
    ensures PowerBelow(n) == Exp2(k)
  {
    if n == 1 {
      k := 0;
    } else {
      var j := PowerBelowIsPower(n / 2);
      k := j + 1;
    }
  }

  predicate IsPower(n: nat) {
    n > 0 && PowerBelow(n) == n
  }

  lemma {:induction false} AndSelf(n: nat)
    ensures And(n, n) == n
  {
    if n > 0 {
      AndSelf(n / 2);
    }
  }

  /** Clearing the lowest bit: nothing is left of a power of two and only of a power
      of two, and otherwise the highest bit stays. */
  lemma {:induction false} LowestBitCleared(n: nat)
    requires n > 0
    ensures And(n, n - 1) < n
    ensures And(n, n - 1) == 0 <==> IsPower(n)
    ensures And(n, n - 1) > 0 ==> PowerBelow(And(n, n - 1)) == PowerBelow(n)
  {
    hide And, PowerBelow;
    if n % 2 == 1 {
      OddCleared(n);
    } else {
      LowestBitCleared(n / 2);
      EvenCleared(n);
    }
  }

  lemma OddCleared(n: nat)
    requires n % 2 == 1
    ensures And(n, n - 1) == n - 1
    ensures n == 1 ==> IsPower(n)
    ensures n > 1 ==> !IsPower(n) && PowerBelow(n - 1) == PowerBelow(n)
  {
    AndSelf(n / 2);
    assert (n - 1) / 2 == n / 2 && (n - 1) % 2 == 0;
    hide PowerBelow;
    if n > 1 {
      PowerHalves(n);
      PowerHalves(n - 1);
    }
  }

  lemma EvenCleared(n: nat)
    requires n > 0 && n % 2 == 0
    ensures And(n, n - 1) == 2 * And(n / 2, n / 2 - 1)
    ensures PowerBelow(n) == 2 * PowerBelow(n / 2)
    ensures And(n / 2, n / 2 - 1) > 0 ==> PowerBelow(2 * And(n / 2, n / 2 - 1)) == 2 * PowerBelow(And(n / 2, n / 2 - 1))
  {
    assert (n - 1) / 2 == n / 2 - 1;
    hide PowerBelow;
    PowerHalves(n);
    var a := And(n / 2, n / 2 - 1);
    if a > 0 {
      PowerHalves(2 * a);
    }
  }

  lemma PowerHalves(n: nat)
    requires n > 1
    ensures PowerBelow(n) == 2 * PowerBelow(n / 2)
  {
  }

  /** The loop that rounds down to a power of two. */
  method RoundDown(size: nat) returns (blksize: nat)
    requires size > 0
    ensures blksize == PowerBelow(size)
  {
    blksize := size;
    LowestBitCleared(blksize);
    var lb := And(blksize, blksize - 1);
    while lb != 0
      invariant blksize > 0 && PowerBelow(blksize) == PowerBelow(size) && lb == And(blksize, blksize - 1)
      decreases blksize
    {
      LowestBitCleared(blksize);
      blksize := lb;
      lb := And(blksize, blksize - 1);
    }
    LowestBitCleared(blksize);
  }

  // -------------------------------------------------------------------- block size

  function Min(a: nat, b: nat): nat {
    if a < b then a else b
  }

  /** The value of a block size option that takes part: asked for and not too small. */
  function Usable(s: Settings, t: Table, o: Opt): Option<nat> {
    if Asked(s, t, o) && t[o].value >= MIN_SEGSIZE then Some(t[o].value) else None
  }

  /** The power of two that a blksize2 option stands for, 0 without one. */
  function Rounded(s: Settings, t: Table): (p: nat)
    requires ValidSettings(s)
    ensures Usable(s, t, BLKSIZE2).Some? ==> IsPower(p) && MIN_SEGSIZE <= p <= s.maxBlksize
    ensures Usable(s, t, BLKSIZE2).None? <==> p == 0
  {
    var two := Usable(s, t, BLKSIZE2);
    if two.None? then 0
    else PowerAtLeastEight(Min(two.value, s.maxBlksize)); PowerBelow(Min(two.value, s.maxBlksize))
  }

  lemma {:induction false} PowerIdempotent(n: nat)
    requires n > 0
    ensures IsPower(PowerBelow(n))
  {
    if n > 1 {
      PowerIdempotent(n / 2);
    }
  }

  lemma PowerAtLeastEight(n: nat)
    requires n >= 8
    ensures PowerBelow(n) >= 8 && IsPower(PowerBelow(n))
  {
    PowerIdempotent(n);
    assert PowerBelow(n) == 2 * PowerBelow(n / 2) && PowerBelow(n / 2) == 2 * PowerBelow(n / 2 / 2);
    assert PowerBelow(n / 2 / 2) >= 2;
  }

  /** blksize is granted unless blksize2 alone allows more. */
  predicate GrantsBlksize(s: Settings, t: Table)
    requires ValidSettings(s)
  {
    var one := Usable(s, t, BLKSIZE);
    one.Some? && (one.value > s.maxBlksize || Rounded(s, t) <= one.value)
  }

  /** The size that would be used, 0 if no option takes part. */
  function Size(s: Settings, t: Table): nat
    requires ValidSettings(s)
  {
    if GrantsBlksize(s, t) then Min(t[BLKSIZE].value, s.maxBlksize) else Rounded(s, t)
  }

  predicate GrantsBlksize2(s: Settings, t: Table)
    requires ValidSettings(s)
  {
    Usable(s, t, BLKSIZE2).Some? && IsPower(Size(s, t))
  }

  function BlksizeDone(s: Settings, d: Deal): Deal
    requires ValidSettings(s)
  {
    var size := Size(s, d.table);
    var t1 := if GrantsBlksize(s, d.table) then Grant(d.table, BLKSIZE, size) else d.table;
    var t2 := if GrantsBlksize2(s, d.table) then Grant(t1, BLKSIZE2, size) else t1;
    d.(table := t2, segsize := if GrantsBlksize(s, d.table) || GrantsBlksize2(s, d.table) then size else SEGSIZE)
  }

  // ------------------------------------------------------------------------ window

  /** The window that the limits leave of the one asked for, in blocks. */
  function Window(s: Settings, segsize: nat, wanted: nat): nat
    requires segsize > 0
  {
    var w := Min(wanted, s.maxWindow);
    if w * segsize > s.maxWindowBytes then s.maxWindowBytes / segsize else w
  }

  function WindowDone(s: Settings, d: Deal): Deal
    requires d.segsize > 0
  {
    var wanted := d.table[WINDOWSIZE].value;
    if Asked(s, d.table, WINDOWSIZE) && wanted > 1 && Window(s, d.segsize, wanted) > 1 then
      var w := Window(s, d.segsize, wanted);
      d.(table := Grant(d.table, WINDOWSIZE, w), windowsize := w)
    else d.(windowsize := 1)
  }

  // -------------------------------------------------------------- the other options

  /** A read knows the size in octet mode and answers 0 with it; a write echoes. */
  function TsizeRow(s: Settings, isRead: bool, mode: Mode, t: Table): Entry {
    if !Asked(s, t, TSIZE) then t[TSIZE]
    else if !isRead then t[TSIZE].(ack := true)
    else if mode == OCTET && t[TSIZE].value == 0 then t[TSIZE].(ack := true, value := s.fileSize)
    else t[TSIZE]
  }

  function TsizeDone(s: Settings, isRead: bool, mode: Mode, d: Deal): Deal {
    d.(table := d.table[TSIZE := TsizeRow(s, isRead, mode, d.table)])
  }

  /** The timeout in microseconds that an option stands for, if it is acceptable. */
  function Seconds(s: Settings, t: Table): Option<nat> {
    if Asked(s, t, TIMEOUT) && 1 <= t[TIMEOUT].value <= 255 then Some(t[TIMEOUT].value * USEC_PER_SEC) else None
  }

  function Microseconds(s: Settings, t: Table): Option<nat> {
    if Asked(s, t, UTIMEOUT) && MIN_TIMEOUT <= t[UTIMEOUT].value <= 255 * USEC_PER_SEC
    then Some(t[UTIMEOUT].value) else None
  }

  /** utimeout goes before timeout, and both are granted only if they agree. */
  function TimeoutDone(s: Settings, d: Deal): Deal {
    var tos, tou := Seconds(s, d.table), Microseconds(s, d.table);
    var both := tos.Some? && (tou.None? || tou == tos);
    var t1 := if both then Grant(d.table, TIMEOUT, d.table[TIMEOUT].value) else d.table;
    var t2 := if tou.Some? then Grant(t1, UTIMEOUT, d.table[UTIMEOUT].value) else t1;
    var to := if tou.Some? then tou else tos;
    if to.None? then d.(table := t2)
    else d.(table := t2, rexmtval := to.value, maxtimeout := to.value * Backoff.TIMEOUT_LIMIT)
  }

  function RolloverDone(s: Settings, d: Deal): Deal {
    if Asked(s, d.table, ROLLOVER) && d.table[ROLLOVER].value <= 1
    then d.(table := Grant(d.table, ROLLOVER, d.table[ROLLOVER].value), rollover := d.table[ROLLOVER].value)
    else d.(rollover := 0)
  }

  function CookieDone(s: Settings, d: Deal): Deal {
    if Asked(s, d.table, COOKIE) && |d.table[COOKIE].text| <= MAX_COOKIE + 1
    then d.(table := Grant(d.table, COOKIE, d.table[COOKIE].value))
    else d
  }

  function Negotiated(s: Settings, isRead: bool, mode: Mode, d: Deal): Deal
    requires ValidSettings(s)
  {
    if s.rejectAll then d
    else
      var d1 := BlksizeDone(s, d);
      BlksizePositive(s, d);
      CookieDone(s, RolloverDone(s, TimeoutDone(s, TsizeDone(s, isRead, mode, WindowDone(s, d1)))))
  }

  lemma BlksizePositive(s: Settings, d: Deal)
    requires ValidSettings(s)
    ensures MIN_SEGSIZE <= BlksizeDone(s, d).segsize <= MAX_SEGSIZE
  {
    hide IsPower;
  }

  // --------------------------------------------------------------------- the answer

  /** What the answer carries for option o: the client's own spelling, and the value. */
  function Answer(b: bytes, t: Table, o: Opt): bytes
    requires t[o].clientAt + |Name(o)| < |b|
  {
    b[t[o].clientAt..t[o].clientAt + |Name(o)| + 1] +
    (if o == COOKIE then t[o].text else Decimal(t[o].value) + [ZERO])
  }

  ghost predicate Answerable(s: Settings, b: bytes, t: Table) {
    forall o: Opt :: Granted(s, t, o) ==> t[o].clientAt + |Name(o)| < |b|
  }

  /** The options of the answer from row i on. */
  ghost function Answers(s: Settings, b: bytes, t: Table, i: nat): bytes
    requires i <= |Order| && Answerable(s, b, t)
    decreases |Order| - i
  {
    if i == |Order| then []
    else (if Granted(s, t, Order[i]) then Answer(b, t, Order[i]) else []) + Answers(s, b, t, i + 1)
  }

  lemma AnswersStep(s: Settings, b: bytes, t: Table, i: nat)
    requires i < |Order| && Answerable(s, b, t)
    ensures Answers(s, b, t, i) ==
      (if Granted(s, t, Order[i]) then Answer(b, t, Order[i]) else []) + Answers(s, b, t, i + 1)
  {
    hide Answer;
  }

  lemma AnswersEnd(s: Settings, b: bytes, t: Table)
    requires Answerable(s, b, t)
    ensures Answers(s, b, t, |Order|) == []
  {
  }

  // ---------------------------------------------------------- what the grants mean

  /** Block size: the client is never given more than it asked for in blksize nor more
      than the limit; with blksize2 the size is a power of two; without either it is
      the default; and a lone option gets all that the limit allows. */
  lemma BlksizeDeal(s: Settings, d: Deal)
    requires ValidSettings(s)
    ensures var size := BlksizeDone(s, d).segsize; var t := d.table;
      && MIN_SEGSIZE <= size <= MAX_SEGSIZE
      && (GrantsBlksize(s, t) ==> size <= t[BLKSIZE].value && size <= s.maxBlksize)
      && (GrantsBlksize2(s, t) ==> IsPower(size) && size <= s.maxBlksize)
      && (!GrantsBlksize(s, t) && !GrantsBlksize2(s, t) ==> size == SEGSIZE)
      && (Usable(s, t, BLKSIZE).Some? || Usable(s, t, BLKSIZE2).Some? ==> GrantsBlksize(s, t) || GrantsBlksize2(s, t))
      && (Usable(s, t, BLKSIZE2).None? && Usable(s, t, BLKSIZE).Some? ==> size == Min(t[BLKSIZE].value, s.maxBlksize))
      && (Usable(s, t, BLKSIZE).None? && Usable(s, t, BLKSIZE2).Some? ==>
            size <= t[BLKSIZE2].value && Min(t[BLKSIZE2].value, s.maxBlksize) < 2 * size)
  {
  }

  lemma {:induction false} ExpGrows(j: nat, k: nat)
    requires j < k
    ensures 0 < 2 * Exp2(j) <= Exp2(k)
  {
    if j + 1 < k {
      ExpGrows(j, k - 1);
    } else if j > 0 {
      ExpGrows(j - 1, j);
    }
  }

  /** There is one power of two within a factor of two below n. */
  lemma PowerBelowUnique(n: nat, k: nat)
    requires 0 < Exp2(k) <= n < 2 * Exp2(k)
    ensures PowerBelow(n) == Exp2(k)
  {
    hide PowerBelow, Exp2;
    var j := PowerBelowIsPower(n);
    if j < k {
      ExpGrows(j, k);
    } else if k < j {
      ExpGrows(k, j);
    }
  }

  lemma ExpPositive(k: nat)
    ensures Exp2(k) > 0
  {
  }

  ghost predicate PowerOfTwo(n: nat) {
    exists k: nat :: n == Exp2(k)
  }

  lemma IsPowerExactly(n: nat)
    ensures IsPower(n) <==> PowerOfTwo(n)
  {
    hide PowerBelow, Exp2;
    if IsPower(n) {
      var k := PowerBelowIsPower(n);
    }
    if PowerOfTwo(n) {
      var k: nat :| n == Exp2(k);
      ExpPositive(k);
      PowerBelowUnique(n, k);
    }
  }

  /** Which of the two block size options are granted, and the size: with p the largest
      power of two that blksize2 and the limit allow, blksize decides unless it asks for
      less than p, and blksize2 is granted along with it for a power of two. */
  lemma BlksizeChoice(s: Settings, d: Deal, k: nat)
    requires ValidSettings(s)
    requires Asked(s, d.table, BLKSIZE2) && d.table[BLKSIZE2].value >= 8 ==>
      Exp2(k) <= Min(d.table[BLKSIZE2].value, s.maxBlksize) < 2 * Exp2(k)
    ensures var t, size := d.table, BlksizeDone(s, d).segsize;
      var one := Asked(s, t, BLKSIZE) && t[BLKSIZE].value >= 8;
      var two := Asked(s, t, BLKSIZE2) && t[BLKSIZE2].value >= 8;
      var first := one && (!two || t[BLKSIZE].value > s.maxBlksize || t[BLKSIZE].value >= Exp2(k));
      && (GrantsBlksize(s, t) <==> first)
      && (GrantsBlksize2(s, t) <==> two && PowerOfTwo(size))
      && size == if first then Min(t[BLKSIZE].value, s.maxBlksize) else if two then Exp2(k) else 512
  {
    hide PowerBelow, Exp2, PowerOfTwo, Asked;
    ExpPositive(k);
    var t := d.table;
    if Asked(s, t, BLKSIZE2) && t[BLKSIZE2].value >= 8 {
      PowerBelowUnique(Min(t[BLKSIZE2].value, s.maxBlksize), k);
      assert Rounded(s, t) == Exp2(k);
    }
    IsPowerExactly(Size(s, t));
    IsPowerExactly(BlksizeDone(s, d).segsize);
  }

  /** A granted blksize2 can exceed what the client asked for: it does so exactly when
      blksize asks for more. */
  lemma Blksize2Exceeded(s: Settings, d: Deal)
    requires ValidSettings(s) && GrantsBlksize2(s, d.table)
    ensures BlksizeDone(s, d).segsize > d.table[BLKSIZE2].value
      <==> Usable(s, d.table, BLKSIZE).Some? && Min(d.table[BLKSIZE].value, s.maxBlksize) > d.table[BLKSIZE2].value
  {
    hide IsPower;
  }

  lemma Blksize2ExceededExample()
    ensures exists s: Settings, d: Deal ::
      ValidSettings(s) && GrantsBlksize2(s, d.table) && BlksizeDone(s, d).segsize > d.table[BLKSIZE2].value
  {
    var s := Settings(MAX_SEGSIZE, 1, 0, 0, {}, false, 0);
    var t := Blank[BLKSIZE := Unasked.(req := true, value := 16)][BLKSIZE2 := Unasked.(req := true, value := 8)];
    var d := Deal(t, 0, 0, 0, 0, 0);
    assert PowerBelow(16) == 2 * PowerBelow(8) && PowerBelow(8) == 2 * PowerBelow(4) && PowerBelow(4) == 4;
    assert Rounded(s, t) == 8 && Size(s, t) == 16;
    assert BlksizeDone(s, d).segsize == 16;
  }

  /** The quotient is the largest number of blocks that fit. */
  lemma BlocksThatFit(bytes: nat, n: nat, m: nat)
    requires n > 0 && m * n > bytes
    ensures var q := bytes / n; q * n <= bytes < (q + 1) * n && q < m && bytes < 2 * n + q * n
  {
    var q := bytes / n;
    assert bytes == q * n + bytes % n;
    assert q * n - m * n == (q - m) * n;
    MulSign(q - m, n);
  }

  /** Window: as large as the request and both limits allow, and never beyond them. */
  lemma WindowDeal(s: Settings, d: Deal)
    requires ValidSettings(s) && d.segsize > 0
    ensures var w := WindowDone(s, d).windowsize; var t := d.table;
      && w >= 1
      && (w > 1 ==>
            && Asked(s, t, WINDOWSIZE) && w <= t[WINDOWSIZE].value && w <= s.maxWindow
            && w * d.segsize <= s.maxWindowBytes)
      && (Asked(s, t, WINDOWSIZE) && w < t[WINDOWSIZE].value && w < s.maxWindow ==>
            (w + 1) * d.segsize > s.maxWindowBytes)
  {
    var t, n := d.table, d.segsize;
    if Asked(s, t, WINDOWSIZE) && t[WINDOWSIZE].value > 1 {
      var m := Min(t[WINDOWSIZE].value, s.maxWindow);
      if m * n > s.maxWindowBytes {
        BlocksThatFit(s.maxWindowBytes, n, m);
      }
    }
  }

  /** A byte limit of 0 means one block at a time, whatever the client asks for. */
  lemma ZeroWindowBytes(s: Settings, d: Deal)
    requires ValidSettings(s) && d.segsize > 0 && s.maxWindowBytes == 0
    ensures WindowDone(s, d).windowsize == 1
  {
    WindowDeal(s, d);
    var w := WindowDone(s, d).windowsize;
    assert w * d.segsize >= d.segsize;
  }

  ghost predicate NothingGranted(t: Table) {
    forall o: Opt :: !t[o].ack
  }

  /** The rows keep what the client sent: its spelling, its text, what it asked for. */
  ghost predicate SameRequest(t: Table, t': Table) {
    forall o: Opt :: t'[o].req == t[o].req && t'[o].clientAt == t[o].clientAt && t'[o].text == t[o].text
  }

  /** A step alters no rows but these, and in them only the value and the grant. */
  ghost predicate Touches(t: Table, t': Table, rows: set<Opt>) {
    SameRequest(t, t') && forall o: Opt :: o !in rows ==> t'[o] == t[o]
  }

  lemma BlksizeStep(s: Settings, d: Deal)
    requires ValidSettings(s)
    ensures var r := BlksizeDone(s, d);
      && Touches(d.table, r.table, {BLKSIZE, BLKSIZE2})
      && r == d.(table := r.table, segsize := r.segsize)
      && (if GrantsBlksize(s, d.table) then r.table[BLKSIZE].ack && r.table[BLKSIZE].value == r.segsize
          else r.table[BLKSIZE] == d.table[BLKSIZE])
      && (if GrantsBlksize2(s, d.table) then r.table[BLKSIZE2].ack && r.table[BLKSIZE2].value == r.segsize
          else r.table[BLKSIZE2] == d.table[BLKSIZE2])
  {
    hide GrantsBlksize, GrantsBlksize2, Size;
  }

  lemma WindowStep(s: Settings, d: Deal)
    requires ValidSettings(s) && d.segsize > 0
    ensures var r := WindowDone(s, d);
      && Touches(d.table, r.table, {WINDOWSIZE})
      && r == d.(table := r.table, windowsize := r.windowsize)
      && (if r.windowsize > 1
          then Asked(s, d.table, WINDOWSIZE) && r.table[WINDOWSIZE].ack && r.table[WINDOWSIZE].value == r.windowsize
          else r.table[WINDOWSIZE] == d.table[WINDOWSIZE])
  {
    hide Window;
  }

  lemma TsizeTouch(s: Settings, isRead: bool, mode: Mode, d: Deal)
    ensures var r := TsizeDone(s, isRead, mode, d);
      Touches(d.table, r.table, {TSIZE}) && r == d.(table := r.table)
  {
  }

  lemma TsizeStep(s: Settings, isRead: bool, mode: Mode, d: Deal)
    requires !d.table[TSIZE].ack
    ensures var r := TsizeDone(s, isRead, mode, d); var t := r.table;
      && (Granted(s, t, TSIZE) <==>
            Asked(s, d.table, TSIZE) && (!isRead || (mode == OCTET && d.table[TSIZE].value == 0)))
      && (Granted(s, t, TSIZE) ==> t[TSIZE].value == if isRead then s.fileSize else d.table[TSIZE].value)
  {
  }

  lemma TimeoutTouch(s: Settings, d: Deal)
    ensures var r := TimeoutDone(s, d);
      && Touches(d.table, r.table, {TIMEOUT, UTIMEOUT})
      && r == d.(table := r.table, rexmtval := r.rexmtval, maxtimeout := r.maxtimeout)
  {
  }

  lemma TimeoutStep(s: Settings, d: Deal)
    requires !d.table[TIMEOUT].ack && !d.table[UTIMEOUT].ack
    ensures var r := TimeoutDone(s, d); var t := r.table;
      && (Granted(s, t, TIMEOUT) ==> r.rexmtval == t[TIMEOUT].value * USEC_PER_SEC)
      && (Granted(s, t, UTIMEOUT) ==> r.rexmtval == t[UTIMEOUT].value)
      && (Granted(s, t, TIMEOUT) || Granted(s, t, UTIMEOUT) ==>
            MIN_TIMEOUT <= r.rexmtval <= 255 * USEC_PER_SEC && r.maxtimeout == 63 * r.rexmtval)
      && (!Granted(s, t, TIMEOUT) && !Granted(s, t, UTIMEOUT) ==>
            r.rexmtval == d.rexmtval && r.maxtimeout == d.maxtimeout)
      && TimeoutsDecided(s, d.table, t)
  {
  }

  /** utimeout is granted as asked for if it is between 10 ms and 255 s, and timeout if it
      is between 1 s and 255 s and no such utimeout asks for another time. */
  predicate TimeoutsDecided(s: Settings, asked: Table, t: Table) {
    var us, to := asked[UTIMEOUT].value, asked[TIMEOUT].value;
    var fine := Asked(s, asked, UTIMEOUT) && 10000 <= us <= 255000000;
    && (Granted(s, t, UTIMEOUT) <==> fine)
    && (Granted(s, t, UTIMEOUT) ==> t[UTIMEOUT].value == us)
    && (Granted(s, t, TIMEOUT) <==> Asked(s, asked, TIMEOUT) && 1 <= to <= 255 && (!fine || us == to * 1000000))
    && (Granted(s, t, TIMEOUT) ==> t[TIMEOUT].value == to)
  }

  /** rollover is granted as asked for if it is 0 or 1. */
  predicate RolloverDecided(s: Settings, asked: Table, t: Table) {
    && (Granted(s, t, ROLLOVER) <==> Asked(s, asked, ROLLOVER) && asked[ROLLOVER].value <= 1)
    && (Granted(s, t, ROLLOVER) ==> t[ROLLOVER].value == asked[ROLLOVER].value)
  }

  lemma LastTouch(s: Settings, d: Deal)
    ensures var r := CookieDone(s, RolloverDone(s, d));
      Touches(d.table, r.table, {ROLLOVER, COOKIE}) && r == d.(table := r.table, rollover := r.rollover)
  {
  }

  lemma LastSteps(s: Settings, d: Deal)
    requires !d.table[ROLLOVER].ack && !d.table[COOKIE].ack
    ensures var r := CookieDone(s, RolloverDone(s, d)); var t := r.table;
      && (Granted(s, t, COOKIE) <==> Asked(s, d.table, COOKIE) && |d.table[COOKIE].text| <= MAX_COOKIE + 1)
      && r.rollover == (if Granted(s, t, ROLLOVER) then t[ROLLOVER].value else 0) <= 1
      && RolloverDecided(s, d.table, t)
  {
  }

  /** Which step decides which row. */
  lemma RowsDecided(t0: Table, t1: Table, t2: Table, t3: Table, t4: Table, t5: Table)
    requires Touches(t0, t1, {BLKSIZE, BLKSIZE2}) && Touches(t1, t2, {WINDOWSIZE}) && Touches(t2, t3, {TSIZE})
    requires Touches(t3, t4, {TIMEOUT, UTIMEOUT}) && Touches(t4, t5, {ROLLOVER, COOKIE})
    ensures SameRequest(t0, t5)
    ensures t5[BLKSIZE] == t1[BLKSIZE] && t5[BLKSIZE2] == t1[BLKSIZE2]
    ensures t1[WINDOWSIZE] == t0[WINDOWSIZE] && t5[WINDOWSIZE] == t2[WINDOWSIZE]
    ensures t2[TSIZE] == t0[TSIZE] && t5[TSIZE] == t3[TSIZE]
    ensures t3[TIMEOUT] == t0[TIMEOUT] && t3[UTIMEOUT] == t0[UTIMEOUT]
    ensures t5[TIMEOUT] == t4[TIMEOUT] && t5[UTIMEOUT] == t4[UTIMEOUT]
    ensures t4[ROLLOVER] == t0[ROLLOVER] && t4[COOKIE] == t0[COOKIE]
  {
    hide SameRequest;
    var b, w, s, o := {BLKSIZE, BLKSIZE2}, {WINDOWSIZE}, {TSIZE}, {TIMEOUT, UTIMEOUT};
    SameRequests(t0, t1, t2);
    SameRequests(t0, t2, t3);
    SameRequests(t0, t3, t4);
    SameRequests(t0, t4, t5);
    RowKept(t0, t1, b, WINDOWSIZE);
    RowsKept(t0, t1, b, t2, w, TSIZE);
    forall r | r in {TIMEOUT, UTIMEOUT, ROLLOVER, COOKIE} ensures t3[r] == t0[r] {
      RowsKept(t0, t1, b, t2, w, r);
      RowKept(t2, t3, s, r);
    }
    RowKept(t3, t4, o, ROLLOVER);
    RowKept(t3, t4, o, COOKIE);
    forall r | r in {BLKSIZE, BLKSIZE2, WINDOWSIZE, TSIZE} ensures t5[r] == t3[r] {
      RowsKept(t3, t4, o, t5, {ROLLOVER, COOKIE}, r);
    }
    RowsKept(t1, t2, w, t3, s, BLKSIZE);
    RowsKept(t1, t2, w, t3, s, BLKSIZE2);
    RowKept(t2, t3, s, WINDOWSIZE);
    RowKept(t4, t5, {ROLLOVER, COOKIE}, TIMEOUT);
    RowKept(t4, t5, {ROLLOVER, COOKIE}, UTIMEOUT);
  }

  lemma RowKept(t: Table, t': Table, rows: set<Opt>, o: Opt)
    requires Touches(t, t', rows) && o !in rows
    ensures t'[o] == t[o]
  {
  }

  lemma RowsKept(t: Table, t1: Table, rows: set<Opt>, t2: Table, more: set<Opt>, o: Opt)
    requires Touches(t, t1, rows) && Touches(t1, t2, more) && o !in rows && o !in more
    ensures t2[o] == t[o]
  {
  }

  lemma SameRequests(t0: Table, t1: Table, t2: Table)
    requires SameRequest(t0, t1) && SameRequest(t1, t2)
    ensures SameRequest(t0, t2)
  {
  }

  lemma RequestRow(t: Table, t': Table, o: Opt)
    requires SameRequest(t, t')
    ensures t'[o].req == t[o].req
  {
  }

  lemma InSteps(s: Settings, isRead: bool, mode: Mode, d: Deal)
    requires ValidSettings(s) && !s.rejectAll
    ensures BlksizeDone(s, d).segsize > 0
    ensures Negotiated(s, isRead, mode, d) ==
      CookieDone(s, RolloverDone(s, TimeoutDone(s, TsizeDone(s, isRead, mode, WindowDone(s, BlksizeDone(s, d))))))
  {
    hide BlksizeDone, WindowDone, TsizeDone, TimeoutDone, CookieDone, RolloverDone;
    BlksizePositive(s, d);
  }

  lemma GrantsAreAsked(s: Settings, t: Table)
    requires ValidSettings(s)
    ensures GrantsBlksize(s, t) ==> Asked(s, t, BLKSIZE)
    ensures GrantsBlksize2(s, t) ==> Asked(s, t, BLKSIZE2)
  {
    hide IsPower, Rounded;
  }

  lemma WindowPositive(s: Settings, d: Deal)
    requires d.segsize > 0
    ensures WindowDone(s, d).windowsize >= 1
  {
    hide Window;
  }

  /** All steps together: every granted option carries the value that the transfer
      uses, and what is not granted has its default. */
  lemma GrantsMatchTransfer(s: Settings, isRead: bool, mode: Mode, d: Deal)
    requires ValidSettings(s) && !s.rejectAll && NothingGranted(d.table)
    ensures var r := Negotiated(s, isRead, mode, d); var t := r.table;
      && SameRequest(d.table, t)
      && r.segsize == BlksizeDone(s, d).segsize
      && Granted(s, t, BLKSIZE) == GrantsBlksize(s, d.table)
      && Granted(s, t, BLKSIZE2) == GrantsBlksize2(s, d.table)
      && (Granted(s, t, BLKSIZE) ==> t[BLKSIZE].value == r.segsize)
      && (Granted(s, t, BLKSIZE2) ==> t[BLKSIZE2].value == r.segsize)
      && r.windowsize == WindowDone(s, BlksizeDone(s, d)).windowsize
      && Granted(s, t, WINDOWSIZE) == (r.windowsize > 1)
      && (Granted(s, t, WINDOWSIZE) ==> t[WINDOWSIZE].value == r.windowsize)
      && r.rollover == (if Granted(s, t, ROLLOVER) then t[ROLLOVER].value else 0) <= 1
      && (Granted(s, t, TIMEOUT) ==> r.rexmtval == t[TIMEOUT].value * USEC_PER_SEC)
      && (Granted(s, t, UTIMEOUT) ==> r.rexmtval == t[UTIMEOUT].value)
      && (Granted(s, t, TIMEOUT) || Granted(s, t, UTIMEOUT) ==>
            MIN_TIMEOUT <= r.rexmtval <= 255 * USEC_PER_SEC && r.maxtimeout == 63 * r.rexmtval)
      && (!Granted(s, t, TIMEOUT) && !Granted(s, t, UTIMEOUT) ==>
            r.rexmtval == d.rexmtval && r.maxtimeout == d.maxtimeout)
      && (Granted(s, t, TSIZE) <==>
            Asked(s, d.table, TSIZE) && (!isRead || (mode == OCTET && d.table[TSIZE].value == 0)))
      && (Granted(s, t, TSIZE) ==> t[TSIZE].value == if isRead then s.fileSize else d.table[TSIZE].value)
      && (Granted(s, t, COOKIE) <==> Asked(s, d.table, COOKIE) && |d.table[COOKIE].text| <= MAX_COOKIE + 1)
      && TimeoutsDecided(s, d.table, t) && RolloverDecided(s, d.table, t)
  {
    hide BlksizeDone, WindowDone, TsizeDone, TsizeRow, TimeoutDone, CookieDone, RolloverDone, Negotiated,
      GrantsBlksize, GrantsBlksize2, ValidSettings, Touches, SameRequest;
    BlksizePositive(s, d);
    var d1 := BlksizeDone(s, d);
    var d2 := WindowDone(s, d1);
    var d3 := TsizeDone(s, isRead, mode, d2);
    var d4 := TimeoutDone(s, d3);
    var d5 := CookieDone(s, RolloverDone(s, d4));
    InSteps(s, isRead, mode, d);
    GrantsAreAsked(s, d.table);
    BlksizeStep(s, d);
    WindowStep(s, d1);
    WindowPositive(s, d1);
    TsizeTouch(s, isRead, mode, d2);
    TimeoutTouch(s, d3);
    LastTouch(s, d4);
    RowsDecided(d.table, d1.table, d2.table, d3.table, d4.table, d5.table);
    TsizeStep(s, isRead, mode, d2);
    TimeoutStep(s, d3);
    LastSteps(s, d4);
    RequestRow(d.table, d5.table, BLKSIZE);
    RequestRow(d.table, d5.table, BLKSIZE2);
    RequestRow(d.table, d5.table, WINDOWSIZE);
  }
}
