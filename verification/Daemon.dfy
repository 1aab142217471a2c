/** The daemon's side of a request, as it runs: the parse loop over the packet, the
    negotiation that updates the option table, and the OACK it builds from it. */
module Daemon {
  import opened Wrappers
  import opened Octets
  import opened Requests
  import opened Negotiation
  import Backoff

  class Daemon {
    const settings: Settings
    var table: Table
    var segsize: nat
    var windowsize: nat
    var rollover: nat
    var rexmtval: nat
    var maxtimeout: nat

    function State(): Deal
      reads this
    {
      Deal(table, segsize, windowsize, rollover, rexmtval, maxtimeout)
    }

    /** Nothing is set up before the negotiation but the timeouts. */
    constructor (s: Settings, rexmt: nat)
      requires ValidSettings(s)
      ensures settings == s && State() == Deal(Blank, 0, 0, 0, rexmt, rexmt * Backoff.TIMEOUT_LIMIT)
    {
      settings := s;
      table, segsize, windowsize, rollover := Blank, 0, 0, 0;
      rexmtval, maxtimeout := rexmt, rexmt * Backoff.TIMEOUT_LIMIT;
    }

    // ------------------------------------------------------------------- the request

    /** The end of the string at cp. */
    method Scan(b: bytes, cp: nat) returns (end: nat)
      requires cp < |b| && b[cp] != ZERO
      ensures end == NulAt(b, cp)
    {
      end := cp + 1;
      while end < |b| && b[end] != ZERO
        invariant cp < end <= |b| && NulAt(b, end) == NulAt(b, cp)
      {
        end := end + 1;
      }
    }

    /** The search through the table for a name in the request. */
    method FindOption(b: bytes, opt: nat) returns (i: nat)
      requires opt <= |b| && NulAt(b, opt) < |b|
      ensures i == Lookup(StringAt(b, opt), 0)
    {
      i := 0;
      while i < |Order|
        invariant i <= |Order| && Lookup(StringAt(b, opt), i) == Lookup(StringAt(b, opt), 0)
      {
        var same := SameAt(Name(Order[i]), b, opt);
        if same {
          return;
        }
        i := i + 1;
      }
    }

    /** ascii_strcaseeq of a constant name and a string of the request. */
    method SameAt(name: bytes, b: bytes, i: nat) returns (same: bool)
      requires Plain(name) && i <= |b| && NulAt(b, i) < |b|
      ensures same == SameName(name, StringAt(b, i))
    {
      var end := NulAt(b, i);
      var s1, s2 := name + [ZERO], b[i..end + 1];
      assert s1[0..] == name + [ZERO] + [] && s2[0..] == StringAt(b, i) + [ZERO] + [];
      NulAfter(s1, 0, name, []);
      NulAfter(s2, 0, StringAt(b, i), []);
      hide NulAt, SameName;
      assert s1[|name|] == ZERO && s2[end - i] == ZERO;
      same := StrCaseEq(s1, s2);
      assert s1[..NulAt(s1, 0)] == name && s2[..NulAt(s2, 0)] == StringAt(b, i);
    }

    /** parse_option */
    method ParseOption(b: bytes, opt: nat, val: nat, vlen: nat)
      requires opt <= |b| && val <= |b| && NulAt(b, opt) < |b| && NulAt(b, val) == val + vlen < |b|
      modifies this`table
      ensures table == WithOption(old(table), b, opt, val)
    {
      hide Lookup, Entered;
      if b[opt] == ZERO || vlen == 0 {
        return;
      }
      var i := FindOption(b, opt);
      if i < |Order| {
        EnterValue(Order[i], b, opt, val, vlen);
      }
    }

    /** The row of an option whose name was found. */
    method EnterValue(o: Opt, b: bytes, opt: nat, val: nat, vlen: nat)
      requires val <= |b| && NulAt(b, val) == val + vlen < |b| && vlen > 0
      modifies this`table
      ensures table == old(table)[o := Entered(old(table)[o], o, b, opt, val)]
    {
      hide ToUMax, NulAt;
      var po := table[o];
      po := po.(clientAt := opt);
      if o != COOKIE {
        var v := ToUMax(b[val..val + vlen]);
        if !IsDigit(b[val]) || v.None? {
          table := table[o := po];
          return;
        }
        po := po.(value := v.value);
      }
      po := po.(text := b[val..val + vlen + 1], req := true);
      table := table[o := po];
    }

    /** The search through the formats. */
    method FindFormat(b: bytes, mode: nat) returns (pf: Option<Mode>)
      requires mode <= |b| && NulAt(b, mode) < |b|
      ensures pf == FindMode(StringAt(b, mode))
    {
      hide SameName, ModeName, StringAt;
      var same := SameAt(ModeName(NETASCII), b, mode);
      if same {
        return Some(NETASCII);
      }
      same := SameAt(ModeName(OCTET), b, mode);
      return if same then Some(OCTET) else None;
    }

    /** The loop over the strings of the request: the first ends the file name, the
        second is the mode, and then names and values take turns. */
    method ParseRequest(b: bytes) returns (r: Parse)
      requires table == Blank
      modifies this`table
      ensures r == Parsed(b)
      ensures r.Accepted? ==> r.table == table
    {
      hide WithOption, NulAt, FindMode, StringAt, Parsed, ModeFrom, OptionsFrom, ValueFrom;
      var cp: nat, argn: nat, opt: nat := 0, 0, 0;
      var pf: Option<Mode> := None;
      while cp < |b| && b[cp] != ZERO
        invariant cp <= |b| && (pf.Some? <==> argn >= 2)
        invariant argn == 0 ==> cp == 0 && table == Blank
        invariant argn == 1 ==> Parsed(b) == ModeFrom(b, cp) && table == Blank
        invariant argn >= 2 && argn % 2 == 0 ==> Parsed(b) == Verdict(pf.value, OptionsFrom(b, cp, table))
        invariant argn >= 2 && argn % 2 == 1 ==>
          && opt < cp && NulAt(b, opt) < |b|
          && Parsed(b) == Verdict(pf.value, ValueFrom(b, opt, cp, table))
        decreases |b| - cp
      {
        if argn == 0 {
          NameRead(b);
        } else if argn == 1 {
          ModeRead(b, cp);
        } else if argn % 2 == 0 {
          OptionRead(b, cp, table);
        } else {
          ValueRead(b, opt, cp, table);
        }
        var end := Scan(b, cp);
        if end == |b| {
          return NotTerminated;
        }
        argn := argn + 1;
        if argn == 2 {
          pf := FindFormat(b, cp);
          if pf.None? {
            return UnknownMode;
          }
        } else if argn > 2 && argn % 2 == 1 {
          opt := cp;
        } else if argn > 2 {
          ParseOption(b, opt, cp, end - cp);
        }
        cp := end + 1;
      }
      NothingRead(b, opt, cp, table);
      return if pf.None? then MissingMode else Accepted(pf.value, table);
    }

    // --------------------------------------------------------------- the negotiation

    method GrantOption(o: Opt, value: nat)
      modifies this`table
      ensures table == Grant(old(table), o, value)
    {
      table := table[o := table[o].(ack := true, value := value)];
    }

    /** opt_requested: the value of an option that was asked for. */
    method Requested(o: Opt) returns (v: Option<nat>)
      ensures v == if Asked(settings, table, o) then Some(table[o].value) else None
    {
      v := if table[o].req && o !in settings.refuse then Some(table[o].value) else None;
    }

    /** Which of the two block size options to grant, and the size. */
    method ChooseBlksize() returns (one: bool, two: bool, blksize: nat)
      requires ValidSettings(settings)
      ensures one == GrantsBlksize(settings, table) && two == GrantsBlksize2(settings, table)
      ensures blksize == Size(settings, table)
    {
      hide PowerBelow;
      blksize := 0;
      var max := settings.maxBlksize;
      var blk := Requested(BLKSIZE);
      var blk2 := Requested(BLKSIZE2);
      if blk2.Some? {
        if blk2.value < MIN_SEGSIZE {
          blk2 := None;
        } else {
          blksize := RoundDown(if blk2.value > max then max else blk2.value);
        }
      }
      if blk.Some? {
        if blk.value < MIN_SEGSIZE {
          blk := None;
        } else if blk.value > max {
          blksize := max;
        } else if blksize > blk.value {
          blk := None;
        } else {
          blksize := blk.value;
        }
      }
      if blksize > 0 {
        LowestBitCleared(blksize);
        if And(blksize, blksize - 1) != 0 {
          blk2 := None;
        }
      }
      return blk.Some?, blk2.Some?, blksize;
    }

    method NegotiateBlksize()
      requires ValidSettings(settings)
      modifies this`table, this`segsize
      ensures State() == BlksizeDone(settings, old(State()))
    {
      hide Size, GrantsBlksize, GrantsBlksize2;
      var one, two, blksize := ChooseBlksize();
      if one {
        GrantOption(BLKSIZE, blksize);
      }
      if two {
        GrantOption(BLKSIZE2, blksize);
      }
      segsize := if !one && !two then SEGSIZE else blksize;
    }

    method NegotiateWindowsize()
      requires segsize > 0
      modifies this`table, this`windowsize
      ensures State() == WindowDone(settings, old(State()))
    {
      var ws := Requested(WINDOWSIZE);
      var window := 1;
      if ws.Some? && ws.value > 1 {
        window := if ws.value > settings.maxWindow then settings.maxWindow else ws.value;
        if window * segsize > settings.maxWindowBytes {
          window := settings.maxWindowBytes / segsize;
        }
        if window > 1 {
          GrantOption(WINDOWSIZE, window);
        } else {
          window := 1;
        }
      }
      windowsize := window;
    }

    method NegotiateTsize(isRead: bool, mode: Mode)
      modifies this`table
      ensures State() == TsizeDone(settings, isRead, mode, old(State()))
    {
      var ts := Requested(TSIZE);
      if ts.None? || (isRead && mode == NETASCII) {
        return;
      }
      if isRead {
        if ts.value == 0 {
          GrantOption(TSIZE, settings.fileSize);
        }
      } else {
        GrantOption(TSIZE, ts.value);
      }
    }

    method NegotiateTimeout()
      modifies this`table, this`rexmtval, this`maxtimeout
      ensures State() == TimeoutDone(settings, old(State()))
    {
      var tos := Requested(TIMEOUT);
      var tou := Requested(UTIMEOUT);
      var to, seconds := 0, 0;
      if tos.Some? {
        if tos.value < 1 || tos.value > 255 {
          tos := None;
        } else {
          seconds := tos.value * USEC_PER_SEC;
          to := seconds;
        }
      }
      if tou.Some? {
        if tou.value < MIN_TIMEOUT || tou.value > 255 * USEC_PER_SEC {
          tou := None;
        } else {
          to := tou.value;
          if seconds != to {
            tos := None;
          }
        }
      }
      if tos.Some? {
        GrantOption(TIMEOUT, tos.value);
      }
      if tou.Some? {
        GrantOption(UTIMEOUT, tou.value);
      }
      if to != 0 {
        rexmtval, maxtimeout := to, to * Backoff.TIMEOUT_LIMIT;
      }
    }

    method NegotiateRollover()
      modifies this`table, this`rollover
      ensures State() == RolloverDone(settings, old(State()))
    {
      var ro := Requested(ROLLOVER);
      if ro.Some? && ro.value <= 1 {
        rollover := ro.value;
        GrantOption(ROLLOVER, ro.value);
      } else {
        rollover := 0;
      }
    }

    method NegotiateCookie()
      modifies this`table
      ensures State() == CookieDone(settings, old(State()))
    {
      var po := Requested(COOKIE);
      if po.Some? && |table[COOKIE].text| <= MAX_COOKIE + 1 {
        GrantOption(COOKIE, po.value);
      }
    }

    /** negotiate_options, up to the answer. */
    method NegotiateOptions(isRead: bool, mode: Mode)
      requires ValidSettings(settings)
      modifies this
      ensures State() == Negotiated(settings, isRead, mode, old(State()))
    {
      hide BlksizeDone, WindowDone, TsizeDone, TimeoutDone, RolloverDone, CookieDone;
      if settings.rejectAll {
        return;
      }
      BlksizePositive(settings, State());
      NegotiateBlksize();
      NegotiateWindowsize();
      NegotiateTsize(isRead, mode);
      NegotiateTimeout();
      NegotiateRollover();
      NegotiateCookie();
    }

    // -------------------------------------------------------------------- the answer

    predicate IsGranted(o: Opt)
      reads this
    {
      table[o].ack && table[o].req && o !in settings.refuse
    }

    /** The value of a granted option as it is sent. */
    function ValueText(o: Opt): bytes
      reads this
    {
      if o == COOKIE then table[o].text else Decimal(table[o].value) + [ZERO]
    }

    /** The room that the granted options take, which is measured first. */
    method Measure(ghost b: bytes) returns (size: nat)
      requires Answerable(settings, b, table)
      ensures size == |Answers(settings, b, table, 0)|
    {
      hide Answers, Decimal;
      size := 0;
      for i := 0 to |Order|
        invariant size + |Answers(settings, b, table, i)| == |Answers(settings, b, table, 0)|
      {
        AnswersStep(settings, b, table, i);
        if IsGranted(Order[i]) {
          size := size + (|Name(Order[i])| + 1) + |ValueText(Order[i])|;
        }
      }
      AnswersEnd(settings, b, table);
    }

    /** build_oack: measures, allocates, and fills the packet to the last byte.  Each
        name is copied out of the request by the length of the canonical name. */
    method BuildOack(b: bytes) returns (oack: array?<octet>)
      requires Answerable(settings, b, table)
      ensures oack == null <==> Answers(settings, b, table, 0) == []
      ensures oack != null ==> fresh(oack) && oack[..] == [0, 6] + Answers(settings, b, table, 0)
    {
      hide Answer, Answers, Decimal;
      ghost var goal := Answers(settings, b, table, 0);
      var size := Measure(b);
      if size == 0 {
        return null;
      }
      var packet := new octet[size + 2];
      packet[0], packet[1] := 0, 6;
      assert packet[..2] == [0, 6];
      var p: nat := 2;
      for i := 0 to |Order|
        invariant p <= packet.Length && packet[..p] + Answers(settings, b, table, i) == [0, 6] + goal
      {
        p := PutRow(packet, p, b, i);
      }
      AnswersEnd(settings, b, table);
      assert p == packet.Length;
      return packet;
    }

    method PutRow(packet: array<octet>, p: nat, b: bytes, i: nat) returns (end: nat)
      requires i < |Order| && Answerable(settings, b, table)
      requires p + |Answers(settings, b, table, i)| <= packet.Length
      modifies packet
      ensures end <= packet.Length
      ensures packet[..end] + Answers(settings, b, table, i + 1) == old(packet[..p]) + Answers(settings, b, table, i)
    {
      AnswersStep(settings, b, table, i);
      hide Answer, Answers, Decimal;
      end := p;
      if IsGranted(Order[i]) {
        end := PutOption(packet, p, b, Order[i]);
      }
    }

    /** The name and the value of a granted option. */
    method PutOption(packet: array<octet>, p: nat, b: bytes, o: Opt) returns (end: nat)
      requires table[o].clientAt + |Name(o)| < |b| && p + |Answer(b, table, o)| <= packet.Length
      modifies packet
      ensures end == p + |Answer(b, table, o)| && packet[..end] == old(packet[..p]) + Answer(b, table, o)
    {
      hide Decimal;
      var middle := MemPCpy(packet, p, b[table[o].clientAt..table[o].clientAt + |Name(o)| + 1]);
      end := MemPCpy(packet, middle, ValueText(o));
    }
  }
}
