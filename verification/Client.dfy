/** The client's side of the options: the request it makes, and what it takes from
    the OACK that comes back. */
module Client {
  import opened Wrappers
  import opened Octets
  import opened Requests
  import opened Negotiation

  /** The conversion of a uintmax_t to off_t: from 2^63 on the value is negative. */
  function ToOff(v: nat): (o: int)
    ensures v <= UINTMAX ==> OFF_MIN <= o <= OFF_MAX && (o < 0 <==> v > OFF_MAX)
  {
    if v <= OFF_MAX then v else v - (UINTMAX + 1)
  }

  /** What the user set up, and the size of the file: -1 for a netascii upload or one
      that is not a regular file, 0 for a download. */
  datatype ClientSettings = ClientSettings(noOptions: bool, maxBlksize: nat, window: nat, tsize: int)

  predicate ValidClient(c: ClientSettings) {
    && MIN_SEGSIZE <= c.maxBlksize <= MAX_SEGSIZE && 1 <= c.window <= MAX_WINDOWSIZE
    && OFF_MIN <= c.tsize <= OFF_MAX
  }

  /** struct optreq: what is asked for, or what was agreed on; a negative tsize is none. */
  datatype OptReq = OptReq(options: set<Opt>, window: nat, blksize: nat, tsize: int)

  const Defaults := OptReq({}, 1, SEGSIZE, -1)

  function Wanted(c: ClientSettings): OptReq {
    if c.noOptions then Defaults
    else
      OptReq(
        (if c.maxBlksize != SEGSIZE then {BLKSIZE} else {}) + (if c.window > 1 then {WINDOWSIZE} else {}) +
        (if c.tsize >= 0 then {TSIZE} else {}),
        c.window, c.maxBlksize, c.tsize)
  }

  lemma WantedFacts(c: ClientSettings)
    requires ValidClient(c)
    ensures var r := Wanted(c);
      && r.options <= {BLKSIZE, WINDOWSIZE, TSIZE} && (TSIZE in r.options <==> r.tsize >= 0)
      && r.blksize <= MAX_SEGSIZE && r.window <= MAX_WINDOWSIZE && r.tsize <= OFF_MAX
  {
  }

  /** What is asked for: a block size other than 512, a window of more than one block, and
      the size of a file that has one; nothing if the user wants no options. */
  lemma WantedExactly(c: ClientSettings)
    ensures var r := Wanted(c);
      && (BLKSIZE in r.options <==> !c.noOptions && c.maxBlksize != 512)
      && (WINDOWSIZE in r.options <==> !c.noOptions && c.window > 1)
      && (TSIZE in r.options <==> !c.noOptions && c.tsize >= 0)
      && r.options <= {BLKSIZE, WINDOWSIZE, TSIZE}
      && (c.noOptions ==> r.blksize == 512 && r.window == 1 && r.tsize == -1)
      && (!c.noOptions ==> r.blksize == c.maxBlksize && r.window == c.window && r.tsize == c.tsize)
  {
  }

  /** An option pair, if it is asked for. */
  function Maybe(asked: bool, o: Opt, n: nat): bytes {
    if asked then Pair(Name(o), Decimal(n)) else []
  }

  function OptionBytes(r: OptReq): bytes {
    Maybe(BLKSIZE in r.options, BLKSIZE, r.blksize) + (Maybe(WINDOWSIZE in r.options, WINDOWSIZE, r.window) +
    Maybe(TSIZE in r.options, TSIZE, if r.tsize >= 0 then r.tsize else 0))
  }

  /** makerequest, without the opcode; None when the request is too long. */
  function MakeRequest(c: ClientSettings, name: bytes, mode: Mode): Option<bytes> {
    var options := OptionBytes(Wanted(c));
    if |name| + 1 + |ModeName(mode)| + 1 + |options| > MAX_SEGSIZE then None
    else Some(name + [ZERO] + (ModeName(mode) + [ZERO] + options))
  }

  /** A request is refused exactly when its strings and options exceed 65464 bytes. */
  lemma RequestTooLong(c: ClientSettings, name: bytes, mode: Mode)
    ensures MakeRequest(c, name, mode).None? <==>
      |name| + (if mode == OCTET then 5 else 8) + 2 + |OptionBytes(Wanted(c))| > 65464
  {
    hide OptionBytes, Wanted;
  }

  /** The size of the buffer for the options, TFTP_OPTION_SPACE. */
  const OPTION_SPACE := (8 + 20 + 1) + (11 + 20 + 1) + (6 + 20 + 1)

  /** The options always fit the buffer they are put together in. */
  lemma OptionsFit(c: ClientSettings)
    requires ValidClient(c)
    ensures |OptionBytes(Wanted(c))| <= OPTION_SPACE
  {
    var r := Wanted(c);
    AtMostTwentyDigits(r.blksize);
    AtMostTwentyDigits(r.window);
    if r.tsize >= 0 {
      AtMostTwentyDigits(r.tsize);
    } else {
      AtMostTwentyDigits(0);
    }
    hide Decimal;
  }

  lemma PairFits(o: Opt, n: nat)
    requires n <= UINTMAX
    ensures |Pair(Name(o), Decimal(n))| <= |Name(o)| + 22
  {
    hide Decimal, Name;
    AtMostTwentyDigits(n);
  }

  /** A name with its NUL, and a printed number with its NUL. */
  method PutPair(buf: array<octet>, cp: nat, o: Opt, n: nat) returns (end: nat)
    requires cp + |Pair(Name(o), Decimal(n))| <= buf.Length
    modifies buf
    ensures end == cp + |Pair(Name(o), Decimal(n))|
    ensures buf[..end] == old(buf[..cp]) + Pair(Name(o), Decimal(n))
  {
    hide Decimal, Name;
    var middle := MemPCpy(buf, cp, Name(o) + [ZERO]);
    end := MemPCpy(buf, middle, Decimal(n) + [ZERO]);
  }

  method PutMaybe(buf: array<octet>, cp: nat, asked: bool, o: Opt, n: nat) returns (end: nat)
    requires cp + |Name(o)| + 22 <= buf.Length && n <= UINTMAX
    modifies buf
    ensures cp <= end <= cp + |Name(o)| + 22
    ensures buf[..end] == old(buf[..cp]) + Maybe(asked, o, n)
  {
    hide Decimal, Pair, Name;
    end := cp;
    if asked {
      PairFits(o, n);
      end := PutPair(buf, cp, o, n);
    }
  }

  lemma NameLengths()
    ensures |Name(BLKSIZE)| == 7 && |Name(WINDOWSIZE)| == 10 && |Name(TSIZE)| == 5
  {
  }

  /** What to ask for. */
  method Choose(c: ClientSettings) returns (req: OptReq)
    ensures req == Wanted(c)
  {
    if c.noOptions {
      return Defaults;
    }
    req := OptReq({}, c.window, c.maxBlksize, c.tsize);
    if req.blksize != SEGSIZE {
      req := req.(options := req.options + {BLKSIZE});
    }
    if req.window > 1 {
      req := req.(options := req.options + {WINDOWSIZE});
    }
    if req.tsize >= 0 {
      req := req.(options := req.options + {TSIZE});
    }
  }

  /** The options, put together in a buffer of fixed size. */
  method PutOptions(c: ClientSettings, buf: array<octet>) returns (req: OptReq, cp: nat)
    requires ValidClient(c) && buf.Length == OPTION_SPACE
    modifies buf
    ensures req == Wanted(c) && cp <= buf.Length && buf[..cp] == OptionBytes(req)
  {
    hide Maybe, Name, Wanted;
    NameLengths();
    WantedFacts(c);
    req := Choose(c);
    cp := PutMaybe(buf, 0, BLKSIZE in req.options, BLKSIZE, req.blksize);
    cp := PutMaybe(buf, cp, WINDOWSIZE in req.options, WINDOWSIZE, req.window);
    cp := PutMaybe(buf, cp, TSIZE in req.options, TSIZE, if req.tsize >= 0 then req.tsize else 0);
  }

  /** makerequest: the packet is filled to its last byte, or refused as too long. */
  method FillRequest(c: ClientSettings, opcode: octet, name: bytes, mode: Mode)
    returns (pkt: array?<octet>, req: OptReq)
    requires ValidClient(c)
    ensures req == Wanted(c)
    ensures pkt == null <==> MakeRequest(c, name, mode) == None
    ensures pkt != null ==> fresh(pkt) && pkt[..] == [0, opcode] + MakeRequest(c, name, mode).value
  {
    hide OptionBytes, Wanted, ModeName;
    var optionbuf := new octet[OPTION_SPACE];
    var optionlen;
    req, optionlen := PutOptions(c, optionbuf);
    var options := optionbuf[..optionlen];
    var m := ModeName(mode);
    var size := |name| + 1 + (|m| + 1) + optionlen;
    if size > MAX_SEGSIZE {
      return null, req;
    }
    var packet := new octet[size + 2];
    packet[0], packet[1] := 0, opcode;
    assert packet[..2] == [0, opcode];
    var cp := MemPCpy(packet, 2, name + [ZERO]);
    cp := MemPCpy(packet, cp, m + [ZERO]);
    cp := MemPCpy(packet, cp, options);
    assert packet[..] == packet[..cp] == [0, opcode] + (name + [ZERO] + (m + [ZERO] + options));
    return packet, req;
  }

  // ------------------------------------------------------------------ the answer

  /** The option that a name in the OACK stands for. */
  function Named(option: bytes): Option<Opt> {
    if SameName(option, Name(BLKSIZE)) then Some(BLKSIZE)
    else if SameName(option, Name(WINDOWSIZE)) then Some(WINDOWSIZE)
    else if SameName(option, Name(TSIZE)) then Some(TSIZE)
    else None
  }

  /** One option of the OACK; None if it was not asked for, is there already or has a
      value that does not fit the request.  After tsize the earlier ones no longer
      count as being there. */
  function AcceptValue(ack: OptReq, req: OptReq, o: Opt, v: nat): Option<OptReq> {
    if o in ack.options || o !in req.options then None
    else match o
      case BLKSIZE =>
        if v < MIN_SEGSIZE || v > req.blksize then None
        else Some(ack.(blksize := v, options := ack.options + {BLKSIZE}))
      case WINDOWSIZE =>
        if v < 1 || v > req.window then None
        else Some(ack.(window := v, options := ack.options + {WINDOWSIZE}))
      case TSIZE => Some(ack.(tsize := ToOff(v), options := {TSIZE}))
      case _ => None
  }

  function Accept(ack: OptReq, req: OptReq, option: bytes, value: bytes): Option<OptReq> {
    var v, o := ToUMax(value), Named(option);
    if v.None? || o.None? then None else AcceptValue(ack, req, o.value, v.value)
  }

  /** The pairs from offset cp to the end of the packet. */
  function AcceptFrom(ack: OptReq, req: OptReq, b: bytes, cp: nat): Option<OptReq>
    requires cp <= |b|
    decreases |b| - cp
  {
    if cp == |b| then Some(ack)
    else
      var n := NulAt(b, cp);
      if n == |b| || n == cp || n + 1 == |b| then None
      else
        var m := NulAt(b, n + 1);
        if m == |b| || m == n + 1 then None
        else
          var a := Accept(ack, req, b[cp..n], b[n + 1..m]);
          if a.None? then None else AcceptFrom(a.value, req, b, m + 1)
  }

  /** parse_oack on a whole packet. */
  function Understood(req: OptReq, packet: bytes): Option<OptReq> {
    if |packet| <= 2 || packet[..2] != [0, 6] then None else AcceptFrom(Defaults, req, packet, 2)
  }

  /** memchr for the NUL. */
  method MemChr(b: bytes, i: nat) returns (k: nat)
    requires i <= |b|
    ensures k == NulAt(b, i)
  {
    k := i;
    while k < |b| && b[k] != ZERO
      invariant i <= k <= |b| && NulAt(b, k) == NulAt(b, i)
    {
      k := k + 1;
    }
  }

  /** The loop of parse_oack. */
  method ParseOack(req: OptReq, packet: bytes) returns (ack: Option<OptReq>)
    ensures ack == Understood(req, packet)
  {
    hide NulAt, Accept;
    if |packet| <= 2 || packet[..2] != [0, 6] {
      return None;
    }
    var cp, optack := 2, Defaults;
    while cp < |packet|
      invariant 2 <= cp <= |packet|
      invariant AcceptFrom(optack, req, packet, cp) == Understood(req, packet)
    {
      var nul := MemChr(packet, cp);
      if nul == |packet| || nul == cp || nul + 1 == |packet| {
        return None;
      }
      var end := MemChr(packet, nul + 1);
      if end == |packet| || end == nul + 1 {
        return None;
      }
      var a := Accept(optack, req, packet[cp..nul], packet[nul + 1..end]);
      if a.None? {
        return None;
      }
      optack, cp := a.value, end + 1;
    }
    return Some(optack);
  }

  /** A pair is judged, and parsing goes on behind it. */
  lemma PairJudged(ack: OptReq, req: OptReq, b: bytes, cp: nat, name: bytes, v: bytes, rest: bytes)
    requires cp <= |b| && Plain(name) && Plain(v) && name != [] && v != [] && b[cp..] == Pair(name, v) + rest
    ensures var next := cp + |name| + |v| + 2; var a := Accept(ack, req, name, v);
      && next <= |b| && b[next..] == rest
      && AcceptFrom(ack, req, b, cp) == if a.None? then None else AcceptFrom(a.value, req, b, next)
  {
    hide NulAt, Accept;
    PairStands(b, cp, name, v, rest);
  }

  /** A pair with one of the three names, in any spelling, and a printed number. */
  lemma ValueJudged(ack: OptReq, req: OptReq, o: Opt, name: bytes, v: nat)
    requires o in {BLKSIZE, WINDOWSIZE, TSIZE} && SameName(Name(o), name) && v <= UINTMAX
    ensures Named(name) == Some(o) && Plain(Decimal(v))
    ensures Accept(ack, req, name, Decimal(v)) == AcceptValue(ack, req, o, v)
  {
    NumberRoundTrip(v);
    hide Decimal, ToUMax, AcceptValue;
    assert SameName(name, Name(o));
  }

  /** A pair of a printed number is accepted exactly when the option was asked for, is not
      there yet, and the value lies within the request, and then it is what is agreed on. */
  lemma NumberAccepted(ack: OptReq, req: OptReq, o: Opt, name: bytes, v: nat)
    requires o in {BLKSIZE, WINDOWSIZE, TSIZE} && SameName(Name(o), name) && v <= UINTMAX
    ensures var a := Accept(ack, req, name, Decimal(v));
      && (a.Some? <==>
            && o in req.options && o !in ack.options
            && (o == BLKSIZE ==> 8 <= v <= req.blksize) && (o == WINDOWSIZE ==> 1 <= v <= req.window))
      && (a.Some? ==>
            && a.value.blksize == (if o == BLKSIZE then v else ack.blksize)
            && a.value.window == (if o == WINDOWSIZE then v else ack.window)
            && a.value.tsize == (if o != TSIZE then ack.tsize else if v <= OFF_MAX then v else v - UINTMAX - 1)
            && o in a.value.options)
  {
    hide Accept, Decimal, Name, SameName;
    ValueJudged(ack, req, o, name, v);
  }

  /** Every value stands at its default, or was asked for and lies within the request. */
  predicate Within(ack: OptReq, req: OptReq) {
    && (ack.blksize == 512 || (BLKSIZE in req.options && 8 <= ack.blksize <= req.blksize))
    && (ack.window == 1 || (WINDOWSIZE in req.options && 1 <= ack.window <= req.window))
    && (ack.tsize == -1 || (TSIZE in req.options && OFF_MIN <= ack.tsize <= OFF_MAX))
    && ack.options <= req.options
  }

  lemma AcceptWithin(ack: OptReq, req: OptReq, option: bytes, value: bytes)
    requires Within(ack, req) && Accept(ack, req, option, value).Some?
    ensures Within(Accept(ack, req, option, value).value, req)
  {
    hide Named;
  }

  lemma {:induction false} AcceptFromWithin(ack: OptReq, req: OptReq, b: bytes, cp: nat)
    requires cp <= |b| && Within(ack, req) && AcceptFrom(ack, req, b, cp).Some?
    ensures Within(AcceptFrom(ack, req, b, cp).value, req)
    decreases |b| - cp
  {
    hide NulAt, Accept, Within;
    if cp < |b| {
      var n := NulAt(b, cp);
      var m := NulAt(b, n + 1);
      AcceptWithin(ack, req, b[cp..n], b[n + 1..m]);
      AcceptFromWithin(Accept(ack, req, b[cp..n], b[n + 1..m]).value, req, b, m + 1);
    }
  }

  /** Whatever a server answers, the client agrees to nothing beyond its request. */
  lemma UnderstoodWithin(req: OptReq, packet: bytes)
    requires Understood(req, packet).Some?
    ensures Within(Understood(req, packet).value, req)
  {
    hide AcceptFrom;
    AcceptFromWithin(Defaults, req, packet, 2);
  }

  // ------------------------------------------------------------- pairs that come twice

  /** The options of an OACK, in its order, as far as it is accepted. */
  function Seen(ack: OptReq, req: OptReq, b: bytes, cp: nat): seq<Opt>
    requires cp <= |b|
    decreases |b| - cp
  {
    var n := NulAt(b, cp);
    if n >= |b| - 1 then []
    else
      var m := NulAt(b, n + 1);
      var o, a := Named(b[cp..n]), Accept(ack, req, b[cp..n], b[n + 1..m]);
      if m == |b| || a.None? || o.None? then [] else [o.value] + Seen(a.value, req, b, m + 1)
  }

  predicate Distinct(s: seq<Opt>) {
    forall i, j :: 0 <= i < j < |s| ==> s[i] != s[j]
  }

  /** The request does not combine tsize with another option. */
  predicate Alone(req: OptReq) {
    TSIZE !in req.options || req.options <= {TSIZE}
  }

  lemma AcceptAdds(ack: OptReq, req: OptReq, option: bytes, value: bytes)
    requires Accept(ack, req, option, value).Some? && Alone(req) && ack.options <= req.options
    ensures var o := Named(option);
      && o.Some? && o.value in req.options && o.value !in ack.options
      && Accept(ack, req, option, value).value.options == ack.options + {o.value}
  {
    hide Named, ToUMax;
  }

  lemma {:induction false} SeenDistinct(ack: OptReq, req: OptReq, b: bytes, cp: nat)
    requires cp <= |b| && AcceptFrom(ack, req, b, cp).Some? && Alone(req) && ack.options <= req.options
    ensures Distinct(Seen(ack, req, b, cp))
    ensures forall o :: o in Seen(ack, req, b, cp) ==> o !in ack.options
    decreases |b| - cp
  {
    hide NulAt, Accept, Named, Alone;
    if cp < |b| {
      var n := NulAt(b, cp);
      var m := NulAt(b, n + 1);
      AcceptAdds(ack, req, b[cp..n], b[n + 1..m]);
      var a := Accept(ack, req, b[cp..n], b[n + 1..m]).value;
      var o := Named(b[cp..n]).value;
      SeenDistinct(a, req, b, m + 1);
      var later := Seen(a, req, b, m + 1);
      assert Seen(ack, req, b, cp) == [o] + later;
    }
  }

  lemma PairSeen(ack: OptReq, req: OptReq, b: bytes, cp: nat, name: bytes, v: bytes, rest: bytes)
    requires cp <= |b| && Plain(name) && Plain(v) && name != [] && v != [] && b[cp..] == Pair(name, v) + rest
    requires Accept(ack, req, name, v).Some?
    ensures var next := cp + |name| + |v| + 2; var a := Accept(ack, req, name, v).value;
      && next <= |b| && b[next..] == rest
      && (AcceptFrom(a, req, b, next).Some? ==>
            AcceptFrom(ack, req, b, cp).Some? && Seen(ack, req, b, cp) == [Named(name).value] + Seen(a, req, b, next))
  {
    hide NulAt, Accept, Named;
    AcceptedIsNamed(ack, req, name, v);
    PairStands(b, cp, name, v, rest);
    PairJudged(ack, req, b, cp, name, v, rest);
  }

  lemma AcceptedIsNamed(ack: OptReq, req: OptReq, name: bytes, v: bytes)
    requires Accept(ack, req, name, v).Some?
    ensures Named(name).Some?
  {
    hide Named, AcceptValue, ToUMax;
  }

  /** An OACK that answers option o twice, with a tsize in between. */
  function Twice(o: Opt, v: nat): bytes {
    [0, 6] + (Pair(Name(o), Decimal(v)) + (Pair(Name(TSIZE), Decimal(0)) + (Pair(Name(o), Decimal(v)) + [])))
  }

  lemma TwiceAccepted(req: OptReq, o: Opt, v: nat)
    requires o in {BLKSIZE, WINDOWSIZE} && {o, TSIZE} <= req.options && v <= UINTMAX
    requires if o == BLKSIZE then MIN_SEGSIZE <= v <= req.blksize else 1 <= v <= req.window
    ensures Understood(req, Twice(o, v)).Some? && Seen(Defaults, req, Twice(o, v), 2) == [o, TSIZE, o]
  {
    hide Accept, Named, Name, Decimal, ToUMax, Pair, AcceptFrom, Seen, SameName;
    var b, name, value := Twice(o, v), Name(o), Decimal(v);
    assert b[..2] == [0, 6];
    SameNameSelf(name);
    SameNameSelf(Name(TSIZE));
    ValueJudged(Defaults, req, o, name, v);
    var a1 := AcceptValue(Defaults, req, o, v).value;
    ValueJudged(a1, req, TSIZE, Name(TSIZE), 0);
    var a2 := AcceptValue(a1, req, TSIZE, 0).value;
    ValueJudged(a2, req, o, name, v);
    var a3 := AcceptValue(a2, req, o, v).value;
    var last := Pair(name, value) + [];
    var middle := Pair(Name(TSIZE), Decimal(0)) + last;
    assert b[2..] == Pair(name, value) + middle;
    PairSeen(Defaults, req, b, 2, name, value, middle);
    var cp := 2 + |name| + |value| + 2;
    PairSeen(a1, req, b, cp, Name(TSIZE), Decimal(0), last);
    cp := cp + |Name(TSIZE)| + |Decimal(0)| + 2;
    PairSeen(a2, req, b, cp, name, value, []);
    cp := cp + |name| + |value| + 2;
    AtEnd(a3, req, b, cp);
  }

  lemma AtEnd(ack: OptReq, req: OptReq, b: bytes, cp: nat)
    requires cp <= |b| && b[cp..] == []
    ensures AcceptFrom(ack, req, b, cp) == Some(ack) && Seen(ack, req, b, cp) == []
  {
  }

  /** One would expect that an OACK with a repeated option is always rejected.  It is
      so exactly for requests that do not combine tsize with another option. */
  lemma RepeatsRejected(req: OptReq)
    requires req.options <= {BLKSIZE, WINDOWSIZE, TSIZE}
    requires MIN_SEGSIZE <= req.blksize <= MAX_SEGSIZE && 1 <= req.window <= MAX_WINDOWSIZE
    ensures Alone(req) <==> forall b :: Understood(req, b).Some? ==> Distinct(Seen(Defaults, req, b, 2))
  {
    if Alone(req) {
      forall b | Understood(req, b).Some? ensures Distinct(Seen(Defaults, req, b, 2)) {
        SeenDistinct(Defaults, req, b, 2);
      }
    } else {
      var o := if BLKSIZE in req.options then BLKSIZE else WINDOWSIZE;
      var v := if o == BLKSIZE then MIN_SEGSIZE else 1;
      TwiceAccepted(req, o, v);
      var s := Seen(Defaults, req, Twice(o, v), 2);
      assert s[0] == s[2];
    }
  }
}
