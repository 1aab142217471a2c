/** tftp_xfer_send: the sending engine, as a step function over the answers its
    environment gives (file windows, send results, packets, timeouts), and as
    the loop that runs it. */
module Sender {
  import opened Netascii
  import opened BlockNumber
  import opened Packets

  datatype Config = Config(blocksize: nat, windowsize: nat, rollover: u16, resendOack: bool)

  datatype Phase =
    | Loading               // inside read_window
    | Sending(next: nat)    // inside send for packet next of the window
    | Waiting               // inside recv
    | Stopped(status: Status)

  /** The volatile locals of the engine; window holds the stamped packets. */
  datatype State = State(phase: Phase, block: u16, window: seq<Packet>, final: bool, bytes: nat)

  datatype Event =
    | Window(payloads: seq<seq<byte>>, last: bool)
    | WindowFailed
    | Sent
    | SendFailed
    | Received(packet: Packet)
    | TimedOut
    | RecvFailed

  const Initial := State(Loading, 1, [], false, 0)

  /** The event answers the call the engine is making. */
  predicate Answers(s: State, e: Event) {
    match s.phase
    case Loading => e.Window? || e.WindowFailed?
    case Sending(_) => e.Sent? || e.SendFailed?
    case Waiting => e.Received? || e.TimedOut? || e.RecvFailed?
    case Stopped(_) => false
  }

  /** The window's packets with consecutive numbers from block on. */
  function Stamped(payloads: seq<seq<byte>>, block: u16, rollover: u16): (w: seq<Packet>)
    ensures |w| == |payloads|
    ensures forall i :: 0 <= i < |w| ==> w[i].Data? && w[i].data == payloads[i]
  {
    if payloads == [] then []
    else [Data(block, payloads[0])] + Stamped(payloads[1..], NextBlock(block, rollover), rollover)
  }

  function Advanced(block: u16, n: nat, rollover: u16): u16
    decreases n
  {
    if n == 0 then block else Advanced(NextBlock(block, rollover), n - 1, rollover)
  }

  /** Start transmitting at packet n: its length is checked before the send. */
  function SendFrom(c: Config, s: State, n: nat): State
    requires n < |s.window| && s.window[n].Data?
  {
    s.(phase := if |s.window[n].data| > c.blocksize then Stopped(ReadError) else Sending(n))
  }

  predicate AllData(w: seq<Packet>) {
    forall i :: 0 <= i < |w| ==> w[i].Data?
  }

  predicate Valid(s: State) {
    && AllData(s.window)
    && (s.phase.Sending? ==> s.phase.next < |s.window|)
    && (s.phase.Waiting? ==> |s.window| > 0)
  }

  function WindowBytes(w: seq<Packet>): nat
    requires AllData(w)
  {
    if w == [] then 0 else |w[0].data| + WindowBytes(w[1..])
  }

  /** The window's first packet numbered k, the last one excluded: an ACK for it
      confirms the prefix up to it. */
  function Confirmed(w: seq<Packet>, k: u16, from: nat): (n: nat)
    requires AllData(w) && from < |w|
    ensures from <= n < |w|
    ensures n + 1 < |w| ==> w[n].block == k
    ensures forall i :: from <= i < n ==> w[i].block != k
    decreases |w| - from
  {
    if from + 1 == |w| || w[from].block == k then from else Confirmed(w, k, from + 1)
  }

  function Step(c: Config, s: State, e: Event): (s': State)
    requires Valid(s) && Answers(s, e)
    ensures Valid(s')
  {
    match s.phase
    case Loading =>
      if e.WindowFailed? || |e.payloads| == 0 || |e.payloads| > c.windowsize then
        s.(phase := Stopped(ReadError))
      else
        SendFrom(c, s.(window := Stamped(e.payloads, s.block, c.rollover),
                       block := Advanced(s.block, |e.payloads|, c.rollover),
                       final := e.last), 0)
    case Sending(n) =>
      if e.SendFailed? then s.(phase := Stopped(SendError))
      else if n + 1 < |s.window| then SendFrom(c, s, n + 1)
      else s.(phase := Waiting)
    case Waiting =>
      (match e
       case TimedOut => SendFrom(c, s, 0)
       case Received(p) => OnPacket(c, s, p)
       case _ => s.(phase := Stopped(RecvError)))
  }

  function OnPacket(c: Config, s: State, p: Packet): (s': State)
    requires Valid(s) && s.phase.Waiting?
    ensures Valid(s')
  {
    match p
    case Error => s.(phase := Stopped(PeerError))
    case Oack => if c.resendOack then SendFrom(c, s, 0) else s
    case Ack(k) =>
      if k == s.window[|s.window| - 1].block then Release(s)
      else
        var n := Confirmed(s.window, k, 0);
        if n + 1 < |s.window| then SendFrom(c, s, n + 1) else s
    case _ => s
  }

  function Release(s: State): (s': State)
    requires Valid(s)
    ensures Valid(s')
  {
    State(if s.final then Stopped(Ok) else Loading, s.block, [], false,
          Add64(s.bytes, WindowBytes(s.window)))
  }

  /** The packet the step puts on the wire, if any. */
  function Emitted(s: State, e: Event): seq<Packet>
    requires Valid(s) && Answers(s, e)
  {
    if s.phase.Sending? && e.Sent? then [s.window[s.phase.next]] else []
  }

  /** A window that is empty or too large, or a packet beyond the block size where it is
      about to be sent, ends the transfer with a read error; otherwise the first packet of
      the window is sent, and after each packet the next. */
  lemma OversizedStops(c: Config, s: State, e: Event)
    requires Valid(s) && Answers(s, e)
    ensures s.phase.Loading? && e.Window? ==>
      Step(c, s, e).phase ==
        if 1 <= |e.payloads| <= c.windowsize && |e.payloads[0]| <= c.blocksize then Sending(0)
        else Stopped(ReadError)
    ensures s.phase.Sending? && e.Sent? && s.phase.next + 1 < |s.window| ==>
      Step(c, s, e) == s.(phase := if |s.window[s.phase.next + 1].data| <= c.blocksize then Sending(s.phase.next + 1)
                                   else Stopped(ReadError))
    ensures s.phase.Waiting? && e.TimedOut? ==>
      Step(c, s, e) == s.(phase := if |s.window[0].data| <= c.blocksize then Sending(0) else Stopped(ReadError))
  {
  }

  // ---------------------------------------------------------------- whole runs

  datatype Outcome = Outcome(state: State, sent: seq<Packet>)

  predicate AnswersAll(c: Config, s: State, events: seq<Event>)
    requires Valid(s)
    decreases |events|
  {
    events == [] || (Answers(s, events[0]) && AnswersAll(c, Step(c, s, events[0]), events[1..]))
  }

  function Run(c: Config, s: State, events: seq<Event>): (o: Outcome)
    requires Valid(s) && AnswersAll(c, s, events)
    decreases |events|
  {
    if events == [] then Outcome(s, [])
    else
      var o := Run(c, Step(c, s, events[0]), events[1..]);
      Outcome(o.state, Emitted(s, events[0]) + o.sent)
  }

  /** After k events the engine is in state s and has sent sent. */
  ghost predicate Reached(c: Config, events: seq<Event>, k: nat, s: State, sent: seq<Packet>) {
    && Valid(Initial) && AnswersAll(c, Initial, events)
    && k <= |events|
    && Valid(s) && AnswersAll(c, s, events[k..])
    && var o := Run(c, Initial, events); var t := Run(c, s, events[k..]);
       o.state == t.state && o.sent == sent + t.sent
  }

  lemma Follow(c: Config, events: seq<Event>, k: nat, s: State, sent: seq<Packet>)
    requires Reached(c, events, k, s, sent) && k < |events|
    ensures Answers(s, events[k])
    ensures Reached(c, events, k + 1, Step(c, s, events[k]), sent + Emitted(s, events[k]))
  {
    assert events[k..][0] == events[k] && events[k..][1..] == events[k + 1..];
  }

  lemma Arrived(c: Config, events: seq<Event>, s: State, sent: seq<Packet>)
    requires Reached(c, events, |events|, s, sent)
    ensures Run(c, Initial, events) == Outcome(s, sent)
  {
    assert events[|events|..] == [];
  }

  lemma StoppedArrived(c: Config, events: seq<Event>, k: nat, s: State, sent: seq<Packet>)
    requires Reached(c, events, k, s, sent) && s.phase.Stopped?
    ensures Run(c, Initial, events) == Outcome(s, sent)
  {
    if k < |events| {
      Follow(c, events, k, s, sent);
    } else {
      Arrived(c, events, s, sent);
    }
  }

  lemma {:induction false} StampedSnoc(payloads: seq<seq<byte>>, x: seq<byte>, block: u16, rollover: u16)
    ensures Stamped(payloads + [x], block, rollover)
         == Stamped(payloads, block, rollover) + [Data(Advanced(block, |payloads|, rollover), x)]
    ensures Advanced(block, |payloads| + 1, rollover)
         == NextBlock(Advanced(block, |payloads|, rollover), rollover)
    decreases |payloads|
  {
    if payloads == [] {
      assert payloads + [x] == [x] && [x][1..] == [];
      assert Advanced(block, 1, rollover) == Advanced(NextBlock(block, rollover), 0, rollover);
    } else {
      assert (payloads + [x])[0] == payloads[0] && (payloads + [x])[1..] == payloads[1..] + [x];
      StampedSnoc(payloads[1..], x, NextBlock(block, rollover), rollover);
    }
  }

  lemma {:induction false} WindowBytesSnoc(w: seq<Packet>, p: Packet)
    requires AllData(w) && p.Data?
    ensures WindowBytes(w + [p]) == WindowBytes(w) + |p.data|
  {
    if w == [] {
      assert w + [p] == [p] && [p][1..] == [];
    } else {
      assert (w + [p])[0] == w[0] && (w + [p])[1..] == w[1..] + [p];
      WindowBytesSnoc(w[1..], p);
    }
  }

  /** The loop over the window that stamps opcode and block number. */
  method StampWindow(payloads: seq<seq<byte>>, first: u16, rollover: u16) returns (window: seq<Packet>, block: u16)
    ensures window == Stamped(payloads, first, rollover)
    ensures block == Advanced(first, |payloads|, rollover)
  {
    window, block := [], first;
    for n := 0 to |payloads|
      invariant window == Stamped(payloads[..n], first, rollover)
      invariant block == Advanced(first, n, rollover)
    {
      StampedSnoc(payloads[..n], payloads[n], first, rollover);
      assert payloads[..n] + [payloads[n]] == payloads[..n + 1];
      window := window + [Data(block, payloads[n])];
      block := NextBlock(block, rollover);
    }
    assert payloads[..|payloads|] == payloads;
  }

  method CountWindow(window: seq<Packet>, start: nat) returns (bytes: nat)
    requires AllData(window) && start < WORD
    ensures bytes == Add64(start, WindowBytes(window))
  {
    bytes := start;
    for n := 0 to |window|
      invariant bytes == Add64(start, WindowBytes(window[..n]))
    {
      WindowBytesSnoc(window[..n], window[n]);
      assert window[..n] + [window[n]] == window[..n + 1];
      bytes := Add64(bytes, |window[n].data|);
    }
    assert window[..|window|] == window;
  }

  /** Search the window, its last packet excluded, for the acknowledged number. */
  method FindConfirmed(window: seq<Packet>, k: u16) returns (n: nat)
    requires AllData(window) && |window| > 0
    ensures n == Confirmed(window, k, 0)
  {
    n := 0;
    while n + 1 < |window|
      invariant n < |window| && Confirmed(window, k, 0) == Confirmed(window, k, n)
    {
      if window[n].block == k {
        return;
      }
      n := n + 1;
    }
  }

  /** Transmit the window from packet start on; stops early when an oversized
      packet or a failing send ends the transfer, or the script ends. */
  method Transmit(c: Config, events: seq<Event>, from: nat, s: State, sofar: seq<Packet>)
    returns (k: nat, s': State, sent: seq<Packet>)
    requires s.phase.Sending? && Reached(c, events, from, s, sofar)
    ensures Reached(c, events, k, s', sent) && from <= k
    ensures s'.phase.Waiting? || s'.phase.Stopped? || k == |events|
    ensures s'.phase.Waiting? ==> s' == s.(phase := Waiting) && from < k
  {
    hide Run, AnswersAll;
    k, sent := from, sofar;
    var n := s.phase.next;
    while n < |s.window|
      invariant from <= k && n <= |s.window| && (n > s.phase.next ==> from < k) && n >= s.phase.next
      invariant Reached(c, events, k, if n < |s.window| then s.(phase := Sending(n)) else s.(phase := Waiting), sent)
      decreases |s.window| - n
    {
      s' := s.(phase := Sending(n));
      if k == |events| {
        return;
      }
      Follow(c, events, k, s', sent);
      var e := events[k];
      k := k + 1;
      if e.SendFailed? {
        s' := s'.(phase := Stopped(SendError));
        assert sent + [] == sent;
        return;
      }
      sent := sent + [s.window[n]];
      n := n + 1;
      if n < |s.window| && |s.window[n].data| > c.blocksize {
        s' := s.(phase := Stopped(ReadError));
        return;
      }
    }
    s' := s.(phase := Waiting);
  }

  /** What one answer to recv does to the waiting engine. */
  method React(c: Config, s: State, e: Event) returns (s': State)
    requires Valid(s) && s.phase.Waiting? && s.bytes < WORD && Answers(s, e)
    ensures s' == Step(c, s, e) && s'.bytes < WORD
    ensures s'.phase.Sending? ==> s' == s.(phase := s'.phase)
    ensures s'.phase.Loading? ==> s' == Release(s)
    ensures s'.phase.Waiting? ==> s' == s
  {
    if e.RecvFailed? {
      return s.(phase := Stopped(RecvError));
    }
    if e.TimedOut? {
      return SendFrom(c, s, 0);
    }
    var p := e.packet;
    if p.Error? {
      return s.(phase := Stopped(PeerError));
    }
    if p.Ack? && p.block == s.window[|s.window| - 1].block {
      var bytes := CountWindow(s.window, s.bytes);
      return State(if s.final then Stopped(Ok) else Loading, s.block, [], false, bytes);
    }
    if p.Oack? && c.resendOack {
      return SendFrom(c, s, 0);
    }
    if p.Ack? {
      var n := FindConfirmed(s.window, p.block);
      if n + 1 < |s.window| {
        return SendFrom(c, s, n + 1);
      }
    }
    return s;
  }

  /** The receive loop: skips what is not for this window, and leaves it on the
      ACK for the last packet, on a reason to resend, or on the end. */
  method Await(c: Config, events: seq<Event>, from: nat, s: State, sent: seq<Packet>)
    returns (k: nat, s': State)
    requires s.phase.Waiting? && s.bytes < WORD && Reached(c, events, from, s, sent)
    ensures Reached(c, events, k, s', sent) && from <= k && s'.bytes < WORD
    ensures !s'.phase.Waiting? || k == |events|
    ensures s'.phase.Loading? ==> s' == Release(s)
  {
    k, s' := from, s;
    while k < |events| && s'.phase.Waiting?
      invariant from <= k <= |events| && s'.bytes < WORD
      invariant s'.phase.Waiting? ==> s' == s
      invariant s'.phase.Loading? ==> s' == Release(s)
      invariant Reached(c, events, k, s', sent)
    {
      Follow(c, events, k, s', sent);
      assert sent + [] == sent;
      s' := React(c, s', events[k]);
      k := k + 1;
    }
  }

  /** The engine, run against a script of answers: it ends in the state, and has
      sent the packets, that folding Step over the script gives. */
  method Send(c: Config, events: seq<Event>) returns (s: State, sent: seq<Packet>)
    requires AnswersAll(c, Initial, events)
    ensures Outcome(s, sent) == Run(c, Initial, events)
  {
    var k := 0;
    s, sent := Initial, [];
    assert events[0..] == events;
    while true
      invariant k <= |events| && s.phase.Loading? && s.bytes < WORD
      invariant s == State(Loading, s.block, [], false, s.bytes)
      invariant Reached(c, events, k, s, sent)
      decreases |events| - k
    {
      if k == |events| {
        Arrived(c, events, s, sent);
        return;
      }
      Follow(c, events, k, s, sent);
      assert sent + [] == sent;
      var e := events[k];
      k := k + 1;
      if e.WindowFailed? || |e.payloads| == 0 || |e.payloads| > c.windowsize {
        s := s.(phase := Stopped(ReadError));
        StoppedArrived(c, events, k, s, sent);
        return;
      }
      var window, block := StampWindow(e.payloads, s.block, c.rollover);
      s := SendFrom(c, s.(window := window, block := block, final := e.last), 0);

      // resend_window
      while s.phase.Sending?
        invariant k <= |events| && s.bytes < WORD
        invariant Reached(c, events, k, s, sent)
        invariant
          || s.phase.Sending? || s.phase.Stopped? || k == |events|
          || (s.phase.Loading? && s == State(Loading, s.block, [], false, s.bytes))
        decreases |events| - k
      {
        k, s, sent := Transmit(c, events, k, s, sent);
        if s.phase.Waiting? {
          k, s := Await(c, events, k, s, sent);
        }
        if k == |events| {
          Arrived(c, events, s, sent);
          return;
        }
      }
      if s.phase.Stopped? {
        StoppedArrived(c, events, k, s, sent);
        return;
      }
      if k == |events| {
        Arrived(c, events, s, sent);
        return;
      }
    }
  }
}
