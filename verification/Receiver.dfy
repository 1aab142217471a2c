/** tftp_xfer_recv: the receiving engine, as a step function over the answers of
    its environment, and as the loop that runs it. */
module Receiver {
  import opened Netascii
  import opened Wrappers
  import opened BlockNumber
  import opened Packets

  datatype Config = Config(blocksize: nat, windowsize: nat, rollover: u16, maxBytes: nat)

  datatype Phase =
    | Reserving                                  // inside write_reserve
    | Replying(reply: Packet)                    // inside send, before listening
    | Listening                                  // inside recv
    | Publishing(number: u16, data: seq<byte>)   // inside write_publish
    | Draining(final: bool)                      // inside write_drain
    | Finishing                                  // inside write_finish
    | Acking(last: bool)                         // inside send of the window's ACK
    | Stopped(status: Status)

  datatype State = State(phase: Phase, block: u16, lastReceived: u16, lastAcked: u16,
                         bytes: nat, inWindow: nat, reply: Option<Packet>, initial: Option<Packet>)

  datatype Event =
    | Reserved | ReserveFailed
    | Sent | SendFailed
    | Received(packet: Packet) | TimedOut | RecvFailed
    | Published | PublishFailed
    | Drained | DrainFailed
    | Finished | FinishFailed

  /** reply is sent before listening; initial is a DATA packet that the request
      exchange has received already. */
  function Initial(reply: Option<Packet>, initial: Option<Packet>): State {
    State(Reserving, 1, 0, 0, 0, 0, reply, initial)
  }

  predicate Valid(s: State) {
    s.initial.Some? ==> s.initial.value.Data?
  }

  predicate Answers(s: State, e: Event) {
    match s.phase
    case Reserving => e.Reserved? || e.ReserveFailed?
    case Replying(_) => e.Sent? || e.SendFailed?
    case Listening => e.Received? || e.TimedOut? || e.RecvFailed?
    case Publishing(_, _) => e.Published? || e.PublishFailed?
    case Draining(_) => e.Drained? || e.DrainFailed?
    case Finishing => e.Finished? || e.FinishFailed?
    case Acking(_) => e.Sent? || e.SendFailed?
    case Stopped(_) => false
  }

  /** Take the DATA packet: its size is checked before it is published. */
  function Accept(c: Config, s: State, number: u16, data: seq<byte>): State {
    s.(reply := None, initial := None,
       phase := if |data| > c.blocksize then Stopped(BadData)
                else if |data| > Sub64(c.maxBytes, s.bytes) then Stopped(SizeExceeded)
                else Publishing(number, data))
  }

  /** Past the reply: the packet received early comes first. */
  function Listen(c: Config, s: State): State
    requires Valid(s)
  {
    if s.initial.Some? then Accept(c, s, s.initial.value.block, s.initial.value.data)
    else s.(phase := Listening)
  }

  function AfterPublish(c: Config, s: State, number: u16, data: seq<byte>): State {
    var final := |data| != c.blocksize;
    var full := final || s.inWindow + 1 == c.windowsize;
    s.(phase := if full then Draining(final) else Reserving,
       bytes := Add64(s.bytes, |data|),
       lastReceived := number,
       lastAcked := if full then number else s.lastAcked,
       inWindow := if full then 0 else s.inWindow + 1,
       block := NextBlock(s.block, c.rollover))
  }

  function Step(c: Config, s: State, e: Event): (s': State)
    requires Valid(s) && Answers(s, e)
    ensures Valid(s')
  {
    match s.phase
    case Reserving =>
      if e.ReserveFailed? then s.(phase := Stopped(WriteError))
      else if s.reply.Some? then s.(phase := Replying(s.reply.value))
      else Listen(c, s)
    case Replying(_) =>
      if e.SendFailed? then s.(phase := Stopped(SendError)) else Listen(c, s)
    case Listening =>
      (match e
       case TimedOut => s.(phase := Replying(if s.reply.Some? then s.reply.value else Ack(s.lastAcked)))
       case Received(p) =>
         if p.Error? then s.(phase := Stopped(PeerError))
         else if p.Data? && p.block == s.block then Accept(c, s, p.block, p.data)
         else s
       case _ => s.(phase := Stopped(RecvError)))
    case Publishing(number, data) =>
      if e.PublishFailed? then s.(phase := Stopped(WriteError)) else AfterPublish(c, s, number, data)
    case Draining(final) =>
      if e.DrainFailed? then s.(phase := Stopped(WriteError))
      else s.(phase := if final then Finishing else Acking(false))
    case Finishing =>
      s.(phase := if e.FinishFailed? then Stopped(WriteError) else Acking(true))
    case Acking(last) =>
      s.(phase := if e.SendFailed? then Stopped(SendError) else if last then Stopped(Ok) else Reserving)
  }

  /** What the step puts on the wire: the reply, the window's ACK, or, for a DATA
      packet out of order, an ACK for the last block received in order. */
  function Emitted(s: State, e: Event): seq<Packet>
    requires Answers(s, e)
  {
    if s.phase.Replying? && e.Sent? then [s.phase.reply]
    else if s.phase.Acking? && e.Sent? then [Ack(s.lastAcked)]
    else if s.phase.Listening? && e.Received? && e.packet.Data? && e.packet.block != s.block then
      [Ack(s.lastReceived)]
    else []
  }

  /** A DATA of the expected block is refused exactly when it is beyond the block size or
      would take the file beyond its limit; one of another block changes nothing. */
  lemma DataJudged(c: Config, s: State, number: u16, data: seq<byte>)
    requires Valid(s) && s.phase.Listening? && s.bytes <= c.maxBytes < WORD
    ensures var s' := Step(c, s, Received(Data(number, data)));
      && (number != s.block ==> s' == s)
      && (number == s.block ==>
           && s'.reply == None && s'.initial == None
           && s'.phase == (if |data| > c.blocksize then Stopped(BadData)
                           else if s.bytes + |data| > c.maxBytes then Stopped(SizeExceeded)
                           else Publishing(number, data)))
  {
    assert Sub64(c.maxBytes, s.bytes) == c.maxBytes - s.bytes;
  }

  // ---------------------------------------------------------------- whole runs

  datatype Outcome = Outcome(state: State, sent: seq<Packet>)

  predicate AnswersAll(c: Config, s: State, events: seq<Event>)
    requires Valid(s)
    decreases |events|
  {
    events == [] || (Answers(s, events[0]) && AnswersAll(c, Step(c, s, events[0]), events[1..]))
  }

  function Run(c: Config, s: State, events: seq<Event>): (o: Outcome)
    requires Valid(s) && AnswersAll(c, s, events)
    decreases |events|
  {
    if events == [] then Outcome(s, [])
    else
      var o := Run(c, Step(c, s, events[0]), events[1..]);
      Outcome(o.state, Emitted(s, events[0]) + o.sent)
  }

  ghost predicate Reached(c: Config, s0: State, events: seq<Event>, k: nat, s: State, sent: seq<Packet>) {
    && Valid(s0) && AnswersAll(c, s0, events)
    && k <= |events|
    && Valid(s) && AnswersAll(c, s, events[k..])
    && var o := Run(c, s0, events); var t := Run(c, s, events[k..]);
       o.state == t.state && o.sent == sent + t.sent
  }

  lemma Follow(c: Config, s0: State, events: seq<Event>, k: nat, s: State, sent: seq<Packet>)
    requires Reached(c, s0, events, k, s, sent) && k < |events|
    ensures Answers(s, events[k])
    ensures Reached(c, s0, events, k + 1, Step(c, s, events[k]), sent + Emitted(s, events[k]))
  {
    assert events[k..][0] == events[k] && events[k..][1..] == events[k + 1..];
  }

  lemma Arrived(c: Config, s0: State, events: seq<Event>, k: nat, s: State, sent: seq<Packet>)
    requires Reached(c, s0, events, k, s, sent) && (k == |events| || s.phase.Stopped?)
    ensures Run(c, s0, events) == Outcome(s, sent)
  {
    if k < |events| {
      Follow(c, s0, events, k, s, sent);
    } else {
      assert events[k..] == [];
    }
  }

  /** From the retry point to an accepted DATA packet: send the reply that is due,
      take the early packet, or listen, acknowledging the last block in order for
      every DATA out of order, and come back here on a timeout. */
  method Await(c: Config, ghost s0: State, events: seq<Event>, from: nat, s: State, sofar: seq<Packet>)
    returns (k: nat, s': State, sent: seq<Packet>)
    requires s.phase.Replying? || s.phase.Listening?
    requires Reached(c, s0, events, from, s, sofar)
    ensures Reached(c, s0, events, k, s', sent) && from <= k
    ensures s'.phase.Publishing? || s'.phase.Stopped? || k == |events|
    ensures s'.phase.Publishing? ==> s' == s.(phase := s'.phase, reply := None, initial := None)
  {
    k, s', sent := from, s, sofar;
    while k < |events| && (s'.phase.Replying? || s'.phase.Listening?)
      invariant from <= k <= |events| && Reached(c, s0, events, k, s', sent)
      invariant s'.phase.Replying? || s'.phase.Listening? || s'.phase.Publishing? || s'.phase.Stopped?
      invariant s'.phase.Replying? || s'.phase.Listening? ==> s' == s.(phase := s'.phase)
      invariant s'.phase.Publishing? ==> s' == s.(phase := s'.phase, reply := None, initial := None)
    {
      Follow(c, s0, events, k, s', sent);
      assert sent + [] == sent;
      var e := events[k];
      k := k + 1;
      if s'.phase.Replying? {
        if e.SendFailed? {
          s' := s'.(phase := Stopped(SendError));
        } else {
          sent := sent + [s'.phase.reply];
          s' := Listen(c, s');
        }
      } else if e.RecvFailed? {
        s' := s'.(phase := Stopped(RecvError));
      } else if e.TimedOut? {
        s' := s'.(phase := Replying(if s'.reply.Some? then s'.reply.value else Ack(s'.lastAcked)));
      } else if e.packet.Error? {
        s' := s'.(phase := Stopped(PeerError));
      } else if e.packet.Data? {
        if e.packet.block == s'.block {
          s' := Accept(c, s', e.packet.block, e.packet.data);
        } else {
          sent := sent + [Ack(s'.lastReceived)];
        }
      }
    }
  }

  /** Drain the full window, finish the file if it was the last one, and send
      the window's ACK only after that. */
  method Acknowledge(c: Config, ghost s0: State, events: seq<Event>, from: nat, s: State, sofar: seq<Packet>)
    returns (k: nat, s': State, sent: seq<Packet>)
    requires s.phase.Draining? && Reached(c, s0, events, from, s, sofar)
    ensures Reached(c, s0, events, k, s', sent) && from <= k
    ensures s'.phase.Reserving? || s'.phase.Stopped? || k == |events|
    ensures s'.phase.Reserving? ==> s' == s.(phase := Reserving)
  {
    var final := s.phase.final;
    k, s', sent := from, s, sofar;
    if k == |events| { return; }
    Follow(c, s0, events, k, s', sent);
    assert sent + [] == sent;
    k := k + 1;
    if events[k - 1].DrainFailed? {
      s' := s'.(phase := Stopped(WriteError));
      return;
    }
    s' := s'.(phase := if final then Finishing else Acking(false));
    if final {
      if k == |events| { return; }
      Follow(c, s0, events, k, s', sent);
      k := k + 1;
      if events[k - 1].FinishFailed? {
        s' := s'.(phase := Stopped(WriteError));
        return;
      }
      s' := s'.(phase := Acking(true));
    }
    if k == |events| { return; }
    Follow(c, s0, events, k, s', sent);
    k := k + 1;
    if events[k - 1].SendFailed? {
      s' := s'.(phase := Stopped(SendError));
      return;
    }
    sent := sent + [Ack(s'.lastAcked)];
    s' := s'.(phase := if final then Stopped(Ok) else Reserving);
  }

  /** Reserve a slot and find out what to do before listening. */
  method Reserve(c: Config, ghost s0: State, events: seq<Event>, from: nat, s: State, sent: seq<Packet>)
    returns (k: nat, s': State)
    requires s.phase.Reserving? && from < |events| && Reached(c, s0, events, from, s, sent)
    ensures k == from + 1 && Reached(c, s0, events, k, s', sent)
    ensures s'.phase.Replying? || s'.phase.Listening? || s'.phase.Publishing? || s'.phase.Stopped?
  {
    Follow(c, s0, events, from, s, sent);
    assert sent + [] == sent;
    k := from + 1;
    if events[from].ReserveFailed? {
      return k, s.(phase := Stopped(WriteError));
    }
    s' := if s.reply.Some? then s.(phase := Replying(s.reply.value)) else Listen(c, s);
  }

  /** The block has been copied into the reserved slot: publish it and count it. */
  method Publish(c: Config, ghost s0: State, events: seq<Event>, from: nat, s: State, sent: seq<Packet>)
    returns (k: nat, s': State)
    requires s.phase.Publishing? && from < |events| && Reached(c, s0, events, from, s, sent)
    ensures k == from + 1 && Reached(c, s0, events, k, s', sent)
    ensures s'.phase.Draining? || s'.phase.Reserving? || s'.phase.Stopped?
  {
    Follow(c, s0, events, from, s, sent);
    assert sent + [] == sent;
    k := from + 1;
    if events[from].PublishFailed? {
      return k, s.(phase := Stopped(WriteError));
    }
    var size := |s.phase.data|;
    var final := size != c.blocksize;
    var inWindow := s.inWindow + 1;
    s' := s.(bytes := Add64(s.bytes, size), lastReceived := s.phase.number,
             block := NextBlock(s.block, c.rollover));
    if final || inWindow == c.windowsize {
      s' := s'.(lastAcked := s.phase.number, inWindow := 0, phase := Draining(final));
    } else {
      s' := s'.(inWindow := inWindow, phase := Reserving);
    }
  }

  /** The engine, run against a script of answers. */
  method Recv(c: Config, reply: Option<Packet>, initial: Option<Packet>, events: seq<Event>)
    returns (s: State, sent: seq<Packet>)
    requires Valid(Initial(reply, initial)) && AnswersAll(c, Initial(reply, initial), events)
    ensures Outcome(s, sent) == Run(c, Initial(reply, initial), events)
  {
    ghost var s0 := Initial(reply, initial);
    var k := 0;
    s, sent := Initial(reply, initial), [];
    assert events[0..] == events;
    while true
      invariant k <= |events| && s.phase.Reserving? && Reached(c, s0, events, k, s, sent)
      decreases |events| - k
    {
      if k == |events| { break; }
      k, s := Reserve(c, s0, events, k, s, sent);
      if s.phase.Replying? || s.phase.Listening? {
        k, s, sent := Await(c, s0, events, k, s, sent);
      }
      if k == |events| || s.phase.Stopped? { break; }

      k, s := Publish(c, s0, events, k, s, sent);
      if s.phase.Stopped? { break; }
      if s.phase.Draining? {
        k, s, sent := Acknowledge(c, s0, events, k, s, sent);
        if k == |events| || s.phase.Stopped? { break; }
      }
    }
    Arrived(c, s0, events, k, s, sent);
  }
}
