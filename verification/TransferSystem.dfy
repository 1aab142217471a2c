/** Two programs and the network between them, as one step relation: the sending
    engine on its reader ring, the receiving engine on its writer ring, and a
    network that may lose, duplicate and reorder packets.  The proofs give every
    packet on the wire the absolute index of the block it is about; the engines
    never see it. */
module TransferSystem {
  import opened Netascii
  import opened Wrappers
  import opened BlockNumber
  import opened Packets
  import S = Sender
  import R = Receiver
  import RR = ReaderRing
  import WR = WriterRing

  /** One transfer as both ends negotiated it, with the file to be sent. */
  datatype Config = Config(
    file: seq<byte>, broken: bool, convert: bool,
    blocksize: nat, window: nat, rollover: u16, resendOack: bool, maxBytes: nat,
    readSlots: nat, writeSlots: nat, threadedReader: bool, threadedWriter: bool)

  predicate ValidConfig(c: Config) {
    && c.blocksize > 0
    && 1 <= c.window <= Period(c.rollover)
    && c.maxBytes < WORD
    && RR.Startable(c.readSlots, c.window, c.blocksize)
    && WR.Startable(c.writeSlots, c.blocksize)
  }

  function SendConfig(c: Config): S.Config {
    S.Config(c.blocksize, c.window, c.rollover, c.resendOack)
  }

  function RecvConfig(c: Config): R.Config {
    R.Config(c.blocksize, c.window, c.rollover, c.maxBytes)
  }

  /** The blocks of the file as they go over the wire. */
  function All(c: Config): seq<seq<byte>>
    requires c.blocksize > 0
  {
    Blocks(Stream(c.convert, c.file), c.blocksize)
  }

  function Num(c: Config, i: nat): u16 {
    Number(i, c.rollover)
  }

  /** A packet on the wire: a DATA of block index, or an ACK of the first index blocks. */
  datatype Flight = Flight(packet: Packet, index: nat)

  datatype System = System(
    reader: RR.Ring, snd: S.State, net: set<Flight>, rcv: Option<R.State>, writer: WR.Ring,
    released: nat,                  // blocks of the windows the sender has released
    published: seq<seq<byte>>,      // blocks the receiver has accepted
    drained: nat,                   // accepted blocks known to be written and flushed
    finished: bool)                 // write_finish has succeeded

  function Start(c: Config): System
    requires ValidConfig(c)
  {
    System(RR.Start(c.readSlots, c.window, c.blocksize, Stream(c.convert, c.file), c.broken), S.Initial,
           {}, None, WR.Start(c.writeSlots, c.blocksize, c.convert), 0, [], 0, false)
  }

  datatype Action =
    | ReaderThread
    | LoadWindow
    | LoadFails
    | SenderSends(ok: bool)
    | SenderGets(ack: Flight)
    | SenderGetsOther(packet: Packet)
    | SenderTimesOut
    | SenderRecvFails
    | ReceiverStarts(reply: Option<Packet>, early: Option<Flight>)
    | Reserve
    | ReserveFails
    | ReceiverSends(ok: bool)
    | ReceiverGets(data: Flight)
    | ReceiverGetsOther(packet: Packet)
    | ReceiverTimesOut
    | ReceiverRecvFails
    | Publish
    | BeginFlush
    | EndFlush(ok: bool)
    | DrainFails
    | FinishFile
    | FinishFails(partial: Sink)
    | WriterThread
    | WriterFails(partial: Sink)

  /** The block of index i is late by whole numbering periods when block n is due: both
      carry the same number. */
  predicate Stale(c: Config, i: nat, n: nat) {
    i < n && i >= c.rollover && (n - i) % Period(c.rollover) == 0
  }

  /** A DATA may be late, but not by whole periods of the block expected. */
  ghost predicate FreshData(c: Config, s: System, f: Flight) {
    f in s.net && f.packet.Data? && !Stale(c, f.index, |s.published| + 1)
  }

  /** An ACK may be late, but not by whole periods of the window's last packet. */
  ghost predicate FreshAck(c: Config, s: System, f: Flight) {
    f in s.net && f.packet.Ack? && !Stale(c, f.index, s.released + |s.snd.window|)
  }

  predicate InPhase(s: System, p: R.Phase -> bool) {
    s.rcv.Some? && p(s.rcv.value.phase)
  }

  ghost predicate Enabled(c: Config, s: System, a: Action) {
    match a
    case ReaderThread =>
      && (c.threadedReader || (s.snd.phase.Loading? && !RR.Ready(s.reader)))
      && (RR.CanClaim(s.reader) || s.reader.thread.Filling? || s.reader.thread.Filled?)
    case LoadWindow => s.snd.phase.Loading? && RR.Ready(s.reader) && !s.reader.error
    case LoadFails => s.snd.phase.Loading? && s.reader.error
    case SenderSends(_) => s.snd.phase.Sending?
    case SenderGets(f) => s.snd.phase.Waiting? && FreshAck(c, s, f)
    case SenderGetsOther(p) => s.snd.phase.Waiting? && !p.Ack?
    case SenderTimesOut => s.snd.phase.Waiting?
    case SenderRecvFails => s.snd.phase.Waiting?
    case ReceiverStarts(reply, early) =>
      && s.rcv.None?
      && (reply.Some? ==> reply.value == Ack(0) || reply.value == Oack)
      && (early.Some? ==> FreshData(c, s, early.value) && early.value.packet.block == 1)
    case Reserve =>
      InPhase(s, (p: R.Phase) => p.Reserving?) && WR.WellFormed(s.writer) && WR.CanReserve(s.writer)
    case ReserveFails =>
      && InPhase(s, (p: R.Phase) => p.Reserving?) && WR.WellFormed(s.writer)
      && (s.writer.error || (!c.threadedWriter && s.writer.states[s.writer.tail] != WR.EMPTY))
    case ReceiverSends(_) => InPhase(s, (p: R.Phase) => p.Replying? || p.Acking?)
    case ReceiverGets(f) => InPhase(s, (p: R.Phase) => p.Listening?) && FreshData(c, s, f)
    case ReceiverGetsOther(p) => InPhase(s, (p: R.Phase) => p.Listening?) && !p.Data?
    case ReceiverTimesOut => InPhase(s, (p: R.Phase) => p.Listening?)
    case ReceiverRecvFails => InPhase(s, (p: R.Phase) => p.Listening?)
    case Publish => InPhase(s, (p: R.Phase) => p.Publishing?) && WR.WellFormed(s.writer) &&
                    WR.CanPublish(s.writer, |s.rcv.value.phase.data|)
    case BeginFlush => InPhase(s, (p: R.Phase) => p.Draining?) && !s.writer.flushing && WR.CanFlush(s.writer)
    case EndFlush(_) => s.rcv.Some? && s.rcv.value.phase.Draining? && s.writer.flushing
    case DrainFails => InPhase(s, (p: R.Phase) => p.Draining?) && !s.writer.flushing && s.writer.error
    case FinishFile => InPhase(s, (p: R.Phase) => p.Finishing?)
    case FinishFails(partial) => InPhase(s, (p: R.Phase) => p.Finishing?) && s.writer.sink.file <= partial.file
    case WriterThread =>
      && (c.threadedWriter || (InPhase(s, (p: R.Phase) => p.Draining?) && !s.writer.flushing))
      && WR.WellFormed(s.writer) && WR.WriterEnabled(s.writer)
      && (s.writer.thread.Done? ==> s.writer.count > 0)
    case WriterFails(partial) => s.writer.thread.Busy? && s.writer.sink.file <= partial.file
  }

  function SenderEvent(s: System, a: Action): S.Event
    requires a.LoadWindow? ==> RR.WellFormed(s.reader) && RR.Ready(s.reader) && !s.reader.error
  {
    match a
    case LoadWindow => S.Window(RR.Held(RR.Acquire(s.reader)), RR.Final(RR.Acquire(s.reader)))
    case LoadFails => S.WindowFailed
    case SenderSends(ok) => if ok then S.Sent else S.SendFailed
    case SenderGets(f) => S.Received(f.packet)
    case SenderGetsOther(p) => S.Received(p)
    case SenderTimesOut => S.TimedOut
    case _ => S.RecvFailed
  }

  function ReceiverEvent(a: Action): R.Event {
    match a
    case Reserve => R.Reserved
    case ReserveFails => R.ReserveFailed
    case ReceiverSends(ok) => if ok then R.Sent else R.SendFailed
    case ReceiverGets(f) => R.Received(f.packet)
    case ReceiverGetsOther(p) => R.Received(p)
    case ReceiverTimesOut => R.TimedOut
    case Publish => R.Published
    case EndFlush(ok) => if ok then R.Drained else R.DrainFailed
    case DrainFails => R.DrainFailed
    case FinishFile => R.Finished
    case FinishFails(_) => R.FinishFailed
    case _ => R.RecvFailed
  }

  predicate IsSender(a: Action) {
    a.LoadWindow? || a.LoadFails? || a.SenderSends? || a.SenderGets? || a.SenderGetsOther? ||
    a.SenderTimesOut? || a.SenderRecvFails?
  }

  /** One step of the sending engine, together with what it does to its ring, to
      the network and to the count of released blocks. */
  function SenderNext(c: Config, s: System, a: Action): System
    requires IsSender(a) && RR.WellFormed(s.reader) && S.Valid(s.snd)
    requires a.LoadWindow? ==> RR.Ready(s.reader) && !s.reader.error
    requires S.Answers(s.snd, SenderEvent(s, a))
  {
    var e := SenderEvent(s, a);
    var snd := S.Step(SendConfig(c), s.snd, e);
    var sent := S.Emitted(s.snd, e);
    if a.LoadWindow? then s.(snd := snd, reader := RR.Acquire(s.reader))
    else if sent != [] then s.(snd := snd, net := s.net + {Flight(sent[0], s.released + s.snd.phase.next + 1)})
    else if a.SenderGets? && snd.window == [] then
      s.(snd := snd, reader := RR.Release(s.reader), released := s.released + |s.snd.window|)
    else s.(snd := snd)
  }

  /** The index of the ACK a receiving engine in state r puts on the wire. */
  function AckIndex(r: R.State, published: nat): int {
    if r.phase.Listening? then published else published - r.inWindow
  }

  predicate IsReceiver(a: Action) {
    a.Reserve? || a.ReserveFails? || a.ReceiverSends? || a.ReceiverGets? || a.ReceiverGetsOther? ||
    a.ReceiverTimesOut? || a.ReceiverRecvFails? || a.Publish? || a.EndFlush? || a.DrainFails? ||
    a.FinishFile? || a.FinishFails?
  }

  function ReceiverNext(c: Config, s: System, a: Action): System
    requires IsReceiver(a) && s.rcv.Some? && R.Valid(s.rcv.value) && WR.WellFormed(s.writer)
    requires R.Answers(s.rcv.value, ReceiverEvent(a))
    requires a.Reserve? ==> WR.CanReserve(s.writer)
    requires a.Publish? ==> WR.CanPublish(s.writer, |s.rcv.value.phase.data|)
    requires a.EndFlush? ==> s.writer.flushing
    requires s.rcv.value.inWindow <= |s.published|
  {
    var r := s.rcv.value;
    var e := ReceiverEvent(a);
    var s' := s.(rcv := Some(R.Step(RecvConfig(c), r, e)));
    var sent := R.Emitted(r, e);
    match a
    case Reserve => s'.(writer := WR.Reserve(s.writer))
    case Publish =>
      s'.(writer := WR.Publish(WR.Store(s.writer, r.phase.data), |r.phase.data|),
          published := s.published + [r.phase.data])
    case EndFlush(ok) =>
      s'.(writer := WR.EndFlush(s.writer, ok), drained := if ok then |s.published| else s.drained)
    case FinishFile => s'.(writer := WR.FinishFile(s.writer), finished := true)
    case FinishFails(partial) => s'.(writer := s.writer.(error := true, sink := partial))
    case _ =>
      if sent != [] && sent[0].Ack? then
        s'.(net := s.net + {Flight(sent[0], AckIndex(r, |s.published|))})
      else s'
  }

  /** What the step functions need of their arguments. */
  predicate Basic(s: System) {
    && RR.WellFormed(s.reader) && S.Valid(s.snd) && WR.WellFormed(s.writer)
    && (s.rcv.Some? ==> R.Valid(s.rcv.value) && s.rcv.value.inWindow <= |s.published|)
  }

  /** The receiving engine after its action, and what it sends. */
  ghost function RcvNext(c: Config, s: System, a: Action): R.State
    requires Basic(s) && Enabled(c, s, a) && IsReceiver(a)
  {
    R.Step(RecvConfig(c), s.rcv.value, ReceiverEvent(a))
  }

  ghost function RcvSent(c: Config, s: System, a: Action): seq<Packet>
    requires Basic(s) && Enabled(c, s, a) && IsReceiver(a)
  {
    R.Emitted(s.rcv.value, ReceiverEvent(a))
  }

  /** The whole system after an action. */
  ghost function Next(c: Config, s: System, a: Action): System
    requires Basic(s) && Enabled(c, s, a)
  {
    if IsSender(a) then SenderNext(c, s, a)
    else if IsReceiver(a) then ReceiverNext(c, s, a)
    else
      match a
      case ReaderThread => s.(reader := RR.ThreadStep(s.reader))
      case ReceiverStarts(reply, early) =>
        s.(rcv := Some(R.Initial(reply, if early.Some? then Some(early.value.packet) else None)))
      case BeginFlush => s.(writer := WR.BeginFlush(s.writer))
      case WriterThread => s.(writer := WR.ThreadStep(s.writer))
      case WriterFails(partial) => s.(writer := WR.WriteFails(s.writer, partial))
      case _ => s
  }

  // ------------------------------------------------------------------ invariant

  ghost predicate SenderOk(c: Config, snd: S.State, released: nat)
    requires ValidConfig(c)
  {
    var all := All(c);
    && S.Valid(snd)
    && released + |snd.window| <= |all|
    && |snd.window| <= c.window
    && (forall i :: 0 <= i < |snd.window| ==> snd.window[i] == Data(Num(c, released + 1 + i), all[released + i]))
    && snd.block == Num(c, released + |snd.window| + 1)
    && snd.bytes == Bytes(all[..released]) % WORD
    && match snd.phase
       case Loading => snd.window == [] && released < |all| && released % c.window == 0
       case Stopped(Ok) => snd.window == [] && released == |all|
       case Stopped(_) => true
       case _ =>
         && released % c.window == 0
         && |snd.window| == RR.WindowSize(c.window, all, released) > 0
         && (snd.final <==> released + |snd.window| == |all|)
  }

  ghost predicate ReaderOk(c: Config, reader: RR.Ring, snd: S.State, released: nat)
    requires ValidConfig(c)
  {
    && RR.Inv(reader, All(c), released)
    && reader.window == c.window && reader.blocksize == c.blocksize && reader.broken == c.broken && !reader.stopped
    && (snd.phase.Loading? ==> reader.held == 0)
    && (snd.phase.Sending? || snd.phase.Waiting? ==> reader.held == |snd.window|)
  }

  /** What is on the wire is true: DATA of a block sent, or an ACK of blocks
      accepted; an ACK of whole windows only of blocks on disk, and an ACK of the
      last block only after write_finish. */
  ghost predicate FlightOk(c: Config, f: Flight, sent: nat, published: nat, drained: nat, finished: bool)
    requires ValidConfig(c)
  {
    var all := All(c);
    match f.packet
    case Data(b, d) => 1 <= f.index <= sent && f.index <= |all| && b == Num(c, f.index) && d == all[f.index - 1]
    case Ack(b) =>
      && f.index <= published && b == Num(c, f.index)
      && (f.index % c.window == 0 || f.index == |all| ==> f.index <= drained)
      && (f.index == |all| ==> finished)
    case _ => false
  }

  ghost predicate NetOk(c: Config, net: set<Flight>, sent: nat, published: nat, drained: nat, finished: bool)
    requires ValidConfig(c)
  {
    forall f :: f in net ==> FlightOk(c, f, sent, published, drained, finished)
  }

  ghost predicate ReceiverOk(c: Config, r: R.State, published: seq<seq<byte>>, drained: nat, finished: bool)
    requires ValidConfig(c)
  {
    var all := All(c);
    var n := |published|;
    && R.Valid(r)
    && n <= |all| && published == all[..n]
    && r.bytes == Bytes(published) <= c.maxBytes
    && r.inWindow <= n
    && r.block == Num(c, n + 1) && r.lastReceived == Num(c, n) && r.lastAcked == Num(c, n - r.inWindow)
    && (r.reply.Some? ==> published == [] && (r.reply.value == Ack(0) || r.reply.value == Oack))
    && (r.initial.Some? ==> published == [] && r.initial.value == Data(1, all[0]))
    && (r.phase.Replying? ==> r.phase.reply == Oack || r.phase.reply == Ack(Num(c, n - r.inWindow)))
    && (r.phase.Publishing? ==>
         r.reply == None && r.initial == None && n < |all| && r.phase.data == all[n] &&
         r.phase.number == Num(c, n + 1) && r.bytes + |all[n]| <= c.maxBytes)
    && match r.phase
       case Draining(final) =>
         && r.inWindow == 0 && !finished && n > 0
         && (final <==> n == |all|) && (final || n % c.window == 0)
       case Finishing => r.inWindow == 0 && !finished && n == |all| && drained == n
       case Acking(last) =>
         && r.inWindow == 0 && drained == n && (last <==> n == |all|) && (last <==> finished)
         && (last || n % c.window == 0)
       case Stopped(Ok) => finished && n == |all| && drained == n
       case Stopped(_) => true
       case _ => r.inWindow == n % c.window && n < |all| && drained == n - r.inWindow && !finished
  }

  /** The slot at tail is reserved exactly while the receiver has one to fill. */
  predicate HoldsSlot(p: R.Phase) {
    p.Replying? || p.Listening? || p.Publishing?
  }

  ghost predicate WriterOk(c: Config, w: WR.Ring, rcv: Option<R.State>, published: seq<seq<byte>>,
                           drained: nat, finished: bool)
    requires ValidConfig(c)
  {
    && WR.Inv(w, published)
    && w.slots == c.writeSlots && w.blocksize == c.blocksize && w.convert == c.convert && !w.stopped
    && (rcv.None? ==> published == [] && drained == 0 && !finished && w.states[w.tail] == WR.EMPTY)
    && (rcv.Some? && !rcv.value.phase.Stopped? ==>
         (w.states[w.tail] == WR.RESERVED <==> HoldsSlot(rcv.value.phase)))
    && (w.error ==> !WR.OwnsHead(w))
    && (w.flushing ==> rcv.Some? && rcv.value.phase.Draining? && w.count == 0 && !w.error)
    && (rcv.Some? && (rcv.value.phase.Finishing? || rcv.value.phase.Acking?) ==> w.count == 0 && !w.error)
    && (!finished ==> WR.FileIs(w, published) && drained <= WR.Appended(w, |published|))
    && (finished ==> w.count == 0 && w.states[w.tail] != WR.RESERVED && w.sink == Sink(c.file, false))
  }

  ghost predicate Linked(c: Config, s: System)
    requires ValidConfig(c)
  {
    && s.released <= s.drained <= |s.published| <= s.released + |s.snd.window|
    && (s.released == |All(c)| ==> s.finished)
    && (s.finished ==> |s.published| == |All(c)|)
  }

  /** A block that the receiver has in hand is one the sender has sent. */
  predicate InHandSent(s: System) {
    s.rcv.Some? && (s.rcv.value.phase.Publishing? || s.rcv.value.initial.Some?) ==>
      |s.published| < s.released + |s.snd.window|
  }

  /** Without a writer thread the slots in use are the blocks of the current window. */
  ghost predicate Unthreaded(c: Config, w: WR.Ring, rcv: Option<R.State>) {
    !c.threadedWriter ==>
      && (w.error ==> !WR.OwnsHead(w))
      && (!(rcv.Some? && rcv.value.phase.Draining?) ==> !WR.OwnsHead(w))
      && (rcv.None? ==> w.count == 0)
      && (rcv.Some? && !rcv.value.phase.Draining? && !rcv.value.phase.Stopped? ==> w.count == rcv.value.inWindow)
  }

  ghost predicate Inv(c: Config, s: System)
    requires ValidConfig(c)
  {
    && Basic(s)
    && SenderOk(c, s.snd, s.released)
    && ReaderOk(c, s.reader, s.snd, s.released)
    && NetOk(c, s.net, s.released + |s.snd.window|, |s.published|, s.drained, s.finished)
    && (s.rcv.Some? ==> ReceiverOk(c, s.rcv.value, s.published, s.drained, s.finished))
    && WriterOk(c, s.writer, s.rcv, s.published, s.drained, s.finished)
    && Linked(c, s)
    && InHandSent(s)
    && Unthreaded(c, s.writer, s.rcv)
  }
}
