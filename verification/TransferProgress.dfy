/** The system never gets stuck, and how the receiving side comes to rest, a window is
    sent again, and a network delivers it in order, as paths of steps. */
module TransferProgress {
  import opened Netascii
  import opened Wrappers
  import opened BlockNumber
  import opened Modular
  import opened Packets
  import opened TransferSystem
  import opened TransferSafety
  import S = Sender
  import R = Receiver
  import RR = ReaderRing
  import WR = WriterRing

  /** Without a writer thread the ring must hold a window, as both programs arrange. */
  predicate RoomyWriter(c: Config) {
    c.threadedWriter || c.writeSlots >= c.window
  }

  /** The unthreaded ring never refuses a slot to the receiving engine. */
  lemma UnthreadedReserveSucceeds(c: Config, s: System)
    requires ValidConfig(c) && Inv(c, s) && !c.threadedWriter && c.writeSlots >= c.window
    requires s.rcv.Some? && s.rcv.value.phase.Reserving? && !s.writer.error
    ensures WR.CanReserve(s.writer)
  {
    hide RR.Inv, NetOk, ReaderOk, SenderOk, Blocks, Number, Written, WR.FileIs, Bytes;
    WR.SlotFree(s.writer, s.published);
  }

  lemma SenderNeverStuck(c: Config, s: System)
    requires ValidConfig(c) && Inv(c, s) && s.snd.phase.Loading?
    ensures Enabled(c, s, LoadWindow) || Enabled(c, s, LoadFails) || Enabled(c, s, ReaderThread)
  {
    hide NetOk, SenderOk, ReceiverOk, WriterOk, Blocks, Number, Written, RR.Inv, WR.Inv, Linked, Unthreaded;
    if !RR.Ready(s.reader) {
      RR.ReaderNeverStuck(s.reader, All(c), s.released);
    }
  }

  lemma ReserveNeverStuck(c: Config, s: System)
    requires ValidConfig(c) && Inv(c, s) && RoomyWriter(c) && s.rcv.Some? && s.rcv.value.phase.Reserving?
    ensures Enabled(c, s, Reserve) || Enabled(c, s, ReserveFails) || Enabled(c, s, WriterThread)
  {
    hide NetOk, SenderOk, ReaderOk, ReceiverOk, Blocks, Number, Written, WR.FileIs, RR.Inv, WR.Inv, Linked, Unthreaded;
    if !s.writer.error {
      if c.threadedWriter {
        if !WR.CanReserve(s.writer) { WR.WriterNeverStuck(s.writer, s.published); BusyHasSlot(c, s); }
      } else {
        UnthreadedReserveSucceeds(c, s);
      }
    }
  }

  lemma DrainNeverStuck(c: Config, s: System)
    requires ValidConfig(c) && Inv(c, s) && s.rcv.Some? && s.rcv.value.phase.Draining?
    ensures || Enabled(c, s, BeginFlush) || Enabled(c, s, EndFlush(true))
            || Enabled(c, s, DrainFails) || Enabled(c, s, WriterThread)
  {
    hide NetOk, SenderOk, ReaderOk, ReceiverOk, Blocks, Number, Written, WR.FileIs, RR.Inv, WR.Inv, Linked, Unthreaded;
    if !s.writer.error && s.writer.count > 0 {
      WR.WriterNeverStuck(s.writer, s.published);
      BusyHasSlot(c, s);
    }
  }

  lemma PublishNeverFails(c: Config, s: System)
    requires ValidConfig(c) && Inv(c, s) && s.rcv.Some? && s.rcv.value.phase.Publishing?
    ensures Enabled(c, s, Publish)
  {
    hide NetOk, SenderOk, ReaderOk, Blocks, Number, Written, WR.FileIs, RR.Inv, WR.Inv, Linked, Unthreaded, Bytes;
    BlockFits(c, |s.published|);
  }

  /** Deadlock freedom: as long as an engine runs, its program can take a step that
      waits for nothing but the network. */
  lemma NeverStuck(c: Config, s: System)
    requires ValidConfig(c) && Inv(c, s) && RoomyWriter(c)
    ensures s.snd.phase.Loading? ==>
      Enabled(c, s, LoadWindow) || Enabled(c, s, LoadFails) || Enabled(c, s, ReaderThread)
    ensures s.rcv.Some? && s.rcv.value.phase.Reserving? ==>
      Enabled(c, s, Reserve) || Enabled(c, s, ReserveFails) || Enabled(c, s, WriterThread)
    ensures s.rcv.Some? && s.rcv.value.phase.Draining? ==>
      || Enabled(c, s, BeginFlush) || Enabled(c, s, EndFlush(true))
      || Enabled(c, s, DrainFails) || Enabled(c, s, WriterThread)
    ensures s.rcv.Some? && s.rcv.value.phase.Publishing? ==> Enabled(c, s, Publish)
  {
    hide Inv, Enabled;
    if s.snd.phase.Loading? { SenderNeverStuck(c, s); }
    if s.rcv.Some? {
      if s.rcv.value.phase.Reserving? { ReserveNeverStuck(c, s); }
      if s.rcv.value.phase.Draining? { DrainNeverStuck(c, s); }
      if s.rcv.value.phase.Publishing? { PublishNeverFails(c, s); }
    }
  }

  lemma BusyHasSlot(c: Config, s: System)
    requires ValidConfig(c) && Inv(c, s)
    ensures s.writer.thread.Done? ==> s.writer.count > 0
  {
    hide RR.Inv, NetOk, ReaderOk, SenderOk, ReceiverOk, Blocks, Number, Written, WR.FileIs;
  }

  // --------------------------------------------------------------------- paths

  ghost predicate Feasible(c: Config, s: System, path: seq<Action>)
    decreases |path|
  {
    path == [] || (Basic(s) && Enabled(c, s, path[0]) && Feasible(c, Next(c, s, path[0]), path[1..]))
  }

  ghost function After(c: Config, s: System, path: seq<Action>): System
    requires Feasible(c, s, path)
    decreases |path|
  {
    if path == [] then s else After(c, Next(c, s, path[0]), path[1..])
  }

  /** What a path asks of the environment: whether nothing fails and no packet is lost
      on purpose, the timeouts of the sender, and the indices of the DATA and of the
      ACKs that are delivered, in their order. */
  datatype Profile = Profile(kind: bool, timeouts: nat, data: seq<nat>, acks: seq<nat>)

  /** Nothing but the programs' own successful steps. */
  const Still := Profile(true, 0, [], [])

  predicate Kind(a: Action) {
    match a
    case ReaderThread => true
    case LoadWindow => true
    case SenderSends(ok) => ok
    case SenderGets(_) => true
    case SenderTimesOut => true
    case Reserve => true
    case ReceiverSends(ok) => ok
    case ReceiverGets(_) => true
    case Publish => true
    case BeginFlush => true
    case EndFlush(ok) => ok
    case FinishFile => true
    case WriterThread => true
    case _ => false
  }

  function Of(a: Action): Profile {
    Profile(Kind(a), if a.SenderTimesOut? then 1 else 0,
            if a.ReceiverGets? then [a.data.index] else [], if a.SenderGets? then [a.ack.index] else [])
  }

  function Join(p: Profile, q: Profile): (j: Profile)
    ensures p == Still ==> j == q
    ensures q == Still ==> j == p
  {
    Profile(p.kind && q.kind, p.timeouts + q.timeouts, p.data + q.data, p.acks + q.acks)
  }

  function ProfileOf(path: seq<Action>): Profile {
    if path == [] then Still else Join(Of(path[0]), ProfileOf(path[1..]))
  }

  lemma {:induction false} ProfileAppend(p: seq<Action>, q: seq<Action>)
    ensures ProfileOf(p + q) == Join(ProfileOf(p), ProfileOf(q))
  {
    hide Of;
    if p == [] {
      assert p + q == q;
    } else {
      assert (p + q)[0] == p[0] && (p + q)[1..] == p[1..] + q;
      ProfileAppend(p[1..], q);
      JoinAssociates(Of(p[0]), ProfileOf(p[1..]), ProfileOf(q));
    }
  }

  lemma JoinAssociates(p: Profile, q: Profile, r: Profile)
    ensures Join(Join(p, q), r) == Join(p, Join(q, r))
  {
    assert p.data + q.data + r.data == p.data + (q.data + r.data);
    assert p.acks + q.acks + r.acks == p.acks + (q.acks + r.acks);
  }

  lemma ProfileOne(a: Action)
    ensures ProfileOf([a]) == Of(a)
  {
    assert [a][1..] == [];
  }

  lemma {:induction false} FeasibleAppend(c: Config, s: System, p: seq<Action>, q: seq<Action>)
    requires Feasible(c, s, p) && Feasible(c, After(c, s, p), q)
    ensures Feasible(c, s, p + q) && After(c, s, p + q) == After(c, After(c, s, p), q)
    ensures ProfileOf(p + q) == Join(ProfileOf(p), ProfileOf(q))
    decreases |p|
  {
    hide Enabled, Next, Join, ProfileOf;
    ProfileAppend(p, q);
    if p == [] {
      assert p + q == q;
    } else {
      assert (p + q)[0] == p[0] && (p + q)[1..] == p[1..] + q;
      FeasibleAppend(c, Next(c, s, p[0]), p[1..], q);
    }
  }

  lemma FeasibleOne(c: Config, s: System, a: Action)
    requires Basic(s) && Enabled(c, s, a)
    ensures Feasible(c, s, [a]) && After(c, s, [a]) == Next(c, s, a) && ProfileOf([a]) == Of(a)
  {
    hide Enabled, Next, ProfileOf, Of;
    ProfileOne(a);
    assert [a][1..] == [];
    assert Feasible(c, Next(c, s, a), []);
  }

  lemma FeasibleCons(c: Config, s: System, a: Action, q: seq<Action>)
    requires Basic(s) && Enabled(c, s, a) && Feasible(c, Next(c, s, a), q)
    ensures Feasible(c, s, [a] + q) && After(c, s, [a] + q) == After(c, Next(c, s, a), q)
    ensures ProfileOf([a] + q) == Join(Of(a), ProfileOf(q))
  {
    hide Enabled, Next, Join, ProfileOf, Of;
    FeasibleOne(c, s, a);
    FeasibleAppend(c, s, [a], q);
  }

  /** What holds while only the receiving side moves. */
  ghost predicate SenderUntouched(s: System, s': System) {
    && s'.snd == s.snd && s'.released == s.released && s'.reader == s.reader
    && s.net <= s'.net && |s.published| <= |s'.published|
  }

  /** Nothing has gone wrong on the receiving side and the file is not too big. */
  ghost predicate Healthy(c: Config, s: System)
    requires ValidConfig(c)
  {
    && Inv(c, s) && RoomyWriter(c) && |Stream(c.convert, c.file)| <= c.maxBytes
    && !s.writer.error
    && s.rcv.Some? && (s.rcv.value.phase.Stopped? ==> s.rcv.value.phase.status == Ok)
  }

  // ------------------------------------------------------------------- settling

  function Rank(p: R.Phase): nat {
    match p
    case Draining(_) => 6
    case Finishing => 5
    case Acking(_) => 4
    case Reserving => 3
    case Replying(_) => 2
    case Publishing(_, _) => 1
    case _ => 0
  }

  predicate Settled(s: System) {
    s.rcv.Some? && (s.rcv.value.phase.Listening? || s.rcv.value.phase.Stopped?)
  }

  /** The ACK of the first n blocks is on the wire. */
  predicate AckSent(c: Config, s: System, n: nat) {
    Flight(Ack(Num(c, n)), n) in s.net
  }

  ghost predicate Boundary(c: Config, n: nat)
    requires ValidConfig(c)
  {
    n % c.window == 0 || n == |All(c)|
  }

  predicate Closing(p: R.Phase) {
    p.Draining? || p.Finishing? || p.Acking?
  }

  /** The step that a receiving side which is not listening takes next, when
      everything succeeds. */
  ghost function SettleAction(s: System): (a: Action)
    requires s.rcv.Some? && Basic(s)
    ensures Of(a) == Still
  {
    match s.rcv.value.phase
    case Reserving => if WR.CanReserve(s.writer) then Reserve else WriterThread
    case Replying(_) => ReceiverSends(true)
    case Publishing(_, _) => Publish
    case Draining(_) =>
      if s.writer.flushing then EndFlush(true) else if s.writer.count == 0 then BeginFlush else WriterThread
    case Finishing => FinishFile
    case _ => ReceiverSends(true)
  }

  lemma {:induction false} BytesPrefix(blocks: seq<seq<byte>>, n: nat)
    requires n <= |blocks|
    ensures Bytes(blocks[..n]) <= Bytes(blocks)
  {
    assert blocks == blocks[..n] + blocks[n..];
    FlattenAppend(blocks[..n], blocks[n..]);
  }

  lemma NextFits(c: Config, s: System)
    requires ValidConfig(c) && Healthy(c, s) && |s.published| < |All(c)|
    ensures s.rcv.value.bytes + |All(c)[|s.published|]| <= c.maxBytes
  {
    hide RR.Inv, WR.Inv, NetOk, ReaderOk, SenderOk, WriterOk;
    var n := |s.published|;
    FlattenBlocks(Stream(c.convert, c.file), c.blocksize);
    hide Blocks, Stream;
    PrefixSnoc(All(c), n);
    BytesSnoc(All(c)[..n], All(c)[n]);
    BytesPrefix(All(c), n + 1);
  }

  lemma SettleEnabled(c: Config, s: System)
    requires ValidConfig(c) && Healthy(c, s) && !Settled(s)
    ensures Enabled(c, s, SettleAction(s))
  {
    hide NetOk, SenderOk, ReaderOk, Blocks, Number, Written, WR.FileIs, Bytes, RR.Inv, WR.Inv;
    NeverStuck(c, s);
    BusyHasSlot(c, s);
    if s.rcv.value.phase.Reserving? && !c.threadedWriter {
      UnthreadedReserveSucceeds(c, s);
    }
    if s.rcv.value.phase.Draining? && s.writer.count > 0 {
      WR.WriterNeverStuck(s.writer, s.published);
    }
  }

  /** A block that the receiver has in hand. */
  function InHand(r: R.State): nat {
    if r.phase.Publishing? || r.initial.Some? then 1 else 0
  }

  function RingLeft(w: WR.Ring): int {
    if w.flushing then 0 else 1 + WR.StepsLeft(w)
  }

  /** The sender is not touched, nothing fails, an ACK that closes a window goes on
      the wire, and the receiving side has less to do before it listens. */
  ghost predicate Settles(c: Config, s: System, s': System)
    requires ValidConfig(c) && s.rcv.Some?
  {
    && SenderUntouched(s, s') && !s'.writer.error
    && s'.rcv.Some? && (s'.rcv.value.phase.Stopped? ==> s'.rcv.value.phase.status == Ok)
    && (s.rcv.value.phase.Acking? ==> AckSent(c, s', |s.published|))
    && |s'.published| <= |s.published| + 1
    && |s'.published| + InHand(s'.rcv.value) <= |s.published| + InHand(s.rcv.value)
    && (|s'.published| == |s.published| + 1 && Boundary(c, |s'.published|) ==> Closing(s'.rcv.value.phase))
    && (|s'.published| == |s.published| ==>
         && s'.published == s.published
         && (Closing(s.rcv.value.phase) ==> Closing(s'.rcv.value.phase) || s.rcv.value.phase.Acking?)
         && (|| Rank(s'.rcv.value.phase) < Rank(s.rcv.value.phase)
             || (s'.rcv.value.phase == s.rcv.value.phase && RingLeft(s.writer) > RingLeft(s'.writer) >= 0)))
  }

  lemma SettleWriter(c: Config, s: System)
    requires ValidConfig(c) && Healthy(c, s) && !Settled(s) && Enabled(c, s, SettleAction(s))
    requires SettleAction(s).WriterThread? || SettleAction(s).BeginFlush?
    ensures Settles(c, s, Next(c, s, SettleAction(s)))
  {
    hide NetOk, SenderOk, ReaderOk, ReceiverOk, Blocks, Written, RR.Inv, WR.Inv, WR.FileIs;
    if SettleAction(s).WriterThread? {
      WR.ThreadStepInv(s.writer, s.published);
      WR.ThreadStepTail(s.writer, s.published);
    } else {
      WR.FileNeverShared(s.writer, s.published);
    }
  }

  lemma SettleReserve(c: Config, s: System)
    requires ValidConfig(c) && Healthy(c, s) && Enabled(c, s, SettleAction(s))
    requires s.rcv.value.phase.Replying? || (s.rcv.value.phase.Reserving? && SettleAction(s).Reserve?)
    ensures Settles(c, s, Next(c, s, SettleAction(s)))
  {
    hide NetOk, SenderOk, ReaderOk, WriterOk, Blocks, RR.Inv, WR.Inv, Number, Unthreaded;
    NextFits(c, s);
    hide Bytes;
    BlockFits(c, |s.published|);
    assert Sub64(c.maxBytes, s.rcv.value.bytes) == c.maxBytes - s.rcv.value.bytes;
  }

  lemma SettlePublish(c: Config, s: System)
    requires ValidConfig(c) && Healthy(c, s) && Enabled(c, s, Publish)
    ensures Settles(c, s, Next(c, s, Publish))
  {
    hide NetOk, SenderOk, ReaderOk, WriterOk, RR.Inv, WR.Inv, Number, Unthreaded, Bytes;
    var n := |s.published|;
    assert |All(c)[n]| == c.blocksize <==> n + 1 < |All(c)|;
    hide Blocks;
    ModSucc(n, c.window);
  }

  lemma SettleClosing(c: Config, s: System)
    requires ValidConfig(c) && Healthy(c, s) && Enabled(c, s, SettleAction(s)) && Closing(s.rcv.value.phase)
    requires !SettleAction(s).WriterThread? && !SettleAction(s).BeginFlush?
    ensures Settles(c, s, Next(c, s, SettleAction(s)))
  {
    hide NetOk, SenderOk, ReaderOk, WriterOk, Blocks, RR.Inv, WR.Inv, Number, Unthreaded, Finish, Bytes;
  }

  lemma SettleStep(c: Config, s: System)
    requires ValidConfig(c) && Healthy(c, s) && !Settled(s)
    ensures Enabled(c, s, SettleAction(s))
    ensures var s' := Next(c, s, SettleAction(s));
      Settles(c, s, s') && Healthy(c, s') && |s'.published| <= |All(c)|
  {
    SettleEnabled(c, s);
    hide Enabled, Next, Settles;
    var a := SettleAction(s);
    StepInv(c, s, a);
    if a.WriterThread? || a.BeginFlush? { SettleWriter(c, s); }
    else if a.Publish? { SettlePublish(c, s); }
    else if Closing(s.rcv.value.phase) { SettleClosing(c, s); }
    else { SettleReserve(c, s); }
    SettledHealthy(c, s, Next(c, s, a));
  }

  lemma SettledHealthy(c: Config, s: System, s': System)
    requires ValidConfig(c) && Healthy(c, s) && Settles(c, s, s') && Inv(c, s')
    ensures Healthy(c, s') && |s'.published| <= |All(c)|
  {
    hide NetOk, SenderOk, ReaderOk, ReceiverOk, WriterOk, Blocks, RR.Inv, WR.Inv, Unthreaded;
    assert |s'.published| <= s'.released + |s'.snd.window|;
    SentWithinFile(c, s');
  }

  lemma SentWithinFile(c: Config, s: System)
    requires ValidConfig(c) && Inv(c, s)
    ensures |s.published| <= s.released + |s.snd.window| <= |All(c)|
  {
    hide NetOk, ReaderOk, ReceiverOk, WriterOk, Blocks, RR.Inv, WR.Inv, Unthreaded;
  }

  /** What settling promises from s to the settled state s'. */
  ghost predicate SettledFrom(c: Config, s: System, s': System)
    requires ValidConfig(c) && s.rcv.Some?
  {
    && Healthy(c, s') && Settled(s') && SenderUntouched(s, s')
    && |s'.published| <= |All(c)|
    && |s'.published| + InHand(s'.rcv.value) <= |s.published| + InHand(s.rcv.value)
    && (|s'.published| > |s.published| && Boundary(c, |s'.published|) ==> AckSent(c, s', |s'.published|))
    && (Closing(s.rcv.value.phase) && |s'.published| == |s.published| ==> AckSent(c, s', |s.published|))
  }

  lemma SettleChain(c: Config, s: System, s1: System, s2: System)
    requires ValidConfig(c) && s.rcv.Some? && Settles(c, s, s1) && SettledFrom(c, s1, s2)
    ensures SettledFrom(c, s, s2)
  {
    hide Healthy, Boundary, All;
  }

  /** From any healthy state the receiving side gets back to listening (or is done)
      by itself; if it closed a window on the way, the ACK of it is on the wire. */
  lemma {:induction false} Settle(c: Config, s: System) returns (path: seq<Action>)
    requires ValidConfig(c) && Healthy(c, s) && |s.published| <= |All(c)|
    ensures Feasible(c, s, path) && SettledFrom(c, s, After(c, s, path)) && ProfileOf(path) == Still
    decreases |All(c)| - |s.published|, Rank(s.rcv.value.phase), RingLeft(s.writer)
  {
    hide All;
    if Settled(s) {
      path := [];
      assert Feasible(c, s, path);
    } else {
      SettleStep(c, s);
      hide Enabled, Next, Inv, SettleAction, RingLeft, Settled, Basic, SettledFrom, Boundary, Of, Join;
      var a := SettleAction(s);
      var s1 := Next(c, s, a);
      var rest := Settle(c, s1);
      FeasibleCons(c, s, a, rest);
      path := [a] + rest;
      SettleChain(c, s, s1, After(c, s1, rest));
    }
  }

  // ------------------------------------------------------------- retransmission

  function WindowFlight(s: System, i: nat): Flight
    requires i < |s.snd.window|
  {
    Flight(s.snd.window[i], s.released + i + 1)
  }

  /** The window is on the wire from packet 0 up to packet n. */
  ghost predicate OnWire(s: System, n: nat)
    requires n <= |s.snd.window|
  {
    forall i :: 0 <= i < n ==> WindowFlight(s, i) in s.net
  }

  /** Only the sender's phase and the network have changed. */
  ghost predicate SenderSent(s: System, s': System) {
    s' == s.(snd := s.snd.(phase := s'.snd.phase), net := s'.net) && s.net <= s'.net
  }

  /** The sender transmits the rest of its window. */
  lemma {:induction false} SendAll(c: Config, s: System) returns (path: seq<Action>)
    requires ValidConfig(c) && Inv(c, s) && s.snd.phase.Sending?
    ensures Feasible(c, s, path) && ProfileOf(path) == Still
    ensures var s' := After(c, s, path);
      && Inv(c, s') && SenderSent(s, s') && s'.snd.phase.Waiting?
      && (s.snd.phase.next <= |s.snd.window| && OnWire(s, s.snd.phase.next) ==> OnWire(s', |s.snd.window|))
    decreases |s.snd.window| - s.snd.phase.next
  {
    hide Inv, Next, Enabled, Join, OnWire, Basic, After, Feasible, ProfileOf;
    var a := SenderSends(true);
    SendOne(c, s);
    SendKeeps(c, s, true);
    var s1 := Next(c, s, a);
    if s1.snd.phase.Waiting? {
      path := [a];
      FeasibleOne(c, s, a);
    } else {
      var rest := SendAll(c, s1);
      FeasibleCons(c, s, a, rest);
      path := [a] + rest;
    }
  }

  lemma SendOne(c: Config, s: System)
    requires ValidConfig(c) && Inv(c, s) && s.snd.phase.Sending?
    ensures Basic(s) && Enabled(c, s, SenderSends(true)) && s.snd.phase.next < |s.snd.window|
    ensures var s1 := Next(c, s, SenderSends(true)); var n := s.snd.phase.next;
      && SenderSent(s, s1) && (OnWire(s, n) ==> OnWire(s1, n + 1))
      && s1.snd.phase == if n + 1 < |s.snd.window| then S.Sending(n + 1) else S.Waiting
  {
    hide NetOk, ReaderOk, ReceiverOk, WriterOk, RR.Inv, WR.Inv, Unthreaded, All, Number, OnWire, Linked, InHandSent;
    var n := s.snd.phase.next;
    if n + 1 < |s.snd.window| {
      BlockFits(c, s.released + n + 1);
      assert s.snd.window[n + 1].data == All(c)[s.released + n + 1];
    }
    var s1 := Next(c, s, SenderSends(true));
    if OnWire(s, n) {
      OnWireAdd(s, n, s1);
    }
  }

  lemma OnWireAdd(s: System, n: nat, s1: System)
    requires n < |s.snd.window| && OnWire(s, n)
    requires s1.snd.window == s.snd.window && s1.released == s.released
    requires s1.net == s.net + {WindowFlight(s, n)}
    ensures OnWire(s1, n + 1)
  {
    forall i | 0 <= i < n + 1 ensures WindowFlight(s1, i) in s1.net {
      if i < n { assert WindowFlight(s, i) in s.net; }
    }
  }

  lemma TimeOut(c: Config, s: System)
    requires ValidConfig(c) && Inv(c, s) && s.snd.phase.Waiting?
    ensures Basic(s) && Enabled(c, s, SenderTimesOut)
    ensures var s1 := Next(c, s, SenderTimesOut);
      Inv(c, s1) && SenderSent(s, s1) && s1.snd.phase == S.Sending(0)
  {
    hide NetOk, ReaderOk, ReceiverOk, WriterOk, RR.Inv, WR.Inv, Unthreaded, All, Num, Linked, InHandSent, Bytes, Stale;
    GetKeeps(c, s, SenderTimesOut);
    BlockFits(c, s.released);
    assert s.snd.window[0].data == All(c)[s.released];
  }

  // ------------------------------------------------------------------- delivery

  /** Waiting for the ACK of a window that is on the wire. */
  ghost predicate Delivering(c: Config, s: System)
    requires ValidConfig(c)
  {
    && Healthy(c, s) && s.snd.phase.Waiting? && Settled(s) && OnWire(s, |s.snd.window|)
    && c.window < Period(c.rollover)
  }

  function WindowEnd(s: System): nat {
    s.released + |s.snd.window|
  }

  lemma WindowFacts(c: Config, s: System)
    requires ValidConfig(c) && Inv(c, s) && s.snd.phase.Waiting?
    ensures |s.snd.window| > 0 && |s.snd.window| <= c.window
    ensures Boundary(c, WindowEnd(s)) && WindowEnd(s) <= |All(c)|
    ensures s.released <= |s.published| <= WindowEnd(s)
    ensures s.snd.window[|s.snd.window| - 1].block == Num(c, WindowEnd(s))
    ensures s.rcv.Some? && s.rcv.value.phase == R.Stopped(Ok) ==> |s.published| == WindowEnd(s) == |All(c)|
  {
    hide NetOk, ReaderOk, WriterOk, RR.Inv, WR.Inv, Unthreaded, Blocks, Number;
    if !s.snd.final { WindowAligned(s.released, c.window); }
  }

  /** A DATA of the window delivered to a listening receiver that has everything
      before it: taken if it is new, answered with an ACK if it is not. */
  lemma DeliverOne(c: Config, s: System, i: nat)
    requires ValidConfig(c) && Delivering(c, s) && i < |s.snd.window|
    requires s.rcv.value.phase.Listening? && s.released + i <= |s.published|
    ensures Basic(s) && Enabled(c, s, ReceiverGets(WindowFlight(s, i)))
    ensures var s1 := Next(c, s, ReceiverGets(WindowFlight(s, i)));
      && Healthy(c, s1) && SenderUntouched(s, s1) && |s1.published| == |s.published| && s1.rcv.Some?
      && (if |s.published| == s.released + i then s1.rcv.value.phase.Publishing? && InHand(s1.rcv.value) == 1
          else s1.rcv.value.phase.Listening? && AckSent(c, s1, |s.published|))
  {
    hide Inv, Enabled, Next, All, Delivering;
    var f := WindowFlight(s, i);
    assert Healthy(c, s) && s.rcv.Some? by { DeliveringHealthy(c, s); }
    DeliverFresh(c, s, i);
    QuietKeeps(c, s, ReceiverGets(f));
    if |s.published| == s.released + i {
      NextFits(c, s);
      BlockFits(c, |s.published|);
    }
    DeliverEffect(c, s, f);
  }

  lemma DeliveringHealthy(c: Config, s: System)
    requires ValidConfig(c) && Delivering(c, s)
    ensures Healthy(c, s)
  {
    hide Inv;
  }

  lemma LastReceived(c: Config, s: System)
    requires ValidConfig(c) && Inv(c, s) && s.rcv.Some?
    ensures s.rcv.value.lastReceived == Num(c, |s.published|)
  {
    hide NetOk, SenderOk, ReaderOk, WriterOk, Unthreaded, All, Number, Linked, InHandSent;
  }

  lemma DeliverEffect(c: Config, s: System, f: Flight)
    requires ValidConfig(c) && Healthy(c, s) && Basic(s) && f.packet.Data? && Enabled(c, s, ReceiverGets(f))
    requires f.packet.block == s.rcv.value.block ==>
               |f.packet.data| <= c.blocksize && s.rcv.value.bytes + |f.packet.data| <= c.maxBytes
    ensures var s1 := Next(c, s, ReceiverGets(f));
      && SenderUntouched(s, s1) && |s1.published| == |s.published| && s1.rcv.Some? && !s1.writer.error
      && (if f.packet.block == s.rcv.value.block then s1.rcv.value.phase.Publishing?
          else s1.rcv.value.phase.Listening? && AckSent(c, s1, |s.published|))
  {
    hide Inv, Number, Bytes;
    LastReceived(c, s);
    if f.packet.block == s.rcv.value.block {
      assert Sub64(c.maxBytes, s.rcv.value.bytes) == c.maxBytes - s.rcv.value.bytes;
    }
  }

  lemma DeliverFresh(c: Config, s: System, i: nat)
    requires ValidConfig(c) && Delivering(c, s) && i < |s.snd.window|
    requires s.rcv.value.phase.Listening? && s.released + i <= |s.published|
    ensures var f := WindowFlight(s, i);
      && Basic(s) && Enabled(c, s, ReceiverGets(f)) && |s.published| < |All(c)|
      && (f.packet.block == s.rcv.value.block <==> |s.published| == s.released + i)
      && f.packet.data == All(c)[s.released + i]
  {
    hide NetOk, ReaderOk, WriterOk, RR.Inv, WR.Inv, Unthreaded, All, Number, Stale;
    var f := WindowFlight(s, i);
    WindowFacts(c, s);
    assert f in s.net;
    LateByLess(c, f.index, |s.published| + 1);
    DataNumberIsIndex(c, s, f);
  }

  /** Deliver packet i of the window and let the receiving side come to rest. */
  lemma DeliverAndSettle(c: Config, s: System, i: nat) returns (path: seq<Action>)
    requires ValidConfig(c) && Delivering(c, s) && i < |s.snd.window|
    requires s.rcv.value.phase.Listening? && s.released + i <= |s.published|
    ensures Feasible(c, s, path)
    ensures var s' := After(c, s, path);
      && Delivering(c, s') && SenderUntouched(s, s') && s'.rcv.Some?
      && s.released + i + 1 <= |s'.published|
      && (|s.published| == s.released + i ==> |s'.published| == |s.published| + 1)
      && (!s'.rcv.value.phase.Listening? || i + 1 == |s.snd.window| ==> AckSent(c, s', WindowEnd(s)))
    ensures ProfileOf(path) == Profile(true, 0, [s.released + i + 1], [])
  {
    hide Enabled, Next, Inv, Basic, Join, Delivering, Healthy, After, Feasible, ProfileOf, SettledFrom,
      Settled, AckSent, InHand;
    DeliverOne(c, s, i);
    var a := ReceiverGets(WindowFlight(s, i));
    var s1 := Next(c, s, a);
    var rest := SettlePublished(c, s1);
    FeasibleCons(c, s, a, rest);
    path := [a] + rest;
    var s' := After(c, s1, rest);
    DeliverChain(c, s, i, s1, s');
  }

  lemma DeliverChain(c: Config, s: System, i: nat, s1: System, s': System)
    requires ValidConfig(c) && Delivering(c, s) && i < |s.snd.window| && s.released + i <= |s.published|
    requires Healthy(c, s1) && SenderUntouched(s, s1) && |s1.published| == |s.published|
    requires if |s.published| == s.released + i then s1.rcv.value.phase.Publishing? && InHand(s1.rcv.value) == 1
             else s1.rcv.value.phase.Listening? && AckSent(c, s1, |s.published|)
    requires SettledFrom(c, s1, s')
    requires s1.rcv.value.phase.Publishing? ==> |s'.published| > |s1.published|
    requires Settled(s1) ==> s' == s1
    ensures Delivering(c, s') && SenderUntouched(s, s') && s'.rcv.Some?
    ensures s.released + i + 1 <= |s'.published|
    ensures |s.published| == s.released + i ==> |s'.published| == |s.published| + 1
    ensures !s'.rcv.value.phase.Listening? || i + 1 == |s.snd.window| ==> AckSent(c, s', WindowEnd(s))
  {
    hide Inv, All, Boundary, Num;
    WindowFacts(c, s);
    WindowFacts(c, s');
    forall k | 0 <= k < |s'.snd.window| ensures WindowFlight(s', k) in s'.net {
      assert WindowFlight(s, k) in s.net;
    }
  }

  /** Settle, when a block in hand is first published. */
  lemma SettlePublished(c: Config, s: System) returns (path: seq<Action>)
    requires ValidConfig(c) && Healthy(c, s)
    ensures Feasible(c, s, path) && SettledFrom(c, s, After(c, s, path))
    ensures s.rcv.value.phase.Publishing? ==> |After(c, s, path).published| > |s.published|
    ensures Settled(s) ==> After(c, s, path) == s
    ensures ProfileOf(path) == Still
  {
    hide Inv, All, Boundary;
    SentWithinFile(c, s);
    if Settled(s) {
      path := [];
      assert Feasible(c, s, path);
    } else if s.rcv.value.phase.Publishing? {
      path := SettleFromPublishing(c, s);
    } else {
      path := Settle(c, s);
    }
  }

  lemma SettleFromPublishing(c: Config, s: System) returns (path: seq<Action>)
    requires ValidConfig(c) && Healthy(c, s) && s.rcv.value.phase.Publishing?
    ensures Feasible(c, s, path) && SettledFrom(c, s, After(c, s, path))
    ensures |After(c, s, path).published| > |s.published|
    ensures ProfileOf(path) == Still
  {
    hide Inv, All, Boundary, Basic, Enabled, Next, Join, After, Feasible, ProfileOf, Settles, RingLeft;
    InvBasic(c, s);
    SettleStep(c, s);
    PublishGrows(c, s);
    var s1 := Next(c, s, Publish);
    var rest := Settle(c, s1);
    FeasibleCons(c, s, Publish, rest);
    path := [Publish] + rest;
    SettleChain(c, s, s1, After(c, s1, rest));
  }

  lemma PublishGrows(c: Config, s: System)
    requires Basic(s) && Enabled(c, s, Publish)
    ensures |Next(c, s, Publish).published| == |s.published| + 1
  {
  }

  /** The next n indices after from. */
  function Range(from: nat, n: nat): (r: seq<nat>)
    ensures |r| == n && forall i :: 0 <= i < n ==> r[i] == from + 1 + i
    decreases n
  {
    if n == 0 then [] else [from + 1] + Range(from + 1, n - 1)
  }

  /** A path that delivers the DATA behind index from in order, n at most, and nothing
      else. */
  predicate Delivers(path: seq<Action>, from: nat, n: nat) {
    ProfileOf(path) == Profile(true, 0, ProfileOf(path).data, []) && ProfileOf(path).data <= Range(from, n)
  }

  /** Deliver the rest of the window, from packet i on, in order. */
  lemma {:induction false} DeliverAll(c: Config, s: System, i: nat) returns (path: seq<Action>)
    requires ValidConfig(c) && Delivering(c, s) && i < |s.snd.window|
    requires s.rcv.value.phase.Listening? && s.released + i <= |s.published|
    ensures Feasible(c, s, path) && Delivers(path, s.released + i, |s.snd.window| - i)
    ensures var s' := After(c, s, path);
      Delivering(c, s') && SenderUntouched(s, s') && AckSent(c, s', WindowEnd(s))
    decreases |s.snd.window| - i
  {
    hide Inv, Delivering, After, Feasible, ProfileOf;
    path := DeliverAndSettle(c, s, i);
    var s1 := After(c, s, path);
    if s1.rcv.value.phase.Listening? && i + 1 < |s.snd.window| {
      var rest := DeliverAll(c, s1, i + 1);
      FeasibleAppend(c, s, path, rest);
      path := path + rest;
    }
  }

  /** The ACK of the window's end reaches the sender. */
  lemma DeliverAck(c: Config, s: System)
    requires ValidConfig(c) && Inv(c, s) && s.snd.phase.Waiting? && AckSent(c, s, WindowEnd(s))
    ensures var a := SenderGets(Flight(Ack(Num(c, WindowEnd(s))), WindowEnd(s)));
      && Basic(s) && Enabled(c, s, a) && Inv(c, Next(c, s, a))
      && var s' := Next(c, s, a);
      && s'.released == WindowEnd(s) && s'.rcv == s.rcv && s'.writer == s.writer && s'.published == s.published
      && s'.snd.phase == if WindowEnd(s) == |All(c)| then S.Stopped(Ok) else S.Loading
  {
    hide NetOk, ReaderOk, ReceiverOk, WriterOk, RR.Inv, WR.Inv, Unthreaded, All, Number, Bytes, Linked, InHandSent;
    var f := Flight(Ack(Num(c, WindowEnd(s))), WindowEnd(s));
    WindowFacts(c, s);
    ReleaseKeeps(c, s, f);
  }

  /** The receiving side comes to rest, listening, or done with the last ACK sent. */
  lemma Settle1(c: Config, s: System) returns (path: seq<Action>)
    requires ValidConfig(c) && Healthy(c, s) && s.snd.phase.Waiting? && !s.rcv.value.phase.Stopped?
    ensures Feasible(c, s, path) && ProfileOf(path) == Still
    ensures var s' := After(c, s, path);
      && Healthy(c, s') && Settled(s') && SenderUntouched(s, s')
      && (s'.rcv.value.phase.Stopped? ==> AckSent(c, s', WindowEnd(s)))
  {
    hide Inv, All, Boundary, Num, After, Feasible, ProfileOf;
    path := SettlePublished(c, s);
    var s' := After(c, s, path);
    WindowFacts(c, s');
    if s'.rcv.value.phase.Stopped? && |s'.published| == |s.published| {
      FullIsClosing(c, s);
    }
  }

  /** A running receiver that has the last block is closing the last window. */
  lemma FullIsClosing(c: Config, s: System)
    requires ValidConfig(c) && Inv(c, s) && s.rcv.Some? && !s.rcv.value.phase.Stopped?
    ensures |s.published| == |All(c)| ==> Closing(s.rcv.value.phase)
  {
    hide NetOk, SenderOk, ReaderOk, WriterOk, RR.Inv, WR.Inv, Unthreaded, All, Number;
  }
}
