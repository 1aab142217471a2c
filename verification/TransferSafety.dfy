/** Every step of the system keeps the invariant, and what follows from it: a
    sender's OK means that the receiver's file is the sender's file. */
module TransferSafety {
  import opened Netascii
  import opened Wrappers
  import opened BlockNumber
  import opened Modular
  import opened Packets
  import opened TransferSystem
  import S = Sender
  import R = Receiver
  import RR = ReaderRing
  import WR = WriterRing

  // -------------------------------------------------------------- small facts

  lemma {:induction false} AdvancedNumber(i: nat, n: nat, rollover: u16)
    ensures S.Advanced(Number(i, rollover), n, rollover) == Number(i + n, rollover)
    decreases n
  {
    if n > 0 {
      NextIsNext(i, rollover);
      AdvancedNumber(i + 1, n - 1, rollover);
    }
  }

  lemma {:induction false} StampedNumbers(payloads: seq<seq<byte>>, i: nat, rollover: u16, k: nat)
    requires k < |payloads|
    ensures S.Stamped(payloads, Number(i, rollover), rollover)[k] == Data(Number(i + k, rollover), payloads[k])
  {
    if k > 0 {
      NextIsNext(i, rollover);
      StampedNumbers(payloads[1..], i + 1, rollover, k - 1);
    }
  }

  lemma {:induction false} WindowBytesAre(w: seq<Packet>, blocks: seq<seq<byte>>)
    requires S.AllData(w) && |w| == |blocks| && forall i :: 0 <= i < |w| ==> w[i].data == blocks[i]
    ensures S.WindowBytes(w) == Bytes(blocks)
  {
    if w != [] {
      WindowBytesAre(w[1..], blocks[1..]);
    }
  }

  lemma BytesSnoc(blocks: seq<seq<byte>>, x: seq<byte>)
    ensures Bytes(blocks + [x]) == Bytes(blocks) + |x|
  {
    FlattenSnoc(blocks, x);
  }

  lemma WindowAligned(released: nat, w: nat)
    requires w > 0 && released % w == 0
    ensures (released + w) % w == 0
  {
    assert released == (released / w) * w;
    ModUnique(released + w, w, released / w + 1, 0);
  }

  lemma PrefixSnoc<T>(all: seq<T>, n: nat)
    requires n < |all|
    ensures all[..n] + [all[n]] == all[..n + 1]
  {
  }

  // --------------------------------------------------------------- the network

  /** A flight stays true while more is sent, accepted, drained and finished. */
  lemma NetGrows(c: Config, net: set<Flight>, sent: nat, n: nat, drained: nat, finished: bool,
                 sent': nat, n': nat, drained': nat, finished': bool)
    requires ValidConfig(c) && NetOk(c, net, sent, n, drained, finished)
    requires sent <= sent' && n <= n' && drained <= drained' && (finished ==> finished')
    ensures NetOk(c, net, sent', n', drained', finished')
  {
    forall f | f in net ensures FlightOk(c, f, sent', n', drained', finished') {
      assert FlightOk(c, f, sent, n, drained, finished);
    }
  }

  lemma NetAdd(c: Config, net: set<Flight>, f: Flight, sent: nat, n: nat, drained: nat, finished: bool)
    requires ValidConfig(c) && NetOk(c, net, sent, n, drained, finished)
    requires FlightOk(c, f, sent, n, drained, finished)
    ensures NetOk(c, net + {f}, sent, n, drained, finished)
  {
  }

  lemma NumberMatches(c: Config, i: nat, n: nat)
    requires i < n + Period(c.rollover)
    ensures Num(c, i) == Num(c, n) <==> i == n || Stale(c, i, n)
  {
    hide Number;
    if i < n {
      NumbersCollide(i, n, c.rollover);
    } else if i > n {
      SameNumberSameIndex(i, n, c.rollover);
    }
  }

  /** Less than one period late is not stale. */
  lemma LateByLess(c: Config, i: nat, n: nat)
    requires n < i + Period(c.rollover)
    ensures !Stale(c, i, n)
  {
    if i < n {
      ModUnique(n - i, Period(c.rollover), 0, n - i);
    }
  }

  /** Any DATA on the wire, however late, carries the expected number if and only if it
      is the next block or late by whole periods. */
  lemma DataNumber(c: Config, s: System, f: Flight)
    requires ValidConfig(c) && Inv(c, s) && f in s.net && f.packet.Data?
    ensures f.packet.block == Num(c, |s.published| + 1) <==>
      f.index == |s.published| + 1 || Stale(c, f.index, |s.published| + 1)
    ensures 1 <= f.index <= s.released + |s.snd.window| <= |All(c)|
    ensures f.packet == Data(Num(c, f.index), All(c)[f.index - 1])
  {
    hide RR.Inv, WR.Inv, ReceiverOk, WriterOk, ReaderOk, Blocks, Number, Stale, Unthreaded;
    assert FlightOk(c, f, s.released + |s.snd.window|, |s.published|, s.drained, s.finished);
    NumberMatches(c, f.index, |s.published| + 1);
  }

  /** A fresh DATA carries the expected number exactly when it is the next block. */
  lemma DataNumberIsIndex(c: Config, s: System, f: Flight)
    requires ValidConfig(c) && Inv(c, s) && FreshData(c, s, f)
    ensures f.packet.block == Num(c, |s.published| + 1) <==> f.index == |s.published| + 1
    ensures 1 <= f.index <= s.released + |s.snd.window| && f.packet.data == All(c)[f.index - 1]
  {
    hide Inv, Stale, Num, All;
    DataNumber(c, s, f);
  }

  /** Any ACK on the wire, however late, carries the number of packet i of the window if
      and only if it acknowledges everything up to that packet or is late by whole
      periods of it. */
  lemma AckNumber(c: Config, s: System, f: Flight, i: nat)
    requires ValidConfig(c) && Inv(c, s) && f in s.net && f.packet.Ack? && i < |s.snd.window|
    ensures f.packet.block == s.snd.window[i].block <==>
      f.index == s.released + i + 1 || Stale(c, f.index, s.released + i + 1)
    ensures f.index <= |s.published|
  {
    hide RR.Inv, WR.Inv, ReceiverOk, WriterOk, ReaderOk, Blocks, Number, Stale, Unthreaded;
    assert FlightOk(c, f, s.released + |s.snd.window|, |s.published|, s.drained, s.finished);
    NumberMatches(c, f.index, s.released + i + 1);
  }

  /** One that is not carries it exactly when it acknowledges everything up to there. */
  lemma AckNumberIsIndex(c: Config, s: System, f: Flight, i: nat)
    requires ValidConfig(c) && Inv(c, s) && f in s.net && f.packet.Ack? && i < |s.snd.window|
    requires !Stale(c, f.index, s.released + i + 1)
    ensures f.packet.block == s.snd.window[i].block <==> f.index == s.released + i + 1
    ensures f.index <= |s.published|
  {
    hide Inv, Stale;
    AckNumber(c, s, f, i);
  }

  // --------------------------------------------------------------- the sender

  lemma BlockFits(c: Config, i: nat)
    requires ValidConfig(c) && i < |All(c)|
    ensures |All(c)[i]| <= c.blocksize
  {
  }

  lemma StampedBlocks(c: Config, released: nat, n: nat)
    requires ValidConfig(c) && released + n <= |All(c)|
    ensures var w := S.Stamped(All(c)[released..released + n], Num(c, released + 1), c.rollover);
      && |w| == n
      && (forall i :: 0 <= i < n ==> w[i] == Data(Num(c, released + 1 + i), All(c)[released + i]))
    ensures S.Advanced(Num(c, released + 1), n, c.rollover) == Num(c, released + n + 1)
  {
    hide Blocks, Number, All, S.Advanced;
    var payloads := All(c)[released..released + n];
    var w := S.Stamped(payloads, Num(c, released + 1), c.rollover);
    AdvancedNumber(released + 1, n, c.rollover);
    forall i | 0 <= i < n ensures w[i] == Data(Num(c, released + 1 + i), All(c)[released + i]) {
      StampedNumbers(payloads, released + 1, c.rollover, i);
    }
  }

  /** The engine given the window that the ring hands out. */
  lemma LoadSender(c: Config, snd: S.State, released: nat, n: nat, last: bool)
    requires ValidConfig(c) && SenderOk(c, snd, released) && snd.phase.Loading?
    requires n == RR.WindowSize(c.window, All(c), released) && (last <==> released + n == |All(c)|)
    ensures var snd' := S.Step(SendConfig(c), snd, S.Window(All(c)[released..released + n], last));
      SenderOk(c, snd', released) && snd'.phase.Sending? && |snd'.window| == n
  {
    hide Blocks, Number, All, S.Stamped, S.Advanced;
    StampedBlocks(c, released, n);
    BlockFits(c, released);
    var payloads := All(c)[released..released + n];
    var w := S.Stamped(payloads, Num(c, released + 1), c.rollover);
    assert w[0] == Data(Num(c, released + 1 + 0), All(c)[released + 0]);
    var snd' := S.Step(SendConfig(c), snd, S.Window(payloads, last));
    assert snd' == S.State(S.Sending(0), Num(c, released + n + 1), w, last, snd.bytes);
  }

  lemma LoadKeeps(c: Config, s: System)
    requires ValidConfig(c) && Inv(c, s) && Enabled(c, s, LoadWindow)
    ensures Inv(c, Next(c, s, LoadWindow))
  {
    hide RR.Inv, WR.Inv, NetOk, ReceiverOk, WriterOk, All, Unthreaded, S.Step, RR.Held, RR.Final;
    var n := RR.WindowSize(c.window, All(c), s.released);
    RR.AcquiredWindow(s.reader, All(c), s.released);
    RR.AcquireInv(s.reader, All(c), s.released);
    LoadSender(c, s.snd, s.released, n, RR.Final(RR.Acquire(s.reader)));
    NetGrows(c, s.net, s.released, |s.published|, s.drained, s.finished,
             s.released + n, |s.published|, s.drained, s.finished);
    LoadAssembled(c, s, n);
  }

  lemma LoadAssembled(c: Config, s: System, n: nat)
    requires ValidConfig(c) && Inv(c, s) && Enabled(c, s, LoadWindow)
    requires RR.Inv(RR.Acquire(s.reader), All(c), s.released)
    requires s.released <= |All(c)| && s.snd.window == []
    requires n == RR.WindowSize(c.window, All(c), s.released) == RR.Acquire(s.reader).held
    requires RR.Held(RR.Acquire(s.reader)) == All(c)[s.released..s.released + n]
    requires var e := S.Window(All(c)[s.released..s.released + n], RR.Final(RR.Acquire(s.reader)));
      var snd' := S.Step(SendConfig(c), s.snd, e);
      SenderOk(c, snd', s.released) && snd'.phase.Sending? && |snd'.window| == n
    requires NetOk(c, s.net, s.released + n, |s.published|, s.drained, s.finished)
    ensures Inv(c, Next(c, s, LoadWindow))
  {
    hide RR.Inv, WR.Inv, NetOk, SenderOk, ReceiverOk, WriterOk, All, Unthreaded, S.Step, RR.Held, RR.Final;
    var e := S.Window(All(c)[s.released..s.released + n], RR.Final(RR.Acquire(s.reader)));
    assert SenderEvent(s, LoadWindow) == e;
    var s' := Next(c, s, LoadWindow);
    assert s' == s.(snd := S.Step(SendConfig(c), s.snd, e), reader := RR.Acquire(s.reader));
    assert s.released <= s.drained <= |s.published| <= s.released + |s.snd.window| <= s.released + n;
  }

  lemma SendKeeps(c: Config, s: System, ok: bool)
    requires ValidConfig(c) && Inv(c, s) && Enabled(c, s, SenderSends(ok))
    ensures Inv(c, Next(c, s, SenderSends(ok)))
  {
    hide RR.Inv, WR.Inv, ReceiverOk, WriterOk, All, Unthreaded, NetOk;
    var s' := Next(c, s, SenderSends(ok));
    var n := s.snd.phase.next;
    if ok {
      var f := Flight(s.snd.window[n], s.released + n + 1);
      assert s.snd.window[n] == Data(Num(c, s.released + 1 + n), All(c)[s.released + n]);
      assert FlightOk(c, f, s.released + |s.snd.window|, |s.published|, s.drained, s.finished);
      NetAdd(c, s.net, f, s.released + |s.snd.window|, |s.published|, s.drained, s.finished);
    }
    if n + 1 < |s.snd.window| {
      BlockFits(c, s.released + n + 1);
    }
  }

  /** The sender's own part of a release: the next window starts where this one
      ended, aligned, and the byte count has grown by the window. */
  lemma ReleaseSender(c: Config, snd: S.State, released: nat)
    requires ValidConfig(c) && SenderOk(c, snd, released) && snd.phase.Waiting?
    ensures SenderOk(c, S.Release(snd), released + |snd.window|)
  {
    hide Blocks, Number, Flatten, S.WindowBytes, Add64;
    var all := All(c);
    var n := |snd.window|;
    if !snd.final {
      WindowAligned(released, c.window);
    }
    var blocks := all[released..released + n];
    WindowBytesAre(snd.window, blocks);
    assert all[..released] + blocks == all[..released + n];
    FlattenAppend(all[..released], blocks);
    ModAdd(Bytes(all[..released]), S.WindowBytes(snd.window));
  }

  lemma ModAdd(a: nat, b: nat)
    ensures Add64(a % WORD, b) == (a + b) % WORD
  {
    ModAddLeft(a, b, WORD);
  }

  /** The ACK of the window's last packet: everything in it is on disk, and the
      file is complete if it was the last window. */
  lemma LastAckMeansDrained(c: Config, s: System, f: Flight)
    requires ValidConfig(c) && Inv(c, s) && Enabled(c, s, SenderGets(f))
    requires f.packet.block == s.snd.window[|s.snd.window| - 1].block
    ensures s.released + |s.snd.window| <= s.drained
    ensures s.released + |s.snd.window| == |All(c)| ==> s.finished
  {
    hide RR.Inv, WR.Inv, ReceiverOk, WriterOk, ReaderOk, All, Unthreaded, InHandSent, Number;
    var n := |s.snd.window|;
    AckNumberIsIndex(c, s, f, n - 1);
    assert FlightOk(c, f, s.released + n, |s.published|, s.drained, s.finished);
    if s.released + n < |All(c)| {
      WindowAligned(s.released, c.window);
    }
  }

  lemma ReleaseKeeps(c: Config, s: System, f: Flight)
    requires ValidConfig(c) && Inv(c, s) && Enabled(c, s, SenderGets(f))
    requires f.packet.block == s.snd.window[|s.snd.window| - 1].block
    ensures Inv(c, Next(c, s, SenderGets(f)))
    ensures Next(c, s, SenderGets(f)).released == s.released + |s.snd.window|
  {
    hide RR.Inv, WR.Inv, NetOk, ReceiverOk, WriterOk, All, Unthreaded, SenderOk, FlightOk;
    LastAckMeansDrained(c, s, f);
    ReleaseSender(c, s.snd, s.released);
    RR.ReleaseInv(s.reader, All(c), s.released);
    var s' := Next(c, s, SenderGets(f));
    assert s'.snd == S.Release(s.snd);
    assert s' == s.(snd := S.Release(s.snd), reader := RR.Release(s.reader), released := s.released + |s.snd.window|);
  }

  lemma GetKeeps(c: Config, s: System, a: Action)
    requires ValidConfig(c) && Inv(c, s) && Enabled(c, s, a)
    requires a.SenderGets? || a.SenderGetsOther? || a.SenderTimesOut? || a.SenderRecvFails? || a.LoadFails?
    ensures Inv(c, Next(c, s, a))
  {
    hide RR.Inv, WR.Inv, NetOk, ReceiverOk, WriterOk, All, Unthreaded, SenderOk, Linked;
    if a.SenderGets? && a.ack.packet.block == s.snd.window[|s.snd.window| - 1].block {
      ReleaseKeeps(c, s, a.ack);
    } else {
      var s' := Next(c, s, a);
      assert s' == s.(snd := s.snd.(phase := s'.snd.phase));
      assert !s'.snd.phase.Loading? && s'.snd.phase != S.Stopped(Ok);
      Rephased(c, s.snd, s.released, s'.snd.phase);
      assert Linked(c, s') by { RephasedLink(c, s, s'); }
    }
  }

  lemma Rephased(c: Config, snd: S.State, released: nat, p: S.Phase)
    requires ValidConfig(c) && SenderOk(c, snd, released) && (snd.phase.Waiting? || p.Stopped?)
    requires !p.Loading? && p != S.Stopped(Ok) && S.Valid(snd.(phase := p))
    ensures SenderOk(c, snd.(phase := p), released)
  {
    hide Blocks, Number, Bytes;
  }

  lemma RephasedLink(c: Config, s: System, s': System)
    requires ValidConfig(c) && Linked(c, s) && s' == s.(snd := s.snd.(phase := s'.snd.phase))
    ensures Linked(c, s')
  {
  }

  lemma ReaderKeeps(c: Config, s: System)
    requires ValidConfig(c) && Inv(c, s) && Enabled(c, s, ReaderThread)
    ensures Inv(c, Next(c, s, ReaderThread))
  {
    hide RR.Inv, WR.Inv, NetOk, SenderOk, ReceiverOk, WriterOk, All, Unthreaded;
    RR.ThreadStepInv(s.reader, All(c), s.released);
  }

  // ------------------------------------------------------------- the receiver

  lemma AcceptOk(c: Config, r: R.State, published: seq<seq<byte>>, drained: nat, number: u16, data: seq<byte>)
    requires ValidConfig(c) && ReceiverOk(c, r, published, drained, false)
    requires r.phase.Listening? || r.phase.Reserving? || r.phase.Replying?
    requires data == All(c)[|published|] && number == Num(c, |published| + 1)
    ensures ReceiverOk(c, R.Accept(RecvConfig(c), r, number, data), published, drained, false)
    ensures var p := R.Accept(RecvConfig(c), r, number, data).phase; p.Publishing? || (p.Stopped? && p.status != Ok)
  {
    hide All, Number;
    assert Sub64(c.maxBytes, r.bytes) == c.maxBytes - r.bytes;
  }

  lemma ListenOk(c: Config, r: R.State, published: seq<seq<byte>>, drained: nat)
    requires ValidConfig(c) && ReceiverOk(c, r, published, drained, false)
    requires r.phase.Reserving? || r.phase.Replying?
    ensures ReceiverOk(c, R.Listen(RecvConfig(c), r), published, drained, false)
    ensures var p := R.Listen(RecvConfig(c), r).phase; p.Listening? || p.Publishing? || (p.Stopped? && p.status != Ok)
  {
    hide All, Bytes;
    if r.initial.Some? {
      AcceptOk(c, r, published, drained, r.initial.value.block, r.initial.value.data);
    }
  }

  /** Publishing the next block: the counters follow the blocks accepted. */
  lemma PublishedOk(c: Config, r: R.State, published: seq<seq<byte>>, drained: nat)
    requires ValidConfig(c) && ReceiverOk(c, r, published, drained, false) && r.phase.Publishing?
    ensures ReceiverOk(c, R.AfterPublish(RecvConfig(c), r, r.phase.number, r.phase.data),
                       published + [r.phase.data], drained, false)
  {
    var n := |published|;
    var r' := R.AfterPublish(RecvConfig(c), r, r.phase.number, r.phase.data);
    assert |All(c)[n]| == c.blocksize <==> n + 1 < |All(c)|;
    hide All, Number, Bytes, Flatten;
    PrefixSnoc(All(c), n);
    BytesSnoc(published, r.phase.data);
    NextIsNext(n + 1, c.rollover);
    ModSucc(n, c.window);
    assert r'.bytes == Bytes(published + [r.phase.data]);
    assert |published + [r.phase.data]| == n + 1;
  }

  /** The answer brings no block and no news from the file. */
  predicate Routine(r: R.State, e: R.Event) {
    && !e.Published? && !e.Drained? && !e.Finished?
    && !(e.Received? && e.packet.Data? && e.packet.block == r.block)
  }

  lemma RoutineOk(c: Config, r: R.State, e: R.Event, published: seq<seq<byte>>, drained: nat, finished: bool)
    requires ValidConfig(c) && ReceiverOk(c, r, published, drained, finished)
    requires R.Answers(r, e) && Routine(r, e)
    ensures ReceiverOk(c, R.Step(RecvConfig(c), r, e), published, drained, finished)
  {
    assert Num(c, 0) == 0;
    hide All, Number, Bytes, R.Listen;
    if (e.Reserved? && r.reply.None?) || (e.Sent? && r.phase.Replying?) {
      ListenOk(c, r, published, drained);
    }
  }

  lemma DrainedOk(c: Config, r: R.State, published: seq<seq<byte>>, drained: nat)
    requires ValidConfig(c) && ReceiverOk(c, r, published, drained, false) && r.phase.Draining?
    ensures ReceiverOk(c, R.Step(RecvConfig(c), r, R.Drained), published, |published|, false)
  {
    hide All, Number, Bytes;
  }

  lemma FinishedOk(c: Config, r: R.State, published: seq<seq<byte>>, drained: nat)
    requires ValidConfig(c) && ReceiverOk(c, r, published, drained, false) && r.phase.Finishing?
    ensures ReceiverOk(c, R.Step(RecvConfig(c), r, R.Finished), published, drained, true)
  {
    hide All, Number, Bytes;
  }

  /** What the receiving engine puts on the wire is true. */
  lemma ReceiverFlightOk(c: Config, s: System, a: Action)
    requires ValidConfig(c) && Inv(c, s) && Enabled(c, s, a) && IsReceiver(a)
    requires RcvSent(c, s, a) != [] && RcvSent(c, s, a)[0].Ack?
    ensures s.rcv.Some? && AckIndex(s.rcv.value, |s.published|) >= 0
    ensures FlightOk(c, Flight(RcvSent(c, s, a)[0], AckIndex(s.rcv.value, |s.published|)),
                     s.released + |s.snd.window|, |s.published|, s.drained, s.finished)
  {
    hide RR.Inv, WR.Inv, NetOk, SenderOk, ReaderOk, WriterOk, All, Unthreaded, Bytes, Number, InHandSent;
    var r := s.rcv.value;
    var n := |s.published|;
    if r.phase.Listening? && r.inWindow > 0 {
      assert n % c.window != 0;
    }
    assert (n - r.inWindow) <= s.drained;
  }

  // --------------------------------------------------------------- the writer

  lemma FinishedFile(c: Config, w: WR.Ring, published: seq<seq<byte>>)
    requires ValidConfig(c) && WR.Inv(w, published) && WR.FileIs(w, published)
    requires w.count == 0 && !w.error && w.convert == c.convert && published == All(c)
    ensures WR.FinishFile(w).sink == Sink(c.file, false)
  {
    WR.DrainedFile(w, published);
    RoundTrip(c.convert, c.file, c.blocksize);
  }

  /** The receiver moves on without touching its ring. */
  lemma WriterFrame(c: Config, w: WR.Ring, r: R.State, r': R.State, published: seq<seq<byte>>,
                    drained: nat, finished: bool)
    requires ValidConfig(c) && WriterOk(c, w, Some(r), published, drained, finished) && !w.flushing
    requires r'.phase.Stopped? || HoldsSlot(r.phase) == HoldsSlot(r'.phase)
    requires r'.phase.Stopped? || !r.phase.Stopped?
    requires !r'.phase.Finishing? && !r'.phase.Acking?
    ensures WriterOk(c, w, Some(r'), published, drained, finished)
  {
    hide WR.Inv, WR.FileIs;
  }

  /** The receiver's answers from the network, from timers and from send. */
  predicate Quiet(a: Action) {
    a.ReceiverSends? || a.ReceiverGets? || a.ReceiverGetsOther? || a.ReceiverTimesOut? || a.ReceiverRecvFails? ||
    a.ReserveFails? || a.DrainFails?
  }

  lemma QuietReceiver(c: Config, s: System, a: Action)
    requires ValidConfig(c) && Inv(c, s) && Enabled(c, s, a) && Quiet(a)
    ensures ReceiverOk(c, RcvNext(c, s, a), s.published, s.drained, s.finished)
  {
    hide RR.Inv, WR.Inv, NetOk, SenderOk, ReaderOk, WriterOk, All, Unthreaded, Number, Bytes, R.Accept, Stale, Linked,
      InHandSent, ReceiverOk;
    var r := s.rcv.value;
    if a.ReceiverGets? && a.data.packet.block == r.block {
      ListeningFacts(c, s);
      DataNumberIsIndex(c, s, a.data);
      AcceptOk(c, r, s.published, s.drained, a.data.packet.block, a.data.packet.data);
    } else {
      RoutineOk(c, r, ReceiverEvent(a), s.published, s.drained, s.finished);
    }
  }

  lemma ListeningFacts(c: Config, s: System)
    requires ValidConfig(c) && Inv(c, s) && s.rcv.Some? && s.rcv.value.phase.Listening?
    ensures !s.finished && |s.published| < |All(c)| && s.rcv.value.block == Num(c, |s.published| + 1)
  {
    hide RR.Inv, WR.Inv, NetOk, SenderOk, ReaderOk, WriterOk, Blocks, Number, Bytes, Unthreaded;
  }

  lemma QuietPhases(c: Config, s: System, a: Action)
    requires ValidConfig(c) && Inv(c, s) && Enabled(c, s, a) && Quiet(a)
    ensures s.rcv.Some?
    ensures var r := s.rcv.value; var r' := RcvNext(c, s, a);
      && R.Valid(r') && r'.inWindow == r.inWindow
      && !s.writer.flushing && !r.phase.Stopped?
      && (r'.phase.Stopped? || HoldsSlot(r.phase) == HoldsSlot(r'.phase))
      && !r'.phase.Finishing? && !r'.phase.Acking? && !r'.phase.Draining?
      && (r.phase.Draining? ==> r'.phase.Stopped? && s.writer.error)
  {
    hide RR.Inv, WR.Inv, NetOk, SenderOk, ReaderOk, All, Unthreaded, Number, Bytes, WR.FileIs;
  }

  lemma QuietInHand(c: Config, s: System, a: Action)
    requires ValidConfig(c) && Inv(c, s) && Enabled(c, s, a) && Quiet(a)
    ensures InHandSent(s.(rcv := Some(RcvNext(c, s, a))))
  {
    hide RR.Inv, WR.Inv, NetOk, SenderOk, ReaderOk, WriterOk, All, Number, Bytes;
    if a.ReceiverGets? {
      DataNumberIsIndex(c, s, a.data);
    }
  }

  lemma QuietEffect(c: Config, s: System, a: Action)
    requires Basic(s) && Enabled(c, s, a) && Quiet(a)
    ensures s.rcv.Some?
    ensures var sent := RcvSent(c, s, a); var r := s.rcv.value;
      Next(c, s, a) == s.(rcv := Some(RcvNext(c, s, a)),
                          net := if sent != [] && sent[0].Ack? && AckIndex(r, |s.published|) >= 0
                                 then s.net + {Flight(sent[0], AckIndex(r, |s.published|))} else s.net)
  {
    hide R.Step, R.Emitted;
  }

  lemma QuietKeeps(c: Config, s: System, a: Action)
    requires ValidConfig(c) && Inv(c, s) && Enabled(c, s, a) && Quiet(a)
    ensures Inv(c, Next(c, s, a))
  {
    hide Enabled, Next, RcvNext, RcvSent, AckIndex, RR.Inv, WR.Inv, NetOk, SenderOk, ReaderOk, ReceiverOk,
      WriterOk, FlightOk, All, Linked;
    QuietEffect(c, s, a);
    var r := s.rcv.value;
    var r' := RcvNext(c, s, a);
    QuietReceiver(c, s, a);
    QuietPhases(c, s, a);
    QuietInHand(c, s, a);
    WriterFrame(c, s.writer, r, r', s.published, s.drained, s.finished);
    var sent := RcvSent(c, s, a);
    if sent != [] && sent[0].Ack? {
      ReceiverFlightOk(c, s, a);
      var f := Flight(sent[0], AckIndex(r, |s.published|));
      NetAdd(c, s.net, f, s.released + |s.snd.window|, |s.published|, s.drained, s.finished);
    }
    LinkedFrame(c, s, Next(c, s, a));
  }

  lemma LinkedFrame(c: Config, s: System, s': System)
    requires ValidConfig(c) && Linked(c, s)
    requires s' == s.(rcv := s'.rcv, net := s'.net, reader := s'.reader, writer := s'.writer)
    ensures Linked(c, s')
  {
  }

  /** The receiving engine at its start. */
  lemma InitialOk(c: Config, reply: Option<Packet>, initial: Option<Packet>)
    requires ValidConfig(c)
    requires reply.Some? ==> reply.value == Ack(0) || reply.value == Oack
    requires initial.Some? ==> initial.value == Data(1, All(c)[0])
    ensures ReceiverOk(c, R.Initial(reply, initial), [], 0, false)
  {
    hide Blocks;
    ModUnique(0, c.window, 0, 0);
    assert All(c)[..0] == [] && Bytes([]) == 0;
  }

  /** Before the receiving engine starts nothing has happened on its side. */
  lemma StartWriter(c: Config, w: WR.Ring, r: R.State, published: seq<seq<byte>>, drained: nat, finished: bool)
    requires ValidConfig(c) && WriterOk(c, w, None, published, drained, finished) && Unthreaded(c, w, None)
    requires r.phase.Reserving? && r.inWindow == 0
    ensures published == [] && drained == 0 && !finished
    ensures WriterOk(c, w, Some(r), published, drained, finished) && Unthreaded(c, w, Some(r))
  {
    hide WR.Inv, WR.FileIs;
  }

  lemma StartsKeeps(c: Config, s: System, reply: Option<Packet>, early: Option<Flight>)
    requires ValidConfig(c) && Inv(c, s) && Enabled(c, s, ReceiverStarts(reply, early))
    ensures Inv(c, Next(c, s, ReceiverStarts(reply, early)))
  {
    assert Num(c, 1) == 1;
    hide RR.Inv, WR.Inv, NetOk, SenderOk, ReaderOk, All, Num, WriterOk, ReceiverOk, Unthreaded, Linked;
    var s' := Next(c, s, ReceiverStarts(reply, early));
    StartWriter(c, s.writer, s'.rcv.value, s.published, s.drained, s.finished);
    if early.Some? {
      DataNumberIsIndex(c, s, early.value);
    }
    LinkedFrame(c, s, s');
    InitialOk(c, reply, s'.rcv.value.initial);
  }

  lemma ReserveKeeps(c: Config, s: System)
    requires ValidConfig(c) && Inv(c, s) && Enabled(c, s, Reserve)
    ensures Inv(c, Next(c, s, Reserve))
  {
    hide RR.Inv, WR.Inv, NetOk, SenderOk, ReaderOk, All, Number, Written, Linked;
    assert !s.finished;
    hide ReceiverOk;
    var r := s.rcv.value;
    RoutineOk(c, r, R.Reserved, s.published, s.drained, s.finished);
    WR.ReserveInv(s.writer, s.published);
    var s' := Next(c, s, Reserve);
    assert s' == s.(rcv := s'.rcv, writer := WR.Reserve(s.writer));
    assert WR.Appended(s'.writer, |s.published|) == WR.Appended(s.writer, |s.published|);
    assert !s.finished ==> WR.FileIs(s'.writer, s.published);
    var p := s'.rcv.value.phase;
    assert HoldsSlot(p) || p.Stopped?;
    LinkedFrame(c, s, s');
  }

  lemma PublishWriter(c: Config, w: WR.Ring, r: R.State, published: seq<seq<byte>>, drained: nat)
    requires ValidConfig(c) && WriterOk(c, w, Some(r), published, drained, false)
    requires r.phase.Publishing? && WR.CanPublish(w, |r.phase.data|)
    ensures var data := r.phase.data; var w' := WR.Publish(WR.Store(w, data), |data|);
      && var r' := R.AfterPublish(RecvConfig(c), r, r.phase.number, data);
      && WriterOk(c, w', Some(r'), published + [data], drained, false)
      && WR.WellFormed(w') && w'.count == w.count + 1 && WR.OwnsHead(w') == WR.OwnsHead(w)
  {
    hide Written;
    var data := r.phase.data;
    WR.StoreInv(w, published, data);
    var st := WR.Store(w, data);
    WR.PublishInv(st, published);
    var w' := WR.Publish(st, |data|);
    var a := WR.Appended(w, |published|);
    assert (published + [data])[..a] == published[..a];
    WR.PublishTail(st, published, |data|);
    hide WR.Inv;
  }

  lemma PublishKeeps(c: Config, s: System)
    requires ValidConfig(c) && Inv(c, s) && Enabled(c, s, Publish)
    ensures Inv(c, Next(c, s, Publish))
  {
    hide RR.Inv, WR.Inv, NetOk, SenderOk, ReaderOk, ReceiverOk, WriterOk, All, Number, WR.FileIs, WR.Publish, WR.Store,
      Bytes, R.AfterPublish;
    var r := s.rcv.value;
    PublishingFacts(c, s);
    PublishedOk(c, r, s.published, s.drained);
    PublishWriter(c, s.writer, r, s.published, s.drained);
    NetGrows(c, s.net, s.released + |s.snd.window|, |s.published|, s.drained, s.finished,
             s.released + |s.snd.window|, |s.published| + 1, s.drained, s.finished);
    var s' := Next(c, s, Publish);
    assert s'.rcv == Some(R.AfterPublish(RecvConfig(c), r, r.phase.number, r.phase.data));
    assert s' == s.(rcv := s'.rcv, writer := s'.writer, published := s.published + [r.phase.data]);
    WindowCounts(RecvConfig(c), r);
  }

  lemma PublishingFacts(c: Config, s: System)
    requires ValidConfig(c) && Inv(c, s) && s.rcv.Some? && s.rcv.value.phase.Publishing?
    ensures !s.finished && s.drained <= |s.published| < |All(c)| && s.rcv.value.initial == None
  {
    hide RR.Inv, WR.Inv, NetOk, SenderOk, ReaderOk, WriterOk, Blocks, Number, Bytes, Unthreaded;
  }

  lemma WindowCounts(c: R.Config, r: R.State)
    requires r.phase.Publishing?
    ensures var r' := R.AfterPublish(c, r, r.phase.number, r.phase.data);
      && r'.initial == r.initial && (r'.phase.Draining? || r'.phase.Reserving?)
      && (if r'.phase.Draining? then r'.inWindow == 0 else r'.inWindow == r.inWindow + 1)
  {
  }

  // ------------------------------------------------- drain, finish, and writer

  lemma BeginFlushKeeps(c: Config, s: System)
    requires ValidConfig(c) && Inv(c, s) && Enabled(c, s, BeginFlush)
    ensures Inv(c, Next(c, s, BeginFlush))
  {
    hide RR.Inv, NetOk, SenderOk, ReaderOk, ReceiverOk, All, Number, Written, Blocks;
    var w' := WR.BeginFlush(s.writer);
    WR.FlushInv(s.writer, s.published, true, s.writer.error);
    hide WR.Inv;
    assert WR.Appended(w', |s.published|) == WR.Appended(s.writer, |s.published|);
  }

  lemma EndFlushWriter(c: Config, w: WR.Ring, r: R.State, published: seq<seq<byte>>, drained: nat, ok: bool)
    requires ValidConfig(c) && WriterOk(c, w, Some(r), published, drained, false)
    requires r.phase.Draining? && R.Valid(r) && w.flushing
    ensures WriterOk(c, WR.EndFlush(w, ok), Some(R.Step(RecvConfig(c), r, if ok then R.Drained else R.DrainFailed)),
                     published, if ok then |published| else drained, false)
    ensures !WR.OwnsHead(w)
  {
    hide WR.Inv, Written;
    WR.FlushInv(w, published, false, w.error || !ok);
    WR.FileNeverShared(w, published);
    assert WR.Appended(WR.EndFlush(w, ok), |published|) == |published|;
  }

  lemma EndFlushKeeps(c: Config, s: System, ok: bool)
    requires ValidConfig(c) && Inv(c, s) && Enabled(c, s, EndFlush(ok))
    ensures Inv(c, Next(c, s, EndFlush(ok)))
  {
    hide RR.Inv, WR.Inv, NetOk, SenderOk, ReaderOk, All, Number, WriterOk, Bytes;
    var r := s.rcv.value;
    assert !s.finished && r.initial == None && s.drained <= |s.published| && r.inWindow == 0;
    hide ReceiverOk;
    EndFlushWriter(c, s.writer, r, s.published, s.drained, ok);
    if ok {
      DrainedOk(c, r, s.published, s.drained);
      NetGrows(c, s.net, s.released + |s.snd.window|, |s.published|, s.drained, s.finished,
               s.released + |s.snd.window|, |s.published|, |s.published|, s.finished);
    } else {
      RoutineOk(c, r, R.DrainFailed, s.published, s.drained, s.finished);
    }
    var s' := Next(c, s, EndFlush(ok));
    assert s' == s.(rcv := s'.rcv, writer := WR.EndFlush(s.writer, ok), drained := s'.drained);
    EmptyRing(c, s);
  }

  /** While the receiver is in the flush its ring is empty. */
  lemma EmptyRing(c: Config, s: System)
    requires ValidConfig(c) && Inv(c, s)
    ensures s.writer.flushing ==> s.writer.count == 0
    ensures s.rcv.Some? && (s.rcv.value.phase.Finishing? || s.rcv.value.phase.Acking?) ==> s.writer.count == 0
  {
    hide RR.Inv, WR.Inv, NetOk, SenderOk, ReaderOk, All, ReceiverOk, WR.FileIs;
  }

  lemma FinishWriter(c: Config, w: WR.Ring, r: R.State, published: seq<seq<byte>>)
    requires ValidConfig(c) && WriterOk(c, w, Some(r), published, |published|, false)
    requires r.phase.Finishing? && R.Valid(r) && published == All(c)
    ensures WriterOk(c, WR.FinishFile(w), Some(R.Step(RecvConfig(c), r, R.Finished)), published, |published|, true)
    ensures !WR.OwnsHead(w)
  {
    hide Written, Blocks;
    FinishedFile(c, w, published);
    WR.SinkInv(w, published, WR.FinishFile(w).sink);
    WR.FileNeverShared(w, published);
    hide WR.Inv, All;
  }

  lemma FinishKeeps(c: Config, s: System)
    requires ValidConfig(c) && Inv(c, s) && Enabled(c, s, FinishFile)
    ensures Inv(c, Next(c, s, FinishFile))
  {
    hide RR.Inv, WR.Inv, NetOk, SenderOk, ReaderOk, WriterOk, Number, Bytes, Blocks, WR.FinishFile;
    var r := s.rcv.value;
    FinishingFacts(c, s);
    hide ReceiverOk, All;
    FinishWriter(c, s.writer, r, s.published);
    FinishedOk(c, r, s.published, s.drained);
    NetGrows(c, s.net, s.released + |s.snd.window|, |s.published|, s.drained, s.finished,
             s.released + |s.snd.window|, |s.published|, s.drained, true);
    FinishFrame(s.writer);
    var s' := Next(c, s, FinishFile);
    assert s' == s.(rcv := s'.rcv, writer := WR.FinishFile(s.writer), finished := true);
  }

  lemma FinishFailsWriter(c: Config, w: WR.Ring, r: R.State, published: seq<seq<byte>>, partial: Sink)
    requires ValidConfig(c) && WriterOk(c, w, Some(r), published, |published|, false)
    requires r.phase.Finishing? && R.Valid(r)
    ensures var w' := w.(error := true, sink := partial);
      WriterOk(c, w', Some(R.Step(RecvConfig(c), r, R.FinishFailed)), published, |published|, false)
    ensures !WR.OwnsHead(w)
  {
    hide Written;
    WR.FlushInv(w, published, w.flushing, true);
    WR.SinkInv(w.(error := true), published, partial);
    WR.FileNeverShared(w, published);
    hide WR.Inv;
  }

  lemma FinishFailsKeeps(c: Config, s: System, partial: Sink)
    requires ValidConfig(c) && Inv(c, s) && Enabled(c, s, FinishFails(partial))
    ensures Inv(c, Next(c, s, FinishFails(partial)))
  {
    hide RR.Inv, WR.Inv, NetOk, SenderOk, ReaderOk, WriterOk, Number, Bytes, Blocks;
    var r := s.rcv.value;
    FinishingFacts(c, s);
    hide ReceiverOk, All;
    FinishFailsWriter(c, s.writer, r, s.published, partial);
    RoutineOk(c, r, R.FinishFailed, s.published, s.drained, s.finished);
    var s' := Next(c, s, FinishFails(partial));
    assert s' == s.(rcv := s'.rcv, writer := s.writer.(error := true, sink := partial));
    LinkedFrame(c, s, s');
  }

  lemma FinishingFacts(c: Config, s: System)
    requires ValidConfig(c) && Inv(c, s) && s.rcv.Some? && s.rcv.value.phase.Finishing?
    ensures !s.finished && s.published == All(c) && s.drained == |s.published| && s.writer.count == 0
    ensures s.rcv.value.inWindow == 0 && s.rcv.value.initial == None
  {
    hide RR.Inv, WR.Inv, NetOk, SenderOk, ReaderOk, Blocks, Number, Bytes, WR.FileIs;
  }

  lemma FinishFrame(w: WR.Ring)
    ensures WR.FinishFile(w) == w.(sink := WR.FinishFile(w).sink)
  {
  }

  lemma WriterKeeps(c: Config, s: System)
    requires ValidConfig(c) && Inv(c, s) && Enabled(c, s, WriterThread)
    ensures Inv(c, Next(c, s, WriterThread))
  {
    hide RR.Inv, NetOk, SenderOk, ReaderOk, ReceiverOk, All, Number, Written, Blocks;
    WR.ThreadStepInv(s.writer, s.published);
    WR.ThreadStepTail(s.writer, s.published);
    if s.writer.count == 0 { WR.FileNeverShared(s.writer, s.published); }
    hide WR.Inv, WR.ThreadStep, WR.FileIs, WR.WellFormed;
    var s' := Next(c, s, WriterThread);
    assert s' == s.(writer := WR.ThreadStep(s.writer));
    LinkedFrame(c, s, s');
  }

  lemma WriterFailsKeeps(c: Config, s: System, partial: Sink)
    requires ValidConfig(c) && Inv(c, s) && Enabled(c, s, WriterFails(partial))
    ensures Inv(c, Next(c, s, WriterFails(partial)))
  {
    hide RR.Inv, NetOk, SenderOk, ReaderOk, ReceiverOk, All, Number, Written, Blocks;
    WR.WriteFailsInv(s.writer, s.published, partial);
    if s.writer.count == 0 { WR.FileNeverShared(s.writer, s.published); }
    hide WR.Inv;
    var s' := Next(c, s, WriterFails(partial));
    LinkedFrame(c, s, s');
  }

  // ------------------------------------------------------------------ all runs

  lemma StartInv(c: Config)
    requires ValidConfig(c)
    ensures Inv(c, Start(c))
  {
    RR.StartInv(c.readSlots, c.window, c.blocksize, Stream(c.convert, c.file), c.broken);
    WR.StartInv(c.writeSlots, c.blocksize, c.convert);
    assert All(c)[..0] == [] && Bytes([]) == 0;
    assert 0 % c.window == 0;
    hide RR.Inv, WR.Inv, Blocks;
  }

  lemma StepInv(c: Config, s: System, a: Action)
    requires ValidConfig(c) && Inv(c, s) && Enabled(c, s, a)
    ensures Inv(c, Next(c, s, a))
  {
    hide Inv, Enabled, Next;
    match a
    case ReaderThread => ReaderKeeps(c, s);
    case LoadWindow => LoadKeeps(c, s);
    case SenderSends(ok) => SendKeeps(c, s, ok);
    case ReceiverStarts(reply, early) => StartsKeeps(c, s, reply, early);
    case Reserve => ReserveKeeps(c, s);
    case Publish => PublishKeeps(c, s);
    case BeginFlush => BeginFlushKeeps(c, s);
    case EndFlush(ok) => EndFlushKeeps(c, s, ok);
    case FinishFile => FinishKeeps(c, s);
    case FinishFails(partial) => FinishFailsKeeps(c, s, partial);
    case WriterThread => WriterKeeps(c, s);
    case WriterFails(partial) => WriterFailsKeeps(c, s, partial);
    case _ =>
      if Quiet(a) { QuietKeeps(c, s, a); } else { GetKeeps(c, s, a); }
  }

  ghost predicate IsStep(c: Config, s: System, a: Action, s': System) {
    Basic(s) && Enabled(c, s, a) && s' == Next(c, s, a)
  }

  /** A run: the states from the start on, and the actions between them. */
  ghost predicate IsRun(c: Config, states: seq<System>, actions: seq<Action>)
    requires ValidConfig(c)
  {
    && |states| == |actions| + 1 && states[0] == Start(c)
    && forall i :: 0 <= i < |actions| ==> IsStep(c, states[i], actions[i], states[i + 1])
  }

  /** Every state of every run satisfies the invariant. */
  lemma {:induction false} RunInv(c: Config, states: seq<System>, actions: seq<Action>, i: nat)
    requires ValidConfig(c) && IsRun(c, states, actions) && i < |states|
    ensures Inv(c, states[i])
  {
    if i == 0 {
      StartInv(c);
    } else {
      hide Inv, Enabled, Next;
      RunInv(c, states, actions, i - 1);
      assert IsStep(c, states[i - 1], actions[i - 1], states[i]);
      StepInv(c, states[i - 1], actions[i - 1]);
    }
  }

  /** End to end: in every state of every run in which the sending engine has
      returned OK, the receiving side has written and finished the sender's file,
      byte for byte, in octet and in netascii mode. */
  lemma SenderOkMeansFileCopied(c: Config, states: seq<System>, actions: seq<Action>, i: nat)
    requires ValidConfig(c) && IsRun(c, states, actions) && i < |states|
    requires states[i].snd.phase == S.Stopped(Ok)
    ensures states[i].writer.sink.file == c.file && states[i].finished
    ensures states[i].published == All(c)
    ensures states[i].snd.bytes == |Stream(c.convert, c.file)| % WORD
  {
    RunInv(c, states, actions, i);
    var s := states[i];
    FlattenBlocks(Stream(c.convert, c.file), c.blocksize);
    hide RR.Inv, WR.Inv, NetOk, Blocks;
    assert All(c)[..|All(c)|] == All(c);
  }

  /** The receiver's OK as well: the file is complete, and its byte count is the
      length of the stream, without wrap-around. */
  lemma ReceiverOkMeansFileComplete(c: Config, states: seq<System>, actions: seq<Action>, i: nat)
    requires ValidConfig(c) && IsRun(c, states, actions) && i < |states|
    requires states[i].rcv.Some? && states[i].rcv.value.phase == R.Stopped(Ok)
    ensures states[i].writer.sink.file == c.file
    ensures states[i].rcv.value.bytes == |Stream(c.convert, c.file)| <= c.maxBytes
  {
    RunInv(c, states, actions, i);
    FlattenBlocks(Stream(c.convert, c.file), c.blocksize);
    hide RR.Inv, WR.Inv, NetOk, Blocks;
    assert All(c)[..|All(c)|] == All(c);
  }

  /** Prefix safety across wrap-around: what the receiver has accepted is always a
      prefix of the sender's blocks, and the byte count is theirs, within the limit. */
  lemma PublishedIsPrefix(c: Config, states: seq<System>, actions: seq<Action>, i: nat)
    requires ValidConfig(c) && IsRun(c, states, actions) && i < |states|
    ensures states[i].published <= All(c)
    ensures states[i].rcv.Some? ==> states[i].rcv.value.bytes == Bytes(states[i].published) <= c.maxBytes
  {
    RunInv(c, states, actions, i);
    hide RR.Inv, WR.Inv, NetOk, Blocks;
  }

  lemma WrittenGrows(convert: bool, blocks: seq<seq<byte>>, k: nat, n: nat)
    requires k <= n <= |blocks|
    ensures Written(convert, blocks[..k]).file <= Written(convert, blocks[..n]).file
  {
    assert blocks[..k] + blocks[k..n] == blocks[..n];
    FlattenAppend(blocks[..k], blocks[k..n]);
    PutAllAppend(convert, EmptySink, Flatten(blocks[..k]), Flatten(blocks[k..n]));
    PutAllGrows(convert, Written(convert, blocks[..k]), Flatten(blocks[k..n]));
  }

  /** What has been drained is in the file. */
  ghost predicate OnDisk(c: Config, s: System) {
    && s.drained <= |s.published|
    && Written(c.convert, s.published[..s.drained]).file <= s.writer.sink.file
  }

  /** As long as nothing fails the invariant says so. */
  lemma IntactOnDisk(c: Config, s: System)
    requires ValidConfig(c) && Inv(c, s) && (s.finished || !s.writer.error)
    ensures OnDisk(c, s)
  {
    hide RR.Inv, WR.Inv, NetOk, SenderOk, ReaderOk, Written, Blocks, Unthreaded, Bytes, Number;
    if s.finished {
      assert s.published == All(c) && s.published[..|s.published|] == s.published;
      RoundTrip(c.convert, c.file, c.blocksize);
      WrittenGrows(c.convert, s.published, s.drained, |s.published|);
    } else {
      WrittenGrows(c.convert, s.published, s.drained, WR.Appended(s.writer, |s.published|));
    }
  }

  /** And a failure, or a step after one, takes nothing back. */
  lemma FailedKeepsFile(c: Config, s: System, a: Action)
    requires ValidConfig(c) && Inv(c, s) && Enabled(c, s, a)
    requires var s' := Next(c, s, a); s'.writer.error && !s'.finished
    ensures var s' := Next(c, s, a);
      s'.drained == s.drained && s.published <= s'.published && s.writer.sink.file <= s'.writer.sink.file
  {
    hide RR.Inv, WR.Inv, NetOk, SenderOk, ReaderOk, ReceiverOk, All, Written, Unthreaded, Linked,
      S.Step, S.Emitted, R.Step, R.Emitted, WR.FileIs, PutAll, WR.WellFormed, RR.WellFormed, S.Valid;
    if IsSender(a) {
      SenderKeepsFile(c, s, a);
    } else if a.WriterThread? {
      WR.ThreadStepGrows(s.writer);
    }
  }

  lemma SenderKeepsFile(c: Config, s: System, a: Action)
    requires Basic(s) && Enabled(c, s, a) && IsSender(a)
    ensures var s' := Next(c, s, a);
      && s'.writer == s.writer && s'.drained == s.drained && s'.published == s.published
      && s'.rcv == s.rcv && s'.finished == s.finished
  {
    hide S.Step, S.Emitted, RR.WellFormed, S.Valid, WR.WellFormed, RR.Acquire, RR.Release;
  }

  lemma InvBasic(c: Config, s: System)
    requires ValidConfig(c) && Inv(c, s)
    ensures Basic(s)
  {
    hide NetOk, SenderOk, ReaderOk, ReceiverOk, WriterOk;
  }

  lemma StepOnDisk(c: Config, s: System, a: Action)
    requires ValidConfig(c) && Inv(c, s) && Enabled(c, s, a) && OnDisk(c, s)
    ensures OnDisk(c, Next(c, s, a))
  {
    hide Inv, Enabled, Next, Written, Basic;
    InvBasic(c, s);
    StepInv(c, s, a);
    var s' := Next(c, s, a);
    if s'.finished || !s'.writer.error {
      IntactOnDisk(c, s');
    } else {
      FailedKeepsFile(c, s, a);
      assert s'.published[..s.drained] == s.published[..s.drained];
    }
  }

  lemma {:induction false} RunOnDisk(c: Config, states: seq<System>, actions: seq<Action>, i: nat)
    requires ValidConfig(c) && IsRun(c, states, actions) && i < |states|
    ensures OnDisk(c, states[i])
  {
    hide Inv, Enabled, Next, OnDisk;
    RunInv(c, states, actions, i);
    if i == 0 {
      IntactOnDisk(c, states[0]);
    } else {
      RunOnDisk(c, states, actions, i - 1);
      RunInv(c, states, actions, i - 1);
      assert IsStep(c, states[i - 1], actions[i - 1], states[i]);
      StepOnDisk(c, states[i - 1], actions[i - 1]);
    }
  }

  /** No early release: in every state of every run, whatever has failed, the file on
      the receiving side begins with all blocks of the windows that the sender has
      released (apart from a carried CR), even though ACKs inside a window are sent
      before anything is drained; the last window is released only after write_finish.
      And as long as nothing fails the file is exactly the first blocks accepted. */
  lemma NoEarlyRelease(c: Config, states: seq<System>, actions: seq<Action>, i: nat)
    requires ValidConfig(c) && IsRun(c, states, actions) && i < |states|
    ensures var s := states[i];
      && s.released <= s.drained <= |s.published|
      && s.released <= |All(c)| && s.published[..s.released] == All(c)[..s.released]
      && Written(c.convert, All(c)[..s.released]).file <= Written(c.convert, s.published[..s.drained]).file
      && Written(c.convert, s.published[..s.drained]).file <= s.writer.sink.file
      && (s.released == |All(c)| ==> s.finished && s.writer.sink.file == c.file)
      && (!s.finished && !s.writer.error ==>
           exists k :: s.drained <= k <= |s.published| && s.writer.sink == Written(c.convert, s.published[..k]))
  {
    RunInv(c, states, actions, i);
    RunOnDisk(c, states, actions, i);
    PublishedIsPrefix(c, states, actions, i);
    var s := states[i];
    hide RR.Inv, WR.Inv, NetOk, Blocks, Written, ReceiverOk, SenderOk, ReaderOk;
    WrittenGrows(c.convert, s.published, s.released, s.drained);
    if !s.finished && !s.writer.error {
      var k := WR.Appended(s.writer, |s.published|);
      assert s.drained <= k <= |s.published| && s.writer.sink == Written(c.convert, s.published[..k]);
    }
  }

  /** The two threads never meet, in any state of any run: while the protocol thread
      flushes or finishes the file, the writer thread neither writes nor can begin to;
      and the slot that the protocol thread fills is not the one being written. */
  lemma ThreadsApart(c: Config, states: seq<System>, actions: seq<Action>, i: nat)
    requires ValidConfig(c) && IsRun(c, states, actions) && i < |states|
    ensures var s := states[i]; var w := s.writer;
      && WR.WellFormed(w)
      && (w.flushing || InPhase(s, (p: R.Phase) => p.Finishing?) ==> !WR.OwnsHead(w) && !WR.CanTake(w))
      && (InPhase(s, (p: R.Phase) => HoldsSlot(p)) && WR.OwnsHead(w) ==> w.head != w.tail)
  {
    RunInv(c, states, actions, i);
    var s := states[i];
    EmptyRing(c, s);
    hide RR.Inv, WR.Inv, NetOk, Blocks, Written, ReceiverOk, SenderOk, ReaderOk, WR.FileIs;
    if s.writer.count == 0 { WR.FileNeverShared(s.writer, s.published); }
    if s.rcv.Some? && HoldsSlot(s.rcv.value.phase) && WR.OwnsHead(s.writer) {
      WR.SlotsNeverShared(s.writer, s.published);
    }
  }

  /** Windows are aligned: every window starts after a multiple of the window size,
      all but the last are full, and the receiver's count of packets in its window
      is the number of blocks accepted modulo the window size. */
  lemma WindowsAligned(c: Config, states: seq<System>, actions: seq<Action>, i: nat)
    requires ValidConfig(c) && IsRun(c, states, actions) && i < |states|
    ensures var s := states[i];
      && (s.snd.phase.Sending? || s.snd.phase.Waiting? ==>
           && s.released % c.window == 0
           && |s.snd.window| > 0
           && (!s.snd.final ==> |s.snd.window| == c.window)
           && (s.snd.final <==> s.released + |s.snd.window| == |All(c)|))
      && (s.rcv.Some? && s.rcv.value.phase.Listening? ==> s.rcv.value.inWindow == |s.published| % c.window)
  {
    RunInv(c, states, actions, i);
    hide RR.Inv, WR.Inv, NetOk, Blocks;
  }

  /** A DATA is taken only as the next block. */
  lemma AcceptedOnlyInOrder(c: Config, s: System, f: Flight)
    requires ValidConfig(c) && Inv(c, s) && Enabled(c, s, ReceiverGets(f))
    ensures var r := Next(c, s, ReceiverGets(f)).rcv;
      && r.Some? && var p := r.value.phase;
      && (p.Publishing? || p.Stopped? <==> f.index == |s.published| + 1)
      && (p.Publishing? ==> |s.published| < |All(c)| && p.data == All(c)[|s.published|])
  {
    hide RR.Inv, WR.Inv, NetOk, SenderOk, ReaderOk, WriterOk, All, Number;
    DataNumberIsIndex(c, s, f);
  }

  /** An ACK inside the window is believed wrongly only if it is late by whole periods:
      otherwise the packets that it lets the sender skip have been accepted. */
  lemma SkippedPacketsAccepted(c: Config, s: System, f: Flight)
    requires ValidConfig(c) && Inv(c, s) && Enabled(c, s, SenderGets(f))
    ensures var p := Next(c, s, SenderGets(f)).snd.phase;
      && (p.Sending? ==> p.next > 0)
      && (p.Sending? && !Stale(c, f.index, s.released + p.next) ==> f.index == s.released + p.next <= |s.published|)
  {
    hide RR.Inv, WR.Inv, NetOk, ReceiverOk, ReaderOk, WriterOk, All, Number, Stale;
    var p := Next(c, s, SenderGets(f)).snd.phase;
    if p.Sending? {
      AckNumber(c, s, f, p.next - 1);
    }
  }
}
