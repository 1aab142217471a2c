/** Late packets: exactly which of them are taken for something else, and exactly for
    which files that can happen. */
module TransferStaleness {
  import opened Netascii
  import opened Wrappers
  import opened BlockNumber
  import opened Modular
  import opened Packets
  import opened TransferSystem
  import opened TransferSafety
  import opened TransferProgress
  import opened TransferCompletion
  import S = Sender
  import R = Receiver
  import RR = ReaderRing
  import WR = WriterRing

  // ----------------------------------------------------- which packets, in any state

  /** On a network in which packets do not outlive the window after their own, and
      with two windows below one numbering period, every packet is fresh. */
  lemma YoungPacketsAreFresh(c: Config, s: System, f: Flight)
    requires ValidConfig(c) && Inv(c, s) && 2 * c.window < Period(c.rollover)
    requires f in s.net && s.released <= f.index + c.window
    ensures f.packet.Ack? ==> FreshAck(c, s, f)
    ensures f.packet.Data? && s.released < f.index + c.window ==> FreshData(c, s, f)
  {
    hide RR.Inv, WR.Inv, NetOk, ReceiverOk, ReaderOk, WriterOk, Blocks, Number, Stale, Unthreaded;
    LateByLess(c, f.index, s.released + |s.snd.window|);
    if s.released < f.index + c.window {
      LateByLess(c, f.index, |s.published| + 1);
    }
  }

  /** A listening receiver takes a DATA, however late, if and only if it is the next
      block or late by whole periods; and it takes the block that the DATA carries. */
  lemma DataTaken(c: Config, s: System, f: Flight)
    requires ValidConfig(c) && Inv(c, s) && s.rcv.Some? && s.rcv.value.phase.Listening?
    requires f in s.net && f.packet.Data?
    ensures 1 <= f.index <= |All(c)|
    ensures var n := |s.published| + 1; var r := R.Step(RecvConfig(c), s.rcv.value, R.Received(f.packet));
      && (r.phase != R.Listening <==> f.index == n || Stale(c, f.index, n))
      && (r.phase.Publishing? ==> r.phase == R.Publishing(Num(c, n), All(c)[f.index - 1]))
  {
    hide RR.Inv, WR.Inv, NetOk, SenderOk, ReaderOk, WriterOk, Blocks, Num, Stale, Unthreaded, Bytes, Linked;
    DataNumber(c, s, f);
  }

  /** A waiting sender releases its window on an ACK, however late, if and only if the ACK
      is that of the window's end or late by whole periods of it.  In the first case the
      window is on disk. */
  lemma WindowReleased(c: Config, s: System, f: Flight)
    requires ValidConfig(c) && Inv(c, s) && s.snd.phase.Waiting? && f in s.net && f.packet.Ack?
    ensures var snd := S.Step(SendConfig(c), s.snd, S.Received(f.packet));
      && (snd.window == [] <==> f.index == WindowEnd(s) || Stale(c, f.index, WindowEnd(s)))
      && (snd.window == [] ==> snd == S.Release(s.snd))
    ensures f.index == WindowEnd(s) ==> WindowEnd(s) <= s.drained
  {
    hide RR.Inv, WR.Inv, ReceiverOk, ReaderOk, WriterOk, All, Number, Stale, Unthreaded, Bytes;
    AckNumber(c, s, f, |s.snd.window| - 1);
    WindowFacts(c, s);
    assert FlightOk(c, f, s.released + |s.snd.window|, |s.published|, s.drained, s.finished);
  }

  // ------------------------------------------------------- what stays on the network

  lemma NetNeverShrinks(c: Config, s: System, a: Action)
    requires Basic(s) && Enabled(c, s, a)
    ensures s.net <= Next(c, s, a).net
  {
    hide S.Step, S.Emitted, R.Step, R.Emitted, RR.ThreadStep, WR.ThreadStep, RR.WellFormed, WR.WellFormed, S.Valid;
  }

  /** The DATA of block k. */
  ghost function DataFlight(c: Config, k: nat): Flight
    requires ValidConfig(c) && 1 <= k <= |All(c)|
  {
    Flight(Data(Num(c, k), All(c)[k - 1]), k)
  }

  function Hand(s: System): nat {
    if s.rcv.Some? then InHand(s.rcv.value) else 0
  }

  /** The DATA of every block that the receiver has, or has in hand, is on the network. */
  ghost predicate Recorded(c: Config, s: System)
    requires ValidConfig(c)
  {
    && |s.published| + Hand(s) <= |All(c)|
    && forall k :: 1 <= k <= |s.published| + Hand(s) ==> DataFlight(c, k) in s.net
  }

  lemma HandInFile(c: Config, s: System)
    requires ValidConfig(c) && Inv(c, s)
    ensures |s.published| + Hand(s) <= |All(c)|
  {
    hide RR.Inv, WR.Inv, NetOk, ReaderOk, WriterOk, Num, Unthreaded, Bytes;
  }

  /** Only a packet that arrives puts a block in the receiver's hand. */
  lemma HandFilled(c: Config, s: System, a: Action)
    requires ValidConfig(c) && Inv(c, s) && Enabled(c, s, a) && Basic(s)
    ensures var s' := Next(c, s, a);
      || |s'.published| + Hand(s') <= |s.published| + Hand(s)
      || (|s'.published| + Hand(s') == |s.published| + 1 && DataArrives(c, s, a))
  {
    hide Inv, FreshData;
    if IsSender(a) {
      SenderKeepsFile(c, s, a);
    } else if a.ReceiverStarts? {
      NothingBefore(c, s);
    } else if a.ReceiverGets? {
      HandGets(c, s, a.data);
    } else if IsReceiver(a) {
      HandReceiver(c, s, a);
    } else {
      HandOther(c, s, a);
    }
  }

  lemma HandOther(c: Config, s: System, a: Action)
    requires Basic(s) && Enabled(c, s, a) && !IsSender(a) && !IsReceiver(a) && !a.ReceiverStarts?
    ensures var s' := Next(c, s, a); s'.published == s.published && s'.rcv == s.rcv
  {
    hide RR.ThreadStep, WR.ThreadStep, RR.WellFormed, WR.WellFormed, FreshData, S.Valid;
  }

  lemma HandGets(c: Config, s: System, f: Flight)
    requires ValidConfig(c) && Inv(c, s) && Basic(s) && Enabled(c, s, ReceiverGets(f))
    ensures var s' := Next(c, s, ReceiverGets(f));
      && s'.published == s.published
      && (Hand(s') <= Hand(s) || (Hand(s') == 1 && DataArrives(c, s, ReceiverGets(f))))
  {
    hide Inv, Num, Stale, RR.WellFormed, WR.WellFormed, S.Valid, R.Step, Next;
    DataNumberIsIndex(c, s, f);
    ExpectedNumber(c, s);
    ReceiverEffect(c, s, ReceiverGets(f));
    HandReceived(RecvConfig(c), s.rcv.value, f.packet);
    GetsNoBlock(c, s, f);
  }

  lemma GetsNoBlock(c: Config, s: System, f: Flight)
    requires Basic(s) && Enabled(c, s, ReceiverGets(f))
    ensures Next(c, s, ReceiverGets(f)).published == s.published
  {
    hide R.Step, R.Emitted, RR.WellFormed, WR.WellFormed, S.Valid, FreshData;
  }

  lemma HandReceived(c: R.Config, r: R.State, p: Packet)
    requires R.Valid(r) && r.phase.Listening? && p.Data?
    ensures p.block != r.block ==> R.Step(c, r, R.Received(p)) == r
    ensures InHand(R.Step(c, r, R.Received(p))) <= 1
  {
  }

  lemma HandReceiver(c: Config, s: System, a: Action)
    requires ValidConfig(c) && Inv(c, s) && Basic(s) && Enabled(c, s, a) && IsReceiver(a) && !a.ReceiverGets?
    ensures var s' := Next(c, s, a); |s'.published| + Hand(s') <= |s.published| + Hand(s)
  {
    hide Inv, R.Step, Next, RR.WellFormed, WR.WellFormed, S.Valid, FreshData, WR.CanReserve, WR.CanPublish, InHand;
    if a.Publish? {
      NoneEarly(c, s);
    }
    ReceiverEffect(c, s, a);
    HandStep(RecvConfig(c), s.rcv.value, ReceiverEvent(a));
  }

  lemma ReceiverEffect(c: Config, s: System, a: Action)
    requires Basic(s) && Enabled(c, s, a) && IsReceiver(a)
    ensures var s' := Next(c, s, a);
      s'.rcv == Some(RcvNext(c, s, a)) && |s'.published| == |s.published| + (if a.Publish? then 1 else 0)
  {
    hide R.Step, R.Emitted, RR.WellFormed, WR.WellFormed, S.Valid, FreshData;
  }

  lemma HandStep(c: R.Config, r: R.State, e: R.Event)
    requires R.Valid(r) && R.Answers(r, e) && !(e.Received? && e.packet.Data?)
    requires r.phase.Publishing? ==> r.initial == None
    ensures InHand(R.Step(c, r, e)) + (if e.Published? then 1 else 0) <= InHand(r)
  {
  }

  lemma NoneEarly(c: Config, s: System)
    requires ValidConfig(c) && Inv(c, s) && s.rcv.Some? && s.rcv.value.phase.Publishing?
    ensures s.rcv.value.initial == None
  {
    hide RR.Inv, WR.Inv, NetOk, SenderOk, ReaderOk, WriterOk, All, Num, Unthreaded, Bytes, Linked;
  }

  lemma NothingBefore(c: Config, s: System)
    requires ValidConfig(c) && Inv(c, s) && s.rcv.None?
    ensures s.published == []
  {
    hide RR.Inv, WR.Inv, NetOk, SenderOk, ReaderOk, All, Unthreaded, Linked, WR.FileIs;
  }

  /** The action brings the DATA of the next block. */
  ghost predicate DataArrives(c: Config, s: System, a: Action) {
    || (a.ReceiverGets? && a.data.index == |s.published| + 1 && FreshData(c, s, a.data))
    || (a.ReceiverStarts? && a.early.Some? && FreshData(c, s, a.early.value) && a.early.value.packet.block == 1
        && s.published == [])
  }

  lemma ArrivedFlight(c: Config, s: System, a: Action)
    requires ValidConfig(c) && Inv(c, s) && DataArrives(c, s, a)
    ensures |s.published| + 1 <= |All(c)| && DataFlight(c, |s.published| + 1) in s.net
  {
    var f := if a.ReceiverGets? then a.data else a.early.value;
    assert Num(c, 1) == 1;
    hide Inv, Num, All, Stale;
    DataNumber(c, s, f);
  }

  lemma StepRecorded(c: Config, s: System, a: Action)
    requires ValidConfig(c) && Inv(c, s) && Enabled(c, s, a) && Recorded(c, s) && Basic(s)
    ensures Inv(c, Next(c, s, a)) && Recorded(c, Next(c, s, a))
  {
    hide Inv, Enabled, Next, Basic, DataArrives, DataFlight;
    StepInv(c, s, a);
    NetNeverShrinks(c, s, a);
    HandFilled(c, s, a);
    var s' := Next(c, s, a);
    HandInFile(c, s');
    if |s'.published| + Hand(s') > |s.published| + Hand(s) {
      ArrivedFlight(c, s, a);
    }
  }

  lemma {:induction false} PathRecorded(c: Config, s: System, path: seq<Action>)
    requires ValidConfig(c) && Inv(c, s) && Recorded(c, s) && Feasible(c, s, path)
    ensures var s' := After(c, s, path); Inv(c, s') && Recorded(c, s') && s.net <= s'.net
    decreases |path|
  {
    hide Inv, Enabled, Next, Basic, Recorded;
    if path != [] {
      StepRecorded(c, s, path[0]);
      NetNeverShrinks(c, s, path[0]);
      PathRecorded(c, Next(c, s, path[0]), path[1..]);
    }
  }

  // ------------------------------------------------------------------- ways to get there

  /** A path from the start, and the state it leads to. */
  ghost predicate Reached(c: Config, path: seq<Action>, s: System)
    requires ValidConfig(c)
  {
    Feasible(c, Start(c), path) && After(c, Start(c), path) == s && Inv(c, s) && Recorded(c, s)
  }

  lemma ReachedOn(c: Config, path: seq<Action>, s: System, rest: seq<Action>)
    requires ValidConfig(c) && Reached(c, path, s) && Feasible(c, s, rest)
    ensures var s' := After(c, s, rest); Reached(c, path + rest, s') && s.net <= s'.net
  {
    hide Inv, Recorded, Feasible, After;
    FeasibleAppend(c, Start(c), path, rest);
    PathRecorded(c, s, rest);
  }

  lemma StartRecorded(c: Config)
    requires ValidConfig(c)
    ensures Reached(c, [], Start(c))
  {
    StartInv(c);
    hide Inv, RR.Start, WR.Start, Stream, Blocks;
    EmptyPath(c, Start(c));
  }

  /** The receiving engine starts and sends the ACK of the request. */
  lemma FirstAck(c: Config) returns (path: seq<Action>, s: System)
    requires Completable(c)
    ensures Reached(c, path, s) && Running(c, s) && s.snd.phase.Loading? && s.released == 0 && AckSent(c, s, 0)
  {
    hide Inv, Enabled, Next, Basic, Recorded, Feasible, After, Stream, Settled, Settles;
    StartRecorded(c);
    Starts(c, Some(Ack(0)));
    var a := ReceiverStarts(Some(Ack(0)), None);
    FeasibleOne(c, Start(c), a);
    ReachedOn(c, [], Start(c), [a]);
    path, s := [] + [a], Next(c, Start(c), a);
    SlotAtStart(c);
    path, s := FirstReserve(c, path, s);
    path, s := FirstReply(c, path, s);
  }

  lemma SlotAtStart(c: Config)
    requires Completable(c)
    ensures Basic(Start(c)) && Enabled(c, Start(c), ReceiverStarts(Some(Ack(0)), None))
    ensures var s := Next(c, Start(c), ReceiverStarts(Some(Ack(0)), None));
      Basic(s) && WR.CanReserve(s.writer) && s.published == []
  {
    hide Inv, Stream, Feasible, Basic, RR.Start, RR.WellFormed;
    Starts(c, Some(Ack(0)));
    InvBasic(c, Next(c, Start(c), ReceiverStarts(Some(Ack(0)), None)));
  }

  lemma SettleIsReserve(s: System)
    requires Basic(s) && s.rcv.Some? && s.rcv.value.phase.Reserving? && WR.CanReserve(s.writer)
    ensures SettleAction(s) == Reserve
  {
  }

  lemma ReserveEffect(c: Config, s: System)
    requires Basic(s) && Enabled(c, s, Reserve) && s.rcv.value == R.Initial(Some(Ack(0)), None)
    ensures var s' := Next(c, s, Reserve);
      s'.published == s.published && s'.rcv == Some(s.rcv.value.(phase := R.Replying(Ack(0))))
  {
    hide WR.WellFormed, RR.WellFormed;
  }

  lemma ReplyEffect(c: Config, s: System)
    requires Basic(s) && Enabled(c, s, ReceiverSends(true)) && s.published == []
    requires s.rcv.value == R.Initial(Some(Ack(0)), None).(phase := R.Replying(Ack(0)))
    ensures var s' := Next(c, s, ReceiverSends(true));
      s'.rcv == Some(s.rcv.value.(phase := R.Listening)) && AckSent(c, s', 0)
  {
    hide WR.WellFormed, RR.WellFormed;
  }

  lemma FirstReserve(c: Config, path: seq<Action>, s: System) returns (path': seq<Action>, s': System)
    requires ValidConfig(c) && Reached(c, path, s) && Running(c, s) && s.snd.phase.Loading? && s.released == 0
    requires Basic(s) && WR.CanReserve(s.writer) && s.rcv == Some(R.Initial(Some(Ack(0)), None)) && s.published == []
    ensures Reached(c, path', s') && Running(c, s') && s'.snd.phase.Loading? && s'.released == 0 && s'.published == []
    ensures s'.rcv == Some(R.Initial(Some(Ack(0)), None).(phase := R.Replying(Ack(0))))
  {
    hide Inv, Recorded, Feasible, After, Reached, Stream, Enabled, Next, Basic, SettleAction, Of, WR.CanReserve,
      All, Boundary, Num, RingLeft;
    SettleIsReserve(s);
    SettleStep(c, s);
    ReserveEffect(c, s);
    FeasibleOne(c, s, Reserve);
    ReachedOn(c, path, s, [Reserve]);
    path', s' := path + [Reserve], Next(c, s, Reserve);
  }

  lemma FirstReply(c: Config, path: seq<Action>, s: System) returns (path': seq<Action>, s': System)
    requires ValidConfig(c) && Reached(c, path, s) && Running(c, s)
    requires s.snd.phase.Loading? && s.released == 0 && s.published == []
    requires s.rcv == Some(R.Initial(Some(Ack(0)), None).(phase := R.Replying(Ack(0))))
    ensures Reached(c, path', s') && Running(c, s') && s'.snd.phase.Loading? && s'.released == 0 && AckSent(c, s', 0)
  {
    InvBasic(c, s);
    var a := ReceiverSends(true);
    assert SettleAction(s) == a;
    hide Inv, Recorded, Feasible, After, Reached, Stream, Enabled, Next, Basic, SettleAction, Of,
      All, Boundary, Num, RingLeft;
    SettleStep(c, s);
    ReplyEffect(c, s);
    FeasibleOne(c, s, a);
    ReachedOn(c, path, s, [a]);
    path', s' := path + [a], Next(c, s, a);
  }

  /** On to the window that block n + 1 belongs to. */
  lemma {:induction false} ReachRound(c: Config, path: seq<Action>, s: System, n: nat)
    returns (path': seq<Action>, s': System)
    requires Completable(c) && Reached(c, path, s) && Running(c, s)
    requires s.snd.phase.Loading? && s.released <= n < |All(c)|
    ensures Reached(c, path', s') && Running(c, s') && s'.snd.phase.Loading? && s.net <= s'.net
    ensures s'.released <= n < s'.released + c.window
    decreases n - s.released
  {
    hide Inv, All, Recorded, Feasible, After, Reached, OneRound;
    if n < s.released + c.window {
      return path, s;
    }
    var round := WindowGetsAcknowledged(c, s);
    ReachedOn(c, path, s, round);
    var s1 := After(c, s, round);
    path', s' := ReachRound(c, path + round, s1, n);
  }

  /** Into that window, until the receiver has n blocks and listens for the next. */
  lemma ReachListening(c: Config, path: seq<Action>, s: System, n: nat) returns (path': seq<Action>, s': System)
    requires Completable(c) && Reached(c, path, s) && Running(c, s) && s.snd.phase.Loading?
    requires s.released <= n < s.released + c.window && n < |All(c)|
    ensures Reached(c, path', s') && Running(c, s') && s.net <= s'.net && s'.released == s.released
    ensures s'.rcv.value.phase.Listening? && |s'.published| == n
  {
    hide Inv, All, Recorded, Feasible, After, Reached, OnWire, ProfileOf;
    RoundEndIs(c, s);
    HandEmpty(c, s);
    var p1 := ReachWaiting(c, s);
    ReachedOn(c, path, s, p1);
    var s1 := After(c, s, p1);
    var p2 := SettlePublished(c, s1);
    ReachedOn(c, path + p1, s1, p2);
    var s2 := After(c, s1, p2);
    RoundEndIs(c, s2);
    OnWireStays(s1, s2);
    NotDone(c, s2);
    path', s' := DeliverUpTo(c, path + p1 + p2, s2, n, 0);
  }

  lemma OnWireStays(s: System, s': System)
    requires OnWire(s, |s.snd.window|) && SenderUntouched(s, s')
    ensures OnWire(s', |s'.snd.window|)
  {
    forall i | 0 <= i < |s'.snd.window| ensures WindowFlight(s', i) in s'.net {
      assert WindowFlight(s, i) in s.net;
    }
  }

  lemma HandEmpty(c: Config, s: System)
    requires ValidConfig(c) && Healthy(c, s) && s.snd.phase.Loading?
    ensures |s.published| == s.released && InHand(s.rcv.value) == 0
  {
    hide RR.Inv, WR.Inv, NetOk, ReaderOk, WriterOk, All, Number, Bytes, Unthreaded;
  }

  /** A receiver that has not got the whole file has not stopped. */
  lemma NotDone(c: Config, s: System)
    requires ValidConfig(c) && Healthy(c, s)
    ensures |s.published| < |All(c)| ==> !s.rcv.value.phase.Stopped?
  {
    hide RR.Inv, WR.Inv, NetOk, SenderOk, ReaderOk, WriterOk, All, Number, Bytes, Unthreaded;
  }

  lemma {:induction false} DeliverUpTo(c: Config, path: seq<Action>, s: System, n: nat, i: nat)
    returns (path': seq<Action>, s': System)
    requires Completable(c) && Reached(c, path, s) && Delivering(c, s) && s.rcv.value.phase.Listening?
    requires |s.published| == s.released + i <= n < WindowEnd(s) <= |All(c)|
    ensures Reached(c, path', s') && Running(c, s') && s.net <= s'.net && s'.released == s.released
    ensures s'.rcv.value.phase.Listening? && |s'.published| == n
    decreases n - i
  {
    hide Inv, All, Recorded, Feasible, After, Reached, OnWire, ProfileOf;
    if s.released + i == n {
      return path, s;
    }
    var step := DeliverAndSettle(c, s, i);
    ReachedOn(c, path, s, step);
    var s1 := After(c, s, step);
    NotDone(c, s1);
    path', s' := DeliverUpTo(c, path + step, s1, n, i + 1);
  }

  /** A block that the receiver has is delivered once more, and it acknowledges what it
      has. */
  lemma DuplicateAck(c: Config, path: seq<Action>, s: System) returns (path': seq<Action>, s': System)
    requires Completable(c) && Reached(c, path, s) && Running(c, s) && s.rcv.value.phase.Listening? && |s.published| > 0
    ensures Reached(c, path', s') && Running(c, s') && s.net <= s'.net
    ensures s'.released == s.released && AckSent(c, s', |s.published|)
  {
    var k := |s.published|;
    HandInFile(c, s);
    var f := DataFlight(c, k);
    assert f in s.net;
    DuplicateEnabled(c, s, f);
    hide Inv, Recorded, Feasible, After, Reached, Enabled, Next, Basic, All, Num, Stream;
    var a := ReceiverGets(f);
    QuietKeeps(c, s, a);
    DeliverEffect(c, s, f);
    FeasibleOne(c, s, a);
    ReachedOn(c, path, s, [a]);
    path', s' := path + [a], Next(c, s, a);
  }

  lemma DuplicateEnabled(c: Config, s: System, f: Flight)
    requires Completable(c) && Inv(c, s) && s.rcv.Some? && s.rcv.value.phase.Listening?
    requires f in s.net && f.packet.Data? && f.index == |s.published|
    ensures Basic(s) && Enabled(c, s, ReceiverGets(f)) && f.packet.block != s.rcv.value.block
  {
    hide RR.Inv, WR.Inv, NetOk, SenderOk, ReaderOk, WriterOk, All, Num, Stale, Unthreaded, Bytes, Linked, Stream;
    LateByLess(c, f.index, |s.published| + 1);
    DataNumber(c, s, f);
  }

  /** On to the last window, sent but not delivered. */
  lemma {:induction false} ReachLast(c: Config, path: seq<Action>, s: System) returns (path': seq<Action>, s': System)
    requires Completable(c) && Reached(c, path, s) && Running(c, s)
    requires s.snd.phase.Loading? || RoundEnd(c, s.released) < |All(c)|
    ensures Reached(c, path', s') && Running(c, s') && s.net <= s'.net && s'.snd.phase.Waiting?
    ensures WindowEnd(s') == |All(c)| && |s'.published| == s'.released < |All(c)|
    decreases |All(c)| - s.released
  {
    hide Inv, All, Recorded, Feasible, After, Reached, OneRound, OnWire;
    RoundEndIs(c, s);
    if RoundEnd(c, s.released) == |All(c)| {
      HandEmpty(c, s);
      var p := ReachWaiting(c, s);
      ReachedOn(c, path, s, p);
      path', s' := path + p, After(c, s, p);
      RoundEndIs(c, s');
    } else {
      var round := WindowGetsAcknowledged(c, s);
      ReachedOn(c, path, s, round);
      path', s' := ReachLast(c, path + round, After(c, s, round));
    }
  }

  // ------------------------------------------------------------ for which files, exactly

  /** A DATA that is not the next block but carries its number is on the network while the
      receiver listens. */
  ghost predicate DataMistaken(c: Config, s: System, f: Flight) {
    && s.rcv.Some? && s.rcv.value.phase.Listening? && f in s.net && f.packet.Data?
    && f.packet.block == s.rcv.value.block && f.index != |s.published| + 1
  }

  /** An ACK that is not that of the window's end but carries its number is on the network
      while the sender waits. */
  ghost predicate AckMistaken(c: Config, s: System, f: Flight) {
    && s.snd.phase.Waiting? && |s.snd.window| > 0 && f in s.net && f.packet.Ack?
    && s.snd.window[|s.snd.window| - 1].Data? && f.packet.block == s.snd.window[|s.snd.window| - 1].block
    && f.index != WindowEnd(s)
  }

  /** The first block, counted from 1, whose number comes again later. */
  function FirstRepeated(rollover: u16): nat {
    if rollover == 0 then 1 else rollover
  }

  lemma StaleGap(c: Config, i: nat, n: nat)
    requires Stale(c, i, n)
    ensures n >= i + Period(c.rollover) && i >= c.rollover
  {
    if n < i + Period(c.rollover) {
      LateByLess(c, i, n);
    }
  }

  lemma PeriodIsStale(c: Config, i: nat)
    requires i >= c.rollover
    ensures Stale(c, i, i + Period(c.rollover))
  {
    ModUnique(Period(c.rollover), Period(c.rollover), 1, 0);
  }

  lemma MistakenDataNeedsBlocks(c: Config, s: System, f: Flight)
    requires ValidConfig(c) && Inv(c, s) && DataMistaken(c, s, f)
    ensures |All(c)| >= FirstRepeated(c.rollover) + Period(c.rollover)
  {
    hide RR.Inv, WR.Inv, NetOk, SenderOk, ReaderOk, WriterOk, All, Num, Stale, Unthreaded, Bytes, Linked;
    DataNumber(c, s, f);
    StaleGap(c, f.index, |s.published| + 1);
  }

  lemma MistakenAckNeedsBlocks(c: Config, s: System, f: Flight)
    requires ValidConfig(c) && Inv(c, s) && AckMistaken(c, s, f)
    ensures |All(c)| >= 65536
  {
    AckNumber(c, s, f, |s.snd.window| - 1);
    WindowFacts(c, s);
    hide Inv, All, Stale;
    StaleGap(c, f.index, WindowEnd(s));
  }

  lemma MistakenDataReached(c: Config) returns (states: seq<System>, actions: seq<Action>, f: Flight)
    requires Completable(c) && |All(c)| >= FirstRepeated(c.rollover) + Period(c.rollover)
    ensures IsRun(c, states, actions) && DataMistaken(c, states[|actions|], f)
  {
    hide Inv, Feasible, All, Recorded, Stream, DataFlight, Num, Stale, After, IsStep, Enabled, Next;
    var i := FirstRepeated(c.rollover);
    var n := i + Period(c.rollover) - 1;
    var path, s := FirstAck(c);
    path, s := ReachRound(c, path, s, n);
    path, s := ReachListening(c, path, s, n);
    f := DataFlight(c, i);
    RecordedAt(c, s, i);
    PeriodIsStale(c, i);
    DataNumber(c, s, f);
    ExpectedNumber(c, s);
    PathIsRun(c, path);
    states, actions := StatesOf(c, Start(c), path), path;
  }

  lemma RecordedAt(c: Config, s: System, k: nat)
    requires ValidConfig(c) && Recorded(c, s) && 1 <= k <= |s.published|
    ensures k <= |All(c)| && DataFlight(c, k) in s.net && DataFlight(c, k).packet.Data? && DataFlight(c, k).index == k
  {
    hide All;
  }

  lemma ExpectedNumber(c: Config, s: System)
    requires ValidConfig(c) && Inv(c, s) && s.rcv.Some?
    ensures s.rcv.value.block == Num(c, |s.published| + 1)
  {
    hide RR.Inv, WR.Inv, NetOk, SenderOk, ReaderOk, WriterOk, All, Num, Unthreaded, Bytes, Linked;
  }

  /** A late ACK makes the sender return OK although the last window is not delivered. */
  lemma FalseOk(c: Config) returns (states: seq<System>, actions: seq<Action>, f: Flight)
    requires Completable(c) && |All(c)| >= 65536
    ensures IsRun(c, states, actions)
    ensures var s := states[|actions|];
      && AckMistaken(c, s, f) && S.Valid(s.snd) && |s.published| < |All(c)| && !s.finished
      && S.Step(SendConfig(c), s.snd, S.Received(f.packet)).phase == S.Stopped(Ok)
  {
    hide Inv, Feasible, All, Recorded, Stream, S.Step;
    var k := |All(c)| - Period(c.rollover);
    var path, s := FirstAck(c);
    if k > 0 {
      path, s := ReachRound(c, path, s, k);
      path, s := ReachListening(c, path, s, k);
      path, s := DuplicateAck(c, path, s);
    }
    path, s := ReachLast(c, path, s);
    f := Flight(Ack(Num(c, k)), k);
    PeriodIsStale(c, k);
    LastWindowReleased(c, s, f);
    PathIsRun(c, path);
    states, actions := StatesOf(c, Start(c), path), path;
  }

  lemma LastWindowReleased(c: Config, s: System, f: Flight)
    requires ValidConfig(c) && Inv(c, s) && s.snd.phase.Waiting? && WindowEnd(s) == |All(c)| && |s.published| < |All(c)|
    requires f in s.net && f.packet.Ack? && Stale(c, f.index, WindowEnd(s))
    ensures AckMistaken(c, s, f) && S.Valid(s.snd) && !s.finished
    ensures S.Step(SendConfig(c), s.snd, S.Received(f.packet)).phase == S.Stopped(Ok)
  {
    hide RR.Inv, WR.Inv, NetOk, ReceiverOk, ReaderOk, WriterOk, All, Number, Stale, Unthreaded, Bytes,
      S.Step, S.WindowBytes;
    WindowReleased(c, s, f);
    AckNumber(c, s, f, |s.snd.window| - 1);
  }
}
