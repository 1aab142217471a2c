/** Every transfer can be completed: from any healthy state one sender timeout and a
    network that delivers in order get the current window acknowledged, and so on to
    the end of the file. */
module TransferCompletion {
  import opened Netascii
  import opened Wrappers
  import opened BlockNumber
  import opened Packets
  import opened TransferSystem
  import opened TransferSafety
  import opened TransferProgress
  import S = Sender
  import R = Receiver
  import RR = ReaderRing
  import WR = WriterRing

  /** Both engines run, nothing has failed, and nothing in the way of the next window. */
  ghost predicate Running(c: Config, s: System)
    requires ValidConfig(c)
  {
    && Healthy(c, s) && c.window < Period(c.rollover)
    && !s.snd.phase.Stopped? && !s.rcv.value.phase.Stopped?
  }

  /** Where the window that the sender is at, or is about to load, ends. */
  function RoundEnd(c: Config, released: nat): nat
    requires c.blocksize > 0
  {
    if released + c.window < |All(c)| then released + c.window else |All(c)|
  }

  // -------------------------------------------------------------- loading a window

  /** Only the sender's own program has moved. */
  ghost predicate SenderMoved(s: System, s': System) {
    s' == s.(snd := s'.snd, reader := s'.reader, net := s'.net) && s.net <= s'.net
  }

  lemma MovedHealthy(c: Config, s: System, s': System)
    requires ValidConfig(c) && Healthy(c, s) && Inv(c, s') && SenderMoved(s, s')
    ensures Healthy(c, s')
  {
    hide Inv;
  }

  lemma ReaderSteps(c: Config, s: System)
    requires ValidConfig(c) && Inv(c, s) && s.snd.phase.Loading? && !RR.Ready(s.reader)
    ensures Basic(s) && Enabled(c, s, ReaderThread) && RR.StepsLeft(s.reader) > 0
    ensures var s1 := Next(c, s, ReaderThread);
      && SenderMoved(s, s1) && s1.snd == s.snd && s1.net == s.net
      && (RR.Ready(s1.reader) || 0 < RR.StepsLeft(s1.reader) < RR.StepsLeft(s.reader))
  {
    hide RR.Inv, WR.Inv, NetOk, SenderOk, ReceiverOk, WriterOk, Blocks, Number, Linked, Unthreaded;
    RR.ThreadStepProgress(s.reader, All(c), s.released);
  }

  lemma LoadEffect(c: Config, s: System)
    requires ValidConfig(c) && Inv(c, s) && !c.broken && s.snd.phase.Loading? && RR.Ready(s.reader)
    ensures Basic(s) && Enabled(c, s, LoadWindow)
    ensures var s1 := Next(c, s, LoadWindow);
      SenderMoved(s, s1) && s1.net == s.net && s1.snd.phase == S.Sending(0)
  {
    hide WR.Inv, NetOk, ReceiverOk, WriterOk, All, Linked, Unthreaded, S.Step, RR.Held, RR.Final;
    var n := RR.WindowSize(c.window, All(c), s.released);
    RR.AcquiredWindow(s.reader, All(c), s.released);
    LoadSender(c, s.snd, s.released, n, RR.Final(RR.Acquire(s.reader)));
    LoadPhase(c, s.snd, SenderEvent(s, LoadWindow));
  }

  lemma LoadPhase(c: Config, snd: S.State, e: S.Event)
    requires S.Valid(snd) && snd.phase.Loading? && e.Window?
    ensures var p := S.Step(SendConfig(c), snd, e).phase; p.Sending? ==> p == S.Sending(0)
  {
  }

  /** The reader fills the ring and the sender loads its next window. */
  lemma {:induction false} LoadNext(c: Config, s: System) returns (path: seq<Action>)
    requires ValidConfig(c) && Inv(c, s) && !c.broken && s.snd.phase.Loading?
    ensures Feasible(c, s, path) && ProfileOf(path) == Still
    ensures var s' := After(c, s, path);
      Inv(c, s') && SenderMoved(s, s') && s'.net == s.net && s'.snd.phase == S.Sending(0)
    decreases if RR.Ready(s.reader) then 0 else RR.StepsLeft(s.reader) + 1
  {
    hide Inv, Enabled, Next, Basic, RR.Ready, RR.StepsLeft, Join, After, Feasible, ProfileOf;
    if RR.Ready(s.reader) {
      LoadEffect(c, s);
      LoadKeeps(c, s);
      FeasibleOne(c, s, LoadWindow);
      path := [LoadWindow];
    } else {
      ReaderSteps(c, s);
      ReaderKeeps(c, s);
      var s1 := Next(c, s, ReaderThread);
      var rest := LoadNext(c, s1);
      FeasibleCons(c, s, ReaderThread, rest);
      path := [ReaderThread] + rest;
    }
  }

  /** Wherever the sender is in its window, it gets to waiting for the ACK. */
  lemma ReachWaiting(c: Config, s: System) returns (path: seq<Action>)
    requires ValidConfig(c) && Running(c, s) && (s.snd.phase.Loading? ==> !c.broken)
    ensures Feasible(c, s, path) && ProfileOf(path) == Still
    ensures var s' := After(c, s, path);
      && Running(c, s') && SenderMoved(s, s') && s'.snd.phase.Waiting?
      && (s.snd.phase.Loading? ==> OnWire(s', |s'.snd.window|))
  {
    hide Inv, After, Feasible, ProfileOf, Join, OnWire;
    path := [];
    EmptyPath(c, s);
    var s1 := s;
    if s1.snd.phase.Loading? {
      path := LoadNext(c, s);
      s1 := After(c, s, path);
      NothingNeeded(s1);
    }
    if s1.snd.phase.Sending? {
      var rest := SendAll(c, s1);
      FeasibleAppend(c, s, path, rest);
      path := path + rest;
      s1 := After(c, s, path);
    }
    MovedHealthy(c, s, s1);
  }

  lemma EmptyPath(c: Config, s: System)
    ensures Feasible(c, s, []) && After(c, s, []) == s && ProfileOf([]) == Still
  {
  }

  lemma NothingNeeded(s: System)
    ensures OnWire(s, 0)
  {
  }

  // ------------------------------------------------------------------- one window

  lemma RoundEndIs(c: Config, s: System)
    requires ValidConfig(c) && Inv(c, s) && !s.snd.phase.Stopped?
    ensures s.released < |All(c)|
    ensures !s.snd.phase.Loading? ==> WindowEnd(s) == RoundEnd(c, s.released)
  {
    hide RR.Inv, WR.Inv, NetOk, ReaderOk, ReceiverOk, WriterOk, All, Number, Bytes, Linked, Unthreaded;
  }

  /** The sender has moved on, and everything is as before for the next window. */
  ghost predicate RoundDone(c: Config, s: System, s': System)
    requires ValidConfig(c)
  {
    && Healthy(c, s') && s'.released == RoundEnd(c, s.released)
    && s'.snd.phase == (if s'.released == |All(c)| then S.Stopped(Ok) else S.Loading)
    && (s'.snd.phase.Loading? ==> !s'.rcv.value.phase.Stopped?)
  }

  /** One timeout, the DATA of the window in order, the ACK of its end, and nothing that
      fails. */
  predicate OneRound(c: Config, released: nat, path: seq<Action>)
    requires c.blocksize > 0
  {
    var p, end := ProfileOf(path), RoundEnd(c, released);
    && p.kind && p.timeouts == 1 && p.acks == [end]
    && end >= released && p.data <= Range(released, end - released)
  }

  lemma StillRunning(c: Config, s: System)
    requires ValidConfig(c) && Healthy(c, s) && s.snd.phase.Loading?
    ensures !s.rcv.value.phase.Stopped? && |s.published| == s.released
  {
    hide RR.Inv, WR.Inv, NetOk, ReaderOk, WriterOk, All, Number, Bytes, Unthreaded;
  }

  /** A sender that waits times out, sends the window again, and it is delivered. */
  lemma ResendAndDeliver(c: Config, s: System) returns (path: seq<Action>)
    requires ValidConfig(c) && Running(c, s) && s.snd.phase.Waiting?
    ensures Feasible(c, s, path)
    ensures var p := ProfileOf(path);
      p == Profile(true, 1, p.data, []) && p.data <= Range(s.released, |s.snd.window|)
    ensures var s' := After(c, s, path);
      && Healthy(c, s') && s'.snd == s.snd && s'.released == s.released && AckSent(c, s', WindowEnd(s))
  {
    hide Inv, Enabled, Next, Basic, All, Boundary, Num, After, Feasible, ProfileOf, Join;
    var p1 := Settle1(c, s);
    var s1 := After(c, s, p1);
    TimeOut(c, s1);
    var s2 := Next(c, s1, SenderTimesOut);
    NothingNeeded(s2);
    var p3 := SendAll(c, s2);
    var s3 := After(c, s2, p3);
    FeasibleCons(c, s1, SenderTimesOut, p3);
    FeasibleAppend(c, s, p1, [SenderTimesOut] + p3);
    path := p1 + ([SenderTimesOut] + p3);
    assert ProfileOf(path) == Profile(true, 1, [], []);
    MovedHealthy(c, s1, s3);
    WindowFacts(c, s3);
    if s3.rcv.value.phase.Listening? {
      var p4 := DeliverAll(c, s3, 0);
      FeasibleAppend(c, s, path, p4);
      JoinDelivery(ProfileOf(path), ProfileOf(p4));
      path := path + p4;
      DeliveringHealthy(c, After(c, s3, p4));
    }
  }

  lemma JoinDelivery(p: Profile, q: Profile)
    requires p == Profile(true, 1, [], []) && q == Profile(true, 0, q.data, [])
    ensures Join(p, q) == Profile(true, 1, q.data, [])
  {
  }

  lemma AckRound(c: Config, s: System) returns (path: seq<Action>)
    requires ValidConfig(c) && Running(c, s) && s.snd.phase.Waiting?
    ensures Feasible(c, s, path) && OneRound(c, s.released, path) && RoundDone(c, s, After(c, s, path))
  {
    hide Inv, Enabled, Next, Basic, All, Num, After, Feasible, ProfileOf;
    RoundEndIs(c, s);
    path := ResendAndDeliver(c, s);
    var s1 := After(c, s, path);
    DeliverAck(c, s1);
    var a := SenderGets(Flight(Ack(Num(c, WindowEnd(s1))), WindowEnd(s1)));
    FeasibleOne(c, s1, a);
    FeasibleAppend(c, s, path, [a]);
    path := path + [a];
    var s' := After(c, s, path);
    if s'.snd.phase.Loading? {
      StillRunning(c, s');
    }
  }

  /** Progress: from every state with both sides running, whether the sender is loading,
      sending or waiting, one sender timeout followed by a network that delivers the
      window in order, and the answer to it, gets the window acknowledged: the sender
      moves on to the next window, or is done. */
  lemma WindowGetsAcknowledged(c: Config, s: System) returns (path: seq<Action>)
    requires ValidConfig(c) && Running(c, s) && (s.snd.phase.Loading? ==> !c.broken)
    ensures Feasible(c, s, path) && OneRound(c, s.released, path) && RoundDone(c, s, After(c, s, path))
  {
    hide Inv, All, After, Feasible, ProfileOf, RoundEnd;
    path := ReachWaiting(c, s);
    var s1 := After(c, s, path);
    var rest := AckRound(c, s1);
    FeasibleAppend(c, s, path, rest);
    path := path + rest;
  }

  // ---------------------------------------------------------------- the whole file

  /** How many windows the rest of the file takes. */
  function Rounds(c: Config, released: nat): nat
    requires ValidConfig(c)
    decreases |All(c)| - released
  {
    if released >= |All(c)| then 0 else 1 + Rounds(c, RoundEnd(c, released))
  }

  /** Strictly ascending, above lo and up to hi. */
  predicate Ascending(d: seq<nat>, lo: nat, hi: nat) {
    && (forall i :: 0 <= i < |d| ==> lo < d[i] <= hi)
    && (forall i, j :: 0 <= i < j < |d| ==> d[i] < d[j])
  }

  lemma RangeAscending(d: seq<nat>, from: nat, n: nat)
    requires d <= Range(from, n)
    ensures Ascending(d, from, from + n)
  {
    hide Range;
    assert forall i :: 0 <= i < |d| ==> d[i] == Range(from, n)[i];
  }

  /** Completion: from every state with both sides running, an unbroken file is
      transferred to the end, with one sender timeout for each window that is left, the
      DATA delivered in order, and nothing that fails; then the sender returns OK and
      the receiver has the file. */
  lemma {:induction false} TransferCompletes(c: Config, s: System) returns (path: seq<Action>)
    requires ValidConfig(c) && Running(c, s) && !c.broken
    ensures Feasible(c, s, path)
    ensures var p := ProfileOf(path);
      p.kind && p.timeouts == Rounds(c, s.released) && Ascending(p.data, s.released, |All(c)|)
    ensures var s' := After(c, s, path);
      Inv(c, s') && s'.snd.phase == S.Stopped(Ok) && s'.finished && s'.writer.sink.file == c.file
    decreases |All(c)| - s.released
  {
    hide Inv, All, After, Feasible, ProfileOf;
    RoundEndIs(c, s);
    path := WindowGetsAcknowledged(c, s);
    var s1 := After(c, s, path);
    var p1 := ProfileOf(path);
    RangeAscending(p1.data, s.released, RoundEnd(c, s.released) - s.released);
    if s1.snd.phase.Loading? {
      RoundEndIs(c, s1);
      var rest := TransferCompletes(c, s1);
      FeasibleAppend(c, s, path, rest);
      path := path + rest;
    } else {
      DoneMeansCopied(c, s1);
    }
  }

  lemma DoneMeansCopied(c: Config, s: System)
    requires ValidConfig(c) && Inv(c, s) && s.snd.phase == S.Stopped(Ok)
    ensures s.finished && s.writer.sink.file == c.file
  {
    hide RR.Inv, WR.Inv, NetOk, ReaderOk, ReceiverOk, All, Number, Bytes, Unthreaded, WR.FileIs;
  }

  // ------------------------------------------------------------------ from the start

  /** What a transfer needs to be completed: room in the ring and within the size limit,
      a file that can be read, and a window below the period. */
  predicate Completable(c: Config) {
    && ValidConfig(c) && RoomyWriter(c) && |Stream(c.convert, c.file)| <= c.maxBytes && !c.broken
    && c.window < Period(c.rollover)
  }

  /** The receiving engine starts. */
  lemma Starts(c: Config, reply: Option<Packet>)
    requires Completable(c) && (reply.Some? ==> reply.value == Ack(0) || reply.value == Oack)
    ensures Inv(c, Start(c)) && Basic(Start(c)) && Enabled(c, Start(c), ReceiverStarts(reply, None))
    ensures var s := Next(c, Start(c), ReceiverStarts(reply, None));
      Running(c, s) && s.released == 0 && s.snd.phase.Loading? && s.rcv.value == R.Initial(reply, None)
  {
    hide Inv, RR.Start, WR.Start, Stream, WR.WellFormed, RR.WellFormed;
    StartInv(c);
    InvBasic(c, Start(c));
    StepInv(c, Start(c), ReceiverStarts(reply, None));
    FreshRing(c);
  }

  lemma FreshRing(c: Config)
    requires ValidConfig(c)
    ensures !Start(c).writer.error
  {
  }

  /** The states along a path. */
  ghost function StatesOf(c: Config, s: System, path: seq<Action>): (states: seq<System>)
    requires Feasible(c, s, path)
    ensures |states| == |path| + 1 && states[0] == s && states[|path|] == After(c, s, path)
    decreases |path|
  {
    if path == [] then [s] else [s] + StatesOf(c, Next(c, s, path[0]), path[1..])
  }

  lemma {:induction false} PathSteps(c: Config, s: System, path: seq<Action>, i: nat)
    requires Feasible(c, s, path) && i < |path|
    ensures IsStep(c, StatesOf(c, s, path)[i], path[i], StatesOf(c, s, path)[i + 1])
    decreases i
  {
    hide Enabled, Next, Basic, After;
    if i > 0 {
      PathSteps(c, Next(c, s, path[0]), path[1..], i - 1);
    }
  }

  /** A path from the start is a run. */
  lemma PathIsRun(c: Config, path: seq<Action>)
    requires ValidConfig(c) && Feasible(c, Start(c), path)
    ensures IsRun(c, StatesOf(c, Start(c), path), path)
  {
    hide Enabled, Next, Basic, After, IsStep, Feasible;
    forall i | 0 <= i < |path|
      ensures IsStep(c, StatesOf(c, Start(c), path)[i], path[i], StatesOf(c, Start(c), path)[i + 1])
    {
      PathSteps(c, Start(c), path, i);
    }
  }

  /** There is a run that ends with the sender's OK and the file copied. */
  lemma SomeRunCompletes(c: Config) returns (states: seq<System>, actions: seq<Action>)
    requires Completable(c)
    ensures IsRun(c, states, actions)
    ensures states[|actions|].snd.phase == S.Stopped(Ok) && states[|actions|].writer.sink.file == c.file
  {
    hide Inv, Enabled, Next, Basic, After, Feasible;
    Starts(c, None);
    var a := ReceiverStarts(None, None);
    var rest := TransferCompletes(c, Next(c, Start(c), a));
    FeasibleCons(c, Start(c), a, rest);
    actions := [a] + rest;
    states := StatesOf(c, Start(c), actions);
    PathIsRun(c, actions);
  }

  /** Some run ends with the sender's OK. */
  ghost predicate CanComplete(c: Config)
    requires ValidConfig(c)
  {
    exists states: seq<System>, actions: seq<Action> ::
      IsRun(c, states, actions) && states[|actions|].snd.phase == S.Stopped(Ok)
  }

  /** A sender that has returned OK has read the whole file, and the receiver has taken
      it within its size limit. */
  lemma OkNeeds(c: Config, s: System)
    requires ValidConfig(c) && Inv(c, s) && s.snd.phase == S.Stopped(Ok)
    ensures !c.broken && |Stream(c.convert, c.file)| <= c.maxBytes
  {
    hide WR.Inv, NetOk, Blocks, Number, Unthreaded, Bytes, WR.FileIs, Flatten;
    assert s.published == All(c)[..|All(c)|] == All(c);
    assert s.rcv.value.bytes == Bytes(s.published);
    BytesOfAll(c);
  }

  lemma BytesOfAll(c: Config)
    requires c.blocksize > 0
    ensures Bytes(All(c)) == |Stream(c.convert, c.file)|
  {
    FlattenBlocks(Stream(c.convert, c.file), c.blocksize);
  }

  /** A transfer can be completed if and only if the file can be read to its end and is
      within the size limit. */
  lemma CompletesExactly(c: Config)
    requires ValidConfig(c) && RoomyWriter(c) && c.window < Period(c.rollover)
    ensures CanComplete(c) <==> !c.broken && |Stream(c.convert, c.file)| <= c.maxBytes
  {
    hide Inv, Stream, IsStep;
    if CanComplete(c) {
      var states: seq<System>, actions: seq<Action> :|
        IsRun(c, states, actions) && states[|actions|].snd.phase == S.Stopped(Ok);
      RunInv(c, states, actions, |actions|);
      OkNeeds(c, states[|actions|]);
    }
    if !c.broken && |Stream(c.convert, c.file)| <= c.maxBytes {
      var states, actions := SomeRunCompletes(c);
    }
  }
}
