/** The transfer on a network that delivers packets however late: for exactly which files
    the guarantees of the guarded network still hold. */
module TransferLate {
  import opened Netascii
  import opened Wrappers
  import opened BlockNumber
  import opened Packets
  import opened TransferSystem
  import opened TransferSafety
  import opened TransferProgress
  import opened TransferCompletion
  import opened TransferStaleness
  import S = Sender
  import R = Receiver
  import RR = ReaderRing
  import WR = WriterRing

  // ---------------------------------------------------------------------- late runs

  /** The steps of the network without a bound on lateness: any ACK and any DATA that was
      ever sent may arrive. */
  ghost predicate LateEnabled(c: Config, s: System, a: Action) {
    if a.SenderGets? then s.snd.phase.Waiting? && a.ack in s.net && a.ack.packet.Ack?
    else if a.ReceiverGets? then InPhase(s, (p: R.Phase) => p.Listening?) && a.data in s.net && a.data.packet.Data?
    else if a.ReceiverStarts? then
      && s.rcv.None?
      && (a.reply.Some? ==> a.reply.value == Ack(0) || a.reply.value == Oack)
      && (a.early.Some? ==> var f := a.early.value; f in s.net && f.packet.Data? && f.packet.block == 1)
    else Enabled(c, s, a)
  }

  ghost function LateNext(c: Config, s: System, a: Action): System
    requires Basic(s) && LateEnabled(c, s, a)
  {
    if a.SenderGets? then SenderNext(c, s, a)
    else if a.ReceiverGets? then ReceiverNext(c, s, a)
    else if a.ReceiverStarts? then
      s.(rcv := Some(R.Initial(a.reply, if a.early.Some? then Some(a.early.value.packet) else None)))
    else Next(c, s, a)
  }

  ghost predicate IsLateStep(c: Config, s: System, a: Action, s': System) {
    Basic(s) && LateEnabled(c, s, a) && s' == LateNext(c, s, a)
  }

  ghost predicate IsLateRun(c: Config, states: seq<System>, actions: seq<Action>)
    requires ValidConfig(c)
  {
    && |states| == |actions| + 1 && states[0] == Start(c)
    && forall i :: 0 <= i < |actions| ==> IsLateStep(c, states[i], actions[i], states[i + 1])
  }

  /** Every step of the guarded network is one of these. */
  lemma StepIsLate(c: Config, s: System, a: Action)
    requires Basic(s) && Enabled(c, s, a)
    ensures LateEnabled(c, s, a) && LateNext(c, s, a) == Next(c, s, a)
  {
    hide SenderNext, ReceiverNext, Basic, Stale;
  }

  lemma RunIsLate(c: Config, states: seq<System>, actions: seq<Action>)
    requires ValidConfig(c) && IsRun(c, states, actions)
    ensures IsLateRun(c, states, actions)
  {
    hide Basic, Enabled, LateEnabled, Next, LateNext;
    forall i | 0 <= i < |actions| ensures IsLateStep(c, states[i], actions[i], states[i + 1]) {
      assert IsStep(c, states[i], actions[i], states[i + 1]);
      StepIsLate(c, states[i], actions[i]);
    }
  }

  // ------------------------------------------------------------------- short files

  /** In a state of the guarded network no DATA can be mistaken if the file has no block
      whose number comes again. */
  lemma DataIsFresh(c: Config, s: System, f: Flight)
    requires ValidConfig(c) && Inv(c, s) && f in s.net && f.packet.Data?
    requires s.rcv.None? || s.rcv.value.phase.Listening?
    requires |All(c)| < FirstRepeated(c.rollover) + Period(c.rollover)
    ensures FreshData(c, s, f)
  {
    hide RR.Inv, WR.Inv, NetOk, SenderOk, ReaderOk, All, Num, Stale, Unthreaded, Bytes, Linked, WR.FileIs;
    DataNumber(c, s, f);
    if Stale(c, f.index, |s.published| + 1) {
      StaleGap(c, f.index, |s.published| + 1);
    }
  }

  /** An ACK that is late by whole periods of the window's end needs 65536 blocks. */
  lemma AckIsFresh(c: Config, s: System, f: Flight)
    requires ValidConfig(c) && Inv(c, s) && s.snd.phase.Waiting? && f in s.net && f.packet.Ack?
    ensures FreshAck(c, s, f) || (WindowEnd(s) >= 65536 && WindowEnd(s) <= |All(c)|)
  {
    hide Inv, All, Stale;
    WindowFacts(c, s);
    if Stale(c, f.index, WindowEnd(s)) {
      StaleGap(c, f.index, WindowEnd(s));
    }
  }

  /** Below 65536 blocks a late step is a step. */
  lemma LateIsStep(c: Config, s: System, a: Action)
    requires ValidConfig(c) && Inv(c, s) && Basic(s) && LateEnabled(c, s, a) && |All(c)| < 65536
    ensures Enabled(c, s, a) && LateNext(c, s, a) == Next(c, s, a)
  {
    hide Inv, Basic, All, SenderNext, ReceiverNext, FreshData, FreshAck;
    if a.SenderGets? {
      AckIsFresh(c, s, a.ack);
    } else if a.ReceiverGets? {
      DataIsFresh(c, s, a.data);
    } else if a.ReceiverStarts? && a.early.Some? {
      DataIsFresh(c, s, a.early.value);
    }
  }

  lemma {:induction false} ShortRunInv(c: Config, states: seq<System>, actions: seq<Action>, i: nat)
    requires ValidConfig(c) && IsLateRun(c, states, actions) && i < |states| && |All(c)| < 65536
    ensures Inv(c, states[i])
  {
    hide Inv, Basic, Enabled, Next, LateEnabled, LateNext, All;
    if i == 0 {
      StartInv(c);
    } else {
      ShortRunInv(c, states, actions, i - 1);
      assert IsLateStep(c, states[i - 1], actions[i - 1], states[i]);
      LateIsStep(c, states[i - 1], actions[i - 1]);
      StepInv(c, states[i - 1], actions[i - 1]);
    }
  }

  // --------------------------------------------------------------- the sender's OK

  /** The sender's OK means that the file has been copied, in every late run. */
  ghost predicate OkIsTrue(c: Config)
    requires ValidConfig(c)
  {
    forall states: seq<System>, actions: seq<Action> ::
      IsLateRun(c, states, actions) && states[|actions|].snd.phase == S.Stopped(Ok) ==>
        states[|actions|].finished && states[|actions|].writer.sink.file == c.file
  }

  /** A late run goes on with a late step. */
  lemma LateRunOn(c: Config, states: seq<System>, actions: seq<Action>, a: Action)
    requires ValidConfig(c) && IsLateRun(c, states, actions)
    requires var s := states[|actions|]; Basic(s) && LateEnabled(c, s, a)
    ensures IsLateRun(c, states + [LateNext(c, states[|actions|], a)], actions + [a])
  {
    hide Basic, LateEnabled, LateNext, Start;
    var s := states[|actions|];
    var states', actions' := states + [LateNext(c, s, a)], actions + [a];
    forall i | 0 <= i < |actions'| ensures IsLateStep(c, states'[i], actions'[i], states'[i + 1]) {
      if i < |actions| {
        assert IsLateStep(c, states[i], actions[i], states[i + 1]);
      }
    }
  }

  /** From 65536 blocks on there is a late run in which the sender's OK is false. */
  lemma LateFalseOk(c: Config) returns (states: seq<System>, actions: seq<Action>)
    requires Completable(c) && |All(c)| >= 65536
    ensures IsLateRun(c, states, actions)
    ensures var s := states[|actions|]; s.snd.phase == S.Stopped(Ok) && !s.finished && |s.published| < |All(c)|
  {
    hide Inv, All, Basic, LateEnabled, LateNext, IsStep, IsLateStep, Stream, S.Step;
    var f;
    states, actions, f := FalseOk(c);
    RunInv(c, states, actions, |actions|);
    var s, a := states[|actions|], SenderGets(f);
    InvBasic(c, s);
    StaleRelease(c, s, f);
    RunIsLate(c, states, actions);
    LateRunOn(c, states, actions, a);
    states, actions := states + [LateNext(c, s, a)], actions + [a];
  }

  lemma StaleRelease(c: Config, s: System, f: Flight)
    requires Basic(s) && AckMistaken(c, s, f)
    ensures LateEnabled(c, s, SenderGets(f))
    ensures var s' := LateNext(c, s, SenderGets(f));
      && s'.snd == S.Step(SendConfig(c), s.snd, S.Received(f.packet))
      && s'.finished == s.finished && s'.published == s.published
  {
    hide S.Step, RR.WellFormed, WR.WellFormed;
  }

  /** On a network that delivers packets however late, the sender's OK means that the file
      has been copied if and only if the file has fewer than 65536 blocks. */
  lemma OkIsTrueExactly(c: Config)
    requires Completable(c)
    ensures OkIsTrue(c) <==> |All(c)| < 65536
  {
    hide Inv, All, IsLateStep, Stream;
    if |All(c)| < 65536 {
      forall states: seq<System>, actions: seq<Action> |
        IsLateRun(c, states, actions) && states[|actions|].snd.phase == S.Stopped(Ok)
        ensures states[|actions|].finished && states[|actions|].writer.sink.file == c.file
      {
        ShortRunInv(c, states, actions, |actions|);
        DoneMeansCopied(c, states[|actions|]);
      }
    } else {
      var states, actions := LateFalseOk(c);
    }
  }

  // ------------------------------------------------------------ packets that are mistaken

  ghost predicate SomeLateRunMistakesAck(c: Config)
    requires ValidConfig(c)
  {
    exists states: seq<System>, actions: seq<Action>, f: Flight ::
      IsLateRun(c, states, actions) && AckMistaken(c, states[|actions|], f)
  }

  ghost predicate SomeLateRunMistakesData(c: Config)
    requires ValidConfig(c)
  {
    exists states: seq<System>, actions: seq<Action>, f: Flight ::
      IsLateRun(c, states, actions) && DataMistaken(c, states[|actions|], f)
  }

  /** However late packets may be, an ACK can be taken for that of another window's end if
      and only if the file has at least 65536 blocks, whatever the rollover value. */
  lemma AckMistakenExactly(c: Config)
    requires Completable(c)
    ensures SomeLateRunMistakesAck(c) <==> |All(c)| >= 65536
  {
    hide Inv, All, AckMistaken, IsLateStep, IsStep, Stream, S.Step;
    if SomeLateRunMistakesAck(c) && |All(c)| < 65536 {
      var states: seq<System>, actions: seq<Action>, f: Flight :|
        IsLateRun(c, states, actions) && AckMistaken(c, states[|actions|], f);
      ShortRunInv(c, states, actions, |actions|);
      MistakenAckNeedsBlocks(c, states[|actions|], f);
    }
    if |All(c)| >= 65536 {
      var states, actions, f := FalseOk(c);
      RunIsLate(c, states, actions);
    }
  }

  /** The sender, its ring and its count of released blocks as they are in g. */
  function WithSender(s: System, g: System): System {
    s.(snd := g.snd, reader := g.reader, released := g.released)
  }

  /** Up to the sending program, s is a state of the guarded network: either it is one, or
      the sender has stopped on a mistaken ACK and g is what it would be had it not. */
  ghost predicate Shadows(c: Config, s: System, g: System)
    requires ValidConfig(c)
  {
    Inv(c, g) && g == WithSender(s, g) && (g == s || s.snd.phase.Stopped?)
  }

  /** The steps of the receiving side do not look at the sending program. */
  lemma ReceivingSide(c: Config, s: System, g: System, a: Action)
    requires Basic(s) && Basic(g) && g == WithSender(s, g) && LateEnabled(c, s, a) && !IsSender(a) && !a.ReaderThread?
    ensures LateEnabled(c, g, a)
    ensures LateNext(c, g, a) == WithSender(LateNext(c, s, a), g) && LateNext(c, s, a).snd == s.snd
  {
    hide Basic, LateEnabled, LateNext;
    if IsReceiver(a) {
      ReceiverSide(c, s, g, a);
    } else {
      OtherSide(c, s, g, a);
    }
  }

  lemma ReceiverSide(c: Config, s: System, g: System, a: Action)
    requires Basic(s) && Basic(g) && g == WithSender(s, g) && LateEnabled(c, s, a) && IsReceiver(a)
    ensures LateEnabled(c, g, a)
    ensures LateNext(c, g, a) == WithSender(LateNext(c, s, a), g) && LateNext(c, s, a).snd == s.snd
  {
    hide ReceiverNext, LateEnabled, LateNext;
    EnabledSide(c, s, g, a);
    LateReceiver(c, s, a);
    LateReceiver(c, g, a);
    ReceiverFrame(c, s, g, a);
  }

  lemma EnabledSide(c: Config, s: System, g: System, a: Action)
    requires g == WithSender(s, g) && LateEnabled(c, s, a) && IsReceiver(a)
    ensures LateEnabled(c, g, a)
  {
    hide WR.WellFormed, FreshData, WR.CanReserve, WR.CanPublish, WR.CanFlush;
  }

  /** What a step of the receiving engine needs. */
  ghost predicate ReceiverReady(s: System, a: Action) {
    && IsReceiver(a) && s.rcv.Some? && R.Valid(s.rcv.value) && WR.WellFormed(s.writer)
    && R.Answers(s.rcv.value, ReceiverEvent(a))
    && (a.Reserve? ==> WR.CanReserve(s.writer))
    && (a.Publish? ==> WR.CanPublish(s.writer, |s.rcv.value.phase.data|))
    && (a.EndFlush? ==> s.writer.flushing)
    && s.rcv.value.inWindow <= |s.published|
  }

  lemma LateReceiver(c: Config, s: System, a: Action)
    requires Basic(s) && LateEnabled(c, s, a) && IsReceiver(a)
    ensures ReceiverReady(s, a) && LateNext(c, s, a) == ReceiverNext(c, s, a)
  {
    hide ReceiverNext, WR.WellFormed, RR.WellFormed, FreshData, WR.CanReserve, WR.CanPublish, WR.CanFlush, S.Valid;
  }

  lemma ReceiverFrame(c: Config, s: System, g: System, a: Action)
    requires ReceiverReady(s, a) && ReceiverReady(g, a) && g == WithSender(s, g)
    ensures ReceiverNext(c, g, a) == WithSender(ReceiverNext(c, s, a), g) && ReceiverNext(c, s, a).snd == s.snd
  {
    hide R.Step, R.Emitted, WR.WellFormed, WR.Publish, WR.Store, WR.CanReserve, WR.CanPublish, WR.Reserve;
  }

  lemma OtherSide(c: Config, s: System, g: System, a: Action)
    requires Basic(s) && Basic(g) && g == WithSender(s, g) && LateEnabled(c, s, a)
    requires !IsReceiver(a) && !IsSender(a) && !a.ReaderThread?
    ensures LateEnabled(c, g, a)
    ensures LateNext(c, g, a) == WithSender(LateNext(c, s, a), g) && LateNext(c, s, a).snd == s.snd
  {
    hide RR.WellFormed, WR.WellFormed, S.Valid, FreshData, WR.ThreadStep, WR.WriterEnabled, WR.CanFlush;
  }

  /** A stale ACK is possible only for the last window of a file of 65536 blocks. */
  lemma StaleIsLast(c: Config, s: System, f: Flight)
    requires ValidConfig(c) && Inv(c, s) && s.snd.phase.Waiting? && f in s.net && f.packet.Ack? && !FreshAck(c, s, f)
    requires |All(c)| < FirstRepeated(c.rollover) + Period(c.rollover)
    ensures var snd := S.Step(SendConfig(c), s.snd, S.Received(f.packet)); snd.phase == S.Stopped(Ok)
  {
    hide Inv, All, Stale, S.Step;
    AckIsFresh(c, s, f);
    WindowReleased(c, s, f);
    LastIsFinal(c, s);
    WindowFacts(c, s);
  }

  lemma LastIsFinal(c: Config, s: System)
    requires ValidConfig(c) && Inv(c, s) && s.snd.phase.Waiting?
    ensures WindowEnd(s) == |All(c)| ==> s.snd.final
  {
    hide RR.Inv, WR.Inv, NetOk, ReceiverOk, ReaderOk, WriterOk, All, Number, Unthreaded, Bytes;
  }

  lemma SenderFrame(c: Config, s: System, f: Flight)
    requires Basic(s) && LateEnabled(c, s, SenderGets(f))
    ensures var s' := LateNext(c, s, SenderGets(f));
      s == WithSender(s', s) && s'.snd == S.Step(SendConfig(c), s.snd, S.Received(f.packet))
  {
    hide S.Step, RR.WellFormed, WR.WellFormed;
  }

  lemma ReaderFrame(c: Config, s: System)
    requires Basic(s) && Enabled(c, s, ReaderThread)
    ensures var s' := LateNext(c, s, ReaderThread); s' == s.(reader := s'.reader)
  {
    hide RR.ThreadStep, RR.WellFormed, WR.WellFormed;
  }

  /** If no block's number comes again, every late step keeps such a state. */
  lemma LateStepShadows(c: Config, s: System, g: System, a: Action) returns (g': System)
    requires ValidConfig(c) && |All(c)| < FirstRepeated(c.rollover) + Period(c.rollover)
    requires Shadows(c, s, g) && Basic(s) && LateEnabled(c, s, a)
    ensures Shadows(c, LateNext(c, s, a), g')
  {
    hide Inv, Basic, All, Enabled, Next, LateEnabled, LateNext, S.Step;
    InvBasic(c, g);
    if s.snd.phase.Stopped? && g != s {
      StoppedSender(c, s, a);
      if a.ReaderThread? {
        ReaderIsEnabled(c, s);
        ReaderFrame(c, s);
        g' := g;
      } else {
        ReceivingSide(c, s, g, a);
        LateDataIsStep(c, g, a);
        StepInv(c, g, a);
        g' := Next(c, g, a);
      }
    } else if a.SenderGets? && !FreshAck(c, s, a.ack) {
      GetsAreAcks(c, s, a);
      StaleIsLast(c, s, a.ack);
      SenderFrame(c, s, a.ack);
      g' := s;
    } else {
      LateDataIsStep(c, s, a);
      StepInv(c, s, a);
      g' := Next(c, s, a);
    }
  }

  lemma StoppedSender(c: Config, s: System, a: Action)
    requires s.snd.phase.Stopped? && LateEnabled(c, s, a)
    ensures !IsSender(a)
  {
    hide FreshData, RR.CanClaim, WR.WellFormed;
  }

  lemma ReaderIsEnabled(c: Config, s: System)
    requires LateEnabled(c, s, ReaderThread)
    ensures Enabled(c, s, ReaderThread)
  {
  }

  lemma GetsAreAcks(c: Config, s: System, a: Action)
    requires a.SenderGets? && LateEnabled(c, s, a)
    ensures s.snd.phase.Waiting? && a.ack in s.net && a.ack.packet.Ack?
  {
  }

  /** A late step that brings no stale ACK is a step. */
  lemma LateDataIsStep(c: Config, s: System, a: Action)
    requires ValidConfig(c) && Inv(c, s) && Basic(s) && LateEnabled(c, s, a)
    requires a.SenderGets? ==> FreshAck(c, s, a.ack)
    requires |All(c)| < FirstRepeated(c.rollover) + Period(c.rollover)
    ensures Enabled(c, s, a) && LateNext(c, s, a) == Next(c, s, a)
  {
    hide Inv, Basic, All, SenderNext, ReceiverNext, FreshData, FreshAck;
    if a.ReceiverGets? {
      DataIsFresh(c, s, a.data);
    } else if a.ReceiverStarts? && a.early.Some? {
      DataIsFresh(c, s, a.early.value);
    }
  }

  lemma {:induction false} LateRunShadowed(c: Config, states: seq<System>, actions: seq<Action>, i: nat)
    returns (g: System)
    requires ValidConfig(c) && IsLateRun(c, states, actions) && i < |states|
    requires |All(c)| < FirstRepeated(c.rollover) + Period(c.rollover)
    ensures Shadows(c, states[i], g)
  {
    hide Inv, Basic, LateEnabled, LateNext, All;
    if i == 0 {
      StartInv(c);
      g := Start(c);
    } else {
      var g0 := LateRunShadowed(c, states, actions, i - 1);
      assert IsLateStep(c, states[i - 1], actions[i - 1], states[i]);
      g := LateStepShadows(c, states[i - 1], g0, actions[i - 1]);
    }
  }

  /** However late packets may be, a DATA can be taken for another block if and only if the
      file has a block whose number comes again: at least 65537 blocks with rollover 0,
      else 65536. */
  lemma DataMistakenExactly(c: Config)
    requires Completable(c)
    ensures SomeLateRunMistakesData(c) <==> |All(c)| >= FirstRepeated(c.rollover) + Period(c.rollover)
  {
    hide Inv, All, IsLateStep, IsStep, Stream;
    if SomeLateRunMistakesData(c) && |All(c)| < FirstRepeated(c.rollover) + Period(c.rollover) {
      var states: seq<System>, actions: seq<Action>, f: Flight :|
        IsLateRun(c, states, actions) && DataMistaken(c, states[|actions|], f);
      var g := LateRunShadowed(c, states, actions, |actions|);
      MistakenDataNeedsBlocks(c, g, f);
    }
    if |All(c)| >= FirstRepeated(c.rollover) + Period(c.rollover) {
      var states, actions, f := MistakenDataReached(c);
      RunIsLate(c, states, actions);
    }
  }
}
