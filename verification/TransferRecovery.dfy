/** What each packet, timeout and failure makes the two engines do, stated over the
    steps of the whole system and the indices of its blocks. */
module TransferRecovery {
  import opened Netascii
  import opened Wrappers
  import opened Modular
  import opened BlockNumber
  import opened Packets
  import opened TransferSystem
  import opened TransferSafety
  import S = Sender
  import R = Receiver
  import RR = ReaderRing
  import WR = WriterRing

  // ----------------------------------------------------------------- the sender

  /** The system with only the sending engine's phase changed. */
  function SenderAt(s: System, p: S.Phase): System {
    s.(snd := s.snd.(phase := p))
  }

  lemma WindowPacketFits(c: Config, s: System, i: nat)
    requires ValidConfig(c) && Inv(c, s) && i < |s.snd.window|
    ensures s.snd.window[i].Data? && |s.snd.window[i].data| <= c.blocksize
  {
    hide NetOk, ReaderOk, ReceiverOk, WriterOk, RR.Inv, WR.Inv, Unthreaded, All, Number, Linked, InHandSent;
    BlockFits(c, s.released + i);
  }

  /** A step of the engine that stays within its window changes nothing else. */
  lemma SenderStays(c: Config, s: System, a: Action, p: S.Phase)
    requires IsSender(a) && !a.LoadWindow? && Basic(s) && Enabled(c, s, a)
    requires S.Answers(s.snd, SenderEvent(s, a)) && S.Emitted(s.snd, SenderEvent(s, a)) == []
    requires S.Step(SendConfig(c), s.snd, SenderEvent(s, a)) == s.snd.(phase := p)
    requires s.snd.window != []
    ensures Next(c, s, a) == SenderAt(s, p)
  {
    hide S.Step, S.Emitted, RR.WellFormed, WR.WellFormed;
  }

  lemma NotStaleAhead(c: Config, i: nat, n: nat)
    requires i >= n
    ensures !Stale(c, i, n)
  {
  }

  /** An ACK for packet i of the window, the first of its number and not the last packet:
      the sender goes back to the packet after it. */
  lemma AckAtPacket(c: Config, s: System, f: Flight, i: nat)
    requires ValidConfig(c) && Inv(c, s) && Enabled(c, s, SenderGets(f))
    requires i + 1 < |s.snd.window| && f.packet.block == s.snd.window[i].block
    requires forall j :: 0 <= j < i ==> s.snd.window[j].block != f.packet.block
    requires s.snd.window[|s.snd.window| - 1].block != f.packet.block
    ensures Next(c, s, SenderGets(f)) == SenderAt(s, S.Sending(i + 1))
  {
    hide Inv, Stale, RR.WellFormed, WR.WellFormed;
    InvBasic(c, s);
    assert S.Confirmed(s.snd.window, f.packet.block, 0) == i;
    WindowPacketFits(c, s, i + 1);
    SenderStays(c, s, SenderGets(f), S.Sending(i + 1));
  }

  /** A fresh ACK for the first packets of the window, but not for all of them, makes the
      sender go back to the first packet that it does not cover. */
  lemma PartialAckResends(c: Config, s: System, f: Flight)
    requires ValidConfig(c) && Inv(c, s) && Enabled(c, s, SenderGets(f))
    requires s.released < f.index < s.released + |s.snd.window|
    ensures Next(c, s, SenderGets(f)) == SenderAt(s, S.Sending(f.index - s.released))
  {
    hide Inv, Stale, RR.WellFormed, WR.WellFormed;
    InvBasic(c, s);
    var w, i: nat := s.snd.window, f.index - s.released - 1;
    forall j: nat | j < i ensures w[j].block != f.packet.block {
      AckNumber(c, s, f, j);
      NotStaleAhead(c, f.index, s.released + j + 1);
    }
    AckNumber(c, s, f, i);
    AckNumber(c, s, f, |w| - 1);
    AckAtPacket(c, s, f, i);
  }

  /** An ACK late by whole periods of packet i, and of none before it, passes for an ACK
      of that packet. */
  lemma LateAckResends(c: Config, s: System, f: Flight, i: nat)
    requires ValidConfig(c) && Inv(c, s) && Enabled(c, s, SenderGets(f))
    requires i + 1 < |s.snd.window| && Stale(c, f.index, s.released + i + 1) && f.index <= s.released
    requires forall n :: s.released < n <= s.released + i ==> !Stale(c, f.index, n)
    ensures Next(c, s, SenderGets(f)) == SenderAt(s, S.Sending(i + 1))
  {
    hide Inv, Stale, RR.WellFormed, WR.WellFormed;
    InvBasic(c, s);
    var w := s.snd.window;
    forall j: nat | j < i ensures w[j].block != f.packet.block {
      AckNumber(c, s, f, j);
      assert !Stale(c, f.index, s.released + j + 1);
    }
    AckNumber(c, s, f, i);
    AckNumber(c, s, f, |w| - 1);
    AckAtPacket(c, s, f, i);
  }

  /** An ACK from before the window, late by whole periods of none of its packets, changes
      nothing. */
  lemma OldAckIgnored(c: Config, s: System, f: Flight)
    requires ValidConfig(c) && Inv(c, s) && Enabled(c, s, SenderGets(f)) && f.index <= s.released
    requires forall n :: s.released < n <= s.released + |s.snd.window| ==> !Stale(c, f.index, n)
    ensures Next(c, s, SenderGets(f)) == s
  {
    hide Inv, Stale, RR.WellFormed, WR.WellFormed;
    InvBasic(c, s);
    forall j: nat | j < |s.snd.window| ensures s.snd.window[j].block != f.packet.block {
      AckNumber(c, s, f, j);
      assert !Stale(c, f.index, s.released + j + 1);
    }
    SenderStays(c, s, SenderGets(f), S.Waiting);
  }

  /** The ACK for the whole window releases it: the sender loads the next one, or has
      finished when the window reached the end of the file. */
  lemma FullAckReleases(c: Config, s: System, f: Flight)
    requires ValidConfig(c) && Inv(c, s) && Enabled(c, s, SenderGets(f))
    requires f.index == s.released + |s.snd.window|
    ensures var s' := Next(c, s, SenderGets(f));
      && s'.released == f.index && s'.snd.window == [] && s'.net == s.net && s'.rcv == s.rcv
      && s'.snd.phase == if f.index == |All(c)| then S.Stopped(Ok) else S.Loading
  {
    hide NetOk, ReaderOk, ReceiverOk, WriterOk, RR.Inv, WR.Inv, Unthreaded, All, Number, Linked, InHandSent, Stale;
    AckNumber(c, s, f, |s.snd.window| - 1);
  }

  /** An ERROR ends the transfer; an OACK makes a sender that answers it send the whole
      window again; every other packet is ignored. */
  lemma OtherPacketEffect(c: Config, s: System, p: Packet)
    requires ValidConfig(c) && Inv(c, s) && Enabled(c, s, SenderGetsOther(p))
    ensures Next(c, s, SenderGetsOther(p)) ==
      if p.Error? then SenderAt(s, S.Stopped(PeerError))
      else if p.Oack? && c.resendOack then SenderAt(s, S.Sending(0))
      else s
  {
    hide Inv, RR.WellFormed, WR.WellFormed;
    InvBasic(c, s);
    WindowPacketFits(c, s, 0);
    SenderStays(c, s, SenderGetsOther(p), if p.Error? then S.Stopped(PeerError)
                                          else if p.Oack? && c.resendOack then S.Sending(0) else S.Waiting);
  }

  /** A timeout makes the sender send the whole window again. */
  lemma SenderTimeoutResends(c: Config, s: System)
    requires ValidConfig(c) && Inv(c, s) && Enabled(c, s, SenderTimesOut)
    ensures Next(c, s, SenderTimesOut) == SenderAt(s, S.Sending(0))
  {
    hide Inv, RR.WellFormed, WR.WellFormed;
    InvBasic(c, s);
    WindowPacketFits(c, s, 0);
    SenderStays(c, s, SenderTimesOut, S.Sending(0));
  }

  /** Each failure ends the sender with its own status. */
  lemma SenderFailures(c: Config, s: System)
    requires ValidConfig(c) && Inv(c, s)
    ensures Enabled(c, s, LoadFails) ==> Next(c, s, LoadFails) == SenderAt(s, S.Stopped(ReadError))
    ensures Enabled(c, s, SenderSends(false)) ==> Next(c, s, SenderSends(false)) == SenderAt(s, S.Stopped(SendError))
    ensures Enabled(c, s, SenderRecvFails) ==> Next(c, s, SenderRecvFails) == SenderAt(s, S.Stopped(RecvError))
  {
    hide Inv, RR.WellFormed, WR.WellFormed;
    InvBasic(c, s);
  }

  /** A send that succeeds puts the packet on the wire and moves on to the next one. */
  lemma SendEffect(c: Config, s: System)
    requires ValidConfig(c) && Inv(c, s) && s.snd.phase.Sending?
    ensures var n := s.snd.phase.next;
      && n < |s.snd.window| && Basic(s) && Enabled(c, s, SenderSends(true))
      && Next(c, s, SenderSends(true)) ==
           SenderAt(s, if n + 1 < |s.snd.window| then S.Sending(n + 1) else S.Waiting)
           .(net := s.net + {Flight(s.snd.window[n], s.released + n + 1)})
  {
    hide Inv, RR.WellFormed, WR.WellFormed;
    InvBasic(c, s);
    var n := s.snd.phase.next;
    if n + 1 < |s.snd.window| {
      WindowPacketFits(c, s, n + 1);
    }
  }

  /** Packets n to n + k - 1 of the window, as they go over the wire. */
  ghost function Slice(s: System, n: nat, k: nat): set<Flight>
    requires n + k <= |s.snd.window|
  {
    set i | n <= i < n + k :: Flight(s.snd.window[i], s.released + i + 1)
  }

  /** Sends that succeed, one after the other: k of them from packet n on put exactly the
      k packets from there on the wire, and when none is left the sender waits. */
  lemma {:induction false} SuffixResent(c: Config, states: seq<System>, n: nat, k: nat)
    requires ValidConfig(c) && |states| > k && Inv(c, states[0]) && states[0].snd.phase == S.Sending(n)
    requires n + k <= |states[0].snd.window|
    requires forall i :: 0 <= i < k ==> IsStep(c, states[i], SenderSends(true), states[i + 1])
    ensures Inv(c, states[k])
    ensures states[k] ==
      SenderAt(states[0], if n + k < |states[0].snd.window| then S.Sending(n + k) else S.Waiting)
      .(net := states[0].net + Slice(states[0], n, k))
    decreases k
  {
    hide Inv, Basic, Enabled, Next;
    var s := states[0];
    if k == 0 {
      StartsWithin(c, s);
      assert Slice(s, n, 0) == {};
      assert s.net + {} == s.net;
    } else {
      SuffixResent(c, states, n, k - 1);
      var t := states[k - 1];
      assert IsStep(c, t, SenderSends(true), states[k]);
      assert n + (k - 1) < |s.snd.window|;
      SendEffect(c, t);
      SendStepInv(c, t);
      var f := Flight(s.snd.window[n + k - 1], s.released + n + k);
      assert Slice(s, n, k) == Slice(s, n, k - 1) + {f};
      assert s.net + Slice(s, n, k - 1) + {f} == s.net + Slice(s, n, k);
    }
  }

  lemma StartsWithin(c: Config, s: System)
    requires ValidConfig(c) && Inv(c, s) && s.snd.phase.Sending?
    ensures s.snd.phase.next < |s.snd.window|
  {
    hide NetOk, ReaderOk, ReceiverOk, WriterOk, RR.Inv, WR.Inv, Unthreaded, All, Number, Linked, InHandSent;
  }

  lemma SendStepInv(c: Config, s: System)
    requires ValidConfig(c) && Inv(c, s) && Basic(s) && Enabled(c, s, SenderSends(true))
    ensures Inv(c, Next(c, s, SenderSends(true)))
  {
    hide Inv, Next;
    StepInv(c, s, SenderSends(true));
  }

  /** After a fresh ACK inside the window and the sends that follow, exactly the packets
      that it does not cover are on the wire again, and the sender waits as before. */
  lemma PartialAckRecovers(c: Config, s: System, f: Flight, states: seq<System>)
    requires ValidConfig(c) && Inv(c, s) && Enabled(c, s, SenderGets(f))
    requires s.released < f.index < s.released + |s.snd.window|
    requires |states| == s.released + |s.snd.window| - f.index + 1 && states[0] == Next(c, s, SenderGets(f))
    requires forall i :: 0 <= i < |states| - 1 ==> IsStep(c, states[i], SenderSends(true), states[i + 1])
    ensures var n := f.index - s.released;
      states[|states| - 1] == s.(net := s.net + Slice(s, n, |s.snd.window| - n))
  {
    hide Inv, Enabled, Next, RR.WellFormed, WR.WellFormed, IsStep;
    var n: nat := f.index - s.released;
    assert s.snd.phase == S.Waiting by { WaitsForAck(c, s, f); }
    PartialAckResends(c, s, f);
    AckStepInv(c, s, f);
    SuffixResent(c, states, n, |s.snd.window| - n);
    assert Slice(states[0], n, |s.snd.window| - n) == Slice(s, n, |s.snd.window| - n);
  }

  lemma WaitsForAck(c: Config, s: System, f: Flight)
    requires Enabled(c, s, SenderGets(f))
    ensures s.snd.phase == S.Waiting
  {
  }

  lemma AckStepInv(c: Config, s: System, f: Flight)
    requires ValidConfig(c) && Inv(c, s) && Enabled(c, s, SenderGets(f))
    ensures Inv(c, Next(c, s, SenderGets(f)))
  {
    hide Inv, Next;
    InvBasic(c, s);
    StepInv(c, s, SenderGets(f));
  }

  // --------------------------------------------------------------- the receiver

  /** The system with only the receiving engine's phase changed. */
  function ReceiverAt(s: System, p: R.Phase): System
    requires s.rcv.Some?
  {
    s.(rcv := Some(s.rcv.value.(phase := p)))
  }

  lemma ReceiverFacts(c: Config, s: System)
    requires ValidConfig(c) && Inv(c, s) && s.rcv.Some?
    ensures var r, n := s.rcv.value, |s.published|;
      && R.Valid(r) && r.inWindow <= n && r.bytes == Bytes(s.published) <= c.maxBytes
      && r.block == Num(c, n + 1) && r.lastReceived == Num(c, n) && r.lastAcked == Num(c, n - r.inWindow)
      && (r.initial.Some? ==> n == 0 && |All(c)| > 0 && r.initial.value == Data(1, All(c)[0]))
      && (r.phase.Acking? ==> r.inWindow == 0)
      && (r.phase.Replying? ==> r.phase.reply == Oack || r.phase.reply == Ack(Num(c, n - r.inWindow)))
  {
    hide NetOk, SenderOk, ReaderOk, WriterOk, RR.Inv, WR.Inv, Unthreaded, Linked, InHandSent, Number, Bytes;
  }

  /** A timeout makes the receiver repeat its first reply until data has come, and from
      then on the ACK for the last whole window. */
  lemma ReceiverTimeoutReplies(c: Config, s: System)
    requires ValidConfig(c) && Inv(c, s) && Enabled(c, s, ReceiverTimesOut)
    ensures var r := s.rcv.value;
      && r.inWindow <= |s.published|
      && Next(c, s, ReceiverTimesOut) ==
           ReceiverAt(s, R.Replying(if r.reply.Some? then r.reply.value
                                    else Ack(Num(c, |s.published| - r.inWindow))))
  {
    hide Inv, RR.WellFormed, WR.WellFormed, Number, Bytes;
    InvBasic(c, s);
    ReceiverFacts(c, s);
  }

  /** A reply that is sent goes over the wire, with the index of the window it repeats, and
      the receiver listens, or takes the packet that came with the request. */
  lemma ReplySent(c: Config, s: System)
    requires ValidConfig(c) && Inv(c, s) && s.rcv.Some? && s.rcv.value.phase.Replying?
    ensures Basic(s) && Enabled(c, s, ReceiverSends(true))
    ensures var r := s.rcv.value; var s' := Next(c, s, ReceiverSends(true));
      && r.inWindow <= |s.published|
      && s'.net == s.net + (if r.phase.reply.Ack? then {Flight(r.phase.reply, |s.published| - r.inWindow)} else {})
      && (r.initial.None? ==> s' == ReceiverAt(s, R.Listening).(net := s'.net))
  {
    hide Inv, RR.WellFormed, WR.WellFormed, Number, Bytes;
    InvBasic(c, s);
    ReceiverFacts(c, s);
  }

  /** The ACK of a whole window goes over the wire with the index of its last block; after
      that of the last window the receiver has finished, else it goes on. */
  lemma WindowAckSent(c: Config, s: System)
    requires ValidConfig(c) && Inv(c, s) && s.rcv.Some? && s.rcv.value.phase.Acking?
    ensures Basic(s) && Enabled(c, s, ReceiverSends(true))
    ensures var n := |s.published|;
      Next(c, s, ReceiverSends(true)) ==
        ReceiverAt(s, if s.rcv.value.phase.last then R.Stopped(Ok) else R.Reserving)
        .(net := s.net + {Flight(Ack(Num(c, n)), n)})
  {
    hide Inv, RR.WellFormed, WR.WellFormed, Number, Bytes;
    InvBasic(c, s);
    ReceiverFacts(c, s);
  }

  /** The next block is taken unless it would exceed the limit on the file's size; a DATA
      of another block is answered with the ACK of the last block in order. */
  lemma DataEffect(c: Config, s: System, f: Flight)
    requires ValidConfig(c) && Inv(c, s) && Enabled(c, s, ReceiverGets(f))
    ensures var n := |s.published|; var s' := Next(c, s, ReceiverGets(f));
      && (f.index != n + 1 ==> s' == s.(net := s.net + {Flight(Ack(Num(c, n)), n)}))
      && (f.index == n + 1 ==>
           && n < |All(c)| && s'.rcv.Some?
           && s'.rcv.value.phase == (if Bytes(s.published) + |All(c)[n]| > c.maxBytes then R.Stopped(SizeExceeded)
                                     else R.Publishing(Num(c, n + 1), All(c)[n])))
  {
    hide Inv, RR.WellFormed, WR.WellFormed, Number, Bytes, Stale, All;
    InvBasic(c, s);
    ReceiverFacts(c, s);
    DataNumberIsIndex(c, s, f);
    if f.index == |s.published| + 1 {
      NextFitsBlock(c, s, f);
    }
  }

  lemma NextFitsBlock(c: Config, s: System, f: Flight)
    requires ValidConfig(c) && Inv(c, s) && FreshData(c, s, f) && f.index == |s.published| + 1
    ensures |s.published| < |All(c)| && |f.packet.data| <= c.blocksize && f.packet.block == Num(c, |s.published| + 1)
  {
    hide Inv, Number, Stale, All;
    DataNumber(c, s, f);
    DataNumberIsIndex(c, s, f);
    BlockFits(c, |s.published|);
  }

  /** An ERROR ends the transfer; every other packet but DATA is ignored. */
  lemma NonDataEffect(c: Config, s: System, p: Packet)
    requires ValidConfig(c) && Inv(c, s) && Enabled(c, s, ReceiverGetsOther(p))
    ensures Next(c, s, ReceiverGetsOther(p)) == if p.Error? then ReceiverAt(s, R.Stopped(PeerError)) else s
  {
    hide Inv, RR.WellFormed, WR.WellFormed;
    InvBasic(c, s);
  }

  /** Each failure ends the receiver with its own status. */
  lemma ReceiverFailures(c: Config, s: System, a: Action)
    requires ValidConfig(c) && Inv(c, s) && Enabled(c, s, a)
    ensures a.ReserveFails? || a.DrainFails? ==> Next(c, s, a) == ReceiverAt(s, R.Stopped(WriteError))
    ensures a == ReceiverSends(false) ==> Next(c, s, a) == ReceiverAt(s, R.Stopped(SendError))
    ensures a.ReceiverRecvFails? ==> Next(c, s, a) == ReceiverAt(s, R.Stopped(RecvError))
  {
    hide Inv, RR.WellFormed, WR.WellFormed, SenderNext;
    InvBasic(c, s);
  }

  lemma FlushFailures(c: Config, s: System, a: Action)
    requires ValidConfig(c) && Inv(c, s) && Enabled(c, s, a) && (a == EndFlush(false) || a.FinishFails?)
    ensures Next(c, s, a).rcv == ReceiverAt(s, R.Stopped(WriteError)).rcv
  {
    hide Inv, RR.WellFormed, WR.WellFormed, SenderNext;
    InvBasic(c, s);
  }
}
