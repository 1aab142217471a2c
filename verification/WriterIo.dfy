/** The writing half of struct tftp_io: the arrays and counters that the steps of
    WriterRing describe, updated in place. */
module WriterIo {
  import opened Netascii
  import opened Slots
  import WR = WriterRing

  class Writer {
    const slots: nat
    const blocksize: nat
    const packets: array<seq<byte>>
    const lengths: array<nat>
    const states: array<WR.SlotState>
    const sink: PacketWriter
    var head: nat
    var tail: nat
    var count: nat
    var error: bool
    var stopped: bool
    ghost var thread: WR.Thread    // where the writer is in its loop
    ghost var flushing: bool       // whether the protocol thread is flushing

    ghost predicate Valid()
      reads this, packets, lengths, states, sink
    {
      && packets.Length == slots && lengths.Length == slots && states.Length == slots
      && packets != lengths as object && packets != states as object && lengths != states as object
      && WR.WellFormed(State())
    }

    ghost function State(): WR.Ring
      reads this, packets, lengths, states, sink
    {
      WR.Ring(slots, blocksize, sink.convert, packets[..], lengths[..], states[..],
              head, tail, count, error, stopped, thread, flushing, sink.State())
    }

    /** io_start for writing, when it does not refuse. */
    constructor (slots: nat, blocksize: nat, sink: PacketWriter)
      requires WR.Startable(slots, blocksize) && sink.State() == EmptySink
      ensures Valid() && fresh(packets) && fresh(lengths) && fresh(states) && this.sink == sink
      ensures State() == WR.Start(slots, blocksize, sink.convert)
    {
      this.slots, this.blocksize := slots, blocksize;
      this.sink := sink;
      packets := new seq<byte>[slots](_ => []);
      lengths := new nat[slots](_ => 0);
      states := new WR.SlotState[slots](_ => WR.EMPTY);
      head, tail, count := 0, 0, 0;
      error, stopped := false, false;
      thread, flushing := WR.Idle, false;
      new;
      assert packets[..] == seq(slots, _ => []);
      assert lengths[..] == seq(slots, _ => 0);
      assert states[..] == seq(slots, _ => WR.EMPTY);
    }

    /** tftp_io_writer_reserve without a writer thread. */
    method Reserve() returns (ok: bool)
      requires Valid()
      modifies states
      ensures Valid() && ok == WR.CanReserve(old(State()))
      ensures State() == if ok then WR.Reserve(old(State())) else old(State())
    {
      ghost var before := State();
      ok := states[tail] == WR.EMPTY && !error;
      if ok {
        states[tail] := WR.RESERVED;
        assert states[..] == before.states[tail := WR.RESERVED];
      }
    }

    /** The copy of a received block into the reserved slot. */
    method Store(data: seq<byte>)
      requires Valid()
      modifies packets
      ensures Valid() && State() == WR.Store(old(State()), data)
    {
      ghost var before := State();
      packets[tail] := data;
      assert packets[..] == before.packets[tail := data];
    }

    /** tftp_io_write_publish */
    method Publish(length: nat, ghost published: seq<seq<byte>>) returns (ok: bool)
      requires Valid() && WR.Inv(State(), published)
      modifies this`tail, this`count, lengths, states
      ensures Valid() && ok == WR.CanPublish(old(State()), length)
      ensures State() == if ok then WR.Publish(old(State()), length) else old(State())
    {
      ghost var before := State();
      ok := length <= blocksize && states[tail] == WR.RESERVED;
      if ok {
        WR.ReservedNotFull(before, published);
        SlotNext(head, count, slots);
        lengths[tail] := length;
        states[tail] := WR.READY;
        tail := Next(tail, slots);
        count := count + 1;
        assert lengths[..] == before.lengths[before.tail := length];
        assert states[..] == before.states[before.tail := WR.READY];
      }
    }

    /** First locked region of the writer loop. */
    method TakeHead()
      requires Valid() && WR.CanTake(State())
      modifies states, this`thread
      ensures Valid() && State() == WR.Take(old(State()))
    {
      ghost var before := State();
      states[head] := WR.WRITING;
      thread := WR.Busy;
      assert states[..] == before.states[head := WR.WRITING];
    }

    /** Append the slot at head to the file, as far as there is room; the lock is not
        held. */
    method WriteHead(room: nat) returns (ok: bool)
      requires Valid() && thread.Busy?
      modifies sink, this`thread
      ensures Valid()
      ensures var all, limit := WR.Write(old(State())).sink, |old(sink.file)| + room;
        && (ok <==> |all.file| <= limit)
        && (ok ==> State() == WR.Write(old(State())))
        && (!ok ==> State() == old(State()).(sink := State().sink) && sink.file == all.file[..limit])
    {
      var length := lengths[head];
      var data := packets[head];
      ok := sink.WritePacket(if length <= |data| then data[..length] else data, room);
      if ok {
        thread := WR.Done;
      }
    }

    /** Second locked region: free the slot. */
    method CompleteHead()
      requires Valid() && thread.Done? && count > 0
      modifies states, this`head, this`count, this`thread
      ensures Valid() && State() == WR.Complete(old(State()))
    {
      ghost var before := State();
      SlotNext(head, count - 1, slots);
      states[head] := WR.EMPTY;
      head := Next(head, slots);
      count := count - 1;
      thread := WR.Idle;
      assert states[..] == before.states[before.head := WR.EMPTY];
    }

    /** tftp_io_write_drain without a writer thread, on a file that takes room more
        bytes: writes until nothing is left, or as much as there is room for, and
        flushes. */
    method Drain(room: nat, flushOk: bool, ghost published: seq<seq<byte>>) returns (ok: bool)
      requires Valid() && WR.Inv(State(), published) && !stopped && (thread.Idle? || thread.Exited?)
      modifies this, states, sink
      ensures Valid() && WR.Inv(State(), published)
      ensures WR.FileIs(old(State()), published) ==> WR.FileIs(State(), published)
      ensures old(error) ==> !ok && State() == old(State())
      ensures !old(error) ==>
        var all, limit := WR.Drain(old(State()), published), |old(sink.file)| + room;
        && (ok <==> |all.sink.file| <= limit && flushOk)
        && (|all.sink.file| <= limit ==> State() == all.(error := !flushOk))
        && (|all.sink.file| > limit ==> error && sink.file == all.sink.file[..limit])
    {
      if error {
        return false;
      }
      ok := WriteAll(|sink.file| + room, published);
      if ok {
        ok := Flush(flushOk, published);
      }
    }

    /** The loop of the unthreaded drain, on a file that takes limit bytes in all. */
    method WriteAll(limit: nat, ghost published: seq<seq<byte>>) returns (ok: bool)
      requires Valid() && WR.Inv(State(), published) && !error && !stopped && thread.Idle? && |sink.file| <= limit
      modifies this, states, sink
      ensures Valid() && WR.Inv(State(), published) && ok == !error
      ensures WR.FileIs(old(State()), published) ==> WR.FileIs(State(), published)
      ensures var all := WR.Drain(old(State()), published);
        && (ok <==> |all.sink.file| <= limit)
        && (if ok then State() == all else sink.file == all.sink.file[..limit])
    {
      while count > 0
        invariant Valid() && WR.Inv(State(), published) && !error && !stopped && thread.Idle?
        invariant WR.Drain(State(), published) == WR.Drain(old(State()), published)
        invariant WR.FileIs(old(State()), published) ==> WR.FileIs(State(), published)
        invariant |sink.file| <= limit
        decreases count
      {
        hide WR.Inv, WR.Drain, WR.FileIs;
        ok := WriteOne(limit, published);
        if !ok {
          return;
        }
      }
      ok := true;
    }

    /** One turn of the loop: the slot is written and freed, or the error recorded. */
    method WriteOne(limit: nat, ghost published: seq<seq<byte>>) returns (ok: bool)
      requires Valid() && WR.Inv(State(), published) && !error && !stopped && thread.Idle? && count > 0
      requires |sink.file| <= limit
      modifies this, states, sink
      ensures Valid() && WR.Inv(State(), published) && ok == !error
      ensures WR.FileIs(old(State()), published) ==> WR.FileIs(State(), published)
      ensures ok ==> !stopped && thread.Idle? && count == old(count) - 1 && |sink.file| <= limit
      ensures ok ==> WR.Drain(State(), published) == WR.Drain(old(State()), published)
      ensures !ok ==> var all := WR.Drain(old(State()), published).sink.file;
        |all| > limit && sink.file == all[..limit]
    {
      ghost var s0 := State();
      WR.WriterNeverStuck(s0, published);
      hide WR.Inv, WR.Drain, WR.FileIs;
      TakeHead();
      ghost var s1 := State();
      ok := WriteHead(limit - |sink.file|);
      if ok {
        ghost var s2 := State();
        CompleteHead();
        Unrolled(s0, s1, s2, State(), published);
      } else {
        error := true;
        thread := WR.Exited;
        Cut(s0, s1, sink.State(), limit, published);
        assert State() == WR.WriteFails(s1, sink.State());
      }
    }

    /** The flush at the end; its failure is recorded. */
    method Flush(flushOk: bool, ghost published: seq<seq<byte>>) returns (ok: bool)
      requires Valid() && WR.Inv(State(), published) && !error
      modifies this`error
      ensures Valid() && WR.Inv(State(), published) && ok == flushOk
      ensures State() == old(State()).(error := !flushOk)
      ensures WR.FileIs(old(State()), published) ==> WR.FileIs(State(), published)
    {
      WR.FlushInv(State(), published, flushing, !flushOk);
      hide WR.Inv, WR.FileIs;
      ok := flushOk;
      error := !flushOk;
    }

    /** tftp_io_write_finish: a carried CR is written, then the file is flushed. */
    method FinishFile(room: nat, flushOk: bool) returns (ok: bool)
      requires Valid()
      modifies this`error, sink
      ensures Valid()
      ensures var all := WR.FinishFile(old(State())); var fits := |all.sink.file| <= |old(sink.file)| + room;
        && (ok <==> fits && flushOk)
        && State() == (if fits then all else old(State())).(error := old(error) || !ok)
    {
      ok := sink.WriteFinish(room);
      if ok {
        ok := flushOk;
      }
      error := error || !ok;
    }
  }

  /** tftp_io_writer_start: refused without slots or without room for data. */
  method StartWriter(slots: nat, blocksize: nat, sink: PacketWriter) returns (io: Writer?)
    requires sink.State() == EmptySink
    ensures io == null <==> slots == 0 || blocksize == 0
    ensures io != null ==>
      io.Valid() && WR.Inv(io.State(), []) && io.State() == WR.Start(slots, blocksize, sink.convert)
  {
    if slots == 0 || blocksize == 0 {
      return null;
    }
    WR.StartInv(slots, blocksize, sink.convert);
    hide WR.Inv;
    io := new Writer(slots, blocksize, sink);
  }

  lemma Unrolled(s0: WR.Ring, s1: WR.Ring, s2: WR.Ring, s3: WR.Ring, published: seq<seq<byte>>)
    requires WR.Inv(s0, published) && !s0.error && !s0.stopped && s0.thread.Idle? && s0.count > 0
    requires WR.CanTake(s0) && s1 == WR.Take(s0) && s2 == WR.Write(s1) && s3 == WR.Complete(s2)
    ensures WR.Inv(s1, published) && WR.Inv(s2, published) && WR.Inv(s3, published)
    ensures WR.FileIs(s0, published) ==> WR.FileIs(s3, published)
    ensures WR.Drain(s3, published) == WR.Drain(s0, published)
  {
    WR.ThreadStepInv(s0, published);
    WR.ThreadStepInv(s1, published);
    WR.ThreadStepInv(s2, published);
    hide WR.Inv, WR.FileIs, PutAll;
    assert WR.Drain(s0, published) == WR.Drain(s1, published);
    assert WR.Drain(s1, published) == WR.Drain(s2, published);
  }

  /** A write that runs out of room leaves as much of the drained file as there is
      room for. */
  lemma Cut(s0: WR.Ring, s1: WR.Ring, partial: Sink, limit: nat, published: seq<seq<byte>>)
    requires WR.Inv(s0, published) && !s0.error && !s0.stopped && s0.thread.Idle? && s0.count > 0
    requires WR.CanTake(s0) && s1 == WR.Take(s0) && |s0.sink.file| <= limit < |WR.Write(s1).sink.file|
    requires partial.file == WR.Write(s1).sink.file[..limit]
    ensures s1.sink.file <= partial.file
    ensures WR.Inv(WR.WriteFails(s1, partial), published)
    ensures WR.FileIs(s0, published) ==> WR.FileIs(WR.WriteFails(s1, partial), published)
    ensures var all := WR.Drain(s0, published).sink.file; |all| > limit && partial.file == all[..limit]
  {
    WR.ThreadStepInv(s0, published);
    WR.ThreadStepInv(s1, published);
    hide WR.Inv, WR.FileIs, PutAll;
    var s2 := WR.Write(s1);
    WR.ThreadStepGrows(s1);
    assert WR.Drain(s0, published) == WR.Drain(s1, published) == WR.Drain(s2, published);
    WR.DrainGrows(s2, published);
    WR.WriteFailsInv(s1, published, partial);
  }
}
