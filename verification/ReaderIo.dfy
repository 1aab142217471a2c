/** The reading half of struct tftp_io: the arrays and counters that the steps of
    ReaderRing describe, updated in place. */
module ReaderIo {
  import opened Netascii
  import opened Wrappers
  import opened Slots
  import RR = ReaderRing

  class Reader {
    const slots: nat
    const window: nat
    const blocksize: nat
    const packets: array<seq<byte>>
    const lengths: array<int>
    const source: PacketReader
    var head: nat
    var tail: nat
    var count: nat
    var held: nat
    var error: bool
    var eof: bool
    var stopped: bool
    ghost var thread: RR.Thread    // where the reader is in its loop

    ghost predicate Valid()
      reads this, packets, lengths, source
    {
      && packets.Length == slots && lengths.Length == slots
      && ValidSource(source.State())
      && RR.WellFormed(State())
    }

    ghost function State(): RR.Ring
      requires source.State().pos <= |source.State().file|
      reads this, packets, lengths, source
    {
      RR.Ring(slots, window, blocksize, packets[..], lengths[..], head, tail, count, held,
              error, eof, stopped, thread, Rest(source.convert, source.State()), source.broken)
    }

    /** io_start for reading, when it does not refuse. */
    constructor (slots: nat, window: nat, blocksize: nat, source: PacketReader)
      requires RR.Startable(slots, window, blocksize)
      requires source.State() == OpenSource(source.file, source.broken)
      ensures Valid() && fresh(packets) && fresh(lengths) && this.source == source
      ensures State() == RR.Start(slots, window, blocksize, Stream(source.convert, source.file), source.broken)
    {
      this.slots, this.window, this.blocksize := slots, window, blocksize;
      this.source := source;
      packets := new seq<byte>[slots](_ => []);
      lengths := new int[slots](_ => 0);
      head, tail, count, held := 0, 0, 0, 0;
      error, eof, stopped := false, false, false;
      thread := RR.Idle;
      new;
      assert source.file[0..] == source.file;
      assert packets[..] == seq(slots, _ => []);
      assert lengths[..] == seq(slots, _ => 0);
    }

    /** First locked region of the reader loop: a free slot is there. */
    method ClaimSlot()
      requires Valid() && RR.CanClaim(State())
      modifies this`thread
      ensures Valid() && State() == RR.Claim(old(State()))
    {
      thread := RR.Filling;
    }

    /** Read a packet into the slot at tail; the lock is not held. */
    method FillSlot() returns (length: Option<nat>)
      requires Valid() && thread.Filling?
      modifies this`thread, packets, source
      ensures Valid() && State() == RR.Fill(old(State()))
      ensures thread == RR.Filled(length)
    {
      ghost var before := State();
      var data := source.ReadPacket(blocksize);
      if data.None? {
        length := None;
      } else {
        packets[tail] := data.value;
        length := Some(|data.value|);
        assert packets[..] == before.packets[tail := data.value];
      }
      thread := RR.Filled(length);
      assert before.rest[|before.rest|..] == [];
      assert lengths[..] == before.lengths;
    }

    /** Second locked region: record the packet, or the error. */
    method CommitSlot(length: Option<nat>)
      requires Valid() && thread == RR.Filled(length) && count < slots
      modifies this, lengths
      ensures Valid() && State() == RR.Commit(old(State()))
    {
      if length.None? {
        error := true;
        thread := RR.Exited;
      } else {
        CommitPacket(length.value);
      }
    }

    method CommitPacket(length: nat)
      requires Valid() && thread == RR.Filled(Some(length)) && count < slots
      modifies this`tail, this`count, this`eof, this`thread, lengths
      ensures Valid() && State() == RR.Commit(old(State()))
    {
      hide Rest, Slot;
      ghost var before := State();
      SlotNext(head, count, slots);
      lengths[tail] := length + 4;
      assert lengths[..] == before.lengths[before.tail := length + 4];
      tail := Next(tail, slots);
      count := count + 1;
      if length != blocksize {
        eof := true;
      }
      thread := if eof || stopped then RR.Exited else RR.Idle;
    }

    /** One turn of the unthreaded read loop. */
    method ReadOne(ghost all: seq<seq<byte>>, ghost done: nat)
      requires Valid() && RR.Inv(State(), all, done) && !stopped && !RR.Ready(State()) && thread.Idle?
      modifies this, packets, lengths, source
      ensures Valid() && RR.Inv(State(), all, done) && !stopped
      ensures thread.Idle? || thread.Exited?
      ensures RR.FillUp(State(), all, done) == old(RR.FillUp(State(), all, done))
      ensures RR.Ready(State()) || RR.StepsLeft(State()) < old(RR.StepsLeft(State()))
    {
      ghost var s0 := State();
      RR.ReaderNeverStuck(s0, all, done);
      hide RR.Inv, RR.FillUp;
      ClaimSlot();
      ghost var s1 := State();
      var length := FillSlot();
      ghost var s2 := State();
      CommitSlot(length);
      Unrolled(s0, s1, s2, State(), all, done);
    }

    /** tftp_io_read_window without a reader thread: fill until a window or the end
        of the file is in the ring, then hold it. */
    method ReadWindow(ghost all: seq<seq<byte>>, ghost done: nat) returns (ok: bool, packetCount: nat, final: bool)
      requires Valid() && RR.Inv(State(), all, done) && !stopped
      requires thread.Idle? || thread.Exited?
      modifies this, packets, lengths, source
      ensures Valid()
      ensures var full := RR.FillUp(old(State()), all, done);
        && ok == !full.error
        && State() == (if ok then RR.Acquire(full) else full)
        && (ok ==> packetCount == State().held && final == RR.Final(State()))
    {
      hide RR.Inv, RR.FillUp;
      while count < window && !eof && !error
        invariant Valid() && RR.Inv(State(), all, done) && !stopped
        invariant thread.Idle? || thread.Exited?
        invariant RR.FillUp(State(), all, done) == RR.FillUp(old(State()), all, done)
        decreases if RR.Ready(State()) then 0 else RR.StepsLeft(State()) + 3
      {
        hide RR.WellFormed;
        RR.ReaderNeverStuck(State(), all, done);
        ReadOne(all, done);
      }
      RR.FilledUp(State(), all, done);
      ok, packetCount, final := !error, 0, false;
      if ok {
        held := if count < window then count else window;
        packetCount := held;
        final := eof && held == count;
      }
    }

    /** tftp_io_read_packet: the payload of the n-th held packet. */
    method ReadPacket(n: nat) returns (packet: Option<seq<byte>>)
      requires Valid()
      ensures packet == if n < held then Some(RR.Held(State())[n]) else None
    {
      if n >= held {
        return None;
      }
      SlotIsModulo(head, n, slots);
      RotatedAt(packets[..], head, n);
      return Some(packets[(head + n) % slots]);
    }

    /** tftp_io_read_length: its length on the wire, header included. */
    method ReadLength(n: nat, ghost all: seq<seq<byte>>, ghost done: nat) returns (length: int)
      requires Valid() && RR.Inv(State(), all, done)
      ensures length == if n < held then |RR.Held(State())[n]| + 4 else -1
    {
      if n >= held {
        return -1;
      }
      SlotIsModulo(head, n, slots);
      RotatedAt(lengths[..], head, n);
      return lengths[(head + n) % slots];
    }

    /** tftp_io_read_release */
    method ReleaseWindow()
      requires Valid()
      modifies this`head, this`count, this`held
      ensures Valid() && State() == RR.Release(old(State()))
    {
      ghost var released := 0;
      while held > 0
        invariant released + held == old(held) && held <= count == old(count) - released
        invariant head == Slot(old(head), released, slots)
        invariant Valid()
        decreases held
      {
        SlotNext(old(head), released, slots);
        head := Next(head, slots);
        count := count - 1;
        held := held - 1;
        released := released + 1;
      }
    }
  }

  /** tftp_io_reader_start: refused without slots, without room for data, or with a ring
      that cannot hold a window. */
  method StartReader(slots: nat, window: nat, blocksize: nat, source: PacketReader) returns (io: Reader?)
    requires source.State() == OpenSource(source.file, source.broken)
    ensures io == null <==> slots == 0 || blocksize == 0 || slots < window
    ensures io != null ==>
      && io.Valid()
      && io.State() == RR.Start(slots, window, blocksize, Stream(source.convert, source.file), source.broken)
      && RR.Inv(io.State(), Blocks(Stream(source.convert, source.file), blocksize), 0)
  {
    if slots == 0 || blocksize == 0 || slots < window {
      return null;
    }
    RR.StartInv(slots, window, blocksize, Stream(source.convert, source.file), source.broken);
    hide RR.Inv, Blocks, Stream;
    io := new Reader(slots, window, blocksize, source);
  }

  lemma Unrolled(s0: RR.Ring, s1: RR.Ring, s2: RR.Ring, s3: RR.Ring, all: seq<seq<byte>>, done: nat)
    requires RR.Inv(s0, all, done) && !s0.stopped && !RR.Ready(s0) && s0.thread.Idle?
    requires RR.CanClaim(s0) && s1 == RR.Claim(s0) && s2 == RR.Fill(s1) && s3 == RR.Commit(s2)
    ensures RR.Inv(s1, all, done) && RR.Inv(s2, all, done) && RR.Inv(s3, all, done)
    ensures RR.FillUp(s3, all, done) == RR.FillUp(s0, all, done)
    ensures RR.Ready(s3) || RR.StepsLeft(s3) < RR.StepsLeft(s0)
    ensures s3.thread.Idle? || s3.thread.Exited?
  {
    RR.ThreadStepProgress(s0, all, done);
    RR.ThreadStepInv(s0, all, done);
    RR.ThreadStepProgress(s1, all, done);
    RR.ThreadStepInv(s1, all, done);
    RR.ThreadStepProgress(s2, all, done);
    RR.ThreadStepInv(s2, all, done);
    hide RR.Inv;
    assert RR.FillUp(s0, all, done) == RR.FillUp(s1, all, done);
    assert RR.FillUp(s1, all, done) == RR.FillUp(s2, all, done);
  }
}
