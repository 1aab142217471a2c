/** The writing side of the packet ring: the protocol thread reserves a slot at
    the tail, copies a block into it and publishes it; the writer thread takes
    published slots at the head and appends them to the file.  Every locked
    region is one step; the copy, the write and the flush, done without the
    lock, are steps of their own. */
module WriterRing {
  import opened Netascii
  import opened Slots

  datatype SlotState = EMPTY | RESERVED | READY | WRITING

  datatype Thread =
    | Idle       // waiting for a published slot
    | Busy       // owns the slot at head and the file, lock released
    | Done       // slot written, not yet freed
    | Exited

  datatype Ring = Ring(
    slots: nat, blocksize: nat, convert: bool,
    packets: seq<seq<byte>>, lengths: seq<nat>, states: seq<SlotState>,
    head: nat, tail: nat, count: nat,
    error: bool, stopped: bool, thread: Thread,
    flushing: bool,    // the protocol thread is inside the flush of write_drain
    sink: Sink)

  predicate Startable(slots: nat, blocksize: nat) {
    slots > 0 && blocksize > 0
  }

  function Start(slots: nat, blocksize: nat, convert: bool): Ring
    requires Startable(slots, blocksize)
  {
    Ring(slots, blocksize, convert, seq(slots, _ => []), seq(slots, _ => 0), seq(slots, _ => EMPTY),
         0, 0, 0, false, false, Idle, false, EmptySink)
  }

  predicate WellFormed(r: Ring) {
    && Startable(r.slots, r.blocksize)
    && |r.packets| == r.slots && |r.lengths| == r.slots && |r.states| == r.slots
    && r.head < r.slots && r.count <= r.slots
    && r.tail == Slot(r.head, r.count, r.slots)
  }

  // ------------------------------------------------------------ protocol thread

  predicate CanReserve(r: Ring)
    requires WellFormed(r)
  {
    r.states[r.tail] == EMPTY && !r.error
  }

  function Reserve(r: Ring): Ring
    requires WellFormed(r) && CanReserve(r)
  {
    r.(states := r.states[r.tail := RESERVED])
  }

  /** The copy of the received block into the reserved slot. */
  function Store(r: Ring, data: seq<byte>): Ring
    requires WellFormed(r)
  {
    r.(packets := r.packets[r.tail := data])
  }

  predicate CanPublish(r: Ring, length: nat)
    requires WellFormed(r)
  {
    length <= r.blocksize && r.states[r.tail] == RESERVED
  }

  function Publish(r: Ring, length: nat): Ring
    requires WellFormed(r) && CanPublish(r, length)
  {
    r.(lengths := r.lengths[r.tail := length], states := r.states[r.tail := READY],
       tail := Next(r.tail, r.slots), count := r.count + 1)
  }

  /** The wait of write_drain ends well: everything is written, the flush begins. */
  predicate CanFlush(r: Ring) {
    r.count == 0 && !r.error
  }

  function BeginFlush(r: Ring): Ring
    requires CanFlush(r)
  {
    r.(flushing := true)
  }

  function EndFlush(r: Ring, ok: bool): Ring
    requires r.flushing
  {
    r.(flushing := false, error := r.error || !ok)
  }

  function FinishFile(r: Ring): Ring {
    r.(sink := Finish(r.convert, r.sink))
  }

  // -------------------------------------------------------------- writer thread

  predicate CanTake(r: Ring)
    requires WellFormed(r)
  {
    r.thread.Idle? && r.states[r.head] == READY && !r.stopped && !r.error
  }

  function Take(r: Ring): Ring
    requires WellFormed(r) && CanTake(r)
  {
    r.(states := r.states[r.head := WRITING], thread := Busy)
  }

  function Payload(r: Ring, i: nat): seq<byte>
    requires WellFormed(r) && i < r.slots
  {
    if r.lengths[i] <= |r.packets[i]| then r.packets[i][..r.lengths[i]] else r.packets[i]
  }

  /** The unlocked write_packet of the slot at head. */
  function Write(r: Ring): Ring
    requires WellFormed(r) && r.thread.Busy?
  {
    r.(sink := PutAll(r.convert, r.sink, Payload(r, r.head)), thread := Done)
  }

  /** A write that fails after some bytes, which stay appended to the file: the error
      is recorded and the thread ends. */
  function WriteFails(r: Ring, partial: Sink): Ring
    requires r.thread.Busy? && r.sink.file <= partial.file
  {
    r.(sink := partial, error := true, thread := Exited)
  }

  function Complete(r: Ring): Ring
    requires WellFormed(r) && r.thread.Done? && r.count > 0
  {
    r.(states := r.states[r.head := EMPTY], head := Next(r.head, r.slots), count := r.count - 1,
       thread := Idle)
  }

  // ------------------------------------------------------------------ invariant

  /** From head on: count slots published (the first one perhaps being written),
      then at most one reserved slot, then empty slots; the published slots hold
      the last count published blocks in order. */
  ghost predicate Shape(r: Ring, published: seq<seq<byte>>) {
    && WellFormed(r)
    && r.count <= |published|
    && (forall k :: 0 <= k < r.slots ==>
         Rotated(r.states, r.head)[k] ==
                  if k == 0 < r.count && HeadTaken(r) then WRITING
                  else if k < r.count then READY
                  else if k == r.count && r.states[r.tail] == RESERVED then RESERVED
                  else EMPTY)
    && (r.thread.Busy? || r.thread.Done? ==> r.count > 0)
    && (r.thread.Exited? ==> r.error || r.stopped)
    && (forall k :: 0 <= k < r.count ==>
         Payload(r, Slot(r.head, k, r.slots)) == published[|published| - r.count + k])
  }

  /** The writer thread owns the slot at head. */
  predicate HeadTaken(r: Ring)
    requires WellFormed(r)
  {
    r.states[r.head] == WRITING
  }

  predicate OwnsHead(r: Ring) {
    r.thread.Busy? || r.thread.Done?
  }

  ghost predicate Owner(r: Ring)
    requires WellFormed(r)
  {
    && (OwnsHead(r) ==> HeadTaken(r))
    && (r.thread.Idle? ==> !HeadTaken(r))
  }

  /** How many blocks have been appended to the file. */
  function Appended(r: Ring, published: nat): int {
    published - r.count + if r.thread.Done? then 1 else 0
  }

  /** The file is the decoding of the published blocks written so far, in order. */
  ghost predicate FileIs(r: Ring, published: seq<seq<byte>>) {
    0 <= Appended(r, |published|) <= |published| &&
    (!r.error ==> r.sink == Written(r.convert, published[..Appended(r, |published|)]))
  }

  ghost predicate Inv(r: Ring, published: seq<seq<byte>>) {
    Shape(r, published) && Owner(r)
  }

  lemma StartInv(slots: nat, blocksize: nat, convert: bool)
    requires Startable(slots, blocksize)
    ensures Inv(Start(slots, blocksize, convert), []) && FileIs(Start(slots, blocksize, convert), [])
  {
  }

  lemma ReserveInv(r: Ring, published: seq<seq<byte>>)
    requires Inv(r, published) && CanReserve(r)
    ensures r.count < r.slots && Inv(Reserve(r), published)
  {
    if r.count == r.slots { RotatedAt(r.states, r.head, 0); }
    RotatedUpdate(r.states, r.head, r.count, RESERVED);
  }

  lemma StoreInv(r: Ring, published: seq<seq<byte>>, data: seq<byte>)
    requires Inv(r, published) && r.states[r.tail] == RESERVED
    ensures r.count < r.slots && Inv(Store(r, data), published)
  {
    if r.count == r.slots { RotatedAt(r.states, r.head, 0); }
    var r' := Store(r, data);
    forall k | 0 <= k < r.count
      ensures Payload(r', Slot(r.head, k, r.slots)) == published[|published| - r.count + k]
    {
      assert Slot(r.head, k, r.slots) != r.tail;
    }
  }

  lemma PublishInv(r: Ring, published: seq<seq<byte>>)
    requires Inv(r, published) && CanPublish(r, |r.packets[r.tail]|)
    ensures r.count < r.slots
    ensures Inv(Publish(r, |r.packets[r.tail]|), published + [r.packets[r.tail]])
  {
    ReservedNotFull(r, published);
    PublishPayloads(r, published);
    PublishStates(r, published);
    hide Rotated, Payload;
  }

  lemma PublishPayloads(r: Ring, published: seq<seq<byte>>)
    requires Inv(r, published) && CanPublish(r, |r.packets[r.tail]|) && r.count < r.slots
    ensures var r' := Publish(r, |r.packets[r.tail]|); var published' := published + [r.packets[r.tail]];
      && WellFormed(r') && r'.count <= |published'|
      && forall k :: 0 <= k < r'.count ==>
           Payload(r', Slot(r'.head, k, r'.slots)) == published'[|published'| - r'.count + k]
  {
    hide Rotated;
    var data := r.packets[r.tail];
    var r' := Publish(r, |data|);
    var published' := published + [data];
    SlotNext(r.head, r.count, r.slots);
    forall k | 0 <= k < r'.count
      ensures Payload(r', Slot(r'.head, k, r'.slots)) == published'[|published'| - r'.count + k]
    {
      if k < r.count { assert Slot(r.head, k, r.slots) != r.tail; }
    }
  }

  lemma PublishStates(r: Ring, published: seq<seq<byte>>)
    requires Inv(r, published) && CanPublish(r, |r.packets[r.tail]|) && r.count < r.slots
    ensures var r' := Publish(r, |r.packets[r.tail]|);
      && WellFormed(r') && HeadTaken(r') == HeadTaken(r) && r'.states[r'.tail] != RESERVED
      && forall k :: 0 <= k < r.slots ==>
           Rotated(r'.states, r.head)[k] ==
             if k == 0 && HeadTaken(r) then WRITING else if k < r'.count then READY else EMPTY
  {
    hide Payload;
    var r' := Publish(r, |r.packets[r.tail]|);
    SlotNext(r.head, r.count, r.slots);
    RotatedUpdate(r.states, r.head, r.count, READY);
    RotatedAt(r.states, r.head, 0);
    RotatedAt(r'.states, r.head, 0);
    PublishTail(r, published, |r.packets[r.tail]|);
  }

  lemma ReservedNotFull(r: Ring, published: seq<seq<byte>>)
    requires Inv(r, published) && r.states[r.tail] == RESERVED
    ensures r.count < r.slots
  {
    if r.count == r.slots { RotatedAt(r.states, r.head, 0); }
  }

  /** Right after a publish nothing is reserved. */
  lemma PublishTail(r: Ring, published: seq<seq<byte>>, length: nat)
    requires Inv(r, published) && CanPublish(r, length)
    ensures Publish(r, length).states[Publish(r, length).tail] != RESERVED
  {
    var r' := Publish(r, length);
    if r.count == r.slots { RotatedAt(r.states, r.head, 0); }
    SlotNext(r.head, r.count, r.slots);
    if r.count + 1 < r.slots {
      RotatedAt(r.states, r.head, r.count + 1);
    } else {
      RotatedAt(r.states, r.head, 0);
      assert r'.tail == r.head;
    }
  }

  lemma TakeInv(r: Ring, published: seq<seq<byte>>)
    requires Inv(r, published) && CanTake(r)
    ensures Inv(Take(r), published)
  {
    RotatedAt(r.states, r.head, 0);
    RotatedUpdate(r.states, r.head, 0, WRITING);
    if r.count < r.slots { assert r.tail != r.head; }
  }

  lemma WriteInv(r: Ring, published: seq<seq<byte>>)
    requires Inv(r, published) && r.thread.Busy?
    ensures Inv(Write(r), published)
  {
    var r' := Write(r);
    forall k | 0 <= k < r.count
      ensures Payload(r', Slot(r.head, k, r.slots)) == Payload(r, Slot(r.head, k, r.slots))
    {
    }
  }

  lemma WriteFile(r: Ring, published: seq<seq<byte>>)
    requires Inv(r, published) && r.thread.Busy? && FileIs(r, published)
    ensures FileIs(Write(r), published)
  {
    var w := Appended(r, |published|);
    assert Slot(r.head, 0, r.slots) == r.head;
    WrittenSnoc(r.convert, published[..w], published[w]);
    assert published[..w] + [published[w]] == published[..w + 1];
  }

  lemma WriteFailsInv(r: Ring, published: seq<seq<byte>>, partial: Sink)
    requires Inv(r, published) && r.thread.Busy? && r.sink.file <= partial.file
    ensures Inv(WriteFails(r, partial), published)
    ensures FileIs(r, published) ==> FileIs(WriteFails(r, partial), published)
  {
    var r' := WriteFails(r, partial);
    forall k | 0 <= k < r.count
      ensures Payload(r', Slot(r.head, k, r.slots)) == Payload(r, Slot(r.head, k, r.slots))
    {
    }
  }

  lemma CompleteInv(r: Ring, published: seq<seq<byte>>)
    requires Inv(r, published) && r.thread.Done?
    ensures Inv(Complete(r), published)
  {
    var r' := Complete(r);
    RotatedUpdate(r.states, r.head, 0, EMPTY);
    RotatedNext(r.states[r.head := EMPTY], r.head);
    SlotNext(r.head, r.count - 1, r.slots);
    assert r'.tail == Slot(r'.head, r'.count, r.slots);
    forall k | 0 <= k < r'.count
      ensures Payload(r', Slot(r'.head, k, r'.slots)) == published[|published| - r'.count + k]
    {
      SlotNext(r.head, k, r.slots);
    }
    CompleteShape(r, published);
  }

  lemma CompleteShape(r: Ring, published: seq<seq<byte>>)
    requires Inv(r, published) && r.thread.Done?
    ensures var r' := Complete(r);
            && !HeadTaken(r')
            && forall k :: 0 <= k < r.slots ==>
                 Rotated(r'.states, r'.head)[k] == if k < r'.count then READY
                   else if k == r'.count && r'.states[r'.tail] == RESERVED then RESERVED else EMPTY
  {
    var r' := Complete(r);
    var st := Rotated(r.states, r.head);
    RotatedUpdate(r.states, r.head, 0, EMPTY);
    RotatedNext(r.states[r.head := EMPTY], r.head);
    assert Rotated(r'.states, r'.head) == st[1..] + [EMPTY];
    SlotNext(r.head, r.count - 1, r.slots);
    RotatedAt(r'.states, r'.head, 0);
    RotatedAt(r'.states, r'.head, r'.count);
    if r.count < r.slots { RotatedAt(r.states, r.head, r.count); }
  }

  /** Flushing, failing and finishing leave the slots alone. */
  lemma FlushInv(r: Ring, published: seq<seq<byte>>, flushing: bool, error: bool)
    requires Inv(r, published) && (r.error ==> error)
    ensures Inv(r.(flushing := flushing, error := error), published)
    ensures FileIs(r, published) ==> FileIs(r.(flushing := flushing, error := error), published)
  {
    var r' := r.(flushing := flushing, error := error);
    assert forall i :: 0 <= i < r.slots ==> Payload(r', i) == Payload(r, i);
  }

  lemma SinkInv(r: Ring, published: seq<seq<byte>>, sink: Sink)
    requires Inv(r, published)
    ensures Inv(r.(sink := sink), published)
  {
    var r' := r.(sink := sink);
    assert forall i :: 0 <= i < r.slots ==> Payload(r', i) == Payload(r, i);
  }

  /** The writer thread touches neither the tail nor what is reserved there. */
  lemma ThreadStepTail(r: Ring, published: seq<seq<byte>>)
    requires Inv(r, published) && WriterEnabled(r)
    ensures var r' := ThreadStep(r);
      && r'.tail == r.tail && (r'.states[r'.tail] == RESERVED <==> r.states[r.tail] == RESERVED)
      && r' == r.(states := r'.states, head := r'.head, count := r'.count, thread := r'.thread, sink := r'.sink)
      && Appended(r, |published|) <= Appended(r', |published|)
      && r'.count <= r.count
  {
    var r' := ThreadStep(r);
    RotatedAt(r.states, r.head, 0);
    if r.thread.Done? { CompleteInv(r, published); SlotNext(r.head, r.count - 1, r.slots); }
  }

  // ----------------------------------------------------------------- main facts

  /** The two threads never own one slot: what the protocol thread is copying into
      is reserved, what the writer is reading is being written. */
  lemma SlotsNeverShared(r: Ring, published: seq<seq<byte>>)
    requires Inv(r, published) && OwnsHead(r) && r.states[r.tail] == RESERVED
    ensures r.head != r.tail
  {
  }

  /** Nor do they own the file at once: while the ring is drained there is nothing
      being written and nothing the writer could start to write. */
  lemma FileNeverShared(r: Ring, published: seq<seq<byte>>)
    requires Inv(r, published) && r.count == 0
    ensures !OwnsHead(r) && !CanTake(r)
  {
    RotatedAt(r.states, r.head, 0);
  }

  /** A ring that is not full and has nothing reserved has a free slot at tail. */
  lemma SlotFree(r: Ring, published: seq<seq<byte>>)
    requires Inv(r, published) && r.count < r.slots && r.states[r.tail] != RESERVED
    ensures r.states[r.tail] == EMPTY
  {
    RotatedAt(r.states, r.head, r.count);
  }

  predicate WriterEnabled(r: Ring)
    requires WellFormed(r)
  {
    CanTake(r) || r.thread.Busy? || r.thread.Done?
  }

  /** No deadlock: as long as the protocol thread waits in write_drain, or waits in
      write_reserve with nothing reserved, the writer thread has a step to take. */
  lemma WriterNeverStuck(r: Ring, published: seq<seq<byte>>)
    requires Inv(r, published) && !r.error && !r.stopped
    requires r.count > 0 || (!CanReserve(r) && r.states[r.tail] != RESERVED)
    ensures WriterEnabled(r)
  {
    RotatedAt(r.states, r.head, 0);
    if r.count < r.slots { RotatedAt(r.states, r.head, r.count); }
  }

  function ThreadStep(r: Ring): Ring
    requires WellFormed(r) && WriterEnabled(r) && (r.thread.Done? ==> r.count > 0)
  {
    match r.thread
    case Busy => Write(r)
    case Done => Complete(r)
    case _ => Take(r)
  }

  function StepsLeft(r: Ring): int {
    3 * r.count - (match r.thread case Busy => 1 case Done => 2 case _ => 0)
  }

  /** A writer step keeps the ring in order and brings the drain closer. */
  lemma ThreadStepInv(r: Ring, published: seq<seq<byte>>)
    requires Inv(r, published) && WriterEnabled(r)
    ensures Inv(ThreadStep(r), published)
    ensures FileIs(r, published) ==> FileIs(ThreadStep(r), published)
    ensures 0 <= StepsLeft(ThreadStep(r)) < StepsLeft(r)
  {
    match r.thread
    case Busy => WriteInv(r, published); if FileIs(r, published) { WriteFile(r, published); }
    case Done => CompleteInv(r, published);
    case Idle => TakeInv(r, published); RotatedAt(r.states, r.head, 0);
    case Exited =>
  }

  /** The write_drain of the unthreaded ring, and what the threaded one waits for:
      the writer's steps, until nothing is left. */
  ghost function Drain(r: Ring, published: seq<seq<byte>>): (r': Ring)
    requires Inv(r, published) && !r.error && !r.stopped
    ensures Inv(r', published) && r'.count == 0 && !r'.error && !r'.stopped
    ensures r' == r.(states := r'.states, head := r'.head, count := 0, thread := r'.thread, sink := r'.sink)
    ensures FileIs(r, published) ==> FileIs(r', published)
    decreases StepsLeft(r)
  {
    if r.count == 0 then r
    else
      WriterNeverStuck(r, published);
      ThreadStepInv(r, published);
      Drain(ThreadStep(r), published)
  }

  /** The writer thread only appends to the file. */
  lemma ThreadStepGrows(r: Ring)
    requires WellFormed(r) && WriterEnabled(r) && (r.thread.Done? ==> r.count > 0)
    ensures r.sink.file <= ThreadStep(r).sink.file
  {
    if r.thread.Busy? {
      PutAllGrows(r.convert, r.sink, Payload(r, r.head));
    }
  }

  lemma {:induction false} DrainGrows(r: Ring, published: seq<seq<byte>>)
    requires Inv(r, published) && !r.error && !r.stopped
    ensures r.sink.file <= Drain(r, published).sink.file
    decreases StepsLeft(r)
  {
    if r.count > 0 {
      WriterNeverStuck(r, published);
      ThreadStepInv(r, published);
      hide Inv;
      ThreadStepGrows(r);
      DrainGrows(ThreadStep(r), published);
    }
  }

  /** Once drained, the file holds everything that was published. */
  lemma DrainedFile(r: Ring, published: seq<seq<byte>>)
    requires Inv(r, published) && FileIs(r, published) && r.count == 0 && !r.error
    ensures r.sink == Written(r.convert, published)
  {
    assert published[..|published|] == published;
  }
}
