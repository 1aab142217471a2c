/** The reading side of the packet ring: the reader thread fills slots at the
    tail, the protocol thread holds one window at the head and releases it.
    Every locked region is one step; the fill, done without the lock, is a step
    of its own. */
module ReaderRing {
  import opened Netascii
  import opened Wrappers
  import opened Slots

  datatype Thread =
    | Idle                          // waiting for a free slot
    | Filling                       // owns the slot at tail, lock released
    | Filled(length: Option<nat>)   // packet read (or failed), not yet recorded
    | Exited

  datatype Ring = Ring(
    slots: nat, window: nat, blocksize: nat,
    packets: seq<seq<byte>>, lengths: seq<int>,
    head: nat, tail: nat, count: nat, held: nat,
    error: bool, eof: bool, stopped: bool,
    thread: Thread, rest: seq<byte>, broken: bool)

  /** io_start for reading: refused unless the ring holds a whole window. */
  predicate Startable(slots: nat, window: nat, blocksize: nat) {
    slots > 0 && blocksize > 0 && slots >= window
  }

  function Start(slots: nat, window: nat, blocksize: nat, stream: seq<byte>, broken: bool): Ring
    requires Startable(slots, window, blocksize)
  {
    Ring(slots, window, blocksize, seq(slots, _ => []), seq(slots, _ => 0), 0, 0, 0, 0,
         false, false, false, Idle, stream, broken)
  }

  predicate WellFormed(r: Ring) {
    && Startable(r.slots, r.window, r.blocksize)
    && |r.packets| == r.slots && |r.lengths| == r.slots
    && r.head < r.slots && r.count <= r.slots && r.held <= r.count
    && r.tail == Slot(r.head, r.count, r.slots)
  }

  // ------------------------------------------------------------- reader thread

  predicate CanClaim(r: Ring) {
    r.thread.Idle? && r.count != r.slots && !r.stopped
  }

  function Claim(r: Ring): Ring
    requires CanClaim(r)
  {
    r.(thread := Filling)
  }

  /** The unlocked read_packet into the slot at tail. */
  function Fill(r: Ring): Ring
    requires WellFormed(r) && r.thread.Filling?
  {
    if |r.rest| >= r.blocksize then
      r.(packets := r.packets[r.tail := r.rest[..r.blocksize]], rest := r.rest[r.blocksize..],
         thread := Filled(Some(r.blocksize)))
    else if r.broken then r.(rest := [], thread := Filled(None))
    else r.(packets := r.packets[r.tail := r.rest], rest := [], thread := Filled(Some(|r.rest|)))
  }

  function Commit(r: Ring): Ring
    requires WellFormed(r) && r.thread.Filled?
  {
    match r.thread.length
    case None => r.(error := true, thread := Exited)
    case Some(n) =>
      var eof := r.eof || n != r.blocksize;
      r.(lengths := r.lengths[r.tail := n + 4], tail := Next(r.tail, r.slots), count := r.count + 1,
         eof := eof, thread := if eof || r.stopped then Exited else Idle)
  }

  // ------------------------------------------------------------ protocol thread

  /** The wait of read_window is over. */
  predicate Ready(r: Ring) {
    r.count >= r.window || r.eof || r.error
  }

  function Acquire(r: Ring): Ring
    requires Ready(r) && !r.error
  {
    r.(held := if r.count < r.window then r.count else r.window)
  }

  predicate Final(r: Ring) {
    r.eof && r.held == r.count
  }

  /** The payloads of the held packets, as read_packet and read_length show them. */
  function Held(r: Ring): (w: seq<seq<byte>>)
    requires WellFormed(r)
    ensures |w| == r.held
  {
    Rotated(r.packets, r.head)[..r.held]
  }

  function Release(r: Ring): Ring
    requires WellFormed(r)
  {
    r.(head := Slot(r.head, r.held, r.slots), count := r.count - r.held, held := 0)
  }

  function Stop(r: Ring): Ring {
    r.(stopped := true)
  }

  // ------------------------------------------------------------------ invariant

  /** Against the cutting of the file into blocks: the first done blocks have been
      released, the next count are in the ring in order, and what the file handle
      still has to give are the blocks after those. */
  ghost predicate Inv(r: Ring, all: seq<seq<byte>>, done: nat) {
    && WellFormed(r)
    && Cut(all, r.blocksize)
    && done + r.count <= |all|
    && (forall k :: 0 <= k < r.count ==> Rotated(r.packets, r.head)[k] == all[done + k])
    && (forall k :: 0 <= k < r.count ==> Rotated(r.lengths, r.head)[k] == |all[done + k]| + 4)
    && (r.eof <==> done + r.count == |all|)
    && (r.broken ==> !r.eof)
    && (r.error ==> r.broken && r.thread.Exited?)
    && (r.thread.Exited? ==> r.eof || r.error || r.stopped)
    && (r.eof ==> r.thread.Exited?)
    && (r.thread.Idle? || r.thread.Filling? ==> Blocks(r.rest, r.blocksize) == all[done + r.count..])
    && (r.thread.Filling? || r.thread.Filled? ==> r.count < r.slots)
    && (r.thread.Filled? ==> FilledWith(r, all, done + r.count))
  }

  /** all is full blocks closed by one short block. */
  ghost predicate Cut(all: seq<seq<byte>>, size: nat) {
    && size > 0 && |all| > 0
    && (forall i :: 0 <= i < |all| - 1 ==> |all[i]| == size)
    && |all[|all| - 1]| < size
  }

  ghost predicate FilledWith(r: Ring, all: seq<seq<byte>>, i: nat)
    requires WellFormed(r) && r.thread.Filled? && r.blocksize > 0
  {
    && i < |all|
    && match r.thread.length
       case None => r.broken && i == |all| - 1
       case Some(n) =>
         && r.packets[r.tail] == all[i] && n == |all[i]|
         && (i == |all| - 1 ==> !r.broken)
         && (i < |all| - 1 ==> Blocks(r.rest, r.blocksize) == all[i + 1..])
  }

  lemma StartInv(slots: nat, window: nat, blocksize: nat, stream: seq<byte>, broken: bool)
    requires Startable(slots, window, blocksize)
    ensures Inv(Start(slots, window, blocksize, stream, broken), Blocks(stream, blocksize), 0)
  {
    var all := Blocks(stream, blocksize);
    assert all[0..] == all;
  }

  lemma ClaimInv(r: Ring, all: seq<seq<byte>>, done: nat)
    requires Inv(r, all, done) && CanClaim(r)
    ensures Inv(Claim(r), all, done)
  {
  }

  lemma FillInv(r: Ring, all: seq<seq<byte>>, done: nat)
    requires Inv(r, all, done) && r.thread.Filling?
    ensures Inv(Fill(r), all, done)
  {
    var i := done + r.count;
    var r' := Fill(r);
    assert all[i] == all[i..][0];
    assert all[i..][1..] == all[i + 1..];
    if r'.packets != r.packets {
      RotatedUpdate(r.packets, r.head, r.count, r'.packets[r.tail]);
    }
    if |r.rest| >= r.blocksize {
      assert all[i] == r.rest[..r.blocksize];
      assert Blocks(r.rest[r.blocksize..], r.blocksize) == all[i + 1..];
    } else {
      assert all[i..] == [r.rest];
      assert i == |all| - 1;
    }
  }

  lemma CommitSlots(r: Ring, all: seq<seq<byte>>, done: nat)
    requires Inv(r, all, done) && r.thread.Filled? && r.thread.length.Some?
    ensures var r' := Commit(r);
      && WellFormed(r') && r'.count == r.count + 1 && done + r'.count <= |all|
      && (forall k :: 0 <= k < r'.count ==> Rotated(r'.packets, r'.head)[k] == all[done + k])
      && (forall k :: 0 <= k < r'.count ==> Rotated(r'.lengths, r'.head)[k] == |all[done + k]| + 4)
  {
    hide Blocks;
    var n := r.thread.length.value;
    SlotNext(r.head, r.count, r.slots);
    RotatedAt(r.packets, r.head, r.count);
    RotatedUpdate(r.lengths, r.head, r.count, n + 4);
  }

  lemma CommitInv(r: Ring, all: seq<seq<byte>>, done: nat)
    requires Inv(r, all, done) && r.thread.Filled?
    ensures Inv(Commit(r), all, done)
  {
    hide Rotated, Blocks;
    if r.thread.length.Some? {
      CommitSlots(r, all, done);
      assert r.thread.length.value != r.blocksize <==> done + r.count == |all| - 1;
    }
  }

  lemma AcquireInv(r: Ring, all: seq<seq<byte>>, done: nat)
    requires Inv(r, all, done) && Ready(r) && !r.error
    ensures Inv(Acquire(r), all, done)
  {
  }

  lemma {:induction false} ReleaseInv(r: Ring, all: seq<seq<byte>>, done: nat)
    requires Inv(r, all, done)
    ensures Inv(Release(r), all, done + r.held)
  {
    hide Blocks, Rotated;
    var r' := Release(r);
    forall k | 0 <= k < r'.count
      ensures Rotated(r'.packets, r'.head)[k] == all[done + r.held + k]
      ensures Rotated(r'.lengths, r'.head)[k] == |all[done + r.held + k]| + 4
    {
      RotatedAt(r'.packets, r'.head, k);
      RotatedAt(r'.lengths, r'.head, k);
      RotatedAt(r.packets, r.head, r.held + k);
      RotatedAt(r.lengths, r.head, r.held + k);
      assert Slot(r'.head, k, r.slots) == Slot(r.head, r.held + k, r.slots);
    }
  }

  lemma StopInv(r: Ring, all: seq<seq<byte>>, done: nat)
    requires Inv(r, all, done)
    ensures Inv(Stop(r), all, done)
  {
  }

  // ----------------------------------------------------------------- main facts

  /** The window of the synchronous reader: the next window blocks of the file, or
      the rest of it, final exactly when it reaches the short block. */
  function WindowSize(window: nat, all: seq<seq<byte>>, done: nat): (n: nat)
    requires done <= |all|
    ensures done + n <= |all|
  {
    if |all| - done < window then |all| - done else window
  }

  /** Whatever the interleaving, the window handed out is the same function of the
      file and of the number of blocks released before. */
  lemma AcquiredWindow(r: Ring, all: seq<seq<byte>>, done: nat)
    requires Inv(r, all, done) && Ready(r) && !r.error
    ensures Held(Acquire(r)) == all[done..done + WindowSize(r.window, all, done)]
    ensures Final(Acquire(r)) <==> done + WindowSize(r.window, all, done) == |all|
    ensures r.window > 0 && done < |all| ==> Acquire(r).held > 0
    ensures Acquire(r).held > 0 ==>
              (Final(Acquire(r)) <==> |Held(Acquire(r))[Acquire(r).held - 1]| < r.blocksize)
  {
    var a := Acquire(r);
    var n := WindowSize(r.window, all, done);
    assert a.held == n by {
      if !r.eof { assert r.count >= r.window; }
    }
    assert forall k :: 0 <= k < n ==> Held(a)[k] == all[done + k];
  }

  /** The slot under the reader's pen is never one the protocol thread holds. */
  lemma FillSlotNotHeld(r: Ring, all: seq<seq<byte>>, done: nat, k: nat)
    requires Inv(r, all, done) && (r.thread.Filling? || r.thread.Filled?) && k < r.held
    ensures r.tail != Slot(r.head, k, r.slots)
  {
  }

  /** The reader waits for a free slot. */
  predicate ReaderWaits(r: Ring) {
    r.thread.Idle? && r.count == r.slots && !r.stopped
  }

  /** No deadlock: while the protocol thread waits for a window, the reader thread
      has a step to take; in particular the two never wait for each other. */
  lemma ReaderNeverStuck(r: Ring, all: seq<seq<byte>>, done: nat)
    requires Inv(r, all, done) && !Ready(r) && !r.stopped
    ensures CanClaim(r) || r.thread.Filling? || r.thread.Filled?
    ensures !ReaderWaits(r)
  {
  }

  /** One reader thread step, in the order the thread takes them. */
  function ThreadStep(r: Ring): Ring
    requires WellFormed(r) && (CanClaim(r) || r.thread.Filling? || r.thread.Filled?)
  {
    match r.thread
    case Idle => Claim(r)
    case Filling => Fill(r)
    case _ => Commit(r)
  }

  /** How many reader steps the wait can still last. */
  function StepsLeft(r: Ring): int {
    3 * (r.window - r.count) - (match r.thread case Idle => 0 case Filling => 1 case Filled(_) => 2 case Exited => 0)
  }

  lemma ThreadStepInv(r: Ring, all: seq<seq<byte>>, done: nat)
    requires Inv(r, all, done) && (CanClaim(r) || r.thread.Filling? || r.thread.Filled?)
    ensures Inv(ThreadStep(r), all, done)
  {
    match r.thread
    case Idle => ClaimInv(r, all, done);
    case Filling => FillInv(r, all, done);
    case _ => CommitInv(r, all, done);
  }

  /** And each of those steps brings the window closer. */
  lemma ThreadStepProgress(r: Ring, all: seq<seq<byte>>, done: nat)
    requires Inv(r, all, done) && !Ready(r) && !r.stopped
    ensures CanClaim(r) || r.thread.Filling? || r.thread.Filled?
    ensures Ready(ThreadStep(r)) || 0 < StepsLeft(ThreadStep(r)) < StepsLeft(r)
  {
    ReaderNeverStuck(r, all, done);
  }

  /** The reader's steps until a window is ready: what read_window does itself when
      there is no reader thread, and waits for when there is one. */
  ghost function FillUp(r: Ring, all: seq<seq<byte>>, done: nat): (r': Ring)
    requires Inv(r, all, done) && !r.stopped
    ensures Inv(r', all, done) && Ready(r') && !r'.stopped
    decreases if Ready(r) then 0 else StepsLeft(r) + 1
  {
    if Ready(r) then r
    else
      ThreadStepProgress(r, all, done);
      ThreadStepInv(r, all, done);
      FillUp(ThreadStep(r), all, done)
  }

  lemma FilledUp(r: Ring, all: seq<seq<byte>>, done: nat)
    requires Inv(r, all, done) && !r.stopped && Ready(r)
    ensures FillUp(r, all, done) == r
  {
    hide Inv;
  }
}
