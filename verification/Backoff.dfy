/** Timeouts: the doubling retransmission timer of both programs, and the deadline of
    a single receive. */
module Backoff {

  const TRIES := 6
  const TIMEOUT_LIMIT := 63

  // ------------------------------------------------------------------- the timer

  /** The waits for a window that is never answered: they double until the doubled
      timeout reaches the limit. */
  function Waits(t: nat, limit: nat): (w: seq<nat>)
    requires t > 0
    ensures |w| > 0 && w[0] == t
    decreases limit - t
  {
    [t] + (if 2 * t < limit then Waits(2 * t, limit) else [])
  }

  function Sum(w: seq<nat>): nat {
    if w == [] then 0 else w[0] + Sum(w[1..])
  }

  /** Each wait is twice the one before. */
  lemma {:induction false} WaitsDouble(t: nat, limit: nat, i: nat)
    requires t > 0 && 0 < i < |Waits(t, limit)|
    ensures Waits(t, limit)[i] == 2 * Waits(t, limit)[i - 1]
    decreases limit - t
  {
    if i > 1 {
      WaitsDouble(2 * t, limit, i - 1);
    }
  }

  /** Together they are twice the last without the first; the last is below the limit
      unless it is the only one, and its double is not. */
  lemma {:induction false} WaitsTotal(t: nat, limit: nat)
    requires t > 0
    ensures var w := Waits(t, limit); var last := w[|w| - 1];
      && Sum(w) == 2 * last - t
      && (last < limit || w == [t]) && 2 * last >= limit
    decreases limit - t
  {
    var w := Waits(t, limit);
    if 2 * t < limit {
      WaitsTotal(2 * t, limit);
      var rest := Waits(2 * t, limit);
      assert w[1..] == rest;
      assert w[|w| - 1] == rest[|rest| - 1];
    } else {
      assert w == [t] && w[1..] == [];
    }
  }

  lemma WaitsStep(t: nat, limit: nat)
    requires t > 0
    ensures Waits(t, limit) == if 2 * t < limit then [t] + Waits(2 * t, limit) else [t]
  {
  }

  /** The daemon sends a window six times and waits for exactly its maximum timeout. */
  lemma DaemonGivesUp(r: nat)
    requires r > 0
    ensures Waits(r, TIMEOUT_LIMIT * r) == [r, 2 * r, 4 * r, 8 * r, 16 * r, 32 * r]
    ensures |Waits(r, TIMEOUT_LIMIT * r)| == TRIES && Sum(Waits(r, TIMEOUT_LIMIT * r)) == TIMEOUT_LIMIT * r
  {
    hide Waits, Sum;
    var limit := 63 * r;
    WaitsTotal(r, limit);
    WaitsStep(r, limit);
    WaitsStep(2 * r, limit);
    WaitsStep(4 * r, limit);
    WaitsStep(8 * r, limit);
    WaitsStep(16 * r, limit);
    WaitsStep(32 * r, limit);
  }

  /** The client goes on while the doubled timeout does not exceed its limit T: it
      waits for more than T - r and at most 2T - r in all. */
  lemma ClientGivesUp(r: nat, limit: nat)
    requires 0 < r <= limit
    ensures limit - r < Sum(Waits(r, limit + 1)) <= 2 * limit - r
  {
    WaitsTotal(r, limit + 1);
  }

  /** The retransmission timer.  The daemon gives up when the doubled timeout reaches
      the maximum, the client when it exceeds it. */
  class Timer {
    const rexmtval: nat
    const maxtimeout: nat
    const isDaemon: bool
    var timeout: nat

    constructor (rexmtval: nat, maxtimeout: nat, isDaemon: bool)
      ensures this.rexmtval == rexmtval && this.maxtimeout == maxtimeout && this.isDaemon == isDaemon
    {
      this.rexmtval, this.maxtimeout, this.isDaemon, timeout := rexmtval, maxtimeout, isDaemon, rexmtval;
    }

    function Limit(): nat {
      if isDaemon then maxtimeout else maxtimeout + 1
    }

    /** retry_enter: only a window that is new starts from the base timeout. */
    method RetryEnter(restarted: bool)
      modifies this
      ensures timeout == if restarted then old(timeout) else rexmtval
    {
      if !restarted {
        timeout := rexmtval;
      }
    }

    /** timer: false when it gives up instead of jumping back. */
    method Expire() returns (again: bool)
      modifies this
      ensures timeout == 2 * old(timeout) && (again <==> timeout < Limit())
    {
      timeout := 2 * timeout;
      again := if isDaemon then !(timeout >= maxtimeout) else !(timeout > maxtimeout);
    }

    /** A window without any usable answer: sent, waited for and sent again. */
    method Unanswered() returns (sent: nat, waits: seq<nat>)
      requires rexmtval > 0
      modifies this
      ensures waits == Waits(rexmtval, Limit()) && sent == |waits|
    {
      RetryEnter(false);
      sent, waits := 0, [];
      var again := true;
      while again
        invariant timeout > 0 && sent == |waits|
        invariant waits + (if again then Waits(timeout, Limit()) else []) == Waits(rexmtval, Limit())
        decreases again, Limit() - timeout
      {
        RetryEnter(sent > 0);
        ghost var before, t := waits, timeout;
        sent, waits := sent + 1, waits + [timeout];
        again := Expire();
        assert before + Waits(t, Limit()) == waits + (if again then Waits(timeout, Limit()) else []);
      }
    }
  }

  // ------------------------------------------------------------------ the deadline

  datatype Got = Packet(length: nat) | Again | Broken

  /** How a poll ended, with the clock read after it, and what was then received. */
  datatype Poll =
    | Interrupted(at: nat)
    | Quiet(at: nat)
    | Ready(at: nat, got: Got)

  datatype Outcome = Received(length: nat) | TimedOut | Failed | Waiting

  /** The time left at a clock reading, at least one microsecond. */
  function Left(t0: nat, timeout: nat, now: nat): (left: nat)
    ensures left >= 1
    ensures now < t0 + timeout ==> now + left == t0 + timeout
  {
    if now >= t0 + timeout then 1 else t0 + timeout - now
  }

  /** The clock when poll k begins, and the limit that it is given. */
  function Begun(t0: nat, polls: seq<Poll>, k: nat): nat
    requires k <= |polls|
  {
    if k == 0 then t0 else polls[k - 1].at
  }

  function PollLimit(t0: nat, timeout: nat, polls: seq<Poll>, k: nat): nat
    requires k <= |polls|
  {
    if k == 0 then timeout else Left(t0, timeout, Begun(t0, polls, k))
  }

  /** The clock does not run backwards. */
  predicate Ordered(t0: nat, polls: seq<Poll>) {
    && (forall j :: 0 <= j < |polls| ==> t0 <= polls[j].at)
    && (forall i, j :: 0 <= i < j < |polls| ==> polls[i].at <= polls[j].at)
  }

  /** What a poll makes of the receive; Waiting if it goes on. */
  function Ends(p: Poll): Outcome {
    match p
    case Interrupted(_) => Waiting
    case Quiet(_) => TimedOut
    case Ready(_, Packet(n)) => Received(n)
    case Ready(_, Broken) => Failed
    case Ready(_, Again) => Waiting
  }

  /** A poll that was interrupted, or woken for a packet that was not there. */
  predicate Fruitless(p: Poll) {
    p.Interrupted? || (p.Ready? && p.got.Again?)
  }

  /** tftp_recv_time, on what its polls return: the first poll that settles it decides,
      every poll is given what is left until the deadline, and so is the caller. */
  method RecvTime(t0: nat, timeoutUs: nat, polls: seq<Poll>) returns (rv: Outcome, left: nat, limits: seq<nat>)
    requires Ordered(t0, polls)
    ensures |limits| <= |polls|
    ensures forall k :: 0 <= k < |limits| ==> limits[k] == PollLimit(t0, timeoutUs, polls, k)
    ensures forall k :: 0 <= k < |limits| - 1 ==> Ends(polls[k]) == Waiting
    ensures left == PollLimit(t0, timeoutUs, polls, |limits|)
    ensures if rv == Waiting then |limits| == |polls| && (polls != [] ==> Ends(polls[|polls| - 1]) == Waiting)
            else |limits| > 0 && rv == Ends(polls[|limits| - 1])
    ensures forall k :: 0 <= k < |limits| - 1 ==> Fruitless(polls[k])
    ensures rv == Waiting <==> forall k :: 0 <= k < |polls| ==> Fruitless(polls[k])
    ensures rv == TimedOut ==> |limits| > 0 && polls[|limits| - 1].Quiet?
    ensures rv == Failed ==> |limits| > 0 && polls[|limits| - 1].Ready? && polls[|limits| - 1].got.Broken?
    ensures rv.Received? ==>
      |limits| > 0 && polls[|limits| - 1].Ready? && polls[|limits| - 1].got == Packet(rv.length)
  {
    var i := 0;
    left, limits, rv := timeoutUs, [], Waiting;
    while i < |polls|
      invariant 0 <= i == |limits| <= |polls| && rv == Waiting
      invariant forall k :: 0 <= k < i ==> limits[k] == PollLimit(t0, timeoutUs, polls, k)
      invariant forall k :: 0 <= k < i ==> Ends(polls[k]) == Waiting
      invariant left == PollLimit(t0, timeoutUs, polls, i)
    {
      limits := limits + [left];
      var dt := polls[i].at - t0;
      left := if dt >= timeoutUs then 1 else timeoutUs - dt;
      rv := Ends(polls[i]);
      if rv != Waiting {
        return;
      }
      i := i + 1;
    }
  }

  /** A poll that keeps to its limit: it ends in time, and early only with an event. */
  predicate Honest(t0: nat, timeoutUs: nat, polls: seq<Poll>, k: nat)
    requires k < |polls|
  {
    var begun, limit := Begun(t0, polls, k), PollLimit(t0, timeoutUs, polls, k);
    && polls[k].at <= begun + limit
    && (polls[k].Quiet? ==> polls[k].at >= begun + limit)
  }

  /** However often it is interrupted or woken for nothing, a receive does not extend
      its deadline: the clock passes it by at most one microsecond for each poll that
      begins after it, and a poll that finds nothing ends at it or later. */
  lemma {:induction false} DeadlineKept(t0: nat, timeoutUs: nat, polls: seq<Poll>, k: nat)
    requires Ordered(t0, polls) && k < |polls|
    requires forall j :: 0 <= j <= k ==> Honest(t0, timeoutUs, polls, j)
    ensures polls[k].at <= t0 + timeoutUs + k
    ensures polls[k].Quiet? ==> polls[k].at >= t0 + timeoutUs
  {
    assert Honest(t0, timeoutUs, polls, k);
    if k > 0 {
      DeadlineKept(t0, timeoutUs, polls, k - 1);
    }
  }
}
