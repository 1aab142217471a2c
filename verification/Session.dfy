/** From the option exchange to the transfer: the values that both ends settled on
    make a transfer for which the guarantees of the two engines hold. */
module Session {
  import opened Netascii
  import opened Octets
  import opened Requests
  import opened Negotiation
  import opened Client
  import opened Agreement
  import BlockNumber
  import T = TransferSystem
  import P = TransferCompletion

  const IO_RING_MIN_BYTES := 256 * 1024

  /** io_ring_slots: without threads one window; with threads a window for
      retransmission and beside it room for another window, for two blocks and for
      256 KiB. */
  function RingSlots(threaded: bool, segsize: nat, windowsize: nat): (slots: nat)
    requires segsize > 0
    ensures slots >= windowsize
    ensures threaded ==> slots - windowsize >= windowsize && slots - windowsize >= 2
    ensures threaded ==> (slots - windowsize) * segsize >= IO_RING_MIN_BYTES
    ensures !threaded ==> slots == windowsize
    ensures threaded ==>
      var room := slots - windowsize;
      room == windowsize || room == 2 || (room - 1) * segsize < IO_RING_MIN_BYTES
  {
    if !threaded then windowsize
    else
      var n := (segsize + IO_RING_MIN_BYTES - 1) / segsize;
      var io := if n < windowsize then windowsize else n;
      var io2 := if io < 2 then 2 else io;
      RoundedUp(IO_RING_MIN_BYTES, segsize, io2);
      NotMore(IO_RING_MIN_BYTES, segsize);
      windowsize + io2
  }

  lemma RoundedUp(bytes: nat, n: nat, k: nat)
    requires n > 0 && k >= (n + bytes - 1) / n
    ensures k * n >= bytes
  {
    var q := (n + bytes - 1) / n;
    assert q * n + n > n + bytes - 1;
    assert k * n == q * n + (k - q) * n;
  }

  lemma NotMore(bytes: nat, n: nat)
    requires n > 0 && bytes > 0
    ensures ((n + bytes - 1) / n - 1) * n < bytes
  {
    var q := (n + bytes - 1) / n;
    assert q * n <= n + bytes - 1;
    assert (q - 1) * n == q * n - n;
  }

  /** The transfer that starts: the daemon sends for a read, and the client, which has
      no threads and a ring of one window, sends for a write. */
  function Transfer(isRead: bool, mode: Mode, file: seq<byte>, broken: bool,
                    threaded: bool, maxBytes: nat, blksize: nat, window: nat): T.Config
    requires blksize > 0
  {
    var slots := RingSlots(threaded, blksize, window);
    T.Config(file, broken, mode == NETASCII, blksize, window, 0, !isRead, maxBytes,
             if isRead then slots else window, if isRead then window else slots,
             isRead && threaded, !isRead && threaded)
  }

  lemma Bounds(c: ClientSettings, s: Settings, isRead: bool, b: bytes)
    requires ValidClient(c) && ValidSettings(s) && !s.rejectAll
    requires Servable(s, isRead, b) && Holds(Parsed(b).table, Wanted(c))
    ensures var r := Serve(s, isRead, b);
      MIN_SEGSIZE <= r.segsize <= MAX_SEGSIZE && 1 <= r.windowsize <= MAX_WINDOWSIZE
  {
    hide Parsed, Negotiated, Answers, Holds, Servable, Granted;
    DealsFairly(s, isRead, b, c);
  }

  /** Whatever both sides are set to: once a request starts a transfer, the client and
      the daemon have the same one in mind, it is one that the engines are proved
      correct for, and some run of it ends with the sender's OK if and only if the file
      can be read and is within the size limit. */
  lemma AgreedTransfer(c: ClientSettings, s: Settings, isRead: bool, name: bytes, mode: Mode,
                       file: seq<byte>, broken: bool, threaded: bool, maxBytes: nat)
    requires ValidClient(c) && ValidSettings(s) && !s.rejectAll
    requires name != [] && Plain(name) && MakeRequest(c, name, mode).Some?
    requires Serve(s, isRead, MakeRequest(c, name, mode).value).Started?
    requires maxBytes <= UINTMAX
    ensures var r := Serve(s, isRead, MakeRequest(c, name, mode).value);
      && Taken(c, r).Some? && Taken(c, r).value.blksize > 0 && r.segsize > 0
      && var t := Transfer(isRead, mode, file, broken, threaded, maxBytes, r.segsize, r.windowsize);
      && var ack := Taken(c, r).value;
      && t == Transfer(isRead, mode, file, broken, threaded, maxBytes, ack.blksize, ack.window)
      && T.ValidConfig(t) && t.window < BlockNumber.Period(t.rollover)
      && (P.CanComplete(t) <==> !broken && |Stream(t.convert, file)| <= maxBytes)
  {
    hide Parsed, Negotiated, Answers, Holds, Understood, MakeRequest, Servable;
    EndsAgree(c, s, isRead, name, mode);
    RequestRoundTrip(c, name, mode);
    Bounds(c, s, isRead, MakeRequest(c, name, mode).value);
    hide Serve, Taken, P.CanComplete, Stream;
    var r := Serve(s, isRead, MakeRequest(c, name, mode).value);
    P.CompletesExactly(Transfer(isRead, mode, file, broken, threaded, maxBytes, r.segsize, r.windowsize));
  }
}
