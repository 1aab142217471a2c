# A verified model of tftp-hpa

tftp-hpa is a TFTP client and daemon: RFC 1350 transfers in octet and netascii mode, with the
options of RFC 2347, RFC 2348, RFC 2349 and the windows of RFC 7440. This project models its hard
core in Dafny and proves what it is for.

* **The transfer.** The sending and the receiving engine are step functions over what the calls
  around them return; the loops of `tftp_xfer_send` and `tftp_xfer_recv` are methods that are proved
  to compute the fold of these steps over any script of answers (`Sender`, `Receiver`). The packet
  rings of `tftp-io.c` are state machines in which every locked region is one step and the unlocked
  read or write another (`ReaderRing`, `WriterRing`); their unthreaded operations are classes with
  the fields of `struct tftp_io` (`ReaderIo`, `WriterIo`). `TransferSystem` puts both engines, both
  rings, the I/O threads and a network that loses, duplicates and reorders packets into one step
  relation. `TransferSafety` proves an invariant of every run, and from it that a sender's OK means
  that the file has been copied; `TransferRecovery` what each packet, timeout and failure makes the
  engines do; `TransferProgress` proves that nothing deadlocks and how a window is delivered;
  `TransferCompletion` that from every state with both sides running the transfer can be
  completed, with one timeout per window; `TransferStaleness` exactly which late packets do harm, and
  `TransferLate` for exactly which files the guarantees need no bound on lateness.
* **The options.** `Octets`, `Requests`, `Negotiation`, `Daemon` and `Client` model the request the
  client builds, the daemon's parser and option table, all `negotiate_*` steps, the OACK and the
  client's check of it; `RequestMeaning` says what any packet means as a request; `Agreement` proves
  that both ends agree, and `Session` that what they agree on is a transfer for which the guarantees
  above hold.
* **The names.** `Paths` and `PathLists` treat the in-place normalisation, the parser, the printer
  and the containment check; `Substitution` and `Remap` the rule engine that rewrites file names,
  `Patterns` what a replacement pattern stands for, and `RuleActions` what the operations of a rule
  mean for a run.
* **The clock.** `Backoff` treats the doubling timeout and the deadline of a receive.

A block has an absolute index that only the proofs see. Two blocks carry the same sixteen-bit number
if and only if they are a multiple of the numbering period apart and the earlier one is not below the
rollover value (`BlockNumber.NumbersCollide`). The network steps of `TransferSystem` therefore deliver
every packet however late, but not a DATA that is late by whole periods of the block expected, nor an
ACK that is late by whole periods of the window's last packet. `TransferStaleness` proves what such a
packet does: it is taken for another one. `TransferLate` drops the exception and proves for exactly
which files that matters: on a network that delivers packets however late, the sender's OK means that
the file has been copied if and only if the file has fewer than 65536 blocks.
`TransferStaleness.YoungPacketsAreFresh` gives a network on which the exception never applies.

The model follows the code where the code and its documentation differ:

* A control character is a byte below the space; the comment in `path.c` also names 127, the code
  accepts it.
* `max_windowbytes` 0 means one block at a time (`Negotiation.ZeroWindowBytes`); the manual says that
  it means no limit.
* An OACK with a repeated option is not always rejected, although the comment says so;
  `Client.RepeatsRejected` says when it is.
* A granted `blksize2` can exceed the request; `Negotiation.Blksize2Exceeded` says when it does.
* With `reject_all_options` the daemon leaves its block size and window at 0;
  `Agreement.EndsAgree` says that the ends agree exactly when it is off.
* Replacing a match by itself is not always the identity; `Substitution.ReplaceByItself` says when.

## Model

| member | source | states |
|---|---|---|
| BlockNumber.NextIsNext | common/tftp-xfer.c:26-31 | iterating `next_block` numbers the blocks 1, 2, 3, … for every rollover value |
| BlockNumber.SameNumberSameIndex | common/tftp-xfer.c:26-31 | less than one period apart, two blocks have the same sixteen-bit number if and only if they are the same block |
| BlockNumber.NumbersCollide | common/tftp-xfer.c:26-31 | two blocks carry the same number if and only if they are a multiple of the period apart and the earlier one is at or above the rollover value |
| Netascii.FlattenBlocks | common/tftp-io.c:80-121 | the payloads of a stream concatenate to the stream |
| Netascii.BlocksAreUnique | common/tftp-io.c:80-121 | full blocks closed by one short block are the only way to cut a stream (section 6 of RFC 1350) |
| Netascii.EncodeAppend | common/tftp-io.c:92-121 | the wire format in numbers: 10 travels as 13 10, 13 as 13 0, every other byte as it is, and pieces one after the other |
| Netascii.WireFormat | common/tftp-io.c:92-121 | on the wire every 10 follows a 13, and every 13 is followed by 10 or 0 |
| Netascii.DecodePieces | common/tftp-io.c:133-191 | 13 10 is read as 10, 13 0 as 13, a 13 before anything else or at the end as itself |
| Netascii.DecodeStream | common/tftp-io.c:133-170 | decoding the one-shot encoding appends exactly the file and leaves no carried CR |
| Netascii.RoundTrip | common/tftp-io.c:92-199 | for every file and block size the payloads, decoded in turn and finished, give the file back, wherever CR pairs are cut |
| Netascii.EncodeInjective | common/tftp-io.c:92-121 | different files have different encodings |
| Netascii.AdvanceRest | common/tftp-io.c:97-116 | each character put out takes exactly one byte off the encoding of the rest, carried half-pairs included |
| Netascii.PacketReader.ReadPacket | common/tftp-io.c:80-121 | a packet is the next `size` bytes of the encoded rest, fewer only at the end, or the I/O error |
| Netascii.PacketReader.ReadNetascii | common/tftp-io.c:92-121 | the same for the loop that expands newlines and carries the second half of a pair |
| Netascii.PacketWriter.WritePacket | common/tftp-io.c:123-170 | the file and the carried CR are those of the byte-wise decoder after the payload if the file has room for it, and else the write fails with as much of it in the file as there is room for |
| Netascii.PacketWriter.WriteFinish | common/tftp-io.c:183-191 | a carried CR is written at the end, or the write fails and nothing changes |
| Sender.StampWindow | common/tftp-xfer.c:69-82 | the packets of a window carry consecutive numbers over the wrap |
| Sender.CountWindow | common/tftp-xfer.c:166-169 | the byte count grows by the payloads of the window, modulo 2^64 |
| Sender.FindConfirmed | common/tftp-xfer.c:144-164 | the search finds the first packet of the window, its last excluded, with the acknowledged number |
| Sender.Transmit | common/tftp-xfer.c:87-105 | sends the window from the resend point on and ends where the step function does |
| Sender.React | common/tftp-xfer.c:107-165 | each answer to a receive leads to the state of the step function; going back to a packet or ignoring the answer changes nothing but the phase, and what each packet, timeout and failure leads to is stated in `TransferRecovery` |
| Sender.Await | common/tftp-xfer.c:107-165 | the receive loop ends exactly when the step function leaves the waiting phase |
| Sender.Send | common/tftp-xfer.c:33-176 | for every script of answers the engine ends in the state, and has sent the packets, of the fold of its steps, timeouts included |
| Sender.OversizedStops | common/tftp-xfer.c:60-99 | an empty or too large window, or a packet beyond the block size where it is about to be sent, ends the transfer with a read error, and otherwise the packet is sent |
| Receiver.Await | common/tftp-xfer.c:234-292 | retry point and receive loop follow the step function up to an accepted packet |
| Receiver.Acknowledge | common/tftp-xfer.c:319-348 | the window is drained, the file finished if it is the last, and only then acknowledged |
| Receiver.Reserve | common/tftp-xfer.c:349-355 | reserving a slot leads to the reply, the early packet or the next receive |
| Receiver.Publish | common/tftp-xfer.c:306-318 | a published block is counted and closes the window when it is full or short |
| Receiver.Recv | common/tftp-xfer.c:178-357 | for every script of answers the engine ends in the state, and has sent the packets, of the fold of its steps |
| Receiver.DataJudged | common/tftp-xfer.c:283-305 | a DATA of the expected block is refused if and only if it is beyond the block size or takes the file beyond its limit, each with its status |
| ReaderRing.CommitInv | common/tftp-io.c:233-251 | recording a packet keeps the ring: its slots hold the next blocks of the file in order |
| ReaderRing.AcquireInv | common/tftp-io.c:404-420 | holding a window keeps the ring |
| ReaderRing.ReleaseInv | common/tftp-io.c:445-464 | releasing a window keeps the ring and moves on by the blocks held |
| ReaderRing.StopInv | common/tftp-io.c:214-253 | stopping at any time keeps the ring |
| ReaderRing.AcquiredWindow | common/tftp-io.c:376-421 | whatever the interleaving, the window is a function of the file and the blocks released: contents, count, final flag exactly at the short packet |
| ReaderRing.FillSlotNotHeld | common/tftp-io.c:222-233 | the slot being filled is never one that the protocol thread holds |
| ReaderRing.ReaderNeverStuck | common/tftp-io.c:385-403 | while the protocol thread waits for a window, the reader has a step; the two never both wait |
| ReaderRing.ThreadStepInv | common/tftp-io.c:214-253 | every step of the reader thread keeps the ring |
| ReaderRing.ThreadStepProgress | common/tftp-io.c:214-253 | and brings the window closer |
| ReaderRing.FillUp | common/tftp-io.c:385-403 | the reader's steps lead to a ready window, which is what the unthreaded loop computes |
| ReaderIo.StartReader | common/tftp-io.c:294-367 | refused if and only if there are no slots, no room for data, or fewer slots than the window; a new ring satisfies the ring invariant |
| ReaderIo.Reader.FillSlot | common/tftp-io.c:214-253 | reading into the slot at tail is the fill step |
| ReaderIo.Reader.CommitSlot | common/tftp-io.c:214-253 | recording length, end of file or error is the commit step |
| ReaderIo.Reader.ReadOne | common/tftp-io.c:385-403 | one turn of the unthreaded loop is one claim, fill and commit, and gets closer |
| ReaderIo.Reader.ReadWindow | common/tftp-io.c:376-421 | the unthreaded window is the one that the threaded ring would hand out, or the error |
| ReaderIo.Reader.ReadPacket | common/tftp-io.c:423-432 | the n-th packet of the window held, or none |
| ReaderIo.Reader.ReadLength | common/tftp-io.c:434-443 | its length with the header, or none |
| ReaderIo.Reader.ReleaseWindow | common/tftp-io.c:445-464 | the release step |
| WriterRing.ReserveInv | common/tftp-io.c:466-496 | reserving keeps the order READY or WRITING, at most one RESERVED, EMPTY |
| WriterRing.PublishInv | common/tftp-io.c:498-529 | publishing keeps it and appends exactly the stored block to what is published |
| WriterRing.TakeInv | common/tftp-io.c:263-273 | taking the head keeps it |
| WriterRing.WriteInv | common/tftp-io.c:273-281 | writing the head keeps it |
| WriterRing.WriteFile | common/tftp-io.c:273-281 | and the file stays the published blocks up to the head, in order |
| WriterRing.WriteFailsInv | common/tftp-io.c:275-281 | a write that fails after some bytes keeps it; what was in the file stays |
| WriterRing.CompleteInv | common/tftp-io.c:283-288 | freeing the head keeps it |
| WriterRing.SlotsNeverShared | common/tftp-io.c:255-291 | the writer and the protocol thread never own one slot |
| WriterRing.FileNeverShared | common/tftp-io.c:536-598 | once the ring is drained nothing is being written, or can be |
| WriterRing.SlotFree | common/tftp-io.c:466-496 | a ring that is not full and has nothing reserved has a free slot at tail |
| WriterRing.WriterNeverStuck | common/tftp-io.c:263-265 | while the protocol thread waits in reserve or drain, the writer has a step |
| WriterRing.ThreadStepInv | common/tftp-io.c:255-291 | every step of the writer thread keeps ring and file and gets closer to drained |
| WriterRing.ThreadStepTail | common/tftp-io.c:255-291 | and touches neither the tail nor what is reserved there |
| WriterRing.Drain | common/tftp-io.c:536-586 | the writer's steps lead to an empty ring |
| WriterRing.DrainedFile | common/tftp-io.c:536-586 | a drained ring means that the file holds all published blocks |
| WriterIo.StartWriter | common/tftp-io.c:294-374 | refused if and only if there are no slots or no room for data; a new ring satisfies the ring invariant |
| WriterIo.Writer.Reserve | common/tftp-io.c:466-496 | the reserve step, or a refusal exactly when there is no free slot |
| WriterIo.Writer.Publish | common/tftp-io.c:498-529 | the publish step, or a refusal exactly for a slot not reserved or a length too large |
| WriterIo.Writer.WriteOne | common/tftp-io.c:553-568 | one turn of the unthreaded loop writes and frees one slot, a step towards the drained ring, or records the error with the file cut at the room there is |
| WriterIo.Writer.Drain | common/tftp-io.c:536-586 | succeeds if and only if there is no earlier error, the drained file fits the room there is, and the flush succeeds; then the ring is the drained one of the threaded ring, else the file is as much of that file as fits |
| WriterIo.Writer.WriteAll | common/tftp-io.c:553-568 | the loop ends with the drained ring if its file fits, else with the error and the part that fits |
| WriterIo.Writer.FinishFile | common/tftp-io.c:588-598 | writes a carried CR and flushes; a failure of either is recorded |
| TransferSafety.StepInv | common/tftp-xfer.c:33-357 | every step of both programs, both rings and the network keeps the invariant |
| TransferSafety.RunInv | common/tftp-xfer.c:33-357 | every state of every run satisfies it |
| TransferSafety.SenderOkMeansFileCopied | common/tftp-xfer.c:60-175 | if the sender returns OK, the receiver's file equals the sender's byte for byte and is finished, in both modes, and the byte count is that of the stream |
| TransferSafety.ReceiverOkMeansFileComplete | common/tftp-xfer.c:297-348 | the same for the receiver's OK, whose count is the length of the stream without wrap-around |
| TransferSafety.PublishedIsPrefix | common/tftp-xfer.c:283-318 | in every reachable state the accepted blocks are a prefix of the file's, and the byte count is theirs and within the limit |
| TransferSafety.NoEarlyRelease | common/tftp-xfer.c:138-174 | in every state of every run, after failures too, the receiver's file begins with all blocks of the windows that the sender has released; the last window is released only after `write_finish` |
| TransferSafety.RunOnDisk | common/tftp-io.c:123-170 | whatever has been drained stays in the file, whatever fails later |
| TransferSafety.ThreadsApart | common/tftp-io.c:255-291 | in every state of every run, while the file is flushed or finished the writer thread neither writes nor can begin to, and the slot being filled is not the one being written |
| TransferSafety.WindowsAligned | common/tftp-xfer.c:60-68 | windows start after a multiple of W, all but the last hold W packets, and the receiver's count is the accepted blocks modulo W (section 4 of RFC 7440) |
| TransferSafety.AcceptedOnlyInOrder | common/tftp-xfer.c:283-292 | a DATA is accepted if and only if it is the next block |
| TransferSafety.SkippedPacketsAccepted | common/tftp-xfer.c:144-164 | an ACK inside the window that is not late by whole periods lets the sender skip only packets that were accepted |
| TransferSafety.DataNumber | common/tftp-xfer.c:283-285 | any DATA on the wire has the expected number if and only if it is the next block or late by whole periods |
| TransferSafety.DataNumberIsIndex | common/tftp-xfer.c:283-285 | a DATA that is not late by whole periods has the expected number if and only if it is the next block |
| TransferSafety.AckNumber | common/tftp-xfer.c:138-164 | any ACK on the wire has the number of a packet of the window if and only if it acknowledges everything up to it or is late by whole periods |
| TransferSafety.AckNumberIsIndex | common/tftp-xfer.c:138-164 | an ACK that is not late by whole periods has the number of a packet of the window if and only if it acknowledges everything up to it |
| TransferSafety.LastAckMeansDrained | common/tftp-xfer.c:138-139 | the ACK of the last packet means that the window is drained, and the file finished if it is the last |
| TransferRecovery.PartialAckResends | common/tftp-xfer.c:144-164 | an ACK for the first packets of the window but not all makes the sender go back to the first packet that it does not cover, and changes nothing else |
| TransferRecovery.SuffixResent | common/tftp-xfer.c:87-105 | k sends from packet n on put exactly the packets n to n + k - 1 on the wire, and after the last packet the sender waits |
| TransferRecovery.PartialAckRecovers | common/tftp-xfer.c:87-164 | both together: exactly the packets that the ACK does not cover are on the wire again, and the sender waits as before |
| TransferRecovery.LateAckResends | common/tftp-xfer.c:144-164 | an ACK late by whole periods of a packet of the window passes for an ACK of the first such packet |
| TransferRecovery.OldAckIgnored | common/tftp-xfer.c:144-164 | every other ACK from before the window changes nothing |
| TransferRecovery.FullAckReleases | common/tftp-xfer.c:138-174 | the ACK for the whole window releases it, and ends the transfer if it was the last |
| TransferRecovery.OtherPacketEffect | common/tftp-xfer.c:122-143 | an ERROR ends the transfer with the peer's error, an OACK makes a sender that answers it send the whole window again, every other packet is ignored |
| TransferRecovery.SenderTimeoutResends | common/tftp-xfer.c:84-87 | a timeout makes the sender send the whole window again |
| TransferRecovery.SenderFailures | common/tftp-xfer.c:61-115 | a failed load, send or receive ends the sender, each with its status |
| TransferRecovery.SendEffect | common/tftp-xfer.c:88-105 | a send that succeeds puts one packet on the wire and moves on to the next, or to waiting |
| TransferRecovery.DataEffect | common/tftp-xfer.c:281-305 | the next block is taken, or refused if it exceeds the size limit; a DATA of another block is answered with the ACK of the last block in order, and nothing else changes |
| TransferRecovery.ReceiverTimeoutReplies | common/tftp-xfer.c:235-251 | a timeout makes the receiver repeat its first reply until data has come, and from then on the ACK of the last whole window |
| TransferRecovery.ReplySent | common/tftp-xfer.c:246-262 | the repeated reply goes over the wire and the receiver listens again |
| TransferRecovery.WindowAckSent | common/tftp-xfer.c:338-347 | the ACK of a whole window goes over the wire; after that of the last window the receiver has finished, else it goes on |
| TransferRecovery.NonDataEffect | common/tftp-xfer.c:274-282 | an ERROR ends the transfer, every other packet but DATA is ignored |
| TransferRecovery.ReceiverFailures | common/tftp-xfer.c:226-355 | a failed reserve, drain, send or receive ends the receiver, each with its status |
| TransferRecovery.FlushFailures | common/tftp-xfer.c:323-337 | so does a failed flush or finish |
| TransferStaleness.YoungPacketsAreFresh | common/tftp-xfer.c:26-31 | if packets do not outlive the next window and two windows are less than a period, no packet is late by whole periods |
| TransferStaleness.DataTaken | common/tftp-xfer.c:283-318 | a listening receiver takes a DATA, however late, if and only if it is the next block or late by whole periods, and with the contents it carries |
| TransferStaleness.WindowReleased | common/tftp-xfer.c:138-139 | a waiting sender releases its window on an ACK, however late, if and only if it is that of the window's end or late by whole periods; only in the first case is the window known to be on disk |
| TransferStaleness.FalseOk | common/tftp-xfer.c:138-174 | for every such file there is a run in which a late ACK would make the sender return OK although the last window has not arrived |
| TransferStaleness.PathRecorded | common/tftp-xfer.c:283-318 | packets stay on the network, and the DATA of every block that the receiver has is among them |
| TransferLate.OkIsTrueExactly | common/tftp-xfer.c:60-175 | on a network that delivers packets however late, a sender's OK means in every run that the file is copied and finished if and only if the file has fewer than 65536 blocks |
| TransferLate.ShortRunInv | common/tftp-xfer.c:33-357 | below that every state of every such run satisfies the invariant |
| TransferLate.LateFalseOk | common/tftp-xfer.c:138-174 | from that on there is such a run in which the sender has returned OK and the receiver lacks the last window |
| TransferLate.AckMistakenExactly | common/tftp-xfer.c:138-139 | on that network an ACK can be taken for that of another window's end if and only if the file has at least 65536 blocks |
| TransferLate.DataMistakenExactly | common/tftp-xfer.c:283-292 | on that network a DATA can be taken for another block if and only if the file has at least 65536 blocks, 65537 with rollover 0 |
| TransferProgress.UnthreadedReserveSucceeds | common/tftp-xfer.c:319-355 | with one slot per packet of the window the unthreaded ring never refuses a reserve |
| TransferProgress.NeverStuck | common/tftp-io.c:376-586 | whenever an engine waits for its ring, one of the two threads has a step |
| TransferProgress.DeliverAll | common/tftp-xfer.c:234-355 | delivering the window in order, and nothing else, makes the receiver acknowledge it |
| TransferCompletion.LoadNext | common/tftp-xfer.c:60-82 | the reader fills the ring and the sender loads its next window |
| TransferCompletion.WindowGetsAcknowledged | common/tftp-xfer.c:84-164 | from every state with both sides running, whether the sender loads, sends or waits, exactly one timeout, the DATA of the window delivered in order and one ACK, with nothing that fails, get the window acknowledged, and both sides are ready for the next |
| TransferCompletion.TransferCompletes | common/tftp-xfer.c:33-357 | from every such state a readable file is transferred to the sender's OK and the complete file, with one timeout for each window left and the DATA delivered in ascending order |
| TransferCompletion.SomeRunCompletes | common/tftp-xfer.c:33-357 | every transfer with a readable file within the size limit has a run that completes it |
| TransferCompletion.CompletesExactly | common/tftp-xfer.c:33-357 | some run ends with the sender's OK if and only if the file can be read to its end and is within the size limit |
| Octets.CaseBit | common/tftpsubs.c:353-360 | the bit test finds exactly the pairs that differ in the case of a letter |
| Octets.StrCaseEq | common/tftpsubs.c:347-372 | two strings are equal up to the case of ASCII letters |
| Octets.NumberRoundTrip | tftpd/tftpd.c:1530-1541 | a printed 64-bit number is read back, whole and without error |
| Octets.AtMostTwentyDigits | common/tftpsubs.h:255-255 | it has at most twenty digits |
| RequestMeaning.OptionsSpelled | tftpd/tftpd.c:180-189 | `blksize`, `blksize2`, `cookie` and `rollover` are spelt so |
| RequestMeaning.MoreOptionsSpelled | tftpd/tftpd.c:180-189 | and `timeout`, `tsize`, `utimeout` and `windowsize` |
| RequestMeaning.ModesSpelled | tftpd/tftpd.c:1335-1340 | and the modes |
| RequestMeaning.DigitsRead | tftpd/tftpd.c:1538-1543 | behind a digit a number is accepted if and only if only digits follow and it fits 64 bits, and it is the number that they write |
| RequestMeaning.SignsRead | tftp/tftp.c:719-722 | the client's reading: white space and a plus sign mean nothing, a minus sign takes the value from 2^64 |
| RequestMeaning.PacketSplits | tftpd/tftpd.c:1371-1400 | every packet is a list of strings followed by the end, an empty string or a string without a NUL |
| RequestMeaning.RequestRead | tftpd/tftpd.c:1366-1405 | that list decides: missing mode, unknown mode, not terminated, or accepted with each option asked for if and only if it is given a suitable value, and with the last such value |
| RequestMeaning.PairSetsRow | tftpd/tftpd.c:1517-1560 | a pair sets the row of its option if the value is suitable, and nothing else |
| Requests.LookupSpelled | tftpd/tftpd.c:1525-1530 | a name that is found has the length of the canonical name, so copying by that length copies it with its NUL |
| Requests.ParsedOk | tftpd/tftpd.c:1366-1400 | whatever is sent, each option that counts as requested has its name inside the request and its value is the number of its text |
| Requests.OptionsOk | tftpd/tftpd.c:1366-1400 | the same for the option loop from any point on |
| Requests.PairTaken | tftpd/tftpd.c:1387-1398 | a pair with non-empty strings is entered and parsing goes on right behind it |
| Requests.PairEntered | tftpd/tftpd.c:1517-1560 | a pair with the name of a numeric option and a printed number sets exactly that row |
| Daemon.Daemon.FindOption | tftpd/tftpd.c:1525-1526 | the first row whose name is equal up to case |
| Daemon.Daemon.ParseOption | tftpd/tftpd.c:1517-1560 | the table changes in the row of the option only; a bad number leaves all but the spelling of the name |
| Daemon.Daemon.ParseRequest | tftpd/tftpd.c:1366-1405 | name, mode and pairs are read up to an empty string; the three errors and the table are those of the recursive reading |
| Negotiation.MaxBlksize | common/tftpsubs.c:73-124 | within 8..65464, at least 512 when derived from the MTU, and above 512 never larger than the MTU allows |
| Negotiation.MaxBlksizeExactly | common/tftpsubs.c:73-124 | exactly: the setting within 8 and 65464, or the MTU plus the setting less 32 or 52 bytes of headers, within 512 and 65464 |
| Negotiation.LowestBitCleared | tftpd/tftpd.c:1587-1588 | n & (n-1) is 0 if and only if n is a power of two, and keeps the highest bit otherwise |
| Negotiation.RoundDown | tftpd/tftpd.c:1586-1588 | the loop ends with the largest power of two up to the size |
| Negotiation.PowerBelowIsPower | tftpd/tftpd.c:1586-1588 | which is a power of two |
| Daemon.Daemon.ChooseBlksize | tftpd/tftpd.c:1566-1614 | which of `blksize` and `blksize2` are granted, and the size |
| Daemon.Daemon.NegotiateBlksize | tftpd/tftpd.c:1566-1624 | the granted rows carry the size; without a grant it is 512 |
| Daemon.Daemon.NegotiateWindowsize | tftpd/tftpd.c:1626-1649 | the window that both limits leave, or 1 without a grant |
| Daemon.Daemon.NegotiateTsize | tftpd/tftpd.c:1651-1681 | a write echoes, an octet read of 0 gets the size, nothing else is granted |
| Daemon.Daemon.NegotiateTimeout | tftpd/tftpd.c:1683-1720 | `utimeout` goes before `timeout`, and both are granted only if they agree; `GrantsMatchTransfer` says exactly when each is granted |
| Daemon.Daemon.NegotiateRollover | tftpd/tftpd.c:1722-1732 | only 0 and 1 are granted |
| Daemon.Daemon.NegotiateOptions | tftpd/tftpd.c:1792-1807 | all steps in order, or none if options are rejected |
| Daemon.Daemon.BuildOack | tftpd/tftpd.c:1747-1790 | none without a grant, else the opcode and the granted pairs in table order, in the client's spelling, filling the measured buffer exactly |
| Negotiation.BlksizeDeal | tftpd/tftpd.c:1566-1624 | `segsize` is in 8..65464, 512 without a grant, at most request and maximum for `blksize`, a power of two for `blksize2`, and all that the limit allows for a lone option |
| Negotiation.BlksizeChoice | tftpd/tftpd.c:1566-1624 | with p the largest power of two that `blksize2` and the limit allow: `blksize` decides unless it asks for less than p, `blksize2` is granted along with it for a power of two, and the size is the one decided on, or p, or 512 |
| Negotiation.IsPowerExactly | tftpd/tftpd.c:1586-1588 | the powers of two are those that rounding down leaves alone |
| Negotiation.Blksize2Exceeded | tftpd/tftpd.c:1613-1618 | a granted `blksize2` exceeds the request if and only if `blksize` asks for more |
| Negotiation.Blksize2ExceededExample | tftpd/tftpd.c:1613-1618 | and there is a request for which it does |
| Negotiation.WindowDeal | tftpd/tftpd.c:1626-1649 | a window above 1 is at most request and maximum and fits the byte limit, and no larger one would |
| Negotiation.ZeroWindowBytes | tftpd/tftpd.c:1637-1638 | a byte limit of 0 always leaves a window of 1 |
| Negotiation.GrantsMatchTransfer | tftpd/tftpd.c:1792-1807 | after all steps every granted option carries the value that the transfer uses, and what is not granted has its default; `utimeout` is granted as asked for if and only if it is in 10000..255000000, `timeout` if and only if it is in 1..255 and no such `utimeout` differs from it, `rollover` if and only if it is at most 1 |
| Client.OptionsFit | tftp/tftp.c:207-210 | the options always fit the buffer that is reserved for them |
| Client.WantedExactly | tftp/tftp.c:626-661 | a block size other than 512, a window above 1 and a known size are asked for, and nothing without options |
| Client.RequestTooLong | tftp/tftp.c:667-670 | a request is refused if and only if its strings and options exceed 65464 bytes |
| Client.PutOptions | tftp/tftp.c:626-661 | what is asked for, and its bytes, within that buffer |
| Client.FillRequest | tftp/tftp.c:613-683 | the packet is filled to its last byte, or refused if and only if it is too long |
| Client.ParseOack | tftp/tftp.c:690-752 | the loop accepts and takes what the recursive reading of the pairs does |
| Client.PairJudged | tftp/tftp.c:704-745 | a pair is judged by its two strings and parsing goes on right behind it |
| Client.NumberAccepted | tftp/tftp.c:719-745 | a number is accepted if and only if its option was asked for, is not there yet, and the value lies within the request |
| Client.UnderstoodWithin | tftp/tftp.c:690-752 | whatever a server answers, the client agrees to nothing beyond its request |
| Client.SeenDistinct | tftp/tftp.c:704-741 | unless tsize is combined with another option, an accepted OACK has no option twice |
| Client.TwiceAccepted | tftp/tftp.c:735-741 | an option repeated after tsize is accepted |
| Client.RepeatsRejected | tftp/tftp.c:684-689 | repeated options are always rejected if and only if the request does not combine tsize with another option |
| Agreement.Handle | tftpd/tftpd.c:1366-1424 | the parsed request, the size check and the negotiation give the reply that the theorems below speak of |
| Agreement.DealtAnswerable | tftpd/tftpd.c:1781-1787 | whatever was requested, the name of every granted option can be copied out of the request |
| Agreement.CookieEchoed | tftpd/tftpd.c:1734-1740 | a cookie is granted if and only if it is asked for, not refused and at most 255 bytes long, and the answer repeats the bytes of the request, name and value |
| Agreement.OackSpelled | tftpd/tftpd.c:1747-1790 | the OACK of any accepted request holds all granted options and no others, each once, in table order, in the client's spelling and with the granted value |
| Agreement.RequestRoundTrip | tftpd/tftpd.c:1366-1400 | the daemon reads back from every request of the client its mode and exactly its options and values |
| Agreement.DealsFairly | tftpd/tftpd.c:1792-1807 | the daemon grants only what the client asked for, in the range that it accepts |
| Agreement.OackUnderstood | tftp/tftp.c:690-752 | the client accepts the daemon's answer, with or without an OACK, and takes the values of the transfer from it |
| Agreement.EndsAgree | tftp/tftp.c:613-752 | for every name, mode and setting: a request is refused only for a write that announces too much, and otherwise both ends have the same block size, window and rollover if and only if `reject_all_options` is off; the tsize taken is the one promised |
| Session.RingSlots | tftpd/tftpd.c:1487-1502 | the daemon's ring has a window and beside it the least room for a window, two blocks and 256 KiB; without threads one window |
| Session.AgreedTransfer | tftpd/tftpd.c:1457-1474 | both ends start the same transfer, it meets all that the safety theorems require, and some run of it ends with the sender's OK if and only if the file can be read and is within the size limit |
| Backoff.WaitsTotal | common/tftp.h:91-92 | the waits sum to twice the last without the first, and the last is the first whose double reaches the limit |
| Backoff.DaemonGivesUp | tftpd/tftpd.c:228-235 | a window without an answer is sent six times, with waits r, 2r, …, 32r that sum to exactly 63r (section 4.2.3.2 of RFC 1123) |
| Backoff.ClientGivesUp | tftp/tftp.c:922-935 | for every limit T of at least r the client waits for more than T - r and at most 2T - r |
| Backoff.Timer.Expire | tftpd/tftpd.c:228-235 | the timeout doubles, and the daemon gives up at its maximum, the client beyond it |
| Backoff.Timer.Unanswered | common/tftp-xfer.c:84-107 | the retry loop sends and waits as in the list of waits |
| Backoff.RecvTime | common/tftpsubs.c:146-198 | every poll is given what is left until the deadline; interruptions and empty wake-ups go on, and the first other poll decides: a timeout exactly if it found nothing, a failure, or the packet |
| Backoff.DeadlineKept | common/tftpsubs.c:141-145 | interruptions and empty wake-ups do not extend the deadline, and it is never cut short |
| Paths.WalkIsClamped | tftpd/tftpd.c:1814-1862 | the left-to-right walk computes the fold that skips "." and clamps ".." at the root |
| Paths.NormalizedComponents | tftpd/tftpd.c:1814-1862 | a normalised path is absolute and has exactly the components of that fold |
| Paths.NormalizedText | tftpd/tftpd.c:1814-1862 | spelt out: the components of that fold with one slash before each, and one at the end if and only if the path ends in a slash, "." or ".." |
| Paths.Idempotent | tftpd/tftpd.c:1814-1862 | normalising twice is normalising once |
| Paths.DropDirectory | tftpd/tftpd.c:1847-1851 | stepping back removes exactly the last directory written |
| Paths.SkipDots | tftpd/tftpd.c:1837-1856 | after a slash, slashes and dots are skipped without changing the result |
| Paths.CopyOne | tftpd/tftpd.c:1835-1857 | one turn of the loop writes behind the read position and leaves all unread input as it was |
| Paths.NormalizeInPlace | tftpd/tftpd.c:1829-1859 | reading and writing one buffer, it leaves the normalised path and touches nothing behind the original string |
| Paths.NormalizePath | tftpd/tftpd.c:1814-1862 | the three modes: the name as it is, with a leading slash, or normalised |
| PathLists.ResolvedFails | tftpd/path.c:133-168 | resolution fails if and only if some prefix ascends above the start |
| PathLists.ParseMeaning | tftpd/path.c:175-238 | `parse_path` fails if and only if there is a control character or an ascent above the root, and otherwise is the stack semantics |
| PathLists.StrictResolved | tftpd/path.c:175-238 | strict parsing takes a path as it stands or, with "." or "..", not at all |
| PathLists.StrictExactly | tftpd/path.c:175-238 | strict parsing takes exactly the absolute paths without bytes below 32 and without "." and "..", as their components |
| PathLists.NormalizedParses | tftpd/path.c:175-238 | a normalised path passes strict parsing with the components of the fold, control characters aside |
| PathLists.AdjustTail | tftpd/path.c:133-168 | keeps the component, drops it, or drops it and the one before |
| PathLists.ParsePath | tftpd/path.c:175-238 | the two passes compute the parse |
| PathLists.BuildPath | tftpd/path.c:244-276 | the buffer of the measured size is filled exactly, NUL included; the text is the prefix without its trailing slashes, followed by what parses strictly to the list, or by nothing for an empty list |
| PathLists.BuildParses | tftpd/path.c:244-276 | strict parsing of a printed list gives the list back |
| PathLists.ParsedIsClean | tftpd/path.c:175-238 | a strictly parsed path has the components of its text, none of them "." or "..", and printing and parsing it again changes nothing |
| PathLists.ComparePaths | tftpd/path.c:286-300 | bit 0 if and only if a is a prefix of b, bit 1 if and only if b is a prefix of a |
| PathLists.CheckAccess | tftpd/tftpd.c:2050-2069 | a name passes if and only if it parses strictly and lies below an allowed directory, and the name opened is the prefix without its trailing slashes followed by the parsed components |
| PathLists.Contained | tftpd/tftpd.c:2050-2069 | a name that passes is, as text, an allowed directory followed by nothing or a slash |
| Substitution.XformState.XformOut | tftpd/remap.c:134-151 | copies with the case transform up to a backslash |
| Substitution.XformState.MemCpy | tftpd/remap.c:174-182 | copies, or only counts without a buffer |
| Substitution.DoGenMatchString | tftpd/remap.c:184-284 | measuring and filling give one length, nothing is written past it, and the result is prefix, expansion and suffix; what the expansion is is stated in `Patterns` |
| Substitution.GenMatchString | tftpd/remap.c:289-308 | the new string, exactly in a buffer of the measured length |
| Substitution.PrefixKept | tftpd/remap.c:184-284 | a substitution behind an offset leaves the text before it and after the match alone |
| Substitution.ReplaceByItself | tftpd/remap.c:134-151 | replacing a match by itself changes nothing if and only if the match has no backslash |
| Patterns.Middle | tftpd/remap.c:184-284 | the text put in the place of the match stands between the unchanged text before it and after it |
| Patterns.PlainStands | tftpd/remap.c:272-274 | a pattern without a backslash stands for itself |
| Patterns.GroupCopied | tftpd/remap.c:219-234 | a digit stands for the text of that group up to a backslash in it, and for nothing if the group took no part |
| Patterns.WholeGroupCopied | tftpd/remap.c:219-234 | a group without a backslash is copied as it is |
| Patterns.BackslashStands | tftpd/remap.c:248-255 | a doubled backslash, and one at the end, stands for a backslash |
| Patterns.MacroStands | tftpd/remap.c:257-264 | a macro stands for its text up to a backslash in it |
| Patterns.UnknownKept | tftpd/remap.c:264-268 | a backslash before any other character is dropped |
| Patterns.PiecesJoin | tftpd/remap.c:213-275 | a piece without case switches, and what follows it, are expanded one after the other |
| Patterns.CaseSwitched | tftpd/remap.c:236-246 | after "\\U" the same text comes out with its letters in upper case, after "\\L" in lower case |
| Patterns.NoLetterInOtherCase | tftpd/remap.c:236-246 | so no letter from text, groups or macros comes out in the other case |
| Patterns.SwitchLasts | tftpd/remap.c:236-246 | a switch lasts up to the next one, and "\\E" ends it |
| Remap.RewriteByRule | tftpd/remap.c:654-700 | the substitution loop of one rule, under the step limit |
| Remap.Decide | tftpd/remap.c:702-773 | file test, abort, exit, restart and jump in their order; what each means for the run is stated in `RuleActions` |
| Remap.LookUp | tftpd/remap.c:762-766 | the first label of that name |
| Remap.ApplyRule | tftpd/remap.c:619-789 | what one rule does: skipped, no match, rewritten, and where the run goes on or ends |
| Remap.RewriteString | tftpd/remap.c:589-805 | terminates for every rule list and match oracle after at most `map_steps` steps, with the outcome of the recursive interpreter |
| Remap.RunFrom | tftpd/remap.c:619-789 | the measure (steps left, distance to the end of the list) decreases; a run that is cut off has used all steps |
| Remap.LimitOnlyStrikes | tftpd/remap.c:599-628 | a run that ends within the limit ends alike, after as many steps, under every higher limit |
| Remap.StraightLine | tftpd/remap.c:619-789 | without jumps, restarts and repetition as many steps as rules are enough |
| Remap.RewritesAreTested | tftpd/remap.c:702-721 | if every rewriting rule carries the file test, the resulting name is the input or one that can be opened |
| Remap.UnfitRulesSkipped | tftpd/remap.c:612-626 | labels and rules for other requests are passed over and cost no step |
| Remap.BeforeOffsetKept | tftpd/remap.c:654-700 | under "gg" the text before the moving offset is never altered again |
| Remap.SedStyleEnds | tftpd/remap.c:686-699 | and the loop ends by itself, within one step per character and one more, if and only if it does not come to an empty match whose next search is the same search again |
| Remap.EmptyMatchExpires | tftpd/remap.c:686-699 | with such matches it uses up any number of steps |
| RuleActions.FitsExactly | tftpd/remap.c:612-626 | a rule takes part unless it is a label, has no expression, or is marked for the other direction or address family |
| RuleActions.FiresExactly | tftpd/remap.c:635-638 | a rule fires where its expression matches, an inverse rule where it does not |
| RuleActions.QuietRuleGoesOn | tftpd/remap.c:625-639 | a rule that does not fire costs a step and hands the text on; with no step left, or too few for its rewriting, the run is dead |
| RuleActions.RewritesOnce | tftpd/remap.c:664-684 | without "g" one match is replaced by the expansion of the pattern and the rest of the text stays |
| RuleActions.RewritesOn | tftpd/remap.c:664-700 | with "g" the loop goes on at the next match, sought from the start or under "gg" behind the replacement; each costs a step |
| RuleActions.GlobalExhausts | tftpd/remap.c:683-700 | a rule with "g" that ends has left no match, under "gg" none behind an offset |
| RuleActions.RefusedFileGoesOn | tftpd/remap.c:702-723 | a rule whose file is refused has no effect: the run goes on after it with the text that it found |
| RuleActions.ExitEnds | tftpd/remap.c:746-752 | an exit, or a file that can be opened, ends the run with the rewritten text |
| RuleActions.AbortEnds | tftpd/remap.c:726-744 | an abort ends the run with the expansion of its pattern for a message, none if it is empty |
| RuleActions.RestartStartsOver | tftpd/remap.c:754-755 | a restart takes the run back to the first rule with the rewritten text |
| RuleActions.JumpGoesToLabel | tftpd/remap.c:756-773 | a jump takes the run to the first label of the name that its pattern expands to, and is refused if and only if there is none |
| RuleActions.PlainRuleGoesOn | tftpd/remap.c:711-725 | any other rule hands the rewritten text to the next one |
| RuleActions.EndOfList | tftpd/remap.c:787-794 | the end of the list ends the run with the text as it is |

## Left out

- Sockets, address matching, port binding, inetd and listening: the network is a set of packets that may be delivered in any order, again, or never.
- Real file I/O, file locking, permissions, chroot, commit and discard of uploads: a file is a byte sequence, and writes may fail.
- `main` of both programs, option tables, configuration files, the interactive commands, statistics, tracing, logging and error texts.
- Regular expressions and multibyte case conversion: regexec is an oracle with offsets inside its subject, and the case transforms work on single bytes.
- The parser of rule files: a rule list is given, with the combinations of operations that the parser admits.
- The dally after the last ACK and the loss of that ACK: the sender's OK implies the receiver's, never the other way round.
- Signals and `siglongjmp`: a timeout is a step of its own that goes back to the retry point; giving up is taking no more steps.
- The threads' scheduling: any interleaving of the locked regions and the unlocked reads and writes; condition variables are the guards of the steps.
- A read error preempts windows that are already buffered: with errors the model claims what was accepted, not that everything readable was sent.
- The single allocation in which `parse_path` lays out its list, and the pointers into it: a list of components is a sequence of strings.
- Agreement.Handle: does not model the read-only test, the rewriting of the name and the opening of the file, which lie between the size check and the negotiation; it speaks of a request for a file that can be opened.
- Linux capabilities, the poll wrapper, number parsing of command lines, string lists and libc substitutes are not modelled.
