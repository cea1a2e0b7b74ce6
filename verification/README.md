# c_basics in Dafny

c_basics is a collection of small independent C programs about Unix systems programming. This project
models the ones whose behaviour is more than a sequence of system calls and proves what they are for.
Hard-coded constants (thread count, permits, loop bound, message, file, buffer sizes) are parameters, so
every statement covers all of their values.

| file | program |
|---|---|
| `Checksum.dfy` | the Internet checksum of `UnixRawNetworkLayerSocketServer.c`, against RFC 1071 |
| `PortableFloat.dfy` | `htonf`/`ntohf` over binary32 (section 3.4 of IEEE 754-2008) |
| `ChatRoom.dfy` | the abstract chat room both telnet servers refine |
| `PollServer.dfy`, `Poller.dfy` | the poll server: its passes as values, and its code over an array |
| `SelectServer.dfy` | the select server: its passes as values, and its code over descriptor sets |
| `Semaphore.dfy`, `Mutex.dfy`, `SpinLock.dfy` | the thread programs under every interleaving |
| `Reaping.dfy` | child reaping by SIGCHLD |
| `Pipe.dfy`, `FileTransfer.dfy` | parent and child over a pipe; file client and server over a byte stream |
| `EventWalk.dfy` | the inotify buffer walk |
| `Runs.dfy`, `Totals.dfy`, `Arithmetic.dfy`, `Basics.dfy` | runs of interleaved programs, sums over threads, products and quotients, shared definitions |

How things are modelled:

- **Interleaved programs** are state machines: a state, an action per atomic step, and `Runs.Reachable`
  for what some run of any length leads to. `x++`, `x--` and the shifts are a load and a store; the
  semaphore program also has a mode in which a shift is one step, because its own claim needs that, and the
  spinlock program one without the lock.
  A state is `Stuck` when no action is possible; that every run is bounded and that stuck states are the
  wanted ones together say how every run ends.
- **The two servers** are proved twice over: methods over the mutable table or sets are tied to a value
  function of the old state, and the theorems are about runs of those functions. The kernel is a
  parameter: `accept` returns -1 or any descriptor that is not open, so descriptors come back; readiness
  is arbitrary; `recv` returns anything.
- **Appended poll slots** keep whatever `revents` their memory holds (`add_to_pfds` does not set it), so
  the theorems hold for every such value. `poll` is given `fd_size` entries and the model writes them all.
- **Floats** are natural multiples of a smallest unit (2^-149 for binary32, `Grid` in general) with
  magnitude m * 2^k, m < 2^24; rounding is to nearest, ties to even. Every operation is rounded.
- **SIGCHLD** is one pending bit. When `waitpid` reaps the last zombie the kernel may discard the pending
  signal, as the `wait()` page of POSIX.1-2017 has it, or keep it.
- **32-bit unsigned arithmetic** in the checksum wraps explicitly; words load little-endian, which the odd
  tail line of the code relies on.

Where comments and code disagree the model follows the code. The comment at
`TelnetServerPollingFileDescriptorsWithUnixStreamStreamSockets.c:150` says a deleted entry moves to the
end; the code overwrites it with the last entry. The comments at `UnixSemaphores.c:18-19` and `30-31` say that
two permits keep the failure exit out of reach and three do not. That holds when each shift is one step; with
shifts as compiled three threads reach the exit with two permits, which the shipped constants allow
(`Semaphore.FailureReachableIff`), and only one permit is safe.

Results that correct or sharpen what the programs promise:

- the checksum is right exactly when the accumulator does not wrap, and 131074 bytes is the exact limit;
- `htonf(ntohf(p)) == p` fails for every magnitude that needs more than 24 bits and for the encoded
  negative zero, and for no other `p`;
- the composition of `htonf` and `ntohf` changes no multiple of 2^-16 below 32768 and every other value, and
  keeps the order of magnitudes exactly up to 32768;
- a ready poll client at index p can be skipped exactly in a table of fewer than 2 * p slots; there its wait
  is at most p passes, and the kernel can make it that long;
- the semaphore program can take its failure exit as soon as three threads share two permits, because a
  stored shift may be of a value loaded before another thread shifted back;
- the file client's early break loses data exactly when the file has grown past a size that is a whole
  number of buffers;
- the spinlock program needs its lock from two threads on, since without it the unsigned global can wrap to 255;
- the pipe's reader sees end-of-file only because both processes close the write end.

## Model

| member | source | states |
|---|---|---|
| Checksum.Accumulate | UnixRawNetworkLayerSocketServer.c:84-91 | for the first len bytes of the array, the loop leaves the sum of all little-endian words, odd tail byte included, modulo 2^32; zero if len is negative |
| Checksum.SumByBytes | UnixRawNetworkLayerSocketServer.c:84-91 | every byte counts once, with weight 1 at even and 256 at odd positions, an odd last byte included |
| Checksum.WorkedExample | UnixRawNetworkLayerSocketServer.c:73-104 | the worked example of section 3 of RFC 1071 comes out as printed there |
| Checksum.Fold | UnixRawNetworkLayerSocketServer.c:94-103 | the two fold lines give the complement of the fold-until-no-carry loop for every 32-bit accumulator |
| Checksum.InternetChecksum | UnixRawNetworkLayerSocketServer.c:73-104 | for len from 0 to 131074 the result is the RFC 1071 checksum of the first len bytes; a negative len gives 0xFFFF |
| Checksum.TwoFoldsSuffice | UnixRawNetworkLayerSocketServer.c:94-100 | folding twice equals folding until no carry is left, and gives the residue modulo 65535 that is zero for zero only |
| Checksum.WithinBound | UnixRawNetworkLayerSocketServer.c:78-100 | up to 131074 bytes the accumulator does not wrap and the result has the closed form 0xFFFF - Residue(S) |
| Checksum.RightIffNoWrap | UnixRawNetworkLayerSocketServer.c:78-97 | for every length an int holds, the result is right if and only if the word sum is below 2^32 |
| Checksum.LengthBoundIsTight | UnixRawNetworkLayerSocketServer.c:73-104 | the lengths for which no buffer gets a wrong checksum are exactly those up to 131074 |
| Checksum.AnyWordOrder | UnixRawNetworkLayerSocketServer.c:84-86 | permuting the words does not change the checksum (section 2 (A) of RFC 1071), at any length |
| Checksum.Composes | UnixRawNetworkLayerSocketServer.c:84-97 | the sum of a concatenation after an even-length prefix is the ones' complement sum of the two sums |
| Checksum.ByteOrderDoesNotMatter | UnixRawNetworkLayerSocketServer.c:84-91 | byte-swapping the little-endian result gives the big-endian checksum of section 1 of RFC 1071, odd tail included (section 2 (B)) |
| Checksum.FilledFieldVerifies | UnixRawNetworkLayerSocketServer.c:73-104 | storing the checksum in a zeroed aligned field makes the checksum of the whole buffer zero |
| Checksum.AcceptedFields | UnixRawNetworkLayerSocketServer.c:73-104 | no other field value verifies, except 0xFFFF where the checksum is 0 |
| Checksum.SingleWordChange | UnixRawNetworkLayerSocketServer.c:84-103 | a change of one word goes unnoticed if and only if it swaps 0 and 0xFFFF while another word is nonzero |
| PortableFloat.RoundNearest | QuickAndDirtyPortableFloatingPoint.c:39-41 | rounding returns a nearest representable magnitude |
| PortableFloat.RoundIdentity | QuickAndDirtyPortableFloatingPoint.c:30-32 | rounding is the identity on representable magnitudes |
| PortableFloat.TiesToEven | QuickAndDirtyPortableFloatingPoint.c:39-41 | a number halfway between two 24-bit significands rounds to the even one, as section 4.3.1 of IEEE 754-2008 has it |
| PortableFloat.HtonfRoundsNothing | QuickAndDirtyPortableFloatingPoint.c:30-32 | the conversion, subtraction and multiplication in htonf are all exact |
| PortableFloat.HtonfTruncates | QuickAndDirtyPortableFloatingPoint.c:17-34 | for every finite argument below 2^31, htonf is the magnitude truncated to 2^-16, modulo 2^15, with the sign of a nonzero argument |
| PortableFloat.FieldExact | QuickAndDirtyPortableFloatingPoint.c:39-41 | converting a field and dividing it by 65536 are exact |
| PortableFloat.NtohfRoundsOnce | QuickAndDirtyPortableFloatingPoint.c:37-47 | ntohf rounds the encoded number once, in its addition |
| PortableFloat.NtohfNearest | QuickAndDirtyPortableFloatingPoint.c:37-47 | no float is closer to the encoded number than ntohf's result |
| PortableFloat.NtohfTies | QuickAndDirtyPortableFloatingPoint.c:37-47 | an encoding halfway between two floats decodes to the one with the even significand, with the encoded sign |
| PortableFloat.RoundTrip | QuickAndDirtyPortableFloatingPoint.c:17-47 | ntohf(htonf(x)) for every x below 2^31: exact truncation modulo 2^15, no rounding anywhere |
| PortableFloat.SmallRoundTrip | QuickAndDirtyPortableFloatingPoint.c:17-47 | below 32768 the composition truncates toward zero to a multiple of 2^-16; the magnitude never grows |
| PortableFloat.ErrorSmallIffInRange | QuickAndDirtyPortableFloatingPoint.c:30-32 | the error is below 2^-16 if and only if the argument is below 32768 |
| PortableFloat.RoundTripMonotone | QuickAndDirtyPortableFloatingPoint.c:17-47 | the composition is monotone below 32768 |
| PortableFloat.MonotoneIffInRange | QuickAndDirtyPortableFloatingPoint.c:17-47 | no smaller magnitude comes back larger than x does if and only if x is below 32768 |
| PortableFloat.RoundTripIdempotent | QuickAndDirtyPortableFloatingPoint.c:17-47 | the composition is idempotent on every finite argument below 2^31 |
| PortableFloat.FloatSurvives | QuickAndDirtyPortableFloatingPoint.c:17-47 | ntohf(htonf(x)) has the value of x if and only if x is a multiple of 2^-16 below 32768 |
| PortableFloat.EncodingSurvives | QuickAndDirtyPortableFloatingPoint.c:30-46 | htonf(ntohf(p)) = p if and only if the low 31 bits fit 24 significant bits and p is not 0x80000000 |
| PortableFloat.LargestEncodingIsLost | QuickAndDirtyPortableFloatingPoint.c:30-46 | 0x7fffffff rounds up to 32768 and encodes as 0 |
| ChatRoom.DeliveredExactlyWhenDue | UnixStreamTelnetServerWithSelect.c:240-312 | over any history of the room each delivery happens exactly as often as events call for it: to another member, present at the time |
| PollServer.DeleteRemoves | TelnetServerPollingFileDescriptorsWithUnixStreamStreamSockets.c:151-154 | swap-remove drops exactly the deleted descriptor |
| PollServer.BroadcastOnce | TelnetServerPollingFileDescriptorsWithUnixStreamStreamSockets.c:273-286 | the broadcast loop sends once to each descriptor but the listener and the sender |
| PollServer.EveryRunRefines | TelnetServerPollingFileDescriptorsWithUnixStreamStreamSockets.c:198-293 | in every run the table is the listener and the room's members, and all sends are the room's deliveries |
| PollServer.SentExactlyWhenDue | TelnetServerPollingFileDescriptorsWithUnixStreamStreamSockets.c:272-286 | in every run a message is sent to a descriptor exactly as often as it was said while that was another member, and never to the listener |
| PollServer.VisitObeys | TelnetServerPollingFileDescriptorsWithUnixStreamStreamSockets.c:212-291 | at one index: recv failing or empty drops exactly that descriptor and sends nothing; a message leaves the table as it is and goes once to every other client; an accepted descriptor is appended; nothing else happens |
| PollServer.TurnAnswers | TelnetServerPollingFileDescriptorsWithUnixStreamStreamSockets.c:198-293 | the events of a turn are exactly the kernel's answers: one join if the listener is reported and accept succeeds, then the messages and hang-ups recv returns at each reported index, over the table as deletions shift it |
| PollServer.RunByTurns | TelnetServerPollingFileDescriptorsWithUnixStreamStreamSockets.c:198-293 | a run is its turns one after the other, so what holds of a turn tells every run |
| PollServer.HeardInOrder | TelnetServerPollingFileDescriptorsWithUnixStreamStreamSockets.c:209-286 | in every run the sends to a descriptor, in sequence, are the messages due to it in the order they were received |
| PollServer.EveryRunFits | TelnetServerPollingFileDescriptorsWithUnixStreamStreamSockets.c:134-154 | in every run 1 <= fd_count <= peak <= fd_size = 5 * 2^k, the listener is first, descriptors are distinct, realloc has copied less than fd_size elements, and fd_size is 5 or below twice the peak |
| PollServer.PassServesOrMoves | TelnetServerPollingFileDescriptorsWithUnixStreamStreamSockets.c:209-293 | a pass serves a ready client or swap-remove moves it to a strictly smaller index |
| PollServer.ServedWithinIndex | TelnetServerPollingFileDescriptorsWithUnixStreamStreamSockets.c:209-293 | a client at index p that stays ready is served within p passes |
| PollServer.ServedAtOnceIff | TelnetServerPollingFileDescriptorsWithUnixStreamStreamSockets.c:209-293 | a client at index p is served in every pass that finds it ready if and only if the table has at least 2 * p slots |
| PollServer.DeferralIsTight | TelnetServerPollingFileDescriptorsWithUnixStreamStreamSockets.c:209-293 | in any table of fewer than 2 * p slots some kernel keeps a ready client at index p unserved for p - 1 passes |
| PollServer.WorstCase | TelnetServerPollingFileDescriptorsWithUnixStreamStreamSockets.c:209-293 | for every index and table size, the exact number of passes within which a client that stays ready is served: one in a table of 2 * p slots or more, p otherwise |
| PollServer.OneVisitPerPass | TelnetServerPollingFileDescriptorsWithUnixStreamStreamSockets.c:209-293 | no client is received from twice in a pass |
| Poller.Poller.constructor | TelnetServerPollingFileDescriptorsWithUnixStreamStreamSockets.c:173-195 | the table starts with the listener alone and room for five |
| Poller.Poller.AddToPfds | TelnetServerPollingFileDescriptorsWithUnixStreamStreamSockets.c:134-148 | appending over a doubled copy keeps every old slot and leaves the new revents as memory had it |
| Poller.Poller.DelPfds | TelnetServerPollingFileDescriptorsWithUnixStreamStreamSockets.c:151-154 | the array afterwards holds the swap-removed table |
| Poller.Poller.SendToOthers | TelnetServerPollingFileDescriptorsWithUnixStreamStreamSockets.c:273-286 | the loop issues the broadcast's sends in table order and changes nothing else |
| Poller.Poller.PollAll | TelnetServerPollingFileDescriptorsWithUnixStreamStreamSockets.c:200 | poll rewrites the readiness of every watched slot in use |
| Poller.Poller.VisitSlot | TelnetServerPollingFileDescriptorsWithUnixStreamStreamSockets.c:212-291 | one index of the pass, as the value model has it, and so by the kernel's answer alone: who is dropped, who is let in, and what is sent to whom |
| Poller.Poller.RunPass | TelnetServerPollingFileDescriptorsWithUnixStreamStreamSockets.c:209-293 | the loop over a changing fd_count ends and does what the value model's pass does |
| Poller.Poller.TakeOneTurn | TelnetServerPollingFileDescriptorsWithUnixStreamStreamSockets.c:198-293 | one turn keeps table shape, capacity and refinement |
| SelectServer.BroadcastOnce | UnixStreamTelnetServerWithSelect.c:303-312 | each broadcast loop sends once to every client but the one it is about, and never to the listener |
| SelectServer.EveryRunRefines | UnixStreamTelnetServerWithSelect.c:184-319 | in every run the master set is the listener and the room's members, fd_max bounds it, and all sends are the deliveries of a room that announces |
| SelectServer.SentExactlyWhenDue | UnixStreamTelnetServerWithSelect.c:240-312 | in every run each message and announcement is sent to a descriptor exactly as often as it was due to it, and never to the listener |
| SelectServer.VisitObeys | UnixStreamTelnetServerWithSelect.c:208-317 | at one descriptor: an empty recv drops it and announces that it left, a message goes on as received to every other client, an accepted descriptor is added, announced and counted in fd_max; nothing else happens |
| SelectServer.TurnAnswers | UnixStreamTelnetServerWithSelect.c:191-318 | the events of a turn are exactly the kernel's answers in rising order: each client select reports says all that recv returned or leaves if that is empty, the listener lets in what accept returns, and the master set changes by exactly these |
| SelectServer.RunByTurns | UnixStreamTelnetServerWithSelect.c:184-319 | a run is its turns one after the other, so what holds of a turn tells every run |
| SelectServer.HeardInOrder | UnixStreamTelnetServerWithSelect.c:206-312 | in every run the sends to a descriptor, in sequence, are the messages and announcements due to it in the order of the events |
| SelectServer.PassServesSnapshot | UnixStreamTelnetServerWithSelect.c:191-318 | a pass receives from every client of the snapshot exactly once, in rising order, and fd_max does not fall |
| SelectServer.PassKeeps | UnixStreamTelnetServerWithSelect.c:206-318 | through the whole pass, every descriptor of the snapshot is in the master set when the pass comes to it, even when accept reuses a descriptor; refinement and the bound fd_max are kept |
| SelectServer.ReuseWithinAPass | UnixStreamTelnetServerWithSelect.c:206-287 | a descriptor closed in a pass can be accepted again in the same pass if and only if it is below the listener |
| SelectServer.Selector.constructor | UnixStreamTelnetServerWithSelect.c:174-181 | the server starts with the listener as master set and high-water mark |
| SelectServer.Selector.SendToOthers | UnixStreamTelnetServerWithSelect.c:243-253 | the loop up to fd_max issues the broadcast's sends in order |
| SelectServer.Selector.VisitFd | UnixStreamTelnetServerWithSelect.c:208-317 | one descriptor of the pass, as the value model has it, and so by the kernel's answer alone: who leaves, who joins, and what is sent to whom |
| SelectServer.Selector.RunPass | UnixStreamTelnetServerWithSelect.c:191-318 | the loop under a rising fd_max ends and does what the value model's pass does |
| Semaphore.AtomicInvariant | UnixSemaphores.c:32-65 | with one-step shifts, semaphore + threads inside = permits and binary = 7 * 4^(threads between the shifts), always |
| Semaphore.AtomicRunsSucceed | UnixSemaphores.c:30-65 | with one-step shifts and at most two permits or two threads, the failure exit is unreachable and every complete run ends with 7 |
| Semaphore.FailureReachableIff | UnixSemaphores.c:16-47 | the failure exit is reachable if and only if there are three threads and at least two permits with shifts as compiled, three permits with one-step shifts |
| Semaphore.FailsExactlyAbove256 | UnixSemaphores.c:43-47 | a step exits with failure if and only if it is a check that reads more than 256 |
| Semaphore.TwoPermitsFail | UnixSemaphores.c:30-47 | with split shifts and two permits a run of three threads takes the failure exit |
| Semaphore.GrowthIsBounded | UnixSemaphores.c:39-54 | whatever stores are lost, binary stays between 0 and 7 * 4^threads |
| Semaphore.StopsOnlyByExiting | UnixSemaphores.c:80-104 | with any permit at all no run deadlocks, threads and joins included |
| Semaphore.RunsAreBounded | UnixSemaphores.c:85-104 | every run has at most nine actions per thread and one |
| Semaphore.RaceSpoilsTheRun | UnixSemaphores.c:39-54 | with split shifts and two permits a complete run ends with 1 |
| Semaphore.SplitRunsEndRightIff | UnixSemaphores.c:36-59 | with split shifts every complete run ends with 7 if and only if there is one permit or at most one thread |
| Mutex.CompleteRuns | UnixMutex.c:18-32 | every complete run counts to threads * rounds and prints 1, 2, 3 and so on, each thread's entries in one block |
| Mutex.MutualExclusion | UnixMutex.c:21-29 | no two threads are between lock and unlock |
| Mutex.StopsOnlyByExiting | UnixMutex.c:52-76 | no run deadlocks before the joins complete |
| Mutex.RunsAreBounded | UnixMutex.c:23-72 | every run is bounded by threads, rounds and joins |
| SpinLock.ChecksAlwaysPass | UnixSpinLocks.c:31-50 | with the lock, or a single thread, the unlocked checks see 0 or 1, the global is nonzero exactly while the holder is between its two updates, and no failure exit is reached |
| SpinLock.FailsExactlyAbove2 | UnixSpinLocks.c:33-48 | a step exits with failure if and only if it is one of the two checks and reads more than 2 |
| SpinLock.FailureReachableIff | UnixSpinLocks.c:31-50 | the failure exits are reachable if and only if the lock is left out and there are two threads: a lost increment lets the unsigned global fall below zero |
| SpinLock.CompleteRuns | UnixSpinLocks.c:31-80 | no run deadlocks, and every complete run ends with the lock free, the global 0 and both checks of every thread made |
| SpinLock.RunsAreBounded | UnixSpinLocks.c:61-78 | spinning apart, every run has at most ten actions per thread and one |
| Reaping.NoZombieForgotten | UnixStreamSocketServer.c:23-36 | in every interleaving forked = live + zombie + reaped, a zombie has a signal pending or the handler's loop still to come, and errno survives the handler |
| Reaping.ErrnoIsSpoilt | UnixStreamSocketServer.c:23-36 | before the handler restores it, errno is ECHILD exactly when no child is left, and otherwise what the program had |
| Reaping.AllReapedInTheEnd | UnixRawNetworkLayerSocketServer.c:321-356 | when only the accept loop can go on, every child has been reaped |
| Reaping.WorkIsBounded | UnixRawNetworkLayerSocketServer.c:139-145 | exits, deliveries and handler steps number at most seven per fork |
| Reaping.OneWaitForgets | UnixStreamSocketServer.c:33 | with one waitpid in place of the loop a run can leave any number of zombies, and no continuation ever has fewer |
| Reaping.StrandedNeverFalls | UnixStreamSocketServer.c:33 | with one waitpid, zombies less the pending signal and a handler still to wait never fall |
| Reaping.QuiescentIsCleanIff | UnixStreamSocketServer.c:33 | quiescence means no zombies if and only if the handler loops |
| Reaping.Parent.WaitPid | UnixStreamSocketServer.c:33 | the kernel's answer: a zombie reaped, 0 while children live, or -1 with ECHILD |
| Reaping.Parent.SignalChildHandler | UnixStreamSocketServer.c:23-36 | with children exiting throughout, the handler ends, has reaped all it found, restores errno, and leaves a zombie only with a signal pending |
| Pipe.PipeIsFaithful | Pipes.c:47-77 | no write finds the pipe without a reader; output, byte in hand and pipe are the written part of the message |
| Pipe.CompleteRuns | Pipes.c:46-84 | no run deadlocks, and every complete run has printed the message and one newline |
| Pipe.RunsAreBounded | Pipes.c:53-80 | every run is bounded by the message length |
| Pipe.NoEndOfFile | Pipes.c:50-53 | without either process's close of the write end the child never leaves its loop |
| Pipe.FinishesIffBothClose | Pipes.c:50-80 | every run finishes if and only if both processes close the write end |
| FileTransfer.StreamIsFaithful | UnixFileTransferStreamClient.c:107-118 | at the loop head, written and in-flight bytes are file[..byte_total], however recv cuts the stream |
| FileTransfer.BuffersFit | UnixFileTransferStreamServer.c:125-130 | in every run neither program holds more than a buffer, the connection no more than its capacity, and what is written is never empty |
| FileTransfer.UnchangedFileNeverBreaks | UnixFileTransferStreamClient.c:108-111 | the early break never fires for an unchanged file |
| FileTransfer.CompleteRuns | UnixFileTransferStreamServer.c:125-142 | no run deadlocks, and a complete run leaves the server with the target part of the file |
| FileTransfer.TransferCompleteIff | UnixFileTransferStreamClient.c:107-135 | the server's file equals the client's unless the file has outgrown the reported size and that is a whole number of buffers; then it is cut at that size |
| FileTransfer.RunsAreBounded | UnixFileTransferStreamClient.c:107-135 | every run is bounded by the file length |
| FileTransfer.SendFile | UnixFileTransferStreamClient.c:100-118 | the client's loop sends the target part in nonempty pieces of at most a buffer, all but the last of them full |
| FileTransfer.ReceiveFile | UnixFileTransferStreamServer.c:125-130 | the server's loop writes all that recv returns up to the first empty result |
| EventWalk.Walk | UnixFileEventWatching.c:81-116 | the walk visits exactly the record starts in order, looks at no byte from readLength on, ends, and prints the trace |
| EventWalk.LoadRecord | UnixFileEventWatching.c:81-84 | in a record that starts at p the mask is at p + 4, the length of the name at p + 12 and the name from p + 16 on |
| EventWalk.Notify | UnixFileEventWatching.c:88-105 | the overwriting tests leave the message of the last one that matches, told by the bits: move, modify, close after writing, access, delete, create in falling priority |
| EventWalk.LastTestWins | UnixFileEventWatching.c:88-105 | for every mask and message the priority above, and that the message before matters only if no bit matches |
| EventWalk.EncodingIsInjective | UnixFileEventWatching.c:81-84 | the bytes of a read determine its events |
| EventWalk.TraceAt | UnixFileEventWatching.c:88-111 | each printed line is told by the bits of its event's mask, or repeats the line before; so it is the message of the last event so far that matched a test, or the initial one |
| EventWalk.SilentBeforeFirstMatch | UnixFileEventWatching.c:107-109 | with no message yet nothing is printed before the first match |
| EventWalk.BatchingDoesNotMatter | UnixFileEventWatching.c:73-118 | the message carries over between reads, so how the kernel batches events does not show |

## Left out

- Socket setup, address lookup, printing of addresses, `sigaction` and the other set-up calls: plumbing without behaviour of its own.
- Failures of `pthread_create`, `pthread_join`, `poll` and `select` that exit: they end a run early. A failed `fork` prints and the accept loop goes on with no child made.
- FileTransfer.ReceiveFile: `fwrite` writes all it is given; a short one prints and the loop goes on, so its missing bytes are lost (`UnixFileTransferStreamServer.c:126-129`).
- Mutex.CompleteRuns: counter is an unbounded integer; the C int overflows when threads * rounds exceeds 2^31 - 1 (it is 100 as shipped).
- Semaphore.AtomicInvariant: binary is an unbounded integer; a C int can overflow only with fifteen or more threads past their left shift (`Semaphore.GrowthIsBounded`). What is said about the failure exit and the final value does not depend on it: every run claimed safe keeps binary at most 112, and the failing runs shown stop at 448.
- Poller.Poller.VisitSlot: an appended slot whose leftover `revents` says POLLIN is received from at once; a `recv` that would then block is taken to return something.
- SelectServer.Selector.VisitFd: `recv` does not fail; the failure result is stored in an unsigned variable and takes the wrong branch (`UnixStreamTelnetServerWithSelect.c:159` and `261`).
- The text the select server puts around messages, and its fixed-size buffers; a delivery carries the bytes received or the kind of announcement.
- Descriptors beyond the capacity of `fd_set`, and the value `select` leaves in its timeout.
- FileTransfer.SendFile: a send takes the whole buffer; line 117 counts bytes read, so a short send would lose bytes unnoticed. In the interleaved model a send blocks until all bytes are accepted, piece by piece.
- Read and write errors on files, sockets and pipes.
- PortableFloat.HtonfTruncates: NaN, infinities and magnitudes from 2^31 on, for which the integer casts are undefined; the sign of a zero difference, which no later step looks at.
- SpinLock.RunsAreBounded: busy iterations of a thread that waits for the lock are not steps; whether it gets the lock is up to the scheduler.
- Reaping: `server()` returns after one connection, so the unbounded fork loop of `UnixRawNetworkLayerSocketServer.c` is used with the shared handler.
- EventWalk.Walk: a read that ends inside a record, which inotify does not produce; the uninitialised first message is a parameter.
- The rest of `UnixRawNetworkLayerSocketServer.c` (unfinished; line 254 does not compile), including the XOR checksum, whose caller passes the wrong pointer (lines 216-234).
- `UnixSocketSendAllBytes.c`, `MichaelKerriskCode`, the bit and endianness demos, the linked list, and the remaining one-call demos: easy claims, or behaviour that lives in the kernel.
