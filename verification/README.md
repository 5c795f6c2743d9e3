# Verified model of fdcpp's stateful cores

fdcpp wraps Linux file descriptors in C++ classes. Most of it forwards to system calls; this
project models the parts that keep state of their own between calls, and proves what a user of
these parts relies on. The kernel is an environment whose choices (short sends, what has arrived,
failures, fresh descriptor numbers, when time passes) are not determined.

- **The buffered byte stream** (`src/easy/buffered_socket.cpp`). `Bytes`, `ByteStream` and `Codec`
  are the wire form: big-endian words reached through any host's own layout (Appendix B of RFC 791
  gives the order), NUL-terminated strings, and what reading straight from a stream would return.
  `OutputOrder` is the coalescing output buffer, generic in the type of an octet, and `OctetOrder`
  the order in which it delivers octets of any content; `InputWindow`
  the two indices of the input buffer; `BufferedSocket` the class itself, with one allocation for
  both buffers, proved against these. `StreamMachine` is a connected pair as a state machine whose
  steps are single system calls, `StreamCalls` relates whole calls in it to the contracts of the
  class, `StreamTheorems` is what holds in every reachable state, `StreamCompletion` is about which
  lists of values some way of receiving them lets through to their end, and `StreamRoom` about which
  lists every way does.
- **Batched descriptor passing** (`src/easy/fdpass.hpp`, `src/easy/fdpass.cpp`). `FdPassModel` has
  the sender's frames, the receiver's loop with its reused control length and stale control buffer,
  and the theorems; `FdPassFraming` why the frames have to be as they are, and what becomes of
  transfers that are broken off; `FdPass` the loops themselves.
- **The pausable timer** (`src/easy/timer.cpp`). `TimerModel` has a kernel timer that counts
  nanosecond by nanosecond, the closed form, the three-state machine and the theorems over runs;
  `Timer` the class.
- **Descriptor ownership** (`src/fds/base/descriptor.cpp`): `Ownership` and `Descriptor`.
- **The inotify record walk** (`src/fds/inotify.hpp`): `Inotify`.

Methods are proved against functions of the inputs or of the old state, and the theorems are about
these functions, for all inputs, runs and reachable states.

## What does not hold, and exactly when it does

- The output buffer is not a FIFO: an item at least as large as the buffer is sent in front of what
  is pending (`buffered_socket.cpp:336-339`). Calls of given sizes deliver every content in order
  exactly when no write takes that branch with octets pending (`OctetOrder.FifoIffNeverOvertakes`);
  otherwise exactly the pending octets change places with those of the item
  (`OctetOrder.InversionLaw`), which only a content of suitably equal octets can hide.
- A `std::string` is read back as it was written exactly when it contains no NUL
  (`TextRoundTripIff`).
- String extraction trusts `strlen` on the raw buffer. It keeps the indices in order, whatever
  arrives meanwhile, exactly when the terminator is in the window (`ExtractionSafeIff`). Some
  receive can bring it there exactly when the string fits behind the read index (`ExtractableIff`);
  a string that does not fit can never be extracted until a read of fixed width starts the buffer
  over (`StringStuck`). So some way of
  receiving a list of values lets it be read to its end exactly when its longest run of consecutive
  strings fits the input buffer (`CanBeReadIff`), for a list of strings exactly when all of it does
  (`StringsCanBeReadIff`). How much each receive brings is not the caller's choice: no way of receiving
  the list runs into a dead end exactly under the stronger condition `AlwaysRoom`, which can be
  computed from the list and the capacity (`CanAlwaysBeReadIff`). It holds without strings; for a value of
  n octets and a string of k, terminator included, it is k <= capacity and not n < capacity < n + k
  (`ValueThenString`).
- A write or flush that fails after sending something, and is repeated, sends that part twice
  (`RetriedWriteDuplicates`). A failing read of fixed width loses nothing (`ReadInputBuffer`); a string
  extraction that fails behind k characters and is repeated returns the string without them, so the
  string written exactly when k is 0 (`RetriedExtraction`).
- A transfer of files that is broken off in its middle, by a failing send or a failing receive, puts
  the receiver out of step with the transfers after it: `recv` returns a mixture of two transfers, or
  what it does is undefined. It stays in step exactly when none or all of the messages went through,
  or when by accident the next transfer is what the receiver holds already (`InStepIff`,
  `ReceptionInStepIff`).
- `pause` and `stop` throw away the expirations not yet read, and nothing else does
  (`NothingDiscardedIff`).
- `file::dup` wraps the descriptor of the other object, so destroying both closes it twice
  (`FileDupClosesTwice`). Wrapping any number keeps ownership unique exactly when it is negative
  (`WrapKeepsIff`).
- A walk over inotify records stays inside the buffer exactly when the buffer is a sequence of whole
  records (`WalkStaysInsideIff`).

## Model

| member | source | states |
|---|---|---|
| `Bytes.WireFormHostIndependent` | src/easy/buffered_socket.cpp:106-141 | `htobe` and then the host's own memory layout give the same octets on every host, most significant first |
| `Bytes.LoadInvertsWireForm` | src/easy/buffered_socket.cpp:202-254 | a copy into memory followed by `be..toh` recovers the word on any host, for every width |
| `Bytes.BigEndianOctet` | src/easy/buffered_socket.cpp:108 | octet i of a w-octet word on the wire is its w-1-i th from below: the order of RFC 791, Appendix B |
| `Bytes.LittleEndianOctet` | src/easy/buffered_socket.cpp:122 | octet i of a little-endian layout is the i-th digit from below |
| `Bytes.ShiftIsDivision` | src/easy/buffered_socket.cpp:108 | these digits are quotients by powers of 256 |
| `Bytes.SwapReverses` | src/easy/buffered_socket.cpp:122 | a byte swap, as arithmetic, turns each layout into the other |
| `Bytes.SwapInvolution` | src/easy/buffered_socket.cpp:206 | swapping twice changes nothing |
| `ByteStream.SplitFlattened` | src/easy/buffered_socket.cpp:181-299 | unique decodability: a stream made of chunks that conform to a list of asks is cut by them at exactly these places |
| `ByteStream.SplitExtends` | src/easy/buffered_socket.cpp:181-299 | what a list of asks takes from a stream does not change when more arrives |
| `ByteStream.FirstChunkConforms` | src/easy/buffered_socket.cpp:278-299 | a string taken from a stream ends with its only NUL; a fixed ask takes its width |
| `Codec.WordRoundTrip` | src/easy/buffered_socket.cpp:94-164 | any host's decoding inverts any host's encoding of an unsigned word of 1, 2, 4 or 8 octets, and the encoding names no host |
| `Codec.WireOctets` | src/easy/buffered_socket.cpp:87-178 | every octet that `operator<<` sends, from the value alone: digits to the base 256, most significant first, for unsigned and (two's complement) signed integers and for the bit patterns of floats and doubles; characters as they are; a NUL behind strings |
| `Codec.ValueRoundTrip` | src/easy/buffered_socket.cpp:87-276 | the same for every type with an operator: characters, signed and unsigned integers, bit patterns of floats and doubles, NUL-free strings |
| `Codec.TextRoundTripIff` | src/easy/buffered_socket.cpp:173-178 | a string written as a `std::string` is read back as itself exactly when it has no NUL inside |
| `Codec.ListRoundTrip` | src/easy/buffered_socket.cpp:87-299 | any heterogeneous list of values is read back from its concatenated encodings by a reader that asks for the same types |
| `OutputOrder.WriteInserts` | src/easy/buffered_socket.cpp:334-348 | one write puts its item at the end of the wire order, or, if oversized, in front of exactly the octets pending |
| `OutputOrder.SendsAsLateAsPossible` | src/easy/buffered_socket.cpp:334-348 | a write sends exactly when its item does not fit with an octet to spare; an item that is not oversized is never sent itself, what goes out in front of it is all that was pending, and an oversized one leaves that alone |
| `OutputOrder.PendingFits` | src/easy/buffered_socket.cpp:334-348 | over any run the buffer is never full, and stays empty without capacity |
| `OutputOrder.RunPermutes` | src/easy/buffered_socket.cpp:302-348 | over any run of writes and flushes the octets sent and pending are a permutation of those written |
| `OutputOrder.FifoUnlessOvertaking` | src/easy/buffered_socket.cpp:334-348 | without an oversized write over pending octets the order is exactly that of the writes |
| `OutputOrder.LabelFifoIff` | src/easy/buffered_socket.cpp:336-339 | for octets that are all different the order is that of the writes if and only if no write takes the bypass while octets are pending |
| `OutputOrder.LabelInversion` | src/easy/buffered_socket.cpp:334-348 | of two octets of a run in which all are different the later written comes first on the wire if and only if it came in an oversized item while the earlier one was pending |
| `OctetOrder.RunCommutes` | src/easy/buffered_socket.cpp:334-348 | the buffer looks at sizes only: what it does commutes with any renaming of the octets |
| `OctetOrder.OrderDescribesWire` | src/easy/buffered_socket.cpp:334-348 | for any contents, also repeated octets: the wire is a permutation of the positions written, and each place of it carries the octet of its position |
| `OctetOrder.InversionLaw` | src/easy/buffered_socket.cpp:334-348 | of any two positions written the later comes first on the wire if and only if its write was oversized while the earlier one was pending |
| `OctetOrder.OrderKeptIff` | src/easy/buffered_socket.cpp:336-339 | no position moves if and only if no write takes the bypass while octets are pending |
| `OctetOrder.FifoIffNeverOvertakes` | src/easy/buffered_socket.cpp:336-339 | calls of given sizes deliver every content in the order written if and only if no write takes the bypass while octets are pending |
| `OutputOrder.TinyBufferNeverOvertakes` | src/easy/buffered_socket.cpp:334-348 | with a capacity of at most one no write can overtake |
| `OutputOrder.AmortisedSends` | src/easy/buffered_socket.cpp:334-348 | sends by writes times capacity, plus what is pending, is at most twice the octets written |
| `OutputOrder.SpillNotEmpty` | src/easy/buffered_socket.cpp:341-344 | when an item that is not oversized, empty or not, makes the buffer spill, the spill sends at least one octet |
| `OutputOrder.RetriedWriteDuplicates` | src/easy/buffered_socket.cpp:302-306 | a write or flush that fails after k octets and is repeated sends these k twice; the order is that of one success if and only if k is 0 |
| `InputWindow.SinglesInside` | src/easy/buffered_socket.cpp:287-296 | with the terminator in the window the character reads of a string never reset it, and arrivals during the extraction come to the same as arrivals after it |
| `InputWindow.SinglesQuiet` | src/easy/buffered_socket.cpp:308-332 | what the same reads do to the indices when nothing arrives |
| `InputWindow.ExtractionSafeIff` | src/easy/buffered_socket.cpp:278-299 | string extraction keeps the indices in bounds under every schedule of arrivals if and only if the terminator lies in the window |
| `InputWindow.StrlenInWindow` | src/easy/buffered_socket.cpp:282 | `strlen` on the raw buffer stays in the window if and only if the octets received and unread contain a NUL, and then gives their first one |
| `InputWindow.StaleTerminatorWitness` | src/easy/buffered_socket.cpp:282-296 | an empty window over a stale NUL: the read index passes the size, and the next subtraction wraps to 2^64 - 1 |
| `BufferedSocket.BufferedSocket.constructor` | src/easy/buffered_socket.cpp:39-51 | a valid socket with empty buffers in the two halves of one allocation |
| `BufferedSocket.BufferedSocket.Moved` | src/easy/buffered_socket.cpp:53-64 | the new object continues both directions of the stream; the other has no buffer left |
| `BufferedSocket.BufferedSocket.MoveAssign` | src/easy/buffered_socket.cpp:66-79 | the same for assignment, also to itself; socket and buffers are exchanged, and the other object keeps its indices and capacities |
| `BufferedSocket.BufferedSocket.SendAll` | src/easy/buffered_socket.cpp:369-376 | whatever the short sends, exactly the octets given go out; it fails exactly when a send does, and then a proper prefix has gone out; it terminates |
| `BufferedSocket.BufferedSocket.WriteOutputBuffer` | src/easy/buffered_socket.cpp:334-348 | octets sent, octets pending and number of sends by writes become what `OutputOrder.Apply` says; it fails exactly when a call to the socket does, and then a part of what was to be sent has gone out and the buffer is as before |
| `BufferedSocket.BufferedSocket.Bypass` | src/easy/buffered_socket.cpp:336-339 | the branch for an oversized item |
| `BufferedSocket.BufferedSocket.Coalesce` | src/easy/buffered_socket.cpp:341-347 | the branch for an item that fits, with the spill when it would fill the buffer |
| `BufferedSocket.BufferedSocket.Flush` | src/easy/buffered_socket.cpp:302-306 | sends the pending octets and empties the buffer; it fails exactly when a call to the socket does, and then a part of them has gone out and the buffer is as before |
| `BufferedSocket.BufferedSocket.RecvIfPossible` | src/easy/buffered_socket.cpp:351-367 | offers all the free room to one non-blocking receive, and appends what it brings to the window; EAGAIN is no failure, an error is, and neither changes anything; the octets behind the window stay what they were |
| `BufferedSocket.BufferedSocket.ReadInputBuffer` | src/easy/buffered_socket.cpp:308-332 | hands out the next octets of the stream, all that were asked for unless the blocking receive was cut short; the indices move as `Serve` says; the blocking receive is asked for exactly the shortfall, once, and takes no more; a call fails exactly when one of its receives does, and then loses nothing |
| `BufferedSocket.BufferedSocket.TopUp` | src/easy/buffered_socket.cpp:312-328 | the branch that uses up the window and starts it over, with a blocking receive for exactly the octets missing |
| `BufferedSocket.BufferedSocket.ServeFromWindow` | src/easy/buffered_socket.cpp:330-331 | the branch that leaves part of the window |
| `BufferedSocket.BufferedSocket.GetString` | src/easy/buffered_socket.cpp:278-299 | one non-blocking receive, `strlen` over the raw memory as it is then, as many single reads as it says, and the unchecked increment; with the terminator in the window exactly the string and its terminator are consumed, without waiting; in any case the indices move as `Extract` says and the characters are the next ones of the stream, unless a blocking receive was cut short; it is interrupted exactly when a receive fails |
| `BufferedSocket.BufferedSocket.ReadChars` | src/easy/buffered_socket.cpp:287-293 | the loop over single characters: each in front of it a non-blocking receive for all the free room, and no waiting inside the window that there was |
| `BufferedSocket.BufferedSocket.SkipTerminator` | src/easy/buffered_socket.cpp:295-296 | the unchecked increment, sound on a NUL in the window |
| `BufferedSocket.BufferedSocket.Put` | src/easy/buffered_socket.cpp:87-178 | `operator<<` writes the encoding of its value; it fails exactly when a call to the socket does |
| `BufferedSocket.BufferedSocket.Get` | src/easy/buffered_socket.cpp:181-276 | `operator>>` decodes the next octets of the stream; it fails exactly when a receive does, and the value is whole unless a blocking receive was cut short |
| `StreamMachine.SenderStep` | src/easy/buffered_socket.cpp:334-376 | every step, also in the middle of `send_all`, keeps the sender on its way to the result of its calls |
| `StreamMachine.ReaderStep` | src/easy/buffered_socket.cpp:308-367 | every step, also in the middle of a blocking receive, keeps results, window and partial request equal to what was received, and the indices in bounds |
| `StreamMachine.StreamIsWireOrder` | src/easy/buffered_socket.cpp:302-376 | in every reachable state, results followed by everything under way are the wire order of the calls |
| `StreamMachine.FirstInFirstOut` | src/easy/buffered_socket.cpp:302-376 | without overtaking writes: written = returned + window + partial request + wire + unsent, in every reachable state |
| `StreamMachine.NothingLost` | src/easy/buffered_socket.cpp:302-376 | and in any case as a multiset |
| `StreamMachine.StepRefinesQueue` | src/easy/buffered_socket.cpp:302-376 | each step is an enqueue of the item written, a dequeue of what a completed read asked for, or invisible: the pair refines a FIFO queue |
| `StreamMachine.BufferSafety` | src/easy/buffered_socket.cpp:302-376 | in every reachable state the input indices are in order and in bounds, and the output buffer is not full |
| `StreamCalls.WholeCall` | src/easy/buffered_socket.cpp:302-376 | a write or flush, through any sequence of short sends and with anything the reader does between them, ends where `OutputOrder.Apply` says |
| `StreamCalls.WholeRead` | src/easy/buffered_socket.cpp:308-332 | a read, through any pieces of its receives and with anything the sender does before and while it is blocked, returns the next octets, also those sent meanwhile, moves the indices as `Serve` says and takes exactly the shortfall |
| `StreamCalls.WholeExtraction` | src/easy/buffered_socket.cpp:278-299 | a string extraction, character by character, with receives between the characters and anything the sender does, ends in the state of the step `Extract` followed by these receives and steps |
| `StreamCalls.RetriedExtraction` | src/easy/buffered_socket.cpp:284-293 | an extraction cut short behind k characters and repeated returns the rest of the string; the result is that of one success if and only if k is 0 |
| `StreamTheorems.ReadsStraightFromStream` | src/easy/buffered_socket.cpp:308-367 | completed reads return what the same asks would take straight from the stream |
| `StreamTheorems.CapacityIndependence` | src/easy/buffered_socket.cpp:308-367 | two runs with the same asks over the same stream return the same, whatever capacities and receive schedules |
| `StreamTheorems.BlockedReadCompletesIff` | src/easy/buffered_socket.cpp:314-325 | no over-asking: a blocked read can complete if and only if the peer has sent up to the end of the request, and then nothing beyond it has been taken |
| `StreamTheorems.BlockedReadCanComplete` | src/easy/buffered_socket.cpp:302-332 | no deadlock: once enough has been written, at most a flush, two sends and a receive complete it |
| `StreamTheorems.ExtractableIff` | src/easy/buffered_socket.cpp:278-299 | once the terminator is sent, some receive makes extraction sound if and only if the string fits between the read index and the end of the buffer |
| `StreamTheorems.StringStuck` | src/easy/buffered_socket.cpp:351-357 | if it does not fit, extraction stays impossible until a read of fixed width, whatever else either side does |
| `StreamTheorems.ResultsAreEncodings` | src/easy/buffered_socket.cpp:87-299 | at every reachable moment the completed reads have returned the encodings of the first values written |
| `StreamTheorems.TypedRoundTrip` | src/easy/buffered_socket.cpp:87-299 | end to end, at every moment, the values read are the first of those written, for any hosts, capacities and interleavings |
| `StreamTheorems.WholeListArrives` | src/easy/buffered_socket.cpp:87-299 | and the whole list once all types have been read; when that can be is the subject of `StreamCompletion` and `StreamRoom` |
| `StreamCompletion.StringRunsFit` | src/easy/buffered_socket.cpp:278-299 | in every reachable state the strings returned between two reads of fixed width have fitted the input buffer together |
| `StreamCompletion.CanBeReadIff` | src/easy/buffered_socket.cpp:87-299 | for some way of receiving it, a list of values written without overtaking is read to its end, if and only if its longest run of consecutive strings, terminators included, is at most the capacity of the input buffer |
| `StreamCompletion.StringsCanBeReadIff` | src/easy/buffered_socket.cpp:278-299 | the same for a list of strings, if and only if its whole encoding is at most that capacity |
| `StreamRoom.AlwaysRoomIff` | src/easy/buffered_socket.cpp:278-357 | a string that is to be read has room behind the read index in every reachable state of a reader of the list, if and only if `AlwaysRoom`: counting octets from the start of the list or from the end of any value of fixed width, a string ends within one capacity, provided all values of fixed width before it end strictly within one |
| `StreamRoom.CanAlwaysBeReadIff` | src/easy/buffered_socket.cpp:87-357 | under this condition every reachable state in which the list has been written has a continuation that reads it to its end, and only under it: otherwise some way of receiving runs into a dead end |
| `StreamRoom.CanComplete` | src/easy/buffered_socket.cpp:87-357 | that continuation exists, and what it has read decodes to the list, on any host |
| `StreamRoom.StaysCramped` | src/easy/buffered_socket.cpp:278-357 | the dead end is one: whatever else happens on either side, a reader in front of a string without room gets no further with its list |
| `StreamRoom.ReachableBegan` | src/easy/buffered_socket.cpp:312-331 | in every reachable state the buffer was started over at the beginning or by a completed read of fixed width, and every such read since has ended strictly inside it |
| `StreamRoom.ValueThenString` | src/easy/buffered_socket.cpp:278-357 | for a value of n octets followed by a string of k the condition is k <= capacity and not n < capacity < n + k |
| `FdPassModel.FrameLength` | src/easy/fdpass.hpp:94-108 | a transfer of n files takes ceil(n/10) messages |
| `FdPassModel.ReceiveFrame` | src/easy/fdpass.cpp:87-99 | from any point of a transfer the receiver cuts the sender's batches, the control length it reuses suffices, and it stops exactly at the end |
| `FdPassModel.NextFitsIff` | src/easy/fdpass.cpp:83-88 | after n descriptors the reused length admits m next if and only if m is at most n rounded up to even |
| `FdPassModel.TransferArrives` | src/easy/fdpass.cpp:68-102 | one `recv` returns the first list, in order, and takes exactly its messages, whatever its buffer held |
| `FdPassModel.TransfersArriveInOrder` | src/easy/fdpass.cpp:68-102 | successive calls return successive non-empty lists |
| `FdPassModel.PartialTransferBlocks` | src/easy/fdpass.cpp:87-99 | part of a transfer is never returned |
| `FdPassModel.EmptyListSendsNothing` | src/easy/fdpass.hpp:94-108 | an empty list sends no message, so a receiver blocks |
| `FdPassFraming.SmallBatchTakesStale` | src/easy/fdpass.cpp:90-97 | a first batch smaller than what the receiver takes makes it return what its buffer held before as the next descriptor, whatever the batch and whatever follows |
| `FdPassFraming.EmptyBatchUndefined` | src/easy/fdpass.cpp:92-96 | a message without descriptors makes the receiver read through a control header that is not there |
| `FdPassFraming.OnlyFramesArrive` | src/easy/fdpass.cpp:87-99 | of all ways to cut a list of different files into batches of any sizes, exactly the sender's gets it through |
| `FdPassFraming.BrokenOffTransfer` | src/easy/fdpass.hpp:94-108 | after a transfer that broke off behind k of its messages, what `recv` makes of these and of the next transfer: undefined, or the first 10k files followed by files of the next, and it takes only the messages that bring what is missing |
| `FdPassFraming.InStepIff` | src/easy/fdpass.hpp:94-108 | then one of the two transfers is returned and nothing else taken if and only if k is none or all of the messages, or the next transfer equals the one batch sent |
| `FdPassFraming.BrokenOffReception` | src/easy/fdpass.cpp:83-99 | after a `recv` that failed behind j messages of a transfer, every value that the next call returns: the rest of the transfer, filled up with values ten places before, then the next transfer, of whose batches it takes what the control length left behind admits, and stale values instead of the others; and where it stops |
| `FdPassFraming.ReceptionInStepIff` | src/easy/fdpass.cpp:87-99 | that call is in step if and only if j is none or all of the messages, or the next transfer equals the last batch filled up from the control buffer |
| `FdPassModel.FirstUseDecides` | src/easy/fdpass.hpp:111-125 | the first use that can be set up decides for good whether the object sends or receives, and is the only one to connect or bind |
| `FdPass.SendOver` | src/easy/fdpass.hpp:70-109 | the nested loops post exactly the frame of the list, or, exactly when a system call fails, a proper part of it |
| `FdPass.CopyBatch` | src/easy/fdpass.hpp:102-105 | the inner loop |
| `FdPass.RecvOver` | src/easy/fdpass.cpp:68-102 | on any channel the receiving loop computes `RecvLoop` on its messages: it returns a list, waits for more after taking all there is, does something undefined, or, exactly when a system call fails, fails after messages that complete no transfer |
| `FdPass.RecvBatch` | src/easy/fdpass.cpp:88-97 | one round of it, with the control buffer overwritten in place; without a message or on error nothing changes |
| `FdPass.Peer.Send` | src/easy/fdpass.hpp:111-125 | connects once; on an object that has become a receiving end nothing is posted; it succeeds exactly if it is connected and no call fails, or has nothing to send |
| `FdPass.Peer.PrepareRecv` | src/easy/fdpass.cpp:104-116 | binds once |
| `TimerModel.ClosedForm` | src/easy/timer.cpp:100-107 | the kernel timer's expirations and remaining time after any time, from any point of a run |
| `TimerModel.ElapseSum` | src/easy/timer.cpp:109-135 | the tick law: time may be split anywhere |
| `TimerModel.PeriodicClosedForm` | src/easy/timer.cpp:86-98 | a zero first value, stored as the interval, gives one expiration per interval |
| `TimerModel.StepKeepsInv` | src/easy/timer.cpp:86-155 | every operation, also a throwing one, keeps the timer on the schedule of its last start |
| `TimerModel.AlwaysOnSchedule` | src/easy/timer.cpp:86-150 | in every reachable state expirations, remaining time and armed interval are those of an uninterrupted timer with the setting of the last start; a stored interval comes with a stored value |
| `TimerModel.PauseInvisible` | src/easy/timer.cpp:100-135 | after a start, however time, pauses, resumes, stops, reads and settings interleave until the timer is armed afresh, the expirations generated are the closed form of the time spent STARTED |
| `TimerModel.SettingDecides` | src/easy/timer.cpp:86-107 | what a setting does: from the next start on the timer expires first after its value, or its interval if the value is zero, and then once per interval, only once if that is zero, in time spent STARTED |
| `TimerModel.FreshTimerRuns` | src/easy/timer.cpp:33-107 | the same for a newly constructed timer |
| `TimerModel.SettingWaitsForStart` | src/easy/timer.cpp:86-98 | a setting changes neither the kernel timer nor the state nor the remaining time, and is refused at the next start exactly if one of its two times is not valid |
| `TimerModel.PauseHoldsTime` | src/easy/timer.cpp:109-135 | whatever time passes, and whatever is set, during a pause: a resume arms the kernel timer exactly as the pause has found it |
| `TimerModel.StopIsFinal` | src/easy/timer.cpp:124-150 | after a stop nothing but a start, not even a resume, makes the timer expire again |
| `TimerModel.OnlyStartedIsArmed` | src/easy/timer.cpp:109-150 | a paused or stopped timer is disarmed with nothing to read, and a read on it never returns |
| `TimerModel.ZeroRemainingNeverArms` | src/easy/timer.cpp:127-130 | the zero-remaining branch of `resume` copies a zero interval and never arms the timer |
| `TimerModel.ThrowsIff` | src/easy/timer.cpp:100-107 | only a start throws, if and only if it has to arm a setting the kernel refuses, and then nothing has changed |
| `TimerModel.TimeoutsAccountedFor` | src/easy/timer.cpp:100-155 | generated = returned by `timeouts` + waiting + discarded by reprogramming |
| `TimerModel.DiscardsIff` | src/easy/timer.cpp:109-150 | a call discards expirations if and only if it is a `pause` or `stop` of a started timer with some unread |
| `TimerModel.NothingDiscardedIff` | src/easy/timer.cpp:100-150 | a run loses none if and only if no call in it does |
| `Timer.Timer.constructor` | src/easy/timer.cpp:33-39 | a stopped timer without a setting, over a disarmed kernel timer |
| `Timer.Timer.WithSetting` | src/easy/timer.cpp:58-65 | a fresh timer with a setting |
| `Timer.Timer.Moved` | src/easy/timer.cpp:41-56 | the new object is the old timer |
| `Timer.Timer.MoveAssign` | src/easy/timer.cpp:67-84 | the same for assignment, also to itself |
| `Timer.Timer.Settime` | src/easy/timer.cpp:86-98 | stores the setting, the interval standing in for a zero value |
| `Timer.Timer.Start` | src/easy/timer.cpp:100-107 | the transition of `Step`, throwing when `Throws` says so |
| `Timer.Timer.Pause` | src/easy/timer.cpp:109-122 | the transition of `Step` |
| `Timer.Timer.Resume` | src/easy/timer.cpp:124-135 | the transition of `Step`, throwing when `Throws` says so |
| `Timer.Timer.Stop` | src/easy/timer.cpp:137-150 | the transition of `Step` |
| `Timer.Timer.Timeouts` | src/easy/timer.cpp:152-155 | returns the expirations since the last call and leaves none, or never returns when the timer is disarmed with none |
| `Ownership.StepKeeps` | src/fds/base/descriptor.cpp:38-61 | opening, moving, swapping (also with itself), duplicating and destroying keep every open number owned by exactly one live object |
| `Ownership.NoLeaksNoDoubleCloses` | src/fds/base/descriptor.cpp:44-61 | over any run: unique owners, no close of a number that is not open, open exactly if opened once more than closed; without objects all is closed |
| `Ownership.MoveHandsOver` | src/fds/base/descriptor.cpp:44-54 | after a move construction, destroying the new object closes exactly what the other held, and destroying the other closes nothing |
| `Ownership.SwapExchanges` | src/fds/base/descriptor.cpp:50-61 | after a move assignment, destroying either object closes exactly what the other one held before; done twice, or to itself, it changes nothing |
| `Ownership.CopyIsIndependent` | src/fds/timerfd.cpp:48-53 | a copy through ::dup has a number of its own, and destroying it closes this number only |
| `Ownership.WrapKeepsIff` | src/fds/base/descriptor.cpp:38-41 | constructing from a number of unknown origin keeps this if and only if the number is negative |
| `Ownership.FileDupClosesTwice` | src/fds/file.cpp:70-75 | `file::dup` breaks it, and destroying both objects closes the number twice |
| `Descriptor.Descriptor.Move` | src/fds/base/descriptor.cpp:44-48 | move construction takes the number and leaves -1: it is `Move` on the whole world of objects |
| `Descriptor.Descriptor.MoveAssign` | src/fds/base/descriptor.cpp:56-61 | move assignment exchanges the numbers: it is `Swap` |
| `Descriptor.Descriptor.Destroy` | src/fds/base/descriptor.cpp:50-54 | the destructor is `Destroy`, closing only a non-negative number |
| `Descriptor.Descriptor.Dup` | src/fds/timerfd.cpp:48-53 | a copy through ::dup is `Dup`, with a number that stands for the same file; it throws exactly when ::dup fails, and nothing has changed then |
| `Descriptor.Descriptor.FileDup` | src/fds/file.cpp:70-75 | the copy constructor of `file` is `FileDup`: the same number again, unless it is negative |
| `Inotify.ForEachEvent` | src/fds/inotify.hpp:33-37 | the loop computes `WalkFrom`, and terminates on any buffer |
| `Inotify.RecordLayout` | src/fds/inotify.hpp:33-37 | the records: watch descriptor, mask, cookie and length of the name, four octets each in the host's layout, then the name |
| `Inotify.WalkVisitsRecords` | src/fds/inotify.hpp:33-37 | over serialised records the walk visits exactly their offsets, in order, and ends at the end of the buffer |
| `Inotify.WalkReadsRecords` | src/fds/inotify.hpp:33-37 | and each record is read back as it was written, on either kind of host |
| `Inotify.WalkStaysInsideIff` | src/fds/inotify.hpp:33-37 | the walk stays inside a buffer and ends at its end if and only if the buffer is a sequence of whole records |

## Left out

- The wrappers around single system calls (`socket`, `epoll`, `eventfd`, `signalfd`, `memfd`, the rest of `timerfd` and `file`), `mmap`, `tcp_socket`, `udp_socket`, `unix_socket`, error-message building: no state of their own.
- `operator<<(const char *)`: it sends the characters before the first NUL and a NUL, which is the `Text` case with a NUL-free string.
- Floats and doubles are bit patterns; their numeric meaning plays no part.
- StreamMachine: sends do not fail and a blocking receive is not cut short by the end of the stream or a signal, whose count the program ignores; both are in the contracts of `BufferedSocket` (a failing or short call) and in `RetriedWriteDuplicates`.
- StreamMachine.Extract: a string extraction is one step and is enabled only with the terminator in the window; what happens otherwise is the subject of `InputWindow` and of `GetString`.
- Using an object after it has been moved from: the object moved to carries on, the other one has given up its descriptor and buffers and is good for destruction only.
- Widths of `size_t` and of kernel counters: capacities, totals, times and expiration counts are unbounded, except in `StaleTerminatorWitness`.
- The iterators of `fdpass::send` are a list traversed forwards; a reversed range, whose distance the program takes absolutely, is not modelled. Only one sender uses a channel.
- Socket addresses, `unlink` and path handling in `fdpass`: connecting and binding succeed or fail.
- A message whose total is smaller than what has been received makes the receiving loop count down from a negative number; `RecvLoop` and `RecvOver` end there as undefined.
