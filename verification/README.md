# lsocket, modelled and proved

lsocket is a small C socket layer: a fixed table of slots with send queues and a poll loop (`src/socket.c`), a
chunked receive buffer (`src/lsocketbuffer.c`) and a select-based interest table (`src/np_select.h`). This project
models the three in Dafny 4.11 and proves what they guarantee over whole runs, up to one end-to-end statement:
separator-framed messages sent on one side are popped on the other, in order and unchanged, however the kernel cuts
the bytes.

## How it is organised

Each stateful part exists twice: as a class in the source's own form, and as functions on a value. Every method of a
class is proved to do to the object's value what the function says; the guarantees are lemmas about the values. What a
call returns and leaves behind is stated a second time without the functions' own branches, from the kernel's answers
and the slot before (`NetAnswers.dfy`, `HandleReports`, `SetupIsAllOrNothing`). Every lemma switches automatic induction
off, so an inductive proof is written out.

| part | class: fields, links and loops | value: functions | guarantees |
|---|---|---|---|
| receive buffer | `SocketBuffer.dfy` | `ChunkBuffer.dfy`, `Framing.dfy` | `ChunkBuffer.dfy`, `BufferRuns.dfy`, `Framing.dfy`; repaired: `IntendedBuffer.dfy` |
| select table | `SelectTable.dfy` | `SelectTable.dfy` | `SelectTable.dfy` |
| socket table | `SocketQueue.dfy` (one slot), `SocketTable.dfy` | `NetModel.dfy` | `NetCore.dfy`, `NetRuns.dfy`, `NetTheorems.dfy`, `NetInterest.dfy`, `NetAnswers.dfy`, `NetPoll.dfy` |
| both ends | | | `EndToEnd.dfy` |

The classes keep the source's layout. Send blocks and buffer blocks are linked nodes with `next`, `head` and `tail`.
Slots are objects in an array, and a free slot's `fd` is the link of the free list. `socket_poll` fills an event array
with a cursor. Pointers into the slot array are indices, with -1 for a null pointer.

**The kernel is an argument.** Every operation is told what its system calls answer: `Wrote(n)`, `Again`, `Intr` or
`Fail(e)` for writes, likewise for reads, a yes or no for poller calls, results for accept and connect, and a batch of
wakeups for a poll. The statements hold for all answers. A write script that has run out stands for EAGAIN, so every
terminating behaviour has a script and the EINTR loops terminate. The value of a slot carries history: the bytes on
the wire (each with the descriptor that travels with it, if any) and everything submitted on the connection. A
released connection leaves a record of both. The classes carry the wire too: every write call goes through
`Socket.Write`, which is handed the block's own memory, offset, length and descriptor, and appends to the ghost wire
what the kernel takes of them; the wire of the class is proved to be the wire of the value.

**Runs** are sequences of operations, each starting where the last one ended. One turn of the loop in `socket_poll` is
an operation of its own, and a poll is proved to be the run of its turns, so what holds of runs holds of polls.

## Where the code departs from what it promises

The model follows the code. For each departure there is an exact condition, proved in both directions where both make
sense, and where it helps a concrete instance.

- `checksep` caps every block at the separator's length, not at what is still unmatched (`src/lsocketbuffer.c:128-130`),
  so it can compare past the separator's end. Popping to a separator is the flat pop exactly when the first
  occurrence lies in one block or ends where a block ends (`PopSepRefines`); a one-byte separator always qualifies
  (`OneByteIsTidy`). It keeps every byte exactly when it finds nothing or finds such an occurrence
  (`StepConservesExactly`), and a whole reader neither loses a byte nor pops anything but the first frames exactly
  when each pop that returns something does so (`ReaderSplitsExactly`). Searching agrees with the flat search exactly
  when nothing occurs or the memory behind the separator goes on as the buffer does (`FindSepAgrees`). Separators come
  from Lua strings (`src/lsocketbuffer.c:246`, `src/lsocketbuffer.c:278`), which have a zero byte behind them: in
  contents without zero bytes exactly the tidy occurrences are found (`ZeroBehindIsTidy`), and runs that push no zero
  byte and detach nothing lose none at all (`ZeroFreeRunConserves`). `MissedSeparator` is a two-byte separator that is
  overlooked, `SwallowedByte` one that takes the zero byte of data behind it along.
  In the table below an occurrence is tidy when it lies like that, and orderly when it is also the first one.
  `IntendedBuffer.dfy` has the comparison capped at what is unmatched; with it none of these conditions is needed.
- `ldetach` releases up to position `size` of the last block (`src/lsocketbuffer.c:314`). It empties the buffer exactly
  when there is at most one block and none of it has been read (`DetachRefines`). With several blocks what is left is
  not a valid buffer (`DetachCorrupts`); with one, partly read, its last bytes stay and will be popped again.
- `np_poll` writes its events without looking at the array's size (`src/np_select.h:137-168`). No answer makes it write
  past the end exactly when the array has room for every watched descriptor (`PollFitsExactly`).
- `socket_send` is commented as returning -1 for an error (`src/socket.c:521`), but returns -1 for a message it has
  queued after EAGAIN or EINTR (`ReturnMeansErrorExactly`, `QueuedReturnsError`). "Submitted" in this model means that
  a message was not refused before the send was attempted.
- `socket_send` accepts messages while a connect is pending, and a finished connect then drops all interest
  (`src/socket.c:790`). Write interest is in step afterwards exactly when nothing had been queued
  (`ConnectStrandsExactly`, `SendBeforeConnectStrands`).
- The senders, the flush and a finished connect ignore what `_subscribe` answers (`src/socket.c:567`, `src/socket.c:645`,
  `src/socket.c:516`, `src/socket.c:790`). `Strands` lists the operations that put write interest and a queue out of
  step: after any other they agree, after one of these they do not (`StepWired`, over runs `RunWiredExactly`;
  `RefusedInterestStrands` is an instance).
- `socket_sendfd` does not look at the status, so a half-closed slot refuses everything exactly when it is not an IPC
  slot (`HalfClosedRefusesExactly`, `HalfClosedAccepts`).
- `_close_socket` does not deregister and does not close descriptors 0 to 2. Registrations and slots still agree
  afterwards exactly when the descriptor is above 2 or had no interest (`CloseAgreesExactly`, over operations
  `StepAgrees`, over runs `RunAgreesExactly`; `StandardStreamStaysRegistered` is an instance). A standard stream may be
  bound, used and released without interest in any of the statements below.
- `_create_socket` keeps `rlimit` from the slot's last use (`ReadLimitOutlivesConnection`, `ReadLimitOutlives`).

## Model

| member | source | states |
|---|---|---|
| EndToEnd.RunEndToEnd | src/socket.c:523-593 | take any table, a stream connection in it and any run in which each accepted send on it carries a message and the separator: for any chunking, read sizes and order of reads and pops, if the pops that return something find orderly occurrences, the popped messages are a prefix of those sent, and all of them once everything is written and the receiver has caught up, whether the connection lives or has ended |
| EndToEnd.RunEndToEndExactly | src/lsocketbuffer.c:122-166 | in the same setting, after each of the receiver's turns the messages popped are the first of those sent and no byte read is lost, if and only if every pop that finds anything finds an orderly occurrence |
| EndToEnd.LinesEndToEnd | src/lsocketbuffer.c:144-166 | with a one-byte separator no message contains, the same without any condition on blocks |
| EndToEnd.IntendedEndToEnd | src/lsocketbuffer.c:122-166 | with the repaired comparison, the same for every separator without any condition on blocks |
| EndToEnd.LiveEndToEnd | src/socket.c:446-519 | the same read off any reachable table: a prefix, and all once the sender's queue is empty and the receiver has caught up |
| EndToEnd.ClosedEndToEnd | src/socket.c:928-936 | the same for a connection that has ended; all messages if it ended drained |
| EndToEnd.ReadTakesNext | src/socket.c:290-322 | a read returns exactly the next inbound bytes, no more than the adaptive size, and at least one if one is there |
| EndToEnd.PushesAreInbound | src/socket.c:281-324 | successive reads push consecutive slices of the inbound bytes, none twice, none skipped |
| EndToEnd.SendFrames | src/socket.c:523-593 | an accepted send of a message and its separator extends the framed stream by exactly that message, whether or not the send ends the connection |
| EndToEnd.SubmittedIsFramed | src/socket.c:523-593 | what a run's accepted sends submit is exactly the messages they carry, each followed by the separator, in order |
| EndToEnd.RunFrames | src/socket.c:885-949 | after any such run the wire, or the wire the connection ended with, is a prefix of the framed messages, all of them once everything is written |
| Framing.SplitInvertsFrame | src/lsocketbuffer.c:144-166 | splitting at first occurrences recovers the framed messages if and only if each message's separator is first seen at the message's end |
| Framing.FindStable | src/lsocketbuffer.c:152-165 | bytes pushed later never disturb a match already there |
| Framing.SplitFrames | src/lsocketbuffer.c:144-166 | the frames with their separators and the residue are the input |
| Framing.SplitPrefix | src/lsocketbuffer.c:144-166 | more input only adds frames |
| BufferRuns.RunRefinesExactly | src/lsocketbuffer.c:266-319 | a run of push, pop-n, pop-to-separator, pop-all and detach never differs from the flat run, in contents or results, if and only if every step is orderly |
| BufferRuns.RunRefines | src/lsocketbuffer.c:266-319 | an orderly run has the flat run's results and contents, so chunking does not matter |
| BufferRuns.RunConservesExactly | src/lsocketbuffer.c:49-319 | pushed bytes are the consumed bytes, dropped separators included, followed by the contents, at every point of a run, if and only if each step is a conserving one |
| BufferRuns.StepConservesExactly | src/lsocketbuffer.c:49-319 | a step loses no byte if and only if a pop that finds its separator finds it tidy and a detach meets at most one block, unread |
| BufferRuns.RunConserves | src/lsocketbuffer.c:49-319 | the same from a new buffer |
| BufferRuns.OrderlyHitsConserve | src/lsocketbuffer.c:49-319 | a run whose pops find only orderly occurrences, and whose detaches are orderly, is a conserving one, pops by count and pop-all included |
| BufferRuns.ZeroFreeRunConserves | src/lsocketbuffer.c:246-290 | with the zero byte Lua puts behind a separator, no run of pushes and pops that pushes no zero byte loses a byte, for any separators and chunking |
| BufferRuns.ReaderSplitsExactly | src/lsocketbuffer.c:144-166 | for any interleaving of pushes and pops to one separator and any chunking: no byte is lost and the results are, at every point, the first frames of everything pushed, if and only if every pop that returned something found an orderly occurrence |
| BufferRuns.OrderlyHitByResult | src/lsocketbuffer.c:144-166 | the condition on pops, stated on what the comparison accepts beforehand, is that those which return something are orderly |
| BufferRuns.ReaderDeliversExactly | src/lsocketbuffer.c:144-166 | when what is pushed is the beginning of frameable messages: no byte is lost and the messages popped are the first ones, at every point, if and only if every pop that finds anything finds an orderly occurrence |
| BufferRuns.ReaderIsScheduleIndependent | src/lsocketbuffer.c:144-166 | from a new buffer the results are a prefix of the split of everything pushed, and all of it once a pop would fail |
| BufferRuns.MissedPopConserves | src/lsocketbuffer.c:128-165 | a pop that overlooks its separator still loses nothing |
| BufferRuns.OneByteReaderIsOrderly | src/lsocketbuffer.c:122-142 | with a one-byte separator every such run is orderly |
| ChunkBuffer.StepRefines | src/lsocketbuffer.c:49-319 | each operation acts as on the flat contents if and only if it is orderly: a condition on block boundaries for pop-to-separator, on block count and read offset for detach, none for the others |
| ChunkBuffer.PopSepRefines | src/lsocketbuffer.c:144-166 | pop-to-separator returns the bytes before the first occurrence and consumes through its end if and only if that occurrence is tidy, whatever lies behind the separator in memory |
| ChunkBuffer.ReachIsExact | src/lsocketbuffer.c:126-140 | the comparison covers exactly the separator if and only if the stretch lies in one block or ends at a block's end |
| ChunkBuffer.LiteralIsMatch | src/lsocketbuffer.c:122-142 | what the comparison accepts is an occurrence of the separator |
| ChunkBuffer.TidyMatchIsLiteral | src/lsocketbuffer.c:122-142 | a tidy occurrence is accepted |
| ChunkBuffer.OneByteIsTidy | src/lsocketbuffer.c:128-130 | a one-byte separator is always compared right |
| ChunkBuffer.FindSepAgrees | src/lsocketbuffer.c:241-264 | find succeeds if and only if some occurrence is followed in the buffer as the separator is in memory, as far as the comparison goes; it agrees with the flat search if and only if nothing occurs or that holds; a tidy occurrence always is found; an empty separator in every buffer but the empty one |
| ChunkBuffer.MissedSeparator | src/lsocketbuffer.c:128-134 | a separator at the very start of the buffer that neither pop nor find sees |
| ChunkBuffer.SwallowedByte | src/lsocketbuffer.c:128-138 | a separator found with a zero byte of data behind it, which is dropped with it because a zero byte stands behind the separator in memory |
| ChunkBuffer.ZeroBehindIsTidy | src/lsocketbuffer.c:122-142 | with a zero byte behind the separator and none in the contents, the comparison accepts exactly the tidy occurrences |
| ChunkBuffer.FindSepZeroBehind | src/lsocketbuffer.c:241-264 | so find succeeds if and only if there is a tidy occurrence |
| ChunkBuffer.DetachRefines | src/lsocketbuffer.c:293-319 | detach empties the buffer if and only if it holds at most one block, unread; exactly what stays otherwise |
| ChunkBuffer.DetachCorrupts | src/lsocketbuffer.c:314 | two unread blocks leave a read offset behind the end of the block that is kept |
| ChunkBuffer.DropToIsExact | src/lsocketbuffer.c:94-120 | releasing to a position removes precisely the bytes before it and leaves a valid buffer: no empty block, offset inside the head block or the buffer empty with offset 0 |
| ChunkBuffer.DropToBlock | src/lsocketbuffer.c:100-111 | the released prefix in terms of the block and offset the code names |
| IntendedBuffer.MatchesFromIsFlat | src/lsocketbuffer.c:122-142 | the comparison capped at what is unmatched succeeds exactly at the occurrences, however the blocks are cut |
| IntendedBuffer.PopSepIsFlat | src/lsocketbuffer.c:144-166 | with it, pop-to-separator returns the bytes before the first occurrence and consumes through its end, for every separator and chunking |
| IntendedBuffer.FindSepIsFlat | src/lsocketbuffer.c:241-264 | with it, find succeeds if and only if the separator occurs |
| IntendedBuffer.CodeAgreesExactly | src/lsocketbuffer.c:122-319 | the code does what the repaired code does if and only if the step is orderly |
| IntendedBuffer.RunIsFlat | src/lsocketbuffer.c:49-319 | every run of the repaired buffer is the flat run |
| IntendedBuffer.ReaderIsFlat | src/lsocketbuffer.c:144-166 | the repaired reader loses nothing and pops the first frames, all of them once nothing more can be popped |
| SocketBuffer.ReceiveBuffer.constructor | src/lsocketbuffer.c:39-47 | a new buffer is empty |
| SocketBuffer.ReceiveBuffer.Push | src/lsocketbuffer.c:50-75 | appends one block and returns the new size; nothing happens for an empty one |
| SocketBuffer.ReceiveBuffer.PushPack | src/lsocketbuffer.c:78-92 | copies the flat bytes from the read position to the given one |
| SocketBuffer.ReceiveBuffer.FreeBuffer | src/lsocketbuffer.c:95-120 | releases everything before a position of a node and restores `size`, `offset` and the links |
| SocketBuffer.ReceiveBuffer.CheckSep | src/lsocketbuffer.c:123-142 | the linked-list loop succeeds exactly where the literal comparison does and ends where that ends |
| SocketBuffer.ReceiveBuffer.Scan | src/lsocketbuffer.c:147-163 | the nested scan stops at the first position where the comparison succeeds |
| SocketBuffer.ReceiveBuffer.ReadSep | src/lsocketbuffer.c:145-166 | the method is the value's pop-to-separator |
| SocketBuffer.ReceiveBuffer.ReadAll | src/lsocketbuffer.c:169-182 | returns all bytes and empties the buffer, or nil |
| SocketBuffer.ReceiveBuffer.Seek | src/lsocketbuffer.c:223-236 | finds the node and offset n bytes further on |
| SocketBuffer.ReceiveBuffer.ReadN | src/lsocketbuffer.c:213-239 | returns exactly the next n bytes, or leaves the buffer as it is |
| SocketBuffer.ReceiveBuffer.FindSep | src/lsocketbuffer.c:242-264 | the method is the value's search and changes nothing |
| SocketBuffer.ReceiveBuffer.Pop | src/lsocketbuffer.c:267-290 | dispatches on its argument; an empty separator is refused |
| SocketBuffer.ReceiveBuffer.CopyOut | src/lsocketbuffer.c:300-312 | the copy made by detach is the whole contents |
| SocketBuffer.ReceiveBuffer.Detach | src/lsocketbuffer.c:293-319 | returns all bytes; the buffer stays valid only if it held at most one block |
| SelectTable.SelectState.constructor | src/np_select.h:21-32 | an empty table whose capacity is at least the size asked for and less than twice it |
| SelectTable.SelectState.Grow | src/np_select.h:45-52 | growth makes room and keeps every registration |
| SelectTable.SelectState.Add | src/np_select.h:72-94 | registers owner and interest; on a new descriptor the table as a map gains exactly that entry; invalid descriptors are refused |
| SelectTable.SelectState.Mod | src/np_select.h:97-112 | a registered descriptor's mask is replaced and its owner kept |
| SelectTable.SelectState.Del | src/np_select.h:116-134 | exactly that entry disappears, and the cached maximum is right after the downward scan |
| SelectTable.SelectState.Poll | src/np_select.h:137-168 | one record for each descriptor `PollIsExact` lists, in its order, whatever the array's size: the owner, readable exactly if read interest is registered and select found it readable, writable likewise |
| SelectTable.SelectState.PollFitsExactly | src/np_select.h:153-165 | no answer makes it write more than the array holds if and only if the array has room for every watched descriptor |
| SelectTable.SelectState.MaxFdIsGreatest | src/np_select.h:90-91 | `maxfd` is the greatest registered descriptor, or -1 if there is none |
| SelectTable.SelectState.PollIsExact | src/np_select.h:153-165 | a descriptor is reported exactly when it is ready for something in its mask, once, in ascending order |
| SelectTable.ReadyFdsAreExact | src/np_select.h:154-164 | the reported list is complete, free of repetition and ascending |
| NetCore.StepCore | src/socket.c:124-187 | every operation, whatever the kernel answers, keeps the slot partition, queue shape, conservation per slot, the records of ended connections and the read-size bound |
| NetCore.FlushConserves | src/socket.c:447-503 | a flush moves items from queue to wire on any script and loses none; blocks keep something to write |
| NetCore.TransmitOk | src/socket.c:536-586 | a send, direct or queued, conserves what it submits, also across partial writes and on the error path |
| NetCore.SendCore | src/socket.c:523-671 | both senders keep the table's invariant on every path |
| NetCore.HandleCore | src/socket.c:894-945 | one turn of the poll loop keeps it |
| NetRuns.RunEvolves | src/socket.c:523-671 | in any run a connection either goes on or ends with a record, and either way what was submitted since is exactly what the accepted sends carried, in order |
| NetRuns.StepEvolves | src/socket.c:885-949 | the same for one operation, and what is on the wire stays there |
| NetRuns.StepFrame | src/socket.c:885-949 | an operation changes no slot but its own, or the head of the free list when it sets one up |
| NetTheorems.Conservation | src/socket.c:447-472 | in every reachable table wire and queue are together what was submitted; an ended connection's wire is a prefix of it, all of it if drained |
| NetTheorems.DescriptorsPassOnce | src/socket.c:474-503 | bytes and descriptors passed, followed by those still queued, are those submitted: none twice, none lost |
| NetTheorems.TagPassesOnce | src/socket.c:326-361 | a message passes its descriptor once, with its first byte only |
| NetTheorems.GracefulClose | src/socket.c:189-202 | a half-closed stream slot accepts nothing more in any run, keeps something to write while it lives, and if it ends drained then everything submitted before the close is on the wire |
| NetTheorems.DrainProgress | src/socket.c:916-937 | while a half-closed slot lives, each writable event in which the kernel takes something puts at least one more byte on the wire |
| NetTheorems.DrainIsBounded | src/socket.c:928-936 | a half-closed stream slot is released after at most as many such events as it has bytes queued |
| NetTheorems.SlotPartition | src/socket.c:104-187 | the free list holds exactly the slots that are not live; live and free slots add up to the table |
| NetTheorems.CreateFailsWhenFull | src/socket.c:130-131 | a slot cannot be set up exactly when all are live |
| NetTheorems.SlotsAreReusedInOrder | src/socket.c:130-136 | in any run the next slots handed out are those on the free list now, in its order |
| NetTheorems.ClosedSlotWaitsItsTurn | src/socket.c:179-186 | however a slot is released, in any run that follows it is handed out only after all slots that were free before it |
| NetTheorems.EndedSlotIsLast | src/socket.c:179-186 | an operation that ends a connection puts its slot at the tail of the free list and hands out none |
| NetTheorems.NewSlotIsBlank | src/socket.c:132-149 | a slot that becomes live was the head of the free list and starts with nothing written, submitted or queued and a final status |
| NetTheorems.LimitIsKept | src/socket.c:554-586 | a slot within its limit stays within it through every operation, except exactly a `socket_limit` below what it has queued |
| NetTheorems.ReadSizeAdapts | src/socket.c:314-319 | until `socket_limit` is called the read size is 64 doubled some times, at most the larger of 64 and twice the largest read |
| NetTheorems.ReadLimitOutlivesConnection | src/socket.c:137-148 | a new connection's read size adapts exactly when the slot's previous use left no read limit |
| NetTheorems.ReadLimitOutlives | src/socket.c:137-148 | calls after which a full read on a new connection does not enlarge its read size |
| NetTheorems.ReturnMeansErrorExactly | src/socket.c:538-568 | -1 means error exactly unless EAGAIN or EINTR meets an empty queue with room |
| NetTheorems.QueuedReturnsError | src/socket.c:547-568 | a send that returns -1 and whose message the next writable event delivers |
| NetTheorems.HalfClosedRefusesExactly | src/socket.c:597-608 | a half-closed slot refuses all messages exactly when it is not an IPC slot |
| NetTheorems.HalfClosedAccepts | src/socket.c:597-608 | calls after which a half-closed slot takes one more message |
| NetTheorems.SetupIsAllOrNothing | src/socket.c:673-882 | bind, listen and connect return -1 exactly when no slot is free or the kernel refuses, with the live slots as before; otherwise the former head of the free list, live with the descriptor, owner data, protocol, limit, status and registered interest of its kind; and the error noted in each case |
| NetAnswers.ReadAnswers | src/socket.c:282-444 | by the first answer that is not EINTR: an open stream hands over the first bytes that fit the read size, with their number, and adapts the size; end of file, an error and a flawed message end the connection with -1 and that error; an IPC slot hands over at most 64 bytes and the descriptor, four more in the count; a half-closed stream discards; EAGAIN changes nothing |
| NetAnswers.SendAnswers | src/socket.c:523-593 | a send is refused exactly on a slot that is no stream or is half-closed; otherwise the kernel has what it took at once, the rest is kept exactly if all that waits is within the limit, else the connection ends with the overflow error, or with the kernel's own; and the return value in each case |
| NetAnswers.SendFdAnswers | src/socket.c:597-671 | the same with a descriptor on an IPC slot, half-closed ones included; a message taken whole at once returns 0 |
| NetAnswers.FlushIsExact | src/socket.c:447-503 | a flush stops at the first block that the answers other than EINTR do not take whole: the blocks before it and what was taken of it are on the wire, the rest is queued, and an error is returned exactly if it met one there |
| NetAnswers.CloseAnswers | src/socket.c:190-202 | 1 exactly when output is queued and the close is not forced, the slot then half-closed with everything kept; otherwise 0 and the connection has ended |
| NetAnswers.EnableReadAnswers | src/socket.c:205-214 | with a willing poller read interest is what was asked for, write interest as before, and reading is registered with the poller under the slot's id exactly if asked for; a refusing one changes nothing, and the call fails exactly if something had to change |
| NetAnswers.UdataAnswers | src/socket.c:217-223 | the owner's value becomes the given one and nothing else changes |
| NetAnswers.LimitAnswers | src/socket.c:966-981 | a positive limit is set, any other means unlimited sending or adaptive reading; a read limit also sets the read size, lifting one keeps it |
| NetAnswers.NoSlotAnswers | src/socket.c:77-86 | a call on a slot that is not live changes nothing but the error noted and returns its own failure value |
| NetInterest.MasksAreRegistered | src/socket.c:88-102 | in every table a run from a new one reaches, poller failures and standard streams included, each live slot's mask is its registered interest and there is no other registration, if the run releases no standard stream with interest left |
| NetInterest.RunAgreesExactly | src/socket.c:88-102 | along a run they agree at every point if and only if no operation releases a slot on a standard stream that has interest left |
| NetInterest.StepAgrees | src/socket.c:156-167 | the same for one operation, in both directions |
| NetInterest.CloseAgreesExactly | src/socket.c:153-187 | closing keeps that agreement exactly when the descriptor is above 2 or had no interest |
| NetInterest.StandardStreamStaysRegistered | src/socket.c:156-167 | a listener on descriptor 0 is closed and its registration names a free slot |
| NetInterest.StepWired | src/socket.c:505-519 | past connecting, write interest follows the queue through an operation if and only if it is none of these: a first block queued or a flush drained while the poller refuses, a finished connect whose interest does not fit its queue, a graceful close of a pending connect with output but no write interest |
| NetInterest.RunWiredExactly | src/socket.c:505-519 | registrations follow masks and write interest follows queues at every point of a run if and only if no operation of it is one of those or leaves a standard stream registered |
| NetInterest.NoStrandedOutput | src/socket.c:566-567 | in every table a run without such operations reaches, a slot past connecting has registered write interest exactly when it has something queued |
| NetInterest.QuietlyIsCalmly | src/socket.c:566-567 | runs with successful poller calls and no send before the connection is up are such runs |
| NetInterest.ConnectStrandsExactly | src/socket.c:780-796 | a finished connect leaves interest in step exactly when nothing was queued |
| NetInterest.SendBeforeConnectStrands | src/socket.c:788-791 | three calls after which a connected slot has output queued and its descriptor is unknown to the poller |
| NetInterest.RefusedInterestStrands | src/socket.c:567 | a send on a connected slot while the poller refuses: output queued, the descriptor unknown to the poller |
| NetPoll.PollIsCoherent | src/socket.c:885-949 | for a batch naming live slots once each: opening events name live slots, closing events a connection that ended in this batch in that way, an id comes twice only as a closing and the accept that reused it, no more events than wakeups, other live slots untouched |
| NetPoll.EveryPollIsCoherent | src/socket.c:885-892 | so is every poll, on every table such a run reaches, whose batch comes from the poller's registrations |
| NetPoll.ReportedIsLive | src/socket.c:891-892 | the poller's registrations name live slots only, each once |
| NetPoll.DrainedMeansDelivered | src/socket.c:928-936 | a WRIDONECLOSE event names a slot that was live when the poll began, and the connection it held then ended drained in this poll with every byte submitted on it on the wire |
| NetPoll.ResumedMeansSame | src/socket.c:885-949 | a READ, CONNECT or CONN_THEN_READ event means the very connection that was in the slot when the poll began: it lives, its slot has not ended since, what was on the wire is there and nothing was submitted |
| NetPoll.HandleReports | src/socket.c:894-945 | what one wakeup reports, by the status before: a listener ACCEPT exactly if a non-blocking connection met a free slot, the new slot being a connected stream on that descriptor with the listener's limit and owner data; a pending connect CONNERR exactly on an error, with it, else CONN_THEN_READ exactly if readable, else CONNECT; any other slot SOCKERR with the error the flush met, WRIDONECLOSE exactly when half-closed output drained, READ exactly if readable otherwise; and the slot and wire each leaves |
| NetPoll.AcceptedCanSend | src/socket.c:691-712 | a connection just accepted takes the next message sent on it |
| NetPoll.EveryWakeupIsReported | src/socket.c:885-949 | in a poll each wakeup meets its slot as it was when the poll began, its report stands among the events in the order of the wakeups, and nothing else is there |
| NetPoll.PollIsRun | src/socket.c:885-949 | a poll is the run of its turns |
| SocketQueue.Socket.Enqueue | src/socket.c:570-585 | counts and links one block at the tail, or finds the limit exceeded |
| SocketQueue.Socket.Append | src/socket.c:582-585 | the list gains exactly that block at its end |
| SocketQueue.Socket.Advance | src/socket.c:488-491 | a partial write leaves the block's rest and lowers the counter by what was taken |
| SocketQueue.Socket.Write | src/socket.c:450 | of the memory, offset, length and descriptor it is handed the kernel takes the first bytes, the descriptor with the very first |
| SocketQueue.Socket.FlushTcp | src/socket.c:447-472 | on any script the nested loops leave the queue, counter and links, and have handed over to the kernel the bytes, that the flush function says |
| SocketQueue.Socket.FlushIpc | src/socket.c:475-503 | the same for descriptor-passing sockets: bytes and descriptors handed over, zero-length answers included |
| SocketQueue.Socket.Release | src/socket.c:168-178 | frees the queue and marks the slot invalid |
| SocketQueue.Socket.Reset | src/socket.c:137-148 | a slot is fresh but for `rlimit` |
| SocketTable.AllocSockets | src/socket.c:105-122 | every slot free and linked to the next, the last to -1 |
| SocketTable.NetState.constructor | src/socket.c:226-242 | a new table is the initial value; sizes below one become one |
| SocketTable.NetState.FreeListIsExact | src/socket.c:179-186 | following `fd` from `free_socket` visits exactly the invalid slots, each once, and ends at `tail_socket` with -1 |
| SocketTable.NetState.CounterIsExact | src/socket.c:446-503 | `sbuffersz` is what was submitted and is not on the wire yet; every queued rest is positive and a suffix of its block |
| SocketTable.NetState.Lookup | src/socket.c:77-86 | tells live slots from free ones and notes the failure |
| SocketTable.NetState.CreateSocket | src/socket.c:125-150 | the method is the value's create: head of the intrusive list taken |
| SocketTable.NetState.CloseSocket | src/socket.c:153-187 | the method is the value's close: slot emptied and linked at the tail |
| SocketTable.NetState.Subscribe | src/socket.c:89-102 | add, change or delete by old and new mask; on failure nothing changes |
| SocketTable.NetState.SocketClose | src/socket.c:190-202 | closes at once when forced or drained, else half-closes |
| SocketTable.NetState.EnableRead | src/socket.c:205-214 | the method is the value's call, whose outcome `EnableReadAnswers` states: read interest set, write interest kept |
| SocketTable.NetState.SetUdata | src/socket.c:217-223 | only the owner's value changes |
| SocketTable.NetState.SetLimit | src/socket.c:966-981 | both limits set; non-positive values mean unlimited and adaptive |
| SocketTable.NetState.Bind | src/socket.c:674-688 | the method is the value's bind, failures included |
| SocketTable.NetState.Listen | src/socket.c:764-777 | the method is the value's listen from the descriptor on |
| SocketTable.NetState.Connect | src/socket.c:866-882 | the method is the value's connect from the descriptor on |
| SocketTable.NetState.WriteFirst | src/socket.c:538-548 | the senders' direct write hands over the message's own bytes and descriptor, and the value takes in what the kernel took |
| SocketTable.NetState.TransmitDirect | src/socket.c:536-568 | direct write, queued rest, write interest, overflow and error close |
| SocketTable.NetState.TransmitBehind | src/socket.c:569-587 | queueing behind earlier output, overflow close |
| SocketTable.NetState.Send | src/socket.c:523-593 | the method is the value's send, refusals and return value included |
| SocketTable.NetState.SendFd | src/socket.c:597-671 | the method is the value's send with a descriptor, null data included |
| SocketTable.NetState.SendBuffer | src/socket.c:506-519 | flush by protocol, write interest dropped when drained |
| SocketTable.NetState.ReadTcp | src/socket.c:282-324 | read, retry on EINTR, close on end of file or error, adapt the size, half-closed slots only watching for the end: the value's read, whose outcome `ReadAnswers` states |
| SocketTable.NetState.ReadFd | src/socket.c:365-430 | one message with its descriptor, closing on truncation or a wrong control message: the value's read, whose outcome `ReadAnswers` states |
| SocketTable.NetState.Read | src/socket.c:434-444 | dispatches by protocol: the value's read, whose outcome `ReadAnswers` states |
| SocketTable.NetState.Accept | src/socket.c:691-712 | the accepted connection inherits limit and owner data, or leaves no slot behind: the value's accept, whose outcome `HandleReports` states |
| SocketTable.NetState.OnConnect | src/socket.c:781-796 | connected with no interest, or closed |
| SocketTable.NetState.HandleReady | src/socket.c:916-944 | flush, close on error or when drained, report |
| SocketTable.NetState.Poll | src/socket.c:886-949 | the loop with its event cursor returns the poll function's events and leaves its table; which events those are `HandleReports` and `EveryWakeupIsReported` state |

## Left out

- Socket creation, address resolution and socket options inside `socket_listen` and `socket_connect`: operating-system behaviour; the model starts from the descriptor they produce.
- `socket_address`, `socket_error`, `socket_lasterrno`, `socket_fd`, `net_free` and `lfree`: they read one field or only release memory.
- `src/np_epoll.h`: represented by a map from descriptor to mask and owner, in which adding needs a free entry and changing or deleting needs an existing one.
- `src/np_kqueue.h`: its change operation cannot enable a filter again, so the interest properties do not hold on it.
- The select table under the socket table: closing a slot never deregisters, so the table is proved on its own.
- `src/psocket.c`, `src/lsocket.c`, `lib/socket.lua` and the Lua stack handling of the buffer: bindings; buffer functions return an optional byte sequence.
- Widths of C integers: counters and sizes are unbounded integers; only the unlimited send limit is the greatest 32-bit value.
- Allocation failure, Windows paths, and processes sharing descriptors through fork.
- Negative counts to pop-n: the code then copies a negative length.
- Memory safety of reading behind the separator: `checksep` is modelled on memory of which twice the separator's length can be read; the statements hold whatever that memory contains.
- The byte layout of a received descriptor: `_readfd` returns it as four bytes in front of the data; the model returns it beside the data, with the same return value.
- SelectTable.SelectState.Poll: the event array is the sequence of records written from its start, since the code does not look at its size; overwriting of older entries is not modelled.
- NetInterest.StepAgrees: assumes that a descriptor brought in by the kernel or the caller is not open in a live slot; so do the statements over runs that rest on it.
