# Verified models of the network programming coursework servers

A Dafny model of the concurrent protocols in the repository, of the wire format, evaluator and
printer its calculator programs share, and proofs of what those protocols promise over all inputs
and all interleavings.

## What is modelled

| files | system |
|---|---|
| `Wrappers.dfy` | values that may be missing |
| `CTypes.dfy` | C scalars, little-endian words, NUL-terminated strings, in-place buffer writes |
| `Frame.dfy` | the request frame `count, operands, operators` and the encoders that fill reused buffers |
| `Calculator.dfy` | the left fold, its 32-bit arithmetic, and the loop shapes of the HW2, HW3 and HW5 servers |
| `Line.dfy` | the printed line `a+b*c=r`, a reader for it, its length, and the loop that decodes, folds and prints |
| `TextLines.dfy` | texts made of lines, joined and split at newlines |
| `Store.dfy`, `StoreSafety.dfy`, `StoreTheorems.dfy`, `StoreReplies.dfy`, `StoreProcesses.dfy`, `StoreClient.dfy` | the HW6 store: parent, child, two pipes, two copies of the table, and the client's messages |
| `Broadcast.dfy`, `BroadcastProtocol.dfy`, `BroadcastTheorems.dfy`, `BroadcastProgram.dfy` | the HW8 threaded broadcast server `test_serv.c`, and the removal loop of `hw8_server.c` |
| `SelectRound.dfy` | one scan of a `select` loop whose set and bound change during the scan |
| `LogPipe.dfy` | the HW5 server's workers, their shared log pipe and the logger |
| `FileTransfer.dfy` | the HW4 file transfer with half-close over a segmented stream |
| `Semaphore.dfy`, `Mutex.dfy` | the two thread programs of HW8 |

Concurrent programs are state machines: a state holds the program counter and memory of every
process or thread and the contents of every pipe or socket; a step is one system call, one critical
statement or one access to a shared variable; a run is any sequence of steps from the initial state.
Theorems about `Run` therefore cover every interleaving. The transition relations follow these lines:

- `Store.ParentStep`, `Store.ChildStep`, `Store.Receive`: HW6/2020115885/hw6_server.c:112-190 and 245-273
- `BroadcastProtocol.Step`: HW8/2020115885/test_serv.c:52-131, one step per lock, append, write, removal, unlock and close
- `LogPipe.Writes`, `LogPipe.Leaves`, `LogPipe.Logs`, `LogPipe.Forks`: HW5/2020115885/hw5_server.c:66-145
- `FileTransfer.Next`: HW4/file_server.c:40-56 and HW4/file_client.c:34-41
- `Semaphore.Next`: HW8/실습코드/semaphore.c:36-66, `Mutex.Next`: HW8/실습코드/mutex.c:40-62

Sequential code that changes buffers, arrays or globals in place is written as methods and classes
over arrays. In the store those methods are proved to be steps of the protocol (`StoreProcesses`);
elsewhere they are proved equal to the functions that the theorems are about.

Some promises hold only under a condition, and the condition is proved exact: the late-shifting removal
loop is right iff the departing client is in the array and last, bytes of an earlier request reach a frame iff the typed
line is incomplete or its count negative, a load can be answered iff no quit was written before it, a printed line reads back
iff no operator is a digit or NUL, and the log file reads back as the lines written iff no operator is
a newline.

## Model

| member | source | states |
|---|---|---|
| StoreTheorems.RunsRefineTheAtomicStore | HW6/2020115885/hw6_server.c:112-190 | In every interleaving of parent and child the saves, load answers and quits form a run of an atomic `id -> list of lines` store, and the trace only grows. |
| StoreTheorems.RepliesCollectEarlierSaves | HW6/2020115885/hw6_server.c:124-137 | A load's reply is the in-order concatenation of `id: line` over exactly the earlier saves with that id, and is `Not exist` iff there were none. |
| StoreReplies.RepliesSpellEarlierSaves | HW6/2020115885/hw6_server.c:124-137 | In every run a load's reply is, record by record and with nothing else, the id, `: ` and the printed line of each earlier save with that id, in order; without one it is `Not exist` and a newline. |
| StoreReplies.RepliesReadBack | HW6/2020115885/hw6_server.c:124-137 | Split at its newlines, the reply gives exactly those texts, if neither the id nor an operator contains a newline. |
| StoreReplies.AtomicReplySpelled | HW6/2020115885/hw6_server.c:126-136 | The atomic store's answer is spelled the same way from the lines it holds. |
| StoreReplies.StoreHoldsTheSaves | HW6/2020115885/hw6_server.c:155-160 | The atomic store holds for an id the printed lines of exactly the saves with that id, in order. |
| StoreReplies.SavesAreTheSaveEvents | HW6/2020115885/hw6_server.c:155-160 | The saves of a trace are its save events, in order. |
| StoreReplies.StoreWords | HW6/2020115885/hw6_server.c:14-18 | The mode words, the `Not exist` text and the sizes of the buffers, records and table are those of the source. |
| StoreTheorems.StoredLinesAreTrue | HW6/2020115885/hw6_server.c:118-120 | Each record in the child's table is the id and line of the save with the same index, and (for readable operators) reads back as a true equation about that request. |
| StoreTheorems.PipeStaysFramed | HW6/2020115885/hw6_server.c:114-128 | Before a quit, the child's parse state and the bytes in pipe A are the unprocessed saves followed by the open command, and the child's next read returns one whole block of the parent. |
| StoreTheorems.QuitComesAfterItsSaves | HW6/2020115885/hw6_server.c:139-142 | After a quit is written the child reads exactly the saves before it, then stops, with no reply in between. |
| StoreSafety.ReadsAreWholeWrites | HW6/2020115885/hw6_server.c:116-123 | In a state that satisfies the invariant, the bytes at the head of pipe A are a mode, a record or the waiting id, as the child expects. |
| StoreSafety.ReadsBeforeStopping | HW6/2020115885/hw6_server.c:116-142 | The same once a quit is in the pipe: only saves numbered before it, then the quit. |
| StoreTheorems.DrainedTablesAgree | HW6/2020115885/hw6_server.c:113-160 | With pipe A empty and both processes between commands, the child's local count and table equal the parent's. |
| StoreTheorems.ReplyPipeHoldsOneReply | HW6/2020115885/hw6_server.c:132-172 | Pipe B is empty unless the parent waits for a load, and then holds one reply, shorter than the read. |
| StoreReplies.PipeStaysWithinCapacity | HW6/2020115885/hw6_server.c:148-170 | Pipe A never holds more than its capacity. |
| StoreReplies.ParentKeepsItsMemory | HW6/2020115885/hw6_server.c:146-190 | Between messages the parent's memory changes only by the calculator's first operand and the next record. |
| StoreReplies.RecordIsFilled | HW6/2020115885/hw6_server.c:157-158 | The two copies fill the id and line fields of a record and leave what they do not reach. |
| StoreReplies.AnyMessageIsReceived | HW6/2020115885/hw6_server.c:260-269 | A free parent receives every message of 1 to 1034 bytes that its buffers fit. |
| StoreReplies.ServerStarts | HW6/2020115885/hw6_server.c:220-231 | A server that starts with empty tables and pipes, whatever its buffers hold, is the start of a run. |
| StoreTheorems.NeverStuckBeforeQuit | HW6/2020115885/hw6_server.c:114-178 | Before a quit, with pipe A able to hold one record, either the parent is free for a client or a process can move. |
| StoreTheorems.StepsUseUpWork | HW6/2020115885/hw6_server.c:114-189 | Every step of either process lowers a measure, so service of a client takes finitely many steps. |
| StoreTheorems.EveryServiceEnds | HW6/2020115885/hw6_server.c:112-189 | From a reachable state before a quit, every path with more steps than the measure passes through a state in which the parent is free, and one that has not yet can go on. |
| StoreTheorems.RestMeansDrained | HW6/2020115885/hw6_server.c:114-178 | When nothing can move before a quit, both pipes are empty, the parent is free and the tables agree. |
| StoreTheorems.EveryTurnCounts | HW6/2020115885/hw6_server.c:122-172 | While the parent waits for a load only the child can move, and each move brings the answer one turn closer. |
| StoreTheorems.AnswerArrivesOnTime | HW6/2020115885/hw6_server.c:122-172 | In every run the answer is in pipe B after exactly the computed number of steps and pipe B is empty before that. |
| StoreTheorems.LoadReturnsIffNoQuit | HW6/2020115885/hw6_server.c:139-174 | From a reachable state with a load outstanding, some continuation answers it iff no quit was written. |
| StoreClient.LoadAfterQuitHangs | HW6/2020115885/hw6_server.c:139-189 | A concrete run of a quit followed by another client's load, from which no answer can come. |
| StoreTheorems.QuitBlocksLoads | HW6/2020115885/hw6_server.c:139-172 | A load outstanding after a quit stays outstanding along every path. |
| StoreTheorems.LoadsReturnBeforeQuit | HW6/2020115885/hw6_server.c:122-174 | Before a quit an outstanding load has a path, given as the result, on which the parent becomes free again. |
| StoreTheorems.ServiceReturns | HW6/2020115885/hw6_server.c:146-190 | Before a quit every service under way has a path to its end. |
| StoreSafety.StoreHoldsSavedLines | HW6/2020115885/hw6_server.c:155-160 | The atomic store holds for a key the lines of the saves with that key, in order. |
| StoreSafety.ScanRenders | HW6/2020115885/hw6_server.c:125-130 | The child's scan of a table that records the saves produces their rendered lines for the wanted id. |
| StoreSafety.TableAnswers | HW6/2020115885/hw6_server.c:125-137 | The reply computed from such a table is the reply of the atomic store. |
| StoreSafety.AnswersTheOpenLoad | HW6/2020115885/hw6_server.c:122-134 | When the child answers before a quit it holds all the parent's records and the id the parent waits on. |
| StoreSafety.StepKeeps | HW6/2020115885/hw6_server.c:112-190 | Every step of parent, child or client keeps framing, agreement of the tables, and refinement. |
| StoreSafety.RunsKeep | HW6/2020115885/hw6_server.c:112-190 | Every state of every run satisfies that invariant. |
| StoreProcesses.ChildProcess.ReadMode | HW6/2020115885/hw6_server.c:116-142 | The read and the comparisons, on the child's arrays, are one child step of the protocol. |
| StoreProcesses.ChildProcess.ReadRecord | HW6/2020115885/hw6_server.c:119-120 | Reading a record in place and counting it is one child step. |
| StoreProcesses.ChildProcess.ReadId | HW6/2020115885/hw6_server.c:123-123 | Reading the id in place is one child step. |
| StoreProcesses.ChildProcess.Answer | HW6/2020115885/hw6_server.c:124-137 | The scan with `sprintf` and `strcat` into the child's buffers, and the write, are the child step that answers. |
| StoreProcesses.ChildProcess.Append | HW6/2020115885/hw6_server.c:126-129 | A matching record's text ends up at the end of the string in `result`. |
| StoreProcesses.ParentProcess.Receive | HW6/2020115885/hw6_server.c:260-269 | The scattered read and the mode comparisons give the protocol's dispatch on the parent's memory. |
| StoreProcesses.ParentProcess.ComputeRecord | HW6/2020115885/hw6_server.c:150-158 | The calculator and the two copies into the record are the parent's compute step, and the client's reply is the request's value. |
| StoreProcesses.ParentProcess.FinishLine | HW6/2020115885/hw6_server.c:155-155 | The buffer then holds the whole line of the request. |
| StoreClient.SaveArrives | HW6/2020115885/hw6_client.c:98-119 | The client's save message is dispatched as a save of exactly its id and request; up to seven operands it fits every buffer. |
| StoreClient.LoadArrives | HW6/2020115885/hw6_client.c:107-108 | A load message is dispatched as a load of the client's id and leaves the old request bytes alone. |
| StoreClient.QuitArrives | HW6/2020115885/hw6_client.c:90-92 | A quit message is dispatched as a quit and changes nothing else. |
| StoreClient.ClientSaveIsSaved | HW6/2020115885/hw6_client.c:117-120 | In every interleaving a client's save ends as one event, the save of its own id and request. |
| StoreClient.ClientLoadIsAnswered | HW6/2020115885/hw6_client.c:107-111 | In every interleaving a served load was answered with what the atomic store held when it arrived. |
| StoreClient.AnySaveCanBeServed | HW6/2020115885/hw6_server.c:146-166 | Whenever the parent is free and one of the 100 records is left, any client's save of up to seven operands can be received and served to its end, in a run that adds exactly that save. |
| StoreClient.AnyLoadCanBeServed | HW6/2020115885/hw6_server.c:167-179 | Whenever the parent is free, any client's load whose reply fits 1024 bytes can be received and answered. |
| StoreClient.OtherMessagesAreIgnored | HW6/2020115885/hw6_server.c:146-190 | A message with any other mode only changes the parent's buffers. |
| StoreClient.ScatterSpelled | HW6/2020115885/hw6_server.c:71-79 | A message fills mode, id and data one after the other, as one store over the three, and leaves the rest. |
| StoreClient.ClientMessages | HW6/2020115885/hw6_client.c:74-119 | What the client accepts as an id and puts on the wire for a save and a load. |
| BroadcastTheorems.EveryClientSeesASliceOfOneLog | HW8/2020115885/test_serv.c:84-126 | With one step per socket write, what each client was sent is a contiguous slice of one global log, from its registration to its removal or the present; only a broadcast under way can be missing. |
| BroadcastTheorems.HistoryIsKept | HW8/2020115885/test_serv.c:56-126 | The log and what was sent only grow; registrations and removals are stamped with the log length at which they happen and never move. |
| BroadcastTheorems.SendersKeepTheirOrder | HW8/2020115885/test_serv.c:84-112 | The log restricted to one sender is its requests in order, the newest possibly still waiting for the mutex. |
| BroadcastTheorems.RegistryIsSound | HW8/2020115885/test_serv.c:54-128 | The array is duplicate-free, in accept order, and holds exactly the open sockets registered and not yet removed. |
| BroadcastTheorems.CleanupFindsItsEntry | HW8/2020115885/test_serv.c:115-124 | Every cleanup finds its own socket and takes out exactly its own entry. |
| BroadcastTheorems.CriticalSectionsExclude | HW8/2020115885/test_serv.c:56-126 | No two threads are in critical sections at once. |
| BroadcastTheorems.CriticalSectionsEnd | HW8/2020115885/test_serv.c:56-126 | While the mutex is held only its holder shortens the critical section, by one each step, and nobody lengthens it. |
| BroadcastTheorems.HolderIsNeverStuck | HW8/2020115885/test_serv.c:56-126 | The holder of the mutex always has a next step, so every write of a broadcast finds an open socket; the main thread needs room in the array for the client it registers. |
| BroadcastProgram.ThreadsFollowTheirProgram | HW8/2020115885/test_serv.c:52-131 | In every run each thread takes its steps in the order of its statements: accept, lock, register, unlock, spawn in a loop; start, then requests each broadcast under the mutex, then hang-up, lock, remove, unlock, close. |
| BroadcastProgram.HandlersGoOn | HW8/2020115885/test_serv.c:84-131 | After its start or a broadcast a handler can read any request or a hang-up; a request is logged as it was read once the mutex is free; removal and close follow in turn. |
| BroadcastProgram.MainGoesRound | HW8/2020115885/test_serv.c:52-69 | The main thread can accept any descriptor that no open connection has, and then lock, register (up to 100 clients), unlock and spawn. |
| BroadcastProgram.RemovalNeedsHangup | HW8/2020115885/test_serv.c:84-115 | A client is taken out of the registry only after its handler's loop ended. |
| BroadcastProgram.AcquisitionsAlternate | HW8/2020115885/test_serv.c:56-126 | Between two acquisitions of the mutex the first holder releases it. |
| BroadcastProgram.RegistryStaysWithinArray | HW8/2020115885/test_serv.c:9-57 | At most 100 clients are registered. |
| BroadcastProgram.RunsStartEmpty | HW8/2020115885/test_serv.c:13-52 | A run starts with no client, a free mutex and an empty log. |
| BroadcastProtocol.RemovesOwnEntry | HW8/2020115885/test_serv.c:116-124 | Removing the first occurrence of a handler's socket removes the handler's own connection. |
| BroadcastProtocol.WriteGoesToMember | HW8/2020115885/test_serv.c:109-111 | The connection reached through the array's descriptor is the member at that position, even when numbers are reused. |
| BroadcastProtocol.StepKeeps | HW8/2020115885/test_serv.c:52-131 | Every step of every thread keeps the registry, mutex, delivery and order invariants. |
| BroadcastProtocol.RunsKeep | HW8/2020115885/test_serv.c:52-131 | Every state of every run satisfies them. |
| Broadcast.RemovalAt | HW8/2020115885/test_serv.c:116-124 | Removal keeps all before and after the first occurrence, in order. |
| Broadcast.RemovalAbsent | HW8/2020115885/test_serv.c:116-124 | A socket that is not there leaves the array as it is. |
| Broadcast.ShiftDown | HW8/2020115885/test_serv.c:118-120 | The inner loop drops one position and leaves the rest of the array. |
| Broadcast.RemoveSocket | HW8/2020115885/test_serv.c:116-124 | The in-place loop removes the first occurrence and counts down iff the socket was there. |
| Broadcast.ShiftLate | HW8/2020115885/hw8_server.c:136-137 | The early increment drops the successor's position, or the last one. |
| Broadcast.RemoveLate | HW8/2020115885/hw8_server.c:132-141 | That cleanup keeps the departing socket and drops its successor unless it is last, drops the last socket when the departing one is absent, and always counts down. |
| Broadcast.SuccessorAt | HW8/2020115885/hw8_server.c:132-140 | Which element is dropped, by position. |
| Broadcast.LateRemovalIsCorrectIffLast | HW8/실습코드/chat_serv.c:81-89 | For every non-empty array and every socket, that loop does what removal should iff the socket is there and its entry is the last (or its successor has the same number). |
| Broadcast.LateRemovalSpelled | HW8/2020115885/hw8_server.c:132-141 | What that loop leaves, by position, for a socket that is there and for one that is not. |
| Broadcast.LateRemovalCascades | HW8/2020115885/hw8_server.c:132-141 | With three clients the first leaving drops the second, and the second then leaving drops the third, so only a closed socket is left. |
| Frame.DecodeEncode | HW3/2020115885/hw3_server.c:46-66 | Any buffer that starts with an encoded request decodes to it, whatever follows. |
| Frame.EncodeDecode | HW8/2020115885/hw8_server.c:99-111 | Encoding what was decoded gives the frame's bytes again. |
| Frame.DecodeReadsOnlyTheFrame | HW8/2020115885/hw8_server.c:99-111 | Two buffers decode alike iff their counts and first 5n bytes agree. |
| Frame.FrameLayout | HW3/2020115885/hw3_client.c:30-54 | A frame of n operands has 5n bytes: the count, then each operand's four bytes, then the operators, each at its place. |
| Frame.StoreOperands | HW8/2020115885/hw8_client.c:86-91 | The loop stores the operands there are, adjacent from offset 1, and touches nothing else. |
| Frame.StoreOperators | HW8/2020115885/hw8_client.c:94-98 | The loop stores the operators there are, and touches nothing else. |
| Frame.FillRequest | HW8/2020115885/hw8_client.c:72-98 | The reaction to a typed line, and the whole reused buffer after it. |
| Frame.TypedLineArrives | HW8/2020115885/hw8_client.c:83-100 | A complete typed line decodes as typed, whatever earlier requests left in the buffer. |
| Frame.StoredTokensArrive | HW8/2020115885/hw8_client.c:83-98 | For every typed line that is sent, complete or not, each stored operand and operator decodes as the token typed, each place without a token as what the buffer held, and nothing behind the frame changes. |
| Frame.SentIffCountIsPositive | HW8/2020115885/hw8_client.c:72-81 | A line is sent iff its first number, modulo 256, is 1 to 127; an empty line does nothing. |
| Frame.StaleBytesLeakIffTokensRunOut | HW8/2020115885/hw8_client.c:86-98 | The decoded request is independent of the buffer's old bytes iff the line has enough tokens. |
| Frame.FillExact | HW3/2020115885/hw3_client.c:30-54 | For every typed count the buffer afterwards and the length sent: the whole frame for 1 to 127, the count byte alone when its byte is not positive, and for an accepted negative count a new count byte over old operands. |
| Frame.TypedCount | HW6/2020115885/hw6_client.c:36-52 | Which typed counts are accepted, by their value modulo 256, and which bytes of the buffer each changes. |
| Frame.TypedRequestArrivesIffPositive | HW6/2020115885/hw6_client.c:36-52 | For an accepted count, the frame is the typed request whatever the buffer held iff the count itself, not only its byte, is positive. |
| Frame.PutInts | HW6/2020115885/hw6_client.c:45-48 | The operand loop writes exactly the operand area. |
| Frame.PutChars | HW6/2020115885/hw6_client.c:49-52 | The operator loop writes exactly the operator area. |
| Calculator.ExactIffNoOverflow | HW6/2020115885/hw6_server.c:92-107 | The 32-bit accumulator equals the integer fold at every step iff no prefix leaves the `int` range. |
| Calculator.OperatorsMean | HW6/2020115885/hw6_server.c:98-107 | Each step of the fold is the sum for `+`, difference for `-` and product for `*` modulo 2^32, and nothing for any other byte; over the integers it is the exact value. |
| Calculator.OperatorsMeanExactly | HW6/2020115885/hw6_server.c:98-107 | When the exact value fits an `int`, the step gives it. |
| Calculator.FoldEnds | HW6/2020115885/hw6_server.c:92-95 | The fold starts with the first operand, and the value is the fold over all operators. |
| Calculator.PowLaws | HW6/2020115885/hw6_server.c:92-107 | The laws that make the bound B^k the power. |
| Calculator.Magnitude | HW6/2020115885/hw6_server.c:92-107 | Over operands of size at most B >= 2, the prefix of k operands is at most B^k in size. |
| Calculator.SmallOperandsAreExact | HW8/2020115885/hw8_server.c:106-121 | If B^n fits an `int`, no step overflows and the answer is exact. |
| Calculator.ReadOperands | HW3/2020115885/hw3_server.c:57-61 | The indexed loop fills the array with the decoded operands and leaves the rest of it. |
| Calculator.EvaluateDatagram | HW3/2020115885/hw3_server.c:46-82 | The indexed decoder and fold give the request's value, or the server closes for a count that is not positive. |
| Calculator.FoldIndexed | HW3/2020115885/hw3_server.c:63-78 | The loop that picks operators out of the buffer ends with the request's value. |
| Calculator.ReadStreamOperands | HW5/2020115885/hw5_server.c:109-112 | Four-byte reads fill the array with the frame's operands and consume exactly them. |
| Calculator.FoldStream | HW5/2020115885/hw5_server.c:114-131 | Reading each operator just before use gives the value and consumes exactly the operators. |
| Calculator.EvaluateStream | HW5/2020115885/hw5_server.c:99-131 | The read-then-apply loop gives the value and consumes exactly the frame; a count that is not positive is refused after its byte. |
| Calculator.FoldPrefetching | HW2/2020115885/hw2_server.c:66-82 | Fetching each operator one step early gives the same value; the last fetch reaches one byte further if there is one. |
| Calculator.EvaluatePrefetching | HW2/2020115885/hw2_server.c:51-82 | The prefetching loop gives the same value and consumes one byte past the frame if there is one; a count that is not positive is refused after its byte. |
| Line.LineRoundTrip | HW6/2020115885/hw6_server.c:92-109 | A printed line reads back as its operands, operators and result iff no operator is a digit or NUL. |
| Line.LinesIdentifyRequests | HW6/2020115885/hw6_server.c:92-155 | Among requests whose operators are neither digits nor NUL, equal lines mean equal requests and results. |
| Line.NulHidesAnOperand | HW6/2020115885/hw6_server.c:97-108 | For every request with a NUL operator another request has the same line and result, so no reader can recover it. |
| Line.DigitJoinsOperands | HW6/2020115885/hw6_server.c:97-108 | A digit for an operator gives the text of a single number. |
| Line.LinesAreConsistent | HW6/2020115885/hw6_server.c:92-155 | The line of a request reads back as a true equation: evaluating its left side gives its right side, and the request is recovered. |
| Line.CanonicalDecimal | HW6/2020115885/hw6_server.c:93-108 | A number prints as a minus sign if it is negative and then its decimal digits, position by position, with no leading zero. |
| Line.LineSpelling | HW6/2020115885/hw6_server.c:93-155 | A line is the first number, each operator with its number (nothing for NUL), `=`, the result and a newline. |
| Line.OnePlusTwo | HW6/2020115885/hw6_server.c:93-155 | The line of 1+2 is `1+2=3` and a newline. |
| Line.WhatIsAsked | HW6/2020115885/hw6_server.c:83-95 | A frame is evaluated as it decodes; a count that is not positive gives the number left by an earlier request. |
| Line.LineLength | HW6/2020115885/hw6_server.c:93-155 | n operands print to at most 12n+12 characters with the result and newline. |
| Line.LongestLine | HW6/2020115885/hw6_server.c:93-155 | The bound is attained for every n. |
| Line.SevenOperandsAlwaysFit | HW6/2020115885/hw6_server.c:155-158 | Every line of n operands fits the stored field with its terminator iff n <= 7. |
| Line.LineIsACString | HW6/2020115885/hw6_server.c:155-158 | A line has no NUL and ends in its only newline (unless an operator is one), so `strcpy` keeps it whole. |
| Line.SprintfAppends | HW8/2020115885/hw8_server.c:122-122 | Printing at `buf + strlen(buf)` appends the printed text up to its first NUL. |
| Line.Workspace.Calculate | HW6/2020115885/hw6_server.c:81-110 | On the global arrays, the calculator leaves the request's value and its expression as a string; a count that is not positive reuses the old first operand. |
| Line.Workspace.FoldAndPrint | HW8/2020115885/hw8_server.c:106-123 | The loop keeps accumulator and text in step with the fold and the text of the operators so far. |
| Line.Workspace.Step | HW8/2020115885/hw8_server.c:111-122 | One pass of that loop. |
| Line.Workspace.PrintFirst | HW6/2020115885/hw6_server.c:93-93 | The buffer holds exactly the first operand's text. |
| Line.Workspace.PrintNext | HW6/2020115885/hw6_server.c:108-108 | The buffer's string grows by the operator and its operand. |
| SelectRound.SelectServer.Round | HW6/2020115885/hw6_server.c:245-273 | The scan terminates although its bound grows; each descriptor of the snapshot gives one event in ascending order, and a client accepted in the round is not read in it; exactly the clients served to their end leave, the accepted one joins, the bound covers all, and the round invariant holds again iff no quit was seen. |
| SelectRound.AscendingMeetsEachOnce | HW6/2020115885/hw6_server.c:245-247 | Every descriptor of the snapshot is met exactly once. |
| SelectRound.AcceptedNumberIsBehindTheScan | HW6/실습코드/echo_selectserv.c:94-121 | A client accepted in a round is not read in it, even if its number was given up earlier in the scan. |
| SelectRound.SelectServer.constructor | HW6/2020115885/hw6_server.c:229-231 | The first round starts with the listener alone in the set and as the bound. |
| LogPipe.LogAndPipeHoldWholeLines | HW5/2020115885/hw5_server.c:74-136 | Log plus pipe is the texts of the workers that wrote, each its process id, `: ` and its request's line, in write order, each exactly once; the pipe stays within its capacity. |
| LogPipe.LogReadsBack | HW5/2020115885/hw5_server.c:74-78 | While no writer has had a newline for an operator, the complete lines of the log file are the first of the lines written, the rest a proper start of the next; they are all iff the pipe is empty. |
| LogPipe.LogReadsBackIffPlain | HW5/2020115885/hw5_server.c:74-136 | With the pipe empty the file's lines are the lines written iff no writer had a newline for an operator. |
| LogPipe.LogLinesNameTheirWorkers | HW5/2020115885/hw5_server.c:116-136 | Each complete line of the log file is the process id, `: ` and the request's line of the worker that wrote it, and reads back as that id. |
| LogPipe.LineNamesItsWorker | HW5/2020115885/hw5_server.c:116-116 | A worker's line is its process id, `: ` and its request's line, and the number it starts with is the id. |
| LogPipe.RestMeansLogged | HW5/2020115885/hw5_server.c:74-136 | With room for one line, the server is at rest iff all workers are done and the pipe is empty, and then the log holds every line. |
| LogPipe.HistoryIsKept | HW5/2020115885/hw5_server.c:74-136 | Ids and requests never change, and what was written or logged stays. |
| LogPipe.PipeStaysWithinCapacity | HW5/2020115885/hw5_server.c:74-136 | The pipe never holds more than its capacity. |
| LogPipe.AnyClientCanCome | HW5/2020115885/hw5_server.c:84-97 | Any client can come at any time, if its worker's text fits 1024 bytes. |
| LogPipe.AnyWorkerCanFinish | HW5/2020115885/hw5_server.c:99-141 | Any worker that is not done can write its whole text when there is room, or leave when it has none. |
| LogPipe.AnyChunkCanBeLogged | HW5/2020115885/hw5_server.c:74-78 | The logger's read may return any part of the pipe up to 1024 bytes. |
| LogPipe.StepsUseUpWork | HW5/2020115885/hw5_server.c:74-136 | Every step but a fork lowers a measure. |
| LogPipe.WriteKeeps | HW5/2020115885/hw5_server.c:136-136 | A worker's write keeps the log and pipe a sequence of whole lines, with one more writer. |
| LogPipe.LogKeeps | HW5/2020115885/hw5_server.c:75-76 | A read of any size keeps it too. |
| LogPipe.RunsKeep | HW5/2020115885/hw5_server.c:66-145 | Every state of every run satisfies conservation. |
| LogPipe.WorkerLineIsALine | HW5/2020115885/hw5_server.c:116-135 | A worker's line ends in its only newline when no operator is one. |
| LogPipe.WorkerLineLength | HW5/2020115885/hw5_server.c:116-135 | It has at most 12n+24 characters. |
| TextLines.PrefixSplits | HW5/2020115885/hw5_server.c:75-76 | However reads cut a sequence of lines, the part read splits into the first lines and a start of the next. |
| TextLines.SplitIsWhole | HW5/2020115885/hw5_server.c:75-76 | Splitting a file at its newlines loses nothing. |
| LogPipe.EightyThreeOperandsAlwaysFit | HW5/2020115885/hw5_server.c:116-135 | A worker's line with its process id always fits the line buffer iff there are at most 83 operands. |
| LogPipe.ServeClient | HW5/2020115885/hw5_server.c:99-136 | On stream and buffer: no reply and no line for a count that is not positive, else the value as reply and the worker's line, with exactly the frame consumed. |
| LogPipe.ServeRequest | HW5/2020115885/hw5_server.c:109-135 | The part for a positive count: the value, the worker's line in the buffer, and the rest of the frame consumed. |
| LogPipe.FoldAndPrint | HW5/2020115885/hw5_server.c:118-131 | The loop keeps result, stream position and text in step. |
| LogPipe.Step | HW5/2020115885/hw5_server.c:119-130 | One pass: an operator is read, applied and appended. |
| LogPipe.PrintStart | HW5/2020115885/hw5_server.c:116-116 | The buffer holds exactly the process id, separator and first operand. |
| LogPipe.PrintEnd | HW5/2020115885/hw5_server.c:135-135 | The string in the buffer grows by the result and newline. |
| FileTransfer.EveryTransferCompletes | HW4/file_server.c:40-56 | Runs are bounded, and one that cannot go on has both sides finished and equal files, for every file, segmentation and capacity. |
| FileTransfer.CopyIsAPrefix | HW4/file_client.c:34-35 | At every moment the client's file is a prefix of the server's. |
| FileTransfer.EndMeansWholeFile | HW4/file_client.c:34-38 | The client sees the end of the stream only with the whole file. |
| FileTransfer.ThanksMeanDelivery | HW4/file_server.c:51-53 | When the server has read its acknowledgement the copy is complete, and what it read is a nonempty part of the message. |
| FileTransfer.UnfinishedGoesOn | HW4/file_server.c:40-56 | Neither side waits forever around shutdown, end of stream and acknowledgement. |
| FileTransfer.ATransferFinishes | HW4/file_server.c:40-56 | For every file and every capacity that holds the acknowledgement there is a run in which both sides finish. |
| FileTransfer.AnySegmentation | HW4/file_server.c:40-52 | The network may take any part of a write that it has room for and deliver any part of what it holds, up to 1024 bytes a read. |
| FileTransfer.TurnsAreTaken | HW4/file_client.c:34-38 | The server shuts down, and the client sees the end and sends `Thank you` with its NUL, as soon as it is their turn. |
| FileTransfer.StreamsStayWithinCapacity | HW4/file_server.c:40-52 | Neither direction holds more than its capacity. |
| FileTransfer.StepKeeps | HW4/file_client.c:34-41 | Every step conserves the file's bytes across copy, stream, buffer and file position. |
| FileTransfer.RunsKeep | HW4/file_server.c:40-56 | Every state of every run conserves the file and keeps the order of shutdown, end of stream and acknowledgement. |
| FileTransfer.StepsUseUpWork | HW4/file_server.c:40-56 | Every step of either side lowers a measure. |
| FileTransfer.WorkBoundsSteps | HW4/file_server.c:40-56 | After t steps at most 3 times the file's length plus 6, less t, are left. |
| FileTransfer.SendFile | HW4/file_server.c:40-51 | The loop sends exactly the file: full buffers, then one shorter write that may be empty, then the end of the stream. |
| FileTransfer.ReceiveFile | HW4/file_client.c:34-38 | The loop copies all that arrives, however it is cut, and then sends the acknowledgement. |
| Semaphore.HandoffIsExclusive | HW8/실습코드/semaphore.c:44-62 | The threads are never both between wait and post, and an input is stored only over one already added. |
| Semaphore.EachInputAddedOnce | HW8/실습코드/semaphore.c:39-63 | The sum is at all times that of the inputs added so far, in order. |
| Semaphore.UnfinishedGoesOn | HW8/실습코드/semaphore.c:39-63 | Every unfinished state has a step. |
| Semaphore.RunsEndWithTheSum | HW8/실습코드/semaphore.c:36-66 | Every run over N inputs ends after exactly 6N steps, with the sum of all inputs. |
| Semaphore.ARunEnds | HW8/실습코드/semaphore.c:14-33 | From the source's initial semaphores there is a run that ends, for any inputs. |
| Semaphore.ThreadsWaitOnlyForTheirSemaphores | HW8/실습코드/semaphore.c:39-63 | A thread with a round left can move iff it is not waiting on a zero semaphore, whatever the other does. |
| Semaphore.SumLaws | HW8/실습코드/semaphore.c:55-60 | The sum of no inputs is zero, and each input adds itself. |
| Semaphore.StepKeeps | HW8/실습코드/semaphore.c:36-63 | Every step keeps the single token, the handed-over value and the partial sum. |
| Semaphore.RunsKeep | HW8/실습코드/semaphore.c:18-63 | Every state of every run satisfies them. |
| Mutex.PrintedValues | HW8/실습코드/mutex.c:54-58 | Iteration k prints -k or n-k, and once one has printed n-k every later one does. |
| Mutex.FinalValueIsZero | HW8/실습코드/mutex.c:30-34 | After both threads end the variable is zero and n values were printed. |
| Mutex.CriticalSectionsExclude | HW8/실습코드/mutex.c:43-59 | The threads are never both inside the lock. |
| Mutex.UnfinishedGoesOn | HW8/실습코드/mutex.c:40-62 | Every unfinished state has a step. |
| Mutex.RunsEnd | HW8/실습코드/mutex.c:40-62 | Every run takes exactly 7n+2 steps to finish, whatever the interleaving. |
| Mutex.ARunEnds | HW8/실습코드/mutex.c:14-37 | There is a run that ends, for any loop count. |
| Mutex.ThreadsWaitOnlyForTheLock | HW8/실습코드/mutex.c:40-62 | A thread that has not ended can move iff it is not waiting for a held lock, whatever the other does. |
| Mutex.StepKeeps | HW8/실습코드/mutex.c:40-62 | Every step keeps the lock's owner, the variable's value by both counters, and the shape of the printed sequence. |
| Mutex.RunsKeep | HW8/실습코드/mutex.c:40-62 | Every state of every run satisfies them. |
| CTypes.Int32RoundTrip | HW8/2020115885/hw8_client.c:90-90 | The four stored bytes of an operand give the operand back, for every signed 32-bit value. |
| CTypes.BytesRoundTrip | HW8/2020115885/hw8_server.c:103-103 | Any four bytes are the bytes of the operand read from them. |
| CTypes.LittleEndian | HW8/2020115885/hw8_client.c:90-90 | The byte at the lowest address is the least significant one. |
| CTypes.WrapIsCongruent | HW6/2020115885/hw6_server.c:98-107 | What an `int` keeps of a value is the value modulo 2^32. |
| CTypes.StoredInPlace | HW8/2020115885/hw8_client.c:83-98 | A store changes exactly the bytes it covers. |
| CTypes.CopiedString | HW6/2020115885/hw6_server.c:157-158 | `strcpy` writes the string and its NUL and leaves the rest of the destination alone. |

## Left out

- Store.Receive: the capacities `DATA_MAX`, `REQ_SIZE` and `BUF_SIZE` and a NUL-terminated id are conditions for accepting a message; the source checks none of them and would write out of bounds.
- StoreTheorems.NeverStuckBeforeQuit: progress is claimed only before a quit; after it the child has returned, and `LoadReturnsIffNoQuit` states what that means for loads.
- StoreProcesses.ParentProcess.ComputeRecord: the reply to a saving client is the method's result; its delivery on the client's socket is not part of the state machine.
- StoreClient.SaveArrives: the buffer starts with a request of 1 to 127 operands; `Frame.FillExact` and `Frame.TypedRequestArrivesIffPositive` say for which typed counts it does.
- Frame.StoredTokensArrive: a typed line is taken as its blank-separated words, each with the `int` that `atoi` makes of it and its first byte; `strtok` and `atoi` themselves are not modelled.
- Frame.FillExact: an accepted count of 257 or more is left out, since its loops write past the end of the 1024-byte buffer.
- SelectRound.SelectServer.Round: client descriptors that quit lie above the listener's, `accept` succeeds, and `FD_SETSIZE` does not bound the set.
- Broadcast.RemoveLate: a full array in which the departing socket is not last is left out, since the loop then reads one entry past the end of the array.
- BroadcastProtocol.Step: `MAX_CLNT` is a condition for registering a client; a message is the opaque text to broadcast, and a refused request ends the handler's loop like a hang-up, so `calculate` and the overflow reply sent outside the broadcast (HW8/2020115885/test_serv.c:98-104) are not modelled.
- Calculator.EvaluateStream: each read delivers what it asks for while the sender's bytes last; a positive count byte is followed by the rest of its frame.
- LogPipe.ServeClient: the same, and the buffer has room for 13 characters behind the expression; with up to 83 operands it always has.
- FileTransfer.ThanksMeanDelivery: the server prints its buffer without the length it read, so a cut acknowledgement would be followed by old file bytes; what is printed is not modelled.
- FileTransfer.EveryTransferCompletes: each direction can hold the ten bytes of the acknowledgement, and buffering of the copy by stdio ends at its `fclose`.
- Signed overflow is modelled as two's complement wrap-around where C leaves it undefined; `ExactIffNoOverflow` says when it does not arise.
- Threads and processes are state machines on values, since a Dafny method has no interleaving; the code between two of the store's system calls is also written on arrays and tied to its step.
- TCP message boundaries: one request arrives in one read, except in the file transfer, where any segmentation is allowed. System calls do not fail, a write into a pipe is whole, and a write to a client's socket does not block, except in the file transfer.
- Socket set-up, address parsing, signal handling, `waitpid`, timeouts and console output.
- The handoff of a shared stack variable to threads in `hw8_server.c` and `chat_serv.c`, which gives a thread no stable socket; `test_serv.c` is modelled instead.
- `hw2_client.c`, whose frame is one byte short for one operand, and the return copy of `hw4_client.c`, which reads at the end of the file it has just written.
- `thread3.c` and `thread4.c` update a variable without a lock and have no defined result.
- HW1, HW7, the echo programs and the pipe, signal, `dup` and `readv` demonstrations, which promise nothing beyond plain input and output.
