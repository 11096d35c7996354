# A model of the local event builder and its libraries

Front-end boards send fragments, each with a node id and a trigger number. A producer thread per
board passes them to the local event builder, which groups them by trigger, sends an event when
every configured node has contributed, and lets `checkleb` read the packed stream back. Around this
stand a hop relay for register access over UDP and a small C++ library for sockets, buffered TCP,
URIs and threads, and a catch-up timer. This project models these parts in Dafny and proves what they keep.

`dafny verify dfyconfig.toml` checks everything.

| file | models |
|---|---|
| Bytes, Numbers, Options | network byte order, concatenation of blocks; a minimum; a value that may be missing |
| Events, EventBuilder | `DTeb::st_running`: one receiving step on values, and the object that performs it in place |
| EraseRules | the completion flush: the erase loop as written against its comment |
| StepLaws | what one fragment does, branch by branch, by position and order |
| Conservation, GapFreeRuns, IncreasingRuns, SilentNode | whole runs: buffer shape, conservation, order, at-most-once, and the depth limit while a node is silent |
| PackedEvents, CheckLeb, EndToEnd | `pack_data`, the reader that inverts it, and the way from fragments to the reader's report |
| Pipeline, Drain, Startup | producers, builder and controller around the shared counter; when the builder stays and can leave; the start-up barrier and the way to SM_RUNNING |
| HopRelay, HopAccess | the relay's in-place rewriting, a network of register servers, and the four client calls |
| TcpStream, StreamSessions | `TcpBuffer` over arbitrary `recv` and `send` portions; whole sessions |
| Uri, UriTexts, UriRoundTrip | `URI` parsing, what it makes of any text, and parsing after recomposition |
| ThreadReaper, ReaperRuns | `ThreadController` as interleaved atomic steps; its promises over every run |
| SocketOwnership | `Socket` copy, assignment, create, accept, close, destruction |
| Timer | `mTimer` |

## Results a reader may not expect

- **The erase loop disagrees with its comment.** After a completion the code sends the completed
  event and its lower-numbered elders, and the comment at `dteb.cxx:311` says that what was sent is
  deleted. The loop looks up `m_events[i]` again after index `i` has been erased, so an elder can be
  kept, and sent again later. The model has both rules. `EraseRules.WrittenMeetsComment` gives the
  exact condition per flush; a run is *clean* when each completion meets it. The literal code
  conserves fragments along a run exactly when it is clean (`WrittenConservesIff`), keeps sent events
  out of the buffer exactly when it is clean (`SentLeavesIff`), and sends nothing twice, however the
  run is closed, exactly when it is clean (`AtMostOnceIff`, `CodeCanResend`). Gap-free runs are always clean.
  When the vector has become shorter than the slot looked up, the slot is taken to keep the number
  of the event that was last before the loop.
- **COMPLETE** is decided by the last node of the list alone: `FlagMeaning`.
- **`checkleb`** reports the last event a second time at the end of the stream: `PackThenRead`.
- **A read error** in a producer leaves a buffer counted for ever. Once stopped, the builder can leave its loop
  if and only if there has been none: `LeavesIff`, `LeavesIffNoReadFailed`, with a concrete run in `ReadErrorHappens`.
- **`hopread`** differs from `read` exactly when the low byte of the length is zero: `HopReadTransparent`.
- **A hop packet's port** is opened modulo 2^16, and comes back as it was sent: `HopRelay.Hop`, `HopReadDestination`.
- **The register server** answers a command that is neither read nor write with the bytes of its reply before: `OtherCommandRepeats`.
- **URI** components come back unless a colon in user, password or host can be mistaken: `RoundTrip`.
  In an authority with two '@' the colon that ends the host may lie before the last one, and then there is a port
  and no host: `HostOfAnyText`.
- **`~ThreadController`** comes to its end exactly when no thread failed to start or to create its reaper
  (`DestructorEnds`, `DestructorReturns`); a reaper can stay unjoined (`LateStoreIsNotJoined`).
- **`mTimer::set`** does not reset `count_time`, so after a second set it need not be a multiple of `set_time`:
  `CountIsMultiple` says when it is, `SecondSetBreaksMultiple` gives a run in which it is not.

## Model

| member | source | states |
|---|---|---|
| `Events.ErasedThins` | dteb.cxx:312-316 | Under either erase rule the completed event goes, everything behind it stays, and what is kept before it is a thinning of what was there. |
| `Events.ErasedDistinct` | dteb.cxx:312-316 | Erasing shortens the buffer, keeps numbers distinct and leaves no entry of the completed number. |
| `EventBuilders.EventBuilder.constructor` | dteb.cxx:84-131 | A builder starts with the given nodes, depth limit 1024, no events and nothing sent. |
| `EventBuilders.EventBuilder.SendOlder` | dteb.cxx:305-310 | The send loop sends, in buffer order, exactly the entries up to i whose number is not above that of i. |
| `EventBuilders.EventBuilder.EraseOlder` | dteb.cxx:312-316 | The descending erase loop, looking up slot i anew each time, leaves the buffer that the literal rule describes. |
| `EventBuilders.EventBuilder.Enqueue` | dteb.cxx:323-344 | A new trigger is queued at the end, or sent at once with a single node; a buffer that is then over the depth limit sends its head. |
| `EventBuilders.EventBuilder.Receive` | dteb.cxx:288-344 | One turn of the receive loop on the object is one step on values, and keeps numbers distinct. |
| `EventBuilders.ReceiveAll` | dteb.cxx:216-344 | A whole run on the object ends in the state of the run on values. |
| `Events.ReceiveDistinct` | dteb.cxx:289-344 | No fragment ever makes a second entry of one event number. |
| `StepLaws.JoinsAtEnd` | dteb.cxx:289-294 | A fragment of a known trigger that leaves the event incomplete joins the first entry of that number, at the end of its ids and blocks; nothing else changes. |
| `StepLaws.FullBufferSendsHead` | dteb.cxx:323-342 | A new trigger in a buffer at or above its limit is queued at the end, and the event that leaves is the head. |
| `StepLaws.RoomKeepsAll` | dteb.cxx:323-342 | A new trigger in a buffer with room is queued at the end and nothing leaves. |
| `StepLaws.Completion` | dteb.cxx:296-317 | A completion sends, in buffer order, all earlier events numbered no higher and last the completed one; what stays keeps its order, and under the commented rule it is exactly the higher-numbered ones. |
| `StepLaws.WrittenDecides` | dteb.cxx:312-316 | The literal erase loop event by event, for any buffer: event j stays exactly if it is numbered above entry i-j-1 of what is left behind it, or above the last event of the old buffer once that is too short. |
| `SilentNode.FillsWindow` | dteb.cxx:289-302 | While one node is silent, a known trigger fills its entry and completes nothing. |
| `SilentNode.OpensWindow` | dteb.cxx:323-342 | While one node is silent, a trigger not among the newest maxDepth opens an entry, and the oldest leaves a full buffer. |
| `SilentNode.SilentRun` | dteb.cxx:289-342 | Over any increasing run in which one node is silent, the others' triggers leave oldest first in order of first arrival, and the newest maxDepth stay in the buffer. |
| `SilentNode.OldestLeaves` | dteb.cxx:339-342 | Nodes 1 and 2, depth 1, node 1 delivers 0 and 1: 0 is sent and 1 stays. |
| `EraseRules.WrittenErrs` | dteb.cxx:311-316 | Where the slots disagree the literal loop keeps an event that was sent. |
| `EraseRules.WrittenMeetsComment` | dteb.cxx:304-316 | The literal erase loop deletes exactly what was sent if and only if, for every earlier entry, the slot looked up in its turn gives the same verdict; the condition is on the buffer before the loop. |
| `EraseRules.HeadFlush` | dteb.cxx:304-316 | A completion at index 0 sends and erases the head alone, under either rule. |
| `EraseRules.PrefixFlush` | dteb.cxx:304-317 | If all earlier entries have lower numbers the flush sends the prefix up to i, and the rule of the comment leaves exactly the suffix. |
| `EraseRules.WrittenPrefixFlush` | dteb.cxx:304-317 | Then the literal loop leaves that suffix if and only if each earlier entry j is not above the entry at min(2i-j, last). |
| `EraseRules.AscendingFlush` | dteb.cxx:304-317 | In a strictly ascending buffer the literal loop, too, sends 0..i in increasing order and leaves exactly i+1.. . |
| `EraseRules.WrittenKeepsASentEvent` | dteb.cxx:311-316 | Concrete buffer 5, 7, 3 with 7 complete: 5 is sent and stays in the buffer. |
| `Conservation.BufferInvariant` | dteb.cxx:288-344 | Every run with two or more nodes: numbers pairwise distinct, one data block per node id, between 1 and N-1 of them, length within the depth limit. |
| `Conservation.OneMatch` | dteb.cxx:289-290 | Hence every scan matches at most one entry, the first. |
| `Conservation.StepConserves` | dteb.cxx:289-344 | One step (append, flush, single-node bypass, eviction) adds exactly the fragment received to what is sent or buffered, provided its completion, if any, erases what the comment says. |
| `Conservation.RunConserves` | dteb.cxx:289-344 | With the rule of the comment, every run of any fragments holds each fragment, sent or buffered, exactly as often as it arrived. |
| `Conservation.CleanRunsCoincide` | dteb.cxx:304-317 | A run of the literal code whose completions all leave agreeing slots is the run the comments describe. |
| `Conservation.WrittenConservesIff` | dteb.cxx:289-344 | The literal code conserves fragments at every point of a run if and only if each completion of the run leaves agreeing slots. |
| `GapFreeRuns.Pigeonhole` | dteb.cxx:296-297 | As many distinct ids as configured nodes are all the configured nodes. |
| `GapFreeRuns.FullEntry` | dteb.cxx:296-297 | In a gap-free run an entry is full exactly when every node is past its trigger, and then holds one fragment of each. |
| `GapFreeRuns.Advance` | dteb.cxx:288-344 | One more fragment of a gap-free run: output and buffer keep tracking the slowest and the fastest node. |
| `GapFreeRuns.GapFreeRun` | dteb.cxx:288-344 | After any gap-free interleaving within the depth limit the output is exactly the consecutive triggers that all nodes completed, in order, each with N fragments; the buffer is as long as fastest minus slowest; and the literal erase loop does what its comment says. |
| `IncreasingRuns.FullIsPassed` | dteb.cxx:296-310 | With strictly increasing senders a full event means that every node has passed its number, and that lower buffered numbers are all before it. |
| `IncreasingRuns.SoundStep` | dteb.cxx:288-344 | One step keeps sent and buffered numbers distinct and apart, witnessed by their senders, and in order of first arrival. |
| `IncreasingRuns.AtMostOnce` | dteb.cxx:289-322 | Nodes may skip triggers: with increasing numbers and a depth limit that never fires, no number is sent twice, what is sent has left the buffer, and every node is past it (commented rule, or literal code in a clean run). |
| `IncreasingRuns.SingleNodeRun` | dteb.cxx:332-333 | With one node each fragment is sent on arrival as its own event and nothing is buffered. |
| `IncreasingRuns.SentLeavesIff` | dteb.cxx:304-317 | In such runs of the literal code sent events stay out of the buffer at all times if and only if every completion leaves agreeing slots. |
| `IncreasingRuns.UncleanResends` | dteb.cxx:304-317 | After any other completion, one more trigger from every node makes the literal code send a number twice, in a run that is still increasing and within the limit. |
| `IncreasingRuns.CodeCanResend` | dteb.cxx:304-317 | Such a run exists: node 1 delivers 5 and 7, node 2 delivers 3 and 7, node 3 delivers 7; 5 is sent twice. |
| `IncreasingRuns.LastSlotAgrees` | dteb.cxx:304-317 | A completion at the end of the buffer never meets the disagreement. |
| `IncreasingRuns.ClosingClean` | dteb.cxx:288-344 | Closing a clean run by one higher trigger from every node keeps it clean. |
| `IncreasingRuns.AtMostOnceIff` | dteb.cxx:289-322 | The literal code sends nothing twice, in a run and however it is closed at any point by one more, higher trigger from every node within the limit, if and only if every completion of the run leaves agreeing slots. |
| `PackedEvents.AppendBlocks` | dteb.cxx:590-600 | The inner loop appends all blocks of one node in order of arrival, counts their bytes, and reports whether there was one. |
| `PackedEvents.PackData` | dteb.cxx:568-630 | pack_data with its late patching of length and flag yields header and blocks in the order of the node list. |
| `PackedEvents.HeaderBytes` | dteb.cxx:578-587 | The sixteen header bytes one by one, in network order. |
| `PackedEvents.InArrivalOrder` | dteb.cxx:591-600 | A node that contributed more than once has its blocks packed in order of arrival. |
| `PackedEvents.NodeByNode` | dteb.cxx:589-600 | All blocks of a node are packed between those of the nodes before and behind it in the list. |
| `PackedEvents.SelectedTotals` | dteb.cxx:589-600 | Packing takes each block of a listed node exactly once, whatever the order of arrival. |
| `PackedEvents.PacksEverything` | dteb.cxx:589-622 | Blocks of configured nodes are all packed: their number and the sum of their sizes. |
| `PackedEvents.PackedSize` | dteb.cxx:620-629 | The packed size is 16 plus what the length field reads back as. |
| `PackedEvents.OneBlockPerNode` | dteb.cxx:589-600 | Distinct senders give one block per configured node: the k-th is the block of the k-th node of the list. |
| `PackedEvents.CompletePacks` | dteb.cxx:589-629 | An event with as many distinct configured ids as there are nodes packs with one block per node in list order, the sum of all sizes as length, and the COMPLETE flag. |
| `PackedEvents.FlagReadsBack` | dteb.cxx:624-627 | The flag field of the packed bytes reads back as what the last node decided. |
| `PackedEvents.FlagMeaning` | dteb.cxx:601-627 | The flag field of the packed bytes is COMPLETE for an event of all nodes, and for one that lacks some exactly if the last node of the list is not among those. |
| `PackedEvents.IncompleteFlaggedComplete` | dteb.cxx:601-627 | Nodes 1 and 2 configured, only 2 present: the flag field reads COMPLETE. |
| `CheckLeb.ReadBody` | checkleb.cxx:76-82 | The body loop takes len bytes or what is left. |
| `CheckLeb.Reading` | checkleb.cxx:42-118 | The reading loop terminates and its reports are a function of the stream. |
| `CheckLeb.FieldsReadBack` | checkleb.cxx:23-33 | A record put together from known type, id, sent, time, length and trigger reads back as these, field by field, wherever it lies. |
| `CheckLeb.ParseFrom` | checkleb.cxx:85-111 | Following the record lengths through a packed body finds the header of every block at the offset where it was packed. |
| `CheckLeb.TurnTakes` | checkleb.cxx:52-82 | A turn on a stream that begins with a packed event takes exactly that event. |
| `CheckLeb.TurnAtEnd` | checkleb.cxx:52-82 | A turn at the end of the stream leaves the variables as they are: the same report again. |
| `CheckLeb.CutInBody` | checkleb.cxx:52-82 | A stream that ends inside a body is reported once, with its header and the bytes there are in front of the old ones, or alone in a new buffer. |
| `CheckLeb.CutInHeader` | checkleb.cxx:52-82 | A stream that ends inside a header is reported once, with the fields not read and the body left as they were. |
| `CheckLeb.HugeLength` | checkleb.cxx:56-82 | A length with its top bit set is negative as an int, and no body is read. |
| `CheckLeb.PackThenRead` | checkleb.cxx:42-118 | Reading the concatenation of packed events of RECBE records recovers every boundary and every record in node-list order, whatever the arrival order; the literal loop then reports the last event once more. |
| `EndToEnd.CompleteIsReadable` | checkleb.cxx:56-81 | A complete event of records with one-byte ids never exceeds what the reader's int length can hold. |
| `EndToEnd.CompleteTells` | checkleb.cxx:52-111 | What the reader says of a complete event: magic, COMPLETE, one record of each node in list order, all with the event's trigger number. |
| `EndToEnd.TriggersReadBack` | dteb.cxx:216-344 | End to end: gap-free records in any interleaving within the depth limit are built, packed and read back as consecutive complete triggers up to the slowest node, then the last one again. |
| `EndToEnd.DummyReads` | dtarecbe.cxx:177-206 | A dummy record reads back as type 0xaa, id, trigger as sent count, time, 128 bytes and trigger, and its words count from 0 to 63. |
| `EndToEnd.DummyCarries` | dtarecbe.cxx:177-206 | What a dummy producer sends is one record whose header repeats node id and trigger number and gives its length. |
| `EndToEnd.ProducersReadBack` | dtarecbe.cxx:146-220 | From producers to report: whatever the interleaving of dummy producers, queue, builder and controller, what was received within the depth limit reads back as consecutive complete triggers from 0, then the last one again. |
| `Pipeline.HeaderWords` | dteb.cxx:235-238 | Node id and trigger number survive the two header words modulo 2^8 and 2^28, whose upper bits are all set. |
| `Pipeline.StepAccounts` | dtarecbe.cxx:146-220 | Each atomic step of producers, queue, builder and controller keeps the count. |
| `Pipeline.RunAccounts` | dtarecbe.cxx:34-39 | In every reachable state g_avant_depth is the buffers held by producers, queued, in the builder, and abandoned on read errors. |
| `Pipeline.DrainedOnExit` | dteb.cxx:219-220 | When the builder leaves its loop no producer holds, has queued or has abandoned a buffer. |
| `Pipeline.AtMostOneMore` | dtarecbe.cxx:146-220 | Once the state is not RUNNING and does not become so, a producer sends at most one more fragment, and only from behind its check. |
| `Pipeline.DrainProtocol` | dteb.cxx:217-233 | After the builder's exit with RUNNING not entered again, the queues are empty and each producer adds at most one fragment, only if it had passed its check. |
| `Pipeline.ReadErrorBlocksExit` | dtarecbe.cxx:171-175 | One abandoned buffer keeps the counter positive for ever, so the builder never leaves its loop again. |
| `Drain.NextStep` | dtarecbe.cxx:146-220 | Once stopped, while nothing is abandoned and the builder is in its loop, some thread has a step that brings the builder nearer to its exit. |
| `Drain.LeavingNeedsAll` | dteb.cxx:219-220 | A builder that leaves its loop finds no abandoned buffer, at its exit or at any time before. |
| `Drain.LeavesIff` | dteb.cxx:216-233 | In every reachable state with the run stopped and the builder in its loop, it can leave without RUNNING being entered again if and only if no producer has abandoned a buffer. |
| `Drain.AbandonedByReads` | dtarecbe.cxx:167-196 | Over any run a producer abandons exactly as many buffers as it had failed reads. |
| `Drain.LeavesIffNoReadFailed` | dteb.cxx:216-233 | So a stopped builder in its loop can leave if and only if no read has failed at any producer in the whole run. |
| `Drain.AfterFailure` | dtarecbe.cxx:149-212 | After a failed allocation, read or send a producer makes and sends nothing until it enters its loop again. |
| `Drain.StaysWhileRunning` | dteb.cxx:216-233 | While the state is RUNNING the builder stays in its loop, empty queues and zero counter or not, under every interleaving. |
| `Drain.TakesWhileRunning` | dteb.cxx:216-238 | From its next look the builder can receive the front of any queue, and the message then is received once and off the queue. |
| `Drain.ProducerStays` | dtarecbe.cxx:146-212 | While the state is RUNNING a producer at which nothing fails stays in its loop. |
| `Drain.SendsWhileRunning` | dtarecbe.cxx:146-212 | One turn of a producer's loop queues its next fragment behind the others and counts one buffer. |
| `Drain.LeavesOnlyFromStop` | dteb.cxx:219-220 | The builder leaves its loop in one way: it has seen a stop and then finds the counter down. |
| `Drain.LastLookWasStop` | dteb.cxx:219-220 | A builder that is about to leave found the state other than RUNNING at its last look. |
| `Drain.LeftAfterStop` | dteb.cxx:219-220 | From the start of any run, a builder that leaves its loop had found the run stopped at its last look. |
| `Drain.ReadErrorHappens` | dtarecbe.cxx:167-175 | A concrete run with one failed read after which the builder cannot leave. |
| `Pipeline.RunDelivers` | dtarecbe.cxx:146-220 | Per-producer order: what has arrived from a producer, what is queued and what it has made are one consecutive sequence. |
| `Pipeline.PipelineBuildsConsecutively` | dtarecbe.cxx:146-220 | Whatever the interleaving, dummy producers feed the builder gap-free, so within the depth limit its output is the consecutive triggers all nodes have passed. |
| `Startup.MoveKeeps` | daqtask.cxx:95-120 | Every single action of main and of a task keeps the start-up invariant. |
| `Startup.Barrier` | leb.cxx:261-274 | Under every interleaving, once the state has left SM_INIT no task is inside st_init and every task has finished it. |
| `Startup.AtMostTwoInits` | daqtask.cxx:97-104 | Clearing the flags after the start makes st_init run at most twice. |
| `Startup.TwoInitsHappen` | leb.cxx:261-266 | And an interleaving exists in which it does run twice. |
| `Startup.InitsExactly` | leb.cxx:261-274 | Once the state has left SM_INIT a task has run st_init twice if main() found its flag up when clearing it and the task not about to raise it again, and once otherwise. |
| `Startup.InitDecides` | leb.cxx:266-288 | When the last task has been seen done, a good initialisation goes to SM_IDLE and then SM_RUNNING, and a bad one to SM_EXIT for ever, whatever the tasks do meanwhile. |
| `Startup.StaysOver` | leb.cxx:284-291 | No move of main(), of a task or of a controller leaves SM_EXIT once main() has set it. |
| `Startup.FollowsCommands` | leb.cxx:281-284 | In the command loop the run state is the one commanded last. |
| `Startup.CommandsEnd` | leb.cxx:281-288 | When the command loop ends the state is SM_EXIT for ever. |
| `Startup.NextMove` | leb.cxx:261-274 | Until SM_RUNNING, main() or the task it waits for has a move that brings it nearer. |
| `Startup.ComesUp` | leb.cxx:261-274 | From every reachable world before that, SM_RUNNING can be reached. |
| `Startup.TaskFollows` | daqtask.cxx:95-120 | A started task comes to the handler of a lasting run state within five actions, and on SM_EXIT to its end within four. |
| `HopRelay.ExpandUndoesShrink` | rbcp/rbcprelay.cxx:101-134 | Expanding after shrinking restores the packet, with the destination put back. |
| `HopRelay.Relay.MoveDown` | rbcp/rbcprelay.cxx:102-104 | The ascending overlapping copy leaves the original payload eight bytes lower and everything else as it was. |
| `HopRelay.Relay.ShrinkRequest` | rbcp/rbcprelay.cxx:87-105 | The request is rewritten in place to a direct one; destination and length come out as sent. |
| `HopRelay.Relay.MoveUp` | rbcp/rbcprelay.cxx:127-130 | The descending overlapping copy leaves the original payload eight bytes higher. |
| `HopRelay.Relay.ExpandReply` | rbcp/rbcprelay.cxx:125-134 | The reply is rewritten in place with payload, destination and type in their places. |
| `HopRelay.RegisterServer.CopyOut` | rbcp/rbcpserver.cxx:153-155 | A read copies the registers addressed into the reply and nothing else. |
| `HopRelay.RegisterServer.CopyIn` | rbcp/rbcpserver.cxx:156-158 | A write copies the data into registers and reply and touches nothing else. |
| `HopRelay.RegisterServer.Serve` | rbcp/rbcpserver.cxx:133-160 | One request: the memory after it and the reply to it, for reads, writes and other commands. |
| `HopRelay.RelayForwards` | rbcp/rbcprelay.cxx:86-109 | What leaves the relay is byte for byte the direct request, whatever its buffer held before. |
| `HopRelay.RelayReturns` | rbcp/rbcprelay.cxx:114-139 | What comes back is the server's reply with type and destination put in. |
| `HopRelay.Arrive` | rbcp/rbcprelay.cxx:82-89 | The packet is received over whatever the buffer held, and address and port are read from it. |
| `HopRelay.ForwardRequest` | rbcp/rbcprelay.cxx:101-109 | The packet that has arrived is shrunk and delivered to the server's buffer. |
| `HopRelay.ReturnReply` | rbcp/rbcprelay.cxx:114-139 | Receiving and expanding a reply gives the relayed reply. |
| `HopRelay.Exchange` | rbcp/rbcprelay.cxx:101-139 | Forwarding, serving and returning with a known server: its registers and the answer are those of the forwarded request. |
| `HopRelay.Hop` | rbcp/rbcprelay.cxx:82-139 | The server that the packet names by address and port, among any number of servers, answers it through the relay's own buffers; without one there is no answer. |
| `HopAccess.DirectBytes` | rbcp/rbcp.cxx:255-259 | The bytes of a read and of a write request, one by one. |
| `HopAccess.HopBytes` | rbcp/rbcp.cxx:362-368 | The bytes of a hopread and of a hopwrite request, one by one. |
| `HopAccess.DirectRead` | rbcp/rbcp.cxx:248-263 | A read request leaves the registers alone and is answered with them. |
| `HopAccess.DirectWrite` | rbcp/rbcp.cxx:300-329 | A write request replaces exactly the registers addressed, as many as the wrapped length byte says. |
| `HopAccess.OtherCommandRepeats` | rbcp/rbcpserver.cxx:133-160 | A command that is neither read nor write changes no register and is answered with the bytes of the reply before it, as many as it asks for. |
| `HopAccess.ReadsReturnMemory` | rbcp/rbcp.cxx:353-419 | read and hopread both return the registers when the low byte of the length is not zero. |
| `HopAccess.HopReadTransparent` | rbcp/rbcp.cxx:353-419 | hopread returns what read returns if and only if the low byte of the length is not zero. |
| `HopAccess.HopWriteTransparent` | rbcp/rbcp.cxx:421-454 | hopwrite leaves the same registers as write: the data at the address, the rest unchanged. |
| `HopAccess.HopWriteThenRead` | rbcp/rbcp.cxx:353-493 | A hopread after a hopwrite, over whatever stale buffers, returns the bytes written. |
| `HopAccess.HopReadDestination` | rbcp/rbcp.cxx:362-370 | The address and port that the relay reads from a hopread are those its caller gave; the port opened is that modulo 2^16. |
| `HopAccess.HopWriteDestination` | rbcp/rbcp.cxx:434-451 | The address and port that the relay reads from a hopwrite are those its caller gave; the port opened is that modulo 2^16. |
| `HopAccess.Client.Extract` | rbcp/rbcp.cxx:289-297 | The overlapping move leaves the payload at the front, or the bare header if there is none. |
| `HopAccess.Client.Read` | rbcp/rbcp.cxx:248-298 | read with its in-place memmove yields the direct result and bumps the sequence number. |
| `HopAccess.Client.HopRead` | rbcp/rbcp.cxx:353-419 | hopread returns the registers of the server that its caller names, by the pure route, and changes none; without such a server it gives -1 and leaves the buffer alone. |
| `HopAccess.Client.Write` | rbcp/rbcp.cxx:300-351 | write leaves in the registers as many bytes of the data as its length byte says, or refuses data too long for its buffer; the sequence number is used up either way. |
| `HopAccess.Client.HopWrite` | rbcp/rbcp.cxx:421-493 | hopwrite leaves the data in the registers of the server that its caller names and changes no other server; data too long for its buffer, or no such server, give -1 and change none. |
| `TcpStream.TcpBuffer.constructor` | kol/koltcp.cpp:34-45 | A new buffer is empty both ways and in a good state. |
| `TcpStream.TcpBuffer.Refill` | kol/koltcp.cpp:188-200 | Refilling the used-up buffer leaves the stream as it is, and the buffer empty only at its end. |
| `TcpStream.TcpBuffer.Get` | kol/koltcp.cpp:183-204 | get returns the next byte of the stream, or EOF with eofbit at its end, whatever recv delivers at a time. |
| `TcpStream.TcpBuffer.RecvAll` | kol/koltcp.cpp:73-97 | recv_all takes nbytes from the socket or all there is, in order, and raises eofbit exactly when short. |
| `TcpStream.TcpBuffer.Read` | kol/koltcp.cpp:120-144 | read takes min(len, stream) bytes in order, from buffer or socket, with gcount the number taken, and leaves the rest of the caller's buffer alone. |
| `TcpStream.TcpBuffer.Ignore` | kol/koltcp.cpp:146-162 | ignore moves the stream on by min(len, stream), with gcount that number. |
| `TcpStream.TcpBuffer.Gather` | kol/koltcp.cpp:242-259 | The loop of getline ends as the stream alone decides: delimiter, full, or end. |
| `TcpStream.TcpBuffer.GetLine` | kol/koltcp.cpp:221-266 | getline: the NUL-terminated line, gcount, failbit and eofbit as functions of the stream. |
| `TcpStream.TcpBuffer.SendAll` | kol/koltcp.cpp:99-118 | send_all hands over a prefix; it is short, and badbit raised, exactly when the socket refuses a block. |
| `TcpStream.TcpBuffer.Flush` | kol/koltcp.cpp:268-278 | flush empties the buffer; badbit goes up only if the socket refuses, and otherwise wire plus buffer stay as they were. |
| `TcpStream.TcpBuffer.Put` | kol/koltcp.cpp:206-219 | put appends the low byte to wire plus buffer unless badbit is up; it sends only a buffer of 1024 bytes, and badbit goes up only if the socket refuses that. |
| `TcpStream.TcpBuffer.Write` | kol/koltcp.cpp:164-181 | write appends the block behind everything put before, past the buffer; badbit goes up only if the socket refuses. |
| `StreamSessions.Perform` | kol/koltcp.cpp:120-266 | Any one input call: reply and state are functions of the stream. |
| `StreamSessions.Serve` | kol/koltcp.cpp:120-266 | Any sequence of get, read, ignore and getline: all replies and the final state are independent of how recv cut the stream. |
| `StreamSessions.SessionConsumes` | kol/koltcp.cpp:120-266 | After any session the stream has moved on by exactly the sum of the gcounts. |
| `StreamSessions.ReadsAreFifo` | kol/koltcp.cpp:120-144 | What get and read delivered, followed by what is left, is the stream. |
| `StreamSessions.LinesRoundTrip` | kol/koltcp.cpp:221-266 | getline gives back delimited lines, and raises no failbit, if and only if every line is shorter than maxlen - 1. |
| `StreamSessions.LastLine` | kol/koltcp.cpp:221-266 | A last line without a line feed is returned whole, with eofbit, and with failbit only if it is empty. |
| `StreamSessions.ReadsEnough` | kol/koltcp.cpp:120-162 | read and ignore take what they are asked for, or all there is with eofbit, and nothing for a length that is not positive. |
| `StreamSessions.Send` | kol/koltcp.cpp:164-278 | Any sequence of put, write and flush and a final flush: badbit goes up exactly if the socket refuses a block; if it never does, the wire carries all that was handed over, in order, however send cuts it up. |
| `StreamSessions.LinesCross` | kol/koltcp.cpp:164-278 | Lines written with their delimiters come back from getline, without failbit, if and only if every line fits. |
| `Uri.URI.constructor` | kol/koluri.cpp:10-30 | The five steps together compute the components of the whole text. |
| `Uri.URI.SetScheme` | kol/koluri.cpp:113-142 | Scheme and end position, or no scheme and no move. |
| `Uri.URI.Scan` | kol/koluri.cpp:154-174 | The loop stops at the end of the authority and keeps the last '@' and the last colon before and after the first '@'. |
| `Uri.URI.Marks` | kol/koluri.cpp:154-197 | The adjusted marks bound user, password, host and port. |
| `Uri.URI.SetAuthority` | kol/koluri.cpp:144-271 | Sets user, password, hostport, host and port to the authority's parts, absent where empty. |
| `Uri.URI.SetPort` | kol/koluri.cpp:253-268 | The port is the number at the head, -1 without a digit. |
| `Uri.URI.SetPath` | kol/koluri.cpp:273-304 | The path up to the first question mark or number sign. |
| `Uri.URI.SetQuery` | kol/koluri.cpp:306-333 | The query up to the first number sign. |
| `Uri.URI.SetFragment` | kol/koluri.cpp:335-358 | The fragment up to the end. |
| `UriRoundTrip.PortReadsBack` | kol/koluri.cpp:253-268 | A port written in decimal is read back. |
| `UriRoundTrip.HostReadsBack` | kol/koluri.cpp:227-268 | Host and port come back if and only if there is a port or no colon in the host. |
| `UriRoundTrip.UserReadsBack` | kol/koluri.cpp:201-225 | User and password come back if and only if the last part of the user information has no colon. |
| `UriRoundTrip.AuthorityReadsBack` | kol/koluri.cpp:144-271 | Within a recomposed reference the authority comes back if and only if both hold. |
| `UriRoundTrip.RoundTrip` | kol/koluri.cpp:10-30 | For every well-formed component tuple (section 3 of RFC 3986), parsing its recomposition (section 5.3) gives the same components if and only if the authority has no colon that could be mistaken. |
| `UriTexts.SchemeOfAnyText` | kol/koluri.cpp:113-142 | For every text: it has a scheme ending at a colon exactly if it starts with a letter and only letters, digits, plus, minus and dot stand before that colon (section 3.1 of RFC 3986). |
| `UriTexts.NotAScheme` | kol/koluri.cpp:120-134 | A text whose first character is no letter, or with any other character before its first colon, has no scheme. |
| `UriTexts.SplitOfAnyText` | kol/koluri.cpp:23-29 | Every text splits into scheme, authority, path, query and fragment by the characters that delimit them. |
| `UriTexts.ParseOfAnyText` | kol/koluri.cpp:23-29 | For every text, the components are what lies between the ends of that split, absent where empty. |
| `UriTexts.AuthorityWithoutUser` | kol/koluri.cpp:154-271 | For every text: in an authority without '@' the last colon ends the host, and there is no user. |
| `UriTexts.UserOfAnyText` | kol/koluri.cpp:154-225 | For every text: the last '@' ends the user information, and the last colon before the first '@' lies between user and password. |
| `UriTexts.HostOfAnyText` | kol/koluri.cpp:154-271 | For every text: host and port follow the last '@', and the last colon behind the first '@' lies between them; before the last '@' it leaves no host. |
| `UriTexts.NoPort` | kol/koluri.cpp:253-268 | Without a leading digit the port is -1. |
| `UriTexts.PortOfAnyText` | kol/koluri.cpp:253-268 | Leading zeros and a decimal number, up to the end or to another character, give that number. |
| `ThreadReaper.StepOk` | kol/kolthread.cpp:259-338 | Every atomic step of posts, workers, reapers and destructor keeps the invariant on counts, joins, mutex and m_threadid. |
| `ThreadReaper.RunOk` | kol/kolthread.cpp:259-338 | The invariant over every interleaving of any number of threads. |
| `ThreadReaper.ZeroLoad` | kol/kolthread.cpp:366-374 | With no post under way the count is zero exactly when each posted thread has been taken off it. |
| `ReaperRuns.NothingTwice` | kol/kolthread.cpp:295-306 | No thread is joined or deleted twice, no recorded reaper is joined twice, and deletion comes after the worker's exit. |
| `ReaperRuns.ZeroMeansReaped` | kol/kolthread.cpp:366-374 | With no post under way numrunning() is zero if and only if every posted thread was joined and deleted exactly once and taken off the count. |
| `ReaperRuns.PostHidesRunning` | kol/kolthread.cpp:308-319 | While a post is under way the count can be zero although a posted thread runs: a concrete run. |
| `ReaperRuns.LateStoreIsNotJoined` | kol/kolthread.cpp:321-338 | A reaper that reads m_delthreadid before done() stores it is never joined: a concrete run. |
| `ReaperRuns.DestructorCollects` | kol/kolthread.cpp:259-265 | After the destructor all posted threads are collected, and the reapers joined are exactly those that recorded an id. |
| `ReaperRuns.HolderMoves` | kol/kolthread.cpp:295-306 | The mutex holder waits, if at all, for a reaper that has left the mutex or for a worker, which can move. |
| `ReaperRuns.NoDeadlock` | kol/kolthread.cpp:295-338 | While any posted thread is not settled some thread can move. |
| `ReaperRuns.MovesEnd` | kol/kolthread.cpp:295-338 | Posted threads take a bounded number of steps, in any order. |
| `ReaperRuns.DestructorEnds` | kol/kolthread.cpp:259-265 | Where they stop, mutex and last reaper are free, and the destructor's poll sees zero if and only if no thread failed to start or to create its reaper. |
| `ReaperRuns.DestructorReturns` | kol/kolthread.cpp:259-265 | From there the destructor ends with its last join if the count is zero, and polls without change otherwise. |
| `SocketOwnership.Socket.Make` | kol/kolsocket.cpp:165-169 | Construction takes a new descriptor. |
| `SocketOwnership.Socket.Copy` | kol/kolsocket.cpp:171-179 | Copying duplicates. |
| `SocketOwnership.Socket.Assign` | kol/kolsocket.cpp:191-199 | Assignment closes what it replaces and duplicates; self-assignment does nothing. |
| `SocketOwnership.Socket.Close` | kol/kolsocket.cpp:201-211 | close closes once and forgets. |
| `SocketOwnership.Socket.Create` | kol/kolsocket.cpp:213-221 | create closes what it replaces and takes a new descriptor. |
| `SocketOwnership.Socket.Accept` | kol/kolsocket.cpp:247-254 | accept's result owns the connection, copied or not. |
| `SocketOwnership.AcceptedOnce` | kol/kolsocket.cpp:247-254 | Returning by value through a copy leaves exactly one new open descriptor, as without the copy. |
| `SocketOwnership.ExecOwned` | kol/kolsocket.cpp:160-221 | Each operation keeps one owner per open descriptor, whatever the system answers. |
| `SocketOwnership.Gains` | kol/kolsocket.cpp:160-254 | With a descriptor from the system, construction, copying, assignment from an open socket, create and accept leave the object holding just that descriptor, close only what it held, and change no other object. |
| `SocketOwnership.Loses` | kol/kolsocket.cpp:165-254 | Without one, or from a closed socket: constructors and accept leave no object or an empty one, assignment and create leave the object empty, and close and destruction close exactly its descriptor. |
| `SocketOwnership.RunOwned` | kol/kolsocket.cpp:160-254 | Over any run of operations the open descriptors are exactly those owned, each by one object, and no close ever misses. |
| `SocketOwnership.NothingLeaks` | kol/kolsocket.cpp:186-189 | Once every object is destroyed every descriptor is closed, and none was closed twice. |
| `SocketOwnership.CopiesAreApart` | kol/kolsocket.cpp:171-199 | Two live objects never share a descriptor. |
| `SocketOwnership.Program.Construct` | kol/kolsocket.cpp:160-169 | On live objects, default and opening construction follow the run on values. |
| `SocketOwnership.Program.Duplicate` | kol/kolsocket.cpp:171-179 | On live objects, copying follows the run on values. |
| `SocketOwnership.Program.Answer` | kol/kolsocket.cpp:247-254 | On live objects, accepting follows the run on values. |
| `SocketOwnership.Program.Use` | kol/kolsocket.cpp:186-221 | On live objects, assignment, create, close and destruction follow the run on values. |
| `Timer.PeriodIsClose` | mtimer.cxx:72-78 | period() is within a millisecond of true elapsed time: rounded down, or up when the microseconds are negative. |
| `Timer.PeriodIsMonotone` | mtimer.cxx:72-78 | On a monotone clock period() never steps back, despite the two roundings. |
| `Timer.CatchUpEnds` | mtimer.cxx:63-67 | The catch-up loop ends if and only if set_time is positive or it need not turn. |
| `Timer.MTimer.Check` | mtimer.cxx:54-70 | check fires exactly when the period has reached count_time, and raises that by set_time until it has reached the period. |
| `Timer.Perform` | mtimer.cxx:45-70 | Any sequence of set and check on the object is the run on values. |
| `Timer.SetRestarts` | mtimer.cxx:45-70 | Whether the first check after a set fires depends on the microseconds since that set and the count carried over alone, with the exact threshold; count_time then is above both. |
| `Timer.FiredIsBracketed` | mtimer.cxx:63-67 | After a firing count_time is at least the period, and either one set_time on or less than one set_time above the period. |
| `Timer.CountIsMultiple` | mtimer.cxx:45-70 | In any run with any number of sets, at each check after the last one count_time is a multiple of set_time if and only if the count_time carried over that set was one. |
| `Timer.SecondSetBreaksMultiple` | mtimer.cxx:45-70 | set 100, a firing, set 70, a firing at period 100: count_time is 170, not a multiple of 70. |
| `Timer.NotTooOften` | mtimer.cxx:63-67 | After a set, on a clock that does not step back, n firings imply that the last period is at least the carried-over count_time plus (n-1) * set_time, whether or not the last check fires. |
| `Timer.OncePerInterval` | mtimer.cxx:63-67 | Checked at least once per set_time, the timer never has to catch up: count_time grows by set_time for each firing and is always above the last period. |

## Left out

- ZeroMQ, BSD sockets, pthreads, files, clocks and signals as libraries: queues, arbitrary portions, fresh descriptors, timestamps as arguments, and atomic steps stand for them.
- Socket failures and `SocketException`, except for the abandoned buffer of the drain protocol, failed sends of `TcpBuffer` (badbit) and missing descriptors of `Socket`.
- The drop at `g_ebs_depth` in `send_data`: "sent" means passed to `send_data`. Also `time_ms`, throughput display, spill files and monitoring.
- EventBuilders.EventBuilder.Receive: the result of `pack_data` written back into `is_fullev` of a sent event is not part of the buffer's state; it reappears as the argument `before` of `PackedEvents.PackData`.
- Conservation.BufferInvariant: the depth limit does not change during a run; `set_max_event_depth` in between is not covered.
- IncreasingRuns.AtMostOnce: for the literal erase loop it asks for a clean run; why it must is `UncleanResends`.
- Pipeline.PipelineBuildsConsecutively: dummy producers, none of which has failed to read or send, and whose trigger counter has not yet passed 2^28, where the header word wraps; a failure skips a trigger. The records of real boards are arbitrary bytes and are not modelled.
- `init_sequence` and the `is_good` flag beyond its outcome, re-initialisation from the command loop, and the commands themselves.
- CheckLeb.Reading: header fields beyond the known bytes give no record list, uninitialised memory is an argument, the doubled buffer size may exceed an int for lengths from 2^30 on, and a failing `new` is not modelled; the returned byte count is unused.
- The relay's error exits, which stand as "no answer" to the client, direct packets that it echoes, and packets longer than its buffers; the register server does not check addresses, so its requests are taken to lie within the memory.
- HopAccess.Client.HopWrite: data of 256 to 2031 bytes, whose packet is longer than the relay's buffer.
- TcpStream.TcpBuffer.Read: null buffers and lengths beyond an int are not covered.
- TcpStream.TcpBuffer.Flush: after badbit nothing is promised about what was buffered, as the code drops it.
- UriRoundTrip.RoundTrip: ports beyond a 32-bit int, characters outside ASCII letters in `isalpha`, and IPv6 literals without a port.
- URI copying and assignment, and the null text, which the constructor does not survive.
- ThreadReaper.StepOk: `Thread::start` is one step: the system stores a worker's id before the worker can end. POSIX leaves that order open. A post that starts after destruction has begun is the owner's error.
- SocketOwnership.Socket.Accept: a failed call is a result without a descriptor, which the run on values turns into "no object"; adopting foreign descriptors is not covered.
- Timer.MTimer.Check: a firing with a set_time for which the catch-up loop does not end is not covered; `CatchUpEnds` says which. The millisecond count is taken not to exceed an int.
- `dtrear.cxx`, `ebreceiver.cxx`, `nodelist.cxx`, `drecbe.cxx`, `triggen.cxx`, `trigrecv.cxx`, `comtoleb.cxx`, `contcheck.cxx`, `checkrecbe.cxx`, `mstopwatch.cxx` and the C copies `rbcp/rbcp.c`, `rbcp/udpreg.c`: thin tools, duplicates, or code whose intent cannot be settled.
