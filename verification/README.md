# Verification of the Arakoon C client

A Dafny model of Crakoon, the C client of the Arakoon key-value store: its wire protocol, the
calls it makes, the way it connects and finds the master of a cluster, its time budgets, its
linked lists, and the routing table of a nursery. `dafny verify dfyconfig.toml` checks everything.

## How the model is built

| module | models |
|---|---|
| `Wire`, `WireLists`, `SequenceItems`, `Fields`, `Requests` | bytes, words, strings, lists, frames, commands and replies, each with an encoder and an independent decoder (the peer's, or the client's) |
| `CommandBuilder`, `SequenceBuilder` | filling command buffers front to back, and the two-pass, back-to-front sequence encoder |
| `Chains`, `ValueLists`, `KeyValueLists` | the linked lists and their iterators, on the heap |
| `Time`, `Budget` | elapsed-time arithmetic and the millisecond budget that acts pass along |
| `Layouts` | what goes over the wire byte by byte, as a reference that the encoders are tied to |
| `Acts` | the record of system calls, and what a transfer or a connect may come to, given the calls it made |
| `Transcripts` | laws of those records in the bits of poll() and in plain numbers |
| `Kernels` | the operating system and the peers, as the client sees them |
| `Transfer`, `ConnectRace`, `Protocol` | the transfer loop, the connect race, the I/O macros |
| `Topology`, `Discovery` | clusters, nodes, and the two-hop search for the master |
| `Client`, `Session` | whole calls, runs of calls, and sessions that mix calls with searches |
| `Routing`, `RoutingParser` | the routing tree, its parser and its lookup |

System calls are methods of one class, `Kernels.Kernel`, whose outcomes are left open: short
transfers, interruptions, spurious wakeups, failures of any call, a clock that stands still or
jumps ahead. A loop that waits ends because the kernel's `idle` bounds how many fruitless wakeups
are still to come; the bound is arbitrary, so every run that ends at all is covered. The peer of a
connection decodes what it has received and queues its replies. Where a property speaks of what the
peer does, it assumes an `honest` kernel: each decoded command is answered once, with some
well-formed reply, and nothing else is sent. Everything else holds for any peer.

The kernel keeps records of what happened. `calls` has the system calls with their outcomes, in order:
clock readings, polls, reads and writes with their bytes, new sockets, connects, changes of flags
(`closings` has what was closed). Only the kernel's own methods add to it. `acts` cuts it into transfers and connects, each with
its entry budget, its return code and what it charged; `Explains` says that the acts account for all
of the calls, in order, and that each is `Lawful`, that is, that its calls follow one another as the
loops have it and that its return code and its charge follow from them. `log` has what the peers decoded and replied. What the model says
about budgets, about an address that connects at once, about who was asked for the master and what
was answered, and about what a call left behind, is said of these records and of the bytes on the
streams.

A request that the client makes is the value `Request`; `PutRequest` is its forward encoding and
`GetRequest` the peer's decoder. A call's `Ending` says how it came out as seen from both sides.

## What was found

These are facts about the code as it is. The contracts state them, or leave room for them, instead of
assuming them away.

- `time_delta` is 1000 ms too large whenever the seconds differ. One real millisecond, measured
  against a budget of 1000 ms, stores -1, which means no limit at all. A finite budget turns
  infinite exactly when the measured time is one more than the budget (modulo 2^32), and it rises
  exactly when that time is more than 2^31 ms past it (modulo 2^32).
- When an address connects at once (a connect() that returns at least 0, directly followed by
  restoring the flags), the slots from the winner's own onward still hold the zeros of the `memset`,
  and the cleanup closes descriptor 0 if that was open under it before. It does so in exactly that
  case; in every other case all that was open before stays open.
- When the last clock reading of a connect fails, the budget is charged from a stale or zero reading.
- `memcmp` cut to the key's length sends a key that is a proper prefix of a boundary to the right of
  it. The descent overshoots the lexicographic interval by exactly the number of boundaries that
  properly extend the key.
- `hello` and `version` leave the connection open when their write fails; `who_master` and the
  routing query leave an error message unread. After these, and only after these, an open connection
  can be out of step, and the leftover of an empty message reads as the return code of the next
  call: success. A search for the master that meets such an error has the same effect, and when the
  same peer is asked again, its errors can even be heard as the name of a master. A caller none of
  whose hello, version, who_master and routing calls failed, and none of whose searches met such an
  error, is in step.
- Lists decoded from the wire come out in reverse, and so do the nodes of each routed cluster.

## Model

| member | source | states |
|---|---|---|
| Wire.WordRoundTrip | src/arakoon-protocol.h:56-66 | a stored word reads back as the number modulo 2^32, and the bytes after it are left alone |
| Wire.SignedRoundTrip | src/arakoon-protocol.h:119-126 | a number survives the trip through 32 bits if and only if it fits an int32_t |
| Wire.StringRoundTrip | src/arakoon-protocol.h:68-73 | a length-prefixed string, of any length that fits its word, reads back exactly, in front of any other bytes |
| Wire.OptionRoundTrip | src/arakoon-protocol.h:75-87 | an absent string and a present one, even an empty one, read back as they were written |
| WireLists.AllReadBack | src/arakoon-protocol.h:206-238 | for any element codec that reads back its own elements, a list of n elements reads back exactly and consumes exactly its own bytes |
| SequenceItems.FrameRoundTrip | src/arakoon.c:1048-1147 | a frame of items ends itself: whatever follows, decoding gives the items and leaves exactly what followed |
| Fields.FieldsRoundTrip | src/arakoon-protocol.h:56-93 | any run of fields, of any types, reads back exactly, in front of any other bytes |
| Fields.FieldsExtend | src/arakoon-protocol.h:111-286 | a successful decode does not depend on what follows: more input changes neither the value nor what was consumed |
| Requests.RequestRoundTrip | src/arakoon.c:287-1455 | every command the client can send is read by the peer as that command, and exactly its bytes are consumed |
| Requests.ProperPrefixIsIncomplete | src/arakoon-protocol.h:95-101 | no proper prefix of a command reads as a command, so a peer that got part of one keeps waiting |
| Requests.StreamIsUnambiguous | src/arakoon-protocol.h:47-93 | two series of commands with the same bytes are the same series |
| Requests.ReplyRoundTrip | src/arakoon-protocol.h:127-191 | a reply, an error code with its message or a success with its result, reads back exactly |
| Layouts.WordIsLittleEndian | src/arakoon-protocol.h:56-66 | the four bytes of a word, least significant first, for numbers of either sign |
| Layouts.RequestLaidOut | src/arakoon.c:287-1455 | every command goes out as a reference has it that names no table: its code, then flags, words, strings and optional strings, byte by byte |
| Layouts.SequenceHeader | src/arakoon.c:1132-1147 | in a sequence command the word at offset 4 counts what follows it, the one at 8 is 5, the one at 12 is the number of calls |
| Layouts.SequenceItem | src/arakoon.c:1089-1121 | from offset 16 on each call starts where the one before it ends, with 1, 2, 8 or 15 as it is a set, delete, assert or assert_exists, in front of its key and value |
| Layouts.FieldSpelled | src/arakoon-protocol.h:111-286 | whatever field was read, the bytes consumed are exactly those that spell it |
| CommandBuilder.CommandWriter.Store | src/arakoon-protocol.h:56-66 | one store through the cursor appends its bytes, advances the cursor by their number, and leaves what was written before |
| CommandBuilder.CommandWriter.WriteStringOption | src/arakoon-protocol.h:68-93 | the stores of the flag, the length and the bytes, in that order, make up one optional string and fill exactly the size that its length macro computed; for NULL one byte, whatever size came with it |
| CommandBuilder.BuildRange | src/arakoon.c:729-751 | whichever of the two keys are NULL, and whatever sizes came with a NULL, the buffer is filled exactly and holds exactly the range command |
| CommandBuilder.BuildTestAndSet | src/arakoon.c:958-973 | the same for the two optional values of test_and_set |
| CommandBuilder.BuildCommand | src/arakoon.c:287-1455 | each single-buffer command, for all combinations of its arguments, is exactly the forward encoding of the request, and byte for byte the reference layout, in a buffer sized beforehand |
| SequenceBuilder.ArakoonSequence.Add | src/arakoon.c:162-167 | prepending to the chain appends the item to the series of calls, and keeps the chain acyclic |
| SequenceBuilder.ArakoonSequence.AddAssert | src/arakoon.c:228-242 | asserting NULL and asserting an empty value are recorded as different items |
| SequenceBuilder.Measure | src/arakoon.c:1019-1048 | the size pass computes the exact size of the forward encoding of the calls |
| SequenceBuilder.Fill | src/arakoon.c:1055-1147 | the back-to-front pass fills the measured buffer with the forward encoding of the calls in call order; neither consistency check can fail and the index never leaves the buffer |
| SequenceBuilder.EncodeSequence | src/arakoon.c:993-1147 | for every series of calls the bytes sent are the sequence command holding those calls in order, byte for byte the reference layout |
| SequenceBuilder.EncodedCallsReadBack | src/arakoon.c:1132-1147 | the word at offset 4 counts the bytes after it; followed by any bytes, the frame decodes to the calls and consumes exactly itself |
| SequenceBuilder.EncodingIsInjective | src/arakoon.c:1055-1147 | different series of calls have different encodings |
| SequenceBuilder.RunInOrder | src/arakoon.c:162-167 | one more call acts on the store that the earlier calls left |
| SequenceBuilder.PeerRunsTheCalls | src/arakoon.c:1055-1147 | running what the peer decoded on any store equals running the calls in order, and no store passes both an assertion of absence and one of emptiness |
| ValueLists.ValueList.Prepend | src/arakoon-value-list.c:62-94 | puts a value in front; the chain stays acyclic, `last` is its final item and `size` its length |
| ValueLists.ValueList.Append | src/arakoon-value-list.c:96-131 | puts a value at the end, with the same invariant, for any mix of the two |
| ValueLists.ValueListIter.Next | src/arakoon-value-list.c:211-231 | yields the first value still to come and leaves exactly the rest; NULL exactly at the end |
| ValueLists.SuffixStep | src/arakoon-value-list.c:211-231 | stepping along `next` drops exactly the item stood at, and stays on the chain |
| ValueLists.SuffixUnderPrepend | src/arakoon-value-list.c:76-84 | an iterator sees the same values as before after a prepend |
| ValueLists.SuffixUnderAppend | src/arakoon-value-list.c:118-126 | an iterator that is not yet at the end sees exactly one more value after an append; one that is at the end sees none |
| ValueLists.Collect | src/arakoon.h:652-655 | the iteration macro visits every value in order; values of length zero do not end it |
| KeyValueLists.KeyValueList.Prepend | src/arakoon-key-value-list.c:63-108 | puts a pair in front of an acyclic chain and counts it |
| KeyValueLists.KeyValueListIter.Next | src/arakoon-key-value-list.c:181-208 | yields the first pair still to come; both pointers are NULL exactly at the end |
| KeyValueLists.Collect | src/arakoon.h:744-747 | the iteration macro visits every pair in order, whatever their sizes |
| Time.TimeDeltaExact | src/arakoon-networking.c:58-68 | the result is the floor of the true milliseconds when the seconds agree, and exactly 1000 more when they differ |
| Time.TimeDeltaBounds | src/arakoon-networking.c:58-68 | never negative, never below the true floor |
| Time.TimeDeltaMonotone | src/arakoon-networking.c:58-68 | a later end never gives a smaller result |
| Time.TurnsInfinite | src/arakoon-networking.c:229 | a finite budget is stored as the infinite one if and only if the measured time is the budget plus one, up to 32 bits |
| Time.RaisesBudget | src/arakoon-networking.c:229 | exactly which charges leave more than there was |
| Time.OneMillisecondCanTurnInfinite | src/arakoon-networking.c:66-67 | a concrete case: one real millisecond against a budget of 1000 |
| Time.FiniteUnlessOverdrawn | src/arakoon-networking.c:85-86 | along any chain of calls sharing a budget it stays finite if and only if no call overdraws it by exactly one |
| Budget.MeasuredByReadings | src/arakoon-networking.c:229 | for transfers and connects alike: whatever is charged as measured time runs from the act's own first clock reading to its last |
| Budget.BudgetStaysFinite | src/arakoon-networking.c:85-86 | along any recorded run of transfers and connects that share a finite budget, failed ones included, it stays finite if and only if no act measured, from its first reading to its last, exactly its budget plus one (up to 32 bits) |
| Budget.BudgetNeverRises | src/arakoon-networking.c:229 | along any such run no act leaves more than it got if and only if none measured, up to 32 bits, more than 2^31 ms past its budget |
| Budget.SeriesStaysInBudget | src/arakoon-networking.c:223-230 | completed transfers never raise the budget they share, and the time between each one's first and last clock reading, summed, is below what the budget lost plus a millisecond each |
| Budget.TransferSeries | src/arakoon-networking.c:80-238 | for any series of transfers on a live kernel that all succeed on a finite budget, none going on for 2^31 ms past it: the budget never rises, the time from each transfer's first clock reading to its last, summed, is below what the budget lost plus a millisecond each, and within the real time the series took |
| Kernels.OneRequestOneReply | src/arakoon-protocol.h:95-101 | a peer that has received exactly one command answers exactly once and is left with nothing |
| Transfer.PollAct | src/arakoon-networking.c:77-238 | under every schedule: the recorded bytes were moved, in stream order, and nothing else was touched; success means all of them; the calls on record follow one another as the loop has it: each wait is what the reading just before it leaves, each timed transfer follows a poll that let it go ahead, nothing follows a failure but the reading of what it cost; a success is charged from the call's first clock reading to its last, a failure as its last calls demand |
| Transcripts.TransferFollowsItsEvent | src/arakoon-networking.c:198-249 | with a budget, each write comes right after a poll that set POLLOUT, each read after one that set POLLIN, and none of POLLERR, POLLHUP, POLLNVAL and POLLRDHUP; after such a poll the transfer is next; after any other that marked the descriptor, a reading of the clock |
| Transcripts.BrokenPollEnds | src/arakoon-networking.c:162-196 | a poll that set one of those four ends the transfer after one more reading: with a network error for POLLERR, not connected otherwise, charged for the time since the first reading |
| Transcripts.FailedPollEnds | src/arakoon-networking.c:146-160 | a poll that times out ends the transfer with a timeout and takes all of the budget; one that fails ends it, after one more reading, with its errno |
| Transcripts.TransferFailures | src/arakoon-networking.c:203-227 | EINTR and EAGAIN are no failures, the end of a stream is a network error, any other errno is the return code and ends the transfer |
| Transcripts.EntryDecides | src/arakoon-networking.c:84-115 | no budget, or -1: the act goes ahead, polls without limit and charges nothing; any other budget that is not positive: no system call, a timeout; a negative descriptor: not connected |
| Transfer.AwaitReady | src/arakoon-networking.c:136-200 | before each transfer the clock is read and poll is asked to wait for what is left; its recorded outcome decides between going on, waiting again and each of the failures, and what the budget is then charged |
| Transfer.TransferOnce | src/arakoon-networking.c:203-227 | one recorded read or write moves a run of the next bytes, or its count and errno decide why not: an interruption is no failure, the end of the stream is |
| Transfer.MovedMore | src/arakoon-networking.c:225-226 | partial transfers add up to one contiguous transfer |
| Acts.WaitsAreBounded | src/arakoon-networking.c:139-146 | each recorded poll of a timed transfer follows a clock reading and waits for what that leaves: at least 1 ms, and at most the entry budget if and only if, up to 32 bits, less than the budget has been measured; so always, unless the call goes on for more than 2^31 ms past its budget |
| Acts.RaceWaitsAreBounded | src/arakoon-networking.c:390-432 | the same for each recorded poll of a timed connect, with nothing but interrupted polls between the reading and it |
| ConnectRace.TryAddress | src/arakoon-networking.c:309-380 | one address leaves either one new open socket, non-blocking while its connect is in progress and back in its original mode once it is connected, or every socket it made closed; which of these follows from the recorded outcomes of fcntl() and connect() |
| ConnectRace.PollSockets | src/arakoon-networking.c:409-446 | every socket left is polled, in slot order, again after each interruption; as many slots come back as poll counted, from the front, whichever it marked |
| ConnectRace.Scan | src/arakoon-networking.c:448-463 | of the slots it is given, and no others, exactly the broken sockets are closed and forgotten, and the last ready one is the result; ownership of the sockets is kept |
| ConnectRace.Claim | src/arakoon-networking.c:465-485 | a claimed socket has its original flags back, otherwise it was closed and forgotten |
| ConnectRace.AwaitWinner | src/arakoon-networking.c:390-488 | the calls on record follow one another as the loop has it: each poll is of exactly the sockets still pending, for what the reading just before it leaves; the race ends with the socket that the last poll found ready, claimed, or with a reason that the last system call gives; it is a network error only when every connect that was begun has failed; every open socket of the call is in exactly one slot throughout |
| ConnectRace.SettlesAtOnce | src/arakoon-networking.c:362-365 | after an immediate connect the cleanup closes exactly the other sockets of the call and descriptor 0 |
| ConnectRace.Connect | src/arakoon-networking.c:253-528 | for every mix of outcomes: a descriptor is returned only with success, it is a new socket that a connect() or a poll on record connected, in its original blocking mode, no other socket of the call is left open, in particular none that a poll found in error, hung up or invalid, every address was tried unless one connected at once, and of what was open before nothing is closed but descriptor 0, which is closed exactly when the record shows a connect() that succeeded at once with its flags restored |
| Transcripts.SuccessWasConnected | src/arakoon-networking.c:359-485 | the socket of a successful connect is one whose connect() returned at once, or the last slot, of those that the last poll counted, that was writable with none of POLLERR, POLLHUP and POLLNVAL; the next call restored its flags |
| Transcripts.PollsWhatIsInProgress | src/arakoon-networking.c:345-432 | each poll of a connect is of exactly the sockets whose connect() gave EINPROGRESS and that no poll since found in error, hung up or invalid |
| Transcripts.NetworkErrorLeavesNone | src/arakoon-networking.c:424-428 | a connect gives a network error only when no socket is in progress any more |
| Transcripts.FruitlessPoll | src/arakoon-networking.c:430-446 | a poll interrupted by EINTR is made again, for as long; one that times out ends the connect with a timeout, one that fails with its errno |
| ConnectRace.EachSocketIsReturnedOrClosedOnce | src/arakoon-networking.c:494-519 | each socket made in the call is either the one returned or was closed, exactly once, and never both |
| Topology.Node.SetCluster | src/arakoon-cluster-node.c:298-307 | a node that is owned is refused and keeps its owner |
| Topology.Cluster.AddNode | src/arakoon-cluster.c:252-273 | an unowned node goes in front of the chain; an owned one is refused and nothing changes; the chain stays acyclic and owned |
| Topology.RunAdditions | src/arakoon-cluster.c:252-273 | after any run of additions over any clusters every chain is acyclic, no two share a node, exactly the first additions of free nodes succeeded, and each chain is the accepted nodes, last first |
| Topology.ChainsAreDisjoint | src/arakoon-cluster-node.c:298-307 | chains of different clusters have no node in common, since each node has one owner |
| Protocol.Disconnect | src/arakoon-cluster-node.c:155-167 | the descriptor is closed, if there is one, and forgotten |
| Protocol.WriteBytes | src/arakoon-protocol.h:95-101 | success means that all bytes went out; any failure drops the connection; the peer took in exactly the part that went out |
| Protocol.ReadBytes | src/arakoon-protocol.h:103-109 | success means that the buffer holds the next bytes of the stream; any failure drops the connection |
| Protocol.ReadString | src/arakoon-protocol.h:136-169 | decodes one string off the stream, the empty one too, or drops the connection |
| Protocol.ReadStringOption | src/arakoon-protocol.h:171-191 | decodes one optional string off the stream or drops the connection |
| Protocol.ReadStringList | src/arakoon-protocol.h:206-238 | consumes exactly one encoded list and puts its strings in front of the given list, in reverse wire order; or drops the connection |
| Protocol.ReadPairList | src/arakoon-protocol.h:240-286 | the same for pairs |
| Discovery.OneExchange | src/arakoon-protocol.h:95-101 | at a message boundary one more command brings exactly one more reply, to that command |
| Discovery.ConnectNode | src/arakoon-cluster-node.c:98-153 | a connected node is left as it is; otherwise the record shows a connect over all its addresses and, if that succeeded, the prologue written on the new descriptor, which is then at a message boundary; a failure leaves the node closed |
| Discovery.AskMaster | src/arakoon-cluster-node.c:169-213 | for any peer: the question went out on the node's descriptor, and the return code and the name are those in the bytes delivered in answer; for an honest one: the connection is afterwards closed, or at a message boundary if and only if the reply was not an error |
| Discovery.HearAnswer | src/arakoon-cluster-node.c:194-210 | the bytes delivered are an error code and nothing after it, or one whole answer, and give the return code and the name; or the connection is dropped |
| Discovery.AnswerBytes | src/arakoon-cluster-node.c:194-210 | the bytes of an answer: an error code; a zero word and no name; or a zero word and a string, whose bytes up to the first NUL are the name |
| Discovery.ProbeNode | src/arakoon-cluster.c:133-161 | one node: connected over all its addresses unless it was open, then asked; the acts on record fix the return code, the name and the node's descriptor; with an honest peer in step a success is confirmed by the last exchange on that very socket |
| Discovery.FindInformant | src/arakoon-cluster.c:130-164 | the acts on record are those of trying the nodes, in list order, each from the descriptor it had and over all its addresses, up to the first that names a master; if there is none, every node was tried |
| Discovery.ErrorsCanNameAMaster | src/arakoon-cluster-node.c:194-210 | what an unread error does to a search: two error replies of one peer, asked twice, can be heard as its naming a master, for each name of one letter |
| Discovery.FindByName | src/arakoon-cluster.c:177-190 | the first node of the list with that name, or none has it |
| Discovery.FollowName | src/arakoon-cluster.c:177-219 | the second hop: the first node of that name is reached from where the first round left it, and has to name itself; otherwise the code says which of these failed |
| Discovery.ConnectMaster | src/arakoon-cluster.c:113-220 | the acts on record decide the outcome and every node's descriptor in every case, and share the one budget; after a success the master is open and the record ends with the question put on its descriptor and its own name in answer; a failure leaves the master as it was; with honest peers no connection gets out of step but one whose peer answered with an error, and any other master found answered who_master, last of all, with its own name |
| Discovery.SearchCodes | src/arakoon-cluster.c:161-213 | the return code of a search, in numbers: 0x100 if nobody named a master, 0x200 for a name not in the list, 0x300 if the node named does not name itself, and otherwise its own code |
| Discovery.MasterNamedItself | src/arakoon-cluster.c:167-219 | after a success the master is a node of the list that was tried in this very search, and the last acts of the search are a question put on its descriptor and its own name delivered in answer |
| Discovery.DisconnectAll | src/arakoon-cluster.c:91-111 | the walk ends, every node is closed, and no other descriptor is |
| Client.HandleError | src/arakoon.c:266-284 | an error code is followed by reading its message, which becomes the last error, or by dropping the connection |
| Client.ReadReply | src/arakoon.c:335-349 | the bytes delivered are a zero word and, command by command, the bytes of the result that the caller is told; or an error code, its return code, and the message, which becomes the last error, except after who_master and the routing query, which do not read it; the connection is dropped exactly if a read failed, and the code is then the error code if that came, else that of the read |
| Client.MultiGetLayout | src/arakoon.c:609-640 | header, count, and each key as its length and its bytes, is one well-formed list command |
| Client.SendMultiGet | src/arakoon.c:609-640 | the count sent equals the number of keys written after it, in list order, empty ones included; a failure midway drops the connection |
| Client.InFlightMore | src/arakoon-protocol.h:95-101 | while part of a request is missing the peer is silent; once it is complete the peer has answered it, once, however it was cut up |
| Client.ReplyEndsCall | src/arakoon.c:266-284 | reading the reply of a request in flight brings the connection back to a message boundary, unless it was an error whose message is not read |
| Client.Call | src/arakoon.c:287-350 | for any peer: the acts on record are writes of the request, until one fails, then reads of the reply, until one fails; the code is that of the first act that failed, or the peer's; the connection is dropped exactly if an act failed, unless it was a write of hello or version; when none failed, the bytes moved are the request's and the reply's, and the caller is told what those say; all share one budget. At a message boundary with an honest peer: a call of which no act failed tells its caller exactly the peer's reply to this very request; after an error reply the message is the last error and the connection is back at a boundary, except after who_master and the routing query, where it is left unread; a failed write of hello or version leaves exactly the part that went out, or the unread reply, on the streams |
| Client.OutOfStepIffLapse | src/arakoon.c:287-350 | given what the streams hold after a call that left the connection open, it is out of step if and only if the call lapsed |
| Client.RunCalls | src/arakoon-protocol.h:95-109 | any series of calls: each does what a call does, on the descriptor that the one before it left, and tells what the bytes say; up to and including the first lapse the peer has seen exactly the requests, in order, each call is answered exactly if none of its acts failed, and each reply told is the reply to the caller's own request; if every hello, version, who_master and routing call succeeded there is no lapse, and the connection is at the end closed or at a boundary; without a lapse the run is in step up to the call that drops the connection, and refused after it |
| Client.NoRiskyFailureNoLapse | src/arakoon.c:287-350 | what a caller can tell from return codes: where no hello, version, who_master or routing call failed, nothing lapsed |
| Client.LeftoverReadsAsSuccess | src/arakoon-cluster-node.c:194-195 | what a lapse does: an unread empty message reads as the code zero, whatever the next reply is |
| Session.PerformStep | src/arakoon-cluster.c:275-287 | one call of a session, on whatever connection the master has: open, closed, or lost; it does what a call does, is told truly, on the socket behind the master's descriptor, and leaves the session in step unless it lapsed, which only a failed hello, version, who_master or routing call can |
| Session.SearchStep | src/arakoon-cluster.c:113-220 | one search of a session: a discovery, from the descriptors the nodes had; the peers see only prologues and questions; no connection gets out of step unless a peer answers with an error; after a success the master is open, and without such an error the last thing its peer said is its own name |
| Session.RunSession | src/arakoon-protocol.h:95-109 | any series of calls and searches, with connections lost and made again: step by step the acts on record are those of calls and discoveries, each from the master and the descriptor that the step before left, and each call tells what the bytes say; from the beginning, and from each successful search on, all calls go to the same socket until it is dropped or the next search; up to the first lapse every success is a peer's reply to the caller's own request, told exactly, and is on record in order; if every hello, version, who_master and routing call succeeded and no peer answered who_master with an error, nothing lapsed, no node is left out of step, and the peers have seen exactly this session |
| Session.NothingFailedNoneLapsed | src/arakoon-cluster.c:130-164 | what can be told from return codes and the peers' record: where no risky call failed and no peer answered a search with an error, nothing lapsed |
| Routing.TreeRoundTrip | src/arakoon-nursery-routing.c:223-255 | a printed tree parses back to itself and leaves exactly what follows |
| Routing.TableRoundTrip | src/arakoon-nursery-routing.c:223-320 | a printed tree and cluster table parse back to themselves and leave exactly what follows |
| Routing.TreeBytes | src/arakoon-nursery-routing.c:223-255 | one byte says leaf or not, and is followed by the name, or by the boundary and both subtrees |
| Routing.ClusterBytes | src/arakoon-nursery-routing.c:258-320 | counted lists of clusters, each a name and a counted list of nodes, each a name, an address and a port |
| Routing.LessByFirstDifference | src/arakoon-nursery-routing.c:343 | the order on keys: a proper prefix comes first, and otherwise the first difference decides |
| Routing.TruncatedCompare | src/arakoon-nursery-routing.c:343 | for a key without NULs the comparison stays within the boundary's buffer, and tells whether the key is below the boundary cut to the key's length |
| Routing.DescentIsScan | src/arakoon-nursery-routing.c:334-357 | for sorted boundaries the leaf reached is the one numbered by a linear scan with truncated comparison |
| Routing.ScanOvershoots | src/arakoon-nursery-routing.c:343 | that scan exceeds the true lexicographic interval by exactly the number of boundaries that properly extend the key |
| Routing.RoutedByInterval | src/arakoon-nursery-routing.c:334-357 | a key is routed to its true interval if and only if no boundary properly extends it |
| Routing.PrefixGoesRight | src/arakoon-nursery-routing.c:343-350 | a key that is a proper prefix of a boundary, and so below it, is routed to the right of it |
| RoutingParser.Cursor.ParseNode | src/arakoon-nursery-routing.c:223-255 | the recursive parser returns the tree at the cursor and moves it exactly past that tree |
| RoutingParser.ParseCluster | src/arakoon-nursery-routing.c:280-314 | builds a cluster whose node chain is the wire order reversed, each node with its name and address, and moves exactly past it |
| RoutingParser.ParseClusters | src/arakoon-nursery-routing.c:258-320 | builds all the listed clusters, in order, and moves exactly past the table |
| RoutingParser.ParseRouting | src/arakoon-nursery-routing.c:92-145 | a buffer that starts with a table is accepted if and only if nothing follows it, and then gives exactly its tree and clusters |
| RoutingParser.Nursery.Lookup | src/arakoon-nursery-routing.c:359-377 | the first cluster with the name at the key's leaf, or no cluster has that name |

## Left out

- Real sockets, `fcntl`, `poll` and clocks: `Kernels.Kernel` states what the code relies on and leaves every outcome open.
- Runs that never return, because wakeups stay fruitless forever: every run that ends is covered.
- Allocation failures (a NULL for an empty allocation among them), memory hooks, and the freeing of items and buffers.
- Address lookup: `getaddrinfo` succeeds and yields one address for a node of a routing table.
- Truncated routing buffers: the parser does no bounds checks, so it is given a buffer that starts with a table.
- Keys that contain a NUL, in routing only: `memcmp` may then read past the boundary's buffer.
- Protocol versions other than 1, and the protocol version a parsed cluster is created with.
- `arakoon_utils_make_string` on an empty string: it reallocates the placeholder pointer for empty data; the model returns an empty string.
- Lengths and counts of 2^32 and above, and the overflow of `long` in `time_delta`: the `*Fits` predicates bound the former.
- NULL arguments where the source asserts they are not NULL, logging, `arakoon_strerror`, option setters and getters: single-branch code.
- The partial results of a version call that fails halfway.
- The C++ wrapper, and get, set and delete of a nursery: each looks a cluster up and forwards the call.
- Servers beyond the form of their replies; in particular what a command does to the store, except for sequences.
- Peers that close a connection show only as failing calls; the bytes they had already sent can still be read.
- The routing tree is a value where the source has nodes on the heap; nothing updates it after it is parsed.
- Session.RunSession: after the stray close of descriptor 0 a node can hold a descriptor that is closed, or that now belongs to another node's connection; the replies told are then still those to the caller's own requests, but which socket gave them is not stated after a failed search, only by which descriptor they came.
