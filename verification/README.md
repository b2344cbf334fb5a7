# Verified models of the network-programming examples

Dafny models of the parts of this repository that carry state, loops or algebra, with proofs of
what they are for. `dafny verify dfyconfig.toml` checks the whole project.

- **Regular-expression engines** (`regex-vm/`). `RegexProgram` gives the bytecode its meaning as a
  step relation; Reach(k) is the set of program counters reachable after exactly k characters.
  `DepthFirst` says which points a depth-first search comes to. `Thompson`, `Backtracking` and
  `StackEngine` hold the four engines, `ThreadLimit` the exact conditions under which the
  explicit-stack engine ends and returns -1, and `RegexFamily` the program for a?^n a^n and the costs.
- **Checksums** (`crc/`). `BitDivision` is division of polynomials over GF(2) on bit sequences;
  `CrcRegister` is a shift register over any word type that obeys a few laws, with the theorems about
  its checksum; `MachineWords` shows that 8- and 16-bit machine words obey the laws; `Crc16` and
  `Crc8` are the programs. `TwoBitErrors` finds the distances at which two flipped bits go
  unnoticed, with the number theory it needs in `Periods`.
- **Flow tracker** (`flow-tracker/`). `FlowHash` (constant table, hash of a 4-tuple), `FlowTables`
  (the chained table against a finite map), `PortSpread` (how its lists share out ports),
  `FlowTracker` (the packet hook over whole traces) and `ConcurrentFlowTable` (the table's locked
  regions as interleaved steps).
- **Connection pool** (`traffic-gen-ns2/`): `ConnectionPool`.
- **Echo servers**: `DescriptorSlots`, `SelectServer`, `PollServers`.
- **Message exchange** (`simple-traffic-gen/`): `ExactTransfer` (the transfer loops), `Exchange` (both
  programs, call by call) and `ExchangePrograms` (their main loops, which make exactly such calls).
- **Chunked encoding** (`py-http-server/`): `ChunkedEncoding`, with a decoder that follows section
  7.1 of RFC 9112.
- **Fat-tree wiring** (`fattree-ns2/`): `FatTree`.

What the environment decides is a parameter: whether memory can be had (`allocOk`), what `accept`,
`select`, `read` and `write` return (`accepted`, `rset`, `nready`, `got`, `answer`), and the order of
arrivals, completions and thread steps. `Basics` holds small shared definitions.

Five findings about the code, all proved:

- Thompson's engine never looks at the thread list built from the last character, so on a string it
  answers what the backtrackers answer on the string without that character
  (`Backtracking.ThompsonLagsByOne`). The two agree on a subject exactly if a Match that needs the whole
  subject is not the only kind there is, and on every subject exactly if the program accepts none
  (`Backtracking.AgreeOnSubject`, `Backtracking.AgreeOnlyIfNothingIsAccepted`).
- `recursive` returns exactly if its search, up to the first Match, never comes to a point that it is
  still busy with (`Backtracking.RecursiveTerminates`). The explicit-stack engine ends there too, and
  where some path leads to a Split with 25 threads queued; in the second case, and in no other, it
  returns -1 (`ThreadLimit.EndsExactly`). In depth-first order this means: past no loop and before any
  Match (`ThreadLimit.BoundedSearchGivesUp`). It gives up on some programs where `recursive` runs
  forever (`StackEngine.GivesUpWhereRecursiveLoops`).
- As `insert_table` drops its lock between the check and the insertion, n threads can leave n entries
  for one flow; a flow is sure to have one entry exactly if at most one thread uses the table
  (`ConcurrentFlowTable.OneCopyOnlyAlone`). As the counter is changed outside the lock, it can be
  negative: 1 - n is its exact lower bound (`ConcurrentFlowTable.LowestCounter`).
- The connection pool is in order all along a run exactly if no arrival takes a connection that a
  queued send is about to use (`ConnectionPool.SimulationIsInOrder`). The scripts start one chain of
  arrivals per group, and each arrival queues its send before its successor, so this never happens
  there (`ConnectionPool.ChainedSimulationIsInOrder`).
- Two flipped bits escape CRC-16 exactly at distances that are multiples of 32767, and CRC-8 at multiples
  of 255 (`TwoBitErrors.MissedByCrc16`, `TwoBitErrors.MissedByCrc8`).

## Model

| member | source | states |
|---|---|---|
| RegexProgram.AcceptsIsMatchBefore | regex-vm/backtracking.cpp:18-42 | a Match can be reached from the start iff it is in some Reach(k) with k at most the subject's length |
| RegexProgram.ReachIsLeast | regex-vm/thompson.cpp:38-86 | Reach(k) is the least set that holds the successors by the k-th character and is closed under Jmp and Split |
| RegexProgram.ReachExtend | regex-vm/thompson.cpp:51-80 | characters after position k do not influence Reach(k) |
| RegexProgram.RankDecreases | regex-vm/backtracking.cpp:31-38 | without epsilon cycles every Jmp and Split makes progress: the rank that bounds the search goes down |
| DepthFirst.CallDescends | regex-vm/backtracking.cpp:18-42 | where the search has no loop ahead, each call lowers the number of points that it can still come to |
| DepthFirst.NoLoopFromCalls | regex-vm/backtracking.cpp:18-42 | a loop lies ahead of a call only if it lies ahead of one of the calls that it makes |
| DepthFirst.AcyclicNoLoop | regex-vm/backtracking.cpp:18-42 | programs without epsilon cycles are searched without a loop on every subject |
| Thompson.ThreadList.AddThread | regex-vm/thompson.cpp:24-35 | a thread is appended exactly if no identical one is listed; the order of the others is kept |
| Thompson.RunThread | regex-vm/thompson.cpp:53-72 | one thread stops the pass iff it is at a Match, and otherwise appends what it leads to to the right list |
| Thompson.RunPass | regex-vm/thompson.cpp:52-73 | for every program, epsilon cycles included: a pass stops at a Match iff one is in Reach(sp); otherwise the current list is exactly Reach(sp) and the next one exactly its character successors, both without duplicates; it runs as many threads as Reach(sp) has, or at most as many if it stops |
| Thompson.PassAdvances | regex-vm/thompson.cpp:53-72 | one thread of the pass keeps: everything listed is reachable, everything processed has its successors listed, nothing is listed twice |
| Thompson.PassComplete | regex-vm/thompson.cpp:53-79 | a pass that ran out of threads has found all of Reach(sp) |
| Thompson.DistinctLength | regex-vm/thompson.cpp:24-35 | a deduplicated list of threads is no longer than the program |
| Thompson.ThompsonVm | regex-vm/thompson.cpp:38-86 | returns 1 iff Match is in Reach(k) for some k strictly below the subject's length; if it returns 0 it has run exactly the sum of the sizes of all Reach(k), else no more than those up to the first Match; at most program length times subject length |
| Thompson.WorkBound | regex-vm/thompson.cpp:51-80 | k passes run at most k times as many threads as the program has instructions |
| Backtracking.Recursive | regex-vm/backtracking.cpp:18-42 | wherever it terminates, `recursive` answers 0 or 1, and 1 iff a Match is reachable |
| Backtracking.RecursiveTerminates | regex-vm/backtracking.cpp:18-42 | `recursive` returns iff its search, up to the first Match, never comes to a point that it is still busy with; the call depth it needs exists iff then |
| Backtracking.RecursiveMeaning | regex-vm/backtracking.cpp:18-42 | `recursive` answers 1 on a subject iff Match is in Reach(k) for some k up to and including its length |
| Backtracking.ThompsonLagsByOne | regex-vm/thompson.cpp:51-85 | Thompson's engine on s + [x] accepts iff `recursive` accepts s, for every non-NUL x |
| Backtracking.ThompsonImpliesRecursive | regex-vm/thompson.cpp:51-85 | what Thompson's engine accepts the backtrackers accept |
| Backtracking.AgreeOnSubject | regex-vm/thompson.cpp:51-85 | on every subject, the empty one included: both engines agree iff a Match that uses the whole subject comes with one that does not |
| Backtracking.AgreeOnlyIfNothingIsAccepted | regex-vm/thompson.cpp:51-85 | if `recursive` always terminates, both engines agree on every subject iff it accepts none |
| Backtracking.RecursiveLoop | regex-vm/backtracking.cpp:44-75 | terminates wherever `recursive` does and returns what it returns |
| StackEngine.SearchUnfolds | regex-vm/backtracking.cpp:96-127 | how the search of one thread goes on, instruction by instruction, with the threads queued below it |
| StackEngine.BoundedMeaning | regex-vm/backtracking.cpp:77-133 | a search that ends without giving up answers what `recursive` answers, which then terminates |
| StackEngine.GivesUpWhereRecursiveLoops | regex-vm/backtracking.cpp:34-38 | a two-instruction program on which `recursive` never returns and the stack engine gives up |
| StackEngine.ThreadMoves | regex-vm/backtracking.cpp:98-114 | moving the running thread keeps the pending answer and lowers the number of points still to visit |
| StackEngine.SplitQueues | regex-vm/backtracking.cpp:115-125 | queueing the second branch of a Split does the same |
| StackEngine.BacktrackingVm | regex-vm/backtracking.cpp:77-133 | whenever the search ends it terminates, stays within its 25 slots, and returns -1 or what `recursive` returns |
| ThreadLimit.RunsOutExactly | regex-vm/backtracking.cpp:115-119 | for every program: the stack engine's search answers -1 iff some path leads to a Split met with 25 threads queued, leaving behind only first branches that are loop-free and do not accept |
| ThreadLimit.EndsExactly | regex-vm/backtracking.cpp:77-133 | for every program: the search ends iff no loop lies ahead or there is such a path, and answers -1 iff there is |
| ThreadLimit.AcceptingWay | regex-vm/backtracking.cpp:34-38 | for every program: a Match is reachable iff some sequence of branch choices leads to one |
| ThreadLimit.BoundedSearchGivesUp | regex-vm/backtracking.cpp:115-119 | for every program: where the search ends it answers -1 iff some sequence of branch choices leads to a Split under 25 queued threads, past no loop and before any Match in depth-first order |
| ThreadLimit.FewSplitsNeverGiveUp | regex-vm/backtracking.cpp:79-119 | for every program: if no path on the subject meets more than 25 Splits the stack engine ends exactly where `recursive` does, with the same answer |
| RegexFamily.BuildProgram | regex-vm/main.cpp:23-40 | the construction loop fills the array with exactly the program of a?^n a^n |
| RegexFamily.FamilyIsAcyclic | regex-vm/main.cpp:26-40 | the constructed program is well formed and has no epsilon cycle |
| RegexFamily.RecursiveOnFamily | regex-vm/main.cpp:51-56 | the backtrackers accept exactly the subjects that start with n times 'a' |
| RegexFamily.ThompsonOnFamily | regex-vm/main.cpp:44-49 | Thompson's engine accepts exactly those of them that are longer than n |
| RegexFamily.EnginesDiffer | regex-vm/main.cpp:44-56 | on n times 'a' the backtrackers accept and Thompson's engine does not |
| RegexFamily.BacktrackingOnFamily | regex-vm/backtracking.cpp:115-119 | `backtrackingvm` returns -1 on the family iff n is at least 26 and the subject starts with 25 times 'a' |
| RegexFamily.RecursiveIsExponential | regex-vm/backtracking.cpp:34-38 | matching n times 'a' takes `recursive` exactly (n + 6) * 2^n / 2 - 2 calls, at least 2^n, and it does match |
| RegexFamily.RunDemo | regex-vm/main.cpp:9-59 | fails iff n <= 0; otherwise both verdicts in closed form, and Thompson's work bound |
| BitDivision.DivideIsRemainder | crc/crc16.c:44-63 | long division by shift and conditional xor computes the one remainder of degree below the generator's |
| BitDivision.TimesIsConvolution | crc/crc16.c:6-6 | the product in the definition of a remainder is the polynomial product over GF(2), coefficient by coefficient |
| BitDivision.ClearedOnlyByItself | crc/crc16.c:50-59 | a full register is cleared by the next width bits only if these are the register itself |
| CrcRegister.LookupIsByteStep | crc/crc16.c:35-37 | one table lookup does what eight shift-and-xor steps do, for every lawful register |
| CrcRegister.CrcIsRemainder | crc/crc16.c:44-63 | the bytewise register holds the remainder of the message times x^width, for every generator and message |
| MachineWords.StepIs16 | crc/crc16.c:53-58 | the program's mask, shift and conditional xor on 16-bit words is one step of the division |
| MachineWords.LookupIs16 | crc/crc16.c:35-37 | the 16-bit lookup expression is the register's step by one byte |
| MachineWords.StepIs8 | crc/crc8.c:47-52 | the same on 8-bit words |
| Crc16.ShiftByte | crc/crc16.c:52-59 | the inner loop takes eight steps of the division |
| Crc16.GenLookupTable | crc/crc16.c:8-24 | fills every entry with the register's value after eight steps from that byte on top |
| Crc16.Crc16Simple | crc/crc16.c:44-63 | the bitwise program computes the checksum of the first len bytes |
| Crc16.Crc16LookupTable | crc/crc16.c:27-41 | the table program computes the same checksum, given the generated table |
| Crc16.ChecksumIsRemainder | crc/crc16.c:43-63 | a word is the checksum iff it is the remainder of M(x) x^16 by x^16 + x^12 + x^5 + 1 |
| Crc16.ChecksumIsLinear | crc/crc16.c:44-63 | the checksum of the xor of equally long messages is the xor of their checksums |
| Crc16.BurstIsDetected | crc/crc16.c:44-63 | equally long messages that differ, and only within 16 consecutive bits, have different checksums |
| Crc16.SeventeenBitBurst | crc/crc16.c:6-6 | of the differences that span 17 bits exactly the generator itself goes unnoticed |
| Crc16.ChecksumKeepsParity | crc/crc16.c:6-6 | the parity of the checksum is the parity of the message |
| Crc16.AppendedChecksum | crc/crc16.c:27-41 | two appended bytes make the checksum zero iff they are its high and its low byte |
| Crc8.ShiftByte | crc/crc8.c:46-53 | the inner loop takes eight steps of the division |
| Crc8.GenLookupTable | crc/crc8.c:6-22 | fills every entry with the register's value after eight steps from that byte |
| Crc8.Crc8Simple | crc/crc8.c:39-57 | the bitwise program computes the checksum of the first len bytes |
| Crc8.Crc8LookupTable | crc/crc8.c:25-36 | the table program computes the same checksum, given the generated table |
| Crc8.ChecksumIsRemainder | crc/crc8.c:38-57 | a byte is the checksum iff it is the remainder of M(x) x^8 by x^8 + x^4 + x^3 + x^2 + 1 |
| Crc8.ChecksumIsLinear | crc/crc8.c:39-57 | the checksum of the xor of equally long messages is the xor of their checksums |
| Crc8.BurstIsDetected | crc/crc8.c:39-57 | equally long messages that differ, and only within 8 consecutive bits, have different checksums |
| Crc8.NineBitBurst | crc/crc8.c:4-4 | of the differences that span 9 bits exactly the generator itself goes unnoticed |
| Crc8.AppendedChecksum | crc/crc8.c:25-36 | an appended byte makes the checksum zero iff it is the checksum |
| BitDivision.TwoBitsDetected | crc/crc16.c:50-59 | two flipped bits leave the remainder alone iff the generator's own remainder comes back after as many steps as they are apart |
| TwoBitErrors.StepsOfMulStep | crc/crc16.c:53-58 | the division's step commutes with Horner's rule, so powers of x multiply like polynomials |
| TwoBitErrors.Order16 | crc/crc16.c:6-6 | the order of x modulo the CRC-16 generator is 32767 |
| TwoBitErrors.MissedByCrc16 | crc/crc16.c:44-63 | equally long messages that differ in exactly two bits have the same CRC-16 iff the distance of the bits is a multiple of 32767 |
| TwoBitErrors.Order8 | crc/crc8.c:4-4 | the order of x modulo the CRC-8 generator is 255 |
| TwoBitErrors.MissedByCrc8 | crc/crc8.c:39-57 | the same for CRC-8 and multiples of 255 |
| FlowHash.ConstantDoubles | flow-tracker/crc_table.h:1-34 | entries 2i and 2i + 1 of the constant table follow from entry i by one division step |
| FlowHash.ConstantIsEntry | flow-tracker/crc_table.h:1-34 | every entry of the constant table is the one that crc16.c would generate |
| FlowHash.KernelCrc16 | flow-tracker/flow_table.c:5-23 | the module's crc16 with its constant table computes the CRC-16 checksum, and 0 for a null pointer |
| FlowHash.HalfwordValue | flow-tracker/flow_table.c:26-30 | which byte of a half-word comes first in the hashed message, on hosts of either byte order |
| FlowHash.FieldsInOrder | flow-tracker/flow_table.c:26-30 | on a big-endian host the hashed message is, bit for bit, the two addresses and the two ports side by side |
| FlowHash.OneHalfwordSeparates | flow-tracker/flow_table.c:25-32 | flows whose six hashed half-words differ in exactly one, be it half of an address or a port, have different hashes, on hosts of either byte order |
| FlowHash.RemotePortsSeparate | flow-tracker/flow_table.c:25-32 | flows that differ in the remote port only have different hashes, on hosts of either byte order |
| FlowHash.LocalPortsSeparate | flow-tracker/flow_table.c:25-32 | the same for the local port |
| FlowTables.BucketInRange | flow-tracker/flow_table.c:82-82 | for every number of bits from 0 to 16 the list index is below 2^bits |
| PortSpread.PortsAreSpreadEvenly | flow-tracker/flow_table.c:82-82 | for every table size, of the 65536 flows that differ in one port only each of the 2^bits lists gets exactly 2^(16-bits) |
| FlowTables.InsertKeepsChains | flow-tracker/flow_table.c:107-111 | adding at the head of the right chain keeps: each entry is in its hash bucket, chains and map agree, no entry is linked twice |
| FlowTables.DeleteKeepsChains | flow-tracker/flow_table.c:150-156 | unlinking an entry keeps the same, with its flow gone from the map |
| FlowTables.FlowTable.InitTable | flow-tracker/flow_table.c:34-62 | succeeds iff bits is at most 16 and memory can be had; the table is then empty |
| FlowTables.FlowTable.Locate | flow-tracker/flow_table.c:119-134 | the chain walk stops at the flow's entry, or at the end of the chain iff the map does not have the flow |
| FlowTables.FlowTable.InsertTable | flow-tracker/flow_table.c:80-115 | succeeds iff the flow is absent and memory can be had; then exactly this flow is added with its byte count, and the counter is the map's size |
| FlowTables.FlowTable.SearchTable | flow-tracker/flow_table.c:117-137 | finds exactly the map's entry for the flow, or null |
| FlowTables.FlowTable.DeleteTable | flow-tracker/flow_table.c:139-165 | succeeds iff the flow is present; then exactly this flow is removed, and the counter is the map's size |
| FlowTracker.HookFuncOut | flow-tracker/main.c:24-82 | by the packet's own fields: no effect on packets that are not TCP, whose device name differs from the given one within 16 characters, or with neither port the given one; of the others a SYN enters an absent flow, a FIN or RST removes a present one, any other adds its length modulo 2^32 |
| FlowTracker.TrackedIff | flow-tracker/main.c:34-44 | the three tests of the hook on the packet's own fields |
| FlowTracker.ClipsAgree | flow-tracker/main.c:34-34 | two device names count as equal iff they agree at each of 16 positions, read with NUL after the end |
| FlowTracker.HostPortIs | flow-tracker/main.c:42-43 | on hosts of either byte order a compared port is 256 times its first byte in memory plus its second |
| FlowTracker.HookStepIs | flow-tracker/main.c:34-81 | the same for the step that the results on traces are about |
| FlowTracker.HandlePacket | flow-tracker/main.c:46-81 | insertion by SYN, removal by FIN or RST, and counting, in that order of precedence |
| FlowTracker.AddBytes | flow-tracker/main.c:79-79 | the in-place update adds modulo 2^32 to one flow's count and leaves every other count alone |
| FlowTracker.FlowsAreIsolated | flow-tracker/main.c:37-82 | after every trace the table restricted to a flow is what that flow's packets alone produce |
| FlowTracker.BytesAreAccounted | flow-tracker/main.c:37-82 | a flow in the table holds the sum modulo 2^32 of the lengths of its packets from the one that inserted it |
| FlowTracker.PresentUntilFinOrRst | flow-tracker/main.c:52-68 | a flow is in the table iff a SYN entered it and none of its later packets was a FIN or RST |
| ConcurrentFlowTable.StepKeepsCounted | flow-tracker/flow_table.c:109-112 | every step keeps: the counter is the number of entries less those not yet counted plus those no longer linked but still counted |
| ConcurrentFlowTable.StepOnEntries | flow-tracker/flow_table.c:80-165 | what each step does to the entries, the counter and its thread, wherever in their chains the entries are; a check passes iff the flow is absent, a delete takes out one entry iff there is one |
| ConcurrentFlowTable.RunKeepsInv | flow-tracker/flow_table.c:80-165 | in every interleaving of the steps that StepOnEntries describes: the counter as above, every entry in its bucket, and per flow at most as many copies and pending insertions as threads |
| ConcurrentFlowTable.QuiescentCount | flow-tracker/flow_table.c:112-159 | whenever no thread is inside an operation the counter is the number of entries |
| ConcurrentFlowTable.SerialisedRunKeepsOneCopy | flow-tracker/flow_table.c:90-111 | if no insertion of a flow starts while another one of it is pending, no flow ever has two entries |
| ConcurrentFlowTable.AsManyCopiesAsThreads | flow-tracker/flow_table.c:90-111 | n threads have a run that leaves n entries for any one flow |
| ConcurrentFlowTable.OneCopyOnlyAlone | flow-tracker/flow_table.c:90-111 | a flow is sure to have at most one entry iff at most one thread uses the table |
| ConcurrentFlowTable.CounterLowerBound | flow-tracker/flow_table.c:109-159 | in every interleaving of n threads the counter is at least 1 - n |
| ConcurrentFlowTable.CounterReaches | flow-tracker/flow_table.c:109-159 | some run of n threads takes the counter to -m, for every m below n |
| ConcurrentFlowTable.LowestCounter | flow-tracker/flow_table.c:109-159 | a number bounds the counter from below in all runs of n threads iff it is at most 1 - n |
| ConcurrentFlowTable.SoloInsert | flow-tracker/flow_table.c:80-115 | the steps of one undisturbed insertion add one entry and one to the counter iff the flow was absent |
| ConcurrentFlowTable.SoloInsertWithoutMemory | flow-tracker/flow_table.c:96-106 | an insertion that gets no memory changes nothing |
| ConcurrentFlowTable.SoloDelete | flow-tracker/flow_table.c:139-165 | the steps of one undisturbed deletion take out one entry and one from the counter iff the flow has an entry |
| ConnectionPool.AggrPair.Setup | traffic-gen-ns2/tcp-traffic-gen.tcl:174-201 | a group starts with nr free connections and consecutive flow ids |
| ConnectionPool.AggrPair.ScheduleFlow | traffic-gen-ns2/tcp-traffic-gen.tcl:246-302 | an arrival's effect: nothing once all flows are generated, a new connection if the counter says all are busy, else the first free one; the flow-id counter goes up by the number of new connections, and a new one gets its old value |
| ConnectionPool.AggrPair.Send | traffic-gen-ns2/tcp-traffic-gen.tcl:102-117 | marks exactly this connection busy |
| ConnectionPool.AggrPair.FinNotify | traffic-gen-ns2/tcp-traffic-gen.tcl:137-334 | frees exactly this connection, counts the finished flow, and finishes the simulation at the last one |
| ConnectionPool.FreePairIsFound | traffic-gen-ns2/tcp-traffic-gen.tcl:283-290 | the search in the else branch always finds a free connection, with any number of sends queued |
| ConnectionPool.ArrivalKeepsPool | traffic-gen-ns2/tcp-traffic-gen.tcl:259-302 | an arrival keeps its group in order (sends queued for different free connections, the counter counting busy connections and queued sends, the group as large as the larger of its initial size and its peak) iff it does not choose a connection with a queued send |
| ConnectionPool.StepKeepsPools | traffic-gen-ns2/tcp-traffic-gen.tcl:102-334 | sends in any order and completions at any time always keep a group in order, an arrival exactly under that condition |
| ConnectionPool.StepKeepsInv | traffic-gen-ns2/tcp-traffic-gen.tcl:246-334 | an event keeps everything in order (groups; busy counters sum to generated less finished flows; generated flows within the total; the flow ids exactly those from 0 up to the id counter, once each, and that counter the number of connections; finished iff the last flow is) iff it is not an arrival that takes a connection with a queued send |
| ConnectionPool.SimulationIsInOrder | traffic-gen-ns2/tcp-traffic-gen.tcl:174-334 | for every order of events from the set-up: all of this holds all along iff no arrival takes a connection with a queued send |
| ConnectionPool.ChainedSimulationIsInOrder | traffic-gen-ns2/tcp-traffic-gen.tcl:237-308 | it holds all along whenever each group has one chain of arrivals and its own events run in the order in which they were queued |
| ConnectionPool.CounterIsRightIffFresh | traffic-gen-ns2/tcp-traffic-gen.tcl:283-302 | after an arrival and all queued sends the busy counter equals the busy connections iff the arrival took no connection with a queued send |
| ConnectionPool.UnsentConnectionIsTakenAgain | traffic-gen-ns2/tcp-traffic-gen.tcl:283-302 | of two arrivals with no send in between, the second takes the first one's connection iff two or more were free |
| ConnectionPool.OvertakenSend | traffic-gen-ns2/tcp-traffic-gen.tcl:283-302 | a concrete run of two arrivals before their sends: when both sends have run one connection is busy and the counter says 2 |
| DescriptorSlots.FreeSlotExists | select-echo-server/select-echo-server.c:131-135 | pigeonhole: while one descriptor below the table's size is not in the table, a slot is free |
| SelectServer.ReadyCount | select-echo-server/select-echo-server.c:104-183 | the ready descriptors apart from the listening socket are exactly the clients that the scan meets, and as many |
| SelectServer.ScanStep | select-echo-server/select-echo-server.c:155-183 | one slot of the scan serves its client iff it is ready and keeps the countdown equal to the ready clients to come |
| SelectServer.ScanEnds | select-echo-server/select-echo-server.c:179-183 | the scan ends only when every ready client has been served, whether by countdown or past the highest slot |
| SelectServer.Server.constructor | select-echo-server/select-echo-server.c:90-100 | the initial state: no client, the listening socket in the set |
| SelectServer.Server.AddClient | select-echo-server/select-echo-server.c:123-146 | a new client goes into the first free slot and into the set; the branch for too many clients is never taken |
| SelectServer.Server.ServeClients | select-echo-server/select-echo-server.c:154-184 | the scan serves exactly the ready clients, in slot order and once each; exactly those of them at end of file or with an error lose their slots and leave the set |
| SelectServer.Server.Turn | select-echo-server/select-echo-server.c:102-186 | a turn of the main loop keeps: the set is the listening socket and the clients, entries are distinct, slots above maxi are free; it fails iff accept does; otherwise every ready client is served exactly once, the accepted client is added, those at end of file or with an error lose their slots and leave the set, and every other slot stays |
| PollServers.PollServer.constructor | poll-echo-server/poll-echo-server.c:92-99 | the listening socket is in slot 0, every other slot is free |
| PollServers.PollServer.Accept | poll-echo-server/poll-echo-server.c:120-139 | a connection goes into the first free slot, never slot 0 and never one past the table, and maxi covers it |
| PollServers.PollServer.Close | poll-echo-server/poll-echo-server.c:156-167 | closing a client frees its slot only and keeps the table in order |
| ExactTransfer.CallOf | simple-traffic-gen/common.c:4-34 | no call of a transfer moves more than one call may; each moves all that the socket would, unless it reaches that limit, the end of the transfer or the end of what there is |
| ExactTransfer.WriteExact | simple-traffic-gen/common.c:4-34 | writes a prefix of the buffer; fewer bytes than asked for iff the last call failed, and no earlier call did; all of them if no call fails; 0 for a null buffer |
| ExactTransfer.ReadExact | simple-traffic-gen/common.c:36-66 | takes exactly the bytes it reports off the stream and puts them into the buffer in order, leaving the rest of the buffer alone; fewer than asked for iff the last call failed |
| Exchange.SizesSurvive | simple-traffic-gen/server.c:65-69 | every 32-bit message size survives its four bytes |
| Exchange.SizeField | simple-traffic-gen/server.c:65-69 | the size field has four bytes, of weights 1, 256, 65536 and 16777216 in this order |
| Exchange.StepKeepsInv | simple-traffic-gen/server.c:64-83 | every call keeps: the server starts to parse a size where the client started to write one, and what is under way is what one side has sent and the other has not read |
| Exchange.StopsOnlyFinished | simple-traffic-gen/client.c:57-79 | no reachable state is a deadlock: some call can move a byte until both programs have succeeded |
| Exchange.StepApproachesEnd | simple-traffic-gen/common.c:18-31 | each call that moves n bytes lowers the work left by n |
| Exchange.EveryRunSucceeds | simple-traffic-gen/server.c:62-85 | whatever the short reads and writes: a run is bounded, stops exactly when both succeed, has then moved every byte, the server has counted the client's iters, and both channels are empty |
| ExchangePrograms.ClientCalls | simple-traffic-gen/client.c:57-79 | the calls of one transfer of the client take it from state to state of the exchange, as its socket grants them |
| ExchangePrograms.TransferWrites | simple-traffic-gen/client.c:58-61 | what a transfer of the client writes is its size field, as far as the transfer got |
| ExchangePrograms.RunClient | simple-traffic-gen/client.c:48-79 | the client's main loop: its successful calls, those and no others on the socket, are a trace of the exchange that follows what the socket grants and goes on until the client is done or a call fails; on success and on failure it has written exactly what they write; on success its requests and the final 0 |
| ExchangePrograms.RunServer | simple-traffic-gen/server.c:62-83 | the server's main loop terminates; its successful calls are a trace of the exchange in the same sense, the replies in it are as many bytes as it has written, it succeeds iff it is done, and reports the messages it sent |
| ExchangePrograms.ClientIsDetermined | simple-traffic-gen/client.c:48-79 | a socket's answers determine the client's calls |
| ExchangePrograms.ServerIsDetermined | simple-traffic-gen/server.c:62-83 | a socket's answers and its stream determine the server's calls |
| ExchangePrograms.RunsAreTraces | simple-traffic-gen/server.c:62-83 | in every run of the exchange each program's actions are a trace of that program, the server reading what the client writes |
| ExchangePrograms.Replay | simple-traffic-gen/client.c:48-79 | for every run of the exchange: on sockets that answer as the run tells, the two main loops make exactly its calls, the client writes exactly its bytes and the server as many, and each succeeds iff the run gets it to its end |
| ChunkedEncoding.HexRoundTrip | py-http-server/http-server.py:132-132 | parsing what "%x" prints gives the number back |
| ChunkedEncoding.HexUnfolds | py-http-server/http-server.py:132-132 | the digits of "%x", from the most significant down |
| ChunkedEncoding.HexDigits | py-http-server/http-server.py:132-132 | "%x" prints lower-case digits without a leading zero |
| ChunkedEncoding.FrameSpelled | py-http-server/http-server.py:121-136 | the bytes sent, spelled out: for an empty body, for one of up to 1024 bytes, and for a longer one in terms of the rest after its first 1024 bytes |
| ChunkedEncoding.SendChunked | py-http-server/http-server.py:121-136 | the loop sends the body's chunks and the final empty one, spelled out with their line ends; a receiver decodes exactly the body |
| ChunkedEncoding.ChunksOfBody | py-http-server/http-server.py:122-131 | the chunks are the body in order, none is empty, all but the last hold 1024 bytes, and there are as many as needed |
| ChunkedEncoding.RoundTrip | py-http-server/http-server.py:119-136 | for every body and whatever follows: the decoder returns the body and leaves exactly what follows |
| ChunkedEncoding.DecodeExtends | py-http-server/http-server.py:135-136 | bytes that arrive later never change what was decoded |
| ChunkedEncoding.CutOffIsIncomplete | py-http-server/http-server.py:135-136 | no proper prefix of a response decodes as a complete one |
| ChunkedEncoding.BackToBack | py-http-server/http-server.py:119-136 | two responses sent one after the other decode to their two bodies |
| FatTree.Sizes | fattree-ns2/fattree.tcl:22-26 | all sizes of the topology in terms of half the number of ports, without rounding loss for even k |
| FatTree.PortsForServers | fattree-ns2/fattree.tcl:22-24 | edge switches times servers per switch is the number of servers |
| FatTree.WireServers | fattree-ns2/fattree.tcl:60-64 | every server gets exactly one link, to the edge switch whose range of servers it is in |
| FatTree.WireRange | fattree-ns2/fattree.tcl:73-75 | the inner loop links one switch to each switch of a range, once, and keeps all other links |
| FatTree.WireEdges | fattree-ns2/fattree.tcl:66-76 | edge and aggregation switches are linked, once each, exactly within a pod |
| FatTree.WireCores | fattree-ns2/fattree.tcl:78-88 | the q-th aggregation switch of every pod is linked, once each, to exactly the q-th group of cores |
| FatTree.OneLinkPerPod | fattree-ns2/fattree.tcl:79-88 | every core has exactly one link into every pod |
| FatTree.PodPartitionsCores | fattree-ns2/fattree.tcl:79-88 | the aggregation switches of a pod share out the cores: no core twice, none left over |
| FatTree.PathCount | fattree-ns2/fattree.tcl:66-88 | between any two edge switches there are exactly (k/2)^2 paths through the cores |
| FatTree.ShorterOnlyWithinPod | fattree-ns2/fattree.tcl:66-76 | edge switches have a common aggregation switch iff they are in one pod |

## Left out

- Real sockets, kernel hooks, netlink, mmap, `dlopen` and `malloc` interposers, the JIT demo and the wrappers around other regular-expression libraries: foreign calls without logic of their own.
- HTTP request parsing, gzip, file access; argument parsing of the command-line programs; output to terminals and logs.
- Random variables, simulated time, TCP itself and the warm-up of the ns-2 scripts; `fattree_empirical.tcl`, whose topology repeats `fattree.tcl`.
- Binary search, vector arithmetic, shuffling, CDF sampling, signal demos and benchmarks: they would only add easy members.
- Invalid opcodes, `Char` with code 0 and jumps out of the program: excluded by `WellFormed`, as the engines do not check them. Char codes are characters here, so the sign of C's `char` plays no role.
- The inner loops of the engines, of the checksums and of the wiring, the chain walk that insert, search and delete each repeat, and single branches of longer functions are methods of their own here (RunThread, RunPass, ShiftByte, ShiftIndex, LookupByte, Locate, InsertTableAt, UnlinkEntry, NotInserted, CountPacket, AddBytes, ServeReady, ServeSlot, WriteSome, ReadSome, ReadInto, Round, NextSize, NextMessage, NextRequest, NextReply, WireRange).
- Thompson.ThreadList.AddThread: the two vectors are objects that are swapped as in the source; freeing them is not modelled.
- Backtracking.RecursiveLoop: the depth of C's call stack is not bounded.
- FlowTables.FlowTable.InsertTable: chains are sequences held in an array, not linked list nodes; the four compared fields are one key. The table's hash is a field that the constructor sets to the flow hash, so that the table is correct for any 16-bit hash. The sequential table does not model locks.
- ConcurrentFlowTable.RunKeepsInv: a locked region is one step; that `search_table` and a caller holding an entry can meet its `kfree` is not modelled, and neither are spinlock internals.
- FlowTracker.HookFuncOut: runs sequentially; packet headers are given as fields, and device names are strings without NUL. Cutting the device parameter at a newline when the module is loaded and freeing the table at module exit is left out.
- ConnectionPool.ChainedSimulationIsInOrder: that the simulator runs events of one time in the order in which they were queued is assumed; the scheduler is not modelled.
- SelectServer.Server.Turn: assumes that accept returns descriptors that are not in the set and below FD_SETSIZE, and that select reports a subset of the set together with its size. Echoing what was read is not modelled.
- PollServers.PollServer.Accept: assumes descriptors below OPEN_MAX, fresh from accept. Only slot properties: `revents` of a slot that was never polled has no value to reason about, so there is no claim on who is served. The `events` of unused slots, indeterminate in the source, are false here.
- ExactTransfer.WriteExact: sizes are unbounded; that `int n` could overflow for calls of 2 GiB and more is not modelled. With a dummy buffer only the number of bytes is stated, as the header promises no content; so of the server's replies only the number of bytes is.
- Exchange.EveryRunSucceeds: assumes no errors, and that both hosts have the same byte order, as the programs send sizes in the host's order. What a call moves is an arbitrary positive number of bytes.
- ChunkedEncoding.RoundTrip: bytes are characters; the header line and compression of the body are left out.
- FatTree.PortsForServers: for even k, as the topology is defined; the oversubscription ratio is a whole number.
