# Verified models of pmacct's stateful components

A Dafny model of the parts of pmacct whose correctness depends on state kept over many steps, with proofs about
every reachable state or every run: the flow and fragment tables, BGP/BMP high availability, the in-memory
accounting table, AMQP batching of JSON records, Base64, and the Jenkins hash.

* **Flow table and fragment table** (`src/ip_flow.c`, `src/ip_frag.c`). Both keep each node in two doubly linked
  lists at once, a hash-bucket chain and a global LRU list. `TwinLists` models that structure once, on the heap, with
  the same pointer surgery; its predicate `Links` says that the chains and the LRU list hold exactly the same nodes,
  each once, with mutually inverse links and a correct tail. `FlowTable` and `FragTable` are the two tables over it;
  their `Valid` adds unique keys in the right bucket, the node counter (`live + free == capacity`), and for fragments
  the order of the LRU list by deadline. `FlowSpec` and `FragSpec` say what each packet does to the table seen as a
  bounded map, and prove what holds over runs of such steps; each table has a method `Process` that takes any sequence
  of packets through the heap and returns the run they make. The IPv4 and IPv6 twins are one model: an address is its
  sequence of 32-bit words. `FlowLifetimes` says in seconds how long each kind of flow lives, and that the table keeps it
  so long. `TableHash` has the hash functions of both, and the two tables as the program sets them up.
* **High availability** (`src/ha.c`). `HaSpec` is a transition system: N daemons, a key store with expiry, a clock that
  never goes back, and for each daemon the handler, the receiver, the queue sweep and the dump as interleaved atomic
  steps, with the signals. `HaQueue` proves that every message is in exactly one place, `HaElection` that the election
  converges from start-up, `HaFailover` that a failover to a standby that runs its handler regularly loses nothing, and
  `HaTight` that its bound on the timeout cannot be improved. `HaForwarding` writes out what handler runs, dumps and
  signals do. `HaDaemon` is one daemon as the program runs it, with
  loops, proved to take exactly those steps.
* **Accounting table** (`src/acct.c`, `src/imt_plugin.c`). `AcctTable` has the chains, the last-used shortcut and the
  pool that can run out, on the heap; it refines the map of `AcctSpec`, about which sums, conservation and per-host
  counting are proved. Its methods `Process` and `ProcessHosts` take any sequence of records through the heap, so these
  results hold of the table's own contents.
* **AMQP batching** (`src/amqp_plugin.c`). `AmqpBatch` has the bounded character buffer and the publishing loop.
* **Base64** and **Jenkins hash** (`src/base64.c`, `src/jhash.h`). `Base64` and `Jhash` have the loops over buffers and
  words, and the round trip, the allocation bound, the bijection of the mixing step and the agreement of the two hashes.
  `Base64Bits` and `JhashExact` say which bits each character and each word carries.

`SeqFilter` and `MapFacts` hold facts about sequences and maps that the tables use, `Wrappers` the option type.

Where the code does not do what one would expect, the model follows the code:

* Emptying the fragment LRU list by pruning resets `last` but leaves the sentinel's link at a freed node
  (`src/ip_frag.c:276`), and the next prune reads that node unless a datagram is stored first. Every node has a mark
  for `free()`; `Handler` returns whether the code is about to read a marked node, and `Faults` says exactly when: the
  link is stale and the periodic prune is due, or the link is or becomes stale and an emergency prune is due without
  memory. `StaleExactly` says when the link is stale: the table is empty, but has held something.
  `EmptyingLeavesDanglingLink` gets there in two fragments. The flow table's prune never meets a freed node.
* The deadline of the periodic fragment prune is computed in 32 bits (`src/ip_frag.c:78`) and wraps in the last two hours
  of the clock. From then on every fragment prunes, so every fragment faults once the link dangles
  (`WrappedDeadlineFaults`).
* A recycled fragment node keeps its first-fragment mark and its packet count (`src/ip_frag.c:185-194`);
  `RecycledLikeFreshExactly` says exactly when that shows.
* An accounting key is compared by the sub-records that both sides have. That is an equality among the elements of the
  table if and only if the given key has every sub-record (`MatchIsEqualityExactly`), as what the driver passes has.
* A row without packets and bytes reads as a free slot (`src/acct.c:198`), so the next new key of its chain takes it over,
  with its flow counter and flags. `Inserted` has this case; totals are conserved even so (`CountersConserved`), and the
  table sums up what was stored exactly as long as it does not happen (`SummarisesExactly`).
* A row can also become free in mid-chain: by a record without packets and bytes after a reset request. `Insert` keeps the
  table well formed if and only if this does not happen; if it does, the next record of any key further down the chain is
  stored a second time (`StoredTwice`, `EmptyRecordSplitsKey`).
* A flow records its bucket in 16 bits (`src/ip_flow.h:48`). `Unlink` shows that taking out the first node of a chain goes
  wrong exactly if the recorded bucket is another one, `RecordedExactly` that at most 65536 buckets rule that out, and
  `WrongBucket` that any more leave a bucket pointing at a freed node.
* The documentation's "dropped" for stand-by daemons (`docs/README_BGP_BMP_HA.md:102`) means queued; the queue's age
  limit is a strict comparison (`src/ha.c:178`).

## Model

| member | source | states |
|---|---|---|
| FlowKeys.AddrCmp | src/addr.c:645-659 | the chunk loop computes the word-by-word comparison |
| FlowKeys.CmpZeroIsEqual | src/addr.c:645-659 | it is zero exactly for equal addresses, and antisymmetric |
| FlowKeys.CmpTransitive | src/addr.c:645-659 | it is transitive, so a total order |
| FlowKeys.Normalize | src/ip_flow.c:314-343 | swapping in place yields the canonical key and the packet's direction |
| FlowKeys.CanonicalPairsMirrors | src/ip_flow.c:314-343 | two keys have one canonical key exactly when equal or mirror images; directions coincide only for identical endpoints |
| FlowKeys.CmpLexicographic | src/addr.c:645-659 | positive exactly if the first address is larger in the first word in which they differ, negative exactly if the second is |
| FlowKeys.CanonicalOrder | src/ip_flow.c:314-343 | the endpoint with the smaller port, then the smaller address, goes second; the packet is a reverse one exactly if that was swapping |
| FlowState.TcpStepKeepsFlags | src/ip_flow.c:95-126 | in every reachable state a nonzero flag byte contains SYN, FIN or RST |
| FlowState.EstablishedExactly | src/ip_flow.c:99-111 | a half-open direction becomes ESTABLISHED exactly on a handshake-completing segment without SYN, FIN or RST |
| FlowState.Handshake | src/ip_flow.c:99-118 | SYN, SYN+ACK and the matching ACK lead from any state to ESTABLISHED in both directions |
| FlowState.FinEndsBoth | src/ip_flow.c:120-123 | after FIN or RST both directions are on a short lifetime, whatever their state was |
| FlowState.ExpiryIsFinal | src/ip_flow.c:370-388 | a direction is alive when its packet arrives, and once expired stays so until the next one |
| FlowState.NotImmortal | src/ip_flow.c:357-388 | a record untouched since t is expired after the longest lifetime |
| FlowSpec.LiveFlowsSurvive | src/ip_flow.c:175-254 | a packet never evicts or changes another flow that is alive in either direction |
| FlowSpec.ArrivalIsStored | src/ip_flow.c:154-266 | a packet's flow is in the table afterwards exactly if it was known or is reported new, and is then alive |
| FlowSpec.KnownExactly | src/ip_flow.c:151-174 | a packet of a known flow changes no other, and is reported new exactly if its direction has expired |
| FlowSpec.AdmittedExactly | src/ip_flow.c:188-254 | another one is admitted, and reported new, exactly if the table is not full and there is memory or an expired flow of its bucket |
| FlowSpec.ReplacesExactly | src/ip_flow.c:175-254 | it takes the place of one such flow if there is one, and of nothing else |
| FlowSpec.RefusedDropsExactly | src/ip_flow.c:188-196 | a refused packet drops exactly the expired flows, if an emergency prune is due |
| FlowSpec.PacedNext | src/ip_flow.c:81-93 | a run with its hourly and emergency prunes, packet by packet |
| FlowSpec.StepKeepsBound | src/ip_flow.c:188-254 | the table never exceeds its capacity, and a packet adds at most one flow |
| FlowSpec.MirrorMeetsSameRecord | src/ip_flow.c:145-153 | a packet and its mirror image meet the same record, with opposite indices unless the endpoints coincide |
| FlowSpec.StepKeepsOk | src/ip_flow.c:136-267 | every packet keeps all records of the table mortal |
| FlowSpec.NoFlowIsImmortal | src/ip_flow.c:136-312 | over any run without packets of a flow its record stays as it was, and a late enough prune drops it |
| FlowSpec.LiveFlowKeepsRecord | src/ip_flow.c:81-312 | over any run, with any other traffic, prunes and failures, a live flow without packets keeps its record |
| FlowLifetimes.Touched | src/ip_flow.c:157-169 | a packet sets its own direction's time and leaves the other's |
| FlowLifetimes.OtherProtocolLives | src/ip_flow.c:383-385 | other protocols than TCP: a direction is expired if and only if the generic lifetime has passed since its last packet |
| FlowLifetimes.FlagsLive | src/ip_flow.c:373-382 | TCP: 10 seconds with RST, else 30 with FIN, else 60 with SYN, else the established lifetime |
| FlowLifetimes.EndedLives | src/ip_flow.c:120-123 | after a FIN or RST segment both directions live 30 or 10 seconds, each from its own last packet |
| FlowLifetimes.SynLives | src/ip_flow.c:114-118 | after a SYN, with or without ACK, its direction lives 60 seconds |
| FlowLifetimes.PlainLives | src/ip_flow.c:95-126 | another segment that completes no handshake leaves its live direction the lifetime of its flags |
| FlowLifetimes.StaleLives | src/ip_flow.c:163-170 | in an expired direction it starts over, as established |
| FlowLifetimes.EstablishedLives | src/ip_flow.c:99-118 | after SYN, SYN+ACK and ACK each direction lives for the established lifetime |
| FlowLifetimes.LaterOfBoth | src/ip_flow.c:357-366 | a flow is expired exactly when its longer-lived direction is |
| FlowLifetimes.OthersPacket | src/ip_flow.c:175-312 | a packet of another flow leaves a flow as it is; only a prune after its lifetime may not |
| FlowLifetimes.KeptExactly | src/ip_flow.c:81-312 | over any run without its packets a flow is kept, unchanged, up to the last second of its lifetime, and a prune after that drops it for good |
| FlowLifetimes.PrunedSince | src/ip_flow.c:87-90 | as long as it is still there, the next prune is at most an hour after its lifetime |
| FlowLifetimes.GoneWithinTheHour | src/ip_flow.c:81-312 | so it is gone with the first packet more than an hour after its lifetime |
| FlowLifetimes.OwnPacket | src/ip_flow.c:151-264 | what a packet does to the record of its own flow, or to a blank one |
| FlowLifetimes.RunKeepsProper | src/ip_flow.c:136-312 | over any run all records are mortal and of their key's protocol |
| FlowLifetimes.OtherProtocolKept | src/ip_flow.c:81-385 | over any run, a flow of another protocol than TCP is kept exactly for the generic lifetime after its last packet |
| FlowLifetimes.EndedKept | src/ip_flow.c:81-382 | a TCP flow whose last packet has RST or FIN, for 10 or 30 seconds |
| FlowLifetimes.LoneSynKept | src/ip_flow.c:81-382 | a new TCP flow of one SYN, for 60 seconds (a blank direction counts as established since second 0) |
| FlowLifetimes.NextOwn | src/ip_flow.c:81-312 | while its SYN has not expired, a flow's next packet meets its record as the last one left it |
| FlowLifetimes.EstablishedKept | src/ip_flow.c:81-382 | over any run, a flow whose three handshake packets come within 60 seconds is kept exactly for the established lifetime |
| FlowTable.EvaluateTcpFlags | src/ip_flow.c:95-126 | the assignments in place have exactly the effect of one step of the state machine |
| FlowTable.FlowTable.constructor | src/ip_flow.c:53-79 | the initial table is well formed and empty, with its whole capacity free, and keeps its promises if and only if it has at most 2^16 buckets |
| FlowTable.FlowTable.Bounded | src/ip_flow.c:188-196 | number of flows in the map plus the free counter is the capacity |
| FlowTable.FlowTable.Sweep | src/ip_flow.c:269-312 | the pruning loop leaves the order-preserving filter of the unexpired nodes in the LRU list and in each chain, frees the others and credits the counter; what stays in the list is never freed |
| FlowTable.FlowTable.Prune | src/ip_flow.c:269-312 | the table stays valid, and the map keeps exactly the unexpired flows |
| FlowTable.FlowTable.EmergencyPrune | src/ip_flow.c:188-196 | prunes at most once per interval |
| FlowTable.FlowTable.Start | src/ip_flow.c:256-264 | a blank node becomes the record of a flow that starts with this packet |
| FlowTable.FlowTable.CreateFresh | src/ip_flow.c:201-254 | a new node at both tails adds exactly one entry and debits the counter |
| FlowTable.FlowTable.Recycle | src/ip_flow.c:221-232 | an expired node moves to the LRU tail and its entry is swapped for the new flow's |
| FlowTable.FlowTable.NothingEvictable | src/ip_flow.c:175-180 | no expired node in the chain means that no flow of the bucket may be evicted |
| FlowTable.FlowTable.CreateFlow | src/ip_flow.c:183-267 | refusal, recycling and allocation are the cases of the map's step, including refusal when no node is free |
| FlowTable.FlowTable.Refresh | src/ip_flow.c:151-174 | a packet of a known flow changes its entry only; a stale direction counts as a new flow |
| FlowTable.FlowTable.Walk | src/ip_flow.c:150-177 | finds the flow's only node, else the first expired node of the chain, and the last one |
| FlowTable.FlowTable.FindFlow | src/ip_flow.c:136-181 | refines the bounded map keyed by the canonical 5-tuple: new_flow matches the map, and at most one expired flow of the bucket is evicted |
| FlowTable.FlowTable.Handler | src/ip_flow.c:81-93 | the hourly prune, then the map's step; the deadline moves, by 3600 seconds, exactly at a prune, and the last emergency is now exactly if one was due for a refused packet |
| FlowTable.FlowTable.Process | src/ip_flow.c:81-312 | any sequence of packets through the table is a run of the map from its contents before to those after, new_flow is each step's answer, and prunes come hourly and in emergencies, once a minute |
| FlowTable.RecordedExactly | src/ip_flow.h:48 | every node records its own bucket if and only if there are at most 2^16 |
| FlowTable.OutOfBucket | src/ip_flow.c:280-300 | one iteration of a prune on a lone node that records another bucket: its own bucket keeps pointing at it, freed |
| FlowTable.WrongBucket | src/ip_flow.c:240-300 | with more buckets, a flow put into any bucket past the 2^16th leaves that bucket pointing at a freed node when it is taken out |
| TwinLists.Cut | src/ip_flow.c:292-297 | taking a node out of the LRU links keeps them mutually inverse |
| TwinLists.CutFront | src/ip_frag.c:272-275 | joining the sentinel to the first remaining node leaves a well-formed list of the rest |
| TwinLists.LinkAfter | src/ip_flow.c:214-215 | linking behind the tail keeps the chain well formed |
| TwinLists.Unchain | src/ip_flow.c:281-285 | taking an inner or last node out keeps its chain well formed |
| TwinLists.Behead | src/ip_flow.c:286-290 | so does taking the first one out |
| TwinLists.Unlink | src/ip_flow.c:280-290 | the four cases together: the chain's bucket holds it without the node if and only if the node records that bucket or is not the first |
| TwinLists.Lists.KeyInChain | src/ip_flow.c:150-153 | a key is in the table exactly when a node of its own bucket has it |
| TwinLists.Lists.ContentsSize | src/ip_flow.c:212-213 | there are as many entries as nodes, so at most one node per key |
| TwinLists.Lists.AddedOne | src/ip_flow.c:256-261 | a node with a new key adds one entry and keeps keys unique |
| TwinLists.Lists.ReplacedOne | src/ip_flow.c:221-261 | a node that changes hands swaps one entry for another |
| TwinLists.Lists.constructor | src/ip_flow.c:62-68 | only the sentinel, empty chains |
| TwinLists.Lists.LruMove | src/ip_flow.c:222-229 | the node ends up at the LRU tail, the others keep their order |
| TwinLists.Lists.MoveToTail | src/ip_flow.c:222-229 | and both lists still hold the same nodes |
| TwinLists.Lists.ChainAppend | src/ip_flow.c:214-215 | a node is added at the end of one chain, the other chains are untouched |
| TwinLists.Lists.ChainRemove | src/ip_flow.c:280-290 | a node is taken out of one chain, the other chains are untouched |
| TwinLists.Lists.Append | src/ip_flow.c:248-253 | a node is added at the end of its chain and of the LRU list |
| TwinLists.Lists.Allocate | src/ip_flow.c:202-219 | so is a newly allocated, zeroed one |
| TwinLists.Lists.Remove | src/ip_flow.c:280-297 | a node leaves both lists, which still hold the same nodes |
| TwinLists.Lists.SweepRemove | src/ip_flow.c:275-297 | one removing iteration of the flow prune keeps the loop's invariant |
| TwinLists.Free | src/ip_flow.c:299 | exactly one more node of the list is freed |
| TwinLists.Lists.SweepFree | src/ip_flow.c:275-300 | the iteration with its free(): only nodes that have left both lists are freed |
| TwinLists.Lists.SweepEnd | src/ip_flow.c:311 | setting the tail last completes the filter of the whole table |
| TwinLists.Lists.DropNext | src/ip_frag.c:246-268 | one iteration of the fragment prune takes a node out of its chain only |
| TwinLists.Lists.DropEnd | src/ip_frag.c:272-276 | cutting the LRU list at the end completes the filter; an emptied list leaves the sentinel's link as it was |
| TwinLists.Lists.DropFinish | src/ip_frag.c:272-276 | and that link is at a freed node, while every node that stays is alive |
| TwinLists.Lists.FirstNode | src/ip_frag.c:244 | a prune's first node has been freed if and only if the link was left behind |
| FragSpec.TakeDeadline | src/ip_frag.c:216 | a new deadline is a full timeout away exactly until the 32-bit clock wraps |
| FragSpec.MeetDeadline | src/ip_frag.c:95-126 | meeting a live cell never moves its deadline |
| FragSpec.RefusedStep | src/ip_frag.c:154-175 | a full table, or no memory and nothing to take over, is the refusing case of the map's step |
| FragSpec.FreshStep | src/ip_frag.c:176-214 | an allocation is the map's step only when the bucket has nothing to take over |
| FragSpec.RecycleStep | src/ip_frag.c:128-194 | taking over the datagram's own stale cell, or another one past its deadline, is the map's step |
| FragSpec.AdmittedExactly | src/ip_frag.c:128-214 | a datagram without a live cell gets one, for 60 seconds, exactly if the table is not full and there is its own old cell, another one of its bucket past its deadline, or memory; else an emergency prune drops exactly the cells past theirs |
| FragSpec.TakesOwn | src/ip_frag.c:128-132 | its own old cell comes first, with its mark and counts kept |
| FragSpec.TakesOther | src/ip_frag.c:134-194 | else another one, whose datagram goes |
| FragSpec.TakesBlank | src/ip_frag.c:166-214 | else a blank one |
| FragSpec.MetExactly | src/ip_frag.c:95-126 | a fragment of a live cell changes no other, and no deadline |
| FragSpec.PeriodicExactly | src/ip_frag.c:242-277 | the periodic prune keeps exactly the cells whose deadline is not more than 1800 seconds ago |
| FragSpec.LiveCellsSurvive | src/ip_frag.c:91-237 | a cell whose deadline is after now is never recycled, pruned or changed by another datagram |
| FragSpec.StepKeepsBound | src/ip_frag.c:154-214 | the table never exceeds its capacity, and a fragment adds at most one datagram |
| FragSpec.LiveCellMeets | src/ip_frag.c:95-126 | a live cell is met by its own fragments, whatever the state of the table |
| FragSpec.SurvivesPrune | src/ip_frag.c:76-79 | the periodic prune keeps every live cell |
| FragSpec.ReplayState | src/ip_frag.c:104-125 | before the first fragment the accumulators are the count and byte sum mod 2^16, or zero with external sampling; afterwards they are zero |
| FragSpec.MeetKeepsPromise | src/ip_frag.c:95-126 | each fragment of a fresh cell gets the promised verdict, header and sums |
| FragSpec.DatagramRun | src/ip_frag.c:72-237 | over any run within the deadline, with any other traffic, prunes and failures, a freshly allocated datagram keeps its cell and every fragment gets its promise |
| FragSpec.TraceIsRun | src/ip_frag.c:72-81 | what the entry point does to table, deadlines and link, projected to the table, is a run |
| FragSpec.OwnIsMine | src/ip_frag.c:83-93 | a datagram's fragments in a run are those among the inputs |
| FragSpec.DatagramTrace | src/ip_frag.c:72-237 | so in any trace of the entry point a freshly allocated datagram's fragments get answers that depend on its own inputs alone |
| FragSpec.StaleExactly | src/ip_frag.c:272-276 | from an unused table, the link dangles if and only if the table is empty and has held something |
| FragSpec.HeaderUnseen | src/ip_frag.c:96-126 | without a first fragment the stored header never shows |
| FragSpec.RecycledLikeFreshExactly | src/ip_frag.c:185-236 | a recycled node answers every continuation as a fresh one would if and only if it starts with a first fragment, or held neither a first fragment nor a count (nor, with external sampling, a byte sum) |
| FragTable.MeetNode | src/ip_frag.c:96-125 | the assignments in place have exactly the effect of one fragment on a live cell |
| FragTable.FragTable.OrderAppended | src/ip_frag.c:177-216 | a new node at the tail keeps the LRU list sorted by deadline |
| FragTable.FragTable.OrderMoved | src/ip_frag.c:185-216 | so does a recycled node moved there |
| FragTable.FragTable.Bounded | src/ip_frag.c:154-161 | number of datagrams plus the free counter is the capacity |
| FragTable.FragTable.StaleIsEmpty | src/ip_frag.c:154-158 | with a dangling link the table is empty, so the emergency prune of a full table never starts from one |
| FragTable.FragTable.constructor | src/ip_frag.c:59-70 | the initial table is valid, empty, and has its whole capacity free |
| FragTable.FragTable.Sweep | src/ip_frag.c:239-277 | although it stops at the first fresh node, the loop removes every node below the limit from both lists, and no other, and frees them; it reads no freed node |
| FragTable.FragTable.PrunedTo | src/ip_frag.c:246-269 | without the old nodes the map is the pruned one |
| FragTable.FragTable.Prune | src/ip_frag.c:239-277 | reads a freed node exactly if the link dangles; otherwise the map keeps exactly the cells with a deadline not before now minus the offset, and the link dangles afterwards exactly if this emptied the table |
| FragTable.FragTable.EmergencyPrune | src/ip_frag.c:154-160 | prunes at most once per interval, and faults exactly if it does with a dangling link |
| FragTable.FragTable.Fill | src/ip_frag.c:216-236 | the linked node becomes the datagram's, keeping what the code does not reset |
| FragTable.FragTable.CreateFresh | src/ip_frag.c:166-214 | a blank node adds exactly one entry and debits the counter |
| FragTable.FragTable.Recycle | src/ip_frag.c:185-194 | the node taken over swaps one entry for another and moves to the tail |
| FragTable.FragTable.MeetCell | src/ip_frag.c:95-126 | meeting a live cell changes its entry only |
| FragTable.FragTable.CreateFragment | src/ip_frag.c:149-237 | refines the map's step in every case; faults exactly if an allocation fails, an emergency prune is due and the link dangles |
| FragTable.FragTable.NothingEvictable | src/ip_frag.c:134-137 | no stale node in the chain means nothing to take over |
| FragTable.FragTable.Walk | src/ip_frag.c:91-139 | finds the datagram's only node, else the first one of the chain past its deadline, and the last one |
| FragTable.FragTable.FindFragment | src/ip_frag.c:83-147 | refines the map's step, keeps the table valid, and faults exactly then |
| FragTable.FragTable.Handler | src/ip_frag.c:72-81 | reads freed memory if and only if the input makes a prune start at a freed node; otherwise the periodic prune, then the map's step, with both deadlines and the link as they should be |
| FragTable.FragTable.Process | src/ip_frag.c:72-277 | any sequence of fragments through the table is a trace of the entry point, stopping early exactly at the first that makes the code read a freed node |
| FragTable.Stores | src/ip_frag.c:196-214 | a fragment that comes to an empty table and gets memory is stored |
| FragTable.Empties | src/ip_frag.c:154-161 | a fragment of another datagram that finds a full table of one expired cell empties it and leaves the link behind |
| FragTable.OneEmptied | src/ip_frag.c:59-277 | so a table for one datagram gets there in two calls of the entry point, whenever it was set up |
| FragTable.EmptyingLeavesDanglingLink | src/ip_frag.c:72-276 | two calls of the entry point lead to an empty table whose sentinel points at a freed node outside it; the third faults exactly if the periodic prune, or an emergency prune without memory, is due |
| FragTable.WrappedDeadlineFaults | src/ip_frag.c:72-81 | in the last two hours of the 32-bit clock the next prune wraps, and then every later fragment faults |
| HaQueue.FreshGood | src/ha.c:193-220 | the initial daemon satisfies the queue's invariant |
| HaQueue.SweepKeeps | src/ha.c:170-188 | a sweep drops only messages over age or over size, in order, and none during a dump, wherever a dump stops it |
| HaQueue.SweepLeaves | src/ha.c:170-188 | after a sweep that no dump has stopped nothing queued is over age and the size limit holds |
| HaQueue.DumpLeaves | src/ha.c:231-248 | a dump hands over the whole queue in arrival order and drops nothing |
| HaQueue.TookKeeps | src/ha.c:119-151 | an arriving message is queued at the end, stamped not before the others |
| HaQueue.StepKeepsAccounts | src/ha.c:120-257 | through every step, queued and gone messages are together, in order, what was put in |
| HaQueue.StepKeepsLeftBy | src/ha.c:120-257 | nothing leaves the queue later than now |
| HaQueue.StepKeepsArmed | src/ha.c:222-352 | a forwarding daemon has queued messages only while a dump is on its way |
| HaQueue.StepKeepsGood | src/ha.c:120-380 | every step of every thread keeps the whole invariant, and history only grows |
| HaQueue.RunKeepsGood | src/ha.c:120-380 | in every state of every interleaving each message is in exactly one place: queued, handed over, or dropped for a reason |
| HaElection.OthersDoNotVote | src/ha.c:159-257 | without signals only a handler run changes a daemon's state |
| HaElection.QuietStep | src/ha.c:309-352 | without signals a step keeps daemons automatic, settled timestamps and written keys; a handler run writes its daemon's |
| HaElection.FirstRunSettles | src/ha.c:313-328 | the first handler run takes the timestamp, and no later one changes it |
| HaElection.FullStoreDecides | src/ha.c:269-289 | with all keys in the store a handler makes its daemon active exactly if it has the smallest timestamp |
| HaElection.QuietState | src/ha.c:309-352 | from start-up, with keys of earlier lives in the store, a daemon's own timestamp is in the store from its first handler run on |
| HaElection.StampsStay | src/ha.c:313-324 | once all have run, no timestamp changes any more |
| HaElection.DecidingRun | src/ha.c:269-289 | from then on a handler run makes its daemon active exactly if it is the oldest |
| HaElection.ElectionConverges | src/ha.c:269-352 | from start-up, once all have run their handlers and a daemon runs again, it is active if and only if its timestamp is the smallest, and stays so |
| HaElection.OneOldest | src/ha.c:284 | distinct timestamps have exactly one smallest |
| HaElection.ExactlyOneActive | src/ha.c:269-352 | after both rounds exactly one daemon is active, if the timestamps taken are distinct |
| HaElection.StandbyOnlyForSmaller | src/ha.c:280-288 | an automatic daemon goes on standby exactly when it has read a strictly smaller timestamp |
| HaForwarding.StandbyExactly | src/ha.c:331-334 | an automatic daemon stops forwarding if and only if another daemon's unexpired key has a smaller timestamp and no dump is running |
| HaForwarding.ForcedExactly | src/ha.c:331-334 | a forced one if and only if it was forced to standby and no dump is running |
| HaForwarding.StampWritten | src/ha.c:313-328 | the timestamp is taken in the first run and on request, and written with its expiry |
| HaForwarding.DumpAskedExactly | src/ha.c:339-350 | a dump is asked for exactly by a run that turns forwarding on, the first one excepted |
| HaForwarding.DumpingStep | src/ha.c:334 | no event but the end of the dump stops a forwarding daemon that dumps |
| HaForwarding.DumpingForwards | src/ha.c:222-334 | so over any run, until the dump ends, it forwards everything it receives, in order |
| HaForwarding.ForcedUntilNextSignal | src/ha.c:365-375 | after a forcing signal, up to the next signal, every handler run obeys it, whatever the store says |
| HaForwarding.StaysForced | src/ha.c:365-375 | forced mode and state stay until then |
| HaForwarding.SignalOnly | src/ha.c:358-380 | what each of the four signals does, and that none touches timestamp, queue, forwarding or store |
| HaFailover.StampStep | src/ha.c:309-324 | no step of another daemon can bring in a timestamp older than the standby's |
| HaFailover.NoneOlderStep | src/ha.c:309-328 | and none reaches the store |
| HaFailover.ForwardingStep | src/ha.c:222-352 | only a handler run changes forwarding; a forwarding daemon queues nothing |
| HaFailover.AloneForwards | src/ha.c:269-342 | once the stopped daemon's key is gone a handler run leaves the next in line forwarding |
| HaFailover.StillNext | src/ha.c:309-352 | the next in line stays so through the whole run |
| HaFailover.HistoryGrows | src/ha.c:120-257 | what was received, forwarded or gone stays recorded |
| HaFailover.ForwardsFrom | src/ha.c:309-352 | from that handler run on the daemon forwards for the rest of the run |
| HaFailover.LastFlip | src/ha.c:339-342 | a daemon that has come to forward has a last change of the flag, the one that started a dump |
| HaFailover.RunAfter | src/ha.c:309-352 | a daemon that runs its handler every period runs it less than a period after the key's expiry |
| HaFailover.NothingOverAge | src/ha.c:178 | as long as the timeout lasts, nothing received since the start has been dropped |
| HaFailover.HandedWhenDrained | src/ha.c:178-248 | by a drain that is soon enough, messages received since the start have only been handed over |
| HaFailover.DrainAfter | src/ha.c:222-342 | a prompt dump drains what was queued before the daemon came to forward |
| HaFailover.QueuedIsHanded | src/ha.c:159-352 | so, in a run that goes on, every queued message is handed over |
| HaFailover.FailoverLosesNothing | src/ha.c:159-352 | if the timeout is at least key expiry plus handler period plus dump delay, less one tick, no message that the next in line receives after the active daemon stops is ever lost, and all are delivered if the run goes on |
| HaTight.HandlerStep | src/ha.c:269-352 | in the witness each handler run reads the stopped daemon's key exactly until it expires |
| HaTight.IsRun | src/ha.c:159-352 | the witness is a run: handler runs every tick until the expiry and one a period later, then a sweep and a dump |
| HaTight.IsPeriodic | src/ha.c:309-352 | in it the standby runs its handler at least every period |
| HaTight.IsPrompt | src/ha.c:222-257 | and every dump is prompt |
| HaTight.TimeoutIsTight | src/ha.c:178-179 | for every shorter timeout, expiry, period and delay there is such a run, with a store that always answers, that loses a message; so the bound is exact |
| HaDaemon.HaDaemon.constructor | src/ha.c:38-53 | the initial values of the globals |
| HaDaemon.HaDaemon.Receive | src/ha.c:119-151 | one receiving step |
| HaDaemon.HaDaemon.QueuePop | src/ha.c:170-188 | the popping loop terminates and is exactly a sweep, wherever the dump flag goes up meanwhile |
| HaDaemon.HaDaemon.DumpBegin | src/ha.c:224 | the first step of a dump |
| HaDaemon.HaDaemon.QueueDump | src/ha.c:231-248 | the producing loop terminates and is exactly a drain |
| HaDaemon.HaDaemon.DumpEnd | src/ha.c:255-256 | the last step of a dump |
| HaDaemon.HaDaemon.CheckDaemonState | src/ha.c:280-288 | the loop answers active exactly if no timestamp read is smaller |
| HaDaemon.HaDaemon.RefreshTimestamp | src/ha.c:313-324 | the timestamp is renewed at the first loop and on request |
| HaDaemon.HaDaemon.RedisHandler | src/ha.c:309-352 | one run of the handler is exactly the handler step, of which HaForwarding says what it decides |
| HaDaemon.HaDaemon.OnSignal | src/ha.c:358-380 | the four signal handlers |
| AcctSpec.MatchIsEqualityExactly | src/acct.c:75-120 | matching is equality among elements with every sub-record if and only if the given key has every one |
| AcctSpec.FullMatchIsEquality | src/acct.c:75-120 | then a blank slot matches nothing, either |
| AcctSpec.PartialMatchIsNot | src/acct.c:91-119 | otherwise one record can match two different elements, and matching is not symmetric |
| AcctSpec.ResetStartsOver | src/acct.c:448-462 | after a reset request the next record starts packets, bytes and flags over, while flows go on counting |
| AcctSpec.TwoKeysOneRow | src/acct.c:198-317 | a key that takes over a row without packets and bytes inherits its flow counter and flags |
| AcctSpec.InsertedPendsNothing | src/acct.c:186-192 | an insertion leaves no reset request behind |
| AcctSpec.TableSummarises | src/acct.c:122-446 | a key is in the table exactly when a record of it was stored; its counters are the sums and its flags the OR of those records |
| AcctSpec.OverwrittenIsForgotten | src/acct.c:198 | a key whose row is taken over is gone, although a record of it was stored |
| AcctSpec.SummarisesExactly | src/acct.c:122-446 | the table sums up what was stored, all along a run, if and only if no record takes over another key's row |
| AcctSpec.CountingNeverOverwrites | src/acct.c:198 | records with packets or bytes never do |
| AcctSpec.PossibleNext | src/acct.c:122-446 | a possible run stays one by an insertion that fits, and drops nothing exactly if that one is stored |
| AcctSpec.NothingDropped | src/acct.c:325-350 | if every record was stored, the dropped counters are zero |
| AcctSpec.TotalWithout | src/acct.c:167-173 | the total over a table does not depend on the order of summing |
| AcctSpec.TotalPut | src/acct.c:167-173 | replacing one row changes the total by that row |
| AcctSpec.NoRowIsReset | src/acct.c:448-462 | insertions never set a reset flag |
| AcctSpec.CountersConserved | src/acct.c:319-446 | table totals plus dropped records equal all input, for any records, through exhaustion |
| AcctSpec.TableIsSums | src/acct.c:122-446 | if no record is dropped or takes over a row, each key that occurs has one row, with the sums of its records |
| AcctSpec.FlagsAreUnion | src/acct.c:171-172 | a flag is set in a row exactly if some record of it had it |
| AcctSpec.StoredKeysStay | src/acct.c:163-197 | a stored key stays until another key takes over its row |
| AcctSpec.AtInserted | src/acct.c:163-318 | an insertion with room adds its counters to its own key only |
| AcctSpec.HostsInput | src/imt_plugin.c:524-534 | per-host insertion puts in every record twice, once per end |
| AcctSpec.TrafficNext | src/imt_plugin.c:524-534 | the two insertions of a record count for its source and for its destination |
| AcctSpec.HostsCountTwice | src/imt_plugin.c:524-534 | each host's counters are the sums over the records with its address as source plus those with it as destination, other fields equal; no other key has a row; totals are twice the input |
| AcctSpec.RoomsDoNotMatter | src/acct.c:198-441 | if nothing is dropped or taken over, the table does not depend on where the records went |
| AcctSpec.CountingRun | src/acct.c:198 | a run of records with packets or bytes takes over no row |
| AcctSpec.HostsStored | src/imt_plugin.c:524-534 | in any run of the insertions per host that drops nothing the totals are doubled, and each host's counters are right if no row is taken over |
| AcctTable.AcctTable.constructor | src/imt_plugin.c:167-185 | blank slots are a valid, empty table |
| AcctTable.AcctTable.HitIsHolder | src/acct.c:164-187 | signature and comparison together single out the one element that holds the key |
| AcctTable.AcctTable.HolderPlace | src/acct.c:156-181 | a key is held in its own chain |
| AcctTable.AcctTable.Search | src/acct.c:29-73 | finds an element exactly when the key is in the map, and that element has the map's row |
| AcctTable.AcctTable.Walk | src/acct.c:183-325 | stops at the first element that matches, is free, or is the last of its chain, even in a table that is not well formed |
| AcctTable.AcctTable.Walked | src/acct.c:183-325 | in a well-formed table that is the key's element, or else the last of its chain |
| AcctTable.AcctTable.FreeIsLast | src/acct.c:198 | a free slot is the last of its chain, and blank unless it holds a row without packets and bytes |
| AcctTable.AcctTable.LastIsTail | src/acct.c:198-325 | the room for a new key is what the last element of its chain offers |
| AcctTable.AcctTable.EmptyRoom | src/acct.c:198 | an empty table has a blank slot for every key |
| AcctTable.AcctTable.HollowRoom | src/acct.c:198 | a row without packets and bytes is what the next new key of its chain takes over |
| AcctTable.AcctTable.RoomFits | src/acct.c:198-350 | the room for a new key is blank, or a row without packets and bytes; there is none exactly if its chain has no free slot and memory has run out or neither the pool nor a new one has space |
| AcctTable.AcctTable.NextHolds | src/acct.c:319-325 | what follows an element holds a key, in the same chain |
| AcctTable.AcctTable.Bump | src/acct.c:186-193 | accumulates on the key's row, after a pending reset; the table stays well formed if and only if this leaves no free slot in mid-chain |
| AcctTable.AcctTable.SetResetFlag | src/acct.c:448-451 | a reset request only marks the key's row |
| AcctTable.AcctTable.OneRow | src/acct.c:167-173 | changing one row is changing one entry |
| AcctTable.AcctTable.Overwrite | src/acct.c:198-317 | an element becomes the new key's, keeping the flow counter and flags that were there |
| AcctTable.AcctTable.Fill | src/acct.c:198-317 | a free slot so becomes the row of the new key |
| AcctTable.AcctTable.NewRow | src/acct.c:198-317 | which is one new entry |
| AcctTable.AcctTable.Allocate | src/acct.c:328-350 | an element from the pool, or a new pool, or the no-more-space mode for good; and the space left |
| AcctTable.AcctTable.Append | src/acct.c:352-441 | a linked new element becomes the row of the new key |
| AcctTable.AcctTable.Extend | src/acct.c:325-441 | at the end of a full chain the record is stored exactly if there is memory; else nothing is, from then on |
| AcctTable.AcctTable.Grown | src/acct.c:352-441 | which is one new entry, all chains staying well formed |
| AcctTable.AcctTable.Remember | src/acct.c:193 | the last-used pointer never changes the table |
| AcctTable.AcctTable.Insert | src/acct.c:122-446 | keeps the table well formed if and only if the record leaves no free slot in mid-chain; then it refines the map, with or without the shortcut, and only a new key that needs a chain extension is dropped; else only the key's row and last-used pointer change |
| AcctTable.EmptyRecordIsOverwritten | src/acct.c:198-317 | two insertions into an empty table: the second takes over the row of a first record without packets and bytes |
| AcctTable.AcctTable.HarmReaches | src/acct.c:198 | a record that does leave such a slot has a key further down its chain |
| AcctTable.AcctTable.Ahead | src/acct.c:164-325 | a walk for that key passes everything before the slot |
| AcctTable.StoredTwice | src/acct.c:156-317 | so its next record is stored in the slot, and two elements hold one key |
| AcctTable.EmptyRecordSplitsKey | src/acct.c:122-451 | five calls lead there: two keys in one chain, a reset request, an empty record, and one more record |
| AcctTable.AcctTable.SumHostInsert | src/imt_plugin.c:524-534 | overwriting the record in between inserts it for its source and then for its destination, both where they fit, and memory has run out exactly if one was dropped |
| AcctTable.AcctTable.MadePendsNothing | src/acct.c:448-462 | a table made by insertions has no pending reset |
| AcctTable.AcctTable.Process | src/acct.c:122-446 | any sequence of records through the table is a possible run that its contents are made of; memory has run out exactly if one was dropped; totals plus dropped records equal all input; if none was dropped and no row taken over, as is so for records with packets or bytes, each key's row sums up its records |
| AcctTable.AcctTable.ProcessHosts | src/imt_plugin.c:524-534 | any sequence of records per host; if none is dropped the table's totals are twice the input, and each host's counters what it sent plus what it received if no row was taken over, as is so for records with packets or bytes |
| AcctTable.AcctTable.BeforeAfter | src/imt_plugin.c:610-618 | the loop's position advances over exactly one element |
| AcctTable.AcctTable.WrapsBack | src/imt_plugin.c:613 | the index decrement wraps below zero and the increment brings it back |
| AcctTable.AcctTable.FreeSubRecords | src/imt_plugin.c:585-609 | each of the seven sub-records that there is goes; the primitives stay |
| AcctTable.AcctTable.FreeElem | src/imt_plugin.c:585-609 | so one more element has lost them |
| AcctTable.AcctTable.Advance | src/imt_plugin.c:610-618 | down the chain with the index held, or on to the next bucket |
| AcctTable.AcctTable.FreeExtraAllocs | src/imt_plugin.c:574-620 | terminates, visits the elements chain by chain, and leaves none of the seven sub-records in any element, and all primitives |
| AcctTable.AcctTable.EachOnce | src/imt_plugin.c:574-620 | that visit order holds every element exactly once |
| AmqpBatch.Strlen | src/util.c:347-354 | finds the end of the string in the buffer |
| AmqpBatch.CopyAt | src/amqp_plugin.c:667 | a copied string is terminated and within the buffer |
| AmqpBatch.StringAddNewline | src/util.c:347-354 | appends one newline and terminates again |
| AmqpBatch.PutLine | src/amqp_plugin.c:667-671 | appends a record as one line |
| AmqpBatch.LinesConcat | src/amqp_plugin.c:552-763 | messages made of lines read one after the other as the lines of all their records |
| AmqpBatch.PublishedAll | src/amqp_plugin.c:709-713 | if all publishes succeed every record sent is counted |
| AmqpBatch.RecordsPrefix | src/amqp_plugin.c:552-555 | stopping early leaves a prefix of the committed records |
| AmqpBatch.RecordsNext | src/amqp_plugin.c:552-600 | exactly the committed entries that have a record count |
| AmqpBatch.PackedNext | src/amqp_plugin.c:657-676 | when adding a group keeps groups nonempty, within the buffer and maximal |
| AmqpBatch.RecordFits | src/amqp_plugin.c:666-675 | a fitting record joins the pending group |
| AmqpBatch.GroupSent | src/amqp_plugin.c:657-713 | a record that does not fit sends the pending group and starts the next one |
| AmqpBatch.RecordSent | src/amqp_plugin.c:678-713 | without batching every record is a message |
| AmqpBatch.LastSent | src/amqp_plugin.c:753-761 | the final flush sends what is pending |
| AmqpBatch.OutcomesLast | src/amqp_plugin.c:753-761 | it may be the one call after a failure |
| AmqpBatch.FailedLast | src/amqp_plugin.c:657-713 | a failed call is the last one in the loop, and leaves one record in the buffer |
| AmqpBatch.AddRecord | src/amqp_plugin.c:654-713 | one record with batching on, never past the buffer's end |
| AmqpBatch.Commit | src/amqp_plugin.c:654-713 | one record, with batching on or off |
| AmqpBatch.Flush | src/amqp_plugin.c:753-761 | everything up to the last record taken has been sent, after a failure too: then the last message is the single record that opened the next group |
| AmqpBatch.Purge | src/amqp_plugin.c:552-763 | messages carry consecutive whole records, maximally packed below the limit; qn counts the published ones; if not all records are sent, the last call failed, or with batching the one before it, which is followed by one record alone; exit only for a record too long for the buffer |
| AmqpBatch.TooLong | src/amqp_plugin.c:658-661 | exit means that such a record is in the stream |
| AmqpBatch.StreamPreserved | src/amqp_plugin.c:552-763 | if nothing fails the concatenated messages are the committed records, one line each, and qn is their number |
| Base64.Letter | src/base64.c:20 | letters stand for their own value and are never padding |
| Base64.TableHolds | src/base64.c:20 | the table is that alphabet |
| Base64.AllocationSuffices | src/base64.c:42-45 | without size overflow the output and its terminator fit, exactly so for one byte |
| Base64.LineFeeds | src/base64.c:59-63 | every 73rd character is a line feed |
| Base64.LinesAreShort | src/base64.c:59-63 | no line exceeds 72 characters |
| Base64.EncodedNext | src/base64.c:53-64 | whole triples are encoded independently of what follows |
| Base64.BrokenNext | src/base64.c:54-63 | four more characters, and a line feed exactly if they fill the line |
| Base64.EncodeTriple | src/base64.c:54-63 | one iteration, within the allocation |
| Base64.EncodeTail | src/base64.c:66-78 | one or two bytes left, padded |
| Base64.EncodeInto | src/base64.c:49-86 | the output is the encoding in lines |
| Base64.EncodeEnd | src/base64.c:66-83 | the end of the last line and the terminator, within the allocation |
| Base64.Encode | src/base64.c:34-87 | the same for the allocated result |
| Base64.SignificantAppend | src/base64.c:124-127 | skipping works piecewise |
| Base64.NoiseIsIgnored | src/base64.c:124-127 | the result depends only on the alphabet and '=' |
| Base64.LinesAreNoise | src/base64.c:60-81 | line feeds are skipped |
| Base64.TripleBack | src/base64.c:54-57 | the three output bytes undo the four letters |
| Base64.TailBack | src/base64.c:66-78 | and so for one or two bytes, with the padding counted right |
| Base64.TriplesBack | src/base64.c:132-137 | whole triples come back |
| Base64.EncodedBack | src/base64.c:34-149 | in all three padding cases the characters give back the bytes |
| Base64.RoundTrip | src/base64.c:34-149 | decoding an encoding gives back every byte string |
| Base64Bits.LetterIs | src/base64.c:20 | letters are those of the alphabet as the source writes it, by index |
| Base64Bits.QuadChar | src/base64.c:54-57 | the four characters of three bytes are the six-bit groups of their number, highest first |
| Base64Bits.TailChar | src/base64.c:66-78 | and so for one or two bytes, with zero bits for what is missing and '=' where nothing is left |
| Base64Bits.EncodedChar | src/base64.c:34-87 | every character of an encoding is fixed by the input's bits |
| Base64Bits.InLines | src/base64.c:59-63 | the k-th one comes after k/72 line feeds |
| Base64Bits.OutputChar | src/base64.c:34-87 | so every character that the encoder writes is known |
| Base64Bits.OutputLength | src/base64.c:34-87 | and how many |
| Base64Bits.Skipped | src/base64.c:105-114 | skipped is exactly what is not in the alphabet and not '=' |
| Base64Bits.KeptIsRead | src/base64.c:124-127 | what the decoder reads is the rest, in order |
| Base64Bits.ThreeIs | src/base64.c:132-137 | the three bytes of a quad are the number of its four digits |
| Base64Bits.DecodedQuad | src/base64.c:124-137 | for every quad of a text |
| Base64Bits.DecodedByte | src/base64.c:99-149 | so every byte that the decoder writes is known |
| Base64Bits.DecodedLength | src/base64.c:116-147 | and whether it answers, and how many |
| Base64Bits.Man | src/base64.c:34-149 | "Man" is "TWFu", in both directions |
| Base64.BuildTable | src/base64.c:105-108 | the lookup table gives every character its value |
| Base64.CountSignificant | src/base64.c:110-114 | the first pass counts what the second will read |
| Base64.Feed | src/base64.c:125-137 | one character read keeps window, output and position in step |
| Base64.Trimmed | src/base64.c:140-147 | the last quad read tells the padding |
| Base64.DecodeInto | src/base64.c:123-147 | the second pass stays within the allocation and computes the decoding |
| Base64.Decode | src/base64.c:99-149 | refuses exactly a count that is no multiple of four, and else returns the decoding |
| Jhash.XorBitsBack | src/jhash.h:26-34 | exclusive or undoes itself |
| Jhash.XorBound | src/jhash.h:26-34 | and stays within the word |
| Jhash.StirBack | src/jhash.h:26 | each of the nine assignments is invertible |
| Jhash.RoundBack | src/jhash.h:26-28 | and so is each third of the mixing step |
| Jhash.MixIsBijection | src/jhash.h:24-35 | __jhash_mix is a bijection on triples of words |
| Jhash.MixIsInjective | src/jhash.h:24-35 | different triples are mixed into different triples |
| Jhash.JhashMix | src/jhash.h:24-35 | the 27 assignments compute that bijection |
| Jhash.ValueIsWord | src/jhash.h:54-56 | up to four bytes are a word, lowest first |
| Jhash.DownAddsValue | src/jhash.h:69-76 | the fall-through additions add the bytes' value |
| Jhash.DownHighAddsValue | src/jhash.h:64-68 | those of c one byte higher, above the length |
| Jhash.SwitchFinishes | src/jhash.h:64-77 | the whole switch |
| Jhash.Jhash | src/jhash.h:44-82 | the byte loop computes the byte-wise hash |
| Jhash.Jhash2 | src/jhash.h:87-113 | the word loop computes the word-wise hash |
| Jhash.Jhash3Words | src/jhash.h:122-131 | one mixing step without the length |
| Jhash.AbsorbIsInjective | src/jhash.h:122-131 | nothing is lost in the mixing: different words lead to different states |
| Jhash.LittleEndianAt | src/jhash.h:54-56 | the bytes of the i-th word are where the byte loop reads them |
| Jhash.WordsAreBytesFrom | src/jhash.h:44-113 | from any state the two loops agree on the rest of the key |
| Jhash.WordsAreBytes | src/jhash.h:44-113 | jhash2 of n words is jhash of their bytes, for every n below 2^30 and every seed |
| JhashExact.XorBit | src/jhash.h:26-34 | exclusive or and the mask, bit by bit |
| JhashExact.MixAsWritten | src/jhash.h:24-35 | the nine lines of the mixing step with their shifts |
| JhashExact.NextBytes | src/jhash.h:53-62 | twelve bytes go into the three words, lowest first |
| JhashExact.LastBytesAre | src/jhash.h:64-81 | the last bytes too, with the length below those of the third word |
| JhashExact.NextWords | src/jhash.h:94-110 | words three at a time, the rest, and four times their number |
| JhashExact.Starts | src/jhash.h:49-51 | from the golden ratio, twice, and the seed |
| Jhash.AndBits | src/ip_flow.c:350 | a mask never increases a number |
| Jhash.Bucket | src/ip_flow.c:350 | the masked hash is a bucket of the table, for any size |
| Jhash.HashFlow | src/ip_flow.c:347-351 | so the flow hash always is |
| Jhash.HashFragment | src/ip_frag.c:281-284 | and the fragment hash |
| TableHash.Hash6 | src/ip_flow.c:431-456 | the IPv6 hash, of flows and fragments alike, computes the three mixing steps and is a bucket of the table |
| TableHash.FlowBucket | src/ip_flow.c:347-351 | every flow, IPv4 or IPv6, has a bucket |
| TableHash.FragBucket | src/ip_frag.c:281-351 | and every datagram |
| JhashExact.MaskIsRemainder | src/ip_flow.c:350 | with a power of two of buckets the mask is the remainder |
| JhashExact.FlowBucketIs | src/ip_flow.c:347-351 | which words of an IPv4 flow are mixed into its bucket |
| JhashExact.FragBucketIs | src/ip_frag.c:281-284 | and of a datagram |
| JhashExact.Bucket6Is | src/ip_flow.c:431-456 | and over IPv6, in three steps |
| JhashExact.Buckets6 | src/ip_flow.c:501 | with the two ports, or the datagram's identifier |
| TableHash.FlowRun | src/ip_flow.c:43-93 | the flow table as set up, with that hash: any packets make a run from the empty map |
| TableHash.FragRun | src/ip_frag.c:59-81 | the fragment table as set up, with that hash: any fragments make a trace from the unused table, up to a fault if there is one, and the link dangles exactly while the table is empty after having held something |

## Left out

- FlowTable.FlowTable.Process: for tables of at most 65536 buckets; a larger one, which the configuration accepts, is not modelled beyond `WrongBucket`.
- FragTable.FragTable.Handler: requires a 32-bit clock that does not go back and is more than a minute from wrapping, where cell deadlines would wrap, too. What the code does after reading a freed node is undefined, and nothing is said about it.
- HaElection.ElectionConverges: assumes no signals, a store that answers, and, once every daemon has run its handler, that no key expires before it is read; these are the conditions under which the design promises convergence.
- HaFailover.FailoverLosesNothing: assumes no size limit on the queue, and that the standby is past its first loop when the active daemon stops.
- HaDaemon.HaDaemon.Receive: forwarding and enqueuing are one atomic step; the callers test the flag and then enqueue (`src/bmp/bmp_logdump.c:338-344`), so a flip in between is not modelled.
- HaDaemon.HaDaemon.RedisHandler: listing the keys and reading the timestamps is one atomic step.
- HaDaemon.HaDaemon.QueueDump: a message counts as handed over whatever Kafka answers, as in the code, which only logs the answer.
- AcctTable.AcctTable.SumHostInsert: excludes a record without packets and bytes while a reset request is pending, after which the table may not be well formed (see `Insert`); what further records do to such a table is not modelled beyond `StoredTwice`.
- AcctSpec.TableSummarises: runs without resets; a reset clears packets, bytes and flags but not the flow counter, as `ResetStartsOver` says.
- AcctTable.AcctTable.FreeExtraAllocs: `clear_memory_pool_table`, which reuses the memory afterwards, is not part of this model, nor are last-used pointers across a clear.
- The siblings of `sum_host_insert` for ports, AS numbers and MAC addresses have the same shape and are not repeated.
- AmqpBatch.Purge: a rendered record is assumed to be a non-empty string, as a JSON object always is; purge markers, dynamic routing keys and the Avro branches are not modelled.
- Values of counters and queue lengths are unbounded; wrap-around of 64-bit counters is not modelled. The 32-bit clock of the fragment table, its 16-bit accumulators, TCP sequence numbers, hash words, the chain index and the encoder's size arithmetic do wrap.
- Allocation failure, the broker's and the store's answers and the clock are parameters. A failing `malloc` in the accounting table ends the process and is not modelled.
- Conntrack helpers, classifiers, BGP pointers kept in flow nodes and the logging of orphan fragments.
- The signature of an accounting element is any function of the whole key; the code's leaves the variable-length sub-record out.
- The legacy BGP sub-record is compared without its conversion between cache and packet form.
- The methods `Start`, `Walk`, `Refresh`, `CreateFresh`, `Recycle`, `Fill`, `Bump`, `Append`, `AddRecord`, `Feed`, `EncodeEnd` and their like are parts of one C function each, split where the proof wants a contract.
- Configuration parsing, sockets, processes, and the other plugins.
