# REEcanner: the address-space engine, verified

REEcanner scans address ranges by walking a shuffled index space. This project models that
engine in Dafny and proves it correct, from the ranges on the command line to the replies that
come back:

- **The permutation** (`Bits`, `Feistel`, `RoundKeys`, `CycleWalk`, `WorkerFeistel`). `FeistelShuffler` over
  Python's unbounded integers, for every key and every domain size; its C copy in wrapping 32-bit
  arithmetic. Cycle walking ends, is a bijection with an explicit inverse (the reversed keys), and
  costs at most one encryption per block value over the whole domain.
- **The ranges** (`Ranges`, `Bisect`, `Blacklist`, `Inclusion`). Sorting, merging, carving out the
  blacklist, prefix sums, binary search and the parity lookup, against plain membership.
- **The walk** (`Partition`, `Walk`, `Workers`, `CWorker`, `EndToEnd`). Shards and workers divide
  the probe indices; the Python worker and the cached 64-bit C loop both refine one cache-free walk
  of a `Track`; all workers of all machines together probe each surviving address on each port
  exactly `retries` times.
- **Checkpointing** (`Checkpoint`). Workers as a state machine over send and report steps, every
  interleaving, and resuming with another number of workers.
- **Packets** (`Checksum`, `Packet`, `Fields`, `PacketBuffers`, `Batches`). What a receiver reads from
  a probe (RFC 791, RFC 768, RFC 9293). Precomputed sums and patching of reused buffers, in the Python
  templates and in the C batch slots, against packets built from scratch and the loop of section 4.1
  of RFC 1071; and batch by batch, the bytes handed to send are those of
  the probes the walk calls for.
- **Replies** (`TcpOptions`, `Receive`, `Hits`). The reply parser, a classic BPF machine for the
  kernel filter, TCP options (section 3.2 of RFC 9293, sections 2.2 and 3.2 of RFC 7323), and the
  dedupe and limit state machine against "first reply of each source, cut at the limit".
- **The rate controller** (`Adaptive`).

Objects that change while they are used (`Sniffer`, `RateController`, packet buffers) are classes
and arrays; the two managers and the shuffler never change once built and are values, built by
methods with the loops of their constructors. `packet_worker` and `run_worker` keep their state in
local variables, and so do their models. A send is an appended probe.

`hide` statements only keep definitions out of a proof that does not need them.

## What the code does not do

Where a claim in the code or its documentation fails, the model keeps the code and the condition
is exact:

- README.md:371-373 says that each machine scans a disjoint subset of addresses. The machines share
  out probe indices; `EndToEnd.ShardsSeparateAddressesIff` says when their addresses are disjoint.
- reecanner/scanner.py:949-955 says that no target is skipped on resume. Slots of workers that have
  not reported are left out of the minimum: `Checkpoint.CheckpointSafeIff` gives the condition,
  `Checkpoint.CheckpointSafeBySlotsIff` what can be told from the slots, and
  `Checkpoint.UnreportedWorkerSkipped` a lost index. The fallback for the C engine is not
  conservative either: `Checkpoint.SentFallbackSafeIff`, `Checkpoint.UnevenWorkersSkipped`.
- reecanner/scanner.py:1179-1183 says that the rate is raised only after two consecutive clear
  windows. At the floor a failing window does not reset the count:
  `Adaptive.RaiseRightAfterFailureIff`, `Adaptive.FloorRaise`.
- reecanner/scanner.py:443-444 and reecanner/worker.c:384-385 choose the UDP payload differently
  after the first pass: `CWorker.PayloadParityInPass`, `CWorker.PayloadParity`. Addresses and ports
  are the same throughout: `CWorker.EnginesEmitAlike`.
- The kernel filters of all three modes read fixed offsets, so replies behind IP options can be
  lost: `Receive.FilterLosesNothingIff`.
- `FeistelShuffler.get` need not end for an index outside its range: `CycleWalk.EndsIff` says for
  which it does, `CycleWalk.EndsEverywhereIff` when it does for all, which in-range calls alone can
  tell; `CycleWalk.OutsideNeverEnds` is an example. `get_random_ip_int` never passes one.

## Model

| member | source | states |
|---|---|---|
| Feistel.Encrypt | reecanner/utils.py:68-73 | the four-round loop computes the block permutation `Permute` that the theorems are about |
| Feistel.BlockSizing | reecanner/utils.py:51-61 | for every key and every size, 2 * half_bits is the least even number of bits, at least 2, whose block holds [0, max_val); the block is at most four times as large, and has at most 32 bits for IPv4 |
| Feistel.KeysDetermineSeed | reecanner/utils.py:54 | seeds below 2^56 with the same round keys are equal |
| Feistel.WindowsOverlap | reecanner/utils.py:54 | for every seed, each of the four keys is the next one shifted by a byte |
| Feistel.NetworkUndo | reecanner/utils.py:63-73 | any number of rounds with any keys is undone by swapping the halves and running the keys backwards |
| Feistel.PermuteInverse | reecanner/utils.py:68-73 | `_encrypt` maps the block into itself, and with the keys reversed it is its own inverse |
| RoundKeys.RoundArithmetic | reecanner/utils.py:63-66 | the round function in plain arithmetic: which word is mixed and which of its bits come out |
| RoundKeys.KeyByXor | reecanner/utils.py:63-66 | flipping the same bits of half and key changes nothing: the key enters by exclusive or |
| RoundKeys.KeyLowBits | reecanner/utils.py:63-66 | only as many low bits of a key count as a half has |
| RoundKeys.PermuteFour | reecanner/utils.py:63-73 | the closed form of `_encrypt` on blocks of four, for every four keys |
| CycleWalk.Get | reecanner/utils.py:75-79 | the loop ends for every index below max_val, on the first iterate below max_val, after exactly `WalkLength` encryptions |
| CycleWalk.WalkEnds | reecanner/utils.py:75-79 | from every index below max_val some iterate comes back below max_val |
| CycleWalk.ShuffleBijective | reecanner/utils.py:48-79 | `get` is a bijection of [0, max_val): the shuffler with reversed keys is its two-sided inverse |
| CycleWalk.OrderOfFour | reecanner/utils.py:48-79 | the order in which four addresses are visited, as a function of all four keys |
| CycleWalk.SameOrderIff | reecanner/utils.py:48-79 | two seeds visit four addresses in the same order exactly when their keys agree in two bits |
| CycleWalk.SeedOneOrder | reecanner/utils.py:48-79 | with seed 1, index 1 of four addresses leads to the last one |
| CycleWalk.AmortisedWalk | reecanner/utils.py:57-79 | over all indices of [0, max_val) the encryptions number at most the block size, hence at most 4 * max_val |
| CycleWalk.EndsIff | reecanner/utils.py:75-79 | for every index, in the range or not, `get` ends exactly when the walk of some index below max_val passes through the index's position in the block |
| CycleWalk.EndsEverywhereIff | reecanner/utils.py:75-79 | the positions of the block on which `get` runs for ever number the block size minus the encryptions that all indices below max_val need; so it ends on every index whatsoever exactly when these use up the block |
| CycleWalk.OutsideNeverEnds | reecanner/utils.py:75-79 | with key 0 and max_val 1, `get` never ends on index 1 |
| WorkerFeistel.FRoundAgrees | reecanner/worker.c:29-34 | the 32-bit wrap-around never reaches the masked bits: the C round equals the Python round for up to 24-bit halves |
| WorkerFeistel.FEncrypt | reecanner/worker.c:36-44 | the unrolled 32-bit network computes Python's `_encrypt` for half_bits up to 16 |
| WorkerFeistel.FGet | reecanner/worker.c:46-51 | `fget` equals Python's `get` for every key and every index below max_val |
| Ranges.MergeRanges | reecanner/utils.py:146-152 | the merged list is sorted, disjoint, non-empty, not even adjacent, and covers exactly the union of the input |
| Ranges.CarveRange | reecanner/utils.py:109-120 | what is left of one inclusion range: normal ranges inside it that cover exactly its addresses outside the blacklist |
| Ranges.SubtractRanges | reecanner/utils.py:101-121 | the survivors are normal ranges that cover exactly inclusion minus blacklist |
| Ranges.TotalSizeIsCardinality | reecanner/utils.py:170-177 | total_ips is the number of surviving addresses |
| Bisect.BisectRight | reecanner/utils.py:194 | finds the upper bound of a sorted list |
| Bisect.CUpperBound | reecanner/worker.c:62-66 | the hand-written C search finds the same upper bound |
| Blacklist.BuildBlacklist | reecanner/utils.py:242-264 | the flattened list blocks exactly the addresses of the parsed networks |
| Blacklist.ParityIsMembership | reecanner/utils.py:266-272 | the parity test on the upper bound is public exactly when no merged range holds the address, single hosts and range ends included |
| Blacklist.IsIpIntPublic | reecanner/utils.py:266-272 | public exactly when the address is in no blacklisted range |
| Blacklist.CIsPublic | reecanner/worker.c:60-70 | the C lookup gives the same answer |
| Inclusion.BuildInclusion | reecanner/utils.py:127-187 | the networks cover exactly targets minus blacklist (the whole space when nothing could be parsed); it fails exactly when nothing is left |
| Inclusion.LayOut | reecanner/utils.py:170-177 | the networks are the surviving ranges, each starting where the previous ones end |
| Inclusion.GetRandomIpInt | reecanner/utils.py:189-196 | the shuffled, reduced index is looked up as the n-th surviving address in ascending order |
| Inclusion.CGetIp | reecanner/worker.c:74-86 | the C table lookup finds the same address without 32-bit overflow |
| Inclusion.AddressOfIndex | reecanner/utils.py:189-196 | every index below total_ips yields a surviving address, and the index can be recovered from it |
| Inclusion.IndexOfAddress | reecanner/utils.py:189-196 | every surviving address is produced by an index below total_ips |
| Inclusion.NthAscends | reecanner/utils.py:189-196 | the table lookup counts the surviving addresses in ascending order |
| Partition.VisitsIffOwner | reecanner/scanner.py:377-389 | an index at or past the start is visited by the shard it is congruent to, and there by exactly one worker |
| Partition.CFirstIndexAgrees | reecanner/worker.c:323-329 | C's corrected truncating remainder gives Python's first index |
| Partition.FirstIndicesAre | reecanner/scanner.py:383-389 | worker 0 starts at the first index of its shard at or past the start, the next workers one shard round apart, and all step by a full round of workers |
| Walk.FillEmits | reecanner/scanner.py:415-461 | a batch that is sent holds exactly the probes of its stretch of the worker's progression; a full one has the wanted size, a finished one reaches the end |
| Walk.NeverTripped | reecanner/scanner.py:422-437 | where no candidate is blacklisted every batch is sent |
| Walk.TripsIff | reecanner/scanner.py:422-437 | left to run, the guard trips exactly when the next 10,001 candidates all exist and are blacklisted |
| Walk.TripsAfterTenThousand | reecanner/scanner.py:422-437 | for a fresh search these are 10,001 indices |
| Walk.NextIs | reecanner/scanner.py:422-438 | where a search ends and why, in terms of the candidates alone: after how many skipped ones it meets the end, a public index, the guard or a cleared run flag |
| Workers.EffectiveBatch | reecanner/scanner.py:406-412 | the least batch that lasts 100 ms at the given rate, within 1 and the batch size |
| Workers.PayloadsGoRound | reecanner/scanner.py:443-444 | consecutive addresses take payloads 0, 1, 2 and so on, round and round; the C engine starts over with every pass |
| Workers.PortsFirst | reecanner/scanner.py:428-441 | consecutive indices go through all ports of an address before the next address |
| Workers.Seek | reecanner/scanner.py:422-438 | the inner loop stops at the next public index, or reports why not |
| Workers.Collect | reecanner/scanner.py:415-461 | the batch loop collects the batch of the cache-free walk |
| Workers.PacketWorker | reecanner/scanner.py:383-493 | at every exit the probes sent are the walk up to the reported slot; a finished worker has sent its whole progression; an undisturbed one finishes |
| CWorker.NetTableFits | reecanner/scanner.py:263-266 | bases and start offsets fit the 32-bit arrays handed to the C worker, which describe the same ranges |
| CWorker.Refresh | reecanner/worker.c:366-371 | the cached address and verdict are those of the current shuffled index |
| CWorker.CSeek | reecanner/worker.c:362-379 | the cached inner loop stops at the same public index, with no 64-bit overflow |
| CWorker.CCollect | reecanner/worker.c:355-441 | the C batch loop collects the batch of the cache-free walk |
| CWorker.RunWorker | reecanner/worker.c:323-501 | the C engine sends its progression exactly like the Python one, while the work plus one stride is below 2^63 |
| CWorker.PayloadParityInPass | reecanner/worker.c:384-385 | at an index of pass k both engines send the same probe exactly when the payload count divides k times the address count |
| CWorker.FirstPassAlike | reecanner/worker.c:384-385 | both engines send the same probe at every index of the first pass, for every job |
| CWorker.EnginesEmitAlike | reecanner/worker.c:323-385 | for every job both engines emit the same sequence of addresses and ports on every stretch of a worker's walk; payloads agree too on stretches of the first pass, and everywhere if the payload count divides the address count |
| CWorker.PayloadParity | reecanner/worker.c:384-385 | the whole scans of the two engines are the same, probe by probe, exactly when there is one pass, or the payload count divides the address count, or no surviving address is public |
| EndToEnd.ScanIndicesMembers | reecanner/scanner.py:377-389 | the shards, each with its own worker count, visit every index from the start on and none twice |
| EndToEnd.EveryProbeExactly | reecanner/scanner.py:383-441 | the completed walks emit every surviving public address on every port exactly `retries` times and nothing else |
| EndToEnd.PlanScan | reecanner/__main__.py:221-229 | building both managers plans a job for targets minus blacklist with the given seed, ports, retries and payloads, and fails exactly when every target is blacklisted |
| EndToEnd.EveryTargetExactly | reecanner/scanner.py:383-441 | for a planned job: every target outside the blacklist, every port, `retries` times, nothing else |
| EndToEnd.PlannedAllPublic | reecanner/scanner.py:422-437 | no worker of a planned job ever meets a blacklisted candidate, so the 10,000-attempt guard never ends it |
| EndToEnd.ShardsSeparateAddressesIff | README.md:371-373 | no address is probed by two machines exactly when there is one machine, or one port and either one pass or a machine count dividing the address count, or nothing to probe |
| Checkpoint.BatchIsSend | reecanner/scanner.py:462-479 | a filled and sent batch of a worker is a send step of the state machine |
| Checkpoint.RunKeepsInv | reecanner/scanner.py:478-479 | in every interleaving each worker's frontier and slot are points of its own progression, the slot never ahead |
| Checkpoint.ReachableIffInv | reecanner/scanner.py:478-479 | some interleaving leads to a state exactly when its frontiers and slots are points of the workers' progressions, each slot at most the frontier |
| Checkpoint.SafeIff | reecanner/scanner.py:1118-1128 | everything due below a bound was visited exactly when every worker has sent up to it |
| Checkpoint.CheckpointSafe | reecanner/scanner.py:1118-1128 | once every worker has reported, in every state of every interleaving, nothing below the checkpoint index was skipped |
| Checkpoint.ResumeCoversAll | reecanner/scanner.py:1118-1128 | the old run and a resumed one with any worker count together visit every index of the shard |
| Checkpoint.CheckpointSafeIff | reecanner/scanner.py:1125-1127 | in every state, between send and report too, the index is safe exactly when every worker with an empty slot has sent up to it |
| Checkpoint.CheckpointSafeBySlotsIff | reecanner/scanner.py:1125-1127 | judged by the slots, which is all the saving process sees: safe in every reachable state that shows them exactly when every worker with an empty slot starts at or past the index |
| Checkpoint.BoundSafeBySlotsIff | reecanner/scanner.py:1118-1128 | exactly which bounds are safe in every reachable state with the same slots: those that neither a report nor the start of an unreported worker lies below |
| Checkpoint.CheckpointIsLeastReport | reecanner/scanner.py:1125-1127 | the index is one of the reports, and none is less |
| Checkpoint.CheckpointTight | reecanner/scanner.py:1118-1128 | once every worker has reported, the index is the greatest bound that is safe in every reachable state with these slots |
| Checkpoint.UnreportedWorkerSkipped | reecanner/scanner.py:1125-1127 | a two-step run of two workers after which index 1 is lost |
| Checkpoint.SentFallbackSafeIff | reecanner/scanner.py:1128 | with skipped and failed sends uncounted, start_index plus the total sent is safe exactly when every worker has sent up to it; judged by the counts, in every reachable state with these counts exactly when each worker reaches it by the indices it counted |
| Checkpoint.SingleWorkerFallback | reecanner/scanner.py:1128 | for one worker, on any number of shards, the fallback is always safe |
| Checkpoint.UnevenWorkersSkipped | reecanner/scanner.py:1128 | a run of two uneven workers after which the fallback loses index 1 |
| Checksum.TwoFoldsSuffice | reecanner/packet.py:15-41 | for up to 65,537 words `checksum` and `_fold` equal the checksum that folds until no carry is left |
| Checksum.ChecksumVerifies | reecanner/packet.py:15-21 | appending its checksum to a padded message makes it checksum to 0 |
| Checksum.PaddedIs | reecanner/packet.py:15-21 | an odd message gets one zero byte at its end |
| Checksum.Rfc1071Example | reecanner/packet.py:15-21 | the worked example of section 3 of RFC 1071 |
| Packet.IpChecksumFromStatic | reecanner/packet.py:73-85 | folding the static sum plus the address words gives the checksum over the whole IP header |
| Packet.TcpChecksumFromStatic | reecanner/packet.py:75-97 | likewise for the TCP checksum over pseudo-header and header |
| Packet.IpHeaderVerifies | reecanner/packet.py:184-194 | a complete IP header checksums to 0 |
| Packet.TcpHeaderVerifies | reecanner/packet.py:197-207 | pseudo-header and complete TCP header checksum to 0 |
| Fields.SynFields | reecanner/packet.py:184-207 | what a receiver reads from every SYN probe at the offsets of RFC 791 and RFC 9293: every field, and both checksums verify, the TCP one over the pseudo-header taken from the packet itself |
| Fields.UdpFields | reecanner/packet.py:102-140 | likewise for every UDP probe (RFC 768), with its payload |
| Fields.KnownSyn | reecanner/packet.py:184-207 | all 40 bytes of one SYN probe |
| PacketBuffers.EthernetFields | reecanner/packet.py:44-46 | the frame header has the gateway as destination, the own address as source, and the IPv4 type |
| PacketBuffers.BuildSynTemplate | reecanner/packet.py:56-77 | the template has every byte of a SYN packet but the patched ones, and the two static sums |
| PacketBuffers.PatchSyn | reecanner/packet.py:80-99 | whatever targets the buffer held before, it becomes the frame header plus the packet built from scratch for this target |
| PacketBuffers.PatchAll | reecanner/scanner.py:446-457 | after any sequence of patches the buffer is the packet of the last target alone |
| PacketBuffers.CInitSynSlot | reecanner/worker.c:250-288 | the set-up writes leave a zeroed TCP slot with every byte of a SYN packet but the patched ones |
| PacketBuffers.CFillSyn | reecanner/worker.c:388-431 | a C TCP slot becomes the same packet, and is ready for the next target |
| PacketBuffers.BuildUdpTemplate | reecanner/packet.py:102-122 | the template has every byte of the UDP packet for its payload but the patched ones |
| PacketBuffers.PatchUdp | reecanner/packet.py:125-140 | the buffer becomes the UDP packet built from scratch for this target |
| PacketBuffers.CInitUdpSlot | reecanner/worker.c:250-273 | a slot starts with the bytes that no target and no payload changes |
| PacketBuffers.CFillUdp | reecanner/worker.c:388-434 | whatever target and payload length the slot held before, its first off + plen bytes become that packet |
| Batches.SendSynBatch | reecanner/scanner.py:415-475 | what the Python worker hands to send for a SYN batch are, in order, the from-scratch packets of the probes that the cache-free walk calls for; a batch cut short hands over nothing |
| Batches.SendUdpBatch | reecanner/scanner.py:415-475 | the same for UDP, each probe in a copy of the template for its payload |
| Batches.CSendSynBatch | reecanner/worker.c:355-460 | the same for the C worker's SYN slots |
| Batches.CSendUdpBatch | reecanner/worker.c:355-460 | the same for its UDP slots, whatever lengths they held before |
| Batches.OnTheWire | reecanner/scanner.py:443-457 | the k-th packet handed to send carries the k-th probe's address, port and payload behind the frame header |
| Batches.SynWorker | reecanner/scanner.py:383-493 | over a whole run with reused buffers, at every exit: the packets handed to send are those of the walk up to the reported slot, and of the whole progression when the worker finishes |
| TcpOptions.ParseTcpOptions | reecanner/scanner.py:510-536 | the loop ends in bounds on arbitrary bytes and reads the options of `ParseFrom` |
| TcpOptions.OptionsRoundTrip | reecanner/scanner.py:510-536 | parsing any serialised option list, followed by nothing, an end-of-list byte and junk, or a malformed option, gives the last value of each kind |
| TcpOptions.EveryStringParses | reecanner/scanner.py:510-536 | every string of bytes is such a list, so the result is characterised on arbitrary bytes |
| TcpOptions.KnownOptions | reecanner/scanner.py:510-536 | the options of a common SYN-ACK, byte by byte |
| Receive.KeptIff | reecanner/scanner.py:782-815 | what each of the three filter programs keeps, by running it |
| Receive.KeptWhole | reecanner/scanner.py:782-815 | a kept packet is kept whole |
| Receive.FilterAgrees | reecanner/scanner.py:539-596 | for packets starting with 0x45: the parser accepts exactly the kept packets that meet the length and address checks |
| Receive.FilterLosesNothingIff | reecanner/scanner.py:782-815 | in TCP, UDP and ICMP mode, for every source port and with or without the local-address check: no reply with a given first byte is lost in the filter exactly when that byte is not 0x46 to 0x4F |
| Receive.IpOptionsIgnored | reecanner/scanner.py:539-596 | putting IP options of any length into a packet changes nothing about what the parser returns, in any mode |
| Receive.SynAckBits | reecanner/scanner.py:585-586 | the flag test accepts exactly the packets with both SYN and ACK |
| Receive.SynAckRoundTrip | reecanner/scanner.py:539-596 | parsing a TCP reply built from any fields and options, with any bytes after it, gives them back when it is a SYN-ACK to our port and address, and nothing otherwise |
| Receive.CutOffOptions | reecanner/scanner.py:590-592 | options that the packet is too short for are not read |
| Receive.UdpRoundTrip | reecanner/scanner.py:572-579 | parsing a UDP packet sent back by a host gives its address, port and TTL when it went to our port and address, and nothing otherwise |
| Receive.IcmpRoundTrip | reecanner/scanner.py:564-571 | parsing an echo reply to us gives its sender and TTL; any other ICMP message gives nothing |
| Hits.HostKeyInjective | reecanner/scanner.py:719 | the packed key identifies address and port |
| Hits.DistinctFacts | reecanner/scanner.py:716-722 | the reference keeps exactly one reply of each source |
| Hits.DistinctInOrder | reecanner/scanner.py:716-722 | in order of arrival it keeps exactly the replies that are the first of their source |
| Hits.FirstPositionsAre | reecanner/scanner.py:716-722 | the positions it keeps ascend and are those with no earlier reply of the same source |
| Hits.Sniffer.RegisterHit | reecanner/scanner.py:716-733 | duplicates change nothing; a new source is counted once; reaching the limit clears event and flag |
| Hits.Sniffer.ProcessPacket | reecanner/scanner.py:736-756 | emitted hits stay the first replies of distinct sources cut at the limit, count and key set agree, nothing is emitted once the event is cleared |
| Hits.Sniff | reecanner/scanner.py:871-898 | over any packet sequence: the emitted hits are the distinct sources in order of arrival up to the limit; run event and run flag are cleared exactly when the limit is reached, and never without a limit |
| Adaptive.RateController.SetRateLimit | reecanner/scanner.py:1168-1173 | every worker slot gets the per-worker rate of the new limit |
| Adaptive.RateController.Tick | reecanner/scanner.py:1175-1221 | a due tick is one decision on the failures since the last one, any other tick none; the slots always match the rate |
| Adaptive.RateStaysInBounds | reecanner/scanner.py:1195-1213 | over every run min(initial, 100) <= rate <= initial |
| Adaptive.BackOff | reecanner/scanner.py:1195-1199 | a failing window takes a fifth off the rate, rounded down as the doubles do, and stops at 100; at or below 100 it changes nothing |
| Adaptive.Raise | reecanner/scanner.py:1206-1213 | from the second clear window on, a tenth is added, rounded down as the doubles do, but at least 1, up to the initial rate |
| Adaptive.FailuresBackOff | reecanner/scanner.py:1195-1199 | n failing windows in a row bring the rate down to four fifths to the n-th, or to the floor |
| Adaptive.FailuresReachFloor | reecanner/scanner.py:1195-1199 | how many failing windows bring any rate to the floor |
| Adaptive.DecisionTimes | reecanner/scanner.py:1185-1189 | over every sequence of ticks: decisions are at least 5 seconds apart and past the grace period, and none is left out that is due |
| Adaptive.UnlimitedStays | reecanner/scanner.py:1164-1166 | an unlimited scan stays unlimited |
| Adaptive.SlotsShareTheRate | reecanner/scanner.py:1160-1173 | each slot is at least 1; together they do not exceed max(rate, workers) and fall short of the rate by less than one per worker |
| Adaptive.ClearWindowsRaise | reecanner/scanner.py:1206-1213 | n clear windows raise the rate by at least n - 1, never past the initial rate |
| Adaptive.Recovers | reecanner/scanner.py:1206-1213 | after any run 1 + (initial - rate) clear windows restore the initial rate |
| Adaptive.RunTicks | reecanner/scanner.py:1461-1463 | over every sequence of ticks the controller goes through the due decisions; its rate stays within bounds, and the slots are at least 1 and share the rate |
| Adaptive.FactorsExact | reecanner/scanner.py:1196-1211 | for rates below 2^48 the products with the doubles 0.8 and 1.1, rounded and truncated, are the exact fractions rounded down |
| Adaptive.RaiseRightAfterFailureIff | reecanner/scanner.py:1195-1213 | a raise right after a failing window happens exactly at or below the floor with a clear window counted and the rate below the initial one |
| Adaptive.RaiseFollowsTwoClear | reecanner/scanner.py:1182-1183 | every raise comes in a clear window, preceded by another unless the rate was at the floor |
| Adaptive.FloorRaise | reecanner/scanner.py:1195-1199 | a run that is raised after a single clear window |

## Left out

- Sockets, `sendmmsg`, processes, signals, sleeping, CPU affinity: a send is an appended probe, so "sent" means handed to send, not delivered; the environment's choices (rates, when the run flag is seen cleared) are parameters.
- Parsing of CIDR and ASN strings, IPv6 blacklist entries, the built-in blacklist tables: the model starts from parsed IPv4 ranges, with `None` for a string that does not parse.
- Random choice of a seed when none is given: the seed is a parameter.
- Inclusion.CGetIp: the branch for `lo == 0` is omitted because the first start offset is always 0.
- The strided batch buffer of the C worker: one array per slot stands for it, and a batch is patched once it is collected, not probe by probe as it grows.
- Adaptive.RateController.Tick: computes with the exact fractions 8/10 and 11/10, which `Adaptive.FactorsExact` shows to be what doubles give for rates from 0 to 2^48 (no maximum picks the product of a negative rate); times are real numbers, not doubles.
- ICMP templates: they repeat the IP part of the UDP ones with a static checksum.
- Payloads over 65,507 bytes, for which `struct.pack` raises an error.
- Output sinks, service names, fingerprinting, banners, Redis, status files, progress display, preflight: no part of the engine.
