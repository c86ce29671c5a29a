# XDP programs: packet rewriting, flow accounting, routing

Dafny models of the harder programs in an XDP/eBPF collection, with proofs of what they keep and
promise. Frames are byte sequences in a packet buffer, BPF maps are finite maps, and kernel helpers
appear as methods or steps known only by their contracts.

- **Checksums** (`OnesComplement`, `TtlRewrite`, `HttpInjector`, `HttpReply`). RFC 1071 sums in both byte
  orders; the incremental update of RFC 1624 equals recomputation exactly when the old header verified;
  everything the HTTP injector transmits verifies at the receiver.
- **Flow accounting** (`SharedCounter`, `FlowExactness`, `FlowTracker`, `FlowCounter`, `PerCpuCounter`,
  `HashMaps`, `DrainLoops`). N CPUs and a reader interleave step by step. `SharedCounter` is the protocol
  of both counting programs, whatever their way from a frame to its key; `FlowTracker` and `FlowCounter`
  supply theirs. Conservation holds up to exactly accounted losses, and is exact if and only if no step
  drops a packet; two concrete runs lose one. The per-CPU variant loses nothing. The three user-space
  loops agree when there is no traffic.
- **Frames** (`Printing`). Headers written out field by field; what each program reads from a frame is
  proved to be what was printed.
- **Host extraction** (`HostScan`) inverts printing, and the payload plays no part in forwarding.
- **Router and loader** (`L7Router`, `RouterLoader`). The nine map updates may land anywhere among the six
  map reads of any number of packets; what is emitted goes where the finished router sends it.
- **Row-partitioned multiplication** (`RowMultiply`). Every schedule of the threads ends, with the product.

## Findings about the code

- Unconditional conservation of flow counts is false: `FlowTracker.LostInTheWindow` and
  `FlowTracker.LostInACommonMiss` give runs. `SharedCounter.Conservation` says by how much and
  exactly when not at all, `FlowExactness.QuietConservation` gives a condition on the neighbourhood.
- Returning to the original TTL does not restore a checksum of 0xffff (`TtlRewrite.RestoringTtl`).
- The inspecting program drops IPv4 frames with short or inconsistent headers that the plain forwarder
  relays; on all others they agree (`HostScan.InspectionKeepsForwarding`).
- While the loader runs, a frame can leave with one address set and the other zero, because the program
  copies the two addresses of a pair one after the other (`RouterLoader.TornRun`). That is the only way
  the pair is mixed (`RouterLoader.EveryRunIsSafe`).
- With 1000 rows and 12 threads, rows 996 to 999 are never computed (`RowMultiply.RowsOfTheProgram`).
- The injector's second TCP `bpf_csum_diff` call covers 151 bytes with the text in the file. The helper's
  manual asks for multiples of four, so the helper may refuse; the program then drops the frame. The
  theorems take what the kernel grants as an input and say exactly when XDP_TX happens.
- Line 51 of the loader is a stray `d`, which stops the script under `set -e`; the model follows the
  sequence of updates the rest of the script makes.

## Model

| member | source | states |
|---|---|---|
| OnesComplement.CsumFold | server_xdp/dpi/pkt_crafting/http_response_craft.c:33-39 | two carries and a complement give the complement of the fully folded value of any 32-bit sum |
| OnesComplement.TwoFoldsSuffice | server_xdp/dpi/TTL_INS/ttl_ins.c:48-52 | a second carry leaves none for any 32-bit sum |
| OnesComplement.SumByteOrder | server_xdp/dpi/pkt_crafting/http_response_craft.c:470-487 | little-endian and big-endian word sums of any bytes are byte swaps of each other modulo 0xffff and vanish together |
| OnesComplement.SumSplice | server_xdp/dpi/TTL_INS/ttl_ins.c:34-42 | overwriting one aligned word changes the sum by the difference of the words |
| OnesComplement.OddPadding | server_xdp/dpi/pkt_crafting/http_response_craft.c:541-552 | in both byte orders an odd last byte counts as if a zero byte followed it |
| TtlRewrite.RewriteTtl | server_xdp/dpi/TTL_INS/ttl_ins.c:13-68 | in place: TTL and checksum bytes of the header become the updated ones, every other byte of the packet stays |
| TtlRewrite.RewriteMatchesRecompute | server_xdp/dpi/TTL_INS/ttl_ins.c:30-57 | the rewritten header is bit for bit the one with the TTL installed and the checksum computed from scratch, if and only if the old header verified |
| TtlRewrite.RewritePreservesValidity | server_xdp/dpi/TTL_INS/ttl_ins.c:34-57 | a header verifies after a rewrite if and only if it verified before |
| TtlRewrite.ChainIsLastRewrite | server_xdp/dpi/TTL_INS/ttl_ins.c:13-68 | any nonempty chain of rewrites equals one rewrite to the last TTL |
| TtlRewrite.RestoringTtl | server_xdp/dpi/TTL_INS/ttl_ins.c:44-57 | rewriting and going back to the old TTL restores the header if and only if its checksum was not 0xffff |
| TtlRewrite.XdpRedirectCommon | server_xdp/dpi/TTL_INS/ttl_ins.c:71-178 | verdict and packet for every frame: header checks, rewrite of TCP frames only, then relay |
| TtlRewrite.RewritingKeepsForwarding | server_xdp/dpi/TTL_INS/ttl_ins.c:71-178 | frames with a short or overlong IPv4 header are dropped as they came; every other frame that is not TCP gets exactly the plain forwarder's verdict and bytes, and a TCP frame its verdict and first 14 bytes |
| TtlRewrite.ForwardedHeader | server_xdp/dpi/TTL_INS/ttl_ins.c:106-175 | on every TCP frame the program keeps the header's validity, carries the recomputed checksum exactly if it was valid, touches nothing behind the header, and a later hop with another TTL leaves the same header as one hop |
| Forwarder.XdpRedirectProg | server_xdp/Routing_and_redirect/redirect_bidir.c:11-65 | verdict and packet for every frame and arrival interface |
| Forwarder.Policy | server_xdp/Routing_and_redirect/redirect_bidir.c:20-63 | IPv4 frames of one port leave by the other with the laptop and server addresses of that port, ARP and IPv4 from elsewhere pass, all else is dropped, nothing goes back where it came from and only addresses change |
| HttpInjector.BpfCsumDiff | server_xdp/dpi/pkt_crafting/http_response_craft.c:541-552 | the helper refuses, or returns some 32-bit one's-complement accumulation of seed and zero-padded little-endian words |
| HttpInjector.BpfXdpAdjustTail | server_xdp/dpi/pkt_crafting/http_response_craft.c:247-265 | the helper refuses and changes nothing, or resizes and keeps the common prefix |
| HttpInjector.AcceptedBytes | server_xdp/dpi/pkt_crafting/http_response_craft.c:43-231 | which requests are answered, byte by byte: header words, port, flags, lengths |
| HttpInjector.ChainedChecksum | server_xdp/dpi/pkt_crafting/http_response_craft.c:508-562 | the accumulation seeded from the 16-byte pseudo-header, folded and stored by a little-endian host, is the big-endian checksum of segment and standard 12-byte pseudo-header, odd lengths included |
| HttpInjector.XdpHttpInjector | server_xdp/dpi/pkt_crafting/http_response_craft.c:43-572 | XDP_TX if and only if the request is accepted, holds its claimed IP length and the kernel grants all four helper calls, and then the frame is the reply with both checksums from scratch plus as many bytes as trailed the request; XDP_PASS if and only if it is not accepted or cannot be resized, and then the frame is identical |
| HttpReply.ReplyVerifies | server_xdp/dpi/pkt_crafting/http_response_craft.c:420-562 | the reply is one whole datagram whose IPv4 header and TCP segment verify |
| HttpReply.SentFrameVerifies | server_xdp/dpi/pkt_crafting/http_response_craft.c:466-571 | every transmitted frame verifies at a receiver that reads up to the total length, whatever trails it |
| HttpReply.Inject | server_xdp/dpi/pkt_crafting/http_response_craft.c:43-572 | running the program: it answers exactly such requests, and the frame it sends is a datagram whose IPv4 header verifies and whose TCP segment verifies against addresses, zero, protocol and length |
| HttpReply.ReplyFields | server_xdp/dpi/pkt_crafting/http_response_craft.c:320-449 | addresses and ports are swapped, SEQ is the old ACK, ACK is past the payload modulo 2^32, flags and text are the fixed ones |
| HttpReply.ReplyKeeps | server_xdp/dpi/pkt_crafting/http_response_craft.c:320-425 | every field the program does not set is the request's, and the total length is the reply's |
| HttpReply.ConversationInStep | server_xdp/dpi/pkt_crafting/http_response_craft.c:361-381 | over any number of rounds with an in-order client, reply k starts at the client's expected number and acknowledges all it has sent, modulo 2^32 |
| HttpReply.RequestsExist | server_xdp/dpi/pkt_crafting/http_response_craft.c:135-231 | every state of an in-order client has a next request that the program accepts |
| HostScan.CheckMethod | server_xdp/dpi/http_hostna_dpi/host_name_ins.c:127-165 | true exactly on payloads that start with one of the three methods and a space |
| HostScan.MethodsAreText | server_xdp/dpi/http_hostna_dpi/host_name_ins.c:127-165 | a request is exactly what starts with `GET `, `POST ` or `HEAD ` |
| HostScan.FindHost | server_xdp/dpi/http_hostna_dpi/host_name_ins.c:176-200 | the first `Host:` at index 0 to 250, or -1 exactly when there is none there |
| HostScan.HostIsText | server_xdp/dpi/http_hostna_dpi/host_name_ins.c:186-195 | a place matches exactly if the raw text `Host:` stands there |
| HostScan.SkipSpaces | server_xdp/dpi/http_hostna_dpi/host_name_ins.c:211-227 | skips the longest run of at most eight spaces |
| HostScan.CopyHost | server_xdp/dpi/http_hostna_dpi/host_name_ins.c:230-261 | copies the longest run of at most 63 bytes without CR or LF, zero-terminated, inside the 64-byte buffer |
| HostScan.Inspect | server_xdp/dpi/http_hostna_dpi/host_name_ins.c:127-267 | reports, for every payload, the rest of the line after the first `Host:` in reach of a request, or nothing |
| HostScan.ReportedOnce | server_xdp/dpi/http_hostna_dpi/host_name_ins.c:174-267 | at most one report fits a payload, so the declarative specification determines the result |
| HostScan.HostDoesNotOverlap | server_xdp/dpi/http_hostna_dpi/host_name_ins.c:191-195 | an occurrence of `Host:` that starts before another one ends before it |
| HostScan.ExtractionInvertsPrinting | server_xdp/dpi/http_hostna_dpi/host_name_ins.c:174-267 | for a printed request whose prefix holds no `Host:`, with up to eight spaces and a line ended by CR or LF, the host is exactly the name if and only if the prefix is at most 250 bytes, the name at most 63, and no leading space of the name can be skipped |
| HostScan.XdpInspectingProg | server_xdp/dpi/http_hostna_dpi/host_name_ins.c:19-342 | verdict and packet for every frame, and a report exactly for inspected payloads |
| HostScan.SearchedPrinted | server_xdp/dpi/http_hostna_dpi/host_name_ins.c:64-116 | of all printed TCP segments, with any options, exactly those from the client's port to port 80 are searched, and what is searched is the payload |
| HostScan.InspectionKeepsForwarding | server_xdp/dpi/http_hostna_dpi/host_name_ins.c:30-93 | the inspecting program, check by check, and the plain forwarder agree in verdict and frame if and only if the headers are not refused; a refused frame is dropped, and the forwarder lets it through |
| HostScan.PayloadPlaysNoPart | server_xdp/dpi/http_hostna_dpi/host_name_ins.c:106-341 | two segments with the same headers and any payloads get the same verdict and addresses, those of the plain forwarder, and each keeps its own bytes |
| SharedCounter.StepKeepsInv | flow_accounting/flow_tracker_user.c:80-105 | every step keeps: pointers are to elements of their flow, capacity is respected, and the keys the reader is about to use are present, so its unchecked lookup succeeds |
| SharedCounter.StepConserves | flow_accounting/xdp_flow_tracker.c:57-65 | every step balances: packets of a flow newly handled are newly logged, newly in the map, or lost by that step |
| SharedCounter.RunHandles | flow_accounting/xdp_flow_tracker.c:57-65 | every frame of a flow that enters the program is handled exactly once, but for those a CPU is still busy with |
| SharedCounter.BatchDrains | flow_accounting/flow_tracker_user.c:67-105 | from any state with the reader asleep and in any walk order, its batch alone logs one row with its count for every entry, empties the map and goes back to sleep |
| SharedCounter.KeepingAllIsNoLoss | flow_accounting/xdp_flow_tracker.c:57-65 | a run loses nothing of a flow if and only if every addition goes to the entry in the map, no insert meets unlogged packets or is refused, and every delete takes what was logged |
| SharedCounter.Conservation | flow_accounting/flow_tracker_user.c:80-105 | over every interleaving, frames arrived equal packets handled plus those in flight, and packets handled equal packets logged plus still unlogged in the map plus the losses of the run; hence logged plus remaining never exceed handled, and equal them if and only if no step drops a packet |
| FlowExactness.QuietConservation | flow_accounting/xdp_flow_tracker.c:57-65 | logged plus remaining equal handled when no CPU is mid-packet on the flow in the reader's window, no insert of it is refused and no two CPUs miss on it together |
| FlowTracker.CountedFrames | flow_accounting/xdp_flow_tracker.c:30-57 | which frames are counted, byte by byte, TCP and UDP |
| FlowTracker.FlowOfPrinted | flow_accounting/xdp_flow_tracker.c:37-55 | a printed TCP or UDP frame, with any header contents, options and payload, is counted under its own addresses and ports |
| FlowTracker.CountedFlows | flow_accounting/xdp_flow_tracker.c:25-57 | the flows that some frame is counted under are exactly those without a zero port |
| FlowTracker.LostInTheWindow | flow_accounting/flow_tracker_user.c:84-104 | for every counted flow, a run in which a packet counted between lookup and delete is lost |
| FlowTracker.LostInACommonMiss | flow_accounting/xdp_flow_tracker.c:58-64 | for every counted flow, a run in which two CPUs miss together and one packet is lost |
| FlowExactness.FewOverwritesAfterCreation | flow_accounting/xdp_flow_tracker.c:61-64 | without deletion the count of a new flow is overwritten or an insert of it refused at most N - 1 times |
| FlowExactness.MissesRunOut | flow_accounting/xdp_flow_tracker.c:58-64 | without deletion collisions plus pending misses of a present flow stay constant |
| FlowExactness.SettledCountIsExact | flow_accounting/xdp_flow_tracker.c:57-65 | without deletion and pending misses the count grows by exactly the packets handled, less one for each pointer to an overwritten element that is used up, and there are never more such pointers than at the start |
| FlowExactness.IdleIsSettled | flow_accounting/xdp_flow_tracker.c:57-65 | a flow in the map that no CPU is mid-packet on has no pending miss and no pointer to an overwritten element |
| FlowExactness.ExactFromThenOn | flow_accounting/xdp_flow_tracker.c:57-65 | from such a state on, in every run without deletion, every packet handled adds exactly one to the count, and the flow stays in such a state |
| FlowExactness.ExactIffSettled | flow_accounting/xdp_flow_tracker.c:57-65 | every run without deletion counts every packet if and only if at its start no CPU has a pending miss or a pointer to an overwritten element; otherwise one CPU step already misses a packet |
| FlowExactness.CountBounds | flow_accounting/xdp_flow_tracker.c:17-22 | in every run, deletions included, the map stays within capacity and a present count is between 1 and the packets handled |
| FlowExactness.CountsUnderTraffic | flow_accounting/xdp_flow_tracker.c:57-65 | with the reader asleep a count is short of its packets by exactly the losses, and exact if and only if no step drops one |
| PerCpuCounter.StepKeepsInv | bpf-maps/maps_z/percpu_hash.c:34-47 | every step keeps each cell equal to the packets its own CPU completed and was not refused, with load and store of the increment apart |
| PerCpuCounter.CountedFrames | bpf-maps/maps_z/percpu_hash.c:20-30 | every frame that says IPv4 and holds 20 header bytes is counted, and no other |
| PerCpuCounter.SourceOfPrinted | bpf-maps/maps_z/percpu_hash.c:32-34 | a printed frame of any protocol is counted under its source address |
| PerCpuCounter.CountingIsExact | bpf-maps/maps_z/percpu_hash.c:34-47 | under every interleaving the cells of an address sum to its completed packets minus the refused ones, and what each CPU completed is what arrived at it but for a packet it is busy with |
| PerCpuCounter.RefusedOnlyWhenFull | bpf-maps/maps_z/percpu_hash.c:40-47 | a packet is refused exactly when it would add an address to a full map |
| HashMaps.ListingIsExact | flow_accounting/userspace_flow_count_FA/read_and_delete_file.c:50-89 | the rows of a full walk hold every entry with its count exactly once |
| DrainLoops.DrainBatch | flow_accounting/flow_tracker_user.c:67-105 | ends, empties the map, logs the full listing, and computes flows, total and the first busiest flow |
| DrainLoops.DrainByRestart | flow_accounting/userspace_flow_count_FA/read_and_delete_file.c:50-89 | ends, empties the map and logs the same listing, although it asks with deleted keys |
| DrainLoops.ListFrom | flow_accounting/userspace_flow_count_FA/user_program.c:48-66 | lists the entries behind the given key, or all of them if the key is absent |
| DrainLoops.ListingFromZero | flow_accounting/userspace_flow_count_FA/user_program.c:30-66 | the listing from the all-zero key is the full one if and only if that key is not a flow |
| FlowCounter.XdpFlowCounter | flow_accounting/userspace_flow_count_FA/xdp_program.c:32-88 | one frame increments or inserts its flow, and a full map refuses new flows |
| FlowCounter.CountedFrames | flow_accounting/userspace_flow_count_FA/xdp_program.c:36-58 | which frames are counted, byte by byte |
| FlowCounter.FlowOfPrinted | flow_accounting/userspace_flow_count_FA/xdp_program.c:61-66 | a printed TCP frame, with any header contents, options and payload, is counted under its own addresses, ports and protocol |
| FlowCounter.CountsAreExact | flow_accounting/userspace_flow_count_FA/xdp_program.c:51-85 | frames handled one after another: every entry counts all frames of its flow, keys are TCP keys, and a seen flow is missing only from a full map |
| FlowCounter.UndisturbedIsCounted | flow_accounting/userspace_flow_count_FA/xdp_program.c:68-85 | in any state of any number of CPUs, a frame that no other step disturbs changes the map as the program does on its own |
| FlowCounter.CountsAfterTraffic | flow_accounting/userspace_flow_count_FA/xdp_program.c:51-85 | after any run of any number of CPUs keys are TCP keys, counts are between 1 and the packets handled, and without another reader they are short by exactly the losses |
| FlowCounter.ListingAfterTraffic | flow_accounting/userspace_flow_count_FA/user_program.c:30-66 | in every state any number of CPUs can reach, the listing that starts from the zero key writes every flow exactly once with its count |
| L7Router.Router.GetRoleIfindex | server_xdp/Routing_and_redirect/redirecting/multiports_redirecting/xdp_l7_router.c:116-146 | the entry of an existing role, an error for others |
| L7Router.Router.SetEthMacs | server_xdp/Routing_and_redirect/redirecting/multiports_redirecting/xdp_l7_router.c:153-197 | both addresses of the slot in place and nothing else, an error and no change for others |
| L7Router.Router.XdpL7Router | server_xdp/Routing_and_redirect/redirecting/multiports_redirecting/xdp_l7_router.c:237-808 | verdict and packet for every frame, interface and map contents |
| RouterLoader.NumberRoundTrip | server_xdp/Routing_and_redirect/redirecting/multiports_redirecting/load_xdp_l7_router.sh:80-87 | the four printed hex bytes, read back as a little-endian word, are the number modulo 2^32 |
| RouterLoader.AnySelectionIsSafe | server_xdp/Routing_and_redirect/redirecting/multiports_redirecting/load_xdp_l7_router.sh:136-185 | with any selection of the updates in any order, the exact verdict (dropped, aborted or emitted) by whether arrival interface and transmit slot were chosen, and what is emitted leaves where the finished router sends it, with its addresses or zeros |
| RouterLoader.Policy | server_xdp/Routing_and_redirect/redirecting/multiports_redirecting/xdp_l7_router.c:342-808 | the finished router emits nothing from Z, sends exactly the client's HTTP frames to Z, exactly its ARP, ICMP, DNS and HTTPS frames to F, exactly ARP and IPv4 from F to the client, never back out of the arrival interface, and changes nothing but the addresses of IPv4 frames |
| RouterLoader.ClassesOfPrinted | server_xdp/Routing_and_redirect/redirecting/multiports_redirecting/xdp_l7_router.c:448-808 | the traffic classes of printed frames by protocol and destination port, whatever else they hold |
| RouterLoader.EveryRunIsSafe | server_xdp/Routing_and_redirect/redirecting/multiports_redirecting/load_xdp_l7_router.sh:136-185 | in every run, with updates landing between any two map reads of any packets, the exact verdict by what was set when it was read; what is emitted leaves by the finished router's interface with its addresses or zeros, and the pair is mixed if and only if its update lands between the two address copies |
| RouterLoader.TornRun | server_xdp/Routing_and_redirect/redirecting/multiports_redirecting/xdp_l7_router.c:153-197 | for every configuration with real client addresses and every IPv4 frame from F, a run that emits it with one address zero and the other final |
| RouterLoader.Populate | server_xdp/Routing_and_redirect/redirecting/multiports_redirecting/load_xdp_l7_router.sh:146-185 | the nine updates turn fresh maps into the finished configuration |
| RowMultiply.EveryScheduleMultiplies | os/threads/nxn-multiplication/multithreaded-bk.c:22-41 | every schedule has at most T * (N / T) * N * (2 * N + 1) steps, as many exactly when no thread can move, and then the covered rows hold the product; the other rows keep their contents throughout |
| RowMultiply.UnitIsNeutral | os/threads/nxn-multiplication/multithreaded-bk.c:22-41 | the product of the cells' inner products has the unit matrix as neutral element on both sides |
| RowMultiply.ProductIsAssociative | os/threads/nxn-multiplication/multithreaded-bk.c:22-41 | and is associative |
| RowMultiply.NobodyIsStuck | os/threads/nxn-multiplication/multithreaded-bk.c:22-41 | in every reachable state the threads have all halted if and only if none can take a step |
| RowMultiply.SchedulesEnd | os/threads/nxn-multiplication/multithreaded-bk.c:74-94 | a schedule and the work left add up to the initial work, so none goes on forever and the threads have halted exactly when no work is left |
| RowMultiply.PartitionCovers | os/threads/nxn-multiplication/multithreaded-bk.c:74-80 | the ranges are disjoint, inside the matrix, and cover exactly the first T * (N / T) rows |
| RowMultiply.RowsOfTheProgram | os/threads/nxn-multiplication/multithreaded-bk.c:7-8 | with 1000 rows and 12 threads exactly rows 0 to 995 are assigned |
| RowMultiply.PartialSumsFit | os/threads/nxn-multiplication/multithreaded-bk.c:50-65 | with entries from 100 to 200 and at most 1000 terms every partial sum is between 0 and 40,000,000 |
| RowMultiply.Multiply | os/threads/nxn-multiplication/multithreaded-bk.c:22-41 | one thread's loops leave the product in its rows and the other rows alone |

## Left out

- Loading, attaching, pinning, signals, sleeping, file output, `inet_ntop` and `bpf_printk`: plumbing. The
  printed host is modelled as the bytes copied; `%s` would stop at a zero byte.
- Internals of `bpf_csum_diff`, `bpf_xdp_adjust_tail`, hash maps and device maps are not part of this
  model; each is a contract, and the bodies given for the first two only show that it can be met.
- HttpInjector.XdpHttpInjector: takes a response of at most 65495 bytes, because a longer one does not fit
  an IPv4 datagram; the text in the file has 131.
- SharedCounter.Conservation: takes counts to be unbounded, because a 64-bit packet counter does not wrap
  within any run of interest; the same holds for the totals of DrainLoops.
- SharedCounter models an element deleted or replaced while a CPU holds its pointer as detached; recycling of
  hash elements is below its level.
- FlowCounter.CountsAreExact: is about frames handled one after another; for several CPUs at once the count
  can fall short, and FlowCounter.CountsAfterTraffic says by how much.
- A listing of `user_program.c` during traffic: it has no fixed map to be compared with.
- RouterLoader.EveryRunIsSafe: takes the copy of one address and the store of one map entry to be single
  steps, because memory below that is not what the program controls.
- Field values read as 32-bit numbers are compared in network order; the programs keep them as stored.
- RouterLoader takes the addresses as bytes already; `mac_bytes_clean` only splits text.
- Bloom-filter, queue, ring-buffer, LRU, array and map-in-map demos, single-slot routers and the simpler
  counters: thin wrappers over helpers or special cases of the programs here.
