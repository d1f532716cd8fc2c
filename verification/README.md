# ringroute, verified

ringroute sends every traceroute probe at once through io_uring and folds
whatever completions come back, in whatever order, into one table of probes.
This project models that program in Dafny 4.11 and proves what its table means.
`dafny verify dfyconfig.toml` checks everything.

## How the model is put together

| file | what it holds |
|---|---|
| `Prelude.dfy` | fixed-width integers, byte-order codecs and their inverses |
| `Net.dfy` | the control-message walk, `cmsg_align`, socket addresses, and the byte layouts they invert |
| `Checksum.dfy` | the Internet checksum over a segment and its pseudo-header |
| `Icmp.dfy`, `Methods.dfy` | ICMP classification and the three methods: what a probe carries, how a reply names it |
| `Ring.dfy` | user data and the program's view of the submission queue |
| `Trace.dfy` | the machine: `Next` handles one completion, `Apply` takes one step of program or kernel, `Exec` a whole run |
| `Conservation.dfy` | who owns which request; no crash; when a re-arm fits |
| `StopRule.dfy` | the stop condition against its plain meaning |
| `History.dfy`, `Runs.dfy` | the table as a function of the history; monotonicity and commutation |
| `Arming.dfy` | the order of the setup: readers before sends |
| `Scripts.dfy` | the loop against a script of the kernel's choices, and why scripts lose nothing |
| `Tracer.dfy` | the same program as a class with mutable fields, proved against `Trace` |
| `Attribution.dfy` | results belong to the probes that caused them, from bytes to table |
| `Rendering.dfy`, `Output.dfy` | the printed trace and what can be read back from it |

A run is any sequence of `Action`s in which each is `Enabled`: the program
submits, waits, handles one visible completion at a time and publishes its
queue; the kernel consumes any prefix of what is published (also when the submit
fails with EBUSY) and posts completions at any moment and in any order.
`Reachable` means reached by such a run after a completed setup. All main
results are about every reachable state.

What is assumed of the kernel is the predicate `Postable` and nothing else: it
completes only requests it owns, with their tag unchanged; only a read may
complete without being final; a successful read brings a message of positive
length. What is assumed of the io_uring crate is `SubmissionQueue`: a push is
refused when the occupancy in the program's own view has reached the capacity,
and that view learns what the kernel consumed only at `sync`.

## Where the code and its comments part

* `src/trace.rs:363-365` sizes the ring for one live request per owner, and there
  is indeed never more than one. But until the program calls `sync` again, at
  line 473, entries the kernel has consumed still count as occupied. A read that
  ends in the very first batch therefore needs room beyond the ring size.
  `ReArmNeverRejectedIff` gives the exact bound: no run has a re-arm rejected if
  and only if the capacity is at least the ring size plus the number of readers.
  `CommandLineCanFallShort` is one failing setting the command line allows: 28
  hops of one probe with two readers make a ring of 31 entries, which rounds up
  to 32, and 33 are wanted.
* `src/method/tcp.rs:244-251` reserves 20 bytes for the IPv4 header. On its own
  that would not do for IP options; what makes up for it is the control space of
  the same buffer, which the receive queue does not use. `RoomForOptions` shows
  the sum is enough and `BufferKeepsIdentity` that no buffer ever costs a reply
  its identity.
* `src/main.rs:77-78` announces at most 10 probes per hop, while the range passed
  to the parser excludes 10. `FromCommandLine` follows the parser.

## Model

| member | source | states |
|---|---|---|
| Net.CmsgAlignRoundsUp | src/net.rs:52-55 | the add-and-mask trick is rounding up to a multiple of eight, for every length whose sum with seven is a usize |
| Net.SockaddrParsesExactlyItsLayout | src/net.rs:71-105 | an address is parsed if and only if the bytes start with its kernel layout, for both families, whatever `sin_zero` or later bytes hold |
| Net.AlignLength | src/net.rs:52-55 | on usize, aligning a length inside a slice neither overflows nor misses the multiple of eight |
| Net.TakeTurn | src/net.rs:110-166 | one turn of the loop on usize: reads stay inside the slice, sums do not overflow, the offset grows by at least a header, and the answer ahead is unchanged |
| Net.WalkControl | src/net.rs:107-169 | the loop terminates on every byte string with the answer of the recursive walk, and no sum in it, the guard's included, leaves usize |
| Net.WalkReadsFirstRecverr | src/net.rs:110-166 | for any list of padded non-RECVERR messages, then a RECVERR message, then any bytes, the answer is what that message's data holds, including no answer for a foreign origin or short data |
| Net.WalkSuccessHasLayout | src/net.rs:110-166 | every success comes from such a layout |
| Net.WalkInvertsLayout | src/net.rs:107-169 | both directions: an error is returned if and only if it is what the first RECVERR message of some aligned layout holds |
| Net.WalkIgnoresTrailingBytes | src/net.rs:120-163 | a success depends on no byte past the end of the first RECVERR message, which is where the skipped messages and that message end |
| Net.RecverrRoundTrip | src/net.rs:71-169 | type, code, info and trailing bytes of the report come back, and the trailing bytes parse to the encoded offender |
| Net.ReadExtendedErrorExact | src/net.rs:131-163 | data is read as an error if and only if it is the kernel's report of that ICMP error and those bytes follow; short data and any other origin are no report |
| Net.RecverrFitsControl | src/net.rs:60-68 | one padded report fits the reserved control space for either family, with nothing to spare for IPv6 |
| IcmpErrors.KindExact | src/icmp.rs:26-65 | every failure the RFCs name is classified by its meaning, whatever its further information; any other code of Destination Unreachable keeps its code, anything else its type and code |
| IcmpErrors.HopAndDestinationExact | src/icmp.rs:33-54 | a hop is exactly an expired TTL or hop limit in transit, and the target is exactly an unreachable port |
| Methods.IcmpProbe | src/method/icmp.rs:113-125 | filling the packet in place yields the echo request with the id as its sequence number |
| Methods.EchoNamesProbe | src/method/icmp.rs:113-130 | a host that echoes the requests of its family and nothing else echoes every probe, whatever the kernel filled in; the echo names the probe, has the reserved length and brings the payload back |
| Methods.SequenceExact | src/method/icmp.rs:20-23 | a reply names an id if and only if it has eight bytes and bytes 6 and 7 are that id in network order |
| Methods.UdpPortCodec | src/method/udp.rs:123-130 | the port identifies exactly ids up to 32101; 32102 to 65534 map to ports 1 to 33433 and are refused; 65535 collides with 0; port 0 is never used |
| Methods.UdpPortInjective | src/method/udp.rs:123-130 | no other two ids share a port |
| Methods.UdpReadersAgree | src/method/udp.rs:31-55 | the receive-queue and error-queue readers agree on every address of the target |
| Methods.SetField | src/method/tcp.rs:204-236 | a setter overwrites its field and nothing else |
| Methods.TcpProbe | src/method/tcp.rs:200-242 | the setters, in their order, build the SYN of `Syn` in place with the checksum filled in last, and the receiver's checksum test passes |
| Methods.SynVerifies | src/method/tcp.rs:225-236 | for every source, target, port, id and timestamp the packet behind its pseudo-header adds up to all ones |
| Methods.SynOptionsRead | src/method/tcp.rs:211-224 | a receiver reads from the options the segment size that fills an Ethernet frame, selective acknowledgement, the clock, and a window scale of seven |
| Methods.SynIsAnswered | src/method/tcp.rs:37-242 | a listening host accepts every probe (SYN alone, readable options, right checksum, nothing else set), and every segment with the probe's ports swapped that acknowledges its sequence number is identified as that probe, bare or behind any IPv4 header |
| Checksum.ChecksumVerifies | src/method/tcp.rs:225-236 | any segment an IP packet can carry whose zeroed field at an even offset is filled with its checksum passes the receiver's test over the bytes of pseudo-header and segment |
| Checksum.PseudoHeaderSum | src/method/tcp.rs:225-236 | the sender's sum of addresses, protocol and length is the word sum of the pseudo-header's bytes, for either family |
| Methods.SegmentExact | src/method/tcp.rs:43-52 | a segment is found exactly when the bytes hold it: bare for IPv6, behind a header of the length it claims for IPv4, whole as the header counts or cut at the end |
| Methods.HeldIsSegment | src/method/tcp.rs:43-52 | round trip: any segment behind any IPv4 header, with any options and anything after it, is found |
| Methods.AcknowledgedExact | src/method/tcp.rs:37-67 | a reply names an id if and only if its bytes hold a segment from port 80 to ours that acknowledges id + 1, so nothing outside 1 to 65536 is accepted |
| Methods.QuotedSequenceExact | src/method/tcp.rs:78-88 | a quotation names an id if and only if it has eight bytes, our source port and that sequence number |
| Methods.TcpTwoWayIdentity | src/method/tcp.rs:37-88 | any quotation of the probe's first eight bytes and any segment that answers the probe name the same id |
| Methods.RoomForOptions | src/trace.rs:214-218 | on the TCP receive queue the unused control space gives 64 bytes more than the reserved length, so the longest IPv4 header and a TCP header fit |
| Methods.BufferHoldsReply | src/trace.rs:368-375 | a buffer holds the read's header, any sender's name, the queue's control space and the reserved length, which is the whole echo, a datagram as long as the probe, or the smallest TCP reply |
| Methods.BufferKeepsIdentity | src/trace.rs:368-375 | for every method, each of its queues and a reply of any length, what the buffer cuts off never changes which probe the reply names |
| Methods.CutKeepsTcpIdentity | src/method/tcp.rs:244-251 | cutting to any room from the reserved length up keeps the identity if and only if the IP header leaves room for the TCP header, and never invents one |
| Methods.CutKeepsIdentity | src/method/mod.rs:132-134 | for every other reader cutting at the reserved length or later changes nothing |
| Ring.PackBijective | src/trace.rs:45-66 | a word unpacks to a tag if and only if it is that tag's packing |
| Conservation.RequestsConserved | src/trace.rs:363-445 | in every reachable state but those of a run that failed on a rejected re-arm, each reader, each outstanding send and the unhandled timeout own exactly one live request, nothing else is live, the total is exact and never exceeds the ring size, and unconsumed submissions fit |
| Conservation.NeverCrashes | src/trace.rs:421-452 | no run removes a vacant slab key, indexes the table or the readers out of range, or reads without a message |
| Conservation.ReArmFits | src/trace.rs:443-445 | with room for every reader beside the ring size a re-arm is never rejected |
| Conservation.ReArmNeverRejectedIff | src/trace.rs:363-475 | no run at all has a re-arm rejected if and only if the capacity is at least ring size plus readers; the other half builds the failing run |
| Attribution.CommandLineCanFallShort | src/trace.rs:363-366 | for every method, 28 hops of one probe in a ring of 32 entries is allowed by the command line, and some run of it has a re-arm rejected |
| StopRule.SetupIsTable | src/trace.rs:354-361 | the table is laid out hop by hop, `count` probes for each TTL |
| StopRule.TableTtl | src/trace.rs:354-361 | the probe at index i has TTL first + i / count |
| StopRule.ChunksAreHops | src/trace.rs:461 | chunking yields exactly one block per TTL, in order: block h is the slice of the table from h * count on, and nothing is left over |
| StopRule.StopMeansTargetFound | src/trace.rs:459-465 | chunk_by, take_while, flatten and any find a Destination if and only if some hop holds one and every hop up to it has an answer |
| StopRule.StopIsMonotone | src/trace.rs:459-465 | more answers never undo the stop condition |
| History.NextUpdates | src/trace.rs:258-322 | a completion changes each probe only by the declared update for that probe |
| History.UpdateFollows | src/trace.rs:307-321 | a probe that follows the history still follows it after one more event |
| Runs.TableRefinesHistory | src/trace.rs:258-471 | in every reachable state each probe is sent exactly if its send completed with ret >= 0, and its result is exactly the first answer to it handled after that, with its source, kind and elapsed time |
| Runs.AnsweredMeansSentFirst | src/trace.rs:307-314 | a result exists if and only if a first counting answer does, which is unique and comes after the send |
| Runs.RttSpansTheWait | src/trace.rs:314-321 | send completion plus round-trip time is the moment the reply was handled, or the time is zero if the clock ran backwards |
| Runs.SlabBijection | src/trace.rs:175-194 | a slot holds the probe of its own index and is outstanding exactly until that probe's send completion is handled; outstanding plus handled sends are all probes; a non-timeout return leaves none outstanding |
| Runs.StopsExactlyWhenFound | src/trace.rs:454-470 | a run goes on exactly while sends are outstanding or the target is not found; the timeout only ends an unfinished trace |
| Runs.RunsOnlyGrow | src/trace.rs:307-314 | along any stretch of any run results are write-once, TTLs fixed and the slab only shrinks |
| Runs.CompleteIsStable | src/trace.rs:421-470 | once the non-timeout stop condition holds, any further completion keeps it |
| Runs.StoppingEarlyIsSafe | src/trace.rs:421-470 | stopping anywhere in a batch that does not panic gives the verdict its end would give |
| Runs.ReturningMidBatchIsSafe | src/trace.rs:421-470 | for every run that returned without the timeout: nothing still waiting could have panicked, and handling any part of it would have left the trace as complete |
| Runs.CompletionsCommute | src/trace.rs:258-452 | swapping adjacent non-returning completions about different probes gives the same table up to clock readings, the same slab, the same requests and still no return |
| Runs.OutcomeOf | src/trace.rs:343-475 | what a finished run says about its table, and when it can fail on a re-arm |
| Arming.ReadersAreArmedFirst | src/trace.rs:387-411 | in every run, once a probe or the timeout was handed to the kernel every reader was, and a read is queued again only because its predecessor ended |
| Scripts.RoundHandlesItsBatch | src/trace.rs:413-473 | a round whose submit did not fail handles every completion posted by the time the program looked, once each, in order, each with its own clock reading, and submits again unless one of them ends the run |
| Scripts.SubmitErrors | src/trace.rs:414-418 | EBUSY changes nothing; any other error ends the run with nothing handled |
| Scripts.AllArePosted | src/trace.rs:414-419 | what a kernel may post one after another reaches the queue in full and in order |
| Scripts.TimeoutEndsRun | src/trace.rs:404-470 | no script in which the kernel takes everything and then completes the timeout leaves the run going |
| Scripts.ScriptsCoverEveryRun | src/trace.rs:413-475 | every run that ends, whatever the kernel did and whenever, is the run of some script |
| Tracing.Tracer.constructor | src/trace.rs:354-391 | the table is laid out, slab and queue are empty |
| Tracing.Tracer.ScheduleWrite | src/trace.rs:167-195 | the probe goes into the next vacant slot and its tagged entry is queued, or nothing changes if the queue is full |
| Tracing.Tracer.ScheduleReads | src/trace.rs:387-389 | one entry per reader, or failure exactly if they do not fit |
| Tracing.Tracer.ScheduleWrites | src/trace.rs:391-402 | one entry and one slab slot per probe, in table order, or failure exactly if they do not fit |
| Tracing.Tracer.Setup | src/trace.rs:354-411 | setup succeeds exactly if the probe count fits 16 bits and the ring holds every entry, and then leaves the starting state of every run; it asks for twice as many buffers as probes, unless the doubling wraps, exactly from 32768 probes on |
| Tracing.Tracer.HandleRead | src/trace.rs:258-322 | in place, only the identified probe changes and only if it was sent and has no result; which messages are answers is settled by `ErrorAnswerExact` and `DirectAnswerExact` |
| Tracing.Tracer.Step | src/trace.rs:421-470 | one turn of the loop over completions is `Next`, verdict and state |
| Tracing.Tracer.Submit | src/trace.rs:413-418 | the kernel takes what it would of the published entries, also on EBUSY; any other error ends the run |
| Tracing.Tracer.HandleHead | src/trace.rs:421-470 | taking the next visible completion is the machine's handling step, and it never panics |
| Tracing.Tracer.Drain | src/trace.rs:421-471 | the loop over a batch handles completions one by one until the batch or the run ends, each with its own clock reading, while the kernel goes on posting |
| Tracing.Tracer.RunRound | src/trace.rs:413-474 | submit, wait, batch and sync in that order, with the state the scripted kernel leads to; `RoundHandlesItsBatch` says what that is |
| Tracing.Tracer.Run | src/trace.rs:413-475 | the final state is the one the kernel's script leads to; whatever it tries, the loop never leaves its bounds, returns a table that follows the history, returns without the timeout only with the target found and nothing outstanding, fails on a re-arm only below the capacity bound, and is over once the timeout was taken and expired |
| Attribution.ReplyNamesItsCause | src/method/mod.rs:24-28 | a reply caused by probe j is taken for j if for any probe, and an accepted one is, for every identifiable j |
| Attribution.ErrorReportIsAnswer | src/trace.rs:275-321 | from the bytes of a RECVERR report behind any other messages: the answer is probe j, the offender as source, the error's meaning as kind |
| Attribution.DirectReplyIsAnswer | src/trace.rs:289-321 | from the bytes on the receive queue: the answer is probe j, the sender as source, and the target reached |
| Attribution.ErrorAnswerExact | src/trace.rs:275-321 | on the error queue a message is an answer with that probe, source and kind if and only if its control data is whole, its first RECVERR message reports such an error by such a host, and it quotes the probe |
| Attribution.DirectAnswerExact | src/trace.rs:289-321 | on the receive queue a message is an answer if and only if it answers the probe directly, and then it means the target |
| Attribution.TargetEchoesProbe | src/method/icmp.rs:20-125 | every ICMP probe is echoed by its target, and the echo is a reply to it |
| Attribution.TargetAcceptsProbe | src/method/tcp.rs:37-242 | every TCP probe is accepted by its target, and any segment that answers it is a reply to it |
| Attribution.ResultsAreReported | src/trace.rs:258-322 | every result of every run is the source and kind of an ICMP error that a whole report announced and whose quotation names the probe, or the target's direct answer to it |
| Attribution.ResultsBelongToTheirProbes | src/trace.rs:299-321 | in any run that takes for replies to its probes only what its probes caused, and may read and reject anything else, a result at index i was set by a reply to probe i and no other, at hop first + i / count |
| Attribution.RepliesAreRecorded | src/trace.rs:299-321 | a reply to an identifiable probe accepted after its send completed always leaves a result |
| Attribution.ResultShowsFirstReply | src/trace.rs:314-321 | source and kind in the table are those of the reply that came first |
| Attribution.UdpBeyondRangeStaysSilent | src/method/udp.rs:31-55 | a UDP probe past id 32101 is never answered, so the bound is exact |
| Attribution.CommandLineFits | src/main.rs:53-79 | within the command-line ranges there are 2 to 2295 probes; ids, slots and twice the count fit 16 bits; every probe is identifiable |
| Rendering.ClassifiedReasonsAreProducible | src/icmp.rs:26-65 | every reason a classification or the missing-error fallback yields is a listed marker or a numeric form |
| Rendering.RenderInverse | src/method/mod.rs:106-115 | every such reason can be read back from its text |
| Rendering.DecimalExact | src/method/mod.rs:106-115 | a number is written as the one numeral, digits only and no leading zero, that denotes it |
| Rendering.RenderInjective | src/method/mod.rs:106-115 | two such reasons render alike only if they are equal |
| Output.PrintHopProbes | src/main.rs:99-116 | the loop that remembers the last source prints the tokens of the hop |
| Output.RowReadsBack | src/main.rs:99-116 | a reader carrying the last seen source recovers source, time and reason of every probe of a row of any length |
| Output.RowShowsOnlyNews | src/main.rs:103-110 | a row shows a source only when it differs from the one shown last, and only in front of an answer |
| Output.PrintResults | src/main.rs:83-97 | one row per hop up to the first the target answered, and no hop is empty |
| Output.PrintedPrefix | src/main.rs:83-97 | the printed hops are a prefix, none but the last was answered by the target |
| Output.TraceAndPrinterAgree | src/main.rs:83-97 | on every table the trace may stop if and only if its printout ends at the target with every row answered |
| Output.PrintoutOfRun | src/main.rs:83-97 | a run that returned without the timeout prints a non-empty gapless prefix from the first hop, every row answered, ending at the first hop the target answered |
| Output.RunRowsReadBack | src/main.rs:99-116 | in every printed row h of every run, position k reads back to the result of the probe at table index h * count + k, under TTL first + h |

## Left out

- Tracing.Tracer.Run: the loop is watched for as many rounds as the script lasts, since it may wait forever; every run that ends is covered.
- Tracing.Tracer.Setup: asks for at most 65536 reply queues, since the source truncates their index; every method opens two. From 32768 probes on the doubling wraps as in a build without overflow checks; a checked build stops there. `CommandLineFits` shows the command line never gets that far. What the buffers hold is not modelled.
- Methods.TcpProbe: the packet crate's checksum is modelled by its definition in RFC 1071, and the clock's milliseconds are an argument.
- Runs.CompletionsCommute: equality is up to clock readings, which belong to the moment of handling.
- Attribution.ResultsBelongToTheirProbes: supposes that what is taken for a reply to one of the run's probes was caused by one of them; a forged reply carrying a valid identity cannot be told apart by the source either.
- Buffer recycling, pinned pointers, message headers and feature probing of io_uring: foreign code and unsafe memory.
- The io_uring crate and pnet are not part of this model beyond the queue view above and the IPv4 header split (header length, total length) used for TCP.
- Other byte orders and word sizes: layouts are those of little-endian LP64 Linux.
- Logging of failed completions and `ignores_read_error`, which only decides what is logged.
- The text of addresses and round-trip times; a row is a list of tokens.
- The packet-size check in `Icmp::try_new` and `Udp::try_new`: payload lengths are arbitrary here.
- Opening, binding and configuring sockets, source-address discovery, name lookup and argument parsing beyond the numeric ranges.
- That the kernel ever completes anything: a run may wait forever if the timeout is never posted.
