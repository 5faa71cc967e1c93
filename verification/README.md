# A verified model of the traffic generator, the learning switch and the histogram script

The repository compares software switches. Its stateful algorithms are in the traffic generator
pktgen 19.10.0, in a small OpenFlow controller and in a script that rebins latency histograms.
This project models them in Dafny 4.11 and proves what they are for. `dafny verify dfyconfig.toml`
checks all of it.

| module | what it models |
|---|---|
| `TxBudget`, `TxPath`, `Driver` | Several TX queues claim packets from one shared counter with compare-and-set, fill a burst and push it into a driver that may take part of it, while a command thread starts, primes and stops the port. `TxBudget` is the interleaved protocol, `TxPath` one queue as it runs. |
| `Flags` | Flag words that several threads set and clear through compare-and-set loops. |
| `CaptureBuffer`, `CaptureControl` | The byte log that received packets are captured to and later dumped from, and the commands that decide which port owns which socket's log. |
| `Words`, `Bitfields`, `RandomBits` | Templates over `0 1 . X`: compiled to masks, applied to packets before every attempt to send, printed back. A machine word is the string of its 32 bits, the top bit first. |
| `Xorshift` | The generator of the random bits. |
| `Range`, `PacketSizes` | Packet fields that step through an interval in fixed-width arithmetic, and the packet size with its commands. |
| `Pacing` | From a percentage of the link speed to a gap in cycles, and from the gap to a throughput of all queues. |
| `ModeFlags` | The commands that keep the traffic modes of a port mutually exclusive. |
| `LearningSwitch` | The controller's table of hosts and the flows it installs as a cache of it. |
| `LogRing` | The ring of the latest log messages and the page that shows its end. |
| `Histogram` | The gathering and rebinning of latency counts. |

Where the source changes state, so does the model: each such object is a class whose methods are
tied to functions of the old state, and the lemmas are about those functions. What other threads,
the driver, the clock, the link and the random numbers do is a parameter, quantified over.

## What the proofs say about the code

- **A start can misfire.** `pktgen_start_transmitting` reads the counter back after storing it.
  Queues that had already passed the SENDING_PACKETS test can empty it in between, and the command
  then sets SEND_FOREVER for a nonzero count. `MisfireCondition` gives the exact condition: the
  count is no more than what these queues can still claim. Such states are reached, and any number
  of packets can follow (`MisfireIsReachable`, `MisfireHappens`); in every run without such a start
  the budget is kept (`FiniteRunKeepsBudget`).
- **The burst fill can leave its table.** `cnt = txCnt - txLen` is a 16-bit subtraction. When more
  single packets wait than were claimed it wraps and asks for a whole burst behind them, in a table
  of 64 entries. `FillStaysInside` gives the exact condition for a fill that stays inside,
  `OverrunHappens` is a round that does not: ten waiting, five left to send, bursts of 64. What the
  source then writes behind the table is not modelled; `SendPkts` ends such a round there.
- **Two packet lengths cannot be captured.** A record of length 0 reads as the end mark and the
  padded length of 65535 bytes is stored as 0; all others read back (`RoundTrip`, both directions).
  A dump is right up to the first such packet (`Session`).
  The comment in the source says that the stored size is that of the contents; it is rounded up to
  an even number.
- **Buffer 0 is lost.** The controller takes buffer number 0 for no buffer when it builds the
  flow-mod and for a buffer when it leaves the packet-out out (`DeliveredExactly`). A flow also
  forwards link discovery frames that the controller would have dropped (`FlowsAreTransparent`).
  These two are all that the flow table changes for hosts that stay (`CacheRefinesController`).
- **A rate above the clock never sends.** Then the gap is 0 cycles, which the transmit loop takes
  for not yet known. `NeverSendsExactly` says that a port whose link is up never sends if and only
  if its rate exceeds the clock, `FastLinkNeverSends` that 100 Gbit/s of smallest packets with a
  clock of 100 MHz is such a rate. With a gap, `PortReaches` bounds the throughput from below and
  `PortThroughput` from above.
- **A range field may miss its minimum.** If the step past the last value wraps around the field
  width, the field continues at its maximum or somewhere inside; `ClosedFormExactly` gives the
  condition under which the values repeat as the settings suggest.
- **Latency mode off is not the inverse of on**, except for packet sizes from 60 to 75 bytes
  (`LatencyRoundTrip`).

## Model

| member | source | states |
|---|---|---|
| `TxBudget.Conservation` | docker/dpdk-suite/pktgen-19.10.0/app/pktgen-port-cfg.h:311-329 | Over every interleaving of any number of queues and commands, counter, claims and overwritten budget add up to all that was loaded, and every claimed packet is accepted, abandoned, short or in flight; no claim and no table exceeds the largest burst |
| `TxBudget.AllocationIsExact` | docker/dpdk-suite/pktgen-19.10.0/app/pktgen.c:1022-1030 | The 16-bit subtraction fills the claim if and only if the packets already waiting do not exceed it; otherwise it asks for a whole burst |
| `TxBudget.RetriesArePaidFor` | docker/dpdk-suite/pktgen-19.10.0/app/pktgen-port-cfg.h:317-326 | Between two stores of the counter a queue's failures and successes together are at most the successes of all, which are at most the packets they took: bounded by the count |
| `TxBudget.CallersGetZero` | docker/dpdk-suite/pktgen-19.10.0/app/pktgen-port-cfg.h:317-326 | Between two stores a counter at 0 stays at 0, a queue with as many outcomes as there were packets has left none, and whoever then reads it gets nothing and goes on to stop the port, for which see the next row |
| `TxBudget.EmptyCounterStops` | docker/dpdk-suite/pktgen-19.10.0/app/pktgen.c:1012-1017 | A queue that got nothing stops the port: until the next command neither flag is set, no queue begins a round, and the driver takes at most what it was called with before |
| `TxBudget.StopCommandStops` | docker/dpdk-suite/pktgen-19.10.0/app/pktgen-cmds.c:1500-1510 | The stop command does the same at any moment |
| `TxBudget.StartStores` | docker/dpdk-suite/pktgen-19.10.0/app/pktgen-cmds.c:1470-1487 | Once stopped, the next start stores its count whatever lagging queues do in between; a start of a port that sends changes nothing |
| `TxBudget.StartQuietly` | docker/dpdk-suite/pktgen-19.10.0/app/pktgen-cmds.c:1470-1487 | A start that nobody disturbs leaves the count in the counter and the port sending, without end if and only if the count is 0 |
| `TxBudget.PrimeQuietly` | docker/dpdk-suite/pktgen-19.10.0/app/pktgen-cmds.c:1527-1534 | A prime command overwrites the counter with its own count and has the port send it |
| `TxBudget.BurstIsClamped` | docker/dpdk-suite/pktgen-19.10.0/app/pktgen-cmds.c:2829-2835 | A burst size from 1 to 64 is kept, any other becomes the nearest of these |
| `TxBudget.FailureIsSomebodysProgress` | docker/dpdk-suite/pktgen-19.10.0/app/pktgen-port-cfg.h:317-326 | A failing compare-and-set proves that the counter was stored or taken from since the read |
| `TxBudget.FiniteRunKeepsBudget` | docker/dpdk-suite/pktgen-19.10.0/app/pktgen.c:1005-1033 | If every start stores more than the lagging queues can claim, no run sends more than was loaded: all packets are accounted for exactly |
| `TxBudget.MisfireCondition` | docker/dpdk-suite/pktgen-19.10.0/app/pktgen-cmds.c:1470-1487 | A start with a nonzero count can end in endless sending if and only if the count is at most what queues that passed the flag test can still claim |
| `TxBudget.MisfireOversends` | docker/dpdk-suite/pktgen-19.10.0/app/pktgen-cmds.c:1470-1487 | From such a start a run exists that exceeds everything loaded by any given number of packets |
| `TxBudget.MisfireIsReachable` | docker/dpdk-suite/pktgen-19.10.0/app/pktgen-cmds.c:1470-1510 | A run of start, stop and start with one queue reaches a state from which the start misfires |
| `TxBudget.MisfireHappens` | docker/dpdk-suite/pktgen-19.10.0/app/pktgen-cmds.c:1470-1487 | A run from the initial state exceeds everything loaded by any given number |
| `TxPath.TxCounter.TxCount` | docker/dpdk-suite/pktgen-19.10.0/app/pktgen-port-cfg.h:311-329 | The claim loop while others take packets and commands store counts: nothing is lost, a claim is short only when it empties the counter, every failed round saw a packet taken or a count stored |
| `TxPath.TxQueue.SendBurst` | docker/dpdk-suite/pktgen-19.10.0/app/pktgen.c:284-326 | Whatever a driver accepts turn by turn, the packets of the table go to it in order, and those left are given up when sending goes off |
| `TxPath.TxQueue.SendPkts` | docker/dpdk-suite/pktgen-19.10.0/app/pktgen.c:1005-1033 | One round, finite or endless, with any packets waiting: what is allocated is the claim less what waits, or a whole burst if more waits, as far as the pool has it; either it would leave the table, exactly under the stated condition, or what waited and what was allocated is sent or given up in order; the counter pays for exactly the claims |
| `TxPath.TxQueue.SendMbuf` | docker/dpdk-suite/pktgen-19.10.0/app/pktgen.c:623-635 | A single packet waits behind the others until there is a burst; afterwards less than a burst waits |
| `TxPath.FillStaysInside` | docker/dpdk-suite/pktgen-19.10.0/app/pktgen.c:1022-1030 | The fill stays inside the table of 64 if and only if no more packets wait than were claimed or a whole burst, as far as the pool has it, fits behind them |
| `TxPath.OverrunHappens` | docker/dpdk-suite/pktgen-19.10.0/app/pktgen.c:1022-1030 | A round that leaves the table, from an empty queue by ten single packets and a count of five |
| `Driver.PersistentDriver` | docker/dpdk-suite/pktgen-19.10.0/app/pktgen.c:307-325 | A driver that takes something every time empties any burst in as many turns as it has packets |
| `Driver.TakenExactly` | docker/dpdk-suite/pktgen-19.10.0/app/pktgen.c:307-325 | A driver takes as many packets as it offers to take in all its turns, but no more than there are |
| `Flags.FlagWord.Update` | docker/dpdk-suite/pktgen-19.10.0/app/pktgen.h:387-407 | The set or clear loop under any interference: the update takes effect on the word the others left, once, after at most one round more than they interfere in |
| `Flags.Linearises` | docker/dpdk-suite/pktgen-19.10.0/app/pktgen.h:387-433 | Every interleaving has the result of the updates done one by one in the order of their successes; each thread's finished updates are all there, in program order; a thread fails no more often than others succeed |
| `Flags.FailureIsProgress` | docker/dpdk-suite/pktgen-19.10.0/app/pktgen.h:391-395 | A failed compare-and-set means that another thread's update succeeded since the read |
| `Flags.LastUpdateDecides` | docker/dpdk-suite/pktgen-19.10.0/app/pktgen.h:387-407 | The last update whose mask holds a bit decides it; a bit in no mask never changes |
| `CaptureBuffer.FitIsLongest` | docker/dpdk-suite/pktgen-19.10.0/app/pktgen-capture.c:299-327 | The records taken from a burst are the longest prefix that fits, each packet counted with its header of 12 bytes and its length rounded up to even |
| `CaptureBuffer.CapturedNeeds` | docker/dpdk-suite/pktgen-19.10.0/app/pktgen-capture.c:299-327 | What a capture appends takes exactly these bytes of the memory |
| `CaptureBuffer.OffIsNeed` | docker/dpdk-suite/pktgen-19.10.0/app/pktgen-capture.c:299-327 | Every record starts at an even offset, the sum of the headers and rounded lengths before it |
| `CaptureBuffer.RecordLayout` | docker/dpdk-suite/pktgen-19.10.0/app/pktgen-capture.c:317-326 | A record byte by byte: 8 bytes of time stamp, 2 of the packet's length and 2 of the stored length, low byte first, and from byte 12 on the packet |
| `CaptureBuffer.StoredLength` | docker/dpdk-suite/pktgen-19.10.0/app/pktgen-capture.c:306-320 | The stored length is the packet's rounded up to even, and 0 for a packet of 65535 bytes |
| `CaptureBuffer.EvenIsUnpadded` | docker/dpdk-suite/pktgen-19.10.0/app/pktgen-capture.c:306-326 | A packet of even length that reads back does so without a byte more; one of odd length has one more |
| `CaptureBuffer.Capture.constructor` | docker/dpdk-suite/pktgen-19.10.0/app/pktgen-capture.c:134-145 | Enabling makes the whole memory one empty log with an end mark |
| `CaptureBuffer.Capture.CaptureBulk` | docker/dpdk-suite/pktgen-19.10.0/app/pktgen-capture.c:287-332 | Appends exactly the longest fitting prefix of the burst to the log in memory, keeps all earlier records, writes the end mark at tail, and `used` is the tail's offset |
| `CaptureBuffer.RoundTrip` | docker/dpdk-suite/pktgen-19.10.0/app/pktgen-capture.c:224-252 | Walking a sealed log gives back every record's length and bytes in order if and only if all stored packets have lengths from 1 to 65534 |
| `CaptureBuffer.DumpRecords` | docker/dpdk-suite/pktgen-19.10.0/app/pktgen-capture.c:224-252 | On any memory the dump loop is the walk from the first header to the end mark, and reports exactly when it would read past the memory |
| `CaptureBuffer.Capture.Dump` | docker/dpdk-suite/pktgen-19.10.0/app/pktgen-capture.c:191-258 | For every log what is dumped is right, record by record, up to the first packet that cannot be read back, and all of it if and only if there is none; then it stays inside the memory |
| `CaptureBuffer.Session` | docker/dpdk-suite/pktgen-19.10.0/app/pktgen-capture.c:75-267 | Enable, any bursts, disable: what comes out is, in order, every burst's longest prefix that fitted into the room left, up to the first packet that cannot be read back, and all of it if and only if none was captured |
| `CaptureControl.Control.Set` | docker/dpdk-suite/pktgen-19.10.0/app/pktgen-capture.c:75-267 | The command, branch by branch, keeps the ownership invariant and never reaches either branch marked as never happening |
| `CaptureControl.EnableSucceedsExactly` | docker/dpdk-suite/pktgen-19.10.0/app/pktgen-capture.c:80-147 | Enabling succeeds if and only if the port is off, has a receive queue, and the first lcore of its list that receives from it is on a socket with unused memory; that lcore and port then own it, and otherwise nothing changes |
| `CaptureControl.DisableSucceedsExactly` | docker/dpdk-suite/pktgen-19.10.0/app/pktgen-capture.c:164-265 | Disabling succeeds if and only if the port is on; its flag and its socket are given up, and no others |
| `CaptureControl.RxLcoreIsFirst` | docker/dpdk-suite/pktgen-19.10.0/app/pktgen-capture.c:92-106 | The search over lcores and their receive ports ends at the first lcore of the port's list that receives from it, and at none if none does |
| `CaptureControl.OwnershipOverRuns` | docker/dpdk-suite/pktgen-19.10.0/app/pktgen-capture.c:75-267 | After any sequence of commands CAPTURE_PKTS is set for a port if and only if one socket with memory, and only one, names it |
| `CaptureControl.SingleWriter` | docker/dpdk-suite/pktgen-19.10.0/app/pktgen.c:1124-1129 | Whoever passes the receive test on a socket is determined by it, and a capturing port is captured by exactly one lcore: a memory never has two writers |
| `CaptureControl.DisableUndoesEnable` | docker/dpdk-suite/pktgen-19.10.0/app/pktgen-capture.c:134-147 | Disabling after a successful enable restores flags and sockets |
| `Words.SwapCommutes` | docker/dpdk-suite/pktgen-19.10.0/app/pktgen-random.c:158-174 | The byte swap of htonl commutes with and, or and not, so that masks can be stored swapped |
| `Words.StoreBits` | docker/dpdk-suite/pktgen-19.10.0/app/pktgen-random.c:217-238 | Storing a word on a little-endian host changes its 32 bits of the packet, in wire order, and no others |
| `RandomBits.Scan` | docker/dpdk-suite/pktgen-19.10.0/app/pktgen-random.c:122-143 | The shifting loop accepts exactly the templates over the five characters and computes the three accumulators |
| `Bitfields.CompileRealises` | docker/dpdk-suite/pktgen-19.10.0/app/pktgen-random.c:116-174 | The stored masks, in network order, say at every position what the character there says, and nothing past the template's end |
| `RandomBits.RndBits.SetField` | docker/dpdk-suite/pktgen-19.10.0/app/pktgen-random.c:96-178 | A bad index, length or character changes nothing, an empty mask switches off only that bitfield, a template is compiled into it and switches on only it |
| `Bitfields.PatchBits` | docker/dpdk-suite/pktgen-19.10.0/app/pktgen-random.c:217-238 | Applying a compiled template realises its string bit by bit: 0 clears, 1 sets, dot keeps, X takes the random bit; all other bits of the packet are kept |
| `Bitfields.FinalBits` | docker/dpdk-suite/pktgen-19.10.0/app/pktgen-random.c:211-245 | After all active bitfields, overlapping or not, the last one that says something about a bit decides it, an X with the draw that this bitfield makes |
| `Bitfields.OneDrawEach` | docker/dpdk-suite/pktgen-19.10.0/app/pktgen-random.c:225-237 | A packet draws as many values as it has active bitfields with an X: their number as a set |
| `Bitfields.DrawsDiffer` | docker/dpdk-suite/pktgen-19.10.0/app/pktgen-random.c:225-237 | Two bitfields, or the same one on two packets of a burst, never use the same value of the generator |
| `Bitfields.DrawsExactly` | docker/dpdk-suite/pktgen-19.10.0/app/pktgen-random.c:158-174 | A compiled template draws a value if and only if it contains an X |
| `Bitfields.DeciderIsLast` | docker/dpdk-suite/pktgen-19.10.0/app/pktgen-random.c:211-245 | No active bitfield after the deciding one says anything about that bit |
| `Bitfields.OutsideUntouched` | docker/dpdk-suite/pktgen-19.10.0/app/pktgen-random.c:211-245 | Bits outside every active window are never changed |
| `Bitfields.DisjointCommute` | docker/dpdk-suite/pktgen-19.10.0/app/pktgen-random.c:217-238 | Bitfields with disjoint windows can be applied in either order |
| `Bitfields.ApplyIdempotent` | docker/dpdk-suite/pktgen-19.10.0/app/pktgen.c:310-325 | Without X the whole application is idempotent, even when windows overlap |
| `Bitfields.ReapplySettles` | docker/dpdk-suite/pktgen-19.10.0/app/pktgen.c:310-325 | However often it is repeated before a retry, every bit that no X decides stays as the first application made it |
| `RandomBits.RndBits.ApplyOne` | docker/dpdk-suite/pktgen-19.10.0/app/pktgen-random.c:211-242 | The scan over the active-spec bits is the application of specs 0 to 31 in order, with the draws that OneDrawEach counts |
| `RandomBits.ApplyAll` | docker/dpdk-suite/pktgen-19.10.0/app/pktgen-random.c:193-246 | The whole burst is prepared, packet i with the values after those of the packets before it, as BurstBits says bit by bit; the number of values drawn is that of one packet for each |
| `RandomBits.BurstBits` | docker/dpdk-suite/pktgen-19.10.0/app/pktgen-random.c:206-245 | Every bit of every packet of a burst is decided by the last bitfield that says something about it, an X by the value of the generator with that bitfield's and packet's index |
| `RandomBits.OwnDraw` | docker/dpdk-suite/pktgen-19.10.0/app/pktgen-random.c:225-237 | No other bitfield and no other packet of the burst uses that value |
| `RandomBits.SendBurst` | docker/dpdk-suite/pktgen-19.10.0/app/pktgen.c:284-326 | For every pattern of partial accepts, what goes on the wire is a prefix of the burst in order, each packet's decided bits as after one application; without X it is exactly one application |
| `Bitfields.PrintsTemplate` | docker/dpdk-suite/pktgen-19.10.0/app/pktgen-cmds.c:32-56 | Masks that realise a template print as that template, padded with dots to 32, with X for x |
| `RandomBits.ConvertBitfield` | docker/dpdk-suite/pktgen-19.10.0/app/pktgen-cmds.c:32-56 | The printing loop with its bit tests gives, for every template the masks realise, its padded form |
| `Bitfields.RecompilePrinted` | docker/dpdk-suite/pktgen-19.10.0/app/pktgen-cmds.c:32-56 | Compiling the printed form gives back the same three masks, for every template |
| `Xorshift.NextByShifts` | docker/dpdk-suite/pktgen-19.10.0/app/xorshift64star.h:25-27 | The update is the three shifts of the source one after the other: right by 12, left by 25, right by 27, each combined by exclusive or |
| `Xorshift.NextIsPermutation` | docker/dpdk-suite/pktgen-19.10.0/app/xorshift64star.h:24-28 | The three xor-shifts compose to a permutation: every 64-bit state has exactly one predecessor |
| `Xorshift.RunsNeverMerge` | docker/dpdk-suite/pktgen-19.10.0/app/xorshift64star.h:21-30 | After any number of calls different seeds have different states, and the state is 0 if and only if the seed was |
| `Xorshift.SeedRecurs` | docker/dpdk-suite/pktgen-19.10.0/app/xorshift64star.h:21-30 | Every seed lies on a cycle of at most 2^64 states, with no lead-in |
| `Xorshift.OutputsNeverMerge` | docker/dpdk-suite/pktgen-19.10.0/app/xorshift64star.h:21-30 | The n-th outputs of two generators agree if and only if their seeds do: the multiplication loses nothing |
| `Xorshift.OutputGivesState` | docker/dpdk-suite/pktgen-19.10.0/app/xorshift64star.h:29-29 | Multiplying an output by the inverse of the multiplier gives back the state |
| `Xorshift.Generator.Call` | docker/dpdk-suite/pktgen-19.10.0/app/xorshift64star.h:21-30 | A call updates the state in place by the permutation, keeps it nonzero and returns its product with the multiplier |
| `Range.StepStaysInRange` | docker/dpdk-suite/pktgen-19.10.0/app/pktgen-range.c:48-68 | A step lands between the bounds for every increment; with the bounds swapped it lands on one of them |
| `Range.ClosedFormExactly` | docker/dpdk-suite/pktgen-19.10.0/app/pktgen-range.c:48-101 | From its minimum a field's n-th value is min + (n mod P) * inc for all n if and only if the step past the last value restarts it |
| `Range.FullWidth` | docker/dpdk-suite/pktgen-19.10.0/app/pktgen-range.c:81-101 | A field over its full width counts modulo the width |
| `Range.StepMirror` | docker/dpdk-suite/pktgen-19.10.0/app/pktgen-range.c:48-68 | Stepping by an increment that wraps is the mirror image of stepping up |
| `Range.CountsDown` | docker/dpdk-suite/pktgen-19.10.0/app/pktgen-range.c:48-68 | An increment of width - d counts down by d from the maximum and restarts there |
| `Range.TogetherExactly` | docker/dpdk-suite/pktgen-19.10.0/app/pktgen-range.c:48-101 | Several fields together repeat after l packets if and only if every period divides l |
| `Range.RangePort.Construct` | docker/dpdk-suite/pktgen-19.10.0/app/pktgen-range.c:48-165 | Each packet steps every modelled field in place by its own rule, 16, 8 or 32 bits wide, and keeps all of them in their types |
| `Range.RangePort.SetupPool` | docker/dpdk-suite/pktgen-19.10.0/app/pktgen.c:857-899 | A pool is filled with the packets after the present one: the i-th has every field after i steps in the sense of ClosedFormExactly and FullWidth, or at its start value where there is no increment |
| `Range.RangePort.SetPktSize` | docker/dpdk-suite/pktgen-19.10.0/app/pktgen-cmds.c:3689-3711 | The command stores what SizeWords says; an unknown word changes nothing |
| `Range.SizeWords` | docker/dpdk-suite/pktgen-19.10.0/app/pktgen-cmds.c:3689-3711 | Each setting is changed by its own words only: a size from 64 to 1518 is stored less 4, one below becomes 60, one above 1514, an increment is cut at 1518 |
| `Range.SizesAreLegal` | docker/dpdk-suite/pktgen-19.10.0/app/pktgen-cmds.c:3689-3711 | In every run of size commands and packets the packet size stays between 60 and 1514, whether or not the bounds are in order, and between the bounds if they are |
| `Pacing.PpsBounds` | docker/dpdk-suite/pktgen-19.10.0/app/pktgen.c:85-90 | The rate is the percentage of the link's whole packets per second, to the packet |
| `Pacing.NotOverLineRate` | docker/dpdk-suite/pktgen-19.10.0/app/pktgen.c:85-91 | Up to 100 percent the packet rate never asks for more bits than the link carries |
| `Pacing.CppBounds` | docker/dpdk-suite/pktgen-19.10.0/app/pktgen.c:91-94 | cpp * pps <= hz < (cpp + 1) * pps, and cpp is 0 exactly when the rate exceeds the clock |
| `Pacing.GapBounds` | docker/dpdk-suite/pktgen-19.10.0/app/pktgen.c:91-94 | In a gap all queues together send burst * txcnt packets: the gap is the time they take at the rate, short of it by less than a cycle for each; without a rate a second for each |
| `Pacing.PortInfo.TxLoop` | docker/dpdk-suite/pktgen-19.10.0/app/pktgen.c:1338-1363 | The loop computes the gap, of which GapBounds says how long it is, once the link is up, or finds it stored or reset by others between its passes, and starts a burst whenever the gap has passed since the last one |
| `Pacing.SendsSpaced` | docker/dpdk-suite/pktgen-19.10.0/app/pktgen.c:1351-1352 | Re-arming from the current time keeps bursts at least the gap apart, for any clock that does not go back, whoever computes the gap and however often it is reset |
| `Pacing.SendsPrompt` | docker/dpdk-suite/pktgen-19.10.0/app/pktgen.c:1338-1363 | A loop that reads the clock at least every g cycles is late by at most g, and whenever the clock has passed the gap since a burst the next one has been started |
| `Pacing.NoGapNeverSends` | docker/dpdk-suite/pktgen-19.10.0/app/pktgen.c:1341-1348 | With a gap of 0 the loop never sends |
| `Pacing.NoLinkNeverSends` | docker/dpdk-suite/pktgen-19.10.0/app/pktgen.c:1341-1348 | Nor does it send while the link is down and nobody else stores a gap |
| `Pacing.StoredGapSends` | docker/dpdk-suite/pktgen-19.10.0/app/pktgen.c:1338-1352 | A gap that another lcore stored is enough to send once the clock passes the next time, not before, link or no link |
| `Pacing.SendsExactly` | docker/dpdk-suite/pktgen-19.10.0/app/pktgen.c:1341-1352 | A loop that sees the link up and later the clock past the gap sends if and only if the gap is not 0 |
| `Pacing.GapIsZeroExactly` | docker/dpdk-suite/pktgen-19.10.0/app/pktgen.c:85-95 | The gap is 0 if and only if the rate exceeds the clock |
| `Pacing.NeverSendsExactly` | docker/dpdk-suite/pktgen-19.10.0/app/pktgen.c:1338-1363 | A port with the link up, watched past its gap, never sends if and only if its rate exceeds the clock |
| `Pacing.FastLinkNeverSends` | docker/dpdk-suite/pktgen-19.10.0/app/pktgen.c:85-95 | Full rate of smallest packets on 100 Gbit/s with a clock of 100 MHz is such a rate |
| `Pacing.SendsOften` | docker/dpdk-suite/pktgen-19.10.0/app/pktgen.c:1338-1363 | From a pass with the link up on, a burst is started at least every gap and polling delay |
| `Pacing.ThroughputBound` | docker/dpdk-suite/pktgen-19.10.0/app/pktgen.c:85-95 | In any window of W cycles all queues together start at most W / cpp packets plus one burst each |
| `Pacing.PortThroughput` | docker/dpdk-suite/pktgen-19.10.0/app/pktgen.c:1338-1363 | The same for queues driven by the loop, each with its own clock readings and next time, whether it computes the port's gap, finds it stored, or has it reset, and for every rate |
| `Pacing.PortReaches` | docker/dpdk-suite/pktgen-19.10.0/app/pktgen.c:1338-1363 | The other side, in packets per second: with n queues that start full bursts for w cycles, n * burst * w * pps <= (packets + n * burst) * (hz * burst * n + g * pps), so the rate is reached but for one burst each and the polling delay g in each gap |
| `Pacing.PerSecond` | docker/dpdk-suite/pktgen-19.10.0/app/pktgen.c:85-95 | Over one second the port exceeds its computed rate by less than one part in cpp, besides one burst for each queue |
| `ModeFlags.EnableIsExclusive` | docker/dpdk-suite/pktgen-19.10.0/app/pktgen-port-cfg.h:97-111 | Clearing both groups and setting one bit leaves exactly that mode, from any word, and every other flag as it was |
| `ModeFlags.DisableKeepsOthers` | docker/dpdk-suite/pktgen-19.10.0/app/pktgen-cmds.c:2126-2137 | Disabling ends a mode and preserves any other |
| `ModeFlags.PortInfo.EnableMode` | docker/dpdk-suite/pktgen-19.10.0/app/pktgen-cmds.c:1660-1680 | The commands with a plain switch, as three updates of the word: on leaves only this mode, off takes only its flag; rate also stores a new gap, no other does |
| `ModeFlags.PortInfo.EnablePcap` | docker/dpdk-suite/pktgen-19.10.0/app/pktgen-cmds.c:1634-1646 | Without packets of a file the command does nothing; otherwise it switches the mode and resets the stored gap to 0 |
| `ModeFlags.PortInfo.EnableRange` | docker/dpdk-suite/pktgen-19.10.0/app/pktgen-cmds.c:3236-3251 | Enabling while packets are sent changes nothing; otherwise the mode is switched and the gap is computed again |
| `ModeFlags.PortInfo.EnableLatency` | docker/dpdk-suite/pktgen-19.10.0/app/pktgen-cmds.c:3265-3286 | Switches the mode; a size below 76 grows by 16 when it goes on, one from 76 on shrinks by 16 when it goes off, any other is kept |
| `ModeFlags.PortInfo.SetPortSeqCnt` | docker/dpdk-suite/pktgen-19.10.0/app/pktgen-cmds.c:2744-2757 | The count is stored, 16 at most; 0 ends sequence mode, any other starts it |
| `ModeFlags.ModesAreExclusive` | docker/dpdk-suite/pktgen-19.10.0/app/pktgen-port-cfg.h:97-111 | After every sequence of commands the word names at most one mode: the one last enabled and not disabled since |
| `ModeFlags.ModeCommandsKeepOthers` | docker/dpdk-suite/pktgen-19.10.0/app/pktgen-cmds.c:1384-1393 | Mode commands never change a flag that is no mode, sending included |
| `ModeFlags.ChoosePool` | docker/dpdk-suite/pktgen-19.10.0/app/pktgen.c:1062-1074 | The pool by the bits of the word: range before sequence, rate and pcap, and the common pool for none of them |
| `ModeFlags.ChoosePoolOf` | docker/dpdk-suite/pktgen-19.10.0/app/pktgen.c:1062-1074 | A port in one of these four modes sends from the pool of its mode, in any other or none from the common one |
| `ModeFlags.LatencyRoundTrip` | docker/dpdk-suite/pktgen-19.10.0/app/pktgen-cmds.c:3265-3286 | Latency mode on and off restores the packet size if and only if it was from 60 to 75 |
| `LearningSwitch.SimpleSwitch13.AddFlow` | lagopus/simple_switch_13.py:52-65 | A buffer is named in the flow-mod only if there is one with a nonzero number |
| `LearningSwitch.SimpleSwitch13.PacketInHandler` | lagopus/simple_switch_13.py:67-120 | Learns the sender's port and sends exactly the messages of the reply function, for every case of destination and buffer; the rows below say what these messages do |
| `LearningSwitch.DeliveredExactly` | lagopus/simple_switch_13.py:105-120 | The packet asked about is sent on exactly once, except link discovery and a packet in buffer 0 with known destination, which never is |
| `LearningSwitch.DeliveredWhereDecided` | lagopus/simple_switch_13.py:97-120 | Every message that delivers the packet sends it out on its own switch, from its own port, where the controller decided: by the learned port, or flooded |
| `LearningSwitch.DeliversDecision` | lagopus/simple_switch_13.py:97-120 | So the messages together do what was decided, except for a packet in buffer 0 with known destination, which goes nowhere |
| `LearningSwitch.InstallsExactly` | lagopus/simple_switch_13.py:104-113 | One flow is installed if the destination is known, for exactly the packets of this port, sender and destination and to the learned port, and none otherwise |
| `LearningSwitch.SentWhereLastHeard` | lagopus/simple_switch_13.py:85-102 | Over every history the controller sends a packet to the port on which its destination was heard last on that switch, the packet itself included, and floods it if and only if it was never heard |
| `LearningSwitch.AskedOnce` | lagopus/simple_switch_13.py:52-113 | In every state a packet without a flow and with a known destination is asked about once; after that its flow is installed and it hits |
| `LearningSwitch.FlowsAreTransparent` | lagopus/simple_switch_13.py:52-120 | In every asynchronous run with hosts that stay in place a packet that hits a flow leaves by the port the controller would choose with its tables of that moment, if and only if it is no link discovery, and would have taught it nothing |
| `LearningSwitch.CacheRefinesController` | lagopus/simple_switch_13.py:52-120 | For every sequence of packets of hosts that stay in place each goes, by a flow or by the messages sent for it, where a controller asked about every packet would send it; only link discovery can be forwarded and only a packet in buffer 0 can be left there instead, and neither disturbs what follows |
| `LearningSwitch.MoveMakesStale` | lagopus/simple_switch_13.py:94-113 | Hosts must stay: once a flow's destination is heard on another port, the flow and the controller disagree |
| `LogRing.Log.Append` | docker/dpdk-suite/pktgen-19.10.0/app/pktgen-log.c:85-115 | The ring always represents exactly the latest min(n, 63) messages, in order |
| `LogRing.AppendHolds` | docker/dpdk-suite/pktgen-19.10.0/app/pktgen-log.c:107-115 | Writing at head keeps all messages while there is room and drops the oldest when there is none |
| `LogRing.LatestIsSuffix` | docker/dpdk-suite/pktgen-19.10.0/app/pktgen-log.c:107-115 | What the ring remembers is the end of all that was logged: all of it, or 63 messages |
| `LogRing.CutIsPrefix` | docker/dpdk-suite/pktgen-19.10.0/app/pktgen-log.c:102-105 | A message is kept whole, or its first 1023 characters are |
| `LogRing.Log.Collect` | docker/dpdk-suite/pktgen-19.10.0/app/pktgen-log.c:184-206 | The backward walk collects the shortest end of the messages that fills 28 lines, or all; its array of 28 entries is never exceeded |
| `LogRing.Log.Page` | docker/dpdk-suite/pktgen-19.10.0/app/pktgen-log.c:161-231 | What is printed is that end, oldest first, each entry on the row after the lines of those before it; nothing when nothing is new |
| `LogRing.RowsApart` | docker/dpdk-suite/pktgen-19.10.0/app/pktgen-log.c:213-222 | Each entry is printed as many rows below the one before as that one has line breaks, and one more |
| `LogRing.PageIsUnique` | docker/dpdk-suite/pktgen-19.10.0/app/pktgen-log.c:186-206 | The page is determined by the messages |
| `LogRing.PageFits` | docker/dpdk-suite/pktgen-19.10.0/app/pktgen-log.c:184-206 | A page has at most 28 entries, whatever line breaks its messages hold |
| `Histogram.Gather` | moongen/latency-p2p/analyze_histogram.py:31-46 | The table has exactly the latencies of the input, each with the sum of its counts |
| `Histogram.Rebin` | moongen/latency-p2p/analyze_histogram.py:53-72 | The bins are the histogram of the input: each has all the counts of its interval, each starts at the least latency not in an earlier one; without input there is none |
| `Histogram.CountsAreConserved` | moongen/latency-p2p/analyze_histogram.py:64-72 | The bin values add up to the input's counts |
| `Histogram.StartsApart` | moongen/latency-p2p/analyze_histogram.py:64-70 | Bin starts increase by at least the step |
| `Histogram.InExactlyOneBin` | moongen/latency-p2p/analyze_histogram.py:64-72 | Every latency of the input lies in exactly one bin |
| `Histogram.HistogramIsUnique` | moongen/latency-p2p/analyze_histogram.py:64-72 | The input has only one such histogram |

## Left out

- User interface, help, Lua bindings, displays and configuration files; only the printing of a bitfield is modelled.
- DPDK and operating system calls: memory pools, devices, TAP, pcap files. The driver is any sequence of partial accepts, a pool any number of packets, the clock any readings, the random numbers any stream.
- Checksums, packet header construction, the lcore matrix parser, telemetry and the scripts around the experiments: input and output, or field by field assignment.
- How ARP and ping packets are made: `SendMbuf` queues any, `SendPkts` starts from any number of them, the protocol in `TxBudget` from none. What a fill writes behind its table is not modelled.
- Time stamps and TAP copies inside the burst loop: `SendBurst` models the random bits and the accepts.
- The VLAN, class of service, MAC, tunnel and protocol fields of the range generator: their first steps keep hidden static flags, or they step like those modelled.
- Ports that share an lcore: the loop paces all of them with the gap of the first; the throughput bound is for the queues of one port.
- Commands that change the rate to another gap while the loop runs (a reset of the same gap is covered), and the loop that also receives, which does send when the gap is 0.
- Expiry of the flow table by timers other than eviction at any moment, and the extra priority-0 rule at line 50 of the controller, whose indentation is broken.
- Flag updates by concurrent command threads: `ModeFlags` takes commands one after the other; `Flags` covers the interleaving of single updates.
- Floating point in the histogram: latencies come in as whole tenths; the bins of the source can differ where `start + 0.3` is not exact.
- Big-endian hosts, on which the byte swap is the identity.
- Capture.Dump: does not model the progress display and the file, because they only format what the loop yields; segmented packets are excluded.
- SizesAreLegal: the sizes of the other packet slots are not modelled, because only the range slot is stepped.
