# Verified models of the eBPF-with-Aya examples

Each chapter of the repository pairs a small kernel program with a loader. Most are thin;
the ones modelled here hold a real algorithm or a protocol between the two sides. The
project states what those programs are for in terms of the world they observe (the
submitted payloads, the directory records, the call trace, the scheduler's trace, the
frames on the wire) and proves that their maps, buffers and reports agree with it.

A BPF hash map is a finite map with a capacity: a new key is refused silently when the map
is full, an existing key is always updated. Each kernel handler is one atomic step, except in
the ring buffer, where every access to shared memory is a step. Arithmetic is that of an
optimised build: sums wrap at the width of the word. A class holds the maps of a program, its
methods are the handlers, and a ghost trace ties the maps to a specification function over
that trace; the lemmas are about that function.

Main results, hardest first:

1. **User ring buffer** (`RingProtocol`, `RingInvariant`, `RingSafety`, `UserRing`). One
   producer and one consumer share an area of bytes through wrapping 64-bit positions. Under
   every interleaving of the producer's stores (length word, pad word, position, payload
   bytes, busy bit) with the consumer's loads, even when the space check used an old consumer
   position, what was submitted is what was delivered followed by the records still in the
   ring. The produce loop ends with count N and sum N(N+1)/2 when every drain may run.
2. **getdents64 splice** (`RecordSplice`, `BufferStash`, `PidHide`). The walk over the mutated
   buffer shows exactly the records that are not hidden if and only if every merged length
   fits its 16-bit field; a record is hidden iff it matches, is not first, is in reach and
   follows a visible record. Over whole traces of both probes, the caller misses the target iff there is none,
   or its call was stashed and the target can be hidden.
3. **Entry/return pairing** (`CallPairing`, `LatencyProbes`). For every interleaving of
   well-nested threads that never has more of them waiting than the map holds, the reports
   are the leaf calls with their own durations and tags.
4. **Live allocations** (`MemLeak`). The map is the set of pointers returned and not yet
   freed, each with its own call's size, and the reported total is what those calls asked for.
5. **Scheduler time** (`SwitchTime`, `SwitchPrograms`, `RunQueue`, `Histogram`). Three
   programs that key the same time by task, by CPU and by command agree; a percentile read
   from power-of-two buckets is within a factor of two of the order statistic.
6. **Packets and export** (`RoundRobin`, `LoadBalancer`, `HttpLine`, `DeltaExport`). Fairness
   under a wrapping cursor, the frame of a packet rewrite, the line shown for a frame, and
   increments that add up to a running maximum.

Properties that hold only under a condition are stated with the exact condition:

- A reserve of more than 2^64 - 16 bytes wraps its rounded length and passes the space check
  (`HeaderKeepsSidesInStep`, `WrappedSizeOverwrites`, `WrappedSizeClaimsHeader`).
- A merged record length of 2^16 or more breaks the listing (`ProbeHidesExactly`).
- The pidhide chapter says the target's entry disappears. In a spliced buffer it survives as
  first record, beyond 512 records, or right after another match (`TargetGone`), and a
  15-character target also hides longer names (`MatchIsNameEquality`). And the buffer is
  spliced only if the call's enter was admitted: a listing read to its end leaves a stash
  behind, and once 1024 threads hold one every other thread is refused while they stay idle
  (`CallerMissesTargetIff`, `AllAdmittedIff`, `FinishedListingsShutOut`). An older snippet in
  the chapter's text has a bound of 64 records; the code's bound of 512 is modelled.
- The balancer reads fixed offsets: its bytes are the UDP port and checksum iff the IP header
  has no options and the fragment offset is 0 (`RewrittenFields`, `OptionsMislead`). The HTTP
  filter checks for options but not for fragments or trailing bytes (`PayloadIsTcpData`).
- A query report of pg-probe can carry the text of an earlier, unfinished start (`OwnText`).
- Round robin stays within one dispatch for ever iff the number of backends divides 2^32
  (`AlwaysFairIffDividing`).
- A percentile whose rank rounds down to zero is 2 whatever the delays (`TooFewDelays`).

## Model

| member | source | states |
|---|---|---|
| RingSafety.SubmittedIsDeliveredThenPending | examples/50-user-rb/user-rb/src/main.rs:85-131 | Under every interleaving of both sides' steps, from any 8-aligned start position: submitted payloads are the delivered ones followed by the submitted records lying between the positions, read from the bytes; none lost, repeated, reordered or torn |
| RingSafety.SpanIsChainOfRecords | examples/50-user-rb/user-rb/src/main.rs:85-107 | In every reachable state the distance of the positions is at most the capacity and the bytes between them are a chain of whole 8-aligned records |
| RingInvariant.ProducerKeepsInv | examples/50-user-rb/user-rb/src/main.rs:85-131 | Every producer step (space check, header words, position, payload byte, busy bit, dropped entry) keeps the invariant on unbounded positions, tiling records and stored bytes |
| RingInvariant.ConsumerKeepsInv | examples/50-user-rb/user-rb-ebpf/src/main.rs:49-58 | Every consumer step (read position, test busy, read a byte, advance by the rounded size) keeps the same invariant |
| RingInvariant.OffsetOf | examples/50-user-rb/user-rb/src/main.rs:96 | Masking the wrapped 64-bit position gives the unbounded position modulo the capacity, so offsets are continuous across the wrap |
| RingInvariant.AvailExact | examples/50-user-rb/user-rb/src/main.rs:93 | Wrapping subtraction gives capacity minus the bytes unread at the moment the consumer position was loaded; the saturation never acts |
| RingSafety.ReserveDecision | examples/50-user-rb/user-rb/src/main.rs:86-94 | On a possibly stale consumer position, reserve accepts exactly when the rounded record fits what was free then, which never exceeds what is free now; a refusal changes only the producer's own progress |
| RingSafety.ReserveKeepsUnread | examples/50-user-rb/user-rb/src/main.rs:86-103 | From any invariant state no step of reserve changes a byte between the consumer and producer positions |
| RingSafety.SubmittedBytesStay | examples/50-user-rb/user-rb/src/main.rs:105-129 | No step of either side changes a byte of a submitted, unconsumed record |
| RingSafety.AccessesStayInMapping | examples/50-user-rb/user-rb/src/main.rs:61-80 | Headers never split at the end of the area and payloads end inside the second mapping |
| RingSafety.HeaderKeepsSidesInStep | examples/50-user-rb/user-rb/src/main.rs:86-103 | For a size that passed the space check, the consumer's rounded advance equals the producer's iff the size is at most 2^64 - 16; then the header shows busy and gives the size back |
| RingSafety.ReservedBytes | examples/50-user-rb/user-rb/src/main.rs:97-101 | The eight header bytes reserve stores: the size, least significant byte first, with 128 added to the fourth byte, then four zeros |
| RingSafety.ReadBytes | examples/50-user-rb/user-rb/src/main.rs:124-129 | A header is busy iff its fourth byte is 128 or more, and clearing the flag leaves the other 31 bits as the length |
| RingSafety.WrappedSizeOverwrites | examples/50-user-rb/user-rb/src/main.rs:86-99 | Beyond that bound, up to 2^64 - 8, the claim is empty: a full ring accepts it and overwrites the oldest unread header |
| RingSafety.WrappedSizeClaimsHeader | examples/50-user-rb/user-rb/src/main.rs:86-106 | The last seven sizes claim a bare header: eight free bytes suffice, and the payload then starts on the oldest unread record |
| RingSafety.DroppedEntryBlocksDelivery | examples/50-user-rb/user-rb/src/main.rs:105-131 | After an entry is dropped without submit and becomes the oldest record, no run ever delivers anything again |
| UserRing.UserRb.Open | examples/50-user-rb/user-rb/src/main.rs:48-83 | A ring is opened iff the size is a power of two, empty over the given area |
| UserRing.UserRb.Reserve | examples/50-user-rb/user-rb/src/main.rs:85-107 | For every size: succeeds iff the (wrapping) rounded length fits the free space and then is exactly the protocol's four steps; otherwise nothing changes; up to 2^64 - 16 the ring stays whole |
| UserRing.UserRb.CopyFromSlice | examples/50-user-rb/user-rb/src/main.rs:120-122 | Fills the claimed payload, which starts 8 bytes after the header, byte by byte iff the lengths agree; a mismatch drops the entry and writes nothing |
| UserRing.UserRb.Submit | examples/50-user-rb/user-rb/src/main.rs:124-130 | Clears the busy bit; the payload joins the submitted stream and its record becomes ready |
| UserRing.UserRb.OnSample | examples/50-user-rb/user-rb-ebpf/src/main.rs:67-83 | The aggregate becomes that of the payloads so far plus this one: from 8 bytes on, key 0 grows by one and key 1 by the value, modulo 2^64; a shorter payload changes nothing |
| UserRing.UserRb.DrainIt | examples/50-user-rb/reference/user_ringbuf.bpf.c:18-34 | Delivers n records, all of them ready, up to the helper's limit; short of the limit it stops only at the end of the ring or at a busy record |
| UserRing.UserRb.Produce | examples/50-user-rb/user-rb/src/main.rs:184-204 | The counters count attempts; the aggregate is count and sum of the accepted values that arrived; all of them have arrived when the last drain's limit covers them; with a ring of 16 bytes or more and drains that may run, all N arrive: count N, sum N(N+1)/2 |
| UserRing.DecodeEncode | examples/50-user-rb/user-rb/src/main.rs:186-189 | A sample's bytes read back as its value |
| UserRing.DecodeEight | examples/50-user-rb/user-rb/src/main.rs:186-189 | A sample is eight bytes, least significant first |
| UserRing.FinalAggregate | examples/50-user-rb/user-rb-ebpf/src/main.rs:66-83 | In any invariant state the aggregate is the count and sum of the accepted values delivered; with an empty ring, of all accepted |
| RecordSplice.ProbeHidesExactly | examples/39-pidhide/pidhide-ebpf/src/main.rs:71-106 | The listing of the mutated buffer is exactly the non-hidden records iff every merged length fits 16 bits; only length fields change, names read as before, and the count is the number of merges |
| RecordSplice.ListingShowsVisible | examples/39-pidhide/pidhide-ebpf/src/main.rs:90-104 | From any visible record on, the walk of the spliced buffer steps through exactly the remaining visible records when their merges fit |
| RecordSplice.WrappedMergeBreaksListing | examples/39-pidhide/pidhide-ebpf/src/main.rs:93 | One merged length that wraps the 16-bit field makes the listing differ from the visible records |
| RecordSplice.MergeStep | examples/39-pidhide/pidhide-ebpf/src/main.rs:90-100 | At each merge both lengths read are the original ones, and the store extends the spliced prefix by one record |
| RecordSplice.ScanSplices | examples/39-pidhide/pidhide-ebpf/src/main.rs:79-105 | From any record on, the bounded walk of the half-spliced buffer finishes the splice without a fault and counts the remaining merges |
| RecordSplice.ListingCovers | examples/39-pidhide/pidhide-ebpf/src/main.rs:71-105 | The lengths of the records a reader steps through add up to the returned byte count |
| RecordSplice.TargetGone | examples/39-pidhide/pidhide-ebpf/src/main.rs:72-105 | In a spliced buffer every matching record is hidden iff the first does not match, none beyond 512 matches, and no two adjacent ones match |
| RecordSplice.MatchesAreFilteredOut | examples/39-pidhide/pidhide-ebpf/src/main.rs:74-105 | Up to 512 records without adjacent matches after the first and with merges below 65536, the listing is, in order, the first record and every record that does not match; the merges are as many as the others |
| RecordSplice.BeyondReachIsListed | examples/39-pidhide/pidhide-ebpf/src/main.rs:79 | A record at index 512 or beyond is always listed |
| RecordSplice.DirentFields | examples/39-pidhide/pidhide-ebpf/src/main.rs:83-99 | In a directory entry laid out as the kernel does, the length read is the one at offset 16, the name the one at offset 19, and storing a length changes nothing else |
| RecordSplice.UnseenIff | examples/39-pidhide/pidhide-ebpf/src/main.rs:60-107 | What a call hands its caller, spliced or not, lists no record with the target's name iff there is none, or the call is spliced and those three conditions hold |
| PidHide.CallerMissesTargetIff | examples/39-pidhide/pidhide-ebpf/src/main.rs:46-107 | For any trace of both probes and a call of it whose merges fit, the caller misses the target iff there is none, or the call's enter was admitted to the map and the three conditions hold |
| PidHide.ShutOutCallerSeesTarget | examples/39-pidhide/pidhide-ebpf/src/main.rs:60-68 | After 1024 threads have each read a directory to its end, and whatever the others do since, every other thread's caller sees the target wherever there is one |
| BufferStash.StashesAreHolders | examples/39-pidhide/pidhide-ebpf/src/main.rs:46-68 | For every trace, a thread has a stash iff its latest enter was admitted and no call of it has returned a positive count since, and the stash is that enter's address |
| BufferStash.FoundIffAdmitted | examples/39-pidhide/pidhide-ebpf/src/main.rs:66-68 | A positive return finds a stash iff the enter it answers met fewer than 1024 other stashed threads |
| BufferStash.AllAdmittedIff | examples/39-pidhide/pidhide-ebpf/src/main.rs:46-52 | Every enter is admitted iff at none of them 1024 other threads have entered without a positive return since |
| BufferStash.FinishedListingsShutOut | examples/39-pidhide/pidhide-ebpf/src/main.rs:60-68 | A call that returns 0 keeps its stash: after 1024 finished listings no other thread is ever admitted, whatever the others do |
| RecordSplice.HidingIsFiltering | examples/39-pidhide/pidhide-ebpf/src/main.rs:90-103 | Without adjacent matches after the first record, a record in reach is hidden iff it matches and is not first |
| RecordSplice.MatchIsNameEquality | examples/39-pidhide/pidhide-ebpf/src/main.rs:30-43 | The comparison is name equality for targets up to 14 characters, a 15-character prefix test at 15, and never true for a full buffer |
| PidHide.Eq | examples/39-pidhide/pidhide-ebpf/src/main.rs:30-43 | The byte loop decides equality up to and including the target's terminator |
| PidHide.Probes.EnterGetdents | examples/39-pidhide/pidhide-ebpf/src/main.rs:46-52 | Extends the trace by an enter; the thread's address is stashed unless 1024 other threads hold a stash |
| PidHide.Probes.ExitGetdents | examples/39-pidhide/pidhide-ebpf/src/main.rs:60-107 | A positive return of a thread that holds a stash turns the caller's buffer into the spliced one and adds the merges to the counter; any other return changes neither; the map stays that of the trace |
| PidHide.Probes.Splice | examples/39-pidhide/pidhide-ebpf/src/main.rs:71-106 | The in-place loop over absolute addresses equals the pure walk, faults included |
| CallPairing.LeafCallsAreReported | examples/18-funclatency/funclatency-ebpf/src/main.rs:27-53 | For every interleaving of well-nested threads during which no more threads wait at once than the map holds, the reports are exactly the leaf calls in order of return, with exact durations and their own tags |
| CallPairing.OnlyLeafCallsAreReported | examples/68-he-observability/he-observer-ebpf/src/main.rs:27-44 | Whatever the map and ring refuse, the reports are a subsequence of the leaf calls: none wrong, none with a wrong duration |
| CallPairing.ReportsAllDue | examples/18-funclatency/funclatency-ebpf/src/main.rs:27-53 | On any such trace, nested or not, the reports are the returns whose thread's previous event is an entry |
| CallPairing.DueIsLeaf | examples/68-he-observability/he-observer-ebpf/src/main.rs:27-58 | In a nested trace a return follows its thread's entry directly iff its call is a leaf, and the pair is then that call |
| LatencyProbes.ReportsAreLeafCalls | examples/68-he-observability/he-observer-ebpf/src/main.rs:27-58 | The state of a probe program after any handlers has reported leaf calls of its trace only, and all of them where the ring had room if the map never filled |
| LatencyProbes.EventsAreLeafCalls | examples/18-funclatency/funclatency-ebpf/src/main.rs:40-51 | On a nested trace that never fills the map, funclatency's events are as many as the leaf calls with room; the k-th has the k-th call's return time minus its entry time, and the process of its thread |
| LatencyProbes.SamplesAreLeafCalls | examples/68-he-observability/he-observer-ebpf/src/main.rs:36-41 | he-observer's samples likewise, each with the operation of its own call's entry and return |
| LatencyProbes.LeafEndsAreAll | examples/18-funclatency/funclatency-ebpf/src/main.rs:27-53 | The calls meant are all leaf calls that found room, in order of return |
| LatencyProbes.FuncLatency.FnEnter | examples/18-funclatency/funclatency-ebpf/src/main.rs:27-32 | Extends the trace by an entry; the thread's clock is stashed unless 8192 other threads have one |
| LatencyProbes.FuncLatency.FnExit | examples/18-funclatency/funclatency-ebpf/src/main.rs:35-53 | Extends the trace by a return and uses the stash up; with room, one event carries the process of the thread and the time since the stash |
| LatencyProbes.HeObserver.OnEntry | examples/68-he-observability/he-observer-ebpf/src/main.rs:27-31 | One entry handler for every operation, which it does not know |
| LatencyProbes.HeObserver.OnReturn | examples/68-he-observability/he-observer-ebpf/src/main.rs:34-44 | The return handler of one operation: with room, one sample carries that operation and the time since the stash, which is used up |
| LatencyProbes.PgProbe.QStart | examples/47-pg-probe/pg-probe-ebpf/src/main.rs:33-43 | Stashes text (when the pointer is non-null) and clock; lock pairing and events are untouched |
| LatencyProbes.PgProbe.QDone | examples/47-pg-probe/pg-probe-ebpf/src/main.rs:46-58 | Emits kind 0 with process, duration and the waiting text unless the query took no time, and clears both stashes |
| LatencyProbes.PgProbe.LStart | examples/47-pg-probe/pg-probe-ebpf/src/main.rs:61-65 | Extends the lock trace by an entry; the clock is stashed unless 4096 other threads wait |
| LatencyProbes.PgProbe.LDone | examples/47-pg-probe/pg-probe-ebpf/src/main.rs:68-78 | Emits kind 1 with process and duration unless the wait took no time; a wait nested in a query leaves the query pairing alone |
| LatencyProbes.EmittedShows | examples/47-pg-probe/pg-probe-ebpf/src/main.rs:21-30 | In the one event list, the events of each kind remain the reports of that kind's own pairing, whichever kind emits |
| LatencyProbes.WaitingIsLatest | examples/47-pg-probe/pg-probe-ebpf/src/main.rs:36-40 | While no more than 4096 queries wait at once, the text a report carries is that of the latest start with a non-null pointer since the thread's last return |
| LatencyProbes.OwnText | examples/47-pg-probe/pg-probe-ebpf/src/main.rs:33-58 | A report carries its own query's text iff that start's pointer was non-null or no earlier text was left waiting |
| MemLeak.TracksLiveAllocations | examples/24-memleak/memleak-ebpf/src/main.rs:32-86 | For every interleaving that fits the maps, with addresses reused only after free, a pointer is in the map iff it was returned by a tracked call and not freed since, with that call's size and stack |
| MemLeak.OnlyOwnInfo | examples/24-memleak/memleak-ebpf/src/main.rs:32-48 | With full maps entries can be missing, but none is stale or carries another call's size |
| MemLeak.EntriesOfOwnProcess | examples/24-memleak/memleak-ebpf/src/main.rs:38-48 | Each entry carries the size its own call asked for, the stack of its return, and the upper half of that return's thread id as its process |
| MemLeak.WatchedThreads | examples/24-memleak/memleak-ebpf/src/main.rs:27-30 | With a target, exactly the threads of that process are watched; without one, all are |
| MemLeak.ExitDeletionLosesReuse | examples/24-memleak/memleak-ebpf/src/main.rs:80-86 | A trace with legal reuse on which deleting at the return of free would forget a live allocation |
| MemLeak.CallocTotal | examples/24-memleak/memleak-ebpf/src/main.rs:63-68 | The division guard yields min(n * size, 2^64 - 1) for all inputs |
| MemLeak.CappedIs | examples/24-memleak/memleak-ebpf/src/main.rs:63-68 | A product below 2^64 is kept, any other becomes 2^64 - 1 |
| MemLeak.Probes.OnAllocEnter | examples/24-memleak/memleak-ebpf/src/main.rs:32-36 | Extends the trace by an entry; a watched thread's size is stashed unless 10240 other threads have one |
| MemLeak.Probes.OnAllocReturn | examples/24-memleak/memleak-ebpf/src/main.rs:38-48 | Extends the trace by a return; a watched thread's stash is used up and a non-null pointer recorded with size, stack and process unless a million others are |
| MemLeak.Probes.CallocEnter | examples/24-memleak/memleak-ebpf/src/main.rs:63-71 | Enters a call for the capped product |
| MemLeak.Probes.FreeEnter | examples/24-memleak/memleak-ebpf/src/main.rs:80-86 | Extends the trace by a free; a watched thread's non-null pointer is forgotten |
| MemLeak.GroupByStack | examples/24-memleak/memleak/src/main.rs:79-84 | Whatever the iteration order, there is a row for each stack, with the size sum and the number of its allocations (modulo 2^64) |
| MemLeak.TotalBytes | examples/24-memleak/memleak/src/main.rs:86-101 | Whatever the row order, the total is the size of everything tracked (modulo 2^64) |
| MemLeak.OutstandingBytes | examples/24-memleak/memleak/src/main.rs:79-93 | That size is what the outstanding calls of the trace asked for, each counted once |
| SwitchPrograms.EnergyIsTimeOnCpu | examples/26-energy/energy-ebpf/src/main.rs:32-55 | On every well-formed trace of at most 1024 CPUs each entry is the number of nanoseconds the task was current; a task without an entry has none unless the map is full |
| SwitchPrograms.BusyIsTimePerCpu | examples/44-scx-nest/cpu-busy-ebpf/src/main.rs:18-33 | Each CPU that found room has exactly its non-idle nanoseconds |
| SwitchPrograms.PowerIsTimePerCommand | examples/61-power/power-ebpf/src/main.rs:29-43 | Each command has exactly the time of the slices that ended under its name, those starting at time zero (the empty mark) excepted |
| SwitchPrograms.ThreeProgramsAgree | examples/61-power/power-ebpf/src/main.rs:29-43 | On one trace the per-task and per-CPU totals are equal, and the per-command total is that plus the idle time |
| SwitchPrograms.UsageTotal | examples/26-energy/energy-ebpf/src/main.rs:38-48 | Per-task time adds up to the busy time of the machine |
| SwitchPrograms.EnergyStepIs | examples/26-energy/energy-ebpf/src/main.rs:32-55 | One switch in figures: the outgoing task gains the time since its CPU's stamp, modulo 2^64, and takes its present name, unless it is idle, the CPU unseen or 16384 others are kept; the CPU is stamped unless 1024 others are |
| SwitchPrograms.BusyStepIs | examples/44-scx-nest/cpu-busy-ebpf/src/main.rs:18-33 | The same for cpu-busy, with 256 CPUs |
| SwitchPrograms.PowerStepIs | examples/61-power/power-ebpf/src/main.rs:29-43 | The same for power, by command, with 4096 commands and zero for an unseen CPU |
| Modular.WrapLap | examples/26-energy/energy-ebpf/src/main.rs:45 | A counter keeps the low 64 bits of what was added to it, no more and no less |
| SwitchPrograms.Energy.SchedSwitch | examples/26-energy/energy-ebpf/src/main.rs:32-55 | One switch extends the trace; both maps stay those of the trace |
| SwitchPrograms.CpuBusy.OnSwitch | examples/44-scx-nest/cpu-busy-ebpf/src/main.rs:18-33 | One switch extends the trace; both maps stay those of the trace |
| SwitchPrograms.Power.OnSwitch | examples/61-power/power-ebpf/src/main.rs:29-43 | One switch extends the trace; slot and map stay those of the trace |
| SwitchTime.NextSwitch | examples/26-energy/energy-ebpf/src/main.rs:37-52 | A switch adds exactly the slice since its CPU's previous one to whoever keeps it, all of it not counted before |
| SwitchTime.TotalIsUnion | examples/26-energy/energy-ebpf/src/main.rs:37-48 | Times kept under keys that share no interval add up to the size of the union of their moments |
| RunQueue.HistogramOfWaits | examples/21-runqlat/runqlat-ebpf/src/main.rs:39-56 | While no more than 16384 tasks wait at once, the histogram is that of the waits of the trace (each dispatch after a stamp), one count each |
| RunQueue.OneMoreWait | examples/21-runqlat/runqlat-ebpf/src/main.rs:39-51 | For every trace, a stamp of a task and its record add exactly one wait, of the whole microseconds between them |
| RunQueue.IdleTaskIgnored | examples/21-runqlat/runqlat-ebpf/src/main.rs:40-46 | Pid 0 adds no event to any trace |
| RunQueue.RunqLat.Stamp | examples/21-runqlat/runqlat-ebpf/src/main.rs:39-43 | Stamps a task unless it is the idle one or 16384 others are stamped |
| RunQueue.RunqLat.Record | examples/21-runqlat/runqlat-ebpf/src/main.rs:45-56 | Takes the stamp and counts the wait in its bucket; the array stays the histogram of the trace |
| RunQueue.RunqLat.SchedWakeup | examples/21-runqlat/runqlat-ebpf/src/main.rs:59-68 | A woken task is stamped |
| RunQueue.RunqLat.SchedSwitch | examples/21-runqlat/runqlat-ebpf/src/main.rs:71-85 | A preempted task is stamped, then the incoming one recorded |
| RunQueue.BumpCounts | examples/45-nginx-probe/nginx-probe-ebpf/src/main.rs:29-32 | Each logarithm's counter is the number of its delays, and 64 keys never fill the map |
| RunQueue.BumpIs | examples/45-nginx-probe/nginx-probe-ebpf/src/main.rs:29-55 | A delay adds one, modulo 2^64, to the counter of its power of two, and to no other |
| RunQueue.NginxProbe.ReqStart | examples/45-nginx-probe/nginx-probe-ebpf/src/main.rs:35-42 | Stamps a request object, null excepted |
| RunQueue.NginxProbe.ReqDone | examples/45-nginx-probe/nginx-probe-ebpf/src/main.rs:45-59 | Counts the request unless it took no time, and forgets it either way |
| Histogram.ShiftingLog2 | examples/45-nginx-probe/nginx-probe-ebpf/src/main.rs:19-26 | 2^r <= v < 2^(r+1), and 0 for 0 |
| Histogram.PercentileUs | examples/21-runqlat/runqlat/src/main.rs:35-45 | The scan computes the specified percentile for every rational q, the fallback included |
| Histogram.PercentileWithinFactorTwo | examples/21-runqlat/runqlat/src/main.rs:35-45 | For q <= 1 and a rank of at least 1, the report r and the order statistic x satisfy r <= 2 max(x, 1), and x < r iff x < 2^27 us |
| Histogram.PercentileBracketsADelay | examples/21-runqlat/runqlat/src/main.rs:35-45 | That order statistic exists, is one of the delays, and is the only one of its rank |
| Histogram.RankBucketHoldsKth | examples/21-runqlat/runqlat/src/main.rs:39-43 | The first bucket whose running count reaches k is the bucket of the k-th smallest delay |
| Histogram.PercentileMonotone | examples/21-runqlat/runqlat/src/main.rs:35-45 | A higher percentile never reports less |
| Histogram.TargetWithin | examples/21-runqlat/runqlat/src/main.rs:38-44 | For q <= 1 the target never exceeds the total, so the last return is not reached |
| Histogram.TooFewDelays | examples/21-runqlat/runqlat/src/main.rs:38-42 | When the target rounds down to 0 the report is 2 whatever was measured |
| Histogram.PercentileExtremes | examples/21-runqlat/runqlat/src/main.rs:36-44 | No delay at all reports 0, and a target past the total reports 2^27 |
| RoundRobin.FairWithoutWrap | examples/34-xdp-lb/xdp-lb-ebpf/src/main.rs:69-78 | m dispatches give every slot m / n or one more while the cursor does not wrap |
| RoundRobin.FairAcrossWraps | examples/34-xdp-lb/xdp-lb-ebpf/src/main.rs:74-78 | Over any run two slots differ by at most 1 plus the number of wraps |
| RoundRobin.AlwaysFairIffDividing | examples/34-xdp-lb/xdp-lb-ebpf/src/main.rs:74-78 | Slots stay within one of each other for ever iff n divides 2^32; otherwise the wrap makes a difference of two |
| RoundRobin.AllServed | examples/34-xdp-lb/xdp-lb-ebpf/src/main.rs:69-78 | The slots' shares add up to all dispatches |
| LoadBalancer.Program.TryLb | examples/34-xdp-lb/xdp-lb-ebpf/src/main.rs:53-87 | For frames of any length: an IPv4 frame of protocol 17 with 8080 at bytes 36-37 changes there to the chosen port and to zero at bytes 40-41, with cursor and counter advanced; every other frame leaves packet, cursor and counters alone |
| LoadBalancer.NextIs | examples/34-xdp-lb/xdp-lb-ebpf/src/main.rs:54-85 | The dispatch in figures: which bytes make a frame dispatched (0x0800, 17, 8080), the port chosen, the cursor modulo 2^32 and the counter it moves |
| LoadBalancer.RedirectedBytes | examples/34-xdp-lb/xdp-lb-ebpf/src/main.rs:80-84 | The bytes of a redirected frame: the port in network order at 36, zeros at 40, the rest unchanged |
| LoadBalancer.PlainFrames | examples/34-xdp-lb/xdp-lb-ebpf/src/main.rs:54-67 | Among frames with a 20-byte IP header and fragment offset 0, those dispatched are exactly the datagrams to the virtual port |
| LoadBalancer.RewrittenFields | examples/34-xdp-lb/xdp-lb-ebpf/src/main.rs:63-84 | The bytes rewritten are the UDP destination port and checksum iff the IP header has no options and the fragment offset is 0 |
| LoadBalancer.RedirectsDatagram | examples/34-xdp-lb/xdp-lb-ebpf/src/main.rs:80-84 | Redirecting a frame to another port redirects its datagram and changes nothing else iff the same holds |
| LoadBalancer.OptionsMislead | examples/34-xdp-lb/xdp-lb-ebpf/src/main.rs:57-67 | With one word of options, a datagram to port 53 is dispatched and its port zeroed, and one to the virtual port is passed over |
| LoadBalancer.RunDispatches | examples/34-xdp-lb/xdp-lb-ebpf/src/main.rs:69-86 | After any run of frames the counters are exactly the dispatches to each port, none refused, the cursor moved once per dispatch; an empty table leaves everything as it was |
| LoadBalancer.ChosenSlot | examples/34-xdp-lb/xdp-lb-ebpf/src/main.rs:74-75 | Dispatch k goes to round robin's slot k, always in range of the table |
| LoadBalancer.HitsAreFair | examples/34-xdp-lb/xdp-lb-ebpf/src/main.rs:69-86 | From a fresh load, distinct backends' counters are all m / n or one more |
| LoadBalancer.Program.Fill | examples/34-xdp-lb/xdp-lb/src/main.rs:49-56 | Succeeds iff at most eight ports, and then table, count and cursor are set; otherwise count and cursor are untouched |
| HttpLine.Filter.TryHttp | examples/29-http-l7/httpl7-ebpf/src/main.rs:49-100 | Emits one event iff the frame is IPv4 without options, TCP, and its payload starts like HTTP: its addresses and ports as loaded and its payload cut or zero-filled to 80 bytes; fails iff the frame is shorter than the walk needs |
| HttpLine.CapturedStarts | examples/29-http-l7/httpl7-ebpf/src/main.rs:31-39 | The five-byte starts captured, byte by byte |
| HttpLine.CapturedFrames | examples/29-http-l7/httpl7-ebpf/src/main.rs:51-72 | The frames captured and where their payload starts, in figures |
| HttpLine.ReadLine | examples/29-http-l7/httpl7-ebpf/src/main.rs:74-92 | The bounded copy holds min(available, 80) payload bytes followed by zeros |
| HttpLine.PayloadIsTcpData | examples/29-http-l7/httpl7-ebpf/src/main.rs:62-80 | What is taken for the payload is the segment's TCP data iff the fragment offset is 0, the TCP header is at least 20 bytes and the IP total length ends the frame |
| HttpLine.ShownLine | examples/29-http-l7/httpl7/src/main.rs:54-57 | At least five bytes are copied, and the line shown is the payload up to its first byte 13, 10 or 0, its end, or byte 80 |
| HttpLine.FirstLine | examples/29-http-l7/httpl7/src/main.rs:54-57 | The prefix before the first CR, LF or NUL |
| HttpLine.MethodOf | examples/29-http-l7/httpl7/src/main.rs:58-60 | The longest prefix without a space |
| HttpLine.NameOf | examples/29-http-l7/httpl7-ebpf/src/main.rs:31-39 | The line shown has at least four bytes; the label is exactly GET or PUT for those, and for POST, HEAD, DELE it starts with those letters and stops there iff the fifth byte is a space or ends the line |
| DeltaExport.Exporter.Report | examples/31-tc-classify/tc-classify/src/main.rs:36-50 | Processes the readings up to the first error and fails iff there is one; memory and increments stay those of all readings so far |
| DeltaExport.ExportsRunningMax | examples/31-tc-classify/tc-classify/src/main.rs:41-48 | For any readings, growing or not, the increments exported for a key add up to the largest value read for it |
| DeltaExport.LabelShowsSumOfMaxima | examples/31-tc-classify/tc-classify/src/main.rs:45 | A label shared by several keys shows the sum of their largest values |
| DeltaExport.NamedProtocols | examples/31-tc-classify/tc-classify-common/src/lib.rs:8-15 | The labels of protocols 1, 6 and 17 show the largest value read for that protocol |
| DeltaExport.RemainingProtocols | examples/31-tc-classify/tc-classify-common/src/lib.rs:8-15 | Increments of all other protocols go under the one remaining label |
| DeltaExport.UntilError | examples/31-tc-classify/tc-classify/src/main.rs:41-42 | The readings processed are the items before the first error, in order |

## Left out

- RingSafety.SubmittedIsDeliveredThenPending: reserves above 2^64 - 16 bytes are excluded, because the property fails there as the three lemmas on wrapped sizes state; start positions are multiples of 8, as the kernel's zero is.
- HttpLine.MethodOf: works on bytes; the lossy UTF-8 decoding of `first_line` is not modelled.
- The memory model is sequentially consistent; acquire and release orderings are not weakened further, and the mapping is an array indexed modulo its length instead of `mmap`.
- The kernel's drain helper is taken by contract (stop at a busy header or an empty ring, else deliver and advance); its own checks of sizes and its discard bit are not modelled.
- Lost updates between CPUs in get-then-insert counters: each handler is atomic.
- Floating-point rounding in percentiles, and the watts computed from shares of time.
- Histogram.PercentileUs: bucket counts and their sum are unbounded, because a wrap would take 2^64 delays; q is a rational.
- Command names in events, stack traces and symbols, terminal output, sorting of printed rows.
- OTLP set-up, program loading and attaching, and command-line handling of every loader.
- Single-event tracers, LSM programs and signal senders: one read and one emit each.
- Failures of tracepoint field reads and of the map handles themselves.
