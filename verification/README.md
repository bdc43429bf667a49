# minsec in Dafny

A model of the parts of minsec that carry state or arithmetic, with proofs about them. minsec watches logs,
bans sources that misbehave, and exchanges bans with a server through a sync client.

| module | models |
|---|---|
| `Nets` | CIDR blocks (section 3.1 of RFC 4632, section 2.3 of RFC 4291), overlap, netmasks, the bitwise recognition of a block from its range |
| `Duration` | the duration notation: parser with overflow checks, greedy printer |
| `Tracker` | ring windows of hits in a capped map, against unbounded hit histories |
| `Lines`, `Rotation`, `Tailer` | bytes split at newlines; a file over its rotations; the follower of a file with its chunked splitter |
| `EventReader` | the event log with its cursor, rotation and unfinished lines |
| `Report` | the report protocol of client, server and log: batches, sequence numbers, cursor, crashes |
| `Escalation`, `History` | ban lengths that grow, and the ban history beside the event log |
| `Engine` | hits, bans, mirror of the firewall, allow-list guard, housekeeping, restarts |
| `Firewall` | set layout and rule order of the nftables backend, listing, grouping, re-keying |
| `CrowdPull` | the crowd list of one family: full listings, deltas, unchanged answers, timeouts |
| `Wrappers` | options, saturating arithmetic |

Methods that change fields in the program are methods of classes here. They are proved against functions on
values (or, where an operation may choose, relations), and the theorems over runs are lemmas about sequences of
those. Whatever the surroundings do is an input: the fate of each request and reply, whether a write of the state
file happens, the daemon's writes between any two steps, what the firewall makes of each call, which removals
stick, which reads fail. A run is therefore determined by its inputs, up to the choices that a step leaves open
(which of several oldest entries go, how many bytes a read returns), and the records that a result speaks of are
themselves fixed by the contracts.

The main results are `Report.AtLeastOnceOverRuns`, `Report.RunKeeps`, `CrowdPull.PullsStayInStep`,
`CrowdPull.DeltaExactIff`, `Tracker.RingDecides`, `Tracker.DropsDoNotMatter`, `Firewall.ChainsDecideByMembership`,
`Engine.AgreementOverRunsIff`, `Engine.GuardOverRuns`, `Engine.RestartRebuildsHistory`,
`EventReader.ChainedReadsAreOnePass`, `Tailer.FollowLog`, `Tailer.CutsDoNotMatterIffShort`, `Duration.Parse` with
`Duration.PrintedParses`, `Nets.IsCidrExact` and `Escalation.EscalateLoop`. The rows marked as corollaries follow from
them in a step.

## Where a promise holds only under a condition

The model keeps the code as it is and proves exactly when it does what its comments and documentation promise.

- `sweep` and `evict_batch` (`crates/minsec-core/src/tracker.rs:127`, `:143`) ask a window for its newest hit
  with the maximal capacity instead of the capacity of the window. The answer is right for every cutoff if and
  only if the ring has not wrapped, or uses all 32 slots, or the slot read instead holds the newest stamp too
  (`JudgedByNewestIff`). `SweepMisjudgesWrappedRing` is an input for the sweep, `EvictionMisjudgesWrappedRing` one
  for the eviction. The comments at lines 123 and 135 promise the newest hit. `DropsDoNotMatter` says when this
  is harmless for verdicts.
- The tailer throws an over-long unfinished line away and takes its remainder for a new line. The cuts between
  reads do not matter if and only if no line is longer than 16 KiB (`CutsDoNotMatterIffShort`);
  `LongLineDependsOnCut` is an input.
- A reader that is two rotations late loses lines. Its result is exact if and only if the missed lines hold no
  automatic ban, as long as it lands between lines; the general condition covers a file that has the inode of the
  cursor again (`LateReadExactIff`). `TwoRotationsLoseABan` is an input.
- A manual ban of a network with host bits is entered in the mirror under a name that the kernel does not use.
  Mirror and kernel still agree if and only if the network is canonical (`MirrorBanIffCanonical`); for a
  canonical network, if and only if the 32-bit clock can represent the expiry (`MirrorBan`, with the input
  `LongBanIsNotMirrored`). `AgreementOverRunsIff` says so for whole runs of commands. The command line drops
  host bits (`crates/minsec/src/main.rs:259`), so the input `HostBitsSplitMirror` comes over the control socket.
- A delta gives the new snapshot if and only if no removal takes along an element that another line keeps, and no
  removal sticks (`DeltaExactIff`, `DeltaKeepsIff`). `203.0.113.7` and `203.0.113.7/32` are two lines and one
  element: when one of them is withdrawn, the element goes although the other is still listed
  (`SpellingsBreakDelta`). One spelling for each network and no host bits are enough (`OneSpellingFits`).
- A delta cut short after its removals leaves a hole: the next delta from the same cursor is right if and only
  if everything removed that is wanted again is among its additions (`InterruptedDelta`, with the input
  `InterruptedDeltaLoses`). The client falls back to a full listing, which repairs every state (`ReplaceRestores`).

## Model

| member | source | states |
|---|---|---|
| Nets.OverlapsIffShareAddress | crates/minsec-core/src/engine.rs:68-70 | Two networks overlap, as the engine decides it on whole blocks, if and only if some address lies in both: blocks nest or are disjoint. |
| Nets.NetmaskClears | crates/minsec-core/src/backend/nft.rs:177-185 | Bitwise conjunction with a netmask of a given prefix is the address with its host bits cleared, for every width and prefix. |
| Nets.RangeToNetExact | crates/minsec-core/src/backend/nft.rs:450-465 | The daemon reads a range as a network if and only if that network is canonical and has exactly these end points; ranges that mix families or span no block yield nothing. |
| Nets.IsCidrExact | crates/minsec-sync/src/nft.rs:241-254 | The sync client's check accepts a range if and only if some CIDR block has it as its range, and it agrees with the daemon's reading. |
| Nets.RangeRoundTrip | crates/minsec-core/src/backend/nft.rs:450-465 | Every IPv4 or IPv6 network, the whole address space included, comes back from its range, without host bits. |
| Nets.SpanTestsMeaning | crates/minsec-sync/src/nft.rs:253 | The two conjunctions in wrapping arithmetic hold exactly if the span is a power of two and the start is aligned to it, the wrap at the full width included. |
| Duration.Parse | crates/minsec-core/src/duration.rs:7-51 | Succeeds with v if and only if the trimmed text is a phrase of the notation whose exact sum is v and fits 64 bits; a phrase with a larger sum overflows; the other errors name a character that has no number before it or is no unit; the last error branch is never taken; the empty error exactly for blank text. |
| Duration.ReadingExact | crates/minsec-core/src/duration.rs:16-50 | The one-pass reading with its pending number accepts exactly the phrases of the grammar, with their exact sums. |
| Duration.Format | crates/minsec-core/src/duration.rs:53-66 | The text is a sequence of terms, units falling, no leading zeros, no term as long as the next larger unit, whose sum is the duration. |
| Duration.PrintedParses | crates/minsec-core/src/duration.rs:7-66 | Whatever is the printed form of a 64-bit number of seconds parses as that number and no other. |
| Duration.RoundTrip | crates/minsec-core/src/duration.rs:7-66 | The text is the printed form of the duration, and parsing it gives the duration back, for every 64-bit number of seconds, without an overflow error. |
| Duration.MeaningIsUnique | crates/minsec-core/src/duration.rs:7-51 | No text stands for two durations. |
| Duration.UnitsMean | crates/minsec-core/src/duration.rs:32-39 | 1w, 1d, 1h30m, 1s and a bare number, in seconds. |
| Duration.TrimExact | crates/minsec-core/src/duration.rs:8 | Trimming takes blanks off both ends, all of them and nothing else. |
| Duration.BlanksDoNotMatter | crates/minsec-core/src/duration.rs:8 | A text with blanks around it means what it means without them. |
| Tracker.PushAppends | crates/minsec-core/src/tracker.rs:34-44 | Pushing keeps the ring invariant and appends to the stamps, dropping the oldest one when the ring is full. |
| Tracker.Window.Push | crates/minsec-core/src/tracker.rs:34-44 | The in-place write turns the contents into the pushed ring. |
| Tracker.Window.CountFrom | crates/minsec-core/src/tracker.rs:45-51 | Counting over the slots counts the stamps held that are not older than the bound. |
| Tracker.RecentSuffices | crates/minsec-core/src/tracker.rs:101-117 | While at most cap hits lie in the window, the cap most recent hits determine their number. |
| Tracker.RingDecides | crates/minsec-core/src/tracker.rs:101-117 | One hit on a ring gives the verdict and the count that the unbounded list of the key's hits gives, and the ring goes on standing for that list. |
| Tracker.VerdictExact | crates/minsec-core/src/tracker.rs:108-116 | The verdict is a ban exactly if at least maxretry hits of the history, counted by position, are at most findtime seconds old, and it tells their number. |
| Tracker.SweepMisjudgesWrappedRing | crates/minsec-core/src/tracker.rs:124-127 | Three hits with two retries: the newest hit is read as time zero. |
| Tracker.LastReadAtMaxCap | crates/minsec-core/src/tracker.rs:52-58 | Told the maximal capacity, a ring never reports a stamp later than its newest one, and reports that one if it has not wrapped. |
| Tracker.SelectOldest | crates/minsec-core/src/tracker.rs:138-152 | Exactly n keys are chosen, and none that stays is older than one that goes. |
| Tracker.EvictionFollowsNewestHits | crates/minsec-core/src/tracker.rs:138-152 | While every ring reads its newest stamp, which `JudgedByNewestIff` characterises, the newest hit of every survivor is at least as recent as that of every evicted key. |
| Tracker.Tracker.Hit | crates/minsec-core/src/tracker.rs:101-117 | The verdict is that of the unbounded history: a ban exactly if at least maxretry of its hits are at most findtime seconds old; all other keys keep their histories unless evicted; eviction happens exactly for a new key in a full map, takes the oldest thirty-second part, and inspects every entry once. |
| Tracker.Tracker.Forget | crates/minsec-core/src/tracker.rs:119-121 | The key is forgotten and nothing else. |
| Tracker.JudgedByNewestIff | crates/minsec-core/src/tracker.rs:124-127 | A window is judged by its newest hit, for every cutoff, if and only if its ring has not wrapped, uses all slots, or holds the newest stamp in the slot that is read as well; hits in the same second are included. |
| Tracker.EvictionMisjudgesWrappedRing | crates/minsec-core/src/tracker.rs:138-152 | A full map in which every choice of the oldest by age takes the one key with the newest hit. |
| Tracker.Tracker.Sweep | crates/minsec-core/src/tracker.rs:124-133 | The entries whose age is before the cutoff go and are counted; every key whose newest hit is more than the idle time old goes; another key goes only if it has had more hits than its limit, which is below 32. |
| Tracker.DropsDoNotMatter | crates/minsec-core/src/tracker.rs:101-152 | In any run of hits, sweeps, evictions and requests to forget: while only keys that had left their own windows have been dropped, a hit, one that evicts others included, gets the verdict of a history that is never swept or evicted. |
| Tracker.SweepHarmless | crates/minsec-core/src/tracker.rs:124-133 | A sweep over the longest window drops only such keys unless a key below the maximal limit has had more hits than its limit. |
| Tracker.EvictionsAreCheap | crates/minsec-core/src/tracker.rs:134-152 | In every run of operations evictions look at no more than 63 entries per hit, and the map never outgrows its size. |
| Tracker.Replay | crates/minsec-core/src/tracker.rs:84-152 | Carrying out any run of operations on an empty tracker: every verdict and every history is that of the run, the map keeps at most max(max_entries, 16) keys, and the entries inspected are those of the evictions of the run. |
| Lines.SplitResumes | crates/minsec-core/src/source/file.rs:231-249 | Splitting a stream at newlines can be resumed from the kept rest at any point. |
| Tailer.FileState.TakeChunk | crates/minsec-core/src/source/file.rs:230-254 | One chunk: the lines that come out and the partial line kept are those of the split, with an over-long rest dropped. |
| Tailer.FileState.Drain | crates/minsec-core/src/source/file.rs:171-173 | Draining a rotated file consumes it to its end unless a read fails. |
| Tailer.FeedIsSplit | crates/minsec-core/src/source/file.rs:212-256 | With short lines, every way of cutting a stream into reads yields the stream split at newlines. |
| Tailer.CutsDoNotMatterIffShort | crates/minsec-core/src/source/file.rs:249-250 | The cuts do not matter if and only if no line and no rest is longer than the limit. |
| Tailer.LongLineDependsOnCut | crates/minsec-core/src/source/file.rs:249-250 | A line one byte over the limit comes out whole when read at once, and as an empty line when its newline is read alone. |
| Tailer.FileState.DeliveredIsSplit | crates/minsec-core/src/source/file.rs:212-256 | Lines delivered since the file was opened, with the partial line, are the bytes read so far split at newlines. |
| Tailer.FileState.ReadAvailable | crates/minsec-core/src/source/file.rs:212-256 | What is consumed is the next bytes of the file, at most 1 MiB; true only after exactly 1 MiB; false without an error only at the end; the partial line never exceeds the limit. |
| Tailer.FileState.Poll | crates/minsec-core/src/source/file.rs:152-201 | A healthy poll reads to the end of the file or exactly as far as its budget goes, which is when it reports a backlog: an unchanged path from where it stood; a rotated or shortened file is read to its end before the new one is opened at its start, and one that is gone is read to its end and closed; a path first seen is opened at its start or end; every line delivered is accounted for. |
| Tailer.FileState.Follow | crates/minsec-core/src/source/file.rs:152-201 | After growth and at most one rotation a poll goes on following the log, to the end or as far as the budget goes; only a failure at a rotation can stop that. |
| Tailer.FollowLog | crates/minsec-core/src/source/file.rs:152-256 | Over any run of polls on a log with short lines, begun at its start or at its end: every healthy poll reads to the end or as far as its budget goes, and what has come out is every line between the starting point and the place reached, once, in order, over all generations, however reads are cut; failing reads between rotations only delay it. |
| Tailer.StandingLogIsRead | crates/minsec-core/src/source/file.rs:264-271 | A log that stands still is read to its end by healthy polls, 1 MiB at a time. |
| EventReader.ReadBansFrom | crates/minsec-sync/src/events.rs:82-112 | The loop returns the automatic bans of the complete lines behind the offset and the offset after the last of them; an offset past the end reads nothing. |
| EventReader.BansComplete | crates/minsec-sync/src/events.rs:100-110 | The ban of every line that holds an automatic one is read, at its place in the order of the lines. |
| EventReader.BansSound | crates/minsec-sync/src/events.rs:100-110 | Nothing else is read: every ban is that of such a line. |
| EventReader.BansCount | crates/minsec-sync/src/events.rs:100-110 | There are as many bans as such lines. |
| EventReader.ReadNew | crates/minsec-sync/src/events.rs:43-77 | Resumes, finishes the rotated file first, starts over after truncation, or keeps the cursor when there is no log. |
| EventReader.ReadingEdges | crates/minsec-sync/src/events.rs:45-69 | Without a log the cursor stays; a cursor past the end of its file or in a file that is gone starts the current file over. |
| EventReader.ReadInTwo | crates/minsec-sync/src/events.rs:82-112 | Reading up to a line boundary and on from there is reading all at once. |
| EventReader.ReadResumes | crates/minsec-sync/src/events.rs:82-112 | Reading to a returned offset and resuming there after more has been written equals one read. |
| EventReader.ReadIsExact | crates/minsec-sync/src/events.rs:43-77 | From a cursor in the current or the rotated file a read yields exactly the bans still to come and moves to the end of the complete lines. |
| EventReader.FirstReadIsExact | crates/minsec-sync/src/events.rs:43-77 | A first read, or one after a read that found no log, yields everything if there has been no rotation. |
| EventReader.ChainedReadsAreOnePass | crates/minsec-sync/src/events.rs:43-112 | Over any interleaving of appends and at most one rotation between calls, chained reads yield every automatic ban of a complete line exactly once, in order. |
| EventReader.LateReadExactIff | crates/minsec-sync/src/events.rs:54-69 | After two rotations or more, whether or not an inode is used again, a read is exact if and only if the bans in the lines missed or passed over are what it makes of the remainder of the line that it lands in; landing between lines, if and only if no line missed holds an automatic ban. |
| EventReader.TwoRotationsLoseABan | crates/minsec-sync/src/events.rs:54-69 | One ban, two rotations, one read: the ban is not in it. |
| Report.ToReportExact | crates/minsec-sync/src/report.rs:43-80 | A report exists exactly for fresh automatic bans of narrow networks by well-named filters. It satisfies the server's rules; its network has the range of the banned one, or is the one /64 around a narrower one; time, filter, length, hits and escalation are those of the ban, with hits at least 1 and escalation at most 255. |
| Report.ReportsComplete | crates/minsec-sync/src/report.rs:93 | No reportable ban is dropped on the way to the batches. |
| Report.ReportsSound | crates/minsec-sync/src/report.rs:93 | Every report is that of a ban read. |
| Report.ReportsCount | crates/minsec-sync/src/report.rs:93 | There are as many reports as reportable bans. |
| Report.ReadMoves | crates/minsec-sync/src/report.rs:91 | A read from a sound cursor yields exactly the bans between the old place and the new one. |
| Report.SubmittedSound | crates/minsec-sync/src/report.rs:113-115 | The server accepts a batch only under a number larger than all before, records every request, lost ones included, and its answer tells whether it accepted. |
| Report.Server.Submit | crates/minsec-sync/src/report.rs:113-115 | One request with a given fate changes the server exactly so. |
| Report.GrowthKeepsCursor | crates/minsec-sync/src/report.rs:89-132 | However the log grows and rotates, a cursor goes on denoting its place, and the lines before it stay. |
| Report.RetryIff | crates/minsec-sync/src/report.rs:107-121 | A batch is sent under max(next_seq, clock) and retried a day ahead exactly if the server answers that it has seen the number; the retry fails exactly if the server is a day ahead itself. |
| Report.ChunkKeeps | crates/minsec-sync/src/report.rs:107-121 | Every request goes out under a number above all acknowledged and persisted ones, the trace of requests is what the server was asked, and a batch that is done is in the server's hands. |
| Report.SentFromKeeps | crates/minsec-sync/src/report.rs:107-127 | Over all batches attempted, lost and rejected ones included, only the first can be taken for a duplicate; the number persisted is the one after a batch that is done; when all are done, all reports are accepted. |
| Report.BatchesExact | crates/minsec-sync/src/report.rs:107-127 | A run whose batches are all done has every report accepted exactly once, in order, in batches of 1 to 1000. |
| Report.RunKeeps | crates/minsec-sync/src/report.rs:89-132 | A run never loses anything, wherever it is cut short; one that completes settles exactly the bans complete in the log at its start; one that does not leaves the cursor. |
| Report.RunCompletesIff | crates/minsec-sync/src/report.rs:89-132 | When the server answers and the client survives, a run from any state file, a lost or restored one included, completes if and only if it has nothing to report or the server is less than a day ahead of stored number and clock. |
| Report.AtLeastOnceOverRuns | crates/minsec-sync/src/report.rs:89-132 | Over any runs with crashes, lost requests and replies and a daemon at work, none of which finds its cursor in a file already gone: every event before the persisted cursor that was reportable at the time of the run that read it is in an accepted batch, and every number in a request exceeds every number acknowledged and persisted before. |
| Report.Agent.SendChunk | crates/minsec-sync/src/report.rs:107-121 | The method makes exactly the requests of the specification and nothing else. |
| Report.Agent.SubmitAll | crates/minsec-sync/src/report.rs:107-127 | The loop over the batches is the specified one, with the number persisted after each. |
| Report.Agent.Run | crates/minsec-sync/src/report.rs:89-132 | One run turns the world into the specified one, clock, fates, saves and the daemon's writes being inputs. |
| Report.AnyRuns | crates/minsec-sync/src/report.rs:89-132 | The agent ends in exactly the world that the given moves lead to, and that world is safe. |
| Escalation.EscalateLoop | crates/minsec-core/src/engine.rs:308-316 | The saturating loop with its early exit computes max(base, min(max, base * factor^min(count, 32))) for all 64-bit values. |
| Escalation.ScaledIsPower | crates/minsec-core/src/engine.rs:309-310 | The value scaled n times is base times factor to the n. |
| Escalation.EscalatedMonotone | crates/minsec-core/src/engine.rs:308-316 | More earlier bans never shorten a ban, and no ban is longer than the larger of base and max. |
| Escalation.CutIsInvisible | crates/minsec-core/src/engine.rs:309 | With a maximum of at most 2^32 seconds the cut at 32 steps changes nothing. |
| History.RebuiltCounts | crates/minsec-core/src/engine.rs:154-169 | A start counts, for every network, its automatic bans in the log not older than the cutoff, and takes the stamp of the last. |
| History.RebuildTable | crates/minsec-core/src/engine.rs:158-169 | The loop over the log computes that table. |
| History.RebuildingIsFaithful | crates/minsec-core/src/engine.rs:154-169 | Rebuilding gives the same networks and last stamps as the live table, no larger counts, and equal counts for networks without older bans. |
| History.TrimTable | crates/minsec-core/src/engine.rs:429-446 | A table below its cap is left alone; a full one loses its oldest entries down to 31/32 of the cap. |
| Engine.ToKeyCanonical | crates/minsec-core/src/ip.rs:26-35 | The network banned for an address is canonical and contains the address. |
| Engine.ToKeyExact | crates/minsec-core/src/ip.rs:26-35 | It is the one block of 32 bits, or of the configured prefix, that the address lies in. |
| Engine.MirrorBan | crates/minsec-core/src/engine.rs:328-335 | After an accepted ban of a canonical network mirror and kernel agree on it if and only if the 32-bit clock can represent the expiry. |
| Engine.LongBanIsNotMirrored | crates/minsec-core/src/engine.rs:328-335 | A ban of 2^32 seconds: the kernel has it, and for the mirror it is over when it is entered. |
| Engine.MirrorBanIffCanonical | crates/minsec-core/src/engine.rs:354-366 | A manual ban keeps mirror and kernel in agreement if and only if the network has no host bits. |
| Engine.HostBitsSplitMirror | crates/minsec-core/src/engine.rs:354-366 | 203.0.113.7/24, as it may come over the control socket: the mirror has that name, the kernel has 203.0.113.0/24, and neither has the other's. |
| Engine.MirrorOfKernel | crates/minsec-core/src/engine.rs:148-153 | The mirror filled at a start agrees with the kernel in both directions. |
| Engine.NextTtlFits | crates/minsec-core/src/engine.rs:293-317 | If the configured lengths fit the clock, every escalated one does. |
| Engine.GuardedMore | crates/minsec-core/src/engine.rs:246-260 | The overlap check keeps every allowed address out of every network handed to the firewall. |
| Engine.MirrorRetain | crates/minsec-core/src/engine.rs:400 | Expiring entries keeps the agreement; reconciling with a listing makes a covering mirror exact. |
| Engine.Engine.constructor | crates/minsec-core/src/engine.rs:145-182 | The mirror is the kernel's live bans and the history is what the log says. |
| Engine.Engine.RecordHit | crates/minsec-core/src/engine.rs:246-291 | The decision, and the whole new state: nothing for exempt addresses and networks and for networks in the mirror; otherwise the hit is counted, and over the line a ban of the escalated length is in kernel, mirror, history and log, or what the firewall's failure leaves. |
| Engine.Engine.ApplyBan | crates/minsec-core/src/engine.rs:319-352 | The whole new state after an accepted, a half-done and a failed automatic ban. |
| Engine.Engine.ManualBan | crates/minsec-core/src/engine.rs:354-379 | Refused exactly for overlaps with the allow list and for local addresses; otherwise the whole new state for every fate of the call. |
| Engine.Engine.Unban | crates/minsec-core/src/engine.rs:381-394 | The whole new state for a deletion that works, fails, or fails unreported; the hits of the network are forgotten for every filter. |
| Engine.Engine.Tick | crates/minsec-core/src/engine.rs:398-423 | Exactly the unexpired mirror entries and the history entries within the memory stay, less the oldest ones of a full history; idle keys are swept over the longest window. |
| Engine.Engine.List | crates/minsec-core/src/engine.rs:477-494 | The kernel's live bans with remaining lifetimes; the mirror keeps only what the kernel has. |
| Engine.Engine.HandleLine | crates/minsec-core/src/engine.rs:228-244 | One line is the run of its hits followed by housekeeping exactly if the last one is a minute old; the decisions are those of the hits that are not ignored. |
| Engine.StepAgreesIff | crates/minsec-core/src/engine.rs:246-394 | One command keeps mirror and kernel together, with equal expiries, if and only if it is clean: an automatic ban that is accepted has a length that the clock can represent; a manual one fails, or is canonical and representable, or loses an element that the mirror did not have; a ban lifted is canonical or of no consequence. Automatic bans may fail in any way. |
| Engine.AgreementOverRuns | crates/minsec-core/src/engine.rs:145-394 | After every command of every run of clean steps, restarts included, the live bans of mirror and kernel are the same with equal expiries. |
| Engine.AgreementOverRunsIff | crates/minsec-core/src/engine.rs:145-394 | Mirror and kernel agree after every command of a run if and only if every step of it is clean. |
| Engine.PlainlyClean | crates/minsec-core/src/engine.rs:246-394 | Whatever the state, steps are clean when the configured lengths fit the clock and manual commands are canonical, representable and not half done. |
| Engine.OverTheLineIsBanned | crates/minsec-core/src/engine.rs:274-351 | A hit over the line on a network neither exempt nor banned puts a ban into the kernel that covers the source, for at least the configured time and at most the larger of that and the escalation limit. |
| Engine.HitAsksIff | crates/minsec-core/src/engine.rs:246-291 | A hit hands its network to the firewall exactly if the address is not local, no allowed network shares an address with its network, the mirror has no live ban of it, and at least maxretry hits are within the findtime; the decision says so. |
| Engine.AutoBanLength | crates/minsec-core/src/engine.rs:293-351 | The length of an automatic ban, in the kernel and in the log: the configured one, or, within the memory of the last ban, that times factor^min(count, 32), at least the configured length and at most the larger of that and the maximum. |
| Engine.ManualBanExact | crates/minsec-core/src/engine.rs:354-379 | A manual ban is refused exactly for networks that share an address with an allowed one or have a local address; otherwise it is handed over and, if that works, is in kernel and log for the time asked for. |
| Engine.LiftForgets | crates/minsec-core/src/engine.rs:381-394 | An unbanned network starts afresh with every filter; no other key and no other network is touched. |
| Engine.TickExact | crates/minsec-core/src/engine.rs:398-423 | Exactly the mirror entries that have not ended stay, and every history entry within the memory that is not trimmed. |
| Engine.ShowExact | crates/minsec-core/src/engine.rs:477-494 | Exactly the mirror entries whose bans the kernel has stay; the listing tells the time left of every live ban. |
| Engine.StartExact | crates/minsec-core/src/engine.rs:145-182 | A start takes over kernel and log, mirrors every live ban, and begins without hits and with housekeeping due. |
| Engine.MirrorUntilExact | crates/minsec-core/src/engine.rs:332 | The mirror ends an entry after the low 32 bits of the length, at the latest in the last 32-bit second. |
| Engine.LocalIsLeftAlone | crates/minsec-core/src/engine.rs:188-190 | In every run a hit from 127.0.0.0/8, 0.0.0.0, ::1 or :: changes nothing, and neither does a manual ban of a network with such an address. |
| Engine.NoBanWhileLive | crates/minsec-core/src/engine.rs:263-272 | In such a run a hit on a network that the kernel still bans changes nothing; no ban is issued. |
| Engine.GuardOverRuns | crates/minsec-core/src/engine.rs:246-379 | In every run whatsoever no network handed to the firewall contains an address of an allowed network. |
| Engine.HistoryOverRuns | crates/minsec-core/src/engine.rs:154-169 | In every run the history agrees with the event log on last bans, and bounds its counts, for networks never trimmed. |
| Engine.RestartRebuildsHistory | crates/minsec-core/src/engine.rs:154-169 | In any run, after housekeeping, a restart at the same time rebuilds the history: same networks and stamps, no larger counts, equal ones for networks without older bans. |
| Engine.Serve | crates/minsec-core/src/engine.rs:145-394 | Carrying out any script on a firewall that behaves as the script says is a run of the specified steps from the start state to the engine's state. |
| Firewall.MaskedLookup | crates/minsec-core/src/backend/nft.rs:177-185 | The masked source equals the stored key if and only if the source lies in the network. |
| Firewall.BanLookup | crates/minsec-core/src/backend/nft.rs:221-228 | The set and key chosen for a ban are found by the rule of that set exactly for the sources in the network. |
| Firewall.CrowdLookup | crates/minsec-core/src/backend/nft.rs:231-238 | The same for crowd entries. |
| Firewall.PurposeFinds | crates/minsec-core/src/backend/nft.rs:206-217 | The rules of the allow, ban or crowd sets together find exactly the members of their networks. |
| Firewall.ListingInvertsPlacement | crates/minsec-core/src/backend/nft.rs:357-414 | A listing gives every canonical network back from its element and reports no corruption. |
| Firewall.PlaceInjective | crates/minsec-core/src/backend/nft.rs:221-238 | Distinct canonical networks have distinct elements. |
| Firewall.PlaceForgetsHostBits | crates/minsec-core/src/backend/nft.rs:221-228 | A network and its canonical form share one element. |
| Firewall.CorruptIffNoNet | crates/minsec-core/src/backend/nft.rs:394-401 | A listed range is reported as corrupt if and only if no network spans it; it is then taken for its start address. |
| Firewall.Group | crates/minsec-core/src/backend/nft.rs:244-260 | Every element comes out once and exactly the elements of the entries come out; each has a timeout exactly if the first entry it stands for expires, namely the time left, at least a second. |
| Firewall.GroupsKeepMeaning | crates/minsec-core/src/backend/nft.rs:244-260 | Looking a source up in the groups answers whether it lies in one of the entries. |
| Firewall.RekeyBan6 | crates/minsec-core/src/backend/nft.rs:306-331 | The new keys are exactly the truncations of the old ones; keys on the boundary keep their lifetimes, and a network moved to has a timeout exactly if the first key moved there expires, namely the time left, at least a second; aligned keys make it a no-op. |
| Firewall.RekeyingKeepsCoverage | crates/minsec-core/src/backend/nft.rs:302-331 | All keys are aligned, a second run changes nothing, and no address loses its ban. |
| Firewall.RekeyedRuleFinds | crates/minsec-core/src/backend/nft.rs:302-331 | After re-keying the masked rule drops exactly the sources that share a network of the new prefix with an old key, among them all that it dropped before. |
| Firewall.ChainsDecideByMembership | crates/minsec-core/src/backend/nft.rs:196-219 | A source is dropped if and only if it lies in no allowed network and in a banned or a listed one; a ban rule drops it exactly if a banned network holds it. |
| CrowdPull.ElementsMeanSnapshot | crates/minsec-sync/src/nft.rs:67-75 | Elements in agreement with a snapshot find exactly the sources in its valid entries. |
| CrowdPull.Sync.Parse | crates/minsec-sync/src/pull.rs:143-154 | Exactly the networks of the valid lines, one for each, and the number of the others. |
| CrowdPull.ParseEntry | crates/minsec-sync/src/nft.rs:77-88 | Given what the text of a line reads as, an address, an address with a prefix length, or neither: it yields a network exactly if it is a way of writing it and the family is right. |
| CrowdPull.DeltaExactIff | crates/minsec-sync/src/nft.rs:152-163 | Removals, some of which may stick, then additions turn the elements of one snapshot into those of another if and only if no removal takes along an element that stays and none sticks in vain. |
| CrowdPull.SpellingsBreakDelta | crates/minsec-sync/src/nft.rs:77-82 | Two spellings of 203.0.113.7 listed, one withdrawn: the delta leaves the set empty. |
| CrowdPull.OneSpellingFits | crates/minsec-sync/src/nft.rs:67-75 | With one spelling for each network, and canonical networks, every delta is right. |
| CrowdPull.InterruptedDelta | crates/minsec-sync/src/pull.rs:69-80 | After removals without their additions, the next delta from the old snapshot gives the right elements if and only if everything removed that is wanted again is among its additions. |
| CrowdPull.InterruptedDeltaLoses | crates/minsec-sync/src/pull.rs:69-80 | An address withdrawn in an interrupted delta comes back before the next one: that delta is empty, and so is the set. |
| CrowdPull.Sync.Replace | crates/minsec-sync/src/nft.rs:139-146 | All or nothing; afterwards exactly the given networks, each with a fresh timeout, or the damage that the check reports. |
| CrowdPull.Sync.Patch | crates/minsec-sync/src/nft.rs:152-163 | Exactly the removals that do not stick and, unless refused, the additions; elements already there keep their timeouts. |
| CrowdPull.TransactionsExact | crates/minsec-sync/src/nft.rs:139-163 | Element by element: what was there and stays keeps its expiry, what is new gets a day; after a replace exactly the listing, a day each. |
| CrowdPull.Sync.FetchFull | crates/minsec-sync/src/pull.rs:111-141 | The full fetch is the specified one for every reply and every behaviour of the kernel. |
| CrowdPull.Sync.PullFamily | crates/minsec-sync/src/pull.rs:35-107 | Which reply leads to which action, cursor and sets, for every age of the cursor and every behaviour of the kernel. |
| CrowdPull.AnsweredPullSucceeds | crates/minsec-sync/src/pull.rs:35-141 | A pull succeeds when the requests it makes get usable replies and the kernel accepts a replacement; it replaces everything once the last replace is 12 hours old. |
| CrowdPull.FailedPullLeaves | crates/minsec-sync/src/pull.rs:35-141 | A failed pull leaves cursor and sets as they were unless it had begun a delta or a replacement was damaged. |
| CrowdPull.BadReplyFails | crates/minsec-sync/src/pull.rs:60-71 | A reply that is broken or for another family fails the pull and changes nothing, and so does an unchanged answer to an unconditional request. |
| CrowdPull.CursorRecords | crates/minsec-sync/src/pull.rs:88-105 | A full listing is recorded with its tag and number and a time within the pull, a delta with its tag and number and the old time, anything else not at all. |
| CrowdPull.UnchangedWithinRefresh | crates/minsec-sync/src/pull.rs:54-60 | For twelve hours after a full replace, and not longer, a pull asks by tag and number, and an unchanged answer leaves the client alone. |
| CrowdPull.StandingFeedIsLeftAlone | crates/minsec-sync/src/pull.rs:54-66 | While a feed stands still, the pulls within twelve hours of a full replace are unchanged ones and touch nothing. |
| CrowdPull.ReplaceRestores | crates/minsec-sync/src/pull.rs:111-165 | From any set contents and any cursor a full replace makes the sets the server's current snapshot. |
| CrowdPull.DeltaKeepsIff | crates/minsec-sync/src/pull.rs:65-80 | A delta keeps the sets equal to the snapshot, and its elements alive until the next pull, if and only if it fits. |
| CrowdPull.PullsStayInStep | crates/minsec-sync/src/pull.rs:35-141 | Any run of pulls, whatever happened up to a full replace: from then on, while failed pulls leave the client as it was, successful ones are in time after the last successful one and deltas fit, the sets are exactly the snapshot current at the last successful pull, and no element reaches its timeout within the time the next one has to write. |
| CrowdPull.PullsFromFirst | crates/minsec-sync/src/pull.rs:48-58 | Corollary: that holds from a first pull on that is answered, whatever the sets held before. |
| CrowdPull.DrainsWhenPullsStop | crates/minsec-sync/src/nft.rs:36-50 | Whatever any run of pulls did and whatever the server said, a day after the last one wrote every element has expired. |
| CrowdPull.AnyPulls | crates/minsec-sync/src/pull.rs:35-141 | Carrying out any rounds leads to exactly the specified cursor, sets and actions. |

## Left out

- HTTP, TLS, signatures, hashing and base64: the server is a state machine that accepts strictly larger numbers, or a function from requests to replies.
- JSON, UTF-8 decoding and address syntax: an event line is decoded by an arbitrary function, a feed line is a network or garbage.
- Regular expressions, routing of lines to filters, journald, inotify, the control socket and the command line.
- Tailer.FollowLog: no claim for a path seen missing and created again, which is reopened at its end, for a file truncated in place between polls, for two rotations between polls, or after a read or an opening that failed at the first poll or at a rotation. Each poll is atomic, and the log has not been rotated before the first one.
- Tailer.FileState.ReadAvailable: lines are bytes, without the lossy decoding into text; read errors are reported to the caller here and logged in the program.
- Globs, the set of followed paths and permission warnings.
- Report.Agent.Run: the counters of the outcome and the agent version are left out; the branch for an empty report list is the case of zero batches.
- Report.Agent.SubmitAll: one client per key. Numbers and stamps are unbounded, so a sequence number near 2^64 does not overflow.
- Report.Server.Submit: rate limits, enrolment and per-report rejections by the server are left out.
- Report.AtLeastOnceOverRuns: no run finds its cursor in a file already gone, that is, the log is rotated at most once after the read that the persisted cursor comes from and before the next read; `LateReadExactIff` says what more rotations do. A run reads the two log files in one moment.
- Tracker.Tracker.Hit: a filter keeps its findtime and maxretry, with maxretry in 1..32 as the configuration check demands. Windows are stored in the map as values and loaded into a `Window` object for the in-place work, so writing through a reference into the map is not captured. Shrinking the map's storage is left out.
- Engine.Serve: the clock stays below 2^32 - 1, backends without a listing (`exec`, none) are left out, and so are failing listings, which stop a start or a listing with an error.
- Engine.Engine.List: the filter names beside the bans are left out, and so is the rebuilding of corrupt sets on the way.
- Engine.RestartRebuildsHistory: memory below 2^32 seconds, no lost log events, and no claim for networks that were trimmed from the history.
- Engine.Engine.HandleLine: line and match counters are left out.
- The engine's backend is keyed by canonical network; `PlaceInjective`, `PlaceForgetsHostBits` and `ListingInvertsPlacement` say why that is the same as the elements of the sets.
- Rebuilding of sets with a stale definition and the text of nft scripts: transactions are atomic updates. That the kernel refuses overlapping intervals appears as a transaction that fails.
- Firewall.ChainsDecideByMembership: expired elements are gone from the kernel's sets; counters on rules are left out.
- CrowdPull.PullsStayInStep: one tier and one family, a server that honours the snapshot number asked for, and cursors that are saved; a crash between applying a feed and saving its cursor is a failed pull that changed the client. Successful pulls begin at most `period` apart and each lasts at most `lag`, with `period + 2 * lag` at most 12 hours.
- CrowdPull.ParseEntry: what a text reads as is given with the line; address syntax itself is the standard library's.
- CrowdPull.Sync.Patch: damage to a set that the check does not notice, because it happens to be a range of some network, is left out; `IsCidrExact` says what the check notices.
- Sub-second parts of expiry times.
