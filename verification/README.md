# Diablo, modelled and proved in Dafny

Diablo is a benchmark suite for blockchains.  A primary turns a benchmark description
into timed interactions, spreads them over secondaries, and collects their outcomes;
each blockchain has a package that submits transactions and confirms them.  This project
models the parts of Diablo whose correctness is not visible in one function: the
schedule and its merges, the protocol between primary and secondary, the concurrent
state machines of the blockchain packages, and the arithmetic of rates, windows, quorums
and the ride-matching contracts.

`dafny verify dfyconfig.toml` checks everything.

| module | models | main results |
|---|---|---|
| `Schedule` | the timed load of a behaviour | the k-th send leaves at the first instant at which the integral of the load is k |
| `Merge`, `Benchmark` | the k-way merge and the nested generators | every level produces the stable sort by time of all its streams, and each interaction leaves at the instants of its own load and no others |
| `CommandCache`, `CommandCacheRuns` | the command cache of HotStuff replicas | no lost wakeup, first-in first-out history and freshness in every interleaving |
| `Wire`, `WireStreams` | the messages as bytes | self-delimiting round trips, up to the widths of the fields |
| `Outcomes`, `Protocol`, `Conservation`, `Nodes` | planning, preparing, reporting, collecting | end-to-end conservation of interactions and their outcomes, exactly when no client beyond the first 256 is addressed |
| `Triggering` | the order in which a secondary triggers | independent of the decoding order exactly when no two different interactions have the same time |
| `Confirmer`, `ConfirmerRuns` | the block-polling confirmer of Algorand | at most one outcome per interaction, for the right reason, in every interleaving; the exact chains on which it can block for ever |
| `Workload`, `DiemWorkload` | controller and worker of Diem | queue slot k holds the transaction with sequence number k |
| `DiemSlots` | the lock-free slots of a Diem worker | valid slots and monotone commits in every interleaving of atomic steps |
| `Sampling` | the uniform distribution | sampling without replacement, for all random numbers |
| `Redundant` | the redundancy wrapper | one submit, at most one unanimous outcome, in that order |
| `Uber` | integer square roots and nearest driver | the exact results and the exact inputs that abort |
| `Ramp` | the linear ramp of the parser | the expansion is the rounded line, is idempotent and keeps the total |
| `Quorum` | node pruning of the HotStuff client | quorums stay sound and reachable after any sequence of failures |
| `Throughput` | the event log and its report | the sliding window equals a direct count |
| `Basics`, `Permutations` | options, lists of lists, sorting a set, rearrangements | |

How the model reads the code:

- A mutex-protected section is one atomic step; an atomic load, add or compare-and-swap
  is one step.  Interleavings are arbitrary sequences of such steps, and a step that is
  not enabled does nothing.
- A channel that one goroutine writes and another drains in order is the sequence of its
  values.
- Random numbers, answers of the network and of foreign code, the order in which a map is
  visited and the order in which goroutines finish are parameters or arbitrary choices;
  every statement holds for all of them.
- `float64` rates, times and throughputs are reals; a `float64` inside a message is its
  eight bytes.  Integers are unbounded, and every conversion to a narrower type that the
  modelled code makes is written out.
- An object that the source updates in place is a class, and each of its methods is proved
  equal to a function on values; the properties of runs are proved of these functions.

Five promises turn out to hold only under a condition, and the exact condition is proved:

- An interaction carries its client index in four bytes but the secondary reads one of
  them (`core/encoding.go:415`), so a plan is conserved if and only if it addresses no
  client beyond the first 256 (`Conservation.EndToEnd`); the primary accepts plans that do
  (`Conservation.WideClientAccepted`).
- The command cache compares its length after a conversion to 32 bits: no wakeup is lost
  in the runs whose cache stays within a limit if and only if batches are not empty and
  the limit is below 2^32 (`CommandCacheRuns.NoLostWakeup`).
- The block-polling confirmer commits early while it holds its lock and then waits for
  ever.  A registration does this if and only if its uid was reported before
  (`ConfirmerRuns.StuckExactly`), and some run does if and only if some round after the
  first carries a transaction (`ConfirmerRuns.BlocksExactly`).
- The Move square root is right if and only if n is 0 or n + 1 is not a square
  (`Uber.MoveRootExactly`); before a square above 1 it is one too many
  (`Uber.MoveRootWrong`).
- The HotStuff client can get as many replies as it waits for if and only if its view has
  more different addresses than it tolerates faults, or a configuration was rebuilt
  (`Quorum.AnswerableRun`); the replies are trustworthy if and only if the faulty nodes
  left are within the tolerance of the configuration (`Quorum.SoundExactly`), which always
  holds when only faulty nodes are pruned (`Quorum.QuorumsSurvivePruning`) and need not
  when correct ones are (`Quorum.CorrectNodesPruned`).

## Model

| member | source | states |
|---|---|---|
| `Schedule.Flatten` | core/benchmark.go:664-711 | For every load with non-negative keys and rates, the k-th send time is the first instant at which the integral of the step load reaches k; times strictly increase, and there are as many as the floor of the whole integral |
| `Schedule.PacedUnique` | core/benchmark.go:664-711 | A load has at most one such schedule, so the property determines every send time |
| `Schedule.Segment` | core/benchmark.go:682-703 | Between two keys the sends continue the schedule and the fraction of a send that is due is carried to the next rate; the loop ends |
| `Schedule.Walk` | core/benchmark.go:677-708 | Over all keys in order, what was sent and the carried fraction add up to the integral so far |
| `Schedule.SortKeys` | core/benchmark.go:669-675 | The keys in increasing order, whatever order the map gives them in |
| `Schedule.EmissionIsFirst` | core/benchmark.go:685-697 | Waiting the computed time and then sending is sending at the first instant of the next unit of work |
| `Schedule.IdleSegment` | core/benchmark.go:680-707 | A segment of rate 0 sends nothing and keeps the carried fraction |
| `Schedule.WorkMonotone` | core/benchmark.go:664-711 | The integral of a load never decreases with time |
| `Merge.Fuse` | core/benchmark.go:347-387 | Merging non-empty lists of time-ordered streams gives the stable sort by time of the streams laid end to end: nothing lost, nothing doubled, ties to the lowest stream |
| `Merge.FindMinimum` | core/benchmark.go:359-375 | The scan finds the lowest stream with the earliest head, or that all are drained |
| `Merge.TakeFirsts` | core/benchmark.go:352-356 | Taking one value off each stream changes nothing about what is still to be sent |
| `Merge.StableSortSorts` | core/benchmark.go:347-387 | The reference sorts by time and keeps the elements of each time in their order |
| `Merge.StableSortUnique` | core/benchmark.go:347-387 | Only one sequence is ordered and agrees with the input at every time |
| `Merge.TakeMinimum` | core/benchmark.go:377-384 | Taking the head off the first minimal stream takes the first element of its time off the whole |
| `Merge.NestedMerge` | core/benchmark.go:436-451 | Merging group by group and then merging the groups is one stable sort of everything |
| `Benchmark.GenerateTimeload` | core/benchmark.go:656-662 | A behaviour is sent, and nothing else, at the instants of the paced schedule of its load, in order of time |
| `Benchmark.GenerateClient` | core/benchmark.go:566-581 | A client gives the stable sort of its behaviours in configuration order |
| `Benchmark.GenerateWorkload` | core/benchmark.go:436-451 | A workload gives the stable sort of the behaviours of all its clients |
| `Benchmark.GenerateBenchmark` | core/benchmark.go:259-274 | The benchmark gives the stable sort of all leaf streams in configuration order, across three levels of merges; ordered by time, with each behaviour at an instant as often as it is configured if the integral of its load first reaches a whole number there, and never otherwise |
| `Benchmark.PacedSends` | core/benchmark.go:664-711 | A schedule has an instant if and only if the integral of the load first reaches a whole number there |
| `Benchmark.FlattenWorkloads` | core/benchmark.go:259-274 | The streams of the workloads laid end to end are the leaf streams in configuration order |
| `Benchmark.ClientSeesItsOwn` | core/benchmark.go:276-309 | Sorting everything and then keeping one client is keeping that client and then sorting |
| `Benchmark.OwnStreams` | core/benchmark.go:276-309 | What one client sees of the leaf streams are the streams of its own behaviours |
| `Benchmark.ClientSchedule` | core/benchmark.go:259-309 | What one client sees of the schedule of the whole benchmark is the stable sort of its own streams alone: other clients do not move it |
| `CommandCache.Cache.constructor` | blockchains/nhotstuff/clientpb/cmdcache.go:18-25 | An empty cache with no record and no signal |
| `CommandCache.Cache.Add` | blockchains/nhotstuff/clientpb/cmdcache.go:28-39 | Refuses a duplicate, otherwise appends, and signals when the length test passes |
| `CommandCache.Cache.SignalReady` | blockchains/nhotstuff/clientpb/cmdcache.go:88-94 | The one-slot channel holds the token afterwards, whether or not it did before |
| `CommandCache.Cache.TryExtractBatch` | blockchains/nhotstuff/clientpb/cmdcache.go:100-120 | Takes the fresh commands of the examined part and removes that part, or leaves the cache as it was |
| `CommandCache.Cache.GetCheck` | blockchains/nhotstuff/clientpb/cmdcache.go:45-77 | The locked part of Get: a batch and a renewed signal, or nothing |
| `CommandCache.Cache.Proposed` | blockchains/nhotstuff/clientpb/cmdcache.go:139-150 | Raises the record of each client to the numbers of the batch |
| `CommandCache.ExaminedUnique` | blockchains/nhotstuff/clientpb/cmdcache.go:100-120 | The examined part is determined: the shortest prefix with a full batch of fresh commands |
| `CommandCache.ExaminedCountExamines` | blockchains/nhotstuff/clientpb/cmdcache.go:104-113 | The extraction loop examines exactly that part |
| `CommandCacheRuns.AwakeStep` | blockchains/nhotstuff/clientpb/cmdcache.go:28-94 | Every step keeps: a full batch of fresh commands is signalled, or a Get is about to look at it |
| `CommandCacheRuns.AwakeRun` | blockchains/nhotstuff/clientpb/cmdcache.go:28-94 | That holds after every interleaving in which the cache stays below 2^32 commands, for non-empty batches |
| `CommandCacheRuns.NoLostWakeup` | blockchains/nhotstuff/clientpb/cmdcache.go:45-94 | For every batch size below 2^32 and every limit: no wakeup is lost in any interleaving whose cache stays within the limit, if and only if batches are not empty and the limit is below 2^32 |
| `CommandCacheRuns.WrapLosesWakeup` | blockchains/nhotstuff/clientpb/cmdcache.go:81-83 | For every batch size from 1 to 2^32 - 1, some run whose cache never exceeds 2^32 commands loses the wakeup |
| `CommandCacheRuns.GetsConserved` | blockchains/nhotstuff/clientpb/cmdcache.go:45-77 | In every run, the Gets that were started are those that wait, those about to look, those given up and those that returned a batch: a Get whose check fails waits again |
| `CommandCacheRuns.TokensConserved` | blockchains/nhotstuff/clientpb/cmdcache.go:45-94 | In every run, every signal is still there or was taken by one Get, and every Get that took one has looked or is about to |
| `CommandCacheRuns.SignalExactly` | blockchains/nhotstuff/clientpb/cmdcache.go:28-94 | The signal is set by exactly those steps that accept or extract and leave a cache whose length passes the test, and removed only by the Get that takes it |
| `CommandCacheRuns.AddExactly` | blockchains/nhotstuff/clientpb/cmdcache.go:28-39 | In every run a command is accepted if and only if its number is above all that were proposed of its client |
| `CommandCacheRuns.FreshImpliesFull` | blockchains/nhotstuff/clientpb/cmdcache.go:81-83 | A full batch of fresh commands passes the length test while the length fits 32 bits |
| `CommandCacheRuns.CheckExtracts` | blockchains/nhotstuff/clientpb/cmdcache.go:45-120 | A successful extraction splits the cache into what it examined and what stays; its batch is full and is the fresh part of what it examined |
| `CommandCacheRuns.CheckExactly` | blockchains/nhotstuff/clientpb/cmdcache.go:56-76 | A Get extracts if and only if the length modulo 2^32 reaches the batch size and the cache has a full batch of fresh commands; otherwise it changes nothing |
| `CommandCacheRuns.HistoryRun` | blockchains/nhotstuff/clientpb/cmdcache.go:28-120 | In every run the accepted commands are the examined ones, in order, followed by the cache; every batch is full, and is what was fresh when examined |
| `CommandCacheRuns.RecordsAfterProposed` | blockchains/nhotstuff/clientpb/cmdcache.go:139-150 | The record of each client is the running maximum of the numbers proposed |
| `CommandCacheRuns.FreshnessRun` | blockchains/nhotstuff/clientpb/cmdcache.go:100-150 | When each batch is proposed before the next Get, a later batch has only greater numbers of each client, and the records are running maxima |
| `Wire.NumbersRoundTrip` | core/encoding.go:444-502 | Numbers come back modulo the width of their field |
| `Wire.LittleEndian` | core/encoding.go:444-502 | Numbers are written with the least significant byte first |
| `Wire.StringsRoundTrip` | core/encoding.go:301-393 | A list of strings of up to 255 bytes each comes back, and the bytes after it are left |
| `Wire.PrepareRoundTrip` | core/encoding.go:255-502 | Whatever a prepare encoder accepts is decoded up to the widths, and the bytes after it are left; an interaction index comes back modulo 256 |
| `Wire.PrepareReceivedAsSent` | core/encoding.go:255-502 | Decoding gives back the very message that was encoded if and only if its numbers fit, the client of an interaction in one byte |
| `Wire.ClientLayout` | core/encoding.go:342-393 | The position of every field of a client message |
| `Wire.InteractionLayout` | core/encoding.go:444-502 | The position of every field of an interaction message |
| `Wire.PrepareStreamRoundTrip` | core/encoding.go:255-502 | The prepare stream is self-delimiting: any sequence of messages, followed by any bytes, is decoded one by one and leaves those bytes |
| `Wire.ResultRoundTrip` | core/encoding.go:537-691 | The same for a result message |
| `Wire.ResultLayout` | core/encoding.go:633-691 | The position of every field of a result message |
| `Wire.ResultStreamRoundTrip` | core/encoding.go:537-691 | The result stream is self-delimiting |
| `Wire.ParametersRoundTrip` | core/encoding.go:18-163 | The parameters of the primary come back, whatever the order in which the map is visited |
| `Wire.ParametersLayout` | core/encoding.go:87-163 | The position of every field of the parameters of the primary |
| `WireStreams.Reader.ReadClient` | core/encoding.go:301-340 | Reads what the format says, byte for byte, or fails where the format does |
| `WireStreams.Reader.ReadInteraction` | core/encoding.go:403-442 | Reads what the format says, keeping one byte of the index |
| `WireStreams.Reader.ReadPrepare` | core/encoding.go:255-275 | Dispatches on the type byte; an unknown type or a short stream is an error |
| `WireStreams.Reader.ReadResultInteraction` | core/encoding.go:588-631 | Reads what the format says, or fails |
| `WireStreams.Reader.ReadResult` | core/encoding.go:537-555 | Dispatches on the type byte; an unknown type or a short stream is an error |
| `WireStreams.Reader.ReadParameters` | core/encoding.go:18-85 | Reads the fixed fields and the map entries, the last entry of a repeated key winning |
| `WireStreams.Writer.WriteClient` | core/encoding.go:342-393 | Writes the message, or refuses a long view or address and writes nothing |
| `WireStreams.Writer.WritePrepare` | core/encoding.go:285-502 | Writes exactly the bytes of the message, or refuses it and writes nothing |
| `WireStreams.Writer.WriteResult` | core/encoding.go:565-691 | Writes exactly the bytes of the message, or refuses it and writes nothing |
| `WireStreams.Writer.WriteEntries` | core/encoding.go:133-150 | Writes every entry of a map once, in an arbitrary order |
| `WireStreams.Writer.WriteParameters` | core/encoding.go:87-163 | Writes the parameters in some order of the map, or refuses them and writes nothing |
| `Nodes.RemoteSecondary.CreateClient` | core/nprimary.go:276-295 | Numbers the client, sends its message and keeps it; a refused message leaves the primary as it was |
| `Nodes.RemoteSecondary.SendInteraction` | core/nprimary.go:414-439 | Interns the kind, counts the time and sends the interaction; a refused message still does the first two |
| `Nodes.RemoteSecondary.End` | core/nprimary.go:369-384 | The longest time that was given to any client, 0 without any |
| `Nodes.RemoteSecondary.Collect` | core/nprimary.go:311-367 | Reads results until the last, checking index and kind, and files each under its client and kind |
| `Nodes.ResultBuilder.GetClientResult` | core/result.go:52-68 | The entry of a client, created once at the end of the list |
| `Nodes.ResultBuilder.Add` | core/result.go:70-80 | Adds the interaction to the entry of its client and to no other |
| `Nodes.RuntimeNode.Prepare` | core/nsecondary.go:226-350 | Prepares every client and, in any completion order, every interaction read before the end of the stream; fails if and only if the stream does, an interaction names an unknown client, or the blockchain package refuses a client or a payload |
| `Nodes.RuntimeNode.FinishJobs` | core/nsecondary.go:286-299 | The decoding jobs finish in any order and none is lost |
| `Nodes.RuntimeNode.Sort` | core/nsecondary.go:119-122 | Keeps the interactions, orders them by time, and keeps the order of those with the same time |
| `Nodes.RuntimeNode.ReportSubmit` | core/nsecondary.go:486-512 | Sets the submit time of one interaction unless it has one, and nothing else |
| `Nodes.RuntimeNode.ReportCommit` | core/nsecondary.go:514-527 | Sets the commit time of one interaction unless it has one, and nothing else |
| `Nodes.RuntimeNode.ReportAbort` | core/nsecondary.go:529-542 | Sets the abort time of one interaction unless it has one, and nothing else |
| `Nodes.RuntimeNode.Stop` | core/nsecondary.go:165-219 | Writes the result of every interaction, in order, then the end; fails if and only if some result cannot be encoded |
| `Outcomes.OutcomeBy` | core/nsecondary.go:165-212 | Whatever is reported, however often and in whatever order, each time of the outcome is that of the first report of its own sort, or -1 without one, and it has an error if and only if the trigger last ended in one |
| `Outcomes.DescribesUnique` | core/nsecondary.go:165-212 | The reports of an interaction determine its outcome |
| `Outcomes.NeverIsMinusOne` | core/nsecondary.go:182-201 | The bytes sent for a time that was never reported are those of -1 |
| `Protocol.ResultDescribes` | core/nsecondary.go:174-212 | A result names the client and the kind of its interaction, and its times and error are those of the reports |
| `Triggering.SortJobs` | core/nsecondary.go:119-122 | Sorting by insertion gives the only order by time that keeps the order of equal times |
| `Triggering.SameTriggered` | core/nsecondary.go:286-299 | Without ties the trigger order is the same for every order in which decoding finishes |
| `Triggering.DecodingOrderHidden` | core/nsecondary.go:286-299 | It is the same for every decoding order if and only if no two different interactions, by client, kind, time or payload, have the same time |
| `Triggering.TriggeredAsSent` | core/nsecondary.go:112-122 | Interactions sent in strictly increasing time are triggered in the order of sending, whatever the decoding order |
| `Conservation.PlanIsPlanned` | core/nprimary.go:276-295 | For every accepted sequence of operations, the clients are kept and announced in order, each with its kind, view and number, and the messages carry the clients, kinds, times and payloads of the interactions, in order |
| `Conservation.AcceptedExactly` | core/encoding.go:342-502 | After an accepted plan, one more operation is accepted if and only if it keeps the limits: 65535 addresses of 255 bytes and 2^32 clients; a client that was created, 256 different kinds on it and 65535 bytes of payload |
| `Conservation.InternKeeps` | core/nprimary.go:422-427 | Interning gives a kind a number that means that kind for ever |
| `Conservation.PrepareFromBytes` | core/nsecondary.go:226-285 | Reading the bytes of a plan is handling its messages as received |
| `Conservation.SecondaryPrepares` | core/nsecondary.go:306-350 | The secondary prepares every plan, with all its clients and their views, and with the kind, time and payload of each interaction and its client modulo 256 |
| `Conservation.PreparedAsSent` | core/nsecondary.go:328-350 | The secondary has every interaction with the client, kind, time and payload it was sent with, in order, if and only if no client beyond the first 256 is addressed |
| `Conservation.CollectFromBytes` | core/nprimary.go:311-367 | Collecting succeeds if and only if every result is in range, and then lists for each client the kinds and outcomes reported for it, in order |
| `Conservation.IsConserved` | core/nprimary.go:311-367 | Results of a permutation of the planned interactions are collected completely |
| `Conservation.NotConserved` | core/encoding.go:415 | When a client beyond the first 256 was addressed, no results can make the plan conserved |
| `Conservation.ReportsExist` | core/nsecondary.go:286-299 | However the interactions were reordered, what was reported of each can be told in the order of sending |
| `Conservation.EndToEnd` | core/nsecondary.go:165-350 | For every accepted interleaving of operations, whatever is reported of each interaction and in whatever order they are decoded and triggered: all results are accepted, and the collected result lists each client once under the kind it was created with, and for each exactly the multiset of kinds sent to it, each with the outcome of its own reports, if and only if no client beyond the first 256 is addressed |
| `Conservation.WideClientAccepted` | core/nprimary.go:276-295 | The primary does accept a plan that addresses the 257th client |
| `Confirmer.Book.Confirm` | blockchains/nalgorand/client.go:232-266 | Refuses after the flush, commits early a uid that was reported, and otherwise waits |
| `Confirmer.Book.ReportTransactions` | blockchains/nalgorand/client.go:285-321 | Takes the waiting uids off the book and remembers the others; after the flush it remembers all |
| `Confirmer.Book.FlushPendings` | blockchains/nalgorand/client.go:323-350 | Takes every waiting uid off the book, each once, and closes it; a second flush finds none |
| `Confirmer.ReportMoves` | blockchains/nalgorand/client.go:285-306 | On distinct uids, exactly the waiting ones are matched and exactly the others are remembered |
| `ConfirmerRuns.InvariantRun` | blockchains/nalgorand/client.go:232-402 | In every interleaving, before the flush: pendings are registered minus reported, committed are reported minus registered, and the uids reported are those of each round from the first up to a cursor, once and in order; outcomes are complete before and after it |
| `ConfirmerRuns.PolledStep` | blockchains/nalgorand/client.go:352-402 | Every step of the poller keeps the cursor and the uids collected so far in line with the chain |
| `ConfirmerRuns.ReportStep` | blockchains/nalgorand/client.go:285-321 | A report keeps the tables and the outcomes consistent |
| `ConfirmerRuns.AtMostOneOutcome` | blockchains/nalgorand/client.go:232-350 | In every run an interaction is committed at most once, aborted at most once, and never both |
| `ConfirmerRuns.CommitsExactly` | blockchains/nalgorand/client.go:232-321 | In every run a commit is reported or about to be if and only if the interaction was admitted and its uid is in a round that was polled |
| `ConfirmerRuns.AbortsExactly` | blockchains/nalgorand/client.go:323-350 | In every run an abort is reported or about to be if and only if the poller has flushed, the interaction was admitted and its uid is in no round that was polled |
| `ConfirmerRuns.CommittedOnChain` | blockchains/nalgorand/client.go:285-321 | A commit is only reported for a uid in a block that was polled |
| `ConfirmerRuns.OneFate` | blockchains/nalgorand/client.go:232-350 | Every interaction that registered is rejected, waits, or has one outcome, and just one of these |
| `ConfirmerRuns.ReportsEverything` | blockchains/nalgorand/client.go:370-399 | A report covers every round before the last one known, and no further |
| `ConfirmerRuns.ReportCommits` | blockchains/nalgorand/client.go:307-320 | After a report, every interaction that waited for one of its uids is committed |
| `ConfirmerRuns.FetchRetried` | blockchains/nalgorand/client.go:381-391 | A block that could not be fetched is fetched again: such failures leave no trace in a run |
| `ConfirmerRuns.FlushTakesAll` | blockchains/nalgorand/client.go:323-341 | After an error that ends the poller, the flush takes exactly the interactions that wait |
| `ConfirmerRuns.FailureAborts` | blockchains/nalgorand/client.go:323-350 | They are then all aborted, in the order of the flush |
| `ConfirmerRuns.AbortsStay` | blockchains/nalgorand/client.go:323-350 | What the flush has taken is aborted or about to be, whatever happens then |
| `ConfirmerRuns.StuckExactly` | blockchains/nalgorand/client.go:246-253 | In every run, a registration takes the lock for ever if and only if the book is open and its uid is in a round that was reported |
| `ConfirmerRuns.StuckForever` | blockchains/nalgorand/client.go:249-253 | After an early commit the lock is held for ever: no later step registers, reports or flushes |
| `ConfirmerRuns.BlocksExactly` | blockchains/nalgorand/client.go:232-402 | Some run takes the lock for ever if and only if some round after the first carries a transaction |
| `DiemSlots.SlotsStep` | blockchains/diem/worker.go:155-202 | Every atomic step keeps each slot below the number of transactions its account has sent |
| `DiemSlots.CommitsStep` | blockchains/diem/worker.go:160-177 | Every atomic step keeps nextToCommit the maximum of 0 and the slots committed, and never lowers it |
| `DiemSlots.RunKeeps` | blockchains/diem/worker.go:155-271 | Both hold after every interleaving |
| `DiemSlots.AcceptedCommits` | blockchains/diem/worker.go:241-261 | In every interleaving, a transaction that was accepted and is finished has committed its slot, and nextToCommit is at least that |
| `DiemSlots.EffectsHaveCauses` | blockchains/diem/worker.go:204-271 | In every interleaving, only accepted transactions commit and only failed ones reset |
| `DiemSlots.SendsNext` | blockchains/diem/worker.go:155-158 | Sending takes the next slot |
| `DiemSlots.CommitsAlone` | blockchains/diem/worker.go:160-177 | An accepted transaction that is not disturbed raises the committed slot to its own, and changes no other counter |
| `DiemSlots.ResetsAlone` | blockchains/diem/worker.go:179-202 | A failed one that is not disturbed takes the next slot back to its own, if that is not below the committed slot and below the next one, and leaves it otherwise |
| `DiemSlots.TooOldAlone` | blockchains/diem/worker.go:222-238 | One that is refused as too old leaves every counter |
| `DiemSlots.SlotsAreValid` | blockchains/diem/worker.go:204-271 | With each index sent at most once, every slot handed out is an index of its account's queue |
| `DiemSlots.CommitsOnlyGrow` | blockchains/diem/worker.go:160-177 | nextToCommit never decreases as a run goes on |
| `DiemSlots.ResetsExactly` | blockchains/diem/worker.go:155-202 | In every interleaving, the next slot of an account is the number of its transactions that were sent if and only if no reset of that account has taken effect, and then none was sent twice |
| `DiemSlots.NoFailureNoReset` | blockchains/diem/worker.go:204-271 | Only a transaction that fails resets |
| `Workload.Builder.Add` | core/workload/workload.go:73-120 | Appends to one cell, growing the nested lists on the way, and changes no other cell |
| `Workload.Builder.BuildFlat` | core/workload/workload.go:34-70 | The plain nested lists hold what was added |
| `DiemWorkload.TxRoundTrip` | blockchains/diem/common.go:29-53 | A transaction of 14 bytes is decoded modulo the widths of its fields: as it was if and only if they fit |
| `DiemWorkload.TxLayout` | blockchains/diem/common.go:43-53 | The position of every field of a transaction |
| `DiemWorkload.GenerateSimpleTransaction` | blockchains/diem/controller.go:52-78 | Draws endpoint, account and receiver in this order, plans a transaction of 100 with that account's next number, and moves no other number or cell |
| `DiemWorkload.GenerateThread` | blockchains/diem/controller.go:124-135 | The plan of a thread numbers each account's transactions 0, 1, ... across intervals, and its cells hold the encoded plan |
| `DiemWorkload.Generate` | blockchains/diem/controller.go:80-140 | Fails if and only if there are fewer accounts than threads, or transactions of an unknown type are asked for; otherwise every thread has such a plan over the accounts of its home |
| `DiemWorkload.AssignHomes` | blockchains/diem/controller.go:113-117 | Deals the accounts to the homes in turn |
| `DiemWorkload.HomesPartition` | blockchains/diem/controller.go:104-117 | The homes partition the accounts, and none is empty when there are enough accounts |
| `DiemWorkload.OneThreadPerAccount` | blockchains/diem/controller.go:121-130 | Each account is used by one thread only |
| `DiemWorkload.SlotsAligned` | blockchains/diem/controller.go:52-78 | In an aligned plan, slot k of an account's queue holds its transaction number k |
| `DiemWorkload.ParseWorkload` | blockchains/diem/worker.go:77-113 | Decodes the transactions and queues each behind the earlier ones of its account; fails if and only if one is too short or the blockchain refuses to prepare one |
| `DiemWorkload.Alignment` | blockchains/diem/worker.go:77-113 | From controller to worker, for values that fit: the worker decodes exactly the plan of its thread, and slot k of each queue has sequence number k |
| `DiemWorkload.QueueLengths` | blockchains/diem/worker.go:77-113 | The queue of an account is as long as the number of indices that use it |
| `DiemWorkload.SlotHoldsItsNumber` | blockchains/diem/worker.go:204-271 | In every interleaving, the slot handed to a goroutine holds the transaction of its account with that very number |
| `Sampling.Distribution.constructor` | core/builtin.go:274-293 | All events are left; values are kept for once and loop distributions only |
| `Sampling.Distribution.Select` | core/builtin.go:295-325 | Selects among the events left and shuffles the selected one out of them, in place |
| `Sampling.SelectsAt` | core/builtin.go:295-325 | A selection returns the event at the random place among those left, and an error without any; with replacement nothing changes |
| `Sampling.Distribution.Copy` | core/builtin.go:327-353 | A copy has the events left and no others, shares no storage, and changes nothing |
| `Sampling.Distribution.DrainCopy` | core/benchmark.go:547-556 | Draining a once copy ends, gives each event left exactly once, and leaves the source unchanged |
| `Sampling.SelectDiscards` | core/builtin.go:295-325 | A selection returns an event that was left and removes just that one; at the end a once distribution is empty and a loop distribution is full again |
| `Sampling.DrawAll` | core/builtin.go:295-325 | As many selections as there are events left return each of them once, for all random numbers |
| `Sampling.LoopBlocks` | core/builtin.go:295-325 | Every successive block of n selections of a loop distribution of n events is a permutation of them |
| `Sampling.OnceThenNothing` | core/builtin.go:295-325 | A once distribution gives each event once and then errors for ever |
| `Redundant.Interaction.ReportSubmit` | blockchains/nredundant/client.go:31-40 | The first report, and no other, is passed on |
| `Redundant.Interaction.ReportCommit` | blockchains/nredundant/client.go:42-57 | Counts a commit and passes on the one that reaches the threshold |
| `Redundant.Interaction.ReportAbort` | blockchains/nredundant/client.go:59-74 | Counts an abort and passes on the one that reaches the threshold |
| `Redundant.CountedStep` | blockchains/nredundant/client.go:42-74 | The counters count the votes, and a flag is set when the votes are unanimous |
| `Redundant.SubmitToldStep` | blockchains/nredundant/client.go:31-40 | Submit is passed on by one client, and a client votes only after its own submit call returned |
| `Redundant.OutcomesStep` | blockchains/nredundant/client.go:42-74 | A commit or abort is passed on when its votes become unanimous, after the inner submit returned |
| `Redundant.ToldOnce` | blockchains/nredundant/client.go:31-86 | In every interleaving of n clients: submit once any client started and never twice; commit if and only if all committed, abort if and only if all aborted, together at most once; and the inner submit has returned before either starts |
| `Uber.SoliditySqrt` | solidity-contracts/uber/contract.sol:16-23 | Ends with the integer square root for every word but the largest, on which it divides by zero |
| `Uber.MoveSqrt` | move-contracts/uber/module.move:48-58 | Aborts on the largest word alone; returns 0 for 0 and the integer square root of n + 1 otherwise |
| `Uber.MoveRootError` | move-contracts/uber/module.move:48-58 | That is the root of n, plus one if and only if n is not 0 and n + 1 is a square |
| `Uber.MoveRootExactly` | move-contracts/uber/module.move:48-58 | The result is right if and only if n is 0 or n + 1 is not a square |
| `Uber.MoveRootWrong` | move-contracts/uber/module.move:48-58 | Just before every square above 1 the result is one too many |
| `Uber.NearlyClosest` | move-contracts/uber/module.move:77-84 | A driver that is not farther by the truncated distance d is at most 2 d farther in squared distance |
| `Uber.NearlyClosestTight` | move-contracts/uber/module.move:77-84 | Of arbitrary numbers in the place of squared distances no smaller bound holds, for any truncated distance from 2 on |
| `Uber.NewtonAbove` | solidity-contracts/uber/contract.sol:19-22 | A step of Newton's method never falls below the root |
| `Uber.DescendingStep` | solidity-contracts/uber/contract.sol:19-22 | A step that goes down stays above the root and does not overflow |
| `Uber.DescendingEnds` | solidity-contracts/uber/contract.sol:19-22 | When a step does not go down, the last two values are the roots of x and x + 1 |
| `Uber.Find` | move-contracts/uber/module.move:60-90 | The least index of a driver at the least truncated distance, 0 without drivers, and at most twice that distance above the least squared one; aborts if and only if a squared distance is the largest word or overflows |
| `Uber.SmallCoordinatesFit` | move-contracts/uber/module.move:68-76 | Coordinates below 10000 never make it abort |
| `Ramp.Intervals.GenerateFullIntervals` | core/configs/parsers/benchparser.go:76-130 | An error for an empty map; otherwise the map gains second 0 and the result is, for every second from the first key, or 0 when that is earlier, up to the last key, the line between the keys around it, rounded down |
| `Ramp.Intervals.GetTotalNumberOfTransactions` | core/configs/parsers/benchparser.go:133-184 | The sum of the expanded rates, computed without expanding; an empty map counts nothing |
| `Ramp.FillSegment` | core/configs/parsers/benchparser.go:107-125 | Adding up the increment and rounding down gives the rounded line; keys that go backwards fill nothing |
| `Ramp.CountSegment` | core/configs/parsers/benchparser.go:160-178 | The same while counting |
| `Ramp.Fill` | core/configs/parsers/benchparser.go:103-129 | All segments and the last second give the expansion |
| `Ramp.Count` | core/configs/parsers/benchparser.go:159-181 | All segments and the last second give the number of transactions |
| `Ramp.LineRounded` | core/configs/parsers/benchparser.go:116-121 | The accumulated value, rounded down, is an exact integer quotient |
| `Ramp.AgreesAtKeys` | core/configs/parsers/benchparser.go:103-129 | The expansion agrees with the map at its keys |
| `Ramp.StaysBetween` | core/configs/parsers/benchparser.go:112-122 | Every rate lies between the rates of the two consecutive keys around its second |
| `Ramp.OnTheLine` | core/configs/parsers/benchparser.go:109-122 | Every rate is the last whole number on or below the line between the two consecutive keys around its second |
| `Ramp.ExpandTwice` | core/configs/parsers/benchparser.go:76-130 | Expanding again changes nothing |
| `Ramp.TransactionsOfExpansion` | core/configs/parsers/benchparser.go:133-184 | The number of transactions is the same for the map and for its expansion |
| `Quorum.Client.constructor` | blockchains/nhotstuff/client.go:98-145 | All nodes of the view, none dead, with the tolerance of the length of the view |
| `Quorum.ViewNumbered` | blockchains/nhotstuff/client.go:98-103 | The nodes of distinct addresses are numbered from 1 in the order of the view |
| `Quorum.Client.MarkDead` | blockchains/nhotstuff/client.go:286-297 | Adds the named nodes to the dead ones and says whether one was new |
| `Quorum.Client.ActiveNodes` | blockchains/nhotstuff/client.go:302-308 | Exactly the nodes that are not dead |
| `Quorum.Client.PruneUnavailableNodes` | blockchains/nhotstuff/client.go:273-325 | Installs the nodes alive when a node died, some are alive and the rebuild succeeds; keeps the configuration otherwise |
| `Quorum.PruneKeeps` | blockchains/nhotstuff/client.go:273-325 | A failure keeps the client consistent and loses no dead node |
| `Quorum.DeadExactly` | blockchains/nhotstuff/client.go:286-297 | Over every sequence of failures, a node is dead if and only if it was or some failure names its endpoint |
| `Quorum.InstallsExactly` | blockchains/nhotstuff/client.go:298-320 | A failure installs exactly the nodes alive, with their size and tolerance and the next version, if and only if it finds a new dead node, some are alive and the rebuild succeeds; otherwise the configuration stays |
| `Quorum.RunKeeps` | blockchains/nhotstuff/client.go:273-325 | Over every sequence of failures and failed rebuilds the dead nodes only grow; the configuration contains all others, is never empty, has size activeNodes and tolerance (size - 1) / 3, and was rebuilt at most once per dead node |
| `Quorum.ThresholdReachable` | blockchains/nhotstuff/client.go:25-38 | The number of replies waited for is between 1 and the number of installed nodes |
| `Quorum.SoundExactly` | blockchains/nhotstuff/client.go:29-34 | Every accepted set of replies has one from a correct node if and only if no more installed nodes are faulty than the configuration tolerates |
| `Quorum.QuorumsSurvivePruning` | blockchains/nhotstuff/client.go:273-325 | If the view has no more faulty nodes than it tolerates and only faulty nodes are found dead, accepted replies include a correct node and the correct nodes suffice, after every sequence of failures |
| `Quorum.AnswerableExactly` | blockchains/nhotstuff/client.go:98-105 | A new client has at least as many nodes as the replies it waits for if and only if its view has more different addresses than it tolerates faults |
| `Quorum.AnswerableRun` | blockchains/nhotstuff/client.go:273-325 | After every sequence of failures, that holds if and only if it held at first or a configuration was rebuilt |
| `Quorum.RepeatedAddresses` | blockchains/nhotstuff/client.go:98-105 | A view of one address four times or more never has enough nodes |
| `Quorum.CorrectNodesPruned` | blockchains/nhotstuff/client.go:302-320 | When all nodes but a faulty one are found dead, its reply alone is accepted |
| `Throughput.EventLog.AddSubmit` | core/results/event.go:51-53 | The submit time changes, the commit time and every other transaction do not |
| `Throughput.EventLog.AddCommit` | core/results/event.go:62-64 | The commit time changes, the submit time and every other transaction do not |
| `Throughput.SucceedsExactly` | core/results/event.go:46-93 | A transaction succeeds if and only if its submission and its commit were logged, the last time for each not negative |
| `Throughput.EventLog.Format` | core/results/event.go:69-126 | Fails if and only if the window is negative; successes and failures add up to the transactions logged, latencies are those of the successes, the throughput of each second is the number of commits of the last min(window, i + 1) seconds over that length, and the mean is successes over seconds |
| `Throughput.Tally` | core/results/event.go:82-93 | Counts successes and failures and finds the last second with a commit |
| `Throughput.Histogram` | core/results/event.go:95-101 | Counts the commits of each second |
| `Throughput.Windows` | core/results/event.go:103-119 | The incremental sum is the number of commits inside the window, at every second; a negative window runs past the last second |
| `Throughput.Slides` | core/results/event.go:107-116 | Adding the new second and dropping the one that left gives the sum of the next window |
| `Throughput.HistogramSums` | core/results/event.go:95-108 | The commits of the seconds add up to the commits of the whole span |
| `Throughput.AllCommits` | core/results/event.go:95-124 | The whole span has as many commits as there are successes |
| `Throughput.ReportUnique` | core/results/event.go:69-126 | The log and the window determine the report, up to the order of the latencies |

## Left out

- The YAML description of benchmarks, its expressions, scopes, resources and error positions.
- Rounding of floating-point numbers: schedules, ramps and throughputs are over the reals.
- Negative rates and times in a load, on which the sending loop need not end, and merges of no streams, which index an empty list: both are preconditions.
- The size hint of the expanded ramp, which is negative when all its seconds are.
- Schedule.Flatten: takes the load as a map of values already evaluated.
- Wall-clock time: sleeping until an interaction is due, delay and skew warnings, and the fixed wait before stopping; the times of reports are arbitrary.
- The observer connections, and the start and secondary-parameter messages, whose formats add nothing to those proved.
- Sockets, HTTP, gRPC, contract compilers, signing and the blockchain libraries: their answers are arbitrary parameters.
- The objects of single clients at the primary: they are values inside the object of their secondary.
- Progress of the Algorand confirmer: safety is proved, and when it stops for ever.
- The other confirmers of Algorand and of the other blockchains, which repeat or vary this pattern.
- DiemSlots.SlotsAreValid: slots are unbounded integers instead of 64-bit ones.
- DiemWorkload.Alignment: is for at most 2^16 accounts and endpoints and 2^32 transactions of a thread, the widths of the wire format (DiemWorkload.TxRoundTrip says what happens beyond).
- Solidity's search for the closest driver, which reads a client coordinate that is never stored and so always reverts.
- Recognising dead endpoints in an error text, and the limit of commands in flight of the HotStuff client.
- Quorum.QuorumsSurvivePruning: is for a view that is not empty, as the library builds no configuration without nodes, and of distinct addresses (Quorum.AnswerableExactly says what repeated ones do).
- Redundancy over no clients, and Diem benchmarks without secondaries, threads or endpoints: preconditions.
- Quality of random numbers: any number in range will do.
- The aggregation of results over workers, which is sums and maxima, and the older communication package.
