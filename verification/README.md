# A verified model of the skeg-rigging record store and ingest pipeline

This project models, in Dafny, the parts of the repository that keep data: the disk-backed tenant,
the in-memory reference tenant it must be interchangeable with, the event streams both offer, the
snapshot and restore of a tenant directory, and the pipeline that chunks files, embeds them and
writes them in. It proves what those parts promise: nothing durable is lost, nothing committed is
overwritten, every subscriber sees the same history, a filtered search never shows a wrong hit,
and the fast paths agree with the simple ones.

Code that changes things step by step in the original is imperative here: `Tenant`, `MockTenant`,
`Broadcaster`, `Channel`, `EventStream` and `Writer` are classes whose methods are tied to
specification functions, and the scanners, copies and ingest loops are loops over those functions.
The crash model and the concurrent broadcast are step relations over values, so that a theorem can
range over every run.

## Modules

| file | what it holds |
|---|---|
| `Numbers.dfy`, `Keyed.dfy` | minimum and maximum; insertion-ordered rows addressed by key: lookup, upsert, remove |
| `Events.dfy`, `EventProtocol.dfy` | filters, channels, broadcast and replay; the mutate, unlock, broadcast protocol for any number of threads |
| `TenantState.dfy`, `Tenant.dfy`, `Recovery.dfy` | the two stores, the tenant class, and runs with crashes |
| `Query.dfy`, `TopK.dfy`, `Cosine.dfy` | oversample-and-filter, the exact top k, the similarity score |
| `Mock.dfy`, `DropIn.dfy` | the reference tenant with its quota, and the refinement between the two tenants |
| `SearchRuns.dfy` | runs after which the two tenants answer a search differently |
| `Snapshot.dfy`, `Restore.dfy` | recursive copy, byte totals, the snapshot/restore round trip |
| `Text.dfy`, `Chunking.dfy`, `Windows.dfy` | UTF-8, words and lines, splitting and joining, paragraph and window chunks |
| `Embed.dfy`, `Overlap.dfy` | the bucketed word-count embedding; from an ingest with it to the search that finds a shared word |
| `Ingest.dfy`, `Watch.dfy` | id allocation, partial failures, idempotence; watch mode |

## What enters as a parameter

- The vector index is a durable map from id to vector. What a search for so many answers is an argument
  of `Tenant.QueryFiltered`; it is assumed only to hold distinct stored ids, at most as many as asked
  for. An exact ranking - every stored vector once, by descending score, equal scores in any order -
  is assumed only where a theorem compares with the exact answer. Of the results below only
  `DropIn.ExactIsReference` assumes that the ranking lists equal scores in record order. The helper
  lemmas behind it, such as `DropIn.KeptInRecordOrder`, assume it too, and so does
  `SearchRuns.MissesTheLast`, whose ranking is one built in that order.
- Whether a directory can be made, whether a sidecar on disk can be read and decoded, how far an
  index creation gets, whether an index insert, a sidecar write, a writer insert or a flush succeeds;
  which vectors can be read back; which entries of a directory can be examined when bytes are summed.
- The clock, the files and the notifications of watch mode; the directory tree of a copy, and the
  order in which the file system lists any directory.
- The embedding backend (a map from the texts it can embed to vectors), lower-casing, decimal
  rendering, the square root, the sidecar encoding and the opening of an index from its files.
  `Restore.Trusted` is all that is assumed of the last two.
- Scores, vectors and norms are real numbers; lengths of vectors are below 2^32, so that the 32-bit
  casts of the original lose nothing.

## Where the code and its documentation differ

The model follows the code.

- A filtered search with limit zero returns one hit in the disk-backed tenant and none in the
  reference tenant (`crates/skeg-rigging-skeg/src/tenant.rs:564-572`,
  `crates/skeg-rigging/src/mock.rs:228`); the drop-in theorem is stated for limits of at least one,
  and `Query.ZeroLimitReturnsOne` says what happens at zero.
- The two tenants are drop-in interchangeable (`README.md:12`) for search as far as scores go
  exactly when the oversample reaches far enough (`DropIn.SearchScoresDropInExactlyWhen`), and hit by
  hit exactly when, besides, ties come out in record order (`DropIn.SearchDropsInExactlyWhen`), which
  an index that knows only ids and vectors cannot promise. `SearchRuns` has a run against each
  condition. The same README says the adapter wraps a flat index; the code opens a graph index.
- Oversampling four times is documented to be enough when a quarter of the records is shareable
  (`crates/skeg-rigging-skeg/src/tenant.rs:538-539`). It is when that is a quarter of the oversample
  (`Query.QuarterSelectivitySuffices`), and need not be when it is a quarter, or any share, of the
  index: `Query.IndexSelectivityIsNotEnough` gives rankings with an empty answer.
  `Query.OversampledExactlyWhen` is the condition.
- "Let the next event pick it up" (`crates/skeg-rigging-ingest/src/lib.rs:259-260`) fails within
  the debounce window, because the failed attempt has already started it:
  `Watch.PickedUpExactlyWhen` is the condition and `Watch.RetryIsLost` an input that loses an edit.
- `on_batch` is documented as receiving cumulative statistics
  (`crates/skeg-rigging-ingest/src/lib.rs:203-204`); it receives those of one file. They are
  cumulative in the first call and in no other (`Watch.ReportIsCumulativeExactlyWhen`). It is also
  called when the flush failed: what an attempt wrote is persisted exactly when it, or a later one,
  completed and its flush worked (`Watch.PersistedExactlyWhen`). `Watch.ReportsOfTwoFiles` is an input
  of two files where the second report is not cumulative and nothing reported is persisted.
- `open` keeps the caller's tenant id on the handle when the sidecar records another one
  (`crates/skeg-rigging-skeg/src/tenant.rs:136-172`); the persisted id never changes. `Tenant.Tenant.Open`
  says when the two ids agree: exactly when there was no sidecar or it recorded the caller's id.
- Overwrites are exempt from the quota (`crates/skeg-rigging/src/mock.rs:112`), so bytes can pass the
  cap; `Mock.OverwriteIgnoresCaps` says exactly when, and `Mock.CapIsPassed` is a run from an empty
  store that does.
- Events go out after the lock is released, so a replay of the stream is not always the current
  state: `EventProtocol.ReplaysRightExactlyWhenTimely` gives the condition, and
  `EventProtocol.OverlappingWritersReorder` is a run that violates it.
- A record that was inserted and flushed can come back torn after a later insert and a crash:
  `Recovery.SavedRecordIsWhole` says exactly when a record is that of one insert: when a flush follows
  the latest insert of its id with no crash in between.

## Model

| member | source | states |
|---|---|---|
| `EventProtocol.SubscriberSeesEmissionLog` | crates/skeg-rigging-skeg/src/tenant.rs:243-296 | after any interleaving of any number of threads, a live subscriber has been handed the emission log from its registration point, short of at most the one broadcast still on its way, and all of it when none is; a dropped receiver holds a prefix |
| `EventProtocol.SubscribersAgree` | crates/skeg-rigging-skeg/src/tenant.rs:290-296 | any two subscribers hold the same event at the same position of the common log |
| `EventProtocol.Reachable` | crates/skeg-rigging-skeg/src/tenant.rs:243-288 | in every reachable state broadcasts plus pending events are a permutation of the changes made, the record map is the replay of the changes, and the registration invariants hold |
| `EventProtocol.NothingLostOrDuplicated` | crates/skeg-rigging-skeg/src/tenant.rs:243-296 | between two quiescent moments every subscriber that stays alive, whenever it registered, is handed exactly the changes made in between, as a multiset, after what it had |
| `EventProtocol.ReplaysRightExactlyWhenTimely` | crates/skeg-rigging-skeg/src/tenant.rs:243-296 | for every run: however its threads finish from any of its states, replaying the broadcasts then gives the record map, if and only if in no state a broadcast was waiting that a later change to its id had overtaken |
| `EventProtocol.OvertakenCanComeLast` | crates/skeg-rigging-skeg/src/tenant.rs:290-296 | from every reachable state where such a broadcast waits, there is a way to finish after which the replay is not the record map |
| `EventProtocol.ReplayExactly` | crates/skeg-rigging-skeg/src/tenant.rs:243-296 | at quiescence the replay is the record map if and only if, id by id, the last broadcast is the last change |
| `EventProtocol.OverlappingWritersReorder` | crates/skeg-rigging-skeg/src/tenant.rs:260-266 | a literal instance: two writers of one id reach a state with an overtaken broadcast, and one completion of it leaves a subscriber's replay different from the records |
| `EventProtocol.SerialisedWritersReplay` | crates/skeg-rigging-skeg/src/tenant.rs:243-296 | a run in which no change to an id is made while another change to it awaits its broadcast has no overtaken broadcast in any state, so its replay at quiescence is the record map |
| `EventProtocol.SubscriberReplayIsCurrent` | crates/skeg-rigging-skeg/src/tenant.rs:397-403 | then a subscriber's own stream, replayed over the view at its registration, is the current record map |
| `Events.Broadcaster.Emit` | crates/skeg-rigging/src/mock.rs:81-84 | the loop that retains senders delivers the event once to every live receiver and prunes exactly the dead ones |
| `Events.Broadcaster.Subscribe` | crates/skeg-rigging/src/mock.rs:274-283 | a new subscriber joins behind the present ones with nothing queued |
| `Events.EventStream.TryRecv` | crates/skeg-rigging/src/events.rs:184-192 | the draining loop answers the first queued event that passes the filter and removes it and what precedes it |
| `Events.PullAllIsFilter` | crates/skeg-rigging/src/events.rs:184-192 | repeated `try_recv` returns exactly the filtered subsequence, in order, for every filter |
| `Events.OneKindAllowed` | crates/skeg-rigging/src/events.rs:98-142 | a subscriber that allows one of the five kinds only is handed exactly the queued events of that kind, in order |
| `Events.AllAndNone` | crates/skeg-rigging/src/events.rs:112-142 | `ALL` is handed the whole queue, `NONE` nothing |
| `Events.PulledExactlyWhen` | crates/skeg-rigging/src/events.rs:98-142 | under any filter an event is handed out if and only if it is queued and its kind is allowed |
| `Events.NoPullMeansNothingPasses` | crates/skeg-rigging/src/events.rs:133-192 | an answer without an event is given exactly when nothing queued passes; it is `Disconnected` exactly when the sender is gone |
| `Events.ReplayByLast` | crates/skeg-rigging/src/events.rs:66-192 | a replay of a log at an id is decided by the last event about that id alone |
| `Query.AnswerSound` | crates/skeg-rigging-skeg/src/tenant.rs:536-574 | whatever the index answers, the hits are distinct, live, accepted candidates in candidate order, at most the limit, and fewer only when the candidates ran out |
| `Query.FilterSeesTheRecord` | crates/skeg-rigging-skeg/src/tenant.rs:546-560 | the filter is asked about the record: one that wants shareable records, a tag or an id is answered with such records only |
| `Query.ZeroLimitReturnsOne` | crates/skeg-rigging-skeg/src/tenant.rs:564-572 | a limit of zero returns one hit exactly when some candidate is eligible |
| `Query.OversampledIsPrefix` | crates/skeg-rigging-skeg/src/tenant.rs:536-574 | over an exact ranking the answer is a prefix of the exact top k |
| `Query.OversampledExactlyWhen` | crates/skeg-rigging-skeg/src/tenant.rs:536-574 | it is the exact top k if and only if the oversample - 64 candidates, from limit sixteen on four times the limit - holds k eligible ones or no eligible one is ranked beyond it |
| `Query.FewRejectionsSuffice` | crates/skeg-rigging-skeg/src/tenant.rs:536-574 | it is whenever orphaned and rejected entries number at most the larger of 64 and 4k, minus k |
| `Query.QuarterSelectivitySuffices` | crates/skeg-rigging-skeg/src/tenant.rs:536-574 | it is whenever a quarter of a full oversample is live and accepted |
| `Query.IndexSelectivityIsNotEnough` | crates/skeg-rigging-skeg/src/tenant.rs:536-540 | an oversample of ineligible entries ranked first makes the answer empty, however many eligible entries follow and whatever share of the index they are |
| `Query.SlackIsTight` | crates/skeg-rigging-skeg/src/tenant.rs:536-540 | with one more rejection than the slack, ranked first, the last eligible entry is missed |
| `Tenant.Tenant.QueryFiltered` | crates/skeg-rigging-skeg/src/tenant.rs:523-576 | the index is asked for the larger of 64 and four times the limit, and the push-then-test loop returns exactly that answer with payloads and readable vectors, or the dimension or index error |
| `Tenant.Tenant.Open` | crates/skeg-rigging-skeg/src/tenant.rs:127-178 | the three branches of `open` under every failure of making the directory, reading or decoding the sidecar, creating the index and writing the sidecar: which sidecar or error it answers, which directory it leaves, and when the handle's id is the sidecar's |
| `Tenant.Tenant.OpenReadonly` | crates/skeg-rigging-skeg/src/tenant.rs:184-208 | read-only open needs a sidecar that can be read and decoded, takes id and dimension from it and writes nothing |
| `Tenant.Tenant.Insert` | crates/skeg-rigging-skeg/src/tenant.rs:223-268 | an insert updates both stores under one id and broadcasts once; a refused one changes nothing and is silent |
| `Tenant.Tenant.Delete` | crates/skeg-rigging-skeg/src/tenant.rs:272-288 | a delete drops the sidecar entry only, answers and announces exactly whether it was present |
| `Tenant.Tenant.Flush` | crates/skeg-rigging-skeg/src/tenant.rs:300-308 | afterwards the directory's sidecar is the one in memory, and nothing else changed |
| `Tenant.Tenant.IterVectors` | crates/skeg-rigging-skeg/src/tenant.rs:496-512 | the loop yields each record's readable vector in record order |
| `TenantState.WritesKeepPairing` | crates/skeg-rigging-skeg/src/tenant.rs:223-268 | an insert keeps ids unique, every record with a vector of the right length, and adds one id to the index |
| `TenantState.DropKeepsPairing` | crates/skeg-rigging-skeg/src/tenant.rs:272-288 | a delete keeps the pairing and leaves the vector in the index |
| `TenantState.FaultsAreIo` | crates/skeg-rigging-skeg/src/tenant.rs:127-168 | `open` under faults: exactly when it succeeds, and that any failure it adds is an I/O error |
| `TenantState.VectorsMembers` | crates/skeg-rigging-skeg/src/tenant.rs:497-516 | a pair is yielded if and only if its id has a record and its vector is the stored one and can be read |
| `TenantState.VectorsComplete` | crates/skeg-rigging-skeg/src/tenant.rs:497-516 | a paired tenant yields one vector per record, in order, each stored and of the tenant's dimension |
| `Recovery.OpenIsItsSteps` | crates/skeg-rigging-skeg/src/tenant.rs:127-178 | the atomic steps of an uninterrupted `open` in the crash model compose to the tenant's `open` |
| `Recovery.FailedOpenIsACrash` | crates/skeg-rigging-skeg/src/tenant.rs:162-168 | after every run, the directory a failed `open` leaves is one that a crash during its steps leaves, so what is proved of runs holds after it |
| `Recovery.WritesAreTheirSteps` | crates/skeg-rigging-skeg/src/tenant.rs:223-288 | likewise for insert and delete |
| `Recovery.Reachable` | crates/skeg-rigging-skeg/src/tenant.rs:127-308 | over every run with crashes between any two steps, both sidecars have unique ids contained in the index and agree with it on the dimension |
| `Recovery.OpenSucceedsExactlyWhen` | crates/skeg-rigging-skeg/src/tenant.rs:127-168 | in every reachable directory `open` succeeds exactly when no index creation was cut short and the dimension is the stored one; it then starts from the sidecar there or an empty one under the caller's id, and otherwise names the stored and the requested dimension |
| `Recovery.CreateNeverOverData` | crates/skeg-rigging-skeg/src/tenant.rs:108-168 | the create branch is only ever taken where there is neither index nor sidecar |
| `Recovery.DurableStateGrows` | crates/skeg-rigging-skeg/tests/roundtrip_tenant.rs:124-145 | over every continuation of a run the index keeps its dimension and all ids, and the persisted tenant id and dimension never change |
| `Recovery.ReopenShowsLastSave` | crates/skeg-rigging-skeg/src/tenant.rs:136-150 | a reopened tenant shows exactly the entries of the last sidecar write, each with its id's latest inserted vector, one vector per record, all of the right dimension |
| `Recovery.SavedRecordIsWhole` | crates/skeg-rigging-skeg/src/tenant.rs:223-308 | over every run and id: a reopened tenant has the record exactly when the last sidecar write held one; it shows the metadata of one insert and the vector of the latest; and these are one insert if and only if a flush follows the latest insert with no crash in between, an earlier one otherwise |
| `Recovery.InsertSavedExactlyWhen` | crates/skeg-rigging-skeg/src/tenant.rs:300-308 | over every run, the latest insert of an id has reached the sidecar on disk if and only if some flush comes after it and no crash between the two |
| `Recovery.UnsavedOverwriteIsTorn` | crates/skeg-rigging-skeg/src/tenant.rs:243-268 | after every run with the record saved, an overwrite and a crash before any flush leave the new vector under the metadata of the earlier insert |
| `Recovery.SavedOnce` | crates/skeg-rigging-skeg/src/tenant.rs:243-308 | such runs exist: create, insert, flush |
| `Mock.MockTenant.Insert` | crates/skeg-rigging/src/mock.rs:95-153 | the quota check, upsert and broadcast of the reference tenant, with its verdicts |
| `Mock.MockTenant.Delete` | crates/skeg-rigging/src/mock.rs:155-163 | removes the id, answers and announces exactly whether it was there |
| `Mock.QuotaHoldsOverRuns` | crates/skeg-rigging/src/mock.rs:95-163 | under one quota, over every run, records stay within the larger of cap and starting count, and bytes within the larger of cap and starting bytes plus what overwrites added |
| `Mock.GrowthMeetsCaps` | crates/skeg-rigging/src/mock.rs:112-137 | a new id is accepted exactly when both caps hold afterwards |
| `Mock.RefusalSays` | crates/skeg-rigging/src/mock.rs:112-137 | a refusal names the cap that would be passed, records before bytes, and the usage the insert would have led to |
| `Mock.SizeGrows` | crates/skeg-rigging/src/mock.rs:290-294 | an empty record counts for nothing, a payload byte for one, a vector component for four, a tag for the length of its UTF-8 encoding |
| `Mock.ThousandAndFour` | crates/skeg-rigging/src/mock.rs:112-137 | one component and a thousand bytes of payload are accepted into an empty store from a cap of 1004 on, and refused below it with 1004 attempted |
| `Mock.OverwriteIgnoresCaps` | crates/skeg-rigging/src/mock.rs:112-137 | an overwrite is never refused and stays within the byte cap exactly when the new total fits |
| `Mock.CapIsPassed` | crates/skeg-rigging/src/mock.rs:112-137 | a run from an empty unlimited store - set the byte cap to a record's size, insert it, overwrite it with a larger one - that ends above the cap |
| `Mock.RefusedIsSilent` | crates/skeg-rigging/src/mock.rs:112-163 | an operation that announces nothing changes no record, and a refused insert changes nothing at all |
| `Mock.BytesUpsert` | crates/skeg-rigging/src/mock.rs:242-294 | usage stays the sum of record sizes across an upsert: the old size of the id leaves, the new one enters |
| `Mock.RunIsReplayed` | crates/skeg-rigging/src/mock.rs:81-163 | over every sequential run, replaying the event log over the starting view gives the final view |
| `Mock.PerformAll` | crates/skeg-rigging/src/mock.rs:81-163 | after any run of calls on the class, the state is that run's and every live subscriber has queued exactly the run's event log |
| `Mock.DeletesArePresent` | crates/skeg-rigging/src/mock.rs:155-163 | every announced delete concerns an id present at that point of the log |
| `Mock.MockTenant.CurrentUsage` | crates/skeg-rigging/src/mock.rs:266-272 | the usage is what the quota is held against: a new record is accepted exactly when it leaves room under both caps |
| `Mock.HitsAreAcceptedRecords` | crates/skeg-rigging/src/mock.rs:202-222 | the hits before sorting are exactly those of the accepted records, with distinct ids |
| `Mock.FilterSeesTheRecord` | crates/skeg-rigging/src/mock.rs:202-222 | a filter that wants shareable records, a tag or an id gets hits of such records only |
| `Mock.MockTenant.QueryFiltered` | crates/skeg-rigging/src/mock.rs:189-230 | filter, stable sort and truncate give the top k of the accepted records, ties in record order |
| `TopK.TopKUnique` | crates/skeg-rigging/src/mock.rs:223-228 | at most one sequence is the top k |
| `TopK.SortTakeIsTopK` | crates/skeg-rigging/src/mock.rs:223-228 | a sequence is the stable descending sort cut to k if and only if it is the top k |
| `TopK.TakeIsTopKExactlyWhen` | crates/skeg-rigging/src/mock.rs:223-228 | a rearrangement of the hits, cut to k, is the top k if and only if its first k are ranked |
| `Cosine.Cosine` | crates/skeg-rigging/src/mock.rs:296-309 | the loop computes the inner product over the product of the norms, and zero for a zero vector |
| `Cosine.CauchySchwarz` | crates/skeg-rigging/src/mock.rs:296-309 | for all vectors of equal length the accumulators satisfy dot squared at most na times nb |
| `Cosine.ScoreIsBounded` | crates/skeg-rigging/src/mock.rs:296-309 | the score lies between -1 and 1, is zero for a zero vector, and is positive exactly when the inner product is |
| `Cosine.ScoreTimesNorms` | crates/skeg-rigging/src/mock.rs:296-309 | the score times both norms is the inner product, sign included |
| `Cosine.ScoreOfItself` | crates/skeg-rigging/src/mock.rs:296-309 | a vector scores 1 against itself unless it is zero |
| `DropIn.RunDropsIn` | crates/skeg-rigging-skeg/src/tenant.rs:223-288 | for every run of successful inserts and deletes from matching states, adapter and unlimited reference tenant end with the same records in the same order, the same event log and the same delete answers |
| `DropIn.FreshRunDropsIn` | crates/skeg-rigging/src/mock.rs:95-187 | from empty, both also give the same `iter_vectors` and count, orphaned vectors notwithstanding |
| `DropIn.ExactScoresAreReference` | crates/skeg-rigging/src/mock.rs:202-229 | over every exact ranking, however it orders equal scores, the exact answer at any limit has the scores of the reference answer, place by place |
| `DropIn.ExactIsReferenceExactlyWhen` | crates/skeg-rigging/src/mock.rs:202-229 | the two answers are equal hit by hit if and only if equal scores come in record order as far as the limit reaches |
| `DropIn.DistinctScoresSuffice` | crates/skeg-rigging/src/mock.rs:202-229 | they are whenever no two live accepted records score the same |
| `DropIn.ExactIsReference` | crates/skeg-rigging/src/mock.rs:202-229 | they are when the index happens to list equal scores among live records in record order |
| `DropIn.SearchScoresDropInExactlyWhen` | crates/skeg-rigging-skeg/src/tenant.rs:536-574 | the adapter's search finds the reference tenant's scores, place by place, if and only if the oversample holds enough eligible candidates or none lies beyond it |
| `DropIn.SearchDropsInExactlyWhen` | crates/skeg-rigging-skeg/src/tenant.rs:536-574 | it gives the reference hits if and only if, besides, equal scores come in record order as far as the limit reaches |
| `SearchRuns.OrphansHideALiveRecord` | crates/skeg-rigging-skeg/src/tenant.rs:272-288 | at every limit a run of inserts and deletes after which the adapter returns one hit fewer than the reference tenant |
| `SearchRuns.TiesCanDiffer` | crates/skeg-rigging/src/mock.rs:223-228 | a run of four operations after which the two return different hits of equal score |
| `Snapshot.CopyDirContents` | crates/skeg-rigging-skeg/src/tenant.rs:365-379 | the recursive loop succeeds exactly on type-compatible trees and then gives the overlay; a failure leaves the entries before the misfit copied and every other name alone |
| `Snapshot.CompatibleExactlyWhen` | crates/skeg-rigging-skeg/src/tenant.rs:365-379 | a copy meets no obstacle if and only if at no path, however deep, a file would replace something else than a file or a directory something else than a directory |
| `Snapshot.OverlayLookup` | crates/skeg-rigging-skeg/src/tenant.rs:365-379 | under each name the overlay holds the source's file, the source's directory copied over the destination's, or what the destination had |
| `Snapshot.CopyIntoEmpty` | crates/skeg-rigging-skeg/src/tenant.rs:365-379 | a copy into an empty directory always succeeds and reproduces the tree without links and devices |
| `Snapshot.CopyIgnoresOrder` | crates/skeg-rigging-skeg/src/tenant.rs:365-379 | whether a copy succeeds, and the tree it leaves, do not depend on the order in which any directory is listed |
| `Snapshot.BytesIgnoreOrder` | crates/skeg-rigging-skeg/src/tenant.rs:426-443 | nor does the byte total |
| `Snapshot.CopyConservesBytes` | crates/skeg-rigging-skeg/src/tenant.rs:365-379 | for every compatible copy, bytes left plus bytes overwritten equal the bytes of both sides |
| `Snapshot.SumDirBytes` | crates/skeg-rigging-skeg/src/tenant.rs:426-443 | the recursive loop adds up the sizes of all regular files below the directory that can be examined; what cannot, nested or not, counts for zero |
| `Snapshot.BytesOfOne` | crates/skeg-rigging-skeg/src/tenant.rs:426-443 | a file counts for its length, a directory for what is in it, anything else for nothing |
| `Snapshot.NestedFile` | crates/skeg-rigging-skeg/src/tenant.rs:426-443 | a file in a directory counts exactly when both can be examined |
| `Snapshot.VisibleBytes` | crates/skeg-rigging-skeg/src/tenant.rs:422-443 | so the total is never too large, and exact where everything can be examined |
| `Restore.TakeSnapshot` | crates/skeg-rigging-skeg/src/tenant.rs:446-453 | flush, then overlay the directory on the destination; when it fails, and what a failed flush or a failed copy leaves at both ends |
| `Restore.RestoreFrom` | crates/skeg-rigging-skeg/src/tenant.rs:343-361 | when a restore succeeds, which error otherwise, that the handle takes id and dimension from the copied sidecar, what a failed copy and a failed open leave in the destination, and that a retry is answered `AlreadyExists` exactly when the sidecar is among that |
| `Restore.CutCopyMeta` | crates/skeg-rigging-skeg/src/tenant.rs:343-379 | a copy that stopped early has left the sidecar exactly when it was listed before the entry that could not be copied |
| `Restore.CopyKeepsTenant` | crates/skeg-rigging-skeg/tests/gates.rs:250-262 | a copy into an empty directory, in any listing order, keeps the sidecar file byte for byte, what it decodes to, what the index opens as, and the byte total |
| `Restore.RoundTrip` | crates/skeg-rigging-skeg/tests/lifecycle.rs:59-97 | snapshot then restore, however the directories are listed, gives the same records, vectors, dimension and persisted id, and the same tree in as many bytes |
| `Keyed.UpsertPlaces` | crates/skeg-rigging-skeg/src/tenant.rs:246-258 | an upserted row takes the place of the one with its key, or the end |
| `Keyed.RemoveClosesUp` | crates/skeg-rigging-skeg/src/tenant.rs:277-280 | a removed row leaves the others in order |
| `Text.Utf8RoundTrip` | crates/skeg-rigging-ingest/src/lib.rs:132 | the bytes of a text, decoded as RFC 3629 lays them out (section 3), are its characters in order |
| `Text.WhiteSpaceIs` | crates/skeg-rigging-ingest/src/chunk.rs:40-42 | whitespace is exactly the 25 characters with the Unicode property |
| `Text.UnbrokenIsOneWord` | crates/skeg-rigging-ingest/src/chunk.rs:40-42 | a text without whitespace is one word, unchanged |
| `Text.WordsSplit` | crates/skeg-rigging-ingest/src/chunk.rs:40-42 | no word spans a whitespace character: the words of two texts joined by one are the words of both |
| `Text.LinesFeed` | crates/skeg-rigging-ingest/src/chunk.rs:57 | a line ends at its line feed and loses one carriage return before it |
| `Text.LinesLast` | crates/skeg-rigging-ingest/src/chunk.rs:57 | a last line without a line feed is kept unchanged |
| `Text.StripCrIs` | crates/skeg-rigging-ingest/src/chunk.rs:57 | exactly one final carriage return is dropped, and nothing else |
| `Text.LinesOfJoin` | crates/skeg-rigging-ingest/src/chunk.rs:79-80 | lines joined with line feeds and ended with one come back, in order |
| `Text.SplitOfJoin` | crates/skeg-rigging-ingest/src/chunk.rs:79-80 | whatever the lines hold, splitting the joined text at its line feeds gives them back |
| `Text.LinesKeepWords` | crates/skeg-rigging-ingest/src/chunk.rs:57-92 | splitting a text into lines loses no word and cuts none |
| `Chunking.ParagraphChunks` | crates/skeg-rigging-ingest/src/chunk.rs:53-77 | the buffering scanner emits the runs of the reference scan, end of file included |
| `Chunking.ParagraphsAreMaximalRuns` | crates/skeg-rigging-ingest/src/chunk.rs:53-89 | a list of chunks is what the scanner emits if and only if it is the maximal runs of non-blank lines, in order, each pair apart, covering every non-blank line, with right numbers and text |
| `Chunking.ParagraphsOf` | crates/skeg-rigging-ingest/src/chunk.rs:53-89 | and the emitted chunks hold exactly as many words as the text |
| `Chunking.PushedRun` | crates/skeg-rigging-ingest/src/chunk.rs:79-89 | the emptiness guard never drops a run |
| `Windows.ChunkHoldsItsLines` | crates/skeg-rigging-ingest/src/chunk.rs:46-111 | in either mode the text of a chunk, split at its line feeds, is the lines of the file its numbers name, in order |
| `Windows.CodeWindows` | crates/skeg-rigging-ingest/src/chunk.rs:29-37 | which four extensions are prose; any other file is cut into windows of forty lines, one every thirty |
| `Windows.WindowsAscend` | crates/skeg-rigging-ingest/src/chunk.rs:91-111 | windows come out in the order of their first lines, no two starting together |
| `Windows.LineWindows` | crates/skeg-rigging-ingest/src/chunk.rs:91-111 | the loop with its early exit emits the non-blank ones of exactly `VisitCount` windows |
| `Windows.VisitFacts` | crates/skeg-rigging-ingest/src/chunk.rs:91-111 | every visited window starts inside the text, none but the last reaches the end, and the last does or is followed by nothing |
| `Windows.CoveredExactlyWhen` | crates/skeg-rigging-ingest/src/chunk.rs:91-111 | a line lies in a visited window exactly when it is not in a gap, so with step at most win every line does, in spite of the early exit |
| `Windows.MultBound` | crates/skeg-rigging-ingest/src/chunk.rs:91-111 | a line lies in at most ceil(win/step) windows; windows are disjoint when step is at least win |
| `Windows.EveryLineIsInAChunk` | crates/skeg-rigging-ingest/src/chunk.rs:91-111 | every non-blank line outside the gaps is in an emitted chunk |
| `Windows.EmittedAreWindows` | crates/skeg-rigging-ingest/src/chunk.rs:96-104 | every emitted chunk is a visited window with its right range, its text the joined lines |
| `Windows.ExchangeSums` | crates/skeg-rigging-ingest/src/chunk.rs:91-111 | summing weights window by window equals summing them line by line times the number of windows holding the line |
| `Windows.WindowWordBounds` | crates/skeg-rigging-ingest/src/chunk.rs:91-111 | with step at most win, the words of all chunks lie between the words of the text and ceil(win/step) times that |
| `Windows.DefaultChunkWords` | crates/skeg-rigging-ingest/src/chunk.rs:29-51 | for a file of any extension, between its words and twice as many; exactly its words for prose |
| `Embed.Passage` | crates/skeg-rigging-ingest/src/embed.rs:58-78 | the bucket counts of the words, divided by their norm when it is positive |
| `Embed.CountWords` | crates/skeg-rigging-ingest/src/embed.rs:58-69 | the nested loops leave in every bucket the number of words that hash to it |
| `Embed.XorBits` | crates/skeg-rigging-ingest/src/embed.rs:62-65 | a bit of the exclusive or is set exactly when it is set in one of the two |
| `Embed.FnvEnd` | crates/skeg-rigging-ingest/src/embed.rs:62-66 | bytes are hashed in order, exclusive or first, then the product modulo 2^64 |
| `Embed.FnvOfA` | crates/skeg-rigging-ingest/src/embed.rs:62-66 | the published 64-bit FNV-1a values of the empty text and of "a" |
| `Embed.BucketOfA` | crates/skeg-rigging-ingest/src/embed.rs:64-68 | a word that lower-cases to "a" goes into the bucket that is that value's remainder |
| `Embed.CountsAreWords` | crates/skeg-rigging-ingest/src/embed.rs:58-69 | the counts add up to the number of words |
| `Embed.CountsAdd` | crates/skeg-rigging-ingest/src/embed.rs:58-69 | texts joined by whitespace add their counts |
| `Embed.OrderIsForgotten` | crates/skeg-rigging-ingest/src/embed.rs:58-69 | the counts depend only on the multiset of words |
| `Embed.OverlapBound` | crates/skeg-rigging-ingest/src/embed.rs:29-35 | the inner product of the counts is at least the sum over words of the two texts' counts multiplied, and equals it if and only if no two different words of the texts collide |
| `Embed.SharedPairsAreProducts` | crates/skeg-rigging-ingest/src/embed.rs:29-35 | that sum is the number of pairs of equal words |
| `Embed.SharedWordScoresPositive` | crates/skeg-rigging-ingest/src/embed.rs:58-78 | texts that share a word, in whatever case, get unit vectors with a positive inner product |
| `Overlap.SharedWordIsFound` | crates/skeg-rigging-ingest/src/embed.rs:29-35 | over records embedded by the stub, an exact search for a text that shares a word with an accepted record, in whatever case, starts with a positive score, and lists no record with disjoint buckets before that record |
| `Overlap.IngestedTextIsFound` | crates/skeg-rigging-ingest/src/embed.rs:29-35 | the same from files to hits: the store is what a whole ingest with the stub put into an empty one |
| `Ingest.InsertChunks` | crates/skeg-rigging-ingest/src/lib.rs:122-138 | a file's chunks go in under consecutive ids up to the first that cannot be embedded, has the wrong dimension or is refused; the statistics count exactly those, and each record says what the source says of its chunk: the run's `shareable`, its tags and one naming file and lines, the text's bytes, a vector of the writer's dimension |
| `Ingest.IngestFile` | crates/skeg-rigging-ingest/src/lib.rs:111-140 | the same for a file that may be unreadable |
| `Ingest.IngestTree` | crates/skeg-rigging-ingest/src/lib.rs:80-108 | it succeeds exactly when dimensions agree, every file is readable, every chunk goes in and the flush works; then the j-th chunk of the tree has id start + j; a failure leaves exactly the records before the failing chunk, unpersisted, and all of them when only the flush fails; every record written has the run's `shareable` and its tags followed by exactly one; `progress` gets the cumulative statistics once per completed file |
| `Ingest.ChunkIsStored` | crates/skeg-rigging-ingest/src/lib.rs:111-140 | chunk by chunk what a run stores: the id is the start id plus the number of chunks before it, with `shareable`, tags, source tag, payload and vector of exactly that chunk |
| `Ingest.OneRecordPerChunk` | crates/skeg-rigging-ingest/src/lib.rs:111-140 | and nothing else is stored |
| `Ingest.TagTellsTheSource` | crates/skeg-rigging-ingest/src/lib.rs:124-125 | equal source tags mean the same file and the same lines, whatever the file name holds |
| `Ingest.TagOfLines` | crates/skeg-rigging-ingest/src/lib.rs:124-125 | lines 3 to 17 of a file are tagged with 3 before 17 |
| `Ingest.IngestTwiceIsOnce` | crates/skeg-rigging-ingest/src/lib.rs:80-140 | repeating a run with the same start id leaves the store as one run did, order included |
| `Ingest.ResumedRunIsOneRun` | crates/skeg-rigging-ingest/src/lib.rs:80-140 | a run that failed after any number of records, repeated in full, leaves what one undisturbed run leaves |
| `Ingest.ChainedRunsAreDisjoint` | crates/skeg-rigging-ingest/src/lib.rs:72-74 | a later run that starts at or past the reported next id touches no earlier record |
| `Ingest.TreeWordBounds` | crates/skeg-rigging-ingest/src/lib.rs:122-138 | the word statistic lies between the words of the files and twice as many |
| `Watch.WatchTree` | crates/skeg-rigging-ingest/src/lib.rs:235-271 | the loop over notifications attempts exactly the admitted changes, each at the counter of its time, and writes, reports and persists exactly what those attempts say; every record written has the run's `shareable` and its tags followed by exactly one |
| `Watch.NoticesOfOne` | crates/skeg-rigging-ingest/src/lib.rs:236-243 | a create or modify notification is acted on path by path, an error or another kind is passed over |
| `Watch.NoticesAppend` | crates/skeg-rigging-ingest/src/lib.rs:236-243 | notifications are acted on one after the other |
| `Watch.IngestChange` | crates/skeg-rigging-ingest/src/lib.rs:254-267 | exactly one attempt is added to the history, at the counter; a failed one leaves the counter, a completed one advances it and reports, flushed or not |
| `Watch.ReportIsCumulativeExactlyWhen` | crates/skeg-rigging-ingest/src/lib.rs:203-204 | over every history, the statistics passed to `on_batch` are those of all files so far in the first call and in no other |
| `Watch.PersistedExactlyWhen` | crates/skeg-rigging-ingest/src/lib.rs:259-267 | what an attempt wrote is persisted if and only if it or a later attempt completed and its flush worked |
| `Watch.ReportsOfTwoFiles` | crates/skeg-rigging-ingest/src/lib.rs:254-267 | two one-word files and no working flush: two reports of one file each, the second not cumulative, and nothing persisted |
| `Watch.CommittedStays` | crates/skeg-rigging-ingest/src/lib.rs:254-267 | ids of a completed attempt still hold its records after any later attempts, failed part-way or not |
| `Watch.BelowCounterIsCommitted` | crates/skeg-rigging-ingest/src/lib.rs:254-267 | every id from the start up to the counter belongs to exactly one completed attempt |
| `Watch.AboveCounterIsLeftover` | crates/skeg-rigging-ingest/src/lib.rs:259-266 | at or above the counter the store holds only what failed attempts left there; below the start it is untouched |
| `Watch.AttemptsAreSpaced` | crates/skeg-rigging-ingest/src/lib.rs:230-253 | two attempts on one path are at least 800 ms apart, and the map holds the last attempt's time |
| `Watch.PickedUpExactlyWhen` | crates/skeg-rigging-ingest/src/lib.rs:244-253 | a change is attempted if and only if it is an accepted file and 800 ms have passed since every earlier attempt on its path, failed ones included |
| `Watch.RetryIsLost` | crates/skeg-rigging-ingest/src/lib.rs:259-263 | a file unreadable when first seen and whole a millisecond later is never stored by those two changes |

## Left out

- The internals of `DiskVamanaIndex` (graph search, quantisation, write-ahead log, consolidation):
  not in this repository. Consolidation is taken to preserve content and has no step of its own.
- The reads and writes behind a sidecar: one write is one atomic step, although the code overwrites
  the file in place; a sidecar torn by a crash in mid-write, and readers in other processes, are
  not part of this model. JSON decoding errors are an input of `Tenant.Tenant.Open` and
  `Tenant.Tenant.OpenReadonly` and part of the encoding in `Restore`; runs with crashes have none but
  as a failed `open`.
- A wrong vector length makes the reference tenant panic; here it is a precondition of
  `Mock.MockTenant.Insert`.
- `create_new`, `destroy`, `memory_resident`, the async traits, error conversions, identifier
  display: delegations and placeholders.
- Record ids and byte totals are unbounded naturals; wrap-around at 2^64 is not modelled.
- Rounding, NaN and infinities of 32-bit floats; the square root is a parameter that is exact where
  a theorem needs it.
- The sort of the reference tenant is a stable insertion sort; the standard library's algorithm is
  not modelled, only its contract.
- Blocking `recv` and `recv_timeout`: the filter loop is modelled in `TryRecv` only, the waiting is
  not.
- Directory walking, extension and exclude matching, `notify` itself, HTTP to an embedding server:
  the collected files, the accepted paths and the embeddings are inputs. The embedder is
  deterministic within one attempt.
- A snapshot into a directory inside the tenant, a snapshot racing a writer, and destinations
  holding symbolic links that a copy would follow; a link at a destination counts as a misfit.
- Snapshot.CopyDirContents: works on directory listings as values, so aliasing between source and
  destination and file metadata are not captured; so do `Restore.TakeSnapshot` and
  `Restore.RestoreFrom`.
- Ingest.Writer: the writer is the log of its successful inserts, because the original is generic
  over any writer; the store that log builds is `UpsertAll`.
- The mutex and the subscriber list's mutex are modelled by the atomicity of the steps in
  `EventProtocol`; poisoning and fairness are not.
