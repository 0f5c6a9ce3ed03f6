# A model of disco's store, redaction and coverage ratchet

disco scans cloud accounts into a SQL store that keeps every version of every
resource, walks the resulting graph, and measures how much of each provider's
SDK its scanners cover. This project models the parts whose behaviour is hard to
see from one function and proves what they promise, in Dafny 4.11. Verify it with
`dafny verify dfyconfig.toml`.

The tables are maps and sequences, the store's objects are classes, the source's
loops are methods with invariants, and each method is proved against a
specification function or relation about which the laws are proved. What the main
operations return is also stated in the terms of their callers: options, columns, rows
and characters, without the functions their bodies use.

| files | what they model |
|---|---|
| Chains, Resources, ResourceLaws, ResourceStore | the append-and-supersede table of resources: upsert, insert-if-absent, archive, restore; transactions that fail at any database call; shared counters |
| ResourceColumns | what each operation leaves in every column of the resources table |
| ResourceRetry | the attempts of one retried resource write, commits hidden behind errors included |
| Rescan, ScanCount | what a second scan does, and what a scan's resource_count counts |
| Retry | the write retry and its circuit |
| Quotas | service limits under the same version chains |
| JsonTree, Redact, Volatile, JsonText, RulePath | the rewrites of stored JSON, the comparison that decides on a new version, and the rule paths |
| CodecWitness | a parser and printer of JSON that meet everything assumed of them |
| EdgeReads, Graph, GraphWalk, GraphPath | batched edge reads, the bounded walk, the shortest path |
| Hierarchy | the incremental closure of parent-child pairs and its containment edges |
| Relationships, RelationshipStore, ConcurrentEdges | the keyed edge table, its write buffer, retried writes whose errors may hide a commit, and several writers at once |
| Splitter | cutting migration scripts into statements |
| Coverage, Summaries, Inventory, Baseline | the coverage matrix, its counts, and the ratchet |
| Wrappers, Lex, Sorting, Bars, Firsts | optional values, the order of strings, stable sorting, identities joined by bars, first elements by key |

## Assumptions

- The resource hash is an injective function of the text it hashes, which is the natural
  key joined by vertical bars (`Resources.HashOf`); two keys may join to one text.
- Row ids come from an increasing counter, as version 7 UUIDs do (section 5.7 of
  RFC 9562); ids drawn by rolled-back attempts stay unused.
- A transaction of the resource store is a snapshot that commits or rolls back;
  transactions are serial, as SQLite is opened with one connection.
- `JsonText.Codec.Valid` lists what is assumed of JSON parsing and printing. Numbers are
  finite float64 values, given by their bits, and what is printed is read back up to the
  parser's nesting limit (10000 in encoding/json), for strings of valid UTF-8. The
  assumptions can be met at every limit (`CodecWitness.CodecExists`).
- The identity functions of the coverage matrix (candidate and type identities)
  are arbitrary; so is the iteration order of every Go map.

## Where the code does not do what one might expect

Each of these is a theorem.

- Re-upserting a committed batch inserts nothing if and only if the batch never carries
  one natural key with two payloads (`Rescan.ReupsertInsertsNothing`); the comment
  at store/resources_upsert.go:37-39 has no such condition.
- The id of a resource hashes provider, account and native id joined by bars, so two
  resources can share an id. The history under a row's root_id is the chain of its
  resource if and only if no other key came in under that root_id
  (`ResourceLaws.HistoryIsChain`, `BarredKeysShareHistory`), which is so when no provider
  and no account id contains a bar (`BarFreeHistoryIsChain`). Archiving by root_id leaves
  nothing live if and only if no other key was live under it (`ArchiveLeavesNothingLive`).
- A COMMIT can take effect and still return a connection error, which is retried: the
  rows of the first attempt are then counted by nobody. The count an upsert reports, and
  the shared counters, are the rows it added if and only if no commit was hidden or the
  batch had nothing to add (`ResourceRetry.PublishedExact`); a new resource is added and
  reported as 0 (`NewResourceUncounted`). The retry itself leaves the versions of one
  application if and only if the batch carries no key with two payloads or was applied
  once (`AppliedOnceExact`).
- The walk identifies edges by text joined with vertical bars, so two edges can be taken
  for one and one is lost (`GraphWalk.ShiftedBarLosesEdge`, for any ids and kinds): where
  the cap cut none, exactly the edges offered after another one with their key
  (`LostToEarlier`, `AllEdgesExact`). When every relationship's ends are stored and no
  node was truncated, all seen edges are returned if and only if none was truncated and
  no two of them share a key (the `TellsWhatIsMissing` clause of `GraphWalk.GraphWalk`).
- The hierarchy closure stays exact if and only if each pair is extendable when it is
  recorded (`Hierarchy.RecordKeepsExact`, `RunExact`); a parent recorded late loses a row
  (`LateParentMissesRow`).
- The comment at store/relationships.go:386-388 counts nine closure rows for three levels;
  the statements write six (`Hierarchy.ThreeLevelsWriteSixRows`).
- A failed flush of the relationship buffer loses the edges it took, although the
  edge counter already counted them (`RelationshipStore.RelStore.FlushRelBuffer`).
- Among any number of writers a finished call is lost if and only if its UPDATE ran
  before the key existed and its INSERT after (`ConcurrentEdges.LostExactly`), always to
  another writer of that key (`LostToAnother`). Two writers that race to create one edge
  can leave a row that no serial order of the two explains (`RaceKeepsFirst`).
- Pin comparison reads a missing pin as empty, so it accepts different pins when one
  of them is empty (`Baseline.PinsMatchExact`).
- Passing two ratchets in a row amounts to passing the first directly if and only if the
  first step kept the pins and the second keeps them wherever the outer records agree
  (`Baseline.TwoRatchetsExact`). Otherwise a covered key leaves and comes back uncovered
  (`PinBumpForgetsKey`), or an empty pin hides a falling percent (`EmptyPinHidesDrop`).
- The comment at internal/coverage/inventory.go:145-149 says every gate keys on
  `Paired`; `contradicted` keys on the slice not being nil, so a walk that ran and
  anchored nothing lets a name hide an unexplained type (`Inventory.NilPairingsHide`).

## Model

| member | source | states |
|---|---|---|
| Chains.SplitOrder | store/resources_upsert.go:241-276 | the current-row index holds after the UPDATE half of a split and after the INSERT half; with the halves swapped the INSERT would violate it |
| Chains.SplitKeepsInv | store/resources_upsert.go:241-276 | a split keeps one current row and one root per key, mutually inverse prev and next links, and increasing ids |
| Chains.FirstKeepsInv | store/resources_upsert.go:153-197 | a first discovery under an unoccupied key keeps the same invariant |
| Chains.BodiesKeepInv | store/resources_upsert.go:202-239 | an in-place update of any bodies keeps the invariant |
| Chains.ChainHasCurrent | store/resources_versioning.go:71-88 | from every row the superseded_by links lead to a current row of the same key |
| Chains.ChainHasRoot | store/resources_versioning.go:71-88 | from every row the previous_version_id links lead to a row without predecessor that shares key, root_id and discovery |
| Chains.ChainShares | store/resources_upsert.go:241-276 | all rows of one natural key share root_id, discovered_at and discovered_by |
| Chains.IdOrderIsChain | store/resources_versioning.go:71-88 | the rows of a key in id order are exactly one list from its root to its current row, neighbours linked both ways |
| Resources.StepKeeps | store/resources_upsert.go:122-281 | each of upsert, insert-if-absent, archive, restore and discarded ids keeps the chain invariant, and never changes a superseded row again |
| Resources.RunKeeps | store/resources_upsert.go:122-281 | every run of operations keeps the invariant and freezes superseded rows |
| ResourceColumns.PrepareExact | store/resources_upsert.go:75-90 | before storing, a missing id becomes the hash of provider, account and native id joined by bars, attributes that parse are redacted and stripped by the rules of their type, managed is set for managed types, and every other column stays |
| ResourceColumns.UpsertNew | store/resources_upsert.go:153-197 | a new key gets one row: its id, first discovery, payload, display and verification by this scan, no marks; no other row changes |
| ResourceColumns.UpsertSame | store/resources_upsert.go:202-239 | a payload that compares equal refreshes the current row: display, management, verification; tombstone and placeholder marks are lifted; payload, chain and discovery stay; no other row changes |
| ResourceColumns.UpsertChanged | store/resources_upsert.go:241-276 | a payload that differs in type, attributes or tags gets a new current row in the place of the old one, which changes in superseded_by alone |
| ResourceColumns.BatchScanned | store/resources_upsert.go:202-276 | after a batch the current row of every key says what the last resource with that key says, in payload, display, management and verification, and is neither a tombstone, even if it was archived before, nor a placeholder |
| ResourceColumns.PlaceExact | store/resources_upsert.go:341-369 | a placeholder row carries its resource and is marked as a reference; an occupied key changes nothing |
| ResourceColumns.ArchiveExact | store/resources_archive.go:100-125 | the tombstone repeats every column of the row it supersedes apart from its marks |
| ResourceColumns.RestoreExact | store/resources_archive.go:127-149 | restoring lifts the marks of the archived current rows of the root and changes no other row, of whatever root |
| ResourceLaws.RunRooted | store/resources_upsert.go:75-90 | whatever holds of the key and id of every incoming resource, its own hash or an id the caller gave, holds of every row: no operation makes up a root_id or moves one to another key |
| ResourceLaws.GetResourceVersions | store/resources_versioning.go:71-88 | returns the rows of a root, each once, in (discovered_at, id) order |
| ResourceLaws.HistoryIsChain | store/resources_versioning.go:71-88 | that list is the chain of a resource from root to current row if and only if no other key has rows under its root_id |
| ResourceLaws.BarFreeHistoryIsChain | store/resources.go:108-115 | for resources that carry their own hash this holds whenever no provider and account id contains a bar |
| ResourceLaws.BarredKeysShareHistory | store/resources.go:108-115 | a bar moved from the account into the native id gives two stored resources one id, and the list is the chain of neither |
| ResourceLaws.UpsertRowAdds | store/resources_upsert.go:122-281 | an upsert adds one row exactly when the key is new or the payload differs, and never loses a key |
| ResourceLaws.PlaceRowAdds | store/resources_upsert.go:334-373 | an insert-if-absent adds a row exactly when the key has none, and never touches an occupied key |
| ResourceLaws.ArchiveLeavesNothingLive | store/resources_archive.go:31-125 | after an archive no row of the root is live, if and only if no other key was live under it |
| ResourceLaws.ArchiveTakesOne | store/resources_archive.go:60-125 | an archive takes exactly one live row away from under its root; any other belongs to another key |
| ResourceLaws.ArchiveThenRestore | store/resources_archive.go:34-149 | restoring after archiving leaves one more row, current, with the payload and verification of the archived one, linked to it |
| ResourceStore.ResourceStore.SplitRow | store/resources_upsert.go:241-276 | the two statements of a split run in an order that never violates the index; it fails exactly when one of them does |
| ResourceStore.ResourceStore.UpsertOne | store/resources_upsert.go:142-277 | one iteration of the loop, statement by statement, has the effect of the specified upsert and counts what it added; it fails exactly when one of its two or three calls does |
| ResourceStore.ResourceStore.PlaceOne | store/resources_upsert.go:341-369 | the same for insert-if-absent and its one call |
| ResourceStore.ResourceStore.RunTx | store/resources_upsert.go:122-281 | one attempt fails exactly when one of its database calls, BEGIN and COMMIT included, does; it then leaves the rows untouched unless COMMIT took effect, and otherwise commits the whole batch |
| ResourceStore.ResourceStore.WithWriteRetry | store/retry.go:128-173 | the attempts are those the given faults allow, in a legal retry trace for the circuit; the streak moves by the last outcome; the counts are those of the attempt that committed |
| ResourceStore.ResourceStore.Write | store/resources_upsert.go:92-116 | the published new and changed counts are those of the committed attempt; the rows added beside them are those of attempts whose commit was hidden; nothing is published by a call that fails |
| ResourceStore.ResourceStore.UpsertResources | store/resources_upsert.go:72-117 | reports what its attempts under the given faults did: the result is the rows the committed attempt added, the shared counters grow by exactly it, and it is the growth of the table if and only if no commit was hidden or the batch had nothing to add; without a fault at the first attempt it succeeds; after success, and after every attempt whose commit took effect, the current row of each key says what the last resource with that key says once prepared, marks lifted |
| ResourceStore.ResourceStore.InsertResourcesIfAbsent | store/resources_upsert.go:301-329 | the same for placeholders |
| ResourceStore.ResourceStore.CountersAgree | store/resources_upsert.go:92-116 | in every reachable store the shared counters are the rows other than tombstones if and only if no row was ever added behind an error |
| ResourceRetry.RowsAreCounted | store/resources_upsert.go:92-116 | rows added by a call are the rows it publishes and the rows added by attempts reported as failures |
| ResourceRetry.PublishedExact | store/resources_upsert.go:92-116 | under any faults the published count is the growth of the table if and only if no commit was hidden or the batch had nothing to add; it never exceeds it |
| ResourceRetry.CallScanned | store/resources_upsert.go:72-117 | every attempt that holds, hidden or reported, has left the whole batch in the table |
| ResourceRetry.AppliedOnceExact | store/resources_upsert.go:92-107 | after any attempts the table holds the versions of the first application, refreshed, if and only if the batch is repeatable or no later attempt was applied |
| ResourceRetry.StepAgain | store/resources_upsert.go:37-39 | a table that has just taken a batch has nothing to add for it if and only if the batch carries no key with two payloads or only places what is absent |
| ResourceRetry.HiddenThenClean | store/retry.go:128-173 | a commit hidden behind a transient error and retried leaves every row of the first attempt uncounted, and publishes 0 if and only if the batch is repeatable |
| ResourceRetry.NewResourceUncounted | store/retry.go:50-98 | for any new key: one row is added and the call reports that it inserted none |
| ResourceRetry.ChainRuns | store/resources_upsert.go:92-116 | the attempts of a call are a run of table operations, so every law of runs holds through failures and hidden commits |
| ResourceStore.ResourceStore.ArchiveResource | store/resources_archive.go:34-125 | fails exactly when one of its calls does; archives a live current row of the root if there is one, reports when there is none, and on failure changes nothing unless COMMIT took effect |
| ResourceStore.ResourceStore.Tombstone | store/resources_archive.go:100-125 | the split into a tombstone and its COMMIT: all or nothing, except that a failing COMMIT may take effect |
| ResourceStore.ResourceStore.RestoreResource | store/resources_archive.go:127-149 | lifts every archived current row of the root and reports whether there was one; when the UPDATE fails nothing changes unless it took effect |
| ResourceStore.PrepareAll | store/resources_upsert.go:75-90 | fills in the id, redacts and drops volatile paths for each resource before it is stored |
| Rescan.LastOccurrenceMatches | store/resources_upsert.go:202-239 | after a batch the current row of each key carries the payload of the last resource with that key |
| Rescan.QuietBatch | store/resources_upsert.go:202-239 | a batch adds no row if and only if every resource matches the current row of its key, and then only refreshes bodies |
| Rescan.ReupsertInsertsNothing | store/resources_upsert.go:37-39 | upserting a committed batch again inserts nothing if and only if the batch does not carry one key with two payloads |
| Rescan.DistinctBatchReupsert | store/resources_upsert.go:37-39 | so a batch of distinct natural keys re-upserts to 0 |
| Rescan.HarmlessRescan | store/resources_upsert.go:202-239 | two upserts whose payloads differ only at volatile paths, redacted scalars or display columns keep one version; a new key has one row |
| ScanCount.CountIsKeys | store/scans.go:190-212 | the count expression equals the number of distinct keys whose current row the scan verified |
| ScanCount.RunSeen | store/scans.go:190-212 | through any batching, duplicate emissions and splits, the scan has seen what it had seen, all it upserted, and the absent keys it placed |
| ScanCount.ScanCountsDistinctKeys | store/scans.go:190-223 | for a fresh scan id resource_count is the number of distinct keys upserted plus the absent keys placed |
| Retry.StreakCountsExhausted | store/retry.go:128-173 | the streak equals the number of exhausted writes since the last success |
| Retry.DeadDatabaseAttempts | store/retry.go:128-173 | the exact number of attempts that any number of writes make against a dead database |
| Retry.DeadDatabaseBound | store/retry.go:30-44 | n writes from a closed circuit make at most n + 10 attempts |
| Retry.OpenCircuitFailsFast | store/retry.go:128-173 | once open, every write makes one attempt until one commits |
| Retry.RetryableExact | store/retry.go:50-110 | never a cancelled scan; a server error by its code alone: class 08, 57P01 to 57P03, 53300; SQLite contention by the low byte 5 or 6; otherwise bad or late connections |
| Retry.AttemptsExact | store/retry.go:128-141 | three attempts, and one inside a transaction of the caller's own or after five exhausted writes in a row |
| Retry.StreakExact | store/retry.go:143-173 | a commit ends the streak, an exhausted transient failure lengthens it, another failure leaves it |
| Quotas.RunKeeps | store/quotas.go:423-514 | every reachable quota table is well linked, neighbouring versions differ in a compared limit, and no compared column ever changes in place |
| Quotas.ChangedOnlyExact | store/quotas.go:257-262 | a current row passes ChangedOnly if and only if its chain holds two different limits |
| Quotas.SameLimitExact | store/quotas.go:549-557 | limits are compared in eight columns, numbers with NULL apart, texts with NULL as the empty text |
| Quotas.UpsertNew | store/quotas.go:605-639 | a new quota gets one row with its id, first discovery, limit, labels and verification |
| Quotas.UpsertSame | store/quotas.go:479-505 | an unchanged limit refreshes labels and verification of its row in place and nothing else |
| Quotas.UpsertChanged | store/quotas.go:641-667 | a limit that differs in a compared column gets a new version in the place of the old one, which changes in superseded_by alone |
| Quotas.BatchStored | store/quotas.go:465-514 | after a batch the current row of every key carries the value, default, adjustable flag, period value and four texts of the last quota with that key, its labels and this verification |
| Quotas.BatchAdds | store/quotas.go:465-514 | a batch of distinct keys adds one row for every quota that is new or differs in a compared column from the current row of its key |
| Quotas.QuotaStore.InsertFirstQuota | store/quotas.go:605-639 | inserts a root row unless the key is occupied |
| Quotas.QuotaStore.SplitQuota | store/quotas.go:641-667 | supersedes, then inserts the successor; the index holds at both statements |
| Quotas.QuotaStore.UpsertQuota | store/quotas.go:469-511 | the loop body: insert, verify in place when no compared limit changed, or split; the current row then carries the quota, and a row is added exactly unless the key had one with the same eight columns |
| Quotas.QuotaStore.UpsertQuotasOn | store/quotas.go:465-514 | the table becomes what the batch makes of it, the result is the number of rows added, limits of existing rows are frozen; the current row of every key carries the last quota with that key |
| EdgeReads.AnswerUnique | store/relationships.go:264-310 | the ORDER BY of an edge query leaves one possible answer |
| EdgeReads.Relationships | store/relationships.go:264-310 | RelationshipsFrom and RelationshipsTo return that answer for one node; in terms of columns: exactly the rows at the node with the kinds, by kind and other end |
| EdgeReads.RelationshipsByEndpoint | store/relationships.go:314-367 | sorting, deduplicating and chunking the ids by any positive batch size gives the answer for the whole id set; in terms of columns: exactly the rows at the ids with the kinds, by matched end, kind and other end |
| EdgeReads.Group | store/relationships.go:369-379 | buckets keep the order of the rows |
| EdgeReads.BucketIsPerNodeRead | store/relationships.go:312-380 | the bucket of a node in a batched read is what reading that node alone returns |
| EdgeReads.PerNodeHops | store/graph.go:207-252 | reading node by node, out edges then in edges, gives the hop sequence |
| EdgeReads.FrontierHops | store/graph.go:207-252 | the batched frontier read replays that very sequence, for every frontier, kinds, direction and batch size |
| EdgeReads.HopsExact | store/graph.go:207-252 | a hop occurs in it exactly when its origin is in the frontier and its edge is one of the asked kinds in the asked direction |
| Graph.MatchTypeGlob | store/graph.go:605-625 | a type matches when some pattern equals it or is a prefix pattern of it |
| GraphPath.RecordFrontier | store/graph.go:387-430 | every unseen neighbour gets a parent pointer from an edge of the frontier, seen ones keep theirs |
| GraphPath.FilterLayer | store/graph.go:361-384 | missing and excluded nodes are dropped again, managed ones end their branch, the goal is always hit |
| GraphPath.ExpandStep | store/graph.go:336-385 | one layer keeps the search invariant one level deeper, or hangs the goal in the tree |
| GraphPath.PathsAreLonger | store/graph.go:318-333 | while the goal has not been met, every admissible path is longer than the depth searched |
| GraphPath.WalkBack | store/graph.go:445-455 | the walk over parent pointers terminates and returns one edge per level |
| GraphPath.Reverse | store/graph.go:456-462 | swapping from both ends reverses the list |
| GraphPath.WalkIsAdmissible | store/graph.go:444-484 | the reversed walk is an admissible path |
| GraphPath.ReconstructPath | store/graph.go:444-484 | returns that path with consecutive nodes joined by the returned edges |
| GraphPath.Search | store/graph.go:318-333 | finds a shortest admissible path within the limit or reports none |
| GraphPath.GraphPath | store/graph.go:291-334 | in terms of the options alone: a shortest path through stored resources along relationships of the asked kinds and direction, its inner nodes neither excluded nor, unless included, managed; with MaxDepth between 1 and 64 ErrNoPath exactly when every such path has more than MaxDepth edges, and otherwise more than 64; the other errors exactly as documented |
| GraphWalk.CollectNext | store/graph.go:218-254 | the candidates of a layer are the unvisited non-empty neighbours |
| GraphWalk.CollectFrontierEdges | store/graph.go:207-254 | the hops of a frontier in per-node order and the unvisited ids they lead to |
| GraphWalk.ClassifyExcluded | store/graph.go:256-273 | exactly the existing excluded nodes are excluded; those a type pattern matches are counted as types, the others as regions |
| GraphWalk.AdmitEdges | store/graph.go:122-136 | edges with an excluded end are dropped; of all edges offered so far, those of earlier layers included, the recorded ones are exactly the first under their keys, in order, up to the cap; the counter is the number of offered edges whose key was not recorded |
| GraphWalk.AdmitNodes | store/graph.go:138-164 | the admissible ids in increasing order until the cap is reached, each one level deeper; those to be expanded are the next frontier, in order; the counter is the number of admissible ids left out |
| GraphWalk.WalkLayer | store/graph.go:101-165 | one layer keeps what is recorded, offered, ordered and counted one level deeper |
| GraphWalk.CompleteExact | store/graph.go:138-165 | a layer is complete exactly when the ones before were and it took every admitted neighbour |
| GraphWalk.EdgesCompleteExact | store/graph.go:122-136 | its edges are complete exactly when those before were and it lost none |
| GraphWalk.NearestFirstGrows | store/graph.go:138-164 | whatever was admitted comes before whatever the cap left out, by level and then by id |
| GraphWalk.HopsUnbarred | store/graph.go:118-128 | what a layer offers are its hops that lead to no excluded node, in order |
| GraphWalk.MetAdds | store/graph.go:154-157 | a layer adds to each counter of nodes the candidates that met their fate in it: cut by the cap, excluded by type, excluded by region |
| GraphWalk.NodesExact | store/graph.go:100-165 | a layered and complete walk has visited exactly the nodes within admissible distance MaxDepth, each at its distance |
| GraphWalk.AllNodesComplete | store/graph.go:36-38 | conversely a result with all nodes left no admitted neighbour behind |
| GraphWalk.SeenEndsAdmitted | store/graph.go:167-185 | in a walk that lost no node both ends of every seen edge are in the result, if every end is stored |
| GraphWalk.PruneDanglingEdges | store/graph.go:188-205 | keeps exactly the edges with both ends admitted, still distinct |
| GraphWalk.Finish | store/graph.go:167-185 | the result is sorted, closed over its nodes and within both caps, its edge keys are distinct, and its counters tell what is missing |
| GraphWalk.GraphWalk | store/graph.go:75-205 | in terms of the options alone the whole result: the nodes hang together from the seed, each once, in (depth, id) order, and come before all the cap left out; the edges offered are determined by the nodes, depth by depth in id order, and the result has exactly the first ones under their texts up to the cap whose ends are listed, in (from, kind, to) order; each of the four counters is the number of what it counts; the node counter is zero if and only if the nodes are exactly those within distance MaxDepth at their distances; with a zero edge counter and no clash of edge keys the edges are exactly the seen ones, and only then where all ends are stored and no node was truncated; the errors exactly as documented |
| GraphWalk.BarFreeKeys | store/graph.go:95-98 | edge keys identify edges whose from and kind have no vertical bar |
| GraphWalk.ShiftedBarLosesEdge | store/graph.go:95-136 | for any ids and kinds, an uncapped and unfiltered walk over two edges that differ by a shifted bar sees both, admits all their ends and returns at most one |
| GraphWalk.BarFreeGraphIsClashFree | store/graph.go:95-136 | a graph without bars in from and kind has no clash |
| GraphWalk.AllEdgesOnlyWithoutClash | store/graph.go:95-136 | where every end is stored and no node was lost, a result with all seen edges means no two of them share a key and none was truncated |
| GraphWalk.LostToEarlier | store/graph.go:122-136 | where the cap cut none, a seen edge with both ends admitted is missing if and only if another edge with its key was offered before it, stored ends or not |
| GraphWalk.AllEdgesExact | store/graph.go:95-136 | so all edges are returned if and only if every admitted seen edge is the first under its key |
| Hierarchy.EveryRowJustified | store/relationships.go:433-447 | for every order of calls each row (a, d, k) is justified by a chain of k recorded pairs from d up to a |
| Hierarchy.RecordKeepsExact | store/relationships.go:433-447 | recording a pair keeps the table the exact reflexive-transitive closure if and only if the pair is extendable in the table |
| Hierarchy.RunExact | store/relationships.go:433-447 | the table is exact after every call of a run if and only if every call was extendable |
| Hierarchy.TopDownExact | store/relationships.go:433-447 | runs in which each parent has its self row and each new child no descendants, or a pair is recorded again, are exact throughout |
| Hierarchy.RecordAgain | store/relationships.go:433-447 | recording a pair twice in a row is recording it once, in every table |
| Hierarchy.ThreeLevelsWriteSixRows | store/relationships.go:383-388 | organisation, folder and project recorded top-down leave exactly six rows at their depths, for any three nodes |
| Hierarchy.LateParentMissesRow | store/relationships.go:433-447 | giving a node its parent after its child was recorded loses a row of the closure, for any three nodes |
| Hierarchy.ForestDepth | store/relationships.go:433-447 | in a forest every depth is the length of the only chain between its ends |
| Hierarchy.ReversedExact | store/relationships.go:231-251 | acyclic pairs leave no reversed contains row; with an exact closure and no missing endpoint, a cycle leaves one |
| Hierarchy.MissingExact | store/relationships.go:508-531 | the batch counts the pairs with a missing endpoint and keeps the first |
| Hierarchy.HierarchyStore.RecordHierarchyTx | store/relationships.go:433-470 | one pair: both closure statements, and the contains row exactly when both distinct endpoints exist |
| Hierarchy.HierarchyStore.RecordHierarchyBatch | store/relationships.go:491-532 | one transaction for all pairs: everything recorded and the missing ones reported, or nothing changed; a contains row is there exactly if it was or its pair of stored nodes is in the list, and the report counts the other pairs of distinct nodes |
| Hierarchy.HierarchyStore.ReversedContainsEdges | store/relationships.go:231-251 | returns exactly the reversed rows; none for acyclic pairs; a row is reversed exactly when the closure has its ends the other way round at a positive depth |
| Relationships.LookupUpsert | store/relationships.go:136-174 | an upsert replaces the attributes at its key, keeps a direction already there, and leaves other keys alone |
| Relationships.RunExact | store/relationships.go:84-174 | after any upserts there is one row per key, with the last writer's attributes and the first writer's direction |
| Relationships.WrittenTwiceIsOnce | store/relationships.go:176-184 | writing a batch that had already been written, under another time, leaves the rows, in the same order, that the later writing alone leaves |
| Relationships.FlushIsDirect | store/store.go:204-233 | buffering any calls and flushing leaves the same rows in the same order as running them directly, apart from discovered_at |
| RelationshipStore.TriesLegal | store/retry.go:128-173 | the attempts of a write form a legal retry trace for the circuit's limit |
| RelationshipStore.RetriesWriteOnce | store/retry.go:117-173 | whatever the database refuses, and whatever took effect behind an error, a write that succeeds leaves the rows of its last attempt alone, and one that fails those of no attempt or of one whose error hid it |
| RelationshipStore.RelStore.WriteOne | store/relationships.go:150-165 | one direct attempt: UPDATE, count of rows, INSERT when nothing matched, with an error at any of them before or after it took effect |
| RelationshipStore.RelStore.WriteMany | store/relationships.go:189-229 | one attempt at a batch: all edges in order, or none unless the commit itself took effect behind its error |
| RelationshipStore.RelStore.WithWriteRetry | store/retry.go:128-173 | the loop makes the specified attempts within the circuit's limit and moves the shared streak by the last of them |
| RelationshipStore.RelStore.BeginRelBuffer | store/store.go:204-219 | a copy on the same table and counter with a fresh empty buffer |
| RelationshipStore.RelStore.UpsertRelationship | store/relationships.go:136-174 | a buffered call only appends; a direct one that succeeds has made the specified upsert once, one that fails has left the rows alone or, behind an error that hid it, made it once; the counter moves on success and the streak as the attempts say |
| RelationshipStore.RelStore.UpsertRelationships | store/relationships.go:179-229 | a batch that succeeds is written once at the time of its last attempt; one that fails changes nothing unless an error hid a commit; the streak moves as the attempts say |
| RelationshipStore.RelStore.FlushRelBuffer | store/store.go:221-233 | takes and clears the buffer before writing, so a failed flush loses its edges, of which none is written unless an error hid the commit |
| RelationshipStore.UpsertRow | store/relationships.go:205-227 | the two statements of one edge inside the transaction make the specified upsert |
| ConcurrentEdges.InterleavingIsSerial | store/relationships.go:84-174 | under any interleaving of statements the table is the one a serial run of the calls that took effect leaves |
| ConcurrentEdges.OneRowPerKey | store/relationships.go:84-174 | so there is one row per key, holding the last effective attributes and the first effective direction |
| ConcurrentEdges.FinishedKeysPresent | store/relationships.go:84-174 | at every point a key is present exactly when it was there at the start or a writer of it has finished |
| ConcurrentEdges.ExistingKeyLosesNothing | store/relationships.go:106-123 | on a key that was there at the start every finished writer took effect |
| ConcurrentEdges.EffectiveExact | store/relationships.go:84-174 | the effective calls are exactly those of the writers one of whose statements took effect |
| ConcurrentEdges.LostExactly | store/relationships.go:114-123 | for any writers and schedule a finished writer took no effect if and only if its UPDATE ran before the key existed and its INSERT after |
| ConcurrentEdges.LostToAnother | store/relationships.go:114-123 | a lost call is lost to another writer of the same key that took effect |
| ConcurrentEdges.RaceKeepsFirst | store/relationships.go:114-123 | two racing creators keep the first insert and lose the other; a serial order explains the outcome if and only if directions or contents agree |
| Splitter.SplitStatements | store/migrate.go:95-172 | the index loop computes the specified statements, for every byte string: in order, the trimmed text of exactly the chunks that are not dropped, where a chunk is dropped if it is blank or every line of it, a longest stretch without newline, trims to nothing or starts with two dashes |
| Splitter.LexStep | store/migrate.go:121-168 | one step of the loop consumes bytes and moves the comment and dollar-quote state so that the next cut stays where it is |
| Splitter.FindOpener | store/migrate.go:147-163 | finds the opening dollar tag, or none |
| Splitter.FlushBuffer | store/migrate.go:103-120 | a chunk contributes its trimmed text unless it is blank or every line of it trims to nothing or starts with two dashes |
| Splitter.IsAllComment | store/migrate.go:109-116 | decides whether every longest stretch without newline trims to nothing or starts with two dashes |
| Splitter.FlushExact | store/migrate.go:103-120 | a chunk contributes its trimmed text or nothing, and nothing exactly when it is blank or only comment lines |
| Splitter.LinesExact | store/migrate.go:109-110 | the lines of a text are its longest stretches without a newline |
| Splitter.TrimExact | store/migrate.go:104-104 | trimming takes white-space characters from both ends and leaves none at either end |
| Splitter.IsSpaceExact | store/migrate.go:104-104 | white space is what encodes a code point with the White_Space property |
| Splitter.CutsExactlyAtExposedSemicolons | store/migrate.go:95-172 | the script is cut at i if and only if i holds a semicolon and the text before leaves the lexer outside comments and dollar quotes |
| Splitter.FirstExact | store/migrate.go:121-168 | the first token is a comment with its first newline, a tag with everything up to the next same tag, or any other byte |
| Splitter.CutsBetweenTokens | store/migrate.go:95-172 | the script is cut at exactly the semicolons that stand after a list of complete tokens |
| Splitter.PiecesJoin | store/migrate.go:95-172 | the pieces joined by semicolons are the script: nothing is lost between cuts |
| Splitter.StatementsWellFormed | store/migrate.go:95-172 | every statement is trimmed, not blank, not only comments, has no exposed semicolon; only the last may leave a quote open |
| Splitter.SplitJoin | store/migrate.go:95-172 | splitting statements joined by newline, semicolon, newline gives them back if and only if the splitter could have emitted them |
| Splitter.SplittingIsStable | store/migrate.go:86-172 | joining and splitting a script's statements gives the same list, and each statement splits into itself |
| Redact.ApplyInPlace | internal/redact/apply.go:10-42 | the loops over fields and items compute the specified rewrite of one rule |
| Redact.ApplyEachRule | internal/redact/apply.go:83-98 | the rule loop applies the rules in turn |
| Redact.RedactAllScalarsInPlace | internal/redact/apply.go:61-81 | the recursive overwrite computes the specified one |
| Redact.RedactionExact | internal/redact/apply.go:10-98 | at every path: a non-null scalar covered by some rule becomes the placeholder, everything else, keys, lengths and nulls included, stays |
| Redact.RedactionOrderFree | internal/redact/apply.go:83-98 | two lists of the same rules, in any order and repetition, redact alike |
| Redact.RedactionIdempotent | internal/redact/apply.go:83-98 | redacting twice is redacting once |
| Volatile.DropEachPath | internal/volatile/volatile.go:70-103 | the path loop drops the specified keys |
| Volatile.DropExact | internal/volatile/volatile.go:70-103 | at every path: what lies at or under a volatile path is gone, the rest stays |
| Volatile.RedactionCommutesWithDrop | internal/volatile/volatile.go:81-103 | redaction and the volatile drop commute |
| Volatile.DropIdempotent | internal/volatile/volatile.go:81-103 | dropping twice is dropping once |
| Volatile.NormaliseIdempotent | store/resources_upsert.go:75-90 | a stored payload stored again does not change |
| Redact.RedactionKeepsShallow | internal/redact/apply.go:83-98 | redaction nests no deeper |
| Volatile.DropKeepsShallow | internal/volatile/volatile.go:81-103 | neither does the volatile drop |
| JsonText.CanonKeepsShallow | store/resources_versioning.go:134-163 | canonical forms stay within the parser's nesting limit, so they are read back |
| CodecWitness.CodecExists | store/resources_versioning.go:102-163 | at every nesting limit some parser and printer meet all that is assumed of the JSON codec |
| Volatile.StoredAlike | store/resources_upsert.go:75-90 | two payloads are stored alike if and only if they differ only at volatile paths or redacted scalars |
| JsonText.CanonDecides | store/resources_versioning.go:134-163 | canonical forms are equal if and only if the documents are the same, strings that spell documents included |
| JsonText.JsonEqualExact | store/resources_versioning.go:102-132 | jsonEqual holds if and only if the texts are equal or spell the same document |
| JsonText.JsonEqualTransitive | store/resources_versioning.go:102-132 | jsonEqual is symmetric and transitive, texts that do not parse included |
| JsonText.EmbedsExact | store/resources_versioning.go:147-155 | a string is taken for a document exactly when it spells an object or an array |
| JsonText.LooksExact | store/resources_versioning.go:147-150 | it is tried exactly when a brace or bracket follows nothing but white space |
| JsonText.NormaliseTextIdempotent | store/resources_upsert.go:75-90 | normalising stored text again changes nothing |
| JsonText.HiddenDifferencesCompareEqual | store/resources_versioning.go:102-132 | texts that differ only where the store hides compare equal after normalisation |
| RulePath.AppendPart | internal/redact/path.go:33-52 | one part contributes its literal or map wildcard and its array wildcards |
| RulePath.PartExact | internal/redact/path.go:33-52 | a part is its text before the trailing pairs of brackets: nothing, a map wildcard for an asterisk, or the literal, followed by one array wildcard per pair |
| RulePath.CompilePath | internal/redact/path.go:28-54 | the loop over dotted parts computes the specified segments |
| RulePath.PathExact | internal/redact/path.go:28-54 | a compiled path is the segments of its longest stretches without a dot, one after the other |
| RulePath.CompileUndoesPrint | internal/redact/path.go:19-54 | compiling a printed segment list gives the list back if and only if every literal is spellable |
| Baseline.NewBaseline | internal/coverage/baseline.go:33-57 | a provider is recorded exactly if a matrix names it, with what the last of them says: pins, pairing, percent, counts and names |
| Baseline.RecordKeepsNames | internal/coverage/baseline.go:41-53 | the record keeps exactly the covered, uncovered and unexplained names of the rows, as often as they occur, sorted |
| Baseline.Merge | internal/coverage/baseline.go:62-71 | the result is the old record overlaid by the new |
| Baseline.MergeGuards | internal/coverage/baseline.go:59-71 | providers that did not run stay guarded by their old record |
| Baseline.MapsEqual | internal/coverage/baseline.go:205-215 | the loop over one map decides pin agreement as Go reads it, a missing pin being empty |
| Baseline.PinsMatchExact | internal/coverage/baseline.go:205-215 | agreement is equality for all second arguments if and only if the first has no empty pin |
| Baseline.CompareProvider | internal/coverage/baseline.go:144-200 | the five passes and the percent report the specified drifts in order |
| Baseline.CompareBaseline | internal/coverage/baseline.go:131-203 | every matrix is compared with its provider's record; so each kind of drift is reported exactly under its condition on the record and the rows |
| Baseline.DriftsExact | internal/coverage/baseline.go:131-203 | a drift is reported exactly when some matrix owes it: a missing record, another pairing mode, or, per key, regressed, new since, gone since, denominator shrunk, newly unexplained, pins changed, percent fallen, each with its condition on the record and the rows of the run |
| Baseline.FatalExact | internal/coverage/baseline.go:107-115 | exactly five kinds fail the run |
| Baseline.RatchetExact | internal/coverage/baseline.go:117-203 | a provider reports no fatal drift if and only if modes agree, no baseline covered key is uncovered, no type is newly unexplained and, under the same pins, no covered key left and the percent did not fall |
| Baseline.RunPassesExact | internal/coverage/baseline.go:117-203 | a run passes if and only if each provider has a record and meets these demands |
| Baseline.SamePinsExact | internal/coverage/baseline.go:126-203 | under the same pins every baseline covered key must still be covered and nowhere uncovered |
| Baseline.OwnBaselineIsQuiet | internal/coverage/baseline.go:33-57 | comparing a run with its own record reports nothing if and only if no matrix lists a key as both covered and uncovered |
| Baseline.TwoRatchets | internal/coverage/baseline.go:126-203 | passing two ratchets in a row implies passing the first directly when the first step kept the pins and the second keeps them wherever the outer records agree |
| Baseline.PinBumpForgetsKey | internal/coverage/baseline.go:126-203 | when the first step changed the pins some measured matrices pass twice and not directly, losing any given key, whatever the last pins |
| Baseline.EmptyPinHidesDrop | internal/coverage/baseline.go:186-215 | when the outer pins agree and the last two do not some measured matrices pass twice and not directly, their percent falling from 100 to 50 |
| Baseline.TwoRatchetsExact | internal/coverage/baseline.go:126-215 | for any three pin sets, all measured matrices with them that pass twice pass directly if and only if the first step kept the pins and the last two agree whenever the outer two do |
| Baseline.PlainMeasured | internal/coverage/inventory.go:458-538 | one service's candidates with distinct keys, with their counts and split reports, are a matrix a summary can describe |
| Inventory.PairedTypes | internal/coverage/inventory.go:161-172 | a key is listed exactly when a proving pairing names it, with the union of the types stored |
| Inventory.TypesByIdent | internal/coverage/inventory.go:173-180 | each identity goes to the first emitted type that answers to it |
| Inventory.BestType | internal/coverage/inventory.go:658-690 | the least type with the candidate's identity, else the least sharing its leaf, else the only one, else none |
| Inventory.BestUnique | internal/coverage/inventory.go:658-690 | that choice is unique, so map iteration order does not matter |
| Inventory.AssignPairedTypes | internal/coverage/inventory.go:602-622 | the full sorted list is kept when several types are paired |
| Inventory.AllTypes | internal/coverage/inventory.go:602-622 | the list is the paired types without an unnamed one, each once, in order |
| Inventory.Evidence | internal/coverage/inventory.go:183-200 | pairing first, then sidecar, then an uncontradicted name match |
| Inventory.CandidateRow | internal/coverage/inventory.go:183-219 | the row of a candidate shows that evidence in the right bucket; a candidate is covered exactly when it is a non-preview resource with evidence |
| Inventory.BuildInventory | internal/coverage/inventory.go:159-239 | one row per candidate, one per unaccounted type, sorted with ties in the order they came, and a summary of them; every row also in terms of the inputs alone |
| Inventory.RowExact | internal/coverage/inventory.go:182-219 | the row of a candidate in terms of the pairings, the emitted types in order and the candidate: which type it shows, which list, which reason, which bucket and which signals |
| Inventory.LeftOverExact | internal/coverage/inventory.go:221-235 | exactly the types that no candidate is paired with, or unlisted names first, have a row of their own, with the reason: pairing unavailable, explained, or unexplained |
| Inventory.RowOrderExact | internal/coverage/inventory.go:547-565 | rows are ordered by bucket in the order of the report, service, key and type |
| Inventory.LeafExact | internal/coverage/inventory.go:668-669 | the leaf of an identity is the text after its last slash |
| Inventory.SortedInReportOrder | internal/coverage/inventory.go:551-565 | the report order is a permutation, sorted, and stable for rows that tie |
| Inventory.DiscoOnlyExact | internal/coverage/inventory.go:221-235 | an emitted type has its own row if and only if no candidate is paired with it or is, unlisted, the first to match it by name uncontradicted |
| Inventory.EveryTypeHasOneHome | internal/coverage/inventory.go:181-235 | every emitted type is named on a candidate's row or has its own row, and never both |
| Inventory.UnexplainedStaysVisible | internal/coverage/inventory.go:651-656 | an unexplained, unpaired type keeps its own row if and only if pairings are not nil or no candidate's name matches it first |
| Inventory.NilPairingsHide | internal/coverage/inventory.go:145-149 | a walk that ran but left a nil slice lets a name hide an unexplained type |
| Inventory.CountsConserve | internal/coverage/inventory.go:182-238 | the denominator counts the resource candidates, disco-only the unaccounted types, the first four buckets all candidates |
| Summaries.Summarize | internal/coverage/inventory.go:458-538 | one pass over the rows gives the counts and the three split reports: every count is the number of rows of its kind, every report has one line for every label, with the covered and uncovered rows of the label, in its order |
| Summaries.SummarySays | internal/coverage/inventory.go:458-538 | the summary in terms of the rows alone: each count is a number of rows in a bucket, each split line the covered and uncovered rows with its label; depths in order, rules with the biggest slice first, services with the largest gap first, ties by label |
| Summaries.Lines | internal/coverage/inventory.go:507-536 | a split map read in any order becomes the report: one line per label, sorted |
| Summaries.SummaryUnique | internal/coverage/inventory.go:458-538 | the summary does not depend on map iteration order |
| Summaries.SplitsConserve | internal/coverage/inventory.go:458-538 | the lines of a split sum to the covered and uncovered totals |
| Summaries.SummaryConserves | internal/coverage/inventory.go:458-538 | all three splits sum to the same totals, and the buckets to the rows |
| Coverage.Percent | internal/coverage/inventory.go:540-545 | the percent lies between 0 and 100, is 100 exactly when nothing is uncovered and something covered, 0 exactly when nothing is covered |
| ResourceStore.ResourceStore.Lookup | store/resources_upsert.go:130-150 | finds the current row of a natural key, or none |
| ResourceStore.ResourceStore.InsertOrSkip | store/resources_upsert.go:176-197 | INSERT ... ON CONFLICT DO NOTHING: affects no row exactly when the key has a current one |
| ResourceStore.ResourceStore.InsertStrictly | store/resources_upsert.go:259-274 | an INSERT without conflict clause violates the index exactly when the key has a current row |
| ResourceStore.ResourceStore.MarkSuperseded | store/resources_upsert.go:252-258 | the first half of a split keeps the index |
| ResourceStore.ResourceStore.UpdateBody | store/resources_upsert.go:220-239 | the verify-only UPDATE changes one body and keeps the index |
| ResourceStore.ResourceStore.LookupLive | store/resources_archive.go:60-96 | finds the live current row of a root, or none |
| Quotas.QuotaStore.CurrentQuota | store/quotas.go:582-603 | finds the current row of a quota key, or none |
| Redact.ApplyToFields | internal/redact/apply.go:24-29 | the map wildcard rewrites every field, in whatever order the map is iterated |
| Redact.ApplyToItems | internal/redact/apply.go:30-35 | the array wildcard rewrites every item |
| EdgeReads.Select | store/relationships.go:342-364 | a query returns the matching rows in the order of its ORDER BY |
| Lex.SortUnique | store/relationships.go:346-346 | the ids once each, in increasing order |
| Lex.SortedSet | store/graph.go:138-139 | the members of a set, once each, in increasing order |
| Sorting.StableSortOrdered | internal/coverage/inventory.go:551-565 | nothing in the sorted list stands before a lesser element |
| Sorting.StableSortStable | internal/coverage/inventory.go:551-565 | elements that tie keep their relative order |
| Graph.IsExcluded | store/graph.go:262-270 | excluded by a type pattern or by region |
| Graph.ExcludedExact | store/graph.go:605-625 | a resource is excluded exactly when its type is named literally, or by a stem before a final asterisk, or its region is named |
| Graph.DirectionsExact | store/graph.go:75-86 | exactly out, in, both and the empty text are directions; out and both follow relationships forwards, in and both backwards, the empty text is both |
| Graph.LeadsExact | store/graph.go:207-252 | a relationship is followed from u to v exactly when its kind is asked for, or none is, and it points the asked way |
| EdgeReads.AnswerExact | store/relationships.go:264-310 | a read returns exactly the relationships at the ids with the kinds, ordered by kind and other end, and by the matched end first where several nodes are read |
| Lex.LessExact | store/relationships.go:264-310 | a text is less than another exactly when it runs out or has the lesser character where they first differ |
| GraphPath.BuildNodes | store/graph.go:471-479 | the nodes of the path with their distance from the start |
| GraphWalk.GrownWalking | store/graph.go:101-165 | one uncapped layer keeps levels, frontier and completeness one level deeper |
| Baseline.CompareUncovered | internal/coverage/baseline.go:155-162 | the pass over uncovered keys reports regressions and new keys |
| Baseline.CompareCovered | internal/coverage/baseline.go:163-167 | the pass over covered keys reports new keys |
| Baseline.CompareLost | internal/coverage/baseline.go:168-184 | the pass over the baseline covered keys reports those that left, fatally under the same pins |
| Baseline.CompareShrunk | internal/coverage/baseline.go:185-192 | the pass over the baseline uncovered keys reports a shrunk denominator |
| Baseline.CompareUnexplained | internal/coverage/baseline.go:193-197 | the pass over unexplained types reports new ones |
| Inventory.Place | internal/coverage/inventory.go:201-218 | the bucket switch, with the signal that survives an exclusion |
| Inventory.AppendDiscoRows | internal/coverage/inventory.go:221-235 | the second loop appends a row for every type nobody accounts for |

## Left out

- GraphPath: database errors in the middle of a search are not modelled; the answer is for a table that does not change while it is searched.
- ApplyInPlace: JSON trees are values, so overwriting nested maps and arrays in place is modelled without aliasing; the loops and the results are the source's.
- DropEachPath: the same holds for deleting keys in nested maps.
- UpsertResources: `noteNativeIDType` warnings are not modelled; fields filled in on the caller's resources are modelled on values; how many row ids a rolled-back attempt draws is not stated.
- ScanCountsDistinctKeys: writing the count and the status into the scan row is left out.
- UpsertQuotasOn: failing statements and the retry of quota writes are not modelled again; they are those of the resource store.
- WithWriteRetry: recovery warnings and the wrapping of the final error are left out; writes inside a transaction of the caller's own, which get one attempt, are covered by `Retry` and not by the stores.
- RecordHierarchyBatch: a database error is placed between two pairs, since no statement of a rolled-back batch can be seen; the text of the warning is its count and first pair.
- CompareBaseline: detail texts that are formatted from maps and percents are left empty; percents are reals, so floating-point rounding is not modelled.
- CandidateRow: op labels, scope, parent and refs cells are presentation and left out.
- GraphAll and ListRelationships: a filter over whole tables.
- CrossCheck, pairNearNames, Filter, TypeRefs: reports over finished rows.
- ListResources, ResolveResource, ResolveQuota, scan status and warning rows, region registries: single-branch queries.
- SQL text, dialects, parameter limits, connection pooling, row-level security, and Postgres isolation of concurrent version splits.
- SHA-256, UUID generation, clocks and JSON text itself, which are parameters or assumptions above.
- Provider scanners, SDK extraction, policy evaluation, snapshots and the command line.
