# Scriptum: a verified model of its core

Scriptum keeps Markdown documents as shared texts that people, agents and files edit at
the same time. This project models the parts of it on which a document's content, its
place in a workspace and its way to other peers depend, and proves what those parts are
for. Everything is Dafny 4.11; `dafny verify dfyconfig.toml` checks the whole project.

| files | component |
|---|---|
| `EditDistance`, `Myers` | the greedy diagonal diff with its trace and backtracker, over any element type |
| `Patch`, `Coalesce`, `TextDiff` | byte-addressed patch operations, the line diff refined by characters, applying with a running offset |
| `DnsName`, `DnsNormalForm` | the mDNS name decoder with its step budget, the encoder, normal forms |
| `DnsPacket`, `DnsResponse`, `DnsTxt`, `DnsDamage` | the record scanner, on written and on damaged packets |
| `DocCache`, `CacheRuns` | the document cache with subscriber counts, logical ticks and a memory budget |
| `Sections`, `SectionPaths` | section slugs, stable ids and the heading tree |
| `Replay` | snapshot-plus-log history replay |
| `Outbox`, `OutboxLedger` | the retry queue towards the relay |
| `Leases`, `LeaseRuns` | advisory section leases in memory and in the database |
| `WikiLinks`, `WikiRender` | the wiki link scanner and its inverse |
| `Utf8`, `Strings`, `Base` | text encoding and the string operations the code takes from its standard library |

## How the main results are built

**Diff.** `EditDistance.Dist` is the insert/delete distance on a grid that goes on past both
sequences and has no matches outside. A point is the *furthest* of its diagonal at
distance d when the next point of the diagonal is at distance d + 2. The search is correct
because each round of it fills the buffer with furthest points, and the backtracker because
furthest points alone determine which matches led to them. Nothing refers to paths. Patch
operations are then judged by an *alignment*: every operation covers a span of both texts,
and the text between spans is equal. Being canonical, being applicable and the shape of the
document after every operation all follow from the alignment, for both size paths. The
number of edited characters is pinned as well: it is the distance of the texts below the size
threshold, and the sum of the distances of the changed regions of a cheapest line script above it.

**DNS names.** `NameAt` is the pointer walk of section 4.1.4 of RFC 1035 with no limit on its
steps. The decoder equals it; the step budget costs nothing because a walk that is still
inside the packet after as many steps as the packet has bytes has visited some position twice.
A walk that has been led to a position reads there what a walk from there reads, which is what
compression relies on.

**State machines.** The cache, the outbox and the leases are classes whose methods are proved
equal to steps on values; invariants are proved over every run of those steps. Runs of the
cache and the outbox start empty, as a new manager and a newly created table are; runs of the
leases start from any readable table. `CacheRuns`, `OutboxLedger` and `LeaseRuns` judge runs by their
events: what is held, due or pending is computed from the events alone and agrees with the state.

## Model

Source paths are relative to the root of the repository.

| member | source | states |
|---|---|---|
| `Myers.Edits` | crates/common/src/diff/patch.rs:281-334 | for all inputs, empty sides included, the edits turn the old sequence into the new one and their number of insertions and deletions is the distance; the line diff (lines 184-279) is the same member at another type |
| `EditDistance.OptimalScript` | crates/common/src/diff/patch.rs:281-385 | a script at the distance is cheapest among all scripts, what it keeps is a longest common subsequence, and its cost is both lengths minus twice that length |
| `EditDistance.ScriptCostsAtLeastDist` | crates/common/src/diff/patch.rs:281-385 | no edit script between prefixes is cheaper than their distance |
| `EditDistance.CommonSubsequenceBound` | crates/common/src/diff/patch.rs:281-385 | every common subsequence of two prefixes bounds their distance by the lengths minus twice its own |
| `EditDistance.KeptIsCommon` | crates/common/src/diff/patch.rs:281-385 | what any script keeps is common to both sides, and its length is determined by the cost |
| `Myers.Search` | crates/common/src/diff/patch.rs:292-331 | the forward search always ends within the bound, in the round equal to the distance, and every saved copy of the buffer is the complete result of the round before it |
| `Myers.RunRound` | crates/common/src/diff/patch.rs:301-330 | one round in place on the buffer: it hits the far corner exactly in the round of its distance and otherwise completes the round; all indices are in bounds |
| `Myers.Slide` | crates/common/src/diff/patch.rs:314-320 | follows exactly the run of matches |
| `Myers.SlideReachesFurthest` | crates/common/src/diff/patch.rs:305-322 | the branch choice followed by the slide reaches the furthest point of the round, also past either end |
| `Myers.RoundStep` | crates/common/src/diff/patch.rs:303-330 | writing one diagonal completes it and disturbs no cell the round still reads, because the rounds alternate parity |
| `Myers.EndTestFiresAtCorner` | crates/common/src/diff/patch.rs:324-327 | although points may overrun both ends, the end test fires first at exactly the far corner |
| `Myers.EndTestMustFire` | crates/common/src/diff/patch.rs:298-331 | a round that ends without firing has not reached the distance of the corner |
| `Myers.FurthestIsReachedBySlide` | crates/common/src/diff/patch.rs:347-368 | the same branch choice on the saved buffer leads back along matches only |
| `Myers.ChooseBranch` | crates/common/src/diff/patch.rs:352-361 | repeats the forward branch choice on a saved buffer |
| `Myers.BackRound` | crates/common/src/diff/patch.rs:347-380 | one backward round ends at the furthest point of the round before and spells one insertion or deletion |
| `Myers.Unslide` | crates/common/src/diff/patch.rs:364-368 | spells a run of matches backwards and stops where the forward slide started |
| `Myers.Backtrack` | crates/common/src/diff/patch.rs:336-385 | from any correct trace the walk ends at the origin having spelled both sequences at a cost of one per round |
| `Coalesce.EditsToPatchOps` | crates/common/src/diff/patch.rs:387-424 | the operations describe exactly the script's change, edit exactly as many characters as it does, and no neighbours could be merged |
| `Coalesce.AlignDelete` | crates/common/src/diff/patch.rs:396-410 | growing or adding a delete accounts for one more old character |
| `Coalesce.AlignInsert` | crates/common/src/diff/patch.rs:411-419 | growing or adding an insert accounts for one more new character |
| `Coalesce.AlignedWeighsDist` | crates/common/src/diff/patch.rs:387-424 | no list of operations describes a change while editing fewer characters than the distance |
| `Patch.ApplyPatchOps` | crates/common/src/diff/patch.rs:48-77 | the loop with the running offset computes the fold of the operations in place |
| `Patch.DescribedChangeApplies` | crates/common/src/diff/patch.rs:61-76 | operations that describe a change turn the old bytes into exactly the new bytes and never panic |
| `Patch.ShiftedIndexIsProducedLength` | crates/common/src/diff/patch.rs:96-99 | at every step index plus offset is the byte length of the new text produced so far; before it the text is final, after it still old |
| `Patch.DescribedChangeIsCanonical` | crates/common/src/diff/patch.rs:387-424 | indices are ordered character boundaries of the old text, deletes are disjoint and not empty, no adjacent pair could be merged |
| `TextDiff.SplitInclusive` | crates/common/src/diff/patch.rs:107-108 | the lines concatenate to the text, none is empty, breaks stand only at their ends |
| `TextDiff.Splice` | crates/common/src/diff/patch.rs:135-144 | shifting a region's operations by its byte start continues the alignment of the whole texts |
| `TextDiff.Flush` | crates/common/src/diff/patch.rs:124-147 | a pending region is described completely and with the fewest edited characters |
| `TextDiff.RefineLines` | crates/common/src/diff/patch.rs:115-174 | for every line script, pending buffers, base offsets and flushes together describe the whole change and edit exactly as many characters as its regions are apart |
| `TextDiff.LineThenCharDiff` | crates/common/src/diff/patch.rs:106-175 | the large path describes exactly the change and edits exactly what a cheapest line script leaves to refine |
| `TextDiff.RefinementSaves` | crates/common/src/diff/patch.rs:24-28 | refinement never edits more characters than the changed lines hold |
| `TextDiff.DiffToPatchOps` | crates/common/src/diff/patch.rs:29-43 | on both sides of the threshold the operations describe the change and are canonical; equal texts give none; small texts are edited minimally |
| `TextDiff.ApplyTextDiff` | crates/common/src/diff/patch.rs:80-94 | end to end: the shared text holds exactly the new text afterwards |
| `Utf8.Decode` | crates/daemon/src/relay/mdns.rs:348-349 | what decodes encodes back to the same bytes |
| `Utf8.DecodeInvertsEncode` | crates/daemon/src/relay/mdns.rs:348-349 | every text decodes from its encoding |
| `Utf8.EncodeIsInjective` | crates/common/src/diff/patch.rs:30-32 | texts with equal bytes are equal, so comparing bytes compares texts |
| `DnsName.ReadPosition` | crates/daemon/src/relay/mdns.rs:315-351 | one position of a packet is root, pointer, label or an error, by its type bits |
| `DnsName.TopBitsDecide` | crates/daemon/src/relay/mdns.rs:315-351 | the top two bits tell labels, pointers and unsupported bytes apart, and each error has its exact condition |
| `DnsName.DecodeDnsName` | crates/daemon/src/relay/mdns.rs:295-359 | the decoder with its budget equals the unbounded walk on every packet and offset, names, resume offsets and errors included |
| `DnsName.NameAtDecides` | crates/daemon/src/relay/mdns.rs:295-359 | a loop is reported exactly when the walk revisits a position; otherwise the result is what the walk stops at |
| `DnsName.ExhaustedBudgetIsRevisit` | crates/daemon/src/relay/mdns.rs:303-313 | a walk inside the packet after as many steps as bytes has come back to a position |
| `DnsName.AcyclicStops` | crates/daemon/src/relay/mdns.rs:303-313 | a budget of the packet length never rejects a name without a loop |
| `DnsName.RevisitNeverStops` | crates/daemon/src/relay/mdns.rs:310-312 | a walk that comes back to a position never ends |
| `DnsName.EncodeDnsName` | crates/daemon/src/relay/mdns.rs:275-293 | succeeds exactly on encodable names and appends their encoding; a failure names the first bad label and leaves the labels before it written |
| `DnsName.EncodedNameDecodes` | crates/daemon/src/relay/mdns.rs:275-359 | wherever it is written in a packet, an encoded name decodes to its normal form and the offset just past it |
| `DnsName.CompressedNameDecodes` | crates/daemon/src/relay/mdns.rs:306-358 | labels followed by a pointer decode to those labels in front of whatever name the pointer leads to, resuming two bytes after the labels; an error or a loop found there is the result |
| `DnsName.PointerToWrittenName` | crates/daemon/src/relay/mdns.rs:275-359 | in particular, a pointer to a written name puts the labels in front of its normal form |
| `DnsName.NormalizeIsIdempotent` | crates/daemon/src/relay/mdns.rs:386-393 | the normal form of a name is its own normal form |
| `DnsNormalForm.NormalFormOf` | crates/daemon/src/relay/mdns.rs:386-393 | the normal form drops surrounding whitespace, then trailing dots, lowers the rest and ends it with one dot |
| `DnsNormalForm.OneNormalForm` | crates/daemon/src/relay/mdns.rs:386-393 | two names have one normal form exactly when, bare, they differ in ASCII case alone |
| `DnsNormalForm.NameIsWrittenByLabel` | crates/daemon/src/relay/mdns.rs:275-293 | a dotted name is written as the labels between its dots, each after its length, then a zero |
| `Strings.LowerForgetsCaseOnly` | crates/daemon/src/relay/mdns.rs:350-350 | lower-casing identifies exactly the strings that differ in ASCII case alone |
| `DnsPacket.ParseTxtPairs` | crates/daemon/src/relay/mdns.rs:361-384 | the cursor loop equals the recursive reading of length-prefixed entries |
| `DnsPacket.ReadPayload` | crates/daemon/src/relay/mdns.rs:179-219 | what each record type contributes, and when it contributes nothing |
| `DnsDamage.SaysNothing` | crates/daemon/src/relay/mdns.rs:179-219 | a record says nothing exactly if its type is not 1, 12, 16, 28 or 33, if it is a service record under six bytes, or an address of the wrong length |
| `DnsPacket.ReadRecord` | crates/daemon/src/relay/mdns.rs:158-221 | one record and where the next one starts, or the truncation or name error |
| `DnsPacket.MergeRecordsFromPacket` | crates/daemon/src/relay/mdns.rs:136-225 | questions are skipped and all three record sections are read in order; an error keeps what was merged before it; what the records then hold is stated by `MessageTeaches` and `CutMessageTeaches` |
| `DnsResponse.TxtReadsBack` | crates/daemon/src/relay/mdns.rs:361-384 | written TXT entries read back in order, later keys replacing earlier ones |
| `DnsTxt.LastEntryIsFound` | crates/daemon/src/relay/mdns.rs:361-384 | the last entry about a key, `k=v` or `k` alone, is found under the key in lower case |
| `DnsTxt.UnnamedKeyStays` | crates/daemon/src/relay/mdns.rs:361-384 | keys no entry is about are unchanged |
| `DnsTxt.DamagedTxtReads` | crates/daemon/src/relay/mdns.rs:361-384 | entries that are not valid text are passed over, and a cut-off entry at the end is dropped |
| `DnsResponse.AnswerReadsBack` | crates/daemon/src/relay/mdns.rs:158-221 | a written PTR, SRV, TXT, A or AAAA record reads back as its meaning, wherever it is written |
| `DnsResponse.QuestionsAreSkipped` | crates/daemon/src/relay/mdns.rs:148-155 | written questions are skipped exactly |
| `DnsResponse.MessageIsLearnt` | crates/daemon/src/relay/mdns.rs:136-225 | scanning a packet of any questions and any such records in its three sections teaches exactly those records, in order and in normal form |
| `DnsResponse.MessageTeaches` | crates/daemon/src/relay/mdns.rs:136-225 | field by field, what scanning a packet leaves: pointers are appended with owner and target in place; per owner the last service and the last non-empty text answer win; addresses are appended in order; everything else is unchanged |
| `DnsDamage.CutMessageTeaches` | crates/daemon/src/relay/mdns.rs:136-225 | a packet cut short at any byte is an error and leaves exactly what its whole records say |
| `DocCache.DocManager.constructor` | crates/daemon/src/engine/doc_manager.rs:26-28 | a new manager stands for the empty cache |
| `DocCache.DocManager.SubscribeOrCreate` | crates/daemon/src/engine/doc_manager.rs:30-46 | the document is resident afterwards with one subscriber more, or one, and its bytes; other subscribed documents are untouched and the recorded total stays within budget while anything can be evicted; as long as the byte total does not saturate, it equals the ordered-list operation and keeps the invariant |
| `DocCache.DocManager.PutDoc` | crates/daemon/src/engine/doc_manager.rs:49-65 | other subscribed documents are untouched and the recorded total is within budget or nothing can be evicted; as long as neither total nor tick saturates, it equals the ordered-list operation: subscribers reset to none, most recently used, then eviction |
| `DocCache.DocManager.Unsubscribe` | crates/daemon/src/engine/doc_manager.rs:67-89 | whether there was a subscription to drop; other subscribed documents are untouched; as long as the tick does not saturate, it equals the ordered-list operation, and the last subscriber sends the document to the end of the list |
| `DocCache.DocManager.CachedLruDocIds` | crates/daemon/src/engine/doc_manager.rs:112-126 | each unsubscribed document once, by ascending tick; with a valid state exactly the list |
| `DocCache.DocManager.OldestCached` | crates/daemon/src/engine/doc_manager.rs:130-141 | an unsubscribed document with the least tick, if there is one; with a valid state the front of the list |
| `DocCache.DocManager.EvictUnderPressure` | crates/daemon/src/engine/doc_manager.rs:128-153 | the loop ends within budget or with nothing to evict, removes only unsubscribed documents and terminates on the resident count; from a valid state it equals dropping from the front of the list |
| `DocCache.DocManager.BumpLruTick` | crates/daemon/src/engine/doc_manager.rs:155-159 | gives out the next tick and moves on, sticking at the largest |
| `DocCache.EvictIsShortestPrefix` | crates/daemon/src/engine/doc_manager.rs:128-153 | eviction removes exactly the shortest prefix of the list that brings the total within budget, or all of it, and changes nothing else |
| `DocCache.EvictKeepsPinned` | crates/daemon/src/engine/doc_manager.rs:133-139 | eviction leaves every document outside the list as it is |
| `DocCache.SortedIsUnique` | crates/daemon/src/engine/doc_manager.rs:112-126 | ticks determine the list |
| `DocCache.ApplySettles` | crates/daemon/src/engine/doc_manager.rs:30-89 | every operation keeps the list exact and leaves the cache settled |
| `DocCache.RunsStayWellFormed` | crates/daemon/src/engine/doc_manager.rs:30-89 | in every run the list holds each unsubscribed resident once, and the cache is within budget or every resident has a subscriber |
| `CacheRuns.RunsCountSubscribers` | crates/daemon/src/engine/doc_manager.rs:30-89 | in every run, counting subscriptions over the operations alone: a document with some left is resident with exactly that many subscribers, and a resident document without any has none |
| `CacheRuns.RunsListByRelease` | crates/daemon/src/engine/doc_manager.rs:49-126 | in every run the list is in the order in which documents were last put or left by their last subscriber |
| `Sections.BuildTree` | crates/common/src/section/parser.rs:48-91 | the one-pass stack algorithm builds exactly the naively defined sections, with trimmed headings, levels and lines, each ending where the next one starts |
| `Sections.PopClosed` | crates/common/src/section/parser.rs:58-66 | popping leaves exactly the chain of ancestors, its top being the nearest earlier section of smaller level |
| `Sections.ChainLevelsIncrease` | crates/common/src/section/parser.rs:57-88 | levels strictly increase along the stack |
| `SectionPaths.AncestorsEnclose` | crates/common/src/section/parser.rs:57-68 | the ancestors of a section are exactly the earlier sections whose level every section since exceeds |
| `Sections.IdsAreDistinct` | crates/common/src/section/parser.rs:69-74 | any two sections of any heading sequence have different ids |
| `Sections.ParentIdNamesParent` | crates/common/src/section/parser.rs:66-66 | a parent id equals a section's id if and only if that section is the nearest earlier one of smaller level |
| `Sections.SlugifyYieldsSlug` | crates/common/src/section/slug.rs:15-24 | slugs are lower-case ASCII words joined by single hyphens |
| `Sections.SlugIsItsOwnSlug` | crates/common/src/section/slug.rs:15-24 | every such string is its own slug |
| `Sections.BaseIdHasNoTilde` | crates/common/src/section/slug.rs:37-51 | base ids never contain the suffix mark |
| `Sections.DisambiguateIsInjective` | crates/common/src/section/slug.rs:59-65 | base id and occurrence can be read back from an id |
| `SectionPaths.BaseIdIsPath` | crates/common/src/section/slug.rs:37-51 | a base id is the ancestors' slugs and the section's own part joined by slashes, and splitting it gives them back |
| `SectionPaths.IdIsPath` | crates/common/src/section/slug.rs:59-65 | an id is that path, with the section's number among the sections of that path behind a tilde unless it is the first; the path reads back from it |
| `SectionPaths.SlugIsWords` | crates/common/src/section/slug.rs:15-24 | the slug of a heading is its words in lower case joined by single hyphens, whatever stands around and between them |
| `Replay.FindBase` | crates/daemon/src/history/mod.rs:55-58 | the latest snapshot captured in time, the last listed among equals |
| `Replay.NearestIsNearest` | crates/daemon/src/history/mod.rs:55-58 | no snapshot captured in time is later, and none listed after it is as late; none is found only if none was captured in time |
| `Replay.ScrubToTime` | crates/daemon/src/history/mod.rs:49-91 | base, number of applied entries, cap flag and document of a scrub, or the snapshot or update that failed |
| `Replay.ReplayableEntries` | crates/daemon/src/history/mod.rs:70-74 | an entry is replayed exactly if it is listed, comes after the snapshot's sequence number and was applied by the target time, as often as it is listed |
| `Replay.ScrubIgnoresLateEntries` | crates/daemon/src/history/mod.rs:70-73 | listing anywhere an entry applied after the target time, or covered by the snapshot, changes no result of a scrub |
| `Replay.ScrubAppliesInOrder` | crates/daemon/src/history/mod.rs:76-83 | each replayed update is applied once and in order, on top of the snapshot |
| `Replay.ScrubAgreesWithFullReplay` | crates/daemon/src/history/mod.rs:49-91 | with honest snapshots and positive sequence numbers a scrub equals replaying the whole ordered log from empty, or, when capped, the entries of its snapshot and the next ones up to the cap; it fails only if that replay fails |
| `Replay.FullLogSplits` | crates/daemon/src/history/mod.rs:70-74 | the ordered log splits at the snapshot's sequence number |
| `Replay.FullLogEntries` | crates/daemon/src/history/mod.rs:70-74 | the full log holds exactly the entries applied in time, ordered and as often as they are listed |
| `Replay.SortSorts` | crates/daemon/src/history/mod.rs:74-74 | sorting orders by sequence number and keeps every entry |
| `Replay.SortIsStable` | crates/daemon/src/history/mod.rs:74-74 | entries with the same sequence number keep the order in which they are listed |
| `Replay.ListingOrderIsIrrelevant` | crates/daemon/src/history/mod.rs:70-74 | with distinct sequence numbers the order in which the log is listed does not matter |
| `Outbox.OutboxQueue.CheckBackpressure` | crates/daemon/src/outbox/mod.rs:258-275 | count and bytes of a workspace's pending and sent rows, and whether a limit is reached |
| `Outbox.OutboxQueue.Enqueue` | crates/daemon/src/outbox/mod.rs:125-163 | accepts exactly under 10,000 pending or sent rows and 1 GiB, with the next id |
| `Outbox.OutboxQueue.MarkSent` | crates/daemon/src/outbox/mod.rs:166-175 | only pending rows are sent |
| `Outbox.OutboxQueue.MarkAcked` | crates/daemon/src/outbox/mod.rs:178-187 | only sent rows are acked |
| `Outbox.OutboxQueue.MarkFailed` | crates/daemon/src/outbox/mod.rs:191-233 | only sent rows fail: they become due after the backoff, or dead after the last attempt; a missing row is an error |
| `Outbox.OutboxQueue.ReadyToSend` | crates/daemon/src/outbox/mod.rs:237-255 | exactly the pending rows that are due, in id order |
| `Outbox.BackoffShape` | crates/daemon/src/outbox/mod.rs:104-108 | 250 ms doubling with every failure, and 30 s from the eighth on |
| `Outbox.RunsCountAttempts` | crates/daemon/src/outbox/mod.rs:191-233 | in every run the retry count is the number of failed attempts, a row is dead exactly at eight and acked exactly after its one acknowledgement, every send has failed, was acknowledged or is under way, and no row is sent more than eight times |
| `Outbox.TerminalRowsStay` | crates/daemon/src/outbox/mod.rs:165-233 | acked and dead rows never change again, whatever follows |
| `OutboxLedger.AckIsFinal` | crates/daemon/src/outbox/mod.rs:178-187 | after an effective acknowledgement the update stays acked, is never ready, and nothing that happens to it has an effect |
| `OutboxLedger.RowsAreAccepted` | crates/daemon/src/outbox/mod.rs:125-163 | the rows are exactly the accepted updates, numbered from one in order, with the workspace and size they were enqueued with |
| `OutboxLedger.LedgerBalances` | crates/daemon/src/outbox/mod.rs:125-275 | every operation moves every workspace's count and bytes by exactly what it adds or settles: accepted updates in, acknowledged and given up ones out |
| `OutboxLedger.CountsOutstanding` | crates/daemon/src/outbox/mod.rs:258-275 | the count a workspace is held to is the number of its pending and sent rows |
| `Outbox.RunsStayWithinLimits` | crates/daemon/src/outbox/mod.rs:258-275 | in every run a workspace has at most 10,000 pending or sent rows, with bytes below 1 GiB plus its newest such row |
| `Outbox.RunsBackOff` | crates/daemon/src/outbox/mod.rs:191-255 | with a clock that never goes back and sends only of ready rows, every row is on time |
| `Outbox.RetryIsNotDueEarly` | crates/daemon/src/outbox/mod.rs:215-229 | after r failures, 1 to 7, an update is due no earlier than its first failure plus 250·(2^r − 1) ms |
| `OutboxLedger.RunsSetRetry` | crates/daemon/src/outbox/mod.rs:191-229 | after r failures, 1 to 7, the retry time is exactly the last failure plus 250·2^(r − 1) ms; without a failure there is none |
| `OutboxLedger.ReadyExactly` | crates/daemon/src/outbox/mod.rs:237-255 | an update is ready exactly if it was accepted, is not acknowledged, dead or under way, and its backoff is over; one that never failed is ready at once |
| `Outbox.NoEarlyDeath` | crates/daemon/src/outbox/mod.rs:207-214 | no update dies less than 31,750 ms after its first failure |
| `WikiLinks.ParseWikiLinks` | crates/common/src/backlink/mod.rs:30-65 | the nested loops equal the recursive definition, and slicing the text never splits a character |
| `WikiLinks.FindClose` | crates/common/src/backlink/mod.rs:40-47 | finds the first closing pair |
| `WikiLinks.SpansAreProper` | crates/common/src/backlink/mod.rs:35-62 | spans are ordered and disjoint, each from an opening to a closing pair |
| `WikiLinks.SpansAreLeftmost` | crates/common/src/backlink/mod.rs:35-62 | a list of spans is the scan's if and only if each starts at the first opening pair after the one before it, ends at the first closing pair that follows, and no opening pair behind the last is closed |
| `WikiLinks.UnclosedEndsScan` | crates/common/src/backlink/mod.rs:49-51 | stopping at an unclosed opening pair loses no link |
| `WikiLinks.InsideIsText` | crates/common/src/backlink/mod.rs:53-53 | the inside of a span is the encoding of a part of the text |
| `WikiRender.InnerParsesBack` | crates/common/src/backlink/mod.rs:67-102 | the inside of every expressible link parses back to its target, heading and alias |
| `WikiRender.InnerParses` | crates/common/src/backlink/mod.rs:67-102 | any inside is a link exactly if its target is not blank; every part is trimmed, and a blank heading or alias counts as none |
| `WikiRender.InnerDecomposes` | crates/common/src/backlink/mod.rs:73-85 | every inside is of that form |
| `WikiRender.RenderingParsesBack` | crates/common/src/backlink/mod.rs:30-102 | any number of rendered links with bracket-free text between them parse back, in order and with their byte offsets |
| `Leases.LeaseStore.Open` | crates/daemon/src/agent/lease.rs:108-113 | drops expired rows and loads the others; succeeds exactly if each of those can be read |
| `Leases.LeaseStore.LoadFromTable` | crates/daemon/src/agent/lease.rs:286-342 | memory becomes exactly the unexpired rows |
| `Leases.LeaseStore.PruneExpired` | crates/daemon/src/agent/lease.rs:248-257 | removes the expired leases from memory and table alike and counts them |
| `Leases.LeaseStore.ConflictsForSection` | crates/daemon/src/agent/lease.rs:259-284 | exactly the other agents with a live lease on the section, sorted, none repeated |
| `Leases.LeaseStore.ClaimLease` | crates/daemon/src/agent/lease.rs:124-159 | the new state of memory and table, the error on a zero time to live, and the conflicts among the leases before the claim |
| `Leases.LeaseStore.RecordActivity` | crates/daemon/src/agent/lease.rs:164-188 | extends a live lease by its full time to live, in memory and table; nothing otherwise |
| `Leases.UpsertLoads` | crates/daemon/src/agent/lease.rs:345-368 | after writing a lease, the next load finds it, unless it has expired by then, in place of any lease with its key, and every other row as before |
| `Leases.RowReadsBack` | crates/daemon/src/agent/lease.rs:321-337 | a written row reads back as its lease |
| `Leases.RowMeans` | crates/daemon/src/agent/lease.rs:321-337 | a row is readable exactly if its time to live is a u32 and its mode one of the two words, and then reads as it says |
| `Leases.RunsMirror` | crates/daemon/src/agent/lease.rs:106-188 | in every run from any readable table, the table holds exactly what memory holds |
| `Leases.RestartIsLossless` | crates/daemon/src/agent/lease.rs:107-113 | a restart at any time after any run yields exactly the unexpired leases |
| `Leases.LeaseSurvives` | crates/daemon/src/agent/lease.rs:3-6 | a lease outlives every event before its end that is not about it |
| `LeaseRuns.RunsHold` | crates/daemon/src/agent/lease.rs:106-188 | in every run the lease under a key is what the events about it and the clock leave of it |
| `LeaseRuns.ActivityLasts` | crates/daemon/src/agent/lease.rs:164-188 | after activity at t a lease with n seconds to live is live at every later time before t + n seconds and at none from then on, whatever happens to other leases |
| `LeaseRuns.ClaimLasts` | crates/daemon/src/agent/lease.rs:124-159 | the same for a claimed lease from its claim on |
| `LeaseRuns.ConflictsFollowEvents` | crates/daemon/src/agent/lease.rs:259-284 | after any run an agent is in conflict exactly if the events leave it a lease on the section that has not ended |
| `Leases.StrLessIsTotalOrder` | crates/daemon/src/agent/lease.rs:282-282 | the order of agents is strict and total: of two names exactly one is less or they are equal, and less is transitive |
| `Leases.StrLessIsByteOrder` | crates/daemon/src/agent/lease.rs:282-282 | ordering names by code point and ordering their UTF-8 bytes is the same |

## Where code and comments differ

The model follows the code.

- The diff threshold is described as a number of characters; the code adds up byte lengths.
- The outbox describes a transition from pending to dead; the code lets only sent updates fail.
- Section ids are said to tell apart siblings with the same slug; the code counts equal base ids over the whole document.

## Left out

- The CRDT library: the shared text is a byte sequence with insert and remove, and replay works over opaque documents; transaction origins are not modelled.
- TextDiff.ApplyTextDiff: both texts are required to be shorter than 2^32 bytes, the range of the operations' index type; overflow of that type is not modelled, and `Patch.PatchOp` has unbounded positions, which all fit under this bound.
- DocCache.DocManager: after the tick or the byte total has saturated at 2^64 - 1, eviction order among equal ticks and the true total are not described, only what the unconditional clauses say; a document's estimated size is a parameter.
- Markdown event parsing: the tree starts from the list of headings.
- Sections.SlugChars: Unicode lower-casing is represented by its effect on slugs.
- SQL text, encryption at rest and timestamp strings: tables are maps, payloads are their stored lengths, times are integers, statements succeed.
- Listing leases by section or workspace: filters and sorts like the conflicts and adds nothing harder.
- DnsName.ReadPosition: masks and shifts on length bytes are written as division, remainder and multiplication.
- DnsResponse.MessageIsLearnt: the names of a message are written without compression.
- Socket handling and the joining of collected records into peer endpoints.
- Restoring a document to an earlier time: its last step is an update computed by the CRDT library.
