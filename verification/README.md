# OpenAgent: verified models of its stateful logic

This project models the algorithms of the OpenAgent repository whose correctness is about
whole runs or all inputs, and proves what they promise. Each Dafny module follows one
source file or one hand-over between two:

- `ReleaseMigration`, `MigrationCampaign`, `DistributionMarker` and `MarkerGrammar`: the
  resumable copy of a release, and the locator it leaves in the notes of a draft, with the
  string grammar of section 7 of RFC 8259 as the reference for reading it. One `GitHub`
  object is one run of the script; the destination repository and the cache directory
  outlive it. Every remote call may work, be refused, deliver wrong bytes, break
  off, or be the last thing the script does. A ghost history records every state the
  repository goes through.
- `WorkflowTrace`, `SharedTranscript`, `HistoryFeed`, `MessageGroups`, `StableSort`:
  reconciliation of what a server sends with what the client shows. Sorting is
  JavaScript's stable sort; a `Map` is its entries in insertion order.
- `RelationRefresh`, `MediaRecovery`, `AccountPersistence`: a round-robin scheduler, a
  sliding-window limiter, and the latest-attempt gate with the persistence helper it
  guards, interleaved with every other account action.
- `UpdatePolicy`: version order and the chains of updates it accepts.
- `PngWalker`, `WheelHandoff`, `PointerBinding`: parsers and printers.
- `BundleArchive`, `UpdateMetadata`, `StableText`: manifest-checked archives and
  order-independent metadata merging.
- `Options` and `Strings` are shared helpers.

SHA-256, CRC-32, zlib, JSON and YAML codecs, locale order, local days and letter case are
parameters; where a law of theirs is needed (a decoder inverts its encoder, digests
differ) it is a precondition of the theorem that uses it. `Date.parse` results and
JavaScript numbers are mathematical integers, or reals where fractions matter.

## Where the code and its description part

- The distribution marker is read back for exactly the non-empty tags without a UTF-16
  surrogate pair: `json.dumps` writes such a pair as two escapes and `json.loads` fuses
  them into one character (`MarkerRoundTripIff`, `SurrogatePairIsFused`).
- Merging a shared snapshot twice equals merging it once exactly when no turn is shadowed:
  finished, with a run id and with rows, and claiming the provider run of a turn that is
  still active (`MergeIdempotentIff` in `SharedTranscript`); distinct provider runs are
  enough but not needed. A shadowed turn whose run was durable is shown neither by its own
  rows nor by durable ones; every other turn with a run and rows is shown exactly once
  (`TurnShownOnceIff`).
- A merged workflow trace is stable under a second merge exactly when the times that enter
  it lie below the threshold between seconds and milliseconds once they are in seconds
  (`MergeIdempotentIff` in `WorkflowTrace`, `DistantTimeMovesAgain`).
- The bounded history refines the unbounded one even when dates of different items
  coincide, and even when an item's date moves, as long as no delivery disturbs an earlier
  one: a move back must not have another item's date between the old and the new date, ends
  included, and a move forward must not land on the very date of another item
  (`BoundedRefinesUnbounded`, `ForwardDatesRefine`, `ForwardTieBreaksRefinement`). For a set
  of items that may be delivered in any order, every run refines exactly when the dates of
  one id, in either order, never enclose or touch the date of another (`RefinesIff`).
- The comment on day dividers promises one per local day. The code compares with the
  previous stamped message only, so there is one per day exactly when no message returns
  to a day already left (`OneDividerPerDayIff`, `DayComesBack`).
- `_safe_relative` lets the path `.` through (`SafeRelativeIff`); the callers reject it
  later.
- The comment on bindings promises the fallback for invalid pointers. Array indices with
  leading zeros are followed although section 4 of RFC 6901 does not allow them
  (`LeadingZeroIsAccepted`), and a `~` that escapes nothing, which section 3 does not allow,
  is taken literally. A pointer is resolved as the standard prescribes in every document
  exactly when it has neither; in the binding's own data, which is an object, the first
  token may have leading zeros (`ResolvesByStandardIff`, `Parting`).
- A pointer does not tell an index from a member name made of digits, so a path that asks
  an object for an index, or an array for a member, may still lead to a value. The pointer
  of a path finds what is at the path, or the fallback, exactly unless the document has
  nothing at the path but something at a path spelled alike (`PointerEvaluatesIff`,
  `IndexReadsMember`).
- The four 90,000-character slices carry up to 270,000 bytes, more than the permitted
  240 KiB (`LosslessIff`).
- `stable` writes keys without quotes, so a key that holds punctuation can be taken for two
  entries (`PunctuatedKeyCollides`), and one that starts with `},` for the end of an empty
  object (`BraceKeyCollides`). It is injective up to key order for keys that have no `:`
  and do not start with `}` followed by `,`, `]` or `}`; that is sufficient, not necessary
  (`StableInjective`).
- A download that dies leaves an unverified file under a final cache name only if some
  asset is named like the partial file of another (`PartialsHarmlessIff`).

## Model

| member | source | states |
|---|---|---|
| `MigrationCampaign.Campaign` | scripts/migrate-release-assets.py:176-223 | Over any number of runs with any faults: every state of the repository has at most one release under the tag, public only with the source's inventory and never for a draft source; no change replaces or removes a stored asset; the cache has no unverified file under a final name; what is stored is what was there plus exactly one upload of each new asset. A last run without faults succeeds exactly when what was stored at first agreed with the source and every upload of every run stored the right bytes, however often calls crashed, broke off or were refused. |
| `MigrationCampaign.Run` | scripts/migrate-release-assets.py:237-240 | One run keeps all of that; without faults it succeeds exactly from the states whose stored assets agree with the source, and then uploads exactly the missing assets, in order, once each. |
| `ReleaseMigration.AccountedAgrees` | scripts/migrate-release-assets.py:183-184 | What is stored agrees with the source exactly when it did at the start and every upload stored the right bytes. |
| `ReleaseMigration.GitHub.CopyRelease` | scripts/migrate-release-assets.py:176-223 | Success means a release under the tag with the full inventory and the source's visibility; a faultless run on agreeing contents succeeds and uploads precisely the missing assets. |
| `ReleaseMigration.GitHub.Precheck` | scripts/migrate-release-assets.py:182-188 | Passes exactly when every stored asset agrees with the source; it returns the stored inventory, which is the whole one unless the release is a draft. |
| `ReleaseMigration.GitHub.FindOrCreate` | scripts/migrate-release-assets.py:179-182 | The release found or created holds exactly what was stored under the tag before. |
| `ReleaseMigration.GitHub.DestinationRelease` | scripts/migrate-release-assets.py:54-71 | Finds the release under the tag, by name or locator, and reports none only when there is none. |
| `ReleaseMigration.GitHub.Create` | scripts/migrate-release-assets.py:73-79 | Adds exactly one empty draft, with the source's prerelease flag and the locator behind its notes, that later lookups find, also when the run dies right after the request, and nothing when the request is refused. |
| `ReleaseMigration.GitHub.Download` | scripts/migrate-release-assets.py:81-102 | Success puts verified bytes under the final name; whatever happens, no unverified file takes a final name and no other file changes. |
| `ReleaseMigration.GitHub.Fetch` | scripts/migrate-release-assets.py:193-201 | Success means a cached copy with the source's size and digest. |
| `ReleaseMigration.GitHub.Upload` | scripts/migrate-release-assets.py:104-145 | Never overwrites: a taken name is accepted only with the cached size and digest, and a free one is filled at most once over all attempts. |
| `ReleaseMigration.GitHub.Deliver` | scripts/migrate-release-assets.py:202-211 | Stores the cached copy, accepts only a reply that matches the source, and removes exactly that file from the cache, only on success. |
| `ReleaseMigration.GitHub.TransferAll` | scripts/migrate-release-assets.py:189-211 | A faultless loop uploads the missing assets in source order, each once, and leaves the full inventory. |
| `ReleaseMigration.GitHub.Conclude` | scripts/migrate-release-assets.py:212-219 | Only a release with the full inventory is finished; a complete one is, when nothing fails. |
| `ReleaseMigration.GitHub.Finish` | scripts/migrate-release-assets.py:147-153 | Publishes under the requested tag with the source's draft and prerelease flags. |
| `ReleaseMigration.GitHub.PublishedName` | scripts/migrate-release-assets.py:148-151 | Whatever name the index yields first, it is the requested tag. |
| `ReleaseMigration.Inventory` | scripts/migrate-release-assets.py:164-173 | Accepts exactly listings with safe, distinct names and SHA-256 digests, and returns their inventory. |
| `ReleaseMigration.ListedNames` | scripts/migrate-release-assets.py:164-173 | The inventory has exactly the listed names, each with its own size and digest. |
| `ReleaseMigration.SafeNameIff` | scripts/migrate-release-assets.py:168 | A safe name is one path component: not empty, `.` or `..`, and without a slash of either kind. |
| `MigrationCampaign.NeverExposed` | scripts/migrate-release-assets.py:1-7 | At every moment of a good history a public release under the tag is complete, its source is public, and it is the only one. |
| `MigrationCampaign.NeverReplaced` | scripts/migrate-release-assets.py:1-7 | An asset stored at one moment has the same bytes at every later one. |
| `MigrationCampaign.ConflictIsForever` | scripts/migrate-release-assets.py:183-188 | Once wrong bytes are stored the release stays an incomplete draft for good. |
| `ReleaseMigration.GoodHistoryThroughout` | scripts/migrate-release-assets.py:1-7 | Every recorded state is in order and every change only adds. |
| `MigrationCampaign.UploadedOnce` | scripts/migrate-release-assets.py:189-215 | When the job is finished, the source's names are those stored at first plus one upload each of the others. |
| `MigrationCampaign.PartialsHarmlessIff` | scripts/migrate-release-assets.py:84-99 | Partial downloads leave a clean cache clean exactly when no asset is named like another's partial file. |
| `ReleaseMigration.MarkerRelocatesIff` | scripts/migrate-release-assets.py:73-79 | The locator in a new draft is read back as the tag exactly for non-empty tags free of surrogate pairs. |
| `DistributionMarker.MarkerDecodes` | scripts/migrate-release-assets.py:18-34 | Behind any body, even one with older markers, the last marker decodes to its tag with surrogate pairs fused. |
| `DistributionMarker.MarkerRoundTripIff` | scripts/migrate-release-assets.py:18-34 | It is the tag itself exactly for non-empty tags without surrogate pairs. |
| `DistributionMarker.SurrogatePairIsFused` | scripts/migrate-release-assets.py:18-34 | A concrete tag that is not read back. |
| `DistributionMarker.LastMarker` | scripts/migrate-release-assets.py:25-26 | The last occurrence of the prefix is the marker's own: the escaped tag cannot contain it. |
| `DistributionMarker.LoadsDumps` | scripts/migrate-release-assets.py:19-29 | Parsing a printed JSON string gives the text back, up to fused pairs (section 7 of RFC 8259). |
| `MarkerGrammar.MarkedTagIff` | scripts/migrate-release-assets.py:22-34 | For every body: a locator is found exactly when the body is some front, a JSON string literal of the non-empty tag, and the suffix, where the front is empty or ends with the last occurrence of the prefix. |
| `MarkerGrammar.LocatorNeedsSuffix` | scripts/migrate-release-assets.py:25-34 | A body that does not end with the suffix has no locator, and no locator is empty. |
| `MarkerGrammar.LoadsIff` | scripts/migrate-release-assets.py:29 | A text is read as a string exactly when it is a literal of that string between blanks, by the grammar of section 7 of RFC 8259. |
| `MarkerGrammar.LiteralIsScanned` | scripts/migrate-release-assets.py:29 | Every literal of the grammar is read as the text it stands for, whatever follows it. |
| `MarkerGrammar.ScannedIsLiteral` | scripts/migrate-release-assets.py:29 | Whatever is read was a literal of the grammar. |
| `MarkerGrammar.ShortIsUsed` | scripts/migrate-release-assets.py:19 | The writer uses the two-character escapes where the grammar has one, except for the slash. |
| `WorkflowTrace.MergeCanonicalWorkflowTrace` | apps/app/common/workflow-trace.ts:37-87 | The loops compute the specified merge: joined steps, then unmatched entries in order. |
| `WorkflowTrace.MergedRows` | apps/app/common/workflow-trace.ts:58-80 | Each row of the merge, field by field: what an absorbed entry carries survives (payload, non-empty kind and status, present error), the step's id and child session win, the tools are those of both, once each and the entry's first; a step without an entry shows running, success or skipped, and failed otherwise. |
| `WorkflowTrace.MatchRule` | apps/app/common/workflow-trace.ts:50-59 | A step takes the free entry of its node at its own position, else the first free one, and none only when none is free. |
| `WorkflowTrace.WireFormsAgree` | apps/app/common/run-date-normalization.ts:34-59 | One instant in seconds, in milliseconds and as a date text is one time; a missing or unreadable start is 0 and such a finish stays missing. |
| `WorkflowTrace.JoinSteps` | apps/app/common/workflow-trace.ts:48-81 | The step loop joins each step with the entry the greedy matching assigns and collects the used ones. |
| `WorkflowTrace.AppendLeftovers` | apps/app/common/workflow-trace.ts:83-85 | The closing loop appends the unabsorbed entries in order. |
| `WorkflowTrace.MatchesValid` | apps/app/common/workflow-trace.ts:49-59 | No entry is absorbed twice, and only by steps of its node. |
| `WorkflowTrace.AbsorbedCount` | apps/app/common/workflow-trace.ts:49-59 | For every node, exactly as many entries are absorbed as the smaller of its steps and its entries. |
| `WorkflowTrace.GreedyIsMaximum` | apps/app/common/workflow-trace.ts:49-59 | No valid matching absorbs more entries of any node. |
| `WorkflowTrace.MergeConserves` | apps/app/common/workflow-trace.ts:83-85 | Every unabsorbed entry appears behind the steps at the place its order gives it, and nothing else is added or lost. |
| `WorkflowTrace.AlignedMatchesAreIdentity` | apps/app/common/workflow-trace.ts:49-57 | When node ids agree position by position, each step takes the entry at its own position. |
| `WorkflowTrace.MergeIdempotentIff` | apps/app/common/workflow-trace.ts:37-87 | Merging again changes nothing exactly when the entering times settle below the threshold. |
| `WorkflowTrace.SettledInputsMergeIdempotently` | apps/app/common/workflow-trace.ts:37-87 | Times below the threshold are enough. |
| `WorkflowTrace.DistantTimeMovesAgain` | apps/app/common/run-date-normalization.ts:53-58 | A concrete time that a second merge divides again. |
| `WorkflowTrace.JoinTwice` | apps/app/common/workflow-trace.ts:60-80 | Joining a row with its own step again changes no field. |
| `WorkflowTrace.SecondsIdempotentIff` | apps/app/common/run-date-normalization.ts:27-59 | Normalising a time twice is normalising it once exactly below the threshold. |
| `SharedTranscript.MergeSharedTranscript` | apps/app/common/shared-transcript.ts:5-26 | The loops compute the specified merge of a snapshot. |
| `SharedTranscript.ForeignRowsKept` | apps/app/common/shared-transcript.ts:6-9 | The rows that belong to no turn of the snapshot are, in time order and with their number, exactly the earlier rows that name no turn of it and no active turn's run, rows of other shared turns included. |
| `SharedTranscript.TurnIsShown` | apps/app/common/shared-transcript.ts:10-24 | The rows of a turn are its messages, tools and error, with their ids, texts, roles, times in milliseconds, and streaming only for an active turn's assistant messages; there are none for a turn without a run or a finished one whose run is durable. |
| `SharedTranscript.PushRows` | apps/app/common/shared-transcript.ts:13-23 | A turn contributes its messages, its tools and its error, in that order. |
| `SharedTranscript.MergeIdempotentIff` | apps/app/common/shared-transcript.ts:5-26 | For every transcript, merging twice is merging once, exactly when no finished turn with a run id and rows shares an active turn's provider run. |
| `SharedTranscript.ShadowedTurnReappears` | apps/app/common/shared-transcript.ts:7-12 | Otherwise some transcript shows that turn only after the second merge. |
| `SharedTranscript.TurnShownOnceIff` | apps/app/common/shared-transcript.ts:9-25 | A turn with a run and rows is never shown twice, and is shown, by all its rows in time order or by durable rows of its run, exactly unless it is shadowed and its run was durable. |
| `SharedTranscript.TurnShownOnce` | apps/app/common/shared-transcript.ts:9-25 | Without shadowed turns the transcript has all the rows of a turn in time order, or none when durable rows show its run. |
| `SharedTranscript.DurableAfterMerge` | apps/app/common/shared-transcript.ts:7-9 | Exactly the runs of active turns stop being durable. |
| `HistoryFeed.MergeBoundedHistory` | apps/app/common/history-feed-policy.ts:131-145 | The loops compute the specified bounded merge. |
| `HistoryFeed.BoundedRefinesUnbounded` | apps/app/common/history-feed-policy.ts:131-145 | Over any run of pages and resets in which no delivery disturbs an earlier one, truncating every time shows the first k of the last-writer-wins merge of everything received, with unique ids, newest first. |
| `HistoryFeed.ForwardDatesRefine` | apps/app/common/history-feed-policy.ts:131-145 | In particular dates may move forward past those of other items, as long as no two ids share a date. |
| `HistoryFeed.ForwardTieBreaksRefinement` | apps/app/common/history-feed-policy.ts:142-144 | A move forward onto the date of another item makes a cache with room for both show them in the wrong order. |
| `HistoryFeed.RefinesIff` | apps/app/common/history-feed-policy.ts:131-145 | For any set of deliverable items, every run at every size refines exactly when the dates of one id never enclose or touch the date of another. |
| `HistoryFeed.FixedDatesRefine` | apps/app/common/history-feed-policy.ts:131-145 | Dates fixed per id are enough, ties included. |
| `HistoryFeed.LastWriterWins` | apps/app/common/history-feed-policy.ts:137-141 | Exactly the final delivery of each id survives. |
| `HistoryFeed.MovingDateBreaksRefinement` | apps/app/common/history-feed-policy.ts:142-144 | For every triple where they do, three deliveries make a cache of one entry show the moved item where the other comes first. |
| `StableSort.StableOrderIsUnique` | apps/app/common/shared-transcript.ts:25 | Sorted and stable together determine the result, so every conforming sort agrees with the model. |
| `StableSort.SortStable` | apps/app/common/shared-transcript.ts:25 | Elements with equal keys keep their order. |
| `StableSort.FilterSort` | apps/app/common/shared-transcript.ts:25 | Selecting commutes with sorting. |
| `StableSort.SortPresorted` | apps/app/common/shared-transcript.ts:25 | Sorting a prefix beforehand does not change the outcome. |
| `StableSort.InsertTruncated` | apps/app/common/history-feed-policy.ts:142-144 | Truncating before an insertion loses nothing the first k places would show. |
| `MessageGroups.MessageHeaderVisibility` | apps/app/common/message-groups.ts:61-77 | The scan flags exactly the first header-bearing message of each contiguous speaker group. |
| `MessageGroups.OneHeaderPerGroup` | apps/app/common/message-groups.ts:55-60 | A group never shows two headers and shows one as soon as a message of it can carry one. |
| `MessageGroups.SpeakersApart` | apps/app/common/message-groups.ts:35-48 | Assistant and tool rows share one group, compactions, missions and humans are apart from it and from each other, and two humans share a group exactly when they go by one folded name. |
| `MessageGroups.AgentNamedOnce` | apps/app/common/message-groups.ts:27-34 | In a stretch of assistant and tool rows only the first assistant row carries the header. |
| `MessageGroups.AnswerThroughTool` | apps/app/common/message-groups.ts:27-34 | An answer through a tool call names the agent once; a compaction in between makes it twice. |
| `MessageGroups.WhoIsNamed` | apps/app/common/message-groups.ts:50-77 | Only assistants and humans are named, and they always are where their group begins. |
| `MessageGroups.WindowHeaders` | apps/app/common/message-groups.ts:55-60 | A window keeps every header of the whole transcript; one it adds belongs to the group it starts inside. |
| `MessageGroups.MessageTurnTimeline` | apps/app/common/message-groups.ts:90-117 | The scan gives every message the timestamp and divider its stamped predecessors call for. |
| `MessageGroups.TimelineShows` | apps/app/common/message-groups.ts:98-116 | A divider comes with a timestamp, a timestamp is the own one, and a stamped message goes without only behind a header of its group and a stamped message of its day, and never when it is a mission. |
| `MessageGroups.StampForms` | apps/app/common/message-groups.ts:15-20 | Seconds and milliseconds of one instant are one time, and what is not a positive date in range has none. |
| `MessageGroups.WindowDividers` | apps/app/common/message-groups.ts:86-89 | A window keeps every divider; the only one it can add is at its first stamped message. |
| `MessageGroups.OneDividerPerDayIff` | apps/app/common/message-groups.ts:106-108 | Each local day has one divider exactly when no stamped message returns to a day already left. |
| `MessageGroups.DayComesBack` | apps/app/common/message-groups.ts:6-7 | Three messages that show a day twice. |
| `RelationRefresh.RunIsRoundRobin` | apps/app/common/session-details.ts:40-78 | Over any run of polls, whether they discover roots, revisit them or rest, the revisits are one unbroken round-robin stretch, and every other poll leaves the cursor where it is modulo the number of roots. |
| `RelationRefresh.VisitsBalanced` | apps/app/common/session-details.ts:69-77 | Over any run the revisits of any two roots differ by at most one. |
| `RelationRefresh.EveryRootVisited` | apps/app/common/session-details.ts:69-77 | Enough active polls, n over the batch rounded up, revisit every root, whatever lies between them. |
| `RelationRefresh.DiscoveringRests` | apps/app/common/session-details.ts:55-61 | A poll with roots to discover asks for the first of them and leaves the cursor where it was modulo n. |
| `RelationRefresh.EveryThirdPoll` | apps/app/common/session-details.ts:62-77 | With nothing to discover every third poll revisits as many roots as the limit allows, and the others none. |
| `RelationRefresh.LimitIs` | apps/app/common/session-details.ts:54 | The limit is rounded down to a whole number, and is at least one. |
| `RelationRefresh.PollIsBounded` | apps/app/common/session-details.ts:40-78 | Each poll returns distinct known roots within the limit, and a cursor in range. |
| `RelationRefresh.HydrationProgress` | apps/app/common/session-details.ts:55-61 | k polls hydrate the first k batches of discovered roots, in order. |
| `RelationRefresh.IdsDistinct` | apps/app/common/session-details.ts:53 | The roots are the non-empty ids, once each. |
| `MediaRecovery.PrunedListAgrees` | apps/app/common/desktop-media-recovery.ts:5-7 | The pruned list has the same recent restarts as the whole history. |
| `MediaRecovery.GrantedIff` | apps/app/common/desktop-media-recovery.ts:3-8 | A restart is granted exactly when fewer than three were granted within the last 30 seconds. |
| `MediaRecovery.FourGrantsSpread` | apps/app/common/desktop-media-recovery.ts:5-7 | The first and last of any four restarts are at least 30,000 ms apart. |
| `MediaRecovery.GenerationCountsGrants` | apps/app/common/desktop-media-recovery.ts:7 | The generation counts restarts; the frame rate never rises and never drops below 5. |
| `MediaRecovery.RateIsHalved` | apps/app/common/desktop-media-recovery.ts:7 | After k restarts the frame rate is the first one halved k times, or 5 when that is less. |
| `MediaRecovery.OnlyOverloadsRecover` | apps/app/common/desktop-media-recovery.ts:4-6 | The two overload messages are answered on an empty record; other messages and clocks that are not finite never are. |
| `MediaRecovery.WithinIff` | apps/app/common/desktop-media-recovery.ts:5 | A restart counts from its grant until 30,000 ms have passed. |
| `MediaRecovery.BackwardClockForgets` | apps/app/common/desktop-media-recovery.ts:5 | A clock behind all restarts forgets them, so the limit needs a monotone clock. |
| `AccountPersistence.LatestAttemptGate.constructor` | apps/app/common/latest-attempt.ts:23-25 | A new gate has issued no token and has no target. |
| `AccountPersistence.LatestAttemptGate.BeginAttempt` | apps/app/common/latest-attempt.ts:28-40 | Issues the next token, for the new target; the lease is current. |
| `AccountPersistence.LatestAttemptGate.InvalidateAttempts` | apps/app/common/latest-attempt.ts:41-44 | Uses up a token and clears the target. |
| `AccountPersistence.StalenessIsPermanent` | apps/app/common/latest-attempt.ts:27-44 | A stale lease stays stale over every run of the gate. |
| `AccountPersistence.AtMostOneCurrent` | apps/app/common/latest-attempt.ts:27-47 | Only the last lease can be current, and then the gate's target is its target. |
| `AccountPersistence.RegisteredAccountStaysDurable` | apps/app/common/guarded-account-persistence.ts:13-33 | Over every interleaving with other actions and failing writes, once the first write lands the account stays in storage unless an action removes it. |
| `AccountPersistence.OtherAccountsStayDurable` | apps/app/common/guarded-account-persistence.ts:13-33 | Over the same interleavings every other account in memory at the start is in storage from the first write on, unless an action removes it. |
| `AccountPersistence.StartCommits` | apps/app/common/guarded-account-persistence.ts:22-27 | The helper commits, and queues for storage, the list with the account once and last and all others as before, in order; nothing else changes. |
| `AccountPersistence.FirstWriteKeeps` | apps/app/common/guarded-account-persistence.ts:22-33 | Whatever holds of the committed list and is kept by every action holds of memory and storage from the first write on. |
| `AccountPersistence.SupersedingChangeIsDurable` | apps/app/common/guarded-account-persistence.ts:29-32 | Whatever the superseding actions made true of the list is true of storage when the helper returns false. |
| `AccountPersistence.ReturnsTrueIff` | apps/app/common/guarded-account-persistence.ts:29 | The helper reports success exactly when no action began or invalidated an attempt before its check. |
| `AccountPersistence.GateFollows` | apps/app/common/latest-attempt.ts:27-44 | Through every interleaving the gate is the one its operations lead to, so what holds of every run of the gate holds here. |
| `AccountPersistence.WithReplaces` | apps/app/common/guarded-account-persistence.ts:22-25 | The new list ends with the account, has it once, and keeps all others in their order and number. |
| `UpdatePolicy.CompareParsed` | apps/app/desktop/src/update-policy.ts:59-78 | The indexed loops compute the lexicographic comparison. |
| `UpdatePolicy.CompareSign` | apps/app/desktop/src/update-policy.ts:51-78 | The comparison is antisymmetric and zero only for equal versions. |
| `UpdatePolicy.CompareTransitive` | apps/app/desktop/src/update-policy.ts:51-78 | The comparison is transitive. |
| `UpdatePolicy.CompareFollowsSemVer` | apps/app/desktop/src/update-policy.ts:51-78 | A version is lower exactly when section 11 of Semantic Versioning 2.0.0 says so. |
| `UpdatePolicy.ChainAscends` | apps/app/desktop/src/update-policy.ts:109-121 | Every chain of accepted updates strictly ascends and repeats no version. |
| `UpdatePolicy.ChainKeepsChannel` | apps/app/desktop/src/update-policy.ts:109-121 | A stable install stays stable; any other install reaches only stable versions, or beta ones from beta. |
| `UpdatePolicy.AcceptedIff` | apps/app/desktop/src/update-policy.ts:109-121 | An update is accepted exactly when both texts are versions, the candidate has higher precedence by section 11, and it is stable, or a numbered beta for a numbered beta. |
| `UpdatePolicy.PolicyIff` | apps/app/desktop/src/update-policy.ts:86-97 | Exactly the versions have a policy: numbered betas the beta channel without automatic checks or installs, all others the stable one with both, and no one downgrades. |
| `UpdatePolicy.ParsePrint` | apps/app/desktop/src/update-policy.ts:36-49 | Every well-formed version is parsed back from its text. |
| `UpdatePolicy.PrintParse` | apps/app/desktop/src/update-policy.ts:36-49 | Every accepted text, apart from blanks around it and build metadata, is printed back from its version, which is well-formed. |
| `UpdatePolicy.ParsedIff` | apps/app/desktop/src/update-policy.ts:36-49 | A text is read as version v exactly when it spells v, with or without build metadata, between blanks. |
| `UpdatePolicy.IdentCharIff` | apps/app/desktop/src/update-policy.ts:36 | Identifiers are made of the ASCII digits, letters and hyphen. |
| `UpdatePolicy.SameVersionIff` | apps/app/desktop/src/update-policy.ts:42-78 | Two accepted texts compare equal exactly when they agree apart from blanks around them and build metadata. |
| `UpdatePolicy.Updater.ConfigureAutoUpdater` | apps/app/desktop/src/update-policy.ts:123-134 | The updater ends with the version's channel and never allows downgrades, although setting the channel does. |
| `PngWalker.ValidatePng` | packages/host-tools/scripts/smoke_bundle.py:106-146 | Terminates on every payload and accepts exactly the signature followed by serialized chunks that form a good image (section 5.3 of the W3C PNG Specification, Second Edition). |
| `PngWalker.WalkChunks` | packages/host-tools/scripts/smoke_bundle.py:109-146 | Behind the signature, accepts exactly what parses into such chunks. |
| `PngWalker.ReadChunk` | packages/host-tools/scripts/smoke_bundle.py:115-126 | Reads the chunk at a position exactly when it is complete and its checksum is right. |
| `PngWalker.Absorb` | packages/host-tools/scripts/smoke_bundle.py:127-138 | Rejects exactly misplaced headers and terminators, and keeps what the loop variables say about the chunks read. |
| `PngWalker.ParseSerialized` | packages/host-tools/scripts/smoke_bundle.py:114-138 | Every chunk list is recovered from its serialization. |
| `PngWalker.ParsedIsSerialized` | packages/host-tools/scripts/smoke_bundle.py:114-138 | Whatever parses is the serialization of what it parses to. |
| `PngWalker.SerializationUnique` | packages/host-tools/scripts/smoke_bundle.py:114-138 | Different chunk lists have different serializations. |
| `WheelHandoff.HandoffRoundTrip` | scripts/publish_channel_bridge_wheel.py:26-28 | Every handoff within 240 KiB is sent and received as exactly the same files. |
| `WheelHandoff.AcceptedIsSent` | scripts/publish_channel_bridge_wheel.py:26-28 | Whatever slices arrive, what the publisher accepts under the sender's digest is what was sent. |
| `WheelHandoff.ReceivedIff` | scripts/publish_channel_bridge_wheel.py:26-28 | The publisher obtains files exactly when the joined slices decode to at most 240 KiB with the announced digest whose document decodes to them. |
| `WheelHandoff.SentIff` | scripts/qualify_channel_bridge_wheel.py:138-139 | The builder sends exactly documents of at most 245,760 bytes, which name every file with its encoding. |
| `WheelHandoff.WriteSlices` | scripts/qualify_channel_bridge_wheel.py:143-145 | Writes the four 90,000-character slices. |
| `WheelHandoff.SlicesRejoin` | scripts/qualify_channel_bridge_wheel.py:143-145 | n slices rejoin to the first n times 90,000 characters. |
| `WheelHandoff.LosslessIff` | scripts/qualify_channel_bridge_wheel.py:143-145 | Four slices carry the encoded text exactly up to 270,000 bytes. |
| `WheelHandoff.PermittedLength` | scripts/qualify_channel_bridge_wheel.py:138-139 | 240 KiB give at most 327,680 characters. |
| `WheelHandoff.EncodedLength` | scripts/qualify_channel_bridge_wheel.py:143 | Base64 takes four characters for every three bytes begun. |
| `WheelHandoff.DecodeEncode` | scripts/publish_channel_bridge_wheel.py:26 | Strict decoding inverts encoding (section 4 of RFC 4648). |
| `WheelHandoff.DecodeIff` | scripts/publish_channel_bridge_wheel.py:26 | Decodable texts are exactly symbols of the alphabet with the padding that completes the last group of four, and they decode to the bytes of their sextets. |
| `PointerBinding.ResolveUIBinding` | apps/app/common/ui-views.ts:156-185 | The loop computes the specified evaluation. |
| `PointerBinding.MissingSourceFallsBack` | apps/app/common/ui-views.ts:160-170 | A source that is not in the data gives the fallback for every pointer. |
| `PointerBinding.SourceIsStart` | apps/app/common/ui-views.ts:160-170 | The empty pointer gives the whole data object behind `data`, and otherwise the source named. |
| `PointerBinding.DataThenSource` | apps/app/common/ui-views.ts:160-170 | A pointer behind `data` whose first name is a source continues as the rest of it behind that source. |
| `PointerBinding.PointerEvaluatesIff` | apps/app/common/ui-views.ts:156-185 | The pointer printed from a path of keys and indices gives the value at that path, or the fallback, exactly unless nothing is at the path and something is at a path spelled alike. |
| `PointerBinding.IndexReadsMember` | apps/app/common/ui-views.ts:175-177 | The pointer of index 0 reads the member "0" of an object. |
| `PointerBinding.ResolvesByStandardIff` | apps/app/common/ui-views.ts:156-185 | A pointer text is resolved as sections 3 and 4 of RFC 6901 prescribe, for every document and fallback, exactly when its escapes are valid and no token that can meet an array has leading zeros. |
| `PointerBinding.Parting` | apps/app/common/ui-views.ts:154-155 | For every other pointer there is a document where the code finds a value and the standard an error. |
| `PointerBinding.FollowsStandardIff` | apps/app/common/ui-views.ts:170-182 | Decoded tokens are followed as section 4 does from every value exactly without leading zeros. |
| `PointerBinding.PresentIsFound` | apps/app/common/ui-views.ts:156-185 | A value that is there is found, whatever the kinds along the path. |
| `PointerBinding.PrintedPointerFollows` | apps/app/common/ui-views.ts:168-185 | Printing and splitting a pointer walks exactly the names of the path. |
| `PointerBinding.DecodeEscape` | apps/app/common/ui-views.ts:150-152 | Decoding inverts escaping for every name (section 3 of RFC 6901). |
| `PointerBinding.TwoPassesDecode` | apps/app/common/ui-views.ts:150-152 | On valid tokens the two replacement passes decode as one pass does. |
| `PointerBinding.LeadingZeroIsAccepted` | apps/app/common/ui-views.ts:173-174 | The pointer `/01` into an array reads element 1, where section 4 gives the fallback. |
| `BundleArchive.BundleRoundTrip` | packages/host-tools/scripts/package_bundle.py:59-87 | Any link-free tree with safe names and no nested manifest, once manifested and archived, passes packaging, is verified, and extracts to the identical files. |
| `BundleArchive.PackagedRoundTrip` | packages/host-tools/scripts/package_bundle.py:59-87 | Every archive of a tree that passes the packaging checks is verified and extracts to the identical files. |
| `BundleArchive.PackageableIsBuilt` | packages/host-tools/scripts/package_bundle.py:59-87 | A tree that passes the packaging checks carries the very manifest the builder writes for its files. |
| `BundleArchive.VerifyAndExtract` | packages/host-tools/scripts/verify_bundle_archive.py:221-272 | Extracts exactly the verified archives without path conflicts; the result is the manifest's file map, lies under the platform directory, and holds a manifest of the requested version and platform. |
| `BundleArchive.VerifyOpenArchive` | packages/host-tools/scripts/verify_bundle_archive.py:96-200 | Succeeds exactly when members, manifest, entries and file set all fit. |
| `BundleArchive.VerifiedMeans` | packages/host-tools/scripts/verify_bundle_archive.py:96-200 | In a verified archive all members lie below the platform, are regular and have distinct names; the manifest has the requested version and platform, every entry describes a member, and every file is an entry or the manifest. |
| `BundleArchive.IndexMembers` | packages/host-tools/scripts/verify_bundle_archive.py:108-124 | Indexes safe, distinct members of the platform and collects the manifests among them; fails only if some member is bad or a name repeats. |
| `BundleArchive.CheckEntries` | packages/host-tools/scripts/verify_bundle_archive.py:157-183 | Accepts exactly when every entry is a safe path with matching member, size and digest. |
| `BundleArchive.ExtractMembers` | packages/host-tools/scripts/verify_bundle_archive.py:242-254 | The loop computes the specified tree, or stops at a path conflict. |
| `BundleArchive.Recheck` | packages/host-tools/scripts/verify_bundle_archive.py:256-271 | Accepts exactly trees whose files are the manifest's, with size and digest. |
| `BundleArchive.ExtractedIsManifested` | packages/host-tools/scripts/verify_bundle_archive.py:241-272 | Whatever is verified and extracted always passes the recheck and stays inside the platform directory. |
| `BundleArchive.ExtractedFiles` | packages/host-tools/scripts/verify_bundle_archive.py:242-254 | The extracted files are exactly the file members with their contents. |
| `BundleArchive.ExtractSucceedsIff` | packages/host-tools/scripts/verify_bundle_archive.py:242-254 | Members with distinct names are extracted exactly when no file stands in the way of another member. |
| `BundleArchive.WriteBundleManifest` | packages/host-tools/scripts/build_standalone.py:95-117 | The manifest lists every file but itself, in whatever order they are found. |
| `BundleArchive.SafeRelativeIff` | packages/host-tools/scripts/verify_bundle_archive.py:46-56 | Accepts exactly `.` and the plain relative paths, split into their parts. |
| `BundleArchive.HexDigestIff` | packages/host-tools/scripts/verify_bundle_archive.py:20 | A digest is 64 hexadecimal digits in lower case. |
| `BundleArchive.SourceManifestIsPlain` | packages/host-tools/scripts/verify_bundle_archive.py:126 | The manifest name used by the scripts meets what the theorems ask of one. |
| `StableText.StableInjective` | apps/app/desktop/scripts/merge-update-metadata.js:147-154 | Values with plain keys have the same text exactly when they are equal up to key order. |
| `StableText.Unambiguous` | apps/app/desktop/scripts/merge-update-metadata.js:147-154 | A text that ends where a value may end determines the value. |
| `StableText.PunctuatedKeyCollides` | apps/app/desktop/scripts/merge-update-metadata.js:151 | A key with the punctuation of two entries gives their text. |
| `StableText.BraceKeyCollides` | apps/app/desktop/scripts/merge-update-metadata.js:149-152 | A key without `:` that starts with `}` gives the text of an empty object and what follows it. |
| `StableText.LessIff` | apps/app/desktop/scripts/merge-update-metadata.js:151 | Keys are sorted in dictionary order: the shorter of two that agree, else the lower character where they first differ. |
| `UpdateMetadata.MergeMetadata` | apps/app/desktop/scripts/merge-update-metadata.js:58-106 | Succeeds exactly on mergeable sources. The result lists the union of the sources' files, sorted and each once; its path is the preferred source's if listed, else the first; the hashes are that entry's when set; the date is a source's and none is later; the packages hold one listed entry per architecture; every other field is every source's. |
| `UpdateMetadata.ResultDescribes` | apps/app/desktop/scripts/merge-update-metadata.js:58-106 | Whatever is assembled from merged parts describes its sources in that way. |
| `UpdateMetadata.PlainResult` | apps/app/desktop/scripts/merge-update-metadata.js:82-86 | With plain keys every listed entry equals every source's entry for its URL, and every shared field is as in every source, up to key order. |
| `UpdateMetadata.ResultsAlike` | apps/app/desktop/scripts/merge-update-metadata.js:58-106 | The results of two orders of the sources are equal, up to key order. |
| `UpdateMetadata.ListedIsKept` | apps/app/desktop/scripts/merge-update-metadata.js:108-114 | What a source lists, or else its single legacy file, is in the result. |
| `UpdateMetadata.DateIsLast` | apps/app/desktop/scripts/merge-update-metadata.js:97-101 | No source's date is later than the result's, in dictionary order. |
| `UpdateMetadata.PackagesReadAsThemselves` | apps/app/desktop/scripts/merge-update-metadata.js:128-145 | The packages of a source are the entries of its object, and none when it has no object. |
| `UpdateMetadata.StringsReadAsThemselves` | apps/app/desktop/scripts/merge-update-metadata.js:156-159 | Text fields are read as they are, and missing ones as empty. |
| `UpdateMetadata.NotPerArch` | apps/app/desktop/scripts/merge-update-metadata.js:117 | Exactly six fields are per architecture. |
| `UpdateMetadata.OrderIndependent` | apps/app/desktop/scripts/merge-update-metadata.js:58-106 | The merged parts do not depend on the order of the sources, up to key order. |
| `UpdateMetadata.FailureIsOrderFree` | apps/app/desktop/scripts/merge-update-metadata.js:58-106 | Merging fails in one order exactly when it fails in every order. |
| `UpdateMetadata.ReorderedMergesAlike` | apps/app/desktop/scripts/merge-update-metadata.js:58-106 | A permutation of the sources changes neither success nor result. |
| `UpdateMetadata.UrlsAreUnion` | apps/app/desktop/scripts/merge-update-metadata.js:77-89 | The merged URLs are the union of the sources' URLs, each once. |
| `UpdateMetadata.EntryEqualsEverySource` | apps/app/desktop/scripts/merge-update-metadata.js:82-86 | A merged entry equals every source's entry for its URL. |
| `UpdateMetadata.CollectFiles` | apps/app/desktop/scripts/merge-update-metadata.js:77-88 | Succeeds exactly when every source lists files and no two entries conflict, and keeps one entry for each URL. |
| `UpdateMetadata.AddFile` | apps/app/desktop/scripts/merge-update-metadata.js:80-86 | Rejects exactly an entry without URL or in conflict with an earlier one. |
| `UpdateMetadata.CheckShared` | apps/app/desktop/scripts/merge-update-metadata.js:116-126 | Accepts exactly sources that agree on every shared field. |
| `UpdateMetadata.MergePackages` | apps/app/desktop/scripts/merge-update-metadata.js:128-145 | Succeeds exactly without conflicts, with one listed entry for every listed architecture. |
| `UpdateMetadata.PreferredIsLeast` | apps/app/desktop/scripts/merge-update-metadata.js:69-73 | The preferred source is one that no other precedes. |
| `UpdateMetadata.PreferenceRule` | apps/app/desktop/scripts/merge-update-metadata.js:69-73 | An x64 source is preferred to every other, and among equals the first path. |
| `UpdateMetadata.X64Iff` | apps/app/desktop/scripts/merge-update-metadata.js:69-73 | A path is an x64 one exactly when `x64`, in either case, stands between separators or ends. |
| `UpdateMetadata.InjectiveRanks` | apps/app/desktop/scripts/merge-update-metadata.js:69-73 | An order that tells all strings apart makes the merge of sources from different paths independent of their order. |
| `UpdateMetadata.LatestIsGreatest` | apps/app/desktop/scripts/merge-update-metadata.js:97-101 | The release date is a source's date and none is later. |
| `UpdateMetadata.AbsentIsDistinct` | apps/app/desktop/scripts/merge-update-metadata.js:147-148 | An absent field never compares equal to a present one. |

## Left out

- Network, subprocess and file-system plumbing of the release, acquisition, probe and smoke scripts.
- The Electron shell, React components, theme, type declarations, label and icon tables, connector catalogs.
- Drawer, device, title, attachment and search-navigation helpers: clamps and single-switch maps that would only add easy members.
- `mergeSessionHierarchyRows` in apps/app/common/session-details.ts: a minimum and a disjunction per row, an easy fold.
- `shouldContinueRunPolling` and `runLivePollDelay`: comparisons with constants.
- Rounding of floating-point numbers, `NaN` dates, `-0`, and numbers beyond the exact range of JavaScript.
- ReleaseMigration.GitHub.Upload: one outcome stands for each HTTP attempt, so status codes, retry delays and the second request behind a 422 reply are not told apart.
- ReleaseMigration.GitHub.Download: sleeps, request headers and cache-busting queries are not modelled.
- MigrationCampaign.Campaign: asks that the locator of the tag can be read back and that at most one sound release is under the tag at the start; other writers to the destination are not modelled.
- ReleaseMigration.GitHub.Conclude: the visibility and tag checks behind `finish` compare with the reply of a correct server, where they cannot fail; wrong replies to that request are not modelled.
- Symbolic links in the cache directory, the commit a release points at, titles, and the receipt file.
- Destination digests other than SHA-256.
- Key order of JSON and YAML objects, `Date` values inside metadata, and the `__proto__` key of JavaScript objects.
- UpdateMetadata.ResultsAlike: like `OrderIndependent`, asks for keys without `:` that do not start with `}` and more punctuation, and an order that tells the paths and URLs apart; the YAML reader, the writer and the file walk are not modelled.
- Build metadata behind `+` is accepted by the version parser and ignored, as in the source; the feed URL of the updater is not modelled.
- Detached checksums, archive names, gzip and tar encoding, and file modes of bundles.
- BundleArchive.BundleRoundTrip: takes the manifest file name as a parameter that is a plain path component.
- Inherited properties of JavaScript objects in `data[source]`.
- Limits on tag and asset names that a hosting service may impose.
