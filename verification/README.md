# Verified model of the MaxIOFS core

MaxIOFS is an S3-compatible object store with a high-availability cluster layer. This project
models the parts of it that are algorithms or protocols rather than plumbing, and proves what they
promise on all inputs and over all runs.

| file | what it models |
|---|---|
| `Wildcard.dfy`, `Policy.dfy` | the bucket-policy engine: the glob matcher with one saved backtrack point, statement matching, the decision loop |
| `Options.dfy`, `PastTime.dfy` | values that may be missing; "kept since it was set" over the steps of a run |
| `Lex.dfy`, `SigV4.dfy` | the canonical URI and canonical query string of Signature Version 4 |
| `AntiEntropy.dfy`, `ScrubBatches.dfy` | last-writer-wins reconciliation between any number of replicas: as comparisons made at one instant, and as batches that list, ask and act one after the other |
| `Listing.dfy`, `Scrub.dfy`, `SyncCopy.dfy` | marker-based listing; the scrub cycle and the bulk sync job, both with persisted checkpoints and crashes |
| `Peers.dfy`, `SyncJobs.dfy`, `Quorum.dfy` | choice of replica targets; the bookkeeping of sync jobs; write admission, fan-out and quorum |
| `StoragePressure.dfy`, `NodeLifecycle.dfy` | disk-pressure hysteresis; health checks, the dead-node reconciler, drain |
| `TokenBucket.dfy`, `LoginLimiter.dfy`, `CircuitBreaker.dfy` | the API token bucket, the login window, the per-node circuit breaker |
| `AuditQueue.dfy` | the audit log's single writer with batches, flush barriers and shutdown |
| `Migration.dfy` | moving a bucket to another node |

How the models are built:

- Code that updates state is a class (or a method with a loop) whose contract ties it to a
  specification function; the promises are lemmas about that function.
- A protocol is a state machine `Apply` over events and `Exec` over event sequences. Network
  answers, database errors, clocks, crashes and the interleaving of goroutines are events or
  parameters, so a theorem over all event sequences is a theorem over all runs. Where a class
  drives a machine, a ghost `log` records the events and the fields always mirror the machine.
- A promise that is false of the code is kept as the code has it: there is a lemma with a concrete
  failing input, and the exact condition under which the promise holds.

What the code does differently from what its comments or documentation promise:

- `wildcardMatch` is right for every pattern exactly on subjects without `*`, and right for every
  subject exactly for the pattern `*` and patterns without `*`.
- A scrub stopped inside a batch still saves the key at the end of the page, because the key-value
  write ignores the cancelled context (internal/metadata/pebble_store.go:707-709). When the page
  was truncated, the objects after the stop are never compared in that cycle. A page on which every
  entry is hidden also ends its bucket early. A peer whose checksum call fails is skipped for the
  page, so a cycle can be recorded as done without having compared anything.
- A scrub batch compares the copy it listed, not the one the node holds by then, with checksums that
  may be old as well, and neither transfer checks what it overwrites. A batch can so replace a newer
  version by an older one; with three nodes such repairs can undo each other for ever. The greatest
  version is never lost, and nodes that wait for each other between pages do agree in the end.
- A sync job cancelled with the request that triggered it leaves its row `running`; the next
  trigger adds a second one, and a restart then runs two jobs for one node, or resumes the old one
  although the node has been done since. A status that cannot be read counts as not done, so a node
  that is done is synced again.
- A replication factor that cannot be read counts as 1: the reconciler then kills down to one healthy
  node and clears the degraded mark, and a write is acknowledged with one copy.
- A pass whose recount of healthy nodes fails still completes and leaves the old degraded mark.
- A listing that fails skips the rest of its bucket, and the sync job or scrub cycle is still recorded
  as done: it may have sent or compared nothing.
- A refused drain returns no error, and its recount clears the reason again when the healthy nodes,
  the spared one included, are enough.
- The fan-out sets a node to `unavailable` without checking for `dead`, so it can bring a dead node
  back, and the reconciler does not re-read a candidate before declaring it dead, so it can kill a
  node that has just recovered.
- A migration without verification may leave up to nine objects behind and then delete the source.
- A multipart ETag is one whose part count is any number that `strconv.Atoi` accepts, 0 and `+2`
  included, where the comment says at least 1.
- The allowed logins in one window are at most `2M - 1`, one less than twice the limit.

## Model

| member | source | states |
|---|---|---|
| `Wildcard.WildcardMatch` | internal/bucket/policy_evaluation.go:517-550 | terminates on all inputs and returns the literal-first meaning of the pattern (a literal or `?` is taken before `*` is tried), defined by recursion with no backtrack state |
| `Wildcard.WalkSubject` | internal/bucket/policy_evaluation.go:523-543 | the loop with one saved star decides the match up to the trailing stars |
| `Wildcard.LeadIsKept` | internal/bucket/policy_evaluation.go:531-541 | exchange argument: a match that starts later after the older star can be traded for one after the newer star |
| `Wildcard.NewerStarReplacesOlder` | internal/bucket/policy_evaluation.go:534-537 | forgetting the older star when a newer one is met loses no match |
| `Wildcard.WildcardSound` | internal/bucket/policy_evaluation.go:517-550 | a reported match is a match under the usual meaning of `*` and `?`, for every subject |
| `Wildcard.CompleteWithoutStars` | internal/bucket/policy_evaluation.go:527-548 | on a subject without `*` every match is found |
| `Wildcard.StarInSubjectDefeats` | internal/bucket/policy_evaluation.go:531-534 | for every subject with a `*` anywhere, a pattern that matches it and is not reported |
| `Wildcard.RightForEveryPattern` | internal/bucket/policy_evaluation.go:517-550 | the matcher agrees with the meaning for all patterns if and only if the subject has no `*` |
| `Wildcard.StarInPatternDefeats` | internal/bucket/policy_evaluation.go:531-534 | for every pattern with a `*`, other than `*` alone, a subject it matches without it being reported |
| `Wildcard.RightForEverySubject` | internal/bucket/policy_evaluation.go:517-550 | the matcher agrees with the meaning for all subjects if and only if the pattern is `*` or has no `*` |
| `Policy.EvaluatePolicy` | internal/bucket/policy_evaluation.go:39-75 | the loop with early exit equals the order-free rule: any matching Deny, else any matching Allow, else implicit deny |
| `Policy.OrderAndRepetitionDoNotMatter` | internal/bucket/policy_evaluation.go:39-75 | two policies with the same statements in any order and multiplicity decide alike |
| `Policy.AddingStatements` | internal/bucket/policy_evaluation.go:39-75 | more statements never undo an explicit deny, and turn an allow into a deny exactly if a Deny now applies |
| `Policy.StatementExactly` | internal/bucket/policy_evaluation.go:78-97 | a statement applies exactly if its principal is `*`, the caller, or lists one of them under `AWS` (or under `CanonicalUser` when there is no `AWS`), one action and one resource cover the request, and every condition holds; spelled out on the JSON |
| `Policy.UnnamedCallerIsDenied` | internal/bucket/policy_evaluation.go:105-167 | a caller whom no statement names is denied, whatever the policy says otherwise |
| `Policy.OneStatementDecides` | internal/bucket/policy_evaluation.go:39-97 | a one-statement policy gives its effect exactly to a named caller with a covered action and resource and conditions that hold |
| `Policy.FailedConditionSilences` | internal/bucket/policy_evaluation.go:330-349 | one condition entry that fails silences its statement |
| `Policy.OperatorExactly` | internal/bucket/policy_evaluation.go:382-513 | an operator that is not a negation holds exactly if one of the expected strings satisfies it; an unknown one never holds |
| `Policy.RequestKeysExactly` | internal/bucket/policy_evaluation.go:352-380 | `aws:SourceIp` and `aws:SecureTransport`, in any case, are read from the request itself, whatever its context says |
| `Policy.ContextKeysExactly` | internal/bucket/policy_evaluation.go:352-380 | every other key is looked up in the request's context, as written and then in any case; a missing one is empty |
| `Policy.ActionIsGlob` | internal/bucket/policy_evaluation.go:203-221 | an action pattern with at most a trailing star means its glob, or is `s3:*`, which matches every action |
| `Policy.ActionIsGlobExactly` | internal/bucket/policy_evaluation.go:203-221 | an action pattern agrees with its glob on all actions if and only if its only special character is a final star and it is not `s3:*`; inner stars and `?` are taken literally |
| `Policy.ResourceIsGlob` | internal/bucket/policy_evaluation.go:257-323 | the same for resources after ARN normalisation |
| `Policy.ResourceIsGlobExactly` | internal/bucket/policy_evaluation.go:257-323 | a resource pattern agrees with its glob over normalised names on all requests if and only if it is `*` or its normal form has nothing special but a final star |
| `Policy.NegatedOperator` | internal/bucket/policy_evaluation.go:382-513 | an operator and its negation never both hold, and one of them holds exactly when there are expected values (and, for IP operators, an address) |
| `Policy.StringLikeMeansGlob` | internal/bucket/policy_evaluation.go:424-430 | StringLike on a value without `*` holds exactly if the value matches one expected glob |
| `SigV4.UriEncode` | internal/auth/manager.go:1673-1697 | the byte loop builds the percent-encoding of RFC 3986 section 2.1 with the unreserved set of section 2.3 and `/` kept |
| `SigV4.UnreservedExactly` | internal/auth/manager.go:1673-1697 | the bytes left alone are exactly the 66 letters, digits and marks of RFC 3986 section 2.3, listed one by one |
| `SigV4.EncodeByteExactly` | internal/auth/manager.go:1673-1697 | every other byte becomes `%` and the two upper-case hexadecimal digits of its value |
| `SigV4.DecodeEncode` | internal/auth/manager.go:1673-1697 | percent-decoding gives back every byte string |
| `SigV4.CanonicalUriInjective` | internal/auth/manager.go:1673-1697 | two paths have the same canonical URI exactly if they are equal, the empty path counting as `/` |
| `SigV4.AwsQueryEscapeIsPercentEncoding` | internal/auth/manager.go:1701-1707 | query-escaping followed by the two textual replacements is strict percent-encoding |
| `SigV4.TextInjective` | internal/auth/manager.go:1743-1751 | joining encoded pairs with `=` and `&` loses nothing |
| `SigV4.SortStrings` | internal/auth/manager.go:1741-1746 | a sorted permutation, in byte order |
| `SigV4.CollectKeys` | internal/auth/manager.go:1736-1740 | every key once, from a map with no order |
| `SigV4.ListPairs` | internal/auth/manager.go:1743-1750 | the pairs of all keys, each key's values sorted, none lost or repeated |
| `SigV4.BuildCanonicalQuery` | internal/auth/manager.go:1733-1752 | grouping, sorting keys, sorting values and joining equals sorting all pairs and joining |
| `SigV4.CanonicalQueryIsTheMultiset` | internal/auth/manager.go:1733-1752 | two parameter lists give the same canonical query if and only if they are the same multiset |
| `AntiEntropy.StepRaises` | internal/cluster/anti_entropy.go:464-503 | a comparison and transfer made at one instant changes nothing or overwrites one replica by a strictly greater (timestamp, ETag) version |
| `AntiEntropy.WinnerIsNeverLost` | internal/cluster/anti_entropy.go:464-503 | over every run of such comparisons the greatest version stays where it is and stays greatest |
| `AntiEntropy.FewStepsAct` | internal/cluster/anti_entropy.go:464-503 | in every run of such comparisons at most n(n-1) act on n replicas |
| `AntiEntropy.QuiescentIsAgreed` | internal/cluster/anti_entropy.go:464-503 | no step has anything left to do if and only if all replicas have one ETag (or none has the object) |
| `AntiEntropy.RoundClears` | internal/cluster/anti_entropy.go:464-503 | a full round of such comparisons lifts each greatest copy that lacks the winner's ETag above all copies that lack it |
| `AntiEntropy.RoundGains` | internal/cluster/anti_entropy.go:464-503 | so each such round adds a node that can never lose the winner's ETag again |
| `AntiEntropy.Converges` | internal/cluster/anti_entropy.go:464-503 | after n-1 rounds in which every ordered pair of n replicas is compared at one instant, in any order and with any other such steps between, every replica has the winner's ETag |
| `AntiEntropy.WhoScrubsFirst` | internal/cluster/anti_entropy.go:464-503 | for any two versions, multipart included, the outcome is independent of which side scrubs except exactly for equal multipart ETags and timestamps with different sizes |
| `AntiEntropy.ActionNeverLowers` | internal/cluster/anti_entropy.go:464-503 | with any ETags, multipart ones included, an action leaves both nodes on one of the two copies, and on none that is below the other |
| `AntiEntropy.ActsExactly` | internal/cluster/anti_entropy.go:464-503 | two copies are acted on exactly if their ETags differ; if one is multipart, exactly if the sizes differ or the times are more than a second apart |
| `AntiEntropy.MissingCopies` | internal/cluster/anti_entropy.go:464-472 | a copy the peer lacks is sent there, and nothing happens for one that this node does not list |
| `AntiEntropy.MultipartExactly` | internal/cluster/anti_entropy.go:504-512 | an ETag is multipart exactly if it is a non-empty text, a dash and a number with no dash in it |
| `AntiEntropy.NumbersInRange` | internal/cluster/anti_entropy.go:504-512 | that number must be below 2 to the 63rd, and may have a plus sign |
| `AntiEntropy.MultipartQuiescentNotAgreed` | internal/cluster/anti_entropy.go:474-480 | the multipart tolerance leaves two replicas with different ETags and nothing to do |
| `ScrubBatches.ProcessBatch` | internal/cluster/anti_entropy.go:370-440 | the loop over the peers, for one object and with nothing else going on: the listed copy is compared with every peer, and the node ends on the copy of the last peer that beat it |
| `ScrubBatches.BatchTakesLast` | internal/cluster/anti_entropy.go:380-431 | the same of the run that the loop is: the last peer that beats the listed copy wins, not the best |
| `ScrubBatches.StaleListingLowers` | internal/cluster/anti_entropy.go:380-385 | version 1 meets 3 and then 2: the batch pulls 3 and then 2 over it |
| `ScrubBatches.StaleAnswerLowers` | internal/cluster/anti_entropy.go:390-411 | a push decided by an old checksum overwrites a version 3 by a 2 |
| `ScrubBatches.UpToDateIsScrub` | internal/cluster/anti_entropy.go:405-420 | an action whose listing and checksum are up to date is the comparison at one instant |
| `ScrubBatches.LoweringIsStale` | internal/cluster/anti_entropy.go:405-420 | an action that does not raise the copy it changes decided by something out of date |
| `ScrubBatches.RaisesExactly` | internal/cluster/anti_entropy.go:524-560 | whatever it decided by, a push raises exactly if the node's present copy is above the peer's, a pull exactly if the peer's present copy is above the node's |
| `ScrubBatches.WinnerIsNeverLost` | internal/cluster/anti_entropy.go:370-440 | however the listings, checksum calls and transfers of all nodes interleave, a node with a greatest version keeps it and nobody ever holds a greater one |
| `ScrubBatches.WinnersBatchSettles` | internal/cluster/anti_entropy.go:370-440 | one undisturbed batch of a node with a greatest version against all others gives every node its ETag |
| `ScrubBatches.RoundGains` | internal/cluster/anti_entropy.go:370-440 | if the nodes wait for each other between pages, each round in which all act on all, in any interleaving, lowers a weight of the copies until all have the winner's ETag |
| `ScrubBatches.RoundsConverge` | internal/cluster/anti_entropy.go:310-365 | so more than n(n+1)^n such rounds end in agreement on the winner's ETag |
| `ScrubBatches.NeverSettles` | internal/cluster/anti_entropy.go:370-440 | if they do not wait, any three or more nodes have runs with arbitrarily many actions in which they undo each other's repairs, the winner's node scrubbing all the time |
| `ScrubBatches.FewOnTwoNodes` | internal/cluster/anti_entropy.go:370-440 | two nodes act at most once, whatever is out of date |
| `ScrubBatches.BoundedExactly` | internal/cluster/anti_entropy.go:370-440 | some number bounds the actions in all runs of n nodes if and only if n is at most two |
| `Listing.PositionAfterKey` | internal/metadata/pebble_objects.go:203-278 | listing from a key's marker resumes right after that key |
| `Scrub.DoneCycleIsComplete` | internal/cluster/anti_entropy.go:206-365 | over any crashes (any saved checkpoint may survive), resumes, harmless stops and missing peers, a cycle recorded as done has put precisely the objects in reach through processBatch; that is every visible object if and only if every page with a visible entry behind it has one on it |
| `Scrub.AllInReachExactly` | internal/cluster/anti_entropy.go:328-343 | the page loop reaches every visible object if and only if no page of `[k*batch, (k+1)*batch)` with a visible entry behind it is wholly hidden |
| `Scrub.DoneCycleComparesWith` | internal/cluster/anti_entropy.go:370-440 | with a peer that answers in every batch, a done cycle compared the same objects, under the same exact condition |
| `Scrub.SilentPeers` | internal/cluster/anti_entropy.go:390-396 | a concrete cycle recorded as done in which every object went through and none was compared, because no peer answered |
| `Scrub.HiddenPageEndsCycle` | internal/cluster/anti_entropy.go:336-338 | a concrete cycle recorded as done without an object that lies behind a wholly hidden page |
| `Scrub.FailedListingIsSafeExactly` | internal/cluster/anti_entropy.go:332-337 | a listing that fails gives up the bucket; the cycle stays sound exactly if everything in reach there has passed |
| `Scrub.FailedListingSkipsForGood` | internal/cluster/anti_entropy.go:332-337 | what the bucket had still to list is never passed in that cycle, over any run that does not fall back before it |
| `Scrub.FailedListingEndsCycle` | internal/cluster/anti_entropy.go:332-337 | with one bucket, whose listing fails, the cycle is recorded as done with nothing passed |
| `Scrub.LatestIsOnRecord` | internal/cluster/anti_entropy.go:348-365 | over any run the place of the cycle is on record, or the start of the bucket before it: a resume at the latest checkpoint repeats no more |
| `Scrub.AbortedCycleGoesOn` | internal/cluster/anti_entropy.go:342-346 | a cycle that gives up for want of peers goes on after a restart as if nothing had happened |
| `Scrub.StopIsSafeExactly` | internal/cluster/anti_entropy.go:348-352 | stopping inside a batch keeps the checkpoint trustworthy exactly if the page was the bucket's last or had passed already |
| `Scrub.NeverGoesBack` | internal/cluster/anti_entropy.go:310-365 | an object the scrubber has gone past does not pass in any continuation: whoever answers, over any stops, and over crashes whose surviving checkpoint is past it |
| `Scrub.HarmfulStopSkipsForGood` | internal/cluster/anti_entropy.go:348-352 | after any harmful stop and resume, each skipped object stays out in every such continuation |
| `Scrub.StopInsideBatchSkipsObjects` | internal/cluster/anti_entropy.go:348-352 | a concrete cycle recorded as done without its first object |
| `Scrub.AntiEntropyScrubber.Resume` | internal/cluster/anti_entropy.go:784-797 | a restart goes on from a stored checkpoint |
| `Scrub.AntiEntropyScrubber.ExecuteCycle` | internal/cluster/anti_entropy.go:310-365 | the bucket loop is a run of the machine; it finishes exactly when the machine is done, and then all went through processBatch, and all was compared with each peer that always answered, exactly if no page is wholly hidden in front of a visible entry |
| `Scrub.AntiEntropyScrubber.ScanBucket` | internal/cluster/anti_entropy.go:328-358 | the page loop of one bucket is a run of the machine and stays in its bucket |
| `SyncCopy.DoneJobAttemptedEverything` | internal/cluster/ha_sync_worker.go:252-334 | over any crashes, resumes, failing writes and failing listings, a job that is done (or only failed to record it) has attempted every visible object of every bucket exactly if it attempted what failed listings passed over |
| `SyncCopy.OneLifeExactly` | internal/cluster/ha_sync_worker.go:288-323 | a job done in one life attempted everything exactly if no failed listing had an object behind it |
| `SyncCopy.DoneWithNothingSent` | internal/cluster/ha_sync_worker.go:288-295 | one failed listing, and the job is recorded as done with nothing sent |
| `SyncCopy.RepeatedExactly` | internal/cluster/ha_sync_worker.go:308-316 | when the writes of a life work and it ends early after n successes, the next life starts behind exactly the full hundreds of them and repeats n % 100 |
| `SyncCopy.NeverStalls` | internal/cluster/ha_sync_worker.go:280-323 | every action of a copying job, hidden entries and failures included, gets it further |
| `SyncCopy.UnrecordedStartsOver` | internal/cluster/ha_sync_worker.go:326-333 | a job that cleared its checkpoint and could not record its end starts over; if the clearing failed too, from its last checkpoint |
| `SyncCopy.CheckpointIsSound` | internal/cluster/ha_sync_worker.go:299-316 | whatever a send and a checkpoint write return, everything before the stored checkpoint has been attempted or passed over |
| `SyncCopy.OnlyListedObjectsAreSent` | internal/cluster/ha_sync_worker.go:288-323 | nothing but visible objects of listed buckets is ever sent |
| `SyncCopy.SyncJob.Run` | internal/cluster/ha_sync_worker.go:252-334 | the nested loops, started from the stored checkpoint, are a run of the machine; if not killed, everything was attempted exactly if what failed listings passed over was, and the job is done exactly if its status write works |
| `SyncCopy.SyncJob.CopyBucket` | internal/cluster/ha_sync_worker.go:288-323 | paging through one bucket leads to the next one unless killed, at once if a listing fails |
| `SyncCopy.SyncJob.CopyEntry` | internal/cluster/ha_sync_worker.go:299-317 | one entry is attempted if visible, counted on success, and checkpointed at every hundredth success |
| `SyncCopy.SyncJob.Finish` | internal/cluster/ha_sync_worker.go:326-333 | the two final writes, each of which may fail: the row is done exactly if the second works, and everything was attempted if no listing failed |
| `SyncJobs.OneBoot` | internal/cluster/ha_sync_worker.go:63-174 | a boot that finds at most one running row per node, and then any interleaving of triggers, inserts, launches, exits and passes of the stale reconciler: never two jobs in flight for a node, whatever statements fail; and no job starts past a done one if and only if the boot finds no running row of a done node and no blind claim gets its row |
| `SyncJobs.SingleExactly` | internal/cluster/ha_sync_worker.go:63-174 | over any run with any restarts: two jobs are never in flight for one node if and only if every restart finds at most one running row per node |
| `SyncJobs.ClaimPastDone` | internal/cluster/ha_sync_worker.go:139-147 | a step reserves a slot past a done job exactly if it is a claim whose status read failed |
| `SyncJobs.StartsExactly` | internal/cluster/ha_sync_worker.go:63-174 | over any run with such restarts, no job starts past a done one, new or resumed, if and only if no claim that was made blind gets its row and no restart finds a running row of a done node |
| `SyncJobs.StartsPastDone` | internal/cluster/ha_sync_worker.go:139-147 | the run that syncs a finished node again because its status could not be read |
| `SyncJobs.RestartsPastDone` | internal/cluster/ha_sync_worker.go:64-98 | the run, with every status read, in which a restart resumes a cancelled job of a node that has since been done |
| `SyncJobs.BootDoubles` | internal/cluster/ha_sync_worker.go:63-99 | a boot has no two jobs for one node if and only if no two running rows it finds are one node's |
| `SyncJobs.SecondRunningRow` | internal/cluster/ha_sync_worker.go:154-158 | a step of either writer of the table creates a second running row exactly when it adds one to a node that has one |
| `SyncJobs.AnyRestarts` | internal/cluster/ha_sync_worker.go:215-250 | with any number of restarts no node ever has two jobs or two running rows, if every job and pass that ends has recorded it, a pass begins only when this node has no running row, and every restart finds all running rows |
| `SyncJobs.AnyRestartsStartWell` | internal/cluster/ha_sync_worker.go:215-250 | if besides every running row is its node's latest and the status reads work, no job starts past a done one over any restarts |
| `SyncJobs.StatusExactly` | internal/cluster/ha_sync_worker.go:228-249 | over any run a row keeps its node, and its status is the last result recorded for it: done for a success, failed for a failure |
| `SyncJobs.RetriedExactly` | internal/cluster/ha_sync_worker.go:136-147 | once the latest job of a node has recorded its result, and whatever happens to other nodes meanwhile, the next trigger takes the node's slot exactly if the result was a failure and the job has ended |
| `SyncJobs.EndIsFinal` | internal/cluster/ha_sync_worker.go:219-249 | a goroutine or pass that has ended never touches its row again, until a restart |
| `SyncJobs.SlotExactly` | internal/cluster/ha_sync_worker.go:131-172 | over any run a node's slot is taken exactly while it has a claim, a pending job or a live goroutine; whatever fails, none is left behind |
| `SyncJobs.FailedInsertUndoesClaim` | internal/cluster/ha_sync_worker.go:154-165 | a claim whose row cannot be created leaves no trace |
| `SyncJobs.DeltaNeverActs` | internal/cluster/stale_reconciler.go:681-723 | from a table with no row of this node, dropping every pass of the stale reconciler from any run changes nothing: it needs a done row that nothing else writes |
| `SyncJobs.CancelledDeltaDoubles` | internal/cluster/stale_reconciler.go:717-731 | from a table that has such a row, a cancelled pass, a second one and a restart run two jobs for this node |
| `SyncJobs.CancelledJobLeavesRow` | internal/cluster/ha_sync_worker.go:230-249 | a job cancelled with its request ends with its row still running |
| `SyncJobs.CancelledJobDoubles` | internal/cluster/ha_sync_worker.go:63-174 | after that, one trigger and one restart run two jobs for the node |
| `SyncJobs.HASyncWorker.constructor` | internal/cluster/ha_sync_worker.go:63-99 | the boot loop reserves the slot of every running row that is found, for any table; no node gets two jobs exactly if no two of them are one node's |
| `SyncJobs.HASyncWorker.Trigger` | internal/cluster/ha_sync_worker.go:104-174 | nothing for factor 1; otherwise every target ends up in flight or done if the inserts work, no node gets two jobs, and no slot is reserved past a done job if the status reads work |
| `SyncJobs.HASyncWorker.TriggerNode` | internal/cluster/ha_sync_worker.go:131-172 | exactly when a node gets a row and a slot, with a failing status read and a failing insert |
| `SyncJobs.HASyncWorker.StartJob` | internal/cluster/ha_sync_worker.go:154-172 | the row and the job for a reserved slot, which stays the node's only one |
| `Quorum.ClusterCanAcceptWrites` | internal/cluster/manager.go:1119-1150 | the counting loop admits exactly if local plus healthy peers reach the quorum, with the standalone, small-factor and error cases |
| `Quorum.ReplicaTargets` | internal/cluster/ha_object_manager.go:270-301 | the first factor-1 healthy peers other than the local node, and when the fan-out is inactive |
| `Quorum.ArrivalOrderDoesNotMatter` | internal/cluster/ha_object_manager.go:513-527 | results arriving in any order give the same count |
| `Quorum.ConfirmedCountsNodes` | internal/cluster/ha_object_manager.go:511-536 | the count of confirmations is the number of distinct confirming nodes |
| `Quorum.HAObjectManager.CollectAndCheckQuorum` | internal/cluster/ha_object_manager.go:511-536 | success exactly if enough confirm; precisely the failed nodes whose update works become unavailable |
| `Quorum.HAObjectManager.PutObject` | internal/cluster/ha_object_manager.go:134-152 | the outcome of admission, local write, fan-out and quorum, and the node table afterwards |
| `Quorum.RefusedExactly` | internal/cluster/manager.go:1119-1150 | a write is refused at admission exactly if the cluster is enabled, the configured factor exceeds two and was read, the table is readable and local plus healthy peers are below the quorum |
| `Quorum.FailedExactly` | internal/cluster/ha_object_manager.go:134-152 | a write that is not refused fails exactly if the local write fails, or the fan-out is active and the copies are fewer than half the factor it read |
| `Quorum.AcknowledgedIsStored` | internal/cluster/ha_object_manager.go:140-143 | an acknowledged write was stored here, whatever was read of the cluster |
| `Quorum.SentExactly` | internal/cluster/ha_object_manager.go:134-152 | a write that is refused or not stored is sent to nobody; the holders of any other are this node and those it was sent to and reached |
| `Quorum.AcknowledgedMeansQuorum` | internal/cluster/ha_object_manager.go:270-301 | every acknowledged write is on a quorum for the configured factor if and only if that is at most two, or the fan-out read it and finds a target |
| `Quorum.FactorReadFails` | internal/cluster/manager.go:1073-1078 | when the factor cannot be read, a healthy cluster acknowledges a write that only the local node holds |
| `Quorum.UnchangedTableGivesQuorum` | internal/cluster/ha_object_manager.go:134-152 | with the table unchanged between admission and fan-out, an acknowledged write is on at least ceil(factor/2) distinct nodes, all local or reached |
| `Quorum.QuorumsMeet` | internal/cluster/manager.go:1119-1150 | any two sets of quorum size in a cluster share a node if and only if its size is odd |
| `Quorum.AcknowledgedWritesMeet` | internal/cluster/ha_object_manager.go:134-152 | in a cluster of as many nodes as the factor, any two acknowledged writes share a node that holds both, if and only if the size is odd |
| `Quorum.HalfAcknowledges` | internal/cluster/ha_object_manager.go:270-301 | half of a cluster of even size, cut off from the rest, acknowledges a write that no other node holds |
| `StoragePressure.LoadStoragePressureThresholds` | internal/cluster/health.go:26-47 | release below threshold, both in range, for every configuration, and which value wins |
| `StoragePressure.PressureExactly` | internal/cluster/health.go:66-86 | for every probe sequence, unreachable and unknown-capacity probes included, exactly when a node ends in storage pressure |
| `StoragePressure.LastOutsideDecides` | internal/cluster/health.go:66-86 | with informative probes and a healthy start: exactly when the last sample outside the band was at or above the threshold |
| `StoragePressure.UsageExactly` | internal/cluster/health.go:66-70 | usage reaches x percent exactly if the used part is at least that share of the capacity |
| `NodeLifecycle.DeathLeavesEnough` | internal/cluster/dead_node_reconciler.go:252-312 | a node becomes dead only by reconcile or drain, and as many healthy nodes remain as the factor that step read |
| `NodeLifecycle.DeathLeavesEnoughExactly` | internal/cluster/dead_node_reconciler.go:252-312 | every death leaves as many healthy nodes as configured if and only if the factor was read or is at most 1 |
| `NodeLifecycle.LastSurvivor` | internal/cluster/dead_node_reconciler.go:253-256 | when the factor cannot be read, a drain leaves one healthy node whatever is configured |
| `NodeLifecycle.RevivedExactly` | internal/cluster/ha_object_manager.go:523-526 | a step brings a dead node back exactly if it is the unguarded fan-out write or a probe that read the row before the death |
| `NodeLifecycle.DeadIsForEver` | internal/cluster/health.go:88-103 | over every run a dead node stays dead if and only if no step is one of those writes to it |
| `NodeLifecycle.StatusExactly` | internal/cluster/health.go:66-138 | over every run and for each status: a node ends with it exactly if some step gave it (an unanswered probe or a failed read or write Unavailable, a slow probe Degraded, a kill Dead, and so on) or it started with it, and no later step wrote its status |
| `NodeLifecycle.CheckWritesOnce` | internal/cluster/health.go:54-138 | a check writes once: until another reads the row its write has no effect |
| `NodeLifecycle.DegradedExactly` | internal/cluster/dead_node_reconciler.go:348-411 | after any run the cluster is marked degraded exactly if the last successful recount found too few healthy nodes, by the factor it read, or a marking was refused since (or, with no recount, if it was marked at the start or a marking was refused) |
| `NodeLifecycle.PassTellsExactly` | internal/cluster/dead_node_reconciler.go:348-384 | a completed pass leaves the mark right for the configured factor, whatever came before it, if and only if its recount works and the factor was read or is at most 1 |
| `NodeLifecycle.FailedRecountMisleads` | internal/cluster/dead_node_reconciler.go:349-362 | for every factor of at least two: of just enough healthy nodes one is lost, and a pass that cannot count or cannot read the factor leaves the cluster unmarked |
| `NodeLifecycle.MarkingExactly` | internal/cluster/dead_node_reconciler.go:252-342 | a candidate is killed exactly if enough healthy nodes remain, else spared with the reason set; a failing statement changes nothing |
| `NodeLifecycle.TriedOnce` | internal/cluster/dead_node_reconciler.go:133-161 | once tried, or once its pass is over, a node is not marked until a pass finds it again |
| `NodeLifecycle.DrainNeverDegrades` | internal/cluster/dead_node_reconciler.go:166-191 | a drain whose statements work kills exactly if that does not starve the cluster, and then leaves it not degraded |
| `NodeLifecycle.RefusedDrain` | internal/cluster/dead_node_reconciler.go:166-191 | a refused drain leaves a reason exactly if the healthy nodes, this one included, are too few, or the recount fails |
| `NodeLifecycle.FailedDrain` | internal/cluster/dead_node_reconciler.go:174-187 | a drain that returns an error changes nothing |
| `NodeLifecycle.PressureExactly` | internal/cluster/health.go:66-86 | over every run of all the status writers, a node is under storage pressure exactly if a probe reached the threshold (or read the pressure before it was lost) and every later step kept it: no failure mark, no kill, no probe below release or blind to it |
| `NodeLifecycle.OutageStart` | internal/cluster/health.go:105-138 | a recorded outage start is never moved and is cleared exactly by a successful probe of a live node |
| `NodeLifecycle.TimerExactly` | internal/cluster/health.go:105-138 | over every run an outage is on record exactly if a check or a read has failed and no check has succeeded since; a failed replica write starts none |
| `NodeLifecycle.OverdueIsFound` | internal/cluster/dead_node_reconciler.go:197-240 | a node whose check or read failed, with no success since and not killed, is found by the first pass that comes the threshold later |
| `NodeLifecycle.DeadByTimer` | internal/cluster/dead_node_reconciler.go:133-161 | in every run a node declared dead by timer was a candidate whose outage began at least the threshold ago, and it had no successful probe since exactly if that start is still recorded |
| `NodeLifecycle.RecoveredNodeIsMarkedDead` | internal/cluster/dead_node_reconciler.go:147-157 | a node that recovers between the candidate query and its turn is declared dead while healthy |
| `NodeLifecycle.ClusterManager.CheckNodeHealth` | internal/cluster/health.go:54-138 | the new row and status after a probe, the error when the row is missing or the update fails, and that no other row changes |
| `NodeLifecycle.ClusterManager.MarkNodeUnavailable` | internal/cluster/manager.go:768-781 | the guarded update of status and outage start, or nothing if it fails |
| `NodeLifecycle.ClusterManager.GetReplicationFactor` | internal/cluster/manager.go:1073-1085 | the configured factor, or 1 and no error when it cannot be read |
| `NodeLifecycle.ClusterManager.MarkDeadIfSafe` | internal/cluster/dead_node_reconciler.go:252-342 | dead exactly if enough healthy nodes for the factor it read would remain and the transaction works; marked degraded exactly on a refusal that is written; which failures are errors |
| `NodeLifecycle.ClusterManager.RecomputeClusterDegradedState` | internal/cluster/dead_node_reconciler.go:348-384 | the degraded mark after a recount, by the factor it read; the old one if the count or the write fails |
| `NodeLifecycle.ClusterManager.RunOnce` | internal/cluster/dead_node_reconciler.go:133-161 | the table after a pass over all candidates in any order, some of whose markings fail, and the degraded mark with and without a recount |
| `NodeLifecycle.ClusterManager.MarkNext` | internal/cluster/dead_node_reconciler.go:147-152 | one turn of the pass; looking at a candidate does not change what the next is checked against |
| `NodeLifecycle.ClusterManager.MarkAll` | internal/cluster/dead_node_reconciler.go:147-152 | the loop over all candidates, in any order |
| `NodeLifecycle.ClusterManager.DrainNode` | internal/cluster/dead_node_reconciler.go:166-191 | refused for unknown and dead nodes and on a failing marking; otherwise as the guarded kill, with the mark recomputed if that works |
| `TokenBucket.APIRateLimiter.Allow` | internal/auth/api_rate_limiter.go:35-64 | the decision and the new bucket |
| `TokenBucket.APIRateLimiter.Sweep` | internal/auth/api_rate_limiter.go:67-79 | exactly the buckets idle for more than two minutes go |
| `TokenBucket.TokensInRange` | internal/auth/api_rate_limiter.go:35-64 | tokens stay within 0 and the rate |
| `TokenBucket.UnlimitedPasses` | internal/auth/api_rate_limiter.go:36-38 | with a rate of zero or less every request passes and no bucket changes |
| `TokenBucket.SweepsAreInvisible` | internal/auth/api_rate_limiter.go:67-79 | dropping all sweeps from any event sequence changes no answer, with any changes of rate |
| `TokenBucket.RateBound` | internal/auth/api_rate_limiter.go:35-64 | in any interval of length T at most r + rT requests of a key pass, other keys and sweeps interleaved |
| `TokenBucket.BoundIsTight` | internal/auth/api_rate_limiter.go:35-64 | r + rT is reached for every T that refills a whole number of tokens, by a trace that meets the bound's conditions |
| `LoginLimiter.LoginRateLimiter.AllowLogin` | internal/auth/rate_limiter.go:46-71 | the same decision function as CheckAndRecord, with nothing recorded |
| `LoginLimiter.LoginRateLimiter.RecordFailedAttempt` | internal/auth/rate_limiter.go:74-104 | counts within the window, or starts a new one |
| `LoginLimiter.LoginRateLimiter.UpdateMaxAttempts` | internal/auth/rate_limiter.go:107-114 | ignores limits that are not positive |
| `LoginLimiter.LoginRateLimiter.CheckAndRecord` | internal/auth/rate_limiter.go:127-152 | the decision, and what is recorded in each case |
| `LoginLimiter.LoginRateLimiter.Cleanup` | internal/auth/rate_limiter.go:194-206 | which entries go |
| `LoginLimiter.CleanupsAreInvisible` | internal/auth/rate_limiter.go:194-206 | dropping all cleanups from any event sequence changes no answer |
| `LoginLimiter.LoginBound` | internal/auth/rate_limiter.go:127-152 | any interval no longer than the window has at most 2M-1 allowed logins of an address, from any state, with no reset and no change of limit |
| `LoginLimiter.LockedExactly` | internal/auth/rate_limiter.go:46-152 | within one window, whatever else goes on, an address may log in exactly while its failed attempts and passed checks are fewer than the limit; and once the window is over |
| `LoginLimiter.DenialsAreInvisible` | internal/auth/rate_limiter.go:127-152 | logins that were turned down neither count nor prolong the window |
| `LoginLimiter.ResetForgives` | internal/auth/rate_limiter.go:116-121 | a reset forgives one address at once and no other |
| `LoginLimiter.NewLimitHolds` | internal/auth/rate_limiter.go:107-114 | a new positive limit holds for running windows as well; another is ignored |
| `LoginLimiter.BoundIsTight` | internal/auth/rate_limiter.go:127-152 | exactly 2M-1 logins pass within half a window, by a trace that meets the bound's conditions |
| `CircuitBreaker.Breaker.AllowRequest` | internal/cluster/circuit_breaker.go:103-125 | the decision and the new state |
| `CircuitBreaker.Breaker.RecordFailure` | internal/cluster/circuit_breaker.go:128-149 | the new state after a failure in each mode |
| `CircuitBreaker.Breaker.RecordSuccess` | internal/cluster/circuit_breaker.go:152-172 | the new state after a success in each mode |
| `CircuitBreaker.Breaker.ResetState` | internal/cluster/circuit_breaker.go:214-222 | back to closed with no counts |
| `CircuitBreaker.EveryHistoryIsFaithful` | internal/cluster/circuit_breaker.go:103-172 | after any interleaving the counters are what the history says: failures in a row, the last failure, successes of the current trial |
| `CircuitBreaker.OpensExactly` | internal/cluster/circuit_breaker.go:128-149 | a closed breaker opens exactly on the failure that makes failureThreshold in a row |
| `CircuitBreaker.AdmitsExactly` | internal/cluster/circuit_breaker.go:103-125 | an open breaker admits exactly if more than the timeout has passed since the last recorded failure |
| `CircuitBreaker.ClosesExactly` | internal/cluster/circuit_breaker.go:152-172 | a half-open breaker closes exactly on the successThreshold-th success since its trial began, with no failure in the trial |
| `CircuitBreaker.HalfOpenExactly` | internal/cluster/circuit_breaker.go:103-172 | the breaker is half open exactly during a trial whose successes do not complete the threshold |
| `CircuitBreaker.TrialExactly` | internal/cluster/circuit_breaker.go:103-172 | a trial with nothing but admissions and successes goes on until the threshold is complete, and then the breaker is closed |
| `CircuitBreaker.CountersExactly` | internal/cluster/circuit_breaker.go:128-172 | successes are counted in a trial only, and failures afresh when the breaker has opened |
| `AuditQueue.Conserved` | internal/audit/sqlite.go:124-187 | in every run each accepted event is, in order and exactly once, in a settled batch, the current batch or the queue |
| `AuditQueue.CommittedExactly` | internal/audit/sqlite.go:131-139 | the table holds all settled events exactly if no batch failed |
| `AuditQueue.FlushCommits` | internal/audit/sqlite.go:162-187 | when a flush returns and no insert failed, everything accepted before the call is in the table |
| `AuditQueue.CloseCommits` | internal/audit/sqlite.go:370-379 | when the worker has exited everything accepted is settled, and in the table exactly if no insert failed |
| `AuditQueue.FlushIsServed` | internal/audit/sqlite.go:162-187 | draining the queue serves the oldest waiting flush: queue and batch are empty, it is answered, and all of it is in the table if the insert works |
| `AuditQueue.CloseEnds` | internal/audit/sqlite.go:143-160 | after Close the worker takes what is queued, writes the last batch and exits; then everything accepted is in the table |
| `AuditQueue.AcceptedExactly` | internal/audit/sqlite.go:224-260 | an event is accepted exactly while the queue is open and has fewer than 4096 others on it |
| `AuditQueue.ReceiveWritesExactly` | internal/audit/sqlite.go:150-160 | taking an event writes a batch exactly if it is the 128th of it |
| `AuditQueue.SQLiteStore.LogEvent` | internal/audit/sqlite.go:224-260 | accepted exactly if there is room in time |
| `AuditQueue.SQLiteStore.InsertBatch` | internal/audit/sqlite.go:131-139 | a batch is appended whole or not at all, and is gone from memory either way |
| `AuditQueue.SQLiteStore.OnReceive` | internal/audit/sqlite.go:143-160 | one event moves from the queue to the batch, which is written when full |
| `AuditQueue.SQLiteStore.OnTimer` | internal/audit/sqlite.go:174-176 | the batch is written, the queue is untouched |
| `AuditQueue.SQLiteStore.Flush` | internal/audit/sqlite.go:183-187 | with any number of requests waiting before it, the queue and the batch are emptied, and the table holds all accepted events exactly if nothing failed |
| `AuditQueue.SQLiteStore.OnFlush` | internal/audit/sqlite.go:162-172 | the worker drains the queue, writes the batch and answers the request that waited longest; the table then holds all accepted events exactly if nothing failed |
| `AuditQueue.SQLiteStore.DrainOne` | internal/audit/sqlite.go:166-170 | one queued event moves to the batch |
| `AuditQueue.SQLiteStore.Answer` | internal/audit/sqlite.go:171-172 | the end of a flush barrier: the batch is written before the caller is answered |
| `AuditQueue.SQLiteStore.OnClosed` | internal/audit/sqlite.go:144-148 | a closed, empty channel: the last batch is written and the worker exits |
| `AuditQueue.SQLiteStore.WriteLast` | internal/audit/sqlite.go:144-148 | the flush before the worker exits; the table holds all accepted events exactly if nothing failed |
| `AuditQueue.SQLiteStore.Close` | internal/audit/sqlite.go:370-379 | the queue is drained, and the table holds all accepted events exactly if nothing failed |
| `Migration.SafeExactly` | internal/cluster/migration.go:406-512 | at every crash point of every run each object is on some node, if and only if the migration verifies, keeps the source, cannot delete, or the bucket is empty |
| `Migration.LocationExactly` | internal/cluster/migration.go:406-489 | in every run the location changes only to a node with the whole bucket, if and only if the migration verifies or the bucket is empty |
| `Migration.MovedMeansCopied` | internal/cluster/migration.go:406-489 | with verification every object is on the target once the location has changed |
| `Migration.AtMostNineLost` | internal/cluster/migration.go:532-634 | at no point of any run, verified or not, are ten objects on neither node |
| `Migration.LosesAsMany` | internal/cluster/migration.go:532-634 | without verification a run that succeeds can lose any number of objects up to nine |
| `Migration.AllCopiedMeansAllBytes` | internal/cluster/migration.go:1046-1061 | once the object counts agree so do the byte counts: the one per cent rule rejects nothing more |
| `Migration.FailsExactly` | internal/cluster/migration.go:406-512 | a migration fails exactly on a failure of the step it is at; the tenth failed copy is one, and so is a verification that finds the copy incomplete |
| `Migration.NothingFails` | internal/cluster/migration.go:406-512 | when nothing fails a migration of any bucket ends done, with the bucket on the target, the location changed, and the source empty exactly if that was asked for |
| `Migration.MovedMeansShared` | internal/cluster/migration.go:449-489 | the location changes only after permissions, ACLs and configuration have been sent |
| `Migration.PartlyDeleted` | internal/cluster/migration.go:491-509 | a deletion that breaks off leaves the source without exactly what was removed |
| `Migration.BytesCloseExactly` | internal/cluster/migration.go:1046-1061 | the byte check passes exactly between 99 and 101 per cent, and with nothing expected only for nothing |
| `Migration.MigrationJob.CopyObject` | internal/cluster/migration.go:637-696 | what the target holds after an acknowledged, a refused and an unanswered copy |
| `Migration.MigrationJob.CopyNext` | internal/cluster/migration.go:570-611 | one row of the listing: what the target holds, the counters, and the job's progress at every tenth copy |
| `Migration.MigrationJob.CopyBucketObjects` | internal/cluster/migration.go:532-634 | succeeds exactly if the listing is complete and fewer than ten copies fail; the job's counters afterwards |
| `Migration.MigrationJob.VerifyMigration` | internal/cluster/migration.go:1046-1124 | the three checks, with the first ten objects |
| `Migration.MigrationJob.ShareSettings` | internal/cluster/migration.go:449-469 | permissions, ACLs and configuration in order, stopping at the first failure |
| `Migration.MigrationJob.Check` | internal/cluster/migration.go:471-478 | verification passes exactly if every object was acknowledged and the sample is on the target |
| `Migration.MigrationJob.Prepare` | internal/cluster/migration.go:406-478 | the location step is reached exactly if every earlier step works: with verification no copy may fail, without it nine may; the source and the location are untouched |
| `Migration.MigrationJob.Switch` | internal/cluster/migration.go:480-509 | location first, then deletion, with each failure |
| `Migration.MigrationJob.ExecuteMigration` | internal/cluster/migration.go:406-512 | succeeds exactly if all steps do; however it ends, a verified one has lost nothing and moved only a complete bucket, and no run has lost ten |

## Left out

- HTTP, TLS, HMAC, JWT and the peer-side handlers: a send succeeds or fails, and a copy that arrives is taken to be faithful.
- SQL text and schemas: tables are maps and sequences with the updates the code makes. Reads and writes of job rows, node rows and the degraded reason may fail: by a parameter, or as an event that does not happen (a scrub checkpoint that was not stored is one that the restart does not pick). Failing reads of other settings, which fall back to defaults, and failing writes of progress, history and scrub-run rows are not modelled.
- Header canonicalisation, payload hashes and the older Signature Version 2 resource string (internal/auth/manager.go:1752-1950).
- Policy: IP and CIDR parsing, case folding and number parsing are parameters of `Library`; so is which key a case-insensitive lookup finds first, since the code iterates over a map.
- Bytes are characters below 256 and floats are reals; rounding is not modelled.
- AntiEntropy.Converges and ScrubBatches.RoundsConverge: for objects without multipart ETags; `WhoScrubsFirst` and `MultipartQuiescentNotAgreed` say what goes wrong with them. Deletions and client writes during a scrub are not modelled.
- Scrub and SyncCopy: the repair that follows a comparison is in `AntiEntropy` and `ScrubBatches`; the bucket list and the buckets stay as they are over a cycle, and the batch size is the same after a resume.
- PutObject: what the roll-back of a failed write restores, requests that are themselves replicas, and the fan-out of deletes, multipart completions and metadata.
- NodeLifecycle: adding and removing nodes, stale marking and the health history; the audit events the reconciler emits.
- LoginLimiter: GetAttempts, and the goroutines that call the sweeps of both limiters; a sweep is an event that may come at any time.
- AuditQueue: JSON rendering of details, queries, retention. LogEvent after Close panics in the source (a send on a closed channel) and is excluded. A flush still waiting when the worker exits is never answered and stays in `waiting`.
- Migration: the bucket is not written during the migration, an acknowledged object stays on the target, and the rows of the listing are distinct; creating and updating the job row is omitted.
