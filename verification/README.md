# A verified model of mkit's protocol core

mkit is a content-addressed version-control service: Workers hold refs, objects, names and chat; a
background worker ("spammer") keeps a demo room alive; reference codecs in Python pin the wire formats.
This project models the parts where correctness is hardest to see by reading one function, and proves
properties of whole inputs, whole runs and whole interleavings.

Six components, each in the form its source has:

* **BLAKE3 subtree merging** (`Words`, `HashTree`, `PartMerge`, `Blake3`, `Blake3Calls`). A file is hashed part by part as
  non-root subtrees and the part values are merged. The compression function is a parameter, so every
  theorem holds for every compression function. The tree built by the recursion is characterised without
  the recursion, as the one left-balanced tree over the chunks, and merging parts is proved equal to
  hashing the whole input, down to the bytes of the vector check; and what goes into every single compression is
  said by the position of its block.
* **The tick scheduler** (`Scheduler`, `SchedulerRuns`, `SchedulerDrain`, `SchedulerLiveness`,
  `SchedulerBundles`). `planTick` and `enqueueResponseBundle` are methods with the source's loops, tied to
  specification functions; runs are sequences of ticks and enqueues, with the history of picks made
  explicit. Floors, fairness, exactly-once liveness, per-bundle distinctness and invisible pruning are
  statements about every run. `WriteQuota` and `ServerFloors` compose it with the server's rules.
* **The authenticated-operation ledger** (`Ledger`, `LedgerRuns`). The SQL table is a map held by a class;
  a transaction commits everything or nothing. Exactly-once holds through retries, aborts and expiry
  pruning.
* **Refs** (`RefCas`, `RefRetries`, `RefListing`, `ByteStrings`). Any number of concurrent pushers, interleaved at every
  remote call, over the server's compare-and-swap, with the exact condition for a run to win, retry or give up; and keyset paging of prefix listings, with the exact
  prefixes for which it is right.
* **The observer pipeline** (`Observer`, `ObserverLaws`, `ObserverRuns`, `Polling`, `PollingRuns`,
  `PollingLosses`). A poll lists
  the refs and reads their pages later, refs share history, and the dedup log is bounded. Over whole runs
  every watched real commit is reported and nothing else; two reports of one id are more than 512 reports
  apart; without shared history each is reported once exactly when every report that is ahead of its listing
  is still remembered by the next poll. What a push inside a poll loses is stated exactly.
* **Statement and token codecs** (`Decimal`, `Hex`, `Utf8`, `Base64Url`, `LengthPrefixed`, `Texts`, `Names`,
  `Grammars`, `Statements`, `UrlToken`, `KeySet`, `Grants`, `GrantForms`, `Rejections`). Strict parsers and
  printers with one canonical form, every grammar said by what its texts are glued from, the reason of every rejection, base64url against its bit stream, and a key set whose rotation callers cannot observe.

`dafny verify dfyconfig.toml` checks everything.

## Assumptions made explicit

* Hashes of objects are an injective function (`RefCas.Injective`); the fingerprint of an operation determines
  its scope and expiry (`LedgerRuns.Determined`); a commit hash stands for one commit (`Polling.HashesAgree`)
  and occurs once on a ref (`Polling.Chains`), on as many refs as share it.
* Polls: refs only grow, one `list_refs` reads one state of the refs, every page is read at some later time of its
  own, the next listing comes after those, and a ref listed before has gained at most ten commits since that
  listing when its page is read (`Polling.Follows`). The set of synthetic authors stays the same over a run.
* Clocks: the floor, chat and quota-composition theorems hold for any sequence of clock readings. The bundle,
  cooldown, ledger and quota-span theorems need a nondecreasing clock and say so; for the ledger `ChargedAgainIff`
  says exactly what a clock that goes back does. Liveness needs ticks at least 1000 ms apart and a pool of at least 64.
* The scheduler/server composition uses one shared clock. A push is charged two operations when it is picked, and
  two more when it retries after a conflict; a push and its retry bring at most 1 MiB, and at most 30 pushes of one
  identity in a window retry. `OneRetryTooMany` shows that 31 are too many.
* `ipaddress.IPv6Address` is a parameter of which only this is used: an address without a zone consists of hex
  digits, colons and dots. The key id of a public key and the signature test are parameters without any
  assumption, except that the key ids of one key set are distinct where a theorem says so.

## Where the code and its prose differ

* `apps/repo-worker/src/write_quota.rs:18-21` says an author can write about twice the budget in any span of two
  windows. The code allows `k + 1` budgets in `k` windows (`SpanBound`), and for every span some run of writes within
  the 8 MiB cap of `PutObject` reaches both halves of that bound (`SpanBoundIsMet`). `OpenSpan` and `OpenWindowAdds` give
  the exact excess over `k` budgets, and `ProseBoundIff` the exact condition for none, on the stored row: no window is
  open at the start of the span, or the open one has nothing left.
* `apps/repo-worker/src/refs.rs:48-55` says that dropping the upper bound of a prefix scan is still correct when the
  successor is not UTF-8. Over tables of text names it is correct only for the prefixes that consist of U+10FFFF
  alone, the empty one included (`ListedRightIff`); every other such prefix lists a text outside it
  (`InexactListsAStranger`, and `NoUpperBoundIsInexact` for a short one). A prefix of the ref-name grammar always has
  a text successor (`GrammarPrefixIsExact`), so the grammar check in front of the scan is what makes it correct.
* `apps/spammer-worker/src/responder.ts:113-120` says that a new ref is acknowledged once, at its head. The page is read
  after the listing, and the watermark takes the listed head: a push in between loses that head for good
  (`NewHeadIsReportedIff`, `PushLosesAHead`), and a new fork ref takes the author of the pushed commit
  (`NewForkIsRightIff`), which can lose the fork event (`NewForkIsReportedIff`, `PushHidesAFork`).
* `apps/spammer-worker/src/observer.ts:206-211` says that re-reporting never yields a duplicate. The log remembers 512
  ids, and a branch at older history is reported again (`ForgottenIsReportedAgain`); so is a commit pushed inside a poll
  when 512 others are reported with it, without any shared history (`PushedAndForgotten`). `RepeatsAreFarApart` is
  what does hold for any polls, and `EveryNewCommitOnceIff` the exact condition without shared history.
* `apps/spammer-worker/src/events.ts:285-296` says that only one identity remixing one upstream ever writes a fork
  ref. The ref keeps twelve hex digits of each, so exactly the pairs agreeing on those share it
  (`ForkRefsShared`). The compare-and-swap theorems do not need the claim.
* `apps/spammer-worker/src/responder.ts:83-96` caps a ref at ten accepted commits a poll; `WalkKeepsAllIffAtMostTen`
  shows that ten is the exact limit up to which nothing is lost.

## Model

| member | source | states |
|---|---|---|
| `Words.UnpackPack` | scripts/golden/blake3_subtree_ref.py:108-113 | Any list of 32-bit words survives little-endian packing and unpacking. |
| `HashTree.LeftLen` | scripts/golden/blake3_subtree_ref.py:136-140 | The left subtree of an n-byte input is a power-of-two number of full chunks with left < n <= 2 left. |
| `HashTree.SplitIsUnique` | scripts/golden/blake3_subtree_ref.py:136-140 | No other power of two meets those bounds. |
| `HashTree.ChunkAt` | scripts/golden/blake3_subtree_ref.py:143-152 | The leaves partition the data: leaf i is bytes 1024 i to 1024 (i + 1), counters are consecutive, all leaves but the last are full. |
| `HashTree.ShapeLeftBalanced` | scripts/golden/blake3_subtree_ref.py:143-152 | The recursion builds a left-balanced tree (section 2.1 of the BLAKE3 paper) whose leaves are exactly the chunks. |
| `HashTree.LeftBalancedUnique` | scripts/golden/blake3_subtree_ref.py:143-152 | A left-balanced tree is determined by its leaves, so the rule leaves no freedom. |
| `HashTree.SubtreeHashesTheLeftBalancedTree` | scripts/golden/blake3_subtree_ref.py:143-152 | For every input and 1024-aligned offset, `subtree` is the hash of the one left-balanced tree over its chunks, counters starting at offset/1024. |
| `PartMerge.MergeSplit` | scripts/golden/blake3_subtree_ref.py:172-181 | For part sizes 1024 times a power of two, the split of any run of parts falls on a part boundary strictly inside the run. |
| `PartMerge.MergeIsSubtree` | scripts/golden/blake3_subtree_ref.py:172-181 | Merging the values of consecutive parts equals hashing their bytes as one subtree, an induction relating two different recursions. |
| `PartMerge.MergeIsRoot` | scripts/golden/blake3_subtree_ref.py:172-181 | For every input longer than one part, merging the non-root part values gives exactly the root value of the whole input. |
| `Blake3.BlocksCoverChunk` | scripts/golden/blake3_subtree_ref.py:116-120 | The blocks of a chunk put back together are the chunk; the empty chunk has one empty block. |
| `Blake3.ChunkCv` | scripts/golden/blake3_subtree_ref.py:116-127 | The block loop computes the chaining the chunk specification records, flags included. |
| `Blake3.RunsComputeValues` | scripts/golden/blake3_subtree_ref.py:143-152 | Recording every compression does not change the value. |
| `Blake3.RootFlag` | scripts/golden/blake3_subtree_ref.py:116-152 | `ROOT` is set on exactly the last compression of a root hash and on no compression of a part. |
| `Blake3.RuleInputAt` | scripts/golden/blake3_subtree_ref.py:159-164 | Byte i of the input rule is i mod 251 wherever the slice starts. |
| `Blake3.RuleInputSlice` | scripts/golden/blake3_subtree_ref.py:159-164 | A slice of the rule is the same bytes of the whole input. |
| `Blake3.PartFromRule` | scripts/golden/blake3_subtree_ref.py:167-169 | A part hashed from its own slice and packed unpacks to the words that were hashed. |
| `Blake3.CeilDiv` | scripts/golden/blake3_subtree_ref.py:205-209 | The part count is the only number of non-empty parts that make up the total. |
| `Blake3.CheckVector` | scripts/golden/blake3_subtree_ref.py:205-221 | The reassembly loop accepts exactly the vectors with the right geometry, the right part values and the BLAKE3 hash of the whole input as root. |
| `Blake3Calls.BlocksCompressed` | scripts/golden/blake3_subtree_ref.py:116-152 | For every input, offset and root flag: block j of chunk i is compressed once, in order; its message is the little-endian words of its own bytes, zero padded, its counter offset/1024 + i, its length its byte count, its flags those of its place, and its chaining value the written-out initial one or what came out of the block before. There is one parent for every chunk but the first, and the last call gives the value. |
| `Blake3Calls.TopCall` | scripts/golden/blake3_subtree_ref.py:130-152 | Over more than 1024 bytes the calls are those of the left part, those of the right part, and last one compression of the left value followed by the right value, counter 0, length 64, `PARENT` set. |
| `Blake3Calls.DigestBytes` | scripts/golden/blake3_subtree_ref.py:112-113 | The digest is the words that come out of the last compression, low byte first. |
| `Scheduler.SelectEligible` | apps/spammer-worker/src/scheduler.ts:484-501 | The scan returns the first admissible identity from the cursor, none only when all are excluded or inside the floor, and the cursor after it. |
| `Scheduler.DrainQueue` | apps/spammer-worker/src/scheduler.ts:631-688 | Phase 1: lanes, bookkeeping, remaining queue and events are those of the drain specification. |
| `Scheduler.AmbientPick` | apps/spammer-worker/src/scheduler.ts:697-732 | One ambient pick of phase 2, from any work done so far. |
| `Scheduler.PlanTick` | apps/spammer-worker/src/scheduler.ts:616-750 | A tick's events and next state are those of the specification the run theorems are about. |
| `Scheduler.HashStringToUint32` | apps/spammer-worker/src/scheduler.ts:268-275 | The loop computes the hash whose laws the next rows state. |
| `Scheduler.HashOfNothing` | apps/spammer-worker/src/scheduler.ts:269 | The hash of the empty text is 2166136261. |
| `Scheduler.HashOneMore` | apps/spammer-worker/src/scheduler.ts:270-273 | One more character: the exclusive-or with its code unit, then the product with 16777619 modulo 2^32; above the basic plane its high and then its low surrogate. |
| `Scheduler.HashOfA` | apps/spammer-worker/src/scheduler.ts:268-275 | The published value of FNV-1a for "a". |
| `Scheduler.SelectForkUpstream` | apps/spammer-worker/src/scheduler.ts:534-542 | An upstream is chosen exactly when there are candidates and the first hash of the tick is below 25 of 100, and it is the one at the second hash modulo their number. |
| `Scheduler.PruneAuthors` | apps/spammer-worker/src/scheduler.ts:332-335 | The pruning loop keeps exactly the authors still on cooldown. |
| `Scheduler.ComposeBundle` | apps/spammer-worker/src/scheduler.ts:338-375 | The bundle's intents, the reactions by a loop. |
| `Scheduler.EnqueueResponseBundle` | apps/spammer-worker/src/scheduler.ts:321-382 | A full queue or an author answered less than 300 s ago changes nothing; otherwise the bundle is queued, the author is remembered with this time, and exactly the authors whose 300 s are over are forgotten. |
| `SchedulerRuns.RunExplained` | apps/spammer-worker/src/scheduler.ts:616-750 | In every run the history of picks accounts for every change to floors and cursors, and each pick is what a scan of the lanes then in force selects. |
| `SchedulerRuns.FloorSafety` | apps/spammer-worker/src/scheduler.ts:616-732 | For any sequence of clock readings, two picks of one identity in one category, ambient or response, are at least its floor apart. |
| `SchedulerRuns.Fairness` | apps/spammer-worker/src/scheduler.ts:484-501 | Between two chat (or push) picks of one identity every other identity was picked in that category or was inside its floor when a successful scan passed it. |
| `SchedulerDrain.SomebodyFree` | apps/spammer-worker/src/scheduler.ts:484-501 | The counting argument: with 64 identities and ticks a second apart no category can saturate the pool. |
| `SchedulerDrain.TickDrains` | apps/spammer-worker/src/scheduler.ts:637-732 | A tick emits exactly the due intents in queue order, keeps exactly the rest, and keeps the invariant. |
| `SchedulerDrain.BundleShape` | apps/spammer-worker/src/scheduler.ts:338-375 | Every intent of a bundle carries the event's target, ref and author, each in its place, and the bundle id, and is due within 30 s; one is due strictly later than the enqueue. |
| `SchedulerDrain.BundleComposition` | apps/spammer-worker/src/scheduler.ts:341-375 | Reactions 2 or 3 by the parity of one hash, the i-th of n due i 30000 / n ms after the enqueue; then a chat exactly when a second hash is below 80 of 100, due after 15 s; then a remix exactly when a third is below 20, due after 30 s. |
| `SchedulerDrain.EnqueueKeepsSteady` | apps/spammer-worker/src/scheduler.ts:321-382 | An enqueue keeps at most one bundle queued, within what one bundle holds. |
| `SchedulerLiveness.RunSteady` | apps/spammer-worker/src/scheduler.ts:616-750 | Every reachable state satisfies that invariant. |
| `SchedulerLiveness.EmittedAtFirstTick` | apps/spammer-worker/src/scheduler.ts:637-688 | A queued intent is emitted at the first tick at or after its time, by no earlier step, and is gone afterwards. |
| `SchedulerLiveness.BundleReleased` | apps/spammer-worker/src/scheduler.ts:321-382 | No tick leaves anything overdue; a bundle is fully drained by the first tick 30 s after its enqueue. |
| `SchedulerLiveness.CapReleased` | apps/spammer-worker/src/scheduler.ts:327-330 | Once every accepted bundle is 30 s old a tick leaves the queue empty, so the in-flight cap is always released. |
| `SchedulerLiveness.ExactlyOnce` | apps/spammer-worker/src/scheduler.ts:321-688 | Over a whole run the emitted and the queued intents are, counted with multiplicity, the intents enqueued. |
| `SchedulerLiveness.CadenceKept` | apps/spammer-worker/src/scheduler.ts:697-732 | In every run tick n has exactly one ambient chat, reaction or push when n is a multiple of 5, 10 or 15 and none otherwise, whatever responses it drains; the push is a remix exactly when n / 15 is 7 modulo 8. |
| `SchedulerLiveness.PayloadUnchanged` | apps/spammer-worker/src/scheduler.ts:643-680 | Every emitted response carries the payload of its intent and is never early: a chat for a chat, a remix for a remix, a reaction for a reaction; ambient events carry none. |
| `SchedulerLiveness.AmbientPicksAre` | apps/spammer-worker/src/scheduler.ts:697-732 | In every run, for any pool and clock, the picks of a tick are responses and then at most one chat, push and reaction in this order, each of the kind its number says; a fork upstream is named only by a remix when the first hash of the tick is below 25 of 100, and is the fork at the second hash modulo their number. |
| `SchedulerBundles.BundleIdInjective` | apps/spammer-worker/src/scheduler.ts:338 | A bundle id determines the time of its enqueue, whatever the target text. |
| `SchedulerBundles.DistinctReactions` | apps/spammer-worker/src/scheduler.ts:667-688 | All reactions ever drained under one bundle id go to distinct identities even across ticks; the bookkeeping holds only queued bundles; at most one bundle is in flight. |
| `SchedulerBundles.PruningInvisible` | apps/spammer-worker/src/scheduler.ts:321-336 | At every step of every run the pruned author map decides as one that never forgets, and the two runs agree on everything else. |
| `SchedulerBundles.CooldownSpacing` | apps/spammer-worker/src/scheduler.ts:321-336 | Two bundles for one author are at least five minutes apart. |
| `SchedulerBundles.AnsweredIff` | apps/spammer-worker/src/scheduler.ts:321-336 | With a nondecreasing clock an event is answered if and only if the queue is empty and no event of its author was answered less than 300 s before. |
| `WriteQuota.RowWithinBudget` | apps/repo-worker/src/write_quota.rs:67-96 | The stored counters never exceed their caps, whatever the clock does. |
| `WriteQuota.NewWindowIs` | apps/repo-worker/src/write_quota.rs:67-96 | A first write, or one an hour after the window opened, opens a window with its own counts unless it alone exceeds 128 MiB. |
| `WriteQuota.OpenWindowIs` | apps/repo-worker/src/write_quota.rs:67-96 | In an open window the 301st op is refused as such before the bytes are looked at, and a write beyond 128 MiB for its bytes; any other is added. |
| `WriteQuota.SpanBound` | apps/repo-worker/src/write_quota.rs:67-96 | Accepted writes in any half-open span of k windows total fewer than (k + 1) 300 ops and at most (k + 1) 128 MiB. |
| `WriteQuota.SpanBoundIsMet` | apps/repo-worker/src/write_quota.rs:13-30 | For every start and every k >= 1 some run of writes of at most 8 MiB each reaches (k + 1) 300 - 1 ops and (k + 1) 128 MiB in k windows. |
| `WriteQuota.OpenWindowAdds` | apps/repo-worker/src/write_quota.rs:67-96 | The ops left of a window open at the start of a span, and the lesser of its bytes left and 8 MiB for each op left, can be used on top of k whole budgets by writes of at most 8 MiB. |
| `WriteQuota.OpenSpan` | apps/repo-worker/src/write_quota.rs:67-96 | No continuation within any size cap takes more than that on top of k budgets. |
| `WriteQuota.SettledSpan` | apps/repo-worker/src/write_quota.rs:67-96 | With nothing left of an open window, k windows take at most k budgets, whatever the sizes of the writes. |
| `WriteQuota.ProseBoundIff` | apps/repo-worker/src/write_quota.rs:18-21 | All continuations within the 8 MiB cap stay within k op (byte) budgets over k windows if and only if no window is open at the start, or the open one has no ops (no ops or no bytes) left. |
| `ServerFloors.ChatNeverRefused` | apps/repo-worker/src/chat.rs:78-83 | In every run the server never refuses a planned chat. |
| `ServerFloors.PushNeverExhausted` | apps/repo-worker/src/write_quota.rs:67-96 | In every run, with at most R <= 30 retried pushes of an identity in any window, the server refuses none of its writes: no window takes more than 240 + 2 R of 300 ops and 120 of 128 MiB. |
| `ServerFloors.OneRetryTooMany` | apps/spammer-worker/src/events.ts:164-215 | A run of the 64 identities from the initial state, a push each every half minute, in which 31 retries have the 301st write of the first identity refused. |
| `ServerFloors.RoundsGoRound` | apps/spammer-worker/src/scheduler.ts:484-501 | In that run the n-th push comes from identity n mod 64, half a minute after its last. |
| `Ledger.Operations.Reserve` | apps/mkit-worker-common/src/replay.rs:115-168 | The answer and the new table, written out case by case: expired, reused for another operation, answered, interrupted, failed or turned away by admission, fresh. |
| `Ledger.Operations.Finish` | apps/mkit-worker-common/src/replay.rs:169-180 | The reply is stored in the row of this scope and fingerprint and nowhere else. |
| `Ledger.NameStore.SetName` | apps/keys-worker/src/lib.rs:287-314 | The transaction answers and commits as the specification says; an injected failure leaves ledger and name untouched. |
| `LedgerRuns.FreshIsNew` | apps/mkit-worker-common/src/replay.rs:115-168 | A fingerprint reserved afresh was never charged before, pruning notwithstanding. |
| `LedgerRuns.AtMostOnce` | apps/mkit-worker-common/src/replay.rs:77-180 | In every run each fingerprint is charged at most once and nothing is applied for it after the effect that completed it. |
| `LedgerRuns.FirstReplyForever` | apps/mkit-worker-common/src/replay.rs:144-150 | Every later success returns the first stored reply and changes nothing. |
| `LedgerRuns.RowsHaveReplies` | apps/keys-worker/src/lib.rs:287-314 | For `set_name` every committed row has its reply. |
| `LedgerRuns.NeverIncomplete` | apps/keys-worker/src/lib.rs:290-292 | So "incomplete name transaction" is unreachable, whatever the clock does. |
| `LedgerRuns.NameWrittenOnce` | apps/keys-worker/src/lib.rs:287-314 | Each fingerprint's name is written at most once. |
| `LedgerRuns.ClockBackAppliesTwice` | apps/mkit-worker-common/src/replay.rs:155-158 | A clock that goes back past a pruned row lets the same fingerprint through again. |
| `LedgerRuns.ChargedAgainIff` | apps/mkit-worker-common/src/replay.rs:77-180 | Whatever the clock does, a fingerprint charged before is charged again if and only if its scope has no row, which a later reservation after its expiry has then pruned, and the clock reads no later than that expiry. |
| `LedgerRuns.RowUntilPruned` | apps/mkit-worker-common/src/replay.rs:155-158 | Whatever the clock does, the row of a charged fingerprint stays until a reservation made after its expiry prunes it. |
| `LedgerRuns.ExpiredIsRefused` | apps/mkit-worker-common/src/replay.rs:120-125 | In every run an operation past its time is an error and changes nothing. |
| `LedgerRuns.ReusedIsRefused` | apps/mkit-worker-common/src/replay.rs:139-143 | A scope that holds another fingerprint is an error and changes nothing, answered or not. |
| `LedgerRuns.RetryIsAnswered` | apps/mkit-worker-common/src/replay.rs:144-151 | A retry of an answered operation gets the stored answer and changes nothing. |
| `LedgerRuns.InterruptedIsCarriedOn` | apps/mkit-worker-common/src/replay.rs:144-151 | A retry of an operation without an answer is an error for `set_name`; otherwise it is carried on without a second charge. |
| `LedgerRuns.TurnedAwayIsAnswered` | apps/mkit-worker-common/src/replay.rs:152-154 | A new operation that admission rejects or fails is answered with that reply or reason: no row, no charge, no effect. |
| `LedgerRuns.AdmittedIsCommitted` | apps/mkit-worker-common/src/replay.rs:155-180 | A new operation that is admitted is answered by its action: charged, applied and recorded, expired rows dropped, when it succeeds; without a trace when it fails. |
| `LedgerRuns.ChargesWereAdmitted` | apps/mkit-worker-common/src/replay.rs:152-168 | In every run each charge belongs to a request that was admitted in time and succeeded. |
| `LedgerRuns.RepliesAreOwn` | apps/mkit-worker-common/src/replay.rs:169-180 | Every stored reply is what the action of a request for that scope and fingerprint returned. |
| `LedgerRuns.AnswersAreOwn` | apps/mkit-worker-common/src/replay.rs:115-168 | No client ever gets a reply to another operation, whatever the clock does. |
| `RefCas.CasIsExact` | apps/repo-worker/src/refs.rs:169-204 | A request is invalid exactly when malformed and commits exactly when well formed and the ref is what it expects; the conflict reason says what the ref was. |
| `RefCas.RunSound` | apps/spammer-worker/src/events.ts:164-219 | Every step of every interleaving keeps the protocol invariant. |
| `RefCas.LinearHistory` | apps/spammer-worker/src/events.ts:164-219 | In every interleaving each ref's history is a linear chain: every commit was put before the ref named it and its parent is the value it replaced. |
| `RefCas.CommitsStayReachable` | apps/spammer-worker/src/events.ts:303-346 | Every object ever committed stays reachable from the head ever after, and the depth of the head is the number of commits. |
| `RefCas.HeadsNeverRepeat` | apps/spammer-worker/src/events.ts:164-219 | A ref never takes one value twice. |
| `RefCas.CasDecides` | apps/repo-worker/src/refs.rs:169-204 | `Invalid` is never returned; a swap commits exactly when its ref gained no commit since the run read it. |
| `RefCas.WinnersAreTheHistory` | apps/spammer-worker/src/events.ts:203-217 | The runs that report success are the history, once each, with the id and parent they report. |
| `RefRetries.EndsByItsUpdates` | apps/spammer-worker/src/events.ts:164-219 | In every interleaving a run sends at most two updates, each after a read of its own; it has won exactly when its last update met no commit made since the read before it, and given up exactly when it sent two and both met one. |
| `RefRetries.BeatenByOthers` | apps/spammer-worker/src/events.ts:203-217 | The commits an update meets are never its own run's. |
| `RefRetries.AttemptDecides` | apps/spammer-worker/src/events.ts:164-219 | An attempt whose ref gained no commit between its read and its update commits what it signed on the head it read; any other changes nothing, and the run reads again after its first update and gives up after its second. |
| `RefRetries.RetryCommits` | apps/spammer-worker/src/events.ts:203-209 | A run whose first update was beaten commits with its second, on the head it read for it, whenever its ref gains no other commit in between. |
| `RefCas.ForkRefNameIs` | apps/spammer-worker/src/events.ts:242-244 | A fork ref is `forks/`, twelve digits of the upstream, a minus and twelve digits of the key. |
| `RefCas.ForkRefsShared` | apps/spammer-worker/src/events.ts:242-244 | Two remixes share a fork ref exactly when the twelve-digit prefixes of both hashes and keys agree. |
| `RefListing.PrefixSuccessor` | apps/repo-worker/src/refs.rs:61-73 | The popping loop computes the successor when it is text. |
| `RefListing.PrefixIsRange` | apps/repo-worker/src/refs.rs:48-73 | A byte string has the prefix exactly when it lies from the prefix up to its successor. |
| `RefListing.PageCap` | apps/repo-worker/src/refs.rs:108-114 | There is no cap exactly for 0; otherwise it is the page size, or 1000 when that is smaller. |
| `RefListing.PageIsExact` | apps/repo-worker/src/worker_impl/refstore.rs:536-632 | A page is the next matches, with a cursor exactly when more follow; an issued cursor is never rejected. |
| `RefListing.AnyRequest` | apps/repo-worker/src/worker_impl/refstore.rs:536-632 | For any cursor: refused exactly when it is non-empty and lacks the prefix; otherwise the listed names after it, at most 1000 and at most as many as asked for, all for 0, and the last as next cursor exactly when more follow. |
| `RefListing.TopIsLast` | apps/repo-worker/src/refs.rs:48-55 | No text lies behind the texts that start with a run of U+10FFFF. |
| `RefListing.ListAll` | apps/repo-worker/src/worker_impl/refstore.rs:536-632 | Following the cursors terminates with the full listing for every page size, zero included. |
| `RefListing.ListingIsExact` | apps/repo-worker/src/refs.rs:61-114 | The full listing is sorted and holds exactly the refs with the prefix. |
| `RefListing.GrammarPrefixIsExact` | apps/repo-worker/src/refs.rs:61-73 | Every grammar prefix has a text successor unless it is empty. |
| `RefListing.NoUpperBoundIsInexact` | apps/repo-worker/src/refs.rs:50-54 | A UTF-8 prefix whose listing holds a ref without it. |
| `RefListing.InexactListsAStranger` | apps/repo-worker/src/refs.rs:50-54 | Every text prefix without a text successor and not of U+10FFFF alone lists a text outside it: the prefix with its last character below U+10FFFF moved on. |
| `RefListing.ListedRightIff` | apps/repo-worker/src/refs.rs:48-73 | A text prefix is listed right in every table of text names if and only if it has a text successor or consists of U+10FFFF alone. |
| `Observer.Observe` | apps/spammer-worker/src/observer.ts:213-287 | The nested loops report the deduplicated candidates and the specified next watermark; nothing on the first poll; the log is cut to its last 512 ids. |
| `Observer.InitializeFreshWatermark` | apps/spammer-worker/src/observer.ts:301-320 | The baseline adopts heads and forks and keeps the dedup log. |
| `Observer.WalkPage` | apps/spammer-worker/src/responder.ts:144-148 | The walk down a page stops at the watermark head or at ten. |
| `Observer.BuildSnapshot` | apps/spammer-worker/src/responder.ts:127-154 | The loop with early exits assembles the specified snapshot. |
| `Observer.ForkUpstreamsFromWatermark` | apps/spammer-worker/src/responder.ts:70-77 | The loop offers the known forks that have a head. |
| `ObserverLaws.CommitsInOrder` | apps/spammer-worker/src/observer.ts:257-269 | Every real commit of a ref is a candidate, in page order, and nothing else. |
| `ObserverLaws.ForkIs` | apps/spammer-worker/src/observer.ts:241-256 | A new fork takes its author from the first commit that is its listed head, else from the newest; without commits or with a synthetic author there is no event. |
| `ObserverLaws.RefsInOrder` | apps/spammer-worker/src/observer.ts:236-270 | Candidates come ref by ref; a fork event comes only from a fork ref not known before and named for the first time. |
| `ObserverLaws.FirstOfEachId` | apps/spammer-worker/src/observer.ts:229-234 | A candidate is let through exactly when its id was not reported lately and no earlier candidate has it, in order. |
| `ObserverLaws.HeadsAreLast` | apps/spammer-worker/src/observer.ts:236-240 | The next heads are what each ref was listed with last. |
| `ObserverLaws.ForksInOrder` | apps/spammer-worker/src/observer.ts:241-246 | Known forks keep their places and new ones follow in the order they are listed. |
| `ObserverLaws.UpstreamsInOrder` | apps/spammer-worker/src/responder.ts:70-77 | The upstreams offered are the known forks with a head, with it, in their order. |
| `ObserverRuns.DedupeIsNew` | apps/spammer-worker/src/observer.ts:229-234 | What `emit` lets through are candidates with pairwise different ids, none reported before. |
| `ObserverRuns.RespondedIsTheLogTail` | apps/spammer-worker/src/observer.ts:272-276 | Over every run `respondedEventIds` is duplicate-free and equals the last min(512, n) ids of the full emission log. |
| `ObserverRuns.RepeatsAreFarApart` | apps/spammer-worker/src/observer.ts:206-211 | For any polls whatever, two reports of one id are more than 512 reports apart. |
| `ObserverRuns.ShortLogsNeverRepeat` | apps/spammer-worker/src/observer.ts:206-211 | The first 513 reports of any run never repeat an id. |
| `ObserverRuns.ReportedIffForgotten` | apps/spammer-worker/src/observer.ts:229-234 | A poll reports a candidate's id if and only if it is not among the last 512 reports. |
| `ObserverRuns.OneForkEventPerRef` | apps/spammer-worker/src/observer.ts:241-256 | A fork ref yields at most one fork event ever. |
| `ObserverRuns.UpstreamsAreTheForks` | apps/spammer-worker/src/responder.ts:70-77 | The upstreams offered are exactly the fork refs of the latest snapshot with their current heads, once each. |
| `Polling.WalkKeepsAllIffAtMostTen` | apps/spammer-worker/src/responder.ts:101-154 | All new commits of a ref are accepted exactly when it gained at most ten; otherwise exactly its ten newest are. |
| `Polling.SkippingUnmovedRefs` | apps/spammer-worker/src/responder.ts:41-46 | Skipping unmoved refs gives the snapshot of fetching every page if and only if each such page still starts at its listed head; then events and watermark agree, as they always do on the first poll. |
| `Polling.PolledCommits` | apps/spammer-worker/src/responder.ts:127-154 | One poll accepts, for every ref, exactly what its later page holds beyond the last listing, nothing for an unmoved ref, and the top of a new ref's page. |
| `Polling.CandidatesOfPoll` | apps/spammer-worker/src/observer.ts:236-270 | The candidates of a poll are exactly those real commits, and a fork event for every new fork ref that names its listed head and the real author on top of its page. |
| `Polling.NewRefIsRightIff` | apps/spammer-worker/src/responder.ts:140-142 | A new ref is reported with its listed head if and only if its page starts there, or neither that head nor the top of the page is real. |
| `Polling.NewForkIsRightIff` | apps/spammer-worker/src/observer.ts:248-254 | A new fork ref is reported right if and only if the top of its page has the author of its listed head or neither is real; a page that starts at that head is enough. |
| `PollingRuns.PollStaysCurrent` | apps/spammer-worker/src/spammer.ts:602-628 | A poll keeps the watermark that of its listing, the log sound for its pages and complete for its listing. |
| `PollingRuns.EveryNewCommit` | apps/spammer-worker/src/spammer.ts:602-628 | Over whole runs, with shared history and with pushes inside polls, every real commit watched up to the last listing is reported and every commit event is a real commit watched up to the last pages. |
| `PollingRuns.EveryNewCommitOnceIff` | apps/spammer-worker/src/spammer.ts:602-628 | When no commit is on two refs, none is reported twice in a run if and only if, after every poll that another one follows, each report ahead of its ref's listing is still in the dedup log. |
| `PollingRuns.OnceWithoutPushesInside` | apps/spammer-worker/src/spammer.ts:602-628 | When no push lands inside a poll and no commit is on two refs, none is reported twice, however many a poll reports. |
| `PollingRuns.OnceWithinTheLog` | apps/spammer-worker/src/spammer.ts:602-628 | When no commit is on two refs and no poll but the last reports more than 512 events, none is reported twice, although a push inside a poll is met again by the next one. |
| `PollingRuns.ReportsAtMostTenEach` | apps/spammer-worker/src/responder.ts:101-154 | A poll reports at most ten events for every ref it fetches, so one that fetches at most 51 reports at most 512. |
| `PollingRuns.NewHeadIsReportedIff` | apps/spammer-worker/src/responder.ts:113-120 | Without shared history the real head a ref was first listed with is ever reported if and only if the page of that poll starts at it. |
| `PollingRuns.EveryNewForkOnce` | apps/spammer-worker/src/observer.ts:241-256 | Over the same runs, with shared history and pushes inside polls, the fork events are exactly one for every fork ref first listed after the baseline with a real author on top of its page, naming its listed head. |
| `PollingRuns.NewForkIsReportedIff` | apps/spammer-worker/src/observer.ts:241-256 | A fork event for a fork ref is ever reported if and only if the author on top of its first page is real. |
| `PollingLosses.PushLosesAHead` | apps/spammer-worker/src/responder.ts:140-142 | For every branch name and any two real commits: a run in which the push of the second inside a poll loses the first, the head the branch was listed with. |
| `PollingLosses.PushHidesAFork` | apps/spammer-worker/src/observer.ts:248-249 | For every fork ref with a real head: a run in which a bot's push inside a poll hides the fork for good. |
| `PollingLosses.ForgottenIsReportedAgain` | apps/spammer-worker/src/observer.ts:119 | A run in which a commit is reported a second time, when a branch is put on it after 512 other reports. |
| `PollingLosses.PushedAndForgotten` | apps/spammer-worker/src/observer.ts:119 | For every n above 512: a run without shared history that reports a commit twice, because n branches appear in one poll and each is pushed to before its page is read. |
| `Decimal.ValueOfText` | scripts/golden/grants_ref.py:171-177 | Every number prints canonically and reads back. |
| `Decimal.TextOfValue` | scripts/golden/grants_ref.py:171-177 | Every canonical decimal is the print of its value. |
| `Decimal.DigitAt` | scripts/golden/grants_ref.py:171-177 | Digit k from the right is n / 10^k modulo 10, with no leading zero. |
| `Hex.DecodeOfEncode` | scripts/golden/url_token_ref.py:249-251 | Bytes survive lower-case hex. |
| `Hex.EncodeOfDecode` | scripts/golden/url_token_ref.py:229-233 | Accepted hex is the hex of its bytes. |
| `Hex.EncodeAt` | scripts/golden/url_token_ref.py:249-251 | Every byte is its two lower-case digits, high half first. |
| `Utf8.DecodeOfEncode` | scripts/golden/url_token_ref.py:249-252 | Every text survives UTF-8. |
| `Utf8.EncodeOfDecode` | scripts/golden/url_token_ref.py:239-242 | Every byte string that decodes is the encoding of its text. |
| `Utf8.EncodeCharSpells` | scripts/golden/url_token_ref.py:249-252 | One to four bytes with the markers and the code point of section 3 of RFC 3629. |
| `Utf8.EncodeCharKeepsOrder` | scripts/golden/grants_ref.py:223-224 | UTF-8 keeps the order of code points, which the byte order of entries and of ref names rests on. |
| `Base64Url.DecodeOfEncode` | scripts/golden/url_token_ref.py:195-203 | Every byte string decodes strictly from its encoding. |
| `Base64Url.StrictAcceptsCanonical` | scripts/golden/url_token_ref.py:195-203 | Decode-and-compare accepts exactly the alphabet texts of a possible length with zero trailing bits (section 3.5 of RFC 4648), and each re-encodes to itself. |
| `Base64Url.CanonicalIsStrict` | scripts/golden/grants_ref.py:414-418 | The header check and the token decoder agree on every non-empty segment. |
| `Base64Url.EncodedLength` | scripts/golden/grants_ref.py:410-411 | n bytes take ceil(4n/3) characters. |
| `Base64Url.EncodeSpellsTheBits` | scripts/golden/grants_ref.py:410-411 | Six bits a character, the text spells the bits of the data followed by zero bits (section 4 of RFC 4648). |
| `Base64Url.AlphabetIs` | scripts/golden/grants_ref.py:410-411 | The 64 characters of the URL-safe alphabet in order. |
| `LengthPrefixed.LpFields` | scripts/golden/grants_ref.py:688-701 | The loop that eats the blob reads exactly the specified fields or none. |
| `LengthPrefixed.FieldsOfEncode` | scripts/golden/grants_ref.py:688-705 | Encoded fields read back. |
| `LengthPrefixed.EncodeOfFields` | scripts/golden/grants_ref.py:688-705 | Every accepted blob is the encoding of what was read from it. |
| `LengthPrefixed.EncodeInjective` | scripts/golden/grants_ref.py:704-705 | No blob has two readings, whatever the field counts. |
| `LengthPrefixed.CountMatters` | scripts/golden/grants_ref.py:688-705 | An encoding is accepted under its own field count only. |
| `Names.IdentityLengthIsImplied` | scripts/golden/url_token_ref.py:145-157 | Every grammatical identity passes; the length test never refuses one. |
| `Names.RefNameChars` | scripts/golden/grants_ref.py:118-129 | A ref name holds only ref characters and slashes, so no separator of any list. |
| `Names.OriginIsField` | scripts/golden/grants_ref.py:132-168 | An accepted origin is one printable field without comma or star. |
| `Grammars.RefNameIs` | scripts/golden/grants_ref.py:118-129 | A ref name is segments joined by slashes, none hidden or a lock file, the last not `HEAD`. |
| `Grammars.IdentityIs` | scripts/golden/url_token_ref.py:145-157 | An identity is a name, or a namespace, a slash and a name. |
| `Grammars.PathIs` | scripts/golden/url_token_ref.py:178-188 | A path is empty or entries joined by slashes, none empty or a dot step, no control character, at most 1024 bytes. |
| `Grammars.OriginIs` | scripts/golden/grants_ref.py:132-168 | An origin is one of the two schemes, a host or a bracketed address, and a port exactly when it is not the scheme's own. |
| `Statements.ScanBytes` | scripts/golden/url_token_ref.py:117-121 | The byte loop finds no fault exactly when every byte is allowed, and reports the first fault. |
| `Statements.SplitOfJoinFields` | scripts/golden/url_token_ref.py:114-129 | Fields joined within the limit split back into themselves. |
| `Statements.JoinOfSplitFields` | scripts/golden/url_token_ref.py:114-129 | A statement that splits is its fields joined. |
| `Statements.DecimalRoundTrip` | scripts/golden/url_token_ref.py:132-138 | A field reads as n exactly when it is the print of n within the bound. |
| `Rejections.ByteReason` | scripts/golden/url_token_ref.py:114-121 | More than 4096 bytes are too long; otherwise the first bad byte decides. |
| `Rejections.LineReason` | scripts/golden/url_token_ref.py:122-129 | With good bytes: a final line feed, then the number of lines, then an empty line. |
| `UrlToken.TokenRoundTrip` | scripts/golden/url_token_ref.py:206-224 | A token decodes to a statement and signature exactly when it is their encoding and fits. |
| `Rejections.FormatReason` | scripts/golden/url_token_ref.py:206-212 | A token over 8192 bytes is too long; one without exactly two non-empty parts has the wrong format. |
| `Rejections.PartReason` | scripts/golden/url_token_ref.py:213-220 | Two parts: each must be an encoding, and the second one of 64 bytes. |
| `UrlToken.StatementTokenFits` | scripts/golden/url_token_ref.py:206-224 | The token of any statement within 4096 bytes fits 8192; the exact limit is 6078 bytes. |
| `UrlToken.TargetRoundTrip` | scripts/golden/url_token_ref.py:227-252 | A target field is read as a target exactly when the target is well formed and the field is its own. |
| `UrlToken.StatementRoundTrip` | scripts/golden/url_token_ref.py:255-298 | Bytes parse to a statement exactly when it is well formed and they are its own printing within the limit. |
| `Rejections.FirstStatementRule` | scripts/golden/url_token_ref.py:255-274 | Eight fields are read exactly when they keep thirteen rules, and otherwise rejected with the reason of the first they break. |
| `UrlToken.TokenOfStatement` | scripts/golden/url_token_ref.py:206-298 | Every statement the parser accepts travels in a token and comes back. |
| `UrlToken.SomeStatement` | scripts/golden/url_token_ref.py:255-298 | Every key id has a well-formed statement that is parsed, so the codec theorems are not empty. |
| `KeySet.Verify` | scripts/golden/url_token_ref.py:395-402 | The store is read exactly once, and only for a token that passed everything else; a store failure is not a rejection. |
| `KeySet.VerifyingKeyIs` | scripts/golden/url_token_ref.py:351-360 | The key found is the active one by its id, else the first retired one whose lifetime after retirement is not over. |
| `KeySet.RefusalIsUniform` | scripts/golden/url_token_ref.py:363-402 | A token that does not decode or parse is refused with its grammar's reason, any other with one and the same; a store failure is neither. |
| `KeySet.AcceptedExactly` | scripts/golden/url_token_ref.py:363-402 | A token is accepted exactly when it encodes a well-formed statement bound to the request, current, of this epoch and signed by a key of the set. |
| `KeySet.RotatedKey` | scripts/golden/url_token_ref.py:351-360 | Which key a rotated set finds, for every id other than the new key's. |
| `KeySet.RetirementIsTransparent` | scripts/golden/url_token_ref.py:351-402 | For every now >= 0, a token issued no later than its key's retirement, and any token of an older key, gets the same answer and the same reads before and after the rotation. |
| `KeySet.RetiredKeyExpires` | scripts/golden/url_token_ref.py:351-360 | No token verifies under a retired key at or after retirement plus the lifetime. |
| `KeySet.NegativeClockTellsApart` | scripts/golden/url_token_ref.py:351-360 | Before time zero an active key is found and a retired one is not, so now >= 0 is needed. |
| `Grants.CheckFlags` | scripts/golden/grants_ref.py:186-193 | The loop reports the first rule a flag text breaks. |
| `Grants.FlagsAreASelection` | scripts/golden/grants_ref.py:186-193 | The accepted flag texts are exactly the non-empty selections of c, u, f, d in that order. |
| `Grants.PatternGrammar` | scripts/golden/grants_ref.py:196-201 | A pattern is a ref name, or a ref name with the wildcard, outside the pack map; no text is both. |
| `Grants.CheckEntries` | scripts/golden/grants_ref.py:215-222 | The entry loop reports the first fault, or collects every pattern. |
| `Grants.CheckRefScopes` | scripts/golden/grants_ref.py:204-226 | The whole ref-scope validation with its loop. |
| `GrantForms.AudiencesPass` | scripts/golden/grants_ref.py:229-239 | Distinct origins in any order print to an accepted field that splits into them, sorted. |
| `GrantForms.AudiencesBack` | scripts/golden/grants_ref.py:229-239 | An accepted audiences field is the printing of what it splits into. |
| `GrantForms.RefScopesPass` | scripts/golden/grants_ref.py:204-226 | Well-formed scopes with distinct patterns, in any order, print to an accepted field. |
| `GrantForms.RefScopesBack` | scripts/golden/grants_ref.py:204-226 | An accepted ref-scope field is the printing of the scopes read from it. |
| `GrantForms.ScopeTest` | scripts/golden/grants_ref.py:263-269 | The scope test accepts exactly a star or a name below the grant's own namespace. |
| `GrantForms.BuiltGrantsPass` | scripts/golden/grants_ref.py:385-407 | Every well-formed grant within the size limit prints to an accepted statement and reads back with its lists sorted. |
| `GrantForms.AcceptedGrantsRebuild` | scripts/golden/grants_ref.py:242-286 | Every accepted statement equals `build_statement` of the fields read back from it, and those are well formed. |
| `GrantForms.AcceptedExactly` | scripts/golden/grants_ref.py:242-286 | The accepted statements are exactly the printings of well-formed grants within the limit. |
| `Rejections.FirstEntryRule` | scripts/golden/grants_ref.py:186-201 | An entry is rejected with the reason of the first of its five rules it breaks. |
| `Rejections.FirstBadEntry` | scripts/golden/grants_ref.py:215-222 | The first entry at fault decides. |
| `Rejections.FirstGrantRule` | scripts/golden/grants_ref.py:242-286 | Eleven fields are accepted exactly when they keep 25 rules, and otherwise rejected with the reason of the first they break. |
| `GrantForms.OrderDoesNotMatter` | scripts/golden/grants_ref.py:385-407 | Grants that differ only in the order of their lists print the same statement. |
| `GrantForms.SomeGrant` | scripts/golden/grants_ref.py:242-286 | There is a well-formed grant whose statement is accepted, whatever the IPv6 parser says. |

## Left out

- The rounds of `compress` (in-place updates of sixteen words): the compression function is a parameter, and every
  theorem holds for all of them.
- Elliptic-curve, Keccak and signature arithmetic, WebAuthn client data and its JSON rules, IPv6 parsing: parameters or
  not modelled.
- Epoch and visibility statements, the grant header and its owner schemes, key files and their published JSON: the same
  shapes as the modelled codecs with easier rules.
- The Rust crates under `rust/crates`, the generated RPC code, the Worker glue, HTTP routing and the JavaScript
  `transactionSync` bridge: a transaction is modelled as all-or-nothing.
- Deletion of rooms and refs, the `total` count of a listing, the values beside listed names.
- `ANY` writers of a ref: `EvaluateCas` models them, the interleavings have none, as the pushers never send `ANY`.
- Content pools, reply texts, `mergedSyntheticPubkeys`, analytics, the web and MCP apps, release and packaging scripts:
  one-branch facts or plumbing.
- JavaScript records are maps, so inherited names such as `constructor` are not captured; an absent queue or map is an
  empty one.
- Stored replies of the ledger are the values their JSON encodes; a row whose JSON does not parse is not modelled.
- Object publication may repeat an effect of an interrupted reservation until one completes; the at-most-once theorem is
  about charges and completed effects, which for `set_name` is every effect.
- Times and Over in `PartMerge` are `n * size` and `n // size` by repeated addition and subtraction, proved equal in
  `TimesIsProduct` and `OverIsQuotient`.
- Blake3.CheckVector: requires a part size of 1024 times a power of two; `check_merge` does not refuse others, and for
  them `merge` need not split on part boundaries or terminate.
- ServerFloors.PushNeverExhausted: charges all writes of a push at the clock reading of its pick; the time a put or a retry
  takes on its way to the server is not modelled.
