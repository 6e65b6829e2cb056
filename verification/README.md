# Efficiency Ledger: a verified model

The project models the append-only accounting ledger of Efficiency Ledger and what
surrounds it: the largest-remainder split of shared work, the accounts kept beside
the history, the canonical entry codec, the checksummed image and frame, the digest,
reconciliation and the coordinator's connection loop. It proves what the ledger keeps
over every run of its public operations, not only over one call.

There are two layers. The ledger as a value (`Ledger.dfy`, with `Attribution`,
`Aggregates`, `Moves`, `Codec`, `Image`, `Coordinator`) says what each operation
does to the state; the lemmas about whole runs are about this layer. The code itself
(`EfficiencyLedger.dfy`, `EntryCodec.dfy`, `CoordinatorLoop.dfy`, and the methods and
classes in `Apportion`, `Attribution`, `Crc32c`, `Frames`, `Digest`, `Reconcile`)
has the loops, fields and early returns of the C++ and is proved to compute the
first layer.

| file | content |
|---|---|
| `Bytes.dfy`, `Entries.dfy` | fixed-width integers, the accounting entry, validity |
| `Apportion.dfy`, `Attribution.dfy` | the split of one dimension, the shares of an entry |
| `Aggregates.dfy`, `Moves.dfy` | committing shares to accounts, moving them between class buckets |
| `Ledger.dfy` | authority, book and the effect of every operation |
| `Identity.dfy`, `Totals.dfy` | what index, gates, attempts and accounts say about the history |
| `Runs.dfy`, `Replay.dfy` | invariants of every run, replay, finality |
| `Statuses.dfy`, `Charges.dfy`, `Layout.dfy`, `CheckValues.dfy` | the same operations on record fields, byte offsets and literal numbers: every status, every row of an account, every field on the wire, published check values |
| `Limits.dfy`, `Counterexamples.dfy` | promises kept only under a condition: the exact condition, and a run that breaks it |
| `Crc32c.dfy`, `Codec.dfy`, `Image.dfy`, `Frames.dfy`, `Digest.dfy` | checksum, codec, file image, wire frame, digest |
| `Reconcile.dfy` | the reconciliation report |
| `EntryCodec.dfy`, `EfficiencyLedger.dfy` | the code of the codec and of the ledger class |
| `Coordinator.dfy`, `CoordinatorLoop.dfy` | the coordinator as a state machine, and its loops |

Conventions. Bytes are integers below 256, 64-bit values integers below 2^64, and
wrap-around is written out where the C++ wraps. Enumerations stay bytes, because the
decoder can produce any value. The iteration order of an unordered map is a parameter
(`order`), and every statement holds for all orders. Each public method is one atomic
step; in `reclassify` the lookup before the lock is part of that step. `State`, `Book`
and `Run` are the ledger, everything derived from its history, and a sequence of
public operations, failing ones included.

## Where the code keeps less than its documentation says

The model follows the code. For each of these points the exact condition is proved,
and a run that breaks the promise is given.

- A rejected append can change accounts. `apply_attribution` commits cell by cell, so
  an overflow keeps what it added before (`Limits.OverflowIsAtomicIff` for a given walk
  of the hash table, `Limits.OverflowIsAtomicInAnyOrderIff` for every walk,
  `Counterexamples.OverflowLeavesPartialCommit`). Closure survives even so
  (`Runs.AppendKeepsClosed`).
- A revision always takes amounts out of the target's original class, so a second
  revision of one entry can run short and leave an account open
  (`Limits.EveryRunRevisionFailsIff`, `Limits.FailedMovesClosedIff`,
  `Counterexamples.SecondRevisionBreaksClosure`).
- A ledger can commit, acknowledge and save a history that no ledger will ever load,
  with every fence matching: what an overflow left on an account can pay for a second
  revision, and replay starts without it. A history loads exactly when, besides fences,
  every revision finds what it moves in the totals recomputed from the entries before
  it (`Replay.EveryRunReplays`, `Image.EveryRunSavesAndLoads`,
  `Coordinator.KillAndReloadIff`, `Counterexamples.LeftoverPaysForRevision`). Runs
  without a partial failure, and runs in which nothing is revised twice, always meet
  the condition (`Replay.RunsAreReplayable`).
- Replay and load skip only the worker-liveness fence. A history holding a fence of an
  older epoch cannot be loaded under a newer one, so a coordinator restarted with
  another epoch acknowledges appends into files that no longer load
  (`Replay.EveryRunReplays`, `Coordinator.EpochChangeMakesFileUnloadable`).
- "USEFUL requires an authoritative publication or reuse" holds for ordinary entries
  only; revisions skip the consistency check (`Limits.UnauthoritativeUsefulIff`,
  `Limits.UsefulIsAuthoritativeUnlessRevised`,
  `Counterexamples.RevisionToUsefulNeedsNoPublication`).
- "One outcome per attempt" holds for ordinary entries only; outcomes on revisions are
  committed but never recorded (`Limits.OutcomeIsLateIff`,
  `Counterexamples.RevisionOutcomesRepeat`).
- `append` accepts notes the decoder refuses: one note above 2^20 bytes makes the whole
  image unloadable (`Image.ImageParsesIff`, `Image.LongNoteMakesImageUnloadable`).
- A boot can outlive its connection: exactly when a connection hangs up after
  registering another nonzero boot than its last one (`Coordinator.NoBootOutlivesIff`,
  `Coordinator.SecondRegisterLeaksBoot`).

Three more differences need no condition. The attribution policy is carried but never
read. Of the generation fences listed in the documentation only epoch, worker boot,
ledger, account and attempt generation and the publication are ever compared. The
starting value of the digest is not the published FNV-1a offset basis; the constant is
used as written.

## Model

| member | source | states |
|---|---|---|
| Apportion.MulDiv | include/efficiency_ledger/resource.hpp:95-114 | the remainder of the exact product, and its quotient cut to 64 bits; nothing is cut whenever the weight is at most the total |
| Apportion.CheckedAdd | include/efficiency_ledger/resource.hpp:64-70 | a sum is returned exactly when it fits 64 bits |
| Apportion.CheckedSub | include/efficiency_ledger/resource.hpp:72-78 | a difference is returned exactly when it is not negative |
| Apportion.DistributeDim | src/ledger.cpp:447-488 | the code with its sort and its hand-out loop gives the rank-based shares and residual, for every amount and weight vector |
| Apportion.WholeParts | src/ledger.cpp:463-474 | the quota loop computes whole parts and remainders, and its overflow return is dead |
| Apportion.SortOrder | src/ledger.cpp:477-482 | the order is the one permutation by larger remainder, then lower index |
| Apportion.HandOut | src/ledger.cpp:483-486 | exactly the first `leftover` positions of the order get one unit more |
| Apportion.Conservation | src/ledger.cpp:447-488 | shares plus residual equal the amount, for every amount and weight vector |
| Apportion.LeftoverBound | src/ledger.cpp:475-486 | the whole parts never exceed the amount, and the leftover is below the number of participants with a remainder (or zero) |
| Apportion.QuotaRule | src/ledger.cpp:463-486 | each share is the floor or the ceiling of amount*weight/total |
| Apportion.LargerWeightNeverLess | src/ledger.cpp:463-486 | a larger weight never gets less |
| Apportion.EqualWeightsNearlyEqual | src/ledger.cpp:477-486 | equal weights differ by at most one unit, in favour of the lower index |
| Apportion.LargestRemainderFirst | src/ledger.cpp:477-486 | whoever is rounded up, everyone with a larger remainder, or the same and a lower index, is rounded up too |
| Entries.SharedValid | include/efficiency_ledger/attribution.hpp:59-74 | the loop accepts an empty list, or at most 4096 real accounts with positive weights adding up within 64 bits |
| Attribution.ComputeAttribution | src/ledger.cpp:492-555 | the code produces one share per participant in order, then the residual share exactly when something is left |
| Attribution.EntryConservation | src/ledger.cpp:492-555 | in every dimension and for each of the three quantities the shares add up to what the entry carries, valid or not |
| Attribution.PendingNeverOverflows | src/ledger.cpp:559-595 | no partial sum of the pending phase exceeds the entry's own amount, so its overflow returns cannot fire |
| Charges.SharedSplit | src/ledger.cpp:495-541 | a valid nonempty list gets exactly one share per participant, in order, each the floor or ceiling of amount*weight/total in every dimension of physical, avoided and stranded |
| Charges.OwnedSplit | src/ledger.cpp:500-502 | without participants everything goes to the owning account |
| Charges.OwnerlessSplit | src/ledger.cpp:516-553 | without an owner either, everything goes to account 0xFFFFFFFFFFFFFFFF, and there is no share when there is nothing |
| Charges.ChargedIsSum | src/ledger.cpp:560-569 | an account is charged the sum of its shares, field by field |
| Charges.AppendRaisesRows | src/ledger.cpp:570-595 | a committed entry raises physical, avoided and stranded by what it attributes; class 0 raises useful, 1 overhead, 2 waste, 5 unknown, and no other row moves |
| Charges.AppendOpensAccounts | src/ledger.cpp:597-600 | the accounts afterwards are those before and those of the shares |
| Charges.CommitOrder | src/ledger.cpp:602-618 | a commit fills dimension by dimension, each in the order physical, avoided, stranded, useful, overhead, waste, unknown, up to the first full cell |
| EfficiencyLedgerCode.PendingTotals | src/ledger.cpp:559-595 | the pending table holds for each charged account exactly what the entry attributes to it; the overflow returns are dead code |
| EfficiencyLedgerCode.CommitInPlace | src/ledger.cpp:602-618 | the commit of one account visits the cells in the code's order and stops at the first that would overflow |
| Aggregates.CommitShape | src/ledger.cpp:602-618 | after a commit, complete or not, a prefix of the cells has been added, the rest is untouched, and it stops only at a full cell |
| Aggregates.CommitKeepsClosed | src/ledger.cpp:602-618 | a closed account stays closed wherever the commit stops |
| Aggregates.CommitSucceeds | src/ledger.cpp:597-620 | whatever the hash-table order, the commit completes exactly when every cell fits, and then every order gives the same accounts |
| Aggregates.CommitOnlyAdds | src/ledger.cpp:597-620 | no cell is ever lowered by a commit, complete or not |
| EfficiencyLedgerCode.MoveOutInPlace | src/ledger.cpp:648-655 | dimensions leave the bucket in order until one is short |
| EfficiencyLedgerCode.MoveInInPlace | src/ledger.cpp:656-663 | dimensions enter the bucket in order until one overflows |
| Moves.MovesTouchOnlyBuckets | src/ledger.cpp:642-682 | moves, failing or not, create and drop no account and touch nothing but the two buckets |
| Moves.CompletedMoves | src/ledger.cpp:642-682 | completed moves take each account's total share out of one bucket and put it into the other, also when accounts repeat |
| Moves.MoveInNeverOverflows | src/ledger.cpp:656-681 | while buckets do not exceed physical consumption, a `move_in` after a complete `move_out` cannot overflow |
| Moves.MovesCompleteIff | src/ledger.cpp:642-682 | while buckets do not exceed physical consumption, moves complete exactly when no share finds its bucket short |
| Moves.BackedMovesComplete | src/ledger.cpp:642-682 | and that is exactly when each account's bucket holds all its shares, or its largest one when the class stays |
| Charges.RevisionMovesRows | src/ledger.cpp:664-680 | a committed revision takes the target's shares out of the row of its class number and puts them into the row of the new one; nothing else moves |
| Ledger.AppendAccepts | src/ledger.cpp:688-764 | an entry is committed exactly when authority and book admit it, and what the book then is; the hash-table order has no say in either |
| Ledger.RejectionLeavesHistory | src/ledger.cpp:688-764 | a rejected entry leaves history, index, attempts and gates alone, and the accounts too unless it stopped midway |
| Statuses.OrdinaryStatus | src/ledger.cpp:688-745 | the status of every append of an ordinary entry, as the first refusal that applies, with events, classes and bounds in numbers |
| Statuses.RevisionStatus | src/ledger.cpp:688-700 | the status of every append of a revision, likewise |
| Statuses.NotAuthoritativeIff | src/ledger.cpp:438-441 | an otherwise sound entry is not authoritative exactly when it is of class 0 with no publication and an event other than 16, 18 and 21 |
| Statuses.LateSignalIsStale | src/ledger.cpp:392-406 | events 2, 3, 4, 30, 31, 32 and 33 on an attempt with an outcome are stale |
| Statuses.OrdinaryEffect | src/ledger.cpp:728-763 | what a committed entry records in history, index, the four gates and its attempt |
| Statuses.RevisionEffect | src/ledger.cpp:683-685 | a committed revision changes history, index and accounts only |
| Statuses.ListStopsAtFirst | src/ledger.cpp:771-778 | a list of appends commits a prefix and answers with the status of the first entry refused |
| Statuses.FreshLedgerValues | include/efficiency_ledger/ledger.hpp:168-200 | the values a new ledger starts with |
| Statuses.AuthorityEffects | src/ledger.cpp:296-327 | what each operation on epoch, generations and workers changes, and nothing else |
| Statuses.RequestBecomesRevision | src/ledger.cpp:780-797 | the revision entry of a reclassification request, field by field |
| Identity.CommitAgrees | src/ledger.cpp:728-763 | one commit keeps index, gates and attempts in agreement with the history, and the history disciplined |
| Identity.HistoryDetermines | src/ledger.cpp:728-763 | index, gates and attempts are a function of the history |
| Totals.CommitKeepsSurplus | src/ledger.cpp:557-686 | a commit, ordinary or revision, changes every cell of every account by what it changes the recomputed total by |
| Totals.ExactIsClosed | src/ledger.cpp:557-686 | recomputed totals close in every account and dimension |
| Totals.BucketHoldsUnrevised | src/ledger.cpp:624-686 | while nothing is revised twice, the recomputed bucket of a class holds at least all its unrevised entries |
| Totals.FirstRevisionPaid | src/ledger.cpp:624-686 | a first revision finds what it moves in the recomputed bucket |
| Totals.RevisedOnceIsReplayable | src/ledger.cpp:624-686 | in a committed history in which nothing is revised twice, every revision is paid for by the entries before it |
| Runs.EveryRunIsSound | src/ledger.cpp:688-764 | in every reachable state ids are nonzero, distinct and indexed by position; each gate set is exactly the ids completed in the history and each completes once, a recovery either completed or failed; attempt states are those of the ordinary entries; after an outcome nothing on the attempt carries an outcome, a completion signal or another generation; publications per attempt strictly increase |
| Runs.EveryRunIsGrounded | src/ledger.cpp:557-686 | in every reachable state, after overflows, repeated revisions and failed moves alike, class buckets never exceed physical consumption, and physical, avoided and stranded totals are never below the recomputation |
| Runs.CleanRunsAreExact | src/ledger.cpp:557-686 | in every run without a partial-commit failure each cell of each account equals the recomputation from the history, and every account closes |
| Runs.AppendKeepsClosed | src/ledger.cpp:597-620 | every append keeps accounts closed, also one that overflows midway; only a revision failing in its moves is excepted |
| Runs.RevisionKeepsPhysical | src/ledger.cpp:624-686 | a revision, whatever its outcome, changes no physical, avoided or stranded total |
| Runs.FirstRevisionNeverFails | src/ledger.cpp:624-686 | a first revision never fails in its moves, also after earlier overflows and with repeated participants |
| Runs.SingleRevisionRunsReconcile | src/ledger.cpp:597-686 | in every run in which nothing is revised twice, overflows included, no step fails to reconcile, accounts close and are never below the recomputation |
| Replay.EveryRunReplays | src/ledger.cpp:932-953 | the history of every run, failing steps included, loads into a ledger if and only if it is empty, or that ledger is not shut down, every set epoch and generation fence has its value, and every revision finds what it moves in the totals recomputed from the entries before it; history, index, attempts and gates are then rebuilt, with exactly the recomputed accounts, for any set of live workers |
| Replay.ReplayRebuilds | src/ledger.cpp:932-953 | the same for any book with the invariants of every run |
| Replay.AdmittedAgainIff | src/ledger.cpp:688-764 | an ordinary entry is always admitted again by the recomputed book of the entries before it, a revision exactly when it is paid for |
| Replay.RunsAreReplayable | src/ledger.cpp:932-953 | in every run without a partial failure, and in every run in which nothing is revised twice, every revision is paid for |
| Replay.HistoryOnlyGrows | src/ledger.cpp:761-763 | history is append-only under everything but a load |
| Replay.TerminalOutcomeNeverChanges | src/ledger.cpp:388-411 | a terminal outcome and its generation never change again in any continuation of any run |
| Replay.OneOutcomePerAttempt | src/ledger.cpp:392-406 | after an ordinary entry with an outcome, no later entry of the attempt carries an outcome or a completion signal |
| Limits.OverflowLeavesNoMarkIff | src/ledger.cpp:597-620 | an overflowing commit leaves the accounts as they were exactly when all it visited before the full cell adds zero to known accounts |
| Limits.OverflowIsAtomicIff | src/ledger.cpp:597-620 | the same for a whole append |
| Limits.OverflowIsAtomicInAnyOrderIff | src/ledger.cpp:597-620 | an append that overflows is without effect for every walk of the hash table exactly when every charged account is known and adds nothing or is full at its first nonzero cell, and one is full |
| Limits.RevisionFailsIff | src/ledger.cpp:624-686 | an otherwise acceptable revision fails to reconcile exactly when some bucket does not hold what the target once put there |
| Limits.EveryRunRevisionFailsIff | src/ledger.cpp:624-686 | this holds in every run, and the overflow return of a move is dead in every run |
| Limits.FailedMovesClosedIff | src/ledger.cpp:648-680 | a failed revision leaves accounts closed exactly when it stopped before taking anything of the share it stopped at |
| Limits.FailedMovesUnchangedIff | src/ledger.cpp:642-682 | it leaves them unchanged exactly when, besides, nothing had changed buckets before |
| Limits.UsefulIsAuthoritativeUnlessRevised | src/ledger.cpp:438-441 | in every run a committed USEFUL entry is an authoritative use unless it is a revision |
| Limits.UnauthoritativeUsefulIff | src/ledger.cpp:692-707 | a USEFUL entry that is not an authoritative use is committed exactly when it is a revision that meets every other condition |
| Limits.OutcomeIsLateIff | src/ledger.cpp:383-411 | an entry with an outcome is turned away by the attempt checks exactly when an ordinary entry ended the attempt or its publication is not newer |
| Counterexamples.OverflowLeavesPartialCommit | src/ledger.cpp:597-620 | a two-entry run whose rejected second entry stays on an account |
| Counterexamples.SecondRevisionBreaksClosure | src/ledger.cpp:648-655 | a four-entry run whose second revision of one entry fails and leaves an account open |
| Counterexamples.LeftoverPaysForRevision | src/ledger.cpp:932-953 | a run with one overflow whose committed history no ledger replays and whose image no ledger loads, with no fence set |
| Counterexamples.RevisionOutcomesRepeat | src/ledger.cpp:692-700 | a run committing two different outcomes for one pending attempt, both on revisions |
| Counterexamples.RevisionToUsefulNeedsNoPublication | src/ledger.cpp:692-700 | a run committing a USEFUL revision without publication or reuse |
| Crc32c.Engine.BuildTable | src/crc32c.cpp:9-19 | the table holds for every byte its eight shifts through the reflected polynomial |
| Crc32c.Engine.Compute | src/crc32c.cpp:23-31 | the table-driven loop equals the bit-by-bit CRC-32C register (section 12.1 of RFC 3720), for every buffer and seed |
| Crc32c.Chaining | src/crc32c.cpp:23-31 | a checksum continues from the checksum of what came before |
| Crc32c.SingleByteDetected | src/crc32c.cpp:23-31 | changing one byte of a buffer of any length changes its checksum |
| Crc32c.BurstDetected | src/crc32c.cpp:23-31 | so does any change confined to four consecutive bytes |
| CheckValues.CheckOfNineDigits | src/crc32c.cpp:9-31 | the published check value: the checksum of the digits 1 to 9 is 0xE3069283 |
| Codec.DecodeEncoded | src/ledger.cpp:160-268 | decoding an encoded entry inside any buffer returns it and consumes exactly its bytes |
| Codec.DecodeIsCanonical | src/ledger.cpp:160-268 | whatever decodes re-encodes to exactly the consumed bytes |
| Codec.DecodeManyIsCanonical | src/ledger.cpp:1058-1067 | the same for a list of entries |
| Codec.DecodeHistory | src/ledger.cpp:1058-1067 | the concatenated encodings of a history decode to it, whatever surrounds them |
| Codec.UniqueParse | src/ledger.cpp:80-158 | two histories of equal length with the same concatenated bytes are equal |
| Codec.LongNoteIsLost | src/ledger.cpp:258-261 | an encoded entry with a note above 2^20 bytes does not decode |
| EntryCodec.EncodeEntry | src/ledger.cpp:80-158 | the code that appends field by field and patches the length appends the canonical bytes |
| EntryCodec.DecodeEntry | src/ledger.cpp:160-268 | the code with its cursor accepts the same bytes, advances to the same offset on success and failure, and leaves absent options of the target entry as they were |
| EntryCodec.CleanTarget | src/ledger.cpp:187-198 | decoding into an entry returns exactly what was encoded, for every input, if and only if that entry has no option set and no note |
| Layout.EntryLayout | src/ledger.cpp:80-158 | every field of an encoded entry stands at its offset, low byte first, with the offsets that optional fields shift |
| Layout.PlainEntryLayout | src/ledger.cpp:80-158 | the fixed offsets of an entry without optional fields: account at 151, epoch at 160, worker boot at 168, attempt at 360, note from 382 |
| Layout.HistoryLayout | src/ledger.cpp:970-971 | a history is its entries one after the other |
| Layout.EncodableBounds | src/ledger.cpp:211-260 | the decoder takes notes up to 1048576 bytes and 4096 participants |
| Layout.DecodeFailures | src/ledger.cpp:160-172 | where a failed decode leaves the offset, with the bound of 2^26 on the body |
| Image.AcceptedImageIsCanonical | src/ledger.cpp:998-1072 | every accepted image is the image of what it parses to, so no entry overlaps the footer |
| Image.LoadThenSave | src/ledger.cpp:998-1094 | saving after an accepted load yields exactly the loaded bytes |
| Image.SaveThenLoad | src/ledger.cpp:959-974 | an image loads if and only if every fence matches the saved authority, every revision is paid for, notes are at most 2^20 bytes and entries at most 2^28; it then restores ledger id, epoch, generations and everything derived from the history |
| Image.EveryRunSavesAndLoads | src/ledger.cpp:959-974 | the same for the ledger at the end of every run |
| Image.ImageParsesIff | src/ledger.cpp:1054-1072 | an image parses if and only if notes and entry count are within bounds |
| Image.SingleByteCorruptionRejected | src/ledger.cpp:999-1014 | any single changed byte anywhere in an image is rejected with the ledger untouched |
| Image.BurstCorruptionRejected | src/ledger.cpp:999-1014 | so is any change of four consecutive payload bytes |
| Image.LongNoteMakesImageUnloadable | src/ledger.cpp:258-261 | one over-long note makes the whole image unparsable |
| Layout.ImageLayout | src/ledger.cpp:959-974 | magic, version, authority values and count of an image at their offsets, entries from byte 48, checksum behind them |
| Layout.SavedAuthority | src/ledger.cpp:963-970 | which authority value a ledger saves where |
| Layout.LoadedAuthority | src/ledger.cpp:1074-1082 | which value a ledger takes from where; it is open again and keeps its live workers |
| Layout.ImageBounds | src/ledger.cpp:1054-1072 | an image parses exactly when notes hold at most 1048576 bytes and entries are at most 268435456 |
| Frames.EncodeFrame | src/protocol.cpp:35-51 | the code builds the frame exactly when the payload is within the limit |
| Frames.DecodeFrameBytes | src/protocol.cpp:53-73 | the code decodes as the specification does |
| Frames.FrameRoundTrip | src/protocol.cpp:35-73 | a frame decodes to what was sent if and only if it is within the payload limit |
| Frames.AcceptedFrameIsCanonical | src/protocol.cpp:53-73 | every accepted frame is the canonical encoding of its result |
| Frames.SingleByteCorruptionRejected | src/protocol.cpp:53-73 | any single changed byte, length field included, is rejected |
| Layout.FrameLayout | src/protocol.cpp:35-51 | length, checksum, version, kind, request id and body of a frame at their offsets |
| Layout.FrameBound | src/protocol.cpp:43-58 | a frame arrives exactly when its payload is at most 1048576 bytes |
| Digest.HashAccumulator.MixIn | src/digest.cpp:29-34 | the loop mixes the bytes in order into the running state |
| Digest.DigestIsStreamHash | src/ledger.cpp:917-930 | hashing entry by entry is hashing the canonical stream |
| Digest.SingleByteSeparates | src/digest.cpp:29-34 | streams differing in one byte get different digests |
| Digest.DigestSeparates | src/ledger.cpp:917-930 | histories whose streams differ in one byte get different digests |
| Layout.StreamLayout | src/ledger.cpp:917-930 | the stream under the digest, by offset |
| CheckValues.DigestOfOneByte | src/digest.cpp:29-34 | the state after the first byte of every stream, from the header's starting value |
| Reconcile.Reconcile | src/ledger.cpp:871-915 | the report is closed exactly when every account closes in 64-bit arithmetic, per dimension and overall, even if cross-account sums wrap; the sums are the true sums modulo 2^64 |
| Reconcile.GrandByFields | src/ledger.cpp:881-889 | which fields of each account the sums add up |
| Reconcile.ReportIsExact | src/ledger.cpp:900-912 | in every run the wrapping comparison is true closure, per account and dimension and for the whole ledger |
| Reconcile.RunsReportClosed | src/ledger.cpp:871-915 | in every run in which nothing is revised twice the report says closed |
| EfficiencyLedgerCode.EfficiencyLedger.constructor | src/ledger.cpp:276-277 | a new ledger is the initial state of every run |
| EfficiencyLedgerCode.EfficiencyLedger.RegisterBoot | src/ledger.cpp:320-323 | a valid boot becomes live, nothing else changes |
| EfficiencyLedgerCode.EfficiencyLedger.UnregisterBoot | src/ledger.cpp:324-327 | the boot is no longer live, nothing else changes |
| EfficiencyLedgerCode.EfficiencyLedger.NextEpoch | src/ledger.cpp:296-300 | the epoch advances, with wrap-around |
| EfficiencyLedgerCode.EfficiencyLedger.StartEpoch | src/ledger.cpp:301-304 | the epoch becomes the given one, nothing else changes |
| EfficiencyLedgerCode.EfficiencyLedger.StartGenerations | src/ledger.cpp:313-318 | ledger and account generation become the given ones, nothing else changes |
| EfficiencyLedgerCode.EfficiencyLedger.ShutDown | src/ledger.cpp:1105-1108 | the ledger refuses further appends, nothing else changes |
| EfficiencyLedgerCode.IsValid | include/efficiency_ledger/entry.hpp:102-123 | the checks accept exactly the valid entries |
| EfficiencyLedgerCode.CheckConsistency | src/ledger.cpp:418-445 | the branches by class give the specified status |
| EfficiencyLedgerCode.EfficiencyLedger.CheckAuthority | src/ledger.cpp:368-414 | the chain of checks accepts exactly current fences, live boots and open attempts |
| EfficiencyLedgerCode.EfficiencyLedger.ApplyPending | src/ledger.cpp:557-622 | for some hash-table order, the accounts and status are those of the specified commit |
| EfficiencyLedgerCode.EfficiencyLedger.ApplyRevision | src/ledger.cpp:624-686 | lookup, class check, moves and push are the specified revision, partial effects included |
| EfficiencyLedgerCode.EfficiencyLedger.MoveAll | src/ledger.cpp:642-682 | the loop over shares is the specified moves; its overflow return is dead |
| EfficiencyLedgerCode.EfficiencyLedger.AppendEntry | src/ledger.cpp:688-764 | the whole append is the specified one, status and state, for some hash-table order |
| EfficiencyLedgerCode.EfficiencyLedger.AppendEach | src/ledger.cpp:771-778 | a list of appends stops at the first rejection and keeps what came before |
| EfficiencyLedgerCode.EfficiencyLedger.ReclassifyEntry | src/ledger.cpp:780-800 | a request becomes the specified revision entry of its target and is appended |
| EfficiencyLedgerCode.EfficiencyLedger.LoadEntries | src/ledger.cpp:932-953 | load clears, replays without the liveness fence and keeps what was replayed before a failure |
| EfficiencyLedgerCode.EfficiencyLedger.SaveToString | src/ledger.cpp:959-974 | the bytes are the image of the ledger |
| EfficiencyLedgerCode.EfficiencyLedger.LoadFromString | src/ledger.cpp:998-1094 | state and status are those of the specified load; bytes that do not parse leave the ledger untouched; it can be used afterwards either way |
| EfficiencyLedgerCode.EfficiencyLedger.Report | src/ledger.cpp:871-915 | the whole report on the ledger's own accounts |
| EfficiencyLedgerCode.EfficiencyLedger.ComputeDigest | src/ledger.cpp:917-930 | the digest is a function of the history alone |
| Coordinator.NoBootOutlivesIff | tools/el_coordinator.cpp:70-118 | over every script, no boot is live at any moment between connections if and only if every connection that hangs up has registered no nonzero boot but its last one |
| Coordinator.BootFencing | tools/el_coordinator.cpp:66-118 | as long as no boot outlives its connection, every boot-fenced commit arrived on a connection that had registered the boot |
| Coordinator.OneRegisterSuffices | tools/el_coordinator.cpp:78-85 | at most one register message per connection meets the condition |
| Coordinator.SecondRegisterLeaksBoot | tools/el_coordinator.cpp:78-85 | with two register messages the first boot stays live after the connection closes |
| Coordinator.AcknowledgedIsSaved | tools/el_coordinator.cpp:89-99 | over every script each acknowledged append is in the history, and the file is the image of the ledger |
| Coordinator.KillAndReloadIff | tools/el_coordinator.cpp:89-99 | a kill after any acknowledgement of any script at all, then a load: it succeeds if and only if every revision is paid for and the entries are at most 2^28, and then brings back the history with every acknowledged append |
| Coordinator.KillAndReloadRecovers | tools/el_coordinator.cpp:89-99 | it always succeeds for scripts without partial failures, and the whole book is recovered |
| Coordinator.KillAndReloadAfterOverflows | tools/el_coordinator.cpp:89-99 | and for scripts with overflows but no second revision, with accounts exactly those of the history |
| Coordinator.AcknowledgedForever | tools/el_coordinator.cpp:46-121 | load, serve, kill, any number of times without an epoch change: while every kill leaves a loadable file, nothing acknowledged in any life is missing from a later one |
| Coordinator.EpochChangeMakesFileUnloadable | tools/el_coordinator.cpp:52-55 | after a restart with another epoch on a fenced history, no later file loads |
| CoordinatorLoop.StartUp | tools/el_coordinator.cpp:46-55 | start-up loads the file, whatever becomes of it, sets a given epoch and is ready to serve |
| CoordinatorLoop.StartUpRestarts | tools/el_coordinator.cpp:46-55 | without another epoch it is the restart of the state machine |
| CoordinatorLoop.Server.OnAppend | tools/el_coordinator.cpp:87-102 | an append or reclassify message decodes, appends, saves and acknowledges as the state machine says |
| CoordinatorLoop.Server.OnFrame | tools/el_coordinator.cpp:77-117 | by kind: 1 with eight bytes makes that boot live; 2 and 5 with an encoded entry the ledger commits put it last in the history, into the file and among the acknowledgements, and change neither otherwise; 6 saves and stops; any other changes nothing |
| CoordinatorLoop.CarriesIff | tools/el_coordinator.cpp:89-91 | a body carries an entry exactly when it is the encoding of it |
| CoordinatorLoop.Server.Converse | tools/el_coordinator.cpp:73-118 | one connection serves its frames in order, then unregisters its boot, unless a shutdown ends it |
| CoordinatorLoop.Server.Serve | tools/el_coordinator.cpp:66-121 | ledger, file and acknowledgements are those of the script made of all conversations in order, up to a shutdown, followed by a final save |

## Left out

- File I/O in `save` and `load`, the temporary file and the rename: the saved image is one variable and saves are assumed to succeed.
- Sockets, `frame_io.hpp`, command-line handling, the worker program, benchmarks, examples and the CUDA code: I/O or scripts.
- The mutex and the C++ memory model: each public method is one atomic step.
- Update in place of one account inside the table: the account is a value that is read, changed cell by cell and written back.
- Queries (`get`, `contains`, `account_summaries` and others): reads that would only add easy members.
- Status messages, reconciliation messages, `to_string` tables and `Digest::hex`: text.
- `ResourceUsage::add`, `sub` and `mul`: not used by the ledger core.
- `encode_status` and `decode_status`, and the payload of digest replies: thin layers.
- Collision-freedom of the digest: impossible for 64 bits; only single-byte differences are separated.
- `AccountSummary` order and the meaning of policies, subcategories, provenance and freshness: carried and encoded, never branched on.
- Image.SaveThenLoad: stated for notes below 2^31 bytes and fewer than 2^64 entries, beyond which the length fields of the format are cut.
- EntryCodec.DecodeEntry: says nothing of the target entry after a failed decode, which the code leaves partly overwritten; both callers discard it.
