# Verified model of Hash Timestamp

Hash Timestamp keeps hash records on Solana.  A record exists while someone holds a vote on it;
closed records can be brought back, with their original timestamps, from a proof anchored in a
live record.  A TypeScript SDK stores history in archives, compiles archives into proofs and plans
restores.  This project models both sides and proves what they promise, separately and together.

Run `dafny verify dfyconfig.toml`.

## Reading order

| layer | modules |
|---|---|
| Bytes and records | Encoding, Records, SdkHashes, AccountLayouts |
| Dependency walks | DependencyWalk, StackWalk (SDK), ProofGraph (program), ProofShape |
| Proof checking | Commitments, ProofMeaning, Justification, AnchorBinding |
| Ledger | Ledger, Totals, LedgerEffects, LedgerInvariant, Restoring, Instructions, Runs |
| Outcomes of instructions | CreationOutcomes, VoteOutcomes, BranchOutcomes, RestoreOutcomes |
| Global results | Exit, Payback, RisingRent, Provenance, RestoreEffects |
| The program in place | Preflight, Chain |
| Archives | Archives, Merging, ProofCompiler, CompilerCorrectness, Importing, ProofImports, HistoryArchives |
| Planning and execution | Candidates, Planner, GreedyCover, RestorePlanning, StepAccounts, Funding, PlanExecution, RestoreRunner, Completeness |
| JSON names | DuplicateKeys |

## How it is modelled

- The hash function is a parameter `H` and never interpreted.  Binding results assume only that
  the finitely many strings hashed in the proofs or the run at hand do not collide; they hold for
  any `H`, and a run in which they fail exhibits the collision.
- Addresses are wallets, record addresses and vote addresses.  Derived addresses never sign.
- Every ledger operation is a function of the account map.  `Chain.Bank` updates one account map in
  place, operation by operation, and is proved to compute those functions; a failed instruction
  restores the map it started from.
- The modules of the outcomes layer say when each instruction succeeds, what it leaves and why it
  fails, from the caller's inputs and the ledger alone; they do not mention the functions that
  compute the result.
- Clock and rent are inputs of each instruction, so all results hold for any schedule unless a
  fixed one is named.  Anyone may send lamports to any address between instructions.
- Both iterative walks are proved equal to one recursive walk, which is what connects the SDK's
  compiler to the program's parser.
- The planner takes what it read from the chain (`live`, `readErrors`) and the serialized size of a
  transaction as inputs.

Two points where code and documentation differ, or where a natural claim is false:

- `docs/instructions.md` lists InsufficientFunds among the failures of `unvote`.  In every reachable
  ledger that outcome is impossible (`Exit.LeaveOutcome`).
- Not every voter can leave under a rising rent schedule: `RisingRent.NeitherCanLeave` gives a run
  from genesis after which two voters block each other, and `Exit.LeaveOutcome` the exact condition.

## Model

| member | source | states |
|---|---|---|
| Records.AggregatePreimageInjective | programs/hash-timestamp/src/protocol/hash/compose.rs:42-66 | The ordered member list (hash, kind, creation time) can be read back from the bytes an aggregate digest commits to: 41 bytes a member |
| Records.BranchPreimageInjective | programs/hash-timestamp/src/protocol/hash/branch.rs:7-22 | The branch preimage fixes parent identity, kind, creation time, generation and payload |
| Records.MetadataKeyBound | programs/hash-timestamp/src/protocol/hash/metadata.rs:4-21 | An account digest fixes the account key and every snapshot field |
| Records.IdPreimageInjective | programs/hash-timestamp/src/state/hash_account.rs:23-25 | A canonical identity fixes digest and source kind |
| Commitments.FingerprintDigest | programs/hash-timestamp/src/protocol/hash/compose.rs:53-66 | Refuses an empty list with the error the caller names; otherwise appending fingerprints one by one hashes exactly the aggregate preimage |
| SdkHashes.CanonicalHashId | app/sdk/protocol/hashes.ts:22-31 | The SDK, feeding a hasher piece by piece, derives the program's canonical identity |
| SdkHashes.DeriveAccountSnapshotHash | app/sdk/protocol/hashes.ts:73-85 | The SDK digests the program's account-metadata bytes |
| SdkHashes.DeriveBranchHash | app/sdk/protocol/hashes.ts:87-101 | The SDK digests the program's branch bytes |
| SdkHashes.DeriveAggregateHash | app/sdk/protocol/hashes.ts:108-136 | The SDK digests the program's aggregate bytes; an empty member list is refused |
| Encoding.LittleEndianAt | programs/hash-timestamp/src/protocol/hash/branch.rs:17-18 | Byte i of an encoded integer n is (n / 256^i) mod 256, lowest first |
| AccountLayouts.SpaceHoldsRecord | programs/hash-timestamp/src/state/hash_source.rs:78-94 | A record's allocation is exactly its tag, its encoding and the source's padding, for every source |
| AccountLayouts.SpaceHoldsVote | programs/hash-timestamp/src/state/mod.rs:17-23 | A vote's allocation is exactly its tag, its encoding and seven bytes |
| AccountLayouts.RecordBytesInjective | programs/hash-timestamp/src/state/hash_account.rs:9-15 | A stored record, its counter and its bump can be read back from their bytes |
| DependencyWalk.WalkCorrect | app/sdk/archive/graph.ts:44-82 | For any roots, the walk succeeds exactly when no reachable node lies on a cycle (and, in complete mode, everything reachable is present with known dependencies); the result then lists each reachable present node once, dependencies first |
| DependencyWalk.FailuresAreReal | app/sdk/archive/graph.ts:66-74 | Every reported cycle, missing node or unknown membership is real and reachable from a root; in partial mode a cycle is reported exactly when one is met |
| StackWalk.DependencyOrder | app/sdk/archive/graph.ts:44-82 | The SDK's enter/exit stack computes the recursive post-order, with the same failures, and terminates although a node may sit on the stack many times |
| ProofGraph.BuildProofGraph | programs/hash-timestamp/src/protocol/restore/graph.rs:82-162 | The program's frame stack computes the specified parse: same order, same error |
| ProofGraph.ProofDependencies | programs/hash-timestamp/src/protocol/restore/graph.rs:26-80 | Source and parameters must pair up; a batch's members are nonempty and distinct |
| ProofShape.ParseSoundAndComplete | programs/hash-timestamp/src/protocol/restore/graph.rs:82-162 | Parsing succeeds if and only if the proof is nonempty, identities are distinct, parameters are well formed, all dependencies are present, nothing is cyclic and every entry is reachable from entry 0 |
| ProofShape.ParsedOrder | programs/hash-timestamp/src/protocol/restore/graph.rs:108-161 | The order is a permutation of the entries with every dependency strictly before its dependents and entry 0 last |
| ProofShape.ReachesEveryEntry | programs/hash-timestamp/src/protocol/restore/graph.rs:157-159 | Whatever holds of entry 0 and passes to direct dependencies holds of every entry of a parsed proof |
| Commitments.ValidateBatchLink | programs/hash-timestamp/src/protocol/restore/validate.rs:149-193 | The batch loop reports exactly the first failing check of the batch rule |
| Commitments.ValidatePackLink | programs/hash-timestamp/src/protocol/restore/validate.rs:195-229 | The pack loop reports exactly the first failing check of the pack rule |
| Commitments.ValidateVariant | programs/hash-timestamp/src/protocol/restore/validate.rs:231-263 | Each source kind is checked against the parameters of the same kind, by its own rule |
| Commitments.ValidateGraph | programs/hash-timestamp/src/protocol/restore/validate.rs:265-291 | Validating in order with a growing map of validated entries equals the check of every entry against its predecessors |
| ProofMeaning.ValidatedExactlyWhenCommitted | programs/hash-timestamp/src/protocol/restore/validate.rs:231-291 | A parsed proof validates if and only if every link's own commitment holds among the proof's entries, whatever order they were supplied in |
| AnchorBinding.AnchorBindsProof | programs/hash-timestamp/src/protocol/restore/validate.rs:85-229 | Two accepted proofs with the same anchor list the same identities and agree on every record's hash, kind, creation time, generation and source, an account's key where both carry its snapshot, unless two of the strings they hash collide |
| AnchorBinding.EntryBound | programs/hash-timestamp/src/protocol/restore/validate.rs:85-229 | Every entry of an accepted proof is a record of any justified history that holds its anchor |
| Justification.AccountKeyBound | programs/hash-timestamp/src/protocol/restore/validate.rs:53-69 | A supplied snapshot fixes the account key of a record whose own digest was taken of its key |
| Justification.BranchBound | programs/hash-timestamp/src/protocol/restore/validate.rs:85-147 | Equal branch digests force equal parents and payloads, and the generation follows from the parent |
| Justification.AggregateBound | programs/hash-timestamp/src/protocol/restore/validate.rs:149-229 | Equal aggregate digests force the same ordered members |
| LedgerEffects.CreateOrClaimEffect | programs/hash-timestamp/src/runtime/pda_account.rs:23-82 | Creating or claiming a placeholder, vacant, underfunded or overfunded, changes two accounts, moves exactly the missing rent and conserves lamports |
| LedgerEffects.CreateWithInitialVoteEffect | programs/hash-timestamp/src/runtime/record_lifecycle.rs:34-67 | A new record and its first vote: exactly three accounts change, to these values; the vote's claim is the record's rent |
| LedgerEffects.AddVoteEffect | programs/hash-timestamp/src/runtime/record_lifecycle.rs:70-96 | A later vote pays its own account and a full deposit into the record, and raises the counter by one |
| LedgerEffects.CloseEffect | programs/hash-timestamp/src/runtime/lamports.rs:37-46 | Closing moves the whole balance to the recipient and empties the account |
| LedgerEffects.ReleaseEffect | programs/hash-timestamp/src/runtime/vote_record.rs:177-206 | Releasing a vote pays its account balance and its claim (the last one: everything left in the record) and changes nothing else |
| LedgerInvariant.RecordsLiveByVotes | programs/hash-timestamp/src/runtime/vote_record.rs:177-206 | In a consistent ledger a record is live exactly when some vote account for it exists, and its counter is the number of those accounts |
| LedgerInvariant.VoteImpliesRecord | programs/hash-timestamp/src/runtime/vote_record.rs:36-98 | No vote outlives its record, and the record's claims cover it |
| LedgerInvariant.CreationKeeps | programs/hash-timestamp/src/runtime/record_lifecycle.rs:34-67 | Creating a record with its first vote keeps the ledger consistent and conserves lamports |
| LedgerInvariant.AddVoteKeeps | programs/hash-timestamp/src/runtime/record_lifecycle.rs:70-96 | So does adding a vote |
| LedgerInvariant.ReleaseKeeps | programs/hash-timestamp/src/runtime/vote_record.rs:177-206 | So does releasing one, the last one with its record included |
| Runs.BranchKeeps | programs/hash-timestamp/src/instructions/branch.rs:33-60 | So does a branch, whether or not it closes its parent |
| Runs.RestoreKeeps | programs/hash-timestamp/src/instructions/restore.rs:23-53 | So does a restore of any number of records |
| Runs.ApplyKeeps | programs/hash-timestamp/src/lib.rs:27-78 | Every successful instruction keeps the ledger consistent and conserves the total of all balances, a branch that creates a child and closes its parent included |
| Runs.RunsStayConsistent | programs/hash-timestamp/src/lib.rs:27-78 | Over any sequence of instructions, clocks and rent schedules: counters count votes, votes sit at their own addresses, sizes match sources, claims are covered, lamports are conserved |
| CreationOutcomes.CreationOutcome | programs/hash-timestamp/src/runtime/record_lifecycle.rs:34-67 | On a consistent ledger a record is created exactly when both addresses are its own, it is not live and the payer can fund what the two accounts still need; then it stands with one vote and the payer paid exactly that; for a plain wallet every other case has its stated error |
| CreationOutcomes.RegisterOutcome | programs/hash-timestamp/src/instructions/register.rs:21-33 | The same for registering: the record is the given digest as raw, stamped with the clock |
| CreationOutcomes.HashAccountOutcome | programs/hash-timestamp/src/instructions/account.rs:26-40 | The same for hashing an account: the digest is that of its key and metadata |
| CreationOutcomes.ComposeOutcome | programs/hash-timestamp/src/runtime/aggregate.rs:62-126 | The same for a batch or pack of distinct live members: the digest is of the members' stamps in the order given, and a batch lists their identities in that order; any other member list is refused |
| CreationOutcomes.ComposeRefusal | programs/hash-timestamp/src/runtime/aggregate.rs:67-84 | No member, or the first member that is not program-owned or a repetition, gives the kind's own error |
| VoteOutcomes.VoteOutcome | programs/hash-timestamp/src/runtime/record_lifecycle.rs:70-100 | A vote succeeds exactly when the record is live, the vote account is the caller's own and vacant, the caller can pay top-up and deposit, and the counter is below its limit; record, vote and payer then change by exactly that |
| VoteOutcomes.VoteRefusal | programs/hash-timestamp/src/state/hash_account.rs:48-54 | Otherwise: not live, already voted, short of funds, or, only at the limit of 64 bits, an exhausted counter, each with its error |
| VoteOutcomes.UnvoteOutcome | programs/hash-timestamp/src/instructions/unvote.rs:20-37 | For any accounts handed in: withdrawing succeeds exactly for the caller's own live vote of that record unless the refund would take a record with other voters below its rent; then vote, record and voter change by exactly the refund |
| BranchOutcomes.BranchOutcome | programs/hash-timestamp/src/instructions/branch.rs:33-60 | A branch that keeps the vote succeeds exactly when parent, vote account, new addresses and funds are in order, at any depth below the generation limit; the child commits to parent and payload |
| BranchOutcomes.MigratingBranchOutcome | programs/hash-timestamp/src/instructions/branch.rs:33-60 | One that takes the vote along additionally needs that vote to be free to leave the parent as it was; then the child stands and the vote has left |
| BranchOutcomes.BranchRefusal | programs/hash-timestamp/src/runtime/vote_migration.rs:8-39 | Generation overflow, a wrong vote account and a missing vote have their own errors |
| RestoreOutcomes.RestoreOutcome | programs/hash-timestamp/src/instructions/restore.rs:23-53 | For any anchor, proof and accounts: a restore succeeds exactly when the anchor is live as entry 0, the proof is accepted with the live wanted records as existing, the accounts pair up with the entries, each wanted record is live as stated or missing with both its accounts writable, and the payer can fund the missing ones; then exactly those are recreated at exactly that cost |
| RestoreOutcomes.RestoreRefusal | programs/hash-timestamp/src/runtime/restore/accounts.rs:96-140 | The first wanted entry that is not allowed decides the error: another incarnation, or a read-only account of a missing record |
| RestoreOutcomes.BindOutcome | programs/hash-timestamp/src/runtime/restore/accounts.rs:26-92 | Binding succeeds exactly when there are no accounts or one pair for each entry with parameters but the anchor, in any order, and gives each entry its own pair |
| Exit.LeaveOutcome | programs/hash-timestamp/src/runtime/vote_record.rs:161-206 | Leaving fails only when other voters remain and the refund would go below the current rent minimum; funds never run short, so the documented InsufficientFunds outcome cannot occur, and the last voter can always leave |
| Exit.EveryVoterCanLeave | programs/hash-timestamp/src/runtime/vote_record.rs:177-206 | With rent per size unchanged every live vote can be withdrawn and pays back at least what it cost, exactly that when no stray lamports were sent |
| Exit.EveryReachableVoterCanLeave | programs/hash-timestamp/src/instructions/unvote.rs:20-37 | The same after any run from genesis in which the rent per size stayed as it is now; the amount is exact when nothing stray was sent in the run |
| Exit.CreationCost | programs/hash-timestamp/src/runtime/record_lifecycle.rs:34-67 | Creating a record costs at most its rent plus a vote account's, exactly that without prefunding |
| Exit.VotingCost | programs/hash-timestamp/src/runtime/record_lifecycle.rs:70-96 | A later vote costs at most the same, exactly that without prefunding |
| Payback.LiveRecordsNeverChange | programs/hash-timestamp/src/lib.rs:27-78 | No instruction, successful or not, changes hash, source or creation time of a live record that stays live |
| Payback.JoiningCharges | programs/hash-timestamp/src/runtime/record_lifecycle.rs:34-96 | Whoever gains a vote by register, hash account, batch, pack, vote or a branch that keeps its parent pays at most the vote's cost, exactly that without stray lamports |
| Payback.LeavingReturnsWhatJoiningCost | programs/hash-timestamp/src/instructions/unvote.rs:20-37 | In any run from genesis under one rent schedule: a vote gained by one of those instructions at some step and held to the end can be withdrawn, and pays the voter at least what that step took from its wallet, exactly that when nothing stray was sent |
| RisingRent.NeitherCanLeave | programs/hash-timestamp/src/runtime/vote_record.rs:190-193 | A run from genesis (a registers, b votes) after which each can leave, but neither can before the other once the rent minimum has doubled |
| Provenance.NoInventedHistory | programs/hash-timestamp/src/instructions/restore.rs:23-53 | After any run, restores included, each live record's hash, source and creation time are those one earlier creation stamped with that very clock value, unless two strings hashed in the run collide |
| Provenance.HistoryWasStamped | programs/hash-timestamp/src/runtime/hash_record.rs:18-26 | Every record of the creation history was stamped by a successful creating instruction at its clock value |
| Provenance.RestoreGenuine | programs/hash-timestamp/src/instructions/restore.rs:23-53 | Every entry of a successful restore is a record the creation history holds |
| Provenance.ProofEntryGenuine | programs/hash-timestamp/src/protocol/restore/validate.rs:231-291 | An accepted proof of a genuine live anchor lists only genuine records |
| RestoreEffects.BindIsBijection | programs/hash-timestamp/src/runtime/restore/accounts.rs:26-92 | A successful nonempty binding is a bijection between supplied pairs and parametric entries other than the anchor, each pair at that entry's own addresses |
| Preflight.BindPairs | programs/hash-timestamp/src/runtime/restore/accounts.rs:26-92 | The two binding loops compute the specified binding, errors included |
| RestoreEffects.ExistingExact | programs/hash-timestamp/src/runtime/restore/accounts.rs:96-140 | Validation finds exactly the bound entries that are program-owned, and all bound pairs passed |
| Preflight.ValidatePairs | programs/hash-timestamp/src/runtime/restore/accounts.rs:96-140 | The validation loop computes the specified existing set, or the first pair's error; on a consistent ledger it passes exactly when each bound record is live as stated or missing with both its accounts writable, and finds exactly the live ones |
| RestoreEffects.CreationsExact | programs/hash-timestamp/src/protocol/restore/plan.rs:47-78 | The plan is exactly the requested missing entries other than the anchor, each once, in dependency order |
| Preflight.PlanCreations | programs/hash-timestamp/src/protocol/restore/plan.rs:20-78 | The planning loop computes that plan, and fails exactly when the anchor does not exist |
| RestoreEffects.ExecutionCreates | programs/hash-timestamp/src/runtime/restore/execution.rs:48-63 | Each planned record was vacant and is created with its historical fields and one vote, the payer's |
| RestoreEffects.RestoreIsExact | programs/hash-timestamp/src/instructions/restore.rs:23-53 | A restore creates exactly the bound entries that were missing; besides those records and their votes only the payer's balance changes |
| RestoreEffects.RestoreIsIdempotent | programs/hash-timestamp/src/instructions/restore.rs:23-53 | The same restore again succeeds and changes nothing |
| Chain.Bank.TransferFromProgram | programs/hash-timestamp/src/runtime/lamports.rs:3-35 | In place: resolves both balances, then writes both, as specified |
| Chain.Bank.CloseProgram | programs/hash-timestamp/src/runtime/lamports.rs:37-46 | In place: the specified closing |
| Chain.Bank.CreateOrClaimPda | programs/hash-timestamp/src/runtime/pda_account.rs:23-59 | In place: create, or top up, allocate and assign, as specified |
| Chain.Bank.TopUpToRent | programs/hash-timestamp/src/runtime/pda_account.rs:61-82 | In place: transfers exactly what is missing to the rent minimum, nothing when funded |
| Chain.Bank.CreateRecordWithVote | programs/hash-timestamp/src/runtime/record_lifecycle.rs:34-67 | In place: record first, then its vote; on success only record, vote and payer changed, the record has one voter and its rent, the vote claims that rent, and lamports are conserved |
| Chain.Bank.CreateHashRecord | programs/hash-timestamp/src/runtime/hash_record.rs:45-81 | In place: the specified creation of a record account |
| Chain.Bank.CreateVoteRecord | programs/hash-timestamp/src/runtime/vote_record.rs:36-98 | In place: the specified creation of a vote account |
| Chain.Bank.AddVoteRecord | programs/hash-timestamp/src/runtime/record_lifecycle.rs:70-96 | In place: the specified later vote; for a live record and the caller's vacant vote account it succeeds exactly when the caller can pay and the counter is below its limit, and then only record, vote and payer changed, the counter grew by one, the record by the full deposit the vote claims |
| Chain.Bank.ReleaseVote | programs/hash-timestamp/src/runtime/vote_record.rs:177-206 | In place: the specified release; on success only record, vote and recipient changed, the recipient received the vote's balance and the refund, the vote is empty, the record survives exactly when other voters remain, and lamports are conserved |
| Chain.Bank.LoadVerifiedMembers | programs/hash-timestamp/src/runtime/aggregate.rs:62-100 | The member loop with its set of seen identities loads the specified members or reports the specified error; on a consistent ledger it succeeds exactly for distinct live members and loads them in the order given |
| Chain.Bank.ComposeRecord | programs/hash-timestamp/src/instructions/batch.rs:22-37 | Load, compose, stamp and create: the specified aggregate; `pack` differs only in its kind |
| Chain.Bank.ExecuteCreations | programs/hash-timestamp/src/runtime/restore/execution.rs:48-63 | The creation loop executes the specified plan in order |
| Chain.Bank.RestoreRecords | programs/hash-timestamp/src/instructions/restore.rs:23-53 | Bind, parse, authenticate, validate, plan, execute: the specified restore |
| Chain.Bank.BranchRecord | programs/hash-timestamp/src/instructions/branch.rs:33-60 | Create the child, then release the parent's vote: the specified branch |
| Chain.Bank.UnvoteRecord | programs/hash-timestamp/src/instructions/unvote.rs:20-37 | The specified withdrawal, with its order of checks |
| Chain.Bank.Dispatch | programs/hash-timestamp/src/lib.rs:27-78 | Each instruction in place has exactly the effect, or the error, of its specification |
| Chain.Bank.Process | programs/hash-timestamp/src/lib.rs:27-78 | One transaction: all effects of the instruction or none; consistency and total lamports are kept |
| Archives.ParseArchive | app/sdk/archive/codec.ts:210-254 | Accepts exactly the valid archives (bounded, well-formed, properly addressed, acyclic, every checkable commitment holding) and returns them unchanged |
| Archives.CheckAcyclic | app/sdk/archive/graph.ts:88 | A partial walk from every node succeeds exactly when the history is acyclic |
| Archives.CheckCommitment | app/sdk/archive/graph.ts:93-133 | A node passes exactly when its commitment holds or its inputs are not all present |
| Archives.InspectArchiveGraph | app/sdk/archive/graph.ts:85-142 | Succeeds exactly when the history is acyclic and every checkable commitment holds, and reports exactly the missing nodes and witnesses |
| Archives.CompleteArchivesWalk | app/sdk/archive/graph.ts:44-82 | An archive that lacks nothing can be walked completely from any of its nodes |
| Merging.ValidDownward | app/sdk/archive/graph.ts:85-142 | Validity is downward closed: every part of a valid archive is valid |
| Merging.MergeIsLeastUpperBound | app/sdk/archive/operations.ts:18-53 | Merging succeeds exactly when some valid archive extends all inputs, and returns the least one that does |
| Merging.MergeOrderIrrelevant | app/sdk/archive/operations.ts:18-53 | Success and result do not depend on argument order or repetition |
| Merging.MergeGroupingIrrelevant | app/sdk/archive/operations.ts:18-53 | Nested merges, which validate intermediate results again, succeed and end alike |
| Merging.MergeIdempotent | app/sdk/archive/operations.ts:18-53 | Merging an archive with itself gives it back |
| Merging.MergeInto | app/sdk/archive/operations.ts:27-51 | Merging one node map into another succeeds exactly when common nodes are compatible, and then joins them |
| Merging.MergeArchives | app/sdk/archive/operations.ts:18-53 | The SDK's loop computes that merge |
| Importing.SelectArchive | app/sdk/archive/operations.ts:67-83 | Selects exactly the closure (or the named nodes) and is valid |
| Importing.SelectedExactly | app/sdk/archive/operations.ts:67-83 | For any roots: with dependencies exactly what they reach, without exactly the named nodes, unchanged; it fails exactly when something of that is missing, unknown or on a cycle |
| ProofImports.ArchiveFromProof | app/sdk/archive/operations.ts:86-172 | Imports exactly the proofs with distinct identities whose links agree with their own payloads and parameters, whose nodes form a valid archive and whose fingerprints all fit an entry |
| ProofImports.ImportedExactly | app/sdk/archive/operations.ts:86-172 | An import holds exactly the entries, with the snapshots and pack members they supply, and contradicts no supplied payload, fingerprint or snapshot |
| ProofImports.AcceptedImports | app/sdk/archive/operations.ts:86-172 | Every proof the program accepts, up to the node limit, can be imported |
| HistoryArchives.HistoriesParse | app/sdk/archive/codec.ts:210-254 | Records of any run's history, archived with any of the pack members and snapshots they were hashed from and next to the incarnations they were built from, form a valid archive up to the node limit, unless two strings hashed in the run collide |
| HistoryArchives.SingleIncarnations | app/sdk/archive/codec.ts:210-254 | When no identity was stamped twice with different records, that holds of any part of the history |
| ProofCompiler.BuildRestoreProof | app/sdk/archive/proof.ts:20-81 | Compiles exactly the specified proof of a valid archive, refuses an invalid one |
| CompilerCorrectness.CompilesExactly | app/sdk/archive/proof.ts:20-81 | A proof compiles exactly when the anchor reaches only known nodes on no cycle, the targets are distinct and among them, and each account reached has a snapshot, exists or is the anchor |
| CompilerCorrectness.CompiledParameters | app/sdk/archive/proof.ts:43-80 | Each compiled link carries exactly: a raw target its digest, other raw records nothing; an account its snapshot unless it exists or is the anchor; the rest their dependencies' fingerprints in order |
| CompilerCorrectness.VisitRenamed | programs/hash-timestamp/src/protocol/restore/graph.rs:108-152 | The program's walk over identities and the SDK's walk over addresses agree |
| CompilerCorrectness.CompiledParses | app/sdk/archive/proof.ts:38-42 | On a compiled proof of n links the program's order is exactly 1, 2, ..., n - 1, 0 |
| CompilerCorrectness.CompiledProofAccepted | app/sdk/archive/proof.ts:20-81 | Every compiled proof is accepted by the program when the accounts declared existing do exist |
| Importing.CompileThenImport | app/sdk/archive/operations.ts:86-172 | Importing a compiled proof gives the anchor's closure without the snapshots of accounts taken as existing |
| Importing.RoundTripExactlyWhenNothingOmitted | app/sdk/archive/proof.ts:38-80 | The round trip is exact if and only if no such account stores a snapshot |
| Planner.SplitSelections | app/sdk/client/archive-restore.ts:134-156 | The explicit stack terminates and computes the recursive split: a selection that compiles is one step, a larger one is halved, a singleton that does not compile is rejected |
| Planner.SplitPartitions | app/sdk/client/archive-restore.ts:134-156 | The targets of the steps and the rejected singletons are together exactly the covered targets |
| Planner.CandidatesAt | app/sdk/client/archive-restore.ts:122-160 | One anchor yields exactly the split of what its closure covers, and nothing when it is not live as archived or its closure is incomplete |
| Planner.UsableAreCandidates | app/sdk/client/archive-restore.ts:122-160 | Those steps are compiled candidates, and no target that the anchor can restore alone is lost |
| Planner.CollectCandidates | app/sdk/client/archive-restore.ts:122-160 | The usable steps are exactly those that the tried anchors yield |
| Planner.CollectedAreCandidates | app/sdk/client/archive-restore.ts:122-160 | All of them are candidates, and no target that some tried anchor can restore alone is lost |
| GreedyCover.HeadOf | app/sdk/client/archive-restore.ts:164-180 | The pick is the head of the stable ranking: nothing precedes it and it precedes every earlier candidate |
| GreedyCover.PickBreaksTies | app/sdk/client/archive-restore.ts:164-180 | The pick covers most; among equals it adds the fewest other records, then takes the fewest bytes, then comes first by anchor, then came first |
| GreedyCover.CoverTargets | app/sdk/client/archive-restore.ts:162-193 | The greedy loop terminates and leaves uncovered exactly the targets in no usable candidate |
| GreedyCover.GreedyQuality | app/sdk/client/archive-restore.ts:162-193 | If k usable candidates cover all n targets, then after t picks remaining * k^t <= n * (k - 1)^t |
| RestorePlanning.PlanArchiveRestore | app/sdk/client/archive-restore.ts:53-196 | A plan reaches every target with steps chosen greedily among exactly the steps that the tried anchors yield, and exists whenever each missing target can be restored alone |
| RestorePlanning.PlanQuality | app/sdk/client/archive-restore.ts:162-193 | For the returned plan: if any k steps that the tried anchors yield cover all n missing targets, then after its first t steps at most n ((k - 1) / k)^t are left |
| RestorePlanning.CheckRequest | app/sdk/client/archive-restore.ts:60-68 | Exactly the valid requests are planned |
| RestorePlanning.PresentExactly | app/sdk/client/archive-restore.ts:89-93 | Exactly the targets read as live in the archived incarnation are left alone, only when creating; all others are planned for |
| Candidates.RequestProblem | app/sdk/client/archive-candidate.ts:56-60 | No problem exactly when every requested record was read and is absent or live as archived |
| StepAccounts.CandidateExactly | app/sdk/client/archive-candidate.ts:38-112 | A selection becomes a step exactly when the anchor was read as live, the proof compiles with what it reaches that was read as live, every request was read as absent or as archived, and the transaction fits |
| StepAccounts.RequestedExact | app/sdk/restore.ts:31-49 | The requested identities are those of the parametric entries other than the anchor, each once |
| StepAccounts.StepBinds | app/sdk/client/archive-candidate.ts:62-76 | The program binds a step's accounts to all parametric entries but the anchor, writable exactly where a creation is expected |
| StepAccounts.StepCreatesOnlyExpected | app/sdk/client/archive-candidate.ts:60-76 | Whatever the chain holds when a step executes, it creates only expected records, and only targets when no additional ones were announced |
| Funding.CreationSucceeds | programs/hash-timestamp/src/runtime/record_lifecycle.rs:34-67 | In a consistent ledger a missing record can always be created by a payer who holds its rent and a vote account's |
| PlanExecution.StepAccepted | programs/hash-timestamp/src/instructions/restore.rs:23-53 | A candidate step passes binding, parsing, anchor authentication, preflight and proof validation on any ledger that followed the plan so far |
| PlanExecution.StepAdvances | app/sdk/client/archive-restore.ts:228-247 | A step executes on any ledger that followed the plan so far, steps whose records earlier steps created included |
| PlanExecution.PlanRestoresTargets | app/sdk/client/archive-restore.ts:199-249 | All steps executed in order from the ledger that was read, by a payer who can cover the expected creations, pass every on-chain check; then every target is live with its archived hash, source and creation time |
| RestoreRunner.RunStep | app/sdk/client/archive-restore.ts:230-241 | One transaction: the step's restore or nothing |
| RestoreRunner.ExecuteArchiveRestore | app/sdk/client/archive-restore.ts:199-249 | A plan that was not prepared or was prepared in another session, and unannounced additional records, leave the ledger untouched; prepared in this session and with permission or no additional records, it stops only at a failing step, keeps what earlier steps did and creates only targets without permission for more; on the ledger that was read, with a payer who can cover it, it completes with every target live as archived; the receipt is exactly the archived part that was present or lies behind the anchors of the steps done |
| Completeness.AncestorCanReturn | programs/hash-timestamp/src/instructions/restore.rs:23-53 | Any record behind a live anchor whose history is known (absent account records with their snapshots) and unobstructed can be brought back by a payer who can cover what is absent there: some proof and accounts make the restore succeed, the record is then live as archived, and nothing outside that history changes |
| Completeness.HistoryCanReturn | programs/hash-timestamp/src/instructions/restore.rs:23-53 | The same at the end of any run from genesis; the incarnation that returns is one that an earlier creation of the run stamped, unless two strings hashed in the run collide |
| Completeness.ConflictBlocksRestore | programs/hash-timestamp/src/runtime/restore/accounts.rs:96-140 | The condition is needed: a restore from the anchor that names accounts succeeds only where every derived record behind it is absent or live as archived (an account record up to its key), unless two strings hashed in the two proofs collide |
| DuplicateKeys.RejectDuplicateKeys | app/sdk/archive/codec.ts:189-207 | The scanner with its context stack accepts exactly the token streams the stack machine accepts |
| DuplicateKeys.RejectedExactlyWhenRepeated | app/sdk/archive/codec.ts:189-207 | For the tokens of any JSON value it rejects exactly when some object at any depth has two members with equal unescaped names |

## Left out

- SHA-256, program-address derivation with its bump and Base58: `H` is a parameter, addresses are constructors, and stored bumps (always re-derived before use) are not part of the accounts.
- Borsh and Anchor decoding: the ledger's accounts hold typed states, and decoding fails exactly on a wrong owner or kind; only the encoded bytes and their space are modelled.
- Account metadata of a hashed target: the snapshot is an argument of the instruction.
- Transaction fees, rent collection, compute limits, runtime borrow flags, reaping of zero-lamport accounts and debug logs.
- Payback.LeavingReturnsWhatJoiningCost: does not cover votes gained by a restore or by a branch that closes its parent, because those steps pay for several votes at once or return another vote's cost in the same step.
- The `verify` instruction: it reads one record and changes nothing.
- The check that the supplied System Program account is the System Program, which the framework also makes.
- Object key order of archives: which of several faulty nodes an error names is left open.
- Archive byte-size limits, stable key order of `stringifyArchive`, input coercion and legacy field aliases.
- JSON text below the token level: the scanner's regular expression and `JSON.parse` of one name are the tokenizer and the parameter `unescape`.
- RPC reads, confirmation, signing and submission, and the check that the provider can submit at all; transaction serialization is the parameter `wire`, which may refuse any step.
- The refusal of `prepareRestore` when the anchor reappears among the selection: compiled proofs have distinct identities.
- Error texts, the reasons attached to rejected anchors and their order.
- Addresses of archives that belong to another program: nodes are addressed relative to the archive's own program.
- JavaScript rounding in the bytes-per-target ranking: the ratio is a real number, and is compared only between equal coverages.
