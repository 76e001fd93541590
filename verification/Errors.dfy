/** The program's own errors, and the framework errors its handlers can return. */
module Errors {
  datatype Error =
    | HashNotFound
    | InvalidHashSeeds
    | AlreadyVoted
    | NotVoter
    | VoteAccountMissing
    | NoVoteToMigrate
    | GenerationOverflow
    | HashAlreadyExists
    | BatchMembersEmpty
    | BatchMemberWrongProgram
    | PackMembersEmpty
    | PackMemberWrongProgram
    | RestoreChainTooShort
    | RestoreProofDuplicate
    | RestoreDependencyMissing
    | RestorePackMembersMissing
    | RestoreHashPayloadMissing
    | RestoreAccountSnapshotMissing
    | RestoreTipMismatch
    | RestoreProofMismatch
    | RestoreTimestampMismatch
    | RestoreGenerationMismatch
    | RestoreAccountsMisaligned
    | InvalidPdaPlaceholder
    | BatchMemberDuplicate
    | PackMemberDuplicate
    // Anchor and Solana errors
    | AccountNotInitialized
    | AccountOwnedByWrongProgram
    | AccountDiscriminatorMismatch
    | ConstraintMut
    | IllegalOwner
    | InvalidArgument
    | InvalidInstructionData
    | InsufficientFunds
    | AccountNotRentExempt
    | ArithmeticOverflow
}
