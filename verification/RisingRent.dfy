/** A run in which leaving is not possible: the rent minimum doubles after two voters joined. */
module RisingRent {
  import opened Outcomes
  import opened Encoding
  import opened Records
  import opened Errors
  import opened Ledger
  import opened Totals
  import opened LedgerEffects
  import opened LedgerInvariant
  import opened Instructions
  import opened Runs
  import opened Exit
  import opened Funding

  function OneLamport(space: nat): u64 {
    1
  }

  function TwoLamports(space: nat): u64 {
    2
  }

  function Purse(): AccountInfo {
    AccountInfo(System, 10, false, Empty)
  }

  /** Two funded wallets and nothing else. */
  function Start(a: Key, b: Key): Accounts {
    map[][Wallet(a) := Purse()][Wallet(b) := Purse()]
  }

  function First(H: Hasher, a: Key, r: Record): Action {
    Action(Env(r.createdAt, OneLamport), Register(a, r.hash, HashPda(r.Id(H)), VotePda(a, r.Id(H))))
  }

  function Second(H: Hasher, b: Key, r: Record): Action {
    Action(Env(r.createdAt, OneLamport), Vote(b, HashPda(r.Id(H)), VotePda(b, r.Id(H))))
  }

  lemma StartIsGenesis(H: Hasher, a: Key, b: Key)
    requires a != b
    ensures Genesis(Start(a, b)) && Consistent(H, Start(a, b)) && Total(Start(a, b), Lamports) == 20
  {
    TotalUpdated(map[], Lamports, Wallet(a), Purse());
    TotalUpdated(map[][Wallet(a) := Purse()], Lamports, Wallet(b), Purse());
    GenesisConsistent(H, Start(a, b));
  }

  /** A registered record holds its rent, and the other purse is untouched. */
  ghost predicate Registered(H: Hasher, m: Accounts, a: Key, b: Key, r: Record) {
    var id := r.Id(H);
    && Consistent(H, m) && Total(m, Lamports) == 20
    && At(m, HashPda(id)) == AccountInfo(Program, 1, false, HashData(HashState(r, 1, r.source.Space())))
    && At(m, VotePda(a, id)) == AccountInfo(Program, 1, false, VoteData(VoteState(a, id, 1)))
    && At(m, VotePda(b, id)) == Vacancy(0) && At(m, Wallet(b)) == Purse()
  }

  lemma FirstRegisters(H: Hasher, a: Key, b: Key, r: Record)
    requires a != b && r.source.Raw? && r.createdAt != 0
    ensures Registered(H, Step(H, Start(a, b), First(H, a, r).env, First(H, a, r).instruction), a, b, r)
  {
    var m, env, id := Start(a, b), First(H, a, r).env, r.Id(H);
    StartIsGenesis(H, a, b);
    CreationSucceeds(H, m, env, a, r);
    CreateWithInitialVoteEffect(H, m, env, a, HashPda(id), VotePda(a, id), r, Lamports);
    CreationKeeps(H, m, env, a, HashPda(id), VotePda(a, id), r);
  }

  lemma SecondSucceeds(H: Hasher, m: Accounts, a: Key, b: Key, r: Record)
    requires a != b && r.createdAt != 0 && Registered(H, m, a, b, r)
    ensures Apply(H, m, Second(H, b, r).env, Second(H, b, r).instruction).Success?
  {
    var env, id := Second(H, b, r).env, r.Id(H);
    ClaimSucceeds(m, env, b, VotePda(b, id), VOTE_INFO_SPACE, VoteData(VoteState(b, id, 1)));
    CreateVoteEffect(m, env, b, VotePda(b, id), id, 1, Lamports);
  }

  lemma SecondVotes(H: Hasher, m: Accounts, a: Key, b: Key, r: Record)
    requires a != b && r.createdAt != 0 && Registered(H, m, a, b, r)
    ensures var after, id := Step(H, m, Second(H, b, r).env, Second(H, b, r).instruction), r.Id(H);
            && Consistent(H, after)
            && At(after, HashPda(id)) == AccountInfo(Program, 2, false, HashData(HashState(r, 2, r.source.Space())))
            && forall voter | voter in {a, b} ::
                 At(after, VotePda(voter, id)) == AccountInfo(Program, 1, false, VoteData(VoteState(voter, id, 1)))
  {
    SecondSucceeds(H, m, a, b, r);
    var env, id := Second(H, b, r).env, r.Id(H);
    AddVoteEffect(H, m, env, b, VotePda(b, id), HashState(r, 1, r.source.Space()), Lamports);
    ApplyKeeps(H, m, env, Second(H, b, r).instruction);
  }

  /** Once rent has doubled neither of two voters can leave before the other, though both still
      could the moment before.  `LeaveOutcome` gives the exact condition. */
  lemma NeitherCanLeave(H: Hasher, a: Key, b: Key, r: Record, clock: i64)
    requires a != b && r.source.Raw? && r.createdAt != 0
    ensures Genesis(Start(a, b))
    ensures var m := Run(H, Start(a, b), [First(H, a, r), Second(H, b, r)]);
            forall voter | voter in {a, b} ::
              && Apply(H, m, Env(clock, OneLamport), Leave(voter, r.Id(H))).Success?
              && Apply(H, m, Env(clock, TwoLamports), Leave(voter, r.Id(H))) == Failure(AccountNotRentExempt)
  {
    var actions := [First(H, a, r), Second(H, b, r)];
    assert actions[..0] == [] && actions[..2] == actions;
    RunsOnce(H, Start(a, b), actions, 0);
    RunsOnce(H, Start(a, b), actions, 1);
    StartIsGenesis(H, a, b);
    FirstRegisters(H, a, b, r);
    SecondVotes(H, Run(H, Start(a, b), actions[..1]), a, b, r);
    var m := Run(H, Start(a, b), actions);
    forall voter | voter in {a, b}
      ensures Apply(H, m, Env(clock, OneLamport), Leave(voter, r.Id(H))).Success?
      ensures Apply(H, m, Env(clock, TwoLamports), Leave(voter, r.Id(H))) == Failure(AccountNotRentExempt)
    {
      LeaveOutcome(H, m, Env(clock, OneLamport), voter, r.Id(H));
      LeaveOutcome(H, m, Env(clock, TwoLamports), voter, r.Id(H));
    }
  }
}
