/** The net effect of each joint record/vote operation: which accounts change, to what, and
    how every sum moves. */
module LedgerEffects {
  import opened Outcomes
  import opened Encoding
  import opened Records
  import opened Errors
  import opened Ledger
  import opened Totals

  ghost predicate ChangesOnly(m: Accounts, m': Accounts, changed: set<Address>) {
    forall a | a !in changed :: At(m', a) == At(m, a)
  }

  lemma TransferEffect(m: Accounts, from: Address, to: Address, amount: nat, q: Quantity)
    requires from != to && At(m, from).lamports >= amount
    ensures var m' := Credit(Debit(m, from, amount), to, amount);
            && ChangesOnly(m, m', {from, to})
            && At(m', from) == At(m, from).(lamports := At(m, from).lamports - amount)
            && At(m', to) == At(m, to).(lamports := At(m, to).lamports + amount)
            && Total(m', q) == Total(m, q)
  {
    var debited := Debit(m, from, amount);
    TotalUpdated(m, q, from, debited[from]);
    TotalUpdated(debited, q, to, Credit(debited, to, amount)[to]);
  }

  lemma SystemTransferEffect(m: Accounts, from: Address, to: Address, amount: nat, q: Quantity)
    requires SystemTransfer(m, from, to, amount).Success?
    ensures var m' := SystemTransfer(m, from, to, amount).value;
            && ChangesOnly(m, m', {from, to})
            && (from != to ==>
                  && At(m', from) == At(m, from).(lamports := At(m, from).lamports - amount)
                  && At(m', to) == At(m, to).(lamports := At(m, to).lamports + amount))
            && (from == to ==> At(m', to) == At(m, to))
            && Total(m', q) == Total(m, q)
  {
    if from != to {
      TransferEffect(m, from, to, amount, q);
    } else {
      var debited := Debit(m, from, amount);
      TotalUpdated(m, q, from, debited[from]);
      TotalUpdated(debited, q, to, Credit(debited, to, amount)[to]);
    }
  }

  function TopUp(m: Accounts, env: Env, destination: Address, space: nat): nat {
    if At(m, destination).lamports >= env.rent(space) then 0 else env.rent(space) - At(m, destination).lamports
  }

  lemma CreateOrClaimEffect(
    m: Accounts, env: Env, payer: Key, destination: Address, space: nat, data: Data, q: Quantity)
    requires !destination.Wallet? && CreateOrClaim(m, env, Wallet(payer), destination, space, data).Success?
    ensures var m' := CreateOrClaim(m, env, Wallet(payer), destination, space, data).value;
            var w, paid := Wallet(payer), TopUp(m, env, destination, space);
            && VacantSystemAccount(At(m, destination)).Pass?
            && ChangesOnly(m, m', {w, destination})
            && paid <= At(m, w).lamports
            && At(m', w) == At(m, w).(lamports := At(m, w).lamports - paid)
            && At(m', destination) == AccountInfo(Program, At(m, destination).lamports + paid, false, data)
            && Total(m', q) == Total(m, q) + (if q.Lamports? then 0 else Share(q, destination, At(m', destination)))
  {
    var paid := TopUp(m, env, destination, space);
    FundEffect(m, payer, destination, paid, q);
    AssignEffect(Fund(m, payer, destination, paid).value, destination, data, q);
  }

  /** The payer's part: nothing moves when the placeholder already holds enough. */
  ghost function Fund(m: Accounts, payer: Key, destination: Address, paid: nat): Result<Accounts, Error> {
    if At(m, destination).lamports == 0 || paid > 0 then SystemTransfer(m, Wallet(payer), destination, paid)
    else Success(m)
  }

  lemma FundEffect(m: Accounts, payer: Key, destination: Address, paid: nat, q: Quantity)
    requires !destination.Wallet? && Fund(m, payer, destination, paid).Success?
    ensures var funded, w := Fund(m, payer, destination, paid).value, Wallet(payer);
            && ChangesOnly(m, funded, {w, destination})
            && paid <= At(m, w).lamports
            && At(funded, w) == At(m, w).(lamports := At(m, w).lamports - paid)
            && At(funded, destination) == At(m, destination).(lamports := At(m, destination).lamports + paid)
            && Total(funded, q) == Total(m, q)
  {
    if At(m, destination).lamports == 0 || paid > 0 {
      SystemTransferEffect(m, Wallet(payer), destination, paid, q);
    }
  }

  /** Giving a vacant placeholder to the program moves no lamports. */
  lemma AssignEffect(m: Accounts, destination: Address, data: Data, q: Quantity)
    requires VacantSystemAccount(At(m, destination)).Pass?
    ensures var m' := m[destination := AccountInfo(Program, At(m, destination).lamports, false, data)];
            && ChangesOnly(m, m', {destination})
            && Total(m', q) == Total(m, q) + (if q.Lamports? then 0 else Share(q, destination, m'[destination]))
  {
    TotalUpdated(m, q, destination, AccountInfo(Program, At(m, destination).lamports, false, data));
  }

  /** How the vote and claim sums move when one vote is added. */
  ghost function WithVote(m: Accounts, q: Quantity, id: Digest, amount: nat): nat {
    Total(m, q) + match q
                  case Lamports => 0
                  case Votes(j) => if j == id then 1 else 0
                  case Claims(j) => if j == id then amount else 0
  }

  lemma CreateVoteEffect(m: Accounts, env: Env, payer: Key, voteAddress: Address, id: Digest, amount: u64, q: Quantity)
    requires CreateVote(m, env, payer, voteAddress, id, amount).Success?
    ensures var m', w, v := CreateVote(m, env, payer, voteAddress, id, amount).value, Wallet(payer), VotePda(payer, id);
            var paid := TopUp(m, env, v, VOTE_INFO_SPACE);
            && voteAddress == v && VacantSystemAccount(At(m, v)).Pass?
            && At(m, HashPda(id)).owner == Program
            && ChangesOnly(m, m', {w, v})
            && paid <= At(m, w).lamports
            && At(m', w) == At(m, w).(lamports := At(m, w).lamports - paid)
            && At(m', v) == AccountInfo(Program, At(m, v).lamports + paid, false,
                                        VoteData(VoteState(payer, id, amount)))
            && Total(m', q) == WithVote(m, q, id, amount)
  {
    CreateOrClaimEffect(m, env, payer, voteAddress, VOTE_INFO_SPACE, VoteData(VoteState(payer, id, amount)), q);
  }

  lemma CreateHashEffect(H: Hasher, m: Accounts, env: Env, payer: Key, address: Address, record: Record, q: Quantity)
    requires CreateHash(H, m, env, payer, address, record).Success?
    ensures var m', w := CreateHash(H, m, env, payer, address, record).value, Wallet(payer);
            var paid := TopUp(m, env, address, record.source.Space());
            && address == HashPda(record.Id(H)) && VacantSystemAccount(At(m, address)).Pass?
            && ChangesOnly(m, m', {w, address})
            && paid <= At(m, w).lamports
            && At(m', w) == At(m, w).(lamports := At(m, w).lamports - paid)
            && At(m', address)
               == AccountInfo(Program, At(m, address).lamports + paid, false,
                              HashData(HashState(record, 1, record.source.Space())))
            && Total(m', q) == Total(m, q)
  {
    var space := record.source.Space();
    CreateOrClaimEffect(m, env, payer, address, space, HashData(HashState(record, 1, space)), q);
  }

  ghost function RentFor(env: Env, record: Record): u64 {
    env.rent(record.source.Space())
  }

  /** Creating a record with its first vote: exactly three accounts change; the payer pays
      the two top-ups. */
  lemma CreateWithInitialVoteEffect(
    H: Hasher, m: Accounts, env: Env, payer: Key, hashAddress: Address, voteAddress: Address, record: Record,
    q: Quantity)
    requires CreateWithInitialVote(H, m, env, payer, hashAddress, voteAddress, record).Success?
    ensures var id := record.Id(H);
            var m' := CreateWithInitialVote(H, m, env, payer, hashAddress, voteAddress, record).value;
            var h, v, w := HashPda(id), VotePda(payer, id), Wallet(payer);
            var paid := TopUp(m, env, h, record.source.Space()) + TopUp(m, env, v, VOTE_INFO_SPACE);
            && hashAddress == h && voteAddress == v
            && VacantSystemAccount(At(m, h)).Pass? && VacantSystemAccount(At(m, v)).Pass?
            && ChangesOnly(m, m', {h, v, w})
            && paid <= At(m, w).lamports
            && At(m', w) == At(m, w).(lamports := At(m, w).lamports - paid)
            && At(m', h) == AccountInfo(Program, At(m, h).lamports + TopUp(m, env, h, record.source.Space()), false,
                                        HashData(HashState(record, 1, record.source.Space())))
            && At(m', v) == AccountInfo(Program, At(m, v).lamports + TopUp(m, env, v, VOTE_INFO_SPACE), false,
                                        VoteData(VoteState(payer, id, RentFor(env, record))))
            && Total(m', q) == WithVote(m, q, id, RentFor(env, record))
  {
    CreateHashEffect(H, m, env, payer, hashAddress, record, q);
    var created := CreateHash(H, m, env, payer, hashAddress, record).value;
    CreateVoteEffect(created, env, payer, voteAddress, record.Id(H), RentFor(env, record), q);
  }

  /** A record as its creation leaves it: these fields, one vote, and that vote the payer's. */
  ghost predicate JustCreated(H: Hasher, m: Accounts, env: Env, payer: Key, r: Record) {
    var id := r.Id(H);
    && At(m, HashPda(id)).owner == Program && !At(m, HashPda(id)).executable
    && At(m, HashPda(id)).data == HashData(HashState(r, 1, r.source.Space()))
    && At(m, HashPda(id)).lamports >= env.rent(r.source.Space())
    && At(m, VotePda(payer, id)).owner == Program && !At(m, VotePda(payer, id)).executable
    && At(m, VotePda(payer, id)).data == VoteData(VoteState(payer, id, env.rent(r.source.Space())))
  }

  /** A later vote pays its own account's top-up and a full deposit. */
  lemma AddVoteEffect(
    H: Hasher, m: Accounts, env: Env, payer: Key, voteAddress: Address, state: HashState, q: Quantity)
    requires AddVote(H, m, env, payer, HashPda(state.record.Id(H)), voteAddress, state).Success?
    ensures var id, deposit := state.record.Id(H), env.rent(state.space);
            var m' := AddVote(H, m, env, payer, HashPda(id), voteAddress, state).value;
            var h, v, w := HashPda(id), VotePda(payer, id), Wallet(payer);
            var paid := TopUp(m, env, v, VOTE_INFO_SPACE) + deposit;
            && voteAddress == v && VacantSystemAccount(At(m, v)).Pass? && state.voters + 1 < U64_LIMIT
            && ChangesOnly(m, m', {h, v, w})
            && paid <= At(m, w).lamports
            && At(m', w) == At(m, w).(lamports := At(m, w).lamports - paid)
            && At(m', h) == At(m, h).(lamports := At(m, h).lamports + deposit,
                                      data := HashData(state.(voters := state.voters + 1)))
            && At(m', v) == AccountInfo(Program, At(m, v).lamports + TopUp(m, env, v, VOTE_INFO_SPACE), false,
                                        VoteData(VoteState(payer, id, deposit)))
            && Total(m', q) == WithVote(m, q, id, deposit)
  {
    var id, deposit := state.record.Id(H), env.rent(state.space);
    CreateVoteEffect(m, env, payer, voteAddress, id, deposit, q);
    var voted := CreateVote(m, env, payer, voteAddress, id, deposit).value;
    var funded := if deposit > 0 then SystemTransfer(voted, Wallet(payer), HashPda(id), deposit).value else voted;
    if deposit > 0 {
      SystemTransferEffect(voted, Wallet(payer), HashPda(id), deposit, q);
    }
    TotalUpdated(funded, q, HashPda(id),
                 At(funded, HashPda(id)).(data := HashData(state.(voters := state.voters + 1))));
  }

  lemma CloseEffect(m: Accounts, account: Address, recipient: Address, q: Quantity)
    requires CloseProgramAccount(m, account, recipient).Success? && recipient.Wallet?
    ensures var m' := CloseProgramAccount(m, account, recipient).value;
            && At(m, account).owner == Program && account != recipient
            && ChangesOnly(m, m', {account, recipient})
            && At(m', account) == At(m, account).(owner := System, lamports := 0, data := Empty)
            && At(m', recipient) == At(m, recipient).(lamports := At(m, recipient).lamports + At(m, account).lamports)
            && Total(m', q) == Total(m, q) - (if q.Lamports? then 0 else Share(q, account, At(m, account)))
  {
    var balance := At(m, account).lamports;
    var moved := TransferFromProgramAccount(m, account, recipient, balance).value;
    if balance > 0 {
      TransferEffect(m, account, recipient, balance, q);
    }
    TotalUpdated(moved, q, account, At(moved, account).(owner := System, data := Empty));
  }

  /** What the leaving voter receives besides the vote account's own balance. */
  ghost function Refund(m: Accounts, hashAddress: Address, state: HashState, vote: VoteState): nat {
    if state.voters == 1 then At(m, hashAddress).lamports else vote.amount
  }

  ghost function WithoutVote(m: Accounts, q: Quantity, id: Digest, amount: nat): int {
    Total(m, q) - match q
                  case Lamports => 0
                  case Votes(j) => if j == id then 1 else 0
                  case Claims(j) => if j == id then amount else 0
  }

  lemma ReleaseEffect(
    H: Hasher, m: Accounts, env: Env, state: HashState, vote: VoteState, recipient: Key, q: Quantity)
    requires var id := state.record.Id(H);
             && At(m, HashPda(id)).data == HashData(state) && At(m, HashPda(id)).owner == Program
             && At(m, VotePda(recipient, id)).data == VoteData(vote)
             && Release(H, m, env, HashPda(id), state, VotePda(recipient, id), vote, recipient).Success?
    ensures var id := state.record.Id(H);
            var h, v, w := HashPda(id), VotePda(recipient, id), Wallet(recipient);
            var m' := Release(H, m, env, h, state, v, vote, recipient).value;
            && state.voters > 0 && At(m, v).owner == Program
            && ChangesOnly(m, m', {h, v, w})
            && Refund(m, h, state, vote) <= At(m, h).lamports
            && At(m', w) == At(m, w).(lamports := At(m, w).lamports + At(m, v).lamports + Refund(m, h, state, vote))
            && At(m', v) == At(m, v).(owner := System, lamports := 0, data := Empty)
            && At(m', h) == (if state.voters == 1 then At(m, h).(owner := System, lamports := 0, data := Empty)
                             else At(m, h).(lamports := At(m, h).lamports - vote.amount,
                                            data := HashData(state.(voters := state.voters - 1))))
            && Total(m', q) == WithoutVote(m, q, id, vote.amount)
  {
    var id := state.record.Id(H);
    var h, v, w := HashPda(id), VotePda(recipient, id), Wallet(recipient);
    CloseEffect(m, v, w, q);
    var closed := CloseProgramAccount(m, v, w).value;
    if state.voters == 1 {
      CloseEffect(closed, h, w, q);
    } else {
      LowerVotersEffect(closed, h, w, state, vote.amount, q);
    }
  }

  /** The counter falls by one and the claim is paid out of the record. */
  lemma LowerVotersEffect(m: Accounts, h: Address, w: Address, state: HashState, amount: u64, q: Quantity)
    requires h.HashPda? && w.Wallet? && state.voters > 0
    requires var lowered := At(m, h).(data := HashData(state.(voters := state.voters - 1)));
             TransferFromProgramAccount(m[h := lowered], h, w, amount).Success?
    ensures var lowered := At(m, h).(data := HashData(state.(voters := state.voters - 1)));
            var m' := TransferFromProgramAccount(m[h := lowered], h, w, amount).value;
            && ChangesOnly(m, m', {h, w}) && amount <= At(m, h).lamports
            && At(m', w) == At(m, w).(lamports := At(m, w).lamports + amount)
            && At(m', h) == lowered.(lamports := At(m, h).lamports - amount)
            && Total(m', q) == Total(m, q)
  {
    var lowered := At(m, h).(data := HashData(state.(voters := state.voters - 1)));
    TotalUpdated(m, q, h, lowered);
    if amount > 0 {
      TransferEffect(m[h := lowered], h, w, amount, q);
    }
  }
}
