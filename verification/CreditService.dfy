/**
 The functions of src/city-credit.ts and src/city-credit-recovery.ts that callers use. Each is
 a few SQL statements with decisions in between; other workers run in the gaps.
 */
module CreditService {
  import opened Common
  import opened CreditLedger
  import opened CreditProtocol

  /** What other workers do before the next statement, and the snapshot that statement gets. */
  datatype Turn = Turn(ops: seq<Op>, snapshot: nat)

  datatype SpendResult =
    | SpendCompleted(attempt: nat, response: Response)
    | SpendReturned(attempt: nat, entry: nat, response: Response)
    | SpendBusy(attempt: nat)
    | SpendReady(attempt: nat, spend: nat, owner: nat)
    | SpendConflict
    | SpendRefused

  datatype ReturnResult = Returned(created: bool, spend: nat, entry: nat) | ReturnRefused

  datatype ExpiredResult =
    | ExpiredReturned(spend: nat, entry: nat)
    | ExpiredBusy
    | ExpiredNotDue
    | ExpiredUnavailable
    | ExpiredRefused

  datatype IssueResult = Issued(created: bool, entry: nat, balance: int) | IssueConflict

  /** The stored answer of a deadline return; its last part stands for the fixed body. */
  const DEADLINE_RESPONSE := Response(409, "automatic recovery deadline reached", "city fee credit returned")

  function IssueEntry(resident: nat, sourceKey: string, reason: string): Entry {
    Entry(resident, FounderIssue, FEE, None, None, None, None, Some(sourceKey), Some(reason))
  }

  predicate HasKey(e: Entry, sourceKey: string) {
    e.sourceKey == Some(sourceKey)
  }

  function FindKey(entries: seq<Entry>, sourceKey: string): (r: Option<nat>)
    ensures r.Some? ==> r.value < |entries| && HasKey(entries[r.value], sourceKey)
    ensures r.None? ==> forall i :: 0 <= i < |entries| ==> !HasKey(entries[i], sourceKey)
  {
    if entries == [] then None
    else
      var n := |entries| - 1;
      if HasKey(entries[n], sourceKey) then Some(n) else FindKey(entries[..n], sourceKey)
  }

  predicate Ahead(time: Option<int>, clock: int) {
    time.Some? && time.value > clock
  }

  // ----- what a row says about the database

  /** `verifySpendTerms`: the row is about these terms under this request id. */
  predicate SameTerms(row: BeginRow, terms: Terms, requestId: string) {
    row.stored.terms == terms && row.requestId == Some(requestId) && row.stored.rail.ByCredit?
  }

  /** The spend entry that pays for an attempt under a request id. */
  ghost predicate Pays(db: Db, terms: Terms, requestId: string, attempt: nat, spend: nat) {
    && attempt < |db.attempts| && db.attempts[attempt].terms == terms && db.attempts[attempt].rail.ByCredit?
    && spend < |db.entries| && IsSpendBy(db.entries[spend], terms.actor, requestId)
    && db.entries[spend].attempt == Some(attempt) && db.entries[spend].units == FEE
  }

  ghost predicate GivesBack(db: Db, attempt: nat, spend: nat, entry: nat) {
    && attempt < |db.attempts| && db.attempts[attempt].status.CreditReturned?
    && entry < |db.entries| && IsReturnOf(db.entries[entry], spend)
    && db.entries[entry].attempt == Some(attempt) && db.entries[entry].units == FEE
  }

  /** What the caller can rely on after a begin returned this row. */
  ghost predicate Truthful(db: Db, terms: Terms, requestId: string, row: BeginRow) {
    && row.spend.Some? && Pays(db, terms, requestId, row.attempt, row.spend.value)
    && var a := db.attempts[row.attempt];
       && (row.state.BeganReady? ==>
             && a.status.PaymentPending? && a.leaseOwner.Some? && a.leaseOwner == row.leaseOwner
             && a.leaseExpires == Some(db.clock + LEASE_MS))
       && (row.state.BeganCompleted? ==> a.status.Completed? && a == row.stored && a.response.Some?)
       && (row.state.BeganReturned? ==>
             && a == row.stored && a.response.Some?
             && row.returned.Some? && GivesBack(db, row.attempt, row.spend.value, row.returned.value))
  }

  lemma ReturnFound(db: Db, a: nat, spend: nat)
    requires Inv(db) && a < |db.attempts| && db.attempts[a].rail.ByCredit? && db.attempts[a].status.CreditReturned?
    requires spend < |db.entries| && IsSpendFor(db.entries[spend], a)
    ensures var r := FindReturnOf(db.entries, spend);
      r.Some? && GivesBack(db, a, spend, r.value)
  {
    assert AttemptGood(db, a);
    var i :| 0 <= i < |db.entries| && db.entries[i].kind.Return? && db.entries[i].attempt == Some(a);
    assert ReturnLinked(db.entries, i);
    var s := db.entries[i].related.value;
    assert s == spend;
    assert IsReturnOf(db.entries[i], spend);
    var r := FindReturnOf(db.entries, spend).value;
    assert ReturnLinked(db.entries, r);
  }

  lemma SpendOfRow(snap: Db, terms: Terms, requestId: string, c: nat)
    requires Inv(snap) && Candidate(snap, terms, requestId) == Some(c) && c < |snap.attempts|
    requires SameTerms(ExistingRow(snap, terms, requestId, c, false, 0), terms, requestId)
    ensures var row := ExistingRow(snap, terms, requestId, c, false, 0);
      row.spend.Some? && Pays(snap, terms, requestId, c, row.spend.value)
      && IsSpendFor(snap.entries[row.spend.value], c)
  {
    var row := ExistingRow(snap, terms, requestId, c, false, 0);
    assert SpendLinked(snap.attempts, snap.entries[row.spend.value]);
  }

  /** A row read from an earlier snapshot still tells the truth about the current state. */
  lemma ExistingRowTruthful(snap: Db, db: Db, terms: Terms, requestId: string, c: nat, owner: nat)
    requires Inv(snap) && Evolves(snap, db)
    requires Candidate(snap, terms, requestId) == Some(c) && c < |snap.attempts|
    requires SameTerms(ExistingRow(snap, terms, requestId, c, Leases(snap, db, terms, c), owner), terms, requestId)
    ensures Truthful(BeginDb(snap, db, terms, requestId, owner), terms, requestId,
                     ExistingRow(snap, terms, requestId, c, Leases(snap, db, terms, c), owner))
  {
    var row := ExistingRow(snap, terms, requestId, c, Leases(snap, db, terms, c), owner);
    SpendOfRow(snap, terms, requestId, c);
    assert AttemptGood(snap, c);
    assert db.entries[row.spend.value] == snap.entries[row.spend.value];
    if row.state.BeganReturned? {
      ReturnFound(snap, c, row.spend.value);
      assert db.entries[row.returned.value] == snap.entries[row.returned.value];
    }
  }

  lemma BeginTruthful(h: History, snapshot: nat, terms: Terms, requestId: string, owner: nat)
    requires Good(h)
    ensures var snap := Snapshot(h, snapshot);
      var answer := BeginAnswered(snap, Now(h), terms, requestId, owner);
      answer.OneRow? && SameTerms(answer.row, terms, requestId) ==>
        Truthful(BeginDb(snap, Now(h), terms, requestId, owner), terms, requestId, answer.row)
  {
    var snap := Snapshot(h, snapshot);
    var db := Now(h);
    assert Inv(snap) && Evolves(snap, db);
    var answer := BeginAnswered(snap, db, terms, requestId, owner);
    if answer.OneRow? && SameTerms(answer.row, terms, requestId) {
      match Candidate(snap, terms, requestId)
      case Some(c) => ExistingRowTruthful(snap, db, terms, requestId, c, owner);
      case None =>
    }
  }

  /** A begin whose snapshot is current never loses to an unseen winner: it answers or lacks credit. */
  lemma FreshBeginAnswers(db: Db, terms: Terms, requestId: string, owner: nat)
    requires Inv(db)
    ensures var answer := BeginAnswered(db, db, terms, requestId, owner);
      answer.OneRow? || (answer.InsufficientCredit? && BalanceOf(db, terms.actor) < FEE)
  {
    var spend := FindSpend(db.entries, terms.actor, requestId);
    if spend.Some? {
      assert SpendLinked(db.attempts, db.entries[spend.value]);
    }
  }

  /**
   Replay: once a request id has paid for an attempt, a begin of the same terms with any snapshot
   that shows the payment answers with that attempt and charges nothing.
   */
  lemma ReplayFindsPayment(
    h: History, snapshot: nat, terms: Terms, requestId: string, owner: nat, attempt: nat, spend: nat)
    requires Good(h)
    requires Pays(Snapshot(h, snapshot), terms, requestId, attempt, spend)
    ensures var answer := BeginAnswered(Snapshot(h, snapshot), Now(h), terms, requestId, owner);
      && answer.OneRow? && answer.row.attempt == attempt && SameTerms(answer.row, terms, requestId)
      && BeginDb(Snapshot(h, snapshot), Now(h), terms, requestId, owner).entries == Now(h).entries
  {
    var snap := Snapshot(h, snapshot);
    assert Inv(snap) && Evolves(snap, Now(h));
    var found := FindSpend(snap.entries, terms.actor, requestId).value;
    assert found == spend;
  }

  /**
   What an undisturbed begin needs to get the lease: nothing blocks the target and the resident
   can pay, or the request has paid for an attempt whose lease is free and deadline ahead.
   */
  ghost predicate Startable(db: Db, terms: Terms, requestId: string) {
    || (FindSpend(db.entries, terms.actor, requestId).None?
        && FindBlocking(db.attempts, terms.operation, terms.target).None?
        && BalanceOf(db, terms.actor) >= FEE)
    || (exists a: nat, spend: nat ::
          Pays(db, terms, requestId, a, spend) && Leasable(db.attempts[a], terms.actor, db.clock))
  }

  /** The row that makes the service answer ready. */
  ghost predicate Granted(answer: BeginAnswer, terms: Terms, requestId: string) {
    && answer.OneRow? && !answer.row.recoveryDue && SameTerms(answer.row, terms, requestId)
    && answer.row.state.BeganReady?
  }

  /** Progress: a begin that is startable in its own snapshot is granted. */
  lemma BeginProgress(db: Db, terms: Terms, requestId: string, owner: nat)
    requires Inv(db) && Startable(db, terms, requestId)
    ensures Granted(BeginAnswered(db, db, terms, requestId, owner), terms, requestId)
  {
    if a: nat, spend: nat :| Pays(db, terms, requestId, a, spend) && Leasable(db.attempts[a], terms.actor, db.clock) {
      var found := FindSpend(db.entries, terms.actor, requestId).value;
      assert found == spend;
    } else {
      assert !LiveOn(db.attempts, terms.operation, terms.target);
    }
  }

  /** What an answer of `beginCityCreditSpend` promises about the database at that moment. */
  ghost predicate Honest(db: Db, terms: Terms, requestId: string, r: SpendResult) {
    match r
    case SpendReady(a, spend, owner) =>
      && Pays(db, terms, requestId, a, spend) && db.attempts[a].status.PaymentPending?
      && db.attempts[a].leaseOwner == Some(owner) && db.attempts[a].leaseExpires == Some(db.clock + LEASE_MS)
    case SpendCompleted(a, response) =>
      && (exists spend :: Pays(db, terms, requestId, a, spend))
      && db.attempts[a].status.Completed? && db.attempts[a].response == Some(response)
    case SpendReturned(a, entry, response) =>
      && (exists spend :: Pays(db, terms, requestId, a, spend) && GivesBack(db, a, spend, entry))
      && db.attempts[a].response == Some(response)
    case SpendBusy(a) => exists spend :: Pays(db, terms, requestId, a, spend)
    case SpendConflict => true
    case SpendRefused => true
  }

  lemma RowIsHonest(db: Db, terms: Terms, requestId: string, row: BeginRow)
    requires Truthful(db, terms, requestId, row)
    ensures row.state.BeganReady? ==>
      && row.spend.Some? && row.leaseOwner.Some?
      && Honest(db, terms, requestId, SpendReady(row.attempt, row.spend.value, row.leaseOwner.value))
    ensures row.state.BeganCompleted? ==>
      row.stored.response.Some? && Honest(db, terms, requestId, SpendCompleted(row.attempt, row.stored.response.value))
    ensures row.state.BeganReturned? ==>
      && row.stored.response.Some? && row.returned.Some?
      && Honest(db, terms, requestId, SpendReturned(row.attempt, row.returned.value, row.stored.response.value))
    ensures Honest(db, terms, requestId, SpendBusy(row.attempt))
  {
  }

  lemma SomeFresh(owners: set<nat>)
    ensures exists owner: nat :: owner !in owners
  {
    var top := UpperBound(owners);
    assert top !in owners;
  }

  lemma {:induction false} UpperBound(owners: set<nat>) returns (top: nat)
    ensures forall owner :: owner in owners ==> owner < top
  {
    if owners == {} {
      top := 0;
    } else {
      var one :| one in owners;
      var rest := UpperBound(owners - {one});
      assert forall owner :: owner in owners ==> owner == one || owner in owners - {one};
      top := Max(rest, one + 1);
    }
  }

  lemma LogEvolves(h: History, later: History)
    requires Good(later) && h <= later
    ensures Evolves(Now(h), Now(later)) && Now(h).owners <= Now(later).owners && Now(h).entries <= Now(later).entries
  {
    assert Now(h) == later[|h| - 1];
  }

  lemma EndedStays(db: Db, later: Db, attempt: nat)
    requires Evolves(db, later)
    requires attempt < |db.attempts| && db.attempts[attempt].rail.ByCredit? && Ending(db.attempts[attempt].status)
    ensures attempt < |later.attempts| && later.attempts[attempt] == db.attempts[attempt]
  {
  }

  lemma SnapshotIsPrefix(h: History, snapshot: nat)
    requires Good(h)
    ensures Snapshot(h, snapshot).entries <= Now(h).entries
  {
    assert snapshot < |h| ==> Evolves(h[snapshot], h[|h| - 1]);
  }

  lemma BalanceTrue(h: History, resident: nat)
    requires Good(h)
    ensures BalanceOf(Now(h), resident) == Balance(Now(h).entries, resident) && BalanceOf(Now(h), resident) >= 0
  {
    assert Inv(Now(h)) && Balanced(Now(h));
  }

  lemma OneKey(h: History, sourceKey: string)
    requires Good(h)
    ensures OneOfKey(Now(h).entries, sourceKey)
  {
    assert Inv(Now(h)) && Unique(Now(h).entries);
  }

  ghost predicate OneOfKey(entries: seq<Entry>, sourceKey: string) {
    forall i, j :: 0 <= i < |entries| && 0 <= j < |entries|
                   && HasKey(entries[i], sourceKey) && HasKey(entries[j], sourceKey) ==>
      i == j
  }

  ghost predicate NoKey(entries: seq<Entry>, sourceKey: string) {
    forall i :: 0 <= i < |entries| ==> !HasKey(entries[i], sourceKey)
  }

  lemma OnlyOne(entries: seq<Entry>, sourceKey: string, entry: nat)
    requires OneOfKey(entries, sourceKey) && entry < |entries| && HasKey(entries[entry], sourceKey)
    ensures forall i :: 0 <= i < |entries| && HasKey(entries[i], sourceKey) ==> i == entry
  {
  }

  /** What an issue answers when its first statement meets this ledger. */
  ghost predicate IssueOutcome(
    stored: seq<Entry>, known: bool, resident: nat, sourceKey: string, reason: string, r: IssueResult)
  {
    && (r.Issued? && r.created <==> known && NoKey(stored, sourceKey))
    && (r.Issued? && r.created ==> r.entry == |stored|)
    && (forall i :: 0 <= i < |stored| && HasKey(stored[i], sourceKey) ==>
         if stored[i] == IssueEntry(resident, sourceKey, reason) then r.Issued? && !r.created && r.entry == i
         else r == IssueConflict)
  }

  lemma IssueDecided(
    stored: seq<Entry>, later: seq<Entry>, known: bool, resident: nat, sourceKey: string, reason: string,
    found: Option<nat>, r: IssueResult)
    requires stored <= later && OneOfKey(later, sourceKey)
    requires found.None? ==> NoKey(later, sourceKey) && !known
    requires found.Some? ==> found.value < |later| && HasKey(later[found.value], sourceKey)
    requires known && NoKey(stored, sourceKey) ==> found == Some(|stored|)
    requires if found.None? || later[found.value] != IssueEntry(resident, sourceKey, reason) then r == IssueConflict
      else r.Issued? && r.entry == found.value && (r.created <==> known && NoKey(stored, sourceKey))
    requires known && NoKey(stored, sourceKey) ==> later[|stored|] == IssueEntry(resident, sourceKey, reason)
    ensures IssueOutcome(stored, known, resident, sourceKey, reason, r)
  {
    assert forall i :: 0 <= i < |stored| ==> stored[i] == later[i];
  }

  lemma KeyStays(stored: seq<Entry>, later: seq<Entry>, sourceKey: string)
    requires stored <= later
    ensures NoKey(later, sourceKey) ==> NoKey(stored, sourceKey)
  {
    assert forall i :: 0 <= i < |stored| ==> stored[i] == later[i];
  }

  lemma KeyFound(entries: seq<Entry>, sourceKey: string)
    ensures FindKey(entries, sourceKey).None? <==> NoKey(entries, sourceKey)
    ensures var r := FindKey(entries, sourceKey);
      r.Some? ==> r.value < |entries| && HasKey(entries[r.value], sourceKey)
  {
  }

  lemma HasAccount(h: History, entry: nat)
    requires Good(h)
    ensures entry < |Now(h).entries| ==> Now(h).entries[entry].resident in Now(h).balances
  {
    assert Inv(Now(h)) && Balanced(Now(h));
  }

  lemma ReturnLasts(db: Db, later: Db, actor: nat, attempt: nat, response: Response)
    requires Evolves(db, later) && ReturnedAlready(db, actor, attempt, response)
    ensures ReturnedAlready(later, actor, attempt, response)
  {
  }

  lemma ReadBack(db: Db, attempt: nat, spend: nat, entry: nat)
    requires GivesBack(db, attempt, spend, entry)
    ensures entry < |db.entries| && IsReturnOf(db.entries[entry], spend)
  {
  }

  /** The entry that a return posts is the one that a later read finds. */
  lemma NewReturn(
    db: Db, later: Db, actor: nat, attempt: nat, owner: nat, response: Response, spend: nat, entry: nat)
    requires Inv(db) && Inv(later) && CanReturn(db, actor, attempt, owner)
    requires Evolves(ReturnDb(db, actor, attempt, owner, response), later)
    requires spend < |later.entries| && IsSpendFor(later.entries[spend], attempt)
    requires entry < |later.entries| && IsReturnOf(later.entries[entry], spend)
    ensures entry == |db.entries| && later.entries[entry] == ReturnEntry(actor, attempt, spend, response.reason)
  {
    var paid := FindSpendFor(db.entries, attempt).value;
    var n := |db.entries|;
    assert SpendLinked(db.attempts, db.entries[paid]);
    assert ReturnDb(db, actor, attempt, owner, response).entries
      == db.entries + [ReturnEntry(actor, attempt, paid, response.reason)];
    assert later.entries[n] == ReturnEntry(actor, attempt, paid, response.reason);
    assert later.entries[paid] == db.entries[paid];
    hide ReturnDb, FindSpendFor, CanReturn, Balanced, AttemptGood, OneLive, Linked, Evolves;
    OneOfTwo(later.entries, paid, spend);
    OneOfTwo(later.entries, n, entry);
  }

  lemma OneOfTwo(entries: seq<Entry>, i: nat, j: nat)
    requires Unique(entries) && i < |entries| && j < |entries|
    ensures (entries[i].kind.Spend? && entries[j].kind.Spend? && entries[i].attempt == entries[j].attempt)
            || (entries[i].kind.Return? && entries[j].kind.Return? && entries[i].related == entries[j].related) ==>
      i == j
  {
    assert i < j ==> Compatible(entries[i], entries[j]);
    assert j < i ==> Compatible(entries[j], entries[i]);
  }

  // ----- what a call that nobody disturbs answers

  predicate Pending(db: Db, a: nat) {
    a < |db.attempts| && db.attempts[a].rail.ByCredit? && db.attempts[a].status.PaymentPending?
  }

  /** A pending credit attempt whose deadline has passed. */
  predicate Overdue(db: Db, a: nat) {
    Pending(db, a) && !Ahead(db.attempts[a].deadline, db.clock)
  }

  predicate LeaseAhead(db: Db, a: nat)
    requires a < |db.attempts|
  {
    Ahead(db.attempts[a].leaseExpires, db.clock)
  }

  /** The fee of a is back: its attempt has ended as returned, for the deadline, with one new entry. */
  ghost predicate GivenBack(db: Db, later: Db, a: nat) {
    && a < |db.attempts| && later.clock == db.clock
    && later.attempts == db.attempts[a := Ended(db.attempts[a], CreditReturned,
         Response(409, "automatic recovery deadline reached", "city fee credit returned"))]
    && |later.entries| == |db.entries| + 1 && db.entries <= later.entries
    && later.entries[|db.entries|].kind.Return?
    && (exists spend :: 0 <= spend < |db.entries| && IsSpendFor(db.entries[spend], a)
                        && IsReturnOf(later.entries[|db.entries|], spend))
    && BalanceOf(later, db.attempts[a].terms.actor) == BalanceOf(db, db.attempts[a].terms.actor) + FEE
    && forall r: nat :: r != db.attempts[a].terms.actor ==> BalanceOf(later, r) == BalanceOf(db, r)
  }

  /** The attempt is the actor's own, paid by credit. */
  predicate Owns(db: Db, actor: nat, a: nat) {
    a < |db.attempts| && db.attempts[a].terms.actor == actor && db.attempts[a].rail.ByCredit?
  }

  /** The attempt is the actor's own and leased by this owner, whether or not the lease has run out. */
  predicate LeasedBy(db: Db, actor: nat, a: nat, owner: nat) {
    Owns(db, actor, a) && db.attempts[a].leaseOwner == Some(owner)
  }

  /** Exactly who can complete and return: a leased attempt is pending and paid. */
  lemma LeasersExactly(db: Db, actor: nat, a: nat, owner: nat)
    requires Inv(db)
    ensures CanComplete(db, actor, a, owner) <==> LeasedBy(db, actor, a, owner) && !Overdue(db, a)
    ensures CanReturn(db, actor, a, owner) <==> LeasedBy(db, actor, a, owner)
  {
    assert a < |db.attempts| ==> AttemptGood(db, a);
  }

  lemma GoodInv(h: History)
    requires Good(h)
    ensures Inv(Now(h))
  {
  }

  /** A claim by this owner has to wait for somebody else's lease. */
  predicate Blocked(db: Db, a: nat, owner: Option<nat>)
    requires a < |db.attempts|
  {
    LeaseAhead(db, a) && (owner.None? || db.attempts[a].leaseOwner != owner)
  }

  /** What an undisturbed deadline return answers, and what it leaves. */
  ghost predicate ExpiredOutcome(db: Db, actor: nat, a: nat, owner: Option<nat>, r: ExpiredResult, later: Db) {
    match r
    case ExpiredReturned(spend, entry) =>
      && Owns(db, actor, a) && spend < |db.entries| && IsSpendFor(db.entries[spend], a)
      && (if db.attempts[a].status.CreditReturned? then later == db && GivesBack(db, a, spend, entry)
          else Overdue(db, a) && !Blocked(db, a, owner) && GivenBack(db, later, a) && entry == |db.entries|)
    case ExpiredBusy => later == db && Owns(db, actor, a) && Overdue(db, a) && Blocked(db, a, owner)
    case ExpiredNotDue => later == db && Owns(db, actor, a) && Pending(db, a) && !Overdue(db, a)
    case ExpiredUnavailable => later == db && (!Owns(db, actor, a) || db.attempts[a].status.Completed?)
    case ExpiredRefused => false
  }

  /** The claim's answers, by the state of the attempt. */
  lemma ClaimCases(h: History, actor: nat, a: nat, given: Option<nat>, owner: nat)
    requires Good(h) && (given == Some(owner) || (given.None? && owner !in Now(h).owners))
    ensures var db := Now(h);
      var state := ClaimAnswered(db, actor, a, owner);
      && (state.ClaimReady? <==> Owns(db, actor, a) && Overdue(db, a) && !Blocked(db, a, given))
      && (state.ClaimBusy? <==> Owns(db, actor, a) && Overdue(db, a) && Blocked(db, a, given))
      && (state.ClaimNotDue? <==> Owns(db, actor, a) && Pending(db, a) && !Overdue(db, a))
      && (state.ClaimReturned? <==> Owns(db, actor, a) && db.attempts[a].status.CreditReturned?)
      && (state.ClaimUnavailable? <==> !Owns(db, actor, a) || db.attempts[a].status.Completed?)
      && (!state.ClaimReady? ==> ClaimDb(db, actor, a, owner) == db)
      && (Overdue(db, a) ==> !db.attempts[a].status.CreditReturned? && !db.attempts[a].status.Completed?)
      && Inv(db) && (Owns(db, actor, a) ==>
           a < |db.attempts| && db.attempts[a].rail.ByCredit? && db.attempts[a].terms.actor == actor)
  {
    assert Inv(Now(h));
    if a < |Now(h).attempts| {
      assert AttemptGood(Now(h), a);
    }
  }

  lemma QuietTurn(h: History, turns: seq<Turn>)
    ensures turns == [] ==>
      Run(h, Upcoming(h, turns).ops) == h && Snapshot(h, Upcoming(h, turns).snapshot) == Now(h)
  {
  }

  lemma NothingRun(h: History)
    ensures Run(h, []) == h && Snapshot(h, |h| - 1) == Now(h)
  {
  }

  /** A claim and the return after it, nobody in between, give the fee back. */
  lemma DeadlineReturns(db: Db, actor: nat, a: nat, owner: nat)
    requires Inv(db) && Owns(db, actor, a) && Overdue(db, a) && ClaimAnswered(db, actor, a, owner).ClaimReady?
    ensures var claimed := ClaimDb(db, actor, a, owner);
      && CanReturn(claimed, actor, a, owner) && LeasedBy(claimed, actor, a, owner)
      && GivenBack(db, ReturnDb(claimed, actor, a, owner, DEADLINE_RESPONSE), a)
  {
    assert AttemptGood(db, a);
    var claimed := ClaimDb(db, actor, a, owner);
    var spend := FindSpendFor(db.entries, a).value;
    assert SpendLinked(db.attempts, db.entries[spend]);
    var later := ReturnDb(claimed, actor, a, owner, DEADLINE_RESPONSE);
    assert later.entries[|db.entries|] == ReturnEntry(actor, a, spend, DEADLINE_RESPONSE.reason);
    assert IsReturnOf(later.entries[|db.entries|], spend);
  }

  /** The spend and the entry that a deadline return reads back are those it wrote. */
  lemma ReturnedNow(db: Db, actor: nat, a: nat, owner: nat, given: Option<nat>, spend: nat, entry: nat)
    requires Inv(db) && Owns(db, actor, a) && Overdue(db, a) && !Blocked(db, a, given)
    requires ClaimAnswered(db, actor, a, owner).ClaimReady?
    requires var later := ReturnDb(ClaimDb(db, actor, a, owner), actor, a, owner, DEADLINE_RESPONSE);
      spend < |later.entries| && IsSpendFor(later.entries[spend], a) && GivesBack(later, a, spend, entry)
    ensures var later := ReturnDb(ClaimDb(db, actor, a, owner), actor, a, owner, DEADLINE_RESPONSE);
      ExpiredOutcome(db, actor, a, given, ExpiredReturned(spend, entry), later)
  {
    DeadlineReturns(db, actor, a, owner);
    assert AttemptGood(db, a);
    var later := ReturnDb(ClaimDb(db, actor, a, owner), actor, a, owner, DEADLINE_RESPONSE);
    hide ReturnDb, ClaimDb, ClaimAnswered;
    assert forall i :: 0 <= i < |db.entries| ==> later.entries[i] == db.entries[i];
    assert !HasReturn(db.entries, a);
  }

  lemma ExpiredSimply(db: Db, actor: nat, a: nat, given: Option<nat>, r: ExpiredResult)
    requires r.ExpiredBusy? || r.ExpiredNotDue? || r.ExpiredUnavailable?
    requires r.ExpiredBusy? ==> Owns(db, actor, a) && Overdue(db, a) && Blocked(db, a, given)
    requires r.ExpiredNotDue? ==> Owns(db, actor, a) && Pending(db, a) && !Overdue(db, a)
    requires r.ExpiredUnavailable? ==> !Owns(db, actor, a) || db.attempts[a].status.Completed?
    ensures ExpiredOutcome(db, actor, a, given, r, db)
  {
  }

  lemma ExpiredBefore(db: Db, actor: nat, a: nat, given: Option<nat>, spend: nat, entry: nat)
    requires Owns(db, actor, a) && db.attempts[a].status.CreditReturned?
    requires spend < |db.entries| && IsSpendFor(db.entries[spend], a) && GivesBack(db, a, spend, entry)
    ensures ExpiredOutcome(db, actor, a, given, ExpiredReturned(spend, entry), db)
  {
  }

  // ----- what an undisturbed begin answers

  /** This request id has paid for attempt a, whatever its terms. */
  ghost predicate PaidFor(db: Db, actor: nat, requestId: string, a: nat) {
    exists i :: 0 <= i < |db.entries| && IsSpendBy(db.entries[i], actor, requestId) && db.entries[i].attempt == Some(a)
  }

  ghost predicate Unpaid(db: Db, actor: nat, requestId: string) {
    forall i :: 0 <= i < |db.entries| ==> !IsSpendBy(db.entries[i], actor, requestId)
  }

  predicate BlockedBy(db: Db, terms: Terms, c: nat) {
    && c < |db.attempts|
    && db.attempts[c].terms.operation == terms.operation && db.attempts[c].terms.target == terms.target
    && db.attempts[c].status in {Settling, PaymentPending, NeedsReview, Completed}
  }

  ghost predicate Clear(db: Db, terms: Terms) {
    forall c: nat :: !BlockedBy(db, terms, c)
  }

  /** The one attempt in the way is overdue and nobody holds its lease: the begin returns it first. */
  ghost predicate Frees(db: Db, terms: Terms, c: nat) {
    && BlockedBy(db, terms, c) && Overdue(db, c) && !LeaseAhead(db, c)
    && forall d: nat :: BlockedBy(db, terms, d) ==> d == c
  }

  /** The balance that is left once c has been returned. */
  function BalanceFreed(db: Db, actor: nat, c: nat): int
    requires c < |db.attempts|
  {
    BalanceOf(db, actor) + (if db.attempts[c].terms.actor == actor then FEE else 0)
  }

  /** What an undisturbed begin answers in this state: no state allows two of these. */
  ghost predicate Outcome(db: Db, terms: Terms, requestId: string, r: SpendResult, later: Db) {
    match r
    case SpendCompleted(a, response) =>
      && PaidFor(db, terms.actor, requestId, a) && a < |db.attempts| && db.attempts[a].terms == terms
      && db.attempts[a].status.Completed? && db.attempts[a].response == Some(response) && later == db
    case SpendReturned(a, entry, response) =>
      && PaidFor(db, terms.actor, requestId, a) && a < |db.attempts| && db.attempts[a].terms == terms
      && (if db.attempts[a].status.CreditReturned? then
            && db.attempts[a].response == Some(response) && later == db
            && exists spend: nat :: GivesBack(db, a, spend, entry)
          else
            && Overdue(db, a) && !LeaseAhead(db, a) && GivenBack(db, later, a)
            && response == DEADLINE_RESPONSE && entry == |db.entries|)
    case SpendBusy(a) =>
      && PaidFor(db, terms.actor, requestId, a) && a < |db.attempts| && db.attempts[a].terms == terms
      && Pending(db, a) && !Overdue(db, a) && LeaseAhead(db, a) && later == db
    case SpendReady(a, spend, _) =>
      if a < |db.attempts| then
        && PaidFor(db, terms.actor, requestId, a) && db.attempts[a].terms == terms
        && Pending(db, a) && !Overdue(db, a) && !LeaseAhead(db, a) && later.entries == db.entries
      else
        && Unpaid(db, terms.actor, requestId) && a == |db.attempts| < |later.attempts|
        && later.attempts[a].deadline == Some(db.clock + 7_200_000)
        && later.attempts[a].leaseExpires == Some(db.clock + 30_000)
        && ((Clear(db, terms) && spend == |db.entries| && BalanceOf(db, terms.actor) >= FEE
             && BalanceOf(later, terms.actor) == BalanceOf(db, terms.actor) - FEE)
            || (exists c: nat :: Frees(db, terms, c) && spend == |db.entries| + 1
                                 && BalanceFreed(db, terms.actor, c) >= FEE
                                 && BalanceOf(later, terms.actor) == BalanceFreed(db, terms.actor, c) - FEE))
    case SpendConflict =>
      || (exists a: nat :: PaidFor(db, terms.actor, requestId, a) && a < |db.attempts|
                           && (db.attempts[a].terms != terms || (Overdue(db, a) && LeaseAhead(db, a))))
      || (Unpaid(db, terms.actor, requestId) && !Clear(db, terms) && forall c: nat :: !Frees(db, terms, c))
    case SpendRefused =>
      && Unpaid(db, terms.actor, requestId)
      && ((Clear(db, terms) && BalanceOf(db, terms.actor) < FEE)
          || exists c: nat :: Frees(db, terms, c) && BalanceFreed(db, terms.actor, c) < FEE)
  }

  /** One begin statement with a current snapshot, under a new owner. */
  ghost predicate Asked(db: Db, terms: Terms, requestId: string, answer: BeginAnswer, next: Db) {
    exists owner: nat :: owner !in db.owners
      && answer == BeginAnswered(db, db, terms, requestId, owner) && next == BeginDb(db, db, terms, requestId, owner)
  }

  /** How the service reads a row. */
  ghost predicate Reads(row: BeginRow, terms: Terms, requestId: string, r: SpendResult) {
    if !SameTerms(row, terms, requestId) then r == SpendConflict
    else match row.state
      case BeganCompleted => row.stored.response.Some? && r == SpendCompleted(row.attempt, row.stored.response.value)
      case BeganBusy => r == SpendBusy(row.attempt)
      case BeganReturned =>
        && row.stored.response.Some? && row.returned.Some?
        && r == SpendReturned(row.attempt, row.returned.value, row.stored.response.value)
      case BeganReady =>
        row.spend.Some? && row.leaseOwner.Some? && r == SpendReady(row.attempt, row.spend.value, row.leaseOwner.value)
  }

  /** The snapshot misses a winner that the current rows have: the statement loses to it. */
  predicate Lost(snap: Db, db: Db, terms: Terms, requestId: string) {
    Candidate(snap, terms, requestId).None?
    && (LiveOn(db.attempts, terms.operation, terms.target) || FindSpend(db.entries, terms.actor, requestId).Some?)
  }

  /** And it loses by the unique index on spends. */
  predicate Violates(snap: Db, db: Db, terms: Terms, requestId: string) {
    Lost(snap, db, terms, requestId) && !LiveOn(db.attempts, terms.operation, terms.target)
  }

  /** What the next statement meets: the others' steps before it and its snapshot. */
  function Upcoming(h: History, turns: seq<Turn>): Turn {
    if turns == [] then Turn([], |h| - 1) else turns[0]
  }

  function Rest(turns: seq<Turn>): seq<Turn> {
    if turns == [] then [] else turns[1..]
  }

  /**
   The state that the first statements of a call decide on: that of the first one that does not
   lose, if it shows that state as it is and nobody acts afterwards. A statement that violates the
   unique index is run again once, and then one that finds no row.
   */
  function DecidesIn(
    h: History, turns: seq<Turn>, again: bool, once: bool, terms: Terms, requestId: string): Option<Db>
    decreases (if again then 1 else 0) + (if once then 1 else 0)
  {
    var before := Run(h, Upcoming(h, turns).ops);
    var snap := Snapshot(before, Upcoming(h, turns).snapshot);
    var db := Now(before);
    if again && Violates(snap, db, terms, requestId) then
      DecidesIn(before + [db], Rest(turns), false, once, terms, requestId)
    else if once && Lost(snap, db, terms, requestId) && !Violates(snap, db, terms, requestId) then
      DecidesIn(before + [db], Rest(turns), false, false, terms, requestId)
    else if Rest(turns) == [] && snap == db then Some(db)
    else None
  }

  function Decides(h: History, turns: seq<Turn>, terms: Terms, requestId: string): Option<Db> {
    DecidesIn(h, turns, true, true, terms, requestId)
  }

  lemma UndisturbedDecides(h: History, turns: seq<Turn>, terms: Terms, requestId: string)
    requires Good(h)
    ensures turns == [] ==> Decides(h, turns, terms, requestId) == Some(Now(h))
  {
    assert Inv(Now(h));
    var spend := FindSpend(Now(h).entries, terms.actor, requestId);
    if spend.Some? {
      assert SpendLinked(Now(h).attempts, Now(h).entries[spend.value]);
    }
    NothingRun(h);
  }

  /** Some state of the run showed the attempt alive. */
  ghost predicate WasLive(h: History, a: nat) {
    exists j :: 0 <= j < |h| && a < |h[j].attempts| && Live(h[j].attempts[a].status)
  }

  ghost predicate BusyWasLive(h: History, answer: BeginAnswer) {
    answer.OneRow? && answer.row.state.BeganBusy? && answer.row.stored.rail.ByCredit? ==> WasLive(h, answer.row.attempt)
  }

  lemma LosesExactly(h: History, snapshot: nat, terms: Terms, requestId: string)
    requires Good(h)
    ensures Inv(Now(h))
    ensures var snap, db := Snapshot(h, snapshot), Now(h);
      forall owner: nat ::
        var answer := BeginAnswered(snap, db, terms, requestId, owner);
        && (answer.NoRow? || answer.UniqueViolation? <==> Lost(snap, db, terms, requestId))
        && (answer.UniqueViolation? <==> Violates(snap, db, terms, requestId))
        && (Lost(snap, db, terms, requestId) ==> BeginDb(snap, db, terms, requestId, owner) == db)
        && BusyWasLive(h, answer)
  {
    var snap, db := Snapshot(h, snapshot), Now(h);
    assert Inv(snap) && Inv(db);
    var spend := FindSpend(snap.entries, terms.actor, requestId);
    if spend.Some? {
      assert SpendLinked(snap.attempts, snap.entries[spend.value]);
    }
    forall owner: nat ensures BusyWasLive(h, BeginAnswered(snap, db, terms, requestId, owner)) {
      var answer := BeginAnswered(snap, db, terms, requestId, owner);
      if answer.OneRow? && answer.row.state.BeganBusy? && answer.row.stored.rail.ByCredit? {
        assert AttemptGood(snap, answer.row.attempt);
        var j := if snapshot < |h| then snapshot else |h| - 1;
        assert snap == h[j];
      }
    }
  }

  lemma BusyLonger(h: History, later: History, answer: BeginAnswer)
    requires h <= later && BusyWasLive(h, answer)
    ensures BusyWasLive(later, answer)
  {
    assert forall j :: 0 <= j < |h| ==> later[j] == h[j];
  }

  lemma OwnRow(row: BeginRow, terms: Terms, requestId: string)
    requires SameTerms(row, terms, requestId)
    ensures row.stored.rail.ByCredit? && row.stored.terms == terms
  {
  }

  lemma AskedOnce(db: Db, terms: Terms, requestId: string, owner: nat, answer: BeginAnswer, next: Db)
    requires owner !in db.owners
    requires answer == BeginAnswered(db, db, terms, requestId, owner)
    requires next == BeginDb(db, db, terms, requestId, owner)
    ensures Asked(db, terms, requestId, answer, next)
  {
  }

  ghost predicate ReadsAnswer(answer: BeginAnswer, terms: Terms, requestId: string, r: SpendResult) {
    match answer
    case OneRow(row) => Reads(row, terms, requestId, r)
    case NoRow => r == SpendConflict
    case _ => r == SpendRefused
  }

  /** The row of a request that has paid. */
  lemma PaidRow(db: Db, terms: Terms, requestId: string, answer: BeginAnswer, next: Db)
    requires Inv(db) && Asked(db, terms, requestId, answer, next) && !Unpaid(db, terms.actor, requestId)
    ensures answer.OneRow?
    ensures var row := answer.row;
      var a := row.attempt;
      && a < |db.attempts| && row.stored == db.attempts[a] && PaidFor(db, terms.actor, requestId, a)
      && row.stored.rail.ByCredit? && row.stored.terms.actor == terms.actor
      && (row.stored.status.PaymentPending? || row.stored.status.Completed? || row.stored.status.CreditReturned?)
      && (SameTerms(row, terms, requestId) <==> row.stored.terms == terms)
      && (row.recoveryDue <==> Overdue(db, a)) && (Overdue(db, a) ==> row.leaseOwner.None?)
      && (row.state.BeganCompleted? <==> row.stored.status.Completed?)
      && (row.state.BeganReturned? <==> row.stored.status.CreditReturned?)
      && (row.state.BeganReady? <==> Pending(db, a) && !Overdue(db, a) && !LeaseAhead(db, a))
      && (if row.state.BeganReady? then next.entries == db.entries else next == db)
      && (row.returned.Some? && row.stored.status.CreditReturned? ==>
           exists spend: nat :: GivesBack(db, a, spend, row.returned.value))
      && forall other: nat :: PaidFor(db, terms.actor, requestId, other) ==> other == a
  {
    var i :| 0 <= i < |db.entries| && IsSpendBy(db.entries[i], terms.actor, requestId);
    var spend := FindSpend(db.entries, terms.actor, requestId).value;
    assert SpendLinked(db.attempts, db.entries[spend]);
    assert AttemptGood(db, db.entries[spend].attempt.value);
    assert Unique(db.entries);
    assert forall j :: 0 <= j < |db.entries| && IsSpendBy(db.entries[j], terms.actor, requestId) ==> j == spend;
    if db.attempts[db.entries[spend].attempt.value].status.CreditReturned? {
      ReturnFound(db, db.entries[spend].attempt.value, spend);
    }
  }

  /** The row of a request that has not paid and finds somebody on its target. */
  lemma BlockedRow(db: Db, terms: Terms, requestId: string, answer: BeginAnswer, next: Db)
    requires Inv(db) && Asked(db, terms, requestId, answer, next)
    requires Unpaid(db, terms.actor, requestId) && !Clear(db, terms)
    ensures answer.OneRow? && !SameTerms(answer.row, terms, requestId)
    ensures var row := answer.row;
      && BlockedBy(db, terms, row.attempt) && row.stored == db.attempts[row.attempt]
      && (row.recoveryDue && row.stored.rail.ByCredit? ==> Overdue(db, row.attempt))
      && (Overdue(db, row.attempt) ==> row.recoveryDue)
      && (row.recoveryDue ==> row.leaseOwner.None? && next == db)
  {
    var c :| BlockedBy(db, terms, c);
    assert FindSpend(db.entries, terms.actor, requestId).None?;
    var found := FindBlocking(db.attempts, terms.operation, terms.target).value;
    assert AttemptGood(db, found);
    var spend := FindSpendFor(db.entries, found);
    if spend.Some? {
      assert SpendLinked(db.attempts, db.entries[spend.value]);
    }
  }

  /** The answer to a request that has not paid and finds its target free. */
  lemma FreshRow(db: Db, terms: Terms, requestId: string, answer: BeginAnswer, next: Db)
    requires Inv(db) && Asked(db, terms, requestId, answer, next)
    requires Unpaid(db, terms.actor, requestId) && Clear(db, terms)
    ensures answer.InsufficientCredit? <==> BalanceOf(db, terms.actor) < FEE
    ensures !answer.InsufficientCredit? ==>
      && answer.OneRow? && SameTerms(answer.row, terms, requestId) && answer.row.state.BeganReady?
      && !answer.row.recoveryDue && answer.row.attempt == |db.attempts| && answer.row.spend == Some(|db.entries|)
      && BalanceOf(next, terms.actor) == BalanceOf(db, terms.actor) - FEE
      && |next.attempts| == |db.attempts| + 1
      && next.attempts[|db.attempts|].deadline == Some(db.clock + 7_200_000)
      && next.attempts[|db.attempts|].leaseExpires == Some(db.clock + 30_000)
  {
    assert FindSpend(db.entries, terms.actor, requestId).None?;
    var found := FindBlocking(db.attempts, terms.operation, terms.target);
    assert found.Some? ==> BlockedBy(db, terms, found.value);
  }

  /** A row that needs no recovery is the answer. */
  lemma AnsweredDirectly(db: Db, terms: Terms, requestId: string, answer: BeginAnswer, next: Db, r: SpendResult)
    requires Inv(db) && Asked(db, terms, requestId, answer, next)
    requires answer.OneRow? && !answer.row.recoveryDue && Reads(answer.row, terms, requestId, r)
    ensures Outcome(db, terms, requestId, r, next)
  {
    hide Inv, Asked, GivesBack, GivenBack;
    if !Unpaid(db, terms.actor, requestId) {
      PaidRow(db, terms, requestId, answer, next);
    } else if Clear(db, terms) {
      FreshRow(db, terms, requestId, answer, next);
    } else {
      BlockedRow(db, terms, requestId, answer, next);
    }
  }

  lemma AnsweredRefused(db: Db, terms: Terms, requestId: string, answer: BeginAnswer, next: Db)
    requires Inv(db) && Asked(db, terms, requestId, answer, next) && !answer.OneRow?
    ensures answer.InsufficientCredit? && Outcome(db, terms, requestId, SpendRefused, next)
  {
    hide Inv, Asked;
    if !Unpaid(db, terms.actor, requestId) {
      PaidRow(db, terms, requestId, answer, next);
    } else if Clear(db, terms) {
      FreshRow(db, terms, requestId, answer, next);
    } else {
      BlockedRow(db, terms, requestId, answer, next);
    }
  }

  lemma AnsweredFirst(db: Db, terms: Terms, requestId: string, answer: BeginAnswer, next: Db, r: SpendResult)
    requires Inv(db) && Asked(db, terms, requestId, answer, next)
    requires answer.OneRow? ==> !answer.row.recoveryDue
    requires ReadsAnswer(answer, terms, requestId, r)
    ensures Outcome(db, terms, requestId, r, next)
  {
    hide Inv, Asked, Outcome, Reads;
    if answer.OneRow? {
      AnsweredDirectly(db, terms, requestId, answer, next, r);
    } else {
      AnsweredRefused(db, terms, requestId, answer, next);
    }
  }

  /** Somebody else returns the overdue attempt, or may not yet: the call is a conflict. */
  lemma AnsweredBusy(
    db: Db, terms: Terms, requestId: string, answer: BeginAnswer, next: Db, expired: ExpiredResult)
    requires Inv(db) && Asked(db, terms, requestId, answer, next) && answer.OneRow? && answer.row.recoveryDue
    requires expired.ExpiredBusy? || expired.ExpiredNotDue?
    requires ExpiredOutcome(next, answer.row.stored.terms.actor, answer.row.attempt, answer.row.leaseOwner,
                            expired, next)
    ensures Outcome(db, terms, requestId, SpendConflict, next)
  {
    hide Inv, Asked;
    if !Unpaid(db, terms.actor, requestId) {
      PaidRow(db, terms, requestId, answer, next);
    } else if Clear(db, terms) {
      FreshRow(db, terms, requestId, answer, next);
    } else {
      BlockedRow(db, terms, requestId, answer, next);
    }
  }
  /** What the return of c leaves of the facts that a begin decides on. */
  lemma Unblocked(db: Db, mid: Db, terms: Terms, requestId: string, c: nat)
    requires Overdue(db, c) && GivenBack(db, mid, c)
    ensures Unpaid(mid, terms.actor, requestId) <==> Unpaid(db, terms.actor, requestId)
    ensures forall a: nat :: PaidFor(mid, terms.actor, requestId, a) <==> PaidFor(db, terms.actor, requestId, a)
    ensures forall d: nat :: BlockedBy(mid, terms, d) <==> BlockedBy(db, terms, d) && d != c
    ensures BalanceOf(mid, terms.actor) == BalanceFreed(db, terms.actor, c)
    ensures c < |mid.attempts| == |db.attempts| && |mid.entries| == |db.entries| + 1 && mid.clock == db.clock
    ensures mid.attempts[c] == Ended(db.attempts[c], CreditReturned, DEADLINE_RESPONSE)
  {
    var n := |db.entries|;
    assert forall i :: 0 <= i < n ==> mid.entries[i] == db.entries[i];
    assert |mid.entries| == n + 1;
    forall a: nat | PaidFor(db, terms.actor, requestId, a) ensures PaidFor(mid, terms.actor, requestId, a) {
      var i :| 0 <= i < n && IsSpendBy(db.entries[i], terms.actor, requestId) && db.entries[i].attempt == Some(a);
      assert IsSpendBy(mid.entries[i], terms.actor, requestId);
    }
  }

  /** After the return the second begin statement decides. */
  lemma AnsweredAfterReturn(
    db: Db, mid: Db, terms: Terms, requestId: string, c: nat, answer: BeginAnswer, next: Db, r: SpendResult)
    requires Inv(db) && Inv(mid) && Overdue(db, c) && !LeaseAhead(db, c) && GivenBack(db, mid, c)
    requires PaidFor(db, terms.actor, requestId, c) || (Unpaid(db, terms.actor, requestId) && BlockedBy(db, terms, c))
    requires Asked(mid, terms, requestId, answer, next)
    requires ReadsAnswer(answer, terms, requestId, r)
    ensures Outcome(db, terms, requestId, r, next)
  {
    Unblocked(db, mid, terms, requestId, c);
    if PaidFor(db, terms.actor, requestId, c) {
      AfterOwnReturn(db, mid, terms, requestId, c, answer, next, r);
    } else {
      hide Inv, Asked, GivenBack, Overdue, LeaseAhead, PaidFor, Unpaid, BlockedBy;
      if Clear(mid, terms) {
        FreshRow(mid, terms, requestId, answer, next);
        assert Frees(db, terms, c);
      } else {
        BlockedRow(mid, terms, requestId, answer, next);
        var d :| BlockedBy(mid, terms, d);
        assert !Clear(db, terms) && forall e: nat :: !Frees(db, terms, e);
      }
    }
  }

  lemma AfterOwnReturn(
    db: Db, mid: Db, terms: Terms, requestId: string, c: nat, answer: BeginAnswer, next: Db, r: SpendResult)
    requires Inv(db) && Inv(mid) && Overdue(db, c) && !LeaseAhead(db, c) && GivenBack(db, mid, c)
    requires PaidFor(db, terms.actor, requestId, c) && Asked(mid, terms, requestId, answer, next)
    requires ReadsAnswer(answer, terms, requestId, r)
    ensures Outcome(db, terms, requestId, r, next)
  {
    hide Outcome, Asked, Inv;
    Unblocked(db, mid, terms, requestId, c);
    Returned(mid, terms, requestId, c, answer, next, r);
    hide GivenBack, PaidFor, Overdue, LeaseAhead, Reads;
    if r.SpendReturned? {
      NewEntry(db, mid, c, r.entry);
    }
    OwnOutcome(db, mid, terms, requestId, c, r);
  }

  lemma NewEntry(db: Db, mid: Db, c: nat, entry: nat)
    requires Inv(db) && Overdue(db, c) && GivenBack(db, mid, c)
    requires entry < |mid.entries| && mid.entries[entry].kind.Return? && mid.entries[entry].attempt == Some(c)
    ensures entry == |db.entries|
  {
    assert AttemptGood(db, c);
    hide Inv, AttemptGood;
    assert forall i :: 0 <= i < |db.entries| ==> mid.entries[i] == db.entries[i];
  }

  lemma OwnOutcome(db: Db, mid: Db, terms: Terms, requestId: string, c: nat, r: SpendResult)
    requires Overdue(db, c) && !LeaseAhead(db, c) && GivenBack(db, mid, c)
    requires PaidFor(db, terms.actor, requestId, c)
    requires r == if db.attempts[c].terms != terms then SpendConflict
                  else SpendReturned(c, |db.entries|, DEADLINE_RESPONSE)
    ensures Outcome(db, terms, requestId, r, mid)
  {
  }

  /** A request whose attempt has been returned is answered with that return. */
  lemma Returned(mid: Db, terms: Terms, requestId: string, c: nat, answer: BeginAnswer, next: Db, r: SpendResult)
    requires Inv(mid) && PaidFor(mid, terms.actor, requestId, c) && Asked(mid, terms, requestId, answer, next)
    requires c < |mid.attempts| && mid.attempts[c].status.CreditReturned?
    requires ReadsAnswer(answer, terms, requestId, r)
    ensures answer.OneRow? && next == mid
    ensures if mid.attempts[c].terms != terms then r == SpendConflict else
      && r.SpendReturned? && r.attempt == c && mid.attempts[c].response == Some(r.response)
      && r.entry < |mid.entries| && mid.entries[r.entry].kind.Return? && mid.entries[r.entry].attempt == Some(c)
  {
    var i :| 0 <= i < |mid.entries| && IsSpendBy(mid.entries[i], terms.actor, requestId);
    PaidRow(mid, terms, requestId, answer, next);
    hide Inv, Asked;
    assert answer.row.attempt == c;
  }

  /** The second statement's answer, when the deadline return did not stop the call. */
  lemma AnsweredAtLast(
    db: Db, terms: Terms, requestId: string, first: BeginAnswer, next: Db, expired: ExpiredResult, mid: Db,
    second: BeginAnswer, later: Db, r: SpendResult)
    requires Inv(db) && Inv(mid) && Asked(db, terms, requestId, first, next) && first.OneRow? && first.row.recoveryDue
    requires expired.ExpiredReturned? || expired.ExpiredUnavailable?
    requires ExpiredOutcome(next, first.row.stored.terms.actor, first.row.attempt, first.row.leaseOwner, expired, mid)
    requires Asked(mid, terms, requestId, second, later)
    requires ReadsAnswer(second, terms, requestId, r)
    ensures Outcome(db, terms, requestId, r, later) && (second.OneRow? || second.InsufficientCredit?)
  {
    hide Inv, Asked, GivenBack, Outcome;
    if !Unpaid(db, terms.actor, requestId) {
      PaidRow(db, terms, requestId, first, next);
      AnsweredAfterReturn(db, mid, terms, requestId, first.row.attempt, second, later, r);
    } else if Clear(db, terms) {
      FreshRow(db, terms, requestId, first, next);
    } else {
      BlockedRow(db, terms, requestId, first, next);
      if expired.ExpiredReturned? {
        AnsweredAfterReturn(db, mid, terms, requestId, first.row.attempt, second, later, r);
      } else {
        BlockedRow(db, terms, requestId, second, later);
        StillBlocked(db, terms, requestId, first.row.attempt, later);
      }
    }
    if !second.OneRow? {
      AnsweredRefused(mid, terms, requestId, second, later);
    }
  }

  lemma NeverRefused(db: Db, actor: nat, a: nat, given: Option<nat>, r: ExpiredResult, later: Db)
    requires ExpiredOutcome(db, actor, a, given, r, later)
    ensures !r.ExpiredRefused? && (r.ExpiredBusy? || r.ExpiredNotDue? ==> later == db)
  {
  }

  /** Where the lease can be taken the answer is ready. */
  lemma StartableIsReady(db: Db, terms: Terms, requestId: string, r: SpendResult, later: Db)
    requires Inv(db) && Startable(db, terms, requestId) && Outcome(db, terms, requestId, r, later)
    ensures r.SpendReady?
  {
    if a: nat, spend: nat :| Pays(db, terms, requestId, a, spend) && Leasable(db.attempts[a], terms.actor, db.clock) {
      assert Unique(db.entries);
      assert PaidFor(db, terms.actor, requestId, a);
      assert forall j :: 0 <= j < |db.entries| && IsSpendBy(db.entries[j], terms.actor, requestId) ==> j == spend;
      hide GivenBack, GivesBack;
    } else {
      assert forall c: nat :: !BlockedBy(db, terms, c);
    }
  }

  lemma StartableAnswered(decided: Option<Db>, was: Db, terms: Terms, requestId: string, r: SpendResult, later: Db)
    requires decided.Some? ==> Inv(decided.value) && Outcome(decided.value, terms, requestId, r, later)
    ensures decided == Some(was) && Startable(was, terms, requestId) ==> r.SpendReady?
  {
    if decided == Some(was) && Startable(was, terms, requestId) {
      StartableIsReady(was, terms, requestId, r, later);
    }
  }

  lemma StillBlocked(db: Db, terms: Terms, requestId: string, c: nat, later: Db)
    requires Unpaid(db, terms.actor, requestId) && BlockedBy(db, terms, c) && !Overdue(db, c)
    ensures Outcome(db, terms, requestId, SpendConflict, later)
  {
  }



  class City {
    var clock: int
    var attempts: seq<Attempt>
    var entries: seq<Entry>
    var balances: map<nat, int>
    var owners: set<nat>
    /** Earlier versions, which snapshots may still show. */
    var past: seq<Db>
    var turns: seq<Turn>
    /** Fees that this worker's own begins have charged. */
    ghost var paid: nat

    function State(): Db
      reads this
    {
      Db(clock, attempts, entries, balances, owners)
    }

    function Log(): History
      reads this
    {
      past + [State()]
    }

    function Next(): Turn
      reads this
    {
      Upcoming(Log(), turns)
    }

    ghost predicate Valid()
      reads this
    {
      Good(Log())
    }

    constructor (schedule: seq<Turn>)
      ensures Valid() && State() == EMPTY && turns == schedule && paid == 0
    {
      clock, attempts, entries, balances, owners, past, turns := 0, [], [], map[], {}, [], schedule;
      paid := 0;
      new;
      EmptyGood();
      assert Log() == [EMPTY];
    }

    method Become(next: Db)
      modifies this`clock, this`attempts, this`entries, this`balances, this`owners, this`past
      ensures Log() == old(Log()) + [next]
    {
      past := Log();
      clock, attempts, entries, balances, owners := next.clock, next.attempts, next.entries, next.balances, next.owners;
    }

    /** The other workers take their turn. */
    method Others() returns (snapshot: nat)
      requires Valid()
      modifies this
      ensures Valid() && paid == old(paid) && turns == if old(turns) == [] then [] else old(turns)[1..]
      ensures Log() == Run(old(Log()), old(Next()).ops)
      ensures old(Log()) <= Log() && Evolves(old(State()), State())
      ensures old(owners) <= owners && old(entries) <= entries
      ensures snapshot == old(Next()).snapshot
    {
      hide Good, Apply, Evolves;
      var turn := Next();
      if turns != [] {
        turns := turns[1..];
      }
      snapshot := turn.snapshot;
      RunGood(Log(), turn.ops);
      ghost var all := Run(Log(), turn.ops);
      var k := 0;
      while k < |turn.ops|
        invariant 0 <= k <= |turn.ops|
        invariant Run(Log(), turn.ops[k..]) == all
        invariant paid == old(paid) && turns == if old(turns) == [] then [] else old(turns)[1..]
      {
        assert turn.ops[k..][1..] == turn.ops[k + 1..];
        Become(Apply(Log(), turn.ops[k]));
        k := k + 1;
      }
      LogEvolves(old(Log()), Log());
    }

    // ----- the begin statement

    /** One execution of the begin statement, under the lease owner it minted. */
    method ExecuteBeginSpend(terms: Terms, requestId: string, snapshot: nat) returns (answer: BeginAnswer, owner: nat)
      requires Valid()
      modifies this`attempts, this`entries, this`balances, this`owners, this`past, this`paid
      ensures Valid() && owner !in old(owners)
      ensures answer == BeginAnswered(Snapshot(old(Log()), snapshot), old(State()), terms, requestId, owner)
      ensures Log() == old(Log()) + [BeginDb(Snapshot(old(Log()), snapshot), old(State()), terms, requestId, owner)]
      ensures answer.OneRow? && SameTerms(answer.row, terms, requestId) ==>
        Truthful(State(), terms, requestId, answer.row)
      ensures paid == old(paid) + |entries| - |old(entries)| && old(paid) <= paid <= old(paid) + 1
      ensures answer.OneRow? && answer.row.leaseOwner.Some? ==> answer.row.leaseOwner == Some(owner)
      ensures old(Log()) <= Log() && old(owners) <= owners
      ensures paid > old(paid) ==> answer == OneRow(NewRow(old(State()), terms, requestId, owner))
    {
      hide Good, Inv, Truthful;
      owner := Mint();
      var snap := Snapshot(Log(), snapshot);
      var was := State();
      BeginTruthful(Log(), snapshot, terms, requestId, owner);
      GoodNext(Log(), Begin(snapshot, terms, requestId, owner));
      var candidate := Candidate(snap, terms, requestId);
      if candidate.Some? {
        var c := candidate.value;
        var leased := Leases(snap, was, terms, c);
        if leased {
          attempts := attempts[c := attempts[c].(leaseOwner := Some(owner), leaseExpires := Some(clock + LEASE_MS))];
          owners := owners + {owner};
        }
        answer := if c < |snap.attempts| then OneRow(ExistingRow(snap, terms, requestId, c, leased, owner)) else NoRow;
      } else if LiveOn(attempts, terms.operation, terms.target) {
        answer := NoRow;
      } else if FindSpend(entries, terms.actor, requestId).Some? {
        answer := UniqueViolation;
      } else if BalanceOf(was, terms.actor) < FEE {
        answer := InsufficientCredit;
      } else {
        answer := OneRow(NewRow(was, terms, requestId, owner));
        entries := entries + [SpendEntry(terms.actor, requestId, |attempts|)];
        attempts := attempts + [NewAttempt(clock, terms, owner)];
        balances := balances[terms.actor := BalanceOf(was, terms.actor) - FEE];
        owners := owners + {owner};
        paid := paid + 1;
      }
      past := past + [was];
    }

    method Mint() returns (owner: nat)
      ensures owner !in owners
    {
      SomeFresh(owners);
      owner :| owner !in owners;
    }

    /** The others take their turn, then the begin statement runs once. */
    method Ask(terms: Terms, requestId: string) returns (answer: BeginAnswer)
      requires Valid()
      modifies this
      ensures Valid() && old(Log()) <= Log() && old(owners) <= owners && old(paid) <= paid
      ensures turns == if old(turns) == [] then [] else old(turns)[1..]
      ensures answer.OneRow? && SameTerms(answer.row, terms, requestId) ==>
        Truthful(State(), terms, requestId, answer.row)
      ensures answer.OneRow? && answer.row.leaseOwner.Some? ==> answer.row.leaseOwner.value !in old(owners)
      ensures paid != old(paid) ==>
        && paid == old(paid) + 1 && answer.OneRow? && !answer.row.recoveryDue
        && SameTerms(answer.row, terms, requestId) && answer.row.state.BeganReady?
      ensures var h := Run(old(Log()), old(Next()).ops);
        var snap := Snapshot(h, old(Next()).snapshot);
        && Inv(Now(h)) && BusyWasLive(Log(), answer)
        && (snap == Now(h) ==> Asked(Now(h), terms, requestId, answer, State()))
        && (Lost(snap, Now(h), terms, requestId) ==> State() == Now(h))
        && (answer.NoRow? || answer.UniqueViolation? <==> Lost(snap, Now(h), terms, requestId))
        && (answer.UniqueViolation? <==> Violates(snap, Now(h), terms, requestId))
        && Log() == h + [State()]
    {
      hide Good, Evolves, Truthful, BeginAnswered, BeginDb, Run;
      var snapshot := Others();
      var owner;
      ghost var h := Log();
      LosesExactly(h, snapshot, terms, requestId);
      answer, owner := ExecuteBeginSpend(terms, requestId, snapshot);
      assert Log() == h + [State()] && State() == Log()[|h|];
      BusyLonger(h, Log(), answer);
      if Snapshot(h, snapshot) == Now(h) {
        AskedOnce(Now(h), terms, requestId, owner, answer, State());
      }
    }

    /**
     The first statement, run again when it lost to a winner that its snapshot did not show: once
     for a unique violation and once for no row. If nobody acts after it lost, the next decides.
     */
    method AskUntilSeen(terms: Terms, requestId: string) returns (answer: BeginAnswer)
      requires Valid()
      modifies this
      ensures Valid() && old(Log()) <= Log() && old(owners) <= owners && old(paid) <= paid
      ensures answer.OneRow? && SameTerms(answer.row, terms, requestId) ==>
        Truthful(State(), terms, requestId, answer.row)
      ensures answer.OneRow? && answer.row.leaseOwner.Some? ==> answer.row.leaseOwner.value !in old(owners)
      ensures paid != old(paid) ==>
        && paid == old(paid) + 1 && answer.OneRow? && !answer.row.recoveryDue
        && SameTerms(answer.row, terms, requestId) && answer.row.state.BeganReady?
      ensures BusyWasLive(Log(), answer)
      ensures var db := Decides(old(Log()), old(turns), terms, requestId);
        db.Some? ==> turns == [] && Inv(db.value) && Asked(db.value, terms, requestId, answer, State())
    {
      hide Good, Evolves, Run, Truthful, BeginAnswered, BeginDb, Inv, Asked, Lost, Violates, BusyWasLive, SameTerms;
      answer := Ask(terms, requestId);
      if answer.UniqueViolation? {
        answer := Ask(terms, requestId);
      }
      if answer.NoRow? {
        answer := Ask(terms, requestId);
      }
    }

    /**
     `beginCityCreditSpend`. Whatever the others do in between: a ready answer means that this
     call holds the attempt's lease and that one stored spend of these exact terms pays for it;
     a completed or returned answer replays the stored outcome; a busy one names an attempt that
     was alive; the call charges at most one fee, and only when it answers ready. When nobody
     acts after the statement that decides, the answer is the one that this state calls for.
     */
    method BeginCityCreditSpend(terms: Terms, requestId: string) returns (r: SpendResult)
      requires Valid()
      modifies this
      ensures Valid() && old(Log()) <= Log() && old(owners) <= owners
      ensures r.SpendConflict? || r.SpendRefused? || Honest(State(), terms, requestId, r)
      ensures r.SpendReady? ==> r.owner !in old(owners)
      ensures r.SpendBusy? ==> WasLive(Log(), r.attempt)
      ensures old(paid) <= paid <= old(paid) + 1 && (paid > old(paid) ==> r.SpendReady?)
      ensures var db := Decides(old(Log()), old(turns), terms, requestId);
        db.Some? ==> Outcome(db.value, terms, requestId, r, State())
      ensures old(turns) == [] ==> Decides(old(Log()), old(turns), terms, requestId) == Some(old(State()))
      ensures old(turns) == [] && Startable(old(State()), terms, requestId) ==> r.SpendReady?
    {
      hide Good, Evolves, Run, Truthful, Honest, Inv, Asked, Outcome, Decides, ExpiredOutcome, WasLive, BusyWasLive,
        SameTerms, Startable, ReadsAnswer, Snapshot, Upcoming, Lost, Violates, GivesBack, IsSpendFor;
      ghost var decided, was := Decides(Log(), turns, terms, requestId), State();
      UndisturbedDecides(Log(), turns, terms, requestId);
      var answer := AskUntilSeen(terms, requestId);
      ghost var first, next := answer, State();
      if !answer.OneRow? || !answer.row.recoveryDue {
        r := ReadAnswer(answer, terms, requestId);
        if decided.Some? {
          AnsweredFirst(decided.value, terms, requestId, answer, State(), r);
        }
        StartableAnswered(decided, was, terms, requestId, r, State());
        return;
      }
      var expired := ReturnExpiredCityCreditSpend(
        answer.row.stored.terms.actor, answer.row.attempt, answer.row.leaseOwner);
      ghost var mid := State();
      if decided.Some? {
        NeverRefused(next, answer.row.stored.terms.actor, answer.row.attempt, answer.row.leaseOwner, expired, mid);
      }
      if expired.ExpiredRefused? { return SpendRefused; }
      if expired.ExpiredBusy? || expired.ExpiredNotDue? {
        if decided.Some? {
          AnsweredBusy(decided.value, terms, requestId, first, mid, expired);
        }
        r := SpendConflict;
        StartableAnswered(decided, was, terms, requestId, r, State());
        return;
      }
      QuietTurn(Log(), turns);
      answer := Ask(terms, requestId);
      r := ReadAnswer(answer, terms, requestId);
      if decided.Some? {
        AnsweredAtLast(decided.value, terms, requestId, first, next, expired, mid, answer, State(), r);
      }
      StartableAnswered(decided, was, terms, requestId, r, State());
    }

    /** The end of `beginCityCreditSpend`: what the rows of its last statement are answered with. */
    method ReadAnswer(answer: BeginAnswer, terms: Terms, requestId: string) returns (r: SpendResult)
      requires answer.OneRow? && SameTerms(answer.row, terms, requestId) ==>
        Truthful(State(), terms, requestId, answer.row)
      requires BusyWasLive(Log(), answer)
      ensures ReadsAnswer(answer, terms, requestId, r)
      ensures r.SpendConflict? || r.SpendRefused? || Honest(State(), terms, requestId, r)
      ensures r.SpendBusy? ==> WasLive(Log(), r.attempt)
      ensures r.SpendReady? <==>
        answer.OneRow? && SameTerms(answer.row, terms, requestId) && answer.row.state.BeganReady?
      ensures r.SpendReady? ==> answer.row.leaseOwner == Some(r.owner)
    {
      hide Truthful, Honest, WasLive;
      if answer.UniqueViolation? || answer.InsufficientCredit? { return SpendRefused; }
      if answer.NoRow? { return SpendConflict; }
      var row := answer.row;
      if !SameTerms(row, terms, requestId) { return SpendConflict; }
      RowIsHonest(State(), terms, requestId, row);
      match row.state {
        case BeganCompleted => r := SpendCompleted(row.attempt, row.stored.response.value);
        case BeganBusy => r := SpendBusy(row.attempt);
        case BeganReturned => r := SpendReturned(row.attempt, row.returned.value, row.stored.response.value);
        case BeganReady => r := SpendReady(row.attempt, row.spend.value, row.leaseOwner.value);
      }
    }

    // ----- completion

    /**
     `completeCityCreditAttempt` succeeds exactly when the owner holds the lease of a pending
     attempt whose deadline is ahead, at the moment of its statement.
     */
    method CompleteCityCreditAttempt(actor: nat, attempt: nat, owner: nat, response: Response) returns (ok: bool)
      requires Valid()
      modifies this
      ensures Valid() && paid == old(paid)
      ensures var before := Now(Run(old(Log()), old(Next()).ops));
        && (ok <==> LeasedBy(before, actor, attempt, owner) && !Overdue(before, attempt))
        && State() == CompleteDb(before, actor, attempt, owner, response)
        && (ok ==>
             && |attempts| == |before.attempts|
             && (forall i :: 0 <= i < |attempts| && i != attempt ==> attempts[i] == before.attempts[i])
             && attempts[attempt].status.Completed? && attempts[attempt].response == Some(response)
             && attempts[attempt].terms == before.attempts[attempt].terms
             && attempts[attempt].deadline == before.attempts[attempt].deadline)
    {
      hide Good, Evolves;
      var _ := Others();
      GoodInv(Log());
      LeasersExactly(State(), actor, attempt, owner);
      ok := CanComplete(State(), actor, attempt, owner);
      GoodNext(Log(), Complete(actor, attempt, owner, response));
      if ok {
        past := past + [State()];
        attempts := attempts[attempt :=
          attempts[attempt].(status := Completed, leaseOwner := None, leaseExpires := None,
            response := Some(response))];
      }
    }

    // ----- returns

    /**
     `returnCityCreditSpend` succeeds exactly when its first statement may return the spend, or
     finds it returned with the same reason and response. Its second statement then always
     finds the stored return, whatever happened in between.
     */
    method ReturnCityCreditSpend(actor: nat, attempt: nat, owner: nat, response: Response) returns (r: ReturnResult)
      requires Valid()
      modifies this
      ensures Valid() && old(Log()) <= Log() && old(owners) <= owners && paid == old(paid)
      ensures var before := Now(Run(old(Log()), old(Next()).ops));
        var may := 400 <= response.status <= 599
          && (LeasedBy(before, actor, attempt, owner)
              || (Owns(before, actor, attempt) && before.attempts[attempt].status.CreditReturned?
                  && before.attempts[attempt].response == Some(response)));
        && (r.Returned? <==> may)
        && (r.Returned? ==> (r.created <==> LeasedBy(before, actor, attempt, owner)))
        && (r.Returned? && r.created ==>
             && r.entry == |before.entries| < |entries|
             && entries[r.entry] == Entry(actor, Return, 1_000_000, None, None, Some(attempt), Some(r.spend), None,
                                          Some(response.reason)))
      ensures r.Returned? ==>
        && attempt < |attempts| && attempts[attempt].terms.actor == actor
        && attempts[attempt].response == Some(response)
        && r.spend < |entries| && IsSpendFor(entries[r.spend], attempt)
        && GivesBack(State(), attempt, r.spend, r.entry)
      ensures old(turns) == [] ==>
        && turns == []
        && State() == if 400 <= response.status <= 599
                      then ReturnDb(old(State()), actor, attempt, owner, response) else old(State())
    {
      hide Good, Evolves, GivesBack;
      if response.status < 400 || response.status > 599 { return ReturnRefused; }
      NothingRun(Log());
      var _ := Others();
      GoodInv(Log());
      LeasersExactly(State(), actor, attempt, owner);
      ghost var asked := State();
      var created := ReturnStatement(actor, attempt, owner, response);
      if created.None? { return ReturnRefused; }
      ghost var settled := State();
      NothingRun(Log());
      var _ := Others();
      ReturnLasts(settled, State(), actor, attempt, response);
      var spend, entry := ReadReturn(attempt);
      if created.value {
        GoodInv(Log());
        ReadBack(State(), attempt, spend, entry);
        NewReturn(asked, State(), actor, attempt, owner, response, spend, entry);
      }
      r := Returned(created.value, spend, entry);
    }

    /** The return statement: none when the database refuses it, otherwise whether it posted a return. */
    method ReturnStatement(actor: nat, attempt: nat, owner: nat, response: Response) returns (created: Option<bool>)
      requires Valid()
      modifies this`attempts, this`entries, this`balances, this`past
      ensures Valid() && old(Log()) <= Log()
      ensures State() == ReturnDb(old(State()), actor, attempt, owner, response)
      ensures created == (if CanReturn(old(State()), actor, attempt, owner) then Some(true)
                          else if ReturnedAlready(old(State()), actor, attempt, response) then Some(false) else None)
      ensures created.Some? ==> ReturnedAlready(State(), actor, attempt, response)
    {
      hide Good;
      var was := State();
      GoodNext(Log(), Give(actor, attempt, owner, response));
      if CanReturn(was, actor, attempt, owner) {
        var spend := FindSpendFor(entries, attempt).value;
        var resident := entries[spend].resident;
        attempts := attempts[attempt :=
          attempts[attempt].(status := CreditReturned, leaseOwner := None, leaseExpires := None,
            response := Some(response))];
        entries := entries + [ReturnEntry(resident, attempt, spend, response.reason)];
        balances := balances[resident := BalanceOf(was, resident) + FEE];
        past := past + [was];
        created := Some(true);
      } else {
        created := if ReturnedAlready(was, actor, attempt, response) then Some(false) else None;
      }
    }

    /** The read that follows a return: its spend and its return entry. */
    method ReadReturn(attempt: nat) returns (spend: nat, entry: nat)
      requires Valid()
      requires attempt < |attempts| && attempts[attempt].rail.ByCredit? && attempts[attempt].status.CreditReturned?
      ensures spend < |entries| && IsSpendFor(entries[spend], attempt) && GivesBack(State(), attempt, spend, entry)
    {
      assert Inv(Now(Log()));
      assert AttemptGood(State(), attempt);
      spend := FindSpendFor(entries, attempt).value;
      ReturnFound(State(), attempt, spend);
      entry := FindReturnOf(entries, spend).value;
    }

    /** The claim statement: retakes the lease of an attempt past its deadline. */
    method ClaimStatement(actor: nat, attempt: nat, owner: nat) returns (state: ClaimState)
      requires Valid()
      modifies this`attempts, this`owners, this`past
      ensures Valid() && old(Log()) <= Log() && old(owners) <= owners
      ensures state == ClaimAnswered(old(State()), actor, attempt, owner)
      ensures State() == ClaimDb(old(State()), actor, attempt, owner)
      ensures state.ClaimReady? ==>
        && attempt < |old(attempts)| == |attempts|
        && !Ahead(old(attempts)[attempt].deadline, clock)
        && (old(attempts)[attempt].leaseOwner == Some(owner) || !Ahead(old(attempts)[attempt].leaseExpires, clock))
        && attempts[attempt].leaseOwner == Some(owner) && attempts[attempt].leaseExpires == Some(clock + LEASE_MS)
        && attempts[attempt].status == old(attempts)[attempt].status
      ensures !state.ClaimReady? ==> State() == old(State())
    {
      hide Good;
      GoodNext(Log(), Claim(actor, attempt, owner));
      state := ClaimAnswered(State(), actor, attempt, owner);
      if state.ClaimReady? {
        past := past + [State()];
        attempts := attempts[attempt :=
          attempts[attempt].(leaseOwner := Some(owner), leaseExpires := Some(clock + LEASE_MS))];
        owners := owners + {owner};
      }
    }

    /**
     `returnExpiredCityCreditSpend`: an answer of "returned" means the fee is back, "not due"
     that the deadline was still ahead and "busy" that another worker's lease had not run out.
     */
    method ReturnExpiredCityCreditSpend(actor: nat, attempt: nat, leaseOwner: Option<nat>) returns (r: ExpiredResult)
      requires Valid()
      modifies this
      ensures Valid() && old(Log()) <= Log() && old(owners) <= owners && paid == old(paid)
      ensures r.ExpiredReturned? ==>
        && attempt < |attempts| && attempts[attempt].terms.actor == actor
        && r.spend < |entries| && IsSpendFor(entries[r.spend], attempt)
        && GivesBack(State(), attempt, r.spend, r.entry)
      ensures var before := Now(Run(old(Log()), old(Next()).ops));
        && (r.ExpiredNotDue? <==> Owns(before, actor, attempt) && Pending(before, attempt) && !Overdue(before, attempt))
        && (r.ExpiredBusy? <==>
             Owns(before, actor, attempt) && Overdue(before, attempt) && Blocked(before, attempt, leaseOwner))
        && (r.ExpiredUnavailable? <==> !Owns(before, actor, attempt) || before.attempts[attempt].status.Completed?)
        && (r.ExpiredRefused? ==> Overdue(before, attempt) && old(turns) != [])
      ensures old(turns) == [] ==>
        turns == [] && ExpiredOutcome(old(State()), actor, attempt, leaseOwner, r, State())
    {
      hide Good, Inv, Evolves, GivesBack, Run, ClaimAnswered, ClaimDb, ReturnDb, IsSpendFor, CanReturn, ReturnedAlready,
        Owns, Pending, Overdue, Blocked, GivenBack, ExpiredOutcome, Snapshot, Upcoming;
      ghost var quiet := turns == [];
      QuietTurn(Log(), turns);
      var _ := Others();
      var owner: nat;
      if leaseOwner.Some? {
        owner := leaseOwner.value;
      } else {
        owner := Mint();
      }
      ghost var before := State();
      ClaimCases(Log(), actor, attempt, leaseOwner, owner);
      var state := ClaimStatement(actor, attempt, owner);
      match state {
        case ClaimUnavailable =>
          r := ExpiredUnavailable;
          ExpiredSimply(before, actor, attempt, leaseOwner, r);
        case ClaimBusy =>
          r := ExpiredBusy;
          ExpiredSimply(before, actor, attempt, leaseOwner, r);
        case ClaimNotDue =>
          r := ExpiredNotDue;
          ExpiredSimply(before, actor, attempt, leaseOwner, r);
        case ClaimReturned =>
          QuietTurn(Log(), turns);
          var _ := Others();
          EndedStays(before, State(), attempt);
          var spend, entry := ReadReturn(attempt);
          r := ExpiredReturned(spend, entry);
          if quiet {
            ExpiredBefore(before, actor, attempt, leaseOwner, spend, entry);
          }
        case ClaimReady =>
          r := ReturnClaimed(actor, attempt, owner, leaseOwner, before);
      }
    }

    /** The return that follows a claim of `before`. */
    method ReturnClaimed(actor: nat, attempt: nat, owner: nat, ghost given: Option<nat>, ghost before: Db)
      returns (r: ExpiredResult)
      requires Valid() && Inv(before) && State() == ClaimDb(before, actor, attempt, owner)
      requires ClaimAnswered(before, actor, attempt, owner).ClaimReady?
      requires Owns(before, actor, attempt) && Overdue(before, attempt) && !Blocked(before, attempt, given)
      modifies this
      ensures Valid() && old(Log()) <= Log() && old(owners) <= owners && paid == old(paid)
      ensures r.ExpiredReturned? || r.ExpiredRefused?
      ensures r.ExpiredReturned? ==>
        && attempt < |attempts| && attempts[attempt].terms.actor == actor
        && r.spend < |entries| && IsSpendFor(entries[r.spend], attempt)
        && GivesBack(State(), attempt, r.spend, r.entry)
      ensures old(turns) == [] ==>
        turns == [] && r.ExpiredReturned? && ExpiredOutcome(before, actor, attempt, given, r, State())
    {
      hide Good, Inv, Evolves, GivesBack, Run, ClaimAnswered, ClaimDb, ReturnDb, IsSpendFor, CanReturn, ReturnedAlready,
        Owns, Overdue, Blocked, GivenBack, ExpiredOutcome, Snapshot, Upcoming;
      ghost var quiet := turns == [];
      DeadlineReturns(before, actor, attempt, owner);
      QuietTurn(Log(), turns);
      var returned := ReturnCityCreditSpend(actor, attempt, owner, DEADLINE_RESPONSE);
      r := if returned.ReturnRefused? then ExpiredRefused else ExpiredReturned(returned.spend, returned.entry);
      if quiet {
        ReturnedNow(before, actor, attempt, owner, given, returned.spend, returned.entry);
      }
    }

    // ----- issue

    /**
     `issueCityFeeCredit`: an answer names the one ledger entry with this source key, which has
     these terms; the balance it reports is the signed sum of the resident's entries. Whether it
     answers depends on the state that its first statement meets: a new key of a known resident is
     issued, a stored one is answered if its terms are these and refused otherwise.
     */
    method IssueCityFeeCredit(residents: set<nat>, resident: nat, sourceKey: string, reason: string)
      returns (r: IssueResult)
      requires Valid()
      modifies this
      ensures Valid() && old(Log()) <= Log() && paid == old(paid)
      ensures r.Issued? ==>
        && r.entry < |entries|
        && entries[r.entry] == Entry(resident, FounderIssue, 1_000_000, None, None, None, None,
                                     Some(sourceKey), Some(reason))
        && (forall i :: 0 <= i < |entries| && HasKey(entries[i], sourceKey) ==> i == r.entry)
        && r.balance == Balance(entries, resident) && r.balance >= 0
      ensures var before := Now(Run(old(Log()), old(Next()).ops));
        IssueOutcome(before.entries, resident in residents, resident, sourceKey, reason, r)
      ensures old(turns) == [] && NoKey(old(entries), sourceKey) && resident !in residents ==> r == IssueConflict
    {
      hide Good, Inv, Evolves, Balance, FindKey, Run, Snapshot, Upcoming, IssueOutcome, NoKey, OneOfKey, HasKey;
      QuietTurn(Log(), turns);
      var snapshot := Others();
      ghost var stored := entries;
      var found, created := IssueStatement(residents, resident, sourceKey, reason, snapshot);
      if found.None? {
        QuietTurn(Log(), turns);
        var _ := Others();
        KeyFound(entries, sourceKey);
        found := FindKey(entries, sourceKey);
      }
      KeyStays(stored, entries, sourceKey);
      OneKey(Log(), sourceKey);
      r := IssueConflict;
      if found.None? || entries[found.value] != IssueEntry(resident, sourceKey, reason) {
        IssueDecided(stored, entries, resident in residents, resident, sourceKey, reason, found, r);
        return;
      }
      var _ := Others();
      var balance := ReadBalance(found.value);
      OneKey(Log(), sourceKey);
      OnlyOne(entries, sourceKey, found.value);
      r := Issued(created, found.value, balance);
      IssueDecided(stored, entries, resident in residents, resident, sourceKey, reason, found, r);
    }

    /** The issue statement: it inserts a new key's entry, or shows the one that its snapshot has. */
    method IssueStatement(residents: set<nat>, resident: nat, sourceKey: string, reason: string, snapshot: nat)
      returns (found: Option<nat>, created: bool)
      requires Valid()
      modifies this`entries, this`balances, this`past
      ensures Valid() && old(Log()) <= Log() && old(entries) <= entries
      ensures created <==> resident in residents && NoKey(old(entries), sourceKey)
      ensures created ==>
        found == Some(|old(entries)|) && entries == old(entries) + [IssueEntry(resident, sourceKey, reason)]
      ensures !created ==> State() == old(State())
      ensures found.Some? ==> found.value < |entries| && HasKey(entries[found.value], sourceKey)
    {
      hide Good, Evolves, FindKey, Snapshot;
      SnapshotIsPrefix(Log(), snapshot);
      var snap := Snapshot(Log(), snapshot);
      KeyFound(entries, sourceKey);
      KeyFound(snap.entries, sourceKey);
      if resident in residents && FindKey(entries, sourceKey).None? {
        found, created := Some(|entries|), true;
        InsertEntry(IssueEntry(resident, sourceKey, reason));
      } else {
        found, created := FindKey(snap.entries, sourceKey), false;
      }
    }

    /** The balance of the resident that an entry belongs to: it is always there. */
    method ReadBalance(entry: nat) returns (balance: int)
      requires Valid() && entry < |entries|
      ensures balance == Balance(entries, entries[entry].resident) && balance >= 0
    {
      hide Good, Balance;
      BalanceTrue(Log(), entries[entry].resident);
      HasAccount(Log(), entry);
      balance := balances[entries[entry].resident];
    }

    /** The insert of an entry with a new source key; the trigger moves the balance. */
    method InsertEntry(e: Entry)
      requires Valid() && e.kind.FounderIssue? && e.sourceKey.Some? && NoKey(entries, e.sourceKey.value)
      requires e.units >= 0
      modifies this`entries, this`balances, this`past
      ensures Valid() && old(Log()) <= Log() && entries == old(entries) + [e]
      ensures State() == PostDb(old(State()), e)
    {
      hide Good, Balance;
      GoodNext(Log(), Enter(e));
      BalanceTrue(Log(), e.resident);
      var balance := BalanceOf(State(), e.resident);
      past := past + [State()];
      entries := entries + [e];
      balances := balances[e.resident := balance + e.units];
    }
  }
}
