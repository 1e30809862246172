/**
 The city fee credit protocol of src/city-credit.ts and src/city-credit-recovery.ts, with the
 database functions and triggers of db/schema.sql that it calls.

 Rows are state, each SQL statement is one step, and time is a step. A statement reads a
 snapshot, which may be any earlier state of the run, and writes to the current state under
 the tables' unique indexes; a statement nobody races with has the current state as snapshot.
 */
module CreditProtocol {
  import opened Common
  import opened CreditLedger

  const LEASE_MS := 30_000
  const RECOVERY_MS := 7_200_000

  datatype Rail = ByCredit | ByOther

  datatype Status = Settling | PaymentPending | NeedsReview | Completed | CreditReturned | Closed

  /** What a request is about: immutable once an attempt is stored. */
  datatype Terms = Terms(actor: nat, operation: string, target: string, request: string, asset: Option<(string, nat)>)

  datatype Response = Response(status: int, reason: string, body: string)

  datatype Attempt = Attempt(
    terms: Terms,
    rail: Rail,
    status: Status,
    leaseOwner: Option<nat>,
    leaseExpires: Option<int>,
    deadline: Option<int>,
    response: Option<Response>)

  /**
   Attempts are in creation order and named by their position; so are ledger entries. `owners`
   is a history variable: every lease owner id ever minted.
   */
  datatype Db = Db(
    clock: int,
    attempts: seq<Attempt>,
    entries: seq<Entry>,
    balances: map<nat, int>,
    owners: set<nat>)

  const EMPTY := Db(0, [], [], map[], {})

  // ----- tables

  predicate Live(status: Status) {
    status.Settling? || status.PaymentPending? || status.NeedsReview?
  }

  predicate Blocking(status: Status) {
    Live(status) || status.Completed?
  }

  predicate On(a: Attempt, operation: string, target: string) {
    a.terms.operation == operation && a.terms.target == target
  }

  predicate IsSpendBy(e: Entry, actor: nat, requestId: string) {
    e.kind.Spend? && e.resident == actor && e.requestId == Some(requestId)
  }

  function FindSpend(entries: seq<Entry>, actor: nat, requestId: string): (r: Option<nat>)
    ensures r.Some? ==> r.value < |entries| && IsSpendBy(entries[r.value], actor, requestId)
    ensures r.None? ==> forall i :: 0 <= i < |entries| ==> !IsSpendBy(entries[i], actor, requestId)
  {
    if entries == [] then None
    else
      var n := |entries| - 1;
      if IsSpendBy(entries[n], actor, requestId) then Some(n) else FindSpend(entries[..n], actor, requestId)
  }

  predicate IsSpendFor(e: Entry, attempt: nat) {
    e.kind.Spend? && e.attempt == Some(attempt)
  }

  function FindSpendFor(entries: seq<Entry>, attempt: nat): (r: Option<nat>)
    ensures r.Some? ==> r.value < |entries| && IsSpendFor(entries[r.value], attempt)
    ensures r.None? ==> forall i :: 0 <= i < |entries| ==> !IsSpendFor(entries[i], attempt)
  {
    if entries == [] then None
    else
      var n := |entries| - 1;
      if IsSpendFor(entries[n], attempt) then Some(n) else FindSpendFor(entries[..n], attempt)
  }

  predicate IsReturnOf(e: Entry, spend: nat) {
    e.kind.Return? && e.related == Some(spend)
  }

  function FindReturnOf(entries: seq<Entry>, spend: nat): (r: Option<nat>)
    ensures r.Some? ==> r.value < |entries| && IsReturnOf(entries[r.value], spend)
    ensures r.None? ==> forall i :: 0 <= i < |entries| ==> !IsReturnOf(entries[i], spend)
  {
    if entries == [] then None
    else
      var n := |entries| - 1;
      if IsReturnOf(entries[n], spend) then Some(n) else FindReturnOf(entries[..n], spend)
  }

  /** The newest blocking attempt on a target, by any method. */
  function FindBlocking(attempts: seq<Attempt>, operation: string, target: string): (r: Option<nat>)
    ensures r.Some? ==>
      r.value < |attempts| && On(attempts[r.value], operation, target) && Blocking(attempts[r.value].status)
    ensures r.None? ==>
      forall i :: 0 <= i < |attempts| ==> !(On(attempts[i], operation, target) && Blocking(attempts[i].status))
  {
    if attempts == [] then None
    else
      var n := |attempts| - 1;
      if On(attempts[n], operation, target) && Blocking(attempts[n].status) then Some(n)
      else FindBlocking(attempts[..n], operation, target)
  }

  predicate LiveOn(attempts: seq<Attempt>, operation: string, target: string) {
    exists i | 0 <= i < |attempts| :: On(attempts[i], operation, target) && Live(attempts[i].status)
  }

  function BalanceOf(db: Db, resident: nat): int {
    if resident in db.balances then db.balances[resident] else 0
  }

  /** Whether the balance trigger lets an entry in. */
  predicate Affordable(db: Db, e: Entry) {
    BalanceOf(db, e.resident) + Delta(e) >= 0
  }

  /** Appends an entry; the trigger moves the balance. */
  function Post(db: Db, e: Entry): Db {
    db.(entries := db.entries + [e], balances := db.balances[e.resident := BalanceOf(db, e.resident) + Delta(e)])
  }

  function SpendEntry(actor: nat, requestId: string, attempt: nat): Entry {
    Entry(actor, Spend, FEE, None, Some(requestId), Some(attempt), None, None, None)
  }

  function ReturnEntry(actor: nat, attempt: nat, spend: nat, reason: string): Entry {
    Entry(actor, Return, FEE, None, None, Some(attempt), Some(spend), None, Some(reason))
  }

  // ----- begin

  datatype BeginState = BeganCompleted | BeganReturned | BeganReady | BeganBusy

  datatype BeginRow = BeginRow(
    state: BeginState,
    attempt: nat,
    stored: Attempt,
    requestId: Option<string>,
    spend: Option<nat>,
    returned: Option<nat>,
    leaseOwner: Option<nat>,
    recoveryDue: bool)

  datatype BeginAnswer = NoRow | OneRow(row: BeginRow) | UniqueViolation | InsufficientCredit

  /** The lease condition of the update, on one version of the row. */
  predicate Leasable(a: Attempt, actor: nat, checkedAt: int) {
    && a.terms.actor == actor && a.rail.ByCredit? && a.status.PaymentPending?
    && a.deadline.Some? && a.deadline.value > checkedAt
    && (a.leaseExpires.None? || a.leaseExpires.value <= checkedAt)
  }

  function Candidate(snap: Db, terms: Terms, requestId: string): Option<nat> {
    var spend := FindSpend(snap.entries, terms.actor, requestId);
    if spend.Some? then snap.entries[spend.value].attempt
    else FindBlocking(snap.attempts, terms.operation, terms.target)
  }

  function NewAttempt(clock: int, terms: Terms, owner: nat): Attempt {
    Attempt(terms, ByCredit, PaymentPending, Some(owner), Some(clock + LEASE_MS), Some(clock + RECOVERY_MS), None)
  }

  function Released(a: Attempt, owner: nat, expires: int): Attempt {
    a.(leaseOwner := Some(owner), leaseExpires := Some(expires))
  }

  /** The insert arm: the unique indexes and the balance trigger see the current state. */
  predicate CanInsert(db: Db, terms: Terms, requestId: string) {
    && !LiveOn(db.attempts, terms.operation, terms.target)
    && FindSpend(db.entries, terms.actor, requestId).None?
    && BalanceOf(db, terms.actor) >= FEE
  }

  function Inserted(db: Db, terms: Terms, requestId: string, owner: nat): Db {
    Post(db.(attempts := db.attempts + [NewAttempt(db.clock, terms, owner)], owners := db.owners + {owner}),
         SpendEntry(terms.actor, requestId, |db.attempts|))
  }

  /** Whether the update arm leases attempt c: the row is checked in the snapshot and again when written. */
  predicate Leases(snap: Db, db: Db, terms: Terms, c: nat) {
    && c < |snap.attempts| && Leasable(snap.attempts[c], terms.actor, snap.clock)
    && c < |db.attempts| && Leasable(db.attempts[c], terms.actor, snap.clock)
  }

  function Leased(db: Db, c: nat, owner: nat): Db
    requires c < |db.attempts|
  {
    db.(attempts := db.attempts[c := Released(db.attempts[c], owner, db.clock + LEASE_MS)],
        owners := db.owners + {owner})
  }

  function BeginDb(snap: Db, db: Db, terms: Terms, requestId: string, owner: nat): Db {
    match Candidate(snap, terms, requestId)
    case Some(c) => if Leases(snap, db, terms, c) then Leased(db, c, owner) else db
    case None => if CanInsert(db, terms, requestId) then Inserted(db, terms, requestId, owner) else db
  }

  function ExistingRow(snap: Db, terms: Terms, requestId: string, c: nat, leased: bool, owner: nat): BeginRow
    requires c < |snap.attempts|
  {
    var a := snap.attempts[c];
    var mine := FindSpend(snap.entries, terms.actor, requestId);
    var spend := if mine.Some? then mine else FindSpendFor(snap.entries, c);
    var state :=
      if a.status.Completed? then BeganCompleted
      else if a.status.CreditReturned? then BeganReturned
      else if leased then BeganReady
      else BeganBusy;
    BeginRow(state, c, a,
             if spend.Some? then snap.entries[spend.value].requestId else None,
             spend,
             if spend.Some? then FindReturnOf(snap.entries, spend.value) else None,
             if leased then Some(owner) else None,
             (a.status.Settling? || a.status.PaymentPending?) && a.deadline.Some? && a.deadline.value <= snap.clock)
  }

  function NewRow(db: Db, terms: Terms, requestId: string, owner: nat): BeginRow {
    BeginRow(BeganReady, |db.attempts|, NewAttempt(db.clock, terms, owner), Some(requestId),
             Some(|db.entries|), None, Some(owner), false)
  }

  /** The rows that the begin statement returns, or the error that aborts it. */
  function BeginAnswered(snap: Db, db: Db, terms: Terms, requestId: string, owner: nat): BeginAnswer {
    match Candidate(snap, terms, requestId)
    case Some(c) =>
      if c < |snap.attempts|
        then OneRow(ExistingRow(snap, terms, requestId, c, Leases(snap, db, terms, c), owner)) else NoRow
    case None =>
      if LiveOn(db.attempts, terms.operation, terms.target) then NoRow
      else if FindSpend(db.entries, terms.actor, requestId).Some? then UniqueViolation
      else if BalanceOf(db, terms.actor) < FEE then InsufficientCredit
      else OneRow(NewRow(db, terms, requestId, owner))
  }

  // ----- complete, claim, return

  /** `complete_city_credit_attempt` for the attempt's own actor. */
  predicate CanComplete(db: Db, actor: nat, attempt: nat, owner: nat) {
    && attempt < |db.attempts|
    && var a := db.attempts[attempt];
       && a.terms.actor == actor && a.rail.ByCredit? && a.leaseOwner == Some(owner)
       && (a.status.Settling? || a.status.PaymentPending?)
       && a.deadline.Some? && a.deadline.value > db.clock
       && FindSpendFor(db.entries, attempt).Some?
  }

  function Ended(a: Attempt, status: Status, response: Response): Attempt {
    a.(status := status, leaseOwner := None, leaseExpires := None, response := Some(response))
  }

  function CompleteDb(db: Db, actor: nat, attempt: nat, owner: nat, response: Response): Db {
    if CanComplete(db, actor, attempt, owner)
    then db.(attempts := db.attempts[attempt := Ended(db.attempts[attempt], Completed, response)])
    else db
  }

  datatype ClaimState = ClaimReady | ClaimReturned | ClaimBusy | ClaimNotDue | ClaimUnavailable

  predicate Claimable(a: Attempt, actor: nat, owner: nat, clock: int) {
    && a.terms.actor == actor && a.rail.ByCredit?
    && (a.status.Settling? || a.status.PaymentPending?)
    && a.deadline.Some? && a.deadline.value <= clock
    && (a.leaseOwner == Some(owner) || a.leaseExpires.None? || a.leaseExpires.value <= clock)
  }

  predicate CanClaim(db: Db, actor: nat, attempt: nat, owner: nat) {
    attempt < |db.attempts| && Claimable(db.attempts[attempt], actor, owner, db.clock)
  }

  function ClaimDb(db: Db, actor: nat, attempt: nat, owner: nat): Db {
    if CanClaim(db, actor, attempt, owner) then Leased(db, attempt, owner) else db
  }

  function ClaimAnswered(db: Db, actor: nat, attempt: nat, owner: nat): ClaimState {
    if CanClaim(db, actor, attempt, owner) then ClaimReady
    else if attempt >= |db.attempts| then ClaimUnavailable
    else
      var a := db.attempts[attempt];
      if a.terms.actor != actor || !a.rail.ByCredit? then ClaimUnavailable
      else if a.status.CreditReturned? then ClaimReturned
      else if (a.status.Settling? || a.status.PaymentPending?) && a.deadline.Some? && a.deadline.value > db.clock
        then ClaimNotDue
      else if a.status.Settling? || a.status.PaymentPending? then ClaimBusy
      else ClaimUnavailable
  }

  /** `return_city_credit_spend` while the attempt is live. */
  predicate CanReturn(db: Db, actor: nat, attempt: nat, owner: nat) {
    && attempt < |db.attempts|
    && var a := db.attempts[attempt];
       && a.terms.actor == actor && a.rail.ByCredit? && a.leaseOwner == Some(owner)
       && (a.status.Settling? || a.status.PaymentPending?)
       && FindSpendFor(db.entries, attempt).Some?
  }

  /** The replay arm: already returned, with the same reason and response. */
  predicate ReturnedAlready(db: Db, actor: nat, attempt: nat, response: Response) {
    && attempt < |db.attempts|
    && var a := db.attempts[attempt];
       a.terms.actor == actor && a.rail.ByCredit? && a.status.CreditReturned? && a.response == Some(response)
  }

  function ReturnDb(db: Db, actor: nat, attempt: nat, owner: nat, response: Response): Db {
    if CanReturn(db, actor, attempt, owner) then
      var spend := FindSpendFor(db.entries, attempt).value;
      Post(db.(attempts := db.attempts[attempt := Ended(db.attempts[attempt], CreditReturned, response)]),
           ReturnEntry(db.entries[spend].resident, attempt, spend, response.reason))
    else db
  }

  // ----- other writers

  /** Ledger entries that other doors write: issues, purchases, gifts, corrections. */
  predicate OtherEntry(db: Db, e: Entry) {
    && !e.kind.Spend? && !e.kind.Return?
    && (e.sourceKey.Some? ==> forall i | 0 <= i < |db.entries| :: db.entries[i].sourceKey != e.sourceKey)
  }

  function PostDb(db: Db, e: Entry): Db {
    if OtherEntry(db, e) && Affordable(db, e) then Post(db, e) else db
  }

  /** Attempts that pay another way: started under the same unique index, moved among statuses. */
  function OpenOtherDb(db: Db, terms: Terms, status: Status): Db {
    if Live(status) && LiveOn(db.attempts, terms.operation, terms.target) then db
    else db.(attempts := db.attempts + [Attempt(terms, ByOther, status, None, None, None, None)])
  }

  function MoveOtherDb(db: Db, attempt: nat, moved: Attempt): Db {
    if attempt < |db.attempts| && db.attempts[attempt].rail.ByOther? && moved.rail.ByOther?
      && moved.terms == db.attempts[attempt].terms && moved.leaseOwner.None?
      && (Live(moved.status) ==> Live(db.attempts[attempt].status))
    then db.(attempts := db.attempts[attempt := moved])
    else db
  }

  // ----- runs

  datatype Op =
    | Tick(ms: nat)
    | Begin(snapshot: nat, terms: Terms, requestId: string, owner: nat)
    | Complete(actor: nat, attempt: nat, owner: nat, response: Response)
    | Claim(actor: nat, attempt: nat, owner: nat)
    | Give(actor: nat, attempt: nat, owner: nat, response: Response)
    | Enter(entry: Entry)
    | OpenOther(terms: Terms, status: Status)
    | MoveOther(attempt: nat, moved: Attempt)

  type History = h: seq<Db> | h != [] witness [EMPTY]

  function Now(h: History): Db {
    h[|h| - 1]
  }

  /** The state a statement's snapshot shows: an earlier one, or the current one. */
  function Snapshot(h: History, snapshot: nat): Db {
    if snapshot < |h| then h[snapshot] else Now(h)
  }

  /** A begin mints a new lease owner; a claim may also name one it was given before. */
  function Apply(h: History, op: Op): Db {
    var db := Now(h);
    match op
    case Tick(ms) => db.(clock := db.clock + ms)
    case Begin(snapshot, terms, requestId, owner) =>
      if owner in db.owners then db else BeginDb(Snapshot(h, snapshot), db, terms, requestId, owner)
    case Complete(actor, attempt, owner, response) => CompleteDb(db, actor, attempt, owner, response)
    case Claim(actor, attempt, owner) => ClaimDb(db, actor, attempt, owner)
    case Give(actor, attempt, owner, response) => ReturnDb(db, actor, attempt, owner, response)
    case Enter(entry) => PostDb(db, entry)
    case OpenOther(terms, status) => OpenOtherDb(db, terms, status)
    case MoveOther(attempt, moved) => MoveOtherDb(db, attempt, moved)
  }

  function Run(h: History, ops: seq<Op>): History
    decreases |ops|
  {
    if ops == [] then h else Run(h + [Apply(h, ops[0])], ops[1..])
  }

  // ----- the invariant

  ghost predicate SpendLinked(attempts: seq<Attempt>, e: Entry) {
    && e.units == FEE && e.requestId.Some?
    && e.attempt.Some? && e.attempt.value < |attempts|
    && attempts[e.attempt.value].rail.ByCredit?
    && attempts[e.attempt.value].terms.actor == e.resident
  }

  ghost predicate ReturnLinked(entries: seq<Entry>, i: nat)
    requires i < |entries|
  {
    var e := entries[i];
    && e.units == FEE && e.related.Some? && e.related.value < i
    && entries[e.related.value].kind.Spend?
    && entries[e.related.value].attempt == e.attempt
    && entries[e.related.value].resident == e.resident
  }

  ghost predicate Linked(attempts: seq<Attempt>, entries: seq<Entry>) {
    && (forall i :: 0 <= i < |entries| && entries[i].kind.Spend? ==> SpendLinked(attempts, entries[i]))
    && (forall i :: 0 <= i < |entries| && entries[i].kind.Return? ==> ReturnLinked(entries, i))
  }

  /** Two entries that the unique indexes let stand side by side. */
  predicate Compatible(a: Entry, b: Entry) {
    && (a.kind.Spend? && b.kind.Spend? ==>
         !(a.resident == b.resident && a.requestId == b.requestId) && a.attempt != b.attempt)
    && (a.kind.Return? && b.kind.Return? ==> a.related != b.related)
    && (a.sourceKey.Some? ==> a.sourceKey != b.sourceKey)
  }

  /** At most one spend per resident and request id, and per attempt; one return per spend; one entry per source key. */
  ghost predicate Unique(entries: seq<Entry>) {
    forall i, j :: 0 <= i < j < |entries| ==> Compatible(entries[i], entries[j])
  }

  ghost predicate HasReturn(entries: seq<Entry>, attempt: nat) {
    exists i :: 0 <= i < |entries| && entries[i].kind.Return? && entries[i].attempt == Some(attempt)
  }

  /** A credit attempt has its spend; it is pending under a lease, or ended without one. */
  ghost predicate AttemptGood(db: Db, a: nat)
    requires a < |db.attempts|
  {
    var attempt := db.attempts[a];
    && (attempt.leaseOwner.Some? ==> attempt.leaseOwner.value in db.owners)
    && (attempt.rail.ByOther? ==> attempt.leaseOwner.None?)
    && (attempt.rail.ByCredit? ==>
         && FindSpendFor(db.entries, a).Some?
         && attempt.deadline.Some?
         && (attempt.status.PaymentPending? || attempt.status.Completed? || attempt.status.CreditReturned?)
         && (attempt.status.PaymentPending? <==> attempt.leaseOwner.Some?)
         && (attempt.status.PaymentPending? <==> attempt.leaseExpires.Some?)
         && (attempt.status.PaymentPending? <==> attempt.response.None?)
         && (attempt.leaseExpires.Some? ==> attempt.leaseExpires.value <= db.clock + LEASE_MS)
         && (attempt.status.CreditReturned? <==> HasReturn(db.entries, a)))
  }

  ghost predicate OneLive(attempts: seq<Attempt>) {
    forall i, j :: 0 <= i < j < |attempts| && Live(attempts[i].status) && Live(attempts[j].status) ==>
      !On(attempts[j], attempts[i].terms.operation, attempts[i].terms.target)
  }

  /** The balances are the signed sums, and every resident with an entry has one. */
  ghost predicate Balanced(db: Db) {
    && (forall r: nat :: BalanceOf(db, r) == Balance(db.entries, r) && BalanceOf(db, r) >= 0)
    && (forall i :: 0 <= i < |db.entries| ==> db.entries[i].resident in db.balances)
  }

  ghost predicate Inv(db: Db) {
    && Linked(db.attempts, db.entries)
    && Unique(db.entries)
    && (forall a :: 0 <= a < |db.attempts| ==> AttemptGood(db, a))
    && OneLive(db.attempts)
    && Balanced(db)
  }

  // ----- each step keeps the invariant

  lemma {:induction false} SpendForKept(entries: seq<Entry>, e: Entry, attempt: nat)
    requires FindSpendFor(entries, attempt).Some?
    ensures FindSpendFor(entries + [e], attempt).Some?
  {
    var i := FindSpendFor(entries, attempt).value;
    assert IsSpendFor((entries + [e])[i], attempt);
  }

  lemma HasReturnKept(entries: seq<Entry>, e: Entry, attempt: nat)
    ensures HasReturn(entries + [e], attempt) <==>
      HasReturn(entries, attempt) || (e.kind.Return? && e.attempt == Some(attempt))
  {
    var longer := entries + [e];
    assert longer[|entries|] == e;
    if HasReturn(entries, attempt) {
      var i :| 0 <= i < |entries| && entries[i].kind.Return? && entries[i].attempt == Some(attempt);
      assert longer[i] == entries[i];
    }
    if HasReturn(longer, attempt) {
      var i :| 0 <= i < |longer| && longer[i].kind.Return? && longer[i].attempt == Some(attempt);
      assert i < |entries| ==> entries[i] == longer[i];
    }
  }

  lemma PostBalanced(db: Db, e: Entry)
    requires Balanced(db) && Affordable(db, e)
    ensures Balanced(Post(db, e))
  {
    forall r: nat
      ensures BalanceOf(Post(db, e), r) == Balance(Post(db, e).entries, r) && BalanceOf(Post(db, e), r) >= 0
    {
      BalanceOfNext(db.entries, e, r);
      assert BalanceOf(db, r) == Balance(db.entries, r);
    }
  }

  /** Changing a lease, an outcome or the clock leaves links and uniqueness alone. */
  lemma LinkedByTerms(before: seq<Attempt>, after: seq<Attempt>, entries: seq<Entry>)
    requires Linked(before, entries) && |before| <= |after|
    requires forall a :: 0 <= a < |before| ==> after[a].rail == before[a].rail && after[a].terms == before[a].terms
    ensures Linked(after, entries)
  {
    forall i | 0 <= i < |entries| && entries[i].kind.Spend? ensures SpendLinked(after, entries[i]) {
      assert SpendLinked(before, entries[i]);
    }
  }

  lemma LeasedInv(db: Db, c: nat, owner: nat)
    requires Inv(db) && c < |db.attempts| && db.attempts[c].rail.ByCredit? && db.attempts[c].status.PaymentPending?
    ensures Inv(Leased(db, c, owner))
  {
    var next := Leased(db, c, owner);
    LinkedByTerms(db.attempts, next.attempts, db.entries);
    forall a | 0 <= a < |next.attempts| ensures AttemptGood(next, a) {
      assert AttemptGood(db, a);
    }
    forall r: nat ensures BalanceOf(next, r) == Balance(next.entries, r) && BalanceOf(next, r) >= 0 {
      assert BalanceOf(db, r) == Balance(db.entries, r);
    }
    assert OneLive(next.attempts);
  }

  lemma EndedInv(db: Db, c: nat, response: Response)
    requires Inv(db) && c < |db.attempts| && db.attempts[c].rail.ByCredit? && db.attempts[c].status.PaymentPending?
    ensures Inv(db.(attempts := db.attempts[c := Ended(db.attempts[c], Completed, response)]))
  {
    var next := db.(attempts := db.attempts[c := Ended(db.attempts[c], Completed, response)]);
    LinkedByTerms(db.attempts, next.attempts, db.entries);
    assert AttemptGood(db, c);
    forall a | 0 <= a < |next.attempts| ensures AttemptGood(next, a) {
      assert AttemptGood(db, a);
    }
    forall r: nat ensures BalanceOf(next, r) == Balance(next.entries, r) && BalanceOf(next, r) >= 0 {
      assert BalanceOf(db, r) == Balance(db.entries, r);
    }
    assert OneLive(next.attempts);
  }

  lemma InsertedUnique(entries: seq<Entry>, e: Entry)
    requires Unique(entries)
    requires forall i :: 0 <= i < |entries| ==> Compatible(entries[i], e)
    ensures Unique(entries + [e])
  {
  }

  lemma InsertedLinked(attempts: seq<Attempt>, entries: seq<Entry>, e: Entry)
    requires Linked(attempts, entries)
    requires e.kind.Spend? ==> SpendLinked(attempts, e)
    requires e.kind.Return? ==> ReturnLinked(entries + [e], |entries|)
    ensures Linked(attempts, entries + [e])
  {
    var longer := entries + [e];
    forall i | 0 <= i < |longer| && longer[i].kind.Spend? ensures SpendLinked(attempts, longer[i]) {
      if i < |entries| {
        assert SpendLinked(attempts, entries[i]);
      }
    }
    forall i | 0 <= i < |longer| && longer[i].kind.Return? ensures ReturnLinked(longer, i) {
      if i < |entries| {
        assert ReturnLinked(entries, i);
        assert longer[entries[i].related.value] == entries[entries[i].related.value];
      }
    }
  }

  lemma InsertedInv(db: Db, terms: Terms, requestId: string, owner: nat)
    requires Inv(db) && CanInsert(db, terms, requestId)
    ensures Inv(Inserted(db, terms, requestId, owner))
  {
    var next := Inserted(db, terms, requestId, owner);
    var n := |db.attempts|;
    var e := SpendEntry(terms.actor, requestId, n);
    var started := db.(attempts := db.attempts + [NewAttempt(db.clock, terms, owner)], owners := db.owners + {owner});
    LinkedByTerms(db.attempts, next.attempts, db.entries);
    forall i | 0 <= i < |db.entries| ensures Compatible(db.entries[i], e) {
      assert db.entries[i].kind.Spend? ==> SpendLinked(db.attempts, db.entries[i]);
      assert !IsSpendBy(db.entries[i], terms.actor, requestId);
    }
    InsertedUnique(db.entries, e);
    InsertedLinked(next.attempts, db.entries, e);
    forall a | 0 <= a < |next.attempts| ensures AttemptGood(next, a) {
      HasReturnKept(db.entries, e, a);
      if a < n {
        assert AttemptGood(db, a);
        if db.attempts[a].rail.ByCredit? {
          SpendForKept(db.entries, e, a);
        }
      } else {
        assert IsSpendFor(next.entries[|db.entries|], n);
        NoReturnBeyond(db, n);
      }
    }
    assert Balanced(started) by {
      forall r: nat ensures BalanceOf(started, r) == Balance(started.entries, r) && BalanceOf(started, r) >= 0 {
        assert BalanceOf(db, r) == Balance(db.entries, r);
      }
    }
    PostBalanced(started, e);
    InsertedOneLive(db.attempts, next.attempts[n]);
  }

  lemma InsertedOneLive(attempts: seq<Attempt>, a: Attempt)
    requires OneLive(attempts) && (Live(a.status) ==> !LiveOn(attempts, a.terms.operation, a.terms.target))
    ensures OneLive(attempts + [a])
  {
  }

  lemma NoReturnBeyond(db: Db, n: nat)
    requires Linked(db.attempts, db.entries) && n >= |db.attempts|
    ensures !HasReturn(db.entries, n)
  {
    forall i | 0 <= i < |db.entries| && db.entries[i].kind.Return? ensures db.entries[i].attempt != Some(n) {
      assert ReturnLinked(db.entries, i);
    }
  }

  lemma ReturnDbInv(db: Db, actor: nat, attempt: nat, owner: nat, response: Response)
    requires Inv(db) && CanReturn(db, actor, attempt, owner)
    ensures Inv(ReturnDb(db, actor, attempt, owner, response))
  {
    var spend := FindSpendFor(db.entries, attempt).value;
    var e := ReturnEntry(db.entries[spend].resident, attempt, spend, response.reason);
    var ended := db.(attempts := db.attempts[attempt := Ended(db.attempts[attempt], CreditReturned, response)]);
    var next := ReturnDb(db, actor, attempt, owner, response);
    assert next == Post(ended, e);
    assert AttemptGood(db, attempt);
    LinkedByTerms(db.attempts, next.attempts, db.entries);
    assert ReturnLinked(next.entries, |db.entries|) by {
      assert next.entries[spend] == db.entries[spend];
    }
    forall i | 0 <= i < |db.entries| ensures Compatible(db.entries[i], e) {
      assert db.entries[i].kind.Return? ==> ReturnLinked(db.entries, i);
    }
    InsertedUnique(db.entries, e);
    InsertedLinked(next.attempts, db.entries, e);
    forall a | 0 <= a < |next.attempts| ensures AttemptGood(next, a) {
      assert AttemptGood(db, a);
      HasReturnKept(db.entries, e, a);
      if db.attempts[a].rail.ByCredit? {
        SpendForKept(db.entries, e, a);
      }
    }
    assert Balanced(ended) by {
      forall r: nat ensures BalanceOf(ended, r) == Balance(ended.entries, r) && BalanceOf(ended, r) >= 0 {
        assert BalanceOf(db, r) == Balance(db.entries, r);
      }
    }
    PostBalanced(ended, e);
    assert OneLive(next.attempts);
  }

  lemma PostDbInv(db: Db, e: Entry)
    requires Inv(db)
    ensures Inv(PostDb(db, e))
  {
    if OtherEntry(db, e) && Affordable(db, e) {
      var next := Post(db, e);
      forall i | 0 <= i < |db.entries| ensures Compatible(db.entries[i], e) {
      }
      InsertedUnique(db.entries, e);
      InsertedLinked(db.attempts, db.entries, e);
      forall a | 0 <= a < |next.attempts| ensures AttemptGood(next, a) {
        assert AttemptGood(db, a);
        HasReturnKept(db.entries, e, a);
        if db.attempts[a].rail.ByCredit? {
          SpendForKept(db.entries, e, a);
        }
      }
      PostBalanced(db, e);
    }
  }

  lemma OpenOtherInv(db: Db, terms: Terms, status: Status)
    requires Inv(db)
    ensures Inv(OpenOtherDb(db, terms, status))
  {
    var next := OpenOtherDb(db, terms, status);
    if next != db {
      LinkedByTerms(db.attempts, next.attempts, db.entries);
      forall a | 0 <= a < |next.attempts| ensures AttemptGood(next, a) {
        if a < |db.attempts| {
          assert AttemptGood(db, a);
        }
      }
      InsertedOneLive(db.attempts, Attempt(terms, ByOther, status, None, None, None, None));
      forall r: nat ensures BalanceOf(next, r) == Balance(next.entries, r) && BalanceOf(next, r) >= 0 {
        assert BalanceOf(db, r) == Balance(db.entries, r);
      }
    }
  }

  lemma MoveOtherInv(db: Db, attempt: nat, moved: Attempt)
    requires Inv(db)
    ensures Inv(MoveOtherDb(db, attempt, moved))
  {
    var next := MoveOtherDb(db, attempt, moved);
    if next != db {
      LinkedByTerms(db.attempts, next.attempts, db.entries);
      forall a | 0 <= a < |next.attempts| ensures AttemptGood(next, a) {
        assert AttemptGood(db, a);
      }
      assert OneLive(next.attempts);
      forall r: nat ensures BalanceOf(next, r) == Balance(next.entries, r) && BalanceOf(next, r) >= 0 {
        assert BalanceOf(db, r) == Balance(db.entries, r);
      }
    }
  }

  lemma TickInv(db: Db, ms: nat)
    requires Inv(db)
    ensures Inv(db.(clock := db.clock + ms))
  {
    var next := db.(clock := db.clock + ms);
    forall a | 0 <= a < |next.attempts| ensures AttemptGood(next, a) {
      assert AttemptGood(db, a);
    }
    forall r: nat ensures BalanceOf(next, r) == Balance(next.entries, r) && BalanceOf(next, r) >= 0 {
      assert BalanceOf(db, r) == Balance(db.entries, r);
    }
  }

  lemma ApplyInv(h: History, op: Op)
    requires Inv(Now(h))
    ensures Inv(Apply(h, op))
  {
    hide Inv;
    var db := Now(h);
    match op
    case Tick(ms) => TickInv(db, ms);
    case Begin(snapshot, terms, requestId, owner) =>
      var snap := Snapshot(h, snapshot);
      if owner !in db.owners {
        match Candidate(snap, terms, requestId)
        case Some(c) => if Leases(snap, db, terms, c) { LeasedInv(db, c, owner); }
        case None => if CanInsert(db, terms, requestId) { InsertedInv(db, terms, requestId, owner); }
      }
    case Complete(actor, attempt, owner, response) =>
      if CanComplete(db, actor, attempt, owner) {
        PendingWhenLive(db, attempt);
        EndedInv(db, attempt, response);
      }
    case Claim(actor, attempt, owner) =>
      if CanClaim(db, actor, attempt, owner) {
        PendingWhenLive(db, attempt);
        LeasedInv(db, attempt, owner);
      }
    case Give(actor, attempt, owner, response) =>
      if CanReturn(db, actor, attempt, owner) { ReturnDbInv(db, actor, attempt, owner, response); }
    case Enter(entry) => PostDbInv(db, entry);
    case OpenOther(terms, status) => OpenOtherInv(db, terms, status);
    case MoveOther(attempt, moved) => MoveOtherInv(db, attempt, moved);
  }

  lemma PendingWhenLive(db: Db, attempt: nat)
    requires Inv(db) && attempt < |db.attempts| && db.attempts[attempt].rail.ByCredit?
    requires Live(db.attempts[attempt].status)
    ensures db.attempts[attempt].status.PaymentPending?
  {
    assert AttemptGood(db, attempt);
  }

  // ----- what later states keep

  predicate Ending(status: Status) {
    status.Completed? || status.CreditReturned?
  }

  ghost predicate Evolves(a: Db, b: Db) {
    && a.clock <= b.clock && |a.attempts| <= |b.attempts| && a.entries <= b.entries && a.owners <= b.owners
    && (forall i :: 0 <= i < |a.attempts| ==>
         && b.attempts[i].terms == a.attempts[i].terms && b.attempts[i].rail == a.attempts[i].rail
         && (a.attempts[i].rail.ByCredit? ==> b.attempts[i].deadline == a.attempts[i].deadline)
         && (a.attempts[i].rail.ByCredit? && Ending(a.attempts[i].status) ==> b.attempts[i] == a.attempts[i]))
  }

  lemma EvolvesTransitive(a: Db, b: Db, c: Db)
    requires Evolves(a, b) && Evolves(b, c)
    ensures Evolves(a, c)
  {
  }

  lemma ApplyEvolves(h: History, op: Op)
    requires Inv(Now(h))
    ensures Evolves(Now(h), Apply(h, op))
  {
    hide Inv, Candidate, CanInsert, FindSpendFor, Affordable, OtherEntry, LiveOn, Delta, BalanceOf;
  }

  ghost predicate Good(h: History) {
    && (forall i :: 0 <= i < |h| ==> Inv(h[i]))
    && (forall i, j :: 0 <= i <= j < |h| ==> Evolves(h[i], h[j]))
  }

  lemma GoodNext(h: History, op: Op)
    requires Good(h)
    ensures Good(h + [Apply(h, op)])
  {
    hide Inv, Evolves, Apply;
    ApplyInv(h, op);
    ApplyEvolves(h, op);
    var next := h + [Apply(h, op)];
    EvolvesSelf(Apply(h, op));
    forall i, j | 0 <= i <= j < |next| ensures Evolves(next[i], next[j]) {
      if j == |h| && i < |h| {
        assert Evolves(h[i], Now(h));
        EvolvesTransitive(h[i], Now(h), next[j]);
      }
    }
  }

  lemma EvolvesSelf(db: Db)
    ensures Evolves(db, db)
  {
  }

  lemma {:induction false} RunGood(h: History, ops: seq<Op>)
    requires Good(h)
    ensures Good(Run(h, ops))
    ensures h <= Run(h, ops) && |Run(h, ops)| == |h| + |ops|
    decreases |ops|
  {
    hide Good, Apply;
    if ops != [] {
      GoodNext(h, ops[0]);
      RunGood(h + [Apply(h, ops[0])], ops[1..]);
    }
  }

  lemma EmptyGood()
    ensures Good([EMPTY])
  {
    EvolvesSelf(EMPTY);
    assert Inv(EMPTY);
  }
}
