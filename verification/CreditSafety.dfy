/** What holds over every run of the city fee credit protocol. */
module CreditSafety {
  import opened Common
  import opened CreditLedger
  import opened CreditProtocol

  // ----- lease fencing

  predicate Holds(db: Db, a: nat, owner: nat) {
    a < |db.attempts| && db.attempts[a].leaseOwner == Some(owner)
  }

  predicate PastDeadline(db: Db, a: nat) {
    a < |db.attempts| && db.attempts[a].deadline.Some? && db.attempts[a].deadline.value <= db.clock
  }

  /** An owner that was minted and no longer holds a, or holds it only after the deadline. */
  ghost predicate Fenced(db: Db, a: nat, owner: nat) {
    && a < |db.attempts| && db.attempts[a].rail.ByCredit? && owner in db.owners
    && (Holds(db, a, owner) ==> PastDeadline(db, a))
  }

  lemma FencedNext(h: History, op: Op, a: nat, owner: nat)
    requires Inv(Now(h)) && Fenced(Now(h), a, owner)
    ensures Fenced(Apply(h, op), a, owner)
  {
    ApplyEvolves(h, op);
    assert AttemptGood(Now(h), a);
  }

  lemma {:induction false} FencedLater(h: History, ops: seq<Op>, a: nat, owner: nat, k: nat)
    requires Good(h) && Fenced(Now(h), a, owner)
    requires |h| - 1 <= k < |Run(h, ops)|
    ensures Fenced(Run(h, ops)[k], a, owner)
    decreases |ops|
  {
    hide Good, Fenced, Apply;
    RunGood(h, ops);
    if ops != [] && |h| <= k {
      var next := h + [Apply(h, ops[0])];
      assert Inv(Now(h)) by { GoodHasInv(h); }
      FencedNext(h, ops[0], a, owner);
      GoodNext(h, ops[0]);
      FencedLater(next, ops[1..], a, owner, k);
    } else {
      assert Run(h, ops)[|h| - 1] == h[|h| - 1];
    }
  }

  lemma GoodHasInv(h: History)
    requires Good(h)
    ensures Inv(Now(h))
  {
  }

  lemma LostLeaseFenced(h: History, a: nat, owner: nat, i: nat)
    requires Good(h) && i < |h| && Holds(h[i], a, owner) && !Holds(Now(h), a, owner)
    ensures Fenced(Now(h), a, owner)
  {
    assert Inv(h[i]) && Evolves(h[i], Now(h));
    assert AttemptGood(h[i], a);
  }

  /**
   Fencing: once an owner that held an attempt's lease has lost it, no completion by that owner
   ever changes anything again, whatever the run does in between.
   */
  lemma LeaseFencing(h: History, after: seq<Op>, a: nat, owner: nat, i: nat, k: nat, actor: nat, response: Response)
    requires Good(h) && i < |h| && Holds(h[i], a, owner) && !Holds(Now(h), a, owner)
    requires |h| - 1 <= k < |Run(h, after)|
    ensures CompleteDb(Run(h, after)[k], actor, a, owner, response) == Run(h, after)[k]
  {
    LostLeaseFenced(h, a, owner, i);
    FencedLater(h, after, a, owner, k);
  }

  /**
   Once a state of the run shows an attempt past its deadline, no begin that reads this state or
   a later one ever changes the attempt's row, whatever happens in between.
   */
  lemma NoLeaseAfterDeadline(h: History, after: seq<Op>, a: nat, j: nat, begin: Op)
    requires Good(h) && j < |h| && PastDeadline(h[j], a) && h[j].attempts[a].rail.ByCredit?
    requires begin.Begin? && begin.snapshot >= j
    ensures var later := Run(h, after);
      a < |Now(later).attempts| && a < |Apply(later, begin).attempts|
      && Apply(later, begin).attempts[a] == Now(later).attempts[a]
  {
    RunGood(h, after);
    var later := Run(h, after);
    assert later[j] == h[j];
    var snap := Snapshot(later, begin.snapshot);
    assert Evolves(h[j], snap) && Evolves(h[j], Now(later));
    OverdueLater(h[j], snap, a);
    OverdueLater(h[j], Now(later), a);
    hide Good, Run, BeginDb;
    OverdueKept(snap, Now(later), begin.terms, begin.requestId, begin.owner, a);
  }

  lemma OverdueLater(db: Db, later: Db, a: nat)
    requires Evolves(db, later) && PastDeadline(db, a) && db.attempts[a].rail.ByCredit?
    ensures PastDeadline(later, a) && later.attempts[a].deadline == db.attempts[a].deadline
  {
  }

  lemma OverdueKept(snap: Db, db: Db, terms: Terms, requestId: string, owner: nat, a: nat)
    requires PastDeadline(snap, a) && a < |db.attempts| && db.attempts[a].deadline == snap.attempts[a].deadline
    ensures var next := BeginDb(snap, db, terms, requestId, owner);
      a < |next.attempts| && next.attempts[a] == db.attempts[a]
  {
  }

  /** A begin that leases attempt a although its deadline has passed: it read an earlier state. */
  predicate LateLease(h: History, op: Op, a: nat) {
    && op.Begin? && op.owner !in Now(h).owners && PastDeadline(Now(h), a)
    && Candidate(Snapshot(h, op.snapshot), op.terms, op.requestId) == Some(a)
    && Leases(Snapshot(h, op.snapshot), Now(h), op.terms, a)
  }

  /** A step that may take the lease or end the attempt: the recovery's own two statements. */
  predicate Recovers(op: Op, a: nat) {
    match op
    case Claim(_, attempt, _) => attempt == a
    case Give(_, attempt, _, _) => attempt == a
    case _ => false
  }

  /**
   Exactly when a step other than the recovery changes an overdue attempt's row: it is a begin
   whose snapshot still shows the deadline ahead and the lease free.
   */
  lemma LateLeaseExactly(h: History, op: Op, a: nat)
    requires Good(h) && PastDeadline(Now(h), a) && Now(h).attempts[a].rail.ByCredit? && !Recovers(op, a)
    ensures a < |Apply(h, op).attempts|
    ensures Apply(h, op).attempts[a] != Now(h).attempts[a] <==> LateLease(h, op, a)
    ensures LateLease(h, op, a) ==>
      && op.snapshot < |h| - 1 && !PastDeadline(h[op.snapshot], a)
      && Apply(h, op).attempts[a] == Released(Now(h).attempts[a], op.owner, Now(h).clock + LEASE_MS)
  {
    assert Inv(Now(h)) && AttemptGood(Now(h), a);
    if op.Begin? {
      assert Evolves(Snapshot(h, op.snapshot), Now(h));
      LateBegin(Snapshot(h, op.snapshot), Now(h), op, a);
    } else {
      hide Inv, Good, Candidate, Leases, CanInsert, FindSpendFor, OtherEntry, Affordable, LiveOn;
    }
  }

  lemma LateBegin(snap: Db, db: Db, op: Op, a: nat)
    requires op.Begin? && PastDeadline(db, a) && AttemptGood(db, a) && Evolves(snap, db)
    ensures var next := BeginDb(snap, db, op.terms, op.requestId, op.owner);
      && a < |next.attempts|
      && (op.owner !in db.owners ==>
           (next.attempts[a] != db.attempts[a]
            <==> (Candidate(snap, op.terms, op.requestId) == Some(a) && Leases(snap, db, op.terms, a))))
  {
    hide Candidate, CanInsert;
  }

  predicate SomeLateLease(h: History, ops: seq<Op>, a: nat)
    decreases |ops|
  {
    ops != [] && (LateLease(h, ops[0], a) || SomeLateLease(h + [Apply(h, ops[0])], ops[1..], a))
  }

  /**
   An overdue attempt that nobody recovers keeps its row through a whole run exactly when no begin
   of the run takes its lease late.
   */
  lemma {:induction false} OverdueKeptExactly(h: History, ops: seq<Op>, a: nat)
    requires Good(h) && PastDeadline(Now(h), a) && Now(h).attempts[a].rail.ByCredit?
    requires forall op :: op in ops ==> !Recovers(op, a)
    ensures KeepsRow(h, ops, a, Now(h).attempts[a]) <==> !SomeLateLease(h, ops, a)
    decreases |ops|
  {
    hide Good, Apply, LateLease, Recovers, Evolves;
    RunGood(h, ops);
    if ops == [] {
      assert Run(h, ops)[|h| - 1] == Now(h);
    } else {
      var next := h + [Apply(h, ops[0])];
      GoodNext(h, ops[0]);
      LateLeaseExactly(h, ops[0], a);
      RunGood(next, ops[1..]);
      assert Run(h, ops)[|h|] == Now(next);
      if !LateLease(h, ops[0], a) {
        OverdueNext(h, ops[0], a);
        OverdueKeptExactly(next, ops[1..], a);
        RowFromHere(h, ops, a);
      }
    }
  }

  /** From now on every state of the run has this row at a. */
  ghost predicate KeepsRow(h: History, ops: seq<Op>, a: nat, row: Attempt) {
    forall k :: |h| - 1 <= k < |Run(h, ops)| ==> a < |Run(h, ops)[k].attempts| && Run(h, ops)[k].attempts[a] == row
  }

  lemma OverdueNext(h: History, op: Op, a: nat)
    requires Good(h) && PastDeadline(Now(h), a) && Now(h).attempts[a].rail.ByCredit?
    ensures PastDeadline(Apply(h, op), a) && Apply(h, op).attempts[a].rail.ByCredit?
  {
    hide Apply;
    GoodHasInv(h);
    ApplyEvolves(h, op);
  }

  lemma RowFromHere(h: History, ops: seq<Op>, a: nat)
    requires Good(h) && ops != [] && a < |Now(h).attempts|
    ensures KeepsRow(h, ops, a, Now(h).attempts[a])
       <==> KeepsRow(h + [Apply(h, ops[0])], ops[1..], a, Now(h).attempts[a])
  {
    hide Good, Apply;
    RunGood(h, ops);
    var next := h + [Apply(h, ops[0])];
    var all := Run(h, ops);
    assert all == Run(next, ops[1..]) && all[|h| - 1] == Now(h);
    if KeepsRow(next, ops[1..], a, Now(h).attempts[a]) {
      forall k | |h| - 1 <= k < |all| ensures a < |all[k].attempts| && all[k].attempts[a] == Now(h).attempts[a] {
        assert k == |h| - 1 || |next| - 1 <= k;
      }
    }
  }

  // ----- a lease protects its holder

  /** The step is not one that the owner itself takes. */
  predicate ByAnother(op: Op, owner: nat) {
    match op
    case Begin(_, _, _, minted) => minted != owner
    case Complete(_, _, named, _) => named != owner
    case Claim(_, _, named) => named != owner
    case Give(_, _, named, _) => named != owner
    case _ => true
  }

  predicate Leasing(db: Db, a: nat, owner: nat) {
    && Holds(db, a, owner) && db.attempts[a].rail.ByCredit? && db.attempts[a].status.PaymentPending?
    && db.attempts[a].leaseExpires.Some? && db.clock < db.attempts[a].leaseExpires.value
  }

  lemma ProtectedNext(h: History, op: Op, a: nat, owner: nat)
    requires Good(h) && Leasing(Now(h), a, owner) && ByAnother(op, owner)
    ensures a < |Apply(h, op).attempts| && Apply(h, op).attempts[a] == Now(h).attempts[a]
  {
    hide Inv, Candidate, CanInsert, FindSpendFor, Affordable, OtherEntry, LiveOn, Delta, BalanceOf;
    if op.Begin? {
      assert Evolves(Snapshot(h, op.snapshot), Now(h));
    }
  }

  /**
   Until its lease runs out an attempt's row stays as the holder left it, whatever the others do:
   no begin, claim, completion or return of theirs touches it.
   */
  lemma {:induction false} LeaseProtects(h: History, ops: seq<Op>, a: nat, owner: nat, k: nat)
    requires Good(h) && Holds(Now(h), a, owner) && Now(h).attempts[a].rail.ByCredit?
    requires Now(h).attempts[a].status.PaymentPending?
    requires forall op :: op in ops ==> ByAnother(op, owner)
    requires |h| - 1 <= k < |Run(h, ops)|
    requires Now(h).attempts[a].leaseExpires.Some? && Run(h, ops)[k].clock < Now(h).attempts[a].leaseExpires.value
    ensures a < |Run(h, ops)[k].attempts| && Run(h, ops)[k].attempts[a] == Now(h).attempts[a]
    decreases |ops|
  {
    hide Good, Apply, Evolves, ByAnother;
    RunGood(h, ops);
    if ops != [] && |h| <= k {
      var next := h + [Apply(h, ops[0])];
      ClockGrows(Run(h, ops), |h| - 1, k);
      assert Run(h, ops)[|h| - 1] == Now(h);
      ProtectedNext(h, ops[0], a, owner);
      GoodNext(h, ops[0]);
      LeaseProtects(next, ops[1..], a, owner, k);
    } else {
      assert Run(h, ops)[|h| - 1] == h[|h| - 1];
    }
  }

  lemma ClockGrows(h: History, i: nat, k: nat)
    requires Good(h) && i <= k < |h|
    ensures h[i].clock <= h[k].clock
  {
    assert Evolves(h[i], h[k]);
  }

  /** So the holder can complete as long as neither its lease nor the deadline has passed. */
  lemma HolderCompletes(h: History, ops: seq<Op>, a: nat, owner: nat, k: nat)
    requires Good(h) && Holds(Now(h), a, owner) && Now(h).attempts[a].rail.ByCredit?
    requires Now(h).attempts[a].status.PaymentPending?
    requires forall op :: op in ops ==> ByAnother(op, owner)
    requires |h| - 1 <= k < |Run(h, ops)|
    requires Now(h).attempts[a].leaseExpires.Some? && Run(h, ops)[k].clock < Now(h).attempts[a].leaseExpires.value
    requires Now(h).attempts[a].deadline.Some? && Run(h, ops)[k].clock < Now(h).attempts[a].deadline.value
    ensures CanComplete(Run(h, ops)[k], Now(h).attempts[a].terms.actor, a, owner)
  {
    LeaseProtects(h, ops, a, owner, k);
    RunGood(h, ops);
    assert Inv(Run(h, ops)[k]) && AttemptGood(Run(h, ops)[k], a);
  }

  lemma NotCompletedNext(h: History, op: Op, a: nat)
    requires Inv(Now(h)) && PastDeadline(Now(h), a) && Now(h).attempts[a].rail.ByCredit?
    requires !Now(h).attempts[a].status.Completed?
    ensures PastDeadline(Apply(h, op), a) && Apply(h, op).attempts[a].rail.ByCredit?
    ensures !Apply(h, op).attempts[a].status.Completed?
  {
    ApplyEvolves(h, op);
  }

  /** After its deadline an attempt that is not completed never will be. */
  lemma {:induction false} NeverCompletedAfterDeadline(h: History, ops: seq<Op>, a: nat, k: nat)
    requires Good(h) && PastDeadline(Now(h), a) && Now(h).attempts[a].rail.ByCredit?
    requires !Now(h).attempts[a].status.Completed?
    requires |h| - 1 <= k < |Run(h, ops)|
    ensures a < |Run(h, ops)[k].attempts| && !Run(h, ops)[k].attempts[a].status.Completed?
    decreases |ops|
  {
    hide Good, Apply;
    RunGood(h, ops);
    if ops != [] && |h| <= k {
      GoodHasInv(h);
      NotCompletedNext(h, ops[0], a);
      GoodNext(h, ops[0]);
      NeverCompletedAfterDeadline(h + [Apply(h, ops[0])], ops[1..], a, k);
    } else {
      assert Run(h, ops)[|h| - 1] == h[|h| - 1];
    }
  }

  // ----- ledger safety

  /**
   In every state of every run, raced or not: one spend per resident and request id, one return
   per spend, no attempt both completed and returned, at most one live attempt per target, and
   every balance is the signed sum of the resident's entries and not negative.
   */
  lemma LedgerSafety(ops: seq<Op>, k: nat)
    requires k < |Run([EMPTY], ops)|
    ensures var db := Run([EMPTY], ops)[k];
      && (forall i, j :: 0 <= i < j < |db.entries| && db.entries[i].kind.Spend? && db.entries[j].kind.Spend? ==>
            !(db.entries[i].resident == db.entries[j].resident && db.entries[i].requestId == db.entries[j].requestId))
      && (forall i, j :: 0 <= i < j < |db.entries| && db.entries[i].kind.Return? && db.entries[j].kind.Return? ==>
            db.entries[i].related != db.entries[j].related)
      && (forall i :: 0 <= i < |db.entries| && db.entries[i].kind.Return? ==>
            && db.entries[i].attempt.Some? && db.entries[i].attempt.value < |db.attempts|
            && db.attempts[db.entries[i].attempt.value].status.CreditReturned?)
      && OneLive(db.attempts)
      && (forall r: nat :: BalanceOf(db, r) == Balance(db.entries, r) && BalanceOf(db, r) >= 0)
  {
    EmptyGood();
    RunGood([EMPTY], ops);
    var db := Run([EMPTY], ops)[k];
    assert Inv(db);
    forall i | 0 <= i < |db.entries| && db.entries[i].kind.Return?
      ensures db.entries[i].attempt.Some? && db.entries[i].attempt.value < |db.attempts|
           && db.attempts[db.entries[i].attempt.value].status.CreditReturned?
    {
      assert ReturnLinked(db.entries, i);
      assert SpendLinked(db.attempts, db.entries[db.entries[i].related.value]);
      assert AttemptGood(db, db.entries[i].attempt.value);
    }
    forall r: nat ensures BalanceOf(db, r) == Balance(db.entries, r) && BalanceOf(db, r) >= 0 {
      assert Balanced(db);
    }
  }

  /** An ended attempt keeps its row for ever: what is completed is never returned, and back. */
  lemma EndedForEver(ops: seq<Op>, i: nat, k: nat, a: nat)
    requires i <= k < |Run([EMPTY], ops)|
    requires var db := Run([EMPTY], ops)[i];
      a < |db.attempts| && db.attempts[a].rail.ByCredit? && Ending(db.attempts[a].status)
    ensures var later := Run([EMPTY], ops)[k];
      a < |later.attempts| && later.attempts[a] == Run([EMPTY], ops)[i].attempts[a]
  {
    EmptyGood();
    RunGood([EMPTY], ops);
    assert Evolves(Run([EMPTY], ops)[i], Run([EMPTY], ops)[k]);
  }

  // ----- one blocking credit attempt per target

  predicate BlockingCredit(a: Attempt) {
    a.rail.ByCredit? && Blocking(a.status)
  }

  ghost predicate OneBlocking(attempts: seq<Attempt>) {
    forall i, j :: 0 <= i < j < |attempts| && BlockingCredit(attempts[i]) && BlockingCredit(attempts[j]) ==>
      !On(attempts[j], attempts[i].terms.operation, attempts[i].terms.target)
  }

  predicate CompletedOn(attempts: seq<Attempt>, operation: string, target: string) {
    exists i | 0 <= i < |attempts| ::
      attempts[i].rail.ByCredit? && attempts[i].status.Completed? && On(attempts[i], operation, target)
  }

  /**
   Exactly when a begin keeps the target's attempt the only blocking one: it must not insert
   beside an attempt completed since its snapshot. The unique index only covers live ones.
   */
  lemma BeginBlocksOnce(snap: Db, db: Db, terms: Terms, requestId: string, owner: nat)
    requires OneBlocking(db.attempts)
    ensures OneBlocking(BeginDb(snap, db, terms, requestId, owner).attempts) <==>
      !(Candidate(snap, terms, requestId).None? && CanInsert(db, terms, requestId)
        && CompletedOn(db.attempts, terms.operation, terms.target))
  {
    var next := BeginDb(snap, db, terms, requestId, owner);
    if Candidate(snap, terms, requestId).None? && CanInsert(db, terms, requestId) {
      var n := |db.attempts|;
      assert next.attempts == db.attempts + [NewAttempt(db.clock, terms, owner)];
      if CompletedOn(db.attempts, terms.operation, terms.target) {
        var i :| 0 <= i < n && db.attempts[i].rail.ByCredit? && db.attempts[i].status.Completed?
          && On(db.attempts[i], terms.operation, terms.target);
        assert next.attempts[i] == db.attempts[i]
               && On(next.attempts[n], next.attempts[i].terms.operation, next.attempts[i].terms.target);
      } else {
        forall i | 0 <= i < n && db.attempts[i].rail.ByCredit? && Blocking(db.attempts[i].status)
          ensures !On(next.attempts[n], db.attempts[i].terms.operation, db.attempts[i].terms.target)
        {
          if On(next.attempts[n], db.attempts[i].terms.operation, db.attempts[i].terms.target) {
            assert On(db.attempts[i], terms.operation, terms.target);
          }
        }
      }
    }
  }

  /** A begin that nobody races with: its snapshot is the state it writes to. */
  ghost predicate Unraced(h: History, op: Op) {
    op.Begin? ==> Snapshot(h, op.snapshot) == Now(h)
  }

  ghost predicate AllUnraced(h: History, ops: seq<Op>)
    decreases |ops|
  {
    ops == [] || (Unraced(h, ops[0]) && AllUnraced(h + [Apply(h, ops[0])], ops[1..]))
  }

  lemma UnracedBlocksOnce(h: History, op: Op)
    requires Inv(Now(h)) && OneBlocking(Now(h).attempts) && Unraced(h, op)
    ensures OneBlocking(Apply(h, op).attempts)
  {
    var db := Now(h);
    if op.Begin? && op.owner !in db.owners {
      BeginBlocksOnce(db, db, op.terms, op.requestId, op.owner);
      if CompletedOn(db.attempts, op.terms.operation, op.terms.target) {
        assert FindBlocking(db.attempts, op.terms.operation, op.terms.target).Some?;
        SpendHasAttempt(db, op.terms.actor, op.requestId);
      }
    } else {
      OthersBlockOnce(h, op);
    }
  }

  lemma SpendHasAttempt(db: Db, actor: nat, requestId: string)
    requires Inv(db)
    ensures FindSpend(db.entries, actor, requestId).Some? ==>
      var e := db.entries[FindSpend(db.entries, actor, requestId).value];
      e.attempt.Some? && e.attempt.value < |db.attempts|
  {
    var spend := FindSpend(db.entries, actor, requestId);
    if spend.Some? {
      assert SpendLinked(db.attempts, db.entries[spend.value]);
    }
  }

  lemma OthersBlockOnce(h: History, op: Op)
    requires Inv(Now(h)) && OneBlocking(Now(h).attempts)
    requires op.Begin? ==> op.owner in Now(h).owners
    ensures OneBlocking(Apply(h, op).attempts)
  {
  }

  /** With every begin unraced, a target never has two blocking credit attempts. */
  lemma {:induction false} BlocksOnce(h: History, ops: seq<Op>, k: nat)
    requires Good(h) && OneBlocking(Now(h).attempts) && AllUnraced(h, ops)
    requires |h| - 1 <= k < |Run(h, ops)|
    ensures OneBlocking(Run(h, ops)[k].attempts)
    decreases |ops|
  {
    hide Good, Apply, OneBlocking, Unraced;
    RunGood(h, ops);
    if ops != [] && |h| <= k {
      GoodHasInv(h);
      UnracedBlocksOnce(h, ops[0]);
      GoodNext(h, ops[0]);
      BlocksOnce(h + [Apply(h, ops[0])], ops[1..], k);
    } else {
      assert Run(h, ops)[|h| - 1] == h[|h| - 1];
    }
  }

  /** A begin that inserts beside an attempt of its target that was completed since its snapshot. */
  predicate RacedInsert(h: History, op: Op) {
    && op.Begin? && op.owner !in Now(h).owners
    && Candidate(Snapshot(h, op.snapshot), op.terms, op.requestId).None?
    && CanInsert(Now(h), op.terms, op.requestId)
    && CompletedOn(Now(h).attempts, op.terms.operation, op.terms.target)
  }

  predicate SomeRaced(h: History, ops: seq<Op>)
    decreases |ops|
  {
    ops != [] && (RacedInsert(h, ops[0]) || SomeRaced(h + [Apply(h, ops[0])], ops[1..]))
  }

  lemma StepBlocksOnce(h: History, op: Op)
    requires Inv(Now(h)) && OneBlocking(Now(h).attempts)
    ensures OneBlocking(Apply(h, op).attempts) <==> !RacedInsert(h, op)
  {
    hide Inv, OneBlocking, CompletedOn, Candidate, CanInsert, BeginDb;
    if op.Begin? && op.owner !in Now(h).owners {
      BeginBlocksOnce(Snapshot(h, op.snapshot), Now(h), op.terms, op.requestId, op.owner);
    } else {
      OthersBlockOnce(h, op);
    }
  }

  /**
   Exactly when a run gives a target two blocking credit attempts: when one of its begins inserts
   beside an attempt that was completed since the begin's snapshot.
   */
  lemma {:induction false} BlocksOnceExactly(h: History, ops: seq<Op>)
    requires Good(h) && OneBlocking(Now(h).attempts)
    ensures (forall k :: |h| - 1 <= k < |Run(h, ops)| ==> OneBlocking(Run(h, ops)[k].attempts)) <==> !SomeRaced(h, ops)
    decreases |ops|
  {
    hide Good, Apply, OneBlocking, RacedInsert;
    RunGood(h, ops);
    if ops == [] {
      assert Run(h, ops)[|h| - 1] == Now(h);
    } else {
      var next := h + [Apply(h, ops[0])];
      GoodHasInv(h);
      GoodNext(h, ops[0]);
      StepBlocksOnce(h, ops[0]);
      RunGood(next, ops[1..]);
      assert Run(h, ops)[|h|] == Now(next) && Run(h, ops)[|h| - 1] == Now(h);
      if !RacedInsert(h, ops[0]) {
        BlocksOnceExactly(next, ops[1..]);
        FromHereOn(h, ops);
      }
    }
  }

  lemma FromHereOn(h: History, ops: seq<Op>)
    requires Good(h) && ops != [] && OneBlocking(Now(h).attempts)
    ensures var next := h + [Apply(h, ops[0])];
      (forall k :: |h| - 1 <= k < |Run(h, ops)| ==> OneBlocking(Run(h, ops)[k].attempts))
      <==> (forall k :: |next| - 1 <= k < |Run(next, ops[1..])| ==> OneBlocking(Run(next, ops[1..])[k].attempts))
  {
    hide Good, Apply, OneBlocking;
    RunGood(h, ops);
    var next := h + [Apply(h, ops[0])];
    var all := Run(h, ops);
    assert all == Run(next, ops[1..]) && all[|h| - 1] == Now(h);
    if forall k :: |next| - 1 <= k < |all| ==> OneBlocking(all[k].attempts) {
      forall k | |h| - 1 <= k < |all| ensures OneBlocking(all[k].attempts) {
        assert k == |h| - 1 || |next| - 1 <= k;
      }
    }
  }

  const DEPOSIT := Entry(1, FounderIssue, 2_000_000, None, None, None, None, None, None)
  const RENAME := Terms(1, "place_rename", "place:7", "{}", Some(("place", 7)))
  const ANSWER := Response(200, "", "{}")

  /** The race that the exact condition describes: one begin starts before the other completes. */
  const RACE := [
    Enter(DEPOSIT),
    Begin(1, RENAME, "a", 10),
    Complete(1, 0, 10, ANSWER),
    Begin(1, RENAME, "b", 11)
  ]

  const FIRST_SPEND := SpendEntry(1, "a", 0)
  const SECOND_SPEND := SpendEntry(1, "b", 1)
  const FIRST := NewAttempt(0, RENAME, 10)
  const SECOND := NewAttempt(0, RENAME, 11)

  const DEPOSITED := Db(0, [], [DEPOSIT], map[1 := 2_000_000], {})
  const BEGUN := Db(0, [FIRST], [DEPOSIT, FIRST_SPEND], map[1 := 1_000_000], {10})
  const ENDED := Db(0, [Ended(FIRST, Completed, ANSWER)], [DEPOSIT, FIRST_SPEND], map[1 := 1_000_000], {10})
  const RACED := Db(0, [Ended(FIRST, Completed, ANSWER), SECOND], [DEPOSIT, FIRST_SPEND, SECOND_SPEND],
    map[1 := 0], {10, 11})

  lemma RaceBegins()
    ensures Apply([EMPTY], RACE[0]) == DEPOSITED
    ensures Apply([EMPTY, DEPOSITED], RACE[1]) == BEGUN
  {
    assert FindSpend(DEPOSITED.entries, 1, "a").None?;
    assert FindBlocking(DEPOSITED.attempts, "place_rename", "place:7").None?;
    assert [DEPOSIT] + [FIRST_SPEND] == [DEPOSIT, FIRST_SPEND];
  }

  lemma RaceEnds()
    ensures Apply([EMPTY, DEPOSITED, BEGUN], RACE[2]) == ENDED
    ensures Apply([EMPTY, DEPOSITED, BEGUN, ENDED], RACE[3]) == RACED
  {
    assert IsSpendFor(BEGUN.entries[1], 0);
    assert BEGUN.attempts[0 := Ended(FIRST, Completed, ANSWER)] == ENDED.attempts;
    var h: History := [EMPTY, DEPOSITED, BEGUN, ENDED];
    assert Snapshot(h, 1) == DEPOSITED;
    assert FindSpend(DEPOSITED.entries, 1, "b").None?;
    assert FindBlocking(DEPOSITED.attempts, "place_rename", "place:7").None?;
    assert FindSpend(ENDED.entries, 1, "b").None? by {
      assert "a"[0] != "b"[0];
    }
    assert ENDED.entries + [SECOND_SPEND] == RACED.entries;
  }

  lemma RunOfFour(h: History, a: Op, b: Op, c: Op, d: Op)
    ensures
      var h1 := h + [Apply(h, a)];
      var h2 := h1 + [Apply(h1, b)];
      var h3 := h2 + [Apply(h2, c)];
      Run(h, [a, b, c, d]) == h3 + [Apply(h3, d)]
  {
    hide Apply;
    var h1 := h + [Apply(h, a)];
    var h2 := h1 + [Apply(h1, b)];
    var h3 := h2 + [Apply(h2, c)];
    assert [a, b, c, d][1..] == [b, c, d] && [b, c, d][1..] == [c, d] && [c, d][1..] == [d] && [d][1..] == [];
    assert Run(h3, [d]) == h3 + [Apply(h3, d)];
    assert Run(h2, [c, d]) == Run(h3, [d]);
    assert Run(h1, [b, c, d]) == Run(h2, [c, d]);
  }

  /** A raced begin can leave a target two blocking credit attempts, both paid for. */
  lemma RacedBeginBlocksTwice()
    ensures |Run([EMPTY], RACE)| == 5 && Run([EMPTY], RACE)[4] == RACED
    ensures !OneBlocking(RACED.attempts)
  {
    hide Apply;
    RaceBegins();
    RaceEnds();
    RunOfFour([EMPTY], RACE[0], RACE[1], RACE[2], RACE[3]);
    assert RACE == [RACE[0], RACE[1], RACE[2], RACE[3]];
    assert [EMPTY] + [DEPOSITED] == [EMPTY, DEPOSITED];
    assert [EMPTY, DEPOSITED] + [BEGUN] == [EMPTY, DEPOSITED, BEGUN];
    assert [EMPTY, DEPOSITED, BEGUN] + [ENDED] == [EMPTY, DEPOSITED, BEGUN, ENDED];
    assert On(RACED.attempts[1], RACED.attempts[0].terms.operation, RACED.attempts[0].terms.target);
  }

  /** The run behind a late lease: the snapshot is from after the lease and before the deadline. */
  const LATE := RACE[..2] + [Tick(40_000), Tick(7_260_000)] + [Begin(3, RENAME, "a", 11)]

  const IDLE := BEGUN.(clock := 40_000)
  const OVERDUE := BEGUN.(clock := 7_300_000)
  const RELEASED := OVERDUE.(
    attempts := [Released(FIRST, 11, 7_330_000)],
    owners := {10, 11})

  lemma LateBeginLeases()
    ensures Apply([EMPTY, DEPOSITED, BEGUN, IDLE, OVERDUE], LATE[4]) == RELEASED
  {
    var h: History := [EMPTY, DEPOSITED, BEGUN, IDLE, OVERDUE];
    assert Snapshot(h, 3) == IDLE && Now(h) == OVERDUE;
    assert FindSpend(IDLE.entries, 1, "a") == Some(1);
    assert Candidate(IDLE, RENAME, "a") == Some(0);
    assert OVERDUE.attempts[0 := Released(FIRST, 11, 7_330_000)] == RELEASED.attempts;
  }

  lemma {:induction false} RunOneMore(h: History, ops: seq<Op>, last: Op)
    ensures Run(h, ops + [last]) == Run(h, ops) + [Apply(Run(h, ops), last)]
    decreases |ops|
  {
    hide Apply;
    if ops == [] {
      assert ops + [last] == [last] && [last][1..] == [];
    } else {
      assert (ops + [last])[1..] == ops[1..] + [last];
      RunOneMore(h + [Apply(h, ops[0])], ops[1..], last);
    }
  }

  /** A begin can take the lease of an attempt that is past its deadline, for half a minute more. */
  lemma LateLeaseTaken()
    ensures |Run([EMPTY], LATE)| == 6 && Run([EMPTY], LATE)[4] == OVERDUE && Run([EMPTY], LATE)[5] == RELEASED
    ensures PastDeadline(OVERDUE, 0) && Holds(RELEASED, 0, 11) && RELEASED.attempts[0] != OVERDUE.attempts[0]
  {
    RaceBegins();
    LateBeginLeases();
    hide Apply;
    var four := [RACE[0], RACE[1], Tick(40_000), Tick(7_260_000)];
    assert LATE == four + [LATE[4]];
    RunOfFour([EMPTY], RACE[0], RACE[1], Tick(40_000), Tick(7_260_000));
    RunOneMore([EMPTY], four, LATE[4]);
    assert [EMPTY] + [DEPOSITED] == [EMPTY, DEPOSITED];
    assert [EMPTY, DEPOSITED] + [BEGUN] == [EMPTY, DEPOSITED, BEGUN];
    TickTo([EMPTY, DEPOSITED, BEGUN], 40_000, IDLE);
    assert [EMPTY, DEPOSITED, BEGUN] + [IDLE] == [EMPTY, DEPOSITED, BEGUN, IDLE];
    TickTo([EMPTY, DEPOSITED, BEGUN, IDLE], 7_260_000, OVERDUE);
    assert [EMPTY, DEPOSITED, BEGUN, IDLE] + [OVERDUE] == [EMPTY, DEPOSITED, BEGUN, IDLE, OVERDUE];
  }

  lemma TickTo(h: History, ms: nat, next: Db)
    requires next == Now(h).(clock := Now(h).clock + ms)
    ensures Apply(h, Tick(ms)) == next
  {
  }

  // ----- no fee is lost

  predicate IsHeld(a: Attempt, actor: nat) {
    a.rail.ByCredit? && a.terms.actor == actor && !a.status.CreditReturned?
  }

  /** The attempts whose fee the city holds or has earned. */
  function Held(attempts: seq<Attempt>, actor: nat): nat {
    if attempts == [] then 0
    else Held(attempts[..|attempts| - 1], actor) + (if IsHeld(attempts[|attempts| - 1], actor) then 1 else 0)
  }

  /** What every other entry brought in. */
  function Deposits(entries: seq<Entry>, resident: nat): int {
    if entries == [] then 0
    else
      var last := entries[|entries| - 1];
      Deposits(entries[..|entries| - 1], resident)
        + (if last.resident == resident && !last.kind.Spend? && !last.kind.Return? then Delta(last) else 0)
  }

  lemma {:induction false} HeldUpdated(attempts: seq<Attempt>, a: nat, now: Attempt, actor: nat)
    requires a < |attempts|
    ensures Held(attempts[a := now], actor)
         == Held(attempts, actor) - (if IsHeld(attempts[a], actor) then 1 else 0)
            + (if IsHeld(now, actor) then 1 else 0)
    decreases |attempts|
  {
    var n := |attempts| - 1;
    if a < n {
      HeldUpdated(attempts[..n], a, now, actor);
      assert attempts[a := now][..n] == attempts[..n][a := now];
    } else {
      assert attempts[a := now][..n] == attempts[..n];
    }
  }

  lemma HeldNext(attempts: seq<Attempt>, now: Attempt, actor: nat)
    ensures Held(attempts + [now], actor) == Held(attempts, actor) + (if IsHeld(now, actor) then 1 else 0)
  {
    assert (attempts + [now])[..|attempts|] == attempts;
  }

  lemma DepositsNext(entries: seq<Entry>, e: Entry, resident: nat)
    ensures Deposits(entries + [e], resident) == Deposits(entries, resident)
      + (if e.resident == resident && !e.kind.Spend? && !e.kind.Return? then Delta(e) else 0)
  {
    assert (entries + [e])[..|entries|] == entries;
  }

  ghost predicate FeesKept(db: Db, r: nat) {
    Balance(db.entries, r) == Deposits(db.entries, r) - FEE * Held(db.attempts, r)
  }

  lemma FeesKeptNext(h: History, op: Op, r: nat)
    requires Inv(Now(h)) && FeesKept(Now(h), r)
    ensures FeesKept(Apply(h, op), r)
  {
    hide Inv, Held, Deposits, Balance, Delta, OtherEntry, Candidate, Leases,
      CanInsert, CanComplete, CanClaim, CanReturn;
    var db := Now(h);
    var next := Apply(h, op);
    if next != db {
      match op
      case Tick(_) =>
      case Begin(snapshot, terms, requestId, owner) =>
        BeginKeepsFees(Snapshot(h, snapshot), db, terms, requestId, owner, r);
      case Complete(actor, attempt, owner, response) =>
        EndKeepsFees(db, actor, attempt, owner, response, r);
      case Claim(actor, attempt, owner) =>
        ClaimKeepsFees(db, actor, attempt, owner, r);
      case Give(actor, attempt, owner, response) =>
        ReturnKeepsFees(db, actor, attempt, owner, response, r);
      case Enter(entry) =>
        EnterKeepsFees(db, entry, r);
      case OpenOther(terms, status) =>
        HeldNext(db.attempts, Attempt(terms, ByOther, status, None, None, None, None), r);
      case MoveOther(attempt, moved) =>
        HeldUpdated(db.attempts, attempt, moved, r);
    }
  }

  lemma EnterKeepsFees(db: Db, e: Entry, r: nat)
    requires FeesKept(db, r)
    ensures FeesKept(PostDb(db, e), r)
  {
    DepositsNext(db.entries, e, r);
    BalanceOfNext(db.entries, e, r);
  }

  lemma BeginKeepsFees(snap: Db, db: Db, terms: Terms, requestId: string, owner: nat, r: nat)
    requires FeesKept(db, r)
    ensures FeesKept(BeginDb(snap, db, terms, requestId, owner), r)
  {
    hide Candidate, CanInsert, Held, Deposits, Balance, FindSpend;
    match Candidate(snap, terms, requestId)
    case Some(c) =>
      if Leases(snap, db, terms, c) {
        HeldUpdated(db.attempts, c, Released(db.attempts[c], owner, db.clock + LEASE_MS), r);
      }
    case None =>
      var e := SpendEntry(terms.actor, requestId, |db.attempts|);
      HeldNext(db.attempts, NewAttempt(db.clock, terms, owner), r);
      DepositsNext(db.entries, e, r);
      BalanceOfNext(db.entries, e, r);
  }

  lemma EndKeepsFees(db: Db, actor: nat, attempt: nat, owner: nat, response: Response, r: nat)
    requires FeesKept(db, r)
    ensures FeesKept(CompleteDb(db, actor, attempt, owner, response), r)
  {
    if CanComplete(db, actor, attempt, owner) {
      HeldUpdated(db.attempts, attempt, Ended(db.attempts[attempt], Completed, response), r);
    }
  }

  lemma ClaimKeepsFees(db: Db, actor: nat, attempt: nat, owner: nat, r: nat)
    requires FeesKept(db, r)
    ensures FeesKept(ClaimDb(db, actor, attempt, owner), r)
  {
    if CanClaim(db, actor, attempt, owner) {
      HeldUpdated(db.attempts, attempt, Released(db.attempts[attempt], owner, db.clock + LEASE_MS), r);
    }
  }

  lemma ReturnKeepsFees(db: Db, actor: nat, attempt: nat, owner: nat, response: Response, r: nat)
    requires Inv(db) && FeesKept(db, r)
    ensures FeesKept(ReturnDb(db, actor, attempt, owner, response), r)
  {
    if CanReturn(db, actor, attempt, owner) {
      var spend := FindSpendFor(db.entries, attempt).value;
      assert SpendLinked(db.attempts, db.entries[spend]);
      var e := ReturnEntry(db.entries[spend].resident, attempt, spend, response.reason);
      HeldUpdated(db.attempts, attempt, Ended(db.attempts[attempt], CreditReturned, response), r);
      DepositsNext(db.entries, e, r);
      BalanceOfNext(db.entries, e, r);
    }
  }

  /**
   No fee is lost: in every state a balance is what was deposited less one fee for each of the
   resident's attempts that is pending or completed.
   */
  lemma {:induction false} FeesConserved(h: History, ops: seq<Op>, r: nat, k: nat)
    requires Good(h) && FeesKept(Now(h), r)
    requires |h| - 1 <= k < |Run(h, ops)|
    ensures FeesKept(Run(h, ops)[k], r)
    decreases |ops|
  {
    hide Good, Apply, FeesKept;
    RunGood(h, ops);
    if ops != [] && |h| <= k {
      GoodHasInv(h);
      FeesKeptNext(h, ops[0], r);
      GoodNext(h, ops[0]);
      FeesConserved(h + [Apply(h, ops[0])], ops[1..], r, k);
    } else {
      assert Run(h, ops)[|h| - 1] == h[|h| - 1];
    }
  }

  lemma FeesKeptAtFirst(r: nat)
    ensures FeesKept(EMPTY, r)
  {
    assert Held([], r) == 0;
  }

  /** From an empty database on, no run loses or invents a fee. */
  lemma NoFeeLost(ops: seq<Op>, r: nat, k: nat)
    requires k < |Run([EMPTY], ops)|
    ensures FeesKept(Run([EMPTY], ops)[k], r)
  {
    hide FeesKept;
    EmptyGood();
    FeesKeptAtFirst(r);
    FeesConserved([EMPTY], ops, r, k);
  }

  // ----- the deadline return

  /**
   Past its deadline a pending attempt whose lease has run out can be claimed by any owner, and
   the return that follows ends it and gives the resident the whole fee back.
   */
  lemma DeadlineReturnWorks(db: Db, a: nat, owner: nat, response: Response)
    requires Inv(db) && PastDeadline(db, a) && db.attempts[a].rail.ByCredit? && db.attempts[a].status.PaymentPending?
    requires db.attempts[a].leaseExpires.Some? && db.attempts[a].leaseExpires.value <= db.clock
    ensures var actor := db.attempts[a].terms.actor;
      var claimed := ClaimDb(db, actor, a, owner);
      var returned := ReturnDb(claimed, actor, a, owner, response);
      && ClaimAnswered(db, actor, a, owner) == ClaimReady
      && returned.attempts[a].status == CreditReturned && returned.attempts[a].response == Some(response)
      && BalanceOf(returned, actor) == BalanceOf(db, actor) + FEE
      && ReturnedAlready(returned, actor, a, response)
      && ReturnDb(returned, actor, a, owner, response) == returned
  {
    assert AttemptGood(db, a);
    var spend := FindSpendFor(db.entries, a).value;
    assert SpendLinked(db.attempts, db.entries[spend]);
  }

  /** Without a claim every lease runs out: 30 seconds after the last grant at the latest. */
  lemma LeaseRunsOut(db: Db, a: nat)
    requires Inv(db) && a < |db.attempts| && db.attempts[a].rail.ByCredit? && db.attempts[a].status.PaymentPending?
    ensures db.attempts[a].leaseExpires.Some? && db.attempts[a].leaseExpires.value <= db.clock + LEASE_MS
  {
    assert AttemptGood(db, a);
  }
}
