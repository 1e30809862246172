/**
 The daily quota of things in the runs of the crafting commit. A login names the day its request
 was sent on and a commit the day its statement began on; either may arrive on a later day.
 */
module CraftingQuota {
  import opened Common
  import opened Crafting
  import opened CraftingRuns

  /** Counters are true, and no day is charged beyond the quota. */
  ghost predicate Counted(db: Db) {
    && (forall r :: r in db.quotas ==>
         && db.quotas[r].day <= db.today && db.quotas[r].used <= QUOTA
         && db.quotas[r].used == Charged(db.charges, r, db.quotas[r].day))
    && (forall r: nat, day: nat :: Charged(db.charges, r, day) <= QUOTA)
    && (forall i :: 0 <= i < |db.charges| ==>
         && db.charges[i].resident in db.quotas
         && db.charges[i].day <= db.quotas[db.charges[i].resident].day)
  }

  /** Nothing of the resident was charged to that day or a later one. */
  predicate ChargedBefore(charges: seq<Charge>, resident: nat, day: nat) {
    forall i | 0 <= i < |charges| && charges[i].resident == resident :: charges[i].day < day
  }

  lemma {:induction false} NothingCharged(charges: seq<Charge>, resident: nat, day: nat)
    ensures Charged(charges, resident, day) == 0 <==>
      forall i :: 0 <= i < |charges| && charges[i].resident == resident ==> charges[i].day != day
  {
    if charges != [] {
      var rest := charges[..|charges| - 1];
      NothingCharged(rest, resident, day);
      assert forall i :: 0 <= i < |rest| ==> rest[i] == charges[i];
    }
  }

  /** One more charge to the counter's own day, which stays or is a new one. */
  predicate Charges(db: Db, next: Db, charge: Charge, counter: Counter) {
    && charge.resident in db.quotas && next.today == db.today && charge.day == counter.day <= db.today
    && next.charges == db.charges + [charge] && next.quotas == db.quotas[charge.resident := counter]
    && var before := db.quotas[charge.resident];
       if before.day == counter.day then counter.used == before.used + 1 <= QUOTA else counter.used == 1
  }

  lemma ChargeCountsExactly(db: Db, next: Db, charge: Charge, counter: Counter)
    requires Counted(db) && Charges(db, next, charge, counter)
    ensures Counted(next) <==>
      db.quotas[charge.resident].day == counter.day || ChargedBefore(db.charges, charge.resident, counter.day)
  {
    var r := charge.resident;
    NothingCharged(db.charges, r, counter.day);
    ChargedNext(db.charges, charge, r, counter.day);
    if Counted(next) {
      assert next.quotas[r].used == Charged(next.charges, r, counter.day);
      forall i | 0 <= i < |db.charges| && db.charges[i].resident == r ensures db.charges[i].day <= counter.day {
        assert next.charges[i] == db.charges[i];
      }
    }
    if db.quotas[r].day == counter.day || ChargedBefore(db.charges, r, counter.day) {
      ChargeCounts(db, next, charge, counter);
    }
  }

  lemma ChargeCounts(db: Db, next: Db, charge: Charge, counter: Counter)
    requires Counted(db) && Charges(db, next, charge, counter)
    requires db.quotas[charge.resident].day == counter.day || ChargedBefore(db.charges, charge.resident, counter.day)
    ensures Counted(next)
  {
    NothingCharged(db.charges, charge.resident, counter.day);
    forall other: nat, day: nat ensures Charged(next.charges, other, day) <= QUOTA {
      ChargedNext(db.charges, charge, other, day);
    }
    forall other | other in next.quotas
      ensures next.quotas[other].used == Charged(next.charges, other, next.quotas[other].day)
    {
      ChargedNext(db.charges, charge, other, next.quotas[other].day);
    }
  }

  lemma LoginCountsExactly(db: Db, r: nat, day: nat)
    requires Counted(db) && r in db.quotas && day <= db.today && day != db.quotas[r].day
    ensures Counted(LoginDb(db, r, day)) <==> ChargedBefore(db.charges, r, day)
  {
    NothingCharged(db.charges, r, day);
    hide Charged;
    var next := LoginDb(db, r, day);
    if Counted(next) {
      assert next.quotas[r].used == Charged(next.charges, r, day);
    }
  }

  // ----- one step

  /** The day that a step puts on a resident's counter, if it puts any. */
  function Dated(db: Db, op: Op): Option<(nat, nat)> {
    match op
    case Login(resident, day) => if resident in db.quotas && day <= db.today then Some((resident, day)) else None
    case Commit(request, revision, recipe, hold, day) =>
      if CanCommit(db, request, revision, recipe, Limit(hold), day) then Some((request.actor, day)) else None
    case _ => None
  }

  /** A step that changes a counter's day puts one on it that nothing was charged to or after. */
  predicate KeepsCount(db: Db, op: Op) {
    match Dated(db, op)
    case None => true
    case Some((resident, day)) =>
      resident in db.quotas && (day == db.quotas[resident].day || ChargedBefore(db.charges, resident, day))
  }

  /** Exactly when a step keeps the counters true. */
  lemma StepCountsExactly(db: Db, op: Op)
    requires Counted(db)
    ensures Counted(Apply(db, op)) <==> KeepsCount(db, op)
  {
    match op
    case Login(resident, day) =>
      hide Counted, ChargedBefore;
      if resident in db.quotas && day <= db.today && day != db.quotas[resident].day {
        LoginCountsExactly(db, resident, day);
      }
    case Join(resident) => JoinCounts(db, resident);
    case Commit(_, _, _, _, _) => CommitCountsExactly(db, op);
    case Make(thing, hold) => MakeCounts(db, thing, Limit(hold));
    case _ =>
      hide Charged;
      assert Apply(db, op).quotas == db.quotas && Apply(db, op).charges == db.charges;
  }

  lemma JoinCounts(db: Db, resident: nat)
    requires Counted(db)
    ensures Counted(Apply(db, Join(resident)))
  {
    NothingCharged(db.charges, resident, db.today);
    hide Charged;
  }

  lemma CommitCountsExactly(db: Db, op: Op)
    requires Counted(db) && op.Commit?
    ensures Counted(Apply(db, op)) <==> KeepsCount(db, op)
  {
    hide Charged, Valid, Counted, ChargedBefore;
    var actor := op.request.actor;
    if CanCommit(db, op.request, op.revision, op.recipe, Limit(op.hold), op.day) {
      var next := Apply(db, op);
      ChargeCountsExactly(db, next, Charge(actor, op.day), next.quotas[actor]);
    }
  }

  lemma MakeCounts(db: Db, thing: Thing, limit: nat)
    requires Counted(db) && limit <= QUOTA
    ensures Counted(MakeDb(db, thing, limit))
  {
    hide Charged, ChargedBefore;
    var next := MakeDb(db, thing, limit);
    if next != db {
      ChargeCounts(db, next, Charge(thing.owner, db.quotas[thing.owner].day), next.quotas[thing.owner]);
    }
  }

  /** A step that puts no earlier day on a counter than the counter's own never spoils a count. */
  lemma ForwardKeepsCount(db: Db, op: Op)
    requires Counted(db)
    requires Dated(db, op).Some? ==> db.quotas[Dated(db, op).value.0].day <= Dated(db, op).value.1
    ensures KeepsCount(db, op)
  {
  }

  // ----- whole runs

  predicate Counting(db: Db, ops: seq<Op>)
    decreases |ops|
  {
    ops == [] || (KeepsCount(db, ops[0]) && Counting(Apply(db, ops[0]), ops[1..]))
  }

  /** Every state of the run has true counters. */
  ghost predicate CountedAll(db: Db, ops: seq<Op>)
    decreases |ops|
  {
    Counted(db) && (ops == [] || CountedAll(Apply(db, ops[0]), ops[1..]))
  }

  /**
   Exactly which runs keep every counter true and every day within the quota: those in which no
   step puts a day on a counter that was charged already, or that comes before such a day.
   */
  lemma {:induction false} CountsExactly(db: Db, ops: seq<Op>)
    requires Counted(db)
    ensures CountedAll(db, ops) <==> Counting(db, ops)
    decreases |ops|
  {
    hide Apply, Counted, KeepsCount;
    if ops != [] {
      StepCountsExactly(db, ops[0]);
      if KeepsCount(db, ops[0]) {
        CountsExactly(Apply(db, ops[0]), ops[1..]);
      } else {
        NotCountedAll(Apply(db, ops[0]), ops[1..]);
      }
    }
  }

  lemma NotCountedAll(db: Db, ops: seq<Op>)
    requires !Counted(db)
    ensures !CountedAll(db, ops)
  {
  }

  lemma {:induction false} CountedAtLast(db: Db, ops: seq<Op>)
    requires CountedAll(db, ops)
    ensures Counted(Run(db, ops))
    decreases |ops|
  {
    hide Apply, Counted;
    if ops != [] {
      CountedAtLast(Apply(db, ops[0]), ops[1..]);
    }
  }

  lemma EmptyCounts()
    ensures Counted(EMPTY)
  {
  }

  /** In such a run no resident makes or crafts more than twenty things on any day. */
  lemma QuotaSafety(ops: seq<Op>, resident: nat, day: nat)
    requires Counting(EMPTY, ops)
    ensures var db := Run(EMPTY, ops);
      CraftsOn(db.crafts, resident, day) <= Charged(db.charges, resident, day) <= 20
  {
    EmptyCounts();
    CountsExactly(EMPTY, ops);
    CountedAtLast(EMPTY, ops);
    CraftingSafety(ops, resident, day);
  }

  // ----- a run with a counter that is set back

  const TOKEN := Request(1, 0, 0, [])

  function Crafts(day: nat, n: nat): seq<Op> {
    seq(n, i => Commit(TOKEN, 0, [], None, day))
  }

  /** A resident, a kind made from nothing and a place that takes its things. */
  predicate Ready(db: Db) {
    && 1 in db.quotas
    && db.kinds == [Kind("token", [[]])] && db.places == [Place(false, true, false, {1})]
  }

  lemma CraftOne(db: Db, day: nat)
    requires Ready(db) && day <= db.today && db.quotas[1].day == day && db.quotas[1].used < QUOTA
    ensures var next := Apply(db, Commit(TOKEN, 0, [], None, day));
      && Ready(next) && next.today == db.today && next.quotas[1] == Counter(day, db.quotas[1].used + 1)
      && CraftsOn(next.crafts, 1, day) == CraftsOn(db.crafts, 1, day) + 1
  {
    assert IngredientKinds(db, []) == [];
    assert ReadsAs([], []) && Current(db, 0, 0, []);
    CraftsNext(db.crafts, Craft(1, 0, |db.things|, [], [], day), 1, day);
  }

  lemma {:induction false} CraftMany(db: Db, day: nat, n: nat)
    requires Ready(db) && day <= db.today && db.quotas[1].day == day && db.quotas[1].used + n <= QUOTA
    ensures var next := Run(db, Crafts(day, n));
      && Ready(next) && next.today == db.today && next.quotas[1] == Counter(day, db.quotas[1].used + n)
      && CraftsOn(next.crafts, 1, day) == CraftsOn(db.crafts, 1, day) + n
    decreases n
  {
    hide Apply, Ready, CraftsOn;
    if n > 0 {
      CraftOne(db, day);
      assert Crafts(day, n)[1..] == Crafts(day, n - 1);
      CraftMany(Apply(db, Crafts(day, n)[0]), day, n - 1);
    }
  }

  lemma {:induction false} RunInTwo(db: Db, first: seq<Op>, second: seq<Op>)
    ensures Run(db, first + second) == Run(Run(db, first), second)
    decreases |first|
  {
    hide Apply;
    if first != [] {
      assert (first + second)[1..] == first[1..] + second;
      RunInTwo(Apply(db, first[0]), first[1..], second);
    } else {
      assert first + second == second;
    }
  }

  const OPENED := [Join(1), AddKind("token", []), SetPlace(0, Place(false, true, false, {1})), NextDay]

  lemma Opens()
    ensures var db := Run(EMPTY, OPENED);
      Ready(db) && db.today == 1 && db.quotas[1] == Counter(0, 0) && db.crafts == []
  {
    var a, b, c := OPENED[1..], OPENED[2..], OPENED[3..];
    assert a[1..] == b && b[1..] == c && c[1..] == [];
    var joined := EMPTY.(quotas := map[1 := Counter(0, 0)]);
    assert Apply(EMPTY, OPENED[0]) == joined;
    var stocked := joined.(kinds := [Kind("token", [[]])]);
    assert Apply(joined, a[0]) == stocked;
    var placed := stocked.(places := [Place(false, true, false, {1})]);
    assert Apply(stocked, b[0]) == placed;
    assert Run(placed, c) == Run(placed.(today := 1), []);
    assert Run(stocked, b) == Run(placed, c) && Run(joined, a) == Run(stocked, b);
  }

  /** One request of the given day, and one of the day that the counter had. */
  lemma SetBack(db: Db, day: nat)
    requires Ready(db) && 0 < day <= db.today && db.quotas[1].day == day
    ensures var next := Run(db, [Login(1, day - 1), Login(1, day)]);
      && Ready(next) && next.today == db.today && next.quotas[1] == Counter(day, 0) && next.crafts == db.crafts
  {
    var two := [Login(1, day - 1), Login(1, day)];
    assert two[1..] == [Login(1, day)] && two[1..][1..] == [];
    var back := LoginDb(db, 1, day - 1);
    assert Run(db, two) == Run(back, two[1..]) == Run(LoginDb(back, 1, day), []);
  }

  /**
   The quota does not hold when a count is set back: a request sent before midnight that reads its
   credentials after the new day's twenty makes room for twenty more.
   */
  lemma FortyOnOneDay()
    ensures var ops := OPENED + [Login(1, 1)] + Crafts(1, 20) + [Login(1, 0), Login(1, 1)] + Crafts(1, 20);
      CraftsOn(Run(EMPTY, ops).crafts, 1, 1) == 40 && !Counting(EMPTY, ops)
  {
    var first := OPENED + [Login(1, 1)];
    var second := first + Crafts(1, 20);
    var third := second + [Login(1, 0), Login(1, 1)];
    Opens();
    LoginOne(Run(EMPTY, OPENED), 1, 1);
    var start := Run(EMPTY, OPENED);
    assert CraftsOn(start.crafts, 1, 1) == 0;
    hide Run, Apply, Ready, CraftsOn, Counting;
    RunInTwo(EMPTY, OPENED, [Login(1, 1)]);
    RunInTwo(EMPTY, first, Crafts(1, 20));
    RunInTwo(EMPTY, second, [Login(1, 0), Login(1, 1)]);
    RunInTwo(EMPTY, third, Crafts(1, 20));
    CraftMany(Run(EMPTY, first), 1, 20);
    SetBack(Run(EMPTY, second), 1);
    CraftMany(Run(EMPTY, third), 1, 20);
    var ops := third + Crafts(1, 20);
    if Counting(EMPTY, ops) {
      QuotaSafety(ops, 1, 1);
    }
  }

  lemma LoginOne(db: Db, r: nat, day: nat)
    requires Ready(db) && r in db.quotas && day <= db.today && db.quotas[r].day != day
    ensures Run(db, [Login(r, day)]) == db.(quotas := db.quotas[r := Counter(day, 0)])
    ensures Ready(Run(db, [Login(r, day)]))
  {
    assert [Login(r, day)][1..] == [];
  }
}
