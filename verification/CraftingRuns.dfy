/**
 The commit statement of src/crafting.ts among everything else that happens to things, kinds,
 places and quotas. Its row locks make it see the current rows. Things, kinds and places are
 named by position, revisions of a kind likewise.
 */
module CraftingRuns {
  import opened Common
  import opened Crafting

  const QUOTA := 20

  datatype Thing = Thing(owner: nat, place: nat, kind: Option<nat>, held: bool, offered: bool, withdrawn: bool)

  datatype Kind = Kind(name: string, revisions: seq<seq<Candidate>>)

  /** `welcome` are the residents whose things the place takes. */
  datatype Place = Place(root: bool, owned: bool, retired: bool, welcome: set<nat>)

  datatype Counter = Counter(day: nat, used: nat)

  /** One thing made, charged to a day's counter. */
  datatype Charge = Charge(resident: nat, day: nat)

  /** A craft of the day that its commit statement began on. */
  datatype Craft = Craft(actor: nat, kind: nat, output: nat, ids: seq<nat>, recipe: seq<Requirement>, day: nat)

  datatype Withdrawal = Withdrawal(thing: nat, output: nat)

  datatype Db = Db(
    today: nat,
    things: seq<Thing>,
    kinds: seq<Kind>,
    places: seq<Place>,
    quotas: map<nat, Counter>,
    charges: seq<Charge>,
    crafts: seq<Craft>,
    withdrawals: seq<Withdrawal>)

  const EMPTY := Db(0, [], [], [], map[], [], [], [])

  datatype Request = Request(actor: nat, kind: nat, place: nat, ids: seq<nat>)

  // ----- the commit

  function KindName(db: Db, thing: Thing): Option<string> {
    if thing.kind.Some? && thing.kind.value < |db.kinds| then Some(db.kinds[thing.kind.value].name) else None
  }

  predicate Usable(db: Db, id: nat, actor: nat, place: nat) {
    && id < |db.things|
    && var thing := db.things[id];
       && thing.owner == actor && thing.place == place
       && !thing.withdrawn && !thing.held && !thing.offered && KindName(db, thing).Some?
  }

  function IngredientKinds(db: Db, ids: seq<nat>): seq<Option<string>> {
    seq(|ids|, i requires 0 <= i < |ids| => if ids[i] < |db.things| then KindName(db, db.things[ids[i]]) else None)
  }

  predicate Known(db: Db, name: string) {
    exists i | 0 <= i < |db.kinds| :: LowerCase(db.kinds[i].name) == name
  }

  predicate AllKnown(db: Db, recipe: seq<Requirement>) {
    forall i | 0 <= i < |recipe| :: Known(db, recipe[i].kind)
  }

  /** The kind's current revision is the one the request read its recipe from. */
  predicate Current(db: Db, kind: nat, revision: nat, recipe: seq<Requirement>) {
    kind < |db.kinds| && revision + 1 == |db.kinds[kind].revisions|
    && ReadsAs(db.kinds[kind].revisions[revision], recipe)
  }

  /** A count of another day than the statement's is over. */
  predicate QuotaLeft(db: Db, actor: nat, limit: nat, day: nat) {
    actor in db.quotas && (db.quotas[actor].day != day || db.quotas[actor].used < limit)
  }

  predicate TakesThings(db: Db, place: nat, actor: nat) {
    place < |db.places| && !db.places[place].retired && actor in db.places[place].welcome
  }

  predicate Valid(db: Db, request: Request, revision: nat, recipe: seq<Requirement>) {
    && Distinct(request.ids)
    && (forall i | 0 <= i < |request.ids| :: Usable(db, request.ids[i], request.actor, request.place))
    && TakesThings(db, request.place, request.actor) && db.places[request.place].owned
    && Current(db, request.kind, revision, recipe)
    && FullJoinAgrees(recipe, Kinds(IngredientKinds(db, request.ids)))
    && AllKnown(db, recipe)
  }

  /** The statement's day is the one it began on, which may be earlier than today. */
  predicate CanCommit(db: Db, request: Request, revision: nat, recipe: seq<Requirement>, limit: nat, day: nat) {
    && limit >= 1 && day <= db.today
    && Valid(db, request, revision, recipe) && QuotaLeft(db, request.actor, limit, day)
  }

  function Withdrawn(things: seq<Thing>, ids: seq<nat>): seq<Thing> {
    seq(|things|, i requires 0 <= i < |things| => if i in ids then things[i].(withdrawn := true) else things[i])
  }

  function Withdrawals(ids: seq<nat>, output: nat): seq<Withdrawal> {
    seq(|ids|, i requires 0 <= i < |ids| => Withdrawal(ids[i], output))
  }

  function Spent(counter: Counter, day: nat): Counter {
    if counter.day == day then Counter(day, counter.used + 1) else Counter(day, 1)
  }

  function CommitDb(db: Db, request: Request, revision: nat, recipe: seq<Requirement>, limit: nat, day: nat): Db {
    if CanCommit(db, request, revision, recipe, limit, day) then
      var actor := request.actor;
      var output := |db.things|;
      var thing := Thing(actor, request.place, Some(request.kind), false, false, false);
      db.(
        things := Withdrawn(db.things, request.ids) + [thing],
        quotas := db.quotas[actor := Spent(db.quotas[actor], day)],
        charges := db.charges + [Charge(actor, day)],
        crafts := db.crafts + [Craft(actor, request.kind, output, request.ids, recipe, day)],
        withdrawals := db.withdrawals + Withdrawals(request.ids, output))
    else db
  }

  // ----- runs

  datatype Op =
    | NextDay
    | Join(resident: nat)
    | Login(resident: nat, day: nat)
    | AddKind(name: string, candidates: seq<Candidate>)
    | Revise(kind: nat, candidates: seq<Candidate>)
    | SetPlace(place: nat, placed: Place)
    | Make(thing: Thing, hold: Option<nat>)
    | Change(id: nat, changed: Thing)
    | Commit(request: Request, revision: nat, recipe: seq<Requirement>, hold: Option<nat>, day: nat)

  function Limit(hold: Option<nat>): nat {
    if hold.Some? then Min(hold.value, QUOTA) else QUOTA
  }

  /** Every other way to make a thing: one more on the counter as it stands. */
  function MakeDb(db: Db, thing: Thing, limit: nat): Db {
    if thing.owner in db.quotas && db.quotas[thing.owner].used < limit then
      var counter := db.quotas[thing.owner];
      db.(
        things := db.things + [thing],
        quotas := db.quotas[thing.owner := Counter(counter.day, counter.used + 1)],
        charges := db.charges + [Charge(thing.owner, counter.day)])
    else db
  }

  /** Reading a resident's credentials: the request names the day it was sent on. */
  function LoginDb(db: Db, resident: nat, day: nat): Db {
    if resident in db.quotas && day <= db.today && db.quotas[resident].day != day
    then db.(quotas := db.quotas[resident := Counter(day, 0)]) else db
  }

  function Apply(db: Db, op: Op): Db {
    match op
    case NextDay => db.(today := db.today + 1)
    case Join(resident) =>
      if resident in db.quotas then db else db.(quotas := db.quotas[resident := Counter(db.today, 0)])
    case Login(resident, day) => LoginDb(db, resident, day)
    case AddKind(name, candidates) => db.(kinds := db.kinds + [Kind(name, [candidates])])
    case Revise(kind, candidates) =>
      if kind < |db.kinds|
      then db.(kinds := db.kinds[kind := Kind(db.kinds[kind].name, db.kinds[kind].revisions + [candidates])]) else db
    case SetPlace(place, placed) =>
      if place < |db.places| then db.(places := db.places[place := placed]) else db.(places := db.places + [placed])
    case Make(thing, hold) => MakeDb(db, thing, Limit(hold))
    // a withdrawn thing is never changed again
    case Change(id, changed) =>
      if id < |db.things| && !db.things[id].withdrawn then db.(things := db.things[id := changed]) else db
    case Commit(request, revision, recipe, hold, day) =>
      CommitDb(db, request, revision, recipe, Limit(hold), day)
  }

  function Run(db: Db, ops: seq<Op>): Db
    decreases |ops|
  {
    if ops == [] then db else Run(Apply(db, ops[0]), ops[1..])
  }

  // ----- the invariant

  /** What a resident made that was charged to one day's counter. */
  function Charged(charges: seq<Charge>, resident: nat, day: nat): nat {
    if charges == [] then 0
    else
      var last := charges[|charges| - 1];
      Charged(charges[..|charges| - 1], resident, day) + (if last == Charge(resident, day) then 1 else 0)
  }

  /** No thing is consumed twice, and what is consumed stays withdrawn. */
  ghost predicate ConsumedOnce(db: Db) {
    && (forall i, j :: 0 <= i < j < |db.withdrawals| ==> db.withdrawals[i].thing != db.withdrawals[j].thing)
    && (forall i :: 0 <= i < |db.withdrawals| ==>
         db.withdrawals[i].thing < |db.things| && db.things[db.withdrawals[i].thing].withdrawn)
  }

  function AllWithdrawals(crafts: seq<Craft>): seq<Withdrawal> {
    if crafts == [] then []
    else
      var last := crafts[|crafts| - 1];
      AllWithdrawals(crafts[..|crafts| - 1]) + Withdrawals(last.ids, last.output)
  }

  ghost predicate Logged(db: Db) {
    && db.withdrawals == AllWithdrawals(db.crafts)
    && (forall i, j :: 0 <= i < j < |db.crafts| ==> db.crafts[i].output < db.crafts[j].output)
    && (forall i :: 0 <= i < |db.crafts| ==> db.crafts[i].output < |db.things|)
  }

  function CraftsOn(crafts: seq<Craft>, resident: nat, day: nat): nat {
    if crafts == [] then 0
    else
      var last := crafts[|crafts| - 1];
      CraftsOn(crafts[..|crafts| - 1], resident, day) + (if last.actor == resident && last.day == day then 1 else 0)
  }

  ghost predicate CraftsCharged(db: Db) {
    forall r: nat, day: nat :: CraftsOn(db.crafts, r, day) <= Charged(db.charges, r, day)
  }

  ghost predicate Inv(db: Db) {
    && ConsumedOnce(db) && Logged(db) && CraftsCharged(db)
    && forall i :: 0 <= i < |db.kinds| ==> db.kinds[i].revisions != []
  }

  lemma ChargedNext(charges: seq<Charge>, charge: Charge, resident: nat, day: nat)
    ensures Charged(charges + [charge], resident, day)
         == Charged(charges, resident, day) + (if charge == Charge(resident, day) then 1 else 0)
  {
    assert (charges + [charge])[..|charges|] == charges;
  }

  lemma CraftsNext(crafts: seq<Craft>, craft: Craft, resident: nat, day: nat)
    ensures CraftsOn(crafts + [craft], resident, day)
         == CraftsOn(crafts, resident, day) + (if craft.actor == resident && craft.day == day then 1 else 0)
    ensures AllWithdrawals(crafts + [craft]) == AllWithdrawals(crafts) + Withdrawals(craft.ids, craft.output)
  {
    assert (crafts + [craft])[..|crafts|] == crafts;
  }

  /**
   A commit is all or nothing: it changes nothing, or the ingredients were exactly the recipe,
   all of them and nothing else are withdrawn, one thing of the kind is added for the actor and
   one unit of the day's quota is spent.
   */
  lemma CommitAllOrNothing(
    db: Db, request: Request, revision: nat, recipe: seq<Requirement>, limit: nat, day: nat)
    requires WellFormed(recipe)
    ensures var next := CommitDb(db, request, revision, recipe, limit, day);
      || next == db
      || (&& HaveKinds(IngredientKinds(db, request.ids)) && Kinds(IngredientKinds(db, request.ids)) == Bag(recipe)
          && |next.things| == |db.things| + 1
          && (var made := next.things[|db.things|];
              && made.owner == request.actor && made.place == request.place && made.kind == Some(request.kind)
              && !made.withdrawn && !made.held && !made.offered)
          && (forall i :: 0 <= i < |db.things| ==>
                if i in request.ids then !db.things[i].withdrawn && next.things[i] == db.things[i].(withdrawn := true)
                else next.things[i] == db.things[i])
          && request.actor in db.quotas && request.actor in next.quotas && next.quotas[request.actor].day == day
          && next.quotas[request.actor].used
             == 1 + (if db.quotas[request.actor].day == day then db.quotas[request.actor].used else 0)
          && next.charges == db.charges + [Charge(request.actor, day)]
          && |next.crafts| == |db.crafts| + 1 && next.crafts[..|db.crafts|] == db.crafts
          && next.crafts[|db.crafts|] == Craft(request.actor, request.kind, |db.things|, request.ids, recipe, day)
          && |next.withdrawals| == |db.withdrawals| + |request.ids|
          && (forall i :: 0 <= i < |db.withdrawals| ==> next.withdrawals[i] == db.withdrawals[i])
          && (forall i :: 0 <= i < |request.ids| ==>
                next.withdrawals[|db.withdrawals| + i] == Withdrawal(request.ids[i], |db.things|)))
  {
    hide Bag, FullJoinAgrees, WellFormed;
    FullJoinIsEquality(recipe, Kinds(IngredientKinds(db, request.ids)));
    if CanCommit(db, request, revision, recipe, limit, day) {
      forall id | id in request.ids ensures id < |db.things| && !db.things[id].withdrawn {
        var i :| 0 <= i < |request.ids| && request.ids[i] == id;
        assert Usable(db, request.ids[i], request.actor, request.place);
      }
      forall i | 0 <= i < |request.ids| ensures IngredientKinds(db, request.ids)[i].Some? {
        assert Usable(db, request.ids[i], request.actor, request.place);
      }
    }
  }

  /** A thing the actor has at hand: nothing else may become an ingredient. */
  predicate AtHand(db: Db, id: nat, actor: nat, place: nat) {
    && id < |db.things| && db.things[id].owner == actor && db.things[id].place == place
    && !db.things[id].withdrawn && !db.things[id].held && !db.things[id].offered
    && db.things[id].kind.Some? && db.things[id].kind.value < |db.kinds|
  }

  /** Every kind the recipe names exists, in any letter case. */
  ghost predicate KindsExist(db: Db, recipe: seq<Requirement>) {
    forall i :: 0 <= i < |recipe| ==> exists k :: 0 <= k < |db.kinds| && LowerCase(db.kinds[k].name) == recipe[i].kind
  }

  /** Exactly what a commit asks of the rows it locks. */
  lemma CommitsExactly(db: Db, request: Request, revision: nat, recipe: seq<Requirement>, limit: nat, day: nat)
    requires WellFormed(recipe)
    ensures CanCommit(db, request, revision, recipe, limit, day) <==>
      && limit >= 1 && day <= db.today
      && (forall i, j :: 0 <= i < j < |request.ids| ==> request.ids[i] != request.ids[j])
      && (forall i :: 0 <= i < |request.ids| ==> AtHand(db, request.ids[i], request.actor, request.place))
      && request.place < |db.places| && !db.places[request.place].retired && db.places[request.place].owned
      && request.actor in db.places[request.place].welcome
      && request.kind < |db.kinds| && |db.kinds[request.kind].revisions| == revision + 1
      && ReadsAs(db.kinds[request.kind].revisions[revision], recipe)
      && KindsExist(db, recipe) && Kinds(IngredientKinds(db, request.ids)) == Bag(recipe)
      && request.actor in db.quotas
      && (db.quotas[request.actor].day == day ==> db.quotas[request.actor].used < limit)
  {
    hide Bag, Kinds, FullJoinAgrees, WellFormed, ReadsAs, IngredientKinds;
    FullJoinIsEquality(recipe, Kinds(IngredientKinds(db, request.ids)));
  }

  /** New withdrawals of distinct things that were not withdrawn before. */
  lemma ConsumedOnceMore(db: Db, next: Db, ids: seq<nat>, output: nat)
    requires ConsumedOnce(db) && Distinct(ids) && next.withdrawals == db.withdrawals + Withdrawals(ids, output)
    requires forall i :: 0 <= i < |ids| ==> ids[i] < |db.things| && !db.things[ids[i]].withdrawn
    requires |db.things| <= |next.things|
    requires forall id :: 0 <= id < |db.things| && (db.things[id].withdrawn || id in ids) ==> next.things[id].withdrawn
    ensures ConsumedOnce(next)
  {
    var n := |db.withdrawals|;
    forall i | 0 <= i < |next.withdrawals|
      ensures next.withdrawals[i].thing < |next.things| && next.things[next.withdrawals[i].thing].withdrawn
    {
      if i < n {
        assert next.withdrawals[i] == db.withdrawals[i];
      } else {
        assert next.withdrawals[i].thing == ids[i - n];
      }
    }
    forall i, j | 0 <= i < j < |next.withdrawals| ensures next.withdrawals[i].thing != next.withdrawals[j].thing {
      if n <= j {
        assert next.withdrawals[j].thing == ids[j - n];
      }
      if n <= i {
        assert next.withdrawals[i].thing == ids[i - n];
      } else {
        assert next.withdrawals[i] == db.withdrawals[i];
      }
    }
  }

  lemma CommitConsumes(
    db: Db, request: Request, revision: nat, recipe: seq<Requirement>, limit: nat, day: nat)
    requires Inv(db) && CanCommit(db, request, revision, recipe, limit, day)
    ensures ConsumedOnce(CommitDb(db, request, revision, recipe, limit, day))
  {
    hide Logged, CraftsCharged, FullJoinAgrees, Current, AllKnown, QuotaLeft, TakesThings, ConsumedOnce, Withdrawals;
    forall i | 0 <= i < |request.ids| ensures request.ids[i] < |db.things| && !db.things[request.ids[i]].withdrawn {
      assert Usable(db, request.ids[i], request.actor, request.place);
    }
    ConsumedOnceMore(db, CommitDb(db, request, revision, recipe, limit, day), request.ids, |db.things|);
  }

  lemma CommitInv(db: Db, request: Request, revision: nat, recipe: seq<Requirement>, limit: nat, day: nat)
    requires Inv(db) && CanCommit(db, request, revision, recipe, limit, day)
    ensures Inv(CommitDb(db, request, revision, recipe, limit, day))
  {
    hide Charged, ConsumedOnce, CraftsOn, AllWithdrawals, Valid;
    var next := CommitDb(db, request, revision, recipe, limit, day);
    CommitConsumes(db, request, revision, recipe, limit, day);
    var craft := next.crafts[|db.crafts|];
    forall r: nat, d: nat ensures CraftsOn(next.crafts, r, d) <= Charged(next.charges, r, d) {
      ChargedNext(db.charges, Charge(request.actor, day), r, d);
      CraftsNext(db.crafts, craft, r, d);
      assert CraftsOn(db.crafts, r, d) <= Charged(db.charges, r, d);
    }
    CraftsNext(db.crafts, craft, 0, 0);
  }

  lemma MakeInv(db: Db, thing: Thing, limit: nat)
    requires Inv(db)
    ensures Inv(MakeDb(db, thing, limit))
  {
    hide Charged, CraftsOn, AllWithdrawals;
    var next := MakeDb(db, thing, limit);
    if next != db {
      forall r: nat, day: nat ensures CraftsOn(next.crafts, r, day) <= Charged(next.charges, r, day) {
        ChargedNext(db.charges, Charge(thing.owner, db.quotas[thing.owner].day), r, day);
        assert CraftsOn(db.crafts, r, day) <= Charged(db.charges, r, day);
      }
    }
  }

  /** What changes neither logs nor withdrawn things keeps their invariants. */
  lemma SameLogs(db: Db, next: Db)
    requires ConsumedOnce(db) && Logged(db) && CraftsCharged(db)
    requires next.withdrawals == db.withdrawals && next.crafts == db.crafts && next.charges == db.charges
    requires |db.things| <= |next.things|
    requires forall i :: 0 <= i < |db.things| && db.things[i].withdrawn ==> next.things[i].withdrawn
    ensures ConsumedOnce(next) && Logged(next) && CraftsCharged(next)
  {
    forall r: nat, day: nat ensures CraftsOn(next.crafts, r, day) <= Charged(next.charges, r, day) {
      assert CraftsOn(db.crafts, r, day) <= Charged(db.charges, r, day);
    }
  }

  lemma OtherInv(db: Db, op: Op)
    requires Inv(db) && !op.Make? && !op.Commit?
    ensures Inv(Apply(db, op))
  {
    hide AllWithdrawals, CraftsOn, Charged, ConsumedOnce, Logged, CraftsCharged;
    SameLogs(db, Apply(db, op));
  }

  lemma ApplyInv(db: Db, op: Op)
    requires Inv(db)
    ensures Inv(Apply(db, op))
  {
    hide Inv, CanCommit;
    if op.Make? {
      MakeInv(db, op.thing, Limit(op.hold));
    } else if op.Commit? {
      if CanCommit(db, op.request, op.revision, op.recipe, Limit(op.hold), op.day) {
        CommitInv(db, op.request, op.revision, op.recipe, Limit(op.hold), op.day);
      }
    } else {
      OtherInv(db, op);
    }
  }

  lemma {:induction false} RunInv(db: Db, ops: seq<Op>)
    requires Inv(db)
    ensures Inv(Run(db, ops))
    decreases |ops|
  {
    hide Inv, Apply;
    if ops != [] {
      ApplyInv(db, ops[0]);
      RunInv(Apply(db, ops[0]), ops[1..]);
    }
  }

  lemma EmptyInv()
    ensures Inv(EMPTY)
  {
  }

  /**
   In every run no thing is consumed twice and what is consumed stays withdrawn, every withdrawal
   belongs to one craft, and every craft is charged to the day its statement began on.
   */
  lemma CraftingSafety(ops: seq<Op>, resident: nat, day: nat)
    ensures var db := Run(EMPTY, ops);
      && ConsumedOnce(db) && db.withdrawals == AllWithdrawals(db.crafts)
      && CraftsOn(db.crafts, resident, day) <= Charged(db.charges, resident, day)
  {
    EmptyInv();
    RunInv(EMPTY, ops);
    var db := Run(EMPTY, ops);
    assert CraftsCharged(db);
  }

  // ----- the reads before the commit

  predicate Held(db: Db, ids: seq<nat>) {
    exists i | 0 <= i < |ids| :: ids[i] < |db.things| && db.things[ids[i]].held
  }

  predicate Eligible(db: Db, id: nat, actor: nat, place: nat)
    requires id < |db.things|
  {
    var thing := db.things[id];
    thing.owner == actor && thing.place == place && !thing.withdrawn && !thing.offered && KindName(db, thing).Some?
  }

  /** `allIngredientsEligible`, on the rows that were found. */
  predicate AllEligible(db: Db, ids: seq<nat>, actor: nat, place: nat) {
    forall i | 0 <= i < |ids| && ids[i] < |db.things| :: Eligible(db, ids[i], actor, place)
  }

  predicate AllFound(db: Db, ids: seq<nat>) {
    forall i | 0 <= i < |ids| :: ids[i] < |db.things|
  }

  predicate PlaceAccepts(db: Db, place: nat, actor: nat) {
    TakesThings(db, place, actor) && !db.places[place].root
  }

  /** What the reads of `craftKindThing` accept. */
  ghost predicate ReadsAccept(db: Db, request: Request, recipe: seq<Requirement>) {
    && request.kind < |db.kinds| && db.kinds[request.kind].revisions != []
    && Current(db, request.kind, |db.kinds[request.kind].revisions| - 1, recipe) && WellFormed(recipe)
    && PlaceAccepts(db, request.place, request.actor)
    && AllKnown(db, recipe)
    && !Held(db, request.ids) && AllEligible(db, request.ids, request.actor, request.place) && AllFound(db, request.ids)
    && Kinds(IngredientKinds(db, request.ids)) == Bag(recipe)
  }

  /**
   What the reads accept the commit accepts as well, when nothing changed in between, exactly if
   quota is left and the place has an owner, which only the commit asks.
   */
  lemma ReadsPredictCommit(db: Db, request: Request, recipe: seq<Requirement>, limit: nat, day: nat)
    requires ReadsAccept(db, request, recipe) && Distinct(request.ids) && limit >= 1 && day <= db.today
    ensures CanCommit(db, request, |db.kinds[request.kind].revisions| - 1, recipe, limit, day)
       <==> db.places[request.place].owned && QuotaLeft(db, request.actor, limit, day)
  {
    hide Bag, Kinds, FullJoinAgrees, WellFormed;
    FullJoinIsEquality(recipe, Kinds(IngredientKinds(db, request.ids)));
    forall i | 0 <= i < |request.ids| ensures Usable(db, request.ids[i], request.actor, request.place) {
      assert Eligible(db, request.ids[i], request.actor, request.place);
    }
  }

  lemma Predicted(db: Db, request: Request, recipe: seq<Requirement>, limit: nat, day: nat)
    requires Distinct(request.ids) && limit >= 1 && WellFormed(recipe) && day <= db.today
    ensures ReadsAccept(db, request, recipe) ==>
      var committed := CanCommit(db, request, |db.kinds[request.kind].revisions| - 1, recipe, limit, day);
      committed <==> db.places[request.place].owned && QuotaLeft(db, request.actor, limit, day)
    ensures forall revision: nat :: CanCommit(db, request, revision, recipe, limit, day) ==>
      && request.kind < |db.kinds| && revision + 1 == |db.kinds[request.kind].revisions|
      && Kinds(IngredientKinds(db, request.ids)) == Bag(recipe)
  {
    FullJoinIsEquality(recipe, Kinds(IngredientKinds(db, request.ids)));
    hide Bag, Kinds, FullJoinAgrees, WellFormed;
    if ReadsAccept(db, request, recipe) {
      ReadsPredictCommit(db, request, recipe, limit, day);
    }
  }

  /** Exactly what the reads ask of the rows they see. */
  lemma ReadsExactly(db: Db, request: Request, recipe: seq<Requirement>)
    ensures ReadsAccept(db, request, recipe) <==>
      && request.kind < |db.kinds| && db.kinds[request.kind].revisions != []
      && ReadsAs(db.kinds[request.kind].revisions[|db.kinds[request.kind].revisions| - 1], recipe) && WellFormed(recipe)
      && request.place < |db.places| && !db.places[request.place].root && !db.places[request.place].retired
      && request.actor in db.places[request.place].welcome
      && KindsExist(db, recipe)
      && (forall i :: 0 <= i < |request.ids| ==> AtHand(db, request.ids[i], request.actor, request.place))
      && Kinds(IngredientKinds(db, request.ids)) == Bag(recipe)
  {
    hide Bag, Kinds, WellFormed, ReadsAs, IngredientKinds;
  }

  /** A place without an owner that still takes the resident's things, and a kind made from nothing. */
  const UNOWNED := Db(0, [], [Kind("token", [[]])], [Place(false, false, false, {1})],
    map[1 := Counter(0, 0)], [], [], [])

  lemma UnownedPlaceRefused()
    ensures ReadsAccept(UNOWNED, Request(1, 0, 0, []), [])
    ensures forall limit, day :: !CanCommit(UNOWNED, Request(1, 0, 0, []), 0, [], limit, day)
  {
    assert IngredientKinds(UNOWNED, []) == [];
  }

  lemma OneReading(candidates: seq<Candidate>, a: seq<Requirement>, b: seq<Requirement>)
    requires ReadsAs(candidates, a) && ReadsAs(candidates, b)
    ensures a == b
  {
    forall i | 0 <= i < |a| ensures a[i] == b[i] {
      assert Reads(candidates[i], a[i]) && Reads(candidates[i], b[i]);
    }
  }

  ghost predicate Accepted(db: Db, request: Request) {
    exists found :: ReadsAccept(db, request, found)
  }

  /** What an undisturbed call answers in this state: no state allows two of these. */
  ghost predicate CraftOutcome(db: Db, request: Request, valid: bool, limit: nat, r: CraftResult) {
    var seen := request.kind < |db.kinds| && request.place < |db.places|;
    match r
    case BadRequest => !valid || limit < 1
    case NotFound =>
      valid && limit >= 1 && (!seen || (Accepted(db, request) && request.actor !in db.quotas))
    case Forbidden => valid && limit >= 1 && seen && db.places[request.place].root
    case TooMany =>
      && valid && limit >= 1 && Accepted(db, request) && request.actor in db.quotas
      && db.quotas[request.actor].day == db.today && db.quotas[request.actor].used >= limit
    case Conflict =>
      && valid && limit >= 1 && seen && !db.places[request.place].root
      && (Accepted(db, request) ==>
           && request.actor in db.quotas && QuotaLeft(db, request.actor, limit, db.today)
           && !db.places[request.place].owned)
    case Crafted(thing) =>
      && valid && limit >= 1 && Accepted(db, request) && request.place < |db.places| && db.places[request.place].owned
      && QuotaLeft(db, request.actor, limit, db.today) && thing == |db.things|
  }

  datatype CraftResult = Crafted(thing: nat) | BadRequest | NotFound | Forbidden | Conflict | TooMany

  class Workshop {
    var today: nat
    var things: seq<Thing>
    var kinds: seq<Kind>
    var places: seq<Place>
    var quotas: map<nat, Counter>
    var charges: seq<Charge>
    var crafts: seq<Craft>
    var withdrawals: seq<Withdrawal>
    /** What others do before each of our statements. */
    var turns: seq<seq<Op>>
    /** Commits of this worker's own that changed the database. */
    ghost var made: nat

    function State(): Db
      reads this`today, this`things, this`kinds, this`places, this`quotas, this`charges, this`crafts, this`withdrawals
    {
      Db(today, things, kinds, places, quotas, charges, crafts, withdrawals)
    }

    constructor (schedule: seq<seq<Op>>)
      ensures State() == EMPTY && Inv(State()) && turns == schedule && made == 0
    {
      today, things, kinds, places, quotas := 0, [], [], [], map[];
      charges, crafts, withdrawals, turns, made := [], [], [], schedule, 0;
      new;
      EmptyInv();
    }

    method Become(next: Db)
      modifies this`today, this`things, this`kinds, this`places, this`quotas,
        this`charges, this`crafts, this`withdrawals
      ensures State() == next
    {
      today, things, kinds, places, quotas := next.today, next.things, next.kinds, next.places, next.quotas;
      charges, crafts, withdrawals := next.charges, next.crafts, next.withdrawals;
    }

    method Others()
      requires Inv(State())
      modifies this
      ensures Inv(State()) && made == old(made)
      ensures State() == Run(old(State()), if old(turns) == [] then [] else old(turns)[0])
      ensures turns == if old(turns) == [] then [] else old(turns)[1..]
      ensures old(today) <= today
    {
      TodayGrows(State(), if turns == [] then [] else turns[0]);
      hide Inv, Apply;
      var ops := if turns == [] then [] else turns[0];
      if turns != [] {
        turns := turns[1..];
      }
      ghost var last := Run(State(), ops);
      var k := 0;
      while k < |ops|
        invariant 0 <= k <= |ops|
        invariant Inv(State()) && Run(State(), ops[k..]) == last && made == old(made)
        invariant turns == if old(turns) == [] then [] else old(turns)[1..]
      {
        assert ops[k..][1..] == ops[k + 1..];
        ApplyInv(State(), ops[k]);
        Become(Apply(State(), ops[k]));
        k := k + 1;
      }
    }

    /** The commit statement: quota, output, withdrawals and events at once, or nothing. */
    method CommitStatement(request: Request, revision: nat, recipe: seq<Requirement>, limit: nat, day: nat)
      returns (output: Option<nat>)
      requires Inv(State()) && day <= today
      modifies this`things, this`quotas, this`charges, this`crafts, this`withdrawals, this`made
      ensures Inv(State())
      ensures State() == CommitDb(old(State()), request, revision, recipe, limit, day)
      ensures output ==
        if CanCommit(old(State()), request, revision, recipe, limit, day) then Some(|old(things)|) else None
      ensures made == old(made) + (if output.Some? then 1 else 0)
      ensures output.None? ==> State() == old(State())
    {
      hide Inv, Valid;
      if limit < 1 || !Valid(State(), request, revision, recipe) { return None; }
      if !QuotaLeft(State(), request.actor, limit, day) { return None; }
      CommitInv(State(), request, revision, recipe, limit, day);
      var actor, spent := request.actor, quotas[request.actor];
      output := Some(|things|);
      quotas := quotas[actor := if spent.day == day then Counter(day, spent.used + 1) else Counter(day, 1)];
      charges := charges + [Charge(actor, day)];
      crafts := crafts + [Craft(actor, request.kind, |things|, request.ids, recipe, day)];
      withdrawals := withdrawals + Withdrawals(request.ids, |things|);
      var thing := Thing(actor, request.place, Some(request.kind), false, false, false);
      things := Withdrawn(things, request.ids) + [thing];
      made := made + 1;
    }

    /** The ingredient reads, which classify what is wrong. */
    method IngredientsMatch(recipe: seq<Requirement>, request: Request) returns (r: bool)
      requires WellFormed(recipe)
      ensures r <==>
        && !Held(State(), request.ids) && AllEligible(State(), request.ids, request.actor, request.place)
        && AllFound(State(), request.ids) && Kinds(IngredientKinds(State(), request.ids)) == Bag(recipe)
    {
      hide WellFormed, Bag, Kinds;
      if Held(State(), request.ids) { return false; }
      if !AllEligible(State(), request.ids, request.actor, request.place) { return false; }
      if !AllFound(State(), request.ids) { return false; }
      forall i | 0 <= i < |request.ids| ensures IngredientKinds(State(), request.ids)[i].Some? {
        assert Eligible(State(), request.ids[i], request.actor, request.place);
      }
      r := ExactRecipeMatch(recipe, IngredientKinds(State(), request.ids));
    }

    /** The reads of `craftKindThing`, which refuse most requests with a useful answer. */
    method ReadAndClassify(request: Request)
      returns (refusal: Option<CraftResult>, revision: nat, recipe: seq<Requirement>)
      requires Inv(State())
      modifies this
      ensures Inv(State()) && made == old(made)
      ensures refusal.Some? ==> !refusal.value.Crafted?
      ensures refusal.None? ==> WellFormed(recipe)
      ensures old(today) <= today
      ensures old(turns) == [] ==> State() == old(State()) && turns == []
      ensures old(turns) == [] && refusal.None? ==>
        ReadsAccept(State(), request, recipe) && revision + 1 == |kinds[request.kind].revisions|
      ensures old(turns) == [] && refusal.Some? ==> forall found :: !ReadsAccept(State(), request, found)
      ensures old(turns) == [] ==>
        && (refusal == Some(NotFound) <==> request.kind >= |kinds| || request.place >= |places|)
        && (refusal == Some(Forbidden) <==>
             request.kind < |kinds| && request.place < |places| && places[request.place].root)
      ensures refusal.Some? ==> refusal.value.NotFound? || refusal.value.Forbidden? || refusal.value.Conflict?
    {
      hide Inv, WellFormed, Bag, Kinds, AllKnown, Held, AllEligible, AllFound, IngredientKinds;
      revision, recipe := 0, [];
      Others();
      if request.kind >= |kinds| { return Some(NotFound), revision, recipe; }
      HasRevision(State(), request.kind);
      revision := |kinds[request.kind].revisions| - 1;
      var candidates := kinds[request.kind].revisions[revision];
      Others();
      var place := request.place;
      if place >= |places| { return Some(NotFound), revision, recipe; }
      if places[place].root { return Some(Forbidden), revision, recipe; }
      if places[place].retired || request.actor !in places[place].welcome { return Some(Conflict), revision, recipe; }
      var parsed := ParseKindRecipe(candidates);
      if parsed.None? { return Some(Conflict), revision, recipe; }
      recipe := parsed.value;
      forall other | ReadsAs(candidates, other) ensures other == recipe {
        OneReading(candidates, other, recipe);
      }
      if |recipe| > 0 {
        Others();
        if !AllKnown(State(), recipe) { return Some(Conflict), revision, recipe; }
      } else {
        NothingUnknown(State());
      }
      Others();
      var matches := IngredientsMatch(recipe, request);
      refusal := if matches then None else Some(Conflict);
    }

    /**
     `craftKindThing`. When it answers with a thing, one commit of this call was made: at that
     moment (`at`) the named ingredients were exactly the kind's current recipe. Any other answer
     leaves nothing behind. Undisturbed, it answers with a thing exactly when the reads accept
     the request, the place has an owner and quota is left. The commit's day is one between its
     start and its end.
     */
    method CraftKindThing(actor: nat, kind: nat, place: nat, slots: seq<Slot>, hold: Option<nat>)
      returns (r: CraftResult, ghost at: Db, ghost request: Request, ghost recipe: seq<Requirement>, ghost day: nat)
      requires Inv(State())
      modifies this
      ensures Inv(State())
      ensures made == old(made) + (if r.Crafted? then 1 else 0)
      ensures r.Crafted? ==>
        && ValidIdList(slots) && request == Request(actor, kind, place, Ids(slots)) && old(today) <= day <= at.today
        && WellFormed(recipe) && kind < |at.kinds| && at.kinds[kind].revisions != []
        && CanCommit(at, request, |at.kinds[kind].revisions| - 1, recipe, Limit(hold), day)
        && State() == CommitDb(at, request, |at.kinds[kind].revisions| - 1, recipe, Limit(hold), day)
        && Kinds(IngredientKinds(at, request.ids)) == Bag(recipe) && r.thing == |at.things|
      ensures old(turns) == [] ==>
        (r.Crafted? <==>
          && ValidIdList(slots) && Limit(hold) >= 1 && QuotaLeft(old(State()), actor, Limit(hold), old(today))
          && (exists found :: ReadsAccept(old(State()), Request(actor, kind, place, Ids(slots)), found))
          && old(places)[place].owned)
      ensures old(turns) == [] ==>
        CraftOutcome(old(State()), Request(actor, kind, place, Ids(slots)), ValidIdList(slots), Limit(hold), r)
    {
      hide Inv, WellFormed, Bag, Kinds, CanCommit, CommitDb, ReadsAccept, Run;
      at, recipe, day := State(), [], today;
      request := Request(actor, kind, place, []);
      var ids := IngredientIdList(slots);
      var limit := Limit(hold);
      if ids.None? || limit < 1 { return BadRequest, at, request, recipe, day; }
      var input := Request(actor, kind, place, ids.value);
      request := input;
      assert ids.value == Ids(slots);
      NoOpsRun(State());
      var refusal, revision, current := ReadAndClassify(input);
      recipe := current;
      if refusal.Some? { return refusal.value, at, request, recipe, day; }
      PlaceIsOpen(State(), input, current);
      NoOpsRun(State());
      var earliest := today;
      Others();
      var started :| earliest <= started <= today;
      at, day := State(), started;
      Predicted(at, input, current, limit, started);
      var output := CommitStatement(input, revision, current, limit, started);
      if output.Some? {
        return Crafted(output.value), at, request, recipe, day;
      }
      NoOpsRun(State());
      Others();
      if place < |places| && places[place].retired { return Conflict, at, request, recipe, day; }
      if actor !in quotas { return NotFound, at, request, recipe, day; }
      r := if QuotaLeft(State(), actor, limit, today) then Conflict else TooMany;
    }
  }

  lemma {:induction false} TodayGrows(db: Db, ops: seq<Op>)
    ensures db.today <= Run(db, ops).today
    decreases |ops|
  {
    if ops != [] {
      TodayGrows(Apply(db, ops[0]), ops[1..]);
    }
  }

  lemma NoOpsRun(db: Db)
    ensures Run(db, []) == db
  {
  }

  lemma PlaceIsOpen(db: Db, request: Request, recipe: seq<Requirement>)
    ensures ReadsAccept(db, request, recipe) ==>
      && request.kind < |db.kinds| && request.place < |db.places|
      && !db.places[request.place].retired && !db.places[request.place].root
  {
  }

  lemma NothingUnknown(db: Db)
    ensures AllKnown(db, [])
  {
  }

  lemma HasRevision(db: Db, kind: nat)
    requires Inv(db) && kind < |db.kinds|
    ensures db.kinds[kind].revisions != []
  {
  }
}
