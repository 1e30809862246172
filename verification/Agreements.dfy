/**
 The agreement statements of src/agreement-action.ts and their tables. Each statement reads a
 snapshot, which may be an earlier state, and writes to the current state under the tables'
 primary keys; the quota row it updates is read again under its lock. Agreements are named by
 their position, residents by their id, which stands for the handle too.
 */
module Agreements {
  import opened Common

  const QUOTA := 5

  /** The acts that the event log records and the daily counter counts. */
  datatype Act =
    | Created(resident: nat, agreement: nat, named: seq<nat>, open: bool, charged: nat, on: nat)
    | Opened(resident: nat, agreement: nat, charged: nat, on: nat)
    | Signed(resident: nat, agreement: nat, acceded: bool, charged: nat, on: nat)

  datatype Counter = Counter(day: nat, used: nat)

  datatype Party = Party(agreement: nat, resident: nat, named: bool)

  datatype Opening = Opening(agreement: nat, opener: nat)

  datatype Signature = Signature(agreement: nat, resident: nat)

  datatype Db = Db(
    today: nat,
    residents: map<nat, Counter>,
    creators: seq<nat>,
    parties: seq<Party>,
    openings: seq<Opening>,
    signatures: seq<Signature>,
    acts: seq<Act>)

  const EMPTY := Db(0, map[], [], [], [], [], [])

  // ----- reads

  predicate IsParty(p: Party, agreement: nat, resident: nat) {
    p.agreement == agreement && p.resident == resident
  }

  function FindParty(parties: seq<Party>, agreement: nat, resident: nat): (r: Option<nat>)
    ensures r.Some? ==> r.value < |parties| && IsParty(parties[r.value], agreement, resident)
    ensures r.None? ==> forall i :: 0 <= i < |parties| ==> !IsParty(parties[i], agreement, resident)
  {
    if parties == [] then None
    else
      var n := |parties| - 1;
      if IsParty(parties[n], agreement, resident) then Some(n) else FindParty(parties[..n], agreement, resident)
  }

  predicate IsOpened(openings: seq<Opening>, agreement: nat) {
    exists i | 0 <= i < |openings| :: openings[i].agreement == agreement
  }

  predicate HasOpening(db: Db, agreement: nat) {
    IsOpened(db.openings, agreement)
  }

  predicate HasSigned(db: Db, agreement: nat, resident: nat) {
    Signature(agreement, resident) in db.signatures
  }

  /** `dailyLimit`: the city cap, or a hold's lower number. */
  function Limit(hold: Option<nat>): nat {
    if hold.Some? then Min(hold.value, QUOTA) else QUOTA
  }

  predicate MaySpend(db: Db, resident: nat, limit: nat) {
    resident in db.residents && db.residents[resident].used < limit
  }

  function Spent(db: Db, resident: nat): Db
    requires resident in db.residents
  {
    var counter := db.residents[resident];
    db.(residents := db.residents[resident := Counter(counter.day, counter.used + 1)])
  }

  // ----- create

  predicate Distinct(ids: seq<nat>) {
    forall i, j :: 0 <= i < j < |ids| ==> ids[i] != ids[j]
  }

  /** The statement counts the distinct residents it finds against the handles it was given. */
  predicate AllKnown(db: Db, parties: seq<nat>) {
    Distinct(parties) && forall i :: 0 <= i < |parties| ==> parties[i] in db.residents
  }

  function NamedParties(agreement: nat, parties: seq<nat>): seq<Party> {
    seq(|parties|, i requires 0 <= i < |parties| => Party(agreement, parties[i], true))
  }

  predicate CanCreate(snap: Db, db: Db, actor: nat, parties: seq<nat>, limit: nat) {
    AllKnown(snap, parties) && MaySpend(db, actor, limit)
  }

  function CreateDb(snap: Db, db: Db, actor: nat, parties: seq<nat>, open: bool, limit: nat): Db {
    if CanCreate(snap, db, actor, parties, limit) then
      var id := |db.creators|;
      Spent(db, actor).(
        creators := db.creators + [actor],
        parties := db.parties + NamedParties(id, parties),
        openings := if open then db.openings + [Opening(id, actor)] else db.openings,
        acts := db.acts + [Created(actor, id, parties, open, db.residents[actor].day, db.today)])
    else db
  }

  // ----- open

  /** The insert skips an agreement that is open already; then nothing is spent. */
  predicate CanOpen(snap: Db, db: Db, actor: nat, agreement: nat, limit: nat) {
    && MaySpend(db, actor, limit)
    && agreement < |snap.creators| && snap.creators[agreement] == actor
    && !HasOpening(db, agreement)
  }

  function OpenDb(snap: Db, db: Db, actor: nat, agreement: nat, limit: nat): Db {
    if CanOpen(snap, db, actor, agreement, limit) then
      Spent(db, actor).(
        openings := db.openings + [Opening(agreement, actor)],
        acts := db.acts + [Opened(actor, agreement, db.residents[actor].day, db.today)])
    else db
  }

  // ----- sign

  datatype SignAnswer = NoRow | SignedNow(acceded: bool) | UniqueViolation

  /** The gate: the agreement is open, or the signer is a party of it already. */
  predicate Allowed(snap: Db, actor: nat, agreement: nat) {
    agreement < |snap.creators| && (HasOpening(snap, agreement) || FindParty(snap.parties, agreement, actor).Some?)
  }

  predicate Accedes(snap: Db, actor: nat, agreement: nat) {
    FindParty(snap.parties, agreement, actor).None?
  }

  function SignAnswered(snap: Db, db: Db, actor: nat, agreement: nat, limit: nat): SignAnswer {
    if !Allowed(snap, actor, agreement) || !MaySpend(db, actor, limit) then NoRow
    else if Accedes(snap, actor, agreement) && FindParty(db.parties, agreement, actor).Some? then UniqueViolation
    else if HasSigned(db, agreement, actor) then UniqueViolation
    else
      var member := FindParty(snap.parties, agreement, actor);
      SignedNow(member.None? || !snap.parties[member.value].named)
  }

  function SignDb(snap: Db, db: Db, actor: nat, agreement: nat, limit: nat): Db {
    var answer := SignAnswered(snap, db, actor, agreement, limit);
    if answer.SignedNow? then
      Spent(db, actor).(
        parties := if Accedes(snap, actor, agreement) then db.parties + [Party(agreement, actor, false)]
                   else db.parties,
        signatures := db.signatures + [Signature(agreement, actor)],
        acts := db.acts + [Signed(actor, agreement, answer.acceded, db.residents[actor].day, db.today)])
    else db
  }

  // ----- runs

  datatype Op =
    | NextDay
    | Join(resident: nat)
    | Login(resident: nat, day: nat)
    | Create(snapshot: nat, actor: nat, parties: seq<nat>, open: bool, hold: Option<nat>)
    | Open(snapshot: nat, actor: nat, agreement: nat, hold: Option<nat>)
    | Sign(snapshot: nat, actor: nat, agreement: nat, hold: Option<nat>)

  type History = h: seq<Db> | h != [] witness [EMPTY]

  function Now(h: History): Db {
    h[|h| - 1]
  }

  function Snapshot(h: History, snapshot: nat): Db {
    if snapshot < |h| then h[snapshot] else Now(h)
  }

  /**
   Reading a resident's credentials starts a new count unless the counter has the day that the
   request names. The request took its day when it was sent, so it may name an earlier one than
   today. A crafting commit does the same to this counter, with the day its statement began.
   */
  function LoginDb(db: Db, resident: nat, day: nat): Db {
    if resident in db.residents && day <= db.today && db.residents[resident].day != day
    then db.(residents := db.residents[resident := Counter(day, 0)])
    else db
  }

  function Apply(h: History, op: Op): Db {
    var db := Now(h);
    match op
    case NextDay => db.(today := db.today + 1)
    case Join(resident) =>
      if resident in db.residents then db else db.(residents := db.residents[resident := Counter(db.today, 0)])
    case Login(resident, day) => LoginDb(db, resident, day)
    case Create(snapshot, actor, parties, open, hold) =>
      CreateDb(Snapshot(h, snapshot), db, actor, parties, open, Limit(hold))
    case Open(snapshot, actor, agreement, hold) => OpenDb(Snapshot(h, snapshot), db, actor, agreement, Limit(hold))
    case Sign(snapshot, actor, agreement, hold) => SignDb(Snapshot(h, snapshot), db, actor, agreement, Limit(hold))
  }

  function Run(h: History, ops: seq<Op>): History
    decreases |ops|
  {
    if ops == [] then h else Run(h + [Apply(h, ops[0])], ops[1..])
  }

  // ----- the invariant of one state

  ghost predicate OneParty(parties: seq<Party>) {
    forall i, j :: 0 <= i < j < |parties| ==> !IsParty(parties[j], parties[i].agreement, parties[i].resident)
  }

  ghost predicate OneSignature(signatures: seq<Signature>) {
    forall i, j :: 0 <= i < j < |signatures| ==> signatures[i] != signatures[j]
  }

  ghost predicate OneOpening(openings: seq<Opening>) {
    forall i, j :: 0 <= i < j < |openings| ==> openings[i].agreement != openings[j].agreement
  }

  ghost predicate SignersAreParties(db: Db) {
    forall i :: 0 <= i < |db.signatures| ==>
      FindParty(db.parties, db.signatures[i].agreement, db.signatures[i].resident).Some?
  }

  /** Whoever was not named walked up: the agreement is open and the party has signed. */
  ghost predicate AccededSigned(db: Db) {
    forall i :: 0 <= i < |db.parties| && !db.parties[i].named ==>
      HasOpening(db, db.parties[i].agreement) && HasSigned(db, db.parties[i].agreement, db.parties[i].resident)
  }

  ghost predicate OpenedByCreator(db: Db) {
    forall i :: 0 <= i < |db.openings| ==>
      db.openings[i].agreement < |db.creators| && db.creators[db.openings[i].agreement] == db.openings[i].opener
  }

  ghost predicate PartiesOfAgreements(db: Db) {
    forall i :: 0 <= i < |db.parties| ==> db.parties[i].agreement < |db.creators|
  }

  /** The signatures that the log of acts tells of. */
  function LoggedSignatures(acts: seq<Act>): seq<Signature> {
    if acts == [] then []
    else
      var last := acts[|acts| - 1];
      LoggedSignatures(acts[..|acts| - 1]) + (if last.Signed? then [Signature(last.agreement, last.resident)] else [])
  }

  function LoggedCreators(acts: seq<Act>): seq<nat> {
    if acts == [] then []
    else
      var last := acts[|acts| - 1];
      LoggedCreators(acts[..|acts| - 1]) + (if last.Created? then [last.resident] else [])
  }

  /** An agreement is opened by an act of its own, or at its creation if it was asked to be open. */
  function LoggedOpenings(acts: seq<Act>): seq<Opening> {
    if acts == [] then []
    else
      var last := acts[|acts| - 1];
      var opening := if Opens(last, last.agreement) then [Opening(last.agreement, last.resident)] else [];
      LoggedOpenings(acts[..|acts| - 1]) + opening
  }

  predicate Opens(act: Act, agreement: nat) {
    act.agreement == agreement && (act.Opened? || (act.Created? && act.open))
  }

  /** The parties named at a creation, and those who signed without being named. */
  function LoggedParties(acts: seq<Act>): seq<Party> {
    if acts == [] then []
    else
      var last := acts[|acts| - 1];
      LoggedParties(acts[..|acts| - 1]) + PartiesOf(last)
  }

  function PartiesOf(act: Act): seq<Party> {
    match act
    case Created(_, agreement, named, _, _, _) =>
      seq(|named|, i requires 0 <= i < |named| => Party(agreement, named[i], true))
    case Signed(resident, agreement, acceded, _, _) => if acceded then [Party(agreement, resident, false)] else []
    case Opened(_, _, _, _) => []
  }

  /** Agreements, parties, openings and signatures are what the acts of the log made, in order. */
  ghost predicate Logged(db: Db) {
    && LoggedSignatures(db.acts) == db.signatures && LoggedCreators(db.acts) == db.creators
    && LoggedOpenings(db.acts) == db.openings && LoggedParties(db.acts) == db.parties
  }

  /** The log says "acceded" exactly for the signers who were not named. */
  ghost predicate LogTruthful(db: Db) {
    forall i :: 0 <= i < |db.acts| && db.acts[i].Signed? ==>
      Party(db.acts[i].agreement, db.acts[i].resident, !db.acts[i].acceded) in db.parties
  }

  ghost predicate Inv(db: Db) {
    && OneParty(db.parties) && OneSignature(db.signatures) && OneOpening(db.openings)
    && SignersAreParties(db) && AccededSigned(db) && OpenedByCreator(db) && PartiesOfAgreements(db)
    && Logged(db) && LogTruthful(db)
  }

  // ----- what later states keep

  ghost predicate Evolves(a: Db, b: Db) {
    && a.today <= b.today
    && a.residents.Keys <= b.residents.Keys
    && a.creators <= b.creators && a.parties <= b.parties && a.openings <= b.openings
    && a.signatures <= b.signatures && a.acts <= b.acts
    // an agreement's named parties are all there from the start
    && (forall i :: |a.parties| <= i < |b.parties| && b.parties[i].named ==> b.parties[i].agreement >= |a.creators|)
  }

  lemma EvolvesTransitive(a: Db, b: Db, c: Db)
    requires Evolves(a, b) && Evolves(b, c)
    ensures Evolves(a, c)
  {
  }

  ghost predicate Good(h: History) {
    && (forall i :: 0 <= i < |h| ==> Inv(h[i]))
    && (forall i, j :: 0 <= i <= j < |h| ==> Evolves(h[i], h[j]))
  }

  // ----- each step keeps the invariant

  lemma FoundInLonger(parties: seq<Party>, more: seq<Party>, agreement: nat, resident: nat)
    requires FindParty(parties, agreement, resident).Some?
    ensures FindParty(parties + more, agreement, resident).Some?
  {
    var i := FindParty(parties, agreement, resident).value;
    assert IsParty((parties + more)[i], agreement, resident);
  }

  lemma LoggedNext(acts: seq<Act>, act: Act)
    ensures LoggedSignatures(acts + [act])
         == LoggedSignatures(acts) + (if act.Signed? then [Signature(act.agreement, act.resident)] else [])
    ensures LoggedCreators(acts + [act]) == LoggedCreators(acts) + (if act.Created? then [act.resident] else [])
    ensures LoggedOpenings(acts + [act])
         == LoggedOpenings(acts) + (if Opens(act, act.agreement) then [Opening(act.agreement, act.resident)] else [])
    ensures LoggedParties(acts + [act]) == LoggedParties(acts) + PartiesOf(act)
  {
    assert (acts + [act])[..|acts|] == acts;
  }

  lemma CreateInv(snap: Db, db: Db, actor: nat, parties: seq<nat>, open: bool, limit: nat)
    requires Inv(db) && CanCreate(snap, db, actor, parties, limit) && limit <= QUOTA
    ensures Inv(CreateDb(snap, db, actor, parties, open, limit))
  {
    hide LoggedSignatures, LoggedCreators, LoggedOpenings, LoggedParties;
    var next := CreateDb(snap, db, actor, parties, open, limit);
    var id := |db.creators|;
    var act := Created(actor, id, parties, open, db.residents[actor].day, db.today);
    LoggedNext(db.acts, act);
    var rows := NamedParties(id, parties);
    forall i | 0 <= i < |next.signatures|
      ensures FindParty(next.parties, next.signatures[i].agreement, next.signatures[i].resident).Some?
    {
      FoundInLonger(db.parties, rows, db.signatures[i].agreement, db.signatures[i].resident);
    }
    OpeningsKept(db, next);
    assert OneParty(next.parties);
    assert OneOpening(next.openings);
  }

  lemma OpeningsKept(db: Db, next: Db)
    requires db.openings <= next.openings
    ensures forall agreement :: HasOpening(db, agreement) ==> HasOpening(next, agreement)
  {
    forall agreement | HasOpening(db, agreement) ensures HasOpening(next, agreement) {
      var i :| 0 <= i < |db.openings| && db.openings[i].agreement == agreement;
      assert next.openings[i].agreement == agreement;
    }
  }

  lemma OpenInv(snap: Db, db: Db, actor: nat, agreement: nat, limit: nat)
    requires Inv(db) && CanOpen(snap, db, actor, agreement, limit) && limit <= QUOTA && snap.creators <= db.creators
    ensures Inv(OpenDb(snap, db, actor, agreement, limit))
  {
    hide LoggedSignatures, LoggedCreators, LoggedOpenings, LoggedParties;
    var next := OpenDb(snap, db, actor, agreement, limit);
    var act := Opened(actor, agreement, db.residents[actor].day, db.today);
    LoggedNext(db.acts, act);
    OpeningsKept(db, next);
  }

  ghost predicate Signs(snap: Db, db: Db, actor: nat, agreement: nat, limit: nat) {
    && Inv(db) && Evolves(snap, db) && limit <= QUOTA
    && SignAnswered(snap, db, actor, agreement, limit).SignedNow?
  }

  lemma SignKeepsTables(snap: Db, db: Db, actor: nat, agreement: nat, limit: nat)
    requires Signs(snap, db, actor, agreement, limit)
    ensures var next := SignDb(snap, db, actor, agreement, limit);
      && OneParty(next.parties) && OneSignature(next.signatures) && OneOpening(next.openings)
      && OpenedByCreator(next) && PartiesOfAgreements(next)
  {
    hide Logged, LogTruthful, SignersAreParties, AccededSigned, HasOpening;
  }

  lemma SignKeepsSigners(snap: Db, db: Db, actor: nat, agreement: nat, limit: nat)
    requires Signs(snap, db, actor, agreement, limit)
    ensures SignersAreParties(SignDb(snap, db, actor, agreement, limit))
  {
    hide Logged, LogTruthful, AccededSigned, HasOpening, OneParty, OneSignature, OneOpening, PartiesOfAgreements;
    var next := SignDb(snap, db, actor, agreement, limit);
    SignedIsParty(snap, db, actor, agreement, limit);
    forall i | 0 <= i < |next.signatures|
      ensures FindParty(next.parties, next.signatures[i].agreement, next.signatures[i].resident).Some?
    {
      if i < |db.signatures| {
        FoundInLonger(db.parties, next.parties[|db.parties|..], db.signatures[i].agreement, db.signatures[i].resident);
        assert db.parties + next.parties[|db.parties|..] == next.parties;
      }
    }
  }

  lemma SignKeepsAcceded(snap: Db, db: Db, actor: nat, agreement: nat, limit: nat)
    requires Signs(snap, db, actor, agreement, limit)
    ensures AccededSigned(SignDb(snap, db, actor, agreement, limit))
  {
    hide Logged, LogTruthful, SignersAreParties, OneParty, OneSignature, OneOpening, PartiesOfAgreements, HasOpening;
    var next := SignDb(snap, db, actor, agreement, limit);
    OpeningsKept(snap, db);
    OpeningsKept(db, next);
    forall i | 0 <= i < |next.parties| && !next.parties[i].named
      ensures HasOpening(next, next.parties[i].agreement)
           && HasSigned(next, next.parties[i].agreement, next.parties[i].resident)
    {
      if i < |db.parties| {
        assert next.parties[i] == db.parties[i];
        assert HasSigned(db, db.parties[i].agreement, db.parties[i].resident);
      } else {
        assert next.signatures[|db.signatures|] == Signature(agreement, actor);
      }
    }
  }

  /** A signer is said to accede exactly when the statement makes it a party. */
  lemma AccedesAnew(snap: Db, db: Db, actor: nat, agreement: nat, limit: nat)
    requires Signs(snap, db, actor, agreement, limit)
    ensures SignAnswered(snap, db, actor, agreement, limit).acceded <==> Accedes(snap, actor, agreement)
  {
    hide Logged, LogTruthful, SignersAreParties, OneParty, OneSignature, OneOpening, PartiesOfAgreements, HasOpening;
    var member := FindParty(snap.parties, agreement, actor);
    assert member.Some? ==> db.parties[member.value] == snap.parties[member.value];
  }

  lemma SignKeepsLog(snap: Db, db: Db, actor: nat, agreement: nat, limit: nat)
    requires Signs(snap, db, actor, agreement, limit)
    ensures var next := SignDb(snap, db, actor, agreement, limit);
      Logged(next) && LogTruthful(next)
  {
    hide LoggedSignatures, LoggedCreators, LoggedOpenings, LoggedParties, SignersAreParties, AccededSigned, OneParty,
      OneSignature, OneOpening, PartiesOfAgreements, HasOpening;
    var next := SignDb(snap, db, actor, agreement, limit);
    var answer := SignAnswered(snap, db, actor, agreement, limit);
    var act := Signed(actor, agreement, answer.acceded, db.residents[actor].day, db.today);
    LoggedNext(db.acts, act);
    SignedIsParty(snap, db, actor, agreement, limit);
    AccedesAnew(snap, db, actor, agreement, limit);
    forall i | 0 <= i < |next.acts| && next.acts[i].Signed?
      ensures Party(next.acts[i].agreement, next.acts[i].resident, !next.acts[i].acceded) in next.parties
    {
      if i < |db.acts| {
        assert Party(db.acts[i].agreement, db.acts[i].resident, !db.acts[i].acceded) in db.parties;
      }
    }
  }

  lemma SignInv(snap: Db, db: Db, actor: nat, agreement: nat, limit: nat)
    requires Signs(snap, db, actor, agreement, limit)
    ensures Inv(SignDb(snap, db, actor, agreement, limit))
  {
    hide Signs, SignDb, Logged, LogTruthful, SignersAreParties, AccededSigned, OneParty, OneSignature, OneOpening;
    SignKeepsTables(snap, db, actor, agreement, limit);
    SignKeepsSigners(snap, db, actor, agreement, limit);
    SignKeepsAcceded(snap, db, actor, agreement, limit);
    SignKeepsLog(snap, db, actor, agreement, limit);
  }

  lemma SignedIsParty(snap: Db, db: Db, actor: nat, agreement: nat, limit: nat)
    requires Evolves(snap, db) && SignAnswered(snap, db, actor, agreement, limit).SignedNow?
    ensures var next := SignDb(snap, db, actor, agreement, limit);
      && FindParty(next.parties, agreement, actor).Some?
      && Party(agreement, actor, !SignAnswered(snap, db, actor, agreement, limit).acceded) in next.parties
  {
    var next := SignDb(snap, db, actor, agreement, limit);
    if Accedes(snap, actor, agreement) {
      assert next.parties[|db.parties|] == Party(agreement, actor, false);
    } else {
      var i := FindParty(snap.parties, agreement, actor).value;
      assert next.parties[i] == snap.parties[i];
      assert IsParty(next.parties[i], agreement, actor);
    }
  }

  lemma ClockInv(h: History, op: Op)
    requires Inv(Now(h)) && (op.NextDay? || op.Join? || op.Login?)
    ensures Inv(Apply(h, op))
  {
    hide LoggedSignatures, LoggedCreators, LoggedOpenings, LoggedParties, FindParty, HasOpening;
    var db, next := Now(h), Apply(h, op);
    assert next.parties == db.parties && next.openings == db.openings && next.signatures == db.signatures
        && next.creators == db.creators && next.acts == db.acts;
    OpeningsKept(db, next);
  }

  lemma ApplyInv(h: History, op: Op)
    requires Good(h)
    ensures Inv(Apply(h, op))
  {
    hide Inv, Evolves;
    var db := Now(h);
    assert Inv(db);
    match op
    case NextDay => ClockInv(h, op);
    case Join(_) => ClockInv(h, op);
    case Login(_, _) => ClockInv(h, op);
    case Create(snapshot, actor, parties, open, hold) =>
      if CanCreate(Snapshot(h, snapshot), db, actor, parties, Limit(hold)) {
        CreateInv(Snapshot(h, snapshot), db, actor, parties, open, Limit(hold));
      }
    case Open(snapshot, actor, agreement, hold) =>
      SnapshotEvolves(h, snapshot);
      if CanOpen(Snapshot(h, snapshot), db, actor, agreement, Limit(hold)) {
        OpenInv(Snapshot(h, snapshot), db, actor, agreement, Limit(hold));
      }
    case Sign(snapshot, actor, agreement, hold) =>
      SnapshotEvolves(h, snapshot);
      if SignAnswered(Snapshot(h, snapshot), db, actor, agreement, Limit(hold)).SignedNow? {
        SignInv(Snapshot(h, snapshot), db, actor, agreement, Limit(hold));
      }
  }

  lemma SnapshotEvolves(h: History, snapshot: nat)
    requires Good(h)
    ensures Evolves(Snapshot(h, snapshot), Now(h)) && Inv(Snapshot(h, snapshot))
    ensures Snapshot(h, snapshot).creators <= Now(h).creators
  {
  }

  lemma ApplyEvolves(h: History, op: Op)
    ensures Evolves(Now(h), Apply(h, op))
  {
  }

  lemma GoodNext(h: History, op: Op)
    requires Good(h)
    ensures Good(h + [Apply(h, op)])
  {
    hide Inv, Evolves, Apply;
    ApplyInv(h, op);
    ApplyEvolves(h, op);
    var next := h + [Apply(h, op)];
    EvolvesSelf(Apply(h, op));
    forall i, j | 0 <= i <= j < |next| ensures Evolves(next[i], next[j]) {
      if j == |h| && i < |h| {
        assert Evolves(h[i], Now(h));
        EvolvesTransitive(h[i], Now(h), next[j]);
      }
    }
  }

  lemma EvolvesSelf(db: Db)
    ensures Evolves(db, db)
  {
  }

  lemma {:induction false} RunGood(h: History, ops: seq<Op>)
    requires Good(h)
    ensures Good(Run(h, ops))
    ensures h <= Run(h, ops) && |Run(h, ops)| == |h| + |ops|
    decreases |ops|
  {
    hide Good, Apply;
    if ops != [] {
      GoodNext(h, ops[0]);
      RunGood(h + [Apply(h, ops[0])], ops[1..]);
    }
  }

  lemma EmptyGood()
    ensures Good([EMPTY])
  {
    EvolvesSelf(EMPTY);
    assert Inv(EMPTY);
  }

  // ----- what holds over every run

  /**
   In every state of every run: a resident is a party of an agreement once and signs it once,
   every signer is a party, a party that was not named has signed an open agreement, only the
   creator opened it, and agreements and signatures are the acts of the log, one each.
   */
  lemma AgreementSafety(ops: seq<Op>, k: nat)
    requires k < |Run([EMPTY], ops)|
    ensures var db := Run([EMPTY], ops)[k];
      && OneParty(db.parties) && OneSignature(db.signatures) && OneOpening(db.openings)
      && SignersAreParties(db) && AccededSigned(db) && OpenedByCreator(db) && Logged(db) && LogTruthful(db)
  {
    EmptyGood();
    RunGood([EMPTY], ops);
    assert Inv(Run([EMPTY], ops)[k]);
  }

  predicate ActOpens(acts: seq<Act>, agreement: nat) {
    exists i | 0 <= i < |acts| :: Opens(acts[i], agreement)
  }

  lemma {:induction false} OpenedByAct(acts: seq<Act>, agreement: nat)
    ensures IsOpened(LoggedOpenings(acts), agreement) <==> ActOpens(acts, agreement)
  {
    if acts != [] {
      var n := |acts| - 1;
      OpenedByAct(acts[..n], agreement);
      var before, all := LoggedOpenings(acts[..n]), LoggedOpenings(acts);
      assert ActOpens(acts, agreement) <==> ActOpens(acts[..n], agreement) || Opens(acts[n], agreement) by {
        assert forall i :: 0 <= i < n ==> acts[..n][i] == acts[i];
      }
      assert IsOpened(all, agreement) <==> IsOpened(before, agreement) || Opens(acts[n], agreement) by {
        assert forall i :: 0 <= i < |before| ==> before[i] == all[i];
        if Opens(acts[n], agreement) {
          assert all[|before|] == Opening(agreement, acts[n].resident);
        }
      }
    }
  }

  /**
   In every state of every run an agreement is open exactly when an act opened it, its creation
   with accession or a later act of its creator; and until then only named parties have signed.
   */
  lemma OpenExactlyByActs(ops: seq<Op>, k: nat, agreement: nat)
    requires k < |Run([EMPTY], ops)|
    ensures var db := Run([EMPTY], ops)[k];
      && (HasOpening(db, agreement) <==> ActOpens(db.acts, agreement))
      && (forall i :: 0 <= i < |db.openings| ==>
           db.openings[i].agreement < |db.creators| && db.openings[i].opener == db.creators[db.openings[i].agreement])
      && (!HasOpening(db, agreement) ==>
           forall i :: 0 <= i < |db.signatures| && db.signatures[i].agreement == agreement ==>
             Party(agreement, db.signatures[i].resident, true) in db.parties)
  {
    AgreementSafety(ops, k);
    var db := Run([EMPTY], ops)[k];
    OpenedByAct(db.acts, agreement);
    forall i | 0 <= i < |db.signatures| && db.signatures[i].agreement == agreement && !HasOpening(db, agreement)
      ensures Party(agreement, db.signatures[i].resident, true) in db.parties
    {
      var p := FindParty(db.parties, agreement, db.signatures[i].resident).value;
      assert db.parties[p].named;
    }
  }

  /** Named parties and openings never change once the agreement is there. */
  lemma NamedForEver(ops: seq<Op>, i: nat, k: nat, p: Party)
    requires i <= k < |Run([EMPTY], ops)|
    requires p.agreement < |Run([EMPTY], ops)[i].creators| && p.named
    ensures p in Run([EMPTY], ops)[k].parties <==> p in Run([EMPTY], ops)[i].parties
    ensures Run([EMPTY], ops)[i].openings <= Run([EMPTY], ops)[k].openings
    ensures Run([EMPTY], ops)[i].parties <= Run([EMPTY], ops)[k].parties
  {
    EmptyGood();
    RunGood([EMPTY], ops);
    var a, b := Run([EMPTY], ops)[i], Run([EMPTY], ops)[k];
    assert Evolves(a, b);
    if p in b.parties {
      var j :| 0 <= j < |b.parties| && b.parties[j] == p;
      assert j < |a.parties|;
      assert a.parties[j] == p;
    }
  }

  /** A signature that is there makes every further sign of it change nothing, whatever its snapshot. */
  lemma ReplayChangesNothing(snap: Db, db: Db, actor: nat, agreement: nat, limit: nat)
    requires HasSigned(db, agreement, actor)
    ensures SignDb(snap, db, actor, agreement, limit) == db
    ensures !SignAnswered(snap, db, actor, agreement, limit).SignedNow?
  {
  }

  /** A unique violation always means that the signature is there: the replay finds it. */
  lemma ViolationMeansSigned(h: History, snapshot: nat, actor: nat, agreement: nat, limit: nat)
    requires Good(h)
    requires SignAnswered(Snapshot(h, snapshot), Now(h), actor, agreement, limit).UniqueViolation?
    ensures HasSigned(Now(h), agreement, actor)
  {
    SnapshotEvolves(h, snapshot);
    var snap, db := Snapshot(h, snapshot), Now(h);
    if Accedes(snap, actor, agreement) && FindParty(db.parties, agreement, actor).Some? {
      var i := FindParty(db.parties, agreement, actor).value;
      forall j | 0 <= j < |snap.parties| ensures !IsParty(db.parties[j], agreement, actor) {
        assert db.parties[j] == snap.parties[j];
      }
      assert |snap.parties| <= i && !db.parties[i].named;
    }
  }

}
