/**
 The three agreement actions of src/agreement-action.ts: each reads, checks the quota, commits
 one statement and interprets its rows, while other residents act in between.
 */
module AgreementService {
  import opened Common
  import opened Agreements

  /** What others do before the next statement, and the snapshot it gets. */
  datatype Turn = Turn(ops: seq<Op>, snapshot: nat)

  datatype CreateResult = CreateDone(agreement: nat) | CreateNotFound | CreateQuota

  datatype OpenResult = OpenDone(created: bool) | OpenNotFound | OpenForbidden | OpenQuota

  datatype SignResult = SignDone(acceded: bool) | SignNotFound | SignForbidden | SignQuota

  predicate SignedAs(db: Db, agreement: nat, resident: nat, acceded: bool) {
    HasSigned(db, agreement, resident) && Party(agreement, resident, !acceded) in db.parties
  }

  function Acceded(db: Db, agreement: nat, resident: nat): bool {
    var i := FindParty(db.parties, agreement, resident);
    i.Some? && !db.parties[i.value].named
  }

  lemma SignerIsParty(db: Db, agreement: nat, resident: nat)
    requires Inv(db) && HasSigned(db, agreement, resident)
    ensures SignedAs(db, agreement, resident, Acceded(db, agreement, resident))
  {
    var i :| 0 <= i < |db.signatures| && db.signatures[i] == Signature(agreement, resident);
    assert FindParty(db.parties, db.signatures[i].agreement, db.signatures[i].resident).Some?;
    var p := FindParty(db.parties, agreement, resident).value;
    assert db.parties[p] == Party(agreement, resident, !Acceded(db, agreement, resident));
  }

  lemma LogEvolves(h: History, later: History, i: nat)
    requires Good(later) && h <= later && |h| - 1 <= i < |later|
    ensures Evolves(Now(h), later[i]) && Evolves(later[i], Now(later)) && Inv(later[i]) && Inv(Now(later))
  {
    assert Now(h) == later[|h| - 1];
  }

  /** What an earlier read saw is still there. */
  lemma SeenStays(db: Db, later: Db)
    requires Evolves(db, later)
    ensures forall agreement :: HasOpening(db, agreement) ==> HasOpening(later, agreement)
    ensures forall agreement, resident :: HasSigned(db, agreement, resident) ==> HasSigned(later, agreement, resident)
    ensures forall agreement, resident :: FindParty(db.parties, agreement, resident).Some? ==>
      FindParty(later.parties, agreement, resident).Some?
    ensures db.creators <= later.creators && db.residents.Keys <= later.residents.Keys
  {
    OpeningsKept(db, later);
    forall agreement, resident | FindParty(db.parties, agreement, resident).Some?
      ensures FindParty(later.parties, agreement, resident).Some?
    {
      FoundInLonger(db.parties, later.parties[|db.parties|..], agreement, resident);
      assert db.parties + later.parties[|db.parties|..] == later.parties;
    }
  }

  /** The parties of an agreement are these residents, all named, and nobody else. */
  ghost predicate PartiesAre(db: Db, agreement: nat, named: seq<nat>) {
    forall p: Party :: p.agreement == agreement ==> (p in db.parties <==> p.named && p.resident in named)
  }

  lemma NamedAreStored(snap: Db, db: Db, actor: nat, named: seq<nat>, open: bool, limit: nat)
    requires Inv(db)
    ensures CanCreate(snap, db, actor, named, limit) ==>
      var next := CreateDb(snap, db, actor, named, open, limit);
      && |db.creators| < |next.creators| && next.creators[|db.creators|] == actor
      && PartiesAre(next, |db.creators|, named)
      && (HasOpening(next, |db.creators|) <==> open)
  {
    hide MaySpend, AllKnown, OneParty, OneSignature, OneOpening, SignersAreParties, AccededSigned, Logged, LogTruthful;
    if CanCreate(snap, db, actor, named, limit) {
      var next := CreateDb(snap, db, actor, named, open, limit);
      NewParties(db.parties, |db.creators|, named, next);
      if open {
        assert next.openings[|db.openings|].agreement == |db.creators|;
      }
    }
  }

  lemma NewParties(stored: seq<Party>, id: nat, named: seq<nat>, next: Db)
    requires forall i :: 0 <= i < |stored| ==> stored[i].agreement < id
    requires next.parties == stored + NamedParties(id, named)
    ensures PartiesAre(next, id, named)
  {
    var n := |stored|;
    assert forall i :: 0 <= i < |named| ==> next.parties[n + i] == Party(id, named[i], true);
    forall p: Party | p.agreement == id && p.named && p.resident in named ensures p in next.parties {
      var i :| 0 <= i < |named| && named[i] == p.resident;
      assert next.parties[n + i] == p;
    }
    forall p: Party | p in next.parties && p.agreement == id ensures p.named && p.resident in named {
      var i :| 0 <= i < |next.parties| && next.parties[i] == p;
      assert n <= i ==> p.resident == named[i - n];
    }
  }

  lemma OpenOutcome(snap: Db, db: Db, actor: nat, agreement: nat, limit: nat)
    requires agreement < |snap.creators| && snap.creators[agreement] == actor && Evolves(snap, db)
    ensures var next := OpenDb(snap, db, actor, agreement, limit);
      && next.creators == db.creators
      && (CanOpen(snap, db, actor, agreement, limit) ==> HasOpening(next, agreement))
      && (!CanOpen(snap, db, actor, agreement, limit) ==>
         next == db && (HasOpening(db, agreement) || !MaySpend(db, actor, limit)))
  {
    if CanOpen(snap, db, actor, agreement, limit) {
      assert OpenDb(snap, db, actor, agreement, limit).openings[|db.openings|].agreement == agreement;
    }
  }

  lemma SignedIsAllowed(db: Db, agreement: nat, resident: nat)
    requires Inv(db)
    ensures HasSigned(db, agreement, resident) ==>
      agreement < |db.creators| && FindParty(db.parties, agreement, resident).Some?
  {
    if HasSigned(db, agreement, resident) {
      SignerIsParty(db, agreement, resident);
    }
  }

  lemma SignOutcome(h: History, snapshot: nat, actor: nat, agreement: nat, limit: nat)
    requires Good(h) && limit <= QUOTA && Allowed(Snapshot(h, snapshot), actor, agreement)
    ensures var snap, db := Snapshot(h, snapshot), Now(h);
      var answer := SignAnswered(snap, db, actor, agreement, limit);
      && (answer.SignedNow? ==> SignedAs(SignDb(snap, db, actor, agreement, limit), agreement, actor, answer.acceded))
      && (answer.UniqueViolation? ==> HasSigned(db, agreement, actor))
      && (answer.NoRow? ==> !MaySpend(db, actor, limit))
      && (!answer.SignedNow? ==> SignDb(snap, db, actor, agreement, limit) == db)
  {
    var snap, db := Snapshot(h, snapshot), Now(h);
    SnapshotEvolves(h, snapshot);
    var answer := SignAnswered(snap, db, actor, agreement, limit);
    if answer.UniqueViolation? {
      ViolationMeansSigned(h, snapshot, actor, agreement, limit);
    }
    if answer.SignedNow? {
      SignedIsParty(snap, db, actor, agreement, limit);
      assert SignDb(snap, db, actor, agreement, limit).signatures[|db.signatures|] == Signature(agreement, actor);
    }
  }

  function Upcoming(turns: seq<Turn>): Turn {
    if turns == [] then Turn([], 0) else turns[0]
  }

  lemma NothingRun(h: History)
    ensures Run(h, []) == h
  {
  }

  // ----- what calls answer that nobody disturbs

  predicate AllKnownTo(db: Db, named: seq<nat>) {
    forall i | 0 <= i < |named| :: named[i] in db.residents
  }

  /** Quota is left, at the actor's authentication and in the table. */
  predicate QuotaLeft(db: Db, actor: nat, seen: nat, limit: nat) {
    seen < limit && actor in db.residents && db.residents[actor].used < limit
  }

  ghost predicate CreateOutcome(db: Db, actor: nat, seen: nat, named: seq<nat>, limit: nat, r: CreateResult) {
    match r
    case CreateNotFound => !AllKnownTo(db, named)
    case CreateQuota => AllKnownTo(db, named) && !(Distinct(named) && QuotaLeft(db, actor, seen, limit))
    case CreateDone(agreement) =>
      AllKnownTo(db, named) && Distinct(named) && QuotaLeft(db, actor, seen, limit) && agreement == |db.creators|
  }

  ghost predicate OpenResultOf(db: Db, actor: nat, seen: nat, agreement: nat, limit: nat, r: OpenResult) {
    match r
    case OpenNotFound => agreement >= |db.creators|
    case OpenForbidden => agreement < |db.creators| && db.creators[agreement] != actor
    case OpenDone(created) =>
      && agreement < |db.creators| && db.creators[agreement] == actor
      && (created <==> !HasOpening(db, agreement)) && (created ==> QuotaLeft(db, actor, seen, limit))
    case OpenQuota =>
      && agreement < |db.creators| && db.creators[agreement] == actor
      && !HasOpening(db, agreement) && !QuotaLeft(db, actor, seen, limit)
  }

  ghost predicate SignResultOf(db: Db, actor: nat, seen: nat, agreement: nat, limit: nat, r: SignResult) {
    match r
    case SignNotFound => agreement >= |db.creators|
    case SignForbidden =>
      && agreement < |db.creators| && !HasOpening(db, agreement)
      && forall p: Party :: p in db.parties ==> !IsParty(p, agreement, actor)
    case SignDone(acceded) =>
      && agreement < |db.creators|
      && (HasSigned(db, agreement, actor) || QuotaLeft(db, actor, seen, limit))
      && (acceded <==> Party(agreement, actor, true) !in db.parties)
      && (acceded ==> HasOpening(db, agreement))
    case SignQuota =>
      && agreement < |db.creators| && !HasSigned(db, agreement, actor) && !QuotaLeft(db, actor, seen, limit)
      && (HasOpening(db, agreement) || exists p: Party :: p in db.parties && IsParty(p, agreement, actor))
  }

  /** What the sign action answers, by the state that its reads and its statement see. */
  lemma SignCases(db: Db, actor: nat, seen: nat, agreement: nat, limit: nat)
    requires Inv(db)
    ensures agreement >= |db.creators| ==> SignResultOf(db, actor, seen, agreement, limit, SignNotFound)
    ensures agreement < |db.creators| ==>
      var member := FindParty(db.parties, agreement, actor);
      var allowed := member.Some? || HasOpening(db, agreement);
      && (allowed <==> Allowed(db, actor, agreement))
      && (!allowed ==> SignResultOf(db, actor, seen, agreement, limit, SignForbidden))
      && (allowed && HasSigned(db, agreement, actor) ==>
           SignResultOf(db, actor, seen, agreement, limit, SignDone(Acceded(db, agreement, actor))))
      && (allowed && !HasSigned(db, agreement, actor) ==>
           var answer := SignAnswered(db, db, actor, agreement, limit);
           && (answer.SignedNow? <==> MaySpend(db, actor, limit)) && !answer.UniqueViolation?
           && (seen < limit && answer.SignedNow? ==>
                SignResultOf(db, actor, seen, agreement, limit, SignDone(answer.acceded)))
           && (seen >= limit || !answer.SignedNow? ==> SignResultOf(db, actor, seen, agreement, limit, SignQuota)))
  {
    if agreement < |db.creators| {
      NamedOrNot(db, actor, agreement);
      hide Inv, FindParty, HasOpening;
    }
  }

  lemma NamedOrNot(db: Db, actor: nat, agreement: nat)
    requires Inv(db)
    ensures var member := FindParty(db.parties, agreement, actor);
      && (member.None? <==> forall p: Party :: p in db.parties ==> !IsParty(p, agreement, actor))
      && (member.Some? ==>
           && (Party(agreement, actor, true) in db.parties <==> db.parties[member.value].named)
           && (!db.parties[member.value].named ==> HasOpening(db, agreement) && HasSigned(db, agreement, actor)))
      && (HasSigned(db, agreement, actor) ==> member.Some?)
  {
    var member := FindParty(db.parties, agreement, actor);
    SignedIsAllowed(db, agreement, actor);
    assert OneParty(db.parties) && AccededSigned(db);
    if member.Some? {
      var i := member.value;
      forall j | 0 <= j < |db.parties| && IsParty(db.parties[j], agreement, actor) ensures j == i {
        assert IsParty(db.parties[i], agreement, actor);
      }
    }
  }

  class Registry {
    var today: nat
    var residents: map<nat, Counter>
    var creators: seq<nat>
    var parties: seq<Party>
    var openings: seq<Opening>
    var signatures: seq<Signature>
    var acts: seq<Act>
    /** Earlier versions, which snapshots may still show. */
    var past: seq<Db>
    var turns: seq<Turn>
    /** Acts that this worker's own statements have committed. */
    ghost var acted: nat

    function State(): Db
      reads this
    {
      Db(today, residents, creators, parties, openings, signatures, acts)
    }

    function Log(): History
      reads this
    {
      past + [State()]
    }

    ghost predicate Valid()
      reads this
    {
      Good(Log())
    }

    constructor (schedule: seq<Turn>)
      ensures Valid() && State() == EMPTY && turns == schedule && acted == 0
    {
      today, residents, creators, parties, openings, signatures, acts := 0, map[], [], [], [], [], [];
      past, turns, acted := [], schedule, 0;
      new;
      EmptyGood();
      assert Log() == [EMPTY];
    }

    method Become(next: Db)
      modifies this`today, this`residents, this`creators, this`parties, this`openings,
        this`signatures, this`acts, this`past
      ensures Log() == old(Log()) + [next]
    {
      past := Log();
      today, residents, creators, parties := next.today, next.residents, next.creators, next.parties;
      openings, signatures, acts := next.openings, next.signatures, next.acts;
    }

    /** The others take their turn; the next statement's snapshot is taken meanwhile. */
    method Others() returns (snapshot: nat)
      requires Valid()
      modifies this
      ensures Valid() && acted == old(acted) && old(Log()) <= Log()
      ensures Log() == Run(old(Log()), Upcoming(old(turns)).ops)
      ensures turns == if old(turns) == [] then [] else old(turns)[1..]
      ensures old(turns) == [] ==> State() == old(State()) && Snapshot(Log(), snapshot) == State()
      ensures Evolves(old(State()), Snapshot(Log(), snapshot)) && Evolves(Snapshot(Log(), snapshot), State())
      ensures Evolves(old(State()), State()) && Inv(Snapshot(Log(), snapshot)) && Inv(State())
    {
      hide Good, Apply, Evolves, Inv;
      var turn := Upcoming(turns);
      if turns != [] {
        turns := turns[1..];
      }
      snapshot := Max(turn.snapshot, |past|);
      RunGood(Log(), turn.ops);
      ghost var all := Run(Log(), turn.ops);
      var k := 0;
      while k < |turn.ops|
        invariant 0 <= k <= |turn.ops|
        invariant Run(Log(), turn.ops[k..]) == all
        invariant acted == old(acted) && turns == if old(turns) == [] then [] else old(turns)[1..]
      {
        assert turn.ops[k..][1..] == turn.ops[k + 1..];
        Become(Apply(Log(), turn.ops[k]));
        k := k + 1;
      }
      LogEvolves(old(Log()), Log(), if snapshot < |Log()| then snapshot else |Log()| - 1);
      LogEvolves(old(Log()), Log(), |Log()| - 1);
    }

    // ----- create

    method CreateStatement(actor: nat, named: seq<nat>, open: bool, limit: nat, snapshot: nat)
      returns (agreement: Option<nat>)
      requires Valid() && limit <= QUOTA
      modifies this`residents, this`creators, this`parties, this`openings, this`acts, this`past, this`acted
      ensures Valid() && old(Log()) <= Log()
      ensures State() == CreateDb(Snapshot(old(Log()), snapshot), old(State()), actor, named, open, limit)
      ensures agreement == if CanCreate(Snapshot(old(Log()), snapshot), old(State()), actor, named, limit)
                           then Some(|old(creators)|) else None
      ensures acted == old(acted) + |acts| - |old(acts)|
    {
      hide Good;
      GoodNext(Log(), Create(snapshot, actor, named, open, Some(limit)));
      var snap := Snapshot(Log(), snapshot);
      agreement := None;
      if AllKnown(snap, named) && MaySpend(State(), actor, limit) {
        past := past + [State()];
        agreement := Some(|creators|);
        acts := acts + [Created(actor, |creators|, named, open, residents[actor].day, today)];
        residents := residents[actor := Counter(residents[actor].day, residents[actor].used + 1)];
        parties := parties + NamedParties(|creators|, named);
        if open {
          openings := openings + [Opening(|creators|, actor)];
        }
        creators := creators + [actor];
        acted := acted + 1;
      }
    }

    /**
     `createAgreementAction`: done means that the agreement is stored with exactly one act, with
     its named parties and no others, and open exactly if it was asked to be. A quota answer means
     that the quota was used up, at the actor's authentication or at the commit, or that a handle
     was repeated.
     */
    method CreateAgreementAction(actor: nat, seen: nat, named: seq<nat>, open: bool, hold: Option<nat>)
      returns (r: CreateResult, ghost at: Db)
      requires Valid()
      modifies this
      ensures Valid() && old(Log()) <= Log()
      ensures acted == old(acted) + (if r.CreateDone? then 1 else 0)
      ensures r.CreateDone? ==>
        && r.agreement < |creators| && creators[r.agreement] == actor
        && PartiesAre(State(), r.agreement, named)
        && (HasOpening(State(), r.agreement) <==> open)
      ensures r.CreateNotFound? ==> exists i | 0 <= i < |named| :: named[i] !in old(residents)
      ensures r.CreateQuota? ==> seen >= Limit(hold) || !MaySpend(at, actor, Limit(hold)) || !Distinct(named)
      ensures old(turns) == [] ==> CreateOutcome(old(State()), actor, seen, named, Limit(hold), r)
    {
      hide Good, Evolves, Inv, Run, HasOpening, PartiesAre;
      NothingRun(Log());
      var before := Others();
      SeenStays(old(State()), State());
      at := State();
      if exists i | 0 <= i < |named| :: named[i] !in residents { return CreateNotFound, at; }
      var limit := Limit(hold);
      if seen >= limit { return CreateQuota, at; }
      ghost var read := State();
      NothingRun(Log());
      var snapshot := Others();
      SeenStays(read, Snapshot(Log(), snapshot));
      at := State();
      NamedAreStored(Snapshot(Log(), snapshot), at, actor, named, open, limit);
      var agreement := CreateStatement(actor, named, open, limit, snapshot);
      if agreement.None? { return CreateQuota, at; }
      r := CreateDone(agreement.value);
    }

    // ----- open

    method OpenStatement(actor: nat, agreement: nat, limit: nat, snapshot: nat) returns (done: bool)
      requires Valid() && limit <= QUOTA
      modifies this`residents, this`openings, this`acts, this`past, this`acted
      ensures Valid() && old(Log()) <= Log()
      ensures State() == OpenDb(Snapshot(old(Log()), snapshot), old(State()), actor, agreement, limit)
      ensures done == CanOpen(Snapshot(old(Log()), snapshot), old(State()), actor, agreement, limit)
      ensures acted == old(acted) + (if done then 1 else 0)
    {
      hide Good;
      GoodNext(Log(), Open(snapshot, actor, agreement, Some(limit)));
      var snap := Snapshot(Log(), snapshot);
      done := false;
      if MaySpend(State(), actor, limit) && agreement < |snap.creators| && snap.creators[agreement] == actor
        && !HasOpening(State(), agreement)
      {
        past := past + [State()];
        done := true;
        openings := openings + [Opening(agreement, actor)];
        acts := acts + [Opened(actor, agreement, residents[actor].day, today)];
        residents := residents[actor := Counter(residents[actor].day, residents[actor].used + 1)];
        acted := acted + 1;
      }
    }

    /**
     `openAgreementAccessionAction`: done means that the actor's own agreement is open; only the
     call that opened it spends an act. A quota answer means that the quota was used up.
     */
    method OpenAgreementAccessionAction(actor: nat, seen: nat, agreement: nat, hold: Option<nat>)
      returns (r: OpenResult, ghost at: Db)
      requires Valid()
      modifies this
      ensures Valid() && old(Log()) <= Log()
      ensures acted == old(acted) + (if r == OpenDone(true) then 1 else 0)
      ensures r.OpenDone? ==>
        agreement < |creators| && creators[agreement] == actor && HasOpening(State(), agreement)
      ensures r.OpenNotFound? ==> agreement >= |old(creators)|
      ensures r.OpenForbidden? ==> agreement < |creators| && creators[agreement] != actor
      ensures r.OpenQuota? ==> seen >= Limit(hold) || !MaySpend(at, actor, Limit(hold))
      ensures agreement < |old(creators)| && old(creators)[agreement] == actor
              && old(HasOpening(State(), agreement)) ==>
        r == OpenDone(false)
      ensures old(turns) == [] ==> OpenResultOf(old(State()), actor, seen, agreement, Limit(hold), r)
    {
      hide Good, Evolves, Inv, HasOpening, FindParty, HasSigned, Run;
      NothingRun(Log());
      var before := Others();
      SeenStays(old(State()), State());
      at := State();
      if agreement >= |creators| { return OpenNotFound, at; }
      if creators[agreement] != actor { return OpenForbidden, at; }
      if HasOpening(State(), agreement) { return OpenDone(false), at; }
      var limit := Limit(hold);
      if seen >= limit { return OpenQuota, at; }
      ghost var read := State();
      NothingRun(Log());
      var snapshot := Others();
      SeenStays(read, Snapshot(Log(), snapshot));
      SeenStays(read, State());
      at := State();
      OpenOutcome(Snapshot(Log(), snapshot), at, actor, agreement, limit);
      var done := OpenStatement(actor, agreement, limit, snapshot);
      if done { return OpenDone(true), at; }
      read := State();
      NothingRun(Log());
      var _ := Others();
      SeenStays(read, State());
      r := if HasOpening(State(), agreement) then OpenDone(false) else OpenQuota;
    }

    // ----- sign

    method SignStatement(actor: nat, agreement: nat, limit: nat, snapshot: nat) returns (answer: SignAnswer)
      requires Valid() && limit <= QUOTA
      modifies this`residents, this`parties, this`signatures, this`acts, this`past, this`acted
      ensures Valid() && old(Log()) <= Log()
      ensures State() == SignDb(Snapshot(old(Log()), snapshot), old(State()), actor, agreement, limit)
      ensures answer == SignAnswered(Snapshot(old(Log()), snapshot), old(State()), actor, agreement, limit)
      ensures acted == old(acted) + (if answer.SignedNow? then 1 else 0)
    {
      hide Good;
      GoodNext(Log(), Sign(snapshot, actor, agreement, Some(limit)));
      var snap := Snapshot(Log(), snapshot);
      if !Allowed(snap, actor, agreement) || !MaySpend(State(), actor, limit) { return NoRow; }
      var member := FindParty(snap.parties, agreement, actor);
      if member.None? && FindParty(parties, agreement, actor).Some? { return UniqueViolation; }
      if HasSigned(State(), agreement, actor) { return UniqueViolation; }
      past := past + [State()];
      var acceded := true;
      if member.Some? {
        acceded := !snap.parties[member.value].named;
      } else {
        parties := parties + [Party(agreement, actor, false)];
      }
      signatures := signatures + [Signature(agreement, actor)];
      acts := acts + [Signed(actor, agreement, acceded, residents[actor].day, today)];
      residents := residents[actor := Counter(residents[actor].day, residents[actor].used + 1)];
      acted := acted + 1;
      answer := SignedNow(acceded);
    }

    /**
     `signAgreementAction`: done means that the actor's one signature is stored and says truly
     whether the actor was named; only the call that stored it spends an act, and a call that
     loses a race replays the winner's signature instead of failing. A quota answer means that
     the quota was used up.
     */
    method SignAgreementAction(actor: nat, seen: nat, agreement: nat, hold: Option<nat>)
      returns (r: SignResult, ghost at: Db)
      requires Valid()
      modifies this
      ensures Valid() && old(Log()) <= Log()
      ensures old(acted) <= acted <= old(acted) + 1 && (acted > old(acted) ==> r.SignDone?)
      ensures r.SignDone? ==> SignedAs(State(), agreement, actor, r.acceded)
      ensures old(HasSigned(State(), agreement, actor)) ==> r.SignDone? && acted == old(acted)
      ensures r.SignNotFound? ==> agreement >= |old(creators)|
      ensures r.SignForbidden? ==> !Allowed(at, actor, agreement)
      ensures r.SignQuota? ==> seen >= Limit(hold) || !MaySpend(at, actor, Limit(hold))
      ensures old(turns) == [] ==> SignResultOf(old(State()), actor, seen, agreement, Limit(hold), r)
    {
      hide Good, Evolves, Inv, HasOpening, MaySpend, FindParty, HasSigned, SignedAs, Acceded, SignDb, SignAnswered, Run,
        SignResultOf;
      ghost var quiet := turns == [];
      NothingRun(Log());
      var before := Others();
      ghost var db := State();
      SeenStays(old(State()), State());
      SignedIsAllowed(State(), agreement, actor);
      at := State();
      var limit := Limit(hold);
      SignCases(db, actor, seen, agreement, limit);
      if agreement >= |creators| { return SignNotFound, at; }
      if FindParty(parties, agreement, actor).None? && !HasOpening(State(), agreement) { return SignForbidden, at; }
      if HasSigned(State(), agreement, actor) {
        SignerIsParty(State(), agreement, actor);
        return SignDone(Acceded(State(), agreement, actor)), at;
      }
      if seen >= limit { return SignQuota, at; }
      ghost var read := State();
      NothingRun(Log());
      var snapshot := Others();
      SeenStays(read, Snapshot(Log(), snapshot));
      at := State();
      SignOutcome(Log(), snapshot, actor, agreement, limit);
      var answer := SignStatement(actor, agreement, limit, snapshot);
      if answer.SignedNow? { return SignDone(answer.acceded), at; }
      read := State();
      var _ := Others();
      SeenStays(read, State());
      if HasSigned(State(), agreement, actor) {
        SignerIsParty(State(), agreement, actor);
        return SignDone(Acceded(State(), agreement, actor)), at;
      }
      r := SignQuota;
    }
  }
}
