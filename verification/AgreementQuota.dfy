/**
 The daily quota of agreement acts. The commit statements of src/agreement-action.ts do not look
 at the calendar: they spend from the counter as it stands, and the count starts anew with the
 day that a resident's request names when it reads the credentials.
 */
module AgreementQuota {
  import opened Common
  import opened Agreements

  // ----- what counters promise

  /** The acts of a resident that were charged to one day's counter. */
  function Charged(acts: seq<Act>, resident: nat, day: nat): nat {
    if acts == [] then 0
    else
      var last := acts[|acts| - 1];
      Charged(acts[..|acts| - 1], resident, day) + (if last.resident == resident && last.charged == day then 1 else 0)
  }

  /** The acts of a resident on a calendar day. */
  function ActsOn(acts: seq<Act>, resident: nat, day: nat): nat {
    if acts == [] then 0
    else
      var last := acts[|acts| - 1];
      ActsOn(acts[..|acts| - 1], resident, day) + (if last.resident == resident && last.on == day then 1 else 0)
  }

  /** An act that is charged to another day's counter than the day it happens on. */
  predicate IsLate(act: Act, resident: nat, day: nat) {
    act.resident == resident && act.on == day && act.charged != day
  }

  function LateActsOn(acts: seq<Act>, resident: nat, day: nat): nat {
    if acts == [] then 0
    else
      var last := acts[|acts| - 1];
      LateActsOn(acts[..|acts| - 1], resident, day) + (if IsLate(last, resident, day) then 1 else 0)
  }

  /** Counters are true, and no day is charged beyond the quota. */
  ghost predicate Counted(db: Db) {
    && (forall r :: r in db.residents ==>
         && db.residents[r].day <= db.today && db.residents[r].used <= QUOTA
         && db.residents[r].used == Charged(db.acts, r, db.residents[r].day))
    && (forall r: nat, day: nat :: Charged(db.acts, r, day) <= QUOTA)
    && (forall i :: 0 <= i < |db.acts| ==>
         && db.acts[i].resident in db.residents
         && db.acts[i].charged <= db.residents[db.acts[i].resident].day
         && db.acts[i].charged <= db.acts[i].on <= db.today)
  }

  /** The late acts of a resident on one day are all charged to one counter, the one still held today. */
  ghost predicate LateTogether(db: Db) {
    && (forall i, j, r, day ::
         0 <= i < |db.acts| && 0 <= j < |db.acts| && IsLate(db.acts[i], r, day) && IsLate(db.acts[j], r, day) ==>
           db.acts[i].charged == db.acts[j].charged)
    && (forall i, r :: 0 <= i < |db.acts| && r in db.residents && IsLate(db.acts[i], r, db.today) ==>
         db.residents[r].day == db.acts[i].charged || db.residents[r].day == db.today)
  }

  // ----- one step

  /** The actor of a commit statement. */
  function Actor(op: Op): Option<nat> {
    match op
    case Create(_, actor, _, _, _) => Some(actor)
    case Open(_, actor, _, _) => Some(actor)
    case Sign(_, actor, _, _) => Some(actor)
    case _ => None
  }

  /** One more act, charged to the counter that the actor had. */
  predicate Commits(db: Db, next: Db, act: Act) {
    && MaySpend(db, act.resident, QUOTA) && act.charged == db.residents[act.resident].day && act.on == db.today
    && next.residents == Spent(db, act.resident).residents && next.acts == db.acts + [act] && next.today == db.today
  }

  /** What a commit statement does to counters and acts: nothing, or one act of its actor. */
  lemma {:induction false} StepShape(h: History, op: Op)
    requires Actor(op).Some?
    ensures var db, next := Now(h), Apply(h, op);
      || (next.residents == db.residents && next.acts == db.acts && next.today == db.today)
      || (|next.acts| == |db.acts| + 1 && next.acts[|db.acts|].resident == Actor(op).value
          && Commits(db, next, next.acts[|db.acts|]))
  {
    hide NamedParties, FindParty, AllKnown, HasOpening;
  }

  lemma ActNext(acts: seq<Act>, act: Act, resident: nat, day: nat)
    ensures Charged(acts + [act], resident, day)
         == Charged(acts, resident, day) + (if act.resident == resident && act.charged == day then 1 else 0)
    ensures ActsOn(acts + [act], resident, day)
         == ActsOn(acts, resident, day) + (if act.resident == resident && act.on == day then 1 else 0)
    ensures LateActsOn(acts + [act], resident, day)
         == LateActsOn(acts, resident, day) + (if IsLate(act, resident, day) then 1 else 0)
  {
    assert (acts + [act])[..|acts|] == acts;
  }

  lemma CommitCounts(db: Db, next: Db, act: Act)
    requires Counted(db) && Commits(db, next, act)
    ensures Counted(next)
  {
    forall r: nat, day: nat ensures Charged(next.acts, r, day) <= QUOTA {
      ActNext(db.acts, act, r, day);
    }
    forall r | r in next.residents ensures next.residents[r].used == Charged(next.acts, r, next.residents[r].day) {
      ActNext(db.acts, act, r, next.residents[r].day);
    }
  }

  lemma CommitKeepsLate(db: Db, next: Db, act: Act)
    requires Counted(db) && LateTogether(db) && Commits(db, next, act)
    ensures LateTogether(next)
  {
    hide Charged;
  }

  /** Nothing of the resident was charged to that day or a later one. */
  predicate ChargedBefore(acts: seq<Act>, resident: nat, day: nat) {
    forall i | 0 <= i < |acts| && acts[i].resident == resident :: acts[i].charged < day
  }

  lemma {:induction false} NothingCharged(acts: seq<Act>, resident: nat, day: nat)
    ensures Charged(acts, resident, day) == 0 <==>
      forall i :: 0 <= i < |acts| && acts[i].resident == resident ==> acts[i].charged != day
  {
    if acts != [] {
      var rest := acts[..|acts| - 1];
      NothingCharged(rest, resident, day);
      assert forall i :: 0 <= i < |rest| ==> rest[i] == acts[i];
    }
  }

  /** A login that changes the counter's day starts the count of a day that nothing was charged to or after. */
  predicate KeepsCount(db: Db, op: Op) {
    op.Login? && op.resident in db.residents && op.day <= db.today && op.day != db.residents[op.resident].day ==>
      ChargedBefore(db.acts, op.resident, op.day)
  }

  lemma LoginCountsExactly(db: Db, r: nat, day: nat)
    requires Counted(db) && r in db.residents && day <= db.today && day != db.residents[r].day
    ensures Counted(LoginDb(db, r, day)) <==> ChargedBefore(db.acts, r, day)
  {
    NothingCharged(db.acts, r, day);
    hide Charged;
    var next := LoginDb(db, r, day);
    if Counted(next) {
      assert next.residents[r].used == Charged(next.acts, r, day);
    }
  }

  /** Exactly when a step keeps the counters true. */
  lemma {:induction false} StepCountsExactly(h: History, op: Op)
    requires Counted(Now(h))
    ensures Counted(Apply(h, op)) <==> KeepsCount(Now(h), op)
  {
    var db, next := Now(h), Apply(h, op);
    if Actor(op).Some? {
      StepShape(h, op);
      if next.acts != db.acts {
        CommitCounts(db, next, next.acts[|db.acts|]);
      }
    } else if op.Login? {
      if op.resident in db.residents && op.day <= db.today && op.day != db.residents[op.resident].day {
        LoginCountsExactly(db, op.resident, op.day);
      }
    } else if op.Join? {
      NothingCharged(db.acts, op.resident, db.today);
    }
  }

  // ----- whole runs

  predicate Counting(h: History, ops: seq<Op>)
    decreases |ops|
  {
    ops == [] || (KeepsCount(Now(h), ops[0]) && Counting(h + [Apply(h, ops[0])], ops[1..]))
  }

  ghost predicate CountedFrom(h: History, n: nat) {
    forall k :: n <= k < |h| ==> Counted(h[k])
  }

  /**
   Exactly which runs keep every counter true and every day within the quota: those in which no
   login goes back to a day that was charged already, or before such a day.
   */
  lemma {:induction false} CountsExactly(h: History, ops: seq<Op>)
    requires Counted(Now(h))
    ensures CountedFrom(Run(h, ops), |h| - 1) <==> Counting(h, ops)
    decreases |ops|
  {
    hide Apply, Counted, KeepsCount;
    if ops != [] {
      var next := h + [Apply(h, ops[0])];
      StepCountsExactly(h, ops[0]);
      RunExtends(next, ops[1..]);
      var all := Run(h, ops);
      assert all[|h|] == Now(next) && all[|h| - 1] == Now(h);
      if KeepsCount(Now(h), ops[0]) {
        CountsExactly(next, ops[1..]);
        assert CountedFrom(all, |h|) && Counted(all[|h| - 1]) ==> CountedFrom(all, |h| - 1);
      }
    }
  }

  /** A request that names no earlier day than the counter's never spoils a count. */
  lemma ForwardKeepsCount(db: Db, op: Op)
    requires Counted(db)
    requires op.Login? && op.resident in db.residents ==> db.residents[op.resident].day <= op.day
    ensures KeepsCount(db, op)
  {
  }

  lemma {:induction false} RunExtends(h: History, ops: seq<Op>)
    ensures h <= Run(h, ops) && |Run(h, ops)| == |h| + |ops|
    decreases |ops|
  {
    hide Apply;
    if ops != [] {
      RunExtends(h + [Apply(h, ops[0])], ops[1..]);
    }
  }

  /** A login that arrives on the day it names. */
  predicate Prompt(db: Db, op: Op) {
    op.Login? ==> op.day == db.today
  }

  predicate AllPrompt(h: History, ops: seq<Op>)
    decreases |ops|
  {
    ops == [] || (Prompt(Now(h), ops[0]) && AllPrompt(h + [Apply(h, ops[0])], ops[1..]))
  }

  lemma {:induction false} PromptStep(h: History, op: Op)
    requires Counted(Now(h)) && LateTogether(Now(h)) && Prompt(Now(h), op)
    ensures Counted(Apply(h, op)) && LateTogether(Apply(h, op))
  {
    hide Charged;
    var db, next := Now(h), Apply(h, op);
    ForwardKeepsCount(db, op);
    StepCountsExactly(h, op);
    if Actor(op).Some? {
      StepShape(h, op);
      if next.acts != db.acts {
        CommitKeepsLate(db, next, next.acts[|db.acts|]);
      }
    }
  }

  lemma {:induction false} PromptRun(h: History, ops: seq<Op>, k: nat)
    requires Counted(Now(h)) && LateTogether(Now(h)) && AllPrompt(h, ops)
    requires |h| - 1 <= k < |Run(h, ops)|
    ensures Counted(Run(h, ops)[k]) && LateTogether(Run(h, ops)[k])
    decreases |ops|
  {
    hide Apply, Counted, LateTogether, Prompt;
    if ops != [] && |h| <= k {
      PromptStep(h, ops[0]);
      PromptRun(h + [Apply(h, ops[0])], ops[1..], k);
    } else {
      RunExtends(h, ops);
      assert Run(h, ops)[|h| - 1] == h[|h| - 1];
    }
  }

  lemma {:induction false} ActsAreChargedOrLate(acts: seq<Act>, resident: nat, day: nat)
    ensures ActsOn(acts, resident, day) <= Charged(acts, resident, day) + LateActsOn(acts, resident, day)
    ensures (forall i :: 0 <= i < |acts| ==> acts[i].charged <= acts[i].on <= day) ==>
      ActsOn(acts, resident, day) == Charged(acts, resident, day) + LateActsOn(acts, resident, day)
  {
    if acts != [] {
      ActsAreChargedOrLate(acts[..|acts| - 1], resident, day);
    }
  }

  lemma {:induction false} SomeLate(acts: seq<Act>, resident: nat, day: nat) returns (i: nat)
    requires LateActsOn(acts, resident, day) > 0
    ensures i < |acts| && IsLate(acts[i], resident, day)
  {
    i := |acts| - 1;
    if !IsLate(acts[i], resident, day) {
      i := SomeLate(acts[..|acts| - 1], resident, day);
    }
  }

  lemma {:induction false} LateAreCharged(acts: seq<Act>, resident: nat, day: nat, charged: nat)
    requires forall i :: 0 <= i < |acts| && IsLate(acts[i], resident, day) ==> acts[i].charged == charged
    ensures LateActsOn(acts, resident, day) <= Charged(acts, resident, charged)
  {
    if acts != [] {
      LateAreCharged(acts[..|acts| - 1], resident, day, charged);
    }
  }

  lemma LateWithinQuota(db: Db, resident: nat, day: nat)
    requires Counted(db) && LateTogether(db)
    ensures LateActsOn(db.acts, resident, day) <= QUOTA
  {
    if LateActsOn(db.acts, resident, day) > 0 {
      var j := SomeLate(db.acts, resident, day);
      LateAreCharged(db.acts, resident, day, db.acts[j].charged);
    }
  }

  /**
   When every login arrives on the day it names, a resident has at most ten acts on any calendar
   day: at most five that are charged to that day, and at most five late ones, which one earlier
   counter bounds.
   */
  lemma AtMostTen(ops: seq<Op>, k: nat, resident: nat, day: nat)
    requires AllPrompt([EMPTY], ops) && k < |Run([EMPTY], ops)|
    ensures var acts := Run([EMPTY], ops)[k].acts;
      && Charged(acts, resident, day) <= 5 && LateActsOn(acts, resident, day) <= 5
      && ActsOn(acts, resident, day) <= 5 + LateActsOn(acts, resident, day) <= 10
  {
    PromptRun([EMPTY], ops, k);
    LateWithinQuota(Run([EMPTY], ops)[k], resident, day);
    ActsAreChargedOrLate(Run([EMPTY], ops)[k].acts, resident, day);
  }

  // ----- requests in flight

  /** Requests that have read their credentials and not committed: a login starts one, a commit uses one. */
  function InFlight(op: Op, inFlight: multiset<nat>): multiset<nat> {
    if op.Login? then inFlight + multiset{op.resident}
    else if Actor(op).Some? then inFlight - multiset{Actor(op).value}
    else inFlight
  }

  /** Every commit belongs to a request of its actor. */
  predicate Requested(ops: seq<Op>, inFlight: multiset<nat>) {
    ops == []
    || ((Actor(ops[0]).Some? ==> Actor(ops[0]).value in inFlight) && Requested(ops[1..], InFlight(ops[0], inFlight)))
  }

  /** The steps stay on this day, and so do the days that logins name. */
  predicate SameDay(ops: seq<Op>, today: nat) {
    forall i :: 0 <= i < |ops| ==> !ops[i].NextDay? && (ops[i].Login? ==> ops[i].day == today)
  }

  /** The resident has late acts today, or a request in flight and an earlier day's counter with quota left. */
  predicate MayExceed(db: Db, resident: nat, inFlight: multiset<nat>) {
    || LateActsOn(db.acts, resident, db.today) > 0
    || (resident in inFlight && resident in db.residents
        && db.residents[resident].day < db.today && db.residents[resident].used < QUOTA)
  }

  lemma {:induction false} StepOnDay(h: History, op: Op, resident: nat, inFlight: multiset<nat>)
    requires Counted(Now(h)) && SameDay([op], Now(h).today) && !MayExceed(Now(h), resident, inFlight)
    requires Actor(op).Some? ==> Actor(op).value in inFlight
    ensures Apply(h, op).today == Now(h).today && Counted(Apply(h, op))
    ensures !MayExceed(Apply(h, op), resident, InFlight(op, inFlight))
  {
    hide ActsOn, LateActsOn, Charged;
    var db, next := Now(h), Apply(h, op);
    assert [op][0] == op;
    ForwardKeepsCount(db, op);
    StepCountsExactly(h, op);
    if Actor(op).Some? {
      StepShape(h, op);
      if next.acts != db.acts {
        ActNext(db.acts, next.acts[|db.acts|], resident, db.today);
      }
    }
  }

  lemma {:induction false} NeverExceeds(h: History, ops: seq<Op>, resident: nat, inFlight: multiset<nat>)
    requires Counted(Now(h)) && SameDay(ops, Now(h).today) && Requested(ops, inFlight)
    requires !MayExceed(Now(h), resident, inFlight)
    ensures ActsOn(Now(Run(h, ops)).acts, resident, Now(h).today) <= QUOTA
    decreases |ops|
  {
    hide Apply;
    var db := Now(h);
    if ops == [] {
      ActsAreChargedOrLate(db.acts, resident, db.today);
    } else {
      StepOnDay(h, ops[0], resident, inFlight);
      NeverExceeds(h + [Apply(h, ops[0])], ops[1..], resident, InFlight(ops[0], inFlight));
    }
  }

  /** A create that names the actor, whose snapshot is the given state. */
  function CreateAt(snapshot: nat, actor: nat): Op {
    Create(snapshot, actor, [actor], false, None)
  }

  lemma {:induction false} CreateCounts(h: History, snapshot: nat, r: nat)
    requires r in Now(h).residents && Now(h).residents[r].used < QUOTA
    requires snapshot < |h| && r in h[snapshot].residents
    ensures var before, after := Now(h), Apply(h, CreateAt(snapshot, r));
      && after.today == before.today && r in after.residents
      && after.residents[r] == Counter(before.residents[r].day, before.residents[r].used + 1)
      && ActsOn(after.acts, r, before.today) == ActsOn(before.acts, r, before.today) + 1
      && LateActsOn(after.acts, r, before.today)
         == LateActsOn(before.acts, r, before.today) + (if before.residents[r].day != before.today then 1 else 0)
    ensures var before, after := Now(h), Apply(h, CreateAt(snapshot, r));
      forall day: nat ::
        Charged(after.acts, r, day) == Charged(before.acts, r, day) + (if before.residents[r].day == day then 1 else 0)
  {
    hide Charged, NamedParties, ActsOn, LateActsOn;
    var db := Now(h);
    var act := Created(r, |db.creators|, [r], false, db.residents[r].day, db.today);
    ActNext(db.acts, act, r, db.today);
    forall day: nat
      ensures Charged(db.acts + [act], r, day)
         == Charged(db.acts, r, day) + (if db.residents[r].day == day then 1 else 0)
    {
      ActNext(db.acts, act, r, day);
    }
  }

  /** n requests of a resident, each with its own login on the given day and its own act. */
  function Acting(snapshot: nat, r: nat, day: nat, n: nat): seq<Op> {
    if n == 0 then [] else [Login(r, day), CreateAt(snapshot, r)] + Acting(snapshot, r, day, n - 1)
  }

  lemma AndThen(op: Op, rest: seq<Op>, inFlight: multiset<nat>)
    requires Requested(rest, InFlight(op, inFlight)) && (Actor(op).Some? ==> Actor(op).value in inFlight)
    ensures Requested([op] + rest, inFlight)
  {
    assert ([op] + rest)[1..] == rest;
  }

  lemma DayOf(op: Op, rest: seq<Op>, today: nat)
    requires !op.NextDay? && (op.Login? ==> op.day == today) && SameDay(rest, today)
    ensures SameDay([op] + rest, today)
  {
  }

  lemma ActingStep(snapshot: nat, r: nat, day: nat, n: nat)
    requires n > 0
    ensures Acting(snapshot, r, day, n) == [Login(r, day)] + ([CreateAt(snapshot, r)] + Acting(snapshot, r, day, n - 1))
  {
  }

  lemma {:induction false} ActingIsToday(snapshot: nat, r: nat, day: nat, n: nat)
    ensures SameDay(Acting(snapshot, r, day, n), day)
  {
    if n > 0 {
      ActingIsToday(snapshot, r, day, n - 1);
      ActingStep(snapshot, r, day, n);
      hide SameDay, Acting;
      DayOf(CreateAt(snapshot, r), Acting(snapshot, r, day, n - 1), day);
      DayOf(Login(r, day), [CreateAt(snapshot, r)] + Acting(snapshot, r, day, n - 1), day);
    }
  }

  lemma LoginAndCommit(snapshot: nat, r: nat, day: nat, rest: seq<Op>, inFlight: multiset<nat>)
    requires Requested(rest, inFlight)
    ensures Requested([Login(r, day)] + ([CreateAt(snapshot, r)] + rest), inFlight)
  {
    var more := InFlight(Login(r, day), inFlight);
    assert InFlight(CreateAt(snapshot, r), more) == inFlight;
    hide Requested;
    AndThen(CreateAt(snapshot, r), rest, more);
    AndThen(Login(r, day), [CreateAt(snapshot, r)] + rest, inFlight);
  }

  lemma {:induction false} ActingIsRequested(snapshot: nat, r: nat, day: nat, n: nat, inFlight: multiset<nat>)
    ensures Requested(Acting(snapshot, r, day, n), inFlight)
  {
    hide Requested;
    if n > 0 {
      ActingIsRequested(snapshot, r, day, n - 1, inFlight);
      ActingStep(snapshot, r, day, n);
      hide Acting;
      LoginAndCommit(snapshot, r, day, Acting(snapshot, r, day, n - 1), inFlight);
    } else {
      NothingRequested(inFlight);
    }
  }

  lemma NothingRequested(inFlight: multiset<nat>)
    ensures Requested([], inFlight)
  {
  }

  lemma {:induction false} ActingCounts(h: History, snapshot: nat, r: nat, n: nat)
    requires r in Now(h).residents && Now(h).residents[r].day == Now(h).today
    requires Now(h).residents[r].used + n <= QUOTA
    requires snapshot < |h| && r in h[snapshot].residents
    ensures var before, after := Now(h), Now(Run(h, Acting(snapshot, r, Now(h).today, n)));
      ActsOn(after.acts, r, before.today) == ActsOn(before.acts, r, before.today) + n
    decreases n
  {
    hide ActsOn, LateActsOn, Charged;
    if n > 0 {
      var today := Now(h).today;
      var h1 := h + [Apply(h, Login(r, today))];
      assert Now(h1) == Now(h);
      CreateCounts(h1, snapshot, r);
      hide Apply;
      var h2 := h1 + [Apply(h1, CreateAt(snapshot, r))];
      var ops, rest := Acting(snapshot, r, today, n), Acting(snapshot, r, today, n - 1);
      assert ops[1..] == [CreateAt(snapshot, r)] + rest && ops[1..][1..] == rest;
      assert Run(h, ops) == Run(h1, ops[1..]) == Run(h2, rest);
      ActingCounts(h2, snapshot, r, n - 1);
    }
  }

  /** While a resident holds today's counter, today's acts are the counted ones and the late ones. */
  lemma ActsOfCounter(db: Db, r: nat)
    requires Counted(db) && r in db.residents && db.residents[r].day == db.today
    ensures db.residents[r].used <= QUOTA
    ensures ActsOn(db.acts, r, db.today) == db.residents[r].used + LateActsOn(db.acts, r, db.today)
  {
    ActsAreChargedOrLate(db.acts, r, db.today);
  }

  /** With a late act today, a login and the rest of today's quota make more than five. */
  lemma {:induction false} LateExceeds(h: History, r: nat, inFlight: multiset<nat>) returns (ops: seq<Op>)
    requires Counted(Now(h)) && LateActsOn(Now(h).acts, r, Now(h).today) > 0
    ensures SameDay(ops, Now(h).today) && Requested(ops, inFlight)
    ensures ActsOn(Now(Run(h, ops)).acts, r, Now(h).today) > QUOTA
  {
    hide ActsOn, LateActsOn, Charged;
    var db := Now(h);
    var today := db.today;
    var i := SomeLate(db.acts, r, today);
    var login := Login(r, today);
    var h1 := h + [Apply(h, login)];
    ForwardKeepsCount(db, login);
    StepCountsExactly(h, login);
    hide Apply, Counted, KeepsCount, Requested, SameDay;
    ActsOfCounter(Now(h1), r);
    var n := QUOTA - Now(h1).residents[r].used;
    ActingCounts(h1, |h|, r, n);
    ActingIsToday(|h|, r, today, n);
    ActingIsRequested(|h|, r, today, n, inFlight + multiset{r});
    ops := [login] + Acting(|h|, r, today, n);
    AndThen(login, Acting(|h|, r, today, n), inFlight);
    assert ops[1..] == Acting(|h|, r, today, n);
    DayOf(login, Acting(|h|, r, today, n), today);
  }

  lemma {:induction false} ExceedingRun(h: History, r: nat, inFlight: multiset<nat>) returns (ops: seq<Op>)
    requires Counted(Now(h)) && MayExceed(Now(h), r, inFlight)
    ensures SameDay(ops, Now(h).today) && Requested(ops, inFlight)
    ensures ActsOn(Now(Run(h, ops)).acts, r, Now(h).today) > QUOTA
  {
    hide Apply, ActsOn, LateActsOn, Counted, Requested, SameDay;
    if LateActsOn(Now(h).acts, r, Now(h).today) > 0 {
      ops := LateExceeds(h, r, inFlight);
    } else {
      var op := CreateAt(|h| - 1, r);
      CreateCounts(h, |h| - 1, r);
      StepCountsExactly(h, op);
      var rest := LateExceeds(h + [Apply(h, op)], r, InFlight(op, inFlight));
      AndThen(op, rest, inFlight);
      DayOf(op, rest, Now(h).today);
      ops := [op] + rest;
      assert ops[1..] == rest;
    }
  }

  /**
   Exactly when a calendar day can still see more than five acts of a resident: given the requests
   in flight, some steps of this day lead there if and only if the resident has late acts today,
   or a request in flight and an earlier day's counter with quota left.
   */
  lemma {:induction false} ExceedsExactly(h: History, resident: nat, inFlight: multiset<nat>)
    requires Counted(Now(h))
    ensures
      (exists ops :: SameDay(ops, Now(h).today) && Requested(ops, inFlight)
                     && ActsOn(Now(Run(h, ops)).acts, resident, Now(h).today) > QUOTA)
      <==> MayExceed(Now(h), resident, inFlight)
  {
    hide Apply, ActsOn, LateActsOn, Run, Counted, Requested, SameDay;
    if MayExceed(Now(h), resident, inFlight) {
      var ops := ExceedingRun(h, resident, inFlight);
    } else {
      forall ops | SameDay(ops, Now(h).today) && Requested(ops, inFlight)
        ensures ActsOn(Now(Run(h, ops)).acts, resident, Now(h).today) <= QUOTA
      {
        NeverExceeds(h, ops, resident, inFlight);
      }
    }
  }

  // ----- two runs that show it

  lemma {:induction false} RunInTwo(h: History, first: seq<Op>, second: seq<Op>)
    ensures Run(h, first + second) == Run(Run(h, first), second)
    ensures AllPrompt(h, first + second) <==> AllPrompt(h, first) && AllPrompt(Run(h, first), second)
    decreases |first|
  {
    hide Apply, Prompt;
    if first != [] {
      assert (first + second)[1..] == first[1..] + second;
      RunInTwo(h + [Apply(h, first[0])], first[1..], second);
    } else {
      assert first + second == second;
    }
  }

  function Logins(r: nat, day: nat, n: nat): seq<Op> {
    seq(n, i => Login(r, day))
  }

  function Creates(snapshot: nat, r: nat, n: nat): seq<Op> {
    seq(n, i => CreateAt(snapshot, r))
  }

  lemma {:induction false} LoginsRun(h: History, r: nat, day: nat, n: nat)
    requires r in Now(h).residents && day <= Now(h).today
    ensures n > 0 ==> Now(Run(h, Logins(r, day, n))) == LoginDb(Now(h), r, day)
    ensures day == Now(h).today ==> AllPrompt(h, Logins(r, day, n))
    decreases n
  {
    if n > 0 {
      var next := h + [Apply(h, Login(r, day))];
      assert Logins(r, day, n)[1..] == Logins(r, day, n - 1);
      LoginsRun(next, r, day, n - 1);
      assert Logins(r, day, 0) == [];
    }
  }

  lemma {:induction false} CreatesRun(h: History, snapshot: nat, r: nat, n: nat)
    requires r in Now(h).residents && Now(h).residents[r].used + n <= QUOTA
    requires snapshot < |h| && r in h[snapshot].residents
    ensures var before, after := Now(h), Now(Run(h, Creates(snapshot, r, n)));
      && after.today == before.today && r in after.residents
      && after.residents[r] == Counter(before.residents[r].day, before.residents[r].used + n)
      && ActsOn(after.acts, r, before.today) == ActsOn(before.acts, r, before.today) + n
    ensures var before, after := Now(h), Now(Run(h, Creates(snapshot, r, n)));
      forall day: nat ::
        Charged(after.acts, r, day) == Charged(before.acts, r, day) + (if before.residents[r].day == day then n else 0)
    ensures AllPrompt(h, Creates(snapshot, r, n))
    decreases n
  {
    hide Apply, ActsOn, LateActsOn, Charged;
    if n > 0 {
      CreateCounts(h, snapshot, r);
      var next := Apply(h, CreateAt(snapshot, r));
      assert Creates(snapshot, r, n)[1..] == Creates(snapshot, r, n - 1);
      CreatesRun(h + [next], snapshot, r, n - 1);
    }
  }

  /** So many requests of one resident more, or fewer. */
  function Plus(inFlight: multiset<nat>, r: nat, n: nat): multiset<nat> {
    inFlight[r := inFlight[r] + n]
  }

  function Minus(inFlight: multiset<nat>, r: nat, n: nat): multiset<nat>
    requires n <= inFlight[r]
  {
    inFlight[r := inFlight[r] - n]
  }

  lemma PlusOne(inFlight: multiset<nat>, r: nat, n: nat)
    ensures Plus(inFlight + multiset{r}, r, n) == Plus(inFlight, r, n + 1)
    ensures n < inFlight[r] ==> Minus(inFlight - multiset{r}, r, n) == Minus(inFlight, r, n + 1)
    ensures Plus(inFlight, r, 0) == inFlight && Minus(inFlight, r, 0) == inFlight
  {
  }

  lemma {:induction false} LoginsRequested(r: nat, day: nat, n: nat, rest: seq<Op>, inFlight: multiset<nat>)
    requires Requested(rest, Plus(inFlight, r, n))
    ensures Requested(Logins(r, day, n) + rest, inFlight)
    decreases n
  {
    hide Requested, Plus, Minus;
    if n > 0 {
      PlusOne(inFlight, r, n - 1);
      LoginsRequested(r, day, n - 1, rest, inFlight + multiset{r});
      AndThen(Login(r, day), Logins(r, day, n - 1) + rest, inFlight);
      assert Logins(r, day, n) + rest == [Login(r, day)] + (Logins(r, day, n - 1) + rest);
    } else {
      PlusOne(inFlight, r, 0);
      assert Logins(r, day, 0) + rest == rest;
    }
  }

  lemma {:induction false} CreatesRequested(snapshot: nat, r: nat, n: nat, rest: seq<Op>, inFlight: multiset<nat>)
    requires inFlight[r] >= n && Requested(rest, Minus(inFlight, r, n))
    ensures Requested(Creates(snapshot, r, n) + rest, inFlight)
    decreases n
  {
    hide Requested, Plus, Minus;
    if n > 0 {
      PlusOne(inFlight, r, n - 1);
      CreatesRequested(snapshot, r, n - 1, rest, inFlight - multiset{r});
      AndThen(CreateAt(snapshot, r), Creates(snapshot, r, n - 1) + rest, inFlight);
      assert Creates(snapshot, r, n) + rest == [CreateAt(snapshot, r)] + (Creates(snapshot, r, n - 1) + rest);
    } else {
      PlusOne(inFlight, r, 0);
      assert Creates(snapshot, r, 0) + rest == rest;
    }
  }

  /** Five requests log in on the given day, and then all of them act. */
  function Round(day: nat): seq<Op> {
    Logins(1, day, 5) + Creates(1, 1, 5)
  }

  lemma {:induction false} RoundRun(h: History, day: nat)
    requires 1 in Now(h).residents && day <= Now(h).today && Now(h).residents[1].day != day
    requires |h| > 1 && 1 in h[1].residents
    ensures var before, after := Now(h), Now(Run(h, Round(day)));
      && after.today == before.today && 1 in after.residents && after.residents[1] == Counter(day, 5)
      && ActsOn(after.acts, 1, before.today) == ActsOn(before.acts, 1, before.today) + 5
      && forall d: nat :: Charged(after.acts, 1, d) == Charged(before.acts, 1, d) + (if day == d then 5 else 0)
    ensures h <= Run(h, Round(day))
    ensures day == Now(h).today ==> AllPrompt(h, Round(day))
  {
    hide Apply, ActsOn, Charged, Prompt;
    LoginsRun(h, 1, day, 5);
    var h1 := Run(h, Logins(1, day, 5));
    RunExtends(h, Logins(1, day, 5));
    CreatesRun(h1, 1, 1, 5);
    RunInTwo(h, Logins(1, day, 5), Creates(1, 1, 5));
    RunExtends(h, Round(day));
  }

  lemma RoundRequested(day: nat, rest: seq<Op>)
    requires Requested(rest, multiset{})
    ensures Requested(Round(day) + rest, multiset{})
  {
    var five := Five();
    hide Requested;
    CreatesRequested(1, 1, 5, rest, five);
    LoginsRequested(1, day, 5, Creates(1, 1, 5) + rest, multiset{});
    assert Round(day) + rest == Logins(1, day, 5) + (Creates(1, 1, 5) + rest);
  }

  lemma Five() returns (five: multiset<nat>)
    ensures five[1] == 5 && Plus(multiset{}, 1, 5) == five && Minus(five, 1, 5) == multiset{}
  {
    five := Plus(multiset{}, 1, 5);
  }

  /** A resident joins, sends five requests before midnight, and they commit after it. */
  function Midnight(): seq<Op> {
    [Join(1)] + Logins(1, 0, 5) + [NextDay] + Creates(1, 1, 5)
  }

  lemma MidnightRun()
    ensures var h := Run([EMPTY], Midnight());
      && |h| > 1 && 1 in h[1].residents && Now(h).today == 1
      && 1 in Now(h).residents && Now(h).residents[1] == Counter(0, 5)
      && ActsOn(Now(h).acts, 1, 1) == 5 && Charged(Now(h).acts, 1, 0) == 5 && Charged(Now(h).acts, 1, 1) == 0
    ensures AllPrompt([EMPTY], Midnight())
  {
    var h0: History := [EMPTY];
    var joined := EMPTY.(residents := map[1 := Counter(0, 0)]);
    var h1 := h0 + [joined];
    assert Run(h0, [Join(1)]) == h1 && AllPrompt(h0, [Join(1)]);
    LoginsRun(h1, 1, 0, 5);
    var h2 := Run(h1, Logins(1, 0, 5));
    RunExtends(h1, Logins(1, 0, 5));
    assert Now(h2) == joined;
    var h3 := h2 + [joined.(today := 1)];
    assert Run(h2, [NextDay]) == h3 && AllPrompt(h2, [NextDay]);
    hide Apply, Prompt;
    CreatesRun(h3, 1, 1, 5);
    RunExtends(h3, Creates(1, 1, 5));
    RunInTwo(h0, [Join(1)], Logins(1, 0, 5));
    RunInTwo(h0, [Join(1)] + Logins(1, 0, 5), [NextDay]);
    RunInTwo(h0, [Join(1)] + Logins(1, 0, 5) + [NextDay], Creates(1, 1, 5));
  }

  lemma MidnightRequested(rest: seq<Op>)
    requires Requested(rest, multiset{})
    ensures Requested(Midnight() + rest, multiset{})
  {
    var five := Five();
    hide Requested;
    CreatesRequested(1, 1, 5, rest, five);
    var tail := [NextDay] + (Creates(1, 1, 5) + rest);
    AndThen(NextDay, Creates(1, 1, 5) + rest, five);
    LoginsRequested(1, 0, 5, tail, multiset{});
    AndThen(Join(1), Logins(1, 0, 5) + tail, multiset{});
    assert Midnight() + rest == [Join(1)] + (Logins(1, 0, 5) + tail);
  }

  /**
   The calendar day alone does not bound the acts: five requests that authenticated before
   midnight and commit after it come on top of the new day's five, with every login prompt.
   */
  lemma TenActsOnOneDay()
    ensures var ops := Midnight() + Round(1);
      && Requested(ops, multiset{}) && AllPrompt([EMPTY], ops)
      && ActsOn(Now(Run([EMPTY], ops)).acts, 1, 1) == 10
  {
    hide Run, AllPrompt, ActsOn, Charged, Requested;
    NothingRequested(multiset{});
    RoundRequested(1, []);
    assert Round(1) + [] == Round(1);
    MidnightRequested(Round(1));
    MidnightRun();
    RoundRun(Run([EMPTY], Midnight()), 1);
    RunInTwo([EMPTY], Midnight(), Round(1));
  }

  /**
   And a login that names an earlier day sets the counter back: five more requests, sent before
   midnight and read after the new day's, make ten acts charged to one day and fifteen on the next.
   */
  lemma CounterSetBack()
    ensures var ops := Midnight() + Round(1) + Round(0);
      var acts := Now(Run([EMPTY], ops)).acts;
      && Requested(ops, multiset{}) && !Counting([EMPTY], ops)
      && Charged(acts, 1, 0) == 10 && ActsOn(acts, 1, 1) == 15
  {
    hide Run, AllPrompt, ActsOn, Charged, Requested, Counting;
    NothingRequested(multiset{});
    RoundRequested(0, []);
    assert Round(0) + [] == Round(0);
    RoundRequested(1, Round(0));
    MidnightRequested(Round(1) + Round(0));
    var ops := Midnight() + Round(1) + Round(0);
    assert ops == Midnight() + (Round(1) + Round(0));
    MidnightRun();
    RoundRun(Run([EMPTY], Midnight()), 1);
    RoundRun(Run(Run([EMPTY], Midnight()), Round(1)), 0);
    RunInTwo([EMPTY], Midnight(), Round(1));
    RunInTwo([EMPTY], Midnight() + Round(1), Round(0));
    EmptyCounts();
    CountsExactly([EMPTY], ops);
    RunExtends([EMPTY], ops);
    NotCounted(Run([EMPTY], ops));
  }

  lemma EmptyCounts()
    ensures Counted(EMPTY) && LateTogether(EMPTY)
  {
  }

  lemma {:induction false} NotCounted(h: History)
    requires Charged(Now(h).acts, 1, 0) == 10
    ensures !CountedFrom(h, 0)
  {
    assert Now(h) == h[|h| - 1];
    hide Charged;
  }
}
