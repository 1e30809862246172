/**
 The `me` read of src/city-credit.ts: a per-resident checkpoint that reports every ledger change
 once. Ledger ids are positions in commit order, counted from 1; 0 stands for "no entry".
 */
module CreditAttention {
  import opened Common
  import opened CreditLedger

  const ADMISSION_THRESHOLD := 1_000
  const CHANGE_LIMIT := 20_000

  datatype Marker = Marker(previous: Option<nat>, last: nat, publicLast: nat)

  datatype Skip = NotSkipped | Busy | Timeout

  datatype Summary = Baseline | TooMany | Skipped(reason: Skip) | Scanned

  /** A committed report: the ledger interval (previous, last] and the public one (publicFrom, publicTo]. */
  datatype Report = Report(
    resident: nat,
    previous: Option<nat>,
    last: nat,
    change: Option<int>,
    publicFrom: Option<nat>,
    publicTo: nat,
    summary: Summary)

  datatype World = World(entries: seq<Entry>, changes: nat, markers: map<nat, Marker>, reports: seq<Report>)

  const NOBODY := World([], 0, map[], [])

  // ----- the report statement

  /** The resident's newest ledger id. */
  function Cutoff(entries: seq<Entry>, resident: nat): (id: nat)
    ensures id <= |entries|
    ensures forall i :: 0 <= i < |entries| && entries[i].resident == resident ==> i + 1 <= id
  {
    if entries == [] then 0
    else
      var n := |entries| - 1;
      if entries[n].resident == resident then n + 1 else Cutoff(entries[..n], resident)
  }

  predicate InInterval(id: nat, after: nat, through: nat) {
    after < id <= through
  }

  function ChangeCount(entries: seq<Entry>, resident: nat, after: nat, through: nat): nat {
    if entries == [] then 0
    else
      var n := |entries| - 1;
      var counts := InInterval(n + 1, after, through) && entries[n].resident == resident && AttentionCounts(entries[n]);
      ChangeCount(entries[..n], resident, after, through) + (if counts then 1 else 0)
  }

  function ChangeUnits(entries: seq<Entry>, resident: nat, after: nat, through: nat): int {
    if entries == [] then 0
    else
      var n := |entries| - 1;
      var counts := InInterval(n + 1, after, through) && entries[n].resident == resident && AttentionCounts(entries[n]);
      ChangeUnits(entries[..n], resident, after, through) + (if counts then AttentionUnits(entries[n]) else 0)
  }

  function MarkerOf(w: World, resident: nat): Option<Marker> {
    if resident in w.markers then Some(w.markers[resident]) else None
  }

  /** The upsert of the checkpoint. */
  function Advanced(before: Option<Marker>, cutoff: nat, through: nat): Marker {
    match before
    case None => Marker(None, cutoff, through)
    case Some(m) => Marker(Some(m.last), Max(m.last, cutoff), through)
  }

  function SummaryOf(publicFrom: Option<nat>, publicTo: nat, skip: Skip): Summary {
    if publicFrom.None? then Baseline
    else if publicTo - publicFrom.value > CHANGE_LIMIT then TooMany
    else if skip != NotSkipped then Skipped(skip)
    else Scanned
  }

  /** The report, computed from the entries that the statement's snapshot shows. */
  function ReportOf(seen: seq<Entry>, resident: nat, before: Option<Marker>, through: nat, skip: Skip): Report {
    var after := Advanced(before, Cutoff(seen, resident), through);
    var publicFrom := if before.Some? then Some(before.value.publicLast) else None;
    var change :=
      if after.previous.Some? && ChangeCount(seen, resident, after.previous.value, after.last) > 0
      then Some(ChangeUnits(seen, resident, after.previous.value, after.last))
      else None;
    Report(resident, after.previous, after.last, change, publicFrom, through, SummaryOf(publicFrom, through, skip))
  }

  function Seen(w: World, visible: nat): seq<Entry> {
    w.entries[..Min(visible, |w.entries|)]
  }

  /** The window check: the public cutoff lies between the checkpoint and the newest change. */
  predicate WindowOpen(w: World, resident: nat, through: nat) {
    through <= w.changes && (resident in w.markers ==> w.markers[resident].publicLast <= through)
  }

  // ----- runs of writes and committed reads

  datatype Op =
    | Write(entry: Entry)
    | Publish
    | Visit(resident: nat, visible: nat, through: nat, skip: Skip)

  function Visited(w: World, resident: nat, visible: nat, through: nat, skip: Skip): World {
    var marker := Advanced(MarkerOf(w, resident), Cutoff(Seen(w, visible), resident), through);
    w.(markers := w.markers[resident := marker],
       reports := w.reports + [ReportOf(Seen(w, visible), resident, MarkerOf(w, resident), through, skip)])
  }

  function Apply(w: World, op: Op): World {
    match op
    case Write(entry) => w.(entries := w.entries + [entry])
    case Publish => w.(changes := w.changes + 1)
    case Visit(resident, visible, through, skip) =>
      if WindowOpen(w, resident, through) then Visited(w, resident, visible, through, skip) else w
  }

  function Run(w: World, ops: seq<Op>): World
    decreases |ops|
  {
    if ops == [] then w else Run(Apply(w, ops[0]), ops[1..])
  }

  // ----- what the reports of one resident are

  function Mine(reports: seq<Report>, resident: nat): (mine: seq<Report>)
    ensures forall k :: 0 <= k < |mine| ==> mine[k].resident == resident
  {
    if reports == [] then []
    else
      var n := |reports| - 1;
      Mine(reports[..n], resident) + (if reports[n].resident == resident then [reports[n]] else [])
  }

  function Units(report: Report): int {
    if report.change.Some? then report.change.value else 0
  }

  ghost predicate Accurate(entries: seq<Entry>, report: Report) {
    && report.last <= |entries|
    && (report.previous.Some? ==>
         && report.previous.value <= report.last
         && Units(report) == Balance(entries[..report.last], report.resident)
                           - Balance(entries[..report.previous.value], report.resident))
  }

  /** The first report has no interval; each later one starts where the one before ended. */
  ghost predicate Chained(mine: seq<Report>) {
    && (mine != [] ==> mine[0].previous.None? && mine[0].publicFrom.None? && mine[0].change.None?)
    && (forall k :: 1 <= k < |mine| ==>
         && mine[k].previous == Some(mine[k - 1].last) && mine[k - 1].last <= mine[k].last
         && mine[k].publicFrom == Some(mine[k - 1].publicTo) && mine[k - 1].publicTo <= mine[k].publicTo)
  }

  ghost predicate MarkerAgrees(mine: seq<Report>, marker: Option<Marker>) {
    if mine == [] then marker.None?
    else
      var newest := mine[|mine| - 1];
      marker == Some(Marker(newest.previous, newest.last, newest.publicTo))
  }

  ghost predicate Good(w: World, resident: nat) {
    var mine := Mine(w.reports, resident);
    && Chained(mine)
    && MarkerAgrees(mine, MarkerOf(w, resident))
    && (forall k :: 0 <= k < |mine| ==> Accurate(w.entries, mine[k]))
    && (mine != [] ==> mine[|mine| - 1].publicTo <= w.changes)
  }

  // ----- the interval sums are balance differences

  lemma {:induction false} NoUnitsWithoutCount(entries: seq<Entry>, resident: nat, after: nat, through: nat)
    ensures ChangeCount(entries, resident, after, through) == 0 ==> ChangeUnits(entries, resident, after, through) == 0
  {
    if entries != [] {
      NoUnitsWithoutCount(entries[..|entries| - 1], resident, after, through);
    }
  }

  lemma {:induction false} NothingInEmptyInterval(entries: seq<Entry>, resident: nat, at: nat)
    ensures ChangeUnits(entries, resident, at, at) == 0
  {
    if entries != [] {
      NothingInEmptyInterval(entries[..|entries| - 1], resident, at);
    }
  }

  lemma {:induction false} UnitsAreBalance(entries: seq<Entry>, resident: nat, after: nat, through: nat)
    requires after <= through <= |entries|
    ensures ChangeUnits(entries, resident, after, through)
         == Balance(entries[..through], resident) - Balance(entries[..after], resident)
  {
    if entries != [] {
      var n := |entries| - 1;
      var shorter := entries[..n];
      SignRulesAgree(entries[n]);
      if through <= n {
        UnitsAreBalance(shorter, resident, after, through);
        assert shorter[..through] == entries[..through] && shorter[..after] == entries[..after];
      } else if after <= n {
        BeyondDoesNotCount(shorter, resident, after, n);
        UnitsAreBalance(shorter, resident, after, n);
        assert shorter[..n] == shorter && shorter[..after] == entries[..after] && entries[..through] == entries;
      } else {
        NothingInEmptyInterval(entries, resident, after);
      }
    }
  }

  lemma {:induction false} BeyondDoesNotCount(entries: seq<Entry>, resident: nat, after: nat, through: nat)
    requires |entries| <= through
    ensures ChangeUnits(entries, resident, after, through + 1) == ChangeUnits(entries, resident, after, through)
  {
    if entries != [] {
      BeyondDoesNotCount(entries[..|entries| - 1], resident, after, through);
    }
  }

  /** A report is right about the whole ledger even when its snapshot is older than the checkpoint. */
  lemma ReportAccurate(w: World, resident: nat, visible: nat, through: nat, skip: Skip)
    requires resident in w.markers ==> w.markers[resident].last <= |w.entries|
    ensures Accurate(w.entries, ReportOf(Seen(w, visible), resident, MarkerOf(w, resident), through, skip))
  {
    var seen := Seen(w, visible);
    var before := MarkerOf(w, resident);
    var after := Advanced(before, Cutoff(seen, resident), through);
    if before.Some? {
      NoUnitsWithoutCount(seen, resident, before.value.last, after.last);
      if before.value.last <= Cutoff(seen, resident) {
        UnitsAreBalance(seen, resident, before.value.last, after.last);
        assert seen[..after.last] == w.entries[..after.last];
        assert seen[..before.value.last] == w.entries[..before.value.last];
      } else {
        NothingInEmptyInterval(seen, resident, after.last);
      }
    }
  }

  lemma MineNext(reports: seq<Report>, report: Report, resident: nat)
    ensures Mine(reports + [report], resident)
         == Mine(reports, resident) + (if report.resident == resident then [report] else [])
  {
    assert (reports + [report])[..|reports|] == reports;
  }

  lemma AccurateLater(entries: seq<Entry>, later: seq<Entry>, report: Report)
    requires Accurate(entries, report) && entries <= later
    ensures Accurate(later, report)
  {
    assert later[..report.last] == entries[..report.last];
    if report.previous.Some? {
      assert later[..report.previous.value] == entries[..report.previous.value];
    }
  }

  lemma ChainExtended(mine: seq<Report>, marker: Option<Marker>, cutoff: nat, report: Report, through: nat)
    requires Chained(mine) && MarkerAgrees(mine, marker)
    requires marker.Some? ==> marker.value.publicLast <= through
    requires marker.None? ==> report.change.None?
    requires var after := Advanced(marker, cutoff, through);
      report.previous == after.previous && report.last == after.last && report.publicTo == through
    requires report.publicFrom == (if marker.Some? then Some(marker.value.publicLast) else None)
    ensures Chained(mine + [report])
    ensures MarkerAgrees(mine + [report], Some(Advanced(marker, cutoff, through)))
  {
    var longer := mine + [report];
    forall k | 1 <= k < |longer|
      ensures longer[k].previous == Some(longer[k - 1].last) && longer[k - 1].last <= longer[k].last
           && longer[k].publicFrom == Some(longer[k - 1].publicTo) && longer[k - 1].publicTo <= longer[k].publicTo
    {
      if k < |mine| {
        assert mine[k].previous == Some(mine[k - 1].last);
      }
    }
  }

  lemma VisitGood(w: World, reader: nat, visible: nat, through: nat, skip: Skip, resident: nat)
    requires Good(w, resident) && WindowOpen(w, reader, through)
    ensures Good(Visited(w, reader, visible, through, skip), resident)
  {
    hide Accurate, Balance, ChangeUnits, ChangeCount, Chained, MarkerAgrees, SummaryOf, Advanced;
    var next := Visited(w, reader, visible, through, skip);
    var report := next.reports[|w.reports|];
    MineNext(w.reports, report, resident);
    if reader == resident {
      OwnVisitGood(w, visible, through, skip, resident);
    } else {
      assert MarkerOf(next, resident) == MarkerOf(w, resident);
      assert Mine(next.reports, resident) == Mine(w.reports, resident);
    }
  }

  lemma OwnVisitGood(w: World, visible: nat, through: nat, skip: Skip, resident: nat)
    requires Good(w, resident) && WindowOpen(w, resident, through)
    ensures Good(Visited(w, resident, visible, through, skip), resident)
  {
    hide Accurate, Balance, ChangeUnits, ChangeCount, SummaryOf, Chained, Cutoff, Mine;
    var next := Visited(w, resident, visible, through, skip);
    var report := next.reports[|w.reports|];
    var mine := Mine(w.reports, resident);
    MineNext(w.reports, report, resident);
    if mine != [] {
      AccurateBounds(w.entries, mine[|mine| - 1]);
    }
    ReportAccurate(w, resident, visible, through, skip);
    ChainExtended(mine, MarkerOf(w, resident), Cutoff(Seen(w, visible), resident), report, through);
  }

  lemma AccurateBounds(entries: seq<Entry>, report: Report)
    requires Accurate(entries, report)
    ensures report.last <= |entries|
  {
  }

  lemma ApplyGood(w: World, op: Op, resident: nat)
    requires Good(w, resident)
    ensures Good(Apply(w, op), resident)
  {
    hide Accurate;
    match op
    case Write(entry) =>
      var mine := Mine(w.reports, resident);
      forall k | 0 <= k < |mine| ensures Accurate(w.entries + [entry], mine[k]) {
        AccurateLater(w.entries, w.entries + [entry], mine[k]);
      }
    case Publish =>
    case Visit(reader, visible, through, skip) =>
      if WindowOpen(w, reader, through) {
        VisitGood(w, reader, visible, through, skip, resident);
      }
  }

  lemma {:induction false} RunGood(w: World, ops: seq<Op>, resident: nat)
    requires Good(w, resident)
    ensures Good(Run(w, ops), resident)
    decreases |ops|
  {
    hide Good, Apply;
    if ops != [] {
      ApplyGood(w, ops[0], resident);
      RunGood(Apply(w, ops[0]), ops[1..], resident);
    }
  }

  // ----- exactly once

  predicate Reports(report: Report, id: nat) {
    report.previous.Some? && InInterval(id, report.previous.value, report.last)
  }

  lemma {:induction false} ChainRises(mine: seq<Report>, i: nat, j: nat)
    requires Chained(mine) && i <= j < |mine|
    ensures mine[i].last <= mine[j].last
    decreases j - i
  {
    if i < j {
      ChainRises(mine, i, j - 1);
    }
  }

  lemma {:induction false} SomeReportCovers(mine: seq<Report>, id: nat) returns (k: nat)
    requires Chained(mine) && mine != [] && InInterval(id, mine[0].last, mine[|mine| - 1].last)
    ensures 1 <= k < |mine| && Reports(mine[k], id)
    decreases |mine|
  {
    k := |mine| - 1;
    if id <= mine[k - 1].last {
      k := SomeReportCovers(mine[..k], id);
    }
  }

  /**
   Exactly once: in every run, each ledger id that a resident's checkpoint passed since its
   first read lies in the interval of exactly one of the resident's reports, and no id that the
   first read already covered, or that no read reached yet, lies in any.
   */
  lemma ExactlyOnce(ops: seq<Op>, resident: nat, id: nat)
    ensures var mine := Mine(Run(NOBODY, ops).reports, resident);
      mine != [] ==>
        if InInterval(id, mine[0].last, mine[|mine| - 1].last)
        then exists k | 0 <= k < |mine|
               :: Reports(mine[k], id) && forall j | 0 <= j < |mine| && Reports(mine[j], id) :: j == k
        else forall k | 0 <= k < |mine| :: !Reports(mine[k], id)
  {
    NobodyGood(resident);
    RunGood(NOBODY, ops, resident);
    var mine := Mine(Run(NOBODY, ops).reports, resident);
    hide *;
    GoodChained(Run(NOBODY, ops), resident);
    if mine != [] {
      ChainExactlyOnce(mine, id);
    }
  }

  lemma ChainExactlyOnce(mine: seq<Report>, id: nat)
    requires Chained(mine) && mine != []
    ensures
      if InInterval(id, mine[0].last, mine[|mine| - 1].last)
      then exists k | 0 <= k < |mine|
             :: Reports(mine[k], id) && forall j | 0 <= j < |mine| && Reports(mine[j], id) :: j == k
      else forall k | 0 <= k < |mine| :: !Reports(mine[k], id)
  {
    forall j, k | 0 <= j < k < |mine| && Reports(mine[k], id) ensures !Reports(mine[j], id) {
      ChainRises(mine, j, k - 1);
    }
    forall k | 0 <= k < |mine| && Reports(mine[k], id) ensures InInterval(id, mine[0].last, mine[|mine| - 1].last) {
      ChainRises(mine, 0, k - 1);
      ChainRises(mine, k, |mine| - 1);
    }
    if InInterval(id, mine[0].last, mine[|mine| - 1].last) {
      var k := SomeReportCovers(mine, id);
    }
  }

  lemma NobodyGood(resident: nat)
    ensures Good(NOBODY, resident)
  {
  }

  lemma GoodChained(w: World, resident: nat)
    requires Good(w, resident)
    ensures Chained(Mine(w.reports, resident))
  {
  }

  function TotalUnits(mine: seq<Report>): int {
    if mine == [] then 0 else TotalUnits(mine[..|mine| - 1]) + Units(mine[|mine| - 1])
  }

  lemma {:induction false} ChainTelescopes(entries: seq<Entry>, mine: seq<Report>, resident: nat)
    requires mine != [] && Chained(mine)
    requires forall k :: 0 <= k < |mine| ==> Accurate(entries, mine[k]) && mine[k].resident == resident
    ensures mine[0].last <= |entries| && mine[|mine| - 1].last <= |entries|
    ensures TotalUnits(mine)
         == Balance(entries[..mine[|mine| - 1].last], resident) - Balance(entries[..mine[0].last], resident)
    decreases |mine|
  {
    var n := |mine| - 1;
    assert Accurate(entries, mine[0]) && Accurate(entries, mine[n]);
    if n > 0 {
      ChainTelescopes(entries, mine[..n], resident);
    } else {
      assert mine[..n] == [];
    }
  }

  /** In every run the reported changes of a resident add up to the balance difference since the first read. */
  lemma ChangesTelescope(ops: seq<Op>, resident: nat)
    ensures var w := Run(NOBODY, ops);
      var mine := Mine(w.reports, resident);
      mine != [] ==>
        && mine[0].last <= |w.entries| && mine[|mine| - 1].last <= |w.entries|
        && TotalUnits(mine)
           == Balance(w.entries[..mine[|mine| - 1].last], resident) - Balance(w.entries[..mine[0].last], resident)
  {
    NobodyGood(resident);
    RunGood(NOBODY, ops, resident);
    var w := Run(NOBODY, ops);
    var mine := Mine(w.reports, resident);
    if mine != [] {
      ChainTelescopes(w.entries, mine, resident);
    }
  }

  /** A read whose snapshot is current leaves nothing behind: the total is then the balance itself. */
  lemma {:induction false} NothingAfterCutoff(entries: seq<Entry>, resident: nat, last: nat)
    requires Cutoff(entries, resident) <= last <= |entries|
    ensures Balance(entries[..last], resident) == Balance(entries, resident)
    decreases |entries|
  {
    if last < |entries| {
      var n := |entries| - 1;
      assert entries[n].resident != resident;
      NothingAfterCutoff(entries[..n], resident, last);
      assert entries[..n][..last] == entries[..last];
    } else {
      assert entries[..last] == entries;
    }
  }

  lemma FreshVisitCatchesUp(ops: seq<Op>, resident: nat, through: nat, skip: Skip)
    requires WindowOpen(Run(NOBODY, ops), resident, through)
    ensures var w := Run(NOBODY, ops);
      var mine := Mine(Visited(w, resident, |w.entries|, through, skip).reports, resident);
      && mine != [] && mine[0].last <= |w.entries|
      && TotalUnits(mine) == Balance(w.entries, resident) - Balance(w.entries[..mine[0].last], resident)
  {
    NobodyGood(resident);
    RunGood(NOBODY, ops, resident);
    var w := Run(NOBODY, ops);
    hide Run;
    var next := Visited(w, resident, |w.entries|, through, skip);
    VisitGood(w, resident, |w.entries|, through, skip, resident);
    assert Seen(w, |w.entries|) == w.entries;
    MineNext(w.reports, next.reports[|w.reports|], resident);
    var mine := Mine(next.reports, resident);
    ChainTelescopes(w.entries, mine, resident);
    NothingAfterCutoff(w.entries, resident, mine[|mine| - 1].last);
  }

  // ----- the read itself

  /** How a statement of the report ends: done, cancelled by its timeout, or another error. */
  datatype Ending = Done | Cancelled | Broken

  /** What others do before the next statement, and what the database then gives that statement. */
  datatype Turn = Turn(ops: seq<Op>, visible: nat, slot: bool, ending: Ending)

  /** Reads of a resident wait for that resident's lock. */
  predicate Waits(op: Op, locked: nat) {
    op.Visit? && op.resident == locked
  }

  /** The next turn; when nothing is scheduled the statement runs undisturbed. */
  function Upcoming(turns: seq<Turn>, w: World): Turn {
    if turns == [] then Turn([], |w.entries|, true, Done) else turns[0]
  }

  function Rest(turns: seq<Turn>): seq<Turn> {
    if turns == [] then [] else turns[1..]
  }

  /** The others' steps before a statement of the read; those that wait for its lock do nothing yet. */
  function Meanwhile(w: World, ops: seq<Op>, locked: nat): World
    decreases |ops|
  {
    if ops == [] then w
    else Meanwhile(if Waits(ops[0], locked) then w else Apply(w, ops[0]), ops[1..], locked)
  }

  /** The state that the n-th statement of the read meets, if its own earlier ones left no trace. */
  function Played(w: World, turns: seq<Turn>, n: nat, locked: nat): World
    decreases n
  {
    if n == 0 then w
    else Played(Meanwhile(w, Upcoming(turns, w).ops, locked), Rest(turns), n - 1, locked)
  }

  function TurnAt(w: World, turns: seq<Turn>, n: nat): Turn {
    if n < |turns| then turns[n] else Turn([], |w.entries|, true, Done)
  }

  /** Whether the public interval since the last visit is so large that the scan needs a slot. */
  predicate NeedsSlot(w: World, resident: nat) {
    && resident in w.markers
    && 1_000 <= w.changes - w.markers[resident].publicLast <= 20_000
  }

  /** How the read ends: which heavy arm its report has, if it commits one, and after how many statements. */
  datatype Course = Commits(skip: Skip, statements: nat) | Fails

  /**
   The course of a read after its window check; `turns` are those of the statements that follow. A
   read that gets no slot skips the scan as busy, and one whose scan is cancelled runs again
   without it.
   */
  function CourseOf(needsSlot: bool, turns: seq<Turn>, w: World): Course {
    var n := if needsSlot then 1 else 0;
    if needsSlot && !TurnAt(w, turns, 0).slot then
      if TurnAt(w, turns, 1).ending.Done? then Commits(Busy, 2) else Fails
    else
      match TurnAt(w, turns, n).ending
      case Done => Commits(NotSkipped, n + 1)
      case Broken => Fails
      case Cancelled => if TurnAt(w, turns, n + 1).ending.Done? then Commits(Timeout, n + 2) else Fails
  }

  /**
   What a read answers after its window check. It commits a report exactly when its course ends
   well. The report ends at the public change that was current at the check, and says whether that
   interval was scanned.
   */
  ghost predicate ReadOutcome(atCheck: World, turns: seq<Turn>, resident: nat, r: Option<Report>, later: World) {
    var course := CourseOf(NeedsSlot(atCheck, resident), turns, atCheck);
    && (r.Some? <==> course.Commits?)
    && (r.Some? ==>
         var before := Played(atCheck, turns, course.statements, resident);
         var visible := TurnAt(before, turns, course.statements - 1).visible;
         && later == Visited(before, resident, visible, atCheck.changes, course.skip)
         && later.reports == before.reports + [r.value]
         && r.value.publicTo == atCheck.changes
         && Heard(atCheck, resident, course.skip, r.value))
  }

  /** A first visit is a baseline; after that the interval is too large, skipped for the reason, or scanned. */
  predicate Heard(atCheck: World, resident: nat, skip: Skip, report: Report) {
    if resident !in atCheck.markers then report.publicFrom.None? && report.summary == Baseline
    else
      && report.publicFrom == Some(atCheck.markers[resident].publicLast)
      && report.publicFrom.value <= report.publicTo
      && (report.summary == TooMany <==> report.publicTo - report.publicFrom.value > 20_000)
      && (report.summary != TooMany ==>
           report.summary == if skip.NotSkipped? then Scanned else Skipped(skip))
  }

  /** The checkpoint of a resident whose reports are in order is never ahead of the public changes. */
  lemma WindowAlwaysOpen(w: World, resident: nat)
    requires Good(w, resident)
    ensures WindowOpen(w, resident, w.changes)
  {
  }

  lemma NextPlayed(w: World, turns: seq<Turn>, n: nat, locked: nat)
    ensures Played(w, turns, n + 1, locked)
         == Meanwhile(Played(w, turns, n, locked), TurnAt(Played(w, turns, n, locked), turns, n).ops, locked)
    ensures TurnAt(Played(w, turns, n + 1, locked), turns, n) == TurnAt(Played(w, turns, n, locked), turns, n)
    decreases n
  {
    assert forall v: World :: Meanwhile(v, [], locked) == v;
    hide Meanwhile;
    if n > 0 {
      NextPlayed(Meanwhile(w, Upcoming(turns, w).ops, locked), Rest(turns), n - 1, locked);
    }
  }

  lemma NothingPlayed(w: World, turns: seq<Turn>, locked: nat)
    ensures Played(w, turns, 0, locked) == w
  {
  }

  lemma OutcomeCommitted(
    atCheck: World, turns: seq<Turn>, resident: nat, skip: Skip, n: nat, before: World, r: Option<Report>, later: World)
    requires CourseOf(NeedsSlot(atCheck, resident), turns, atCheck) == Commits(skip, n) && n > 0
    requires before == Played(atCheck, turns, n, resident)
    requires r.Some? && later.reports == before.reports + [r.value]
    requires later == Visited(before, resident, TurnAt(before, turns, n - 1).visible, atCheck.changes, skip)
    requires r.value.publicTo == atCheck.changes && Heard(atCheck, resident, skip, r.value)
    ensures ReadOutcome(atCheck, turns, resident, r, later)
  {
  }

  lemma OutcomeFailed(atCheck: World, turns: seq<Turn>, resident: nat, later: World)
    requires CourseOf(NeedsSlot(atCheck, resident), turns, atCheck).Fails?
    ensures ReadOutcome(atCheck, turns, resident, None, later)
  {
  }

  lemma HeardReport(atCheck: World, w: World, resident: nat, visible: nat, skip: Skip)
    requires MarkerOf(w, resident) == MarkerOf(atCheck, resident) && WindowOpen(atCheck, resident, atCheck.changes)
    ensures Heard(atCheck, resident, skip,
                  ReportOf(Seen(w, visible), resident, MarkerOf(w, resident), atCheck.changes, skip))
  {
  }

  class Reader {
    var entries: seq<Entry>
    var changes: nat
    var markers: map<nat, Marker>
    /** The reports committed so far. */
    var reports: seq<Report>
    var turns: seq<Turn>

    function State(): World
      reads this
    {
      World(entries, changes, markers, reports)
    }

    ghost predicate Valid()
      reads this
    {
      forall resident: nat :: Good(State(), resident)
    }

    constructor (schedule: seq<Turn>)
      ensures Valid() && State() == NOBODY && turns == schedule
    {
      entries, changes, markers, reports, turns := [], 0, map[], [], schedule;
      new;
      forall resident: nat ensures Good(State(), resident) {
        NobodyGood(resident);
      }
    }

    /** The others take their turn; the locked resident's checkpoint and reports stay. */
    method Others(locked: nat) returns (turn: Turn)
      requires Valid()
      modifies this
      ensures Valid() && old(entries) <= entries && old(changes) <= changes
      ensures turn == old(Upcoming(turns, State())) && turns == Rest(old(turns))
      ensures State() == Meanwhile(old(State()), turn.ops, locked)
      ensures MarkerOf(State(), locked) == old(MarkerOf(State(), locked))
      ensures Mine(reports, locked) == old(Mine(reports, locked))
    {
      hide Good;
      turn := Upcoming(turns, State());
      turns := Rest(turns);
      ghost var last := Meanwhile(State(), turn.ops, locked);
      var k := 0;
      while k < |turn.ops|
        invariant 0 <= k <= |turn.ops|
        invariant Valid() && old(entries) <= entries && old(changes) <= changes
        invariant turns == Rest(old(turns)) && Meanwhile(State(), turn.ops[k..], locked) == last
        invariant MarkerOf(State(), locked) == old(MarkerOf(State(), locked))
        invariant Mine(reports, locked) == old(Mine(reports, locked))
      {
        assert turn.ops[k..][1..] == turn.ops[k + 1..];
        if !Waits(turn.ops[k], locked) {
          var next := Apply(State(), turn.ops[k]);
          EachGood(State(), turn.ops[k]);
          OthersKeep(State(), turn.ops[k], locked);
          entries, changes, markers, reports := next.entries, next.changes, next.markers, next.reports;
          assert State() == next;
        }
        k := k + 1;
      }
    }

    /** `readCityCreditAttentionSnapshot`: moves the checkpoint and computes the report. */
    method ReadSnapshot(resident: nat, visible: nat, through: nat, skip: Skip) returns (report: Report)
      modifies this`markers
      ensures report == ReportOf(Seen(old(State()), visible), resident, old(MarkerOf(State(), resident)), through, skip)
      ensures markers == old(markers)[resident :=
        Advanced(old(MarkerOf(State(), resident)), Cutoff(Seen(old(State()), visible), resident), through)]
      // the report starts where the checkpoint stood, ends where it now stands, and nothing visible lies beyond
      ensures report.publicTo == through == markers[resident].publicLast && report.last == markers[resident].last
      ensures report.previous == if resident in old(markers) then Some(old(markers)[resident].last) else None
      ensures resident in old(markers) ==>
        report.publicFrom == Some(old(markers)[resident].publicLast) && old(markers)[resident].last <= report.last
      ensures forall i :: 0 <= i < |entries| && i < visible && entries[i].resident == resident ==> i + 1 <= report.last
    {
      var seen := Seen(State(), visible);
      var before := MarkerOf(State(), resident);
      var cutoff := Cutoff(seen, resident);
      if resident in markers {
        var marker := markers[resident];
        markers := markers[resident := Marker(Some(marker.last), Max(marker.last, cutoff), through)];
      } else {
        markers := markers[resident := Marker(None, cutoff, through)];
      }
      report := ReportOf(seen, resident, before, through, skip);
      forall i | 0 <= i < |entries| && i < visible && entries[i].resident == resident ensures i + 1 <= report.last {
        assert seen[i] == entries[i];
      }
    }

    /** Undoes this transaction's write of the checkpoint. */
    method RestoreMarker(resident: nat, saved: Option<Marker>)
      modifies this`markers
      ensures markers == if saved.Some? then old(markers)[resident := saved.value] else old(markers) - {resident}
    {
      markers := if saved.Some? then markers[resident := saved.value] else markers - {resident};
    }

    /**
     `readCityCreditAttention`. Whatever runs beside it and however its statements end, it either
     commits exactly one new report that continues the resident's chain of reports, or commits
     nothing and leaves the checkpoint where it was; a cancelled attempt leaves no trace.
     */
    method ReadCityCreditAttention(residents: set<nat>, resident: nat) returns (r: Option<Report>)
      requires Valid()
      modifies this
      ensures Valid() && old(entries) <= entries
      ensures r.Some? ==> Mine(reports, resident) == old(Mine(reports, resident)) + [r.value]
      ensures r.None? ==>
        && Mine(reports, resident) == old(Mine(reports, resident))
        && MarkerOf(State(), resident) == old(MarkerOf(State(), resident))
      ensures
        if resident !in residents then r.None?
        else
          var atCheck := Meanwhile(old(State()), old(Upcoming(turns, State())).ops, resident);
          ReadOutcome(atCheck, Rest(old(turns)), resident, r, State())
    {
      hide Good, Mine, Meanwhile, ReadOutcome;
      if resident !in residents { return None; }
      var turn := Others(resident);
      var saved := MarkerOf(State(), resident);
      var through := changes;
      WindowAlwaysOpen(State(), resident);
      if saved.Some? && saved.value.publicLast > through { return None; }
      var intervalSize := if saved.Some? then through - saved.value.publicLast else 0;
      var needsAdmission := ADMISSION_THRESHOLD <= intervalSize <= CHANGE_LIMIT;
      r := ReportWithin(resident, through, saved, needsAdmission);
    }

    /** The part of the read behind its savepoint: the admitted scan, or the report without it. */
    method ReportWithin(resident: nat, through: nat, saved: Option<Marker>, needsAdmission: bool)
      returns (r: Option<Report>)
      requires Valid() && WindowOpen(State(), resident, through) && through == changes
      requires saved == MarkerOf(State(), resident) && needsAdmission == NeedsSlot(State(), resident)
      modifies this
      ensures Valid() && old(entries) <= entries
      ensures r.Some? ==> Mine(reports, resident) == old(Mine(reports, resident)) + [r.value]
      ensures r.None? ==>
        && Mine(reports, resident) == old(Mine(reports, resident))
        && MarkerOf(State(), resident) == old(MarkerOf(State(), resident))
      ensures ReadOutcome(old(State()), old(turns), resident, r, State())
    {
      hide Good, Advanced, ReportOf, Seen, Cutoff, Mine, Heard, Meanwhile, Visited, Played, ReadOutcome;
      ghost var atCheck, rest, n := State(), turns, 0;
      NothingPlayed(atCheck, rest, resident);
      var turn: Turn;
      var admitted, skip := !needsAdmission, Busy;
      if needsAdmission {
        NextPlayed(atCheck, rest, n, resident);
        turn := Others(resident);
        admitted, n := turn.slot, 1;
      }
      if admitted {
        NextPlayed(atCheck, rest, n, resident);
        turn := Others(resident);
        ghost var before := State();
        assert turn == TurnAt(before, rest, n);
        HeardReport(atCheck, before, resident, turn.visible, NotSkipped);
        r := Attempt(resident, turn, through, NotSkipped, saved);
        if turn.ending != Cancelled {
          if r.Some? {
            OutcomeCommitted(atCheck, rest, resident, NotSkipped, n + 1, before, r, State());
          } else {
            OutcomeFailed(atCheck, rest, resident, State());
          }
          return r;
        }
        skip, n := Timeout, n + 1;
      }
      NextPlayed(atCheck, rest, n, resident);
      turn := Others(resident);
      ghost var before := State();
      assert turn == TurnAt(before, rest, n);
      HeardReport(atCheck, before, resident, turn.visible, skip);
      r := Attempt(resident, turn, through, skip, saved);
      if r.Some? {
        OutcomeCommitted(atCheck, rest, resident, skip, n + 1, before, r, State());
      } else {
        OutcomeFailed(atCheck, rest, resident, State());
      }
    }

    /** One execution of the report statement: committed when it is done, rolled back otherwise. */
    method Attempt(resident: nat, turn: Turn, through: nat, skip: Skip, saved: Option<Marker>)
      returns (r: Option<Report>)
      requires Valid() && WindowOpen(State(), resident, through) && saved == MarkerOf(State(), resident)
      modifies this`markers, this`reports
      ensures Valid() && r.Some? == turn.ending.Done?
      ensures r.Some? ==> State() == Visited(old(State()), resident, turn.visible, through, skip)
      ensures r.Some? ==> reports == old(reports) + [r.value]
      ensures r.Some? ==>
        r.value == ReportOf(Seen(old(State()), turn.visible), resident, old(MarkerOf(State(), resident)), through, skip)
      ensures r.Some? ==> r.value.publicTo == through
      ensures r.Some? ==> Mine(reports, resident) == old(Mine(reports, resident)) + [r.value]
      ensures r.None? ==> State() == old(State())
    {
      hide Good, Advanced, SummaryOf, Seen, Cutoff;
      var report := ReadSnapshot(resident, turn.visible, through, skip);
      if turn.ending.Done? {
        reports := reports + [report];
        assert State() == Visited(old(State()), resident, turn.visible, through, skip);
        EachGood(old(State()), Visit(resident, turn.visible, through, skip));
        assert State() == Apply(old(State()), Visit(resident, turn.visible, through, skip));
        MineNext(old(reports), report, resident);
        r := Some(report);
      } else {
        RestoreMarker(resident, saved);
        assert markers == old(markers);
        assert State() == old(State());
        r := None;
      }
    }
  }

  lemma EachGood(w: World, op: Op)
    requires forall resident: nat :: Good(w, resident)
    ensures forall resident: nat :: Good(Apply(w, op), resident)
  {
    forall resident: nat ensures Good(Apply(w, op), resident) {
      ApplyGood(w, op, resident);
    }
  }

  lemma OthersKeep(w: World, op: Op, locked: nat)
    requires !Waits(op, locked)
    ensures var next := Apply(w, op);
      && MarkerOf(next, locked) == MarkerOf(w, locked) && Mine(next.reports, locked) == Mine(w.reports, locked)
      && w.entries <= next.entries && w.changes <= next.changes
  {
    if op.Visit? && WindowOpen(w, op.resident, op.through) {
      var next := Visited(w, op.resident, op.visible, op.through, op.skip);
      MineNext(w.reports, next.reports[|w.reports|], locked);
    }
  }
}
