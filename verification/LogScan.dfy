/**
 The adaptive request-log scan of scripts/export-vercel-failure-logs.ts.

 A server answers a time window with a page that may be cut short. An incomplete page is asked
 for again in two halves; the outer loop widens its window while failures are rare and narrows
 it while they are frequent.
 */
module LogScan {
  import opened Common

  const MAX_WINDOWS := 10_000
  const MIN_WINDOW_MS := 30_000
  const MAX_WINDOW_MS := 7_200_000
  const MAX_SAFE_INTEGER := 0x1f_ffff_ffff_ffff

  datatype Row = Row(requestId: string, timestamp: int, content: string)

  datatype Page = Page(rows: seq<Row>, hasMoreRows: bool)

  /** The server's answer to a window, or None when the read or one of its rows is refused. */
  type Server = (int, int) -> Option<Page>

  datatype ScanError =
    | InvalidInput | SafetyLimit | ReadFailed | OutsideWindow | SharedTimestamp(ms: int)

  datatype Window = Window(first: int, last: int)

  /**
   The scan's variables. `retained` lists the map's rows in insertion order; `leaves` lists the
   windows whose pages were complete.
   */
  datatype Scan = Scan(retained: seq<Row>, requests: nat, leaves: seq<Window>)

  datatype Outcome = Outcome(scan: Scan, error: Option<ScanError>, depth: nat)

  // ----- retained rows

  predicate Has(retained: seq<Row>, requestId: string) {
    exists i | 0 <= i < |retained| :: retained[i].requestId == requestId
  }

  function Retain(retained: seq<Row>, row: Row): seq<Row> {
    if Has(retained, row.requestId) then retained else retained + [row]
  }

  lemma HasAppended(retained: seq<Row>, row: Row)
    ensures forall id :: Has(retained + [row], id) <==> Has(retained, id) || id == row.requestId
  {
    forall id ensures Has(retained + [row], id) <==> Has(retained, id) || id == row.requestId {
      assert (retained + [row])[|retained|] == row;
      if Has(retained, id) {
        var i :| 0 <= i < |retained| && retained[i].requestId == id;
        assert (retained + [row])[i] == retained[i];
      }
    }
  }

  predicate Inside(row: Row, w: Window) {
    w.first <= row.timestamp <= w.last
  }

  /** The rows of a page up to the first one outside the window. */
  function Keep(retained: seq<Row>, rows: seq<Row>, w: Window): seq<Row>
    decreases |rows|
  {
    if rows == [] || !Inside(rows[0], w) then retained
    else Keep(Retain(retained, rows[0]), rows[1..], w)
  }

  predicate AllInside(rows: seq<Row>, w: Window) {
    forall i | 0 <= i < |rows| :: Inside(rows[i], w)
  }

  // ----- the recursion over one window

  function Middle(w: Window): int
    requires w.first < w.last
  {
    w.first + (w.last - w.first) / 2
  }

  datatype Answer = Stop(outcome: Outcome) | Bisect(read: Scan)

  /** One request: it ends the window, well or badly, or asks for the two halves. */
  function Ask(server: Server, w: Window, scan: Scan): Answer
    requires w.first <= w.last
  {
    if scan.requests >= MAX_WINDOWS then Stop(Outcome(scan, Some(SafetyLimit), 1))
    else
      var asked := scan.(requests := scan.requests + 1);
      match server(w.first, w.last)
      case None => Stop(Outcome(asked, Some(ReadFailed), 1))
      case Some(page) =>
        var read := asked.(retained := Keep(asked.retained, page.rows, w));
        if !AllInside(page.rows, w) then Stop(Outcome(read, Some(OutsideWindow), 1))
        else if !page.hasMoreRows then Stop(Outcome(read.(leaves := read.leaves + [w]), None, 1))
        else if w.first == w.last then Stop(Outcome(read, Some(SharedTimestamp(w.first)), 1))
        else Bisect(read)
  }

  function ReadWindow(server: Server, w: Window, scan: Scan): Outcome
    requires w.first <= w.last
    decreases w.last - w.first
  {
    match Ask(server, w, scan)
    case Stop(outcome) => outcome
    case Bisect(read) =>
      var left := ReadWindow(server, Window(w.first, Middle(w)), read);
      if left.error.Some? then left.(depth := left.depth + 1)
      else
        var right := ReadWindow(server, Window(Middle(w) + 1, w.last), left.scan);
        right.(depth := Max(left.depth, right.depth) + 1)
  }

  // ----- the outer loop

  type WindowSize = n: int | 30_000 <= n <= 7_200_000 witness 30_000

  /** The next window size: the bounds hold after every doubling and halving. */
  function NextSize(size: WindowSize, found: int): WindowSize {
    if found < 25 then Min(MAX_WINDOW_MS, size * 2)
    else if found > 100 then Max(MIN_WINDOW_MS, size / 2)
    else size
  }

  function ScanFrom(server: Server, start: int, end: int, size: WindowSize, scan: Scan): Outcome
    decreases end - start
  {
    if start > end then Outcome(scan, None, 0)
    else
      var w := Window(start, Min(end, start + size - 1));
      var read := ReadWindow(server, w, scan);
      if read.error.Some? then read
      else
        var rest := ScanFrom(server, w.last + 1, end,
                             NextSize(size, |read.scan.retained| - |scan.retained|), read.scan);
        rest.(depth := Max(read.depth, rest.depth))
  }

  // ----- the order of the result

  /** An abstract order on request ids, for the locale comparison of the source. */
  type IdOrder = (string, string) -> bool

  ghost predicate TotalOrder(le: IdOrder) {
    && (forall a, b :: le(a, b) || le(b, a))
    && (forall a, b :: le(a, b) && le(b, a) ==> a == b)
    && (forall a, b, c :: le(a, b) && le(b, c) ==> le(a, c))
  }

  predicate Before(a: Row, b: Row, le: IdOrder) {
    a.timestamp < b.timestamp || (a.timestamp == b.timestamp && le(a.requestId, b.requestId))
  }

  predicate Sorted(rows: seq<Row>, le: IdOrder) {
    forall i, j | 0 <= i < j < |rows| :: Before(rows[i], rows[j], le)
  }

  /** A stable insertion: after every row that does not come later. */
  function Insert(row: Row, rows: seq<Row>, le: IdOrder): seq<Row> {
    if rows != [] && !Before(row, rows[0], le) then [rows[0]] + Insert(row, rows[1..], le) else [row] + rows
  }

  function SortRows(rows: seq<Row>, le: IdOrder): seq<Row> {
    if rows == [] then [] else Insert(rows[0], SortRows(rows[1..], le), le)
  }

  datatype Input = Input(token: string, teamId: string, project: string, statusClass: string, startMs: int, endMs: int)

  predicate ValidInput(input: Input) {
    && input.token != "" && input.teamId != "" && input.project != ""
    && (input.statusClass == "4xx" || input.statusClass == "5xx")
    && 0 <= input.startMs <= input.endMs <= MAX_SAFE_INTEGER
  }

  const NOTHING := Scan([], 0, [])

  function FetchSpec(input: Input, server: Server, le: IdOrder): Result<seq<Row>, ScanError> {
    if !ValidInput(input) then Err(InvalidInput)
    else
      var all := ScanFrom(server, input.startMs, input.endMs, MIN_WINDOW_MS, NOTHING);
      if all.error.Some? then Err(all.error.value) else Ok(SortRows(all.scan.retained, le))
  }

  // ----- the program

  class Scanner {
    const server: Server
    var retained: seq<Row>
    var seen: set<string>
    var requestCount: nat
    ghost var leaves: seq<Window>

    ghost predicate Valid()
      reads this`retained, this`seen
    {
      forall id :: id in seen <==> Has(retained, id)
    }

    ghost function State(): Scan
      reads this
    {
      Scan(retained, requestCount, leaves)
    }

    constructor (server: Server)
      ensures Valid() && State() == NOTHING && this.server == server
    {
      this.server := server;
      retained, seen, requestCount, leaves := [], {}, 0, [];
    }

    /** The closure's loop over the rows of one page: it stops at a row outside the window. */
    method RetainPage(rows: seq<Row>, w: Window) returns (inside: bool)
      requires Valid()
      modifies this`retained, this`seen
      ensures Valid()
      ensures retained == Keep(old(retained), rows, w) && inside == AllInside(rows, w)
    {
      for i := 0 to |rows|
        invariant Valid()
        invariant AllInside(rows[..i], w)
        invariant Keep(old(retained), rows, w) == Keep(retained, rows[i..], w)
      {
        var row := rows[i];
        if !Inside(row, w) {
          return false;
        }
        HasAppended(retained, row);
        if row.requestId !in seen {
          retained := retained + [row];
          seen := seen + {row.requestId};
        }
        assert rows[i..][1..] == rows[i + 1..];
        assert rows[..i + 1] == rows[..i] + [row];
      }
      assert rows[..|rows|] == rows && rows[|rows|..] == [];
      inside := true;
    }

    /** The closure up to its recursive calls: whether the window has to be bisected. */
    method AskServer(w: Window) returns (error: Option<ScanError>, bisect: bool)
      requires Valid() && w.first <= w.last
      modifies this
      ensures Valid()
      ensures Ask(server, w, old(State())) ==
        if bisect then Bisect(State()) else Stop(Outcome(State(), error, 1))
    {
      hide Keep, AllInside, Has, Valid;
      if requestCount >= MAX_WINDOWS {
        return Some(SafetyLimit), false;
      }
      requestCount := requestCount + 1;
      var answer := server(w.first, w.last);
      if answer.None? {
        return Some(ReadFailed), false;
      }
      var page := answer.value;
      var inside := RetainPage(page.rows, w);
      if !inside {
        return Some(OutsideWindow), false;
      }
      if !page.hasMoreRows {
        leaves := leaves + [w];
        return None, false;
      }
      if w.first == w.last {
        return Some(SharedTimestamp(w.first)), false;
      }
      return None, true;
    }

    /** The inner closure, with the depth of its recursion. */
    method ReadChronologicalWindow(w: Window) returns (error: Option<ScanError>, ghost depth: nat)
      requires Valid() && w.first <= w.last
      modifies this
      ensures Valid()
      ensures Outcome(State(), error, depth) == ReadWindow(server, w, old(State()))
      decreases w.last - w.first
    {
      hide Valid, Ask;
      AskCost(server, w, State());
      var bisect;
      error, bisect := AskServer(w);
      if !bisect {
        return error, 1;
      }
      var midpoint := w.first + (w.last - w.first) / 2;
      ghost var leftDepth, rightDepth: nat;
      error, leftDepth := ReadChronologicalWindow(Window(w.first, midpoint));
      if error.Some? {
        return error, leftDepth + 1;
      }
      error, rightDepth := ReadChronologicalWindow(Window(midpoint + 1, w.last));
      depth := Max(leftDepth, rightDepth) + 1;
    }
  }

  method FetchVercelFailureRows(input: Input, server: Server, le: IdOrder)
    returns (r: Result<seq<Row>, ScanError>)
    ensures r == FetchSpec(input, server, le)
  {
    hide ReadWindow, SortRows;
    if !ValidInput(input) {
      return Err(InvalidInput);
    }
    var scanner := new Scanner(server);
    var windowStart := input.startMs;
    var windowSize: WindowSize := MIN_WINDOW_MS;
    ghost var whole := ScanFrom(server, input.startMs, input.endMs, MIN_WINDOW_MS, NOTHING);
    while windowStart <= input.endMs
      invariant scanner.Valid() && scanner.server == server
      invariant ScanFrom(server, windowStart, input.endMs, windowSize, scanner.State()).scan == whole.scan
      invariant ScanFrom(server, windowStart, input.endMs, windowSize, scanner.State()).error == whole.error
      decreases input.endMs - windowStart
    {
      var windowEnd := Min(input.endMs, windowStart + windowSize - 1);
      var retainedBefore := |scanner.retained|;
      var error, _ := scanner.ReadChronologicalWindow(Window(windowStart, windowEnd));
      if error.Some? {
        return Err(error.value);
      }
      windowSize := NextSize(windowSize, |scanner.retained| - retainedBefore);
      windowStart := windowEnd + 1;
    }
    r := Ok(SortRows(scanner.retained, le));
  }

  // ----- windows tile the range

  predicate Tiles(leaves: seq<Window>, first: int, last: int)
    decreases |leaves|
  {
    if leaves == [] then first == last + 1
    else
      && leaves[0].first == first && first <= leaves[0].last <= last
      && Tiles(leaves[1..], leaves[0].last + 1, last)
  }

  ghost predicate CompletePage(server: Server, w: Window) {
    && server(w.first, w.last).Some?
    && !server(w.first, w.last).value.hasMoreRows
    && AllInside(server(w.first, w.last).value.rows, w)
  }

  lemma {:induction false} TilesConcat(a: seq<Window>, b: seq<Window>, first: int, middle: int, last: int)
    requires Tiles(a, first, middle) && Tiles(b, middle + 1, last) && first <= middle + 1 <= last + 1
    ensures Tiles(a + b, first, last)
    decreases |a|
  {
    if a == [] {
      assert a + b == b;
    } else {
      TilesBounds(a[1..], a[0].last + 1, middle);
      TilesConcat(a[1..], b, a[0].last + 1, middle, last);
      assert (a + b)[1..] == a[1..] + b;
    }
  }

  lemma {:induction false} TilesBounds(a: seq<Window>, first: int, last: int)
    requires Tiles(a, first, last)
    ensures first <= last + 1
  {
  }

  /** Every instant of a tiled range lies in exactly one tile. */
  lemma {:induction false} TileOf(leaves: seq<Window>, first: int, last: int, t: int) returns (k: nat)
    requires Tiles(leaves, first, last) && first <= t <= last
    ensures k < |leaves| && leaves[k].first <= t <= leaves[k].last
    ensures forall j :: 0 <= j < |leaves| && leaves[j].first <= t <= leaves[j].last ==> j == k
    decreases |leaves|
  {
    if t <= leaves[0].last {
      k := 0;
      forall j | 1 <= j < |leaves| ensures leaves[j].first > leaves[0].last {
        TilesStartLater(leaves[1..], leaves[0].last + 1, last, j - 1);
      }
    } else {
      k := TileOf(leaves[1..], leaves[0].last + 1, last, t);
      forall j | 0 <= j < |leaves| && leaves[j].first <= t <= leaves[j].last ensures j == k + 1 {
        if j > 0 {
          assert leaves[1..][j - 1] == leaves[j];
        }
      }
      k := k + 1;
    }
  }

  lemma {:induction false} TilesStartLater(leaves: seq<Window>, first: int, last: int, j: nat)
    requires Tiles(leaves, first, last) && j < |leaves|
    ensures first <= leaves[j].first
    decreases |leaves|
  {
    if j > 0 {
      TilesStartLater(leaves[1..], leaves[0].last + 1, last, j - 1);
    }
  }

  /** What a call adds to the leaves. */
  function Added(before: Scan, after: Scan): seq<Window>
    requires before.leaves <= after.leaves
  {
    after.leaves[|before.leaves|..]
  }

  ghost predicate Covers(server: Server, before: Scan, after: Scan, first: int, last: int) {
    && before.leaves <= after.leaves
    && Tiles(Added(before, after), first, last)
    && forall i :: 0 <= i < |Added(before, after)| ==> CompletePage(server, Added(before, after)[i])
  }

  lemma CoversConcat(server: Server, a: Scan, b: Scan, c: Scan, first: int, middle: int, last: int)
    requires Covers(server, a, b, first, middle) && Covers(server, b, c, middle + 1, last)
    requires first <= middle + 1 <= last + 1
    ensures Covers(server, a, c, first, last)
  {
    TilesConcat(Added(a, b), Added(b, c), first, middle, last);
    assert Added(a, c) == Added(a, b) + Added(b, c);
  }

  lemma AskCovers(server: Server, w: Window, scan: Scan)
    requires w.first <= w.last
    ensures var answer := Ask(server, w, scan);
      && (answer.Bisect? ==> answer.read.leaves == scan.leaves && w.first < w.last)
      && (answer.Stop? && answer.outcome.error.None? ==> Covers(server, scan, answer.outcome.scan, w.first, w.last))
  {
    var answer := Ask(server, w, scan);
    if answer.Stop? && answer.outcome.error.None? {
      assert Added(scan, answer.outcome.scan) == [w];
      assert Tiles([w][1..], w.last + 1, w.last);
    }
  }

  lemma {:induction false} ReadWindowCovers(server: Server, w: Window, scan: Scan)
    requires w.first <= w.last && ReadWindow(server, w, scan).error.None?
    ensures Covers(server, scan, ReadWindow(server, w, scan).scan, w.first, w.last)
    decreases w.last - w.first
  {
    hide Ask, Tiles;
    AskCovers(server, w, scan);
    if Ask(server, w, scan).Bisect? {
      var read := Ask(server, w, scan).read;
      var left := ReadWindow(server, Window(w.first, Middle(w)), read).scan;
      ReadWindowCovers(server, Window(w.first, Middle(w)), read);
      ReadWindowCovers(server, Window(Middle(w) + 1, w.last), left);
      CoversConcat(server, read, left, ReadWindow(server, w, scan).scan, w.first, Middle(w), w.last);
    }
  }

  lemma {:induction false} ScanCovers(server: Server, start: int, end: int, size: WindowSize, scan: Scan)
    requires start <= end + 1 && ScanFrom(server, start, end, size, scan).error.None?
    ensures Covers(server, scan, ScanFrom(server, start, end, size, scan).scan, start, end)
    decreases end - start
  {
    hide ReadWindow, Tiles;
    if start <= end {
      var w := Window(start, Min(end, start + size - 1));
      var read := ReadWindow(server, w, scan).scan;
      ReadWindowCovers(server, w, scan);
      ScanCovers(server, w.last + 1, end, NextSize(size, |read.retained| - |scan.retained|), read);
      CoversConcat(server, scan, read, ScanFrom(server, start, end, size, scan).scan, start, w.last, end);
    } else {
      CoversNothing(server, scan, start, end);
    }
  }

  lemma CoversNothing(server: Server, scan: Scan, first: int, last: int)
    requires first == last + 1
    ensures Covers(server, scan, scan, first, last)
  {
    assert Added(scan, scan) == [];
  }

  // ----- which rows are retained

  ghost predicate DistinctIds(rows: seq<Row>) {
    forall i, j :: 0 <= i < j < |rows| ==> rows[i].requestId != rows[j].requestId
  }

  ghost predicate From(rows: seq<Row>, log: iset<Row>) {
    forall i :: 0 <= i < |rows| ==> rows[i] in log
  }

  ghost predicate Keeps(rows: seq<Row>, kept: seq<Row>) {
    forall i :: 0 <= i < |rows| ==> Has(kept, rows[i].requestId)
  }

  lemma {:induction false} KeepProperties(retained: seq<Row>, rows: seq<Row>, w: Window, log: iset<Row>)
    requires DistinctIds(retained) && From(retained, log) && From(rows, log)
    ensures retained <= Keep(retained, rows, w)
    ensures DistinctIds(Keep(retained, rows, w)) && From(Keep(retained, rows, w), log)
    ensures AllInside(rows, w) ==> Keeps(rows, Keep(retained, rows, w))
    ensures forall i :: |retained| <= i < |Keep(retained, rows, w)| ==> Inside(Keep(retained, rows, w)[i], w)
    decreases |rows|
  {
    if rows != [] && Inside(rows[0], w) {
      var next := Retain(retained, rows[0]);
      assert Has(next, rows[0].requestId) by {
        if next != retained {
          assert next[|retained|] == rows[0];
        }
      }
      KeepProperties(next, rows[1..], w, log);
      var kept := Keep(retained, rows, w);
      HasLater(next, kept, rows[0].requestId);
      if AllInside(rows, w) {
        forall i | 0 <= i < |rows| ensures Has(kept, rows[i].requestId) {
          if i > 0 {
            assert rows[1..][i - 1] == rows[i];
          }
        }
      }
    }
  }

  lemma HasLater(a: seq<Row>, b: seq<Row>, id: string)
    requires a <= b && Has(a, id)
    ensures Has(b, id)
  {
    var i :| 0 <= i < |a| && a[i].requestId == id;
    assert b[i] == a[i];
  }

  /**
   What is assumed of the server: its pages hold only rows of the log, and a page that claims
   to be complete holds every row of its window.
   */
  ghost predicate Faithful(server: Server, log: iset<Row>) {
    forall first: int, last: int :: server(first, last).Some? ==>
      && From(server(first, last).value.rows, log)
      && (!server(first, last).value.hasMoreRows ==>
           forall row :: row in log && first <= row.timestamp <= last ==> row in server(first, last).value.rows)
  }

  /** A good set of retained rows: distinct ids, all from the log, all inside the range. */
  ghost predicate Good(scan: Scan, server: Server, log: iset<Row>, range: Window) {
    && DistinctIds(scan.retained)
    && From(scan.retained, log)
    && AllInside(scan.retained, range)
    && (forall k :: 0 <= k < |scan.leaves| ==> KeptLeaf(scan, server, scan.leaves[k]))
  }

  ghost predicate KeptLeaf(scan: Scan, server: Server, leaf: Window) {
    server(leaf.first, leaf.last).Some? && Keeps(server(leaf.first, leaf.last).value.rows, scan.retained)
  }

  lemma KeptLater(before: Scan, after: Scan, server: Server, leaf: Window)
    requires before.retained <= after.retained && KeptLeaf(before, server, leaf)
    ensures KeptLeaf(after, server, leaf)
  {
    var rows := server(leaf.first, leaf.last).value.rows;
    forall i | 0 <= i < |rows| ensures Has(after.retained, rows[i].requestId) {
      HasLater(before.retained, after.retained, rows[i].requestId);
    }
  }

  lemma MoreRetained(before: Scan, after: Scan, server: Server, log: iset<Row>, range: Window)
    requires Good(before, server, log, range) && before.retained <= after.retained
    requires DistinctIds(after.retained) && From(after.retained, log) && AllInside(after.retained, range)
    requires before.leaves <= after.leaves
    requires forall k :: |before.leaves| <= k < |after.leaves| ==> KeptLeaf(after, server, after.leaves[k])
    ensures Good(after, server, log, range)
  {
    forall k | 0 <= k < |after.leaves| ensures KeptLeaf(after, server, after.leaves[k]) {
      if k < |before.leaves| {
        KeptLater(before, after, server, before.leaves[k]);
      }
    }
  }

  lemma AskGood(server: Server, w: Window, scan: Scan, log: iset<Row>, range: Window)
    requires range.first <= w.first <= w.last <= range.last
    requires Faithful(server, log) && Good(scan, server, log, range)
    ensures var answer := Ask(server, w, scan);
      var after := if answer.Stop? then answer.outcome.scan else answer.read;
      Good(after, server, log, range) && scan.retained <= after.retained
  {
    var answer := Ask(server, w, scan);
    var after := if answer.Stop? then answer.outcome.scan else answer.read;
    if after != scan && server(w.first, w.last).Some? {
      var page := server(w.first, w.last).value;
      KeepProperties(scan.retained, page.rows, w, log);
      forall i | 0 <= i < |after.retained| ensures Inside(after.retained[i], range) {
        if i < |scan.retained| {
          assert after.retained[i] == scan.retained[i];
        }
      }
      MoreRetained(scan, after, server, log, range);
    }
  }

  lemma {:induction false} ReadWindowGood(server: Server, w: Window, scan: Scan, log: iset<Row>, range: Window)
    requires range.first <= w.first <= w.last <= range.last
    requires Faithful(server, log) && Good(scan, server, log, range)
    ensures Good(ReadWindow(server, w, scan).scan, server, log, range)
    ensures scan.retained <= ReadWindow(server, w, scan).scan.retained
    decreases w.last - w.first
  {
    hide Ask, Good, Faithful;
    AskGood(server, w, scan, log, range);
    AskCovers(server, w, scan);
    if Ask(server, w, scan).Bisect? {
      var read := Ask(server, w, scan).read;
      ReadWindowGood(server, Window(w.first, Middle(w)), read, log, range);
      var left := ReadWindow(server, Window(w.first, Middle(w)), read);
      if left.error.None? {
        ReadWindowGood(server, Window(Middle(w) + 1, w.last), left.scan, log, range);
      }
    }
  }

  lemma {:induction false} ScanGood(
    server: Server, start: int, end: int, size: WindowSize, scan: Scan, log: iset<Row>, range: Window)
    requires range.first <= start && end <= range.last
    requires Faithful(server, log) && Good(scan, server, log, range)
    ensures Good(ScanFrom(server, start, end, size, scan).scan, server, log, range)
    decreases end - start
  {
    hide ReadWindow, Good, Faithful;
    if start <= end {
      var w := Window(start, Min(end, start + size - 1));
      ReadWindowGood(server, w, scan, log, range);
      var read := ReadWindow(server, w, scan);
      if read.error.None? {
        ScanGood(server, w.last + 1, end, NextSize(size, |read.scan.retained| - |scan.retained|),
                 read.scan, log, range);
      }
    }
  }

  /** Every row of the log in the range has its request id retained. */
  lemma RetainedComplete(server: Server, start: int, end: int, scan: Scan, log: iset<Row>, row: Row)
    requires Faithful(server, log) && Covers(server, NOTHING, scan, start, end)
    requires Good(scan, server, log, Window(start, end))
    requires row in log && start <= row.timestamp <= end
    ensures Has(scan.retained, row.requestId)
  {
    assert Added(NOTHING, scan) == scan.leaves;
    var k := TileOf(scan.leaves, start, end, row.timestamp);
    var leaf := scan.leaves[k];
    assert CompletePage(server, leaf) && KeptLeaf(scan, server, leaf);
    assert row in server(leaf.first, leaf.last).value.rows;
  }

  // ----- sorting

  lemma {:induction false} InsertPermutes(row: Row, rows: seq<Row>, le: IdOrder)
    ensures multiset(Insert(row, rows, le)) == multiset(rows) + multiset{row}
    decreases |rows|
  {
    if rows != [] && !Before(row, rows[0], le) {
      InsertPermutes(row, rows[1..], le);
      assert rows == [rows[0]] + rows[1..];
    }
  }

  lemma {:induction false} InsertSorts(row: Row, rows: seq<Row>, le: IdOrder)
    requires TotalOrder(le) && Sorted(rows, le)
    ensures Sorted(Insert(row, rows, le), le)
    decreases |rows|
  {
    if rows != [] && !Before(row, rows[0], le) {
      var rest := Insert(row, rows[1..], le);
      InsertSorts(row, rows[1..], le);
      InsertPermutes(row, rows[1..], le);
      forall j | 0 <= j < |rest| ensures Before(rows[0], rest[j], le) {
        assert rest[j] in multiset(rest);
        assert rest[j] == row || rest[j] in rows[1..];
      }
    } else {
      forall j | 0 <= j < |rows| ensures Before(row, rows[j], le) {
        BeforeTransitive(row, rows[0], rows[j], le);
      }
    }
  }

  lemma BeforeTransitive(a: Row, b: Row, c: Row, le: IdOrder)
    requires TotalOrder(le) && Before(a, b, le) && (b == c || Before(b, c, le))
    ensures Before(a, c, le)
  {
  }

  lemma {:induction false} SortProperties(rows: seq<Row>, le: IdOrder)
    requires TotalOrder(le)
    ensures Sorted(SortRows(rows, le), le)
    ensures multiset(SortRows(rows, le)) == multiset(rows)
    decreases |rows|
  {
    if rows != [] {
      SortProperties(rows[1..], le);
      InsertSorts(rows[0], SortRows(rows[1..], le), le);
      InsertPermutes(rows[0], SortRows(rows[1..], le), le);
      assert rows == [rows[0]] + rows[1..];
    }
  }

  lemma SortKeepsIds(rows: seq<Row>, le: IdOrder)
    requires TotalOrder(le) && DistinctIds(rows)
    ensures DistinctIds(SortRows(rows, le))
  {
    SortProperties(rows, le);
    var sorted := SortRows(rows, le);
    forall i, j | 0 <= i < j < |sorted| ensures sorted[i].requestId != sorted[j].requestId {
      if sorted[i].requestId == sorted[j].requestId {
        TwoPlaces(sorted, i, j);
        assert multiset(rows)[sorted[i]] + multiset(rows)[sorted[j]] >= 2;
        assert sorted[i] in multiset(rows) && sorted[j] in multiset(rows);
        var a :| 0 <= a < |rows| && rows[a] == sorted[i];
        var b :| 0 <= b < |rows| && rows[b] == sorted[j];
        assert a == b;
        OnePlace(rows, a);
        assert false;
      }
    }
  }

  lemma TwoPlaces(rows: seq<Row>, i: nat, j: nat)
    requires i < j < |rows|
    ensures rows[i] == rows[j] ==> multiset(rows)[rows[i]] >= 2
  {
    assert rows == rows[..j] + [rows[j]] + rows[j + 1..];
    assert rows[..j][i] == rows[i];
  }

  lemma OnePlace(rows: seq<Row>, a: nat)
    requires a < |rows| && DistinctIds(rows)
    ensures multiset(rows)[rows[a]] == 1
  {
    assert rows == rows[..a] + [rows[a]] + rows[a + 1..];
    assert rows[a] !in rows[..a] && rows[a] !in rows[a + 1..];
  }

  // ----- main results

  ghost predicate OneRowPerId(log: iset<Row>) {
    forall a, b :: a in log && b in log && a.requestId == b.requestId ==> a == b
  }

  /**
   A successful scan of a faithful server lists exactly the log's rows of the range, each
   request id once, in (timestamp, id) order.
   */
  lemma ScanExact(input: Input, server: Server, le: IdOrder, log: iset<Row>)
    requires TotalOrder(le) && Faithful(server, log) && FetchSpec(input, server, le).Ok?
    ensures var rows := FetchSpec(input, server, le).value;
      && Sorted(rows, le) && DistinctIds(rows)
      && (forall i, j :: 0 <= i < j < |rows| ==>
           rows[i].timestamp < rows[j].timestamp
           || (rows[i].timestamp == rows[j].timestamp && le(rows[i].requestId, rows[j].requestId)))
      && (forall row :: row in rows ==> row in log && input.startMs <= row.timestamp <= input.endMs)
      && (forall row :: row in log && input.startMs <= row.timestamp <= input.endMs ==> Has(rows, row.requestId))
      && (OneRowPerId(log) ==>
           forall row :: row in rows <==> row in log && input.startMs <= row.timestamp <= input.endMs)
  {
    hide ScanFrom, SortRows;
    var range := Window(input.startMs, input.endMs);
    var scan := ScanFrom(server, input.startMs, input.endMs, MIN_WINDOW_MS, NOTHING).scan;
    ScanCovers(server, input.startMs, input.endMs, MIN_WINDOW_MS, NOTHING);
    ScanGood(server, input.startMs, input.endMs, MIN_WINDOW_MS, NOTHING, log, range);
    SortProperties(scan.retained, le);
    SortKeepsIds(scan.retained, le);
    var rows := SortRows(scan.retained, le);
    forall row | row in rows ensures row in log && Inside(row, range) {
      assert row in multiset(scan.retained);
    }
    forall row | row in log && Inside(row, range) ensures Has(rows, row.requestId) {
      RetainedComplete(server, input.startMs, input.endMs, scan, log, row);
      var i :| 0 <= i < |scan.retained| && scan.retained[i].requestId == row.requestId;
      assert scan.retained[i] in multiset(rows);
    }
  }

  /** The windows with complete pages cut the range into pieces: no gap, no overlap. */
  lemma LeavesPartitionRange(input: Input, server: Server, le: IdOrder)
    requires FetchSpec(input, server, le).Ok?
    ensures var leaves := ScanFrom(server, input.startMs, input.endMs, MIN_WINDOW_MS, NOTHING).scan.leaves;
      && Tiles(leaves, input.startMs, input.endMs)
      && forall i :: 0 <= i < |leaves| ==> CompletePage(server, leaves[i])
  {
    ScanCovers(server, input.startMs, input.endMs, MIN_WINDOW_MS, NOTHING);
    var scan := ScanFrom(server, input.startMs, input.endMs, MIN_WINDOW_MS, NOTHING).scan;
    assert Added(NOTHING, scan) == scan.leaves;
  }

  // ----- costs

  lemma AskCost(server: Server, w: Window, scan: Scan)
    requires w.first <= w.last
    ensures var answer := Ask(server, w, scan);
      && (answer.Stop? ==> answer.outcome.scan.requests <= scan.requests + 1 && answer.outcome.depth == 1)
      && (answer.Stop? && scan.requests >= MAX_WINDOWS ==> answer.outcome.scan == scan)
      && (answer.Bisect? ==> w.first < w.last && answer.read.requests == scan.requests + 1 <= MAX_WINDOWS)
  {
  }

  /** A window of n milliseconds costs at most 2n - 1 requests, however the server answers. */
  lemma {:induction false} WindowCost(server: Server, w: Window, scan: Scan)
    requires w.first <= w.last
    ensures ReadWindow(server, w, scan).scan.requests - scan.requests <= 2 * (w.last - w.first + 1) - 1
    decreases w.last - w.first
  {
    hide Ask;
    AskCost(server, w, scan);
    if Ask(server, w, scan).Bisect? {
      var read := Ask(server, w, scan).read;
      WindowCost(server, Window(w.first, Middle(w)), read);
      WindowCost(server, Window(Middle(w) + 1, w.last), ReadWindow(server, Window(w.first, Middle(w)), read).scan);
    }
  }

  function PowerOfTwo(k: nat): nat {
    if k == 0 then 1 else 2 * PowerOfTwo(k - 1)
  }

  /** A window of at most 2^k milliseconds is bisected at most k times. */
  lemma {:induction false} BisectionDepth(server: Server, w: Window, scan: Scan, k: nat)
    requires w.first <= w.last && w.last - w.first + 1 <= PowerOfTwo(k)
    ensures 1 <= ReadWindow(server, w, scan).depth <= k + 1
    decreases k
  {
    hide Ask;
    AskCost(server, w, scan);
    if Ask(server, w, scan).Bisect? {
      var read := Ask(server, w, scan).read;
      assert k > 0;
      BisectionDepth(server, Window(w.first, Middle(w)), read, k - 1);
      BisectionDepth(server, Window(Middle(w) + 1, w.last),
                     ReadWindow(server, Window(w.first, Middle(w)), read).scan, k - 1);
    }
  }

  lemma WidestWindow()
    ensures MAX_WINDOW_MS <= PowerOfTwo(23)
  {
    assert PowerOfTwo(8) == 256;
    assert PowerOfTwo(16) == 256 * PowerOfTwo(8);
    assert PowerOfTwo(23) == 128 * PowerOfTwo(16);
  }

  /** No scan makes more than 10,000 requests or recurses deeper than 24 windows. */
  lemma {:induction false} ScanBounds(server: Server, start: int, end: int, size: WindowSize, scan: Scan)
    requires scan.requests <= MAX_WINDOWS
    ensures ScanFrom(server, start, end, size, scan).scan.requests <= 10_000
    ensures ScanFrom(server, start, end, size, scan).depth <= 24
    decreases end - start
  {
    hide ReadWindow, PowerOfTwo;
    if start <= end {
      var w := Window(start, Min(end, start + size - 1));
      WidestWindow();
      BisectionDepth(server, w, scan, 23);
      RequestLimit(server, w, scan);
      var read := ReadWindow(server, w, scan);
      if read.error.None? {
        ScanBounds(server, w.last + 1, end, NextSize(size, |read.scan.retained| - |scan.retained|), read.scan);
      }
    }
  }

  lemma {:induction false} RequestLimit(server: Server, w: Window, scan: Scan)
    requires w.first <= w.last && scan.requests <= MAX_WINDOWS
    ensures ReadWindow(server, w, scan).scan.requests <= MAX_WINDOWS
    decreases w.last - w.first
  {
    hide Ask;
    AskCost(server, w, scan);
    if Ask(server, w, scan).Bisect? {
      var read := Ask(server, w, scan).read;
      RequestLimit(server, Window(w.first, Middle(w)), read);
      RequestLimit(server, Window(Middle(w) + 1, w.last), ReadWindow(server, Window(w.first, Middle(w)), read).scan);
    }
  }

  // ----- when a scan succeeds

  /** The requests that reading a window takes, or None when a page it leads to is refused. */
  function Needs(server: Server, w: Window): (r: Option<nat>)
    requires w.first <= w.last
    ensures r.Some? ==> r.value >= 1
    decreases w.last - w.first
  {
    var answer := server(w.first, w.last);
    if answer.None? || !AllInside(answer.value.rows, w) then None
    else if !answer.value.hasMoreRows then Some(1)
    else if w.first == w.last then None
    else
      var left := Needs(server, Window(w.first, Middle(w)));
      var right := Needs(server, Window(Middle(w) + 1, w.last));
      if left.None? || right.None? then None else Some(1 + left.value + right.value)
  }

  /** The rows that a window which can be read leaves behind. */
  function RowsAfter(server: Server, w: Window, retained: seq<Row>): seq<Row>
    requires w.first <= w.last && Needs(server, w).Some?
    decreases w.last - w.first
  {
    var page := server(w.first, w.last).value;
    var kept := Keep(retained, page.rows, w);
    if !page.hasMoreRows then kept
    else RowsAfter(server, Window(Middle(w) + 1, w.last), RowsAfter(server, Window(w.first, Middle(w)), kept))
  }

  /** The requests of all windows from `start` on, each as wide as the rows found before it allow. */
  function ScanNeeds(server: Server, start: int, end: int, size: WindowSize, retained: seq<Row>): Option<nat>
    decreases end - start
  {
    if start > end then Some(0)
    else
      var w := Window(start, Min(end, start + size - 1));
      var here := Needs(server, w);
      if here.None? then None
      else
        var kept := RowsAfter(server, w, retained);
        var rest := ScanNeeds(server, w.last + 1, end, NextSize(size, |kept| - |retained|), kept);
        if rest.None? then None else Some(here.value + rest.value)
  }

  /** A window is read without an error exactly when its pages allow it and the budget lasts. */
  lemma {:induction false} WindowSucceeds(server: Server, w: Window, scan: Scan)
    requires w.first <= w.last
    ensures var read := ReadWindow(server, w, scan);
      var needs := Needs(server, w);
      && (read.error.None? <==> needs.Some? && scan.requests + needs.value <= MAX_WINDOWS)
      && (read.error.None? ==>
           read.scan.requests == scan.requests + needs.value
           && read.scan.retained == RowsAfter(server, w, scan.retained))
    decreases w.last - w.first
  {
    hide Keep, AllInside;
    if Ask(server, w, scan).Bisect? {
      var read := Ask(server, w, scan).read;
      WindowSucceeds(server, Window(w.first, Middle(w)), read);
      var left := ReadWindow(server, Window(w.first, Middle(w)), read);
      WindowSucceeds(server, Window(Middle(w) + 1, w.last), left.scan);
    }
  }

  lemma {:induction false} ScanSucceeds(server: Server, start: int, end: int, size: WindowSize, scan: Scan)
    requires scan.requests <= MAX_WINDOWS
    ensures var all := ScanFrom(server, start, end, size, scan);
      var needs := ScanNeeds(server, start, end, size, scan.retained);
      && (all.error.None? <==> needs.Some? && scan.requests + needs.value <= MAX_WINDOWS)
      && (all.error.None? ==> all.scan.requests == scan.requests + needs.value)
    decreases end - start
  {
    hide ReadWindow, Needs, RowsAfter;
    if start <= end {
      var w := Window(start, Min(end, start + size - 1));
      WindowSucceeds(server, w, scan);
      var read := ReadWindow(server, w, scan);
      if read.error.None? {
        ScanSucceeds(server, w.last + 1, end, NextSize(size, |read.scan.retained| - |scan.retained|), read.scan);
      }
    }
  }

  /**
   Exactly when a fetch succeeds: its input is valid, every window it comes to can be bisected
   into pages that are read, complete and inside their windows, and that takes at most 10,000
   requests.
   */
  lemma FetchSucceeds(input: Input, server: Server, le: IdOrder)
    ensures FetchSpec(input, server, le).Ok? <==>
      ValidInput(input)
      && var needs := ScanNeeds(server, input.startMs, input.endMs, MIN_WINDOW_MS, []);
         needs.Some? && needs.value <= 10_000
  {
    ScanSucceeds(server, input.startMs, input.endMs, MIN_WINDOW_MS, NOTHING);
  }

  /** Exactly which inputs are refused before the first request. */
  lemma InputRefusedExactly(input: Input, server: Server, le: IdOrder)
    ensures FetchSpec(input, server, le) == Err(InvalidInput) <==>
      || input.token == "" || input.teamId == "" || input.project == ""
      || input.statusClass !in ["4xx", "5xx"]
      || input.startMs < 0 || input.endMs < input.startMs || input.endMs > 9_007_199_254_740_991
  {
    if ValidInput(input) {
      NeverInvalid(server, input.startMs, input.endMs, MIN_WINDOW_MS, NOTHING);
    }
  }

  lemma {:induction false} WindowNeverInvalid(server: Server, w: Window, scan: Scan)
    requires w.first <= w.last
    ensures ReadWindow(server, w, scan).error != Some(InvalidInput)
    decreases w.last - w.first
  {
    if Ask(server, w, scan).Bisect? {
      var read := Ask(server, w, scan).read;
      WindowNeverInvalid(server, Window(w.first, Middle(w)), read);
      var left := ReadWindow(server, Window(w.first, Middle(w)), read);
      WindowNeverInvalid(server, Window(Middle(w) + 1, w.last), left.scan);
    }
  }

  lemma {:induction false} NeverInvalid(server: Server, start: int, end: int, size: WindowSize, scan: Scan)
    ensures ScanFrom(server, start, end, size, scan).error != Some(InvalidInput)
    decreases end - start
  {
    hide ReadWindow;
    if start <= end {
      var w := Window(start, Min(end, start + size - 1));
      WindowNeverInvalid(server, w, scan);
      var read := ReadWindow(server, w, scan);
      if read.error.None? {
        NeverInvalid(server, w.last + 1, end, NextSize(size, |read.scan.retained| - |scan.retained|), read.scan);
      }
    }
  }

  /** How the window's width follows what it found. */
  lemma NextSizeMeans(size: WindowSize, found: int)
    ensures found < 25 ==> NextSize(size, found) == if size <= 3_600_000 then 2 * size else 7_200_000
    ensures found > 100 ==> NextSize(size, found) == if size >= 60_000 then size / 2 else 30_000
    ensures 25 <= found <= 100 ==> NextSize(size, found) == size
  {
  }

  /** What an error says about a page of some window inside the range. */
  ghost predicate ErrorMeans(server: Server, range: Window, requests: nat, error: ScanError) {
    match error
    case SafetyLimit => requests >= 10_000
    case ReadFailed =>
      exists first, last :: range.first <= first <= last <= range.last && server(first, last).None?
    case OutsideWindow =>
      exists first, last :: range.first <= first <= last <= range.last && server(first, last).Some?
        && exists i :: 0 <= i < |server(first, last).value.rows|
             && !(first <= server(first, last).value.rows[i].timestamp <= last)
    case SharedTimestamp(ms) =>
      range.first <= ms <= range.last && server(ms, ms).Some? && server(ms, ms).value.hasMoreRows
    case InvalidInput => false
  }

  lemma WiderError(server: Server, w: Window, range: Window, requests: nat, error: ScanError)
    requires range.first <= w.first && w.last <= range.last && ErrorMeans(server, w, requests, error)
    ensures ErrorMeans(server, range, requests, error)
  {
  }

  lemma AskError(server: Server, w: Window, scan: Scan)
    requires w.first <= w.last
    ensures var answer := Ask(server, w, scan);
      answer.Stop? && answer.outcome.error.Some? ==>
        ErrorMeans(server, w, answer.outcome.scan.requests, answer.outcome.error.value)
  {
    var answer := server(w.first, w.last);
    if answer.Some? && !AllInside(answer.value.rows, w) {
      var i :| 0 <= i < |answer.value.rows| && !Inside(answer.value.rows[i], w);
    }
  }

  lemma {:induction false} WindowError(server: Server, w: Window, scan: Scan)
    requires w.first <= w.last
    ensures var read := ReadWindow(server, w, scan);
      read.error.Some? ==> ErrorMeans(server, w, read.scan.requests, read.error.value)
    decreases w.last - w.first
  {
    hide Ask, ErrorMeans;
    AskError(server, w, scan);
    AskCost(server, w, scan);
    if Ask(server, w, scan).Bisect? {
      var read := Ask(server, w, scan).read;
      var l, r := Window(w.first, Middle(w)), Window(Middle(w) + 1, w.last);
      WindowError(server, l, read);
      var left := ReadWindow(server, l, read);
      if left.error.Some? {
        WiderError(server, l, w, left.scan.requests, left.error.value);
      } else {
        WindowError(server, r, left.scan);
        var right := ReadWindow(server, r, left.scan);
        if right.error.Some? {
          WiderError(server, r, w, right.scan.requests, right.error.value);
        }
      }
    }
  }

  lemma {:induction false} ScanRefusal(server: Server, start: int, end: int, size: WindowSize, scan: Scan)
    ensures var all := ScanFrom(server, start, end, size, scan);
      all.error.Some? ==> start <= end && ErrorMeans(server, Window(start, end), all.scan.requests, all.error.value)
    decreases end - start
  {
    hide ReadWindow, ErrorMeans;
    if start <= end {
      var w := Window(start, Min(end, start + size - 1));
      WindowError(server, w, scan);
      var read := ReadWindow(server, w, scan);
      if read.error.Some? {
        WiderError(server, w, Window(start, end), read.scan.requests, read.error.value);
      } else {
        var next := NextSize(size, |read.scan.retained| - |scan.retained|);
        ScanRefusal(server, w.last + 1, end, next, read.scan);
        var rest := ScanFrom(server, w.last + 1, end, next, read.scan);
        if rest.error.Some? {
          WiderError(server, Window(w.last + 1, end), Window(start, end), rest.scan.requests, rest.error.value);
        }
      }
    }
  }

  /** A refusal of a valid input names what happened: a failed read, a foreign row, a full millisecond, the budget. */
  lemma RefusalMeans(input: Input, server: Server, le: IdOrder)
    requires ValidInput(input) && FetchSpec(input, server, le).Err?
    ensures exists requests: nat ::
      ErrorMeans(server, Window(input.startMs, input.endMs), requests, FetchSpec(input, server, le).error)
  {
    hide ErrorMeans;
    ScanRefusal(server, input.startMs, input.endMs, MIN_WINDOW_MS, NOTHING);
    var all := ScanFrom(server, input.startMs, input.endMs, MIN_WINDOW_MS, NOTHING);
    assert ErrorMeans(server, Window(input.startMs, input.endMs), all.scan.requests, all.error.value);
  }

  // ----- a server whose pages hold up to a number of rows

  function Count(log: seq<Row>, w: Window): nat {
    if log == [] then 0
    else Count(log[..|log| - 1], w) + (if Inside(log[|log| - 1], w) then 1 else 0)
  }

  /** Every window is answered with rows of its own, and cut short exactly when it holds more than `size` rows. */
  ghost predicate PagesOf(server: Server, log: seq<Row>, size: nat) {
    forall first: int, last: int :: first <= last ==>
      && server(first, last).Some?
      && AllInside(server(first, last).value.rows, Window(first, last))
      && (server(first, last).value.hasMoreRows <==> Count(log, Window(first, last)) > size)
  }

  /** Some millisecond of the window holds more rows than a page. */
  ghost predicate Crowded(log: seq<Row>, w: Window, size: nat) {
    exists t :: w.first <= t <= w.last && CrowdedAt(log, t, size)
  }

  predicate CrowdedAt(log: seq<Row>, t: int, size: nat) {
    Count(log, Window(t, t)) > size
  }

  lemma {:induction false} CountSplits(log: seq<Row>, w: Window, middle: int)
    requires w.first <= middle + 1 <= w.last + 1
    ensures Count(log, w) == Count(log, Window(w.first, middle)) + Count(log, Window(middle + 1, w.last))
  {
    if log != [] {
      CountSplits(log[..|log| - 1], w, middle);
    }
  }

  lemma {:induction false} CountWithin(log: seq<Row>, w: Window, t: int)
    requires w.first <= t <= w.last
    ensures Count(log, Window(t, t)) <= Count(log, w)
  {
    if log != [] {
      CountWithin(log[..|log| - 1], w, t);
    }
  }

  /** A window can be read exactly when none of its milliseconds holds more rows than a page. */
  lemma {:induction false} ReadableExactly(server: Server, log: seq<Row>, size: nat, w: Window)
    requires PagesOf(server, log, size) && w.first <= w.last
    ensures Needs(server, w).Some? <==> !Crowded(log, w, size)
    decreases w.last - w.first
  {
    hide Count, AllInside;
    if !server(w.first, w.last).value.hasMoreRows {
      forall t | w.first <= t <= w.last ensures !CrowdedAt(log, t, size) {
        CountWithin(log, w, t);
      }
    } else if w.first == w.last {
      assert CrowdedAt(log, w.first, size);
    } else {
      var left, right := Window(w.first, Middle(w)), Window(Middle(w) + 1, w.last);
      ReadableExactly(server, log, size, left);
      ReadableExactly(server, log, size, right);
      CrowdedSplits(log, w, Middle(w), size);
    }
  }

  lemma CrowdedSplits(log: seq<Row>, w: Window, middle: int, size: nat)
    requires w.first <= middle + 1 <= w.last + 1
    ensures Crowded(log, w, size)
       <==> Crowded(log, Window(w.first, middle), size) || Crowded(log, Window(middle + 1, w.last), size)
  {
    hide CrowdedAt;
    if Crowded(log, w, size) {
      var t :| w.first <= t <= w.last && CrowdedAt(log, t, size);
      assert t <= middle || middle + 1 <= t;
    }
  }

  /** Only windows with more rows than a page are bisected, so a window's cost follows its rows. */
  lemma {:induction false} NeedsBound(server: Server, log: seq<Row>, size: nat, w: Window, k: nat)
    requires PagesOf(server, log, size) && w.first <= w.last && w.last - w.first + 1 <= PowerOfTwo(k)
    requires Needs(server, w).Some?
    ensures (Needs(server, w).value - 1) * (size + 1) <= 2 * k * Count(log, w)
    decreases k
  {
    hide Count, AllInside, PowerOfTwo;
    if server(w.first, w.last).value.hasMoreRows {
      var left, right := Window(w.first, Middle(w)), Window(Middle(w) + 1, w.last);
      HalfAsWide(w, k);
      NeedsBound(server, log, size, left, k - 1);
      NeedsBound(server, log, size, right, k - 1);
      CountSplits(log, w, Middle(w));
      BoundsAdd(Needs(server, left).value, Needs(server, right).value, size + 1,
                Count(log, left), Count(log, right), Count(log, w), k);
    } else {
      NotNegative(k, Count(log, w));
    }
  }

  lemma HalfAsWide(w: Window, k: nat)
    requires w.first < w.last && w.last - w.first + 1 <= PowerOfTwo(k)
    ensures k > 0 && Middle(w) - w.first + 1 <= PowerOfTwo(k - 1) && w.last - Middle(w) <= PowerOfTwo(k - 1)
  {
  }

  lemma NotNegative(k: nat, c: nat)
    ensures 0 <= 2 * k * c
  {
  }

  lemma BoundsAdd(l: nat, r: nat, page: nat, a: nat, b: nat, c: nat, k: nat)
    requires k > 0 && c == a + b && page <= c
    requires (l - 1) * page <= 2 * (k - 1) * a && (r - 1) * page <= 2 * (k - 1) * b
    ensures (l + r) * page <= 2 * k * c
  {
    assert (l + r) * page == (l - 1) * page + (r - 1) * page + 2 * page;
    assert 2 * (k - 1) * a + 2 * (k - 1) * b == 2 * (k - 1) * c;
    assert 2 * k * c == 2 * (k - 1) * c + 2 * c;
  }

  /** Windows of at least 30 seconds that cover so many milliseconds. */
  function Windows(ms: nat): nat {
    (ms + 29_999) / 30_000
  }

  lemma {:induction false} ScanReadable(
    server: Server, log: seq<Row>, page: nat, start: int, end: int, size: WindowSize, retained: seq<Row>)
    requires PagesOf(server, log, page) && start <= end + 1
    ensures var needs := ScanNeeds(server, start, end, size, retained);
      && (needs.Some? <==> !Crowded(log, Window(start, end), page))
      && (needs.Some? ==>
           (needs.value - Windows(end + 1 - start)) * (page + 1) <= 46 * Count(log, Window(start, end)))
    decreases end - start
  {
    hide Needs, RowsAfter, PagesOf, Count, PowerOfTwo, CrowdedAt;
    if start <= end {
      var w := Window(start, Min(end, start + size - 1));
      ReadableExactly(server, log, page, w);
      CrowdedSplits(log, Window(start, end), w.last, page);
      if Needs(server, w).Some? {
        var kept := RowsAfter(server, w, retained);
        var next := NextSize(size, |kept| - |retained|);
        ScanReadable(server, log, page, w.last + 1, end, next, kept);
        if ScanNeeds(server, w.last + 1, end, next, kept).Some? {
          WidestWindow();
          NeedsBound(server, log, page, w, 23);
          CountSplits(log, Window(start, end), w.last);
          assert Windows(end + 1 - start) >= 1 + Windows(end - w.last);
          CostsAdd(Needs(server, w).value, ScanNeeds(server, w.last + 1, end, next, kept).value, page + 1,
                   Windows(end - w.last), Windows(end + 1 - start),
                   Count(log, w), Count(log, Window(w.last + 1, end)));
        }
      }
    }
  }

  lemma CostsAdd(here: nat, rest: nat, page: nat, windows: nat, all: nat, a: nat, b: nat)
    requires (here - 1) * page <= 46 * a && (rest - windows) * page <= 46 * b && all >= 1 + windows
    ensures (here + rest - all) * page <= 46 * (a + b)
  {
    assert (here + rest - all) * page == (here - 1) * page + (rest - windows) * page - (all - 1 - windows) * page;
    assert 0 <= (all - 1 - windows) * page;
  }

  /**
   For a server whose pages hold up to `size` rows: a fetch within the budget succeeds exactly when no
   millisecond of the range holds more. The budget lasts when the range is not too long and not
   too full.
   */
  lemma PagedFetchSucceeds(input: Input, server: Server, le: IdOrder, log: seq<Row>, size: nat)
    requires PagesOf(server, log, size) && ValidInput(input)
    ensures var range := Window(input.startMs, input.endMs);
      && (FetchSpec(input, server, le).Ok? ==> !Crowded(log, range, size))
      && (Windows(input.endMs + 1 - input.startMs) * (size + 1) + 46 * Count(log, range)
            <= MAX_WINDOWS * (size + 1) ==>
          (FetchSpec(input, server, le).Ok? <==> !Crowded(log, range, size)))
  {
    hide PagesOf, Count, Crowded, FetchSpec, ScanNeeds;
    FetchSucceeds(input, server, le);
    ScanReadable(server, log, size, input.startMs, input.endMs, MIN_WINDOW_MS, []);
    var needs := ScanNeeds(server, input.startMs, input.endMs, MIN_WINDOW_MS, []);
    var windows := Windows(input.endMs + 1 - input.startMs);
    var rows := Count(log, Window(input.startMs, input.endMs));
    if needs.Some? && windows * (size + 1) + 46 * rows <= MAX_WINDOWS * (size + 1) {
      assert (needs.value - windows) * (size + 1) == needs.value * (size + 1) - windows * (size + 1);
      AtMost(needs.value, MAX_WINDOWS, size + 1);
    }
  }

  lemma AtMost(a: nat, b: nat, c: nat)
    requires c > 0
    ensures a * c <= b * c ==> a <= b
  {
    if a > b {
      var more := a - b - 1;
      assert a == b + 1 + more;
      assert a * c == b * c + c + more * c;
      assert more * c >= 0;
    }
  }
}
