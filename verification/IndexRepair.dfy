/**
 The repair of concurrent indexes: scripts/public-search-index-migration.ts plans it for the
 public search indexes, scripts/migrate.ts for the presence index of the events table, and runs
 both plans. The results are for any list of reviewed indexes; the two lists are given below.
 */
module IndexRepair {
  import opened Common
  import opened Text

  // ----- catalog texts

  /** Lower case is stable and never yields white space or a quote. */
  ghost predicate LowerCases(lower: char -> string) {
    forall c :: c != '\'' && !IsSpace(c) ==>
      forall d :: d in lower(c) ==> d != '\'' && !IsSpace(d) && lower(d) == [d]
  }

  /** The normal form, with the quoted state as the parity of the quotes seen. */
  function Normal(s: string, quoted: bool, lower: char -> string): string {
    if s == "" then ""
    else if s[0] == '\'' then "'" + Normal(s[1..], !quoted, lower)
    else if quoted then [s[0]] + Normal(s[1..], quoted, lower)
    else if IsSpace(s[0]) then Normal(s[1..], quoted, lower)
    else lower(s[0]) + Normal(s[1..], quoted, lower)
  }

  function Flips(c: char, quoted: bool): bool {
    if c == '\'' then !quoted else quoted
  }

  function Emitted(c: char, quoted: bool, lower: char -> string): string {
    if c == '\'' || quoted then [c] else if IsSpace(c) then "" else lower(c)
  }

  /** What is emitted so far and the normal form of the rest make the whole. */
  ghost predicate NormalSoFar(normalized: string, value: string, index: nat, quoted: bool, lower: char -> string)
    requires index <= |value|
  {
    normalized + Normal(value[index..], quoted, lower) == Normal(value, false, lower)
  }

  lemma NormalNext(normalized: string, value: string, index: nat, quoted: bool, lower: char -> string)
    requires index < |value| && NormalSoFar(normalized, value, index, quoted, lower)
    ensures NormalSoFar(normalized + Emitted(value[index], quoted, lower), value,
                         index + 1, Flips(value[index], quoted), lower)
  {
    var rest := Normal(value[index + 1..], Flips(value[index], quoted), lower);
    assert value[index..][1..] == value[index + 1..];
    assert Normal(value[index..], quoted, lower) == Emitted(value[index], quoted, lower) + rest;
    assert normalized + (Emitted(value[index], quoted, lower) + rest)
        == normalized + Emitted(value[index], quoted, lower) + rest;
  }

  lemma NormalEnds(normalized: string, value: string, quoted: bool, lower: char -> string)
    ensures NormalSoFar("", value, 0, false, lower)
    ensures NormalSoFar(normalized, value, |value|, quoted, lower) ==> normalized == Normal(value, false, lower)
  {
    assert value[0..] == value;
    assert "" + Normal(value, false, lower) == Normal(value, false, lower);
    assert normalized + "" == normalized;
  }

  /** `normalizedCatalogSql`: a doubled quote inside a string is skipped as one character. */
  method NormalizedCatalogSql(value: string, lower: char -> string) returns (normalized: string)
    ensures normalized == Normal(value, false, lower)
  {
    hide Normal, NormalSoFar, IsSpace;
    normalized := "";
    var quoted := false;
    var index := 0;
    NormalEnds(normalized, value, quoted, lower);
    while index < |value|
      invariant 0 <= index <= |value|
      invariant NormalSoFar(normalized, value, index, quoted, lower)
    {
      var character := value[index];
      NormalNext(normalized, value, index, quoted, lower);
      if character == '\'' {
        normalized := normalized + [character];
        if quoted && index + 1 < |value| && value[index + 1] == '\'' {
          NormalNext(normalized, value, index + 1, !quoted, lower);
          normalized := normalized + [value[index + 1]];
          index := index + 1;
        } else {
          quoted := !quoted;
        }
      } else if !quoted && IsSpace(character) {
        assert normalized + "" == normalized;
      } else {
        normalized := normalized + (if quoted then [character] else lower(character));
      }
      index := index + 1;
    }
    NormalEnds(normalized, value, quoted, lower);
  }

  lemma {:induction false} NormalAppend(s: string, t: string, quoted: bool, lower: char -> string)
    requires '\'' !in s
    ensures Normal(s + t, quoted, lower) == Normal(s, quoted, lower) + Normal(t, quoted, lower)
  {
    if s == "" {
      assert s + t == t;
    } else {
      assert (s + t)[1..] == s[1..] + t;
      NormalAppend(s[1..], t, quoted, lower);
    }
  }

  /** The text in lower case without white space. */
  function Squeezed(s: string, lower: char -> string): string {
    if s == "" then "" else (if IsSpace(s[0]) then "" else lower(s[0])) + Squeezed(s[1..], lower)
  }

  lemma {:induction false} NormalOutside(s: string, lower: char -> string)
    requires '\'' !in s
    ensures Normal(s, false, lower) == Squeezed(s, lower)
  {
    if s != "" {
      NormalOutside(s[1..], lower);
    }
  }

  lemma {:induction false} NormalInside(s: string, lower: char -> string)
    requires '\'' !in s
    ensures Normal(s, true, lower) == s
  {
    if s != "" {
      NormalInside(s[1..], lower);
    }
  }

  /** Outside quotes case and white space do not count; between quotes everything does. */
  lemma NormalOfParts(u: string, q: string, v: string, lower: char -> string)
    requires '\'' !in u && '\'' !in q
    ensures Normal(u + ("'" + (q + ("'" + v))), false, lower)
         == Squeezed(u, lower) + ("'" + (q + ("'" + Normal(v, false, lower))))
  {
    NormalAppend(u, "'" + (q + ("'" + v)), false, lower);
    NormalOutside(u, lower);
    assert ("'" + (q + ("'" + v)))[1..] == q + ("'" + v);
    NormalAppend(q, "'" + v, true, lower);
    NormalInside(q, lower);
    assert ("'" + v)[1..] == v;
  }

  lemma {:induction false} NormalOfLowered(s: string, lower: char -> string)
    requires forall c :: c in s ==> c != '\'' && !IsSpace(c) && lower(c) == [c]
    ensures Normal(s, false, lower) == s
  {
    if s != "" {
      assert forall c :: c in s[1..] ==> c in s;
      NormalOfLowered(s[1..], lower);
    }
  }

  /** Normalizing twice is normalizing once: quotes are kept, so the parity is the same both times. */
  lemma {:induction false} NormalIdempotent(s: string, quoted: bool, lower: char -> string)
    requires LowerCases(lower)
    ensures Normal(Normal(s, quoted, lower), quoted, lower) == Normal(s, quoted, lower)
  {
    if s != "" {
      var rest := Normal(s[1..], if s[0] == '\'' then !quoted else quoted, lower);
      NormalIdempotent(s[1..], if s[0] == '\'' then !quoted else quoted, lower);
      if s[0] == '\'' {
        assert ("'" + rest)[1..] == rest;
      } else if quoted {
        assert ([s[0]] + rest)[1..] == rest;
      } else if !IsSpace(s[0]) {
        assert '\'' !in lower(s[0]);
        NormalAppend(lower(s[0]), rest, false, lower);
        NormalOfLowered(lower(s[0]), lower);
      }
    }
  }

  // ----- index definitions

  datatype Reviewed = Reviewed(name: string, table: string, expression: string,
    operatorClass: string, filter: Option<string>)

  datatype Row = Row(
    schema: string,
    name: string,
    tableSchema: string,
    table: string,
    valid: bool,
    ready: bool,
    isUnique: bool,
    accessMethod: string,
    keyColumns: int,
    totalColumns: int,
    unfiltered: bool,
    filter: Option<string>,
    columns: seq<string>,
    options: seq<int>,
    operatorClasses: seq<string>)

  function NormalOf(value: Option<string>, lower: char -> string): Option<string> {
    if value.None? then None else Some(Normal(value.value, false, lower))
  }

  /** `exactPublicSearchIndex` */
  predicate Exact(row: Row, expected: Reviewed, lower: char -> string) {
    && row.schema == "public" && row.name == expected.name
    && row.tableSchema == "public" && row.table == expected.table
    && !row.isUnique && row.accessMethod == "gin" && row.keyColumns == 1 && row.totalColumns == 1
    && row.unfiltered == expected.filter.None?
    && |row.columns| == 1 && Normal(row.columns[0], false, lower) == expected.expression
    && row.operatorClasses == [expected.operatorClass]
    && NormalOf(row.filter, lower) == expected.filter
  }

  /** What a built index has to be. */
  predicate Usable(row: Row) {
    row.valid && row.ready
  }

  const REVIEWED := [
    Reviewed("notes_public_search_words", "notes", "to_tsvector('simple'::regconfig,body)", "tsvector_ops", None),
    Reviewed("notes_public_search_phrase", "notes", "lower(body)", "gin_trgm_ops", None),
    Reviewed("things_public_search_words_active", "things", "to_tsvector('simple'::regconfig,(name||' '::text)||body)",
             "tsvector_ops", Some("withdrawn_atisnull")),
    Reviewed("things_public_search_phrase_active", "things", "lower((name||' '::text)||body)", "gin_trgm_ops",
             Some("withdrawn_atisnull")),
    Reviewed("place_name_history_name_search", "place_name_history", "lower(name)", "gin_trgm_ops", None)
  ]

  /** The search indexes with their reviewed check. */
  function SearchSetup(lower: char -> string, built: (Reviewed, bool) -> Row): Setup {
    Setup(REVIEWED, (row, expected) => Exact(row, expected, lower), built)
  }

  const EVENTS := Reviewed("events_actor_at_desc", "events", "actor,at", "", None)

  /** `exactEventsPresenceIndex` */
  predicate ExactEvents(row: Row) {
    && row.schema == "public" && row.name == EVENTS.name
    && row.tableSchema == "public" && row.table == EVENTS.table
    && !row.isUnique && row.accessMethod == "btree" && row.keyColumns == 2 && row.totalColumns == 2
    && row.options == [0, 3] && row.unfiltered && row.columns == ["actor", "at"]
  }

  /** The one presence index of the events table. */
  function EventsSetup(built: (Reviewed, bool) -> Row): Setup {
    Setup([EVENTS], (row, _) => ExactEvents(row), built)
  }

  ghost predicate DistinctNames(reviewed: seq<Reviewed>) {
    forall i, j :: 0 <= i < j < |reviewed| ==> reviewed[i].name != reviewed[j].name
  }

  // ----- the plan

  /** A statement about the reviewed index at a position. */
  datatype Statement = Drop(index: nat) | Create(index: nat)

  datatype Refusal = Ambiguous(name: string) | Conflicting(name: string) | NoCreate(name: string) | Unexpected

  function UpperCase(s: string): string {
    seq(|s|, i requires 0 <= i < |s| => Upper(s[i]))
  }

  /** The statement creates the named index, as the reviewed pattern reads it. */
  predicate Creates(statement: string, name: string) {
    ContainsWords(statement, ["CREATE", "INDEX", "CONCURRENTLY", "IF", "NOT", "EXISTS", UpperCase(name)])
  }

  function CountCreating(statements: seq<string>, name: string): nat {
    if statements == [] then 0
    else CountCreating(statements[..|statements| - 1], name)
         + (if Creates(statements[|statements| - 1], name) then 1 else 0)
  }

  /** Each reviewed index has one create statement, and there are no more statements than indexes. */
  ghost predicate Indexed(creates: seq<string>, reviewed: seq<Reviewed>) {
    |creates| == |reviewed| && forall k :: 0 <= k < |reviewed| ==> CountCreating(creates, reviewed[k].name) == 1
  }

  method Matching(creates: seq<string>, name: string) returns (matching: seq<string>)
    ensures |matching| == CountCreating(creates, name)
    ensures forall i :: 0 <= i < |matching| ==> matching[i] in creates && Creates(matching[i], name)
  {
    hide Creates;
    matching := [];
    var k := 0;
    while k < |creates|
      invariant 0 <= k <= |creates| && |matching| == CountCreating(creates[..k], name)
      invariant forall i :: 0 <= i < |matching| ==> matching[i] in creates && Creates(matching[i], name)
    {
      assert creates[..k + 1][..k] == creates[..k];
      if Creates(creates[k], name) {
        matching := matching + [creates[k]];
      }
      k := k + 1;
    }
    assert creates[..k] == creates;
  }

  /** `indexedCreateStatements`: the create statement of each reviewed index. */
  method IndexedCreateStatements(creates: seq<string>, reviewed: seq<Reviewed>)
    returns (r: Result<seq<string>, Refusal>)
    ensures r.Ok? <==> Indexed(creates, reviewed)
    ensures r.Ok? ==> |r.value| == |reviewed|
    ensures r.Ok? ==> forall k :: 0 <= k < |reviewed| ==> r.value[k] in creates && Creates(r.value[k], reviewed[k].name)
  {
    hide Creates;
    var statements := [];
    var k := 0;
    while k < |reviewed|
      invariant 0 <= k <= |reviewed| && |statements| == k
      invariant forall i :: 0 <= i < k ==> CountCreating(creates, reviewed[i].name) == 1
      invariant forall i :: 0 <= i < k ==> statements[i] in creates && Creates(statements[i], reviewed[i].name)
    {
      var matching := Matching(creates, reviewed[k].name);
      if |matching| != 1 { return Err(NoCreate(reviewed[k].name)); }
      statements := statements + [matching[0]];
      k := k + 1;
    }
    if |creates| != |statements| { return Err(Unexpected); }
    r := Ok(statements);
  }

  /**
   The reviewed indexes, the check of a catalog row against one of them, and the row that a
   create statement leaves behind when it finishes (true) or breaks off after it has entered the
   index (false).
   */
  datatype Setup = Setup(reviewed: seq<Reviewed>, exact: (Row, Reviewed) -> bool, built: (Reviewed, bool) -> Row)

  ghost predicate Sane(w: Setup) {
    && DistinctNames(w.reviewed)
    && forall k, done :: 0 <= k < |w.reviewed| ==>
         var row := w.built(w.reviewed[k], done);
         row.name == w.reviewed[k].name && w.exact(row, w.reviewed[k]) && (Usable(row) <==> done)
  }

  type Catalog = map<string, Row>

  function StepFor(w: Setup, catalog: Catalog, k: nat): seq<Statement>
    requires k < |w.reviewed|
  {
    var name := w.reviewed[k].name;
    if name !in catalog then [Create(k)]
    else if catalog[name].valid && catalog[name].ready then []
    else [Drop(k), Create(k)]
  }

  predicate Conflicts(w: Setup, catalog: Catalog, k: nat)
    requires k < |w.reviewed|
  {
    w.reviewed[k].name in catalog && !w.exact(catalog[w.reviewed[k].name], w.reviewed[k])
  }

  /** The plan for the first n reviewed indexes. */
  function Plan(w: Setup, catalog: Catalog, n: nat): Result<seq<Statement>, Refusal>
    requires n <= |w.reviewed|
  {
    if n == 0 then Ok([])
    else
      var before := Plan(w, catalog, n - 1);
      if before.Err? then before
      else if Conflicts(w, catalog, n - 1) then Err(Conflicting(w.reviewed[n - 1].name))
      else Ok(before.value + StepFor(w, catalog, n - 1))
  }

  ghost predicate DistinctRows(rows: seq<Row>) {
    forall i, j :: 0 <= i < j < |rows| ==> rows[i].name != rows[j].name
  }

  function ByName(rows: seq<Row>): Catalog {
    if rows == [] then map[] else ByName(rows[..|rows| - 1])[rows[|rows| - 1].name := rows[|rows| - 1]]
  }

  lemma {:induction false} ByNameHolds(rows: seq<Row>, name: string)
    ensures name in ByName(rows) <==> exists i :: 0 <= i < |rows| && rows[i].name == name
    ensures name in ByName(rows) ==> ByName(rows)[name] in rows && ByName(rows)[name].name == name
  {
    if rows != [] {
      var n := |rows| - 1;
      ByNameHolds(rows[..n], name);
      assert rows[n].name == name ==> name in ByName(rows);
      if exists i :: 0 <= i < n && rows[i].name == name {
        var i :| 0 <= i < n && rows[i].name == name;
        assert rows[..n][i].name == name;
      }
    }
  }

  method IndexRows(rows: seq<Row>) returns (r: Result<Catalog, Refusal>)
    ensures DistinctRows(rows) ==> r == Ok(ByName(rows))
    ensures !DistinctRows(rows) ==> r.Err? && r.error.Ambiguous?
  {
    var rowsByName: Catalog := map[];
    var i := 0;
    assert rows[..0] == [];
    while i < |rows|
      invariant 0 <= i <= |rows|
      invariant rowsByName == ByName(rows[..i]) && DistinctRows(rows[..i])
    {
      ByNameHolds(rows[..i], rows[i].name);
      if rows[i].name in rowsByName {
        var j :| 0 <= j < i && rows[..i][j].name == rows[i].name;
        assert rows[j].name == rows[i].name;
        return Err(Ambiguous(rows[i].name));
      }
      assert rows[..i + 1][..i] == rows[..i];
      forall j | 0 <= j < i ensures rows[j].name != rows[i].name {
        assert rows[..i][j].name == rows[j].name;
      }
      rowsByName := rowsByName[rows[i].name := rows[i]];
      i := i + 1;
    }
    assert rows[..i] == rows;
    r := Ok(rowsByName);
  }

  /** `publicSearchIndexRecoveryStatements`, after the create statements were indexed. */
  method RecoveryStatements(rows: seq<Row>, w: Setup) returns (r: Result<seq<Statement>, Refusal>)
    ensures DistinctRows(rows) ==> r == Plan(w, ByName(rows), |w.reviewed|)
    ensures !DistinctRows(rows) ==> r.Err? && r.error.Ambiguous?
  {
    hide DistinctRows, ByName;
    var indexed := IndexRows(rows);
    if indexed.Err? { return Err(indexed.error); }
    var rowsByName := indexed.value;
    var recovery := [];
    var k := 0;
    while k < |w.reviewed|
      invariant 0 <= k <= |w.reviewed|
      invariant Plan(w, rowsByName, k) == Ok(recovery)
    {
      var expected := w.reviewed[k];
      if expected.name !in rowsByName {
        recovery := recovery + [Create(k)];
      } else {
        if !w.exact(rowsByName[expected.name], expected) {
          PlanFails(w, rowsByName, k + 1, |w.reviewed|);
          return Err(Conflicting(expected.name));
        }
        var row := rowsByName[expected.name];
        if !(row.valid && row.ready) {
          recovery := recovery + [Drop(k), Create(k)];
        } else {
          assert recovery + StepFor(w, rowsByName, k) == recovery;
        }
      }
      k := k + 1;
    }
    r := Ok(recovery);
  }

  /** `eventsPresenceIndexRecoveryStatements`: the same plan for one index; two rows are a conflict. */
  method EventsRecoveryStatements(rows: seq<Row>, built: (Reviewed, bool) -> Row)
    returns (r: Result<seq<Statement>, Refusal>)
    ensures |rows| > 1 || (|rows| == 1 && rows[0].name != EVENTS.name) ==> r == Err(Conflicting(EVENTS.name))
    ensures |rows| == 0 || (|rows| == 1 && rows[0].name == EVENTS.name) ==>
      r == Plan(EventsSetup(built), ByName(rows), 1)
  {
    var w := EventsSetup(built);
    var nothing: seq<Statement> := [];
    assert Plan(w, ByName(rows), 0) == Ok(nothing);
    assert nothing + StepFor(w, ByName(rows), 0) == StepFor(w, ByName(rows), 0);
    if |rows| == 0 { return Ok([Create(0)]); }
    if |rows| != 1 || !ExactEvents(rows[0]) { return Err(Conflicting(EVENTS.name)); }
    assert ByName(rows[..0]) == map[];
    r := if rows[0].valid && rows[0].ready then Ok([]) else Ok([Drop(0), Create(0)]);
  }

  lemma {:induction false} PlanFails(w: Setup, catalog: Catalog, k: nat, n: nat)
    requires k <= n <= |w.reviewed| && Plan(w, catalog, k).Err?
    ensures Plan(w, catalog, n) == Plan(w, catalog, k)
    decreases n
  {
    if k < n {
      PlanFails(w, catalog, k, n - 1);
    }
  }

  // ----- running a plan

  /** What becomes of a statement: it finishes, it breaks off leaving its traces, or it does nothing. */
  datatype Outcome = Finished | BrokeOff | Nothing

  /** A create skips an index that is there; a drop that does not finish leaves the index. */
  function Executed(w: Setup, catalog: Catalog, statement: Statement, outcome: Outcome): (r: (Catalog, bool)) {
    if statement.index >= |w.reviewed| then (catalog, false)
    else
      var expected := w.reviewed[statement.index];
      if statement.Drop? then
        if outcome.Finished? then (catalog - {expected.name}, true) else (catalog, false)
      else if expected.name in catalog then (catalog, true)
      else if outcome.Finished? then (catalog[expected.name := w.built(expected, true)], true)
      else if outcome.BrokeOff? then (catalog[expected.name := w.built(expected, false)], false)
      else (catalog, false)
  }

  /** The statements one after another; the first failure ends the run. */
  function Ran(w: Setup, catalog: Catalog, plan: seq<Statement>, outcome: nat -> Outcome): (r: (Catalog, bool)) {
    if plan == [] then (catalog, true)
    else
      var n := |plan| - 1;
      var (before, ok) := Ran(w, catalog, plan[..n], outcome);
      if ok then Executed(w, before, plan[n], outcome(n)) else (before, false)
  }

  /** Every reviewed index that is there has its reviewed definition. */
  ghost predicate Good(w: Setup, catalog: Catalog) {
    forall k :: 0 <= k < |w.reviewed| ==> !Conflicts(w, catalog, k)
  }

  predicate Ready(w: Setup, catalog: Catalog, k: nat)
    requires k < |w.reviewed|
  {
    w.reviewed[k].name in catalog && Usable(catalog[w.reviewed[k].name])
  }

  ghost predicate AllReady(w: Setup, catalog: Catalog) {
    forall k :: 0 <= k < |w.reviewed| ==> Ready(w, catalog, k)
  }

  /** Usable indexes are exactly as they were. */
  ghost predicate UsableKept(before: Catalog, after: Catalog) {
    forall name :: name in before && Usable(before[name]) ==> name in after && after[name] == before[name]
  }

  ghost predicate Untouched(w: Setup, before: Catalog, after: Catalog, from: nat) {
    && (forall k :: from <= k < |w.reviewed| ==>
         && (w.reviewed[k].name in after <==> w.reviewed[k].name in before)
         && (w.reviewed[k].name in before ==> after[w.reviewed[k].name] == before[w.reviewed[k].name]))
  }

  /** The plan is there exactly when nothing conflicts, and empty exactly when all indexes are ready. */
  lemma {:induction false} PlanExact(w: Setup, catalog: Catalog, n: nat)
    requires n <= |w.reviewed|
    ensures Plan(w, catalog, n).Ok? <==> forall k :: 0 <= k < n ==> !Conflicts(w, catalog, k)
    ensures Plan(w, catalog, n).Ok? ==>
      (Plan(w, catalog, n).value == [] <==> forall k :: 0 <= k < n ==> Ready(w, catalog, k))
  {
    if n > 0 {
      PlanExact(w, catalog, n - 1);
      NoStep(w, catalog, n - 1);
      hide StepFor, Ready, Conflicts;
      if Plan(w, catalog, n).Ok? {
        var before := Plan(w, catalog, n - 1).value;
        assert before + StepFor(w, catalog, n - 1) == [] <==> before == [] && StepFor(w, catalog, n - 1) == [];
      }
    }
  }

  lemma NoStep(w: Setup, catalog: Catalog, k: nat)
    requires k < |w.reviewed|
    ensures StepFor(w, catalog, k) == [] <==> Ready(w, catalog, k)
  {
  }

  lemma {:induction false} RanAppend(
    w: Setup, catalog: Catalog, plan: seq<Statement>, last: Statement, outcome: nat -> Outcome)
    ensures var (before, ok) := Ran(w, catalog, plan, outcome);
      Ran(w, catalog, plan + [last], outcome) ==
        if ok then Executed(w, before, last, outcome(|plan|)) else (before, false)
  {
    assert (plan + [last])[..|plan|] == plan;
  }

  ghost predicate StepResult(w: Setup, start: Catalog, after: Catalog, ok: bool, n: nat) {
    && Good(w, after) && UsableKept(start, after) && Untouched(w, start, after, n)
    && (ok ==> forall k :: 0 <= k < n && k < |w.reviewed| ==> Ready(w, after, k))
  }

  /** Writing one index's row leaves the results about the others. */
  lemma RowWritten(w: Setup, start: Catalog, at: Catalog, k: nat, done: bool)
    requires Sane(w) && k < |w.reviewed| && StepResult(w, start, at, true, k)
    requires w.reviewed[k].name in start ==> !Usable(start[w.reviewed[k].name])
    ensures StepResult(w, start, at[w.reviewed[k].name := w.built(w.reviewed[k], done)], done, k + 1)
  {
    var name := w.reviewed[k].name;
    var after := at[name := w.built(w.reviewed[k], done)];
    forall j | 0 <= j < |w.reviewed| && j != k ensures w.reviewed[j].name != name {
    }
    forall j | 0 <= j < |w.reviewed| ensures !Conflicts(w, after, j) {
      assert !Conflicts(w, at, j);
    }
    if done {
      forall j | 0 <= j <= k ensures Ready(w, after, j) {
        assert j < k ==> Ready(w, at, j);
      }
    }
  }

  lemma RowDropped(w: Setup, start: Catalog, at: Catalog, k: nat)
    requires Sane(w) && k < |w.reviewed| && StepResult(w, start, at, true, k)
    requires w.reviewed[k].name in start && !Usable(start[w.reviewed[k].name])
    ensures StepResult(w, start, at - {w.reviewed[k].name}, false, k + 1)
    ensures StepResult(w, start, at, false, k + 1)
  {
    var name := w.reviewed[k].name;
    var after := at - {name};
    forall j | 0 <= j < |w.reviewed| && j != k ensures w.reviewed[j].name != name {
    }
    forall j | 0 <= j < |w.reviewed| ensures !Conflicts(w, after, j) {
      assert !Conflicts(w, at, j);
    }
  }

  lemma NothingWritten(w: Setup, start: Catalog, at: Catalog, k: nat)
    requires k < |w.reviewed| && StepResult(w, start, at, true, k)
    ensures StepResult(w, start, at, false, k + 1)
    ensures Ready(w, start, k) ==> StepResult(w, start, at, true, k + 1)
  {
  }

  /** Repairing one index touches no other and leaves it ready, absent or half built. */
  lemma RepairOne(w: Setup, start: Catalog, at: Catalog, k: nat, first: Outcome, second: Outcome)
    requires Sane(w) && k < |w.reviewed| && StepResult(w, start, at, true, k)
    ensures w.reviewed[k].name !in start ==>
      var (after, ok) := Executed(w, at, Create(k), first);
      StepResult(w, start, after, ok, k + 1)
    ensures w.reviewed[k].name in start && !Usable(start[w.reviewed[k].name]) ==>
      var (dropped, done) := Executed(w, at, Drop(k), first);
      if done
      then var (after, ok) := Executed(w, dropped, Create(k), second);
           StepResult(w, start, after, ok, k + 1)
      else StepResult(w, start, dropped, false, k + 1)
    ensures Ready(w, start, k) ==> StepResult(w, start, at, true, k + 1)
  {
    var name := w.reviewed[k].name;
    NothingWritten(w, start, at, k);
    if name !in start {
      assert name !in at;
      RowWritten(w, start, at, k, true);
      RowWritten(w, start, at, k, false);
    } else if !Usable(start[name]) {
      RowDropped(w, start, at, k);
      RowWritten(w, start, at, k, true);
      RowWritten(w, start, at, k, false);
      assert (at - {name})[name := w.built(w.reviewed[k], true)] == at[name := w.built(w.reviewed[k], true)];
      assert (at - {name})[name := w.built(w.reviewed[k], false)] == at[name := w.built(w.reviewed[k], false)];
    }
    hide StepResult, Sane, Usable;
  }

  /**
   Whatever happens to its statements, a run of the plan keeps definitions good and usable indexes
   untouched; a run without a failure makes the planned indexes ready.
   */
  lemma {:induction false} PlanRuns(w: Setup, catalog: Catalog, n: nat, outcome: nat -> Outcome)
    requires Sane(w) && Good(w, catalog) && n <= |w.reviewed|
    ensures Plan(w, catalog, n).Ok?
    ensures var (after, ok) := Ran(w, catalog, Plan(w, catalog, n).value, outcome);
      && Good(w, after) && UsableKept(catalog, after)
      && (ok ==> StepResult(w, catalog, after, true, n))
  {
    hide Executed, StepResult, Sane, Usable, Good, UsableKept, Conflicts, StepFor;
    GoodHasPlan(w, catalog, n);
    ResultGood(w, catalog, n);
    if n == 0 {
      StartResult(w, catalog);
    } else {
      var k := n - 1;
      GoodHasPlan(w, catalog, k);
      PlanRuns(w, catalog, k, outcome);
      var before := Plan(w, catalog, k).value;
      var (at, ok) := Ran(w, catalog, before, outcome);
      assert Plan(w, catalog, n).value == before + StepFor(w, catalog, k);
      RanStep(w, catalog, before, k, outcome);
      if ok {
        RepairOne(w, catalog, at, k, outcome(|before|), outcome(|before| + 1));
      }
    }
  }

  lemma GoodHasPlan(w: Setup, catalog: Catalog, n: nat)
    requires Good(w, catalog) && n <= |w.reviewed|
    ensures Plan(w, catalog, n).Ok?
  {
    PlanExact(w, catalog, n);
  }

  /** A run of the plan so far, followed by the statements for one more index. */
  lemma RanStep(w: Setup, catalog: Catalog, before: seq<Statement>, k: nat, outcome: nat -> Outcome)
    requires k < |w.reviewed|
    ensures var (at, ok) := Ran(w, catalog, before, outcome);
      var step := StepFor(w, catalog, k);
      var whole := Ran(w, catalog, before + step, outcome);
      if !ok then whole == (at, false)
      else if w.reviewed[k].name !in catalog then whole == Executed(w, at, Create(k), outcome(|before|))
      else if Usable(catalog[w.reviewed[k].name]) then whole == (at, true)
      else
        var (dropped, done) := Executed(w, at, Drop(k), outcome(|before|));
        whole == if done then Executed(w, dropped, Create(k), outcome(|before| + 1)) else (dropped, false)
  {
    hide Executed, Ran;
    var step := StepFor(w, catalog, k);
    if step == [] {
      assert before + step == before;
    } else {
      RanAppend(w, catalog, before, step[0], outcome);
      if |step| == 2 {
        RanAppend(w, catalog, before + [step[0]], step[1], outcome);
        assert before + step == before + [step[0]] + [step[1]];
      } else {
        assert step == [step[0]];
      }
    }
  }

  lemma ResultGood(w: Setup, start: Catalog, n: nat)
    ensures forall after, ok :: StepResult(w, start, after, ok, n) ==> Good(w, after) && UsableKept(start, after)
  {
  }

  lemma StartResult(w: Setup, catalog: Catalog)
    requires Good(w, catalog)
    ensures StepResult(w, catalog, catalog, true, 0)
  {
  }

  // ----- convergence

  /** A plan is empty exactly when every reviewed index is ready, and missing exactly when one conflicts. */
  lemma PlanDecides(w: Setup, catalog: Catalog)
    ensures Plan(w, catalog, |w.reviewed|).Ok? <==> Good(w, catalog)
    ensures Plan(w, catalog, |w.reviewed|) == Ok([]) <==> Good(w, catalog) && AllReady(w, catalog)
  {
    PlanExact(w, catalog, |w.reviewed|);
  }

  /** A row that differs from a reviewed search index in any of these ways. */
  ghost predicate Differs(row: Row, expected: Reviewed, lower: char -> string) {
    || row.schema != "public" || row.tableSchema != "public" || row.name != expected.name || row.table != expected.table
    || row.isUnique || row.accessMethod != "gin" || row.keyColumns != 1 || row.totalColumns != 1
    || |row.columns| != 1 || Normal(row.columns[0], false, lower) != expected.expression
    || row.operatorClasses != [expected.operatorClass]
    || (if expected.filter.None? then !row.unfiltered || row.filter.Some?
        else row.unfiltered || row.filter.None? || Normal(row.filter.value, false, lower) != expected.filter.value)
  }

  /** Exactly which rows stop the search-index migration: a reviewed name with another definition. */
  lemma SearchConflictsExactly(lower: char -> string, built: (Reviewed, bool) -> Row, catalog: Catalog)
    ensures var w := SearchSetup(lower, built);
      Plan(w, catalog, |w.reviewed|).Err? <==>
        exists k :: 0 <= k < |REVIEWED| && REVIEWED[k].name in catalog
          && Differs(catalog[REVIEWED[k].name], REVIEWED[k], lower)
  {
    var w := SearchSetup(lower, built);
    PlanDecides(w, catalog);
    hide Normal, Plan;
    forall k | 0 <= k < |REVIEWED| && REVIEWED[k].name in catalog
      ensures Conflicts(w, catalog, k) <==> Differs(catalog[REVIEWED[k].name], REVIEWED[k], lower)
    {
    }
  }

  /** And exactly which row stops the presence-index migration. */
  lemma EventsConflictsExactly(built: (Reviewed, bool) -> Row, catalog: Catalog)
    ensures var w := EventsSetup(built);
      Plan(w, catalog, 1).Err? <==>
        && "events_actor_at_desc" in catalog
        && var row := catalog["events_actor_at_desc"];
           || row.schema != "public" || row.tableSchema != "public" || row.name != "events_actor_at_desc"
           || row.table != "events" || row.isUnique || row.accessMethod != "btree"
           || row.keyColumns != 2 || row.totalColumns != 2 || row.columns != ["actor", "at"] || row.options != [0, 3]
           || !row.unfiltered
  {
    PlanDecides(EventsSetup(built), catalog);
  }

  /** What makes a create statement that of an index: the words in any letter case, between word boundaries. */
  lemma CreatesExactly(statement: string, name: string)
    requires name != "" && forall k :: 0 <= k < |name| ==> 'a' <= name[k] <= 'z' || name[k] == '_'
    ensures var words := ["CREATE", "INDEX", "CONCURRENTLY", "IF", "NOT", "EXISTS", UpperCase(name)];
      Creates(statement, name) <==>
        exists i, j :: 0 <= i <= j <= |statement| && Bounded(statement, i, j) && Spelled(statement[i..j], words)
  {
    var words := ["CREATE", "INDEX", "CONCURRENTLY", "IF", "NOT", "EXISTS", UpperCase(name)];
    var upper := UpperCase(name);
    assert forall k :: 0 <= k < |upper| ==> upper[k] == Upper(name[k]);
    assert Upright(words);
    ContainsWordsExactly(statement, words);
  }

  /** One attempt: plan, then run the plan until it fails or ends. */
  function Attempt(w: Setup, catalog: Catalog, outcome: nat -> Outcome): (r: (Catalog, bool)) {
    var plan := Plan(w, catalog, |w.reviewed|);
    if plan.Err? then (catalog, false) else Ran(w, catalog, plan.value, outcome)
  }

  function Attempts(w: Setup, catalog: Catalog, outcomes: seq<nat -> Outcome>): Catalog {
    if outcomes == [] then catalog
    else Attempt(w, Attempts(w, catalog, outcomes[..|outcomes| - 1]), outcomes[|outcomes| - 1]).0
  }

  /**
   From any mix of missing, invalid and valid reviewed indexes, after any number of attempts
   however they ended: definitions are still good and indexes that were usable are untouched.
   */
  lemma {:induction false} AttemptsKeep(w: Setup, catalog: Catalog, outcomes: seq<nat -> Outcome>)
    requires Sane(w) && Good(w, catalog)
    ensures Good(w, Attempts(w, catalog, outcomes)) && UsableKept(catalog, Attempts(w, catalog, outcomes))
  {
    hide Sane, Exact, Plan, Ran, Usable;
    if outcomes != [] {
      var n := |outcomes| - 1;
      AttemptsKeep(w, catalog, outcomes[..n]);
      PlanRuns(w, Attempts(w, catalog, outcomes[..n]), |w.reviewed|, outcomes[n]);
    }
  }

  lemma {:induction false} AllFinish(w: Setup, catalog: Catalog, plan: seq<Statement>, outcome: nat -> Outcome)
    requires forall i: nat :: outcome(i).Finished?
    requires forall i :: 0 <= i < |plan| ==> plan[i].index < |w.reviewed|
    ensures Ran(w, catalog, plan, outcome).1
  {
    if plan != [] {
      AllFinish(w, catalog, plan[..|plan| - 1], outcome);
    }
  }

  lemma {:induction false} PlanNamesReviewed(w: Setup, catalog: Catalog, n: nat)
    requires n <= |w.reviewed| && Plan(w, catalog, n).Ok?
    ensures forall i :: 0 <= i < |Plan(w, catalog, n).value| ==> Plan(w, catalog, n).value[i].index < n
  {
    if n > 0 {
      PlanNamesReviewed(w, catalog, n - 1);
    }
  }

  /** One attempt that nothing disturbs, after any number of failed ones, makes the next plan empty. */
  lemma RepairConverges(w: Setup, catalog: Catalog, failed: seq<nat -> Outcome>, last: nat -> Outcome)
    requires Sane(w) && Good(w, catalog) && forall i: nat :: last(i).Finished?
    ensures var (after, ok) := Attempt(w, Attempts(w, catalog, failed), last);
      ok && Plan(w, after, |w.reviewed|) == Ok([]) && AllReady(w, after) && UsableKept(catalog, after)
  {
    hide Sane, Exact, Ran, Usable;
    AttemptsKeep(w, catalog, failed);
    var at := Attempts(w, catalog, failed);
    PlanRuns(w, at, |w.reviewed|, last);
    PlanNamesReviewed(w, at, |w.reviewed|);
    AllFinish(w, at, Plan(w, at, |w.reviewed|).value, last);
    PlanDecides(w, Attempt(w, at, last).0);
  }

  /** A conflicting definition stops everything: nothing is executed. */
  lemma ConflictFailsClosed(w: Setup, catalog: Catalog, outcome: nat -> Outcome)
    requires !Good(w, catalog)
    ensures Attempt(w, catalog, outcome) == (catalog, false)
  {
    PlanDecides(w, catalog);
  }

  // ----- the runner

  datatype Failure = NoExtension | Refused(refusal: Refusal) | StatementFailed | NotReady

  ghost predicate Named(catalog: Catalog) {
    forall name :: name in catalog ==> catalog[name].name == name
  }

  /** The plan only looks at the reviewed names. */
  lemma {:induction false} PlanOfAgreeing(w: Setup, a: Catalog, b: Catalog, n: nat)
    requires n <= |w.reviewed|
    requires forall k :: 0 <= k < |w.reviewed| ==>
      && (w.reviewed[k].name in a <==> w.reviewed[k].name in b)
      && (w.reviewed[k].name in a ==> a[w.reviewed[k].name] == b[w.reviewed[k].name])
    ensures Plan(w, a, n) == Plan(w, b, n)
  {
    if n > 0 {
      PlanOfAgreeing(w, a, b, n - 1);
    }
  }

  predicate IsReviewed(w: Setup, k: nat, name: string)
    requires k <= |w.reviewed|
  {
    exists j | 0 <= j < k :: w.reviewed[j].name == name
  }

  /** The rows of the first k reviewed names. */
  function Listed(w: Setup, catalog: Catalog, k: nat): seq<Row>
    requires k <= |w.reviewed|
  {
    if k == 0 then []
    else
      var name := w.reviewed[k - 1].name;
      Listed(w, catalog, k - 1) + (if name in catalog then [catalog[name]] else [])
  }

  lemma {:induction false} ListedByName(w: Setup, catalog: Catalog, k: nat)
    requires Named(catalog) && k <= |w.reviewed|
    ensures forall name :: name in ByName(Listed(w, catalog, k)) <==> IsReviewed(w, k, name) && name in catalog
    ensures forall name :: name in ByName(Listed(w, catalog, k)) ==>
      ByName(Listed(w, catalog, k))[name] == catalog[name]
  {
    if k > 0 {
      ListedByName(w, catalog, k - 1);
      var before, name := Listed(w, catalog, k - 1), w.reviewed[k - 1].name;
      forall other ensures IsReviewed(w, k, other) <==> IsReviewed(w, k - 1, other) || other == name {
        assert w.reviewed[k - 1].name == name;
      }
      if name in catalog {
        assert (before + [catalog[name]])[..|before|] == before;
      } else {
        assert before + [] == before;
      }
    }
  }

  lemma {:induction false} ListedDistinct(w: Setup, catalog: Catalog, k: nat)
    requires Named(catalog) && DistinctNames(w.reviewed) && k <= |w.reviewed|
    ensures DistinctRows(Listed(w, catalog, k))
  {
    if k > 0 {
      ListedDistinct(w, catalog, k - 1);
      ListedByName(w, catalog, k - 1);
      var before, name := Listed(w, catalog, k - 1), w.reviewed[k - 1].name;
      forall i | 0 <= i < |before| ensures before[i].name != name {
        ByNameHolds(before, before[i].name);
        assert IsReviewed(w, k - 1, before[i].name);
      }
    }
  }

  lemma ListedPlan(w: Setup, catalog: Catalog)
    requires Named(catalog)
    ensures Plan(w, ByName(Listed(w, catalog, |w.reviewed|)), |w.reviewed|) == Plan(w, catalog, |w.reviewed|)
  {
    hide Plan, ByName;
    ListedByName(w, catalog, |w.reviewed|);
    forall j | 0 <= j < |w.reviewed| ensures IsReviewed(w, |w.reviewed|, w.reviewed[j].name) {
    }
    hide IsReviewed;
    PlanOfAgreeing(w, ByName(Listed(w, catalog, |w.reviewed|)), catalog, |w.reviewed|);
  }

  class Database {
    var catalog: Catalog

    constructor (start: Catalog)
      ensures catalog == start
    {
      catalog := start;
    }

    /** The rows of the reviewed names. */
    method Query(w: Setup) returns (rows: seq<Row>)
      requires Named(catalog) && DistinctNames(w.reviewed)
      ensures DistinctRows(rows) && Plan(w, ByName(rows), |w.reviewed|) == Plan(w, catalog, |w.reviewed|)
      ensures rows == Listed(w, catalog, |w.reviewed|)
    {
      hide Plan, ByName, DistinctRows;
      rows := [];
      var k := 0;
      while k < |w.reviewed|
        invariant 0 <= k <= |w.reviewed| && rows == Listed(w, catalog, k)
      {
        if w.reviewed[k].name in catalog {
          rows := rows + [catalog[w.reviewed[k].name]];
        }
        k := k + 1;
      }
      ListedDistinct(w, catalog, |w.reviewed|);
      ListedPlan(w, catalog);
    }

    method Execute(w: Setup, statement: Statement, outcome: Outcome) returns (ok: bool)
      modifies this
      ensures (catalog, ok) == Executed(w, old(catalog), statement, outcome)
    {
      if statement.index >= |w.reviewed| { return false; }
      var name := w.reviewed[statement.index].name;
      if statement.Drop? {
        if !outcome.Finished? { return false; }
        catalog := catalog - {name};
        return true;
      }
      if name in catalog { return true; }
      match outcome {
        case Finished =>
          catalog := catalog[name := w.built(w.reviewed[statement.index], true)];
          ok := true;
        case BrokeOff =>
          catalog := catalog[name := w.built(w.reviewed[statement.index], false)];
          ok := false;
        case Nothing => ok := false;
      }
    }

    /**
     `applyPublicSearchIndexMigration`: success means that every reviewed index is ready; however
     it ends, usable indexes are untouched, and a conflicting definition changes nothing.
     */
    method ApplyPublicSearchIndexMigration(w: Setup, creates: seq<string>, extension: bool, outcome: nat -> Outcome)
      returns (r: Result<nat, Failure>)
      requires Sane(w) && Named(catalog)
      modifies this
      ensures Named(catalog)
      ensures UsableKept(old(catalog), catalog)
      ensures Good(w, old(catalog)) ==> Good(w, catalog)
      ensures !Good(w, old(catalog)) || !extension || !Indexed(creates, w.reviewed) ==>
        r.Err? && catalog == old(catalog)
      ensures r.Ok? ==> AllReady(w, catalog) && Plan(w, old(catalog), |w.reviewed|).Ok?
      ensures r.Ok? ==> r.value == 1 + |Plan(w, old(catalog), |w.reviewed|).value|
      ensures (extension && Indexed(creates, w.reviewed) && Good(w, old(catalog))
               && forall i: nat :: outcome(i).Finished?) ==>
        r.Ok?
    {
      hide Plan, Usable, Indexed, Good;
      if !extension { return Err(NoExtension); }
      var texts := IndexedCreateStatements(creates, w.reviewed);
      if texts.Err? { return Err(Refused(texts.error)); }
      var before := Query(w);
      var plan := RecoveryStatements(before, w);
      PlanDecides(w, catalog);
      if plan.Err? { return Err(Refused(plan.error)); }
      PlanRuns(w, catalog, |w.reviewed|, outcome);
      PlanNamesReviewed(w, catalog, |w.reviewed|);
      var ok := RunPlan(w, plan.value, outcome);
      if !ok { return Err(StatementFailed); }
      PlanDecides(w, catalog);
      ReadyAfterRun(w, old(catalog), catalog);
      var after := Query(w);
      var left := RecoveryStatements(after, w);
      if left.Err? || left.value != [] { return Err(NotReady); }
      r := Ok(1 + |plan.value|);
    }

    /** `applyEventsPresenceIndexMigration` */
    method ApplyEventsPresenceIndexMigration(built: (Reviewed, bool) -> Row, outcome: nat -> Outcome)
      returns (r: Result<nat, Failure>)
      requires Sane(EventsSetup(built)) && Named(catalog)
      modifies this
      ensures Named(catalog)
      ensures UsableKept(old(catalog), catalog)
      ensures Good(EventsSetup(built), old(catalog)) ==> Good(EventsSetup(built), catalog)
      ensures !Good(EventsSetup(built), old(catalog)) ==> r.Err? && catalog == old(catalog)
      ensures r.Ok? ==> AllReady(EventsSetup(built), catalog)
      ensures Good(EventsSetup(built), old(catalog)) && (forall i: nat :: outcome(i).Finished?) ==> r.Ok?
    {
      hide Plan, Usable, Good, ExactEvents;
      var w := EventsSetup(built);
      var before := Query(w);
      var plan := EventsRecoveryStatements(before, built);
      PlanDecides(w, catalog);
      if plan.Err? { return Err(Refused(plan.error)); }
      PlanRuns(w, catalog, 1, outcome);
      PlanNamesReviewed(w, catalog, 1);
      var ok := RunPlan(w, plan.value, outcome);
      if !ok { return Err(StatementFailed); }
      PlanDecides(w, catalog);
      ReadyAfterRun(w, old(catalog), catalog);
      var after := Query(w);
      var left := EventsRecoveryStatements(after, built);
      if left.Err? || left.value != [] { return Err(NotReady); }
      r := Ok(|plan.value|);
    }

    method RunPlan(w: Setup, plan: seq<Statement>, outcome: nat -> Outcome) returns (ok: bool)
      requires Sane(w) && Named(catalog) && forall i :: 0 <= i < |plan| ==> plan[i].index < |w.reviewed|
      modifies this
      ensures (catalog, ok) == Ran(w, old(catalog), plan, outcome) && Named(catalog)
      ensures (forall i: nat :: outcome(i).Finished?) ==> ok
    {
      hide Usable;
      var k := 0;
      assert plan[..0] == [];
      while k < |plan|
        invariant 0 <= k <= |plan| && Named(catalog)
        invariant Ran(w, old(catalog), plan[..k], outcome) == (catalog, true)
      {
        assert plan[..k + 1][..k] == plan[..k];
        ghost var was := catalog;
        var done := Execute(w, plan[k], outcome(k));
        ExecutedNamed(w, was, plan[k], outcome(k));
        if !done {
          FailedForGood(w, old(catalog), plan, outcome, k + 1);
          return false;
        }
        k := k + 1;
      }
      assert plan[..k] == plan;
      ok := true;
    }
  }

  lemma ExecutedNamed(w: Setup, catalog: Catalog, statement: Statement, outcome: Outcome)
    requires Sane(w) && Named(catalog) && statement.index < |w.reviewed|
    ensures Named(Executed(w, catalog, statement, outcome).0)
  {
    assert w.built(w.reviewed[statement.index], true).name == w.reviewed[statement.index].name;
    assert w.built(w.reviewed[statement.index], false).name == w.reviewed[statement.index].name;
  }

  lemma {:induction false} FailedForGood(
    w: Setup, catalog: Catalog, plan: seq<Statement>, outcome: nat -> Outcome, k: nat)
    requires k <= |plan| && !Ran(w, catalog, plan[..k], outcome).1
    ensures Ran(w, catalog, plan, outcome) == Ran(w, catalog, plan[..k], outcome)
    decreases |plan|
  {
    if k < |plan| {
      assert plan[..|plan| - 1][..k] == plan[..k];
      FailedForGood(w, catalog, plan[..|plan| - 1], outcome, k);
    } else {
      assert plan[..k] == plan;
    }
  }

  lemma ReadyAfterRun(w: Setup, start: Catalog, after: Catalog)
    requires StepResult(w, start, after, true, |w.reviewed|)
    ensures AllReady(w, after)
  {
  }

  lemma ReviewedNamesDiffer()
    ensures DistinctNames(REVIEWED)
  {
    assert |REVIEWED[0].name| == 25 && |REVIEWED[1].name| == 26 && |REVIEWED[2].name| == 33;
    assert |REVIEWED[3].name| == 34 && |REVIEWED[4].name| == 30;
  }

  /** All results hold for the five search indexes when their create statements build what was reviewed. */
  lemma SearchSetupSane(lower: char -> string, built: (Reviewed, bool) -> Row)
    requires forall k, done :: 0 <= k < |REVIEWED| ==>
      Exact(built(REVIEWED[k], done), REVIEWED[k], lower) && (Usable(built(REVIEWED[k], done)) <==> done)
    ensures Sane(SearchSetup(lower, built))
  {
    ReviewedNamesDiffer();
    var w := SearchSetup(lower, built);
    forall k, done | 0 <= k < |w.reviewed|
      ensures w.built(w.reviewed[k], done).name == w.reviewed[k].name
           && w.exact(w.built(w.reviewed[k], done), w.reviewed[k])
           && (Usable(w.built(w.reviewed[k], done)) <==> done)
    {
      assert Exact(built(REVIEWED[k], done), REVIEWED[k], lower);
    }
  }
}
