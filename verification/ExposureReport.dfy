/** The counting report of scripts/credential-exposure-scan.ts over what extraction finds. */
module ExposureReport {
  import opened Common
  import opened CredentialText

  datatype Exposure = Exposure(resident: Option<nat>, content: string)

  /** Evidence that a hash is the stored hash of a resident's credential. */
  datatype Identity = Identity(hash: nat, resident: nat, live: bool)

  datatype Report = Report(
    associated: set<nat>,
    owners: set<nat>,
    liveOwners: set<nat>,
    publicFields: nat,
    exact: nat,
    partial: nat,
    live: nat,
    inactive: nat,
    unresolved: nat,
    kinds: map<Kind, nat>)

  /** What becomes of a match: its hash is a live credential, an inactive one, or nobody's. */
  datatype Fate = Live | Inactive | Unresolved

  // ----- what the rows hold

  /** Every exact match of every row, without any filter. */
  function AllMatches(rows: seq<Exposure>): seq<Match> {
    if rows == [] then [] else AllMatches(rows[..|rows| - 1]) + Extract(rows[|rows| - 1].content, 0)
  }

  /** The hashes that the scan looks up. */
  function Hashes(rows: seq<Exposure>, hash: string -> nat): set<nat> {
    set m | m in AllMatches(rows) :: hash(m.token)
  }

  function OfKind(matches: seq<Match>, kind: Kind): nat {
    if matches == [] then 0
    else OfKind(matches[..|matches| - 1], kind) + (if matches[|matches| - 1].kind == kind then 1 else 0)
  }

  function FateOf(index: map<nat, Identity>, h: nat): Fate {
    if h !in index then Unresolved else if index[h].live then Live else Inactive
  }

  function OfFate(matches: seq<Match>, hash: string -> nat, index: map<nat, Identity>, fate: Fate): nat {
    if matches == [] then 0
    else
      var last := matches[|matches| - 1];
      OfFate(matches[..|matches| - 1], hash, index, fate) + (if FateOf(index, hash(last.token)) == fate then 1 else 0)
  }

  function Partials(rows: seq<Exposure>): nat {
    if rows == [] then 0
    else
      var last := rows[|rows| - 1];
      Partials(rows[..|rows| - 1]) + (if Contains(last.content) && Extract(last.content, 0) == [] then 1 else 0)
  }

  function Associated(rows: seq<Exposure>): set<nat> {
    set i | 0 <= i < |rows| && Contains(rows[i].content) && rows[i].resident.Some? :: rows[i].resident.value
  }

  ghost predicate Unambiguous(identities: seq<Identity>) {
    forall i, j :: 0 <= i < j < |identities| ==> identities[i].hash != identities[j].hash
  }

  function OwnersOf(matches: seq<Match>, hash: string -> nat, index: map<nat, Identity>): set<nat> {
    set m | m in matches && hash(m.token) in index :: index[hash(m.token)].resident
  }

  function LiveOwnersOf(matches: seq<Match>, hash: string -> nat, index: map<nat, Identity>): set<nat> {
    set m | m in matches && hash(m.token) in index && index[hash(m.token)].live :: index[hash(m.token)].resident
  }

  /** The identities by hash. */
  ghost predicate Indexes(index: map<nat, Identity>, identities: seq<Identity>) {
    && (forall h :: h in index ==> index[h] in identities && index[h].hash == h)
    && (forall i :: 0 <= i < |identities| ==> identities[i].hash in index && index[identities[i].hash] == identities[i])
  }

  /** The counts after some matches: each is counted once, under its kind and under what became of it. */
  ghost predicate Counted(r: Report, matches: seq<Match>, hash: string -> nat, index: map<nat, Identity>) {
    && r.exact == |matches|
    && (forall kind :: kind in r.kinds && r.kinds[kind] == OfKind(matches, kind))
    && r.live == OfFate(matches, hash, index, Live)
    && r.inactive == OfFate(matches, hash, index, Inactive)
    && r.unresolved == OfFate(matches, hash, index, Unresolved)
    && r.owners == OwnersOf(matches, hash, index)
    && r.liveOwners == LiveOwnersOf(matches, hash, index)
  }

  lemma CountedNext(r: Report, matches: seq<Match>, m: Match, hash: string -> nat, index: map<nat, Identity>)
    requires Counted(r, matches, hash, index)
    ensures var h := hash(m.token);
      Counted(r.(exact := r.exact + 1,
                 kinds := r.kinds[m.kind := r.kinds[m.kind] + 1],
                 live := if h in index && index[h].live then r.live + 1 else r.live,
                 inactive := if h in index && !index[h].live then r.inactive + 1 else r.inactive,
                 unresolved := if h !in index then r.unresolved + 1 else r.unresolved,
                 owners := if h in index then r.owners + {index[h].resident} else r.owners,
                 liveOwners := if h in index && index[h].live then r.liveOwners + {index[h].resident}
                   else r.liveOwners),
              matches + [m], hash, index)
  {
    var longer := matches + [m];
    assert longer[..|matches|] == matches;
    assert m in longer;
    assert forall other :: other in longer <==> other in matches || other == m;
  }

  method IndexIdentities(identities: seq<Identity>) returns (index: Option<map<nat, Identity>>)
    ensures index.Some? <==> Unambiguous(identities)
    ensures index.Some? ==> Indexes(index.value, identities)
  {
    var byHash: map<nat, Identity> := map[];
    var k := 0;
    while k < |identities|
      invariant 0 <= k <= |identities|
      invariant Indexes(byHash, identities[..k]) && Unambiguous(identities[..k])
    {
      var identity := identities[k];
      if identity.hash in byHash {
        var i :| 0 <= i < k && identities[..k][i] == byHash[identity.hash];
        assert identities[i].hash == identities[k].hash;
        return None;
      }
      byHash := byHash[identity.hash := identity];
      assert identities[..k + 1] == identities[..k] + [identity];
      k := k + 1;
    }
    assert identities[..k] == identities;
    index := Some(byHash);
  }

  /** One row's matches. */
  method CountRow(
    r: Report, matches: seq<Match>, hash: string -> nat, index: map<nat, Identity>, ghost before: seq<Match>)
    returns (after: Report)
    requires Counted(r, before, hash, index)
    ensures Counted(after, before + matches, hash, index)
    ensures after.associated == r.associated && after.publicFields == r.publicFields && after.partial == r.partial
  {
    hide Counted;
    after := r;
    var k := 0;
    assert before + matches[..0] == before;
    while k < |matches|
      invariant 0 <= k <= |matches|
      invariant Counted(after, before + matches[..k], hash, index)
      invariant after.associated == r.associated && after.publicFields == r.publicFields && after.partial == r.partial
    {
      var m := matches[k];
      CountedNext(after, before + matches[..k], m, hash, index);
      assert before + matches[..k] + [m] == before + matches[..k + 1];
      CountedHasKinds(after, before + matches[..k], hash, index);
      after := after.(exact := after.exact + 1, kinds := after.kinds[m.kind := after.kinds[m.kind] + 1]);
      var h := hash(m.token);
      if h !in index {
        after := after.(unresolved := after.unresolved + 1);
      } else {
        after := after.(owners := after.owners + {index[h].resident});
        if index[h].live {
          after := after.(live := after.live + 1, liveOwners := after.liveOwners + {index[h].resident});
        } else {
          after := after.(inactive := after.inactive + 1);
        }
      }
      k := k + 1;
    }
    assert matches[..k] == matches;
  }

  lemma CountedHasKinds(r: Report, matches: seq<Match>, hash: string -> nat, index: map<nat, Identity>)
    requires Counted(r, matches, hash, index)
    ensures forall kind :: kind in r.kinds
  {
  }

  lemma CountedIgnores(r: Report, matches: seq<Match>, hash: string -> nat, index: map<nat, Identity>)
    requires Counted(r, matches, hash, index)
    ensures forall associated, partial: nat ::
      Counted(r.(associated := associated, partial := partial), matches, hash, index)
    ensures forall associated :: Counted(r.(associated := associated), matches, hash, index)
    ensures forall partial: nat :: Counted(r.(partial := partial), matches, hash, index)
  {
  }

  lemma NothingCounted(fields: nat, hash: string -> nat, index: map<nat, Identity>)
    ensures Counted(Report({}, {}, {}, fields, 0, 0, 0, 0, 0,
      map[ResidentKey := 0, AccessToken := 0, RefreshToken := 0, AuthorizationCode := 0,
          RecoveryCode := 0, PairingCode := 0]),
      [], hash, index)
  {
    var kinds: map<Kind, nat> :=
      map[ResidentKey := 0, AccessToken := 0, RefreshToken := 0, AuthorizationCode := 0,
          RecoveryCode := 0, PairingCode := 0];
    forall kind ensures kind in kinds && kinds[kind] == 0 {
      match kind
      case ResidentKey => assert ResidentKey in kinds;
      case AccessToken => assert AccessToken in kinds;
      case RefreshToken => assert RefreshToken in kinds;
      case AuthorizationCode => assert AuthorizationCode in kinds;
      case RecoveryCode => assert RecoveryCode in kinds;
      case PairingCode => assert PairingCode in kinds;
    }
  }

  lemma AssociatedNext(rows: seq<Exposure>, row: Exposure)
    ensures Associated(rows + [row])
         == Associated(rows) + (if Contains(row.content) && row.resident.Some? then {row.resident.value} else {})
  {
    hide Contains;
    var longer := rows + [row];
    assert longer[|rows|] == row;
    forall id | id in Associated(rows) ensures id in Associated(longer) {
      var i :| 0 <= i < |rows| && Contains(rows[i].content) && rows[i].resident == Some(id);
      assert longer[i] == rows[i];
    }
    forall id | id in Associated(longer) && !(Contains(row.content) && row.resident == Some(id))
      ensures id in Associated(rows)
    {
      var i :| 0 <= i < |longer| && Contains(longer[i].content) && longer[i].resident == Some(id);
      assert longer[i] == rows[i];
    }
  }

  /**
   `buildResult`: none when two identities share a hash; otherwise the counts cover every exact
   match of every row, although rows that hold nothing credential-like are skipped.
   */
  method BuildResult(rows: seq<Exposure>, identities: seq<Identity>, hash: string -> nat) returns (r: Option<Report>)
    ensures r.Some? <==> Unambiguous(identities)
    ensures r.Some? ==> exists index ::
      Indexes(index, identities) && Counted(r.value, AllMatches(rows), hash, index)
    ensures r.Some? ==>
      r.value.publicFields == |rows| && r.value.partial == Partials(rows) && r.value.associated == Associated(rows)
  {
    hide Counted, Contains, Extract;
    var index := IndexIdentities(identities);
    if index.None? { return None; }
    var report := Report({}, {}, {}, |rows|, 0, 0, 0, 0, 0,
      map[ResidentKey := 0, AccessToken := 0, RefreshToken := 0, AuthorizationCode := 0,
          RecoveryCode := 0, PairingCode := 0]);
    NothingCounted(|rows|, hash, index.value);
    var k := 0;
    assert rows[..0] == [];
    while k < |rows|
      invariant 0 <= k <= |rows| && report.publicFields == |rows|
      invariant Counted(report, AllMatches(rows[..k]), hash, index.value)
      invariant report.partial == Partials(rows[..k]) && report.associated == Associated(rows[..k])
    {
      var row := rows[k];
      assert rows[..k + 1][..k] == rows[..k];
      assert rows[..k + 1] == rows[..k] + [row];
      AssociatedNext(rows[..k], row);
      if !Contains(row.content) {
        CleanTextHasNoMatch(row.content);
        assert AllMatches(rows[..k + 1]) == AllMatches(rows[..k]);
      } else {
        if row.resident.Some? {
          CountedIgnores(report, AllMatches(rows[..k]), hash, index.value);
          report := report.(associated := report.associated + {row.resident.value});
        }
        var matches := Extract(row.content, 0);
        if |matches| == 0 {
          CountedIgnores(report, AllMatches(rows[..k]), hash, index.value);
          report := report.(partial := report.partial + 1);
        }
        report := CountRow(report, matches, hash, index.value, AllMatches(rows[..k]));
      }
      k := k + 1;
    }
    assert rows[..k] == rows;
    r := Some(report);
  }

  // ----- the accounting

  function SumOfKinds(kinds: map<Kind, nat>): nat
    requires forall kind :: kind in kinds
  {
    kinds[ResidentKey] + kinds[AccessToken] + kinds[RefreshToken]
      + kinds[AuthorizationCode] + kinds[RecoveryCode] + kinds[PairingCode]
  }

  lemma {:induction false} EachMatchOnce(matches: seq<Match>, hash: string -> nat, index: map<nat, Identity>)
    ensures OfFate(matches, hash, index, Live) + OfFate(matches, hash, index, Inactive)
          + OfFate(matches, hash, index, Unresolved) == |matches|
    ensures OfKind(matches, ResidentKey) + OfKind(matches, AccessToken) + OfKind(matches, RefreshToken)
          + OfKind(matches, AuthorizationCode) + OfKind(matches, RecoveryCode) + OfKind(matches, PairingCode)
          == |matches|
  {
    if matches != [] {
      EachMatchOnce(matches[..|matches| - 1], hash, index);
    }
  }

  /** Exact credentials are live, inactive or unresolved, each of one kind; live owners are owners. */
  lemma ReportAddsUp(r: Report, rows: seq<Exposure>, hash: string -> nat, index: map<nat, Identity>)
    requires Counted(r, AllMatches(rows), hash, index)
    ensures r.exact == r.live + r.inactive + r.unresolved && r.exact == |AllMatches(rows)|
    ensures r.exact == SumOfKinds(r.kinds)
    ensures r.liveOwners <= r.owners
  {
    EachMatchOnce(AllMatches(rows), hash, index);
  }

  /**
   When the identities answer the lookup, each of their hashes being one that was looked up, every
   identity is counted: the owners are exactly the residents found, and likewise the live ones.
   */
  lemma EveryIdentityCounted(
    r: Report, rows: seq<Exposure>, identities: seq<Identity>, hash: string -> nat, index: map<nat, Identity>)
    requires Indexes(index, identities) && Counted(r, AllMatches(rows), hash, index)
    requires forall i :: 0 <= i < |identities| ==> identities[i].hash in Hashes(rows, hash)
    ensures r.owners == set i | 0 <= i < |identities| :: identities[i].resident
    ensures r.liveOwners == set i | 0 <= i < |identities| && identities[i].live :: identities[i].resident
  {
    var matches := AllMatches(rows);
    forall i | 0 <= i < |identities|
      ensures identities[i].resident in r.owners && (identities[i].live ==> identities[i].resident in r.liveOwners)
    {
      var m :| m in matches && hash(m.token) == identities[i].hash;
      assert index[hash(m.token)] == identities[i];
    }
    forall m | m in matches && hash(m.token) in index
      ensures exists i :: 0 <= i < |identities| && identities[i] == index[hash(m.token)]
    {
    }
  }

  // ----- what the counts count

  /** The positions of the matches whose hash is known, and known as live or not. */
  function KnownAt(matches: seq<Match>, hash: string -> nat, index: map<nat, Identity>, live: bool): set<nat> {
    set i: nat | i < |matches| && hash(matches[i].token) in index && index[hash(matches[i].token)].live == live
  }

  function UnknownAt(matches: seq<Match>, hash: string -> nat, index: map<nat, Identity>): set<nat> {
    set i: nat | i < |matches| && hash(matches[i].token) !in index
  }

  function KindAt(matches: seq<Match>, kind: Kind): set<nat> {
    set i: nat | i < |matches| && matches[i].kind == kind
  }

  lemma {:induction false} KnownCounts(matches: seq<Match>, hash: string -> nat, index: map<nat, Identity>, live: bool)
    ensures OfFate(matches, hash, index, if live then Live else Inactive) == |KnownAt(matches, hash, index, live)|
  {
    if matches != [] {
      var n := |matches| - 1;
      KnownCounts(matches[..n], hash, index, live);
      var h := hash(matches[n].token);
      assert KnownAt(matches, hash, index, live)
          == KnownAt(matches[..n], hash, index, live) + (if h in index && index[h].live == live then {n} else {});
    }
  }

  lemma {:induction false} UnknownCounts(matches: seq<Match>, hash: string -> nat, index: map<nat, Identity>)
    ensures OfFate(matches, hash, index, Unresolved) == |UnknownAt(matches, hash, index)|
  {
    if matches != [] {
      var n := |matches| - 1;
      UnknownCounts(matches[..n], hash, index);
      assert UnknownAt(matches, hash, index)
          == UnknownAt(matches[..n], hash, index) + (if hash(matches[n].token) !in index then {n} else {});
    }
  }

  lemma {:induction false} KindCounts(matches: seq<Match>, kind: Kind)
    ensures OfKind(matches, kind) == |KindAt(matches, kind)|
  {
    if matches != [] {
      var n := |matches| - 1;
      KindCounts(matches[..n], kind);
      assert KindAt(matches, kind) == KindAt(matches[..n], kind) + (if matches[n].kind == kind then {n} else {});
    }
  }

  /** Each count of the report is the number of matches it names. */
  lemma CountsExactly(r: Report, rows: seq<Exposure>, hash: string -> nat, index: map<nat, Identity>)
    requires Counted(r, AllMatches(rows), hash, index)
    ensures var matches := AllMatches(rows);
      && r.live == |KnownAt(matches, hash, index, true)| && r.inactive == |KnownAt(matches, hash, index, false)|
      && r.unresolved == |UnknownAt(matches, hash, index)|
      && forall kind :: kind in r.kinds && r.kinds[kind] == |KindAt(matches, kind)|
  {
    var matches := AllMatches(rows);
    KnownCounts(matches, hash, index, true);
    KnownCounts(matches, hash, index, false);
    UnknownCounts(matches, hash, index);
    forall kind ensures OfKind(matches, kind) == |KindAt(matches, kind)| {
      KindCounts(matches, kind);
    }
  }
}
