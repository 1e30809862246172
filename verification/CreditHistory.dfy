/** The paged credit history of src/city-credit.ts: following the cursor gives every receipt once. */
module CreditHistory {
  import opened Common
  import opened CreditLedger

  /** A shown receipt: its ledger id (a position counted from 1), its kind and its signed amount. */
  datatype Receipt = Receipt(id: nat, kind: Kind, units: int)

  datatype Page = Page(balance: int, history: seq<Receipt>, hasMore: bool, nextBefore: Option<nat>)

  /** The resident's ledger ids below a cursor, newest first. */
  function Ids(entries: seq<Entry>, resident: nat, before: nat): (ids: seq<nat>)
    ensures forall k :: 0 <= k < |ids| ==>
      1 <= ids[k] <= |entries| && ids[k] < before && entries[ids[k] - 1].resident == resident
  {
    if entries == [] then []
    else
      var n := |entries| - 1;
      (if n + 1 < before && entries[n].resident == resident then [n + 1] else []) + Ids(entries[..n], resident, before)
  }

  predicate Owns(entries: seq<Entry>, resident: nat, id: nat) {
    1 <= id <= |entries| && entries[id - 1].resident == resident
  }

  /** `mapHistoryEntry` */
  function Shown(entries: seq<Entry>, id: nat): Receipt
    requires 1 <= id <= |entries|
  {
    Receipt(id, entries[id - 1].kind, HistoryUnits(entries[id - 1]))
  }

  function AllShown(entries: seq<Entry>, ids: seq<nat>): (receipts: seq<Receipt>)
    requires forall k :: 0 <= k < |ids| ==> 1 <= ids[k] <= |entries|
  {
    seq(|ids|, k requires 0 <= k < |ids| => Shown(entries, ids[k]))
  }

  function Cursor(entries: seq<Entry>, before: Option<nat>): nat {
    if before.Some? then before.value else |entries| + 1
  }

  /** `readCityCreditAccount`: one row more than the limit is fetched to learn whether there are more. */
  function ReadPage(entries: seq<Entry>, balance: int, resident: nat, before: Option<nat>, limit: nat): Page {
    var ids := Ids(entries, resident, Cursor(entries, before));
    var fetched := ids[..Min(limit + 1, |ids|)];
    var visible := fetched[..Min(limit, |fetched|)];
    var hasMore := |fetched| > limit;
    var nextBefore := if hasMore && visible != [] then Some(visible[|visible| - 1]) else None;
    Page(balance, AllShown(entries, visible), hasMore, nextBefore)
  }

  /**
   A reader who follows the cursor to the end. The ledger and the limit may differ at each page;
   page k sees ledger(k).
   */
  function Walk(ledger: nat -> seq<Entry>, limit: nat -> nat, resident: nat, before: Option<nat>, k: nat): seq<Receipt>
    decreases Cursor(ledger(k), before)
  {
    var page := ReadPage(ledger(k), 0, resident, before, limit(k));
    if page.hasMore && page.nextBefore.Some? && page.nextBefore.value < Cursor(ledger(k), before)
    then page.history + Walk(ledger, limit, resident, page.nextBefore, k + 1)
    else page.history
  }

  // ----- the list of ids

  predicate Descending(ids: seq<nat>) {
    forall i, j :: 0 <= i < j < |ids| ==> ids[j] < ids[i]
  }

  lemma {:induction false} IdsDescend(entries: seq<Entry>, resident: nat, before: nat)
    ensures Descending(Ids(entries, resident, before))
  {
    if entries != [] {
      IdsDescend(entries[..|entries| - 1], resident, before);
    }
  }

  lemma {:induction false} IdsComplete(entries: seq<Entry>, resident: nat, before: nat, id: nat)
    requires 1 <= id <= |entries| && id < before && entries[id - 1].resident == resident
    ensures id in Ids(entries, resident, before)
  {
    if id < |entries| {
      IdsComplete(entries[..|entries| - 1], resident, before, id);
    }
  }

  /** What is appended later does not show below an earlier cursor. */
  lemma {:induction false} IdsOfLonger(entries: seq<Entry>, longer: seq<Entry>, resident: nat, before: nat)
    requires entries <= longer && before <= |entries| + 1
    ensures Ids(longer, resident, before) == Ids(entries, resident, before)
    decreases |longer|
  {
    if |entries| < |longer| {
      IdsOfLonger(entries, longer[..|longer| - 1], resident, before);
    } else {
      assert entries == longer;
    }
  }

  lemma IdsStep(entries: seq<Entry>, resident: nat, before: nat)
    requires entries != []
    ensures var n := |entries| - 1;
      Ids(entries, resident, before)
        == (if n + 1 < before && entries[n].resident == resident then [n + 1] else [])
           + Ids(entries[..n], resident, before)
  {
  }

  lemma AfterFirst(first: nat, rest: seq<nat>, k: nat)
    requires 1 <= k <= |rest|
    ensures ([first] + rest)[k] == rest[k - 1] && ([first] + rest)[k + 1..] == rest[k..]
  {
  }

  /** A cursor at the k-th id continues right after it. */
  lemma {:induction false} IdsAfter(entries: seq<Entry>, resident: nat, before: nat, k: nat)
    requires k < |Ids(entries, resident, before)|
    ensures Ids(entries, resident, Ids(entries, resident, before)[k]) == Ids(entries, resident, before)[k + 1..]
  {
    var ids := Ids(entries, resident, before);
    assert entries != [];
    hide Ids;
    var n := |entries| - 1;
    var shorter := Ids(entries[..n], resident, before);
    IdsStep(entries, resident, before);
    IdsStep(entries, resident, ids[k]);
    if n + 1 < before && entries[n].resident == resident {
      if k == 0 {
        CursorAbove(entries[..n], resident, before, n + 1);
      } else {
        AfterFirst(n + 1, shorter, k);
        IdsAfter(entries[..n], resident, before, k - 1);
      }
    } else {
      assert ids == shorter;
      IdsAfter(entries[..n], resident, before, k);
    }
  }

  lemma {:induction false} CursorAbove(entries: seq<Entry>, resident: nat, before: nat, other: nat)
    requires |entries| < before && |entries| < other
    ensures Ids(entries, resident, before) == Ids(entries, resident, other)
  {
    if entries != [] {
      CursorAbove(entries[..|entries| - 1], resident, before, other);
    }
  }

  /** A page is the first `limit` ids, and its cursor leads to exactly the rest. */
  lemma PageSplits(entries: seq<Entry>, balance: int, resident: nat, before: Option<nat>, limit: nat)
    requires limit >= 1
    ensures var ids := Ids(entries, resident, Cursor(entries, before));
      var page := ReadPage(entries, balance, resident, before, limit);
      && |page.history| <= limit
      && (page.hasMore <==> page.nextBefore.Some?)
      && (page.hasMore <==> |ids| > limit)
      && (page.hasMore ==>
           && page.nextBefore.value < Cursor(entries, before)
           && page.history == AllShown(entries, ids[..limit])
           && Ids(entries, resident, page.nextBefore.value) == ids[limit..])
      && (!page.hasMore ==> page.history == AllShown(entries, ids))
  {
    var ids := Ids(entries, resident, Cursor(entries, before));
    if |ids| > limit {
      assert ids[..limit + 1][..limit] == ids[..limit];
      IdsAfter(entries, resident, Cursor(entries, before), limit - 1);
    } else {
      assert ids[..|ids|][..|ids|] == ids;
    }
  }

  lemma ShownOfLonger(entries: seq<Entry>, longer: seq<Entry>, ids: seq<nat>)
    requires entries <= longer && forall k :: 0 <= k < |ids| ==> 1 <= ids[k] <= |entries|
    ensures AllShown(longer, ids) == AllShown(entries, ids)
  {
    forall k | 0 <= k < |ids| ensures longer[ids[k] - 1] == entries[ids[k] - 1] {
    }
  }

  // ----- the walk

  lemma WalkStep(ledger: nat -> seq<Entry>, limit: nat -> nat, resident: nat, before: Option<nat>, k: nat)
    requires limit(k) >= 1
    ensures var page := ReadPage(ledger(k), 0, resident, before, limit(k));
      Walk(ledger, limit, resident, before, k)
        == if page.hasMore then page.history + Walk(ledger, limit, resident, page.nextBefore, k + 1) else page.history
  {
    PageSplits(ledger(k), 0, resident, before, limit(k));
    hide ReadPage, Ids, AllShown;
  }

  lemma {:induction false} WalkGivesRest(
    ledger: nat -> seq<Entry>, limit: nat -> nat, resident: nat, before: Option<nat>, start: nat, k: nat)
    requires start <= k && (forall j: nat :: start <= j ==> ledger(start) <= ledger(j))
    requires forall j: nat :: limit(j) >= 1
    requires before.Some? ==> before.value <= |ledger(start)| + 1
    requires before.None? ==> k == start
    ensures Walk(ledger, limit, resident, before, k)
         == AllShown(ledger(start), Ids(ledger(start), resident, Cursor(ledger(start), before)))
    decreases Cursor(ledger(start), before)
  {
    hide ReadPage, Ids, AllShown, Walk;
    var first := ledger(start);
    var now := ledger(k);
    var cursor := Cursor(first, before);
    IdsOfLonger(first, now, resident, cursor);
    var ids := Ids(first, resident, cursor);
    PageSplits(now, 0, resident, before, limit(k));
    var page := ReadPage(now, 0, resident, before, limit(k));
    WalkStep(ledger, limit, resident, before, k);
    if page.hasMore {
      var n := limit(k);
      ShownOfLonger(first, now, ids[..n]);
      WalkGivesRest(ledger, limit, resident, page.nextBefore, start, k + 1);
      IdsOfLonger(first, now, resident, page.nextBefore.value);
      ShownInTwo(first, ids, n);
    } else {
      ShownOfLonger(first, now, ids);
    }
  }

  lemma ShownInTwo(entries: seq<Entry>, ids: seq<nat>, n: nat)
    requires n <= |ids| && forall k :: 0 <= k < |ids| ==> 1 <= ids[k] <= |entries|
    ensures AllShown(entries, ids[..n]) + AllShown(entries, ids[n..]) == AllShown(entries, ids)
  {
  }

  /**
   With any limits, and while newer entries are appended between pages, following the cursor
   shows exactly the resident's entries that the first page's ledger held, newest first, each once.
   */
  lemma WalkShowsHistory(ledger: nat -> seq<Entry>, limit: nat -> nat, resident: nat)
    requires forall j: nat :: ledger(0) <= ledger(j)
    requires forall j: nat :: limit(j) >= 1
    ensures var shown := Walk(ledger, limit, resident, None, 0);
      && (forall i, j :: 0 <= i < j < |shown| ==> shown[j].id < shown[i].id)
      && (forall i :: 0 <= i < |shown| ==>
            Owns(ledger(0), resident, shown[i].id) && shown[i] == Shown(ledger(0), shown[i].id))
      && (forall id :: Owns(ledger(0), resident, id) ==>
            exists i :: 0 <= i < |shown| && shown[i].id == id)
  {
    hide Walk, ReadPage, Ids;
    var first := ledger(0);
    var ids := Ids(first, resident, |first| + 1);
    WalkGivesRest(ledger, limit, resident, None, 0, 0);
    IdsDescend(first, resident, |first| + 1);
    var shown := Walk(ledger, limit, resident, None, 0);
    forall id | Owns(first, resident, id)
      ensures exists i :: 0 <= i < |shown| && shown[i].id == id
    {
      IdsComplete(first, resident, |first| + 1, id);
      var i :| 0 <= i < |ids| && ids[i] == id;
      assert shown[i].id == id;
    }
  }

  // ----- the amounts

  function Sum(receipts: seq<Receipt>): int {
    if receipts == [] then 0 else receipts[0].units + Sum(receipts[1..])
  }

  lemma {:induction false} HistorySums(entries: seq<Entry>, resident: nat, before: nat)
    requires |entries| < before
    ensures Sum(AllShown(entries, Ids(entries, resident, before))) == Balance(entries, resident)
  {
    if entries != [] {
      var n := |entries| - 1;
      var ids := Ids(entries[..n], resident, before);
      HistorySums(entries[..n], resident, before);
      ShownOfLonger(entries[..n], entries, ids);
      SignRulesAgree(entries[n]);
      var all := AllShown(entries, Ids(entries, resident, before));
      if entries[n].resident == resident {
        assert all == [Shown(entries, n + 1)] + AllShown(entries, ids);
        assert all[1..] == AllShown(entries, ids);
      } else {
        assert Ids(entries, resident, before) == ids;
      }
    }
  }

  /** The signed amounts shown over a whole walk add up to the balance at its first page. */
  lemma WalkSumsToBalance(ledger: nat -> seq<Entry>, limit: nat -> nat, resident: nat)
    requires forall j: nat :: ledger(0) <= ledger(j)
    requires forall j: nat :: limit(j) >= 1
    ensures Sum(Walk(ledger, limit, resident, None, 0)) == Balance(ledger(0), resident)
  {
    WalkGivesRest(ledger, limit, resident, None, 0, 0);
    HistorySums(ledger(0), resident, |ledger(0)| + 1);
  }
}
