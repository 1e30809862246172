/** The city credit ledger: its entries and the three places that give an entry its sign. */
module CreditLedger {
  import opened Common

  const FEE := 1_000_000

  datatype Kind =
    | FounderIssue | Purchase | GiftPending | GiftAccept | GiftRefuse | GiftRedirect
    | Spend | Return | AdminCredit | AdminDebit
    | DisputeCreated | DisputeUpdated | DisputeResolved | DisputeReviewed

  /**
   A ledger row. `attempt` and `related` are positions of a payment attempt and of a spend
   entry; `gift` is the row's gift, if it belongs to one.
   */
  datatype Entry = Entry(
    resident: nat,
    kind: Kind,
    units: nat,
    gift: Option<nat>,
    requestId: Option<string>,
    attempt: Option<nat>,
    related: Option<nat>,
    sourceKey: Option<string>,
    reason: Option<string>)

  predicate IsDispute(kind: Kind) {
    kind.DisputeCreated? || kind.DisputeUpdated? || kind.DisputeResolved? || kind.DisputeReviewed?
  }

  /** The balance trigger `apply_city_credit_entry`. */
  function Delta(e: Entry): int {
    if e.kind.FounderIssue? || e.kind.Return? || e.kind.AdminCredit? || e.kind.GiftAccept? then e.units
    else if e.kind.Purchase? && e.gift.None? then e.units
    else if e.kind.Spend? || e.kind.AdminDebit? then 0 - e.units
    else 0
  }

  /** The signed amount that `mapHistoryEntry` shows. */
  function HistoryUnits(e: Entry): int {
    var zeroBalanceEvent :=
      || e.kind.GiftPending? || e.kind.GiftRefuse? || e.kind.GiftRedirect?
      || IsDispute(e.kind)
      || (e.kind.Purchase? && e.gift.Some?);
    if zeroBalanceEvent then 0
    else if e.kind.Spend? || e.kind.AdminDebit? then 0 - e.units
    else e.units
  }

  /** The rows that the `me` read counts as balance changes. */
  predicate AttentionCounts(e: Entry) {
    || e.kind.FounderIssue? || e.kind.Return? || e.kind.AdminCredit? || e.kind.GiftAccept?
    || e.kind.Spend? || e.kind.AdminDebit?
    || (e.kind.Purchase? && e.gift.None?)
  }

  /** The amount the `me` read adds for a row it counts. */
  function AttentionUnits(e: Entry): int {
    if e.kind.FounderIssue? || e.kind.Return? || e.kind.AdminCredit? || e.kind.GiftAccept? then e.units
    else if e.kind.Purchase? && e.gift.None? then e.units
    else if e.kind.Spend? || e.kind.AdminDebit? then 0 - e.units
    else 0
  }

  /** The three sign rules agree, and a row the `me` read does not count moves no balance. */
  lemma SignRulesAgree(e: Entry)
    ensures HistoryUnits(e) == Delta(e) == AttentionUnits(e)
    ensures !AttentionCounts(e) ==> Delta(e) == 0
  {
  }

  /** A resident's balance: the signed sum of the resident's entries. */
  function Balance(entries: seq<Entry>, resident: nat): int {
    if entries == [] then 0
    else
      var last := entries[|entries| - 1];
      Balance(entries[..|entries| - 1], resident) + (if last.resident == resident then Delta(last) else 0)
  }

  lemma BalanceOfNext(entries: seq<Entry>, e: Entry, resident: nat)
    ensures Balance(entries + [e], resident)
         == Balance(entries, resident) + (if e.resident == resident then Delta(e) else 0)
  {
    assert (entries + [e])[..|entries|] == entries;
  }
}
