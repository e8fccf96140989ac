/**
 * The price-history side of src/hooks/useProductOperations.ts: the dated
 * record a price change produces, the upsert-on-date updater that
 * `updateProduct` hands to `setPriceHistory`, the cascade `deleteProduct`
 * applies, and the invariant those keep on the ledger.
 */
module PriceLedger {
  import opened Types
  import opened Seqs
  import opened ProductUtils

  /** The record `addProduct` seeds and `addPriceHistoryEntry` returns. */
  function DatedEntry(productId: string, price: int, date: Date): PriceHistory {
    PriceHistory(HistoryEntryId(productId, date), productId, price, date)
  }

  function IsEntryFor(productId: string, date: Date): PriceHistory -> bool {
    (h: PriceHistory) => h.productId == productId && h.date == date
  }

  function NotOfProduct(productId: string): PriceHistory -> bool {
    (h: PriceHistory) => h.productId != productId
  }

  /** The entry for `productId` dated `date`, if the ledger has one. */
  function FindDatedEntry(history: seq<PriceHistory>, productId: string, date: Date): (r: Option<PriceHistory>)
    ensures r.None? <==> forall h :: h in history ==> !(h.productId == productId && h.date == date)
    ensures r.Some? ==> r.value in history && r.value.productId == productId && r.value.date == date
  {
    Find(history, IsEntryFor(productId, date))
  }

  /** Every entry whose id is `entryId` gets `price`; the rest stay as they are. */
  function SetPriceById(history: seq<PriceHistory>, entryId: string, price: int): (r: seq<PriceHistory>)
    ensures |r| == |history|
    ensures forall i :: 0 <= i < |r| ==> r[i].(price := history[i].price) == history[i]
    ensures forall i :: 0 <= i < |r| ==> r[i].price == if history[i].id == entryId then price else history[i].price
  {
    seq(|history|, i requires 0 <= i < |history| =>
          if history[i].id == entryId then history[i].(price := price) else history[i])
  }

  /**
   * The price-history update of a price change dated `today`: overwrite the
   * price of today's entry for the product when there is one, append a new
   * dated entry otherwise.
   */
  function UpsertTodayPrice(history: seq<PriceHistory>, productId: string, price: int, today: Date)
    : (r: seq<PriceHistory>)
    ensures FindDatedEntry(history, productId, today).None? ==>
              r == history + [DatedEntry(productId, price, today)]
    ensures FindDatedEntry(history, productId, today).Some? ==> |r| == |history|
    ensures forall i :: 0 <= i < |history| ==>
              r[i].id == history[i].id && r[i].productId == history[i].productId && r[i].date == history[i].date
    ensures exists i :: 0 <= i < |r| && r[i].productId == productId && r[i].date == today && r[i].price == price
  {
    match FindDatedEntry(history, productId, today)
    case Some(entry) =>
      var r := SetPriceById(history, entry.id, price);
      var m :| 0 <= m < |history| && history[m] == entry;
      assert r[m].price == price;
      r
    case None =>
      var r := history + [DatedEntry(productId, price, today)];
      assert r[|history|].price == price;
      r
  }

  /** Removing a product's records: the cascade of `deleteProduct`. */
  function RemoveHistoryOf(history: seq<PriceHistory>, productId: string): (r: seq<PriceHistory>)
    ensures forall h :: h in r <==> h in history && h.productId != productId
    ensures forall h: PriceHistory :: h.productId != productId ==> multiset(r)[h] == multiset(history)[h]
    ensures IsSubsequence(r, history)
  {
    FilterMembers(history, NotOfProduct(productId));
    FilterCounts(history, NotOfProduct(productId));
    FilterIsSubsequence(history, NotOfProduct(productId));
    Filter(history, NotOfProduct(productId))
  }

  // ------------------------------------------------------------------
  // The ledger invariant
  // ------------------------------------------------------------------

  function DifferentDay(a: PriceHistory, b: PriceHistory): bool {
    a.productId != b.productId || a.date != b.date
  }

  /**
   * A well-kept ledger as of `asOf`: every record is dated on a real day no
   * later than `asOf`, carries the id `<productId>-<date>`, and no product has
   * two records for one day.
   */
  ghost predicate LedgerValid(history: seq<PriceHistory>, asOf: Date) {
    && ValidDate(asOf)
    && (forall h :: h in history ==>
          ValidDate(h.date) && DateLe(h.date, asOf) && h.id == HistoryEntryId(h.productId, h.date))
    && Pairwise(history, DifferentDay)
  }

  lemma LedgerValidLater(history: seq<PriceHistory>, asOf: Date, later: Date)
    requires LedgerValid(history, asOf) && ValidDate(later) && DateLe(asOf, later)
    ensures LedgerValid(history, later)
  {
  }

  /**
   * When a product's records are all dated no later than `today` and exactly
   * one is dated `today`, its latest price is that record's.
   */
  lemma LatestPriceIsTodays(history: seq<PriceHistory>, productId: string, today: Date, m: nat)
    requires Pairwise(history, DifferentDay)
    requires m < |history| && history[m].productId == productId && history[m].date == today
    requires forall h :: h in history && h.productId == productId ==> DateLe(h.date, today)
    ensures LatestPrice(history, productId) == history[m].price
  {
    var own := Filter(history, ByProduct(productId));
    FilterMembers(history, ByProduct(productId));
    FilterKeepsPairwise(history, ByProduct(productId), DifferentDay);
    assert history[m] in own;
    var j :| 0 <= j < |own| && own[j] == history[m];
    var k := LatestIndex(own);
    assert own[k] in own;
    assert DateLe(own[j].date, own[k].date);
    assert own[k].date == today;
  }

  /** Records of other products do not move a product's latest price. */
  lemma LatestPriceAppendOther(history: seq<PriceHistory>, e: PriceHistory, productId: string)
    requires e.productId != productId
    ensures LatestPrice(history + [e], productId) == LatestPrice(history, productId)
  {
    FilterAppend(history, [e], ByProduct(productId));
    assert Filter([e], ByProduct(productId)) == [] by {
      assert [e][1..] == [];
    }
    assert Filter(history, ByProduct(productId)) + [] == Filter(history, ByProduct(productId));
  }

  lemma LatestPriceUpdateOther(history: seq<PriceHistory>, m: nat, y: PriceHistory, productId: string)
    requires m < |history| && history[m].productId != productId && y.productId != productId
    ensures LatestPrice(history[m := y], productId) == LatestPrice(history, productId)
  {
    FilterUpdateDropped(history, m, y, ByProduct(productId));
  }

  /** Removing one product's records does not move any other product's latest price. */
  lemma LatestPriceAfterRemoval(history: seq<PriceHistory>, removed: string, productId: string)
    requires removed != productId
    ensures LatestPrice(RemoveHistoryOf(history, removed), productId) == LatestPrice(history, productId)
  {
    FilterOfFilter(history, NotOfProduct(removed), ByProduct(productId));
  }

  /** A product has at most one record per day. */
  lemma SameDaySameRecord(history: seq<PriceHistory>, a: PriceHistory, b: PriceHistory)
    requires Pairwise(history, DifferentDay)
    requires a in history && b in history && a.productId == b.productId && a.date == b.date
    ensures a == b
  {
    var i :| 0 <= i < |history| && history[i] == a;
    var j :| 0 <= j < |history| && history[j] == b;
  }

  /** The records a product's chart shows are the product's records in the ledger. */
  lemma ChartMembers(history: seq<PriceHistory>, productId: string)
    ensures forall h :: h in GetProductPriceHistoryList(history, productId) <==> h in history && h.productId == productId
  {
    var chart := GetProductPriceHistoryList(history, productId);
    forall h ensures h in chart <==> h in history && h.productId == productId {
      assert h in chart <==> multiset(chart)[h] > 0;
      assert h in history <==> multiset(history)[h] > 0;
    }
  }

  /** The last point of a sorted chart is dated no earlier than any other point. */
  lemma LastIsLatestDated(chart: seq<PriceHistory>, h: PriceHistory)
    requires SortedByDate(chart) && h in chart
    ensures DateLe(h.date, chart[|chart| - 1].date)
  {
    var i :| 0 <= i < |chart| && chart[i] == h;
    if i < |chart| - 1 {
      assert DateLe(chart[i].date, chart[|chart| - 1].date);
    }
  }

  lemma LastChartedPrice(history: seq<PriceHistory>, productId: string, chart: seq<PriceHistory>)
    requires Pairwise(history, DifferentDay)
    requires SortedByDate(chart) && chart != []
    requires forall h :: h in chart <==> h in history && h.productId == productId
    ensures LatestPrice(history, productId) == chart[|chart| - 1].price
  {
    var last := chart[|chart| - 1];
    assert last in chart;
    var h :| h in history && h.productId == productId && h.price == LatestPrice(history, productId)
             && forall g :: g in history && g.productId == productId ==> DateLe(g.date, h.date);
    LastIsLatestDated(chart, h);
    DateLeAntisymmetric(h.date, last.date);
    SameDaySameRecord(history, h, last);
  }

  /**
   * With one record per product and day, the last point of a product's chart
   * is the record its latest price comes from; an empty chart means price 0.
   */
  lemma LastChartedIsLatest(history: seq<PriceHistory>, productId: string)
    requires Pairwise(history, DifferentDay)
    ensures var chart := GetProductPriceHistoryList(history, productId);
            && (chart == [] ==> LatestPrice(history, productId) == 0)
            && (chart != [] ==> LatestPrice(history, productId) == chart[|chart| - 1].price)
  {
    var chart := GetProductPriceHistoryList(history, productId);
    ChartMembers(history, productId);
    if chart != [] {
      LastChartedPrice(history, productId, chart);
    }
  }

  /** In a well-kept ledger no two records share an id. */
  lemma LedgerIdsUnique(history: seq<PriceHistory>, asOf: Date, m: nat)
    requires LedgerValid(history, asOf) && m < |history|
    ensures forall i :: 0 <= i < |history| && history[i].id == history[m].id ==> i == m
  {
    forall i | 0 <= i < |history| && history[i].id == history[m].id ensures i == m {
      assert history[i] in history && history[m] in history;
      HistoryEntryIdInjective(history[i].productId, history[i].date, history[m].productId, history[m].date);
    }
  }

  lemma SetPriceOfUniqueId(history: seq<PriceHistory>, m: nat, price: int)
    requires m < |history|
    requires forall i :: 0 <= i < |history| && history[i].id == history[m].id ==> i == m
    ensures SetPriceById(history, history[m].id, price) == history[m := history[m].(price := price)]
  {
  }

  /**
   * With a well-kept ledger, the overwrite branch of the upsert changes the
   * price of exactly one record, today's record of the product, because record
   * ids are unique per product and day.
   */
  lemma UpsertOverwritesOneEntry(history: seq<PriceHistory>, asOf: Date, productId: string, price: int, today: Date)
    requires LedgerValid(history, asOf)
    requires FindDatedEntry(history, productId, today).Some?
    ensures exists m :: 0 <= m < |history| && history[m].productId == productId && history[m].date == today
                        && UpsertTodayPrice(history, productId, price, today) == history[m := history[m].(price := price)]
  {
    var entry := FindDatedEntry(history, productId, today).value;
    var m :| 0 <= m < |history| && history[m] == entry;
    assert UpsertTodayPrice(history, productId, price, today) == SetPriceById(history, entry.id, price);
    LedgerIdsUnique(history, asOf, m);
    SetPriceOfUniqueId(history, m, price);
  }

  /** Rewriting a record's price keeps one record per product and day. */
  lemma RepriceKeepsPairwise(history: seq<PriceHistory>, m: nat, price: int)
    requires Pairwise(history, DifferentDay) && m < |history|
    ensures Pairwise(history[m := history[m].(price := price)], DifferentDay)
  {
    var r := history[m := history[m].(price := price)];
    forall i, j | 0 <= i < j < |r| ensures DifferentDay(r[i], r[j]) {
      assert DifferentDay(history[i], history[j]);
    }
  }

  /** Every record after a repricing is an old one or the repriced one. */
  lemma RepricedMembers(history: seq<PriceHistory>, m: nat, price: int)
    requires m < |history|
    ensures var r := history[m := history[m].(price := price)];
            forall h :: h in r ==> h in history || h == r[m]
  {
    var r := history[m := history[m].(price := price)];
    forall h | h in r ensures h in history || h == r[m] {
      var i :| 0 <= i < |r| && r[i] == h;
      if i != m {
        assert h == history[i];
      }
    }
  }

  /** Repricing today's record of a product keeps the ledger well kept as of today. */
  lemma RepriceKeepsLedger(history: seq<PriceHistory>, asOf: Date, m: nat, price: int, today: Date)
    requires LedgerValid(history, asOf) && ValidDate(today) && DateLe(asOf, today)
    requires m < |history| && history[m].date == today
    ensures LedgerValid(history[m := history[m].(price := price)], today)
  {
    RepriceKeepsPairwise(history, m, price);
    RepricedMembers(history, m, price);
    assert history[m] in history;
  }

  /** The overwrite branch: today's record of the product now holds the new price. */
  lemma OverwriteKeepsLedger(history: seq<PriceHistory>, asOf: Date, productId: string, price: int, today: Date, m: nat)
    requires LedgerValid(history, asOf) && ValidDate(today) && DateLe(asOf, today)
    requires m < |history| && history[m].productId == productId && history[m].date == today
    ensures var r := history[m := history[m].(price := price)];
            && LedgerValid(r, today)
            && LatestPrice(r, productId) == price
            && (forall q :: q != productId ==> LatestPrice(r, q) == LatestPrice(history, q))
            && (forall h :: h in r ==> h in history || h.productId == productId)
  {
    var r := history[m := history[m].(price := price)];
    RepriceKeepsLedger(history, asOf, m, price, today);
    RepricedMembers(history, m, price);
    LatestPriceIsTodays(r, productId, today, m);
    forall q | q != productId ensures LatestPrice(r, q) == LatestPrice(history, q) {
      LatestPriceUpdateOther(history, m, r[m], q);
    }
  }

  /** Appending a record for a day the product has none keeps one record per product and day. */
  lemma AppendKeepsPairwise(history: seq<PriceHistory>, e: PriceHistory)
    requires Pairwise(history, DifferentDay)
    requires forall h :: h in history ==> !(h.productId == e.productId && h.date == e.date)
    ensures Pairwise(history + [e], DifferentDay)
  {
    var r := history + [e];
    forall i, j | 0 <= i < j < |r| ensures DifferentDay(r[i], r[j]) {
      if j < |history| {
        assert DifferentDay(history[i], history[j]);
      } else {
        assert history[i] in history;
      }
    }
  }

  /** The append branch keeps the ledger well kept as of `today`. */
  lemma AppendKeepsValid(history: seq<PriceHistory>, asOf: Date, productId: string, price: int, today: Date)
    requires LedgerValid(history, asOf) && ValidDate(today) && DateLe(asOf, today)
    requires forall h :: h in history ==> !(h.productId == productId && h.date == today)
    ensures LedgerValid(history + [DatedEntry(productId, price, today)], today)
  {
    var e := DatedEntry(productId, price, today);
    AppendKeepsPairwise(history, e);
    LedgerValidLater(history, asOf, today);
    assert forall h :: h in history + [e] ==> h in history || h == e;
  }

  /** The append branch: the product had no record for today and now has one. */
  lemma AppendKeepsLedger(history: seq<PriceHistory>, asOf: Date, productId: string, price: int, today: Date)
    requires LedgerValid(history, asOf) && ValidDate(today) && DateLe(asOf, today)
    requires forall h :: h in history ==> !(h.productId == productId && h.date == today)
    ensures var r := history + [DatedEntry(productId, price, today)];
            && LedgerValid(r, today)
            && LatestPrice(r, productId) == price
            && (forall q :: q != productId ==> LatestPrice(r, q) == LatestPrice(history, q))
  {
    var e := DatedEntry(productId, price, today);
    var r := history + [e];
    AppendKeepsValid(history, asOf, productId, price, today);
    LatestPriceIsTodays(r, productId, today, |history|);
    forall q | q != productId ensures LatestPrice(r, q) == LatestPrice(history, q) {
      LatestPriceAppendOther(history, e, q);
    }
  }

  /**
   * The upsert keeps the ledger well kept as of `today`, makes the product's
   * latest price the new one, and leaves every other product's latest price
   * alone; every record it leaves is either an old one or the product's.
   */
  lemma UpsertKeepsLedger(history: seq<PriceHistory>, asOf: Date, productId: string, price: int, today: Date)
    requires LedgerValid(history, asOf) && ValidDate(today) && DateLe(asOf, today)
    ensures var r := UpsertTodayPrice(history, productId, price, today);
            && LedgerValid(r, today)
            && LatestPrice(r, productId) == price
            && (forall q :: q != productId ==> LatestPrice(r, q) == LatestPrice(history, q))
            && (forall h :: h in r ==> h in history || h.productId == productId)
  {
    if FindDatedEntry(history, productId, today).Some? {
      UpsertOverwritesOneEntry(history, asOf, productId, price, today);
      var m :| 0 <= m < |history| && history[m].productId == productId && history[m].date == today
               && UpsertTodayPrice(history, productId, price, today) == history[m := history[m].(price := price)];
      OverwriteKeepsLedger(history, asOf, productId, price, today, m);
    } else {
      AppendKeepsLedger(history, asOf, productId, price, today);
    }
  }

  /**
   * Seeding a product that has no records yet keeps the ledger well kept and
   * gives the product the seeded price, without moving any other price.
   */
  lemma SeedKeepsLedger(history: seq<PriceHistory>, asOf: Date, productId: string, price: int, today: Date)
    requires LedgerValid(history, asOf) && ValidDate(today) && DateLe(asOf, today)
    requires forall h :: h in history ==> h.productId != productId
    ensures var r := history + [DatedEntry(productId, price, today)];
            && LedgerValid(r, today)
            && LatestPrice(r, productId) == price
            && (forall q :: q != productId ==> LatestPrice(r, q) == LatestPrice(history, q))
  {
    AppendKeepsLedger(history, asOf, productId, price, today);
  }

  /** The cascade keeps the ledger well kept. */
  lemma RemovalKeepsLedger(history: seq<PriceHistory>, asOf: Date, productId: string)
    requires LedgerValid(history, asOf)
    ensures LedgerValid(RemoveHistoryOf(history, productId), asOf)
  {
    FilterKeepsPairwise(history, NotOfProduct(productId), DifferentDay);
  }
}
