/**
 * The product store of src/hooks/useProductOperations.ts: the in-memory list
 * of products and the price-history ledger, and the four operations that
 * change them after the matching database call succeeds.
 *
 * Every database write is a step that may fail; it is a `bool` parameter here
 * (`true`: the call resolved), and when it fails the store is left as it was.
 * The two fetches of the load are `Option` parameters (`None`: the fetch failed).
 * The clock is a parameter too: `today` is the date part of
 * `new Date().toISOString()` and `now` the full timestamp text.
 */
module ProductOperations {
  import opened Types
  import opened Seqs
  import opened ProductUtils
  import opened PriceLedger

  /** What the add-product form submits: a product without id, code and timestamp. */
  datatype ProductDraft = ProductDraft(name: string, quantity: int, unit: string, price: int, category: string)

  /** The product `addProduct` appends: code and id are both the generated code. */
  function NewProduct(code: string, draft: ProductDraft, now: string): Product {
    Product(code, code, draft.name, draft.quantity, draft.unit, draft.price, draft.category, now)
  }

  function HasId(id: string): Product -> bool {
    (p: Product) => p.id == id
  }

  function NotId(id: string): Product -> bool {
    (p: Product) => p.id != id
  }

  /** `products.find(p => p.id === id)`. */
  function FindProduct(products: seq<Product>, id: string): (r: Option<Product>)
    ensures r.None? <==> forall p :: p in products ==> p.id != id
    ensures r.Some? ==> r.value in products && r.value.id == id
    ensures r.Some? ==> exists i :: 0 <= i < |products| && products[i] == r.value
                                   && forall j :: 0 <= j < i ==> products[j].id != id
  {
    Find(products, HasId(id))
  }

  /** `prev.map(p => p.id === updated.id ? updated : p)`. */
  function ReplaceProduct(products: seq<Product>, updated: Product): (r: seq<Product>)
    ensures |r| == |products|
    ensures (forall p :: p in products ==> p.id != updated.id) ==> r == products
    ensures forall p :: p in r ==> p == updated || (p in products && p.id != updated.id)
    ensures forall p :: p in products && p.id != updated.id ==> p in r
  {
    var r := seq(|products|, i requires 0 <= i < |products| =>
                   if products[i].id == updated.id then updated else products[i]);
    assert forall p :: p in products && p.id != updated.id ==> p in r by {
      forall p | p in products && p.id != updated.id ensures p in r {
        var i :| 0 <= i < |products| && products[i] == p;
        assert r[i] == p;
      }
    }
    r
  }

  /** `prev.filter(p => p.id !== id)`. */
  function RemoveProduct(products: seq<Product>, id: string): (r: seq<Product>)
    ensures forall p :: p in r <==> p in products && p.id != id
    ensures forall p: Product :: p.id != id ==> multiset(r)[p] == multiset(products)[p]
    ensures IsSubsequence(r, products)
  {
    FilterMembers(products, NotId(id));
    FilterCounts(products, NotId(id));
    FilterIsSubsequence(products, NotId(id));
    Filter(products, NotId(id))
  }

  /** `existingProduct && existingProduct.price !== updated.price`. */
  function PriceChanged(products: seq<Product>, updated: Product): (b: bool)
    ensures b <==> exists p :: p in products && p.id == updated.id && p.price != updated.price
                               && FindProduct(products, updated.id) == Some(p)
  {
    match FindProduct(products, updated.id)
    case Some(existing) => existing.price != updated.price
    case None => false
  }

  // ------------------------------------------------------------------
  // The store invariant
  // ------------------------------------------------------------------

  function DifferentId(a: Product, b: Product): bool {
    a.id != b.id
  }

  predicate IsStored(products: seq<Product>, id: string) {
    exists p :: p in products && p.id == id
  }

  /**
   * The products and the ledger agree as of `asOf`: the ledger is well kept,
   * product ids are unique and equal to the product codes, every product is
   * priced at its latest record (0 without one), and every record belongs to
   * a stored product.
   */
  ghost predicate Consistent(products: seq<Product>, history: seq<PriceHistory>, asOf: Date) {
    && LedgerValid(history, asOf)
    && Pairwise(products, DifferentId)
    && PricedByLedger(products, history)
    && AllStored(products, history)
  }

  /** Every product is keyed by its code and priced at its latest record. */
  predicate PricedByLedger(products: seq<Product>, history: seq<PriceHistory>) {
    forall p :: p in products ==> p.id == p.code && p.price == LatestPrice(history, p.id)
  }

  /** Every record belongs to a stored product. */
  predicate AllStored(products: seq<Product>, history: seq<PriceHistory>) {
    forall h :: h in history ==> IsStored(products, h.productId)
  }

  /** With unique ids, the map replaces exactly the product with the updated one's id. */
  lemma ReplaceUnique(products: seq<Product>, updated: Product, k: nat)
    requires Pairwise(products, DifferentId)
    requires k < |products| && products[k].id == updated.id
    ensures ReplaceProduct(products, updated) == products[k := updated]
  {
    var r := ReplaceProduct(products, updated);
    forall i | 0 <= i < |products| ensures r[i] == products[k := updated][i] {
      if i < k {
        assert DifferentId(products[i], products[k]);
      } else if k < i {
        assert DifferentId(products[k], products[i]);
      }
    }
  }

  /** A fresh code has no records in a consistent store. */
  lemma NoRecordsForFreshCode(products: seq<Product>, history: seq<PriceHistory>, asOf: Date, code: string)
    requires Consistent(products, history, asOf)
    requires forall p :: p in products ==> p.code != code
    ensures forall h :: h in history ==> h.productId != code
  {
    forall h | h in history ensures h.productId != code {
      var p :| p in products && p.id == h.productId;
    }
  }

  lemma AppendKeepsDistinct(products: seq<Product>, np: Product)
    requires Pairwise(products, DifferentId)
    requires forall p :: p in products ==> p.id != np.id
    ensures Pairwise(products + [np], DifferentId)
  {
    var ps := products + [np];
    forall i, j | 0 <= i < j < |ps| ensures DifferentId(ps[i], ps[j]) {
      if j < |products| {
        assert DifferentId(products[i], products[j]);
      } else {
        assert products[i] in products;
      }
    }
  }

  /** Appending a product priced at its new record, with a record of its own. */
  lemma AppendKeepsPricing(products: seq<Product>, history: seq<PriceHistory>, np: Product, e: PriceHistory)
    requires PricedByLedger(products, history) && AllStored(products, history)
    requires np.id == np.code && np.id == e.productId
    requires forall p :: p in products ==> p.id != np.id
    requires LatestPrice(history + [e], np.id) == np.price
    requires forall q :: q != np.id ==> LatestPrice(history + [e], q) == LatestPrice(history, q)
    ensures PricedByLedger(products + [np], history + [e])
    ensures AllStored(products + [np], history + [e])
  {
    var ps, hs := products + [np], history + [e];
    assert forall p :: p in ps ==> p in products || p == np;
    forall h | h in hs ensures IsStored(ps, h.productId) {
      if h in history {
        var p :| p in products && p.id == h.productId;
        assert p in ps;
      } else {
        assert h == e && ps[|products|] == np;
      }
    }
  }

  /** Adding a product under the next code keeps the store consistent, its price seeded for today. */
  lemma AddKeepsConsistent(products: seq<Product>, history: seq<PriceHistory>, asOf: Date,
                           draft: ProductDraft, today: Date, now: string)
    requires Consistent(products, history, asOf) && ValidDate(today) && DateLe(asOf, today)
    ensures var code := GenerateNextProductCode(products);
            && Consistent(products + [NewProduct(code, draft, now)],
                          history + [DatedEntry(code, draft.price, today)], today)
            && LatestPrice(history + [DatedEntry(code, draft.price, today)], code) == draft.price
  {
    var code := GenerateNextProductCode(products);
    NextCodeIsFresh(products);
    var np := NewProduct(code, draft, now);
    var e := DatedEntry(code, draft.price, today);
    NoRecordsForFreshCode(products, history, asOf, code);
    SeedKeepsLedger(history, asOf, code, draft.price, today);
    AppendKeepsDistinct(products, np);
    AppendKeepsPricing(products, history, np, e);
  }

  /** The update of a product whose id is not stored changes nothing. */
  lemma UpdateUnknownChangesNothing(products: seq<Product>, updated: Product)
    requires forall p :: p in products ==> p.id != updated.id
    ensures !PriceChanged(products, updated)
    ensures ReplaceProduct(products, updated) == products
  {
  }

  /** Replacing the product at `k` by one with the same id keeps ids unique. */
  lemma ReplaceKeepsDistinct(products: seq<Product>, updated: Product, k: nat)
    requires Pairwise(products, DifferentId)
    requires k < |products| && products[k].id == updated.id
    ensures Pairwise(products[k := updated], DifferentId)
  {
    var ps := products[k := updated];
    forall i, j | 0 <= i < j < |ps| ensures DifferentId(ps[i], ps[j]) {
      assert DifferentId(products[i], products[j]);
    }
  }

  /** With unique ids, the first product with a stored id is the one at its index. */
  lemma FindUnique(products: seq<Product>, k: nat)
    requires Pairwise(products, DifferentId) && k < |products|
    ensures FindProduct(products, products[k].id) == Some(products[k])
  {
    var e := FindProduct(products, products[k].id).value;
    var i :| 0 <= i < |products| && products[i] == e;
  }

  /**
   * Replacing the product at `k` by `updated` against a ledger `hs` that
   * prices `updated` correctly and leaves every other price alone keeps
   * every product priced by the ledger.
   */
  lemma ReplaceKeepsPricing(products: seq<Product>, history: seq<PriceHistory>, hs: seq<PriceHistory>,
                            updated: Product, k: nat)
    requires Pairwise(products, DifferentId) && PricedByLedger(products, history)
    requires k < |products| && products[k].id == updated.id && updated.id == updated.code
    requires LatestPrice(hs, updated.id) == updated.price
    requires forall q :: q != updated.id ==> LatestPrice(hs, q) == LatestPrice(history, q)
    ensures PricedByLedger(products[k := updated], hs)
  {
    var ps := products[k := updated];
    forall p | p in ps ensures p.id == p.code && p.price == LatestPrice(hs, p.id) {
      var i :| 0 <= i < |ps| && ps[i] == p;
      if i != k {
        assert p == products[i] && p in products;
        assert DifferentId(products[i], products[k]) || DifferentId(products[k], products[i]);
      }
    }
  }

  /** The same replacement, against a ledger that only adds records of `updated`, keeps every record owned. */
  lemma ReplaceKeepsStored(products: seq<Product>, history: seq<PriceHistory>, hs: seq<PriceHistory>,
                           updated: Product, k: nat)
    requires AllStored(products, history)
    requires k < |products| && products[k].id == updated.id
    requires forall h :: h in hs ==> h in history || h.productId == updated.id
    ensures AllStored(products[k := updated], hs)
  {
    var ps := products[k := updated];
    forall h | h in hs ensures IsStored(ps, h.productId) {
      assert ps[k] in ps;
      if h.productId != updated.id {
        var p :| p in products && p.id == h.productId;
        var i :| 0 <= i < |products| && products[i] == p;
        assert ps[i] == p;
      }
    }
  }

  /** The update of a stored product: the replaced list and the possibly upserted ledger. */
  lemma UpdateStoredKeepsConsistent(products: seq<Product>, history: seq<PriceHistory>, asOf: Date,
                                    updated: Product, today: Date, k: nat)
    requires Consistent(products, history, asOf) && ValidDate(today) && DateLe(asOf, today)
    requires updated.id == updated.code
    requires k < |products| && products[k].id == updated.id
    ensures var hs := if PriceChanged(products, updated)
                      then UpsertTodayPrice(history, updated.id, updated.price, today) else history;
            Consistent(products[k := updated], hs, today)
  {
    FindUnique(products, k);
    ReplaceKeepsDistinct(products, updated, k);
    if PriceChanged(products, updated) {
      var hs := UpsertTodayPrice(history, updated.id, updated.price, today);
      UpsertKeepsLedger(history, asOf, updated.id, updated.price, today);
      ReplaceKeepsPricing(products, history, hs, updated, k);
      ReplaceKeepsStored(products, history, hs, updated, k);
    } else {
      assert products[k] in products;
      LedgerValidLater(history, asOf, today);
      ReplaceKeepsPricing(products, history, history, updated, k);
      ReplaceKeepsStored(products, history, history, updated, k);
    }
  }

  /**
   * Updating a product keeps the store consistent, provided the update keeps
   * the product's id equal to its code (the edit form does not touch either).
   */
  lemma UpdateKeepsConsistent(products: seq<Product>, history: seq<PriceHistory>, updated: Product, today: Date)
    requires Consistent(products, history, today) && updated.id == updated.code
    ensures Consistent(ReplaceProduct(products, updated),
                       if PriceChanged(products, updated)
                       then UpsertTodayPrice(history, updated.id, updated.price, today) else history,
                       today)
  {
    match FindProduct(products, updated.id)
    case None =>
    case Some(existing) =>
      var k :| 0 <= k < |products| && products[k] == existing;
      ReplaceUnique(products, updated, k);
      UpdateStoredKeepsConsistent(products, history, today, updated, today, k);
  }

  /** Deleting a product and its records keeps the store consistent. */
  lemma DeleteKeepsConsistent(products: seq<Product>, history: seq<PriceHistory>, asOf: Date, id: string)
    requires Consistent(products, history, asOf)
    ensures Consistent(RemoveProduct(products, id), RemoveHistoryOf(history, id), asOf)
  {
    var ps := RemoveProduct(products, id);
    var hs := RemoveHistoryOf(history, id);
    RemovalKeepsLedger(history, asOf, id);
    FilterKeepsPairwise(products, NotId(id), DifferentId);
    forall p | p in ps ensures p.price == LatestPrice(hs, p.id) {
      LatestPriceAfterRemoval(history, id, p.id);
    }
    forall h | h in hs ensures IsStored(ps, h.productId) {
      var p :| p in products && p.id == h.productId;
    }
  }

  /**
   * The price a consistent store shows for a product is the last point of
   * the product's price chart, and 0 when the chart is empty.
   */
  lemma ShownPriceIsLastCharted(products: seq<Product>, history: seq<PriceHistory>, asOf: Date, p: Product)
    requires Consistent(products, history, asOf) && p in products
    ensures var chart := GetProductPriceHistoryList(history, p.id);
            && (chart == [] ==> p.price == 0)
            && (chart != [] ==> p.price == chart[|chart| - 1].price)
  {
    LastChartedIsLatest(history, p.id);
  }

  // ------------------------------------------------------------------
  // Loading
  // ------------------------------------------------------------------

  ghost predicate DistinctCodes(rows: seq<ProductRow>) {
    forall i, j :: 0 <= i < j < |rows| ==> rows[i].prodcode != rows[j].prodcode
  }

  /**
   * What the load assumes of the `pricehist` rows, as of `asOf`, though the
   * database enforces none of it: at most one row per code and day, each
   * with a valid date no later than `asOf` and naming a stored product.
   */
  ghost predicate PriceRowsWellFormed(rows: seq<ProductRow>, priceRows: seq<PriceRow>, asOf: Date) {
    && (forall i, j :: 0 <= i < j < |priceRows| ==>
          priceRows[i].prodcode != priceRows[j].prodcode || priceRows[i].effdate != priceRows[j].effdate)
    && (forall r :: r in priceRows ==> ValidDate(r.effdate) && DateLe(r.effdate, asOf))
    && (forall r :: r in priceRows ==> exists row :: row in rows && row.prodcode == r.prodcode)
  }

  /**
   * Loading rows with unique codes and price rows as `PriceRowsWellFormed`
   * assumes yields a consistent store.
   */
  lemma LoadIsConsistent(rows: seq<ProductRow>, priceRows: seq<PriceRow>, now: string, asOf: Date)
    requires ValidDate(asOf)
    requires DistinctCodes(rows) && PriceRowsWellFormed(rows, priceRows, asOf)
    ensures Consistent(FormatProductData(rows, priceRows, now), HistoryFromRows(priceRows), asOf)
  {
    var ps := FormatProductData(rows, priceRows, now);
    var hs := HistoryFromRows(priceRows);
    HistoryFromRowsMembers(priceRows);
    assert Pairwise(hs, DifferentDay) by {
      forall i, j | 0 <= i < j < |hs| ensures DifferentDay(hs[i], hs[j]) {
      }
    }
    forall h | h in hs ensures ValidDate(h.date) && DateLe(h.date, asOf) && h.id == HistoryEntryId(h.productId, h.date) {
      var r :| r in priceRows && h == HistoryFromRow(r);
    }
    assert Pairwise(ps, DifferentId) by {
      forall i, j | 0 <= i < j < |ps| ensures DifferentId(ps[i], ps[j]) {
      }
    }
    forall p | p in ps ensures p.id == p.code && p.price == LatestPrice(hs, p.id) {
      var i :| 0 <= i < |ps| && ps[i] == p;
    }
    forall h | h in hs ensures IsStored(ps, h.productId) {
      var r :| r in priceRows && h == HistoryFromRow(r);
      var row :| row in rows && row.prodcode == r.prodcode;
      var i :| 0 <= i < |rows| && rows[i] == row;
      assert ps[i] in ps;
    }
  }

  // ------------------------------------------------------------------
  // The store
  // ------------------------------------------------------------------

  /** The state `useProductOperations` keeps and the operations it returns. */
  class ProductStore {
    var products: seq<Product>
    var priceHistory: seq<PriceHistory>
    var isLoading: bool

    /** The hook's initial state: nothing loaded yet, loading pending. */
    constructor()
      ensures products == [] && priceHistory == [] && isLoading
    {
      products := [];
      priceHistory := [];
      isLoading := true;
    }

    /**
     * `loadProducts`: the two fetches are `None` when they fail. When both
     * succeed the store holds the formatted products and records; when
     * either fails it keeps what it had. Loading ends either way.
     */
    method LoadProducts(productRows: Option<seq<ProductRow>>, priceRows: Option<seq<PriceRow>>, now: string)
      modifies this
      ensures !isLoading
      ensures productRows.Some? && priceRows.Some? ==>
                && products == FormatProductData(productRows.value, priceRows.value, now)
                && priceHistory == HistoryFromRows(priceRows.value)
      ensures productRows.None? || priceRows.None? ==>
                products == old(products) && priceHistory == old(priceHistory)
    {
      isLoading := true;
      if productRows.Some? && priceRows.Some? {
        products := FormatProductData(productRows.value, priceRows.value, now);
        priceHistory := HistoryFromRows(priceRows.value);
      }
      isLoading := false;
    }

    /** `getNextProductCode`: a `PR####` code no stored product has. */
    function GetNextProductCode(): (code: string)
      reads this
      ensures code == GenerateNextProductCode(products)
    {
      GenerateNextProductCode(products)
    }

    /**
     * `addProduct`: on success the new product is appended with its
     * initial price record dated today; on failure nothing changes.
     */
    method AddProduct(draft: ProductDraft, today: Date, now: string, saved: bool)
      modifies this
      ensures !saved ==> products == old(products) && priceHistory == old(priceHistory)
      ensures saved ==>
                var code := GenerateNextProductCode(old(products));
                && products == old(products) + [NewProduct(code, draft, now)]
                && priceHistory == old(priceHistory) + [DatedEntry(code, draft.price, today)]
      ensures isLoading == old(isLoading)
    {
      var code := GetNextProductCode();
      if !saved {
        return;
      }
      products, priceHistory := products + [NewProduct(code, draft, now)], priceHistory + [DatedEntry(code, draft.price, today)];
    }

    /**
     * `updateProduct`: the product row is saved first (`productSaved`); if
     * the price moved, a dated record is saved next (`historySaved`) and
     * today's record is upserted; then the product is replaced by id.
     * A failed step leaves the store as it was.
     */
    method UpdateProduct(updated: Product, today: Date, productSaved: bool, historySaved: bool)
      modifies this
      ensures var changed := PriceChanged(old(products), updated);
              if !productSaved || (changed && !historySaved) then
                products == old(products) && priceHistory == old(priceHistory)
              else
                && products == ReplaceProduct(old(products), updated)
                && priceHistory == (if changed then UpsertTodayPrice(old(priceHistory), updated.id, updated.price, today)
                                    else old(priceHistory))
      ensures isLoading == old(isLoading)
    {
      var existing := FindProduct(products, updated.id);
      if !productSaved {
        return;
      }
      var changed := existing.Some? && existing.value.price != updated.price;
      assert changed == PriceChanged(products, updated);
      var history := priceHistory;
      if changed {
        if !historySaved {
          return;
        }
        history := UpsertTodayPrice(history, updated.id, updated.price, today);
      }
      products, priceHistory := ReplaceProduct(products, updated), history;
    }

    /**
     * `deleteProduct`: an unknown id is ignored; otherwise, once the
     * database delete succeeds, the product and all its records go.
     */
    method DeleteProduct(id: string, deleted: bool)
      modifies this
      ensures FindProduct(old(products), id).None? || !deleted ==>
                products == old(products) && priceHistory == old(priceHistory)
      ensures FindProduct(old(products), id).Some? && deleted ==>
                products == RemoveProduct(old(products), id) && priceHistory == RemoveHistoryOf(old(priceHistory), id)
      ensures isLoading == old(isLoading)
      ensures forall asOf :: Consistent(old(products), old(priceHistory), asOf) ==> Consistent(products, priceHistory, asOf)
    {
      var productToDelete := FindProduct(products, id);
      if productToDelete.None? || !deleted {
        return;
      }
      forall asOf | Consistent(products, priceHistory, asOf)
        ensures Consistent(RemoveProduct(products, id), RemoveHistoryOf(priceHistory, id), asOf) {
        DeleteKeepsConsistent(products, priceHistory, asOf, id);
      }
      products := RemoveProduct(products, id);
      priceHistory := RemoveHistoryOf(priceHistory, id);
    }
  }
}
