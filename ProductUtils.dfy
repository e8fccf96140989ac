/**
 * The pure product helpers of src/utils/productUtils.ts: building products
 * from database rows, the flat `PR####` code generator, the search filter and
 * the per-product price history query.
 */
module ProductUtils {
  import opened Decimal
  import opened Types
  import opened Seqs

  // ------------------------------------------------------------------
  // Database rows and the price records made from them
  // ------------------------------------------------------------------

  /** A row of the `product` table; a missing column is `None`. */
  datatype ProductRow = ProductRow(prodcode: string, description: Option<string>, unit: Option<string>)

  /** A row of the `pricehist` table. */
  datatype PriceRow = PriceRow(prodcode: string, unitprice: int, effdate: Date)

  /** `value || fallback`: a missing value and the empty string both fall back. */
  function OrDefault(value: Option<string>, fallback: string): (r: string)
    ensures value.Some? && value.value != "" ==> r == value.value
    ensures !(value.Some? && value.value != "") ==> r == fallback
    ensures r == "" ==> fallback == ""
  {
    if value.Some? && value.value != "" then value.value else fallback
  }

  /** The id every price record gets: `<productId>-<YYYY-MM-DD>`. */
  function HistoryEntryId(productId: string, date: Date): string {
    productId + "-" + DateText(date)
  }

  /** Two records with the same id are for the same product and day. */
  lemma HistoryEntryIdInjective(p1: string, d1: Date, p2: string, d2: Date)
    requires ValidDate(d1) && ValidDate(d2)
    requires HistoryEntryId(p1, d1) == HistoryEntryId(p2, d2)
    ensures p1 == p2 && d1 == d2
  {
    DateTextLength(d1);
    DateTextLength(d2);
    SplitEqual(p1 + "-", DateText(d1), p2 + "-", DateText(d2));
    SplitEqual(p1, "-", p2, "-");
    DateTextInjective(d1, d2);
  }

  function HistoryFromRow(row: PriceRow): PriceHistory {
    PriceHistory(HistoryEntryId(row.prodcode, row.effdate), row.prodcode, row.unitprice, row.effdate)
  }

  function HistoryFromRows(rows: seq<PriceRow>): (r: seq<PriceHistory>)
    ensures |r| == |rows|
  {
    seq(|rows|, i requires 0 <= i < |rows| => HistoryFromRow(rows[i]))
  }

  function ByProduct(productId: string): PriceHistory -> bool {
    (h: PriceHistory) => h.productId == productId
  }

  /**
   * The record a stable sort by descending date puts first: the earliest
   * listed among those carrying the latest date.
   */
  function LatestIndex(s: seq<PriceHistory>): (k: nat)
    requires |s| > 0
    ensures k < |s|
    ensures forall j :: 0 <= j < |s| ==> DateLe(s[j].date, s[k].date)
    ensures forall j :: 0 <= j < k ==> s[j].date != s[k].date
  {
    if |s| == 1 then 0
    else
      var k := LatestIndex(s[1..]) + 1;
      if DateLe(s[k].date, s[0].date) then 0 else k
  }

  /** The price a product is shown with: that of its latest record, 0 when it has none. */
  function LatestPrice(history: seq<PriceHistory>, productId: string): (price: int)
    ensures (forall h :: h in history ==> h.productId != productId) ==> price == 0
    ensures (exists h :: h in history && h.productId == productId) ==>
              exists h :: h in history && h.productId == productId && h.price == price
                          && forall g :: g in history && g.productId == productId ==> DateLe(g.date, h.date)
  {
    var own := Filter(history, ByProduct(productId));
    FilterMembers(history, ByProduct(productId));
    if own == [] then 0
    else
      var k := LatestIndex(own);
      assert own[k] in own;
      own[k].price
  }

  function FormatProductRow(row: ProductRow, now: string): Product {
    Product(row.prodcode, row.prodcode, OrDefault(row.description, "No Description"), 0,
            OrDefault(row.unit, "piece"), 0, "Uncategorized", now)
  }

  /** Products as loaded: one per row, in row order, priced from their latest record. */
  function FormatProductData(rows: seq<ProductRow>, priceRows: seq<PriceRow>, now: string): (products: seq<Product>)
    ensures |products| == |rows|
    ensures forall i :: 0 <= i < |rows| ==>
              && products[i].id == rows[i].prodcode
              && products[i].code == rows[i].prodcode
              && products[i].quantity == 0
              && products[i].category == "Uncategorized"
              && products[i].createdAt == now
    ensures forall i :: 0 <= i < |rows| ==>
              products[i].name == (if rows[i].description.Some? && rows[i].description.value != ""
                                   then rows[i].description.value else "No Description")
    ensures forall i :: 0 <= i < |rows| ==>
              products[i].unit == (if rows[i].unit.Some? && rows[i].unit.value != ""
                                   then rows[i].unit.value else "piece")
    ensures forall i :: 0 <= i < |rows| ==>
              products[i].price == LatestPrice(HistoryFromRows(priceRows), rows[i].prodcode)
  {
    var formatted := seq(|rows|, i requires 0 <= i < |rows| => FormatProductRow(rows[i], now));
    var history := HistoryFromRows(priceRows);
    seq(|formatted|, i requires 0 <= i < |formatted| =>
          formatted[i].(price := LatestPrice(history, formatted[i].code)))
  }

  lemma RowRecordListed(rows: seq<PriceRow>, r: PriceRow)
    requires r in rows
    ensures HistoryFromRow(r) in HistoryFromRows(rows)
  {
    var i :| 0 <= i < |rows| && rows[i] == r;
    assert HistoryFromRows(rows)[i] == HistoryFromRow(r);
  }

  lemma ListedRecordFromRow(rows: seq<PriceRow>, h: PriceHistory)
    requires h in HistoryFromRows(rows)
    ensures exists r :: r in rows && h == HistoryFromRow(r)
  {
    var history := HistoryFromRows(rows);
    var i :| 0 <= i < |history| && history[i] == h;
    assert rows[i] in rows;
  }

  /** The ledger built from the rows holds exactly the records made from the rows. */
  lemma HistoryFromRowsMembers(rows: seq<PriceRow>)
    ensures |HistoryFromRows(rows)| == |rows|
    ensures forall i :: 0 <= i < |rows| ==> HistoryFromRows(rows)[i] == HistoryFromRow(rows[i])
    ensures forall h :: h in HistoryFromRows(rows) <==> exists r :: r in rows && h == HistoryFromRow(r)
  {
    forall h ensures h in HistoryFromRows(rows) <==> exists r :: r in rows && h == HistoryFromRow(r) {
      if h in HistoryFromRows(rows) {
        ListedRecordFromRow(rows, h);
      }
      if exists r :: r in rows && h == HistoryFromRow(r) {
        var r :| r in rows && h == HistoryFromRow(r);
        RowRecordListed(rows, r);
      }
    }
  }

  /**
   * In terms of the rows themselves: a loaded product costs what its
   * latest-dated `pricehist` row says, and 0 when it has no row.
   */
  lemma FormattedPriceIsLatest(rows: seq<ProductRow>, priceRows: seq<PriceRow>, now: string, i: nat)
    requires i < |rows|
    ensures var price, code := FormatProductData(rows, priceRows, now)[i].price, rows[i].prodcode;
            && ((forall r :: r in priceRows ==> r.prodcode != code) ==> price == 0)
            && ((exists r :: r in priceRows && r.prodcode == code) ==>
                  exists r :: r in priceRows && r.prodcode == code && r.unitprice == price
                              && forall q :: q in priceRows && q.prodcode == code ==> DateLe(q.effdate, r.effdate))
  {
    var price, code := FormatProductData(rows, priceRows, now)[i].price, rows[i].prodcode;
    var history := HistoryFromRows(priceRows);
    HistoryFromRowsMembers(priceRows);
    assert price == LatestPrice(history, code);
    if exists r :: r in priceRows && r.prodcode == code {
      var r0 :| r0 in priceRows && r0.prodcode == code;
      assert HistoryFromRow(r0) in history;
      var h :| h in history && h.productId == code && h.price == price
               && forall g :: g in history && g.productId == code ==> DateLe(g.date, h.date);
      var r :| r in priceRows && h == HistoryFromRow(r);
      forall q | q in priceRows && q.prodcode == code ensures DateLe(q.effdate, r.effdate) {
        assert HistoryFromRow(q) in history;
      }
    } else {
      forall h | h in history ensures h.productId != code {
        var r :| r in priceRows && h == HistoryFromRow(r);
      }
    }
  }

  // ------------------------------------------------------------------
  // generateNextProductCode
  // ------------------------------------------------------------------

  predicate IsUpper(c: char) {
    'A' <= c <= 'Z'
  }

  /** Length of the leading run of capital letters. */
  function UpperRun(s: string): (k: nat)
    ensures k <= |s|
    ensures forall i :: 0 <= i < k ==> IsUpper(s[i])
    ensures k < |s| ==> !IsUpper(s[k])
  {
    if s == [] || !IsUpper(s[0]) then 0 else 1 + UpperRun(s[1..])
  }

  /** `code` matches `/^[A-Z]+(\d+)$/`: capitals, then at least one digit, nothing else. */
  predicate MatchesCodePattern(code: string) {
    0 < UpperRun(code) < |code| && AllDigits(code[UpperRun(code)..])
  }

  /** The number a code contributes: the captured digits parsed, or 0 for a non-matching code. */
  function CodeNumber(code: string): nat {
    if MatchesCodePattern(code) then DigitsValue(code[UpperRun(code)..]) else 0
  }

  /** The regular expression read literally: some split into capitals and digits exists. */
  ghost predicate RegexMatches(code: string) {
    exists i :: 0 < i < |code| && (forall j :: 0 <= j < i ==> IsUpper(code[j])) && AllDigits(code[i..])
  }

  /** The capital run is the only possible split, since a digit is not a capital. */
  lemma CodePatternIsRegex(code: string)
    ensures MatchesCodePattern(code) <==> RegexMatches(code)
  {
    if RegexMatches(code) {
      var i :| 0 < i < |code| && (forall j :: 0 <= j < i ==> IsUpper(code[j])) && AllDigits(code[i..]);
      assert code[i..][0] == code[i];
      assert UpperRun(code) == i;
    }
    if MatchesCodePattern(code) {
      assert 0 < UpperRun(code) < |code|;
    }
  }

  /** A code written as capitals followed by digits contributes the value of its digits. */
  lemma {:induction false} SplitCodeNumber(letters: string, digits: string)
    requires |letters| > 0 && forall j :: 0 <= j < |letters| ==> IsUpper(letters[j])
    requires |digits| > 0 && AllDigits(digits)
    ensures UpperRun(letters + digits) == |letters|
    ensures MatchesCodePattern(letters + digits)
    ensures CodeNumber(letters + digits) == DigitsValue(digits)
  {
    var code := letters + digits;
    if |letters| == 1 {
      assert code[1..] == digits;
      assert code[1..][0] == digits[0];
    } else {
      assert code[1..] == letters[1..] + digits;
      SplitCodeNumber(letters[1..], digits);
    }
    assert code[|letters|..] == digits;
  }

  /** `PR` followed by at least four digits is a well-formed code whose number is the digits' value. */
  lemma PrefixedCode(digits: string)
    requires |digits| >= 4 && AllDigits(digits)
    ensures var code := "PR" + digits;
            |code| >= 6 && code[..2] == "PR" && MatchesCodePattern(code) && CodeNumber(code) == DigitsValue(digits)
  {
    assert IsUpper("PR"[0]) && IsUpper("PR"[1]);
    SplitCodeNumber("PR", digits);
    assert ("PR" + digits)[..2] == "PR";
  }

  /** `PR` followed by the padded decimal of `n` is a well-formed code whose number is `n`. */
  lemma FormattedCode(n: nat)
    ensures var code := "PR" + Padded(n, 4);
            |code| >= 6 && code[..2] == "PR" && MatchesCodePattern(code) && CodeNumber(code) == n
  {
    ParsePadded(n, 4);
    PrefixedCode(Padded(n, 4));
  }

  /** `Math.max(...codes)` over a non-empty list. */
  function MaxCodeNumber(products: seq<Product>): (m: nat)
    requires |products| > 0
    ensures forall p :: p in products ==> CodeNumber(p.code) <= m
    ensures exists p :: p in products && CodeNumber(p.code) == m
  {
    if |products| == 1 then CodeNumber(products[0].code)
    else
      var first, rest := CodeNumber(products[0].code), MaxCodeNumber(products[1..]);
      assert forall p :: p in products ==> p == products[0] || p in products[1..];
      if first >= rest then first else rest
  }

  lemma FirstCode()
    ensures "PR" + Padded(1, 4) == "PR0001"
  {
    assert NatToString(1) == "1";
    assert Repeat('0', 3) == "000";
  }

  /** The next code: `PR` and one more than the largest number in use, padded to four digits. */
  function GenerateNextProductCode(products: seq<Product>): (code: string)
    ensures products == [] ==> code == "PR0001"
    ensures products != [] ==> code == "PR" + Padded(MaxCodeNumber(products) + 1, 4)
  {
    if |products| == 0 then "PR0001"
    else "PR" + Padded(MaxCodeNumber(products) + 1, 4)
  }

  /**
   * The generated code is `PR` and digits, it parses to one past the
   * largest code number (1 for an empty list), and so no product has it.
   */
  lemma NextCodeIsFresh(products: seq<Product>)
    ensures var code := GenerateNextProductCode(products);
            && |code| >= 6 && code[..2] == "PR" && MatchesCodePattern(code)
            && CodeNumber(code) == (if products == [] then 1 else MaxCodeNumber(products) + 1)
            && forall p :: p in products ==> p.code != code
  {
    if products == [] {
      FirstCode();
      FormattedCode(1);
    } else {
      var code := GenerateNextProductCode(products);
      FormattedCode(MaxCodeNumber(products) + 1);
      assert forall p :: p in products ==> CodeNumber(p.code) < CodeNumber(code);
    }
  }

  // ------------------------------------------------------------------
  // searchProductsList
  // ------------------------------------------------------------------

  /** `toLowerCase` on one character (ASCII letters only). */
  function LowerChar(c: char): (r: char)
    ensures !IsUpper(r)
    ensures r == c || (IsUpper(c) && r as int == c as int + 32)
  {
    if 'A' <= c <= 'Z' then (c as int + 32) as char else c
  }

  function ToLower(s: string): (r: string)
    ensures |r| == |s|
    ensures forall i :: 0 <= i < |r| ==> !IsUpper(r[i])
    ensures forall i :: 0 <= i < |r| ==> (IsUpper(s[i]) && r[i] as int == s[i] as int + 32)
                                         || (!IsUpper(s[i]) && r[i] == s[i])
  {
    seq(|s|, i requires 0 <= i < |s| => LowerChar(s[i]))
  }

  ghost predicate OccursAt(hay: string, needle: string, i: int) {
    0 <= i && i + |needle| <= |hay| && hay[i..i + |needle|] == needle
  }

  /** `hay.includes(needle)`. */
  function Includes(hay: string, needle: string): (b: bool)
    ensures b <==> exists i :: OccursAt(hay, needle, i)
    decreases |hay|
  {
    if |needle| > |hay| then false
    else if hay[..|needle|] == needle then
      assert OccursAt(hay, needle, 0);
      true
    else
      var b := Includes(hay[1..], needle);
      assert forall i :: OccursAt(hay[1..], needle, i) <==> OccursAt(hay, needle, i + 1) by {
        forall i ensures OccursAt(hay[1..], needle, i) <==> OccursAt(hay, needle, i + 1) {
          if 0 <= i && i + |needle| <= |hay| - 1 {
            assert hay[1..][i..i + |needle|] == hay[i + 1..i + 1 + |needle|];
          }
        }
      }
      assert (exists i :: OccursAt(hay, needle, i)) ==> exists i :: OccursAt(hay[1..], needle, i) by {
        if exists i :: OccursAt(hay, needle, i) {
          var i :| OccursAt(hay, needle, i);
          assert i != 0;
          assert OccursAt(hay[1..], needle, i - 1);
        }
      }
      b
  }

  /** The lowercased name, code or category contains the lowercased query. */
  predicate MatchesQuery(p: Product, lowerQuery: string) {
    || Includes(ToLower(p.name), lowerQuery)
    || Includes(ToLower(p.code), lowerQuery)
    || Includes(ToLower(p.category), lowerQuery)
  }

  function Matching(lowerQuery: string): Product -> bool {
    (p: Product) => MatchesQuery(p, lowerQuery)
  }

  /**
   * The empty query keeps every product; any other query keeps exactly the
   * products that match it, as many times as they occur, in their order.
   */
  function SearchProductsList(products: seq<Product>, query: string): (found: seq<Product>)
    ensures query == "" ==> found == products
    ensures query != "" ==> forall p :: p in found <==> p in products && MatchesQuery(p, ToLower(query))
    ensures query != "" ==> forall p :: multiset(found)[p] ==
                                        if MatchesQuery(p, ToLower(query)) then multiset(products)[p] else 0
    ensures query != "" ==> IsSubsequence(found, products)
  {
    if query == "" then products
    else
      var lowerQuery := ToLower(query);
      FilterCounts(products, Matching(lowerQuery));
      FilterMembers(products, Matching(lowerQuery));
      FilterIsSubsequence(products, Matching(lowerQuery));
      Filter(products, Matching(lowerQuery))
  }

  /** Searching a search result again with the same query changes nothing. */
  lemma SearchIdempotent(products: seq<Product>, query: string)
    ensures SearchProductsList(SearchProductsList(products, query), query) == SearchProductsList(products, query)
  {
    if query != "" {
      FilterIdempotent(products, Matching(ToLower(query)));
    }
  }

  /** The query's letter case does not matter. */
  lemma SearchIgnoresQueryCase(products: seq<Product>, query: string)
    ensures SearchProductsList(products, ToLower(query)) == SearchProductsList(products, query)
  {
    assert ToLower(ToLower(query)) == ToLower(query);
  }

  // ------------------------------------------------------------------
  // getProductPriceHistoryList
  // ------------------------------------------------------------------

  predicate SortedByDate(s: seq<PriceHistory>) {
    forall i, j :: 0 <= i < j < |s| ==> DateLe(s[i].date, s[j].date)
  }

  /** Puts `e` before the first record not older than it. */
  function InsertByDate(e: PriceHistory, s: seq<PriceHistory>): (r: seq<PriceHistory>)
    ensures multiset(r) == multiset(s) + multiset{e}
  {
    if s == [] then [e]
    else if DateLe(e.date, s[0].date) then [e] + s
    else
      assert s == [s[0]] + s[1..];
      [s[0]] + InsertByDate(e, s[1..])
  }

  lemma {:induction false} InsertByDateMembers(e: PriceHistory, s: seq<PriceHistory>)
    ensures forall x :: x in InsertByDate(e, s) ==> x == e || x in s
  {
    if s != [] && !DateLe(e.date, s[0].date) {
      InsertByDateMembers(e, s[1..]);
    }
  }

  lemma {:induction false} InsertByDateSorted(e: PriceHistory, s: seq<PriceHistory>)
    requires SortedByDate(s)
    ensures SortedByDate(InsertByDate(e, s))
  {
    if s != [] && !DateLe(e.date, s[0].date) {
      var t := InsertByDate(e, s[1..]);
      InsertByDateSorted(e, s[1..]);
      InsertByDateMembers(e, s[1..]);
      var r := [s[0]] + t;
      forall i, j | 0 <= i < j < |r| ensures DateLe(r[i].date, r[j].date) {
        if i == 0 {
          assert r[j] in t;
          if r[j] != e {
            var k :| 0 <= k < |s| - 1 && s[1..][k] == r[j];
            assert DateLe(s[0].date, s[k + 1].date);
          }
        } else {
          assert r[i] == t[i - 1] && r[j] == t[j - 1];
        }
      }
    }
  }

  /** Stable insertion sort by ascending date. */
  function SortByDate(s: seq<PriceHistory>): (r: seq<PriceHistory>)
    ensures SortedByDate(r)
    ensures multiset(r) == multiset(s)
  {
    if s == [] then []
    else
      assert s == [s[0]] + s[1..];
      InsertByDateSorted(s[0], SortByDate(s[1..]));
      InsertByDate(s[0], SortByDate(s[1..]))
  }

  /** One product's records: exactly those with its id, oldest first. */
  function GetProductPriceHistoryList(history: seq<PriceHistory>, productId: string): (list: seq<PriceHistory>)
    ensures SortedByDate(list)
    ensures multiset(list) == multiset(Filter(history, ByProduct(productId)))
    ensures forall h :: multiset(list)[h] == if h.productId == productId then multiset(history)[h] else 0
  {
    FilterCounts(history, ByProduct(productId));
    SortByDate(Filter(history, ByProduct(productId)))
  }
}
