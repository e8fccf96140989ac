# Byte Shop inventory tracker: a verified model of its core

This project models the bookkeeping core of the Byte Shop inventory tracker
in Dafny and proves properties of that model. It covers three parts.

- **Product helpers** (`src/utils/productUtils.ts`, modules `ProductUtils`,
  `Decimal`, `Types`, `Seqs`). These build products from the `product` and
  `pricehist` rows: each product is priced from its latest-dated record. They
  also include the flat `PR####` code generator, the case-insensitive search
  filter and the per-product price chart.
- **Product store** (`src/hooks/useProductOperations.ts`, modules
  `ProductOperations` and `PriceLedger`). This is a class holding the
  product list and the price-history ledger, with load, add, update and
  delete.
  - An update that changes the price upserts the product's record for
    today: it overwrites today's record if there is one, and appends one
    otherwise.
  - A delete also removes the product's records.
  - The outcome of each database write is a boolean parameter, and a
    failed write leaves the store as it was. The two fetches of the load are
    `Option` parameters, where `None` is a failed fetch.
  - The central invariant is `Consistent(products, history, asOf)`:
    - the ledger has at most one record per product and day, each dated no
      later than `asOf`;
    - each record has the id `<code>-<YYYY-MM-DD>`;
    - product ids are unique and equal the product codes;
    - every product is priced at its latest record, or 0 when it has none;
    - every record belongs to a stored product.
  - Loading rows with unique codes and at most one price row per code and
    day, each with a valid date no later than the load date and naming a
    stored product, establishes `Consistent`, and add, update and delete preserve
    it. The database does not enforce these assumptions about the rows (see
    "## Left out").
- **Demo sign-in flow** (`src/contexts/AuthContext.tsx`, module `Auth`).
  This is a class holding the account registry, one verification code per
  email, the pending email, the persisted session and the in-memory
  session.
  - It models signup, login, two-factor verification, resending a code,
    logout and the session restore at mount.
  - The random code is the parameter `draw` (0..899999), which becomes the
    six-digit text of `100000 + draw`.

Dates are `Date(year, month, day)` values, rendered as `YYYY-MM-DD` by
`DateText`. Prices are integers.

The model follows the code on three points:

- **Code generation.** Product codes are the flat `PR` plus at least four digits
  that `generateNextProductCode` produces.
- **Missing history.** A product without price records is priced 0.
- **Order of writes.** Local state changes only after the database call
  resolves.

## Model

| member | source | states |
|---|---|---|
| Seqs.Find | src/hooks/useProductOperations.ts:95 | `find`: none exactly when no element passes the test; otherwise the first element that passes |
| Seqs.Filter | src/hooks/useProductOperations.ts:148 | `filter`: no longer than the input, and every element kept is from the input and passes the test |
| Seqs.FilterCounts | src/hooks/useProductOperations.ts:148 | `filter` keeps each passing element exactly as often as the input holds it, and no failing one |
| Seqs.FilterIsSubsequence | src/hooks/useProductOperations.ts:148 | `filter` keeps the input order of what it keeps |
| Seqs.FilterIdempotent | src/utils/productUtils.ts:63-72 | filtering twice by one test is filtering once |
| Decimal.NatToString | src/utils/productUtils.ts:59 | `String(n)` of a natural: one or more decimal digits, with no leading zero unless `n` is 0 |
| Decimal.ParseNatToString | src/utils/productUtils.ts:55-59 | parsing the decimal text of `n` gives back `n` |
| Decimal.DigitsValue | src/utils/productUtils.ts:55 | `parseInt` of a digit string is below 10 to the power of its length |
| Decimal.PadStart | src/utils/productUtils.ts:59 | `padStart`: the text is extended to the width, if shorter, by fill characters placed in front of the unchanged text |
| Decimal.ParsePadded | src/utils/productUtils.ts:59 | parsing `String(n).padStart(w, '0')` gives back `n` |
| Types.DateTextInjective | src/services/productService.ts:58 | two valid dates with the same `YYYY-MM-DD` text are the same date |
| ProductUtils.HistoryEntryIdInjective | src/hooks/useProductOperations.ts:33 | two record ids `<code>-<date>` that are equal have the same code and the same date |
| ProductUtils.LatestIndex | src/utils/productUtils.ts:33 | the record first after a stable descending date sort has the latest date, and no earlier record shares that date |
| ProductUtils.LatestPrice | src/utils/productUtils.ts:31-37 | a product with no record is priced 0; otherwise the price is that of one of its records dated no earlier than any other |
| ProductUtils.FormatProductData | src/utils/productUtils.ts:10-41 | one product per row, in order: id and code are the prodcode, quantity is 0, category is 'Uncategorized', name and unit fall back to 'No Description' and 'piece', and the price is the latest price of that code |
| ProductUtils.OrDefault | src/utils/productUtils.ts:13-15 | the or-default of a text field: exactly the value when it is present and non-empty, and exactly the fallback otherwise, so the result is empty only when the fallback is |
| ProductUtils.HistoryFromRows | src/utils/productUtils.ts:22-27 | one record per price row |
| ProductUtils.HistoryFromRowsMembers | src/utils/productUtils.ts:22-27 | one record per row, in row order (record i is made from row i); so a record is in the ledger exactly when some row makes it |
| ProductUtils.RowRecordListed | src/utils/productUtils.ts:22-27 | the record made from any price row is in the ledger built from the rows |
| ProductUtils.ListedRecordFromRow | src/utils/productUtils.ts:22-27 | every record of the ledger built from the rows is made from one of the rows |
| ProductUtils.FormattedPriceIsLatest | src/utils/productUtils.ts:29-38 | in terms of the rows: a product costs what one of its latest-dated price rows says, and 0 without any row |
| ProductUtils.UpperRun | src/utils/productUtils.ts:54 | the length of the leading run of upper-case letters |
| ProductUtils.CodePatternIsRegex | src/utils/productUtils.ts:54 | the code test holds exactly when the code is one or more upper-case letters followed by one or more digits |
| ProductUtils.SplitCodeNumber | src/utils/productUtils.ts:54-55 | letters followed by digits match the pattern, and their number is the value of the digits |
| ProductUtils.PrefixedCode | src/utils/productUtils.ts:54-59 | `PR` followed by four or more digits matches the pattern and parses to the value of the digits |
| ProductUtils.FormattedCode | src/utils/productUtils.ts:59 | `PR` plus the zero-padded number matches the pattern and parses back to that number |
| ProductUtils.FirstCode | src/utils/productUtils.ts:47-59 | the number 1 formatted as a code is the literal `PR0001` returned for an empty list, so the empty branch agrees with the general one |
| ProductUtils.MaxCodeNumber | src/utils/productUtils.ts:51-58 | the maximum code number: no code parses higher, and some code attains it |
| ProductUtils.GenerateNextProductCode | src/utils/productUtils.ts:45-60 | the format of the code: 'PR0001' for an empty list, otherwise `PR` followed by the number one past the maximum, zero-padded to at least four digits |
| ProductUtils.NextCodeIsFresh | src/utils/productUtils.ts:45-60 | the generated code matches the pattern, parses to one past the largest code number (1 for an empty list), and no existing product has it |
| ProductUtils.Includes | src/utils/productUtils.ts:68-70 | true exactly when the needle occurs at some position of the text |
| ProductUtils.LowerChar | src/utils/productUtils.ts:66-70 | a character lower-cased: never a capital, and either unchanged or its capital moved to lower case |
| ProductUtils.ToLower | src/utils/productUtils.ts:66-70 | `toLowerCase`: same length, no capitals; each capital becomes its lower-case letter (code point plus 32) and every other character is unchanged |
| ProductUtils.SearchProductsList | src/utils/productUtils.ts:63-72 | an empty query returns the list unchanged; otherwise the result is the order-preserving sub-list of exactly the products whose lower-cased name, code or category contains the lower-cased query, each with its multiplicity |
| ProductUtils.SearchIdempotent | src/utils/productUtils.ts:63-72 | searching the result again with the same query changes nothing |
| ProductUtils.SearchIgnoresQueryCase | src/utils/productUtils.ts:66 | a query and its lower-cased form find the same products |
| ProductUtils.InsertByDate | src/utils/productUtils.ts:78 | insertion adds exactly the one record |
| ProductUtils.InsertByDateMembers | src/utils/productUtils.ts:78 | insertion adds nothing but the inserted record |
| ProductUtils.InsertByDateSorted | src/utils/productUtils.ts:78 | inserting into a list sorted by date keeps it sorted |
| ProductUtils.SortByDate | src/utils/productUtils.ts:78 | the result is sorted by ascending date and is a permutation of the input |
| ProductUtils.GetProductPriceHistoryList | src/utils/productUtils.ts:75-79 | the chart is sorted by ascending date and holds exactly the product's records, each as often as in the ledger |
| PriceLedger.FindDatedEntry | src/hooks/useProductOperations.ts:108-111 | finds a record of the product dated today exactly when the ledger has one |
| PriceLedger.SetPriceById | src/hooks/useProductOperations.ts:115-119 | the map over the ledger: same length; every record keeps all fields but the price; records with the id get the new price, the others keep theirs |
| PriceLedger.UpsertTodayPrice | src/hooks/useProductOperations.ts:106-124 | without a record for today, the dated record is appended; with one, the length is kept; ids, products and dates stay in place; and some record for the product today carries the new price |
| PriceLedger.RemoveHistoryOf | src/hooks/useProductOperations.ts:149 | keeps exactly the records of other products, in order and with their multiplicities |
| PriceLedger.LatestPriceIsTodays | src/utils/productUtils.ts:31-33 | with one record per product and day, and none later than today, the latest price is today's record's |
| PriceLedger.LatestPriceAppendOther | src/utils/productUtils.ts:31-33 | appending another product's record does not move a product's latest price |
| PriceLedger.LatestPriceUpdateOther | src/utils/productUtils.ts:31-33 | rewriting another product's record does not move a product's latest price |
| PriceLedger.LatestPriceAfterRemoval | src/hooks/useProductOperations.ts:149 | removing one product's records does not move any other product's latest price |
| PriceLedger.SameDaySameRecord | src/hooks/useProductOperations.ts:107-123 | in a well-kept ledger two records of one product on one day are the same record |
| PriceLedger.ChartMembers | src/utils/productUtils.ts:76-77 | a product's chart holds exactly its records |
| PriceLedger.LastIsLatestDated | src/utils/productUtils.ts:78 | the last point of a sorted chart is dated no earlier than any point |
| PriceLedger.LastChartedPrice | src/utils/productUtils.ts:75-79 | with one record per product and day, the last point of a non-empty chart carries the latest price |
| PriceLedger.LastChartedIsLatest | src/utils/productUtils.ts:75-79 | an empty chart means latest price 0; otherwise the last point carries the latest price |
| PriceLedger.LedgerIdsUnique | src/hooks/useProductOperations.ts:115-119 | in a well-kept ledger no two records share an id |
| PriceLedger.SetPriceOfUniqueId | src/hooks/useProductOperations.ts:115-119 | when only one record has the id, the map rewrites the price of that record alone |
| PriceLedger.RepriceKeepsPairwise | src/hooks/useProductOperations.ts:115-119 | rewriting one record's price keeps at most one record per product and day |
| PriceLedger.RepricedMembers | src/hooks/useProductOperations.ts:115-119 | after rewriting one record's price, every record is an old one or the rewritten one |
| PriceLedger.RepriceKeepsLedger | src/hooks/useProductOperations.ts:113-119 | rewriting the price of a record dated today keeps the ledger well kept as of today |
| PriceLedger.UpsertOverwritesOneEntry | src/hooks/useProductOperations.ts:113-119 | when today's record exists, the upsert changes the price of that one record and nothing else |
| PriceLedger.OverwriteKeepsLedger | src/hooks/useProductOperations.ts:113-119 | the overwrite keeps the ledger well kept, prices the product anew and leaves other prices alone |
| PriceLedger.AppendKeepsPairwise | src/hooks/useProductOperations.ts:120-123 | appending a record for a product and day that has none keeps at most one record per product and day |
| PriceLedger.AppendKeepsValid | src/hooks/useProductOperations.ts:120-123 | appending today's first record of a product keeps the ledger well kept as of today |
| PriceLedger.AppendKeepsLedger | src/hooks/useProductOperations.ts:120-123 | the append keeps the ledger well kept, prices the product anew and leaves other prices alone |
| PriceLedger.UpsertKeepsLedger | src/hooks/useProductOperations.ts:106-124 | the upsert keeps one record per product and day and makes the new price the latest; other products' latest prices stay; it adds only records of the product |
| PriceLedger.SeedKeepsLedger | src/hooks/useProductOperations.ts:76-84 | seeding a new product's record keeps the ledger well kept and prices it at the seeded price |
| PriceLedger.RemovalKeepsLedger | src/hooks/useProductOperations.ts:149 | the cascade keeps the ledger well kept |
| ProductOperations.FindProduct | src/hooks/useProductOperations.ts:95 | finds a product with the id exactly when one is stored, and it is the first product in the list with that id |
| ProductOperations.ReplaceProduct | src/hooks/useProductOperations.ts:128-130 | the length is kept and an unknown id changes nothing; every result is the update or an untouched product with another id; every product with another id is kept |
| ProductOperations.RemoveProduct | src/hooks/useProductOperations.ts:148 | keeps exactly the products with other ids, each as often as in the list, in order |
| ProductOperations.PriceChanged | src/hooks/useProductOperations.ts:101 | true exactly when the product found by id has a different price |
| ProductOperations.ReplaceUnique | src/hooks/useProductOperations.ts:128-130 | with unique ids, the map replaces exactly the product at the matching index |
| ProductOperations.NoRecordsForFreshCode | src/hooks/useProductOperations.ts:57 | in a consistent store a code no product has has no records |
| ProductOperations.AppendKeepsDistinct | src/hooks/useProductOperations.ts:75 | appending a product with a new id keeps ids unique |
| ProductOperations.AppendKeepsPricing | src/hooks/useProductOperations.ts:75-84 | appending a product with its own record keeps every product priced by the ledger and every record owned |
| ProductOperations.AddKeepsConsistent | src/hooks/useProductOperations.ts:55-90 | adding under the next code, with the seed record dated today, keeps the store consistent, and the new product's latest price is the draft's |
| ProductOperations.UpdateUnknownChangesNothing | src/hooks/useProductOperations.ts:101 | updating an id that is not stored neither changes the price nor replaces anything |
| ProductOperations.ReplaceKeepsDistinct | src/hooks/useProductOperations.ts:128-130 | replacing a product by one with the same id keeps ids unique |
| ProductOperations.FindUnique | src/hooks/useProductOperations.ts:95 | with unique ids, the find returns the product with that id |
| ProductOperations.ReplaceKeepsPricing | src/hooks/useProductOperations.ts:100-130 | a replacement priced by the new ledger keeps every product priced by it and every record owned |
| ProductOperations.ReplaceKeepsStored | src/hooks/useProductOperations.ts:100-130 | after a replacement by id, every record of the new ledger, whether old or the product's own, belongs to a stored product |
| ProductOperations.UpdateStoredKeepsConsistent | src/hooks/useProductOperations.ts:93-136 | updating a stored product, with the upsert when the price moved, keeps the store consistent |
| ProductOperations.UpdateKeepsConsistent | src/hooks/useProductOperations.ts:93-136 | an update that keeps id equal to code keeps the store consistent, whether the id is stored or not |
| ProductOperations.DeleteKeepsConsistent | src/hooks/useProductOperations.ts:139-155 | deleting a product with its records keeps the store consistent |
| ProductOperations.ShownPriceIsLastCharted | src/utils/productUtils.ts:75-79 | in a consistent store a product's price is the last point of its chart, and 0 when the chart is empty |
| ProductOperations.LoadIsConsistent | src/hooks/useProductOperations.ts:21-47 | rows with unique codes, at most one price row per code and day, each with a valid date no later than the load date and naming a stored product, load into a consistent store |
| ProductOperations.ProductStore.constructor | src/hooks/useProductOperations.ts:16-18 | empty products and ledger, loading pending |
| ProductOperations.ProductStore.LoadProducts | src/hooks/useProductOperations.ts:21-47 | both fetches succeed: the formatted products and the mapped records are stored; either fails: the state is kept; loading ends either way |
| ProductOperations.ProductStore.GetNextProductCode | src/hooks/useProductOperations.ts:50-52 | the code `generateNextProductCode` gives for the stored products, which `ProductUtils.NextCodeIsFresh` shows no stored product has |
| ProductOperations.ProductStore.AddProduct | src/hooks/useProductOperations.ts:55-90 | on success the new product, under the next code, and its seed record dated today are appended; on failure nothing changes; `AddKeepsConsistent` states that this new state is consistent |
| ProductOperations.ProductStore.UpdateProduct | src/hooks/useProductOperations.ts:93-136 | a failed product save, or a failed record save after a price change, changes nothing; otherwise the product is replaced by id and, after a price change, today's record is upserted; `UpdateKeepsConsistent` states that this new state is consistent |
| ProductOperations.ProductStore.DeleteProduct | src/hooks/useProductOperations.ts:139-155 | an unknown id or a failed delete changes nothing; otherwise the product and all its records go; consistency is kept |
| Auth.VerificationCode | src/contexts/AuthContext.tsx:53 | six decimal digits whose value is `100000 + draw`, so within 100000..999999 |
| Auth.VerificationCodeInjective | src/contexts/AuthContext.tsx:53 | different draws give different codes |
| Auth.FindByCredentials | src/contexts/AuthContext.tsx:45 | finds an account exactly when one has that email and password |
| Auth.FindByEmail | src/contexts/AuthContext.tsx:77 | finds an account exactly when one has that email, and it is the first account in the registry with that email |
| Auth.EmailIdentifiesAccount | src/contexts/AuthContext.tsx:77 | with unique emails, the lookup by email finds the very account |
| Auth.RegisterKeepsUnique | src/contexts/AuthContext.tsx:113-124 | registering an email nobody has keeps emails unique |
| Auth.AuthProvider.constructor | src/contexts/AuthContext.tsx:31-38 | after the mount restore, the provider is authenticated exactly when a session was stored, and holds that user |
| Auth.AuthProvider.Login | src/contexts/AuthContext.tsx:40-67 | succeeds exactly when an account has that email and password; success stores a new code and the pending email without signing in; failure changes nothing |
| Auth.AuthProvider.VerifyTwoFactor | src/contexts/AuthContext.tsx:69-96 | succeeds exactly when the stored code equals the given one and an account has the email; success signs the account in, persists the session, and drops the code and the pending email; failure changes nothing |
| Auth.AuthProvider.ResendVerificationCode | src/contexts/AuthContext.tsx:98-105 | replaces the email's code and changes nothing else |
| Auth.AuthProvider.Signup | src/contexts/AuthContext.tsx:107-141 | succeeds exactly when no account has the email; success registers the account, marks the email pending and stores a code without signing in; failure changes nothing; unique emails stay unique |
| Auth.AuthProvider.Logout | src/contexts/AuthContext.tsx:143-148 | signed out in memory and in storage; the rest is unchanged |
| Auth.SignInWithSentCode | src/contexts/AuthContext.tsx:40-96 | after a successful login, the sent code signs in exactly the account with those credentials, and the same code then fails |

## Left out

- Persistence: the Supabase calls are not modelled. Each write is one
  boolean outcome, each fetch an `Option` of its rows, and the database's
  own contents are not part of this model.
  `addProductToDatabase` writes the product row and then the seed price
  row; a failure of either is one failed outcome.
- Clock and randomness are parameters.
  - `new Date().toISOString()` becomes `now`, and its date part becomes
    `today`. The several clock reads inside one operation are assumed to
    fall on the same day.
  - `Math.random()` becomes `draw`.
  - `Date.now()` becomes `newId`.
- Prices are integers. JavaScript number precision, `Number(x) || 0` on
  non-numeric prices and lenient date parsing are not modelled; the rows
  carry typed values.
- `ProductUtils.ToLower`: lower-cases ASCII letters only, not the full
  Unicode case mapping of `toLowerCase`.
- `ProductUtils.SortByDate`: only sortedness and permutation are proved.
  The stability of `Array.prototype.sort` is not stated. The tie order
  matters only with two records of one product on one day. The in-memory
  ledger invariant excludes that, but rows reloaded from the database can
  have it (see `ProductOperations.LoadIsConsistent` below).
- `ProductOperations.ProductStore.AddProduct` and
  `ProductOperations.ProductStore.UpdateProduct`: their contracts state the
  new state, not the store invariant. The invariant is proved about exactly
  that new state by the lemmas `ProductOperations.AddKeepsConsistent` and
  `ProductOperations.UpdateKeepsConsistent`. `DeleteProduct` states it in its
  own contract.
- `ProductOperations.UpdateKeepsConsistent`: holds only when the update keeps
  the product's id equal to its code, as the edit dialog does. An update that
  changes the code is not covered.
- `ProductOperations.LoadIsConsistent`: assumes that the product rows have
  unique `prodcode`s, that there is at most one `pricehist` row per code and
  day, and that every price row names a stored product and carries a valid
  `effdate` no later than the load date. The source does not enforce any of
  these:
  - `pricehist.prodcode` is nullable, and no relationship to `product` is
    declared (src/integrations/supabase/types.ts:87-104).
  - `addPriceHistoryEntry` inserts a new row on every price change, so two
    changes on one day leave two rows for that day
    (src/services/productService.ts:87-94). Only the in-memory copy
    overwrites today's record.
  - `deleteProductFromDatabase` deletes only the product row
    (src/services/productService.ts:109-113). A later product that reuses a
    deleted maximum code picks up the old records on the next load.
  - The consequence: after a reload, a product can have two records on one
    day. Its price then comes from whichever of them the database lists
    first, since rows are ordered by `effdate` alone
    (src/services/productService.ts:25). `ProductUtils.LatestIndex` models
    that choice, but such rows are outside `LoadIsConsistent`.
- `ProductUtils.GenerateNextProductCode` and `ProductUtils.CodeNumber`: code
  numbers are unbounded naturals here. In the source, `parseInt` and
  `maxCode + 1` are doubles. From 2^53 on, the next number can round back
  to the maximum: `PR9007199254740992` parses to 2^53, and 2^53 + 1 rounds
  to 2^53, so the source would return an existing code. From 10^21 on,
  `String` also switches to exponent notation. The freshness clause holds
  only below 2^53.
- Async interleaving: two operations running at once are not modelled.
  Each operation runs to completion.
- Toasts, console output and the loading spinner's rendering are not
  modelled.
- Storage parsing: browser storage holds values already decoded.
  `JSON.parse` failures, the catch-all `false` results they cause, and a
  stored empty-string session are not modelled.
- Out of the core: the React components, `ProductContext`, `useProductSearch`
  and the percentage display of price changes. They are rendering and
  wiring, not bookkeeping.
