/**
 * The entities of the inventory: products, dated price records and users,
 * plus the calendar dates the price records are keyed by.
 */
module Types {
  import opened Decimal

  datatype Option<T> = None | Some(value: T)

  /** A calendar date; the application carries it as `YYYY-MM-DD` text. */
  datatype Date = Date(year: nat, month: nat, day: nat)

  /**
   * The shape of the dates `toISOString().split('T')[0]` produces: a
   * four-digit year, a month 1..12 and a day 1..31. Month lengths are not
   * checked, so this admits a few dates (31 February) no clock produces.
   */
  predicate ValidDate(d: Date) {
    d.year <= 9999 && 1 <= d.month <= 12 && 1 <= d.day <= 31
  }

  /** Chronological order, as comparing `new Date(text).getTime()` gives. */
  predicate DateLe(a: Date, b: Date) {
    a.year < b.year
    || (a.year == b.year && (a.month < b.month || (a.month == b.month && a.day <= b.day)))
  }

  lemma DateLeAntisymmetric(a: Date, b: Date)
    requires DateLe(a, b) && DateLe(b, a)
    ensures a == b
  {
  }

  /** `String(n).padStart(width, '0')`. */
  function Padded(n: nat, width: nat): string {
    PadStart(NatToString(n), width, '0')
  }

  /** `YYYY-MM-DD`. */
  function DateText(d: Date): string {
    Padded(d.year, 4) + "-" + Padded(d.month, 2) + "-" + Padded(d.day, 2)
  }

  lemma PaddedFits(n: nat, width: nat)
    requires 1 <= width && n < Pow10(width)
    ensures |Padded(n, width)| == width
  {
    NatToStringFits(n, width);
  }

  lemma PaddedInjective(m: nat, n: nat, width: nat)
    requires Padded(m, width) == Padded(n, width)
    ensures m == n
  {
    ParsePadded(m, width);
    ParsePadded(n, width);
  }

  lemma SplitEqual(a1: string, b1: string, a2: string, b2: string)
    requires a1 + b1 == a2 + b2 && |b1| == |b2|
    ensures a1 == a2 && b1 == b2
  {
    assert a1 == (a1 + b1)[..|a1|];
    assert a2 == (a2 + b2)[..|a2|];
    assert b1 == (a1 + b1)[|a1|..];
    assert b2 == (a2 + b2)[|a2|..];
  }

  lemma DateTextLength(d: Date)
    requires ValidDate(d)
    ensures |DateText(d)| == 10
  {
    PaddedFits(d.year, 4);
    PaddedFits(d.month, 2);
    PaddedFits(d.day, 2);
  }

  /** Distinct valid dates have distinct texts. */
  lemma DateTextInjective(a: Date, b: Date)
    requires ValidDate(a) && ValidDate(b)
    requires DateText(a) == DateText(b)
    ensures a == b
  {
    PaddedFits(a.year, 4);
    PaddedFits(a.month, 2);
    PaddedFits(a.day, 2);
    PaddedFits(b.year, 4);
    PaddedFits(b.month, 2);
    PaddedFits(b.day, 2);
    var ya, yb := Padded(a.year, 4), Padded(b.year, 4);
    var ma, mb := Padded(a.month, 2), Padded(b.month, 2);
    var da, db := Padded(a.day, 2), Padded(b.day, 2);
    SplitEqual(ya + "-" + ma + "-", da, yb + "-" + mb + "-", db);
    SplitEqual(ya + "-" + ma, "-", yb + "-" + mb, "-");
    SplitEqual(ya + "-", ma, yb + "-", mb);
    SplitEqual(ya, "-", yb, "-");
    PaddedInjective(a.year, b.year, 4);
    PaddedInjective(a.month, b.month, 2);
    PaddedInjective(a.day, b.day, 2);
  }

  /** A catalog item (src/types/index.ts). Prices are whole cents. */
  datatype Product = Product(
    id: string,
    code: string,
    name: string,
    quantity: int,
    unit: string,
    price: int,
    category: string,
    createdAt: string)

  /** One dated price record of a product. */
  datatype PriceHistory = PriceHistory(id: string, productId: string, price: int, date: Date)

  /** A registered demo account. */
  datatype User = User(id: string, email: string, password: string)
}
