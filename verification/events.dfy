/**
 * The `new_sale` payload and what the dashboard makes of it: the amount
 * check, the feed entry and the line-chart point.
 */
module Events {
  import opened Wrappers
  import opened Money
  import opened Sorting

  /** The `sales_amount` field as JavaScript sees it. */
  datatype RawAmount =
    | NumberAmount(x: real)     // a finite number
    | NaNAmount                 // the number NaN
    | TextAmount(text: string)  // a string, read with parseFloat
    | OtherAmount               // undefined, null, a boolean, an object or an array

  /**
   * One `new_sale` payload. The timestamp is the instant `new Date(timestamp)`
   * denotes, in milliseconds; product, region and quantity are passed through.
   */
  datatype RawSale = RawSale(
    product: string,
    region: string,
    timestamp: int,
    salesAmount: RawAmount,
    quantitySold: int)

  /** A sale as the live feed holds it: the payload with its amount rounded to cents. */
  datatype Sale = Sale(
    product: string,
    region: string,
    timestamp: int,
    salesAmount: real,
    quantitySold: int)

  /** A point of the line chart; points from the baseline snapshot carry no product or region. */
  datatype Point = Point(timestamp: int, sales: real, product: Option<string>, region: Option<string>)

  /**
   * The amount check: a string goes through `parse` (parseFloat, None for
   * NaN), a number is taken as it is. NaN, `undefined`, objects and most
   * arrays fail `isNaN`; null, booleans and empty or one-number arrays pass
   * it but make `toFixed` throw before anything is stored. Either way the
   * sale is dropped.
   */
  function Coerce(raw: RawAmount, parse: string -> Option<real>): (r: Option<real>)
    ensures raw.NumberAmount? ==> r == Some(raw.x)
    ensures raw.TextAmount? ==> r == parse(raw.text)
    ensures r.Some? ==> raw.NumberAmount? || raw.TextAmount?
  {
    match raw
    case NumberAmount(x) => Some(x)
    case TextAmount(t) => parse(t)
    case NaNAmount => None
    case OtherAmount => None
  }

  /** `{...sale, sales_amount: parseFloat(amount.toFixed(2))}`. */
  function FeedEntry(sale: RawSale, amount: real): (e: Sale)
    ensures e.salesAmount == Round2(amount) && IsCents(e.salesAmount)
    ensures e.product == sale.product && e.region == sale.region
    ensures e.timestamp == sale.timestamp && e.quantitySold == sale.quantitySold
  {
    Round2Bounds(amount);
    Sale(sale.product, sale.region, sale.timestamp, Round2(amount), sale.quantitySold)
  }

  /** The point a sale adds to the line chart: its own rounded amount, with product and region. */
  function SalePoint(sale: RawSale, amount: real): (p: Point)
    ensures p.sales == Round2(amount) && IsCents(p.sales)
    ensures p.timestamp == sale.timestamp
    ensures p.product == Some(sale.product) && p.region == Some(sale.region)
  {
    Round2Bounds(amount);
    Point(sale.timestamp, Round2(amount), Some(sale.product), Some(sale.region))
  }

  /** The line chart's comparator `(a, b) => a.timestamp - b.timestamp`, as `<= 0`. */
  predicate TimeLe(p: Point, q: Point) {
    p.timestamp <= q.timestamp
  }

  lemma TimeLeIsTotalPreorder()
    ensures TotalPreorder(TimeLe)
  {
  }
}
