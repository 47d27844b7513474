/**
 * The live aggregation state of the dashboard and its one update: applying
 * a `new_sale` event. The state is the six React state cells the `App`
 * component keeps (`liveSales`, `totalSales`, `recentRegionSales` and the
 * `pie`, `line`, `heatmap` parts of `dashboard`); `Applied` is the
 * specification of one event, `LiveDashboard` the object updated in place.
 */
module Dashboard {
  import opened Wrappers
  import opened Money
  import opened Records
  import opened Sorting
  import opened Window
  import opened Events

  /** `dashboard.heatmap`: product -> (region -> amount), both levels insertion-ordered. */
  type Matrix = Record<Record<real>>

  /** The stored amount for a product in a region, if any. */
  function Cell(h: Matrix, product: string, region: string): Option<real> {
    match Get(h, product)
    case None => None
    case Some(row) => Get(row, region)
  }

  /** The regions recorded for a product, in insertion order (none if the product is absent). */
  function RowKeys(h: Matrix, product: string): seq<string> {
    Keys(Get(h, product).GetOr([]))
  }

  ghost predicate WellFormedMatrix(h: Matrix) {
    UniqueKeys(h) && forall i :: 0 <= i < |h| ==> UniqueKeys(h[i].1)
  }

  datatype State = State(
    liveSales: seq<Sale>,
    totalSales: real,
    recentRegionSales: Record<real>,
    pie: Record<real>,
    line: seq<Point>,
    heatmap: Matrix)

  /** The state on mount: everything empty, total zero. */
  function Initial(): State {
    State([], 0.0, [], [], [], [])
  }

  /**
   * What holds between events. The line is not bounded here: a baseline
   * may hold any number of points, and only the next sale trims it.
   */
  ghost predicate Inv(s: State) {
    && |s.liveSales| <= FeedCap
    && IsCents(s.totalSales)
    && UniqueKeys(s.recentRegionSales)
    && UniqueKeys(s.pie)
    && WellFormedMatrix(s.heatmap)
    && Sorted(s.line, TimeLe)
  }

  /** `[updatedSale, ...prev].slice(0, 5)`. */
  function NextFeed(feed: seq<Sale>, e: Sale): seq<Sale> {
    KeepFirst([e] + feed, FeedCap)
  }

  /** `m[k] = round2((m[k] || 0) + amount)`. */
  function AddTo(m: Record<real>, k: string, amount: real): Record<real> {
    Put(m, k, Round2(Lookup(m, k) + amount))
  }

  /** The line after a sale: point appended, stably sorted by time, last 50 kept. */
  function NextLine(line: seq<Point>, p: Point): seq<Point> {
    KeepLast(SortBy(line + [p], TimeLe), LineCap)
  }

  /** `h[product] ||= {}` followed by an `AddTo` on that row. */
  function AddToCell(h: Matrix, product: string, region: string, amount: real): Matrix {
    Put(h, product, AddTo(Get(h, product).GetOr([]), region, amount))
  }

  /** The state after a sale whose amount coerced to `amount`. */
  function Applied(s: State, sale: RawSale, amount: real): State {
    State(
      NextFeed(s.liveSales, FeedEntry(sale, amount)),
      Round2(s.totalSales + amount),
      AddTo(s.recentRegionSales, sale.region, amount),
      AddTo(s.pie, sale.region, amount),
      NextLine(s.line, SalePoint(sale, amount)),
      AddToCell(s.heatmap, sale.product, sale.region, amount))
  }

  /** The `new_sale` handler as a whole: a sale whose amount is not a number leaves the state as it was. */
  function Received(s: State, sale: RawSale, parse: string -> Option<real>): State {
    match Coerce(sale.salesAmount, parse)
    case None => s
    case Some(amount) => Applied(s, sale, amount)
  }

  /** The state after a stream of sales, each applied fully before the next. */
  function Replay(s: State, sales: seq<RawSale>, parse: string -> Option<real>): State
    decreases |sales|
  {
    if sales == [] then s else Replay(Received(s, sales[0], parse), sales[1..], parse)
  }

  /** One line-chart point of the baseline: `{date, sales}` with the date's instant in milliseconds. */
  datatype BaselinePoint = BaselinePoint(timestamp: int, sales: real)

  /** The object the backend sends under `data`: pie, line and heatmap; a part may be missing. */
  datatype Snapshot = Snapshot(
    pie: Option<Record<real>>,
    line: Option<seq<BaselinePoint>>,
    heatmap: Option<Matrix>)

  /** Objects in a JSON body never repeat a key. */
  ghost predicate SnapshotWellFormed(snap: Snapshot) {
    && (snap.pie.Some? ==> UniqueKeys(snap.pie.value))
    && (snap.heatmap.Some? ==> WellFormedMatrix(snap.heatmap.value))
  }

  function BaselineLine(points: seq<BaselinePoint>): (r: seq<Point>)
    ensures |r| == |points|
    ensures forall i :: 0 <= i < |r| ==> r[i] == Point(points[i].timestamp, points[i].sales, None, None)
  {
    if points == [] then []
    else [Point(points[0].timestamp, points[0].sales, None, None)] + BaselineLine(points[1..])
  }

  /** The `/dashboard-data` response body, `{ "data": { pie, line, heatmap } }`, as `getSalesData` resolves it. */
  datatype Body = Body(data: Snapshot)

  /** The snapshot a response delivers, reading `body.data.pie` and so on; None for a failed request. */
  function Payload(response: Option<Body>): (r: Option<Snapshot>)
    ensures r.Some? <==> response.Some?
    ensures response.Some? ==> r.value == response.value.data
  {
    match response
    case None => None
    case Some(body) => Some(body.data)
  }

  /**
   * The snapshot the load reads as written, `res.data?.data?.pie` and so on
   * with `res` already the body: the snapshot has no `data` member, so
   * every part reads as missing, whatever the body holds.
   */
  function PayloadAsWritten(response: Option<Body>): (r: Option<Snapshot>)
    ensures r.Some? <==> response.Some?
  {
    match response
    case None => None
    case Some(body) => Some(Snapshot(None, None, None))
  }

  /**
   * The baseline load: on success pie, line (sorted by time) and heatmap are
   * replaced, missing parts by empty ones; on failure nothing changes. The
   * feed, the total and the region totals are never seeded.
   */
  function Seeded(s: State, response: Option<Snapshot>): State {
    match response
    case None => s
    case Some(snap) =>
      s.(pie := snap.pie.GetOr([]),
         line := SortBy(BaselineLine(snap.line.GetOr([])), TimeLe),
         heatmap := snap.heatmap.GetOr([]))
  }

  // ---------------------------------------------------------------------
  // What one sale does to each part of the state

  /** The feed: the new sale in front whatever its timestamp, older entries shifted, five at most. */
  lemma NextFeedSpec(feed: seq<Sale>, e: Sale)
    ensures var f := NextFeed(feed, e);
      && |f| == Min(|feed| + 1, FeedCap)
      && f[0] == e
      && f[1..] == feed[..|f| - 1]
  {
    var f := NextFeed(feed, e);
    var g := [e] + feed;
    assert g == f + g[|f|..];
    assert f[1..] == g[1..|f|];
  }

  /**
   * The running total after a sale: for a non-negative amount it never
   * decreases and is exactly the old total plus the rounded amount, so it
   * drifts no further than each amount's own rounding.
   */
  lemma NextTotalSpec(total: real, amount: real)
    requires IsCents(total)
    ensures IsCents(Round2(total + amount))
    ensures amount >= 0.0 ==> Round2(total + amount) >= total
    ensures amount >= 0.0 && total >= 0.0 ==> Round2(total + amount) == total + Round2(amount)
  {
    Round2Bounds(total + amount);
    if amount >= 0.0 {
      Round2AddNonDecreasing(total, amount);
      if total >= 0.0 {
        Round2AddCents(total, amount);
      }
    }
  }

  /**
   * Adding to one key of a record of amounts: that key becomes the rounded
   * sum (created at zero), every other key keeps its value, and the key
   * order is kept with a new key at the end.
   */
  lemma AddToSpec(m: Record<real>, k: string, amount: real)
    ensures Get(AddTo(m, k, amount), k) == Some(Round2(Get(m, k).GetOr(0.0) + amount))
    ensures forall k' :: k' != k ==> Get(AddTo(m, k, amount), k') == Get(m, k')
    ensures Keys(AddTo(m, k, amount)) == Extend(Keys(m), k)
  {
    PutSpec(m, k, Round2(Lookup(m, k) + amount));
    forall k' | k' != k ensures Get(AddTo(m, k, amount), k') == Get(m, k') {
      PutOther(m, k, Round2(Lookup(m, k) + amount), k');
    }
  }

  /** Adding to a table keeps its keys unique, and the amount stored has two decimals. */
  lemma AddToKeepsUnique(m: Record<real>, k: string, amount: real)
    requires UniqueKeys(m)
    ensures UniqueKeys(AddTo(m, k, amount))
    ensures IsCents(Lookup(AddTo(m, k, amount), k))
  {
    var v := Round2(Lookup(m, k) + amount);
    assert UniqueKeys(AddTo(m, k, amount)) by { PutUnique(m, k, v); }
    assert Lookup(AddTo(m, k, amount), k) == v by { PutSpec(m, k, v); }
    Round2Bounds(Lookup(m, k) + amount);
  }

  /**
   * The heatmap cell a sale lands in: the product's row is created empty if
   * absent, the cell becomes the rounded sum (created at zero), and the
   * row's regions keep their order with a new region at the end.
   */
  lemma AddToCellAt(h: Matrix, product: string, region: string, amount: real)
    ensures Cell(AddToCell(h, product, region, amount), product, region)
      == Some(Round2(Cell(h, product, region).GetOr(0.0) + amount))
    ensures RowKeys(AddToCell(h, product, region, amount), product) == Extend(RowKeys(h, product), region)
  {
    var row := Get(h, product).GetOr([]);
    var row' := AddTo(row, region, amount);
    var h' := Put(h, product, row');
    PutSpec(h, product, row');
    AddToSpec(row, region, amount);
    assert Cell(h', product, region) == Get(row', region);
    assert RowKeys(h', product) == Keys(row');
  }

  /**
   * A sale leaves the row of every other product as it was, and the
   * products keep their order with a new product at the end.
   */
  lemma AddToCellOtherRows(h: Matrix, product: string, region: string, amount: real)
    ensures Keys(AddToCell(h, product, region, amount)) == Extend(Keys(h), product)
    ensures forall p :: p != product ==> Get(AddToCell(h, product, region, amount), p) == Get(h, p)
  {
    var row' := AddTo(Get(h, product).GetOr([]), region, amount);
    PutSpec(h, product, row');
    forall p | p != product ensures Get(Put(h, product, row'), p) == Get(h, p) {
      PutOther(h, product, row', p);
    }
  }

  /** A sale leaves every other product/region cell as it was. */
  lemma AddToCellOtherCells(h: Matrix, product: string, region: string, amount: real)
    ensures forall p, r :: p != product || r != region ==>
      Cell(AddToCell(h, product, region, amount), p, r) == Cell(h, p, r)
  {
    var row := Get(h, product).GetOr([]);
    var row' := AddTo(row, region, amount);
    var h' := Put(h, product, row');
    PutSpec(h, product, row');
    AddToSpec(row, region, amount);
    forall p, r | p != product || r != region ensures Cell(h', p, r) == Cell(h, p, r) {
      if p != product {
        PutOther(h, product, row', p);
      } else {
        assert Get(row', r) == Get(row, r);
      }
    }
  }

  /**
   * The handler's two steps, `h[product] ||= {}` and then the write into the
   * product's row, amount to `AddToCell`.
   */
  lemma AddToCellInSteps(h: Matrix, product: string, region: string, amount: real)
    ensures var h1 := if Get(h, product).None? then Put(h, product, []) else h;
      var row := Get(h1, product).GetOr([]);
      Put(h1, product, AddTo(row, region, amount)) == AddToCell(h, product, region, amount)
  {
    var row0 := Get(h, product).GetOr([]);
    if Get(h, product).None? {
      PutSpec(h, product, []);
      PutPut(h, product, [], AddTo(row0, region, amount));
    }
  }

  /** Adding to a cell keeps the keys unique at both levels. */
  lemma AddToCellWellFormed(h: Matrix, product: string, region: string, amount: real)
    requires WellFormedMatrix(h)
    ensures WellFormedMatrix(AddToCell(h, product, region, amount))
  {
    var row := Get(h, product).GetOr([]);
    var row' := AddTo(row, region, amount);
    assert UniqueKeys(row) by {
      if Get(h, product).Some? {
        GetStored(h, product);
        var i :| 0 <= i < |h| && h[i] == (product, row);
      }
    }
    AddToKeepsUnique(row, region, amount);
    PutUnique(h, product, row');
    PutEntries(h, product, row');
    var h' := Put(h, product, row');
    forall i | 0 <= i < |h'| ensures UniqueKeys(h'[i].1) {
      assert h'[i] in h';
      if h'[i] != (product, row') {
        var j :| 0 <= j < |h| && h[j] == h'[i];
      }
    }
  }

  /**
   * The line after a sale: sorted by time, one point longer up to fifty,
   * holding exactly the old points and the new one minus those dropped,
   * and every dropped point is no later than every kept one.
   */
  lemma NextLineSpec(line: seq<Point>, p: Point)
    ensures var kept := NextLine(line, p);
      var all := SortBy(line + [p], TimeLe);
      var dropped := all[..|all| - |kept|];
      && Sorted(kept, TimeLe)
      && |kept| == Min(|line| + 1, LineCap)
      && multiset(dropped) + multiset(kept) == multiset(line) + multiset{p}
      && (forall i, j :: 0 <= i < |dropped| && 0 <= j < |kept| ==> dropped[i].timestamp <= kept[j].timestamp)
  {
    var all := SortBy(line + [p], TimeLe);
    var kept := KeepLast(all, LineCap);
    TimeLeIsTotalPreorder();
    SortSorted(line + [p], TimeLe);
    SortPermutation(line + [p], TimeLe);
    KeepLastOfSorted(all, LineCap, TimeLe);
    assert all == all[..|all| - |kept|] + kept;
  }

  /**
   * On a sorted line the sort only inserts the new point: it lands after
   * every point with a timestamp not after its own and before the rest.
   */
  lemma NextLineInserts(line: seq<Point>, p: Point) returns (k: nat)
    requires Sorted(line, TimeLe)
    ensures k <= |line|
    ensures NextLine(line, p) == KeepLast(line[..k] + [p] + line[k..], LineCap)
    ensures forall i :: 0 <= i < k ==> line[i].timestamp <= p.timestamp
    ensures forall i :: k <= i < |line| ==> line[i].timestamp > p.timestamp
  {
    TimeLeIsTotalPreorder();
    AppendThenSort(line, p, TimeLe);
    k := InsertPlacement(line, p, TimeLe);
  }

  /** Applying a sale keeps every invariant. */
  lemma AppliedPreservesInv(s: State, sale: RawSale, amount: real)
    requires Inv(s)
    ensures Inv(Applied(s, sale, amount))
  {
    var t := Applied(s, sale, amount);
    assert |t.liveSales| <= FeedCap by { NextFeedSpec(s.liveSales, FeedEntry(sale, amount)); }
    assert IsCents(t.totalSales) by { NextTotalSpec(s.totalSales, amount); }
    assert UniqueKeys(t.recentRegionSales) by { AddToKeepsUnique(s.recentRegionSales, sale.region, amount); }
    assert UniqueKeys(t.pie) by { AddToKeepsUnique(s.pie, sale.region, amount); }
    assert WellFormedMatrix(t.heatmap) by { AddToCellWellFormed(s.heatmap, sale.product, sale.region, amount); }
    assert Sorted(t.line, TimeLe) by { NextLineSpec(s.line, SalePoint(sale, amount)); }
  }

  /** The baseline load keeps every invariant and seeds a sorted permutation of the baseline line. */
  lemma SeededSpec(s: State, response: Option<Snapshot>)
    requires Inv(s)
    requires response.Some? ==> SnapshotWellFormed(response.value)
    ensures Inv(Seeded(s, response))
    ensures var t := Seeded(s, response);
      && t.liveSales == s.liveSales && t.totalSales == s.totalSales
      && t.recentRegionSales == s.recentRegionSales
    ensures response.Some? ==>
      var base := BaselineLine(response.value.line.GetOr([]));
      && multiset(Seeded(s, response).line) == multiset(base)
      && (forall x :: Tied(Seeded(s, response).line, x, TimeLe) == Tied(base, x, TimeLe))
  {
    TimeLeIsTotalPreorder();
    if response.Some? {
      var base := BaselineLine(response.value.line.GetOr([]));
      SortSorted(base, TimeLe);
      SortPermutation(base, TimeLe);
      forall x ensures Tied(SortBy(base, TimeLe), x, TimeLe) == Tied(base, x, TimeLe) {
        SortStable(base, x, TimeLe);
      }
    }
  }

  // ---------------------------------------------------------------------
  // Streams of events

  /** An invalid amount is dropped: the handler returns before any state cell is set. */
  lemma ReceivedRejects(s: State, sale: RawSale, parse: string -> Option<real>)
    requires Coerce(sale.salesAmount, parse).None?
    ensures Received(s, sale, parse) == s
  {
  }

  /** The amounts a stream adds to the total: each accepted sale's amount rounded to cents. */
  function AcceptedSum(sales: seq<RawSale>, parse: string -> Option<real>): real {
    if sales == [] then 0.0
    else
      (match Coerce(sales[0].salesAmount, parse)
       case None => 0.0
       case Some(a) => Round2(a))
      + AcceptedSum(sales[1..], parse)
  }

  /** No sale in the stream has a negative amount. */
  ghost predicate NonNegativeAmounts(sales: seq<RawSale>, parse: string -> Option<real>) {
    forall i :: 0 <= i < |sales| ==> Coerce(sales[i].salesAmount, parse).GetOr(0.0) >= 0.0
  }

  /**
   * Any stream of events keeps every invariant; the feed never holds more
   * than five sales and the line, once a sale arrived, never more than fifty.
   */
  lemma {:induction false} ReplayPreservesInv(s: State, sales: seq<RawSale>, parse: string -> Option<real>)
    requires Inv(s)
    ensures Inv(Replay(s, sales, parse))
    decreases |sales|
    ensures |Replay(s, sales, parse).liveSales| <= FeedCap
    ensures |s.line| <= LineCap ==> |Replay(s, sales, parse).line| <= LineCap
  {
    if sales != [] {
      var t := Received(s, sales[0], parse);
      if Coerce(sales[0].salesAmount, parse).Some? {
        var a := Coerce(sales[0].salesAmount, parse).value;
        AppliedPreservesInv(s, sales[0], a);
        NextLineSpec(s.line, SalePoint(sales[0], a));
      }
      ReplayPreservesInv(t, sales[1..], parse);
    }
  }

  /**
   * The total is not windowed: after a stream of non-negative sales it is
   * the starting total plus every accepted sale's rounded amount, even
   * those whose points have left the fifty-point line.
   */
  lemma {:induction false} ReplayTotal(s: State, sales: seq<RawSale>, parse: string -> Option<real>)
    requires IsCents(s.totalSales) && s.totalSales >= 0.0 && NonNegativeAmounts(sales, parse)
    ensures Replay(s, sales, parse).totalSales == s.totalSales + AcceptedSum(sales, parse)
    decreases |sales|
  {
    if sales != [] {
      var t := Received(s, sales[0], parse);
      var rest := sales[1..];
      assert NonNegativeAmounts(rest, parse) by {
        forall i | 0 <= i < |rest| ensures Coerce(rest[i].salesAmount, parse).GetOr(0.0) >= 0.0 {
          assert rest[i] == sales[i + 1];
        }
      }
      var added := ReceivedTotal(s, sales[0], parse);
      assert AcceptedSum(sales, parse) == added + AcceptedSum(rest, parse);
      ReplayTotal(t, rest, parse);
      assert Replay(s, sales, parse) == Replay(t, rest, parse);
    }
  }

  /** One event adds its accepted amount, rounded to cents, to a non-negative two-decimal total. */
  lemma ReceivedTotal(s: State, sale: RawSale, parse: string -> Option<real>) returns (added: real)
    requires IsCents(s.totalSales) && s.totalSales >= 0.0
    requires Coerce(sale.salesAmount, parse).GetOr(0.0) >= 0.0
    ensures Coerce(sale.salesAmount, parse).None? ==> added == 0.0
    ensures Coerce(sale.salesAmount, parse).Some? ==> added == Round2(Coerce(sale.salesAmount, parse).value)
    ensures Received(s, sale, parse).totalSales == s.totalSales + added
    ensures IsCents(Received(s, sale, parse).totalSales) && Received(s, sale, parse).totalSales >= 0.0
  {
    var c := Coerce(sale.salesAmount, parse);
    if c.None? {
      added := 0.0;
    } else {
      var a := c.value;
      added := Round2(a);
      assert Received(s, sale, parse).totalSales == Round2(s.totalSales + a);
      NextTotalSpec(s.totalSales, a);
      Round2Bounds(a);
    }
  }

  /**
   * A sale that is no earlier than every point of a full line slides the
   * window: the oldest point leaves and the new one is appended.
   */
  lemma NextLineSlides(line: seq<Point>, p: Point)
    requires Sorted(line, TimeLe) && |line| == LineCap
    requires forall i :: 0 <= i < |line| ==> line[i].timestamp <= p.timestamp
    ensures NextLine(line, p) == line[1..] + [p]
  {
    var all := line + [p];
    assert Sorted(all, TimeLe);
    SortOfSorted(all, TimeLe);
    assert |all| - LineCap == 1;
    assert all[1..] == line[1..] + [p];
  }

  /**
   * The pie and the region totals receive the same update from every sale,
   * so once they agree they keep agreeing; only the baseline load sets one
   * without the other.
   */
  lemma {:induction false} ReplayRegionTablesAgree(s: State, sales: seq<RawSale>, parse: string -> Option<real>)
    requires s.pie == s.recentRegionSales
    ensures Replay(s, sales, parse).pie == Replay(s, sales, parse).recentRegionSales
    decreases |sales|
  {
    if sales != [] {
      var t := Received(s, sales[0], parse);
      assert t.pie == t.recentRegionSales;
      ReplayRegionTablesAgree(t, sales[1..], parse);
    }
  }

  // ---------------------------------------------------------------------
  // The baseline load reads one `data` level too deep

  /**
   * As written, every successful load empties the pie, the line and the
   * heatmap, whatever the response holds, and leaves the other three
   * cells alone.
   */
  lemma SeededAsWrittenClears(s: State, body: Body)
    ensures var t := Seeded(s, PayloadAsWritten(Some(body)));
      && t.pie == [] && t.line == [] && t.heatmap == []
      && t.liveSales == s.liveSales && t.totalSales == s.totalSales
      && t.recentRegionSales == s.recentRegionSales
  {
    assert BaselineLine([]) == [];
  }

  /**
   * The discrepancy on one input: a response whose pie is not empty, loaded
   * after one accepted sale, leaves the pie empty instead of the response's
   * pie, while the region totals keep that sale, so the two tables that
   * every sale updates alike disagree.
   */
  lemma SeededAsWrittenLosesSale(sale: RawSale, amount: real, body: Body)
    requires body.data.pie.Some? && body.data.pie.value != []
    ensures var s := Applied(Initial(), sale, amount);
      var t := Seeded(s, PayloadAsWritten(Some(body)));
      && t.pie != body.data.pie.value
      && t.pie == [] && t.recentRegionSales != []
      && Seeded(s, Payload(Some(body))).pie == body.data.pie.value
  {
    var s := Applied(Initial(), sale, amount);
    SeededAsWrittenClears(s, body);
    AddToSpec([], sale.region, amount);
    GetKeys(s.recentRegionSales, sale.region);
  }

  /**
   * The load as intended, reading `res.data?.pie` and so on: a successful
   * response seeds the pie and the heatmap it holds and the line it holds,
   * sorted by time; missing parts become empty.
   */
  lemma SeededFromBody(s: State, body: Body)
    ensures var t := Seeded(s, Payload(Some(body)));
      && t.pie == body.data.pie.GetOr([])
      && t.heatmap == body.data.heatmap.GetOr([])
      && multiset(t.line) == multiset(BaselineLine(body.data.line.GetOr([])))
      && Sorted(t.line, TimeLe)
  {
    TimeLeIsTotalPreorder();
    var base := BaselineLine(body.data.line.GetOr([]));
    SortSorted(base, TimeLe);
    SortPermutation(base, TimeLe);
  }
}
