/**
 * The `App` component's aggregation state as one object updated in place:
 * the `new_sale` handler and the baseline load change its fields step by
 * step, and each method is proved to leave the object in the state that
 * `Dashboard.Received` and `Dashboard.Seeded` specify.
 */
module App {
  import opened Wrappers
  import opened Money
  import opened Records
  import opened Sorting
  import opened Window
  import opened Events
  import opened Dashboard

  class LiveDashboard {
    /** `liveSales`: the newest sales first, five at most. */
    var liveSales: seq<Sale>
    /** `totalSales`: every accepted amount since mount. */
    var totalSales: real
    /** `recentRegionSales`: region -> total of the live sales. */
    var recentRegionSales: Record<real>
    /** `dashboard.pie`: region -> total, seeded by the baseline. */
    var pie: Record<real>
    /** `dashboard.line`: points sorted by time. */
    var line: seq<Point>
    /** `dashboard.heatmap`: product -> region -> total. */
    var heatmap: Matrix

    /** The six state cells as one value. */
    function Current(): State
      reads this
    {
      State(liveSales, totalSales, recentRegionSales, pie, line, heatmap)
    }

    ghost predicate Valid()
      reads this
    {
      Inv(Current())
    }

    /** The state on mount: empty feed, zero total, empty tables and line. */
    constructor ()
      ensures Valid()
      ensures Current() == Initial()
    {
      liveSales := [];
      totalSales := 0.0;
      recentRegionSales := [];
      pie := [];
      line := [];
      heatmap := [];
    }

    /**
     * The `new_sale` handler. An amount that is not a number is rejected
     * before any field is written; otherwise the feed, the total and the
     * region totals are set, then the dashboard's line, pie and heatmap.
     */
    method OnNewSale(sale: RawSale, parse: string -> Option<real>) returns (accepted: bool)
      requires Valid()
      modifies this
      ensures Valid()
      ensures accepted <==> Coerce(sale.salesAmount, parse).Some?
      ensures !accepted ==> Current() == old(Current())
      ensures Current() == Received(old(Current()), sale, parse)
    {
      var numeric := Coerce(sale.salesAmount, parse);
      if numeric.None? {
        return false;
      }
      accepted := true;
      var amount := numeric.value;
      ghost var before := Current();

      var feed := KeepFirst([FeedEntry(sale, amount)] + liveSales, FeedCap);
      var total := Round2(totalSales + amount);
      var regions := Put(recentRegionSales, sale.region, Round2(Lookup(recentRegionSales, sale.region) + amount));
      var slices, points, matrix := NewDashboard(pie, line, heatmap, sale, amount);
      liveSales, totalSales, recentRegionSales := feed, total, regions;
      pie, line, heatmap := slices, points, matrix;

      assert Current() == Applied(before, sale, amount);
      assert Valid() by {
        AppliedPreservesInv(before, sale, amount);
      }
    }

    /**
     * The `setDashboard` updater of the handler, working on its own copy:
     * the sale's point is pushed onto the line, the line is sorted by time
     * and cut to its last fifty points; the region's pie total and the
     * product/region heatmap cell are increased, the product's row being
     * created first if absent.
     */
    static method NewDashboard(pie0: Record<real>, line0: seq<Point>, heatmap0: Matrix, sale: RawSale, amount: real)
      returns (pie: Record<real>, line: seq<Point>, heatmap: Matrix)
      ensures line == NextLine(line0, SalePoint(sale, amount))
      ensures pie == AddTo(pie0, sale.region, amount)
      ensures heatmap == AddToCell(heatmap0, sale.product, sale.region, amount)
    {
      line := line0 + [SalePoint(sale, amount)];
      line := SortBy(line, TimeLe);
      if |line| > LineCap {
        line := line[|line| - LineCap..];
      }

      pie := Put(pie0, sale.region, Round2(Lookup(pie0, sale.region) + amount));

      heatmap := heatmap0;
      if Get(heatmap, sale.product).None? {
        heatmap := Put(heatmap, sale.product, []);
      }
      var row := Get(heatmap, sale.product).GetOr([]);
      row := Put(row, sale.region, Round2(Lookup(row, sale.region) + amount));
      AddToCellInSteps(heatmap0, sale.product, sale.region, amount);
      heatmap := Put(heatmap, sale.product, row);
    }

    /**
     * The baseline load: a successful response replaces the pie, the line
     * (sorted by time) and the heatmap with the parts of the snapshot the
     * body carries under `data`; a failed one changes nothing.
     */
    method OnBaseline(response: Option<Body>)
      requires Valid()
      requires response.Some? ==> SnapshotWellFormed(response.value.data)
      modifies this
      ensures Valid()
      ensures Current() == Seeded(old(Current()), Payload(response))
    {
      SeededSpec(Current(), Payload(response));
      if response.Some? {
        var snap := response.value.data;
        pie := snap.pie.GetOr([]);
        line := SortBy(BaselineLine(snap.line.GetOr([])), TimeLe);
        heatmap := snap.heatmap.GetOr([]);
      }
    }
  }
}
