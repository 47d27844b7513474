/**
 * What the `App` component derives from its state on every render: the
 * heatmap's labels, cells and legend bounds, the pie's slices and the four
 * KPI boxes. All of it only reads the state.
 */
module Projections {
  import opened Wrappers
  import opened Money
  import opened Records
  import opened Sorting
  import opened Window
  import opened Events
  import opened Dashboard

  // ---------------------------------------------------------------------
  // The order of `Array.prototype.sort()` without a comparator on strings

  /** `a` sorts before `b` or equals it: character by character, a prefix first. */
  predicate LexLe(a: string, b: string)
    decreases |a|
  {
    if a == [] then true
    else if b == [] then false
    else if a[0] != b[0] then a[0] < b[0]
    else LexLe(a[1..], b[1..])
  }

  lemma {:induction false} LexTotal(a: string, b: string)
    ensures LexLe(a, b) || LexLe(b, a)
    decreases |a|
  {
    if a != [] && b != [] && a[0] == b[0] {
      LexTotal(a[1..], b[1..]);
    }
  }

  lemma {:induction false} LexTransitive(a: string, b: string, c: string)
    requires LexLe(a, b) && LexLe(b, c)
    ensures LexLe(a, c)
    decreases |a|
  {
    if a != [] && b != [] && c != [] && a[0] == b[0] && b[0] == c[0] {
      LexTransitive(a[1..], b[1..], c[1..]);
    }
  }

  lemma {:induction false} LexAntisymmetric(a: string, b: string)
    requires LexLe(a, b) && LexLe(b, a)
    ensures a == b
    decreases |a|
  {
    if a != [] && b != [] {
      LexAntisymmetric(a[1..], b[1..]);
      assert a == [a[0]] + a[1..] && b == [b[0]] + b[1..];
    }
  }

  lemma LexIsTotalPreorder()
    ensures TotalPreorder(LexLe)
  {
    forall a, b ensures LexLe(a, b) || LexLe(b, a) {
      LexTotal(a, b);
    }
    forall a, b, c | LexLe(a, b) && LexLe(b, c) ensures LexLe(a, c) {
      LexTransitive(a, b, c);
    }
  }

  // ---------------------------------------------------------------------
  // Heatmap

  /** No element occurs twice. */
  predicate NoDuplicates(s: seq<string>) {
    forall i, j :: 0 <= i < j < |s| ==> s[i] != s[j]
  }

  /** `[...new Set(s)]`: each element once, where it first occurs. */
  function Distinct(s: seq<string>): (r: seq<string>)
    ensures NoDuplicates(r)
    ensures forall x :: x in r <==> x in s
  {
    if s == [] then []
    else
      var d := Distinct(s[..|s| - 1]);
      assert s == s[..|s| - 1] + [s[|s| - 1]];
      if s[|s| - 1] in d then d else d + [s[|s| - 1]]
  }

  /** `Object.values(h).flatMap(row => Object.keys(row))`. */
  function AllRegions(h: Matrix): seq<string> {
    if h == [] then [] else Keys(h[0].1) + AllRegions(h[1..])
  }

  /** A region is listed exactly when some product's row has it. */
  lemma {:induction false} AllRegionsSpec(h: Matrix, r: string)
    ensures r in AllRegions(h) <==> exists i :: 0 <= i < |h| && r in Keys(h[i].1)
  {
    if h != [] {
      AllRegionsSpec(h[1..], r);
      if r in Keys(h[0].1) {
        assert 0 < |h| && r in Keys(h[0].1);
      }
      if exists i :: 0 <= i < |h| && r in Keys(h[i].1) {
        var i :| 0 <= i < |h| && r in Keys(h[i].1);
        if i > 0 {
          assert h[1..][i - 1] == h[i];
        }
      }
    }
  }

  /** The heatmap's x labels: every region of every row, once each, sorted. */
  function XLabels(h: Matrix): seq<string> {
    SortBy(Distinct(AllRegions(h)), LexLe)
  }

  /** A reordering of a sequence without duplicates has none either. */
  lemma {:induction false} PermutationNoDuplicates(a: seq<string>, b: seq<string>)
    requires multiset(a) == multiset(b) && NoDuplicates(a)
    ensures NoDuplicates(b)
  {
    forall x ensures multiset(a)[x] <= 1 {
      CountAtMostOne(a, x);
    }
    forall i, j | 0 <= i < j < |b| ensures b[i] != b[j] {
      assert b == b[..j] + b[j..];
      assert b[i] in b[..j] && b[j] in b[j..];
      assert multiset(b)[b[i]] == multiset(b[..j])[b[i]] + multiset(b[j..])[b[i]];
    }
  }

  lemma {:induction false} CountAtMostOne(a: seq<string>, x: string)
    requires NoDuplicates(a)
    ensures multiset(a)[x] <= 1
  {
    if a != [] {
      var a' := a[..|a| - 1];
      assert a == a' + [a[|a| - 1]];
      CountAtMostOne(a', x);
      if a[|a| - 1] == x {
        assert x !in a';
      }
    }
  }

  /** The x labels are strictly sorted and are exactly the regions found in any row. */
  lemma XLabelsSpec(h: Matrix)
    ensures var xs := XLabels(h);
      && (forall i, j :: 0 <= i < j < |xs| ==> LexLe(xs[i], xs[j]) && xs[i] != xs[j])
      && (forall i, j :: 0 <= i < j < |xs| ==> !LexLe(xs[j], xs[i]))
      && (forall r :: r in xs <==> r in AllRegions(h))
  {
    var d := Distinct(AllRegions(h));
    LexIsTotalPreorder();
    SortSorted(d, LexLe);
    SortPermutation(d, LexLe);
    PermutationNoDuplicates(d, SortBy(d, LexLe));
    var xs := SortBy(d, LexLe);
    forall i, j | 0 <= i < j < |xs| ensures !LexLe(xs[j], xs[i]) {
      if LexLe(xs[j], xs[i]) {
        LexAntisymmetric(xs[i], xs[j]);
        assert false;
      }
    }
    forall r ensures r in SortBy(d, LexLe) <==> r in d {
      assert r in multiset(SortBy(d, LexLe)) <==> r in multiset(d);
    }
  }

  /** `parseFloat((productData[region] || 0).toFixed(2))`: the cell, 0 when absent. */
  function CellValue(h: Matrix, product: string, region: string): real {
    Round2(Lookup(Get(h, product).GetOr([]), region))
  }

  /** `yLabels.map(product => xLabels.map(region => ...))`. */
  function Grid(h: Matrix, ys: seq<string>, xs: seq<string>): seq<seq<real>> {
    seq(|ys|, i requires 0 <= i < |ys| => seq(|xs|, j requires 0 <= j < |xs| => CellValue(h, ys[i], xs[j])))
  }

  /** `heatmapData.flat()`. */
  function Flatten(g: seq<seq<real>>): seq<real> {
    if g == [] then [] else g[0] + Flatten(g[1..])
  }

  /** A value is in the flattened grid exactly when it is some cell of it. */
  lemma {:induction false} FlattenSpec(g: seq<seq<real>>, v: real)
    ensures v in Flatten(g) <==> exists i, j :: 0 <= i < |g| && 0 <= j < |g[i]| && g[i][j] == v
  {
    if g != [] {
      FlattenSpec(g[1..], v);
      if exists i, j :: 0 <= i < |g| && 0 <= j < |g[i]| && g[i][j] == v {
        var i, j :| 0 <= i < |g| && 0 <= j < |g[i]| && g[i][j] == v;
        if i > 0 {
          assert g[1..][i - 1][j] == v;
        } else {
          assert g[0][j] in g[0];
        }
      }
      if v in g[0] {
        var j :| 0 <= j < |g[0]| && g[0][j] == v;
      }
    }
  }

  /** The flattened grid is empty exactly when every row is. */
  lemma {:induction false} FlattenEmpty(g: seq<seq<real>>)
    ensures |Flatten(g)| == 0 <==> forall i :: 0 <= i < |g| ==> |g[i]| == 0
  {
    if g != [] {
      FlattenEmpty(g[1..]);
      assert forall i :: 1 <= i < |g| ==> g[i] == g[1..][i - 1];
    }
  }

  /** `Math.min(...s)`. */
  function MinOf(s: seq<real>): (m: real)
    requires s != []
    ensures m in s && forall x :: x in s ==> m <= x
  {
    if |s| == 1 then s[0]
    else
      var m' := MinOf(s[1..]);
      assert s == [s[0]] + s[1..];
      if s[0] <= m' then s[0] else m'
  }

  /** `Math.max(...s)`. */
  function MaxOf(s: seq<real>): (m: real)
    requires s != []
    ensures m in s && forall x :: x in s ==> x <= m
  {
    if |s| == 1 then s[0]
    else
      var m' := MaxOf(s[1..]);
      assert s == [s[0]] + s[1..];
      if s[0] >= m' then s[0] else m'
  }

  /** What the heatmap grid is drawn from; `data` is None where the source leaves it null. */
  datatype HeatmapView = HeatmapView(
    xLabels: seq<string>,
    yLabels: seq<string>,
    data: Option<seq<seq<real>>>,
    minValue: real,
    maxValue: real)

  /** The heatmap projection: labels, cells and legend bounds, all zero for an empty matrix. */
  function Heatmap(h: Matrix): HeatmapView {
    if |Keys(h)| == 0 then HeatmapView([], [], None, 0.0, 0.0)
    else
      var ys := Keys(h);
      var xs := XLabels(h);
      var data := Grid(h, ys, xs);
      if |data| > 0 then
        var all := Flatten(data);
        if |all| > 0 then HeatmapView(xs, ys, Some(data), MinOf(all), MaxOf(all))
        else HeatmapView(xs, ys, Some(data), 0.0, 0.0)
      else HeatmapView(xs, ys, Some(data), 0.0, 0.0)
  }

  /**
   * The labels: products in insertion order on y; on x every region of any
   * row, once each and sorted; nothing at all for an empty matrix.
   */
  lemma HeatmapLabels(h: Matrix)
    ensures var v := Heatmap(h);
      && v.yLabels == Keys(h)
      && (forall i, j :: 0 <= i < j < |v.xLabels| ==> LexLe(v.xLabels[i], v.xLabels[j]) && v.xLabels[i] != v.xLabels[j])
      && (forall r :: r in v.xLabels <==> exists i :: 0 <= i < |h| && r in Keys(h[i].1))
  {
    if h != [] {
      XLabelsSpec(h);
      forall r ensures r in AllRegions(h) <==> exists i :: 0 <= i < |h| && r in Keys(h[i].1) {
        AllRegionsSpec(h, r);
      }
    }
  }

  /**
   * The cells: one row per product and one column per x label; each is the
   * stored amount rounded to cents, or 0 where the product has no entry
   * for the region. In a matrix without repeated keys, row `i` is the
   * i-th product's own row.
   */
  lemma HeatmapCells(h: Matrix)
    requires h != []
    ensures var v := Heatmap(h);
      && v.data.Some?
      && |v.data.value| == |v.yLabels|
      && (forall i :: 0 <= i < |v.yLabels| ==> |v.data.value[i]| == |v.xLabels|)
      && (forall i, j :: 0 <= i < |v.yLabels| && 0 <= j < |v.xLabels| ==>
            v.data.value[i][j] == Round2(Cell(h, v.yLabels[i], v.xLabels[j]).GetOr(0.0)))
      && (forall i, j :: 0 <= i < |v.yLabels| && 0 <= j < |v.xLabels| ==>
            Cell(h, v.yLabels[i], v.xLabels[j]).None? ==> v.data.value[i][j] == 0.0)
    ensures WellFormedMatrix(h) ==> var v := Heatmap(h);
      forall i, j :: 0 <= i < |h| && 0 <= j < |v.xLabels| ==>
        v.data.value[i][j] == Round2(Lookup(h[i].1, v.xLabels[j]))
  {
    var v := Heatmap(h);
    assert Round2(0.0) == 0.0;
    forall i, j | 0 <= i < |v.yLabels| && 0 <= j < |v.xLabels|
      ensures v.data.value[i][j] == Round2(Cell(h, v.yLabels[i], v.xLabels[j]).GetOr(0.0))
    {
      var p := v.yLabels[i];
      if Get(h, p).None? {
        assert Lookup([], v.xLabels[j]) == 0.0;
      }
    }
    if WellFormedMatrix(h) {
      forall i | 0 <= i < |h| ensures Get(h, h[i].0) == Some(h[i].1) {
        GetAt(h, i);
      }
    }
  }

  /**
   * The legend bounds: every cell lies between them, and each is a cell;
   * without any cell (no product, or no region in any row) both are 0.
   */
  lemma HeatmapBounds(h: Matrix)
    ensures var v := Heatmap(h);
      v.data.Some? ==> forall i, j :: 0 <= i < |v.data.value| && 0 <= j < |v.data.value[i]| ==>
        v.minValue <= v.data.value[i][j] <= v.maxValue
    ensures var v := Heatmap(h);
      (v.data.None? || v.xLabels == []) ==> v.minValue == 0.0 && v.maxValue == 0.0
    ensures var v := Heatmap(h);
      v.data.Some? && v.xLabels != [] ==>
        && (exists i, j :: 0 <= i < |v.data.value| && 0 <= j < |v.data.value[i]| && v.data.value[i][j] == v.minValue)
        && (exists i, j :: 0 <= i < |v.data.value| && 0 <= j < |v.data.value[i]| && v.data.value[i][j] == v.maxValue)
  {
    var v := Heatmap(h);
    if h != [] {
      var data := v.data.value;
      var all := Flatten(data);
      FlattenEmpty(data);
      assert |data| > 0;
      if v.xLabels != [] {
        assert |data[0]| > 0;
        assert |all| > 0;
        FlattenSpec(data, v.minValue);
        FlattenSpec(data, v.maxValue);
      } else {
        assert |all| == 0;
      }
      forall i, j | 0 <= i < |data| && 0 <= j < |data[i]| ensures v.minValue <= data[i][j] <= v.maxValue {
        FlattenSpec(data, data[i][j]);
      }
    }
  }

  // ---------------------------------------------------------------------
  // Pie

  datatype Slice = Slice(name: string, value: real)

  /** `Object.entries(pie).map(([name, value]) => ({ name, value }))`, in key order. */
  function PieSlices(pie: Record<real>): seq<Slice> {
    seq(|pie|, i requires 0 <= i < |pie| => Slice(pie[i].0, pie[i].1))
  }

  /**
   * What a sale does to the pie: every slice of another region keeps its
   * place and value; the sale's region keeps its place with the rounded
   * sum, or, when new, becomes one more slice at the end.
   */
  lemma PieSlicesAfterSale(s: State, sale: RawSale, amount: real)
    requires UniqueKeys(s.pie)
    ensures var before, after := PieSlices(s.pie), PieSlices(Applied(s, sale, amount).pie);
      var v := Round2(Lookup(s.pie, sale.region) + amount);
      && |after| == |before| + (if sale.region in Keys(s.pie) then 0 else 1)
      && (forall i :: 0 <= i < |before| ==>
            after[i] == if before[i].name == sale.region then Slice(sale.region, v) else before[i])
      && (sale.region !in Keys(s.pie) ==> after[|before|] == Slice(sale.region, v))
  {
    PutPositions(s.pie, sale.region, Round2(Lookup(s.pie, sale.region) + amount));
  }

  // ---------------------------------------------------------------------
  // KPIs

  /** `liveSales.reduce((acc, sale) => acc + sale.sales_amount, 0)`. */
  function SumAmounts(feed: seq<Sale>): real {
    if feed == [] then 0.0 else SumAmounts(feed[..|feed| - 1]) + feed[|feed| - 1].salesAmount
  }

  /** The average sale of the feed, 0 for an empty feed. */
  function AverageSale(feed: seq<Sale>): real {
    if |feed| > 0 then SumAmounts(feed) / |feed| as real else 0.0
  }

  lemma {:induction false} SumBounds(feed: seq<Sale>, lo: real, hi: real)
    requires forall i :: 0 <= i < |feed| ==> lo <= feed[i].salesAmount <= hi
    ensures |feed| as real * lo <= SumAmounts(feed) <= |feed| as real * hi
  {
    if feed != [] {
      SumBounds(feed[..|feed| - 1], lo, hi);
      assert (|feed| - 1) as real * lo + lo == |feed| as real * lo;
      assert (|feed| - 1) as real * hi + hi == |feed| as real * hi;
    }
  }

  /**
   * The average times the number of sales is their sum, and when all
   * amounts lie in [lo, hi] so does the average.
   */
  lemma AverageSaleSpec(feed: seq<Sale>, lo: real, hi: real)
    requires forall i :: 0 <= i < |feed| ==> lo <= feed[i].salesAmount <= hi
    ensures feed == [] ==> AverageSale(feed) == 0.0
    ensures AverageSale(feed) * |feed| as real == SumAmounts(feed)
    ensures feed != [] ==> lo <= AverageSale(feed) <= hi
  {
    if feed != [] {
      var n, sum := |feed| as real, SumAmounts(feed);
      assert n * lo <= sum <= n * hi by { SumBounds(feed, lo, hi); }
      DivBounds(sum, n, lo, hi);
      assert AverageSale(feed) == sum / n;
    }
  }

  /** Dividing a sum that lies between `n * lo` and `n * hi` by a positive `n`. */
  lemma DivBounds(sum: real, n: real, lo: real, hi: real)
    requires n > 0.0 && n * lo <= sum <= n * hi
    ensures lo <= sum / n <= hi
    ensures sum / n * n == sum
  {
    var inv := 1.0 / n;
    assert inv > 0.0 && n * inv == 1.0;
    assert sum / n == sum * inv;
    assert sum * inv - lo == (sum - n * lo) * inv;
    assert hi - sum * inv == (n * hi - sum) * inv;
  }

  /** The comparator `([, a], [, b]) => b - a`, as `<= 0`: larger totals first. */
  predicate ValueGe(x: (string, real), y: (string, real)) {
    x.1 >= y.1
  }

  lemma ValueGeIsTotalPreorder()
    ensures TotalPreorder(ValueGe)
  {
  }

  /** The top region box: the first entry after a stable sort by descending total, 'N/A' if none or blank. */
  function TopRegion(m: Record<real>): string {
    if m == [] then "N/A"
    else
      SortPermutation(m, ValueGe);
      var k := SortBy(m, ValueGe)[0].0;
      if k == "" then "N/A" else k
  }

  /** A reference scan: the position of the first entry with the largest total. */
  function FirstMax(m: Record<real>): (i: nat)
    requires m != []
    ensures i < |m|
    ensures forall j :: 0 <= j < |m| ==> m[j].1 <= m[i].1
    ensures forall j :: 0 <= j < i ==> m[j].1 < m[i].1
  {
    if |m| == 1 then 0
    else
      var k := FirstMax(m[..|m| - 1]);
      if m[|m| - 1].1 > m[k].1 then |m| - 1 else k
  }

  /**
   * The top region is the key of the first entry with the largest total
   * (ties go to the key created first), or 'N/A' for an empty table or a
   * blank key.
   */
  lemma TopRegionIsFirstMax(m: Record<real>)
    ensures m == [] ==> TopRegion(m) == "N/A"
    ensures m != [] ==> TopRegion(m) == (if m[FirstMax(m)].0 == "" then "N/A" else m[FirstMax(m)].0)
  {
    if m != [] {
      ValueGeIsTotalPreorder();
      var i := SortHead(m, ValueGe);
      var k := FirstMax(m);
      assert m[i].1 == m[k].1;
      assert i == k;
    }
  }

  /** The four KPI boxes. */
  datatype Kpis = Kpis(totalSalesToday: real, averageSale: real, topRegion: string, recentActivityCount: nat)

  function KpisOf(s: State): Kpis {
    Kpis(s.totalSales, AverageSale(s.liveSales), TopRegion(s.recentRegionSales), |s.liveSales|)
  }

  /** The amounts of the feed, in feed order. */
  function Amounts(feed: seq<Sale>): seq<real> {
    seq(|feed|, i requires 0 <= i < |feed| => feed[i].salesAmount)
  }

  /**
   * In any reachable state the activity count is at most five, the total
   * has two decimals, and the average is 0 for an empty feed and otherwise
   * lies between the smallest and the largest amount in the feed.
   */
  lemma KpisSpec(s: State)
    requires Inv(s)
    ensures var k := KpisOf(s);
      && k.recentActivityCount <= FeedCap
      && IsCents(k.totalSalesToday)
      && (s.liveSales == [] ==> k.averageSale == 0.0)
      && (s.liveSales != [] ==>
            MinOf(Amounts(s.liveSales)) <= k.averageSale <= MaxOf(Amounts(s.liveSales)))
  {
    var feed := s.liveSales;
    if feed != [] {
      var xs := Amounts(feed);
      var lo, hi := MinOf(xs), MaxOf(xs);
      assert forall i :: 0 <= i < |feed| ==> xs[i] in xs && feed[i].salesAmount == xs[i];
      AverageSaleSpec(feed, lo, hi);
    }
  }
}
