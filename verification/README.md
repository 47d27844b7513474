# BizPulse live sales aggregation, in Dafny

BizPulse is a sales dashboard. Its React `App` component receives one
`new_sale` event per sale over a WebSocket. From those events it keeps six
pieces of state:

- a live feed of the five most recent sales;
- a running total;
- per-region totals;
- a pie of region totals;
- a time-sorted line chart of the last fifty sale points;
- a product-by-region heatmap.

It also loads a baseline snapshot once on mount. On every render it derives
the heatmap's labels, cells and legend bounds, the pie's slices and four KPI
boxes from that state. This project models that aggregation engine
(`frontend/src/App.js`) and proves properties of it.

Modules:

- `Money`: `parseFloat(x.toFixed(2))` on exact reals, rounding half away
  from zero.
- `Records`: JavaScript plain objects as insertion-ordered key/value
  sequences.
- `Sorting`: the stable `Array.prototype.sort`, as an insertion sort.
- `Window`: the two rolling windows, five feed entries and fifty line
  points.
- `Events`: the `new_sale` payload, the amount check, the feed entry and the
  line point.
- `Dashboard`: the state, one event as a function of the state, streams of
  events and the baseline load.
- `App`: the state as an object, `LiveDashboard`. Its methods update the
  fields in place and are proved to reach the state `Dashboard` specifies.
- `Projections`: the heatmap view, the pie slices and the KPIs.
- `Color`: `interpolateColor`, the heatmap's three-stop gradient.

On the baseline load the code does the following:

- It replaces only the pie, the line and the heatmap. It leaves the feed,
  the total and the region totals as they are (App.js:62-71).
- It sorts the baseline line by time but does not cut it to fifty points
  (App.js:65-69). Only the next sale trims it (App.js:142-144).
- A failed request changes nothing: the `catch` only logs (App.js:73). The
  state keeps whatever it holds. The socket handlers are attached in the
  same effect (App.js:95), so sales may already have arrived.

The baseline load as written reads one `data` level too deep, so it never
seeds anything (see "## Findings"). `Dashboard.PayloadAsWritten` models
that read. The rest of the model, including `App.LiveDashboard.OnBaseline`,
uses the intended read, `Dashboard.Payload`.

## Model

| member | source | states |
|---|---|---|
| Money.Round2 | frontend/src/App.js:109 | `parseFloat(x.toFixed(2))` on exact reals. Specified by `Round2Bounds`, `Round2OfCents`, `Round2Idempotent`, `Round2Monotone`, `Round2AddCents` and `Round2Examples` |
| Records.Keys | frontend/src/App.js:260 | `Object.keys` in insertion order: one key per entry, the i-th key being the i-th entry's |
| Records.Get | frontend/src/App.js:119 | `m[k]`, undefined as None. Specified by `GetKeys`, `GetStored` and `GetAt` |
| Records.Put | frontend/src/App.js:149-151 | `m[k] = v`. Specified by `PutSpec`, `PutOther`, `PutUnique`, `PutPositions` and `PutPut` |
| Sorting.SortBy | frontend/src/App.js:141 | The stable `Array.prototype.sort`. Specified by `SortSorted`, `SortPermutation`, `SortStable`, `SortOfSorted` and `SortHead` |
| Dashboard.Initial | frontend/src/App.js:43-55 | The state on mount. `App.LiveDashboard.constructor` is proved to produce it |
| Dashboard.NextFeed | frontend/src/App.js:111 | The feed after a sale. Specified by `NextFeedSpec` |
| Dashboard.AddTo | frontend/src/App.js:117-120 | One region total after a sale, for `recentRegionSales` and the pie. Specified by `AddToSpec` and `AddToKeepsUnique` |
| Dashboard.AddToCell | frontend/src/App.js:154-159 | The heatmap after a sale. Specified by `AddToCellAt`, `AddToCellOtherRows`, `AddToCellOtherCells` and `AddToCellWellFormed` |
| Dashboard.NextLine | frontend/src/App.js:131-144 | The line after a sale. Specified by `NextLineSpec`, `NextLineInserts` and `NextLineSlides` |
| Dashboard.Applied | frontend/src/App.js:106-162 | The state after an accepted sale. `AppliedPreservesInv` shows it keeps the invariant |
| Dashboard.Received | frontend/src/App.js:95-163 | The handler as a whole. Specified by `ReceivedRejects` and `ReceivedTotal`; `App.LiveDashboard.OnNewSale` is proved to reach it |
| Dashboard.Replay | frontend/src/App.js:95-163 | A stream of events. Specified by `ReplayPreservesInv`, `ReplayTotal` and `ReplayRegionTablesAgree` |
| Dashboard.BaselineLine | frontend/src/App.js:65-69 | Each baseline point keeps its timestamp and sales, in order, with no product or region |
| Dashboard.Payload | frontend/src/App.js:61-70 | The intended read: a successful response delivers exactly the snapshot under the body's `data`, and a failed one delivers none |
| Dashboard.PayloadAsWritten | frontend/src/App.js:61-70 | The read as written: it succeeds exactly when the request does. Its effect is stated by `SeededAsWrittenClears` |
| Dashboard.Seeded | frontend/src/App.js:59-73 | The baseline load. Specified by `SeededSpec` and `SeededFromBody`; `App.LiveDashboard.OnBaseline` is proved to reach it |
| Dashboard.SeededAsWrittenClears | frontend/src/App.js:61-71 | As written, every successful load empties pie, line and heatmap whatever the response holds, and keeps feed, total and region totals |
| Dashboard.SeededAsWrittenLosesSale | frontend/src/App.js:61-71 | After one sale, the load as written leaves an empty pie instead of the response's pie, while the region totals keep the sale. The intended read seeds the response's pie |
| Dashboard.SeededFromBody | frontend/src/App.js:59-71 | With the intended read, a successful load seeds the response's pie and heatmap and a sorted permutation of its line |
| Projections.XLabels | frontend/src/App.js:261-264 | The heatmap's x labels. Specified by `XLabelsSpec` |
| Projections.Grid | frontend/src/App.js:266-273 | The heatmap's cells. Specified by `HeatmapCells` |
| Projections.Heatmap | frontend/src/App.js:251-287 | The heatmap view. Specified by `HeatmapLabels`, `HeatmapCells` and `HeatmapBounds` |
| Projections.PieSlices | frontend/src/App.js:550 | The pie's slices, one per region in key order. Specified by `PieSlicesAfterSale` |
| Projections.SumAmounts | frontend/src/App.js:383 | The feed's `reduce` sum. Bounded by `SumBounds` |
| Projections.SumBounds | frontend/src/App.js:383 | If every amount lies in [lo, hi], the sum of `n` amounts lies in [n * lo, n * hi] |
| Projections.AverageSale | frontend/src/App.js:382-385 | The average sale box. Specified by `AverageSaleSpec` |
| Projections.TopRegion | frontend/src/App.js:394-395 | The top region box. Specified by `TopRegionIsFirstMax` |
| Projections.KpisOf | frontend/src/App.js:374-403 | The four KPI boxes. Specified by `KpisSpec` |
| Color.InterpolateColor | frontend/src/App.js:16-37 | The heatmap gradient. Specified by `DefinedIffNonNegative`, `SegmentInRange`, `ExactStops` and `ColorBetweenStops` |
| App.LiveDashboard.constructor | frontend/src/App.js:43-55 | On mount the feed is empty, the total is 0, and the region totals, pie, line and heatmap are empty; the invariant holds |
| App.LiveDashboard.OnNewSale | frontend/src/App.js:95-163 | A sale is accepted exactly when its amount is a number or a string that parses. A rejected sale changes no field. An accepted one leaves the object in the state `Dashboard.Received` gives, and the invariant is kept |
| App.LiveDashboard.NewDashboard | frontend/src/App.js:123-162 | The dashboard updater builds exactly the next line (push, sort by time, last fifty), the next pie total and the next heatmap cell. This includes the `heatmap[product] ||= {}` step |
| App.LiveDashboard.OnBaseline | frontend/src/App.js:57-73 | A successful response replaces pie, line (sorted by time) and heatmap with the parts the body carries under `data`, missing parts becoming empty. A failed one changes nothing. The invariant is kept. This is the intended read; see "## Findings" |
| Events.Coerce | frontend/src/App.js:97-104 | A number is taken as is and a string goes through parseFloat. Only those two kinds can pass; NaN and other values are rejected |
| Events.FeedEntry | frontend/src/App.js:107-110 | The feed entry keeps the payload's product, region, timestamp and quantity. Its amount is `Round2` of the coerced amount and so has two decimals |
| Events.SalePoint | frontend/src/App.js:131-138 | A line point carries the sale's timestamp, its product and region, and `sales` equal to `Round2` of its own amount, which has two decimals |
| Dashboard.ReceivedRejects | frontend/src/App.js:101-104 | A sale whose amount is not a number leaves the whole state unchanged |
| Dashboard.NextFeedSpec | frontend/src/App.js:111 | The new sale goes to the front of the feed, older entries shift back, and at most five are kept |
| Dashboard.NextTotalSpec | frontend/src/App.js:114 | The total stays at two decimals. With a non-negative amount it never decreases. For a non-negative two-decimal total and a non-negative amount, it equals the old total plus the rounded amount |
| Dashboard.AddToSpec | frontend/src/App.js:117-120 | The sale's region becomes the rounded sum (an absent region starts at 0). Every other region keeps its value. Key order is kept, with a new region last |
| Dashboard.AddToKeepsUnique | frontend/src/App.js:149-151 | Adding to the pie or the region totals keeps keys unique and stores a two-decimal amount |
| Dashboard.AddToCellAt | frontend/src/App.js:154-159 | The sale's product/region cell becomes the rounded sum, with the row created if absent. The row's regions keep their order, with a new region last |
| Dashboard.AddToCellOtherRows | frontend/src/App.js:154-156 | Every other product's row is unchanged, and products keep their order with a new product last |
| Dashboard.AddToCellOtherCells | frontend/src/App.js:157-159 | Every other cell of the heatmap is unchanged |
| Dashboard.AddToCellInSteps | frontend/src/App.js:154-159 | Creating the row and then writing into it is the same as one cell update |
| Dashboard.AddToCellWellFormed | frontend/src/App.js:154-159 | Keys stay unique at both levels of the heatmap |
| Dashboard.NextLineSpec | frontend/src/App.js:131-144 | The new line is sorted by time and one point longer, up to fifty. It holds the old points plus the new one, minus those dropped. No dropped point is later than a kept one |
| Dashboard.NextLineInserts | frontend/src/App.js:132-144 | On a sorted line the sort only inserts the new point, after every point not later than it and before the rest |
| Dashboard.NextLineSlides | frontend/src/App.js:140-144 | On a full line, a sale no earlier than every point drops the oldest point and appends the new one |
| Dashboard.AppliedPreservesInv | frontend/src/App.js:106-162 | One accepted sale keeps the invariant: feed of at most five, two-decimal total, unique keys and a sorted line |
| Dashboard.SeededSpec | frontend/src/App.js:59-71 | The baseline load keeps the invariant and leaves feed, total and region totals alone. The seeded line is a stable, sorted permutation of the baseline points |
| Dashboard.ReplayPreservesInv | frontend/src/App.js:95-163 | Any stream of events keeps the invariant, with at most five feed entries and, once within fifty, at most fifty line points |
| Dashboard.ReplayTotal | frontend/src/App.js:114 | From a non-negative two-decimal total, after a stream of sales with non-negative amounts, the total is the start plus every accepted amount rounded to cents, including sales that left the line window |
| Dashboard.ReceivedTotal | frontend/src/App.js:101-114 | For a non-negative two-decimal total and a non-negative amount, one event adds its rounded accepted amount to the total, or nothing if rejected |
| Dashboard.ReplayRegionTablesAgree | frontend/src/App.js:117-120 | The pie and the region totals get the same update from every sale, so once equal they stay equal |
| Money.Round2Bounds | frontend/src/App.js:109 | A rounded amount has two decimals and lies within half a cent of the input |
| Money.Round2OfCents | frontend/src/App.js:114 | An amount that already has two decimals is unchanged by rounding |
| Money.Round2Idempotent | frontend/src/App.js:109 | Rounding twice is rounding once |
| Money.Round2Monotone | frontend/src/App.js:114 | Rounding preserves order |
| Money.Round2AddCents | frontend/src/App.js:114 | For a non-negative two-decimal total and a non-negative amount, rounding their sum is the total plus the rounded amount |
| Money.Round2AddNegative | frontend/src/App.js:114 | With a negative amount rounding the sum is not adding the rounded amount: 1.00 plus -0.125 is stored as 0.88, not 0.87 |
| Money.Round2Examples | frontend/src/App.js:109 | 19.999 is stored as 20. An exact half cent moves away from zero: 0.125 is stored as 0.13 and -0.125 as -0.13 |
| Records.GetKeys | frontend/src/App.js:119 | A key reads as defined exactly when it is one of the object's keys |
| Records.PutSpec | frontend/src/App.js:149-151 | After `m[k] = v`, `m[k]` is `v`, and the keys are the old ones with `k` last if it was new |
| Records.PutOther | frontend/src/App.js:149-151 | An assignment leaves every other key's value unchanged |
| Records.PutUnique | frontend/src/App.js:117-120 | An assignment keeps keys unique |
| Records.PutPositions | frontend/src/App.js:149-151 | An existing key is overwritten in its place, a new key becomes the last entry, and other entries keep their places |
| Records.PutPut | frontend/src/App.js:154-158 | Assigning a key twice is assigning the second value |
| Sorting.SortPermutation | frontend/src/App.js:141 | Sorting only reorders its input |
| Sorting.SortSorted | frontend/src/App.js:141 | The sort's result is in order |
| Sorting.SortStable | frontend/src/App.js:69 | Elements that compare equal keep their input order |
| Sorting.SortOfSorted | frontend/src/App.js:141 | Sorting a sorted sequence changes nothing |
| Sorting.InsertPlacement | frontend/src/App.js:141 | Inserting into a sorted sequence puts the element after every element not greater than it and before the rest |
| Sorting.SortHead | frontend/src/App.js:394-395 | The head of a stable sort is the first least element of the input |
| Window.KeepFirst | frontend/src/App.js:111 | `slice(0, n)` keeps the first min(length, n) elements |
| Window.KeepLast | frontend/src/App.js:142-144 | The trim keeps the last min(length, n) elements |
| Window.KeepLastOfSorted | frontend/src/App.js:142-144 | Trimming a sorted line keeps it sorted, and every dropped point is not after any kept one |
| Projections.Distinct | frontend/src/App.js:261-263 | `[...new Set(s)]` has no duplicates and exactly the elements of `s` |
| Projections.LexIsTotalPreorder | frontend/src/App.js:264 | The default string order of `sort()` is total and transitive |
| Projections.XLabelsSpec | frontend/src/App.js:261-264 | The x labels are strictly increasing (each sorts before the next and not after it) and are exactly the regions of any row |
| Projections.HeatmapLabels | frontend/src/App.js:258-264 | The y labels are the products in insertion order. The x labels are every region of any row, once each, sorted. An empty heatmap has no labels |
| Projections.HeatmapCells | frontend/src/App.js:266-273 | There is one row per product and one column per region. Each cell is the stored amount rounded to cents, or 0 where absent |
| Projections.HeatmapBounds | frontend/src/App.js:275-286 | The legend bounds enclose every cell and each bound is some cell. Without cells both are 0 |
| Projections.FlattenSpec | frontend/src/App.js:277 | A value is in the flattened grid exactly when it is a cell |
| Projections.MinOf | frontend/src/App.js:279 | `Math.min` is an element no greater than any element |
| Projections.MaxOf | frontend/src/App.js:280 | `Math.max` is an element no smaller than any element |
| Projections.PieSlicesAfterSale | frontend/src/App.js:550 | After a sale every other region's slice keeps its place and value. The sale's region keeps its place with the new total, or becomes one more slice at the end |
| Projections.AverageSaleSpec | frontend/src/App.js:382-384 | The average times the count is the sum. It is 0 for an empty feed and otherwise lies within any bounds of the amounts |
| Projections.DivBounds | frontend/src/App.js:383 | A sum between `n * lo` and `n * hi`, divided by a positive count `n`, lies between `lo` and `hi` |
| Projections.FirstMax | frontend/src/App.js:394-395 | A reference scan: the first entry with the largest total |
| Projections.TopRegionIsFirstMax | frontend/src/App.js:394-395 | The top region is the first region with the largest total (ties go to the region created first). It is 'N/A' for an empty table or a blank key |
| Projections.KpisSpec | frontend/src/App.js:374-403 | Activity is at most five and the total has two decimals. The average is 0 for an empty feed and otherwise between the smallest and largest feed amount |
| Color.DefinedIffNonNegative | frontend/src/App.js:16-37 | A colour is produced exactly for ratios that are not negative. A negative ratio indexes `colors[-1]` and throws |
| Color.SegmentInRange | frontend/src/App.js:25-26 | On [0, 1] the segment is the first below 0.5 and the second from 0.5 on, and the local ratio lies in [0, 1] |
| Color.ExactStops | frontend/src/App.js:18-22 | The gradient passes exactly through light green at 0, yellow at 0.5 and tomato at 1 |
| Color.ChannelBetween | frontend/src/App.js:32-34 | An interpolated channel lies between its two stop values |
| Color.ColorBetweenStops | frontend/src/App.js:16-37 | On [0, 1] every channel of the colour lies between that channel's values at the segment's two stops |

## Left out

- Rendering is not modelled: JSX, recharts, `renderActiveShape`, the `rgb(...)` string and the `$`/`toFixed(2)` display formatting of the KPI boxes. The model keeps the numbers these are drawn from.
- Dashboard.NextTotalSpec, Dashboard.ReceivedTotal, Dashboard.ReplayTotal and Money.Round2AddCents: the identity "new total = old total + Round2(amount)" is proved only for a non-negative two-decimal total and non-negative amounts. A sale amount is a non-negative price, but the handler accepts any number. With a negative amount, or a negative total, rounding the sum differs from adding the rounded amount: total 1.00 plus -0.125 is stored as 0.88, not 0.87 (`Money.Round2AddNegative`).
- Numbers are exact reals, not IEEE doubles. Binary rounding error, `Infinity`, and the few inputs where `toFixed` on a double rounds differently from exact decimal rounding are not modelled.
- `parseFloat` on strings is a parameter of the model (`parse`), not defined, so text-to-number parsing is not modelled.
- Timestamps are the integer milliseconds that `new Date(...).getTime()` yields. Date parsing, invalid dates (`NaN` timestamps) and the `toLocaleTimeString` label of each point are not modelled.
- The heatmap ratio is computed inside `react-heatmap-grid`, not in this code. `Color` therefore models `interpolateColor` for any ratio, not the ratio itself.
- Heatmap cells stored as strings or `NaN`, and the `filter` of non-numbers before min/max, are not modelled: the model's cells are always numbers.
- Projections.PieSlices: the `parseFloat(value) || 0` step is not modelled, because stored pie values are already numbers.
- Records: reading `m[k]` in JavaScript also finds members inherited from `Object.prototype`, and the model reads every missing own key as absent. A region named `constructor`, `toString` or `__proto__` makes `(prev[k] || 0) + amount` a string, so `toFixed` throws inside the state updater (App.js:119, 150). A product named `constructor` passes the `!heatmap[product]` test (App.js:154), so its cell is written onto the inherited value and never appears among the keys. None of this is modelled.
- Records: JavaScript lists integer-like keys first in ascending order. The model keeps pure insertion order, so a region or product named like a number is ordered differently.
- Projections.LexLe compares characters by code point, while JavaScript compares UTF-16 code units. They differ only for characters outside the Basic Multilingual Plane.
- Socket subscription and teardown, the `connected` and `data_update` handlers, and React's batching of the four state updates are not modelled. Each event is applied whole, before the next.
- A baseline response arriving after live sales overwrites the sales' pie, line and heatmap updates. The model captures this as `Seeded` on any state but does not model the timing.
- The trends, insight cards, recommendations and feedback fetches, the AI insight form, `services/api.js`, `services/socket.js` and the backend are not part of this model.
- The `JSON.parse(JSON.stringify(...))` deep copy is modelled as value semantics. Its conversion of non-finite numbers to `null` is not modelled.

## Findings

| source | as written | input that shows it | evidently intended | confidence | as-written member | corrected member |
|---|---|---|---|---|---|---|
| frontend/src/App.js:61-70 | The load reads `res.data?.data?.pie`, `.line` and `.heatmap`. But `getSalesData` already resolves to the response body (frontend/src/services/api.js:14), and the backend sends `{ "data": { pie, line, heatmap } }` (backend/main.py:58). So the code reads `body.data.data.*`, which never exists, and every successful load empties the pie, the line and the heatmap | Any successful response with a non-empty pie, e.g. one region with total 10, loaded after one live sale: the pie becomes empty, while the region totals keep the sale | Read `res.data?.pie`, `res.data?.line` and `res.data?.heatmap`, seeding what the backend sent | high, not executed | Dashboard.SeededAsWrittenLosesSale | Dashboard.SeededFromBody |
