/**
 * `interpolateColor`: the heatmap's cell colour for a ratio, interpolated
 * linearly through three fixed stops, light green, yellow and tomato red.
 * The `rgb(r, g, b)` string it builds is kept as its three channels.
 */
module Color {
  import opened Wrappers

  datatype Rgb = Rgb(r: int, g: int, b: int)

  /** The three stops of the gradient. */
  const Stops: seq<Rgb> := [Rgb(144, 238, 144), Rgb(255, 220, 70), Rgb(255, 99, 71)]

  /** `Math.floor`. */
  function Floor(x: real): int {
    x.Floor
  }

  /** `Math.round`: to the nearest integer, halves rounded up. */
  function Round(x: real): (n: int)
    ensures x - 0.5 < n as real <= x + 0.5
  {
    (x + 0.5).Floor
  }

  /** `Math.min(Math.floor(ratio * 2), 1)`: the stop the segment starts at. */
  function Segment(ratio: real): int {
    var i := Floor(ratio * (|Stops| - 1) as real);
    if i <= |Stops| - 2 then i else |Stops| - 2
  }

  /** `ratio * 2 - segment`: the position inside the segment. */
  function LocalRatio(ratio: real): real {
    ratio * (|Stops| - 1) as real - Segment(ratio) as real
  }

  /** One channel between stop values `c1` and `c2` at local position `t`. */
  function Channel(c1: int, c2: int, t: real): int {
    Round(c1 as real + (c2 - c1) as real * t)
  }

  /**
   * The colour for `ratio`, or None where the source reads `colors[-1]`,
   * which is undefined, and so throws on `color1.r`.
   */
  function InterpolateColor(ratio: real): Option<Rgb> {
    var i := Segment(ratio);
    if i < 0 then None
    else
      var c1, c2, t := Stops[i], Stops[i + 1], LocalRatio(ratio);
      Some(Rgb(Channel(c1.r, c2.r, t), Channel(c1.g, c2.g, t), Channel(c1.b, c2.b, t)))
  }

  /** Where the colour is defined: exactly for the ratios that are not negative. */
  lemma DefinedIffNonNegative(ratio: real)
    ensures InterpolateColor(ratio).Some? <==> ratio >= 0.0
  {
    if ratio < 0.0 {
      assert ratio * 2.0 < 0.0;
      assert Floor(ratio * 2.0) < 0;
    }
  }

  /** On [0, 1] the segment is the first or the second, and the local position lies in [0, 1]. */
  lemma SegmentInRange(ratio: real)
    requires 0.0 <= ratio <= 1.0
    ensures Segment(ratio) == 0 || Segment(ratio) == 1
    ensures Segment(ratio) == (if ratio < 0.5 then 0 else 1)
    ensures 0.0 <= LocalRatio(ratio) <= 1.0
  {
    var x := ratio * 2.0;
    if ratio < 0.5 {
      assert 0.0 <= x < 1.0;
      assert Floor(x) == 0;
    } else if ratio < 1.0 {
      assert 1.0 <= x < 2.0;
      assert Floor(x) == 1;
    } else {
      assert Floor(x) == 2;
    }
  }

  /** The gradient passes exactly through its three stops, at 0, 0.5 and 1. */
  lemma ExactStops()
    ensures InterpolateColor(0.0) == Some(Stops[0])
    ensures InterpolateColor(0.5) == Some(Stops[1])
    ensures InterpolateColor(1.0) == Some(Stops[2])
  {
    assert Floor(0.0) == 0;
    assert Floor(1.0) == 1;
    assert Floor(2.0) == 2;
    assert LocalRatio(0.0) == 0.0;
    assert LocalRatio(0.5) == 0.0;
    assert LocalRatio(1.0) == 1.0;
  }

  /** A channel interpolated at a position in [0, 1] lies between its two stop values. */
  lemma ChannelBetween(c1: int, c2: int, t: real)
    requires 0.0 <= t <= 1.0
    ensures c1 <= c2 ==> c1 <= Channel(c1, c2, t) <= c2
    ensures c2 <= c1 ==> c2 <= Channel(c1, c2, t) <= c1
  {
    var x := c1 as real + (c2 - c1) as real * t;
    if c1 <= c2 {
      assert (c2 - c1) as real * t <= (c2 - c1) as real;
      assert c1 as real <= x <= c2 as real;
    } else {
      assert (c1 - c2) as real * t <= (c1 - c2) as real;
      assert c2 as real <= x <= c1 as real;
    }
  }

  /** The smaller and the larger of two stop values. */
  function Lo(a: int, b: int): int { if a <= b then a else b }
  function Hi(a: int, b: int): int { if a <= b then b else a }

  /**
   * For a ratio in [0, 1] every channel of the colour lies between the
   * values of that channel at the two stops of the ratio's segment.
   */
  lemma ColorBetweenStops(ratio: real)
    requires 0.0 <= ratio <= 1.0
    ensures var i := Segment(ratio);
      && (i == 0 || i == 1)
      && InterpolateColor(ratio).Some?
      && var c, lo, hi := InterpolateColor(ratio).value, Stops[i], Stops[i + 1];
      && Lo(lo.r, hi.r) <= c.r <= Hi(lo.r, hi.r)
      && Lo(lo.g, hi.g) <= c.g <= Hi(lo.g, hi.g)
      && Lo(lo.b, hi.b) <= c.b <= Hi(lo.b, hi.b)
  {
    SegmentInRange(ratio);
    var i, t := Segment(ratio), LocalRatio(ratio);
    ChannelBetween(Stops[i].r, Stops[i + 1].r, t);
    ChannelBetween(Stops[i].g, Stops[i + 1].g, t);
    ChannelBetween(Stops[i].b, Stops[i + 1].b, t);
  }
}
