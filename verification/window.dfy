/**
 * The two rolling windows of the dashboard: the live feed keeps its first
 * five entries (newest first), the line chart keeps its last fifty points.
 */
module Window {
  import opened Sorting

  /** Size of the live sales feed. */
  const FeedCap: nat := 5
  /** Size of the line chart's window. */
  const LineCap: nat := 50

  function Min(a: nat, b: nat): nat {
    if a <= b then a else b
  }

  /** `s.slice(0, n)`: the first `n` elements, or all of them when there are fewer. */
  function KeepFirst<T>(s: seq<T>, n: nat): (r: seq<T>)
    ensures |r| == Min(|s|, n)
    ensures r == s[..|r|]
  {
    if |s| <= n then s else s[..n]
  }

  /** `if (s.length > n) s = s.slice(s.length - n)`: the last `n` elements. */
  function KeepLast<T>(s: seq<T>, n: nat): (r: seq<T>)
    ensures |r| == Min(|s|, n)
    ensures r == s[|s| - |r|..]
  {
    if |s| > n then s[|s| - n..] else s
  }

  /**
   * Trimming a sorted sequence from its low end drops only elements that
   * are not greater than any element kept, and what is kept stays sorted.
   */
  lemma KeepLastOfSorted<T>(s: seq<T>, n: nat, le: (T, T) -> bool)
    requires Sorted(s, le)
    ensures Sorted(KeepLast(s, n), le)
    ensures var d := |s| - |KeepLast(s, n)|;
      forall i, j :: 0 <= i < d && 0 <= j < |s| - d ==> le(s[..d][i], KeepLast(s, n)[j])
  {
    var r := KeepLast(s, n);
    var d := |s| - |r|;
    assert forall j :: 0 <= j < |r| ==> r[j] == s[d + j];
  }
}
