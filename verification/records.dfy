/**
 * A JavaScript plain object used as a dictionary, as an insertion-ordered
 * list of key/value pairs: `Object.keys`, `Object.entries` and the spread
 * `{...prev, [k]: v}` all keep the order in which keys were first created.
 */
module Records {
  import opened Wrappers

  type Record<V> = seq<(string, V)>

  /** `Object.keys(m)`, in insertion order. */
  function Keys<V>(m: Record<V>): (ks: seq<string>)
    ensures |ks| == |m|
    ensures forall i :: 0 <= i < |m| ==> ks[i] == m[i].0
  {
    if m == [] then [] else [m[0].0] + Keys(m[1..])
  }

  /** A JavaScript object never holds the same key twice. */
  predicate UniqueKeys<V>(m: Record<V>) {
    forall i, j :: 0 <= i < j < |m| ==> m[i].0 != m[j].0
  }

  /** `m[k]`: the value stored under `k`, or None for `undefined`. */
  function Get<V>(m: Record<V>, k: string): Option<V> {
    if m == [] then None
    else if m[0].0 == k then Some(m[0].1)
    else Get(m[1..], k)
  }

  /** A value found under `k` is stored in an entry of `m` with that key. */
  lemma {:induction false} GetStored<V>(m: Record<V>, k: string)
    requires Get(m, k).Some?
    ensures (k, Get(m, k).value) in m
  {
    if m[0].0 != k {
      GetStored(m[1..], k);
    }
  }

  /** `m[k] || 0` for a record of amounts: an absent key counts as zero. */
  function Lookup(m: Record<real>, k: string): real {
    Get(m, k).GetOr(0.0)
  }

  /** Key order after assigning to `k`: unchanged if present, `k` appended if new. */
  function Extend(ks: seq<string>, k: string): seq<string> {
    if k in ks then ks else ks + [k]
  }

  /**
   * `m[k] = v`: the value under `k` becomes `v`, created at the end if `k`
   * was absent, and the other keys keep their places (PutOther: and their values).
   */
  function Put<V>(m: Record<V>, k: string, v: V): Record<V> {
    if m == [] then [(k, v)]
    else if m[0].0 == k then [(k, v)] + m[1..]
    else [m[0]] + Put(m[1..], k, v)
  }

  /** A key is found exactly when it is one of the record's keys. */
  lemma {:induction false} GetKeys<V>(m: Record<V>, k: string)
    ensures Get(m, k).Some? <==> k in Keys(m)
  {
    if m != [] {
      GetKeys(m[1..], k);
      assert Keys(m) == [m[0].0] + Keys(m[1..]);
    }
  }

  /** After `m[k] = v`, reading `k` gives `v`, and the keys are the old ones with `k` added at the end if new. */
  lemma {:induction false} PutSpec<V>(m: Record<V>, k: string, v: V)
    ensures Get(Put(m, k, v), k) == Some(v)
    ensures Keys(Put(m, k, v)) == Extend(Keys(m), k)
  {
    if m != [] {
      PutSpec(m[1..], k, v);
      assert Keys(m) == [m[0].0] + Keys(m[1..]);
      if m[0].0 == k {
        assert Keys(Put(m, k, v)) == [k] + Keys(m[1..]);
      } else {
        assert Keys(Put(m, k, v)) == [m[0].0] + Keys(Put(m[1..], k, v));
      }
    }
  }

  /** Assigning to `k` leaves the value of every other key as it was. */
  lemma {:induction false} PutOther<V>(m: Record<V>, k: string, v: V, k': string)
    requires k' != k
    ensures Get(Put(m, k, v), k') == Get(m, k')
  {
    if m != [] && m[0].0 != k {
      PutOther(m[1..], k, v, k');
    }
  }

  /** Assigning to a key of an object yields an object: keys stay unique. */
  lemma PutUnique<V>(m: Record<V>, k: string, v: V)
    requires UniqueKeys(m)
    ensures UniqueKeys(Put(m, k, v))
  {
    var r := Put(m, k, v);
    var ks := Keys(r);
    PutSpec(m, k, v);
    assert forall i :: 0 <= i < |r| ==> r[i].0 == ks[i];
    assert forall i, j :: 0 <= i < j < |m| ==> Keys(m)[i] != Keys(m)[j];
    if k !in Keys(m) {
      assert ks == Keys(m) + [k];
      forall i, j | 0 <= i < j < |r| ensures ks[i] != ks[j] {
        if j == |m| {
          assert ks[i] == Keys(m)[i];
        }
      }
    }
  }

  /**
   * Where `m[k] = v` writes in an object: an existing key is overwritten in
   * its own place, a new key is added as the last entry, and every other
   * entry keeps its place.
   */
  lemma {:induction false} PutPositions<V>(m: Record<V>, k: string, v: V)
    requires UniqueKeys(m)
    ensures |Put(m, k, v)| == |m| + (if k in Keys(m) then 0 else 1)
    ensures forall i :: 0 <= i < |m| ==> Put(m, k, v)[i] == if m[i].0 == k then (k, v) else m[i]
    ensures k !in Keys(m) ==> Put(m, k, v)[|m|] == (k, v)
  {
    if m != [] {
      assert UniqueKeys(m[1..]);
      PutPositions(m[1..], k, v);
      assert Keys(m) == [m[0].0] + Keys(m[1..]);
      if m[0].0 == k {
        forall i | 1 <= i < |m| ensures m[i].0 != k {
          assert m[0].0 != m[i].0;
        }
      }
    }
  }

  /** In a record with unique keys, looking up the i-th key finds the i-th value. */
  lemma {:induction false} GetAt<V>(m: Record<V>, i: nat)
    requires UniqueKeys(m) && i < |m|
    ensures Get(m, m[i].0) == Some(m[i].1)
  {
    if i > 0 {
      assert m[0].0 != m[i].0;
      assert UniqueKeys(m[1..]);
      GetAt(m[1..], i - 1);
    }
  }

  /** Every entry after an assignment is the assigned one or was there before. */
  lemma {:induction false} PutEntries<V>(m: Record<V>, k: string, v: V)
    ensures forall e :: e in Put(m, k, v) ==> e == (k, v) || e in m
  {
    if m != [] && m[0].0 != k {
      PutEntries(m[1..], k, v);
    }
  }

  /** Assigning the same key twice is the same as assigning the second value once. */
  lemma {:induction false} PutPut<V>(m: Record<V>, k: string, v1: V, v2: V)
    ensures Put(Put(m, k, v1), k, v2) == Put(m, k, v2)
  {
    if m != [] && m[0].0 != k {
      PutPut(m[1..], k, v1, v2);
    }
  }
}
