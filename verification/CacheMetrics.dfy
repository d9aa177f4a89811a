/** The cache's latency statistics (crates/server/src/cache.rs). */
module CacheMetrics {
  import opened Bytes

  const LATENCY_SAMPLE_LIMIT: nat := 128
  const U64_MAX: nat := 0xffff_ffff_ffff_ffff

  // ---------------------------------------------------------------------------------------------
  // Sorting, as any sort does it.

  ghost predicate Sorted(s: seq<u64>) {
    forall i, j :: 0 <= i < j < |s| ==> s[i] <= s[j]
  }

  function Insert(x: u64, s: seq<u64>): seq<u64> {
    if |s| == 0 || x <= s[0] then [x] + s else [s[0]] + Insert(x, s[1..])
  }

  function Sort(s: seq<u64>): seq<u64> {
    if |s| == 0 then [] else Insert(s[0], Sort(s[1..]))
  }

  lemma {:induction false} InsertSorted(x: u64, s: seq<u64>, least: int)
    requires Sorted(s) && least <= x && forall i :: 0 <= i < |s| ==> least <= s[i]
    ensures Sorted(Insert(x, s)) && forall i :: 0 <= i < |Insert(x, s)| ==> least <= Insert(x, s)[i]
    ensures |Insert(x, s)| == |s| + 1
  {
    if |s| > 0 && x > s[0] {
      InsertSorted(x, s[1..], s[0]);
    }
  }

  lemma {:induction false} SortSorts(s: seq<u64>)
    ensures Sorted(Sort(s)) && |Sort(s)| == |s|
  {
    if |s| > 0 {
      SortSorts(s[1..]);
      InsertSorted(s[0], Sort(s[1..]), 0);
    }
  }

  // ---------------------------------------------------------------------------------------------
  // Percentiles.

  /** The rank the code picks, counted from zero. */
  function Rank(n: nat, percentile: nat): nat
    requires n > 0
  {
    var up := (n * percentile + 99) / 100;
    var rank := if up == 0 then 0 else up - 1;
    if rank > n - 1 then n - 1 else rank
  }

  function Percentile(samples: seq<u64>, percentile: nat): u64 {
    if |samples| == 0 then 0
    else
      SortSorts(samples);
      Sort(samples)[Rank(|samples|, percentile)]
  }

  /** How many samples are at most `v`. */
  function CountUpTo(s: seq<u64>, v: int): nat {
    if |s| == 0 then 0 else CountUpTo(s[1..], v) + if s[0] <= v then 1 else 0
  }

  lemma {:induction false} CountInsert(x: u64, s: seq<u64>, v: int)
    ensures CountUpTo(Insert(x, s), v) == CountUpTo(s, v) + if x <= v then 1 else 0
  {
    if |s| > 0 && x > s[0] {
      CountInsert(x, s[1..], v);
      assert Insert(x, s)[1..] == Insert(x, s[1..]);
    } else {
      assert Insert(x, s)[1..] == s;
    }
  }

  lemma {:induction false} CountSort(s: seq<u64>, v: int)
    ensures CountUpTo(Sort(s), v) == CountUpTo(s, v)
  {
    if |s| > 0 {
      CountSort(s[1..], v);
      CountInsert(s[0], Sort(s[1..]), v);
    }
  }

  /** In a sorted sequence the samples at most `v` stand in front. */
  lemma {:induction false} CountSorted(s: seq<u64>, v: int, k: nat)
    requires Sorted(s) && k < |s|
    ensures s[k] <= v <==> k < CountUpTo(s, v)
  {
    if k > 0 {
      CountSorted(s[1..], v, k - 1);
      assert s[0] <= s[k];
      if s[0] > v {
        CountSorted(s[1..], v, 0);
      }
    } else if s[0] > v {
      NoneUpTo(s, v);
    }
  }

  lemma {:induction false} NoneUpTo(s: seq<u64>, v: int)
    requires forall i :: 0 <= i < |s| ==> s[i] > v
    ensures CountUpTo(s, v) == 0
  {
    if |s| > 0 {
      NoneUpTo(s[1..], v);
    }
  }

  /** The nearest-rank percentile, without sorting: the number `v` for which at least
      `percentile` in a hundred samples, and at least one, are at most `v`, while fewer are below. */
  predicate NearestRank(samples: seq<u64>, percentile: nat, v: int) {
    var needed := if percentile == 0 then 100 else |samples| * percentile;
    && 100 * CountUpTo(samples, v) >= needed && CountUpTo(samples, v) >= 1
    && (100 * CountUpTo(samples, v - 1) < needed || CountUpTo(samples, v - 1) < 1)
  }

  lemma RankIsNeeded(n: nat, percentile: nat, count: nat)
    requires n > 0 && percentile <= 100
    ensures Rank(n, percentile) < n
    ensures Rank(n, percentile) < count <==>
            100 * count >= (if percentile == 0 then 100 else n * percentile) && count >= 1
  {
    assert n * percentile <= n * 100;
    assert percentile > 0 ==> n * percentile >= 1;
  }

  /** For every non-empty collection of samples and every percentile up to 100, the value returned
      is the nearest-rank percentile, and the only number that is. */
  lemma PercentileIsNearestRank(samples: seq<u64>, percentile: nat, v: int)
    requires |samples| > 0 && percentile <= 100
    ensures NearestRank(samples, percentile, v) <==> v == Percentile(samples, percentile)
  {
    SortSorts(samples);
    var s, k := Sort(samples), Rank(|samples|, percentile);
    RankIsNeeded(|samples|, percentile, CountUpTo(samples, v));
    RankIsNeeded(|samples|, percentile, CountUpTo(samples, v - 1));
    CountSort(samples, v);
    CountSort(samples, v - 1);
    CountSorted(s, v, k);
    CountSorted(s, v - 1, k);
  }
}
