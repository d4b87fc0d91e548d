/** Time bucketing as pandas does it in `groupby(t // w * w)[length].sum()`:
    the spike estimator uses 500 ms buckets, the visit guesser 1000 ms ones. */
module Buckets {

  /** The two columns a bucketing reads: a frame time (ms) and a length. */
  datatype Sample = Sample(time: int, length: int)

  /** `t // w * w`; for a positive width Dafny's `/` floors like Python's `//`. */
  function BucketOf(t: int, w: nat): (k: int)
    requires w > 0
    ensures k <= t < k + w
    ensures k % w == 0
  {
    var q := t / w;
    assert t == q * w + t % w;
    MultipleMod(q, w);
    q * w
  }

  lemma MultipleMod(q: int, w: nat)
    requires w > 0
    ensures (q * w) % w == 0
  {
    var k := q * w;
    var q', r := k / w, k % w;
    assert k == q' * w + r && 0 <= r < w;
    Distribute(q, q', w);
    assert (q - q') * w == r;
    if q - q' >= 1 {
      MulAtLeast(q - q', w);
    } else if q - q' <= -1 {
      MulAtLeast(q' - q, w);
      Distribute(q', q, w);
    }
  }

  lemma Distribute(a: int, b: int, w: int)
    ensures (a - b) * w == a * w - b * w
  {
  }

  lemma {:induction false} MulAtLeast(a: int, w: nat)
    requires a >= 1
    ensures a * w >= w
    decreases a
  {
    if a > 1 {
      MulAtLeast(a - 1, w);
      Distribute(a, 1, w);
    }
  }

  /** Every time in [k, k + w) falls in the aligned bucket k. */
  lemma BucketOfAligned(t: int, k: int, w: nat)
    requires w > 0 && k % w == 0 && k <= t < k + w
    ensures BucketOf(t, w) == k
  {
    var b := BucketOf(t, w);
    AlignedGap(b, k, w);
  }

  /** Aligned times that differ differ by at least `w`. */
  lemma AlignedGap(a: int, b: int, w: nat)
    requires w > 0 && a % w == 0 && b % w == 0
    ensures a == b || a + w <= b || b + w <= a
  {
    var qa, qb := a / w, b / w;
    assert a == qa * w;
    assert b == qb * w;
    Distribute(qa, qb, w);
    if qa - qb >= 1 {
      MulAtLeast(qa - qb, w);
    } else if qa - qb <= -1 {
      MulAtLeast(qb - qa, w);
      Distribute(qb, qa, w);
    }
  }

  /** The next aligned time after an aligned one is aligned. */
  lemma AlignedNext(lo: int, w: nat)
    requires w > 0 && lo % w == 0
    ensures (lo + w) % w == 0
  {
    var q := lo / w;
    assert lo == q * w;
    Distribute(q + 1, 1, w);
    MultipleMod(q + 1, w);
  }

  /** Total length of the samples whose time lies in [lo, hi). */
  function SumIn(s: seq<Sample>, lo: int, hi: int): int
  {
    if |s| == 0 then 0
    else SumIn(s[..|s| - 1], lo, hi) + (if lo <= s[|s| - 1].time < hi then s[|s| - 1].length else 0)
  }

  /** Total length of the samples that fall in bucket `k`. */
  function BucketSum(s: seq<Sample>, w: nat, k: int): int
    requires w > 0
  {
    if |s| == 0 then 0
    else BucketSum(s[..|s| - 1], w, k) + (if BucketOf(s[|s| - 1].time, w) == k then s[|s| - 1].length else 0)
  }

  /** The occupied buckets: the index of the grouped frame. */
  function Keys(s: seq<Sample>, w: nat): set<int>
    requires w > 0
  {
    set i | 0 <= i < |s| :: BucketOf(s[i].time, w)
  }

  /** The grouped sums: one entry per occupied bucket, holding its total length. */
  function Aggregate(s: seq<Sample>, w: nat): (m: map<int, int>)
    requires w > 0
    ensures m.Keys == Keys(s, w)
    ensures forall k :: k in m ==> m[k] == BucketSum(s, w, k)
  {
    if |s| == 0 then map[]
    else
      var prefix := s[..|s| - 1];
      var m := Aggregate(prefix, w);
      var k := BucketOf(s[|s| - 1].time, w);
      var old_k := if k in m then m[k] else 0;
      var m' := m[k := old_k + s[|s| - 1].length];
      KeysSnoc(s, w);
      assert m'.Keys == Keys(s, w);
      assert old_k == BucketSum(prefix, w, k) by {
        if k !in m {
          UnoccupiedBucketIsEmpty(prefix, w, k);
        }
      }
      assert forall k' :: k' in m' ==> m'[k'] == BucketSum(s, w, k') by {
        forall k' | k' in m' ensures m'[k'] == BucketSum(s, w, k') {
          assert BucketSum(s, w, k') == BucketSum(prefix, w, k') + (if k == k' then s[|s| - 1].length else 0);
        }
      }
      m'
  }

  lemma KeysSnoc(s: seq<Sample>, w: nat)
    requires w > 0 && |s| > 0
    ensures Keys(s, w) == Keys(s[..|s| - 1], w) + {BucketOf(s[|s| - 1].time, w)}
  {
    var prefix := s[..|s| - 1];
    forall k | k in Keys(s, w) ensures k in Keys(prefix, w) + {BucketOf(s[|s| - 1].time, w)} {
      var i :| 0 <= i < |s| && BucketOf(s[i].time, w) == k;
      if i < |s| - 1 {
        assert prefix[i] == s[i];
      }
    }
    forall k | k in Keys(prefix, w) ensures k in Keys(s, w) {
      var i :| 0 <= i < |prefix| && BucketOf(prefix[i].time, w) == k;
      assert s[i] == prefix[i];
    }
  }

  lemma {:induction false} UnoccupiedBucketIsEmpty(s: seq<Sample>, w: nat, k: int)
    requires w > 0 && k !in Keys(s, w)
    ensures BucketSum(s, w, k) == 0
  {
    if |s| > 0 {
      var prefix := s[..|s| - 1];
      KeysSnoc(s, w);
      UnoccupiedBucketIsEmpty(prefix, w, k);
    }
  }

  /** The sum of one bucket is the sum over its time window. */
  lemma {:induction false} BucketSumIsWindowSum(s: seq<Sample>, w: nat, k: int)
    requires w > 0 && k % w == 0
    ensures BucketSum(s, w, k) == SumIn(s, k, k + w)
  {
    if |s| > 0 {
      BucketSumIsWindowSum(s[..|s| - 1], w, k);
      var t := s[|s| - 1].time;
      if k <= t < k + w {
        BucketOfAligned(t, k, w);
      }
    }
  }

  /** A window sum splits at any point in between. */
  lemma {:induction false} SumInSplit(s: seq<Sample>, lo: int, mid: int, hi: int)
    requires lo <= mid <= hi
    ensures SumIn(s, lo, hi) == SumIn(s, lo, mid) + SumIn(s, mid, hi)
  {
    if |s| > 0 {
      SumInSplit(s[..|s| - 1], lo, mid, hi);
    }
  }

  /** The visit guesser's forward-volume loop: the sum of the grouped values
      at keys lo, lo + w, lo + 2w, ... strictly below hi (missing keys count 0). */
  function ForwardVolume(agg: map<int, int>, lo: int, hi: int, w: nat): int
    requires w > 0
    decreases hi - lo
  {
    if lo >= hi then 0
    else (if lo in agg then agg[lo] else 0) + ForwardVolume(agg, lo + w, hi, w)
  }

  /** Summing aligned buckets of the grouped frame over [lo, hi) is summing the
      lengths of the samples whose time lies in [lo, hi). */
  lemma {:induction false} ForwardVolumeIsWindowSum(s: seq<Sample>, lo: int, hi: int, w: nat)
    requires w > 0 && lo % w == 0 && hi % w == 0
    ensures ForwardVolume(Aggregate(s, w), lo, hi, w) == if lo < hi then SumIn(s, lo, hi) else 0
    decreases hi - lo
  {
    var agg := Aggregate(s, w);
    if lo < hi {
      AlignedGap(lo, hi, w);
      AlignedNext(lo, w);
      ForwardVolumeIsWindowSum(s, lo + w, hi, w);
      BucketSumIsWindowSum(s, w, lo);
      if lo !in agg {
        UnoccupiedBucketIsEmpty(s, w, lo);
      }
      if lo + w < hi {
        SumInSplit(s, lo, lo + w, hi);
      }
    }
  }
}
