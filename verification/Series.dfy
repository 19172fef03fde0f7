/** Downsampling of a property series to at most 1000 points. */
module Series {
  import opened Text

  const MAX_SERIES_POINTS := 1000
  const MAX_SERIES_KEYS := 5
  const MAX_SERIES_KEY_LENGTH := 128

  /** `series_stride`, for a row count. */
  function SeriesStride(total: nat): int {
    var stride := (total + MAX_SERIES_POINTS - 1) / MAX_SERIES_POINTS;
    if stride > 1 then stride else 1
  }

  /** How many of `total` rows have a row number with `(rn - 1) % stride == 0`. */
  function KeptCount(total: nat, stride: int): nat
    requires stride >= 1
  {
    if total == 0 then 0 else KeptCount(total - 1, stride) + (if (total - 1) % stride == 0 then 1 else 0)
  }

  lemma {:induction false} KeptCountIs(total: nat, stride: int)
    requires stride >= 1
    ensures KeptCount(total, stride) == (total + stride - 1) / stride
  {
    if total > 0 {
      KeptCountIs(total - 1, stride);
      CeilStep(total, stride);
    }
  }

  lemma CeilStep(total: int, stride: int)
    requires total >= 1 && stride >= 1
    ensures (total + stride - 1) / stride
            == (total - 1 + stride - 1) / stride + (if (total - 1) % stride == 0 then 1 else 0)
  {
    var q, r := (total - 1) / stride, (total - 1) % stride;
    assert total - 1 == q * stride + r;
    QuotientIs(total + stride - 1, stride, q + 1, r);
    if r == 0 {
      QuotientIs(total - 1 + stride - 1, stride, q, stride - 1);
    } else {
      QuotientIs(total - 1 + stride - 1, stride, q + 1, r - 1);
    }
  }

  lemma QuotientIs(a: int, b: int, q: int, r: int)
    requires b >= 1 && 0 <= r < b && a == q * b + r
    ensures a / b == q
  {
    var q', r' := a / b, a % b;
    assert a == q' * b + r' && (q - q') * b == r' - r;
    assert q - q' >= 1 ==> (q - q') * b >= b;
    assert q - q' <= -1 ==> (q - q') * b <= -b;
  }

  /** The rows that the query returns: the first of each stride, in order. */
  function Sample<T>(rows: seq<T>, stride: int): seq<T>
    requires stride >= 1
  {
    if rows == [] then []
    else
      Sample(rows[..|rows| - 1], stride) + (if (|rows| - 1) % stride == 0 then [rows[|rows| - 1]] else [])
  }

  function Limit<T>(rows: seq<T>, n: nat): seq<T> { if |rows| > n then rows[..n] else rows }

  lemma {:induction false} SampleCount<T>(rows: seq<T>, stride: int)
    requires stride >= 1
    ensures |Sample(rows, stride)| == KeptCount(|rows|, stride)
  {
    if rows != [] { SampleCount(rows[..|rows| - 1], stride); }
  }

  /** Kept rows are exactly a stride apart, beginning with the first. */
  lemma {:induction false} SampleAt<T>(rows: seq<T>, stride: int, i: nat)
    requires stride >= 1 && i < |Sample(rows, stride)|
    ensures 0 <= i * stride < |rows| && Sample(rows, stride)[i] == rows[i * stride]
  {
    var n := |rows| - 1;
    var before := Sample(rows[..n], stride);
    if i < |before| {
      SampleAt(rows[..n], stride, i);
    } else {
      SampleCount(rows[..n], stride);
      KeptCountIs(n, stride);
      assert n % stride == 0 && i == |before|;
      var q := n / stride;
      assert n == q * stride;
      QuotientIs(n + stride - 1, stride, q, stride - 1);
    }
  }

  lemma StrideFits(total: nat, stride: int)
    requires stride >= 1
    ensures KeptCount(total, stride) <= MAX_SERIES_POINTS <==> total <= MAX_SERIES_POINTS * stride
  {
    KeptCountIs(total, stride);
    CeilAtMost(total, stride, MAX_SERIES_POINTS);
  }

  /** Rounding up stays within `n` exactly when `n` steps cover the total. */
  lemma CeilAtMost(total: int, stride: int, n: int)
    requires stride >= 1
    ensures (total + stride - 1) / stride <= n <==> total <= n * stride
  {
    var k, r := (total + stride - 1) / stride, (total + stride - 1) % stride;
    assert total + stride - 1 == k * stride + r && 0 <= r < stride;
    if k <= n {
      TimesStep(k, n, stride);
    } else {
      TimesStep(n + 1, k, stride);
      assert (n + 1) * stride == n * stride + stride;
    }
  }

  lemma TimesStep(a: int, b: int, c: int)
    requires a <= b && c >= 0
    ensures a * c <= b * c
  {
  }

  /** The stride is the least step that keeps at most 1000 points, and downsampling is
      announced exactly when there are more rows than that. */
  lemma StrideIsLeast(total: nat)
    ensures var stride := SeriesStride(total);
            && stride >= 1 && KeptCount(total, stride) <= 1000
            && (forall step | 1 <= step < stride :: KeptCount(total, step) > 1000)
            && (stride > 1 <==> total > 1000)
  {
    var stride := SeriesStride(total);
    StrideFits(total, stride);
    forall step | 1 <= step < stride ensures KeptCount(total, step) > MAX_SERIES_POINTS {
      StrideFits(total, step);
    }
  }

  /** A matching row: its time and its id. Rows are numbered by time, then id. */
  datatype Row = Row(t: int, id: int)

  ghost predicate SortedByTime(rows: seq<Row>) { forall i, j | 0 <= i < j < |rows| :: rows[i].t <= rows[j].t }

  /** `ORDER BY t`: the sampled rows by time, those of one time in any order. */
  ghost predicate InTimeOrder(out: seq<Row>, sample: seq<Row>) {
    SortedByTime(out) && multiset(out) == multiset(sample)
  }

  lemma {:induction false} SampleSorted(rows: seq<Row>, stride: int)
    requires stride >= 1 && SortedByTime(rows)
    ensures SortedByTime(Sample(rows, stride))
    ensures forall i | 0 <= i < |Sample(rows, stride)| :: Sample(rows, stride)[i] in rows
  {
    if rows != [] {
      var n := |rows| - 1;
      SampleSorted(rows[..n], stride);
      assert rows == rows[..n] + [rows[n]];
    }
  }

  /** Sorted lists of the same rows show the same times. */
  lemma {:induction false} SameTimes(a: seq<Row>, b: seq<Row>, i: nat)
    requires SortedByTime(a) && SortedByTime(b) && multiset(a) == multiset(b) && i < |a|
    ensures |a| == |b| && a[i].t == b[i].t
  {
    assert |multiset(a)| == |multiset(b)|;
    NotEarlier(a, b, i);
    NotEarlier(b, a, i);
  }

  /** How many rows are no later than `t`. */
  function UpTo(rows: seq<Row>, t: int): nat {
    if rows == [] then 0 else UpTo(rows[..|rows| - 1], t) + (if rows[|rows| - 1].t <= t then 1 else 0)
  }

  lemma {:induction false} UpToSplit(a: seq<Row>, b: seq<Row>, t: int)
    ensures UpTo(a + b, t) == UpTo(a, t) + UpTo(b, t)
  {
    if b == [] {
      assert a + b == a;
    } else {
      UpToSplit(a, b[..|b| - 1], t);
      assert (a + b)[..|a + b| - 1] == a + b[..|b| - 1];
    }
  }

  function Without(rows: seq<Row>, j: nat): seq<Row>
    requires j < |rows|
  {
    rows[..j] + rows[j + 1..]
  }

  lemma WithoutOne(rows: seq<Row>, j: nat, t: int)
    requires j < |rows|
    ensures multiset(Without(rows, j)) == multiset(rows) - multiset{rows[j]}
    ensures UpTo(rows, t) == UpTo(Without(rows, j), t) + (if rows[j].t <= t then 1 else 0)
  {
    assert rows == rows[..j + 1] + rows[j + 1..] && rows[..j + 1] == rows[..j] + [rows[j]];
    UpToSplit(rows[..j + 1], rows[j + 1..], t);
    UpToSplit(rows[..j], rows[j + 1..], t);
    assert rows[..j + 1][..j] == rows[..j];
  }

  lemma {:induction false} UpToSame(a: seq<Row>, b: seq<Row>, t: int)
    requires multiset(a) == multiset(b)
    ensures UpTo(a, t) == UpTo(b, t)
  {
    if a == [] {
      assert |multiset(b)| == 0;
    } else {
      var n := |a| - 1;
      assert a[n] in multiset(b);
      var j :| 0 <= j < |b| && b[j] == a[n];
      WithoutOne(a, n, t);
      WithoutOne(b, j, t);
      assert Without(a, n) == a[..n];
      UpToSame(a[..n], Without(b, j), t);
    }
  }

  lemma {:induction false} UpToBound(rows: seq<Row>, t: int, n: nat)
    requires n <= |rows|
    ensures (forall i | 0 <= i < n :: rows[i].t <= t) ==> UpTo(rows, t) >= n
    ensures (forall i | n <= i < |rows| :: rows[i].t > t) ==> UpTo(rows, t) <= n
    decreases |rows|
  {
    if rows != [] {
      var m := |rows| - 1;
      if n <= m { UpToBound(rows[..m], t, n); } else { UpToBound(rows[..m], t, m); }
    }
  }

  /** An earlier time at a position would leave more rows up to it in one list. */
  lemma NotEarlier(a: seq<Row>, b: seq<Row>, i: nat)
    requires SortedByTime(a) && SortedByTime(b) && multiset(a) == multiset(b) && i < |a| == |b|
    ensures a[i].t >= b[i].t
  {
    UpToSame(a, b, a[i].t);
    UpToBound(a, a[i].t, i + 1);
    UpToBound(b, a[i].t, i);
  }

  ghost predicate DistinctTimes(rows: seq<Row>) { forall i, j | 0 <= i < j < |rows| :: rows[i].t != rows[j].t }

  /** Point `i` has the time of the row that is `i` strides after the first one, and is that
      row when no two rows have one time: rows of one time may change places. */
  ghost predicate PointAt(rows: seq<Row>, stride: int, points: seq<Row>, i: nat)
    requires i < |points|
  {
    && 0 <= i * stride < |rows| && points[i].t == rows[i * stride].t
    && (DistinctTimes(rows) ==> points[i] == rows[i * stride])
  }

  /** When the row count did not drift between the two queries, the LIMIT drops nothing; when
      it drifted, the response still holds at most 1000 points. They begin with the first time,
      and every point is a stride after the one before. */
  lemma SeriesResponse(rows: seq<Row>, counted: nat, out: seq<Row>)
    requires SortedByTime(rows) && InTimeOrder(out, Sample(rows, SeriesStride(counted)))
    ensures var stride := SeriesStride(counted);
            var points := Limit(out, 1000);
            && |points| <= 1000
            && (rows != [] ==> points != [])
            && (forall i: nat | i < |points| :: PointAt(rows, stride, points, i))
            && (counted == |rows| ==> points == out && |points| == KeptCount(|rows|, stride))
  {
    var stride := SeriesStride(counted);
    StrideIsLeast(counted);
    OutCount(rows, stride, out);
    PointsAt(rows, stride, out, Limit(out, MAX_SERIES_POINTS));
  }

  lemma PointsAt(rows: seq<Row>, stride: int, out: seq<Row>, points: seq<Row>)
    requires stride >= 1 && SortedByTime(rows) && InTimeOrder(out, Sample(rows, stride)) && points <= out
    ensures forall i: nat | i < |points| :: PointAt(rows, stride, points, i)
  {
    forall i: nat | i < |points| ensures PointAt(rows, stride, points, i) {
      OutAt(rows, stride, out, i);
      assert points[i] == out[i];
    }
  }

  lemma OutCount(rows: seq<Row>, stride: int, out: seq<Row>)
    requires stride >= 1 && InTimeOrder(out, Sample(rows, stride))
    ensures |out| == KeptCount(|rows|, stride) && (rows != [] ==> out != [])
  {
    SampleCount(rows, stride);
    assert |multiset(out)| == |multiset(Sample(rows, stride))|;
    if rows != [] { KeptPositive(|rows|, stride); }
  }

  lemma KeptPositive(total: nat, stride: int)
    requires total >= 1 && stride >= 1
    ensures KeptCount(total, stride) >= 1
  {
    KeptCountIs(total, stride);
    CeilPositive(total, stride);
  }

  lemma OutAt(rows: seq<Row>, stride: int, out: seq<Row>, i: nat)
    requires stride >= 1 && SortedByTime(rows) && InTimeOrder(out, Sample(rows, stride)) && i < |out|
    ensures PointAt(rows, stride, out, i)
  {
    var sample := Sample(rows, stride);
    SampleSorted(rows, stride);
    assert |multiset(out)| == |multiset(sample)|;
    SameTimes(out, sample, i);
    SampleAt(rows, stride, i);
    if DistinctTimes(rows) { PointIsRow(rows, sample, out, i, i * stride); }
  }

  lemma PointIsRow(rows: seq<Row>, sample: seq<Row>, out: seq<Row>, i: nat, k: nat)
    requires multiset(out) == multiset(sample) && forall j | 0 <= j < |sample| :: sample[j] in rows
    requires DistinctTimes(rows)
    requires i < |out| && k < |rows| && out[i].t == rows[k].t
    ensures out[i] == rows[k]
  {
    assert out[i] in multiset(sample);
    var j :| 0 <= j < |sample| && sample[j] == out[i];
    var m :| 0 <= m < |rows| && rows[m] == sample[j];
    assert m == k;
  }

  lemma CeilPositive(total: int, stride: int)
    requires total >= 1 && stride >= 1
    ensures (total + stride - 1) / stride >= 1
  {
    CeilAtMost(total, stride, 0);
  }

  // ----- The keys of a query -------------------------------------------------------------------

  predicate GoodKey(key: string) { 0 < |key| <= MAX_SERIES_KEY_LENGTH }

  /** The distinct keys in order of first occurrence. */
  function Distinct(keys: seq<string>): seq<string> {
    if keys == [] then []
    else
      var before := Distinct(keys[..|keys| - 1]);
      if keys[|keys| - 1] in before then before else before + [keys[|keys| - 1]]
  }

  lemma {:induction false} DistinctMeans(keys: seq<string>)
    ensures forall k :: k in Distinct(keys) <==> k in keys
    ensures forall i, j | 0 <= i < j < |Distinct(keys)| :: Distinct(keys)[i] != Distinct(keys)[j]
  {
    if keys != [] {
      DistinctMeans(keys[..|keys| - 1]);
      assert keys == keys[..|keys| - 1] + [keys[|keys| - 1]];
    }
  }

  /** The first position of a key. */
  function FirstAt(keys: seq<string>, key: string): (i: nat)
    requires key in keys
    ensures i < |keys| && keys[i] == key && key !in keys[..i]
  {
    if keys[0] == key then 0
    else
      assert keys == [keys[0]] + keys[1..];
      var i := 1 + FirstAt(keys[1..], key);
      assert keys[..i] == [keys[0]] + keys[1..][..i - 1];
      i
  }

  lemma FirstAtIs(keys: seq<string>, key: string, i: nat)
    requires i < |keys| && keys[i] == key && key !in keys[..i]
    ensures FirstAt(keys, key) == i
  {
  }

  /** The distinct keys come in the order of their first occurrences. */
  lemma {:induction false} DistinctInOrder(keys: seq<string>, i: nat, j: nat)
    requires i < j < |Distinct(keys)|
    ensures Distinct(keys)[i] in keys && Distinct(keys)[j] in keys
    ensures FirstAt(keys, Distinct(keys)[i]) < FirstAt(keys, Distinct(keys)[j])
  {
    DistinctMeans(keys);
    var n := |keys| - 1;
    var before := keys[..n];
    var a, b := Distinct(keys)[i], Distinct(keys)[j];
    DistinctMeans(before);
    FirstInPrefix(keys, n, a);
    if j < |Distinct(before)| {
      DistinctInOrder(before, i, j);
      FirstInPrefix(keys, n, b);
    } else {
      FirstAtIs(keys, b, n);
    }
  }

  lemma FirstInPrefix(keys: seq<string>, n: nat, key: string)
    requires n <= |keys| && key in keys[..n]
    ensures key in keys && FirstAt(keys, key) == FirstAt(keys[..n], key) < n
  {
    var i := FirstAt(keys[..n], key);
    assert keys[..n][..i] == keys[..i] && keys[i] == key;
    FirstAtIs(keys, key, i);
  }

  /** `normalize_series_keys`; None is 400 Bad Request. */
  method NormalizeSeriesKeys(keys: seq<string>) returns (r: Option<seq<string>>)
    ensures r.Some? <==> (forall i | 0 <= i < |keys| :: 1 <= |keys[i]| <= 128) && 1 <= |Distinct(keys)| <= 5
    ensures r.Some? ==> r.value == Distinct(keys)
  {
    var normalized := [];
    for i := 0 to |keys|
      invariant normalized == Distinct(keys[..i])
      invariant forall j | 0 <= j < i :: GoodKey(keys[j])
    {
      if keys[i] == "" || |keys[i]| > MAX_SERIES_KEY_LENGTH { return None; }
      assert keys[..i + 1][..i] == keys[..i];
      if keys[i] !in normalized { normalized := normalized + [keys[i]]; }
    }
    assert keys[..|keys|] == keys;
    if normalized == [] || |normalized| > MAX_SERIES_KEYS { return None; }
    return Some(normalized);
  }
}
