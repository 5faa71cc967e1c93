/** Rebinning of a latency histogram: counts are gathered by latency, then merged into bins of one step. */
module Histogram {

  /** A line of the input: a latency, rounded to tenths of a microsecond, and how often it was seen. */
  datatype Row = Row(key: int, count: int)

  datatype Bin = Bin(start: int, val: int)

  datatype Result<T> = Ok(value: T) | NoData

  /** The bin width, 0.3 microseconds in tenths. */
  const STEP: int := 3

  // ----- What is in the input -----

  function Total(rows: seq<Row>): int {
    if rows == [] then 0 else Total(rows[..|rows| - 1]) + rows[|rows| - 1].count
  }

  /** The counts of all latencies from `lo` up to but not including `hi`. */
  function CountIn(rows: seq<Row>, lo: int, hi: int): int {
    if rows == [] then 0
    else
      var last := rows[|rows| - 1];
      CountIn(rows[..|rows| - 1], lo, hi) + if lo <= last.key < hi then last.count else 0
  }

  predicate HasKey(rows: seq<Row>, k: int) {
    exists i :: 0 <= i < |rows| && rows[i].key == k
  }

  lemma {:induction false} CountSplit(rows: seq<Row>, lo: int, mid: int, hi: int)
    requires lo <= mid <= hi
    ensures CountIn(rows, lo, hi) == CountIn(rows, lo, mid) + CountIn(rows, mid, hi)
  {
    if rows != [] {
      CountSplit(rows[..|rows| - 1], lo, mid, hi);
    }
  }

  lemma {:induction false} CountNothing(rows: seq<Row>, lo: int, hi: int)
    requires forall i | 0 <= i < |rows| :: !(lo <= rows[i].key < hi)
    ensures CountIn(rows, lo, hi) == 0
  {
    if rows != [] {
      CountNothing(rows[..|rows| - 1], lo, hi);
    }
  }

  lemma {:induction false} CountEverything(rows: seq<Row>, lo: int, hi: int)
    requires forall i | 0 <= i < |rows| :: lo <= rows[i].key < hi
    ensures CountIn(rows, lo, hi) == Total(rows)
  {
    if rows != [] {
      CountEverything(rows[..|rows| - 1], lo, hi);
    }
  }

  // ----- Gathering -----

  /** The table has exactly the latencies of the input, each with all its counts. */
  predicate IsTable(rows: seq<Row>, table: map<int, int>) {
    && (forall k | k in table :: HasKey(rows, k) && table[k] == CountIn(rows, k, k + 1))
    && forall i | 0 <= i < |rows| :: rows[i].key in table
  }

  lemma GatherOne(rows: seq<Row>, r: Row, table: map<int, int>)
    requires IsTable(rows, table)
    ensures IsTable(rows + [r], table[r.key := (if r.key in table then table[r.key] else 0) + r.count])
  {
    var more := rows + [r];
    assert more[..|more| - 1] == rows;
    if r.key !in table {
      CountNothing(rows, r.key, r.key + 1);
    }
    forall k | k in table || k == r.key
      ensures HasKey(more, k)
    {
      if k == r.key {
        assert more[|rows|].key == k;
      } else {
        var i :| 0 <= i < |rows| && rows[i].key == k;
        assert more[i].key == k;
      }
    }
  }

  /** The table, and its latencies in the order in which they came. */
  method Gather(rows: seq<Row>) returns (hashtab: map<int, int>, keys: seq<int>)
    ensures IsTable(rows, hashtab) && Distinct(keys) && forall x :: x in keys <==> x in hashtab
  {
    hashtab, keys := map[], [];
    var i := 0;
    while i < |rows|
      invariant 0 <= i <= |rows| && IsTable(rows[..i], hashtab)
      invariant Distinct(keys) && forall x :: x in keys <==> x in hashtab
    {
      GatherOne(rows[..i], rows[i], hashtab);
      assert rows[..i + 1] == rows[..i] + [rows[i]];
      if rows[i].key !in hashtab {
        keys := keys + [rows[i].key];
        hashtab := hashtab[rows[i].key := rows[i].count];
      } else {
        hashtab := hashtab[rows[i].key := hashtab[rows[i].key] + rows[i].count];
      }
      i := i + 1;
    }
    assert rows[..i] == rows;
  }

  predicate Distinct(ks: seq<int>) {
    forall i, j | 0 <= i < j < |ks| :: ks[i] != ks[j]
  }

  // ----- Sorting the latencies -----

  predicate Increasing(ks: seq<int>) {
    forall i, j | 0 <= i < j < |ks| :: ks[i] < ks[j]
  }

  method Insert(ks: seq<int>, x: int) returns (r: seq<int>)
    requires Increasing(ks) && x !in ks
    ensures Increasing(r) && forall y :: y in r <==> y in ks || y == x
  {
    var i := 0;
    while i < |ks| && ks[i] < x
      invariant 0 <= i <= |ks| && forall j | 0 <= j < i :: ks[j] < x
    {
      i := i + 1;
    }
    r := ks[..i] + [x] + ks[i..];
    assert forall y :: y in ks <==> y in ks[..i] || y in ks[i..];
  }

  method Sort(keys: seq<int>) returns (ks: seq<int>)
    requires Distinct(keys)
    ensures Increasing(ks) && forall x :: x in ks <==> x in keys
  {
    ks := [];
    var i := 0;
    while i < |keys|
      invariant 0 <= i <= |keys| && Increasing(ks)
      invariant forall y :: y in ks <==> y in keys[..i]
    {
      assert keys[..i + 1] == keys[..i] + [keys[i]];
      ks := Insert(ks, keys[i]);
      i := i + 1;
    }
    assert keys[..i] == keys;
  }

  // ----- Rebinning -----

  function Sum(bins: seq<Bin>): int {
    if bins == [] then 0 else Sum(bins[..|bins| - 1]) + bins[|bins| - 1].val
  }

  /** A bin counts exactly what the input has in its interval. */
  predicate Counts(rows: seq<Row>, b: Bin) {
    b.val == CountIn(rows, b.start, b.start + STEP)
  }

  /** No latency lies between the end of a bin and the start of the next. */
  predicate Follows(rows: seq<Row>, b: Bin, c: Bin) {
    b.start + STEP <= c.start && forall i | 0 <= i < |rows| :: !(b.start + STEP <= rows[i].key < c.start)
  }

  /**
   * The histogram of the input: the first bin starts at the least latency, each further one at the
   * least latency that the bins before do not hold, and every bin has all the counts of its interval.
   */
  predicate IsHistogram(rows: seq<Row>, bins: seq<Bin>) {
    && bins != []
    && (forall j | 0 <= j < |bins| :: HasKey(rows, bins[j].start) && Counts(rows, bins[j]))
    && (forall j | 0 <= j < |bins| - 1 :: Follows(rows, bins[j], bins[j + 1]))
    && forall i | 0 <= i < |rows| :: bins[0].start <= rows[i].key < bins[|bins| - 1].start + STEP
  }

  /** The loop has come to just before `next`: all bins but the last are closed. */
  ghost predicate Rebinned(rows: seq<Row>, bins: seq<Bin>, start: int, val: int, next: int) {
    && start < next <= start + STEP && HasKey(rows, start) && val == CountIn(rows, start, next)
    && (forall j | 0 <= j < |bins| :: HasKey(rows, bins[j].start) && Counts(rows, bins[j]))
    && (forall j | 0 <= j < |bins| - 1 :: Follows(rows, bins[j], bins[j + 1]))
    && (bins != [] ==> Follows(rows, bins[|bins| - 1], Bin(start, val)))
    && forall i | 0 <= i < |rows| :: (if bins == [] then start else bins[0].start) <= rows[i].key
  }

  /** One latency further: it belongs to the open bin or opens the next one. */
  lemma RebinOne(rows: seq<Row>, bins: seq<Bin>, start: int, val: int, next: int, k: int)
    requires Rebinned(rows, bins, start, val, next) && next <= k && HasKey(rows, k)
    requires forall i | 0 <= i < |rows| :: !(next <= rows[i].key < k)
    ensures k < start + STEP ==> Rebinned(rows, bins, start, val + CountIn(rows, k, k + 1), k + 1)
    ensures k >= start + STEP ==> Rebinned(rows, bins + [Bin(start, val)], k, CountIn(rows, k, k + 1), k + 1)
  {
    CountNothing(rows, next, k);
    if k < start + STEP {
      CountSplit(rows, start, next, k);
      CountSplit(rows, start, k, k + 1);
    } else {
      CountNothing(rows, next, start + STEP);
      CountSplit(rows, start, next, start + STEP);
    }
  }

  /** The last bin is written after the loop. */
  lemma CloseLast(rows: seq<Row>, bins: seq<Bin>, start: int, val: int, next: int)
    requires Rebinned(rows, bins, start, val, next)
    requires forall i | 0 <= i < |rows| :: rows[i].key < next
    ensures IsHistogram(rows, bins + [Bin(start, val)])
  {
    CountNothing(rows, next, start + STEP);
    CountSplit(rows, start, next, start + STEP);
  }

  /** `k` is the latencies of the table in increasing order. */
  ghost predicate SortedKeys(rows: seq<Row>, table: map<int, int>, k: seq<int>) {
    IsTable(rows, table) && Increasing(k) && forall x :: x in k <==> x in table
  }

  /** The loop before latency `i`. */
  ghost predicate Looping(rows: seq<Row>, k: seq<int>, i: nat, bins: seq<Bin>, start: int, val: int)
    requires i <= |k| && k != []
  {
    if i == 0 then start == k[0] && val == 0 && bins == [] else Rebinned(rows, bins, start, val, k[i - 1] + 1)
  }

  lemma KeyIndex(rows: seq<Row>, table: map<int, int>, k: seq<int>, n: nat) returns (j: nat)
    requires SortedKeys(rows, table, k) && n < |rows|
    ensures j < |k| && k[j] == rows[n].key
  {
    assert rows[n].key in table;
    assert rows[n].key in k;
    j :| 0 <= j < |k| && k[j] == rows[n].key;
  }

  lemma LoopNext(rows: seq<Row>, table: map<int, int>, k: seq<int>, i: nat, bins: seq<Bin>, start: int, val: int)
    requires SortedKeys(rows, table, k) && i < |k| && Looping(rows, k, i, bins, start, val)
    ensures k[i] in table
    ensures start <= k[i] < start + STEP ==> Looping(rows, k, i + 1, bins, start, val + table[k[i]])
    ensures !(start <= k[i] < start + STEP) ==> Looping(rows, k, i + 1, bins + [Bin(start, val)], k[i], table[k[i]])
  {
    assert k[i] in k;
    forall n | 0 <= n < |rows|
      ensures i == 0 ==> k[0] <= rows[n].key
      ensures i > 0 ==> !(k[i - 1] + 1 <= rows[n].key < k[i])
    {
      var j := KeyIndex(rows, table, k, n);
    }
    if i > 0 {
      RebinOne(rows, bins, start, val, k[i - 1] + 1, k[i]);
    }
  }

  lemma LoopEnds(rows: seq<Row>, table: map<int, int>, k: seq<int>, bins: seq<Bin>, start: int, val: int)
    requires SortedKeys(rows, table, k) && k != [] && Looping(rows, k, |k|, bins, start, val)
    ensures IsHistogram(rows, bins + [Bin(start, val)])
  {
    forall n | 0 <= n < |rows|
      ensures rows[n].key < k[|k| - 1] + 1
    {
      var j := KeyIndex(rows, table, k, n);
    }
    CloseLast(rows, bins, start, val, k[|k| - 1] + 1);
  }

  lemma KeysWhenRows(rows: seq<Row>, table: map<int, int>, k: seq<int>)
    requires SortedKeys(rows, table, k)
    ensures rows == [] <==> k == []
  {
    if k != [] {
      assert k[0] in k;
      assert HasKey(rows, k[0]);
    }
    if rows != [] {
      var j := KeyIndex(rows, table, k, 0);
    }
  }

  /** The bins of the input; without any line there is no first latency to start from. */
  method Rebin(rows: seq<Row>) returns (r: Result<seq<Bin>>)
    ensures r.NoData? <==> rows == []
    ensures r.Ok? ==> IsHistogram(rows, r.value)
  {
    var hashtab, keys := Gather(rows);
    var k := Sort(keys);
    KeysWhenRows(rows, hashtab, k);
    if |k| == 0 {
      return NoData;
    }
    var start, val, bins := k[0], 0, [];
    var i := 0;
    while i < |k|
      invariant 0 <= i <= |k| && Looping(rows, k, i, bins, start, val)
    {
      LoopNext(rows, hashtab, k, i, bins, start, val);
      if k[i] >= start && k[i] < start + STEP {
        val := val + hashtab[k[i]];
      } else {
        bins := bins + [Bin(start, val)];
        start := k[i];
        val := hashtab[k[i]];
      }
      i := i + 1;
    }
    LoopEnds(rows, hashtab, k, bins, start, val);
    bins := bins + [Bin(start, val)];
    r := Ok(bins);
  }

  // ----- What a histogram keeps of its input -----

  /** Up to the end of bin `j` the bins have all the counts. */
  lemma {:induction false} SumUpTo(rows: seq<Row>, bins: seq<Bin>, j: nat)
    requires IsHistogram(rows, bins) && j < |bins|
    ensures bins[0].start <= bins[j].start
    ensures Sum(bins[..j + 1]) == CountIn(rows, bins[0].start, bins[j].start + STEP)
  {
    assert bins[..j + 1][..j] == bins[..j];
    if j > 0 {
      SumUpTo(rows, bins, j - 1);
      assert Follows(rows, bins[j - 1], bins[j - 1 + 1]);
      CountNothing(rows, bins[j - 1].start + STEP, bins[j].start);
      CountSplit(rows, bins[0].start, bins[j - 1].start + STEP, bins[j].start);
      CountSplit(rows, bins[0].start, bins[j].start, bins[j].start + STEP);
    }
  }

  /** No count is lost or counted twice. */
  lemma CountsAreConserved(rows: seq<Row>, bins: seq<Bin>)
    requires IsHistogram(rows, bins)
    ensures Sum(bins) == Total(rows)
  {
    SumUpTo(rows, bins, |bins| - 1);
    assert bins[..|bins|] == bins;
    CountEverything(rows, bins[0].start, bins[|bins| - 1].start + STEP);
  }

  lemma {:induction false} StartsApart(rows: seq<Row>, bins: seq<Bin>, i: nat, j: nat)
    requires IsHistogram(rows, bins) && i < j < |bins|
    ensures bins[i].start + STEP <= bins[j].start
    decreases j
  {
    assert Follows(rows, bins[j - 1], bins[j - 1 + 1]);
    if i < j - 1 {
      StartsApart(rows, bins, i, j - 1);
    }
  }

  /** Every latency of the input is in one bin, and only one. */
  lemma InExactlyOneBin(rows: seq<Row>, bins: seq<Bin>, n: nat) returns (b: nat)
    requires IsHistogram(rows, bins) && n < |rows|
    ensures b < |bins| && bins[b].start <= rows[n].key < bins[b].start + STEP
    ensures forall j | 0 <= j < |bins| && bins[j].start <= rows[n].key < bins[j].start + STEP :: j == b
  {
    b := |bins| - 1;
    while rows[n].key < bins[b].start
      invariant b < |bins| && rows[n].key < bins[b].start + STEP
      decreases b
    {
      assert Follows(rows, bins[b - 1], bins[b - 1 + 1]);
      b := b - 1;
    }
    forall j | 0 <= j < |bins| && bins[j].start <= rows[n].key < bins[j].start + STEP
      ensures j == b
    {
      if j < b { StartsApart(rows, bins, j, b); }
      if b < j { StartsApart(rows, bins, b, j); }
    }
  }

  /** The input has only one histogram. */
  lemma {:induction false} SameBins(rows: seq<Row>, xs: seq<Bin>, ys: seq<Bin>, j: nat)
    requires IsHistogram(rows, xs) && IsHistogram(rows, ys) && j < |xs|
    ensures j < |ys| && xs[j] == ys[j]
  {
    assert HasKey(rows, xs[j].start);
    var i :| 0 <= i < |rows| && rows[i].key == xs[j].start;
    if j == 0 {
      assert HasKey(rows, ys[0].start);
      var m :| 0 <= m < |rows| && rows[m].key == ys[0].start;
      assert xs[0].start <= rows[m].key && ys[0].start <= rows[i].key;
    } else {
      SameBins(rows, xs, ys, j - 1);
      assert Follows(rows, xs[j - 1], xs[j - 1 + 1]);
      assert rows[i].key < ys[|ys| - 1].start + STEP;
      if j < |ys| {
        assert Follows(rows, ys[j - 1], ys[j - 1 + 1]);
        assert HasKey(rows, ys[j].start);
        var m :| 0 <= m < |rows| && rows[m].key == ys[j].start;
      }
    }
    assert Counts(rows, xs[j]) && Counts(rows, ys[j]);
  }

  lemma HistogramIsUnique(rows: seq<Row>, xs: seq<Bin>, ys: seq<Bin>)
    requires IsHistogram(rows, xs) && IsHistogram(rows, ys)
    ensures xs == ys
  {
    SameBins(rows, xs, ys, |xs| - 1);
    SameBins(rows, ys, xs, |ys| - 1);
    forall j | 0 <= j < |xs|
      ensures xs[j] == ys[j]
    {
      SameBins(rows, xs, ys, j);
    }
  }
}
