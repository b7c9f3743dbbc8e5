/** analyze.py's `merge_protocol_results`: the result files of one protocol
    (one dictionary from result key to metric summaries per file) become one
    map from size label to combined metric summaries. */
module Merge {
  import opened Wrappers
  import opened Stats
  import opened Sizes
  import Dicts
  import Seqs

  /** One parsed result file: result key to its three metric summaries. */
  type FileResults = Dicts.Dict<string, Metrics>

  /** `part` occurs in `key` starting at position `i`. */
  predicate OccursAt(key: string, part: string, i: int) {
    0 <= i <= |key| - |part| && key[i..i + |part|] == part
  }

  /** Python's `part in key` on strings: `part` occurs in `key` at some
      position (the empty string occurs everywhere). */
  function Contains(key: string, part: string): bool
    decreases |key|
  {
    if |part| > |key| then false
    else key[..|part|] == part || Contains(key[1..], part)
  }

  /** `Contains` finds exactly the occurrences of `part` in `key`. */
  lemma {:induction false} ContainsIff(key: string, part: string)
    ensures Contains(key, part) <==> exists i :: OccursAt(key, part, i)
    decreases |key|
  {
    if |part| <= |key| {
      if key[..|part|] == part {
        assert OccursAt(key, part, 0);
      } else {
        ContainsIff(key[1..], part);
        if Contains(key[1..], part) {
          var i :| OccursAt(key[1..], part, i);
          assert key[i + 1..i + 1 + |part|] == key[1..][i..i + |part|];
          assert OccursAt(key, part, i + 1);
        }
        if exists i :: OccursAt(key, part, i) {
          var i :| OccursAt(key, part, i);
          assert i != 0;
          assert key[1..][i - 1..i - 1 + |part|] == key[i..i + |part|];
          assert OccursAt(key[1..], part, i - 1);
        }
      }
    }
  }

  /** The `for key in result: if base_size in key` search: the value of the
      first key, in insertion order, that contains `base`. */
  function FirstContaining(f: FileResults, base: string): (r: Option<Metrics>)
    ensures r.None? <==> forall i :: 0 <= i < |f| ==> !Contains(f[i].0, base)
    ensures r.Some? ==> exists i :: 0 <= i < |f| && Contains(f[i].0, base) && r.value == f[i].1
                                   && forall j :: 0 <= j < i ==> !Contains(f[j].0, base)
  {
    if |f| == 0 then None
    else if Contains(f[0].0, base) then Some(f[0].1)
    else
      var r := FirstContaining(f[1..], base);
      assert forall j :: 1 <= j < |f| ==> f[j] == f[1..][j - 1];
      r
  }

  /** What one result file contributes for `name` of size `base`: its entry
      for `name` itself, else the first entry whose key contains `base`. */
  function Pick(f: FileResults, name: string, base: string): (r: Option<Metrics>)
    ensures name in Dicts.Keys(f) ==> r == Dicts.Get(f, name)
    ensures name !in Dicts.Keys(f) ==> r == FirstContaining(f, base)
    ensures r.None? <==> name !in Dicts.Keys(f) && forall i :: 0 <= i < |f| ==> !Contains(f[i].0, base)
    ensures r.Some? ==> exists i :: 0 <= i < |f| && r.value == f[i].1 && (f[i].0 == name || Contains(f[i].0, base))
  {
    if name in Dicts.Keys(f) then Dicts.Get(f, name) else FirstContaining(f, base)
  }

  /** What `pick` finds in each file, in file order, skipping files where
      it finds nothing. */
  function Gather(files: seq<FileResults>, pick: FileResults -> Option<Metrics>): (rs: seq<Metrics>)
    ensures |rs| <= |files|
    ensures forall m :: m in rs ==> exists i :: 0 <= i < |files| && pick(files[i]) == Some(m)
    ensures (exists i :: 0 <= i < |files| && pick(files[i]).Some?) ==> |rs| > 0
    ensures (forall i :: 0 <= i < |files| ==> pick(files[i]).Some?) ==>
      |rs| == |files| && forall i :: 0 <= i < |files| ==> Some(rs[i]) == pick(files[i])
  {
    if |files| == 0 then []
    else
      var rest := Gather(files[1..], pick);
      assert forall j :: 1 <= j < |files| ==> files[j] == files[1..][j - 1];
      var p := pick(files[0]);
      (if p.Some? then [p.value] else []) + rest
  }

  /** Gathering over two runs of files is gathering over the first, then
      over the second: the records keep the file order. */
  lemma {:induction false} GatherAppend(a: seq<FileResults>, b: seq<FileResults>, pick: FileResults -> Option<Metrics>)
    ensures Gather(a + b, pick) == Gather(a, pick) + Gather(b, pick)
    decreases |a|
  {
    if |a| == 0 {
      assert a + b == b;
    } else {
      assert (a + b)[1..] == a[1..] + b;
      GatherAppend(a[1..], b, pick);
      var h := if pick(a[0]).Some? then [pick(a[0]).value] else [];
      assert h + (Gather(a[1..], pick) + Gather(b, pick)) == h + Gather(a[1..], pick) + Gather(b, pick);
    }
  }

  /** One file contributes its pick, if it has one, and nothing else. */
  lemma {:induction false} GatherOne(f: FileResults, pick: FileResults -> Option<Metrics>)
    ensures Gather([f], pick) == if pick(f).Some? then [pick(f).value] else []
  {
    assert [f][1..] == [];
  }

  /** `Pick` for one name and size. */
  function Picker(name: string, base: string): FileResults -> Option<Metrics> {
    (f: FileResults) => Pick(f, name, base)
  }

  /** `size_results`: at most one record per result file, in file order. */
  function Collect(files: seq<FileResults>, name: string, base: string): (rs: seq<Metrics>)
    ensures |rs| <= |files|
    ensures forall m :: m in rs ==> exists i :: 0 <= i < |files| && Pick(files[i], name, base) == Some(m)
    ensures (exists i :: 0 <= i < |files| && Pick(files[i], name, base).Some?) ==> |rs| > 0
    ensures (forall i :: 0 <= i < |files| ==> Pick(files[i], name, base).Some?) ==>
      |rs| == |files| && forall i :: 0 <= i < |files| ==> Some(rs[i]) == Pick(files[i], name, base)
  {
    Gather(files, Picker(name, base))
  }

  /** Two runs of files collect the first run's records, then the
      second's. */
  lemma {:induction false} CollectAppend(a: seq<FileResults>, b: seq<FileResults>, name: string, base: string)
    ensures Collect(a + b, name, base) == Collect(a, name, base) + Collect(b, name, base)
  {
    GatherAppend(a, b, Picker(name, base));
  }

  /** One file contributes exactly its `Pick`, if any. */
  lemma {:induction false} CollectOne(f: FileResults, name: string, base: string)
    ensures Collect([f], name, base) == if Pick(f, name, base).Some? then [Pick(f, name, base).value] else []
  {
    GatherOne(f, Picker(name, base));
  }

  /** The values that are not 0, in order, each as often as it occurs: the
      zero sentinels are dropped. */
  function NonZero(xs: seq<real>): (r: seq<real>)
    ensures |r| <= |xs|
    ensures forall x :: x in r <==> x in xs && x != 0.0
    ensures |r| == 0 <==> forall i :: 0 <= i < |xs| ==> xs[i] == 0.0
  {
    if |xs| == 0 then []
    else
      var rest := NonZero(xs[1..]);
      assert forall x :: x in xs <==> x == xs[0] || x in xs[1..];
      (if xs[0] != 0.0 then [xs[0]] else []) + rest
  }

  /** Every non-zero value is kept exactly as often as it occurs, and no
      zero is kept. */
  lemma {:induction false} NonZeroCounts(xs: seq<real>)
    ensures multiset(NonZero(xs)) == multiset(xs)[0.0 := 0]
    decreases |xs|
  {
    if |xs| > 0 {
      var x, rest := xs[0], xs[1..];
      NonZeroCounts(rest);
      assert xs == [x] + rest;
      var m := multiset(rest);
      var h := if x != 0.0 then [x] else [];
      assert NonZero(xs) == h + NonZero(rest);
      var lhs, rhs := multiset(h) + m[0.0 := 0], (multiset([x]) + m)[0.0 := 0];
      forall y: real
        ensures lhs[y] == rhs[y]
      {
        if y != 0.0 && y == x {
          assert lhs[y] == 1 + m[y] == rhs[y];
        }
      }
      assert lhs == rhs;
    }
  }

  /** Dropping zeros from two runs is dropping them from each run. */
  lemma {:induction false} NonZeroAppend(xs: seq<real>, ys: seq<real>)
    ensures NonZero(xs + ys) == NonZero(xs) + NonZero(ys)
    decreases |xs|
  {
    if |xs| == 0 {
      assert xs + ys == ys;
    } else {
      assert (xs + ys)[1..] == xs[1..] + ys;
      NonZeroAppend(xs[1..], ys);
      var h := if xs[0] != 0.0 then [xs[0]] else [];
      assert h + (NonZero(xs[1..]) + NonZero(ys)) == h + NonZero(xs[1..]) + NonZero(ys);
    }
  }

  function Means(records: seq<Stat>): seq<real> {
    Seqs.Map((s: Stat) => s.mean, records)
  }

  function Stddevs(records: seq<Stat>): seq<real> {
    Seqs.Map((s: Stat) => s.stddev, records)
  }

  predicate AnyPositive(xs: seq<real>) {
    exists i :: 0 <= i < |xs| && xs[i] > 0.0
  }

  /** One metric's combination: the mean of the non-zero means, and the
      root mean square of the non-zero standard deviations when one of them
      is positive (else 0); `{0, 0}` when every mean is 0. */
  function MergeMetric(records: seq<Stat>, sqrt: real -> real): (r: Stat)
    ensures |NonZero(Means(records))| == 0 ==> r == Stat(0.0, 0.0)
    ensures |NonZero(Means(records))| > 0 ==> r.mean == Average(NonZero(Means(records)))
    ensures IsSqrt(sqrt) ==> 0.0 <= r.stddev
  {
    var means := NonZero(Means(records));
    var sds := NonZero(Stddevs(records));
    if |means| > 0 then
      var stddev := if |sds| > 0 && AnyPositive(sds) then RootMeanSquare(sds, sqrt) else 0.0;
      Stat(Average(means), stddev)
    else
      Stat(0.0, 0.0)
  }

  function TransferTimes(rs: seq<Metrics>): seq<Stat> {
    Seqs.Map((m: Metrics) => m.transferTime, rs)
  }

  function Throughputs(rs: seq<Metrics>): seq<Stat> {
    Seqs.Map((m: Metrics) => m.throughput, rs)
  }

  function OverheadRatios(rs: seq<Metrics>): seq<Stat> {
    Seqs.Map((m: Metrics) => m.overheadRatio, rs)
  }

  /** The three metrics of one size, each combined on its own: no records
      give `{0, 0}` three times, and no standard deviation is negative. */
  function MergeMetrics(rs: seq<Metrics>, sqrt: real -> real): (r: Metrics)
    ensures |rs| == 0 ==> r == Metrics(Stat(0.0, 0.0), Stat(0.0, 0.0), Stat(0.0, 0.0))
    ensures IsSqrt(sqrt) ==>
      0.0 <= r.transferTime.stddev && 0.0 <= r.throughput.stddev && 0.0 <= r.overheadRatio.stddev
    ensures (exists i :: 0 <= i < |rs| && rs[i].transferTime.mean != 0.0) ==>
      r.transferTime.mean == Average(NonZero(Means(TransferTimes(rs))))
    ensures (exists i :: 0 <= i < |rs| && rs[i].throughput.mean != 0.0) ==>
      r.throughput.mean == Average(NonZero(Means(Throughputs(rs))))
    ensures (exists i :: 0 <= i < |rs| && rs[i].overheadRatio.mean != 0.0) ==>
      r.overheadRatio.mean == Average(NonZero(Means(OverheadRatios(rs))))
  {
    Metrics(
      MergeMetric(TransferTimes(rs), sqrt),
      MergeMetric(Throughputs(rs), sqrt),
      MergeMetric(OverheadRatios(rs), sqrt))
  }

  /** When every contributing mean is 0 the metric is exactly `{0, 0}`,
      whatever the standard deviations. */
  lemma {:induction false} AllZeroMeans(records: seq<Stat>, sqrt: real -> real)
    requires forall i :: 0 <= i < |records| ==> records[i].mean == 0.0
    ensures MergeMetric(records, sqrt) == Stat(0.0, 0.0)
  {
  }

  /** The merged mean is the average of the non-zero means: their sum
      divided by their number. */
  lemma {:induction false} MergedMeanIsAverage(records: seq<Stat>, sqrt: real -> real)
    requires exists i :: 0 <= i < |records| && records[i].mean != 0.0
    ensures |NonZero(Means(records))| > 0
    ensures MergeMetric(records, sqrt).mean == Sum(NonZero(Means(records))) / |NonZero(Means(records))| as real
  {
    var i :| 0 <= i < |records| && records[i].mean != 0.0;
    var means := NonZero(Means(records));
    assert Means(records)[i] in means;
    assert MergeMetric(records, sqrt).mean == Average(means);
  }

  /** The merged mean lies between the smallest and the largest non-zero
      mean. */
  lemma {:induction false} MergedMeanWithinBounds(records: seq<Stat>, lo: real, hi: real, sqrt: real -> real)
    requires exists i :: 0 <= i < |records| && records[i].mean != 0.0
    requires forall i :: 0 <= i < |records| && records[i].mean != 0.0 ==> lo <= records[i].mean <= hi
    ensures lo <= MergeMetric(records, sqrt).mean <= hi
  {
    var means := NonZero(Means(records));
    MergedMeanIsAverage(records, sqrt);
    forall k | 0 <= k < |means|
      ensures lo <= means[k] <= hi
    {
      assert means[k] in Means(records);
      var i :| 0 <= i < |records| && Means(records)[i] == means[k];
    }
    AverageWithinBounds(means, lo, hi);
  }

  /** Without a positive standard deviation the combined one is 0. */
  lemma {:induction false} NoPositiveStddev(records: seq<Stat>, sqrt: real -> real)
    requires forall i :: 0 <= i < |records| ==> records[i].stddev <= 0.0
    ensures MergeMetric(records, sqrt).stddev == 0.0
  {
    var sds := NonZero(Stddevs(records));
    assert forall k :: 0 <= k < |sds| ==> sds[k] in Stddevs(records);
    assert !AnyPositive(sds);
  }

  /** A positive standard deviation among the records makes the combined
      one the root mean square of the non-zero ones: its square is the mean
      of their squares. */
  lemma {:induction false} PositiveStddevIsRms(records: seq<Stat>, sqrt: real -> real)
    requires IsSqrt(sqrt)
    requires exists i :: 0 <= i < |records| && records[i].mean != 0.0
    requires exists i :: 0 <= i < |records| && records[i].stddev > 0.0
    ensures var sds := NonZero(Stddevs(records));
      0.0 <= MergeMetric(records, sqrt).stddev
      && Mul(MergeMetric(records, sqrt).stddev, MergeMetric(records, sqrt).stddev) == SumSq(sds) / |sds| as real
  {
    var i :| 0 <= i < |records| && records[i].stddev > 0.0;
    var j :| 0 <= j < |records| && records[j].mean != 0.0;
    var means, sds := NonZero(Means(records)), NonZero(Stddevs(records));
    assert Means(records)[j] in means;
    assert Stddevs(records)[i] in sds;
    var k :| 0 <= k < |sds| && sds[k] == records[i].stddev;
    assert AnyPositive(sds);
    var r := RootMeanSquare(sds, sqrt);
    assert MergeMetric(records, sqrt).stddev == r;
  }

  /** A single record with a non-zero mean and a positive standard
      deviation comes through unchanged. */
  lemma {:induction false} SingleRecordUnchanged(s: Stat, sqrt: real -> real)
    requires IsSqrt(sqrt)
    requires s.mean != 0.0 && s.stddev > 0.0
    ensures MergeMetric([s], sqrt) == s
  {
    assert Means([s]) == [s.mean];
    assert NonZero([s.mean]) == [s.mean] by {
      assert NonZero([s.mean][1..]) == [];
    }
    assert Average([s.mean]) == s.mean by {
      assert Sum([s.mean]) == s.mean + Sum([]);
    }
    assert Stddevs([s]) == [s.stddev];
    assert NonZero([s.stddev]) == [s.stddev] by {
      assert NonZero([s.stddev][1..]) == [];
    }
    assert AnyPositive([s.stddev]);
    assert RootMeanSquare([s.stddev], sqrt) == s.stddev by {
      assert SumSq([s.stddev]) == Mul(s.stddev, s.stddev) + SumSq([]);
      RootOfSquare(sqrt, s.stddev);
    }
  }

  /** A 0 between two runs is dropped like any other. */
  lemma {:induction false} NonZeroSkipsZero(xs: seq<real>, ys: seq<real>)
    ensures NonZero(xs + [0.0] + ys) == NonZero(xs + ys)
  {
    NonZeroAppend(xs + [0.0], ys);
    NonZeroAppend(xs, [0.0]);
    NonZeroAppend(xs, ys);
    assert NonZero([0.0]) == [] by {
      assert NonZero([0.0][1..]) == [];
    }
  }

  /** The projections of records around a zero sentinel. */
  lemma {:induction false} SentinelProjections(a: seq<Stat>, b: seq<Stat>)
    ensures Means(a + [Stat(0.0, 0.0)] + b) == Means(a) + [0.0] + Means(b)
    ensures Stddevs(a + [Stat(0.0, 0.0)] + b) == Stddevs(a) + [0.0] + Stddevs(b)
  {
    var z := Stat(0.0, 0.0);
    Seqs.MapAppend((s: Stat) => s.mean, a + [z], b);
    Seqs.MapAppend((s: Stat) => s.mean, a, [z]);
    Seqs.MapAppend((s: Stat) => s.stddev, a + [z], b);
    Seqs.MapAppend((s: Stat) => s.stddev, a, [z]);
  }

  /** A zero sentinel record, wherever it stands among the records, does
      not change the combination. */
  lemma {:induction false} ZeroSentinelsIgnored(a: seq<Stat>, b: seq<Stat>, sqrt: real -> real)
    ensures MergeMetric(a + [Stat(0.0, 0.0)] + b, sqrt) == MergeMetric(a + b, sqrt)
  {
    SentinelProjections(a, b);
    Seqs.MapAppend((s: Stat) => s.mean, a, b);
    Seqs.MapAppend((s: Stat) => s.stddev, a, b);
    NonZeroSkipsZero(Means(a), Means(b));
    NonZeroSkipsZero(Stddevs(a), Stddevs(b));
  }

  /** The merged transfer time comes from the transfer time records alone: `{0, 0}` when
      all their means are 0, a 0 standard deviation when none of theirs is
      positive, and otherwise the root mean square of their non-zero ones. */
  lemma {:induction false} MergedTransferTime(rs: seq<Metrics>, sqrt: real -> real)
    ensures (forall i :: 0 <= i < |rs| ==> rs[i].transferTime.mean == 0.0) ==>
      MergeMetrics(rs, sqrt).transferTime == Stat(0.0, 0.0)
    ensures (forall i :: 0 <= i < |rs| ==> rs[i].transferTime.stddev <= 0.0) ==>
      MergeMetrics(rs, sqrt).transferTime.stddev == 0.0
    ensures (IsSqrt(sqrt)
        && (exists i :: 0 <= i < |rs| && rs[i].transferTime.mean != 0.0)
        && (exists i :: 0 <= i < |rs| && rs[i].transferTime.stddev > 0.0)) ==>
      var sds := NonZero(Stddevs(TransferTimes(rs)));
      var sd := MergeMetrics(rs, sqrt).transferTime.stddev;
      |sds| > 0 && Mul(sd, sd) == SumSq(sds) / |sds| as real
  {
    var records := TransferTimes(rs);
    if forall i :: 0 <= i < |rs| ==> rs[i].transferTime.mean == 0.0 {
      AllZeroMeans(records, sqrt);
    }
    if forall i :: 0 <= i < |rs| ==> rs[i].transferTime.stddev <= 0.0 {
      NoPositiveStddev(records, sqrt);
    }
    if IsSqrt(sqrt)
      && (exists i :: 0 <= i < |rs| && rs[i].transferTime.mean != 0.0)
      && (exists i :: 0 <= i < |rs| && rs[i].transferTime.stddev > 0.0)
    {
      var i :| 0 <= i < |rs| && rs[i].transferTime.stddev > 0.0;
      var j :| 0 <= j < |rs| && rs[j].transferTime.mean != 0.0;
      assert records[i].stddev > 0.0 && records[j].mean != 0.0;
      assert Stddevs(records)[i] in NonZero(Stddevs(records));
      PositiveStddevIsRms(records, sqrt);
    }
  }

  /** The merged throughput comes from the throughput records alone: `{0, 0}` when
      all their means are 0, a 0 standard deviation when none of theirs is
      positive, and otherwise the root mean square of their non-zero ones. */
  lemma {:induction false} MergedThroughput(rs: seq<Metrics>, sqrt: real -> real)
    ensures (forall i :: 0 <= i < |rs| ==> rs[i].throughput.mean == 0.0) ==>
      MergeMetrics(rs, sqrt).throughput == Stat(0.0, 0.0)
    ensures (forall i :: 0 <= i < |rs| ==> rs[i].throughput.stddev <= 0.0) ==>
      MergeMetrics(rs, sqrt).throughput.stddev == 0.0
    ensures (IsSqrt(sqrt)
        && (exists i :: 0 <= i < |rs| && rs[i].throughput.mean != 0.0)
        && (exists i :: 0 <= i < |rs| && rs[i].throughput.stddev > 0.0)) ==>
      var sds := NonZero(Stddevs(Throughputs(rs)));
      var sd := MergeMetrics(rs, sqrt).throughput.stddev;
      |sds| > 0 && Mul(sd, sd) == SumSq(sds) / |sds| as real
  {
    var records := Throughputs(rs);
    if forall i :: 0 <= i < |rs| ==> rs[i].throughput.mean == 0.0 {
      AllZeroMeans(records, sqrt);
    }
    if forall i :: 0 <= i < |rs| ==> rs[i].throughput.stddev <= 0.0 {
      NoPositiveStddev(records, sqrt);
    }
    if IsSqrt(sqrt)
      && (exists i :: 0 <= i < |rs| && rs[i].throughput.mean != 0.0)
      && (exists i :: 0 <= i < |rs| && rs[i].throughput.stddev > 0.0)
    {
      var i :| 0 <= i < |rs| && rs[i].throughput.stddev > 0.0;
      var j :| 0 <= j < |rs| && rs[j].throughput.mean != 0.0;
      assert records[i].stddev > 0.0 && records[j].mean != 0.0;
      assert Stddevs(records)[i] in NonZero(Stddevs(records));
      PositiveStddevIsRms(records, sqrt);
    }
  }

  /** The merged overhead ratio comes from the overhead ratio records alone: `{0, 0}` when
      all their means are 0, a 0 standard deviation when none of theirs is
      positive, and otherwise the root mean square of their non-zero ones. */
  lemma {:induction false} MergedOverheadRatio(rs: seq<Metrics>, sqrt: real -> real)
    ensures (forall i :: 0 <= i < |rs| ==> rs[i].overheadRatio.mean == 0.0) ==>
      MergeMetrics(rs, sqrt).overheadRatio == Stat(0.0, 0.0)
    ensures (forall i :: 0 <= i < |rs| ==> rs[i].overheadRatio.stddev <= 0.0) ==>
      MergeMetrics(rs, sqrt).overheadRatio.stddev == 0.0
    ensures (IsSqrt(sqrt)
        && (exists i :: 0 <= i < |rs| && rs[i].overheadRatio.mean != 0.0)
        && (exists i :: 0 <= i < |rs| && rs[i].overheadRatio.stddev > 0.0)) ==>
      var sds := NonZero(Stddevs(OverheadRatios(rs)));
      var sd := MergeMetrics(rs, sqrt).overheadRatio.stddev;
      |sds| > 0 && Mul(sd, sd) == SumSq(sds) / |sds| as real
  {
    var records := OverheadRatios(rs);
    if forall i :: 0 <= i < |rs| ==> rs[i].overheadRatio.mean == 0.0 {
      AllZeroMeans(records, sqrt);
    }
    if forall i :: 0 <= i < |rs| ==> rs[i].overheadRatio.stddev <= 0.0 {
      NoPositiveStddev(records, sqrt);
    }
    if IsSqrt(sqrt)
      && (exists i :: 0 <= i < |rs| && rs[i].overheadRatio.mean != 0.0)
      && (exists i :: 0 <= i < |rs| && rs[i].overheadRatio.stddev > 0.0)
    {
      var i :| 0 <= i < |rs| && rs[i].overheadRatio.stddev > 0.0;
      var j :| 0 <= j < |rs| && rs[j].overheadRatio.mean != 0.0;
      assert records[i].stddev > 0.0 && records[j].mean != 0.0;
      assert Stddevs(records)[i] in NonZero(Stddevs(records));
      PositiveStddevIsRms(records, sqrt);
    }
  }

  /** The result keys of every file, as a set (`all_file_sizes`). */
  function AllKeys(files: seq<FileResults>): (s: set<string>)
    ensures forall k :: k in s <==> exists i :: 0 <= i < |files| && k in Dicts.Keys(files[i])
  {
    if |files| == 0 then {}
    else
      var rest := AllKeys(files[1..]);
      assert forall j :: 1 <= j < |files| ==> files[j] == files[1..][j - 1];
      (set k | k in Dicts.Keys(files[0])) + rest
  }

  /** Every name paired with its size as `size` finds it, in order; the
      first failing name stops the run. With `SizeOfKey`, that is a name whose
      size is neither a label nor a known byte count, whose lookup raises a
      `KeyError` nothing catches. */
  function SizeAll(names: seq<string>, size: string -> Result<string>): (r: Result<seq<(string, string)>>)
    ensures r.Success? <==> forall i :: 0 <= i < |names| ==> size(names[i]).Success?
    ensures r.Success? ==>
      && |r.value| == |names|
      && forall i :: 0 <= i < |names| ==> r.value[i] == (names[i], size(names[i]).value)
  {
    if |names| == 0 then Success([])
    else
      assert forall j :: 1 <= j < |names| ==> names[j] == names[1..][j - 1];
      match size(names[0])
      case Failure(e) => Failure(e)
      case Success(base) =>
        match SizeAll(names[1..], size)
        case Failure(e) => Failure(e)
        case Success(rest) => Success([(names[0], base)] + rest)
  }

  /** The records a name collects from the files: `collect(name, size)`. */
  function Collector(files: seq<FileResults>): (string, string) -> seq<Metrics> {
    (name: string, base: string) => Collect(files, name, base)
  }

  /** The body of the `for file_name in all_file_sizes` loop, run over the
      sized names in order, where `collect` gathers a name's records: a name that collected records sets its size's
      entry, so a later name of the same size overwrites an earlier one. The
      records are kept here and combined once at the end, which gives the
      same values as combining them at each step. */
  function GroupSized(collect: (string, string) -> seq<Metrics>, sized: seq<(string, string)>, groups: map<string, seq<Metrics>>)
    : map<string, seq<Metrics>>
    decreases |sized|
  {
    if |sized| == 0 then groups
    else
      var rs := collect(sized[0].0, sized[0].1);
      GroupSized(collect, sized[1..], if |rs| == 0 then groups else groups[sized[0].1 := rs])
  }

  /** The step `GroupSized` takes for the first sized name. */
  function NextGroups(collect: (string, string) -> seq<Metrics>, sized: seq<(string, string)>, groups: map<string, seq<Metrics>>)
    : map<string, seq<Metrics>>
    requires |sized| > 0
  {
    var rs := collect(sized[0].0, sized[0].1);
    if |rs| == 0 then groups else groups[sized[0].1 := rs]
  }

  /** The grouped sizes are those already grouped plus the size of every
      name that collected at least one record. */
  lemma {:induction false} GroupSizedKeys(
    collect: (string, string) -> seq<Metrics>, sized: seq<(string, string)>, groups: map<string, seq<Metrics>>)
    ensures forall b :: b in GroupSized(collect, sized, groups) <==>
      b in groups || exists i :: 0 <= i < |sized| && sized[i].1 == b && |collect(sized[i].0, b)| > 0
    decreases |sized|
  {
    if |sized| > 0 {
      var next := NextGroups(collect, sized, groups);
      GroupSizedKeys(collect, sized[1..], next);
      assert forall j :: 1 <= j < |sized| ==> sized[j] == sized[1..][j - 1];
    }
  }

  /** A size no name has keeps its group. */
  lemma {:induction false} GroupSizedUntouched(
    collect: (string, string) -> seq<Metrics>, sized: seq<(string, string)>, groups: map<string, seq<Metrics>>, b: string)
    requires b in groups
    requires forall i :: 0 <= i < |sized| ==> sized[i].1 != b
    ensures b in GroupSized(collect, sized, groups)
    ensures GroupSized(collect, sized, groups)[b] == groups[b]
    decreases |sized|
  {
    if |sized| > 0 {
      var next := NextGroups(collect, sized, groups);
      assert forall j :: 0 <= j < |sized[1..]| ==> sized[1..][j] == sized[j + 1];
      GroupSizedUntouched(collect, sized[1..], next, b);
    }
  }

  /** `GroupSized` takes the step for the first name, then goes on. */
  lemma {:induction false} GroupSizedStep(collect: (string, string) -> seq<Metrics>, sized: seq<(string, string)>, groups: map<string, seq<Metrics>>)
    requires |sized| > 0
    ensures GroupSized(collect, sized, groups) == GroupSized(collect, sized[1..], NextGroups(collect, sized, groups))
  {
  }

  /** The last name of a size decides that size's group. */
  lemma {:induction false} GroupSizedLastWins(
    collect: (string, string) -> seq<Metrics>, sized: seq<(string, string)>, groups: map<string, seq<Metrics>>, i: nat)
    requires i < |sized| && |collect(sized[i].0, sized[i].1)| > 0
    requires forall j :: i < j < |sized| ==> sized[j].1 != sized[i].1
    ensures sized[i].1 in GroupSized(collect, sized, groups)
    ensures GroupSized(collect, sized, groups)[sized[i].1] == collect(sized[i].0, sized[i].1)
    decreases |sized|
  {
    var next := NextGroups(collect, sized, groups);
    var rest := sized[1..];
    GroupSizedStep(collect, sized, groups);
    if i == 0 {
      assert next == groups[sized[0].1 := collect(sized[0].0, sized[0].1)];
      assert forall j :: 0 <= j < |rest| ==> rest[j].1 != sized[0].1 by {
        assert forall j :: 0 <= j < |rest| ==> rest[j] == sized[j + 1];
      }
      GroupSizedUntouched(collect, rest, next, sized[0].1);
    } else {
      var c := collect(sized[i].0, sized[i].1);
      assert rest[i - 1] == sized[i];
      assert |collect(rest[i - 1].0, rest[i - 1].1)| > 0 by {
        assert collect(rest[i - 1].0, rest[i - 1].1) == c;
      }
      assert forall j :: i - 1 < j < |rest| ==> rest[j].1 != rest[i - 1].1 by {
        assert forall j :: i - 1 < j < |rest| ==> rest[j] == sized[j + 1];
      }
      GroupSizedLastWins(collect, rest, next, i - 1);
    }
  }

  /** Groups only ever form under the sizes the names carry. */
  lemma {:induction false} GroupsAreLabels(collect: (string, string) -> seq<Metrics>, sized: seq<(string, string)>)
    requires forall i :: 0 <= i < |sized| ==> sized[i].1 in Labels
    ensures forall b :: b in GroupSized(collect, sized, map[]) ==> b in Labels
  {
    GroupSizedKeys(collect, sized, map[]);
  }

  /** `merge_protocol_results(file_results)`; Python's iteration order over
      the set of result keys is `enumerate`. */
  function MergeProtocolResults(files: seq<FileResults>, enumerate: set<string> -> seq<string>, sqrt: real -> real)
    : (r: Result<map<string, Metrics>>)
    ensures |files| == 0 ==> r == Success(map[])
    ensures r.Success? ==> forall b :: b in r.value ==> b in Labels
  {
    if |files| == 0 then Success(map[])
    else
      match SizeAll(enumerate(AllKeys(files)), SizeOfKey)
      case Failure(e) => Failure(e)
      case Success(sized) =>
        var groups := GroupSized(Collector(files), sized, map[]);
        GroupsAreLabels(Collector(files), sized);
        Success(map b | b in groups :: MergeMetrics(groups[b], sqrt))
  }

  /** The last position in `sized` whose size is `b`. */
  function LastOfSize(sized: seq<(string, string)>, b: string): (i: nat)
    requires exists i :: 0 <= i < |sized| && sized[i].1 == b
    ensures i < |sized| && sized[i].1 == b
    ensures forall j :: i < j < |sized| ==> sized[j].1 != b
  {
    var n := |sized| - 1;
    if sized[n].1 == b then n
    else
      var front := sized[..n];
      assert forall j :: 0 <= j < n ==> front[j] == sized[j];
      LastOfSize(front, b)
  }

  /** A name found in some file collects at least that file's own record. */
  lemma CollectFindsName(files: seq<FileResults>, i: nat, name: string, base: string)
    requires i < |files| && name in Dicts.Keys(files[i])
    ensures |Collect(files, name, base)| > 0
  {
    assert Pick(files[i], name, base).Some?;
  }

  /** A result key of a known size puts that size into the groups. */
  lemma KeyIsGrouped(files: seq<FileResults>, names: seq<string>, sized: seq<(string, string)>, k: string, b: string)
    requires SizeAll(names, SizeOfKey) == Success(sized)
    requires k in names && k in AllKeys(files) && SizeOfKey(k) == Success(b)
    ensures b in GroupSized(Collector(files), sized, map[])
  {
    var j :| 0 <= j < |names| && names[j] == k;
    var i :| 0 <= i < |files| && k in Dicts.Keys(files[i]);
    CollectFindsName(files, i, k, b);
    assert sized[j] == (k, b);
    GroupSizedKeys(Collector(files), sized, map[]);
  }

  /** With Python's set iteration, the names iterated are exactly the
      result keys. */
  lemma {:induction false} NamesAreKeys(files: seq<FileResults>, enumerate: set<string> -> seq<string>)
    requires Dicts.IsEnumeration(enumerate)
    ensures forall k :: k in enumerate(AllKeys(files)) <==> k in AllKeys(files)
  {
  }

  /** The merge fails exactly when some result key's size component is
      neither a label nor one of the byte counts. */
  lemma {:induction false} MergeFailsOnUnknownSize(files: seq<FileResults>, enumerate: set<string> -> seq<string>, sqrt: real -> real)
    requires Dicts.IsEnumeration(enumerate)
    ensures MergeProtocolResults(files, enumerate, sqrt).Failure?
      <==> exists k :: k in AllKeys(files) && SizeOfKey(k).Failure?
  {
    if |files| > 0 {
      var names := enumerate(AllKeys(files));
      NamesAreKeys(files, enumerate);
      if SizeAll(names, SizeOfKey).Failure? {
        var j :| 0 <= j < |names| && SizeOfKey(names[j]).Failure?;
        assert names[j] in AllKeys(files);
      } else {
        forall k | k in AllKeys(files)
          ensures SizeOfKey(k).Success?
        {
          assert k in names;
        }
      }
    }
  }

  /** Every group's size is the size of some result key. */
  lemma GroupedSizeHasKey(files: seq<FileResults>, names: seq<string>, sized: seq<(string, string)>, b: string)
    requires SizeAll(names, SizeOfKey) == Success(sized)
    requires forall k :: k in names ==> k in AllKeys(files)
    requires b in GroupSized(Collector(files), sized, map[])
    ensures exists k :: k in AllKeys(files) && SizeOfKey(k) == Success(b)
  {
    GroupSizedKeys(Collector(files), sized, map[]);
    var j :| 0 <= j < |sized| && sized[j].1 == b && |Collector(files)(sized[j].0, b)| > 0;
    assert sized[j] == (names[j], SizeOfKey(names[j]).value);
    assert names[j] in names;
  }

  /** The groups form under exactly the sizes of the result keys. */
  lemma GroupsAreKeySizes(files: seq<FileResults>, names: seq<string>, sized: seq<(string, string)>)
    requires SizeAll(names, SizeOfKey) == Success(sized)
    requires forall k :: k in names <==> k in AllKeys(files)
    ensures forall b :: b in GroupSized(Collector(files), sized, map[]) <==>
      exists k :: k in AllKeys(files) && SizeOfKey(k) == Success(b)
  {
    forall b | exists k :: k in AllKeys(files) && SizeOfKey(k) == Success(b)
      ensures b in GroupSized(Collector(files), sized, map[])
    {
      var k :| k in AllKeys(files) && SizeOfKey(k) == Success(b);
      KeyIsGrouped(files, names, sized, k, b);
    }
    forall b | b in GroupSized(Collector(files), sized, map[])
      ensures exists k :: k in AllKeys(files) && SizeOfKey(k) == Success(b)
    {
      GroupedSizeHasKey(files, names, sized, b);
    }
  }

  /** A successful merge has an entry for exactly the sizes of the result
      keys. */
  lemma {:induction false} MergedSizesAreKeySizes(files: seq<FileResults>, enumerate: set<string> -> seq<string>, sqrt: real -> real)
    requires Dicts.IsEnumeration(enumerate)
    ensures var r := MergeProtocolResults(files, enumerate, sqrt);
      r.Success? ==> forall b :: b in r.value <==> exists k :: k in AllKeys(files) && SizeOfKey(k) == Success(b)
  {
    if |files| > 0 && SizeAll(enumerate(AllKeys(files)), SizeOfKey).Success? {
      var names := enumerate(AllKeys(files));
      NamesAreKeys(files, enumerate);
      var sized := SizeAll(names, SizeOfKey).value;
      var groups := GroupSized(Collector(files), sized, map[]);
      assert MergeProtocolResults(files, enumerate, sqrt).value.Keys == groups.Keys;
      GroupsAreKeySizes(files, names, sized);
    }
  }

  /** The group of a size is what the last name of that size collected. */
  lemma LastKeyDecides(files: seq<FileResults>, names: seq<string>, sized: seq<(string, string)>, b: string)
    returns (k: string)
    requires SizeAll(names, SizeOfKey) == Success(sized)
    requires forall k :: k in names ==> k in AllKeys(files)
    requires b in GroupSized(Collector(files), sized, map[])
    ensures k in AllKeys(files) && SizeOfKey(k) == Success(b)
    ensures GroupSized(Collector(files), sized, map[])[b] == Collect(files, k, b)
  {
    GroupSizedKeys(Collector(files), sized, map[]);
    var j := LastOfSize(sized, b);
    k := sized[j].0;
    assert names[j] == k && k in AllKeys(files);
    var i :| 0 <= i < |files| && k in Dicts.Keys(files[i]);
    CollectFindsName(files, i, k, b);
    GroupSizedLastWins(Collector(files), sized, map[], j);
  }

  /** Each group holds what one result key of its size (the last one
      iterated) collected. */
  lemma GroupsAreCollections(files: seq<FileResults>, names: seq<string>, sized: seq<(string, string)>)
    requires SizeAll(names, SizeOfKey) == Success(sized)
    requires forall k :: k in names ==> k in AllKeys(files)
    ensures var groups := GroupSized(Collector(files), sized, map[]);
      forall b :: b in groups ==>
        exists k :: k in AllKeys(files) && SizeOfKey(k) == Success(b) && groups[b] == Collect(files, k, b)
  {
    var groups := GroupSized(Collector(files), sized, map[]);
    forall b | b in groups
      ensures exists k :: k in AllKeys(files) && SizeOfKey(k) == Success(b) && groups[b] == Collect(files, k, b)
    {
      var k := LastKeyDecides(files, names, sized, b);
    }
  }

  /** Each merged size holds the combination of the records that one of its
      result keys (the last one iterated) collected. */
  lemma {:induction false} MergedValuesAreCombinations(files: seq<FileResults>, enumerate: set<string> -> seq<string>, sqrt: real -> real)
    requires Dicts.IsEnumeration(enumerate)
    ensures var r := MergeProtocolResults(files, enumerate, sqrt);
      r.Success? ==> forall b :: b in r.value ==>
        exists k :: k in AllKeys(files) && SizeOfKey(k) == Success(b)
                    && r.value[b] == MergeMetrics(Collect(files, k, b), sqrt)
  {
    if |files| > 0 && SizeAll(enumerate(AllKeys(files)), SizeOfKey).Success? {
      var names := enumerate(AllKeys(files));
      NamesAreKeys(files, enumerate);
      var sized := SizeAll(names, SizeOfKey).value;
      var groups := GroupSized(Collector(files), sized, map[]);
      var m := MergeProtocolResults(files, enumerate, sqrt).value;
      assert m == map b | b in groups :: MergeMetrics(groups[b], sqrt);
      GroupsAreCollections(files, names, sized);
      forall b | b in m
        ensures exists k :: k in AllKeys(files) && SizeOfKey(k) == Success(b)
                            && m[b] == MergeMetrics(Collect(files, k, b), sqrt)
      {
        var k :| k in AllKeys(files) && SizeOfKey(k) == Success(b) && groups[b] == Collect(files, k, b);
      }
    }
  }
}
