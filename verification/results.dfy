/** The shared bookkeeping of the HTTP/1.1 client (utils.py): one download
    attempt's record, the per-experiment summary, the default experiment
    list and the results document with its file name. */
module Results {
  import opened Wrappers
  import opened Stats
  import Sizes
  import Dicts
  import Seqs

  /** What one successful download attempt reports. `fileSize` is the
      declared `Content-Length` and may disagree with the bytes received;
      `totalAppData` is the length of the dumped response. */
  datatype Sample = Sample(
    transferTime: real,
    throughput: real,
    fileSize: int,
    totalAppData: nat,
    overheadRatio: real,
    headerSize: int)

  /** The per-experiment summary `process_experiment_results` returns. */
  datatype Summary = Summary(
    fileName: string,
    fileSizeBytes: int,
    repetitionsCompleted: nat,
    transferTime: Stat,
    throughputBps: Stat,
    overheadRatio: Stat,
    rawResults: seq<Sample>)

  function TransferTimes(rs: seq<Sample>): seq<real> {
    Seqs.Map((s: Sample) => s.transferTime, rs)
  }

  function Throughputs(rs: seq<Sample>): seq<real> {
    Seqs.Map((s: Sample) => s.throughput, rs)
  }

  function OverheadRatios(rs: seq<Sample>): seq<real> {
    Seqs.Map((s: Sample) => s.overheadRatio, rs)
  }

  /** `process_experiment_results(results, file_name)`: `None` for no
      results; otherwise the three metric summaries, the first result's
      declared size and the number of results. */
  function ProcessExperimentResults(results: seq<Sample>, fileName: string, sqrt: real -> real)
    : (r: Option<Summary>)
    ensures r.None? <==> |results| == 0
    ensures r.Some? ==>
      && r.value.fileName == fileName
      && r.value.fileSizeBytes == results[0].fileSize
      && r.value.repetitionsCompleted == |results|
      && r.value.rawResults == results
    ensures r.Some? ==> r.value.transferTime.mean == Average(TransferTimes(results))
    ensures r.Some? ==> r.value.throughputBps.mean == Average(Throughputs(results))
    ensures r.Some? ==> r.value.overheadRatio.mean == Average(OverheadRatios(results))
    ensures r.Some? && IsSqrt(sqrt) ==>
      0.0 <= r.value.transferTime.stddev && 0.0 <= r.value.throughputBps.stddev
      && 0.0 <= r.value.overheadRatio.stddev
  {
    if |results| == 0 then None
    else
      Some(Summary(
        fileName,
        results[0].fileSize,
        |results|,
        Calculate(TransferTimes(results), sqrt),
        Calculate(Throughputs(results), sqrt),
        Calculate(OverheadRatios(results), sqrt),
        results))
  }

  /** A single result is summarised as itself: every mean is that result's
      value and every standard deviation is 0. */
  lemma {:induction false} SingleResultSummary(s: Sample, fileName: string, sqrt: real -> real)
    ensures ProcessExperimentResults([s], fileName, sqrt)
      == Some(Summary(fileName, s.fileSize, 1,
                      Stat(s.transferTime, 0.0), Stat(s.throughput, 0.0),
                      Stat(s.overheadRatio, 0.0), [s]))
  {
  }

  /** Every metric summary of a non-empty result list is exactly
      `calculate_statistics` over that metric. */
  lemma {:induction false} SummaryIsStatistics(results: seq<Sample>, fileName: string, sqrt: real -> real)
    requires |results| > 0
    ensures var s := ProcessExperimentResults(results, fileName, sqrt).value;
      && s.transferTime == Calculate(TransferTimes(results), sqrt)
      && s.throughputBps == Calculate(Throughputs(results), sqrt)
      && s.overheadRatio == Calculate(OverheadRatios(results), sqrt)
  {
  }

  /** The successful outcomes among attempts `0 .. n - 1`, in attempt
      order: what a loop that skips failed attempts collects. */
  function Successes<T>(n: nat, attempt: nat -> Option<T>): (rs: seq<T>)
    ensures |rs| <= n
    ensures |rs| == n <==> forall i :: 0 <= i < n ==> attempt(i).Some?
  {
    if n == 0 then []
    else Successes(n - 1, attempt) + (if attempt(n - 1).Some? then [attempt(n - 1).value] else [])
  }

  /** Some attempt among `0 .. n - 1` succeeded. */
  ghost predicate AnySuccess<T>(n: nat, attempt: nat -> Option<T>) {
    exists i :: 0 <= i < n && attempt(i).Some?
  }

  /** Nothing is lost or invented: every successful attempt's outcome is
      kept and every kept outcome is some attempt's; none are kept exactly
      when no attempt succeeded. */
  lemma {:induction false} SuccessesKeepEverySuccess<T>(n: nat, attempt: nat -> Option<T>)
    ensures forall i :: 0 <= i < n && attempt(i).Some? ==> attempt(i).value in Successes(n, attempt)
    ensures forall s :: s in Successes(n, attempt) ==> exists i :: 0 <= i < n && attempt(i) == Some(s)
    ensures |Successes(n, attempt)| == 0 <==> !AnySuccess(n, attempt)
  {
    if n > 0 {
      SuccessesKeepEverySuccess(n - 1, attempt);
      var prev := Successes(n - 1, attempt);
      assert Successes(n, attempt) == prev + (if attempt(n - 1).Some? then [attempt(n - 1).value] else []);
      if |Successes(n, attempt)| == 0 {
        assert attempt(n - 1).None? && |prev| == 0;
        assert !AnySuccess(n, attempt);
      }
    }
  }

  /** Keeping the successes of `n + 1` attempts: those of the first `n`, then
      attempt `n`'s if it succeeded. */
  lemma {:induction false} SuccessesStep<T>(n: nat, attempt: nat -> Option<T>)
    ensures Successes(n + 1, attempt)
      == Successes(n, attempt) + (if attempt(n).Some? then [attempt(n).value] else [])
  {
  }

  /** One entry of the experiment list. */
  datatype Experiment = Experiment(size: string, repetitions: nat)

  /** `get_default_experiments()`. */
  function DefaultExperiments(): (es: seq<Experiment>)
    ensures |es| == 4
  {
    [Experiment("10kB", 1000), Experiment("100kB", 100),
     Experiment("1MB", 10), Experiment("10MB", 1)]
  }

  /** The default experiments walk the size labels smallest first, and each
      tenfold step in size cuts the repetitions tenfold, down to a single
      download of the largest file. */
  lemma DefaultExperimentsShape()
    ensures forall i :: 0 <= i < 4 ==> DefaultExperiments()[i].size == Sizes.Labels[i]
    ensures forall i :: 0 <= i < 3 ==>
      DefaultExperiments()[i].repetitions == 10 * DefaultExperiments()[i + 1].repetitions
    ensures DefaultExperiments()[3].repetitions == 1
  {
  }

  /** The key and file name of one experiment: `{prefix}_{size}`. */
  function FileName(filePrefix: string, e: Experiment): string {
    filePrefix + "_" + e.size
  }

  /** The key of every experiment, in list order. */
  function FileNames(filePrefix: string, exps: seq<Experiment>): seq<string> {
    Seqs.Map((e: Experiment) => FileName(filePrefix, e), exps)
  }

  /** The entry `files[names[j]] = outcome(j)`, run for `j` in `0 .. k - 1`
      and skipped when `outcome(j)` is `None`, leaves under `key`. */
  function Stored<T>(names: seq<string>, outcome: nat -> Option<T>, k: nat, key: string): Option<T>
    requires k <= |names|
  {
    if k == 0 then None
    else if names[k - 1] == key && outcome(k - 1).Some? then outcome(k - 1)
    else Stored(names, outcome, k - 1, key)
  }

  /** A key holds an entry exactly when some experiment of that name
      yielded one, and then it holds the LAST such experiment's: a later
      experiment of the same name overwrites an earlier one. */
  lemma {:induction false} StoredIsLast<T>(names: seq<string>, outcome: nat -> Option<T>, k: nat, key: string)
    requires k <= |names|
    ensures Stored(names, outcome, k, key).Some? <==>
      exists j :: 0 <= j < k && names[j] == key && outcome(j).Some?
    ensures Stored(names, outcome, k, key).Some? ==>
      exists j :: 0 <= j < k && names[j] == key && Stored(names, outcome, k, key) == outcome(j)
        && forall i :: j < i < k ==> names[i] != key || outcome(i).None?
  {
    if k > 0 {
      StoredIsLast(names, outcome, k - 1, key);
      if !(names[k - 1] == key && outcome(k - 1).Some?) && Stored(names, outcome, k, key).Some? {
        var j :| 0 <= j < k - 1 && names[j] == key && Stored(names, outcome, k - 1, key) == outcome(j)
          && forall i :: j < i < k - 1 ==> names[i] != key || outcome(i).None?;
        assert forall i :: j < i < k ==> names[i] != key || outcome(i).None?;
      }
    }
  }

  /** A dictionary that holds what the experiments stored has a key exactly
      when some experiment of that name yielded an entry, and that key holds
      one such experiment's entry. */
  lemma {:induction false} StoredKey<T>(names: seq<string>, outcome: nat -> Option<T>, k: nat, d: Dicts.Dict<string, T>, key: string)
    requires k <= |names|
    requires Dicts.Get(d, key) == Stored(names, outcome, k, key)
    ensures key in Dicts.Keys(d) <==> exists j :: 0 <= j < k && names[j] == key && outcome(j).Some?
    ensures key in Dicts.Keys(d) ==> exists j :: 0 <= j < k && names[j] == key && Dicts.Get(d, key) == outcome(j)
  {
    StoredIsLast(names, outcome, k, key);
  }

  /** One more pass of the loop: storing `outcome(k)` under `names[k]`
      when it is present, and touching nothing else, extends what the first
      `k` passes stored to the first `k + 1`. */
  lemma {:induction false} StoredStep<T>(names: seq<string>, outcome: nat -> Option<T>, k: nat,
                                         d: Dicts.Dict<string, T>, next: Dicts.Dict<string, T>)
    requires k < |names|
    requires forall key :: Dicts.Get(d, key) == Stored(names, outcome, k, key)
    requires forall key :: Dicts.Get(next, key) == (if key == names[k] && outcome(k).Some? then outcome(k) else Dicts.Get(d, key))
    ensures forall key :: Dicts.Get(next, key) == Stored(names, outcome, k + 1, key)
  {
  }

  /** After the experiment loop, a key holds an entry exactly when it is
      the file name of an experiment with a successful attempt, and that
      entry carries the key as its own name. `attempts(j)` are experiment
      `j`'s attempt outcomes; `nameOf` reads the name an entry carries. */
  lemma {:induction false} StoredExperiments<S, T>(filePrefix: string, exps: seq<Experiment>,
                                                   attempts: nat -> nat -> Option<S>, summaries: nat -> Option<T>,
                                                   nameOf: T -> string, d: Dicts.Dict<string, T>, key: string)
    requires forall j :: 0 <= j < |exps| ==> (summaries(j).Some? <==> AnySuccess(exps[j].repetitions, attempts(j)))
    requires forall j :: 0 <= j < |exps| && summaries(j).Some? ==>
      nameOf(summaries(j).value) == FileName(filePrefix, exps[j])
    requires Dicts.Get(d, key) == Stored(FileNames(filePrefix, exps), summaries, |exps|, key)
    ensures key in Dicts.Keys(d) <==>
      exists k :: 0 <= k < |exps| && AnySuccess(exps[k].repetitions, attempts(k)) && key == FileName(filePrefix, exps[k])
    ensures key in Dicts.Keys(d) ==> nameOf(Dicts.Get(d, key).value) == key
  {
    var names := FileNames(filePrefix, exps);
    StoredKey(names, summaries, |exps|, d, key);
    if key in Dicts.Keys(d) {
      var j :| 0 <= j < |exps| && names[j] == key && Dicts.Get(d, key) == summaries(j);
      assert AnySuccess(exps[j].repetitions, attempts(j)) && key == FileName(filePrefix, exps[j]);
    }
    if exists k :: 0 <= k < |exps| && AnySuccess(exps[k].repetitions, attempts(k)) && key == FileName(filePrefix, exps[k]) {
      var j :| 0 <= j < |exps| && AnySuccess(exps[j].repetitions, attempts(j)) && key == FileName(filePrefix, exps[j]);
      assert names[j] == key && summaries(j).Some?;
    }
  }

  /** An experiment has a summary exactly when one of its attempts
      succeeded. */
  lemma {:induction false} SummaryIffAnySuccess(n: nat, attempt: nat -> Option<Sample>, fileName: string, sqrt: real -> real)
    ensures ProcessExperimentResults(Successes(n, attempt), fileName, sqrt).Some? <==> AnySuccess(n, attempt)
  {
    SuccessesKeepEverySuccess(n, attempt);
  }

  /** The document a client saves. `files` maps `{prefix}_{size}` to that
      experiment's summary, in insertion order. */
  datatype ResultsData = ResultsData(
    protocol: string,
    server: string,
    filePrefix: string,
    timestamp: string,
    files: Dicts.Dict<string, Summary>)

  /** `initialize_results(protocol, server, file_prefix)`; the clock reading
      is the `timestamp` parameter. */
  function InitializeResults(protocol: string, server: string, filePrefix: string, timestamp: string)
    : (r: ResultsData)
    ensures r.protocol == protocol && r.server == server && r.filePrefix == filePrefix
    ensures r.timestamp == timestamp
    ensures Dicts.Keys(r.files) == []
  {
    ResultsData(protocol, server, filePrefix, timestamp, [])
  }

  /** `protocol.replace('/', '')`. */
  function StripSlashes(s: string): (r: string)
    ensures '/' !in r
    ensures forall c :: c != '/' ==> (c in r <==> c in s)
    ensures |r| <= |s|
    ensures '/' !in s ==> r == s
  {
    if |s| == 0 then ""
    else if s[0] == '/' then StripSlashes(s[1..])
    else [s[0]] + StripSlashes(s[1..])
  }

  /** Removing slashes from two pieces separately is removing them from the
      whole, so `replace` acts character by character. */
  lemma {:induction false} StripSlashesAppend(a: string, b: string)
    ensures StripSlashes(a + b) == StripSlashes(a) + StripSlashes(b)
  {
    if |a| > 0 {
      assert (a + b)[1..] == a[1..] + b;
      StripSlashesAppend(a[1..], b);
    } else {
      assert a + b == b;
    }
  }

  /** `save_results`' file name:
      `results_{prefix}_from_{server}_{protocol without '/'}.json`. */
  function ResultFileName(filePrefix: string, server: string, protocol: string): (name: string)
    ensures |name| == 20 + |filePrefix| + |server| + |StripSlashes(protocol)|
    ensures name[..8] == "results_" && name[|name| - 5..] == ".json"
    ensures name[8..8 + |filePrefix|] == filePrefix
    ensures name[8 + |filePrefix|..14 + |filePrefix|] == "_from_"
    ensures name[14 + |filePrefix|..14 + |filePrefix| + |server|] == server
    ensures name[14 + |filePrefix| + |server|] == '_'
    ensures name[15 + |filePrefix| + |server|..|name| - 5] == StripSlashes(protocol)
    ensures '/' !in filePrefix && '/' !in server ==> '/' !in name
  {
    var tail := "_" + StripSlashes(protocol) + ".json";
    var head := "results_" + filePrefix + "_from_" + server;
    assert head[..8] == "results_" && head[8..8 + |filePrefix|] == filePrefix;
    assert head[8 + |filePrefix|..14 + |filePrefix|] == "_from_";
    assert head[14 + |filePrefix|..] == server;
    head + tail
  }

  /** "HTTP/1.1" loses its one slash. */
  lemma StripHttp11()
    ensures StripSlashes("HTTP/1.1") == "HTTP1.1"
  {
    var a, b := "HTTP", "/1.1";
    assert a + b == "HTTP/1.1";
    StripSlashesAppend(a, b);
    DropLeadingSlash("1.1");
    assert '/' !in a && '/' !in "1.1";
    assert a + "1.1" == "HTTP1.1";
  }

  /** A leading slash is dropped. */
  lemma DropLeadingSlash(s: string)
    ensures StripSlashes("/" + s) == StripSlashes(s)
  {
    assert ("/" + s)[1..] == s;
  }

  /** The HTTP/1.1 client's file: "HTTP/1.1" is written as "HTTP1.1". */
  lemma Http11FileName(filePrefix: string, server: string)
    ensures ResultFileName(filePrefix, server, "HTTP/1.1")
      == "results_" + filePrefix + "_from_" + server + "_" + "HTTP1.1" + ".json"
  {
    StripHttp11();
  }
}
