/** The HTTP/1.1 client class (http1.1/client.py): guarded metric
    arithmetic per download, experiments that skip failed downloads, and the
    results document keyed by `{prefix}_{size}`. The exchange of one
    download is the same input value as for the first client. */
module Http11Client {
  import opened Wrappers
  import opened Stats
  import opened Results
  import Dicts
  import Http1Client

  type Exchange = Http1Client.Exchange

  const ProtocolName := "HTTP/1.1"

  /** `HTTP11Client.download_file`: a failed request or a `Content-Length`
      that is not an integer gives `None`; a missing one counts as 0. The
      throughput is in bits per second and is 0 for a non-positive transfer
      time; the overhead ratio is 0 for a non-positive size. */
  function DownloadFile(x: Exchange): (r: Option<Sample>)
    ensures r.Some? <==> x.Completed? && !x.contentLength.Malformed?
    ensures r.Some? ==>
      var s := r.value;
      && s.transferTime == x.end - x.start
      && s.fileSize == (if x.contentLength.Declared? then x.contentLength.n else 0)
      && s.totalAppData == x.dumpLength
      && s.headerSize + s.fileSize == s.totalAppData
      && (s.transferTime > 0.0 ==> Mul(s.throughput, s.transferTime) == 8.0 * s.fileSize as real)
      && (s.transferTime <= 0.0 ==> s.throughput == 0.0)
      && (s.fileSize > 0 ==> Mul(s.overheadRatio, s.fileSize as real) == s.totalAppData as real)
      && (s.fileSize <= 0 ==> s.overheadRatio == 0.0)
  {
    match x
    case Failed => None
    case Completed(start, end, dumpLength, contentLength) =>
      if contentLength.Malformed? then None
      else
        var transferTime := end - start;
        var fileSize := if contentLength.Declared? then contentLength.n else 0;
        var throughput := if transferTime > 0.0 then fileSize as real * 8.0 / transferTime else 0.0;
        var overheadRatio := if fileSize > 0 then dumpLength as real / fileSize as real else 0.0;
        Some(Sample(transferTime, throughput, fileSize, dumpLength, overheadRatio,
                    dumpLength - fileSize))
  }

  /** Attempt `i`'s outcome is the download of exchange `download(i)`. */
  function Outcomes(download: nat -> Exchange): nat -> Option<Sample> {
    (i: nat) => DownloadFile(download(i))
  }

  /** `run_experiment(file_name, repetitions)`: attempt `i` is
      `download(i)`; failures are skipped. */
  method RunExperiment(fileName: string, repetitions: nat, download: nat -> Exchange, sqrt: real -> real)
    returns (summary: Option<Summary>)
    ensures summary.None? <==> !AnySuccess(repetitions, Outcomes(download))
    ensures summary == ProcessExperimentResults(Successes(repetitions, Outcomes(download)), fileName, sqrt)
  {
    var results: seq<Sample> := [];
    var i := 0;
    while i < repetitions
      invariant i <= repetitions
      invariant results == Successes(i, Outcomes(download))
    {
      var result := DownloadFile(download(i));
      assert result == Outcomes(download)(i);
      SuccessesStep(i, Outcomes(download));
      if result.Some? {
        results := results + [result.value];
      }
      i := i + 1;
    }
    SuccessesKeepEverySuccess(repetitions, Outcomes(download));
    if |results| == 0 {
      return None;
    }
    summary := ProcessExperimentResults(results, fileName, sqrt);
  }

  /** What experiment `j` of `exps` stores: the summary of its successful
      attempts, under its own file name. */
  function ExperimentSummaries(filePrefix: string, exps: seq<Experiment>, download: nat -> nat -> Exchange,
                               sqrt: real -> real): nat -> Option<Summary> {
    (j: nat) =>
      if j < |exps| then
        ProcessExperimentResults(Successes(exps[j].repetitions, Outcomes(download(j))), FileName(filePrefix, exps[j]), sqrt)
      else None
  }

  /** `run_experiments(server, file_prefix, experiments)`: experiment `k`'s
      attempt `i` is `download(k)(i)`; `None` selects the default list; the
      clock reading is `timestamp`. */
  method RunExperiments(
    server: string, filePrefix: string, experiments: Option<seq<Experiment>>,
    download: nat -> nat -> Exchange, timestamp: string, sqrt: real -> real)
    returns (data: ResultsData)
    ensures data.protocol == ProtocolName && data.server == server
    ensures data.filePrefix == filePrefix && data.timestamp == timestamp
    ensures Dicts.Wf(data.files)
    ensures var exps := experiments.GetOr(DefaultExperiments());
      forall key :: key in Dicts.Keys(data.files) <==>
        exists k :: 0 <= k < |exps| && AnySuccess(exps[k].repetitions, Outcomes(download(k)))
                    && key == FileName(filePrefix, exps[k])
    ensures forall key :: key in Dicts.Keys(data.files) ==>
      Dicts.Get(data.files, key).value.fileName == key
    ensures var exps := experiments.GetOr(DefaultExperiments());
      forall key :: Dicts.Get(data.files, key)
        == Stored(FileNames(filePrefix, exps), ExperimentSummaries(filePrefix, exps, download, sqrt), |exps|, key)
  {
    var exps := experiments.GetOr(DefaultExperiments());
    ghost var names, summaries := FileNames(filePrefix, exps), ExperimentSummaries(filePrefix, exps, download, sqrt);
    var files: Dicts.Dict<string, Summary> := [];
    var k := 0;
    while k < |exps|
      invariant k <= |exps|
      invariant Dicts.Wf(files)
      invariant forall key :: Dicts.Get(files, key) == Stored(names, summaries, k, key)
    {
      assert names[k] == FileName(filePrefix, exps[k]);
      assert summaries(k) == ProcessExperimentResults(
        Successes(exps[k].repetitions, Outcomes(download(k))), FileName(filePrefix, exps[k]), sqrt);
      var next := AddExperiment(files, FileName(filePrefix, exps[k]), exps[k].repetitions, download(k), sqrt);
      StoredStep(names, summaries, k, files, next);
      files, k := next, k + 1;
    }
    StoredFiles(filePrefix, exps, download, sqrt, files);
    data := InitializeResults(ProtocolName, server, filePrefix, timestamp).(files := files);
  }

  /** Experiment `j` is stored under its file name exactly when one of its
      attempts succeeded, with a summary that carries that name. */
  lemma {:induction false} SummaryOf(filePrefix: string, exps: seq<Experiment>, download: nat -> nat -> Exchange, sqrt: real -> real, j: nat)
    requires j < |exps|
    ensures var s := ExperimentSummaries(filePrefix, exps, download, sqrt)(j);
      && (s.Some? <==> AnySuccess(exps[j].repetitions, Outcomes(download(j))))
      && (s.Some? ==> s.value.fileName == FileName(filePrefix, exps[j]))
  {
    SummaryIffAnySuccess(exps[j].repetitions, Outcomes(download(j)), FileName(filePrefix, exps[j]), sqrt);
  }

  /** A dictionary holding what the experiments stored has their keys,
      each with a summary that carries its key. */
  lemma {:induction false} StoredFiles(filePrefix: string, exps: seq<Experiment>, download: nat -> nat -> Exchange,
                                       sqrt: real -> real, files: Dicts.Dict<string, Summary>)
    requires var names, summaries := FileNames(filePrefix, exps), ExperimentSummaries(filePrefix, exps, download, sqrt);
      forall key :: Dicts.Get(files, key) == Stored(names, summaries, |exps|, key)
    ensures forall key :: key in Dicts.Keys(files) <==>
      exists k :: 0 <= k < |exps| && AnySuccess(exps[k].repetitions, Outcomes(download(k)))
                  && key == FileName(filePrefix, exps[k])
    ensures forall key :: key in Dicts.Keys(files) ==> Dicts.Get(files, key).value.fileName == key
  {
    var summaries := ExperimentSummaries(filePrefix, exps, download, sqrt);
    var attempts := (k: nat) => Outcomes(download(k));
    forall j | 0 <= j < |exps|
      ensures summaries(j).Some? <==> AnySuccess(exps[j].repetitions, attempts(j))
      ensures summaries(j).Some? ==> summaries(j).value.fileName == FileName(filePrefix, exps[j])
    {
      SummaryOf(filePrefix, exps, download, sqrt, j);
    }
    forall key | true
      ensures key in Dicts.Keys(files) <==>
        exists k :: 0 <= k < |exps| && AnySuccess(exps[k].repetitions, Outcomes(download(k)))
                    && key == FileName(filePrefix, exps[k])
      ensures key in Dicts.Keys(files) ==> Dicts.Get(files, key).value.fileName == key
    {
      StoredExperiments(filePrefix, exps, attempts, summaries, (s: Summary) => s.fileName, files, key);
    }
  }

  /** One pass of the `run_experiments` loop: the experiment's summary, if
      any attempt succeeded, is stored under its file name, and every other
      entry is left as it was. */
  method AddExperiment(files: Dicts.Dict<string, Summary>, fileName: string, repetitions: nat,
                       download: nat -> Exchange, sqrt: real -> real)
    returns (next: Dicts.Dict<string, Summary>)
    requires Dicts.Wf(files)
    ensures Dicts.Wf(next)
    ensures forall key :: key in Dicts.Keys(next) <==>
      key in Dicts.Keys(files) || (AnySuccess(repetitions, Outcomes(download)) && key == fileName)
    ensures var s := ProcessExperimentResults(Successes(repetitions, Outcomes(download)), fileName, sqrt);
      forall key :: Dicts.Get(next, key) == if key == fileName && s.Some? then s else Dicts.Get(files, key)
  {
    var result := RunExperiment(fileName, repetitions, download, sqrt);
    next := files;
    if result.Some? {
      next := Dicts.Put(files, fileName, result.value);
    }
  }
}
