/** The first HTTP/1.1 client (http1_client.py): unguarded metric arithmetic
    per download, and an experiment that aborts at the first failed
    download. The HTTP exchange is an input value; clock readings are its
    `start` and `end`. */
module Http1Client {
  import opened Wrappers
  import opened Stats
  import opened Results
  import Dicts

  /** The `Content-Length` response header: missing, not an integer, or an
      integer (`int()` accepts a sign, so it may be negative). */
  datatype ContentLength = Absent | Malformed | Declared(n: int)

  /** One `requests.get`: it failed (connection error, timeout or an error
      status), or a response arrived between the clock readings `start` and
      `end` and its dump is `dumpLength` bytes long. */
  datatype Exchange =
    | Failed
    | Completed(start: real, end: real, dumpLength: nat, contentLength: ContentLength)

  /** `download_file`: every exception ends in `None`: a failed request, a
      missing (`KeyError`) or malformed (`ValueError`) `Content-Length`, and
      the two unguarded divisions by a zero transfer time or a zero size. */
  function DownloadFile(x: Exchange): (r: Option<Sample>)
    ensures r.Some? <==>
      x.Completed? && x.contentLength.Declared? && x.end - x.start != 0.0 && x.contentLength.n != 0
    ensures r.Some? ==>
      var s := r.value;
      && s.transferTime == x.end - x.start
      && s.fileSize == x.contentLength.n
      && s.totalAppData == x.dumpLength
      && s.headerSize + s.fileSize == s.totalAppData
      && Mul(s.overheadRatio, s.fileSize as real) == s.totalAppData as real
      && Mul(s.throughput, s.transferTime) == s.fileSize as real
  {
    match x
    case Failed => None
    case Completed(start, end, dumpLength, contentLength) =>
      var transferTime := end - start;
      if !contentLength.Declared? then None
      else
        var fileSize := contentLength.n;
        if transferTime == 0.0 || fileSize == 0 then None
        else
          var throughput := fileSize as real / transferTime;
          var overheadRatio := dumpLength as real / fileSize as real;
          Some(Sample(transferTime, throughput, fileSize, dumpLength, overheadRatio,
                      dumpLength - fileSize))
  }

  /** This file's own `calculate_statistics`. */
  function CalculateStatistics(values: seq<real>, sqrt: real -> real): (r: Stat)
    ensures |values| == 0 ==> r == Stat(0.0, 0.0)
    ensures |values| > 0 ==> r.mean * |values| as real == Sum(values)
    ensures |values| == 1 ==> r.stddev == 0.0
    ensures IsSqrt(sqrt) && |values| > 1 ==>
      0.0 <= r.stddev && Mul(r.stddev, r.stddev) * (|values| as real - 1.0) == SumSqDev(values, r.mean)
  {
    var n := |values|;
    if n == 0 then Stat(0.0, 0.0)
    else
      var mean := Sum(values) / n as real;
      var stddev := if n > 1 then sqrt(SumSqDev(values, mean) / (n as real - 1.0)) else 0.0;
      Stat(mean, stddev)
  }

  /** It computes exactly what utils.py's `calculate_statistics` computes. */
  lemma {:induction false} SameAsSharedStatistics(values: seq<real>, sqrt: real -> real)
    ensures CalculateStatistics(values, sqrt) == Calculate(values, sqrt)
  {
  }

  /** The label the entry's overhead summary carries. */
  const OverheadDescription := "Total application layer data / file size"

  /** One value of this client's `results_data["files"]`. */
  datatype Entry = Entry(
    fileSizeBytes: int,
    repetitionsCompleted: nat,
    transferTime: Stat,
    throughputBps: Stat,
    overheadRatio: Stat,
    overheadDescription: string,
    rawResults: seq<Sample>)

  /** `rs` are the downloads of an experiment that stops at the first
      failure: attempts `0 .. |rs| - 1` succeeded with these samples and, if
      fewer than `repetitions` were collected, attempt `|rs|` failed. */
  ghost predicate StopsAtFirstFailure(rs: seq<Sample>, repetitions: nat, download: nat -> Exchange) {
    && |rs| <= repetitions
    && (forall i :: 0 <= i < |rs| ==> DownloadFile(download(i)) == Some(rs[i]))
    && (|rs| < repetitions ==> DownloadFile(download(|rs|)).None?)
  }

  /** The attempts an aborting experiment keeps are determined by the
      download outcomes alone. */
  lemma {:induction false} StopsAtFirstFailureUnique(rs: seq<Sample>, ts: seq<Sample>, repetitions: nat, download: nat -> Exchange)
    requires StopsAtFirstFailure(rs, repetitions, download)
    requires StopsAtFirstFailure(ts, repetitions, download)
    ensures rs == ts
  {
  }

  /** `run_experiment(server_url, file_prefix, file_size, repetitions,
      results_data)`: attempt `i` of the experiment is `download(i)`. The
      updated `results_data` is returned as `files'`. */
  method RunExperiment(
    filePrefix: string, fileSize: string, repetitions: nat,
    download: nat -> Exchange, files: Dicts.Dict<string, Entry>, sqrt: real -> real)
    returns (ok: bool, files': Dicts.Dict<string, Entry>)
    ensures ok <==> repetitions > 0 && DownloadFile(download(0)).Some?
    ensures !ok ==> files' == files
    ensures ok ==>
      var name := filePrefix + "_" + fileSize;
      && Dicts.Get(files', name).Some?
      && var e := Dicts.Get(files', name).value;
      && files' == Dicts.Put(files, name, e)
      && StopsAtFirstFailure(e.rawResults, repetitions, download)
      && 0 < e.repetitionsCompleted == |e.rawResults| <= repetitions
      && e.fileSizeBytes == e.rawResults[0].fileSize
      && e.transferTime == CalculateStatistics(TransferTimes(e.rawResults), sqrt)
      && e.throughputBps == CalculateStatistics(Throughputs(e.rawResults), sqrt)
      && e.overheadRatio == CalculateStatistics(OverheadRatios(e.rawResults), sqrt)
      && e.overheadDescription == OverheadDescription
  {
    var fileName := filePrefix + "_" + fileSize;
    var results: seq<Sample> := [];
    var i := 0;
    while i < repetitions
      invariant i <= repetitions && |results| == i
      invariant forall j :: 0 <= j < i ==> DownloadFile(download(j)) == Some(results[j])
    {
      var result := DownloadFile(download(i));
      if result.None? {
        break;
      }
      results := results + [result.value];
      i := i + 1;
    }
    if |results| > 0 {
      var entry := Entry(
        results[0].fileSize,
        |results|,
        CalculateStatistics(TransferTimes(results), sqrt),
        CalculateStatistics(Throughputs(results), sqrt),
        CalculateStatistics(OverheadRatios(results), sqrt),
        OverheadDescription,
        results);
      files' := Dicts.Put(files, fileName, entry);
      ok := true;
    } else {
      files' := files;
      ok := false;
    }
  }
}
