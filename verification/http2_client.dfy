/** The HTTP/2 cleartext client (http2/client.py). One download is a fold
    over the h2 events the connection decodes from each received chunk;
    the socket, the `H2Connection` state machine and the clock are replaced
    by the `Exchange` input value. */
module Http2Client {
  import opened Wrappers
  import opened Stats
  import opened Results
  import Dicts
  import Seqs

  newtype byte = x: int | 0 <= x < 256

  /** The h2 events the client distinguishes; every other event is ignored. */
  datatype Event =
    | ResponseReceived(headers: seq<(seq<byte>, seq<byte>)>)
    | DataReceived(data: seq<byte>)
    | StreamEnded
    | StreamReset(errorCode: nat)
    | SettingsAcknowledged
    | OtherEvent

  /** One `download_file` call: the connection is refused, or the clock
      reads `start`, every non-empty `recv` yields the next chunk of events
      in `chunks` until the socket closes or fails, and the clock reads `end`
      after the receive loop. Chunks after the one that ends the stream are
      never read. */
  datatype Exchange =
    | ConnectFailed
    | Connected(start: real, end: real, chunks: seq<seq<Event>>)

  /** The metrics dictionary of one successful download. */
  datatype H2Sample = H2Sample(
    duration: real,
    throughput: real,
    contentLength: nat,
    headerSize: nat,
    overheadRatio: real)

  /** The loop variables of `download_file`. */
  datatype State = State(body: seq<byte>, headerSize: nat, responseReceived: bool, streamEnded: bool)

  const Initial := State([], 0, false, false)

  /** `len(name) + len(value) + 2` summed over the headers: the name, the
      value, a colon and a space. */
  function HeaderBytes(headers: seq<(seq<byte>, seq<byte>)>): (n: nat)
    ensures n >= 2 * |headers|
    ensures n == 2 * |headers| <==> forall i :: 0 <= i < |headers| ==> headers[i].0 == [] && headers[i].1 == []
  {
    if |headers| == 0 then 0
    else |headers[0].0| + |headers[0].1| + 2 + HeaderBytes(headers[1..])
  }

  /** The loop body for one event (a reset is handled by `ProcessChunk`). */
  function Step(st: State, e: Event): State {
    match e
    case ResponseReceived(headers) =>
      st.(headerSize := st.headerSize + HeaderBytes(headers), responseReceived := true)
    case DataReceived(data) => st.(body := st.body + data)
    case StreamEnded => st.(streamEnded := true)
    case _ => st
  }

  /** The `for event in events` loop: a `StreamReset` breaks out of it and
      the events after it in the chunk are dropped. */
  function ProcessChunk(st: State, chunk: seq<Event>): State
    decreases |chunk|
  {
    if |chunk| == 0 || chunk[0].StreamReset? then st
    else ProcessChunk(Step(st, chunk[0]), chunk[1..])
  }

  /** The `while not stream_ended` loop over the received chunks. */
  function Receive(st: State, chunks: seq<seq<Event>>): State
    decreases |chunks|
  {
    if st.streamEnded || |chunks| == 0 then st
    else Receive(ProcessChunk(st, chunks[0]), chunks[1..])
  }

  /** The events of a chunk before its first reset. */
  function UntilReset(chunk: seq<Event>): (r: seq<Event>)
    ensures |r| <= |chunk| && r == chunk[..|r|]
    ensures forall i :: 0 <= i < |r| ==> !r[i].StreamReset?
    ensures |r| < |chunk| ==> chunk[|r|].StreamReset?
  {
    if |chunk| == 0 || chunk[0].StreamReset? then []
    else [chunk[0]] + UntilReset(chunk[1..])
  }

  predicate Ends(events: seq<Event>) {
    exists i :: 0 <= i < |events| && events[i].StreamEnded?
  }

  /** The events the client acts on: each chunk up to its first reset, up
      to and including the chunk in which the stream ends. */
  function Consumed(chunks: seq<seq<Event>>): seq<Event> {
    if |chunks| == 0 then []
    else
      var u := UntilReset(chunks[0]);
      u + (if Ends(u) then [] else Consumed(chunks[1..]))
  }

  /** The response body: the `DataReceived` payloads, concatenated in order. */
  function Body(events: seq<Event>): seq<byte> {
    if |events| == 0 then []
    else (if events[0].DataReceived? then events[0].data else []) + Body(events[1..])
  }

  /** The header bytes of every `ResponseReceived` event. */
  function HeaderTotal(events: seq<Event>): nat {
    if |events| == 0 then 0
    else (if events[0].ResponseReceived? then HeaderBytes(events[0].headers) else 0) + HeaderTotal(events[1..])
  }

  predicate Responded(events: seq<Event>) {
    exists i :: 0 <= i < |events| && events[i].ResponseReceived?
  }

  /** Folding `Step` over events adds their body, their header bytes and
      their flags to the state. */
  lemma {:induction false} FoldEvents(st: State, events: seq<Event>)
    requires forall i :: 0 <= i < |events| ==> !events[i].StreamReset?
    ensures ProcessChunk(st, events) == State(
      st.body + Body(events),
      st.headerSize + HeaderTotal(events),
      st.responseReceived || Responded(events),
      st.streamEnded || Ends(events))
    decreases |events|
  {
    if |events| == 0 {
      assert st.body + [] == st.body;
    } else {
      var e, rest := events[0], events[1..];
      assert forall i :: 0 <= i < |rest| ==> !rest[i].StreamReset? by {
        assert forall i :: 0 <= i < |rest| ==> rest[i] == events[i + 1];
      }
      FoldEvents(Step(st, e), rest);
      FlagsCons(events);
      var data := if e.DataReceived? then e.data else [];
      assert Step(st, e).body == st.body + data;
      assert Body(events) == data + Body(rest);
      assert st.body + data + Body(rest) == st.body + (data + Body(rest));
    }
  }

  /** Whether events include a response or an end is decided by the first
      event or by the rest. */
  lemma FlagsCons(events: seq<Event>)
    requires |events| > 0
    ensures Responded(events) <==> events[0].ResponseReceived? || Responded(events[1..])
    ensures Ends(events) <==> events[0].StreamEnded? || Ends(events[1..])
  {
    var e, rest := events[0], events[1..];
    assert events == [e] + rest;
    RespondedAppend([e], rest);
    EndsAppend([e], rest);
    assert Responded([e]) <==> e.ResponseReceived? by {
      assert [e][0] == e;
    }
    assert Ends([e]) <==> e.StreamEnded? by {
      assert [e][0] == e;
    }
  }

  /** A chunk acts exactly as its events before the first reset. */
  lemma {:induction false} ChunkIsItsPrefix(st: State, chunk: seq<Event>)
    ensures ProcessChunk(st, chunk) == ProcessChunk(st, UntilReset(chunk))
    decreases |chunk|
  {
    if |chunk| > 0 && !chunk[0].StreamReset? {
      ChunkIsItsPrefix(Step(st, chunk[0]), chunk[1..]);
      var u := UntilReset(chunk);
      assert u[0] == chunk[0] && u[1..] == UntilReset(chunk[1..]);
    }
  }

  lemma {:induction false} BodyAppend(a: seq<Event>, b: seq<Event>)
    ensures Body(a + b) == Body(a) + Body(b)
  {
    if |a| == 0 {
      assert a + b == b;
    } else {
      assert (a + b)[1..] == a[1..] + b;
      BodyAppend(a[1..], b);
      var h := if a[0].DataReceived? then a[0].data else [];
      assert h + (Body(a[1..]) + Body(b)) == h + Body(a[1..]) + Body(b);
    }
  }

  lemma {:induction false} HeaderTotalAppend(a: seq<Event>, b: seq<Event>)
    ensures HeaderTotal(a + b) == HeaderTotal(a) + HeaderTotal(b)
  {
    if |a| == 0 {
      assert a + b == b;
    } else {
      assert (a + b)[1..] == a[1..] + b;
      HeaderTotalAppend(a[1..], b);
    }
  }

  lemma RespondedAppend(a: seq<Event>, b: seq<Event>)
    ensures Responded(a + b) <==> Responded(a) || Responded(b)
  {
    if Responded(a) {
      var i :| 0 <= i < |a| && a[i].ResponseReceived?;
      assert (a + b)[i] == a[i];
    }
    if Responded(b) {
      var i :| 0 <= i < |b| && b[i].ResponseReceived?;
      assert (a + b)[|a| + i] == b[i];
    }
    if Responded(a + b) {
      var i :| 0 <= i < |a + b| && (a + b)[i].ResponseReceived?;
      if i >= |a| {
        assert b[i - |a|] == (a + b)[i];
      }
    }
  }

  lemma EndsAppend(a: seq<Event>, b: seq<Event>)
    ensures Ends(a + b) <==> Ends(a) || Ends(b)
  {
    if Ends(a) {
      var i :| 0 <= i < |a| && a[i].StreamEnded?;
      assert (a + b)[i] == a[i];
    }
    if Ends(b) {
      var i :| 0 <= i < |b| && b[i].StreamEnded?;
      assert (a + b)[|a| + i] == b[i];
    }
    if Ends(a + b) {
      var i :| 0 <= i < |a + b| && (a + b)[i].StreamEnded?;
      if i >= |a| {
        assert b[i - |a|] == (a + b)[i];
      }
    }
  }

  /** The receive loop, run from a state whose stream has not ended, acts
      on exactly the `Consumed` events. */
  lemma {:induction false} ReceiveFoldsConsumed(st: State, chunks: seq<seq<Event>>)
    requires !st.streamEnded
    ensures Receive(st, chunks) == State(
      st.body + Body(Consumed(chunks)),
      st.headerSize + HeaderTotal(Consumed(chunks)),
      st.responseReceived || Responded(Consumed(chunks)),
      Ends(Consumed(chunks)))
    decreases |chunks|
  {
    if |chunks| == 0 {
      assert st.body + [] == st.body;
    } else {
      var u := UntilReset(chunks[0]);
      ChunkIsItsPrefix(st, chunks[0]);
      FoldEvents(st, u);
      var next := ProcessChunk(st, chunks[0]);
      if Ends(u) {
        assert Consumed(chunks) == u + [];
        assert u + [] == u;
      } else {
        ReceiveFoldsConsumed(next, chunks[1..]);
        BodyAppend(u, Consumed(chunks[1..]));
        HeaderTotalAppend(u, Consumed(chunks[1..]));
        RespondedAppend(u, Consumed(chunks[1..]));
        EndsAppend(u, Consumed(chunks[1..]));
        assert st.body + Body(u) + Body(Consumed(chunks[1..]))
            == st.body + (Body(u) + Body(Consumed(chunks[1..])));
      }
    }
  }

  /** The metrics of a download that received `length > 0` body bytes and
      `headerSize` header bytes in `duration` seconds. */
  function Measure(duration: real, length: nat, headerSize: nat): (s: H2Sample)
    requires length > 0
    ensures s.duration == duration && s.contentLength == length && s.headerSize == headerSize
    ensures duration > 0.0 ==> Mul(s.throughput, duration) == length as real
    ensures duration <= 0.0 ==> s.throughput == 0.0
    ensures Mul(s.overheadRatio, length as real) == (length + headerSize) as real
    ensures 1.0 <= s.overheadRatio
  {
    var throughput := if duration > 0.0 then length as real / duration else 0.0;
    var overheadRatio := (length + headerSize) as real / length as real;
    H2Sample(duration, throughput, length, headerSize, overheadRatio)
  }

  /** `download_file(host, port, path)`: `None` when the connection is
      refused, or when no response headers or no body bytes arrived. */
  function DownloadFile(x: Exchange): (r: Option<H2Sample>)
    ensures x.ConnectFailed? ==> r.None?
    ensures x.Connected? ==>
      var events := Consumed(x.chunks);
      && (r.Some? <==> Responded(events) && |Body(events)| > 0)
      && (r.Some? ==> r.value == Measure(x.end - x.start, |Body(events)|, HeaderTotal(events)))
  {
    match x
    case ConnectFailed => None
    case Connected(start, end, chunks) =>
      var st := Receive(Initial, chunks);
      ReceiveFoldsConsumed(Initial, chunks);
      assert [] + Body(Consumed(chunks)) == Body(Consumed(chunks));
      if st.responseReceived && |st.body| > 0 then
        Some(Measure(end - start, |st.body|, st.headerSize))
      else
        None
  }

  /** The events of one chunk holding a response's headers, its data and
      the end of the stream: all of them are acted on. */
  lemma OneChunkEvents(headers: seq<(seq<byte>, seq<byte>)>, data: seq<byte>)
    ensures var chunk := [ResponseReceived(headers), DataReceived(data), StreamEnded];
      && Consumed([chunk]) == chunk
      && Responded(chunk)
      && Body(chunk) == data
      && HeaderTotal(chunk) == HeaderBytes(headers)
  {
    var chunk := [ResponseReceived(headers), DataReceived(data), StreamEnded];
    assert chunk[1..] == [DataReceived(data), StreamEnded];
    assert chunk[2..] == [StreamEnded];
    assert UntilReset(chunk) == chunk by {
      assert UntilReset(chunk[2..]) == chunk[2..];
      assert UntilReset(chunk[1..]) == chunk[1..];
    }
    assert Ends(chunk) by {
      assert chunk[2].StreamEnded?;
    }
    assert Consumed([chunk]) == chunk by {
      assert Consumed([chunk]) == chunk + [];
    }
    assert Responded(chunk) by {
      assert chunk[0].ResponseReceived?;
    }
    assert Body(chunk) == data by {
      assert Body(chunk[2..]) == [];
      assert Body(chunk[1..]) == data + [];
    }
    assert HeaderTotal(chunk) == HeaderBytes(headers) by {
      assert HeaderTotal(chunk[2..]) == 0;
      assert HeaderTotal(chunk[1..]) == 0;
    }
  }

  /** A download that receives a response's headers and then its data, all
      in one chunk that ends the stream, reports exactly those sizes. */
  lemma OneChunkDownload(start: real, end: real, headers: seq<(seq<byte>, seq<byte>)>, data: seq<byte>)
    requires |data| > 0
    ensures DownloadFile(Connected(start, end, [[ResponseReceived(headers), DataReceived(data), StreamEnded]]))
      == Some(Measure(end - start, |data|, HeaderBytes(headers)))
  {
    OneChunkEvents(headers, data);
  }

  /** The summary `run_experiment` returns. */
  datatype H2Summary = H2Summary(
    fileName: string,
    repetitionsCompleted: nat,
    contentLengthBytes: nat,
    transferTime: Stat,
    throughputBps: Stat,
    overheadRatio: Stat,
    rawResults: seq<H2Sample>)

  function Durations(rs: seq<H2Sample>): seq<real> {
    Seqs.Map((s: H2Sample) => s.duration, rs)
  }

  function Throughputs(rs: seq<H2Sample>): seq<real> {
    Seqs.Map((s: H2Sample) => s.throughput, rs)
  }

  function Overheads(rs: seq<H2Sample>): seq<real> {
    Seqs.Map((s: H2Sample) => s.overheadRatio, rs)
  }

  /** `statistics.mean` and, for two or more values, `statistics.stdev`
      (the sample standard deviation, `n - 1` denominator); `0` otherwise. */
  function MeanAndStdev(xs: seq<real>, sqrt: real -> real): (r: Stat)
    requires |xs| > 0
    ensures r.mean * |xs| as real == Sum(xs)
    ensures |xs| == 1 ==> r.stddev == 0.0
    ensures IsSqrt(sqrt) ==> 0.0 <= r.stddev
    ensures IsSqrt(sqrt) && |xs| > 1 ==>
      Mul(r.stddev, r.stddev) * (|xs| as real - 1.0) == SumSqDev(xs, r.mean)
  {
    var n := |xs| as real;
    var mean := Sum(xs) / n;
    var stdev := if |xs| > 1 then sqrt(SumSqDev(xs, mean) / (n - 1.0)) else 0.0;
    Stat(mean, stdev)
  }

  /** The `statistics` module and utils.py's `calculate_statistics` agree
      on every non-empty list. */
  lemma {:induction false} MeanAndStdevIsCalculate(xs: seq<real>, sqrt: real -> real)
    requires |xs| > 0
    ensures MeanAndStdev(xs, sqrt) == Calculate(xs, sqrt)
  {
  }

  /** Attempt `i`'s outcome is the download of exchange `download(i)`. */
  function Outcomes(download: nat -> Exchange): nat -> Option<H2Sample> {
    (i: nat) => DownloadFile(download(i))
  }

  /** The summary of an experiment whose successful samples are `rs`:
      `None` for no samples; otherwise their count, the first sample's
      length, each metric's mean and standard deviation, and the samples. */
  function ExperimentSummary(fileName: string, rs: seq<H2Sample>, sqrt: real -> real): (r: Option<H2Summary>)
    ensures r.None? <==> |rs| == 0
    ensures r.Some? ==>
      && r.value.fileName == fileName
      && r.value.rawResults == rs
      && r.value.repetitionsCompleted == |rs|
      && r.value.contentLengthBytes == rs[0].contentLength
    ensures r.Some? ==> r.value.transferTime.mean * |rs| as real == Sum(Durations(rs))
    ensures r.Some? ==> r.value.throughputBps.mean * |rs| as real == Sum(Throughputs(rs))
    ensures r.Some? ==> r.value.overheadRatio.mean * |rs| as real == Sum(Overheads(rs))
    ensures r.Some? && |rs| == 1 ==>
      && r.value.transferTime.stddev == 0.0
      && r.value.throughputBps.stddev == 0.0
      && r.value.overheadRatio.stddev == 0.0
    ensures r.Some? && IsSqrt(sqrt) ==>
      0.0 <= r.value.transferTime.stddev && 0.0 <= r.value.throughputBps.stddev
      && 0.0 <= r.value.overheadRatio.stddev
  {
    if |rs| == 0 then None
    else
      Some(H2Summary(
        fileName,
        |rs|,
        rs[0].contentLength,
        MeanAndStdev(Durations(rs), sqrt),
        MeanAndStdev(Throughputs(rs), sqrt),
        MeanAndStdev(Overheads(rs), sqrt),
        rs))
  }

  /** `run_experiment(server_ip, file_prefix, file_size, repetitions)`:
      attempt `i` is `download(i)`; failures are skipped. */
  method RunExperiment(filePrefix: string, fileSize: string, repetitions: nat,
                       download: nat -> Exchange, sqrt: real -> real)
    returns (summary: Option<H2Summary>)
    ensures summary.None? <==> !AnySuccess(repetitions, Outcomes(download))
    ensures summary == ExperimentSummary(filePrefix + "_" + fileSize, Successes(repetitions, Outcomes(download)), sqrt)
    ensures summary.Some? ==>
      var s, rs := summary.value, Successes(repetitions, Outcomes(download));
      && s.fileName == filePrefix + "_" + fileSize
      && s.rawResults == rs
      && s.repetitionsCompleted == |rs| > 0
      && s.contentLengthBytes == rs[0].contentLength
      && s.transferTime == MeanAndStdev(Durations(rs), sqrt)
      && s.throughputBps == MeanAndStdev(Throughputs(rs), sqrt)
      && s.overheadRatio == MeanAndStdev(Overheads(rs), sqrt)
    ensures summary.Some? && summary.value.repetitionsCompleted == 1 ==>
      && summary.value.transferTime.stddev == 0.0
      && summary.value.throughputBps.stddev == 0.0
      && summary.value.overheadRatio.stddev == 0.0
  {
    var fileName := filePrefix + "_" + fileSize;
    var results: seq<H2Sample> := [];
    var i := 0;
    while i < repetitions
      invariant i <= repetitions
      invariant results == Successes(i, Outcomes(download))
    {
      var result := DownloadFile(download(i));
      assert result == Outcomes(download)(i);
      SuccessesStep(i, Outcomes(download));
      if result.Some? {
        results := results + [result.value];
      }
      i := i + 1;
    }
    SuccessesKeepEverySuccess(repetitions, Outcomes(download));
    if |results| == 0 {
      return None;
    }
    summary := Some(H2Summary(
      fileName,
      |results|,
      results[0].contentLength,
      MeanAndStdev(Durations(results), sqrt),
      MeanAndStdev(Throughputs(results), sqrt),
      MeanAndStdev(Overheads(results), sqrt),
      results));
  }

  /** The document `main` saves. */
  datatype H2Results = H2Results(
    protocol: string,
    timestamp: string,
    server: string,
    serverIp: string,
    filePrefix: string,
    files: Dicts.Dict<string, H2Summary>)

  const ProtocolName := "HTTP/2"

  /** `main`'s output file name: `results_{prefix}_from_{server}_http2.json`. */
  function OutputFileName(filePrefix: string, server: string): (name: string)
    ensures |name| == 25 + |filePrefix| + |server|
    ensures name[..8] == "results_" && name[|name| - 11..] == "_http2.json"
    ensures name[8..8 + |filePrefix|] == filePrefix
    ensures name[8 + |filePrefix|..14 + |filePrefix|] == "_from_"
    ensures name[14 + |filePrefix|..|name| - 11] == server
  {
    "results_" + filePrefix + "_from_" + server + "_http2.json"
  }

  /** What experiment `j` of `exps` stores: the summary of its successful
      attempts, under its own file name. */
  function ExperimentSummaries(filePrefix: string, exps: seq<Experiment>, download: nat -> nat -> Exchange,
                               sqrt: real -> real): nat -> Option<H2Summary> {
    (j: nat) =>
      if j < |exps| then
        ExperimentSummary(FileName(filePrefix, exps[j]), Successes(exps[j].repetitions, Outcomes(download(j))), sqrt)
      else None
  }

  /** Experiment `j` is stored under its file name exactly when one of its
      attempts succeeded, with a summary that carries that name. */
  lemma {:induction false} SummaryOf(filePrefix: string, exps: seq<Experiment>, download: nat -> nat -> Exchange, sqrt: real -> real, j: nat)
    requires j < |exps|
    ensures var s := ExperimentSummaries(filePrefix, exps, download, sqrt)(j);
      && (s.Some? <==> AnySuccess(exps[j].repetitions, Outcomes(download(j))))
      && (s.Some? ==> s.value.fileName == FileName(filePrefix, exps[j]))
  {
    SuccessesKeepEverySuccess(exps[j].repetitions, Outcomes(download(j)));
  }

  /** A dictionary holding what the experiments stored has their keys,
      each with a summary that carries its key. */
  lemma {:induction false} StoredFiles(filePrefix: string, exps: seq<Experiment>, download: nat -> nat -> Exchange,
                                       sqrt: real -> real, files: Dicts.Dict<string, H2Summary>)
    requires var names, summaries := FileNames(filePrefix, exps), ExperimentSummaries(filePrefix, exps, download, sqrt);
      forall key :: Dicts.Get(files, key) == Stored(names, summaries, |exps|, key)
    ensures forall key :: key in Dicts.Keys(files) <==>
      exists k :: 0 <= k < |exps| && AnySuccess(exps[k].repetitions, Outcomes(download(k)))
                  && key == FileName(filePrefix, exps[k])
    ensures forall key :: key in Dicts.Keys(files) ==> Dicts.Get(files, key).value.fileName == key
  {
    var summaries := ExperimentSummaries(filePrefix, exps, download, sqrt);
    var attempts := (k: nat) => Outcomes(download(k));
    forall j | 0 <= j < |exps|
      ensures summaries(j).Some? <==> AnySuccess(exps[j].repetitions, attempts(j))
      ensures summaries(j).Some? ==> summaries(j).value.fileName == FileName(filePrefix, exps[j])
    {
      SummaryOf(filePrefix, exps, download, sqrt, j);
    }
    forall key | true
      ensures key in Dicts.Keys(files) <==>
        exists k :: 0 <= k < |exps| && AnySuccess(exps[k].repetitions, Outcomes(download(k)))
                    && key == FileName(filePrefix, exps[k])
      ensures key in Dicts.Keys(files) ==> Dicts.Get(files, key).value.fileName == key
    {
      StoredExperiments(filePrefix, exps, attempts, summaries, (s: H2Summary) => s.fileName, files, key);
    }
  }

  /** One pass of `main`'s experiment loop: the experiment's summary, if any
      attempt succeeded, is stored under its file name, and every other
      entry is left as it was. */
  method AddExperiment(files: Dicts.Dict<string, H2Summary>, filePrefix: string, e: Experiment,
                       download: nat -> Exchange, sqrt: real -> real)
    returns (next: Dicts.Dict<string, H2Summary>)
    requires Dicts.Wf(files)
    ensures Dicts.Wf(next)
    ensures forall key :: key in Dicts.Keys(next) <==>
      key in Dicts.Keys(files) || (AnySuccess(e.repetitions, Outcomes(download)) && key == FileName(filePrefix, e))
    ensures var s := ExperimentSummary(FileName(filePrefix, e), Successes(e.repetitions, Outcomes(download)), sqrt);
      forall key :: Dicts.Get(next, key) == if key == FileName(filePrefix, e) && s.Some? then s else Dicts.Get(files, key)
  {
    var result := RunExperiment(filePrefix, e.size, e.repetitions, download, sqrt);
    next := files;
    if result.Some? {
      next := Dicts.Put(files, result.value.fileName, result.value);
    }
  }

  /** `main()` after argument parsing: `serverIp` is the machine table's
      entry for `server`; a missing or empty one exits with an error.
      Experiment `k` of the fixed list (the default experiment list) makes
      its attempt `i` as `download(k)(i)`; the clock reading is
      `timestamp`. */
  method RunMain(server: string, serverIp: Option<string>, filePrefix: string,
                 download: nat -> nat -> Exchange, timestamp: string, sqrt: real -> real)
    returns (r: Result<H2Results>)
    ensures r.Failure? <==> serverIp.None? || serverIp.value == ""
    ensures r.Success? ==>
      var d := r.value;
      && d.protocol == ProtocolName && d.timestamp == timestamp && d.server == server
      && d.serverIp == serverIp.value && d.filePrefix == filePrefix
      && Dicts.Wf(d.files)
      && (forall key :: key in Dicts.Keys(d.files) ==> Dicts.Get(d.files, key).value.fileName == key)
      && (forall key :: key in Dicts.Keys(d.files) <==>
            exists k :: 0 <= k < |DefaultExperiments()|
                        && AnySuccess(DefaultExperiments()[k].repetitions, Outcomes(download(k)))
                        && key == FileName(filePrefix, DefaultExperiments()[k]))
    ensures r.Success? ==>
      var exps := DefaultExperiments();
      forall key :: Dicts.Get(r.value.files, key)
        == Stored(FileNames(filePrefix, exps), ExperimentSummaries(filePrefix, exps, download, sqrt), |exps|, key)
  {
    if serverIp.None? || serverIp.value == "" {
      return Failure("Error: IP for server '" + server + "' not found in machines.json");
    }
    var exps := DefaultExperiments();
    ghost var names, summaries := FileNames(filePrefix, exps), ExperimentSummaries(filePrefix, exps, download, sqrt);
    var files: Dicts.Dict<string, H2Summary> := [];
    var k := 0;
    while k < |exps|
      invariant k <= |exps|
      invariant Dicts.Wf(files)
      invariant forall key :: Dicts.Get(files, key) == Stored(names, summaries, k, key)
    {
      assert names[k] == FileName(filePrefix, exps[k]);
      var next := AddExperiment(files, filePrefix, exps[k], download(k), sqrt);
      StoredStep(names, summaries, k, files, next);
      files, k := next, k + 1;
    }
    StoredFiles(filePrefix, exps, download, sqrt, files);
    r := Success(H2Results(ProtocolName, timestamp, server, serverIp.value, filePrefix, files));
  }
}
