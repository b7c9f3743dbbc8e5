/** analyze.py's pipeline: read every results document, group the readable
    ones by protocol in first-seen order, merge each protocol's files and lay
    the merged values out as the report's tables. Finding the files on disk
    is a parameter: the documents arrive in the order the directory walk
    lists them. */
module Analyze {
  import opened Wrappers
  import opened Stats
  import Dicts
  import Sizes
  import Merge
  import Report

  /** One entry of a document's `files` object; a missing key is `None`. */
  datatype RawEntry = RawEntry(transferTime: Option<Stat>, throughputBps: Option<Stat>, overheadRatio: Option<Stat>)

  /** A JSON object as `json.load` builds it: a dictionary, so no key twice. */
  type JsonObject<V> = d: Dicts.Dict<string, V> | Dicts.Wf(d) witness []

  /** A results file as `json.load` sees it. `Unreadable` stands for every
      failure before the fields are read: a file that cannot be opened, text
      that is not JSON, or a value of the wrong shape. */
  datatype Document =
    | Unreadable
    | Parsed(protocol: Option<string>, filePrefix: Option<string>, files: Option<JsonObject<RawEntry>>)

  /** One entry kept with its three metrics; `throughput_bps` becomes
      `throughput`. */
  function Convert(e: RawEntry): (r: Option<Metrics>)
    ensures r.Some? <==> e.transferTime.Some? && e.throughputBps.Some? && e.overheadRatio.Some?
    ensures r.Some? ==>
      && r.value.transferTime == e.transferTime.value
      && r.value.throughput == e.throughputBps.value
      && r.value.overheadRatio == e.overheadRatio.value
  {
    if e.transferTime.Some? && e.throughputBps.Some? && e.overheadRatio.Some? then
      Some(Metrics(e.transferTime.value, e.throughputBps.value, e.overheadRatio.value))
    else None
  }

  /** The loop over `data['files'].items()`: `None` when some entry lacks a
      metric, which raises `KeyError` inside the `try`; otherwise the same
      sizes in the same order, each with its converted entry. */
  function Entries(files: JsonObject<RawEntry>): (r: Option<Merge.FileResults>)
    ensures r.Some? <==> forall i :: 0 <= i < |files| ==> Convert(files[i].1).Some?
    ensures r.Some? ==> Dicts.Keys(r.value) == Dicts.Keys(files) && Dicts.Wf(r.value)
  {
    if forall i :: 0 <= i < |files| ==> Convert(files[i].1).Some? then
      var r := seq(|files|, i requires 0 <= i < |files| => (files[i].0, Convert(files[i].1).value));
      assert Dicts.Keys(r) == Dicts.Keys(files);
      Some(r)
    else None
  }

  /** Looking a size up after parsing finds the conversion of its entry in
      the document, and a size the document lacks stays absent. */
  lemma EntriesValues(files: JsonObject<RawEntry>, size: string)
    requires Entries(files).Some?
    ensures Dicts.Get(files, size).None? ==> Dicts.Get(Entries(files).value, size).None?
    ensures Dicts.Get(files, size).Some? ==>
      Dicts.Get(Entries(files).value, size) == Convert(Dicts.Get(files, size).value)
  {
    var r := Entries(files).value;
    var i := Dicts.Index(Dicts.Keys(files), size);
    assert Dicts.Keys(r) == Dicts.Keys(files);
    if i < |files| {
      assert r[i] == (files[i].0, Convert(files[i].1).value);
    }
  }

  /** `parse_results(filepath)`: the per-size metrics, the protocol and the
      prefix, each name defaulting to "Unknown"; any failure gives no
      metrics and "Unknown" for both names. */
  function ParseResults(doc: Document): (r: (Merge.FileResults, string, string))
    ensures doc.Unreadable? ==> r == ([], "Unknown", "Unknown")
    ensures doc.Parsed? && Entries(doc.files.GetOr([])).Some? ==>
      && r.0 == Entries(doc.files.GetOr([])).value
      && r.1 == (if doc.protocol.Some? then doc.protocol.value else "Unknown")
      && r.2 == (if doc.filePrefix.Some? then doc.filePrefix.value else "Unknown")
    ensures doc.Parsed? && Entries(doc.files.GetOr([])).None? ==> r == ([], "Unknown", "Unknown")
  {
    match doc
    case Unreadable => ([], "Unknown", "Unknown")
    case Parsed(protocol, filePrefix, files) =>
      match Entries(files.GetOr([]))
      case None => ([], "Unknown", "Unknown")
      case Some(results) => (results, protocol.GetOr("Unknown"), filePrefix.GetOr("Unknown"))
  }

  /** A document without a `files` object parses to no metrics. */
  lemma MissingFilesIsEmpty(protocol: Option<string>, filePrefix: Option<string>)
    ensures ParseResults(Parsed(protocol, filePrefix, None)).0 == []
  {
  }

  /** The protocol of each parsed document, in order. */
  function Protocols<T>(parsed: seq<(T, string)>): (ps: seq<string>)
    ensures |ps| == |parsed| && forall i :: 0 <= i < |parsed| ==> ps[i] == parsed[i].1
  {
    seq(|parsed|, i requires 0 <= i < |parsed| => parsed[i].1)
  }

  /** The metrics of the documents of protocol `p`, in document order. */
  function FilesOf<T>(parsed: seq<(T, string)>, p: string): (r: seq<T>)
    ensures |r| <= |parsed|
    ensures |r| == |parsed| <==> forall i :: 0 <= i < |parsed| ==> parsed[i].1 == p
  {
    if |parsed| == 0 then []
    else
      var n := |parsed| - 1;
      assert forall i :: 0 <= i < n ==> parsed[..n][i] == parsed[i];
      FilesOf(parsed[..n], p) + (if parsed[n].1 == p then [parsed[n].0] else [])
  }

  lemma FilesOfStep<T>(parsed: seq<(T, string)>, p: string)
    requires |parsed| > 0
    ensures FilesOf(parsed, p)
      == FilesOf(parsed[..|parsed| - 1], p) + (if parsed[|parsed| - 1].1 == p then [parsed[|parsed| - 1].0] else [])
  {
  }

  /** A protocol no document has collects nothing. */
  lemma {:induction false} FilesOfAbsent<T>(parsed: seq<(T, string)>, p: string)
    requires p !in Protocols(parsed)
    ensures FilesOf(parsed, p) == []
    decreases |parsed|
  {
    if |parsed| > 0 {
      var n := |parsed| - 1;
      assert Protocols(parsed) == Protocols(parsed[..n]) + [parsed[n].1];
      FilesOfAbsent(parsed[..n], p);
    }
  }

  /** The grouping loop of `main`: `protocol_files[protocol]` is created on
      the first document of that protocol and appended to afterwards. */
  function GroupByProtocol<T>(parsed: seq<(T, string)>): (g: Dicts.Dict<string, seq<T>>)
    ensures Dicts.Wf(g)
    ensures forall p :: p in Dicts.Keys(g) <==> p in Protocols(parsed)
    decreases |parsed|
  {
    if |parsed| == 0 then []
    else
      var n := |parsed| - 1;
      var front := parsed[..n];
      var g := GroupByProtocol(front);
      var p := parsed[n].1;
      assert Protocols(parsed) == Protocols(front) + [p];
      Dicts.Put(g, p, Dicts.Get(g, p).GetOr([]) + [parsed[n].0])
  }

  /** Each protocol's list holds the metrics of exactly its documents, in
      document order. */
  lemma {:induction false} GroupValues<T>(parsed: seq<(T, string)>)
    ensures var g := GroupByProtocol(parsed);
      forall p :: p in Dicts.Keys(g) ==> Dicts.Get(g, p) == Some(FilesOf(parsed, p))
    decreases |parsed|
  {
    if |parsed| > 0 {
      var n := |parsed| - 1;
      var front := parsed[..n];
      GroupValues(front);
      var g, p := GroupByProtocol(front), parsed[n].1;
      var r := GroupByProtocol(parsed);
      assert r == Dicts.Put(g, p, Dicts.Get(g, p).GetOr([]) + [parsed[n].0]);
      if p !in Dicts.Keys(g) {
        assert p !in Protocols(front);
        FilesOfAbsent(front, p);
      }
      forall q | q in Dicts.Keys(r)
        ensures Dicts.Get(r, q) == Some(FilesOf(parsed, q))
      {
        FilesOfStep(parsed, q);
        if q != p {
          assert q in Dicts.Keys(g);
          assert Dicts.Get(r, q) == Dicts.Get(g, q);
          assert Dicts.Get(g, q) == Some(FilesOf(front, q));
          assert FilesOf(parsed, q) == FilesOf(front, q);
        } else {
          assert Dicts.Get(g, p).GetOr([]) == FilesOf(front, p);
          assert Dicts.Get(r, q) == Some(FilesOf(front, q) + [parsed[n].0]);
          assert FilesOf(parsed, q) == FilesOf(front, q) + [parsed[n].0];
        }
      }
    }
  }

  /** `ks` lists keys in the order of their first occurrence in `ps`. */
  predicate InFirstSeenOrder(ps: seq<string>, ks: seq<string>) {
    forall i, j :: 0 <= i < j < |ks| ==> Dicts.Index(ps, ks[i]) < Dicts.Index(ps, ks[j])
  }

  /** Keys listed in order of first occurrence in `ps` stay so when one
      more element is seen and, if new, listed last. */
  lemma FirstSeenStep(ps: seq<string>, x: string, ks: seq<string>)
    requires forall k :: k in ks ==> k in ps
    requires InFirstSeenOrder(ps, ks)
    requires x in ps <==> x in ks
    ensures InFirstSeenOrder(ps + [x], if x in ks then ks else ks + [x])
  {
    var ks' := if x in ks then ks else ks + [x];
    forall k | k in ks
      ensures Dicts.Index(ps + [x], k) == Dicts.Index(ps, k) < |ps|
    {
      Dicts.IndexAppend(ps, x, k);
    }
    if x !in ks {
      assert Dicts.Index(ps + [x], x) == |ps| by {
        assert (ps + [x])[|ps|] == x;
      }
      forall i, j | 0 <= i < j < |ks'|
        ensures Dicts.Index(ps + [x], ks'[i]) < Dicts.Index(ps + [x], ks'[j])
      {
        assert ks'[i] == ks[i];
        if j < |ks| {
          assert ks'[j] == ks[j];
        }
      }
    }
  }

  /** Grouping one more document adds its protocol last if it is new and
      leaves the key order alone otherwise. */
  lemma GroupKeysStep<T>(parsed: seq<(T, string)>)
    requires |parsed| > 0
    ensures var n := |parsed| - 1;
      var fks := Dicts.Keys(GroupByProtocol(parsed[..n]));
      Dicts.Keys(GroupByProtocol(parsed)) == if parsed[n].1 in fks then fks else fks + [parsed[n].1]
  {
  }

  lemma ProtocolsStep<T>(parsed: seq<(T, string)>)
    requires |parsed| > 0
    ensures Protocols(parsed) == Protocols(parsed[..|parsed| - 1]) + [parsed[|parsed| - 1].1]
  {
  }

  /** The protocols come out in the order of their first document. */
  lemma {:induction false} GroupedInFirstSeenOrder<T>(parsed: seq<(T, string)>)
    ensures InFirstSeenOrder(Protocols(parsed), Dicts.Keys(GroupByProtocol(parsed)))
    decreases |parsed|
  {
    if |parsed| > 0 {
      var n := |parsed| - 1;
      var front := parsed[..n];
      GroupedInFirstSeenOrder(front);
      GroupKeysStep(parsed);
      ProtocolsStep(parsed);
      FirstSeenStep(Protocols(front), parsed[n].1, Dicts.Keys(GroupByProtocol(front)));
    }
  }

  /** The merging loop of `main`: each protocol's files merged in turn by
      `merge`; the first merge that raises stops the program. */
  function MergeAll<V, W>(groups: Dicts.Dict<string, V>, merge: V -> Result<W>): (r: Result<Dicts.Dict<string, W>>)
    ensures r.Failure? <==> exists i :: 0 <= i < |groups| && merge(groups[i].1).Failure?
    ensures r.Success? ==> |r.value| == |groups|
    ensures r.Success? ==> forall i :: 0 <= i < |groups| ==>
      r.value[i].0 == groups[i].0 && merge(groups[i].1) == Success(r.value[i].1)
    decreases |groups|
  {
    if |groups| == 0 then Success([])
    else
      assert forall i :: 1 <= i < |groups| ==> groups[i] == groups[1..][i - 1];
      match merge(groups[0].1)
      case Failure(e) => Failure(e)
      case Success(merged) =>
        match MergeAll(groups[1..], merge)
        case Failure(e) => Failure(e)
        case Success(rest) => Success([(groups[0].0, merged)] + rest)
  }

  /** `merge_protocol_results` with the set order and square root fixed. */
  function Merger(enumerate: set<string> -> seq<string>, sqrt: real -> real)
    : seq<Merge.FileResults> -> Result<map<string, Metrics>>
  {
    (files: seq<Merge.FileResults>) => Merge.MergeProtocolResults(files, enumerate, sqrt)
  }

  /** Every document parsed, each paired with its protocol. */
  function ParseAll(docs: seq<Document>): (parsed: seq<(Merge.FileResults, string)>)
    ensures |parsed| == |docs|
    ensures forall i :: 0 <= i < |docs| ==> parsed[i] == (ParseResults(docs[i]).0, ParseResults(docs[i]).1)
  {
    seq(|docs|, i requires 0 <= i < |docs| => (ParseResults(docs[i]).0, ParseResults(docs[i]).1))
  }

  /** `main()` after the documents are read: group by protocol, merge each
      protocol's files and build the report. */
  function Summarise(parsed: seq<(Merge.FileResults, string)>, enumerate: set<string> -> seq<string>, sqrt: real -> real)
    : (r: Result<Report.Tables>)
    ensures r.Failure? <==>
      |parsed| == 0 || MergeAll(GroupByProtocol(parsed), Merger(enumerate, sqrt)).Failure?
  {
    assert |parsed| > 0 ==> parsed[0].1 in Protocols(parsed);
    match MergeAll(GroupByProtocol(parsed), Merger(enumerate, sqrt))
    case Failure(e) => Failure(e)
    case Success(data) => Report.CreateExcel(data, enumerate)
  }

  /** `main()`: parse every document, then summarise them. */
  function Analyze(docs: seq<Document>, enumerate: set<string> -> seq<string>, sqrt: real -> real)
    : (r: Result<Report.Tables>)
    ensures r.Failure? <==>
      |docs| == 0 || MergeAll(GroupByProtocol(ParseAll(docs)), Merger(enumerate, sqrt)).Failure?
  {
    Summarise(ParseAll(docs), enumerate, sqrt)
  }

  /** Every protocol's merged sizes are size labels. */
  lemma {:induction false} MergedDataIsLabelled(groups: Dicts.Dict<string, seq<Merge.FileResults>>, enumerate: set<string> -> seq<string>, sqrt: real -> real)
    requires MergeAll(groups, Merger(enumerate, sqrt)).Success?
    ensures var data := MergeAll(groups, Merger(enumerate, sqrt)).value;
      forall k, b :: 0 <= k < |data| && b in data[k].1 ==> b in Sizes.Labels
  {
    var data := MergeAll(groups, Merger(enumerate, sqrt)).value;
    forall k | 0 <= k < |data|
      ensures forall b :: b in data[k].1 ==> b in Sizes.Labels
    {
      assert Merger(enumerate, sqrt)(groups[k].1) == Success(data[k].1);
    }
  }

  /** Under Python's set iteration, a report that is produced has one row per
      size label some protocol measured, each once and in the order 10kB,
      100kB, 1MB, 10MB. */
  lemma {:induction false} ReportRowsAreLabels(parsed: seq<(Merge.FileResults, string)>, enumerate: set<string> -> seq<string>, sqrt: real -> real)
    requires Dicts.IsEnumeration(enumerate)
    ensures var r := Summarise(parsed, enumerate, sqrt);
      r.Success? ==>
        && (forall i :: 0 <= i < |r.value.rows| ==> r.value.rows[i] in Sizes.Labels)
        && (forall i, j :: 0 <= i < j < |r.value.rows| ==> Sizes.Rank(r.value.rows[i]) < Sizes.Rank(r.value.rows[j]))
  {
    if Summarise(parsed, enumerate, sqrt).Failure? {
      return;
    }
    var groups := GroupByProtocol(parsed);
    var data := MergeAll(groups, Merger(enumerate, sqrt)).value;
    assert Summarise(parsed, enumerate, sqrt) == Report.CreateExcel(data, enumerate);
    MergedDataIsLabelled(groups, enumerate, sqrt);
    Report.LabelledRows(data, enumerate);
  }

  /** The report's columns are the grouped protocols, which come in the
      order of their first document, a mean and a standard deviation each. */
  lemma {:induction false} ReportColumnsAreProtocols(parsed: seq<(Merge.FileResults, string)>, enumerate: set<string> -> seq<string>, sqrt: real -> real)
    ensures var ks, r := Dicts.Keys(GroupByProtocol(parsed)), Summarise(parsed, enumerate, sqrt);
      r.Success? ==>
        && |r.value.columns| == 2 * |ks|
        && (forall k :: 0 <= k < |ks| ==>
              r.value.columns[2 * k] == (ks[k], "Mean") && r.value.columns[2 * k + 1] == (ks[k], "Std Dev"))
  {
    if Summarise(parsed, enumerate, sqrt).Failure? {
      return;
    }
    var groups := GroupByProtocol(parsed);
    var data := MergeAll(groups, Merger(enumerate, sqrt)).value;
    assert Summarise(parsed, enumerate, sqrt) == Report.CreateExcel(data, enumerate);
    assert Report.CreateExcel(data, enumerate).value.columns == Report.Columns(data);
    assert forall k :: 0 <= k < |data| ==> data[k].0 == Dicts.Keys(groups)[k];
  }
}
