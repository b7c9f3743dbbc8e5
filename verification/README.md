# Transfer-measurement statistics, merging and report layout

A model of the bookkeeping layer of a file-transfer measurement harness.
The harness downloads files of four sizes (10kB, 100kB, 1MB, 10MB) many
times over HTTP/1.1 and HTTP/2. It reduces each experiment's attempts to
means and sample standard deviations. It saves one JSON results file per
run. An analysis script then merges the results files of each protocol and
lays the merged numbers out as a spreadsheet with one sheet per metric.

The model keeps every metric value as a Dafny `real`. Clock readings, byte
counts, HTTP responses and h2 events are input values. `math.sqrt` is a
function parameter `sqrt`. Lemmas that need its meaning assume
`Stats.IsSqrt(sqrt)`: every non-negative `x` has a non-negative root whose
square is `x`. Python's iteration order over a set is a parameter
`enumerate`. Lemmas that need it assume `Dicts.IsEnumeration(enumerate)`:
it lists every element of the set exactly once.

Modules, in dependency order:

- `Wrappers`: `Option` and `Result`.
- `Dicts`: Python's insertion-ordered dictionaries as association lists without repeated keys.
- `Stats`: sums, means, the sample standard deviation of `calculate_statistics`, and root mean squares.
- `Sizes`: the size labels, the raw byte counts, key normalisation and the report's size order.
- `Results`: the shared per-experiment summary, the default experiments, the results document and its file name (utils.py).
- `Http1Client`: the first client, which aborts at the first failed download (http1_client.py).
- `Http11Client`: the client that skips failed downloads (http1.1/client.py).
- `Http2Client`: the HTTP/2 client, a fold over h2 events (http2/client.py).
- `Merge`: `merge_protocol_results` (analyze.py).
- `Report`: the value matrix of `create_excel` (analyze.py).
- `Analyze`: `parse_results` and `main`, which group files by protocol, merge them and build the report (analyze.py).

Behaviours of the code that a reader might not expect, and that the model
keeps:

- An unknown size is not skipped. The lookup at analyze.py:64 raises
  `KeyError`, nothing catches it, and the skip at line 66 is never
  reached. `Merge.MergeProtocolResults` returns `Failure` in that case, and
  `Merge.MergeFailsOnUnknownSize` states exactly when.
- No protocols give no workbook. `pd.MultiIndex.from_tuples([])` at
  analyze.py:124 raises `TypeError`, and `Report.CreateExcel` returns
  `Failure`.
- An unreadable results file is not skipped. `parse_results` returns
  `({}, "Unknown", "Unknown")` (analyze.py:29-31), and `main` groups that
  file under the protocol "Unknown", which gets its own report columns.
- The report's rows are only the sizes some protocol has
  (analyze.py:127-133), not all four labels.
- Every non-zero standard deviation is kept (analyze.py:92), and they are
  combined whenever at least one of them is positive (analyze.py:99-101).
- A later experiment whose key repeats an earlier one's overwrites it
  (http1.1/client.py:85, http2/client.py:236): a key holds the summary of
  the last successful experiment of that name.

Two choices about how the model is written:

- `merge_protocol_results` combines each size's records as soon as it
  collects them. A later key of the same size overwrites the earlier
  entry. The model keeps the records of the last collecting key and
  combines them once at the end, which gives the same values.
- A JSON object is a `Dicts.Dict` without repeated keys, as `json.load`
  builds it (`Analyze.JsonObject`).

## Model

| member | source | states |
|---|---|---|
| Dicts.Get | analyze.py:73-74 | `None` exactly for a key that is absent; otherwise the value stored under that key |
| Dicts.Put | http1.1/client.py:85 | an existing key keeps its position and a new key goes last; keys stay distinct; the key then holds the new value and every other key its old one |
| Stats.Average | utils.py:15 | the mean times the number of values is their sum |
| Stats.AverageWithinBounds | utils.py:15 | the mean of values that lie between two bounds lies between them too |
| Stats.SumSqDev | utils.py:18 | the sum of squared deviations is never negative |
| Stats.Calculate | utils.py:10-23 | empty input gives {0, 0}; otherwise the mean times n is the sum; one value gives that value with stddev 0; for n > 1 the stddev is non-negative and its square times n - 1 is the sum of squared deviations |
| Stats.MeanWithinBounds | utils.py:15 | the computed mean lies between any lower and upper bound of the values |
| Stats.SumSqDevZero | utils.py:18 | the squared deviations sum to 0 exactly when every value equals the mean |
| Stats.ZeroStddevIffConstant | utils.py:17-19 | for n > 1 the stddev is 0 exactly when all values are equal |
| Stats.SumSqDevExpanded | utils.py:18 | the sum of squared deviations from m equals the sum of squares minus 2·m·sum plus n·m² |
| Stats.VarianceShortcut | utils.py:17-19 | for n > 1, stddev² · (n - 1) equals the sum of squares minus n · mean² |
| Stats.RootMeanSquare | analyze.py:101 | the result is non-negative and its square is the mean of the squares |
| Sizes.RawCountsAreBytes | analyze.py:55-60 | the four raw counts are the decimal renderings of 10·1024, 100·1024, 1024², 10·1024² bytes, in label order |
| Sizes.BaseSize | analyze.py:50-53 | a name without '_' is its own base size; otherwise the base size has no '_' and is shorter than the name |
| Sizes.BaseSizeOfKey | analyze.py:50-51 | for `{prefix}_{size}` followed by nothing or by another '_' part, the base size is `size` |
| Sizes.Normalise | analyze.py:55-67 | succeeds exactly on a label or a raw count; the result is always a label, and a label maps to itself |
| Sizes.NormaliseRawCount | analyze.py:55-64 | each raw count maps to the label at the same position |
| Sizes.SizeOfKey | analyze.py:50-67 | a key's size succeeds exactly when its base size is a label or raw count, and is then a label |
| Sizes.SizeOfClientKey | analyze.py:50-64 | a client's key `{prefix}_{label}` or `{prefix}_{raw count}` has that label as its size |
| Sizes.Rank | analyze.py:132-133 | the rank is below 4 exactly for a label, and is then its position in the label list; any other string ranks 99 |
| Sizes.RankOrdersLabels | analyze.py:132-133 | 10kB < 100kB < 1MB < 10MB in rank, and every label ranks below an unknown size |
| Results.ProcessExperimentResults | utils.py:26-57 | `None` exactly for no results; otherwise it keeps the file name, takes the first result's size, counts the results, keeps them, makes each mean the average of that field, and makes every stddev non-negative |
| Results.SingleResultSummary | utils.py:10-57 | one result is summarised as its own values with stddevs 0 |
| Results.SummaryIsStatistics | utils.py:30-53 | each metric summary is `calculate_statistics` over that field of the results |
| Results.SuccessesKeepEverySuccess | http1.1/client.py:56-67 | every successful attempt's sample is kept, every kept sample comes from some successful attempt, and none are kept exactly when no attempt succeeded |
| Results.SuccessesStep | http1.1/client.py:59-62 | one more attempt appends its sample when it succeeded and nothing otherwise |
| Results.Successes | http1.1/client.py:56-62 | at most `n` samples are kept, and exactly `n` exactly when every attempt succeeded |
| Results.SummaryIffAnySuccess | http1.1/client.py:56-69 | an experiment has a summary exactly when one of its attempts succeeded |
| Results.DefaultExperiments | utils.py:100-106 | there are four default experiments |
| Results.DefaultExperimentsShape | utils.py:100-106 | the default sizes are 10kB, 100kB, 1MB, 10MB in that order, each with ten times the repetitions of the next, the last with one |
| Results.InitializeResults | utils.py:111-118 | a fresh results document has the given protocol, server, prefix and clock reading, and no files |
| Results.StoredIsLast | http1.1/client.py:81-85 | after the loop, a key holds an entry exactly when some experiment of that name yielded one, and then it holds the last such experiment's: a later one overwrites an earlier one |
| Results.StoredKey | http1.1/client.py:81-85 | a dictionary that holds what the loop stored has a key exactly when some experiment of that name yielded an entry, and holds one such entry |
| Results.StoredStep | http1.1/client.py:81-85 | one more loop pass that stores an experiment's entry, if any, and touches nothing else extends what the earlier passes stored |
| Results.StoredExperiments | http1.1/client.py:81-85 | after the loop, a key holds an entry exactly when it is `{prefix}_{size}` of an experiment with a successful attempt, and that entry carries the key as its name |
| Results.StripSlashes | utils.py:125 | the result has no '/', has every other character of the input and no other, is no longer, and is unchanged when there was no '/' |
| Results.StripSlashesAppend | utils.py:125 | removing slashes distributes over concatenation |
| Results.ResultFileName | utils.py:125 | the name is "results_", the prefix, "_from_", the server, '_', the protocol without slashes and ".json", each placed at its position, 20 characters longer than those three parts, and with no '/' when prefix and server have none |
| Results.StripHttp11 | utils.py:125 | "HTTP/1.1" becomes "HTTP1.1" |
| Results.Http11FileName | http1.1/client.py:101 | the HTTP/1.1 client's results file is `results_{prefix}_from_{server}_HTTP1.1.json` |
| Http1Client.DownloadFile | http1_client.py:27-60 | a sample exists exactly when the request succeeded, Content-Length is an integer, and neither the transfer time nor the size is 0; then header size + file size = dump length, overhead · size = dump length, and throughput · time = size (bytes per second) |
| Http1Client.CalculateStatistics | http1_client.py:63-78 | empty input gives {0, 0}; otherwise the mean times n is the sum; one value gives stddev 0; for n > 1 the stddev² · (n - 1) is the sum of squared deviations |
| Http1Client.SameAsSharedStatistics | http1_client.py:63-78 | this file's statistics equal utils.py's on every input |
| Http1Client.StopsAtFirstFailureUnique | http1_client.py:102-115 | the samples an aborting experiment keeps (`StopsAtFirstFailure`: each attempt's sample up to the first failed attempt) are fixed by the download outcomes |
| Http1Client.RunExperiment | http1_client.py:80-163 | returns True exactly when the first attempt succeeded; then it stores under `{prefix}_{size}` the samples up to the first failure, at most `repetitions` of them, with the first sample's size and each metric's statistics; otherwise the files are unchanged |
| Http11Client.DownloadFile | http1.1/client.py:20-53 | a sample exists exactly when the request succeeded and Content-Length is absent or an integer (absent counts as 0); throughput · time = 8 · size when time > 0, else 0; overhead · size = dump length when size > 0, else 0; header size + size = dump length |
| Http11Client.RunExperiment | http1.1/client.py:55-71 | `None` exactly when no attempt succeeded; otherwise the summary of exactly the successful attempts in order |
| Http11Client.SummaryOf | http1.1/client.py:82-85 | experiment `j` yields a summary exactly when one of its attempts succeeded, and the summary is named `{prefix}_{size}` |
| Http11Client.StoredFiles | http1.1/client.py:81-87 | what the loop stored has exactly the keys of the experiments with a successful attempt, each holding a summary with its own name |
| Http11Client.AddExperiment | http1.1/client.py:82-85 | one loop pass: the key `{prefix}_{size}` is added exactly when an attempt succeeded and then holds the summary of the successful attempts; every other key keeps its entry; keys stay distinct |
| Http11Client.RunExperiments | http1.1/client.py:73-87 | the document has the client's protocol, server, prefix and clock reading; its keys are distinct and are exactly `{prefix}_{size}` of the (default when absent) experiments with a successful attempt; each key holds the summary of the last successful experiment of that name (`Results.Stored`), which carries the key as its name |
| Http2Client.UntilReset | http2/client.py:98-100 | a chunk is acted on up to, and not including, its first `StreamReset` |
| Http2Client.HeaderBytes | http2/client.py:84-85 | each header counts at least its 2 separator bytes, and the total is exactly 2 per header only when every name and value is empty |
| Http2Client.FoldEvents | http2/client.py:81-96 | `Step` over events without a reset appends their data payloads to the body, adds their header bytes, and sets the response and end flags when such an event occurs |
| Http2Client.ChunkIsItsPrefix | http2/client.py:81-100 | `ProcessChunk` on a chunk has the same effect as `Step` over its events before the first reset |
| Http2Client.ReceiveFoldsConsumed | http2/client.py:73-112 | the receive loop (`Receive`, over `ProcessChunk` and `Step`) gives the body, header size and flags of the consumed events: each chunk up to its reset, up to the chunk that ends the stream |
| Http2Client.Measure | http2/client.py:120-131 | throughput · duration = body length when duration > 0, else 0; overhead · length = length + header size, so overhead ≥ 1 |
| Http2Client.DownloadFile | http2/client.py:31-133 | a refused connection gives `None`; otherwise a sample exists exactly when a response arrived and the body is non-empty, measured from the consumed events |
| Http2Client.OneChunkEvents | http2/client.py:81-96 | a chunk of headers, data and end of stream is consumed whole, with that data and those header bytes |
| Http2Client.OneChunkDownload | http2/client.py:31-133 | such a one-chunk download measures exactly the data length and the header bytes |
| Http2Client.MeanAndStdev | http2/client.py:162-174 | the mean times n is the sum; one sample gives stddev 0; the stddev is non-negative, and for n > 1 its square times n - 1 is the sum of squared deviations |
| Http2Client.MeanAndStdevIsCalculate | http2/client.py:162-174 | the `statistics` functions agree with utils.py's `calculate_statistics` on non-empty input |
| Http2Client.RunExperiment | http2/client.py:135-198 | `None` exactly when no attempt succeeded; otherwise named `{prefix}_{size}`, holding exactly the successful samples, their count, the first one's length and each metric's statistics, with every stddev 0 for one sample |
| Http2Client.ExperimentSummary | http2/client.py:135-198 | `None` exactly for no successful samples; otherwise the file name, the samples, their count and the first one's length; each mean times n is the sum of that field; one sample gives stddevs 0; stddevs are non-negative |
| Http2Client.SummaryOf | http2/client.py:233-236 | experiment `j` yields a summary exactly when one of its attempts succeeded, and the summary is named `{prefix}_{size}` |
| Http2Client.StoredFiles | http2/client.py:233-236 | what the loop stored has exactly the keys of the experiments with a successful attempt, each holding a summary with its own name |
| Http2Client.AddExperiment | http2/client.py:233-236 | one loop pass: the key `{prefix}_{size}` is added exactly when an attempt succeeded and then holds the experiment's summary; every other key keeps its entry; keys stay distinct |
| Http2Client.OutputFileName | http2/client.py:239 | the name is "results_", the prefix, "_from_", the server and "_http2.json" in that order, each at its position, 25 characters longer than prefix and server together |
| Http2Client.RunMain | http2/client.py:200-243 | a missing or empty server address fails; otherwise the document has protocol, clock reading, server, address and prefix; its keys are distinct and are exactly those of the fixed experiments with a successful attempt; each key holds the summary of the last successful experiment of that name, which carries the key as its name |
| Merge.ContainsIff | analyze.py:78 | Python's substring test holds exactly when the part occurs at some position |
| Merge.FirstContaining | analyze.py:77-80 | `None` exactly when no key contains the size; otherwise the value of the first key that does |
| Merge.Pick | analyze.py:73-80 | a present name gives that key's value; an absent one gives the value of the first key containing the size; nothing is picked exactly when the name is absent and no key contains the size |
| Merge.Gather | analyze.py:71-80 | at most one record per file; every record was picked from some file; some pick gives a non-empty list; when every file has a pick, the records are those picks in file order |
| Merge.GatherAppend | analyze.py:71-80 | gathering over two runs of files is gathering over the first run, then over the second |
| Merge.GatherOne | analyze.py:71-80 | one file contributes its pick, if it has one, and nothing else |
| Merge.Collect | analyze.py:70-80 | the same four facts for the exact-or-containing pick of a name and size |
| Merge.CollectAppend | analyze.py:70-80 | two runs of files collect the first run's records, then the second's |
| Merge.CollectOne | analyze.py:70-80 | one file contributes exactly its pick, if any |
| Merge.NonZero | analyze.py:91-92 | keeps only non-zero values, every non-zero value that occurs, and nothing exactly when all values are 0 |
| Merge.NonZeroCounts | analyze.py:91-92 | every non-zero value is kept exactly as often as it occurs, and no 0 is kept |
| Merge.NonZeroAppend | analyze.py:91-92 | dropping zeros from two runs is dropping them from each run |
| Merge.NonZeroSkipsZero | analyze.py:91-92 | a 0 between two runs of values is dropped |
| Merge.MergeMetric | analyze.py:89-110 | with no non-zero mean the metric is {0, 0}; otherwise the mean is the average of the non-zero means; the stddev is never negative |
| Merge.MergeMetrics | analyze.py:89-110 | when some record has a non-zero transfer-time (throughput, overhead) mean, that metric's mean is the average of the non-zero means of that field; no records give `{0, 0}` three times; no stddev is negative; the stddev and the all-zero case of each field are stated by the three rows below |
| Merge.MergedTransferTime | analyze.py:89-110 | the merged transfer time depends only on the records' transfer times: `{0, 0}` when all their means are 0; stddev 0 when none of their stddevs is positive; with a non-zero mean and a positive stddev among them, the squared stddev is the mean square of their non-zero stddevs |
| Merge.MergedThroughput | analyze.py:89-110 | the merged throughput depends only on the records' throughputs: `{0, 0}` when all their means are 0; stddev 0 when none of their stddevs is positive; with a non-zero mean and a positive stddev among them, the squared stddev is the mean square of their non-zero stddevs |
| Merge.MergedOverheadRatio | analyze.py:89-110 | the merged overhead ratio depends only on the records' overhead ratios: `{0, 0}` when all their means are 0; stddev 0 when none of their stddevs is positive; with a non-zero mean and a positive stddev among them, the squared stddev is the mean square of their non-zero stddevs |
| Merge.AllZeroMeans | analyze.py:109-110 | when every mean is 0 the metric is {0, 0}, whatever the stddevs |
| Merge.MergedMeanIsAverage | analyze.py:91-96 | with a non-zero mean present, the merged mean is the sum of the non-zero means over their count |
| Merge.MergedMeanWithinBounds | analyze.py:91-96 | the merged mean lies between any bounds of the non-zero means |
| Merge.NoPositiveStddev | analyze.py:99-103 | with no positive stddev the merged stddev is 0 |
| Merge.PositiveStddevIsRms | analyze.py:99-101 | with a positive stddev, the merged stddev is non-negative and its square is the mean square of the non-zero stddevs |
| Merge.SingleRecordUnchanged | analyze.py:91-108 | one record with a non-zero mean and a positive stddev merges to itself |
| Merge.ZeroSentinelsIgnored | analyze.py:91-110 | a `{0, 0}` record inserted anywhere among the records leaves the combined metric unchanged |
| Merge.AllKeys | analyze.py:43-45 | the key set is exactly the keys of some result file |
| Merge.SizeAll | analyze.py:48-64 | succeeds exactly when every name has a size, pairing each name with its size in order |
| Merge.GroupSizedKeys | analyze.py:82-86 | a size gets an entry exactly when it had one or some name of that size collected a record |
| Merge.GroupSizedUntouched | analyze.py:82-86 | a size no name has keeps its entry |
| Merge.GroupSizedLastWins | analyze.py:48-86 | after `GroupSized`, a size's entry is what its last collecting name collected |
| Merge.GroupsAreLabels | analyze.py:63-86 | entries only form under the sizes of the names |
| Merge.MergeProtocolResults | analyze.py:34-112 | no files give an empty map; every size of a merged map is a label |
| Merge.CollectFindsName | analyze.py:73-74 | a name present in some file collects at least one record |
| Merge.KeyIsGrouped | analyze.py:43-86 | a key of known size puts its size into the groups |
| Merge.NamesAreKeys | analyze.py:43-48 | the iterated names are exactly the result keys |
| Merge.MergeFailsOnUnknownSize | analyze.py:55-64 | the merge fails exactly when some result key has a size that is neither a label nor a raw count |
| Merge.GroupedSizeHasKey | analyze.py:48-86 | every grouped size is the size of some result key |
| Merge.GroupsAreKeySizes | analyze.py:43-86 | the grouped sizes are exactly the sizes of the result keys |
| Merge.MergedSizesAreKeySizes | analyze.py:34-112 | a successful merge has an entry for exactly the sizes of the result keys |
| Merge.LastKeyDecides | analyze.py:48-86 | a grouped size's records are those one result key of that size collected |
| Merge.GroupsAreCollections | analyze.py:48-86 | every group is the collection of some result key of its size |
| Merge.MergedValuesAreCombinations | analyze.py:48-110 | each merged entry combines the records one result key of that size collected |
| Report.Columns | analyze.py:117-124 | two columns per protocol, `(p, "Mean")` then `(p, "Std Dev")`, in protocol order |
| Report.AllSizes | analyze.py:126-129 | the sizes are exactly those some protocol has |
| Report.Insert | analyze.py:133 | inserting keeps the list sorted by key and adds exactly one element |
| Report.SortBy | analyze.py:133 | the result is sorted by key and a permutation of the input |
| Report.SortByRank | analyze.py:131-133 | the result is ordered by rank and a permutation of the input |
| Report.Row | analyze.py:140-151 | two cells per protocol: its mean and stddev for the size, or two empty cells when it lacks the size |
| Report.CreateExcel | analyze.py:115-180 | fails exactly for no protocols; otherwise the columns are the protocol pairs, the rows are a rank-ordered permutation of the size set, and the three tables have one row per size |
| Report.CreateExcelRows | analyze.py:126-133 | the rows are exactly the sizes some protocol has, each once, in rank order |
| Report.CreateExcelCells | analyze.py:140-175 | each row of each sheet is that size's row for that metric, with 2 · protocols cells |
| Report.RankSeparatesLabels | analyze.py:132 | two different labels have different ranks |
| Report.LabelledRows | analyze.py:126-133 | when all sizes are labels, the rows are labels in strictly increasing rank |
| Analyze.Convert | analyze.py:22-26 | an entry is kept exactly when it has all three metrics, with `throughput_bps` renamed to `throughput` |
| Analyze.Entries | analyze.py:19-26 | the conversion succeeds exactly when every entry converts, and keeps the keys in order without repeats |
| Analyze.EntriesValues | analyze.py:21-26 | each converted size holds the converted entry, and an absent size stays absent |
| Analyze.ParseResults | analyze.py:11-31 | an unreadable file or a malformed entry gives `({}, "Unknown", "Unknown")`; otherwise the converted entries, with "Unknown" for a missing protocol or prefix |
| Analyze.MissingFilesIsEmpty | analyze.py:21 | a document without `files` has no entries |
| Analyze.GroupByProtocol | analyze.py:255-263 | the groups have distinct keys, which are exactly the protocols seen |
| Analyze.GroupValues | analyze.py:255-263 | each protocol's group is its files in input order |
| Analyze.FilesOf | analyze.py:257-263 | a protocol collects at most one result per document, and one for every document exactly when every document has that protocol |
| Analyze.FilesOfAbsent | analyze.py:255-263 | a protocol never seen has no files |
| Analyze.GroupedInFirstSeenOrder | analyze.py:255-263 | the protocols are listed in the order they were first seen |
| Analyze.MergeAll | analyze.py:268-272 | fails exactly when some protocol's merge fails; otherwise each protocol, in order, holds its merged map |
| Analyze.ParseAll | analyze.py:257-258 | each document is parsed to its results and protocol, in order |
| Analyze.Summarise | analyze.py:255-275 | the report fails exactly when there are no files or some merge fails |
| Analyze.Analyze | analyze.py:246-275 | the same for the documents as read |
| Analyze.MergedDataIsLabelled | analyze.py:268-272 | every merged size is a label |
| Analyze.ReportRowsAreLabels | analyze.py:246-275 | the report's rows are labels in strictly increasing rank |
| Analyze.ReportColumnsAreProtocols | analyze.py:246-275 | the report's columns are the grouped protocols in first-seen order, a mean and a stddev each |

## Left out

- Network and protocol plumbing: `requests`, `dump_response`, sockets and the `H2Connection` state machine. An HTTP exchange and its h2 events are input values.
- Clock readings (`time.time`, `time.strftime`). They are parameters.
- Printing, progress bars, logging and `pprint`, because they are side effects only.
- JSON reading and writing, `glob` and `machines.json` loading (`load_machine_config`, `get_server_ip`), because they are I/O. The server address is an `Option` parameter of `Http2Client.RunMain`.
- Workbook writing, styling, number formats and column widths (analyze.py:183-244). Only the value matrix is modelled.
- The `main` of http1.1/client.py, because it is argument parsing, the `VM_IP_MAP` lookup, the modelled `Http11Client.RunExperiments` (http1.1/client.py:100) and the file write.
- The `main` of http1_client.py (http1_client.py:171-216): its loop of `run_experiment` calls over the four default experiments into one dictionary (lines 204-211) has no member of its own, only the single call `Http1Client.RunExperiment`; and its file name `results_{file}_from_{server}_http1.json` (line 214) is its own format string, not `save_results`' rule, and is used only for the file write.
- The `content-length` parse in http2/client.py:86-87. Its value is never used, and an unparsable value raises an uncaught `ValueError` inside the receive loop, which is protocol-library territory.
- `print_experiment_summary` (utils.py:59-72), because it is output only.
- The servers and the BitTorrent seeder and client, which have no pure logic of their own.
- IEEE floating-point rounding and the real `math.sqrt`. Values are exact reals and `sqrt` is a parameter.
- Analyze.ParseResults: a protocol value that is not a string, or a metric record missing its `mean` or `stddev`, is not modelled. Metric records are taken as well-formed.
- Merge.MergeMetric: values of a type other than a number (`None` or strings in a hand-edited file) are not modelled.
