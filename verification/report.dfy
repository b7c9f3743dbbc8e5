/** The value matrix of analyze.py's `create_excel`: one column pair per
    protocol, one row per file size in canonical size order, and three
    tables (transfer time, throughput, overhead ratio) of that shape. The
    workbook file, its styling and number formats are not modelled. */
module Report {
  import opened Wrappers
  import opened Stats
  import opened Sizes
  import Dicts

  /** `protocol_data`: protocol name to its merged map, in insertion order. */
  type ProtocolData = Dicts.Dict<string, map<string, Metrics>>

  datatype Metric = TransferTime | Throughput | OverheadRatio

  function Select(m: Metrics, metric: Metric): Stat {
    match metric
    case TransferTime => m.transferTime
    case Throughput => m.throughput
    case OverheadRatio => m.overheadRatio
  }

  /** The cell values of the three sheets: `None` is an empty cell. */
  datatype Tables = Tables(
    columns: seq<(string, string)>,
    rows: seq<string>,
    transferTime: seq<seq<Option<real>>>,
    throughput: seq<seq<Option<real>>>,
    overheadRatio: seq<seq<Option<real>>>)

  /** The column tuples: `(protocol, "Mean")` and `(protocol, "Std Dev")`
      for each protocol in order. */
  function Columns(ps: ProtocolData): (c: seq<(string, string)>)
    ensures |c| == 2 * |ps|
    ensures forall k :: 0 <= k < |ps| ==> c[2 * k] == (ps[k].0, "Mean") && c[2 * k + 1] == (ps[k].0, "Std Dev")
  {
    if |ps| == 0 then []
    else
      var rest := Columns(ps[1..]);
      assert forall k :: 1 <= k < |ps| ==> ps[k] == ps[1..][k - 1];
      [(ps[0].0, "Mean"), (ps[0].0, "Std Dev")] + rest
  }

  /** `file_sizes` before sorting: every size some protocol has. */
  function AllSizes(ps: ProtocolData): (s: set<string>)
    ensures forall x :: x in s <==> exists k :: 0 <= k < |ps| && x in ps[k].1
  {
    if |ps| == 0 then {}
    else
      var rest := AllSizes(ps[1..]);
      assert forall k :: 1 <= k < |ps| ==> ps[k] == ps[1..][k - 1];
      ps[0].1.Keys + rest
  }

  /** Non-decreasing under `key`. */
  predicate SortedBy(s: seq<string>, key: string -> nat) {
    forall i, j :: 0 <= i < j < |s| ==> key(s[i]) <= key(s[j])
  }

  /** Places `x` after every element whose key is at most its own. */
  function Insert(x: string, s: seq<string>, key: string -> nat): (r: seq<string>)
    requires SortedBy(s, key)
    ensures SortedBy(r, key)
    ensures multiset(r) == multiset(s) + multiset{x}
  {
    if |s| == 0 then [x]
    else if key(x) < key(s[0]) then [x] + s
    else
      var rest := Insert(x, s[1..], key);
      assert s == [s[0]] + s[1..];
      assert forall i :: 0 <= i < |rest| ==> key(s[0]) <= key(rest[i]) by {
        forall i | 0 <= i < |rest| ensures key(s[0]) <= key(rest[i]) {
          assert rest[i] in multiset(rest);
          assert rest[i] in multiset(s[1..]) || rest[i] == x;
        }
      }
      [s[0]] + rest
  }

  /** A stable sort by `key`: each element goes after those already placed
      with a key at most its own. The contract states sortedness and the
      permutation but not stability: under `Rank` only the unknown sizes
      (rank 99) can tie, the merged data holds labels only, and the order
      of the size set is itself left open. */
  function SortBy(xs: seq<string>, key: string -> nat): (r: seq<string>)
    ensures SortedBy(r, key)
    ensures multiset(r) == multiset(xs)
  {
    if |xs| == 0 then []
    else
      var n := |xs| - 1;
      assert xs == xs[..n] + [xs[n]];
      Insert(xs[n], SortBy(xs[..n], key), key)
  }

  /** `sorted(file_sizes, key=lambda x: size_order.get(x, 99))`. */
  function SortByRank(xs: seq<string>): (r: seq<string>)
    ensures forall i, j :: 0 <= i < j < |r| ==> Rank(r[i]) <= Rank(r[j])
    ensures multiset(r) == multiset(xs)
  {
    SortBy(xs, Rank)
  }

  /** One row of one sheet: the mean and the standard deviation of each
      protocol in turn, or two empty cells when the protocol lacks the size. */
  function Row(size: string, ps: ProtocolData, metric: Metric): (row: seq<Option<real>>)
    ensures |row| == 2 * |ps|
    ensures forall k :: 0 <= k < |ps| ==>
      if size in ps[k].1 then
        row[2 * k] == Some(Select(ps[k].1[size], metric).mean)
        && row[2 * k + 1] == Some(Select(ps[k].1[size], metric).stddev)
      else
        row[2 * k] == None && row[2 * k + 1] == None
  {
    if |ps| == 0 then []
    else
      var rest := Row(size, ps[1..], metric);
      assert forall k :: 1 <= k < |ps| ==> ps[k] == ps[1..][k - 1];
      var cells := if size in ps[0].1 then
        [Some(Select(ps[0].1[size], metric).mean), Some(Select(ps[0].1[size], metric).stddev)]
      else [None, None];
      cells + rest
  }

  function Table(sizes: seq<string>, ps: ProtocolData, metric: Metric): (t: seq<seq<Option<real>>>)
    ensures |t| == |sizes| && forall i :: 0 <= i < |sizes| ==> t[i] == Row(sizes[i], ps, metric)
  {
    seq(|sizes|, i requires 0 <= i < |sizes| => Row(sizes[i], ps, metric))
  }

  /** The data part of `create_excel(protocol_data)`; Python's iteration
      order over the set of sizes is `enumerate`. With no protocol at all,
      `pd.MultiIndex.from_tuples([])` raises. */
  function CreateExcel(ps: ProtocolData, enumerate: set<string> -> seq<string>): (r: Result<Tables>)
    ensures r.Failure? <==> |ps| == 0
    ensures r.Success? ==>
      && r.value.columns == Columns(ps)
      && (forall i, j :: 0 <= i < j < |r.value.rows| ==> Rank(r.value.rows[i]) <= Rank(r.value.rows[j]))
      && multiset(r.value.rows) == multiset(enumerate(AllSizes(ps)))
      && |r.value.transferTime| == |r.value.throughput| == |r.value.overheadRatio| == |r.value.rows|
  {
    if |ps| == 0 then Failure("TypeError: Cannot infer number of levels from empty list")
    else
      var sizes := SortByRank(enumerate(AllSizes(ps)));
      Success(Tables(Columns(ps), sizes,
                     Table(sizes, ps, TransferTime),
                     Table(sizes, ps, Throughput),
                     Table(sizes, ps, OverheadRatio)))
  }

  /** Two equal elements at different positions count twice. */
  lemma TwoCopies(a: seq<string>, i: nat, j: nat)
    requires i < j < |a|
    ensures a[i] == a[j] ==> multiset(a)[a[i]] >= 2
  {
    assert a == a[..i] + [a[i]] + a[i + 1..j] + [a[j]] + a[j + 1..];
  }

  /** A rearrangement of a list without repeats has no repeats. */
  lemma MultisetDistinct(a: seq<string>, b: seq<string>)
    requires multiset(a) == multiset(b)
    requires Dicts.Distinct(b)
    ensures Dicts.Distinct(a)
  {
    forall i, j | 0 <= i < j < |a|
      ensures a[i] != a[j]
    {
      TwoCopies(a, i, j);
      DistinctCount(b, a[i]);
    }
  }

  lemma {:induction false} DistinctCount(b: seq<string>, x: string)
    requires Dicts.Distinct(b)
    ensures multiset(b)[x] <= 1
  {
    if |b| > 0 {
      assert b == [b[0]] + b[1..];
      assert Dicts.Distinct(b[1..]) by {
        forall i, j | 0 <= i < j < |b[1..]| ensures b[1..][i] != b[1..][j] {
          assert b[1..][i] == b[i + 1] && b[1..][j] == b[j + 1];
        }
      }
      DistinctCount(b[1..], x);
      if b[0] == x {
        assert x !in b[1..] by {
          forall i | 0 <= i < |b[1..]| ensures b[1..][i] != x {
            assert b[1..][i] == b[i + 1];
          }
        }
      }
    }
  }

  /** With Python's set iteration the rows are every size of some protocol,
      each once, smallest label first and unknown labels last. */
  lemma {:induction false} CreateExcelRows(ps: ProtocolData, enumerate: set<string> -> seq<string>)
    requires Dicts.IsEnumeration(enumerate)
    requires |ps| > 0
    ensures var rows := CreateExcel(ps, enumerate).value.rows;
      && (forall x :: x in rows <==> exists k :: 0 <= k < |ps| && x in ps[k].1)
      && Dicts.Distinct(rows)
      && (forall i, j :: 0 <= i < j < |rows| ==> Rank(rows[i]) <= Rank(rows[j]))
  {
    var names := enumerate(AllSizes(ps));
    var rows := CreateExcel(ps, enumerate).value.rows;
    assert multiset(rows) == multiset(names);
    forall x
      ensures x in rows <==> x in names
    {
      assert x in rows <==> x in multiset(rows);
      assert x in names <==> x in multiset(names);
    }
    MultisetDistinct(rows, names);
  }

  /** Every row of every sheet has two cells per protocol, filled from that
      protocol's entry for the row's size or left empty when it has none. */
  lemma {:induction false} CreateExcelCells(ps: ProtocolData, enumerate: set<string> -> seq<string>)
    requires |ps| > 0
    ensures var t := CreateExcel(ps, enumerate).value;
      forall i :: 0 <= i < |t.rows| ==>
        && t.transferTime[i] == Row(t.rows[i], ps, TransferTime)
        && t.throughput[i] == Row(t.rows[i], ps, Throughput)
        && t.overheadRatio[i] == Row(t.rows[i], ps, OverheadRatio)
        && |t.transferTime[i]| == |t.throughput[i]| == |t.overheadRatio[i]| == 2 * |ps|
  {
  }

  /** Two labels of the same rank are the same label. */
  lemma RankSeparatesLabels(a: string, b: string)
    requires a in Labels && b in Labels && a != b
    ensures Rank(a) != Rank(b)
  {
  }

  /** When every protocol's sizes are labels, the rows are labels listed
      strictly in the order 10kB, 100kB, 1MB, 10MB. */
  lemma {:induction false} LabelledRows(ps: ProtocolData, enumerate: set<string> -> seq<string>)
    requires Dicts.IsEnumeration(enumerate)
    requires |ps| > 0
    requires forall k, b :: 0 <= k < |ps| && b in ps[k].1 ==> b in Labels
    ensures var rows := CreateExcel(ps, enumerate).value.rows;
      && (forall i :: 0 <= i < |rows| ==> rows[i] in Labels)
      && (forall i, j :: 0 <= i < j < |rows| ==> Rank(rows[i]) < Rank(rows[j]))
  {
    CreateExcelRows(ps, enumerate);
    var rows := CreateExcel(ps, enumerate).value.rows;
    forall i | 0 <= i < |rows|
      ensures rows[i] in Labels
    {
      assert rows[i] in rows;
      var k :| 0 <= k < |ps| && rows[i] in ps[k].1;
    }
    forall i, j | 0 <= i < j < |rows|
      ensures Rank(rows[i]) < Rank(rows[j])
    {
      RankSeparatesLabels(rows[i], rows[j]);
    }
  }
}
