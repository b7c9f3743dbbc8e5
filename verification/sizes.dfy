/** File-size labels as the clients write them into result keys
    (`{prefix}_{size}`) and as analyze.py normalises and orders them. */
module Sizes {
  import opened Wrappers
  import Dicts

  /** The four sizes of the default experiment list, smallest first. */
  const Labels: seq<string> := ["10kB", "100kB", "1MB", "10MB"]

  /** The byte counts some result files use instead of a label, in the
      order of `Labels` (analyze.py's `base_size_conversion`). */
  const RawCounts: seq<string> := ["10240", "102400", "1048576", "10485760"]

  /** The sizes in bytes, with 1 kB = 1024 bytes and 1 MB = 1024 kB. */
  const Bytes: seq<nat> := [10 * 1024, 100 * 1024, 1024 * 1024, 10 * 1024 * 1024]

  /** Decimal rendering of a natural number, most significant digit first. */
  function Decimal(n: nat): (s: string)
    ensures |s| > 0
    ensures forall i :: 0 <= i < |s| ==> '0' <= s[i] <= '9'
  {
    var d := ['0' + (n % 10) as char];
    if n < 10 then d else Decimal(n / 10) + d
  }

  /** The raw counts are exactly the decimal renderings of the label sizes. */
  lemma RawCountsAreBytes()
    ensures |RawCounts| == |Bytes| == |Labels|
    ensures forall i :: 0 <= i < |RawCounts| ==> RawCounts[i] == Decimal(Bytes[i])
  {
    DecimalOfKilobytes();
    DecimalOfMegabytes();
  }

  /** Appending a digit to a positive number appends it to the rendering. */
  lemma DecimalDigit(n: nat, d: nat)
    requires 0 < n && d < 10
    ensures Decimal(10 * n + d) == Decimal(n) + ['0' + d as char]
  {
    assert (10 * n + d) % 10 == d && (10 * n + d) / 10 == n;
  }

  lemma DecimalOfKilobytes()
    ensures Decimal(10240) == "10240" && Decimal(102400) == "102400"
  {
    assert Decimal(1) == "1";
    DecimalDigit(1, 0);
    DecimalDigit(10, 2);
    DecimalDigit(102, 4);
    DecimalDigit(1024, 0);
    DecimalDigit(10240, 0);
  }

  lemma DecimalOfMegabytes()
    ensures Decimal(1048576) == "1048576" && Decimal(10485760) == "10485760"
  {
    assert Decimal(1) == "1";
    DecimalDigit(1, 0);
    DecimalDigit(10, 4);
    DecimalDigit(104, 8);
    DecimalDigit(1048, 5);
    DecimalDigit(10485, 7);
    DecimalDigit(104857, 6);
    DecimalDigit(1048576, 0);
  }

  /** `name.split('_')[1]` when `name` contains `'_'`, else `name` itself:
      the text between the first and the second underscore (or the end). */
  function BaseSize(name: string): (r: string)
    ensures '_' !in name ==> r == name
    ensures '_' in name ==> '_' !in r && |r| < |name|
  {
    var i := Dicts.Index(name, '_');
    if i == |name| then name
    else
      var rest := name[i + 1..];
      var j := Dicts.Index(rest, '_');
      rest[..j]
  }

  /** The component a client put after `{prefix}_` comes back out, whatever
      follows it after a further underscore. */
  lemma {:induction false} BaseSizeOfKey(prefix: string, size: string, tail: string)
    requires '_' !in prefix && '_' !in size
    requires tail == [] || tail[0] == '_'
    ensures BaseSize(prefix + "_" + size + tail) == size
  {
    var name := prefix + "_" + size + tail;
    assert name[|prefix|] == '_';
    assert forall k :: 0 <= k < |prefix| ==> name[k] == prefix[k];
    var i := Dicts.Index(name, '_');
    assert i == |prefix|;
    var rest := name[i + 1..];
    assert rest == size + tail;
    assert forall k :: 0 <= k < |size| ==> rest[k] == size[k];
    if tail != [] {
      assert rest[|size|] == '_';
    }
    assert Dicts.Index(rest, '_') == |size|;
  }

  /** analyze.py's normalisation of a base size: a label stays, a raw byte
      count becomes its label, and anything else fails the dictionary lookup
      (`KeyError`), which nothing in analyze.py catches. */
  function Normalise(base: string): (r: Result<string>)
    ensures r.Success? <==> base in Labels || base in RawCounts
    ensures r.Success? ==> r.value in Labels
    ensures base in Labels ==> r == Success(base)
  {
    if base in Labels then Success(base)
    else
      var i := Dicts.Index(RawCounts, base);
      if i < |RawCounts| then Success(Labels[i]) else Failure("KeyError: " + base)
  }

  /** Each raw count normalises to the label at the same position. */
  lemma NormaliseRawCount(i: nat)
    requires i < |RawCounts|
    ensures Normalise(RawCounts[i]) == Success(Labels[i])
  {
    assert Dicts.Index(RawCounts, RawCounts[i]) == i;
  }

  /** The normalised size of a result key. */
  function SizeOfKey(name: string): (r: Result<string>)
    ensures r.Success? ==> r.value in Labels
    ensures r.Success? <==> BaseSize(name) in Labels || BaseSize(name) in RawCounts
  {
    Normalise(BaseSize(name))
  }

  /** A key the clients build, `{prefix}_{label}` or `{prefix}_{count}`,
      normalises to its label. */
  lemma SizeOfClientKey(prefix: string, i: nat)
    requires '_' !in prefix && i < |Labels|
    ensures SizeOfKey(prefix + "_" + Labels[i]) == Success(Labels[i])
    ensures SizeOfKey(prefix + "_" + RawCounts[i]) == Success(Labels[i])
  {
    assert prefix + "_" + Labels[i] == prefix + "_" + Labels[i] + [];
    BaseSizeOfKey(prefix, Labels[i], []);
    assert prefix + "_" + RawCounts[i] == prefix + "_" + RawCounts[i] + [];
    BaseSizeOfKey(prefix, RawCounts[i], []);
    NormaliseRawCount(i);
  }

  /** create_excel's `size_order.get(x, 99)`. */
  function Rank(size: string): (r: nat)
    ensures r < |Labels| <==> size in Labels
    ensures r < |Labels| ==> Labels[r] == size
    ensures size !in Labels ==> r == 99
  {
    var i := Dicts.Index(Labels, size);
    if i < |Labels| then i else 99
  }

  /** The ranks list the labels in their order, every other string last. */
  lemma RankOrdersLabels(i: nat, j: nat, other: string)
    requires i < j < |Labels|
    requires other !in Labels
    ensures Rank(Labels[i]) < Rank(Labels[j]) < Rank(other)
  {
    assert Dicts.Index(Labels, Labels[i]) == i;
    assert Dicts.Index(Labels, Labels[j]) == j;
  }
}
