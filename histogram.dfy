/** The shared histogram of days between events (main.py:259-283). */
module Histogram {
  import opened Options
  import opened Signals
  import opened Events
  import opened Intervals
  import opened Summary
  import opened Uniques
  import opened Sorting

  /** `bins[:-1]`: the finite bin edges; the last bin is open above
      (its upper edge is `float('inf')`). */
  const Edges: seq<int> := [0, 50, 100, 150, 200, 250, 300, 350, 400, 450, 500,
                            550, 600, 650, 700, 750, 800, 850, 900, 950, 1000]

  const BucketCount: nat := 21

  /** `pd.cut(..., right=False, include_lowest=True)`: the half-open bin
      `[Edges[k], Edges[k + 1])` holding `d`; a value below 0 falls outside
      every bin (NaN). */
  function BucketOf(d: int): (b: Option<nat>)
    ensures b.None? <==> d < 0
    ensures b.Some? ==> b.value < BucketCount
  {
    if d < 0 then None else if d < 1000 then Some(d / 50) else Some(BucketCount - 1)
  }

  /** `d` falls in bin `k` exactly when it lies between that bin's edges. */
  lemma BucketOfEdges(d: int, k: nat)
    ensures BucketOf(d) == Some(k) <==>
              k < BucketCount && Edges[k] <= d && (k == BucketCount - 1 || d < Edges[k + 1])
  {
    assert |Edges| == BucketCount;
    assert forall j :: 0 <= j < BucketCount ==> Edges[j] == 50 * j;
    if d >= 0 && d < 1000 {
      assert 50 * (d / 50) <= d < 50 * (d / 50) + 50;
      if k < BucketCount - 1 && Edges[k] <= d < Edges[k + 1] {
        assert 50 * k <= d < 50 * k + 50;
        assert d / 50 == k;
      }
    }
  }

  /** The boundary cases: 49 is the last value of `0-49`, 50 the first of
      `50-99`, and everything from 1000 on lands in `1000+`. */
  lemma BucketBoundaries()
    ensures BucketOf(0) == Some(0) && BucketOf(49) == Some(0) && BucketOf(50) == Some(1)
    ensures BucketOf(400) == Some(8) && BucketOf(999) == Some(19)
    ensures BucketOf(1000) == Some(20) && BucketOf(100000) == Some(20)
    ensures BucketOf(-1) == None
  {
  }

  function Digit(d: nat): char
    requires d < 10
  {
    "0123456789"[d]
  }

  /** Decimal spelling of a natural number, as an f-string writes it. */
  function NatToString(n: nat): string {
    if n < 10 then [Digit(n)] else NatToString(n / 10) + [Digit(n % 10)]
  }

  /** `labels[k]`: `'{low}-{high - 1}'` for a closed-above bin and
      `'{low}+'` for the last one. */
  function BucketLabel(k: nat): string
    requires k < BucketCount
  {
    if k < BucketCount - 1 then NatToString(Edges[k]) + "-" + NatToString(Edges[k + 1] - 1)
    else NatToString(Edges[k]) + "+"
  }

  function Labels(): (ls: seq<string>)
    ensures |ls| == BucketCount
  {
    seq(BucketCount, k requires 0 <= k < BucketCount => BucketLabel(k))
  }

  lemma DecimalSpellings()
    ensures NatToString(0) == "0" && NatToString(49) == "49" && NatToString(50) == "50"
    ensures NatToString(99) == "99" && NatToString(400) == "400" && NatToString(449) == "449"
    ensures NatToString(950) == "950" && NatToString(999) == "999" && NatToString(1000) == "1000"
  {
    assert NatToString(40) == "40" && NatToString(44) == "44";
    assert NatToString(95) == "95" && NatToString(99) == "99";
    assert NatToString(10) == "10" && NatToString(100) == "100";
  }

  /** A closed-above bin is labelled by its two ends. */
  lemma LabelSpelling(k: nat)
    requires k < BucketCount - 1
    ensures Labels()[k] == NatToString(50 * k) + "-" + NatToString(50 * k + 49)
  {
    assert Edges[k] == 50 * k && Edges[k + 1] == 50 * k + 50;
  }

  /** The labels read `0-49`, `50-99`, ..., `950-999`, `1000+`. */
  lemma LabelsSpelled()
    ensures Labels()[0] == "0-49" && Labels()[1] == "50-99" && Labels()[8] == "400-449"
    ensures Labels()[19] == "950-999" && Labels()[20] == "1000+"
  {
    DecimalSpellings();
    LabelSpelling(0);
    LabelSpelling(1);
    LabelSpelling(8);
    LabelSpelling(19);
    assert Labels()[20] == NatToString(1000) + "+";
  }

  /** How many of `ds` fall in bin `k`. */
  function CountIn(ds: seq<int>, k: nat): nat {
    if ds == [] then 0
    else CountIn(ds[..|ds| - 1], k) + (if BucketOf(ds[|ds| - 1]) == Some(k) then 1 else 0)
  }

  /** `value_counts(sort=False)` aligned on all labels, missing bins as 0. */
  function Counts(ds: seq<int>): (r: seq<nat>)
    ensures |r| == BucketCount
  {
    seq(BucketCount, k requires 0 <= k < BucketCount => CountIn(ds, k))
  }

  function SumNat(xs: seq<nat>): nat {
    if xs == [] then 0 else SumNat(xs[..|xs| - 1]) + xs[|xs| - 1]
  }

  lemma {:induction false} SumNatIncrement(xs: seq<nat>, ys: seq<nat>, b: nat)
    requires |xs| == |ys| && b < |xs|
    requires ys[b] == xs[b] + 1
    requires forall k :: 0 <= k < |xs| && k != b ==> ys[k] == xs[k]
    ensures SumNat(ys) == SumNat(xs) + 1
  {
    var n := |xs|;
    if b == n - 1 {
      assert xs[..n - 1] == ys[..n - 1];
    } else {
      SumNatIncrement(xs[..n - 1], ys[..n - 1], b);
    }
  }

  /** Every non-negative interval is counted in exactly one bin, so the
      counts add up to the number of intervals. */
  lemma {:induction false} CountsSum(ds: seq<int>)
    requires forall i :: 0 <= i < |ds| ==> ds[i] >= 0
    ensures SumNat(Counts(ds)) == |ds|
  {
    if ds == [] {
      var z := Counts(ds);
      ZeroSum(z);
    } else {
      var pre := ds[..|ds| - 1];
      var d := ds[|ds| - 1];
      assert forall i :: 0 <= i < |pre| ==> pre[i] == ds[i];
      CountsSum(pre);
      var b := if d < 1000 then d / 50 else BucketCount - 1;
      assert BucketOf(d) == Some(b);
      SumNatIncrement(Counts(pre), Counts(ds), b);
    }
  }

  lemma {:induction false} ZeroSum(xs: seq<nat>)
    requires forall k :: 0 <= k < |xs| ==> xs[k] == 0
    ensures SumNat(xs) == 0
  {
    if xs != [] {
      ZeroSum(xs[..|xs| - 1]);
    }
  }

  /** One column of `distribution_df`: its name and its count per bin. */
  datatype Column = Column(name: string, counts: seq<nat>)

  /** The `Category` column of `interval_df`. */
  function RecordCategories(records: seq<IntervalRecord>): (cs: seq<Category>)
    ensures |cs| == |records|
    ensures forall i :: 0 <= i < |records| ==> cs[i] == records[i].category
  {
    seq(|records|, i requires 0 <= i < |records| => records[i].category)
  }

  function ColumnFor(records: seq<IntervalRecord>, c: Category): Column {
    Column(Label(c), Counts(DaysOf(records, c)))
  }

  /** `distribution_data`, in insertion order. */
  function DistributionColumns(records: seq<IntervalRecord>): (cols: seq<Column>)
    ensures |cols| == |Unique(RecordCategories(records))|
  {
    var cats := Unique(RecordCategories(records));
    seq(|cats|, i requires 0 <= i < |cats| => ColumnFor(records, cats[i]))
  }

  /** With no intervals every count is zero, as the zero-filled column has it. */
  lemma NoIntervalsNoCounts(ds: seq<int>)
    requires ds == []
    ensures Counts(ds) == seq(BucketCount, _ => 0)
  {
  }

  /** The loop at main.py:267-277. */
  method Distribution(records: seq<IntervalRecord>) returns (cols: seq<Column>)
    ensures cols == DistributionColumns(records)
  {
    var cats := Unique(RecordCategories(records));
    cols := [];
    for i := 0 to |cats|
      invariant |cols| == i
      invariant forall j :: 0 <= j < i ==> cols[j] == ColumnFor(records, cats[j])
    {
      var categoryIntervals := DaysOf(records, cats[i]);
      var counts: seq<nat>;
      if categoryIntervals != [] {
        counts := Counts(categoryIntervals);
      } else {
        counts := seq(BucketCount, _ => 0);
        NoIntervalsNoCounts(categoryIntervals);
      }
      assert Column(Label(cats[i]), counts) == ColumnFor(records, cats[i]);
      cols := cols + [Column(Label(cats[i]), counts)];
    }
  }

  /** A category has records exactly when some record carries it. */
  lemma RecordsOfPresent(records: seq<IntervalRecord>, c: Category)
    ensures RecordsOf(records, c) != [] <==> exists p :: 0 <= p < |records| && records[p].category == c
  {
    if RecordsOf(records, c) != [] {
      var x := RecordsOf(records, c)[0];
      KeyFilterMember(records, RecordCode, Code(c), x);
      var p :| 0 <= p < |records| && records[p] == x;
      CodeInjective(x.category, c);
    }
    if exists p :: 0 <= p < |records| && records[p].category == c {
      var p :| 0 <= p < |records| && records[p].category == c;
      KeyFilterPresent(records, RecordCode, Code(c), p);
    }
  }

  lemma DistributionNamesDistinct(records: seq<IntervalRecord>)
    ensures forall i, j :: 0 <= i < j < |DistributionColumns(records)| ==>
              DistributionColumns(records)[i].name != DistributionColumns(records)[j].name
  {
    var cats := Unique(RecordCategories(records));
    var cols := DistributionColumns(records);
    forall i, j | 0 <= i < j < |cols| ensures cols[i].name != cols[j].name {
      CodeInjective(cats[i], cats[j]);
    }
  }

  /** There is a column for a category exactly when it has intervals, named
      by its label, and no two columns share a name. */
  /** The distribution's columns are named after its categories, in order. */
  lemma DistributionCategories(records: seq<IntervalRecord>) returns (cats: seq<Category>)
    ensures |cats| == |DistributionColumns(records)|
    ensures forall i :: 0 <= i < |cats| ==> DistributionColumns(records)[i].name == Label(cats[i])
  {
    cats := Unique(RecordCategories(records));
  }

  lemma DistributionColumnsCover(records: seq<IntervalRecord>, c: Category)
    ensures (exists i :: 0 <= i < |DistributionColumns(records)| && DistributionColumns(records)[i].name == Label(c))
            <==> RecordsOf(records, c) != []
    ensures forall i, j :: 0 <= i < j < |DistributionColumns(records)| ==>
              DistributionColumns(records)[i].name != DistributionColumns(records)[j].name
  {
    var cats := Unique(RecordCategories(records));
    var cols := DistributionColumns(records);
    DistributionNamesDistinct(records);
    RecordsOfPresent(records, c);
    if RecordsOf(records, c) != [] {
      var p :| 0 <= p < |records| && records[p].category == c;
      assert RecordCategories(records)[p] == c;
      var i :| 0 <= i < |cats| && cats[i] == c;
      assert cols[i].name == Label(c);
    }
    if exists i :: 0 <= i < |cols| && cols[i].name == Label(c) {
      var i :| 0 <= i < |cols| && cols[i].name == Label(c);
      CodeInjective(cats[i], c);
      assert cats[i] in RecordCategories(records);
      var p :| 0 <= p < |records| && RecordCategories(records)[p] == c;
      assert records[p].category == c;
    }
  }
}
