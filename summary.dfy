/** `interval_df.groupby('Category')['Days Between'].agg(...)`
    (main.py:233-247): per-category count, mean, median, minimum and
    maximum of the days between events. */
module Summary {
  import opened Signals
  import opened Events
  import opened Intervals
  import opened Sorting

  /** One row of `crossover_interval_summary`. */
  datatype SummaryRow = SummaryRow(category: Category, mean: real, median: real,
                                   min: int, max: int, count: nat)

  /** The `Days Between` values of one category. */
  function DaysOf(records: seq<IntervalRecord>, c: Category): (ds: seq<int>)
    ensures |ds| == |RecordsOf(records, c)|
    ensures forall k :: 0 <= k < |ds| ==> ds[k] == RecordsOf(records, c)[k].daysBetween
  {
    var r := RecordsOf(records, c);
    seq(|r|, k requires 0 <= k < |r| => r[k].daysBetween)
  }

  function Sum(xs: seq<int>): int {
    if xs == [] then 0 else Sum(xs[..|xs| - 1]) + xs[|xs| - 1]
  }

  /** The smallest value. */
  function Minimum(xs: seq<int>): (m: int)
    requires xs != []
    ensures m in xs
    ensures forall i :: 0 <= i < |xs| ==> m <= xs[i]
  {
    if |xs| == 1 then xs[0]
    else
      var m := Minimum(xs[..|xs| - 1]);
      assert forall i :: 0 <= i < |xs| - 1 ==> xs[..|xs| - 1][i] == xs[i];
      if xs[|xs| - 1] < m then xs[|xs| - 1] else m
  }

  /** The largest value. */
  function Maximum(xs: seq<int>): (m: int)
    requires xs != []
    ensures m in xs
    ensures forall i :: 0 <= i < |xs| ==> xs[i] <= m
  {
    if |xs| == 1 then xs[0]
    else
      var m := Maximum(xs[..|xs| - 1]);
      assert forall i :: 0 <= i < |xs| - 1 ==> xs[..|xs| - 1][i] == xs[i];
      if xs[|xs| - 1] > m then xs[|xs| - 1] else m
  }

  function Mean(xs: seq<int>): real
    requires xs != []
  {
    Sum(xs) as real / |xs| as real
  }

  function Identity(x: int): int { x }

  /** The middle value of the sorted values, or the average of the two
      middle ones when there is an even number of them. */
  function Median(xs: seq<int>): real
    requires xs != []
  {
    var s := SortBy(xs, Identity);
    var n := |s|;
    if n % 2 == 1 then s[n / 2] as real else (s[n / 2 - 1] + s[n / 2]) as real / 2.0
  }

  /** A sum of values between `lo` and `hi` lies between `n * lo` and `n * hi`. */
  lemma {:induction false} SumBounds(xs: seq<int>, lo: int, hi: int)
    requires forall i :: 0 <= i < |xs| ==> lo <= xs[i] <= hi
    ensures |xs| * lo <= Sum(xs) <= |xs| * hi
  {
    if xs != [] {
      var pre := xs[..|xs| - 1];
      assert forall i :: 0 <= i < |pre| ==> pre[i] == xs[i];
      SumBounds(pre, lo, hi);
      assert |xs| * lo == |pre| * lo + lo && |xs| * hi == |pre| * hi + hi;
    }
  }

  /** The mean lies between the minimum and the maximum. */
  lemma MeanBounds(xs: seq<int>)
    requires xs != []
    ensures Minimum(xs) as real <= Mean(xs) <= Maximum(xs) as real
  {
    var lo, hi, n := Minimum(xs), Maximum(xs), |xs|;
    SumBounds(xs, lo, hi);
    ProductAsReal(n, lo);
    ProductAsReal(n, hi);
    QuotientBounds(Sum(xs) as real, n as real, lo as real, hi as real);
  }

  lemma ProductAsReal(n: int, x: int)
    ensures (n * x) as real == n as real * x as real
  {
  }

  lemma QuotientBounds(s: real, n: real, lo: real, hi: real)
    requires n > 0.0 && n * lo <= s <= n * hi
    ensures lo <= s / n <= hi
  {
  }

  /** The median lies between the minimum and the maximum. */
  lemma MedianBounds(xs: seq<int>)
    requires xs != []
    ensures Minimum(xs) as real <= Median(xs) <= Maximum(xs) as real
  {
    var s := SortBy(xs, Identity);
    SortByPermutation(xs, Identity);
    var n := |s|;
    forall k | 0 <= k < n ensures Minimum(xs) <= s[k] <= Maximum(xs) {
      assert s[k] in multiset(xs);
    }
    assert Minimum(xs) <= s[n / 2] <= Maximum(xs);
    if n % 2 == 0 {
      assert Minimum(xs) <= s[n / 2 - 1] <= Maximum(xs);
    }
  }

  /** The order `groupby` lists the categories in: by label. */
  const GroupOrder: seq<Category> := [BearishCross, BullishCross, DeathCross, GoldenCross]

  /** Lexicographic order on strings, as Python compares them. */
  predicate LexLess(a: string, b: string) {
    if a == [] then b != []
    else if b == [] then false
    else if a[0] != b[0] then a[0] < b[0]
    else LexLess(a[1..], b[1..])
  }

  /** `GroupOrder` holds every category. */
  lemma GroupOrderComplete(c: Category)
    ensures c in GroupOrder
  {
    match c
    case BearishCross => assert GroupOrder[0] == c;
    case BullishCross => assert GroupOrder[1] == c;
    case DeathCross => assert GroupOrder[2] == c;
    case GoldenCross => assert GroupOrder[3] == c;
  }

  /** `BEARISH ...` sorts before `BULLISH ...`: they part at the second letter. */
  lemma BearishBeforeBullish()
    ensures LexLess(Label(BearishCross), Label(BullishCross))
  {
    assert Label(BearishCross)[1..] == "EARISH CROSS (20/50)";
    assert Label(BullishCross)[1..] == "ULLISH CROSS (20/50)";
  }

  function SummaryRowFor(records: seq<IntervalRecord>, c: Category): SummaryRow
    requires DaysOf(records, c) != []
  {
    var ds := DaysOf(records, c);
    SummaryRow(c, Mean(ds), Median(ds), Minimum(ds), Maximum(ds), |ds|)
  }

  /** A category's position in `GroupOrder`. */
  function Rank(c: Category): nat {
    match c
    case BearishCross => 0
    case BullishCross => 1
    case DeathCross => 2
    case GoldenCross => 3
  }

  /** The categories of `cats` that satisfy `has`, in order. */
  function Keep(cats: seq<Category>, has: Category -> bool): (r: seq<Category>)
    ensures forall k :: 0 <= k < |r| ==> r[k] in cats && has(r[k])
  {
    if cats == [] then []
    else (if has(cats[0]) then [cats[0]] else []) + Keep(cats[1..], has)
  }

  /** Whether `interval_df` holds a record of a category. */
  function HasIntervals(records: seq<IntervalRecord>): Category -> bool {
    c => RecordsOf(records, c) != []
  }

  /** The categories of `cats` that have intervals, in order: the groups
      `groupby` finds. */
  function WithIntervals(records: seq<IntervalRecord>, cats: seq<Category>): (r: seq<Category>)
    ensures forall k :: 0 <= k < |r| ==> r[k] in cats && RecordsOf(records, r[k]) != []
  {
    Keep(cats, HasIntervals(records))
  }

  /** `summary_stats`: one row per category that has intervals, in label order. */
  function Summarise(records: seq<IntervalRecord>): seq<SummaryRow> {
    var cats := WithIntervals(records, GroupOrder);
    seq(|cats|, k requires 0 <= k < |cats| => SummaryRowFor(records, cats[k]))
  }

  /** Every category of `cats` that satisfies `has` is kept. */
  lemma {:induction false} KeepCovers(cats: seq<Category>, has: Category -> bool, c: Category)
    requires c in cats && has(c)
    ensures c in Keep(cats, has)
  {
    if cats[0] != c {
      assert c in cats[1..];
      KeepCovers(cats[1..], has, c);
    }
  }

  /** Every category of `cats` that has intervals is kept. */
  lemma WithIntervalsCovers(records: seq<IntervalRecord>, cats: seq<Category>, c: Category)
    requires c in cats && RecordsOf(records, c) != []
    ensures c in WithIntervals(records, cats)
  {
    KeepCovers(cats, HasIntervals(records), c);
  }

  /** Ranks strictly increase along `cats`. */
  predicate RankIncreasing(cats: seq<Category>) {
    forall p, q :: 0 <= p < q < |cats| ==> Rank(cats[p]) < Rank(cats[q])
  }

  /** Every rank in `cats` exceeds `r`. */
  predicate RanksAbove(cats: seq<Category>, r: int) {
    forall k :: 0 <= k < |cats| ==> r < Rank(cats[k])
  }

  lemma RanksOfRest(cats: seq<Category>, r: int)
    requires cats != [] && RankIncreasing(cats) && RanksAbove(cats, r)
    ensures RankIncreasing(cats[1..]) && RanksAbove(cats[1..], Rank(cats[0])) && r < Rank(cats[0])
  {
    assert forall p :: 0 <= p < |cats[1..]| ==> cats[1..][p] == cats[p + 1];
  }

  lemma RanksOfCons(head: Category, tail: seq<Category>, r: int)
    requires RankIncreasing(tail) && RanksAbove(tail, Rank(head)) && r < Rank(head)
    ensures RankIncreasing([head] + tail) && RanksAbove([head] + tail, r)
  {
    var all := [head] + tail;
    assert forall k :: 1 <= k < |all| ==> all[k] == tail[k - 1];
  }

  lemma RanksAboveWeaken(cats: seq<Category>, r: int, r': int)
    requires RanksAbove(cats, r') && r <= r'
    ensures RanksAbove(cats, r)
  {
  }

  /** Filtering keeps ranks increasing and keeps every lower bound on them. */
  lemma {:induction false} KeepOrder(cats: seq<Category>, has: Category -> bool, r: int)
    requires RankIncreasing(cats) && RanksAbove(cats, r)
    ensures RankIncreasing(Keep(cats, has)) && RanksAbove(Keep(cats, has), r)
  {
    if cats != [] {
      var head, tail := cats[0], Keep(cats[1..], has);
      RanksOfRest(cats, r);
      KeepOrder(cats[1..], has, Rank(head));
      RanksAboveWeaken(tail, r, Rank(head));
      if has(head) {
        assert Keep(cats, has) == [head] + tail;
        RanksOfCons(head, tail, r);
      } else {
        assert Keep(cats, has) == tail;
      }
    }
  }

  /** Keeping only the categories with intervals keeps their order. */
  lemma WithIntervalsOrder(records: seq<IntervalRecord>, cats: seq<Category>, r: int)
    requires RankIncreasing(cats) && RanksAbove(cats, r)
    ensures RankIncreasing(WithIntervals(records, cats)) && RanksAbove(WithIntervals(records, cats), r)
  {
    KeepOrder(cats, HasIntervals(records), r);
  }

  /** A lower rank means an earlier label. */
  lemma RankIsLabelOrder(c: Category, c': Category)
    requires Rank(c) < Rank(c')
    ensures LexLess(Label(c), Label(c'))
  {
    if c == BearishCross && c' == BullishCross {
      BearishBeforeBullish();
    } else {
      assert Label(c)[0] < Label(c')[0];
    }
  }

  /** `GroupOrder` holds every category once, sorted by label. */
  lemma GroupOrderSortedByLabel()
    ensures forall c :: c in GroupOrder
    ensures forall i, j :: 0 <= i < j < |GroupOrder| ==> LexLess(Label(GroupOrder[i]), Label(GroupOrder[j]))
  {
    forall c ensures c in GroupOrder {
      GroupOrderComplete(c);
    }
    GroupOrderRanked();
    forall i, j | 0 <= i < j < |GroupOrder| ensures LexLess(Label(GroupOrder[i]), Label(GroupOrder[j])) {
      RankIsLabelOrder(GroupOrder[i], GroupOrder[j]);
    }
  }

  /** `GroupOrder` lists the categories by increasing rank. */
  lemma GroupOrderRanked()
    ensures RankIncreasing(GroupOrder) && RanksAbove(GroupOrder, -1)
  {
  }

  lemma SummaryInRankOrder(records: seq<IntervalRecord>, i: nat, j: nat)
    requires i < j < |Summarise(records)|
    ensures Rank(Summarise(records)[i].category) < Rank(Summarise(records)[j].category)
  {
    var rows, cats := Summarise(records), WithIntervals(records, GroupOrder);
    assert rows[i].category == cats[i] && rows[j].category == cats[j];
    GroupOrderRanked();
    WithIntervalsOrder(records, GroupOrder, -1);
  }

  /** `groupby` lists its rows sorted by category label. */
  lemma SummaryInLabelOrder(records: seq<IntervalRecord>, i: nat, j: nat)
    requires i < j < |Summarise(records)|
    ensures LexLess(Label(Summarise(records)[i].category), Label(Summarise(records)[j].category))
  {
    SummaryInRankOrder(records, i, j);
    RankIsLabelOrder(Summarise(records)[i].category, Summarise(records)[j].category);
  }

  /** Each summary row counts its category's intervals, and both its mean
      and its median lie between its minimum and its maximum. */
  lemma SummaryRowsCorrect(records: seq<IntervalRecord>, k: nat)
    requires k < |Summarise(records)|
    ensures var row := Summarise(records)[k];
            && row.count == |RecordsOf(records, row.category)| > 0
            && row.min as real <= row.median <= row.max as real
            && row.min as real <= row.mean <= row.max as real
            && (forall i :: 0 <= i < |DaysOf(records, row.category)| ==>
                  row.min <= DaysOf(records, row.category)[i] <= row.max)
  {
    var row := Summarise(records)[k];
    assert row == SummaryRowFor(records, WithIntervals(records, GroupOrder)[k]);
    MeanBounds(DaysOf(records, row.category));
    MedianBounds(DaysOf(records, row.category));
  }

  /** Row `k` of the summary is the aggregate of the `k`-th category with intervals. */
  lemma SummaryCategories(records: seq<IntervalRecord>)
    ensures |Summarise(records)| == |WithIntervals(records, GroupOrder)|
    ensures forall k :: 0 <= k < |Summarise(records)| ==>
              Summarise(records)[k].category == WithIntervals(records, GroupOrder)[k]
  {
  }

  /** A category has a summary row exactly when it has intervals. */
  lemma SummaryCovers(records: seq<IntervalRecord>, c: Category)
    ensures (exists k :: 0 <= k < |Summarise(records)| && Summarise(records)[k].category == c)
            <==> RecordsOf(records, c) != []
  {
    var rows, cats := Summarise(records), WithIntervals(records, GroupOrder);
    SummaryCategories(records);
    if RecordsOf(records, c) != [] {
      GroupOrderComplete(c);
      WithIntervalsCovers(records, GroupOrder, c);
      var k :| 0 <= k < |cats| && cats[k] == c;
      assert rows[k].category == c;
    }
  }

}
