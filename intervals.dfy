/** The days between consecutive events of the same category
    (main.py:190-214). */
module Intervals {
  import opened Signals
  import opened Events
  import opened Sorting
  import opened Uniques

  /** One row of `crossover_intervals`. */
  datatype IntervalRecord = IntervalRecord(category: Category, num: int, previous: int,
                                           current: int, daysBetween: int)

  /** The `Category` column of the event table. */
  function EventCategories(s: seq<Event>): (r: seq<Category>)
    ensures |r| == |s|
    ensures forall i :: 0 <= i < |s| ==> r[i] == s[i].category
  {
    seq(|s|, i requires 0 <= i < |s| => s[i].category)
  }

  /** `crossover_df['Category'].unique()`. */
  function UniqueCategories(s: seq<Event>): seq<Category> {
    Unique(EventCategories(s))
  }

  /** `category_df`: one category's events, sorted by date. */
  function AscendingEvents(events: seq<Event>, c: Category): seq<Event> {
    SortBy(OfCategory(events, c), EventDate)
  }

  /** `Date.diff().dt.days` against `Date.shift(1)` with the first, NaN row
      dropped: one record per consecutive pair of events. */
  function PairRecords(c: Category, evs: seq<Event>): (r: seq<IntervalRecord>)
    ensures |r| == if evs == [] then 0 else |evs| - 1
  {
    if |evs| <= 1 then []
    else seq(|evs| - 1, k requires 0 <= k < |evs| - 1 =>
               IntervalRecord(c, Code(c), evs[k].date, evs[k + 1].date, evs[k + 1].date - evs[k].date))
  }

  /** The records one iteration of the category loop contributes; a
      category with at most one event is skipped. */
  function CategoryIntervals(events: seq<Event>, c: Category): seq<IntervalRecord> {
    var evs := AscendingEvents(events, c);
    if |evs| <= 1 then [] else PairRecords(c, evs)
  }

  /** `interval_dfs` after visiting `cats`, concatenated. */
  function IntervalsFor(events: seq<Event>, cats: seq<Category>): seq<IntervalRecord> {
    if cats == [] then []
    else IntervalsFor(events, cats[..|cats| - 1]) + CategoryIntervals(events, cats[|cats| - 1])
  }

  /** `interval_df`. */
  function AllIntervals(events: seq<Event>): seq<IntervalRecord> {
    IntervalsFor(events, UniqueCategories(events))
  }

  /** The loop at main.py:193-214. */
  method AnalyseIntervals(events: seq<Event>) returns (records: seq<IntervalRecord>)
    ensures records == AllIntervals(events)
  {
    var cats := UniqueCategories(events);
    records := [];
    for i := 0 to |cats|
      invariant records == IntervalsFor(events, cats[..i])
    {
      var c := cats[i];
      IntervalsForStep(events, cats, i);
      var categoryEvents := SortBy(OfCategory(events, c), EventDate);
      if |categoryEvents| <= 1 {
        assert records + CategoryIntervals(events, c) == records;
        continue;
      }
      var intervals := PairRecords(c, categoryEvents);
      if intervals != [] {
        records := records + intervals;
      }
    }
    assert cats[..|cats|] == cats;
  }

  lemma IntervalsForStep(events: seq<Event>, cats: seq<Category>, i: nat)
    requires i < |cats|
    ensures IntervalsFor(events, cats[..i + 1]) == IntervalsFor(events, cats[..i]) + CategoryIntervals(events, cats[i])
  {
    assert cats[..i + 1][..i] == cats[..i];
  }

  /** A category with `n >= 2` events yields `n - 1` records; one with
      fewer yields none. */
  lemma CategoryIntervalsCount(events: seq<Event>, c: Category)
    ensures var n := |OfCategory(events, c)|;
            |CategoryIntervals(events, c)| == if n >= 2 then n - 1 else 0
  {
  }

  /** Every record belongs to its category, carries its code, spans two
      dates in order with `daysBetween` their difference, and starts where
      the previous record ended. With distinct dates the span is positive. */
  lemma CategoryIntervalsShape(events: seq<Event>, c: Category, k: nat)
    requires k < |CategoryIntervals(events, c)|
    ensures var r := CategoryIntervals(events, c);
            && r[k].category == c && r[k].num == Code(c)
            && r[k].daysBetween == r[k].current - r[k].previous
            && r[k].previous <= r[k].current
            && (k + 1 < |r| ==> r[k].current == r[k + 1].previous)
            && (DistinctKeys(OfCategory(events, c), EventDate) ==> r[k].previous < r[k].current)
  {
    var evs := AscendingEvents(events, c);
    assert CategoryIntervals(events, c) == PairRecords(c, evs);
    SortBySorted(OfCategory(events, c), EventDate);
    if DistinctKeys(OfCategory(events, c), EventDate) {
      SortByDistinct(OfCategory(events, c), EventDate);
    }
    PairRecordsShape(c, evs, k);
  }

  lemma PairRecordsShape(c: Category, evs: seq<Event>, k: nat)
    requires k < |PairRecords(c, evs)|
    requires SortedBy(evs, EventDate)
    ensures var r := PairRecords(c, evs);
            && r[k].category == c && r[k].num == Code(c)
            && r[k].daysBetween == r[k].current - r[k].previous
            && r[k].previous <= r[k].current
            && (k + 1 < |r| ==> r[k].current == r[k + 1].previous)
            && (DistinctKeys(evs, EventDate) ==> r[k].previous < r[k].current)
  {
    var r := PairRecords(c, evs);
    assert r[k] == IntervalRecord(c, Code(c), evs[k].date, evs[k + 1].date, evs[k + 1].date - evs[k].date);
    if k + 1 < |r| {
      assert r[k + 1].previous == evs[k + 1].date;
    }
    assert EventDate(evs[k]) <= EventDate(evs[k + 1]);
    if DistinctKeys(evs, EventDate) {
      assert EventDate(evs[k]) != EventDate(evs[k + 1]);
    }
  }

  function SumDays(r: seq<IntervalRecord>): int {
    if r == [] then 0 else SumDays(r[..|r| - 1]) + r[|r| - 1].daysBetween
  }

  /** The gaps between consecutive events add up to last minus first. */
  lemma {:induction false} PairRecordsTelescope(c: Category, evs: seq<Event>)
    requires evs != []
    ensures SumDays(PairRecords(c, evs)) == evs[|evs| - 1].date - evs[0].date
  {
    if |evs| > 1 {
      var pre := evs[..|evs| - 1];
      PairRecordsTelescope(c, pre);
      var r, q := PairRecords(c, evs), PairRecords(c, pre);
      assert |q| == |r| - 1;
      forall k | 0 <= k < |q| ensures r[k] == q[k] {
        assert pre[k] == evs[k] && pre[k + 1] == evs[k + 1];
      }
      assert r[..|r| - 1] == q;
      assert r[|r| - 1].daysBetween == evs[|evs| - 1].date - evs[|evs| - 2].date;
      assert pre[|pre| - 1] == evs[|evs| - 2] && pre[0] == evs[0];
    }
  }

  /** The days between a category's records sum to the span from its first
      to its last event. */
  lemma CategoryIntervalsTelescope(events: seq<Event>, c: Category)
    requires |CategoryIntervals(events, c)| > 0
    ensures var evs := AscendingEvents(events, c);
            |evs| > 1 && SumDays(CategoryIntervals(events, c)) == evs[|evs| - 1].date - evs[0].date
    ensures var r := CategoryIntervals(events, c);
            SumDays(r) == r[|r| - 1].current - r[0].previous
  {
    var evs := AscendingEvents(events, c);
    assert CategoryIntervals(events, c) == PairRecords(c, evs);
    PairRecordsTelescope(c, evs);
    PairRecordsSpan(c, evs);
  }

  lemma PairRecordsSpan(c: Category, evs: seq<Event>)
    requires |evs| > 1
    ensures var r := PairRecords(c, evs);
            SumDays(r) == r[|r| - 1].current - r[0].previous
  {
    PairRecordsTelescope(c, evs);
  }

  function RecordCode(r: IntervalRecord): int { Code(r.category) }

  /** `interval_df[interval_df['Category'] == c]`. */
  function RecordsOf(records: seq<IntervalRecord>, c: Category): seq<IntervalRecord> {
    KeyFilter(records, RecordCode, Code(c))
  }

  lemma {:induction false} RecordsOfAll(r: seq<IntervalRecord>, c: Category, c': Category)
    requires forall k :: 0 <= k < |r| ==> r[k].category == c'
    ensures RecordsOf(r, c) == if c == c' then r else []
  {
    if r != [] {
      RecordsOfAll(r[1..], c, c');
      CodeInjective(c, c');
      assert r == [r[0]] + r[1..];
    }
  }

  lemma CategoryIntervalsOf(events: seq<Event>, c: Category, c': Category)
    ensures RecordsOf(CategoryIntervals(events, c'), c) == if c == c' then CategoryIntervals(events, c') else []
  {
    var r := CategoryIntervals(events, c');
    forall k | 0 <= k < |r| ensures r[k].category == c' {
      CategoryIntervalsShape(events, c', k);
    }
    RecordsOfAll(r, c, c');
  }

  lemma {:induction false} IntervalsForOf(events: seq<Event>, cats: seq<Category>, c: Category)
    requires forall i, j :: 0 <= i < j < |cats| ==> cats[i] != cats[j]
    ensures RecordsOf(IntervalsFor(events, cats), c) == if c in cats then CategoryIntervals(events, c) else []
  {
    if cats != [] {
      var pre, last := cats[..|cats| - 1], cats[|cats| - 1];
      DistinctSplit(cats);
      IntervalsForOf(events, pre, c);
      var front, back := IntervalsFor(events, pre), CategoryIntervals(events, last);
      assert IntervalsFor(events, cats) == front + back;
      KeyFilterAppend(front, back, RecordCode, Code(c));
      CategoryIntervalsOf(events, c, last);
      if c == last {
        assert RecordsOf(front, c) == [];
      } else {
        assert RecordsOf(back, c) == [];
      }
    }
  }

  /** Splitting a sequence of distinct categories before its last element. */
  lemma DistinctSplit(cats: seq<Category>)
    requires cats != []
    requires forall i, j :: 0 <= i < j < |cats| ==> cats[i] != cats[j]
    ensures var pre, last := cats[..|cats| - 1], cats[|cats| - 1];
            && (forall i, j :: 0 <= i < j < |pre| ==> pre[i] != pre[j])
            && last !in pre
            && forall c :: c in cats <==> c in pre || c == last
  {
    var pre, last := cats[..|cats| - 1], cats[|cats| - 1];
    assert cats == pre + [last];
    forall i | 0 <= i < |pre| ensures pre[i] != last {
      assert pre[i] == cats[i];
    }
  }

  /** The records of one category in `interval_df` are exactly those its own
      loop iteration produced. */
  lemma AllIntervalsOf(events: seq<Event>, c: Category)
    ensures RecordsOf(AllIntervals(events), c) == CategoryIntervals(events, c)
  {
    IntervalsForOf(events, UniqueCategories(events), c);
    if c !in UniqueCategories(events) {
      assert c !in EventCategories(events);
      forall i | 0 <= i < |events| ensures CodeKey(events[i]) != Code(c) {
        CodeInjective(events[i].category, c);
      }
      KeyFilterAbsent(events, CodeKey, Code(c));
    }
  }
}
