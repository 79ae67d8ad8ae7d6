/** Consolidation of the four flag columns into one list of crossover
    events, its most-recent-first sort and the numeric category codes
    (main.py:97-140, 171-178). */
module Events {
  import opened Options
  import opened Signals
  import opened Sorting

  /** The label stored in the `type` / `Category` column. */
  function Label(c: Category): string {
    match c
    case BullishCross => "BULLISH CROSS (20/50)"
    case BearishCross => "BEARISH CROSS (20/50)"
    case GoldenCross => "GOLDEN CROSS (50/200)"
    case DeathCross => "DEATH CROSS (50/200)"
  }

  /** `category_to_num_map`. */
  const CategoryToNum: map<string, int> := map[
    "BULLISH CROSS (20/50)" := 1,
    "BEARISH CROSS (20/50)" := 2,
    "GOLDEN CROSS (50/200)" := 3,
    "DEATH CROSS (50/200)" := 4]

  /** `Series.map(category_to_num_map)`: a label outside the map gives NaN. */
  function NumOf(name: string): Option<int> {
    if name in CategoryToNum then Some(CategoryToNum[name]) else None
  }

  /** The `Category_Num` of a category. */
  function Code(c: Category): (n: int)
    ensures 1 <= n <= 4
  {
    CategoryToNum[Label(c)]
  }

  /** Mapping a category's label through `category_to_num_map` never gives
      NaN: it gives the category's code. */
  lemma CodeIsMapped(c: Category)
    ensures NumOf(Label(c)) == Some(Code(c))
  {
  }

  lemma CodeInjective(c1: Category, c2: Category)
    ensures Code(c1) == Code(c2) ==> c1 == c2
    ensures Label(c1) == Label(c2) ==> c1 == c2
  {
  }

  /** One entry of `all_crossovers`: the row's date, its category and its close. */
  datatype Event = Event(date: int, category: Category, price: real)

  function EventAt(rows: seq<Row>, c: Category, t: nat): Event
    requires t < |rows|
  {
    Event(rows[t].date, c, rows[t].close)
  }

  /** The events appended for category `c` while visiting the first `n` rows. */
  function FlaggedUpTo(rows: seq<Row>, f: seq<bool>, c: Category, n: nat): seq<Event>
    requires n <= |rows| == |f|
  {
    if n == 0 then []
    else FlaggedUpTo(rows, f, c, n - 1) + (if f[n - 1] then [EventAt(rows, c, n - 1)] else [])
  }

  /** `df[df[flag]]` turned into events, in row order. */
  function Flagged(rows: seq<Row>, c: Category): seq<Event> {
    FlaggedUpTo(rows, Flags(rows, c), c, |rows|)
  }

  /** The list built by the four collection blocks, in their order. */
  function Collected(rows: seq<Row>): seq<Event> {
    Flagged(rows, BullishCross) + Flagged(rows, BearishCross)
    + Flagged(rows, GoldenCross) + Flagged(rows, DeathCross)
  }

  /** One collection block: appends an event for every flagged row. */
  method AppendFlagged(rows: seq<Row>, c: Category, acc: seq<Event>) returns (all: seq<Event>)
    ensures all == acc + Flagged(rows, c)
  {
    var flags := Flags(rows, c);
    all := acc;
    for t := 0 to |rows|
      invariant all == acc + FlaggedUpTo(rows, flags, c, t)
    {
      if flags[t] {
        all := all + [Event(rows[t].date, c, rows[t].close)];
      }
    }
  }

  /** `all_crossovers` before sorting. */
  method CollectCrossovers(rows: seq<Row>) returns (all: seq<Event>)
    ensures all == Collected(rows)
  {
    all := [];
    all := AppendFlagged(rows, BullishCross, all);
    assert all == Flagged(rows, BullishCross);
    all := AppendFlagged(rows, BearishCross, all);
    all := AppendFlagged(rows, GoldenCross, all);
    all := AppendFlagged(rows, DeathCross, all);
  }

  /** The number of `true` cells of a flag column. */
  function CountTrue(f: seq<bool>): nat {
    if f == [] then 0 else CountTrue(f[..|f| - 1]) + (if f[|f| - 1] then 1 else 0)
  }

  /** A category's events correspond one to one to its flagged rows: one
      event per flagged row, carrying that row's date and close, and as
      many events as flags. */
  lemma {:induction false} FlaggedUpToExact(rows: seq<Row>, f: seq<bool>, c: Category, n: nat, e: Event)
    requires n <= |rows| == |f|
    ensures |FlaggedUpTo(rows, f, c, n)| == CountTrue(f[..n])
    ensures e in FlaggedUpTo(rows, f, c, n) <==>
              exists t :: 0 <= t < n && f[t] && e == EventAt(rows, c, t)
  {
    if n > 0 {
      FlaggedUpToExact(rows, f, c, n - 1, e);
      assert f[..n][..n - 1] == f[..n - 1];
    }
  }

  lemma FlaggedExact(rows: seq<Row>, c: Category, e: Event)
    ensures |Flagged(rows, c)| == CountTrue(Flags(rows, c))
    ensures e in Flagged(rows, c) <==>
              exists t :: 0 <= t < |rows| && Flags(rows, c)[t] && e == EventAt(rows, c, t)
  {
    FlaggedUpToExact(rows, Flags(rows, c), c, |rows|, e);
    assert Flags(rows, c)[..|rows|] == Flags(rows, c);
  }

  /** A category's block has one event per flag. */
  lemma FlaggedCount(rows: seq<Row>, c: Category)
    ensures |Flagged(rows, c)| == CountTrue(Flags(rows, c))
  {
    FlaggedUpToCount(rows, Flags(rows, c), c, |rows|);
    assert Flags(rows, c)[..|rows|] == Flags(rows, c);
  }

  /** Visiting the first `n` rows appends one event per flag among them. */
  lemma {:induction false} FlaggedUpToCount(rows: seq<Row>, f: seq<bool>, c: Category, n: nat)
    requires n <= |rows| == |f|
    ensures |FlaggedUpTo(rows, f, c, n)| == CountTrue(f[..n])
  {
    if n > 0 {
      FlaggedUpToCount(rows, f, c, n - 1);
      assert f[..n][..n - 1] == f[..n - 1];
    }
  }

  /** The collected list holds one entry per flag of the four columns. */
  lemma CollectedLength(rows: seq<Row>)
    ensures |Collected(rows)| == CountTrue(Flags(rows, BullishCross)) + CountTrue(Flags(rows, BearishCross))
                                 + CountTrue(Flags(rows, GoldenCross)) + CountTrue(Flags(rows, DeathCross))
  {
    FlaggedCount(rows, BullishCross);
    FlaggedCount(rows, BearishCross);
    FlaggedCount(rows, GoldenCross);
    FlaggedCount(rows, DeathCross);
  }

  predicate AllOfCategory(s: seq<Event>, c: Category) {
    forall i :: 0 <= i < |s| ==> s[i].category == c
  }

  function EventDate(e: Event): int { e.date }

  function CodeKey(e: Event): int { Code(e.category) }

  lemma {:induction false} FlaggedUpToCategory(rows: seq<Row>, f: seq<bool>, c: Category, n: nat)
    requires n <= |rows| == |f|
    ensures AllOfCategory(FlaggedUpTo(rows, f, c, n), c)
  {
    if n > 0 {
      FlaggedUpToCategory(rows, f, c, n - 1);
    }
  }

  lemma FlaggedCategory(rows: seq<Row>, c: Category)
    ensures AllOfCategory(Flagged(rows, c), c)
  {
    FlaggedUpToCategory(rows, Flags(rows, c), c, |rows|);
  }

  /** When the rows' dates strictly increase, so do the dates of each block. */
  lemma {:induction false} FlaggedUpToIncreasing(rows: seq<Row>, f: seq<bool>, c: Category, n: nat)
    requires n <= |rows| == |f|
    requires StrictlyIncreasingDates(rows)
    ensures n < |rows| ==>
              forall i :: 0 <= i < |FlaggedUpTo(rows, f, c, n)| ==> FlaggedUpTo(rows, f, c, n)[i].date < rows[n].date
    ensures forall i, j :: 0 <= i < j < |FlaggedUpTo(rows, f, c, n)| ==> FlaggedUpTo(rows, f, c, n)[i].date < FlaggedUpTo(rows, f, c, n)[j].date
  {
    if n > 0 {
      FlaggedUpToIncreasing(rows, f, c, n - 1);
    }
  }

  lemma FlaggedIncreasing(rows: seq<Row>, c: Category)
    requires StrictlyIncreasingDates(rows)
    ensures DistinctKeys(Flagged(rows, c), EventDate)
    ensures SortedBy(Flagged(rows, c), EventDate)
  {
    FlaggedUpToIncreasing(rows, Flags(rows, c), c, |rows|);
  }

  /** The events of one category, in list order (`df[df['Category'] == c]`). */
  function OfCategory(s: seq<Event>, c: Category): seq<Event> {
    KeyFilter(s, CodeKey, Code(c))
  }

  lemma OfCategoryIsCategory(s: seq<Event>, c: Category)
    ensures AllOfCategory(OfCategory(s, c), c)
  {
    forall i | 0 <= i < |OfCategory(s, c)| ensures OfCategory(s, c)[i].category == c {
      CodeInjective(OfCategory(s, c)[i].category, c);
    }
  }

  lemma {:induction false} OfCategoryUniform(s: seq<Event>, c: Category, c': Category)
    requires AllOfCategory(s, c')
    ensures OfCategory(s, c) == if c == c' then s else []
  {
    if s != [] {
      OfCategoryUniform(s[1..], c, c');
      CodeInjective(c, c');
      assert s == [s[0]] + s[1..];
    }
  }

  /** Filtering four single-category blocks by category picks out one block. */
  lemma OfCategoryOfBlocks(a: seq<Event>, b: seq<Event>, g: seq<Event>, d: seq<Event>, c: Category)
    requires AllOfCategory(a, BullishCross) && AllOfCategory(b, BearishCross)
    requires AllOfCategory(g, GoldenCross) && AllOfCategory(d, DeathCross)
    ensures c == BullishCross ==> OfCategory(a + b + g + d, c) == a
    ensures c == BearishCross ==> OfCategory(a + b + g + d, c) == b
    ensures c == GoldenCross ==> OfCategory(a + b + g + d, c) == g
    ensures c == DeathCross ==> OfCategory(a + b + g + d, c) == d
  {
    OfCategoryUniform(a, c, BullishCross);
    OfCategoryUniform(b, c, BearishCross);
    OfCategoryUniform(g, c, GoldenCross);
    OfCategoryUniform(d, c, DeathCross);
    KeyFilterAppend4(a, b, g, d, CodeKey, Code(c));
  }

  /** Taking one category back out of the collected list gives exactly that
      category's block. */
  lemma CollectedOfCategory(rows: seq<Row>, c: Category)
    ensures OfCategory(Collected(rows), c) == Flagged(rows, c)
  {
    var a, b, g, d := Flagged(rows, BullishCross), Flagged(rows, BearishCross),
                      Flagged(rows, GoldenCross), Flagged(rows, DeathCross);
    FlaggedCategory(rows, BullishCross);
    FlaggedCategory(rows, BearishCross);
    FlaggedCategory(rows, GoldenCross);
    FlaggedCategory(rows, DeathCross);
    OfCategoryOfBlocks(a, b, g, d, c);
  }

  /** The key under which `sort(key=date, reverse=True)` is a stable
      ascending sort: the negated date. */
  function NegatedDate(e: Event): int { -e.date }

  /** `all_crossovers.sort(key=lambda x: x['date'], reverse=True)`. */
  function MostRecentFirst(events: seq<Event>): seq<Event> {
    SortBy(events, NegatedDate)
  }

  /** After the sort, dates never increase, the list is a permutation of the
      collected list, and the events of any one day keep their order. */
  lemma MostRecentFirstCorrect(events: seq<Event>, day: int)
    ensures forall i, j :: 0 <= i < j < |events| ==>
              MostRecentFirst(events)[i].date >= MostRecentFirst(events)[j].date
    ensures multiset(MostRecentFirst(events)) == multiset(events)
    ensures KeyFilter(MostRecentFirst(events), NegatedDate, -day) == KeyFilter(events, NegatedDate, -day)
  {
    var r := MostRecentFirst(events);
    SortBySorted(events, NegatedDate);
    assert forall i, j :: 0 <= i < j < |r| ==> NegatedDate(r[i]) <= NegatedDate(r[j]);
    SortByPermutation(events, NegatedDate);
    SortByStable(events, NegatedDate, -day);
  }

  lemma CollectedByCode(rows: seq<Row>)
    ensures SortedBy(Collected(rows), CodeKey)
  {
    var a, b, g, d := Flagged(rows, BullishCross), Flagged(rows, BearishCross),
                      Flagged(rows, GoldenCross), Flagged(rows, DeathCross);
    FlaggedCategory(rows, BullishCross);
    FlaggedCategory(rows, BearishCross);
    FlaggedCategory(rows, GoldenCross);
    FlaggedCategory(rows, DeathCross);
    SortedConcat(a, b, CodeKey);
    SortedConcat(a + b, g, CodeKey);
    SortedConcat(a + b + g, d, CodeKey);
  }

  /** Sorting most recent first keeps the events of one day in the order the
      list had them in. */
  lemma SameDayOrder(events: seq<Event>, day: int, other: Event -> int)
    requires SortedBy(events, other)
    ensures SortedBy(KeyFilter(MostRecentFirst(events), NegatedDate, -day), other)
  {
    SortByKeepsOrderWithinKey(events, NegatedDate, -day, other);
  }

  /** Events that fall on the same day come out bullish, bearish, golden,
      death: the sort is stable and that is the order they were collected in. */
  lemma SameDayKeepsCollectionOrder(rows: seq<Row>, day: int)
    ensures SortedBy(KeyFilter(MostRecentFirst(Collected(rows)), NegatedDate, -day), CodeKey)
  {
    CollectedByCode(rows);
    SameDayOrder(Collected(rows), day, CodeKey);
  }
}
