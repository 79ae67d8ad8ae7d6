/** The batch run between the download and the upload (main.py:70-295):
    the stages composed, and what holds of their composition. */
module Pipeline {
  import opened Signals
  import opened Events
  import opened Sorting
  import opened Intervals
  import opened Summary
  import opened Histogram
  import opened Sanitiser

  /** How a run ends. */
  datatype Outcome =
    | NoData         // nothing was downloaded (main.py:70-72)
    | NoCrossovers   // no row was flagged (main.py:158-160)
    | Report(crossovers: seq<Event>, intervals: seq<IntervalRecord>,
             summary: seq<SummaryRow>, distribution: seq<Column>)

  /** `distribution_df.rename(columns=sanitized_columns)`. */
  function Renamed(cols: seq<Column>): (r: seq<Column>)
    ensures |r| == |cols|
    ensures forall i :: 0 <= i < |r| ==>
              r[i].counts == cols[i].counts && r[i].name == Sanitise(cols[i].name) && Clean(r[i].name)
  {
    seq(|cols|, i requires 0 <= i < |cols| => Column(CleanName(cols[i].name), cols[i].counts))
  }

  /** The sanitised name, which is clean. */
  function CleanName(s: string): (r: string)
    ensures r == Sanitise(s) && Clean(r)
  {
    SanitiseIsClean(s);
    Sanitise(s)
  }

  /** The tables a run over `fetched` produces. */
  function Expected(fetched: seq<RawRow>): Outcome {
    if fetched == [] then NoData
    else
      var events := MostRecentFirst(Collected(DropUndefined(fetched)));
      if events == [] then NoCrossovers
      else
        var records := AllIntervals(events);
        Report(events, records, Summarise(records), Renamed(DistributionColumns(records)))
  }

  /** The loop filling `sanitized_columns` and the rename that applies it. */
  method RenameColumns(cols: seq<Column>) returns (renamed: seq<Column>)
    ensures renamed == Renamed(cols)
  {
    var columns := seq(|cols|, i requires 0 <= i < |cols| => cols[i].name);
    var names := SanitisedNames(columns);
    assert forall i :: 0 <= i < |cols| ==> columns[i] == cols[i].name && columns[i] in names;
    renamed := seq(|cols|, i requires 0 <= i < |cols| => Column(names[cols[i].name], cols[i].counts));
  }

  /** The tables built once there is at least one crossover (main.py:193-295). */
  method Tabulate(events: seq<Event>) returns (out: Outcome)
    ensures var records := AllIntervals(events);
            out == Report(events, records, Summarise(records), Renamed(DistributionColumns(records)))
  {
    var records := AnalyseIntervals(events);
    var summary: seq<SummaryRow> := [];
    var distribution: seq<Column> := [];
    if records != [] {
      summary := Summarise(records);
      var cols := Distribution(records);
      distribution := RenameColumns(cols);
    } else {
      assert Summarise(records) == [] && DistributionColumns(records) == [];
    }
    out := Report(events, records, summary, distribution);
  }

  /** The script from the download check to the renamed distribution table. */
  method Run(fetched: seq<RawRow>) returns (out: Outcome)
    ensures out == Expected(fetched)
  {
    if fetched == [] {
      return NoData;
    }
    var rows := DropUndefined(fetched);
    var all := CollectCrossovers(rows);
    var events := MostRecentFirst(all);
    if events == [] {
      return NoCrossovers;
    }
    out := Tabulate(events);
  }

  /** A run stops early exactly when nothing was downloaded or no row was
      flagged; otherwise its event table is the collected events, most
      recent first, one per flagged row. */
  lemma ExpectedOutcome(fetched: seq<RawRow>)
    ensures Expected(fetched) == NoData <==> fetched == []
    ensures Expected(fetched) == NoCrossovers <==> fetched != [] && Collected(DropUndefined(fetched)) == []
    ensures Expected(fetched).Report? ==>
              |Expected(fetched).crossovers| == |Collected(DropUndefined(fetched))| > 0
              && multiset(Expected(fetched).crossovers) == multiset(Collected(DropUndefined(fetched)))
  {
    var all := Collected(DropUndefined(fetched));
    SortByPermutation(all, NegatedDate);
    if MostRecentFirst(all) == [] {
      assert |multiset(all)| == 0;
    }
  }

  /** Taking one category back out of the sorted event table and sorting it
      by date, as the interval loop does, gives back that category's flagged
      rows in row order, provided the row dates strictly increase. */
  lemma AscendingIsFlagged(rows: seq<Row>, c: Category)
    requires StrictlyIncreasingDates(rows)
    ensures AscendingEvents(MostRecentFirst(Collected(rows)), c) == Flagged(rows, c)
  {
    var all := Collected(rows);
    var events := MostRecentFirst(all);
    SortByPermutation(all, NegatedDate);
    KeyFilterPermutation(events, all, CodeKey, Code(c));
    CollectedOfCategory(rows, c);
    FlaggedIncreasing(rows, c);
    SortByRestores(Flagged(rows, c), OfCategory(events, c), EventDate);
  }

  /** Over dates that strictly increase, the records of a category pair up
      its consecutive flagged rows: one record fewer than flags, each from
      one flagged row's date to the next one's, with a positive gap. */
  lemma IntervalsBetweenFlags(rows: seq<Row>, c: Category, k: nat)
    requires StrictlyIncreasingDates(rows)
    ensures var n := |Flagged(rows, c)|;
            |CategoryIntervals(MostRecentFirst(Collected(rows)), c)| == if n >= 2 then n - 1 else 0
    ensures var r := CategoryIntervals(MostRecentFirst(Collected(rows)), c);
            k < |r| ==>
              && r[k].previous == Flagged(rows, c)[k].date
              && r[k].current == Flagged(rows, c)[k + 1].date
              && 0 < r[k].daysBetween == r[k].current - r[k].previous
  {
    AscendingIsFlagged(rows, c);
    FlaggedIncreasing(rows, c);
    IntervalsOfAscending(MostRecentFirst(Collected(rows)), c, Flagged(rows, c), k);
  }

  lemma IntervalsOfAscending(events: seq<Event>, c: Category, f: seq<Event>, k: nat)
    requires AscendingEvents(events, c) == f
    requires forall i, j :: 0 <= i < j < |f| ==> f[i].date < f[j].date
    ensures |CategoryIntervals(events, c)| == if |f| >= 2 then |f| - 1 else 0
    ensures var r := CategoryIntervals(events, c);
            k < |r| ==>
              && r[k].previous == f[k].date
              && r[k].current == f[k + 1].date
              && 0 < r[k].daysBetween == r[k].current - r[k].previous
  {
    var r := CategoryIntervals(events, c);
    if |f| >= 2 {
      assert r == PairRecords(c, f);
      if k < |r| {
        assert r[k] == IntervalRecord(c, Code(c), f[k].date, f[k + 1].date, f[k + 1].date - f[k].date);
      }
    }
  }

  /** In every run the days between are never negative, so a category's
      histogram counts add up to its interval count in the summary. */
  lemma HistogramMatchesSummary(events: seq<Event>, c: Category)
    ensures var records := AllIntervals(events);
            SumNat(ColumnFor(records, c).counts) == |RecordsOf(records, c)|
  {
    var records := AllIntervals(events);
    AllIntervalsOf(events, c);
    var ds := DaysOf(records, c);
    forall k | 0 <= k < |ds| ensures ds[k] >= 0 {
      CategoryIntervalsShape(events, c, k);
    }
    CountsSum(ds);
  }

  /** The column names after the rename. */
  function ColumnName(c: Category): string {
    match c
    case BullishCross => "BULLISH_CROSS_20_50"
    case BearishCross => "BEARISH_CROSS_20_50"
    case GoldenCross => "GOLDEN_CROSS_50_200"
    case DeathCross => "DEATH_CROSS_50_200"
  }

  lemma SanitisedWords(c: Category)
    ensures Sanitise(Label(c)) == ColumnName(c)
  {
    assert Word("CROSS") && Word("20") && Word("50") && Word("200");
    match c
    case BullishCross =>
      assert Word("BULLISH");
      SanitiseLabel("BULLISH", "CROSS", "20", "50");
      BullishSpelling();
    case BearishCross =>
      assert Word("BEARISH");
      SanitiseLabel("BEARISH", "CROSS", "20", "50");
      BearishSpelling();
    case GoldenCross =>
      assert Word("GOLDEN");
      SanitiseLabel("GOLDEN", "CROSS", "50", "200");
      GoldenSpelling();
    case DeathCross =>
      assert Word("DEATH");
      SanitiseLabel("DEATH", "CROSS", "50", "200");
      DeathSpelling();
  }

  lemma BullishSpelling()
    ensures Label(BullishCross) == "BULLISH" + " " + "CROSS" + " (" + "20" + "/" + "50" + ")"
    ensures ColumnName(BullishCross) == "BULLISH" + "_" + "CROSS" + "_" + "20" + "_" + "50"
  {
  }

  lemma BearishSpelling()
    ensures Label(BearishCross) == "BEARISH" + " " + "CROSS" + " (" + "20" + "/" + "50" + ")"
    ensures ColumnName(BearishCross) == "BEARISH" + "_" + "CROSS" + "_" + "20" + "_" + "50"
  {
  }

  lemma GoldenSpelling()
    ensures Label(GoldenCross) == "GOLDEN" + " " + "CROSS" + " (" + "50" + "/" + "200" + ")"
    ensures ColumnName(GoldenCross) == "GOLDEN" + "_" + "CROSS" + "_" + "50" + "_" + "200"
  {
  }

  lemma DeathSpelling()
    ensures Label(DeathCross) == "DEATH" + " " + "CROSS" + " (" + "50" + "/" + "200" + ")"
    ensures ColumnName(DeathCross) == "DEATH" + "_" + "CROSS" + "_" + "50" + "_" + "200"
  {
  }

  /** Each label sanitises to its fixed column name, and the four names are
      distinct, so the rename never merges two columns. */
  lemma SanitisedLabels(c: Category, c': Category)
    ensures Sanitise(Label(c)) == ColumnName(c)
    ensures c != c' ==> Sanitise(Label(c)) != Sanitise(Label(c'))
  {
    SanitisedWords(c);
    SanitisedWords(c');
    ColumnNamesDistinct(c, c');
  }

  /** After the rename, the distribution has a column named `ColumnName(c)`
      exactly when `c` has intervals. */
  lemma RenamedColumnsCover(records: seq<IntervalRecord>, c: Category)
    ensures (exists i :: 0 <= i < |Renamed(DistributionColumns(records))|
                         && Renamed(DistributionColumns(records))[i].name == ColumnName(c))
            <==> RecordsOf(records, c) != []
  {
    var cats := DistributionCategories(records);
    DistributionColumnsCover(records, c);
    RenamedNames(DistributionColumns(records), cats, c);
  }

  /** Over columns named by category labels, a renamed column is named
      `ColumnName(c)` exactly when a column was named `Label(c)`. */
  lemma RenamedNames(cols: seq<Column>, cats: seq<Category>, c: Category)
    requires |cats| == |cols|
    requires forall i :: 0 <= i < |cols| ==> cols[i].name == Label(cats[i])
    ensures (exists i :: 0 <= i < |Renamed(cols)| && Renamed(cols)[i].name == ColumnName(c))
            <==> (exists i :: 0 <= i < |cols| && cols[i].name == Label(c))
  {
    var r := Renamed(cols);
    if exists i :: 0 <= i < |cols| && cols[i].name == Label(c) {
      var i :| 0 <= i < |cols| && cols[i].name == Label(c);
      RenamedLabel(cols, i, c);
    }
    if exists i :: 0 <= i < |r| && r[i].name == ColumnName(c) {
      var i :| 0 <= i < |r| && r[i].name == ColumnName(c);
      RenamedLabel(cols, i, cats[i]);
      ColumnNamesDistinct(cats[i], c);
    }
  }

  /** A column named by a category's label is renamed to that category's column name. */
  lemma RenamedLabel(cols: seq<Column>, i: nat, c: Category)
    requires i < |cols| && cols[i].name == Label(c)
    ensures Renamed(cols)[i].name == ColumnName(c)
  {
    SanitisedWords(c);
  }

  /** The four column names differ in their first two letters. */
  lemma ColumnNamesDistinct(c: Category, c': Category)
    ensures c != c' ==> ColumnName(c) != ColumnName(c')
  {
    var a, b := ColumnName(c), ColumnName(c');
    assert a[..2] == Initials(c) && b[..2] == Initials(c');
  }

  /** The first two letters of a column name. */
  function Initials(c: Category): string {
    match c
    case BullishCross => "BU"
    case BearishCross => "BE"
    case GoldenCross => "GO"
    case DeathCross => "DE"
  }
}
