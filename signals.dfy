/** The fetched price table, its `dropna` step, and the crossover flags
    computed from the differences of two EMA columns (main.py:74-94).
    Dates are day numbers; the EMA values are given, not computed. */
module Signals {
  import opened Options

  /** One row of the table before `dropna`: the day, the close, the three
      EMA columns and the remaining numeric columns (open, high, low,
      volume), each of which may be undefined (NaN). */
  datatype RawRow = RawRow(date: int, close: Option<real>, ema20: Option<real>,
                           ema50: Option<real>, ema200: Option<real>,
                           others: seq<Option<real>>)

  /** A row that survived `dropna`: every value is defined. */
  datatype Row = Row(date: int, close: real, ema20: real, ema50: real, ema200: real)

  predicate Defined(r: RawRow) {
    && r.close.Some? && r.ema20.Some? && r.ema50.Some? && r.ema200.Some?
    && forall i :: 0 <= i < |r.others| ==> r.others[i].Some?
  }

  function Complete(r: RawRow): Row
    requires Defined(r)
  {
    Row(r.date, r.close.value, r.ema20.value, r.ema50.value, r.ema200.value)
  }

  /** `df.dropna()`: keeps, in order, exactly the rows whose every value is defined. */
  function DropUndefined(raw: seq<RawRow>): (rows: seq<Row>)
    ensures |rows| <= |raw|
  {
    if raw == [] then []
    else (if Defined(raw[0]) then [Complete(raw[0])] else []) + DropUndefined(raw[1..])
  }

  /** A row is kept exactly when it is fully defined. */
  lemma {:induction false} DropUndefinedMembers(raw: seq<RawRow>, r: Row)
    ensures r in DropUndefined(raw) <==> exists i :: 0 <= i < |raw| && Defined(raw[i]) && Complete(raw[i]) == r
  {
    if raw != [] {
      DropUndefinedMembers(raw[1..], r);
      if r in DropUndefined(raw[1..]) {
        var i :| 0 <= i < |raw[1..]| && Defined(raw[1..][i]) && Complete(raw[1..][i]) == r;
        assert raw[i + 1] == raw[1..][i];
      }
      if exists i :: 0 <= i < |raw| && Defined(raw[i]) && Complete(raw[i]) == r {
        var i :| 0 <= i < |raw| && Defined(raw[i]) && Complete(raw[i]) == r;
        if i > 0 {
          assert raw[1..][i - 1] == raw[i];
        }
      }
    }
  }

  /** With the non-adjusted EMA every value is defined from the first row
      on, so `dropna` removes nothing: there is no warm-up truncation. */
  lemma {:induction false} DropUndefinedKeepsDefinedTable(raw: seq<RawRow>)
    requires forall i :: 0 <= i < |raw| ==> Defined(raw[i])
    ensures |DropUndefined(raw)| == |raw|
    ensures forall i :: 0 <= i < |raw| ==> DropUndefined(raw)[i] == Complete(raw[i])
  {
    if raw != [] {
      DropUndefinedKeepsDefinedTable(raw[1..]);
      forall i | 0 <= i < |raw| ensures DropUndefined(raw)[i] == Complete(raw[i]) {
        if i > 0 {
          assert raw[1..][i - 1] == raw[i];
        }
      }
    }
  }

  predicate StrictlyIncreasingDates(rows: seq<Row>) {
    forall i, j :: 0 <= i < j < |rows| ==> rows[i].date < rows[j].date
  }

  predicate RawStrictlyIncreasingDates(raw: seq<RawRow>) {
    forall i, j :: 0 <= i < j < |raw| ==> raw[i].date < raw[j].date
  }

  /** Dropping rows keeps the dates strictly increasing. */
  lemma {:induction false} DropUndefinedKeepsOrder(raw: seq<RawRow>)
    requires RawStrictlyIncreasingDates(raw)
    ensures StrictlyIncreasingDates(DropUndefined(raw))
  {
    if raw != [] {
      var tail := DropUndefined(raw[1..]);
      assert RawStrictlyIncreasingDates(raw[1..]) by {
        forall i, j | 0 <= i < j < |raw[1..]| ensures raw[1..][i].date < raw[1..][j].date {
          assert raw[1..][i] == raw[i + 1] && raw[1..][j] == raw[j + 1];
        }
      }
      DropUndefinedKeepsOrder(raw[1..]);
      forall k | 0 <= k < |tail| ensures raw[0].date < tail[k].date {
        DropUndefinedMembers(raw[1..], tail[k]);
        var i :| 0 <= i < |raw[1..]| && Defined(raw[1..][i]) && Complete(raw[1..][i]) == tail[k];
        assert raw[1..][i] == raw[i + 1];
      }
    }
  }

  /** The two monitored EMA pairs: 20/50 and 50/200. */
  datatype Pair = FastMid | MidSlow

  /** `EMA_20 - EMA_50` or `EMA_50 - EMA_200` on one row. */
  function DiffAt(r: Row, p: Pair): real {
    match p
    case FastMid => r.ema20 - r.ema50
    case MidSlow => r.ema50 - r.ema200
  }

  function Diffs(rows: seq<Row>, p: Pair): (d: seq<real>)
    ensures |d| == |rows|
    ensures forall t :: 0 <= t < |rows| ==> d[t] == DiffAt(rows[t], p)
  {
    seq(|rows|, t requires 0 <= t < |rows| => DiffAt(rows[t], p))
  }

  /** `series.shift(1)`: the first row has no predecessor (NaN). */
  function Shift(d: seq<real>): (s: seq<Option<real>>)
    ensures |s| == |d|
  {
    if d == [] then [] else [None] + seq(|d| - 1, t requires 0 <= t < |d| - 1 => Some(d[t]))
  }

  /** `x < 0` and `x > 0` on a value that may be NaN: a NaN compares false. */
  predicate Negative(x: Option<real>) { x.Some? && x.value < 0.0 }
  predicate Positive(x: Option<real>) { x.Some? && x.value > 0.0 }

  /** `(diff.shift(1) < 0) & (diff > 0)` (main.py:88, 93). */
  function UpCrosses(d: seq<real>): (f: seq<bool>)
    ensures |f| == |d|
  {
    var prev := Shift(d);
    seq(|d|, t requires 0 <= t < |d| => Negative(prev[t]) && d[t] > 0.0)
  }

  /** `(diff.shift(1) > 0) & (diff < 0)` (main.py:89, 94). */
  function DownCrosses(d: seq<real>): (f: seq<bool>)
    ensures |f| == |d|
  {
    var prev := Shift(d);
    seq(|d|, t requires 0 <= t < |d| => Positive(prev[t]) && d[t] < 0.0)
  }

  /** Reading the shifted column: an upward cross at `t` is a strict sign
      change from negative at `t - 1` to positive at `t`, and a downward one
      the reverse; the first row has no predecessor and is never flagged. */
  lemma CrossesAt(d: seq<real>, t: nat)
    requires t < |d|
    ensures UpCrosses(d)[t] <==> 0 < t && d[t - 1] < 0.0 && d[t] > 0.0
    ensures DownCrosses(d)[t] <==> 0 < t && d[t - 1] > 0.0 && d[t] < 0.0
  {
    if t > 0 {
      assert Shift(d)[t] == Some(d[t - 1]);
    }
  }

  /** At most one of the two flags holds at any row. */
  lemma CrossesExclusive(d: seq<real>, t: nat)
    requires t < |d|
    ensures !(UpCrosses(d)[t] && DownCrosses(d)[t])
  {
    CrossesAt(d, t);
  }

  /** The first row is never flagged. */
  lemma FirstRowNeverFlagged(d: seq<real>)
    requires |d| > 0
    ensures !UpCrosses(d)[0] && !DownCrosses(d)[0]
  {
    assert Shift(d)[0] == None;
  }

  /** A difference of exactly zero on the row or on its predecessor
      suppresses both flags. */
  lemma ZeroSuppresses(d: seq<real>, t: nat)
    requires t < |d|
    requires d[t] == 0.0 || (t > 0 && d[t - 1] == 0.0)
    ensures !UpCrosses(d)[t] && !DownCrosses(d)[t]
  {
    CrossesAt(d, t);
  }

  /** A row is flagged in one direction or the other exactly when the
      product of the two differences is negative. */
  lemma CrossIsSignFlip(d: seq<real>, t: nat)
    requires t < |d|
    ensures UpCrosses(d)[t] || DownCrosses(d)[t] <==> 0 < t && d[t - 1] * d[t] < 0.0
  {
    CrossesAt(d, t);
    if t > 0 {
      var a, b := d[t - 1], d[t];
      if a < 0.0 && b > 0.0 {
        assert a * b < 0.0;
      } else if a > 0.0 && b < 0.0 {
        assert a * b < 0.0;
      } else if a == 0.0 || b == 0.0 {
        assert a * b == 0.0;
      } else if a > 0.0 {
        assert a * b > 0.0;
      } else {
        assert a * b > 0.0;
      }
    }
  }

  /** A difference that never decreases cannot cross downwards. */
  lemma NoDownCrossWhenNonDecreasing(d: seq<real>)
    requires forall i, j :: 0 <= i < j < |d| ==> d[i] <= d[j]
    ensures forall t :: 0 <= t < |d| ==> !DownCrosses(d)[t]
  {
    forall t | 0 <= t < |d| ensures !DownCrosses(d)[t] {
      CrossesAt(d, t);
    }
  }

  /** A positive difference at `i` followed by a negative one at `j`, with
      no zero in between, has a downward cross in `(i, j]`. */
  lemma {:induction false} DownCrossBetween(d: seq<real>, i: nat, j: nat) returns (t: nat)
    requires i < j < |d|
    requires d[i] > 0.0 && d[j] < 0.0
    requires forall k :: i <= k <= j ==> d[k] != 0.0
    ensures i < t <= j && DownCrosses(d)[t]
  {
    if d[j - 1] > 0.0 {
      t := j;
    } else {
      t := DownCrossBetween(d, i, j - 1);
    }
    CrossesAt(d, t);
  }

  /** The mirror image: negative at `i`, positive at `j`, an upward cross in `(i, j]`. */
  lemma {:induction false} UpCrossBetween(d: seq<real>, i: nat, j: nat) returns (t: nat)
    requires i < j < |d|
    requires d[i] < 0.0 && d[j] > 0.0
    requires forall k :: i <= k <= j ==> d[k] != 0.0
    ensures i < t <= j && UpCrosses(d)[t]
  {
    if d[j - 1] < 0.0 {
      t := j;
    } else {
      t := UpCrossBetween(d, i, j - 1);
    }
    CrossesAt(d, t);
  }

  /** When the difference is never exactly zero, two upward crosses are
      always separated by a downward cross, and two downward crosses by an
      upward one: the signals alternate. */
  lemma CrossesAlternate(d: seq<real>, i: nat, j: nat)
    requires i < j < |d|
    requires forall k :: 0 <= k < |d| ==> d[k] != 0.0
    ensures UpCrosses(d)[i] && UpCrosses(d)[j] ==> exists t :: i < t < j && DownCrosses(d)[t]
    ensures DownCrosses(d)[i] && DownCrosses(d)[j] ==> exists t :: i < t < j && UpCrosses(d)[t]
  {
    CrossesAt(d, i);
    CrossesAt(d, j);
    if UpCrosses(d)[i] && UpCrosses(d)[j] {
      var t := DownCrossBetween(d, i, j - 1);
    }
    if DownCrosses(d)[i] && DownCrosses(d)[j] {
      var t := UpCrossBetween(d, i, j - 1);
    }
  }

  /** With a zero difference the signals need not alternate: the series
      -1, 1, 0, -1, 1 crosses upwards at rows 1 and 4 and never downwards,
      because the zero at row 2 suppresses the downward cross at row 3. */
  lemma ZeroBreaksAlternation()
    ensures var d := [-1.0, 1.0, 0.0, -1.0, 1.0];
            && UpCrosses(d)[1] && UpCrosses(d)[4]
            && forall t :: 0 <= t < |d| ==> !DownCrosses(d)[t]
  {
    var d := [-1.0, 1.0, 0.0, -1.0, 1.0];
    forall t | 0 <= t < |d| ensures !DownCrosses(d)[t] {
      CrossesAt(d, t);
    }
    CrossesAt(d, 1);
    CrossesAt(d, 4);
  }

  /** The four crossover categories: 20/50 up and down, 50/200 up and down. */
  datatype Category = BullishCross | BearishCross | GoldenCross | DeathCross

  function PairOf(c: Category): Pair {
    match c
    case BullishCross | BearishCross => FastMid
    case GoldenCross | DeathCross => MidSlow
  }

  predicate Upward(c: Category) {
    c == BullishCross || c == GoldenCross
  }

  /** The boolean column `20_50_bullish`, `20_50_bearish`, `50_200_golden`
      or `50_200_death`. */
  function Flags(rows: seq<Row>, c: Category): (f: seq<bool>)
    ensures |f| == |rows|
  {
    var d := Diffs(rows, PairOf(c));
    if Upward(c) then UpCrosses(d) else DownCrosses(d)
  }

  /** A row is never both bullish and bearish, nor both golden and death;
      it may be flagged once by each pair. */
  lemma FlagsExclusive(rows: seq<Row>, t: nat)
    requires t < |rows|
    ensures !(Flags(rows, BullishCross)[t] && Flags(rows, BearishCross)[t])
    ensures !(Flags(rows, GoldenCross)[t] && Flags(rows, DeathCross)[t])
  {
    CrossesExclusive(Diffs(rows, FastMid), t);
    CrossesExclusive(Diffs(rows, MidSlow), t);
  }
}
