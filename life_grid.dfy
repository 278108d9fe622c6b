/**
 * The life grid: one row of 52 week cells per year of life expectancy, each
 * cell past, current or future against the whole weeks lived, and the year
 * labels shown every fifth row.
 */
module LifeGrid {

  import opened Dates
  import opened Stats

  datatype CellState = Past | Current | Future

  /** `years * 52`. */
  function Total(years: nat): nat {
    years * WeeksPerYear
  }

  /** `Math.min(livedWeeks, total - 1)`: the current week, kept inside the grid. */
  function CurrentIndex(lived: nat, years: nat): (c: int)
    ensures c <= lived && c <= Total(years) - 1
    ensures c == lived || c == Total(years) - 1
  {
    Min(lived, Total(years) - 1)
  }

  /** The state of cell `k`: past below the weeks lived, current at `current`, future otherwise. */
  function StateOf(k: int, lived: nat, current: int): (st: CellState)
    ensures st == Past <==> k < lived
    ensures st == Current <==> lived <= k && k == current
    ensures st == Future <==> lived <= k && k != current
  {
    if k < lived then Past else if k == current then Current else Future
  }

  /** `year * 52 + w`: the index of week `w` of row `year`. */
  function CellIndex(year: int, w: int): int {
    year * WeeksPerYear + w
  }

  /** `year % 5 === 0`: only every fifth year shows its label. */
  predicate ShowYear(year: nat) {
    year % 5 == 0
  }

  /** The rows of the grid as `rows.map(year => cols.map(w => state))` builds them. */
  function Rows(years: nat, lived: nat): (rows: seq<seq<CellState>>)
    ensures |rows| == years
    ensures forall y :: 0 <= y < years ==> |rows[y]| == WeeksPerYear
  {
    seq(years, y => seq(WeeksPerYear, w => StateOf(CellIndex(y, w), lived, CurrentIndex(lived, years))))
  }

  /** The first `n` cells, in reading order, when `lived` weeks are past and `current` is current. */
  function Cells(n: nat, lived: nat, current: int): (s: seq<CellState>)
    ensures |s| == n && forall k :: 0 <= k < n ==> s[k] == StateOf(k, lived, current)
  {
    seq(n, k => StateOf(k, lived, current))
  }

  /** How many entries of `s` are `st`. */
  function Count(s: seq<CellState>, st: CellState): nat {
    if s == [] then 0 else Count(s[..|s| - 1], st) + (if s[|s| - 1] == st then 1 else 0)
  }

  /** The indices `year * 52 + w` enumerate the cells: each row and column names a cell, once. */
  lemma CellIndexEnumerates(years: nat, year: int, w: int)
    requires 0 <= year < years && 0 <= w < WeeksPerYear
    ensures 0 <= CellIndex(year, w) < Total(years)
    ensures CellIndex(year, w) / WeeksPerYear == year && CellIndex(year, w) % WeeksPerYear == w
  {
    assert year + 1 <= years;
    assert CellIndex(year, w) < (year + 1) * WeeksPerYear <= years * WeeksPerYear;
  }

  /** Every cell of the grid has exactly one row and column. */
  lemma CellIndexOnto(years: nat, k: int)
    requires 0 <= k < Total(years)
    ensures var y, w := k / WeeksPerYear, k % WeeksPerYear;
      0 <= y < years && 0 <= w < WeeksPerYear && CellIndex(y, w) == k
    ensures forall y, w :: 0 <= y < years && 0 <= w < WeeksPerYear && CellIndex(y, w) == k ==>
      y == k / WeeksPerYear && w == k % WeeksPerYear
  {
    forall y, w | 0 <= y < years && 0 <= w < WeeksPerYear && CellIndex(y, w) == k
      ensures y == k / WeeksPerYear && w == k % WeeksPerYear
    {
      CellIndexEnumerates(years, y, w);
    }
  }

  /** Row `year`, week `w` of the rows is cell `year * 52 + w` of the grid read in order. */
  lemma RowsAreCells(years: nat, lived: nat, year: int, w: int)
    requires 0 <= year < years && 0 <= w < WeeksPerYear
    ensures CellIndex(year, w) < Total(years)
    ensures Rows(years, lived)[year][w] == Cells(Total(years), lived, CurrentIndex(lived, years))[CellIndex(year, w)]
  {
    CellIndexEnumerates(years, year, w);
  }

  lemma CellsSnoc(n: nat, lived: nat, current: int)
    ensures Cells(n + 1, lived, current) == Cells(n, lived, current) + [StateOf(n, lived, current)]
  {
  }

  /** Exactly the first `min(lived, n)` cells are past. */
  lemma {:induction false} CountPast(n: nat, lived: nat, current: int)
    ensures Count(Cells(n, lived, current), Past) == Min(lived, n)
  {
    if n > 0 {
      CountPast(n - 1, lived, current);
      CellsSnoc(n - 1, lived, current);
      assert Cells(n, lived, current)[..n - 1] == Cells(n - 1, lived, current);
    }
  }

  /** Cell `current` is the one current cell, if it is at or above `lived` and inside the first `n`. */
  lemma {:induction false} CountCurrent(n: nat, lived: nat, current: int)
    ensures Count(Cells(n, lived, current), Current) == if lived <= current < n then 1 else 0
  {
    if n > 0 {
      CountCurrent(n - 1, lived, current);
      CellsSnoc(n - 1, lived, current);
      assert Cells(n, lived, current)[..n - 1] == Cells(n - 1, lived, current);
    }
  }

  /** Every cell is past, current or future. */
  lemma {:induction false} CountAll(s: seq<CellState>)
    ensures Count(s, Past) + Count(s, Current) + Count(s, Future) == |s|
  {
    if s != [] {
      CountAll(s[..|s| - 1]);
    }
  }

  /**
   * With the clamped current index, the grid has `min(lived, total)` past
   * cells, one current cell exactly when fewer weeks than the total are
   * lived, and the rest future.
   */
  lemma GridCounts(years: nat, lived: nat)
    ensures var cells := Cells(Total(years), lived, CurrentIndex(lived, years));
      && Count(cells, Past) == Min(lived, Total(years))
      && Count(cells, Current) == (if lived < Total(years) then 1 else 0)
      && Count(cells, Future) == Total(years) - Min(lived, Total(years)) - (if lived < Total(years) then 1 else 0)
  {
    var cells := Cells(Total(years), lived, CurrentIndex(lived, years));
    CountPast(Total(years), lived, CurrentIndex(lived, years));
    CountCurrent(Total(years), lived, CurrentIndex(lived, years));
    CountAll(cells);
  }

  /** The cells of the grid agree with the summary: past cells are the weeks lived, future ones the weeks remaining. */
  lemma GridMatchesStats(birth: CalendarDate, nowMs: int, years: nat)
    ensures var s := ComputeStats(birth, nowMs, years);
      var cells := Cells(Total(years), s.livedWeeks, CurrentIndex(s.livedWeeks, years));
      && Count(cells, Past) == s.livedWeeks
      && Count(cells, Future) == s.remainingWeeks
      && Count(cells, Current) == (if s.livedWeeks < s.totalWeeks then 1 else 0)
  {
    var s := ComputeStats(birth, nowMs, years);
    GridCounts(years, s.livedWeeks);
  }

  /** The rows, among `rows.map(year => ...)` for `years` rows, whose year label is shown, in row order. */
  function LabelledRows(years: nat): (ls: seq<nat>)
    ensures forall i :: 0 <= i < |ls| ==> ls[i] < years && ShowYear(ls[i])
    ensures forall i, j :: 0 <= i < j < |ls| ==> ls[i] < ls[j]
  {
    if years == 0 then []
    else LabelledRows(years - 1) + (if ShowYear(years - 1) then [years - 1] else [])
  }

  /** The labelled rows are 0, 5, 10, ...: one label for every started block of five years. */
  lemma {:induction false} LabelledRowsEvery5(years: nat)
    ensures LabelledRows(years) == seq((years + 4) / 5, j => 5 * j)
  {
    if years > 0 {
      var y := years - 1;
      LabelledRowsEvery5(y);
      var prev := seq((y + 4) / 5, j => 5 * j);
      if ShowYear(y) {
        assert (y + 4) / 5 == y / 5 && (years + 4) / 5 == y / 5 + 1 && y == 5 * (y / 5);
        assert seq((years + 4) / 5, j => 5 * j) == prev + [y];
      } else {
        assert (years + 4) / 5 == (y + 4) / 5;
      }
    }
  }
}
