/**
 * The SVG life grid: the circles built row by row, the arrow-key focus
 * movement over them and the double-tap detector on touch screens. Unlike
 * the plain grid, the current index here is the weeks lived, unclamped.
 */
module LifeGridSvg {

  import opened Wrappers
  import Dates
  import opened Stats
  import opened LifeGrid

  /** One circle: its row, column, index in reading order and state. Pixel position and label text are left out. */
  datatype Circle = Circle(row: nat, col: nat, idx: nat, state: CellState)

  /** The circle at position `i` of `circles`, with `currentIndex = livedWeeks`. */
  function CircleAt(i: nat, lived: nat): Circle {
    Circle(i / WeeksPerYear, i % WeeksPerYear, i, StateOf(i, lived, lived))
  }

  /**
   * The `circles` memo: for each row, for each of the 52 columns, push the
   * circle of index `row * 52 + col`. Position `i` holds the circle of index
   * `i`, so the circles list the grid in reading order.
   */
  method BuildCircles(rows: nat, lived: nat) returns (circles: seq<Circle>)
    ensures |circles| == Total(rows)
    ensures forall i :: 0 <= i < |circles| ==> circles[i] == CircleAt(i, lived)
  {
    circles := [];
    var row := 0;
    while row < rows
      invariant 0 <= row <= rows
      invariant |circles| == row * WeeksPerYear
      invariant forall i :: 0 <= i < |circles| ==> circles[i] == CircleAt(i, lived)
    {
      var col := 0;
      while col < WeeksPerYear
        invariant 0 <= col <= WeeksPerYear
        invariant |circles| == row * WeeksPerYear + col
        invariant forall i :: 0 <= i < |circles| ==> circles[i] == CircleAt(i, lived)
      {
        var idx := row * WeeksPerYear + col;
        var state := Future;
        if idx < lived {
          state := Past;
        } else if idx == lived {
          state := Current;
        }
        CellIndexEnumerates(rows, row, col);
        circles := circles + [Circle(row, col, idx, state)];
        col := col + 1;
      }
      row := row + 1;
    }
  }

  /** The circles carry the states of the grid's cells, read in order, with the unclamped current index. */
  lemma CirclesAreCells(rows: nat, lived: nat, i: nat)
    requires i < Total(rows)
    ensures CircleAt(i, lived).state == Cells(Total(rows), lived, lived)[i]
    ensures CircleAt(i, lived).row < rows && CellIndex(CircleAt(i, lived).row, CircleAt(i, lived).col) == i
  {
    CellIndexOnto(rows, i);
  }

  /**
   * Without the clamp, there is one current circle while fewer weeks than the
   * grid holds are lived, and none once they are all lived.
   */
  lemma CurrentCircles(rows: nat, lived: nat)
    ensures Count(Cells(Total(rows), lived, lived), Current) == (if lived < Total(rows) then 1 else 0)
    ensures lived >= Total(rows) ==> forall i :: 0 <= i < Total(rows) ==> CircleAt(i, lived).state == Past
  {
    CountCurrent(Total(rows), lived, lived);
  }

  /**
   * The clamp makes no difference inside the grid: the SVG grid and the
   * plain grid give every cell the same state.
   */
  lemma ClampInvisible(rows: nat, lived: nat, k: int)
    requires 0 <= k < Total(rows)
    ensures StateOf(k, lived, lived) == StateOf(k, lived, CurrentIndex(lived, rows))
  {
  }

  /** The keys `onKeyDown` tells apart. */
  datatype Key = ArrowRight | ArrowLeft | ArrowUp | ArrowDown | Enter | Space | OtherKey

  /**
   * What a key press does: the focused index afterwards, the index reported
   * to the double-click callback if any, and whether the default action was
   * prevented.
   */
  datatype KeyOutcome = KeyOutcome(focus: Option<int>, reported: Option<int>, handled: bool)

  /**
   * `onKeyDown`: with a focused circle, the arrows move the focus by one
   * column or one row, kept inside `[0, total - 1]`, and Enter or Space
   * report the focused index to the callback when there is one.
   */
  function OnKeyDown(focused: Option<int>, key: Key, rows: nat, hasCallback: bool): (o: KeyOutcome)
    ensures focused.None? ==> o == KeyOutcome(None, None, false)
    ensures o.reported.Some? <==> focused.Some? && (key == Enter || key == Space) && hasCallback
    ensures o.reported.Some? ==> o.reported == focused
    ensures o.handled <==> focused.Some? && key != OtherKey
    ensures (key == Enter || key == Space || key == OtherKey) ==> o.focus == focused
  {
    var total := Total(rows);
    match focused
    case None => KeyOutcome(None, None, false)
    case Some(f) =>
      match key
      case ArrowRight => KeyOutcome(Some(Min(total - 1, f + 1)), None, true)
      case ArrowLeft => KeyOutcome(Some(Dates.Max(0, f - 1)), None, true)
      case ArrowUp => KeyOutcome(Some(Dates.Max(0, f - WeeksPerYear)), None, true)
      case ArrowDown => KeyOutcome(Some(Min(total - 1, f + WeeksPerYear)), None, true)
      case Enter => KeyOutcome(focused, if hasCallback then focused else None, true)
      case Space => KeyOutcome(focused, if hasCallback then focused else None, true)
      case OtherKey => KeyOutcome(focused, None, false)
  }

  /** A focus inside the grid stays inside it, whatever key is pressed. */
  lemma FocusStaysInGrid(f: int, key: Key, rows: nat, hasCallback: bool)
    requires 0 <= f < Total(rows)
    ensures var o := OnKeyDown(Some(f), key, rows, hasCallback);
      o.focus.Some? && 0 <= o.focus.value < Total(rows)
  {
  }

  /**
   * Inside the grid the arrows move one cell sideways or one row up or
   * down; at an edge they stop at the first or last cell (down from the last
   * row goes to the very last cell, not the same column).
   */
  lemma ArrowMoves(f: int, rows: nat)
    requires 0 <= f < Total(rows)
    ensures OnKeyDown(Some(f), ArrowRight, rows, false).focus == Some(if f + 1 < Total(rows) then f + 1 else f)
    ensures OnKeyDown(Some(f), ArrowLeft, rows, false).focus == Some(if f > 0 then f - 1 else 0)
    ensures OnKeyDown(Some(f), ArrowUp, rows, false).focus == Some(if f >= WeeksPerYear then f - WeeksPerYear else 0)
    ensures OnKeyDown(Some(f), ArrowDown, rows, false).focus
            == Some(if f / WeeksPerYear < rows - 1 then f + WeeksPerYear else Total(rows) - 1)
  {
    if f / WeeksPerYear < rows - 1 {
      assert f < (f / WeeksPerYear + 1) * WeeksPerYear;
      assert (f / WeeksPerYear + 1) * WeeksPerYear <= (rows - 1) * WeeksPerYear;
    } else {
      assert f / WeeksPerYear == rows - 1;
      assert f - f % WeeksPerYear == (rows - 1) * WeeksPerYear;
    }
  }

  /** Right undoes left and down undoes up, away from the edges. */
  lemma ArrowsUndo(f: int, rows: nat)
    requires 0 < f < Total(rows)
    ensures var left := OnKeyDown(Some(f), ArrowLeft, rows, false).focus;
      OnKeyDown(left, ArrowRight, rows, false).focus == Some(f)
    ensures f >= WeeksPerYear ==>
      var up := OnKeyDown(Some(f), ArrowUp, rows, false).focus;
      OnKeyDown(up, ArrowDown, rows, false).focus == Some(f)
  {
  }

  /** `TAP_WINDOW`: two taps closer than this many milliseconds make a double tap. */
  const TapWindow: int := 300

  /** The last tap remembered: when and on which circle. */
  datatype Tap = Tap(t: int, idx: int)

  /** A tap at `now` on `idx` completes a double tap after `last`. */
  predicate IsDoubleTap(last: Option<Tap>, now: int, idx: int) {
    last.Some? && now - last.value.t < TapWindow && last.value.idx == idx
  }

  datatype TapResult = TapResult(last: Option<Tap>, double: bool)

  /** One `handleTouchEnd`: a double tap fires and forgets the last tap; any other tap becomes the last. */
  function TapStep(last: Option<Tap>, now: int, idx: int): (r: TapResult)
    ensures r.double <==> IsDoubleTap(last, now, idx)
    ensures r.double ==> r.last.None?
    ensures !r.double ==> r.last == Some(Tap(now, idx))
  {
    if IsDoubleTap(last, now, idx) then TapResult(None, true) else TapResult(Some(Tap(now, idx)), false)
  }

  /** Whether each of a series of taps fires, starting from `last`. */
  function Replay(last: Option<Tap>, taps: seq<Tap>): (fired: seq<bool>)
    ensures |fired| == |taps|
    decreases |taps|
  {
    if taps == [] then []
    else
      var r := TapStep(last, taps[0].t, taps[0].idx);
      [r.double] + Replay(r.last, taps[1..])
  }

  /** A run of taps on one circle, each within the window of the one before. */
  predicate QuickRun(taps: seq<Tap>) {
    forall i :: 0 < i < |taps| ==> taps[i].idx == taps[0].idx && taps[i].t - taps[i - 1].t < TapWindow
  }

  /** Of two quick taps on the same circle, exactly one fires, whatever came before. */
  lemma TwoQuickTaps(last: Option<Tap>, t1: int, t2: int, idx: int)
    requires t2 - t1 < TapWindow
    ensures var r1 := TapStep(last, t1, idx);
      var r2 := TapStep(r1.last, t2, idx);
      r1.double != r2.double
  {
  }

  /**
   * In a quick run of taps on one circle the taps pair up: starting with no
   * tap remembered, the second, fourth, sixth ... fire and the others do
   * not; starting one tap into a pair, the first, third ... fire.
   */
  lemma {:induction false} QuickRunPairs(last: Option<Tap>, taps: seq<Tap>)
    requires QuickRun(taps)
    requires last.Some? && taps != [] ==> last.value.idx == taps[0].idx && taps[0].t - last.value.t < TapWindow
    ensures forall i :: 0 <= i < |taps| ==> Replay(last, taps)[i] == (i % 2 == if last.None? then 1 else 0)
    decreases |taps|
  {
    if taps != [] {
      var r := TapStep(last, taps[0].t, taps[0].idx);
      var rest := taps[1..];
      assert QuickRun(rest) by {
        forall i | 0 < i < |rest|
          ensures rest[i].idx == rest[0].idx && rest[i].t - rest[i - 1].t < TapWindow
        {
          assert rest[i] == taps[i + 1] && rest[i - 1] == taps[i] && rest[0] == taps[1];
        }
      }
      if rest != [] {
        assert rest[0] == taps[1];
      }
      QuickRunPairs(r.last, rest);
      assert Replay(last, taps) == [r.double] + Replay(r.last, rest);
    }
  }

  /** The remembered last tap of `handleTouchEnd`, kept between taps. */
  class TapDetector {
    var lastTap: Option<Tap>

    constructor()
      ensures lastTap.None?
    {
      lastTap := None;
    }

    /**
     * `handleTouchEnd(idx)` at time `now`: reports whether the tap completed
     * a double tap (and the callback, when given, was called with `idx`).
     */
    method HandleTouchEnd(now: int, idx: int) returns (fired: bool)
      modifies this
      ensures fired == TapStep(old(lastTap), now, idx).double
      ensures lastTap == TapStep(old(lastTap), now, idx).last
    {
      var last := lastTap;
      if last.Some? && now - last.value.t < TapWindow && last.value.idx == idx {
        lastTap := None;
        fired := true;
        return;
      }
      lastTap := Some(Tap(now, idx));
      fired := false;
    }
  }
}
