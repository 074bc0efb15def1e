/**
 * The rectangle a drag spans and the cells `selectArea` visits inside it,
 * shared by the admin grid and the mentor/applicant grid.
 */
module DragArea {
  import opened Calendar
  import opened Sequences

  /** A grid cell `{ dateIndex, hour, minute }`, also the type of `dragStart` and `dragEnd`. */
  datatype Cell = Cell(dateIndex: int, hour: int, minute: int)

  function CellTime(c: Cell): TimeOfDay
  {
    TimeOfDay(c.hour, c.minute)
  }

  /** The `hour * 60 + minute` of a cell, as both grids compute it. */
  function CellMinutes(c: Cell): int
  {
    Minutes(CellTime(c))
  }

  function Min(a: int, b: int): int { if a <= b then a else b }

  function Max(a: int, b: int): int { if a <= b then b else a }

  /**
   * The test of `isInDragArea` once a drag is under way: the date index and
   * the minutes lie inside the corners' min/max-normalised ranges, both ends
   * included.
   */
  predicate InArea(a: Cell, b: Cell, c: Cell)
  {
    && Min(a.dateIndex, b.dateIndex) <= c.dateIndex <= Max(a.dateIndex, b.dateIndex)
    && Min(CellMinutes(a), CellMinutes(b)) <= CellMinutes(c) <= Max(CellMinutes(a), CellMinutes(b))
  }

  /** Which corner is the anchor does not matter. */
  lemma InAreaSymmetric(a: Cell, b: Cell, c: Cell)
    ensures InArea(a, b, c) == InArea(b, a, c)
    ensures InArea(a, b, a) && InArea(a, b, b)
  {
  }

  /**
   * The inner `forEach` of `selectArea` for one date: the visible times whose
   * minutes lie in `[minTime, maxTime]`, in axis order.
   */
  function RowCells(dateIndex: int, times: seq<TimeOfDay>, minTime: int, maxTime: int): seq<Cell>
  {
    if times == [] then []
    else
      var t := times[|times| - 1];
      RowCells(dateIndex, times[..|times| - 1], minTime, maxTime)
      + (if minTime <= Minutes(t) <= maxTime then [Cell(dateIndex, t.hour, t.minute)] else [])
  }

  /**
   * The outer `for` of `selectArea`: the date indices `first..last` in order,
   * skipping (`continue`) an index with no date.
   */
  function AreaCells(dateCount: int, times: seq<TimeOfDay>, first: int, last: int,
                     minTime: int, maxTime: int): seq<Cell>
    decreases last - first
  {
    if last < first then []
    else AreaCells(dateCount, times, first, last - 1, minTime, maxTime)
         + (if 0 <= last < dateCount then RowCells(last, times, minTime, maxTime) else [])
  }

  /** One more date index adds that column's row cells, or nothing when the index has no date. */
  lemma AreaCellsNextColumn(dateCount: int, times: seq<TimeOfDay>, first: int, last: int, minTime: int, maxTime: int)
    requires first <= last
    ensures AreaCells(dateCount, times, first, last, minTime, maxTime)
            == AreaCells(dateCount, times, first, last - 1, minTime, maxTime)
               + (if 0 <= last < dateCount then RowCells(last, times, minTime, maxTime) else [])
  {
  }

  /** Every cell `selectArea` visits for a drag between the corners `a` and `b`, in visiting order. */
  function DragCells(a: Cell, b: Cell, dateCount: int, times: seq<TimeOfDay>): seq<Cell>
  {
    AreaCells(dateCount, times, Min(a.dateIndex, b.dateIndex), Max(a.dateIndex, b.dateIndex),
              Min(CellMinutes(a), CellMinutes(b)), Max(CellMinutes(a), CellMinutes(b)))
  }

  /** One cell is visited in a column exactly when it is in that column at a shown time inside the minute range. */
  lemma {:induction false} RowCellsMember(dateIndex: int, times: seq<TimeOfDay>, minTime: int, maxTime: int, c: Cell)
    ensures c in RowCells(dateIndex, times, minTime, maxTime) <==>
              c.dateIndex == dateIndex && CellTime(c) in times && minTime <= CellMinutes(c) <= maxTime
  {
    if times != [] {
      var init := times[..|times| - 1];
      var t := times[|times| - 1];
      RowCellsMember(dateIndex, init, minTime, maxTime, c);
      assert times == init + [t];
      assert CellTime(c) in times <==> CellTime(c) in init || CellTime(c) == t;
    }
  }

  lemma RowCellsMembership(dateIndex: int, times: seq<TimeOfDay>, minTime: int, maxTime: int)
    ensures forall c :: c in RowCells(dateIndex, times, minTime, maxTime) <==>
              c.dateIndex == dateIndex && CellTime(c) in times && minTime <= CellMinutes(c) <= maxTime
  {
    forall c
      ensures c in RowCells(dateIndex, times, minTime, maxTime) <==>
                c.dateIndex == dateIndex && CellTime(c) in times && minTime <= CellMinutes(c) <= maxTime
    {
      RowCellsMember(dateIndex, times, minTime, maxTime, c);
    }
  }

  lemma {:induction false} AreaCellsMembership(dateCount: int, times: seq<TimeOfDay>, first: int, last: int,
                                               minTime: int, maxTime: int, c: Cell)
    ensures c in AreaCells(dateCount, times, first, last, minTime, maxTime) <==>
              && first <= c.dateIndex <= last && 0 <= c.dateIndex < dateCount
              && CellTime(c) in times && minTime <= CellMinutes(c) <= maxTime
    decreases last - first
  {
    if first <= last {
      var init := AreaCells(dateCount, times, first, last - 1, minTime, maxTime);
      AreaCellsMembership(dateCount, times, first, last - 1, minTime, maxTime, c);
      if 0 <= last < dateCount {
        var row := RowCells(last, times, minTime, maxTime);
        assert AreaCells(dateCount, times, first, last, minTime, maxTime) == init + row;
        RowCellsMember(last, times, minTime, maxTime, c);
        assert c in init + row <==> c in init || c in row;
      } else {
        assert AreaCells(dateCount, times, first, last, minTime, maxTime) == init;
      }
    }
  }

  /**
   * The cells a drag visits are exactly the cells of the rectangle that have
   * a date and a visible time.
   */
  lemma DragCellsMembership(a: Cell, b: Cell, dateCount: int, times: seq<TimeOfDay>)
    ensures forall c :: c in DragCells(a, b, dateCount, times) <==>
              InArea(a, b, c) && 0 <= c.dateIndex < dateCount && CellTime(c) in times
  {
    forall c
      ensures c in DragCells(a, b, dateCount, times) <==>
                InArea(a, b, c) && 0 <= c.dateIndex < dateCount && CellTime(c) in times
    {
      AreaCellsMembership(dateCount, times, Min(a.dateIndex, b.dateIndex), Max(a.dateIndex, b.dateIndex),
                          Min(CellMinutes(a), CellMinutes(b)), Max(CellMinutes(a), CellMinutes(b)), c);
    }
  }

  lemma {:induction false} RowCellsDistinct(dateIndex: int, times: seq<TimeOfDay>, minTime: int, maxTime: int)
    requires Distinct(times)
    ensures Distinct(RowCells(dateIndex, times, minTime, maxTime))
  {
    if times != [] {
      var init := times[..|times| - 1];
      var t := times[|times| - 1];
      RowCellsDistinct(dateIndex, init, minTime, maxTime);
      RowCellsMembership(dateIndex, init, minTime, maxTime);
      assert t !in init by {
        forall k | 0 <= k < |init| ensures init[k] != t {
          assert init[k] == times[k];
        }
      }
      DistinctConcat(RowCells(dateIndex, init, minTime, maxTime),
                     if minTime <= Minutes(t) <= maxTime then [Cell(dateIndex, t.hour, t.minute)] else []);
    }
  }

  lemma {:induction false} AreaCellsDistinct(dateCount: int, times: seq<TimeOfDay>, first: int, last: int,
                                             minTime: int, maxTime: int)
    requires Distinct(times)
    ensures Distinct(AreaCells(dateCount, times, first, last, minTime, maxTime))
    decreases last - first
  {
    if first <= last {
      AreaCellsDistinct(dateCount, times, first, last - 1, minTime, maxTime);
      if 0 <= last < dateCount {
        RowCellsDistinct(last, times, minTime, maxTime);
        RowCellsMembership(last, times, minTime, maxTime);
        forall c | c in AreaCells(dateCount, times, first, last - 1, minTime, maxTime)
          ensures c !in RowCells(last, times, minTime, maxTime)
        {
          AreaCellsMembership(dateCount, times, first, last - 1, minTime, maxTime, c);
        }
        DistinctConcat(AreaCells(dateCount, times, first, last - 1, minTime, maxTime),
                       RowCells(last, times, minTime, maxTime));
      } else {
        assert AreaCells(dateCount, times, first, last, minTime, maxTime)
            == AreaCells(dateCount, times, first, last - 1, minTime, maxTime);
      }
    }
  }

  /** A drag visits no cell twice when the visible times do not repeat. */
  lemma DragCellsDistinct(a: Cell, b: Cell, dateCount: int, times: seq<TimeOfDay>)
    requires Distinct(times)
    ensures Distinct(DragCells(a, b, dateCount, times))
  {
    AreaCellsDistinct(dateCount, times, Min(a.dateIndex, b.dateIndex), Max(a.dateIndex, b.dateIndex),
                      Min(CellMinutes(a), CellMinutes(b)), Max(CellMinutes(a), CellMinutes(b)));
  }
}
