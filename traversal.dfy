/** The order in which the nested loops of `Process` in generation.cpp visit
    the image grid: rows in the outer loop, columns in the inner one. */
module Traversal {
  import opened Pixels

  /** One iteration of the loops: the pixel at (`col`, `row`). */
  datatype Cell = Cell(row: U32, col: U32)

  /** `cell` lies inside a grid of `rows` by `cols` pixels. */
  predicate InGrid(rows: U32, cols: U32, cell: Cell)
  {
    cell.row < rows && cell.col < cols
  }

  /** Row-major order: `a` is visited before `b`. */
  predicate Precedes(a: Cell, b: Cell)
  {
    a.row < b.row || (a.row == b.row && a.col < b.col)
  }

  /** The cells the inner loop visits in row `row` before `col` reaches `cols`. */
  function RowCells(row: U32, cols: U32): (r: seq<Cell>)
    ensures |r| == cols
    ensures forall k :: 0 <= k < cols ==> r[k] == Cell(row, k)
  {
    if cols == 0 then [] else RowCells(row, cols - 1) + [Cell(row, cols - 1)]
  }

  /** The cells the loops visit before `row` reaches `rows`. */
  function Visits(rows: U32, cols: U32): seq<Cell>
  {
    if rows == 0 then [] else Visits(rows - 1, cols) + RowCells(rows - 1, cols)
  }

  /** The loops run `rows * cols` iterations. */
  lemma {:induction false} VisitsLength(rows: U32, cols: U32)
    ensures |Visits(rows, cols)| == rows * cols
  {
    if rows > 0 {
      VisitsLength(rows - 1, cols);
      assert (rows - 1) * cols + cols == rows * cols;
    }
  }

  /** Every visited cell lies inside the grid. */
  lemma {:induction false} VisitsInGrid(rows: U32, cols: U32)
    ensures forall k :: 0 <= k < |Visits(rows, cols)| ==> InGrid(rows, cols, Visits(rows, cols)[k])
  {
    if rows > 0 {
      VisitsInGrid(rows - 1, cols);
      var prev := Visits(rows - 1, cols);
      assert Visits(rows, cols) == prev + RowCells(rows - 1, cols);
      forall k | 0 <= k < |Visits(rows, cols)|
        ensures InGrid(rows, cols, Visits(rows, cols)[k])
      {
        if k < |prev| {
          assert Visits(rows, cols)[k] == prev[k];
        } else {
          assert Visits(rows, cols)[k] == RowCells(rows - 1, cols)[k - |prev|];
        }
      }
    }
  }

  /** Pixel (`col`, `row`) is visited at iteration `row * cols + col`. */
  lemma {:induction false} VisitsAt(rows: U32, cols: U32, row: U32, col: U32)
    requires row < rows && col < cols
    ensures row * cols + col < |Visits(rows, cols)|
    ensures Visits(rows, cols)[row * cols + col] == Cell(row, col)
  {
    var prev := Visits(rows - 1, cols);
    assert Visits(rows, cols) == prev + RowCells(rows - 1, cols);
    VisitsLength(rows - 1, cols);
    VisitsLength(rows, cols);
    if row < rows - 1 {
      VisitsAt(rows - 1, cols, row, col);
      assert row * cols + col < |prev|;
    } else {
      assert row * cols + col == |prev| + col;
    }
  }

  /** The loops visit cells in strictly increasing row-major order. */
  lemma {:induction false} VisitsRowMajor(rows: U32, cols: U32)
    ensures forall i, j :: 0 <= i < j < |Visits(rows, cols)| ==>
      Precedes(Visits(rows, cols)[i], Visits(rows, cols)[j])
  {
    if rows > 0 {
      VisitsRowMajor(rows - 1, cols);
      VisitsInGrid(rows - 1, cols);
      var prev := Visits(rows - 1, cols);
      var last := RowCells(rows - 1, cols);
      var all := Visits(rows, cols);
      assert all == prev + last;
      forall i, j | 0 <= i < j < |all|
        ensures Precedes(all[i], all[j])
      {
        if j < |prev| {
          assert all[i] == prev[i] && all[j] == prev[j];
        } else if i < |prev| {
          assert all[i] == prev[i] && all[j] == last[j - |prev|];
          assert InGrid(rows - 1, cols, prev[i]);
        } else {
          assert all[i] == last[i - |prev|] && all[j] == last[j - |prev|];
        }
      }
    }
  }

  /** Each pixel of the grid is visited exactly once, and nothing else is
      visited: `rows * cols` iterations in all. */
  lemma VisitsExactlyOnce(rows: U32, cols: U32)
    ensures |Visits(rows, cols)| == rows * cols
    ensures forall cell :: cell in Visits(rows, cols) <==> InGrid(rows, cols, cell)
    ensures forall i, j :: 0 <= i < |Visits(rows, cols)| && 0 <= j < |Visits(rows, cols)| ==>
      (Visits(rows, cols)[i] == Visits(rows, cols)[j] ==> i == j)
  {
    var all := Visits(rows, cols);
    VisitsLength(rows, cols);
    VisitsInGrid(rows, cols);
    VisitsRowMajor(rows, cols);
    forall cell | InGrid(rows, cols, cell)
      ensures cell in all
    {
      VisitsAt(rows, cols, cell.row, cell.col);
    }
  }

  /** On a non-empty grid the last iteration visits the last row's last column. */
  lemma VisitsLast(rows: U32, cols: U32)
    requires rows > 0 && cols > 0
    ensures |Visits(rows, cols)| > 0
    ensures Visits(rows, cols)[|Visits(rows, cols)| - 1] == Cell(rows - 1, cols - 1)
  {
    var prev := Visits(rows - 1, cols);
    assert Visits(rows, cols) == prev + RowCells(rows - 1, cols);
  }
}
