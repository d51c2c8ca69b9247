/** Reading the uploaded sheet into the grid shown for mapping (`getList`):
    the number of rows and columns is counted first, then a rectangle of
    cell values is filled row by row. */
module Grid {
  import opened Php

  /** The first sheet of a loaded workbook: its highest row and highest
      column (1-based), and for every (column, row) either the cell that
      exists there or nothing. */
  datatype Sheet = Sheet(highestRow: nat, highestColumn: nat, cell: (nat, nat) -> Option<Value>)

  /** What the local copy of the uploaded file turns out to be. */
  datatype SheetFile =
    | Missing            // `is_file` fails
    | Unidentifiable     // the format identification throws
    | Unreadable         // the reader's `canRead` refuses the file
    | Readable(sheet: Sheet)

  /** `$aList`: the counters and the cell values by row, then column. */
  datatype Listing = Listing(rows: nat, cols: nat, data: map<nat, map<nat, Value>>)

  /** `getCellByColumnAndRow($x, $y)->getValue()`: a cell that does not
      exist is created empty, so its value is null. */
  function CellValue(sheet: Sheet, x: nat, y: nat): Value
  {
    match sheet.cell(x, y)
    case Some(v) => v
    case None => Null
  }

  /** The number of existing cells among columns 1..n of row 1. */
  function ExistingInRowOne(sheet: Sheet, n: nat): nat
  {
    if n == 0 then 0
    else ExistingInRowOne(sheet, n - 1) + (if sheet.cell(n, 1).Some? then 1 else 0)
  }

  /** The columns 1..n of row 1 that hold a cell. */
  function ExistingColumns(sheet: Sheet, n: nat): set<nat>
  {
    set x: nat | 1 <= x <= n && sheet.cell(x, 1).Some?
  }

  /** The counter counts exactly the existing cells of row 1. */
  lemma {:induction false} ExistingInRowOneCounts(sheet: Sheet, n: nat)
    ensures ExistingInRowOne(sheet, n) == |ExistingColumns(sheet, n)|
    ensures ExistingInRowOne(sheet, n) <= n
  {
    if n == 0 {
      assert ExistingColumns(sheet, 0) == {};
    } else {
      ExistingInRowOneCounts(sheet, n - 1);
      var before := ExistingColumns(sheet, n - 1);
      assert n !in before;
      if sheet.cell(n, 1).Some? {
        assert ExistingColumns(sheet, n) == before + {n};
      } else {
        assert ExistingColumns(sheet, n) == before;
      }
    }
  }

  /** The column count the loop of lines 418-431 arrives at: 1 when there
      are no rows, otherwise the larger of 1 and the number of existing
      cells of row 1. The cell iterator of line 420 is built on row 1 on
      every pass, whatever row the outer loop is at, so the other rows
      never widen the grid. */
  function ColsOf(sheet: Sheet): nat
  {
    if sheet.highestRow == 0 then 1
    else
      var n := ExistingInRowOne(sheet, sheet.highestColumn);
      if n > 1 then n else 1
  }

  /** Lines 420-427: count the existing cells of row 1. */
  method CountRowOne(sheet: Sheet) returns (n: nat)
    ensures n == |ExistingColumns(sheet, sheet.highestColumn)|
  {
    n := 0;
    for x := 1 to sheet.highestColumn + 1
      invariant n == ExistingInRowOne(sheet, x - 1)
    {
      if sheet.cell(x, 1).Some? {
        n := n + 1;
      }
    }
    ExistingInRowOneCounts(sheet, sheet.highestColumn);
  }

  /** Lines 416-434: one pass per row of the sheet. */
  method Extent(sheet: Sheet) returns (rows: nat, cols: nat)
    ensures rows == sheet.highestRow + 1
    ensures cols == ColsOf(sheet)
  {
    rows := 1;
    cols := 1;
    for y := 1 to sheet.highestRow + 1
      invariant rows == y
      invariant cols == if y == 1 then 1 else ColsOf(sheet)
    {
      rows := rows + 1;
      var n := CountRowOne(sheet);
      ExistingInRowOneCounts(sheet, sheet.highestColumn);
      if n > cols {
        cols := n;
      }
    }
  }

  /** Row count and column count bounds: at least one column, never more
      than the sheet's highest column unless that is 0. */
  lemma ColsBounds(sheet: Sheet)
    ensures 1 <= ColsOf(sheet)
    ensures ColsOf(sheet) <= if sheet.highestColumn > 1 then sheet.highestColumn else 1
  {
    ExistingInRowOneCounts(sheet, sheet.highestColumn);
  }

  /** Only row 1 decides the width: two sheets of the same size that agree
      on row 1 get the same column count, whatever their other rows hold. */
  lemma {:induction false} ColsOnlyFromRowOne(s: Sheet, t: Sheet)
    requires s.highestRow == t.highestRow && s.highestColumn == t.highestColumn
    requires forall x :: s.cell(x, 1) == t.cell(x, 1)
    ensures ColsOf(s) == ColsOf(t)
  {
    SameRowOne(s, t, s.highestColumn);
  }

  lemma {:induction false} SameRowOne(s: Sheet, t: Sheet, n: nat)
    requires forall x :: s.cell(x, 1) == t.cell(x, 1)
    ensures ExistingInRowOne(s, n) == ExistingInRowOne(t, n)
  {
    if n > 0 {
      SameRowOne(s, t, n - 1);
      assert s.cell(n, 1) == t.cell(n, 1);
    }
  }

  /** `data` holds exactly rows 1..rows-1, each with exactly columns
      1..cols, and every entry is the sheet's value there. */
  ghost predicate Filled(data: map<nat, map<nat, Value>>, sheet: Sheet, rows: nat, cols: nat)
  {
    (forall y: nat :: y in data <==> 1 <= y < rows)
    && (forall y: nat, x: nat :: y in data ==> (x in data[y] <==> 1 <= x <= cols))
    && (forall y: nat, x: nat :: y in data && x in data[y] ==> data[y][x] == CellValue(sheet, x, y))
  }

  /** Lines 436-440: the nested loops filling the rectangle. */
  method Fill(sheet: Sheet, rows: nat, cols: nat) returns (data: map<nat, map<nat, Value>>)
    ensures Filled(data, sheet, rows, cols)
  {
    data := map[];
    var y := 1;
    while y < rows
      invariant y == 1 || 1 < y <= rows
      invariant forall r: nat :: r in data <==> 1 <= r < y
      invariant forall r: nat, x: nat :: r in data ==> (x in data[r] <==> 1 <= x <= cols)
      invariant forall r: nat, x: nat :: r in data && x in data[r] ==> data[r][x] == CellValue(sheet, x, r)
    {
      var line: map<nat, Value> := map[];
      var x := 1;
      while x <= cols
        invariant 1 <= x <= cols + 1
        invariant forall c: nat :: c in line <==> 1 <= c < x
        invariant forall c: nat :: c in line ==> line[c] == CellValue(sheet, c, y)
      {
        line := line[x := CellValue(sheet, x, y)];
        x := x + 1;
      }
      data := data[y := line];
      y := y + 1;
    }
  }

  /** `getList` (lines 386-446). A file that is missing or that the reader
      refuses gives the empty listing; a file whose format cannot be
      identified ends in the exception (`None`). */
  method GetList(file: SheetFile) returns (r: Option<Listing>)
    ensures r.None? <==> file.Unidentifiable?
    ensures file.Missing? || file.Unreadable? ==> r == Some(Listing(0, 0, map[]))
    ensures file.Readable? ==>
              r.Some? && r.value.rows == file.sheet.highestRow + 1 && r.value.cols == ColsOf(file.sheet)
              && Filled(r.value.data, file.sheet, r.value.rows, r.value.cols)
  {
    match file
    case Missing =>
      return Some(Listing(0, 0, map[]));
    case Unidentifiable =>
      return None;
    case Unreadable =>
      return Some(Listing(0, 0, map[]));
    case Readable(sheet) =>
      var rows, cols := Extent(sheet);
      var data := Fill(sheet, rows, cols);
      return Some(Listing(rows, cols, data));
  }
}
