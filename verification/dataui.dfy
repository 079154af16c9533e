/** The spreadsheet viewer (question-3-data-ui/script.js): the loaded sheet
    (`currentData`), the rows on display (`filteredData`), the two row filters,
    in-place cell editing, the row and column counts, and the selection of chart
    points.

    Every row is a JavaScript array that the page edits in place, and the
    filters copy references to those arrays rather than the arrays themselves,
    so a row is an object (`Row`) that `currentData` and `filteredData` can
    share. A slot of `filteredData` that was never assigned (a hole left by
    writing past its end) is `None`. Cells are strings: the sheet is read with
    `raw: false` and `defval: ''`, and an edit stores the input's text. An
    unassigned cell inside a row reads as `""` wherever the page reads it, so
    the model stores `""` there. */
module DataUI {
  import opened Text

  /** One row of the sheet: an array of cell texts. */
  class Row {
    var cells: seq<string>

    constructor (cells: seq<string>)
      ensures this.cells == cells
    {
      this.cells := cells;
    }
  }

  // ------------------------------------------------------------ row tests

  /** `row[col] || ''`: a cell past the end of its row reads as empty. */
  function CellAt(cells: seq<string>, col: nat): (c: string)
    ensures col < |cells| ==> c == cells[col]
    ensures col >= |cells| ==> c == []
  {
    if col < |cells| then cells[col] else []
  }

  /** The test of `filterData`: some truthy (non-empty) cell contains the term
      once lower-cased. */
  predicate SearchHit(cells: seq<string>, term: string) {
    exists j :: 0 <= j < |cells| && cells[j] != [] && Contains(Lower(cells[j]), term)
  }

  /** The test of `applyColumnFilter`: the cell at the column, lower-cased,
      contains the (already lower-cased) value. */
  predicate ColumnHit(cells: seq<string>, col: nat, value: string) {
    Contains(Lower(CellAt(cells, col)), value)
  }

  /** The row test of `filterData` for a lower-cased term. */
  function SearchTest(term: string): seq<string> -> bool {
    cells => SearchHit(cells, term)
  }

  /** The row test of `applyColumnFilter` for a column and a lower-cased value. */
  function ColumnTest(col: nat, value: string): seq<string> -> bool {
    cells => ColumnHit(cells, col, value)
  }

  // ------------------------------------------------------------ header-preserving selection

  /** The positions among the first `n` rows that a filter keeps: row 0 (the
      header) always, any other row when `hit` holds for it. */
  function Kept(table: seq<seq<string>>, hit: seq<string> -> bool, n: nat): (idx: seq<nat>)
    requires n <= |table|
    ensures forall k :: 0 <= k < |idx| ==> idx[k] < n
    ensures forall a, b :: 0 <= a < b < |idx| ==> idx[a] < idx[b]
    ensures n > 0 ==> |idx| > 0 && idx[0] == 0
  {
    if n == 0 then []
    else Kept(table, hit, n - 1) + (if n - 1 == 0 || hit(table[n - 1]) then [n - 1] else [])
  }

  /** A row is kept exactly when it is the header or passes the test. */
  lemma {:induction false} KeptMembers(table: seq<seq<string>>, hit: seq<string> -> bool, n: nat)
    requires n <= |table|
    ensures forall i: nat :: i in Kept(table, hit, n) <==> i < n && (i == 0 || hit(table[i]))
  {
    if n > 0 {
      KeptMembers(table, hit, n - 1);
    }
  }

  /** The rows at the kept positions, in order, as slots of `filteredData`. */
  function Pick(rows: seq<Row>, idx: seq<nat>): (r: seq<Option<Row>>)
    requires forall k :: 0 <= k < |idx| ==> idx[k] < |rows|
    ensures |r| == |idx|
    ensures forall k :: 0 <= k < |idx| ==> r[k] == Some(rows[idx[k]])
  {
    seq(|idx|, k requires 0 <= k < |idx| => Some(rows[idx[k]]))
  }

  /** The cell texts of a list of rows. */
  function Table(rows: seq<Row>): (t: seq<seq<string>>)
    reads rows
    ensures |t| == |rows|
    ensures forall i :: 0 <= i < |rows| ==> t[i] == rows[i].cells
  {
    seq(|rows|, i reads rows requires 0 <= i < |rows| => rows[i].cells)
  }

  /** The cell texts of the slots of `filteredData`, `None` for a hole. */
  function SlotTable(slots: seq<Option<Row>>): (t: seq<Option<seq<string>>>)
    reads set k | 0 <= k < |slots| && slots[k].Some? :: slots[k].value
    ensures |t| == |slots|
    ensures forall i :: 0 <= i < |slots| ==>
      t[i] == if slots[i].Some? then Some(slots[i].value.cells) else None
  {
    seq(|slots|, i reads set k | 0 <= k < |slots| && slots[k].Some? :: slots[k].value
                   requires 0 <= i < |slots| =>
                   if slots[i].Some? then Some(slots[i].value.cells) else None)
  }

  // ------------------------------------------------------------ editing

  /** `row[col] = value` on an array of strings: the row grows to reach the
      column, the new cells in between read as empty, and no other cell changes. */
  function SetCell(cells: seq<string>, col: nat, value: string): (r: seq<string>)
    ensures |r| == if col < |cells| then |cells| else col + 1
    ensures r[col] == value
    ensures forall k :: 0 <= k < |r| && k != col ==> r[k] == CellAt(cells, k)
  {
    if col < |cells| then cells[col := value]
    else cells + seq(col - |cells|, _ => []) + [value]
  }

  /** `filteredData[i] = row` on a list of slots: the list grows to reach the
      position, leaving holes in between, and no other slot changes. */
  function Place(slots: seq<Option<Row>>, i: nat, row: Row): (r: seq<Option<Row>>)
    ensures |r| == if i < |slots| then |slots| else i + 1
    ensures r[i] == Some(row)
    ensures forall k :: 0 <= k < |r| && k != i ==> r[k] == if k < |slots| then slots[k] else None
  {
    if i < |slots| then slots[i := Some(row)]
    else slots + seq(i - |slots|, _ => None) + [Some(row)]
  }

  // ------------------------------------------------------------ chart points

  /** The (x, y) cell pairs `generateChart` takes from slots 1 .. n - 1: those
      whose row exists and whose two selected cells are both non-empty. */
  function ChartPoints(view: seq<Option<seq<string>>>, x: nat, y: nat, n: nat): (ps: seq<(string, string)>)
    requires n <= |view|
    ensures |ps| <= if n == 0 then 0 else n - 1
    ensures forall k :: 0 <= k < |ps| ==> ps[k].0 != [] && ps[k].1 != []
  {
    if n <= 1 then []
    else
      var cells := view[n - 1];
      ChartPoints(view, x, y, n - 1)
        + (if cells.Some? && CellAt(cells.value, x) != [] && CellAt(cells.value, y) != []
           then [(CellAt(cells.value, x), CellAt(cells.value, y))] else [])
  }

  /** Every point comes from a data row among the first `n` slots with both
      cells present, and every such row gives one. */
  lemma {:induction false} ChartPointsFromRows(view: seq<Option<seq<string>>>, x: nat, y: nat, n: nat)
    requires n <= |view|
    ensures forall p :: p in ChartPoints(view, x, y, n) ==>
      exists i :: 1 <= i < n && view[i].Some? && p == (CellAt(view[i].value, x), CellAt(view[i].value, y))
    ensures forall i :: 1 <= i < n && view[i].Some? && CellAt(view[i].value, x) != [] && CellAt(view[i].value, y) != [] ==>
      (CellAt(view[i].value, x), CellAt(view[i].value, y)) in ChartPoints(view, x, y, n)
  {
    if n > 1 {
      ChartPointsFromRows(view, x, y, n - 1);
    }
  }

  /** What `generateChart` ends with. */
  datatype ChartOutcome =
    | AxesMissing
    | TooFewRows
    | NoValidData
    | Plotted(labels: seq<string>, ys: seq<string>)

  /** The counts shown by `updateDataInfo`. */
  datatype DataInfo = DataInfo(rowCount: nat, colCount: nat)

  // ------------------------------------------------------------ the viewer

  class SheetView {
    var currentSheet: Option<string>
    /** `currentData`: the rows of the loaded sheet, header first. */
    var current: seq<Row>
    /** `filteredData`: the rows on display, header first. */
    var filtered: seq<Option<Row>>

    constructor ()
      ensures currentSheet == None && current == [] && filtered == []
    {
      currentSheet := None;
      current := [];
      filtered := [];
    }

    /** `loadSheet`: the sheet's rows become `currentData` (one new array per
        row) even when there are none; only a non-empty sheet is then put on
        display, as a fresh list of the same row objects. */
    method LoadSheet(name: string, sheet: seq<seq<string>>) returns (loaded: bool)
      modifies this
      ensures currentSheet == Some(name)
      ensures loaded <==> sheet != []
      ensures Table(current) == sheet
      ensures forall i :: 0 <= i < |current| ==> fresh(current[i])
      ensures forall a, b :: 0 <= a < b < |current| ==> current[a] != current[b]
      ensures loaded ==> filtered == Pick(current, AllRows(|current|))
      ensures !loaded ==> filtered == old(filtered)
    {
      currentSheet := Some(name);
      var rows: seq<Row> := [];
      for i := 0 to |sheet|
        invariant |rows| == i
        invariant forall k :: 0 <= k < i ==> fresh(rows[k]) && rows[k].cells == sheet[k]
        invariant forall a, b :: 0 <= a < b < i ==> rows[a] != rows[b]
        invariant currentSheet == Some(name) && filtered == old(filtered)
      {
        var row := new Row(sheet[i]);
        rows := rows + [row];
      }
      current := rows;
      if |current| == 0 {
        return false;
      }
      filtered := Pick(current, AllRows(|current|));
      return true;
    }

    /** `filterData`: a blank term shows a copy of `currentData`; otherwise the
        header and the rows with a cell containing the lower-cased term (which
        is not trimmed). Always recomputed from `currentData`. */
    method FilterData(searchTerm: string)
      modifies this`filtered
      ensures IsBlank(searchTerm) ==> filtered == Pick(current, AllRows(|current|))
      ensures !IsBlank(searchTerm) ==>
        filtered == Pick(current, Kept(Table(current), SearchTest(Lower(searchTerm)), |current|))
    {
      TrimEmptyIffBlank(searchTerm);
      if Trim(searchTerm) == [] {
        filtered := Pick(current, AllRows(|current|));
      } else {
        ShowSearchHits(Lower(searchTerm));
      }
    }

    /** The non-blank branch of `filterData`: the header and the rows with a
        cell containing the lower-cased term. */
    method ShowSearchHits(term: string)
      modifies this`filtered
      ensures filtered == Pick(current, Kept(Table(current), SearchTest(term), |current|))
    {
      filtered := Pick(current, Kept(Table(current), SearchTest(term), |current|));
    }

    /** `applyColumnFilter`: with no column chosen or an empty value, a copy of
        `currentData`; otherwise the header and the rows whose cell at the
        column contains the lower-cased value. Always recomputed from
        `currentData`. */
    method ApplyColumnFilter(column: Option<nat>, value: string)
      modifies this`filtered
      ensures column.None? || value == [] ==> filtered == Pick(current, AllRows(|current|))
      ensures column.Some? && value != [] ==>
        filtered == Pick(current, Kept(Table(current), ColumnTest(column.value, Lower(value)), |current|))
    {
      var filterValue := Lower(value);
      if column.None? || filterValue == [] {
        filtered := Pick(current, AllRows(|current|));
      } else {
        filtered := Pick(current, Kept(Table(current), ColumnTest(column.value, filterValue), |current|));
      }
    }

    /** `saveCell`: writes the value into the row object in that slot, so into
        `currentData` as well when the row is shared; an empty slot first gets a
        new empty row. */
    method SaveCell(rowIndex: nat, colIndex: nat, value: string) returns (edited: Row)
      modifies this`filtered
      modifies if rowIndex < |filtered| && filtered[rowIndex].Some? then {filtered[rowIndex].value} else {}
      ensures old(rowIndex < |filtered| && filtered[rowIndex].Some?) ==>
        && edited == old(filtered[rowIndex].value)
        && filtered == old(filtered)
        && edited.cells == SetCell(old(edited.cells), colIndex, value)
      ensures old(rowIndex >= |filtered| || filtered[rowIndex].None?) ==>
        && fresh(edited)
        && filtered == Place(old(filtered), rowIndex, edited)
        && edited.cells == SetCell([], colIndex, value)
      ensures forall i :: 0 <= i < |current| && current[i] == edited ==>
        current[i].cells == SetCell(old(current[i].cells), colIndex, value)
    {
      if rowIndex < |filtered| && filtered[rowIndex].Some? {
        edited := filtered[rowIndex].value;
      } else {
        edited := new Row([]);
        filtered := Place(filtered, rowIndex, edited);
      }
      edited.cells := SetCell(edited.cells, colIndex, value);
    }

    /** `updateDataInfo`: the header is not counted as a row, and the column count
        is the header's length. `None` when slot 0 is a hole, where the page
        would throw reading its length. */
    function Info(): (r: Option<DataInfo>)
      reads this, set k | 0 <= k < |filtered| && filtered[k].Some? :: filtered[k].value
      ensures r.None? <==> |filtered| > 0 && filtered[0].None?
      ensures r.Some? ==> r.value.rowCount + 1 == |filtered| || (|filtered| == 0 && r.value.rowCount == 0)
      ensures r.Some? && |filtered| > 0 ==> r.value.colCount == |filtered[0].value.cells|
      ensures r.Some? && |filtered| == 0 ==> r.value.colCount == 0
    {
      var rowCount := if |filtered| > 0 then |filtered| - 1 else 0;
      if |filtered| == 0 then Some(DataInfo(rowCount, 0))
      else if filtered[0].None? then None
      else Some(DataInfo(rowCount, |filtered[0].value.cells|))
    }

    /** `generateChart`: both axes must be chosen and there must be a data row;
        the points are taken from display rows 1 to 20 only. */
    method GenerateChart(x: Option<nat>, y: Option<nat>) returns (r: ChartOutcome)
      ensures x.None? || y.None? <==> r == AxesMissing
      ensures x.Some? && y.Some? && |filtered| < 2 <==> r == TooFewRows
      ensures x.Some? && y.Some? && |filtered| >= 2 ==>
        var ps := ChartPoints(SlotTable(filtered), x.value, y.value, Min(|filtered|, 21));
        (ps == [] <==> r == NoValidData)
        && (ps != [] ==> r == Plotted(Firsts(ps), Seconds(ps)))
      ensures r.Plotted? ==> 0 < |r.labels| <= 20 && |r.labels| == |r.ys|
    {
      if x.None? || y.None? {
        return AxesMissing;
      }
      if |filtered| < 2 {
        return TooFewRows;
      }
      var view := SlotTable(filtered);
      var points: seq<(string, string)> := [];
      var hi := Min(|filtered|, 21);
      for i := 1 to hi
        invariant points == ChartPoints(view, x.value, y.value, i)
      {
        var row := filtered[i];
        assert view[i] == if row.Some? then Some(row.value.cells) else None;
        if row.Some? && CellAt(row.value.cells, x.value) != [] && CellAt(row.value.cells, y.value) != [] {
          points := points + [(CellAt(row.value.cells, x.value), CellAt(row.value.cells, y.value))];
        }
      }
      if points == [] {
        return NoValidData;
      }
      return Plotted(Firsts(points), Seconds(points));
    }
  }

  /** `[...currentData]`: every position, in order. */
  function AllRows(n: nat): (idx: seq<nat>)
    ensures |idx| == n
    ensures forall k :: 0 <= k < n ==> idx[k] == k
  {
    seq(n, k => k)
  }

  function Min(a: nat, b: nat): nat {
    if a < b then a else b
  }

  function Firsts(ps: seq<(string, string)>): (r: seq<string>)
    ensures |r| == |ps| && forall k :: 0 <= k < |ps| ==> r[k] == ps[k].0
  {
    if ps == [] then [] else Firsts(ps[..|ps| - 1]) + [ps[|ps| - 1].0]
  }

  function Seconds(ps: seq<(string, string)>): (r: seq<string>)
    ensures |r| == |ps| && forall k :: 0 <= k < |ps| ==> r[k] == ps[k].1
  {
    if ps == [] then [] else Seconds(ps[..|ps| - 1]) + [ps[|ps| - 1].1]
  }
}
