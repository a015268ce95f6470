/** The table activator of docs/js/datatables-init.js: for every table on
    the page that the table-widget library has not yet activated, give it an
    id if it has none, choose column-width hints from its header count, call
    the library with a fixed configuration, and, if that call does not
    throw, mark the body rows where the first column's value changes.

    The library is abstract: its call either throws or activates the table,
    and activation shows as the library's marker class `dataTable` on the
    table (what the skip test of the source looks for). */
module DataTables {
  import opened Wrappers
  import opened Strings

  /** The class the library puts on a table it has activated. */
  const ActiveClass := "dataTable"
  /** The class put on a body row that starts a new group. */
  const BoundaryClass := "group-boundary"
  /** The prefix of the ids given to tables that have none. */
  const IdPrefix := "datatable-"
  /** Cell text longer than this is wrapped for display. */
  const WrapThreshold := 100
  const WrapOpen := "<div style=\"white-space: normal; word-wrap: break-word;\">"
  const WrapClose := "</div>"
  /** The class of the catch-all column definition: left-aligned body and head. */
  const LeftAlign := "dt-body-left dt-head-left"

  /** A body row: the trimmed text content of its first `td`, if it has
      one, and its class list. */
  datatype Row = Row(firstCell: Option<string>, classes: set<string>)

  /** A table element: its id attribute (`""` when absent), its class list,
      the number of `th` cells in its `thead`, and its body rows. */
  datatype Table = Table(id: string, classes: set<string>, headerCount: nat, rows: seq<Row>)

  /** One entry of the `columnDefs` option: a width for some columns, or the
      definition for all columns (`targets: '_all'`), which carries the
      left-align class and the `Render` callback. */
  datatype ColumnDef =
    | WidthHint(targets: seq<nat>, width: string)
    | AllColumns(className: string)

  datatype Button = Button(extend: string, text: string, className: string)

  /** The option object handed to the library. */
  datatype Config = Config(
    dom: string, buttons: seq<Button>, paging: bool, order: seq<(nat, string)>,
    responsive: bool, autoWidth: bool, scrollX: bool, info: bool,
    columnDefs: seq<ColumnDef>)

  /** One call of the library: the jQuery selector and the options. */
  datatype Call = Call(selector: string, config: Config)

  /** Data handed to the render callback: a string, or any value without a
      string's `length` (a number, `null`, `undefined`). */
  datatype CellData = StringData(s: string) | OtherData(handle: nat)

  // ---------------------------------------------------------------------------
  // Column-width hints and column definitions

  /** The width hints chosen from the header count: only tables with 7 or 11
      header cells get any, and every hinted column exists in the table. */
  function NarrowCols(colCount: nat): (hints: seq<ColumnDef>)
    ensures hints != [] <==> colCount == 7 || colCount == 11
    ensures forall k :: 0 <= k < |hints| ==> hints[k].WidthHint?
    ensures forall k, t :: 0 <= k < |hints| && t in hints[k].targets ==> t < colCount
    ensures forall k, l, t :: 0 <= k < l < |hints| && t in hints[k].targets ==> t !in hints[l].targets
  {
    if colCount == 7 then
      [WidthHint([0, 1], "8%"), WidthHint([2, 3], "6%")]
    else if colCount == 11 then
      [WidthHint([0], "7%"), WidthHint([4, 5, 6], "5%")]
    else
      []
  }

  /** The two special-cased header counts get exactly the source's hints. */
  lemma NarrowColsExact(colCount: nat)
    ensures colCount == 7 ==> NarrowCols(colCount) == [WidthHint([0, 1], "8%"), WidthHint([2, 3], "6%")]
    ensures colCount == 11 ==> NarrowCols(colCount) == [WidthHint([0], "7%"), WidthHint([4, 5, 6], "5%")]
    ensures colCount != 7 && colCount != 11 ==> NarrowCols(colCount) == []
  {
  }

  /** `narrowCols.concat([...])`: the hints, then exactly one catch-all
      definition, which comes last. */
  function ColumnDefs(colCount: nat): (defs: seq<ColumnDef>)
    ensures |defs| == |NarrowCols(colCount)| + 1
    ensures defs[..|defs| - 1] == NarrowCols(colCount)
    ensures defs[|defs| - 1] == AllColumns(LeftAlign)
    ensures forall k :: 0 <= k < |defs| ==> (defs[k].AllColumns? <==> k == |defs| - 1)
  {
    NarrowCols(colCount) + [AllColumns(LeftAlign)]
  }

  /** The configuration passed for a table with `colCount` header cells:
      export buttons, no paging, no default order, responsive layout, and
      the column definitions above. */
  function TableConfig(colCount: nat): (c: Config)
    ensures c.columnDefs == ColumnDefs(colCount)
    ensures !c.paging && c.order == [] && c.responsive && !c.autoWidth && !c.scrollX && c.info
    ensures |c.buttons| == 2 && c.buttons[0].extend == "csvHtml5" && c.buttons[1].extend == "excelHtml5"
  {
    Config(
      "Bfrtip",
      [Button("csvHtml5", "Export CSV", "btn-export"), Button("excelHtml5", "Export Excel", "btn-export")],
      false, [], true, false, false, true,
      ColumnDefs(colCount))
  }

  // ---------------------------------------------------------------------------
  // The render callback

  /** The `render` callback of the catch-all column: only for display, and
      only for string data longer than 100 (JavaScript's `length`, which
      counts UTF-16 code units), the data is wrapped in a `div` that allows
      line breaks; otherwise it is returned as it is. */
  function Render(data: CellData, renderType: string): (out: CellData)
    ensures out != data <==> renderType == "display" && data.StringData? && Utf16Length(data.s) > WrapThreshold
    ensures out != data ==>
              && out.StringData?
              && |out.s| == |WrapOpen| + |data.s| + |WrapClose|
              && StartsWith(out.s, WrapOpen) && EndsWith(out.s, WrapClose)
              && out.s[|WrapOpen|..|out.s| - |WrapClose|] == data.s
  {
    // `data && data.length > 100`: a string longer than 100 is truthy.
    if renderType == "display" && data.StringData? && Utf16Length(data.s) > WrapThreshold then
      var w := WrapOpen + data.s + WrapClose;
      assert w[|WrapOpen|..|w| - |WrapClose|] == data.s;
      StringData(w)
    else
      data
  }

  /** Text of exactly 100 UTF-16 code units is not wrapped. */
  lemma RenderAtThreshold(s: string, renderType: string)
    requires Utf16Length(s) == WrapThreshold
    ensures Render(StringData(s), renderType) == StringData(s)
  {
  }

  /** For text inside the Basic Multilingual Plane the threshold is on the
      number of characters. */
  lemma RenderBmp(s: string)
    requires forall k :: 0 <= k < |s| ==> s[k] as int < 0x1_0000
    ensures Render(StringData(s), "display") != StringData(s) <==> |s| > WrapThreshold
  {
    Utf16LengthBmp(s);
  }

  /** 99 characters followed by one outside the Basic Multilingual Plane
      have length 101 in JavaScript, so the text is wrapped. */
  lemma RenderAstral()
    ensures Render(StringData(seq(99, _ => 'a') + ['\U{1F680}']), "display")
            != StringData(seq(99, _ => 'a') + ['\U{1F680}'])
  {
    var a := seq(99, _ => 'a');
    Utf16LengthBmp(a);
    Utf16LengthAppend(a, ['\U{1F680}']);
    assert Utf16Length(['\U{1F680}']) == 2 by {
      assert ['\U{1F680}'][..0] == [];
    }
  }

  // ---------------------------------------------------------------------------
  // Group boundaries

  function CellOf(r: Row): Option<string> {
    r.firstCell
  }

  /** The value of `prevValue` after the loop has gone over `rows`: the
      trimmed first cell of the last row that has one, or `""`. */
  function LastValue(rows: seq<Row>): string {
    if rows == [] then ""
    else match CellOf(rows[|rows| - 1])
      case None => LastValue(rows[..|rows| - 1])
      case Some(v) => v
  }

  /** Row `k` starts a new group: it has a first cell, the value recorded
      before it is non-empty, and its trimmed value differs from that one. */
  predicate IsBoundary(rows: seq<Row>, k: nat)
    requires k < |rows|
  {
    && CellOf(rows[k]).Some?
    && LastValue(rows[..k]) != ""
    && CellOf(rows[k]).value != LastValue(rows[..k])
  }

  function Mark(r: Row, boundary: bool): Row {
    if boundary then r.(classes := r.classes + {BoundaryClass}) else r
  }

  /** The `rows.forEach` pass as a fold that carries the previous value. */
  function MarkFrom(rows: seq<Row>, prev: string): seq<Row>
    decreases |rows|
  {
    if rows == [] then []
    else match CellOf(rows[0])
      case None => [rows[0]] + MarkFrom(rows[1..], prev)
      case Some(v) => [Mark(rows[0], prev != "" && v != prev)] + MarkFrom(rows[1..], v)
  }

  /** The rows of a table after the pass. */
  function MarkBoundaries(rows: seq<Row>): seq<Row> {
    MarkFrom(rows, "")
  }

  /** The value carried into the pass at row `k` is the last one recorded by
      the rows before it. */
  lemma {:induction false} MarkFromAt(rows: seq<Row>, done: seq<Row>, k: nat)
    requires k < |rows|
    ensures |MarkFrom(rows, LastValue(done))| == |rows|
    ensures MarkFrom(rows, LastValue(done))[k]
            == Mark(rows[k], CellOf(rows[k]).Some? && LastValue(done + rows[..k]) != ""
                             && CellOf(rows[k]).value != LastValue(done + rows[..k]))
    decreases |rows|
  {
    MarkFromLength(rows, LastValue(done));
    if k > 0 {
      var done' := done + [rows[0]];
      LastValueAppend(done, rows[0]);
      MarkFromAt(rows[1..], done', k - 1);
      assert done' + rows[1..][..k - 1] == done + rows[..k];
    } else {
      assert done + rows[..0] == done;
    }
  }

  /** A row with a first cell records its value; a row without one keeps
      the value recorded before it. */
  lemma LastValueAppend(done: seq<Row>, r: Row)
    ensures LastValue(done + [r]) == match CellOf(r) case None => LastValue(done) case Some(v) => v
  {
    assert (done + [r])[..|done|] == done;
  }

  lemma {:induction false} MarkFromLength(rows: seq<Row>, prev: string)
    ensures |MarkFrom(rows, prev)| == |rows|
    decreases |rows|
  {
    if rows != [] {
      MarkFromLength(rows[1..], match CellOf(rows[0]) case None => prev case Some(v) => v);
    }
  }

  /** The fold marks exactly the rows `IsBoundary` describes and changes
      nothing else. */
  lemma MarkBoundariesSpec(rows: seq<Row>)
    ensures |MarkBoundaries(rows)| == |rows|
    ensures forall k :: 0 <= k < |rows| ==> MarkBoundaries(rows)[k] == Mark(rows[k], IsBoundary(rows, k))
  {
    MarkFromLength(rows, "");
    forall k | 0 <= k < |rows|
      ensures MarkBoundaries(rows)[k] == Mark(rows[k], IsBoundary(rows, k))
    {
      assert LastValue([]) == "";
      MarkFromAt(rows, [], k);
      assert [] + rows[..k] == rows[..k];
    }
  }

  /** The `rows.forEach` loop: goes over the rows once, carrying the previous
      trimmed first-cell value, and adds the boundary class to every row
      where it changes. */
  method MarkGroupBoundaries(rows: seq<Row>) returns (marked: seq<Row>)
    ensures |marked| == |rows|
    ensures forall k :: 0 <= k < |rows| ==> marked[k] == Mark(rows[k], IsBoundary(rows, k))
    ensures marked == MarkBoundaries(rows)
  {
    var prevValue := "";
    marked := [];
    var i := 0;
    while i < |rows|
      invariant 0 <= i <= |rows|
      invariant prevValue == LastValue(rows[..i])
      invariant |marked| == i
      invariant forall k :: 0 <= k < i ==> marked[k] == Mark(rows[k], IsBoundary(rows, k))
    {
      assert rows[..i + 1][..i] == rows[..i];
      var row := rows[i];
      match row.firstCell {
        case None =>
          marked := marked + [row];
        case Some(text) =>
          var value := text;
          if prevValue != "" && value != prevValue {
            marked := marked + [row.(classes := row.classes + {BoundaryClass})];
          } else {
            marked := marked + [row];
          }
          prevValue := value;
      }
      i := i + 1;
    }
    assert rows[..i] == rows;
    MarkBoundariesSpec(rows);
  }

  /** No row before the first one with a cell records a value. */
  lemma {:induction false} LastValueNoCells(rows: seq<Row>)
    requires forall j :: 0 <= j < |rows| ==> rows[j].firstCell.None?
    ensures LastValue(rows) == ""
  {
    if rows != [] {
      LastValueNoCells(rows[..|rows| - 1]);
    }
  }

  /** The first row that has a cell is never a boundary. */
  lemma FirstCellNotBoundary(rows: seq<Row>, k: nat)
    requires k < |rows| && rows[k].firstCell.Some?
    requires forall j :: 0 <= j < k ==> rows[j].firstCell.None?
    ensures !IsBoundary(rows, k)
  {
    LastValueNoCells(rows[..k]);
  }

  /** A row without a cell leaves the recorded value as it was, and is
      never a boundary. */
  lemma NoCellKeepsValue(rows: seq<Row>, k: nat)
    requires k < |rows| && rows[k].firstCell.None?
    ensures LastValue(rows[..k + 1]) == LastValue(rows[..k])
    ensures !IsBoundary(rows, k)
  {
    assert rows[..k + 1][..k] == rows[..k];
  }

  /** A row whose trimmed cell is empty resets the recorded value, so the
      row after it is not a boundary. */
  lemma EmptyCellResets(rows: seq<Row>, k: nat)
    requires k + 1 < |rows| && CellOf(rows[k]) == Some("")
    ensures LastValue(rows[..k + 1]) == ""
    ensures !IsBoundary(rows, k + 1)
  {
  }

  /** The grouping example: of the first cells A, A, B, B, B, C exactly the
      third and the sixth row are boundaries. */
  lemma GroupExample()
    ensures var rows := [Row(Some("A"), {}), Row(Some("A"), {}), Row(Some("B"), {}),
                         Row(Some("B"), {}), Row(Some("B"), {}), Row(Some("C"), {})];
            forall k :: 0 <= k < 6 ==> (IsBoundary(rows, k) <==> k == 2 || k == 5)
  {
    var rows := [Row(Some("A"), {}), Row(Some("A"), {}), Row(Some("B"), {}),
                 Row(Some("B"), {}), Row(Some("B"), {}), Row(Some("C"), {})];
    assert LastValue(rows[..0]) == "";
    assert LastValue(rows[..1]) == "A" by { assert rows[..1][..0] == rows[..0]; }
    assert LastValue(rows[..2]) == "A" by { assert rows[..2][..1] == rows[..1]; }
    assert LastValue(rows[..3]) == "B" by { assert rows[..3][..2] == rows[..2]; }
    assert LastValue(rows[..4]) == "B" by { assert rows[..4][..3] == rows[..3]; }
    assert LastValue(rows[..5]) == "B" by { assert rows[..5][..4] == rows[..4]; }
  }

  // ---------------------------------------------------------------------------
  // The per-table step and the loop over all tables

  /** The id a table has after the id step of the loop at position `index`. */
  function AssignedId(t: Table, index: nat): (id: string)
    ensures t.id != "" ==> id == t.id
    ensures t.id == "" ==> id == IdPrefix + NatToDecimal(index)
    ensures id != ""
  {
    if t.id == "" then IdPrefix + NatToDecimal(index) else t.id
  }

  /** One pass of the `tables.forEach` body for the table at `index`, where
      `throws` says whether the library call throws for the table it is
      given. The result is the table afterwards and the library call made,
      if any. */
  function ActivateTable(t: Table, index: nat, throws: Table -> bool): (res: (Table, Option<Call>))
    ensures ActiveClass in t.classes ==> res == (t, None)
    ensures ActiveClass !in t.classes ==>
              && res.0.id == AssignedId(t, index)
              && res.0.headerCount == t.headerCount
              && res.1 == Some(Call("#" + res.0.id, TableConfig(t.headerCount)))
    ensures ActiveClass !in t.classes && throws(t.(id := AssignedId(t, index))) ==>
              res.0 == t.(id := AssignedId(t, index))
    ensures ActiveClass !in t.classes && !throws(t.(id := AssignedId(t, index))) ==>
              && res.0.classes == t.classes + {ActiveClass}
              && res.0.rows == MarkBoundaries(t.rows)
  {
    if ActiveClass in t.classes then (t, None)
    else
      var named := t.(id := AssignedId(t, index));
      var call := Call("#" + named.id, TableConfig(named.headerCount));
      if throws(named) then (named, Some(call))
      else (named.(classes := named.classes + {ActiveClass}, rows := MarkBoundaries(named.rows)), Some(call))
  }

  function CallsOf(c: Option<Call>): seq<Call> {
    match c
    case None => []
    case Some(call) => [call]
  }

  /** A `forEach` callback: given a table and its position, the table
      afterwards and the library call made, if any. */
  type Step = (Table, nat) -> (Table, Option<Call>)

  /** The activator's callback, for a library described by `throws`. */
  function Callback(throws: Table -> bool): Step {
    (t: Table, index: nat) => ActivateTable(t, index, throws)
  }

  /** The tables after `forEach` has run `step` on each of `tables` in
      order, each step on the table as it was when the loop started. */
  function Results(tables: seq<Table>, step: Step): seq<Table> {
    if tables == [] then []
    else
      var n := |tables| - 1;
      Results(tables[..n], step) + [step(tables[n], n).0]
  }

  /** The library calls made by `forEach` running `step`, in order. */
  function Calls(tables: seq<Table>, step: Step): seq<Call> {
    if tables == [] then []
    else
      var n := |tables| - 1;
      Calls(tables[..n], step) + CallsOf(step(tables[n], n).1)
  }

  lemma {:induction false} ResultsAt(tables: seq<Table>, step: Step, i: nat)
    requires i < |tables|
    ensures |Results(tables, step)| == |tables|
    ensures Results(tables, step)[i] == step(tables[i], i).0
  {
    var n := |tables| - 1;
    ResultsLength(tables[..n], step);
    if i < n {
      ResultsAt(tables[..n], step, i);
    }
  }

  lemma {:induction false} ResultsLength(tables: seq<Table>, step: Step)
    ensures |Results(tables, step)| == |tables|
  {
    if tables != [] {
      ResultsLength(tables[..|tables| - 1], step);
    }
  }

  /** `NodeList.forEach`: runs `step` on every table in document order, each
      table updated in place; a step that fails inside does not stop the
      loop. */
  method ForEach(tables: array<Table>, step: Step) returns (calls: seq<Call>)
    modifies tables
    ensures tables[..] == Results(old(tables[..]), step)
    ensures calls == Calls(old(tables[..]), step)
  {
    ghost var orig := tables[..];
    calls := [];
    var index := 0;
    while index < tables.Length
      invariant 0 <= index <= tables.Length
      invariant tables[..index] == Results(orig[..index], step)
      invariant tables[index..] == orig[index..]
      invariant calls == Calls(orig[..index], step)
    {
      assert orig[..index + 1][..index] == orig[..index];
      assert tables[index] == orig[index] by { assert tables[index..][0] == orig[index..][0]; }
      var (next, call) := step(tables[index], index);
      tables[index] := next;
      assert tables[..index + 1] == tables[..index] + [next];
      calls := calls + CallsOf(call);
      index := index + 1;
    }
    assert orig[..index] == orig;
    assert tables[..index] == tables[..];
  }

  /** The `tables.forEach` callback for the table at `index`: skip an
      activated table; otherwise give it an id if it has none, build the
      configuration, call the library and, if the call does not throw, mark
      the group boundaries. A throw is caught here. The page loop
      `ActivateTables` runs the function `ActivateTable` through `Callback`;
      this method is the callback's imperative form, tied to that function
      by its ensures. */
  method ActivateOne(table: Table, index: nat, throws: Table -> bool) returns (next: Table, call: Option<Call>)
    ensures (next, call) == ActivateTable(table, index, throws)
  {
    next, call := table, None;
    if ActiveClass in table.classes {
      return;
    }
    if next.id == "" {
      next := next.(id := IdPrefix + NatToDecimal(index));
    }
    call := Some(Call("#" + next.id, TableConfig(next.headerCount)));
    if !throws(next) {
      var marked := MarkGroupBoundaries(next.rows);
      next := next.(classes := next.classes + {ActiveClass}, rows := marked);
    }
  }

  /** The tables after the activator's loop. */
  function ActivateAll(tables: seq<Table>, throws: Table -> bool): seq<Table> {
    Results(tables, Callback(throws))
  }

  /** The library calls made by the activator's loop, in order. */
  function CallLog(tables: seq<Table>, throws: Table -> bool): seq<Call> {
    Calls(tables, Callback(throws))
  }

  /** The tables not yet activated when the loop starts. */
  function Inactive(tables: seq<Table>): nat {
    if tables == [] then 0
    else Inactive(tables[..|tables| - 1]) + (if ActiveClass in tables[|tables| - 1].classes then 0 else 1)
  }

  /** The library is called once per table not yet activated, whether or not
      an earlier call threw. */
  lemma {:induction false} CallLogLength(tables: seq<Table>, throws: Table -> bool)
    ensures |CallLog(tables, throws)| == Inactive(tables)
  {
    if tables != [] {
      CallLogLength(tables[..|tables| - 1], throws);
    }
  }

  /** Table `i` ends up as the callback at position `i` makes it: the
      outcome for one table does not depend on any other, so a table whose
      call throws affects no later table. */
  lemma ActivateAllAt(tables: seq<Table>, throws: Table -> bool, i: nat)
    requires i < |tables|
    ensures |ActivateAll(tables, throws)| == |tables|
    ensures ActivateAll(tables, throws)[i] == ActivateTable(tables[i], i, throws).0
  {
    ResultsAt(tables, Callback(throws), i);
  }

  /** The `setTimeout` callback: the activator's `forEach` over all tables
      of the page. The step is `Callback(throws)`, the function
      `ActivateTable`, which `ActivateOne` is proved to compute. */
  method ActivateTables(tables: array<Table>, throws: Table -> bool) returns (calls: seq<Call>)
    modifies tables
    ensures tables[..] == ActivateAll(old(tables[..]), throws)
    ensures calls == CallLog(old(tables[..]), throws)
  {
    calls := ForEach(tables, Callback(throws));
  }

  /** The ids the loop gives to tables at different positions differ. */
  lemma AssignedIdsDistinct(s: Table, i: nat, t: Table, j: nat)
    requires i != j && s.id == "" && t.id == ""
    ensures AssignedId(s, i) != AssignedId(t, j)
  {
    DecimalInjective(i, j);
    assert AssignedId(s, i)[|IdPrefix|..] == NatToDecimal(i);
    assert AssignedId(t, j)[|IdPrefix|..] == NatToDecimal(j);
  }

  /** Running the activator a second time leaves every table the first run
      activated (or found activated) exactly as it is, and keeps every id
      the first run gave. */
  lemma RunTwice(tables: seq<Table>, throws: Table -> bool, throws': Table -> bool, i: nat)
    requires i < |tables|
    ensures |ActivateAll(tables, throws)| == |tables|
    ensures var once := ActivateAll(tables, throws);
            && |ActivateAll(once, throws')| == |tables|
            && ActivateAll(once, throws')[i].id == once[i].id
            && (ActiveClass in once[i].classes ==> ActivateAll(once, throws')[i] == once[i])
  {
    var once := ActivateAll(tables, throws);
    ActivateAllAt(tables, throws, i);
    ActivateAllAt(once, throws', i);
  }
}
