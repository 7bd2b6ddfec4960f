/**
 * Table extraction (`extractPartnersFromTables`): picks the table of the
 * OCR result whose header text looks most like a partner list, maps its
 * header columns to partner name, number and hours, groups its data cells
 * by row and reads one partner per row.
 */
module Tables {
  import opened Common
  import opened Text

  /** The cell kinds the OCR service reports; only `ColumnHeader` is looked at. */
  datatype CellKind = ColumnHeader | RowHeader | StubHead | Description | Content

  /** One recognised cell. An absent `content` is the empty string. */
  datatype Cell = Cell(rowIndex: nat, columnIndex: nat, kind: CellKind, content: string)

  /** A recognised table: its cells in the order the service lists them and its declared size. */
  datatype Table = Table(cells: seq<Cell>, rowCount: int, columnCount: int)

  /** A partner as read from the table, before the session numbers it. */
  datatype ExtractedPartner = ExtractedPartner(partnerName: string, partnerNumber: string, tippableHours: real)

  /** The column each field is read from, if any header named it. */
  datatype ColumnMap = ColumnMap(name: Option<nat>, number: Option<nat>, hours: Option<nat>)

  datatype Column = NameColumn | NumberColumn | HoursColumn

  /** A row that is kept has a mapped column with no cell: reading the text of a missing cell throws. */
  datatype ExtractError = MissingMappedCell

  // ---------------------------------------------------------------------
  // Header and data cells
  // ---------------------------------------------------------------------

  predicate IsHeaderCell(c: Cell) {
    c.kind == ColumnHeader || c.rowIndex == 0
  }

  predicate IsDataCell(c: Cell) {
    c.kind != ColumnHeader && c.rowIndex > 0
  }

  function HeaderCells(cells: seq<Cell>): (r: seq<Cell>)
    ensures forall c :: c in r <==> c in cells && IsHeaderCell(c)
  {
    if |cells| == 0 then []
    else (if IsHeaderCell(cells[0]) then [cells[0]] else []) + HeaderCells(cells[1..])
  }

  function DataCells(cells: seq<Cell>): (r: seq<Cell>)
    ensures forall c :: c in r <==> c in cells && IsDataCell(c)
  {
    if |cells| == 0 then []
    else (if IsDataCell(cells[0]) then [cells[0]] else []) + DataCells(cells[1..])
  }

  /** The header filter distributes over concatenation, so it keeps the table's cell order. */
  lemma {:induction false} HeaderCellsAppend(a: seq<Cell>, b: seq<Cell>)
    ensures HeaderCells(a + b) == HeaderCells(a) + HeaderCells(b)
    decreases |a|
  {
    if |a| == 0 {
      assert a + b == b;
    } else {
      assert (a + b)[0] == a[0];
      assert (a + b)[1..] == a[1..] + b;
      HeaderCellsAppend(a[1..], b);
    }
  }

  /** The data filter distributes over concatenation, so it keeps the table's cell order. */
  lemma {:induction false} DataCellsAppend(a: seq<Cell>, b: seq<Cell>)
    ensures DataCells(a + b) == DataCells(a) + DataCells(b)
    decreases |a|
  {
    if |a| == 0 {
      assert a + b == b;
    } else {
      assert (a + b)[0] == a[0];
      assert (a + b)[1..] == a[1..] + b;
      DataCellsAppend(a[1..], b);
    }
  }

  /**
   * Every cell is exactly one of header or data, so the two filters split
   * the cells between them.
   */
  lemma {:induction false} HeaderDataPartition(cells: seq<Cell>)
    ensures forall c :: c in cells ==> (IsHeaderCell(c) <==> !IsDataCell(c))
    ensures |HeaderCells(cells)| + |DataCells(cells)| == |cells|
    decreases |cells|
  {
    if |cells| > 0 {
      HeaderDataPartition(cells[1..]);
      assert forall c :: c in cells ==> c == cells[0] || c in cells[1..];
    }
  }

  // ---------------------------------------------------------------------
  // Scoring and selecting a table
  // ---------------------------------------------------------------------

  /** The lower-cased header cell texts joined with a space. */
  function HeaderText(t: Table): string {
    JoinSpace(LowerContents(HeaderCells(t.cells)))
  }

  function LowerContents(cells: seq<Cell>): seq<string> {
    seq(|cells|, i requires 0 <= i < |cells| => ToLower(cells[i].content))
  }

  function SizeBonus(t: Table): nat {
    if t.rowCount >= 3 && t.columnCount >= 3 then 1 else 0
  }

  /** The keyword score of a table. */
  function Score(t: Table): (r: nat)
    ensures r <= 11
  {
    var h := HeaderText(t);
    (if Contains(h, "partner") then 3 else 0)
    + (if Contains(h, "name") then 2 else 0)
    + (if Contains(h, "number") then 2 else 0)
    + (if Contains(h, "hour") then 3 else 0)
    + SizeBonus(t)
  }

  /** The scoring rules as data: a keyword and the points it is worth. */
  const Rules: seq<(string, nat)> := [("partner", 3), ("name", 2), ("number", 2), ("hour", 3)]

  /** Some header cell, lower-cased, holds the keyword. */
  predicate SomeHeaderHas(cells: seq<Cell>, keyword: string) {
    exists c :: c in cells && IsHeaderCell(c) && Contains(ToLower(c.content), keyword)
  }

  /** The points of every rule whose keyword some header cell holds. */
  function RulePoints(rules: seq<(string, nat)>, cells: seq<Cell>): nat {
    if |rules| == 0 then 0
    else (if SomeHeaderHas(cells, rules[0].0) then rules[0].1 else 0) + RulePoints(rules[1..], cells)
  }

  /** A keyword is found in the joined header text exactly when some header cell holds it. */
  lemma HeaderTextContains(t: Table, keyword: string)
    requires |keyword| > 0 && ' ' !in keyword
    ensures Contains(HeaderText(t), keyword) <==> SomeHeaderHas(t.cells, keyword)
  {
    var hs := HeaderCells(t.cells);
    var texts := LowerContents(hs);
    JoinSpaceContains(texts, keyword);
    assert HeaderText(t) == JoinSpace(texts);
    if Contains(HeaderText(t), keyword) {
      var i :| 0 <= i < |texts| && Contains(texts[i], keyword);
      assert hs[i] in hs && Contains(ToLower(hs[i].content), keyword);
    }
    if SomeHeaderHas(t.cells, keyword) {
      var c :| c in t.cells && IsHeaderCell(c) && Contains(ToLower(c.content), keyword);
      assert c in hs;
      var i :| 0 <= i < |hs| && hs[i] == c;
      assert Contains(texts[i], keyword);
    }
  }

  /**
   * The score depends only on which keywords the header cells hold and on
   * the declared size: it is the sum of the points of the rules whose keyword
   * some header cell holds, plus one for a table of at least 3 by 3.
   */
  lemma ScoreByRules(t: Table)
    ensures Score(t) == RulePoints(Rules, t.cells) + SizeBonus(t)
  {
    assert ' ' !in "partner" && ' ' !in "name" && ' ' !in "number" && ' ' !in "hour";
    HeaderTextContains(t, "partner");
    HeaderTextContains(t, "name");
    HeaderTextContains(t, "number");
    HeaderTextContains(t, "hour");
    var c := t.cells;
    assert RulePoints(Rules[3..], c) == (if SomeHeaderHas(c, "hour") then 3 else 0) + RulePoints([], c);
    assert RulePoints(Rules[2..], c) == (if SomeHeaderHas(c, "number") then 2 else 0) + RulePoints(Rules[3..], c);
    assert RulePoints(Rules[1..], c) == (if SomeHeaderHas(c, "name") then 2 else 0) + RulePoints(Rules[2..], c);
    assert RulePoints(Rules, c) == (if SomeHeaderHas(c, "partner") then 3 else 0) + RulePoints(Rules[1..], c);
  }

  /** Tables without cells are skipped. */
  predicate HasCells(t: Table) {
    |t.cells| > 0
  }

  /**
   * The table search: keeps the first table, in input order, whose
   * score beats every score seen so far, starting from zero.
   */
  function SelectBest(tables: seq<Table>): (r: Option<nat>)
    ensures r.Some? ==> r.value < |tables| && HasCells(tables[r.value]) && Score(tables[r.value]) > 0
    decreases |tables|
  {
    if |tables| == 0 then None
    else
      var previous := SelectBest(tables[..|tables| - 1]);
      var last := tables[|tables| - 1];
      var bestScore := if previous.Some? then Score(tables[previous.value]) else 0;
      if HasCells(last) && Score(last) > bestScore then Some(|tables| - 1) else previous
  }

  /** The score of the table chosen so far, zero before any. */
  function BestScore(tables: seq<Table>): nat {
    match SelectBest(tables)
    case None => 0
    case Some(i) => Score(tables[i])
  }

  /**
   * The chosen table scores at least as high as every table with cells and
   * strictly higher than every earlier one; nothing is chosen exactly when
   * every table with cells scores zero.
   */
  lemma {:induction false} SelectBestMaximal(tables: seq<Table>)
    ensures forall j :: 0 <= j < |tables| && HasCells(tables[j]) ==> Score(tables[j]) <= BestScore(tables)
    ensures SelectBest(tables).Some? ==>
              forall j :: 0 <= j < SelectBest(tables).value && HasCells(tables[j]) ==> Score(tables[j]) < BestScore(tables)
    ensures SelectBest(tables).None? <==> forall j :: 0 <= j < |tables| && HasCells(tables[j]) ==> Score(tables[j]) == 0
    decreases |tables|
  {
    if |tables| > 0 {
      var n := |tables| - 1;
      var prefix := tables[..n];
      SelectBestMaximal(prefix);
      var previous := SelectBest(prefix);
      var last := tables[n];
      if previous.Some? {
        assert tables[previous.value] == prefix[previous.value];
      }
      var best := BestScore(prefix);
      if HasCells(last) && Score(last) > best {
        assert SelectBest(tables) == Some(n);
        assert BestScore(tables) == Score(last);
        forall j | 0 <= j < n && HasCells(tables[j])
          ensures Score(tables[j]) < Score(last)
        {
          assert tables[j] == prefix[j];
        }
      } else {
        assert SelectBest(tables) == previous;
        assert BestScore(tables) == best;
        forall j | 0 <= j < n && HasCells(tables[j])
          ensures Score(tables[j]) <= best
        {
          assert tables[j] == prefix[j];
        }
        if previous.Some? {
          forall j | 0 <= j < previous.value && HasCells(tables[j])
            ensures Score(tables[j]) < best
          {
            assert tables[j] == prefix[j];
          }
        } else {
          forall j | 0 <= j < n && HasCells(tables[j])
            ensures Score(tables[j]) == 0
          {
            assert tables[j] == prefix[j];
          }
        }
      }
    }
  }

  // ---------------------------------------------------------------------
  // Column mapping
  // ---------------------------------------------------------------------

  /** The field a lower-cased header text names, the first matching test winning. */
  function Classify(text: string): (r: Option<Column>)
    ensures r == Some(NameColumn) <==> Contains(text, "name") && !Contains(text, "number")
    ensures r == Some(NumberColumn) <==> Contains(text, "number")
    ensures r == Some(HoursColumn) <==> Contains(text, "hour") && !Contains(text, "name") && !Contains(text, "number")
  {
    if Contains(text, "name") && !Contains(text, "number") then Some(NameColumn)
    else if Contains(text, "number") then Some(NumberColumn)
    else if Contains(text, "hour") then Some(HoursColumn)
    else None
  }

  function ColumnOf(c: Cell): Option<Column> {
    Classify(ToLower(c.content))
  }

  /** Records one header cell in the map; a later cell replaces an earlier one for the same field. */
  function Assign(m: ColumnMap, c: Cell): ColumnMap {
    match ColumnOf(c)
    case Some(NameColumn) => m.(name := Some(c.columnIndex))
    case Some(NumberColumn) => m.(number := Some(c.columnIndex))
    case Some(HoursColumn) => m.(hours := Some(c.columnIndex))
    case None => m
  }

  function Field(m: ColumnMap, col: Column): Option<nat> {
    match col
    case NameColumn => m.name
    case NumberColumn => m.number
    case HoursColumn => m.hours
  }

  /**
   * `v` is the column of the LAST header cell classified as `col`, or `None`
   * when no header cell is.
   */
  predicate LastClassified(headers: seq<Cell>, col: Column, v: Option<nat>) {
    && (v.None? <==> forall i :: 0 <= i < |headers| ==> ColumnOf(headers[i]) != Some(col))
    && (v.Some? ==> exists i :: 0 <= i < |headers| && ColumnOf(headers[i]) == Some(col) && headers[i].columnIndex == v.value
                      && forall j :: i < j < |headers| ==> ColumnOf(headers[j]) != Some(col))
  }

  /** The header scan: each field takes the column of the last header cell classified as that field. */
  function MapColumns(headers: seq<Cell>): (r: ColumnMap)
    ensures forall col :: Field(r, col).None? <==> forall i :: 0 <= i < |headers| ==> ColumnOf(headers[i]) != Some(col)
    decreases |headers|
  {
    if |headers| == 0 then ColumnMap(None, None, None)
    else Assign(MapColumns(headers[..|headers| - 1]), headers[|headers| - 1])
  }

  /** Assigning a cell changes exactly the field the cell is classified as. */
  lemma AssignField(m: ColumnMap, c: Cell, col: Column)
    ensures Field(Assign(m, c), col) == if ColumnOf(c) == Some(col) then Some(c.columnIndex) else Field(m, col)
  {
  }

  /** Each field of the mapping is the column of the last header cell classified as that field. */
  lemma {:induction false} MapColumnsLast(headers: seq<Cell>, col: Column)
    ensures LastClassified(headers, col, Field(MapColumns(headers), col))
    decreases |headers|
  {
    if |headers| > 0 {
      var prefix := headers[..|headers| - 1];
      var c := headers[|headers| - 1];
      assert headers == prefix + [c];
      MapColumnsLast(prefix, col);
      AssignField(MapColumns(prefix), c, col);
      if ColumnOf(c) == Some(col) {
        LastClassifiedHit(prefix, c, col);
      } else {
        LastClassifiedMiss(prefix, c, col, Field(MapColumns(prefix), col));
      }
    }
  }

  /** A header cell classified as the field becomes the field's last one. */
  lemma LastClassifiedHit(headers: seq<Cell>, c: Cell, col: Column)
    requires ColumnOf(c) == Some(col)
    ensures LastClassified(headers + [c], col, Some(c.columnIndex))
  {
    var h := headers + [c];
    assert ColumnOf(h[|h| - 1]) == Some(col) && h[|h| - 1].columnIndex == c.columnIndex;
  }

  /** A header cell classified otherwise leaves the field's last one as it was. */
  lemma LastClassifiedMiss(headers: seq<Cell>, c: Cell, col: Column, v: Option<nat>)
    requires ColumnOf(c) != Some(col)
    requires LastClassified(headers, col, v)
    ensures LastClassified(headers + [c], col, v)
  {
    var h := headers + [c];
    assert forall i :: 0 <= i < |headers| ==> h[i] == headers[i];
    if v.Some? {
      var i :| 0 <= i < |headers| && ColumnOf(headers[i]) == Some(col) && headers[i].columnIndex == v.value
               && forall j :: i < j < |headers| ==> ColumnOf(headers[j]) != Some(col);
      assert forall j :: i < j < |h| ==> ColumnOf(h[j]) != Some(col);
    }
  }

  /**
   * In a table's cells, a header cell classified as a field with no later
   * header cell classified the same way gives that field its column: a later
   * header cell replaces an earlier one.
   */
  lemma MapColumnsLaterWins(before: seq<Cell>, c: Cell, after: seq<Cell>, col: Column)
    requires IsHeaderCell(c) && ColumnOf(c) == Some(col)
    requires forall d :: d in after && IsHeaderCell(d) ==> ColumnOf(d) != Some(col)
    ensures Field(MapColumns(HeaderCells(before + [c] + after)), col) == Some(c.columnIndex)
  {
    HeaderCellsAround(before, c, after);
    var late := HeaderCells(after);
    assert forall j :: 0 <= j < |late| ==> ColumnOf(late[j]) != Some(col) by {
      assert forall j :: 0 <= j < |late| ==> late[j] in after && IsHeaderCell(late[j]);
    }
    LastClassifiedAt(HeaderCells(before), c, late, col);
  }

  /** Filtering around a header cell keeps it between the header cells before and after it. */
  lemma HeaderCellsAround(before: seq<Cell>, c: Cell, after: seq<Cell>)
    requires IsHeaderCell(c)
    ensures HeaderCells(before + [c] + after) == HeaderCells(before) + [c] + HeaderCells(after)
  {
    HeaderCellsAppend(before + [c], after);
    HeaderCellsAppend(before, [c]);
    assert [c][1..] == [];
  }

  /** A classified cell that no later cell matches decides the field. */
  lemma LastClassifiedAt(early: seq<Cell>, c: Cell, late: seq<Cell>, col: Column)
    requires ColumnOf(c) == Some(col)
    requires forall j :: 0 <= j < |late| ==> ColumnOf(late[j]) != Some(col)
    ensures Field(MapColumns(early + [c] + late), col) == Some(c.columnIndex)
  {
    var h := early + [c] + late;
    var k := |early|;
    assert h[k] == c;
    forall j | k < j < |h|
      ensures ColumnOf(h[j]) != Some(col)
    {
      assert h[j] == late[j - k - 1];
    }
    MapColumnsLast(h, col);
    var v := Field(MapColumns(h), col);
    assert v.Some?;
    var i :| 0 <= i < |h| && ColumnOf(h[i]) == Some(col) && h[i].columnIndex == v.value
             && forall j :: i < j < |h| ==> ColumnOf(h[j]) != Some(col);
    assert i == k;
  }

  // ---------------------------------------------------------------------
  // Grouping data cells by row
  // ---------------------------------------------------------------------

  /** Adds `x` to a strictly increasing sequence, keeping it strictly increasing. */
  function InsertSorted(xs: seq<nat>, x: nat): (r: seq<nat>)
    requires StrictlyIncreasing(xs)
    ensures StrictlyIncreasing(r)
    ensures forall y :: y in r <==> y in xs || y == x
    decreases |xs|
  {
    if |xs| == 0 then [x]
    else if x < xs[0] then [x] + xs
    else if x == xs[0] then xs
    else
      var rest := InsertSorted(xs[1..], x);
      assert forall k :: 0 <= k < |rest| ==> rest[k] in xs[1..] || rest[k] == x;
      [xs[0]] + rest
  }

  /**
   * The row indices of the cells, each once, in ascending order: the order
   * `Object.values` visits the integer keys of the rows object.
   */
  function RowIndices(cells: seq<Cell>): (r: seq<nat>)
    ensures StrictlyIncreasing(r)
    ensures forall x :: x in r <==> exists i :: 0 <= i < |cells| && cells[i].rowIndex == x
    decreases |cells|
  {
    if |cells| == 0 then []
    else
      var prefix := cells[..|cells| - 1];
      assert forall i :: 0 <= i < |prefix| ==> prefix[i] == cells[i];
      InsertSorted(RowIndices(prefix), cells[|cells| - 1].rowIndex)
  }

  /**
   * The contents of row `row` keyed by column: a later cell
   * with the same column replaces an earlier one.
   */
  function RowContent(cells: seq<Cell>, row: nat): (r: map<nat, string>)
    ensures forall i :: 0 <= i < |cells| && cells[i].rowIndex == row ==> cells[i].columnIndex in r
    decreases |cells|
  {
    if |cells| == 0 then map[]
    else
      var m := RowContent(cells[..|cells| - 1], row);
      var c := cells[|cells| - 1];
      if c.rowIndex == row then m[c.columnIndex := c.content] else m
  }

  predicate At(c: Cell, row: nat, col: nat) {
    c.rowIndex == row && c.columnIndex == col
  }

  /**
   * A row holds a column exactly when some cell sits at that row and column,
   * and then holds the content of the last such cell.
   */
  lemma RowContentLast(cells: seq<Cell>, row: nat, col: nat)
    ensures col in RowContent(cells, row) <==> exists i :: 0 <= i < |cells| && At(cells[i], row, col)
    ensures col in RowContent(cells, row) ==>
              exists i :: 0 <= i < |cells| && At(cells[i], row, col) && RowContent(cells, row)[col] == cells[i].content
                          && forall j :: i < j < |cells| ==> !At(cells[j], row, col)
  {
    RowContentKeys(cells, row, col);
    RowContentValue(cells, row, col);
  }

  /** A row holds a column exactly when some cell sits at that row and column. */
  lemma {:induction false} RowContentKeys(cells: seq<Cell>, row: nat, col: nat)
    ensures col in RowContent(cells, row) <==> exists i :: 0 <= i < |cells| && At(cells[i], row, col)
    decreases |cells|
  {
    if |cells| > 0 {
      var prefix := cells[..|cells| - 1];
      var c := cells[|cells| - 1];
      RowContentKeys(prefix, row, col);
      if At(c, row, col) {
        assert At(cells[|cells| - 1], row, col);
      } else {
        if exists i :: 0 <= i < |cells| && At(cells[i], row, col) {
          var i :| 0 <= i < |cells| && At(cells[i], row, col);
          assert prefix[i] == cells[i];
        }
        if exists i :: 0 <= i < |prefix| && At(prefix[i], row, col) {
          var i :| 0 <= i < |prefix| && At(prefix[i], row, col);
          assert prefix[i] == cells[i];
        }
      }
    }
  }

  /** A column a row holds has the content of the last cell at that row and column. */
  lemma {:induction false} RowContentValue(cells: seq<Cell>, row: nat, col: nat)
    ensures col in RowContent(cells, row) ==>
              exists i :: 0 <= i < |cells| && At(cells[i], row, col) && RowContent(cells, row)[col] == cells[i].content
                          && forall j :: i < j < |cells| ==> !At(cells[j], row, col)
    decreases |cells|
  {
    if |cells| > 0 {
      var prefix := cells[..|cells| - 1];
      var c := cells[|cells| - 1];
      RowContentValue(prefix, row, col);
      var m := RowContent(cells, row);
      if At(c, row, col) {
        assert m[col] == c.content;
        assert At(cells[|cells| - 1], row, col);
      } else if col in m {
        assert col in RowContent(prefix, row) && m[col] == RowContent(prefix, row)[col];
        var i :| 0 <= i < |prefix| && At(prefix[i], row, col) && RowContent(prefix, row)[col] == prefix[i].content
                 && forall j :: i < j < |prefix| ==> !At(prefix[j], row, col);
        assert cells[i] == prefix[i];
        assert forall j :: i < j < |cells| ==> !At(cells[j], row, col) by {
          assert forall j :: i < j < |prefix| ==> cells[j] == prefix[j];
        }
      }
    }
  }

  /**
   * In a table's cells, the data cell with no later data cell at the same row
   * and column gives that row its content for that column: a later cell
   * replaces an earlier one.
   */
  lemma RowContentLaterWins(before: seq<Cell>, c: Cell, after: seq<Cell>)
    requires IsDataCell(c)
    requires forall d :: d in after && IsDataCell(d) ==> !At(d, c.rowIndex, c.columnIndex)
    ensures var row := RowContent(DataCells(before + [c] + after), c.rowIndex);
            c.columnIndex in row && row[c.columnIndex] == c.content
  {
    DataCellsAround(before, c, after);
    var late := DataCells(after);
    assert forall j :: 0 <= j < |late| ==> !At(late[j], c.rowIndex, c.columnIndex) by {
      assert forall j :: 0 <= j < |late| ==> late[j] in after && IsDataCell(late[j]);
    }
    RowContentAt(DataCells(before), c, late);
  }

  /** Filtering around a data cell keeps it between the data cells before and after it. */
  lemma DataCellsAround(before: seq<Cell>, c: Cell, after: seq<Cell>)
    requires IsDataCell(c)
    ensures DataCells(before + [c] + after) == DataCells(before) + [c] + DataCells(after)
  {
    DataCellsAppend(before + [c], after);
    DataCellsAppend(before, [c]);
    assert [c][1..] == [];
  }

  /** A cell that no later cell at the same row and column overrides decides that column of the row. */
  lemma RowContentAt(early: seq<Cell>, c: Cell, late: seq<Cell>)
    requires forall j :: 0 <= j < |late| ==> !At(late[j], c.rowIndex, c.columnIndex)
    ensures var row := RowContent(early + [c] + late, c.rowIndex);
            c.columnIndex in row && row[c.columnIndex] == c.content
  {
    var d := early + [c] + late;
    var k := |early|;
    var row, col := c.rowIndex, c.columnIndex;
    assert d[k] == c && At(d[k], row, col);
    forall j | k < j < |d|
      ensures !At(d[j], row, col)
    {
      assert d[j] == late[j - k - 1];
    }
    RowContentKeys(d, row, col);
    RowContentValue(d, row, col);
    var i :| 0 <= i < |d| && At(d[i], row, col) && RowContent(d, row)[col] == d[i].content
             && forall j :: i < j < |d| ==> !At(d[j], row, col);
    assert i == k;
  }

  // ---------------------------------------------------------------------
  // Reading partners
  // ---------------------------------------------------------------------

  /** The text of a field in a row: `""` when the field is unmapped, `None` (undefined) when the row has no such cell. */
  function Read(row: map<nat, string>, col: Option<nat>): Option<string> {
    match col
    case None => Some("")
    case Some(c) => if c in row then Some(row[c]) else None
  }

  /** JavaScript falsiness of a string that may be undefined. */
  predicate Falsy(v: Option<string>) {
    v.None? || v.value == ""
  }

  /**
   * One row: skipped when name, number and hours text are all
   * empty or missing; otherwise a partner with trimmed name and number and the
   * parsed hours, unless one of the three is missing, which throws.
   */
  function ReadPartner(row: map<nat, string>, m: ColumnMap): (r: Result<Option<ExtractedPartner>, ExtractError>)
    ensures r == Success(None) <==> Falsy(Read(row, m.name)) && Falsy(Read(row, m.number)) && Falsy(Read(row, m.hours))
    ensures r.Failure? <==> (&& !(Falsy(Read(row, m.name)) && Falsy(Read(row, m.number)) && Falsy(Read(row, m.hours)))
                             && (Read(row, m.name).None? || Read(row, m.number).None? || Read(row, m.hours).None?))
    ensures r.Success? && r.value.Some? ==>
              && r.value.value.partnerName == Trim(Read(row, m.name).value)
              && r.value.value.partnerNumber == Trim(Read(row, m.number).value)
              && r.value.value.tippableHours == ParseHours(Read(row, m.hours).value)
  {
    var name := Read(row, m.name);
    var number := Read(row, m.number);
    var hoursText := Read(row, m.hours);
    if Falsy(name) && Falsy(number) && Falsy(hoursText) then Success(None)
    else if hoursText.None? || name.None? || number.None? then Failure(MissingMappedCell)
    else Success(Some(ExtractedPartner(Trim(name.value), Trim(number.value), ParseHours(hoursText.value))))
  }

  /** What each row reads as, in row order. */
  function RowReads(rows: seq<map<nat, string>>, m: ColumnMap): (r: seq<Result<Option<ExtractedPartner>, ExtractError>>)
    ensures |r| == |rows| && forall i :: 0 <= i < |rows| ==> r[i] == ReadPartner(rows[i], m)
  {
    seq(|rows|, i requires 0 <= i < |rows| => ReadPartner(rows[i], m))
  }

  /** Reads the rows in order; the first row that throws ends the extraction. */
  function ReadPartners(rows: seq<map<nat, string>>, m: ColumnMap): (r: Result<seq<ExtractedPartner>, ExtractError>)
    ensures r.Success? ==> |r.value| <= |rows|
  {
    Collect(RowReads(rows, m))
  }

  /** The extraction throws exactly when some row throws. */
  lemma ReadPartnersFails(rows: seq<map<nat, string>>, m: ColumnMap)
    ensures ReadPartners(rows, m).Failure? <==> exists i :: 0 <= i < |rows| && ReadPartner(rows[i], m).Failure?
  {
    var outcomes := RowReads(rows, m);
    CollectFails(outcomes);
    if exists i :: 0 <= i < |rows| && ReadPartner(rows[i], m).Failure? {
      var i :| 0 <= i < |rows| && ReadPartner(rows[i], m).Failure?;
      assert outcomes[i].Failure?;
    }
  }

  /** The positions of the rows that are read into a partner (neither skipped nor throwing), ascending. */
  function YieldingRows(rows: seq<map<nat, string>>, m: ColumnMap): (r: seq<nat>)
    ensures StrictlyIncreasing(r)
    ensures forall k :: 0 <= k < |r| ==> r[k] < |rows|
    ensures forall i :: 0 <= i < |rows| ==>
              (i in r <==> ReadPartner(rows[i], m).Success? && ReadPartner(rows[i], m).value.Some?)
  {
    var outcomes := RowReads(rows, m);
    var r := Present(outcomes);
    assert forall k :: 0 <= k < |r| ==> HasValue(outcomes[r[k]]);
    r
  }

  /**
   * When no row throws, the partners are those of the rows that yield one,
   * one per such row, in row order.
   */
  lemma ReadPartnersInOrder(rows: seq<map<nat, string>>, m: ColumnMap)
    requires ReadPartners(rows, m).Success?
    ensures var ps := ReadPartners(rows, m).value;
            var yielding := YieldingRows(rows, m);
            && |ps| == |yielding|
            && forall k :: 0 <= k < |yielding| ==> Some(ps[k]) == ReadPartner(rows[yielding[k]], m).value
  {
    var outcomes := RowReads(rows, m);
    CollectInOrder(outcomes);
  }

  /** Every partner read has a trimmed name and number. */
  lemma ReadPartnersTrimmed(rows: seq<map<nat, string>>, m: ColumnMap)
    requires ReadPartners(rows, m).Success?
    ensures forall p :: p in ReadPartners(rows, m).value ==> IsTrimmed(p.partnerName) && IsTrimmed(p.partnerNumber)
  {
    var ps := ReadPartners(rows, m).value;
    var yielding := YieldingRows(rows, m);
    ReadPartnersInOrder(rows, m);
    forall p | p in ps
      ensures IsTrimmed(p.partnerName) && IsTrimmed(p.partnerNumber)
    {
      var k :| 0 <= k < |ps| && ps[k] == p;
      assert ReadPartner(rows[yielding[k]], m) == Success(Some(p));
    }
  }

  /** A partner with a non-empty name or a non-empty number. */
  predicate Identified(p: ExtractedPartner) {
    p.partnerName != "" || p.partnerNumber != ""
  }

  /** Keeps the partners that have a name or a number, in order, repeats included. */
  function KeepIdentified(ps: seq<ExtractedPartner>): (r: seq<ExtractedPartner>)
    ensures |r| <= |ps|
    ensures forall p :: p in r <==> p in ps && Identified(p)
  {
    if |ps| == 0 then []
    else (if Identified(ps[0]) then [ps[0]] else []) + KeepIdentified(ps[1..])
  }

  /** The filter distributes over concatenation, so it keeps order and repeated partners. */
  lemma {:induction false} KeepIdentifiedAppend(a: seq<ExtractedPartner>, b: seq<ExtractedPartner>)
    ensures KeepIdentified(a + b) == KeepIdentified(a) + KeepIdentified(b)
    decreases |a|
  {
    if |a| == 0 {
      assert a + b == b;
    } else {
      assert (a + b)[0] == a[0];
      assert (a + b)[1..] == a[1..] + b;
      KeepIdentifiedAppend(a[1..], b);
    }
  }

  /** A single partner is kept exactly when it has a name or a number. */
  lemma KeepIdentifiedSingle(p: ExtractedPartner)
    ensures KeepIdentified([p]) == if Identified(p) then [p] else []
  {
    assert [p][1..] == [];
  }

  /** The rows of a table's data cells in ascending row order. */
  function DataRows(t: Table): (rows: seq<map<nat, string>>)
    ensures |rows| == |RowIndices(DataCells(t.cells))|
    ensures forall k :: 0 <= k < |rows| ==> |rows[k]| > 0
  {
    var data := DataCells(t.cells);
    var indices := RowIndices(data);
    assert forall k :: 0 <= k < |indices| ==> |RowContent(data, indices[k])| > 0 by {
      forall k | 0 <= k < |indices|
        ensures |RowContent(data, indices[k])| > 0
      {
        assert indices[k] in indices;
        var i :| 0 <= i < |data| && data[i].rowIndex == indices[k];
        assert data[i].columnIndex in RowContent(data, indices[k]);
      }
    }
    seq(|indices|, k requires 0 <= k < |indices| => RowContent(data, indices[k]))
  }

  /**
   * `extractPartnersFromTables`: no tables, or no table with cells that
   * scores above zero, gives no partners; otherwise the partners of the
   * selected table's data rows, each with a non-empty trimmed name or number,
   * at most one per distinct data row.
   */
  function ExtractPartners(tables: seq<Table>): (r: Result<seq<ExtractedPartner>, ExtractError>)
    ensures (forall j :: 0 <= j < |tables| && HasCells(tables[j]) ==> Score(tables[j]) == 0) ==> r == Success([])
    ensures r.Success? ==> forall p :: p in r.value ==>
              && Identified(p)
              && IsTrimmed(p.partnerName) && IsTrimmed(p.partnerNumber)
    ensures r.Success? && |r.value| > 0 ==>
              SelectBest(tables).Some? && |r.value| <= |RowIndices(DataCells(tables[SelectBest(tables).value].cells))|
  {
    if |tables| == 0 then Success([])
    else
      SelectBestMaximal(tables);
      match SelectBest(tables)
      case None => Success([])
      case Some(i) =>
        var t := tables[i];
        match ReadPartners(DataRows(t), MapColumns(HeaderCells(t.cells)))
        case Failure(e) => Failure(e)
        case Success(ps) =>
          ReadPartnersTrimmed(DataRows(t), MapColumns(HeaderCells(t.cells)));
          Success(KeepIdentified(ps))
  }

  /**
   * With a table selected, the extraction throws exactly when one of its data
   * rows throws, and otherwise returns the partners read from its rows, in
   * row order, less those with neither a name nor a number.
   */
  lemma ExtractPartnersOfSelected(tables: seq<Table>, best: nat)
    requires SelectBest(tables) == Some(best)
    ensures var t := tables[best];
            var rows := DataRows(t);
            var m := MapColumns(HeaderCells(t.cells));
            && (ExtractPartners(tables).Failure? <==> exists i :: 0 <= i < |rows| && ReadPartner(rows[i], m).Failure?)
            && (ExtractPartners(tables).Success? ==>
                  && ReadPartners(rows, m).Success?
                  && ExtractPartners(tables).value == KeepIdentified(ReadPartners(rows, m).value))
  {
    var t := tables[best];
    ReadPartnersFails(DataRows(t), MapColumns(HeaderCells(t.cells)));
  }

  // ---------------------------------------------------------------------
  // When extraction yields nothing, and when it cannot fail
  // ---------------------------------------------------------------------

  /** With no column mapped every field reads as empty, so every row is skipped. */
  lemma ReadPartnersUnmapped(rows: seq<map<nat, string>>)
    ensures ReadPartners(rows, ColumnMap(None, None, None)) == Success([])
  {
    forall i | 0 <= i < |rows|
      ensures RowReads(rows, ColumnMap(None, None, None))[i] == Success(None)
    {
      ReadPartnerUnmapped(rows[i]);
    }
    CollectNothing(RowReads(rows, ColumnMap(None, None, None)));
  }

  lemma {:induction false} ReadPartnerUnmapped(row: map<nat, string>)
    ensures ReadPartner(row, ColumnMap(None, None, None)) == Success(None)
  {
    assert Falsy(Read(row, None));
  }

  /**
   * A selected table none of whose header cells names a name, number or
   * hours column (for instance one headed only "Partner") yields no partners.
   */
  lemma {:induction false} ExtractWithoutMappedColumns(tables: seq<Table>, best: nat)
    requires SelectBest(tables) == Some(best)
    requires forall c :: c in tables[best].cells && IsHeaderCell(c) ==> ColumnOf(c).None?
    ensures ExtractPartners(tables) == Success([])
  {
    var t := tables[best];
    MapColumnsNone(HeaderCells(t.cells));
    ReadPartnersUnmapped(DataRows(t));
  }

  /** Header cells that name no field map no column. */
  lemma {:induction false} MapColumnsNone(headers: seq<Cell>)
    requires forall c :: c in headers ==> ColumnOf(c).None?
    ensures MapColumns(headers) == ColumnMap(None, None, None)
  {
    assert forall i :: 0 <= i < |headers| ==> headers[i] in headers;
    var m := MapColumns(headers);
    MapColumnsLast(headers, NameColumn);
    MapColumnsLast(headers, NumberColumn);
    MapColumnsLast(headers, HoursColumn);
    assert Field(m, NameColumn).None? && Field(m, NumberColumn).None? && Field(m, HoursColumn).None?;
  }

  /** Every mapped column has a cell in the row. */
  predicate Complete(row: map<nat, string>, m: ColumnMap) {
    && (m.name.Some? ==> m.name.value in row)
    && (m.number.Some? ==> m.number.value in row)
    && (m.hours.Some? ==> m.hours.value in row)
  }

  /** Rows that have a cell in every mapped column never make the extraction throw. */
  lemma {:induction false} CompleteRowsSucceed(rows: seq<map<nat, string>>, m: ColumnMap)
    requires forall i :: 0 <= i < |rows| ==> Complete(rows[i], m)
    ensures ReadPartners(rows, m).Success?
  {
    ReadPartnersFails(rows, m);
    forall i | 0 <= i < |rows| ensures ReadPartner(rows[i], m).Success? {
      assert Read(rows[i], m.name).Some? && Read(rows[i], m.number).Some? && Read(rows[i], m.hours).Some?;
    }
  }

  /** A row missing a mapped cell but holding some text makes the whole extraction throw. */
  lemma {:induction false} IncompleteRowFails(rows: seq<map<nat, string>>, m: ColumnMap, i: nat)
    requires i < |rows| && m.hours.Some? && m.hours.value !in rows[i]
    requires m.name.Some? && m.name.value in rows[i] && rows[i][m.name.value] != ""
    ensures ReadPartners(rows, m).Failure?
  {
    ReadPartnersFails(rows, m);
    assert ReadPartner(rows[i], m).Failure?;
  }
}
