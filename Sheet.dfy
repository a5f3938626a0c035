/** `save_to_excel` (app.py:118-146): the processed table written as the
    worksheet "Processed Data", every cell centred and boxed, the header
    row filled light blue and bold, and each column as wide as its longest
    rendered value plus two. */
module Sheet {
  import opened Report

  /** A border side: no line, or a thin line. */
  datatype Side = NoSide | Thin
  datatype Border = Border(left: Side, right: Side, top: Side, bottom: Side)
  /** One axis of a cell's alignment: unset or centred. */
  datatype Align = Unset | Center
  datatype Alignment = Alignment(horizontal: Align, vertical: Align)
  /** No fill, or a solid fill of one colour. */
  datatype Fill = NoFill | Solid(color: string)
  datatype Font = Font(bold: bool)
  datatype CellStyle = CellStyle(alignment: Alignment, border: Border, fill: Fill, font: Font)

  const SHEET_TITLE := "Processed Data"
  const HEADER: seq<string> := ["Name", "Violations", "Source"]
  const COLUMNS: nat := 3

  const CENTERED := Alignment(Center, Center)
  const THIN_BOX := Border(Thin, Thin, Thin, Thin)
  const HEADER_FILL := Solid("B8CCE4")
  const BOLD := Font(true)
  /** A cell nobody has styled. */
  const PLAIN := CellStyle(Alignment(Unset, Unset), Border(NoSide, NoSide, NoSide, NoSide), NoFill, Font(false))

  /** The values written without the index column: the header, then one line
      per row (0-based here; worksheet row `r + 1` in openpyxl terms). */
  function SheetValues(rows: seq<Row>): (cells: seq<seq<string>>)
    ensures |cells| == |rows| + 1
    ensures forall r :: 0 <= r < |cells| ==> |cells[r]| == COLUMNS
    ensures cells[0] == HEADER
    ensures forall i :: 0 <= i < |rows| ==> cells[i + 1] == [rows[i].name, rows[i].violations, rows[i].source]
  {
    [HEADER] + seq(|rows|, i requires 0 <= i < |rows| => [rows[i].name, rows[i].violations, rows[i].source])
  }

  /** Reads the rows back from written values, skipping the header. */
  function SheetRows(cells: seq<seq<string>>): seq<Row>
    requires |cells| >= 1
    requires forall r :: 0 <= r < |cells| ==> |cells[r]| == COLUMNS
  {
    seq(|cells| - 1, i requires 0 <= i < |cells| - 1 => Row(cells[i + 1][0], cells[i + 1][1], cells[i + 1][2]))
  }

  /** The worksheet holds the processed table and nothing else. */
  lemma {:induction false} SheetRoundTrip(rows: seq<Row>)
    ensures SheetRows(SheetValues(rows)) == rows
  {
    var back := SheetRows(SheetValues(rows));
    assert |back| == |rows|;
    forall i | 0 <= i < |rows|
      ensures back[i] == rows[i]
    {
      assert SheetValues(rows)[i + 1] == [rows[i].name, rows[i].violations, rows[i].source];
    }
  }

  /** Column `c` of the written values, header first. */
  function Column(cells: seq<seq<string>>, c: nat): (column: seq<string>)
    requires forall r :: 0 <= r < |cells| ==> c < |cells[r]|
    ensures |column| == |cells|
    ensures forall r :: 0 <= r < |cells| ==> column[r] == cells[r][c]
  {
    seq(|cells|, r requires 0 <= r < |cells| => cells[r][c])
  }

  /** The longest value in `column`, counted in characters; a missing
      value counts 0 and so does the empty string. */
  function Longest(column: seq<string>): (n: nat)
    ensures forall r :: 0 <= r < |column| ==> |column[r]| <= n
    ensures column != [] ==> exists r :: 0 <= r < |column| && |column[r]| == n
    ensures column == [] ==> n == 0
  {
    if column == [] then 0
    else
      var rest := Longest(column[1..]);
      if |column[0]| >= rest then |column[0]| else rest
  }

  /** The width the program sets: two more than the longest value
      of a column, which always has its header. */
  function ColumnWidth(column: seq<string>): (w: nat)
    requires column != []
    ensures forall r :: 0 <= r < |column| ==> |column[r]| + 2 <= w
    ensures exists r :: 0 <= r < |column| && |column[r]| + 2 == w
  {
    Longest(column) + 2
  }

  /** No column is narrower than its header plus two: 6, 12 and 8. */
  lemma {:induction false} HeaderWidths(rows: seq<Row>)
    ensures ColumnWidth(Column(SheetValues(rows), 0)) >= 6
    ensures ColumnWidth(Column(SheetValues(rows), 1)) >= 12
    ensures ColumnWidth(Column(SheetValues(rows), 2)) >= 8
  {
    var cells := SheetValues(rows);
    assert cells[0] == HEADER;
    assert Column(cells, 0)[0] == "Name";
    assert Column(cells, 1)[0] == "Violations";
    assert Column(cells, 2)[0] == "Source";
  }

  /** A Name column holding names of 3, 10 and 5 characters is 12 wide. */
  lemma {:induction false} WidthExample(x: string, y: string, z: string)
    requires |x| == 3 && |y| == 10 && |z| == 5
    ensures ColumnWidth(["Name", x, y, z]) == 12
  {
    var column := ["Name", x, y, z];
    assert |column[0]| == 4;
    assert forall r :: 0 <= r < |column| ==> |column[r]| <= 10;
    assert |column[2]| == 10;
  }

  /** The style every cell ends with: centred and boxed, and in the header
      row also filled and bold. */
  function FinalStyle(r: nat): (s: CellStyle)
    ensures s.alignment == CENTERED && s.border == THIN_BOX
    ensures s.fill == HEADER_FILL <==> r == 0
    ensures s.font == BOLD <==> r == 0
  {
    if r == 0 then CellStyle(CENTERED, THIN_BOX, HEADER_FILL, BOLD)
    else CellStyle(CENTERED, THIN_BOX, NoFill, Font(false))
  }

  /** The openpyxl worksheet: fixed values, a style per cell (row 0 is the
      header) and the column widths set so far, keyed by 1-based column
      number. */
  class Worksheet {
    const title: string
    const cells: seq<seq<string>>
    const styles: array2<CellStyle>
    var widths: map<nat, nat>

    ghost predicate Valid()
      reads this
    {
      && |cells| >= 1
      && (forall r :: 0 <= r < |cells| ==> |cells[r]| == COLUMNS)
      && styles.Length0 == |cells|
      && styles.Length1 == COLUMNS
    }

    /** Writing the table, without its index, as the sheet `Processed Data`. */
    constructor (rows: seq<Row>)
      ensures Valid()
      ensures title == SHEET_TITLE
      ensures cells == SheetValues(rows)
      ensures fresh(styles)
      ensures forall r, c :: 0 <= r < styles.Length0 && 0 <= c < styles.Length1 ==> styles[r, c] == PLAIN
      ensures widths == map[]
    {
      title := SHEET_TITLE;
      cells := SheetValues(rows);
      styles := new CellStyle[|rows| + 1, COLUMNS]((r, c) => PLAIN);
      widths := map[];
    }

    /** The loops at app.py:131-141: every cell is centred and boxed, then
        every header cell is filled and made bold. A data cell keeps its
        fill and font. */
    method ApplyStyles()
      requires Valid()
      modifies styles
      ensures Valid()
      ensures forall r, c :: 0 <= r < styles.Length0 && 0 <= c < styles.Length1 ==>
        && styles[r, c].alignment == CENTERED
        && styles[r, c].border == THIN_BOX
        && styles[r, c].fill == (if r == 0 then HEADER_FILL else old(styles[r, c].fill))
        && styles[r, c].font == (if r == 0 then BOLD else old(styles[r, c].font))
    {
      var r := 0;
      while r < styles.Length0
        invariant 0 <= r <= styles.Length0
        invariant forall i, j :: 0 <= i < styles.Length0 && 0 <= j < styles.Length1 ==>
          styles[i, j] == if i < r then old(styles[i, j]).(alignment := CENTERED, border := THIN_BOX) else old(styles[i, j])
      {
        var c := 0;
        while c < styles.Length1
          invariant 0 <= c <= styles.Length1
          invariant forall i, j :: 0 <= i < styles.Length0 && 0 <= j < styles.Length1 ==>
            styles[i, j] == if i < r || (i == r && j < c) then old(styles[i, j]).(alignment := CENTERED, border := THIN_BOX) else old(styles[i, j])
        {
          styles[r, c] := styles[r, c].(alignment := CENTERED, border := THIN_BOX);
          c := c + 1;
        }
        r := r + 1;
      }
      var c := 0;
      while c < styles.Length1
        invariant 0 <= c <= styles.Length1
        invariant forall i, j :: 0 <= i < styles.Length0 && 0 <= j < styles.Length1 ==>
          styles[i, j] == if i == 0 && j < c
            then old(styles[i, j]).(alignment := CENTERED, border := THIN_BOX, fill := HEADER_FILL, font := BOLD)
            else old(styles[i, j]).(alignment := CENTERED, border := THIN_BOX)
      {
        styles[0, c] := styles[0, c].(fill := HEADER_FILL, font := BOLD);
        c := c + 1;
      }
    }

    /** The loop at app.py:144-146: each column's width becomes two more
        than its longest value. */
    method FitColumnWidths()
      requires Valid()
      modifies this
      ensures Valid()
      ensures forall k :: k in widths <==> k in old(widths) || 1 <= k <= COLUMNS
      ensures forall c :: 1 <= c <= COLUMNS ==> widths[c] == ColumnWidth(Column(cells, c - 1))
      ensures forall k :: k in old(widths) && !(1 <= k <= COLUMNS) ==> widths[k] == old(widths)[k]
    {
      ghost var fits := Fits(cells);
      var c := 0;
      while c < COLUMNS
        invariant 0 <= c <= COLUMNS
        invariant widths == Fitted(old(widths), fits, c)
      {
        var length := Longest(Column(cells, c)) + 2;
        assert length == fits[c];
        widths := widths[c + 1 := length];
        c := c + 1;
      }
      FittedWidths(old(widths), cells);
    }
  }

  /** The fitted width of each column of `cells`, first column first. */
  ghost function Fits(cells: seq<seq<string>>): seq<nat>
    requires |cells| >= 1
    requires forall r :: 0 <= r < |cells| ==> |cells[r]| == COLUMNS
  {
    seq(COLUMNS, c requires 0 <= c < COLUMNS => ColumnWidth(Column(cells, c)))
  }

  /** `initial` with columns 1 to `n` set, in turn, to the widths `fits`. */
  ghost function Fitted(initial: map<nat, nat>, fits: seq<nat>, n: nat): map<nat, nat>
    requires n <= |fits|
  {
    if n == 0 then initial
    else Fitted(initial, fits, n - 1)[n := fits[n - 1]]
  }

  /** Fitting adds exactly columns 1 to `n` to the keys. */
  lemma {:induction false} FittedKeys(initial: map<nat, nat>, fits: seq<nat>, n: nat)
    requires n <= |fits|
    ensures forall k :: k in Fitted(initial, fits, n) <==> k in initial || 1 <= k <= n
  {
    if n > 0 {
      FittedKeys(initial, fits, n - 1);
    }
  }

  /** Column `k`, for `k` from 1 to `n`, gets the `k`-th width. */
  lemma {:induction false} FittedColumns(initial: map<nat, nat>, fits: seq<nat>, n: nat)
    requires n <= |fits|
    ensures forall k :: 1 <= k <= n ==> k in Fitted(initial, fits, n) && Fitted(initial, fits, n)[k] == fits[k - 1]
  {
    if n > 0 {
      FittedColumns(initial, fits, n - 1);
    }
  }

  /** Every other key keeps its width. */
  lemma {:induction false} FittedOthers(initial: map<nat, nat>, fits: seq<nat>, n: nat)
    requires n <= |fits|
    ensures forall k :: k in initial && !(1 <= k <= n) ==> k in Fitted(initial, fits, n) && Fitted(initial, fits, n)[k] == initial[k]
  {
    if n > 0 {
      FittedOthers(initial, fits, n - 1);
    }
  }

  /** After all the columns: exactly columns 1 to 3 are added, each with
      its column's width, and every other width is kept. */
  lemma FittedWidths(initial: map<nat, nat>, cells: seq<seq<string>>)
    requires |cells| >= 1
    requires forall r :: 0 <= r < |cells| ==> |cells[r]| == COLUMNS
    ensures forall k :: k in Fitted(initial, Fits(cells), COLUMNS) <==> k in initial || 1 <= k <= COLUMNS
    ensures forall c :: 1 <= c <= COLUMNS ==> Fitted(initial, Fits(cells), COLUMNS)[c] == ColumnWidth(Column(cells, c - 1))
    ensures forall k :: k in initial && !(1 <= k <= COLUMNS) ==> Fitted(initial, Fits(cells), COLUMNS)[k] == initial[k]
  {
    var fits := Fits(cells);
    FittedKeys(initial, fits, COLUMNS);
    FittedColumns(initial, fits, COLUMNS);
    FittedOthers(initial, fits, COLUMNS);
  }

  /** `save_to_excel`, without the file itself. */
  method SaveToExcel(rows: seq<Row>) returns (ws: Worksheet)
    ensures fresh(ws) && fresh(ws.styles) && ws.Valid()
    ensures ws.title == SHEET_TITLE
    ensures ws.cells == SheetValues(rows)
    ensures forall r, c :: 0 <= r < ws.styles.Length0 && 0 <= c < ws.styles.Length1 ==> ws.styles[r, c] == FinalStyle(r)
    ensures forall k :: k in ws.widths <==> 1 <= k <= COLUMNS
    ensures forall c :: 1 <= c <= COLUMNS ==> ws.widths[c] == ColumnWidth(Column(ws.cells, c - 1))
  {
    ws := new Worksheet(rows);
    ws.ApplyStyles();
    ws.FitColumnWidths();
  }
}
