/**
 * The CSV transmutation of `transmuter_upgrade`: parse the input into a
 * header row and data rows (cells are the comma-separated pieces of a line),
 * then lay the table out in left-aligned, space-padded columns under a
 * dashed separator.
 *
 * Column widths are counted in UTF-8 bytes, as `str::len` does, while the
 * padding of `{:<width$}` counts characters; since a cell never has more
 * characters than bytes, every padded cell still has exactly its column's
 * width in characters.
 */
module CsvTable {
  import opened Wrappers
  import opened Text

  const HEADER_MISSING := "The CSV header must be provided!"
  const EXTRA_COLUMNS := "Invalid CSV file containing values for non existing columns"

  /** The gap between two columns of the layout. */
  const GAP := "  "

  datatype Row = Row(cells: seq<string>)

  datatype Csv = Csv(header: Row, rows: seq<Row>)

  /** What `Csv::from_str` guarantees of every table: no row is longer than the header. */
  predicate WellFormed(csv: Csv)
  {
    forall i :: 0 <= i < |csv.rows| ==> |csv.rows[i].cells| <= |csv.header.cells|
  }

  // ---------------------------------------------------------------------------
  // parsing

  /** `Row::from_str`: the line split at commas, an empty last piece dropped. */
  function RowFromStr(line: string): (r: Row)
    ensures forall k :: 0 <= k < |r.cells| ==> ',' !in r.cells[k]
  {
    Row(SplitTerminator(line, ','))
  }

  /** The last piece of a split is empty exactly when the string is empty or ends with the separator. */
  lemma {:induction false} SplitLastEmpty(s: string, sep: char)
    ensures var parts := Split(s, sep);
      parts[|parts| - 1] == "" <==> s == [] || s[|s| - 1] == sep
    decreases |s|
  {
    if s != [] {
      SplitLastEmpty(s[1..], sep);
      var rest := Split(s[1..], sep);
      if s[0] != sep && |rest| == 1 {
        assert Split(s, sep) == [[s[0]] + rest[0]];
      }
      if |s| > 1 {
        assert s[1..][|s| - 2] == s[|s| - 1];
      }
    }
  }

  /** Adding an empty last piece adds one separator at the end of the join. */
  lemma {:induction false} JoinEmptyLast(parts: seq<string>, sep: string)
    requires |parts| >= 1
    ensures Join(parts + [""], sep) == Join(parts, sep) + sep
    decreases |parts|
  {
    if |parts| == 1 {
      assert parts + [""] == [parts[0], ""];
      assert [parts[0], ""][1..] == [""];
    } else {
      assert (parts + [""])[1..] == parts[1..] + [""];
      JoinEmptyLast(parts[1..], sep);
    }
  }

  /**
   * Joining a row's cells with commas gives back its line, unless the line
   * ends with a comma, which is then the only thing lost.
   */
  lemma RowRoundTrip(line: string)
    ensures line == [] || line[|line| - 1] != ',' ==> Join(RowFromStr(line).cells, ",") == line
    ensures line != [] && line[|line| - 1] == ',' ==> Join(RowFromStr(line).cells, ",") + "," == line
  {
    var parts := Split(line, ',');
    JoinSplit(line, ',');
    SplitLastEmpty(line, ',');
    if parts[|parts| - 1] == "" {
      if line != [] {
        var cells := parts[..|parts| - 1];
        assert parts == cells + [""];
        JoinEmptyLast(cells, ",");
      }
    }
  }

  /** The rows of the data lines, in order. */
  function RowsOf(lines: seq<string>): (rows: seq<Row>)
    ensures |rows| == |lines|
    ensures forall i :: 0 <= i < |lines| ==> rows[i] == RowFromStr(lines[i])
  {
    seq(|lines|, i requires 0 <= i < |lines| => RowFromStr(lines[i]))
  }

  /** The rows of one more line are the rows so far and that line's row. */
  lemma RowsOfExtend(lines: seq<string>, i: nat)
    requires 1 <= i < |lines|
    ensures RowsOf(lines[1..i + 1]) == RowsOf(lines[1..i]) + [RowFromStr(lines[i])]
  {
    assert lines[1..i + 1] == lines[1..i] + [lines[i]];
  }

  /**
   * `Csv::from_str`: the first line is the header, every further line a
   * row, and the first row longer than the header is an error.
   */
  method FromStr(input: string) returns (r: Result<Csv, string>)
    ensures Lines(input) == [] ==> r == Err(HEADER_MISSING)
    ensures Lines(input) != [] ==>
      var header := RowFromStr(Lines(input)[0]);
      (r.Ok? <==> forall i :: 1 <= i < |Lines(input)| ==> |RowFromStr(Lines(input)[i]).cells| <= |header.cells|)
      && (r.Ok? ==> r.value == Csv(header, RowsOf(Lines(input)[1..])))
      && (r.Err? ==> r.error == EXTRA_COLUMNS)
    ensures r.Ok? ==> WellFormed(r.value)
  {
    var lines := Lines(input);
    if lines == [] {
      return Err(HEADER_MISSING);
    }
    var header := RowFromStr(lines[0]);
    var rows: seq<Row> := [];
    var i := 1;
    while i < |lines|
      invariant 1 <= i <= |lines|
      invariant rows == RowsOf(lines[1..i])
      invariant WellFormed(Csv(header, rows))
    {
      var row := RowFromStr(lines[i]);
      if |row.cells| > |header.cells| {
        return Err(EXTRA_COLUMNS);
      }
      RowsOfExtend(lines, i);
      rows := rows + [row];
      i := i + 1;
    }
    assert lines[1..i] == lines[1..];
    r := Ok(Csv(header, rows));
  }

  // ---------------------------------------------------------------------------
  // layout

  /** The width a row contributes to column `col`: its cell's length in bytes, 0 if it has none. */
  function CellWidth(row: Row, col: nat): nat
  {
    if col < |row.cells| then ByteLen(row.cells[col]) else 0
  }

  /** The widest cell of column `col` over `rows` (0 when there are none). */
  function MaxCellWidth(rows: seq<Row>, col: nat): (w: nat)
    ensures forall i :: 0 <= i < |rows| ==> CellWidth(rows[i], col) <= w
    ensures w == 0 || exists i :: 0 <= i < |rows| && w == CellWidth(rows[i], col)
  {
    if rows == [] then 0
    else
      var rest := MaxCellWidth(rows[1..], col);
      assert forall i :: 1 <= i < |rows| ==> rows[i] == rows[1..][i - 1];
      if CellWidth(rows[0], col) >= rest then CellWidth(rows[0], col) else rest
  }

  /** The width of column `col`: the widest of its header cell and its row cells. */
  function ColumnWidth(csv: Csv, col: nat): (w: nat)
    requires col < |csv.header.cells|
    ensures ByteLen(csv.header.cells[col]) <= w
    ensures forall i :: 0 <= i < |csv.rows| && col < |csv.rows[i].cells| ==> ByteLen(csv.rows[i].cells[col]) <= w
    ensures w == ByteLen(csv.header.cells[col])
         || exists i :: 0 <= i < |csv.rows| && col < |csv.rows[i].cells| && w == ByteLen(csv.rows[i].cells[col])
  {
    var fromRows := MaxCellWidth(csv.rows, col);
    assert forall i :: 0 <= i < |csv.rows| && col < |csv.rows[i].cells| ==> CellWidth(csv.rows[i], col) == ByteLen(csv.rows[i].cells[col]);
    if ByteLen(csv.header.cells[col]) >= fromRows then ByteLen(csv.header.cells[col]) else fromRows
  }

  /** The width of every column, one per header cell. */
  function Widths(csv: Csv): (ws: seq<nat>)
    ensures |ws| == |csv.header.cells|
    ensures forall c :: 0 <= c < |ws| ==> ws[c] == ColumnWidth(csv, c)
  {
    seq(|csv.header.cells|, c requires 0 <= c < |csv.header.cells| => ColumnWidth(csv, c))
  }

  function Repeat(c: char, n: nat): (s: string)
    ensures |s| == n && forall i :: 0 <= i < n ==> s[i] == c
  {
    seq(n, i => c)
  }

  /** `format!("{:<width$}", cell)`: the cell, then spaces up to `width` characters. */
  function Pad(cell: string, width: nat): (p: string)
    ensures |p| == if |cell| < width then width else |cell|
    ensures p[..|cell|] == cell
    ensures forall i :: |cell| <= i < |p| ==> p[i] == ' '
  {
    if |cell| < width then cell + Repeat(' ', width - |cell|) else cell
  }

  /** Each cell padded to its column's width. */
  function PadCells(cells: seq<string>, ws: seq<nat>): (ps: seq<string>)
    requires |cells| <= |ws|
    ensures |ps| == |cells| && forall c :: 0 <= c < |cells| ==> ps[c] == Pad(cells[c], ws[c])
  {
    seq(|cells|, c requires 0 <= c < |cells| => Pad(cells[c], ws[c]))
  }

  function HeaderLine(csv: Csv): string
  {
    Join(PadCells(csv.header.cells, Widths(csv)), GAP)
  }

  function SeparatorLine(csv: Csv): string
  {
    var ws := Widths(csv);
    Join(seq(|ws|, c requires 0 <= c < |ws| => Repeat('-', ws[c])), GAP)
  }

  function DataLine(csv: Csv, i: nat): string
    requires WellFormed(csv) && i < |csv.rows|
  {
    Join(PadCells(csv.rows[i].cells, Widths(csv)), GAP)
  }

  /** `Csv::to_table_layout`: header, separator, then the rows, one per line. */
  function ToTableLayout(csv: Csv): string
    requires WellFormed(csv)
  {
    HeaderLine(csv) + "\n" + SeparatorLine(csv) + "\n" + Join(DataLines(csv), "\n")
  }

  // ---------------------------------------------------------------------------
  // alignment

  /** Where column `c` starts in a line of columns of widths `ws` separated by the gap. */
  function Offset(ws: seq<nat>, c: nat): nat
    requires c <= |ws|
  {
    if c == 0 then 0 else ws[0] + |GAP| + Offset(ws[1..], c - 1)
  }

  /** In a join of pieces of the given widths, piece `c` sits at `Offset(ws, c)`. */
  lemma {:induction false} JoinColumn(parts: seq<string>, ws: seq<nat>, c: nat)
    requires |parts| <= |ws| && c < |parts|
    requires forall k :: 0 <= k < |parts| ==> |parts[k]| == ws[k]
    ensures Offset(ws, c) + ws[c] <= |Join(parts, GAP)|
    ensures Join(parts, GAP)[Offset(ws, c)..Offset(ws, c) + ws[c]] == parts[c]
    decreases c
  {
    var line := Join(parts, GAP);
    if |parts| == 1 {
      assert line == parts[0];
    } else {
      var head := parts[0] + GAP;
      var rest := Join(parts[1..], GAP);
      assert line == head + rest;
      if c == 0 {
        assert line[..ws[0]] == parts[0];
      } else {
        assert forall k :: 0 <= k < |parts[1..]| ==> |parts[1..][k]| == ws[1..][k];
        JoinColumn(parts[1..], ws[1..], c - 1);
        var o := Offset(ws[1..], c - 1);
        assert |head| == ws[0] + |GAP|;
        assert line[|head| + o..|head| + o + ws[c]] == rest[o..o + ws[c]];
      }
    }
  }

  /** A padded cell has exactly its column's width, because the width is at least the cell's byte length. */
  lemma PadToWidth(csv: Csv, cells: seq<string>, c: nat)
    requires c < |cells| <= |csv.header.cells|
    requires cells == csv.header.cells || exists i :: 0 <= i < |csv.rows| && cells == csv.rows[i].cells
    ensures |Pad(cells[c], Widths(csv)[c])| == Widths(csv)[c]
  {
    ByteLenAtLeast(cells[c]);
  }

  lemma ByteLenAtLeast(s: string)
    ensures |s| <= ByteLen(s)
  {
  }

  /**
   * The table is aligned: column `c` starts at the same position and has
   * the same width in the header line, in the separator line (all dashes)
   * and in every data line that has a cell there; in each of them the cell
   * is left-aligned and padded with spaces.
   */
  lemma LayoutAligned(csv: Csv, c: nat)
    requires WellFormed(csv) && c < |csv.header.cells|
    ensures var ws := Widths(csv);
      var o := Offset(ws, c);
      && o + ws[c] <= |HeaderLine(csv)|
      && HeaderLine(csv)[o..o + ws[c]] == Pad(csv.header.cells[c], ws[c])
      && o + ws[c] <= |SeparatorLine(csv)|
      && SeparatorLine(csv)[o..o + ws[c]] == Repeat('-', ws[c])
    ensures forall i :: 0 <= i < |csv.rows| && c < |csv.rows[i].cells| ==>
      RowAligned(csv, c, i)
  {
    HeaderAligned(csv, c);
    SeparatorAligned(csv, c);
    forall i | 0 <= i < |csv.rows| && c < |csv.rows[i].cells| ensures RowAligned(csv, c, i) {
      RowColumnAligned(csv, c, i);
    }
  }

  /** In data line `i`, column `c` holds the row's cell, padded to the column's width, at the column's offset. */
  predicate RowAligned(csv: Csv, c: nat, i: nat)
    requires WellFormed(csv) && i < |csv.rows| && c < |csv.rows[i].cells|
  {
    var ws := Widths(csv);
    var o := Offset(ws, c);
    o + ws[c] <= |DataLine(csv, i)| && DataLine(csv, i)[o..o + ws[c]] == Pad(csv.rows[i].cells[c], ws[c])
  }

  lemma HeaderAligned(csv: Csv, c: nat)
    requires c < |csv.header.cells|
    ensures var ws := Widths(csv);
      var o := Offset(ws, c);
      o + ws[c] <= |HeaderLine(csv)| && HeaderLine(csv)[o..o + ws[c]] == Pad(csv.header.cells[c], ws[c])
  {
    var ws := Widths(csv);
    var hs := PadCells(csv.header.cells, ws);
    forall k | 0 <= k < |hs| ensures |hs[k]| == ws[k] {
      PadToWidth(csv, csv.header.cells, k);
    }
    JoinColumn(hs, ws, c);
  }

  lemma SeparatorAligned(csv: Csv, c: nat)
    requires c < |csv.header.cells|
    ensures var ws := Widths(csv);
      var o := Offset(ws, c);
      o + ws[c] <= |SeparatorLine(csv)| && SeparatorLine(csv)[o..o + ws[c]] == Repeat('-', ws[c])
  {
    var ws := Widths(csv);
    var dashes := seq(|ws|, k requires 0 <= k < |ws| => Repeat('-', ws[k]));
    JoinColumn(dashes, ws, c);
  }

  lemma RowColumnAligned(csv: Csv, c: nat, i: nat)
    requires WellFormed(csv) && i < |csv.rows| && c < |csv.rows[i].cells|
    ensures RowAligned(csv, c, i)
  {
    var ws := Widths(csv);
    var ds := PadCells(csv.rows[i].cells, ws);
    forall k | 0 <= k < |ds| ensures |ds[k]| == ws[k] {
      PadToWidth(csv, csv.rows[i].cells, k);
    }
    JoinColumn(ds, ws, c);
  }

  // ---------------------------------------------------------------------------
  // lines of the layout

  /** No cell of the table holds a line break (true of every table read from lines). */
  predicate SingleLineCells(csv: Csv)
  {
    && (forall k :: 0 <= k < |csv.header.cells| ==> '\n' !in csv.header.cells[k])
    && (forall i, k :: 0 <= i < |csv.rows| && 0 <= k < |csv.rows[i].cells| ==> '\n' !in csv.rows[i].cells[k])
  }

  lemma {:induction false} JoinNoBreak(parts: seq<string>, sep: string)
    requires '\n' !in sep && forall k :: 0 <= k < |parts| ==> '\n' !in parts[k]
    ensures '\n' !in Join(parts, sep)
    decreases |parts|
  {
    if |parts| > 1 {
      JoinNoBreak(parts[1..], sep);
    }
  }

  /** A padded row has no line break when its cells have none. */
  lemma PaddedNoBreak(cells: seq<string>, ws: seq<nat>)
    requires |cells| <= |ws| && forall k :: 0 <= k < |cells| ==> '\n' !in cells[k]
    ensures '\n' !in Join(PadCells(cells, ws), GAP)
  {
    var ps := PadCells(cells, ws);
    forall k | 0 <= k < |ps| ensures '\n' !in ps[k] {
      var p := Pad(cells[k], ws[k]);
      forall j | 0 <= j < |p| ensures p[j] != '\n' {
        if j < |cells[k]| {
          assert p[j] == p[..|cells[k]|][j];
        }
      }
    }
    JoinNoBreak(ps, GAP);
  }

  /** A string with no separator splits into itself alone. */
  lemma SplitWhole(x: string, sep: char)
    requires sep !in x
    ensures Split(x, sep) == [x]
  {
    SplitJoin([x], sep);
  }

  /** The data lines of the layout. */
  function DataLines(csv: Csv): (ls: seq<string>)
    requires WellFormed(csv)
    ensures |ls| == |csv.rows| && forall i :: 0 <= i < |csv.rows| ==> ls[i] == DataLine(csv, i)
  {
    seq(|csv.rows|, i requires 0 <= i < |csv.rows| => DataLine(csv, i))
  }

  /** No line of the layout holds a line break of its own. */
  lemma LayoutNoBreaks(csv: Csv)
    requires WellFormed(csv) && SingleLineCells(csv)
    ensures '\n' !in HeaderLine(csv) && '\n' !in SeparatorLine(csv)
    ensures forall i :: 0 <= i < |csv.rows| ==> '\n' !in DataLines(csv)[i]
  {
    var ws := Widths(csv);
    PaddedNoBreak(csv.header.cells, ws);
    var dashes := seq(|ws|, k requires 0 <= k < |ws| => Repeat('-', ws[k]));
    JoinNoBreak(dashes, GAP);
    forall i | 0 <= i < |csv.rows| ensures '\n' !in DataLines(csv)[i] {
      PaddedNoBreak(csv.rows[i].cells, ws);
    }
  }

  /** Split of three pieces joined by line breaks, none of the first two holding one. */
  lemma SplitThree(h: string, m: string, body: string)
    requires '\n' !in h && '\n' !in m
    ensures Split(h + "\n" + m + "\n" + body, '\n') == [h, m] + Split(body, '\n')
  {
    SplitWhole(h, '\n');
    SplitWhole(m, '\n');
    assert h + "\n" + m + "\n" + body == h + ['\n'] + (m + ['\n'] + body);
    SplitAround(h, m + ['\n'] + body, '\n');
    SplitAround(m, body, '\n');
  }

  /**
   * The layout is the header line, the separator line and one line per
   * row, in order (an empty last line when there are no rows).
   */
  lemma LayoutLines(csv: Csv)
    requires WellFormed(csv) && SingleLineCells(csv)
    ensures Split(ToTableLayout(csv), '\n') ==
      [HeaderLine(csv), SeparatorLine(csv)] + (if csv.rows == [] then [""] else DataLines(csv))
  {
    var data := DataLines(csv);
    LayoutNoBreaks(csv);
    assert ToTableLayout(csv) == HeaderLine(csv) + "\n" + SeparatorLine(csv) + "\n" + Join(data, "\n");
    SplitThree(HeaderLine(csv), SeparatorLine(csv), Join(data, "\n"));
    if data == [] {
      assert Join(data, "\n") == "";
    } else {
      SplitJoin(data, '\n');
    }
  }
}
