/** The row-document builder: one text per table row, formed by joining the
    configured columns with single spaces, a missing cell standing as " ". */
module Documents {
  import opened Outcomes
  import Chunking

  /** A table cell: text, or missing (pandas' NaN). */
  datatype Cell = Text(s: string) | Missing

  type Row = map<string, Cell>

  /** A data frame: its column labels and its rows in order. A row that has
      no entry for one of the columns holds a missing value there. */
  datatype Table = Table(columns: set<string>, rows: seq<Row>)

  function CellAt(row: Row, column: string): Cell
  {
    if column in row then row[column] else Missing
  }

  /** `fillna(" ")`: a missing cell contributes one space, not the empty string. */
  function Filled(c: Cell): string
  {
    match c
    case Text(s) => s
    case Missing => " "
  }

  /** `" ".join(parts)` */
  function Join(parts: seq<string>): string
  {
    if |parts| == 0 then ""
    else if |parts| == 1 then parts[0]
    else parts[0] + " " + Join(parts[1..])
  }

  function SumLen(parts: seq<string>): nat
  {
    if |parts| == 0 then 0 else |parts[0]| + SumLen(parts[1..])
  }

  /** The filled cells of the configured columns, in configured order. */
  function CellTexts(row: Row, columns: seq<string>): (r: seq<string>)
    ensures |r| == |columns|
  {
    seq(|columns|, j requires 0 <= j < |columns| => Filled(CellAt(row, columns[j])))
  }

  function RowDocument(row: Row, columns: seq<string>): string
  {
    Join(CellTexts(row, columns))
  }

  /** The first configured column the table does not have, if any. */
  function FirstMissing(columns: seq<string>, present: set<string>): (r: Option<string>)
    ensures r.None? <==> forall j :: 0 <= j < |columns| ==> columns[j] in present
    ensures r.Some? ==> r.value in columns && r.value !in present
  {
    if |columns| == 0 then None
    else if columns[0] !in present then Some(columns[0])
    else
      var rest := FirstMissing(columns[1..], present);
      assert forall j :: 1 <= j < |columns| ==> columns[j] == columns[1..][j - 1];
      rest
  }

  /** `extract_text_from_csv`: one document per row, in row order. Selecting a
      column the table lacks raises a KeyError naming it. On a frame with
      columns but no rows, pandas' row-wise `apply` hands back a frame rather
      than a series, and `tolist` then raises. */
  function ExtractText(t: Table, columns: seq<string>): (r: Result<seq<string>>)
    ensures r.Ok? <==>
      (forall j :: 0 <= j < |columns| ==> columns[j] in t.columns) && (|t.rows| > 0 || |columns| == 0)
    ensures r.Err? && r.failure.MissingColumn? ==> r.failure.name in columns && r.failure.name !in t.columns
    ensures r.Err? && !r.failure.MissingColumn? ==>
      r.failure == FrameNotList && |t.rows| == 0 && (forall j :: 0 <= j < |columns| ==> columns[j] in t.columns)
    ensures r.Ok? ==> |r.value| == |t.rows|
    ensures r.Ok? ==> forall i :: 0 <= i < |t.rows| ==> r.value[i] == RowDocument(t.rows[i], columns)
  {
    match FirstMissing(columns, t.columns)
    case Some(c) => Err(MissingColumn(c))
    case None =>
      if |t.rows| == 0 && |columns| > 0 then Err(FrameNotList)
      else Ok(seq(|t.rows|, i requires 0 <= i < |t.rows| => RowDocument(t.rows[i], columns)))
  }

  /** A join is as long as its parts plus one separator between each two. */
  lemma {:induction false} JoinLength(parts: seq<string>)
    requires |parts| > 0
    ensures |Join(parts)| == SumLen(parts) + |parts| - 1
  {
    if |parts| > 1 {
      JoinLength(parts[1..]);
    }
  }

  /** Part `j` of a join starts after all earlier parts and one space for each;
      a space follows every part but the last. */
  lemma {:induction false} JoinLayout(parts: seq<string>, j: nat)
    requires j < |parts|
    ensures SumLen(parts[..j]) + j + |parts[j]| <= |Join(parts)|
    ensures Join(parts)[SumLen(parts[..j]) + j .. SumLen(parts[..j]) + j + |parts[j]|] == parts[j]
    ensures j + 1 < |parts| ==> SumLen(parts[..j]) + j + |parts[j]| < |Join(parts)|
    ensures j + 1 < |parts| ==> Join(parts)[SumLen(parts[..j]) + j + |parts[j]|] == ' '
  {
    if |parts| == 1 {
      assert parts[..j] == [];
    } else if j == 0 {
      assert parts[..j] == [];
      assert Join(parts) == parts[0] + " " + Join(parts[1..]);
    } else {
      var rest := parts[1..];
      JoinLayout(rest, j - 1);
      assert parts[..j][1..] == rest[..j - 1];
      assert SumLen(parts[..j]) == |parts[0]| + SumLen(rest[..j - 1]);
      assert rest[j - 1] == parts[j];
      var off := SumLen(rest[..j - 1]) + j - 1;
      var tail := Join(rest);
      assert Join(parts) == parts[0] + " " + tail;
      assert Join(parts)[|parts[0]| + 1 + off .. |parts[0]| + 1 + off + |parts[j]|] == tail[off .. off + |parts[j]|];
    }
  }

  /** Each configured column's text, or a single space where the cell is
      missing, sits in the row document at its place in the configured order,
      followed by a separating space unless it is the last column. */
  lemma RowDocumentLayout(row: Row, columns: seq<string>, j: nat)
    requires j < |columns|
    ensures var parts := CellTexts(row, columns);
      var off := SumLen(parts[..j]) + j;
      && parts[j] == Filled(CellAt(row, columns[j]))
      && off + |parts[j]| <= |RowDocument(row, columns)|
      && RowDocument(row, columns)[off .. off + |parts[j]|] == Filled(CellAt(row, columns[j]))
      && (j + 1 < |columns| ==>
            off + |parts[j]| < |RowDocument(row, columns)| && RowDocument(row, columns)[off + |parts[j]|] == ' ')
  {
    JoinLayout(CellTexts(row, columns), j);
  }

  function Spaces(n: nat): (r: string)
    ensures |r| == n
  {
    seq(n, _ => ' ')
  }

  /** A row whose configured cells are all missing still yields a non-empty
      document: 2m-1 spaces for m columns. */
  lemma {:induction false} AllMissingRow(row: Row, columns: seq<string>)
    requires |columns| > 0
    requires forall j :: 0 <= j < |columns| ==> CellAt(row, columns[j]) == Missing
    ensures RowDocument(row, columns) == Spaces(2 * |columns| - 1)
  {
    JoinOfSpaces(CellTexts(row, columns));
  }

  lemma {:induction false} JoinOfSpaces(parts: seq<string>)
    requires |parts| > 0
    requires forall j :: 0 <= j < |parts| ==> parts[j] == " "
    ensures Join(parts) == Spaces(2 * |parts| - 1)
  {
    if |parts| > 1 {
      JoinOfSpaces(parts[1..]);
      assert Join(parts) == " " + " " + Spaces(2 * |parts| - 3);
    }
  }

  /** With two or more configured columns a row document always holds a
      separator, so every row yields at least one chunk, whatever its cells. */
  lemma EveryRowChunked(row: Row, columns: seq<string>, size: nat, overlap: int)
    requires |columns| >= 2
    requires overlap < size
    ensures |RowDocument(row, columns)| >= |columns| - 1
    ensures |Chunking.ChunkOne(RowDocument(row, columns), size, size - overlap)| >= 1
  {
    JoinLength(CellTexts(row, columns));
    Chunking.ChunkCount(RowDocument(row, columns), size, overlap);
  }
}
