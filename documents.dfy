/**
 * What the PDF and DOCX libraries make of an uploaded file, taken as given:
 * the model starts from page texts, paragraph texts and table cells, and
 * from whether the library could open the file at all.
 */
module Documents {
  import opened PyStr

  /** One PDF page: the text the library extracts, no text at all, or an
      error raised while extracting it. */
  datatype Page = PageText(text: string) | NoText | PageError

  /** A PDF file: unreadable, or its pages in order. */
  datatype PdfFile = PdfUnreadable | Pdf(pages: seq<Page>)

  /** A DOCX table: rows of cell texts. */
  type Table = seq<seq<string>>

  /** A DOCX file: unreadable, or its paragraph texts and its tables. */
  datatype DocxFile = DocxUnreadable | Docx(paragraphs: seq<string>, tables: seq<Table>)

  /** An uploaded file: its name, what the PDF library and what the DOCX
      library make of its bytes, and whether processing it raises an error
      that no extractor catches. */
  datatype Upload = Upload(name: string, asPdf: PdfFile, asDocx: DocxFile, faults: bool)

  /** The cells of a row that are kept: the non-blank ones, trimmed. */
  function RowCells(row: seq<string>): seq<string> {
    NonBlankStripped(row)
  }

  /** The line a table row contributes: its kept cells joined by " | ". */
  function RowLine(row: seq<string>): string {
    Join(RowCells(row), " | ")
  }

  /** A row contributes a line exactly when it has a non-blank cell, and
      that line is then non-blank itself. */
  lemma RowLineSpec(row: seq<string>)
    ensures RowCells(row) == [] <==> forall c :: c in row ==> IsBlank(c)
    ensures RowCells(row) != [] ==> !IsBlank(RowLine(row))
  {
    NonBlankStrippedEmpty(row);
    var cells := RowCells(row);
    if cells != [] {
      assert cells[0] in cells;
      JoinFirstBlank(cells, " | ");
    }
  }

  /** A join is non-blank when its first part is. */
  lemma JoinFirstBlank(parts: seq<string>, sep: string)
    requires parts != [] && !IsBlank(parts[0])
    ensures !IsBlank(Join(parts, sep))
  {
    if |parts| > 1 {
      BlankConcat(parts[0], sep + Join(parts[1..], sep));
      assert Join(parts, sep) == parts[0] + (sep + Join(parts[1..], sep));
    }
  }

  // ---------------------------------------------------------------------
  // What the extractors share: page lines and table row lines
  // ---------------------------------------------------------------------

  /** The line a page contributes: its text, or "" when the page has no
      text or extracting it fails. */
  function PageLine(p: Page): string {
    if p.PageText? then p.text else []
  }

  /** One line per page, in page order. */
  function PageLines(pages: seq<Page>): (lines: seq<string>)
    ensures |lines| == |pages|
    ensures forall i :: 0 <= i < |pages| ==> lines[i] == PageLine(pages[i])
    decreases |pages|
  {
    if pages == [] then []
    else PageLines(pages[..|pages| - 1]) + [PageLine(pages[|pages| - 1])]
  }

  /** The line of each row of a table that has a non-blank cell. */
  function RowParts(rows: Table): (parts: seq<string>)
    decreases |rows|
  {
    if rows == [] then []
    else
      var last := rows[|rows| - 1];
      RowParts(rows[..|rows| - 1]) + (if RowCells(last) != [] then [RowLine(last)] else [])
  }

  /** The row lines of all tables, table by table. */
  function TableParts(tables: seq<Table>): (parts: seq<string>)
    decreases |tables|
  {
    if tables == [] then []
    else TableParts(tables[..|tables| - 1]) + RowParts(tables[|tables| - 1])
  }

  /** One step of the table fold and of the row fold. */
  lemma TableStep(tables: seq<Table>, i: nat)
    requires i < |tables|
    ensures TableParts(tables[..i + 1]) == TableParts(tables[..i]) + RowParts(tables[i])
  {
    assert tables[..i + 1][..i] == tables[..i];
  }

  lemma RowStep(rows: Table, i: nat)
    requires i < |rows|
    ensures RowParts(rows[..i + 1]) ==
      RowParts(rows[..i]) + (if RowCells(rows[i]) != [] then [RowLine(rows[i])] else [])
  {
    assert rows[..i + 1][..i] == rows[..i];
  }

  /** The row loop of both DOCX extractors: the line of each row of one
      table that has a non-blank cell, appended to the parts. */
  method AppendRowLines(parts: seq<string>, table: Table) returns (result: seq<string>)
    ensures result == parts + RowParts(table)
  {
    result := parts;
    for r := 0 to |table|
      invariant result == parts + RowParts(table[..r])
    {
      RowStep(table, r);
      var rowText := RowCells(table[r]);
      if rowText != [] {
        result := result + [Join(rowText, " | ")];
      }
    }
    assert table[..|table|] == table;
  }

  /** The table loop of both DOCX extractors: the row lines of every
      table, table by table, appended to the parts. */
  method AppendTableLines(parts: seq<string>, tables: seq<Table>) returns (result: seq<string>)
    ensures result == parts + TableParts(tables)
  {
    result := parts;
    for t := 0 to |tables|
      invariant result == parts + TableParts(tables[..t])
    {
      TableStep(tables, t);
      result := AppendRowLines(result, tables[t]);
    }
    assert tables[..|tables|] == tables;
  }

  /** Every cell of every row of every table is blank. */
  predicate AllCellsBlank(tables: seq<Table>) {
    forall t, row, c :: t in tables && row in t && c in row ==> IsBlank(c)
  }

  /** Row lines are never blank, every row with a non-blank cell gives one,
      and a row line holds no newline unless a cell does. */
  lemma {:induction false} RowPartsSpec(rows: Table)
    ensures forall p :: p in RowParts(rows) ==> !IsBlank(p)
    ensures RowParts(rows) == [] <==> forall row, c :: row in rows && c in row ==> IsBlank(c)
    ensures (forall row, c :: row in rows && c in row ==> '\n' !in c) ==>
      forall p :: p in RowParts(rows) ==> '\n' !in p
    decreases |rows|
  {
    if rows != [] {
      var init, last := rows[..|rows| - 1], rows[|rows| - 1];
      RowPartsSpec(init);
      RowLineSpec(last);
      assert forall row :: row in rows <==> row in init || row == last;
      if forall row, c :: row in rows && c in row ==> '\n' !in c {
        forall c | c in RowCells(last) ensures '\n' !in c {
          NonBlankStrippedFrom(last, c);
        }
        JoinAvoids(RowCells(last), " | ", '\n');
      }
    }
  }

  /** The same three facts for the row lines of all tables. */
  lemma {:induction false} TablePartsSpec(tables: seq<Table>)
    ensures forall p :: p in TableParts(tables) ==> !IsBlank(p)
    ensures TableParts(tables) == [] <==> AllCellsBlank(tables)
    ensures (forall t, row, c :: t in tables && row in t && c in row ==> '\n' !in c) ==>
      forall p :: p in TableParts(tables) ==> '\n' !in p
    decreases |tables|
  {
    if tables != [] {
      var init, last := tables[..|tables| - 1], tables[|tables| - 1];
      TablePartsSpec(init);
      RowPartsSpec(last);
      assert forall t :: t in tables <==> t in init || t == last;
    }
  }

  /** How an upload is read, decided by its lower-cased file name. */
  datatype Kind = PdfKind | DocxKind | Unsupported

  /** `.pdf` is tried first, then `.docx`; any other name is not read.
      The two suffixes cannot both match, so the order does not matter. */
  function KindOf(name: string): (k: Kind)
    ensures k == PdfKind <==> EndsWith(Lower(name), ".pdf")
    ensures k == DocxKind <==> EndsWith(Lower(name), ".docx")
  {
    var lower := Lower(name);
    assert EndsWith(lower, ".pdf") ==> lower[|lower| - 1] == 'f';
    assert EndsWith(lower, ".docx") ==> lower[|lower| - 1] == 'x';
    if EndsWith(lower, ".pdf") then PdfKind
    else if EndsWith(lower, ".docx") then DocxKind
    else Unsupported
  }

  /** The suffix test ignores case, and `.doc` is not supported. */
  lemma KindExamples()
    ensures KindOf("CV.PDF") == PdfKind
    ensures KindOf("resume.doc") == Unsupported
  {
    var a := Lower("CV.PDF");
    assert a[2..] == ".pdf";
    var b := Lower("resume.doc");
    assert b[9] == 'c';
  }
}
