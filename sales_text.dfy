/**
 * Text extraction of the sales pipeline. It differs from the tech pipeline
 * in two places: one failing PDF page empties the whole text, and DOCX
 * paragraphs made only of white space are dropped.
 */
module SalesText {
  import opened PyStr
  import opened Documents
  import TechText

  // ---------------------------------------------------------------------
  // PDF
  // ---------------------------------------------------------------------

  /** Some page raises an error when its text is extracted. */
  predicate SomePageFails(pages: seq<Page>) {
    exists p :: p in pages && p.PageError?
  }

  /** `extract_text_from_pdf_bytes`: "" when the file cannot be read or any
      page fails, otherwise the page lines joined by newlines. */
  function PdfText(f: PdfFile): string {
    if f.PdfUnreadable? || SomePageFails(f.pages) then []
    else Join(PageLines(f.pages), "\n")
  }

  /** Without a failing page both pipelines read a PDF alike; with one, the
      sales text is empty while the tech text still holds the other pages. */
  lemma PdfTextAgainstTech(f: PdfFile)
    ensures f.Pdf? && !SomePageFails(f.pages) ==> PdfText(f) == TechText.PdfText(f)
    ensures f.Pdf? && SomePageFails(f.pages) ==> PdfText(f) == []
    ensures (f.Pdf? && |f.pages| > 1 && f.pages[0].PageError? && f.pages[1].PageText? &&
             f.pages[1].text != []) ==> TechText.PdfText(f) != []
  {
    if f.Pdf? && |f.pages| > 1 {
      var lines := PageLines(f.pages);
      assert Join(lines, "\n") == lines[0] + "\n" + Join(lines[1..], "\n");
    }
  }

  // ---------------------------------------------------------------------
  // DOCX
  // ---------------------------------------------------------------------

  /** The paragraphs kept: every one that is not blank, as it is. */
  function KeptParagraphs(paragraphs: seq<string>): seq<string>
    decreases |paragraphs|
  {
    if paragraphs == [] then []
    else
      var init, last := paragraphs[..|paragraphs| - 1], paragraphs[|paragraphs| - 1];
      KeptParagraphs(init) + (if !IsBlank(last) then [last] else [])
  }

  /** The kept paragraphs are exactly the paragraphs that are not blank. */
  lemma {:induction false} KeptParagraphsSpec(paragraphs: seq<string>)
    ensures forall p :: p in KeptParagraphs(paragraphs) <==> p in paragraphs && !IsBlank(p)
    decreases |paragraphs|
  {
    if paragraphs != [] {
      var init, last := paragraphs[..|paragraphs| - 1], paragraphs[|paragraphs| - 1];
      KeptParagraphsSpec(init);
      assert forall p :: p in paragraphs <==> p in init || p == last;
    }
  }

  /** The lines of a DOCX file: its kept paragraphs, then its table rows. */
  function DocxParts(paragraphs: seq<string>, tables: seq<Table>): seq<string> {
    KeptParagraphs(paragraphs) + TableParts(tables)
  }

  /** The text of a DOCX file: "" when the file cannot be read, otherwise
      its lines joined by newlines. */
  function DocxText(f: DocxFile): string {
    match f
    case DocxUnreadable => []
    case Docx(paragraphs, tables) => Join(DocxParts(paragraphs, tables), "\n")
  }

  /** `extract_text_from_docx_bytes`: the kept paragraphs, then the tables
      row by row, appended to one list of parts. */
  method ExtractTextFromDocx(f: DocxFile) returns (text: string)
    ensures text == DocxText(f)
  {
    if f.DocxUnreadable? {
      return [];
    }
    var parts := KeptParagraphs(f.paragraphs);
    parts := AppendTableLines(parts, f.tables);
    text := Join(parts, "\n");
  }

  /** Every line is non-blank, so the text is either empty or not blank,
      and it is empty exactly when every paragraph and every cell is blank. */
  lemma DocxTextBlank(f: DocxFile)
    ensures IsBlank(DocxText(f)) ==> DocxText(f) == []
    ensures f.Docx? ==> (DocxText(f) == [] <==>
      (forall p :: p in f.paragraphs ==> IsBlank(p)) && AllCellsBlank(f.tables))
  {
    if f.Docx? {
      var kp, tp := KeptParagraphs(f.paragraphs), TableParts(f.tables);
      KeptParagraphsSpec(f.paragraphs);
      TablePartsSpec(f.tables);
      if kp + tp != [] {
        assert (kp + tp)[0] in kp || (kp + tp)[0] in tp;
        JoinFirstBlank(kp + tp, "\n");
      }
    }
  }

  /** The two pipelines find a DOCX text blank in exactly the same cases. */
  lemma DocxBlankAgainstTech(f: DocxFile)
    ensures IsBlank(DocxText(f)) <==> IsBlank(TechText.DocxText(f))
  {
    DocxTextBlank(f);
    if f.Docx? {
      TechText.DocxTextBlank(f.paragraphs, f.tables);
    }
  }

  /** When no paragraph and no cell holds a newline, splitting the text on
      newlines gives back the kept paragraphs, then one line per row with a
      non-blank cell. */
  lemma DocxLinesRecovered(paragraphs: seq<string>, tables: seq<Table>)
    requires DocxParts(paragraphs, tables) != []
    requires forall p :: p in paragraphs ==> '\n' !in p
    requires forall t, row, c :: t in tables && row in t && c in row ==> '\n' !in c
    ensures SplitOn(DocxText(Docx(paragraphs, tables)), '\n') == DocxParts(paragraphs, tables)
  {
    KeptParagraphsSpec(paragraphs);
    TablePartsSpec(tables);
    var kp, tp := KeptParagraphs(paragraphs), TableParts(tables);
    assert forall p :: p in kp + tp <==> p in kp || p in tp;
    SplitOnJoin(kp + tp, '\n');
  }

  // ---------------------------------------------------------------------
  // Upload
  // ---------------------------------------------------------------------

  /** `extract_text_from_upload`: read the bytes as the file name says. */
  function UploadText(u: Upload): (text: string)
    ensures KindOf(u.name) == Unsupported ==> text == []
    ensures KindOf(u.name) == PdfKind ==> text == PdfText(u.asPdf)
    ensures KindOf(u.name) == DocxKind ==> text == DocxText(u.asDocx)
  {
    match KindOf(u.name)
    case PdfKind => PdfText(u.asPdf)
    case DocxKind => DocxText(u.asDocx)
    case Unsupported => []
  }
}
