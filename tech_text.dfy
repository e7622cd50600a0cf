/**
 * Text extraction of the tech pipeline: PDF pages and DOCX paragraphs and
 * table rows become lines of one text, and an upload is read according to
 * its file name.
 */
module TechText {
  import opened PyStr
  import opened Documents

  // ---------------------------------------------------------------------
  // PDF
  // ---------------------------------------------------------------------

  /** The text of a PDF: "" when the file cannot be read, otherwise the
      page lines joined by newlines. */
  function PdfText(f: PdfFile): string {
    match f
    case PdfUnreadable => []
    case Pdf(pages) => Join(PageLines(pages), "\n")
  }

  /** `extract_text_from_pdf_bytes`: one pass over the pages, a page that
      fails contributing an empty line. */
  method ExtractTextFromPdf(f: PdfFile) returns (text: string)
    ensures text == PdfText(f)
  {
    if f.PdfUnreadable? {
      return [];
    }
    var pages := f.pages;
    var texts: seq<string> := [];
    for i := 0 to |pages|
      invariant texts == PageLines(pages[..i])
    {
      assert pages[..i + 1][..i] == pages[..i];
      match pages[i]
      case PageText(t) =>
        texts := texts + [t];
      case NoText =>
        texts := texts + [[]];
      case PageError =>
        texts := texts + [[]];
    }
    assert pages[..|pages|] == pages;
    text := Join(texts, "\n");
  }

  /** When no page text holds a newline, splitting the text on newlines
      gives back one line per page: the page's text, or "" for a page
      without text or whose extraction failed. */
  lemma PdfLinesRecovered(pages: seq<Page>)
    requires pages != []
    requires forall p :: p in pages && p.PageText? ==> '\n' !in p.text
    ensures SplitOn(PdfText(Pdf(pages)), '\n') == PageLines(pages)
  {
    var lines := PageLines(pages);
    forall l | l in lines ensures '\n' !in l {
      var i :| 0 <= i < |lines| && lines[i] == l;
      assert pages[i] in pages;
    }
    SplitOnJoin(lines, '\n');
  }

  /** The text is blank exactly when the file cannot be read or no page
      has a non-blank text. */
  lemma PdfTextBlank(f: PdfFile)
    ensures IsBlank(PdfText(f)) <==>
      f.PdfUnreadable? || forall p :: p in f.pages && p.PageText? ==> IsBlank(p.text)
  {
    if f.Pdf? {
      var lines := PageLines(f.pages);
      JoinBlank(lines, "\n");
      if forall l :: l in lines ==> IsBlank(l) {
        forall p | p in f.pages && p.PageText? ensures IsBlank(p.text) {
          var i :| 0 <= i < |f.pages| && f.pages[i] == p;
          assert lines[i] in lines;
        }
      }
    }
  }

  // ---------------------------------------------------------------------
  // DOCX
  // ---------------------------------------------------------------------

  /** The paragraphs kept: every non-empty one, as it is. */
  function ParagraphParts(paragraphs: seq<string>): (parts: seq<string>)
    ensures forall p :: p in parts <==> p in paragraphs && p != []
    decreases |paragraphs|
  {
    if paragraphs == [] then []
    else
      var init, last := paragraphs[..|paragraphs| - 1], paragraphs[|paragraphs| - 1];
      assert forall p :: p in paragraphs <==> p in init || p == last;
      ParagraphParts(init) + (if last != [] then [last] else [])
  }

  /** The lines of a DOCX file: its paragraphs, then its table rows. */
  function DocxParts(paragraphs: seq<string>, tables: seq<Table>): seq<string> {
    ParagraphParts(paragraphs) + TableParts(tables)
  }

  /** The text of a DOCX file: "" when the file cannot be read, otherwise
      its lines joined by newlines. */
  function DocxText(f: DocxFile): string {
    match f
    case DocxUnreadable => []
    case Docx(paragraphs, tables) => Join(DocxParts(paragraphs, tables), "\n")
  }

  /** One step of the paragraph fold. */
  lemma ParagraphStep(paragraphs: seq<string>, i: nat)
    requires i < |paragraphs|
    ensures ParagraphParts(paragraphs[..i + 1]) ==
      ParagraphParts(paragraphs[..i]) + (if paragraphs[i] != [] then [paragraphs[i]] else [])
  {
    assert paragraphs[..i + 1][..i] == paragraphs[..i];
  }

  /** `extract_text_from_docx_bytes`: the paragraphs, then the tables row by
      row, appended to one list of parts. */
  method ExtractTextFromDocx(f: DocxFile) returns (text: string)
    ensures text == DocxText(f)
  {
    if f.DocxUnreadable? {
      return [];
    }
    var paragraphs, tables := f.paragraphs, f.tables;
    var parts: seq<string> := [];
    for i := 0 to |paragraphs|
      invariant parts == ParagraphParts(paragraphs[..i])
    {
      ParagraphStep(paragraphs, i);
      if paragraphs[i] != [] {
        parts := parts + [paragraphs[i]];
      }
    }
    assert paragraphs[..|paragraphs|] == paragraphs;
    parts := AppendTableLines(parts, tables);
    text := Join(parts, "\n");
  }

  /** The text of a readable DOCX file is blank exactly when all its
      paragraphs and all its table cells are. */
  lemma DocxTextBlank(paragraphs: seq<string>, tables: seq<Table>)
    ensures IsBlank(DocxText(Docx(paragraphs, tables))) <==>
      (forall p :: p in paragraphs ==> IsBlank(p)) && AllCellsBlank(tables)
  {
    var pp, tp := ParagraphParts(paragraphs), TableParts(tables);
    TablePartsSpec(tables);
    JoinBlank(pp + tp, "\n");
    assert forall p :: p in pp + tp <==> p in pp || p in tp;
    if tp != [] {
      assert tp[0] in pp + tp;
    }
  }

  /** When no paragraph and no cell holds a newline, splitting the text on
      newlines gives back the kept paragraphs, then one line per row with a
      non-blank cell. */
  lemma DocxLinesRecovered(paragraphs: seq<string>, tables: seq<Table>)
    requires DocxParts(paragraphs, tables) != []
    requires forall p :: p in paragraphs ==> '\n' !in p
    requires forall t, row, c :: t in tables && row in t && c in row ==> '\n' !in c
    ensures SplitOn(DocxText(Docx(paragraphs, tables)), '\n') == DocxParts(paragraphs, tables)
  {
    TablePartsSpec(tables);
    var pp, tp := ParagraphParts(paragraphs), TableParts(tables);
    assert forall p :: p in pp + tp <==> p in pp || p in tp;
    SplitOnJoin(pp + tp, '\n');
  }

  // ---------------------------------------------------------------------
  // Upload
  // ---------------------------------------------------------------------

  /** `extract_text_from_upload`: read the bytes as the file name says. */
  function UploadText(u: Upload): (text: string)
    ensures KindOf(u.name) == Unsupported ==> text == []
    ensures KindOf(u.name) == PdfKind ==> text == PdfText(u.asPdf)
    ensures KindOf(u.name) == DocxKind ==> text == DocxText(u.asDocx)
  {
    match KindOf(u.name)
    case PdfKind => PdfText(u.asPdf)
    case DocxKind => DocxText(u.asDocx)
    case Unsupported => []
  }

  /** `extract_text_from_upload`, calling the extractor the name selects. */
  method ExtractTextFromUpload(u: Upload) returns (text: string)
    ensures text == UploadText(u)
  {
    var name := Lower(u.name);
    if EndsWith(name, ".pdf") {
      text := ExtractTextFromPdf(u.asPdf);
    } else if EndsWith(name, ".docx") {
      text := ExtractTextFromDocx(u.asDocx);
    } else {
      text := "";
    }
  }
}
