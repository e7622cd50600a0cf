# Resume parser: a Dafny model of the text-to-record pipelines

The resume parser reads a batch of uploaded resumes (PDF or Word .docx)
and builds one spreadsheet row per resume: a few fixed columns (file name,
candidate name, e-mail, phone, education) and one 0/1 column per industry
label, set when the label's patterns occur in the resume text. It exists in
two variants:

- `xcelgrad_tech.py`, the tech pipeline. It has real field extractors and a
  batch loop that counts failures and tallies the industry columns.
- `xcelgrad_sales.py`, the sales pipeline. It reads the name off the file
  name, leaves the other extractors as stubs, and has a smaller catalog, a
  substring fallback and a batch loop with no error handling.

This project models both variants:

- Text assembly: the PDF page join, the DOCX paragraph and table-row join,
  and dispatch on the file extension. The document libraries' results are
  inputs.
- Field extraction: `extract_name`, `extract_email`, `extract_phone`,
  `extract_education`, `extract_name_from_filename` and
  `is_internship_entry`.
- Label normalisation: `normalize_skill_list`, in both variants.
- Industry tagging: `INDUSTRY_PATTERNS` and `check_skill_present`.
- Record building: `process_single_resume`.
- The batch loop of `main`, with its 100-file cap, record list, failure
  count and per-label counts.

Module layout:

| file | module | what it holds |
|---|---|---|
| base.dfy | Base | `Option`, `Min` |
| py_str.dfy | PyStr | ASCII models of the Python `str` methods used: `lower`, `upper`, `title`, `capitalize`, `strip`, `split()`, `split(c)`, `join`, `replace`, `os.path.splitext` |
| regex.dfy | Regex | the regular-expression fragment used: `\b`, literals, character classes with bounded repeats, concatenation, alternation and optional parts. `Ends` lists match ends in the order of Python's backtracking search; `Accepts` is a relational reference semantics; the two are proved equivalent. Also `re.search`, the first `re.findall` match, and `any(...)` over a list of patterns |
| documents.dfy | Documents | uploads and what the PDF and DOCX libraries give for them; the table-row join shared by both variants; extension dispatch |
| labels.dfy | Labels | the casing policy shared by both `normalize_skill_list` variants (keep a short all-caps label, else title-case) and the deduplication key |
| dedup.dfy | LabelDedup | first-seen deduplication, generic over the key and the display function |
| records.dfy | Records | a record as a map from column to value, the per-skill fill loop, the 100-file cap, the per-label counts, and "keep the non-None results in order" |
| tech_text.dfy, tech_fields.dfy, tech_skills.dfy, tech_pipeline.dfy | TechText, TechFields, TechSkills, TechPipeline | the tech variant |
| sales_text.dfy, sales_fields.dfy, sales_skills.dfy, sales_pipeline.dfy | SalesText, SalesFields, SalesSkills, SalesPipeline | the sales variant |

Where the source mutates a list, set or dict in a loop, the model does the
same in a method with that loop. The DOCX part list, the seen-set and
result list of `normalize_skill_list`, the skill columns of
`process_single_resume`, the record list of the batch loop and the count
dict are all modelled this way. Each such method is proved equal to a
function, and the lemmas are stated about that function. Pure code, such
as `extract_name` or the name-from-filename chain, is modelled as
functions.

## Model

| member | source | states |
|---|---|---|
| PyStr.Lower | xcelgrad_tech.py:47 | `lower()` keeps the length and lower-cases each ASCII letter in place |
| PyStr.Upper | xcelgrad_tech.py:104 | `upper()` keeps the length and upper-cases each ASCII letter in place |
| PyStr.CaseFold | xcelgrad_tech.py:125 | lower-casing after either case change gives the same character; both case changes are idempotent |
| PyStr.Title | xcelgrad_tech.py:131 | `title()` keeps the length and decides each character from its position in its word |
| PyStr.TitleCase | xcelgrad_tech.py:131 | title-casing changes only the case of letters: it keeps the lower-cased form, which characters are letters and which are white space |
| PyStr.TitleIdempotent | xcelgrad_tech.py:131 | title-casing twice is title-casing once |
| PyStr.Capitalize | xcelgrad_sales.py:54 | `capitalize()`: the first character upper-cased and the rest lower-cased |
| PyStr.StripSpec | xcelgrad_tech.py:122 | `strip()` removes exactly the leading and trailing white space: the result is stripped, and it is empty exactly when the string is blank |
| PyStr.StripStripped | xcelgrad_tech.py:122 | stripping a stripped string changes nothing |
| PyStr.SameSpacesStrip | xcelgrad_sales.py:98 | two strings with white space at the same positions are stripped at the same bounds |
| PyStr.SplitWs | xcelgrad_tech.py:63 | every word of `split()` is non-empty and holds no white space |
| PyStr.SplitWsBlank | xcelgrad_sales.py:53 | `split()` gives no word exactly when the string is blank |
| PyStr.SplitWsAvoids | xcelgrad_sales.py:53 | a character the string does not contain is in none of its words |
| PyStr.SplitOn | xcelgrad_tech.py:59 | `split(c)` gives at least one part, and no part holds `c` |
| PyStr.JoinSplitOn | xcelgrad_tech.py:59 | joining the parts of `split(c)` with `c` gives back the string |
| PyStr.SplitOnJoin | xcelgrad_tech.py:24 | splitting on `c` a join with `c` of parts without `c` gives back the parts |
| PyStr.JoinBlank | xcelgrad_tech.py:24 | a join with a blank separator is blank exactly when every part is blank |
| PyStr.JoinAvoids | xcelgrad_sales.py:54 | a character absent from the parts and from the separator is absent from the join |
| PyStr.BlankConcat | xcelgrad_tech.py:174 | a concatenation is blank exactly when both halves are |
| PyStr.NonBlankStripped | xcelgrad_tech.py:59 | `[l.strip() for l in parts if l.strip()]` holds only non-blank stripped lines, no more than there are parts |
| PyStr.NonBlankStrippedEmpty | xcelgrad_tech.py:59-60 | that list is empty exactly when every part is blank |
| PyStr.NonBlankStrippedFrom | xcelgrad_tech.py:59 | every line of that list is the stripped form of some part |
| PyStr.SplitOnSubstrings | xcelgrad_tech.py:59 | every part of `split(c)` is a piece of the string |
| PyStr.StrippedLinesSpec | xcelgrad_tech.py:59-61 | the stripped non-blank lines of a text are non-empty, stripped pieces of the text, and there are none exactly when the text is blank |
| PyStr.ReplaceChar | xcelgrad_sales.py:52 | `replace(a, b)` for one character: each `a` becomes `b`, nothing else changes |
| PyStr.RemoveChar | xcelgrad_tech.py:64 | `replace('.', '')` leaves no `.` and adds no character |
| PyStr.RFind | xcelgrad_sales.py:51 | the last position of a character, or -1, with no later occurrence |
| Regex.Run | xcelgrad_tech.py:74 | a greedy character-class repeat takes a maximal run within its cap |
| Regex.EndsAccepts | xcelgrad_tech.py:96 | the ends of a backtracking match from a position are exactly the ends the relational semantics accepts |
| Regex.AcceptsSeqElim | xcelgrad_tech.py:74 | a match of a sequence of parts splits into consecutive matches of the parts |
| Regex.AcceptsSeqIntro | xcelgrad_tech.py:74 | consecutive matches of the parts make a match of the sequence |
| Regex.CatStarFirst | xcelgrad_tech.py:107 | the first match of `A[^...]*` is the first match of `A` extended by the longest run of the class |
| Regex.CatStarStops | xcelgrad_tech.py:107 | that first match stops before a character outside the class |
| Regex.SearchFrom | xcelgrad_tech.py:96 | `re.search`: the leftmost start with a match, and its first-priority end |
| Regex.SearchSpec | xcelgrad_tech.py:96 | a pattern is found exactly when some span matches, and the match found starts before no other matching span |
| Regex.FirstMatchSpec | xcelgrad_tech.py:75-76 | `re.findall(...)[0]` is the text of a leftmost match |
| Regex.AcceptedFound | xcelgrad_tech.py:164 | any matching span makes the pattern found |
| Regex.FoundLit | xcelgrad_sales.py:130 | an escaped literal is found exactly when it occurs somewhere in the text, in any case under `re.I` |
| Regex.WordAccepts | xcelgrad_tech.py:162 | `\bw\b` matches a span exactly when `w` occurs there as a whole word |
| Regex.FoundWord | xcelgrad_tech.py:162 | `\bw\b` is found exactly when `w` occurs somewhere as a whole word |
| Regex.SearchWord | xcelgrad_tech.py:96-98 | the match of `\bw\b` starts at the first whole-word occurrence, and there is none when the search fails |
| Regex.AltsElim | xcelgrad_tech.py:101 | a match of an alternation is a match of one of its branches |
| Regex.AltsIntro | xcelgrad_tech.py:101 | a match of any branch is a match of the alternation |
| Regex.AltsFirst | xcelgrad_tech.py:107-108 | the first-priority end of an alternation is that of its first branch with a match there |
| Regex.LitsAtAccepted | xcelgrad_tech.py:107 | an occurrence of a word, in any case, matches `(w0[^stops]*...)` up to its own end |
| Regex.AcceptedToStop | xcelgrad_tech.py:107 | a match of `(w0[^stops]*...)` starts with an occurrence of one of the words and holds no stop character |
| Regex.WordsToStopStart | xcelgrad_tech.py:107 | such a match starts with a letter when every word does |
| Regex.WordsToStopSearch | xcelgrad_tech.py:107-109 | searching for `(w0[^stops]*...)` ignoring case finds a match exactly when some word occurs, and the match runs from the leftmost occurrence of any word up to the first stop character or the end |
| Regex.AnyFoundSpec | xcelgrad_tech.py:163-166 | `any(re.search(p, t, re.I) for p in ps)` holds exactly when some pattern of the list is found |
| Regex.AnyWordFound | xcelgrad_sales.py:85-86 | over the `\bw\b` patterns of a word list, it holds exactly when some word occurs as a whole word |
| Documents.RowLineSpec | xcelgrad_tech.py:40-42 | a table row gives no cell text exactly when all its cells are blank; otherwise its joined line is not blank |
| Documents.PageLines | xcelgrad_tech.py:19-23 | one line per page: its text, or "" for a page without text or whose extraction fails |
| Documents.AppendRowLines | xcelgrad_tech.py:39-42 | the row loop appends the line of each row with a non-blank cell, in order |
| Documents.AppendTableLines | xcelgrad_tech.py:38-42 | the table loop appends the row lines of each table, in order |
| Documents.RowPartsSpec | xcelgrad_tech.py:39-42 | the row lines are non-blank; there are none exactly when every cell is blank; they hold no newline when the cells hold none |
| Documents.TablePartsSpec | xcelgrad_tech.py:38-42 | the same over all tables |
| Documents.KindOf | xcelgrad_tech.py:47-53 | PDF exactly when the lower-cased name ends in `.pdf`, DOCX exactly when it ends in `.docx` |
| Documents.KindExamples | xcelgrad_tech.py:47-53 | `CV.PDF` is read as a PDF; `resume.doc` is not supported |
| Labels.DisplayFormSpec | xcelgrad_tech.py:128-131 | the display form keeps the length, the lower-cased form and the white space; it keeps a stripped label stripped and is idempotent |
| Labels.Key | xcelgrad_tech.py:122-125 | the dedup key `strip().lower()` has the stripped length and is empty exactly when the label is blank |
| Labels.KeyOfDisplayForm | xcelgrad_sales.py:98-101 | showing a label does not change its key |
| Labels.AcronymsKept | xcelgrad_tech.py:128-129 | "SALES" and "IT" are kept as written |
| Labels.MixedCaseTitled | xcelgrad_tech.py:130-131 | "B2b" becomes "B2B" and "HoReCa" becomes "Horeca" |
| Labels.LongCapitalsTitled | xcelgrad_tech.py:128-131 | "TELECOM", being longer than five, becomes "Telecom" |
| LabelDedup.DedupStep | xcelgrad_tech.py:121-132 | one loop step: the seen set gains the key of a non-blank label; the result grows by its display form exactly when the key is new |
| LabelDedup.SeenKeysHas | xcelgrad_tech.py:126-127 | a key is seen exactly when some label has it |
| LabelDedup.FirstSeenMeans | xcelgrad_tech.py:122-126 | a label is kept exactly when it is non-blank and no earlier label has its key |
| LabelDedup.FirstSeenPositionsSpec | xcelgrad_tech.py:121-132 | the kept positions are increasing and are exactly the first-seen positions |
| LabelDedup.DedupFirstSeen | xcelgrad_tech.py:121-132 | the result shows, in order, the label at each first-seen position |
| LabelDedup.DedupKeys | xcelgrad_tech.py:121-132 | when showing keeps the key, every entry has a non-empty key, no two entries share a key, and each seen key has an entry |
| LabelDedup.DedupFixedPoint | xcelgrad_tech.py:121-132 | a list of shown entries with distinct non-empty keys is its own deduplication |
| LabelDedup.DedupIdempotent | xcelgrad_tech.py:117-133 | deduplicating twice is deduplicating once, when showing keeps the key and is idempotent |
| Records.Filled | xcelgrad_tech.py:189-190 | the skill loop adds one column per skill holding its flag and keeps the other columns |
| Records.FillFlags | xcelgrad_tech.py:189-190 | the loop `data[skill] = ...` computes `Filled` |
| Records.Capped | xcelgrad_tech.py:253-255 | at most the first 100 uploads, in order |
| Records.CountFlagged | xcelgrad_tech.py:327 | a label's count is at most the number of records |
| Records.SkillCounts | xcelgrad_tech.py:325-328 | the count loop computes `Counts` |
| Records.CountsSpec | xcelgrad_tech.py:325-328 | one count per label, each the number of records whose column is 1, never more than the number of records |
| Records.CountFlaggedSpec | xcelgrad_tech.py:327 | the count is the number of records flagged 1 for the label |
| Records.Kept | xcelgrad_tech.py:298-300 | at most one record per upload |
| Records.KeptStep | xcelgrad_tech.py:298-300 | one loop step appends the record of the upload, when it gives one |
| Records.KeptSpec | xcelgrad_tech.py:294-300 | the records are those of the uploads that give one, each at most once, in upload order |
| TechText.ExtractTextFromPdf | xcelgrad_tech.py:12-24 | the page loop computes the newline join of the page lines, or "" for an unreadable file |
| TechText.PdfLinesRecovered | xcelgrad_tech.py:18-24 | for pages without newlines, splitting the text on newlines gives back one line per page |
| TechText.PdfTextBlank | xcelgrad_tech.py:12-24 | the PDF text is blank exactly when the file is unreadable or every readable page text is blank |
| TechText.ParagraphParts | xcelgrad_tech.py:34-36 | the kept paragraphs are exactly the non-empty ones |
| TechText.ParagraphStep | xcelgrad_tech.py:34-36 | one paragraph step appends the paragraph when it is not empty |
| TechText.ExtractTextFromDocx | xcelgrad_tech.py:26-43 | the paragraph and table loops compute the newline join of the parts, or "" for an unreadable file |
| TechText.DocxTextBlank | xcelgrad_tech.py:32-43 | the DOCX text is blank exactly when every paragraph and every cell is blank |
| TechText.DocxLinesRecovered | xcelgrad_tech.py:32-43 | for parts without newlines, splitting the text on newlines gives back the parts |
| TechText.UploadText | xcelgrad_tech.py:45-53 | an unsupported extension gives ""; otherwise the PDF or DOCX text by extension |
| TechText.ExtractTextFromUpload | xcelgrad_tech.py:45-53 | the dispatch method computes `UploadText` |
| TechFields.DropMatch | xcelgrad_tech.py:62 | removing an anchored match leaves a suffix of the line |
| TechFields.DropMatchStar | xcelgrad_tech.py:62 | after removing `A[\s:]*`, the rest does not start with a character of the class |
| TechFields.DropLabel | xcelgrad_tech.py:62 | removing the resume/curriculum vitae/cv label leaves a suffix of the line |
| TechFields.DropLabelRest | xcelgrad_tech.py:62 | when a label was removed, the rest starts with neither white space nor ':' |
| TechFields.DropLabelCv | xcelgrad_tech.py:62 | a line starting with "cv", in any case, loses at least two characters |
| TechFields.ExtractName | xcelgrad_tech.py:58-71 | a name longer than 50 characters passes the name test: the 50-character cut applies only to a failing line |
| TechFields.ExtractNameBlank | xcelgrad_tech.py:59-61 | a blank text gives "" |
| TechFields.ExtractNameInText | xcelgrad_tech.py:58-71 | the name is a piece of the text |
| TechFields.ExtractNameStart | xcelgrad_tech.py:58-71 | the name does not start with white space |
| TechFields.EmailHasAt | xcelgrad_tech.py:74 | every match of the e-mail pattern holds '@' |
| TechFields.ExtractEmailSpec | xcelgrad_tech.py:73-76 | "" exactly when nothing matches; otherwise the leftmost match, which holds '@' and occurs in the text |
| TechFields.EmailBarHead | xcelgrad_tech.py:74 | in the seven-character text x@y.c, bar, m, the boundary, local part, '@' and domain match in turn |
| TechFields.EmailBarTail | xcelgrad_tech.py:74 | in that text the '.', the top-level part (c, bar, m) and the closing boundary match in turn |
| TechFields.EmailAdmitsBar | xcelgrad_tech.py:74 | the top-level class also admits the bar character, so that text is matched whole |
| TechFields.ExtractPhone | xcelgrad_tech.py:78-89 | the loop over the patterns returns the first match of the first pattern that matches, or "" |
| TechFields.TenDigitsPhone2 | xcelgrad_tech.py:81 | ten digits in a row match the second pattern |
| TechFields.Phone3Phone2 | xcelgrad_tech.py:81-82 | a text matching the third pattern also contains a match of the second |
| TechFields.Phone4Phone2 | xcelgrad_tech.py:81-83 | every match of the fourth pattern is a match of the second |
| TechFields.PhoneFromFirstTwo | xcelgrad_tech.py:79-89 | the result is that of pattern 1, else of pattern 2, else ""; patterns 3 and 4 never decide it |
| TechFields.DigitCountConcat | xcelgrad_tech.py:80-81 | digit counts add up over a concatenation |
| TechFields.DigitsCount | xcelgrad_tech.py:80 | a match of `\d{lo,hi}` holds at least `lo` digits |
| TechFields.Phone1Digits | xcelgrad_tech.py:80 | a match of the first pattern holds at least 11 digits |
| TechFields.Phone2Digits | xcelgrad_tech.py:81 | a match of the second pattern holds at least 10 digits |
| TechFields.PhoneSpec | xcelgrad_tech.py:78-89 | a phone found is a piece of the text with at least 10 digits |
| TechFields.HeaderStart | xcelgrad_tech.py:93-99 | -1, or a position in the text |
| TechFields.HeaderStartSpec | xcelgrad_tech.py:93-99 | -1 exactly when no keyword occurs as a whole word; otherwise the first whole-word position of the first keyword in list order that occurs, whatever the text position of the others |
| TechFields.ExtractEducation | xcelgrad_tech.py:91-112 | the keyword loop with `break` computes `Education` |
| TechFields.BareDegreeAccepts | xcelgrad_tech.py:101 | a match of the degree alternation is one of the degree names as a whole word |
| TechFields.BareDegreeIntro | xcelgrad_tech.py:101 | each degree name as a whole word matches the alternation |
| TechFields.BareDegreeSpec | xcelgrad_tech.py:100-105 | without a header: "" exactly when no degree name occurs as a whole word; otherwise the name at the leftmost whole-word occurrence of any degree name, upper-cased |
| TechFields.DegreeMatchStart | xcelgrad_tech.py:107-108 | a degree match is non-empty and starts with a letter |
| TechFields.DegreeNamesStartLetter | xcelgrad_tech.py:107 | every degree name of the header pattern starts with a letter |
| TechFields.DegreeNamesNoStops | xcelgrad_tech.py:107 | no degree name holds ',' or a newline, and neither of those is a letter |
| TechFields.DegreePieceSpec | xcelgrad_tech.py:108-110 | when a degree name is found, the trimmed match is a non-empty piece of the window |
| TechFields.LineFallbackSpec | xcelgrad_tech.py:111-112 | the line fallback is a line of the window, and "" exactly when the window is blank |
| TechFields.WindowEducationSpec | xcelgrad_tech.py:108-112 | within the 500-character window, the result is a piece of the window, and "" exactly when the window is blank |
| TechFields.WindowEducationChoice | xcelgrad_tech.py:107-112 | when a degree name occurs in the window in any case, the result is the trimmed piece from the leftmost such occurrence up to the first ',' or newline, or to the end of the window; when none occurs, the second non-blank line, else the first, else "" |
| TechFields.HeaderWordsStartLetter | xcelgrad_tech.py:92 | every header keyword starts with a letter |
| TechFields.HeaderWindowNotBlank | xcelgrad_tech.py:96-106 | the window after a header starts with the header word, so it is not blank |
| TechFields.EducationSpec | xcelgrad_tech.py:91-112 | with a header: a non-empty piece of the 500 characters from the header on, namely the trimmed degree piece from the leftmost degree name when one occurs there, else the second non-blank line, else the first; without one: "" exactly when no degree name occurs as a whole word, else the leftmost one upper-cased |
| TechSkills.NormalizeSkillList | xcelgrad_tech.py:117-133 | the loop with its seen set computes `Normalized` |
| TechSkills.ShownSpec | xcelgrad_tech.py:122-132 | the displayed form of a trimmed label keeps its key, is idempotent and is stripped |
| TechSkills.NormalizedShape | xcelgrad_tech.py:117-133 | no entry is blank; every entry is stripped and in display form; no two entries are equal ignoring case; one entry per key of a non-blank label |
| TechSkills.NormalizedFirstSeen | xcelgrad_tech.py:117-133 | in input order, the trimmed display form of each non-blank label whose key no earlier label has |
| TechSkills.NormalizedIdempotent | xcelgrad_tech.py:117-133 | normalising a normalised list changes nothing |
| TechSkills.CheckSkillPresent | xcelgrad_tech.py:158-166 | 0 or 1; 0 for an empty text or label; otherwise 1 exactly when some pattern of the label is found |
| TechSkills.CheckFallback | xcelgrad_tech.py:162 | a label that is not a catalog key is found exactly when its lower-cased form occurs as a whole word |
| TechSkills.SkillsToCheckMissCatalog | xcelgrad_tech.py:207-231 | "SALES", "Horeca", "Telecom", "Insurance", "Fintech", "B2B" and "Ecommerce" are no catalog keys |
| TechSkills.SkillsToCheckInCatalog | xcelgrad_tech.py:135-156 | every other checked label is a catalog key |
| TechPipeline.ProcessSingleResume | xcelgrad_tech.py:171-192 | computes `Record`: None for a blank text, else the fixed columns filled with one flag per skill |
| TechPipeline.RecordNone | xcelgrad_tech.py:173-175 | None exactly when the text is blank, in particular for an unsupported extension |
| TechPipeline.RecordRowKeys | xcelgrad_tech.py:181-190 | the columns are the five fixed ones plus one per skill, each skill column 0 or 1 |
| TechPipeline.RecordRowFixed | xcelgrad_tech.py:176-187 | each fixed column no skill shadows holds its extractor's result |
| TechPipeline.CollectRecords | xcelgrad_tech.py:294-305 | the loop appends the records in order, skipping blank texts and uploads that raise |
| TechPipeline.ProcessUploads | xcelgrad_tech.py:286-328 | the batch computes `BatchSummary`: no files, no records, or the records, the failure count and the per-label counts |
| TechPipeline.BatchRowsSpec | xcelgrad_tech.py:294-305 | the records are those of the first 100 uploads that neither raise nor have a blank text, in upload order |
| TechPipeline.BatchSummarySpec | xcelgrad_tech.py:286-328 | the run stops with an error exactly when no file was uploaded; at most 100 records; failed = files − records ≥ 0; one count per label, each at most the number of records; no records exactly when files were uploaded and each of the first 100 raises or is blank |
| SalesText.PdfTextAgainstTech | xcelgrad_sales.py:15-21 | with no failing page the PDF text equals the tech variant's; a failing page makes it ""; the tech variant keeps the other pages |
| SalesText.KeptParagraphsSpec | xcelgrad_sales.py:27 | the kept paragraphs are exactly the non-blank ones |
| SalesText.ExtractTextFromDocx | xcelgrad_sales.py:24-35 | the table loop computes `DocxText` |
| SalesText.DocxTextBlank | xcelgrad_sales.py:24-35 | the DOCX text is never blank without being empty, and it is empty exactly when every paragraph and every cell is blank |
| SalesText.DocxBlankAgainstTech | xcelgrad_sales.py:24-35 | blank exactly when the tech variant's DOCX text is blank |
| SalesText.DocxLinesRecovered | xcelgrad_sales.py:24-35 | for parts without newlines, splitting the text on newlines gives back the parts |
| SalesText.UploadText | xcelgrad_sales.py:38-44 | "" for an unsupported extension, else the PDF or DOCX text by extension |
| SalesFields.NameText | xcelgrad_sales.py:51-52 | the extension-less name holds no '_' and no '-' |
| SalesFields.CapitalizeAll | xcelgrad_sales.py:54 | each word capitalised, in order |
| SalesFields.CapitalizeAvoids | xcelgrad_sales.py:54 | capitalising adds no non-letter |
| SalesFields.JoinSingleSpaced | xcelgrad_sales.py:54 | non-empty space-free words joined by one space are single-spaced |
| SalesFields.CapitalizedWords | xcelgrad_sales.py:52-54 | every capitalised word is non-empty and holds no space, '_' or '-' |
| SalesFields.ExtractNameFromFilenameSpec | xcelgrad_sales.py:50-54 | non-empty for a non-empty file name; the file name itself exactly when no word remains; else free of '_' and '-', single-spaced, and split on spaces into the capitalised words |
| SalesFields.IsInternshipEntrySpec | xcelgrad_sales.py:84-86 | an internship exactly when intern, internship, trainee or training occurs as a whole word, in any case |
| SalesFields.OneWordText | xcelgrad_sales.py:85 | in a text of word characters, a whole word is the whole text |
| SalesFields.OneWordHasWord | xcelgrad_sales.py:85-86 | such a text holds one of some lower-case words as a whole word exactly when, lower-cased, it is one of them |
| SalesFields.InternshipWordsLower | xcelgrad_sales.py:85 | the marker words are non-empty and lower-case |
| SalesFields.OneWordEntry | xcelgrad_sales.py:84-86 | a single word is an internship entry exactly when, lower-cased, it is a marker word |
| SalesFields.InternalExample | xcelgrad_sales.py:85-86 | "internal" is not an internship entry |
| SalesFields.InternshipsExample | xcelgrad_sales.py:85-86 | "internships" is not an internship entry |
| SalesFields.InternExample | xcelgrad_sales.py:85-86 | "Intern" is an internship entry |
| SalesSkills.NormalizeSkillList | xcelgrad_sales.py:94-102 | the loop with its seen set computes `Normalized` |
| SalesSkills.DisplayFormKeeps | xcelgrad_sales.py:98-101 | the display form keeps the key and is idempotent |
| SalesSkills.NormalizedShape | xcelgrad_sales.py:94-102 | no entry is blank; every entry is in display form; no two entries share a key; one entry per key of a non-blank label |
| SalesSkills.NormalizedFirstSeen | xcelgrad_sales.py:94-102 | in input order, the display form of each first-seen non-blank label, untrimmed: same length and white space as the label |
| SalesSkills.NormalizedIdempotent | xcelgrad_sales.py:94-102 | normalising a normalised list changes nothing |
| SalesSkills.NormalizedAgainstTech | xcelgrad_sales.py:94-102 | both variants keep the same positions with the same keys; they differ only for labels with surrounding white space |
| SalesSkills.PaddedLabels | xcelgrad_sales.py:101 | " IT " is kept with its padding; " SALES", six characters long, becomes " Sales" |
| SalesSkills.CheckSkillPresent | xcelgrad_sales.py:129-131 | 0 or 1; 1 exactly when some pattern of the label is found |
| SalesSkills.CheckFallback | xcelgrad_sales.py:130 | a label that is not a catalog key is found exactly when its lower-cased form occurs anywhere, even inside a word |
| SalesSkills.EmptyLabelPresent | xcelgrad_sales.py:129-131 | the empty label is always present, while the tech variant reports it absent |
| SalesSkills.SkillsToCheckCatalog | xcelgrad_sales.py:170-176 | of the checked labels only "Horeca" is no catalog key |
| SalesPipeline.ExtractEmail | xcelgrad_sales.py:57-65 | None exactly when the text is non-empty |
| SalesPipeline.ProcessSingleResume | xcelgrad_sales.py:134-152 | computes `Record`: None for a blank text, else the seven fixed columns filled with one flag per skill |
| SalesPipeline.RecordNone | xcelgrad_sales.py:135-137 | None exactly when the text is blank, in particular for an unsupported extension |
| SalesPipeline.RecordRowKeys | xcelgrad_sales.py:139-150 | the columns are the seven fixed ones plus one per skill, each skill column 0 or 1 |
| SalesPipeline.RecordRowFixed | xcelgrad_sales.py:139-147 | Filename and Name hold the file name and the name read off it; the other fixed columns hold None |
| SalesPipeline.RecordNameOnly | xcelgrad_sales.py:139-147 | the fixed columns depend on the file name only |
| SalesPipeline.FaultsStep | xcelgrad_sales.py:203-205 | a longer prefix has a raising upload exactly when the shorter one has or the new upload raises |
| SalesPipeline.CollectRecords | xcelgrad_sales.py:201-208 | the loop appends the records in order, and an upload that raises ends the run |
| SalesPipeline.ProcessUploads | xcelgrad_sales.py:185-210 | the batch computes `BatchOutcome` |
| SalesPipeline.BatchOutcomeSpec | xcelgrad_sales.py:185-210 | no files exactly when none were uploaded; aborted exactly when one of the first 100 raises; no data exactly when none raises and all have a blank text |
| SalesPipeline.BatchRecordsSpec | xcelgrad_sales.py:201-208 | the records of a completed run are those of the first 100 uploads with a non-blank text, in upload order, at most 100 |

## Left out

- The Streamlit user interface is not modelled: page layout, buttons, progress bars, messages, metrics and the download button. Only the data each batch loop computes is modelled, as a result value.
- `streamlit_app.py`, the mode switch between the two variants, is not part of this model.
- The PDF and DOCX libraries are foreign code. What they give for an upload is an input: an unreadable file, or pages (text, no text, or an extraction error), or paragraphs and tables of cell texts. Reading the bytes is not modelled.
- `generate_excel_from_data` (pandas and openpyxl serialisation) is left out, and so is the timestamped download file name in the sales variant, which needs the clock.
- The percentages in the tech statistics are floating point and are left out; the integer counts are modelled.
- Strings are sequences of characters, and `lower`, `upper`, `title`, `capitalize`, `isupper`, `isalpha`, `strip` and `\s`, `\w`, `\b` follow their ASCII behaviour. Unicode case mapping and Unicode white space are not modelled.
- The regular-expression engine covers only the constructs the patterns use. Python's `re` module as a whole is not modelled.
- The column order of a record dict and of the spreadsheet is not modelled: a record is a map from column to value.
- Exceptions are modelled as a per-upload flag saying that processing that upload raises.
  - In the tech variant the `except` around each upload counts it as failed.
  - In the sales variant nothing catches the exception, so the run ends (`Aborted`).
- The stubbed sales extractors (`extract_phone`, `extract_education`, `extract_location`, `extract_total_experience`) return None; their columns hold `Null`. The sales `extract_email` returns "" for an empty text and None otherwise.
- The sales `if data:` test is modelled as "a record was returned": a returned record always has its seven fixed columns, so it is never an empty dict.
- TechSkills.SkillsToCheck and SalesSkills.SkillsToCheck are written out as the normalised label lists. That `Normalized(RawSkills)` equals them is not proved: evaluating the normalisation on the concrete 20- and 21-label lists is beyond what the verifier handles within its limits. The display forms of "SALES", "IT", "B2b", "HoReCa" and "TELECOM" are proved one by one.
- SalesFields.ExtractNameFromFilenameSpec: no concrete file name is evaluated, for the same reason; the general properties are proved instead.
- TechFields.ExtractName: the name test's outcome on a given line is not restated as a lemma; the contracts state the blank case, that the name is a piece of the text and starts with no white space, and that a name longer than 50 characters passes the name test.
- TechFields.ExtractEmailSpec: the e-mail pattern is matched by the model's engine on ASCII; `re.findall` with a pattern without groups returns whole matches, and only the first one is used, which is what is modelled.
