/**
 * The tech pipeline end to end: one record per resume with the extracted
 * fields and a 0/1 column per skill, and the batch loop that processes the
 * first 100 uploads, keeps the records in upload order and counts them.
 */
module TechPipeline {
  import opened Base
  import opened PyStr
  import opened Documents
  import opened Records
  import opened TechText
  import opened TechFields
  import opened TechSkills

  /** The fixed columns of a record. */
  const FixedKeys: set<string> := {"Filename", "Name", "Email", "Phone Number", "Education"}

  /** The skill flag for one label in the given text. */
  function SkillFlag(text: string): string -> int {
    s => CheckSkillPresent(text, s)
  }

  /** The fixed columns, from the file name and the text. */
  function Fields(filename: string, text: string): Row {
    map["Filename" := Text(filename), "Name" := Text(ExtractName(text)),
        "Email" := Text(ExtractEmail(text)), "Phone Number" := Text(FirstPatternMatch(text, PhonePatterns)),
        "Education" := Text(Education(text))]
  }

  /** The record of a non-blank text: the fixed columns, then one flag
      per skill. */
  function RecordRow(filename: string, text: string, skills: seq<string>): Row {
    Filled(Fields(filename, text), skills, SkillFlag(text))
  }

  /** What `process_single_resume` returns: None for a blank text, else the
      record. */
  function Record(u: Upload, skills: seq<string>): Option<Row> {
    var text := UploadText(u);
    if IsBlank(text) then None else Some(RecordRow(u.name, text, skills))
  }

  /** `process_single_resume` */
  method ProcessSingleResume(u: Upload, skills: seq<string>) returns (data: Option<Row>)
    ensures data == Record(u, skills)
  {
    var fullText := ExtractTextFromUpload(u);
    StripSpec(fullText);
    if Strip(fullText) == [] {
      return None;
    }
    var name := ExtractName(fullText);
    var email := ExtractEmail(fullText);
    var phone := ExtractPhone(fullText);
    var education := ExtractEducation(fullText);
    var fields: Row := map["Filename" := Text(u.name), "Name" := Text(name), "Email" := Text(email),
                           "Phone Number" := Text(phone), "Education" := Text(education)];
    var row := FillFlags(fields, skills, SkillFlag(fullText));
    return Some(row);
  }

  /** `process_single_resume` gives None exactly when the text is blank,
      in particular for a file that is neither .pdf nor .docx. */
  lemma RecordNone(u: Upload, skills: seq<string>)
    ensures Record(u, skills).None? <==> IsBlank(UploadText(u))
    ensures KindOf(u.name) == Unsupported ==> Record(u, skills).None?
  {
  }

  /** A record has the five fixed columns and one 0/1 column per skill. */
  lemma RecordRowKeys(filename: string, text: string, skills: seq<string>)
    ensures var r := RecordRow(filename, text, skills);
      r.Keys == FixedKeys + (set s | s in skills) &&
      forall s :: s in skills ==> r[s] == Flag(0) || r[s] == Flag(1)
  {
    assert Fields(filename, text).Keys == FixedKeys;
    forall s | s in skills ensures SkillFlag(text)(s) == 0 || SkillFlag(text)(s) == 1 {
      assert SkillFlag(text)(s) == CheckSkillPresent(text, s);
    }
  }

  /** A fixed column that no skill shadows holds its extractor's result on
      the text. */
  lemma RecordRowFixed(filename: string, text: string, skills: seq<string>)
    ensures var r := RecordRow(filename, text, skills);
      ("Filename" !in skills ==> r["Filename"] == Text(filename)) &&
      ("Name" !in skills ==> r["Name"] == Text(ExtractName(text))) &&
      ("Email" !in skills ==> r["Email"] == Text(ExtractEmail(text))) &&
      ("Phone Number" !in skills ==> r["Phone Number"] == Text(FirstPatternMatch(text, PhonePatterns))) &&
      ("Education" !in skills ==> r["Education"] == Text(Education(text)))
  {
    assert Fields(filename, text).Keys == FixedKeys;
  }

  // ---------------------------------------------------------------------
  // The batch loop of `main`
  // ---------------------------------------------------------------------

  /** One iteration of the batch loop: the record of an upload, or None
      when processing it raises an error (reported and skipped) or its text
      is blank. */
  function Attempt(skills: seq<string>): Upload -> Option<Row> {
    (u: Upload) => if u.faults then None else Record(u, skills)
  }

  /** The records of the uploads that give one, in upload order. */
  function BatchRows(us: seq<Upload>, skills: seq<string>): seq<Row> {
    Kept(us, Attempt(skills))
  }

  /** What the batch shows: an error when no file was uploaded, an error
      when no record was extracted, else the records, the number of files
      that failed and the per-skill counts. */
  datatype Summary = NoFiles | NoRecords | Processed(records: seq<Row>, failed: int, counts: map<string, nat>)

  /** The outcome of processing a batch of uploads. */
  function BatchSummary(uploads: seq<Upload>, skills: seq<string>): Summary {
    if uploads == [] then NoFiles
    else
      var files := Capped(uploads);
      var rows := BatchRows(files, skills);
      if rows == [] then NoRecords else Processed(rows, |files| - |rows|, Counts(rows, skills))
  }

  /** The loop over the uploads in `main`, in order: an upload whose
      processing raises an error is reported and skipped, one with blank
      text is reported and skipped, the others' records are appended. */
  method CollectRecords(files: seq<Upload>, skills: seq<string>) returns (allData: seq<Row>)
    ensures allData == BatchRows(files, skills)
  {
    allData := [];
    for idx := 0 to |files|
      invariant allData == BatchRows(files[..idx], skills)
    {
      KeptStep(files, Attempt(skills), idx);
      if files[idx].faults {
        continue;
      }
      var data := ProcessSingleResume(files[idx], skills);
      if data.Some? {
        allData := allData + [data.value];
      }
    }
    assert files[..|files|] == files;
  }

  /** The batch part of `main`: nothing is processed when no file was
      uploaded; otherwise only the first 100 uploads are processed, then
      the failures and the skill counts are computed, unless no record was
      extracted. */
  method ProcessUploads(uploads: seq<Upload>, skills: seq<string>) returns (summary: Summary)
    ensures summary == BatchSummary(uploads, skills)
  {
    var files := uploads;
    if |files| > 100 {
      files := files[..100];
    }
    if files == [] {
      return NoFiles;
    }
    var allData := CollectRecords(files, skills);
    if allData == [] {
      return NoRecords;
    }
    var counts := SkillCounts(allData, skills);
    summary := Processed(allData, |files| - |allData|, counts);
  }

  /** The records are those of the uploads among the first 100 that raise
      no error and have a non-blank text, in upload order: `idx` lists
      their positions, increasing. */
  lemma BatchRowsSpec(uploads: seq<Upload>, skills: seq<string>) returns (idx: seq<nat>)
    ensures var files, rows := Capped(uploads), BatchRows(Capped(uploads), skills);
      |idx| == |rows| &&
      (forall k :: 0 <= k < |idx| ==> idx[k] < |files| && Record(files[idx[k]], skills) == Some(rows[k])) &&
      (forall k, l :: 0 <= k < l < |idx| ==> idx[k] < idx[l]) &&
      forall j :: 0 <= j < |files| ==> (j in idx <==> !files[j].faults && !IsBlank(UploadText(files[j])))
  {
    var files := Capped(uploads);
    idx := KeptSpec(files, Attempt(skills));
    forall j | 0 <= j < |files| ensures Attempt(skills)(files[j]).Some? <==> !files[j].faults && !IsBlank(UploadText(files[j])) {
      RecordNone(files[j], skills);
    }
  }

  /** The summary: the run stops before the loop exactly when no file was
      uploaded; at most 100 files count, the failures are the files
      processed minus the records kept, and no skill is counted more often
      than there are records; no record is extracted exactly when files
      were uploaded and each of the first 100 raises or has a blank text. */
  lemma BatchSummarySpec(uploads: seq<Upload>, skills: seq<string>)
    ensures BatchSummary(uploads, skills).Processed? ==>
      var s, files := BatchSummary(uploads, skills), Capped(uploads);
      |s.records| <= |files| <= 100 && s.failed == |files| - |s.records| && s.failed >= 0 &&
      s.counts.Keys == (set k | k in skills) && forall k :: k in skills ==> s.counts[k] <= |s.records|
    ensures BatchSummary(uploads, skills).NoFiles? <==> uploads == []
    ensures BatchSummary(uploads, skills).NoRecords? <==>
      (uploads != [] &&
       forall j :: 0 <= j < |Capped(uploads)| ==> Capped(uploads)[j].faults || IsBlank(UploadText(Capped(uploads)[j])))
  {
    var files := Capped(uploads);
    var rows := BatchRows(files, skills);
    CountsSpec(rows, skills);
    var idx := BatchRowsSpec(uploads, skills);
    if rows != [] {
      assert idx[0] in idx;
    }
  }
}
