/**
 * The sales pipeline end to end: one record per resume, named after its
 * file, with the columns whose extractors are stubs left empty and a 0/1
 * column per industry, and the batch loop of `main`, which has no error
 * handling around a resume.
 */
module SalesPipeline {
  import opened Base
  import opened PyStr
  import opened Documents
  import opened Records
  import opened SalesText
  import opened SalesFields
  import opened SalesSkills

  /** The fixed columns of a record. */
  const FixedKeys: set<string> := {"Filename", "Name", "Email", "Phone Number", "Education",
                                   "Location", "Total Years of Work Experience"}

  /** `extract_email`: "" for an empty text; for any other text the body
      ends without a return, which gives None. */
  function ExtractEmail(text: string): (v: Value)
    ensures v == Null <==> text != []
  {
    if text == [] then Text([]) else Null
  }

  /** The skill flag for one label in the given text. */
  function SkillFlag(text: string): string -> int {
    s => CheckSkillPresent(text, s)
  }

  /** The value of a fixed column: the file name, the name read off it,
      or what the stubbed extractors give (`extract_phone`,
      `extract_education`, `extract_location` and `extract_total_experience`
      are `pass`, so None). */
  function FieldValue(key: string, filename: string, text: string): Value {
    if key == "Filename" then Text(filename)
    else if key == "Name" then Text(ExtractNameFromFilename(filename))
    else if key == "Email" then ExtractEmail(text)
    else Null
  }

  /** The fixed columns, from the file name and the text. */
  function Fields(filename: string, text: string): (r: Row)
    ensures r.Keys == FixedKeys
  {
    map k | k in FixedKeys :: FieldValue(k, filename, text)
  }

  /** The record of a non-blank text: the fixed columns, then one flag
      per skill. */
  function RecordRow(filename: string, text: string, skills: seq<string>): Row {
    Filled(Fields(filename, text), skills, SkillFlag(text))
  }

  /** What `process_single_resume` returns: None for a blank text, else the
      record. */
  function Record(u: Upload, skills: seq<string>): Option<Row> {
    var text := UploadText(u);
    if IsBlank(text) then None else Some(RecordRow(u.name, text, skills))
  }

  /** `process_single_resume` */
  method ProcessSingleResume(u: Upload, skills: seq<string>) returns (data: Option<Row>)
    ensures data == Record(u, skills)
  {
    var text := UploadText(u);
    StripSpec(text);
    if Strip(text) == [] {
      return None;
    }
    var fields: Row := map k | k in FixedKeys :: FieldValue(k, u.name, text);
    var row := FillFlags(fields, skills, SkillFlag(text));
    return Some(row);
  }

  /** `process_single_resume` gives None exactly when the text is blank,
      in particular for a file that is neither .pdf nor .docx. */
  lemma RecordNone(u: Upload, skills: seq<string>)
    ensures Record(u, skills).None? <==> IsBlank(UploadText(u))
    ensures KindOf(u.name) == Unsupported ==> Record(u, skills).None?
  {
  }

  /** A record has the seven fixed columns and one 0/1 column per skill. */
  lemma RecordRowKeys(filename: string, text: string, skills: seq<string>)
    ensures var r := RecordRow(filename, text, skills);
      r.Keys == FixedKeys + (set s | s in skills) &&
      forall s :: s in skills ==> r[s] == Flag(0) || r[s] == Flag(1)
  {
    forall s | s in skills ensures SkillFlag(text)(s) == 0 || SkillFlag(text)(s) == 1 {
      assert SkillFlag(text)(s) == CheckSkillPresent(text, s);
    }
  }

  /** A fixed column that no skill shadows holds the file name, the name
      read off the file name alone, or None. */
  lemma RecordRowFixed(filename: string, text: string, skills: seq<string>)
    requires !IsBlank(text)
    ensures var r := RecordRow(filename, text, skills);
      ("Filename" !in skills ==> r["Filename"] == Text(filename)) &&
      ("Name" !in skills ==> r["Name"] == Text(ExtractNameFromFilename(filename))) &&
      forall k :: k in FixedKeys && k != "Filename" && k != "Name" && k !in skills ==> r[k] == Null
  {
    assert text != [];
  }

  /** The columns other than the skills' depend on the file name only. */
  lemma RecordNameOnly(filename: string, a: string, b: string, skills: seq<string>)
    requires !IsBlank(a) && !IsBlank(b)
    ensures forall k :: k in FixedKeys && k !in skills ==>
      RecordRow(filename, a, skills)[k] == RecordRow(filename, b, skills)[k]
  {
    RecordRowFixed(filename, a, skills);
    RecordRowFixed(filename, b, skills);
  }

  // ---------------------------------------------------------------------
  // The batch loop of `main`
  // ---------------------------------------------------------------------

  /** What `main` ends with: an error when no file was uploaded, an error
      escaping the run when processing some resume raises one, an error
      when no record was extracted, or the records. */
  datatype Outcome = NoFiles | Aborted | NoData | Results(records: seq<Row>)

  /** One iteration of the batch loop: the record of an upload, or None. */
  function Attempt(skills: seq<string>): Upload -> Option<Row> {
    (u: Upload) => Record(u, skills)
  }

  /** Some upload raises an error while it is processed. */
  predicate SomeFaults(files: seq<Upload>) {
    exists j :: 0 <= j < |files| && files[j].faults
  }

  /** One step of the loop: a prefix one longer has a faulting upload when
      the shorter one has or the new upload faults; and a fault anywhere
      is a fault of the whole list. */
  lemma FaultsStep(files: seq<Upload>, i: nat)
    requires i < |files|
    ensures SomeFaults(files[..i + 1]) <==> SomeFaults(files[..i]) || files[i].faults
    ensures files[i].faults ==> SomeFaults(files)
  {
    if SomeFaults(files[..i + 1]) {
      var j :| 0 <= j < i + 1 && files[..i + 1][j].faults;
      if j < i {
        assert files[..i][j].faults;
      }
    }
    if SomeFaults(files[..i]) {
      var j :| 0 <= j < i && files[..i][j].faults;
      assert files[..i + 1][j].faults;
    }
    if files[i].faults {
      assert files[..i + 1][i].faults;
    }
  }

  /** The outcome of processing a batch of uploads. */
  function BatchOutcome(uploads: seq<Upload>, skills: seq<string>): Outcome {
    var files := Capped(uploads);
    if files == [] then NoFiles
    else if SomeFaults(files) then Aborted
    else
      var rows := Kept(files, Attempt(skills));
      if rows == [] then NoData else Results(rows)
  }

  /** What the loop over the files ends with: None when some file raises
      an error, else the records of the files that give one, in order. */
  function Collected(files: seq<Upload>, skills: seq<string>): Option<seq<Row>> {
    if SomeFaults(files) then None else Some(Kept(files, Attempt(skills)))
  }

  /** The loop over the files in `main`, in order: each record is appended;
      an error raised while processing a resume ends the run. */
  method CollectRecords(files: seq<Upload>, skills: seq<string>) returns (results: Option<seq<Row>>)
    ensures results == Collected(files, skills)
  {
    var rows: seq<Row> := [];
    for i := 0 to |files|
      invariant rows == Kept(files[..i], Attempt(skills))
      invariant !SomeFaults(files[..i])
    {
      KeptStep(files, Attempt(skills), i);
      FaultsStep(files, i);
      if files[i].faults {
        return None;
      }
      var data := ProcessSingleResume(files[i], skills);
      if data.Some? {
        rows := rows + [data.value];
      }
    }
    assert files[..|files|] == files;
    return Some(rows);
  }

  /** The batch part of `main`: only the first 100 uploads are processed. */
  method ProcessUploads(uploads: seq<Upload>, skills: seq<string>) returns (outcome: Outcome)
    ensures outcome == BatchOutcome(uploads, skills)
  {
    var files := uploads;
    if |files| > 100 {
      files := files[..100];
    }
    if files == [] {
      return NoFiles;
    }
    var results := CollectRecords(files, skills);
    if results.None? {
      return Aborted;
    }
    if results.value == [] {
      return NoData;
    }
    return Results(results.value);
  }

  /** The run ends without records exactly when no file was uploaded, one
      of the first 100 uploads raises an error, or all of those uploads
      have a blank text. */
  lemma BatchOutcomeSpec(uploads: seq<Upload>, skills: seq<string>)
    ensures BatchOutcome(uploads, skills) == NoFiles <==> uploads == []
    ensures BatchOutcome(uploads, skills) == Aborted <==> uploads != [] && SomeFaults(Capped(uploads))
    ensures BatchOutcome(uploads, skills) == NoData <==>
      uploads != [] && !SomeFaults(Capped(uploads)) &&
      forall j :: 0 <= j < |Capped(uploads)| ==> IsBlank(UploadText(Capped(uploads)[j]))
  {
    var files := Capped(uploads);
    var idx := KeptSpec(files, Attempt(skills));
    forall j | 0 <= j < |files| ensures Attempt(skills)(files[j]).Some? <==> !IsBlank(UploadText(files[j])) {
      RecordNone(files[j], skills);
    }
    if Kept(files, Attempt(skills)) != [] {
      assert idx[0] in idx;
    }
  }

  /** The records of a run that completes are those of the uploads among
      the first 100 with a non-blank text, in upload order: `idx` lists
      their positions, increasing, and there are at most 100. */
  lemma BatchRecordsSpec(uploads: seq<Upload>, skills: seq<string>) returns (idx: seq<nat>)
    ensures var files := Capped(uploads);
      BatchOutcome(uploads, skills).Results? ==>
      var rows := BatchOutcome(uploads, skills).records;
      |rows| <= 100 && |idx| == |rows| &&
      (forall k :: 0 <= k < |idx| ==> idx[k] < |files| && Record(files[idx[k]], skills) == Some(rows[k])) &&
      (forall k, l :: 0 <= k < l < |idx| ==> idx[k] < idx[l]) &&
      forall j :: 0 <= j < |files| ==> (j in idx <==> !IsBlank(UploadText(files[j])))
  {
    var files := Capped(uploads);
    idx := KeptSpec(files, Attempt(skills));
    forall j | 0 <= j < |files| ensures Attempt(skills)(files[j]).Some? <==> !IsBlank(UploadText(files[j])) {
      RecordNone(files[j], skills);
    }
  }
}
