/** The analysis and export flow of the app (app.py): one result per
    uploaded resume whose text is not empty, ranked by overall score, shown
    as a ranking table and exported as CSV rows. The page's state is the
    results list kept between button presses. */
module Pipeline {
  import opened Strings
  import opened StableSort
  import JobSplitter
  import Scoring
  import Retrieval
  import Extraction

  /** An uploaded file: its name and the page contents its PDF loader
      returns, `None` when loading raised. */
  datatype Upload = Upload(name: string, pages: Option<seq<string>>)

  /** The external services: the text splitter, the embedding similarity of
      the job context to each chunk, and the LLM. */
  datatype Services = Services(
    split: string -> seq<string>,
    similarity: (string, seq<string>) -> Option<seq<real>>,
    llm: (string, JobSplitter.JobSections) -> Scoring.LlmOutcome)

  datatype SectionScores = SectionScores(education: nat, experience: nat, skills: nat)

  datatype ResumeResult = ResumeResult(
    name: string, overallScore: nat, sectionScores: SectionScores,
    report: string, contact: Extraction.Contacts)

  /** How many characters of the resume are scored when retrieval finds
      nothing. */
  const FallbackLength := 2000

  /** What the LLM is asked to score: the retrieved content, or the first
      2000 characters of the resume when retrieval returned "". */
  function ContentForScoring(text: string, relevant: string): string {
    if relevant == "" then Prefix(text, FallbackLength) else relevant
  }

  /** One iteration of the analysis loop: `None` for a file whose text is
      empty (it is skipped with a warning). */
  function Analyse(u: Upload, jobDesc: string, sections: JobSplitter.JobSections, svc: Services): Option<ResumeResult> {
    var text := Extraction.ExtractText(u.pages);
    if text == "" then None
    else
      var contact := Extraction.ExtractContacts(text);
      var relevant := Retrieval.RelevantResumeContent(text, jobDesc, svc.split, svc.similarity);
      var report := Scoring.AnalyzeResume(svc.llm(ContentForScoring(text, relevant), sections));
      var scores := Scoring.ParseScores(report);
      Some(ResumeResult(
        u.name, scores.overall,
        SectionScores(scores.education, scores.experience, scores.skills),
        report, contact))
  }

  /** `Analyse` with the job description, its sections and the services
      fixed: what the loop does with one uploaded file. */
  function AnalyseStep(jobDesc: string, sections: JobSplitter.JobSections, svc: Services): Upload -> Option<ResumeResult> {
    u => Analyse(u, jobDesc, sections, svc)
  }

  /** The results of the analysis loop over `uploads`, in upload order, for
      a given per-file step. */
  function Collected(uploads: seq<Upload>, step: Upload -> Option<ResumeResult>): seq<ResumeResult>
    decreases |uploads|
  {
    if uploads == [] then []
    else
      var previous := Collected(uploads[..|uploads| - 1], step);
      match step(uploads[|uploads| - 1])
      case None => previous
      case Some(r) => previous + [r]
  }

  /** Collecting over one more upload appends its result, if any. */
  lemma CollectedSnoc(uploads: seq<Upload>, u: Upload, step: Upload -> Option<ResumeResult>)
    ensures Collected(uploads + [u], step) ==
      Collected(uploads, step) + (if step(u).Some? then [step(u).value] else [])
  {
    assert (uploads + [u])[..|uploads|] == uploads;
  }

  /** The analysis loop: each file in turn, its result appended unless the
      step skips it. */
  method AnalyzeUploads(uploads: seq<Upload>, step: Upload -> Option<ResumeResult>)
    returns (results: seq<ResumeResult>)
    ensures results == Collected(uploads, step)
  {
    results := [];
    var idx := 0;
    while idx < |uploads|
      invariant 0 <= idx <= |uploads|
      invariant results == Collected(uploads[..idx], step)
    {
      var u := uploads[idx];
      var outcome := step(u);
      CollectedSnoc(uploads[..idx], u, step);
      if outcome.Some? {
        results := results + [outcome.value];
      }
      assert uploads[..idx + 1] == uploads[..idx] + [u];
      idx := idx + 1;
    }
    assert uploads[..idx] == uploads;
  }

  // -------------------------------------------------------------- ranking

  function OverallScores(results: seq<ResumeResult>): seq<real> {
    seq(|results|, k requires 0 <= k < |results| => results[k].overallScore as real)
  }

  /** `sorted(results, key=overall_score, reverse=True)`. */
  function Rank(results: seq<ResumeResult>): seq<ResumeResult> {
    Pick(results, SortDescending(OverallScores(results)))
  }

  /** The ranking is a rearrangement of the results (position `k` holds the
      result at position `order[k]`, `order` a permutation of the upload
      positions) in non-increasing overall score, equal scores in upload
      order. */
  lemma RankIsStableDescending(results: seq<ResumeResult>)
    ensures var order := SortDescending(OverallScores(results));
      var ranked := Rank(results);
      |ranked| == |results| && |order| == |results| &&
      (forall i :: 0 <= i < |results| ==> i in order) &&
      (forall k, l :: 0 <= k < l < |order| ==> order[k] != order[l]) &&
      (forall k :: 0 <= k < |ranked| ==> order[k] < |results| && ranked[k] == results[order[k]]) &&
      (forall k, l :: 0 <= k < l < |ranked| ==> ranked[k].overallScore >= ranked[l].overallScore) &&
      (forall k, l :: 0 <= k < l < |ranked| && ranked[k].overallScore == ranked[l].overallScore ==>
        order[k] < order[l])
  {
    var keys := OverallScores(results);
    var order := SortDescending(keys);
    forall k, l | 0 <= k < l < |order|
      ensures results[order[k]].overallScore >= results[order[l]].overallScore
      ensures results[order[k]].overallScore == results[order[l]].overallScore ==> order[k] < order[l]
    {
      assert Precedes(keys, order[k], order[l]);
    }
  }

  /** Any arrangement of the results by descending score with ties in
      upload order is the ranking. */
  lemma RankUnique(results: seq<ResumeResult>, order: seq<nat>)
    requires IsPermutation(OverallScores(results), order) && Sorted(OverallScores(results), order)
    ensures Pick(results, order) == Rank(results)
  {
    SortDescendingUnique(OverallScores(results), order);
  }

  // ---------------------------------------------------------- ranking rows

  datatype RankingRow = RankingRow(
    rank: nat, resume: string, overall: nat, education: nat, experience: nat, skills: nat)

  function RankingRowOf(rank: nat, r: ResumeResult): RankingRow {
    RankingRow(rank, r.name, r.overallScore,
      r.sectionScores.education, r.sectionScores.experience, r.sectionScores.skills)
  }

  /** The ranking table: one row per ranked result, ranks from 1. */
  function RankingTable(ranked: seq<ResumeResult>): seq<RankingRow> {
    seq(|ranked|, i requires 0 <= i < |ranked| => RankingRowOf(i + 1, ranked[i]))
  }

  /** The table's ranks are 1..n without gaps, in table order, each row
      copies its ranked result's name and scores, and the overall scores
      never increase down the table. */
  lemma RankingTableRanks(results: seq<ResumeResult>)
    ensures var ranked := Rank(results);
      var table := RankingTable(ranked);
      |table| == |results| &&
      (forall i :: 0 <= i < |table| ==>
        table[i].rank == i + 1 && table[i].resume == ranked[i].name &&
        table[i].overall == ranked[i].overallScore &&
        table[i].education == ranked[i].sectionScores.education &&
        table[i].experience == ranked[i].sectionScores.experience &&
        table[i].skills == ranked[i].sectionScores.skills) &&
      (forall i, j :: 0 <= i < j < |table| ==> table[i].overall >= table[j].overall)
  {
    RankIsStableDescending(results);
  }

  // ---------------------------------------------------------------- CSV

  const CsvHeader: seq<string> := [
    "Rank", "Resume", "Overall Match (%)", "Education Match (%)",
    "Experience Match (%)", "Skills Match (%)",
    "Email", "Phone", "LinkedIn", "GitHub"]

  /** The field values of one CSV row; numbers as their decimal digits and
      each contact list joined with ", ". */
  function CsvRecord(rank: nat, r: ResumeResult): seq<string> {
    [NatToString(rank), r.name, NatToString(r.overallScore),
     NatToString(r.sectionScores.education), NatToString(r.sectionScores.experience),
     NatToString(r.sectionScores.skills),
     Join(r.contact.email, ", "), Join(r.contact.phone, ", "),
     Join(r.contact.linkedin, ", "), Join(r.contact.github, ", ")]
  }

  function CsvRows(results: seq<ResumeResult>): seq<seq<string>> {
    [CsvHeader] + seq(|results|, i requires 0 <= i < |results| => CsvRecord(i + 1, results[i]))
  }

  /** The export loop: the header, then one row per stored result. */
  method ExportRows(results: seq<ResumeResult>) returns (rows: seq<seq<string>>)
    ensures rows == CsvRows(results)
  {
    rows := [CsvHeader];
    var i := 0;
    while i < |results|
      invariant 0 <= i <= |results|
      invariant |rows| == i + 1 && rows[0] == CsvHeader
      invariant forall k :: 0 <= k < i ==> rows[k + 1] == CsvRecord(k + 1, results[k])
    {
      rows := rows + [CsvRecord(i + 1, results[i])];
      i := i + 1;
    }
  }

  /** Every CSV row has one value per header column; reading the numeric
      columns back gives the rank and the scores, the name is copied, and an
      empty contact list gives an empty column. */
  lemma CsvRecordRoundTrip(rank: nat, r: ResumeResult)
    ensures var row := CsvRecord(rank, r);
      |row| == |CsvHeader| &&
      AllDigits(row[0]) && DigitsValue(row[0]) == rank &&
      row[1] == r.name &&
      AllDigits(row[2]) && DigitsValue(row[2]) == r.overallScore &&
      AllDigits(row[3]) && DigitsValue(row[3]) == r.sectionScores.education &&
      AllDigits(row[4]) && DigitsValue(row[4]) == r.sectionScores.experience &&
      AllDigits(row[5]) && DigitsValue(row[5]) == r.sectionScores.skills &&
      (r.contact.email == [] ==> row[6] == "") &&
      (r.contact.phone == [] ==> row[7] == "") &&
      (r.contact.linkedin == [] ==> row[8] == "") &&
      (r.contact.github == [] ==> row[9] == "")
  {
    var row := CsvRecord(rank, r);
    assert row[6] == Join(r.contact.email, ", ") && row[7] == Join(r.contact.phone, ", ");
    assert row[8] == Join(r.contact.linkedin, ", ") && row[9] == Join(r.contact.github, ", ");
    NatToStringRoundTrip(rank);
    NatToStringRoundTrip(r.overallScore);
    NatToStringRoundTrip(r.sectionScores.education);
    NatToStringRoundTrip(r.sectionScores.experience);
    NatToStringRoundTrip(r.sectionScores.skills);
  }

  /** The CSV ranks are 1..n in row order. */
  lemma CsvRanks(results: seq<ResumeResult>)
    ensures var rows := CsvRows(results);
      |rows| == |results| + 1 &&
      forall i :: 1 <= i < |rows| ==> AllDigits(rows[i][0]) && DigitsValue(rows[i][0]) == i
  {
    var rows := CsvRows(results);
    forall i | 1 <= i < |rows| ensures AllDigits(rows[i][0]) && DigitsValue(rows[i][0]) == i {
      CsvRecordRoundTrip(i, results[i - 1]);
    }
  }

  // ------------------------------------------------------- the page state

  /** The results kept between button presses. */
  class Session {
    var results: seq<ResumeResult>

    constructor()
      ensures results == []
    {
      results := [];
    }

    /** "Analyze Resumes": with no upload or a blank job description the
        page warns and stops with the stored results untouched; otherwise
        the stored results become the ranked results of this run. */
    method AnalyzeClicked(uploads: seq<Upload>, jobDesc: string, svc: Services) returns (warned: bool)
      modifies this
      ensures warned <==> uploads == [] || Strip(jobDesc) == ""
      ensures warned ==> results == old(results)
      ensures !warned ==> results == Rank(Collected(uploads, AnalyseStep(jobDesc, JobSplitter.GetJobSections(jobDesc), svc)))
    {
      if uploads == [] || Strip(jobDesc) == "" {
        return true;
      }
      var sections := JobSplitter.GetJobSections(jobDesc);
      var collected := AnalyzeUploads(uploads, AnalyseStep(jobDesc, sections, svc));
      results := Rank(collected);
      return false;
    }

    /** "Export to CSV": offered only when results are stored. */
    method ExportClicked() returns (csv: Option<seq<seq<string>>>)
      ensures results == [] ==> csv.None?
      ensures results != [] ==> csv == Some(CsvRows(results))
    {
      if results == [] {
        return None;
      }
      var rows := ExportRows(results);
      return Some(rows);
    }
  }

  // ---------------------------------------------------------- properties

  /** The fallback content is the start of the resume text, 2000 characters
      at most. */
  lemma FallbackContentIsPrefix(text: string, relevant: string)
    ensures relevant != "" ==> ContentForScoring(text, relevant) == relevant
    ensures relevant == "" ==>
      var c := ContentForScoring(text, relevant);
      |c| == Min(FallbackLength, |text|) && c == text[..|c|]
  {
  }

  /** Collecting over two runs of uploads is collecting over each in turn. */
  lemma {:induction false} CollectedAppend(a: seq<Upload>, b: seq<Upload>, step: Upload -> Option<ResumeResult>)
    ensures Collected(a + b, step) == Collected(a, step) + Collected(b, step)
    decreases |b|
  {
    if b == [] {
      assert a + b == a;
    } else {
      var b' := b[..|b| - 1];
      assert (a + b)[..|a + b| - 1] == a + b';
      assert (a + b)[|a + b| - 1] == b[|b| - 1];
      CollectedAppend(a, b', step);
    }
  }

  /** A per-file step that skips a file exactly when its text is empty and
      gives any other file a result carrying its name. */
  ghost predicate SkipsOnlyEmpty(step: Upload -> Option<ResumeResult>) {
    forall u :: (step(u).None? <==> Extraction.ExtractText(u.pages) == "") &&
      (step(u).Some? ==> step(u).value.name == u.name)
  }

  /** The analysis step is such a step. */
  lemma AnalyseSkipsOnlyEmpty(jobDesc: string, sections: JobSplitter.JobSections, svc: Services)
    ensures SkipsOnlyEmpty(AnalyseStep(jobDesc, sections, svc))
  {
  }

  /** For a step that keeps the file's name: at most one result per file,
      and exactly one per file, names in upload order, when no file is
      skipped. */
  lemma {:induction false} CollectedKeepsNames(uploads: seq<Upload>, step: Upload -> Option<ResumeResult>)
    requires forall u :: step(u).Some? ==> step(u).value.name == u.name
    ensures |Collected(uploads, step)| <= |uploads|
    ensures (forall k :: 0 <= k < |uploads| ==> step(uploads[k]).Some?) ==>
      var rs := Collected(uploads, step);
      |rs| == |uploads| && forall k :: 0 <= k < |uploads| ==> rs[k].name == uploads[k].name
    decreases |uploads|
  {
    if uploads != [] {
      var init, u := uploads[..|uploads| - 1], uploads[|uploads| - 1];
      assert uploads == init + [u];
      CollectedKeepsNames(init, step);
      CollectedSnoc(init, u, step);
    }
  }

  /** With a step that skips only empty texts, such as the analysis step:
      at most one result per file, and exactly one per file when no file's
      text is empty, with the names in upload order. */
  lemma CollectedNames(uploads: seq<Upload>, step: Upload -> Option<ResumeResult>)
    requires SkipsOnlyEmpty(step)
    ensures |Collected(uploads, step)| <= |uploads|
    ensures (forall k :: 0 <= k < |uploads| ==> Extraction.ExtractText(uploads[k].pages) != "") ==>
      var rs := Collected(uploads, step);
      |rs| == |uploads| && forall k :: 0 <= k < |uploads| ==> rs[k].name == uploads[k].name
  {
    CollectedKeepsNames(uploads, step);
  }

  /** The score of a result whose analysis failed is zero. */
  lemma FailedAnalysisScoresZero(u: Upload, jobDesc: string, sections: JobSplitter.JobSections, svc: Services)
    requires Analyse(u, jobDesc, sections, svc).Some?
    requires var text := Extraction.ExtractText(u.pages);
      var relevant := Retrieval.RelevantResumeContent(text, jobDesc, svc.split, svc.similarity);
      !svc.llm(ContentForScoring(text, relevant), sections).Replied?
    ensures var r := Analyse(u, jobDesc, sections, svc).value;
      r.overallScore == 0 && r.sectionScores == SectionScores(0, 0, 0)
  {
    var text := Extraction.ExtractText(u.pages);
    var relevant := Retrieval.RelevantResumeContent(text, jobDesc, svc.split, svc.similarity);
    Scoring.FailedAnalysisScoresZero(svc.llm(ContentForScoring(text, relevant), sections));
  }
}
