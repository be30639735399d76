/** Keyword classification of job-description lines: `get_job_sections`
    (app.py) and its copy inside the retriever that builds the job context
    (utils/embedding_utils.py). Both use the same three keyword lists and the
    same line test, defined here once. */
module JobSplitter {
  import opened Strings

  const EducationKeywords: seq<string> := ["education", "bachelor", "degree"]
  const ExperienceKeywords: seq<string> := ["experience", "years"]
  const SkillsKeywords: seq<string> := ["skills", "proficiency", "tools"]

  datatype JobSections = JobSections(education: string, experience: string, skills: string)

  /** `any(word in line for word in keywords)`. */
  predicate MentionsAny(line: string, keywords: seq<string>) {
    exists k :: 0 <= k < |keywords| && Contains(line, keywords[k])
  }

  /** `text.lower().split('\n')`. */
  function Lines(text: string): seq<string> {
    Split(Lower(text), "\n")
  }

  /** `[line for line in lines if any(word in line for word in keywords)]`:
      the lines that mention a keyword, in their original order. */
  function Matching(lines: seq<string>, keywords: seq<string>): (r: seq<string>)
    ensures |r| <= |lines|
    ensures forall l :: l in r <==> l in lines && MentionsAny(l, keywords)
  {
    if lines == [] then []
    else
      assert lines == [lines[0]] + lines[1..];
      (if MentionsAny(lines[0], keywords) then [lines[0]] else []) + Matching(lines[1..], keywords)
  }

  /** Filtering is done line by line, so it keeps the order of the lines. */
  lemma {:induction false} MatchingAppend(a: seq<string>, b: seq<string>, keywords: seq<string>)
    ensures Matching(a + b, keywords) == Matching(a, keywords) + Matching(b, keywords)
    decreases |a|
  {
    if a == [] {
      assert a + b == b;
    } else {
      assert (a + b)[0] == a[0] && (a + b)[1..] == a[1..] + b;
      MatchingAppend(a[1..], b, keywords);
    }
  }

  /** The lines of one bucket. */
  function BucketLines(text: string, keywords: seq<string>): seq<string> {
    Matching(Lines(text), keywords)
  }

  /** `"\n".join(bucket_lines).strip() or text`. */
  function Section(text: string, keywords: seq<string>): string {
    var joined := Strip(Join(BucketLines(text, keywords), "\n"));
    if joined == "" then text else joined
  }

  /** `get_job_sections`. Its `except` branch is unreachable on a string. */
  function GetJobSections(text: string): JobSections {
    JobSections(
      Section(text, EducationKeywords),
      Section(text, ExperienceKeywords),
      Section(text, SkillsKeywords))
  }

  /** The job context embedded by the retriever: the description, a newline,
      then the education, experience and skills lines joined by newlines. */
  function JobContext(jobDesc: string): string {
    jobDesc + "\n" + Join(
      BucketLines(jobDesc, EducationKeywords) +
      BucketLines(jobDesc, ExperienceKeywords) +
      BucketLines(jobDesc, SkillsKeywords), "\n")
  }

  // ---------------------------------------------------------- properties

  /** Every keyword contains a character that is not whitespace. */
  predicate Visible(keywords: seq<string>) {
    forall k :: 0 <= k < |keywords| ==> keywords[k] != [] && !IsSpace(keywords[k][0])
  }

  lemma KeywordListsVisible()
    ensures Visible(EducationKeywords) && Visible(ExperienceKeywords) && Visible(SkillsKeywords)
  {
  }

  /** A line that mentions a keyword is not blank. */
  lemma MentioningLineNotBlank(line: string, keywords: seq<string>)
    requires Visible(keywords) && MentionsAny(line, keywords)
    ensures !AllSpace(line)
  {
    var k :| 0 <= k < |keywords| && Contains(line, keywords[k]);
    var i := FindFrom(line, keywords[k], 0).value;
    assert line[i..i + |keywords[k]|][0] == line[i];
  }

  /** A bucket falls back to the whole description exactly when no line
      mentions one of its keywords; otherwise it is the stripped join of the
      mentioning lines, which is never empty. */
  lemma SectionFallsBackIffNoLine(text: string, keywords: seq<string>)
    requires Visible(keywords)
    ensures BucketLines(text, keywords) == [] ==> Section(text, keywords) == text
    ensures BucketLines(text, keywords) != [] ==>
      Section(text, keywords) == Strip(Join(BucketLines(text, keywords), "\n")) != ""
  {
    var lines := BucketLines(text, keywords);
    if lines != [] {
      var joined := Join(lines, "\n");
      assert lines[0] in lines;
      MentioningLineNotBlank(lines[0], keywords);
      var k :| 0 <= k < |lines[0]| && !IsSpace(lines[0][k]);
      JoinStartsWithFirst(lines, "\n");
      assert joined[k] == joined[..|lines[0]|][k] == lines[0][k];
    }
  }

  /** Each of the three sections of `get_job_sections` falls back to the
      description exactly when no line mentions a keyword of its list, and is
      otherwise the non-empty stripped join of the mentioning lines. */
  lemma JobSectionsFallBackIffNoLine(text: string, keywords: seq<string>)
    requires keywords == EducationKeywords || keywords == ExperienceKeywords || keywords == SkillsKeywords
    ensures BucketLines(text, keywords) == [] ==> Section(text, keywords) == text
    ensures BucketLines(text, keywords) != [] ==>
      Section(text, keywords) == Strip(Join(BucketLines(text, keywords), "\n")) != ""
  {
    KeywordListsVisible();
    SectionFallsBackIffNoLine(text, keywords);
  }

  /** A non-empty description yields three non-empty sections. */
  lemma SectionsNonEmpty(text: string)
    requires text != ""
    ensures var s := GetJobSections(text);
      s.education != "" && s.experience != "" && s.skills != ""
  {
  }

  /** A section taken from the lines is lower-case; a fallback section is the
      original text with its original case. */
  lemma SectionCase(text: string, keywords: seq<string>)
    ensures BucketLines(text, keywords) != [] ==> NoUpper(Strip(Join(BucketLines(text, keywords), "\n")))
    ensures Strip(Join(BucketLines(text, keywords), "\n")) == "" ==> Section(text, keywords) == text
  {
    var lines := BucketLines(text, keywords);
    LowerProperties(text);
    SplitNoUpper(Lower(text), "\n");
    forall k | 0 <= k < |lines| ensures NoUpper(lines[k]) {
      assert lines[k] in Lines(text);
    }
    JoinNoUpper(lines, "\n");
    StripNoUpper(Join(lines, "\n"));
  }

  /** Buckets are not exclusive: a line that mentions "years" and "skills"
      is in both the experience and the skills bucket. */
  lemma LineInSeveralBuckets(text: string, line: string)
    requires line in Lines(text)
    requires Contains(line, "years") && Contains(line, "skills")
    ensures line in BucketLines(text, ExperienceKeywords)
    ensures line in BucketLines(text, SkillsKeywords)
  {
    assert ExperienceKeywords[1] == "years" && SkillsKeywords[0] == "skills";
  }

  /** A bucket's lines as one piece: nothing for an empty bucket. */
  function Piece(lines: seq<string>, sep: string): seq<string> {
    if lines == [] then [] else [Join(lines, sep)]
  }

  /** The job context is the description and a newline followed by the
      education, experience and skills lines, bucket after bucket, one
      newline between consecutive lines; an empty bucket adds nothing, so
      with no mentioning line it is the description and a newline (no
      fallback). */
  lemma JobContextShape(jobDesc: string)
    ensures var edu := BucketLines(jobDesc, EducationKeywords);
      var exp := BucketLines(jobDesc, ExperienceKeywords);
      var sk := BucketLines(jobDesc, SkillsKeywords);
      JobContext(jobDesc) == jobDesc + "\n" + Join(Piece(edu, "\n") + Piece(exp, "\n") + Piece(sk, "\n"), "\n") &&
      (edu == [] && exp == [] && sk == [] ==> JobContext(jobDesc) == jobDesc + "\n") &&
      (edu != [] && exp != [] && sk != [] ==>
        JobContext(jobDesc) == jobDesc + "\n" + (Join(edu, "\n") + "\n" + Join(exp, "\n") + "\n" + Join(sk, "\n")))
  {
    var edu := BucketLines(jobDesc, EducationKeywords);
    var exp := BucketLines(jobDesc, ExperienceKeywords);
    var sk := BucketLines(jobDesc, SkillsKeywords);
    assert JobContext(jobDesc) == jobDesc + "\n" + Join(edu + exp + sk, "\n");
    JoinThree(edu, exp, sk, "\n");
  }

  /** Joining two lists is joining their pieces: one separator between the
      two joins when neither list is empty, none otherwise. */
  lemma JoinTwo(a: seq<string>, b: seq<string>, sep: string)
    ensures Join(a + b, sep) == Join(Piece(a, sep) + Piece(b, sep), sep)
  {
    if a == [] {
      assert a + b == b;
    } else if b == [] {
      assert a + b == a;
    } else {
      JoinAppend(a, b, sep);
      assert Piece(a, sep) + Piece(b, sep) == [Join(a, sep), Join(b, sep)];
    }
  }

  /** Joining three lists is joining the pieces of the non-empty ones:
      nothing when all are empty, one separator between each two joins when
      none is. */
  lemma JoinThree(a: seq<string>, b: seq<string>, c: seq<string>, sep: string)
    ensures Join(a + b + c, sep) == Join(Piece(a, sep) + Piece(b, sep) + Piece(c, sep), sep)
    ensures a == [] && b == [] && c == [] ==> Join(a + b + c, sep) == ""
    ensures a != [] && b != [] && c != [] ==>
      Join(a + b + c, sep) == Join(a, sep) + sep + Join(b, sep) + sep + Join(c, sep)
  {
    if a != [] && b != [] && c != [] {
      var three := [Join(a, sep), Join(b, sep), Join(c, sep)];
      assert Piece(a, sep) + Piece(b, sep) + Piece(c, sep) == three;
      assert three[1..] == [Join(b, sep), Join(c, sep)] && three[1..][1..] == [Join(c, sep)];
    }
    var x := Piece(a, sep) + Piece(b, sep);
    JoinTwo(a, b, sep);
    JoinTwo(a + b, c, sep);
    JoinTwo(x, Piece(c, sep), sep);
    assert Piece(Piece(c, sep), sep) == Piece(c, sep);
    assert Piece(x, sep) == Piece(a + b, sep);
  }
}
