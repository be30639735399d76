/** How the results page cuts each report into labelled parts (app.py): five
    `split` calls inside a `try`; if a label is missing, indexing the second
    piece raises and the raw report is shown instead. */
module ReportView {
  import opened Strings

  const EducationMark := "Education Match:"
  const ExperienceMark := "Experience Match:"
  const SkillsMark := "Skills Match:"
  const SuggestionsMark := "Suggestions:"

  datatype View =
    | Sections(overall: string, education: string, experience: string, skills: string, suggestions: string)
    | Raw(report: string)

  /** The five slices, or the raw report when one of the four labels is
      missing. */
  function SliceReport(report: string): View {
    var byEducation := Split(report, EducationMark);
    var byExperience := Split(report, ExperienceMark);
    var bySkills := Split(report, SkillsMark);
    var bySuggestions := Split(report, SuggestionsMark);
    if |byEducation| < 2 || |byExperience| < 2 || |bySkills| < 2 || |bySuggestions| < 2 then Raw(report)
    else Sections(
      Strip(byEducation[0]),
      Strip(Split(byEducation[1], ExperienceMark)[0]),
      Strip(Split(byExperience[1], SkillsMark)[0]),
      Strip(Split(bySkills[1], SuggestionsMark)[0]),
      Strip(bySuggestions[1]))
  }

  // --------------------------------------------------- reading the slices

  /** The text before the first occurrence of `mark`, or all of it. */
  function Before(t: string, mark: string): (r: string)
    ensures |r| <= |t| && r == t[..|r|]
  {
    match FindFrom(t, mark, 0)
    case None => t
    case Some(k) => t[..k]
  }

  /** The text after the first occurrence of `mark`. */
  function After(t: string, mark: string): (r: string)
    requires Contains(t, mark)
    ensures |r| + |mark| <= |t| && r == t[|t| - |r|..]
  {
    var k := FindFrom(t, mark, 0).value;
    t[k + |mark|..]
  }

  /** The first piece of a split is the text before the first occurrence;
      the second is the text after it, up to the next occurrence. */
  lemma SplitFirstTwo(t: string, mark: string)
    requires mark != []
    ensures Split(t, mark)[0] == Before(t, mark)
    ensures Contains(t, mark) ==> Split(t, mark)[1] == Before(After(t, mark), mark)
  {
    SplitPieces(t, mark);
    var f := FindFrom(t, mark, 0);
    if f.Some? {
      SplitPieces(t[f.value + |mark|..], mark);
    }
  }

  // ---------------------------------------------------------- properties

  /** Slicing succeeds exactly when all four labels occur. */
  lemma SliceSucceedsIff(report: string)
    ensures SliceReport(report).Sections? <==>
      Contains(report, EducationMark) && Contains(report, ExperienceMark) &&
      Contains(report, SkillsMark) && Contains(report, SuggestionsMark)
  {
    SplitPieces(report, EducationMark);
    SplitPieces(report, ExperienceMark);
    SplitPieces(report, SkillsMark);
    SplitPieces(report, SuggestionsMark);
  }

  /** The slices: the overall part is the text before the first "Education
      Match:"; every other part starts after the first occurrence of its
      label and stops at the next label, or at a repeat of its own label;
      the suggestions stop only at a repeat of their label. Each slice is
      stripped. */
  lemma SlicesAreBetweenLabels(report: string)
    requires SliceReport(report).Sections?
    ensures var v := SliceReport(report);
      Contains(report, EducationMark) && Contains(report, ExperienceMark) &&
      Contains(report, SkillsMark) && Contains(report, SuggestionsMark) &&
      v.overall == Strip(Before(report, EducationMark)) &&
      v.education == Strip(Before(Before(After(report, EducationMark), EducationMark), ExperienceMark)) &&
      v.experience == Strip(Before(Before(After(report, ExperienceMark), ExperienceMark), SkillsMark)) &&
      v.skills == Strip(Before(Before(After(report, SkillsMark), SkillsMark), SuggestionsMark)) &&
      v.suggestions == Strip(Before(After(report, SuggestionsMark), SuggestionsMark))
  {
    SliceSucceedsIff(report);
    SplitFirstTwo(report, EducationMark);
    SplitFirstTwo(report, ExperienceMark);
    SplitFirstTwo(report, SkillsMark);
    SplitFirstTwo(report, SuggestionsMark);
    SplitFirstTwo(Split(report, EducationMark)[1], ExperienceMark);
    SplitFirstTwo(Split(report, ExperienceMark)[1], SkillsMark);
    SplitFirstTwo(Split(report, SkillsMark)[1], SuggestionsMark);
  }

  /** A text without `c` contains no word that has `c` in it. */
  lemma AbsentCharNoOccurrence(s: string, mark: string, c: char)
    requires c !in s && c in mark
    ensures !Contains(s, mark)
  {
    var k :| 0 <= k < |mark| && mark[k] == c;
    forall i | 0 <= i <= |s| ensures !OccursAt(s, mark, i) {
      if i + |mark| <= |s| {
        assert s[i..i + |mark|][k] == s[i + k];
      }
    }
  }

  /** A report without a colon (the two failure sentinels among them) is
      shown raw. */
  lemma NoColonShownRaw(report: string)
    requires ':' !in report
    ensures SliceReport(report) == Raw(report)
  {
    assert EducationMark[15] == ':';
    AbsentCharNoOccurrence(report, EducationMark, ':');
    SliceSucceedsIff(report);
  }
}
