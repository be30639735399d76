/** The LLM scorer's output and the score parser (utils/llm_utils.py). The
    model call itself is an oracle: only its outcome is modelled. */
module Scoring {
  import opened Strings
  import opened Patterns

  const OverallLabel := "Overall Match:"
  const EducationLabel := "Education Match:"
  const ExperienceLabel := "Experience Match:"
  const SkillsLabel := "Skills Match:"

  predicate IsScoreLabel(tag: string) {
    tag == OverallLabel || tag == EducationLabel ||
    tag == ExperienceLabel || tag == SkillsLabel
  }

  /** The four percentages; not clamped to 0..100. */
  datatype ScoreSet = ScoreSet(overall: nat, education: nat, experience: nat, skills: nat)

  const ZeroScores := ScoreSet(0, 0, 0, 0)

  // ------------------------------------------------------ the LLM's report

  /** What the call to the generative model did. */
  datatype LlmOutcome =
    | Uninitialised          // the client object was falsy
    | Raised                 // any exception on the way
    | Replied(content: string)

  const InitFailure := "Analysis failed."
  const CallFailure := "Analysis error."

  /** `analyze_resume`: the stripped reply, or one of two fixed sentinels. */
  function AnalyzeResume(outcome: LlmOutcome): (report: string)
    ensures outcome.Replied? ==> exists a :: StrippedAt(outcome.content, a, report)
    ensures outcome.Replied? ==> report == [] || (!IsSpace(report[0]) && !IsSpace(report[|report| - 1]))
    ensures outcome.Uninitialised? ==> report == InitFailure
    ensures outcome.Raised? ==> report == CallFailure
  {
    match outcome
    case Uninitialised => InitFailure
    case Raised => CallFailure
    case Replied(content) => Strip(content)
  }

  // ------------------------------------------------------------ the parser

  /** The text at `i` reads `label`, then whitespace up to `q`, then the
      digits `q..e` (at least one), then `%` at `e`: one match of
      `label\s*(\d+)%`. */
  ghost predicate ScoreToken(s: string, tag: string, i: nat, q: nat, e: nat) {
    OccursAt(s, tag, i) && i + |tag| <= q < e < |s| &&
    (forall k :: i + |tag| <= k < q ==> IsSpace(s[k])) &&
    (forall k :: q <= k < e ==> IsDigit(s[k])) &&
    s[e] == '%'
  }

  /** The pattern tried at position `i` with the regex engine's greedy runs.
      Because whitespace, digits and `%` are disjoint classes, backtracking
      never finds another match: the result is the value of the one token
      that starts at `i`, if there is one. */
  function ScoreAt(s: string, tag: string, i: nat): (r: Option<nat>)
    requires i <= |s|
    ensures r.Some? <==> exists q: nat, e: nat :: ScoreToken(s, tag, i, q, e)
    ensures forall q: nat, e: nat :: ScoreToken(s, tag, i, q, e) ==>
      AllDigits(s[q..e]) && r == Some(DigitsValue(s[q..e]))
  {
    if !OccursAt(s, tag, i) then None
    else
      var q := RunEnd(s, i + |tag|, Whitespace);
      var e := RunEnd(s, q, Digit);
      assert forall q': nat, e': nat :: ScoreToken(s, tag, i, q', e') ==> q' == q && e' == e by {
        forall q': nat, e': nat | ScoreToken(s, tag, i, q', e') ensures q' == q && e' == e {
          assert !InClass(s[q'], Whitespace);
          RunEndUnique(s, i + |tag|, Whitespace, q');
          assert !InClass(s[e'], Digit);
          RunEndUnique(s, q, Digit, e');
        }
      }
      if q < e < |s| && s[e] == '%' then
        assert ScoreToken(s, tag, i, q, e);
        Some(DigitsValue(s[q..e]))
      else None
  }

  /** The leftmost position at or after `from` where the pattern matches. */
  function LeftmostScore(s: string, tag: string, from: nat): (pos: Option<nat>)
    requires from <= |s|
    ensures pos.Some? ==> from <= pos.value <= |s| && ScoreAt(s, tag, pos.value).Some?
    ensures pos.Some? ==> forall j :: from <= j < pos.value ==> ScoreAt(s, tag, j).None?
    ensures pos.None? ==> forall j :: from <= j <= |s| ==> ScoreAt(s, tag, j).None?
    decreases |s| - from
  {
    if ScoreAt(s, tag, from).Some? then Some(from)
    else if from == |s| then None
    else LeftmostScore(s, tag, from + 1)
  }

  /** `int(re.search(label + r"\s*(\d+)%", s).group(1))`, or `None` where
      `re.search` returns `None` (and `.group` would raise). */
  function Search(s: string, tag: string): Option<nat> {
    match LeftmostScore(s, tag, 0)
    case None => None
    case Some(i) => ScoreAt(s, tag, i)
  }

  /** `parse_llm_scores`: four independent searches; if any one fails, the
      exception handler returns all zeros. */
  function ParseScores(report: string): ScoreSet {
    var overall := Search(report, OverallLabel);
    var education := Search(report, EducationLabel);
    var experience := Search(report, ExperienceLabel);
    var skills := Search(report, SkillsLabel);
    if overall.Some? && education.Some? && experience.Some? && skills.Some? then
      ScoreSet(overall.value, education.value, experience.value, skills.value)
    else
      ZeroScores
  }

  // ---------------------------------------------------------- properties

  /** A search returns the digits of the leftmost well-formed occurrence of
      its label: earlier occurrences that are not followed by whitespace,
      digits and `%` are passed over. */
  lemma SearchFindsLeftmostToken(s: string, tag: string, i: nat, q: nat, e: nat)
    requires ScoreToken(s, tag, i, q, e)
    requires forall j: nat, q': nat, e': nat :: j < i ==> !ScoreToken(s, tag, j, q', e')
    ensures AllDigits(s[q..e]) && Search(s, tag) == Some(DigitsValue(s[q..e]))
  {
    assert ScoreAt(s, tag, i).Some?;
    var pos := LeftmostScore(s, tag, 0);
    assert pos.Some?;
    var q': nat, e': nat :| ScoreToken(s, tag, pos.value, q', e');
    assert pos.value == i;
  }

  /** A search fails exactly when its label has no well-formed occurrence. */
  lemma SearchFailsIffNoToken(s: string, tag: string)
    ensures Search(s, tag).None? <==> forall i: nat, q: nat, e: nat :: !ScoreToken(s, tag, i, q, e)
  {
    if Search(s, tag).None? {
      forall i: nat, q: nat, e: nat ensures !ScoreToken(s, tag, i, q, e) {
        if i <= |s| {
          assert ScoreAt(s, tag, i).None?;
        }
      }
    } else {
      assert ScoreAt(s, tag, LeftmostScore(s, tag, 0).value).Some?;
    }
  }

  /** All or nothing: one label without a well-formed occurrence anywhere in
      the report zeroes all four scores. */
  lemma MissingLabelZeroesAll(report: string, tag: string)
    requires IsScoreLabel(tag)
    requires forall i: nat, q: nat, e: nat :: !ScoreToken(report, tag, i, q, e)
    ensures ParseScores(report) == ZeroScores
  {
    SearchFailsIffNoToken(report, tag);
  }

  /** When all four labels have a well-formed occurrence, each score is the
      value of its own label's leftmost occurrence, wherever the other labels
      stand in the text. */
  lemma ParseScoresOfTokens(report: string)
    requires forall tag :: IsScoreLabel(tag) ==> exists i: nat, q: nat, e: nat :: ScoreToken(report, tag, i, q, e)
    ensures Search(report, OverallLabel).Some? && Search(report, EducationLabel).Some? &&
      Search(report, ExperienceLabel).Some? && Search(report, SkillsLabel).Some?
    ensures ParseScores(report) == ScoreSet(
      Search(report, OverallLabel).value, Search(report, EducationLabel).value,
      Search(report, ExperienceLabel).value, Search(report, SkillsLabel).value)
  {
    assert IsScoreLabel(OverallLabel) && IsScoreLabel(EducationLabel);
    assert IsScoreLabel(ExperienceLabel) && IsScoreLabel(SkillsLabel);
    SearchFailsIffNoToken(report, OverallLabel);
    SearchFailsIffNoToken(report, EducationLabel);
    SearchFailsIffNoToken(report, ExperienceLabel);
    SearchFailsIffNoToken(report, SkillsLabel);
  }

  /** An occurrence whose digits are followed by anything but `%` (as in
      `85 %`) is no match. */
  lemma DigitsWithoutPercentRejected(s: string, tag: string, i: nat)
    requires OccursAt(s, tag, i)
    requires var e := RunEnd(s, RunEnd(s, i + |tag|, Whitespace), Digit);
      e < |s| && s[e] != '%'
    ensures ScoreAt(s, tag, i).None?
  {
  }

  /** Every label ends with a colon, so a text without one yields no score. */
  lemma {:induction false} NoColonNoScores(s: string)
    requires ':' !in s
    ensures ParseScores(s) == ZeroScores
  {
    forall i | 0 <= i <= |s| ensures ScoreAt(s, OverallLabel, i).None? {
      if i + 14 <= |s| {
        assert s[i..i + 14][13] == s[i + 13] != ':';
      }
    }
    assert LeftmostScore(s, OverallLabel, 0).None?;
  }

  /** Both sentinel reports of a failed analysis parse to all zeros. */
  lemma FailedAnalysisScoresZero(outcome: LlmOutcome)
    requires !outcome.Replied?
    ensures ParseScores(AnalyzeResume(outcome)) == ZeroScores
  {
    NoColonNoScores(AnalyzeResume(outcome));
  }

  /** There is no clamp to 0..100. */
  lemma ScoresAreNotClamped()
    ensures Search("Overall Match: 150%", OverallLabel) == Some(150)
  {
    var s := "Overall Match: 150%";
    assert s[..14] == OverallLabel;
    assert ScoreToken(s, OverallLabel, 0, 15, 18);
    assert s[15..18] == "150";
    assert "150"[..2] == "15" && "15"[..1] == "1" && "1"[..0] == "";
    assert DigitsValue("150") == 150;
    SearchFindsLeftmostToken(s, OverallLabel, 0, 15, 18);
  }
}
