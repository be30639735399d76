# Resume Matcher — a verified model of its text and ranking core

Resume Matcher ranks uploaded PDF resumes against a pasted job description.
For each resume it:

1. extracts and normalises the text;
2. pulls out contacts (e-mail, phone, LinkedIn, GitHub);
3. retrieves the resume chunks most similar to the job description;
4. has a language model write a match report;
5. parses four percentages out of that report.

It then ranks the resumes by overall score, shows a ranking table and the
sliced reports, and exports the ranking as CSV.

This project models in Dafny everything around the external services: the
PDF loader, the text splitter, the embedding model and the language model
are inputs or function parameters. The model is split into these modules:

- `Strings` — the Python string operations used, on ASCII:
  - `lower`, `split(sep)`, `split()`, `join`, `strip`, `in`;
  - slicing `s[:k]`, `str(n)` and `int(s)`.
- `Patterns` — regex character classes, greedy runs and the word boundary
  `\b`.
- `JobSplitter` — keyword classification of job-description lines: `get_job_sections`
  and the retriever's `job_context`.
- `Scoring` — `analyze_resume`'s outcomes and `parse_llm_scores`, with
  `re.search` written out as a leftmost scan.
- `StableSort` — Python's stable `sorted(..., reverse=True)` on positions,
  used both for ranking resumes and for the retriever's fallback.
- `Retrieval` — chunk selection in `get_relevant_resume_content`.
- `Extraction` — `extract_text`'s normalisation and `extract_links_and_contact`:
  the four `re.findall` scans written as matchers that try the regex's
  alternatives in the engine's order.
- `ReportView` — the results page's slicing of a report into five parts.
- `Pipeline` — the analysis loop (a method), ranking, the ranking table, the
  CSV export loop (a method) and the page's stored results (the class
  `Session`).

Two behaviours of the code that are easy to get wrong:

- When no chunk reaches the similarity threshold, the fallback chunks are
  returned in similarity order, not document order (`Retrieval.FallbackSelection`).
- Scores are not clamped to 0..100 (`Scoring.ScoresAreNotClamped`).

## Model

| member | source | states |
|---|---|---|
| `Strings.FindFrom` | app.py:115-119 | the position found is the leftmost occurrence at or after the start; `None` only when there is none |
| `Strings.Split` | app.py:23 | `str.split(sep)` gives at least one piece and no piece contains the separator |
| `Strings.JoinSplit` | app.py:23 | joining the pieces of a split with the same separator gives the text back |
| `Strings.SplitJoin` | utils/embedding_utils.py:43 | splitting a newline-join of pieces without newlines gives the pieces back |
| `Strings.SplitPieces` | app.py:115-119 | the first piece is the text before the first occurrence; a second piece exists iff the separator occurs, and runs to the next occurrence |
| `Strings.Strip` | app.py:28-30 | `strip` removes exactly the leading and trailing whitespace; the result is empty iff the text is all whitespace |
| `Strings.Tokens` | utils/pdf_utils.py:14 | `str.split()`: every token is non-empty and free of whitespace (that the tokens are the maximal runs is `TokensAreRuns`) |
| `Strings.TokensAreRuns` | utils/pdf_utils.py:14 | the tokens are the text's maximal runs of non-whitespace, left to right, apart, and together they hold every non-whitespace character |
| `Strings.CollapseShape` | utils/pdf_utils.py:14 | a collapsed text has no leading, trailing or doubled whitespace and only single spaces |
| `Strings.CollapseKeepsTokens` | utils/pdf_utils.py:14 | collapsing keeps the token sequence and is idempotent |
| `Strings.TokensOfJoin` | utils/pdf_utils.py:14 | the tokens of a space-joined token list are that list |
| `Strings.Lower` | utils/pdf_utils.py:13 | `str.lower` on ASCII; its properties are `LowerProperties` and `LowerOfLower` |
| `Strings.Join` | utils/embedding_utils.py:43 | `sep.join(parts)`; its properties are `JoinAppend`, `JoinSplit`, `SplitJoin` and `JoinStartsWithFirst` |
| `Strings.Contains` | app.py:24-26 | `pat in s`: some occurrence of `pat` in `s`; its property is `OccursInPrefix` |
| `Strings.Collapse` | utils/pdf_utils.py:14 | `' '.join(s.split())`; its properties are `CollapseShape` and `CollapseKeepsTokens` |
| `Strings.DigitsValue` | utils/llm_utils.py:53-56 | `int(ds)` on a digit string; its property is `NatToStringRoundTrip` |
| `Strings.LowerProperties` | utils/pdf_utils.py:13 | `lower` keeps the length, turns each of `A`-`Z` into the letter at the same place in `a`-`z`, leaves every other character unchanged, and is idempotent |
| `Strings.Prefix` | app.py:75 | `s[:k]` is a prefix of `s` of length `min(k, len(s))`, or `len(s)+k` (at least 0) for negative `k` |
| `Strings.NatToString` | app.py:149-152 | `str(n)` is a non-empty digit string without a leading zero |
| `Strings.NatToStringRoundTrip` | app.py:149-152 | reading the decimal digits of `str(n)` gives `n` back |
| `Patterns.RunEnd` | utils/pdf_utils.py:24 | a greedy run of a character class is maximal |
| `JobSplitter.Lines` | app.py:23 | `text.lower().split('\n')`; its properties are those of `Strings.Split` and `Strings.Lower` |
| `JobSplitter.MentionsAny` | app.py:24-26 | `any(word in line for word in keywords)`; its property is `MentioningLineNotBlank` |
| `JobSplitter.BucketLines` | app.py:23-26 | one bucket's lines; its properties are `Matching`, `MatchingAppend` and `SectionFallsBackIffNoLine` |
| `JobSplitter.Matching` | app.py:24-26 | a line is kept iff it contains one of the bucket's keywords, and nothing else is kept |
| `JobSplitter.MatchingAppend` | app.py:24-26 | filtering works line by line, so it keeps the original line order |
| `JobSplitter.Section` | app.py:23-30 | one section of `get_job_sections`: the stripped newline-join of the bucket's lines, or the text when that is empty; its properties are the four lemmas below |
| `JobSplitter.GetJobSections` | app.py:20-34 | `get_job_sections`: the three sections, each built by `Section` from its keyword list |
| `JobSplitter.SectionFallsBackIffNoLine` | app.py:28-30 | a section falls back to the original text exactly when no line mentions a keyword of its bucket; otherwise it is the non-empty stripped newline-join of those lines |
| `JobSplitter.SectionCase` | app.py:23-30 | a section built from lines is lower-case; when the stripped join is empty, the section is the original text with its original case |
| `JobSplitter.JobSectionsFallBackIffNoLine` | app.py:20-34 | for each of the three keyword lists of `get_job_sections`, its section falls back to the description exactly when no line mentions one of the list's keywords |
| `JobSplitter.SectionsNonEmpty` | app.py:27-31 | a non-empty description gives three non-empty sections |
| `JobSplitter.LineInSeveralBuckets` | app.py:24-26 | a line mentioning "years" and "skills" goes into both the experience and the skills buckets |
| `JobSplitter.MentioningLineNotBlank` | app.py:24-30 | a line that mentions a keyword is not blank |
| `JobSplitter.JobContext` | utils/embedding_utils.py:21-26 | the retriever's job context, from the same keyword lists as `get_job_sections`; its shape is `JobContextShape` |
| `JobSplitter.JobContextShape` | utils/embedding_utils.py:21-26 | the job context is the description, a newline, then the newline-joins of the non-empty education, experience and skills buckets in that order, one newline between them; an empty bucket adds nothing, so with no matching line it is the description and a newline |
| `Scoring.AnalyzeResume` | utils/llm_utils.py:9-48 | a reply is returned stripped; a missing client or any exception gives one of the two sentinels |
| `Scoring.ScoreAt` | utils/llm_utils.py:53-56 | the pattern matches at a position iff label, whitespace, digits and `%` follow there, and the value is that token's digits |
| `Scoring.Search` | utils/llm_utils.py:53-56 | one `re.search(...).group(1)` converted by `int`; its properties are `SearchFindsLeftmostToken` and `SearchFailsIffNoToken` |
| `Scoring.ParseScores` | utils/llm_utils.py:50-70 | `parse_llm_scores`: four searches, all zeros when one fails; its properties are the lemmas below |
| `Scoring.LeftmostScore` | utils/llm_utils.py:53-56 | the search stops at the leftmost matching position and no earlier position matches |
| `Scoring.SearchFindsLeftmostToken` | utils/llm_utils.py:53-56 | a search returns the digits of the leftmost well-formed occurrence of its label |
| `Scoring.SearchFailsIffNoToken` | utils/llm_utils.py:53-56 | a search fails iff its label has no well-formed occurrence |
| `Scoring.MissingLabelZeroesAll` | utils/llm_utils.py:63-70 | one label without a well-formed occurrence makes all four scores zero |
| `Scoring.ParseScoresOfTokens` | utils/llm_utils.py:53-62 | with all four labels present, each score is its own label's leftmost value, whatever the labels' order |
| `Scoring.DigitsWithoutPercentRejected` | utils/llm_utils.py:53-56 | an occurrence whose digits are not followed by `%` is no match, so the search moves on |
| `Scoring.NoColonNoScores` | utils/llm_utils.py:63-70 | a text without a colon scores all zeros |
| `Scoring.FailedAnalysisScoresZero` | utils/llm_utils.py:13-15 | both sentinel reports parse to all zeros |
| `Scoring.ScoresAreNotClamped` | utils/llm_utils.py:53 | "Overall Match: 150%" gives 150 |
| `StableSort.InsertPos` | app.py:92 | the insertion point is after every entry the new one does not precede and before the next |
| `StableSort.Insert` | app.py:92 | insertion adds exactly the new position |
| `StableSort.InsertSorted` | app.py:92 | inserting into a sorted order keeps it sorted |
| `StableSort.SortFirst` | app.py:92 | the sort of the first `n` positions has `n` entries, all of them positions below the number of keys |
| `StableSort.SortFirstSorted` | app.py:92 | the sort of the first `n` positions is in descending key order, ties by position, and holds exactly the positions below `n` |
| `StableSort.Pick` | app.py:92 | the results rearranged by a sorted order of positions; its properties are `Pipeline.RankIsStableDescending` and `Pipeline.RankUnique` |
| `StableSort.SortDescending` | utils/embedding_utils.py:38 | the sort is a permutation of the positions in descending key order, ties by position |
| `StableSort.SortedUnique` | app.py:92 | two sorted orders of the same positions are equal |
| `StableSort.SortDescendingUnique` | utils/embedding_utils.py:38 | any permutation in descending key order with ties by position is the sort's result |
| `StableSort.SortedPrefixPrecedes` | utils/embedding_utils.py:38-40 | every position cut off after the first `n` of a sorted permutation is preceded by each of those `n` in descending key order |
| `Retrieval.SelectIndices` | utils/embedding_utils.py:35-40 | the selection of positions; its properties are `SelectionBounds`, `ThresholdSelection`, `ThresholdKeepsAll` and `FallbackSelection` |
| `Retrieval.SelectContent` | utils/embedding_utils.py:29-46 | the content once there are chunks: the join of the picked chunks, or "" on an exception; its properties are `ContentIsSelectedChunks` and `IndexErrorGivesEmpty` |
| `Retrieval.RelevantResumeContent` | utils/embedding_utils.py:9-46 | `get_relevant_resume_content` with its defaults; its properties are `NoChunksOrNoSimilarities` and those of `SelectContent` |
| `Retrieval.IndicesAtLeast` | utils/embedding_utils.py:35 | the threshold list holds exactly the positions whose similarity reaches the threshold, increasing |
| `Retrieval.AboveInRange` | utils/embedding_utils.py:35 | the threshold list's positions are in range and qualify |
| `Retrieval.AboveEmptyIffAllBelow` | utils/embedding_utils.py:35-36 | the fallback is taken iff no similarity reaches the threshold |
| `Retrieval.SelectionBounds` | utils/embedding_utils.py:35-40 | the selected positions are distinct and in range, at most `top_k`, and at least one when there is a chunk and `top_k >= 1` |
| `Retrieval.ThresholdSelection` | utils/embedding_utils.py:35-40 | threshold branch: the first `min(top_k, #qualifying)` qualifying positions in document order; a qualifying chunk left out comes after all selected ones |
| `Retrieval.ThresholdKeepsAll` | utils/embedding_utils.py:35-40 | with `top_k` at least the chunk count, every qualifying chunk is selected |
| `Retrieval.FallbackSelection` | utils/embedding_utils.py:36-40 | fallback: the first `top_k` positions of the stable descending sort, in similarity order; every chunk left out is preceded by every selected one |
| `Retrieval.ContentIsSelectedChunks` | utils/embedding_utils.py:41-43 | the content is the newline-join of the selected chunks; when no chunk has a newline, splitting it gives those chunks back |
| `Retrieval.NoChunksOrNoSimilarities` | utils/embedding_utils.py:13-16 | no chunks, or an exception while embedding, give "" |
| `Retrieval.IndexErrorGivesEmpty` | utils/embedding_utils.py:41-46 | whenever a selected position is past the last chunk, the lookup raises and the content is "" |
| `Retrieval.IndexErrorExample` | utils/embedding_utils.py:41-46 | one chunk with two similarities, the second qualifying, gives "" |
| `Extraction.ExtractText` | utils/pdf_utils.py:8-18 | `extract_text` after loading: the normalised page text, or "" when loading raised; its properties are the three lemmas below |
| `Extraction.Normalise` | utils/pdf_utils.py:13-14 | `lower` then whitespace collapsing; its properties are `NormaliseShape` and `NormaliseKeepsWords` |
| `Extraction.NormaliseShape` | utils/pdf_utils.py:13-14 | normalised text is lower-case, has no leading or trailing whitespace and only single spaces between words |
| `Extraction.NormaliseKeepsWords` | utils/pdf_utils.py:13-14 | normalising keeps the lower-cased words in order and is idempotent |
| `Extraction.BlankPagesGiveEmptyText` | utils/pdf_utils.py:13-18 | a load failure or all-blank pages give "" |
| `Extraction.LastDot` | utils/pdf_utils.py:24 | the domain run backs off to the last dot followed by at least two letters |
| `Extraction.EmailAt` | utils/pdf_utils.py:24 | the e-mail pattern tried at one position in the engine's order; its properties are `EmailSound`, `EmailComplete` and `EmailMatchesShape` |
| `Extraction.EmailSound` | utils/pdf_utils.py:24 | an e-mail match has local part, `@`, domain, dot and two or more letters, ends after the longest letter run, and is the longest text of that shape at its start |
| `Extraction.EmailComplete` | utils/pdf_utils.py:24 | wherever the e-mail shape fits, the matcher matches |
| `Extraction.EmailMatchesShape` | utils/pdf_utils.py:24 | the e-mail matcher matches at a position iff the e-mail shape fits there |
| `Extraction.PhoneAt` | utils/pdf_utils.py:28 | the phone pattern tried at one position in the engine's order; its properties are the four lemmas below |
| `Extraction.PhoneMatchesShape` | utils/pdf_utils.py:28 | the phone matcher accepts exactly the phone pattern's shapes, taking `+91` with separator, then `+91`, then the bare number |
| `Extraction.PlusAfterNonWordNotMatched` | utils/pdf_utils.py:28 | `\b` before `+`: a `+91` after a space or at the start never begins a match |
| `Extraction.PlusAfterWordMatched` | utils/pdf_utils.py:28 | after a word character, `+91` and its separator are part of the match |
| `Extraction.NoPhoneInsideWord` | utils/pdf_utils.py:28 | no phone match starts inside a run of word characters |
| `Extraction.ProfileAt` | utils/pdf_utils.py:32-37 | the LinkedIn and GitHub patterns tried at one position; its properties are `ProfileMatchesShape` and `ProfileSound` |
| `Extraction.ProfileMatchesShape` | utils/pdf_utils.py:32-36 | wherever a profile link fits (scheme, `www.`, site, maximal handle), the matcher returns exactly that link |
| `Extraction.ProfileSound` | utils/pdf_utils.py:32-36 | every profile match is a scheme, an optional `www.`, the site and a maximal non-empty handle |
| `Extraction.MatchAt` | utils/pdf_utils.py:24-37 | every match is non-empty and inside the text |
| `Extraction.Scan` | utils/pdf_utils.py:25-37 | the `findall` spans are matches, left to right, without overlap, duplicates kept, and no match starts in a gap between them |
| `Extraction.FindAll` | utils/pdf_utils.py:25-37 | the texts found are non-empty and are the pattern's matches over spans that run left to right without overlap, with no match starting in a gap between them |
| `Extraction.ExtractContacts` | utils/pdf_utils.py:20-41 | `extract_links_and_contact`: the four `findall` lists, always all four keys |
| `Extraction.NoMatchEmptyList` | utils/pdf_utils.py:25-37 | a text with no match gives an empty list |
| `ReportView.SliceReport` | app.py:113-133 | the results page's slicing into five parts, or the raw report; its properties are `SliceSucceedsIff`, `SlicesAreBetweenLabels` and `NoColonShownRaw` |
| `ReportView.Before` | app.py:115 | the text before a label is a prefix of the report |
| `ReportView.After` | app.py:116-119 | the text after a label is a suffix of the report that leaves room for the label |
| `ReportView.SplitFirstTwo` | app.py:115-119 | the first two split pieces are the text before the label and the text after it, up to the next occurrence |
| `ReportView.SliceSucceedsIff` | app.py:113-119 | slicing succeeds iff all four labels occur |
| `ReportView.SlicesAreBetweenLabels` | app.py:115-119 | each slice is the stripped text between its label and the next label, or a repeat of its own label |
| `ReportView.NoColonShownRaw` | app.py:131-133 | a report without a colon, the sentinels among them, is shown raw |
| `Pipeline.Analyse` | app.py:62-90 | one upload's analysis: skipped when its text is empty, otherwise a result with contacts, report and scores; its properties are `AnalyseSkipsOnlyEmpty`, `FallbackContentIsPrefix` and `FailedAnalysisScoresZero` |
| `Pipeline.Collected` | app.py:56-90 | the results of a sequence of uploads; its properties are `CollectedSnoc`, `CollectedAppend`, `CollectedKeepsNames` and `CollectedNames` |
| `Pipeline.AnalyzeUploads` | app.py:55-90 | the loop collects, in upload order, the result of the per-file step for each upload, skipping those the step skips |
| `Pipeline.CollectedSnoc` | app.py:56-90 | one more upload appends its result, if any |
| `Pipeline.CollectedAppend` | app.py:56-90 | collecting over two runs of uploads concatenates their results |
| `Pipeline.AnalyseSkipsOnlyEmpty` | app.py:64-68 | the per-file step skips an upload iff its extracted text is empty, and a result carries its upload's name |
| `Pipeline.CollectedKeepsNames` | app.py:56-90 | for any step that keeps names, at most one result per upload, and exactly one per upload in upload order when no upload is skipped |
| `Pipeline.CollectedNames` | app.py:56-90 | with the analysis step (or any step that skips exactly the empty texts): at most one result per upload, and exactly one per upload in upload order when no text is empty |
| `Pipeline.ContentForScoring` | app.py:72-75 | the retrieved content, or the resume's first 2000 characters when it is ""; its property is `FallbackContentIsPrefix` |
| `Pipeline.FallbackContentIsPrefix` | app.py:72-75 | when retrieval returns "", the scored content is exactly the first 2000 characters of the resume |
| `Pipeline.FailedAnalysisScoresZero` | app.py:77-82 | a result whose analysis failed has all scores zero |
| `Pipeline.RankIsStableDescending` | app.py:92 | the ranking is the results rearranged by a permutation of their positions (each taken once), non-increasing in overall score, equal scores in upload order |
| `Pipeline.Rank` | app.py:92 | the stable descending sort on overall score; its properties are `RankIsStableDescending` and `RankUnique` |
| `Pipeline.RankUnique` | app.py:92 | any stable descending arrangement of the results is the ranking |
| `Pipeline.RankingRowOf` | app.py:98-107 | one table row: the rank, then the result's name and scores; its property is `RankingTableRanks` |
| `Pipeline.RankingTable` | app.py:98-108 | the ranking table's rows; its properties are `RankingTableRanks` |
| `Pipeline.RankingTableRanks` | app.py:98-108 | ranks are 1..n without gaps, rows copy names and scores, overall scores never increase |
| `Pipeline.CsvRecord` | app.py:145-157 | one CSV row; its properties are `CsvRecordRoundTrip` |
| `Pipeline.CsvRows` | app.py:139-157 | the header and the rows of the export; its properties are `ExportRows` and `CsvRanks` |
| `Pipeline.ExportRows` | app.py:144-157 | the export loop writes the header and then one row per stored result |
| `Pipeline.CsvRecordRoundTrip` | app.py:145-157 | each row has one field per column; the numeric fields read back as rank and scores; an empty contact list gives "" |
| `Pipeline.CsvRanks` | app.py:145-149 | the CSV ranks are 1..n in row order |
| `Pipeline.Session.constructor` | app.py:36-37 | the page starts with no stored results |
| `Pipeline.Session.AnalyzeClicked` | app.py:42-93 | with no upload or a blank description it warns and keeps the stored results; otherwise the stored results become the ranked results |
| `Pipeline.Session.ExportClicked` | app.py:136-157 | export happens only with stored results and gives their CSV rows |

## Left out

- The Streamlit page: titles, widgets, spinners, warnings, markdown output and the download button. Only the stored results list and the two button actions are modelled.
- Temporary-file handling (creating, writing and removing `temp_resumes`): it is file I/O with no effect on the results.
- PDF loading: the loader's page contents are an input, `None` when loading raised.
- The recursive text splitter: it is an unseen library, so it is a function parameter (`split`). An exception raised by the splitter inside the retriever's `try` (which would give "") is not modelled: the parameter always returns chunks.
- The embedding model and cosine similarity: floating-point numerics of an external model. The similarities are an input `seq<real>`, or `None` when embedding raised. NaN is not modelled.
- The language-model call and its prompt: network I/O. Its outcome is an oracle parameter with three cases: client missing, exception, or reply content.
- Configuration (`GEMINI_API_KEY`) and all logging: no effect on results.
- Chunk size and overlap: they only configure the splitter, which is not part of this model.
- CSV quoting, line terminators and bytes: rows are modelled as sequences of field values.
- Unicode: `lower`, `isspace`, `\s`, `\d`, `\w` and `\b` are modelled on ASCII only.
- The `except` branches of `get_job_sections` and `extract_links_and_contact`: they cannot be reached when the input is a string. The `.get(key, [])` defaults in the CSV export are likewise never used, because the contact record always has all four lists.
- Search: Python's `int` refuses digit strings longer than 4300 digits (the default integer string conversion limit), which would make `parse_llm_scores` return all zeros; the model converts digit strings of any length.
- Tokens: its own contract states only that each token is non-empty and free of whitespace; that the tokens are the maximal runs is the lemma `TokensAreRuns`.
