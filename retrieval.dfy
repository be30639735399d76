/** The retriever `get_relevant_resume_content` (utils/embedding_utils.py):
    which chunks of the resume are sent to the scorer. The text splitter and
    the embedding model are oracles: the chunks and their similarities to the
    job context are inputs. */
module Retrieval {
  import opened Strings
  import opened StableSort
  import JobSplitter

  /** The retriever's default `top_k` and `similarity_threshold`. */
  const TopK: int := 5
  const SimilarityThreshold: real := 0.5

  /** `[i for i, score in enumerate(sims) if score >= threshold]`, from
      position `from` on. */
  function IndicesAtLeast(sims: seq<real>, threshold: real, from: nat): (r: seq<nat>)
    requires from <= |sims|
    ensures forall i :: i in r <==> from <= i < |sims| && sims[i] >= threshold
    ensures forall k, l :: 0 <= k < l < |r| ==> r[k] < r[l]
    decreases |sims| - from
  {
    if from == |sims| then []
    else
      var rest := IndicesAtLeast(sims, threshold, from + 1);
      var head: seq<nat> := if sims[from] >= threshold then [from] else [];
      assert forall i :: i in head + rest <==> i in head || i in rest;
      forall k | 0 <= k < |rest| ensures from < rest[k] {
        assert rest[k] in rest;
      }
      head + rest
  }

  /** The threshold list holds positions of the similarities that reach the
      threshold, and there are at most as many as similarities. */
  lemma AboveInRange(sims: seq<real>, threshold: real)
    ensures var above := IndicesAtLeast(sims, threshold, 0);
      |above| <= |sims| &&
      forall k :: 0 <= k < |above| ==> above[k] < |sims| && sims[above[k]] >= threshold
  {
    var above := IndicesAtLeast(sims, threshold, 0);
    forall k | 0 <= k < |above| ensures above[k] < |sims| && sims[above[k]] >= threshold {
      assert above[k] in above;
    }
    IncreasingBounded(above, |sims|);
  }

  /** The positions above the threshold; if there are none, the positions
      in descending similarity; either way cut to the first `topK`. */
  function SelectIndices(sims: seq<real>, threshold: real, topK: int): seq<nat> {
    var above := IndicesAtLeast(sims, threshold, 0);
    var chosen := if above != [] then above else Prefix(SortDescending(sims), topK);
    Prefix(chosen, topK)
  }

  predicate AllBelow(sims: seq<real>, threshold: real) {
    forall i :: 0 <= i < |sims| ==> sims[i] < threshold
  }

  /** The threshold list is empty exactly when no similarity reaches the
      threshold, which is when the fallback is taken. */
  lemma AboveEmptyIffAllBelow(sims: seq<real>, threshold: real)
    ensures IndicesAtLeast(sims, threshold, 0) == [] <==> AllBelow(sims, threshold)
  {
    var above := IndicesAtLeast(sims, threshold, 0);
    FirstIsMember(above);
  }

  /** The retriever once it has non-empty chunks: `None` similarities stand
      for an exception raised while embedding. A selected position past the
      last chunk raises `IndexError`; both are caught and give "". */
  function SelectContent(chunks: seq<string>, sims: Option<seq<real>>, threshold: real, topK: int): string {
    match sims
    case None => ""
    case Some(sc) =>
      var sel := SelectIndices(sc, threshold, topK);
      if forall k :: 0 <= k < |sel| ==> sel[k] < |chunks| then Join(Pick(chunks, sel), "\n")
      else ""
  }

  /** `get_relevant_resume_content(resume_text, job_desc)` with its defaults:
      `split` is the text splitter, `similarity` the embedding of the job
      context and of each chunk followed by the cosine similarities. */
  function RelevantResumeContent(
    resumeText: string, jobDesc: string,
    split: string -> seq<string>,
    similarity: (string, seq<string>) -> Option<seq<real>>): string
  {
    var chunks := split(resumeText);
    if chunks == [] then ""
    else SelectContent(chunks, similarity(JobSplitter.JobContext(jobDesc), chunks), SimilarityThreshold, TopK)
  }

  // ---------------------------------------------------------- properties

  /** The selection lists distinct positions of the similarities, at most
      `topK` of them, and at least one when there is a chunk and `topK` is
      positive. */
  lemma SelectionBounds(sims: seq<real>, threshold: real, topK: int)
    ensures var sel := SelectIndices(sims, threshold, topK);
      (forall k :: 0 <= k < |sel| ==> sel[k] < |sims|) &&
      (forall k, l :: 0 <= k < l < |sel| ==> sel[k] != sel[l]) &&
      (topK >= 0 ==> |sel| <= topK) &&
      (sims != [] && topK >= 1 ==> |sel| >= 1)
  {
    var above := IndicesAtLeast(sims, threshold, 0);
    AboveInRange(sims, threshold);
    var order := SortDescending(sims);
    if above == [] && sims != [] && topK >= 1 {
      assert |Prefix(order, topK)| >= 1;
    }
  }

  /** When some chunk reaches the threshold, the selection is the first
      `topK` such chunks in document order: as many as `topK` allows, every
      selected chunk qualifies, and every qualifying chunk left out comes
      after all selected ones. */
  lemma ThresholdSelection(sims: seq<real>, threshold: real, topK: int)
    requires !AllBelow(sims, threshold)
    ensures var sel := SelectIndices(sims, threshold, topK);
      var above := IndicesAtLeast(sims, threshold, 0);
      sel == above[..|sel|] &&
      (topK >= 0 ==> |sel| == Min(topK, |above|)) &&
      (forall k :: 0 <= k < |sel| ==> sel[k] < |sims| && sims[sel[k]] >= threshold) &&
      (forall k, l :: 0 <= k < l < |sel| ==> sel[k] < sel[l]) &&
      (forall i :: 0 <= i < |sims| && sims[i] >= threshold && i !in sel ==>
        forall k :: 0 <= k < |sel| ==> sel[k] < i)
  {
    var above := IndicesAtLeast(sims, threshold, 0);
    AboveInRange(sims, threshold);
    AboveEmptyIffAllBelow(sims, threshold);
    var sel := SelectIndices(sims, threshold, topK);
    assert sel == above[..|sel|];
    LeftOutComesLater(above, |sel|);
  }

  /** In a strictly increasing list, an element outside a prefix is larger
      than every element of the prefix. */
  lemma LeftOutComesLater(s: seq<nat>, n: nat)
    requires n <= |s|
    requires forall k, l :: 0 <= k < l < |s| ==> s[k] < s[l]
    ensures forall x :: x in s && x !in s[..n] ==> forall k :: 0 <= k < n ==> s[k] < x
  {
    forall x | x in s && x !in s[..n] ensures forall k :: 0 <= k < n ==> s[k] < x {
      var m :| 0 <= m < |s| && s[m] == x;
      assert forall k :: 0 <= k < n ==> s[k] in s[..n] by {
        forall k | 0 <= k < n ensures s[k] in s[..n] {
          assert s[..n][k] == s[k];
        }
      }
    }
  }

  /** With `topK` at least the number of qualifying chunks, every qualifying
      chunk is selected. */
  lemma ThresholdKeepsAll(sims: seq<real>, threshold: real, topK: int)
    requires !AllBelow(sims, threshold)
    requires topK >= |sims|
    ensures forall i :: 0 <= i < |sims| && sims[i] >= threshold ==> i in SelectIndices(sims, threshold, topK)
  {
    var above := IndicesAtLeast(sims, threshold, 0);
    AboveInRange(sims, threshold);
    AboveEmptyIffAllBelow(sims, threshold);
    assert SelectIndices(sims, threshold, topK) == above;
  }

  /** Strictly increasing positions below `n` number at most `n`. */
  lemma {:induction false} IncreasingBounded(r: seq<nat>, n: nat)
    requires forall k :: 0 <= k < |r| ==> r[k] < n
    requires forall k, l :: 0 <= k < l < |r| ==> r[k] < r[l]
    ensures |r| <= n
    decreases n
  {
    if r != [] {
      var last := r[|r| - 1];
      var init := r[..|r| - 1];
      forall k | 0 <= k < |init| ensures init[k] < last {
      }
      IncreasingBounded(init, last);
    }
  }

  /** When no chunk reaches the threshold, the selection is the first `topK`
      positions in descending similarity (ties by position): it is in that
      order, and every chunk left out is preceded by every selected one. The
      chunks then come in similarity order, not document order. */
  lemma FallbackSelection(sims: seq<real>, threshold: real, topK: int)
    requires AllBelow(sims, threshold)
    ensures var sel := SelectIndices(sims, threshold, topK);
      |sel| <= |sims| && sel == SortDescending(sims)[..|sel|] &&
      (topK >= 0 ==> |sel| == Min(topK, |sims|)) &&
      InRange(sims, sel) && Sorted(sims, sel) &&
      (forall j :: 0 <= j < |sims| && j !in sel ==>
        forall k :: 0 <= k < |sel| ==> Precedes(sims, sel[k], j))
  {
    AboveEmptyIffAllBelow(sims, threshold);
    var order := SortDescending(sims);
    var sel := SelectIndices(sims, threshold, topK);
    assert sel == order[..|sel|];
    SortedPrefixPrecedes(sims, order, |sel|);
  }

  /** With chunks and similarities of the same length, the content is the
      selected chunks joined by newlines, and when no chunk contains a
      newline, splitting the content at newlines gives back exactly the
      selected chunks in selection order. */
  lemma ContentIsSelectedChunks(chunks: seq<string>, sims: seq<real>, threshold: real, topK: int)
    requires |chunks| == |sims|
    ensures var sel := SelectIndices(sims, threshold, topK);
      (forall k :: 0 <= k < |sel| ==> sel[k] < |chunks|) &&
      SelectContent(chunks, Some(sims), threshold, topK) == Join(Pick(chunks, sel), "\n")
    ensures var sel := SelectIndices(sims, threshold, topK);
      sel != [] && (forall k :: 0 <= k < |chunks| ==> !Contains(chunks[k], "\n")) ==>
      Split(SelectContent(chunks, Some(sims), threshold, topK), "\n") == Pick(chunks, sel)
  {
    SelectionBounds(sims, threshold, topK);
    var sel := SelectIndices(sims, threshold, topK);
    var picked := Pick(chunks, sel);
    if sel != [] && (forall k :: 0 <= k < |chunks| ==> !Contains(chunks[k], "\n")) {
      SplitJoin(picked, "\n");
    }
  }

  /** No chunks, or an exception while embedding, give the empty string. */
  lemma NoChunksOrNoSimilarities(
    resumeText: string, jobDesc: string,
    split: string -> seq<string>,
    similarity: (string, seq<string>) -> Option<seq<real>>)
    requires split(resumeText) == [] || similarity(JobSplitter.JobContext(jobDesc), split(resumeText)).None?
    ensures RelevantResumeContent(resumeText, jobDesc, split, similarity) == ""
  {
  }

  /** A selected position past the last chunk raises `IndexError`, which
      is caught and gives "". */
  lemma IndexErrorGivesEmpty(chunks: seq<string>, sims: seq<real>, threshold: real, topK: int)
    requires exists k ::
      0 <= k < |SelectIndices(sims, threshold, topK)| && SelectIndices(sims, threshold, topK)[k] >= |chunks|
    ensures SelectContent(chunks, Some(sims), threshold, topK) == ""
  {
  }

  /** Similarities longer than the chunk list can make the selection point
      past the last chunk: one chunk, and only the second similarity reaches
      the threshold. */
  lemma IndexErrorExample()
    ensures SelectContent(["only chunk"], Some([0.2, 0.9]), 0.5, 5) == ""
  {
    var sims: seq<real> := [0.2, 0.9];
    assert IndicesAtLeast(sims, 0.5, 2) == [];
    assert IndicesAtLeast(sims, 0.5, 1) == [1];
    assert IndicesAtLeast(sims, 0.5, 0) == [1];
    assert SelectIndices(sims, 0.5, 5) == [1];
  }
}
