/** Text normalisation and contact extraction (utils/pdf_utils.py). The PDF
    loader is an oracle: its page contents are an input, `None` when loading
    raised. The four `re.findall` scans are hand-coded matchers that follow
    the regex engine's order of trying alternatives. */
module Extraction {
  import opened Strings
  import opened Patterns

  // -------------------------------------------------------- normalisation

  /** Lower-case, then every whitespace run collapsed to one space. */
  function Normalise(text: string): string {
    Collapse(Lower(text))
  }

  /** `extract_text` after the loader: the pages joined with spaces and
      normalised; "" when the loader raised. */
  function ExtractText(pages: Option<seq<string>>): string {
    match pages
    case None => ""
    case Some(ps) => Normalise(Join(ps, " "))
  }

  /** Normalised text is lower-case, has no leading or trailing whitespace,
      and its only whitespace is single spaces between words. */
  lemma NormaliseShape(text: string)
    ensures var r := Normalise(text);
      NoUpper(r) &&
      (r == [] || (!IsSpace(r[0]) && !IsSpace(r[|r| - 1]))) &&
      SingleSpaced(r)
  {
    LowerProperties(text);
    NormaliseNoUpper(text);
    CollapseShape(Lower(text));
  }

  lemma NormaliseNoUpper(text: string)
    ensures NoUpper(Normalise(text))
  {
    LowerProperties(text);
    TokensNoUpper(Lower(text));
    JoinNoUpper(Tokens(Lower(text)), " ");
  }

  /** Normalisation keeps the words (of the lower-cased text) in order, and
      normalising twice is normalising once. */
  lemma NormaliseKeepsWords(text: string)
    ensures Tokens(Normalise(text)) == Tokens(Lower(text))
    ensures Normalise(Normalise(text)) == Normalise(text)
  {
    CollapseKeepsTokens(Lower(text));
    NormaliseNoUpper(text);
    LowerOfLower(Normalise(text));
  }

  /** A load failure and an all-blank document both give the empty text,
      which the analysis loop then skips. */
  lemma BlankPagesGiveEmptyText(pages: Option<seq<string>>)
    requires pages.Some? ==> AllSpace(Join(pages.value, " "))
    ensures ExtractText(pages) == ""
  {
    if pages.Some? {
      var t := Join(pages.value, " ");
      LowerProperties(t);
      BlankHasNoTokens(Lower(t));
    }
  }

  lemma {:induction false} BlankHasNoTokens(s: string)
    requires AllSpace(s)
    ensures Tokens(s) == []
    decreases |s|
  {
    if s != [] {
      BlankHasNoTokens(s[1..]);
    }
  }

  // ------------------------------------------------------------- matching

  datatype Pattern = Email | Phone | LinkedIn | GitHub

  /** `[a-zA-Z0-9._%+-]+@[a-zA-Z0-9.-]+\.[a-zA-Z]{2,}` read at `i`: a local
      part `i..a`, `@` at `a`, a domain `a+1..p`, a dot at `p` and the
      letters `p+1..e`, at least two. */
  ghost predicate EmailParts(s: string, i: nat, a: nat, p: nat, e: nat) {
    i < a && a + 1 < p && p + 3 <= e <= |s| &&
    (forall k :: i <= k < a ==> InClass(s[k], EmailLocal)) && s[a] == '@' &&
    (forall k :: a < k < p ==> InClass(s[k], EmailDomain)) && s[p] == '.' &&
    (forall k :: p < k < e ==> IsLetter(s[k]))
  }

  /** A dot at `p` followed by at least two letters. */
  predicate DotBeforeLetters(s: string, p: nat) {
    p < |s| && s[p] == '.' && RunEnd(s, p + 1, Letter) >= p + 3
  }

  /** The last position in `lo..hi` with `DotBeforeLetters`: the greedy
      domain run gives back characters one at a time until the rest of the
      pattern matches. */
  function LastDot(s: string, lo: nat, hi: nat): (r: Option<nat>)
    requires hi <= |s|
    ensures r.Some? ==> lo <= r.value < hi && DotBeforeLetters(s, r.value)
    ensures r.Some? ==> forall p :: r.value < p < hi ==> !DotBeforeLetters(s, p)
    ensures r.None? ==> forall p :: lo <= p < hi ==> !DotBeforeLetters(s, p)
    decreases hi
  {
    if hi <= lo then None
    else if DotBeforeLetters(s, hi - 1) then Some(hi - 1)
    else LastDot(s, lo, hi - 1)
  }

  /** Where the email pattern's match at `i` ends, if it matches there. */
  function EmailAt(s: string, i: nat): Option<nat>
    requires i <= |s|
  {
    var a := RunEnd(s, i, EmailLocal);
    if a == i || a == |s| || s[a] != '@' then None
    else
      var d := RunEnd(s, a + 1, EmailDomain);
      match LastDot(s, a + 2, d)
      case None => None
      case Some(p) => Some(RunEnd(s, p + 1, Letter))
  }

  /** `[6-9]\d{9}\b` at `j`. */
  predicate MobileAt(s: string, j: nat) {
    j + 10 <= |s| && '6' <= s[j] <= '9' &&
    (forall k :: j < k < j + 10 ==> IsDigit(s[k])) &&
    AtBoundary(s, j + 10)
  }

  predicate IsPhoneSeparator(c: char) {
    c == '-' || IsSpace(c)
  }

  /** `\b(?:\+91[\-\s]?)?[6-9]\d{9}\b` at `i`, alternatives in the order the
      engine tries them: with `+91` and a separator, with `+91` alone, then
      the bare ten digits. */
  function PhoneAt(s: string, i: nat): Option<nat>
    requires i <= |s|
  {
    if !AtBoundary(s, i) then None
    else if OccursAt(s, "+91", i) && i + 3 < |s| && IsPhoneSeparator(s[i + 3]) && MobileAt(s, i + 4) then Some(i + 14)
    else if OccursAt(s, "+91", i) && MobileAt(s, i + 3) then Some(i + 13)
    else if MobileAt(s, i) then Some(i + 10)
    else None
  }

  /** One of the shapes the phone pattern accepts, ending at `e`. */
  ghost predicate PhoneParts(s: string, i: nat, e: nat) {
    i <= |s| && AtBoundary(s, i) &&
    ((e == i + 14 && OccursAt(s, "+91", i) && i + 3 < |s| && IsPhoneSeparator(s[i + 3]) && MobileAt(s, i + 4)) ||
     (e == i + 13 && OccursAt(s, "+91", i) && MobileAt(s, i + 3)) ||
     (e == i + 10 && MobileAt(s, i)))
  }

  const LinkedInSite := "linkedin.com/in/"
  const GitHubSite := "github.com/"

  /** The handle after the site name: a non-empty greedy run. */
  function HandleAt(s: string, j: nat, site: string): Option<nat> {
    if OccursAt(s, site, j) && RunEnd(s, j + |site|, Handle) > j + |site|
    then Some(RunEnd(s, j + |site|, Handle))
    else None
  }

  /** After the optional scheme: `(?:www\.)?` then the site and handle. */
  function AfterScheme(s: string, j: nat, site: string): Option<nat> {
    if OccursAt(s, "www.", j) && HandleAt(s, j + 4, site).Some? then HandleAt(s, j + 4, site)
    else HandleAt(s, j, site)
  }

  /** `(?:https?://)?(?:www\.)?<site>[a-zA-Z0-9\-_]+` at `i`. */
  function ProfileAt(s: string, i: nat, site: string): Option<nat> {
    if OccursAt(s, "https://", i) && AfterScheme(s, i + 8, site).Some? then AfterScheme(s, i + 8, site)
    else if OccursAt(s, "http://", i) && AfterScheme(s, i + 7, site).Some? then AfterScheme(s, i + 7, site)
    else AfterScheme(s, i, site)
  }

  /** A profile link: scheme, optional `www.`, the site, then the handle
      `h..e`, which cannot be extended. */
  ghost predicate ProfileParts(s: string, i: nat, site: string, scheme: string, www: string, e: nat) {
    (scheme == "https://" || scheme == "http://" || scheme == "") &&
    (www == "www." || www == "") &&
    OccursAt(s, scheme, i) && OccursAt(s, www, i + |scheme|) &&
    OccursAt(s, site, i + |scheme| + |www|) &&
    i + |scheme| + |www| + |site| < e <= |s| &&
    (forall k :: i + |scheme| + |www| + |site| <= k < e ==> InClass(s[k], Handle)) &&
    (e == |s| || !InClass(s[e], Handle))
  }

  /** Where the pattern's match at `i` ends; matches are never empty. */
  function MatchAt(pat: Pattern, s: string, i: nat): (r: Option<nat>)
    requires i <= |s|
    ensures r.Some? ==> i < r.value <= |s|
  {
    match pat
    case Email => EmailMatchBounds(s, i); EmailAt(s, i)
    case Phone => PhoneAt(s, i)
    case LinkedIn => ProfileBounds(s, i, LinkedInSite); ProfileAt(s, i, LinkedInSite)
    case GitHub => ProfileBounds(s, i, GitHubSite); ProfileAt(s, i, GitHubSite)
  }

  lemma EmailMatchBounds(s: string, i: nat)
    requires i <= |s|
    ensures EmailAt(s, i).Some? ==> i < EmailAt(s, i).value <= |s|
  {
  }

  lemma ProfileBounds(s: string, i: nat, site: string)
    requires i <= |s| && site != []
    ensures ProfileAt(s, i, site).Some? ==> i < ProfileAt(s, i, site).value <= |s|
  {
  }

  datatype Span = Span(start: nat, end: nat)

  /** Where a match starting at each position ends. */
  predicate IsMatchTable(m: seq<Option<nat>>) {
    forall j :: 0 <= j < |m| && m[j].Some? ==> j < m[j].value <= |m|
  }

  function MatchTable(pat: Pattern, s: string): (m: seq<Option<nat>>)
    ensures |m| == |s| && IsMatchTable(m)
    ensures forall j :: 0 <= j < |s| ==> m[j] == MatchAt(pat, s, j)
  {
    seq(|s|, j requires 0 <= j < |s| => MatchAt(pat, s, j))
  }

  /** Where span `k` starts, or `n` past the last span. */
  function StartOr(spans: seq<Span>, k: nat, n: nat): nat {
    if k < |spans| then spans[k].start else n
  }

  /** No match starts before the first span or between the end of a span
      and the start of the next (or the end of the text). */
  predicate GapsEmpty(m: seq<Option<nat>>, spans: seq<Span>, from: nat) {
    (forall j :: from <= j < StartOr(spans, 0, |m|) && j < |m| ==> m[j].None?) &&
    (forall k, j :: 0 <= k < |spans| && spans[k].end <= j < StartOr(spans, k + 1, |m|) && j < |m| ==> m[j].None?)
  }

  /** `re.findall`'s scan from position `from`: try each position in turn;
      after a match, resume at its end. The spans found are matches, left to
      right and without overlap, and no match starts in a gap between them
      (so none is skipped). */
  function Scan(m: seq<Option<nat>>, from: nat): (spans: seq<Span>)
    requires from <= |m| && IsMatchTable(m)
    ensures forall k :: 0 <= k < |spans| ==>
      from <= spans[k].start < spans[k].end <= |m| && m[spans[k].start] == Some(spans[k].end)
    ensures forall k :: 0 <= k < |spans| - 1 ==> spans[k].end <= spans[k + 1].start
    ensures GapsEmpty(m, spans, from)
    decreases |m| - from
  {
    if from == |m| then []
    else match m[from]
      case Some(e) =>
        var rest := Scan(m, e);
        ScanStep(m, from, e, rest);
        [Span(from, e)] + rest
      case None =>
        Scan(m, from + 1)
  }

  /** A match at `from` followed by a well-formed scan from its end is a
      well-formed scan from `from`. */
  lemma ScanStep(m: seq<Option<nat>>, from: nat, e: nat, rest: seq<Span>)
    requires from < |m| && IsMatchTable(m) && m[from] == Some(e)
    requires forall k :: 0 <= k < |rest| ==>
      e <= rest[k].start < rest[k].end <= |m| && m[rest[k].start] == Some(rest[k].end)
    requires forall k :: 0 <= k < |rest| - 1 ==> rest[k].end <= rest[k + 1].start
    requires GapsEmpty(m, rest, e)
    ensures var spans := [Span(from, e)] + rest;
      (forall k :: 0 <= k < |spans| ==>
        from <= spans[k].start < spans[k].end <= |m| && m[spans[k].start] == Some(spans[k].end)) &&
      (forall k :: 0 <= k < |spans| - 1 ==> spans[k].end <= spans[k + 1].start) &&
      GapsEmpty(m, spans, from)
  {
    var spans := [Span(from, e)] + rest;
    assert StartOr(spans, 0, |m|) == from;
    forall k, j | 0 <= k < |spans| && spans[k].end <= j < StartOr(spans, k + 1, |m|) && j < |m|
      ensures m[j].None?
    {
      assert StartOr(spans, k + 1, |m|) == StartOr(rest, k, |m|);
      if k > 0 {
        assert spans[k] == rest[k - 1];
      }
    }
    forall k | 0 <= k < |spans| - 1 ensures spans[k].end <= spans[k + 1].start {
      assert spans[k + 1] == rest[k];
      if k > 0 {
        assert spans[k] == rest[k - 1];
      }
    }
    forall k | 0 <= k < |spans|
      ensures from <= spans[k].start < spans[k].end <= |m| && m[spans[k].start] == Some(spans[k].end)
    {
      if k > 0 {
        assert spans[k] == rest[k - 1];
      }
    }
  }

  /** Text `k` of `found` is the match of `pat` over `spans[k]`; the spans
      run left to right without overlap and no match starts in a gap
      between them. */
  ghost predicate FoundAt(pat: Pattern, s: string, found: seq<string>, spans: seq<Span>) {
    |spans| == |found| &&
    (forall k :: 0 <= k < |spans| ==>
      spans[k].start < spans[k].end <= |s| && found[k] == s[spans[k].start..spans[k].end] &&
      MatchAt(pat, s, spans[k].start) == Some(spans[k].end)) &&
    (forall k :: 0 <= k < |spans| - 1 ==> spans[k].end <= spans[k + 1].start) &&
    GapsEmpty(MatchTable(pat, s), spans, 0)
  }

  /** `re.findall` with no group: the matched texts, left to right. */
  function FindAll(pat: Pattern, s: string): (found: seq<string>)
    ensures forall k :: 0 <= k < |found| ==> found[k] != []
    ensures exists spans :: FoundAt(pat, s, found, spans)
  {
    var spans := Scan(MatchTable(pat, s), 0);
    var found := seq(|spans|, k requires 0 <= k < |spans| => s[spans[k].start..spans[k].end]);
    assert FoundAt(pat, s, found, spans);
    found
  }

  datatype Contacts = Contacts(email: seq<string>, phone: seq<string>, linkedin: seq<string>, github: seq<string>)

  /** `extract_links_and_contact`: four independent scans. Its `except`
      branch cannot be reached on a string. */
  function ExtractContacts(text: string): Contacts {
    Contacts(FindAll(Email, text), FindAll(Phone, text), FindAll(LinkedIn, text), FindAll(GitHub, text))
  }

  // ---------------------------------------------------------- properties

  /** A match of the email matcher has the email pattern's shape, ends
      with the longest run of letters after its dot, and is the longest
      text of that shape at `i`: the greedy domain gives back characters
      only down to the last dot that letters follow. */
  lemma EmailSound(s: string, i: nat)
    requires i <= |s| && EmailAt(s, i).Some?
    ensures var e := EmailAt(s, i).value;
      (exists a: nat, p: nat :: EmailParts(s, i, a, p, e)) && (e == |s| || !IsLetter(s[e]))
    ensures forall a: nat, p: nat, e: nat :: EmailParts(s, i, a, p, e) ==> e <= EmailAt(s, i).value
  {
    var a := RunEnd(s, i, EmailLocal);
    var d := RunEnd(s, a + 1, EmailDomain);
    var p := LastDot(s, a + 2, d).value;
    var e := RunEnd(s, p + 1, Letter);
    assert EmailParts(s, i, a, p, e);
    forall a': nat, p': nat, e': nat | EmailParts(s, i, a', p', e') ensures e' <= e {
      EmailEndWithin(s, i, a', p', e');
    }
  }

  /** Any text of the email shape at `i` ends no later than the match. */
  lemma EmailEndWithin(s: string, i: nat, a': nat, p': nat, e': nat)
    requires i <= |s| && EmailAt(s, i).Some? && EmailParts(s, i, a', p', e')
    ensures e' <= EmailAt(s, i).value
  {
    assert !InClass(s[a'], EmailLocal);
    RunEndUnique(s, i, EmailLocal, a');
    var a := a';
    var d := RunEnd(s, a + 1, EmailDomain);
    var p := LastDot(s, a + 2, d).value;
    RunCovers(s, a + 1, EmailDomain, p');
    assert InClass(s[p'], EmailDomain);
    RunCovers(s, p' + 1, Letter, e');
    assert DotBeforeLetters(s, p');
    assert p' <= p;
    if p' == p {
      RunCovers(s, p + 1, Letter, e');
    }
  }

  /** Wherever the email pattern's shape fits at `i`, the matcher finds a
      match at `i`. */
  lemma EmailComplete(s: string, i: nat, a: nat, p: nat, e: nat)
    requires i <= |s| && EmailParts(s, i, a, p, e)
    ensures EmailAt(s, i).Some?
  {
    RunEndUnique(s, i, EmailLocal, a);
    RunCovers(s, a + 1, EmailDomain, p + 1);
    RunCovers(s, p + 1, Letter, e);
    assert DotBeforeLetters(s, p);
  }

  /** The email matcher matches at `i` exactly when the pattern's shape
      fits there. */
  lemma EmailMatchesShape(s: string, i: nat)
    requires i <= |s|
    ensures EmailAt(s, i).Some? <==> exists a: nat, p: nat, e: nat :: EmailParts(s, i, a, p, e)
  {
    if EmailAt(s, i).Some? {
      EmailSound(s, i);
    }
    forall a: nat, p: nat, e: nat | EmailParts(s, i, a, p, e) ensures EmailAt(s, i).Some? {
      EmailComplete(s, i, a, p, e);
    }
  }

  lemma {:induction false} RunCovers(s: string, i: nat, cls: CharClass, j: nat)
    requires i <= j <= |s|
    requires forall k :: i <= k < j ==> InClass(s[k], cls)
    ensures RunEnd(s, i, cls) >= j
    decreases j - i
  {
    if i < j {
      RunCovers(s, i + 1, cls, j);
    }
  }

  /** The phone matcher accepts exactly the phone pattern's shapes and,
      where several fit, returns the one the engine tries first. */
  lemma PhoneMatchesShape(s: string, i: nat)
    requires i <= |s|
    ensures PhoneAt(s, i).Some? <==> exists e: nat :: PhoneParts(s, i, e)
    ensures PhoneAt(s, i).Some? ==> PhoneParts(s, i, PhoneAt(s, i).value)
  {
    if PhoneAt(s, i).Some? {
      assert PhoneParts(s, i, PhoneAt(s, i).value);
    }
  }

  /** Because `\b` comes before `+`, a `+91` that follows a space or starts
      the text is never part of a match there: only the ten digits after it
      can match. */
  lemma PlusAfterNonWordNotMatched(s: string, i: nat)
    requires OccursAt(s, "+91", i)
    requires i == 0 || !InClass(s[i - 1], WordChar)
    ensures PhoneAt(s, i).None?
  {
    assert s[i..i + 3][0] == s[i] == '+';
  }

  /** After a word character, `+91` with a separator is included in the
      match. */
  lemma PlusAfterWordMatched(s: string, i: nat)
    requires 0 < i && OccursAt(s, "+91", i) && InClass(s[i - 1], WordChar)
    requires i + 3 < |s| && IsPhoneSeparator(s[i + 3]) && MobileAt(s, i + 4)
    ensures PhoneAt(s, i) == Some(i + 14)
  {
    assert s[i..i + 3][0] == s[i] == '+';
  }

  /** Ten digits inside a longer run of word characters are not a phone
      number. */
  lemma NoPhoneInsideWord(s: string, i: nat)
    requires 0 < i < |s| && InClass(s[i - 1], WordChar) && InClass(s[i], WordChar)
    ensures PhoneAt(s, i).None?
  {
  }

  /** Two words with different first letters cannot both occur at `i`. */
  lemma FirstCharExcludes(s: string, x: string, y: string, i: nat)
    requires x != [] && y != [] && x[0] != y[0] && OccursAt(s, x, i)
    ensures !OccursAt(s, y, i)
  {
    assert s[i..i + |x|][0] == s[i];
    if i + |y| <= |s| {
      assert s[i..i + |y|][0] == s[i];
    }
  }

  /** After the scheme, the optional `www.` and the handle are read off
      exactly. */
  lemma AfterSchemeExact(s: string, j: nat, site: string, www: string, e: nat)
    requires site == LinkedInSite || site == GitHubSite
    requires www == "www." || www == ""
    requires OccursAt(s, www, j) && OccursAt(s, site, j + |www|)
    requires j + |www| + |site| < e <= |s|
    requires forall k :: j + |www| + |site| <= k < e ==> InClass(s[k], Handle)
    requires e == |s| || !InClass(s[e], Handle)
    ensures AfterScheme(s, j, site) == Some(e)
  {
    RunEndUnique(s, j + |www| + |site|, Handle, e);
    if www == "" {
      FirstCharExcludes(s, site, "www.", j);
    }
  }

  lemma ProfileWithHttps(s: string, i: nat, site: string, e: nat)
    requires OccursAt(s, "https://", i) && AfterScheme(s, i + 8, site) == Some(e)
    ensures ProfileAt(s, i, site) == Some(e)
  {
  }

  lemma ProfileWithHttp(s: string, i: nat, site: string, e: nat)
    requires OccursAt(s, "http://", i) && AfterScheme(s, i + 7, site) == Some(e)
    ensures ProfileAt(s, i, site) == Some(e)
  {
    assert s[i..i + 7][4] == ':';
    if i + 8 <= |s| {
      assert s[i..i + 8][4] == s[i + 4];
    }
  }

  lemma ProfileWithoutScheme(s: string, i: nat, site: string, e: nat)
    requires site == LinkedInSite || site == GitHubSite
    requires OccursAt(s, "www.", i) || OccursAt(s, site, i)
    requires AfterScheme(s, i, site) == Some(e)
    ensures ProfileAt(s, i, site) == Some(e)
  {
    if OccursAt(s, "www.", i) {
      FirstCharExcludes(s, "www.", "https://", i);
      FirstCharExcludes(s, "www.", "http://", i);
    } else {
      FirstCharExcludes(s, site, "https://", i);
      FirstCharExcludes(s, site, "http://", i);
    }
  }

  /** Wherever a profile link's shape fits at `i`, the matcher returns a
      match there that ends where the link's handle ends. */
  lemma ProfileMatchesShape(s: string, i: nat, site: string, scheme: string, www: string, e: nat)
    requires site == LinkedInSite || site == GitHubSite
    requires ProfileParts(s, i, site, scheme, www, e)
    ensures ProfileAt(s, i, site) == Some(e)
  {
    var j := i + |scheme|;
    assert OccursAt(s, www, j) && OccursAt(s, site, j + |www|);
    AfterSchemeExact(s, j, site, www, e);
    if scheme == "https://" {
      assert j == i + 8;
      ProfileWithHttps(s, i, site, e);
    } else if scheme == "http://" {
      assert j == i + 7;
      ProfileWithHttp(s, i, site, e);
    } else {
      assert j == i;
      assert OccursAt(s, "www.", i) || OccursAt(s, site, i);
      ProfileWithoutScheme(s, i, site, e);
    }
  }

  lemma AfterSchemeSound(s: string, j: nat, site: string) returns (www: string)
    requires AfterScheme(s, j, site).Some?
    ensures www == "www." || www == ""
    ensures OccursAt(s, www, j) && HandleAt(s, j + |www|, site) == AfterScheme(s, j, site)
  {
    if OccursAt(s, "www.", j) && HandleAt(s, j + 4, site).Some? {
      www := "www.";
    } else {
      www := "";
      assert s[j..j] == "";
    }
  }

  lemma HandleSound(s: string, h: nat, site: string)
    requires HandleAt(s, h, site).Some?
    ensures var e := HandleAt(s, h, site).value;
      OccursAt(s, site, h) && h + |site| < e <= |s| &&
      (forall k :: h + |site| <= k < e ==> InClass(s[k], Handle)) &&
      (e == |s| || !InClass(s[e], Handle))
  {
  }

  lemma SchemeOf(s: string, i: nat, site: string) returns (scheme: string)
    requires ProfileAt(s, i, site).Some?
    ensures scheme == "https://" || scheme == "http://" || scheme == ""
    ensures OccursAt(s, scheme, i) && AfterScheme(s, i + |scheme|, site) == ProfileAt(s, i, site)
  {
    if OccursAt(s, "https://", i) && AfterScheme(s, i + 8, site).Some? {
      scheme := "https://";
    } else if OccursAt(s, "http://", i) && AfterScheme(s, i + 7, site).Some? {
      scheme := "http://";
    } else {
      scheme := "";
      assert s[i..i] == "";
    }
  }

  /** A match of the profile matcher is a profile link's shape. */
  lemma ProfileSound(s: string, i: nat, site: string)
    requires ProfileAt(s, i, site).Some?
    ensures exists scheme: string, www: string :: ProfileParts(s, i, site, scheme, www, ProfileAt(s, i, site).value)
  {
    var e := ProfileAt(s, i, site).value;
    var scheme := SchemeOf(s, i, site);
    var j := i + |scheme|;
    var www := AfterSchemeSound(s, j, site);
    HandleSound(s, j + |www|, site);
    assert ProfileParts(s, i, site, scheme, www, e);
  }

  /** A text with no match of a pattern gives an empty list for it. */
  lemma NoMatchEmptyList(pat: Pattern, s: string)
    requires forall j :: 0 <= j < |s| ==> MatchAt(pat, s, j).None?
    ensures FindAll(pat, s) == []
  {
    NoMatchScan(MatchTable(pat, s), 0);
  }

  lemma {:induction false} NoMatchScan(m: seq<Option<nat>>, from: nat)
    requires from <= |m| && IsMatchTable(m)
    requires forall j :: from <= j < |m| ==> m[j].None?
    ensures Scan(m, from) == []
    decreases |m| - from
  {
    if from < |m| {
      NoMatchScan(m, from + 1);
    }
  }
}
