/** The Python string operations the resume matcher relies on (`in`, `lower`,
    `split`, `join`, `strip`, slicing, `int` and `str` on digits), restricted
    to ASCII text. */
module Strings {

  datatype Option<+T> = None | Some(value: T)

  /** `str.isspace()` on ASCII: tab, line feed, vertical tab, form feed,
      carriage return, the separators 0x1C-0x1F and space. */
  predicate IsSpace(c: char) {
    9 <= c as int <= 13 || 28 <= c as int <= 32
  }

  predicate IsDigit(c: char) { '0' <= c <= '9' }

  predicate IsUpper(c: char) { 'A' <= c <= 'Z' }

  predicate IsLetter(c: char) { 'a' <= c <= 'z' || 'A' <= c <= 'Z' }

  predicate NoUpper(s: string) {
    forall k :: 0 <= k < |s| ==> !IsUpper(s[k])
  }

  predicate AllSpace(s: string) {
    forall k :: 0 <= k < |s| ==> IsSpace(s[k])
  }

  // ---------------------------------------------------------------- lower

  /** `str.lower()` on one character: only A-Z change. */
  function LowerChar(c: char): char {
    if IsUpper(c) then (c as int + 32) as char else c
  }

  function Lower(s: string): string {
    seq(|s|, k requires 0 <= k < |s| => LowerChar(s[k]))
  }

  /** Lowering turns each of `A`-`Z` into the letter at the same place in
      `a`-`z`, keeps every other character (whitespace in particular), leaves
      no upper-case letter and is idempotent. */
  lemma LowerProperties(s: string)
    ensures |Lower(s)| == |s| && NoUpper(Lower(s))
    ensures forall k :: 0 <= k < |s| && IsUpper(s[k]) ==>
      'a' <= Lower(s)[k] <= 'z' && Lower(s)[k] as int - 'a' as int == s[k] as int - 'A' as int
    ensures forall k :: 0 <= k < |s| && !IsUpper(s[k]) ==> Lower(s)[k] == s[k]
    ensures forall k :: 0 <= k < |s| ==> IsSpace(Lower(s)[k]) == IsSpace(s[k])
    ensures Lower(Lower(s)) == Lower(s)
  {
  }

  // ----------------------------------------------------------- substrings

  predicate OccursAt(s: string, pat: string, i: nat) {
    i + |pat| <= |s| && s[i..i + |pat|] == pat
  }

  /** `s.find(pat, from)`: the leftmost occurrence at or after `from`. */
  function FindFrom(s: string, pat: string, from: nat): (r: Option<nat>)
    requires from <= |s|
    ensures r.Some? ==> from <= r.value <= |s| && OccursAt(s, pat, r.value)
    ensures r.Some? ==> forall j :: from <= j < r.value ==> !OccursAt(s, pat, j)
    ensures r.None? ==> forall j :: from <= j <= |s| ==> !OccursAt(s, pat, j)
    decreases |s| - from
  {
    if OccursAt(s, pat, from) then Some(from)
    else if from == |s| then None
    else FindFrom(s, pat, from + 1)
  }

  /** Python's `pat in s`. */
  predicate Contains(s: string, pat: string) {
    FindFrom(s, pat, 0).Some?
  }

  lemma OccursInPrefix(s: string, pat: string, n: nat, i: nat)
    requires n <= |s| && OccursAt(s[..n], pat, i)
    ensures OccursAt(s, pat, i) && i + |pat| <= n
  {
    assert s[..n][i..i + |pat|] == s[i..i + |pat|];
  }

  // ---------------------------------------------------------- join, split

  /** `sep.join(parts)`. */
  function Join(parts: seq<string>, sep: string): string {
    if |parts| == 0 then ""
    else if |parts| == 1 then parts[0]
    else parts[0] + sep + Join(parts[1..], sep)
  }

  /** Joining two non-empty lists puts one separator between their joins. */
  lemma {:induction false} JoinAppend(a: seq<string>, b: seq<string>, sep: string)
    requires a != [] && b != []
    ensures Join(a + b, sep) == Join(a, sep) + sep + Join(b, sep)
    decreases |a|
  {
    if |a| == 1 {
      assert (a + b)[1..] == b;
    } else {
      assert (a + b)[1..] == a[1..] + b;
      JoinAppend(a[1..], b, sep);
    }
  }

  /** `s.split(sep)` for a non-empty separator: cut at every occurrence,
      scanning left to right. */
  function Split(s: string, sep: string): (parts: seq<string>)
    requires sep != []
    ensures |parts| >= 1
    ensures forall k :: 0 <= k < |parts| ==> !Contains(parts[k], sep)
    decreases |s|
  {
    match FindFrom(s, sep, 0)
    case None => [s]
    case Some(k) =>
      var head := s[..k];
      assert !Contains(head, sep) by {
        if Contains(head, sep) {
          var j := FindFrom(head, sep, 0).value;
          OccursInPrefix(s, sep, k, j);
        }
      }
      [head] + Split(s[k + |sep|..], sep)
  }

  /** Splitting and joining with the same separator gives the text back. */
  lemma {:induction false} JoinSplit(s: string, sep: string)
    requires sep != []
    ensures Join(Split(s, sep), sep) == s
    decreases |s|
  {
    var f := FindFrom(s, sep, 0);
    if f.Some? {
      var k := f.value;
      var rest := s[k + |sep|..];
      var tail := Split(rest, sep);
      JoinSplit(rest, sep);
      var parts := Split(s, sep);
      assert parts == [s[..k]] + tail;
      assert parts[1..] == tail;
      calc {
        Join(parts, sep);
        s[..k] + sep + Join(tail, sep);
        s[..k] + sep + rest;
        { assert s[k..k + |sep|] == sep; }
        s;
      }
    }
  }

  /** The first cut of `p + sep + rest` is right after `p` when `p` does not
      contain the one-character separator. */
  lemma SplitAfterPiece(p: string, sep: string, rest: string)
    requires |sep| == 1 && !Contains(p, sep)
    ensures Split(p + sep + rest, sep) == [p] + Split(rest, sep)
  {
    var s := p + sep + rest;
    assert OccursAt(s, sep, |p|) by {
      assert s[|p|..|p| + 1] == sep;
    }
    forall j | 0 <= j < |p| ensures !OccursAt(s, sep, j) {
      assert s[j..j + 1] == p[j..j + 1];
      assert !OccursAt(p, sep, j);
    }
    assert FindFrom(s, sep, 0) == Some(|p|);
    assert s[..|p|] == p;
    assert s[|p| + 1..] == rest;
  }

  /** Joining pieces that do not contain a one-character separator and
      splitting the result at that separator gives the pieces back. */
  lemma {:induction false} SplitJoin(parts: seq<string>, sep: string)
    requires |sep| == 1 && parts != []
    requires forall k :: 0 <= k < |parts| ==> !Contains(parts[k], sep)
    ensures Split(Join(parts, sep), sep) == parts
    decreases |parts|
  {
    if |parts| > 1 {
      SplitAfterPiece(parts[0], sep, Join(parts[1..], sep));
      SplitJoin(parts[1..], sep);
      assert parts == [parts[0]] + parts[1..];
    }
  }

  /** The first piece is the text before the first occurrence; there is a
      second piece exactly when the separator occurs, and it runs from the end
      of the first occurrence to the next occurrence (or to the end). */
  lemma SplitPieces(s: string, sep: string)
    requires sep != []
    ensures FindFrom(s, sep, 0).None? ==> Split(s, sep) == [s]
    ensures |Split(s, sep)| >= 2 <==> Contains(s, sep)
    ensures FindFrom(s, sep, 0).Some? ==>
      var k := FindFrom(s, sep, 0).value;
      Split(s, sep)[0] == s[..k] &&
      Split(s, sep)[1] == Split(s[k + |sep|..], sep)[0]
  {
    match FindFrom(s, sep, 0)
    case None =>
      assert Split(s, sep) == [s];
    case Some(k) =>
      var rest := Split(s[k + |sep|..], sep);
      assert Split(s, sep) == [s[..k]] + rest;
      assert |rest| >= 1;
  }

  /** Every piece of a split is a slice of the text, so splitting a text with
      no upper-case letter yields pieces with none. */
  lemma {:induction false} SplitNoUpper(s: string, sep: string)
    requires sep != [] && NoUpper(s)
    ensures forall k :: 0 <= k < |Split(s, sep)| ==> NoUpper(Split(s, sep)[k])
    decreases |s|
  {
    match FindFrom(s, sep, 0)
    case None =>
    case Some(k) =>
      SplitNoUpper(s[k + |sep|..], sep);
      assert Split(s, sep) == [s[..k]] + Split(s[k + |sep|..], sep);
  }

  lemma {:induction false} JoinNoUpper(parts: seq<string>, sep: string)
    requires NoUpper(sep) && forall k :: 0 <= k < |parts| ==> NoUpper(parts[k])
    ensures NoUpper(Join(parts, sep))
    decreases |parts|
  {
    if |parts| >= 2 {
      JoinNoUpper(parts[1..], sep);
    }
  }

  /** The join begins with the first part. */
  lemma {:induction false} JoinStartsWithFirst(parts: seq<string>, sep: string)
    requires parts != []
    ensures |parts[0]| <= |Join(parts, sep)| && Join(parts, sep)[..|parts[0]|] == parts[0]
  {
    if |parts| >= 2 {
      assert Join(parts, sep) == parts[0] + (sep + Join(parts[1..], sep));
    }
  }

  // ---------------------------------------------------------------- strip

  function StripLeft(s: string): (r: string)
    ensures |r| <= |s| && r == s[|s| - |r|..]
    ensures forall k :: 0 <= k < |s| - |r| ==> IsSpace(s[k])
    ensures r == [] || !IsSpace(r[0])
    decreases |s|
  {
    if s != [] && IsSpace(s[0]) then StripLeft(s[1..]) else s
  }

  function StripRight(s: string): (r: string)
    ensures |r| <= |s| && r == s[..|r|]
    ensures forall k :: |r| <= k < |s| ==> IsSpace(s[k])
    ensures r == [] || !IsSpace(r[|r| - 1])
    decreases |s|
  {
    if s != [] && IsSpace(s[|s| - 1]) then StripRight(s[..|s| - 1]) else s
  }

  /** `r` is `s` with the whitespace `s[..a]` and `s[a + |r|..]` cut off. */
  ghost predicate StrippedAt(s: string, a: nat, r: string) {
    a + |r| <= |s| && r == s[a..a + |r|] &&
    (forall k :: 0 <= k < a ==> IsSpace(s[k])) &&
    (forall k :: a + |r| <= k < |s| ==> IsSpace(s[k]))
  }

  /** `str.strip()`: the slice between the first and the last non-whitespace
      character, empty exactly when the text is all whitespace. */
  function Strip(s: string): (r: string)
    ensures exists a :: StrippedAt(s, a, r)
    ensures r == [] <==> AllSpace(s)
    ensures r == [] || (!IsSpace(r[0]) && !IsSpace(r[|r| - 1]))
  {
    var l := StripLeft(s);
    var r := StripRight(l);
    assert StrippedAt(s, |s| - |l|, r);
    r
  }

  lemma StripNoUpper(s: string)
    requires NoUpper(s)
    ensures NoUpper(Strip(s))
  {
    var a :| StrippedAt(s, a, Strip(s));
  }

  // --------------------------------------------------------------- tokens

  predicate IsToken(w: string) {
    w != [] && forall k :: 0 <= k < |w| ==> !IsSpace(w[k])
  }

  function TokenEnd(s: string, i: nat): (j: nat)
    requires i <= |s|
    ensures i <= j <= |s|
    ensures forall k :: i <= k < j ==> !IsSpace(s[k])
    ensures j == |s| || IsSpace(s[j])
    decreases |s| - i
  {
    if i == |s| || IsSpace(s[i]) then i else TokenEnd(s, i + 1)
  }

  /** `str.split()` with no argument: the maximal runs of non-whitespace. */
  function Tokens(s: string): (ws: seq<string>)
    ensures forall k :: 0 <= k < |ws| ==> IsToken(ws[k])
    decreases |s|
  {
    if s == [] then []
    else if IsSpace(s[0]) then Tokens(s[1..])
    else
      var n := TokenEnd(s, 0);
      [s[..n]] + Tokens(s[n..])
  }

  /** `w` is the text of `s` at `p`, with whitespace or an end on either
      side. */
  ghost predicate RunAt(s: string, w: string, p: nat) {
    p + |w| <= |s| && w == s[p..p + |w|] &&
    (p == 0 || IsSpace(s[p - 1])) &&
    (p + |w| == |s| || IsSpace(s[p + |w|]))
  }

  /** Every non-whitespace character of `s` lies in one of the runs. */
  ghost predicate Covered(s: string, ws: seq<string>, st: seq<nat>)
    requires |st| == |ws|
  {
    forall i :: 0 <= i < |s| && !IsSpace(s[i]) ==>
      exists k :: 0 <= k < |ws| && st[k] <= i < st[k] + |ws[k]|
  }

  /** Token `k` of `ws` is a run of `s` at `st[k]`; the runs come left to
      right, apart, and cover every non-whitespace character. With tokens
      free of whitespace, they are exactly the maximal runs. */
  ghost predicate TokenLayout(s: string, ws: seq<string>, st: seq<nat>) {
    |st| == |ws| &&
    (forall k :: 0 <= k < |ws| ==> RunAt(s, ws[k], st[k])) &&
    (forall k :: 0 < k < |ws| ==> st[k - 1] + |ws[k - 1]| < st[k]) &&
    Covered(s, ws, st)
  }

  function Shift(st: seq<nat>, d: nat): (r: seq<nat>)
    ensures |r| == |st| && forall k :: 0 <= k < |st| ==> r[k] == st[k] + d
  {
    seq(|st|, k requires 0 <= k < |st| => st[k] + d)
  }

  /** `str.split()` cuts the text into its maximal runs of non-whitespace,
      left to right, and loses no non-whitespace character. */
  lemma {:induction false} TokensAreRuns(s: string)
    ensures exists st :: TokenLayout(s, Tokens(s), st)
    decreases |s|
  {
    if s == [] {
      assert TokenLayout(s, Tokens(s), []);
    } else if IsSpace(s[0]) {
      TokensAreRuns(s[1..]);
      var st :| TokenLayout(s[1..], Tokens(s[1..]), st);
      LayoutAfterSpace(s, Tokens(s), st);
    } else {
      var n := TokenEnd(s, 0);
      assert Tokens(s) == [s[..n]] + Tokens(s[n..]);
      TokensAreRuns(s[n..]);
      var st :| TokenLayout(s[n..], Tokens(s[n..]), st);
      LayoutAfterToken(s, n, Tokens(s[n..]), st);
    }
  }

  /** A run of `s[d..]` is a run of `s`, `d` further on, when it does not
      start at `0` or whitespace precedes `d`. */
  lemma RunAtShift(s: string, d: nat, w: string, p: nat)
    requires d <= |s| && RunAt(s[d..], w, p) && (p == 0 ==> d == 0 || IsSpace(s[d - 1]))
    ensures RunAt(s, w, p + d)
  {
    assert s[d..][p..p + |w|] == s[p + d..p + d + |w|];
    if p > 0 {
      assert s[d..][p - 1] == s[p + d - 1];
    }
    if p + |w| < |s| - d {
      assert s[d..][p + |w|] == s[p + d + |w|];
    }
  }

  /** Covering `s[d..]` with runs covers all of `s` from `d` on. */
  lemma CoveredShift(s: string, d: nat, ws: seq<string>, st: seq<nat>, i: nat)
    requires d <= i < |s| && !IsSpace(s[i]) && |st| == |ws| && Covered(s[d..], ws, st)
    ensures exists k :: 0 <= k < |ws| && st[k] + d <= i < st[k] + d + |ws[k]|
  {
    assert s[d..][i - d] == s[i];
    var k :| 0 <= k < |ws| && st[k] <= i - d < st[k] + |ws[k]|;
  }

  /** A leading whitespace character shifts every run by one. */
  lemma LayoutAfterSpace(s: string, ws: seq<string>, st: seq<nat>)
    requires s != [] && IsSpace(s[0]) && TokenLayout(s[1..], ws, st)
    ensures TokenLayout(s, ws, Shift(st, 1))
  {
    var st1 := Shift(st, 1);
    forall k | 0 <= k < |ws| ensures RunAt(s, ws[k], st1[k]) {
      RunAtShift(s, 1, ws[k], st[k]);
    }
    forall i | 0 <= i < |s| && !IsSpace(s[i])
      ensures exists k :: 0 <= k < |ws| && st1[k] <= i < st1[k] + |ws[k]|
    {
      CoveredShift(s, 1, ws, st, i);
    }
  }

  /** A leading run `s[..n]` comes first, and the runs of `s[n..]` follow
      shifted by `n`. */
  lemma LayoutAfterToken(s: string, n: nat, ws: seq<string>, st: seq<nat>)
    requires 0 < n <= |s| && (forall k :: 0 <= k < n ==> !IsSpace(s[k]))
    requires n == |s| || IsSpace(s[n])
    requires TokenLayout(s[n..], ws, st) && forall k :: 0 <= k < |ws| ==> IsToken(ws[k])
    ensures TokenLayout(s, [s[..n]] + ws, [0] + Shift(st, n))
  {
    RunsAfterToken(s, n, ws, st);
    OrderAfterToken(s[..n], ws, st);
    CoveredAfterToken(s, n, ws, st);
  }

  lemma RunsAfterToken(s: string, n: nat, ws: seq<string>, st: seq<nat>)
    requires 0 < n <= |s| && (forall k :: 0 <= k < n ==> !IsSpace(s[k]))
    requires n == |s| || IsSpace(s[n])
    requires |st| == |ws| && forall k :: 0 <= k < |ws| ==> RunAt(s[n..], ws[k], st[k]) && IsToken(ws[k])
    ensures ws != [] ==> st[0] > 0
    ensures var all, st1 := [s[..n]] + ws, [0] + Shift(st, n);
      forall k :: 0 <= k < |all| ==> RunAt(s, all[k], st1[k])
  {
    var all, st1 := [s[..n]] + ws, [0] + Shift(st, n);
    assert RunAt(s, all[0], 0);
    forall k | 0 < k < |all| ensures RunAt(s, all[k], st1[k]) {
      assert all[k] == ws[k - 1] && st1[k] == st[k - 1] + n;
      RunAfterToken(s, n, ws[k - 1], st[k - 1]);
    }
    if ws != [] {
      RunAfterToken(s, n, ws[0], st[0]);
    }
  }

  /** Runs apart and in order stay so behind a first run that ends before
      the second starts. */
  lemma OrderAfterToken(w: string, ws: seq<string>, st: seq<nat>)
    requires |st| == |ws| && (ws != [] ==> st[0] > 0)
    requires forall k :: 0 < k < |ws| ==> st[k - 1] + |ws[k - 1]| < st[k]
    ensures var all, st1 := [w] + ws, [0] + Shift(st, |w|);
      forall k :: 0 < k < |all| ==> st1[k - 1] + |all[k - 1]| < st1[k]
  {
    var all, st1 := [w] + ws, [0] + Shift(st, |w|);
    forall k | 0 < k < |all| ensures st1[k - 1] + |all[k - 1]| < st1[k] {
      if k > 1 {
        assert all[k - 1] == ws[k - 2] && st1[k - 1] == st[k - 2] + |w| && st1[k] == st[k - 1] + |w|;
      }
    }
  }

  /** A token of `s[n..]`, after a leading run `s[..n]` and the whitespace
      that ends it, does not start at `0` of `s[n..]` and is a run of `s`. */
  lemma RunAfterToken(s: string, n: nat, w: string, p: nat)
    requires 0 < n <= |s| && (n == |s| || IsSpace(s[n]))
    requires RunAt(s[n..], w, p) && IsToken(w)
    ensures p > 0 && RunAt(s, w, p + n)
  {
    assert s[n..][p] == w[0];
    RunAtShift(s, n, w, p);
  }

  lemma CoveredAfterToken(s: string, n: nat, ws: seq<string>, st: seq<nat>)
    requires 0 < n <= |s| && |st| == |ws| && Covered(s[n..], ws, st)
    ensures Covered(s, [s[..n]] + ws, [0] + Shift(st, n))
  {
    var all, st1 := [s[..n]] + ws, [0] + Shift(st, n);
    forall i | 0 <= i < |s| && !IsSpace(s[i])
      ensures exists k :: 0 <= k < |all| && st1[k] <= i < st1[k] + |all[k]|
    {
      if i >= n {
        CoveredShift(s, n, ws, st, i);
        var j :| 0 <= j < |ws| && st[j] + n <= i < st[j] + n + |ws[j]|;
        assert all[j + 1] == ws[j] && st1[j + 1] == st[j] + n;
      } else {
        assert st1[0] <= i < st1[0] + |all[0]|;
      }
    }
  }

  /** `" ".join(s.split())`: collapse every whitespace run to one space. */
  function Collapse(s: string): string {
    Join(Tokens(s), " ")
  }

  /** A text in which every whitespace character is a single space between
      two non-whitespace characters. */
  predicate SingleSpaced(r: string) {
    forall k :: 0 <= k < |r| && IsSpace(r[k]) ==>
      r[k] == ' ' && 0 < k < |r| - 1 && !IsSpace(r[k - 1]) && !IsSpace(r[k + 1])
  }

  lemma {:induction false} JoinTokensShape(ws: seq<string>)
    requires forall k :: 0 <= k < |ws| ==> IsToken(ws[k])
    ensures var r := Join(ws, " ");
      (r == [] <==> ws == []) &&
      (r != [] ==> !IsSpace(r[0]) && !IsSpace(r[|r| - 1])) &&
      SingleSpaced(r)
    decreases |ws|
  {
    if |ws| >= 2 {
      JoinTokensShape(ws[1..]);
      var w, rest := ws[0], Join(ws[1..], " ");
      var r := Join(ws, " ");
      assert r == w + " " + rest;
      forall k | 0 <= k < |r| && IsSpace(r[k])
        ensures r[k] == ' ' && 0 < k < |r| - 1 && !IsSpace(r[k - 1]) && !IsSpace(r[k + 1])
      {
        if k > |w| {
          assert r[k] == rest[k - |w| - 1];
          assert r[k - 1] == rest[k - |w| - 2] && r[k + 1] == rest[k - |w|];
        }
      }
    }
  }

  /** Collapsed text has no leading, trailing or doubled whitespace, and no
      whitespace other than single spaces. */
  lemma CollapseShape(s: string)
    ensures var r := Collapse(s);
      (r == [] || (!IsSpace(r[0]) && !IsSpace(r[|r| - 1]))) && SingleSpaced(r)
  {
    JoinTokensShape(Tokens(s));
  }

  /** Splitting a space-joined list of tokens gives the tokens back. */
  lemma {:induction false} TokensOfJoin(ws: seq<string>)
    requires forall k :: 0 <= k < |ws| ==> IsToken(ws[k])
    ensures Tokens(Join(ws, " ")) == ws
    decreases |ws|
  {
    if |ws| == 1 {
      var w := ws[0];
      assert Join(ws, " ") == w;
      assert !IsSpace(w[0]);
      assert TokenEnd(w, 0) == |w|;
      assert Tokens(w) == [w[..|w|]] + Tokens(w[|w|..]);
      assert w[|w|..] == [] && w[..|w|] == w;
    } else if |ws| >= 2 {
      var w, rest := ws[0], Join(ws[1..], " ");
      var s := Join(ws, " ");
      assert s == w + " " + rest;
      assert s[|w|] == ' ';
      var n := TokenEnd(s, 0);
      assert n == |w|;
      assert s[..n] == w;
      assert s[n..] == [' '] + rest;
      assert s[n..][1..] == rest;
      TokensOfJoin(ws[1..]);
    }
  }

  /** Collapsing keeps the token sequence, hence is idempotent. */
  lemma CollapseKeepsTokens(s: string)
    ensures Tokens(Collapse(s)) == Tokens(s)
    ensures Collapse(Collapse(s)) == Collapse(s)
  {
    TokensOfJoin(Tokens(s));
  }

  /** The tokens of a text with no upper-case letter have none either. */
  lemma {:induction false} TokensNoUpper(s: string)
    requires NoUpper(s)
    ensures forall k :: 0 <= k < |Tokens(s)| ==> NoUpper(Tokens(s)[k])
    decreases |s|
  {
    if s != [] {
      if IsSpace(s[0]) {
        TokensNoUpper(s[1..]);
      } else {
        var n := TokenEnd(s, 0);
        TokensNoUpper(s[n..]);
        assert Tokens(s) == [s[..n]] + Tokens(s[n..]);
      }
    }
  }

  /** Lowering a text that has no upper-case letter changes nothing. */
  lemma LowerOfLower(s: string)
    requires NoUpper(s)
    ensures Lower(s) == s
  {
  }

  // -------------------------------------------------------------- slicing

  function Min(a: int, b: int): int { if a <= b then a else b }

  /** Python's `s[:k]`, including a negative `k` counted from the end. */
  function Prefix<T>(s: seq<T>, k: int): (r: seq<T>)
    ensures |r| <= |s| && r == s[..|r|]
    ensures k >= 0 ==> |r| == Min(k, |s|)
    ensures k < 0 ==> |r| == if |s| + k < 0 then 0 else |s| + k
  {
    if k >= 0 then s[..Min(k, |s|)]
    else if |s| + k < 0 then []
    else s[..|s| + k]
  }

  // --------------------------------------------------------------- digits

  predicate AllDigits(s: string) {
    forall k :: 0 <= k < |s| ==> IsDigit(s[k])
  }

  /** `int(ds)` for a string of ASCII digits (leading zeros allowed). */
  function DigitsValue(ds: string): nat
    requires AllDigits(ds)
  {
    if ds == [] then 0
    else 10 * DigitsValue(ds[..|ds| - 1]) + (ds[|ds| - 1] as int - '0' as int)
  }

  function DigitChar(d: nat): (c: char)
    requires d < 10
    ensures IsDigit(c) && c as int - '0' as int == d
  {
    ('0' as int + d) as char
  }

  /** `str(n)` for a non-negative integer: decimal, no leading zero. */
  function NatToString(n: nat): (r: string)
    ensures r != [] && AllDigits(r)
    ensures |r| > 1 ==> r[0] != '0'
    decreases n
  {
    if n < 10 then [DigitChar(n)]
    else NatToString(n / 10) + [DigitChar(n % 10)]
  }

  /** `int(str(n)) == n`. */
  lemma {:induction false} NatToStringRoundTrip(n: nat)
    ensures DigitsValue(NatToString(n)) == n
    decreases n
  {
    if n >= 10 {
      var t := NatToString(n / 10);
      var r := NatToString(n);
      assert r == t + [DigitChar(n % 10)];
      assert r[..|r| - 1] == t;
      NatToStringRoundTrip(n / 10);
    }
  }
}
