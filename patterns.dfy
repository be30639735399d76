/** The pieces of Python's `re` that the program's fixed patterns use: the
    character classes, greedy runs of one class, and the word boundary `\b`,
    all on ASCII. */
module Patterns {
  import opened Strings

  /** The character classes written in the program's patterns. */
  datatype CharClass =
    | Whitespace   // \s
    | Digit        // \d
    | Letter       // [a-zA-Z]
    | EmailLocal   // [a-zA-Z0-9._%+-]
    | EmailDomain  // [a-zA-Z0-9.-]
    | Handle       // [a-zA-Z0-9\-_]
    | WordChar     // \w

  predicate InClass(c: char, cls: CharClass) {
    match cls
    case Whitespace => IsSpace(c)
    case Digit => IsDigit(c)
    case Letter => IsLetter(c)
    case EmailLocal => IsLetter(c) || IsDigit(c) || c in "._%+-"
    case EmailDomain => IsLetter(c) || IsDigit(c) || c in ".-"
    case Handle => IsLetter(c) || IsDigit(c) || c in "-_"
    case WordChar => IsLetter(c) || IsDigit(c) || c == '_'
  }

  /** Where a greedy `cls*` that starts at `i` stops: the first position at
      or after `i` that is the end of the text or holds a character outside
      the class. */
  function RunEnd(s: string, i: nat, cls: CharClass): (j: nat)
    requires i <= |s|
    ensures i <= j <= |s|
    ensures forall k :: i <= k < j ==> InClass(s[k], cls)
    ensures j == |s| || !InClass(s[j], cls)
    decreases |s| - i
  {
    if i == |s| || !InClass(s[i], cls) then i else RunEnd(s, i + 1, cls)
  }

  /** A run is determined by where it starts: any stretch of the class that is
      followed by the end or by a character outside the class is the run. */
  lemma RunEndUnique(s: string, i: nat, cls: CharClass, j: nat)
    requires i <= j <= |s|
    requires forall k :: i <= k < j ==> InClass(s[k], cls)
    requires j == |s| || !InClass(s[j], cls)
    ensures RunEnd(s, i, cls) == j
  {
  }

  /** `\b` at position `i`: exactly one of the characters on either side is a
      word character (outside the text counts as a non-word character). */
  predicate AtBoundary(s: string, i: nat)
    requires i <= |s|
  {
    (0 < i && InClass(s[i - 1], WordChar)) != (i < |s| && InClass(s[i], WordChar))
  }
}
