/** The character classes of the regular expressions, read as ASCII (an
    assumption of the model: the Android regex engine reads `\s`, `\d`
    and `\w` Unicode-aware, which agrees on ASCII text), and the ASCII case
    folding used on display names. */
module CharClasses {

  /** `\s`: space, tab, newline, vertical tab, form feed, carriage return. */
  predicate IsSpace(c: char) {
    c == ' ' || c == '\t' || c == '\n' || c == '\U{000B}' || c == '\U{000C}' || c == '\r'
  }

  /** `\d`: an ASCII decimal digit. */
  predicate IsDigit(c: char) {
    '0' <= c <= '9'
  }

  predicate IsLetter(c: char) {
    'a' <= c <= 'z' || 'A' <= c <= 'Z'
  }

  /** `\w`: letter, digit or underscore; also what `\b` looks at. */
  predicate IsWord(c: char) {
    IsLetter(c) || IsDigit(c) || c == '_'
  }

  /** Characters that `.` refuses when DOTALL is off. */
  predicate IsLineTerminator(c: char) {
    c == '\n' || c == '\r' || c == '\U{0085}' || c == '\U{2028}' || c == '\U{2029}'
  }

  /** `[A-Za-z_]`: first character of a tag name. */
  predicate IsTagNameStart(c: char) {
    IsLetter(c) || c == '_'
  }

  /** `[A-Za-z_:]`: first character of an attribute name. */
  predicate IsAttrNameStart(c: char) {
    IsLetter(c) || c == '_' || c == ':'
  }

  /** `[\w:.-]`: any later character of a tag or attribute name. */
  predicate IsNameChar(c: char) {
    IsWord(c) || c == ':' || c == '.' || c == '-'
  }

  /** `\b` at position `i`: exactly one of the neighbouring characters is a word character. */
  predicate IsBoundary(t: seq<char>, i: nat) {
    (0 < i <= |t| && IsWord(t[i - 1])) != (i < |t| && IsWord(t[i]))
  }

  /** End of the longest run of characters of a class starting at `p`;
      the greedy `X*` of a regex when nothing after it can fail. */
  function RunEnd(t: seq<char>, p: nat, inClass: char -> bool): (e: nat)
    requires p <= |t|
    ensures p <= e <= |t|
    ensures forall k :: p <= k < e ==> inClass(t[k])
    ensures e == |t| || !inClass(t[e])
    decreases |t| - p
  {
    if p == |t| || !inClass(t[p]) then p else RunEnd(t, p + 1, inClass)
  }

  /** A run of the class from `p` that stops at `e` ends there. */
  lemma {:induction false} RunEndAt(t: seq<char>, p: nat, e: nat, inClass: char -> bool)
    requires p <= e <= |t|
    requires forall k :: p <= k < e ==> inClass(t[k])
    requires e == |t| || !inClass(t[e])
    ensures RunEnd(t, p, inClass) == e
    decreases e - p
  {
    if p < e {
      RunEndAt(t, p + 1, e, inClass);
    }
  }

  /** ASCII lower-casing of one character. */
  function ToLower(c: char): (r: char)
    ensures 'A' <= c <= 'Z' ==> r as int == c as int + 32
    ensures !('A' <= c <= 'Z') ==> r == c
  {
    if 'A' <= c <= 'Z' then (c as int + 32) as char else c
  }

  function Lower(s: seq<char>): (r: seq<char>)
    ensures |r| == |s|
    ensures forall k :: 0 <= k < |s| ==> r[k] == ToLower(s[k])
  {
    seq(|s|, k requires 0 <= k < |s| => ToLower(s[k]))
  }

  predicate EndsWith(s: seq<char>, suffix: seq<char>) {
    |suffix| <= |s| && s[|s| - |suffix|..] == suffix
  }

  /** Lower-casing commutes with concatenation. */
  lemma LowerAppend(a: seq<char>, b: seq<char>)
    ensures Lower(a + b) == Lower(a) + Lower(b)
  {
  }

  /** A suffix check on the lower-cased text only looks at the lower-cased tail. */
  lemma EndsWithAppend(a: seq<char>, b: seq<char>, suffix: seq<char>)
    requires |suffix| <= |b|
    ensures EndsWith(a + b, suffix) <==> EndsWith(b, suffix)
  {
    assert (a + b)[|a + b| - |suffix|..] == b[|b| - |suffix|..];
  }
}
