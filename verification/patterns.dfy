/** The eight fixed regular expressions of the highlighter
    (SyntaxHighlighter.kt:11-19), each hand-coded as a deterministic matcher
    that answers what a backtracking regex engine answers when a match
    attempt starts at a given position, with the character classes of
    `CharClasses`.

    Where backtracking can change the outcome (the JSON string and key
    patterns) the matcher is the backtracking search itself, trying the
    alternatives in the order the regex lists them.  Everywhere else the
    search collapses to one greedy scan, and the comment on each matcher
    says why. */
module Patterns {
  import opened Wrappers
  import opened CharClasses

  datatype Range = Range(start: nat, end: nat)

  /** A successful match: its whole range and, for the patterns that have
      one, the range of capture group 1. */
  datatype Match = Match(start: nat, end: nat, group1: Option<Range>)

  datatype Pattern =
    | JsonStringRegex | JsonKeyRegex | JsonNumberRegex | JsonBooleanRegex
    | XmlCommentRegex | XmlTagRegex | XmlAttrNameRegex | XmlAttrValueRegex

  /** The patterns that carry a capture group 1. */
  predicate HasGroup(p: Pattern) {
    p == XmlTagRegex || p == XmlAttrNameRegex
  }

  predicate LiteralAt(t: seq<char>, s: nat, w: seq<char>) {
    s + |w| <= |t| && t[s..s + |w|] == w
  }

  predicate AllNameChars(t: seq<char>, lo: nat, hi: nat)
    requires lo <= hi <= |t|
  {
    forall k :: lo <= k < hi ==> IsNameChar(t[k])
  }

  predicate AllSpaces(t: seq<char>, lo: nat, hi: nat)
    requires lo <= hi <= |t|
  {
    forall k :: lo <= k < hi ==> IsSpace(t[k])
  }

  // ---------------------------------------------------------------------
  // Declarative meaning of every coloured range
  // ---------------------------------------------------------------------

  /** `\s*:` at `p`: the lookahead of the key pattern. */
  predicate ColonAhead(t: seq<char>, p: nat)
    requires p <= |t|
  {
    var q := RunEnd(t, p, IsSpace);
    q < |t| && t[q] == ':'
  }

  /** `\s*=` at `p`: the lookahead of the attribute-name pattern. */
  predicate EqualsAhead(t: seq<char>, p: nat)
    requires p <= |t|
  {
    var q := RunEnd(t, p, IsSpace);
    q < |t| && t[q] == '='
  }

  /** `t[lo..hi]` is a body `(?:\\.|[^"])*`: the class `[^"]` admits every
      character but the quote (the backslash included), so a quote can only
      appear as the second half of an escape pair. */
  predicate QuotedBody(t: seq<char>, lo: nat, hi: nat)
    requires lo <= hi <= |t|
  {
    forall k :: lo <= k < hi && t[k] == '"' ==> lo < k && t[k - 1] == '\\'
  }

  /** `t[lo..hi]` is a whole `"(?:\\.|[^"])*"`. */
  predicate QuotedLexeme(t: seq<char>, lo: nat, hi: nat)
    requires lo <= hi <= |t|
  {
    lo + 2 <= hi && t[lo] == '"' && t[hi - 1] == '"' && QuotedBody(t, lo + 1, hi - 1)
  }

  predicate AllDigits(w: seq<char>) {
    forall k :: 0 <= k < |w| ==> IsDigit(w[k])
  }

  /** `-?` */
  predicate SignPart(w: seq<char>) {
    w == [] || w == ['-']
  }

  /** `(?:0|[1-9]\d*)` */
  predicate IntPart(w: seq<char>) {
    w == ['0'] || (|w| >= 1 && '1' <= w[0] <= '9' && AllDigits(w[1..]))
  }

  /** `(?:\.\d+)?` */
  predicate FracPart(w: seq<char>) {
    w == [] || (|w| >= 2 && w[0] == '.' && AllDigits(w[1..]))
  }

  /** `(?:[eE][+-]?\d+)?` */
  predicate ExpPart(w: seq<char>) {
    w == [] ||
    (|w| >= 2 && (w[0] == 'e' || w[0] == 'E') &&
     ((IsDigit(w[1]) && AllDigits(w[1..])) ||
      ((w[1] == '+' || w[1] == '-') && |w| >= 3 && AllDigits(w[2..]))))
  }

  /** `w` splits at `a <= b <= c` into sign, integer, fraction and exponent. */
  predicate NumberParts(w: seq<char>, a: nat, b: nat, c: nat) {
    a <= b <= c <= |w| && SignPart(w[..a]) && IntPart(w[a..b]) && FracPart(w[b..c]) && ExpPart(w[c..])
  }

  /** The language of `-?(?:0|[1-9]\d*)(?:\.\d+)?(?:[eE][+-]?\d+)?`. */
  predicate IsJsonNumber(w: seq<char>) {
    exists a: nat, b: nat, c: nat | a <= b <= c <= |w| :: NumberParts(w, a, b, c)
  }

  /** `-->` starts at `j`. */
  predicate ClosesAt(t: seq<char>, j: nat) {
    LiteralAt(t, j, "-->")
  }

  /** `t[lo..hi]` is `<!--` up to and including the nearest `-->` after it. */
  predicate CommentLexeme(t: seq<char>, lo: nat, hi: nat)
    requires lo <= hi <= |t|
  {
    lo + 7 <= hi && LiteralAt(t, lo, "<!--") && ClosesAt(t, hi - 3) &&
    forall j :: lo + 4 <= j < hi - 3 ==> !ClosesAt(t, j)
  }

  /** The gap `/?\s*` between a `<` and a tag name. */
  predicate OpenerGap(t: seq<char>, a: nat, b: nat)
    requires a <= b <= |t|
  {
    (a < b && t[a] == '/' && AllSpaces(t, a + 1, b)) || AllSpaces(t, a, b)
  }

  /** Capture group 1 of `</?\s*([A-Za-z_][\w:.-]*)`: a maximal name that a
      `<`, an optional `/` and whitespace lead up to; the range itself holds
      name characters only. */
  predicate TagNameLexeme(t: seq<char>, lo: nat, hi: nat)
    requires lo < hi <= |t|
  {
    IsTagNameStart(t[lo]) && AllNameChars(t, lo, hi) && (hi == |t| || !IsNameChar(t[hi])) &&
    exists o: nat | o < lo :: t[o] == '<' && OpenerGap(t, o + 1, lo)
  }

  /** Capture group 1 of `\s([A-Za-z_:][\w:.-]*)(?=\s*=)`: a name after a
      whitespace character and before `\s*=`; the whitespace is not part of it. */
  predicate AttrNameLexeme(t: seq<char>, lo: nat, hi: nat)
    requires lo < hi <= |t|
  {
    0 < lo && IsSpace(t[lo - 1]) && IsAttrNameStart(t[lo]) && AllNameChars(t, lo, hi) && EqualsAhead(t, hi)
  }

  /** `"[^"]*"|'[^']*'` */
  predicate AttrValueLexeme(t: seq<char>, lo: nat, hi: nat)
    requires lo <= hi <= |t|
  {
    lo + 2 <= hi && (t[lo] == '"' || t[lo] == '\'') && t[hi - 1] == t[lo] &&
    forall k :: lo < k < hi - 1 ==> t[k] != t[lo]
  }

  /** What it means for `t[lo..hi]` to be the range a rule colours for
      pattern `p`: the whole match, or group 1 for the tag and
      attribute-name patterns. */
  predicate Lexeme(p: Pattern, t: seq<char>, lo: nat, hi: nat) {
    lo < hi <= |t| &&
    match p
    case JsonStringRegex => QuotedLexeme(t, lo, hi)
    case JsonKeyRegex => QuotedLexeme(t, lo, hi) && ColonAhead(t, hi)
    case JsonNumberRegex => IsJsonNumber(t[lo..hi])
    case JsonBooleanRegex =>
      (t[lo..hi] == "true" || t[lo..hi] == "false" || t[lo..hi] == "null") &&
      IsBoundary(t, lo) && IsBoundary(t, hi)
    case XmlCommentRegex => CommentLexeme(t, lo, hi)
    case XmlTagRegex => TagNameLexeme(t, lo, hi)
    case XmlAttrNameRegex => AttrNameLexeme(t, lo, hi)
    case XmlAttrValueRegex => AttrValueLexeme(t, lo, hi)
  }

  // ---------------------------------------------------------------------
  // JSON string and key: "(?:\\.|[^"])*"   and   "(?:\\.|[^"])*"(?=\s*:)
  // ---------------------------------------------------------------------

  /** The first alternative `\\.`: a backslash and a character `.` accepts. */
  predicate EscapeAt(t: seq<char>, p: nat) {
    p + 1 < |t| && t[p] == '\\' && !IsLineTerminator(t[p + 1])
  }

  /** Backtracking search for the rest of a quoted run whose body starts at
      `p`: each iteration of the starred group first tries `\\.`, then
      `[^"]`, and only then leaves the loop to take the closing quote (and,
      for the key pattern, the `\s*:` lookahead).  Returns the end of the
      match. */
  function QuotedTail(t: seq<char>, p: nat, needColon: bool): (r: Option<nat>)
    requires p <= |t|
    ensures r.Some? ==> p < r.value <= |t| && t[r.value - 1] == '"' && QuotedBody(t, p, r.value - 1)
    ensures r.Some? && needColon ==> ColonAhead(t, r.value)
    decreases |t| - p
  {
    if p == |t| then None
    else
      var escaped := if EscapeAt(t, p) then QuotedTail(t, p + 2, needColon) else None;
      if escaped.Some? then escaped
      else if t[p] != '"' then QuotedTail(t, p + 1, needColon)
      else if !needColon || ColonAhead(t, p + 1) then Some(p + 1)
      else None
  }

  /** The string (`needColon` false) or key (`needColon` true) pattern at `s`. */
  function QuotedAt(t: seq<char>, s: nat, needColon: bool): (r: Option<nat>)
    requires s <= |t|
    ensures r.Some? ==> s < r.value <= |t| && QuotedLexeme(t, s, r.value)
    ensures r.Some? && needColon ==> ColonAhead(t, r.value)
  {
    if s < |t| && t[s] == '"' then QuotedTail(t, s + 1, needColon) else None
  }

  /** The simple left-to-right reading of a quoted run: an escape pair is
      always taken as a pair, and the first quote reached closes the run.
      Returns the position of that closing quote. */
  function EscapeScan(t: seq<char>, p: nat): (r: Option<nat>)
    requires p <= |t|
    ensures r.Some? ==> p <= r.value < |t| && t[r.value] == '"'
    decreases |t| - p
  {
    if p == |t| then None
    else if EscapeAt(t, p) then EscapeScan(t, p + 2)
    else if t[p] == '"' then Some(p)
    else EscapeScan(t, p + 1)
  }

  /** Whenever the simple scan finds a closing quote (followed by `\s*:` for
      the key pattern), the backtracking search ends right after that same
      quote.  Backtracking only matters for runs the simple scan leaves open
      or, for the key pattern, when no `\s*:` follows the quote the scan
      stops at: then the search may read a backslash alone and end the key
      at an escaped quote (`EscapedKeyAt0`). */
  lemma {:induction false} EscapeScanAgrees(t: seq<char>, p: nat, needColon: bool)
    requires p <= |t|
    requires EscapeScan(t, p).Some?
    requires needColon ==> ColonAhead(t, EscapeScan(t, p).value + 1)
    ensures QuotedTail(t, p, needColon) == Some(EscapeScan(t, p).value + 1)
    decreases |t| - p
  {
    if EscapeAt(t, p) {
      EscapeScanAgrees(t, p + 2, needColon);
    } else if t[p] != '"' {
      EscapeScanAgrees(t, p + 1, needColon);
    }
  }

  /** Over characters that are neither quote nor backslash, both readings of
      a quoted run simply move on. */
  lemma {:induction false} PlainRun(t: seq<char>, p: nat, q: nat, needColon: bool)
    requires p <= q <= |t|
    requires forall k :: p <= k < q ==> t[k] != '"' && t[k] != '\\'
    ensures QuotedTail(t, p, needColon) == QuotedTail(t, q, needColon)
    ensures EscapeScan(t, p) == EscapeScan(t, q)
    decreases q - p
  {
    if p < q {
      PlainRun(t, p + 1, q, needColon);
    }
  }

  /** The search finds a match whenever one exists: if some `e` ends a valid
      quoted run whose body starts at `p`, the search does not give up. */
  lemma {:induction false} QuotedTailComplete(t: seq<char>, p: nat, e: nat, needColon: bool)
    requires p < e <= |t| && t[e - 1] == '"' && QuotedBody(t, p, e - 1)
    requires needColon ==> ColonAhead(t, e)
    ensures QuotedTail(t, p, needColon).Some?
    decreases |t| - p
  {
    if e - 1 == p {
    } else if t[p] == '\\' && t[p + 1] == '"' {
      if e == p + 2 {
        if EscapeAt(t, p) && QuotedTail(t, p + 2, needColon).None? {
          assert QuotedTail(t, p + 1, needColon) == Some(p + 2);
        }
      } else {
        assert EscapeAt(t, p);
        QuotedTailComplete(t, p + 2, e, needColon);
      }
    } else {
      assert t[p] != '"';
      QuotedTailComplete(t, p + 1, e, needColon);
    }
  }

  // ---------------------------------------------------------------------
  // JSON number: -?(?:0|[1-9]\d*)(?:\.\d+)?(?:[eE][+-]?\d+)?
  // Every part after the integer is optional, so the first path the
  // backtracking search tries (each optional part taken when it can be)
  // always succeeds; `0` is tried before `[1-9]\d*` and is never extended.
  // ---------------------------------------------------------------------

  /** `[eE][+-]?\d` at `p`: an exponent can be taken there. */
  predicate ExpAhead(t: seq<char>, p: nat) {
    p + 1 < |t| && (t[p] == 'e' || t[p] == 'E') &&
    (IsDigit(t[p + 1]) || (p + 2 < |t| && (t[p + 1] == '+' || t[p + 1] == '-') && IsDigit(t[p + 2])))
  }

  /** `0|[1-9]\d*` at `p`: a `0` alone, otherwise every digit of the run. */
  function IntEnd(t: seq<char>, p: nat): (e: nat)
    requires p < |t| && IsDigit(t[p])
    ensures p < e <= |t| && IntPart(t[p..e])
    ensures t[p] != '0' ==> e == |t| || !IsDigit(t[e])
  {
    if t[p] == '0' then p + 1
    else
      var e := RunEnd(t, p + 1, IsDigit);
      assert t[p..e][1..] == t[p + 1..e];
      e
  }

  /** `(?:\.\d+)?` at `p`: taken, with every digit, whenever `.` and a digit
      follow. */
  function FracEnd(t: seq<char>, p: nat): (e: nat)
    requires p <= |t|
    ensures p <= e <= |t| && FracPart(t[p..e])
    ensures p + 1 < |t| && t[p] == '.' && IsDigit(t[p + 1]) ==> p < e && (e == |t| || !IsDigit(t[e]))
  {
    if p + 1 < |t| && t[p] == '.' && IsDigit(t[p + 1]) then
      var e := RunEnd(t, p + 2, IsDigit);
      assert t[p..e][1..] == t[p + 1..e];
      e
    else p
  }

  /** `(?:[eE][+-]?\d+)?` at `p`: taken, with every digit, whenever it can be. */
  function ExpEnd(t: seq<char>, p: nat): (e: nat)
    requires p <= |t|
    ensures p <= e <= |t| && ExpPart(t[p..e])
    ensures ExpAhead(t, p) ==> p < e && (e == |t| || !IsDigit(t[e]))
  {
    if p < |t| && (t[p] == 'e' || t[p] == 'E') then
      var q := if p + 1 < |t| && (t[p + 1] == '+' || t[p + 1] == '-') then p + 2 else p + 1;
      if q < |t| && IsDigit(t[q]) then
        var e := RunEnd(t, q + 1, IsDigit);
        var w := t[p..e];
        assert w[q - p..] == t[q..e];
        assert AllDigits(t[q..e]);
        assert w[0] == t[p] && w[1] == t[p + 1];
        e
      else p
    else p
  }

  /** A slice of a slice is a slice of the whole. */
  lemma SubSlice(t: seq<char>, s: nat, e: nat, i: nat, j: nat)
    requires s <= i <= j <= e <= |t|
    ensures t[s..e][i - s..j - s] == t[i..j]
  {
    var u := t[s..e][i - s..j - s];
    forall k | 0 <= k < j - i ensures u[k] == t[i + k] {
      assert u[k] == t[s..e][i - s + k];
    }
  }

  /** Where the integer part starts: after the optional `-`. */
  function SignEnd(t: seq<char>, s: nat): (p: nat)
    requires s <= |t|
    ensures s <= p <= |t|
  {
    if s < |t| && t[s] == '-' then s + 1 else s
  }

  /** `-?(?:0|[1-9]\d*)(?:\.\d+)?(?:[eE][+-]?\d+)?` at `s`.  Every part after
      the integer is optional, so the first path the backtracking search
      tries (each optional part taken when it can be) always succeeds, and it
      is the longest number there: the match is the longest prefix from `s`
      that is a JSON number, and there is none when no number starts at `s`. */
  function NumberAt(t: seq<char>, s: nat): (r: Option<nat>)
    requires s <= |t|
    ensures r.Some? ==> s < r.value <= |t| && IsJsonNumber(t[s..r.value])
    ensures r.Some? ==> forall e :: r.value < e <= |t| ==> !IsJsonNumber(t[s..e])
    ensures r.None? ==> forall e :: s < e <= |t| ==> !IsJsonNumber(t[s..e])
  {
    var p := SignEnd(t, s);
    if p < |t| && IsDigit(t[p]) then
      var b := IntEnd(t, p);
      var c := FracEnd(t, b);
      var e := ExpEnd(t, c);
      var w := t[s..e];
      SubSlice(t, s, e, s, p);
      SubSlice(t, s, e, p, b);
      SubSlice(t, s, e, b, c);
      SubSlice(t, s, e, c, e);
      assert w[..p - s] == w[0..p - s] && w[c - s..] == w[c - s..e - s];
      assert NumberParts(w, p - s, b - s, c - s);
      NoLongerNumber(t, s, e);
      Some(e)
    else
      NoNumber(t, s);
      None
  }

  /** A JSON number `t[s..e]`, cut at its parts in the text's own positions:
      the integer part starts right after the optional `-`. */
  lemma NumberSplit(t: seq<char>, s: nat, e: nat) returns (b: nat, c: nat)
    requires s < e <= |t| && IsJsonNumber(t[s..e])
    ensures SignEnd(t, s) < b <= c <= e
    ensures IsDigit(t[SignEnd(t, s)]) && IntPart(t[SignEnd(t, s)..b])
    ensures FracPart(t[b..c]) && ExpPart(t[c..e])
  {
    var a: nat, b0: nat, c0: nat :| a <= b0 <= c0 <= e - s && NumberParts(t[s..e], a, b0, c0);
    b, c := PartsInText(t, s, e, a, b0, c0);
  }

  /** The parts of a number `t[s..e]` split at `a`, `b` and `c`, read in the
      text itself. */
  lemma PartsInText(t: seq<char>, s: nat, e: nat, a: nat, b: nat, c: nat) returns (tb: nat, tc: nat)
    requires s < e <= |t| && NumberParts(t[s..e], a, b, c)
    ensures tb == s + b && tc == s + c
    ensures SignEnd(t, s) < tb <= tc <= e
    ensures IsDigit(t[SignEnd(t, s)]) && IntPart(t[SignEnd(t, s)..tb])
    ensures FracPart(t[tb..tc]) && ExpPart(t[tc..e])
  {
    tb, tc := s + b, s + c;
    var w := t[s..e];
    SignInText(t, s, e, a, b);
    SubSlice(t, s, e, s + a, s + b);
    SubSlice(t, s, e, s + b, s + c);
    SubSlice(t, s, e, s + c, e);
    assert w[c..] == w[c..e - s];
  }

  /** The sign part of a number `t[s..e]` ends where `SignEnd` says, and a
      digit follows it. */
  lemma SignInText(t: seq<char>, s: nat, e: nat, a: nat, b: nat)
    requires s < e <= |t| && a <= b <= e - s
    requires SignPart(t[s..e][..a]) && IntPart(t[s..e][a..b])
    ensures s + a == SignEnd(t, s) && a < b && IsDigit(t[s + a])
  {
    var w := t[s..e];
    assert w[a..b][0] == w[a] == t[s + a];
    assert a == 1 ==> w[..a][0] == w[0] == t[s];
  }

  /** The characters of an all-digit slice are digits of the text. */
  lemma DigitsOf(t: seq<char>, lo: nat, hi: nat)
    requires lo <= hi <= |t| && AllDigits(t[lo..hi])
    ensures forall k :: lo <= k < hi ==> IsDigit(t[k])
  {
    forall k | lo <= k < hi ensures IsDigit(t[k]) {
      assert t[lo..hi][k - lo] == t[k];
    }
  }

  /** The first character of a non-empty slice. */
  lemma FirstOf(t: seq<char>, lo: nat, hi: nat)
    requires lo <= hi <= |t|
    ensures lo < hi ==> t[lo..hi][0] == t[lo]
  {
  }

  /** Any integer part at `p` ends at or before the greedy one, and only at
      a digit when it ends before it. */
  lemma IntEndLongest(t: seq<char>, p: nat, b: nat)
    requires p < b <= |t| && IsDigit(t[p]) && IntPart(t[p..b])
    ensures b <= IntEnd(t, p)
    ensures b < IntEnd(t, p) ==> IsDigit(t[b])
  {
    FirstOf(t, p, b);
    if t[p] != '0' {
      var e := IntEnd(t, p);
      assert t[p..b][1..] == t[p + 1..b];
      assert t[p..e][1..] == t[p + 1..e];
      DigitsOf(t, p + 1, b);
      DigitsOf(t, p + 1, e);
    }
  }

  /** Any fraction part at `p` ends at or before the greedy one, and only at
      a digit or at the `.` when it ends before it. */
  lemma FracEndLongest(t: seq<char>, p: nat, c: nat)
    requires p <= c <= |t| && FracPart(t[p..c])
    ensures c <= FracEnd(t, p)
    ensures c < FracEnd(t, p) ==> IsDigit(t[c]) || t[c] == '.'
  {
    var e := FracEnd(t, p);
    FirstOf(t, p, c);
    FirstOf(t, p, e);
    if p < c {
      assert t[p..c][1] == t[p + 1];
      assert t[p..c][1..] == t[p + 1..c];
      assert t[p..e][1..] == t[p + 1..e];
      DigitsOf(t, p + 1, c);
      DigitsOf(t, p + 1, e);
    }
  }

  /** Any exponent part at `p` ends at or before the greedy one. */
  lemma ExpEndLongest(t: seq<char>, p: nat, e: nat)
    requires p <= e <= |t| && ExpPart(t[p..e])
    ensures e <= ExpEnd(t, p)
  {
    if p < e {
      var w := t[p..e];
      assert w[0] == t[p] && w[1] == t[p + 1];
      var q := if t[p + 1] == '+' || t[p + 1] == '-' then p + 2 else p + 1;
      assert w[q - p..] == t[q..e];
      DigitsOf(t, q, e);
      assert ExpAhead(t, p);
    }
  }

  /** Every JSON number at `s` ends at or before the end of the greedy one. */
  lemma NumberWithinGreedy(t: seq<char>, s: nat, e: nat)
    requires s < e <= |t|
    ensures IsJsonNumber(t[s..e]) ==>
      (SignEnd(t, s) < |t| && IsDigit(t[SignEnd(t, s)]) &&
       e <= ExpEnd(t, FracEnd(t, IntEnd(t, SignEnd(t, s)))))
  {
    if IsJsonNumber(t[s..e]) {
      WithinGreedy(t, s, e);
    }
  }

  lemma WithinGreedy(t: seq<char>, s: nat, e: nat)
    requires s < e <= |t| && IsJsonNumber(t[s..e])
    ensures SignEnd(t, s) < |t| && IsDigit(t[SignEnd(t, s)])
    ensures e <= ExpEnd(t, FracEnd(t, IntEnd(t, SignEnd(t, s))))
  {
    var p := SignEnd(t, s);
    var b, c := NumberSplit(t, s, e);
    IntEndLongest(t, p, b);
    FirstOf(t, b, c);
    FirstOf(t, c, e);
    if b == IntEnd(t, p) {
      FracEndLongest(t, b, c);
      if c == FracEnd(t, b) {
        ExpEndLongest(t, c, e);
      }
    }
  }

  /** No JSON number at `s` runs past the greedy end `e`. */
  lemma NoLongerNumber(t: seq<char>, s: nat, e: nat)
    requires s <= |t| && SignEnd(t, s) < |t| && IsDigit(t[SignEnd(t, s)])
    requires e == ExpEnd(t, FracEnd(t, IntEnd(t, SignEnd(t, s))))
    ensures forall e' :: e < e' <= |t| ==> !IsJsonNumber(t[s..e'])
  {
    forall e' | e < e' <= |t| ensures !IsJsonNumber(t[s..e']) {
      NumberWithinGreedy(t, s, e');
    }
  }

  /** Without a digit after the optional `-`, no JSON number starts at `s`. */
  lemma NoNumber(t: seq<char>, s: nat)
    requires s <= |t| && !(SignEnd(t, s) < |t| && IsDigit(t[SignEnd(t, s)]))
    ensures forall e :: s < e <= |t| ==> !IsJsonNumber(t[s..e])
  {
    forall e | s < e <= |t| ensures !IsJsonNumber(t[s..e]) {
      NumberWithinGreedy(t, s, e);
    }
  }

  // ---------------------------------------------------------------------
  // JSON literal: \b(?:true|false|null)\b
  // The three words start with different letters, so at most one
  // alternative can get past its first character.
  // ---------------------------------------------------------------------

  function BooleanAt(t: seq<char>, s: nat): (r: Option<nat>)
    requires s <= |t|
    ensures r.Some? ==> s < r.value <= |t| && Lexeme(JsonBooleanRegex, t, s, r.value)
  {
    if !IsBoundary(t, s) then None
    else if LiteralAt(t, s, "true") && IsBoundary(t, s + 4) then Some(s + 4)
    else if LiteralAt(t, s, "false") && IsBoundary(t, s + 5) then Some(s + 5)
    else if LiteralAt(t, s, "null") && IsBoundary(t, s + 4) then Some(s + 4)
    else None
  }

  /** The literal matcher misses no literal: the three words start with
      different letters, so the word that is there is the one accepted. */
  lemma BooleanAtComplete(t: seq<char>, s: nat, e: nat)
    requires s < e <= |t| && Lexeme(JsonBooleanRegex, t, s, e)
    ensures BooleanAt(t, s) == Some(e)
  {
    assert t[s] == t[s..e][0];
    LiteralStart(t, s, "true");
    LiteralStart(t, s, "false");
  }

  // ---------------------------------------------------------------------
  // XML comment: <!--.*?--> with DOTALL.  The lazy `.*?` grows one
  // character at a time, so the match ends at the first `-->` found at or
  // after the end of `<!--`.
  // ---------------------------------------------------------------------

  /** Position of the nearest `-->` at or after `k`. */
  function CloseFrom(t: seq<char>, k: nat): (r: Option<nat>)
    requires k <= |t|
    ensures r.Some? ==> k <= r.value && ClosesAt(t, r.value) && forall j :: k <= j < r.value ==> !ClosesAt(t, j)
    ensures r.None? ==> forall j :: k <= j ==> !ClosesAt(t, j)
    decreases |t| - k
  {
    if k + 3 > |t| then None
    else if ClosesAt(t, k) then Some(k)
    else CloseFrom(t, k + 1)
  }

  function CommentAt(t: seq<char>, s: nat): (r: Option<nat>)
    requires s <= |t|
    ensures r.Some? ==> s < r.value <= |t| && CommentLexeme(t, s, r.value)
    ensures r.None? ==> !LiteralAt(t, s, "<!--") || forall j :: s + 4 <= j ==> !ClosesAt(t, j)
  {
    if LiteralAt(t, s, "<!--") then
      match CloseFrom(t, s + 4)
      case Some(j) => Some(j + 3)
      case None => None
    else None
  }

  /** With no `-->` from `k` up to `j` and one at `j`, the nearest is at `j`. */
  lemma {:induction false} CloseFromAt(t: seq<char>, k: nat, j: nat)
    requires k <= j && ClosesAt(t, j)
    requires forall i :: k <= i < j ==> !ClosesAt(t, i)
    ensures j + 3 <= |t| && CloseFrom(t, k) == Some(j)
    decreases j - k
  {
    if k < j {
      CloseFromAt(t, k + 1, j);
    }
  }

  /** The comment matcher misses no comment: a comment lexeme at `s` is
      the match it reports there. */
  lemma CommentAtComplete(t: seq<char>, s: nat, e: nat)
    requires s < e <= |t| && CommentLexeme(t, s, e)
    ensures CommentAt(t, s) == Some(e)
  {
    var r := CloseFrom(t, s + 4);
    assert r.Some? && r.value <= e - 3;
  }

  // ---------------------------------------------------------------------
  // XML tag: </?\s*([A-Za-z_][\w:.-]*)
  // Giving back the `/` or a whitespace character leaves a `/` or a
  // whitespace character where the name must start, so only the greedy
  // path can succeed; the trailing name class is greedy with nothing after.
  // ---------------------------------------------------------------------

  function TagAt(t: seq<char>, s: nat): (r: Option<Match>)
    requires s <= |t|
    ensures r.Some? ==> r.value.start == s && r.value.group1.Some?
    ensures r.Some? ==> var g := r.value.group1.value;
      s < g.start < g.end == r.value.end <= |t| && t[s] == '<' && OpenerGap(t, s + 1, g.start) &&
      TagNameLexeme(t, g.start, g.end)
  {
    if s < |t| && t[s] == '<' then
      var p := if s + 1 < |t| && t[s + 1] == '/' then s + 2 else s + 1;
      var q := RunEnd(t, p, IsSpace);
      if q < |t| && IsTagNameStart(t[q]) then
        var e := RunEnd(t, q + 1, IsNameChar);
        assert OpenerGap(t, s + 1, q);
        Some(Match(s, e, Some(Range(q, e))))
      else None
    else None
  }

  /** The tag matcher misses no tag name: wherever a `<`, an optional `/`
      and whitespace lead up to a tag name, the match at the `<` colours
      exactly that name. */
  lemma TagAtComplete(t: seq<char>, s: nat, lo: nat, e: nat)
    requires s < lo < e <= |t| && t[s] == '<' && OpenerGap(t, s + 1, lo) && TagNameLexeme(t, lo, e)
    ensures TagAt(t, s) == Some(Match(s, e, Some(Range(lo, e))))
  {
    var p := if s + 1 < |t| && t[s + 1] == '/' then s + 2 else s + 1;
    assert p <= lo;
    RunEndAt(t, p, lo, IsSpace);
    RunEndAt(t, lo + 1, e, IsNameChar);
  }

  // ---------------------------------------------------------------------
  // XML attribute name: \s([A-Za-z_:][\w:.-]*)(?=\s*=)
  // A shorter name would leave a name character in front of the lookahead,
  // which `\s*=` cannot accept, so only the maximal name needs trying.
  // ---------------------------------------------------------------------

  function AttrNameAt(t: seq<char>, s: nat): (r: Option<Match>)
    requires s <= |t|
    ensures r.Some? ==> r.value.start == s && r.value.group1.Some?
    ensures r.Some? ==> var g := r.value.group1.value;
      g.start == s + 1 && g.start < g.end == r.value.end <= |t| && AttrNameLexeme(t, g.start, g.end)
  {
    if s + 1 < |t| && IsSpace(t[s]) && IsAttrNameStart(t[s + 1]) then
      var e := RunEnd(t, s + 2, IsNameChar);
      if EqualsAhead(t, e) then Some(Match(s, e, Some(Range(s + 1, e)))) else None
    else None
  }

  /** The attribute-name matcher misses no attribute name: a name before
      `\s*=` is maximal, because `=` and whitespace are no name characters,
      so the greedy scan from the whitespace in front of it stops at its end. */
  lemma AttrNameAtComplete(t: seq<char>, s: nat, e: nat)
    requires s + 1 < e <= |t| && AttrNameLexeme(t, s + 1, e)
    ensures AttrNameAt(t, s) == Some(Match(s, e, Some(Range(s + 1, e))))
  {
    assert e < |t| && !IsNameChar(t[e]);
    RunEndAt(t, s + 2, e, IsNameChar);
  }

  // ---------------------------------------------------------------------
  // XML attribute value: "[^"]*"|'[^']*'
  // ---------------------------------------------------------------------

  function AttrValueAt(t: seq<char>, s: nat): (r: Option<nat>)
    requires s <= |t|
    ensures r.Some? ==> s < r.value <= |t| && AttrValueLexeme(t, s, r.value)
    ensures r.None? && s < |t| && (t[s] == '"' || t[s] == '\'') ==> forall k :: s < k < |t| ==> t[k] != t[s]
  {
    if s < |t| && (t[s] == '"' || t[s] == '\'') then
      var quote := t[s];
      var e := RunEnd(t, s + 1, c => c != quote);
      if e < |t| then Some(e + 1) else None
    else None
  }

  /** The attribute-value matcher misses no quoted value: the match at
      its opening quote ends right after the first matching quote. */
  lemma AttrValueAtComplete(t: seq<char>, s: nat, e: nat)
    requires s < e <= |t| && AttrValueLexeme(t, s, e)
    ensures AttrValueAt(t, s) == Some(e)
  {
    var quote := t[s];
    RunEndAt(t, s + 1, e - 1, c => c != quote);
  }

  // ---------------------------------------------------------------------
  // One match attempt of any pattern
  // ---------------------------------------------------------------------

  function Whole(s: nat, e: Option<nat>): Option<Match> {
    match e
    case Some(end) => Some(Match(s, end, None))
    case None => None
  }

  /** A non-empty match of `p` within `t` whose coloured part (group 1 for
      the patterns that have one, the whole match otherwise) is a lexeme. */
  predicate Describes(p: Pattern, t: seq<char>, m: Match) {
    m.start < m.end <= |t| &&
    (m.group1.Some? <==> HasGroup(p)) &&
    match m.group1
    case Some(g) => m.start <= g.start && g.end <= m.end && Lexeme(p, t, g.start, g.end)
    case None => Lexeme(p, t, m.start, m.end)
  }

  /** The match the regex engine reports for pattern `p` when the attempt
      starts at `s`, if any. */
  function MatchAt(p: Pattern, t: seq<char>, s: nat): (r: Option<Match>)
    requires s <= |t|
    ensures r.Some? ==> r.value.start == s < r.value.end <= |t|
  {
    match p
    case JsonStringRegex => Whole(s, QuotedAt(t, s, false))
    case JsonKeyRegex => Whole(s, QuotedAt(t, s, true))
    case JsonNumberRegex => Whole(s, NumberAt(t, s))
    case JsonBooleanRegex => Whole(s, BooleanAt(t, s))
    case XmlCommentRegex => Whole(s, CommentAt(t, s))
    case XmlTagRegex => TagAt(t, s)
    case XmlAttrNameRegex => AttrNameAt(t, s)
    case XmlAttrValueRegex => Whole(s, AttrValueAt(t, s))
  }

  /** Every match is non-empty, lies within the text, and colours a lexeme
      of its pattern. */
  lemma MatchAtSound(p: Pattern, t: seq<char>, s: nat)
    requires s <= |t|
    ensures MatchAt(p, t, s).Some? ==> Describes(p, t, MatchAt(p, t, s).value)
  {
  }

  /** The characters a match of `p` can start with. */
  predicate MayStart(p: Pattern, c: char) {
    match p
    case JsonStringRegex | JsonKeyRegex => c == '"'
    case JsonNumberRegex => c == '-' || IsDigit(c)
    case JsonBooleanRegex => c == 't' || c == 'f' || c == 'n'
    case XmlCommentRegex | XmlTagRegex => c == '<'
    case XmlAttrNameRegex => IsSpace(c)
    case XmlAttrValueRegex => c == '"' || c == '\''
  }

  /** No pattern matches at a position whose character cannot start it. */
  lemma MatchStartsWith(p: Pattern, t: seq<char>, s: nat)
    requires s <= |t|
    ensures MatchAt(p, t, s).Some? ==> s < |t| && MayStart(p, t[s])
  {
    if p == JsonBooleanRegex {
      LiteralStart(t, s, "true");
      LiteralStart(t, s, "false");
      LiteralStart(t, s, "null");
    } else if p == XmlCommentRegex {
      LiteralStart(t, s, "<!--");
    }
  }

  lemma LiteralStart(t: seq<char>, s: nat, w: seq<char>)
    requires 0 < |w|
    ensures LiteralAt(t, s, w) ==> t[s] == w[0]
  {
    if LiteralAt(t, s, w) {
      assert t[s..s + |w|][0] == t[s];
    }
  }

  /** Completeness of the string and key matchers: wherever a quoted run
      (followed by `\s*:` for a key) starts, the pattern matches there. */
  lemma QuotedMatchComplete(t: seq<char>, s: nat, e: nat, key: bool)
    requires s < e <= |t| && QuotedLexeme(t, s, e)
    requires key ==> ColonAhead(t, e)
    ensures MatchAt(if key then JsonKeyRegex else JsonStringRegex, t, s).Some?
  {
    QuotedTailComplete(t, s + 1, e, key);
  }
}
