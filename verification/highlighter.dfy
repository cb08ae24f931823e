/** The highlighting engine of SyntaxHighlighter.kt: `highlight` picks the
    rule list of the file type, `applyColor` runs one rule over the raw text
    and appends one span per match, and overlapping spans are resolved by
    the last one applied. */
module Highlighter {
  import opened Wrappers
  import opened Patterns
  import opened CharClasses

  datatype FileType = TXT | JSON | XML

  /** Symbolic colours in place of the `R.color.syntax_*` resources. */
  datatype Tag =
    | JsonString | JsonKey | JsonNumber | JsonBoolean
    | XmlComment | XmlTag | XmlAttrName | XmlAttrValue

  /** Which part of a match a rule colours: the whole match (`group = 0`)
      or capture group 1 (`group = 1`). */
  datatype Target = WholeMatch | Group1

  datatype Rule = Rule(pattern: Pattern, target: Target, tag: Tag)

  /** A half-open coloured range `[start, end)` in code points; `setSpan`
      receives the same range in UTF-16 units. */
  datatype Span = Span(start: nat, end: nat, tag: Tag)

  /** The text handed back by `highlight` together with its spans, in the
      order they were set. */
  datatype Styled = Styled(text: seq<char>, spans: seq<Span>)

  /** The file type whose rule list uses a colour. */
  function FormatOf(tag: Tag): FileType {
    match tag
    case JsonString | JsonKey | JsonNumber | JsonBoolean => JSON
    case XmlComment | XmlTag | XmlAttrName | XmlAttrValue => XML
  }

  /** Position of a colour's rule within its file type's rule list. */
  function Rank(tag: Tag): nat {
    match tag
    case JsonString => 0
    case JsonKey => 1
    case JsonNumber => 2
    case JsonBoolean => 3
    case XmlComment => 0
    case XmlTag => 1
    case XmlAttrName => 2
    case XmlAttrValue => 3
  }

  /** The pattern whose matches receive a colour. */
  function PatternOf(tag: Tag): Pattern {
    match tag
    case JsonString => JsonStringRegex
    case JsonKey => JsonKeyRegex
    case JsonNumber => JsonNumberRegex
    case JsonBoolean => JsonBooleanRegex
    case XmlComment => XmlCommentRegex
    case XmlTag => XmlTagRegex
    case XmlAttrName => XmlAttrNameRegex
    case XmlAttrValue => XmlAttrValueRegex
  }

  /** A rule colours its own pattern, and colours group 1 exactly when the
      pattern has one. */
  predicate WellTargeted(rule: Rule) {
    rule.pattern == PatternOf(rule.tag) && (rule.target == Group1 <==> HasGroup(rule.pattern))
  }

  /** The rule lists of `highlightJson` and `highlightXml`, in the order
      their `applyColor` calls run. */
  function RulesFor(ft: FileType): (rules: seq<Rule>)
    ensures ft == TXT <==> |rules| == 0
    ensures ft != TXT ==> |rules| == 4
    ensures forall k :: 0 <= k < |rules| ==>
      Rank(rules[k].tag) == k && FormatOf(rules[k].tag) == ft && WellTargeted(rules[k])
  {
    match ft
    case TXT => []
    case JSON => [
      Rule(JsonStringRegex, WholeMatch, JsonString),
      Rule(JsonKeyRegex, WholeMatch, JsonKey),
      Rule(JsonNumberRegex, WholeMatch, JsonNumber),
      Rule(JsonBooleanRegex, WholeMatch, JsonBoolean)
    ]
    case XML => [
      Rule(XmlCommentRegex, WholeMatch, XmlComment),
      Rule(XmlTagRegex, Group1, XmlTag),
      Rule(XmlAttrNameRegex, Group1, XmlAttrName),
      Rule(XmlAttrValueRegex, WholeMatch, XmlAttrValue)
    ]
  }

  // ---------------------------------------------------------------------
  // Regex.findAll: leftmost, non-overlapping matches
  // ---------------------------------------------------------------------

  /** Position `k` lies inside one of the matches. */
  predicate Covered(ms: seq<Match>, k: nat) {
    exists j :: 0 <= j < |ms| && ms[j].start <= k < ms[j].end
  }

  /** Whether an attempt's outcome at position `s` of `t` is a non-empty
      match that starts at `s` and ends within the text. */
  predicate Fits(r: Option<Match>, t: seq<char>, s: nat) {
    r.Some? ==> r.value.start == s < r.value.end <= |t|
  }

  /** A matcher: the match one attempt at a position makes, if any.  No
      attempt matches the empty string or runs past the text. */
  type Attempt = at: (seq<char>, nat) -> Option<Match> | forall t: seq<char>, s: nat :: Fits(at(t, s), t, s)
    witness (t: seq<char>, s: nat) => None

  /** The attempts a compiled pattern makes. */
  function Attempts(p: Pattern): Attempt {
    (t: seq<char>, s: nat) => if s <= |t| then MatchAt(p, t, s) else None
  }

  /** The search loop of `findAll`: try every start position in turn and,
      after a match, resume at its end.  No attempt matches the empty
      string, so there is no empty-match step. */
  function Scan(at: Attempt, t: seq<char>, from: nat): seq<Match>
    requires from <= |t|
    decreases |t| - from
  {
    if from == |t| then []
    else
      match at(t, from)
      case Some(m) => [m] + Scan(at, t, m.end)
      case None => Scan(at, t, from + 1)
  }

  /** All matches of `p` from `from` on, as `Regex.findAll` yields them. */
  function FindAll(p: Pattern, t: seq<char>, from: nat): seq<Match>
    requires from <= |t|
  {
    Scan(Attempts(p), t, from)
  }

  /** `ms` could be what the search reports from `from`: the first element
      is the match an attempt makes at its start, at or after `from`, and
      the rest is a report from the end of that match. */
  predicate Reported(at: Attempt, t: seq<char>, from: nat, ms: seq<Match>)
    decreases |ms|
  {
    |ms| == 0 ||
    (from <= ms[0].start <= |t| && at(t, ms[0].start) == Some(ms[0]) &&
     Reported(at, t, ms[0].end, ms[1..]))
  }

  /** The matches of a report lie at or after its start and come in text
      order without overlapping. */
  lemma {:induction false} ReportedOrdered(at: Attempt, t: seq<char>, from: nat, ms: seq<Match>)
    requires Reported(at, t, from, ms)
    ensures forall i :: 0 <= i < |ms| ==> from <= ms[i].start < ms[i].end <= |t|
    ensures forall i, j :: 0 <= i < j < |ms| ==> ms[i].end <= ms[j].start
    decreases |ms|
  {
    if |ms| > 0 {
      var rest := ms[1..];
      ReportedOrdered(at, t, ms[0].end, rest);
      assert forall i :: 0 < i < |ms| ==> ms[i] == rest[i - 1];
    }
  }

  /** Every match of a report of `p` colours a lexeme of `p`. */
  lemma {:induction false} ReportedDescribes(p: Pattern, t: seq<char>, from: nat, ms: seq<Match>)
    requires Reported(Attempts(p), t, from, ms)
    ensures forall i :: 0 <= i < |ms| ==> Describes(p, t, ms[i])
    decreases |ms|
  {
    if |ms| > 0 {
      var rest := ms[1..];
      MatchAtSound(p, t, ms[0].start);
      ReportedDescribes(p, t, ms[0].end, rest);
      assert forall i :: 0 < i < |ms| ==> ms[i] == rest[i - 1];
    }
  }

  /** The matches `findAll` reports lie at or after the search start, come
      in text order without overlapping, and each colours a lexeme of the
      pattern. */
  lemma ReportedFacts(p: Pattern, t: seq<char>, from: nat)
    requires from <= |t|
    ensures var ms := FindAll(p, t, from);
      (forall i :: 0 <= i < |ms| ==> from <= ms[i].start && Describes(p, t, ms[i])) &&
      (forall i, j :: 0 <= i < j < |ms| ==> ms[i].end <= ms[j].start)
  {
    ScanSound(Attempts(p), t, from);
    ReportedOrdered(Attempts(p), t, from, FindAll(p, t, from));
    ReportedDescribes(p, t, from, FindAll(p, t, from));
  }

  /** What the search returns is a report. */
  lemma {:induction false} ScanSound(at: Attempt, t: seq<char>, from: nat)
    requires from <= |t|
    ensures Reported(at, t, from, Scan(at, t, from))
    decreases |t| - from
  {
    if from < |t| {
      match at(t, from)
      case Some(m) =>
        ScanSound(at, t, m.end);
        assert ([m] + Scan(at, t, m.end))[1..] == Scan(at, t, m.end);
      case None =>
        ScanSound(at, t, from + 1);
        ReportedLater(at, t, from, from + 1, Scan(at, t, from + 1));
    }
  }

  /** A report from a later position is also one from an earlier one. */
  lemma ReportedLater(at: Attempt, t: seq<char>, from: nat, later: nat, ms: seq<Match>)
    requires from <= later && Reported(at, t, later, ms)
    ensures Reported(at, t, from, ms)
  {
  }

  /** A position outside every match of `[m] + rest` is outside `m` and
      outside every match of `rest`. */
  lemma UncoveredTail(m: Match, rest: seq<Match>, k: nat)
    requires !Covered([m] + rest, k)
    ensures !(m.start <= k < m.end) && !Covered(rest, k)
  {
    var ms := [m] + rest;
    assert ms[0] == m;
    forall j | 0 <= j < |rest| ensures !(rest[j].start <= k < rest[j].end) {
      assert ms[j + 1] == rest[j];
    }
  }

  /** The search skips no match: a position that no reported match covers
      is one where the attempt fails. */
  lemma {:induction false} ScanLeftmost(at: Attempt, t: seq<char>, from: nat, k: nat)
    requires from <= k < |t|
    requires !Covered(Scan(at, t, from), k)
    ensures at(t, k).None?
    decreases |t| - from
  {
    var r := at(t, from);
    if r.Some? {
      var rest := Scan(at, t, r.value.end);
      assert Scan(at, t, from) == [r.value] + rest;
      UncoveredTail(r.value, rest, k);
      ScanLeftmost(at, t, r.value.end, k);
    } else if k > from {
      assert Scan(at, t, from) == Scan(at, t, from + 1);
      ScanLeftmost(at, t, from + 1, k);
    }
  }

  /** `findAll` skips no match: a position that no reported match covers is
      one where the pattern cannot start a match. */
  lemma FindAllLeftmost(p: Pattern, t: seq<char>, from: nat, k: nat)
    requires from <= k < |t|
    requires !Covered(FindAll(p, t, from), k)
    ensures MatchAt(p, t, k).None?
  {
    ScanLeftmost(Attempts(p), t, from, k);
  }

  /** The search passes over a stretch of failed attempts. */
  lemma {:induction false} ScanSkips(at: Attempt, t: seq<char>, a: nat, b: nat)
    requires a <= b <= |t|
    requires forall k :: a <= k < b ==> at(t, k).None?
    ensures Scan(at, t, a) == Scan(at, t, b)
    decreases b - a
  {
    if a < b {
      ScanSkips(at, t, a + 1, b);
    }
  }

  /** `findAll` passes over characters that cannot start a match. */
  lemma FindAllSkips(p: Pattern, t: seq<char>, a: nat, b: nat)
    requires a <= b <= |t|
    requires forall k :: a <= k < b ==> !MayStart(p, t[k])
    ensures FindAll(p, t, a) == FindAll(p, t, b)
  {
    forall k | a <= k < b ensures Attempts(p)(t, k).None? {
      MatchStartsWith(p, t, k);
    }
    ScanSkips(Attempts(p), t, a, b);
  }

  /** Without a match at the search position, the search moves on by one. */
  lemma FindAllMiss(p: Pattern, t: seq<char>, k: nat)
    requires k < |t| && MatchAt(p, t, k).None?
    ensures FindAll(p, t, k) == FindAll(p, t, k + 1)
  {
  }

  /** A match found at the search position is reported, and the search
      resumes at its end. */
  lemma FindAllStep(p: Pattern, t: seq<char>, k: nat, m: Match)
    requires k <= |t| && MatchAt(p, t, k) == Some(m)
    ensures m.end <= |t| && FindAll(p, t, k) == [m] + FindAll(p, t, m.end)
  {
  }

  // ---------------------------------------------------------------------
  // applyColor
  // ---------------------------------------------------------------------

  /** The span one match contributes; `None` when the rule colours group 1
      and the group did not take part in the match. */
  function SpanOf(m: Match, rule: Rule): Option<Span> {
    match rule.target
    case WholeMatch => Some(Span(m.start, m.end, rule.tag))
    case Group1 =>
      match m.group1
      case Some(g) => Some(Span(g.start, g.end, rule.tag))
      case None => None
  }

  /** What one match's span is: inside the match, of the rule's colour,
      and a lexeme of the rule's pattern when the rule is well targeted. */
  lemma SpanOfMatch(t: seq<char>, m: Match, rule: Rule)
    requires Describes(rule.pattern, t, m)
    ensures WellTargeted(rule) ==> SpanOf(m, rule).Some?
    ensures SpanOf(m, rule).Some? ==> var sp := SpanOf(m, rule).value;
      sp.tag == rule.tag && m.start <= sp.start < sp.end <= m.end &&
      (WellTargeted(rule) ==> Lexeme(rule.pattern, t, sp.start, sp.end))
  {
  }

  /** The spans of a list of matches, one match after the other, as the
      `forEach` loop of `applyColor` sets them; a match whose group did not
      take part is skipped. */
  function Painted(ms: seq<Match>, rule: Rule): seq<Span>
  {
    if |ms| == 0 then []
    else
      match SpanOf(ms[0], rule)
      case Some(sp) => [sp] + Painted(ms[1..], rule)
      case None => Painted(ms[1..], rule)
  }

  /** Painting matches that each describe a lexeme gives one span of the
      rule's colour per match, each a lexeme inside its match. */
  lemma {:induction false} PaintedLexemes(t: seq<char>, ms: seq<Match>, rule: Rule)
    requires forall i :: 0 <= i < |ms| ==> Describes(rule.pattern, t, ms[i])
    ensures WellTargeted(rule) ==> |Painted(ms, rule)| == |ms|
    ensures forall i :: 0 <= i < |Painted(ms, rule)| ==>
      Painted(ms, rule)[i].tag == rule.tag && Painted(ms, rule)[i].start < Painted(ms, rule)[i].end <= |t|
    ensures forall i :: 0 <= i < |Painted(ms, rule)| && WellTargeted(rule) ==>
      Lexeme(rule.pattern, t, Painted(ms, rule)[i].start, Painted(ms, rule)[i].end)
    decreases |ms|
  {
    if |ms| > 0 {
      var rest := ms[1..];
      assert forall i :: 0 <= i < |rest| ==> rest[i] == ms[i + 1];
      PaintedLexemes(t, rest, rule);
      SpanOfMatch(t, ms[0], rule);
    }
  }

  /** Span `sp` is the part of match `m` that the rule colours, in the
      rule's colour: the whole match, or the range of its group 1. */
  predicate Colours(m: Match, rule: Rule, sp: Span) {
    sp.tag == rule.tag &&
    match rule.target
    case WholeMatch => sp.start == m.start && sp.end == m.end
    case Group1 => m.group1 == Some(Range(sp.start, sp.end))
  }

  /** For a well-targeted rule, span `i` is what the rule colours of match
      `i`, and lies inside it. */
  lemma {:induction false} PaintedMatches(t: seq<char>, ms: seq<Match>, rule: Rule)
    requires forall i :: 0 <= i < |ms| ==> Describes(rule.pattern, t, ms[i])
    ensures WellTargeted(rule) ==> |Painted(ms, rule)| == |ms|
    ensures WellTargeted(rule) ==> forall i :: 0 <= i < |ms| ==>
      ms[i].start <= Painted(ms, rule)[i].start && Painted(ms, rule)[i].end <= ms[i].end &&
      Colours(ms[i], rule, Painted(ms, rule)[i])
    decreases |ms|
  {
    if |ms| > 0 && WellTargeted(rule) {
      var rest := ms[1..];
      PaintedMatches(t, rest, rule);
      SpanOfMatch(t, ms[0], rule);
      var spans := Painted(ms, rule);
      assert spans == [SpanOf(ms[0], rule).value] + Painted(rest, rule);
      forall i | 0 < i < |ms|
        ensures ms[i].start <= spans[i].start && spans[i].end <= ms[i].end && Colours(ms[i], rule, spans[i])
      {
        assert ms[i] == rest[i - 1] && spans[i] == Painted(rest, rule)[i - 1];
      }
    }
  }

  /** Painting matches that do not overlap gives spans in text order that
      do not overlap either, none before the first match. */
  lemma {:induction false} PaintedOrdered(t: seq<char>, ms: seq<Match>, rule: Rule)
    requires forall i :: 0 <= i < |ms| ==> Describes(rule.pattern, t, ms[i])
    requires forall i, j :: 0 <= i < j < |ms| ==> ms[i].end <= ms[j].start
    ensures forall i, j :: 0 <= i < j < |Painted(ms, rule)| ==> Painted(ms, rule)[i].end <= Painted(ms, rule)[j].start
    ensures |ms| > 0 ==> forall i :: 0 <= i < |Painted(ms, rule)| ==> ms[0].start <= Painted(ms, rule)[i].start
    decreases |ms|
  {
    if |ms| > 0 {
      var rest := ms[1..];
      assert forall i :: 0 <= i < |rest| ==> rest[i] == ms[i + 1];
      PaintedOrdered(t, rest, rule);
      SpanOfMatch(t, ms[0], rule);
      assert |rest| > 0 ==> ms[0].end <= rest[0].start;
    }
  }

  /** `applyColor`: every match of the rule's pattern over the raw text
      becomes one span of the rule's colour. */
  function ApplyColor(t: seq<char>, rule: Rule): (spans: seq<Span>)
    ensures WellTargeted(rule) ==> |spans| == |FindAll(rule.pattern, t, 0)|
    ensures forall i :: 0 <= i < |spans| ==> spans[i].tag == rule.tag && spans[i].start < spans[i].end <= |t|
    ensures forall i :: 0 <= i < |spans| && WellTargeted(rule) ==>
      Lexeme(rule.pattern, t, spans[i].start, spans[i].end)
    ensures forall i, j :: 0 <= i < j < |spans| ==> spans[i].end <= spans[j].start
    ensures WellTargeted(rule) ==> forall i :: 0 <= i < |spans| ==>
      FindAll(rule.pattern, t, 0)[i].start <= spans[i].start &&
      spans[i].end <= FindAll(rule.pattern, t, 0)[i].end &&
      Colours(FindAll(rule.pattern, t, 0)[i], rule, spans[i])
  {
    ReportedFacts(rule.pattern, t, 0);
    PaintedLexemes(t, FindAll(rule.pattern, t, 0), rule);
    PaintedOrdered(t, FindAll(rule.pattern, t, 0), rule);
    PaintedMatches(t, FindAll(rule.pattern, t, 0), rule);
    Painted(FindAll(rule.pattern, t, 0), rule)
  }

  /** Spans of each rule come after those of every rule with a lower rank,
      and the spans of one rule are ordered and pairwise disjoint. */
  predicate InRuleOrder(spans: seq<Span>) {
    forall i, j :: 0 <= i < j < |spans| ==>
      Rank(spans[i].tag) < Rank(spans[j].tag) ||
      (spans[i].tag == spans[j].tag && spans[i].end <= spans[j].start)
  }

  predicate StrictlyRanked(rules: seq<Rule>) {
    forall a, b :: 0 <= a < b < |rules| ==> Rank(rules[a].tag) < Rank(rules[b].tag)
  }

  /** Some rule of the list uses the colour. */
  predicate UsedBy(rules: seq<Rule>, tag: Tag) {
    exists k :: 0 <= k < |rules| && rules[k].tag == tag
  }

  predicate AllWellTargeted(rules: seq<Rule>) {
    forall k :: 0 <= k < |rules| ==> WellTargeted(rules[k])
  }

  /** What the rule colours of match `m` is among the spans. */
  predicate ColouredAmong(m: Match, rule: Rule, spans: seq<Span>) {
    exists i :: 0 <= i < |spans| && Colours(m, rule, spans[i])
  }

  /** Every `findAll` match of every rule of the list has what the rule
      colours of it among the spans. */
  predicate ColoursAllMatches(t: seq<char>, rules: seq<Rule>, spans: seq<Span>) {
    forall k, j :: 0 <= k < |rules| && 0 <= j < |FindAll(rules[k].pattern, t, 0)| ==>
      ColouredAmong(FindAll(rules[k].pattern, t, 0)[j], rules[k], spans)
  }

  /** Every rule of the list, applied in list order. */
  function ApplyRules(t: seq<char>, rules: seq<Rule>): (spans: seq<Span>)
    ensures forall i :: 0 <= i < |spans| ==> spans[i].start < spans[i].end <= |t| && UsedBy(rules, spans[i].tag)
    ensures AllWellTargeted(rules) ==>
      forall i :: 0 <= i < |spans| ==> Lexeme(PatternOf(spans[i].tag), t, spans[i].start, spans[i].end)
    ensures StrictlyRanked(rules) ==> InRuleOrder(spans)
    ensures AllWellTargeted(rules) ==> ColoursAllMatches(t, rules, spans)
  {
    if |rules| == 0 then []
    else
      var first := ApplyColor(t, rules[0]);
      var rest := ApplyRules(t, rules[1..]);
      UsedByTail(rules);
      AppendRules(first, rest, rules);
      AppendColoursAll(t, rules, first, rest);
      first + rest
  }

  /** The first rule's spans, which colour each of its matches in turn,
      followed by spans that colour every match of the later rules, colour
      every match of the whole list. */
  lemma AppendColoursAll(t: seq<char>, rules: seq<Rule>, first: seq<Span>, rest: seq<Span>)
    requires |rules| > 0
    requires WellTargeted(rules[0]) ==>
      (|first| == |FindAll(rules[0].pattern, t, 0)| &&
       forall i :: 0 <= i < |first| ==> Colours(FindAll(rules[0].pattern, t, 0)[i], rules[0], first[i]))
    requires AllWellTargeted(rules[1..]) ==> ColoursAllMatches(t, rules[1..], rest)
    ensures AllWellTargeted(rules) ==> ColoursAllMatches(t, rules, first + rest)
  {
    if AllWellTargeted(rules) {
      assert WellTargeted(rules[0]);
      forall k | 0 <= k < |rules[1..]| ensures WellTargeted(rules[1..][k]) {
        assert rules[1..][k] == rules[k + 1];
      }
      var spans := first + rest;
      forall k, j | 0 <= k < |rules| && 0 <= j < |FindAll(rules[k].pattern, t, 0)|
        ensures ColouredAmong(FindAll(rules[k].pattern, t, 0)[j], rules[k], spans)
      {
        var m := FindAll(rules[k].pattern, t, 0)[j];
        if k == 0 {
          assert spans[j] == first[j] && Colours(m, rules[k], spans[j]);
        } else {
          var later := rules[1..];
          assert rules[k] == later[k - 1];
          assert ColouredAmong(m, later[k - 1], rest);
          var i :| 0 <= i < |rest| && Colours(m, later[k - 1], rest[i]);
          assert spans[|first| + i] == rest[i] && Colours(m, rules[k], spans[|first| + i]);
        }
      }
    }
  }

  /** The first rule's spans come before those of the rules after it. */
  lemma ApplyRulesCons(t: seq<char>, rule: Rule, rest: seq<Rule>)
    ensures ApplyRules(t, [rule] + rest) == ApplyColor(t, rule) + ApplyRules(t, rest)
  {
    assert ([rule] + rest)[1..] == rest;
  }

  lemma UsedByTail(rules: seq<Rule>)
    requires |rules| > 0
    ensures forall tag :: UsedBy(rules[1..], tag) ==> UsedBy(rules, tag)
    ensures StrictlyRanked(rules) ==> StrictlyRanked(rules[1..])
    ensures StrictlyRanked(rules) ==>
      forall tag :: UsedBy(rules[1..], tag) ==> Rank(rules[0].tag) < Rank(tag)
  {
    forall tag | UsedBy(rules[1..], tag) ensures UsedBy(rules, tag) && (StrictlyRanked(rules) ==> Rank(rules[0].tag) < Rank(tag)) {
      var k :| 0 <= k < |rules[1..]| && rules[1..][k].tag == tag;
      assert rules[k + 1].tag == tag;
    }
  }

  /** The spans of the first rule followed by those of the later rules keep
      every property `ApplyRules` promises. */
  lemma AppendRules(first: seq<Span>, rest: seq<Span>, rules: seq<Rule>)
    requires |rules| > 0
    requires forall i :: 0 <= i < |first| ==> first[i].tag == rules[0].tag
    requires forall i, j :: 0 <= i < j < |first| ==> first[i].end <= first[j].start
    requires forall tag :: UsedBy(rules[1..], tag) ==> UsedBy(rules, tag)
    requires forall i :: 0 <= i < |rest| ==> UsedBy(rules[1..], rest[i].tag)
    requires StrictlyRanked(rules) ==> InRuleOrder(rest)
    requires StrictlyRanked(rules) ==> forall tag :: UsedBy(rules[1..], tag) ==> Rank(rules[0].tag) < Rank(tag)
    ensures forall i :: 0 <= i < |first + rest| ==> UsedBy(rules, (first + rest)[i].tag)
    ensures StrictlyRanked(rules) ==> InRuleOrder(first + rest)
  {
    var spans := first + rest;
    assert UsedBy(rules, rules[0].tag);
    forall i | 0 <= i < |spans| ensures UsedBy(rules, spans[i].tag) {
      if i >= |first| {
        assert spans[i] == rest[i - |first|];
      }
    }
    if StrictlyRanked(rules) {
      forall i, j | 0 <= i < j < |spans|
        ensures Rank(spans[i].tag) < Rank(spans[j].tag) ||
          (spans[i].tag == spans[j].tag && spans[i].end <= spans[j].start)
      {
        if j < |first| {
        } else if i < |first| {
          assert spans[j] == rest[j - |first|];
        } else {
          assert spans[i] == rest[i - |first|] && spans[j] == rest[j - |first|];
        }
      }
    }
  }

  /** `highlight`: the same text with the spans of the file type's rules;
      plain text gets none. */
  function Highlight(source: seq<char>, ft: FileType): (r: Styled)
    ensures r.text == source
    ensures ft == TXT ==> r.spans == []
    ensures forall i :: 0 <= i < |r.spans| ==> r.spans[i].start < r.spans[i].end <= |source|
    ensures forall i :: 0 <= i < |r.spans| ==>
      FormatOf(r.spans[i].tag) == ft &&
      Lexeme(PatternOf(r.spans[i].tag), source, r.spans[i].start, r.spans[i].end)
    ensures InRuleOrder(r.spans)
    ensures ColoursAllMatches(source, RulesFor(ft), r.spans)
  {
    Styled(source, ApplyRules(source, RulesFor(ft)))
  }

  lemma ApplyTwoRules(t: seq<char>, r2: Rule, r3: Rule)
    ensures ApplyRules(t, [r2, r3]) == ApplyColor(t, r2) + ApplyColor(t, r3)
  {
    assert ApplyRules(t, []) == [];
    ApplyRulesCons(t, r3, []);
    assert [r3] + [] == [r3];
    ApplyRulesCons(t, r2, [r3]);
    assert [r2] + [r3] == [r2, r3];
  }

  lemma ApplyThreeRules(t: seq<char>, r1: Rule, r2: Rule, r3: Rule)
    ensures ApplyRules(t, [r1, r2, r3]) == ApplyColor(t, r1) + (ApplyColor(t, r2) + ApplyColor(t, r3))
  {
    ApplyTwoRules(t, r2, r3);
    ApplyRulesCons(t, r1, [r2, r3]);
    assert [r1] + [r2, r3] == [r1, r2, r3];
  }

  lemma ApplyFourRules(t: seq<char>, r0: Rule, r1: Rule, r2: Rule, r3: Rule)
    ensures ApplyRules(t, [r0, r1, r2, r3]) ==
      ApplyColor(t, r0) + (ApplyColor(t, r1) + (ApplyColor(t, r2) + ApplyColor(t, r3)))
  {
    ApplyThreeRules(t, r1, r2, r3);
    ApplyRulesCons(t, r0, [r1, r2, r3]);
    assert [r0] + [r1, r2, r3] == [r0, r1, r2, r3];
  }

  /** For JSON and XML, `highlight` runs the format's four `applyColor`
      calls one after the other, in the order the rule list gives. */
  lemma HighlightByRule(source: seq<char>, ft: FileType)
    requires ft != TXT
    ensures var rules := RulesFor(ft);
      |rules| == 4 &&
      Highlight(source, ft).spans ==
        ApplyColor(source, rules[0]) + (ApplyColor(source, rules[1]) +
        (ApplyColor(source, rules[2]) + ApplyColor(source, rules[3])))
  {
    var r := RulesFor(ft);
    ApplyFourRules(source, r[0], r[1], r[2], r[3]);
    assert r == [r[0], r[1], r[2], r[3]];
  }

  /** For JSON and XML, the spans are those of every match of the first
      rule's pattern, then of the second's, the third's and the fourth's. */
  lemma HighlightMatches(source: seq<char>, ft: FileType)
    requires ft != TXT
    ensures var r := RulesFor(ft);
      |r| == 4 &&
      Highlight(source, ft).spans ==
        Painted(FindAll(r[0].pattern, source, 0), r[0]) +
        (Painted(FindAll(r[1].pattern, source, 0), r[1]) +
        (Painted(FindAll(r[2].pattern, source, 0), r[2]) +
        Painted(FindAll(r[3].pattern, source, 0), r[3])))
  {
    HighlightByRule(source, ft);
  }

  /** Tag and attribute names are coloured without what leads up to them:
      every coloured character is a name character, so never the `<`, the
      `/` or the whitespace in front of the name. */
  lemma NameSpansHoldNamesOnly(source: seq<char>)
    ensures var spans := Highlight(source, XML).spans;
      forall i, k |
        0 <= i < |spans| && (spans[i].tag == XmlTag || spans[i].tag == XmlAttrName) &&
        spans[i].start <= k < spans[i].end ::
        IsNameChar(source[k]) && source[k] != '<' && source[k] != '/' && !IsSpace(source[k])
  {
    NameLexemesHoldNamesOnly(source, Highlight(source, XML).spans);
  }

  lemma NameLexemesHoldNamesOnly(source: seq<char>, spans: seq<Span>)
    requires forall i :: 0 <= i < |spans| ==>
      spans[i].end <= |source| &&
      Lexeme(PatternOf(spans[i].tag), source, spans[i].start, spans[i].end)
    ensures forall i, k |
        0 <= i < |spans| && (spans[i].tag == XmlTag || spans[i].tag == XmlAttrName) &&
        spans[i].start <= k < spans[i].end ::
        IsNameChar(source[k]) && source[k] != '<' && source[k] != '/' && !IsSpace(source[k])
  {
    forall i | 0 <= i < |spans| && (spans[i].tag == XmlTag || spans[i].tag == XmlAttrName)
      ensures AllNameChars(source, spans[i].start, spans[i].end)
    {
      assert Lexeme(PatternOf(spans[i].tag), source, spans[i].start, spans[i].end);
    }
  }

  // ---------------------------------------------------------------------
  // Last-applied-wins colouring
  // ---------------------------------------------------------------------

  predicate Covers(sp: Span, i: nat) {
    sp.start <= i < sp.end
  }

  /** The colour character `i` shows: that of the last span covering it. */
  function EffectiveTag(spans: seq<Span>, i: nat): (r: Option<Tag>)
    ensures r.None? <==> forall j :: 0 <= j < |spans| ==> !Covers(spans[j], i)
    ensures r.Some? ==> exists j :: (0 <= j < |spans| && Covers(spans[j], i) && spans[j].tag == r.value &&
      forall k :: j < k < |spans| ==> !Covers(spans[k], i))
    decreases |spans|
  {
    if |spans| == 0 then None
    else if Covers(spans[|spans| - 1], i) then Some(spans[|spans| - 1].tag)
    else
      var r := EffectiveTag(spans[..|spans| - 1], i);
      assert forall j :: 0 <= j < |spans| - 1 ==> spans[..|spans| - 1][j] == spans[j];
      r
  }
}
