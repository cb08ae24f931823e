/** Worked examples of `highlight` on small documents.  Each one first
    settles what `findAll` reports for every pattern of the format, then
    puts the spans together. */
module HighlighterExamples {
  import opened Wrappers
  import opened Patterns
  import opened CharClasses
  import opened Highlighter

  /** The spans of the JSON rules over `t`, rule by rule. */
  function JsonPainted(t: seq<char>): seq<Span> {
    Painted(FindAll(JsonStringRegex, t, 0), Rule(JsonStringRegex, WholeMatch, JsonString)) +
    (Painted(FindAll(JsonKeyRegex, t, 0), Rule(JsonKeyRegex, WholeMatch, JsonKey)) +
    (Painted(FindAll(JsonNumberRegex, t, 0), Rule(JsonNumberRegex, WholeMatch, JsonNumber)) +
    Painted(FindAll(JsonBooleanRegex, t, 0), Rule(JsonBooleanRegex, WholeMatch, JsonBoolean))))
  }

  /** The spans of the XML rules over `t`, rule by rule. */
  function XmlPainted(t: seq<char>): seq<Span> {
    Painted(FindAll(XmlCommentRegex, t, 0), Rule(XmlCommentRegex, WholeMatch, XmlComment)) +
    (Painted(FindAll(XmlTagRegex, t, 0), Rule(XmlTagRegex, Group1, XmlTag)) +
    (Painted(FindAll(XmlAttrNameRegex, t, 0), Rule(XmlAttrNameRegex, Group1, XmlAttrName)) +
    Painted(FindAll(XmlAttrValueRegex, t, 0), Rule(XmlAttrValueRegex, WholeMatch, XmlAttrValue))))
  }

  /** A pattern that cannot start anywhere in `t` has no match. */
  lemma NoMatch(p: Pattern, t: seq<char>)
    requires forall k :: 0 <= k < |t| ==> !MayStart(p, t[k])
    ensures FindAll(p, t, 0) == []
  {
    FindAllSkips(p, t, 0, |t|);
  }

  // ---------------------------------------------------------------------
  // {"a": 1}: the key is coloured as a string and then as a key
  // ---------------------------------------------------------------------

  const KeyValue: seq<char> := "{\"a\": 1}"

  lemma KeyValueStringAt1()
    ensures MatchAt(JsonStringRegex, KeyValue, 1) == Some(Match(1, 4, None))
  {
  }

  lemma KeyValueKeyAt1()
    ensures MatchAt(JsonKeyRegex, KeyValue, 1) == Some(Match(1, 4, None))
  {
  }

  lemma KeyValueNumberAt6()
    ensures MatchAt(JsonNumberRegex, KeyValue, 6) == Some(Match(6, 7, None))
  {
  }

  lemma KeyValueStrings()
    ensures FindAll(JsonStringRegex, KeyValue, 0) == [Match(1, 4, None)]
  {
    KeyValueStringAt1();
    assert forall k :: 0 <= k < 1 ==> !MayStart(JsonStringRegex, KeyValue[k]);
    FindAllSkips(JsonStringRegex, KeyValue, 0, 1);
    FindAllStep(JsonStringRegex, KeyValue, 1, Match(1, 4, None));
    assert forall k :: 4 <= k < 8 ==> !MayStart(JsonStringRegex, KeyValue[k]);
    FindAllSkips(JsonStringRegex, KeyValue, 4, 8);
  }

  lemma KeyValueKeys()
    ensures FindAll(JsonKeyRegex, KeyValue, 0) == [Match(1, 4, None)]
  {
    KeyValueKeyAt1();
    assert forall k :: 0 <= k < 1 ==> !MayStart(JsonKeyRegex, KeyValue[k]);
    FindAllSkips(JsonKeyRegex, KeyValue, 0, 1);
    FindAllStep(JsonKeyRegex, KeyValue, 1, Match(1, 4, None));
    assert forall k :: 4 <= k < 8 ==> !MayStart(JsonKeyRegex, KeyValue[k]);
    FindAllSkips(JsonKeyRegex, KeyValue, 4, 8);
  }

  lemma KeyValueNumbers()
    ensures FindAll(JsonNumberRegex, KeyValue, 0) == [Match(6, 7, None)]
  {
    KeyValueNumberAt6();
    assert forall k :: 0 <= k < 6 ==> !MayStart(JsonNumberRegex, KeyValue[k]);
    FindAllSkips(JsonNumberRegex, KeyValue, 0, 6);
    FindAllStep(JsonNumberRegex, KeyValue, 6, Match(6, 7, None));
    assert forall k :: 7 <= k < 8 ==> !MayStart(JsonNumberRegex, KeyValue[k]);
    FindAllSkips(JsonNumberRegex, KeyValue, 7, 8);
  }

  lemma KeyValueBooleans()
    ensures FindAll(JsonBooleanRegex, KeyValue, 0) == []
  {
    assert forall k :: 0 <= k < |KeyValue| ==> !MayStart(JsonBooleanRegex, KeyValue[k]);
    NoMatch(JsonBooleanRegex, KeyValue);
  }

  lemma KeyValueStringSpans()
    ensures Painted(FindAll(JsonStringRegex, KeyValue, 0), Rule(JsonStringRegex, WholeMatch, JsonString))
      == [Span(1, 4, JsonString)]
  {
    KeyValueStrings();
  }

  lemma KeyValueKeySpans()
    ensures Painted(FindAll(JsonKeyRegex, KeyValue, 0), Rule(JsonKeyRegex, WholeMatch, JsonKey))
      == [Span(1, 4, JsonKey)]
  {
    KeyValueKeys();
  }

  lemma KeyValueNumberSpans()
    ensures Painted(FindAll(JsonNumberRegex, KeyValue, 0), Rule(JsonNumberRegex, WholeMatch, JsonNumber))
      == [Span(6, 7, JsonNumber)]
  {
    KeyValueNumbers();
  }

  lemma KeyValuePainted()
    ensures JsonPainted(KeyValue) ==
      [Span(1, 4, JsonString), Span(1, 4, JsonKey), Span(6, 7, JsonNumber)]
  {
    KeyValueStringSpans();
    KeyValueKeySpans();
    KeyValueNumberSpans();
    KeyValueBooleans();
  }

  lemma KeyValueHighlight()
    ensures Highlight(KeyValue, JSON).spans ==
      [Span(1, 4, JsonString), Span(1, 4, JsonKey), Span(6, 7, JsonNumber)]
  {
    KeyValuePainted();
    HighlightMatches(KeyValue, JSON);
  }

  /** The colour each character of `{"a": 1}` shows under these spans. */
  lemma KeyValueTags()
    ensures var spans := [Span(1, 4, JsonString), Span(1, 4, JsonKey), Span(6, 7, JsonNumber)];
      forall k :: 0 <= k < |KeyValue| ==>
        EffectiveTag(spans, k) ==
          if 1 <= k < 4 then Some(JsonKey) else if k == 6 then Some(JsonNumber) else None
  {
  }

  /** Where the key colour and the string colour overlap, the key colour,
      applied later, is the one shown: all of `"a"` shows the key colour,
      the `1` the number colour, and the braces, the colon and the space
      none. */
  lemma KeyValueShown()
    ensures var spans := Highlight(KeyValue, JSON).spans;
      forall k :: 0 <= k < |KeyValue| ==>
        EffectiveTag(spans, k) ==
          if 1 <= k < 4 then Some(JsonKey) else if k == 6 then Some(JsonNumber) else None
  {
    KeyValueHighlight();
    KeyValueTags();
  }

  // ---------------------------------------------------------------------
  // "a\": 1, "b": 2: the key pattern backtracks although the run is closed
  // ---------------------------------------------------------------------

  const EscapedKey: seq<char> := "\"a\\\": 1, \"b\": 2"

  /** Reading escape pairs, the run from index 0 is `"a\": 1, "` and is
      closed, but no `\s*:` follows its closing quote. */
  lemma EscapedKeyScan()
    ensures EscapeScan(EscapedKey, 1) == Some(9) && !ColonAhead(EscapedKey, 10)
  {
    EscapedKeyScanCloses();
    assert EscapedKey[10] == 'b';
    RunEndAt(EscapedKey, 10, 10, IsSpace);
  }

  lemma EscapedKeyScanCloses()
    ensures EscapeScan(EscapedKey, 1) == Some(9)
  {
    assert !EscapeAt(EscapedKey, 1) && EscapedKey[1] != '"';
    assert EscapeAt(EscapedKey, 2);
    forall k | 4 <= k < 9 ensures EscapedKey[k] != '"' && EscapedKey[k] != '\\' { }
    PlainRun(EscapedKey, 4, 9, true);
    assert EscapedKey[9] == '"';
  }

  /** So the key pattern backtracks: it reads the backslash alone through
      `[^"]` and ends the key at the escaped quote, which `:` follows. */
  lemma EscapedKeyAt0()
    ensures MatchAt(JsonKeyRegex, EscapedKey, 0) == Some(Match(0, 4, None))
  {
    EscapedKeyScan();
    assert QuotedTail(EscapedKey, 9, true) == None;
    PlainRun(EscapedKey, 4, 9, true);
    assert EscapeAt(EscapedKey, 2);
    assert RunEnd(EscapedKey, 4, IsSpace) == 4;
    assert QuotedTail(EscapedKey, 3, true) == Some(4);
  }

  // ---------------------------------------------------------------------
  // -3.14e-2: sign, fraction and signed exponent make one number
  // ---------------------------------------------------------------------

  const Scientific: seq<char> := "-3.14e-2"

  lemma ScientificNumberAt0()
    ensures MatchAt(JsonNumberRegex, Scientific, 0) == Some(Match(0, 8, None))
  {
    assert IntEnd(Scientific, 1) == 2;
    assert FracEnd(Scientific, 2) == 5;
    assert ExpEnd(Scientific, 5) == 8;
  }

  lemma ScientificNumbers()
    ensures FindAll(JsonNumberRegex, Scientific, 0) == [Match(0, 8, None)]
  {
    ScientificNumberAt0();
    FindAllStep(JsonNumberRegex, Scientific, 0, Match(0, 8, None));
  }

  lemma ScientificStrings()
    ensures FindAll(JsonStringRegex, Scientific, 0) == []
    ensures FindAll(JsonKeyRegex, Scientific, 0) == []
  {
    assert forall k :: 0 <= k < |Scientific| ==> !MayStart(JsonStringRegex, Scientific[k]);
    NoMatch(JsonStringRegex, Scientific);
    assert forall k :: 0 <= k < |Scientific| ==> !MayStart(JsonKeyRegex, Scientific[k]);
    NoMatch(JsonKeyRegex, Scientific);
  }

  lemma ScientificBooleans()
    ensures FindAll(JsonBooleanRegex, Scientific, 0) == []
  {
    assert forall k :: 0 <= k < |Scientific| ==> !MayStart(JsonBooleanRegex, Scientific[k]);
    NoMatch(JsonBooleanRegex, Scientific);
  }

  lemma ScientificPainted()
    ensures JsonPainted(Scientific) ==
      [Span(0, 8, JsonNumber)]
  {
    ScientificStrings();
    ScientificNumbers();
    ScientificBooleans();
  }

  lemma ScientificHighlight()
    ensures Highlight(Scientific, JSON).spans ==
      [Span(0, 8, JsonNumber)]
  {
    ScientificPainted();
    HighlightMatches(Scientific, JSON);
  }

  // ---------------------------------------------------------------------
  // NaN: not a JSON number, and the literals are lower case
  // ---------------------------------------------------------------------

  const NotANumber: seq<char> := "NaN"

  lemma NotANumberHighlight()
    ensures Highlight(NotANumber, JSON).spans == []
  {
    assert forall k :: 0 <= k < |NotANumber| ==> !MayStart(JsonStringRegex, NotANumber[k]);
    NoMatch(JsonStringRegex, NotANumber);
    assert forall k :: 0 <= k < |NotANumber| ==> !MayStart(JsonKeyRegex, NotANumber[k]);
    NoMatch(JsonKeyRegex, NotANumber);
    assert forall k :: 0 <= k < |NotANumber| ==> !MayStart(JsonNumberRegex, NotANumber[k]);
    NoMatch(JsonNumberRegex, NotANumber);
    assert forall k :: 0 <= k < |NotANumber| ==> !MayStart(JsonBooleanRegex, NotANumber[k]);
    NoMatch(JsonBooleanRegex, NotANumber);
    HighlightMatches(NotANumber, JSON);
  }

  // ---------------------------------------------------------------------
  // 0123: a leading zero ends the integer part
  // ---------------------------------------------------------------------

  const LeadingZero: seq<char> := "0123"

  /** The integer part `0` takes no further digit ... */
  lemma LeadingZeroNumberAt0()
    ensures MatchAt(JsonNumberRegex, LeadingZero, 0) == Some(Match(0, 1, None))
  {
  }

  /** ... and the next attempt starts a new number at the `1`. */
  lemma LeadingZeroNumberAt1()
    ensures MatchAt(JsonNumberRegex, LeadingZero, 1) == Some(Match(1, 4, None))
  {
  }

  lemma LeadingZeroNumbers()
    ensures FindAll(JsonNumberRegex, LeadingZero, 0) == [Match(0, 1, None), Match(1, 4, None)]
  {
    LeadingZeroNumberAt0();
    LeadingZeroNumberAt1();
    FindAllStep(JsonNumberRegex, LeadingZero, 0, Match(0, 1, None));
    FindAllStep(JsonNumberRegex, LeadingZero, 1, Match(1, 4, None));
  }

  lemma LeadingZeroOthers()
    ensures FindAll(JsonStringRegex, LeadingZero, 0) == []
    ensures FindAll(JsonKeyRegex, LeadingZero, 0) == []
    ensures FindAll(JsonBooleanRegex, LeadingZero, 0) == []
  {
    assert forall k :: 0 <= k < |LeadingZero| ==> !MayStart(JsonStringRegex, LeadingZero[k]);
    NoMatch(JsonStringRegex, LeadingZero);
    assert forall k :: 0 <= k < |LeadingZero| ==> !MayStart(JsonKeyRegex, LeadingZero[k]);
    NoMatch(JsonKeyRegex, LeadingZero);
    assert forall k :: 0 <= k < |LeadingZero| ==> !MayStart(JsonBooleanRegex, LeadingZero[k]);
    NoMatch(JsonBooleanRegex, LeadingZero);
  }

  lemma LeadingZeroNumberSpans()
    ensures Painted(FindAll(JsonNumberRegex, LeadingZero, 0), Rule(JsonNumberRegex, WholeMatch, JsonNumber))
      == [Span(0, 1, JsonNumber), Span(1, 4, JsonNumber)]
  {
    LeadingZeroNumbers();
    var rule := Rule(JsonNumberRegex, WholeMatch, JsonNumber);
    var ms := [Match(0, 1, None), Match(1, 4, None)];
    assert ms[1..] == [Match(1, 4, None)];
    assert Painted(ms[1..], rule) == [Span(1, 4, JsonNumber)];
  }

  lemma LeadingZeroPainted()
    ensures JsonPainted(LeadingZero) == [Span(0, 1, JsonNumber), Span(1, 4, JsonNumber)]
  {
    LeadingZeroNumberSpans();
    LeadingZeroOthers();
  }

  lemma LeadingZeroHighlight()
    ensures Highlight(LeadingZero, JSON).spans == [Span(0, 1, JsonNumber), Span(1, 4, JsonNumber)]
  {
    LeadingZeroPainted();
    HighlightMatches(LeadingZero, JSON);
  }

  // ---------------------------------------------------------------------
  // ["x", ":"]: the key pattern may start at a closing quote, so the text
  // between two strings followed by a colon is coloured as a key
  // ---------------------------------------------------------------------

  const QuotedColon: seq<char> := "[\"x\", \":\"]"

  lemma QuotedColonFirstString()
    ensures MatchAt(JsonStringRegex, QuotedColon, 1) == Some(Match(1, 4, None))
  {
  }

  lemma QuotedColonSecondString()
    ensures MatchAt(JsonStringRegex, QuotedColon, 6) == Some(Match(6, 9, None))
  {
  }

  lemma QuotedColonLaterStrings()
    ensures FindAll(JsonStringRegex, QuotedColon, 4) == [Match(6, 9, None)]
  {
    QuotedColonSecondString();
    assert forall k :: 4 <= k < 6 ==> !MayStart(JsonStringRegex, QuotedColon[k]);
    FindAllSkips(JsonStringRegex, QuotedColon, 4, 6);
    FindAllStep(JsonStringRegex, QuotedColon, 6, Match(6, 9, None));
    assert forall k :: 9 <= k < 10 ==> !MayStart(JsonStringRegex, QuotedColon[k]);
    FindAllSkips(JsonStringRegex, QuotedColon, 9, 10);
  }

  lemma QuotedColonStrings()
    ensures FindAll(JsonStringRegex, QuotedColon, 0) == [Match(1, 4, None), Match(6, 9, None)]
  {
    QuotedColonFirstString();
    QuotedColonLaterStrings();
    assert forall k :: 0 <= k < 1 ==> !MayStart(JsonStringRegex, QuotedColon[k]);
    FindAllSkips(JsonStringRegex, QuotedColon, 0, 1);
    FindAllStep(JsonStringRegex, QuotedColon, 1, Match(1, 4, None));
  }

  /** `"x"` is followed by a comma, so it is no key ... */
  lemma QuotedColonNoKeyAt1()
    ensures MatchAt(JsonKeyRegex, QuotedColon, 1) == None
  {
  }

  /** ... but `", "` is followed by a colon. */
  lemma QuotedColonKeyAt3()
    ensures MatchAt(JsonKeyRegex, QuotedColon, 3) == Some(Match(3, 7, None))
  {
  }

  /** The last quote is never closed. */
  lemma QuotedColonNoKeyAt8()
    ensures MatchAt(JsonKeyRegex, QuotedColon, 8) == None
  {
  }

  lemma QuotedColonLaterKeys()
    ensures FindAll(JsonKeyRegex, QuotedColon, 7) == []
  {
    QuotedColonNoKeyAt8();
    assert forall k :: 7 <= k < 8 ==> !MayStart(JsonKeyRegex, QuotedColon[k]);
    FindAllSkips(JsonKeyRegex, QuotedColon, 7, 8);
    FindAllMiss(JsonKeyRegex, QuotedColon, 8);
    assert forall k :: 9 <= k < 10 ==> !MayStart(JsonKeyRegex, QuotedColon[k]);
    FindAllSkips(JsonKeyRegex, QuotedColon, 9, 10);
  }

  lemma QuotedColonKeys()
    ensures FindAll(JsonKeyRegex, QuotedColon, 0) == [Match(3, 7, None)]
  {
    QuotedColonNoKeyAt1();
    QuotedColonKeyAt3();
    QuotedColonLaterKeys();
    assert forall k :: 0 <= k < 1 ==> !MayStart(JsonKeyRegex, QuotedColon[k]);
    FindAllSkips(JsonKeyRegex, QuotedColon, 0, 1);
    FindAllMiss(JsonKeyRegex, QuotedColon, 1);
    assert forall k :: 2 <= k < 3 ==> !MayStart(JsonKeyRegex, QuotedColon[k]);
    FindAllSkips(JsonKeyRegex, QuotedColon, 2, 3);
    FindAllStep(JsonKeyRegex, QuotedColon, 3, Match(3, 7, None));
  }

  lemma QuotedColonNumbers()
    ensures FindAll(JsonNumberRegex, QuotedColon, 0) == []
  {
    assert forall k :: 0 <= k < |QuotedColon| ==> !MayStart(JsonNumberRegex, QuotedColon[k]);
    NoMatch(JsonNumberRegex, QuotedColon);
  }

  lemma QuotedColonBooleans()
    ensures FindAll(JsonBooleanRegex, QuotedColon, 0) == []
  {
    assert forall k :: 0 <= k < |QuotedColon| ==> !MayStart(JsonBooleanRegex, QuotedColon[k]);
    NoMatch(JsonBooleanRegex, QuotedColon);
  }

  lemma QuotedColonStringSpans()
    ensures Painted(FindAll(JsonStringRegex, QuotedColon, 0), Rule(JsonStringRegex, WholeMatch, JsonString))
      == [Span(1, 4, JsonString), Span(6, 9, JsonString)]
  {
    QuotedColonStrings();
    var rule := Rule(JsonStringRegex, WholeMatch, JsonString);
    var ms := [Match(1, 4, None), Match(6, 9, None)];
    assert ms[1..] == [Match(6, 9, None)];
    assert Painted(ms[1..], rule) == [Span(6, 9, JsonString)];
  }

  lemma QuotedColonKeySpans()
    ensures Painted(FindAll(JsonKeyRegex, QuotedColon, 0), Rule(JsonKeyRegex, WholeMatch, JsonKey))
      == [Span(3, 7, JsonKey)]
  {
    QuotedColonKeys();
  }

  lemma QuotedColonPainted()
    ensures JsonPainted(QuotedColon) ==
      [Span(1, 4, JsonString), Span(6, 9, JsonString), Span(3, 7, JsonKey)]
  {
    QuotedColonStringSpans();
    QuotedColonKeySpans();
    QuotedColonNumbers();
    QuotedColonBooleans();
  }

  /** Positions 3 and 6, quotes of the two strings, show the key colour;
      the colon, inside the second string only, keeps the string colour. */
  lemma QuotedColonTags()
    ensures var spans := [Span(1, 4, JsonString), Span(6, 9, JsonString), Span(3, 7, JsonKey)];
      EffectiveTag(spans, 3) == Some(JsonKey) &&
      EffectiveTag(spans, 6) == Some(JsonKey) &&
      EffectiveTag(spans, 7) == Some(JsonString)
  {
  }

  lemma QuotedColonShown()
    ensures var spans := Highlight(QuotedColon, JSON).spans;
      EffectiveTag(spans, 3) == Some(JsonKey) &&
      EffectiveTag(spans, 6) == Some(JsonKey) &&
      EffectiveTag(spans, 7) == Some(JsonString)
  {
    QuotedColonHighlight();
    QuotedColonTags();
  }

  lemma QuotedColonHighlight()
    ensures Highlight(QuotedColon, JSON).spans ==
      [Span(1, 4, JsonString), Span(6, 9, JsonString), Span(3, 7, JsonKey)]
  {
    QuotedColonPainted();
    HighlightMatches(QuotedColon, JSON);
  }

  // ---------------------------------------------------------------------
  // "a\": the escape branch fails at the end of the text, and the regex
  // backtracks to read the backslash as an ordinary character
  // ---------------------------------------------------------------------

  const TrailingBackslash: seq<char> := "\"a\\\""

  lemma TrailingBackslashStringAt0()
    ensures MatchAt(JsonStringRegex, TrailingBackslash, 0) == Some(Match(0, 4, None))
  {
  }

  lemma TrailingBackslashStrings()
    ensures FindAll(JsonStringRegex, TrailingBackslash, 0) == [Match(0, 4, None)]
  {
    TrailingBackslashStringAt0();
    FindAllStep(JsonStringRegex, TrailingBackslash, 0, Match(0, 4, None));
  }

  /** No colon follows, so neither quote starts a key. */
  lemma TrailingBackslashNoKeyAt0()
    ensures MatchAt(JsonKeyRegex, TrailingBackslash, 0) == None
  {
  }

  lemma TrailingBackslashNoKeyAt3()
    ensures MatchAt(JsonKeyRegex, TrailingBackslash, 3) == None
  {
  }

  lemma TrailingBackslashKeys()
    ensures FindAll(JsonKeyRegex, TrailingBackslash, 0) == []
  {
    TrailingBackslashNoKeyAt0();
    TrailingBackslashNoKeyAt3();
    FindAllMiss(JsonKeyRegex, TrailingBackslash, 0);
    assert forall k :: 1 <= k < 3 ==> !MayStart(JsonKeyRegex, TrailingBackslash[k]);
    FindAllSkips(JsonKeyRegex, TrailingBackslash, 1, 3);
    FindAllMiss(JsonKeyRegex, TrailingBackslash, 3);
  }

  lemma TrailingBackslashOthers()
    ensures FindAll(JsonNumberRegex, TrailingBackslash, 0) == []
    ensures FindAll(JsonBooleanRegex, TrailingBackslash, 0) == []
  {
    assert forall k :: 0 <= k < |TrailingBackslash| ==> !MayStart(JsonNumberRegex, TrailingBackslash[k]);
    NoMatch(JsonNumberRegex, TrailingBackslash);
    assert forall k :: 0 <= k < |TrailingBackslash| ==> !MayStart(JsonBooleanRegex, TrailingBackslash[k]);
    NoMatch(JsonBooleanRegex, TrailingBackslash);
  }

  lemma TrailingBackslashPainted()
    ensures JsonPainted(TrailingBackslash) == [Span(0, 4, JsonString)]
  {
    TrailingBackslashStrings();
    TrailingBackslashKeys();
    TrailingBackslashOthers();
  }

  lemma TrailingBackslashHighlight()
    ensures Highlight(TrailingBackslash, JSON).spans == [Span(0, 4, JsonString)]
  {
    TrailingBackslashPainted();
    HighlightMatches(TrailingBackslash, JSON);
  }

  // ---------------------------------------------------------------------
  // A comment across lines: DOTALL lets `.` take the line breaks, and
  // nothing inside the comment is coloured by the other rules
  // ---------------------------------------------------------------------

  const Comment: seq<char> := "<!--\nhidden\n-->"

  /** The lazy `.*?` stops at the only `-->`. */
  lemma CommentCloses()
    ensures CloseFrom(Comment, 4) == Some(12)
  {
    forall i | 4 <= i < 12 ensures !ClosesAt(Comment, i) {
      LiteralStart(Comment, i, "-->");
    }
    assert Comment[12..15] == "-->";
    CloseFromAt(Comment, 4, 12);
  }

  lemma CommentComments()
    ensures FindAll(XmlCommentRegex, Comment, 0) == [Match(0, 15, None)]
  {
    CommentCloses();
    assert LiteralAt(Comment, 0, "<!--");
    FindAllStep(XmlCommentRegex, Comment, 0, Match(0, 15, None));
  }

  /** `<!` is no tag opener: `!` cannot start a name. */
  lemma CommentNoTagAt0()
    ensures MatchAt(XmlTagRegex, Comment, 0) == None
  {
  }

  lemma CommentNoLaterTags()
    ensures FindAll(XmlTagRegex, Comment, 1) == []
  {
    assert forall k :: 1 <= k < 15 ==> !MayStart(XmlTagRegex, Comment[k]);
    FindAllSkips(XmlTagRegex, Comment, 1, 15);
  }

  lemma CommentTags()
    ensures FindAll(XmlTagRegex, Comment, 0) == []
  {
    CommentNoTagAt0();
    FindAllMiss(XmlTagRegex, Comment, 0);
    CommentNoLaterTags();
  }

  lemma CommentNoNameAt4()
    ensures MatchAt(XmlAttrNameRegex, Comment, 4) == None
  {
  }

  lemma CommentNoNameAt11()
    ensures MatchAt(XmlAttrNameRegex, Comment, 11) == None
  {
  }

  lemma CommentNoNamesAfter11()
    ensures FindAll(XmlAttrNameRegex, Comment, 11) == []
  {
    CommentNoNameAt11();
    FindAllMiss(XmlAttrNameRegex, Comment, 11);
    assert forall k :: 12 <= k < 15 ==> !MayStart(XmlAttrNameRegex, Comment[k]);
    FindAllSkips(XmlAttrNameRegex, Comment, 12, 15);
  }

  lemma CommentNoNamesAfter5()
    ensures FindAll(XmlAttrNameRegex, Comment, 5) == []
  {
    assert forall k :: 5 <= k < 11 ==> !MayStart(XmlAttrNameRegex, Comment[k]);
    FindAllSkips(XmlAttrNameRegex, Comment, 5, 11);
    CommentNoNamesAfter11();
  }

  lemma CommentNoNamesAfter4()
    ensures FindAll(XmlAttrNameRegex, Comment, 4) == []
  {
    CommentNoNameAt4();
    FindAllMiss(XmlAttrNameRegex, Comment, 4);
    CommentNoNamesAfter5();
  }

  lemma CommentAttrNames()
    ensures FindAll(XmlAttrNameRegex, Comment, 0) == []
  {
    assert forall k :: 0 <= k < 4 ==> !MayStart(XmlAttrNameRegex, Comment[k]);
    FindAllSkips(XmlAttrNameRegex, Comment, 0, 4);
    CommentNoNamesAfter4();
  }

  lemma CommentAttrValues()
    ensures FindAll(XmlAttrValueRegex, Comment, 0) == []
  {
    assert forall k :: 0 <= k < |Comment| ==> !MayStart(XmlAttrValueRegex, Comment[k]);
    NoMatch(XmlAttrValueRegex, Comment);
  }

  lemma CommentSpans()
    ensures Painted(FindAll(XmlCommentRegex, Comment, 0), Rule(XmlCommentRegex, WholeMatch, XmlComment))
      == [Span(0, 15, XmlComment)]
  {
    CommentComments();
  }

  lemma CommentPainted()
    ensures XmlPainted(Comment) == [Span(0, 15, XmlComment)]
  {
    CommentSpans();
    CommentTags();
    CommentAttrNames();
    CommentAttrValues();
  }

  lemma CommentHighlight()
    ensures Highlight(Comment, XML).spans == [Span(0, 15, XmlComment)]
  {
    CommentPainted();
    HighlightMatches(Comment, XML);
  }

  // ---------------------------------------------------------------------
  // <a href="x">: group 1 colours the names without the `<` and the
  // space in front of them
  // ---------------------------------------------------------------------

  const Element: seq<char> := "<a href=\"x\">"

  lemma ElementTagAt0()
    ensures MatchAt(XmlTagRegex, Element, 0) == Some(Match(0, 2, Some(Range(1, 2))))
  {
  }

  lemma ElementNoLaterTags()
    ensures FindAll(XmlTagRegex, Element, 2) == []
  {
    assert forall k :: 2 <= k < 12 ==> !MayStart(XmlTagRegex, Element[k]);
    FindAllSkips(XmlTagRegex, Element, 2, 12);
  }

  lemma ElementTags()
    ensures FindAll(XmlTagRegex, Element, 0) == [Match(0, 2, Some(Range(1, 2)))]
  {
    ElementTagAt0();
    ElementNoLaterTags();
    FindAllStep(XmlTagRegex, Element, 0, Match(0, 2, Some(Range(1, 2))));
  }

  lemma ElementAttrNameAt2()
    ensures MatchAt(XmlAttrNameRegex, Element, 2) == Some(Match(2, 7, Some(Range(3, 7))))
  {
    assert RunEnd(Element, 4, IsNameChar) == 7;
  }

  lemma ElementNoLaterAttrNames()
    ensures FindAll(XmlAttrNameRegex, Element, 7) == []
  {
    assert forall k :: 7 <= k < 12 ==> !MayStart(XmlAttrNameRegex, Element[k]);
    FindAllSkips(XmlAttrNameRegex, Element, 7, 12);
  }

  lemma ElementAttrNames()
    ensures FindAll(XmlAttrNameRegex, Element, 0) == [Match(2, 7, Some(Range(3, 7)))]
  {
    ElementAttrNameAt2();
    ElementNoLaterAttrNames();
    assert forall k :: 0 <= k < 2 ==> !MayStart(XmlAttrNameRegex, Element[k]);
    FindAllSkips(XmlAttrNameRegex, Element, 0, 2);
    FindAllStep(XmlAttrNameRegex, Element, 2, Match(2, 7, Some(Range(3, 7))));
  }

  lemma ElementAttrValueAt8()
    ensures MatchAt(XmlAttrValueRegex, Element, 8) == Some(Match(8, 11, None))
  {
  }

  lemma ElementAttrValues()
    ensures FindAll(XmlAttrValueRegex, Element, 0) == [Match(8, 11, None)]
  {
    ElementAttrValueAt8();
    assert forall k :: 0 <= k < 8 ==> !MayStart(XmlAttrValueRegex, Element[k]);
    FindAllSkips(XmlAttrValueRegex, Element, 0, 8);
    FindAllStep(XmlAttrValueRegex, Element, 8, Match(8, 11, None));
    assert forall k :: 11 <= k < 12 ==> !MayStart(XmlAttrValueRegex, Element[k]);
    FindAllSkips(XmlAttrValueRegex, Element, 11, 12);
  }

  /** `<a` does not open a comment. */
  lemma ElementNoCommentAt0()
    ensures MatchAt(XmlCommentRegex, Element, 0) == None
  {
    assert Element[0..4][1] == 'a';
  }

  lemma ElementNoLaterComments()
    ensures FindAll(XmlCommentRegex, Element, 1) == []
  {
    assert forall k :: 1 <= k < 12 ==> !MayStart(XmlCommentRegex, Element[k]);
    FindAllSkips(XmlCommentRegex, Element, 1, 12);
  }

  lemma ElementComments()
    ensures FindAll(XmlCommentRegex, Element, 0) == []
  {
    ElementNoCommentAt0();
    FindAllMiss(XmlCommentRegex, Element, 0);
    ElementNoLaterComments();
  }

  lemma ElementTagSpans()
    ensures Painted(FindAll(XmlTagRegex, Element, 0), Rule(XmlTagRegex, Group1, XmlTag)) == [Span(1, 2, XmlTag)]
  {
    ElementTags();
  }

  lemma ElementAttrNameSpans()
    ensures Painted(FindAll(XmlAttrNameRegex, Element, 0), Rule(XmlAttrNameRegex, Group1, XmlAttrName))
      == [Span(3, 7, XmlAttrName)]
  {
    ElementAttrNames();
  }

  lemma ElementAttrValueSpans()
    ensures Painted(FindAll(XmlAttrValueRegex, Element, 0), Rule(XmlAttrValueRegex, WholeMatch, XmlAttrValue))
      == [Span(8, 11, XmlAttrValue)]
  {
    ElementAttrValues();
  }

  lemma ElementCommentSpans()
    ensures Painted(FindAll(XmlCommentRegex, Element, 0), Rule(XmlCommentRegex, WholeMatch, XmlComment)) == []
  {
    ElementComments();
  }

  lemma ElementPainted()
    ensures XmlPainted(Element) == [Span(1, 2, XmlTag), Span(3, 7, XmlAttrName), Span(8, 11, XmlAttrValue)]
  {
    ElementCommentSpans();
    ElementTagSpans();
    ElementAttrNameSpans();
    ElementAttrValueSpans();
  }

  lemma ElementHighlight()
    ensures Highlight(Element, XML).spans ==
      [Span(1, 2, XmlTag), Span(3, 7, XmlAttrName), Span(8, 11, XmlAttrValue)]
  {
    ElementPainted();
    HighlightMatches(Element, XML);
  }
}
