# Syntax highlighting of a plain-text editor, in Dafny

This project models the core of an Android text editor that colours JSON
and XML while the user types. There are two parts.

- **The highlighting engine** (`SyntaxHighlighter.kt`). `highlight` takes
  a text and a file type (TXT, JSON or XML) and runs the rules of that
  type one after the other. `applyColor` runs a rule: the rule's regular
  expression is searched over the raw text with `Regex.findAll`, and each
  match (or its capture group 1) becomes one coloured span. Spans may
  overlap, and where they do the span set last is the one shown.
- **The highlight session** (`MainActivity.kt`). It has four parts:
  - the buffer is re-highlighted after every edit;
  - the re-entrancy guard `isApplyingHighlight` stops the highlighter's own
    buffer replacement from triggering another pass;
  - the selection is restored with `min(…, length)`;
  - the file-type spinner switches the type, and the type is inferred from
    a document's display name, with a default name for new documents.

Modules:

- `Wrappers`: `Option`.
- `CharClasses` (`char_classes.dfy`): ASCII readings of `\s`, `\d`, `\w`
  and `\b` (an assumption of the model, see "Left out"), the line
  terminators of `.`, the name classes of the XML patterns, greedy runs
  (`RunEnd`), ASCII lower-casing and `endsWith`.
- `Patterns` (`patterns.dfy`): the eight regular expressions, each
  hand-coded as a deterministic matcher `MatchAt(p, t, s)`. Each one
  answers what a backtracking regex engine answers for an attempt at
  position `s`, with the character classes read as in `CharClasses`.
  - For the JSON string and key patterns, backtracking changes the outcome,
    so their matcher is the backtracking search itself (`QuotedTail`).
  - Every other pattern collapses to one greedy scan; the comment on each
    matcher says why.
  - Each pattern also has a declarative reading, `Lexeme`. Every matcher is
    proved sound against it and, pattern by pattern, complete.
- `Highlighter` (`highlighter.dfy`):
  - `FindAll` is one generic search loop, `Scan`, instantiated with a
    pattern's attempts. It restarts at the previous match's end and
    otherwise moves one position on.
  - `ApplyColor` turns each match into a span.
  - `Highlight` runs the rule list, and `EffectiveTag` gives the colour a
    character shows.
- `HighlighterExamples` (`highlighter_examples.dfy`): complete highlights
  of small documents, computed step by step from the matchers.
- `MainActivity` (`main_activity.dfy`): the session as an immutable
  `Session` value, with the file-name and spinner functions.

How the model is built:

- The text is a `seq<char>`, a sequence of Unicode code points (a Dafny
  `char` is a Unicode scalar value).
- Colours are the symbolic `Tag` values.
- A span is the half-open range `[first, last + 1)` of a match, counted
  in code points. `setSpan` receives the same range counted in UTF-16
  units; the two agree on text without supplementary characters.
- The session's events are pure functions from one session to the next.
  - `ApplySyntaxHighlighting` and `AfterTextChanged` call each other, as
    the Kotlin methods do: replacing the buffer fires the text watcher.
  - That recursion terminates only because of the guard, and the
    termination measure says so.

Three details of the code worth stating:

- **String body.** The character class `[^\"]` of the string and key
  patterns excludes only the quote. A backslash can therefore also be read
  as an ordinary body character. So `"a\"` at the end of the text is one
  complete string. The search first reads the escape `\"`, and that step
  succeeds; but no closing quote follows before the end of the text. Only
  then does backtracking read the backslash alone and close the string at
  the last quote (`TrailingBackslashHighlight`).
- **File-type inference.** Only `.json` and `.xml` are recognised. No
  other XML extension is.
- **Selection restore.** The selection is clamped only from above, with
  `min(selection, length)`. It is not clamped into `[0, length]`.

## Model

| member | source | states |
|---|---|---|
| Patterns.QuotedTail | app/src/main/java/com/texteditor/SyntaxHighlighter.kt:11-12 | the backtracking search for the body of a quoted run ends right after a quote, and every quote in the body follows a backslash; for the key pattern, `\s*:` follows the end |
| Patterns.QuotedAt | app/src/main/java/com/texteditor/SyntaxHighlighter.kt:11-12 | a string or key match starts at a quote and is a whole quoted run (`"(?:\\.\|[^"])*"`); a key match is followed by `\s*:` |
| Patterns.EscapeScanAgrees | app/src/main/java/com/texteditor/SyntaxHighlighter.kt:11-12 | whenever reading escape pairs left to right finds a closing quote (followed by `\s*:` for a key), the regex's match ends right after that quote; backtracking only matters for runs the scan leaves open or, for the key pattern, when no `\s*:` follows the quote the scan stops at |
| Patterns.PlainRun | app/src/main/java/com/texteditor/SyntaxHighlighter.kt:11-12 | over characters that are neither quote nor backslash, the backtracking search and the escape-pair scan both move on unchanged |
| Patterns.QuotedTailComplete | app/src/main/java/com/texteditor/SyntaxHighlighter.kt:11-12 | the backtracking search does not give up while some end would make a valid quoted run |
| Patterns.QuotedMatchComplete | app/src/main/java/com/texteditor/SyntaxHighlighter.kt:11-12 | wherever a quoted run starts (one followed by `\s*:`, for the key pattern), the string (key) pattern matches there |
| Patterns.IntEnd | app/src/main/java/com/texteditor/SyntaxHighlighter.kt:13 | the integer part is `0` alone or a non-zero digit followed by digits, and after a non-zero digit it takes every digit that follows |
| Patterns.FracEnd | app/src/main/java/com/texteditor/SyntaxHighlighter.kt:13 | the optional fraction is empty or a dot followed by at least one digit; it is taken, with every digit, whenever `.` and a digit follow |
| Patterns.ExpEnd | app/src/main/java/com/texteditor/SyntaxHighlighter.kt:13 | the optional exponent is empty or `e`/`E`, an optional sign and at least one digit; it is taken, with every digit, whenever `[eE][+-]?` and a digit follow |
| Patterns.NumberAt | app/src/main/java/com/texteditor/SyntaxHighlighter.kt:13 | a number match is the longest prefix from its start that is a JSON number (optional minus, integer, fraction, exponent); there is no match exactly when no JSON number starts there |
| Patterns.NumberWithinGreedy | app/src/main/java/com/texteditor/SyntaxHighlighter.kt:13 | every JSON number starting at a position ends at or before the end of the greedy parse there |
| Patterns.BooleanAt | app/src/main/java/com/texteditor/SyntaxHighlighter.kt:14 | a literal match is exactly `true`, `false` or `null` with a word boundary on both sides |
| Patterns.BooleanAtComplete | app/src/main/java/com/texteditor/SyntaxHighlighter.kt:14 | every bounded `true`, `false` or `null` is the literal match at its start |
| Patterns.CloseFrom | app/src/main/java/com/texteditor/SyntaxHighlighter.kt:16 | the lazy `.*?` stops at the nearest `-->` at or after a position, or there is none |
| Patterns.CloseFromAt | app/src/main/java/com/texteditor/SyntaxHighlighter.kt:16 | a `-->` at `j` with none from `k` up to `j` is where the search from `k` stops |
| Patterns.CommentAt | app/src/main/java/com/texteditor/SyntaxHighlighter.kt:16 | a comment match runs from `<!--` to the first `-->` after it, across line breaks; it fails only without `<!--` or without any later `-->` |
| Patterns.CommentAtComplete | app/src/main/java/com/texteditor/SyntaxHighlighter.kt:16 | every comment lexeme is the match reported at its start |
| Patterns.TagAt | app/src/main/java/com/texteditor/SyntaxHighlighter.kt:17 | a tag match has group 1, which starts after `<`, an optional `/` and whitespace, and is a maximal tag name ending the match |
| Patterns.TagAtComplete | app/src/main/java/com/texteditor/SyntaxHighlighter.kt:17 | wherever `<`, an optional `/` and whitespace lead up to a tag name, the match at the `<` has exactly that name as group 1 |
| Patterns.AttrNameAt | app/src/main/java/com/texteditor/SyntaxHighlighter.kt:18 | an attribute-name match has group 1 one character after its whitespace start, holding a name that `\s*=` follows |
| Patterns.AttrNameAtComplete | app/src/main/java/com/texteditor/SyntaxHighlighter.kt:18 | every attribute name before `\s*=` is group 1 of the match at the whitespace in front of it |
| Patterns.AttrValueAt | app/src/main/java/com/texteditor/SyntaxHighlighter.kt:19 | an attribute-value match is a run quoted with `"` or `'` containing no other quote of that kind; it fails at a quote only when the quote is never closed |
| Patterns.AttrValueAtComplete | app/src/main/java/com/texteditor/SyntaxHighlighter.kt:19 | every quoted attribute value is the match at its opening quote |
| Patterns.MatchAt | app/src/main/java/com/texteditor/SyntaxHighlighter.kt:11-19 | a match attempt at `s` starts at `s`, is non-empty and ends within the text |
| Patterns.MatchAtSound | app/src/main/java/com/texteditor/SyntaxHighlighter.kt:11-19 | every match colours a lexeme of its pattern, and it has a group 1 exactly for the tag and attribute-name patterns |
| Patterns.MatchStartsWith | app/src/main/java/com/texteditor/SyntaxHighlighter.kt:11-19 | each pattern can only start at its own characters: a quote, `-` or a digit, `t`/`f`/`n`, `<`, whitespace, or a quote of either kind |
| Highlighter.RulesFor | app/src/main/java/com/texteditor/SyntaxHighlighter.kt:37-52 | JSON and XML each have four rules, in the order string, key, number, boolean and comment, tag, attribute name, attribute value, and each rule colours its own pattern; TXT has none |
| Highlighter.ScanSound | app/src/main/java/com/texteditor/SyntaxHighlighter.kt:61 | what the search returns is a report: each match is the attempt at its own start, and the next is searched from its end |
| Highlighter.ReportedOrdered | app/src/main/java/com/texteditor/SyntaxHighlighter.kt:61 | reported matches lie at or after the search start, within the text, in text order and pairwise disjoint |
| Highlighter.ReportedDescribes | app/src/main/java/com/texteditor/SyntaxHighlighter.kt:61 | every reported match of a pattern colours a lexeme of that pattern |
| Highlighter.ReportedFacts | app/src/main/java/com/texteditor/SyntaxHighlighter.kt:61 | `findAll` yields lexemes of the pattern, at or after the start, strictly increasing and non-overlapping |
| Highlighter.ScanLeftmost | app/src/main/java/com/texteditor/SyntaxHighlighter.kt:61 | the search skips no match: at a position no reported match covers, the attempt fails |
| Highlighter.FindAllLeftmost | app/src/main/java/com/texteditor/SyntaxHighlighter.kt:61 | no match of the pattern can start at a position that `findAll`'s matches leave uncovered |
| Highlighter.ScanSkips | app/src/main/java/com/texteditor/SyntaxHighlighter.kt:61 | the search passes over a stretch of failed attempts without reporting anything |
| Highlighter.FindAllSkips | app/src/main/java/com/texteditor/SyntaxHighlighter.kt:61 | `findAll` passes over characters that cannot start a match of the pattern |
| Highlighter.SpanOfMatch | app/src/main/java/com/texteditor/SyntaxHighlighter.kt:62-67 | a match yields the span of the whole match or of group 1, inside the match, in the rule's colour; a well-targeted rule always yields one, and it is a lexeme |
| Highlighter.PaintedLexemes | app/src/main/java/com/texteditor/SyntaxHighlighter.kt:61-74 | the spans set for the matches, one per match, have the rule's colour, are non-empty, lie within the text and are lexemes of the pattern |
| Highlighter.PaintedOrdered | app/src/main/java/com/texteditor/SyntaxHighlighter.kt:61-74 | the spans of non-overlapping matches are in text order and pairwise disjoint, none before the first match |
| Highlighter.PaintedMatches | app/src/main/java/com/texteditor/SyntaxHighlighter.kt:62-72 | for a well-targeted rule, span `i` is the whole of match `i` or exactly its group 1, in the rule's colour, inside that match |
| Highlighter.ApplyColor | app/src/main/java/com/texteditor/SyntaxHighlighter.kt:55-75 | one span per `findAll` match of the rule's pattern, in match order: span `i` is the whole of match `i` (group 0) or exactly its group 1 (group 1), in the rule's colour, inside match `i`; spans are non-empty, within the text, lexemes of the pattern, strictly increasing and disjoint |
| Highlighter.ApplyRules | app/src/main/java/com/texteditor/SyntaxHighlighter.kt:37-40 | the spans of a rule list are well formed, use only the list's colours, are lexemes of their patterns, and come rule by rule in rank order; for well-targeted rules, every `findAll` match of every rule has what the rule colours of it (the whole match or its group 1) among the spans |
| Highlighter.AppendColoursAll | app/src/main/java/com/texteditor/SyntaxHighlighter.kt:37-40 | the first rule's spans, one per match, followed by spans that colour every match of the later rules, colour every match of the whole list |
| Highlighter.Highlight | app/src/main/java/com/texteditor/SyntaxHighlighter.kt:21-29 | the text comes back unchanged; TXT gets no span; every span is non-empty and within the text, belongs to the file type and is a lexeme of its pattern; spans come rule by rule, increasing and disjoint within a rule; and every `findAll` match of every rule of the file type has what the rule colours of it among the spans, so no match goes uncoloured |
| Highlighter.NameSpansHoldNamesOnly | app/src/main/java/com/texteditor/SyntaxHighlighter.kt:17-18 | tag and attribute-name spans hold name characters only, never `<`, `/` or whitespace |
| Highlighter.EffectiveTag | app/src/main/java/com/texteditor/SyntaxHighlighter.kt:68-72 | a character shows no colour exactly when no span covers it, and otherwise the colour of the last span covering it |
| HighlighterExamples.KeyValueShown | app/src/main/java/com/texteditor/SyntaxHighlighter.kt:11-13 | in `{"a": 1}` every character of `"a"` shows the key colour, not the string colour, `1` shows the number colour, and the braces, the colon and the space show none |
| HighlighterExamples.KeyValueHighlight | app/src/main/java/com/texteditor/SyntaxHighlighter.kt:37-40 | `{"a": 1}` gets a string span and a key span over `"a"`, then a number span over `1` |
| HighlighterExamples.ScientificHighlight | app/src/main/java/com/texteditor/SyntaxHighlighter.kt:13 | `-3.14e-2` is exactly one number span over the whole text |
| HighlighterExamples.NotANumberHighlight | app/src/main/java/com/texteditor/SyntaxHighlighter.kt:13-14 | `NaN` gets no span at all |
| HighlighterExamples.LeadingZeroNumberAt0 | app/src/main/java/com/texteditor/SyntaxHighlighter.kt:13 | in `0123` the number at the start is `0` alone |
| HighlighterExamples.LeadingZeroHighlight | app/src/main/java/com/texteditor/SyntaxHighlighter.kt:13 | `0123` gets two number spans, `0` and `123` |
| HighlighterExamples.EscapedKeyScan | app/src/main/java/com/texteditor/SyntaxHighlighter.kt:12 | in `"a\": 1, "b": 2` reading escape pairs closes the run at index 9, but no `\s*:` follows that quote |
| HighlighterExamples.EscapedKeyAt0 | app/src/main/java/com/texteditor/SyntaxHighlighter.kt:12 | so the key pattern backtracks, reads the backslash alone and matches `"a\"` as a key, ending at the escaped quote that `:` follows |
| HighlighterExamples.QuotedColonKeyAt3 | app/src/main/java/com/texteditor/SyntaxHighlighter.kt:12 | in `["x", ":"]` the key pattern matches `", "` from the closing quote of `"x"` |
| HighlighterExamples.QuotedColonHighlight | app/src/main/java/com/texteditor/SyntaxHighlighter.kt:37-40 | `["x", ":"]` gets two string spans and then the key span over `", "` |
| HighlighterExamples.QuotedColonShown | app/src/main/java/com/texteditor/SyntaxHighlighter.kt:11-12 | the quotes of both strings that the key span covers show the key colour; the colon keeps the string colour |
| HighlighterExamples.TrailingBackslashHighlight | app/src/main/java/com/texteditor/SyntaxHighlighter.kt:11 | `"a\"` is one string span: the backslash is read as a body character |
| HighlighterExamples.CommentHighlight | app/src/main/java/com/texteditor/SyntaxHighlighter.kt:16 | `<!--\nhidden\n-->` is exactly one comment span over the whole text, and no other rule colours inside it |
| HighlighterExamples.ElementHighlight | app/src/main/java/com/texteditor/SyntaxHighlighter.kt:17-19 | `<a href="x">` gets the tag span over `a`, the attribute-name span over `href` and the value span over `"x"`, without the `<` or the space |
| MainActivity.InferType | app/src/main/java/com/texteditor/MainActivity.kt:126-133 | no display name means TXT; the type is JSON exactly when the lower-cased name ends with `.json`, and XML exactly when it ends with `.xml` |
| MainActivity.InferTypeIgnoresCase | app/src/main/java/com/texteditor/MainActivity.kt:127-130 | an extension spelt `.json` or `.xml` in any mix of cases selects JSON or XML |
| MainActivity.InferTypeOtherwise | app/src/main/java/com/texteditor/MainActivity.kt:131 | a name with neither extension is plain text |
| MainActivity.DefaultFileName | app/src/main/java/com/texteditor/MainActivity.kt:147-153 | the suggested name is `document.` followed by a lower-case extension without a further dot, `txt` for plain text, and inferring the type from it gives back the current type |
| MainActivity.DefaultFileNamePinned | app/src/main/java/com/texteditor/MainActivity.kt:147-153 | those facts leave one name per type: `document.txt`, `document.json` and `document.xml` |
| MainActivity.FileTypeAt | app/src/main/java/com/texteditor/MainActivity.kt:65 | the type at a spinner position has that position as its ordinal |
| MainActivity.FileTypeAtOrdinal | app/src/main/java/com/texteditor/MainActivity.kt:62-65 | selecting a type's own spinner position selects that type |
| MainActivity.ClampEnd | app/src/main/java/com/texteditor/MainActivity.kt:108-109 | a restored selection end is at most the length, and it is the saved end whenever that is within the length |
| MainActivity.ApplySyntaxHighlighting | app/src/main/java/com/texteditor/MainActivity.kt:98-112 | an empty buffer is left exactly as it is; otherwise the characters stay the same, the spans become those of `highlight`, the guard is down on return, there is exactly one highlight pass, each selection end is restored as `min(saved end, length)` (so at most the length, and exactly the saved end when it is in range) |
| MainActivity.AfterTextChanged | app/src/main/java/com/texteditor/MainActivity.kt:90-94 | with the guard up the event changes nothing; with it down, a non-empty buffer is highlighted once |
| MainActivity.ReplaceDoesNotRecurse | app/src/main/java/com/texteditor/MainActivity.kt:105-107 | the text-change event fired by the highlighter's own replacement sees the guard up and changes nothing |
| MainActivity.ApplyTwice | app/src/main/java/com/texteditor/MainActivity.kt:98-112 | highlighting a buffer just highlighted changes nothing but the pass count |
| MainActivity.OnItemSelected | app/src/main/java/com/texteditor/MainActivity.kt:64-67 | selecting a spinner position sets the type at that position and re-highlights the unchanged text with it; an empty buffer keeps its spans |
| CharClasses.Lower | app/src/main/java/com/texteditor/MainActivity.kt:127 | lower-casing keeps the length and maps each character through ASCII `lowercase` |
| CharClasses.LowerAppend | app/src/main/java/com/texteditor/MainActivity.kt:127 | lower-casing a concatenation lower-cases each part |
| CharClasses.RunEnd | app/src/main/java/com/texteditor/SyntaxHighlighter.kt:17-18 | a greedy run of a class stops at the first character outside it or at the end of the text |
| CharClasses.RunEndAt | app/src/main/java/com/texteditor/SyntaxHighlighter.kt:17-18 | a run of the class that stops at a character outside it is the greedy run |

## Left out

- File I/O and the content resolver are left out: `readText`, `saveToUri` and the cursor in `queryDisplayName` (MainActivity.kt:114-145). The display name is an input (`Option<seq<char>>`), so an absent name is modelled.
- The Android plumbing is left out: activity-result launchers, the spinner adapter, the Snackbar and view binding. The event handlers are modelled as functions on the session.
- Colour resolution through `ContextCompat.getColor` and `R.color` is left out. The `Tag` values stand for the eight colours.
- Unicode character classes are not modelled: the model assumes ASCII meanings for `\s`, `\d`, `\w` and `\b`. This is an assumption, not the platform's guaranteed behaviour. Android's `java.util.regex` is backed by ICU, where these classes are Unicode-aware. On ASCII text the two readings agree. The line terminators that `.` refuses are taken to be `\n`, `\r`, U+0085, U+2028 and U+2029. This list only matters for the escape `\\.` of the string and key patterns.
- Offsets count Unicode code points, not UTF-16 units. Kotlin's `String` indices, the `setSpan` offsets and the `length` that the selection is clamped to count UTF-16 units. So every span offset, selection end and text length in the model is one lower than the program's for each supplementary character (one outside the Basic Multilingual Plane, such as an emoji) before that position. Which characters get which colour is unaffected, because Java and ICU character classes read a surrogate pair as one code point. Unpaired surrogates cannot be represented as a Dafny `char` and are not modelled.
- CharClasses.Lower: lower-cases ASCII letters only. Kotlin's `lowercase()` also maps non-ASCII letters, which can only matter for names whose extension holds such letters, and no recognised extension does.
- What a Spannable does with old spans when its text is replaced is not modelled. The buffer's spans become the spans of the highlighted copy. Rendering of overlapping spans is reduced to the last-applied-wins `EffectiveTag`.
- MainActivity.ClampEnd: follows the code, so a negative selection end (an `EditText` reports -1 when there is no selection) is passed through unchanged. The model states nothing about what `setSelection` would then do.
- The `FileType` enum's declaration is not part of this model. The spinner maps through `FileType.entries[position]` (MainActivity.kt:65), and `Ordinal` assumes the declaration order TXT, JSON, XML, which is also the order of the `when` branches at MainActivity.kt:148-152.
- MainActivity.FileTypeAt: requires a position among the three spinner entries. The spinner only reports those, and `FileType.entries[position]` would throw for any other.
- The `passes` field of `Session` is not part of the editor's state. It counts calls of `highlight`, so that "exactly one pass, no recursion" can be stated.
- The session is an immutable value, not an object with mutable fields. Each event returns the next session, and the guard is a field of it.
- Patterns.QuotedMatchComplete: states that a match exists wherever a quoted run starts, not which end the backtracking picks. `EscapeScanAgrees` gives the end whenever the run is terminated in the ordinary way.
- Patterns.MatchStartsWith: states a necessary condition on the first character only. The completeness lemmas give the converse per pattern.
