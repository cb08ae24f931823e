/** The highlight session of the editor screen: the buffer, its selection,
    the chosen file type and the re-entrancy guard, with the events that
    re-highlight the buffer; and the file-name logic around it. */
module MainActivity {
  import opened Wrappers
  import opened CharClasses
  import opened Highlighter

  // ---------------------------------------------------------------------
  // File names
  // ---------------------------------------------------------------------

  /** `inferTypeFromUri` applied to the display name the content resolver
      reports (`None` when it reports none): the lower-cased name decides. */
  function InferType(displayName: Option<seq<char>>): (ft: FileType)
    ensures displayName.None? ==> ft == TXT
    ensures ft == JSON <==> displayName.Some? && EndsWith(Lower(displayName.value), ".json")
    ensures ft == XML <==> displayName.Some? && EndsWith(Lower(displayName.value), ".xml")
  {
    var name := match displayName case Some(n) => Lower(n) case None => [];
    EndsWithLast(name, ".json");
    EndsWithLast(name, ".xml");
    if EndsWith(name, ".json") then JSON
    else if EndsWith(name, ".xml") then XML
    else TXT
  }

  /** A name that ends with a suffix ends with its last character. */
  lemma EndsWithLast(s: seq<char>, suffix: seq<char>)
    requires |suffix| > 0
    ensures EndsWith(s, suffix) ==> s[|s| - 1] == suffix[|suffix| - 1]
  {
    if EndsWith(s, suffix) {
      assert s[|s| - |suffix|..][|suffix| - 1] == s[|s| - 1];
    }
  }

  /** Any spelling of the extension, in any mix of cases, selects the type. */
  lemma InferTypeIgnoresCase(stem: seq<char>, ext: seq<char>)
    ensures Lower(ext) == ".json" ==> InferType(Some(stem + ext)) == JSON
    ensures Lower(ext) == ".xml" ==> InferType(Some(stem + ext)) == XML
  {
    LowerAppend(stem, ext);
    if Lower(ext) == ".json" || Lower(ext) == ".xml" {
      EndsWithAppend(Lower(stem), Lower(ext), Lower(ext));
      assert EndsWith(Lower(ext), Lower(ext));
    }
  }

  /** A name with neither extension, whatever its case, is plain text. */
  lemma InferTypeOtherwise(name: seq<char>)
    requires !EndsWith(Lower(name), ".json") && !EndsWith(Lower(name), ".xml")
    ensures InferType(Some(name)) == TXT
  {
  }

  /** A name without capitals is its own lower-case form. */
  lemma LowerFixed(name: seq<char>)
    requires forall k :: 0 <= k < |name| ==> !('A' <= name[k] <= 'Z')
    ensures Lower(name) == name
  {
  }

  /** The extension, with its dot, that the default name of a type ends with. */
  function Extension(ft: FileType): (ext: seq<char>)
    ensures |ext| > 1 && ext[0] == '.' && forall k :: 1 <= k < |ext| ==> 'a' <= ext[k] <= 'z'
  {
    match ft
    case TXT => ".txt"
    case JSON => ".json"
    case XML => ".xml"
  }

  /** A lower-case name ending in the extension of a type is given that type. */
  lemma InferLowerCase(stem: seq<char>, ft: FileType)
    requires forall k :: 0 <= k < |stem| ==> !('A' <= stem[k] <= 'Z')
    ensures InferType(Some(stem + Extension(ft))) == ft
  {
    var ext := Extension(ft);
    var name := stem + ext;
    LowerFixed(name);
    EndsWithAppend(stem, ext, ext);
    assert EndsWith(ext, ext);
    if ft == TXT {
      EndsWithLast(name, ".json");
      EndsWithLast(name, ".xml");
      assert name[|name| - 1] == 't';
    }
  }

  /** `document` followed by such an extension. */
  lemma DocumentName(ext: seq<char>)
    requires |ext| > 1 && ext[0] == '.' && forall k :: 1 <= k < |ext| ==> 'a' <= ext[k] <= 'z'
    ensures var name := "document" + ext;
      |name| > 9 && name[..9] == "document." && EndsWith(name, ext) &&
      forall k :: 9 <= k < |name| ==> 'a' <= name[k] <= 'z'
  {
    var name := "document" + ext;
    assert name[8] == '.';
    assert name[..9] == "document.";
    assert name[|name| - |ext|..] == ext;
    forall k | 9 <= k < |name| ensures 'a' <= name[k] <= 'z' {
      assert name[k] == ext[k - 8];
    }
  }

  /** The name the save dialog suggests for a buffer that has no file yet:
      `document.` and a lower-case extension, `txt` for plain text, that
      opening the file again reads back as the same type.  The extension
      holds no further `.`, so these facts leave one name per type
      (`DefaultFileNamePinned`). */
  function DefaultFileName(ft: FileType): (name: seq<char>)
    ensures |name| > 9 && name[..9] == "document."
    ensures forall k :: 9 <= k < |name| ==> 'a' <= name[k] <= 'z'
    ensures ft == TXT ==> EndsWith(name, ".txt")
    ensures InferType(Some(name)) == ft
  {
    InferLowerCase("document", ft);
    DocumentName(Extension(ft));
    "document" + Extension(ft)
  }

  /** The facts `DefaultFileName` promises leave exactly one name per type. */
  lemma DefaultFileNamePinned(ft: FileType, name: seq<char>)
    requires |name| > 9 && name[..9] == "document."
    requires forall k :: 9 <= k < |name| ==> 'a' <= name[k] <= 'z'
    requires ft == TXT ==> EndsWith(name, ".txt")
    requires InferType(Some(name)) == ft
    ensures ft == TXT ==> name == "document.txt"
    ensures ft == JSON ==> name == "document.json"
    ensures ft == XML ==> name == "document.xml"
  {
    DocumentLowerCase(name);
    if ft == TXT {
      DocumentWithExtension(name, ".txt");
    } else if ft == JSON {
      assert EndsWith(Lower(name), ".json");
      DocumentWithExtension(name, ".json");
    } else {
      assert EndsWith(Lower(name), ".xml");
      DocumentWithExtension(name, ".xml");
    }
  }

  /** A name `document.` followed by lower-case letters is its own
      lower-case form. */
  lemma DocumentLowerCase(name: seq<char>)
    requires |name| > 9 && name[..9] == "document."
    requires forall k :: 9 <= k < |name| ==> 'a' <= name[k] <= 'z'
    ensures Lower(name) == name
  {
    forall k | 0 <= k < 9 ensures !('A' <= name[k] <= 'Z') {
      assert name[k] == name[..9][k];
    }
    LowerFixed(name);
  }

  /** A name `document.` followed by letters that ends with a `.` extension
      is `document` followed by that extension. */
  lemma DocumentWithExtension(name: seq<char>, ext: seq<char>)
    requires |name| > 9 && name[..9] == "document."
    requires forall k :: 9 <= k < |name| ==> 'a' <= name[k] <= 'z'
    requires |ext| > 0 && ext[0] == '.' && EndsWith(name, ext)
    ensures name == "document" + ext
  {
    var d := |name| - |ext|;
    assert name[d] == name[d..][0];
    assert d == 8 by {
      if d < 8 {
        assert name[d] == name[..9][d];
      }
    }
    assert name == name[..8] + name[8..];
    assert name[..8] == name[..9][..8];
  }

  // ---------------------------------------------------------------------
  // The file-type spinner
  // ---------------------------------------------------------------------

  /** Position of the type in `FileType.entries`, which is also its
      position in the spinner.  The enum's declaration is not part of this
      model; the order TXT, JSON, XML is assumed. */
  function Ordinal(ft: FileType): nat {
    match ft
    case TXT => 0
    case JSON => 1
    case XML => 2
  }

  /** `FileType.entries[position]`; the spinner only reports positions of
      its three entries. */
  function FileTypeAt(position: int): (ft: FileType)
    requires 0 <= position < 3
    ensures Ordinal(ft) == position
  {
    if position == 0 then TXT else if position == 1 then JSON else XML
  }

  /** Selecting the spinner position of a type selects that type. */
  lemma FileTypeAtOrdinal(ft: FileType)
    ensures Ordinal(ft) < 3 && FileTypeAt(Ordinal(ft)) == ft
  {
  }

  // ---------------------------------------------------------------------
  // Selection restore
  // ---------------------------------------------------------------------

  /** Kotlin's `min` on `Int`. */
  function Min(a: int, b: int): int {
    if a <= b then a else b
  }

  /** A selection end clamped to the buffer length as `applySyntaxHighlighting`
      does it: only from above. */
  function ClampEnd(sel: int, len: nat): (r: int)
    ensures r <= len
    ensures r == sel || r == len
    ensures sel <= len ==> r == sel
    ensures sel > len ==> r == len
  {
    Min(sel, len)
  }

  // ---------------------------------------------------------------------
  // The session
  // ---------------------------------------------------------------------

  /** What the editor screen holds while a document is open.  `passes`
      counts the calls of `highlight`, so that the absence of re-entrant
      highlighting can be stated. */
  datatype Session = Session(
    text: seq<char>,
    spans: seq<Span>,
    selStart: int,
    selEnd: int,
    currentType: FileType,
    applyingHighlight: bool,
    passes: nat)

  /** `applySyntaxHighlighting`: nothing happens on an empty buffer;
      otherwise the guard is raised, the buffer is replaced by its
      highlighted copy (an edit, which fires `afterTextChanged`), the saved
      selection is clamped to the new length and the guard is lowered. */
  function ApplySyntaxHighlighting(s: Session): (r: Session)
    ensures |s.text| == 0 ==> r == s
    ensures |s.text| > 0 ==>
      r.text == s.text && r.spans == Highlight(s.text, s.currentType).spans &&
      r.currentType == s.currentType && !r.applyingHighlight && r.passes == s.passes + 1
    ensures |s.text| > 0 ==> r.selStart <= |r.text| && r.selEnd <= |r.text|
    ensures 0 <= s.selStart <= |s.text| ==> r.selStart == s.selStart
    ensures 0 <= s.selEnd <= |s.text| ==> r.selEnd == s.selEnd
    ensures |s.text| > 0 ==>
      r.selStart == ClampEnd(s.selStart, |s.text|) && r.selEnd == ClampEnd(s.selEnd, |s.text|)
    decreases 1
  {
    if |s.text| == 0 then s
    else
      var guarded := s.(applyingHighlight := true);
      var highlighted := Highlight(s.text, s.currentType);
      var replaced := AfterTextChanged(
        guarded.(text := highlighted.text, spans := highlighted.spans, passes := s.passes + 1));
      var len := |replaced.text|;
      replaced.(selStart := ClampEnd(s.selStart, len), selEnd := ClampEnd(s.selEnd, len),
                applyingHighlight := false)
  }

  /** The text watcher's `afterTextChanged`: re-highlight unless the change
      is the highlighter's own replacement. */
  function AfterTextChanged(s: Session): (r: Session)
    ensures s.applyingHighlight ==> r == s
    ensures !s.applyingHighlight && |s.text| > 0 ==>
      r.text == s.text && r.spans == Highlight(s.text, s.currentType).spans &&
      !r.applyingHighlight && r.passes == s.passes + 1
    decreases if s.applyingHighlight then 0 else 2
  {
    if !s.applyingHighlight then ApplySyntaxHighlighting(s) else s
  }

  /** `onItemSelected`: switch to the type at the spinner position and
      re-highlight the buffer as it stands. */
  function OnItemSelected(s: Session, position: int): (r: Session)
    requires 0 <= position < 3
    ensures Ordinal(r.currentType) == position
    ensures r.text == s.text
    ensures |s.text| > 0 ==> r.spans == Highlight(s.text, r.currentType).spans && r.passes == s.passes + 1
    ensures |s.text| == 0 ==> r.spans == s.spans
  {
    ApplySyntaxHighlighting(s.(currentType := FileTypeAt(position)))
  }

  /** Highlighting a buffer it has just highlighted changes nothing: the
      text is the same, so are the spans, and the restored selection is
      already within bounds.  Only the pass counter moves. */
  lemma ApplyTwice(s: Session)
    requires |s.text| > 0
    ensures var once := ApplySyntaxHighlighting(s);
      ApplySyntaxHighlighting(once) == once.(passes := once.passes + 1)
  {
  }

  /** The replacement the highlighter makes fires `afterTextChanged` with
      the guard up, and that event changes nothing: one highlight pass per
      call, no recursion. */
  lemma ReplaceDoesNotRecurse(s: Session)
    requires |s.text| > 0
    ensures var highlighted := Highlight(s.text, s.currentType);
      var inner := s.(applyingHighlight := true, text := highlighted.text, spans := highlighted.spans,
                      passes := s.passes + 1);
      AfterTextChanged(inner) == inner
  {
  }
}
