/**
 The options dictionary handed to the PDF renderer: ten fixed entries, the
 page size and orientation chosen in the sidebar, and a user style sheet
 when a CSS file was uploaded.
 */
module RenderOptions {
  import opened Optional

  /** The page sizes the sidebar offers. */
  datatype PageSize = A4 | Letter | Legal {
    /** The label shown in the sidebar, passed on unchanged. */
    function Label(): (shown: string)
      ensures shown != []
    {
      match this
      case A4 => "A4"
      case Letter => "Letter"
      case Legal => "Legal"
    }
  }

  /** The orientations the sidebar offers. */
  datatype Orientation = Portrait | Landscape {
    /** The label shown in the sidebar. */
    function Label(): (shown: string)
      ensures shown != []
    {
      match this
      case Portrait => "Portrait"
      case Landscape => "Landscape"
    }
  }

  /** A value in the options dictionary: Python's `None`, a string or an int. */
  datatype Value = Null | Text(text: string) | Number(number: int)

  /** The renderer options the application sets. */
  datatype Key =
    | EnableLocalFileAccess | PageSizeKey | OrientationKey | EncodingKey | NoOutline
    | DisableSmartShrinking | Dpi | PrintMediaType | JavascriptDelay | DebugJavascript
    | UserStyleSheet
  {
    /** The option's name as the renderer spells it. */
    function Name(): (name: string)
      ensures name != []
    {
      match this
      case EnableLocalFileAccess => "enable-local-file-access"
      case PageSizeKey => "page-size"
      case OrientationKey => "orientation"
      case EncodingKey => "encoding"
      case NoOutline => "no-outline"
      case DisableSmartShrinking => "disable-smart-shrinking"
      case Dpi => "dpi"
      case PrintMediaType => "print-media-type"
      case JavascriptDelay => "javascript-delay"
      case DebugJavascript => "debug-javascript"
      case UserStyleSheet => "user-style-sheet"
    }
  }

  /** No two options share a name, so a map keyed by options is a dictionary keyed by names. */
  lemma NamesAreDistinct(k1: Key, k2: Key)
    ensures k1.Name() == k2.Name() <==> k1 == k2
  {
  }

  /** The keys every options dictionary holds. */
  const FixedKeys: set<Key> := {
    EnableLocalFileAccess, PageSizeKey, OrientationKey, EncodingKey, NoOutline,
    DisableSmartShrinking, Dpi, PrintMediaType, JavascriptDelay, DebugJavascript
  }

  /** The keys whose value is the empty string: options passed as bare flags. */
  const BareFlags: set<Key> := {
    EnableLocalFileAccess, DisableSmartShrinking, PrintMediaType, DebugJavascript
  }

  const Utf8: string := "UTF-8"
  const Resolution: int := 300
  const ScriptDelayMs: int := 1000

  /** Whether a character is an ASCII capital letter. */
  predicate IsUpper(c: char) {
    'A' <= c <= 'Z'
  }

  /** Python's `c.lower()` on an ASCII character. */
  function LowerChar(c: char): (d: char)
    ensures !IsUpper(d)
    ensures !IsUpper(c) ==> d == c
    ensures IsUpper(c) ==> d as int - c as int == 32
  {
    if IsUpper(c) then (c as int + 32) as char else c
  }

  /** Python's `s.lower()` on ASCII text. */
  function Lower(s: string): (r: string)
    ensures |r| == |s|
    ensures forall i :: 0 <= i < |s| ==> r[i] == LowerChar(s[i])
  {
    seq(|s|, i requires 0 <= i < |s| => LowerChar(s[i]))
  }

  /** Lower-casing twice is lower-casing once, and leaves no capital behind. */
  lemma LowerIdempotent(s: string)
    ensures Lower(Lower(s)) == Lower(s)
    ensures forall i :: 0 <= i < |Lower(s)| ==> !IsUpper(Lower(s)[i])
  {
  }

  /** The orientation values the renderer sees. */
  lemma OrientationWords()
    ensures Lower(Portrait.Label()) == "portrait"
    ensures Lower(Landscape.Label()) == "landscape"
  {
  }

  /** The file name an uploaded style sheet is saved under. */
  const StyleSheetFile: string := "styles.css"

  /**
   Where an uploaded style sheet is stored: the file `styles.css` directly
   inside the work directory (Python's `Path(workDir) / "styles.css"`).
   */
  function StyleSheetPath(workDir: string, cssUploaded: bool): (path: Option<string>)
    ensures path.Some? <==> cssUploaded
    ensures path.Some? ==> && |path.value| > |workDir|
                           && path.value[..|workDir|] == workDir
                           && path.value[|workDir|] == '/'
                           && path.value[|workDir| + 1..] == StyleSheetFile
                           && '/' !in path.value[|workDir| + 1..]
  {
    if cssUploaded then Some(workDir + "/" + StyleSheetFile) else None
  }

  /** The entries every options dictionary starts with. */
  function FixedOptions(size: PageSize, orientation: Orientation): (options: map<Key, Value>)
    ensures options.Keys == FixedKeys
    ensures forall k :: k in BareFlags ==> options[k] == Text("")
    ensures options[NoOutline] == Null
    ensures options[EncodingKey] == Text(Utf8)
    ensures options[Dpi] == Number(Resolution)
    ensures options[JavascriptDelay] == Number(ScriptDelayMs)
    ensures options[PageSizeKey] == Text(size.Label())
    ensures options[OrientationKey] == Text(Lower(orientation.Label()))
  {
    map[
      EnableLocalFileAccess := Text(""),
      PageSizeKey := Text(size.Label()),
      OrientationKey := Text(Lower(orientation.Label())),
      EncodingKey := Text(Utf8),
      NoOutline := Null,
      DisableSmartShrinking := Text(""),
      Dpi := Number(Resolution),
      PrintMediaType := Text(""),
      JavascriptDelay := Number(ScriptDelayMs),
      DebugJavascript := Text("")
    ]
  }

  /**
   The options dictionary: the fixed entries, the Korean-font flag's
   re-assignment of the encoding, and the style sheet when there is one.
   The fixed entries come through unchanged whatever the flag and the
   style sheet.
   */
  function BuildOptions(size: PageSize, orientation: Orientation, useKoreanFont: bool,
                        cssPath: Option<string>): (options: map<Key, Value>)
    ensures options.Keys == FixedKeys + (if cssPath.Some? then {UserStyleSheet} else {})
    ensures forall k :: k in FixedKeys ==> options[k] == FixedOptions(size, orientation)[k]
    ensures UserStyleSheet in options <==> cssPath.Some?
    ensures cssPath.Some? ==> options[UserStyleSheet] == Text(cssPath.value)
  {
    var base := FixedOptions(size, orientation);
    var withFont := if useKoreanFont then base[EncodingKey := Text(Utf8)] else base;
    match cssPath
    case Some(path) => withFont[UserStyleSheet := Text(path)]
    case None => withFont
  }

  /** The Korean-font flag leaves the options unchanged. */
  lemma FontFlagIsIrrelevant(size: PageSize, orientation: Orientation, cssPath: Option<string>)
    ensures BuildOptions(size, orientation, true, cssPath) == BuildOptions(size, orientation, false, cssPath)
  {
  }

  /** A style sheet adds its own entry and touches no other. */
  lemma StyleSheetOnlyAddsItsEntry(size: PageSize, orientation: Orientation, useKoreanFont: bool, path: string)
    ensures BuildOptions(size, orientation, useKoreanFont, Some(path))
         == BuildOptions(size, orientation, useKoreanFont, None)[UserStyleSheet := Text(path)]
    ensures BuildOptions(size, orientation, useKoreanFont, Some(path)) - {UserStyleSheet}
         == BuildOptions(size, orientation, useKoreanFont, None)
  {
  }

  /** The page-size and orientation values tell the selections apart. */
  lemma ValuesTellSelectionsApart(s1: PageSize, o1: Orientation, s2: PageSize, o2: Orientation)
    ensures s1.Label() == s2.Label() <==> s1 == s2
    ensures Lower(o1.Label()) == Lower(o2.Label()) <==> o1 == o2
  {
    OrientationWords();
    assert "portrait"[0] != "landscape"[0];
  }

  /**
   Two selections give the same options exactly when they agree on page
   size, orientation and style sheet; the font flag plays no part.
   */
  lemma OptionsDetermineSelection(s1: PageSize, o1: Orientation, f1: bool, c1: Option<string>,
                                  s2: PageSize, o2: Orientation, f2: bool, c2: Option<string>)
    ensures BuildOptions(s1, o1, f1, c1) == BuildOptions(s2, o2, f2, c2)
        <==> s1 == s2 && o1 == o2 && c1 == c2
  {
    var m1 := BuildOptions(s1, o1, f1, c1);
    var m2 := BuildOptions(s2, o2, f2, c2);
    ValuesTellSelectionsApart(s1, o1, s2, o2);
    if m1 == m2 {
      assert m1[PageSizeKey] == m2[PageSizeKey];
      assert m1[OrientationKey] == m2[OrientationKey];
      assert (UserStyleSheet in m1) == (UserStyleSheet in m2);
      if c1.Some? {
        assert m1[UserStyleSheet] == m2[UserStyleSheet];
      }
    }
    if s1 == s2 && o1 == o2 && c1 == c2 {
      FontFlagIsIrrelevant(s1, o1, c1);
    }
  }
}
