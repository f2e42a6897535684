/** The two preference mappings of the main window: a theme name to the
    style sheet it loads, and a stored toolbar code to a tool-button style. */
module Appearance {
  import opened Types

  const NoTheme := "none"
  const ShawshankSheet := ":/styles/shawshank.qss"
  const ZihuatanejoSheet := ":/styles/zihuatanejo.qss"
  const SheetSuffix := ".qss"

  /** The style-sheet path `setTheme` reads: none for "none", a built-in
      resource for the two bundled themes, otherwise `<themesPath><sep><theme>.qss`. */
  function ThemeSheetPath(theme: string, themesPath: string, sep: char): (path: string)
    ensures path == "" <==> theme == NoTheme
    ensures theme == "shawshank" ==> path == ShawshankSheet
    ensures theme == "zihuatanejo" ==> path == ZihuatanejoSheet
    ensures theme !in {NoTheme, "shawshank", "zihuatanejo"} ==>
      && |path| == |themesPath| + 1 + |theme| + |SheetSuffix|
      && path[..|themesPath|] == themesPath
      && path[|themesPath|] == sep
      && path[|themesPath| + 1..|path| - |SheetSuffix|] == theme
      && path[|path| - |SheetSuffix|..] == SheetSuffix
  {
    if theme == NoTheme then ""
    else if theme == "shawshank" then ShawshankSheet
    else if theme == "zihuatanejo" then ZihuatanejoSheet
    else themesPath + [sep] + theme + SheetSuffix
  }

  /** What `setTheme` leaves behind: the remembered theme name and the style
      sheet applied to the application. */
  datatype ThemeState = ThemeState(theme: string, styleSheet: string)

  /** setTheme: `readFile` stands for reading the sheet file; no file is
      read, and the sheet is cleared, for the theme "none". */
  function SetTheme(theme: string, themesPath: string, sep: char, readFile: string -> string): (r: ThemeState)
    ensures r.theme == theme
    ensures theme == NoTheme ==> r.styleSheet == ""
    ensures theme != NoTheme ==> r.styleSheet == readFile(ThemeSheetPath(theme, themesPath, sep))
  {
    var path := ThemeSheetPath(theme, themesPath, sep);
    ThemeState(theme, if path != "" then readFile(path) else "")
  }

  /** Two different custom themes never load the same sheet file. */
  lemma CustomThemePathInjective(t1: string, t2: string, themesPath: string, sep: char)
    requires t1 !in {NoTheme, "shawshank", "zihuatanejo"}
    requires t2 !in {NoTheme, "shawshank", "zihuatanejo"}
    requires ThemeSheetPath(t1, themesPath, sep) == ThemeSheetPath(t2, themesPath, sep)
    ensures t1 == t2
  {
    var p := ThemeSheetPath(t1, themesPath, sep);
    assert t1 == p[|themesPath| + 1..|p| - |SheetSuffix|];
  }

  /** A custom theme never loads a bundled sheet, as long as the themes
      directory is not itself a resource path (one starting with ':'). */
  lemma CustomThemeIsNotBundled(theme: string, themesPath: string, sep: char)
    requires theme !in {NoTheme, "shawshank", "zihuatanejo"}
    requires if |themesPath| > 0 then themesPath[0] != ':' else sep != ':'
    ensures ThemeSheetPath(theme, themesPath, sep) != ShawshankSheet
    ensures ThemeSheetPath(theme, themesPath, sep) != ZihuatanejoSheet
  {
    var p := ThemeSheetPath(theme, themesPath, sep);
    assert p[0] != ':' by {
      if |themesPath| > 0 {
        assert p[0] == p[..|themesPath|][0];
      }
    }
    assert ShawshankSheet[0] == ':' && ZihuatanejoSheet[0] == ':';
  }

  /** The only file `setTheme` depends on is the theme's sheet: two readers
      that agree on that path give the same outcome. */
  lemma SetThemeReadsOnlyTheSheet(theme: string, themesPath: string, sep: char,
                                  read1: string -> string, read2: string -> string)
    requires read1(ThemeSheetPath(theme, themesPath, sep)) == read2(ThemeSheetPath(theme, themesPath, sep))
    ensures SetTheme(theme, themesPath, sep, read1) == SetTheme(theme, themesPath, sep, read2)
  {
  }

  datatype ToolButtonStyle = IconOnly | TextBesideIcon

  /** The stored "UI/Toolbar_text" code, read at start-up and set by the
      preferences dialog, both mapped the same way. */
  function ToolbarStyle(code: int): (style: ToolButtonStyle)
    ensures style == TextBesideIcon <==> code == 1
  {
    if code == 1 then TextBesideIcon else IconOnly
  }

  /** The style chosen at start-up from the stored "UI/Toolbar_text" value,
      which reads as 0 when nothing was stored yet. */
  function StartupToolbarStyle(stored: Option<int>): (style: ToolButtonStyle)
    ensures stored.None? ==> style == IconOnly
    ensures style == TextBesideIcon <==> stored == Some(1)
  {
    ToolbarStyle(stored.GetOr(0))
  }

  /** The two user-interface values kept in the application's settings. */
  datatype UiSettings = UiSettings(theme: Option<string>, toolbarText: Option<int>)

  /** The theme applied at start-up: the stored "UI/Theme", or "none". */
  function StartupTheme(s: UiSettings): (theme: string)
    ensures s.theme.None? ==> theme == NoTheme
    ensures s.theme.Some? ==> theme == s.theme.value
  {
    s.theme.GetOr(NoTheme)
  }

  datatype PrefsOutcome = PrefsOutcome(settings: UiSettings, style: ToolButtonStyle)

  /** The preferences dialog accepted: the current theme and the chosen
      toolbar code are stored, and the toolbar switches to that code's style. */
  function AcceptPreferences(s: UiSettings, theme: string, code: int): (r: PrefsOutcome)
    ensures r.settings.theme == Some(theme) && r.settings.toolbarText == Some(code)
    ensures r.style == TextBesideIcon <==> code == 1
  {
    PrefsOutcome(UiSettings(Some(theme), Some(code)), ToolbarStyle(code))
  }

  /** Whatever was stored before, the next start-up after accepting the
      preferences shows the same theme and the same toolbar style. The
      style half holds because the dialog's switch and the start-up switch,
      written twice in the window, are the one `ToolbarStyle` here. */
  lemma PreferencesMatchStartup(s: UiSettings, theme: string, code: int)
    ensures StartupTheme(AcceptPreferences(s, theme, code).settings) == theme
    ensures StartupToolbarStyle(AcceptPreferences(s, theme, code).settings.toolbarText)
            == AcceptPreferences(s, theme, code).style
  {
  }
}
