/**
 * useTheme (client/src/pages/home.tsx): the dark/light theme of the page,
 * chosen once from the saved preference or the document and then flipped
 * by the toggle button.
 */
module ThemeToggle {
  import opened Wrappers

  datatype Theme = Dark | Light

  /** The theme's name, as stored and compared in the source. */
  function Name(t: Theme): string {
    match t
    case Dark => "dark"
    case Light => "light"
  }

  /** The saved preference, when it names a theme; any other value is ignored. */
  function FromSaved(saved: Option<string>): (r: Option<Theme>)
    ensures r.Some? <==> saved == Some("dark") || saved == Some("light")
    ensures r.Some? ==> saved == Some(Name(r.value))
  {
    if saved == Some("dark") then Some(Dark)
    else if saved == Some("light") then Some(Light)
    else None
  }

  /** A theme that was written out is read back as itself. */
  lemma FromSavedName(t: Theme)
    ensures FromSaved(Some(Name(t))) == Some(t)
  {
  }

  /**
   * The lazy initial state: dark without a window; with one, the saved
   * preference when it is "dark" or "light", else dark exactly when the
   * document root carries the "dark" class.
   */
  function InitialTheme(hasWindow: bool, saved: Option<string>, rootHasDarkClass: bool): Theme {
    if !hasWindow then Dark
    else match FromSaved(saved)
      case Some(t) => t
      case None => if rootHasDarkClass then Dark else Light
  }

  lemma InitialThemeFollowsSaved(saved: Option<string>, rootHasDarkClass: bool)
    ensures saved == Some("dark") || saved == Some("light")
        ==> saved == Some(Name(InitialTheme(true, saved, rootHasDarkClass)))
    ensures !(saved == Some("dark") || saved == Some("light"))
        ==> (InitialTheme(true, saved, rootHasDarkClass) == Dark <==> rootHasDarkClass)
  {
  }

  /** `prev === "dark" ? "light" : "dark"`. */
  function Toggled(t: Theme): (r: Theme)
    ensures r != t
  {
    if t == Dark then Light else Dark
  }

  lemma ToggledTwice(t: Theme)
    ensures Toggled(Toggled(t)) == t
  {
  }

  /** The hook's state. */
  class ThemeState {
    var theme: Theme

    constructor (hasWindow: bool, saved: Option<string>, rootHasDarkClass: bool)
      ensures theme == InitialTheme(hasWindow, saved, rootHasDarkClass)
    {
      theme := InitialTheme(hasWindow, saved, rootHasDarkClass);
    }

    /** `isDark`. */
    function IsDark(): (b: bool)
      reads this
      ensures b <==> Name(theme) == "dark"
    {
      theme == Dark
    }

    /** `toggle`. */
    method Toggle()
      modifies this
      ensures theme == Toggled(old(theme))
      ensures IsDark() == !old(IsDark())
    {
      theme := Toggled(theme);
    }
  }
}
