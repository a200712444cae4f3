/** The theme flag of the QuestionBox component: `true` means dark mode. */
module Theme {
  import opened Actions

  /** The theme the component starts in: dark. */
  const InitialDarkMode: bool := true

  /** darkModeReducer: TOGGLE_THEME flips the flag, any other action keeps it. */
  function DarkModeReducer(dark: bool, a: Action): (r: bool)
    ensures r != dark <==> a.kind == TOGGLE_THEME
  {
    if a.kind == TOGGLE_THEME then !dark else dark
  }

  /** The flag after `count` clicks on the theme button. */
  function Toggled(dark: bool, count: nat): bool
  {
    if count == 0 then dark else DarkModeReducer(Toggled(dark, count - 1), Plain(TOGGLE_THEME))
  }

  /** The component opens in dark mode, and the first toggle switches to light. */
  lemma InitialThemeIsDark()
    ensures InitialDarkMode
    ensures !DarkModeReducer(InitialDarkMode, Plain(TOGGLE_THEME))
  {
  }

  lemma ToggleTwiceRestores(dark: bool)
    ensures DarkModeReducer(DarkModeReducer(dark, Plain(TOGGLE_THEME)), Plain(TOGGLE_THEME)) == dark
  {
  }

  /** Actions meant for the quiz reducer, and any unknown tag, leave the theme alone. */
  lemma OtherActionsKeepTheme(dark: bool, a: Action)
    requires a.kind != TOGGLE_THEME
    ensures DarkModeReducer(dark, a) == dark
  {
  }

  /** The page is dark exactly when the theme button was clicked an even number of times. */
  lemma {:induction false} DarkAfterEvenToggles(count: nat)
    ensures Toggled(InitialDarkMode, count) <==> count % 2 == 0
  {
    if count > 0 {
      DarkAfterEvenToggles(count - 1);
    }
  }
}
