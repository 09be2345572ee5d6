/**
 * The persisted light/dark preference (src/App.tsx): the value read from the
 * `theme` storage key at start-up and the value written back whenever the
 * flag changes.
 */
module Theme {
  import opened Wrappers

  /** The initial `isDarkMode`: dark exactly when the stored value is `'dark'`; a missing key is light. */
  function LoadTheme(saved: Option<string>): bool
  {
    saved == Some("dark")
  }

  /** The value stored for a flag. Loading it back gives the same flag, and it is one of the two theme words. */
  function SaveTheme(dark: bool): (stored: string)
    ensures LoadTheme(Some(stored)) == dark
    ensures stored == "dark" || stored == "light"
  {
    if dark then "dark" else "light"
  }

  /** Saving is injective: two flags that store the same value are the same flag. */
  lemma SaveThemeInjective(a: bool, b: bool)
    requires SaveTheme(a) == SaveTheme(b)
    ensures a == b
  {
    assert LoadTheme(Some(SaveTheme(a))) == a;
  }
}
