/**
 * The colour-mode context: a mode string read once from the browser's
 * 'color-mode' storage slot, flipped by a toggle, and mirrored into the
 * storage slot and the page's data-theme attribute after every change.
 */
module ColorMode {
  import opened Wrappers

  const Dark: string := "dark"
  const Light: string := "light"

  predicate IsTheme(m: string) {
    m == Dark || m == Light
  }

  /**
   * The mode at start-up from what the storage slot holds (None when the key
   * is absent). An empty string is falsy and falls back to dark; any other
   * stored string is used as it is, without checking that it names a theme.
   */
  function InitialMode(stored: Option<string>): (m: string)
    ensures m != ""
    ensures stored.Some? && stored.value != "" ==> m == stored.value
    ensures stored.None? || stored.value == "" ==> m == Dark
  {
    match stored
    case Some(s) => if s != "" then s else Dark
    case None => Dark
  }

  /** The toggle's updater: dark becomes light, and every other mode becomes dark. */
  function Toggled(m: string): (r: string)
    ensures IsTheme(r)
    ensures r == Light <==> m == Dark
    ensures r != m
  {
    if m == Dark then Light else Dark
  }

  /** Toggling twice restores a theme. */
  lemma ToggleInvolution(m: string)
    requires IsTheme(m)
    ensures Toggled(Toggled(m)) == m
  {
  }

  /** The mode after `n` toggles starting from `m`. */
  function ToggledTimes(m: string, n: nat): string {
    if n == 0 then m else Toggled(ToggledTimes(m, n - 1))
  }

  /** From a theme, an even number of toggles returns to it and an odd number gives the other. */
  lemma {:induction false} ToggledTimesParity(m: string, n: nat)
    requires IsTheme(m)
    ensures ToggledTimes(m, n) == if n % 2 == 0 then m else Toggled(m)
  {
    if n > 0 {
      ToggledTimesParity(m, n - 1);
      ToggleInvolution(m);
    }
  }

  /**
   * A stored string that is not a theme survives start-up unchanged; the
   * first toggle turns it into dark, and the second into light, so two
   * toggles do not restore it.
   */
  lemma UnvalidatedStoredMode(s: string)
    requires s != "" && !IsTheme(s)
    ensures InitialMode(Some(s)) == s
    ensures ToggledTimes(s, 1) == Dark
    ensures ToggledTimes(s, 2) == Light
    ensures ToggledTimes(s, 2) != s
  {
  }

  /** After at least one toggle the mode is a theme, whatever it started as. */
  lemma ToggledIsTheme(m: string, n: nat)
    requires n >= 1
    ensures IsTheme(ToggledTimes(m, n))
  {
  }

  class ColorModeProvider {
    /** The current mode. */
    var mode: string
    /** The 'color-mode' slot of the browser's local storage. */
    var storage: Option<string>
    /** The body's data-theme attribute. */
    var dataTheme: string

    /** The effect has run: storage and attribute hold the current mode. */
    ghost predicate Valid()
      reads this
    {
      storage == Some(mode) && dataTheme == mode
    }

    /** Mounting reads the slot, then the effect writes the mode back. */
    constructor(stored: Option<string>)
      ensures Valid()
      ensures mode == InitialMode(stored)
    {
      mode := InitialMode(stored);
      dataTheme := mode;
      storage := Some(mode);
    }

    method Toggle()
      requires Valid()
      modifies this
      ensures Valid()
      ensures mode == Toggled(old(mode))
    {
      mode := Toggled(mode);
      dataTheme := mode;
      storage := Some(mode);
    }
  }
}
