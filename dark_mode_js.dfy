/**
 * The colour theme of the page: the `data-theme` attribute of the document element, the
 * `theme` entry of localStorage and the toggle button's icon. Saving the choice to the
 * server is a request whose answer is ignored, so it is not part of the state.
 */
module DarkModeJs {
  import opened Wrappers

  /** The theme `toggleDarkMode` switches to from the current attribute (None when unset). */
  function Toggled(current: Option<string>): (t: string)
    ensures t == "light" <==> current == Some("dark")
    ensures t == "dark" <==> current != Some("dark")
  {
    if current == Some("dark") then "light" else "dark"
  }

  /** Toggling twice from either theme gives it back; from anything else it ends on light. */
  lemma ToggleTwice(theme: string)
    ensures theme == "light" || theme == "dark" ==> Toggled(Some(Toggled(Some(theme)))) == theme
    ensures theme != "light" && theme != "dark" ==> Toggled(Some(Toggled(Some(theme)))) == "light"
  {
  }

  const Sun: string := "\U{2600}\U{FE0F}"
  const Moon: string := "\U{1F319}"

  /** `updateThemeIcon`: the sun while dark (to switch to light), the moon otherwise. */
  function Icon(theme: string): (icon: string)
    ensures icon == Sun <==> theme == "dark"
    ensures icon == Moon <==> theme != "dark"
  {
    if theme == "dark" then Sun else Moon
  }

  /** A value JavaScript treats as true in `||`: present and not the empty string. */
  predicate Truthy(v: Option<string>) {
    v.Some? && v.value != ""
  }

  /** `savedTheme || serverTheme || 'light'` */
  function InitialTheme(saved: Option<string>, server: Option<string>): (t: string)
    ensures Truthy(saved) ==> t == saved.value
    ensures !Truthy(saved) && Truthy(server) ==> t == server.value
    ensures !Truthy(saved) && !Truthy(server) ==> t == "light"
    ensures t != ""
  {
    if Truthy(saved) then saved.value else if Truthy(server) then server.value else "light"
  }

  /** The part of the page the theme lives in. */
  class ThemeState {
    var attribute: Option<string>
    var stored: Option<string>
    /** The icon's text, or None when the page has no toggle icon. */
    var icon: Option<string>

    constructor (attribute: Option<string>, stored: Option<string>, icon: Option<string>)
      ensures this.attribute == attribute && this.stored == stored && this.icon == icon
    {
      this.attribute, this.stored, this.icon := attribute, stored, icon;
    }

    /** `updateThemeIcon`: only a page that has the icon changes. */
    method UpdateIcon(theme: string)
      modifies this
      ensures icon == if old(icon).Some? then Some(Icon(theme)) else None
      ensures attribute == old(attribute) && stored == old(stored)
    {
      if icon.Some? {
        icon := Some(Icon(theme));
      }
    }

    /** `toggleDarkMode`: the attribute, the icon and localStorage all get the new theme. */
    method ToggleDarkMode() returns (theme: string)
      modifies this
      ensures theme == Toggled(old(attribute))
      ensures attribute == Some(theme) && stored == Some(theme)
      ensures icon == if old(icon).Some? then Some(Icon(theme)) else None
    {
      theme := if attribute == Some("dark") then "light" else "dark";
      attribute := Some(theme);
      UpdateIcon(theme);
      stored := Some(theme);
    }

    /** The `DOMContentLoaded` handler: stored theme, else the server's, else light. */
    method Initialize() returns (theme: string)
      modifies this
      ensures theme == InitialTheme(old(stored), old(attribute))
      ensures attribute == Some(theme) && stored == old(stored)
      ensures icon == if old(icon).Some? then Some(Icon(theme)) else None
    {
      theme := if stored.Some? && stored.value != "" then stored.value
               else if attribute.Some? && attribute.value != "" then attribute.value
               else "light";
      attribute := Some(theme);
      UpdateIcon(theme);
    }
  }
}
