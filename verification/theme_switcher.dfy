/** The theme button: three themes visited in a fixed cycle, the
    choice written to browser storage and to the document's `data-theme`
    attribute, and restored on the next visit. */
module ThemeSwitcher {
  import opened Wrappers
  import Seqs

  const Christmas := "christmas"
  const Retro := "retro"
  const Modern := "modern"

  /** The rotation order. */
  const Themes: seq<string> := [Christmas, Retro, Modern]

  /** The storage key the theme is written under. */
  const ThemeKey := "theme"

  function EqualTo(t: string): string -> bool
  {
    (x: string) => x == t
  }

  /** `indexOf`: the first position holding `t`, or -1. */
  function IndexOf(themes: seq<string>, t: string): (r: int)
    ensures -1 <= r < |themes|
    ensures r >= 0 ==> themes[r] == t && forall j :: 0 <= j < r ==> themes[j] != t
    ensures r == -1 <==> t !in themes
  {
    match Seqs.FindFirst(themes, EqualTo(t))
    case None => -1
    case Some(i) => i
  }

  /** The theme after `t`. The state holds whatever string storage gave it,
      so `t` may be none of the three; its index -1 then leads to the first
      theme. The dividend is never negative, so this `%` agrees with
      JavaScript's. */
  function Next(t: string): (r: string)
    ensures r in Themes
    ensures r != t
    ensures t !in Themes ==> r == Christmas
  {
    Themes[(IndexOf(Themes, t) + 1) % |Themes|]
  }

  lemma NextCycles()
    ensures Next(Christmas) == Retro
    ensures Next(Retro) == Modern
    ensures Next(Modern) == Christmas
  {
  }

  /** Three toggles from any of the three themes come back to it. */
  lemma ThreeTogglesReturn(t: string)
    requires t in Themes
    ensures Next(Next(Next(t))) == t
  {
  }

  /** From a value outside the cycle, the first toggle enters the cycle at
      the first theme. */
  lemma UnknownThemeRecovers(t: string)
    requires t !in Themes
    ensures Next(t) == Christmas && Next(Next(Next(Next(t)))) == Christmas
  {
  }

  /** The component's state, the document attribute (None until the first
      effect has run) and the storage it reads and writes. */
  datatype Switcher = Switcher(theme: string, attribute: Option<string>, storage: map<string, string>)

  /** First render, before the mount effect. */
  function Initial(storage: map<string, string>): (s: Switcher)
    ensures s.theme == Christmas && s.attribute == None && s.storage == storage
  {
    Switcher(Christmas, None, storage)
  }

  /** The value the mount effect reads: the stored string, unless it is
      missing or empty. */
  function Saved(storage: map<string, string>): (r: string)
    ensures r != ""
    ensures ThemeKey in storage && storage[ThemeKey] != "" ==> r == storage[ThemeKey]
    ensures ThemeKey !in storage || storage[ThemeKey] == "" ==> r == Christmas
  {
    if ThemeKey in storage && storage[ThemeKey] != "" then storage[ThemeKey] else Christmas
  }

  /** The mount effect: adopt the saved value, unchecked, for both the state
      and the document attribute. */
  function Mount(s: Switcher): (r: Switcher)
    ensures r.theme == Saved(s.storage) && r.attribute == Some(r.theme)
    ensures r.storage == s.storage
  {
    var t := Saved(s.storage);
    Switcher(t, Some(t), s.storage)
  }

  /** Pressing the button. */
  function Toggle(s: Switcher): (r: Switcher)
    ensures r.theme == Next(s.theme) && r.theme != s.theme && r.theme in Themes
    ensures r.attribute == Some(r.theme)
    ensures ThemeKey in r.storage && r.storage[ThemeKey] == r.theme
    ensures forall k :: k != ThemeKey ==>
      (k in r.storage <==> k in s.storage) && (k in s.storage ==> r.storage[k] == s.storage[k])
  {
    var t := Next(s.theme);
    Switcher(t, Some(t), s.storage[ThemeKey := t])
  }

  /** Reloading the page after a toggle restores the toggled theme. */
  lemma ReloadRestoresToggle(s: Switcher)
    ensures Mount(Initial(Toggle(s).storage)).theme == Toggle(s).theme
  {
  }
}
