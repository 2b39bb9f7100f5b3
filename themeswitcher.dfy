/**
 * The theme button (`components/ThemeSwitcher.tsx`): the page cycles through
 * four themes; the chosen one is applied as the class `tema<Name>` of the
 * document element and saved under the storage key `tema`. The document's
 * class and the stored value are fields of the switcher.
 */
module ThemeSwitcher {
  import opened Wrappers
  import opened Seqs

  const Themes: seq<string> := ["Light", "Ash", "Dark", "Onyx"]

  /** The class name that applies a theme. */
  function ThemeClass(name: string): string
  {
    "tema" + name
  }

  /** `themes.indexOf(saved)`, with 0 for a name that is not a theme. */
  function SavedIndex(saved: string): (r: nat)
    ensures r < |Themes|
    ensures saved in Themes ==> Themes[r] == saved
    ensures saved !in Themes ==> r == 0
  {
    var i := IndexOf(Themes, saved);
    if i >= 0 then i else 0
  }

  /** The index after one click. */
  function NextIndex(i: nat): (r: nat)
    ensures r < |Themes|
  {
    (i + 1) % |Themes|
  }

  /** The index after `n` clicks. */
  function AfterClicks(i: nat, n: nat): nat
  {
    if n == 0 then i else NextIndex(AfterClicks(i, n - 1))
  }

  /** From a valid index, `n` clicks advance `n` themes, cyclically. */
  lemma {:induction false} AfterClicksIsModular(i: nat, n: nat)
    requires i < |Themes|
    ensures AfterClicks(i, n) == (i + n) % |Themes|
  {
    if n > 0 {
      AfterClicksIsModular(i, n - 1);
    }
  }

  /** Four clicks bring back the theme one started from. */
  lemma FourClicksCycle(i: nat)
    requires i < |Themes|
    ensures AfterClicks(i, 4) == i
  {
    AfterClicksIsModular(i, 4);
  }

  /** The names of the themes are distinct, so a saved name is found at its own index. */
  lemma SavedThemeIndex(i: nat)
    requires i < |Themes|
    ensures SavedIndex(Themes[i]) == i
  {
    assert NoDuplicates(Themes);
    IndexOfDistinct(Themes, i);
  }

  class Switcher {
    /** The `themeIndex` state. */
    var themeIndex: nat
    /** `document.documentElement.className`. */
    var className: string
    /** `localStorage.getItem("tema")`. */
    var stored: Option<string>

    predicate Valid()
      reads this
    {
      themeIndex < |Themes|
    }

    /** `useState(0)`, on a page whose class and storage are given. */
    constructor(className0: string, stored0: Option<string>)
      ensures Valid()
      ensures themeIndex == 0 && className == className0 && stored == stored0
    {
      themeIndex := 0;
      className := className0;
      stored := stored0;
    }

    /**
     * The mount effect: a non-empty saved name selects its theme (0 when it
     * is not one of the four) and is applied as the class as it was saved.
     */
    method Mount()
      requires Valid()
      modifies this
      ensures Valid()
      ensures stored == old(stored)
      ensures old(stored).Some? && old(stored).value != "" ==>
        themeIndex == SavedIndex(old(stored).value) && className == ThemeClass(old(stored).value)
      ensures old(stored).None? || old(stored).value == "" ==>
        themeIndex == old(themeIndex) && className == old(className)
    {
      if stored.Some? && stored.value != "" {
        var saved := stored.value;
        var index := IndexOf(Themes, saved);
        themeIndex := if index >= 0 then index else 0;
        className := ThemeClass(saved);
      }
    }

    /** `handleClick`: the next theme is selected, applied and saved. */
    method Click()
      requires Valid()
      modifies this
      ensures Valid()
      ensures themeIndex == NextIndex(old(themeIndex))
      ensures className == ThemeClass(Themes[themeIndex])
      ensures stored == Some(Themes[themeIndex])
    {
      var nextIndex := (themeIndex + 1) % |Themes|;
      var nextTheme := Themes[nextIndex];
      themeIndex := nextIndex;
      className := ThemeClass(nextTheme);
      stored := Some(nextTheme);
    }
  }

  /** After a click, the stored name selects, on the next visit, the theme the click selected. */
  method ClickThenReload(s: Switcher, className0: string) returns (t: Switcher)
    requires s.Valid()
    modifies s
    ensures t.Valid() && t.themeIndex == s.themeIndex && t.className == s.className
  {
    s.Click();
    t := new Switcher(className0, s.stored);
    SavedThemeIndex(s.themeIndex);
    t.Mount();
  }
}
