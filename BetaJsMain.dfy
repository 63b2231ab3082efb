/**
 * beta/js/main.js: the menu toggle, the anchor and outside-click listeners
 * that close the menu, and the dark-mode switch persisted under the
 * localStorage key "theme".
 *
 * The script uses #navMenu and #mobileMenuToggle without checking that they
 * exist; a listener that reaches a missing one throws there, and the
 * methods below report that through `completed`.
 */
module BetaJsMain {
  import opened Dom

  const Sun := "\U{2600}\U{FE0F}"
  const Moon := "\U{1F319}"

  /** localStorage.getItem('theme') || 'light': a missing or empty entry reads as light. */
  function StoredTheme(storage: map<string, string>): (t: string)
    ensures t == "dark" <==> "theme" in storage && storage["theme"] == "dark"
    ensures "theme" in storage && storage["theme"] != "" ==> t == storage["theme"]
    ensures !("theme" in storage && storage["theme"] != "") ==> t == "light"
    ensures t != ""
  {
    if "theme" in storage && storage["theme"] != "" then storage["theme"] else "light"
  }

  /** The value the toggle stores. */
  function ThemeValue(isDark: bool): string {
    if isDark then "dark" else "light"
  }

  /** The icon updateThemeIcon shows. */
  function ThemeIcon(isDark: bool): string {
    if isDark then Sun else Moon
  }

  /** A stored value, read back at the next page load, gives the mode it was written for. */
  lemma StoredThemeRoundTrip(storage: map<string, string>, isDark: bool)
    ensures StoredTheme(storage["theme" := ThemeValue(isDark)]) == ThemeValue(isDark)
    ensures StoredTheme(storage["theme" := ThemeValue(isDark)]) == "dark" <==> isDark
  {
  }

  class Page {
    var navMenu: Option<Element>           // #navMenu
    var mobileMenuToggle: Option<Element>  // #mobileMenuToggle
    var themeToggle: Option<Element>       // #themeToggle
    var body: Element
    var storage: map<string, string>       // localStorage

    /**
     * The script's top level at page load: a stored "dark" adds dark-mode
     * and shows the sun icon; anything else leaves the page as it is.
     */
    constructor (navMenu: Option<Element>, mobileMenuToggle: Option<Element>, themeToggle: Option<Element>,
                 body: Element, storage: map<string, string>)
      ensures this.navMenu == navMenu && this.mobileMenuToggle == mobileMenuToggle && this.storage == storage
      ensures StoredTheme(storage) == "dark" ==>
        this.body == AddClasses(body, {"dark-mode"})
        && this.themeToggle == (match themeToggle case None => None case Some(t) => Some(t.(text := Sun)))
      ensures StoredTheme(storage) != "dark" ==> this.body == body && this.themeToggle == themeToggle
      ensures !HasClass(body, "dark-mode") ==> (IsDark() <==> StoredTheme(storage) == "dark")
    {
      this.navMenu := navMenu;
      this.mobileMenuToggle := mobileMenuToggle;
      this.themeToggle := themeToggle;
      this.body := body;
      this.storage := storage;
      new;
      var currentTheme := StoredTheme(this.storage);
      if currentTheme == "dark" {
        this.body := AddClasses(this.body, {"dark-mode"});
        UpdateThemeIcon(true);
      }
    }

    predicate IsOpen()
      reads this
    {
      navMenu.Some? && HasClass(navMenu.value, "active")
    }

    predicate IsDark()
      reads this
    {
      HasClass(body, "dark-mode")
    }

    /** The stored theme and the icon both agree with the dark-mode class. */
    predicate ThemeInSync()
      reads this
    {
      && "theme" in storage && storage["theme"] == ThemeValue(IsDark())
      && (themeToggle.Some? ==> themeToggle.value.text == ThemeIcon(IsDark()))
    }

    /** The toggle's click listener, installed only when #mobileMenuToggle exists: active flips on #navMenu. */
    method ToggleClick() returns (completed: bool)
      requires mobileMenuToggle.Some?
      modifies this
      ensures completed <==> old(navMenu).Some?
      ensures navMenu == (match old(navMenu) case None => None case Some(m) => Some(ToggleClass(m, "active")))
      ensures completed ==> IsOpen() == !old(IsOpen())
      ensures mobileMenuToggle == old(mobileMenuToggle) && themeToggle == old(themeToggle)
      ensures body == old(body) && storage == old(storage)
    {
      if navMenu.None? {
        return false;
      }
      navMenu := Some(ToggleClass(navMenu.value, "active"));
      return true;
    }

    /**
     * The document click listener. inNavMenu and inToggle say whether the
     * click's target lies inside #navMenu and #mobileMenuToggle. A click
     * outside both removes active; a click inside either changes nothing.
     */
    method DocumentClick(inNavMenu: bool, inToggle: bool) returns (completed: bool)
      modifies this
      ensures completed <==> old(navMenu).Some? && (inNavMenu || old(mobileMenuToggle).Some?)
      ensures completed && !inNavMenu && !inToggle ==>
        navMenu == RemoveClassesFrom(old(navMenu), {"active"}) && !IsOpen()
      ensures !(completed && !inNavMenu && !inToggle) ==> navMenu == old(navMenu)
      ensures mobileMenuToggle == old(mobileMenuToggle) && themeToggle == old(themeToggle)
      ensures body == old(body) && storage == old(storage)
    {
      if navMenu.None? {
        return false;
      }
      if !inNavMenu {
        if mobileMenuToggle.None? {
          return false;
        }
        if !inToggle {
          navMenu := RemoveClassesFrom(navMenu, {"active"});
        }
      }
      return true;
    }

    /**
     * A click on the toggle: its own listener runs, then the click bubbles
     * to the document listener, which sees a target inside the toggle and
     * leaves the flip standing.
     */
    method ClickOnToggle()
      requires mobileMenuToggle.Some? && navMenu.Some?
      modifies this
      ensures IsOpen() == !old(IsOpen())
      ensures navMenu == Some(ToggleClass(old(navMenu).value, "active"))
    {
      var _ := ToggleClick();
      var _ := DocumentClick(false, true);
    }

    /**
     * A click on an a[href^="#"]: the default is always prevented. The href
     * is then used as a selector: selectorValid is false when
     * querySelector throws on it (a bare "#" does), and targetExists says
     * whether a valid selector matched. An existing target is scrolled into
     * view and the menu loses active.
     */
    method AnchorClick(selectorValid: bool, targetExists: bool) returns (prevented: bool, completed: bool)
      modifies this
      ensures prevented
      ensures completed <==> selectorValid && (!targetExists || old(navMenu).Some?)
      ensures selectorValid && targetExists ==> navMenu == RemoveClassesFrom(old(navMenu), {"active"}) && !IsOpen()
      ensures !(selectorValid && targetExists) ==> navMenu == old(navMenu)
      ensures mobileMenuToggle == old(mobileMenuToggle) && themeToggle == old(themeToggle)
      ensures body == old(body) && storage == old(storage)
    {
      prevented := true;
      if !selectorValid {
        return prevented, false;
      }
      if targetExists {
        if navMenu.None? {
          return prevented, false;
        }
        if HasClass(navMenu.value, "active") {
          navMenu := RemoveClassesFrom(navMenu, {"active"});
        } else {
          assert navMenu.value.classes - {"active"} == navMenu.value.classes;
        }
      }
      completed := true;
    }

    /** updateThemeIcon: the sun for dark, the moon for light; nothing without #themeToggle. */
    method UpdateThemeIcon(isDarkMode: bool)
      modifies this
      ensures themeToggle == (match old(themeToggle) case None => None case Some(t) => Some(t.(text := ThemeIcon(isDarkMode))))
      ensures navMenu == old(navMenu) && mobileMenuToggle == old(mobileMenuToggle)
      ensures body == old(body) && storage == old(storage)
    {
      if themeToggle.Some? {
        themeToggle := Some(themeToggle.value.(text := ThemeIcon(isDarkMode)));
      }
    }

    /**
     * The theme toggle's click listener, installed only when #themeToggle
     * exists: dark-mode flips, the new mode is stored and the icon follows.
     */
    method ThemeToggleClick()
      requires themeToggle.Some?
      modifies this
      ensures body == ToggleClass(old(body), "dark-mode")
      ensures IsDark() == !old(IsDark())
      ensures storage == old(storage)["theme" := ThemeValue(IsDark())]
      ensures ThemeInSync()
      ensures StoredTheme(storage) == "dark" <==> IsDark()
      ensures themeToggle == Some(old(themeToggle).value.(text := ThemeIcon(IsDark())))
      ensures navMenu == old(navMenu) && mobileMenuToggle == old(mobileMenuToggle)
    {
      body := ToggleClass(body, "dark-mode");
      var isDarkMode := HasClass(body, "dark-mode");
      storage := storage["theme" := if isDarkMode then "dark" else "light"];
      UpdateThemeIcon(isDarkMode);
      StoredThemeRoundTrip(old(storage), isDarkMode);
    }

    /** Two theme toggles give back the class list and, when it was in sync, the stored value too. */
    method ThemeToggleTwice()
      requires themeToggle.Some?
      modifies this
      ensures body == old(body)
      ensures storage == old(storage)["theme" := ThemeValue(old(IsDark()))]
      ensures old(ThemeInSync()) ==> storage == old(storage) && themeToggle == old(themeToggle)
    {
      ThemeToggleClick();
      ThemeToggleClick();
      ToggleClassTwice(old(body), "dark-mode");
    }
  }
}
