/**
 * The dark-mode switch: a boolean preference kept in `localStorage` as the
 * string 'true' or 'false', falling back to the system colour scheme, and
 * shown by a body class plus the toggle's icon, label and title.
 */
module DarkModeSwitcher {
  import opened Wrappers

  const PreferenceKey := "darkModeEnabled"
  const DarkClass := "dark-mode"
  const SunIcon := "fa-sun"
  const MoonIcon := "fa-moon"

  /** The string `localStorage.setItem` stores for a boolean. */
  function Encode(enabled: bool): string
  {
    if enabled then "true" else "false"
  }

  /** `setDarkModePreference`: one `localStorage.setItem`. */
  function SetDarkModePreference(storage: map<string, string>, enabled: bool): (r: map<string, string>)
    ensures r.Keys == storage.Keys + {PreferenceKey} && r[PreferenceKey] == Encode(enabled)
    ensures forall k :: k in storage && k != PreferenceKey ==> r[k] == storage[k]
  {
    storage[PreferenceKey := Encode(enabled)]
  }

  /**
   * `getDarkModePreference`: true only for the stored string 'true', false
   * only for 'false'; any other value, or none, gives no preference.
   */
  function GetDarkModePreference(storage: map<string, string>): (r: Option<bool>)
    ensures r == Some(true) <==> PreferenceKey in storage && storage[PreferenceKey] == "true"
    ensures r == Some(false) <==> PreferenceKey in storage && storage[PreferenceKey] == "false"
    ensures r == None <==> PreferenceKey !in storage || (storage[PreferenceKey] != "true" && storage[PreferenceKey] != "false")
  {
    if PreferenceKey !in storage then None
    else if storage[PreferenceKey] == "true" then Some(true)
    else if storage[PreferenceKey] == "false" then Some(false)
    else None
  }

  /** Storing a mode and reading it back gives that mode; no other key changes. */
  lemma ReadBackPreference(storage: map<string, string>, enabled: bool)
    ensures GetDarkModePreference(SetDarkModePreference(storage, enabled)) == Some(enabled)
    ensures forall k :: k in storage && k != PreferenceKey ==>
      k in SetDarkModePreference(storage, enabled) && SetDarkModePreference(storage, enabled)[k] == storage[k]
  {
  }

  /** The mode on page load: the stored preference if there is one, else the system's. */
  function InitialMode(storage: map<string, string>, systemPrefersDark: bool): (enabled: bool)
    ensures GetDarkModePreference(storage).Some? ==> enabled == GetDarkModePreference(storage).value
    ensures GetDarkModePreference(storage).None? ==> enabled == systemPrefersDark
  {
    match GetDarkModePreference(storage)
    case Some(saved) => saved
    case None => systemPrefersDark
  }

  /** A preference once stored survives a reload, whatever the system scheme. */
  lemma StoredModeSurvivesReload(storage: map<string, string>, enabled: bool, systemPrefersDark: bool)
    ensures InitialMode(SetDarkModePreference(storage, enabled), systemPrefersDark) == enabled
  {
    ReadBackPreference(storage, enabled);
  }

  /** The body's classes in mode `enabled`: only 'dark-mode' is added or removed. */
  function BodyClasses(classes: set<string>, enabled: bool): (r: set<string>)
    ensures DarkClass in r <==> enabled
    ensures forall c :: c != DarkClass ==> (c in r <==> c in classes)
  {
    if enabled then classes + {DarkClass} else classes - {DarkClass}
  }

  /** The icon's classes in mode `enabled`: the sun replaces the moon, or the other way round. */
  function IconClasses(classes: set<string>, enabled: bool): (r: set<string>)
    ensures (SunIcon in r <==> enabled) && (MoonIcon in r <==> !enabled)
    ensures forall c :: c != SunIcon && c != MoonIcon ==> (c in r <==> c in classes)
  {
    if enabled then classes - {MoonIcon} + {SunIcon} else classes - {SunIcon} + {MoonIcon}
  }

  /** Switching the body's classes away from the mode they show and back restores them exactly. */
  lemma BodyClassesRestored(body: set<string>, enabled: bool)
    requires DarkClass in body <==> enabled
    ensures BodyClasses(BodyClasses(body, !enabled), enabled) == body
  {
  }

  /** Switching the icon's classes away from the mode they show and back restores them exactly. */
  lemma IconClassesRestored(icon: set<string>, enabled: bool)
    requires (SunIcon in icon <==> enabled) && (MoonIcon in icon <==> !enabled)
    ensures IconClasses(IconClasses(icon, !enabled), enabled) == icon
  {
  }

  function ModeText(enabled: bool): string
  {
    if enabled then "Light Mode" else "Dark Mode"
  }

  function ModeTitle(enabled: bool): string
  {
    if enabled then "Switch to Light Mode" else "Switch to Dark Mode"
  }

  /**
   * The page state the script reads and writes: `localStorage`, the body's
   * classes, and the toggle's icon classes (when it has an icon), label text
   * and title. The toggle and its label are taken to exist.
   */
  class DarkModePage {
    var storage: map<string, string>
    var bodyClasses: set<string>
    const hasIcon: bool
    var iconClasses: set<string>
    var modeText: string
    var title: string

    /** The page as it is before its scripts run. */
    constructor (storage: map<string, string>, bodyClasses: set<string>, hasIcon: bool,
                 iconClasses: set<string>, modeText: string, title: string)
      ensures this.storage == storage && this.bodyClasses == bodyClasses && this.hasIcon == hasIcon
      ensures this.iconClasses == iconClasses && this.modeText == modeText && this.title == title
    {
      this.storage := storage;
      this.bodyClasses := bodyClasses;
      this.hasIcon := hasIcon;
      this.iconClasses := iconClasses;
      this.modeText := modeText;
      this.title := title;
    }

    /**
     * The page shows mode `enabled`: the body has 'dark-mode' iff it is on,
     * the icon is the sun iff it is on and the moon iff it is off, and the
     * label and title offer the other mode.
     */
    ghost predicate Shows(enabled: bool)
      reads this
    {
      (DarkClass in bodyClasses <==> enabled)
      && (hasIcon ==> (SunIcon in iconClasses <==> enabled) && (MoonIcon in iconClasses <==> !enabled))
      && modeText == ModeText(enabled) && title == ModeTitle(enabled)
    }

    /** `applyDarkMode`: one body class, the icon, the label and the title; nothing else. */
    method ApplyDarkMode(enable: bool)
      modifies this`bodyClasses, this`iconClasses, this`modeText, this`title
      ensures bodyClasses == BodyClasses(old(bodyClasses), enable)
      ensures iconClasses == if hasIcon then IconClasses(old(iconClasses), enable) else old(iconClasses)
      ensures Shows(enable)
    {
      if enable {
        bodyClasses := bodyClasses + {DarkClass};
        if hasIcon {
          iconClasses := iconClasses - {MoonIcon};
          iconClasses := iconClasses + {SunIcon};
        }
        modeText := "Light Mode";
        title := "Switch to Light Mode";
      } else {
        bodyClasses := bodyClasses - {DarkClass};
        if hasIcon {
          iconClasses := iconClasses - {SunIcon};
          iconClasses := iconClasses + {MoonIcon};
        }
        modeText := "Dark Mode";
        title := "Switch to Dark Mode";
      }
    }

    /** The DOMContentLoaded handler: show the stored mode, or the system's; store nothing. */
    method Load(systemPrefersDark: bool)
      modifies this`bodyClasses, this`iconClasses, this`modeText, this`title
      ensures Shows(InitialMode(storage, systemPrefersDark))
      ensures bodyClasses == BodyClasses(old(bodyClasses), InitialMode(storage, systemPrefersDark))
      ensures iconClasses == if hasIcon then IconClasses(old(iconClasses), InitialMode(storage, systemPrefersDark)) else old(iconClasses)
      ensures storage == old(storage)
    {
      var darkModeEnabled := GetDarkModePreference(storage);
      var enabled := if darkModeEnabled.None? then systemPrefersDark else darkModeEnabled.value;
      ApplyDarkMode(enabled);
    }

    /**
     * A click on the toggle: the new mode is the opposite of the body's
     * 'dark-mode' class; it is shown and stored under 'darkModeEnabled'.
     */
    method OnToggleClick()
      modifies this`storage, this`bodyClasses, this`iconClasses, this`modeText, this`title
      ensures Shows(DarkClass !in old(bodyClasses))
      ensures storage == SetDarkModePreference(old(storage), DarkClass !in old(bodyClasses))
      ensures bodyClasses == BodyClasses(old(bodyClasses), DarkClass !in old(bodyClasses))
      ensures iconClasses == if hasIcon then IconClasses(old(iconClasses), DarkClass !in old(bodyClasses)) else old(iconClasses)
    {
      var currentMode := DarkClass in bodyClasses;
      var newMode := !currentMode;
      ApplyDarkMode(newMode);
      storage := SetDarkModePreference(storage, newMode);
    }
  }

  /**
   * Two clicks restore what the page showed, body and icon classes included,
   * and leave that mode stored.
   */
  method ClickTwice(page: DarkModePage, enabled: bool)
    requires page.Shows(enabled)
    modifies page
    ensures page.Shows(enabled)
    ensures page.bodyClasses == old(page.bodyClasses) && page.iconClasses == old(page.iconClasses)
    ensures page.modeText == old(page.modeText) && page.title == old(page.title)
    ensures GetDarkModePreference(page.storage) == Some(enabled)
    ensures page.storage == old(page.storage)[PreferenceKey := Encode(enabled)]
  {
    page.OnToggleClick();
    page.OnToggleClick();
    BodyClassesRestored(old(page.bodyClasses), enabled);
    if page.hasIcon {
      IconClassesRestored(old(page.iconClasses), enabled);
    }
    ReadBackPreference(old(page.storage), !enabled);
    ReadBackPreference(SetDarkModePreference(old(page.storage), !enabled), enabled);
  }
}
