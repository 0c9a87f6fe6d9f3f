/**
 * The language-selection state machine of the app: which of its two UI
 * languages is current, which string table is loaded for it, where the
 * choice is persisted, and how the rest of the app is told to rebuild.
 */
module Localization {
  import opened Wrappers

  /** The two languages the app ships, each with a fixed two-letter code. */
  datatype Language = English | Arabic

  /** The layout direction a language calls for. */
  datatype LanguageDirection = LeftToRight | RightToLeft

  /** The preferences key under which the chosen language code is persisted. */
  const LanguageKey: string := "UKPrefLang"

  /** The code of a language (its `rawValue`); the failable initialiser maps it back. */
  function RawValue(language: Language): (code: string)
    ensures |code| == 2
    ensures FromRawValue(code) == Some(language)
  {
    match language
    case English => "en"
    case Arabic => "ar"
  }

  /** `Language(rawValue:)`: only the exact codes name a language. */
  function FromRawValue(code: string): (r: Option<Language>)
    ensures r == Some(English) <==> code == "en"
    ensures r == Some(Arabic) <==> code == "ar"
  {
    if code == "en" then Some(English)
    else if code == "ar" then Some(Arabic)
    else None
  }

  /** `t` occurs in `s` starting at index `i`. */
  ghost predicate OccursAt(s: string, t: string, i: int) {
    0 <= i && i + |t| <= |s| && s[i..i + |t|] == t
  }

  /** `t` is a substring of `s`: the reference meaning of `String.contains`. */
  ghost predicate Occurs(s: string, t: string) {
    exists i :: OccursAt(s, t, i)
  }

  /** Dropping the first character of `s` keeps every occurrence of `t` but the one at index 0. */
  lemma OccursInTail(s: string, t: string)
    requires s != [] && !OccursAt(s, t, 0)
    ensures Occurs(s, t) <==> Occurs(s[1..], t)
  {
    if Occurs(s, t) {
      var i :| OccursAt(s, t, i);
      assert s[1..][i - 1..i - 1 + |t|] == s[i..i + |t|];
      assert OccursAt(s[1..], t, i - 1);
    }
    if Occurs(s[1..], t) {
      var j :| OccursAt(s[1..], t, j);
      assert s[j + 1..j + 1 + |t|] == s[1..][j..j + |t|];
      assert OccursAt(s, t, j + 1);
    }
  }

  /** Substring search, scanning `s` from the left. */
  function Contains(s: string, t: string): (r: bool)
    ensures r <==> Occurs(s, t)
    decreases |s|
  {
    if |t| <= |s| && s[..|t|] == t then
      assert OccursAt(s, t, 0);
      true
    else if s == [] then
      false
    else
      OccursInTail(s, t);
      Contains(s[1..], t)
  }

  /**
   * The language startup settles on: the persisted one when there is one,
   * otherwise whatever the first system-preferred language matches, and
   * English when there is no such entry or it matches neither code.
   */
  function StartupLanguage(persisted: Option<Language>, preferredLanguages: seq<string>): (r: Language)
    ensures persisted.Some? ==> r == persisted.value
    ensures persisted.None? ==>
      (r == Arabic <==> preferredLanguages != [] && Occurs(preferredLanguages[0], "ar"))
  {
    if persisted.Some? then persisted.value
    else if preferredLanguages == [] then English
    else LocalizationManager.IsLanguageAvailable(preferredLanguages[0]).GetOr(English)
  }

  /** Region subtags do not stop the match: "ar-SA" is Arabic and "en-US" English. */
  lemma RegionalCodesMatch()
    ensures LocalizationManager.IsLanguageAvailable("ar-SA") == Some(Arabic)
    ensures LocalizationManager.IsLanguageAvailable("en-US") == Some(English)
  {
    assert OccursAt("ar-SA", "ar", 0);
    assert OccursAt("en-US", "en", 0);
    forall i ensures !OccursAt("en-US", "ar", i) {
      if 0 <= i <= 3 {
        assert "en-US"[i] != "ar"[0];
      }
    }
  }

  /** A code naming neither language matches nothing. */
  lemma UnknownCodeUnmatched()
    ensures LocalizationManager.IsLanguageAvailable("fr-FR") == None
  {
    forall t | t == "ar" || t == "en" ensures !Occurs("fr-FR", t) {
      forall i ensures !OccursAt("fr-FR", t, i) {
        if 0 <= i <= 3 {
          assert "fr-FR"[i] != t[0];
        }
      }
    }
  }

  /** The match is by substring, so an unrelated code such as "mar" is taken for Arabic. */
  lemma SubstringMatchIsLoose()
    ensures LocalizationManager.IsLanguageAvailable("mar") == Some(Arabic)
  {
    assert OccursAt("mar", "ar", 1);
  }

  /** With no persisted choice, only the first preferred language is consulted. */
  lemma StartupConsultsOnlyFirstPreferred()
    ensures StartupLanguage(None, ["fr-FR", "ar-EG"]) == English
    ensures StartupLanguage(None, ["ar-EG", "fr-FR"]) == Arabic
    ensures StartupLanguage(None, ["fr-FR", "de-DE"]) == English
    ensures StartupLanguage(None, []) == English
  {
    forall i ensures !OccursAt("fr-FR", "ar", i) {
      if 0 <= i <= 3 {
        assert "fr-FR"[i] != "ar"[0];
      }
    }
    assert OccursAt("ar-EG", "ar", 0);
  }

  /** Startup re-applied to the language it persisted keeps that language, whatever the system now prefers. */
  lemma StartupStable(persisted: Option<Language>, preferredLanguages: seq<string>, laterPreferred: seq<string>)
    ensures StartupLanguage(Some(StartupLanguage(persisted, preferredLanguages)), laterPreferred)
         == StartupLanguage(persisted, preferredLanguages)
  {
  }

  /**
   * The manager. The preferences store and the bundled string tables are
   * fields here; the delegate is reduced to whether one is registered and
   * a ghost count of the notifications it has received, and the three
   * appearance proxies to the one direction last written to them.
   */
  class LocalizationManager {
    /** The bundled `<code>.plist` tables; a language without an entry is one whose table fails to load. */
    const bundle: map<Language, map<string, string>>
    /** The string table in use (`languageDictionary`). */
    var dict: map<string, string>
    /** The preferences store (`UserDefaults.standard`). */
    var store: map<string, string>
    var enableRTL: bool
    /** Whether a delegate is registered to receive `resetApp()`. */
    var hasDelegate: bool
    /** The semantic content direction last forced on the appearance proxies, if any. */
    var appearance: Option<LanguageDirection>
    /** How many times the delegate has been told to reset the app. */
    ghost var notifications: nat

    constructor (bundle: map<Language, map<string, string>>, store: map<string, string>)
      ensures this.bundle == bundle && this.store == store
      ensures dict == map[] && enableRTL && !hasDelegate
      ensures appearance == None && notifications == 0
    {
      this.bundle := bundle;
      this.store := store;
      dict := map[];
      enableRTL := true;
      hasDelegate := false;
      appearance := None;
      notifications := 0;
    }

    /** The persisted language; none when the key is absent or holds anything but an exact code. */
    function GetLanguage(): (r: Option<Language>)
      reads this
      ensures r == Some(English) <==> LanguageKey in store && store[LanguageKey] == "en"
      ensures r == Some(Arabic) <==> LanguageKey in store && store[LanguageKey] == "ar"
    {
      if LanguageKey in store then FromRawValue(store[LanguageKey]) else None
    }

    /** Loose locale matching: any code containing "ar" is Arabic (checked first), else any containing "en" is English. */
    static function IsLanguageAvailable(code: string): (r: Option<Language>)
      ensures r == Some(Arabic) <==> Occurs(code, "ar")
      ensures r == Some(English) <==> !Occurs(code, "ar") && Occurs(code, "en")
    {
      var finalCode := if Contains(code, "ar") then "ar" else if Contains(code, "en") then "en" else "";
      FromRawValue(finalCode)
    }

    /** The direction of the persisted language; it does not consult `enableRTL`. */
    function GetLanguageDirection(): (r: LanguageDirection)
      reads this
      ensures r == RightToLeft <==> GetLanguage() == Some(Arabic)
    {
      match GetLanguage()
      case Some(English) => LeftToRight
      case Some(Arabic) => RightToLeft
      case None => LeftToRight
    }

    /** The entry for `key` in the table in use, or `key` itself; `comment` plays no part. */
    function LocalizedString(key: string, comment: string): (r: string)
      reads this
      ensures key in dict ==> r == dict[key]
      ensures key !in dict ==> r == key
    {
      if key in dict then dict[key] else key
    }

    /** Whenever the persisted language has a loadable table, that table is the one in use. */
    ghost predicate TableCurrent()
      reads this
    {
      match GetLanguage()
      case Some(l) => l in bundle ==> dict == bundle[l]
      case None => true
    }

    /**
     * Switches to `language`: loads its table when it can (keeping the old
     * one otherwise), persists its code whether or not the table loaded,
     * and resets the app.
     */
    method SetLanguage(language: Language)
      modifies this
      ensures GetLanguage() == Some(language)
      ensures store == old(store)[LanguageKey := RawValue(language)]
      ensures dict == if language in bundle then bundle[language] else old(dict)
      ensures TableCurrent()
      ensures enableRTL == old(enableRTL) && hasDelegate == old(hasDelegate)
      ensures appearance == if enableRTL then Some(GetLanguageDirection()) else old(appearance)
      ensures notifications == old(notifications) + (if hasDelegate then 1 else 0)
    {
      if language in bundle {
        dict := bundle[language];
      }
      store := store[LanguageKey := RawValue(language)];
      ResetApp();
    }

    /**
     * Forces the current direction on the appearance proxies when RTL
     * support is on, then notifies the delegate, if there is one, once.
     */
    method ResetApp()
      modifies this
      ensures dict == old(dict) && store == old(store)
      ensures enableRTL == old(enableRTL) && hasDelegate == old(hasDelegate)
      ensures appearance == if enableRTL then Some(GetLanguageDirection()) else old(appearance)
      ensures notifications == old(notifications) + (if hasDelegate then 1 else 0)
    {
      if enableRTL {
        appearance := Some(GetLanguageDirection());
      }
      if hasDelegate {
        notifications := notifications + 1;
      }
    }

    /**
     * Startup: records the RTL flag, re-applies the persisted language or
     * picks one from the first system-preferred language (English when that
     * does not match), then resets the app a second time.
     */
    method SetAppInnitLanguage(enableRTL: bool, preferredLanguages: seq<string>)
      modifies this
      ensures this.enableRTL == enableRTL && hasDelegate == old(hasDelegate)
      ensures GetLanguage() == Some(StartupLanguage(old(GetLanguage()), preferredLanguages))
      ensures store == old(store)[LanguageKey := RawValue(StartupLanguage(old(GetLanguage()), preferredLanguages))]
      ensures var l := StartupLanguage(old(GetLanguage()), preferredLanguages);
        dict == if l in bundle then bundle[l] else old(dict)
      ensures TableCurrent()
      ensures appearance == if this.enableRTL then Some(GetLanguageDirection()) else old(appearance)
      ensures notifications == old(notifications) + (if hasDelegate then 2 else 0)
    {
      this.enableRTL := enableRTL;
      var selectedLanguage := GetLanguage();
      if selectedLanguage.Some? {
        SetLanguage(selectedLanguage.value);
      } else {
        var languageCode := if preferredLanguages != [] then Some(preferredLanguages[0]) else None;
        var language := if languageCode.Some? then IsLanguageAvailable(languageCode.value) else None;
        if language.Some? {
          SetLanguage(language.value);
        } else {
          SetLanguage(English);
        }
      }
      ResetApp();
    }
  }

  /**
   * Running startup twice, as on two launches, leaves the language, table
   * and store as the first run left them; the delegate hears of each reset.
   */
  method StartupTwice(manager: LocalizationManager, enableRTL: bool, preferredLanguages: seq<string>, laterPreferred: seq<string>)
    modifies manager
    ensures var l := StartupLanguage(old(manager.GetLanguage()), preferredLanguages);
      && manager.GetLanguage() == Some(l)
      && manager.store == old(manager.store)[LanguageKey := RawValue(l)]
      && manager.dict == (if l in manager.bundle then manager.bundle[l] else old(manager.dict))
    ensures manager.notifications == old(manager.notifications) + (if manager.hasDelegate then 4 else 0)
  {
    manager.SetAppInnitLanguage(enableRTL, preferredLanguages);
    StartupStable(old(manager.GetLanguage()), preferredLanguages, laterPreferred);
    manager.SetAppInnitLanguage(enableRTL, laterPreferred);
  }

  /** `String.localized`: the lookup of `s` with an empty comment. */
  function Localized(s: string, manager: LocalizationManager): (r: string)
    reads manager
    ensures forall comment :: r == manager.LocalizedString(s, comment)
  {
    manager.LocalizedString(s, "")
  }
}
