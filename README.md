# Localization manager model

A Dafny model of the language-selection logic of a small iOS app that
switches its UI between English and Arabic. The core is
`LocalizationManager`: it reads the language persisted in the preferences
store under `"UKPrefLang"`, matches system locale codes loosely by
substring, derives the layout direction, resolves string keys against the
loaded `<code>.plist` table (echoing the key when it is missing), switches
language with `setLanguage`, forces the direction on the appearance proxies
when RTL support is on, and tells its delegate to rebuild the UI. At
startup it re-applies the persisted language, or else matches the first
system-preferred language, or else falls back to English. The app's screen
(`ViewController`) shows one localized label and toggles the language.

Files:

- `wrappers.dfy`: the `Option` type (Swift's `T?`).
- `localization_manager.dfy`: module `Localization`, with the `Language` and
  `LanguageDirection` enums, substring search against a reference definition,
  the startup choice as a function, the `LocalizationManager` class and
  `String.localized`.
- `view_controller.dfy`: module `MainScreen`, with the toggle rule and the
  `ViewController` class.

How the outside world is represented:

- The preferences store is the field `store: map<string, string>`.
- The bundled string tables are the constant `bundle: map<Language, map<string, string>>`.
  A language with no entry is one whose plist fails to load.
- `Locale.preferredLanguages` is a `seq<string>` parameter of `SetAppInnitLanguage`.
- The delegate is the flag `hasDelegate`, set by assigning the field. The ghost
  counter `notifications` counts the `resetApp()` calls it receives.
- The three appearance proxies are one field, `appearance: Option<LanguageDirection>`.
  It holds the direction last forced on them.
- The singleton `shared` is an explicit object handed to the screen.

The model follows the code in three places where one might expect otherwise:

- `setLanguage` persists the code and resets the app even when the table
  fails to load; only the table in use is kept. So the table need not belong
  to the current language. The invariant the code does keep is
  `TableCurrent`: whenever the current language's table loads, it is the
  table in use.
- Startup looks only at the first preferred language, not at the first one
  that matches. `["fr-FR", "ar-EG"]` therefore gives English.
- The direction ignores `enableRTL`. The flag only decides whether the
  appearance proxies are written.

## Model

| member | source | states |
|---|---|---|
| Localization.RawValue | Localization/Localization/LocalizationManager.swift:22-25 | each language has a two-letter code, and the failable initialiser maps the code back to that language |
| Localization.FromRawValue | Localization/Localization/LocalizationManager.swift:22-25 | only the exact codes "en" and "ar" name a language; any other string gives none |
| Localization.Contains | Localization/Localization/LocalizationManager.swift:44-46 | the substring test agrees with the reference definition "t occurs in s at some index" |
| Localization.LocalizationManager.constructor | Localization/Localization/LocalizationManager.swift:27-31 | a fresh manager has an empty table, RTL support on, no delegate and nothing written to the appearance proxies |
| Localization.LocalizationManager.GetLanguage | Localization/Localization/LocalizationManager.swift:34-39 | English exactly when the store holds "en" under "UKPrefLang", Arabic exactly when it holds "ar", otherwise none (key absent or any other string) |
| Localization.LocalizationManager.IsLanguageAvailable | Localization/Localization/LocalizationManager.swift:42-50 | Arabic exactly when the code contains "ar" (checked first, so a code containing both is Arabic), English exactly when it contains "en" but not "ar", none otherwise |
| Localization.LocalizationManager.GetLanguageDirection | Localization/Localization/LocalizationManager.swift:53-63 | right-to-left exactly when the stored language is Arabic; left-to-right for English and for no language; `enableRTL` plays no part |
| Localization.LocalizationManager.LocalizedString | Localization/Localization/LocalizationManager.swift:66-69 | the table's entry when the key is present, the key itself when it is absent; the comment has no effect |
| Localization.LocalizationManager.SetLanguage | Localization/Localization/LocalizationManager.swift:72-82 | afterwards the stored language is the one set, loaded or not; the table is replaced wholesale when it loads and kept otherwise; only "UKPrefLang" changes in the store; the table matches the language whenever it loads; the appearance is the new direction when RTL is on; the delegate, if any, is notified exactly once |
| Localization.LocalizationManager.ResetApp | Localization/Localization/LocalizationManager.swift:86-102 | writes the appearance only when RTL is on, and then with the current direction; notifies the delegate, if any, exactly once; changes nothing else |
| Localization.LocalizationManager.SetAppInnitLanguage | Localization/Localization/LocalizationManager.swift:105-120 | records the RTL flag; the final language is always set and is the startup choice; the table and store change as for one `setLanguage` of that language; the delegate, if any, is notified exactly twice |
| Localization.StartupLanguage | Localization/Localization/LocalizationManager.swift:107-117 | a persisted language is kept; otherwise the result is Arabic exactly when there is a first preferred language and it contains "ar", and English in every other case |
| Localization.RegionalCodesMatch | Localization/Localization/LocalizationManager.swift:42-50 | "ar-SA" matches Arabic and "en-US" matches English |
| Localization.UnknownCodeUnmatched | Localization/Localization/LocalizationManager.swift:42-50 | "fr-FR" matches neither language |
| Localization.SubstringMatchIsLoose | Localization/Localization/LocalizationManager.swift:44-45 | the unrelated code "mar" is taken for Arabic because the match is by substring |
| Localization.StartupConsultsOnlyFirstPreferred | Localization/Localization/LocalizationManager.swift:109-117 | with nothing persisted, ["fr-FR", "ar-EG"] gives English, ["ar-EG", "fr-FR"] Arabic, ["fr-FR", "de-DE"] English and the empty list English |
| Localization.StartupStable | Localization/Localization/LocalizationManager.swift:107-108 | running startup again on the language it persisted keeps that language, whatever the system prefers then |
| Localization.StartupTwice | Localization/Localization/LocalizationManager.swift:105-120 | two startups in a row leave the language, table and store exactly as the first left them, and the delegate, if any, is notified four times |
| Localization.Localized | Localization/Localization/LocalizationManager.swift:123-126 | `String.localized` equals the manager's lookup of the string, whatever the comment |
| MainScreen.Toggled | Localization/Localization/ViewController.swift:28-32 | the toggle gives English exactly when the current language is Arabic, and Arabic when it is English or none |
| MainScreen.ToggleTwice | Localization/Localization/ViewController.swift:27-33 | toggling from a set language always changes it, and toggling twice restores it |
| MainScreen.ViewController.constructor | Localization/Localization/ViewController.swift:11-13 | a new screen is bound to the manager and its label has no text yet |
| MainScreen.ViewController.ViewDidLoad | Localization/Localization/ViewController.swift:16-19 | the label shows the table's entry for "Language Check", or "Language Check" itself when the key is absent |
| MainScreen.ViewController.SwitchLanguage | Localization/Localization/ViewController.swift:27-33 | Arabic becomes English and anything else becomes Arabic; a language is always stored afterwards; the store, table and appearance change as for one `setLanguage`; the delegate, if any, is notified exactly once |

## Left out

- The UIKit appearance proxies (`UITabBar`, `UIView`, `UINavigationBar`) are one abstract direction field. The semantic content attributes themselves are not modelled.
- The `SceneDelegate` conformance (LocalizationManager.swift:129-138) is left out. It instantiates the storyboard, swaps the window's root view controller and animates the change. The delegate is only a notification counter.
- Bundle path resolution and plist parsing are left out, because they are file I/O. A table either loads as a whole or is absent.
- The durability of `UserDefaults` and `synchronize()` are left out. The store is an in-memory map, so persistence across processes is not modelled.
- The weak reference of `delegate` is reduced to a flag saying whether a delegate is present. Memory management is not modelled.
- The static `shared` singleton is replaced by an explicit manager object.
- `viewDidLayoutSubviews` (image flipping) and the outlet wiring are left out, because they are UI only.
- Localization.Contains: compares characters one by one. Swift's `String.contains` works on grapheme clusters with canonical equivalence, which is not modelled. The needles "ar" and "en" are plain ASCII.
