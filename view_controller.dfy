/**
 * The app's one screen: a label showing the localized "Language Check"
 * string and a button that toggles between the two languages.
 */
module MainScreen {
  import opened Wrappers
  import opened Localization

  /** The key whose localized text the label shows. */
  const LabelKey: string := "Language Check"

  /** The language the toggle asks for: Arabic becomes English, anything else (no language too) becomes Arabic. */
  function Toggled(current: Option<Language>): (r: Language)
    ensures r == English <==> current == Some(Arabic)
  {
    if current == Some(Arabic) then English else Arabic
  }

  /** From a set language, toggling twice comes back to it. */
  lemma ToggleTwice(language: Language)
    ensures Toggled(Some(Toggled(Some(language)))) == language
    ensures Toggled(Some(language)) != language
  {
  }

  class ViewController {
    /** The manager the screen reads and drives. */
    const manager: LocalizationManager
    /** The text of `myLabel`; none until the view has loaded. */
    var labelText: Option<string>

    constructor (manager: LocalizationManager)
      ensures this.manager == manager && labelText == None
    {
      this.manager := manager;
      labelText := None;
    }

    /** Sets the label to the current table's entry for "Language Check", or to the key itself. */
    method ViewDidLoad()
      modifies this
      ensures LabelKey in manager.dict ==> labelText == Some(manager.dict[LabelKey])
      ensures LabelKey !in manager.dict ==> labelText == Some(LabelKey)
    {
      labelText := Some(Localized(LabelKey, manager));
    }

    /** The button action: switches the manager to the other language. */
    method SwitchLanguage()
      modifies manager
      ensures manager.GetLanguage() == Some(Toggled(old(manager.GetLanguage())))
      ensures old(manager.GetLanguage()) == Some(Arabic) ==> manager.GetLanguage() == Some(English)
      ensures old(manager.GetLanguage()) != Some(Arabic) ==> manager.GetLanguage() == Some(Arabic)
      ensures manager.store == old(manager.store)[LanguageKey := RawValue(Toggled(old(manager.GetLanguage())))]
      ensures var l := Toggled(old(manager.GetLanguage()));
        manager.dict == if l in manager.bundle then manager.bundle[l] else old(manager.dict)
      ensures manager.TableCurrent()
      ensures manager.enableRTL == old(manager.enableRTL) && manager.hasDelegate == old(manager.hasDelegate)
      ensures manager.appearance == if manager.enableRTL then Some(manager.GetLanguageDirection()) else old(manager.appearance)
      ensures manager.notifications == old(manager.notifications) + (if manager.hasDelegate then 1 else 0)
    {
      if manager.GetLanguage() == Some(Arabic) {
        manager.SetLanguage(English);
      } else {
        manager.SetLanguage(Arabic);
      }
    }
  }
}
