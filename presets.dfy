/** `PresetManagerDialog`: named mod lists kept under the `presets` key of
    the launcher's settings file. The dialog works on the list of checked
    mod names the main window hands it, and on the decoded settings
    document, which it writes back after every change. */
module Presets {
  import opened Wrappers
  import opened Config
  import opened Launch
  import opened Launcher

  /** `settings['presets']` exists and is a table of presets. */
  predicate HasPresetTable(doc: ConfigDoc) {
    PresetsKey in doc && doc[PresetsKey].PresetTable?
  }

  function PresetsOf(doc: ConfigDoc): map<string, seq<string>>
    requires HasPresetTable(doc)
  {
    doc[PresetsKey].presets
  }

  /** `load_settings`: the decoded file with an empty preset table added when
      it has none; `{'presets': {}}` when the file is missing or cannot be
      read. */
  function PresetDoc(f: ConfigFile): (doc: ConfigDoc)
    requires WellTypedFile(f)
    ensures HasPresetTable(doc)
    ensures !f.Parsed? ==> doc == map[PresetsKey := PresetTable(map[])]
    ensures f.Parsed? ==> doc.Keys == f.doc.Keys + {PresetsKey}
    ensures f.Parsed? ==> forall k | k in f.doc :: doc[k] == f.doc[k]
    ensures f.Parsed? && PresetsKey !in f.doc ==> PresetsOf(doc) == map[]
  {
    match f
    case Parsed(d) => if PresetsKey in d then d else d[PresetsKey := PresetTable(map[])]
    case _ => map[PresetsKey := PresetTable(map[])]
  }

  /** `settings['presets'][name] = mods`: that preset is set, every other
      preset and every other key of the document keeps its value. */
  function StorePreset(doc: ConfigDoc, name: string, mods: seq<string>): (r: ConfigDoc)
    requires HasPresetTable(doc)
    ensures HasPresetTable(r) && name in PresetsOf(r) && PresetsOf(r)[name] == mods
    ensures forall n | n != name :: (n in PresetsOf(r) <==> n in PresetsOf(doc))
    ensures forall n | n != name && n in PresetsOf(doc) :: PresetsOf(r)[n] == PresetsOf(doc)[n]
    ensures r.Keys == doc.Keys && forall k | k in doc && k != PresetsKey :: r[k] == doc[k]
  {
    doc[PresetsKey := PresetTable(PresetsOf(doc)[name := mods])]
  }

  /** `del settings['presets'][name]`: only that preset goes. */
  function DropPreset(doc: ConfigDoc, name: string): (r: ConfigDoc)
    requires HasPresetTable(doc)
    ensures HasPresetTable(r) && name !in PresetsOf(r)
    ensures forall n | n != name :: (n in PresetsOf(r) <==> n in PresetsOf(doc))
    ensures forall n | n in PresetsOf(r) :: PresetsOf(r)[n] == PresetsOf(doc)[n]
    ensures r.Keys == doc.Keys && forall k | k in doc && k != PresetsKey :: r[k] == doc[k]
  {
    doc[PresetsKey := PresetTable(PresetsOf(doc) - {name})]
  }

  /** A list object that several owners share: `self.checked_mods`. */
  class ModList {
    var items: seq<string>

    constructor(items: seq<string>)
      ensures this.items == items
    {
      this.items := items;
    }
  }

  class PresetManager {
    /** The list the main window passed in; the dialog changes it in place. */
    const checkedMods: ModList
    /** The settings file, the one object the main window also reads. */
    const settingsFile: SettingsFile
    /** `self.parent()`. */
    const parent: GameLauncher
    var settings: ConfigDoc

    predicate Valid()
      reads this
    {
      HasPresetTable(settings)
    }

    function Presets(): map<string, seq<string>>
      reads this
      requires Valid()
    {
      PresetsOf(settings)
    }

    /** `__init__`: the settings are loaded at once. */
    constructor(checkedMods: ModList, settingsFile: SettingsFile, parent: GameLauncher)
      requires WellTypedFile(settingsFile.content)
      ensures this.checkedMods == checkedMods && this.settingsFile == settingsFile && this.parent == parent
      ensures Valid() && settings == PresetDoc(settingsFile.content)
    {
      this.checkedMods := checkedMods;
      this.settingsFile := settingsFile;
      this.parent := parent;
      settings := map[];
      new;
      LoadSettings();
    }

    /** `load_settings`. */
    method LoadSettings()
      requires WellTypedFile(settingsFile.content)
      modifies this`settings
      ensures Valid() && settings == PresetDoc(settingsFile.content)
    {
      match settingsFile.content {
        case Parsed(doc) =>
          settings := doc;
          if PresetsKey !in settings {
            settings := settings[PresetsKey := PresetTable(map[])];
          }
        case Missing =>
          settings := map[PresetsKey := PresetTable(map[])];
        case Unreadable =>
          settings := map[PresetsKey := PresetTable(map[])];
        case NotAnObject =>
          // `'presets' not in ...` or the item assignment raises, and
          // `except Exception` resets the settings.
          settings := map[PresetsKey := PresetTable(map[])];
      }
    }

    /** `save_settings`: the whole document goes back to the file. */
    method SaveSettings()
      modifies settingsFile
      ensures settingsFile.content == Parsed(settings)
    {
      settingsFile.content := Parsed(settings);
    }

    /** `create_new_preset`, given what the name dialog returned: an
        accepted, non-empty name stores a copy of the current list under it,
        replacing any preset of that name; otherwise nothing changes. */
    method CreateNewPreset(name: string, ok: bool)
      requires Valid()
      modifies this`settings, settingsFile
      ensures ok && name != "" ==> settings == StorePreset(old(settings), name, checkedMods.items)
      ensures ok && name != "" ==> settingsFile.content == Parsed(settings)
      ensures !(ok && name != "") ==> settings == old(settings) && settingsFile.content == old(settingsFile.content)
      ensures Valid()
    {
      if ok && name != "" {
        var presets := settings[PresetsKey].presets;
        settings := settings[PresetsKey := PresetTable(presets[name := checkedMods.items])];
        SaveSettings();
      }
    }

    /** `delete_selected_preset`, given the selected item (a preset the list
        shows) and the answer to the confirmation: only a Yes removes it, and
        only it. */
    method DeleteSelectedPreset(selected: Option<string>, confirmed: bool)
      requires Valid()
      requires selected.Some? ==> selected.value in Presets()
      modifies this`settings, settingsFile
      ensures selected.Some? && confirmed ==> settings == DropPreset(old(settings), selected.value)
      ensures selected.Some? && confirmed ==> settingsFile.content == Parsed(settings)
      ensures !(selected.Some? && confirmed) ==> settings == old(settings) && settingsFile.content == old(settingsFile.content)
      ensures Valid()
    {
      if selected.Some? {
        var presetName := selected.value;
        if confirmed {
          var presets := settings[PresetsKey].presets;
          settings := settings[PresetsKey := PresetTable(presets - {presetName})];
          SaveSettings();
        }
      }
    }

    /** `load_selected_preset`: the shared list's contents are replaced by
        the preset's, and the main window checks exactly those mods among
        the items `traversal` visits. */
    method LoadSelectedPreset(selected: Option<string>, traversal: seq<string>)
      requires Valid()
      requires selected.Some? ==> selected.value in Presets()
      requires parent.Valid() && parent.IsTraversal(traversal)
      modifies checkedMods, parent`checked
      ensures selected.Some? ==> checkedMods.items == Presets()[selected.value]
      ensures selected.Some? ==> parent.checked == CheckedAfterSet(old(parent.checked), traversal, checkedMods.items)
      ensures selected.None? ==> checkedMods.items == old(checkedMods.items) && parent.checked == old(parent.checked)
      ensures parent.Valid()
      // The presets hold copies: refilling the list leaves every preset alone.
      ensures settings == old(settings)
    {
      if selected.Some? {
        var presetName := selected.value;
        checkedMods.items := settings[PresetsKey].presets[presetName];
        parent.SetCheckedMods(traversal, checkedMods.items);
      }
    }
  }

  /** What the dialog saves, it loads again unchanged. */
  lemma SavedPresetsReload(doc: ConfigDoc)
    requires HasPresetTable(doc) && WellTyped(doc)
    ensures PresetDoc(Parsed(doc)) == doc
  {
  }

  /** A preset stored and saved is found again when the dialog next loads
      the file: under its name is the list it was stored from, and every
      other preset is as it was. */
  lemma StoreThenLoad(doc: ConfigDoc, name: string, mods: seq<string>)
    requires HasPresetTable(doc) && WellTyped(doc)
    ensures WellTypedFile(Parsed(StorePreset(doc, name, mods)))
    ensures var reloaded := PresetDoc(Parsed(StorePreset(doc, name, mods)));
      && name in PresetsOf(reloaded) && PresetsOf(reloaded)[name] == mods
      && (forall n | n != name :: (n in PresetsOf(reloaded) <==> n in PresetsOf(doc)))
      && (forall n | n != name && n in PresetsOf(doc) :: PresetsOf(reloaded)[n] == PresetsOf(doc)[n])
  {
    StorePresetWellTyped(doc, name, mods);
    SavedPresetsReload(StorePreset(doc, name, mods));
  }

  /** Storing keeps the document well typed, so it can be loaded again. */
  lemma StorePresetWellTyped(doc: ConfigDoc, name: string, mods: seq<string>)
    requires HasPresetTable(doc) && WellTyped(doc)
    ensures WellTyped(StorePreset(doc, name, mods)) && WellTyped(DropPreset(doc, name))
  {
  }

  /** Deleting a preset that was just stored gives back the presets as they
      were, when there was none of that name before. */
  lemma StoreThenDrop(doc: ConfigDoc, name: string, mods: seq<string>)
    requires HasPresetTable(doc) && name !in PresetsOf(doc)
    ensures PresetsOf(DropPreset(StorePreset(doc, name, mods), name)) == PresetsOf(doc)
  {
  }

  /** Creating a preset and loading it later gives the main window's list
      back as it was when the preset was created, whatever the list held in
      between: the preset is a copy, and loading refills the same list object. */
  method CreateThenLoad(m: PresetManager, name: string, meanwhile: seq<string>, traversal: seq<string>)
    requires m.Valid() && name != ""
    requires m.parent.Valid() && m.parent.IsTraversal(traversal)
    modifies m, m.settingsFile, m.checkedMods, m.parent
    ensures m.checkedMods.items == old(m.checkedMods.items)
    ensures m.parent.checked == CheckedAfterSet(old(m.parent.checked), traversal, old(m.checkedMods.items))
  {
    m.CreateNewPreset(name, true);
    m.checkedMods.items := meanwhile;
    m.LoadSelectedPreset(Some(name), traversal);
  }
}
