/** The launcher's JSON settings file (`launcher_configs.json` in the game's
    `mod` folder), as the decoded document both the main window and the
    preset dialog read and rewrite. */
module Config {

  /** The JSON values the launcher stores: the list of checked mod names, the
      game root, the preset table, or any other value it only carries along. */
  datatype ConfigValue =
    | NameList(names: seq<string>)
    | Text(text: string)
    | PresetTable(presets: map<string, seq<string>>)
    | OtherValue

  /** A decoded top-level JSON object. Key order is not modelled. */
  type ConfigDoc = map<string, ConfigValue>

  /** What opening and decoding the settings file yields: no file, a file
      that cannot be read or decoded (the `except Exception` paths), valid
      JSON whose top level is not an object (a list, a string, a number or
      `null`), or a decoded document. */
  datatype ConfigFile = Missing | Unreadable | NotAnObject | Parsed(doc: ConfigDoc)

  const CheckedModsKey: string := "checked_mods"
  const GameRootKey: string := "game_root"
  const PresetsKey: string := "presets"

  /** The fixed default of `self.default_game_root`. */
  const DefaultGameRoot: string := "C:\\Program Files (x86)\\Steam\\steamapps\\common\\Victoria 2"

  /** The settings file on disk. Both windows hold the same path, so both
      read and write this one object. */
  class SettingsFile {
    var content: ConfigFile

    constructor(content: ConfigFile)
      ensures this.content == content
    {
      this.content := content;
    }
  }

  /** The three keys the launcher itself interprets hold values of the types
      it uses them as. */
  predicate WellTyped(doc: ConfigDoc) {
    && (CheckedModsKey in doc ==> doc[CheckedModsKey].NameList?)
    && (GameRootKey in doc ==> doc[GameRootKey].Text?)
    && (PresetsKey in doc ==> doc[PresetsKey].PresetTable?)
  }

  predicate WellTypedFile(f: ConfigFile) {
    f.Parsed? ==> WellTyped(f.doc)
  }

  /** `settings.get('checked_mods', [])` in `loadSettings`, with `[]` also on
      the paths where the file is missing or cannot be read. */
  function StoredCheckedMods(f: ConfigFile): seq<string>
    requires WellTypedFile(f)
  {
    match f
    case Parsed(doc) => if CheckedModsKey in doc then doc[CheckedModsKey].names else []
    case _ => []
  }

  /** The game root after the first read of `loadSettings`: a decoded file sets
      it to its `game_root` entry, or to the default when it has none; a
      missing or unreadable file leaves the current root alone. */
  function StoredGameRoot(f: ConfigFile, current: string): string
    requires WellTypedFile(f)
  {
    match f
    case Parsed(doc) => if GameRootKey in doc then doc[GameRootKey].text else DefaultGameRoot
    case _ => current
  }

  /** The document `saveSettings` starts from: the decoded file, or `{}` when
      the file is missing or cannot be read. (With a top level that is not an
      object, `saveSettings` raises before it writes; see `GameLauncher.SaveSettings`.) */
  function SaveBase(f: ConfigFile): ConfigDoc
  {
    if f.Parsed? then f.doc else map[]
  }

  /** `settings['checked_mods'] = checked_mods`: exactly one key is set, and
      every other key keeps its value. */
  function WithCheckedMods(doc: ConfigDoc, names: seq<string>): (r: ConfigDoc)
    ensures CheckedModsKey in r && r[CheckedModsKey] == NameList(names)
    ensures forall k :: k != CheckedModsKey ==> (k in r <==> k in doc)
    ensures forall k | k in doc && k != CheckedModsKey :: r[k] == doc[k]
  {
    doc[CheckedModsKey := NameList(names)]
  }
}
