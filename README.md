# TGLauncher core, modelled in Dafny

TGLauncher is a desktop launcher for *Victoria 2* mods. The model covers four parts of it.

- **Main window (`GameLauncher`).** It reads the `.mod` manifests in the game's `mod` folder and registers each named mod with its file, dependencies and user directory. It places every mod in a tree, under its first registered dependency or at the top. It reads and writes the set of checked mods, and the game root, in the JSON file `launcher_configs.json`. It chooses the user directory of the selection, and it builds the `cd "<root>" && v2game.exe -mod=mod/<file> …` command.
- **The INI settings manager (`SettingsManager`).** From a `[category]` / `key=value` text it reads an ordered dict of dicts. It overwrites the known keys that `save_settings` is given, writes every category back, and creates a default file when none exists.
- **The preset dialog (`PresetManagerDialog`).** Named copies of the checked-mod list live under `presets` in the JSON settings. The dialog creates, deletes and loads them.
- **The update checker (`UpdateCheckerDialog`).** It derives the code-host API URLs of each mod's repository. It decides from the latest release and the latest commit whether a mod is out of date, chooses the message, and sets the final status.

The model is organised by module.

| module | file | contents |
|---|---|---|
| `Wrappers` | wrappers.dfy | `Option` and `Result` |
| `PyText` | pytext.dfy | the Python `str` operations the code uses: `strip`, `split`, `join`, `replace`, `startswith`, list comprehensions |
| `PyDict` | pydict.dfy | insertion-ordered `dict` as a sequence of pairs |
| `Manifest` | manifest.dfy | the line loop of `load_mods` over one manifest |
| `ModRegistry` | registry.dfy | both passes of `load_mods` |
| `Launch` | launch.dfy | selection, user directory, item check states, command line |
| `Config` | config.dfy | the JSON settings document |
| `Launcher` | launcher.dfy | class `GameLauncher` |
| `IniSettings` | settings.dfy | the INI reader and writer as functions, the round trip, the default text |
| `SettingsStore` | settingsmanager.dfy | class `SettingsManager` and its loops, proved against `IniSettings` |
| `Presets` | presets.dfy | class `PresetManager` |
| `Updates` | updates.dfy | URL derivation, classification, class `UpdateChecker` |

The methods are proved to compute the functions that specify them. Each comes with lemmas about those functions:

- the round trip `Parse(Serialize(s)) == s`;
- the default text parsing to its four categories;
- the placement rule as an if-and-only-if;
- the last-file-wins rule of the registry;
- the entries of the update check following the mods' order.

Outside effects are parameters:

- the mod folder listing with each file's text as text-mode `read()` returns it, line endings already turned into `\n`;
- the decoded JSON file;
- the INI file's text or its absence;
- the answers of the dialogs;
- the order in which the Qt tree iterator visits its items;
- the network replies, file times and date parser of the update check.

`start_game` (scr/mainWindow.py:226-239) only builds the command and saves the selection. It does not patch `update_time` in the game's settings, and it sets no process priority or CPU affinity; the model has none of these either. `load_mods` does not read `github` or `version` from manifests: the update checker reads `github`, `current_release` and `file` from a per-mod dict of its own.

## Model

| member | source | states |
|---|---|---|
| Manifest.ReadManifest | scr/mainWindow.py:156-166 | the loop over `content.split('\n')` computes `ParseManifest`, including the stop at a recognised line without `=` |
| Manifest.ReadLinesFails | scr/mainWindow.py:159-166 | the read fails exactly when some `name`/`dependencies`/`user_dir` line lacks `=`; it fails at the first such line, and every line before it is fine |
| Manifest.ReadLinesErrorSticks | scr/mainWindow.py:153-173 | once the read of some lines fails, more lines do not change the outcome |
| Manifest.NamePrefixesExclusive | scr/mainWindow.py:160-166 | a line is handled by at most one of the three branches |
| Manifest.ApplyLineEffect | scr/mainWindow.py:160-166 | one successful line changes only the field its prefix names |
| Manifest.ReadLinesStep | scr/mainWindow.py:159-166 | a successful read of n lines extends the read of the first n-1 by the effect of the last |
| Manifest.ReadLinesName | scr/mainWindow.py:156-161 | the name is the quoted value of the last `name` line, or `""` when there is none |
| Manifest.ReadLinesDependencies | scr/mainWindow.py:157-164 | the dependencies are those of the last `dependencies` line, or `[]` when there is none |
| Manifest.ReadLinesUserDir | scr/mainWindow.py:158-166 | the user directory is the quoted value of the last `user_dir` line, or `""` when there is none |
| Manifest.CleanDependenciesEntries | scr/mainWindow.py:163-164 | each dependency is the stripped, unquoted form of a non-blank item, and every non-blank item gives one |
| Manifest.CleanDependenciesInOrder | scr/mainWindow.py:164 | with no blank items, the dependencies are the items cleaned one for one, in order |
| Manifest.CleanDependenciesSnoc | scr/mainWindow.py:164 | one more item adds its cleaned entry at the end when it is non-blank, and nothing otherwise: the list keeps declaration order |
| ModRegistry.ReadModFolder | scr/mainWindow.py:148-173 | the first pass of `load_mods` over the listing computes `Scan` |
| ModRegistry.RegisterValid | scr/mainWindow.py:168-171 | registering a named manifest keeps the three dicts on one key set and records the name |
| ModRegistry.ScanValid | scr/mainWindow.py:148-171 | after the first pass the three dicts share their keys, the order lists each key once, and `""` is never a key |
| ModRegistry.ScanRegistered | scr/mainWindow.py:151-171 | a name is registered exactly when some `.mod` entry that reads without error declares it |
| ModRegistry.ScanLastWins | scr/mainWindow.py:169-171 | a name declared by several files keeps the file, dependencies and user directory of the last of them |
| ModRegistry.ScanSkips | scr/mainWindow.py:152-173 | an entry that is not a `.mod` file, raises while read, or has no name changes nothing |
| ModRegistry.ScanOrder | scr/mainWindow.py:169-181 | the dicts' key order is the order of first declaration |
| ModRegistry.PlaceMod | scr/mainWindow.py:189-200 | the `for`/`break`/`else` loop over one mod's dependencies computes `PlacementOf` |
| ModRegistry.PlaceMods | scr/mainWindow.py:178-200 | the second pass places every registered mod by `PlacementOf` |
| ModRegistry.PlacementOfChild | scr/mainWindow.py:190-194 | a mod hangs under `p` exactly when `p` is registered and is its first registered dependency |
| ModRegistry.PlacementOfTop | scr/mainWindow.py:190-200 | a mod is top-level exactly when none of its dependencies is registered |
| ModRegistry.PlacementsWellFormed | scr/mainWindow.py:181-200 | the tree has one item per registered mod, and a parent is always a registered dependency of its child |
| Launch.SelectedInOrder | scr/mainWindow.py:209-217 | every selected name is checked and registered |
| Launch.SelectedInOrderSnoc | scr/mainWindow.py:209-217 | visiting one more item appends it exactly when it is checked and registered |
| Launch.SelectedInOrderMembers | scr/mainWindow.py:209-217 | a name is selected exactly when it is visited, checked and registered |
| Launch.CollectChecked | scr/mainWindow.py:205-222 | the loop returns the selection in traversal order, and the last selected mod with a non-empty user directory (none when there is no such mod) |
| Launch.LastNonEmptyUserDirIs | scr/mainWindow.py:215-222 | the user directory is `""` exactly when all selected directories are empty; otherwise it is that of the last mod with a non-empty one |
| Launch.InitialUserDir | scr/mainWindow.py:27 | `__init__` takes the directory of the last selected mod, even an empty one, or `""` |
| Launch.UserDirRulesAgree | scr/mainWindow.py:27 | the rule of `__init__` and the rule of `get_checked_mods` agree when the last selected directory is non-empty |
| Launch.UserDirRulesDiffer | scr/mainWindow.py:27 | an input on which the two rules give different directories |
| Launch.LastNonEmptyUserDirSkipsEmpty | scr/mainWindow.py:215-216 | mods with an empty directory after a non-empty one do not change the choice |
| Launch.CheckedAfterSet | scr/mainWindow.py:94-106 | a visited item is checked exactly when its name is listed; an unvisited one keeps its state |
| Launch.SetThenSelect | scr/mainWindow.py:94-106 | after `set_checked_mods`, the selection is the listed registered names in tree order |
| Launch.SetThenSelectTreeOrder | scr/mainWindow.py:94-106 | an input on which the list's own order is lost: the tree order wins |
| Launch.ModFlags | scr/mainWindow.py:230 | one `-mod=mod/<file>` flag per file, in order |
| Launch.FilesOf | scr/mainWindow.py:230 | the file of every selected mod, in order |
| Launch.LaunchCommandArguments | scr/mainWindow.py:229-238 | with no mods the command is the bare one; otherwise splitting what follows it on spaces gives back the flags |
| Config.WithCheckedMods | scr/mainWindow.py:301 | `checked_mods` takes the new list; every other key keeps its value |
| Launcher.GameLauncher.constructor | scr/mainWindow.py:15-26 | after `__init__`: the root is stored or default, mods come from it (or the default root), and only the stored checked mods are checked |
| Launcher.GameLauncher.LoadMods | scr/mainWindow.py:139-203 | a missing folder empties the tree only; otherwise the registry is `Scan` of the listing, placed by `Placements`, all unchecked |
| Launcher.GameLauncher.GetCheckedMods | scr/mainWindow.py:205-223 | returns `Selected(traversal)` and sets the user directory to that of the last selected mod with a non-empty one |
| Launcher.GameLauncher.SetCheckedMods | scr/mainWindow.py:94-106 | the check states become `CheckedAfterSet` |
| Launcher.GameLauncher.LoadSettings | scr/mainWindow.py:255-290 | the root follows the file, the mods are reloaded, and exactly the stored names are checked |
| Launcher.GameLauncher.ApplyCheckedMods | scr/mainWindow.py:280-290 | every tree item is checked exactly when its name is listed |
| Launcher.GameLauncher.SaveSettings | scr/mainWindow.py:292-306 | the file becomes the old document (or `{}` when missing or unreadable) with `checked_mods` set to the selection; a file holding JSON that is not an object makes it raise and stay as it was |
| Launcher.GameLauncher.StartGame | scr/mainWindow.py:226-239 | the command is built from the selection; the settings are saved only when it is non-empty, and that save raises, after the command, exactly when the file holds JSON that is not an object |
| Launcher.GameLauncher.InitUserDir | scr/mainWindow.py:27 | the user directory follows `InitialUserDir` |
| IniSettings.RunAppend | scr/settingsmanager.py:17-28 | reading lines `a + b` is reading `b` after `a` |
| IniSettings.BlankLineSkipped | scr/settingsmanager.py:18-20 | a line that strips to nothing, or to a `#` comment, changes nothing |
| IniSettings.RunSameStripped | scr/settingsmanager.py:18 | lines that strip to the same text read the same |
| IniSettings.HeaderLineRead | scr/settingsmanager.py:21-23 | `[name]` starts the category `name` empty and makes it current |
| IniSettings.EntryLineRead | scr/settingsmanager.py:24-28 | `key=value` under a current category stores the pair there |
| IniSettings.ItemLinesRead | scr/settingsmanager.py:24-28 | the entry lines of a category, read after its header, fill it in order |
| IniSettings.BlockLinesRead | scr/settingsmanager.py:21-28 | a written block reads back as that category, appended |
| IniSettings.SettingsLinesRead | scr/settingsmanager.py:14-28 | the lines of well-formed settings read back as those settings |
| IniSettings.FileLinesPlain | scr/settingsmanager.py:15-17 | a text without carriage returns is read line by line as split on `\n` |
| IniSettings.FileLinesClean | scr/settingsmanager.py:15-17 | no line the loop meets holds a line break |
| IniSettings.RoundTrip | scr/settingsmanager.py:14-49 | writing well-formed settings and reading the file back gives the same settings in the same order |
| IniSettings.ParseLineKeepsShape | scr/settingsmanager.py:18-28 | every line keeps the settings well formed: category names and keys are free of `=` and line breaks, names have no bracket at either end, keys no surrounding spaces and no leading `#` (both may be empty, and the category `""` stays empty), and no name or key appears twice |
| IniSettings.ParseWellFormed | scr/settingsmanager.py:14-28 | whatever the text, what is read is well formed |
| IniSettings.ReadWriteRead | scr/settingsmanager.py:14-49 | read, write, read gives the first read |
| IniSettings.ApplyUpdatesShape | scr/settingsmanager.py:39-42 | the updates keep the categories and every category's keys, in order |
| IniSettings.ApplyUpdatesValue | scr/settingsmanager.py:39-42 | a present key takes the value the updates give it, in every category; unknown keys are ignored |
| IniSettings.ApplyUpdatesWellFormed | scr/settingsmanager.py:39-42 | clean new values keep the settings well formed |
| IniSettings.SavedSettingsReadBack | scr/settingsmanager.py:34-49 | what `save_settings` writes reads back as the updated settings |
| IniSettings.LookupStored | scr/settingsmanager.py:30-32 | `get_setting` finds every stored value under its category and key |
| IniSettings.LookupMissing | scr/settingsmanager.py:30-32 | `get_setting` returns the default when the category or the key is missing, and only then (for a `None` default) |
| IniSettings.LookupAfterUpdates | scr/settingsmanager.py:30-42 | after the updates, a lookup sees the new value of every present key that is updated, and the old answer otherwise |
| IniSettings.Spaces | scr/settingsmanager.py:54-71 | the indentation of the default text: `n` spaces |
| IniSettings.DefaultTextLines | scr/settingsmanager.py:53-71 | the default text splits into its nineteen lines |
| IniSettings.DefaultLinesRead | scr/settingsmanager.py:53-71 | these lines, indented as they are, read as the four default categories |
| IniSettings.DefaultSettingsRead | scr/settingsmanager.py:14-71 | the default text reads as `graphics`, `sound`, `gui`, `general` with their entries |
| IniSettings.DefaultUpdateTime | scr/settingsmanager.py:53-71 | in the default file `general.update_time` is `1.000000` |
| SettingsStore.ReadSettings | scr/settingsmanager.py:14-28 | the reading loop computes `Parse(text)` |
| SettingsStore.UpdateSettings | scr/settingsmanager.py:39-42 | the nested loops compute `ApplyUpdates` |
| SettingsStore.WriteSettings | scr/settingsmanager.py:45-49 | the write loops produce `Serialize` |
| SettingsStore.TextAfterCreate | scr/settingsmanager.py:10-12 | an existing file is read as it is; when there is none, the default file is written, and it reads as the default settings |
| SettingsStore.SettingsManager.constructor | scr/settingsmanager.py:3-6 | the settings are loaded at once |
| SettingsStore.SettingsManager.LoadSettings | scr/settingsmanager.py:8-28 | the file exists afterwards, and the settings are what its text reads as |
| SettingsStore.SettingsManager.CreateDefaultSettings | scr/settingsmanager.py:51-73 | the file holds the default text |
| SettingsStore.SettingsManager.GetSetting | scr/settingsmanager.py:30-32 | the default for a missing category or key, the stored value otherwise |
| SettingsStore.SettingsManager.SaveSettings | scr/settingsmanager.py:34-49 | the settings become the updated reload, and the file their serialisation |
| SettingsStore.LookupAllStored | scr/settingsmanager.py:30-32 | every stored entry is what `get_setting` finds |
| SettingsStore.SaveThenLoad | scr/settingsmanager.py:8-49 | a load after `save_settings` gives the saved settings |
| Presets.PresetDoc | scr/presetmanagerWindow.py:54-65 | the decoded file gains an empty preset table if it has none; a missing or unreadable file gives `{'presets': {}}` |
| Presets.StorePreset | scr/presetmanagerWindow.py:104 | the named preset is set, and every other preset and key is unchanged |
| Presets.DropPreset | scr/presetmanagerWindow.py:95 | only the named preset is removed |
| Presets.PresetManager.constructor | scr/presetmanagerWindow.py:11-18 | the settings are loaded at once |
| Presets.PresetManager.LoadSettings | scr/presetmanagerWindow.py:54-65 | the settings become `PresetDoc` of the file |
| Presets.PresetManager.SaveSettings | scr/presetmanagerWindow.py:109-113 | the whole document is written back |
| Presets.PresetManager.CreateNewPreset | scr/presetmanagerWindow.py:100-105 | an accepted non-empty name stores the current list and saves; otherwise nothing changes |
| Presets.PresetManager.DeleteSelectedPreset | scr/presetmanagerWindow.py:85-96 | only a Yes removes the selected preset, and saves; otherwise nothing changes |
| Presets.PresetManager.LoadSelectedPreset | scr/presetmanagerWindow.py:75-82 | the shared list takes the preset's contents in place, the main window checks exactly those mods, and the presets are untouched |
| Presets.SavedPresetsReload | scr/presetmanagerWindow.py:54-60 | a saved document loads back unchanged |
| Presets.StoreThenLoad | scr/presetmanagerWindow.py:54-113 | after a preset is stored and the document saved, loading the file again finds that list under the name, and every other preset as it was |
| Presets.StorePresetWellTyped | scr/presetmanagerWindow.py:95-104 | storing and deleting keep the document well typed |
| Presets.StoreThenDrop | scr/presetmanagerWindow.py:95-104 | deleting a newly stored preset restores the presets |
| Presets.CreateThenLoad | scr/presetmanagerWindow.py:75-105 | creating a preset and loading it later puts the list as it was at creation back into the same list object, whatever it held in between, and checks exactly those mods in the tree |
| Updates.ApiBase | scr/updatesWindow.py:46-57 | `replace` is the URL split on `github.com` and joined with `api.github.com/repos` |
| Updates.RepoApiUrls | scr/updatesWindow.py:46-57 | for `p + "github.com" + q`, the API URLs are `p + "api.github.com/repos" + q`, plus `/releases/latest` or `/commits` |
| Updates.HttpsRepoApiUrls | scr/updatesWindow.py:46-57 | the same for `https://github.com/<path>` |
| Updates.ParseIfTruthy | scr/updatesWindow.py:71-78 | a date is parsed only when it is truthy, and a parse error is the exception raised |
| Updates.Announce | scr/updatesWindow.py:82-87 | an entry exists exactly when one flag holds; its text is chosen by priority (both, release, commits) and its URL is the repository's |
| Updates.Examine | scr/updatesWindow.py:44-90 | an exception gives an error and no entry; otherwise the entry follows `Announce` of the two flags |
| Updates.ReleaseRule | scr/updatesWindow.py:47-74 | `has_new_release` holds exactly when a 200 reply has a truthy `published_at`, and either a tag that differs from `current_release` or a later date |
| Updates.CommitRule | scr/updatesWindow.py:58-80 | `has_new_commit` holds exactly when a 200 reply has a truthy first commit date later than the file |
| Updates.CheckMod | scr/updatesWindow.py:44-90 | the `try` block with its flags computes `Examine` |
| Updates.ErrorStatusDistinct | scr/updatesWindow.py:90-104 | the error text differs from every other status |
| Updates.FirstWithoutFile | scr/updatesWindow.py:38-41 | the first mod without a `file` entry, where the `KeyError` stops the check |
| Updates.AllHaveFilesAppend | scr/updatesWindow.py:38-41 | the mods of a joined list all have files exactly when those of both parts do |
| Updates.LoopedAppend | scr/updatesWindow.py:38-90 | the loop over `a + b` is the loop over `b` after `a`: an exception does not stop the later mods |
| Updates.LoopedStatus | scr/updatesWindow.py:43-90 | the status after the loop is the error of the last mod that raised, or unchanged when none did |
| Updates.EntriesInOrder | scr/updatesWindow.py:37-87 | each entry comes from its own mod with a `github` URL, at most one per mod, in the mods' order |
| Updates.UpdateChecker.constructor | scr/updatesWindow.py:9-20 | the status starts as "Checking for updates..." with an empty list |
| Updates.UpdateChecker.CheckForUpdates | scr/updatesWindow.py:36-104 | a missing `file` stops the check with its status and list as they were; otherwise the list is the entries with "Updates found…", or "All mods are up to date." when there are none, and never an error text |

## Left out

- The Qt widgets, layouts and signals are left out; the model keeps only the data they show. So are the `initUI` methods, `ConfigDialog` (scr/configWindow.py) and the entry point with its theme (launcher.py).
- `open_config_dialog`, `on_item_changed`, `preset_manager`, `open_about_dialog`, the main window's `check_for_updates` stub and `populate_preset_list` are left out: they only move values between widgets and call the modelled methods.
- `on_item_clicked` and `webbrowser.open` are left out: opening a browser is an outside effect.
- `subprocess.run` and every `print` are left out; only the command string is modelled.
- File reads and writes are modelled as contents; the model has no `os.makedirs` and no write failures. Text encodings and `errors='ignore'` are not modelled; a manifest that raises while being read is one whose read failed.
- The `os.listdir` order is an input. So is the Qt iterator's visiting order, which drag and drop can change.
- JSON is modelled as the decoded document: the indentation of `json.dump` and key order are left out. A top level that is not an object is its own case, `NotAnObject`: both loaders treat it as an unreadable file, and `saveSettings` raises on it (see its row).
- Launcher.GameLauncher.constructor: requires the stored `checked_mods`, `game_root` and `presets` to have the types the code uses. With other JSON values the source fails in ways the model does not follow. The same holds for LoadSettings and for the preset dialog's methods.
- Presets.PresetManager.LoadSettings: a top level that is a list or a string holding `"presets"` passes the `in` test, is kept as the settings, and makes later preset operations raise. The model loads every non-object top level as `{'presets': {}}`.
- Launcher.GameLauncher.SetCheckedMods: requires the traversal to visit each tree item at most once, as the Qt iterator does. Presets.PresetManager.LoadSelectedPreset has the same requirement.
- Launcher.GameLauncher.ApplyCheckedMods: visits the items as a set, not in the iterator's order. The resulting states do not depend on the order.
- ModRegistry.PlacementsWellFormed: states where each item is put, not that every item can be reached from a top-level one. With a dependency cycle, what `addChild` does is up to Qt.
- Presets.PresetManager.DeleteSelectedPreset: requires the selected item to name an existing preset. The list only shows presets, and a stale item would raise `KeyError`. The same holds for Presets.PresetManager.LoadSelectedPreset.
- SettingsStore.SettingsManager.SaveSettings: takes string values. `str(value)` of other Python values is not modelled.
- IniSettings.RoundTrip: requires well-formed settings: names, keys and values free of line breaks, names and keys free of `=`, names with no bracket at either end, keys and values with no surrounding spaces, keys not starting with `#`, and entries only under a non-empty name. The source writes other settings too, but they do not read back.
- SettingsStore.SaveThenLoad: requires the new values to be stripped and free of line breaks, for the same reason.
- IniSettings.FileLines: models the universal newlines of text mode on reading. The CR LF that Windows writes back is not modelled, and it reads the same.
- `update_setting_in_file` (scr/settingsmanager.py:75-78) is not modelled. It hands the whole category map to `save_settings`, so it iterates category names as keys, and its "without altering others" promise is not one the code keeps.
- Updates.Examine: the network, `os.path.getmtime`, `os.path.join` and `datetime.strptime` are parameters of `World`. An exception is represented only by its message. A JSON body that is not an object, and a non-string tag, are not modelled.
- Updates.UpdateChecker.CheckForUpdates: the exception branch of the display step (scr/updatesWindow.py:101-102) is left out. Filling a list widget with strings does not raise.

