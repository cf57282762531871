/** `GameLauncher` of the main window: the mod registry and tree it builds
    from the mod folder, the check states of the tree's items, the user
    directory, and the settings file it reads and rewrites. */
module Launcher {
  import opened Wrappers
  import opened PyText
  import opened Manifest
  import opened ModRegistry
  import opened Launch
  import opened Config

  /** What `os.listdir` of `<root>/mod` yields for each game root, with each
      file's text, or `None` when that folder does not exist. */
  type FileSystem = string -> Option<Listing>

  class GameLauncher {
    var gameRoot: string
    /** The keys of the three registry dicts in insertion order. */
    var modOrder: seq<string>
    var modFiles: map<string, string>
    var modDependencies: map<string, seq<string>>
    var modUserDirs: map<string, string>
    /** The items of `mod_tree`, one per name, with where each was put. */
    var tree: map<string, Placement>
    /** The names of the items whose check state is `Checked`. */
    var checked: set<string>
    var userDir: string
    /** `self.settings_file`, fixed in `__init__`: only `open_config_dialog`,
        which is not part of this model, points it at another root. */
    const settingsFile: SettingsFile

    function Registered(): Registry
      reads this
    {
      Registry(modOrder, modFiles, modDependencies, modUserDirs)
    }

    /** The registry is consistent, every tree item is a registered mod, and
        only tree items are checked. */
    predicate Valid()
      reads this
    {
      ModRegistry.Valid(Registered()) && tree.Keys <= modFiles.Keys && checked <= tree.Keys
    }

    /** `traversal` is an order in which `QTreeWidgetItemIterator` can visit the
        tree: each item at most once. Items under a dependency cycle may be
        missing, and drag and drop may have reordered the rest. */
    predicate IsTraversal(traversal: seq<string>)
      reads this
    {
      Distinct(traversal) && forall i :: 0 <= i < |traversal| ==> traversal[i] in tree
    }

    /** What `get_checked_mods` returns for this traversal. */
    function Selected(traversal: seq<string>): seq<string>
      reads this
    {
      SelectedInOrder(traversal, checked, modFiles.Keys)
    }

    /** `__init__` up to and including `loadSettings()`: the game root starts at
        the default, the mods are loaded from there, and then the settings
        file may move the root, reload the mods and restore the check
        states. The user-directory rule of its last line is `InitUserDir`. */
    constructor(fs: FileSystem, settingsFile: SettingsFile)
      requires WellTypedFile(settingsFile.content)
      ensures Valid()
      ensures this.settingsFile == settingsFile
      ensures gameRoot == StoredGameRoot(settingsFile.content, DefaultGameRoot)
      ensures fs(gameRoot).Some? ==>
        Registered() == Scan(fs(gameRoot).value) && tree == Placements(Registered())
      ensures fs(gameRoot).None? ==> tree == map[]
      ensures fs(gameRoot).None? && fs(DefaultGameRoot).Some? ==> Registered() == Scan(fs(DefaultGameRoot).value)
      ensures fs(gameRoot).None? && fs(DefaultGameRoot).None? ==> Registered() == EmptyRegistry
      ensures checked == set n | n in tree && n in StoredCheckedMods(settingsFile.content)
      ensures userDir == ""
    {
      gameRoot := DefaultGameRoot;
      modOrder, modFiles, modDependencies, modUserDirs := [], map[], map[], map[];
      tree, checked, userDir := map[], {}, "";
      this.settingsFile := settingsFile;
      new;
      LoadMods(fs);
      LoadSettings(fs);
    }

    /** `load_mods`. A missing mod folder empties the tree but leaves the
        registry dicts as they were; otherwise the first pass rebuilds the
        registry from the listing and the second pass places every registered
        mod, all items unchecked. */
    method LoadMods(fs: FileSystem)
      requires Valid()
      modifies this
      ensures Valid()
      ensures gameRoot == old(gameRoot) && userDir == old(userDir)
      ensures fs(gameRoot).None? ==> Registered() == old(Registered()) && tree == map[]
      ensures fs(gameRoot).Some? ==>
        Registered() == Scan(fs(gameRoot).value) && tree == Placements(Registered())
      ensures checked == {}
    {
      var listing := fs(gameRoot);
      if listing.None? {
        tree := map[];
        checked := {};
        return;
      }
      var r := ReadModFolder(listing.value);
      ScanValid(listing.value);
      var placements := PlaceMods(r);
      modOrder, modFiles, modDependencies, modUserDirs := r.order, r.files, r.deps, r.userDirs;
      tree := placements;
      checked := {};
    }

    /** `get_checked_mods`: the checked items that are registered mods, in
        traversal order, and as a side effect the user directory of the last
        of them whose `user_dir` is non-empty (or `""`). */
    method GetCheckedMods(traversal: seq<string>) returns (mods: seq<string>)
      requires Valid()
      modifies this`userDir
      ensures mods == Selected(traversal)
      ensures userDir == LastNonEmptyUserDir(mods, modUserDirs)
    {
      var lastUserDirMod;
      mods, lastUserDirMod := CollectChecked(traversal, checked, modFiles.Keys, modUserDirs);
      if lastUserDirMod.Some? {
        userDir := modUserDirs[lastUserDirMod.value];
      } else {
        userDir := "";
      }
    }

    /** `set_checked_mods`: every visited item is checked exactly when its
        name is in `names`. */
    method SetCheckedMods(traversal: seq<string>, names: seq<string>)
      requires Valid() && IsTraversal(traversal)
      modifies this`checked
      ensures Valid()
      ensures checked == CheckedAfterSet(old(checked), traversal, names)
    {
      var i := 0;
      while i < |traversal|
        invariant 0 <= i <= |traversal|
        invariant checked == CheckedAfterSet(old(checked), traversal[..i], names)
      {
        var name := traversal[i];
        assert traversal[..i + 1] == traversal[..i] + [name];
        if name in names {
          checked := checked + {name};
        } else {
          checked := checked - {name};
        }
        i := i + 1;
      }
      assert traversal[..i] == traversal;
    }

    /** `loadSettings`: the first read of the settings file may move the game
        root (to its `game_root` entry, or to the default when it has none);
        the mods are reloaded from the root now in force; and when the file
        exists it is read a second time and every item is checked exactly
        when its name is among the stored `checked_mods`. */
    method LoadSettings(fs: FileSystem)
      requires Valid() && WellTypedFile(settingsFile.content)
      modifies this
      ensures Valid()
      ensures gameRoot == StoredGameRoot(settingsFile.content, old(gameRoot))
      ensures fs(gameRoot).None? ==> Registered() == old(Registered()) && tree == map[]
      ensures fs(gameRoot).Some? ==>
        Registered() == Scan(fs(gameRoot).value) && tree == Placements(Registered())
      ensures checked == set n | n in tree && n in StoredCheckedMods(settingsFile.content)
      ensures userDir == old(userDir)
    {
      var f := settingsFile.content;
      var checkedMods: seq<string>;
      match f {
        case Parsed(doc) =>
          checkedMods := if CheckedModsKey in doc then doc[CheckedModsKey].names else [];
          gameRoot := if GameRootKey in doc then doc[GameRootKey].text else DefaultGameRoot;
        case Unreadable =>
          checkedMods := [];
        case NotAnObject =>
          // `settings.get` raises `AttributeError`, which `except Exception` catches.
          checkedMods := [];
        case Missing =>
          checkedMods := [];
      }

      LoadMods(fs);

      assert gameRoot == StoredGameRoot(f, old(gameRoot));

      if !f.Missing? {
        // The second read gives the same names as the first.
        checkedMods := StoredCheckedMods(f);
        ApplyCheckedMods(checkedMods);
      }
    }

    /** The loop at the end of `loadSettings`: every item, in whatever order the
        iterator visits them, is checked exactly when its name is in `names`. */
    method ApplyCheckedMods(names: seq<string>)
      requires Valid()
      modifies this`checked
      ensures Valid()
      ensures checked == set n | n in tree && n in names
    {
      var rest := tree.Keys;
      while rest != {}
        invariant rest <= tree.Keys && checked <= tree.Keys
        invariant forall n | n in tree && n !in rest :: n in checked <==> n in names
        decreases rest
      {
        var name :| name in rest;
        if name in names {
          checked := checked + {name};
        } else {
          checked := checked - {name};
        }
        rest := rest - {name};
      }
    }

    /** `saveSettings`: the stored document (or `{}` when the file is missing
        or cannot be read) with `checked_mods` set to the current selection,
        written back to the file. When the file holds JSON whose top level is
        not an object, `settings['checked_mods'] = ...` raises `TypeError`
        outside the `try`: nothing is written and `raised` reports the
        exception leaving the method. */
    method SaveSettings(traversal: seq<string>) returns (raised: bool)
      requires Valid()
      modifies this`userDir, settingsFile
      ensures raised <==> old(settingsFile.content).NotAnObject?
      ensures raised ==> settingsFile.content == old(settingsFile.content)
      ensures !raised ==>
        settingsFile.content == Parsed(WithCheckedMods(SaveBase(old(settingsFile.content)), Selected(traversal)))
      ensures userDir == LastNonEmptyUserDir(Selected(traversal), modUserDirs)
    {
      var mods := GetCheckedMods(traversal);
      var settings: ConfigDoc := map[];
      match settingsFile.content {
        case Parsed(doc) =>
          settings := doc;
        case NotAnObject =>
          return true;
        case Missing =>
        case Unreadable =>
      }
      settings := settings[CheckedModsKey := NameList(mods)];
      settingsFile.content := Parsed(settings);
      raised := false;
    }

    /** `start_game`: the command for the current selection, and a save of the
        settings when the selection is not empty. The command is run before
        the save, so when the save raises (`raised`) the game has still been
        started with `command`. */
    method StartGame(traversal: seq<string>) returns (command: string, raised: bool)
      requires Valid()
      modifies this`userDir, settingsFile
      ensures command == LaunchCommand(gameRoot, FilesOf(Selected(traversal), modFiles))
      ensures raised <==> Selected(traversal) != [] && old(settingsFile.content).NotAnObject?
      ensures Selected(traversal) != [] && !raised ==>
        settingsFile.content == Parsed(WithCheckedMods(SaveBase(old(settingsFile.content)), Selected(traversal)))
      ensures Selected(traversal) == [] || raised ==> settingsFile.content == old(settingsFile.content)
      ensures userDir == LastNonEmptyUserDir(Selected(traversal), modUserDirs)
    {
      var selectedMods := GetCheckedMods(traversal);
      assert forall i :: 0 <= i < |selectedMods| ==> selectedMods[i] in modFiles;
      var files := FilesOf(selectedMods, modFiles);
      command := LaunchCommand(gameRoot, files);
      raised := false;
      if selectedMods != [] {
        raised := SaveSettings(traversal);
      }
      assert selectedMods == Selected(traversal);
    }

    /** The last line of `__init__`: the user directory of the last selected
        mod, even when that directory is empty. */
    method InitUserDir(traversal: seq<string>)
      requires Valid()
      modifies this`userDir
      ensures userDir == InitialUserDir(Selected(traversal), modUserDirs)
    {
      var selectedMods := GetCheckedMods(traversal);
      if selectedMods != [] {
        var again := GetCheckedMods(traversal);
        var lastMod := again[|again| - 1];
        userDir := if lastMod in modUserDirs then modUserDirs[lastMod] else "";
      } else {
        userDir := "";
      }
    }
  }
}
