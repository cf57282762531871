/** The pure rules behind the launcher's selection, user directory and launch
    command: which mods count as selected, which user directory they imply,
    and the shell command `start_game` hands to the system. */
module Launch {
  import opened Wrappers
  import opened PyText

  /** The checked items that are registered mods, in the order the tree
      iterator visits them: the list `get_checked_mods` builds. */
  function SelectedInOrder(traversal: seq<string>, checked: set<string>, registered: set<string>): (selected: seq<string>)
    ensures forall i :: 0 <= i < |selected| ==> selected[i] in checked && selected[i] in registered
  {
    var keep := (n: string) => n in checked && n in registered;
    var id := (n: string) => n;
    var s := Comprehension(traversal, keep, id);
    ComprehensionFrom(traversal, keep, id);
    assert forall i :: 0 <= i < |s| ==> s[i] in s;
    s
  }

  /** Visiting one more item appends it to the selection exactly when it is
      checked and registered. */
  lemma SelectedInOrderSnoc(traversal: seq<string>, n: string, checked: set<string>, registered: set<string>)
    ensures SelectedInOrder(traversal + [n], checked, registered)
      == SelectedInOrder(traversal, checked, registered) + (if n in checked && n in registered then [n] else [])
  {
    var keep := (x: string) => x in checked && x in registered;
    var id := (x: string) => x;
    ComprehensionSnoc(traversal, n, keep, id);
  }

  /** The loop of `get_checked_mods` over the items: the selection in
      traversal order, and `last_user_dir_mod`, the last selected mod whose
      `user_dir` is non-empty. */
  method CollectChecked(traversal: seq<string>, checked: set<string>, registered: set<string>, userDirs: map<string, string>)
    returns (mods: seq<string>, lastUserDirMod: Option<string>)
    requires registered <= userDirs.Keys
    ensures mods == SelectedInOrder(traversal, checked, registered)
    ensures lastUserDirMod.None? ==> LastNonEmptyUserDir(mods, userDirs) == ""
    ensures lastUserDirMod.Some? ==>
      && lastUserDirMod.value in mods && userDirs[lastUserDirMod.value] != ""
      && LastNonEmptyUserDir(mods, userDirs) == userDirs[lastUserDirMod.value]
  {
    mods := [];
    lastUserDirMod := None;
    var i := 0;
    while i < |traversal|
      invariant 0 <= i <= |traversal|
      invariant mods == SelectedInOrder(traversal[..i], checked, registered)
      invariant lastUserDirMod.None? ==> LastNonEmptyUserDir(mods, userDirs) == ""
      invariant lastUserDirMod.Some? ==>
        && lastUserDirMod.value in mods && userDirs[lastUserDirMod.value] != ""
        && LastNonEmptyUserDir(mods, userDirs) == userDirs[lastUserDirMod.value]
    {
      var name := traversal[i];
      SelectedInOrderSnoc(traversal[..i], name, checked, registered);
      assert traversal[..i + 1] == traversal[..i] + [name];
      if name in checked {
        if name in registered {
          var before := mods;
          mods := mods + [name];
          assert mods[..|mods| - 1] == before;
          if userDirs[name] != "" {
            lastUserDirMod := Some(name);
          }
        }
      }
      i := i + 1;
    }
    assert traversal[..i] == traversal;
  }

  /** The selection holds exactly the checked registered names of the
      traversal, and keeps the traversal's order. */
  lemma SelectedInOrderMembers(traversal: seq<string>, checked: set<string>, registered: set<string>, n: string)
    ensures n in SelectedInOrder(traversal, checked, registered) <==>
      n in traversal && n in checked && n in registered
  {
    var keep := (x: string) => x in checked && x in registered;
    var id := (x: string) => x;
    ComprehensionFrom(traversal, keep, id);
    if n in traversal && n in checked && n in registered {
      var k :| 0 <= k < |traversal| && traversal[k] == n;
      ComprehensionHas(traversal, keep, id, k);
    }
  }

  /** The user directory of the last selected mod whose `user_dir` is
      non-empty, or `""` when there is none: the rule `get_checked_mods`
      applies through `last_user_dir_mod`. */
  function LastNonEmptyUserDir(selected: seq<string>, userDirs: map<string, string>): (dir: string)
    requires forall i :: 0 <= i < |selected| ==> selected[i] in userDirs
  {
    if selected == [] then ""
    else if userDirs[selected[|selected| - 1]] != "" then userDirs[selected[|selected| - 1]]
    else LastNonEmptyUserDir(selected[..|selected| - 1], userDirs)
  }

  lemma {:induction false} LastNonEmptyUserDirEmpty(selected: seq<string>, userDirs: map<string, string>)
    requires forall i :: 0 <= i < |selected| ==> selected[i] in userDirs
    ensures LastNonEmptyUserDir(selected, userDirs) == "" <==>
      forall i :: 0 <= i < |selected| ==> userDirs[selected[i]] == ""
  {
    if selected != [] {
      var n := |selected| - 1;
      var init := selected[..n];
      assert forall i :: 0 <= i < n ==> init[i] == selected[i];
      LastNonEmptyUserDirEmpty(init, userDirs);
    }
  }

  lemma {:induction false} LastNonEmptyUserDirLast(selected: seq<string>, userDirs: map<string, string>)
    requires forall i :: 0 <= i < |selected| ==> selected[i] in userDirs
    ensures LastNonEmptyUserDir(selected, userDirs) != "" ==>
      exists i :: 0 <= i < |selected| && LastNonEmptyUserDir(selected, userDirs) == userDirs[selected[i]]
        && forall j :: i < j < |selected| ==> userDirs[selected[j]] == ""
  {
    if selected != [] {
      var n := |selected| - 1;
      var init := selected[..n];
      assert forall i :: 0 <= i < n ==> init[i] == selected[i];
      if userDirs[selected[n]] != "" {
        assert LastNonEmptyUserDir(selected, userDirs) == userDirs[selected[n]];
      } else if LastNonEmptyUserDir(init, userDirs) != "" {
        LastNonEmptyUserDirLast(init, userDirs);
        var i :| 0 <= i < n && LastNonEmptyUserDir(init, userDirs) == userDirs[init[i]]
          && forall j :: i < j < n ==> userDirs[init[j]] == "";
        assert LastNonEmptyUserDir(selected, userDirs) == userDirs[selected[i]];
      }
    }
  }

  /** The directory is empty exactly when every selected mod declares an empty
      one; otherwise it is the directory of a selected mod after which no
      selected mod declares a non-empty one. */
  lemma {:induction false} LastNonEmptyUserDirIs(selected: seq<string>, userDirs: map<string, string>)
    requires forall i :: 0 <= i < |selected| ==> selected[i] in userDirs
    ensures LastNonEmptyUserDir(selected, userDirs) == "" <==>
      forall i :: 0 <= i < |selected| ==> userDirs[selected[i]] == ""
    ensures LastNonEmptyUserDir(selected, userDirs) != "" ==>
      exists i :: 0 <= i < |selected| && LastNonEmptyUserDir(selected, userDirs) == userDirs[selected[i]]
        && forall j :: i < j < |selected| ==> userDirs[selected[j]] == ""
  {
    LastNonEmptyUserDirEmpty(selected, userDirs);
    LastNonEmptyUserDirLast(selected, userDirs);
  }

  /** The user directory `__init__` sets: that of the last selected mod, even
      when it is empty, and `""` with nothing selected. */
  function InitialUserDir(selected: seq<string>, userDirs: map<string, string>): (dir: string)
    ensures selected == [] ==> dir == ""
    ensures selected != [] && selected[|selected| - 1] in userDirs ==> dir == userDirs[selected[|selected| - 1]]
    ensures selected != [] && selected[|selected| - 1] !in userDirs ==> dir == ""
  {
    if selected == [] then ""
    else (if selected[|selected| - 1] in userDirs then Some(userDirs[selected[|selected| - 1]]) else None).GetOr("")
  }

  /** The two rules agree whenever the last selected mod declares a non-empty
      directory or nothing is selected. */
  lemma UserDirRulesAgree(selected: seq<string>, userDirs: map<string, string>)
    requires forall i :: 0 <= i < |selected| ==> selected[i] in userDirs
    requires selected == [] || userDirs[selected[|selected| - 1]] != ""
    ensures InitialUserDir(selected, userDirs) == LastNonEmptyUserDir(selected, userDirs)
  {
  }

  /** ... and they part when the last selected mod declares none: with `A`
      (directory `"ModA"`) and then `B` (no directory) selected, `__init__`
      leaves the user directory empty while `get_checked_mods` picks `"ModA"`. */
  lemma UserDirRulesDiffer()
    ensures var dirs := map["A" := "ModA", "B" := ""];
      InitialUserDir(["A", "B"], dirs) == "" && LastNonEmptyUserDir(["A", "B"], dirs) == "ModA"
  {
    var dirs := map["A" := "ModA", "B" := ""];
    assert ["A", "B"][..1] == ["A"];
    assert ["A"][..0] == [];
  }

  /** A later mod with an empty directory does not hide an earlier one: for
      the selection `[C, B, A]` where only `B` declares `"ModB"`, the user
      directory is `"ModB"`. */
  lemma LastNonEmptyUserDirSkipsEmpty()
    ensures LastNonEmptyUserDir(["C", "B", "A"], map["A" := "", "B" := "ModB", "C" := ""]) == "ModB"
  {
    var dirs := map["A" := "", "B" := "ModB", "C" := ""];
    assert ["C", "B", "A"][..2] == ["C", "B"];
  }

  /** The check states after `set_checked_mods(names)`: every visited item is
      checked exactly when its name is in `names`; items the iterator does not
      visit keep their state. */
  function CheckedAfterSet(checked: set<string>, traversal: seq<string>, names: seq<string>): (r: set<string>)
    ensures forall n :: n in traversal ==> (n in r <==> n in names)
    ensures forall n :: n !in traversal ==> (n in r <==> n in checked)
  {
    (set n | n in checked && n !in traversal) + (set n | n in traversal && n in names)
  }

  /** Only membership in the list given to `set_checked_mods` matters: a later
      `get_checked_mods` returns the registered names of that list in tree
      order, whatever order the list had. */
  lemma SetThenSelect(checked: set<string>, traversal: seq<string>, names: seq<string>, registered: set<string>)
    ensures SelectedInOrder(traversal, CheckedAfterSet(checked, traversal, names), registered)
      == Comprehension(traversal, n => n in names && n in registered, n => n)
  {
    var after := CheckedAfterSet(checked, traversal, names);
    ComprehensionSameKeep(traversal, n => n in after && n in registered, n => n in names && n in registered);
  }

  lemma {:induction false} ComprehensionSameKeep(xs: seq<string>, k1: string -> bool, k2: string -> bool)
    requires forall i :: 0 <= i < |xs| ==> k1(xs[i]) == k2(xs[i])
    ensures Comprehension(xs, k1, n => n) == Comprehension(xs, k2, n => n)
  {
    if xs != [] {
      assert forall i :: 0 <= i < |xs[1..]| ==> xs[1..][i] == xs[i + 1];
      ComprehensionSameKeep(xs[1..], k1, k2);
    }
  }

  /** With the tree holding `A` above `B` and `["B", "A"]` applied, the
      selection reads back as `["A", "B"]`: tree order, not the list's order. */
  lemma SetThenSelectTreeOrder()
    ensures SelectedInOrder(["A", "B"], CheckedAfterSet({}, ["A", "B"], ["B", "A"]), {"A", "B"}) == ["A", "B"]
  {
    var after := CheckedAfterSet({}, ["A", "B"], ["B", "A"]);
    assert "A" in after && "B" in after;
    assert ["A", "B"][1..] == ["B"];
  }

  /** `cd "<root>" && v2game.exe`: the command with no mods. */
  function BaseCommand(root: string): string {
    "cd \"" + root + "\" && v2game.exe"
  }

  /** `-mod=mod/<file>`: the argument naming one mod file. */
  function ModFlag(file: string): string {
    "-mod=mod/" + file
  }

  /** The arguments for the selected mods' files, in selection order. */
  function ModFlags(files: seq<string>): (flags: seq<string>)
    ensures |flags| == |files|
    ensures forall i :: 0 <= i < |files| ==> flags[i] == ModFlag(files[i])
  {
    if files == [] then [] else [ModFlag(files[0])] + ModFlags(files[1..])
  }

  /** The command `start_game` runs: the base command, then a space and the
      space-joined mod arguments when there are any. */
  function LaunchCommand(root: string, files: seq<string>): string {
    if files == [] then BaseCommand(root)
    else BaseCommand(root) + " " + Join(ModFlags(files), " ")
  }

  lemma ModFlagsLackSpace(files: seq<string>)
    requires forall i :: 0 <= i < |files| ==> ' ' !in files[i]
    ensures forall i :: 0 <= i < |ModFlags(files)| ==> ' ' !in ModFlags(files)[i]
  {
    forall i | 0 <= i < |files| ensures ' ' !in ModFlag(files[i]) {
      var prefix := "-mod=mod/";
      assert forall k :: 0 <= k < |prefix| ==> prefix[k] != ' ';
      assert ModFlag(files[i]) == prefix + files[i];
    }
  }

  lemma CommandSuffix(head: string, args: string)
    ensures StartsWith(head + args, head)
    ensures (head + args)[|head|..] == args
  {
    assert (head + args)[..|head|] == head;
  }

  /** With no mods the command is exactly the base command; with mods it is
      the base command and a space, and what follows splits at spaces back into
      one `-mod=mod/<file>` argument per file, in order, whenever no file name
      holds a space. */
  lemma LaunchCommandArguments(root: string, files: seq<string>)
    requires forall i :: 0 <= i < |files| ==> ' ' !in files[i]
    ensures files == [] ==> LaunchCommand(root, files) == BaseCommand(root)
    ensures files != [] ==>
      && StartsWith(LaunchCommand(root, files), BaseCommand(root) + " ")
      && SplitOn(LaunchCommand(root, files)[|BaseCommand(root)| + 1..], " ") == ModFlags(files)
  {
    if files != [] {
      var head := BaseCommand(root) + " ";
      var args := Join(ModFlags(files), " ");
      assert LaunchCommand(root, files) == head + args;
      CommandSuffix(head, args);
      ModFlagsLackSpace(files);
      SplitJoin(ModFlags(files), ' ');
    }
  }

  /** The file names one argument per selected mod refers to: `mod_files[mod]`. */
  function FilesOf(selected: seq<string>, files: map<string, string>): (r: seq<string>)
    requires forall i :: 0 <= i < |selected| ==> selected[i] in files
    ensures |r| == |selected|
    ensures forall i :: 0 <= i < |selected| ==> r[i] == files[selected[i]]
  {
    if selected == [] then [] else [files[selected[0]]] + FilesOf(selected[1..], files)
  }
}
