/** The first pass of `GameLauncher.load_mods` as data: the mod folder's
    listing is read entry by entry and every usable manifest is indexed by the
    name it declares; then the placement rule of the second pass decides where
    each registered mod hangs in the tree. */
module ModRegistry {
  import opened Wrappers
  import opened PyText
  import opened Manifest

  /** What `os.listdir` of the mod folder yields, in its order, with the text
      each file holds: pairs `(file name, content)`. The content is what
      `read()` returns in text mode, so `\r\n` and a lone `\r` have already
      become `\n`. */
  type Listing = seq<(string, string)>

  /** `mod_files`, `mod_dependencies` and `mod_user_dirs`, which always share
      their keys, with the insertion order of those keys as `order` (Python
      dicts iterate in insertion order, and re-assigning a key keeps its place). */
  datatype Registry = Registry(
    order: seq<string>,
    files: map<string, string>,
    deps: map<string, seq<string>>,
    userDirs: map<string, string>)

  /** The three dicts right after `clear()`. */
  const EmptyRegistry := Registry([], map[], map[], map[])

  predicate Distinct<T(==)>(s: seq<T>) {
    forall i, j :: 0 <= i < j < |s| ==> s[i] != s[j]
  }

  /** The three dicts have the same keys, `order` lists each of them once,
      and no key is the empty name. */
  predicate Valid(r: Registry) {
    && Distinct(r.order)
    && (forall i :: 0 <= i < |r.order| ==> r.order[i] in r.files)
    && (forall n | n in r.files :: n in r.order)
    && r.deps.Keys == r.files.Keys
    && r.userDirs.Keys == r.files.Keys
    && "" !in r.files
  }

  /** Only names ending in `.mod` are opened. */
  predicate IsModFile(file: string) {
    EndsWith(file, ".mod")
  }

  /** The manifest a listing entry contributes: none for a file that is not a
      `.mod` file, that raises while being read, or that declares no name. */
  function Declared(entry: (string, string)): Option<Manifest> {
    if !IsModFile(entry.0) then None
    else
      match ParseManifest(entry.1)
      case Err(_) => None
      case Ok(m) => if m.name != "" then Some(m) else None
  }

  /** `mod_files[name] = file`, `mod_dependencies[name] = ...`, `mod_user_dirs[name] = ...`. */
  function Register(r: Registry, file: string, m: Manifest): Registry {
    Registry(
      if m.name in r.files then r.order else r.order + [m.name],
      r.files[m.name := file],
      r.deps[m.name := m.dependencies],
      r.userDirs[m.name := m.userDir])
  }

  /** The effect of one listing entry on the registry. */
  function ScanStep(r: Registry, entry: (string, string)): Registry {
    match Declared(entry)
    case None => r
    case Some(m) => Register(r, entry.0, m)
  }

  /** The registry after the first pass over `listing`. */
  function Scan(listing: Listing): Registry {
    if listing == [] then EmptyRegistry
    else ScanStep(Scan(listing[..|listing| - 1]), listing[|listing| - 1])
  }

  /** The names the usable entries declare, in listing order, repeats kept. */
  function DeclaredNames(listing: Listing): seq<string> {
    if listing == [] then []
    else
      var init := DeclaredNames(listing[..|listing| - 1]);
      match Declared(listing[|listing| - 1])
      case None => init
      case Some(m) => init + [m.name]
  }

  /** Each name once, in the order of its first appearance. */
  function FirstAppearances(names: seq<string>): seq<string> {
    if names == [] then []
    else
      var init := FirstAppearances(names[..|names| - 1]);
      if names[|names| - 1] in init then init else init + [names[|names| - 1]]
  }

  lemma RegisterValid(r: Registry, file: string, m: Manifest)
    requires Valid(r) && m.name != ""
    ensures Valid(Register(r, file, m))
    ensures m.name in Register(r, file, m).files
  {
    var r' := Register(r, file, m);
    if m.name !in r.files {
      forall i, j | 0 <= i < j < |r'.order| ensures r'.order[i] != r'.order[j] {
        if j == |r.order| {
          assert r.order[i] in r.files;
        }
      }
    }
  }

  /** The registry the first pass builds is always consistent. */
  lemma {:induction false} ScanValid(listing: Listing)
    ensures Valid(Scan(listing))
  {
    if listing != [] {
      var init := listing[..|listing| - 1];
      ScanValid(init);
      match Declared(listing[|listing| - 1])
      case None =>
      case Some(m) => RegisterValid(Scan(init), listing[|listing| - 1].0, m);
    }
  }

  /** A name is registered exactly when some usable entry declares it. */
  lemma {:induction false} ScanRegistered(listing: Listing, n: string)
    ensures n in Scan(listing).files <==>
      exists i :: 0 <= i < |listing| && Declared(listing[i]).Some? && Declared(listing[i]).value.name == n
  {
    if listing != [] {
      var last := |listing| - 1;
      var init := listing[..last];
      ScanRegistered(init, n);
      assert forall i :: 0 <= i < last ==> init[i] == listing[i];
      if exists i :: 0 <= i < |listing| && Declared(listing[i]).Some? && Declared(listing[i]).value.name == n {
        var i :| 0 <= i < |listing| && Declared(listing[i]).Some? && Declared(listing[i]).value.name == n;
        if i < last {
          assert Declared(init[i]).Some? && Declared(init[i]).value.name == n;
        }
      }
    }
  }

  /** The last usable entry that declares a name decides that name's file,
      dependencies and user directory: later manifests overwrite earlier ones. */
  lemma {:induction false} ScanLastWins(listing: Listing, i: int)
    requires 0 <= i < |listing| && Declared(listing[i]).Some?
    requires forall j :: i < j < |listing| ==>
      Declared(listing[j]).None? || Declared(listing[j]).value.name != Declared(listing[i]).value.name
    ensures var m := Declared(listing[i]).value;
      && m.name in Scan(listing).files && m.name in Scan(listing).deps && m.name in Scan(listing).userDirs
      && Scan(listing).files[m.name] == listing[i].0
      && Scan(listing).deps[m.name] == m.dependencies
      && Scan(listing).userDirs[m.name] == m.userDir
  {
    var last := |listing| - 1;
    var init := listing[..last];
    if i < last {
      assert forall j :: 0 <= j < last ==> init[j] == listing[j];
      ScanLastWins(init, i);
    }
  }

  /** An entry that contributes nothing (not a `.mod` file, a manifest that
      raises, or no name) does not disturb what the other entries contribute. */
  lemma {:induction false} ScanSkips(before: Listing, entry: (string, string), after: Listing)
    requires Declared(entry).None?
    ensures Scan(before + [entry] + after) == Scan(before + after)
    decreases |after|
  {
    if after == [] {
      assert before + [entry] + after == before + [entry];
      assert (before + [entry])[..|before|] == before;
      assert before + after == before;
    } else {
      var a := after[..|after| - 1];
      var x := after[|after| - 1];
      ScanSkips(before, entry, a);
      assert before + [entry] + after == (before + [entry] + a) + [x];
      assert (before + [entry] + after)[..|before + [entry] + after| - 1] == before + [entry] + a;
      assert before + after == (before + a) + [x];
      assert (before + after)[..|before + after| - 1] == before + a;
    }
  }

  /** The registry's key order is the order in which names first appear
      among the usable entries. */
  lemma {:induction false} ScanOrder(listing: Listing)
    ensures Scan(listing).order == FirstAppearances(DeclaredNames(listing))
  {
    if listing != [] {
      var init := listing[..|listing| - 1];
      ScanOrder(init);
      ScanValid(init);
      match Declared(listing[|listing| - 1])
      case None =>
      case Some(m) =>
        var names := DeclaredNames(init) + [m.name];
        assert names[..|names| - 1] == DeclaredNames(init);
    }
  }

  /** Where a mod item is put: at top level, or under the item of another mod. */
  datatype Placement = TopLevel | ChildOf(parent: string)

  /** The second pass's rule for one mod: the first declared dependency that
      is a registered mod becomes its parent; with no dependencies, or none
      that resolves, the mod is top-level. */
  function PlacementOf(deps: seq<string>, registered: set<string>): Placement {
    if deps == [] then TopLevel
    else if deps[0] in registered then ChildOf(deps[0])
    else PlacementOf(deps[1..], registered)
  }

  /** A mod goes under `p` exactly when `p` is a registered dependency and no
      dependency declared before it is registered. */
  lemma {:induction false} PlacementOfChild(deps: seq<string>, registered: set<string>, p: string)
    ensures PlacementOf(deps, registered) == ChildOf(p) <==>
      exists i :: 0 <= i < |deps| && deps[i] == p && p in registered
        && forall j :: 0 <= j < i ==> deps[j] !in registered
  {
    if deps != [] {
      var tail := deps[1..];
      PlacementOfChild(tail, registered, p);
      assert forall j :: 0 <= j < |tail| ==> tail[j] == deps[j + 1];
      if deps[0] !in registered {
        if exists i :: (0 <= i < |deps| && deps[i] == p && p in registered
          && forall j :: 0 <= j < i ==> deps[j] !in registered)
        {
          var i :| 0 <= i < |deps| && deps[i] == p && p in registered
            && forall j :: 0 <= j < i ==> deps[j] !in registered;
          assert i > 0;
          assert tail[i - 1] == p && forall j :: 0 <= j < i - 1 ==> tail[j] !in registered;
        }
        if PlacementOf(tail, registered) == ChildOf(p) {
          var i :| 0 <= i < |tail| && tail[i] == p && p in registered
            && forall j :: 0 <= j < i ==> tail[j] !in registered;
          assert deps[i + 1] == p && forall j :: 0 <= j < i + 1 ==> deps[j] !in registered;
        }
      } else {
        if exists i :: (0 <= i < |deps| && deps[i] == p && p in registered
          && forall j :: 0 <= j < i ==> deps[j] !in registered)
        {
          var i :| 0 <= i < |deps| && deps[i] == p && p in registered
            && forall j :: 0 <= j < i ==> deps[j] !in registered;
          assert i == 0;
        }
      }
    }
  }

  /** A mod is top-level exactly when none of its dependencies is registered
      (which includes having no dependencies at all). */
  lemma {:induction false} PlacementOfTop(deps: seq<string>, registered: set<string>)
    ensures PlacementOf(deps, registered) == TopLevel <==> forall d :: d in deps ==> d !in registered
  {
    if deps != [] {
      PlacementOfTop(deps[1..], registered);
      assert forall d :: d in deps ==> d == deps[0] || d in deps[1..];
    }
  }

  /** The tree the second pass builds, as a placement for every registered mod. */
  function Placements(r: Registry): map<string, Placement>
    requires Valid(r)
  {
    map n | n in r.files :: PlacementOf(r.deps[n], r.files.Keys)
  }

  /** Every registered mod gets exactly one placement, and a parent is always
      a registered mod that the child declares as a dependency. */
  lemma PlacementsWellFormed(r: Registry)
    requires Valid(r)
    ensures Placements(r).Keys == r.files.Keys
    ensures forall n | n in Placements(r) && Placements(r)[n].ChildOf? ::
      Placements(r)[n].parent in r.files && Placements(r)[n].parent in r.deps[n]
  {
    forall n | n in Placements(r) && Placements(r)[n].ChildOf?
      ensures Placements(r)[n].parent in r.files && Placements(r)[n].parent in r.deps[n]
    {
      PlacementOfChild(r.deps[n], r.files.Keys, Placements(r)[n].parent);
    }
  }

  /** The first pass of `load_mods` over the listing: the three dicts are
      cleared, then every `.mod` file is read and, when it declares a name,
      entered under that name. */
  method ReadModFolder(entries: Listing) returns (r: Registry)
    ensures r == Scan(entries)
  {
    var order, files, deps, dirs := [], map[], map[], map[];
    var i := 0;
    while i < |entries|
      invariant 0 <= i <= |entries|
      invariant Registry(order, files, deps, dirs) == Scan(entries[..i])
    {
      var (file, content) := entries[i];
      if IsModFile(file) {
        var parsed := ReadManifest(content);
        if parsed.Ok? && parsed.value.name != "" {
          var m := parsed.value;
          if m.name !in files {
            order := order + [m.name];
          }
          files := files[m.name := file];
          deps := deps[m.name := m.dependencies];
          dirs := dirs[m.name := m.userDir];
        }
      }
      assert entries[..i + 1][..i] == entries[..i];
      i := i + 1;
    }
    assert entries[..i] == entries;
    r := Registry(order, files, deps, dirs);
  }

  /** The `for dep in dependencies` loop of the second pass for one mod: the
      first dependency that has an item, or top level (the `for ... else`). */
  method PlaceMod(dependencies: seq<string>, registered: set<string>) returns (placement: Placement)
    ensures placement == PlacementOf(dependencies, registered)
  {
    placement := TopLevel;
    var k := 0;
    while k < |dependencies|
      invariant 0 <= k <= |dependencies|
      invariant PlacementOf(dependencies, registered) == PlacementOf(dependencies[k..], registered)
    {
      if dependencies[k] in registered {
        assert dependencies[k..][0] == dependencies[k];
        placement := ChildOf(dependencies[k]);
        return;
      }
      assert dependencies[k..][1..] == dependencies[k + 1..];
      k := k + 1;
    }
  }

  /** The second pass of `load_mods`: one item per registered mod, visited in
      the order of `mod_dependencies`, each placed by its dependencies. */
  method PlaceMods(r: Registry) returns (placements: map<string, Placement>)
    requires Valid(r)
    ensures placements == Placements(r)
  {
    placements := map[];
    var j := 0;
    while j < |r.order|
      invariant 0 <= j <= |r.order|
      invariant forall n :: n in placements <==> n in r.order[..j]
      invariant forall n | n in placements :: n in r.deps && placements[n] == PlacementOf(r.deps[n], r.files.Keys)
    {
      var name := r.order[j];
      var placement := PlaceMod(r.deps[name], r.files.Keys);
      placements := placements[name := placement];
      assert r.order[..j + 1] == r.order[..j] + [name];
      j := j + 1;
    }
    assert r.order[..j] == r.order;
  }
}
