/** `SettingsManager`: the INI settings file on disk and the settings last
    read from it. Reading, updating and writing are loops over the lines,
    the updates and the categories, each proved to compute the function of
    `IniSettings` that describes it. */
module SettingsStore {
  import opened Wrappers
  import opened PyText
  import opened PyDict
  import opened IniSettings

  /** One step of the reading loop is one `ParseLine`. */
  lemma RunStep(st: ParseState, lines: seq<string>, i: int)
    requires 0 <= i < |lines|
    ensures Run(st, lines[i..]) == Run(ParseLine(st, lines[i]), lines[i + 1..])
  {
    assert lines[i..][0] == lines[i];
    assert lines[i..][1..] == lines[i + 1..];
  }

  /** The loop of `load_settings` over the lines of `text`. */
  method ReadSettings(text: string) returns (settings: Settings)
    ensures settings == Parse(text)
  {
    var lines := FileLines(text);
    settings := [];
    var current: Option<string> := None;
    var i := 0;
    while i < |lines|
      invariant 0 <= i <= |lines|
      invariant Run(ParseState(settings, current), lines[i..]) == Run(Start, lines)
    {
      ghost var before := ParseState(settings, current);
      var line := Strip(lines[i]);
      if line != [] && !StartsWith(line, "#") {
        if '=' !in line {
          var name := StripAny(line, IsBracket);
          current := Some(name);
          settings := Put(settings, name, []);
        } else {
          var pieces := SplitFirst(line, '=');
          var key, value := Strip(pieces.0), Strip(pieces.1);
          if current.Some? && current.value != "" {
            settings := PutIn(settings, current.value, key, value);
          }
        }
      }
      assert ParseState(settings, current) == ParseLine(before, lines[i]);
      RunStep(before, lines, i);
      i := i + 1;
    }
    assert lines[i..] == [];
  }

  /** The nested loops of `save_settings`: for every pair of `updates`, in
      order, every category that has the key gets the new value. */
  method UpdateSettings(s: Settings, updates: Dict<string>) returns (r: Settings)
    ensures r == ApplyUpdates(s, updates)
  {
    r := s;
    var a := 0;
    while a < |updates|
      invariant 0 <= a <= |updates|
      invariant r == ApplyUpdates(s, updates[..a])
    {
      var key, value := updates[a].0, updates[a].1;
      ghost var before := r;
      var c := 0;
      while c < |r|
        invariant 0 <= c <= |r| == |before|
        invariant forall j :: 0 <= j < c ==> r[j] == (before[j].0, UpdateCategory(before[j].1, key, value))
        invariant forall j :: c <= j < |r| ==> r[j] == before[j]
      {
        if HasKey(r[c].1, key) {
          r := r[c := (r[c].0, Put(r[c].1, key, value))];
        }
        c := c + 1;
      }
      assert r == UpdateAll(before, key, value);
      assert updates[..a + 1][..a] == updates[..a];
      a := a + 1;
    }
    assert updates[..a] == updates;
  }

  lemma ItemLinesSnoc(prefix: seq<string>, items: Category, e: int)
    requires 0 <= e < |items|
    ensures prefix + ItemLines(items[..e + 1]) == (prefix + ItemLines(items[..e])) + [EntryLine(items[e].0, items[e].1)]
  {
    assert items[..e + 1][..e] == items[..e];
  }

  lemma SettingsLinesSnoc(s: Settings, b: int)
    requires 0 <= b < |s|
    ensures SettingsLines(s[..b + 1]) == SettingsLines(s[..b]) + [HeaderLine(s[b].0)] + ItemLines(s[b].1)
  {
    assert s[..b + 1][..b] == s[..b];
  }

  /** The write loop of `save_settings`: `[category]` and then one
      `key=value` line per entry, each followed by a line break. */
  method WriteSettings(s: Settings) returns (text: string)
    ensures text == Serialize(s)
  {
    text := "";
    var b := 0;
    while b < |s|
      invariant 0 <= b <= |s|
      invariant text == Terminated(SettingsLines(s[..b]))
    {
      var name, items := s[b].0, s[b].1;
      ghost var done := SettingsLines(s[..b]);
      TerminatedSnoc(done, HeaderLine(name));
      text := text + HeaderLine(name) + "\n";
      assert items[..0] == [] && done + [HeaderLine(name)] + [] == done + [HeaderLine(name)];
      var e := 0;
      while e < |items|
        invariant 0 <= e <= |items|
        invariant text == Terminated(done + [HeaderLine(name)] + ItemLines(items[..e]))
      {
        ItemLinesSnoc(done + [HeaderLine(name)], items, e);
        TerminatedSnoc(done + [HeaderLine(name)] + ItemLines(items[..e]), EntryLine(items[e].0, items[e].1));
        text := text + EntryLine(items[e].0, items[e].1) + "\n";
        e := e + 1;
      }
      assert items[..e] == items;
      SettingsLinesSnoc(s, b);
      b := b + 1;
    }
    assert s[..b] == s;
  }

  /** The text `load_settings` reads: the file's, or the default text that
      `create_default_settings` writes when there is no file. */
  function TextAfterCreate(disk: Option<string>): (text: string)
    ensures disk.Some? ==> text == disk.value
    ensures disk.None? ==> Parse(text) == DefaultSettings
  {
    DefaultSettingsRead();
    if disk.Some? then disk.value else DefaultSettingsText
  }

  class SettingsManager {
    /** The contents of `settings_file`, or `None` while it does not exist. */
    var disk: Option<string>
    var settings: Settings

    /** `__init__`: the settings are loaded at once. */
    constructor(disk: Option<string>)
      ensures this.disk == Some(TextAfterCreate(disk))
      ensures settings == Parse(TextAfterCreate(disk))
    {
      this.disk := disk;
      settings := [];
      new;
      LoadSettings();
    }

    /** `load_settings`: a missing file is first created with the default
        text; then the settings are read afresh from the file. */
    method LoadSettings()
      modifies this
      ensures disk == Some(TextAfterCreate(old(disk)))
      ensures settings == Parse(disk.value)
    {
      if disk.None? {
        CreateDefaultSettings();
      }
      settings := ReadSettings(disk.value);
    }

    /** `create_default_settings`. */
    method CreateDefaultSettings()
      modifies this`disk
      ensures disk == Some(DefaultSettingsText)
    {
      disk := Some(DefaultSettingsText);
    }

    /** `get_setting`: the default when the category or the key is missing,
        and otherwise the stored string. */
    function GetSetting(category: string, key: string, default: Option<string>): (r: Option<string>)
      reads this
      ensures (!HasKey(settings, category) || (Get(settings, category).Some? && !HasKey(Get(settings, category).value, key)))
        ==> r == default
      ensures WellFormed(settings) ==>
        forall i, j | 0 <= i < |settings| && 0 <= j < |settings[i].1| && settings[i].0 == category && settings[i].1[j].0 == key ::
          r == Some(settings[i].1[j].1)
    {
      LookupMissing(settings, category, key, default);
      LookupAllStored(settings, default);
      Lookup(settings, category, key, default)
    }

    /** `save_settings`: reload, overwrite the keys `updates` names wherever
        they already occur, and write every category back. */
    method SaveSettings(updates: Dict<string>)
      modifies this
      ensures settings == ApplyUpdates(Parse(TextAfterCreate(old(disk))), updates)
      ensures disk == Some(Serialize(settings))
    {
      LoadSettings();
      settings := UpdateSettings(settings, updates);
      var text := WriteSettings(settings);
      disk := Some(text);
    }
  }

  /** `LookupStored` for every stored entry at once. */
  lemma LookupAllStored(s: Settings, default: Option<string>)
    ensures WellFormed(s) ==>
      forall i, j | 0 <= i < |s| && 0 <= j < |s[i].1| :: Lookup(s, s[i].0, s[i].1[j].0, default) == Some(s[i].1[j].1)
  {
    if WellFormed(s) {
      forall i, j | 0 <= i < |s| && 0 <= j < |s[i].1|
        ensures Lookup(s, s[i].0, s[i].1[j].0, default) == Some(s[i].1[j].1)
      {
        LookupStored(s, i, j, default);
      }
    }
  }

  /** What `save_settings` writes, `load_settings` reads back unchanged, as
      long as no new value holds a line break or surrounding white space. */
  lemma SaveThenLoad(disk: Option<string>, updates: Dict<string>)
    requires forall j :: 0 <= j < |updates| ==> ValueOk(updates[j].1)
    ensures var saved := ApplyUpdates(Parse(TextAfterCreate(disk)), updates);
      Parse(TextAfterCreate(Some(Serialize(saved)))) == saved
  {
    SavedSettingsReadBack(TextAfterCreate(disk), updates);
  }
}
