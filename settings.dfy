/** The INI-style game settings file read and rewritten by `SettingsManager`:
    `[category]` header lines, `key=value` lines, blank lines and `#`
    comments. The settings are a dict of categories, each a dict of string
    values, both kept in insertion order. */
module IniSettings {
  import opened Wrappers
  import opened PyText
  import opened PyDict

  type Category = Dict<string>
  type Settings = Dict<Category>

  /** The characters `strip('[]')` removes from a header. */
  predicate IsBracket(c: char) {
    c == '[' || c == ']'
  }

  /** The lines `for line in file` yields from a file opened in text mode:
      universal newlines turn `\r\n` and a lone `\r` into `\n`, and the text is
      cut after every `\n`. Splitting at `\n` instead leaves the line breaks
      off (the `strip()` of every line removes them anyway) and adds one
      empty piece after a final line break, which the parser skips. */
  function FileLines(text: string): seq<string> {
    SplitOn(ReplaceAll(ReplaceAll(text, "\r\n", "\n"), "\r", "\n"), "\n")
  }

  /** The parser's variables: the settings read so far and `current_category`. */
  datatype ParseState = ParseState(settings: Settings, current: Option<string>)

  const Start: ParseState := ParseState([], None)

  /** `self.settings[category][key] = value`. The category is always one
      that a header opened (see `ParseLineKeepsShape`), so the lookup does
      not fail. */
  function PutIn(s: Settings, category: string, key: string, value: string): Settings {
    match Find(s, category)
    case None => s
    case Some(i) => s[i := (category, Put(s[i].1, key, value))]
  }

  /** One iteration of the loop in `load_settings`. */
  function ParseLine(st: ParseState, raw: string): ParseState {
    var line := Strip(raw);
    if line == [] || StartsWith(line, "#") then st
    else if '=' !in line then
      var name := StripAny(line, IsBracket);
      ParseState(Put(st.settings, name, []), Some(name))
    else
      var (key, value) := SplitFirst(line, '=');
      if st.current.Some? && st.current.value != "" then
        ParseState(PutIn(st.settings, st.current.value, Strip(key), Strip(value)), st.current)
      else st
  }

  /** A loop that feeds lines one by one to `step`. */
  function Fold<S>(step: (S, string) -> S, st: S, lines: seq<string>): S {
    if lines == [] then st else Fold(step, step(st, lines[0]), lines[1..])
  }

  /** The loop of `load_settings` over all remaining lines. */
  function Run(st: ParseState, lines: seq<string>): ParseState {
    Fold(ParseLine, st, lines)
  }

  /** `load_settings` on a file holding `text`. */
  function Parse(text: string): Settings {
    Run(Start, FileLines(text)).settings
  }

  /** `self.settings.get(category, {}).get(key, default)`. */
  function Lookup(s: Settings, category: string, key: string, default: Option<string>): Option<string> {
    match Get(s, category)
    case None => default
    case Some(items) =>
      match Get(items, key)
      case None => default
      case Some(value) => Some(value)
  }

  // ---------------------------------------------------------------------
  // Writing the file back

  function HeaderLine(name: string): string {
    "[" + name + "]"
  }

  function EntryLine(key: string, value: string): string {
    key + "=" + value
  }

  /** The `key=value` lines of one category, in its order. */
  function ItemLines(items: Category): seq<string> {
    if items == [] then []
    else ItemLines(items[..|items| - 1]) + [EntryLine(items[|items| - 1].0, items[|items| - 1].1)]
  }

  /** A category's header followed by its entries. */
  function BlockLines(c: (string, Category)): seq<string> {
    [HeaderLine(c.0)] + ItemLines(c.1)
  }

  /** All categories' lines, in the settings' order. */
  function SettingsLines(s: Settings): seq<string> {
    if s == [] then []
    else SettingsLines(s[..|s| - 1]) + BlockLines(s[|s| - 1])
  }

  /** What the write loop of `save_settings` leaves in the file: every line
      followed by `\n`. */
  function Serialize(s: Settings): string {
    Terminated(SettingsLines(s))
  }

  // ---------------------------------------------------------------------
  // Settings that survive a write and a read

  predicate NoLineBreak(s: string) {
    '\n' !in s && '\r' !in s
  }

  /** A category name that reads back from its header: no line break, no
      `=` (it would make the header an entry), and no bracket at either end
      (`strip('[]')` would remove it). */
  predicate NameOk(name: string) {
    NoLineBreak(name) && '=' !in name && Stripped(name, IsBracket)
  }

  /** A key that reads back from its line: no line break, no `=` (the line is
      split at the first one), no surrounding white space, and no leading `#`
      (the line would be a comment). */
  predicate KeyOk(key: string) {
    NoLineBreak(key) && '=' !in key && Stripped(key, IsSpace) && !StartsWith(key, "#")
  }

  /** A value that reads back: no line break and no surrounding white space. */
  predicate ValueOk(value: string) {
    NoLineBreak(value) && Stripped(value, IsSpace)
  }

  predicate EntryOk(e: (string, string)) {
    KeyOk(e.0) && ValueOk(e.1)
  }

  /** A category with a good name, distinct keys and good entries; the
      category named `""` can only be empty, since entries after `[]` are
      dropped. */
  predicate CategoryOk(c: (string, Category)) {
    && NameOk(c.0)
    && (c.0 == "" ==> c.1 == [])
    && DistinctKeys(c.1)
    && forall j :: 0 <= j < |c.1| ==> EntryOk(c.1[j])
  }

  predicate WellFormed(s: Settings) {
    DistinctKeys(s) && forall i :: 0 <= i < |s| ==> CategoryOk(s[i])
  }

  // ---------------------------------------------------------------------
  // Lemmas about reading

  lemma {:induction false} FoldAppend<S>(step: (S, string) -> S, st: S, a: seq<string>, b: seq<string>)
    ensures Fold(step, st, a + b) == Fold(step, Fold(step, st, a), b)
  {
    if a != [] {
      assert (a + b)[0] == a[0];
      assert (a + b)[1..] == a[1..] + b;
      assert Fold(step, st, a) == Fold(step, step(st, a[0]), a[1..]);
      assert Fold(step, st, a + b) == Fold(step, step(st, a[0]), a[1..] + b);
      FoldAppend(step, step(st, a[0]), a[1..], b);
    } else {
      assert a + b == b;
    }
  }

  lemma {:induction false} FoldSame<S>(step: (S, string) -> S, st: S, a: seq<string>, b: seq<string>)
    requires |a| == |b|
    requires forall s: S, k :: 0 <= k < |a| ==> step(s, a[k]) == step(s, b[k])
    ensures Fold(step, st, a) == Fold(step, st, b)
  {
    if a != [] {
      assert step(st, a[0]) == step(st, b[0]);
      FoldSame(step, step(st, a[0]), a[1..], b[1..]);
    }
  }

  lemma RunAppend(st: ParseState, a: seq<string>, b: seq<string>)
    ensures Run(st, a + b) == Run(Run(st, a), b)
  {
    FoldAppend(ParseLine, st, a, b);
  }

  lemma RunOne(st: ParseState, line: string)
    ensures Run(st, [line]) == ParseLine(st, line)
  {
    assert [line][1..] == [];
    assert Fold(ParseLine, st, [line]) == Fold(ParseLine, ParseLine(st, line), []);
  }

  /** Lines that strip to nothing, and `#` comments, are skipped. */
  lemma BlankLineSkipped(st: ParseState, raw: string)
    requires Strip(raw) == "" || StartsWith(Strip(raw), "#")
    ensures ParseLine(st, raw) == st
  {
  }

  /** Only what `strip()` leaves of a line matters, so indentation is ignored. */
  lemma RunSameStripped(st: ParseState, a: seq<string>, b: seq<string>)
    requires |a| == |b|
    requires forall k :: 0 <= k < |a| ==> Strip(a[k]) == Strip(b[k])
    ensures Run(st, a) == Run(st, b)
  {
    forall s: ParseState, k | 0 <= k < |a| ensures ParseLine(s, a[k]) == ParseLine(s, b[k]) {
      assert Strip(a[k]) == Strip(b[k]);
    }
    FoldSame(ParseLine, st, a, b);
  }

  /** A header line opens (or resets to empty) the category it names. */
  lemma HeaderLineRead(st: ParseState, name: string)
    requires NameOk(name)
    ensures ParseLine(st, HeaderLine(name)) == ParseState(Put(st.settings, name, []), Some(name))
  {
    var line := HeaderLine(name);
    assert line[0] == '[' && line[|line| - 1] == ']';
    StripAnyFixed(line, IsSpace);
    assert Strip(line) == line;
    assert !StartsWith(line, "#");
    assert '=' !in line;
    if name == "" {
      assert LeadingCount(line, IsBracket) == 2;
    } else {
      assert line[1] == name[0];
      assert LeadingCount(line, IsBracket) == 1;
      var t := TrimStart(line, IsBracket);
      assert t == name + "]";
      assert t[|name| - 1] == name[|name| - 1];
      assert KeptCount(t, IsBracket) == |name|;
    }
  }

  /** An entry line is left alone by `strip()`, is not a comment, and splits
      at its first `=` into its key and value. */
  lemma EntryLineShape(key: string, value: string)
    requires EntryOk((key, value))
    ensures var line := EntryLine(key, value);
      && Strip(line) == line && line != [] && !StartsWith(line, "#") && '=' in line
      && SplitFirst(line, '=') == (key, value)
  {
    var line := EntryLine(key, value);
    assert line[|key|] == '=';
    assert line[0] == (if key == [] then '=' else key[0]);
    assert line[|line| - 1] == (if value == [] then '=' else value[|value| - 1]);
    StripAnyFixed(line, IsSpace);
    assert !StartsWith(line, "#") by {
      if key != [] { assert !StartsWith(key, "#"); }
    }
    IndexOfFirst(key, '=', value);
    assert line[..|key|] == key && line[|key| + 1..] == value;
  }

  /** An entry line stores its key and value in the open category. */
  lemma EntryLineRead(st: ParseState, key: string, value: string)
    requires EntryOk((key, value))
    requires st.current.Some? && st.current.value != ""
    ensures ParseLine(st, EntryLine(key, value)) == ParseState(PutIn(st.settings, st.current.value, key, value), st.current)
  {
    EntryLineShape(key, value);
    StripAnyFixed(key, IsSpace);
    StripAnyFixed(value, IsSpace);
  }

  /** The entries of a category, read after its header, fill it in order. */
  lemma {:induction false} ItemLinesRead(p: Settings, name: string, items: Category)
    requires !HasKey(p, name) && name != ""
    requires DistinctKeys(items) && forall j :: 0 <= j < |items| ==> EntryOk(items[j])
    ensures Run(ParseState(p + [(name, [])], Some(name)), ItemLines(items)) == ParseState(p + [(name, items)], Some(name))
  {
    if items != [] {
      var init := items[..|items| - 1];
      var key, value := items[|items| - 1].0, items[|items| - 1].1;
      assert items == init + [(key, value)];
      assert ItemLines(items) == ItemLines(init) + [EntryLine(key, value)];
      assert !HasKey(init, key) by {
        forall j | 0 <= j < |init| ensures init[j].0 != key {
          assert init[j] == items[j];
        }
      }
      assert forall j :: 0 <= j < |init| ==> EntryOk(init[j]) by {
        forall j | 0 <= j < |init| ensures EntryOk(init[j]) {
          assert init[j] == items[j];
        }
      }
      assert DistinctKeys(init) by {
        forall i, j | 0 <= i < j < |init| ensures init[i].0 != init[j].0 {
          assert init[i] == items[i] && init[j] == items[j];
        }
      }
      assert EntryOk((key, value)) by {
        assert items[|items| - 1] == (key, value);
      }
      var st := ParseState(p + [(name, [])], Some(name));
      ItemLinesRead(p, name, init);
      RunAppend(st, ItemLines(init), [EntryLine(key, value)]);
      var mid := ParseState(p + [(name, init)], Some(name));
      EntryLineRead(mid, key, value);
      RunOne(mid, EntryLine(key, value));
      FindFirst(p + [(name, init)], name, |p|);
      PutNew(init, key, value);
      assert (p + [(name, init)])[|p| := (name, init + [(key, value)])] == p + [(name, items)];
    }
  }

  /** A category's block of lines appends that category. */
  lemma BlockLinesRead(p: Settings, current: Option<string>, c: (string, Category))
    requires !HasKey(p, c.0) && CategoryOk(c)
    ensures Run(ParseState(p, current), BlockLines(c)) == ParseState(p + [c], Some(c.0))
  {
    var st := ParseState(p, current);
    var header := HeaderLine(c.0);
    RunAppend(st, [header], ItemLines(c.1));
    RunOne(st, header);
    HeaderLineRead(st, c.0);
    PutNew(p, c.0, []);
    if c.0 == "" {
      assert ItemLines(c.1) == [];
      assert Run(ParseState(p + [c], Some(c.0)), []) == ParseState(p + [c], Some(c.0));
    } else {
      ItemLinesRead(p, c.0, c.1);
    }
  }

  lemma WellFormedPrefix(s: Settings)
    requires WellFormed(s) && s != []
    ensures WellFormed(s[..|s| - 1])
    ensures !HasKey(s[..|s| - 1], s[|s| - 1].0)
  {
    var init := s[..|s| - 1];
    assert forall i :: 0 <= i < |init| ==> CategoryOk(init[i]) by {
      forall i | 0 <= i < |init| ensures CategoryOk(init[i]) {
        assert init[i] == s[i];
      }
    }
    forall j | 0 <= j < |init| ensures init[j].0 != s[|s| - 1].0 {
      assert init[j] == s[j];
    }
  }

  /** Reading the lines the writer produces rebuilds the settings. */
  lemma {:induction false} SettingsLinesRead(s: Settings)
    requires WellFormed(s)
    ensures Run(Start, SettingsLines(s)).settings == s
  {
    if s != [] {
      var init := s[..|s| - 1];
      WellFormedPrefix(s);
      SettingsLinesRead(init);
      RunAppend(Start, SettingsLines(init), BlockLines(s[|s| - 1]));
      var mid := Run(Start, SettingsLines(init));
      assert mid == ParseState(init, mid.current);
      BlockLinesRead(init, mid.current, s[|s| - 1]);
      assert init + [s[|s| - 1]] == s;
    }
  }

  lemma {:induction false} ItemLinesClean(items: Category)
    requires forall j :: 0 <= j < |items| ==> EntryOk(items[j])
    ensures forall k :: 0 <= k < |ItemLines(items)| ==> NoLineBreak(ItemLines(items)[k])
  {
    if items != [] {
      var init := items[..|items| - 1];
      assert forall j :: 0 <= j < |init| ==> EntryOk(init[j]) by {
        forall j | 0 <= j < |init| ensures EntryOk(init[j]) { assert init[j] == items[j]; }
      }
      ItemLinesClean(init);
      var e := items[|items| - 1];
      assert EntryOk(e);
      assert NoLineBreak(EntryLine(e.0, e.1));
    }
  }

  lemma {:induction false} SettingsLinesClean(s: Settings)
    requires WellFormed(s)
    ensures forall k :: 0 <= k < |SettingsLines(s)| ==> NoLineBreak(SettingsLines(s)[k])
  {
    if s != [] {
      WellFormedPrefix(s);
      SettingsLinesClean(s[..|s| - 1]);
      var c := s[|s| - 1];
      assert CategoryOk(c);
      ItemLinesClean(c.1);
      assert NoLineBreak(HeaderLine(c.0));
      var b := BlockLines(c);
      assert forall k :: 0 <= k < |b| ==> NoLineBreak(b[k]) by {
        forall k | 0 <= k < |b| ensures NoLineBreak(b[k]) {
          if k > 0 { assert b[k] == ItemLines(c.1)[k - 1]; }
        }
      }
    }
  }

  /** Universal newlines do nothing to a text without carriage returns. */
  lemma FileLinesPlain(text: string)
    requires '\r' !in text
    ensures FileLines(text) == SplitOn(text, "\n")
  {
    LeadAbsentNotContained(text, "\r\n");
    ReplaceAbsent(text, "\r\n", "\n");
    LeadAbsentNotContained(text, "\r");
    ReplaceAbsent(text, "\r", "\n");
  }

  /** The round trip: writing well-formed settings and reading the file back
      gives the same settings, in the same order. */
  lemma RoundTrip(s: Settings)
    requires WellFormed(s)
    ensures Parse(Serialize(s)) == s
  {
    var lines := SettingsLines(s);
    SettingsLinesClean(s);
    TerminatedLacks(lines, '\r');
    FileLinesPlain(Serialize(s));
    TerminatedLines(lines);
    RunAppend(Start, lines, [""]);
    var st := Run(Start, lines);
    assert Strip("") == "";
    BlankLineSkipped(st, "");
    RunOne(st, "");
    SettingsLinesRead(s);
  }

  /** Which lines can the loop meet: pieces of a text after universal
      newlines, which hold no line break. */
  lemma FileLinesClean(text: string)
    ensures forall k :: 0 <= k < |FileLines(text)| ==> NoLineBreak(FileLines(text)[k])
  {
    var t := ReplaceAll(ReplaceAll(text, "\r\n", "\n"), "\r", "\n");
    ReplaceClears(ReplaceAll(text, "\r\n", "\n"), '\r', '\n');
    SplitPiecesLackSeparator(t, '\n');
    SplitPiecesKeepAbsent(t, "\n", '\r');
  }

  /** What holds between any two lines: the settings are well formed and
      the open category, if any, is one of them. */
  predicate StateOk(st: ParseState) {
    WellFormed(st.settings) && (st.current.Some? ==> HasKey(st.settings, st.current.value))
  }

  lemma SliceNoLineBreak(s: string, i: int, j: int)
    requires 0 <= i <= j <= |s| && NoLineBreak(s)
    ensures NoLineBreak(s[i..j])
  {
    assert forall k :: 0 <= k < j - i ==> s[i..j][k] == s[i + k];
  }

  lemma StripNoLineBreak(s: string)
    requires NoLineBreak(s)
    ensures NoLineBreak(Strip(s))
  {
    StripAnyLacks(s, IsSpace, '\n');
    StripAnyLacks(s, IsSpace, '\r');
  }

  /** The key `strip()` leaves of the text before the first `=` of a stripped,
      non-comment line is a key that reads back. */
  lemma SplitKeyOk(line: string)
    requires line != [] && Stripped(line, IsSpace) && !StartsWith(line, "#")
    requires NoLineBreak(line) && '=' in line
    ensures KeyOk(Strip(SplitFirst(line, '=').0))
  {
    var i := IndexOf(line, '=');
    var before := line[..i];
    SliceNoLineBreak(line, 0, i);
    StripNoLineBreak(before);
    StripAnyLacks(before, IsSpace, '=');
    StripAnyShape(before, IsSpace);
    if before != [] {
      assert before[0] == line[0];
      StripAnyKeepsHead(before, IsSpace);
    }
  }

  /** The value `strip()` leaves of the text after the first `=` reads back. */
  lemma SplitValueOk(line: string)
    requires NoLineBreak(line) && '=' in line
    ensures ValueOk(Strip(SplitFirst(line, '=').1))
  {
    var i := IndexOf(line, '=');
    SliceNoLineBreak(line, i + 1, |line|);
    StripNoLineBreak(line[i + 1..]);
    StripAnyShape(line[i + 1..], IsSpace);
  }

  /** Every line keeps the parser's state sound. */
  /** A header line keeps the settings well formed. */
  lemma HeaderKeepsShape(st: ParseState, line: string)
    requires StateOk(st) && NoLineBreak(line) && line != [] && '=' !in line
    ensures StateOk(ParseState(Put(st.settings, StripAny(line, IsBracket), []), Some(StripAny(line, IsBracket))))
  {
    var s := st.settings;
    var name := StripAny(line, IsBracket);
    StripAnyShape(line, IsBracket);
    StripAnyLacks(line, IsBracket, '=');
    StripAnyLacks(line, IsBracket, '\n');
    StripAnyLacks(line, IsBracket, '\r');
    assert CategoryOk((name, []));
    PutDistinct(s, name, []);
    PutAll(s, name, [], CategoryOk);
  }

  /** An entry line under a current category keeps the settings well formed. */
  lemma EntryKeepsShape(st: ParseState, line: string)
    requires StateOk(st) && NoLineBreak(line) && Stripped(line, IsSpace) && '=' in line
    requires !StartsWith(line, "#") && st.current.Some? && st.current.value != ""
    ensures var (before, after) := SplitFirst(line, '=');
      StateOk(ParseState(PutIn(st.settings, st.current.value, Strip(before), Strip(after)), st.current))
  {
    var s := st.settings;
    var n := st.current.value;
    var (before, after) := SplitFirst(line, '=');
    var key, value := Strip(before), Strip(after);
    SplitKeyOk(line);
    SplitValueOk(line);
    FindHasKey(s, n);
    var idx := Find(s, n).value;
    var items := s[idx].1;
    assert CategoryOk(s[idx]);
    PutDistinct(items, key, value);
    PutAll(items, key, value, EntryOk);
    var s' := s[idx := (n, Put(items, key, value))];
    assert PutIn(s, n, key, value) == s';
    assert CategoryOk(s'[idx]);
    assert forall j :: 0 <= j < |s'| ==> s'[j].0 == s[j].0;
    assert forall j :: 0 <= j < |s'| ==> CategoryOk(s'[j]) by {
      forall j | 0 <= j < |s'| ensures CategoryOk(s'[j]) {
        if j != idx { assert s'[j] == s[j]; }
      }
    }
    assert s'[idx].0 == n;
  }

  lemma ParseLineKeepsShape(st: ParseState, raw: string)
    requires StateOk(st) && NoLineBreak(raw)
    ensures StateOk(ParseLine(st, raw))
  {
    var line := Strip(raw);
    StripAnyShape(raw, IsSpace);
    StripAnyLacks(raw, IsSpace, '\n');
    StripAnyLacks(raw, IsSpace, '\r');
    if line == [] || StartsWith(line, "#") {
    } else if '=' !in line {
      HeaderKeepsShape(st, line);
    } else if st.current.Some? && st.current.value != "" {
      EntryKeepsShape(st, line);
    }
  }

  /** An invariant that every step keeps holds after the whole loop. */
  lemma {:induction false} FoldKeeps<S>(step: (S, string) -> S, inv: S -> bool, lineOk: string -> bool, st: S, lines: seq<string>)
    requires forall s: S, l: string :: inv(s) && lineOk(l) ==> inv(step(s, l))
    requires inv(st) && forall k :: 0 <= k < |lines| ==> lineOk(lines[k])
    ensures inv(Fold(step, st, lines))
  {
    if lines != [] {
      assert lineOk(lines[0]);
      FoldKeeps(step, inv, lineOk, step(st, lines[0]), lines[1..]);
    }
  }

  /** Whatever the file holds, what `load_settings` builds is well formed:
      distinct category names and keys, and every name, key and value is one
      the writer can put back. */
  lemma ParseWellFormed(text: string)
    ensures WellFormed(Parse(text))
  {
    forall s: ParseState, l: string | StateOk(s) && NoLineBreak(l) ensures StateOk(ParseLine(s, l)) {
      ParseLineKeepsShape(s, l);
    }
    FileLinesClean(text);
    FoldKeeps(ParseLine, StateOk, NoLineBreak, Start, FileLines(text));
  }

  /** Reading a file, writing it back and reading it again gives the same
      settings as the first read. */
  lemma ReadWriteRead(text: string)
    ensures Parse(Serialize(Parse(text))) == Parse(text)
  {
    ParseWellFormed(text);
    RoundTrip(Parse(text));
  }

  // ---------------------------------------------------------------------
  // Updating before a write

  /** `if key in items: items[key] = value`. */
  function UpdateCategory(items: Category, key: string, value: string): Category {
    if HasKey(items, key) then Put(items, key, value) else items
  }

  /** The inner loop of `save_settings`: one key, every category. */
  function UpdateAll(s: Settings, key: string, value: string): Settings {
    seq(|s|, i requires 0 <= i < |s| => (s[i].0, UpdateCategory(s[i].1, key, value)))
  }

  /** The outer loop of `save_settings`: every pair of `updated_settings`, in its order. */
  function ApplyUpdates(s: Settings, updates: Dict<string>): Settings {
    if updates == [] then s
    else
      var last := updates[|updates| - 1];
      UpdateAll(ApplyUpdates(s, updates[..|updates| - 1]), last.0, last.1)
  }

  /** Updating adds no category and no key, and moves nothing: every
      category keeps its name, its place and its keys in their order. */
  lemma {:induction false} ApplyUpdatesShape(s: Settings, updates: Dict<string>)
    ensures |ApplyUpdates(s, updates)| == |s|
    ensures forall i :: 0 <= i < |s| ==>
      ApplyUpdates(s, updates)[i].0 == s[i].0 && Keys(ApplyUpdates(s, updates)[i].1) == Keys(s[i].1)
  {
    if updates != [] {
      var init := updates[..|updates| - 1];
      var (k, v) := updates[|updates| - 1];
      ApplyUpdatesShape(s, init);
      var r := ApplyUpdates(s, init);
      forall i | 0 <= i < |s| ensures Keys(UpdateCategory(r[i].1, k, v)) == Keys(r[i].1) {
        PutKeys(r[i].1, k, v);
      }
    }
  }

  /** A key of a category ends up with the value `updated_settings` gives
      it, when it gives one; every other entry keeps its value. So unknown
      keys are ignored, and a key present in several categories is updated
      in each of them. */
  lemma {:induction false} ApplyUpdatesValue(s: Settings, updates: Dict<string>, i: int, key: string)
    requires DistinctKeys(updates) && 0 <= i < |s|
    ensures |ApplyUpdates(s, updates)| == |s|
    ensures Get(ApplyUpdates(s, updates)[i].1, key) ==
      if HasKey(s[i].1, key) && HasKey(updates, key) then Get(updates, key) else Get(s[i].1, key)
  {
    ApplyUpdatesShape(s, updates);
    if updates != [] {
      var init := updates[..|updates| - 1];
      var k, v := updates[|updates| - 1].0, updates[|updates| - 1].1;
      assert updates == init + [(k, v)];
      assert DistinctKeys(init) && !HasKey(init, k) by {
        forall a, b | 0 <= a < b < |init| ensures init[a].0 != init[b].0 {
          assert init[a] == updates[a] && init[b] == updates[b];
        }
        forall j | 0 <= j < |init| ensures init[j].0 != k {
          assert init[j] == updates[j];
        }
      }
      ApplyUpdatesValue(s, init, i, key);
      ApplyUpdatesShape(s, init);
      var items := ApplyUpdates(s, init)[i].1;
      FindSameKeys(items, s[i].1, key);
      FindSameKeys(items, s[i].1, k);
      GetSnoc(init, k, v, key);
      PutGet(items, k, v, key);
    }
  }

  /** Updating with values that read back keeps well-formed settings well formed. */
  lemma {:induction false} ApplyUpdatesWellFormed(s: Settings, updates: Dict<string>)
    requires WellFormed(s)
    requires forall j :: 0 <= j < |updates| ==> ValueOk(updates[j].1)
    ensures WellFormed(ApplyUpdates(s, updates))
  {
    if updates != [] {
      var init := updates[..|updates| - 1];
      var k, v := updates[|updates| - 1].0, updates[|updates| - 1].1;
      assert ValueOk(v);
      assert forall j :: 0 <= j < |init| ==> ValueOk(init[j].1) by {
        forall j | 0 <= j < |init| ensures ValueOk(init[j].1) { assert init[j] == updates[j]; }
      }
      ApplyUpdatesWellFormed(s, init);
      var r := ApplyUpdates(s, init);
      var r' := UpdateAll(r, k, v);
      forall i | 0 <= i < |r'| ensures CategoryOk(r'[i]) {
        var items := r[i].1;
        assert CategoryOk(r[i]);
        if HasKey(items, k) {
          var j :| 0 <= j < |items| && items[j].0 == k;
          assert EntryOk(items[j]);
          PutDistinct(items, k, v);
          PutAll(items, k, v, EntryOk);
        }
      }
      assert forall a :: 0 <= a < |r'| ==> r'[a].0 == r[a].0;
    }
  }

  /** What `save_settings` writes reads back as the updated settings. */
  lemma SavedSettingsReadBack(text: string, updates: Dict<string>)
    requires forall j :: 0 <= j < |updates| ==> ValueOk(updates[j].1)
    ensures Parse(Serialize(ApplyUpdates(Parse(text), updates))) == ApplyUpdates(Parse(text), updates)
  {
    ParseWellFormed(text);
    ApplyUpdatesWellFormed(Parse(text), updates);
    RoundTrip(ApplyUpdates(Parse(text), updates));
  }

  // ---------------------------------------------------------------------
  // Looking settings up

  /** `get_setting` finds every stored value under its category and key. */
  lemma LookupStored(s: Settings, i: int, j: int, default: Option<string>)
    requires WellFormed(s) && 0 <= i < |s| && 0 <= j < |s[i].1|
    ensures Lookup(s, s[i].0, s[i].1[j].0, default) == Some(s[i].1[j].1)
  {
    GetStored(s, i);
    assert CategoryOk(s[i]);
    GetStored(s[i].1, j);
  }

  /** `get_setting` gives the default exactly when the category is missing
      or lacks the key. */
  lemma LookupMissing(s: Settings, category: string, key: string, default: Option<string>)
    ensures (!HasKey(s, category) || (Get(s, category).Some? && !HasKey(Get(s, category).value, key)))
      ==> Lookup(s, category, key, default) == default
    ensures Lookup(s, category, key, None).None? ==>
      !HasKey(s, category) || (Get(s, category).Some? && !HasKey(Get(s, category).value, key))
  {
    FindHasKey(s, category);
    if Get(s, category).Some? {
      FindHasKey(Get(s, category).value, key);
    }
  }

  /** After `save_settings`, `get_setting` sees the new value of every key
      it had and the update names, and the old answer otherwise. */
  lemma LookupAfterUpdates(s: Settings, updates: Dict<string>, category: string, key: string, default: Option<string>)
    requires DistinctKeys(updates)
    ensures Lookup(ApplyUpdates(s, updates), category, key, default) ==
      if Lookup(s, category, key, None).Some? && HasKey(updates, key) then Get(updates, key)
      else Lookup(s, category, key, default)
  {
    var r := ApplyUpdates(s, updates);
    ApplyUpdatesShape(s, updates);
    assert Keys(r) == Keys(s);
    FindSameKeys(r, s, category);
    match Find(s, category)
    case None =>
    case Some(i) =>
      ApplyUpdatesValue(s, updates, i, key);
      FindHasKey(s[i].1, key);
      if HasKey(updates, key) {
        FindHasKey(updates, key);
      }
  }

  // ---------------------------------------------------------------------
  // The default file

  /** The indentation of every line of the default text after the first. */
  const IndentWidth: nat := 28
  const Indent: string := Spaces(IndentWidth)

  /** `n` blanks. */
  function Spaces(n: nat): (s: string)
    ensures |s| == n && forall k :: 0 <= k < n ==> s[k] == ' '
  {
    if n == 0 then [] else Spaces(n - 1) + [' ']
  }

  /** The lines of the text `create_default_settings` writes, one constant
      per block: the literal is indented like the code around it, so every
      line but the first starts with that indentation, and its last line
      holds only the indentation. */
  const GraphicsLines: seq<string> := [
    "[graphics]",
    Indent + "x=1920",
    Indent + "y=1080",
    Indent + "fullScreen=no",
    Indent + "borderless=yes",
    ""]
  const SoundLines: seq<string> := [
    Indent + "[sound]",
    Indent + "master_volume=50",
    Indent + "sound_fx_volume=50",
    Indent + "music_volume=50",
    ""]
  const GuiLines: seq<string> := [
    Indent + "[gui]",
    Indent + "lastplayer=Player",
    ""]
  const GeneralLines: seq<string> := [
    Indent + "[general]",
    Indent + "debug_saves=0",
    Indent + "autosave=YEARLY",
    Indent + "update_time=1.000000",
    Indent]

  const DefaultSettingsLines: seq<string> := GraphicsLines + SoundLines + GuiLines + GeneralLines

  const DefaultSettingsText: string := Join(DefaultSettingsLines, "\n")

  const GraphicsDefaults: (string, Category) :=
    ("graphics", [("x", "1920"), ("y", "1080"), ("fullScreen", "no"), ("borderless", "yes")])
  const SoundDefaults: (string, Category) :=
    ("sound", [("master_volume", "50"), ("sound_fx_volume", "50"), ("music_volume", "50")])
  const GuiDefaults: (string, Category) :=
    ("gui", [("lastplayer", "Player")])
  const GeneralDefaults: (string, Category) :=
    ("general", [("debug_saves", "0"), ("autosave", "YEARLY"), ("update_time", "1.000000")])

  /** The settings the default text stands for. */
  const DefaultSettings: Settings := [GraphicsDefaults, SoundDefaults, GuiDefaults, GeneralDefaults]

  lemma {:induction false} ItemLinesIndex(items: Category)
    ensures |ItemLines(items)| == |items|
    ensures forall k :: 0 <= k < |items| ==> ItemLines(items)[k] == EntryLine(items[k].0, items[k].1)
  {
    if items != [] {
      var init := items[..|items| - 1];
      ItemLinesIndex(init);
      assert forall k :: 0 <= k < |init| ==> init[k] == items[k];
    }
  }

  /** A block of lines that strips to a category's header, then its entries,
      then a blank line, appends that category. */
  lemma StrippedBlockRead(p: Settings, current: Option<string>, c: (string, Category), lines: seq<string>)
    requires !HasKey(p, c.0) && CategoryOk(c)
    requires |lines| == |c.1| + 2
    requires Strip(lines[0]) == Strip(HeaderLine(c.0))
    requires forall k :: 0 <= k < |c.1| ==> Strip(lines[k + 1]) == Strip(EntryLine(c.1[k].0, c.1[k].1))
    requires Strip(lines[|lines| - 1]) == ""
    ensures Run(ParseState(p, current), lines) == ParseState(p + [c], Some(c.0))
  {
    var st := ParseState(p, current);
    var b := BlockLines(c);
    ItemLinesIndex(c.1);
    assert Strip("") == "";
    forall k | 0 <= k < |lines| ensures Strip(lines[k]) == Strip((b + [""])[k]) {
      if 0 < k < |lines| - 1 {
        assert (b + [""])[k] == ItemLines(c.1)[k - 1];
        assert Strip(lines[(k - 1) + 1]) == Strip(EntryLine(c.1[k - 1].0, c.1[k - 1].1));
      }
    }
    RunSameStripped(st, lines, b + [""]);
    RunAppend(st, b, [""]);
    BlockLinesRead(p, current, c);
    assert Strip("") == "";
    BlankLineSkipped(ParseState(p + [c], Some(c.0)), "");
    RunOne(ParseState(p + [c], Some(c.0)), "");
  }

  predicate PlainChar(c: char) {
    'a' <= c <= 'z' || 'A' <= c <= 'Z' || '0' <= c <= '9' || c == '_' || c == '.'
  }

  /** A non-empty word of letters, digits, `_` and `.`. */
  predicate PlainWord(s: string) {
    s != [] && forall k :: 0 <= k < |s| ==> PlainChar(s[k])
  }

  lemma PlainWordOk(s: string)
    requires PlainWord(s)
    ensures KeyOk(s) && ValueOk(s) && NameOk(s)
    ensures Strip(s) == s
  {
    assert s[0] == s[..1][0];
    StripAnyFixed(s, IsSpace);
  }

  /** Leading white space is dropped. */
  lemma IndentStripped(s: string)
    requires Stripped(s, IsSpace)
    ensures Strip(Indent + s) == s
  {
    assert forall k :: 0 <= k < |Indent| ==> Indent[k] == ' ';
    StripAnyDropsPrefix(Indent, s, IsSpace);
    StripAnyFixed(s, IsSpace);
  }

  lemma PlainCategoryOk(c: (string, Category))
    requires PlainWord(c.0) && DistinctKeys(c.1)
    requires forall j :: 0 <= j < |c.1| ==> PlainWord(c.1[j].0) && PlainWord(c.1[j].1)
    ensures CategoryOk(c)
  {
    PlainWordOk(c.0);
    forall j | 0 <= j < |c.1| ensures EntryOk(c.1[j]) {
      PlainWordOk(c.1[j].0);
      PlainWordOk(c.1[j].1);
    }
  }

  lemma PlainNotSpace(c: char)
    requires PlainChar(c)
    ensures !IsSpace(c) && c != '\n' && c != '\r'
  {
  }

  lemma PlainEntryLine(key: string, value: string)
    requires PlainWord(key) && PlainWord(value)
    ensures NoLineBreak(EntryLine(key, value)) && Stripped(EntryLine(key, value), IsSpace)
  {
    var line := EntryLine(key, value);
    assert line[0] == key[0];
    assert line[|line| - 1] == value[|value| - 1];
    PlainNotSpace(key[0]);
    PlainNotSpace(value[|value| - 1]);
    forall k | 0 <= k < |line| ensures line[k] != '\n' && line[k] != '\r' {
      if k < |key| {
        PlainNotSpace(key[k]);
      } else if k > |key| {
        assert line[k] == value[k - |key| - 1];
        PlainNotSpace(value[k - |key| - 1]);
      }
    }
  }

  lemma PlainHeaderLine(name: string)
    requires PlainWord(name)
    ensures NoLineBreak(HeaderLine(name)) && Stripped(HeaderLine(name), IsSpace)
  {
    var line := HeaderLine(name);
    forall k | 0 <= k < |line| ensures line[k] != '\n' && line[k] != '\r' {
      if 0 < k < |line| - 1 {
        assert line[k] == name[k - 1];
        PlainNotSpace(name[k - 1]);
      }
    }
  }

  /** Indenting a line changes nothing once it is stripped. */
  lemma IndentedLine(line: string)
    requires NoLineBreak(line) && Stripped(line, IsSpace)
    ensures NoLineBreak(Indent + line) && Strip(Indent + line) == Strip(line) == line
  {
    IndentStripped(line);
    StripAnyFixed(line, IsSpace);
    assert forall k :: 0 <= k < |Indent| ==> Indent[k] == ' ';
    forall k | 0 <= k < |Indent + line| ensures (Indent + line)[k] != '\n' && (Indent + line)[k] != '\r' {
      if k >= |Indent| { assert (Indent + line)[k] == line[k - |Indent|]; }
    }
  }

  lemma IndentBlank()
    ensures Strip(Indent) == "" && NoLineBreak(Indent)
  {
    IndentedLine("");
    assert Indent + "" == Indent;
  }

  /** A category whose name, keys and values are plain words, with no key twice. */
  predicate PlainCategory(c: (string, Category)) {
    && PlainWord(c.0) && DistinctKeys(c.1)
    && forall j :: 0 <= j < |c.1| ==> PlainWord(c.1[j].0) && PlainWord(c.1[j].1)
  }

  /** The lines of a block of the default text that frame its entries: the
      first strips to the category's header, the last to nothing. */
  predicate BlockEnds(c: (string, Category), lines: seq<string>) {
    |lines| == |c.1| + 2 &&
    Strip(lines[0]) == HeaderLine(c.0) && NoLineBreak(lines[0]) &&
    Strip(lines[|lines| - 1]) == "" && NoLineBreak(lines[|lines| - 1])
  }

  /** The lines in between are the category's entries, indented. */
  predicate IndentedEntries(c: (string, Category), lines: seq<string>) {
    |lines| == |c.1| + 2 &&
    forall k :: 0 <= k < |c.1| ==> lines[k + 1] == Indent + EntryLine(c.1[k].0, c.1[k].1)
  }

  /** No line holds a line break. */
  predicate CleanLines(lines: seq<string>) {
    forall k :: 0 <= k < |lines| ==> NoLineBreak(lines[k])
  }

  lemma CleanAppend(a: seq<string>, b: seq<string>)
    requires CleanLines(a) && CleanLines(b)
    ensures CleanLines(a + b)
  {
    assert forall k :: |a| <= k < |a + b| ==> (a + b)[k] == b[k - |a|];
  }

  lemma PlainEntryIndented(c: (string, Category), lines: seq<string>, k: int)
    requires PlainCategory(c) && IndentedEntries(c, lines) && 0 <= k < |c.1|
    ensures Strip(lines[k + 1]) == Strip(EntryLine(c.1[k].0, c.1[k].1)) && NoLineBreak(lines[k + 1])
  {
    PlainEntryLine(c.1[k].0, c.1[k].1);
    IndentedLine(EntryLine(c.1[k].0, c.1[k].1));
  }

  /** Such a block reads back as its category. */
  lemma PlainBlockRead(p: Settings, current: Option<string>, c: (string, Category), lines: seq<string>)
    requires !HasKey(p, c.0) && PlainCategory(c) && BlockEnds(c, lines) && IndentedEntries(c, lines)
    ensures Run(ParseState(p, current), lines) == ParseState(p + [c], Some(c.0))
  {
    PlainCategoryOk(c);
    PlainHeaderLine(c.0);
    StripAnyFixed(HeaderLine(c.0), IsSpace);
    forall k | 0 <= k < |c.1|
      ensures Strip(lines[k + 1]) == Strip(EntryLine(c.1[k].0, c.1[k].1))
    {
      PlainEntryIndented(c, lines, k);
    }
    StrippedBlockRead(p, current, c, lines);
  }

  /** ... and none of its lines holds a line break. */
  lemma PlainBlockClean(c: (string, Category), lines: seq<string>)
    requires PlainCategory(c) && BlockEnds(c, lines) && IndentedEntries(c, lines)
    ensures CleanLines(lines)
  {
    forall k | 0 < k < |lines| - 1 ensures NoLineBreak(lines[k]) {
      PlainEntryIndented(c, lines, k - 1);
    }
  }

  /** The header line of a block after the first. */
  lemma IndentedHeader(name: string)
    requires PlainWord(name)
    ensures Strip(Indent + HeaderLine(name)) == HeaderLine(name) && NoLineBreak(Indent + HeaderLine(name))
  {
    PlainHeaderLine(name);
    IndentedLine(HeaderLine(name));
  }

  lemma GraphicsWords()
    ensures PlainCategory(GraphicsDefaults)
  {
    assert PlainWord("x") && PlainWord("1920") && PlainWord("y") && PlainWord("1080");
    assert PlainWord("fullScreen") && PlainWord("no") && PlainWord("borderless") && PlainWord("yes");
    assert PlainWord("graphics");
  }

  /** The first line of the graphics block is its header, the last is blank. */
  lemma GraphicsEnds()
    ensures BlockEnds(GraphicsDefaults, GraphicsLines)
  {
    assert PlainWord("graphics");
    PlainHeaderLine("graphics");
    assert HeaderLine("graphics") == "[graphics]";
    StripAnyFixed("[graphics]", IsSpace);
    assert Strip("") == "";
  }

  /** The lines in between are the four graphics entries, indented. */
  lemma GraphicsEntries()
    ensures IndentedEntries(GraphicsDefaults, GraphicsLines)
  {
    var c := GraphicsDefaults;
    var lines := GraphicsLines;
    assert lines[1] == Indent + EntryLine(c.1[0].0, c.1[0].1);
    assert lines[2] == Indent + EntryLine(c.1[1].0, c.1[1].1);
    assert lines[3] == Indent + EntryLine(c.1[2].0, c.1[2].1);
    assert lines[4] == Indent + EntryLine(c.1[3].0, c.1[3].1);
  }

  lemma SoundWords()
    ensures PlainCategory(SoundDefaults)
  {
    assert PlainWord("master_volume") && PlainWord("sound_fx_volume") && PlainWord("music_volume");
    assert PlainWord("50") && PlainWord("sound");
  }

  /** A block whose first line is its indented header and whose last line is
      blank or only indentation. */
  lemma IndentedBlockEnds(c: (string, Category), lines: seq<string>)
    requires PlainWord(c.0) && |lines| == |c.1| + 2
    requires lines[0] == Indent + HeaderLine(c.0)
    requires lines[|lines| - 1] == "" || lines[|lines| - 1] == Indent
    ensures BlockEnds(c, lines)
  {
    IndentedHeader(c.0);
    IndentBlank();
    assert Strip("") == "";
  }

  /** The first line of the sound block is its indented header, the last is blank. */
  lemma SoundEnds()
    ensures BlockEnds(SoundDefaults, SoundLines)
  {
    assert PlainWord("sound");
    assert SoundLines[0] == Indent + HeaderLine("sound");
    assert SoundLines[|SoundLines| - 1] == "";
    IndentedBlockEnds(SoundDefaults, SoundLines);
  }

  /** The lines in between are the sound entries, indented. */
  lemma SoundEntries()
    ensures IndentedEntries(SoundDefaults, SoundLines)
  {
    var c := SoundDefaults;
    var lines := SoundLines;
    assert lines[1] == Indent + EntryLine(c.1[0].0, c.1[0].1);
    assert lines[2] == Indent + EntryLine(c.1[1].0, c.1[1].1);
    assert lines[3] == Indent + EntryLine(c.1[2].0, c.1[2].1);
  }

  lemma GuiWords()
    ensures PlainCategory(GuiDefaults)
  {
    assert PlainWord("lastplayer") && PlainWord("Player") && PlainWord("gui");
  }

  /** The first line of the gui block is its indented header, the last is blank. */
  lemma GuiEnds()
    ensures BlockEnds(GuiDefaults, GuiLines)
  {
    assert PlainWord("gui");
    assert GuiLines[0] == Indent + HeaderLine("gui");
    assert GuiLines[|GuiLines| - 1] == "";
    IndentedBlockEnds(GuiDefaults, GuiLines);
  }

  /** The lines in between are the gui entries, indented. */
  lemma GuiEntries()
    ensures IndentedEntries(GuiDefaults, GuiLines)
  {
    var c := GuiDefaults;
    var lines := GuiLines;
    assert lines[1] == Indent + EntryLine(c.1[0].0, c.1[0].1);
  }

  lemma GeneralWords()
    ensures PlainCategory(GeneralDefaults)
  {
    assert PlainWord("debug_saves") && PlainWord("0") && PlainWord("autosave") && PlainWord("YEARLY");
    assert PlainWord("update_time") && PlainWord("1.000000") && PlainWord("general");
  }

  /** The first line of the general block is its indented header, the last is blank. */
  lemma GeneralEnds()
    ensures BlockEnds(GeneralDefaults, GeneralLines)
  {
    assert PlainWord("general");
    assert GeneralLines[0] == Indent + HeaderLine("general");
    assert GeneralLines[|GeneralLines| - 1] == Indent;
    IndentedBlockEnds(GeneralDefaults, GeneralLines);
  }

  /** The lines in between are the general entries, indented. */
  lemma GeneralEntries()
    ensures IndentedEntries(GeneralDefaults, GeneralLines)
  {
    var c := GeneralDefaults;
    var lines := GeneralLines;
    assert lines[1] == Indent + EntryLine(c.1[0].0, c.1[0].1);
    assert lines[2] == Indent + EntryLine(c.1[1].0, c.1[1].1);
    assert lines[3] == Indent + EntryLine(c.1[2].0, c.1[2].1);
  }

  /** Each block of the default text is laid out as `IndentedEntries` and
      `BlockEnds` describe, with plain words only. */
  lemma DefaultBlocks()
    ensures PlainCategory(GraphicsDefaults) && BlockEnds(GraphicsDefaults, GraphicsLines) && IndentedEntries(GraphicsDefaults, GraphicsLines)
    ensures PlainCategory(SoundDefaults) && BlockEnds(SoundDefaults, SoundLines) && IndentedEntries(SoundDefaults, SoundLines)
    ensures PlainCategory(GuiDefaults) && BlockEnds(GuiDefaults, GuiLines) && IndentedEntries(GuiDefaults, GuiLines)
    ensures PlainCategory(GeneralDefaults) && BlockEnds(GeneralDefaults, GeneralLines) && IndentedEntries(GeneralDefaults, GeneralLines)
  {
    GraphicsWords();
    GraphicsEnds();
    GraphicsEntries();
    SoundWords();
    SoundEnds();
    SoundEntries();
    GuiWords();
    GuiEnds();
    GuiEntries();
    GeneralWords();
    GeneralEnds();
    GeneralEntries();
  }

  /** The lines of several blocks, one after the other. */
  function Concat(blocks: seq<seq<string>>): (lines: seq<string>)
  {
    if blocks == [] then [] else Concat(blocks[..|blocks| - 1]) + blocks[|blocks| - 1]
  }

  /** Wherever it comes in a file, after categories with other names, the
      block `lines` appends the category `c`. */
  ghost predicate BlockReads(c: (string, Category), lines: seq<string>) {
    forall p: Settings, current: Option<string> | !HasKey(p, c.0) ::
      Run(ParseState(p, current), lines) == ParseState(p + [c], Some(c.0))
  }

  lemma PlainBlockReads(c: (string, Category), lines: seq<string>)
    requires PlainCategory(c) && BlockEnds(c, lines) && IndentedEntries(c, lines)
    ensures BlockReads(c, lines)
  {
    forall p: Settings, current: Option<string> | !HasKey(p, c.0)
      ensures Run(ParseState(p, current), lines) == ParseState(p + [c], Some(c.0))
    {
      PlainBlockRead(p, current, c, lines);
    }
  }

  /** Blocks that read as categories with different names, one after the
      other, give those categories in their order. */
  lemma {:induction false} BlocksRead(cs: Settings, blocks: seq<seq<string>>)
    requires |cs| == |blocks| && DistinctKeys(cs)
    requires forall i :: 0 <= i < |cs| ==> BlockReads(cs[i], blocks[i])
    ensures Run(Start, Concat(blocks)) == ParseState(cs, if cs == [] then None else Some(cs[|cs| - 1].0))
  {
    if cs != [] {
      var n := |cs| - 1;
      var init, c := cs[..n], cs[n];
      assert forall i :: 0 <= i < n ==> init[i] == cs[i];
      BlocksRead(init, blocks[..n]);
      assert !HasKey(init, c.0) by {
        assert forall i :: 0 <= i < n ==> init[i].0 != c.0;
      }
      assert BlockReads(c, blocks[n]);
      RunAppend(Start, Concat(blocks[..n]), blocks[n]);
      assert init + [c] == cs;
    }
  }

  lemma ConcatFour(a: seq<string>, b: seq<string>, c: seq<string>, d: seq<string>)
    ensures Concat([a, b, c, d]) == a + b + c + d
  {
    var x0: seq<seq<string>> := [];
    var x1, x2, x3, x4 := x0 + [a], x0 + [a, b], x0 + [a, b, c], [a, b, c, d];
    assert x1[..0] == x0 && x2[..1] == x1 && x3[..2] == x2 && x4[..3] == x3;
    assert Concat(x1) == a;
    assert Concat(x2) == a + b;
    assert Concat(x3) == a + b + c;
  }

  /** The four blocks, read one after the other, give the four categories. */
  lemma DefaultLinesRead()
    ensures Run(Start, DefaultSettingsLines) == ParseState(DefaultSettings, Some("general"))
  {
    DefaultBlocks();
    ConcatFour(GraphicsLines, SoundLines, GuiLines, GeneralLines);
    DefaultNamesDistinct();
    PlainBlockReads(GraphicsDefaults, GraphicsLines);
    PlainBlockReads(SoundDefaults, SoundLines);
    PlainBlockReads(GuiDefaults, GuiLines);
    PlainBlockReads(GeneralDefaults, GeneralLines);
    var cs, blocks := DefaultSettings, [GraphicsLines, SoundLines, GuiLines, GeneralLines];
    assert forall i :: 0 <= i < |cs| ==> BlockReads(cs[i], blocks[i]) by {
      assert cs[0] == GraphicsDefaults && cs[1] == SoundDefaults && cs[2] == GuiDefaults && cs[3] == GeneralDefaults;
    }
    BlocksRead(cs, blocks);
  }

  /** No category name of the default text occurs twice. */
  lemma DefaultNamesDistinct()
    ensures DistinctKeys(DefaultSettings)
  {
  }

  /** The default text splits into its lines again. */
  lemma DefaultTextLines()
    ensures FileLines(DefaultSettingsText) == DefaultSettingsLines
  {
    var g, s, u, n := GraphicsLines, SoundLines, GuiLines, GeneralLines;
    DefaultBlocks();
    PlainBlockClean(GraphicsDefaults, g);
    PlainBlockClean(SoundDefaults, s);
    PlainBlockClean(GuiDefaults, u);
    PlainBlockClean(GeneralDefaults, n);
    CleanAppend(g, s);
    CleanAppend(g + s, u);
    CleanAppend(g + s + u, n);
    var lines := DefaultSettingsLines;
    JoinLacks(lines, "\n", '\r');
    FileLinesPlain(DefaultSettingsText);
    SplitJoin(lines, '\n');
  }

  /** `load_settings` on the file `create_default_settings` writes yields the
      four default categories, each with its entries in the literal's order. */
  lemma DefaultSettingsRead()
    ensures Parse(DefaultSettingsText) == DefaultSettings
  {
    DefaultTextLines();
    DefaultLinesRead();
  }

  lemma DefaultsUpdateTime(default: Option<string>)
    ensures Lookup(DefaultSettings, "general", "update_time", default) == Some("1.000000")
  {
    var s := DefaultSettings;
    assert s[0].0 == "graphics" && s[1].0 == "sound" && s[2].0 == "gui" && s[3].0 == "general";
    FindFirst(s, "general", 3);
    var items := GeneralDefaults.1;
    assert items[0].0 == "debug_saves" && items[1].0 == "autosave" && items[2] == ("update_time", "1.000000");
    FindFirst(items, "update_time", 2);
  }

  /** The indentation does not hide the entries: in the default file
      `general.update_time` is `1.000000`. */
  lemma DefaultUpdateTime(default: Option<string>)
    ensures Lookup(Parse(DefaultSettingsText), "general", "update_time", default) == Some("1.000000")
  {
    DefaultSettingsRead();
    DefaultsUpdateTime(default);
  }
}
