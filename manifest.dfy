/** The line-oriented reading of one `.mod` manifest done inside
    `GameLauncher.load_mods`: the fields `name`, `dependencies` and
    `user_dir` are picked out by line prefix; every other line is ignored. */
module Manifest {
  import opened Wrappers
  import opened PyText

  /** What a manifest declares. `name` is `""` when no name line was seen. */
  datatype Manifest = Manifest(name: string, dependencies: seq<string>, userDir: string)

  /** Why a manifest could not be read: the index of a recognised line that has
      no `=` (there `line.split("=")[1]` raises `IndexError`). */
  datatype ManifestError = MissingEquals(line: nat)

  predicate Quote(c: char) { c == '"' }
  predicate Braces(c: char) { c == '{' || c == '}' }

  /** `line.split("=")[1]`, when the line has an `=`. */
  function SecondField(line: string): string
  {
    var parts := SplitOn(line, "=");
    if |parts| > 1 then parts[1] else ""
  }

  /** `line.split("=")[1].strip().strip('"')`: the value of a `name` or `user_dir` line. */
  function QuotedValue(line: string): string
  {
    StripAny(Strip(SecondField(line)), Quote)
  }

  /** `dep.strip()` is non-empty: an entry the comprehension keeps. */
  predicate NonBlank(item: string) {
    Strip(item) != ""
  }

  /** `dep.strip().strip('"')`: what the comprehension keeps of an entry. */
  function Entry(item: string): string {
    StripAny(Strip(item), Quote)
  }

  /** `[dep.strip().strip('"') for dep in items if dep.strip()]`. */
  function CleanDependencies(items: seq<string>): seq<string> {
    Comprehension(items, NonBlank, Entry)
  }

  /** The dependency list of a `dependencies` line: the text after the first `=`
      and before any second one, stripped of whitespace and then of braces,
      split at commas, blank entries dropped and each entry unquoted. */
  function DependencyList(line: string): seq<string>
  {
    CleanDependencies(SplitOn(StripAny(Strip(SecondField(line)), Braces), ","))
  }

  predicate IsNameLine(line: string) { StartsWith(line, "name") }
  predicate IsDependenciesLine(line: string) { StartsWith(line, "dependencies") }
  predicate IsUserDirLine(line: string) { StartsWith(line, "user_dir") }

  /** A line one of the three branches acts on. */
  predicate Recognised(line: string) {
    IsNameLine(line) || IsDependenciesLine(line) || IsUserDirLine(line)
  }

  /** The effect of line number `k` on the fields read so far; the branches are
      tried in the source's order. */
  function ApplyLine(m: Manifest, line: string, k: nat): Result<Manifest, ManifestError> {
    if !Recognised(line) then Ok(m)
    else if '=' !in line then Err(MissingEquals(k))
    else if IsNameLine(line) then Ok(m.(name := QuotedValue(line)))
    else if IsDependenciesLine(line) then Ok(m.(dependencies := DependencyList(line)))
    else Ok(m.(userDir := QuotedValue(line)))
  }

  /** The fields after reading `lines` in order, starting from
      `name = ""`, `dependencies = []`, `user_dir = ""`; the first error ends the read. */
  function ReadLines(lines: seq<string>): Result<Manifest, ManifestError> {
    if lines == [] then Ok(Manifest("", [], ""))
    else
      match ReadLines(lines[..|lines| - 1])
      case Err(e) => Err(e)
      case Ok(m) => ApplyLine(m, lines[|lines| - 1], |lines| - 1)
  }

  /** The manifest declared by a file's text, split at `'\n'` as `content.split('\n')` does. */
  function ParseManifest(content: string): Result<Manifest, ManifestError> {
    ReadLines(SplitOn(content, "\n"))
  }

  /** The first error ends the read: no later line changes it. */
  lemma {:induction false} ReadLinesErrorSticks(lines: seq<string>, k: nat)
    requires k <= |lines| && ReadLines(lines[..k]).Err?
    ensures ReadLines(lines) == ReadLines(lines[..k])
    decreases |lines|
  {
    if k < |lines| {
      var init := lines[..|lines| - 1];
      assert init[..k] == lines[..k];
      ReadLinesErrorSticks(init, k);
    } else {
      assert lines[..k] == lines;
    }
  }

  /** The loop of `load_mods` over `content.split('\n')`, updating `name`,
      `dependencies` and `user_dir` line by line with the branches tried in
      the source's order; the `IndexError` of a recognised line without `=`
      ends the read. */
  method ReadManifest(content: string) returns (r: Result<Manifest, ManifestError>)
    ensures r == ParseManifest(content)
  {
    var lines := SplitOn(content, "\n");
    var name, dependencies, userDir := "", [], "";
    var i := 0;
    while i < |lines|
      invariant 0 <= i <= |lines|
      invariant ReadLines(lines[..i]) == Ok(Manifest(name, dependencies, userDir))
    {
      var line := lines[i];
      assert lines[..i + 1][..i] == lines[..i];
      if IsNameLine(line) {
        if '=' !in line {
          ReadLinesErrorSticks(lines, i + 1);
          return Err(MissingEquals(i));
        }
        name := QuotedValue(line);
      } else if IsDependenciesLine(line) {
        if '=' !in line {
          ReadLinesErrorSticks(lines, i + 1);
          return Err(MissingEquals(i));
        }
        dependencies := DependencyList(line);
      } else if IsUserDirLine(line) {
        if '=' !in line {
          ReadLinesErrorSticks(lines, i + 1);
          return Err(MissingEquals(i));
        }
        userDir := QuotedValue(line);
      }
      i := i + 1;
    }
    assert lines[..i] == lines;
    return Ok(Manifest(name, dependencies, userDir));
  }

  /** Every recognised line has an `=`. */
  predicate AllRecognisedHaveEquals(lines: seq<string>) {
    forall i :: 0 <= i < |lines| && Recognised(lines[i]) ==> '=' in lines[i]
  }

  /** Line `i` is the last line of `lines` that starts with `prefix`. */
  predicate LastWithPrefix(lines: seq<string>, prefix: string, i: int) {
    0 <= i < |lines| && StartsWith(lines[i], prefix)
    && forall j :: i < j < |lines| ==> !StartsWith(lines[j], prefix)
  }

  /** No line of `lines` starts with `prefix`. */
  predicate NoneWithPrefix(lines: seq<string>, prefix: string) {
    forall j :: 0 <= j < |lines| ==> !StartsWith(lines[j], prefix)
  }

  lemma NamePrefixesExclusive(line: string)
    ensures IsNameLine(line) ==> !IsDependenciesLine(line) && !IsUserDirLine(line)
    ensures IsDependenciesLine(line) ==> !IsUserDirLine(line)
  {
    if IsNameLine(line) { assert line[0] == 'n'; }
    if IsDependenciesLine(line) { assert line[0] == 'd'; }
  }

  /** Reading fails exactly when some recognised line lacks an `=`, and then
      the error names the first such line. */
  lemma {:induction false} ReadLinesFails(lines: seq<string>)
    ensures ReadLines(lines).Ok? <==> AllRecognisedHaveEquals(lines)
    ensures ReadLines(lines).Err? ==>
      var k := ReadLines(lines).error.line;
      k < |lines| && Recognised(lines[k]) && '=' !in lines[k]
      && AllRecognisedHaveEquals(lines[..k])
  {
    if lines != [] {
      var init := lines[..|lines| - 1];
      ReadLinesFails(init);
      assert forall i :: 0 <= i < |init| ==> init[i] == lines[i];
      if ReadLines(init).Err? {
        var k := ReadLines(init).error.line;
        assert lines[..k] == init[..k];
      } else {
        assert lines[..|lines| - 1] == init;
      }
    }
  }

  /** How one line that reads successfully changes the fields. */
  lemma ApplyLineEffect(m: Manifest, line: string, k: nat)
    requires ApplyLine(m, line, k).Ok?
    ensures var m' := ApplyLine(m, line, k).value;
      && m'.name == (if IsNameLine(line) then QuotedValue(line) else m.name)
      && m'.dependencies == (if IsDependenciesLine(line) then DependencyList(line) else m.dependencies)
      && m'.userDir == (if IsUserDirLine(line) then QuotedValue(line) else m.userDir)
  {
    NamePrefixesExclusive(line);
  }

  /** The fields after a successful read of `lines` are those after its last
      line was applied to the fields read before it. */
  lemma ReadLinesStep(lines: seq<string>)
    requires lines != [] && ReadLines(lines).Ok?
    ensures ReadLines(lines[..|lines| - 1]).Ok?
    ensures var n := |lines| - 1;
      var m := ReadLines(lines[..n]).value;
      var m' := ReadLines(lines).value;
      && m'.name == (if IsNameLine(lines[n]) then QuotedValue(lines[n]) else m.name)
      && m'.dependencies == (if IsDependenciesLine(lines[n]) then DependencyList(lines[n]) else m.dependencies)
      && m'.userDir == (if IsUserDirLine(lines[n]) then QuotedValue(lines[n]) else m.userDir)
  {
    var n := |lines| - 1;
    ApplyLineEffect(ReadLines(lines[..n]).value, lines[n], n);
  }

  /** Line `i` stays the last of its kind in the prefix that holds it. */
  lemma LastWithPrefixInit(lines: seq<string>, prefix: string, i: int)
    requires |lines| > 0 && LastWithPrefix(lines, prefix, i) && i < |lines| - 1
    ensures LastWithPrefix(lines[..|lines| - 1], prefix, i)
  {
  }

  /** The last `name` line decides the name, and with no `name` line it stays
      `""`. A later `name` line overwrites every earlier one. */
  lemma {:induction false} ReadLinesName(lines: seq<string>)
    requires ReadLines(lines).Ok?
    ensures AllRecognisedHaveEquals(lines)
    ensures NoneWithPrefix(lines, "name") ==> ReadLines(lines).value.name == ""
    ensures forall i | LastWithPrefix(lines, "name", i) :: ReadLines(lines).value.name == QuotedValue(lines[i])
  {
    ReadLinesFails(lines);
    if lines != [] {
      var n := |lines| - 1;
      var init := lines[..n];
      assert forall i :: 0 <= i < n ==> init[i] == lines[i];
      ReadLinesStep(lines);
      ReadLinesName(init);
      forall i | LastWithPrefix(lines, "name", i)
        ensures ReadLines(lines).value.name == QuotedValue(lines[i])
      {
        if i < n {
          LastWithPrefixInit(lines, "name", i);
          assert !IsNameLine(lines[n]);
          assert init[i] == lines[i];
          assert ReadLines(lines).value.name == ReadLines(init).value.name;
          assert ReadLines(lines).value.name == QuotedValue(lines[i]);
        } else {
          assert IsNameLine(lines[n]);
          assert i == n;
          assert ReadLines(lines).value.name == QuotedValue(lines[n]);
        }
      }
    }
  }

  /** The last `dependencies` line decides the dependency list, and with none
      it stays empty. */
  lemma {:induction false} ReadLinesDependencies(lines: seq<string>)
    requires ReadLines(lines).Ok?
    ensures AllRecognisedHaveEquals(lines)
    ensures NoneWithPrefix(lines, "dependencies") ==> ReadLines(lines).value.dependencies == []
    ensures forall i | LastWithPrefix(lines, "dependencies", i) ::
      ReadLines(lines).value.dependencies == DependencyList(lines[i])
  {
    ReadLinesFails(lines);
    if lines != [] {
      var n := |lines| - 1;
      var init := lines[..n];
      assert forall i :: 0 <= i < n ==> init[i] == lines[i];
      ReadLinesStep(lines);
      ReadLinesDependencies(init);
      forall i | LastWithPrefix(lines, "dependencies", i)
        ensures ReadLines(lines).value.dependencies == DependencyList(lines[i])
      {
        if i < n {
          LastWithPrefixInit(lines, "dependencies", i);
          assert !IsDependenciesLine(lines[n]);
          assert init[i] == lines[i];
          assert ReadLines(lines).value.dependencies == ReadLines(init).value.dependencies;
          assert ReadLines(lines).value.dependencies == DependencyList(lines[i]);
        } else {
          assert IsDependenciesLine(lines[n]);
          assert i == n;
          assert ReadLines(lines).value.dependencies == DependencyList(lines[n]);
        }
      }
    }
  }

  /** The last `user_dir` line decides the user directory, and with none it stays `""`. */
  lemma {:induction false} ReadLinesUserDir(lines: seq<string>)
    requires ReadLines(lines).Ok?
    ensures AllRecognisedHaveEquals(lines)
    ensures NoneWithPrefix(lines, "user_dir") ==> ReadLines(lines).value.userDir == ""
    ensures forall i | LastWithPrefix(lines, "user_dir", i) :: ReadLines(lines).value.userDir == QuotedValue(lines[i])
  {
    ReadLinesFails(lines);
    if lines != [] {
      var n := |lines| - 1;
      var init := lines[..n];
      assert forall i :: 0 <= i < n ==> init[i] == lines[i];
      ReadLinesStep(lines);
      ReadLinesUserDir(init);
      forall i | LastWithPrefix(lines, "user_dir", i)
        ensures ReadLines(lines).value.userDir == QuotedValue(lines[i])
      {
        if i < n {
          LastWithPrefixInit(lines, "user_dir", i);
          assert !IsUserDirLine(lines[n]);
          assert init[i] == lines[i];
          assert ReadLines(lines).value.userDir == ReadLines(init).value.userDir;
          assert ReadLines(lines).value.userDir == QuotedValue(lines[i]);
        } else {
          assert IsUserDirLine(lines[n]);
          assert i == n;
          assert ReadLines(lines).value.userDir == QuotedValue(lines[n]);
        }
      }
    }
  }

  /** The declared dependencies are exactly the stripped, unquoted, non-blank
      entries of the comma-separated list. */
  lemma CleanDependenciesEntries(items: seq<string>)
    ensures forall d | d in CleanDependencies(items) ::
      exists k :: 0 <= k < |items| && NonBlank(items[k]) && d == Entry(items[k])
    ensures forall k | 0 <= k < |items| && NonBlank(items[k]) :: Entry(items[k]) in CleanDependencies(items)
  {
    ComprehensionFrom(items, NonBlank, Entry);
    forall k | 0 <= k < |items| && NonBlank(items[k]) ensures Entry(items[k]) in CleanDependencies(items) {
      ComprehensionHas(items, NonBlank, Entry, k);
    }
  }

  /** Entries are kept in declaration order: with no blank entry, entry `k`
      of the list is dependency `k`. */
  lemma CleanDependenciesInOrder(items: seq<string>)
    requires forall k :: 0 <= k < |items| ==> NonBlank(items[k])
    ensures |CleanDependencies(items)| == |items|
    ensures forall k :: 0 <= k < |items| ==> CleanDependencies(items)[k] == Entry(items[k])
  {
    ComprehensionAllKept(items, NonBlank, Entry);
  }

  /** In general the list is built in declaration order: one more item adds
      its entry at the end when it is non-blank, and nothing otherwise. */
  lemma CleanDependenciesSnoc(items: seq<string>, item: string)
    ensures CleanDependencies(items + [item])
      == CleanDependencies(items) + (if NonBlank(item) then [Entry(item)] else [])
  {
    ComprehensionSnoc(items, item, NonBlank, Entry);
  }
}
