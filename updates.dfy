/** `UpdateCheckerDialog`: for every mod with a repository URL, the latest
    release and the latest commit that the code host reports are compared
    with the local mod file, and the mods found out of date are listed. The
    network, the file system and the date parser are parameters (`World`). */
module Updates {
  import opened Wrappers
  import opened PyText
  import opened PyDict

  /** The entries of one mod's info dict that the check reads, `None` where
      the key is missing. */
  datatype ModInfo = ModInfo(github: Option<string>, currentRelease: Option<string>, file: Option<string>)

  /** The two fields of the latest-release JSON object that the check reads. */
  datatype ReleaseInfo = ReleaseInfo(tagName: Option<string>, publishedAt: Option<string>)

  /** What `requests.get(url)` gives: an exception with its message, or a
      status code and the decoded body (only looked at when it is 200). */
  datatype Reply<T> = Raised(error: string) | Response(status: int, body: T)

  /** The outside world as the check sees it:
      - `release` and `commits` answer a GET of an API URL; the body of a
        commits reply is `[0]['commit']['committer']['date']` of the JSON,
        or the message of the exception that lookup raises;
      - `modified(folder, file)` is `os.path.getmtime` of the joined path in
        microseconds since the epoch, the resolution `utcfromtimestamp` keeps;
      - `parseTime` is `datetime.strptime(s, "%Y-%m-%dT%H:%M:%SZ")` in whole
        seconds since the epoch. */
  datatype World = World(
    release: string -> Reply<ReleaseInfo>,
    commits: string -> Reply<Result<Option<string>, string>>,
    modified: (string, string) -> Result<int, string>,
    parseTime: string -> Result<int, string>)

  const MicrosPerSecond: int := 1000000

  const GithubHost: string := "github.com"
  const ApiHost: string := "api.github.com/repos"

  /** Python truthiness of an optional string: present and not empty. */
  predicate Truthy(s: Option<string>) {
    s.Some? && s.value != ""
  }

  // ---------------------------------------------------------------------
  // API URLs
  // ---------------------------------------------------------------------

  /** `github_url.replace("github.com", "api.github.com/repos")`. */
  function ApiBase(url: string): (r: string)
    ensures r == Join(SplitOn(url, GithubHost), ApiHost)
  {
    ReplaceIsJoinOfSplit(url, GithubHost, ApiHost);
    ReplaceAll(url, GithubHost, ApiHost)
  }

  function ReleaseApiUrl(url: string): string {
    ApiBase(url) + "/releases/latest"
  }

  function CommitsApiUrl(url: string): string {
    ApiBase(url) + "/commits"
  }

  /** `replace` copies a prefix none of whose characters can start the pattern. */
  lemma {:induction false} ReplaceSkips(p: string, s: string, pat: string, rep: string)
    requires pat != []
    requires forall k :: 0 <= k < |p| ==> p[k] != pat[0]
    ensures ReplaceAll(p + s, pat, rep) == p + ReplaceAll(s, pat, rep)
    decreases |p|
  {
    if p != [] {
      assert !StartsWith(p + s, pat) by {
        if |pat| <= |p + s| { assert (p + s)[..|pat|][0] == p[0]; }
      }
      assert ReplaceAll(p + s, pat, rep) == [p[0]] + ReplaceAll((p + s)[1..], pat, rep);
      assert (p + s)[1..] == p[1..] + s;
      ReplaceSkips(p[1..], s, pat, rep);
      assert [p[0]] + (p[1..] + ReplaceAll(s, pat, rep)) == p + ReplaceAll(s, pat, rep);
    } else {
      assert p + s == s;
    }
  }

  /** A repository URL `p + "github.com" + q`, where no character of the
      scheme part `p` is a `g` and `q` does not mention the host again, has
      its API base `p + "api.github.com/repos" + q`; the two API URLs add
      `/releases/latest` and `/commits` to that. */
  lemma RepoApiUrls(p: string, q: string)
    requires forall k :: 0 <= k < |p| ==> p[k] != 'g'
    requires !Contains(q, GithubHost)
    ensures ReleaseApiUrl(p + GithubHost + q) == p + ApiHost + q + "/releases/latest"
    ensures CommitsApiUrl(p + GithubHost + q) == p + ApiHost + q + "/commits"
  {
    var url := p + GithubHost + q;
    assert GithubHost[0] == 'g';
    assert url == p + (GithubHost + q);
    ReplaceSkips(p, GithubHost + q, GithubHost, ApiHost);
    assert StartsWith(GithubHost + q, GithubHost) by {
      assert (GithubHost + q)[..|GithubHost|] == GithubHost;
    }
    assert (GithubHost + q)[|GithubHost|..] == q;
    ReplaceAbsent(q, GithubHost, ApiHost);
    assert ApiBase(url) == p + ApiHost + q;
  }

  /** The common case: `https://github.com/<owner>/<repo>`. */
  lemma HttpsRepoApiUrls(path: string)
    requires !Contains(path, GithubHost)
    ensures ReleaseApiUrl("https://" + GithubHost + path) == "https://" + ApiHost + path + "/releases/latest"
    ensures CommitsApiUrl("https://" + GithubHost + path) == "https://" + ApiHost + path + "/commits"
  {
    var scheme := "https://";
    assert forall k :: 0 <= k < |scheme| ==> scheme[k] != 'g';
    RepoApiUrls(scheme, path);
  }

  // ---------------------------------------------------------------------
  // One mod
  // ---------------------------------------------------------------------

  /** What the `try` block has read once all its reads succeeded. */
  datatype Observation = Observation(tag: Option<string>, releaseTime: Option<int>, commitTime: Option<int>, modified: int)

  /** A date string is parsed only when it is truthy. */
  function ParseIfTruthy(date: Option<string>, w: World): (r: Result<Option<int>, string>)
    ensures !Truthy(date) ==> r == Ok(None)
    ensures Truthy(date) && w.parseTime(date.value).Ok? ==> r == Ok(Some(w.parseTime(date.value).value))
    ensures Truthy(date) && w.parseTime(date.value).Err? ==> r == Err(w.parseTime(date.value).error)
  {
    if !Truthy(date) then Ok(None)
    else match w.parseTime(date.value)
      case Ok(t) => Ok(Some(t))
      case Err(e) => Err(e)
  }

  /** The reads of the `try` block in their order: the release reply, the
      commits reply, the file's modification time, and the parses of the two
      dates. The first exception ends the block. */
  function Observe(github: string, folder: string, file: string, w: World): Result<Observation, string> {
    var rel := w.release(ReleaseApiUrl(github));
    if rel.Raised? then Err(rel.error) else
    var tag := if rel.status == 200 then rel.body.tagName else None;
    var releaseDate := if rel.status == 200 then rel.body.publishedAt else None;
    var com := w.commits(CommitsApiUrl(github));
    if com.Raised? then Err(com.error) else
    if com.status == 200 && com.body.Err? then Err(com.body.error) else
    var commitDate := if com.status == 200 then com.body.value else None;
    var m := w.modified(folder, file);
    if m.Err? then Err(m.error) else
    var rt := ParseIfTruthy(releaseDate, w);
    if rt.Err? then Err(rt.error) else
    var ct := ParseIfTruthy(commitDate, w);
    if ct.Err? then Err(ct.error) else
    Ok(Observation(tag, rt.value, ct.value, m.value))
  }

  /** `has_new_release`: there is a release date, and either the release has
      a tag that differs from `current_release`, or it is later than the
      file. */
  predicate NewRelease(o: Observation, currentRelease: Option<string>) {
    o.releaseTime.Some? &&
    ((Truthy(o.tag) && o.tag != currentRelease) || o.releaseTime.value * MicrosPerSecond > o.modified)
  }

  /** `has_new_commit`: there is a commit date later than the file. */
  predicate NewCommit(o: Observation) {
    o.commitTime.Some? && o.commitTime.value * MicrosPerSecond > o.modified
  }

  /** `f"{latest_release_tag}"`: a missing tag prints as `None`. */
  function TagText(tag: Option<string>): string {
    if tag.Some? then tag.value else "None"
  }

  function BothText(name: string, tag: Option<string>): string {
    name + " - New packed release, " + TagText(tag) + ", and new commits avaliable."
  }

  function ReleaseText(name: string, tag: Option<string>): string {
    name + " - New packed release available: " + TagText(tag)
  }

  function CommitsText(name: string): string {
    name + " - New commits avaliable."
  }

  /** The entry the mod adds to `mods_with_updates`, if any: both kinds of
      news first, then a release alone, then commits alone. */
  function Announce(name: string, url: string, tag: Option<string>, release: bool, commit: bool): (r: Option<(string, string)>)
    ensures r.Some? <==> release || commit
    ensures r.Some? ==> r.value.1 == url
    ensures release && commit ==> r.value.0 == BothText(name, tag)
    ensures release && !commit ==> r.value.0 == ReleaseText(name, tag)
    ensures !release && commit ==> r.value.0 == CommitsText(name)
  {
    if release && commit then Some((BothText(name, tag), url))
    else if release then Some((ReleaseText(name, tag), url))
    else if commit then Some((CommitsText(name), url))
    else None
  }

  /** The effect of one mod with a repository URL: the entry it adds, or the
      message of the exception that ended its `try` block. */
  datatype Step = Step(entry: Option<(string, string)>, error: Option<string>)

  function Examine(name: string, github: string, currentRelease: Option<string>, folder: string, file: string, w: World): (s: Step)
    ensures s.error.Some? <==> Observe(github, folder, file, w).Err?
    ensures s.error.Some? ==> s.entry.None? && s.error.value == Observe(github, folder, file, w).error
    ensures Observe(github, folder, file, w).Ok? ==>
      var o := Observe(github, folder, file, w).value;
      s.entry == Announce(name, github, o.tag, NewRelease(o, currentRelease), NewCommit(o))
  {
    match Observe(github, folder, file, w)
    case Err(e) => Step(None, Some(e))
    case Ok(o) => Step(Announce(name, github, o.tag, NewRelease(o, currentRelease), NewCommit(o)), None)
  }

  /** `has_new_release` in terms of the world: a release reply with status
      200 whose `published_at` is truthy, and a tag that differs from
      `current_release` or a publication later than the file. */
  lemma ReleaseRule(github: string, currentRelease: Option<string>, folder: string, file: string, w: World)
    requires Observe(github, folder, file, w).Ok?
    ensures var rel := w.release(ReleaseApiUrl(github));
      NewRelease(Observe(github, folder, file, w).value, currentRelease) <==>
        rel.Response? && rel.status == 200 && Truthy(rel.body.publishedAt) &&
        ((Truthy(rel.body.tagName) && rel.body.tagName != currentRelease) ||
         w.parseTime(rel.body.publishedAt.value).value * MicrosPerSecond > w.modified(folder, file).value)
  {
  }

  /** `has_new_commit` in terms of the world: a commits reply with status 200
      whose first commit date is truthy and later than the file. */
  lemma CommitRule(github: string, folder: string, file: string, w: World)
    requires Observe(github, folder, file, w).Ok?
    ensures var com := w.commits(CommitsApiUrl(github));
      NewCommit(Observe(github, folder, file, w).value) <==>
        com.Response? && com.status == 200 && com.body.Ok? && Truthy(com.body.value) &&
        w.parseTime(com.body.value.value).value * MicrosPerSecond > w.modified(folder, file).value
  {
  }

  /** The `try` block of `check_for_updates` for one mod: the two flags are
      set step by step and the message is chosen from them. */
  method CheckMod(name: string, github: string, currentRelease: Option<string>, folder: string, file: string, w: World)
    returns (entry: Option<(string, string)>, error: Option<string>)
    ensures Step(entry, error) == Examine(name, github, currentRelease, folder, file, w)
  {
    entry, error := None, None;
    var releaseResponse := w.release(ReleaseApiUrl(github));
    if releaseResponse.Raised? {
      return None, Some(releaseResponse.error);
    }
    var latestReleaseTag: Option<string> := None;
    var latestReleaseDate: Option<string> := None;
    if releaseResponse.status == 200 {
      latestReleaseTag := releaseResponse.body.tagName;
      latestReleaseDate := releaseResponse.body.publishedAt;
    }
    var commitResponse := w.commits(CommitsApiUrl(github));
    if commitResponse.Raised? {
      return None, Some(commitResponse.error);
    }
    var latestCommitDate: Option<string> := None;
    if commitResponse.status == 200 {
      if commitResponse.body.Err? {
        return None, Some(commitResponse.body.error);
      }
      latestCommitDate := commitResponse.body.value;
    }
    var modifiedTime := w.modified(folder, file);
    if modifiedTime.Err? {
      return None, Some(modifiedTime.error);
    }
    var modified := modifiedTime.value;

    var hasNewRelease := false;
    var hasNewCommit := false;
    ghost var releaseTime: Option<int> := None;
    ghost var commitTime: Option<int> := None;
    if Truthy(latestReleaseDate) {
      var released := w.parseTime(latestReleaseDate.value);
      if released.Err? {
        return None, Some(released.error);
      }
      releaseTime := Some(released.value);
      if (Truthy(latestReleaseTag) && latestReleaseTag != currentRelease) || released.value * MicrosPerSecond > modified {
        hasNewRelease := true;
      }
    }
    if Truthy(latestCommitDate) {
      var committed := w.parseTime(latestCommitDate.value);
      if committed.Err? {
        return None, Some(committed.error);
      }
      commitTime := Some(committed.value);
      if committed.value * MicrosPerSecond > modified {
        hasNewCommit := true;
      }
    }
    ghost var o := Observation(latestReleaseTag, releaseTime, commitTime, modified);
    assert Observe(github, folder, file, w) == Ok(o);
    assert hasNewRelease == NewRelease(o, currentRelease) && hasNewCommit == NewCommit(o);

    if hasNewRelease && hasNewCommit {
      entry := Some((BothText(name, latestReleaseTag), github));
    } else if hasNewRelease {
      entry := Some((ReleaseText(name, latestReleaseTag), github));
    } else if hasNewCommit {
      entry := Some((CommitsText(name), github));
    }
  }

  // ---------------------------------------------------------------------
  // The loop over the mods
  // ---------------------------------------------------------------------

  const CheckingStatus: string := "Checking for updates..."
  const UpdatesFoundStatus: string := "Updates found for the following " + "mods (Click to go to the download " + "page):"
  const UpToDateStatus: string := "All mods are up to date."
  const ErrorPrefix: string := "An error occurred while " + "displaying the updates, report it " + "to Wyrm on the discord server: "

  function ErrorStatus(message: string): string {
    ErrorPrefix + message
  }

  /** The error text can never be mistaken for either final status. */
  lemma ErrorStatusDistinct(message: string)
    ensures ErrorStatus(message) != UpToDateStatus
    ensures ErrorStatus(message) != UpdatesFoundStatus
    ensures ErrorStatus(message) != CheckingStatus
  {
    assert ErrorStatus(message)[..2] == ErrorPrefix[..2] == "An";
    assert UpToDateStatus[..2] == "Al";
    assert UpdatesFoundStatus[..2] == "Up";
    assert CheckingStatus[..2] == "Ch";
  }

  type Mods = Dict<ModInfo>

  /** Every mod up to `mods` has a `file` entry. */
  predicate AllHaveFiles(mods: Mods) {
    forall i :: 0 <= i < |mods| ==> mods[i].1.file.Some?
  }

  /** The position of the first mod without a `file` entry (`|mods|` when
      there is none): `mod_info['file']` raises `KeyError` outside the `try`
      block, so the check ends there. */
  function FirstWithoutFile(mods: Mods): (k: nat)
    ensures k <= |mods| && AllHaveFiles(mods[..k])
    ensures k < |mods| ==> mods[k].1.file.None?
  {
    if mods == [] then 0
    else if mods[0].1.file.None? then 0
    else
      var k := FirstWithoutFile(mods[1..]);
      assert forall i :: 0 <= i < k ==> mods[..k + 1][i + 1] == mods[1..][..k][i];
      k + 1
  }

  /** The list so far and the status label. */
  datatype Progress = Progress(entries: seq<(string, string)>, status: string)

  /** One turn of the loop: a mod without a truthy `github` is skipped; an
      exception sets the error status; an entry is appended. */
  function ModStep(p: Progress, name: string, info: ModInfo, folder: string, w: World): Progress
    requires info.file.Some?
  {
    if !Truthy(info.github) then p
    else
      var s := Examine(name, info.github.value, info.currentRelease, folder, info.file.value, w);
      Progress(p.entries + (if s.entry.Some? then [s.entry.value] else []),
               if s.error.Some? then ErrorStatus(s.error.value) else p.status)
  }

  /** The loop over `mods`, in iteration order, from status `status`. */
  function Looped(mods: Mods, folder: string, w: World, status: string): Progress
    requires AllHaveFiles(mods)
  {
    if mods == [] then Progress([], status)
    else
      var init := mods[..|mods| - 1];
      assert AllHaveFiles(init) by {
        assert forall i :: 0 <= i < |init| ==> init[i] == mods[i];
      }
      ModStep(Looped(init, folder, w, status), mods[|mods| - 1].0, mods[|mods| - 1].1, folder, w)
  }

  lemma AllHaveFilesAppend(a: Mods, b: Mods)
    ensures AllHaveFiles(a + b) <==> AllHaveFiles(a) && AllHaveFiles(b)
  {
    if AllHaveFiles(a + b) {
      assert forall i :: 0 <= i < |a| ==> a[i] == (a + b)[i];
      assert forall i :: 0 <= i < |b| ==> b[i] == (a + b)[|a| + i];
    }
  }

  /** An exception for one mod does not stop the loop: the mods after it are
      treated exactly as they would be on their own, from the status left
      behind. */
  lemma {:induction false} LoopedAppend(a: Mods, b: Mods, folder: string, w: World, status: string)
    requires AllHaveFiles(a) && AllHaveFiles(b)
    ensures AllHaveFiles(a + b)
    ensures var front := Looped(a, folder, w, status);
      var back := Looped(b, folder, w, front.status);
      Looped(a + b, folder, w, status) == Progress(front.entries + back.entries, back.status)
    decreases |b|
  {
    AllHaveFilesAppend(a, b);
    if b == [] {
      assert a + b == a;
    } else {
      var init := b[..|b| - 1];
      AllHaveFilesAppend(init, [b[|b| - 1]]);
      assert init + [b[|b| - 1]] == b;
      LoopedAppend(a, init, folder, w, status);
      assert (a + b)[..|a + b| - 1] == a + init;
      assert (a + b)[|a + b| - 1] == b[|b| - 1];
    }
  }

  /** The check of mod `m` (one with a `file` entry) raises. */
  predicate Fails(m: (string, ModInfo), folder: string, w: World)
    requires m.1.file.Some?
  {
    Truthy(m.1.github) && Observe(m.1.github.value, folder, m.1.file.value, w).Err?
  }

  /** After the loop the status is the error text of the last mod whose
      check raised, or the starting status when none did. */
  lemma {:induction false} LoopedStatus(mods: Mods, folder: string, w: World, status: string)
    requires AllHaveFiles(mods)
    ensures (forall i :: 0 <= i < |mods| ==> !Fails(mods[i], folder, w)) ==>
      Looped(mods, folder, w, status).status == status
    ensures forall i :: 0 <= i < |mods| && Fails(mods[i], folder, w) && (forall j :: i < j < |mods| ==> !Fails(mods[j], folder, w)) ==>
      Looped(mods, folder, w, status).status == ErrorStatus(Observe(mods[i].1.github.value, folder, mods[i].1.file.value, w).error)
  {
    if mods != [] {
      var n := |mods| - 1;
      var init := mods[..n];
      assert forall i :: 0 <= i < n ==> init[i] == mods[i];
      LoopedStatus(init, folder, w, status);
      var before := Looped(init, folder, w, status);
      var m := mods[n];
      if Fails(m, folder, w) {
        assert Looped(mods, folder, w, status).status == ErrorStatus(Observe(m.1.github.value, folder, m.1.file.value, w).error);
      } else {
        assert Looped(mods, folder, w, status).status == before.status;
      }
    }
  }

  /** Every listed entry comes from one mod with a truthy `github`, at most
      one per mod, in the order of the mods: `Sources` gives, for each entry,
      the position of its mod. */
  ghost function Sources(mods: Mods, folder: string, w: World): (src: seq<nat>)
    requires AllHaveFiles(mods)
  {
    if mods == [] then []
    else
      var n := |mods| - 1;
      var init := mods[..n];
      assert AllHaveFiles(init) by {
        assert forall i :: 0 <= i < |init| ==> init[i] == mods[i];
      }
      var m := mods[n].1;
      Sources(init, folder, w) +
        (if Truthy(m.github) && Examine(mods[n].0, m.github.value, m.currentRelease, folder, m.file.value, w).entry.Some?
         then [n] else [])
  }

  lemma {:induction false} EntriesInOrder(mods: Mods, folder: string, w: World, status: string)
    requires AllHaveFiles(mods)
    ensures var src := Sources(mods, folder, w);
      var entries := Looped(mods, folder, w, status).entries;
      |src| == |entries| &&
      (forall k, l :: 0 <= k < l < |src| ==> src[k] < src[l]) &&
      (forall k :: 0 <= k < |src| ==>
         (src[k] < |mods| &&
          var m := mods[src[k]];
          Truthy(m.1.github) && entries[k].1 == m.1.github.value &&
          Examine(m.0, m.1.github.value, m.1.currentRelease, folder, m.1.file.value, w).entry == Some(entries[k])))
  {
    if mods != [] {
      var n := |mods| - 1;
      var init := mods[..n];
      assert forall i :: 0 <= i < n ==> init[i] == mods[i];
      EntriesInOrder(init, folder, w, status);
    }
  }

  /** Update-check dialog state: its inputs, the status label and the list
      of entries it shows. */
  class UpdateChecker {
    const modFiles: Mods
    const modFolder: string
    var status: string
    var items: seq<(string, string)>

    /** `__init__` and `init_ui` up to the check itself. */
    constructor(modFiles: Mods, modFolder: string)
      ensures this.modFiles == modFiles && this.modFolder == modFolder
      ensures status == CheckingStatus && items == []
    {
      this.modFiles := modFiles;
      this.modFolder := modFolder;
      status := CheckingStatus;
      items := [];
    }

    /** `check_for_updates`. `escaped` is the `KeyError` of a mod without a
        `file` entry, which leaves the status as the loop had it and the
        list untouched. Otherwise a non-empty result replaces the list and
        sets the "updates found" status, and an empty one sets "all up to
        date", whatever error text the loop left behind. */
    method CheckForUpdates(w: World) returns (escaped: bool)
      modifies this
      ensures var k := FirstWithoutFile(modFiles);
        var p := Looped(modFiles[..k], modFolder, w, old(status));
        && (escaped <==> k < |modFiles|)
        && (escaped ==> status == p.status && items == old(items))
        && (!escaped && p.entries != [] ==> items == p.entries && status == UpdatesFoundStatus)
        && (!escaped && p.entries == [] ==> items == old(items) && status == UpToDateStatus)
      // A check that runs to the end never leaves a mod's error text showing.
      ensures !escaped ==> forall message :: status != ErrorStatus(message)
    {
      var modsWithUpdates: seq<(string, string)> := [];
      var i := 0;
      while i < |modFiles|
        invariant 0 <= i <= FirstWithoutFile(modFiles)
        invariant AllHaveFiles(modFiles[..i])
        invariant Progress(modsWithUpdates, status) == Looped(modFiles[..i], modFolder, w, old(status))
        invariant items == old(items)
      {
        var k := FirstWithoutFile(modFiles);
        var name, info := modFiles[i].0, modFiles[i].1;
        if info.file.None? {
          assert i == k;
          return true;
        }
        assert i < k;
        assert modFiles[..i + 1][..i] == modFiles[..i];
        assert AllHaveFiles(modFiles[..i + 1]) by {
          AllHaveFilesAppend(modFiles[..i], [modFiles[i]]);
          assert modFiles[..i] + [modFiles[i]] == modFiles[..i + 1];
        }
        if Truthy(info.github) {
          var entry, error := CheckMod(name, info.github.value, info.currentRelease, modFolder, info.file.value, w);
          if error.Some? {
            status := ErrorStatus(error.value);
          }
          if entry.Some? {
            modsWithUpdates := modsWithUpdates + [entry.value];
          }
        }
        i := i + 1;
      }
      assert i == FirstWithoutFile(modFiles);
      escaped := false;
      if modsWithUpdates != [] {
        items := modsWithUpdates;
        status := UpdatesFoundStatus;
      } else {
        status := UpToDateStatus;
      }
      forall message ensures status != ErrorStatus(message) {
        ErrorStatusDistinct(message);
      }
    }
  }
}
