/** The pending-updates state machine of the loader: a check cycle over the
    configured repositories fills `pendingUpdates` with new artifacts, and
    installing an update replaces the plugin file, records the version in the
    ledger and drops the pending entry. GitHub's answers, the downloaded
    archives and the clock are inputs. */
module Pipeline {
  import opened JavaText
  import opened VersionLedger
  import opened Matcher
  import opened Installer

  /** `MainLoader.UpdateInfo`: what a check found for one repository. */
  datatype UpdateInfo = UpdateInfo(
    owner: string, repo: string, artifactName: string, token: string,
    artifactId: int, runId: int, downloadUrl: string, name: string, version: string)

  /** One entry of `github.repositories`, with the defaults of the
      configuration reader already applied: artifact `*.jar`, token empty,
      branch `main`, auto-update off. Owner, repo and workflow have no default. */
  datatype RepoConfig = RepoConfig(
    key: string, owner: Option<string>, repo: Option<string>, workflow: Option<string>,
    artifact: string, token: string, branch: string, autoUpdate: bool)

  /** The answer to a request that may throw (HTTP error, malformed JSON). */
  datatype Response<T> = Failed | Answered(value: T)

  /** An entry of the `artifacts` array. A name or id that is missing, or
      not of its Java type, is `None`; so is a download URL that is present
      but not a string. */
  datatype RemoteArtifact = RemoteArtifact(name: Option<string>, id: Option<int>, url: Option<string>)

  /** Downloading an update: the download throws, or yields an archive that is
      extracted at the given (formatted) time. */
  datatype Download = DownloadFails | Downloaded(zip: Archive, timestamp: string)

  /** The outside world as the loader sees it: the latest successful run of a
      repository's workflow (none when the list is empty), the artifacts of a
      run, and the outcome of downloading an update. */
  datatype GitHub = GitHub(
    latestRun: RepoConfig -> Response<Option<int>>,
    runArtifacts: (RepoConfig, int) -> Response<seq<RemoteArtifact>>,
    download: UpdateInfo -> Download)

  /** The state the loader's update operations change. */
  datatype Snapshot = Snapshot(pending: map<string, UpdateInfo>, ledger: Ledger, folder: set<string>)

  /** `"(ID: " + artifactId + ")"` */
  function VersionLabel(artifactId: int): string
  {
    "(ID: " + Decimal(artifactId) + ")"
  }

  /** The version string recorded for an installed run. */
  function RunLabel(runId: int): string
  {
    "run-" + Decimal(runId)
  }

  // ---------------------------------------------------------------------
  // Specification of the operations, on snapshots

  /** `downloadAndInstallUpdate`: the file the ledger names is deleted first;
      a failing download ends there (the exception is caught and the pending
      entry stays); otherwise the archive is extracted, the ledger records the
      extracted name if there is one, and the pending entry is removed. */
  function AfterInstall(s: Snapshot, repoKey: string, info: UpdateInfo, outcome: Download): Snapshot
  {
    var folder := Cleared(s, repoKey);
    match outcome
    case DownloadFails => s.(folder := folder)
    case Downloaded(zip, timestamp) =>
      var x := Extract(zip, folder, timestamp);
      var ledger := match x.extracted
        case None => s.ledger
        case Some(name) =>
          s.ledger[repoKey := PluginInfo(Decimal(info.artifactId), RunLabel(info.runId), info.runId, name)];
      Snapshot(s.pending - {repoKey}, ledger, x.folder)
  }

  /** The folder once the file the ledger names for `repoKey` is deleted. */
  function Cleared(s: Snapshot, repoKey: string): set<string>
  {
    match CurrentFileName(s.ledger, repoKey)
    case None => s.folder
    case Some(current) => s.folder - {current}
  }

  /** The update found when `artifact` of run `runId` is new. */
  function Found(repo: RepoConfig, runId: int, name: string, artifactId: int, url: string): UpdateInfo
    requires repo.owner.Some? && repo.repo.Some?
  {
    UpdateInfo(repo.owner.value, repo.repo.value, repo.artifact, repo.token,
               artifactId, runId, url, name, VersionLabel(artifactId))
  }

  /** Whether processing this artifact throws: a null name fails the pattern
      match, and a matching artifact without an id fails the unboxing, or
      with one fails the cast of its download URL. */
  predicate Throws(repo: RepoConfig, artifact: RemoteArtifact)
  {
    artifact.name.None? || (MatchesPattern(artifact.name.value, repo.artifact) && (artifact.id.None? || artifact.url.None?))
  }

  /** The loop over the artifacts of one run. An artifact that throws ends the
      repository; what was done before it stays. */
  function AfterArtifacts(s: Snapshot, repo: RepoConfig, runId: int, artifacts: seq<RemoteArtifact>, github: GitHub, autoDownload: bool): Snapshot
    requires repo.owner.Some? && repo.repo.Some?
    decreases |artifacts|
  {
    if artifacts == [] then s
    else
      var a := artifacts[0];
      if Throws(repo, a) then s
      else if !MatchesPattern(a.name.value, repo.artifact) || !IsNew(s.ledger, repo.key, a.id.value, runId) then
        AfterArtifacts(s, repo, runId, artifacts[1..], github, autoDownload)
      else
        var info := Found(repo, runId, a.name.value, a.id.value, a.url.value);
        var s1 := s.(pending := s.pending[repo.key := info]);
        var s2 := if repo.autoUpdate && autoDownload then AfterInstall(s1, repo.key, info, github.download(info)) else s1;
        AfterArtifacts(s2, repo, runId, artifacts[1..], github, autoDownload)
  }

  /** One repository of a check cycle: an incomplete configuration, a failing
      request, no successful run or an empty artifact list adds nothing. */
  function AfterRepository(s: Snapshot, repo: RepoConfig, github: GitHub, autoDownload: bool): Snapshot
  {
    if repo.owner.None? || repo.repo.None? || repo.workflow.None? then s
    else match github.latestRun(repo)
      case Failed => s
      case Answered(None) => s
      case Answered(Some(runId)) =>
        match github.runArtifacts(repo, runId)
        case Failed => s
        case Answered(artifacts) =>
          if artifacts == [] then s else AfterArtifacts(s, repo, runId, artifacts, github, autoDownload)
  }

  function AfterRepositories(s: Snapshot, repos: seq<RepoConfig>, github: GitHub, autoDownload: bool): Snapshot
    decreases |repos|
  {
    if repos == [] then s
    else AfterRepositories(AfterRepository(s, repos[0], github, autoDownload), repos[1..], github, autoDownload)
  }

  /** `checkForUpdates`: the pending updates are cleared, then every
      configured repository is checked in turn. */
  function AfterCheck(s: Snapshot, repos: seq<RepoConfig>, github: GitHub, autoDownload: bool): Snapshot
  {
    AfterRepositories(s.(pending := map[]), repos, github, autoDownload)
  }

  /** The loop of `downloadAllPendingUpdates` over a snapshot of the keys; a
      key whose entry has gone is skipped. */
  function AfterInstallKeys(s: Snapshot, keys: seq<string>, github: GitHub): Snapshot
    decreases |keys|
  {
    if keys == [] then s
    else
      var k := keys[0];
      var s1 := if k in s.pending then AfterInstall(s, k, s.pending[k], github.download(s.pending[k])) else s;
      AfterInstallKeys(s1, keys[1..], github)
  }

  /** `downloadAllPendingUpdates`: nothing when nothing is pending. */
  function AfterInstallAll(s: Snapshot, keys: seq<string>, github: GitHub): Snapshot
  {
    if s.pending == map[] then s else AfterInstallKeys(s, keys, github)
  }

  /** `keys` lists every key of `m` exactly once, as `keySet().toArray()` does. */
  ghost predicate Enumerates<V>(keys: seq<string>, m: map<string, V>)
  {
    && (forall k :: k in m <==> k in keys)
    && (forall i, j :: 0 <= i < j < |keys| ==> keys[i] != keys[j])
  }

  // ---------------------------------------------------------------------
  // The loader

  class MainLoader {
    var pendingUpdates: map<string, UpdateInfo>
    /** Names of the files in the sub-plugins folder. */
    var subPlugins: set<string>
    const versionTracker: VersionTracker

    ghost predicate Valid()
      reads this, versionTracker
    {
      && versionTracker.Valid()
      && (forall k :: k in pendingUpdates ==> NoDot(k))
    }

    ghost function State(): Snapshot
      reads this, versionTracker
    {
      Snapshot(pendingUpdates, versionTracker.pluginInfoMap, subPlugins)
    }

    constructor (tracker: VersionTracker, folder: set<string>)
      requires tracker.Valid()
      ensures Valid()
      ensures versionTracker == tracker
      ensures State() == Snapshot(map[], tracker.pluginInfoMap, folder)
    {
      pendingUpdates := map[];
      subPlugins := folder;
      versionTracker := tracker;
    }

    /** `downloadAndInstallUpdate(repoKey, info)`, run to completion. */
    method DownloadAndInstallUpdate(repoKey: string, info: UpdateInfo, github: GitHub)
      requires Valid() && NoDot(repoKey)
      modifies this, versionTracker
      ensures Valid()
      ensures State() == AfterInstall(old(State()), repoKey, info, github.download(info))
    {
      var oldFileName := versionTracker.GetCurrentPluginFileName(repoKey);
      if oldFileName.Some? {
        subPlugins := subPlugins - {oldFileName.value};
      }
      var outcome := github.download(info);
      if outcome.DownloadFails? {
        return;
      }
      var extractedFileName, folder := ExtractJarsFromZip(outcome.zip, subPlugins, outcome.timestamp);
      subPlugins := folder;
      if extractedFileName.Some? {
        versionTracker.UpdatePluginInfo(repoKey, Decimal(info.artifactId), RunLabel(info.runId), info.runId, extractedFileName.value);
      }
      pendingUpdates := pendingUpdates - {repoKey};
    }

    /** The body of the per-repository loop of `checkForUpdates`, with its
        catch: an exception ends this repository only. */
    method CheckRepository(repo: RepoConfig, github: GitHub, autoDownload: bool)
      requires Valid() && NoDot(repo.key)
      modifies this, versionTracker
      ensures Valid()
      ensures State() == AfterRepository(old(State()), repo, github, autoDownload)
    {
      if repo.owner.None? || repo.repo.None? || repo.workflow.None? {
        return;
      }
      var run := github.latestRun(repo);
      if run.Failed? || run.value.None? {
        return;
      }
      var runId := run.value.value;
      var answer := github.runArtifacts(repo, runId);
      if answer.Failed? {
        return;
      }
      var artifacts := answer.value;
      if artifacts == [] {
        return;
      }
      var i := 0;
      while i < |artifacts|
        invariant 0 <= i <= |artifacts|
        invariant Valid()
        invariant AfterArtifacts(State(), repo, runId, artifacts[i..], github, autoDownload)
               == AfterRepository(old(State()), repo, github, autoDownload)
      {
        var thrown := CheckArtifact(repo, runId, artifacts[i..], github, autoDownload);
        if thrown {
          return;
        }
        i := i + 1;
      }
    }

    /** One turn of the loop over a run's artifacts: the first of `artifacts`
        is matched, compared with the ledger and, when new, made pending (and
        installed when automatic updates apply). Reports whether it threw. */
    method CheckArtifact(repo: RepoConfig, runId: int, artifacts: seq<RemoteArtifact>, github: GitHub, autoDownload: bool)
      returns (thrown: bool)
      requires Valid() && NoDot(repo.key)
      requires repo.owner.Some? && repo.repo.Some? && artifacts != []
      modifies this, versionTracker
      ensures Valid()
      ensures thrown <==> Throws(repo, artifacts[0])
      ensures thrown ==> State() == old(State())
      ensures AfterArtifacts(State(), repo, runId, if thrown then [] else artifacts[1..], github, autoDownload)
           == AfterArtifacts(old(State()), repo, runId, artifacts, github, autoDownload)
    {
      var artifact := artifacts[0];
      if artifact.name.None? {
        return true;
      }
      var name := artifact.name.value;
      if MatchesPattern(name, repo.artifact) {
        if artifact.id.None? {
          return true;
        }
        var artifactId := artifact.id.value;
        if artifact.url.None? {
          return true;
        }
        var downloadUrl := artifact.url.value;
        if versionTracker.IsNewVersion(repo.key, artifactId, runId) {
          var updateInfo := Found(repo, runId, name, artifactId, downloadUrl);
          pendingUpdates := pendingUpdates[repo.key := updateInfo];
          if repo.autoUpdate && autoDownload {
            DownloadAndInstallUpdate(repo.key, updateInfo, github);
          }
        }
      }
      return false;
    }

    /** `checkForUpdates(autoDownload)`, run to completion; returns the
        pending updates. */
    method CheckForUpdates(repos: seq<RepoConfig>, github: GitHub, autoDownload: bool)
      returns (pending: map<string, UpdateInfo>)
      requires Valid()
      requires forall i :: 0 <= i < |repos| ==> NoDot(repos[i].key)
      modifies this, versionTracker
      ensures Valid()
      ensures State() == AfterCheck(old(State()), repos, github, autoDownload)
      ensures pending == pendingUpdates
    {
      pendingUpdates := map[];
      var i := 0;
      while i < |repos|
        invariant 0 <= i <= |repos|
        invariant Valid()
        invariant AfterRepositories(State(), repos[i..], github, autoDownload)
               == AfterCheck(old(State()), repos, github, autoDownload)
      {
        assert repos[i..][1..] == repos[i + 1..];
        CheckRepository(repos[i], github, autoDownload);
        i := i + 1;
      }
      pending := pendingUpdates;
    }

    /** `downloadAllPendingUpdates()`, run to completion, where `keys` is the
        order in which the pending map hands out its keys. */
    method DownloadAllPendingUpdates(keys: seq<string>, github: GitHub)
      requires Valid()
      requires Enumerates(keys, pendingUpdates)
      modifies this, versionTracker
      ensures Valid()
      ensures State() == AfterInstallAll(old(State()), keys, github)
    {
      if pendingUpdates == map[] {
        return;
      }
      var i := 0;
      while i < |keys|
        invariant 0 <= i <= |keys|
        invariant Valid()
        invariant AfterInstallKeys(State(), keys[i..], github) == AfterInstallAll(old(State()), keys, github)
      {
        assert keys[i..][1..] == keys[i + 1..];
        var repoKey := keys[i];
        if repoKey in pendingUpdates {
          var updateInfo := pendingUpdates[repoKey];
          DownloadAndInstallUpdate(repoKey, updateInfo, github);
        }
        i := i + 1;
      }
    }
  }
}
