/** What the loader's update cycle guarantees: which repositories can put
    entries into `pendingUpdates`, how one repository's failure is isolated
    from the others, what a check without automatic download leaves alone,
    and what installing does to the pending map, the ledger and the folder. */
module PendingProperties {
  import opened JavaText
  import opened VersionLedger
  import opened Matcher
  import opened Installer
  import opened Pipeline

  ghost function RepoKeys(repos: seq<RepoConfig>): set<string>
  {
    set i | 0 <= i < |repos| :: repos[i].key
  }

  // ---------------------------------------------------------------------
  // Only configured repositories become pending

  /** Installing only ever removes a pending entry. */
  lemma InstallOnlyRemoves(s: Snapshot, repoKey: string, info: UpdateInfo, outcome: Download)
    ensures AfterInstall(s, repoKey, info, outcome).pending.Keys <= s.pending.Keys
  {
  }

  lemma {:induction false} ArtifactsPendingKeys(s: Snapshot, repo: RepoConfig, runId: int, artifacts: seq<RemoteArtifact>, github: GitHub, autoDownload: bool)
    requires repo.owner.Some? && repo.repo.Some?
    ensures AfterArtifacts(s, repo, runId, artifacts, github, autoDownload).pending.Keys <= s.pending.Keys + {repo.key}
    decreases |artifacts|
  {
    if artifacts != [] && !Throws(repo, artifacts[0]) {
      var a := artifacts[0];
      if !MatchesPattern(a.name.value, repo.artifact) || !IsNew(s.ledger, repo.key, a.id.value, runId) {
        ArtifactsPendingKeys(s, repo, runId, artifacts[1..], github, autoDownload);
      } else {
        var info := Found(repo, runId, a.name.value, a.id.value, a.url.value);
        var s1 := s.(pending := s.pending[repo.key := info]);
        var s2 := if repo.autoUpdate && autoDownload then AfterInstall(s1, repo.key, info, github.download(info)) else s1;
        InstallOnlyRemoves(s1, repo.key, info, github.download(info));
        ArtifactsPendingKeys(s2, repo, runId, artifacts[1..], github, autoDownload);
      }
    }
  }

  /** A repository adds at most an entry under its own key. */
  lemma RepositoryPendingKeys(s: Snapshot, repo: RepoConfig, github: GitHub, autoDownload: bool)
    ensures AfterRepository(s, repo, github, autoDownload).pending.Keys <= s.pending.Keys + {repo.key}
  {
    if repo.owner.Some? && repo.repo.Some? && repo.workflow.Some? {
      match github.latestRun(repo)
      case Failed =>
      case Answered(None) =>
      case Answered(Some(runId)) =>
        match github.runArtifacts(repo, runId)
        case Failed =>
        case Answered(artifacts) =>
          ArtifactsPendingKeys(s, repo, runId, artifacts, github, autoDownload);
    }
  }

  lemma {:induction false} RepositoriesPendingKeys(s: Snapshot, repos: seq<RepoConfig>, github: GitHub, autoDownload: bool)
    ensures AfterRepositories(s, repos, github, autoDownload).pending.Keys <= s.pending.Keys + RepoKeys(repos)
    decreases |repos|
  {
    if repos != [] {
      var s1 := AfterRepository(s, repos[0], github, autoDownload);
      RepositoryPendingKeys(s, repos[0], github, autoDownload);
      RepositoriesPendingKeys(s1, repos[1..], github, autoDownload);
      forall k | k in RepoKeys(repos[1..])
        ensures k in RepoKeys(repos)
      {
        var i :| 0 <= i < |repos[1..]| && repos[1..][i].key == k;
        assert repos[i + 1].key == k;
      }
    }
  }

  /** After a check cycle every pending key is the key of a configured
      repository: the cycle starts from an empty map. */
  lemma CheckPendingKeys(s: Snapshot, repos: seq<RepoConfig>, github: GitHub, autoDownload: bool)
    ensures AfterCheck(s, repos, github, autoDownload).pending.Keys <= RepoKeys(repos)
  {
    RepositoriesPendingKeys(s.(pending := map[]), repos, github, autoDownload);
  }

  // ---------------------------------------------------------------------
  // Per-repository fault isolation

  /** A repository that is not fully configured, whose requests throw, which
      has no successful run or whose run has no artifacts. */
  predicate SkippedRepository(repo: RepoConfig, github: GitHub)
  {
    || repo.owner.None? || repo.repo.None? || repo.workflow.None?
    || github.latestRun(repo).Failed?
    || github.latestRun(repo) == Answered(None)
    || (var run := github.latestRun(repo).value.value;
        github.runArtifacts(repo, run).Failed? || github.runArtifacts(repo, run) == Answered([]))
  }

  lemma SkippedRepositoryChangesNothing(s: Snapshot, repo: RepoConfig, github: GitHub, autoDownload: bool)
    requires SkippedRepository(repo, github)
    ensures AfterRepository(s, repo, github, autoDownload) == s
  {
  }

  /** The repositories are checked one after the other. */
  lemma {:induction false} RepositoriesAppend(s: Snapshot, xs: seq<RepoConfig>, ys: seq<RepoConfig>, github: GitHub, autoDownload: bool)
    ensures AfterRepositories(s, xs + ys, github, autoDownload)
         == AfterRepositories(AfterRepositories(s, xs, github, autoDownload), ys, github, autoDownload)
    decreases |xs|
  {
    if xs == [] {
      assert xs + ys == ys;
    } else {
      assert (xs + ys)[0] == xs[0] && (xs + ys)[1..] == xs[1..] + ys;
      RepositoriesAppend(AfterRepository(s, xs[0], github, autoDownload), xs[1..], ys, github, autoDownload);
    }
  }

  /** A skipped repository can be taken out of the configuration without
      changing what the cycle does with the others. */
  lemma SkippedRepositoryIsolated(s: Snapshot, xs: seq<RepoConfig>, repo: RepoConfig, ys: seq<RepoConfig>, github: GitHub, autoDownload: bool)
    requires SkippedRepository(repo, github)
    ensures AfterRepositories(s, xs + [repo] + ys, github, autoDownload)
         == AfterRepositories(s, xs + ys, github, autoDownload)
  {
    var s1 := AfterRepositories(s, xs, github, autoDownload);
    RepositoriesAppend(s, xs + [repo], ys, github, autoDownload);
    RepositoriesAppend(s, xs, [repo], github, autoDownload);
    assert AfterRepositories(s1, [repo], github, autoDownload) == AfterRepository(s1, repo, github, autoDownload);
    RepositoriesAppend(s, xs, ys, github, autoDownload);
  }

  /** An artifact that throws ends its repository, and whatever the artifacts
      before it did is kept. */
  lemma {:induction false} ThrowKeepsEarlier(s: Snapshot, repo: RepoConfig, runId: int, artifacts: seq<RemoteArtifact>, j: nat, github: GitHub, autoDownload: bool)
    requires repo.owner.Some? && repo.repo.Some?
    requires j < |artifacts| && Throws(repo, artifacts[j])
    ensures AfterArtifacts(s, repo, runId, artifacts, github, autoDownload)
         == AfterArtifacts(s, repo, runId, artifacts[..j], github, autoDownload)
    decreases j
  {
    if j > 0 && !Throws(repo, artifacts[0]) {
      assert artifacts[..j][0] == artifacts[0] && artifacts[..j][1..] == artifacts[1..][..j - 1];
      var a := artifacts[0];
      if !MatchesPattern(a.name.value, repo.artifact) || !IsNew(s.ledger, repo.key, a.id.value, runId) {
        ThrowKeepsEarlier(s, repo, runId, artifacts[1..], j - 1, github, autoDownload);
      } else {
        var info := Found(repo, runId, a.name.value, a.id.value, a.url.value);
        var s1 := s.(pending := s.pending[repo.key := info]);
        var s2 := if repo.autoUpdate && autoDownload then AfterInstall(s1, repo.key, info, github.download(info)) else s1;
        ThrowKeepsEarlier(s2, repo, runId, artifacts[1..], j - 1, github, autoDownload);
      }
    } else if j > 0 {
      assert artifacts[..j][0] == artifacts[0];
    }
  }

  // ---------------------------------------------------------------------
  // A check that installs nothing

  /** `info` is what `repo` announces as new against `ledger`. */
  predicate Announces(ledger: Ledger, repo: RepoConfig, info: UpdateInfo)
  {
    && repo.owner == Some(info.owner) && repo.repo == Some(info.repo)
    && info.artifactName == repo.artifact && info.token == repo.token
    && MatchesPattern(info.name, repo.artifact)
    && IsNew(ledger, repo.key, info.artifactId, info.runId)
    && info.version == VersionLabel(info.artifactId)
  }

  ghost predicate Justified(ledger: Ledger, repos: seq<RepoConfig>, key: string, info: UpdateInfo)
  {
    exists i :: 0 <= i < |repos| && repos[i].key == key && Announces(ledger, repos[i], info)
  }

  /** No repository is installed during the cycle: either the check does not
      download, or no repository has auto-update on. */
  predicate InstallsNothing(repos: seq<RepoConfig>, autoDownload: bool)
  {
    !autoDownload || forall i :: 0 <= i < |repos| ==> !repos[i].autoUpdate
  }

  lemma {:induction false} QuietArtifacts(s: Snapshot, repo: RepoConfig, runId: int, artifacts: seq<RemoteArtifact>, github: GitHub, autoDownload: bool)
    requires repo.owner.Some? && repo.repo.Some?
    requires !(repo.autoUpdate && autoDownload)
    ensures var r := AfterArtifacts(s, repo, runId, artifacts, github, autoDownload);
      && r.ledger == s.ledger && r.folder == s.folder
      && (forall k :: k in r.pending && k != repo.key ==> k in s.pending && r.pending[k] == s.pending[k])
      && (repo.key in r.pending ==>
            (repo.key in s.pending && r.pending[repo.key] == s.pending[repo.key])
            || Announces(s.ledger, repo, r.pending[repo.key]))
    decreases |artifacts|
  {
    if artifacts != [] && !Throws(repo, artifacts[0]) {
      var a := artifacts[0];
      if !MatchesPattern(a.name.value, repo.artifact) || !IsNew(s.ledger, repo.key, a.id.value, runId) {
        QuietArtifacts(s, repo, runId, artifacts[1..], github, autoDownload);
      } else {
        var info := Found(repo, runId, a.name.value, a.id.value, a.url.value);
        var s1 := s.(pending := s.pending[repo.key := info]);
        assert Announces(s.ledger, repo, info);
        QuietArtifacts(s1, repo, runId, artifacts[1..], github, autoDownload);
      }
    }
  }

  lemma QuietRepository(s: Snapshot, repo: RepoConfig, github: GitHub, autoDownload: bool)
    requires !(repo.autoUpdate && autoDownload)
    ensures var r := AfterRepository(s, repo, github, autoDownload);
      && r.ledger == s.ledger && r.folder == s.folder
      && (forall k :: k in r.pending && k != repo.key ==> k in s.pending && r.pending[k] == s.pending[k])
      && (repo.key in r.pending ==>
            (repo.key in s.pending && r.pending[repo.key] == s.pending[repo.key])
            || Announces(s.ledger, repo, r.pending[repo.key]))
  {
    if repo.owner.Some? && repo.repo.Some? && repo.workflow.Some? {
      match github.latestRun(repo)
      case Failed =>
      case Answered(None) =>
      case Answered(Some(runId)) =>
        match github.runArtifacts(repo, runId)
        case Failed =>
        case Answered(artifacts) =>
          QuietArtifacts(s, repo, runId, artifacts, github, autoDownload);
    }
  }

  lemma {:induction false} QuietRepositories(s: Snapshot, repos: seq<RepoConfig>, i: nat, github: GitHub, autoDownload: bool)
    requires i <= |repos|
    requires InstallsNothing(repos, autoDownload)
    requires forall k :: k in s.pending ==> Justified(s.ledger, repos, k, s.pending[k])
    ensures var r := AfterRepositories(s, repos[i..], github, autoDownload);
      && r.ledger == s.ledger && r.folder == s.folder
      && (forall k :: k in r.pending ==> Justified(s.ledger, repos, k, r.pending[k]))
    decreases |repos| - i
  {
    if i < |repos| {
      assert repos[i..][0] == repos[i] && repos[i..][1..] == repos[i + 1..];
      var s1 := AfterRepository(s, repos[i], github, autoDownload);
      QuietRepository(s, repos[i], github, autoDownload);
      forall k | k in s1.pending
        ensures Justified(s1.ledger, repos, k, s1.pending[k])
      {
        if k == repos[i].key && !(k in s.pending && s1.pending[k] == s.pending[k]) {
          assert Announces(s.ledger, repos[i], s1.pending[k]);
        }
      }
      QuietRepositories(s1, repos, i + 1, github, autoDownload);
    }
  }

  /** A check that installs nothing leaves the ledger and the folder alone,
      and every entry it leaves pending is a new artifact whose name matches
      the pattern of the repository it is filed under. */
  lemma QuietCheck(s: Snapshot, repos: seq<RepoConfig>, github: GitHub, autoDownload: bool)
    requires InstallsNothing(repos, autoDownload)
    ensures var r := AfterCheck(s, repos, github, autoDownload);
      && r.ledger == s.ledger && r.folder == s.folder
      && (forall k :: k in r.pending ==> Justified(s.ledger, repos, k, r.pending[k]))
  {
    assert repos[0..] == repos;
    QuietRepositories(s.(pending := map[]), repos, 0, github, autoDownload);
  }

  // ---------------------------------------------------------------------
  // A check that may install

  /** The two ledgers hold the same record, or none, for `key`. */
  predicate SameAt(l1: Ledger, l2: Ledger, key: string)
  {
    (key in l1 <==> key in l2) && (key in l1 ==> l1[key] == l2[key])
  }

  /** Installing touches the pending map and the ledger at its own key only. */
  lemma InstallTouchesOwnKey(s: Snapshot, repoKey: string, info: UpdateInfo, outcome: Download)
    ensures var r := AfterInstall(s, repoKey, info, outcome);
      && (forall k :: k != repoKey ==> SameAt(s.ledger, r.ledger, k))
      && (forall k :: k != repoKey ==> (k in r.pending <==> k in s.pending))
      && (forall k :: k in r.pending && k != repoKey ==> r.pending[k] == s.pending[k])
      && (repoKey in r.pending ==> r.pending[repoKey] == s.pending[repoKey] && r.ledger == s.ledger)
  {
  }

  /** With auto-update on, the artifact loop still leaves for its repository
      only an update that is new against the ledger as it stands afterwards,
      and touches no other key. */
  lemma {:induction false} InstallingArtifacts(s: Snapshot, repo: RepoConfig, runId: int, artifacts: seq<RemoteArtifact>, github: GitHub, autoDownload: bool)
    requires repo.owner.Some? && repo.repo.Some?
    requires repo.key in s.pending ==> Announces(s.ledger, repo, s.pending[repo.key])
    ensures var r := AfterArtifacts(s, repo, runId, artifacts, github, autoDownload);
      && (forall k :: k != repo.key ==> SameAt(s.ledger, r.ledger, k))
      && (forall k :: k != repo.key ==> (k in r.pending <==> k in s.pending))
      && (forall k :: k in r.pending && k != repo.key ==> r.pending[k] == s.pending[k])
      && (repo.key in r.pending ==> Announces(r.ledger, repo, r.pending[repo.key]))
    decreases |artifacts|
  {
    if artifacts != [] && !Throws(repo, artifacts[0]) {
      var a := artifacts[0];
      if !MatchesPattern(a.name.value, repo.artifact) || !IsNew(s.ledger, repo.key, a.id.value, runId) {
        InstallingArtifacts(s, repo, runId, artifacts[1..], github, autoDownload);
      } else {
        var info := Found(repo, runId, a.name.value, a.id.value, a.url.value);
        var s1 := s.(pending := s.pending[repo.key := info]);
        assert Announces(s1.ledger, repo, info);
        var s2 := if repo.autoUpdate && autoDownload then AfterInstall(s1, repo.key, info, github.download(info)) else s1;
        InstallTouchesOwnKey(s1, repo.key, info, github.download(info));
        InstallingArtifacts(s2, repo, runId, artifacts[1..], github, autoDownload);
        var r := AfterArtifacts(s2, repo, runId, artifacts[1..], github, autoDownload);
        forall k | k != repo.key
          ensures SameAt(s.ledger, r.ledger, k)
        {
          assert SameAt(s.ledger, s2.ledger, k) && SameAt(s2.ledger, r.ledger, k);
        }
      }
    }
  }

  lemma InstallingRepository(s: Snapshot, repo: RepoConfig, github: GitHub, autoDownload: bool)
    requires repo.key in s.pending ==> Announces(s.ledger, repo, s.pending[repo.key])
    ensures var r := AfterRepository(s, repo, github, autoDownload);
      && (forall k :: k != repo.key ==> SameAt(s.ledger, r.ledger, k))
      && (forall k :: k != repo.key ==> (k in r.pending <==> k in s.pending))
      && (forall k :: k in r.pending && k != repo.key ==> r.pending[k] == s.pending[k])
      && (repo.key in r.pending ==> Announces(r.ledger, repo, r.pending[repo.key]))
  {
    if repo.owner.Some? && repo.repo.Some? && repo.workflow.Some? {
      match github.latestRun(repo)
      case Failed =>
      case Answered(None) =>
      case Answered(Some(runId)) =>
        match github.runArtifacts(repo, runId)
        case Failed =>
        case Answered(artifacts) =>
          InstallingArtifacts(s, repo, runId, artifacts, github, autoDownload);
    }
  }

  /** Every pending entry is justified by a repository against the ledger of
      the same snapshot. */
  ghost predicate AllJustified(r: Snapshot, repos: seq<RepoConfig>)
  {
    forall k :: k in r.pending ==> Justified(r.ledger, repos, k, r.pending[k])
  }

  /** Configured repositories have distinct keys, being the children of one
      configuration section. */
  predicate DistinctKeys(repos: seq<RepoConfig>)
  {
    forall a, b :: 0 <= a < b < |repos| ==> repos[a].key != repos[b].key
  }

  /** Every pending entry is filed under one of the first `i` repositories. */
  ghost predicate PendingAmong(s: Snapshot, repos: seq<RepoConfig>, i: nat)
  {
    forall k :: k in s.pending ==> exists j :: 0 <= j < i && j < |repos| && repos[j].key == k
  }

  lemma {:induction false} InstallingRepositories(s: Snapshot, repos: seq<RepoConfig>, i: nat, github: GitHub, autoDownload: bool)
    requires i <= |repos| && DistinctKeys(repos)
    requires PendingAmong(s, repos, i) && AllJustified(s, repos)
    ensures AllJustified(AfterRepositories(s, repos[i..], github, autoDownload), repos)
    decreases |repos| - i
  {
    if i < |repos| {
      assert repos[i..][0] == repos[i] && repos[i..][1..] == repos[i + 1..];
      var s1 := AfterRepository(s, repos[i], github, autoDownload);
      RepositoryStepJustified(s, repos, i, github, autoDownload);
      InstallingRepositories(s1, repos, i + 1, github, autoDownload);
      assert AfterRepositories(s, repos[i..], github, autoDownload) == AfterRepositories(s1, repos[i + 1..], github, autoDownload);
    } else {
      assert repos[i..] == [];
    }
  }

  /** Checking the next repository keeps every pending entry justified. Its
      key is not yet pending, the keys being distinct. */
  lemma RepositoryStepJustified(s: Snapshot, repos: seq<RepoConfig>, i: nat, github: GitHub, autoDownload: bool)
    requires i < |repos| && DistinctKeys(repos)
    requires PendingAmong(s, repos, i) && AllJustified(s, repos)
    ensures var s1 := AfterRepository(s, repos[i], github, autoDownload);
      PendingAmong(s1, repos, i + 1) && AllJustified(s1, repos)
  {
    var key := repos[i].key;
    var s1 := AfterRepository(s, repos[i], github, autoDownload);
    assert forall j :: 0 <= j < i ==> repos[j].key != key;
    assert key !in s.pending;
    InstallingRepository(s, repos[i], github, autoDownload);
    forall k | k in s1.pending
      ensures (exists j :: 0 <= j < i + 1 && j < |repos| && repos[j].key == k) && Justified(s1.ledger, repos, k, s1.pending[k])
    {
      if k == key {
        assert repos[i].key == k;
      } else {
        var j :| 0 <= j < |repos| && repos[j].key == k && Announces(s.ledger, repos[j], s.pending[k]);
        assert SameAt(s.ledger, s1.ledger, k);
        assert Announces(s1.ledger, repos[j], s1.pending[k]);
        var j' :| 0 <= j' < i && j' < |repos| && repos[j'].key == k;
      }
    }
  }

  /** Whether or not the check installs, every entry it leaves pending is an
      artifact matching the pattern of the repository it is filed under and
      new against the ledger as the check leaves it. */
  lemma InstallingCheck(s: Snapshot, repos: seq<RepoConfig>, github: GitHub, autoDownload: bool)
    requires DistinctKeys(repos)
    ensures AllJustified(AfterCheck(s, repos, github, autoDownload), repos)
  {
    assert repos[0..] == repos;
    var s0 := s.(pending := map[]);
    InstallingRepositories(s0, repos, 0, github, autoDownload);
  }

  /** An artifact whose name matches the pattern and whose version the
      ledger reports as new, with its id and download URL readable. */
  predicate NewMatch(ledger: Ledger, repo: RepoConfig, runId: int, a: RemoteArtifact)
  {
    && a.name.Some? && a.id.Some? && a.url.Some?
    && MatchesPattern(a.name.value, repo.artifact)
    && IsNew(ledger, repo.key, a.id.value, runId)
  }

  /** Artifacts that neither throw nor are new matches change nothing. */
  lemma {:induction false} NothingNewAfter(s: Snapshot, repo: RepoConfig, runId: int, artifacts: seq<RemoteArtifact>, github: GitHub, autoDownload: bool)
    requires repo.owner.Some? && repo.repo.Some?
    requires forall i :: 0 <= i < |artifacts| ==> !Throws(repo, artifacts[i]) && !NewMatch(s.ledger, repo, runId, artifacts[i])
    ensures AfterArtifacts(s, repo, runId, artifacts, github, autoDownload) == s
    decreases |artifacts|
  {
    if artifacts != [] {
      NothingNewAfter(s, repo, runId, artifacts[1..], github, autoDownload);
    }
  }

  /** Pending entries are keyed by repository: without installing, the entry
      left for a repository is the last new matching artifact of its run. */
  lemma {:induction false} LastNewMatchPending(s: Snapshot, repo: RepoConfig, runId: int, artifacts: seq<RemoteArtifact>, j: nat, github: GitHub, autoDownload: bool)
    requires repo.owner.Some? && repo.repo.Some?
    requires !(repo.autoUpdate && autoDownload)
    requires forall i :: 0 <= i < |artifacts| ==> !Throws(repo, artifacts[i])
    requires j < |artifacts|
    requires NewMatch(s.ledger, repo, runId, artifacts[j])
    requires forall i :: j < i < |artifacts| ==> !NewMatch(s.ledger, repo, runId, artifacts[i])
    ensures var r := AfterArtifacts(s, repo, runId, artifacts, github, autoDownload);
      && repo.key in r.pending
      && r.pending[repo.key] == Found(repo, runId, artifacts[j].name.value, artifacts[j].id.value, artifacts[j].url.value)
    decreases |artifacts|
  {
    var a := artifacts[0];
    var rest := artifacts[1..];
    if j == 0 {
      var info := Found(repo, runId, a.name.value, a.id.value, a.url.value);
      var s1 := s.(pending := s.pending[repo.key := info]);
      NothingNewAfter(s1, repo, runId, rest, github, autoDownload);
    } else {
      assert rest[j - 1] == artifacts[j];
      if !MatchesPattern(a.name.value, repo.artifact) || !IsNew(s.ledger, repo.key, a.id.value, runId) {
        LastNewMatchPending(s, repo, runId, rest, j - 1, github, autoDownload);
      } else {
        var info := Found(repo, runId, a.name.value, a.id.value, a.url.value);
        var s1 := s.(pending := s.pending[repo.key := info]);
        LastNewMatchPending(s1, repo, runId, rest, j - 1, github, autoDownload);
      }
    }
  }

  // ---------------------------------------------------------------------
  // Installing

  predicate HasJar(zip: Archive)
  {
    zip.Entries? && exists i :: 0 <= i < |zip.entries| && IsJarEntry(zip.entries[i].name)
  }

  /** What installing one update does. A failed download keeps the pending
      entry and the ledger, but the file the ledger named is already gone.
      A completed download drops the pending entry; when the archive holds a
      jar the ledger then names an extracted file, the recorded version is no
      longer new, and no other record changes; the file is in the folder
      unless a jar entry failed to open. When the archive holds no jar the
      ledger is untouched. */
  lemma InstallOutcome(s: Snapshot, repoKey: string, info: UpdateInfo, outcome: Download)
    ensures var r := AfterInstall(s, repoKey, info, outcome);
      && (outcome.DownloadFails? ==> r.pending == s.pending && r.ledger == s.ledger)
      && ((outcome.DownloadFails? || !HasJar(outcome.zip)) && repoKey in s.ledger ==>
            s.ledger[repoKey].fileName !in r.folder)
      && (outcome.Downloaded? ==> r.pending == s.pending - {repoKey})
      && (outcome.Downloaded? && !HasJar(outcome.zip) ==> r.ledger == s.ledger)
      && (outcome.Downloaded? && HasJar(outcome.zip) ==>
            && !IsNew(r.ledger, repoKey, info.artifactId, info.runId)
            && r.ledger[repoKey].version == RunLabel(info.runId)
            && (OpensJars(outcome.zip.entries) ==> r.ledger[repoKey].fileName in r.folder)
            && CurrentFileName(r.ledger, repoKey) == Some(r.ledger[repoKey].fileName)
            && r.ledger.Keys == s.ledger.Keys + {repoKey}
            && (forall k :: k in s.ledger && k != repoKey ==> r.ledger[k] == s.ledger[k]))
  {
    if outcome.Downloaded? {
      if HasJar(outcome.zip) {
        InstallWithJar(s, repoKey, info, outcome.zip, outcome.timestamp);
      } else {
        InstallWithoutJar(s, repoKey, info, outcome.zip, outcome.timestamp);
      }
    }
  }

  lemma InstallWithoutJar(s: Snapshot, repoKey: string, info: UpdateInfo, zip: Archive, timestamp: string)
    requires !HasJar(zip)
    ensures var r := AfterInstall(s, repoKey, info, Downloaded(zip, timestamp));
      r.ledger == s.ledger && r.folder == Cleared(s, repoKey)
  {
    if zip.Entries? {
      NoJarAfter(zip.entries, Cleared(s, repoKey), timestamp, None);
    }
  }

  lemma InstallWithJar(s: Snapshot, repoKey: string, info: UpdateInfo, zip: Archive, timestamp: string)
    requires HasJar(zip)
    ensures var r := AfterInstall(s, repoKey, info, Downloaded(zip, timestamp));
      && !IsNew(r.ledger, repoKey, info.artifactId, info.runId)
      && r.ledger[repoKey].version == RunLabel(info.runId)
      && (OpensJars(zip.entries) ==> r.ledger[repoKey].fileName in r.folder)
      && CurrentFileName(r.ledger, repoKey) == Some(r.ledger[repoKey].fileName)
      && r.ledger.Keys == s.ledger.Keys + {repoKey}
      && (forall k :: k in s.ledger && k != repoKey ==> r.ledger[k] == s.ledger[k])
  {
    var folder := Cleared(s, repoKey);
    NothingExtractedIffNoJar(zip, folder, timestamp);
    ExtractOnlyAddsJars(zip.entries, folder, timestamp, None);
    var x := Extract(zip, folder, timestamp);
    assert x.extracted.Some?;
    RecordedIsCurrent(s.ledger, repoKey, info.artifactId, RunLabel(info.runId), info.runId, x.extracted.value);
  }

  /** A first jar entry that cannot be opened is recorded all the same: when
      its name was free, the ledger names a file the folder does not hold. */
  lemma FailedOpenRecordsMissingFile(s: Snapshot, repoKey: string, info: UpdateInfo, name: string, rest: seq<ArchiveEntry>, timestamp: string)
    requires IsJarEntry(name) && BaseName(name) !in s.folder
    ensures var r := AfterInstall(s, repoKey, info, Downloaded(Entries([ArchiveEntry(name, OpenFails)] + rest), timestamp));
      && repoKey in r.ledger
      && r.ledger[repoKey] == PluginInfo(Decimal(info.artifactId), RunLabel(info.runId), info.runId, BaseName(name))
      && r.ledger[repoKey].fileName !in r.folder
  {
    var folder := Cleared(s, repoKey);
    FailedOpenReported(name, folder, timestamp, rest);
  }

  /** The loop of `downloadAllPendingUpdates` over distinct keys leaves
      pending exactly the listed entries whose download failed, and the
      entries it did not list. */
  lemma {:induction false} InstallKeysPending(s: Snapshot, keys: seq<string>, github: GitHub)
    requires forall i, j :: 0 <= i < j < |keys| ==> keys[i] != keys[j]
    ensures var r := AfterInstallKeys(s, keys, github);
      forall k :: (k in r.pending <==> k in s.pending && (k !in keys || github.download(s.pending[k]).DownloadFails?))
        && (k in r.pending ==> r.pending[k] == s.pending[k])
    decreases |keys|
  {
    if keys != [] {
      var k0 := keys[0];
      var s1 := if k0 in s.pending then AfterInstall(s, k0, s.pending[k0], github.download(s.pending[k0])) else s;
      if k0 in s.pending {
        InstallOutcome(s, k0, s.pending[k0], github.download(s.pending[k0]));
      }
      assert forall i, j :: 0 <= i < j < |keys[1..]| ==> keys[1..][i] != keys[1..][j] by {
        forall i, j | 0 <= i < j < |keys[1..]|
          ensures keys[1..][i] != keys[1..][j]
        {
          assert keys[1..][i] == keys[i + 1] && keys[1..][j] == keys[j + 1];
        }
      }
      InstallKeysPending(s1, keys[1..], github);
      assert k0 !in keys[1..] by {
        forall i | 0 <= i < |keys[1..]|
          ensures keys[1..][i] != k0
        {
          assert keys[1..][i] == keys[i + 1];
        }
      }
      forall k
        ensures k in keys <==> k == k0 || k in keys[1..]
      {
        assert keys == [k0] + keys[1..];
      }
    }
  }

  /** `downloadAllPendingUpdates` does nothing when nothing is pending, and
      otherwise leaves pending exactly the updates whose download failed. */
  lemma InstallAllOutcome(s: Snapshot, keys: seq<string>, github: GitHub)
    requires Enumerates(keys, s.pending)
    ensures s.pending == map[] ==> AfterInstallAll(s, keys, github) == s
    ensures var r := AfterInstallAll(s, keys, github);
      forall k :: (k in r.pending <==> k in s.pending && github.download(s.pending[k]).DownloadFails?)
        && (k in r.pending ==> r.pending[k] == s.pending[k])
  {
    if s.pending != map[] {
      InstallKeysPending(s, keys, github);
    }
  }

  // ---------------------------------------------------------------------
  // A worked cycle

  /** Repository `foo`, configured with the default pattern and no
      auto-update. */
  const Foo := RepoConfig("foo", Some("perro"), Some("foo"), Some("build.yml"), "*.jar", "", "main", false)

  /** The latest run of `foo` is 42 and its one artifact is `foo.jar` with
      id 7. A check that does not download leaves exactly that update
      pending; installing it from an archive holding `foo.jar` into an empty
      folder records artifact `7`, version `run-42`, run 42 and file
      `foo.jar`, and nothing stays pending. Checking again while GitHub still
      offers run 42 changes nothing. */
  lemma WorkedCycle(github: GitHub, url: string, timestamp: string)
    requires github.latestRun(Foo) == Answered(Some(42))
    requires github.runArtifacts(Foo, 42) == Answered([RemoteArtifact(Some("foo.jar"), Some(7), Some(url))])
    requires github.download(Found(Foo, 42, "foo.jar", 7, url)) == Downloaded(Entries([ArchiveEntry("foo.jar", Copied)]), timestamp)
    ensures var checked := AfterCheck(Snapshot(map[], map[], {}), [Foo], github, false);
      && checked == Snapshot(map["foo" := Found(Foo, 42, "foo.jar", 7, url)], map[], {})
      && AfterInstallAll(checked, ["foo"], github)
         == Snapshot(map[], map["foo" := PluginInfo("7", "run-42", 42, "foo.jar")], {"foo.jar"})
    ensures var installed := Snapshot(map[], map["foo" := PluginInfo("7", "run-42", 42, "foo.jar")], {"foo.jar"});
      AfterCheck(installed, [Foo], github, false) == installed
  {
    var s1 := WorkedCheck(github, url);
    var info := Found(Foo, 42, "foo.jar", 7, url);
    WorkedInstall(s1, info, timestamp);
    assert ["foo"][1..] == [];
    WorkedRecheck(github, url);
  }

  /** Once run 42 is installed, the check finds its artifact current and
      leaves the snapshot as it was. */
  lemma WorkedRecheck(github: GitHub, url: string)
    requires github.latestRun(Foo) == Answered(Some(42))
    requires github.runArtifacts(Foo, 42) == Answered([RemoteArtifact(Some("foo.jar"), Some(7), Some(url))])
    ensures var installed := Snapshot(map[], map["foo" := PluginInfo("7", "run-42", 42, "foo.jar")], {"foo.jar"});
      AfterCheck(installed, [Foo], github, false) == installed
  {
    var installed := Snapshot(map[], map["foo" := PluginInfo("7", "run-42", 42, "foo.jar")], {"foo.jar"});
    FooArtifactCurrent(installed, github, url);
    assert AfterRepository(installed, Foo, github, false) == installed;
    assert AfterRepositories(installed, [Foo][1..], github, false) == installed;
  }

  /** The artifact `foo.jar` with id 7 of run 42 is the one the ledger
      records, so it is skipped. */
  lemma FooArtifactCurrent(s: Snapshot, github: GitHub, url: string)
    requires s.ledger == map["foo" := PluginInfo("7", "run-42", 42, "foo.jar")]
    ensures AfterArtifacts(s, Foo, 42, [RemoteArtifact(Some("foo.jar"), Some(7), Some(url))], github, false) == s
  {
    var artifact := RemoteArtifact(Some("foo.jar"), Some(7), Some(url));
    FooJarMatches();
    WorkedLabels();
    assert !Throws(Foo, artifact);
    assert !IsNew(s.ledger, "foo", 7, 42);
    assert [artifact][1..] == [];
  }

  lemma WorkedCheck(github: GitHub, url: string) returns (s1: Snapshot)
    requires github.latestRun(Foo) == Answered(Some(42))
    requires github.runArtifacts(Foo, 42) == Answered([RemoteArtifact(Some("foo.jar"), Some(7), Some(url))])
    ensures s1 == Snapshot(map["foo" := Found(Foo, 42, "foo.jar", 7, url)], map[], {})
    ensures AfterCheck(Snapshot(map[], map[], {}), [Foo], github, false) == s1
  {
    var artifact := RemoteArtifact(Some("foo.jar"), Some(7), Some(url));
    s1 := Snapshot(map["foo" := Found(Foo, 42, "foo.jar", 7, url)], map[], {});
    FooArtifactPending(github, url);
    assert AfterRepository(Snapshot(map[], map[], {}), Foo, github, false) == s1;
    assert AfterRepositories(s1, [Foo][1..], github, false) == s1;
  }

  /** The one artifact of run 42 is new and matches `*.jar`, so it is filed
      under `foo`. */
  lemma FooArtifactPending(github: GitHub, url: string)
    ensures AfterArtifacts(Snapshot(map[], map[], {}), Foo, 42, [RemoteArtifact(Some("foo.jar"), Some(7), Some(url))], github, false)
         == Snapshot(map["foo" := Found(Foo, 42, "foo.jar", 7, url)], map[], {})
  {
    var artifact := RemoteArtifact(Some("foo.jar"), Some(7), Some(url));
    var s0 := Snapshot(map[], map[], {});
    var s1 := s0.(pending := s0.pending["foo" := Found(Foo, 42, "foo.jar", 7, url)]);
    FooJarMatches();
    assert !Throws(Foo, artifact) && IsNew(s0.ledger, "foo", 7, 42);
    assert [artifact][1..] == [];
    assert AfterArtifacts(s0, Foo, 42, [artifact], github, false) == AfterArtifacts(s1, Foo, 42, [], github, false);
  }

  lemma WorkedInstall(s1: Snapshot, info: UpdateInfo, timestamp: string)
    requires s1 == Snapshot(map["foo" := info], map[], {})
    requires info.artifactId == 7 && info.runId == 42
    ensures AfterInstall(s1, "foo", info, Downloaded(Entries([ArchiveEntry("foo.jar", Copied)]), timestamp))
         == Snapshot(map[], map["foo" := PluginInfo("7", "run-42", 42, "foo.jar")], {"foo.jar"})
  {
    FooJarExtracted(timestamp);
    WorkedLabels();
    assert CurrentFileName(s1.ledger, "foo") == None;
    var r := AfterInstall(s1, "foo", info, Downloaded(Entries([ArchiveEntry("foo.jar", Copied)]), timestamp));
    assert r.pending == map[];
    assert r.folder == {"foo.jar"};
  }

  lemma WorkedLabels()
    ensures Decimal(7) == "7" && RunLabel(42) == "run-42"
  {
    assert Digits(42) == Digits(4) + [DigitChar(2)];
  }

  lemma FooJarExtracted(timestamp: string)
    ensures Extract(Entries([ArchiveEntry("foo.jar", Copied)]), {}, timestamp) == Extraction(Some("foo.jar"), {"foo.jar"})
  {
    FooJarName();
    SingleJarExtracted("foo.jar", timestamp);
  }

  /** A top-level jar extracted alone into an empty folder keeps its name. */
  lemma SingleJarExtracted(name: string, timestamp: string)
    requires IsJarEntry(name) && BaseName(name) == name
    ensures ExtractFrom([ArchiveEntry(name, Copied)], {}, timestamp, None) == Extraction(Some(name), {name})
  {
    var entry := ArchiveEntry(name, Copied);
    assert [entry][0] == entry && [entry][1..] == [];
    assert DestName(name, {}, timestamp) == name;
  }

  lemma FooJarName()
    ensures IsJarEntry("foo.jar") && BaseName("foo.jar") == "foo.jar"
  {
    FooJarLower();
    FooJarNoSlash();
  }

  lemma FooJarMatches()
    ensures MatchesPattern("foo.jar", "*.jar")
  {
    DefaultPattern("foo.jar");
    assert "foo.jar"[|"foo.jar"| - |".jar"|..] == ".jar";
  }

  lemma FooJarLower()
    ensures ToLower("foo.jar") == "foo.jar"
  {
  }

  lemma FooJarNoSlash()
    ensures LastIndexOf("foo.jar", '/') == -1
  {
  }
}
