# PluginLoader update core, in Dafny

PluginLoader is a Bukkit plugin that installs other plugins ("sub-plugins")
from GitHub Actions artifacts. For every repository configured under
`github.repositories` it asks GitHub for the latest successful run of a
workflow. It lists the run's artifacts and keeps those whose name matches the
configured pattern. An artifact whose (artifact id, run id) pair differs from
the one recorded in `versions.yml` becomes a *pending update*. Installing a
pending update does four things:

- delete the file the ledger names for that repository;
- download the artifact ZIP;
- copy every `.jar` entry into the `sub-plugins` folder, renaming on a name
  collision;
- record the new version and drop the pending entry.

The `/pluginloader` command starts a check (`check`) or installs everything
pending (`update`). It also completes its sub-command word.

This project models that decision core and proves what it guarantees.

| file | module | models |
|---|---|---|
| `text.dfy` | `JavaText` | the Java string behaviour the core relies on: null as `Option`, `toLowerCase`, `startsWith`/`endsWith`, `lastIndexOf`, `String.valueOf(long)` |
| `version_tracker.dfy` | `VersionLedger` | `VersionTracker`: the in-memory ledger, and its YAML document as a map from dotted path to scalar |
| `matcher.dfy` | `Matcher` | `matchesPattern`: `*` as `.*`, a literal `.`, and a whole-name match |
| `installer.dfy` | `Installer` | `extractJarsFromZip` reduced to file names: which entries are written, under which name, and which name is reported |
| `main_loader.dfy` | `Pipeline` | `UpdateInfo`, `checkForUpdates`, `downloadAndInstallUpdate`, `downloadAllPendingUpdates`. Each is a method of class `MainLoader`, proved against a specification function on snapshots of the state: the pending map, the ledger and the folder. |
| `pending_properties.dfy` | `PendingProperties` | properties of whole check and install cycles, stated on those specification functions |
| `update_command.dfy` | `Command` | `onCommand`'s dispatch and `onTabComplete` |

GitHub is a parameter (`Pipeline.GitHub`) made of three functions:

- the latest successful run of a repository, which may fail or be absent;
- the artifact list of a run, which may fail;
- the outcome of downloading an update: the download fails, or it yields an
  archive plus the time at which that archive is extracted.

Deferred tasks are modelled as run to completion.

## Model

| member | source | states |
|---|---|---|
| JavaText.ToLower | src/main/java/me/perro/dev/pluginloader/MainLoader.java:414 | lower-casing keeps the length and lower-cases each character in place |
| JavaText.ToLowerIdempotent | src/main/java/me/perro/dev/pluginloader/UpdateCommand.java:80 | lower-casing a lower-cased string changes nothing |
| JavaText.LastIndexOf | src/main/java/me/perro/dev/pluginloader/MainLoader.java:422-423 | the result is -1 exactly when the character is absent; otherwise it is a position holding the character with no later occurrence |
| JavaText.DecimalInjective | src/main/java/me/perro/dev/pluginloader/VersionTracker.java:79 | two longs have the same `String.valueOf` rendering if and only if they are equal |
| VersionLedger.AtMostOneCurrent | src/main/java/me/perro/dev/pluginloader/VersionTracker.java:71-80 | for one key, at most one (artifact id, run id) pair is "not new", namely the recorded one |
| VersionLedger.OlderIsNew | src/main/java/me/perro/dev/pluginloader/VersionTracker.java:78-79 | "new" means different, not greater: a smaller run id or artifact id than the recorded one is still new |
| VersionLedger.RecordedIsCurrent | src/main/java/me/perro/dev/pluginloader/VersionTracker.java:82-91 | after recording an install, that version is not new, its file name is the current one, and every other key's current file is unchanged |
| VersionLedger.SaveStep | src/main/java/me/perro/dev/pluginloader/VersionTracker.java:53-62 | writing one more key's four fields extends the saved-over relation to the ledger with that key |
| VersionLedger.LoadAfterSave | src/main/java/me/perro/dev/pluginloader/VersionTracker.java:36-62 | loading a document after saving a ledger over it gives back exactly that ledger, when the document held no other keys and no key contains a dot |
| VersionLedger.SaveLoadRoundTrip | src/main/java/me/perro/dev/pluginloader/VersionTracker.java:25-62 | saving into a fresh document and loading it again is the identity on ledgers |
| VersionLedger.VersionTracker.constructor | src/main/java/me/perro/dev/pluginloader/VersionTracker.java:19-49 | a missing file is created empty and gives an empty ledger; an existing file loads as one record per child of `plugins`; the tracker is then valid, i.e. its file loads back as its ledger |
| VersionLedger.VersionTracker.SaveVersionFile | src/main/java/me/perro/dev/pluginloader/VersionTracker.java:51-69 | the ledger is unchanged; every record is written over the document and nothing else is touched; the file equals the document; the file loads back as the ledger |
| VersionLedger.VersionTracker.IsNewVersion | src/main/java/me/perro/dev/pluginloader/VersionTracker.java:71-80 | an unknown key is always new; otherwise the answer is the ledger's "new" relation |
| VersionLedger.VersionTracker.GetCurrentPluginFileName | src/main/java/me/perro/dev/pluginloader/VersionTracker.java:82-87 | a file name is returned exactly for a known key, and it is that key's recorded file name |
| VersionLedger.VersionTracker.UpdatePluginInfo | src/main/java/me/perro/dev/pluginloader/VersionTracker.java:89-92 | only that key's record is replaced; the document is the old one with every record of the new ledger written over it; the file saved to disk loads back as the new ledger |
| Matcher.LiteralPattern | src/main/java/me/perro/dev/pluginloader/MainLoader.java:313-316 | a pattern without `*` matches exactly the identical name, so a `.` is literal and the match is case-sensitive |
| Matcher.StarSplit | src/main/java/me/perro/dev/pluginloader/MainLoader.java:313-316 | a leading `*` matches exactly when some prefix of the name free of line terminators, possibly empty, can be dropped so that the rest of the pattern matches the rest; with `Matcher.LiteralHead` this covers patterns with any number of stars |
| Matcher.LiteralHead | src/main/java/me/perro/dev/pluginloader/MainLoader.java:313-316 | a literal head of the pattern must be the head of the name, and the rest of the pattern must match the rest of the name |
| Matcher.StarThenLiteral | src/main/java/me/perro/dev/pluginloader/MainLoader.java:313-316 | `*` followed by a literal matches exactly the names that end with that literal and have no line terminator before it |
| Matcher.DefaultPattern | src/main/java/me/perro/dev/pluginloader/MainLoader.java:122 | the default pattern `*.jar` matches exactly the names ending in lower-case `.jar` that contain no line terminator |
| Matcher.PrefixStarSuffix | src/main/java/me/perro/dev/pluginloader/MainLoader.java:313-316 | `prefix*suffix` matches exactly the names that start with the prefix, end with the suffix after it, and have no line terminator in between |
| Matcher.AnchoredExamples | src/main/java/me/perro/dev/pluginloader/MainLoader.java:313-316 | the match is anchored at both ends and case-sensitive: `app-*.jar` matches `app-1.2.3.jar` but neither `other-app-1.2.3.jar.bak` nor `app-1.JAR` |
| Installer.BaseName | src/main/java/me/perro/dev/pluginloader/MainLoader.java:417-418 | the output name is the part of the entry name after its last `/` (a suffix with no `/`, preceded by `/` unless it is the whole name), and the base name of a jar entry is itself a jar name |
| Installer.JarEntryByExtension | src/main/java/me/perro/dev/pluginloader/MainLoader.java:414 | an entry is a jar exactly when it has at least four characters and the last four, lower-cased, are `.jar`, so `.JAR` and `.Jar` count too |
| Installer.Renamed | src/main/java/me/perro/dev/pluginloader/MainLoader.java:421-426 | a jar name becomes its stem, `-`, the timestamp and its four-character extension; the rename differs from the name and is still a jar name |
| Installer.DestName | src/main/java/me/perro/dev/pluginloader/MainLoader.java:417-428 | the name written is the entry's own name exactly when no file of that name is in the folder; either way it is a jar name |
| Installer.JarNameShape | src/main/java/me/perro/dev/pluginloader/MainLoader.java:422-423 | in a jar name the last dot exists and starts the four-character extension |
| Installer.CollisionRenamed | src/main/java/me/perro/dev/pluginloader/MainLoader.java:417-428 | a name not yet in the folder is kept; a taken name becomes `stem-timestamp.ext`, which differs from it; either way the result is a jar name |
| Installer.ExtractJarsFromZip | src/main/java/me/perro/dev/pluginloader/MainLoader.java:400-461 | the loop over the entries reports and writes exactly what the extraction specification prescribes, including the stop on an entry that fails to open or to copy, and the unreadable archive |
| Installer.NothingExtractedIffNoJar | src/main/java/me/perro/dev/pluginloader/MainLoader.java:403-460 | nothing is reported if and only if the archive is unreadable or holds no jar entry |
| Installer.KeepsReported | src/main/java/me/perro/dev/pluginloader/MainLoader.java:409-442 | once a name has been reported, some name stays reported |
| Installer.ExtractOnlyAddsJars | src/main/java/me/perro/dev/pluginloader/MainLoader.java:409-442 | extraction only adds files, and every added file is a jar name; unless a jar entry failed to open, the reported name is a file in the folder |
| Installer.LastJarReported | src/main/java/me/perro/dev/pluginloader/MainLoader.java:409-442 | when every jar entry is copied whole (other entries are never opened), the reported name is the last jar entry's base name or its timestamped rename |
| Installer.NoJarAfter | src/main/java/me/perro/dev/pluginloader/MainLoader.java:414 | entries that are not jars change neither the folder nor the reported name |
| Installer.PartialCopyReported | src/main/java/me/perro/dev/pluginloader/MainLoader.java:417-460 | a jar whose copy fails part-way is still the name reported, and its partial file is in the folder, so the caller records a partially written file |
| Installer.FailedOpenReported | src/main/java/me/perro/dev/pluginloader/MainLoader.java:417-460 | a jar whose stream or output file cannot be opened is still the name reported, the folder is unchanged, and a free name is therefore not in the folder |
| Pipeline.MainLoader.constructor | src/main/java/me/perro/dev/pluginloader/MainLoader.java:27-32 | a loader starts with no pending updates, the given folder and tracker, and is valid |
| Pipeline.MainLoader.DownloadAndInstallUpdate | src/main/java/me/perro/dev/pluginloader/MainLoader.java:236-282 | the new state is the install specification: delete the current file, extract on a completed download, record the extracted name, drop the pending entry; validity (the file loads back as the ledger) is kept |
| Pipeline.MainLoader.CheckArtifact | src/main/java/me/perro/dev/pluginloader/MainLoader.java:156-195 | it throws exactly on a null name, or on a matching artifact without an id or whose download URL is not a string, and then changes nothing; otherwise it performs one step of the per-artifact specification |
| Pipeline.MainLoader.CheckRepository | src/main/java/me/perro/dev/pluginloader/MainLoader.java:118-203 | one repository is handled as specified, with a thrown exception ending only that repository |
| Pipeline.MainLoader.CheckForUpdates | src/main/java/me/perro/dev/pluginloader/MainLoader.java:111-229 | pending is cleared and the repositories are checked in order; the map returned is the loader's pending map |
| Pipeline.MainLoader.DownloadAllPendingUpdates | src/main/java/me/perro/dev/pluginloader/MainLoader.java:287-311 | nothing happens when nothing is pending; otherwise each key of the key snapshot that is still pending is installed |
| PendingProperties.InstallOnlyRemoves | src/main/java/me/perro/dev/pluginloader/MainLoader.java:271 | installing never adds a pending key |
| PendingProperties.ArtifactsPendingKeys | src/main/java/me/perro/dev/pluginloader/MainLoader.java:156-195 | the artifact loop adds at most the repository's own key to pending |
| PendingProperties.RepositoryPendingKeys | src/main/java/me/perro/dev/pluginloader/MainLoader.java:118-203 | one repository adds at most its own key to pending |
| PendingProperties.RepositoriesPendingKeys | src/main/java/me/perro/dev/pluginloader/MainLoader.java:118-204 | the loop over repositories adds only configured keys to pending |
| PendingProperties.CheckPendingKeys | src/main/java/me/perro/dev/pluginloader/MainLoader.java:111-229 | after a check every pending key is the key of a configured repository |
| PendingProperties.SkippedRepositoryChangesNothing | src/main/java/me/perro/dev/pluginloader/MainLoader.java:128-152 | a repository that is incomplete, fails, or has no run or no artifacts changes nothing |
| PendingProperties.RepositoriesAppend | src/main/java/me/perro/dev/pluginloader/MainLoader.java:118-204 | checking `xs + ys` is checking `xs` and then `ys` |
| PendingProperties.SkippedRepositoryIsolated | src/main/java/me/perro/dev/pluginloader/MainLoader.java:118-203 | removing a skipped repository from the configuration changes nothing about the others |
| PendingProperties.ThrowKeepsEarlier | src/main/java/me/perro/dev/pluginloader/MainLoader.java:156-203 | an artifact that throws ends its repository, and what the artifacts before it did is kept |
| PendingProperties.QuietArtifacts | src/main/java/me/perro/dev/pluginloader/MainLoader.java:156-195 | without installing, the artifact loop keeps the ledger and the folder; only the repository's own entry changes, and only to an announced new match |
| PendingProperties.QuietRepository | src/main/java/me/perro/dev/pluginloader/MainLoader.java:118-203 | the same for one whole repository |
| PendingProperties.QuietRepositories | src/main/java/me/perro/dev/pluginloader/MainLoader.java:118-204 | over all repositories, the ledger and folder are kept and every pending entry stays justified by a configured repository |
| PendingProperties.InstallTouchesOwnKey | src/main/java/me/perro/dev/pluginloader/MainLoader.java:236-282 | installing one update changes the pending map and the ledger at its own key only; if the entry stays pending, the ledger is unchanged |
| PendingProperties.InstallingArtifacts | src/main/java/me/perro/dev/pluginloader/MainLoader.java:156-195 | with installing on, the artifact loop changes no other key, and an entry it leaves for its repository is a matching artifact that is new against the ledger as the loop leaves it |
| PendingProperties.InstallingRepository | src/main/java/me/perro/dev/pluginloader/MainLoader.java:118-203 | the same for one whole repository |
| PendingProperties.InstallingRepositories | src/main/java/me/perro/dev/pluginloader/MainLoader.java:118-204 | over repositories with distinct keys, every pending entry stays justified by its repository against the current ledger |
| PendingProperties.InstallingCheck | src/main/java/me/perro/dev/pluginloader/MainLoader.java:111-229 | whether or not the check installs, each pending entry is a matching artifact of the repository it is filed under, new against the ledger the check leaves |
| PendingProperties.QuietCheck | src/main/java/me/perro/dev/pluginloader/MainLoader.java:111-229 | a check that installs nothing keeps the ledger and the folder. Each pending entry is a new, pattern-matching artifact of the repository it is filed under, carrying that repository's owner, repo, pattern and token and the `(ID: n)` version label. |
| PendingProperties.NothingNewAfter | src/main/java/me/perro/dev/pluginloader/MainLoader.java:161-170 | artifacts that neither throw nor are new matches change nothing |
| PendingProperties.LastNewMatchPending | src/main/java/me/perro/dev/pluginloader/MainLoader.java:156-195 | without installing, the entry left for a repository is its last new matching artifact (a later match overwrites an earlier one) |
| PendingProperties.InstallOutcome | src/main/java/me/perro/dev/pluginloader/MainLoader.java:236-282 | there are three outcomes. (1) A failed download keeps the pending entry and the ledger, but the old file is already gone. (2) A completed download drops the entry. (3) With a jar in the archive, the ledger records this run as current, under the `run-n` label and the extracted name, which is a file in the folder unless a jar entry failed to open, and no other record changes. Without a jar, the ledger is untouched. |
| PendingProperties.InstallWithoutJar | src/main/java/me/perro/dev/pluginloader/MainLoader.java:260-268 | an archive without jars leaves the ledger alone and only the old file is removed |
| PendingProperties.InstallWithJar | src/main/java/me/perro/dev/pluginloader/MainLoader.java:260-268 | an archive with a jar makes the installed version current and leaves every other record alone; the recorded file is in the folder unless a jar entry failed to open |
| PendingProperties.FailedOpenRecordsMissingFile | src/main/java/me/perro/dev/pluginloader/MainLoader.java:260-264 | when the first jar entry cannot be opened and its name was free, the ledger records this run under that name although the folder holds no such file |
| PendingProperties.InstallKeysPending | src/main/java/me/perro/dev/pluginloader/MainLoader.java:296-303 | over distinct keys, exactly the listed entries whose download failed stay pending, with their old values |
| PendingProperties.InstallAllOutcome | src/main/java/me/perro/dev/pluginloader/MainLoader.java:287-311 | installing all changes nothing when nothing is pending, and leaves pending exactly the updates whose download failed |
| PendingProperties.SingleJarExtracted | src/main/java/me/perro/dev/pluginloader/MainLoader.java:409-428 | a lone top-level jar extracted into an empty folder keeps its name |
| PendingProperties.WorkedCycle | src/main/java/me/perro/dev/pluginloader/MainLoader.java:111-311 | worked example: one repository, run 42, artifact `foo.jar` with id 7. The check leaves exactly that update pending. Installing it records `7`, `run-42`, 42, `foo.jar` and leaves nothing pending. Checking again while run 42 is still the latest changes nothing. |
| Command.Dispatch | src/main/java/me/perro/dev/pluginloader/UpdateCommand.java:22-74 | the answer is always true. Without permission the command is refused, and with no argument it shows help. `check` and `update`, ignoring case, are exactly the words that start a check or an install. |
| Command.DispatchIgnoresCase | src/main/java/me/perro/dev/pluginloader/UpdateCommand.java:35 | the dispatch does not depend on the case of the sub-command word |
| Command.DispatchExamples | src/main/java/me/perro/dev/pluginloader/UpdateCommand.java:22-74 | `CHECK` checks, `Update now` installs, `status` is unknown, and a sender without permission is refused |
| Command.Kept | src/main/java/me/perro/dev/pluginloader/UpdateCommand.java:80 | a candidate is kept if and only if it starts with the argument, ignoring case; the kept ones keep their order |
| Command.KeptAppend | src/main/java/me/perro/dev/pluginloader/UpdateCommand.java:80 | filtering one more candidate appends it or nothing |
| Command.RemoveIfNotCompleting | src/main/java/me/perro/dev/pluginloader/UpdateCommand.java:80 | filtering the list in place leaves exactly the candidates the argument completes, in their original order |
| Command.RemoveIfStep | src/main/java/me/perro/dev/pluginloader/UpdateCommand.java:80 | one turn of the in-place `removeIf`: the candidate at the boundary is dropped or kept, as the filter says |
| Command.CompletionIgnoresCase | src/main/java/me/perro/dev/pluginloader/UpdateCommand.java:80 | completion does not depend on the case of the argument |
| Command.CompletionExamples | src/main/java/me/perro/dev/pluginloader/UpdateCommand.java:77-84 | an empty argument offers `check` and `update`, `UP` offers `update`, and `x` offers nothing |
| Command.UpdateCommand.constructor | src/main/java/me/perro/dev/pluginloader/UpdateCommand.java:17-19 | the command keeps the loader it is given |
| Command.UpdateCommand.OnTabComplete | src/main/java/me/perro/dev/pluginloader/UpdateCommand.java:77-84 | with exactly one argument, the result is the sub-commands that argument completes, in order; otherwise it is empty |
| Command.UpdateCommand.OnCommand | src/main/java/me/perro/dev/pluginloader/UpdateCommand.java:22-74 | it returns true. `check` runs a check without downloading; `update` installs all pending updates; anything else leaves the loader unchanged. |

## Left out

- HTTP requests, URL building, the user agent and the token header: GitHub is modelled by its answers (`Pipeline.GitHub`).
- JSON parsing: a missing `workflow_runs`, an empty run list and a null run id all become "no run". A response that throws, a run id of the wrong type, or a missing `artifacts` array becomes a failed request. Four malformed artifacts are a different case, because Java throws at that artifact after the earlier artifacts have acted: an element of `artifacts` that is not an object, a `name` that is not a string, an `id` that is not a long while the name matches the pattern, and, for a matching artifact with an id, an `archive_download_url` that is present but not a string. The model represents the first two as an artifact with a `None` name, the third as a matching artifact with a `None` id, and the fourth as a matching artifact with a `None` URL. `Pipeline.Throws` holds for exactly those. The `id` and the URL of an artifact that does not match are never read. A null URL passes the cast. The model has no null string, so it represents a null URL by some string, and only the download, a parameter of the model, can fail on it.
- A null `archive_download_url` is not modelled separately: the download then throws, which the model covers as a failed download.
- The bytes of the ZIP file: an archive is its list of entry names. Each entry carries how writing it goes (`Installer.CopyOutcome`): copied, failing once the output file exists, or failing to open the entry's stream or the output file, in which case no file is created.
- Installer.ExtractOnlyAddsJars: the reported name is in the folder only when no jar entry fails to open. For an entry that fails to open, Java still returns the name, and the caller records a file that does not exist (`Installer.FailedOpenReported`, `PendingProperties.FailedOpenRecordsMissingFile`). PendingProperties.InstallOutcome and PendingProperties.InstallWithJar promise the file is in the folder under the same condition.
- Where downloads go: the `downloads` folder, the `repo-timestamp.zip` file name, and deleting the ZIP afterwards (`github.delete-after-extract`). None of them changes the pending map, the ledger or the plugin folder.
- The clock: each download carries one extraction timestamp, used for every collision in that archive. The source formats a fresh date for each collision.
- The YAML library and disk errors: a document is a map from dotted path to scalar. Loading and saving cannot fail. A missing string field reads as the empty string, where Java returns null.
- VersionLedger.VersionTracker.IsNewVersion: a record without `artifactId` (only a hand-edited `versions.yml` has one; saved records carry all four fields) reads as `""`, so the model calls a same-run offer new. Java instead dereferences the null at VersionTracker.java:79 and throws, and the catch at MainLoader.java:201 ends the check of that repository.
- Installer.BaseName: assumes `/` is the only path separator and that file names compare case-sensitively, as on Linux. On Windows `new File(name).getName()` also splits at `\`, and `outFile.exists()` ignores case, so Installer.DestName would rename in more cases.
- VersionLedger.VersionTracker.UpdatePluginInfo: requires a repository key without `.`. Keys are children of a configuration section, and a dot there would split the saved path into deeper sections, so it could not load back.
- VersionLedger.VersionTracker.SaveVersionFile: requires that the document holds no key missing from the ledger. Every valid tracker satisfies this, since its document loads as its ledger.
- Pipeline.MainLoader.DownloadAndInstallUpdate: deleting the old file always succeeds in the model. The source ignores a failed delete, in which case the file would stay.
- PendingProperties.InstallingCheck: requires distinct repository keys. The keys are the children of one configuration section (`getKeys(false)`), so the source never repeats one.
- Pipeline.MainLoader.DownloadAllPendingUpdates: the order of `keySet().toArray()` is an input, a list of the pending keys without repeats.
- Command.UpdateCommand.OnCommand: takes the same key order as an input.
- Threads and the scheduler: a check or install started on the main thread runs asynchronously. Its effect on a shared pending map, and an early return of the still-empty map, are not modelled; each operation runs to completion.
- Messages to the command sender and every log line, including the check's report of pending updates.
- `toLowerCase` is modelled on ASCII letters only, with no locale-specific rules.
- Patterns are modelled with `*` and `.` only. Other regular-expression metacharacters in a configured pattern (`+`, `?`, `[`, …) are read as literal characters, which the source would not do.
- Loading the sub-plugins into the server (`loadSubPlugins`, `loadPlugin`), the `onLoad`/`onEnable`/`onDisable` lifecycle, the timer that re-checks every `check-interval` minutes, and the startup check. These only call the modelled operations or the server.
