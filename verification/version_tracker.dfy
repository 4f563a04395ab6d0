/** The version ledger: which artifact of which workflow run is installed for
    each repository key, and its persistence in `versions.yml`.

    The YAML document is modelled by its leaves, a map from dotted path to
    scalar, so saving is writing four paths per key and loading is reading
    them back. */
module VersionLedger {
  import opened JavaText

  /** What is recorded about one installed plugin. */
  datatype PluginInfo = PluginInfo(artifactId: string, version: string, runId: int, fileName: string)

  /** Repository key to installed plugin; at most one record per key. */
  type Ledger = map<string, PluginInfo>

  /** A YAML scalar. */
  datatype Value = Str(s: string) | Num(n: int)

  /** A YAML document as its leaves: dotted path to scalar. */
  type Document = map<string, Value>

  // ---------------------------------------------------------------------
  // Queries on the in-memory ledger

  /** A version is new unless the recorded run id and the recorded artifact id
      (a string) both equal the ones offered. */
  function IsNew(ledger: Ledger, repoKey: string, artifactId: int, runId: int): bool
  {
    repoKey !in ledger
    || ledger[repoKey].runId != runId
    || ledger[repoKey].artifactId != Decimal(artifactId)
  }

  /** The file name recorded for a key, or null when nothing is recorded. */
  function CurrentFileName(ledger: Ledger, repoKey: string): Option<string>
  {
    if repoKey in ledger then Some(ledger[repoKey].fileName) else None
  }

  /** For one key at most one (artifact id, run id) pair is "not new": the one
      recorded. Every other pair, larger or smaller, counts as new. */
  lemma AtMostOneCurrent(ledger: Ledger, repoKey: string, a1: int, r1: int, a2: int, r2: int)
    requires !IsNew(ledger, repoKey, a1, r1) && !IsNew(ledger, repoKey, a2, r2)
    ensures a1 == a2 && r1 == r2
  {
    DecimalInjective(a1, a2);
  }

  /** "New" means different, not greater: a run id or artifact id below the
      recorded one is still reported as new. */
  lemma OlderIsNew(ledger: Ledger, repoKey: string, artifactId: int, runId: int, recordedArtifactId: int)
    requires repoKey in ledger && ledger[repoKey].artifactId == Decimal(recordedArtifactId)
    requires runId < ledger[repoKey].runId || artifactId < recordedArtifactId
    ensures IsNew(ledger, repoKey, artifactId, runId)
  {
    DecimalInjective(artifactId, recordedArtifactId);
  }

  /** Recording an install makes that version current and names its file,
      and leaves every other key's record as it was. */
  lemma RecordedIsCurrent(ledger: Ledger, repoKey: string, artifactId: int, version: string, runId: int, fileName: string)
    ensures var after := ledger[repoKey := PluginInfo(Decimal(artifactId), version, runId, fileName)];
      && !IsNew(after, repoKey, artifactId, runId)
      && CurrentFileName(after, repoKey) == Some(fileName)
      && forall k :: k != repoKey ==> CurrentFileName(after, k) == CurrentFileName(ledger, k)
  {
  }

  // ---------------------------------------------------------------------
  // The persisted form

  const Root: string := "plugins."

  /** The document path of one field of one key's record. */
  function Path(key: string, field: string): string
  {
    Root + key + "." + field
  }

  /** The four paths of one key's record. */
  function RecordPaths(key: string): set<string>
  {
    {Path(key, "artifactId"), Path(key, "version"), Path(key, "runId"), Path(key, "fileName")}
  }

  predicate NoDot(s: string)
  {
    '.' !in s
  }

  /** The first path component of `rest`. */
  function ChildName(rest: string): (k: string)
    ensures NoDot(k)
  {
    if rest == [] || rest[0] == '.' then [] else [rest[0]] + ChildName(rest[1..])
  }

  /** The child of `plugins` a path lies under. */
  function KeyOf(path: string): string
  {
    if StartsWith(path, Root) then ChildName(path[|Root|..]) else ""
  }

  /** The child names of the `plugins` section. */
  function SectionKeys(doc: Document): set<string>
  {
    set p | p in doc && StartsWith(p, Root) :: KeyOf(p)
  }

  /** `getString`: a number reads as its decimal rendering; a missing path
      reads as the empty string. */
  function GetString(doc: Document, path: string): string
  {
    if path !in doc then ""
    else match doc[path]
      case Str(s) => s
      case Num(n) => Decimal(n)
  }

  /** `getLong`: anything but a number reads as 0. */
  function GetLong(doc: Document, path: string): int
  {
    if path in doc && doc[path].Num? then doc[path].n else 0
  }

  /** The record read back for one key. */
  function Record(doc: Document, key: string): PluginInfo
  {
    PluginInfo(GetString(doc, Path(key, "artifactId")), GetString(doc, Path(key, "version")),
               GetLong(doc, Path(key, "runId")), GetString(doc, Path(key, "fileName")))
  }

  /** The ledger a document loads as: one record per child of `plugins`. */
  function Load(doc: Document): Ledger
  {
    map k | k in SectionKeys(doc) :: Record(doc, k)
  }

  /** `doc` holds the four fields of `info` under `key`. */
  ghost predicate Holds(doc: Document, key: string, info: PluginInfo)
  {
    && Path(key, "artifactId") in doc && doc[Path(key, "artifactId")] == Str(info.artifactId)
    && Path(key, "version") in doc && doc[Path(key, "version")] == Str(info.version)
    && Path(key, "runId") in doc && doc[Path(key, "runId")] == Num(info.runId)
    && Path(key, "fileName") in doc && doc[Path(key, "fileName")] == Str(info.fileName)
  }

  /** `path` is one of the paths saving `ledger` writes. */
  ghost predicate Written(path: string, ledger: Ledger)
  {
    StartsWith(path, Root) && KeyOf(path) in ledger && path in RecordPaths(KeyOf(path))
  }

  /** `after` is `before` with every record of `ledger` written over it and
      nothing else touched. */
  ghost predicate SavedOver(before: Document, after: Document, ledger: Ledger)
  {
    && (forall k :: k in ledger ==> Holds(after, k, ledger[k]))
    && (forall p :: p in after ==> p in before || Written(p, ledger))
    && (forall p :: p in before && !Written(p, ledger) ==> p in after && after[p] == before[p])
  }

  /** `doc` with one key's record written over it. */
  function WriteRecord(doc: Document, key: string, info: PluginInfo): Document
  {
    doc[Path(key, "artifactId") := Str(info.artifactId)]
       [Path(key, "version") := Str(info.version)]
       [Path(key, "runId") := Num(info.runId)]
       [Path(key, "fileName") := Str(info.fileName)]
  }

  /** A dot-free key is the first component of each of its paths. */
  lemma {:induction false} ChildNameOfPath(key: string, field: string)
    requires NoDot(key)
    ensures StartsWith(Path(key, field), Root)
    ensures KeyOf(Path(key, field)) == key
  {
    assert Path(key, field) == Root + (key + "." + field);
    assert Path(key, field)[|Root|..] == key + "." + field;
    KeyPrefix(key, field);
  }

  lemma {:induction false} KeyPrefix(key: string, field: string)
    requires NoDot(key)
    ensures ChildName(key + "." + field) == key
  {
    if key != [] {
      assert (key + "." + field)[1..] == key[1..] + "." + field;
      KeyPrefix(key[1..], field);
    }
  }

  /** Every path of a dot-free key's record lies under that key. */
  lemma RecordPathsUnderKey(key: string)
    requires NoDot(key)
    ensures forall p :: p in RecordPaths(key) ==> StartsWith(p, Root) && KeyOf(p) == key
  {
    ChildNameOfPath(key, "artifactId");
    ChildNameOfPath(key, "version");
    ChildNameOfPath(key, "runId");
    ChildNameOfPath(key, "fileName");
  }

  lemma WriteRecordFacts(doc: Document, key: string, info: PluginInfo)
    ensures WriteRecord(doc, key, info).Keys == doc.Keys + RecordPaths(key)
    ensures Holds(WriteRecord(doc, key, info), key, info)
    ensures forall p :: p in doc && p !in RecordPaths(key) ==> WriteRecord(doc, key, info)[p] == doc[p]
  {
  }

  /** After a save every key of the ledger is a child of `plugins`. */
  lemma SavedKeysPresent(before: Document, after: Document, ledger: Ledger)
    requires SavedOver(before, after, ledger)
    requires forall k :: k in ledger ==> NoDot(k)
    ensures ledger.Keys <= SectionKeys(after)
  {
    forall k | k in ledger
      ensures k in SectionKeys(after)
    {
      ChildNameOfPath(k, "artifactId");
      assert Holds(after, k, ledger[k]);
    }
  }

  /** After a save the children of `plugins` are the saved keys and the old ones. */
  lemma SavedKeysOnly(before: Document, after: Document, ledger: Ledger)
    requires SavedOver(before, after, ledger)
    ensures SectionKeys(after) <= SectionKeys(before) + ledger.Keys
  {
    forall k | k in SectionKeys(after)
      ensures k in SectionKeys(before) + ledger.Keys
    {
      var p :| p in after && StartsWith(p, Root) && KeyOf(p) == k;
      if p in before {
        assert k in SectionKeys(before);
      }
    }
  }

  /** Load after save gives back the ledger that was saved, provided the
      document held no other keys and no key contains a dot. */
  lemma LoadAfterSave(before: Document, after: Document, ledger: Ledger)
    requires SavedOver(before, after, ledger)
    requires SectionKeys(before) <= ledger.Keys
    requires forall k :: k in ledger ==> NoDot(k)
    ensures Load(after) == ledger
  {
    SavedKeysPresent(before, after, ledger);
    SavedKeysOnly(before, after, ledger);
    LoadHeld(after, ledger);
  }

  /** A document whose `plugins` children are the ledger's keys, each holding
      its record, loads as that ledger. */
  lemma LoadHeld(doc: Document, ledger: Ledger)
    requires SectionKeys(doc) == ledger.Keys
    requires forall k :: k in ledger ==> Holds(doc, k, ledger[k])
    ensures Load(doc) == ledger
  {
    forall k | k in ledger
      ensures Load(doc)[k] == ledger[k]
    {
      HeldRecordReadsBack(doc, k, ledger[k]);
    }
  }

  /** A record held in a document reads back unchanged. */
  lemma HeldRecordReadsBack(doc: Document, key: string, info: PluginInfo)
    requires Holds(doc, key, info)
    ensures Record(doc, key) == info
  {
  }

  /** The whole save cycle on an empty document: load after save is the identity. */
  lemma SaveLoadRoundTrip(after: Document, ledger: Ledger)
    requires SavedOver(map[], after, ledger)
    requires forall k :: k in ledger ==> NoDot(k)
    ensures Load(after) == ledger
  {
    LoadAfterSave(map[], after, ledger);
  }

  /** Writing one more record keeps the saved-over relation. */
  lemma SaveStep(before: Document, doc: Document, ledger: Ledger, key: string, info: PluginInfo)
    requires SavedOver(before, doc, ledger)
    requires key !in ledger && NoDot(key)
    requires forall k :: k in ledger ==> NoDot(k)
    ensures SavedOver(before, WriteRecord(doc, key, info), ledger[key := info])
  {
    SaveStepHolds(doc, ledger, key, info, ledger[key := info]);
    SaveStepWritten(before, doc, ledger, key, info);
    SaveStepUntouched(before, doc, ledger, key, info);
  }

  lemma SaveStepHolds(doc: Document, ledger: Ledger, key: string, info: PluginInfo, updated: Ledger)
    requires forall k :: k in ledger ==> Holds(doc, k, ledger[k])
    requires key !in ledger && NoDot(key)
    requires forall k :: k in ledger ==> NoDot(k)
    requires updated == ledger[key := info]
    ensures forall k :: k in updated ==> Holds(WriteRecord(doc, key, info), k, updated[k])
  {
    WriteRecordFacts(doc, key, info);
    RecordPathsUnderKey(key);
    forall k | k in updated
      ensures Holds(WriteRecord(doc, key, info), k, updated[k])
    {
      if k != key {
        RecordPathsUnderKey(k);
        assert Holds(doc, k, ledger[k]);
      }
    }
  }

  lemma SaveStepWritten(before: Document, doc: Document, ledger: Ledger, key: string, info: PluginInfo)
    requires forall p :: p in doc ==> p in before || Written(p, ledger)
    requires NoDot(key)
    ensures forall p :: p in WriteRecord(doc, key, info) ==> p in before || Written(p, ledger[key := info])
  {
    WriteRecordFacts(doc, key, info);
    RecordPathsUnderKey(key);
  }

  lemma SaveStepUntouched(before: Document, doc: Document, ledger: Ledger, key: string, info: PluginInfo)
    requires forall p :: p in before && !Written(p, ledger) ==> p in doc && doc[p] == before[p]
    requires NoDot(key)
    ensures forall p :: p in before && !Written(p, ledger[key := info])
                ==> p in WriteRecord(doc, key, info) && WriteRecord(doc, key, info)[p] == before[p]
  {
    WriteRecordFacts(doc, key, info);
    RecordPathsUnderKey(key);
  }

  // ---------------------------------------------------------------------
  // The tracker object

  /** The in-memory ledger, the YAML document it is saved into, and the
      contents of `versions.yml` on disk. */
  class VersionTracker {
    var pluginInfoMap: Ledger
    var versionConfig: Document
    var versionFile: Document

    /** The file on disk always loads back as the in-memory ledger. */
    ghost predicate Valid()
      reads this
    {
      && (forall k :: k in pluginInfoMap ==> NoDot(k))
      && Load(versionConfig) == pluginInfoMap
      && versionFile == versionConfig
    }

    /** Reads `versions.yml`; a missing file is created empty and gives an
        empty ledger. */
    constructor (existing: Option<Document>)
      ensures Valid()
      ensures existing.None? ==> pluginInfoMap == map[] && versionFile == map[]
      ensures existing.Some? ==> versionFile == existing.value && pluginInfoMap == Load(existing.value)
    {
      var doc: Document := if existing.Some? then existing.value else map[];
      versionFile := doc;
      versionConfig := doc;
      pluginInfoMap := map[];
      new;
      var todo := SectionKeys(doc);
      while todo != {}
        invariant todo <= SectionKeys(doc)
        invariant versionConfig == doc && versionFile == doc
        invariant pluginInfoMap == map k | k in SectionKeys(doc) - todo :: Record(doc, k)
        decreases todo
      {
        var key :| key in todo;
        var path := Root + key + ".";
        var artifactId := GetString(versionConfig, path + "artifactId");
        var version := GetString(versionConfig, path + "version");
        var runId := GetLong(versionConfig, path + "runId");
        var fileName := GetString(versionConfig, path + "fileName");
        pluginInfoMap := pluginInfoMap[key := PluginInfo(artifactId, version, runId, fileName)];
        todo := todo - {key};
      }
    }

    /** Writes every record into the document and the document to disk. */
    method SaveVersionFile()
      requires forall k :: k in pluginInfoMap ==> NoDot(k)
      requires SectionKeys(versionConfig) <= pluginInfoMap.Keys
      modifies this
      ensures pluginInfoMap == old(pluginInfoMap)
      ensures SavedOver(old(versionConfig), versionConfig, pluginInfoMap)
      ensures versionFile == versionConfig
      ensures Valid()
    {
      ghost var before := versionConfig;
      ghost var done: Ledger := map[];
      var todo := pluginInfoMap.Keys;
      while todo != {}
        invariant pluginInfoMap == old(pluginInfoMap) && before == old(versionConfig)
        invariant todo <= pluginInfoMap.Keys
        invariant done.Keys == pluginInfoMap.Keys - todo
        invariant forall k :: k in done ==> done[k] == pluginInfoMap[k] && NoDot(k)
        invariant SavedOver(before, versionConfig, done)
        decreases todo
      {
        var key :| key in todo;
        var info := pluginInfoMap[key];
        ghost var doc := versionConfig;
        var path := Root + key + ".";
        versionConfig := versionConfig[path + "artifactId" := Str(info.artifactId)];
        versionConfig := versionConfig[path + "version" := Str(info.version)];
        versionConfig := versionConfig[path + "runId" := Num(info.runId)];
        versionConfig := versionConfig[path + "fileName" := Str(info.fileName)];
        assert SavedOver(before, versionConfig, done[key := info]) by {
          assert versionConfig == WriteRecord(doc, key, info);
          SaveStep(before, doc, done, key, info);
        }
        done := done[key := info];
        todo := todo - {key};
      }
      assert done == pluginInfoMap;
      versionFile := versionConfig;
      LoadAfterSave(before, versionConfig, pluginInfoMap);
    }

    /** `isNewVersion`: an unknown key is always new. */
    function IsNewVersion(repoKey: string, artifactId: int, runId: int): (r: bool)
      reads this
      ensures repoKey !in pluginInfoMap ==> r
      ensures r == IsNew(pluginInfoMap, repoKey, artifactId, runId)
    {
      IsNew(pluginInfoMap, repoKey, artifactId, runId)
    }

    /** `getCurrentPluginFileName`: the recorded file name for a known key,
        null for an unknown one. */
    function GetCurrentPluginFileName(repoKey: string): (r: Option<string>)
      reads this
      ensures r.Some? <==> repoKey in pluginInfoMap
      ensures r.Some? ==> r.value == pluginInfoMap[repoKey].fileName
    {
      CurrentFileName(pluginInfoMap, repoKey)
    }

    /** Overwrites the record of one key and saves the whole ledger at once. */
    method UpdatePluginInfo(repoKey: string, artifactId: string, version: string, runId: int, fileName: string)
      requires Valid() && NoDot(repoKey)
      modifies this
      ensures Valid()
      ensures pluginInfoMap == old(pluginInfoMap)[repoKey := PluginInfo(artifactId, version, runId, fileName)]
      ensures SavedOver(old(versionConfig), versionConfig, pluginInfoMap)
      ensures Load(versionFile) == pluginInfoMap
    {
      pluginInfoMap := pluginInfoMap[repoKey := PluginInfo(artifactId, version, runId, fileName)];
      SaveVersionFile();
    }
  }
}
