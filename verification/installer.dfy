/** Extraction of the plugin jars from a downloaded workflow artifact
    (`extractJarsFromZip`), reduced to file names: the archive is its list of
    entry names and the plugin folder is the set of file names it holds. */
module Installer {
  import opened JavaText

  /** How writing a jar entry goes. `OpenFails`: the entry's stream or the
      output file cannot be opened, so no file is created. `CopyFails`: an I/O
      error once the output file exists, which leaves a partial file. Either
      failure ends the extraction. */
  datatype CopyOutcome = Copied | CopyFails | OpenFails

  /** One archive entry: its name, and how writing it goes if it is a jar. */
  datatype ArchiveEntry = ArchiveEntry(name: string, copy: CopyOutcome)

  /** The downloaded file: not a readable ZIP archive, or its entries in order. */
  datatype Archive = Unreadable | Entries(entries: seq<ArchiveEntry>)

  /** The name reported as extracted (null when none) and the folder afterwards. */
  datatype Extraction = Extraction(extracted: Option<string>, folder: set<string>)

  /** Only entries whose lower-cased name ends in `.jar` are extracted. */
  predicate IsJarEntry(name: string)
  {
    EndsWith(ToLower(name), ".jar")
  }

  /** The test looks at the last four characters alone, in any case: `.JAR`
      and `.Jar` count as well. */
  lemma JarEntryByExtension(name: string)
    ensures IsJarEntry(name) <==> |name| >= 4 && ToLower(name[|name| - 4..]) == ".jar"
  {
    if |name| >= 4 {
      ToLowerTail(name, 4);
    }
  }

  /** `new File(name).getName()`: what follows the last `/`. The base name of
      a jar entry is itself a jar name. */
  function BaseName(name: string): (base: string)
    ensures EndsWith(name, base) && '/' !in base
    ensures |base| < |name| ==> name[|name| - |base| - 1] == '/'
    ensures IsJarEntry(name) ==> IsJarEntry(base)
  {
    var k := LastIndexOf(name, '/') + 1;
    JarTail(name, k);
    name[k..]
  }

  /** The name written when `fileName` already exists: the part before the
      last dot, a dash, the timestamp, then the extension from the last dot. */
  function Renamed(fileName: string, timestamp: string): (r: string)
    requires IsJarEntry(fileName)
    ensures r == fileName[..|fileName| - 4] + "-" + timestamp + fileName[|fileName| - 4..]
    ensures r != fileName && IsJarEntry(r)
  {
    JarNameShape(fileName);
    RenamedIsJar(fileName, timestamp);
    var dot := LastIndexOf(fileName, '.');
    fileName[..dot] + "-" + timestamp + fileName[dot..]
  }

  lemma RenamedIsJar(fileName: string, timestamp: string)
    requires IsJarEntry(fileName)
    ensures |fileName| >= 4 && IsJarEntry(fileName[..|fileName| - 4] + "-" + timestamp + fileName[|fileName| - 4..])
  {
    JarEntryByExtension(fileName);
    var r := fileName[..|fileName| - 4] + "-" + timestamp + fileName[|fileName| - 4..];
    assert r[|r| - 4..] == fileName[|fileName| - 4..];
    JarEntryByExtension(r);
  }

  /** The name an extracted jar is written under in `folder`. */
  function DestName(fileName: string, folder: set<string>, timestamp: string): (r: string)
    requires IsJarEntry(fileName)
    ensures IsJarEntry(r)
    ensures r == fileName <==> fileName !in folder
  {
    if fileName in folder then Renamed(fileName, timestamp) else fileName
  }

  /** Extraction of `entries` into `folder`, where `last` is the name reported
      so far. A failure ends the extraction with the name already set; only
      a failure after opening leaves the file behind. */
  function ExtractFrom(entries: seq<ArchiveEntry>, folder: set<string>, timestamp: string, last: Option<string>): Extraction
    decreases |entries|
  {
    if entries == [] then Extraction(last, folder)
    else if !IsJarEntry(entries[0].name) then ExtractFrom(entries[1..], folder, timestamp, last)
    else
      var out := DestName(BaseName(entries[0].name), folder, timestamp);
      match entries[0].copy
      case Copied => ExtractFrom(entries[1..], folder + {out}, timestamp, Some(out))
      case CopyFails => Extraction(Some(out), folder + {out})
      case OpenFails => Extraction(Some(out), folder)
  }

  /** What extracting a downloaded archive into `folder` does. */
  function Extract(zip: Archive, folder: set<string>, timestamp: string): Extraction
  {
    match zip
    case Unreadable => Extraction(None, folder)
    case Entries(entries) => ExtractFrom(entries, folder, timestamp, None)
  }

  /** `extractJarsFromZip`: writes every jar entry into the folder under its
      base name, renaming on collision, and returns the last name written. */
  method ExtractJarsFromZip(zip: Archive, destFolder: set<string>, timestamp: string)
    returns (extractedFileName: Option<string>, folder: set<string>)
    ensures Extraction(extractedFileName, folder) == Extract(zip, destFolder, timestamp)
  {
    extractedFileName := None;
    folder := destFolder;
    if zip.Unreadable? {
      return;
    }
    var entries := zip.entries;
    var i := 0;
    while i < |entries|
      invariant 0 <= i <= |entries|
      invariant ExtractFrom(entries[i..], folder, timestamp, extractedFileName) == Extract(zip, destFolder, timestamp)
    {
      assert entries[i..][1..] == entries[i + 1..];
      var name := entries[i].name;
      if IsJarEntry(name) {
        var outName := BaseName(name);
        JarNameShape(outName);
        extractedFileName := Some(outName);
        if outName in folder {
          var dot := LastIndexOf(outName, '.');
          var baseName := outName[..dot];
          var extension := outName[dot..];
          extractedFileName := Some(baseName + "-" + timestamp + extension);
        }
        if entries[i].copy.OpenFails? {
          return;
        }
        folder := folder + {extractedFileName.value};
        if entries[i].copy.CopyFails? {
          return;
        }
      }
      i := i + 1;
    }
  }

  // ---------------------------------------------------------------------
  // Properties

  lemma ToLowerIsDot(c: char)
    ensures ToLowerChar(c) == '.' <==> c == '.'
  {
  }

  /** A jar name ends in a dot and three characters, none of them a dot, so
      its last dot starts the four-character extension. */
  lemma JarNameShape(fileName: string)
    requires IsJarEntry(fileName)
    ensures '.' in fileName && LastIndexOf(fileName, '.') == |fileName| - 4
  {
    ExtensionDots(fileName);
  }

  /** In the last four characters of a jar name only the first is a dot. */
  lemma ExtensionDots(fileName: string)
    requires IsJarEntry(fileName)
    ensures |fileName| >= 4
    ensures forall m :: |fileName| - 4 <= m < |fileName| ==> (fileName[m] == '.' <==> m == |fileName| - 4)
  {
    var n := |fileName|;
    var low := ToLower(fileName);
    assert low[n - 4..] == ".jar";
    forall m | n - 4 <= m < n
      ensures fileName[m] == '.' <==> m == n - 4
    {
      assert low[m] == ".jar"[m - (n - 4)];
      ToLowerIsDot(fileName[m]);
    }
  }

  /** Dropping a head that ends before the extension keeps a jar name a jar
      name; a head ending at the last `/` is such a head. */
  lemma JarTail(name: string, k: nat)
    requires 0 < k <= |name| ==> name[k - 1] == '/'
    requires k <= |name|
    ensures IsJarEntry(name) ==> IsJarEntry(name[k..])
  {
    var n := |name|;
    if IsJarEntry(name) {
      assert ToLower(name)[n - 4..] == ".jar";
      var tail := name[k..];
      forall m | 0 <= m < 4
        ensures ToLower(tail)[|tail| - 4 + m] == ".jar"[m]
      {
        assert tail[|tail| - 4 + m] == name[n - 4 + m];
        assert ToLower(name)[n - 4 + m] == ".jar"[m];
      }
      assert ToLower(tail)[|tail| - 4..] == ".jar";
    }
  }

  /** On a collision the jar is written under a different name that keeps the
      stem, adds the timestamp and keeps the extension; otherwise under its
      own name. */
  lemma CollisionRenamed(fileName: string, folder: set<string>, timestamp: string)
    requires IsJarEntry(fileName)
    ensures var dest := DestName(fileName, folder, timestamp);
      && IsJarEntry(dest)
      && (fileName !in folder ==> dest == fileName)
      && (fileName in folder ==>
            && dest != fileName
            && dest == fileName[..|fileName| - 4] + "-" + timestamp + fileName[|fileName| - 4..])
  {
    JarNameShape(fileName);
    var dest := DestName(fileName, folder, timestamp);
    if fileName in folder {
      assert |dest| == |fileName| + 1 + |timestamp|;
      assert dest[|dest| - 4..] == fileName[|fileName| - 4..];
      assert ToLower(dest)[|dest| - 4..] == ToLower(fileName)[|fileName| - 4..];
    }
  }

  /** Nothing is reported exactly when the archive is unreadable or holds no
      jar entry. */
  lemma NothingExtractedIffNoJar(zip: Archive, folder: set<string>, timestamp: string)
    ensures Extract(zip, folder, timestamp).extracted == None
        <==> zip.Unreadable? || forall i :: 0 <= i < |zip.entries| ==> !IsJarEntry(zip.entries[i].name)
  {
    if zip.Entries? {
      NoJarFrom(zip.entries, folder, timestamp);
    }
  }

  lemma NoJarFrom(entries: seq<ArchiveEntry>, folder: set<string>, timestamp: string)
    ensures ExtractFrom(entries, folder, timestamp, None).extracted == None
        <==> forall i :: 0 <= i < |entries| ==> !IsJarEntry(entries[i].name)
  {
    if forall i :: 0 <= i < |entries| ==> !IsJarEntry(entries[i].name) {
      NoJarNothing(entries, folder, timestamp);
    } else {
      var i :| 0 <= i < |entries| && IsJarEntry(entries[i].name);
      JarReported(entries, folder, timestamp, None, i);
    }
  }

  lemma {:induction false} NoJarNothing(entries: seq<ArchiveEntry>, folder: set<string>, timestamp: string)
    requires forall i :: 0 <= i < |entries| ==> !IsJarEntry(entries[i].name)
    ensures ExtractFrom(entries, folder, timestamp, None).extracted == None
    decreases |entries|
  {
    if entries != [] {
      assert !IsJarEntry(entries[0].name);
      var folder', last' := ExtractStep(entries, folder, timestamp, None);
      assert forall i :: 1 <= i < |entries| ==> entries[i] == entries[1..][i - 1];
      NoJarNothing(entries[1..], folder', timestamp);
    }
  }

  /** A jar entry anywhere in the archive gets some name reported. */
  lemma {:induction false} JarReported(entries: seq<ArchiveEntry>, folder: set<string>, timestamp: string, last: Option<string>, i: nat)
    requires i < |entries| && IsJarEntry(entries[i].name)
    ensures ExtractFrom(entries, folder, timestamp, last).extracted.Some?
    decreases i
  {
    if IsJarEntry(entries[0].name) && !entries[0].copy.Copied? {
      FailureReported(entries, folder, timestamp, last);
    } else {
      var rest := entries[1..];
      var folder', last' := ExtractStep(entries, folder, timestamp, last);
      if IsJarEntry(entries[0].name) {
        KeepsReported(rest, folder', timestamp, last');
      } else {
        assert rest[i - 1] == entries[i];
        JarReported(rest, folder', timestamp, last', i - 1);
      }
    }
  }

  /** A jar entry that fails to be written is still reported. */
  lemma FailureReported(entries: seq<ArchiveEntry>, folder: set<string>, timestamp: string, last: Option<string>)
    requires entries != [] && IsJarEntry(entries[0].name) && !entries[0].copy.Copied?
    ensures ExtractFrom(entries, folder, timestamp, last).extracted.Some?
  {
  }

  /** Once a name has been reported, some name stays reported. */
  lemma {:induction false} KeepsReported(entries: seq<ArchiveEntry>, folder: set<string>, timestamp: string, last: Option<string>)
    requires last.Some?
    ensures ExtractFrom(entries, folder, timestamp, last).extracted.Some?
    decreases |entries|
  {
    if entries != [] {
      if IsJarEntry(entries[0].name) && !entries[0].copy.Copied? {
        FailureReported(entries, folder, timestamp, last);
      } else {
        var folder', last' := ExtractStep(entries, folder, timestamp, last);
        KeepsReported(entries[1..], folder', timestamp, last');
      }
    }
  }

  /** Extraction only adds files, and every added file is a jar. The reported
      name is a file of the folder unless a jar entry failed to open. */
  lemma ExtractOnlyAddsJars(entries: seq<ArchiveEntry>, folder: set<string>, timestamp: string, last: Option<string>)
    requires last.Some? ==> last.value in folder
    ensures var r := ExtractFrom(entries, folder, timestamp, last);
      && folder <= r.folder
      && (forall n :: n in r.folder - folder ==> IsJarEntry(n))
      && (r.extracted.Some? && OpensJars(entries) ==> r.extracted.value in r.folder)
  {
    ExtractAddsJars(entries, folder, timestamp, last);
    if OpensJars(entries) {
      ReportedWritten(entries, folder, timestamp, last);
    }
  }

  lemma {:induction false} ExtractAddsJars(entries: seq<ArchiveEntry>, folder: set<string>, timestamp: string, last: Option<string>)
    ensures var r := ExtractFrom(entries, folder, timestamp, last);
      folder <= r.folder && forall n :: n in r.folder - folder ==> IsJarEntry(n)
    decreases |entries|
  {
    if entries != [] {
      if IsJarEntry(entries[0].name) {
        var out := DestName(BaseName(entries[0].name), folder, timestamp);
        assert IsJarEntry(out);
        match entries[0].copy
        case Copied =>
          assert ExtractFrom(entries, folder, timestamp, last) == ExtractFrom(entries[1..], folder + {out}, timestamp, Some(out));
          ExtractAddsJars(entries[1..], folder + {out}, timestamp, Some(out));
        case CopyFails =>
          assert ExtractFrom(entries, folder, timestamp, last).folder == folder + {out};
        case OpenFails =>
          assert ExtractFrom(entries, folder, timestamp, last).folder == folder;
      } else {
        assert ExtractFrom(entries, folder, timestamp, last) == ExtractFrom(entries[1..], folder, timestamp, last);
        ExtractAddsJars(entries[1..], folder, timestamp, last);
      }
    }
  }

  lemma {:induction false} ReportedWritten(entries: seq<ArchiveEntry>, folder: set<string>, timestamp: string, last: Option<string>)
    requires last.Some? ==> last.value in folder
    requires OpensJars(entries)
    ensures var r := ExtractFrom(entries, folder, timestamp, last);
      r.extracted.Some? ==> r.extracted.value in r.folder
    decreases |entries|
  {
    if entries != [] {
      OpensJarsTail(entries);
      if IsJarEntry(entries[0].name) {
        var out := DestName(BaseName(entries[0].name), folder, timestamp);
        if entries[0].copy.Copied? {
          ReportedWritten(entries[1..], folder + {out}, timestamp, Some(out));
        }
      } else {
        ReportedWritten(entries[1..], folder, timestamp, last);
      }
    }
  }

  /** No jar entry of the list fails to open. */
  predicate OpensJars(entries: seq<ArchiveEntry>)
  {
    forall i :: 0 <= i < |entries| && IsJarEntry(entries[i].name) ==> !entries[i].copy.OpenFails?
  }

  lemma OpensJarsTail(entries: seq<ArchiveEntry>)
    requires entries != [] && OpensJars(entries)
    ensures OpensJars(entries[1..])
  {
    forall i | 0 <= i < |entries[1..]| && IsJarEntry(entries[1..][i].name)
      ensures !entries[1..][i].copy.OpenFails?
    {
      assert entries[1..][i] == entries[i + 1];
    }
  }

  /** When every jar entry is copied whole, the name reported is that of the
      last jar entry, renamed or not. */
  lemma LastJarReported(entries: seq<ArchiveEntry>, folder: set<string>, timestamp: string, last: Option<string>, j: nat)
    requires j < |entries| && IsJarEntry(entries[j].name)
    requires forall i :: j < i < |entries| ==> !IsJarEntry(entries[i].name)
    requires forall i :: 0 <= i < |entries| && IsJarEntry(entries[i].name) ==> entries[i].copy.Copied?
    ensures var base := BaseName(entries[j].name);
      var x := ExtractFrom(entries, folder, timestamp, last).extracted;
      x == Some(base) || x == Some(Renamed(base, timestamp))
  {
    var folder', last' := CopiedPrefix(entries, folder, timestamp, last, j);
    var tail := entries[j..];
    forall i | 0 <= i < |tail[1..]|
      ensures !IsJarEntry(tail[1..][i].name)
    {
      assert tail[1..][i] == entries[j + 1 + i];
    }
    assert tail[0] == entries[j];
    OnlyJarFirst(tail, folder', timestamp, last');
    DestNameChoices(BaseName(entries[j].name), folder', timestamp);
  }

  /** Entries that are skipped or copied whole just carry the folder and the
      reported name on to the rest of the archive. */
  lemma {:induction false} CopiedPrefix(entries: seq<ArchiveEntry>, folder: set<string>, timestamp: string, last: Option<string>, j: nat)
    returns (folder': set<string>, last': Option<string>)
    requires j <= |entries|
    requires forall i :: 0 <= i < j && IsJarEntry(entries[i].name) ==> entries[i].copy.Copied?
    ensures ExtractFrom(entries, folder, timestamp, last) == ExtractFrom(entries[j..], folder', timestamp, last')
    decreases j
  {
    if j == 0 {
      folder', last' := folder, last;
      assert entries[0..] == entries;
    } else {
      var folder1, last1 := ExtractStep(entries, folder, timestamp, last);
      forall i | 0 <= i < j - 1 && IsJarEntry(entries[1..][i].name)
        ensures entries[1..][i].copy.Copied?
      {
        assert entries[1..][i] == entries[i + 1];
      }
      folder', last' := CopiedPrefix(entries[1..], folder1, timestamp, last1, j - 1);
      assert entries[1..][j - 1..] == entries[j..];
    }
  }

  /** One turn of the extraction loop over an entry that is skipped or
      whose copy succeeds. */
  lemma ExtractStep(entries: seq<ArchiveEntry>, folder: set<string>, timestamp: string, last: Option<string>)
    returns (folder': set<string>, last': Option<string>)
    requires entries != [] && (IsJarEntry(entries[0].name) ==> entries[0].copy.Copied?)
    ensures ExtractFrom(entries, folder, timestamp, last) == ExtractFrom(entries[1..], folder', timestamp, last')
    ensures IsJarEntry(entries[0].name) ==> last'.Some?
    ensures !IsJarEntry(entries[0].name) ==> folder' == folder && last' == last
  {
    if IsJarEntry(entries[0].name) {
      var out := DestName(BaseName(entries[0].name), folder, timestamp);
      folder', last' := folder + {out}, Some(out);
    } else {
      folder', last' := folder, last;
    }
  }

  /** A first entry that is the only jar is what gets reported. */
  lemma OnlyJarFirst(entries: seq<ArchiveEntry>, folder: set<string>, timestamp: string, last: Option<string>)
    requires entries != [] && IsJarEntry(entries[0].name) && entries[0].copy.Copied?
    requires forall i :: 0 <= i < |entries[1..]| ==> !IsJarEntry(entries[1..][i].name)
    ensures ExtractFrom(entries, folder, timestamp, last).extracted
         == Some(DestName(BaseName(entries[0].name), folder, timestamp))
  {
    var out := DestName(BaseName(entries[0].name), folder, timestamp);
    NoJarAfter(entries[1..], folder + {out}, timestamp, Some(out));
  }

  lemma DestNameChoices(fileName: string, folder: set<string>, timestamp: string)
    requires IsJarEntry(fileName)
    ensures DestName(fileName, folder, timestamp) == fileName || DestName(fileName, folder, timestamp) == Renamed(fileName, timestamp)
  {
  }

  /** Entries that are not jars change nothing. */
  lemma {:induction false} NoJarAfter(entries: seq<ArchiveEntry>, folder: set<string>, timestamp: string, last: Option<string>)
    requires forall i :: 0 <= i < |entries| ==> !IsJarEntry(entries[i].name)
    ensures ExtractFrom(entries, folder, timestamp, last) == Extraction(last, folder)
    decreases |entries|
  {
    if entries != [] {
      NoJarAfter(entries[1..], folder, timestamp, last);
    }
  }

  /** A jar whose copy fails part-way is still the name reported: the
      partially written file is what the caller goes on to record. */
  lemma PartialCopyReported(name: string, folder: set<string>, timestamp: string, rest: seq<ArchiveEntry>)
    requires IsJarEntry(name)
    ensures var r := Extract(Entries([ArchiveEntry(name, CopyFails)] + rest), folder, timestamp);
      var out := DestName(BaseName(name), folder, timestamp);
      r.extracted == Some(out) && r.folder == folder + {out}
  {
    var entries := [ArchiveEntry(name, CopyFails)] + rest;
    assert entries[0] == ArchiveEntry(name, CopyFails);
  }

  /** A jar that cannot be opened is reported all the same, although no file
      was written: a free name is reported and is not in the folder. */
  lemma FailedOpenReported(name: string, folder: set<string>, timestamp: string, rest: seq<ArchiveEntry>)
    requires IsJarEntry(name)
    ensures var r := Extract(Entries([ArchiveEntry(name, OpenFails)] + rest), folder, timestamp);
      && r.extracted == Some(DestName(BaseName(name), folder, timestamp))
      && r.folder == folder
      && (BaseName(name) !in folder ==> r.extracted.value !in r.folder)
  {
    var entries := [ArchiveEntry(name, OpenFails)] + rest;
    assert entries[0] == ArchiveEntry(name, OpenFails);
  }
}
