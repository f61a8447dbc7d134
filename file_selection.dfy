/**
 * Which files under `src/main/res` the validation task watches
 * (`WffValidatorPlugin.getWffFileCollection`): regular files whose name ends
 * in ".xml" and whose parent directory's name starts with "raw".
 * The directory walk is given as a list of entries, each with its path as a
 * sequence of name segments and a flag saying whether it is a regular file.
 */
module FileSelection {
  import opened Seqs

  datatype FileEntry = FileEntry(path: seq<string>, isFile: bool)

  const XmlExtension := ".xml"
  const RawDirPrefix := "raw"

  /** Kotlin's case-sensitive `String.startsWith`. */
  predicate StartsWith(s: string, prefix: string)
  {
    |prefix| <= |s| && s[..|prefix|] == prefix
  }

  /** Kotlin's case-sensitive `String.endsWith`. */
  predicate EndsWith(s: string, suffix: string)
  {
    |suffix| <= |s| && s[|s| - |suffix|..] == suffix
  }

  /** `File.name`: the last segment of the path. */
  function Name(path: seq<string>): string
  {
    if |path| == 0 then "" else path[|path| - 1]
  }

  /** `File.parentFile.name`: the segment before the last. A path of fewer than two segments
      has no parent (Kotlin's `parentFile` would be null); the walk of `src/main/res` never yields
      one, and the empty name given here only keeps the function total. */
  function ParentName(path: seq<string>): string
  {
    if |path| < 2 then "" else path[|path| - 2]
  }

  /** The three filters, applied in this order. */
  predicate IsRegularFile(e: FileEntry) { e.isFile }

  predicate HasXmlName(e: FileEntry) { EndsWith(Name(e.path), XmlExtension) }

  predicate InRawDirectory(e: FileEntry) { StartsWith(ParentName(e.path), RawDirPrefix) }

  /** The condition a file must meet to be watched, as one predicate. */
  predicate IsWffFile(e: FileEntry)
  {
    IsRegularFile(e) && HasXmlName(e) && InRawDirectory(e)
  }

  /** The watched files: the walk filtered three times, as the source chains its filters. */
  function WffFiles(tree: seq<FileEntry>): seq<FileEntry>
  {
    Filter(Filter(Filter(tree, IsRegularFile), HasXmlName), InRawDirectory)
  }

  /** The chain of three filters is one filter by the conjunction. */
  lemma WffFilesIsOneFilter(tree: seq<FileEntry>)
    ensures WffFiles(tree) == Filter(tree, IsWffFile)
  {
    var fileAndXml := e => IsRegularFile(e) && HasXmlName(e);
    FilterThenFilter(tree, IsRegularFile, HasXmlName, fileAndXml);
    FilterThenFilter(tree, fileAndXml, InRawDirectory, IsWffFile);
  }

  /** An entry is selected exactly when it is in the walk, is a regular file, its name ends
      in ".xml" and its parent directory's name starts with "raw". */
  lemma WffFilesMembership(tree: seq<FileEntry>, e: FileEntry)
    ensures e in WffFiles(tree) <==>
      e in tree && e.isFile && EndsWith(Name(e.path), ".xml") && StartsWith(ParentName(e.path), "raw")
  {
    WffFilesIsOneFilter(tree);
    FilterMembership(tree, IsWffFile, e);
  }

  /** The selection keeps the walk's order: it is the walk picked at increasing positions. */
  lemma WffFilesPreservesOrder(tree: seq<FileEntry>)
    ensures PicksInOrder(KeptIndices(tree, IsWffFile), WffFiles(tree), tree)
  {
    WffFilesIsOneFilter(tree);
    FilterIsSubsequence(tree, IsWffFile);
  }

  /** Selecting from the selection changes nothing. */
  lemma WffFilesIdempotent(tree: seq<FileEntry>)
    ensures WffFiles(WffFiles(tree)) == WffFiles(tree)
  {
    WffFilesIsOneFilter(tree);
    WffFilesIsOneFilter(WffFiles(tree));
    FilterIdempotent(tree, IsWffFile);
  }

  /** The parent's name is compared by prefix and case-sensitively: `raw-night` qualifies,
      `values` and `Raw` do not, and only the immediate parent counts. */
  lemma RawPrefixExamples()
    ensures IsWffFile(FileEntry(["src", "main", "res", "raw-night", "face.xml"], true))
    ensures !IsWffFile(FileEntry(["src", "main", "res", "values", "face.xml"], true))
    ensures !IsWffFile(FileEntry(["src", "main", "res", "Raw", "face.xml"], true))
    ensures !IsWffFile(FileEntry(["src", "main", "res", "raw", "sub", "face.xml"], true))
    ensures !IsWffFile(FileEntry(["src", "main", "res", "raw", "face.XML"], true))
    ensures !IsWffFile(FileEntry(["src", "main", "res", "raw", "face.xml"], false))
  {
    assert "raw-night"[..3] == "raw";
    assert "face.xml"[4..] == ".xml";
    assert "values"[..3] != "raw" by { assert "values"[0] != 'r'; }
    assert "Raw"[..3] != "raw" by { assert "Raw"[0] != 'r'; }
    assert "sub"[..3] != "raw" by { assert "sub"[0] != 'r'; }
    assert "face.XML"[4..] != ".xml" by { assert "face.XML"[5] != 'x'; }
  }
}
