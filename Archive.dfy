/** What is uploaded for one picture: a zip holding the picture file
    under its own name and the picture's JSON description as a UTF-16
    text entry, renamed when the picture itself is called "metadata.txt"
    (core/src/Avalanche/Glacier/IArchiveProvider.cs, and the GetFileStream
    of both gateway revisions). The compressor itself is a parameter. */
module Archive {
  import opened Models
  import opened Text

  /** Why a file cannot be read. */
  datatype IoError = FileNotFound(path: string)

  /** One entry of the archive. */
  datatype ArchiveEntry = ArchiveEntry(name: string, content: seq<byte>)

  /** A compressor: turns entries, in order, into archive bytes. */
  type Compressor = seq<ArchiveEntry> -> seq<byte>

  /** The files on disk, by full path. */
  type FileSystem = map<string, seq<byte>>

  const MetadataFilename: string := "metadata.txt"
  const RenameSuffix: string := ".actuallythemetadata.txt"

  /** The separators `Path.GetFileName` and `Path.Combine` know on Windows:
      both slashes and the volume separator. */
  predicate IsSeparator(c: char) {
    c == '\\' || c == '/' || c == ':'
  }

  predicate HasNoSeparator(s: string) {
    forall i :: 0 <= i < |s| ==> !IsSeparator(s[i])
  }

  /** `Path.GetFileName`: the part after the last separator. */
  function FileNameOnly(path: string): (name: string)
    ensures HasNoSeparator(name)
    ensures |name| <= |path| && name == path[|path| - |name|..]
    ensures |name| < |path| ==> IsSeparator(path[|path| - |name| - 1])
  {
    if path == [] then []
    else if IsSeparator(path[|path| - 1]) then []
    else
      var init := FileNameOnly(path[..|path| - 1]);
      SuffixOfInit(path, |init|);
      init + [path[|path| - 1]]
  }

  /** A suffix of `path` without its last character, extended by that
      character, is a suffix of `path`. */
  lemma SuffixOfInit(path: string, k: nat)
    requires k < |path|
    ensures path[..|path| - 1][|path| - 1 - k..] + [path[|path| - 1]] == path[|path| - 1 - k..]
  {
  }

  /** `Path.IsPathRooted` on Windows. */
  predicate IsRooted(path: string) {
    (|path| >= 1 && (path[0] == '\\' || path[0] == '/')) || (|path| >= 2 && path[1] == ':')
  }

  /** `Path.Combine(directory, name)`. */
  function Combine(directory: string, name: string): (path: string)
  {
    if name == [] then directory
    else if directory == [] || IsRooted(name) then name
    else if IsSeparator(directory[|directory| - 1]) then directory + name
    else directory + "\\" + name
  }

  /** The name after a directory part that is empty or ends in a
      separator is all of the name. */
  lemma FileNameAfterSeparator(prefix: string, name: string)
    requires prefix == [] || IsSeparator(prefix[|prefix| - 1])
    requires HasNoSeparator(name)
    ensures FileNameOnly(prefix + name) == name
  {
    var path := prefix + name;
    var r := FileNameOnly(path);
    // a shorter `r` would follow a separator inside `name`, a longer one
    // would reach back to the separator that ends `prefix`
    assert prefix != [] ==> path[|prefix| - 1] == prefix[|prefix| - 1];
    assert path[|path| - |name|..] == name;
  }

  /** The name of the picture is recovered from the combined path, so the
      archive entry carries the file's own name. */
  lemma FileNameOfCombine(directory: string, name: string)
    requires name != [] && HasNoSeparator(name)
    ensures FileNameOnly(Combine(directory, name)) == name
  {
    if directory == [] || IsRooted(name) {
      FileNameAfterSeparator([], name);
      assert [] + name == name;
    } else if IsSeparator(directory[|directory| - 1]) {
      FileNameAfterSeparator(directory, name);
    } else {
      FileNameAfterSeparator(directory + "\\", name);
    }
  }

  /** The name of the metadata entry: `metadataName`, or that name with a
      suffix when the picture is called the same. */
  function MetadataEntryName(metadataName: string, nameOnly: string): (name: string)
    ensures name != nameOnly
    ensures nameOnly != metadataName ==> name == metadataName
  {
    if metadataName == nameOnly then
      assert |metadataName + RenameSuffix| > |nameOnly|;
      metadataName + RenameSuffix
    else metadataName
  }

  /** The entries of the upload archive: the picture under its own name,
      then the description as UTF-16LE text. */
  function ArchiveEntries(filename: string, fileBytes: seq<byte>, metadata: string, metadataName: string): (e: seq<ArchiveEntry>)
  {
    var nameOnly := FileNameOnly(filename);
    [ArchiveEntry(nameOnly, fileBytes), ArchiveEntry(MetadataEntryName(metadataName, nameOnly), Utf16Le(metadata))]
  }

  /** Both the picture and its description are in the archive, under two
      different names, and each comes back out unchanged: the picture's
      bytes as read, the description decoded from its entry. */
  lemma ArchiveEntriesKeepBoth(filename: string, fileBytes: seq<byte>, metadata: string, metadataName: string)
    ensures var e := ArchiveEntries(filename, fileBytes, metadata, metadataName);
      && |e| == 2 && e[0].name != e[1].name
      && e[0].name == FileNameOnly(filename) && e[0].content == fileBytes
      && DecodeUtf16Le(e[1].content) == Some(metadata)
      && (FileNameOnly(filename) != metadataName ==> e[1].name == metadataName)
      && (FileNameOnly(filename) == metadataName ==> e[1].name == metadataName + RenameSuffix)
  {
    Utf16LeRoundTrip(metadata);
  }

  /** An in-memory stream: its bytes and the read position. */
  class MemoryStream {
    var data: seq<byte>
    var position: nat

    ghost predicate Valid()
      reads this
    {
      position <= |data|
    }

    constructor (data: seq<byte>)
      ensures this.data == data && position == 0 && Valid()
    {
      this.data := data;
      position := 0;
    }

    /** Reads what is left, as hashing or uploading does. */
    method ReadToEnd() returns (bytes: seq<byte>)
      requires Valid()
      modifies this
      ensures Valid() && data == old(data) && position == |data|
      ensures bytes == old(data[position..])
    {
      bytes := data[position..];
      position := |data|;
    }

    /** `Position = p`. */
    method Seek(p: nat)
      requires p <= |data|
      modifies this
      ensures Valid() && data == old(data) && position == p
    {
      position := p;
    }
  }

  /** The archive bytes for one picture, or the error reading it. */
  function ArchiveBytes(files: FileSystem, compressor: Compressor, filename: string, metadata: string): (r: Result<seq<byte>, IoError>)
    ensures r.Failure? <==> filename !in files
  {
    if filename !in files then Failure(FileNotFound(filename))
    else Success(compressor(ArchiveEntries(filename, files[filename], metadata, MetadataFilename)))
  }

  /** The newest revision's `ArchiveProvider.GetFileStream`: a zip with the
      picture and its description, positioned at its start; a missing file
      fails the call. */
  method GetFileStream(files: FileSystem, compressor: Compressor, filename: string, metadata: string)
    returns (r: Result<MemoryStream, IoError>)
    ensures filename !in files ==> r == Failure(FileNotFound(filename))
    ensures filename in files ==>
      && r.Success? && fresh(r.value) && r.value.Valid() && r.value.position == 0
      && r.value.data == compressor(ArchiveEntries(filename, files[filename], metadata, MetadataFilename))
  {
    if filename !in files {
      return Failure(FileNotFound(filename));
    }
    var fileBytes := files[filename];
    var filenameOnly := FileNameOnly(filename);
    var entries := [ArchiveEntry(filenameOnly, fileBytes)];
    var metadataFilename := MetadataFilename;
    if metadataFilename == filenameOnly {
      metadataFilename := metadataFilename + RenameSuffix;
    }
    entries := entries + [ArchiveEntry(metadataFilename, Utf16Le(metadata))];
    assert metadataFilename == MetadataEntryName(MetadataFilename, filenameOnly);
    assert entries == ArchiveEntries(filename, fileBytes, metadata, MetadataFilename);
    var output := new MemoryStream(compressor(entries));
    return Success(output);
  }

  // The two gateway revisions build the archive from a Dictionary of
  // entry name to stream, enumerated in insertion order.

  /** `dictionary[key] = value`: replaces the value of an existing key in
      place, otherwise appends. */
  function DictSet(dict: seq<ArchiveEntry>, key: string, value: seq<byte>): (d: seq<ArchiveEntry>)
    ensures |d| == |dict| || |d| == |dict| + 1
  {
    if dict == [] then [ArchiveEntry(key, value)]
    else if dict[0].name == key then [ArchiveEntry(key, value)] + dict[1..]
    else [dict[0]] + DictSet(dict[1..], key, value)
  }

  /** Setting two different keys in an empty dictionary keeps both, in
      order; setting one key twice keeps only the second value. */
  lemma DictSetTwo(k1: string, v1: seq<byte>, k2: string, v2: seq<byte>)
    ensures k1 != k2 ==> DictSet(DictSet([], k1, v1), k2, v2) == [ArchiveEntry(k1, v1), ArchiveEntry(k2, v2)]
    ensures k1 == k2 ==> DictSet(DictSet([], k1, v1), k2, v2) == [ArchiveEntry(k2, v2)]
  {
    assert DictSet([], k1, v1) == [ArchiveEntry(k1, v1)];
    assert [ArchiveEntry(k1, v1)][1..] == [];
  }

  /** The bytes of the stream the two gateway revisions upload: the raw
      file, or the compressed dictionary of the picture and its
      description under the default metadata name. */
  function DictionaryArchiveBytes(files: FileSystem, compressor: Compressor, filename: string, compress: bool,
                                  metadata: string): (r: Result<seq<byte>, IoError>)
    ensures r.Failure? <==> filename !in files
    ensures filename in files && !compress ==> r.value == files[filename]
    ensures filename in files && compress ==> r == ArchiveBytes(files, compressor, filename, metadata)
  {
    if filename !in files then Failure(FileNotFound(filename))
    else if !compress then Success(files[filename])
    else Success(compressor(ArchiveEntries(filename, files[filename], metadata, MetadataFilename)))
  }

  /** Both gateway revisions' `GetFileStream(filename, compress, metadata)`:
      the raw file when not compressing, otherwise the compressed
      dictionary of the picture and its description. */
  method GetFileStreamFromDictionary(files: FileSystem, compressor: Compressor, filename: string, compress: bool,
                                     metadata: string, metadataName: string)
    returns (r: Result<MemoryStream, IoError>)
    ensures filename !in files ==> r == Failure(FileNotFound(filename))
    ensures filename in files ==> r.Success? && fresh(r.value) && r.value.Valid() && r.value.position == 0
    ensures filename in files && !compress ==> r.value.data == files[filename]
    ensures filename in files && compress ==>
              r.value.data == compressor(ArchiveEntries(filename, files[filename], metadata, metadataName))
  {
    if filename !in files {
      return Failure(FileNotFound(filename));
    }
    var file := files[filename];
    if !compress {
      var raw := new MemoryStream(file);
      return Success(raw);
    }
    var compressions: seq<ArchiveEntry> := [];
    var filenameOnly := FileNameOnly(filename);
    compressions := DictSet(compressions, filenameOnly, file);
    var metadataFilename := metadataName;
    if metadataFilename == filenameOnly {
      metadataFilename := metadataFilename + RenameSuffix;
    }
    compressions := DictSet(compressions, metadataFilename, Utf16Le(metadata));
    DictSetTwo(filenameOnly, file, metadataFilename, Utf16Le(metadata));
    assert metadataFilename == MetadataEntryName(metadataName, filenameOnly);
    assert compressions == ArchiveEntries(filename, file, metadata, metadataName);
    var entries := CreateEntries(compressions);
    var compressed := new MemoryStream(compressor(entries));
    return Success(compressed);
  }

  /** `foreach (var item in compressions)`: one archive entry per
      dictionary item, in enumeration order. */
  method CreateEntries(compressions: seq<ArchiveEntry>) returns (entries: seq<ArchiveEntry>)
    ensures entries == compressions
  {
    entries := [];
    var i := 0;
    while i < |compressions|
      invariant 0 <= i <= |compressions| && entries == compressions[..i]
    {
      entries := entries + [ArchiveEntry(compressions[i].name, compressions[i].content)];
      i := i + 1;
    }
  }
}
