/** One directory entry as the lister keeps it, how its kind is decided from
    metadata, and its two textual views: the coloured name and the kind label. */
module Files {
  import opened Names
  import opened Terminal

  /** An unsigned 64-bit quantity, as `Metadata::len` returns it. */
  type U64 = x: int | 0 <= x < 0x1_0000_0000_0000_0000

  datatype FileType = File | Directory | Link

  /** The three flags and the length that the lister reads from an item's
      metadata. */
  datatype Metadata = Metadata(isDir: bool, isSymlink: bool, isFile: bool, len: U64)

  /** One item of the directory read: its file name and its metadata. */
  datatype DirItem = DirItem(fileName: string, metadata: Metadata)

  /** The source's `struct File`: name, kind and size in bytes. */
  datatype FileEntry = FileEntry(name: string, fileType: FileType, size: U64)

  /** The kind chosen for an item: the directory flag is consulted first, then
      the symlink flag, then the file flag; with no flag set it stays File. */
  function Classify(m: Metadata): (t: FileType)
    ensures t == Directory <==> m.isDir
    ensures t == Link <==> !m.isDir && m.isSymlink
    ensures t == File <==> !m.isDir && !m.isSymlink
  {
    if m.isDir then Directory
    else if m.isSymlink then Link
    else if m.isFile then File
    else File
  }

  /** The file flag never changes the outcome: File is already the default. */
  lemma ClassifyIgnoresFileFlag(m: Metadata, b: bool)
    ensures Classify(m.(isFile := b)) == Classify(m)
  {
  }

  /** The entry the lister builds for one item. */
  function ToFileEntry(item: DirItem): (f: FileEntry)
    ensures f.name == item.fileName && f.size == item.metadata.len
    ensures f.fileType == Classify(item.metadata)
  {
    FileEntry(item.fileName, Classify(item.metadata), item.metadata.len)
  }

  /** `n` space characters. */
  function Spaces(n: nat): (s: string)
    ensures |s| == n && forall k :: 0 <= k < n ==> s[k] == ' '
  {
    if n == 0 then [] else Spaces(n - 1) + " "
  }

  const DirectoryPad: nat := 20

  /** The text that follows a directory's name: `" ".repeat(20)` spelled out. */
  const DirectoryPadding: string := "                    "

  lemma DirectoryPaddingIsSpaces()
    ensures DirectoryPadding == Spaces(DirectoryPad)
  {
    assert |DirectoryPadding| == |Spaces(DirectoryPad)|;
  }

  /** Whether a regular file is highlighted: the text after its last dot,
      or the whole name if it has none, is exactly "exe". */
  function IsExecutableName(name: string): (b: bool)
    ensures b <==> name == "exe" || (4 <= |name| && name[|name| - 4..] == ".exe")
  {
    ExeSegmentIffSuffix(name);
    LastSegment(name) == "exe"
  }

  /** The last dot-separated segment is "exe" exactly when the name is "exe"
      or ends in ".exe". */
  lemma ExeSegmentIffSuffix(name: string)
    ensures LastSegment(name) == "exe" <==> name == "exe" || (4 <= |name| && name[|name| - 4..] == ".exe")
  {
    var n := |name|;
    if LastSegment(name) == "exe" {
      if n != 3 {
        assert name[n - 4] == '.' && name[n - 3..] == "exe";
        assert name[n - 4..] == [name[n - 4]] + name[n - 3..];
      } else {
        assert name == name[n - 3..];
      }
    }
    if name == "exe" {
      LastSegmentUnique(name, "exe");
    } else if 4 <= n && name[n - 4..] == ".exe" {
      assert name[n - 3..] == name[n - 4..][1..] == "exe";
      LastSegmentUnique(name, "exe");
    }
  }

  /** The plain text that follows an entry's name on screen. */
  function Trailer(f: FileEntry): (t: string)
    ensures t == [] || t == Spaces(DirectoryPad)
    ensures t != [] <==> f.fileType == Directory
  {
    DirectoryPaddingIsSpaces();
    if f.fileType == Directory then DirectoryPadding else []
  }

  /** The name as printed: directories in blue with 20 trailing spaces inside
      the colour, executables highlighted, everything else verbatim. */
  function ShowName(f: FileEntry): (s: string)
    ensures s == f.name <==> !(f.fileType == Directory || (f.fileType == File && IsExecutableName(f.name)))
    ensures |f.name| <= |s|
  {
    match f.fileType
    case Directory => Blue + f.name + DirectoryPadding + Reset
    case File => if IsExecutableName(f.name) then Highlight + f.name + Reset else f.name
    case Link => f.name
  }

  /** On screen the colour codes vanish: a name free of escape characters is
      seen as itself, followed by the padding for directories. */
  lemma ShowNameVisible(f: FileEntry)
    requires Plain(f.name)
    ensures Visible(ShowName(f)) == f.name + Trailer(f)
  {
    match f.fileType
    case Directory =>
      DirectoryPaddingIsSpaces();
      assert Plain(DirectoryPadding);
      VisibleWrapped(Blue, f.name + DirectoryPadding);
      assert Blue + f.name + DirectoryPadding + Reset == Blue + (f.name + DirectoryPadding) + Reset;
    case File =>
      assert f.name + Trailer(f) == f.name;
      if IsExecutableName(f.name) {
        VisibleWrapped(Highlight, f.name);
      } else {
        VisiblePlain(f.name);
      }
    case Link =>
      assert f.name + Trailer(f) == f.name;
      VisiblePlain(f.name);
  }

  /** The exact text of a directory's rendering. */
  lemma ShowDirectory(name: string, size: U64)
    ensures ShowName(FileEntry(name, Directory, size)) == Blue + name + Spaces(20) + Reset
  {
    DirectoryPaddingIsSpaces();
  }

  /** A regular file is wrapped in the highlight code exactly when its last
      dot-separated segment is "exe", and is otherwise printed verbatim. */
  lemma ShowFileName(name: string, size: U64)
    ensures IsExecutableName(name) ==> ShowName(FileEntry(name, File, size)) == Highlight + name + Reset
    ensures !IsExecutableName(name) ==> ShowName(FileEntry(name, File, size)) == name
  {
  }

  /** Links are printed verbatim, whatever their name. */
  lemma ShowLinkName(name: string, size: U64)
    ensures ShowName(FileEntry(name, Link, size)) == name
  {
  }

  /** "program.exe" is highlighted; "program.exe.bak" and "Makefile" are not. */
  lemma ExeSuffixHighlighted()
    ensures IsExecutableName("program.exe")
  {
    var s := "program.exe";
    assert s[|s| - 3..] == "exe";
    LastSegmentUnique(s, "exe");
  }

  lemma BakSuffixNotHighlighted()
    ensures !IsExecutableName("program.exe.bak")
  {
    var s := "program.exe.bak";
    assert s[|s| - 3..] == "bak";
    LastSegmentUnique(s, "bak");
  }

  lemma DotlessNotHighlighted()
    ensures !IsExecutableName("Makefile")
    ensures IsExecutableName("exe")
  {
    NoDotIsOwnSegment("Makefile");
    NoDotIsOwnSegment("exe");
  }

  /** The kind label. */
  function ShowFiletype(t: FileType): (s: string)
    ensures t == File ==> s == "File"
    ensures t == Directory ==> s == "Directory"
    ensures t == Link ==> s == "Link"
  {
    match t
    case File => "File"
    case Directory => "Directory"
    case Link => "Link"
  }

  /** Distinct kinds get distinct labels, so the label identifies the kind. */
  lemma ShowFiletypeInjective(a: FileType, b: FileType)
    requires ShowFiletype(a) == ShowFiletype(b)
    ensures a == b
  {
  }
}
