/** The body of the program: one pass over the directory items that builds the
    entry list and the widest name length, then one printed line per entry.
    The directory read and standard output are replaced by a sequence of
    items in read order and a sequence of output lines. */
module Listing {
  import opened Names
  import opened Terminal
  import opened Files

  /** Starting value of the widest-name counter. */
  const InitialMaxNameLen: nat := 10

  /** The loop of `main`: classify each item, raise `maxNameLen` to any name
      at least as long (in UTF-8 bytes), and append the entry. */
  method ListEntries(items: seq<DirItem>) returns (files: seq<FileEntry>, maxNameLen: nat)
    ensures |files| == |items|
    ensures forall i :: 0 <= i < |items| ==> files[i] == ToFileEntry(items[i])
    ensures InitialMaxNameLen <= maxNameLen
    ensures forall i :: 0 <= i < |items| ==> Utf8Len(items[i].fileName) <= maxNameLen
    ensures maxNameLen == InitialMaxNameLen
         || exists i :: 0 <= i < |items| && maxNameLen == Utf8Len(items[i].fileName)
  {
    files := [];
    maxNameLen := InitialMaxNameLen;
    for i := 0 to |items|
      invariant |files| == i
      invariant forall k :: 0 <= k < i ==> files[k] == ToFileEntry(items[k])
      invariant InitialMaxNameLen <= maxNameLen
      invariant forall k :: 0 <= k < i ==> Utf8Len(items[k].fileName) <= maxNameLen
      invariant maxNameLen == InitialMaxNameLen
             || exists k :: 0 <= k < i && maxNameLen == Utf8Len(items[k].fileName)
    {
      var item := items[i];
      var tempType := File;
      if item.metadata.isDir {
        tempType := Directory;
      } else if item.metadata.isSymlink {
        tempType := Link;
      } else if item.metadata.isFile {
        tempType := File;
      }
      var nameLen := Utf8Len(item.fileName);
      if nameLen >= maxNameLen {
        maxNameLen := nameLen;
      }
      files := files + [FileEntry(item.fileName, tempType, item.metadata.len)];
    }
  }

  /** `pretty_print`: one line per entry, in list order, each the entry's
      rendered name. `maxNameLen` is accepted but not used. */
  method PrettyPrint(files: seq<FileEntry>, maxNameLen: nat) returns (lines: seq<string>)
    ensures |lines| == |files|
    ensures forall i :: 0 <= i < |files| ==> lines[i] == ShowName(files[i])
    ensures forall i :: 0 <= i < |files| && Plain(files[i].name) ==>
      Visible(lines[i]) == files[i].name + Trailer(files[i])
  {
    lines := [];
    for i := 0 to |files|
      invariant |lines| == i
      invariant forall k :: 0 <= k < i ==> lines[k] == ShowName(files[k])
    {
      var line := ShowName(files[i]);
      lines := lines + [line];
    }
    ShowNamesVisible(files, lines);
  }

  /** Each rendered line shows its entry's plain name and trailer on screen. */
  lemma ShowNamesVisible(files: seq<FileEntry>, lines: seq<string>)
    requires |lines| == |files|
    requires forall i :: 0 <= i < |files| ==> lines[i] == ShowName(files[i])
    ensures forall i :: 0 <= i < |files| && Plain(files[i].name) ==>
      Visible(lines[i]) == files[i].name + Trailer(files[i])
  {
    forall i | 0 <= i < |files| && Plain(files[i].name)
      ensures Visible(lines[i]) == files[i].name + Trailer(files[i])
    {
      ShowNameVisible(files[i]);
    }
  }

  /** The whole run: the items' rendered names, one line each, in read order. */
  method Run(items: seq<DirItem>) returns (lines: seq<string>)
    ensures |lines| == |items|
    ensures forall i :: 0 <= i < |items| ==> lines[i] == ShowName(ToFileEntry(items[i]))
  {
    var files, maxNameLen := ListEntries(items);
    lines := PrettyPrint(files, maxNameLen);
  }
}
