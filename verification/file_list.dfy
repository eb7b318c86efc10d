/** The flat list view: each entry path is shown as a dimmed folder part and the
    file name, with preview actions offered by the two classifiers. */
module FileList {
  import opened Paths
  import opened Extensions

  datatype PathParts = PathParts(folderPath: string, fileName: string)

  /** `splitPath`: the last `/`-part is the file name; the other parts, joined and
      followed by a separator, are the folder part (empty when there are none). */
  function SplitPath(path: string): (r: PathParts)
    ensures r.folderPath + r.fileName == path
    ensures Sep !in r.fileName
    ensures r.folderPath == "" <==> Sep !in path
    ensures r.folderPath != "" ==> r.folderPath[|r.folderPath| - 1] == Sep
  {
    var parts := Split(path);
    JoinSplit(path);
    var fileName := parts[|parts| - 1];
    var rest := parts[..|parts| - 1];
    if |rest| > 0 then
      JoinLast(parts);
      var folderPath := Join(rest) + [Sep];
      assert path[|folderPath| - 1] == Sep;
      PathParts(folderPath, fileName)
    else
      assert parts == [fileName];
      PathParts("", fileName)
  }

  /** The split is the only one of its shape: any separator-free file name behind
      an empty or separator-terminated folder part is the one SplitPath returns. */
  lemma SplitPathUnique(path: string, folder: string, file: string)
    requires folder + file == path
    requires Sep !in file
    requires folder == "" || folder[|folder| - 1] == Sep
    ensures SplitPath(path) == PathParts(folder, file)
  {
    var r := SplitPath(path);
    var n := |path|;
    ShapeFixesLastSep(folder, file);
    ShapeFixesLastSep(r.folderPath, r.fileName);
    assert r.fileName == path[n - |file|..] == file;
    assert r.folderPath == path[..n - |file|] == folder;
  }

  /** In a path of this shape the last separator ends the folder part. */
  lemma ShapeFixesLastSep(folder: string, file: string)
    requires Sep !in file
    requires folder == "" || folder[|folder| - 1] == Sep
    ensures LastSep(folder + file) == |folder| - 1
  {
    var s := folder + file;
    if folder != "" {
      assert s[|folder|..] == file;
      LastSepIs(s, |folder| - 1);
    } else {
      assert s == file;
    }
  }

  /** Classifying the whole path and classifying its file name agree, which is why
      the list (whole path) and the tree (node name) offer the same previews. */
  lemma ClassifyByFileName(path: string)
    ensures IsImage(path) == IsImage(SplitPath(path).fileName)
    ensures IsJson(path) == IsJson(SplitPath(path).fileName)
  {
    var r := SplitPath(path);
    ClassifiersSeeTail(r.folderPath, r.fileName);
  }
}
