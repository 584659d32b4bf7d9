/** The storage sunburst: files, colours, and what grouping by top folder means. */
module SunburstSpec {
  import opened Wrappers

  datatype File = File(path: string, size: nat, downloaded: nat)

  /** A folder of the inner ring, with its running totals. */
  datatype Folder = Folder(name: string, size: nat, downloaded: nat, files: seq<File>)

  datatype Color = Done | Partial | Missing

  /** One arc drawn, from `start` to `end`. */
  datatype Arc = Arc(start: real, end: real, color: Color)

  const ROOT_GROUP := "(racine)"

  // ------------------------------------------------------------------ colours and names

  function ColorOf(downloaded: nat, size: nat): Color {
    if size == 0 || downloaded >= size then Done else if downloaded > 0 then Partial else Missing
  }

  predicate IsSeparator(c: char) { c == '/' || c == '\\' }

  /** The index of the first separator, or the length if there is none. */
  function FirstSeparator(path: string): (i: nat)
    ensures i <= |path| && (i < |path| ==> IsSeparator(path[i]))
    ensures forall j :: 0 <= j < i ==> !IsSeparator(path[j])
  {
    if |path| == 0 || IsSeparator(path[0]) then 0 else 1 + FirstSeparator(path[1..])
  }

  predicate Nested(path: string) { FirstSeparator(path) < |path| }

  /** The top folder's name, or the synthetic group of the files without one. */
  function GroupName(path: string): string {
    if Nested(path) then path[..FirstSeparator(path)] else ROOT_GROUP
  }

  /** A path is nested exactly if it has a slash or a backslash; its top folder is what comes before the
      first of them. */
  lemma NestedIff(path: string)
    ensures Nested(path) <==> '/' in path || '\\' in path
    ensures Nested(path) ==>
              var folder := TopFolder(path);
              && '/' !in folder && '\\' !in folder && |folder| < |path|
              && path[..|folder|] == folder && (path[|folder|] == '/' || path[|folder|] == '\\')
  {
    if Nested(path) {
      assert path[FirstSeparator(path)] in path;
    }
  }

  function TopFolder(path: string): string { path[..FirstSeparator(path)] }

  /** Two files are drawn in one group exactly if both are loose, both have the same top folder, or one is
      loose and the other's top folder has the very name of the synthetic group. */
  lemma SameGroupIff(p: string, q: string)
    ensures GroupName(p) == GroupName(q) <==>
            || (!Nested(p) && !Nested(q))
            || (Nested(p) && Nested(q) && TopFolder(p) == TopFolder(q))
            || (!Nested(p) && Nested(q) && TopFolder(q) == ROOT_GROUP)
            || (Nested(p) && !Nested(q) && TopFolder(p) == ROOT_GROUP)
  {
  }

  /** The loose file "a" and the file "(racine)/b" share a group. */
  lemma RacineFolderSharesItsGroup(loose: string, path: string)
    requires loose == "a" && path == "(racine)" + "/b"
    ensures !Nested(loose) && Nested(path) && GroupName(loose) == GroupName(path)
  {
    NoSeparator(loose);
    SeparatorAfter(ROOT_GROUP, path, |ROOT_GROUP|);
  }

  lemma NoSeparator(path: string)
    requires forall i :: 0 <= i < |path| ==> !IsSeparator(path[i])
    ensures !Nested(path)
  {
  }

  lemma SeparatorAfter(folder: string, path: string, n: nat)
    requires n == |folder| < |path| && path[..n] == folder && IsSeparator(path[n])
    requires forall i :: 0 <= i < n ==> !IsSeparator(folder[i])
    ensures Nested(path) && TopFolder(path) == folder
  {
    assert forall i :: 0 <= i < n ==> path[i] == folder[i];
  }

  // ------------------------------------------------------------------ grouping

  function TotalSize(files: seq<File>): nat {
    if files == [] then 0 else TotalSize(files[..|files| - 1]) + files[|files| - 1].size
  }

  function TotalDownloaded(files: seq<File>): nat {
    if files == [] then 0 else
      var f := files[|files| - 1];
      TotalDownloaded(files[..|files| - 1]) + Min(f.downloaded, f.size)
  }

  /** The files of one group, in their original order. */
  function FilesOf(files: seq<File>, name: string): seq<File> {
    if files == [] then [] else
      var f := files[|files| - 1];
      FilesOf(files[..|files| - 1], name) + if GroupName(f.path) == name then [f] else []
  }

  /** A folder is what a pass over all files would make of its name. */
  ghost predicate FolderOf(folder: Folder, files: seq<File>) {
    && folder.files == FilesOf(files, folder.name) && folder.files != []
    && folder.size == TotalSize(folder.files) && folder.downloaded == TotalDownloaded(folder.files)
  }

  function Names(folders: seq<Folder>): seq<string> {
    seq(|folders|, i requires 0 <= i < |folders| => folders[i].name)
  }

  function GroupNames(files: seq<File>): seq<string> {
    seq(|files|, k requires 0 <= k < |files| => GroupName(files[k].path))
  }

  /** Grouping: every name once, in order of first appearance, each folder holding just its files with the
      right sums. */
  ghost predicate Grouped(folders: seq<Folder>, files: seq<File>) {
    Names(folders) == Distinct(GroupNames(files)) && FoldersOf(folders, files)
  }

  ghost predicate FoldersOf(folders: seq<Folder>, files: seq<File>) {
    forall i :: 0 <= i < |folders| ==> FolderOf(folders[i], files)
  }

  lemma NamesOnce(folders: seq<Folder>, files: seq<File>)
    requires Names(folders) == Distinct(GroupNames(files))
    ensures NoDuplicates(Names(folders))
    ensures forall f :: f in files ==> GroupName(f.path) in Names(folders)
  {
    DistinctHasNoDuplicates(GroupNames(files));
    forall f | f in files ensures GroupName(f.path) in Names(folders) {
      var k :| 0 <= k < |files| && files[k] == f;
      assert GroupNames(files)[k] == GroupName(f.path);
      DistinctKeepsValues(GroupNames(files), GroupName(f.path));
    }
  }

  lemma NamesOfOneMore(files: seq<File>, f: File)
    ensures var before, name := Distinct(GroupNames(files)), GroupName(f.path);
            Distinct(GroupNames(files + [f])) == if name in before then before else before + [name]
  {
    assert GroupNames(files + [f]) == GroupNames(files) + [GroupName(f.path)];
    DistinctOfOneMore(GroupNames(files), GroupName(f.path));
  }

  /** The folders come in the order in which the files bring them up: each name is that of some file before
      which no file has it, and those files come one after the other. */
  lemma FoldersInOrderOfAppearance(folders: seq<Folder>, files: seq<File>) returns (firsts: seq<nat>)
    requires Grouped(folders, files)
    ensures |firsts| == |folders|
    ensures forall i :: 0 <= i < |firsts| ==>
              FirstAt(GroupNames(files), firsts[i]) && GroupNames(files)[firsts[i]] == folders[i].name
    ensures forall i, j :: 0 <= i < j < |firsts| ==> firsts[i] < firsts[j]
  {
    firsts := InOrder(Names(folders), GroupNames(files));
    assert forall i :: 0 <= i < |folders| ==> Names(folders)[i] == folders[i].name;
  }

  lemma InOrder(distinct: seq<string>, names: seq<string>) returns (firsts: seq<nat>)
    requires distinct == Distinct(names)
    ensures |firsts| == |distinct|
    ensures forall i :: 0 <= i < |firsts| ==> FirstAt(names, firsts[i]) && names[firsts[i]] == distinct[i]
    ensures forall i, j :: 0 <= i < j < |firsts| ==> firsts[i] < firsts[j]
  {
    firsts := DistinctInOrder(names);
  }

  /** The files of the first n folders, folder by folder. */
  function FilesOfFirst(folders: seq<Folder>, n: nat): seq<File>
    requires n <= |folders|
  {
    if n == 0 then [] else FilesOfFirst(folders, n - 1) + folders[n - 1].files
  }

  function AllFiles(folders: seq<Folder>): seq<File> { FilesOfFirst(folders, |folders|) }

  lemma FilesOfOneMore(files: seq<File>, f: File, name: string)
    ensures FilesOf(files + [f], name) == FilesOf(files, name) + (if GroupName(f.path) == name then [f] else [])
  {
    assert (files + [f])[..|files|] == files;
  }

  lemma TotalsOfOneMore(files: seq<File>, f: File)
    ensures TotalSize(files + [f]) == TotalSize(files) + f.size
    ensures TotalDownloaded(files + [f]) == TotalDownloaded(files) + Min(f.downloaded, f.size)
  {
    assert (files + [f])[..|files|] == files;
  }

  /** Where the files of a group stand among all files: all the places that have its name, in order. */
  lemma {:induction false} GroupKeepsOrder(files: seq<File>, name: string) returns (places: seq<nat>)
    ensures |places| == |FilesOf(files, name)|
    ensures forall i :: 0 <= i < |places| ==> places[i] < |files| && FilesOf(files, name)[i] == files[places[i]]
    ensures forall i, j :: 0 <= i < j < |places| ==> places[i] < places[j]
  {
    if files == [] {
      places := [];
    } else {
      var n := |files| - 1;
      places := GroupKeepsOrder(files[..n], name);
      if GroupName(files[n].path) == name {
        places := places + [n];
      }
    }
  }

  // ------------------------------------------------------------------ grouping loses nothing

  lemma {:induction false} FilesOfMultiplicity(files: seq<File>, name: string, x: File)
    ensures multiset(FilesOf(files, name))[x] == if GroupName(x.path) == name then multiset(files)[x] else 0
  {
    if files == [] {
    } else {
      var init, f := files[..|files| - 1], files[|files| - 1];
      FilesOfMultiplicity(init, name, x);
      assert files == init + [f];
    }
  }

  /** What the first n groups hold of one file: all of it once its group is among them. */
  lemma {:induction false} GroupMultiplicity(folders: seq<Folder>, files: seq<File>, n: nat, x: File)
    requires NoDuplicates(Names(folders)) && n <= |folders|
    requires forall i :: 0 <= i < |folders| ==> folders[i].files == FilesOf(files, folders[i].name)
    ensures multiset(FilesOfFirst(folders, n))[x] ==
            if GroupName(x.path) in Names(folders)[..n] then multiset(files)[x] else 0
  {
    if n == 0 {
    } else {
      GroupMultiplicity(folders, files, n - 1, x);
      FilesOfMultiplicity(files, folders[n - 1].name, x);
      OneMoreName(Names(folders), n - 1, GroupName(x.path));
    }
  }

  lemma OneMoreName(names: seq<string>, n: nat, name: string)
    requires n < |names| && NoDuplicates(names)
    ensures name in names[..n + 1] <==> name in names[..n] || name == names[n]
    ensures name == names[n] ==> name !in names[..n]
  {
    assert names[..n + 1] == names[..n] + [names[n]];
  }

  /** No file is lost, none is drawn twice. */
  lemma GroupingIsAPartition(folders: seq<Folder>, files: seq<File>)
    requires Grouped(folders, files)
    ensures multiset(AllFiles(folders)) == multiset(files)
  {
    var n := |folders|;
    assert Names(folders)[..n] == Names(folders);
    NamesOnce(folders, files);
    forall i | 0 <= i < n ensures folders[i].files == FilesOf(files, folders[i].name) {
      assert FolderOf(folders[i], files);
    }
    forall x ensures multiset(AllFiles(folders))[x] == multiset(files)[x] {
      GroupMultiplicity(folders, files, n, x);
      if x in multiset(files) {
        assert x in files;
      }
    }
  }

  lemma {:induction false} TotalSizeAppend(s: seq<File>, t: seq<File>)
    ensures TotalSize(s + t) == TotalSize(s) + TotalSize(t)
  {
    if t == [] {
      assert s + t == s;
    } else {
      var init, f := t[..|t| - 1], t[|t| - 1];
      assert s + t == (s + init) + [f];
      TotalsOfOneMore(s + init, f);
      TotalSizeAppend(s, init);
    }
  }

  function Without(t: seq<File>, k: nat): seq<File>
    requires k < |t|
  {
    t[..k] + t[k + 1..]
  }

  lemma WithoutOneCounts(t: seq<File>, k: nat)
    requires k < |t|
    ensures multiset(Without(t, k)) == multiset(t) - multiset{t[k]}
  {
    assert t == t[..k] + [t[k]] + t[k + 1..];
  }

  lemma {:induction false} WithoutOneSize(t: seq<File>, k: nat)
    requires k < |t|
    ensures TotalSize(t) == TotalSize(Without(t, k)) + t[k].size
  {
    var n := |t| - 1;
    if k == n {
      assert Without(t, k) == t[..n];
    } else {
      WithoutOneSize(t[..n], k);
      assert Without(t, k) == Without(t[..n], k) + [t[n]];
      TotalsOfOneMore(Without(t[..n], k), t[n]);
    }
  }

  lemma {:induction false} TotalSizeIgnoresOrder(s: seq<File>, t: seq<File>)
    requires multiset(s) == multiset(t)
    ensures TotalSize(s) == TotalSize(t)
    decreases |s|
  {
    if s == [] {
      assert |multiset(t)| == |t|;
    } else {
      assert s[0] in multiset(t);
      var k :| 0 <= k < |t| && t[k] == s[0];
      WithoutOneCounts(s, 0);
      WithoutOneCounts(t, k);
      WithoutOneSize(s, 0);
      WithoutOneSize(t, k);
      TotalSizeIgnoresOrder(Without(s, 0), Without(t, k));
    }
  }

  lemma GroupingKeepsTotal(folders: seq<Folder>, files: seq<File>)
    requires Grouped(folders, files)
    ensures TotalSize(AllFiles(folders)) == TotalSize(files)
  {
    GroupingIsAPartition(folders, files);
    TotalSizeIgnoresOrder(AllFiles(folders), files);
  }

  // ------------------------------------------------------------------ one more file

  /** A folder with one more file in its list and sums. */
  function Grown(folder: Folder, f: File): Folder {
    Folder(folder.name, folder.size + f.size, folder.downloaded + Min(f.downloaded, f.size), folder.files + [f])
  }

  lemma {:induction false} NoFilesOfOtherNames(files: seq<File>, name: string)
    requires forall f :: f in files ==> GroupName(f.path) != name
    ensures FilesOf(files, name) == []
  {
    if files == [] {
    } else {
      NoFilesOfOtherNames(files[..|files| - 1], name);
      assert files[|files| - 1] in files;
    }
  }

  lemma GrownFolder(folder: Folder, files: seq<File>, f: File)
    requires GroupName(f.path) == folder.name && folder.files == FilesOf(files, folder.name)
    requires folder.size == TotalSize(folder.files) && folder.downloaded == TotalDownloaded(folder.files)
    ensures FolderOf(Grown(folder, f), files + [f])
  {
    FilesOfOneMore(files, f, folder.name);
    TotalsOfOneMore(folder.files, f);
  }

  lemma OtherFolder(folder: Folder, files: seq<File>, f: File)
    requires GroupName(f.path) != folder.name && FolderOf(folder, files)
    ensures FolderOf(folder, files + [f])
  {
    FilesOfOneMore(files, f, folder.name);
  }

  /** The file's folder is there already. */
  lemma GroupedWithOneMore(folders: seq<Folder>, files: seq<File>, f: File, k: nat)
    requires Grouped(folders, files) && k < |folders| && folders[k].name == GroupName(f.path)
    ensures Grouped(folders[k := Grown(folders[k], f)], files + [f])
  {
    var after := folders[k := Grown(folders[k], f)];
    assert Names(after) == Names(folders);
    assert Names(folders)[k] == folders[k].name;
    NamesOnce(folders, files);
    NamesOfOneMore(files, f);
    forall i | 0 <= i < |after| ensures FolderOf(after[i], files + [f]) {
      assert FolderOf(folders[i], files);
      if i == k {
        GrownFolder(folders[k], files, f);
      } else {
        assert Names(folders)[i] != Names(folders)[k];
        OtherFolder(folders[i], files, f);
      }
    }
  }

  /** The file's folder is new. */
  lemma GroupedWithNewFolder(folders: seq<Folder>, files: seq<File>, f: File)
    requires Grouped(folders, files) && GroupName(f.path) !in Names(folders)
    ensures Grouped(folders + [Grown(Folder(GroupName(f.path), 0, 0, []), f)], files + [f])
  {
    var name := GroupName(f.path);
    var grown := Grown(Folder(name, 0, 0, []), f);
    NamesOnce(folders, files);
    NamesOfOneMore(files, f);
    assert Names(folders + [grown]) == Names(folders) + [name];
    NewFolder(files, f);
    OldFolders(folders, files, f);
    OneMoreFolder(folders, grown, files + [f]);
  }

  lemma OneMoreFolder(folders: seq<Folder>, folder: Folder, files: seq<File>)
    requires FoldersOf(folders, files) && FolderOf(folder, files)
    ensures FoldersOf(folders + [folder], files)
  {
  }

  lemma NewFolder(files: seq<File>, f: File)
    requires forall g :: g in files ==> GroupName(g.path) != GroupName(f.path)
    ensures FolderOf(Grown(Folder(GroupName(f.path), 0, 0, []), f), files + [f])
  {
    NoFilesOfOtherNames(files, GroupName(f.path));
    GrownFolder(Folder(GroupName(f.path), 0, 0, []), files, f);
  }

  lemma OldFolders(folders: seq<Folder>, files: seq<File>, f: File)
    requires GroupName(f.path) !in Names(folders)
    requires FoldersOf(folders, files)
    ensures FoldersOf(folders, files + [f])
  {
    forall i | 0 <= i < |folders| ensures FolderOf(folders[i], files + [f]) {
      assert Names(folders)[i] == folders[i].name;
      OtherFolder(folders[i], files, f);
    }
  }
}
