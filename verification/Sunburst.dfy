/** Grouping and drawing, as the page's script does them. */
module Sunburst {
  import opened SunburstSpec
  import opened SunburstLayout

  method IndexOf(folders: seq<Folder>, name: string) returns (k: nat)
    ensures k <= |folders| && (k < |folders| ==> folders[k].name == name)
    ensures k == |folders| ==> name !in Names(folders)
  {
    for i := 0 to |folders|
      invariant forall j :: 0 <= j < i ==> folders[j].name != name
    {
      if folders[i].name == name {
        return i;
      }
    }
    k := |folders|;
  }

  /** One pass over the files, adding each to its folder's running totals. */
  method GroupByFolder(files: seq<File>) returns (folders: seq<Folder>)
    ensures Grouped(folders, files)
  {
    folders := [];
    for i := 0 to |files|
      invariant Grouped(folders, files[..i])
    {
      folders := AddToGroup(folders, files[i], files[..i]);
      assert files[..i + 1] == files[..i] + [files[i]];
    }
    assert files[..|files|] == files;
  }

  method AddToGroup(folders: seq<Folder>, f: File, ghost files: seq<File>) returns (after: seq<Folder>)
    requires Grouped(folders, files)
    ensures Grouped(after, files + [f])
  {
    var name := GroupName(f.path);
    var k := IndexOf(folders, name);
    if k == |folders| {
      GroupedWithNewFolder(folders, files, f);
      after := folders + [Grown(Folder(name, 0, 0, []), f)];
    } else {
      GroupedWithOneMore(folders, files, f, k);
      after := folders[k := Grown(folders[k], f)];
    }
  }

  /** One ring drawn by advancing an angle by each file's span. */
  method DrawFlat(files: seq<File>, total: int, pi: real) returns (arcs: seq<Arc>)
    requires total > 0
    ensures arcs == RingArcs(files, 0, Angles(total, pi))
  {
    arcs := [];
    var angle := -pi / 2.0;
    ghost var at := Angles(total, pi);
    for i := 0 to |files|
      invariant angle == at(FileOffset(files, i, 0))
      invariant arcs == FirstArcs(files, i, 0, at)
    {
      var f := files[i];
      var span := f.size as real / total as real * (2.0 * pi);
      AngleAdds(FileOffset(files, i, 0), f.size, FileOffset(files, i + 1, 0), total, pi);
      arcs := arcs + [Arc(angle, angle + span, ColorOf(f.downloaded, f.size))];
      angle := angle + span;
    }
  }

  /** The files of one folder, each with its share of the folder's own span. */
  method DrawFolderFiles(
    folder: Folder, angle: real, folderSpan: real, ghost offset: nat, ghost total: int, ghost pi: real)
    returns (arcs: seq<Arc>)
    requires total > 0 && folder.size == TotalSize(folder.files)
    requires angle == Angles(total, pi)(offset) && folderSpan == Angle(folder.size, total, pi)
    ensures arcs == RingArcs(folder.files, offset, Angles(total, pi))
  {
    arcs := [];
    var fileAngle := angle;
    ghost var at := Angles(total, pi);
    for i := 0 to |folder.files|
      invariant fileAngle == at(FileOffset(folder.files, i, offset))
      invariant arcs == FirstArcs(folder.files, i, offset, at)
    {
      var f := folder.files[i];
      var fileSpan := if folder.size > 0 then f.size as real / folder.size as real * folderSpan else 0.0;
      FileSpanIsItsShare(folder, i, total, pi);
      AngleAdds(FileOffset(folder.files, i, offset), f.size, FileOffset(folder.files, i + 1, offset), total, pi);
      arcs := arcs + [Arc(fileAngle, fileAngle + fileSpan, ColorOf(f.downloaded, f.size))];
      fileAngle := fileAngle + fileSpan;
    }
  }

  /** The nested span of a file, with the code's case for an empty folder, is the flat one. */
  lemma FileSpanIsItsShare(folder: Folder, i: nat, total: int, pi: real)
    requires total > 0 && i < |folder.files| && folder.size == TotalSize(folder.files)
    ensures Angle(folder.files[i].size, total, pi) ==
            if folder.size > 0 then folder.files[i].size as real / folder.size as real * Angle(folder.size, total, pi)
            else 0.0
  {
    if folder.size > 0 {
      ShareOfShare(folder.files[i].size, folder.size, total, pi);
    } else {
      SizeIsAtMostTotal(folder.files, i);
      assert folder.files[i].size == 0;
    }
  }

  lemma {:induction false} SizeIsAtMostTotal(files: seq<File>, i: nat)
    requires i < |files|
    ensures files[i].size <= TotalSize(files)
  {
    if i == |files| - 1 {
    } else {
      SizeIsAtMostTotal(files[..|files| - 1], i);
    }
  }

  lemma NextFolderArc(folders: seq<Folder>, i: nat, total: int, pi: real, angle: real, span: real)
    requires total > 0 && i < |folders|
    requires angle == Angles(total, pi)(FolderOffset(folders, i)) && span == Angle(folders[i].size, total, pi)
    ensures angle + span == Angles(total, pi)(FolderOffset(folders, i + 1))
    ensures FolderArcs(folders, i + 1, Angles(total, pi)) ==
            FolderArcs(folders, i, Angles(total, pi))
            + [Arc(angle, angle + span, ColorOf(folders[i].downloaded, folders[i].size))]
  {
    AngleAdds(FolderOffset(folders, i), folders[i].size, FolderOffset(folders, i + 1), total, pi);
  }

  /** Folder by folder: the folder's arc on the inner ring, then those of its files on the outer one. */
  method DrawNested(folders: seq<Folder>, total: int, pi: real) returns (inner: seq<Arc>, outer: seq<Arc>)
    requires total > 0
    requires forall i :: 0 <= i < |folders| ==> folders[i].size == TotalSize(folders[i].files)
    ensures inner == FolderArcs(folders, |folders|, Angles(total, pi))
    ensures outer == RingArcs(AllFiles(folders), 0, Angles(total, pi))
  {
    inner, outer := [], [];
    var angle := -pi / 2.0;
    ghost var at := Angles(total, pi);
    for i := 0 to |folders|
      invariant angle == at(FolderOffset(folders, i))
      invariant inner == FolderArcs(folders, i, at)
      invariant outer == RingArcs(FilesOfFirst(folders, i), 0, at)
    {
      var folder := folders[i];
      ghost var before := FolderOffset(folders, i);
      var folderSpan := folder.size as real / total as real * (2.0 * pi);
      NextFolderArc(folders, i, total, pi, angle, folderSpan);
      inner := inner + [Arc(angle, angle + folderSpan, ColorOf(folder.downloaded, folder.size))];
      var arcs := DrawFolderFiles(folder, angle, folderSpan, before, total, pi);
      OuterRingGrows(folders, i, at);
      outer := outer + arcs;
      angle := angle + folderSpan;
    }
  }

  /** Nothing for empty files, one ring without folders, else both rings over the grouped files. */
  method DrawSunburst(files: seq<File>, pi: real)
    returns (inner: seq<Arc>, outer: seq<Arc>, ghost folders: seq<Folder>)
    ensures TotalSize(files) == 0 ==> inner == [] && outer == []
    ensures TotalSize(files) > 0 && (forall f :: f in files ==> !Nested(f.path)) ==>
              inner == RingArcs(files, 0, Angles(TotalSize(files), pi)) && outer == []
    ensures TotalSize(files) > 0 && (exists f :: f in files && Nested(f.path)) ==>
              && Grouped(folders, files)
              && inner == FolderArcs(folders, |folders|, Angles(TotalSize(files), pi))
              && outer == RingArcs(AllFiles(folders), 0, Angles(TotalSize(files), pi))
  {
    inner, outer, folders := [], [], [];
    var totalSize, hasNesting := Survey(files);
    if totalSize == 0 {
      return;
    }
    if !hasNesting {
      inner := DrawFlat(files, totalSize, pi);
      return;
    }
    var groups := GroupByFolder(files);
    SizesAreRight(groups, files);
    inner, outer := DrawNested(groups, totalSize, pi);
    folders := groups;
  }

  /** The one pass before drawing. */
  method Survey(files: seq<File>) returns (totalSize: nat, hasNesting: bool)
    ensures totalSize == TotalSize(files)
    ensures hasNesting <==> exists f :: f in files && Nested(f.path)
  {
    totalSize, hasNesting := 0, false;
    for i := 0 to |files|
      invariant totalSize == FileOffset(files, i, 0)
      invariant hasNesting <==> exists f :: f in files[..i] && Nested(f.path)
    {
      assert files[..i + 1] == files[..i] + [files[i]];
      totalSize := totalSize + files[i].size;
      if !hasNesting && Nested(files[i].path) {
        hasNesting := true;
      }
    }
    assert files[..|files|] == files;
    RingEnds(files, 0);
  }
}
