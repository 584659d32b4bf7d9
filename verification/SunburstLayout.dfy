/** Where the arcs of the sunburst go, in exact reals, and that they tile the circle. */
module SunburstLayout {
  import opened Wrappers
  import opened SunburstSpec

  // ------------------------------------------------------------------ angles

  /** The share of the circle that `part` of `total` bytes takes. */
  function Angle(part: int, total: int, pi: real): real
    requires total > 0
  {
    part as real / total as real * (2.0 * pi)
  }

  /** Where on the circle an offset into all bytes lies; drawing starts at the top. */
  function Angles(total: int, pi: real): int -> real
    requires total > 0
  {
    (offset: int) => Angle(offset, total, pi) - pi / 2.0
  }

  lemma AngleAdds(a: int, b: int, c: int, total: int, pi: real)
    requires total > 0 && c == a + b
    ensures Angles(total, pi)(a) + Angle(b, total, pi) == Angles(total, pi)(c)
  {
    QuotientsAdd(a as real, b as real, total as real, 2.0 * pi);
  }

  lemma QuotientsAdd(a: real, b: real, t: real, c: real)
    requires t > 0.0
    ensures a / t * c + b / t * c == (a + b) / t * c
  {
    assert a / t + b / t == (a + b) / t;
  }

  /** A file's share of its folder's share is its share of the whole. */
  lemma ShareOfShare(part: nat, folder: nat, total: int, pi: real)
    requires folder > 0 && total > 0
    ensures part as real / folder as real * Angle(folder, total, pi) == Angle(part, total, pi)
  {
    QuotientsCancel(part as real, folder as real, total as real, 2.0 * pi);
  }

  lemma QuotientsCancel(a: real, b: real, t: real, c: real)
    requires b > 0.0 && t > 0.0
    ensures a / b * (b / t * c) == a / t * c
  {
    assert a / b * b == a;
    assert a / b * (b / t) == a / t;
  }

  // ------------------------------------------------------------------ the layout, by cumulative sizes

  /** Where file k begins if the first one begins at `start`. */
  function FileOffset(files: seq<File>, k: nat, start: nat): nat
    requires k <= |files|
  {
    if k == 0 then start else FileOffset(files, k - 1, start) + files[k - 1].size
  }

  function FolderOffset(folders: seq<Folder>, i: nat): nat
    requires i <= |folders|
  {
    if i == 0 then 0 else FolderOffset(folders, i - 1) + folders[i - 1].size
  }

  function FileArc(files: seq<File>, k: nat, offset: nat, at: int -> real): Arc
    requires k < |files|
  {
    Arc(at(FileOffset(files, k, offset)), at(FileOffset(files, k + 1, offset)),
        ColorOf(files[k].downloaded, files[k].size))
  }

  /** The first n arcs of a ring: each file's runs between the cumulative sizes before and after it. */
  function FirstArcs(files: seq<File>, n: nat, offset: nat, at: int -> real): seq<Arc>
    requires n <= |files|
  {
    seq(n, k requires 0 <= k < n => FileArc(files, k, offset, at))
  }

  function RingArcs(files: seq<File>, offset: nat, at: int -> real): seq<Arc> {
    FirstArcs(files, |files|, offset, at)
  }

  function FolderArc(folders: seq<Folder>, i: nat, at: int -> real): Arc
    requires i < |folders|
  {
    Arc(at(FolderOffset(folders, i)), at(FolderOffset(folders, i + 1)),
        ColorOf(folders[i].downloaded, folders[i].size))
  }

  /** The first n arcs of the inner ring. */
  function FolderArcs(folders: seq<Folder>, n: nat, at: int -> real): seq<Arc>
    requires n <= |folders|
  {
    seq(n, i requires 0 <= i < n => FolderArc(folders, i, at))
  }

  lemma {:induction false} FileOffsetAppend(s: seq<File>, t: seq<File>, k: nat, start: nat)
    requires k <= |s| + |t|
    ensures FileOffset(s + t, k, start) ==
            if k <= |s| then FileOffset(s, k, start) else FileOffset(t, k - |s|, FileOffset(s, |s|, start))
  {
    if k == 0 {
    } else {
      FileOffsetAppend(s, t, k - 1, start);
    }
  }

  lemma {:induction false} FileOffsetIsTotal(files: seq<File>, n: nat, start: nat)
    requires n <= |files|
    ensures FileOffset(files, n, start) == start + TotalSize(files[..n])
  {
    if n == 0 {
    } else {
      FileOffsetIsTotal(files, n - 1, start);
      assert files[..n] == files[..n - 1] + [files[n - 1]];
      TotalsOfOneMore(files[..n - 1], files[n - 1]);
    }
  }

  lemma RingEnds(files: seq<File>, start: nat)
    ensures FileOffset(files, |files|, start) == start + TotalSize(files)
  {
    FileOffsetIsTotal(files, |files|, start);
    assert files[..|files|] == files;
  }

  /** Folders whose sizes are right begin where the files of the folders before them end. */
  lemma {:induction false} FolderOffsetIsTotal(folders: seq<Folder>, n: nat)
    requires n <= |folders|
    requires forall i :: 0 <= i < n ==> folders[i].size == TotalSize(folders[i].files)
    ensures FolderOffset(folders, n) == TotalSize(FilesOfFirst(folders, n))
  {
    if n == 0 {
    } else {
      FolderOffsetIsTotal(folders, n - 1);
      TotalSizeAppend(FilesOfFirst(folders, n - 1), folders[n - 1].files);
    }
  }

  lemma ArcInFirst(s: seq<File>, t: seq<File>, offset: nat, at: int -> real, k: nat)
    requires k < |s|
    ensures FileArc(s + t, k, offset, at) == FileArc(s, k, offset, at)
  {
    FileOffsetAppend(s, t, k, offset);
    FileOffsetAppend(s, t, k + 1, offset);
  }

  lemma ArcInSecond(s: seq<File>, t: seq<File>, offset: nat, at: int -> real, k: nat)
    requires |s| <= k < |s| + |t|
    ensures FileArc(s + t, k, offset, at) == FileArc(t, k - |s|, FileOffset(s, |s|, offset), at)
  {
    FileOffsetAppend(s, t, k, offset);
    FileOffsetAppend(s, t, k + 1, offset);
  }

  /** Rings drawn one after the other are one ring over all the files. */
  lemma RingArcsAppend(s: seq<File>, t: seq<File>, offset: nat, at: int -> real)
    ensures RingArcs(s + t, offset, at) == RingArcs(s, offset, at) + RingArcs(t, FileOffset(s, |s|, offset), at)
  {
    var more := FileOffset(s, |s|, offset);
    forall k | 0 <= k < |s| ensures FileArc(s + t, k, offset, at) == FileArc(s, k, offset, at) {
      ArcInFirst(s, t, offset, at, k);
    }
    forall k | |s| <= k < |s| + |t| ensures FileArc(s + t, k, offset, at) == FileArc(t, k - |s|, more, at) {
      ArcInSecond(s, t, offset, at, k);
    }
  }

  // ------------------------------------------------------------------ the rings tile the circle

  /** Arc k of a ring starts where the one before ends and has its file's colour; the ring runs from its
      offset to where `RingEnds` says. */
  lemma RingIsContiguous(files: seq<File>, offset: nat, at: int -> real, k: nat)
    requires k < |files|
    ensures var arcs := RingArcs(files, offset, at);
            && arcs[k].start == (if k == 0 then at(offset) else arcs[k - 1].end)
            && arcs[k].color == ColorOf(files[k].downloaded, files[k].size)
            && arcs[|files| - 1].end == at(FileOffset(files, |files|, offset))
  {
  }

  /** A file's arc spans its share of the circle. */
  lemma SpanIsShare(files: seq<File>, offset: nat, total: int, pi: real, k: nat)
    requires total > 0 && k < |files|
    ensures var arc := RingArcs(files, offset, Angles(total, pi))[k];
            arc.end - arc.start == Angle(files[k].size, total, pi)
  {
    AngleAdds(FileOffset(files, k, offset), files[k].size, FileOffset(files, k + 1, offset), total, pi);
  }

  predicate SameSpan(a: Arc, b: Arc) { a.end - a.start == b.end - b.start && a.color == b.color }

  /** A file has the same span and the same colour in the nested drawing as in the flat one, wherever
      grouping moved it. */
  lemma NestedSpanIsFlatSpan(folders: seq<Folder>, files: seq<File>, total: int, pi: real, j: nat, k: nat)
    requires total > 0 && Grouped(folders, files)
    requires j < |AllFiles(folders)| && k < |files| && AllFiles(folders)[j] == files[k]
    ensures SameSpan(RingArcs(AllFiles(folders), 0, Angles(total, pi))[j], RingArcs(files, 0, Angles(total, pi))[k])
    ensures |AllFiles(folders)| == |files|
  {
    SpanIsShare(AllFiles(folders), 0, total, pi, j);
    SpanIsShare(files, 0, total, pi, k);
    SameLength(folders, files);
  }

  lemma SameLength(folders: seq<Folder>, files: seq<File>)
    requires Grouped(folders, files)
    ensures |AllFiles(folders)| == |files|
  {
    GroupingIsAPartition(folders, files);
    assert |multiset(files)| == |files| && |multiset(AllFiles(folders))| == |AllFiles(folders)|;
  }

  /** From the top all the way round. */
  lemma CircleIsFull(total: int, pi: real)
    requires total > 0
    ensures Angles(total, pi)(0) == -(pi / 2.0)
    ensures Angles(total, pi)(total) == Angles(total, pi)(0) + 2.0 * pi
  {
    var t := total as real;
    assert t / t == 1.0;
  }

  lemma SizesAreRight(folders: seq<Folder>, files: seq<File>)
    requires Grouped(folders, files)
    ensures forall i :: 0 <= i < |folders| ==> folders[i].size == TotalSize(folders[i].files)
  {
    forall i | 0 <= i < |folders| ensures folders[i].size == TotalSize(folders[i].files) {
      assert FolderOf(folders[i], files);
    }
  }

  /** The folders' sizes add up to all the bytes there are. */
  lemma FoldersEnd(folders: seq<Folder>, files: seq<File>)
    requires Grouped(folders, files)
    ensures FolderOffset(folders, |folders|) == TotalSize(files)
  {
    SizesAreRight(folders, files);
    FolderOffsetIsTotal(folders, |folders|);
    GroupingKeepsTotal(folders, files);
  }

  /** Folder arcs follow one another without gaps, from the top to all the bytes there are. */
  lemma FolderArcsTile(folders: seq<Folder>, total: int, at: int -> real, i: nat)
    requires i < |folders| && FolderOffset(folders, |folders|) == total
    ensures var arcs := FolderArcs(folders, |folders|, at);
            && arcs[i].start == (if i == 0 then at(0) else arcs[i - 1].end)
            && arcs[|folders| - 1].end == at(total)
  {
  }

  /** Arcs that follow one another without a gap, from the top through one full turn. */
  ghost predicate FullTurn(arcs: seq<Arc>, pi: real) {
    && arcs != [] && arcs[0].start == -(pi / 2.0) && arcs[|arcs| - 1].end == arcs[0].start + 2.0 * pi
    && forall i :: 0 < i < |arcs| ==> arcs[i].start == arcs[i - 1].end
  }

  /** The folders of any files that hold a byte fill the inner ring. */
  lemma FoldersFillTheCircle(folders: seq<Folder>, files: seq<File>, pi: real)
    requires Grouped(folders, files) && TotalSize(files) > 0
    ensures FullTurn(FolderArcs(folders, |folders|, Angles(TotalSize(files), pi)), pi)
  {
    var total := TotalSize(files);
    FoldersEnd(folders, files);
    CircleIsFull(total, pi);
    forall i | 0 <= i < |folders|
      ensures var arcs := FolderArcs(folders, |folders|, Angles(total, pi));
              arcs[i].start == if i == 0 then Angles(total, pi)(0) else arcs[i - 1].end
    {
      FolderArcsTile(folders, total, Angles(total, pi), i);
    }
    FolderArcsTile(folders, total, Angles(total, pi), 0);
  }

  /** So do the files, in their own order on the flat ring as well as regrouped on the outer one. */
  lemma FilesFillTheCircle(files: seq<File>, total: int, pi: real)
    requires total == TotalSize(files) > 0
    ensures FullTurn(RingArcs(files, 0, Angles(total, pi)), pi)
  {
    var at := Angles(total, pi);
    RingEnds(files, 0);
    CircleIsFull(total, pi);
    forall k | 0 <= k < |files|
      ensures var arcs := RingArcs(files, 0, at); arcs[k].start == if k == 0 then at(0) else arcs[k - 1].end
    {
      RingIsContiguous(files, 0, at, k);
    }
    RingIsContiguous(files, 0, at, 0);
  }

  lemma RegroupedFilesFillTheCircle(folders: seq<Folder>, files: seq<File>, pi: real)
    requires Grouped(folders, files) && TotalSize(files) > 0
    ensures FullTurn(RingArcs(AllFiles(folders), 0, Angles(TotalSize(files), pi)), pi)
  {
    GroupingKeepsTotal(folders, files);
    FilesFillTheCircle(AllFiles(folders), TotalSize(files), pi);
  }

  /** Where the files of folder i go on the outer ring. */
  function FolderFileArcs(folders: seq<Folder>, i: nat, at: int -> real): seq<Arc>
    requires i < |folders|
  {
    RingArcs(folders[i].files, FolderOffset(folders, i), at)
  }

  lemma OuterRingGrows(folders: seq<Folder>, i: nat, at: int -> real)
    requires i < |folders|
    requires forall j :: 0 <= j < i ==> folders[j].size == TotalSize(folders[j].files)
    ensures RingArcs(FilesOfFirst(folders, i + 1), 0, at) ==
            RingArcs(FilesOfFirst(folders, i), 0, at) + FolderFileArcs(folders, i, at)
  {
    FolderOffsetIsTotal(folders, i);
    RingEnds(FilesOfFirst(folders, i), 0);
    RingArcsAppend(FilesOfFirst(folders, i), folders[i].files, 0, at);
  }

  /** The files of folder i are drawn from the start of its arc to its end. */
  lemma FilesTileTheirFolder(folders: seq<Folder>, i: nat, at: int -> real)
    requires i < |folders| && folders[i].files != [] && folders[i].size == TotalSize(folders[i].files)
    ensures var arcs := FolderFileArcs(folders, i, at);
            arcs[0].start == FolderArc(folders, i, at).start
            && arcs[|arcs| - 1].end == FolderArc(folders, i, at).end
  {
    RingEnds(folders[i].files, FolderOffset(folders, i));
  }

  // ------------------------------------------------------------------ colours

  /** A folder is shown done exactly if each of its files is, and missing exactly if it is not done and no
      byte of any of its files is there. */
  lemma {:induction false} FolderColor(files: seq<File>)
    ensures TotalDownloaded(files) <= TotalSize(files)
    ensures TotalDownloaded(files) == TotalSize(files) <==>
            forall f :: f in files ==> ColorOf(f.downloaded, f.size) == Done
    ensures TotalDownloaded(files) > 0 <==> exists f :: f in files && Min(f.downloaded, f.size) > 0
  {
    if files == [] {
    } else {
      var init, last := files[..|files| - 1], files[|files| - 1];
      FolderColor(init);
      assert forall f :: f in files <==> f in init || f == last;
      assert Min(last.downloaded, last.size) == last.size <==> ColorOf(last.downloaded, last.size) == Done;
    }
  }

  lemma FolderIsDoneIff(files: seq<File>)
    ensures ColorOf(TotalDownloaded(files), TotalSize(files)) == Done <==>
            forall f :: f in files ==> ColorOf(f.downloaded, f.size) == Done
    ensures ColorOf(TotalDownloaded(files), TotalSize(files)) == Partial <==>
            && (exists f :: f in files && ColorOf(f.downloaded, f.size) != Done)
            && exists f :: f in files && Min(f.downloaded, f.size) > 0
  {
    FolderColor(files);
  }

  /** On the inner ring: a folder's arc is coloured done exactly if each of its files' arcs is. */
  lemma FolderArcIsDoneIff(folders: seq<Folder>, files: seq<File>, i: nat, at: int -> real)
    requires Grouped(folders, files) && i < |folders|
    ensures var arc, own := FolderArcs(folders, |folders|, at)[i], FolderFileArcs(folders, i, at);
            && |own| == |folders[i].files|
            && (arc.color == Done <==> forall k :: 0 <= k < |own| ==> own[k].color == Done)
            && (arc.color == Partial ==> exists f :: f in folders[i].files && Min(f.downloaded, f.size) > 0)
  {
    assert FolderOf(folders[i], files);
    FolderIsDoneIff(folders[i].files);
    var own := FolderFileArcs(folders, i, at);
    assert forall k :: 0 <= k < |own| ==>
             own[k].color == ColorOf(folders[i].files[k].downloaded, folders[i].files[k].size);
  }
}
