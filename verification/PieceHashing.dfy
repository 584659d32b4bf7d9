/** Piece hashes of a torrent under creation: one reused buffer, short reads, files in torrent order. */
module PieceHashing {
  import opened Wrappers

  type Byte = x: int | 0 <= x < 256
  type Digest = seq<Byte>

  /** A file as the torrent declares it (`size`) and as it is on disk when it gets read. */
  datatype SourceFile = SourceFile(size: nat, content: seq<Byte>)

  datatype Outcome =
    | Hashed
    | CreationCancelled
    | Shrank(file: nat)
    | WrongCount(hashed: nat, expected: nat)

  // ------------------------------------------------------------------ the plain definition

  /** The file ran out before its declared size. */
  predicate Short(f: SourceFile) { |f.content| < f.size }

  /** The bytes there are to hash: declared parts in order, up to the end of the first short file. */
  function Stream(files: seq<SourceFile>): seq<Byte> {
    if files == [] then [] else
      if Short(files[0]) then files[0].content
      else files[0].content[..files[0].size] + Stream(files[1..])
  }

  function FirstShort(files: seq<SourceFile>): Option<nat> {
    if files == [] then None else
      if Short(files[0]) then Some(0)
      else Later(FirstShort(files[1..]), 1)
  }

  /** An index into what follows the first n files, counted from the start. */
  function Later(index: Option<nat>, n: nat): Option<nat> {
    match index case None => None case Some(i) => Some(n + i)
  }

  /** The full pieces at the front of a stream, and what is left over. */
  function Blocks(s: seq<Byte>, len: nat): seq<seq<Byte>>
    requires len > 0
  {
    if |s| < len then [] else [s[..len]] + Blocks(s[len..], len)
  }

  function Rest(s: seq<Byte>, len: nat): (r: seq<Byte>)
    requires len > 0
    ensures |r| < len
  {
    if |s| < len then s else Rest(s[len..], len)
  }

  /** All pieces: the full ones and a last partial one if anything is left. */
  function Pieces(s: seq<Byte>, len: nat): seq<seq<Byte>>
    requires len > 0
  {
    Blocks(s, len) + if Rest(s, len) == [] then [] else [Rest(s, len)]
  }

  /** The first full piece after which the cancel event is found set. */
  function FirstCancel(cancel: Option<nat -> bool>, n: nat): (r: Option<nat>)
    ensures r.Some? ==> r.value < n
  {
    if cancel.None? || n == 0 then None else
      match FirstCancel(cancel, n - 1)
      case Some(k) => Some(k)
      case None => if cancel.value(n - 1) then Some(n - 1) else None
  }

  datatype Report = Report(outcome: Outcome, pieces: seq<seq<Byte>>)

  /** What hashing must report and which pieces it must have hashed by then, whatever the read sizes. */
  function Expected(files: seq<SourceFile>, len: nat, numPieces: nat, cancel: Option<nat -> bool>): Report
    requires len > 0
  {
    var s := Stream(files);
    var full := Blocks(s, len);
    match FirstCancel(cancel, |full|)
    case Some(k) => Report(CreationCancelled, full[..k + 1])
    case None =>
      match FirstShort(files)
      case Some(i) => Report(Shrank(i), full)
      case None =>
        var all := Pieces(s, len);
        Report(if |all| == numPieces then Hashed else WrongCount(|all|, numPieces), all)
  }

  /** `hashes` after `set_hash` stored the digest of piece i under index i, for every piece. */
  function WithDigests(hashes: map<nat, Digest>, sha1: seq<Byte> -> Digest, pieces: seq<seq<Byte>>): map<nat, Digest> {
    hashes + map i: nat | i < |pieces| :: sha1(pieces[i])
  }

  // ------------------------------------------------------------------ the plain definition, index by index

  lemma {:induction false} BlocksAreSlices(s: seq<Byte>, len: nat, i: nat)
    requires len > 0 && i < |Blocks(s, len)|
    ensures 0 <= i * len <= (i + 1) * len <= |s|
    ensures Blocks(s, len)[i] == s[i * len..(i + 1) * len]
  {
    if i == 0 {
    } else {
      BlocksAreSlices(s[len..], len, i - 1);
      assert (i - 1) * len + len == i * len && (i - 1 + 1) * len + len == (i + 1) * len;
      assert s[len..][(i - 1) * len..i * len] == s[i * len..(i + 1) * len];
    }
  }

  lemma {:induction false} RestIsTail(s: seq<Byte>, len: nat)
    requires len > 0
    ensures |Blocks(s, len)| * len + |Rest(s, len)| == |s|
    ensures Rest(s, len) == s[|s| - |Rest(s, len)|..]
  {
    if |s| < len {
    } else {
      var tail := s[len..];
      RestIsTail(tail, len);
      var n, r := |Blocks(tail, len)|, |Rest(tail, len)|;
      OneMoreProduct(n, len);
      assert tail[|tail| - r..] == s[|s| - r..];
      assert Rest(s, len) == Rest(tail, len) && |Blocks(s, len)| == n + 1;
    }
  }

  lemma OneMoreProduct(n: nat, len: nat)
    ensures (n + 1) * len == n * len + len
  {
  }

  lemma PieceCount(s: seq<Byte>, len: nat)
    requires len > 0
    ensures (|Pieces(s, len)| - 1) * len < |s| <= |Pieces(s, len)| * len
  {
    RestIsTail(s, len);
    var n, r := |Blocks(s, len)|, |Rest(s, len)|;
    assert (n - 1) * len == n * len - len && (n + 1) * len == n * len + len;
  }

  /** Section "info dictionary" of BEP 3: piece i is bytes [i * len, min((i + 1) * len, total)), and
      there are ceil(total / len) of them (`PieceCount`). */
  lemma PieceIsSlice(s: seq<Byte>, len: nat, i: nat)
    requires len > 0 && i < |Pieces(s, len)|
    ensures 0 <= i * len < |s| && i * len < (i + 1) * len
    ensures Pieces(s, len)[i] == s[i * len..Min((i + 1) * len, |s|)]
  {
    var n := |Blocks(s, len)|;
    assert (i + 1) * len == i * len + len;
    RestIsTail(s, len);
    if i < n {
      BlocksAreSlices(s, len, i);
    } else {
      assert i == n && Pieces(s, len)[i] == Rest(s, len);
    }
  }

  /** Appending what fits into the rest either lengthens it or completes one more piece. */
  lemma {:induction false} AppendPart(s: seq<Byte>, part: seq<Byte>, len: nat)
    requires len > 0 && |Rest(s, len)| + |part| <= len
    ensures |Rest(s, len)| + |part| < len ==>
              Blocks(s + part, len) == Blocks(s, len) && Rest(s + part, len) == Rest(s, len) + part
    ensures |Rest(s, len)| + |part| == len ==>
              Blocks(s + part, len) == Blocks(s, len) + [Rest(s, len) + part] && Rest(s + part, len) == []
  {
    if |s| >= len {
      AppendPart(s[len..], part, len);
      assert (s + part)[len..] == s[len..] + part;
      assert (s + part)[..len] == s[..len];
    } else if |s| + |part| == len {
      var t := s + part;
      assert t[..len] == t && t[len..] == [];
      assert Blocks(t[len..], len) == [];
    }
  }

  lemma {:induction false} BlocksOfPrefix(s: seq<Byte>, more: seq<Byte>, len: nat)
    requires len > 0
    ensures Blocks(s, len) <= Blocks(s + more, len)
  {
    if |s| < len {
    } else {
      BlocksOfPrefix(s[len..], more, len);
      assert (s + more)[len..] == s[len..] + more && (s + more)[..len] == s[..len];
    }
  }

  lemma {:induction false} FirstCancelAt(cancel: Option<nat -> bool>, k: nat, n: nat)
    requires cancel.Some? && k < n && FirstCancel(cancel, k) == None && cancel.value(k)
    ensures FirstCancel(cancel, n) == Some(k)
  {
    if k == n - 1 {
    } else {
      FirstCancelAt(cancel, k, n - 1);
    }
  }

  /** `FirstCancel` is the least poll that answers yes. */
  lemma {:induction false} FirstCancelIsLeast(cancel: Option<nat -> bool>, n: nat)
    ensures match FirstCancel(cancel, n)
            case None => cancel.None? || forall k: nat :: k < n ==> !cancel.value(k)
            case Some(k) => cancel.Some? && k < n && cancel.value(k) && forall j: nat :: j < k ==> !cancel.value(j)
  {
    if cancel.None? || n == 0 {
    } else {
      FirstCancelIsLeast(cancel, n - 1);
    }
  }

  // ------------------------------------------------------------------ file by file

  ghost predicate NoneShort(files: seq<SourceFile>) {
    forall i :: 0 <= i < |files| ==> !Short(files[i])
  }

  lemma {:induction false} StreamSplits(files: seq<SourceFile>, i: nat)
    requires i <= |files| && NoneShort(files[..i])
    ensures Stream(files) == Stream(files[..i]) + Stream(files[i..])
    ensures FirstShort(files) == Later(FirstShort(files[i..]), i)
  {
    if i == 0 {
      assert files[0..] == files && files[..0] == [];
    } else {
      var tail := files[1..];
      assert !Short(files[..i][0]) && files[..i][1..] == tail[..i - 1] && tail[i - 1..] == files[i..];
      StreamSplits(tail, i - 1);
    }
  }

  lemma StreamOfOneMore(files: seq<SourceFile>, i: nat)
    requires i < |files| && NoneShort(files[..i + 1])
    ensures Stream(files[..i + 1]) == Stream(files[..i]) + files[i].content[..files[i].size]
  {
    var firsts := files[..i + 1];
    assert firsts[..i] == files[..i] && firsts[i..] == [files[i]] && firsts[i] == files[i];
    StreamSplits(firsts, i);
    var one := [files[i]];
    assert one[1..] == [];
    assert Stream(one) == files[i].content[..files[i].size] + Stream(one[1..]);
  }

  /** A file that shrank ends the stream with everything it still had. */
  lemma StreamAtShort(files: seq<SourceFile>, i: nat)
    requires i < |files| && NoneShort(files[..i]) && Short(files[i])
    ensures FirstShort(files) == Some(i)
    ensures Stream(files) == Stream(files[..i]) + files[i].content
  {
    var tail := files[i..];
    assert tail != [] && tail[0] == files[i];
    ShortHead(tail);
    StreamSplits(files, i);
  }

  lemma ShortHead(files: seq<SourceFile>)
    requires files != [] && Short(files[0])
    ensures Stream(files) == files[0].content && FirstShort(files) == Some(0)
  {
  }

  /** Unchanged files: the stream is the concatenation of their contents. */
  function Concatenation(files: seq<SourceFile>): seq<Byte> {
    if files == [] then [] else files[0].content + Concatenation(files[1..])
  }

  lemma {:induction false} StreamOfUnchangedFiles(files: seq<SourceFile>)
    requires forall i :: 0 <= i < |files| ==> |files[i].content| == files[i].size
    ensures FirstShort(files) == None && Stream(files) == Concatenation(files)
  {
    if files == [] {
    } else {
      StreamOfUnchangedFiles(files[1..]);
    }
  }

  // ------------------------------------------------------------------ the code

  /** An unbuffered file: a read may return fewer bytes than asked for, none only at the end. */
  class RawFile {
    const content: seq<Byte>
    var pos: nat

    constructor (content: seq<Byte>)
      ensures this.content == content && pos == 0
    {
      this.content := content;
      pos := 0;
    }

    method ReadInto(view: array<Byte>, lo: nat, hi: nat) returns (n: nat)
      requires pos <= |content| && lo < hi <= view.Length
      modifies this`pos, view
      ensures n <= hi - lo && old(pos) + n == pos <= |content|
      ensures n == 0 <==> old(pos) == |content|
      ensures view[..lo] == old(view[..lo])
      ensures view[lo..lo + n] == content[old(pos)..pos]
    {
      var most := Min(hi - lo, |content| - pos);
      n :| 0 <= n <= most && (most > 0 ==> n > 0);
      for k := 0 to n
        invariant view[..lo] == old(view[..lo])
        invariant pos == old(pos) && pos + n <= |content|
        invariant view[lo..lo + k] == content[pos..pos + k]
      {
        view[lo + k] := content[pos + k];
        assert view[lo..lo + k + 1] == view[lo..lo + k] + [content[pos + k]];
      }
      pos := pos + n;
    }
  }

  /** The torrent under creation: the piece hashes set so far. */
  class CreateTorrent {
    var hashes: map<nat, Digest>

    constructor ()
      ensures hashes == map[]
    {
      hashes := map[];
    }

    method SetHash(piece: nat, digest: Digest)
      modifies this
      ensures hashes == old(hashes)[piece := digest]
    {
      hashes := hashes[piece := digest];
    }
  }

  /** Between reads: `piece` full pieces of the stream so far are hashed, the rest is in the buffer,
      and no poll has answered yes. */
  ghost predicate Progress(
    done: seq<Byte>, len: nat, view: seq<Byte>, filled: nat, piece: nat, cancel: Option<nat -> bool>)
    requires len > 0
  {
    && |view| == len && filled < len
    && piece == |Blocks(done, len)|
    && view[..filled] == Rest(done, len)
    && FirstCancel(cancel, piece) == None
  }

  /** `part` has been read behind the `filled` bytes of the buffer. */
  ghost predicate ReadBehind(was: seq<Byte>, view: seq<Byte>, filled: nat, part: seq<Byte>) {
    && |was| == |view| && filled + |part| <= |view|
    && view[..filled] == was[..filled] && view[filled..filled + |part|] == part
  }

  /** A read that does not fill the buffer. */
  lemma ReadLeavesRoom(
    done: seq<Byte>, len: nat, was: seq<Byte>, view: seq<Byte>, filled: nat, part: seq<Byte>, piece: nat,
    cancel: Option<nat -> bool>)
    requires len > 0 && Progress(done, len, was, filled, piece, cancel)
    requires ReadBehind(was, view, filled, part) && filled + |part| < len
    ensures Progress(done + part, len, view, filled + |part|, piece, cancel)
    ensures Blocks(done + part, len) == Blocks(done, len)
  {
    AppendPart(done, part, len);
    assert view[..filled + |part|] == view[..filled] + part;
  }

  /** A read that completes a piece. */
  lemma ReadCompletesPiece(
    done: seq<Byte>, len: nat, was: seq<Byte>, view: seq<Byte>, filled: nat, part: seq<Byte>, piece: nat,
    cancel: Option<nat -> bool>)
    requires len > 0 && Progress(done, len, was, filled, piece, cancel)
    requires ReadBehind(was, view, filled, part) && filled + |part| == len
    ensures Blocks(done + part, len) == Blocks(done, len) + [view]
    ensures Rest(done + part, len) == []
  {
    AppendPart(done, part, len);
    assert view == view[..filled] + part;
  }

  lemma DigestsExtend(
    hashes: map<nat, Digest>, sha1: seq<Byte> -> Digest, pieces: seq<seq<Byte>>, last: seq<Byte>)
    ensures WithDigests(hashes, sha1, pieces + [last]) ==
            WithDigests(hashes, sha1, pieces)[|pieces| := sha1(last)]
  {
  }

  /** The first poll that answers yes is the one after the last full piece of `done`. */
  ghost predicate CancelledAtLast(done: seq<Byte>, len: nat, cancel: Option<nat -> bool>)
    requires len > 0
  {
    && cancel.Some? && |Blocks(done, len)| > 0
    && var k := |Blocks(done, len)| - 1;
       FirstCancel(cancel, k) == None && cancel.value(k)
  }

  /** After a read of `n` bytes: hashes the buffer if it is full, then polls the cancel event. */
  method TakeRead(
    ct: CreateTorrent, view: array<Byte>, filled0: nat, n: nat, piece0: nat, cancel: Option<nat -> bool>,
    sha1: seq<Byte> -> Digest, ghost done: seq<Byte>, ghost was: seq<Byte>, ghost part: seq<Byte>,
    ghost hashes0: map<nat, Digest>)
    returns (cancelled: bool, filled: nat, piece: nat)
    requires view.Length > 0 && |part| == n && ReadBehind(was, view[..], filled0, part)
    requires Progress(done, view.Length, was, filled0, piece0, cancel)
    requires ct.hashes == WithDigests(hashes0, sha1, Blocks(done, view.Length))
    modifies ct
    ensures ct.hashes == WithDigests(hashes0, sha1, Blocks(done + part, view.Length))
    ensures if cancelled then CancelledAtLast(done + part, view.Length, cancel)
            else Progress(done + part, view.Length, view[..], filled, piece, cancel)
  {
    filled, piece, cancelled := filled0 + n, piece0, false;
    if filled == view.Length {
      ReadCompletesPiece(done, view.Length, was, view[..], filled0, part, piece, cancel);
      DigestsExtend(hashes0, sha1, Blocks(done, view.Length), view[..]);
      ct.SetHash(piece, sha1(view[..]));
      piece := piece + 1;
      filled := 0;
      cancelled := cancel.Some? && cancel.value(piece - 1);
    } else {
      ReadLeavesRoom(done, view.Length, was, view[..], filled0, part, piece, cancel);
    }
  }

  /** What one file's loop leaves behind: it went through, shrank, or was cancelled after a piece. */
  ghost predicate FileDone(
    file: SourceFile, index: nat, before: seq<Byte>, done: seq<Byte>, view: seq<Byte>, filled: nat, piece: nat,
    cancel: Option<nat -> bool>, stop: Option<Outcome>)
    requires |view| > 0
  {
    match stop
    case None =>
      && !Short(file) && done == before + file.content[..file.size]
      && Progress(done, |view|, view, filled, piece, cancel)
    case Some(why) =>
      if why.CreationCancelled? then
        && CancelledAtLast(done, |view|, cancel)
        && exists n: nat :: n <= |file.content| && n <= file.size && done == before + file.content[..n]
      else
        && why == Shrank(index) && Short(file) && done == before + file.content
        && FirstCancel(cancel, |Blocks(done, |view|)|) == None
  }

  /** The inner loop: reads one file to its declared size, hashing each piece that fills up.
      `stop` tells why it gave up, if it did; `done` is the stream consumed so far. */
  method HashFile(
    ct: CreateTorrent, file: SourceFile, index: nat, view: array<Byte>, filled0: nat, piece0: nat,
    cancel: Option<nat -> bool>, sha1: seq<Byte> -> Digest, ghost before: seq<Byte>,
    ghost hashes0: map<nat, Digest>)
    returns (stop: Option<Outcome>, filled: nat, piece: nat, ghost done: seq<Byte>)
    requires view.Length > 0
    requires Progress(before, view.Length, view[..], filled0, piece0, cancel)
    requires ct.hashes == WithDigests(hashes0, sha1, Blocks(before, view.Length))
    modifies ct, view
    ensures ct.hashes == WithDigests(hashes0, sha1, Blocks(done, view.Length))
    ensures FileDone(file, index, before, done, view[..], filled, piece, cancel, stop)
  {
    filled, piece, done := filled0, piece0, before;
    var remaining := file.size;
    var f := new RawFile(file.content);
    while remaining > 0
      invariant f.content == file.content && f.pos + remaining == file.size && f.pos <= |f.content|
      invariant done == before + f.content[..f.pos]
      invariant Progress(done, view.Length, view[..], filled, piece, cancel)
      invariant ct.hashes == WithDigests(hashes0, sha1, Blocks(done, view.Length))
    {
      ghost var was, pos := view[..], f.pos;
      var n := f.ReadInto(view, filled, filled + Min(remaining, view.Length - filled));
      if n == 0 {
        return Some(Shrank(index)), filled, piece, done;
      }
      ghost var part := file.content[pos..f.pos];
      assert ReadBehind(was, view[..], filled, part);
      assert before + file.content[..f.pos] == done + part;
      var cancelled;
      cancelled, filled, piece := TakeRead(ct, view, filled, n, piece, cancel, sha1, done, was, part, hashes0);
      done := done + part;
      remaining := remaining - n;
      if cancelled {
        return Some(CreationCancelled), filled, piece, done;
      }
    }
    stop := None;
  }

  /** Hashes every piece of the declared files. `cancel` is polled once after each full piece. The
      report is determined by the files alone: no pattern of short reads can change it. */
  method HashPieces(
    ct: CreateTorrent, files: seq<SourceFile>, pieceLen: nat, numPieces: nat,
    cancel: Option<nat -> bool>, sha1: seq<Byte> -> Digest)
    returns (outcome: Outcome)
    requires pieceLen > 0
    modifies ct
    ensures outcome == Expected(files, pieceLen, numPieces, cancel).outcome
    ensures ct.hashes == WithDigests(old(ct.hashes), sha1, Expected(files, pieceLen, numPieces, cancel).pieces)
  {
    var view := new Byte[pieceLen];
    var filled: nat, piece: nat := 0, 0;
    ghost var done: seq<Byte> := [];
    ghost var hashes0 := ct.hashes;
    for i := 0 to |files|
      invariant NoneShort(files[..i]) && done == Stream(files[..i])
      invariant view.Length == pieceLen && Progress(done, pieceLen, view[..], filled, piece, cancel)
      invariant ct.hashes == WithDigests(hashes0, sha1, Blocks(done, pieceLen))
    {
      var stop;
      ghost var before := done;
      stop, filled, piece, done :=
        HashFile(ct, files[i], i, view, filled, piece, cancel, sha1, before, hashes0);
      if stop.Some? {
        StoppingIsExpected(files, i, before, done, view[..], filled, piece, numPieces, cancel, stop);
        return stop.value;
      }
      assert files[..i + 1] == files[..i] + [files[i]];
      StreamOfOneMore(files, i);
    }
    assert files[..|files|] == files;
    ShortIffFirstShort(files);
    piece := HashRemainder(ct, view, filled, piece, cancel, sha1, done, hashes0);
    outcome := if piece != numPieces then WrongCount(piece, numPieces) else Hashed;
  }

  /** The last, partial piece, if anything is left in the buffer. */
  method HashRemainder(
    ct: CreateTorrent, view: array<Byte>, filled: nat, piece: nat, cancel: Option<nat -> bool>,
    sha1: seq<Byte> -> Digest, ghost done: seq<Byte>, ghost hashes0: map<nat, Digest>)
    returns (count: nat)
    requires view.Length > 0 && Progress(done, view.Length, view[..], filled, piece, cancel)
    requires ct.hashes == WithDigests(hashes0, sha1, Blocks(done, view.Length))
    modifies ct
    ensures count == |Pieces(done, view.Length)|
    ensures ct.hashes == WithDigests(hashes0, sha1, Pieces(done, view.Length))
  {
    count := piece;
    if filled > 0 {
      DigestsExtend(hashes0, sha1, Blocks(done, view.Length), view[..filled]);
      ct.SetHash(piece, sha1(view[..filled]));
      count := piece + 1;
    }
  }

  /** Giving up inside file i is what `Expected` says, with the pieces it says. */
  lemma StoppingIsExpected(
    files: seq<SourceFile>, i: nat, before: seq<Byte>, done: seq<Byte>, view: seq<Byte>, filled: nat, piece: nat,
    numPieces: nat, cancel: Option<nat -> bool>, stop: Option<Outcome>)
    requires |view| > 0 && i < |files| && NoneShort(files[..i]) && before == Stream(files[..i])
    requires stop.Some? && FileDone(files[i], i, before, done, view, filled, piece, cancel, stop)
    ensures Expected(files, |view|, numPieces, cancel) == Report(stop.value, Blocks(done, |view|))
  {
    if stop.value.CreationCancelled? {
      var full := Blocks(Stream(files), |view|);
      var n: nat :| n <= |files[i].content| && n <= files[i].size && done == before + files[i].content[..n];
      ConsumedIsPrefix(files, i, n);
      var s := Stream(files);
      assert s == done + s[|done|..];
      BlocksOfPrefix(done, s[|done|..], |view|);
      FirstCancelAt(cancel, |Blocks(done, |view|)| - 1, |full|);
    } else {
      StreamAtShort(files, i);
    }
  }

  lemma ConsumedIsPrefix(files: seq<SourceFile>, i: nat, n: nat)
    requires i < |files| && NoneShort(files[..i]) && n <= |files[i].content| && n <= files[i].size
    ensures Stream(files[..i]) + files[i].content[..n] <= Stream(files)
  {
    StreamSplits(files, i);
    assert files[i..][0] == files[i];
    assert files[i].content[..n] <= Stream(files[i..]);
  }

  /** What a reader may conclude from a normal return on files that kept their size: the digest under
      index i is that of the i-th slice of the concatenated files, and there are just enough of them. */
  lemma HashedMeansPlainDefinition(
    files: seq<SourceFile>, len: nat, numPieces: nat, cancel: Option<nat -> bool>, sha1: seq<Byte> -> Digest)
    requires len > 0 && Expected(files, len, numPieces, cancel).outcome == Hashed
    ensures FirstShort(files) == None
    ensures var s, hashes := Stream(files), WithDigests(map[], sha1, Expected(files, len, numPieces, cancel).pieces);
            && (numPieces - 1) * len < |s| <= numPieces * len
            && (forall i: nat :: i in hashes <==> i < numPieces)
            && forall i: nat :: i < numPieces ==>
                 0 <= i * len < |s| && i * len < (i + 1) * len
                 && hashes[i] == sha1(s[i * len..Min((i + 1) * len, |s|)])
  {
    var s := Stream(files);
    PieceCount(s, len);
    forall i: nat | i < numPieces
      ensures 0 <= i * len < |s| && i * len < (i + 1) * len
      ensures Pieces(s, len)[i] == s[i * len..Min((i + 1) * len, |s|)]
    {
      PieceIsSlice(s, len, i);
    }
  }

  /** Piece k ends inside the stream: it is a full one. */
  predicate PieceFills(k: nat, len: nat, total: nat) { (k + 1) * len <= total }

  /** No poll after a full piece of a stream of `total` bytes answers yes. */
  ghost predicate NeverCancelled(cancel: Option<nat -> bool>, len: nat, total: nat) {
    cancel.Some? ==> forall k: nat :: PieceFills(k, len, total) ==> !cancel.value(k)
  }

  lemma NoFirstCancelIff(cancel: Option<nat -> bool>, s: seq<Byte>, len: nat)
    requires len > 0
    ensures FirstCancel(cancel, |Blocks(s, len)|) == None <==> NeverCancelled(cancel, len, |s|)
  {
    FirstCancelIsLeast(cancel, |Blocks(s, len)|);
    forall k: nat ensures k < |Blocks(s, len)| <==> PieceFills(k, len, |s|) {
      FullPieceCount(s, len, k);
    }
  }

  lemma CountIff(s: seq<Byte>, len: nat, numPieces: nat)
    requires len > 0
    ensures |Pieces(s, len)| == numPieces <==> (numPieces - 1) * len < |s| <= numPieces * len
  {
    PieceCount(s, len);
    if (numPieces - 1) * len < |s| <= numPieces * len {
      ProductOrder(numPieces - 1, |Pieces(s, len)|, len);
      ProductOrder(|Pieces(s, len)| - 1, numPieces, len);
    }
  }

  /** Hashing succeeds if and only if no poll after a full piece answers yes, no file has shrunk and the
      expected count is ceil(total / len). */
  lemma HashedIff(files: seq<SourceFile>, len: nat, numPieces: nat, cancel: Option<nat -> bool>)
    requires len > 0
    ensures Expected(files, len, numPieces, cancel).outcome == Hashed <==>
            && NeverCancelled(cancel, len, |Stream(files)|)
            && NoneShort(files)
            && (numPieces - 1) * len < |Stream(files)| <= numPieces * len
  {
    NoFirstCancelIff(cancel, Stream(files), len);
    ShortIffFirstShort(files);
    CountIff(Stream(files), len, numPieces);
  }

  lemma FullPieceCount(s: seq<Byte>, len: nat, k: nat)
    requires len > 0
    ensures k < |Blocks(s, len)| <==> PieceFills(k, len, |s|)
  {
    RestIsTail(s, len);
    var n := |Blocks(s, len)|;
    if k < n {
      ProductKeepsOrder(k + 1, n, len);
    } else {
      ProductKeepsOrder(n + 1, k + 1, len);
      OneMoreProduct(n, len);
    }
  }

  lemma {:induction false} ShortIffFirstShort(files: seq<SourceFile>)
    ensures FirstShort(files) == None <==> NoneShort(files)
  {
    if files == [] {
    } else {
      ShortIffFirstShort(files[1..]);
      assert NoneShort(files) <==> !Short(files[0]) && NoneShort(files[1..]) by {
        assert forall i :: 0 < i < |files| ==> files[i] == files[1..][i - 1];
      }
    }
  }
}
