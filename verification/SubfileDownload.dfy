/** From an upload to the download of one path: what comes back is what was sent. */
module SubfileDownload {
  import opened Bytes
  import opened LimitStreamer
  import opened SkyfileForPath
  import opened SkyfileReader

  /** What metadata validation demands of the file names of an upload. */
  ghost predicate LegalUpload(parts: seq<Part>) {
    && DistinctNames(parts)
    && (forall p :: p in parts ==> LegalPart(p) && p.filename[0] != '/')
    && |Stream(parts)| < I63
  }

  lemma UploadIsWellNamed(parts: seq<Part>)
    requires LegalUpload(parts)
    ensures WellNamed(SubfilesOf(parts))
  {
    hide Stream, Data;
    var m := SubfilesOf(parts);
    forall k | k in m ensures m[k].filename == k && k != "" && k[0] != '/' && m[k].offset < U64 {
      NamesOfParts(parts, k);
      var i :| 0 <= i < |parts| && parts[i].filename == k;
      EntryOfPart(parts, i);
      PartWindow(parts, i);
      assert parts[i] in parts;
    }
  }

  lemma UploadSizes(parts: seq<Part>, dir: string)
    requires DistinctNames(parts)
    ensures SumLens(SubfilesOf(parts), NamesBelow(SubfilesOf(parts), dir)) <= |Stream(parts)|
  {
    SumLensOfParts(parts, dir);
    FilesNoLarger(parts, dir);
  }

  lemma LeastOffsetOfUpload(parts: seq<Part>, names: set<string>, offset: nat)
    requires LegalUpload(parts) && names <= SubfilesOf(parts).Keys
    requires IsLeastOffset(SubfilesOf(parts), names, offset)
    ensures offset < I63
  {
    hide Stream, Data;
    if names != {} {
      var k :| k in names && SubfilesOf(parts)[k].offset == offset;
      NamesOfParts(parts, k);
      var i :| 0 <= i < |parts| && parts[i].filename == k;
      EntryOfPart(parts, i);
      PartWindow(parts, i);
    }
  }

  /** Serve a path other than the root: nothing if there is no file at or below it, or else the
      window that ForPath gives. */
  method ServePath(parts: seq<Part>, data: seq<byte>, m: Subfiles, path: string)
    returns (served: Option<seq<byte>>, offset: nat)
    requires LegalUpload(parts) && data == Stream(parts) && m == SubfilesOf(parts)
    ensures var p := EnsurePrefix(path, "/");
            if p[1..] in m then
              var e := m[p[1..]];
              offset == e.offset && served == Some(Window(data, e.offset, e.offset + e.len))
            else
              var names := NamesBelow(m, EnsureSuffix(p, "/"));
              && IsLeastOffset(m, names, offset)
              && served == if names == {} then None else Some(Window(data, offset, offset + SumLens(m, names)))
  {
    hide Stream, Window, SubfilesOf, IsLeastOffset, SumLens, NamesBelow, EnsurePrefix, EnsureSuffix, LegalUpload,
      WellNamed;
    UploadIsWellNamed(parts);
    var found, isFile, start, size := ForPath(m, path);
    offset := start;
    if |found| == 0 {
      return None, offset;
    }
    UploadWindow(parts, path, isFile, offset, size);
    var all := ServeWindow(data, offset, size);
    return Some(all), offset;
  }

  /** Everything a limit streamer on a window gives. */
  method ServeWindow(data: seq<byte>, offset: nat, size: nat) returns (all: seq<byte>)
    requires |data| < I63 && offset < I63 && offset + size < U64 && size < I63
    ensures all == Window(data, offset, offset + size)
  {
    hide Window;
    var stream := new SkyfileStreamer(data);
    var ls := NewLimitStreamer(stream, offset, size);
    all := ReadAll(ls.value);
  }

  /** The windows of an upload stay clear of the end of the 64-bit range. */
  lemma UploadWindow(parts: seq<Part>, path: string, isFile: bool, offset: nat, size: nat)
    requires LegalUpload(parts)
    requires var m, p := SubfilesOf(parts), EnsurePrefix(path, "/");
             if p[1..] in m then offset == m[p[1..]].offset && size == m[p[1..]].len
             else
               var names := NamesBelow(m, EnsureSuffix(p, "/"));
               IsLeastOffset(m, names, offset) && size == SumLens(m, names)
    ensures |Stream(parts)| < I63 && offset < I63 && size < I63 && offset + size < U64
  {
    hide Stream;
    var m, p := SubfilesOf(parts), EnsurePrefix(path, "/");
    if p[1..] in m {
      NamesOfParts(parts, p[1..]);
      var i :| 0 <= i < |parts| && parts[i].filename == p[1..];
      EntryOfPart(parts, i);
      PartWindow(parts, i);
    } else {
      UploadSizes(parts, EnsureSuffix(p, "/"));
      LeastOffsetOfUpload(parts, NamesBelow(m, EnsureSuffix(p, "/")), offset);
    }
  }

  lemma WholeWindow(data: seq<byte>, a: nat, b: nat)
    requires a <= b <= |data|
    ensures Window(data, a, b) == data[a..b]
  {
  }

  /** An exact file is served byte for byte, whatever else was uploaded around it. */
  lemma FileServed(parts: seq<Part>, i: nat)
    requires DistinctNames(parts) && i < |parts|
    ensures parts[i].filename in SubfilesOf(parts)
    ensures var e := SubfilesOf(parts)[parts[i].filename];
            Window(Stream(parts), e.offset, e.offset + e.len) == Data(parts[i])
  {
    hide Stream, Data, Window, SubfilesOf, DistinctNames;
    EntryOfPart(parts, i);
    PartWindow(parts, i);
    var e := EntryOf(parts[i], |Stream(parts[..i])|);
    WholeWindow(Stream(parts), e.offset, e.offset + e.len);
  }

  /** Part i is the first one below a directory. */
  ghost predicate FirstBelow(parts: seq<Part>, dir: string, i: nat) {
    i < |parts| && Below(parts[i].filename, dir) && forall k :: 0 <= k < i ==> !Below(parts[k].filename, dir)
  }

  /** The window of a directory: as many bytes as its files have, from its first part on. */
  lemma DirectoryWindow(parts: seq<Part>, dir: string, i: nat)
    requires DistinctNames(parts) && FirstBelow(parts, dir, i)
    ensures var m, offset := SubfilesOf(parts), |Stream(parts[..i])|;
            && IsLeastOffset(m, NamesBelow(m, dir), offset)
            && |FilesBelow(parts, dir)| <= |Stream(parts[i..])|
            && Window(Stream(parts), offset, offset + SumLens(m, NamesBelow(m, dir)))
               == Stream(parts[i..])[..|FilesBelow(parts, dir)|]
            && FilesBelow(parts, dir) == FilesBelow(parts[i..], dir)
  {
    hide Stream, Data, Window, SubfilesOf, SumLens, NamesBelow, IsLeastOffset, FilesBelow, DistinctNames;
    var offset := |Stream(parts[..i])|;
    DirectoryOffset(parts, dir, i, offset);
    SumLensOfParts(parts, dir);
    NoFilesBelow(parts[..i], dir);
    FilesAppend(parts[..i], parts[i..], dir);
    assert parts[..i] + parts[i..] == parts;
    assert [] + FilesBelow(parts[i..], dir) == FilesBelow(parts[i..], dir);
    FilesNoLarger(parts[i..], dir);
    StreamSplit(parts, i);
    WholeWindow(Stream(parts), offset, offset + |FilesBelow(parts, dir)|);
    BehindPrefix(Stream(parts[..i]), Stream(parts[i..]), |FilesBelow(parts, dir)|);
  }

  lemma BehindPrefix(x: seq<byte>, y: seq<byte>, n: nat)
    requires n <= |y|
    ensures (x + y)[|x|..|x| + n] == y[..n]
  {
  }

  /** A directory is served as its files, one after another. */
  ghost predicate ServesFiles(parts: seq<Part>, dir: string) {
    var m := SubfilesOf(parts);
    forall offset: nat :: IsLeastOffset(m, NamesBelow(m, dir), offset) ==>
      Window(Stream(parts), offset, offset + SumLens(m, NamesBelow(m, dir))) == FilesBelow(parts, dir)
  }

  /** The directory's window holds its files exactly if the stream goes on with them. */
  lemma ServesFilesIff(parts: seq<Part>, dir: string, i: nat)
    requires DistinctNames(parts) && FirstBelow(parts, dir, i)
    ensures ServesFiles(parts, dir) <==> FilesBelow(parts[i..], dir) <= Stream(parts[i..])
  {
    hide Stream, Data, Window, SubfilesOf, SumLens, NamesBelow, IsLeastOffset, FilesBelow, DistinctNames;
    DirectoryWindow(parts, dir, i);
    forall offset: nat | IsLeastOffset(SubfilesOf(parts), NamesBelow(SubfilesOf(parts), dir), offset)
      ensures offset == |Stream(parts[..i])|
    {
      DirectoryOffset(parts, dir, i, offset);
    }
  }

  /** Uploads with the same headers and the same lengths. */
  ghost predicate SameShape(parts: seq<Part>, other: seq<Part>) {
    && |other| == |parts|
    && forall k :: 0 <= k < |parts| ==> SameHeaders(parts[k], other[k]) && |Data(parts[k])| == |Data(other[k])|
  }

  predicate SameHeaders(p: Part, q: Part) {
    p.formName == q.formName && p.filename == q.filename && p.mode == q.mode && p.contentType == q.contentType
  }

  lemma SameShapeOfRest(parts: seq<Part>, other: seq<Part>, dir: string, i: nat)
    requires SameShape(parts, other) && FirstBelow(parts, dir, i) && DistinctNames(parts)
    ensures DistinctNames(other) && FirstBelow(other, dir, i)
    ensures Unmixed(parts[i..], dir) <==> Unmixed(other[i..], dir)
  {
    hide Data;
    forall k | 0 <= k < |parts| ensures other[k].filename == parts[k].filename {
      assert SameHeaders(parts[k], other[k]);
    }
    var a, b := parts[i..], other[i..];
    forall k | 0 <= k < |a|
      ensures SameHeaders(a[k], b[k]) && SameHeaders(b[k], a[k]) && |Data(a[k])| == |Data(b[k])|
    {
      assert a[k] == parts[i + k] && b[k] == other[i + k];
      assert SameHeaders(parts[i + k], other[i + k]);
    }
    if Unmixed(a, dir) {
      SameMixture(a, b, dir);
    }
    if Unmixed(b, dir) {
      SameMixture(b, a, dir);
    }
  }

  lemma SameMixture(parts: seq<Part>, other: seq<Part>, dir: string)
    requires SameShape(parts, other) && Unmixed(parts, dir)
    ensures Unmixed(other, dir)
  {
    hide Data;
    forall k, j | 0 <= k < j < |other| && IsForeign(other[k], dir) ensures OwnBytes(other[j], dir) == [] {
      assert SameHeaders(parts[k], other[k]) && SameHeaders(parts[j], other[j]);
      assert |Data(parts[k])| == |Data(other[k])| && |Data(parts[j])| == |Data(other[j])|;
      assert IsForeign(parts[k], dir);
    }
  }

  function Mark(n: nat, b: byte): (s: seq<byte>)
    ensures |s| == n && forall k :: 0 <= k < n ==> s[k] == b
  {
    seq(n, _ => b)
  }

  /** The same upload with marked files. */
  ghost function Markers(parts: seq<Part>, dir: string): (w: seq<Part>)
    ensures |w| == |parts|
  {
    seq(|parts|, k requires 0 <= k < |parts| =>
      parts[k].(pieces := [Mark(|Data(parts[k])|, if Below(parts[k].filename, dir) then 0 else 1)]))
  }

  lemma MarkersFit(parts: seq<Part>, dir: string, i: nat)
    requires i <= |parts|
    ensures SameShape(parts, Markers(parts, dir)) && Marked(Markers(parts, dir)[i..], dir)
  {
    var w := Markers(parts, dir);
    forall k | 0 <= k < |parts|
      ensures SameHeaders(parts[k], w[k]) && |Data(parts[k])| == |Data(w[k])| && MarkedPart(w[k], dir)
    {
      var b := Mark(|Data(parts[k])|, if Below(parts[k].filename, dir) then 0 else 1);
      OnePiece(w[k], b);
    }
  }

  /** A directory is served as its files, whatever they contain, if and only if no bytes of other files
      were uploaded between its first part and the last byte of its files. */
  lemma DirectoryServedIff(parts: seq<Part>, dir: string, i: nat)
    requires DistinctNames(parts) && FirstBelow(parts, dir, i)
    ensures Unmixed(parts[i..], dir) <==> forall other :: SameShape(parts, other) ==> ServesFiles(other, dir)
  {
    hide Stream, Data, FilesBelow, Unmixed, Marked, DistinctNames, FirstBelow, ServesFiles, SameShape, Markers;
    InRange(parts, dir, i);
    if Unmixed(parts[i..], dir) {
      forall other | SameShape(parts, other) ensures ServesFiles(other, dir) {
        SameShapeOfRest(parts, other, dir, i);
        InRange(other, dir, i);
        UnmixedIsPrefix(other[i..], dir);
        ServesFilesIff(other, dir, i);
      }
    } else {
      var w := Markers(parts, dir);
      MarkersFit(parts, dir, i);
      SameShapeOfRest(parts, w, dir, i);
      MixedIsNoPrefix(w[i..], dir);
      ServesFilesIff(w, dir, i);
    }
  }

  lemma InRange(parts: seq<Part>, dir: string, i: nat)
    requires FirstBelow(parts, dir, i)
    ensures i < |parts|
  {
  }

  function OneByteFile(name: string, x: byte): Part {
    Part("file", name, Some(0), "", [[x]], false)
  }

  lemma ThreeFiles(a: string, b: string, c: string, x: byte, y: byte, z: byte, dir: string)
    requires Below(a, dir) && !Below(b, dir) && Below(c, dir)
    ensures var parts := [OneByteFile(a, x), OneByteFile(b, y), OneByteFile(c, z)];
            Stream(parts) == [x, y, z] && FilesBelow(parts, dir) == [x, z]
  {
    hide Data, Stream, FilesBelow;
    var p, q, r := OneByteFile(a, x), OneByteFile(b, y), OneByteFile(c, z);
    OnePiece(p, [x]);
    OnePiece(q, [y]);
    OnePiece(r, [z]);
    StreamOne(p);
    StreamOne(q);
    StreamOne(r);
    StreamAppend([q], [r]);
    StreamAppend([p], [q, r]);
    FilesOfOne(p, dir);
    FilesOfOne(q, dir);
    FilesOfOne(r, dir);
    FilesAppend([q], [r], dir);
    FilesAppend([p], [q, r], dir);
    assert [q] + [r] == [q, r] && [p] + [q, r] == [p, q, r];
  }

  lemma MixedNames()
    ensures Below("d/a", "/d/") && !Below("b", "/d/") && Below("d/c", "/d/")
    ensures "d/a" != "b" && "d/a" != "d/c" && "b" != "d/c"
  {
    assert "/" + "d/a" == "/d/a" && "/" + "d/c" == "/d/c" && "/" + "b" == "/b";
    assert "/d/a"[..3] == "/d/" == "/d/c"[..3] && "/b"[1] != "/d/"[1] && "d/a"[2] != "d/c"[2];
    assert |"d/a"| != |"b"| && |"b"| != |"d/c"|;
  }

  /** An upload of three one-byte files whose directory is served as its first file and a byte of another
      one. */
  lemma SomeDirectoryIsMixed()
    ensures var parts := [OneByteFile("d/a", 1), OneByteFile("b", 2), OneByteFile("d/c", 3)];
            LegalUpload(parts) && FilesBelow(parts, "/d/") == [1, 3] && !ServesFiles(parts, "/d/")
  {
    hide Stream, FilesBelow, Below, ServesFiles, Data;
    var parts := [OneByteFile("d/a", 1), OneByteFile("b", 2), OneByteFile("d/c", 3)];
    MixedNames();
    ThreeFiles("d/a", "b", "d/c", 1, 2, 3, "/d/");
    assert parts[0..] == parts;
    ServesFilesIff(parts, "/d/", 0);
    assert [1, 3][1] != [1, 2, 3][1];
  }

  lemma OnePiece(p: Part, piece: seq<byte>)
    requires p.pieces == [piece]
    ensures Data(p) == piece
  {
    ConcatOfNothing();
    assert p.pieces[1..] == [] && piece + [] == piece;
  }

  /** A directory is served as the bytes from its first part on, as many as its files have, which are its files
      if nothing is mixed in; if there is nothing below it, it is not found. */
  ghost predicate DirectoryServed(parts: seq<Part>, dir: string, served: Option<seq<byte>>) {
    && (NothingBelow(parts, dir) ==> served == None)
    && forall i: nat :: FirstBelow(parts, dir, i) ==>
         && |FilesBelow(parts, dir)| <= |Stream(parts[i..])|
         && served == Some(Stream(parts[i..])[..|FilesBelow(parts, dir)|])
         && (Unmixed(parts[i..], dir) ==> served == Some(FilesBelow(parts, dir)))
  }

  ghost predicate NothingBelow(parts: seq<Part>, dir: string) {
    forall i :: 0 <= i < |parts| ==> !Below(parts[i].filename, dir)
  }

  ghost predicate IsName(parts: seq<Part>, name: string) {
    exists i :: 0 <= i < |parts| && parts[i].filename == name
  }

  lemma WindowServed(parts: seq<Part>, dir: string, offset: nat, served: Option<seq<byte>>)
    requires DistinctNames(parts)
    requires var m := SubfilesOf(parts);
             var names := NamesBelow(m, dir);
             && IsLeastOffset(m, names, offset)
             && served == if names == {} then None else Some(Window(Stream(parts), offset, offset + SumLens(m, names)))
    ensures DirectoryServed(parts, dir, served)
  {
    hide Stream, Data, Window, SubfilesOf, Unmixed, FilesBelow, SumLens, IsLeastOffset;
    var m := SubfilesOf(parts);
    if NothingBelow(parts, dir) {
      forall name | name in m ensures !Below(name, dir) {
        NamesOfParts(parts, name);
      }
      assert NamesBelow(m, dir) == {};
    }
    forall i: nat | FirstBelow(parts, dir, i)
      ensures |FilesBelow(parts, dir)| <= |Stream(parts[i..])|
      ensures served == Some(Stream(parts[i..])[..|FilesBelow(parts, dir)|])
      ensures Unmixed(parts[i..], dir) ==> served == Some(FilesBelow(parts, dir))
    {
      DirectoryOffset(parts, dir, i, offset);
      DirectoryWindow(parts, dir, i);
      EntryOfPart(parts, i);
      assert parts[i].filename in NamesBelow(m, dir);
      if Unmixed(parts[i..], dir) {
        UnmixedIsPrefix(parts[i..], dir);
        assert Stream(parts[i..])[..|FilesBelow(parts, dir)|] == FilesBelow(parts[i..], dir);
      }
    }
  }

  /** The entries of a directory are relative to its window: behind the first part of the directory, every file
      below it lies at its own offset. */
  lemma RelativeEntry(parts: seq<Part>, dir: string, i: nat, k: nat)
    requires DistinctNames(parts) && FirstBelow(parts, dir, i)
    requires i <= k < |parts| && Below(parts[k].filename, dir)
    ensures parts[i].filename in SubfilesOf(parts) && parts[k].filename in SubfilesOf(parts)
    ensures var (first, sf) := (SubfilesOf(parts)[parts[i].filename], SubfilesOf(parts)[parts[k].filename]);
            && first.offset <= sf.offset
            && var o := sf.offset - first.offset;
               o + sf.len <= |Stream(parts[i..])| && Stream(parts[i..])[o..o + sf.len] == Data(parts[k])
  {
    hide Stream, Data, SubfilesOf;
    EntryOfPart(parts, i);
    EntryOfPart(parts, k);
    StreamMono(parts, i, k);
    PartWindow(parts, k);
    StreamSplit(parts, i);
    var sf := SubfilesOf(parts)[parts[k].filename];
    SubSlice(Stream(parts), |Stream(parts[..i])|, |Stream(parts)|,
             sf.offset - |Stream(parts[..i])|, sf.offset - |Stream(parts[..i])| + sf.len);
    assert Stream(parts)[|Stream(parts[..i])|..] == Stream(parts[i..]);
  }

  /** Upload with any schedule of reads, then download one path: the name of a file, with or without a slash
      before it, gives the file; a directory, with or without slashes around it, is served if no file has the
      name asked for; and so is the root. */
  method UploadThenDownload(parts: seq<Part>, schedule: seq<nat>, path: string)
    returns (served: Option<seq<byte>>, done: bool)
    requires LegalUpload(parts)
    ensures done ==> forall i: nat :: i < |parts| && (path == parts[i].filename || path == "/" + parts[i].filename) ==>
              served == Some(Data(parts[i]))
    ensures done ==> forall d :: AsksFor(path, d) && !IsName(parts, d) && !IsName(parts, d + "/") ==>
              DirectoryServed(parts, "/" + d + "/", served)
    ensures done && (path == "" || path == "/") ==> DirectoryServed(parts, "/", served)
    ensures done && EnsurePrefix(path, "/")[1..] !in SubfilesOf(parts) ==>
              DirectoryServed(parts, EnsureSuffix(EnsurePrefix(path, "/"), "/"), served)
  {
    hide Stream, Data, Window, SubfilesOf, EnsurePrefix, EnsureSuffix, SumLens, IsLeastOffset, DirectoryServed,
      AsksFor, IsName;
    var stream, r, finished := ReadUpload(parts, schedule);
    if !finished {
      return None, false;
    }
    var offset;
    served, offset := ServePath(parts, stream, r.subfiles, path);
    done := true;
    ghost var p := EnsurePrefix(path, "/");
    forall i: nat | i < |parts| && (path == parts[i].filename || path == "/" + parts[i].filename)
      ensures served == Some(Data(parts[i]))
    {
      assert parts[i] in parts;
      PathOfName(path, parts[i].filename);
      FileServed(parts, i);
    }
    if p[1..] !in SubfilesOf(parts) {
      WindowServed(parts, EnsureSuffix(p, "/"), offset, served);
    }
    forall d | AsksFor(path, d) && !IsName(parts, d) && !IsName(parts, d + "/")
      ensures DirectoryServed(parts, "/" + d + "/", served)
    {
      PathOfDirectory(path, d);
      NotAName(parts, d);
      NotAName(parts, d + "/");
    }
    if path == "" || path == "/" {
      PathOfRoot(path);
      NoEmptyName(parts);
    }
  }

  lemma NotAName(parts: seq<Part>, name: string)
    requires !IsName(parts, name)
    ensures name !in SubfilesOf(parts)
  {
    NamesOfParts(parts, name);
  }

  lemma NoEmptyName(parts: seq<Part>)
    requires LegalUpload(parts)
    ensures "" !in SubfilesOf(parts)
  {
    hide Stream;
    forall i | 0 <= i < |parts| ensures parts[i].filename != "" {
      assert parts[i] in parts;
    }
    NamesOfParts(parts, "");
  }
}
