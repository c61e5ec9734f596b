/** SkyfileMetadata.ForPath: the subfiles below a path, with offsets relative to the first of them,
    and the window of the stream they occupy. */
module SkyfileForPath {
  import opened Bytes
  import opened SkyfileReader

  function EnsurePrefix(s: string, prefix: string): (r: string)
    ensures prefix <= r
  {
    if prefix <= s then s else prefix + s
  }

  function EnsureSuffix(s: string, suffix: string): string {
    if |suffix| <= |s| && s[|s| - |suffix|..] == suffix then s else s + suffix
  }

  /** A path to a name, with or without the leading slash. */
  lemma PathOfName(path: string, name: string)
    requires name == "" || name[0] != '/'
    requires path == name || path == "/" + name
    ensures EnsurePrefix(path, "/") == "/" + name && ("/" + name)[1..] == name
  {
  }

  /** The path asks for the directory d, with or without slashes around it. */
  predicate AsksFor(path: string, d: string) {
    && d != "" && d[0] != '/' && d[|d| - 1] != '/'
    && (path == d || path == "/" + d || path == d + "/" || path == "/" + d + "/")
  }

  lemma PathOfDirectory(path: string, d: string)
    requires AsksFor(path, d)
    ensures EnsureSuffix(EnsurePrefix(path, "/"), "/") == "/" + d + "/"
    ensures EnsurePrefix(path, "/")[1..] == d || EnsurePrefix(path, "/")[1..] == d + "/"
  {
    var p := EnsurePrefix(path, "/");
    if path == d || path == "/" + d {
      PathOfName(path, d);
      assert p[|p| - 1] == d[|d| - 1];
    } else {
      PathOfName(path, d + "/");
      assert p == "/" + d + "/" && p[|p| - 1..] == "/";
    }
  }

  lemma PathOfRoot(path: string)
    requires path == "" || path == "/"
    ensures EnsureSuffix(EnsurePrefix(path, "/"), "/") == "/" && EnsurePrefix(path, "/")[1..] == ""
  {
    PathOfName(path, "");
  }

  /** Validated metadata: every key is the name of its subfile, which is not empty and not absolute,
      and offsets are 64-bit numbers. */
  ghost predicate WellNamed(m: Subfiles) {
    forall k :: k in m ==> m[k].filename == k && k != "" && k[0] != '/' && m[k].offset < U64
  }

  /** The absolute name of a subfile lies below a directory path. */
  predicate Below(name: string, dir: string) {
    dir <= "/" + name
  }

  ghost function NamesBelow(m: Subfiles, dir: string): (names: set<string>)
    ensures names <= m.Keys
  {
    set k | k in m && Below(k, dir)
  }

  ghost function SumLens(m: Subfiles, names: set<string>): nat
    requires names <= m.Keys
  {
    if names == {} then 0
    else
      var k :| k in names;
      m[k].len + SumLens(m, names - {k})
  }

  /** The order of summing does not matter. */
  lemma {:induction false} SumLensRemove(m: Subfiles, names: set<string>, k: string)
    requires names <= m.Keys && k in names
    ensures SumLens(m, names) == m[k].len + SumLens(m, names - {k})
  {
    var j :| j in names && SumLens(m, names) == m[j].len + SumLens(m, names - {j});
    if j != k {
      SumLensRemove(m, names - {j}, k);
      SumLensRemove(m, names - {k}, j);
      assert names - {j} - {k} == names - {k} - {j};
    }
  }

  lemma {:induction false} SumLensSame(m: Subfiles, m': Subfiles, names: set<string>)
    requires names <= m.Keys && names <= m'.Keys && forall k :: k in names ==> m[k].len == m'[k].len
    ensures SumLens(m, names) == SumLens(m', names)
  {
    if names != {} {
      var k :| k in names;
      SumLensRemove(m, names, k);
      SumLensRemove(m', names, k);
      SumLensSame(m, m', names - {k});
    }
  }

  ghost predicate IsLeastOffset(m: Subfiles, names: set<string>, offset: nat)
    requires names <= m.Keys
  {
    if names == {} then offset == 0
    else (exists k :: k in names && m[k].offset == offset) && forall k :: k in names ==> offset <= m[k].offset
  }

  function Relative(m: Subfiles, names: set<string>, offset: nat): Subfiles
    requires names <= m.Keys && forall k :: k in names ==> offset <= m[k].offset
  {
    map k | k in names :: m[k].(offset := m[k].offset - offset)
  }

  lemma AbsoluteName(k: string, path: string)
    requires k != "" && k[0] != '/' && "/" <= path
    ensures EnsurePrefix(k, "/") == "/" + k
    ensures EnsurePrefix(k, "/") == path <==> k == path[1..]
  {
    assert path == "/" + path[1..];
    assert ("/" + k)[1..] == k;
  }

  /** Search for an exact match; the order of the map does not matter. */
  method FindExact(m: Subfiles, path: string) returns (name: Option<string>)
    requires WellNamed(m) && "/" <= path
    ensures name == if path[1..] in m then Some(path[1..]) else None
  {
    var keys := m.Keys;
    while keys != {}
      invariant keys <= m.Keys && (path[1..] in m ==> path[1..] in keys)
      decreases keys
    {
      var k :| k in keys;
      keys := keys - {k};
      AbsoluteName(k, path);
      if EnsurePrefix(m[k].filename, "/") == path {
        return Some(k);
      }
    }
    return None;
  }

  /** Collect the subfiles below a directory. */
  method CollectBelow(m: Subfiles, dir: string) returns (names: set<string>)
    requires WellNamed(m)
    ensures names == NamesBelow(m, dir)
  {
    names := {};
    var keys := m.Keys;
    while keys != {}
      invariant keys <= m.Keys && names == set k | k in m && k !in keys && Below(k, dir)
      decreases keys
    {
      var k :| k in keys;
      keys := keys - {k};
      AbsoluteName(k, "/");
      if dir <= EnsurePrefix(m[k].filename, "/") {
        names := names + {k};
      }
    }
  }

  /** offset(): the smallest offset, starting from the largest 64-bit number. */
  method LeastOffset(m: Subfiles, names: set<string>) returns (min: nat)
    requires WellNamed(m) && names <= m.Keys
    ensures IsLeastOffset(m, names, min)
  {
    if names == {} {
      return 0;
    }
    min := U64 - 1;
    var keys := names;
    ghost var seen: set<string> := {};
    while keys != {}
      invariant keys + seen == names
      invariant forall k :: k in seen ==> min <= m[k].offset
      invariant min == U64 - 1 || exists k :: k in seen && m[k].offset == min
      decreases keys
    {
      var k :| k in keys;
      keys := keys - {k};
      if m[k].offset < min {
        min := m[k].offset;
      }
      seen := seen + {k};
    }
    assert seen == names;
    if min == U64 - 1 {
      var k :| k in names;
      assert m[k].offset == min;
    }
  }

  /** size(): the sum of the lengths. */
  method SumOfLens(m: Subfiles, names: set<string>) returns (total: nat)
    requires names <= m.Keys
    ensures total == SumLens(m, names)
  {
    total := 0;
    var keys := names;
    while keys != {}
      invariant keys <= names && total + SumLens(m, keys) == SumLens(m, names)
      decreases keys
    {
      var k :| k in keys;
      SumLensRemove(m, keys, k);
      keys := keys - {k};
      total := total + m[k].len;
    }
  }

  /** ForPath. An exact file gives its own window; a directory gives everything below it, from the
      smallest offset on, with the sum of the lengths as its size. */
  method ForPath(m: Subfiles, path: string) returns (found: Subfiles, isFile: bool, offset: nat, size: nat)
    requires WellNamed(m)
    ensures var p := EnsurePrefix(path, "/");
            if p[1..] in m then
              var sf := m[p[1..]];
              isFile && found == map[p[1..] := sf.(offset := 0)] && offset == sf.offset && size == sf.len
            else
              var names := NamesBelow(m, EnsureSuffix(p, "/"));
              && !isFile
              && IsLeastOffset(m, names, offset)
              && found.Keys == names
              && (forall k :: k in names ==> offset <= m[k].offset && found[k] == m[k].(offset := m[k].offset - offset))
              && size == SumLens(m, names)
  {
    var p := EnsurePrefix(path, "/");
    var exact := FindExact(m, p);
    var names: set<string>;
    isFile := exact.Some?;
    if isFile {
      names := {exact.value};
    } else {
      names := CollectBelow(m, EnsureSuffix(p, "/"));
    }
    offset := LeastOffset(m, names);
    found := Relative(m, names, offset);
    size := SumOfLens(m, names);
    if isFile {
      SumLensRemove(m, names, exact.value);
      assert names - {exact.value} == {};
      assert found == map[p[1..] := m[p[1..]].(offset := 0)];
    }
  }

  // ----- Windows of an upload --------------------------------------------------------------

  lemma StreamSplit(parts: seq<Part>, i: nat)
    requires i <= |parts|
    ensures Stream(parts) == Stream(parts[..i]) + Stream(parts[i..])
  {
    assert parts == parts[..i] + parts[i..];
    StreamAppend(parts[..i], parts[i..]);
  }

  lemma StreamNext(parts: seq<Part>, i: nat)
    requires i < |parts|
    ensures Stream(parts[..i + 1]) == Stream(parts[..i]) + Data(parts[i])
  {
    assert parts[..i + 1] == parts[..i] + [parts[i]];
    StreamAppend(parts[..i], [parts[i]]);
    StreamOne(parts[i]);
  }

  /** The window of an entry holds exactly the bytes of its part. */
  lemma PartWindow(parts: seq<Part>, i: nat)
    requires i < |parts|
    ensures var e := EntryOf(parts[i], |Stream(parts[..i])|);
            e.offset + e.len <= |Stream(parts)| && Stream(parts)[e.offset..e.offset + e.len] == Data(parts[i])
  {
    hide Stream, Data;
    StreamSplit(parts, i + 1);
    StreamNext(parts, i);
  }

  /** The files below a directory, one after another. */
  ghost function FilesBelow(parts: seq<Part>, dir: string): seq<byte> {
    if parts == [] then [] else OwnBytes(parts[0], dir) + FilesBelow(parts[1..], dir)
  }

  /** What a part contributes to a directory. */
  ghost function OwnBytes(p: Part, dir: string): seq<byte> {
    if Below(p.filename, dir) then Data(p) else []
  }

  lemma {:induction false} FilesAppend(a: seq<Part>, b: seq<Part>, dir: string)
    ensures FilesBelow(a + b, dir) == FilesBelow(a, dir) + FilesBelow(b, dir)
  {
    hide OwnBytes;
    if a == [] {
      assert a + b == b;
      assert FilesBelow(a, dir) + FilesBelow(b, dir) == FilesBelow(b, dir);
    } else {
      FilesAppend(a[1..], b, dir);
      assert (a + b)[0] == a[0] && (a + b)[1..] == a[1..] + b;
      PlusAssoc(OwnBytes(a[0], dir), FilesBelow(a[1..], dir), FilesBelow(b, dir));
    }
  }

  lemma FilesOfOne(p: Part, dir: string)
    ensures FilesBelow([p], dir) == OwnBytes(p, dir)
  {
    hide OwnBytes;
    assert [p][1..] == [];
    assert OwnBytes(p, dir) + [] == OwnBytes(p, dir);
  }

  lemma {:induction false} FilesNoLarger(parts: seq<Part>, dir: string)
    ensures |FilesBelow(parts, dir)| <= |Stream(parts)|
  {
    hide Data;
    if parts != [] {
      FilesNoLarger(parts[1..], dir);
    }
  }

  lemma {:induction false} NoFilesBelow(parts: seq<Part>, dir: string)
    requires forall k :: 0 <= k < |parts| ==> OwnBytes(parts[k], dir) == []
    ensures FilesBelow(parts, dir) == []
  {
    hide OwnBytes;
    if parts != [] {
      NoFilesBelow(parts[1..], dir);
    }
  }

  /** The size of a directory is the length of its files. */
  lemma {:induction false} SumLensOfParts(parts: seq<Part>, dir: string)
    requires DistinctNames(parts)
    ensures SumLens(SubfilesOf(parts), NamesBelow(SubfilesOf(parts), dir)) == |FilesBelow(parts, dir)|
  {
    hide Stream, Data, FilesBelow;
    if parts != [] {
      var front, last := parts[..|parts| - 1], parts[|parts| - 1];
      SumLensOfParts(front, dir);
      NamesOfParts(front, last.filename);
      assert parts == front + [last];
      FilesAppend(front, [last], dir);
      FilesOfOne(last, dir);
      var m0, m := SubfilesOf(front), SubfilesOf(parts);
      var s0, s := NamesBelow(m0, dir), NamesBelow(m, dir);
      assert last.filename !in m0;
      assert s - {last.filename} == s0;
      SumLensSame(m, m0, s0);
      if Below(last.filename, dir) {
        SumLensRemove(m, s, last.filename);
      } else {
        assert s == s0;
      }
    } else {
      NoFilesBelow(parts, dir);
    }
  }

  /** No bytes of other files come before a byte of the directory's files. */
  ghost predicate Unmixed(parts: seq<Part>, dir: string) {
    forall k, j :: 0 <= k < j < |parts| && IsForeign(parts[k], dir) ==> OwnBytes(parts[j], dir) == []
  }

  /** A part with bytes that does not belong to the directory. */
  ghost predicate IsForeign(p: Part, dir: string) {
    !Below(p.filename, dir) && Data(p) != []
  }

  lemma UnmixedRest(parts: seq<Part>, dir: string)
    requires parts != []
    ensures Unmixed(parts, dir) ==> Unmixed(parts[1..], dir)
    ensures Unmixed(parts[1..], dir) && !IsForeign(parts[0], dir) ==> Unmixed(parts, dir)
    ensures Unmixed(parts, dir) && IsForeign(parts[0], dir) ==> FilesBelow(parts[1..], dir) == []
    ensures FilesBelow(parts[1..], dir) == [] ==> Unmixed(parts, dir)
  {
    hide IsForeign, OwnBytes, FilesBelow;
    var rest := parts[1..];
    if Unmixed(rest, dir) && !IsForeign(parts[0], dir) {
      forall k, j | 0 <= k < j < |parts| && IsForeign(parts[k], dir) ensures OwnBytes(parts[j], dir) == [] {
        assert rest[k - 1] == parts[k] && rest[j - 1] == parts[j];
      }
    }
    if Unmixed(parts, dir) && IsForeign(parts[0], dir) {
      NoFilesBelow(rest, dir);
    }
    if FilesBelow(rest, dir) == [] {
      forall j | 0 < j < |parts| ensures OwnBytes(parts[j], dir) == [] {
        OwnBytesInFiles(rest, dir, j - 1);
      }
    }
  }

  lemma {:induction false} OwnBytesInFiles(parts: seq<Part>, dir: string, j: nat)
    requires j < |parts|
    ensures |OwnBytes(parts[j], dir)| <= |FilesBelow(parts, dir)|
  {
    hide OwnBytes;
    if j > 0 {
      OwnBytesInFiles(parts[1..], dir, j - 1);
    }
  }

  /** Without foreign bytes in between, the files are what the stream begins with. */
  lemma {:induction false} UnmixedIsPrefix(parts: seq<Part>, dir: string)
    requires Unmixed(parts, dir)
    ensures FilesBelow(parts, dir) <= Stream(parts)
  {
    hide Data, Unmixed;
    if parts != [] {
      UnmixedRest(parts, dir);
      UnmixedIsPrefix(parts[1..], dir);
      if Below(parts[0].filename, dir) {
        PrefixBehind(Data(parts[0]), FilesBelow(parts[1..], dir), Stream(parts[1..]));
      } else {
        assert [] + FilesBelow(parts[1..], dir) == FilesBelow(parts[1..], dir);
        assert Data(parts[0]) == [] ==> Stream(parts) == Stream(parts[1..]);
      }
    }
  }

  lemma PrefixBehind(x: seq<byte>, a: seq<byte>, b: seq<byte>)
    ensures x + a <= x + b <==> a <= b
  {
    if x + a <= x + b {
      assert (x + b)[|x|..|x| + |a|] == (x + a)[|x|..];
      assert b[..|a|] == a;
    }
  }

  /** Own files of zeros among foreign files of ones. */
  ghost predicate Marked(parts: seq<Part>, dir: string) {
    forall k :: 0 <= k < |parts| ==> MarkedPart(parts[k], dir)
  }

  ghost predicate MarkedPart(p: Part, dir: string) {
    var d := Data(p);
    forall b :: 0 <= b < |d| ==> d[b] == if Below(p.filename, dir) then 0 else 1
  }

  /** With marked files, foreign bytes in between always show. */
  lemma {:induction false} MixedIsNoPrefix(parts: seq<Part>, dir: string)
    requires !Unmixed(parts, dir) && Marked(parts, dir)
    ensures !(FilesBelow(parts, dir) <= Stream(parts))
  {
    hide Data, Unmixed, MarkedPart;
    MixedIsNotEmpty(parts, dir);
    var rest := parts[1..];
    UnmixedRest(parts, dir);
    assert MarkedPart(parts[0], dir);
    if IsForeign(parts[0], dir) {
      FilesAreZero(parts, dir);
      FirstIsOne(parts[0], Stream(rest), dir);
      assert [] + FilesBelow(rest, dir) == FilesBelow(rest, dir);
    } else {
      MixedIsNoPrefix(rest, dir);
      if Below(parts[0].filename, dir) {
        PrefixBehind(Data(parts[0]), FilesBelow(rest, dir), Stream(rest));
      } else {
        assert [] + FilesBelow(rest, dir) == FilesBelow(rest, dir) && [] + Stream(rest) == Stream(rest);
      }
    }
  }

  lemma MixedIsNotEmpty(parts: seq<Part>, dir: string)
    requires !Unmixed(parts, dir)
    ensures parts != []
  {
  }

  lemma FirstIsOne(p: Part, rest: seq<byte>, dir: string)
    requires IsForeign(p, dir) && MarkedPart(p, dir)
    ensures (Data(p) + rest)[0] == 1
  {
  }

  lemma {:induction false} FilesAreZero(parts: seq<Part>, dir: string)
    requires Marked(parts, dir)
    ensures forall b :: 0 <= b < |FilesBelow(parts, dir)| ==> FilesBelow(parts, dir)[b] == 0
  {
    if parts != [] {
      FilesAreZero(parts[1..], dir);
      assert MarkedPart(parts[0], dir);
    }
  }

  /** Offsets grow along the upload, so the window of a directory starts with its first part. */
  lemma DirectoryOffset(parts: seq<Part>, dir: string, i: nat, offset: nat)
    requires DistinctNames(parts) && i < |parts| && Below(parts[i].filename, dir)
    requires forall k :: 0 <= k < i ==> !Below(parts[k].filename, dir)
    ensures IsLeastOffset(SubfilesOf(parts), NamesBelow(SubfilesOf(parts), dir), offset)
            <==> offset == |Stream(parts[..i])|
  {
    hide Stream, Data, SubfilesOf;
    var m := SubfilesOf(parts);
    var names := NamesBelow(m, dir);
    EntryOfPart(parts, i);
    assert parts[i].filename in names && m[parts[i].filename].offset == |Stream(parts[..i])|;
    forall name | name in names ensures m[name].offset >= |Stream(parts[..i])| {
      NamesOfParts(parts, name);
      var k :| 0 <= k < |parts| && parts[k].filename == name;
      EntryOfPart(parts, k);
      StreamMono(parts, i, k);
    }
  }

  lemma StreamMono(parts: seq<Part>, i: nat, k: nat)
    requires i <= k <= |parts|
    ensures |Stream(parts[..i])| <= |Stream(parts[..k])|
  {
    StreamSplit(parts[..k], i);
    assert parts[..k][..i] == parts[..i];
  }
}
