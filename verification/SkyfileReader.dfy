/** Reading a multipart upload as one stream while collecting, part by part, where every subfile lies
    in the stream. */
module SkyfileReader {
  import opened Bytes

  datatype ReadError = EOF | Malformed | IllegalFormName | BadMode | EmptyFilename

  datatype Subfile = Subfile(filename: string, mode: nat, contentType: string, offset: nat, len: nat)

  type Subfiles = map<string, Subfile>

  /** A part of the form: its headers, and its body in the pieces in which it arrives. A reader
      may report the end together with the last piece or only after it. */
  datatype Part = Part(formName: string, filename: string, mode: Option<nat>, contentType: string,
                       pieces: seq<seq<byte>>, endsEarly: bool)

  function Data(p: Part): seq<byte> {
    Concat(p.pieces)
  }

  predicate LegalFormName(formName: string) {
    formName == "file" || formName == "files[]"
  }

  predicate LegalPart(p: Part) {
    LegalFormName(p.formName) && p.filename != "" && p.mode.Some?
  }

  /** One read from a part with room for n bytes: the bytes, what is left, and whether the end of
      the part is reported. */
  function ReadPiece(pieces: seq<seq<byte>>, endsEarly: bool, n: nat): (r: (seq<byte>, seq<seq<byte>>, bool))
    ensures Concat(pieces) == r.0 + Concat(r.1) && |r.0| <= n
    ensures r.2 ==> r.1 == []
    ensures n > 0 && pieces != [] ==> |Concat(r.1)| + |r.1| < |Concat(pieces)| + |pieces|
    ensures pieces == [] ==> r.2
  {
    if pieces == [] then ([], [], true)
    else
      var k := if n < |pieces[0]| then n else |pieces[0]|;
      assert pieces[0] == pieces[0][..k] + pieces[0][k..];
      var rest := if k < |pieces[0]| then [pieces[0][k..]] + pieces[1..] else pieces[1..];
      assert k < |pieces[0]| ==> rest[1..] == pieces[1..] && Concat(rest) == pieces[0][k..] + Concat(pieces[1..]);
      PlusAssoc(pieces[0][..k], pieces[0][k..], Concat(pieces[1..]));
      assert k == |pieces[0]| ==> pieces[0][..k] == pieces[0];
      (pieces[0][..k], rest, endsEarly && rest == [])
  }

  /** The bytes of all the parts, one after another. */
  ghost function Stream(parts: seq<Part>): seq<byte> {
    if parts == [] then [] else Data(parts[0]) + Stream(parts[1..])
  }

  lemma {:induction false} StreamAppend(a: seq<Part>, b: seq<Part>)
    ensures Stream(a + b) == Stream(a) + Stream(b)
  {
    if a == [] {
      assert a + b == b;
      assert Stream(a) + Stream(b) == Stream(b);
    } else {
      StreamAppend(a[1..], b);
      assert (a + b)[0] == a[0] && (a + b)[1..] == a[1..] + b;
      PlusAssoc(Data(a[0]), Stream(a[1..]), Stream(b));
    }
  }

  lemma StreamOne(p: Part)
    ensures Stream([p]) == Data(p)
  {
    assert [p][1..] == [];
    assert Data(p) + [] == Data(p);
  }

  /** The entry of a part that starts at an offset of the stream. */
  ghost function EntryOf(p: Part, offset: nat): Subfile {
    Subfile(p.filename, if p.mode.Some? then p.mode.value else 0, p.contentType, offset, |Data(p)|)
  }

  /** The entries of finished parts: every part starts where the parts before it end. */
  ghost function SubfilesOf(parts: seq<Part>): Subfiles {
    if parts == [] then map[]
    else
      var front, last := parts[..|parts| - 1], parts[|parts| - 1];
      SubfilesOf(front)[last.filename := EntryOf(last, |Stream(front)|)]
  }

  lemma FinishedNext(finished: seq<Part>, part: Part)
    ensures |Stream(finished + [part])| == |Stream(finished)| + |Data(part)|
    ensures SubfilesOf(finished + [part]) == SubfilesOf(finished)[part.filename := EntryOf(part, |Stream(finished)|)]
  {
    StreamAppend(finished, [part]);
    StreamOne(part);
    assert (finished + [part])[..|finished|] == finished;
  }

  lemma ConcatOfNothing()
    ensures Concat([]) == []
  {
  }

  datatype Current = Current(part: Part, rest: seq<seq<byte>>)

  class SkyfileMultipartReader {
    var parts: seq<Part>
    const ending: ReadError
    var readBuf: seq<byte>
    var currLen: nat
    var currOff: nat
    var currPart: Option<Current>
    var subfiles: Subfiles
    var metadataAvail: bool
    ghost var finished: seq<Part>

    /** The bytes that will still be read. */
    ghost function Pending(): seq<byte>
      reads `readBuf, `currPart, `parts
    {
      readBuf + FromParts()
    }

    ghost function FromParts(): seq<byte>
      reads `currPart, `parts
    {
      (if currPart.Some? then Concat(currPart.value.rest) else []) + Stream(parts)
    }

    /** The parts that are not finished. */
    ghost function Unfinished(): seq<Part>
      reads `currPart, `parts
    {
      (if currPart.Some? then [currPart.value.part] else []) + parts
    }

    ghost predicate Valid()
      reads `parts, `currLen, `currOff, `currPart, `subfiles, `metadataAvail, `finished
    {
      && subfiles == SubfilesOf(finished)
      && (metadataAvail ==> currPart == None && parts == [])
      && (match currPart
          case None => currOff + currLen == |Stream(finished)|
          case Some(c) => currOff == |Stream(finished)| && currLen + |Concat(c.rest)| == |Data(c.part)|)
    }

    constructor (parts: seq<Part>, ending: ReadError)
      requires ending == EOF || ending == Malformed
      ensures Valid() && this.parts == parts && this.ending == ending && readBuf == [] && finished == []
      ensures currPart == None && !metadataAvail
    {
      this.parts, this.ending := parts, ending;
      readBuf, currLen, currOff, currPart, subfiles, metadataAvail := [], 0, 0, None, map[], false;
      finished := [];
    }

    /** SetReadBuffer: the bytes given are what is read next, before everything that is still in the
        parts. */
    method SetReadBuffer(b: seq<byte>)
      requires Valid()
      modifies this`readBuf
      ensures Valid() && readBuf == b && Pending() == b + old(FromParts())
    {
      readBuf := b;
    }

    /** Ask the form for its next part. Any failure to get one makes the metadata available. */
    method NextPart() returns (error: Option<ReadError>)
      requires Valid() && currPart == None && !metadataAvail
      modifies this`parts, this`currPart, this`currOff, this`currLen, this`metadataAvail
      ensures Valid() && FromParts() == old(FromParts()) && Unfinished() == old(Unfinished())
      ensures old(parts) == [] ==> error == Some(ending) && metadataAvail
      ensures old(parts) != [] ==>
                && !metadataAvail && parts == old(parts)[1..]
                && currPart == Some(Current(old(parts)[0], old(parts)[0].pieces))
                && error == if old(parts)[0].formName == "file" || old(parts)[0].formName == "files[]" then None
                            else Some(IllegalFormName)
    {
      if parts == [] {
        metadataAvail := true;
        return Some(ending);
      }
      currPart := Some(Current(parts[0], parts[0].pieces));
      parts := parts[1..];
      currOff := currOff + currLen;
      currLen := 0;
      if !LegalFormName(currPart.value.part.formName) {
        return Some(IllegalFormName);
      }
      return None;
    }

    /** Read from the current part with room for n bytes. */
    method ReadCurrent(n: nat) returns (bytes: seq<byte>, eof: bool)
      requires Valid() && currPart.Some?
      modifies this`currPart, this`currLen
      ensures Valid() && old(FromParts()) == bytes + FromParts() && |bytes| <= n
      ensures currPart.Some? && currPart.value.part == old(currPart.value.part)
      ensures eof ==> currPart.value.rest == []
      ensures n > 0 && !eof ==>
                |Concat(currPart.value.rest)| + |currPart.value.rest|
                < old(|Concat(currPart.value.rest)| + |currPart.value.rest|)
    {
      var c := currPart.value;
      var (b, rest, e) := ReadPiece(c.rest, c.part.endsEarly, n);
      bytes, eof := b, e;
      currPart := Some(Current(c.part, rest));
      currLen := currLen + |bytes|;
      PlusAssoc(bytes, Concat(rest), Stream(parts));
    }

    /** createSubfileFromCurrPart, then let go of the part. */
    method FinishPart() returns (error: Option<ReadError>)
      requires Valid() && currPart.Some? && currPart.value.rest == []
      modifies this`currPart, this`subfiles, this`finished
      ensures Valid() && FromParts() == old(FromParts())
      ensures var part := old(currPart.value.part);
              error == if part.mode == None then Some(BadMode)
                       else if part.filename == "" then Some(EmptyFilename) else None
      ensures finished + Unfinished() == old(finished + Unfinished())
      ensures error == None ==> currPart == None
      ensures error != None ==> currPart == old(currPart)
    {
      hide SubfilesOf, Stream, Concat;
      var part := currPart.value.part;
      ConcatOfNothing();
      FinishedNext(finished, part);
      if part.mode.None? {
        return Some(BadMode);
      }
      if part.filename == "" {
        return Some(EmptyFilename);
      }
      var entry := Subfile(part.filename, part.mode.value, part.contentType, currOff, currLen);
      subfiles := subfiles[part.filename := entry];
      currPart := None;
      finished := finished + [part];
      return None;
    }

    ghost predicate AllLegal()
      reads `currPart, `parts
    {
      forall p :: p in Unfinished() ==> LegalPart(p)
    }

    /** Read with room for n bytes. No byte is lost, invented or reordered; the room is filled
        unless an error stops it; and the subfiles are those of the finished parts. The end is
        reported only when all the parts are read, but a read buffer may still hold bytes. */
    method Read(n: nat) returns (out: seq<byte>, error: Option<ReadError>)
      requires Valid()
      modifies this`readBuf, this`parts, this`currPart, this`currOff, this`currLen, this`metadataAvail, this`subfiles,
               this`finished
      ensures Valid()
      ensures old(Pending()) == out + Pending() && |out| <= n
      ensures finished + Unfinished() == old(finished + Unfinished())
      ensures error == None ==> |out| == n
      ensures old(metadataAvail) ==> error == Some(EOF)
      ensures error == Some(EOF) ==> metadataAvail && Pending() == readBuf && Unfinished() == []
      ensures metadataAvail ==> error != None
      ensures old(readBuf) == [] ==> readBuf == []
      ensures old(AllLegal()) ==> AllLegal() && (error == None || error == Some(EOF) || error == Some(ending))
    {
      hide FromParts, Unfinished, AllLegal, Valid;
      out := ReadBuffer(n);
      NothingPending();
      if metadataAvail {
        return out, Some(EOF);
      }
      var bytes;
      bytes, error := ReadParts(n - |out|);
      PlusAssoc(out, bytes, FromParts());
      out := out + bytes;
      NothingPending();
    }

    /** The loop of Read: fill the room from the parts. */
    method ReadParts(room: nat) returns (out: seq<byte>, error: Option<ReadError>)
      requires Valid() && !metadataAvail
      modifies this`parts, this`currPart, this`currOff, this`currLen, this`metadataAvail, this`subfiles, this`finished
      ensures Valid()
      ensures old(FromParts()) == out + FromParts() && |out| <= room && (error == None ==> |out| == room)
      ensures finished + Unfinished() == old(finished + Unfinished())
      ensures metadataAvail ==> error == Some(ending)
      ensures error == Some(EOF) ==> metadataAvail
      ensures old(AllLegal()) ==> AllLegal() && (error == None || error == Some(ending))
    {
      hide FromParts, Unfinished, AllLegal, Valid;
      out := [];
      error := None;
      assert [] + FromParts() == FromParts();
      while |out| < room && error == None
        invariant Valid() && |out| <= room
        invariant old(FromParts()) == out + FromParts()
        invariant finished + Unfinished() == old(finished + Unfinished())
        invariant metadataAvail ==> error == Some(ending)
        invariant error == Some(EOF) ==> metadataAvail
        invariant old(AllLegal()) ==> AllLegal() && (error == None || error == Some(ending))
        decreases if error == None then 1 else 0, PartsLeft(), PiecesLeft()
      {
        var bytes;
        bytes, error := ReadStep(room - |out|);
        PlusAssoc(out, bytes, FromParts());
        out := out + bytes;
      }
    }

    lemma NothingPending()
      requires Valid()
      ensures metadataAvail ==> Pending() == readBuf && Unfinished() == []
    {
    }

    ghost function PartsLeft(): nat
      reads `currPart, `parts
    {
      2 * |parts| + if currPart.Some? then 1 else 0
    }

    ghost function PiecesLeft(): nat
      reads `currPart
    {
      if currPart.Some? then |Concat(currPart.value.rest)| + |currPart.value.rest| else 0
    }

    /** One round of Read: get a part if there is none, read from it, and finish it at its end. */
    method ReadStep(room: nat) returns (bytes: seq<byte>, error: Option<ReadError>)
      requires Valid() && !metadataAvail && room > 0
      modifies this`parts, this`currPart, this`currOff, this`currLen, this`metadataAvail, this`subfiles, this`finished
      ensures Valid()
      ensures old(FromParts()) == bytes + FromParts() && |bytes| <= room
      ensures finished + Unfinished() == old(finished + Unfinished())
      ensures metadataAvail ==> error == Some(ending)
      ensures error == Some(EOF) ==> metadataAvail
      ensures old(AllLegal()) ==> AllLegal() && (error == None || error == Some(ending))
      ensures error == None ==>
                PartsLeft() < old(PartsLeft()) || (PartsLeft() == old(PartsLeft()) && PiecesLeft() < old(PiecesLeft()))
    {
      hide SubfilesOf, Stream, Concat;
      bytes := [];
      assert parts != [] && currPart == None ==> Unfinished()[0] == parts[0] && parts[0] in Unfinished();
      if currPart == None {
        error := NextPart();
        if error != None {
          return;
        }
      }
      var eof;
      bytes, eof := ReadCurrent(room);
      assert Unfinished()[0] == currPart.value.part && currPart.value.part in old(Unfinished());
      error := None;
      if eof {
        error := FinishPart();
      }
    }

    /** The bytes put back by SetReadBuffer come first. */
    method ReadBuffer(n: nat) returns (out: seq<byte>)
      modifies this`readBuf
      ensures old(Pending()) == out + Pending() && |out| <= n && (|out| < n || old(readBuf) == [] ==> readBuf == [])
    {
      out := [];
      if |readBuf| > 0 {
        var k := if n < |readBuf| then n else |readBuf|;
        out := readBuf[..k];
        assert readBuf == readBuf[..k] + readBuf[k..];
        PlusAssoc(readBuf[..k], readBuf[k..], FromParts());
        readBuf := readBuf[k..];
      }
    }
  }

  // ----- Whole uploads ---------------------------------------------------------------------

  ghost predicate DistinctNames(parts: seq<Part>) {
    forall i, j :: 0 <= i < j < |parts| ==> parts[i].filename != parts[j].filename
  }

  /** With distinct names every part has its entry, at the sum of the lengths before it. */
  lemma {:induction false} EntryOfPart(parts: seq<Part>, i: nat)
    requires i < |parts| && DistinctNames(parts)
    ensures parts[i].filename in SubfilesOf(parts)
    ensures SubfilesOf(parts)[parts[i].filename] == EntryOf(parts[i], |Stream(parts[..i])|)
    ensures var p, sf := parts[i], SubfilesOf(parts)[parts[i].filename];
            && sf.filename == p.filename && sf.contentType == p.contentType
            && (p.mode.Some? ==> sf.mode == p.mode.value)
            && sf.offset == |Stream(parts[..i])| && sf.len == |Data(p)|
  {
    hide Stream;
    var front := parts[..|parts| - 1];
    if i < |parts| - 1 {
      EntryOfPart(front, i);
      assert front[..i] == parts[..i];
    }
  }

  lemma {:induction false} NamesOfParts(parts: seq<Part>, name: string)
    ensures name in SubfilesOf(parts) <==> exists i :: 0 <= i < |parts| && parts[i].filename == name
  {
    hide Stream;
    if parts != [] {
      var front := parts[..|parts| - 1];
      NamesOfParts(front, name);
      if exists i :: 0 <= i < |front| && front[i].filename == name {
        var i :| 0 <= i < |front| && front[i].filename == name;
        assert parts[i].filename == name;
      }
      if exists i :: 0 <= i < |parts| && parts[i].filename == name {
        var i :| 0 <= i < |parts| && parts[i].filename == name;
        assert i < |front| ==> front[i].filename == name;
      }
    }
  }

  /** Reading an upload of legal parts with any schedule of reads: the bytes read are a prefix of
      the parts put together, and at the end they are all of it and every part has its entry. */
  method ReadUpload(parts: seq<Part>, schedule: seq<nat>)
    returns (stream: seq<byte>, r: SkyfileMultipartReader, done: bool)
    requires forall p :: p in parts ==> LegalPart(p)
    ensures stream <= Stream(parts)
    ensures done ==> stream == Stream(parts) && r.subfiles == SubfilesOf(parts)
    ensures !done ==> |stream| == Total(schedule)
  {
    hide SubfilesOf, Stream, Total;
    r := new SkyfileMultipartReader(parts, EOF);
    stream := [];
    done := false;
    TotalNext(schedule, 0);
    assert r.Pending() == Stream(parts);
    assert r.finished + r.Unfinished() == parts;
    for k := 0 to |schedule|
      invariant fresh(r) && r.Valid() && r.AllLegal() && r.ending == EOF && r.readBuf == []
      invariant stream + r.Pending() == Stream(parts) && r.finished + r.Unfinished() == parts
      invariant |stream| == Total(schedule[..k]) && !r.metadataAvail
    {
      var out, error := r.Read(schedule[k]);
      PlusAssoc(stream, out, r.Pending());
      stream := stream + out;
      TotalNext(schedule, k);
      if error != None {
        assert r.finished + [] == r.finished;
        done := true;
        return;
      }
    }
    assert schedule[..|schedule|] == schedule;
  }

  function Total(schedule: seq<nat>): nat {
    if schedule == [] then 0 else Total(schedule[..|schedule| - 1]) + schedule[|schedule| - 1]
  }

  lemma TotalNext(schedule: seq<nat>, k: nat)
    requires k <= |schedule|
    ensures Total(schedule[..0]) == 0
    ensures k < |schedule| ==> Total(schedule[..k + 1]) == Total(schedule[..k]) + schedule[k]
  {
    assert k < |schedule| ==> schedule[..k + 1][..k] == schedule[..k];
  }
}
