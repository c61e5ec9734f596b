/** limitStreamer: a window of a stream, served as a stream of its own. */
module LimitStreamer {
  import opened Bytes

  const I63 := 0x8000_0000_0000_0000

  type uint64 = n: int | 0 <= n < U64
  type int64 = n: int | -I63 <= n < I63

  /** The conversion int64(n) of an unsigned number. */
  function ToInt64(n: uint64): int64 {
    if n < I63 then n else n - U64
  }

  datatype Whence = Start | CurrentPosition | End | Other

  datatype SeekError = InvalidWhence | InvalidOffset | StreamError

  /** What a reader of data at position pos may answer to a read with room for n bytes: the end only
      at the end; otherwise bytes from pos on, and at least one if there is room. */
  predicate ReadOutcome(data: seq<byte>, pos: nat, n: nat, out: seq<byte>, eof: bool) {
    && (eof <==> pos >= |data|)
    && (eof ==> out == [])
    && (!eof ==> |out| <= n && pos + |out| <= |data| && out == data[pos..pos + |out|] && (n > 0 ==> |out| > 0))
  }

  /** The wrapped stream. How many bytes a read returns is up to the stream. */
  class SkyfileStreamer {
    const data: seq<byte>
    var pos: nat

    constructor (data: seq<byte>)
      ensures this.data == data && pos == 0
    {
      this.data, pos := data, 0;
    }

    method Read(n: nat) returns (out: seq<byte>, eof: bool)
      modifies this
      ensures ReadOutcome(data, old(pos), n, out, eof) && pos == old(pos) + |out|
    {
      if pos >= |data| {
        return [], true;
      }
      var k: nat :| k <= n && pos + k <= |data| && (n > 0 ==> k > 0);
      out, eof := data[pos..pos + k], false;
      pos := pos + k;
    }

    /** Seek from the start; only a negative offset is refused. */
    method Seek(offset: int64) returns (ok: bool)
      modifies this
      ensures ok <==> offset >= 0
      ensures pos == if ok then offset else old(pos)
    {
      ok := offset >= 0;
      if ok {
        pos := offset;
      }
    }
  }

  /** The bytes between base and limit, as far as the stream has them. */
  function Window(data: seq<byte>, base: nat, limit: nat): (w: seq<byte>)
    ensures base <= limit <= |data| ==> w == data[base..limit]
  {
    var hi := if limit < |data| then limit else |data|;
    if base <= hi then data[base..hi] else []
  }

  class LimitStreamer {
    const stream: SkyfileStreamer
    const base: uint64
    var off: uint64
    const limit: uint64

    /** A position that the wrapped stream cannot be moved to is the only one where it may be
        somewhere else. */
    ghost predicate Valid()
      reads this, stream
    {
      base <= off && (off < I63 ==> stream.pos == off)
    }

    /** The window is the range asked for, as far as the stream has it; a range that wraps around is
        empty. */
    constructor (stream: SkyfileStreamer, offset: uint64, size: uint64)
      ensures this.stream == stream && base == offset && off == offset && limit == (offset + size) % U64
      ensures offset + size < U64 && offset + size <= |stream.data| ==>
                Served() == stream.data[offset..offset + size]
      ensures offset + size < U64 && offset <= |stream.data| < offset + size ==> Served() == stream.data[offset..]
      ensures offset + size >= U64 || offset > |stream.data| ==> Served() == []
    {
      this.stream, base, off, limit := stream, offset, offset, (offset + size) % U64;
    }

    /** The window that is served. */
    ghost function Served(): seq<byte> {
      Window(stream.data, base, limit)
    }

    /** Reading the window is reading a stream of exactly the window's bytes. Only at a position that the
        wrapped stream could not be moved to are its bytes those at the stream's own position. */
    method Read(n: nat) returns (out: seq<byte>, eof: bool)
      requires Valid() && n < U64
      modifies this`off, stream
      ensures Valid() && off == old(off) + |out|
      ensures old(off) < I63 || old(off) >= limit ==> ReadOutcome(Served(), old(off) - base, n, out, eof)
      ensures old(off) < limit ==>
                var room := if n > limit - old(off) then limit - old(off) else n;
                ReadOutcome(stream.data, old(stream.pos), room, out, eof)
    {
      hide ReadOutcome, Window;
      if off >= limit {
        OutcomeInWindow(stream.data, base, limit, off, n, [], true);
        return [], true;
      }
      var room := if n > limit - off then limit - off else n;
      out, eof := stream.Read(room);
      if old(stream.pos) == off {
        OutcomeInWindow(stream.data, base, limit, off, n, out, eof);
      }
      RoomTaken(stream.data, old(stream.pos), room, out, eof);
      off := off + |out|;
    }

    /** Seek. The arithmetic wraps around; a position before the window is refused and changes
        nothing, and one past 2^63 is kept although the stream refuses it. */
    method Seek(offset: int64, whence: Whence) returns (r: int64, error: Option<SeekError>)
      modifies this`off, stream
      ensures whence.Other? ==> error == Some(InvalidWhence)
      ensures !whence.Other? ==>
                var anchor := match whence case Start => base case CurrentPosition => old(off) case _ => limit;
                var target := (offset + anchor) % U64;
                && error == (if target < base then Some(InvalidOffset)
                             else if target >= I63 then Some(StreamError) else None)
                && (target >= base ==> off == target && Valid() && r == ToInt64(target - base))
      ensures error == Some(InvalidWhence) || error == Some(InvalidOffset) ==>
                off == old(off) && stream.pos == old(stream.pos)
    {
      var anchor;
      match whence {
        case Start => anchor := base;
        case CurrentPosition => anchor := off;
        case End => anchor := limit;
        case Other => return 0, Some(InvalidWhence);
      }
      var target: uint64 := (offset + anchor) % U64;
      if target < base {
        return 0, Some(InvalidOffset);
      }
      off := target;
      var ok := stream.Seek(ToInt64(off));
      r := ToInt64(target - base);
      error := if ok then None else Some(StreamError);
    }
  }

  lemma RoomTaken(data: seq<byte>, pos: nat, n: nat, out: seq<byte>, eof: bool)
    requires ReadOutcome(data, pos, n, out, eof)
    ensures |out| <= n
  {
  }

  /** A read cut off at the limit is a read of the window. */
  lemma OutcomeInWindow(data: seq<byte>, base: nat, limit: nat, off: nat, n: nat, out: seq<byte>, eof: bool)
    requires base <= off
    requires if off >= limit then eof && out == []
             else ReadOutcome(data, off, if n > limit - off then limit - off else n, out, eof)
    ensures ReadOutcome(Window(data, base, limit), off - base, n, out, eof)
  {
    if !eof {
      SubSlice(data, base, if limit < |data| then limit else |data|, off - base, off - base + |out|);
    }
  }

  /** NewLimitStreamer fails exactly when the offset cannot be sought. */
  method NewLimitStreamer(s: SkyfileStreamer, offset: uint64, size: uint64) returns (r: Option<LimitStreamer>)
    modifies s
    ensures r.Some? <==> offset < I63
    ensures r.Some? ==>
              && fresh(r.value) && r.value.Valid() && r.value.stream == s
              && r.value.base == offset == r.value.off && r.value.limit == (offset + size) % U64
  {
    var ls := new LimitStreamer(s, offset, size);
    var _, error := ls.Seek(0, Start);
    r := if error == None then Some(ls) else None;
  }

  /** Read to the end, with any room offered to each read: all that is left of the window. */
  method ReadAll(ls: LimitStreamer) returns (all: seq<byte>)
    requires ls.Valid() && ls.off < I63 && |ls.stream.data| < I63
    modifies ls`off, ls.stream
    ensures all == var w := ls.Served(); if old(ls.off) - ls.base <= |w| then w[old(ls.off) - ls.base..] else []
  {
    all := [];
    ghost var w, p := ls.Served(), ls.off - ls.base;
    ghost var start := p;
    var eof := false;
    while !eof
      invariant ls.Valid() && p == ls.off - ls.base && start <= p && ls.off < I63
      invariant eof ==> p >= |w|
      invariant if start <= |w| then p <= |w| && all == w[start..p] else all == []
      decreases |w| - p, !eof
    {
      var n :| 0 < n < U64;
      var out;
      out, eof := ls.Read(n);
      all := all + out;
      p := p + |out|;
    }
  }
}
