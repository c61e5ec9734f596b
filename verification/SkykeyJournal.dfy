/** What the writes of the skykey manager do to the journal: appending a record, the header
    update that commits it, and overwriting a record with its tombstone. */
module SkykeyJournal {
  import opened Bytes
  import opened Skykey
  import opened SkykeyFile

  lemma WriteAtParts(file: seq<byte>, offset: nat, data: seq<byte>)
    requires offset <= |file|
    ensures var f := WriteAt(file, offset, data);
            && f[..offset] == file[..offset]
            && f[offset..offset + |data|] == data
            && f[offset + |data|..] == (if |file| <= offset + |data| then [] else file[offset + |data|..])
  {
  }

  lemma {:induction false} RecordsAppend(a: seq<Slot>, b: seq<Slot>)
    ensures Records(a + b) == Records(a) + Records(b)
  {
    hide Record;
    if a == [] {
      assert a + b == b;
    } else {
      RecordsAppend(a[1..], b);
      assert (a + b)[0] == a[0] && (a + b)[1..] == a[1..] + b;
      PlusAssoc(Record(a[0]), Records(a[1..]), Records(b));
    }
  }

  lemma RecordsOfOne(slot: Slot)
    ensures Records([slot]) == Record(slot)
  {
    assert [slot][1..] == [];
    assert Record(slot) + [] == Record(slot);
  }

  /** The records before slot i, slot i, and the records after it. */
  lemma RecordsSplit(slots: seq<Slot>, i: nat)
    requires i < |slots|
    ensures Records(slots) == Records(slots[..i]) + Record(slots[i]) + Records(slots[i + 1..])
    ensures Records(slots[..i + 1]) == Records(slots[..i]) + Record(slots[i])
  {
    hide Record, Records;
    RecordsUpTo(slots, i);
    var front, back := slots[..i + 1], slots[i + 1..];
    RecordsAppend(front, back);
    assert front + back == slots;
  }

  lemma RecordsUpTo(slots: seq<Slot>, i: nat)
    requires i < |slots|
    ensures Records(slots[..i + 1]) == Records(slots[..i]) + Record(slots[i])
  {
    hide Record, Records;
    RecordsOfOne(slots[i]);
    assert slots[..i + 1] == slots[..i] + [slots[i]];
    RecordsAppend(slots[..i], [slots[i]]);
  }

  lemma HeaderLength(version: seq<byte>, fileLen: nat)
    requires version == VERSION || version == OLD_VERSION
    ensures |Header(version, fileLen)| == HEADER_LEN
  {
  }

  /** The first 32 bytes of the header do not change when it is saved with a new length, so a
      crash before the length is written changes nothing. */
  lemma HeaderPrefix(version: seq<byte>, fileLen: nat, fileLen': nat)
    requires version == VERSION || version == OLD_VERSION
    ensures Header(version, fileLen)[..32] == Header(version, fileLen')[..32]
  {
    hide EncodeLE;
    assert Header(version, fileLen)[..32] == MAGIC + version == Header(version, fileLen')[..32];
  }

  /** Whatever is written at the end of the valid part, as long as the header is not updated the
      file still holds the old records. This covers every prefix of a new record. */
  lemma TornAdd(file: seq<byte>, version: seq<byte>, fileLen: nat, slots: seq<Slot>, torn: seq<byte>)
    requires IsJournal(file, version, fileLen, slots)
    ensures IsJournal(WriteAt(file, fileLen, torn), version, fileLen, slots)
  {
    hide Header, Records, ValidSlots, WriteAt;
    WriteAtParts(file, fileLen, torn);
    var f := WriteAt(file, fileLen, torn);
    assert f[..HEADER_LEN] == f[..fileLen][..HEADER_LEN] == file[..HEADER_LEN];
    assert f[HEADER_LEN..fileLen] == f[..fileLen][HEADER_LEN..] == file[HEADER_LEN..fileLen];
  }

  lemma AppendThenHeader(file: seq<byte>, fileLen: nat, r: seq<byte>, h: seq<byte>)
    requires |h| == HEADER_LEN <= fileLen <= |file|
    ensures var g := WriteAt(WriteAt(file, fileLen, r), 0, h);
            && |g| >= fileLen + |r| && g[..HEADER_LEN] == h
            && g[HEADER_LEN..fileLen + |r|] == file[HEADER_LEN..fileLen] + r
  {
    var f := WriteAt(file, fileLen, r);
    var g := WriteAt(f, 0, h);
    WriteAtParts(file, fileLen, r);
    WriteAtParts(f, 0, h);
    hide WriteAt;
    var end := fileLen + |r|;
    assert |g| == HEADER_LEN + |g[HEADER_LEN..]|;
    SubSlice(g, HEADER_LEN, |g|, 0, end - HEADER_LEN);
    SubSlice(f, HEADER_LEN, |f|, 0, end - HEADER_LEN);
    SplitAt(f, HEADER_LEN, fileLen, end);
    SubSlice(f, 0, fileLen, HEADER_LEN, fileLen);
    SubSlice(file, 0, fileLen, HEADER_LEN, fileLen);
  }

  /** With the record and then the header written, the file holds one more record. */
  lemma CommittedAdd(file: seq<byte>, version: seq<byte>, fileLen: nat, slots: seq<Slot>, slot: Slot, written: nat)
    requires IsJournal(file, version, fileLen, slots) && ValidSlot(slot)
    requires written == fileLen + |Record(slot)| <= MAX_FILE_LEN
    ensures IsJournal(WriteAt(WriteAt(file, fileLen, Record(slot)), 0, Header(version, written)), version, written,
                      slots + [slot])
  {
    hide Header, Records, Record, WriteAt, ValidSlot;
    HeaderLength(version, written);
    RecordsAppend(slots, [slot]);
    RecordsOfOne(slot);
    AppendThenHeader(file, fileLen, Record(slot), Header(version, written));
  }

  lemma DeadRecord(size: nat)
    ensures Record(Dead(size)) == MarshalDeleted(size)
  {
  }

  /** A tombstone written over record i turns slot i into a dead one and moves nothing else. */
  lemma CommittedDelete(file: seq<byte>, version: seq<byte>, fileLen: nat, slots: seq<Slot>, i: nat, start: nat)
    requires IsJournal(file, version, fileLen, slots) && i < |slots| && slots[i].Live?
    requires start == HEADER_LEN + |Records(slots[..i])|
    ensures var size := |Record(slots[i])| - 9;
            size >= 0 && IsJournal(WriteAt(file, start, MarshalDeleted(size)), version, fileLen, slots[i := Dead(size)])
  {
    hide Record, Records, WriteAt, Header, MarshalDeleted;
    TombstoneFits(slots[i].key);
    var size := |Record(slots[i])| - 9;
    DeadRecord(size);
    var tomb, slots' := Record(Dead(size)), slots[i := Dead(size)];
    RecordsSplit(slots, i);
    RecordsSplit(slots', i);
    assert slots'[..i] == slots[..i] && slots'[i + 1..] == slots[i + 1..];
    SpliceRecord(file, start, fileLen, Records(slots[..i]), Record(slots[i]), tomb, Records(slots[i + 1..]));
  }

  lemma Overwrite(x: seq<byte>, r: seq<byte>, r': seq<byte>, y: seq<byte>)
    requires |r| == |r'|
    ensures WriteAt(x + r + y, |x|, r') == x + r' + y
  {
    var file := x + r + y;
    assert file[..|x|] == x && file[|x| + |r|..] == y;
  }

  lemma MiddleOf(h: seq<byte>, m: seq<byte>, rest: seq<byte>)
    ensures (h + m + rest)[..|h|] == h && (h + m + rest)[|h|..|h| + |m|] == m
  {
  }

  lemma Regroup(h: seq<byte>, before: seq<byte>, r: seq<byte>, after: seq<byte>, rest: seq<byte>)
    ensures h + before + r + (after + rest) == h + (before + r + after) + rest
  {
  }

  lemma SpliceRecord(file: seq<byte>, start: nat, fileLen: nat, before: seq<byte>, r: seq<byte>, r': seq<byte>,
                     after: seq<byte>)
    requires |r| == |r'| && start == HEADER_LEN + |before| && fileLen == start + |r| + |after| <= |file|
    requires file[HEADER_LEN..fileLen] == before + r + after
    ensures var f := WriteAt(file, start, r');
            |f| == |file| && f[..HEADER_LEN] == file[..HEADER_LEN] && f[HEADER_LEN..fileLen] == before + r' + after
  {
    hide WriteAt;
    var h, rest := file[..HEADER_LEN], file[fileLen..];
    assert file == h + file[HEADER_LEN..fileLen] + rest;
    Regroup(h, before, r, after, rest);
    Overwrite(h + before, r, r', after + rest);
    Regroup(h, before, r', after, rest);
    MiddleOf(h, before + r' + after, rest);
  }

  /** Crash safety of adding a key: from any good file, a crash at any point before the header's
      new length is on disk reloads the old keys; afterwards the new key is there as well. */
  lemma AddIsCrashSafe(idOf: IdFunction, file: seq<byte>, fileLen: nat, slots: seq<Slot>, m: Keys, sk: Skykey, cut: nat)
    requires IsJournal(file, VERSION, fileLen, slots) && Unique(idOf, slots) && Represents(idOf, slots, m)
    requires IsValid(sk) && Fresh(m, ID(idOf, sk), sk.name) && cut <= |Record(Live(sk))|
    requires fileLen + |Record(Live(sk))| <= MAX_FILE_LEN
    ensures var r, written := Record(Live(sk)), fileLen + |Record(Live(sk))|;
            var torn := WriteAt(file, fileLen, r[..cut]);
            var full := WriteAt(file, fileLen, r);
            var h := Header(VERSION, written);
            && LoadFile(idOf, torn) == Ok(Loaded(m, fileLen, torn))
            && (forall k :: 0 <= k <= 32 ==> WriteAt(full, 0, h[..k]) == full)
            && LoadFile(idOf, WriteAt(full, 0, h)) == Ok(Loaded(Put(idOf, m, sk), written, WriteAt(full, 0, h)))
  {
    hide IsJournal, LoadFile, WriteAt, Header, Represents, Unique, Put, ID, Fresh, IsValid, Record;
    assert ValidSlot(Live(sk));
    var r, written := Record(Live(sk)), fileLen + |Record(Live(sk))|;
    var full, h := WriteAt(file, fileLen, r), Header(VERSION, written);
    TornAdd(file, VERSION, fileLen, slots, r[..cut]);
    JournalLoads(idOf, WriteAt(file, fileLen, r[..cut]), VERSION, fileLen, slots, m);
    TornAdd(file, VERSION, fileLen, slots, r);
    HeaderLength(VERSION, written);
    forall k | 0 <= k <= 32 ensures WriteAt(full, 0, h[..k]) == full {
      TornHeader(full, fileLen, slots, written, k);
    }
    CommittedAdd(file, VERSION, fileLen, slots, Live(sk), written);
    RepresentsAdd(idOf, slots, m, sk);
    UniqueAdd(idOf, slots, m, sk);
    JournalLoads(idOf, WriteAt(full, 0, h), VERSION, written, slots + [Live(sk)], Put(idOf, m, sk));
  }

  lemma TornHeader(file: seq<byte>, fileLen: nat, slots: seq<Slot>, written: nat, k: nat)
    requires IsJournal(file, VERSION, fileLen, slots) && k <= 32
    ensures k <= |Header(VERSION, written)|
    ensures WriteAt(file, 0, Header(VERSION, written)[..k]) == file
  {
    HeaderPrefix(VERSION, fileLen, written);
    HeaderLength(VERSION, written);
    HeaderLength(VERSION, fileLen);
    hide Header, Records, ValidSlots;
    var h, old' := Header(VERSION, written), Header(VERSION, fileLen);
    SubSlice(h, 0, 32, 0, k);
    SubSlice(old', 0, 32, 0, k);
    SubSlice(file, 0, HEADER_LEN, 0, k);
    RewritePrefix(file, k, h[..k]);
  }

  lemma RewritePrefix(file: seq<byte>, k: nat, data: seq<byte>)
    requires k <= |file| && data == file[..k]
    ensures WriteAt(file, 0, data) == file
  {
  }

  /** Adding a key under a new name keeps names and IDs in bijection exactly when its ID is new. */
  lemma AddKeepsBijectionIffFreshID(idOf: IdFunction, m: Keys, sk: Skykey)
    requires Bijective(m) && sk.name !in m.idsByName
    ensures Bijective(Put(idOf, m, sk)) <==> ID(idOf, sk) !in m.keysByID
  {
    var m', id := Put(idOf, m, sk), ID(idOf, sk);
    if id in m.keysByID {
      var other := m.keysByID[id].name;
      assert m'.idsByName[other] == id && m'.keysByID[id].name == sk.name;
    }
  }
}
