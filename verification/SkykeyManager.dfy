/** The skykey manager: two maps in memory and one append-only file with in-place tombstones.
    The ghost journal names the records of the file; reloading the file always gives back the
    maps in memory. */
module SkykeyManager {
  import opened Bytes
  import opened Skykey
  import opened SkykeyFile
  import opened SkykeyJournal

  /** Room a new record may need. */
  const MAX_RECORD := 65 + MAX_KEY_NAME_LEN

  /** Slot i was the key with this ID; now it is dead, and a tombstone of its size is written over its
      record. */
  ghost predicate TombstoneAt(idOf: IdFunction, id: SkykeyID, slots: seq<Slot>, file: seq<byte>, slots': seq<Slot>,
                              file': seq<byte>, i: nat) {
    && i < |slots| && slots[i].Live? && ID(idOf, slots[i].key) == id
    && |Record(slots[i])| >= 9
    && var size := |Record(slots[i])| - 9;
       && slots' == slots[i := Dead(size)]
       && file' == WriteAt(file, HEADER_LEN + |Records(slots[..i])|, MarshalDeleted(size))
  }

  ghost predicate Tombstoned(idOf: IdFunction, id: SkykeyID, slots: seq<Slot>, file: seq<byte>, slots': seq<Slot>,
                             file': seq<byte>) {
    exists i: nat :: TombstoneAt(idOf, id, slots, file, slots', file', i)
  }

  class SkykeyManager {
    const idOf: IdFunction
    var idsByName: map<Name, SkykeyID>
    var keysByID: map<SkykeyID, Skykey>
    var version: seq<byte>
    var fileLen: nat
    var file: seq<byte>
    ghost var slots: seq<Slot>

    ghost function Memory(): Keys
      reads this
    {
      Keys(idsByName, keysByID)
    }

    ghost predicate Valid()
      reads this
    {
      && version == VERSION
      && IsJournal(file, version, fileLen, slots)
      && Unique(idOf, slots)
      && Represents(idOf, slots, Memory())
    }

    /** The file does not outgrow signed 64-bit offsets. */
    ghost predicate HasRoom()
      reads this
    {
      fileLen + MAX_RECORD <= MAX_FILE_LEN
    }

    /** A manager that has not loaded its file. */
    constructor (idOf: IdFunction, file: seq<byte>)
      ensures this.idOf == idOf && this.file == file && idsByName == map[] && keysByID == map[]
    {
      this.idOf, this.file := idOf, file;
      idsByName, keysByID, version, fileLen, slots := map[], map[], [], 0, [];
    }

    /** load: the result is LoadFile of the bytes, whatever they are. If the file is new or holds
        the records of unique slots, the manager is valid afterwards. */
    method Load(ghost journal: seq<Slot>) returns (error: Option<Error>)
      requires idsByName == map[] && keysByID == map[]
      modifies this
      ensures match LoadFile(idOf, old(file))
              case Err(e) => error == Some(e) && file == old(file)
              case Ok(loaded) =>
                error == None && Memory() == loaded.keys && fileLen == loaded.fileLen && file == loaded.file
      ensures |old(file)| >= 40 ==>
                var known := old(file)[16..32] == VERSION || old(file)[16..32] == OLD_VERSION;
                && (old(file)[..16] != MAGIC ==> error == Some(BadMagic))
                && (old(file)[..16] == MAGIC && !known ==> error == Some(UnknownVersion))
                && (error == None ==> fileLen == DecodeLE(old(file)[32..40]) <= MAX_FILE_LEN)
                && (old(file)[..16] == MAGIC && known && !(40 <= DecodeLE(old(file)[32..40]) <= MAX_FILE_LEN) ==>
                      error == Some(TrailingRecord))
      ensures IsKeyFile(idOf, old(file), journal) ==> error == None && Valid() && slots == journal
    {
      hide IsKeyFile, IsJournal, Unique, Represents, WriteAt, Header, LoadHeader, LoadSkykey, Scan;
      slots := journal;
      if |file| < HEADER_LEN {
        version, fileLen := VERSION, HEADER_LEN;
        SaveHeader();
        error := None;
      } else {
        match LoadHeader(file) {
          case Err(e) =>
            HeaderFields(file);
            error := Some(e);
          case Ok((v, n)) =>
            version, fileLen := v, n;
            HeaderFields(file);
            BadLength(idOf, file, n);
            var end;
            error, end := ScanRecords();
            if error == None && end != AsInt(fileLen) {
              error := Some(TrailingRecord);
            }
            if error == None && version != VERSION {
              version := VERSION;
              SaveHeader();
            }
        }
      }
      if IsKeyFile(idOf, old(file), journal) {
        KeyFileLoads(idOf, old(file), journal);
      }
    }

    /** The loop of load: read all the records up to the length set in the header. */
    method ScanRecords() returns (error: Option<Error>, n: nat)
      requires |file| >= HEADER_LEN
      modifies this`idsByName, this`keysByID
      ensures match Scan(idOf, file, HEADER_LEN, AsInt(fileLen), old(Memory()))
              case Err(e) => error == Some(e)
              case Ok((keys, end)) => error == None && Memory() == keys && n == end
    {
      hide LoadSkykey, ID, AsInt;
      n := HEADER_LEN;
      while n < AsInt(fileLen)
        invariant n <= |file|
        invariant Scan(idOf, file, HEADER_LEN, AsInt(fileLen), old(Memory()))
               == Scan(idOf, file, n, AsInt(fileLen), Memory())
        decreases |file| - n
      {
        match LoadSkykey(file, n) {
          case Err(e) =>
            return Some(e), n;
          case Ok((sk, currOffset)) =>
            n := currOffset;
            if sk.typ != TYPE_DELETED {
              idsByName := idsByName[sk.name := ID(idOf, sk)];
              keysByID := keysByID[ID(idOf, sk) := sk];
            }
        }
      }
      return None, n;
    }

    /** saveHeader: the header says version and length, and the records and their number of bytes stay as
        they are. */
    method SaveHeader()
      modifies this`file
      ensures file == WriteAt(old(file), 0, Header(version, fileLen))
      ensures (version == VERSION || version == OLD_VERSION) && fileLen < U64 ==>
                |file| >= HEADER_LEN && LoadHeader(file) == Ok((version, fileLen))
      ensures (version == VERSION || version == OLD_VERSION) && |old(file)| >= HEADER_LEN ==>
                |file| == |old(file)| && file[HEADER_LEN..] == old(file[HEADER_LEN..])
    {
      hide Header, WriteAt, LoadHeader;
      var was := file;
      file := WriteAt(file, 0, Header(version, fileLen));
      WriteAtParts(was, 0, Header(version, fileLen));
      if version == VERSION || version == OLD_VERSION {
        HeaderLength(version, fileLen);
        if fileLen < U64 {
          HeaderParses(file, version, fileLen);
        }
      }
    }

    /** AddKey: an invalid key, a known ID and a known name are refused and change nothing;
        otherwise the key is in the maps and is the last record of the file. */
    method AddKey(sk: Skykey) returns (error: Option<Error>)
      requires Valid() && HasRoom()
      modifies this
      ensures Valid()
      ensures error == (if Problem(sk).Some? then Problem(sk)
                        else if ID(idOf, sk) in old(keysByID) then Some(IDAlreadyExists)
                        else if sk.name in old(idsByName) then Some(NameAlreadyExists)
                        else None)
      ensures Injective(idOf) ==>
                error == (if |sk.name| > 128 then Some(NameTooLong)
                          else if sk.typ != 1 && sk.typ != 2 then Some(UnsupportedType)
                          else if |sk.entropy| != 56 then Some(InvalidEntropyLength)
                          else if HoldsSecret(old(Memory()), sk.typ, sk.entropy[..32]) then Some(IDAlreadyExists)
                          else if sk.name in old(idsByName) then Some(NameAlreadyExists)
                          else None)
      ensures error == None ==> Memory() == Put(idOf, old(Memory()), sk) && slots == old(slots) + [Live(sk)]
      ensures error != None ==> Memory() == old(Memory()) && slots == old(slots) && file == old(file)
      ensures fileLen <= old(fileLen) + MAX_RECORD
    {
      hide IsJournal, Unique, Represents, WriteAt, Header, Injective, HoldsSecret;
      if Problem(sk).Some? {
        return Problem(sk);
      }
      SecretKnown(idOf, file, version, fileLen, slots, Memory(), sk.typ, sk.entropy[..32]);
      if ID(idOf, sk) in keysByID {
        return Some(IDAlreadyExists);
      }
      if sk.name in idsByName {
        return Some(NameAlreadyExists);
      }
      SaveKey(sk);
      return None;
    }

    /** CreateKey, with the generated entropy as a parameter. A taken name, a long name and an
        unsupported type are refused. The ID of the new key is not checked: if it is new, the
        manager stays valid. */
    method CreateKey(name: Name, typ: byte, entropy: seq<byte>) returns (r: Result<Skykey>)
      requires Valid() && HasRoom() && |entropy| == ENTROPY_LEN
      modifies this
      ensures var sk := Skykey(name, typ, entropy);
              && r == (if |name| > MAX_KEY_NAME_LEN then Err(NameTooLong)
                       else if !SupportedType(typ) then Err(UnsupportedType)
                       else if name in old(idsByName) then Err(NameAlreadyExists)
                       else Ok(sk))
              && (r.Ok? ==> Memory() == Put(idOf, old(Memory()), sk) && slots == old(slots) + [Live(sk)])
              && (r.Ok? ==> (Bijective(Memory()) <==> ID(idOf, sk) !in old(keysByID)))
              && (r.Ok? && Injective(idOf) ==>
                    (Bijective(Memory()) <==> !HoldsSecret(old(Memory()), typ, entropy[..32])))
              && (r.Ok? && ID(idOf, sk) !in old(keysByID) ==> Valid())
      ensures r.Err? ==> Valid() && Memory() == old(Memory()) && slots == old(slots) && file == old(file)
      ensures fileLen <= old(fileLen) + MAX_RECORD
    {
      hide IsJournal, Unique, WriteAt, Header, Bijective;
      if |name| > MAX_KEY_NAME_LEN {
        return Err(NameTooLong);
      }
      if !SupportedType(typ) {
        return Err(UnsupportedType);
      }
      if name in idsByName {
        return Err(NameAlreadyExists);
      }
      var sk := Skykey(name, typ, entropy);
      RepresentsIsBijective(idOf, slots, Memory());
      AddKeepsBijectionIffFreshID(idOf, Memory(), sk);
      SecretKnown(idOf, file, version, fileLen, slots, Memory(), typ, entropy[..32]);
      hide Represents, Injective, HoldsSecret;
      SaveKey(sk);
      return Ok(sk);
    }

    /** saveKey: the maps first, then the record at the end of the valid part, then the header. */
    method SaveKey(sk: Skykey)
      requires Valid() && HasRoom() && IsValid(sk)
      modifies this
      ensures Memory() == Put(idOf, old(Memory()), sk) && slots == old(slots) + [Live(sk)]
      ensures IsJournal(file, version, fileLen, slots)
      ensures file == WriteAt(WriteAt(old(file), old(fileLen), Record(Live(sk))), 0, Header(version, fileLen))
      ensures fileLen == old(fileLen) + |Record(Live(sk))| <= old(fileLen) + MAX_RECORD
      ensures Fresh(old(Memory()), ID(idOf, sk), sk.name) ==> Valid()
    {
      hide IsJournal, Unique, Represents, WriteAt, Header, MarshalSia, Record, ID, Fresh, IsValid;
      SavedKey(idOf, file, version, fileLen, slots, Memory(), sk);
      var record := MarshalSia(sk).value;
      idsByName := idsByName[sk.name := ID(idOf, sk)];
      keysByID := keysByID[ID(idOf, sk) := sk];
      file := WriteAt(file, fileLen, record);
      fileLen := fileLen + |record|;
      SaveHeader();
      slots := slots + [Live(sk)];
    }

    /** DeleteKeyByName. */
    method DeleteKeyByName(name: Name) returns (error: Option<Error>)
      requires Valid()
      modifies this
      ensures Valid() && fileLen == old(fileLen)
      ensures error == (if name in old(idsByName) then None else Some(NoKeyWithThatName))
      ensures error == None ==>
                && Memory() == Keys(old(idsByName) - {name}, old(keysByID) - {old(idsByName)[name]})
                && Tombstoned(idOf, old(idsByName)[name], old(slots), old(file), slots, file)
      ensures error != None ==> Memory() == old(Memory()) && slots == old(slots) && file == old(file)
    {
      if name !in idsByName {
        return Some(NoKeyWithThatName);
      }
      RepresentsIsBijective(idOf, slots, Memory());
      error := DeleteKeyByID(idsByName[name]);
    }

    /** DeleteKeyByID: the record of the key becomes a tombstone of the same size in place; the
        key and its name leave the maps and nothing else changes. */
    method DeleteKeyByID(id: SkykeyID) returns (error: Option<Error>)
      requires Valid()
      modifies this
      ensures Valid() && fileLen == old(fileLen)
      ensures error == (if id in old(keysByID) then None else Some(NoKeyWithThatID))
      ensures error == None ==>
                && Memory() == Keys(old(idsByName) - {old(keysByID)[id].name}, old(keysByID) - {id})
                && Tombstoned(idOf, id, old(slots), old(file), slots, file)
      ensures Injective(idOf) ==>
                forall t, e :: id == idOf(t, e) ==>
                  && (error == None <==> HoldsSecret(old(Memory()), t, e))
                  && !HoldsSecret(Memory(), t, e)
      ensures error != None ==> Memory() == old(Memory()) && slots == old(slots) && file == old(file)
    {
      hide Injective, HoldsSecret, KnownBySecret, IsJournal, Unique, Represents, WriteAt, HasSlot, MarshalDeleted,
        Record, Records, ID, Tombstoned;
      ghost var was := Memory();
      SecretsKnown(idOf, file, version, fileLen, slots, was, id);
      if id !in keysByID {
        SecretGone(idOf, was, was, id);
        return Some(NoKeyWithThatID);
      }
      var key := keysByID[id];
      KeyHasSlot(idOf, slots, Memory(), id);
      var startOffset, endOffset, i := FindRecord(id, key);
      DeletedKey(idOf, file, version, fileLen, slots, Memory(), i, startOffset, key);
      var size := endOffset - startOffset - 8 - 1;
      file := WriteAt(file, startOffset, MarshalDeleted(size));
      keysByID := keysByID - {id};
      idsByName := idsByName - {key.name};
      slots := slots[i := Dead(size)];
      SecretsKnown(idOf, file, version, fileLen, slots, Memory(), id);
      SecretGone(idOf, was, Memory(), id);
      return None;
    }

    /** The search loop of deleteKeyByID: the span of the record with this ID. */
    method FindRecord(id: SkykeyID, ghost key: Skykey) returns (startOffset: nat, endOffset: nat, ghost i: nat)
      requires IsJournal(file, version, fileLen, slots)
      requires HasSlot(slots, key) && ID(idOf, key) == id
      ensures i < |slots| && slots[i].Live? && ID(idOf, slots[i].key) == id
      ensures startOffset == HEADER_LEN + |Records(slots[..i])|
      ensures endOffset == startOffset + |Record(slots[i])| <= fileLen
      ensures LoadSkykey(file, startOffset) == Ok((slots[i].key, endOffset))
      ensures startOffset < endOffset
              && LoadSkykey(file, startOffset).Ok?
              && LoadSkykey(file, startOffset).value.1 == endOffset
              && ID(idOf, LoadSkykey(file, startOffset).value.0) == id
    {
      hide IsJournal, Records, Record, LoadSkykey, ID, IsValid;
      startOffset, i := HEADER_LEN, 0;
      endOffset := startOffset;
      NothingBefore(file, version, fileLen, slots);
      while startOffset < fileLen
        invariant i <= |slots| && startOffset == HEADER_LEN + |Records(slots[..i])| <= fileLen
        invariant forall j :: 0 <= j < i && slots[j].Live? ==> ID(idOf, slots[j].key) != id
        decreases fileLen - startOffset
      {
        RecordAt(file, version, fileLen, slots, i, startOffset);
        match LoadSkykey(file, startOffset) {
          case Err(_) =>
            assert false;
          case Ok((sk, nextOffset)) =>
            endOffset := nextOffset;
            if sk.typ != TYPE_DELETED && ID(idOf, sk) == id {
              return;
            }
            startOffset := nextOffset;
        }
        i := i + 1;
      }
      AllRecordsSeen(file, version, fileLen, slots, i);
      assert false;
    }
  }

  /** NewSkykeyManager on a directory whose file holds these bytes: a manager that holds what the bytes
      say, or the reason why they cannot be loaded. */
  method NewSkykeyManager(idOf: IdFunction, file: seq<byte>, ghost journal: seq<Slot>)
    returns (m: SkykeyManager, error: Option<Error>)
    ensures fresh(m) && m.idOf == idOf
    ensures match LoadFile(idOf, file)
            case Err(e) => error == Some(e) && m.file == file
            case Ok(loaded) =>
              error == None && m.Memory() == loaded.keys && m.fileLen == loaded.fileLen && m.file == loaded.file
    ensures IsKeyFile(idOf, file, journal) ==> error == None && m.Valid() && m.slots == journal
  {
    hide LoadFile, IsKeyFile;
    m := new SkykeyManager(idOf, file);
    error := m.Load(journal);
  }

  lemma KeyHasSlot(idOf: IdFunction, slots: seq<Slot>, m: Keys, id: SkykeyID)
    requires Represents(idOf, slots, m) && id in m.keysByID
    ensures HasSlot(slots, m.keysByID[id]) && ID(idOf, m.keysByID[id]) == id
  {
  }

  lemma HeaderFields(file: seq<byte>)
    requires |file| >= HEADER_LEN
    ensures LoadHeader(file) == if file[..16] != MAGIC then Err(BadMagic)
                                else if file[16..32] != VERSION && file[16..32] != OLD_VERSION then Err(UnknownVersion)
                                else Ok((file[16..32], DecodeLE(file[32..40])))
    ensures DecodeLE(file[32..40]) < U64
  {
    EncodeDecodeLE(file[32..40]);
    Pow256Of8();
  }

  /** A length that is too short for the header or negative as a signed number ends the scan at once. */
  lemma BadLength(idOf: IdFunction, file: seq<byte>, length: nat)
    requires |file| >= HEADER_LEN && length < U64
    ensures length > MAX_FILE_LEN ==> AsInt(length) < 0
    ensures !(HEADER_LEN <= length <= MAX_FILE_LEN) ==>
              AsInt(length) < HEADER_LEN
              && Scan(idOf, file, HEADER_LEN, AsInt(length), Keys(map[], map[])) == Ok((Keys(map[], map[]), HEADER_LEN))
  {
  }

  lemma SecretKnown(idOf: IdFunction, file: seq<byte>, version: seq<byte>, fileLen: nat, slots: seq<Slot>, m: Keys,
                    t: byte, e: seq<byte>)
    requires IsJournal(file, version, fileLen, slots) && Represents(idOf, slots, m)
    ensures Injective(idOf) ==> (HoldsSecret(m, t, e) <==> idOf(t, e) in m.keysByID)
  {
    hide Represents, Records, Injective, HoldsSecret;
    KnownIDIff(idOf, slots, m, t, e);
  }

  /** The ID stands for a secret that is held exactly if the ID is known. */
  ghost predicate KnownBySecret(idOf: IdFunction, m: Keys, id: SkykeyID) {
    Injective(idOf) ==> forall t, e :: id == idOf(t, e) ==> (HoldsSecret(m, t, e) <==> id in m.keysByID)
  }

  lemma SecretsKnown(idOf: IdFunction, file: seq<byte>, version: seq<byte>, fileLen: nat, slots: seq<Slot>, m: Keys,
                     id: SkykeyID)
    requires IsJournal(file, version, fileLen, slots) && Represents(idOf, slots, m)
    ensures KnownBySecret(idOf, m, id)
  {
    hide IsJournal, Represents, Injective, HoldsSecret;
    forall t, e | id == idOf(t, e) ensures Injective(idOf) ==> (HoldsSecret(m, t, e) <==> id in m.keysByID) {
      SecretKnown(idOf, file, version, fileLen, slots, m, t, e);
    }
  }

  lemma SecretGone(idOf: IdFunction, m: Keys, m': Keys, id: SkykeyID)
    requires KnownBySecret(idOf, m, id) && KnownBySecret(idOf, m', id) && id !in m'.keysByID
    ensures Injective(idOf) ==>
              forall t, e :: id == idOf(t, e) ==>
                (id in m.keysByID <==> HoldsSecret(m, t, e)) && !HoldsSecret(m', t, e)
  {
    hide Injective, HoldsSecret;
  }

  lemma NothingBefore(file: seq<byte>, version: seq<byte>, fileLen: nat, slots: seq<Slot>)
    requires IsJournal(file, version, fileLen, slots)
    ensures |Records(slots[..0])| == 0 && HEADER_LEN <= fileLen <= |file|
  {
  }

  lemma LiveRecord(sk: Skykey)
    requires IsValid(sk)
    ensures ValidSlot(Live(sk)) && MarshalSia(sk) == Ok(Record(Live(sk))) && |Record(Live(sk))| <= MAX_RECORD
  {
    LiveRecordParses(sk, []);
  }

  /** What saveKey leaves on disk and in memory. */
  lemma SavedKey(idOf: IdFunction, file: seq<byte>, version: seq<byte>, fileLen: nat, slots: seq<Slot>, m: Keys,
                 sk: Skykey)
    requires version == VERSION && IsJournal(file, version, fileLen, slots)
    requires Unique(idOf, slots) && Represents(idOf, slots, m)
    requires IsValid(sk) && fileLen + MAX_RECORD <= MAX_FILE_LEN
    ensures MarshalSia(sk) == Ok(Record(Live(sk))) && |Record(Live(sk))| <= MAX_RECORD
    ensures var record, written := Record(Live(sk)), fileLen + |Record(Live(sk))|;
            var saved := WriteAt(WriteAt(file, fileLen, record), 0, Header(version, written));
            IsJournal(saved, version, written, slots + [Live(sk)])
    ensures Fresh(m, ID(idOf, sk), sk.name) ==>
              Unique(idOf, slots + [Live(sk)]) && Represents(idOf, slots + [Live(sk)], Put(idOf, m, sk))
  {
    hide IsJournal, Unique, Represents, WriteAt, Header, ValidSlot, Record, Records, MarshalSia, ID, Put, IsValid,
      Fresh;
    LiveRecord(sk);
    CommittedAdd(file, version, fileLen, slots, Live(sk), fileLen + |Record(Live(sk))|);
    if Fresh(m, ID(idOf, sk), sk.name) {
      RepresentsAdd(idOf, slots, m, sk);
      UniqueAdd(idOf, slots, m, sk);
    }
  }

  /** What deleting the record of a key leaves on disk and in memory. */
  lemma DeletedKey(idOf: IdFunction, file: seq<byte>, version: seq<byte>, fileLen: nat, slots: seq<Slot>, m: Keys,
                   i: nat, start: nat, key: Skykey)
    requires IsJournal(file, version, fileLen, slots) && Unique(idOf, slots) && Represents(idOf, slots, m)
    requires i < |slots| && slots[i].Live? && ID(idOf, slots[i].key) == ID(idOf, key) && HasSlot(slots, key)
    requires start == HEADER_LEN + |Records(slots[..i])|
    ensures var size := |Record(slots[i])| - 9;
            && size >= 0
            && IsJournal(WriteAt(file, start, MarshalDeleted(size)), version, fileLen, slots[i := Dead(size)])
            && Unique(idOf, slots[i := Dead(size)])
            && Represents(idOf, slots[i := Dead(size)], Keys(m.idsByName - {key.name}, m.keysByID - {ID(idOf, key)}))
            && Tombstoned(idOf, ID(idOf, key), slots, file, slots[i := Dead(size)],
                          WriteAt(file, start, MarshalDeleted(size)))
  {
    hide IsJournal, Unique, WriteAt, Records, Record, MarshalDeleted, ID;
    assert HasSlot(slots, slots[i].key);
    assert slots[i].key == key;
    CommittedDelete(file, version, fileLen, slots, i, start);
    var size := |Record(slots[i])| - 9;
    assert TombstoneAt(idOf, ID(idOf, key), slots, file, slots[i := Dead(size)],
                       WriteAt(file, start, MarshalDeleted(size)), i);
    RepresentsDelete(idOf, slots, m, i, size);
    DeletedSlots(idOf, slots, i, size, key);
  }

  // ----- Runs ------------------------------------------------------------------------------

  datatype Op =
    | Add(key: Skykey)
    | Create(name: Name, typ: byte, entropy: seq<byte>)
    | DeleteByID(id: SkykeyID)
    | DeleteByName(name: Name)

  /** The ID an operation may bring in. */
  function OpIDs(idOf: IdFunction, op: Op): set<SkykeyID> {
    match op
    case Add(key) => {ID(idOf, key)}
    case Create(name, typ, entropy) => {ID(idOf, Skykey(name, typ, entropy))}
    case _ => {}
  }

  /** Generated entropy has the right size and an ID that no key and no earlier operation has. */
  ghost predicate FreshEntropy(idOf: IdFunction, ids: set<SkykeyID>, ops: seq<Op>) {
    forall i :: 0 <= i < |ops| && ops[i].Create? ==>
      && |ops[i].entropy| == ENTROPY_LEN
      && OpIDs(idOf, ops[i]) !! ids
      && forall j :: 0 <= j < i ==> OpIDs(idOf, ops[i]) !! OpIDs(idOf, ops[j])
  }

  /** What an operation does to two maps without a file. */
  ghost function After(idOf: IdFunction, m: Keys, op: Op): Keys {
    match op
    case Add(key) => if IsValid(key) && Fresh(m, ID(idOf, key), key.name) then Put(idOf, m, key) else m
    case Create(name, typ, entropy) =>
      var key := Skykey(name, typ, entropy);
      if IsValid(key) && name !in m.idsByName then Put(idOf, m, key) else m
    case DeleteByID(id) =>
      if id in m.keysByID then Keys(m.idsByName - {m.keysByID[id].name}, m.keysByID - {id}) else m
    case DeleteByName(name) =>
      if name in m.idsByName then Keys(m.idsByName - {name}, m.keysByID - {m.idsByName[name]}) else m
  }

  ghost function AfterAll(idOf: IdFunction, m: Keys, ops: seq<Op>): Keys {
    if ops == [] then m else After(idOf, AfterAll(idOf, m, ops[..|ops| - 1]), ops[|ops| - 1])
  }

  /** Any run of operations on a valid manager leaves the maps as the operations on two maps without a
      file do, in a state whose file reloads to these maps, with names and IDs in bijection. */
  method Run(m: SkykeyManager, ops: seq<Op>)
    requires m.Valid() && m.fileLen + |ops| * MAX_RECORD <= MAX_FILE_LEN
    requires FreshEntropy(m.idOf, m.keysByID.Keys, ops)
    modifies m
    ensures m.Valid()
    ensures m.Memory() == AfterAll(m.idOf, old(m.Memory()), ops)
    ensures LoadFile(m.idOf, m.file) == Ok(Loaded(m.Memory(), m.fileLen, m.file))
    ensures Bijective(m.Memory())
  {
    hide IsJournal, Unique, Represents, ID, Put, After;
    ghost var ids := m.keysByID.Keys;
    var k := 0;
    while k < |ops|
      invariant k <= |ops| && m.Valid()
      invariant m.fileLen + (|ops| - k) * MAX_RECORD <= MAX_FILE_LEN
      invariant m.Memory() == AfterAll(m.idOf, old(m.Memory()), ops[..k])
      invariant forall id :: id in m.keysByID ==> id in ids || exists j :: 0 <= j < k && id in OpIDs(m.idOf, ops[j])
    {
      ApplyOp(m, ops[k]);
      assert ops[..k + 1][..k] == ops[..k];
      k := k + 1;
    }
    assert ops[..|ops|] == ops;
    JournalLoads(m.idOf, m.file, m.version, m.fileLen, m.slots, m.Memory());
    RepresentsIsBijective(m.idOf, m.slots, m.Memory());
  }

  method ApplyOp(m: SkykeyManager, op: Op)
    requires m.Valid() && m.HasRoom()
    requires op.Create? ==> |op.entropy| == ENTROPY_LEN && OpIDs(m.idOf, op) !! m.keysByID.Keys
    modifies m
    ensures m.Valid() && m.fileLen <= old(m.fileLen) + MAX_RECORD
    ensures m.Memory() == After(m.idOf, old(m.Memory()), op)
    ensures m.keysByID.Keys <= old(m.keysByID.Keys) + OpIDs(m.idOf, op)
  {
    hide IsJournal, Unique, Represents, ID;
    match op {
      case Add(key) => var _ := m.AddKey(key);
      case Create(name, typ, entropy) => var _ := m.CreateKey(name, typ, entropy);
      case DeleteByID(id) => var _ := m.DeleteKeyByID(id);
      case DeleteByName(name) => var _ := m.DeleteKeyByName(name);
    }
  }

  /** A new file, or one that holds the records of unique slots. */
  ghost predicate IsKeyFile(idOf: IdFunction, file: seq<byte>, journal: seq<Slot>) {
    if |file| < HEADER_LEN then journal == []
    else Unique(idOf, journal) && exists v, n :: IsJournal(file, v, n, journal)
  }

  lemma EmptyJournal(file: seq<byte>)
    requires |file| < HEADER_LEN
    ensures IsJournal(WriteAt(file, 0, Header(VERSION, HEADER_LEN)), VERSION, HEADER_LEN, [])
  {
    HeaderLength(VERSION, HEADER_LEN);
    WriteAtParts(file, 0, Header(VERSION, HEADER_LEN));
  }

  lemma UpgradedJournal(file: seq<byte>, version: seq<byte>, fileLen: nat, slots: seq<Slot>)
    requires IsJournal(file, version, fileLen, slots)
    ensures IsJournal(WriteAt(file, 0, Header(VERSION, fileLen)), VERSION, fileLen, slots)
  {
    HeaderLength(VERSION, fileLen);
    WriteAtParts(file, fileLen, []);
    assert WriteAt(file, fileLen, []) == file;
    hide Records, Header, WriteAt;
    AppendThenHeader(file, fileLen, [], Header(VERSION, fileLen));
  }

  /** Loading a key file gives a valid manager state for its slots. */
  lemma KeyFileLoads(idOf: IdFunction, file: seq<byte>, journal: seq<Slot>)
    requires IsKeyFile(idOf, file, journal)
    ensures LoadFile(idOf, file).Ok?
    ensures var l := LoadFile(idOf, file).value;
            IsJournal(l.file, VERSION, l.fileLen, journal) && Unique(idOf, journal) && Represents(idOf, journal, l.keys)
  {
    var none := Keys(map[], map[]);
    assert [] + journal == journal;
    ReplayRepresents(idOf, [], none, journal);
    hide IsJournal, Unique, Represents, Replay;
    if |file| < HEADER_LEN {
      EmptyJournal(file);
    } else {
      var v, n :| IsJournal(file, v, n, journal);
      JournalLoads(idOf, file, v, n, journal, Replay(idOf, none, journal));
      UpgradedJournal(file, v, n, journal);
    }
  }

  /** The record at the start of slot i parses as slot i and ends inside the valid part. */
  lemma RecordAt(file: seq<byte>, version: seq<byte>, fileLen: nat, slots: seq<Slot>, i: nat, start: nat)
    requires IsJournal(file, version, fileLen, slots) && i <= |slots|
    requires start == HEADER_LEN + |Records(slots[..i])| < fileLen
    ensures i < |slots|
    ensures LoadSkykey(file, start) == Ok((SlotKey(slots[i]), start + |Record(slots[i])|))
    ensures start + |Record(slots[i])| == HEADER_LEN + |Records(slots[..i + 1])| <= fileLen
    ensures slots[i].Live? ==> slots[i].key.typ != TYPE_DELETED
  {
    hide Record, Header, LoadSkykey;
    assert slots[..|slots|] == slots;
    RecordsSplit(slots, i);
    var before, r, after := Records(slots[..i]), Record(slots[i]), Records(slots[i + 1..]);
    SubSlice(file, HEADER_LEN, fileLen, |before|, |before| + |r|);
    SubSlice(file, start, |file|, 0, |r|);
    assert (before + r + after)[|before|..|before| + |r|] == r;
    RecordParses(slots[i], file, start);
  }

  lemma AllRecordsSeen(file: seq<byte>, version: seq<byte>, fileLen: nat, slots: seq<Slot>, i: nat)
    requires IsJournal(file, version, fileLen, slots) && i <= |slots|
    requires fileLen == HEADER_LEN + |Records(slots[..i])|
    ensures i == |slots|
  {
    if i < |slots| {
      RecordsSplit(slots, i);
      match slots[i]
      case Live(key) => LiveRecordParses(key, []);
      case Dead(size) => DeadRecordParses(size, []);
    }
  }
}
